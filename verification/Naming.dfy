// What names come out of lookupHostname and of the two evaluators: the domains each mode appends, and the default name.
module Naming {
  import opened Wrappers
  import opened Text
  import opened Rules
  import opened RuleParser
  import opened DomainAppend
  import opened Evaluate
  import Hostname

  /** A name with a domain after a dot, or alone when the domain is empty. */
  function With(name: string, domain: string): string {
    if domain == "" then name else name + "." + domain
  }

  lemma WithDotted(name: string, domain: string)
    ensures name + Dotted(domain) == With(name, domain)
  {
    assert name + ("." + domain) == name + "." + domain;
    assert name + "" == name;
  }

  /** The global domain is the configured text without the blanks around it and the dots in front. */
  lemma GlobalDomainIs(before: string, dots: string, d: string, after: string)
    requires Blank(before) && Blank(after) && forall i :: 0 <= i < |dots| ==> dots[i] == '.'
    requires d == "" || (d[0] != '.' && !IsSpace(d[|d| - 1]) && (dots == "" ==> !IsSpace(d[0])))
    ensures GlobalDomain(before + (dots + d) + after) == d
  {
    DotIsVisible();
    var t := dots + d;
    if t != "" {
      assert t[0] == if dots == "" then d[0] else dots[0];
      assert t[|t| - 1] == if d == "" then dots[|dots| - 1] else d[|d| - 1];
    }
    hide IsSpace;
    TrimPadded(before, t, after);
    hide TrimSpace;
    TrimLeftDrops(dots, d, '.');
  }

  lemma DotIsVisible()
    ensures !IsSpace('.')
  {
  }

  /** The domain of a rule is read in the same way. */
  lemma RuleDomainIs(a: Action)
    ensures RuleDomain(a) == GlobalDomain(a.domain)
  {
    hide TrimSpace;
  }

  // --- what each mode appends ---

  lemma OnePiece(tok: string)
    requires '|' !in tok
    ensures Split(tok, '|') == [tok]
  {
    IndexOfAbsent(tok, '|');
  }

  lemma NoTokensAppended(globalDom: string, ruleDom: string)
    ensures Appended([], globalDom, ruleDom) == ""
  {
  }

  lemma OneToken(tok: string, globalDom: string, ruleDom: string)
    requires Word(tok)
    ensures Split(tok, '|') == [tok]
    ensures Appended([tok], globalDom, ruleDom) == Dotted(Token(tok, globalDom, ruleDom))
  {
    hide TrimSpace, Plain, Dotted, Token, Appended, Split;
    OnePiece(tok);
    PlainIsTrimmed(tok);
    AppendedCons(tok, [], globalDom, ruleDom);
    NoTokensAppended(globalDom, ruleDom);
    assert [tok] + [] == [tok];
    assert Dotted(Token(tok, globalDom, ruleDom)) + "" == Dotted(Token(tok, globalDom, ruleDom));
  }

  lemma TwoTokens(x: string, y: string, globalDom: string, ruleDom: string)
    requires Word(x) && Word(y)
    ensures Split(x + "|" + y, '|') == [x, y]
    ensures Appended([x, y], globalDom, ruleDom)
            == Dotted(Token(x, globalDom, ruleDom)) + Dotted(Token(y, globalDom, ruleDom))
  {
    OneToken(y, globalDom, ruleDom);
    PlainIsTrimmed(x);
    hide TrimSpace, Plain, Dotted, Token, Appended;
    BarJoins(x, y);
    SplitOfJoin([x, y], '|');
    AppendedCons(x, [y], globalDom, ruleDom);
    assert [x] + [y] == [x, y];
  }

  lemma BarJoins(x: string, y: string)
    ensures Join([x, y], ['|']) == x + "|" + y
  {
    assert [x, y][1..] == [y];
  }

  /** A rule whose domain is not the word none, and whose mode, lower-cased and trimmed, is this. */
  predicate HasMode(a: Action, mode: string) {
    Lower(TrimSpace(a.domain)) != "none" && TrimSpace(Lower(a.domainAppend)) == mode
  }

  lemma SuffixOfMode(domain: string, a: Action, mode: string)
    requires HasMode(a, mode) && mode != "" && mode != "none"
    ensures DomainSuffix(domain, a) == Appended(Split(mode, '|'), GlobalDomain(domain), RuleDomain(a))
  {
    hide TrimSpace, Lower, Split, Appended, GlobalDomain, RuleDomain, Dotted;
  }

  /** The tokens stand for the domains they name. */
  lemma TokensStandFor(globalDom: string, ruleDom: string)
    ensures Token("global", globalDom, ruleDom) == globalDom && Token("rule", globalDom, ruleDom) == ruleDom
  {
    KeywordsDiffer();
  }

  lemma OneDomain(pattern: string, domain: string, ii: IfaceInfo, a: Action, mode: string)
    requires HasMode(a, mode) && (mode == "global" || mode == "rule")
    ensures var hn := Hostname.ExpandHostnamePattern(pattern, ii.compNID, ii.compID);
            NameFor(pattern, domain, ii, a)
            == With(hn, if mode == "global" then GlobalDomain(domain) else RuleDomain(a))
  {
    KeywordsDiffer();
    KeywordsAreWords();
    TokensStandFor(GlobalDomain(domain), RuleDomain(a));
    hide Word, HasMode, Dotted, Token, Appended, DomainSuffix, GlobalDomain, RuleDomain, With, Split,
      Hostname.ExpandHostnamePattern;
    SuffixOfMode(domain, a, mode);
    OneToken(mode, GlobalDomain(domain), RuleDomain(a));
    WithDotted(Hostname.ExpandHostnamePattern(pattern, ii.compNID, ii.compID),
               if mode == "global" then GlobalDomain(domain) else RuleDomain(a));
  }

  lemma TwoWords(x: string, y: string)
    requires x == "global" || x == "rule"
    requires y == "global" || y == "rule"
    ensures x + "|" + y != "" && x + "|" + y != "none"
  {
    assert (x + "|" + y)[|x|] == '|';
    KeywordsAreWords();
  }

  lemma TwoSuffixes(domain: string, a: Action, x: string, y: string)
    requires HasMode(a, x + "|" + y)
    requires (x == "global" && y == "rule") || (x == "rule" && y == "global")
    ensures DomainSuffix(domain, a)
            == Dotted(if x == "global" then GlobalDomain(domain) else RuleDomain(a))
               + Dotted(if y == "global" then GlobalDomain(domain) else RuleDomain(a))
  {
    KeywordsDiffer();
    KeywordsAreWords();
    TwoWords(x, y);
    TokensStandFor(GlobalDomain(domain), RuleDomain(a));
    hide Word, HasMode, Dotted, Token, Appended, DomainSuffix, GlobalDomain, RuleDomain, Split;
    SuffixOfMode(domain, a, x + "|" + y);
    TwoTokens(x, y, GlobalDomain(domain), RuleDomain(a));
  }

  lemma TwoDomains(pattern: string, domain: string, ii: IfaceInfo, a: Action, x: string, y: string)
    requires HasMode(a, x + "|" + y)
    requires (x == "global" && y == "rule") || (x == "rule" && y == "global")
    ensures var hn := Hostname.ExpandHostnamePattern(pattern, ii.compNID, ii.compID);
            NameFor(pattern, domain, ii, a)
            == With(With(hn, if x == "global" then GlobalDomain(domain) else RuleDomain(a)),
                    if y == "global" then GlobalDomain(domain) else RuleDomain(a))
  {
    TwoSuffixes(domain, a, x, y);
    var d := if x == "global" then GlobalDomain(domain) else RuleDomain(a);
    var e := if y == "global" then GlobalDomain(domain) else RuleDomain(a);
    hide HasMode, Dotted, DomainSuffix, GlobalDomain, RuleDomain, With, Hostname.ExpandHostnamePattern;
    TwiceDotted(Hostname.ExpandHostnamePattern(pattern, ii.compNID, ii.compID), d, e);
  }

  lemma TwiceDotted(hn: string, d: string, e: string)
    ensures hn + (Dotted(d) + Dotted(e)) == With(With(hn, d), e)
  {
    WithDotted(hn, d);
    WithDotted(With(hn, d), e);
    hide Dotted, With;
    assert hn + (Dotted(d) + Dotted(e)) == hn + Dotted(d) + Dotted(e);
  }

  lemma NoDomain(pattern: string, domain: string, ii: IfaceInfo, a: Action)
    requires Lower(TrimSpace(a.domain)) == "none" || TrimSpace(Lower(a.domainAppend)) == "none"
    ensures NameFor(pattern, domain, ii, a) == Hostname.ExpandHostnamePattern(pattern, ii.compNID, ii.compID)
  {
    hide TrimSpace, Lower, Split, Appended, GlobalDomain, RuleDomain, Dotted, Hostname.ExpandHostnamePattern;
    var hn := Hostname.ExpandHostnamePattern(pattern, ii.compNID, ii.compID);
    assert hn + "" == hn;
  }

  lemma DefaultDomain(pattern: string, domain: string, ii: IfaceInfo, a: Action)
    requires HasMode(a, "")
    ensures NameFor(pattern, domain, ii, a)
            == With(Hostname.ExpandHostnamePattern(pattern, ii.compNID, ii.compID),
                    if RuleDomain(a) != "" then RuleDomain(a) else GlobalDomain(domain))
  {
    hide TrimSpace, Lower, Split, Appended, GlobalDomain, RuleDomain, Dotted, Hostname.ExpandHostnamePattern, With;
    WithDotted(Hostname.ExpandHostnamePattern(pattern, ii.compNID, ii.compID),
               if RuleDomain(a) != "" then RuleDomain(a) else GlobalDomain(domain));
  }

  /**
   * The name in every mode, g and r being the global and the rule domain without blanks and leading dots: each is
   * appended after a dot, unless it is empty; the rule's domain comes before the global one when no mode is given, and
   * the word none, as the mode or as the rule's domain, appends nothing.
   */
  lemma ModeNames(pattern: string, domain: string, ii: IfaceInfo, a: Action)
    ensures var hn := Hostname.ExpandHostnamePattern(pattern, ii.compNID, ii.compID);
            var g, r := GlobalDomain(domain), GlobalDomain(a.domain);
            var name := NameFor(pattern, domain, ii, a);
            && (HasMode(a, "global") ==> name == if g == "" then hn else hn + "." + g)
            && (HasMode(a, "rule") ==> name == if r == "" then hn else hn + "." + r)
            && (HasMode(a, "global|rule") ==> name == With(With(hn, g), r))
            && (HasMode(a, "rule|global") ==> name == With(With(hn, r), g))
            && (HasMode(a, "none") ==> name == hn)
            && (HasMode(a, "") ==> name == if r != "" then hn + "." + r else if g != "" then hn + "." + g else hn)
            && (Lower(TrimSpace(a.domain)) == "none" ==> name == hn)
  {
    RuleDomainIs(a);
    if Lower(TrimSpace(a.domain)) == "none" || HasMode(a, "none") {
      NoDomain(pattern, domain, ii, a);
    }
    hide TrimSpace, Lower, NameFor, GlobalDomain, RuleDomain, Hostname.ExpandHostnamePattern;
    if HasMode(a, "global") {
      OneDomain(pattern, domain, ii, a, "global");
    }
    if HasMode(a, "rule") {
      OneDomain(pattern, domain, ii, a, "rule");
    }
    BarredModes();
    if HasMode(a, "global|rule") {
      TwoDomains(pattern, domain, ii, a, "global", "rule");
    }
    if HasMode(a, "rule|global") {
      TwoDomains(pattern, domain, ii, a, "rule", "global");
    }
    if HasMode(a, "") {
      DefaultDomain(pattern, domain, ii, a);
    }
  }

  lemma BarredModes()
    ensures "global" + "|" + "rule" == "global|rule" && "rule" + "|" + "global" == "rule|global"
  {
  }

  // --- the default name ---

  lemma UnknownIs(nid: int, id: string) returns (p: string)
    ensures Hostname.ExpandHostnamePattern("unknown-{04d}", nid, id) == "unknown-" + p
    ensures Hostname.IsPadded(p, nid, 4)
  {
    FourIs();
    hide Hostname.IsPadded, Hostname.Number, Hostname.ExpandHostnamePattern, Hostname.Written, Hostname.AllDigits;
    p := Hostname.PlaceholderPads("unknown-", "04", "", nid, id);
    assert "unknown-" + Hostname.Placeholder("04") + "" == "unknown-{04d}";
    assert "unknown-" + p + "" == "unknown-" + p;
  }

  lemma FourIs()
    ensures Hostname.Number("04") == 4 && Hostname.AllDigits("04")
  {
    assert "04"[..1] == "0" && "0"[..0] == "";
    assert Hostname.Number("0") == 0;
  }

  lemma DefaultNameIs(domain: string, ii: IfaceInfo) returns (p: string)
    ensures Hostname.IsPadded(p, ii.compNID, 4)
    ensures DefaultName(domain, ii) == With("unknown-" + p, GlobalDomain(domain))
  {
    p := UnknownIs(ii.compNID, ii.compID);
    EmptyActionHasNoMode();
    hide Hostname.IsPadded, Hostname.ExpandHostnamePattern, NameFor, HasMode, GlobalDomain;
    ModeNames(DEFAULT_PATTERN, domain, ii, EMPTY_ACTION);
    NothingConfigured();
  }

  lemma NothingIsNothing()
    ensures TrimSpace("") == "" && Lower("") == ""
  {
    TrimNoOp("");
  }

  lemma EmptyActionHasNoMode()
    ensures HasMode(EMPTY_ACTION, "")
  {
    NothingIsNothing();
    hide TrimSpace, Lower;
  }

  lemma NothingConfigured()
    ensures GlobalDomain(EMPTY_ACTION.domain) == ""
  {
    TrimNoOp("");
    hide TrimSpace;
  }

  lemma NoneNames(rules: seq<Rule>, ii: IfaceInfo)
    requires forall j :: Reached(rules, ii, j) && !rules[j].action.ignore ==> TrimSpace(rules[j].action.hostname) == ""
    ensures LastSetter(rules, ii, NameField, |rules|) == -1
  {
    LastSetterIsLast(rules, ii, NameField, |rules|);
    hide LastSetter, TrimSpace, Reached;
  }

  /**
   * When no reached rule names, both evaluators give the name unknown-, the number padded to four, and the global
   * domain after a dot when there is one.
   */
  lemma UnnamedGetDefault(rules: seq<Rule>, domain: string, ii: IfaceInfo) returns (p: string)
    requires forall j :: Reached(rules, ii, j) && !rules[j].action.ignore ==> TrimSpace(rules[j].action.hostname) == ""
    ensures Hostname.IsPadded(p, ii.compNID, 4)
    ensures var g := GlobalDomain(domain);
            var name := if g == "" then "unknown-" + p else "unknown-" + p + "." + g;
            FinalName4(rules, domain, ii) == name && Join(FinalLabels6(rules, domain, ii), ".") == name
  {
    hide Hostname.IsPadded, DefaultName, GlobalDomain, LastSetter, TrimSpace, Split, Join, Reached, RuleName;
    p := DefaultNameIs(domain, ii);
    NoneNames(rules, ii);
    JoinOfSplit(DefaultName(domain, ii), '.');
  }
}
