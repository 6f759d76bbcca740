// normalizeDomainAppend of internal/rule/rule.go against lookupHostname of internal/rule/hostname.go: what the parser
// does to a domain_append value does not change the names it leads to.
module DomainAppend {
  import opened Text
  import opened Rules
  import opened RuleParser

  /** Blank and untrimmed tokens add nothing of their own. */
  lemma {:induction false} TokensAppendTheSame(parts: seq<string>, globalDom: string, ruleDom: string)
    ensures Appended(Tokens(parts), globalDom, ruleDom) == Appended(parts, globalDom, ruleDom)
    decreases |parts|
  {
    hide TrimSpace;
    if parts != [] {
      TokensAppendTheSame(parts[1..], globalDom, ruleDom);
      var p, rest := TrimSpace(parts[0]), Tokens(parts[1..]);
      TrimIdempotent(parts[0]);
      if p == "" {
        BlankTokenAddsNothing(globalDom, ruleDom);
        assert [] + rest == rest;
      } else {
        AppendedCons(p, rest, globalDom, ruleDom);
      }
    }
  }

  lemma BlankTokenAddsNothing(globalDom: string, ruleDom: string)
    ensures Dotted(Token("", globalDom, ruleDom)) == ""
  {
  }

  lemma AppendedCons(p: string, rest: seq<string>, globalDom: string, ruleDom: string)
    ensures Appended([p] + rest, globalDom, ruleDom)
            == Dotted(Token(TrimSpace(p), globalDom, ruleDom)) + Appended(rest, globalDom, ruleDom)
  {
    hide TrimSpace, Token, Dotted;
    assert ([p] + rest)[1..] == rest;
  }

  /** Text of small letters and bars, not empty and without a bar at either end. */
  predicate Plain(s: string) {
    && s != "" && s[0] != '|' && s[|s| - 1] != '|'
    && forall i :: 0 <= i < |s| ==> 'a' <= s[i] <= 'z' || s[i] == '|'
  }

  lemma {:induction false} LowerNoOp(s: string)
    requires forall i :: 0 <= i < |s| ==> !('A' <= s[i] <= 'Z')
    ensures Lower(s) == s
    decreases |s|
  {
    if s != "" {
      LowerNoOp(s[1..]);
      assert [s[0]] + s[1..] == s;
    }
  }

  lemma PlainIsNormal(s: string)
    requires Plain(s)
    ensures TrimSpace(Lower(s)) == s
  {
    LowerNoOp(s);
    assert !IsSpace(s[0]) && !IsSpace(s[|s| - 1]);
    TrimNoOp(s);
  }

  lemma PlainPair(a: string, b: string)
    requires Plain(a) && Plain(b)
    ensures Plain(a + "|" + b)
  {
  }

  /** A token: plain text without a bar. */
  predicate Word(s: string) {
    Plain(s) && '|' !in s
  }

  lemma KeywordsAreWords()
    ensures Word("global") && Word("rule") && Word("none")
  {
  }

  lemma MeaningfulAreWords(toks: seq<string>)
    requires Meaningful(toks)
    ensures 1 <= |toks| <= 2 && forall i :: 0 <= i < |toks| ==> Word(toks[i])
  {
    KeywordsAreWords();
    hide Word;
  }

  lemma PlainIsTrimmed(s: string)
    requires Plain(s)
    ensures TrimSpace(s) == s
  {
    assert !IsSpace(s[0]) && !IsSpace(s[|s| - 1]);
    TrimNoOp(s);
  }

  lemma {:induction false} WordsAreTokens(toks: seq<string>)
    requires forall i :: 0 <= i < |toks| ==> Word(toks[i])
    ensures Tokens(toks) == toks
    decreases |toks|
  {
    hide TrimSpace;
    if toks != [] {
      WordsAreTokens(toks[1..]);
      PlainIsTrimmed(toks[0]);
      assert [toks[0]] + toks[1..] == toks;
    }
  }

  lemma JoinOfWords(toks: seq<string>)
    requires 1 <= |toks| <= 2 && forall i :: 0 <= i < |toks| ==> Word(toks[i])
    ensures Plain(Join(toks, "|"))
  {
    if |toks| == 2 {
      PlainPair(toks[0], toks[1]);
      assert Join(toks[1..], "|") == toks[1];
    }
  }

  /** A normalized value has the tokens it was made of. */
  lemma NormalReadsBack(toks: seq<string>)
    requires 1 <= |toks| <= 2 && forall i :: 0 <= i < |toks| ==> Word(toks[i])
    ensures AppendTokens(Join(toks, "|")) == toks
  {
    hide Lower, TrimSpace, Split, Tokens, Plain, Join;
    JoinOfWords(toks);
    PlainIsNormal(Join(toks, "|"));
    SplitOfJoin(toks, '|');
    assert "|" == ['|'];
    hide Word;
    WordsAreTokens(toks);
  }

  lemma NoneAddsNothing(globalDom: string, ruleDom: string)
    ensures Split("none", '|') == ["none"] && Appended(["none"], globalDom, ruleDom) == ""
  {
    KeywordsAreWords();
    IndexOfAbsent("none", '|');
    PlainIsTrimmed("none");
    KeywordsDiffer();
    hide TrimSpace, Plain, IndexOf;
  }

  lemma NothingHasNoTokens(mode: string)
    requires Tokens(Split(mode, '|')) != []
    ensures mode != ""
  {
    hide Tokens, Split;
    NoTokens();
  }

  /** What a domain_append value with tokens adds, unless the rule's domain is the word none. */
  lemma SuffixOfTokens(domain: string, a: Action)
    requires AppendTokens(a.domainAppend) != [] && Lower(TrimSpace(a.domain)) != "none"
    ensures DomainSuffix(domain, a) == Appended(AppendTokens(a.domainAppend), GlobalDomain(domain), RuleDomain(a))
  {
    var mode := TrimSpace(Lower(a.domainAppend));
    hide TrimSpace, Lower, Split, Tokens, Appended, GlobalDomain, RuleDomain, Dotted;
    NothingHasNoTokens(mode);
    TokensAppendTheSame(Split(mode, '|'), GlobalDomain(domain), RuleDomain(a));
    NoneAddsNothing(GlobalDomain(domain), RuleDomain(a));
  }

  lemma NoSuffixForNone(domain: string, a: Action)
    requires Lower(TrimSpace(a.domain)) == "none"
    ensures DomainSuffix(domain, a) == ""
  {
    hide TrimSpace, Lower, Split, Appended, GlobalDomain, Dotted;
  }

  lemma SameDomain(a: Action, append: string)
    ensures RuleDomain(a.(domainAppend := append)) == RuleDomain(a)
  {
  }

  /**
   * Normalizing a domain_append value keeps its meaning: any value ParseRule accepts, in whatever case and spacing and
   * with whatever empty tokens, adds to every name exactly what its normalized form adds, and that is the domains its
   * tokens stand for, in their order.
   */
  lemma NormalizationKeepsNames(raw: string, a: Action, pattern: string, domain: string, ii: IfaceInfo)
    requires Meaningful(AppendTokens(raw))
    ensures var norm := Join(AppendTokens(raw), "|");
            NameFor(pattern, domain, ii, a.(domainAppend := norm))
            == NameFor(pattern, domain, ii, a.(domainAppend := raw))
    ensures Lower(TrimSpace(a.domain)) != "none" ==>
              DomainSuffix(domain, a.(domainAppend := raw))
              == Appended(AppendTokens(raw), GlobalDomain(domain), RuleDomain(a))
  {
    MeaningfulAreWords(AppendTokens(raw));
    NormalReadsBack(AppendTokens(raw));
    hide Meaningful, Word, AppendTokens, Join, TrimSpace, Lower, Appended, GlobalDomain, RuleDomain, DomainSuffix,
      Hostname.ExpandHostnamePattern;
    var norm := Join(AppendTokens(raw), "|");
    SameDomain(a, norm);
    SameDomain(a, raw);
    if Lower(TrimSpace(a.domain)) == "none" {
      NoSuffixForNone(domain, a.(domainAppend := norm));
      NoSuffixForNone(domain, a.(domainAppend := raw));
    } else {
      SuffixOfTokens(domain, a.(domainAppend := norm));
      SuffixOfTokens(domain, a.(domainAppend := raw));
    }
  }
}
