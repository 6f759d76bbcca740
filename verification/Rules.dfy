// internal/rule: the rule values, matching, and the name a rule gives (internal/rule/hostname.go).
module Rules {
  import opened Wrappers
  import opened Text
  import opened Net
  import opened Netmask
  import Hostname

  /** iface.IfaceInfo */
  datatype IfaceInfo = IfaceInfo(compID: string, compNID: int, typ: string, mac: string, ipList: seq<IP>)

  /** A net.IPMask: nil, four bytes, or the sixteen bytes copied from an IPv6 subnet. */
  datatype Mask = NoMask | Mask4(bits: bv32) | Mask16(ones: Width6)

  datatype Match = Match(types: set<string>, subnets: seq<Cidr>, id: string, idSet: Option<set<string>>)

  datatype Action = Action(
    hostname: string,
    domain: string,
    domainAppend: string,
    netmask: Mask,
    routers: seq<u32>,
    cont: bool,
    ignore: bool)

  datatype Rule = Rule(name: string, log: string, criteria: Match, action: Action)

  const EMPTY_ACTION: Action := Action("", "", "", NoMask, [], false, false)

  /** The mask's Size() has ones and bits both non-zero. */
  predicate Usable(m: Mask) {
    match m
    case NoMask => false
    case Mask4(bits) => CheckValidNetmask(bits) && bits != 0
    case Mask16(ones) => ones != 0
  }

  /** The mask of a parsed network. */
  function MaskOf(n: Cidr): Mask {
    match n
    case Cidr4(_, ones) => Mask4(WidthMask(ones))
    case Cidr6(_, ones) => Mask16(ones)
  }

  // --- matching ---

  /** Every criterion the rule states holds of the interface. */
  ghost predicate Matches(m: Match, ii: IfaceInfo) {
    && (m.types != {} ==> ii.typ in m.types)
    && (m.subnets != [] ==> ii.ipList != [] && exists i :: 0 <= i < |m.subnets| && Contains(m.subnets[i], ii.ipList[0]))
    && (TrimSpace(m.id) != "" ==> ii.compID == TrimSpace(m.id))
    && (TrimSpace(m.id) == "" && m.idSet.Some? ==> ii.compID in m.idSet.value)
  }

  /** MatchIface: counts the criteria that hold and compares with the criteria that are set. */
  method MatchIface(r: Rule, ii: IfaceInfo) returns (matches: bool, cont: bool)
    ensures matches <==> Matches(r.criteria, ii)
    ensures cont == r.action.cont
  {
    hide Contains, TrimSpace;
    cont := r.action.cont;
    var matchSet := 0;
    var byTypes, bySubnets, byID, byIDSet := false, false, false, false;
    if |r.criteria.types| > 0 {
      byTypes, matchSet := true, matchSet + 1;
    }
    if |r.criteria.subnets| > 0 {
      bySubnets, matchSet := true, matchSet + 1;
    }
    var id := TrimSpace(r.criteria.id);
    if id != "" {
      byID, matchSet := true, matchSet + 1;
    } else if r.criteria.idSet.Some? {
      byIDSet, matchSet := true, matchSet + 1;
    }
    var matchCounter := 0;
    if byTypes && ii.typ in r.criteria.types {
      matchCounter := matchCounter + 1;
    }
    if bySubnets && |ii.ipList| > 0 {
      var inSubnet := FirstIPInSubnets(r.criteria.subnets, ii.ipList[0]);
      if inSubnet {
        matchCounter := matchCounter + 1;
      }
    }
    if byID {
      if ii.compID == id {
        matchCounter := matchCounter + 1;
      }
    } else if byIDSet {
      if ii.compID in r.criteria.idSet.value {
        matchCounter := matchCounter + 1;
      }
    }
    matches := matchCounter == matchSet;
  }

  /** The subnet loop of MatchIface. */
  method FirstIPInSubnets(subnets: seq<Cidr>, ip: IP) returns (found: bool)
    ensures found <==> exists i :: 0 <= i < |subnets| && Contains(subnets[i], ip)
  {
    hide Contains;
    for i := 0 to |subnets|
      invariant forall j :: 0 <= j < i ==> !Contains(subnets[j], ip)
    {
      if Contains(subnets[i], ip) {
        return true;
      }
    }
    return false;
  }

  // --- names ---

  function GlobalDomain(domain: string): string {
    TrimLeftChar(TrimSpace(domain), '.')
  }

  function RuleDomain(a: Action): string {
    TrimLeftChar(TrimSpace(a.domain), '.')
  }

  function Dotted(domain: string): string {
    if domain != "" then "." + domain else ""
  }

  /** What one token of domain_append stands for; an empty domain and an unknown token add nothing. */
  function Token(tok: string, globalDom: string, ruleDom: string): string {
    if tok == "global" then globalDom else if tok == "rule" then ruleDom else ""
  }

  /** What the tokens of an explicit domain_append add to the name. */
  function Appended(toks: seq<string>, globalDom: string, ruleDom: string): string {
    if toks == [] then ""
    else Dotted(Token(TrimSpace(toks[0]), globalDom, ruleDom)) + Appended(toks[1..], globalDom, ruleDom)
  }

  /** The suffix lookupHostname adds; it depends on the rule and the global domain, not on the component. */
  function DomainSuffix(domain: string, a: Action): string {
    var globalDom, ruleDom := GlobalDomain(domain), RuleDomain(a);
    var mode := TrimSpace(Lower(a.domainAppend));
    if Lower(TrimSpace(a.domain)) == "none" || mode == "none" then ""
    else if mode == "" then Dotted(if ruleDom != "" then ruleDom else globalDom)
    else Appended(Split(mode, '|'), globalDom, ruleDom)
  }

  /** Specification of lookupHostname: the expanded pattern and the suffix. */
  function NameFor(pattern: string, domain: string, ii: IfaceInfo, a: Action): string {
    Hostname.ExpandHostnamePattern(pattern, ii.compNID, ii.compID) + DomainSuffix(domain, a)
  }

  lemma JoinSnoc(labels: seq<string>, x: string)
    requires labels != []
    ensures Join(labels + [x], ".") == Join(labels, ".") + "." + x
    decreases |labels|
  {
    if |labels| == 1 {
      assert (labels + [x])[1..] == [x];
    } else {
      assert (labels + [x])[1..] == labels[1..] + [x];
      JoinSnoc(labels[1..], x);
      assert Join(labels + [x], ".") == labels[0] + "." + (Join(labels[1..], ".") + "." + x);
    }
  }

  /** lookupHostname */
  method LookupHostname(pattern: string, domain0: string, ii: IfaceInfo, a: Action) returns (name: string)
    ensures name == NameFor(pattern, domain0, ii, a)
  {
    hide TrimSpace, TrimLeftChar, Lower, Split, Hostname.ExpandHostnamePattern;
    var hname := Hostname.ExpandHostnamePattern(pattern, ii.compNID, ii.compID);
    assert hname + "" == hname;
    var domain := domain0;
    var dom := TrimSpace(domain);
    if dom != "" {
      domain := dom;
    } else {
      domain := "";
    }
    var globalDom := TrimLeftChar(domain, '.');
    var ruleDom := TrimSpace(a.domain);
    if ruleDom != "" {
      ruleDom := TrimLeftChar(ruleDom, '.');
    } else {
      TrimLeftOfNothing();
    }
    if Lower(TrimSpace(a.domain)) == "none" {
      return hname;
    }
    var mode := TrimSpace(Lower(a.domainAppend));
    if mode == "none" {
      return hname;
    }
    if mode == "" {
      if ruleDom != "" {
        assert hname + "." + ruleDom == hname + ("." + ruleDom);
        return hname + "." + ruleDom;
      }
      if globalDom != "" {
        assert hname + "." + globalDom == hname + ("." + globalDom);
        return hname + "." + globalDom;
      }
      return hname;
    }
    name := JoinTokens(hname, Split(mode, '|'), globalDom, ruleDom);
  }

  lemma TrimLeftOfNothing()
    ensures TrimLeftChar("", '.') == ""
  {
  }

  lemma AppendedFrom(toks: seq<string>, i: nat, globalDom: string, ruleDom: string)
    requires i < |toks|
    ensures Appended(toks[i..], globalDom, ruleDom)
            == Dotted(Token(TrimSpace(toks[i]), globalDom, ruleDom)) + Appended(toks[i + 1..], globalDom, ruleDom)
  {
    assert toks[i..][1..] == toks[i + 1..];
  }

  /** One label more, when the domain is not empty. */
  lemma JoinDotted(labels: seq<string>, domain: string)
    requires labels != []
    ensures Join(if domain != "" then labels + [domain] else labels, ".") == Join(labels, ".") + Dotted(domain)
  {
    if domain != "" {
      JoinSnoc(labels, domain);
      assert Join(labels, ".") + "." + domain == Join(labels, ".") + ("." + domain);
    } else {
      assert Join(labels, ".") + "" == Join(labels, ".");
    }
  }

  /** The token loop of lookupHostname. */
  method JoinTokens(hname: string, toks: seq<string>, globalDom: string, ruleDom: string) returns (name: string)
    ensures name == hname + Appended(toks, globalDom, ruleDom)
  {
    JoinOne(hname);
    assert Appended([], globalDom, ruleDom) == "";
    hide TrimSpace, Join, Appended, Dotted;
    var labels := [hname];
    assert toks[0..] == toks;
    for i := 0 to |toks|
      invariant labels != []
      invariant hname + Appended(toks, globalDom, ruleDom)
                == Join(labels, ".") + Appended(toks[i..], globalDom, ruleDom)
    {
      var tok := TrimSpace(toks[i]);
      ghost var dom := Token(tok, globalDom, ruleDom);
      AppendedFrom(toks, i, globalDom, ruleDom);
      JoinDotted(labels, dom);
      Reassociate(Join(labels, "."), Dotted(dom), Appended(toks[i + 1..], globalDom, ruleDom));
      if tok == "global" {
        if globalDom != "" {
          labels := labels + [globalDom];
        }
      } else if tok == "rule" {
        if ruleDom != "" {
          labels := labels + [ruleDom];
        }
      }
    }
    assert toks[|toks|..] == [] && Join(labels, ".") + "" == Join(labels, ".");
    name := Join(labels, ".");
  }

  lemma Reassociate(a: string, b: string, c: string)
    ensures a + (b + c) == a + b + c
  {
  }

  lemma JoinOne(s: string)
    ensures Join([s], ".") == s
  {
  }

  /** Two nodes named by the same rule, whose pattern has a {Nd} and no {id}, never get the same final name. */
  lemma DifferentNodesDifferentNames(pattern: string, domain: string, a: Action, x: IfaceInfo, y: IfaceInfo)
    requires Hostname.NoId(pattern) && Hostname.HasPlaceholder(pattern) && x.compNID != y.compNID
    ensures NameFor(pattern, domain, x, a) != NameFor(pattern, domain, y, a)
  {
    hide DomainSuffix, Hostname.ExpandHostnamePattern;
    Hostname.DifferentNidsDifferentNames(pattern, x.compNID, x.compID, y.compNID, y.compID);
    var ex := Hostname.ExpandHostnamePattern(pattern, x.compNID, x.compID);
    var ey := Hostname.ExpandHostnamePattern(pattern, y.compNID, y.compID);
    var suffix := DomainSuffix(domain, a);
    assert |ex| == |ey| ==> (ex + suffix)[..|ex|] == ex && (ey + suffix)[..|ex|] == ey;
  }

  lemma DottedBlank(domain: string)
    ensures Blank(Dotted(domain)) <==> domain == ""
    ensures Dotted(domain) == "" <==> domain == ""
  {
    if domain != "" {
      assert Dotted(domain)[0] == '.' && !IsSpace('.');
    }
  }

  lemma {:induction false} AppendedBlank(toks: seq<string>, globalDom: string, ruleDom: string)
    ensures Blank(Appended(toks, globalDom, ruleDom)) <==> Appended(toks, globalDom, ruleDom) == ""
    decreases |toks|
  {
    hide TrimSpace, IsSpace, Token;
    if toks != [] {
      var d := Token(TrimSpace(toks[0]), globalDom, ruleDom);
      var rest := Appended(toks[1..], globalDom, ruleDom);
      DottedBlank(d);
      AppendedBlank(toks[1..], globalDom, ruleDom);
      hide Dotted;
      if d == "" {
        assert Dotted(d) + rest == rest;
      } else {
        Hostname.NotBlankConcat(Dotted(d), rest);
      }
    }
  }

  /** What is appended is empty or visible. */
  lemma SuffixBlank(domain: string, a: Action)
    ensures Blank(DomainSuffix(domain, a)) <==> DomainSuffix(domain, a) == ""
  {
    var globalDom, ruleDom := GlobalDomain(domain), RuleDomain(a);
    AppendedBlank(Split(TrimSpace(Lower(a.domainAppend)), '|'), globalDom, ruleDom);
    DottedBlank(if ruleDom != "" then ruleDom else globalDom);
    hide TrimSpace, Lower, Split, Appended, Dotted, IsSpace, GlobalDomain, RuleDomain;
  }

  /** A name is blank exactly when nothing is appended and the pattern is blank once {id} is replaced. */
  lemma NameBlankIff(pattern: string, domain: string, ii: IfaceInfo, a: Action)
    ensures Blank(NameFor(pattern, domain, ii, a)) <==>
            DomainSuffix(domain, a) == "" && Blank(Hostname.ReplaceId(pattern, ii.compID))
  {
    var e := Hostname.ExpandHostnamePattern(pattern, ii.compNID, ii.compID);
    SuffixBlank(domain, a);
    Hostname.ExpandBlankIff(Hostname.ReplaceId(pattern, ii.compID), ii.compNID);
    hide DomainSuffix, IsSpace;
    if Blank(e) && DomainSuffix(domain, a) == "" {
      assert e + DomainSuffix(domain, a) == e;
    } else {
      Hostname.NotBlankConcat(e, DomainSuffix(domain, a));
    }
  }

  /** A non-blank pattern names a component with a non-blank id non-blankly. */
  lemma NameNotBlank(pattern: string, domain: string, ii: IfaceInfo, a: Action)
    requires !Blank(pattern) && !Blank(ii.compID)
    ensures !Blank(NameFor(pattern, domain, ii, a))
  {
    hide DomainSuffix, NameFor, Hostname.ReplaceId, Blank;
    NameBlankIff(pattern, domain, ii, a);
    Hostname.ReplaceIdNotBlank(pattern, ii.compID);
  }
}
