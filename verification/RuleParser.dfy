// internal/rule/rule.go, ParseRule: from the component dictionary to a rule.
module RuleParser {
  import opened Wrappers
  import opened Text
  import opened Net
  import opened Netmask
  import opened Rules
  import opened IPText
  import opened Evaluate
  import RuleDict

  datatype ParseError =
    | DictFailure(cause: RuleDict.DictError)
    | InvalidValue(key: string, got: string)
    | MutualExclusion(a: string, b: string)
    | RequiredKeys

  type Dict = RuleDict.Dict

  /** The value of a key, "" when it is absent. */
  function Get(d: Dict, key: string): string {
    if key in d then d[key] else ""
  }

  /** strconv.ParseBool after ParseBoolLoose's own words, on lower-cased text. */
  function BoolOf(raw: string): Option<bool> {
    var s := TrimSpace(Lower(raw));
    if s == "1" || s == "t" || s == "true" || s == "y" || s == "yes" || s == "on" then Some(true)
    else if s == "0" || s == "f" || s == "false" || s == "n" || s == "no" || s == "off" then Some(false)
    else None
  }

  // --- domain_append ---

  /** The non-blank tokens of a domain_append value. */
  function Tokens(parts: seq<string>): seq<string> {
    if parts == [] then []
    else
      var p := TrimSpace(parts[0]);
      (if p == "" then [] else [p]) + Tokens(parts[1..])
  }

  /** The token lists that mean something. */
  predicate Meaningful(toks: seq<string>) {
    || toks == ["none"] || toks == ["global"] || toks == ["rule"]
    || toks == ["global", "rule"] || toks == ["rule", "global"]
  }

  function AppendTokens(raw: string): seq<string> {
    Tokens(Split(TrimSpace(Lower(raw)), '|'))
  }

  predicate Distinct(toks: seq<string>) {
    forall i, j :: 0 <= i < j < |toks| ==> toks[i] != toks[j]
  }

  predicate DrawnFrom(toks: seq<string>, a: string, b: string, c: string) {
    forall i :: 0 <= i < |toks| ==> toks[i] == a || toks[i] == b || toks[i] == c
  }

  /** The lists without repetition over three words. */
  lemma ListsOfThree(toks: seq<string>, a: string, b: string, c: string)
    requires DrawnFrom(toks, a, b, c) && Distinct(toks) && a != b && b != c && a != c
    ensures a !in toks && b !in toks && c !in toks ==> toks == []
    ensures a in toks && b !in toks && c !in toks ==> toks == [a]
    ensures a !in toks && b in toks && c !in toks ==> toks == [b]
    ensures a !in toks && b !in toks && c in toks ==> toks == [c]
    ensures a in toks && b in toks && c !in toks ==> toks == [a, b] || toks == [b, a]
  {
    if |toks| >= 3 {
      assert toks[0] != toks[1] && toks[0] != toks[2] && toks[1] != toks[2];
      assert toks[0] in toks && toks[1] in toks && toks[2] in toks;
    } else if |toks| == 2 {
      assert toks[0] in toks && toks[1] in toks && toks == [toks[0], toks[1]];
    } else if |toks| == 1 {
      assert toks[0] in toks && toks == [toks[0]];
    }
  }

  lemma KeywordsDiffer()
    ensures "global" != "rule" && "global" != "none" && "rule" != "none"
    ensures "global" != "" && "rule" != "" && "none" != ""
  {
    assert "rule"[0] != "none"[0];
  }

  lemma MeaningfulIsDistinct(toks: seq<string>)
    requires Meaningful(toks)
    ensures Distinct(toks) && DrawnFrom(toks, "global", "rule", "none")
    ensures "none" in toks ==> "global" !in toks && "rule" !in toks
    ensures toks != []
  {
    KeywordsDiffer();
  }

  lemma {:induction false} TokensFrom(parts: seq<string>, i: nat)
    requires i < |parts|
    ensures var p := TrimSpace(parts[i]);
            Tokens(parts[..i + 1]) == Tokens(parts[..i]) + (if p == "" then [] else [p])
    decreases i
  {
    hide TrimSpace;
    if i == 0 {
      assert parts[..1][1..] == [] && parts[..0] == [];
    } else {
      TokensFrom(parts[1..], i - 1);
      assert parts[..i + 1][1..] == parts[1..][..i] && parts[..i][1..] == parts[1..][..i - 1];
    }
  }

  lemma {:induction false} TokensGrow(parts: seq<string>, i: nat)
    requires i <= |parts|
    ensures |Tokens(parts[..i])| <= |Tokens(parts)|
    ensures Tokens(parts)[..|Tokens(parts[..i])|] == Tokens(parts[..i])
    decreases |parts| - i
  {
    hide TrimSpace;
    if i == |parts| {
      assert parts[..i] == parts;
    } else {
      TokensFrom(parts, i);
      TokensGrow(parts, i + 1);
      var a, b := Tokens(parts[..i]), Tokens(parts[..i + 1]);
      assert b[..|a|] == a;
    }
  }

  predicate Keyword(p: string) {
    p == "global" || p == "rule" || p == "none"
  }

  lemma BadList(all: seq<string>, k: nat)
    requires k < |all| && (!Keyword(all[k]) || all[k] in all[..k])
    ensures !Meaningful(all)
  {
    if Meaningful(all) {
      MeaningfulIsDistinct(all);
    }
  }

  lemma PrefixFacts(all: seq<string>, longer: seq<string>, pre: seq<string>, p: string)
    requires |longer| <= |all| && all[..|longer|] == longer && longer == pre + [p]
    ensures |pre| < |all| && all[|pre|] == p && all[..|pre|] == pre
  {
    assert all[|pre|] == longer[|pre|];
    assert all[..|pre|] == longer[..|pre|];
  }

  /** A prefix that repeats or is not a keyword cannot be repaired by what follows. */
  lemma BadPrefix(parts: seq<string>, i: nat, p: string)
    requires i < |parts| && p == TrimSpace(parts[i]) && p != ""
    requires !Keyword(p) || p in Tokens(parts[..i])
    ensures !Meaningful(Tokens(parts))
  {
    TokensFrom(parts, i);
    TokensGrow(parts, i + 1);
    hide TrimSpace, Tokens, Meaningful, Keyword;
    PrefixFacts(Tokens(parts), Tokens(parts[..i + 1]), Tokens(parts[..i]), p);
    BadList(Tokens(parts), |Tokens(parts[..i])|);
  }

  lemma OneMore(order: seq<string>, p: string)
    requires DrawnFrom(order, "global", "rule", "none") && Distinct(order)
    requires p !in order && Keyword(p)
    ensures DrawnFrom(order + [p], "global", "rule", "none") && Distinct(order + [p])
    ensures forall x :: x in order + [p] <==> x in order || x == p
  {
  }

  /** normalizeDomainAppend: accepts exactly the meaningful token lists and returns them in the order given. */
  method NormalizeDomainAppend(raw0: string) returns (r: Option<string>)
    ensures r.Some? <==> Meaningful(AppendTokens(raw0))
    ensures r.Some? ==> r.value == Join(AppendTokens(raw0), "|")
  {
    var raw := TrimSpace(Lower(raw0));
    if raw == "" {
      NoTokens();
      return None;
    }
    var parts := Split(raw, '|');
    hide TrimSpace, Lower, Split, Meaningful, Join, Tokens, DrawnFrom, Distinct;
    KeywordsDiffer();
    NothingYet(parts);
    var hasGlobal, hasRule, hasNone := false, false, false;
    var order: seq<string> := [];
    for i := 0 to |parts|
      invariant order == Tokens(parts[..i])
      invariant DrawnFrom(order, "global", "rule", "none") && Distinct(order)
      invariant (hasGlobal <==> "global" in order) && (hasRule <==> "rule" in order) && (hasNone <==> "none" in order)
    {
      var p := TrimSpace(parts[i]);
      TokensFrom(parts, i);
      if p == "" {
        continue;
      }
      if p == "global" {
        if hasGlobal {
          BadPrefix(parts, i, p);
          return None;
        }
        hasGlobal := true;
        OneMore(order, p);
        order := order + ["global"];
      } else if p == "rule" {
        if hasRule {
          BadPrefix(parts, i, p);
          return None;
        }
        hasRule := true;
        OneMore(order, p);
        order := order + ["rule"];
      } else if p == "none" {
        if hasNone {
          BadPrefix(parts, i, p);
          return None;
        }
        hasNone := true;
        OneMore(order, p);
        order := order + ["none"];
      } else {
        BadPrefix(parts, i, p);
        return None;
      }
    }
    assert parts[..|parts|] == parts;
    r := Verdict(order, hasGlobal, hasRule, hasNone);
  }

  lemma NothingYet(parts: seq<string>)
    ensures Tokens(parts[..0]) == [] && DrawnFrom([], "global", "rule", "none") && Distinct([])
  {
  }

  lemma NoTokens()
    ensures Tokens(Split("", '|')) == []
  {
    assert Split("", '|') == [""];
    TrimNoOp("");
  }

  /** The end of normalizeDomainAppend, once every token has been read. */
  method Verdict(order: seq<string>, hasGlobal: bool, hasRule: bool, hasNone: bool) returns (r: Option<string>)
    requires DrawnFrom(order, "global", "rule", "none") && Distinct(order)
    requires (hasGlobal <==> "global" in order) && (hasRule <==> "rule" in order) && (hasNone <==> "none" in order)
    ensures r.Some? <==> Meaningful(order)
    ensures r.Some? ==> r.value == Join(order, "|")
  {
    KeywordsDiffer();
    ListsOfThree(order, "global", "rule", "none");
    if Meaningful(order) {
      MeaningfulIsDistinct(order);
    }
    hide DrawnFrom, Distinct;
    if hasNone {
      if hasGlobal || hasRule {
        return None;
      }
      return Some("none");
    }
    if !hasGlobal && !hasRule {
      return None;
    }
    if hasGlobal && hasRule {
      return Some(Join(order, "|"));
    }
    if hasGlobal {
      return Some("global");
    }
    return Some("rule");
  }

  // --- what ParseRule accepts ---

  /** The pieces of a multi-valued component. */
  function Pieces(s: string): seq<string> {
    Split(s, '|')
  }

  predicate IsRouter(piece: string) {
    ParseIP(TrimSpace(piece)).V4?
  }

  function RouterOf(piece: string): u32
    requires IsRouter(piece)
  {
    ParseIP(TrimSpace(piece)).v
  }

  predicate AllRouters(pieces: seq<string>) {
    forall i :: 0 <= i < |pieces| ==> IsRouter(pieces[i])
  }

  function RouterList(pieces: seq<string>): seq<u32>
    requires AllRouters(pieces)
  {
    seq(|pieces|, i requires 0 <= i < |pieces| => RouterOf(pieces[i]))
  }

  predicate IsSubnet(piece: string, parseCIDR: string -> Option<Cidr>) {
    parseCIDR(TrimSpace(piece)).Some?
  }

  predicate AllSubnets(pieces: seq<string>, parseCIDR: string -> Option<Cidr>) {
    forall i :: 0 <= i < |pieces| ==> IsSubnet(pieces[i], parseCIDR)
  }

  function SubnetList(pieces: seq<string>, parseCIDR: string -> Option<Cidr>): seq<Cidr>
    requires AllSubnets(pieces, parseCIDR)
  {
    seq(|pieces|, i requires 0 <= i < |pieces| => parseCIDR(TrimSpace(pieces[i])).value)
  }

  /** The non-blank, trimmed pieces. */
  function TypeSet(pieces: seq<string>): set<string> {
    set t | t in Tokens(pieces)
  }

  /** strconv.Atoi */
  function Atoi(s: string): Option<int> {
    var signed := s != "" && (s[0] == '+' || s[0] == '-');
    var ds := if signed then s[1..] else s;
    if ds == "" || exists i :: 0 <= i < |ds| && !IsDigit(ds[i]) then None
    else Some(if s[0] == '-' then -Hostname.Number(ds) else Hostname.Number(ds))
  }

  /** An address taken as a mask: four bytes, not 0.0.0.0, and a valid mask. */
  function NetmaskValue(s: string): Option<Mask> {
    match ParseIP(s)
    case V4(v) => if v != 0 && CheckValidNetmask(v as bv32) then Some(Mask4(v as bv32)) else None
    case _ => None
  }

  function WidthValue(s: string): Option<Mask> {
    var k := Atoi(s);
    if k.Some? && 1 <= k.value <= 32 then Some(Mask4(WidthMask(k.value))) else None
  }

  /** The mask the rule states through netmask or cidr; None when the statement is refused. */
  function ExplicitMask(d: Dict): Option<Mask> {
    if "netmask" in d && "cidr" in d then None
    else if "netmask" in d then NetmaskValue(d["netmask"])
    else if "cidr" in d then WidthValue(d["cidr"])
    else Some(NoMask)
  }

  /** The stated mask, or the one of the first subnet. */
  function MaskFor(explicit: Mask, subnets: seq<Cidr>): Mask {
    if !Usable(explicit) && subnets != [] && Usable(MaskOf(subnets[0])) then MaskOf(subnets[0]) else explicit
  }

  predicate LogLevel(s: string) {
    s == "" || s == "info" || s == "debug" || s == "none"
  }

  predicate OptionalBool(s: string) {
    s == "" || BoolOf(s).Some?
  }

  function BoolValue(s: string): bool
    requires OptionalBool(s)
  {
    s != "" && BoolOf(s).value
  }

  /** Every action component of the dictionary, and its log level, is well-formed. */
  predicate ActionWellFormed(d: Dict) {
    && LogLevel(Get(d, "log"))
    && (Get(d, "routers") != "" ==> AllRouters(Pieces(Get(d, "routers"))))
    && ExplicitMask(d).Some?
    && Lower(TrimSpace(Get(d, "domain"))) != "none"
    && OptionalBool(Get(d, "continue"))
    && OptionalBool(Get(d, "ignore"))
    && (Get(d, "domain_append") != "" ==> Meaningful(AppendTokens(Get(d, "domain_append"))))
  }

  /** The type and subnet components of the dictionary are well-formed. */
  predicate MatchWellFormed(d: Dict, parseCIDR: string -> Option<Cidr>) {
    && ("type" in d ==> TypeSet(Pieces(d["type"])) != {})
    && (Get(d, "subnet") != "" ==> AllSubnets(Pieces(Get(d, "subnet")), parseCIDR))
  }

  /** The action the dictionary states, before a subnet lends its mask. */
  function StatedAction(d: Dict): Action
    requires ActionWellFormed(d)
  {
    Action(
      Get(d, "hostname"),
      Get(d, "domain"),
      if Get(d, "domain_append") == "" then "" else Join(AppendTokens(Get(d, "domain_append")), "|"),
      ExplicitMask(d).value,
      if Get(d, "routers") == "" then [] else RouterList(Pieces(Get(d, "routers"))),
      BoolValue(Get(d, "continue")),
      BoolValue(Get(d, "ignore")))
  }

  /** The whole dictionary is well-formed. */
  predicate WellFormed(d: Dict, parseCIDR: string -> Option<Cidr>) {
    ActionWellFormed(d) && MatchWellFormed(d, parseCIDR)
  }

  /** The action of the rule the dictionary describes. */
  function ActionOf(d: Dict, parseCIDR: string -> Option<Cidr>): Action
    requires WellFormed(d, parseCIDR)
  {
    var a := StatedAction(d);
    a.(netmask := MaskFor(a.netmask, SubnetsOf(d, parseCIDR)))
  }

  function SubnetsOf(d: Dict, parseCIDR: string -> Option<Cidr>): seq<Cidr>
    requires Get(d, "subnet") != "" ==> AllSubnets(Pieces(Get(d, "subnet")), parseCIDR)
  {
    if Get(d, "subnet") == "" then [] else SubnetList(Pieces(Get(d, "subnet")), parseCIDR)
  }

  function MatchOf(d: Dict, parseCIDR: string -> Option<Cidr>): Match
    requires MatchWellFormed(d, parseCIDR)
  {
    Match(if "type" in d then TypeSet(Pieces(d["type"])) else {}, SubnetsOf(d, parseCIDR), Get(d, "id"), None)
  }

  /** At least one action is present. */
  predicate Actionable(a: Action) {
    TrimSpace(a.hostname) != "" || a.routers != [] || a.ignore || Usable(a.netmask)
  }

  // --- which error comes first ---

  type Refusal = Option<ParseError>

  /** The first of two checks that refuses. */
  function Then(first: Refusal, second: Refusal): Refusal {
    if first.Some? then first else second
  }

  function Check(fine: bool, e: ParseError): Refusal {
    if fine then None else Some(e)
  }

  /** The first piece that is no router. */
  function FirstNonRouter(pieces: seq<string>): (bad: Option<string>)
    ensures bad.None? <==> AllRouters(pieces)
  {
    hide IsRouter;
    if pieces == [] then None
    else if !IsRouter(pieces[0]) then Some(pieces[0])
    else FirstNonRouter(pieces[1..])
  }

  /** The first piece that is no network. */
  function FirstNonSubnet(pieces: seq<string>, parseCIDR: string -> Option<Cidr>): (bad: Option<string>)
    ensures bad.None? <==> AllSubnets(pieces, parseCIDR)
  {
    hide IsSubnet;
    if pieces == [] then None
    else if !IsSubnet(pieces[0], parseCIDR) then Some(pieces[0])
    else FirstNonSubnet(pieces[1..], parseCIDR)
  }

  function RoutersRefusal(rtrs: string): Refusal {
    if rtrs == "" || FirstNonRouter(Pieces(rtrs)).None? then None
    else Some(InvalidValue("routers", FirstNonRouter(Pieces(rtrs)).value))
  }

  function MaskRefusal(d: Dict): Refusal {
    if ExplicitMask(d).Some? then None
    else if "netmask" in d && "cidr" in d then Some(MutualExclusion("netmask", "cidr"))
    else if "netmask" in d then Some(InvalidValue("netmask", d["netmask"]))
    else Some(InvalidValue("cidr", Get(d, "cidr")))
  }

  function SubnetRefusal(s: string, parseCIDR: string -> Option<Cidr>): Refusal {
    if s == "" || FirstNonSubnet(Pieces(s), parseCIDR).None? then None
    else Some(InvalidValue("subnet", FirstNonSubnet(Pieces(s), parseCIDR).value))
  }

  function FlagsRefusal(cont: string, ignore: string): Refusal {
    Then(Check(OptionalBool(cont), InvalidValue("continue", cont)),
         Check(OptionalBool(ignore), InvalidValue("ignore", ignore)))
  }

  function AppendRefusal(domapp: string): Refusal {
    Check(domapp == "" || Meaningful(AppendTokens(domapp)), InvalidValue("domain_append", domapp))
  }

  /** The checks of the action components, in the order of ParseRule. */
  function ActionRefusal(d: Dict): Refusal {
    Then(Check(LogLevel(Get(d, "log")), InvalidValue("log", Get(d, "log"))),
      Then(RoutersRefusal(Get(d, "routers")),
        Then(MaskRefusal(d),
          Then(Check(Lower(TrimSpace(Get(d, "domain"))) != "none", InvalidValue("domain", Get(d, "domain"))),
            Then(FlagsRefusal(Get(d, "continue"), Get(d, "ignore")), AppendRefusal(Get(d, "domain_append")))))))
  }

  /** The checks of the match components that come before the one for an action. */
  function MatchRefusal(d: Dict, parseCIDR: string -> Option<Cidr>): Refusal {
    Then(Check("type" !in d || TypeSet(Pieces(d["type"])) != {}, InvalidValue("type", Get(d, "type"))),
      SubnetRefusal(Get(d, "subnet"), parseCIDR))
  }

  lemma ActionRefusalNone(d: Dict)
    ensures ActionRefusal(d).None? <==> ActionWellFormed(d)
  {
    hide Get, LogLevel, OptionalBool, Pieces, Meaningful, AppendTokens, Lower, TrimSpace, ExplicitMask;
  }

  lemma MatchRefusalNone(d: Dict, parseCIDR: string -> Option<Cidr>)
    ensures MatchRefusal(d, parseCIDR).None? <==> MatchWellFormed(d, parseCIDR)
  {
    hide Get, Pieces, TypeSet;
  }

  // --- the parser ---

  /** The routers loop of ParseRule; the error is the piece it stops at. */
  method ParseRouters(pieces: seq<string>) returns (r: Result<seq<u32>, string>)
    ensures r.Ok? <==> AllRouters(pieces)
    ensures r.Ok? ==> r.value == RouterList(pieces)
    ensures r.Err? ==> FirstNonRouter(pieces) == Some(r.error)
  {
    hide TrimSpace, ParseIP;
    var routers: seq<u32> := [];
    for i := 0 to |pieces|
      invariant |routers| == i
      invariant forall j :: 0 <= j < i ==> IsRouter(pieces[j]) && routers[j] == RouterOf(pieces[j])
    {
      var ip := ParseIP(TrimSpace(pieces[i]));
      if !ip.V4? {
        StopsAtRouter(pieces, i);
        return Err(pieces[i]);
      }
      routers := routers + [ip.v];
    }
    return Ok(routers);
  }

  lemma {:induction false} StopsAtRouter(pieces: seq<string>, i: nat)
    requires i < |pieces| && !IsRouter(pieces[i]) && forall j :: 0 <= j < i ==> IsRouter(pieces[j])
    ensures FirstNonRouter(pieces) == Some(pieces[i])
    decreases |pieces|
  {
    hide IsRouter;
    if i > 0 {
      StopsAtRouter(pieces[1..], i - 1);
    }
  }

  /** The type loop of ParseRule. */
  method ParseTypes(pieces: seq<string>) returns (types: set<string>)
    ensures types == TypeSet(pieces)
  {
    hide TrimSpace;
    types := {};
    for i := 0 to |pieces|
      invariant types == TypeSet(pieces[..i])
    {
      var tt := TrimSpace(pieces[i]);
      TokensFrom(pieces, i);
      if tt == "" {
        continue;
      }
      types := types + {tt};
    }
    assert pieces[..|pieces|] == pieces;
  }

  /** The subnet loop of ParseRule; the error is the piece it stops at. */
  method ParseSubnets(pieces: seq<string>, parseCIDR: string -> Option<Cidr>) returns (r: Result<seq<Cidr>, string>)
    ensures r.Ok? <==> AllSubnets(pieces, parseCIDR)
    ensures r.Ok? ==> r.value == SubnetList(pieces, parseCIDR)
    ensures r.Err? ==> FirstNonSubnet(pieces, parseCIDR) == Some(r.error)
  {
    hide TrimSpace;
    var subnets: seq<Cidr> := [];
    for i := 0 to |pieces|
      invariant |subnets| == i
      invariant forall j :: 0 <= j < i ==>
                  IsSubnet(pieces[j], parseCIDR) && subnets[j] == parseCIDR(TrimSpace(pieces[j])).value
    {
      var n := parseCIDR(TrimSpace(pieces[i]));
      if n.None? {
        StopsAtSubnet(pieces, parseCIDR, i);
        return Err(pieces[i]);
      }
      subnets := subnets + [n.value];
    }
    return Ok(subnets);
  }

  lemma {:induction false} StopsAtSubnet(pieces: seq<string>, parseCIDR: string -> Option<Cidr>, i: nat)
    requires i < |pieces| && !IsSubnet(pieces[i], parseCIDR)
    requires forall j :: 0 <= j < i ==> IsSubnet(pieces[j], parseCIDR)
    ensures FirstNonSubnet(pieces, parseCIDR) == Some(pieces[i])
    decreases |pieces|
  {
    hide IsSubnet;
    if i > 0 {
      StopsAtSubnet(pieces[1..], parseCIDR, i - 1);
    }
  }

  /** The netmask and cidr branches of ParseRule. */
  method ParseMask(d: Dict) returns (r: Result<Mask, ParseError>)
    ensures r.Ok? <==> ExplicitMask(d).Some?
    ensures r.Ok? ==> r.value == ExplicitMask(d).value
    ensures r.Err? ==> MaskRefusal(d) == Some(r.error)
  {
    hide ParseIP, CheckValidNetmask, WidthMask;
    if "netmask" in d && "cidr" in d {
      return Err(MutualExclusion("netmask", "cidr"));
    } else if "netmask" in d {
      var ip := ParseIP(d["netmask"]);
      if ip == NoIP {
        return Err(InvalidValue("netmask", d["netmask"]));
      }
      if Unspecified(ip) {
        return Err(InvalidValue("netmask", d["netmask"]));
      }
      if !ip.V4? {
        return Err(InvalidValue("netmask", d["netmask"]));
      }
      if !CheckValidNetmask(ip.v as bv32) {
        return Err(InvalidValue("netmask", d["netmask"]));
      }
      return Ok(Mask4(ip.v as bv32));
    } else if "cidr" in d {
      var cidr := Atoi(d["cidr"]);
      if cidr.None? {
        return Err(InvalidValue("cidr", d["cidr"]));
      }
      if cidr.value <= 0 || cidr.value > 32 {
        return Err(InvalidValue("cidr", d["cidr"]));
      }
      return Ok(Mask4(WidthMask(cidr.value)));
    }
    return Ok(NoMask);
  }

  /** The continue and ignore components. */
  method ParseBools(cont: string, ignore: string) returns (r: Result<(bool, bool), ParseError>)
    ensures r.Ok? <==> OptionalBool(cont) && OptionalBool(ignore)
    ensures r.Ok? ==> r.value == (BoolValue(cont), BoolValue(ignore))
    ensures r.Err? ==> FlagsRefusal(cont, ignore) == Some(r.error)
  {
    hide BoolOf;
    var c, g := false, false;
    if cont != "" {
      var b := BoolOf(cont);
      if b.None? {
        return Err(InvalidValue("continue", cont));
      }
      c := b.value;
    }
    if ignore != "" {
      var b := BoolOf(ignore);
      if b.None? {
        return Err(InvalidValue("ignore", ignore));
      }
      g := b.value;
    }
    return Ok((c, g));
  }

  /** The domain_append component. */
  method ParseAppend(domapp: string) returns (r: Result<string, ParseError>)
    ensures r.Ok? ==> AppendRefusal(domapp) == None
    ensures r.Ok? ==> r.value == if domapp == "" then "" else Join(AppendTokens(domapp), "|")
    ensures r.Err? ==> AppendRefusal(domapp) == Some(r.error)
  {
    hide TrimSpace, Lower, Meaningful, AppendTokens, Join;
    if domapp == "" {
      return Ok("");
    }
    var norm := NormalizeDomainAppend(domapp);
    if norm.None? {
      return Err(InvalidValue("domain_append", domapp));
    }
    return Ok(norm.value);
  }

  /** The routers component. */
  method ParseRoutersComponent(rtrs: string) returns (r: Result<seq<u32>, ParseError>)
    ensures r.Ok? <==> (rtrs != "" ==> AllRouters(Pieces(rtrs)))
    ensures r.Ok? ==> r.value == if rtrs == "" then [] else RouterList(Pieces(rtrs))
    ensures r.Err? ==> RoutersRefusal(rtrs) == Some(r.error)
  {
    hide Pieces, AllRouters, RouterList;
    if rtrs == "" {
      return Ok([]);
    }
    var routers := ParseRouters(Pieces(rtrs));
    if routers.Err? {
      return Err(InvalidValue("routers", routers.error));
    }
    return Ok(routers.value);
  }

  /** The action half of ParseRule, one component after another with an early return for each refusal. */
  method BuildAction(comps: Dict) returns (result: Result<Action, ParseError>)
    ensures result.Err? ==> ActionRefusal(comps) == Some(result.error)
    ensures result.Ok? ==> ActionWellFormed(comps) && result.value == StatedAction(comps)
  {
    hide TrimSpace, Lower, Pieces, Meaningful, AppendTokens, AllRouters, RouterList, ExplicitMask, Join, Get,
      OptionalBool, BoolValue, LogLevel, RoutersRefusal, MaskRefusal, FlagsRefusal, AppendRefusal, ActionWellFormed,
      StatedAction, BoolOf;
    var log := Get(comps, "log");
    LogLevels(log);
    if !(log == "" || log == "info" || log == "debug" || log == "none") {
      return Err(InvalidValue("log", log));
    }
    var rtrs := Get(comps, "routers");
    var routers := ParseRoutersComponent(rtrs);
    RefusalsOf(comps);
    if routers.Err? {
      return Err(routers.error);
    }
    var mask := ParseMask(comps);
    if mask.Err? {
      return Err(mask.error);
    }
    var dom := Get(comps, "domain");
    BlankDomainIsFine();
    if dom != "" {
      if Lower(TrimSpace(dom)) == "none" {
        return Err(InvalidValue("domain", dom));
      }
    }
    var flags := ParseBools(Get(comps, "continue"), Get(comps, "ignore"));
    if flags.Err? {
      return Err(flags.error);
    }
    var domapp := ParseAppend(Get(comps, "domain_append"));
    if domapp.Err? {
      return Err(domapp.error);
    }
    ActionRefusalNone(comps);
    ActionIs(comps, mask.value, routers.value, flags.value, domapp.value);
    return Ok(Action(Get(comps, "hostname"), dom, domapp.value, mask.value, routers.value,
                     flags.value.0, flags.value.1));
  }

  /** Each check of the action components refuses when its component is not well-formed. */
  lemma RefusalsOf(d: Dict)
    ensures RoutersRefusal(Get(d, "routers")).None? <==>
            (Get(d, "routers") != "" ==> AllRouters(Pieces(Get(d, "routers"))))
    ensures MaskRefusal(d).None? <==> ExplicitMask(d).Some?
    ensures FlagsRefusal(Get(d, "continue"), Get(d, "ignore")).None? <==>
            OptionalBool(Get(d, "continue")) && OptionalBool(Get(d, "ignore"))
  {
    hide Get, Pieces, AllRouters, ExplicitMask, OptionalBool;
  }

  lemma ActionIs(d: Dict, mask: Mask, routers: seq<u32>, flags: (bool, bool), append: string)
    requires ActionWellFormed(d)
    requires ExplicitMask(d) == Some(mask)
    requires routers == if Get(d, "routers") == "" then [] else RouterList(Pieces(Get(d, "routers")))
    requires flags == (BoolValue(Get(d, "continue")), BoolValue(Get(d, "ignore")))
    requires append == if Get(d, "domain_append") == "" then "" else Join(AppendTokens(Get(d, "domain_append")), "|")
    ensures StatedAction(d) ==
            Action(Get(d, "hostname"), Get(d, "domain"), append, mask, routers, flags.0, flags.1)
  {
    hide Get, LogLevel, Pieces, AllRouters, RouterList, ExplicitMask, Join, Meaningful, AppendTokens, TrimSpace, Lower,
      OptionalBool, BoolValue;
  }

  lemma LogLevels(s: string)
    ensures LogLevel(s) <==> s == "" || s == "info" || s == "debug" || s == "none"
  {
  }

  /** The type and subnet components, and the id. */
  method BuildMatch(comps: Dict, parseCIDR: string -> Option<Cidr>) returns (result: Result<Match, ParseError>)
    ensures result.Err? ==> MatchRefusal(comps, parseCIDR) == Some(result.error)
    ensures result.Ok? ==> MatchRefusal(comps, parseCIDR) == None && MatchWellFormed(comps, parseCIDR)
    ensures result.Ok? ==> result.value == MatchOf(comps, parseCIDR)
  {
    hide Pieces, AllSubnets, SubnetList, TypeSet, FirstNonSubnet;
    var m := Match({}, [], "", None);
    if "type" in comps {
      var types := ParseTypes(Pieces(comps["type"]));
      if types == {} {
        return Err(InvalidValue("type", comps["type"]));
      }
      m := m.(types := types);
    }
    var matchSubnet := Get(comps, "subnet");
    if matchSubnet != "" {
      var subnets := ParseSubnets(Pieces(matchSubnet), parseCIDR);
      if subnets.Err? {
        return Err(InvalidValue("subnet", subnets.error));
      }
      m := m.(subnets := subnets.value);
    }
    m := m.(id := Get(comps, "id"));
    return Ok(m);
  }

  /** A subnet lends its mask to an action without one. */
  lemma LentMask(d: Dict, parseCIDR: string -> Option<Cidr>, a: Action, m: Match)
    requires ActionWellFormed(d) && MatchWellFormed(d, parseCIDR)
    requires a == StatedAction(d) && m == MatchOf(d, parseCIDR)
    ensures ActionOf(d, parseCIDR) == a.(netmask := MaskFor(a.netmask, m.subnets))
  {
    hide ActionWellFormed, MatchWellFormed, StatedAction, SubnetsOf, MaskFor;
  }

  /** The implicit mask, and the refusal of a rule without any action. */
  method Finish(stated: Action, m: Match) returns (result: Result<Action, ParseError>)
    ensures var a := stated.(netmask := MaskFor(stated.netmask, m.subnets));
            result == if Actionable(a) then Ok(a) else Err(RequiredKeys)
    ensures result.Ok? ==> forall name, log :: WellParsed(Rule(name, log, m, result.value))
  {
    hide TrimSpace, Usable, MaskOf;
    var a := stated;
    if m.subnets != [] && !Usable(a.netmask) && Usable(MaskOf(m.subnets[0])) {
      a := a.(netmask := MaskOf(m.subnets[0]));
    }
    if TrimSpace(a.hostname) == "" && a.routers == [] && !a.ignore && !Usable(a.netmask) {
      return Err(RequiredKeys);
    }
    return Ok(a);
  }

  /** A rule without a name gets the one made from its printed form. */
  function Named(r: Rule, nameOf: Rule -> string): Rule {
    if TrimSpace(r.name) == "" then r.(name := nameOf(r)) else r
  }

  /** The rule the dictionary describes, before it is named. */
  function Unnamed(d: Dict, parseCIDR: string -> Option<Cidr>): Rule
    requires WellFormed(d, parseCIDR)
  {
    Rule(Get(d, "name"), Get(d, "log"), MatchOf(d, parseCIDR), ActionOf(d, parseCIDR))
  }

  /**
   * What ParseRule makes of a dictionary: the first refusal in the order of its checks, or the rule the dictionary
   * describes. An id_set is refused last, as its compiler is not implemented.
   */
  function Described(d: Dict, parseCIDR: string -> Option<Cidr>, nameOf: Rule -> string): (r: Result<Rule, ParseError>)
    ensures r.Ok? <==> WellFormed(d, parseCIDR) && Actionable(ActionOf(d, parseCIDR)) && Get(d, "id_set") == ""
  {
    ActionRefusalNone(d);
    MatchRefusalNone(d, parseCIDR);
    var refusal := Then(ActionRefusal(d), MatchRefusal(d, parseCIDR));
    if refusal.Some? then Err(refusal.value)
    else if !Actionable(ActionOf(d, parseCIDR)) then Err(RequiredKeys)
    else if Get(d, "id_set") != "" then Err(InvalidValue("id_set", Get(d, "id_set")))
    else Ok(Named(Unnamed(d, parseCIDR), nameOf))
  }

  lemma DescribedBy(d: Dict, parseCIDR: string -> Option<Cidr>, nameOf: Rule -> string, m: Match, a: Action)
    requires WellFormed(d, parseCIDR) && m == MatchOf(d, parseCIDR) && a == ActionOf(d, parseCIDR)
    ensures Described(d, parseCIDR, nameOf) ==
            if !Actionable(a) then Err(RequiredKeys)
            else if Get(d, "id_set") != "" then Err(InvalidValue("id_set", Get(d, "id_set")))
            else Ok(Named(Rule(Get(d, "name"), Get(d, "log"), m, a), nameOf))
  {
    ActionRefusalNone(d);
    MatchRefusalNone(d, parseCIDR);
    hide ActionRefusal, MatchRefusal, ActionWellFormed, MatchWellFormed, ActionOf, MatchOf, Actionable, Get, Named;
  }

  lemma RefusedAction(d: Dict, parseCIDR: string -> Option<Cidr>, nameOf: Rule -> string)
    ensures ActionRefusal(d).Some? ==> Described(d, parseCIDR, nameOf) == Err(ActionRefusal(d).value)
    ensures ActionWellFormed(d) && MatchRefusal(d, parseCIDR).Some? ==>
              Described(d, parseCIDR, nameOf) == Err(MatchRefusal(d, parseCIDR).value)
  {
    ActionRefusalNone(d);
    hide ActionRefusal, MatchRefusal, ActionWellFormed, MatchWellFormed, ActionOf, Actionable, Get, Named, Unnamed;
  }

  lemma NameIsFree(r: Rule, nameOf: Rule -> string)
    requires forall name, log :: WellParsed(Rule(name, log, r.criteria, r.action))
    ensures WellParsed(Named(r, nameOf))
  {
    hide WellParsed, TrimSpace;
    var n := Named(r, nameOf);
    assert n == Rule(n.name, n.log, r.criteria, r.action);
  }

  /** ParseRule on a dictionary. */
  method BuildRule(comps: Dict, parseCIDR: string -> Option<Cidr>, nameOf: Rule -> string)
      returns (result: Result<Rule, ParseError>)
    ensures result == Described(comps, parseCIDR, nameOf)
    ensures result.Ok? ==> WellParsed(result.value)
  {
    RefusedAction(comps, parseCIDR, nameOf);
    hide ActionRefusal, MatchRefusal, ActionWellFormed, MatchWellFormed, Get, StatedAction, ActionOf, MatchOf, MaskFor,
      Actionable, WellParsed, Described, Named;
    var action := BuildAction(comps);
    if action.Err? {
      return Err(action.error);
    }
    var criteria := BuildMatch(comps, parseCIDR);
    if criteria.Err? {
      return Err(criteria.error);
    }
    LentMask(comps, parseCIDR, action.value, criteria.value);
    DescribedBy(comps, parseCIDR, nameOf, criteria.value, ActionOf(comps, parseCIDR));
    var finished := Finish(action.value, criteria.value);
    if finished.Err? {
      return Err(finished.error);
    }
    var idset := Get(comps, "id_set");
    if idset != "" {
      return Err(InvalidValue("id_set", idset));
    }
    var r := Rule(Get(comps, "name"), Get(comps, "log"), criteria.value, finished.value);
    NameIsFree(r, nameOf);
    return Ok(Named(r, nameOf));
  }

  lemma BlankDomainIsFine()
    ensures Lower(TrimSpace("")) != "none"
  {
    TrimNoOp("");
  }

  /**
   * ParseRule: accepts exactly the texts whose components are well-formed and include an action, and the rule it
   * builds is the one they describe; otherwise it returns the first error in the order of its checks. nameOf stands
   * for the name made from the digest of the printed rule.
   */
  method ParseRule(text: string, parseCIDR: string -> Option<Cidr>, nameOf: Rule -> string)
      returns (r: Result<Rule, ParseError>)
    ensures r == match RuleDict.DictOf(text)
                 case Err(cause) => Err(DictFailure(cause))
                 case Ok(comps) => Described(comps, parseCIDR, nameOf)
    ensures r.Ok? ==> WellParsed(r.value)
  {
    hide RuleDict.DictOf, Described, WellParsed;
    var comps := RuleDict.CreateRuleCompDict(text);
    if comps.Err? {
      return Err(DictFailure(comps.error));
    }
    r := BuildRule(comps.value, parseCIDR, nameOf);
  }
}
