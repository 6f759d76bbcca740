// What each component of a rule text makes of the rule ParseRule builds, component by component.
module RuleFields {
  import opened Wrappers
  import opened Text
  import opened Net
  import opened Netmask
  import opened Rules
  import opened IPText
  import opened RuleParser
  import RuleDict
  import Hostname

  /** The value of a component, or nothing when it is absent. */
  predicate Stated(d: Dict, key: string, value: string) {
    if key in d then value == d[key] else value == ""
  }

  lemma GetIsStated(d: Dict, key: string)
    ensures Stated(d, key, Get(d, key))
  {
  }

  /** d is accepted and makes r. */
  predicate Makes(d: Dict, parseCIDR: string -> Option<Cidr>, nameOf: Rule -> string, r: Rule) {
    Described(d, parseCIDR, nameOf) == Ok(r)
  }

  lemma AcceptedIs(d: Dict, parseCIDR: string -> Option<Cidr>, nameOf: Rule -> string, r: Rule)
    requires Makes(d, parseCIDR, nameOf, r)
    ensures ActionWellFormed(d) && MatchWellFormed(d, parseCIDR) && Get(d, "id_set") == ""
    ensures r.action == ActionOf(d, parseCIDR) && r.criteria == MatchOf(d, parseCIDR)
    ensures r.log == Get(d, "log")
    ensures TrimSpace(Get(d, "name")) != "" ==> r.name == Get(d, "name")
    ensures TrimSpace(Get(d, "name")) == "" ==> r.name == nameOf(r.(name := Get(d, "name")))
  {
    hide ActionWellFormed, MatchWellFormed, ActionRefusal, MatchRefusal, ActionOf, MatchOf, Actionable, Get, TrimSpace;
  }

  /** The parts of the rule, each from its own component. */
  lemma ActionParts(d: Dict, parseCIDR: string -> Option<Cidr>, a: Action)
    requires WellFormed(d, parseCIDR) && a == ActionOf(d, parseCIDR)
    ensures a.hostname == Get(d, "hostname") && a.domain == Get(d, "domain")
    ensures OptionalBool(Get(d, "continue")) && a.cont == BoolValue(Get(d, "continue"))
    ensures OptionalBool(Get(d, "ignore")) && a.ignore == BoolValue(Get(d, "ignore"))
    ensures var v := Get(d, "routers");
            if v == "" then a.routers == [] else AllRouters(Pieces(v)) && a.routers == RouterList(Pieces(v))
    ensures var v := Get(d, "domain_append");
            if v == "" then a.domainAppend == ""
            else Meaningful(AppendTokens(v)) && a.domainAppend == Join(AppendTokens(v), "|")
    ensures ExplicitMask(d).Some? && a.netmask == MaskFor(ExplicitMask(d).value, SubnetsOf(d, parseCIDR))
  {
    hide Get, OptionalBool, BoolValue, Pieces, AllRouters, RouterList, ExplicitMask, Join, Meaningful, AppendTokens,
      TrimSpace, Lower, LogLevel, MaskFor, MatchWellFormed, SubnetsOf;
    assert Get(d, "subnet") != "" ==> AllSubnets(Pieces(Get(d, "subnet")), parseCIDR) by {
      SubnetsParse(d, parseCIDR);
    }
  }

  lemma SubnetsParse(d: Dict, parseCIDR: string -> Option<Cidr>)
    requires MatchWellFormed(d, parseCIDR)
    ensures Get(d, "subnet") != "" ==> AllSubnets(Pieces(Get(d, "subnet")), parseCIDR)
  {
    hide Get, Pieces, AllSubnets, TypeSet;
  }

  lemma MatchParts(d: Dict, parseCIDR: string -> Option<Cidr>, m: Match)
    requires WellFormed(d, parseCIDR) && m == MatchOf(d, parseCIDR)
    ensures m.id == Get(d, "id") && m.idSet == None
    ensures if "type" in d then m.types == TypeSet(Pieces(d["type"])) != {} else m.types == {}
    ensures Get(d, "subnet") != "" ==> AllSubnets(Pieces(Get(d, "subnet")), parseCIDR)
    ensures m.subnets == SubnetsOf(d, parseCIDR)
  {
    hide Get, Pieces, AllSubnets, TypeSet, ActionWellFormed, SubnetsOf;
  }

  /** Texts are taken over as they are. */
  lemma TextFields(d: Dict, parseCIDR: string -> Option<Cidr>, nameOf: Rule -> string, r: Rule)
    requires Makes(d, parseCIDR, nameOf, r)
    ensures Stated(d, "hostname", r.action.hostname) && Stated(d, "domain", r.action.domain)
    ensures Stated(d, "id", r.criteria.id) && Stated(d, "log", r.log) && r.criteria.idSet == None
  {
    hide Makes, ActionWellFormed, MatchWellFormed, ActionOf, MatchOf, Get, Stated, TrimSpace, MaskFor, ExplicitMask,
      SubnetsOf, OptionalBool, BoolValue, Pieces, AllRouters, RouterList, Meaningful, AppendTokens, Join, TypeSet;
    AcceptedIs(d, parseCIDR, nameOf, r);
    ActionParts(d, parseCIDR, r.action);
    MatchParts(d, parseCIDR, r.criteria);
    GetIsStated(d, "hostname");
    GetIsStated(d, "domain");
    GetIsStated(d, "id");
    GetIsStated(d, "log");
  }

  /** A name that is not blank is kept; else the rule is named after its printed form. */
  lemma NameField(d: Dict, parseCIDR: string -> Option<Cidr>, nameOf: Rule -> string, r: Rule) returns (stated: string)
    requires Makes(d, parseCIDR, nameOf, r)
    ensures Stated(d, "name", stated)
    ensures r.name == if Blank(stated) then nameOf(r.(name := stated)) else stated
  {
    AcceptedIs(d, parseCIDR, nameOf, r);
    stated := Get(d, "name");
    GetIsStated(d, "name");
    hide Makes, ActionWellFormed, MatchWellFormed, ActionOf, MatchOf, Get, Stated, TrimSpace, IsSpace, Blank;
    var _, _ := TrimSpaceSplits(stated);
  }

  // --- continue and ignore ---

  /** The words for yes, in any case and between blanks. */
  predicate SaysYes(value: string) {
    var v := TrimSpace(Lower(value));
    v == "1" || v == "t" || v == "true" || v == "y" || v == "yes" || v == "on"
  }

  predicate SaysNo(value: string) {
    var v := TrimSpace(Lower(value));
    v == "0" || v == "f" || v == "false" || v == "n" || v == "no" || v == "off"
  }

  lemma BoolOfSays(value: string)
    ensures BoolOf(value).Some? && BoolOf(value).value ==> SaysYes(value)
    ensures BoolOf(value).Some? && !BoolOf(value).value ==> SaysNo(value) && !SaysYes(value)
  {
    hide TrimSpace, Lower;
  }

  /** The flag is what the component says, and not set when it is absent or empty. */
  predicate FlagIs(d: Dict, key: string, flag: bool) {
    if key !in d || d[key] == "" then !flag else if flag then SaysYes(d[key]) else SaysNo(d[key]) && !SaysYes(d[key])
  }

  lemma FlagOf(d: Dict, key: string, flag: bool)
    requires OptionalBool(Get(d, key)) && flag == BoolValue(Get(d, key))
    ensures FlagIs(d, key, flag)
  {
    BoolOfSays(Get(d, key));
    hide BoolOf, SaysYes, SaysNo;
  }

  lemma FlagFields(d: Dict, parseCIDR: string -> Option<Cidr>, nameOf: Rule -> string, r: Rule)
    requires Makes(d, parseCIDR, nameOf, r)
    ensures FlagIs(d, "continue", r.action.cont) && FlagIs(d, "ignore", r.action.ignore)
  {
    hide Makes, ActionWellFormed, MatchWellFormed, ActionOf, MatchOf, Get, FlagIs, TrimSpace, MaskFor, ExplicitMask,
      SubnetsOf, OptionalBool, BoolValue, Pieces, AllRouters, RouterList, Meaningful, AppendTokens, Join;
    AcceptedIs(d, parseCIDR, nameOf, r);
    ActionParts(d, parseCIDR, r.action);
    FlagOf(d, "continue", r.action.cont);
    FlagOf(d, "ignore", r.action.ignore);
  }

  // --- lists ---

  /** The routers are the addresses the pieces of the value parse to, in order. */
  predicate RoutersAre(value: string, routers: seq<u32>) {
    var pieces := Split(value, '|');
    if value == "" then routers == []
    else |routers| == |pieces| && forall i :: 0 <= i < |pieces| ==> ParseIP(TrimSpace(pieces[i])) == V4(routers[i])
  }

  lemma RoutersOf(value: string, routers: seq<u32>)
    requires value != "" ==> AllRouters(Pieces(value)) && routers == RouterList(Pieces(value))
    requires value == "" ==> routers == []
    ensures RoutersAre(value, routers)
  {
    hide TrimSpace, ParseIP, Split;
  }

  lemma RouterField(d: Dict, parseCIDR: string -> Option<Cidr>, nameOf: Rule -> string, r: Rule)
    returns (stated: string)
    requires Makes(d, parseCIDR, nameOf, r)
    ensures Stated(d, "routers", stated) && RoutersAre(stated, r.action.routers)
  {
    hide Makes, ActionWellFormed, MatchWellFormed, ActionOf, MatchOf, Get, Stated, TrimSpace, MaskFor, ExplicitMask,
      SubnetsOf, OptionalBool, BoolValue, Pieces, AllRouters, RouterList, Meaningful, AppendTokens, Join, RoutersAre;
    AcceptedIs(d, parseCIDR, nameOf, r);
    ActionParts(d, parseCIDR, r.action);
    stated := Get(d, "routers");
    GetIsStated(d, "routers");
    RoutersOf(stated, r.action.routers);
  }

  /** The subnets are the networks the pieces of the value parse to, in order. */
  predicate SubnetsAre(value: string, subnets: seq<Cidr>, parseCIDR: string -> Option<Cidr>) {
    var pieces := Split(value, '|');
    if value == "" then subnets == []
    else |subnets| == |pieces| && forall i :: 0 <= i < |pieces| ==> parseCIDR(TrimSpace(pieces[i])) == Some(subnets[i])
  }

  lemma SubnetsFrom(d: Dict, parseCIDR: string -> Option<Cidr>)
    requires Get(d, "subnet") != "" ==> AllSubnets(Pieces(Get(d, "subnet")), parseCIDR)
    ensures SubnetsAre(Get(d, "subnet"), SubnetsOf(d, parseCIDR), parseCIDR)
  {
    hide TrimSpace, Split, Get;
  }

  lemma SubnetField(d: Dict, parseCIDR: string -> Option<Cidr>, nameOf: Rule -> string, r: Rule)
    returns (stated: string)
    requires Makes(d, parseCIDR, nameOf, r)
    ensures Stated(d, "subnet", stated) && SubnetsAre(stated, r.criteria.subnets, parseCIDR)
  {
    hide Makes, ActionWellFormed, MatchWellFormed, ActionOf, MatchOf, Get, Stated, TrimSpace, SubnetsOf, Pieces,
      AllSubnets, SubnetsAre, TypeSet;
    AcceptedIs(d, parseCIDR, nameOf, r);
    MatchParts(d, parseCIDR, r.criteria);
    stated := Get(d, "subnet");
    GetIsStated(d, "subnet");
    SubnetsFrom(d, parseCIDR);
  }

  /** t is a piece of the value, trimmed and not empty. */
  predicate IsPiece(value: string, t: string) {
    var pieces := Split(value, '|');
    t != "" && exists i :: 0 <= i < |pieces| && TrimSpace(pieces[i]) == t
  }

  lemma {:induction false} TokensAre(parts: seq<string>, t: string)
    ensures t in Tokens(parts) <==> t != "" && exists i :: 0 <= i < |parts| && TrimSpace(parts[i]) == t
    decreases |parts|
  {
    hide TrimSpace;
    if parts != [] {
      TokensAre(parts[1..], t);
      if i :| 0 <= i < |parts[1..]| && TrimSpace(parts[1..][i]) == t {
        assert TrimSpace(parts[i + 1]) == t;
      }
      if i :| 0 <= i < |parts| && TrimSpace(parts[i]) == t {
        assert i > 0 ==> TrimSpace(parts[1..][i - 1]) == t;
      }
    }
  }

  lemma TypesFrom(value: string)
    ensures forall t :: t in TypeSet(Pieces(value)) <==> IsPiece(value, t)
  {
    hide TrimSpace, Split, Tokens;
    forall t ensures t in TypeSet(Pieces(value)) <==> IsPiece(value, t) {
      TokensAre(Split(value, '|'), t);
    }
  }

  /** The types are the trimmed pieces that are not empty, and there is one when the component is present. */
  lemma TypeField(d: Dict, parseCIDR: string -> Option<Cidr>, nameOf: Rule -> string, r: Rule)
    requires Makes(d, parseCIDR, nameOf, r)
    ensures "type" !in d ==> r.criteria.types == {}
    ensures "type" in d ==> r.criteria.types != {} && forall t :: t in r.criteria.types <==> IsPiece(d["type"], t)
  {
    hide Makes, ActionWellFormed, MatchWellFormed, ActionOf, MatchOf, Get, TrimSpace, SubnetsOf, Pieces, AllSubnets,
      TypeSet, IsPiece;
    AcceptedIs(d, parseCIDR, nameOf, r);
    MatchParts(d, parseCIDR, r.criteria);
    if "type" in d {
      TypesFrom(d["type"]);
    }
  }

  /** The mode is the tokens of the value in the order given, one of the five lists; an empty value is no mode. */
  predicate ModeIs(value: string, mode: string) {
    var toks := Tokens(Split(TrimSpace(Lower(value)), '|'));
    if value == "" then mode == ""
    else
      && mode == Join(toks, "|")
      && (toks == ["none"] || toks == ["global"] || toks == ["rule"]
          || toks == ["global", "rule"] || toks == ["rule", "global"])
  }

  lemma ModeFrom(value: string, mode: string)
    requires if value == "" then mode == ""
             else Meaningful(AppendTokens(value)) && mode == Join(AppendTokens(value), "|")
    ensures ModeIs(value, mode)
  {
    hide TrimSpace, Lower, Split, Tokens, Join;
  }

  lemma ModeField(d: Dict, parseCIDR: string -> Option<Cidr>, nameOf: Rule -> string, r: Rule) returns (stated: string)
    requires Makes(d, parseCIDR, nameOf, r)
    ensures Stated(d, "domain_append", stated) && ModeIs(stated, r.action.domainAppend)
  {
    hide Makes, ActionWellFormed, MatchWellFormed, ActionOf, MatchOf, Get, Stated, TrimSpace, MaskFor, ExplicitMask,
      SubnetsOf, OptionalBool, BoolValue, Pieces, AllRouters, RouterList, Meaningful, AppendTokens, Join, ModeIs;
    AcceptedIs(d, parseCIDR, nameOf, r);
    ActionParts(d, parseCIDR, r.action);
    stated := Get(d, "domain_append");
    GetIsStated(d, "domain_append");
    ModeFrom(stated, r.action.domainAppend);
  }

  // --- the mask ---

  /** A width reads as the number it is written as, with or without a sign and leading zeros. */
  lemma AtoiReads(zeros: string, k: nat)
    requires forall i :: 0 <= i < |zeros| ==> zeros[i] == '0'
    ensures var n: int := k;
            var ds := zeros + Hostname.Decimal(k);
            Atoi(ds) == Some(n) && Atoi("+" + ds) == Some(n) && Atoi("-" + ds) == Some(-n)
  {
    var ds := zeros + Hostname.Decimal(k);
    Hostname.DecimalWidth(zeros, k);
    hide Hostname.Decimal, Hostname.Number, Atoi;
    PlainDigits(ds);
    SignedDigits("+", ds);
    SignedDigits("-", ds);
  }

  lemma PlainDigits(ds: string)
    requires ds != "" && Hostname.AllDigits(ds)
    ensures Atoi(ds) == Some(Hostname.Number(ds))
  {
    hide Hostname.Number;
    assert IsDigit(ds[0]);
  }

  lemma SignedDigits(sign: string, ds: string)
    requires (sign == "+" || sign == "-") && ds != "" && Hostname.AllDigits(ds)
    ensures Atoi(sign + ds) == Some(if sign == "-" then -Hostname.Number(ds) else Hostname.Number(ds))
  {
    hide Hostname.Number;
    assert (sign + ds)[1..] == ds;
  }

  /** The text reads as a width k from 1 to 32 and the mask is k ones. */
  predicate IsWidthMask(s: string, m: Mask) {
    Atoi(s).Some? && 1 <= Atoi(s).value <= 32 && m == Mask4(WidthMask(Atoi(s).value))
  }

  /** The text reads as an IPv4 address that is a mask and not 0.0.0.0, and the mask is that address. */
  predicate IsNetmask(s: string, m: Mask) {
    match ParseIP(s)
    case V4(v) => v != 0 && CheckValidNetmask(v as bv32) && m == Mask4(v as bv32)
    case _ => false
  }

  /** The mask of the first subnet, of its 4 or 16 bytes, if it has any ones, and else none. */
  predicate IsLentMask(subnets: seq<Cidr>, m: Mask) {
    if subnets == [] then m == NoMask
    else match subnets[0]
      case Cidr4(_, ones) => m == if ones > 0 then Mask4(WidthMask(ones)) else NoMask
      case Cidr6(_, ones) => m == if ones > 0 then Mask16(ones) else NoMask
  }

  lemma SubnetMaskIs(n: Cidr)
    ensures n.Cidr4? ==> MaskOf(n) == Mask4(WidthMask(n.ones4)) && (Usable(MaskOf(n)) <==> n.ones4 > 0)
    ensures n.Cidr6? ==> MaskOf(n) == Mask16(n.ones6) && (Usable(MaskOf(n)) <==> n.ones6 > 0)
  {
    if n.Cidr4? {
      WidthMaskIsValid(n.ones4);
    }
    hide CheckValidNetmask, WidthMask;
  }

  lemma LentIs(subnets: seq<Cidr>)
    ensures IsLentMask(subnets, MaskFor(NoMask, subnets))
  {
    if subnets != [] {
      SubnetMaskIs(subnets[0]);
    }
    hide WidthMask, MaskOf, CheckValidNetmask;
  }

  lemma WidthIs(s: string, subnets: seq<Cidr>)
    requires WidthValue(s).Some?
    ensures IsWidthMask(s, MaskFor(WidthValue(s).value, subnets))
  {
    WidthMaskIsValid(Atoi(s).value);
    hide Atoi, WidthMask, CheckValidNetmask, MaskOf;
  }

  lemma NetmaskIs(s: string, subnets: seq<Cidr>)
    requires NetmaskValue(s).Some?
    ensures IsNetmask(s, MaskFor(NetmaskValue(s).value, subnets))
  {
    var m := NetmaskValue(s).value;
    assert ParseIP(s).V4? && m == Mask4(ParseIP(s).v as bv32) && CheckValidNetmask(ParseIP(s).v as bv32);
    assert m.bits != 0 by {
      NotZero(ParseIP(s).v);
    }
    hide ParseIP, CheckValidNetmask, MaskOf;
  }

  lemma NotZero(v: u32)
    requires v != 0
    ensures v as bv32 != 0
  {
  }

  lemma ExplicitIs(d: Dict, subnets: seq<Cidr>)
    requires ExplicitMask(d).Some?
    ensures !("cidr" in d && "netmask" in d)
    ensures "cidr" in d ==> WidthValue(d["cidr"]) == ExplicitMask(d)
    ensures "netmask" in d ==> NetmaskValue(d["netmask"]) == ExplicitMask(d)
    ensures "cidr" !in d && "netmask" !in d ==> ExplicitMask(d) == Some(NoMask)
  {
    hide WidthValue, NetmaskValue;
  }

  /**
   * A stated mask is kept whatever the subnets are: a width k is the mask of k ones, a netmask the address it parses
   * to. A rule that states none has the mask of its first subnet, if that has any ones, and else none.
   */
  lemma MaskField(d: Dict, parseCIDR: string -> Option<Cidr>, nameOf: Rule -> string, r: Rule)
    requires Makes(d, parseCIDR, nameOf, r)
    ensures !("cidr" in d && "netmask" in d)
    ensures "cidr" in d ==> IsWidthMask(d["cidr"], r.action.netmask)
    ensures "netmask" in d ==> IsNetmask(d["netmask"], r.action.netmask)
    ensures "cidr" !in d && "netmask" !in d ==> IsLentMask(r.criteria.subnets, r.action.netmask)
  {
    hide Makes, ActionWellFormed, MatchWellFormed, ActionOf, MatchOf, Get, TrimSpace, MaskFor, ExplicitMask, SubnetsOf,
      OptionalBool, BoolValue, Pieces, AllRouters, RouterList, Meaningful, AppendTokens, Join, TypeSet, AllSubnets,
      IsWidthMask, IsNetmask, IsLentMask, WidthValue, NetmaskValue;
    AcceptedIs(d, parseCIDR, nameOf, r);
    ActionParts(d, parseCIDR, r.action);
    MatchParts(d, parseCIDR, r.criteria);
    ExplicitIs(d, r.criteria.subnets);
    if "cidr" in d {
      WidthIs(d["cidr"], r.criteria.subnets);
    } else if "netmask" in d {
      NetmaskIs(d["netmask"], r.criteria.subnets);
    } else {
      LentIs(r.criteria.subnets);
    }
  }

  // --- which dictionaries are accepted ---

  predicate LogFine(v: string) {
    v == "" || v == "info" || v == "debug" || v == "none"
  }

  predicate RoutersFine(v: string) {
    var pieces := Split(v, '|');
    v == "" || forall i :: 0 <= i < |pieces| ==> ParseIP(TrimSpace(pieces[i])).V4?
  }

  predicate SubnetsFine(v: string, parseCIDR: string -> Option<Cidr>) {
    var pieces := Split(v, '|');
    v == "" || forall i :: 0 <= i < |pieces| ==> parseCIDR(TrimSpace(pieces[i])).Some?
  }

  predicate FlagFine(v: string) {
    v == "" || SaysYes(v) || SaysNo(v)
  }

  predicate ModeFine(v: string) {
    var toks := Tokens(Split(TrimSpace(Lower(v)), '|'));
    || v == "" || toks == ["none"] || toks == ["global"] || toks == ["rule"]
    || toks == ["global", "rule"] || toks == ["rule", "global"]
  }

  predicate WidthFine(v: string) {
    Atoi(v).Some? && 1 <= Atoi(v).value <= 32
  }

  predicate NetmaskFine(v: string) {
    match ParseIP(v)
    case V4(a) => a != 0 && CheckValidNetmask(a as bv32)
    case _ => false
  }

  predicate MaskFine(d: Dict) {
    && !("netmask" in d && "cidr" in d)
    && ("netmask" in d ==> NetmaskFine(d["netmask"])) && ("cidr" in d ==> WidthFine(d["cidr"]))
  }

  ghost predicate TypesFine(d: Dict) {
    "type" in d ==> exists t :: IsPiece(d["type"], t)
  }

  /** Every component is well-formed, and there is no id_set. */
  ghost predicate Fine(d: Dict, parseCIDR: string -> Option<Cidr>) {
    && LogFine(Get(d, "log")) && RoutersFine(Get(d, "routers")) && MaskFine(d)
    && Lower(TrimSpace(Get(d, "domain"))) != "none"
    && FlagFine(Get(d, "continue")) && FlagFine(Get(d, "ignore")) && ModeFine(Get(d, "domain_append"))
    && TypesFine(d) && SubnetsFine(Get(d, "subnet"), parseCIDR) && Get(d, "id_set") == ""
  }

  /** The first of the networks has a leading one. */
  predicate FirstHasOnes(v: string, parseCIDR: string -> Option<Cidr>) {
    v != "" &&
    match parseCIDR(TrimSpace(Split(v, '|')[0]))
    case None => false
    case Some(Cidr4(_, ones)) => ones > 0
    case Some(Cidr6(_, ones)) => ones > 0
  }

  /** Some component is an action: a name, routers, ignore, or a mask, stated or lent by the first subnet. */
  predicate Acts(d: Dict, parseCIDR: string -> Option<Cidr>) {
    || !Blank(Get(d, "hostname")) || Get(d, "routers") != "" || (Get(d, "ignore") != "" && SaysYes(Get(d, "ignore")))
    || "netmask" in d || "cidr" in d || FirstHasOnes(Get(d, "subnet"), parseCIDR)
  }

  lemma FlagFineIs(v: string)
    ensures FlagFine(v) <==> OptionalBool(v)
    ensures OptionalBool(v) ==> (BoolValue(v) <==> v != "" && SaysYes(v))
  {
    BoolOfSays(v);
    SaysIsBool(v);
    hide BoolOf, SaysYes, SaysNo;
  }

  lemma SaysIsBool(v: string)
    ensures SaysYes(v) || SaysNo(v) ==> BoolOf(v).Some?
  {
    hide TrimSpace, Lower;
  }

  lemma RoutersFineIs(v: string)
    ensures RoutersFine(v) <==> (v != "" ==> AllRouters(Pieces(v)))
  {
    hide TrimSpace, ParseIP, Split;
  }

  lemma SubnetsFineIs(v: string, parseCIDR: string -> Option<Cidr>)
    ensures SubnetsFine(v, parseCIDR) <==> (v != "" ==> AllSubnets(Pieces(v), parseCIDR))
  {
    hide TrimSpace, Split;
  }

  lemma ModeFineIs(v: string)
    ensures ModeFine(v) <==> (v != "" ==> Meaningful(AppendTokens(v)))
  {
    hide TrimSpace, Split, Lower, Tokens;
  }

  lemma MaskFineIs(d: Dict)
    ensures MaskFine(d) <==> ExplicitMask(d).Some?
  {
    hide ParseIP, CheckValidNetmask, Atoi, WidthMask;
  }

  lemma TypesFineIs(d: Dict)
    ensures TypesFine(d) <==> ("type" in d ==> TypeSet(Pieces(d["type"])) != {})
  {
    hide IsPiece, Pieces, TypeSet;
    if "type" in d {
      TypesFrom(d["type"]);
    }
  }

  lemma FineIsWellFormed(d: Dict, parseCIDR: string -> Option<Cidr>)
    ensures Fine(d, parseCIDR) <==> WellFormed(d, parseCIDR) && Get(d, "id_set") == ""
  {
    hide Get, LogFine, RoutersFine, MaskFine, FlagFine, ModeFine, TypesFine, SubnetsFine, OptionalBool, Pieces,
      LogLevel, AllRouters, AllSubnets, ExplicitMask, Meaningful, AppendTokens, TypeSet, TrimSpace, Lower, BoolValue;
    LogFineIs(Get(d, "log"));
    RoutersFineIs(Get(d, "routers"));
    SubnetsFineIs(Get(d, "subnet"), parseCIDR);
    ModeFineIs(Get(d, "domain_append"));
    MaskFineIs(d);
    TypesFineIs(d);
    FlagFineIs(Get(d, "continue"));
    FlagFineIs(Get(d, "ignore"));
  }

  lemma LogFineIs(v: string)
    ensures LogFine(v) <==> LogLevel(v)
  {
  }

  lemma UsableWidth(s: string)
    requires WidthValue(s).Some?
    ensures Usable(WidthValue(s).value)
  {
    WidthMaskIsValid(Atoi(s).value);
    hide Atoi, WidthMask, CheckValidNetmask;
  }

  lemma UsableNetmask(s: string)
    requires NetmaskValue(s).Some?
    ensures Usable(NetmaskValue(s).value)
  {
    NotZero(ParseIP(s).v);
    hide ParseIP, CheckValidNetmask;
  }

  lemma UsableExplicit(d: Dict)
    requires ExplicitMask(d).Some?
    ensures Usable(ExplicitMask(d).value) <==> "netmask" in d || "cidr" in d
  {
    ExplicitIs(d, []);
    hide ExplicitMask, WidthValue, NetmaskValue;
    if "netmask" in d {
      UsableNetmask(d["netmask"]);
    } else if "cidr" in d {
      UsableWidth(d["cidr"]);
    }
  }

  lemma UsableFor(explicit: Mask, subnets: seq<Cidr>)
    ensures Usable(MaskFor(explicit, subnets)) <==> Usable(explicit) || (subnets != [] && Usable(MaskOf(subnets[0])))
  {
    hide Usable, MaskOf;
  }

  lemma FirstLends(v: string, subnets: seq<Cidr>, parseCIDR: string -> Option<Cidr>)
    requires SubnetsAre(v, subnets, parseCIDR)
    ensures FirstHasOnes(v, parseCIDR) <==> subnets != [] && Usable(MaskOf(subnets[0]))
  {
    if subnets != [] {
      SubnetMaskIs(subnets[0]);
    }
    hide TrimSpace, Split, Usable, MaskOf;
  }

  lemma MaskActs(d: Dict, parseCIDR: string -> Option<Cidr>)
    requires WellFormed(d, parseCIDR)
    ensures Usable(ActionOf(d, parseCIDR).netmask) <==>
            "netmask" in d || "cidr" in d || FirstHasOnes(Get(d, "subnet"), parseCIDR)
  {
    hide ActionWellFormed, MatchWellFormed, Get, TrimSpace, MaskFor, ExplicitMask, SubnetsOf, OptionalBool, BoolValue,
      Pieces, AllRouters, RouterList, Meaningful, AppendTokens, Join, AllSubnets, FirstHasOnes, SubnetsAre, Usable,
      ActionOf, MaskOf;
    SubnetsParse(d, parseCIDR);
    ActionParts(d, parseCIDR, ActionOf(d, parseCIDR));
    UsableExplicit(d);
    SubnetsFrom(d, parseCIDR);
    UsableFor(ExplicitMask(d).value, SubnetsOf(d, parseCIDR));
    FirstLends(Get(d, "subnet"), SubnetsOf(d, parseCIDR), parseCIDR);
  }

  lemma RoutersAct(v: string, routers: seq<u32>)
    requires if v == "" then routers == [] else AllRouters(Pieces(v)) && routers == RouterList(Pieces(v))
    ensures routers != [] <==> v != ""
  {
    hide AllRouters, IsRouter, RouterOf;
  }

  lemma ActsIsActionable(d: Dict, parseCIDR: string -> Option<Cidr>)
    requires WellFormed(d, parseCIDR)
    ensures Acts(d, parseCIDR) <==> Actionable(ActionOf(d, parseCIDR))
  {
    hide ActionWellFormed, MatchWellFormed, Get, TrimSpace, MaskFor, ExplicitMask, SubnetsOf, OptionalBool, BoolValue,
      Pieces, AllRouters, RouterList, Meaningful, AppendTokens, Join, FirstHasOnes, Usable, ActionOf, SaysYes, Blank;
    ActionParts(d, parseCIDR, ActionOf(d, parseCIDR));
    RoutersAct(Get(d, "routers"), ActionOf(d, parseCIDR).routers);
    MaskActs(d, parseCIDR);
    FlagFineIs(Get(d, "ignore"));
    var _, _ := TrimSpaceSplits(Get(d, "hostname"));
  }

  /**
   * A dictionary makes a rule if and only if its log level is one of the three words, every router and every subnet
   * piece parses, at most one of netmask and cidr is there and is a mask or a width from 1 to 32, the domain is not
   * the word none, each flag says yes or no, the mode is one of the five lists, a type component names a type, there
   * is no id_set, and some component is an action.
   */
  lemma AcceptedIff(d: Dict, parseCIDR: string -> Option<Cidr>, nameOf: Rule -> string)
    ensures Described(d, parseCIDR, nameOf).Ok? <==> Fine(d, parseCIDR) && Acts(d, parseCIDR)
  {
    FineIsWellFormed(d, parseCIDR);
    hide Fine, WellFormed, Acts, Actionable, ActionOf, Get;
    if WellFormed(d, parseCIDR) {
      ActsIsActionable(d, parseCIDR);
    }
    hide Described;
  }
}
