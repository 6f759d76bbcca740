// internal/rule/rule.go, Evaluate4 and Evaluate6: the rule loops and the declarative semantics they refine.
module Evaluate {
  import opened Wrappers
  import opened Text
  import opened Net
  import Hostname
  import opened Rules

  const DEFAULT_PATTERN: string := "unknown-{04d}"

  /** The options of a DHCPv4 response that rules set; None is an absent option. */
  class Response4 {
    var hostname: Option<string>
    var routers: Option<seq<u32>>
    var netmask: Option<Mask>
    var yourIP: IP

    constructor ()
      ensures hostname == None && routers == None && netmask == None && yourIP == NoIP
    {
      hostname, routers, netmask, yourIP := None, None, None, NoIP;
    }
  }

  /** The FQDN option of a DHCPv6 response, as its labels. */
  class Response6 {
    var fqdn: Option<seq<string>>

    constructor ()
      ensures fqdn == None
    {
      fqdn := None;
    }
  }

  // --- the declarative semantics ---

  /** Rule j is reached: it matches, and every earlier matching rule continues and does not ignore. */
  ghost predicate Reached(rules: seq<Rule>, ii: IfaceInfo, j: int) {
    && 0 <= j < |rules|
    && Matches(rules[j].criteria, ii)
    && forall i :: 0 <= i < j && Matches(rules[i].criteria, ii) ==> rules[i].action.cont && !rules[i].action.ignore
  }

  /** The request is dropped: some reached rule ignores. */
  ghost predicate Dropped(rules: seq<Rule>, ii: IfaceInfo) {
    exists j :: Reached(rules, ii, j) && rules[j].action.ignore
  }

  datatype Field = NameField | RoutersField | MaskField

  /** The mask a matching rule sets: its own, else that of its first subnet when that is an IPv4 one. */
  function EffectiveMask(r: Rule): Mask {
    if Usable(r.action.netmask) then r.action.netmask
    else if r.criteria.subnets != [] && r.criteria.subnets[0].Cidr4? then MaskOf(r.criteria.subnets[0])
    else r.action.netmask
  }

  /** The rule, when it fires, sets the field. */
  predicate Sets(f: Field, r: Rule) {
    match f
    case NameField => TrimSpace(r.action.hostname) != ""
    case RoutersField => r.action.routers != []
    case MaskField => Usable(EffectiveMask(r))
  }

  /** Rule j fires and sets the field. */
  ghost predicate Fires(rules: seq<Rule>, ii: IfaceInfo, f: Field, j: int) {
    Reached(rules, ii, j) && !rules[j].action.ignore && Sets(f, rules[j])
  }

  /** k is the last of the first n rules that fires and sets the field; -1 when none does. */
  ghost predicate IsLast(rules: seq<Rule>, ii: IfaceInfo, f: Field, n: nat, k: int) {
    && (k == -1 || (0 <= k < n && Fires(rules, ii, f, k)))
    && forall j :: k < j < n ==> !Fires(rules, ii, f, j)
  }

  /** The last firing rule that sets the field. */
  ghost function LastSetter(rules: seq<Rule>, ii: IfaceInfo, f: Field, n: nat): (k: int)
    ensures -1 <= k < n
  {
    if n == 0 then -1
    else if Fires(rules, ii, f, n - 1) then n - 1
    else LastSetter(rules, ii, f, n - 1)
  }

  lemma {:induction false} LastSetterIsLast(rules: seq<Rule>, ii: IfaceInfo, f: Field, n: nat)
    ensures IsLast(rules, ii, f, n, LastSetter(rules, ii, f, n))
    decreases n
  {
    hide Fires;
    if n > 0 {
      LastSetterIsLast(rules, ii, f, n - 1);
    }
  }

  lemma LastIsUnique(rules: seq<Rule>, ii: IfaceInfo, f: Field, n: nat, k: int)
    requires IsLast(rules, ii, f, n, k)
    ensures k == LastSetter(rules, ii, f, n)
  {
    hide Fires;
    LastSetterIsLast(rules, ii, f, n);
  }

  function RuleName(r: Rule, domain: string, ii: IfaceInfo): string {
    NameFor(TrimSpace(r.action.hostname), domain, ii, r.action)
  }

  function DefaultName(domain: string, ii: IfaceInfo): string {
    NameFor(DEFAULT_PATTERN, domain, ii, EMPTY_ACTION)
  }

  /** The name the rules leave in the response, before any default. */
  ghost function NameSet(rules: seq<Rule>, domain: string, ii: IfaceInfo, before: Option<string>): Option<string> {
    var k := LastSetter(rules, ii, NameField, |rules|);
    if k == -1 then before else Some(RuleName(rules[k], domain, ii))
  }

  ghost function RoutersSet(rules: seq<Rule>, ii: IfaceInfo, before: Option<seq<u32>>): Option<seq<u32>> {
    var k := LastSetter(rules, ii, RoutersField, |rules|);
    if k == -1 then before else Some(rules[k].action.routers)
  }

  ghost function MaskSet(rules: seq<Rule>, ii: IfaceInfo, before: Option<Mask>): Option<Mask> {
    var k := LastSetter(rules, ii, MaskField, |rules|);
    if k == -1 then before else Some(EffectiveMask(rules[k]))
  }

  /** No name, or a blank one. */
  predicate Unnamed(name: Option<string>) {
    name.None? || Blank(name.value)
  }

  // --- the loops ---

  /** A reached rule that stops hides every later one. */
  lemma StopsHere(rules: seq<Rule>, ii: IfaceInfo, i: nat, f: Field, k: int)
    requires Reached(rules, ii, i) && (!rules[i].action.cont || rules[i].action.ignore)
    requires IsLast(rules, ii, f, i + 1, k)
    ensures k == LastSetter(rules, ii, f, |rules|)
    ensures forall j :: i < j ==> !Reached(rules, ii, j)
  {
    hide Matches, Sets;
    LastIsUnique(rules, ii, f, |rules|, k);
  }

  /** One rule further: it does not match, or it fires and continues. */
  lemma OneRule(rules: seq<Rule>, ii: IfaceInfo, i: nat, f: Field, k: int)
    requires i < |rules| && IsLast(rules, ii, f, i, k)
    requires AllContinue(rules, ii, i)
    ensures Matches(rules[i].criteria, ii) ==> Reached(rules, ii, i)
    ensures IsLast(rules, ii, f, i + 1,
                   if Matches(rules[i].criteria, ii) && !rules[i].action.ignore && Sets(f, rules[i]) then i else k)
  {
    hide Matches, Sets;
  }

  /** The actions of a matching rule that does not ignore: each field is set when the rule sets it, else left alone. */
  method ApplyActions(rule: Rule, ii: IfaceInfo, globalDomain: string, resp: Response4)
    modifies resp
    ensures resp.hostname ==
            if Sets(NameField, rule) then Some(RuleName(rule, globalDomain, ii)) else old(resp.hostname)
    ensures resp.routers == if Sets(RoutersField, rule) then Some(rule.action.routers) else old(resp.routers)
    ensures resp.netmask == if Sets(MaskField, rule) then Some(EffectiveMask(rule)) else old(resp.netmask)
    ensures resp.yourIP == old(resp.yourIP)
  {
    hide Usable, TrimSpace, MaskOf, NameFor;
    var hn := TrimSpace(rule.action.hostname);
    if hn != "" {
      var name := LookupHostname(hn, globalDomain, ii, rule.action);
      resp.hostname := Some(name);
    }
    if |rule.action.routers| > 0 {
      resp.routers := Some(rule.action.routers);
    }
    var mask := rule.action.netmask;
    if !Usable(mask) {
      if |rule.criteria.subnets| > 0 {
        if rule.criteria.subnets[0].Cidr4? {
          mask := MaskOf(rule.criteria.subnets[0]);
        }
      }
    }
    if Usable(mask) {
      resp.netmask := Some(mask);
    }
  }

  /** Evaluate4: false drops the request. */
  method Evaluate4(ii: IfaceInfo, globalDomain: string, resp: Response4, rules: seq<Rule>) returns (send: bool)
    modifies resp
    ensures send <==> !Dropped(rules, ii)
    ensures var name := NameSet(rules, globalDomain, ii, old(resp.hostname));
            resp.hostname == if send && Unnamed(name) then Some(DefaultName(globalDomain, ii)) else name
    ensures resp.routers == RoutersSet(rules, ii, old(resp.routers))
    ensures resp.netmask == MaskSet(rules, ii, old(resp.netmask))
    ensures resp.yourIP == old(resp.yourIP)
  {
    NothingFiresYet(rules, ii);
    hide Matches, TrimSpace, NameFor, RuleName, EffectiveMask, Sets, Reached, Dropped, IsLast, LastSetter, Blank;
    ghost var kh, kr, km := -1, -1, -1;
    var idx := 0;
    while idx < |rules|
      invariant 0 <= idx <= |rules|
      invariant AllContinue(rules, ii, idx)
      invariant -1 <= kh < idx && -1 <= kr < idx && -1 <= km < idx
      invariant IsLast(rules, ii, NameField, idx, kh)
      invariant IsLast(rules, ii, RoutersField, idx, kr)
      invariant IsLast(rules, ii, MaskField, idx, km)
      invariant resp.hostname == if kh == -1 then old(resp.hostname) else Some(RuleName(rules[kh], globalDomain, ii))
      invariant resp.routers == if kr == -1 then old(resp.routers) else Some(rules[kr].action.routers)
      invariant resp.netmask == if km == -1 then old(resp.netmask) else Some(EffectiveMask(rules[km]))
      invariant resp.yourIP == old(resp.yourIP)
    {
      var rule := rules[idx];
      var matches, cont := MatchIface(rule, ii);
      OneRule(rules, ii, idx, NameField, kh);
      OneRule(rules, ii, idx, RoutersField, kr);
      OneRule(rules, ii, idx, MaskField, km);
      if matches {
        if rule.action.ignore {
          StopsAll(rules, ii, idx, kh, kr, km);
          return false;
        }
        ApplyActions(rule, ii, globalDomain, resp);
        kh := if Sets(NameField, rule) then idx else kh;
        kr := if Sets(RoutersField, rule) then idx else kr;
        km := if Sets(MaskField, rule) then idx else km;
        if !cont {
          StopsAll(rules, ii, idx, kh, kr, km);
          break;
        }
      }
      idx := idx + 1;
    }
    if idx == |rules| {
      FallsThrough(rules, ii, kh, kr, km);
    }
    var current := resp.hostname;
    BlankWhenTrimmed(if current.Some? then current.value else "");
    if current.None? || TrimSpace(current.value) == "" {
      var name := LookupHostname(DEFAULT_PATTERN, globalDomain, ii, EMPTY_ACTION);
      resp.hostname := Some(name);
    }
    return true;
  }

  /** Every matching rule before n continues and does not ignore. */
  ghost predicate AllContinue(rules: seq<Rule>, ii: IfaceInfo, n: int) {
    forall j :: 0 <= j < n && j < |rules| && Matches(rules[j].criteria, ii) ==>
                  rules[j].action.cont && !rules[j].action.ignore
  }

  lemma NothingFiresYet(rules: seq<Rule>, ii: IfaceInfo)
    ensures forall f :: IsLast(rules, ii, f, 0, -1)
  {
  }

  lemma BlankWhenTrimmed(s: string)
    ensures TrimSpace(s) == "" <==> Blank(s)
  {
    var _, _ := TrimSpaceSplits(s);
  }

  /** The loop ended at rule i: the verdict and the last setters are settled. */
  lemma StopsAll(rules: seq<Rule>, ii: IfaceInfo, i: nat, kh: int, kr: int, km: int)
    requires Reached(rules, ii, i) && (!rules[i].action.cont || rules[i].action.ignore)
    requires IsLast(rules, ii, NameField, i + 1, kh) && IsLast(rules, ii, RoutersField, i + 1, kr)
    requires IsLast(rules, ii, MaskField, i + 1, km)
    requires AllContinue(rules, ii, i)
    ensures Dropped(rules, ii) <==> rules[i].action.ignore
    ensures kh == LastSetter(rules, ii, NameField, |rules|)
    ensures kr == LastSetter(rules, ii, RoutersField, |rules|)
    ensures km == LastSetter(rules, ii, MaskField, |rules|)
  {
    hide Matches, Sets;
    StopsHere(rules, ii, i, NameField, kh);
    StopsHere(rules, ii, i, RoutersField, kr);
    StopsHere(rules, ii, i, MaskField, km);
  }

  /** The loop ran through all rules. */
  lemma FallsThrough(rules: seq<Rule>, ii: IfaceInfo, kh: int, kr: int, km: int)
    requires IsLast(rules, ii, NameField, |rules|, kh) && IsLast(rules, ii, RoutersField, |rules|, kr)
    requires IsLast(rules, ii, MaskField, |rules|, km)
    requires AllContinue(rules, ii, |rules|)
    ensures !Dropped(rules, ii)
    ensures kh == LastSetter(rules, ii, NameField, |rules|)
    ensures kr == LastSetter(rules, ii, RoutersField, |rules|)
    ensures km == LastSetter(rules, ii, MaskField, |rules|)
  {
    hide Matches, Sets;
    LastIsUnique(rules, ii, NameField, |rules|, kh);
    LastIsUnique(rules, ii, RoutersField, |rules|, kr);
    LastIsUnique(rules, ii, MaskField, |rules|, km);
  }

  /** The labels rules leave in a DHCPv6 response, before any default. */
  ghost function LabelsSet(rules: seq<Rule>, domain: string, ii: IfaceInfo, before: Option<seq<string>>)
    : Option<seq<string>>
  {
    var k := LastSetter(rules, ii, NameField, |rules|);
    if k == -1 then before else Some(Split(RuleName(rules[k], domain, ii), '.'))
  }

  /** Evaluate6; its default test looks at a rendering of the option that is never blank once the option is present. */
  method Evaluate6(ii: IfaceInfo, globalDomain: string, resp: Response6, rules: seq<Rule>) returns (send: bool)
    modifies resp
    ensures send <==> !Dropped(rules, ii)
    ensures var labels := LabelsSet(rules, globalDomain, ii, old(resp.fqdn));
            resp.fqdn == if send && labels.None? then Some(Split(DefaultName(globalDomain, ii), '.')) else labels
  {
    NothingFiresYet(rules, ii);
    hide Matches, TrimSpace, NameFor, Sets, Reached, Dropped, IsLast, LastSetter, Split;
    ghost var kh := -1;
    var idx := 0;
    while idx < |rules|
      invariant 0 <= idx <= |rules|
      invariant AllContinue(rules, ii, idx)
      invariant -1 <= kh < idx && IsLast(rules, ii, NameField, idx, kh)
      invariant resp.fqdn ==
                if kh == -1 then old(resp.fqdn) else Some(Split(RuleName(rules[kh], globalDomain, ii), '.'))
    {
      var rule := rules[idx];
      var matches, cont := MatchIface(rule, ii);
      OneRule(rules, ii, idx, NameField, kh);
      if matches {
        if rule.action.ignore {
          StopsOne(rules, ii, idx, kh);
          return false;
        }
        var hn := TrimSpace(rule.action.hostname);
        SetsHostname(rule);
        if hn != "" {
          var hname := LookupHostname(hn, globalDomain, ii, rule.action);
          resp.fqdn := Some(Split(hname, '.'));
          kh := idx;
        }
        if !cont {
          StopsOne(rules, ii, idx, kh);
          break;
        }
      }
      idx := idx + 1;
    }
    if idx == |rules| {
      FallsThroughOne(rules, ii, kh);
    }
    if resp.fqdn.None? {
      var hname := LookupHostname(DEFAULT_PATTERN, globalDomain, ii, EMPTY_ACTION);
      resp.fqdn := Some(Split(hname, '.'));
    }
    return true;
  }

  lemma SetsHostname(r: Rule)
    ensures Sets(NameField, r) <==> TrimSpace(r.action.hostname) != ""
  {
  }

  lemma StopsOne(rules: seq<Rule>, ii: IfaceInfo, i: nat, kh: int)
    requires Reached(rules, ii, i) && (!rules[i].action.cont || rules[i].action.ignore)
    requires IsLast(rules, ii, NameField, i + 1, kh)
    requires AllContinue(rules, ii, i)
    ensures Dropped(rules, ii) <==> rules[i].action.ignore
    ensures kh == LastSetter(rules, ii, NameField, |rules|)
  {
    LastSetterIsLast(rules, ii, RoutersField, i + 1);
    LastSetterIsLast(rules, ii, MaskField, i + 1);
    hide Matches, Sets, IsLast, Reached, Dropped;
    StopsAll(rules, ii, i, kh, LastSetter(rules, ii, RoutersField, i + 1), LastSetter(rules, ii, MaskField, i + 1));
  }

  lemma FallsThroughOne(rules: seq<Rule>, ii: IfaceInfo, kh: int)
    requires IsLast(rules, ii, NameField, |rules|, kh)
    requires AllContinue(rules, ii, |rules|)
    ensures !Dropped(rules, ii)
    ensures kh == LastSetter(rules, ii, NameField, |rules|)
  {
    LastSetterIsLast(rules, ii, RoutersField, |rules|);
    LastSetterIsLast(rules, ii, MaskField, |rules|);
    hide Matches, Sets, IsLast, Dropped;
    FallsThrough(rules, ii, kh, LastSetter(rules, ii, RoutersField, |rules|),
                 LastSetter(rules, ii, MaskField, |rules|));
  }

  // --- the two evaluators agree ---

  /** The name a DHCPv4 response ends up with when it starts without one and is sent. */
  ghost function FinalName4(rules: seq<Rule>, domain: string, ii: IfaceInfo): string {
    var name := NameSet(rules, domain, ii, None);
    if Unnamed(name) then DefaultName(domain, ii) else name.value
  }

  /** The labels a DHCPv6 response ends up with when it starts without a name and is sent. */
  ghost function FinalLabels6(rules: seq<Rule>, domain: string, ii: IfaceInfo): seq<string> {
    var labels := LabelsSet(rules, domain, ii, None);
    if labels.None? then Split(DefaultName(domain, ii), '.') else labels.value
  }

  lemma DefaultNameNotBlank(domain: string, ii: IfaceInfo)
    ensures !Blank(DefaultName(domain, ii))
  {
    var e := NameFor(DEFAULT_PATTERN, domain, ii, EMPTY_ACTION);
    hide DomainSuffix, IsSpace;
    DefaultStartsWithU(ii);
    assert e[0] == 'u';
    LetterNotSpace();
  }

  lemma LetterNotSpace()
    ensures !IsSpace('u')
  {
  }

  lemma DefaultStartsWithU(ii: IfaceInfo)
    ensures var x := Hostname.ExpandHostnamePattern(DEFAULT_PATTERN, ii.compNID, ii.compID);
            x != "" && x[0] == 'u'
  {
    var r := Hostname.ReplaceId(DEFAULT_PATTERN, ii.compID);
    assert DEFAULT_PATTERN[0] == 'u';
    assert r[0] == 'u';
  }

  /** The rule appends nothing and its pattern, once {id} is replaced, is blank. */
  predicate NamesBlankly(r: Rule, domain: string, ii: IfaceInfo) {
    && DomainSuffix(domain, r.action) == ""
    && Blank(Hostname.ReplaceId(TrimSpace(r.action.hostname), ii.compID))
  }

  /** The rules leave a blank name. */
  ghost predicate SetsBlank(rules: seq<Rule>, domain: string, ii: IfaceInfo) {
    var name := NameSet(rules, domain, ii, None);
    name.Some? && Blank(name.value)
  }

  lemma SetsBlankIff(rules: seq<Rule>, domain: string, ii: IfaceInfo)
    ensures var k := LastSetter(rules, ii, NameField, |rules|);
            SetsBlank(rules, domain, ii) <==> k != -1 && NamesBlankly(rules[k], domain, ii)
  {
    hide NameFor, DomainSuffix, Hostname.ReplaceId, TrimSpace, LastSetter, Blank;
    var k := LastSetter(rules, ii, NameField, |rules|);
    if k != -1 {
      NameBlankIff(TrimSpace(rules[k].action.hostname), domain, ii, rules[k].action);
    }
  }

  lemma AgreeUnlessBlank(rules: seq<Rule>, domain: string, ii: IfaceInfo)
    ensures Join(FinalLabels6(rules, domain, ii), ".") == FinalName4(rules, domain, ii)
            <==> !SetsBlank(rules, domain, ii)
  {
    hide Split, Join, NameFor, IsSpace;
    var name := NameSet(rules, domain, ii, None);
    JoinOfSplit(DefaultName(domain, ii), '.');
    DefaultNameNotBlank(domain, ii);
    if name.Some? {
      JoinOfSplit(name.value, '.');
    }
  }

  /**
   * Starting without a name, the DHCPv6 labels joined by dots are the DHCPv4 name, unless the last firing rule that
   * names appends no domain and its pattern, once {id} is replaced, is blank; then they never are.
   */
  lemma EvaluatorsAgree(rules: seq<Rule>, domain: string, ii: IfaceInfo)
    ensures var k := LastSetter(rules, ii, NameField, |rules|);
            Join(FinalLabels6(rules, domain, ii), ".") == FinalName4(rules, domain, ii)
            <==> k == -1 || !NamesBlankly(rules[k], domain, ii)
  {
    SetsBlankIff(rules, domain, ii);
    AgreeUnlessBlank(rules, domain, ii);
    hide FinalLabels6, FinalName4, Join, LastSetter, NamesBlankly, SetsBlank;
  }

  /** The rule whose name is kept has a hostname pattern. */
  lemma NamingRuleHasPattern(rules: seq<Rule>, ii: IfaceInfo)
    ensures var k := LastSetter(rules, ii, NameField, |rules|); k != -1 ==> TrimSpace(rules[k].action.hostname) != ""
  {
    LastSetterIsLast(rules, ii, NameField, |rules|);
    hide TrimSpace, LastSetter, Reached;
  }

  /** With a non-blank component id they always agree. */
  lemma EvaluatorsAgreeOnNamedComponents(rules: seq<Rule>, domain: string, ii: IfaceInfo)
    requires !Blank(ii.compID)
    ensures Join(FinalLabels6(rules, domain, ii), ".") == FinalName4(rules, domain, ii)
  {
    var k := LastSetter(rules, ii, NameField, |rules|);
    NamingRuleHasPattern(rules, ii);
    EvaluatorsAgree(rules, domain, ii);
    hide Split, Join, Blank, TrimSpace, FinalName4, FinalLabels6, LastSetter, DomainSuffix, Hostname.ReplaceId;
    if k != -1 {
      TrimmedNotBlank(rules[k].action.hostname);
      Hostname.ReplaceIdNotBlank(TrimSpace(rules[k].action.hostname), ii.compID);
    }
  }

  /** A rule without criteria, ignore or domain that names components by their id alone. */
  predicate NamesById(r: Rule) {
    && r.criteria == Match({}, [], "", None) && r.action.hostname == "{id}" && !r.action.ignore
    && r.action.domain == "" && r.action.domainAppend == ""
  }

  /** With a blank id they need not: DHCPv4 falls back to the default name where DHCPv6 keeps the empty one. */
  lemma EvaluatorsDisagreeOnBlankId(r: Rule, ii: IfaceInfo)
    requires NamesById(r) && ii.compID == ""
    ensures FinalName4([r], "", ii) == DefaultName("", ii)
    ensures Join(FinalLabels6([r], "", ii), ".") == "" != FinalName4([r], "", ii)
  {
    NamesAll(r, ii);
    NamesNothing(r, ii);
    hide NamesById, LastSetter, RuleName, FinalName4, FinalLabels6, DefaultName, Join;
    EmptyNameOnly(r, ii);
  }

  /** For such a rule and an empty id, a global domain decides: the evaluators agree if and only if there is one. */
  lemma BlankIdNeedsGlobalDomain(r: Rule, domain: string, ii: IfaceInfo)
    requires NamesById(r) && ii.compID == ""
    ensures Join(FinalLabels6([r], domain, ii), ".") == FinalName4([r], domain, ii) <==> GlobalDomain(domain) != ""
  {
    NamesAll(r, ii);
    BlankPattern(r);
    OnlyGlobalSuffix(r, domain);
    EvaluatorsAgree([r], domain, ii);
    hide NamesById, LastSetter, FinalName4, FinalLabels6, Join, DomainSuffix, GlobalDomain, Hostname.ReplaceId,
      TrimSpace;
  }

  lemma BlankPattern(r: Rule)
    requires NamesById(r)
    ensures Blank(Hostname.ReplaceId(TrimSpace(r.action.hostname), ""))
  {
    BracesAreNotSpace();
    hide TrimSpace;
    assert "{id}"[4..] == "";
    assert Hostname.ReplaceId("{id}", "") == "" + Hostname.ReplaceId("", "");
  }

  lemma OnlyGlobalSuffix(r: Rule, domain: string)
    requires NamesById(r)
    ensures DomainSuffix(domain, r.action) == "" <==> GlobalDomain(domain) == ""
  {
    TrimNoOp("");
    hide TrimSpace, GlobalDomain;
  }

  lemma NamesAll(r: Rule, ii: IfaceInfo)
    requires NamesById(r)
    ensures LastSetter([r], ii, NameField, 1) == 0
  {
    BracesAreNotSpace();
    hide TrimSpace, Matches, LastSetter;
    NoCriteriaMatch(r, ii);
    NamingRuleFires(r, ii);
  }

  lemma NamesNothing(r: Rule, ii: IfaceInfo)
    requires NamesById(r) && ii.compID == ""
    ensures RuleName(r, "", ii) == ""
  {
    BracesAreNotSpace();
    IdAloneIsEmpty(ii.compNID);
    NoSuffix(r);
    hide TrimSpace, DomainSuffix, RuleName, Hostname.ExpandHostnamePattern;
    NameIsEmpty(r, r.action.hostname, ii);
  }

  lemma NameIsEmpty(r: Rule, pattern: string, ii: IfaceInfo)
    requires TrimSpace(r.action.hostname) == pattern && DomainSuffix("", r.action) == ""
    requires Hostname.ExpandHostnamePattern(pattern, ii.compNID, ii.compID) == ""
    ensures RuleName(r, "", ii) == ""
  {
    hide TrimSpace, DomainSuffix, Hostname.ExpandHostnamePattern;
  }

  lemma EmptyNameOnly(r: Rule, ii: IfaceInfo)
    requires LastSetter([r], ii, NameField, 1) == 0 && RuleName(r, "", ii) == ""
    ensures FinalName4([r], "", ii) == DefaultName("", ii) != ""
    ensures Join(FinalLabels6([r], "", ii), ".") == ""
  {
    DefaultNameNotBlank("", ii);
    hide TrimSpace, LastSetter, DefaultName, RuleName;
    assert Split("", '.') == [""];
  }

  lemma NamingRuleFires(r: Rule, ii: IfaceInfo)
    requires Matches(r.criteria, ii) && !r.action.ignore && TrimSpace(r.action.hostname) != ""
    ensures LastSetter([r], ii, NameField, 1) == 0
  {
    hide TrimSpace, Matches, EffectiveMask;
    assert Fires([r], ii, NameField, 0);
  }

  lemma NoCriteriaMatch(r: Rule, ii: IfaceInfo)
    requires r.criteria == Match({}, [], "", None)
    ensures Matches(r.criteria, ii)
  {
    TrimNoOp("");
    hide TrimSpace, Contains;
  }

  lemma BracesAreNotSpace()
    ensures TrimSpace("{id}") == "{id}"
  {
    assert !IsSpace('{') && !IsSpace('}');
    TrimNoOp("{id}");
  }

  lemma IdAloneIsEmpty(nid: int)
    ensures Hostname.ExpandHostnamePattern("{id}", nid, "") == ""
  {
    assert "{id}"[4..] == "";
    assert Hostname.ReplaceId("{id}", "") == "" + Hostname.ReplaceId("", "");
  }

  lemma NoSuffix(r: Rule)
    requires r.action.domain == "" && r.action.domainAppend == ""
    ensures DomainSuffix("", r.action) == ""
  {
    TrimNoOp("");
    hide TrimSpace;
  }

  lemma TrimmedNotBlank(s: string)
    requires TrimSpace(s) != ""
    ensures !Blank(TrimSpace(s))
  {
    var _, _ := TrimSpaceSplits(s);
  }

  // --- parsed rules are effective ---

  /** What ParseRule guarantees of a rule it accepts. */
  predicate WellParsed(r: Rule) {
    && (TrimSpace(r.action.hostname) != "" || r.action.routers != [] || r.action.ignore || Usable(r.action.netmask))
    && (r.criteria.subnets != [] ==> Usable(r.action.netmask) || !Usable(MaskOf(r.criteria.subnets[0])))
  }

  /** Evaluate4's own implicit mask changes nothing for a parsed rule. */
  lemma ImplicitMaskIsIdle(r: Rule)
    requires WellParsed(r)
    ensures Usable(EffectiveMask(r)) <==> Usable(r.action.netmask)
    ensures Usable(EffectiveMask(r)) ==> EffectiveMask(r) == r.action.netmask
  {
    hide Usable, MaskOf, TrimSpace;
  }

  /** When a parsed rule is reached the request is dropped, or the response has an option some rule from it on set. */
  lemma ParsedRuleIsEffective(rules: seq<Rule>, ii: IfaceInfo, j: nat)
    requires Reached(rules, ii, j) && WellParsed(rules[j])
    ensures Dropped(rules, ii) || exists f :: LastSetter(rules, ii, f, |rules|) >= j
  {
    ImplicitMaskIsIdle(rules[j]);
    hide Usable, EffectiveMask, TrimSpace, Matches, MaskOf;
    var r := rules[j];
    if !r.action.ignore {
      var f := if TrimSpace(r.action.hostname) != "" then NameField
               else if r.action.routers != [] then RoutersField
               else MaskField;
      assert Fires(rules, ii, f, j);
      LastSetterIsLast(rules, ii, f, |rules|);
      assert LastSetter(rules, ii, f, |rules|) >= j;
    }
  }
}
