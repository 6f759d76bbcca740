// internal/iface/iface.go and the lookup-then-rules steps of plugin/coredhcp/coresmd/main.go.
module Iface {
  import opened Wrappers
  import opened Net
  import opened IPText
  import opened Rules
  import opened Evaluate
  import opened Subnets

  datatype EthernetInterface = EthernetInterface(componentID: string, ipAddresses: seq<string>)

  datatype Component = Component(id: string, nid: int, typ: string)

  /** The cache of SMD data: interfaces by hardware address, components by id. */
  datatype Cache = Cache(interfaces: map<string, EthernetInterface>, components: map<string, Component>)

  datatype LookupError = NilCache | NoInterface | NoComponent | NoAddresses | NoAddressInSubnet

  /** The lookup steps the two functions share: what is known before any address is parsed. */
  function Lookup(mac: string, cache: Option<Cache>): Result<(IfaceInfo, seq<string>), LookupError> {
    if cache.None? then Err(NilCache)
    else if mac !in cache.value.interfaces then Err(NoInterface)
    else
      var ei := cache.value.interfaces[mac];
      if ei.componentID !in cache.value.components then Err(NoComponent)
      else
        var comp := cache.value.components[ei.componentID];
        if ei.ipAddresses == [] then Err(NoAddresses)
        else
          var nid := if comp.typ == "Node" then comp.nid else 0;
          Ok((IfaceInfo(ei.componentID, nid, comp.typ, mac, []), ei.ipAddresses))
  }

  /** Every address text parsed, unparseable ones kept as nil. */
  function ParsedAll(texts: seq<string>): seq<IP> {
    seq(|texts|, i requires 0 <= i < |texts| => ParseIP(texts[i]))
  }

  /** The addresses that parse, in order. */
  function Valid(texts: seq<string>): seq<IP> {
    if texts == [] then []
    else
      var ip := ParseIP(texts[|texts| - 1]);
      Valid(texts[..|texts| - 1]) + (if ip == NoIP then [] else [ip])
  }

  /** The addresses inside a network, in order. */
  function Inside(ips: seq<IP>, n: Cidr): seq<IP> {
    if ips == [] then []
    else
      var ip := ips[|ips| - 1];
      Inside(ips[..|ips| - 1], n) + (if Contains(n, ip) then [ip] else [])
  }

  /** idx are the positions of out in ips, in increasing order, and no address of the network is left out. */
  ghost predicate SelectedAt(ips: seq<IP>, n: Cidr, out: seq<IP>, idx: seq<nat>) {
    && |idx| == |out|
    && (forall i :: 0 <= i < |idx| ==> idx[i] < |ips| && out[i] == ips[idx[i]] && Contains(n, out[i]))
    && (forall i, j :: 0 <= i < j < |idx| ==> idx[i] < idx[j])
    && (forall k: nat :: k < |ips| && Contains(n, ips[k]) ==> k in idx)
  }

  lemma CoversOneMore(ips: seq<IP>, x: IP, n: Cidr, idx: seq<nat>, k: nat)
    requires forall j: nat :: j < |ips| && Contains(n, ips[j]) ==> j in idx
    requires k < |ips| + 1 && Contains(n, (ips + [x])[k])
    ensures k in (if Contains(n, x) then idx + [|ips|] else idx)
  {
    hide Contains;
    if k < |ips| {
      assert ips[k] == (ips + [x])[k];
    } else {
      assert (idx + [|ips|])[|idx|] == k;
    }
  }

  lemma SelectOneMore(ips: seq<IP>, x: IP, n: Cidr, out: seq<IP>, idx: seq<nat>)
    requires SelectedAt(ips, n, out, idx)
    ensures Contains(n, x) ==> SelectedAt(ips + [x], n, out + [x], idx + [|ips|])
    ensures !Contains(n, x) ==> SelectedAt(ips + [x], n, out, idx)
  {
    hide Contains;
    forall k: nat | k < |ips + [x]| && Contains(n, (ips + [x])[k])
      ensures k in (if Contains(n, x) then idx + [|ips|] else idx)
    {
      CoversOneMore(ips, x, n, idx, k);
    }
  }

  /** The filter keeps exactly the addresses of the network, in their order. */
  lemma {:induction false} InsideIsSubsequence(ips: seq<IP>, n: Cidr) returns (idx: seq<nat>)
    ensures SelectedAt(ips, n, Inside(ips, n), idx)
    decreases |ips|
  {
    hide Contains;
    if ips == [] {
      return [];
    }
    var last := |ips| - 1;
    var before := InsideIsSubsequence(ips[..last], n);
    SelectOneMore(ips[..last], ips[last], n, Inside(ips[..last], n), before);
    hide SelectedAt;
    assert ips == ips[..last] + [ips[last]];
    assert Inside(ips[..last], n) + [] == Inside(ips[..last], n);
    idx := if Contains(n, ips[last]) then before + [last] else before;
  }

  /** LookupMAC */
  method LookupMAC(mac: string, cache: Option<Cache>) returns (r: Result<IfaceInfo, LookupError>)
    ensures match Lookup(mac, cache)
            case Err(e) => r == Err(e)
            case Ok((ii, texts)) => r == Ok(ii.(ipList := ParsedAll(texts)))
  {
    hide ParseIP;
    var found := Lookup(mac, cache);
    if found.Err? {
      return Err(found.error);
    }
    var (ii, texts) := found.value;
    var ipList: seq<IP> := [];
    for i := 0 to |texts|
      invariant ipList == ParsedAll(texts[..i])
    {
      ipList := ipList + [ParseIP(texts[i])];
    }
    assert texts[..|texts|] == texts;
    return Ok(ii.(ipList := ipList));
  }

  /** The relay's address restricts the lookup: a context with subnets, and a specified giaddr. */
  predicate Restricts(subnets: Registry, giaddr: IP) {
    subnets != map[] && giaddr != NoIP && !Unspecified(giaddr)
  }

  /** What LookupMACWithSubnet answers once the search for giaddr's subnet came back with found. */
  ghost predicate Answers(subnets: Registry, giaddr: IP, ii: IfaceInfo, texts: seq<string>, found: Option<string>,
                          r: Result<IfaceInfo, LookupError>)
  {
    if !Restricts(subnets, giaddr) then r == Ok(ii.(ipList := Valid(texts)))
    else
      && Finds(subnets, giaddr, found)
      && match found
         case None => r == Ok(ii.(ipList := Valid(texts)))
         case Some(c) =>
           var ips := Inside(Valid(texts), subnets[c].cidr);
           r == if ips == [] then Err(NoAddressInSubnet) else Ok(ii.(ipList := ips))
  }

  /** LookupMACWithSubnet; found is the subnet the search came back with. */
  method LookupMACWithSubnet(mac: string, giaddr: IP, cache: Option<Cache>, sc: SubnetContext?)
      returns (r: Result<IfaceInfo, LookupError>, ghost found: Option<string>)
    ensures match Lookup(mac, cache)
            case Err(e) => r == Err(e)
            case Ok((ii, texts)) => Answers(if sc == null then map[] else sc.Subnets, giaddr, ii, texts, found, r)
  {
    hide ParseIP, Contains;
    found := None;
    var base := Lookup(mac, cache);
    if base.Err? {
      return Err(base.error), found;
    }
    var (ii, texts) := base.value;
    var allIPs: seq<IP> := [];
    for i := 0 to |texts|
      invariant allIPs == Valid(texts[..i])
    {
      assert texts[..i + 1][..i] == texts[..i];
      var ip := ParseIP(texts[i]);
      if ip != NoIP {
        allIPs := allIPs + [ip];
      }
    }
    assert texts[..|texts|] == texts;
    if sc != null && sc.Subnets != map[] && giaddr != NoIP && !Unspecified(giaddr) {
      var subnet := sc.FindSubnetForIP(giaddr);
      found := subnet;
      if subnet.None? {
        return Ok(ii.(ipList := allIPs)), found;
      }
      var n := sc.Subnets[subnet.value].cidr;
      var matchingIPs: seq<IP> := [];
      for i := 0 to |allIPs|
        invariant matchingIPs == Inside(allIPs[..i], n)
      {
        assert allIPs[..i + 1][..i] == allIPs[..i];
        if Contains(n, allIPs[i]) {
          matchingIPs := matchingIPs + [allIPs[i]];
        }
      }
      assert allIPs[..|allIPs|] == allIPs;
      if |matchingIPs| == 0 {
        return Err(NoAddressInSubnet), found;
      }
      return Ok(ii.(ipList := matchingIPs)), found;
    }
    return Ok(ii.(ipList := allIPs)), found;
  }

  // --- the subnet context built from the rules ---

  function NetsOf(r: Rule): set<Cidr> {
    set n | n in r.criteria.subnets
  }

  /** The networks the rules name. */
  function Named(rules: seq<Rule>): set<Cidr> {
    if rules == [] then {} else Named(rules[..|rules| - 1]) + NetsOf(rules[|rules| - 1])
  }

  predicate Names(r: Rule, n: Cidr) {
    n in r.criteria.subnets
  }

  ghost predicate NamedSomewhere(rules: seq<Rule>, n: Cidr) {
    exists i :: 0 <= i < |rules| && Names(rules[i], n)
  }

  lemma {:induction false} NamedMeans(rules: seq<Rule>, n: Cidr)
    ensures n in Named(rules) <==> NamedSomewhere(rules, n)
    decreases |rules|
  {
    if rules != [] {
      var last := |rules| - 1;
      NamedMeans(rules[..last], n);
      if n in Named(rules[..last]) {
        var i :| 0 <= i < last && Names(rules[..last][i], n);
        assert Names(rules[i], n);
      }
      if i :| 0 <= i < |rules| && Names(rules[i], n) {
        assert i < last ==> Names(rules[..last][i], n);
      }
    }
  }

  type Parser = string -> Option<Cidr>

  /** Printed in the way of show, the network is one of these. */
  ghost predicate Printed(nets: set<Cidr>, show: Cidr -> string, c: string) {
    exists n :: n in nets && show(n) == c
  }

  /** The registry holds what the printed forms of these networks read back as, and nothing else. */
  ghost predicate Registers(subnets: Registry, nets: set<Cidr>, show: Cidr -> string, parseCIDR: Parser) {
    && (forall n :: n in nets && parseCIDR(show(n)).Some? ==> show(n) in subnets)
    && (forall c :: c in subnets ==> parseCIDR(c) == Some(subnets[c].cidr) && Printed(nets, show, c))
  }

  /** The networks whose printed form does not read back. */
  ghost predicate Refused(errs: seq<Cidr>, nets: set<Cidr>, show: Cidr -> string, parseCIDR: Parser) {
    forall n :: n in errs <==> n in nets && parseCIDR(show(n)).None?
  }

  /** The last loop of the coresmd parseConfig; null when no rule names a subnet. */
  method BuildSubnetContext(rules: seq<Rule>, show: Cidr -> string, parseCIDR: Parser)
      returns (sc: SubnetContext?, errs: seq<Cidr>)
    ensures sc == null <==> Named(rules) == {}
    ensures sc != null ==> fresh(sc) && Registers(sc.Subnets, Named(rules), show, parseCIDR)
    ensures Refused(errs, Named(rules), show, parseCIDR)
  {
    NothingRegistered(show, parseCIDR);
    hide Contains, Registers, Refused, Named;
    sc, errs := null, [];
    ghost var nets: set<Cidr> := {};
    for i := 0 to |rules|
      invariant nets == Named(rules[..i])
      invariant sc == null <==> nets == {}
      invariant sc != null ==> fresh(sc) && Registers(sc.Subnets, nets, show, parseCIDR)
      invariant Refused(errs, nets, show, parseCIDR)
    {
      var subnets := rules[i].criteria.subnets;
      for j := 0 to |subnets|
        invariant nets == Named(rules[..i]) + set n | n in subnets[..j]
        invariant sc == null <==> nets == {}
        invariant sc != null ==> fresh(sc) && Registers(sc.Subnets, nets, show, parseCIDR)
        invariant Refused(errs, nets, show, parseCIDR)
      {
        var sn := subnets[j];
        if sc == null {
          sc := new SubnetContext();
        }
        var cidr := show(sn);
        RegisterOne(sc.Subnets, nets, sn, show, parseCIDR);
        RefuseOne(errs, nets, sn, show, parseCIDR);
        var ok := sc.AddSubnetCIDROnly(cidr, parseCIDR(cidr));
        if !ok {
          errs := errs + [sn];
        }
        assert subnets[..j + 1] == subnets[..j] + [sn];
        nets := nets + {sn};
      }
      NamedOneMore(rules, i);
      assert subnets[..|subnets|] == subnets;
    }
    assert rules[..|rules|] == rules;
  }

  lemma NothingRegistered(show: Cidr -> string, parseCIDR: Parser)
    ensures Registers(map[], {}, show, parseCIDR) && Refused([], {}, show, parseCIDR)
    ensures forall rules: seq<Rule> :: Named(rules[..0]) == {}
  {
  }

  lemma NamedOneMore(rules: seq<Rule>, i: nat)
    requires i < |rules|
    ensures Named(rules[..i + 1]) == Named(rules[..i]) + set n | n in rules[i].criteria.subnets
  {
    assert rules[..i + 1][..i] == rules[..i];
  }

  /** Registering one network more. */
  lemma RegisterOne(subnets: Registry, nets: set<Cidr>, sn: Cidr, show: Cidr -> string, parseCIDR: Parser)
    requires Registers(subnets, nets, show, parseCIDR)
    ensures var cidr := show(sn);
            var net := parseCIDR(cidr);
            Registers(if net.Some? && cidr !in subnets then subnets[cidr := SubnetConfig(net.value, NoIP)] else subnets,
                      nets + {sn}, show, parseCIDR)
  {
    var cidr := show(sn);
    assert Printed(nets + {sn}, show, cidr);
    forall c | Printed(nets, show, c) ensures Printed(nets + {sn}, show, c) {
      var n :| n in nets && show(n) == c;
      assert n in nets + {sn};
    }
    hide Printed;
  }

  lemma RefuseOne(errs: seq<Cidr>, nets: set<Cidr>, sn: Cidr, show: Cidr -> string, parseCIDR: Parser)
    requires Refused(errs, nets, show, parseCIDR)
    ensures Refused(if parseCIDR(show(sn)).Some? then errs else errs + [sn], nets + {sn}, show, parseCIDR)
  {
  }

  // --- Handler4 of coresmd, up to the rules ---

  datatype Outcome =
    | NotFound(error: LookupError)
    | IndexPanic
    | Ignored
    | Answered

  /** net.IP.To4 */
  function To4(ip: IP): IP {
    if ip.V4? then ip else NoIP
  }

  /** The interface handed to the rules: the plain lookup without a subnet context, the restricted one with it. */
  ghost predicate LooksUp(mac: string, giaddr: IP, cache: Option<Cache>, sc: SubnetContext?, found: Option<string>,
                          r: Result<IfaceInfo, LookupError>)
    reads sc
  {
    match Lookup(mac, cache)
    case Err(e) => r == Err(e)
    case Ok((ii, texts)) =>
      if sc != null && sc.Subnets != map[] then Answers(sc.Subnets, giaddr, ii, texts, found, r)
      else r == Ok(ii.(ipList := ParsedAll(texts)))
  }

  /** Handler4: look the interface up, assign its first address, apply the rules. */
  method Handler4(mac: string, giaddr: IP, cache: Option<Cache>, sc: SubnetContext?, domain: string, rules: seq<Rule>,
                  resp: Response4)
      returns (out: Outcome, ghost found: Option<string>, ghost r: Result<IfaceInfo, LookupError>)
    modifies resp
    ensures LooksUp(mac, giaddr, cache, sc, found, r)
    ensures r.Err? ==> out == NotFound(r.error)
    ensures r.Ok? && r.value.ipList == [] ==> out == IndexPanic
    ensures r.Ok? && r.value.ipList != [] ==>
              && resp.yourIP == (if r.value.ipList[0].V4? then r.value.ipList[0] else NoIP)
              && out == if Dropped(rules, r.value) then Ignored else Answered
    ensures out == Answered ==>
              var name := NameSet(rules, domain, r.value, old(resp.hostname));
              resp.hostname == if Unnamed(name) then Some(DefaultName(domain, r.value)) else name
    ensures out == Answered ==> resp.routers == RoutersSet(rules, r.value, old(resp.routers))
    ensures out == Answered ==> resp.netmask == MaskSet(rules, r.value, old(resp.netmask))
  {
    hide NameSet, RoutersSet, MaskSet, Dropped, Answers, Lookup, ParsedAll, DefaultName, Unnamed;
    found := None;
    var info: Result<IfaceInfo, LookupError>;
    if sc != null && sc.Subnets != map[] {
      info, found := LookupMACWithSubnet(mac, giaddr, cache, sc);
    } else {
      info := LookupMAC(mac, cache);
    }
    r := info;
    if info.Err? {
      return NotFound(info.error), found, r;
    }
    var ii := info.value;
    if |ii.ipList| == 0 {
      return IndexPanic, found, r;
    }
    resp.yourIP := To4(ii.ipList[0]);
    var send := Evaluate4(ii, domain, resp, rules);
    if !send {
      return Ignored, found, r;
    }
    return Answered, found, r;
  }

  /** The net library prints the network so that it reads back as one with the same addresses. */
  ghost predicate ReadsBack(n: Cidr, show: Cidr -> string, parseCIDR: Parser) {
    parseCIDR(show(n)).Some? && forall ip :: Contains(parseCIDR(show(n)).value, ip) <==> Contains(n, ip)
  }

  /**
   * Relay-aware assignment: for an IPv4 giaddr inside a network some rule names, a successful lookup lists, in order,
   * exactly the parseable addresses of the interface inside a registered network that contains giaddr, and at least
   * one; the assigned address is the first of them, lies in that network, and is the one the rules' subnets are
   * matched against.
   */
  lemma RelayAwareAssignment(mac: string, a: u32, cache: Option<Cache>, sc: SubnetContext, rules: seq<Rule>,
                             show: Cidr -> string, parseCIDR: Parser, n: Cidr, found: Option<string>,
                             r: Result<IfaceInfo, LookupError>)
    requires Registers(sc.Subnets, Named(rules), show, parseCIDR)
    requires a != 0 && NamedSomewhere(rules, n) && ReadsBack(n, show, parseCIDR) && Contains(n, V4(a))
    requires LooksUp(mac, V4(a), cache, sc, found, r) && r.Ok?
    ensures found.Some? && found.value in sc.Subnets && Contains(sc.Subnets[found.value].cidr, V4(a))
    ensures Printed(Named(rules), show, found.value)
    ensures var texts := cache.value.interfaces[mac].ipAddresses;
            var net := sc.Subnets[found.value].cidr;
            && r.value.ipList == Inside(Valid(texts), net)
            && r.value.ipList != []
            && To4(r.value.ipList[0]) == r.value.ipList[0]
            && Contains(net, To4(r.value.ipList[0]))
    ensures forall m: Match :: Matches(m, r.value) && m.subnets != [] ==>
              exists i :: 0 <= i < |m.subnets| && Contains(m.subnets[i], To4(r.value.ipList[0]))
  {
    hide ParseIP, Valid, V4Net, SameBlock, Printed, Named;
    NamedMeans(rules, n);
    assert show(n) in sc.Subnets && Contains(sc.Subnets[show(n)].cidr, V4(a));
    hide Contains;
    var (ii, texts) := Lookup(mac, cache).value;
    var net := sc.Subnets[found.value].cidr;
    var ips := Inside(Valid(texts), net);
    var idx := InsideIsSubsequence(Valid(texts), net);
    assert Contains(net, ips[0]);
    NetworkOfV4(net, a, ips[0]);
  }

  lemma NetworkOfV4(n: Cidr, a: u32, ip: IP)
    requires Contains(n, V4(a)) && Contains(n, ip)
    ensures ip.V4?
  {
  }

  // --- the list Handler4 indexes ---

  lemma {:induction false} NoneValid(texts: seq<string>)
    ensures Valid(texts) == [] <==> forall i :: 0 <= i < |texts| ==> ParseIP(texts[i]) == NoIP
    decreases |texts|
  {
    hide ParseIP;
    if texts != [] {
      NoneValid(texts[..|texts| - 1]);
    }
  }

  /** A relay address that picks none of the registered networks: nil, unspecified, or outside all of them. */
  ghost predicate PicksNone(subnets: Registry, giaddr: IP) {
    giaddr == NoIP || Unspecified(giaddr) || forall c :: c in subnets ==> !Contains(subnets[c].cidr, giaddr)
  }

  /**
   * Handler4 indexes an empty list exactly when the interface, its component and some address text are known, some
   * network is registered, giaddr picks none of them, and none of the address texts parses.
   */
  lemma IndexPanicIff(mac: string, giaddr: IP, cache: Option<Cache>, sc: SubnetContext?, found: Option<string>,
                      r: Result<IfaceInfo, LookupError>)
    requires LooksUp(mac, giaddr, cache, sc, found, r)
    ensures r.Ok? && r.value.ipList == [] <==>
            && Lookup(mac, cache).Ok? && sc != null && sc.Subnets != map[] && PicksNone(sc.Subnets, giaddr)
            && var texts := Lookup(mac, cache).value.1; forall i :: 0 <= i < |texts| ==> ParseIP(texts[i]) == NoIP
  {
    hide ParseIP, Contains;
    if Lookup(mac, cache).Ok? {
      NoneValid(Lookup(mac, cache).value.1);
    }
  }

  lemma BlankIsNoAddress()
    ensures ParseIP("") == NoIP
  {
  }

  /**
   * Such a request exists: one rule that names a network, one interface whose only address text is empty, and no relay.
   */
  method PanicsWithoutAddress(mac: string, id: string, rule: Rule, n: Cidr, show: Cidr -> string, parseCIDR: Parser,
                              resp: Response4) returns (out: Outcome)
    requires rule.criteria.subnets == [n] && parseCIDR(show(n)).Some?
    modifies resp
    ensures out == IndexPanic
  {
    var cache := Some(Cache(map[mac := EthernetInterface(id, [""])], map[id := Component(id, 1, "Node")]));
    BlankIsNoAddress();
    assert [rule][..0] == [] && n in Named([rule]);
    hide ParseIP, Contains, Named, Printed;
    var sc, errs := BuildSubnetContext([rule], show, parseCIDR);
    assert show(n) in sc.Subnets;
    ghost var found, r;
    out, found, r := Handler4(mac, V4(0), cache, sc, "", [rule], resp);
    IndexPanicIff(mac, V4(0), cache, sc, found, r);
  }
}
