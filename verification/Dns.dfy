// plugin/coredns/handler.go: forward and reverse lookups over the cache, whose maps are ranged over in arbitrary order.
module Dns {
  import opened Wrappers
  import opened Text
  import opened Net
  import opened IPText
  import opened Iface
  import opened ReverseName
  import Hostname

  /** A served zone; an empty pattern means no names made from node numbers. */
  datatype Zone = Zone(name: string, nodePattern: string)

  /** lookupA wants IPv4 addresses, lookupAAAA the others; that is their only difference. */
  datatype Family = A | AAAA

  predicate OfFamily(f: Family, ip: IP) {
    match f
    case A => ip.V4?
    case AAAA => ip.V6?
  }

  /** The first address of the family, or NoIP. */
  function FirstOf(f: Family, texts: seq<string>): IP {
    if texts == [] then NoIP
    else if OfFamily(f, ParseIP(texts[0])) then ParseIP(texts[0])
    else FirstOf(f, texts[1..])
  }

  function XnameFQDN(zone: Zone, comp: Component): string {
    comp.id + "." + zone.name
  }

  function NidFQDN(zone: Zone, comp: Component): string {
    if zone.nodePattern == "" then ""
    else Hostname.ExpandHostnamePattern(zone.nodePattern, comp.nid, comp.id) + "." + zone.name
  }

  /** The name is one the zone gives a component of this type; only nodes have names made from their number. */
  predicate IsName(zone: Zone, typ: string, comp: Component, name: string) {
    comp.typ == typ && (name == XnameFQDN(zone, comp) || (typ == "Node" && name == NidFQDN(zone, comp)))
  }

  /** Interface k answers the query in this zone, as a component of this type, with this address. */
  predicate Candidate(cache: Cache, zone: Zone, typ: string, f: Family, name: string, k: string, ip: IP) {
    && k in cache.interfaces
    && cache.interfaces[k].componentID in cache.components
    && IsName(zone, typ, cache.components[cache.interfaces[k].componentID], name)
    && ip != NoIP && ip == FirstOf(f, cache.interfaces[k].ipAddresses)
  }

  /** A pass over the interfaces for one component type may answer ip; NoIP only when there is no candidate. */
  ghost predicate PassAnswers(cache: Cache, zone: Zone, typ: string, f: Family, name: string, ip: IP) {
    if ip == NoIP then forall k, x :: !Candidate(cache, zone, typ, f, name, k, x)
    else exists k :: Candidate(cache, zone, typ, f, name, k, ip)
  }

  /** One zone may answer ip: nodes first, then BMCs. */
  ghost predicate ZoneAnswers(cache: Cache, zone: Zone, f: Family, name: string, ip: IP) {
    if !HasSuffix(name, zone.name) then ip == NoIP
    else
      || (ip != NoIP && PassAnswers(cache, zone, "Node", f, name, ip))
      || (PassAnswers(cache, zone, "Node", f, name, NoIP) && PassAnswers(cache, zone, "NodeBMC", f, name, ip))
  }

  /** The lookup may answer ip: the first zone with an answer decides. */
  ghost predicate LookupAnswers(cache: Cache, zones: seq<Zone>, f: Family, name: string, ip: IP) {
    if ip == NoIP then forall i :: 0 <= i < |zones| ==> ZoneAnswers(cache, zones[i], f, name, NoIP)
    else
      exists i ::
        && 0 <= i < |zones| && ZoneAnswers(cache, zones[i], f, name, ip)
        && forall j :: 0 <= j < i ==> ZoneAnswers(cache, zones[j], f, name, NoIP)
  }

  /** The innermost loop: the addresses of one interface. */
  method FirstAddress(f: Family, texts: seq<string>) returns (ip: IP)
    ensures ip == FirstOf(f, texts)
  {
    hide ParseIP;
    for i := 0 to |texts|
      invariant FirstOf(f, texts) == FirstOf(f, texts[i..])
    {
      var x := ParseIP(texts[i]);
      if OfFamily(f, x) {
        return x;
      }
    }
    return NoIP;
  }

  /** A pass over all interfaces. */
  method Pass(cache: Cache, zone: Zone, typ: string, f: Family, name: string) returns (ip: IP)
    ensures PassAnswers(cache, zone, typ, f, name, ip)
  {
    hide FirstOf, IsName;
    var rest := cache.interfaces.Keys;
    while rest != {}
      invariant rest <= cache.interfaces.Keys
      invariant forall k, x :: k in cache.interfaces && k !in rest ==> !Candidate(cache, zone, typ, f, name, k, x)
      decreases rest
    {
      var k :| k in rest;
      var ei := cache.interfaces[k];
      if ei.componentID in cache.components {
        var comp := cache.components[ei.componentID];
        if IsName(zone, typ, comp, name) {
          var x := FirstAddress(f, ei.ipAddresses);
          if x != NoIP {
            assert Candidate(cache, zone, typ, f, name, k, x);
            return x;
          }
        }
      }
      rest := rest - {k};
    }
    return NoIP;
  }

  /** lookupA and lookupAAAA; NoIP is nil. */
  method Lookup(cache: Option<Cache>, zones: seq<Zone>, f: Family, name: string) returns (ip: IP)
    ensures cache.None? ==> ip == NoIP
    ensures cache.Some? ==> LookupAnswers(cache.value, zones, f, name, ip)
  {
    hide PassAnswers, HasSuffix;
    if cache.None? {
      return NoIP;
    }
    for i := 0 to |zones|
      invariant forall j :: 0 <= j < i ==> ZoneAnswers(cache.value, zones[j], f, name, NoIP)
    {
      var zone := zones[i];
      if HasSuffix(name, zone.name) {
        ip := Pass(cache.value, zone, "Node", f, name);
        if ip != NoIP {
          assert ZoneAnswers(cache.value, zones[i], f, name, ip);
          return ip;
        }
        ip := Pass(cache.value, zone, "NodeBMC", f, name);
        if ip != NoIP {
          assert ZoneAnswers(cache.value, zones[i], f, name, ip);
          return ip;
        }
      }
      assert ZoneAnswers(cache.value, zones[i], f, name, NoIP);
    }
    return NoIP;
  }

  // --- reverse lookups ---

  /** The zone names the component in a PTR answer. */
  predicate Serves(zone: Zone, comp: Component) {
    (comp.typ == "Node" && zone.nodePattern != "") || comp.typ == "NodeBMC"
  }

  /** The first zone that serves the component gives its PTR name; "" when none does. */
  function PtrName(zones: seq<Zone>, comp: Component): string {
    if zones == [] then "" else if Serves(zones[0], comp) then XnameFQDN(zones[0], comp) else PtrName(zones[1..], comp)
  }

  predicate HasAddress(ei: EthernetInterface, ip: IP) {
    exists i :: 0 <= i < |ei.ipAddresses| && ParseIP(ei.ipAddresses[i]) == ip
  }

  /** Interface k gives this PTR name for the address. */
  ghost predicate PtrCandidate(cache: Cache, zones: seq<Zone>, ip: IP, k: string, name: string) {
    && k in cache.interfaces
    && HasAddress(cache.interfaces[k], ip)
    && cache.interfaces[k].componentID in cache.components
    && name != "" && name == PtrName(zones, cache.components[cache.interfaces[k].componentID])
  }

  ghost predicate PtrAnswers(cache: Cache, zones: seq<Zone>, ip: IP, name: string) {
    if name == "" then ip == NoIP || forall k, n :: !PtrCandidate(cache, zones, ip, k, n)
    else ip != NoIP && exists k :: PtrCandidate(cache, zones, ip, k, name)
  }

  /** The zone loop of lookupPTR. */
  method FirstServing(zones: seq<Zone>, comp: Component) returns (name: string)
    ensures name == PtrName(zones, comp)
  {
    for i := 0 to |zones|
      invariant PtrName(zones, comp) == PtrName(zones[i..], comp)
    {
      if comp.typ == "Node" && zones[i].nodePattern != "" {
        return comp.id + "." + zones[i].name;
      }
      if comp.typ == "NodeBMC" {
        return comp.id + "." + zones[i].name;
      }
    }
    return "";
  }

  /** lookupPTR */
  method LookupPTR(cache: Option<Cache>, zones: seq<Zone>, name: string) returns (r: string)
    ensures cache.None? ==> r == ""
    ensures cache.Some? ==> PtrAnswers(cache.value, zones, ReverseOf(name), r)
  {
    hide ParseIP, ReverseOf, PtrName;
    if cache.None? {
      return "";
    }
    var ip := ReverseToIP(name);
    if ip == NoIP {
      return "";
    }
    var rest := cache.value.interfaces.Keys;
    while rest != {}
      invariant rest <= cache.value.interfaces.Keys
      invariant forall k, n :: k in cache.value.interfaces && k !in rest ==> !PtrCandidate(cache.value, zones, ip, k, n)
      decreases rest
    {
      var k :| k in rest;
      var ei := cache.value.interfaces[k];
      for i := 0 to |ei.ipAddresses|
        invariant forall n :: (exists j :: 0 <= j < i && ParseIP(ei.ipAddresses[j]) == ip) ==>
                                !PtrCandidate(cache.value, zones, ip, k, n)
      {
        if ParseIP(ei.ipAddresses[i]) == ip {
          if ei.componentID in cache.value.components {
            var n := FirstServing(zones, cache.value.components[ei.componentID]);
            if n != "" {
              assert PtrCandidate(cache.value, zones, ip, k, n);
              return n;
            }
          }
        }
      }
      rest := rest - {k};
    }
    return "";
  }

  // --- the answers confirm each other ---

  lemma {:induction false} FirstOfFinds(f: Family, texts: seq<string>, i: nat)
    requires i < |texts| && OfFamily(f, ParseIP(texts[i]))
    ensures OfFamily(f, FirstOf(f, texts))
    decreases |texts|
  {
    hide ParseIP;
    if !OfFamily(f, ParseIP(texts[0])) {
      FirstOfFinds(f, texts[1..], i - 1);
    }
  }

  lemma {:induction false} FirstOfIsOne(f: Family, texts: seq<string>)
    requires FirstOf(f, texts) != NoIP
    ensures exists i :: 0 <= i < |texts| && ParseIP(texts[i]) == FirstOf(f, texts)
    decreases |texts|
  {
    hide ParseIP;
    if !OfFamily(f, ParseIP(texts[0])) {
      FirstOfIsOne(f, texts[1..]);
      var i :| 0 <= i < |texts[1..]| && ParseIP(texts[1..][i]) == FirstOf(f, texts);
      assert ParseIP(texts[i + 1]) == FirstOf(f, texts);
    }
  }

  lemma {:induction false} PtrNameZone(zones: seq<Zone>, comp: Component) returns (i: nat)
    requires PtrName(zones, comp) != ""
    ensures i < |zones| && Serves(zones[i], comp) && PtrName(zones, comp) == XnameFQDN(zones[i], comp)
    decreases |zones|
  {
    hide Serves, XnameFQDN;
    if Serves(zones[0], comp) {
      return 0;
    }
    i := PtrNameZone(zones[1..], comp);
    i := i + 1;
  }

  /** The interface behind a PTR answer is a candidate for the forward query of that name. */
  lemma PtrGivesCandidate(cache: Cache, zones: seq<Zone>, f: Family, ip: IP, k: string, name: string)
      returns (i: nat, typ: string, x: IP)
    requires OfFamily(f, ip) && PtrCandidate(cache, zones, ip, k, name)
    ensures i < |zones| && HasSuffix(name, zones[i].name)
    ensures (typ == "Node" || typ == "NodeBMC") && Candidate(cache, zones[i], typ, f, name, k, x)
  {
    hide ParseIP, PtrName, FirstOf;
    var ei := cache.interfaces[k];
    var comp := cache.components[ei.componentID];
    i := PtrNameZone(zones, comp);
    typ := comp.typ;
    var a :| 0 <= a < |ei.ipAddresses| && ParseIP(ei.ipAddresses[a]) == ip;
    FirstOfFinds(f, ei.ipAddresses, a);
    x := FirstOf(f, ei.ipAddresses);
    assert name[|comp.id| + 1..] == zones[i].name;
  }

  /** A name given in a PTR answer always resolves forward, in every map order. */
  lemma PtrNamesResolve(cache: Cache, zones: seq<Zone>, f: Family, ip: IP, name: string, answer: IP)
    requires OfFamily(f, ip) && PtrAnswers(cache, zones, ip, name) && name != ""
    requires LookupAnswers(cache, zones, f, name, answer)
    ensures answer != NoIP
  {
    hide HasAddress, PtrName, IsName, FirstOf, OfFamily, HasSuffix;
    var k :| PtrCandidate(cache, zones, ip, k, name);
    var i, typ, x := PtrGivesCandidate(cache, zones, f, ip, k, name);
  }

  /** Cache entries are stored under their own id. */
  ghost predicate WellKeyed(cache: Cache) {
    forall c :: c in cache.components ==> cache.components[c].id == c
  }

  /** The host labels a component is known by: its id, and for a node what the zones' patterns make of its number. */
  ghost predicate IsLabel(zones: seq<Zone>, comp: Component, l: string) {
    || ((comp.typ == "Node" || comp.typ == "NodeBMC") && l == comp.id)
    || (comp.typ == "Node"
        && exists i :: 0 <= i < |zones| && zones[i].nodePattern != ""
                       && l == Hostname.ExpandHostnamePattern(zones[i].nodePattern, comp.nid, comp.id))
  }

  ghost predicate DotFreeLabels(cache: Cache, zones: seq<Zone>) {
    forall c, l :: c in cache.components && IsLabel(zones, cache.components[c], l) ==> '.' !in l
  }

  ghost predicate NoSharedLabels(cache: Cache, zones: seq<Zone>) {
    forall c, d, l :: (c in cache.components && d in cache.components && c != d
                       && IsLabel(zones, cache.components[c], l)) ==> !IsLabel(zones, cache.components[d], l)
  }

  lemma SameLabel(a: string, x: string, b: string, y: string)
    requires '.' !in a && '.' !in b && a + "." + x == b + "." + y
    ensures a == b
  {
    IndexOfFirst(a, '.', x);
    IndexOfFirst(b, '.', y);
    hide IndexOf;
    assert (a + "." + x)[..|a|] == a && (b + "." + y)[..|b|] == b;
  }

  /** A named candidate is known by a label that precedes the first dot of the name. */
  lemma CandidateLabel(zones: seq<Zone>, i: nat, typ: string, comp: Component, name: string) returns (l: string)
    requires i < |zones| && IsName(zones[i], typ, comp, name) && name != "" && (typ == "Node" || typ == "NodeBMC")
    ensures IsLabel(zones, comp, l) && name == l + "." + zones[i].name
  {
    if name == XnameFQDN(zones[i], comp) {
      l := comp.id;
    } else {
      l := Hostname.ExpandHostnamePattern(zones[i].nodePattern, comp.nid, comp.id);
    }
  }

  lemma AnswerHasCandidate(cache: Cache, zones: seq<Zone>, f: Family, name: string, answer: IP)
      returns (i: nat, typ: string, k: string)
    requires LookupAnswers(cache, zones, f, name, answer) && answer != NoIP
    ensures i < |zones| && Candidate(cache, zones[i], typ, f, name, k, answer) && (typ == "Node" || typ == "NodeBMC")
  {
    hide Candidate, HasSuffix;
    i :| 0 <= i < |zones| && ZoneAnswers(cache, zones[i], f, name, answer);
    if PassAnswers(cache, zones[i], "Node", f, name, answer) {
      typ := "Node";
      k :| Candidate(cache, zones[i], "Node", f, name, k, answer);
    } else {
      typ := "NodeBMC";
      k :| Candidate(cache, zones[i], "NodeBMC", f, name, k, answer);
    }
  }

  /**
   * Forward-confirmed reverse lookups: with components stored under their ids, dot-free labels and no label shared by
   * two components, the address a PTR name resolves to belongs to the component the PTR answer named, which has the
   * address asked about.
   */
  lemma ForwardConfirmsReverse(cache: Cache, zones: seq<Zone>, f: Family, ip: IP, name: string, answer: IP)
    requires WellKeyed(cache) && DotFreeLabels(cache, zones) && NoSharedLabels(cache, zones)
    requires OfFamily(f, ip) && PtrAnswers(cache, zones, ip, name) && name != ""
    requires LookupAnswers(cache, zones, f, name, answer)
    ensures answer != NoIP
    ensures exists k, j :: PtrCandidate(cache, zones, ip, k, name) && j in cache.interfaces
                           && cache.interfaces[k].componentID == cache.interfaces[j].componentID
                           && HasAddress(cache.interfaces[j], answer)
  {
    PtrNamesResolve(cache, zones, f, ip, name, answer);
    var i, typ, j := AnswerHasCandidate(cache, zones, f, name, answer);
    hide LookupAnswers, FirstOf, ParseIP, OfFamily, PtrName, IsName, IsLabel, HasAddress;
    var k :| PtrCandidate(cache, zones, ip, k, name);
    var c, d := cache.interfaces[k].componentID, cache.interfaces[j].componentID;
    var z := PtrNameZone(zones, cache.components[c]);
    assert Serves(zones[z], cache.components[c]);
    var l := CandidateLabel(zones, i, typ, cache.components[d], name);
    IdIsLabel(zones, cache.components[c]);
    SameLabel(l, zones[i].name, cache.components[c].id, zones[z].name);
    CandidateHasAddress(cache, zones[i], typ, f, name, j, answer);
  }

  lemma IdIsLabel(zones: seq<Zone>, comp: Component)
    requires comp.typ == "Node" || comp.typ == "NodeBMC"
    ensures IsLabel(zones, comp, comp.id)
  {
  }

  lemma CandidateHasAddress(cache: Cache, zone: Zone, typ: string, f: Family, name: string, k: string, ip: IP)
    requires Candidate(cache, zone, typ, f, name, k, ip)
    ensures HasAddress(cache.interfaces[k], ip)
  {
    hide ParseIP, IsName;
    FirstOfIsOne(f, cache.interfaces[k].ipAddresses);
  }

  /** The whole loop for an IPv4 address: its in-addr.arpa name, the PTR answer, and the A query of that answer. */
  lemma ReverseThenForward4(cache: Cache, zones: seq<Zone>, v: u32, name: string, answer: IP)
    requires PtrAnswers(cache, zones, ReverseOf(ReverseName4(v)), name) && name != ""
    requires LookupAnswers(cache, zones, A, name, answer)
    ensures answer.V4?
  {
    ReverseNameRoundTrip4(v);
    hide ReverseOf, PtrAnswers, ParseIP, IsName;
    PtrNamesResolve(cache, zones, A, V4(v), name, answer);
    var i, typ, k := AnswerHasCandidate(cache, zones, A, name, answer);
    FirstOfFamily(A, cache.interfaces[k].ipAddresses);
  }

  /** The same for any other IPv6 address, its ip6.arpa name and the AAAA query. */
  lemma ReverseThenForward6(cache: Cache, zones: seq<Zone>, w: u128, name: string, answer: IP)
    requires From128(w) == V6(w)
    requires PtrAnswers(cache, zones, ReverseOf(ReverseName6(w)), name) && name != ""
    requires LookupAnswers(cache, zones, AAAA, name, answer)
    ensures answer.V6?
  {
    ReverseNameRoundTrip6(w);
    hide ReverseOf, PtrAnswers, ParseIP, IsName;
    PtrNamesResolve(cache, zones, AAAA, V6(w), name, answer);
    var i, typ, k := AnswerHasCandidate(cache, zones, AAAA, name, answer);
    FirstOfFamily(AAAA, cache.interfaces[k].ipAddresses);
  }

  // --- the names as they travel ---

  predicate EndsInDot(name: string) {
    name != "" && name[|name| - 1] == '.'
  }

  /** dns.Fqdn, on names without a backslash. */
  function Fqdn(name: string): string {
    if EndsInDot(name) then name else name + "."
  }

  /** What ServeDNS looks up when a client asks for the name of a PTR answer. */
  function QueryOf(name: string): string {
    TrimSuffix(Fqdn(name), ".")
  }

  /** The query is the name unless the name ends in a dot, which is then lost. */
  lemma QueryIs(name: string)
    ensures QueryOf(name) == if EndsInDot(name) then name[..|name| - 1] else name
  {
    var f := Fqdn(name);
    assert f[|f| - 1..] == ".";
  }

  /** A zone name that ends in a dot names nothing a query without a final dot asks for. */
  lemma DottedZoneIsSilent(cache: Cache, zones: seq<Zone>, f: Family, name: string, answer: IP)
    requires forall i :: 0 <= i < |zones| ==> EndsInDot(zones[i].name)
    requires name != "" && !EndsInDot(name) && LookupAnswers(cache, zones, f, name, answer)
    ensures answer == NoIP
  {
    hide PassAnswers;
    forall i | 0 <= i < |zones| ensures !HasSuffix(name, zones[i].name) {
      SuffixEnds(name, zones[i].name);
    }
  }

  lemma SuffixEnds(name: string, t: string)
    ensures EndsInDot(t) && HasSuffix(name, t) ==> EndsInDot(name)
  {
    if EndsInDot(t) && HasSuffix(name, t) {
      assert name[|name| - |t|..][|t| - 1] == name[|name| - 1];
    }
  }

  /** A PTR name ends as its zone does. */
  lemma PtrNameEnds(zones: seq<Zone>, comp: Component)
    requires PtrName(zones, comp) != ""
    ensures exists i :: 0 <= i < |zones| && PtrName(zones, comp) == XnameFQDN(zones[i], comp)
                        && (zones[i].name != "" ==> (EndsInDot(PtrName(zones, comp)) <==> EndsInDot(zones[i].name)))
  {
    var i := PtrNameZone(zones, comp);
    var n := XnameFQDN(zones[i], comp);
    assert zones[i].name != "" ==> n[|n| - 1] == zones[i].name[|zones[i].name| - 1];
  }

  /** The name of a PTR answer, as a client sends it back, resolves when no zone name is empty or ends in a dot. */
  lemma PtrNamesResolveServed(cache: Cache, zones: seq<Zone>, f: Family, ip: IP, name: string, answer: IP)
    requires forall i :: 0 <= i < |zones| ==> zones[i].name != "" && !EndsInDot(zones[i].name)
    requires OfFamily(f, ip) && PtrAnswers(cache, zones, ip, name) && name != ""
    requires LookupAnswers(cache, zones, f, QueryOf(name), answer)
    ensures QueryOf(name) == name && answer != NoIP
  {
    hide HasAddress, PtrName, LookupAnswers, EndsInDot, QueryOf;
    var k :| PtrCandidate(cache, zones, ip, k, name);
    PtrNameEnds(zones, cache.components[cache.interfaces[k].componentID]);
    QueryIs(name);
    PtrNamesResolve(cache, zones, f, ip, name, answer);
  }

  /**
   * With one zone, whose name is not empty and has at most one final dot after something else, the round trip succeeds
   * if and only if the zone name does not end in a dot.
   */
  lemma ServedIffUndotted(cache: Cache, zone: Zone, f: Family, ip: IP, name: string, answer: IP)
    requires zone.name != "" && zone.name != "." && !HasSuffix(zone.name, "..")
    requires OfFamily(f, ip) && PtrAnswers(cache, [zone], ip, name) && name != ""
    requires LookupAnswers(cache, [zone], f, QueryOf(name), answer)
    ensures answer != NoIP <==> !EndsInDot(zone.name)
  {
    if EndsInDot(zone.name) {
      hide HasAddress, LookupAnswers, QueryOf, OfFamily;
      var k :| PtrCandidate(cache, [zone], ip, k, name);
      var comp := cache.components[cache.interfaces[k].componentID];
      var i := PtrNameZone([zone], comp);
      assert name == comp.id + "." + zone.name;
      QueryIs(name);
      OneDotLost(comp.id, zone.name);
      DottedZoneIsSilent(cache, [zone], f, QueryOf(name), answer);
    } else {
      hide PtrAnswers, LookupAnswers, OfFamily, QueryOf;
      PtrNamesResolveServed(cache, [zone], f, ip, name, answer);
    }
  }

  lemma OneDotLost(id: string, zone: string)
    requires EndsInDot(zone) && zone != "." && !HasSuffix(zone, "..")
    ensures var n := id + "." + zone;
            EndsInDot(n) && n[..|n| - 1] != "" && !EndsInDot(n[..|n| - 1])
  {
    var n := id + "." + zone;
    assert n[|n| - 1] == zone[|zone| - 1] && n[|n| - 2] == zone[|zone| - 2];
    assert zone[|zone| - 2..] == [zone[|zone| - 2], '.'];
  }

  lemma {:induction false} FirstOfFamily(f: Family, texts: seq<string>)
    ensures FirstOf(f, texts) != NoIP ==> OfFamily(f, FirstOf(f, texts))
    decreases |texts|
  {
    hide ParseIP;
    if texts != [] {
      FirstOfFamily(f, texts[1..]);
    }
  }
}
