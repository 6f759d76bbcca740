// Which names the coredns plugin answers, with whose addresses: names made from node numbers and names made from ids,
// in the order of the zones.
module Resolving {
  import opened Wrappers
  import opened Text
  import opened Net
  import opened IPText
  import opened Iface
  import opened Dns
  import Hostname

  /** The component an interface belongs to is in the cache. */
  predicate Belongs(cache: Cache, k: string, comp: Component) {
    && k in cache.interfaces && cache.interfaces[k].componentID in cache.components
    && cache.components[cache.interfaces[k].componentID] == comp
  }

  /** The interface has an address of the family. */
  predicate HasFamily(cache: Cache, k: string, f: Family) {
    k in cache.interfaces
    && exists i :: 0 <= i < |cache.interfaces[k].ipAddresses|
                   && OfFamily(f, ParseIP(cache.interfaces[k].ipAddresses[i]))
  }

  /** The first address of the family: before it the interface lists none. */
  lemma {:induction false} FirstOfIsFirst(f: Family, texts: seq<string>) returns (i: nat)
    requires FirstOf(f, texts) != NoIP
    ensures i < |texts| && FirstOf(f, texts) == ParseIP(texts[i]) && OfFamily(f, ParseIP(texts[i]))
    ensures forall j :: 0 <= j < i ==> !OfFamily(f, ParseIP(texts[j]))
    decreases |texts|
  {
    hide ParseIP;
    if OfFamily(f, ParseIP(texts[0])) {
      return 0;
    }
    i := FirstOfIsFirst(f, texts[1..]);
    i := i + 1;
  }

  lemma SomeFamily(cache: Cache, k: string, f: Family) returns (ip: IP)
    requires HasFamily(cache, k, f)
    ensures ip != NoIP && ip == FirstOf(f, cache.interfaces[k].ipAddresses)
  {
    hide ParseIP;
    var texts := cache.interfaces[k].ipAddresses;
    var i :| 0 <= i < |texts| && OfFamily(f, ParseIP(texts[i]));
    FirstOfFinds(f, texts, i);
    ip := FirstOf(f, texts);
  }

  lemma CandidateAnswers(cache: Cache, zones: seq<Zone>, z: nat, typ: string, f: Family, name: string, k: string,
                         ip: IP, answer: IP)
    requires z < |zones| && (typ == "Node" || typ == "NodeBMC") && HasSuffix(name, zones[z].name)
    requires Candidate(cache, zones[z], typ, f, name, k, ip) && LookupAnswers(cache, zones, f, name, answer)
    ensures answer != NoIP
  {
    hide Candidate, HasSuffix;
    assert ip != NoIP by {
      CandidateIsAddress(cache, zones[z], typ, f, name, k, ip);
    }
  }

  lemma CandidateIsAddress(cache: Cache, zone: Zone, typ: string, f: Family, name: string, k: string, ip: IP)
    requires Candidate(cache, zone, typ, f, name, k, ip)
    ensures ip != NoIP
  {
  }

  lemma SuffixOfName(host: string, zone: string)
    ensures HasSuffix(host + "." + zone, zone)
  {
    var n := host + "." + zone;
    assert n[|n| - |zone|..] == zone;
  }

  /**
   * A name made from a node's number resolves: in every zone with a pattern, the expanded pattern of a node that has an
   * address of the family never gets an empty answer, in any map order.
   */
  lemma NodeNumbersResolve(cache: Cache, zones: seq<Zone>, z: nat, f: Family, k: string, comp: Component, answer: IP)
    requires z < |zones| && zones[z].nodePattern != "" && Belongs(cache, k, comp) && comp.typ == "Node"
    requires HasFamily(cache, k, f)
    requires var host := Hostname.ExpandHostnamePattern(zones[z].nodePattern, comp.nid, comp.id);
             LookupAnswers(cache, zones, f, host + "." + zones[z].name, answer)
    ensures answer != NoIP
  {
    var host := Hostname.ExpandHostnamePattern(zones[z].nodePattern, comp.nid, comp.id);
    var name := host + "." + zones[z].name;
    var ip := SomeFamily(cache, k, f);
    hide Hostname.ExpandHostnamePattern, LookupAnswers, FirstOf, HasFamily;
    SuffixOfName(host, zones[z].name);
    assert Candidate(cache, zones[z], "Node", f, name, k, ip);
    CandidateAnswers(cache, zones, z, "Node", f, name, k, ip, answer);
  }

  /** So does the id of a node or a BMC, in every zone. */
  lemma IdsResolve(cache: Cache, zones: seq<Zone>, z: nat, f: Family, k: string, comp: Component, answer: IP)
    requires z < |zones| && Belongs(cache, k, comp) && (comp.typ == "Node" || comp.typ == "NodeBMC")
    requires HasFamily(cache, k, f) && LookupAnswers(cache, zones, f, comp.id + "." + zones[z].name, answer)
    ensures answer != NoIP
  {
    var name := comp.id + "." + zones[z].name;
    var ip := SomeFamily(cache, k, f);
    hide LookupAnswers, FirstOf, HasFamily, NidFQDN;
    SuffixOfName(comp.id, zones[z].name);
    assert Candidate(cache, zones[z], comp.typ, f, name, k, ip);
    CandidateAnswers(cache, zones, z, comp.typ, f, name, k, ip, answer);
  }

  /**
   * Every answer is the first address of the family that some interface lists, of a node or BMC whose id, or of a node
   * whose number in the zone's pattern, makes the name asked for; or the name is empty and the zone has no pattern.
   */
  lemma AnswersAreNamed(cache: Cache, zones: seq<Zone>, f: Family, name: string, answer: IP)
      returns (z: nat, k: string, comp: Component, i: nat)
    requires LookupAnswers(cache, zones, f, name, answer) && answer != NoIP
    ensures z < |zones| && Belongs(cache, k, comp) && (comp.typ == "Node" || comp.typ == "NodeBMC")
    ensures var zone := zones[z];
            || name == comp.id + "." + zone.name
            || (comp.typ == "Node" && zone.nodePattern != ""
                && name == Hostname.ExpandHostnamePattern(zone.nodePattern, comp.nid, comp.id) + "." + zone.name)
            || (comp.typ == "Node" && zone.nodePattern == "" && name == "")
    ensures var texts := cache.interfaces[k].ipAddresses;
            && i < |texts| && answer == ParseIP(texts[i]) && OfFamily(f, answer)
            && forall j :: 0 <= j < i ==> !OfFamily(f, ParseIP(texts[j]))
  {
    var typ;
    hide ParseIP, FirstOf, LookupAnswers, Hostname.ExpandHostnamePattern;
    z, typ, k := AnswerHasCandidate(cache, zones, f, name, answer);
    comp := cache.components[cache.interfaces[k].componentID];
    i := FirstOfIsFirst(f, cache.interfaces[k].ipAddresses);
  }

  lemma LabelOfNode(zones: seq<Zone>, z: nat, comp: Component)
    requires z < |zones| && zones[z].nodePattern != "" && comp.typ == "Node"
    ensures IsLabel(zones, comp, Hostname.ExpandHostnamePattern(zones[z].nodePattern, comp.nid, comp.id))
  {
  }

  /**
   * With components stored under their ids, dot-free labels and no host shared by two components, the answer to a name
   * made from a node's number is an address of that very node.
   */
  lemma NodeNumbersResolveToTheNode(cache: Cache, zones: seq<Zone>, z: nat, f: Family, k: string, comp: Component,
                                    answer: IP)
    requires WellKeyed(cache) && DotFreeLabels(cache, zones) && NoSharedLabels(cache, zones)
    requires z < |zones| && zones[z].nodePattern != "" && Belongs(cache, k, comp) && comp.typ == "Node"
    requires HasFamily(cache, k, f)
    requires var host := Hostname.ExpandHostnamePattern(zones[z].nodePattern, comp.nid, comp.id);
             LookupAnswers(cache, zones, f, host + "." + zones[z].name, answer)
    ensures answer != NoIP
    ensures exists j :: && j in cache.interfaces
                        && cache.interfaces[j].componentID == cache.interfaces[k].componentID
                        && HasAddress(cache.interfaces[j], answer)
  {
    NodeNumbersResolve(cache, zones, z, f, k, comp, answer);
    LabelOfNode(zones, z, comp);
    var host := Hostname.ExpandHostnamePattern(zones[z].nodePattern, comp.nid, comp.id);
    var name := host + "." + zones[z].name;
    hide HasFamily, FirstOf, ParseIP, OfFamily, IsName, IsLabel, HasAddress, Hostname.ExpandHostnamePattern, WellKeyed;
    var i, typ, j := AnswerHasCandidate(cache, zones, f, name, answer);
    hide LookupAnswers;
    var d := cache.interfaces[j].componentID;
    var l := CandidateLabel(zones, i, typ, cache.components[d], name);
    SameLabel(l, zones[i].name, host, zones[z].name);
    CandidateHasAddress(cache, zones[i], typ, f, name, j, answer);
  }

  /** When two zones could answer, the earlier one does: no zone before the answering one has a candidate. */
  lemma EarlierZonesAreSilent(cache: Cache, zones: seq<Zone>, f: Family, name: string, answer: IP) returns (z: nat)
    requires LookupAnswers(cache, zones, f, name, answer) && answer != NoIP
    ensures z < |zones| && HasSuffix(name, zones[z].name)
    ensures forall y, typ, k, ip :: 0 <= y < z && (typ == "Node" || typ == "NodeBMC") && HasSuffix(name, zones[y].name)
                                    ==> !Candidate(cache, zones[y], typ, f, name, k, ip)
    ensures (exists k, ip :: Candidate(cache, zones[z], "Node", f, name, k, ip)) ==>
              exists k :: Candidate(cache, zones[z], "Node", f, name, k, answer)
  {
    hide Candidate, HasSuffix;
    z :| 0 <= z < |zones| && ZoneAnswers(cache, zones[z], f, name, answer)
         && forall j :: 0 <= j < z ==> ZoneAnswers(cache, zones[j], f, name, NoIP);
  }

  /** The zone gives the component a PTR name: any zone does for a BMC, one with a pattern for a node. */
  predicate ServedBy(zone: Zone, comp: Component) {
    comp.typ == "NodeBMC" || (comp.typ == "Node" && zone.nodePattern != "")
  }

  /** A component's PTR name is its id in the first zone that serves it. */
  lemma PtrNameIsFirst(zones: seq<Zone>, comp: Component) returns (i: nat)
    ensures PtrName(zones, comp) == "" <==> forall j :: 0 <= j < |zones| ==> !ServedBy(zones[j], comp)
    ensures PtrName(zones, comp) != "" ==>
              && i < |zones| && PtrName(zones, comp) == comp.id + "." + zones[i].name && ServedBy(zones[i], comp)
              && forall j :: 0 <= j < i ==> !ServedBy(zones[j], comp)
    decreases |zones|
  {
    i := 0;
    if zones != [] && !Serves(zones[0], comp) {
      i := PtrNameIsFirst(zones[1..], comp);
      i := i + 1;
    }
  }

  /** A PTR query for an address that an interface of a served component lists is never left without an answer. */
  lemma AddressesAreNamed(cache: Cache, zones: seq<Zone>, ip: IP, k: string, comp: Component, i: nat, z: nat,
                          name: string)
    requires ip != NoIP && Belongs(cache, k, comp) && z < |zones| && ServedBy(zones[z], comp)
    requires i < |cache.interfaces[k].ipAddresses| && ParseIP(cache.interfaces[k].ipAddresses[i]) == ip
    requires PtrAnswers(cache, zones, ip, name)
    ensures name != ""
  {
    hide ParseIP, PtrName, ServedBy;
    var _ := PtrNameIsFirst(zones, comp);
    assert HasAddress(cache.interfaces[k], ip);
    assert PtrCandidate(cache, zones, ip, k, PtrName(zones, comp));
  }

  /** A PTR answer is the id of a component with the address, in the first zone that serves it. */
  lemma NamesAreOfTheAddress(cache: Cache, zones: seq<Zone>, ip: IP, name: string)
      returns (k: string, comp: Component, i: nat, z: nat)
    requires PtrAnswers(cache, zones, ip, name) && name != ""
    ensures ip != NoIP && Belongs(cache, k, comp)
    ensures i < |cache.interfaces[k].ipAddresses| && ParseIP(cache.interfaces[k].ipAddresses[i]) == ip
    ensures z < |zones| && name == comp.id + "." + zones[z].name && ServedBy(zones[z], comp)
    ensures forall j :: 0 <= j < z ==> !ServedBy(zones[j], comp)
  {
    hide ParseIP, PtrName, ServedBy;
    k :| PtrCandidate(cache, zones, ip, k, name);
    comp := cache.components[cache.interfaces[k].componentID];
    i :| 0 <= i < |cache.interfaces[k].ipAddresses| && ParseIP(cache.interfaces[k].ipAddresses[i]) == ip;
    z := PtrNameIsFirst(zones, comp);
  }
}
