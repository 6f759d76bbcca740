// Which interface and component the coresmd plugin takes a client for, and the hostname that follows from it.
module Identity {
  import opened Wrappers
  import opened Text
  import opened Net
  import opened IPText
  import opened Rules
  import opened Evaluate
  import opened Subnets
  import opened Iface
  import Hostname

  /** The steps before any address is parsed: the first that fails decides the error, and success gives the identity. */
  lemma LookupIs(mac: string, cache: Option<Cache>)
    ensures cache.None? ==> Lookup(mac, cache) == Err(NilCache)
    ensures cache.Some? ==>
              var c := cache.value;
              if mac !in c.interfaces then Lookup(mac, cache) == Err(NoInterface)
              else
                var ei := c.interfaces[mac];
                if ei.componentID !in c.components then Lookup(mac, cache) == Err(NoComponent)
                else if ei.ipAddresses == [] then Lookup(mac, cache) == Err(NoAddresses)
                else
                  var comp := c.components[ei.componentID];
                  Lookup(mac, cache).Ok? && Lookup(mac, cache).value.1 == ei.ipAddresses
                  && Identifies(Lookup(mac, cache).value.0, mac, ei.componentID, comp)
  {
  }

  /** The interface is taken for this component: its id, its type, and its number if it is a node, else 0. */
  predicate Identifies(ii: IfaceInfo, mac: string, id: string, comp: Component) {
    && ii.mac == mac && ii.compID == id && ii.typ == comp.typ
    && (comp.typ == "Node" ==> ii.compNID == comp.nid) && (comp.typ != "Node" ==> ii.compNID == 0)
  }

  /** Whatever relay and subnets, a client is taken for the component of the interface under its hardware address. */
  lemma ClientIsIdentified(mac: string, giaddr: IP, cache: Option<Cache>, sc: SubnetContext?, found: Option<string>,
                           r: Result<IfaceInfo, LookupError>)
    requires LooksUp(mac, giaddr, cache, sc, found, r) && r.Ok?
    ensures cache.Some? && mac in cache.value.interfaces
    ensures var id := cache.value.interfaces[mac].componentID;
            id in cache.value.components && Identifies(r.value, mac, id, cache.value.components[id])
  {
    LookupIs(mac, cache);
    hide Lookup, Valid, Inside, ParsedAll, Contains;
  }

  // --- the addresses that parse ---

  /** LookupMAC's list has every address text in its place, nil where it does not parse. */
  lemma ParsedAllIs(texts: seq<string>)
    ensures |ParsedAll(texts)| == |texts| && forall i :: 0 <= i < |texts| ==> ParsedAll(texts)[i] == ParseIP(texts[i])
  {
    hide ParseIP;
  }

  /** idx are the positions of out in the texts, in increasing order, and no address that parses is left out. */
  ghost predicate ParsedAt(texts: seq<string>, out: seq<IP>, idx: seq<nat>) {
    && |idx| == |out|
    && (forall i :: 0 <= i < |idx| ==> idx[i] < |texts| && out[i] == ParseIP(texts[idx[i]]) && out[i] != NoIP)
    && (forall i, j :: 0 <= i < j < |idx| ==> idx[i] < idx[j])
    && (forall k: nat :: k < |texts| && ParseIP(texts[k]) != NoIP ==> k in idx)
  }

  lemma ParsedOneMore(texts: seq<string>, x: string, out: seq<IP>, idx: seq<nat>)
    requires ParsedAt(texts, out, idx)
    ensures ParseIP(x) != NoIP ==> ParsedAt(texts + [x], out + [ParseIP(x)], idx + [|texts|])
    ensures ParseIP(x) == NoIP ==> ParsedAt(texts + [x], out, idx)
  {
    hide ParseIP;
    forall k: nat | k < |texts + [x]| && ParseIP((texts + [x])[k]) != NoIP
      ensures k in (if ParseIP(x) != NoIP then idx + [|texts|] else idx)
    {
      if k < |texts| {
        assert texts[k] == (texts + [x])[k];
      } else {
        assert (idx + [|texts|])[|idx|] == k;
      }
    }
  }

  /** The filter keeps exactly the addresses that parse, in their order. */
  lemma {:induction false} ValidIsSubsequence(texts: seq<string>) returns (idx: seq<nat>)
    ensures ParsedAt(texts, Valid(texts), idx)
    decreases |texts|
  {
    hide ParseIP;
    if texts == [] {
      return [];
    }
    var last := |texts| - 1;
    var before := ValidIsSubsequence(texts[..last]);
    ParsedOneMore(texts[..last], texts[last], Valid(texts[..last]), before);
    hide ParsedAt;
    assert texts == texts[..last] + [texts[last]];
    assert Valid(texts[..last]) + [] == Valid(texts[..last]);
    idx := if ParseIP(texts[last]) != NoIP then before + [last] else before;
  }

  // --- nodes get names of their own ---

  /** The hostname a DHCPv4 response ends up with. */
  ghost function HostnameOf(rules: seq<Rule>, domain: string, ii: IfaceInfo, before: Option<string>): Option<string> {
    var name := NameSet(rules, domain, ii, before);
    if Unnamed(name) then Some(DefaultName(domain, ii)) else name
  }

  lemma {:induction false} PlaceholderIsVisible(t: string)
    requires Hostname.HasPlaceholder(t)
    ensures !Blank(t)
    decreases |t|
  {
    if Hostname.PlaceholderAt(t) {
      assert t[0] == '{' && !IsSpace(t[0]);
    } else {
      PlaceholderIsVisible(t[1..]);
      Hostname.BlankTail(t);
    }
  }

  lemma NumberedNameIsVisible(pattern: string, domain: string, ii: IfaceInfo, a: Action)
    requires Hostname.HasPlaceholder(pattern)
    ensures !Blank(NameFor(pattern, domain, ii, a))
  {
    Hostname.ReplaceIdKeepsPlaceholder(pattern, ii.compID);
    PlaceholderIsVisible(Hostname.ReplaceId(pattern, ii.compID));
    hide Blank, NameFor, DomainSuffix, Hostname.ReplaceId;
    NameBlankIff(pattern, domain, ii, a);
  }

  lemma KeepsName(rules: seq<Rule>, domain: string, ii: IfaceInfo, before: Option<string>, k: int)
    requires k == LastSetter(rules, ii, NameField, |rules|) && k != -1
    requires Hostname.HasPlaceholder(TrimSpace(rules[k].action.hostname))
    ensures HostnameOf(rules, domain, ii, before)
            == Some(NameFor(TrimSpace(rules[k].action.hostname), domain, ii, rules[k].action))
  {
    hide TrimSpace, NameFor, LastSetter, Blank, DefaultName;
    NumberedNameIsVisible(TrimSpace(rules[k].action.hostname), domain, ii, rules[k].action);
  }

  /**
   * Two nodes of the cache with different numbers, named by the same rule, whose pattern has a {Nd} and no {id}, are
   * given different hostnames by Handler4, whatever relays they come through.
   */
  lemma NodesGetDifferentHostnames(cache: Cache, sc: SubnetContext?, domain: string, rules: seq<Rule>, k: int,
                                   mac: string, giaddr: IP, found: Option<string>, r: Result<IfaceInfo, LookupError>,
                                   other: string, giaddr': IP, found': Option<string>,
                                   r': Result<IfaceInfo, LookupError>,
                                   before: Option<string>, before': Option<string>)
    requires LooksUp(mac, giaddr, Some(cache), sc, found, r) && r.Ok?
    requires LooksUp(other, giaddr', Some(cache), sc, found', r') && r'.Ok?
    requires mac in cache.interfaces && cache.interfaces[mac].componentID in cache.components
    requires other in cache.interfaces && cache.interfaces[other].componentID in cache.components
    requires var x := cache.components[cache.interfaces[mac].componentID];
             var y := cache.components[cache.interfaces[other].componentID];
             x.typ == "Node" && y.typ == "Node" && x.nid != y.nid
    requires k == LastSetter(rules, r.value, NameField, |rules|) == LastSetter(rules, r'.value, NameField, |rules|)
    requires k != -1
    requires var pattern := TrimSpace(rules[k].action.hostname);
             Hostname.HasPlaceholder(pattern) && Hostname.NoId(pattern)
    ensures HostnameOf(rules, domain, r.value, before) != HostnameOf(rules, domain, r'.value, before')
  {
    ClientIsIdentified(mac, giaddr, Some(cache), sc, found, r);
    ClientIsIdentified(other, giaddr', Some(cache), sc, found', r');
    hide LooksUp, LastSetter, HostnameOf, TrimSpace, NameFor, Hostname.HasPlaceholder, Hostname.NoId;
    KeepsName(rules, domain, r.value, before, k);
    KeepsName(rules, domain, r'.value, before', k);
    var a := rules[k].action;
    DifferentNodesDifferentNames(TrimSpace(a.hostname), domain, a, r.value, r'.value);
  }
}
