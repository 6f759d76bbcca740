// internal/subnet/subnet.go: the registered subnets and the searches over them.
module Subnets {
  import opened Wrappers
  import opened Net

  /** A registered subnet; the router may be absent. */
  datatype SubnetConfig = SubnetConfig(cidr: Cidr, router: IP)

  type Registry = map<string, SubnetConfig>

  /** FindSubnetForIP may answer r: some network that contains the address, None only when there is none. */
  ghost predicate Finds(subnets: Registry, ip: IP, r: Option<string>) {
    match r
    case None => forall c :: c in subnets ==> !Contains(subnets[c].cidr, ip)
    case Some(c) => c in subnets && Contains(subnets[c].cidr, ip)
  }

  class SubnetContext {
    var Subnets: Registry

    constructor ()
      ensures Subnets == map[]
    {
      Subnets := map[];
    }

    /** AddSubnetCIDROnly; net stands for net.ParseCIDR(cidr). An entry already there is kept. */
    method AddSubnetCIDROnly(cidr: string, net: Option<Cidr>) returns (ok: bool)
      modifies this
      ensures ok <==> net.Some?
      ensures Subnets == if net.Some? && cidr !in old(Subnets) then old(Subnets)[cidr := SubnetConfig(net.value, NoIP)]
                         else old(Subnets)
    {
      if net.None? {
        return false;
      }
      if cidr !in Subnets {
        Subnets := Subnets[cidr := SubnetConfig(net.value, NoIP)];
      }
      return true;
    }

    /** FindSubnetForIP, over an arbitrary order of the map. */
    method FindSubnetForIP(ip: IP) returns (r: Option<string>)
      ensures Finds(Subnets, ip, r)
    {
      if ip == NoIP {
        return None;
      }
      var rest := Subnets.Keys;
      while rest != {}
        invariant rest <= Subnets.Keys
        invariant forall c :: c in Subnets && c !in rest ==> !Contains(Subnets[c].cidr, ip)
        decreases rest
      {
        var c :| c in rest;
        if Contains(Subnets[c].cidr, ip) {
          return Some(c);
        }
        rest := rest - {c};
      }
      return None;
    }

    /** MatchInterfaceToSubnet */
    method MatchInterfaceToSubnet(ifaceIP: IP, giaddr: IP) returns (matches: bool)
      ensures giaddr == NoIP || Unspecified(giaddr) ==> matches
      ensures !(giaddr == NoIP || Unspecified(giaddr)) ==>
                exists r :: Finds(Subnets, giaddr, r)
                            && (matches <==> r.Some? && Contains(Subnets[r.value].cidr, ifaceIP))
    {
      if giaddr == NoIP || Unspecified(giaddr) {
        return true;
      }
      var r := FindSubnetForIP(giaddr);
      if r.None? {
        return false;
      }
      return Contains(Subnets[r.value].cidr, ifaceIP);
    }
  }

  /** The registered networks are pairwise disjoint. */
  ghost predicate DisjointNets(subnets: Registry) {
    forall c, d :: c in subnets && d in subnets && c != d ==> Disjoint(subnets[c].cidr, subnets[d].cidr)
  }

  /** A search succeeds, in any order, exactly when some network contains the address. */
  lemma FindSucceedsIffContained(subnets: Registry, ip: IP, r: Option<string>)
    requires Finds(subnets, ip, r)
    ensures r.Some? <==> exists c :: c in subnets && Contains(subnets[c].cidr, ip)
  {
    hide Contains;
    if r.Some? {
      assert r.value in subnets;
    }
  }

  /** The search gives every address one answer in all map orders exactly when the networks are disjoint. */
  lemma FindIsOrderIndependent(subnets: Registry)
    ensures DisjointNets(subnets) <==>
            forall ip, r, q :: Finds(subnets, ip, r) && Finds(subnets, ip, q) ==> r == q
  {
    hide Contains;
    if forall ip, r, q :: Finds(subnets, ip, r) && Finds(subnets, ip, q) ==> r == q {
      forall c, d | c in subnets && d in subnets && c != d ensures Disjoint(subnets[c].cidr, subnets[d].cidr) {
        forall ip ensures !(Contains(subnets[c].cidr, ip) && Contains(subnets[d].cidr, ip)) {
          assert Contains(subnets[c].cidr, ip) && Contains(subnets[d].cidr, ip) ==>
              Finds(subnets, ip, Some(c)) && Finds(subnets, ip, Some(d));
        }
      }
    }
  }
}
