// internal/subnet/pool.go: the per-subnet address pools. The bitmap allocator itself is a library; Bitmap gives it the
// contract the plugin relies on.
module Pools {
  import opened Wrappers
  import opened Net
  import Leases

  class Bitmap {
    const start: u32
    const end: u32
    var used: set<u32>

    ghost predicate Valid()
      reads this
    {
      start <= end && forall a :: a in used ==> start <= a <= end
    }

    constructor (start: u32, end: u32)
      requires start <= end
      ensures Valid() && this.start == start && this.end == end && used == {}
    {
      this.start, this.end, this.used := start, end, {};
    }

    predicate IsFree(ip: IP)
      reads this
    {
      ip.V4? && start <= ip.v <= end && ip.v !in used
    }

    /** The hint when it is in range and free, else some free address; an error exactly when none is free. */
    method Allocate(hint: IP) returns (r: Option<u32>)
      requires Valid()
      modifies this
      ensures Valid()
      ensures r.None? <==> forall a: u32 :: start <= a <= end ==> a in old(used)
      ensures r.None? ==> used == old(used)
      ensures r.Some? ==> start <= r.value <= end && r.value !in old(used) && used == old(used) + {r.value}
      ensures old(IsFree(hint)) ==> r == Some(hint.v)
    {
      if IsFree(hint) {
        used := used + {hint.v};
        return Some(hint.v);
      }
      var a: int := start;
      while a <= end
        invariant start <= a <= end + 1
        invariant forall b: u32 :: start <= b < a ==> b in used
      {
        if a !in used {
          used := used + {a};
          return Some(a);
        }
        a := a + 1;
      }
      return None;
    }

    /** Clears the bit of an address that is in range and set; anything else is an error. */
    method Free(ip: IP) returns (ok: bool)
      requires Valid()
      modifies this
      ensures Valid()
      ensures ok <==> ip.V4? && ip.v in old(used)
      ensures used == if ip.V4? then old(used) - {ip.v} else old(used)
    {
      if ip.V4? && start <= ip.v <= end && ip.v in used {
        used := used - {ip.v};
        return true;
      }
      return false;
    }
  }

  /** bitmap.NewIPv4Allocator: null is its error. */
  method NewIPv4Allocator(start: IP, end: IP) returns (b: Bitmap?)
    ensures b != null <==> start.V4? && end.V4? && start.v <= end.v
    ensures b != null ==> fresh(b) && b.Valid() && b.start == start.v && b.end == end.v && b.used == {}
  {
    if !start.V4? || !end.V4? || start.v > end.v {
      return null;
    }
    b := new Bitmap(start.v, end.v);
  }

  lemma ManyWellFormed(pools: map<string, Leases.Pool>, cidr: string, p: Leases.Pool)
    requires Leases.PoolsWellFormed(pools)
    requires p.start <= p.end && Leases.InNet(p, p.start) && Leases.InNet(p, p.end)
    ensures Leases.PoolsWellFormed(pools[cidr := p])
  {
    hide Contains;
  }

  datatype SubnetPool = SubnetPool(cidr: Cidr, allocator: Bitmap)

  class SubnetPoolManager {
    var Pools: map<string, SubnetPool>

    ghost function Allocators(): set<Bitmap>
      reads this
    {
      set c | c in Pools :: Pools[c].allocator
    }

    ghost predicate Valid()
      reads this, Allocators()
    {
      && (forall c :: c in Pools ==> Pools[c].allocator.Valid())
      && (forall c, d :: c in Pools && d in Pools && c != d ==> Pools[c].allocator != Pools[d].allocator)
      && Leases.PoolsWellFormed(View())
    }

    /** The pools as values. */
    ghost function View(): map<string, Leases.Pool>
      reads this, Allocators()
    {
      map c | c in Pools :: PoolView(Pools[c])
    }

    static ghost function PoolView(p: SubnetPool): Leases.Pool
      reads p.allocator
    {
      Leases.Pool(p.cidr, p.allocator.start, p.allocator.end, p.allocator.used)
    }

    constructor ()
      ensures Valid() && View() == map[] && Pools == map[]
    {
      Pools := map[];
    }

    /** net stands for net.ParseCIDR(cidr). The pool is added exactly when both ends are in the network, in order. */
    method AddPool(cidr: string, net: Option<Cidr>, startIP: IP, endIP: IP) returns (ok: bool)
      requires Valid()
      modifies this
      ensures Valid()
      ensures ok <==> net.Some? && Contains(net.value, startIP) && Contains(net.value, endIP)
                      && startIP.V4? && endIP.V4? && startIP.v <= endIP.v
      ensures ok ==> View() == old(View())[cidr := Leases.Pool(net.value, startIP.v, endIP.v, {})]
      ensures !ok ==> Pools == old(Pools) && View() == old(View())
      ensures fresh(Allocators() - old(Allocators()))
    {
      hide Contains, Leases.PoolsWellFormed;
      if net.None? || !Contains(net.value, startIP) || !Contains(net.value, endIP) {
        return false;
      }
      ghost var before := View();
      var allocator := NewIPv4Allocator(startIP, endIP);
      assert View() == before;
      if allocator == null {
        return false;
      }
      ghost var added := Leases.Pool(net.value, startIP.v, endIP.v, {});
      assert allocator !in Allocators();
      Pools := Pools[cidr := SubnetPool(net.value, allocator)];
      assert forall c :: c in Pools && c != cidr ==> PoolView(Pools[c]) == before[c];
      assert View() == before[cidr := added];
      ManyWellFormed(before, cidr, added);
      return true;
    }

    /** Go's range over the Pools map is modelled by picking the keys in an arbitrary order. */
    method GetAllocatorForGiaddr(giaddr: IP) returns (r: Option<string>)
      requires Valid()
      ensures r.Some? ==> Leases.Selectable(View(), giaddr, r.value)
      ensures r.None? ==> forall c :: !Leases.Selectable(View(), giaddr, c)
      ensures giaddr == NoIP || giaddr == V4(0) || giaddr == V6(0) ==>
                (r.Some? <==> |Pools| == 1) && (r.Some? ==> r.value in Pools)
      ensures !(giaddr == NoIP || giaddr == V4(0) || giaddr == V6(0)) ==>
                match r
                case Some(c) => c in Pools && Contains(Pools[c].cidr, giaddr)
                case None => forall c :: c in Pools ==> !Contains(Pools[c].cidr, giaddr)
    {
      if giaddr == NoIP || Unspecified(giaddr) {
        assert View().Keys == Pools.Keys;
        if |Pools| == 1 {
          assert Pools.Keys != {};
          var c :| c in Pools;
          assert |View().Keys| == 1;
          return Some(c);
        }
        assert |View().Keys| != 1;
        return None;
      }
      var rest := Pools.Keys;
      while rest != {}
        invariant rest <= Pools.Keys
        invariant forall c :: c in Pools && c !in rest ==> !Contains(Pools[c].cidr, giaddr)
        decreases rest
      {
        var c :| c in rest;
        if Contains(Pools[c].cidr, giaddr) {
          return Some(c);
        }
        rest := rest - {c};
      }
      return None;
    }

    /** The pool whose network contains ip that the range over the map meets first. */
    method FindPool(ip: u32) returns (r: Option<string>)
      requires Valid()
      ensures Leases.Frees(View(), ip, r)
      ensures match r
              case Some(c) => c in Pools && Contains(Pools[c].cidr, V4(ip))
              case None => forall c :: c in Pools ==> !Contains(Pools[c].cidr, V4(ip))
    {
      var rest := Pools.Keys;
      while rest != {}
        invariant rest <= Pools.Keys
        invariant forall c :: c in Pools && c !in rest ==> !Contains(Pools[c].cidr, V4(ip))
        decreases rest
      {
        var c :| c in rest;
        if Contains(Pools[c].cidr, V4(ip)) {
          return Some(c);
        }
        rest := rest - {c};
      }
      return None;
    }
  }

  /** With disjoint networks the pool found for an address does not depend on the order of the map. */
  lemma SelectionIsOrderIndependent(pools: map<string, Leases.Pool>, giaddr: IP, c: string, d: string)
    requires Leases.PoolsDisjoint(pools)
    requires Leases.Selectable(pools, giaddr, c) && Leases.Selectable(pools, giaddr, d)
    ensures c == d
  {
    if giaddr == NoIP || Unspecified(giaddr) {
      assert |pools.Keys - {c}| == 0;
    }
  }
}
