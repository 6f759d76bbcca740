// Addresses and networks as the plugins see them after net.ParseIP and net.ParseCIDR.
module Net {
  import opened Wrappers

  type u32 = x: int | 0 <= x < 0x1_0000_0000

  type u128 = x: int | 0 <= x < 0x1_0000_0000_0000_0000_0000_0000_0000_0000

  type Width4 = x: int | 0 <= x <= 32

  type Width6 = x: int | 0 <= x <= 128

  /** A net.IP: nil, an IPv4 address (in its 4-byte or its mapped 16-byte form), or any other IPv6 address. */
  datatype IP = NoIP | V4(v: u32) | V6(w: u128)

  /** A net.IPNet: an address of the network and the number of leading ones of its mask. */
  datatype Cidr = Cidr4(base: u32, ones4: Width4) | Cidr6(base6: u128, ones6: Width6)

  /** The address a without its last k bits. */
  function HighPart(a: nat, k: nat): nat {
    if k == 0 then a else HighPart(a / 2, k - 1)
  }

  /** The addresses a and b agree on everything but their last host bits. */
  predicate SameBlock(a: nat, b: nat, host: nat) {
    HighPart(a, host) == HighPart(b, host)
  }

  /**
   * The network as one of IPv4 addresses: its base and the number of host bits. An IPv6 network inside the IPv4-mapped
   * block is one too, as the net library takes its last four bytes.
   */
  function V4Net(n: Cidr): Option<(u32, nat)> {
    match n
    case Cidr4(base, ones) => Some((base, 32 - ones))
    case Cidr6(base, ones) =>
      if ones >= 96 && base / 0x1_0000_0000 == 0xFFFF then Some((base % 0x1_0000_0000, 128 - ones)) else None
  }

  /** net.IPNet.Contains */
  predicate Contains(n: Cidr, ip: IP) {
    match ip
    case NoIP => false
    case V4(a) => V4Net(n).Some? && SameBlock(a, V4Net(n).value.0, V4Net(n).value.1)
    case V6(w) => n.Cidr6? && V4Net(n).None? && SameBlock(w, n.base6, 128 - n.ones6)
  }

  /** net.IP.IsUnspecified */
  predicate Unspecified(ip: IP) {
    ip == V4(0) || ip == V6(0)
  }

  ghost predicate Within(m: Cidr, n: Cidr) {
    forall ip :: Contains(m, ip) ==> Contains(n, ip)
  }

  ghost predicate Disjoint(m: Cidr, n: Cidr) {
    forall ip :: !(Contains(m, ip) && Contains(n, ip))
  }

  lemma {:induction false} HighPartAdd(a: nat, j: nat, k: nat)
    ensures HighPart(a, j + k) == HighPart(HighPart(a, j), k)
    decreases j
  {
    if j > 0 {
      HighPartAdd(a / 2, j - 1, k);
    }
  }

  lemma {:induction false} HighPartMono(a: nat, b: nat, k: nat)
    requires a <= b
    ensures HighPart(a, k) <= HighPart(b, k)
    decreases k
  {
    if k > 0 {
      HighPartMono(a / 2, b / 2, k - 1);
    }
  }

  /** Agreeing on a longer prefix implies agreeing on a shorter one. */
  lemma WiderBlock(a: nat, b: nat, host: nat, wider: nat)
    requires SameBlock(a, b, host) && host <= wider
    ensures SameBlock(a, b, wider)
  {
    HighPartAdd(a, host, wider - host);
    HighPartAdd(b, host, wider - host);
  }

  /** The number of host bits that decide containment. */
  function HostBits(n: Cidr): nat {
    match V4Net(n)
    case Some((_, host)) => host
    case None => 128 - n.ones6
  }

  lemma SharedAddressNests(m: Cidr, n: Cidr, x: IP)
    requires Contains(m, x) && Contains(n, x) && HostBits(m) <= HostBits(n)
    ensures Within(m, n)
  {
    forall y | Contains(m, y) ensures Contains(n, y) {
      if x.V4? {
        WiderBlock(y.v, V4Net(m).value.0, HostBits(m), HostBits(n));
        WiderBlock(x.v, V4Net(m).value.0, HostBits(m), HostBits(n));
      } else {
        WiderBlock(y.w, m.base6, HostBits(m), HostBits(n));
        WiderBlock(x.w, m.base6, HostBits(m), HostBits(n));
      }
    }
  }

  /** Any two networks are nested or disjoint. */
  lemma NestedOrDisjoint(m: Cidr, n: Cidr)
    ensures Within(m, n) || Within(n, m) || Disjoint(m, n)
  {
    if !Disjoint(m, n) {
      var x :| Contains(m, x) && Contains(n, x);
      if HostBits(m) <= HostBits(n) {
        SharedAddressNests(m, n, x);
      } else {
        SharedAddressNests(n, m, x);
      }
    }
  }

  /** A range whose two ends lie in a network lies in it entirely. */
  lemma RangeInside(n: Cidr, lo: u32, hi: u32, x: u32)
    requires Contains(n, V4(lo)) && Contains(n, V4(hi)) && lo <= x <= hi
    ensures Contains(n, V4(x))
  {
    HighPartMono(lo, x, V4Net(n).value.1);
    HighPartMono(x, hi, V4Net(n).value.1);
  }

  // --- containment as arithmetic ---

  /** The number of addresses in a network with k host bits. */
  function BlockSize(k: nat): nat {
    if k == 0 then 1 else 2 * BlockSize(k - 1)
  }

  /** The address lies in the m-th block of that size, counted from zero. */
  predicate InBlock(a: nat, k: nat, m: nat) {
    m * BlockSize(k) <= a < (m + 1) * BlockSize(k)
  }

  predicate BothIn(a: nat, b: nat, k: nat, m: nat) {
    InBlock(a, k, m) && InBlock(b, k, m)
  }

  /** The two addresses lie in the same block of that size. */
  ghost predicate InOneBlock(a: nat, b: nat, k: nat) {
    exists m :: BothIn(a, b, k, m)
  }

  lemma Doubled(m: nat, b: nat)
    ensures m * (2 * b) == 2 * (m * b)
  {
  }

  /** Without its last k bits an address is the number of the block it lies in. */
  lemma {:induction false} HighPartIsBlock(a: nat, k: nat, m: nat)
    ensures HighPart(a, k) == m <==> InBlock(a, k, m)
    decreases k
  {
    if k > 0 {
      HighPartIsBlock(a / 2, k - 1, m);
      var b := BlockSize(k - 1);
      Doubled(m, b);
      Doubled(m + 1, b);
      var lo, hi := m * b, (m + 1) * b;
      assert lo <= a / 2 < hi <==> 2 * lo <= a < 2 * hi;
    }
  }

  /** An IPv4 network contains exactly the addresses in the block of its base, the host bits giving the block's size. */
  lemma Contains4Iff(base: u32, ones: Width4, a: u32)
    ensures Contains(Cidr4(base, ones), V4(a)) <==>
            InOneBlock(base, a, 32 - ones)
    ensures !Contains(Cidr4(base, ones), NoIP) && forall w :: !Contains(Cidr4(base, ones), V6(w))
  {
    var k := 32 - ones;
    HighPartIsBlock(base, k, HighPart(base, k));
    HighPartIsBlock(a, k, HighPart(base, k));
    assert BothIn(base, a, k, HighPart(base, k)) <==> HighPart(a, k) == HighPart(base, k);
    forall m | BothIn(base, a, k, m) ensures HighPart(a, k) == HighPart(base, k) {
      HighPartIsBlock(base, k, m);
      HighPartIsBlock(a, k, m);
    }
    hide HighPart, BothIn;
  }

  /** An IPv6 network outside the IPv4-mapped block likewise, and no IPv4 address. */
  lemma Contains6Iff(base: u128, ones: Width6, w: u128)
    requires ones < 96 || base / 0x1_0000_0000 != 0xFFFF
    ensures Contains(Cidr6(base, ones), V6(w)) <==>
            InOneBlock(base, w, 128 - ones)
    ensures forall a :: !Contains(Cidr6(base, ones), V4(a))
  {
    var k := 128 - ones;
    HighPartIsBlock(base, k, HighPart(base, k));
    HighPartIsBlock(w, k, HighPart(base, k));
    assert BothIn(base, w, k, HighPart(base, k)) <==> HighPart(w, k) == HighPart(base, k);
    forall m | BothIn(base, w, k, m) ensures HighPart(w, k) == HighPart(base, k) {
      HighPartIsBlock(base, k, m);
      HighPartIsBlock(w, k, m);
    }
    hide HighPart, BothIn;
  }
}
