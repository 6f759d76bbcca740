// internal/rule/netmask.go and the two ways a rule can name an IPv4 mask.
module Netmask {
  import opened Net

  /** net.CIDRMask(k, 32): k ones followed by zeros. */
  function CidrMask(k: bv32): bv32
    requires k <= 32
  {
    0xFFFF_FFFF << (32 - k)
  }

  /** checkValidNetmask */
  predicate CheckValidNetmask(netmask: bv32) {
    var x := !netmask;
    var y := x + 1;
    (y & x) == 0
  }

  /** The number of ones in m. */
  function Ones(m: bv32): bv32 {
    var a := m - ((m >> 1) & 0x5555_5555);
    var b := (a & 0x3333_3333) + ((a >> 2) & 0x3333_3333);
    var c := (b + (b >> 4)) & 0x0F0F_0F0F;
    (c + (c >> 8) + (c >> 16) + (c >> 24)) & 0x3F
  }

  lemma CidrMaskIsValid(k: bv32)
    requires k <= 32
    ensures CheckValidNetmask(CidrMask(k))
    ensures CidrMask(k) == 0 <==> k == 0
    ensures Ones(CidrMask(k)) == k
  {
  }

  lemma ValidIsCidrMask(m: bv32)
    requires CheckValidNetmask(m)
    ensures Ones(m) <= 32 && m == CidrMask(Ones(m))
  {
  }

  /** Bit i of the mask, counted from the right, is set exactly when i is not among the last 32 - k. */
  lemma CidrMaskBits(k: bv32, i: bv32)
    requires k <= 32 && i < 32
    ensures (CidrMask(k) >> i) & 1 == 1 <==> i >= 32 - k
  {
  }

  /** The mask of a width given as a number, as the cidr key does. */
  function WidthMask(k: Width4): bv32 {
    CidrMask(k as bv32)
  }

  lemma NumberToBits(k: Width4)
    ensures (k as bv32) as int == k
  {
  }

  lemma BitsToNumber(b: bv32)
    requires b <= 32
    ensures b as int <= 32 && (b as int) as bv32 == b
  {
  }

  /** A width's mask is valid, is 0.0.0.0 only for width 0, and determines the width. */
  lemma WidthMaskIsValid(k: Width4)
    ensures CheckValidNetmask(WidthMask(k))
    ensures WidthMask(k) == 0 <==> k == 0
    ensures Ones(WidthMask(k)) as int == k
  {
    NumberToBits(k);
    CidrMaskIsValid(k as bv32);
    hide CheckValidNetmask, Ones, CidrMask;
  }

  /** A valid mask is the mask of the number of its ones. */
  lemma ValidIsWidthMask(m: bv32) returns (k: Width4)
    requires CheckValidNetmask(m)
    ensures k == Ones(m) as int && m == WidthMask(k)
  {
    ValidIsCidrMask(m);
    hide CheckValidNetmask, Ones, CidrMask;
    BitsToNumber(Ones(m));
    k := Ones(m) as int;
  }

  /**
   * The masks accepted through the netmask key (valid and not 0.0.0.0) and the widths 1 to 32 accepted through the cidr
   * key correspond one to one.
   */
  lemma NetmasksAreWidths(m: bv32)
    ensures CheckValidNetmask(m) && m != 0 <==> exists k: Width4 :: 1 <= k && m == WidthMask(k)
    ensures forall j: Width4, k: Width4 :: WidthMask(j) == WidthMask(k) ==> j == k
  {
    hide CheckValidNetmask, Ones, WidthMask;
    if CheckValidNetmask(m) && m != 0 {
      var k := ValidIsWidthMask(m);
      WidthMaskIsValid(k);
    }
    forall k: Width4
      ensures CheckValidNetmask(WidthMask(k)) && Ones(WidthMask(k)) as int == k && (WidthMask(k) == 0 <==> k == 0)
    {
      WidthMaskIsValid(k);
    }
  }
}
