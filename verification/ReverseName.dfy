// plugin/coredns/handler.go, reverseToIP: from a reverse DNS name back to the address.
module ReverseName {
  import opened Wrappers
  import opened Text
  import opened Net
  import opened IPText
  import Hostname

  const SUFFIX4: string := ".in-addr.arpa"
  const SUFFIX6: string := ".ip6.arpa"

  // --- specification ---

  function Reversed(parts: seq<string>): seq<string> {
    if parts == [] then [] else Reversed(parts[1..]) + [parts[0]]
  }

  /** The pieces joined in fours with a colon after each full four but the last. */
  function Grouped(parts: seq<string>): string {
    if parts == [] then ""
    else
      Grouped(parts[..|parts| - 1]) + (if |parts| > 1 && (|parts| - 1) % 4 == 0 then ":" else "") + parts[|parts| - 1]
  }

  /** What reverseToIP makes of a name. */
  function ReverseOf(name0: string): IP {
    var name := TrimSuffix(name0, ".");
    if HasSuffix(name, SUFFIX4) then
      var parts := Split(TrimSuffix(name, SUFFIX4), '.');
      if |parts| != 4 then NoIP else ParseIP(Join(Reversed(parts), "."))
    else if HasSuffix(name, SUFFIX6) then
      var parts := Split(TrimSuffix(name, SUFFIX6), '.');
      if |parts| != 32 then NoIP else ParseIP(Grouped(Reversed(parts)))
    else NoIP
  }

  lemma {:induction false} ReversedAt(parts: seq<string>, k: nat)
    requires k < |parts|
    ensures |Reversed(parts)| == |parts| && Reversed(parts)[k] == parts[|parts| - 1 - k]
    decreases |parts|
  {
    if |parts| == 1 {
      assert Reversed(parts[1..]) == [];
    } else {
      ReversedAt(parts[1..], if k < |parts| - 1 then k else 0);
    }
  }

  lemma {:induction false} ReversedLength(parts: seq<string>)
    ensures |Reversed(parts)| == |parts|
    decreases |parts|
  {
    if parts != [] {
      ReversedLength(parts[1..]);
    }
  }

  // --- the code ---

  /** The swap loop of reverseToIP. */
  method ReverseInPlace(parts: array<string>)
    modifies parts
    ensures parts[..] == Reversed(old(parts[..]))
  {
    var i, j := 0, parts.Length - 1;
    while i < j
      invariant 0 <= i && i + j == parts.Length - 1
      invariant i <= j + 1
      invariant forall k :: 0 <= k < i ==> parts[k] == old(parts[parts.Length - 1 - k])
      invariant forall k :: j < k < parts.Length ==> parts[k] == old(parts[parts.Length - 1 - k])
      invariant forall k :: i <= k <= j ==> parts[k] == old(parts[k])
    {
      parts[i], parts[j] := parts[j], parts[i];
      i, j := i + 1, j - 1;
    }
    ghost var was := old(parts[..]);
    ReversedLength(was);
    forall k | 0 <= k < parts.Length ensures parts[..][k] == Reversed(was)[k] {
      ReversedAt(was, k);
      assert parts[k] == old(parts[parts.Length - 1 - k]);
    }
  }

  /** The accumulation loop of reverseToIP for ip6.arpa names. */
  method GroupNibbles(parts: seq<string>) returns (text: string)
    requires |parts| == 32
    ensures text == Grouped(Reversed(parts))
  {
    ReversedLength(parts);
    ghost var rev := Reversed(parts);
    text := "";
    var i := |parts| - 1;
    while i >= 0
      invariant -1 <= i < |parts|
      invariant text == Grouped(rev[..|parts| - 1 - i]) + (if i >= 0 && i < 31 && (31 - i) % 4 == 0 then ":" else "")
    {
      ghost var n := |parts| - 1 - i;
      ReversedAt(parts, n);
      assert rev[..n + 1][..n] == rev[..n];
      text := text + parts[i];
      if (|parts| - i) % 4 == 0 && i > 0 {
        text := text + ":";
      }
      i := i - 1;
    }
    assert rev[..32] == rev;
  }

  /** reverseToIP */
  method ReverseToIP(name0: string) returns (ip: IP)
    ensures ip == ReverseOf(name0)
  {
    hide ParseIP, Join, Split, Reversed, Grouped;
    var name := TrimSuffix(name0, ".");
    if HasSuffix(name, SUFFIX4) {
      var parts := Split(TrimSuffix(name, SUFFIX4), '.');
      if |parts| != 4 {
        return NoIP;
      }
      var a := new string[|parts|](i requires 0 <= i < |parts| => parts[i]);
      assert a[..] == parts;
      ReverseInPlace(a);
      return ParseIP(Join(a[..], "."));
    }
    if HasSuffix(name, SUFFIX6) {
      var parts := Split(TrimSuffix(name, SUFFIX6), '.');
      if |parts| != 32 {
        return NoIP;
      }
      var text := GroupNibbles(parts);
      return ParseIP(text);
    }
    return NoIP;
  }

  // --- the in-addr.arpa round trip (section 3.5 of RFC 1035) ---

  /** The four octets of an address, most significant first. */
  function OctetsOf(v: u32): seq<nat> {
    [v / 0x100_0000, v / 0x1_0000 % 0x100, v / 0x100 % 0x100, v % 0x100]
  }

  function Labels4(v: u32): seq<string> {
    var o := OctetsOf(v);
    [Hostname.Decimal(o[3]), Hostname.Decimal(o[2]), Hostname.Decimal(o[1]), Hostname.Decimal(o[0])]
  }

  function ReverseName4(v: u32): string {
    Join(Labels4(v), ".") + SUFFIX4
  }

  lemma DecimalIsOctet(n: nat)
    requires n < 256
    ensures Octet(Hostname.Decimal(n)) == Some(n)
    ensures '.' !in Hostname.Decimal(n) && ':' !in Hostname.Decimal(n) && '%' !in Hostname.Decimal(n)
  {
    Hostname.NumberOfDecimal(n);
    DecimalShape(n);
    hide Hostname.Number, Hostname.Decimal;
  }

  /** A decimal number below 1000 has at most three digits and starts with a zero only when it is zero. */
  lemma DecimalShape(n: nat)
    requires n < 1000
    ensures var d := Hostname.Decimal(n); |d| <= 3 && (d[0] != '0' || |d| == 1)
  {
    if n >= 10 {
      var q := n / 10;
      assert Hostname.Decimal(n) == Hostname.Decimal(q) + [Hostname.Digit(n % 10)];
      if q >= 10 {
        assert q / 10 < 10;
        assert Hostname.Decimal(q) == Hostname.Decimal(q / 10) + [Hostname.Digit(q % 10)];
        assert Hostname.Decimal(q / 10) == [Hostname.Digit(q / 10)];
      } else {
        assert Hostname.Decimal(q) == [Hostname.Digit(q)];
      }
    } else {
      assert Hostname.Decimal(n) == [Hostname.Digit(n)];
    }
  }

  lemma OctetsCombine(v: u32)
    ensures var o := OctetsOf(v);
            && o[0] < 256 && o[1] < 256 && o[2] < 256 && o[3] < 256
            && FromOctets(o[0], o[1], o[2], o[3]) == V4(v)
  {
    assert v / 0x100 / 0x100 == v / 0x1_0000 && v / 0x1_0000 / 0x100 == v / 0x100_0000;
  }

  /** The dotted text of an address parses to it. */
  lemma DottedParses(v: u32)
    ensures var o := OctetsOf(v);
            ParseIP(Join([Hostname.Decimal(o[0]), Hostname.Decimal(o[1]),
                          Hostname.Decimal(o[2]), Hostname.Decimal(o[3])], "."))
            == V4(v)
  {
    var o := OctetsOf(v);
    OctetsCombine(v);
    DecimalIsOctet(o[0]);
    DecimalIsOctet(o[1]);
    DecimalIsOctet(o[2]);
    DecimalIsOctet(o[3]);
    hide Octet, Hostname.Decimal, FromOctets, OctetsOf, IndexOf, Parse6;
    var fs := [Hostname.Decimal(o[0]), Hostname.Decimal(o[1]), Hostname.Decimal(o[2]), Hostname.Decimal(o[3])];
    SplitOfJoin(fs, '.');
    var s := Join(fs, ".");
    JoinHasDot(fs);
    JoinAvoids(fs, ':');
    JoinAvoids(fs, '%');
    IndexOfAbsent(s, ':');
    DotFirst(s);
    hide Join;
    assert Octets(s) == Some([o[0], o[1], o[2], o[3]]);
  }

  lemma DotFirst(s: string)
    requires '.' in s
    ensures IndexOf(s, '.') < |s|
  {
    if IndexOf(s, '.') == |s| {
      IndexOfIsAbsent(s, '.');
    }
  }

  lemma {:induction false} IndexOfIsAbsent(s: string, c: char)
    requires IndexOf(s, c) == |s|
    ensures c !in s
    decreases |s|
  {
    assert s[..|s|] == s;
  }

  lemma JoinHasDot(fs: seq<string>)
    requires |fs| > 1
    ensures '.' in Join(fs, ".")
  {
    var j := Join(fs, ".");
    assert j == fs[0] + "." + Join(fs[1..], ".");
    assert j[|fs[0]|] == '.';
  }

  lemma {:induction false} JoinAvoids(fs: seq<string>, c: char)
    requires c != '.' && forall i :: 0 <= i < |fs| ==> c !in fs[i]
    ensures c !in Join(fs, ".")
    decreases |fs|
  {
    if |fs| > 1 {
      JoinAvoids(fs[1..], c);
    }
  }

  /** What precedes a suffix comes back when the suffix is trimmed. */
  lemma TrimAppended(a: string, suffix: string)
    ensures HasSuffix(a + suffix, suffix) && TrimSuffix(a + suffix, suffix) == a
  {
    assert (a + suffix)[|a|..] == suffix && (a + suffix)[..|a|] == a;
  }

  /** reverseToIP gives back the address of every in-addr.arpa name, with or without the trailing dot. */
  lemma ReverseNameRoundTrip4(v: u32)
    ensures ReverseOf(ReverseName4(v)) == V4(v)
    ensures ReverseOf(ReverseName4(v) + ".") == V4(v)
  {
    var labels, o := Labels4(v), OctetsOf(v);
    OctetsCombine(v);
    DecimalIsOctet(o[0]);
    DecimalIsOctet(o[1]);
    DecimalIsOctet(o[2]);
    DecimalIsOctet(o[3]);
    DottedParses(v);
    var d0, d1 := Hostname.Decimal(o[0]), Hostname.Decimal(o[1]);
    var d2, d3 := Hostname.Decimal(o[2]), Hostname.Decimal(o[3]);
    hide Hostname.Decimal, Octet, ParseIP, FromOctets, OctetsOf;
    ReverseFour(d3, d2, d1, d0);
    SplitOfJoin(labels, '.');
    hide Reversed, Split;
    NoTrailingDot(Join(labels, "."), SUFFIX4);
    TrimAppended(Join(labels, "."), SUFFIX4);
    TrimAppended(ReverseName4(v), ".");
  }

  lemma ReverseFour(a: string, b: string, c: string, d: string)
    ensures Reversed([a, b, c, d]) == [d, c, b, a]
  {
    assert [a, b, c, d][1..] == [b, c, d] && [b, c, d][1..] == [c, d] && [c, d][1..] == [d] && [d][1..] == [];
    assert Reversed([d]) == [d] && Reversed([c, d]) == [d, c] && Reversed([b, c, d]) == [d, c, b];
  }

  /** A name that ends in one of the two suffixes does not end in a dot. */
  lemma NoTrailingDot(a: string, suffix: string)
    requires suffix == SUFFIX4 || suffix == SUFFIX6
    ensures TrimSuffix(a + suffix, ".") == a + suffix
  {
    var s := a + suffix;
    assert s[|s| - 1] == suffix[|suffix| - 1] == 'a';
  }

  // --- the ip6.arpa round trip (section 2.5 of RFC 3596) ---

  function HexChar(n: nat): char
    requires n < 16
  {
    if n < 10 then Hostname.Digit(n) else (('a' as int) + n - 10) as char
  }

  /** The last n nibbles of v as labels, most significant first. */
  function Labels6(v: nat, n: nat): seq<string> {
    if n == 0 then [] else Labels6(v / 16, n - 1) + [[HexChar(v % 16)]]
  }

  function ReverseName6(w: u128): string {
    Join(Reversed(Labels6(w, 32)), ".") + SUFFIX6
  }

  /** A 16-bit group in four hexadecimal digits. */
  function Hex4(g: nat): (h: string)
    ensures |h| == 4
  {
    [HexChar(g / 4096 % 16), HexChar(g / 256 % 16), HexChar(g / 16 % 16), HexChar(g % 16)]
  }

  /** The last k groups of v, most significant first. */
  function GroupsOf(v: nat, k: nat): seq<nat> {
    if k == 0 then [] else GroupsOf(v / 0x1_0000, k - 1) + [v % 0x1_0000]
  }

  /** The text before the next group: nothing, or what there is and a colon. */
  function Before(text: string, some: bool): string {
    if some then text + ":" else text
  }

  /** Groups in full, separated by colons. */
  function GroupText(gs: seq<nat>): string {
    if gs == [] then "" else if |gs| == 1 then Hex4(gs[0]) else Hex4(gs[0]) + ":" + GroupText(gs[1..])
  }

  lemma {:induction false} GroupTextSnoc(gs: seq<nat>, g: nat)
    requires gs != []
    ensures GroupText(gs + [g]) == GroupText(gs) + ":" + Hex4(g)
    decreases |gs|
  {
    hide Hex4;
    assert (gs + [g])[1..] == gs[1..] + [g];
    if |gs| > 1 {
      GroupTextSnoc(gs[1..], g);
      assert Hex4(gs[0]) + ":" + (GroupText(gs[1..]) + ":" + Hex4(g))
             == Hex4(gs[0]) + ":" + GroupText(gs[1..]) + ":" + Hex4(g);
    }
  }

  lemma FourNibbles(v: nat)
    ensures v / 16 / 16 / 16 / 16 == v / 0x1_0000
    ensures var g := v % 0x1_0000;
            && g / 4096 % 16 == v / 16 / 16 / 16 % 16
            && g / 256 % 16 == v / 16 / 16 % 16
            && g / 16 % 16 == v / 16 % 16
            && g % 16 == v % 16
  {
    var q, g := v / 0x1_0000, v % 0x1_0000;
    OneNibble(v, 4096 * q, g);
    OneNibble(v / 16, 256 * q, g / 16);
    OneNibble(v / 16 / 16, 16 * q, g / 16 / 16);
    OneNibble(v / 16 / 16 / 16, q, g / 16 / 16 / 16);
    assert g / 16 / 16 == g / 256 && g / 256 / 16 == g / 4096 && g / 4096 / 16 == 0;
  }

  lemma OneNibble(v: nat, q: nat, g: nat)
    requires v == 16 * q + g
    ensures v / 16 == q + g / 16 && v % 16 == g % 16
  {
  }

  lemma LabelsSize(v: nat, n: nat)
    ensures |Labels6(v, n)| == n
    ensures forall i :: 0 <= i < n ==> |Labels6(v, n)[i]| == 1 && HexValue(Labels6(v, n)[i][0]).Some?
  {
  }

  lemma GroupedSnoc(parts: seq<string>, p: string)
    ensures Grouped(parts + [p]) == Grouped(parts) + (if parts != [] && |parts| % 4 == 0 then ":" else "") + p
  {
    assert (parts + [p])[..|parts|] == parts;
  }

  lemma LabelsOfGroup(v: nat, n: nat)
    ensures var h := Hex4(v % 0x1_0000);
            Labels6(v, n + 4) == Labels6(v / 0x1_0000, n) + [[h[0]]] + [[h[1]]] + [[h[2]]] + [[h[3]]]
  {
    FourNibbles(v);
    var a, b, c := v / 16, v / 16 / 16, v / 16 / 16 / 16;
    hide HexChar;
    assert Labels6(v, n + 4) == Labels6(a, n + 3) + [[HexChar(v % 16)]];
    assert Labels6(a, n + 3) == Labels6(b, n + 2) + [[HexChar(a % 16)]];
    assert Labels6(b, n + 2) == Labels6(c, n + 1) + [[HexChar(b % 16)]];
    assert Labels6(c, n + 1) == Labels6(c / 16, n) + [[HexChar(c % 16)]];
  }

  lemma GroupedPlain(parts: seq<string>, p: string)
    requires |parts| % 4 != 0
    ensures Grouped(parts + [p]) == Grouped(parts) + p
  {
    GroupedSnoc(parts, p);
    assert Grouped(parts) + "" == Grouped(parts);
  }

  lemma GroupedColon(parts: seq<string>, p: string)
    requires |parts| % 4 == 0
    ensures Grouped(parts + [p]) == Before(Grouped(parts), parts != []) + p
  {
    GroupedSnoc(parts, p);
    assert Grouped(parts) + "" == Grouped(parts);
  }

  lemma GroupedFour(parts: seq<string>, a: char, b: char, c: char, d: char)
    requires |parts| % 4 == 0
    ensures Grouped(parts + [[a]] + [[b]] + [[c]] + [[d]])
            == Before(Grouped(parts), parts != []) + [a] + [b] + [c] + [d]
  {
    hide Grouped, Before;
    GroupedColon(parts, [a]);
    GroupedPlain(parts + [[a]], [b]);
    GroupedPlain(parts + [[a]] + [[b]], [c]);
    GroupedPlain(parts + [[a]] + [[b]] + [[c]], [d]);
  }

  lemma GroupTextGrows(gs: seq<nat>, g: nat)
    ensures GroupText(gs + [g]) == Before(GroupText(gs), gs != []) + Hex4(g)
  {
    hide Hex4;
    if gs == [] {
      assert gs + [g] == [g] && "" + Hex4(g) == Hex4(g);
    } else {
      GroupTextSnoc(gs, g);
    }
  }

  lemma LabelsStep(v: nat, k: nat)
    ensures var g, l := v % 0x1_0000, Labels6(v / 0x1_0000, 4 * k);
            Grouped(Labels6(v, 4 * k + 4)) == Before(Grouped(l), l != []) + Hex4(g)
  {
    hide Grouped, Hex4, Labels6, Before;
    var g, l := v % 0x1_0000, Labels6(v / 0x1_0000, 4 * k);
    LabelsOfGroup(v, 4 * k);
    LabelsSize(v / 0x1_0000, 4 * k);
    FourOf(Before(Grouped(l), l != []), l, Hex4(g));
  }

  lemma FourOf(text: string, l: seq<string>, h: string)
    requires |h| == 4 && |l| % 4 == 0 && text == Before(Grouped(l), l != [])
    ensures Grouped(l + [[h[0]]] + [[h[1]]] + [[h[2]]] + [[h[3]]]) == text + h
  {
    hide Grouped, Before;
    GroupedFour(l, h[0], h[1], h[2], h[3]);
    assert h == [h[0]] + [h[1]] + [h[2]] + [h[3]];
    assert text + h == text + [h[0]] + [h[1]] + [h[2]] + [h[3]];
  }

  lemma GroupsOfStep(v: nat, k: nat)
    ensures GroupsOf(v, k + 1) == GroupsOf(v / 0x1_0000, k) + [v % 0x1_0000]
  {
  }

  lemma GroupedLabelsStep(v: nat, k: nat)
    requires Grouped(Labels6(v / 0x1_0000, 4 * k)) == GroupText(GroupsOf(v / 0x1_0000, k))
    ensures Grouped(Labels6(v, 4 * k + 4)) == GroupText(GroupsOf(v, k + 1))
  {
    hide Grouped, Hex4, Labels6, GroupText, GroupsOf, Before;
    var u, g := v / 0x1_0000, v % 0x1_0000;
    LabelsStep(v, k);
    GroupsSize(u, k);
    LabelsSize(u, 4 * k);
    GroupsOfStep(v, k);
    GroupTextGrows(GroupsOf(u, k), g);
  }

  lemma GroupedNothing(v: nat)
    ensures Grouped(Labels6(v, 0)) == GroupText(GroupsOf(v, 0))
  {
  }

  /** Grouping the nibbles in fours gives the groups in full. */
  lemma {:induction false} GroupedLabels(v: nat, k: nat)
    ensures Grouped(Labels6(v, 4 * k)) == GroupText(GroupsOf(v, k))
    decreases k
  {
    GroupedNothing(v);
    hide Grouped, Hex4, Labels6, GroupText, GroupsOf;
    if k > 0 {
      GroupedLabels(v / 0x1_0000, k - 1);
      GroupedLabelsStep(v, k - 1);
      assert 4 * k == 4 * (k - 1) + 4 && k - 1 + 1 == k;
    }
  }

  lemma GroupsSize(v: nat, k: nat)
    ensures |GroupsOf(v, k)| == k
  {
  }

  // --- reading the groups back ---

  lemma HexCharReadsBack(n: nat)
    requires n < 16
    ensures HexValue(HexChar(n)) == Some(n)
    ensures HexChar(n) != ':' && HexChar(n) != '.' && HexChar(n) != '%'
  {
  }

  lemma HexNumberOfFour(a: char, b: char, c: char, d: char)
    requires HexValue(a).Some? && HexValue(b).Some? && HexValue(c).Some? && HexValue(d).Some?
    ensures HexNumber([a, b, c, d])
            == 16 * (16 * (16 * HexValue(a).value + HexValue(b).value) + HexValue(c).value) + HexValue(d).value
  {
    hide HexValue;
    assert [a, b, c, d][..3] == [a, b, c] && [a, b, c][..2] == [a, b] && [a, b][..1] == [a] && [a][..0] == "";
    assert HexNumber([a]) == HexValue(a).value;
    assert HexNumber([a, b]) == 16 * HexValue(a).value + HexValue(b).value;
    assert HexNumber([a, b, c]) == 16 * (16 * HexValue(a).value + HexValue(b).value) + HexValue(c).value;
  }

  lemma NibblesCombine(g: nat)
    requires g < 0x1_0000
    ensures 16 * (16 * (16 * (g / 4096 % 16) + g / 256 % 16) + g / 16 % 16) + g % 16 == g
  {
  }

  lemma Hex4ReadsBack(g: nat)
    requires g < 0x1_0000
    ensures HexNumber(Hex4(g)) == g
    ensures forall i :: 0 <= i < 4 ==>
                          var c := Hex4(g)[i]; HexValue(c).Some? && c != ':' && c != '.' && c != '%'
  {
    HexCharReadsBack(g / 4096 % 16);
    HexCharReadsBack(g / 256 % 16);
    HexCharReadsBack(g / 16 % 16);
    HexCharReadsBack(g % 16);
    NibblesCombine(g);
    hide HexChar, HexValue, HexNumber;
    HexNumberOfFour(Hex4(g)[0], Hex4(g)[1], Hex4(g)[2], Hex4(g)[3]);
  }

  lemma HexRunOfFour(h: string, rest: string)
    requires |h| == 4 && forall i :: 0 <= i < 4 ==> HexValue(h[i]).Some?
    requires rest == "" || HexValue(rest[0]).None?
    ensures HexRun(h + rest) == 4
  {
    hide HexValue;
    var s := h + rest;
    assert s[1..][1..] == s[2..] && s[2..][1..] == s[3..] && s[3..][1..] == s[4..] && s[4..] == rest;
    assert HexRun(s[4..]) == 0;
    assert HexRun(s[3..]) == 1 && HexRun(s[2..]) == 2 && HexRun(s[1..]) == 3;
  }

  ghost predicate Small(gs: seq<nat>) {
    forall i :: 0 <= i < |gs| ==> gs[i] < 0x1_0000
  }

  lemma GroupTextStarts(gs: seq<nat>)
    requires gs != [] && Small(gs)
    ensures var t := GroupText(gs); |t| >= 4 && t[..4] == Hex4(gs[0]) && HexValue(t[0]).Some? && t[0] != ':'
  {
    Hex4ReadsBack(gs[0]);
    hide Hex4, HexValue;
    assert GroupText(gs)[0] == Hex4(gs[0])[0];
  }

  lemma ParseStep(h: string, tail: string, read: seq<int>)
    requires |h| == 4 && forall i :: 0 <= i < 4 ==> HexValue(h[i]).Some?
    requires tail != "" && tail[0] != ':' && |read| < 7
    ensures ParseGroups(h + (":" + tail), Groups(read, None)) == ParseGroups(tail, Groups(read + [HexNumber(h)], None))
  {
    assert HexValue(':').None?;
    HexRunOfFour(h, ":" + tail);
    hide HexValue, HexNumber, HexRun, Octets;
    var s := h + (":" + tail);
    var t := s[4..];
    assert s[..4] == h && t == ":" + tail && t[1..] == tail;
    assert s[4] == ':' && t[1] == tail[0];
  }

  lemma ParseLast(h: string, read: seq<int>)
    requires |h| == 4 && forall i :: 0 <= i < 4 ==> HexValue(h[i]).Some?
    requires |read| == 7
    ensures ParseGroups(h, Groups(read, None)) == Some(Groups(read + [HexNumber(h)], None))
  {
    HexRunOfFour(h, "");
    hide HexValue, HexNumber, HexRun, Octets;
    assert h + "" == h && h[4..] == "" && h[..4] == h;
  }

  lemma GroupTextCons(gs: seq<nat>)
    requires gs != []
    ensures GroupText(gs) == if |gs| == 1 then Hex4(gs[0]) else Hex4(gs[0]) + (":" + GroupText(gs[1..]))
  {
    hide Hex4;
  }

  /** The parser reads full groups back. */
  lemma {:induction false} GroupsParse(gs: seq<nat>, read: seq<int>)
    requires gs != [] && Small(gs) && |read| + |gs| == 8
    ensures ParseGroups(GroupText(gs), Groups(read, None)) == Some(Groups(read + gs, None))
    decreases |gs|
  {
    var h := Hex4(gs[0]);
    Hex4ReadsBack(gs[0]);
    GroupTextCons(gs);
    hide ParseGroups, Hex4, HexValue, HexNumber, GroupText;
    if |gs| == 1 {
      ParseLast(h, read);
      assert gs == [gs[0]];
    } else {
      var rest := gs[1..];
      GroupTextStarts(rest);
      ParseStep(h, GroupText(rest), read);
      GroupsParse(rest, read + [gs[0]]);
      MoveHead(read, gs);
    }
  }

  lemma MoveHead(read: seq<int>, gs: seq<int>)
    requires gs != []
    ensures read + [gs[0]] + gs[1..] == read + gs
  {
  }

  /** What is left of v beyond its last k groups. */
  function Beyond(v: nat, k: nat): nat {
    if k == 0 then v else Beyond(v / 0x1_0000, k - 1)
  }

  lemma {:induction false} GroupsCombine(v: nat, k: nat)
    requires Beyond(v, k) == 0
    ensures Combine(GroupsOf(v, k)) == v && |GroupsOf(v, k)| == k && Small(GroupsOf(v, k))
    decreases k
  {
    if k > 0 {
      GroupsCombine(v / 0x1_0000, k - 1);
      var gs := GroupsOf(v / 0x1_0000, k - 1);
      assert (gs + [v % 0x1_0000])[..|gs|] == gs;
    }
  }

  lemma EightGroups(w: u128)
    ensures Beyond(w, 8) == 0
  {
    var a := w / 0x1_0000;
    var b := a / 0x1_0000;
    var c := b / 0x1_0000;
    var d := c / 0x1_0000;
    assert d < 0x1_0000_0000_0000_0000;
    assert Beyond(w, 8) == Beyond(a, 7) == Beyond(b, 6) == Beyond(c, 5) == Beyond(d, 4);
    var e := d / 0x1_0000;
    var f := e / 0x1_0000;
    var g := f / 0x1_0000;
    assert g < 0x1_0000;
    assert Beyond(d, 4) == Beyond(e, 3) == Beyond(f, 2) == Beyond(g, 1) == Beyond(g / 0x1_0000, 0);
  }

  lemma {:induction false} GroupTextChars(gs: seq<nat>)
    requires Small(gs)
    ensures '.' !in GroupText(gs) && '%' !in GroupText(gs)
    ensures |gs| > 1 ==> ':' in GroupText(gs)
    decreases |gs|
  {
    if gs != [] {
      Hex4ReadsBack(gs[0]);
      hide Hex4, HexValue;
      if |gs| > 1 {
        GroupTextChars(gs[1..]);
        assert GroupText(gs)[4] == ':';
      }
    }
  }

  lemma FullTextParses(w: u128)
    ensures ParseIP(GroupText(GroupsOf(w, 8))) == From128(w)
  {
    var gs := GroupsOf(w, 8);
    var s := GroupText(gs);
    EightGroups(w);
    GroupsCombine(w, 8);
    GroupTextChars(gs);
    GroupTextStarts(gs);
    GroupsParse(gs, []);
    ColonDecides(s);
    hide GroupsOf, GroupText, ParseGroups, Beyond, Combine, IndexOf;
    assert [] + gs == gs;
  }

  lemma ColonDecides(s: string)
    requires '.' !in s && ':' in s
    ensures IndexOf(s, '.') == |s| && IndexOf(s, ':') < |s|
  {
    IndexOfAbsent(s, '.');
    if IndexOf(s, ':') == |s| {
      IndexOfIsAbsent(s, ':');
    }
  }

  lemma {:induction false} ReversedTwice(parts: seq<string>)
    ensures Reversed(Reversed(parts)) == parts
  {
    ReversedLength(parts);
    ReversedLength(Reversed(parts));
    forall k | 0 <= k < |parts| ensures Reversed(Reversed(parts))[k] == parts[k] {
      ReversedAt(Reversed(parts), k);
      ReversedAt(parts, |parts| - 1 - k);
    }
  }

  lemma ReversedLabelsAreDotFree(w: nat)
    ensures var r := Reversed(Labels6(w, 32)); |r| == 32 && forall i :: 0 <= i < |r| ==> '.' !in r[i]
  {
    var l := Labels6(w, 32);
    LabelsSize(w, 32);
    ReversedLength(l);
    forall i | 0 <= i < 32 ensures '.' !in Reversed(l)[i] {
      ReversedAt(l, i);
      assert HexValue('.').None?;
    }
  }

  /** reverseToIP gives back the address of every ip6.arpa name, with or without the trailing dot. */
  lemma ReverseNameRoundTrip6(w: u128)
    ensures ReverseOf(ReverseName6(w)) == From128(w)
    ensures ReverseOf(ReverseName6(w) + ".") == From128(w)
  {
    var l := Labels6(w, 32);
    ReversedTwice(l);
    ReversedLabelsAreDotFree(w);
    GroupedLabels(w, 8);
    FullTextParses(w);
    hide Labels6, Reversed, Grouped, GroupsOf, GroupText, ParseIP, Join;
    SplitOfJoin(Reversed(l), '.');
    hide Split;
    var j := Join(Reversed(l), ".");
    NoTrailingDot(j, SUFFIX6);
    TrimAppended(j, SUFFIX6);
    TrimAppended(j + SUFFIX6, ".");
    NotSuffix4(j);
  }

  lemma NotSuffix4(a: string)
    ensures !HasSuffix(a + SUFFIX6, SUFFIX4)
  {
    var s := a + SUFFIX6;
    assert s[|s| - 6] == SUFFIX6[|SUFFIX6| - 6] == '6';
    assert SUFFIX4[|SUFFIX4| - 6] == 'r';
  }
}
