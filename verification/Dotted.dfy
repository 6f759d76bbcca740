// Which texts are IPv4 addresses, and which reverse names lead to them: exactly the canonical ones.
module Dotted {
  import opened Wrappers
  import opened Text
  import opened Net
  import opened IPText
  import opened ReverseName
  import Hostname

  /** The four octets in decimal, most significant first, with dots between them. */
  function DottedText(v: u32): string {
    var o := OctetsOf(v);
    Join([Hostname.Decimal(o[0]), Hostname.Decimal(o[1]), Hostname.Decimal(o[2]), Hostname.Decimal(o[3])], ".")
  }

  // --- canonical decimals ---

  predicate Canonical(f: string) {
    f != "" && Hostname.AllDigits(f) && (f[0] != '0' || |f| == 1)
  }

  lemma {:induction false} NumberPositive(f: string)
    requires Hostname.AllDigits(f) && f != "" && f[0] != '0'
    ensures Hostname.Number(f) > 0
    decreases |f|
  {
    if |f| > 1 {
      NumberPositive(f[..|f| - 1]);
    } else {
      assert f[..0] == "";
    }
  }

  lemma DigitReads(c: char)
    requires IsDigit(c)
    ensures 0 <= Hostname.DigitValue(c) < 10 && Hostname.Digit(Hostname.DigitValue(c)) == c
  {
  }

  lemma DecimalSnoc(n: nat, d: nat)
    requires n > 0 && d < 10
    ensures Hostname.Decimal(10 * n + d) == Hostname.Decimal(n) + [Hostname.Digit(d)]
  {
    var m := 10 * n + d;
    assert m / 10 == n && m % 10 == d;
  }

  lemma NumberSnoc(init: string, c: char)
    ensures Hostname.Number(init + [c]) == 10 * Hostname.Number(init) + Hostname.DigitValue(c)
  {
    assert (init + [c])[..|init|] == init;
  }

  lemma OneDigit(c: char)
    requires IsDigit(c)
    ensures Hostname.Number([c]) >= 0 && Hostname.Decimal(Hostname.Number([c])) == [c]
  {
    DigitReads(c);
    NumberSnoc("", c);
    assert "" + [c] == [c];
    var d := Hostname.DigitValue(c);
    assert Hostname.Decimal(d) == "" + [Hostname.Digit(d)];
  }

  lemma {:induction false} DecimalOfNumber(f: string)
    requires Canonical(f)
    ensures Hostname.Number(f) >= 0 && Hostname.Decimal(Hostname.Number(f)) == f
    decreases |f|
  {
    hide Hostname.Number, Hostname.Decimal, Hostname.Digit, Hostname.DigitValue;
    var last := |f| - 1;
    if last == 0 {
      assert f == [f[0]];
      OneDigit(f[0]);
    } else {
      var init, c := f[..last], f[last];
      assert f == init + [c];
      NumberPositive(init);
      DecimalOfNumber(init);
      DigitReads(c);
      NumberSnoc(init, c);
      DecimalSnoc(Hostname.Number(init), Hostname.DigitValue(c));
    }
  }

  /** A field of a dotted address is the decimal of its value. */
  lemma OctetIsDecimal(f: string)
    requires Octet(f).Some?
    ensures 0 <= Octet(f).value < 256 && f == Hostname.Decimal(Octet(f).value)
  {
    DecimalOfNumber(f);
    hide Hostname.Decimal, Hostname.Number;
  }

  lemma LowBytes(x: int, r: int)
    ensures 0 <= r < 0x100 ==> (x * 0x100 + r) / 0x100 == x && (x * 0x100 + r) % 0x100 == r
    ensures 0 <= r < 0x1_0000 ==> (x * 0x1_0000 + r) / 0x1_0000 == x
    ensures 0 <= r < 0x100_0000 ==> (x * 0x100_0000 + r) / 0x100_0000 == x
  {
  }

  lemma OctetsAreOf(a: int, b: int, c: int, d: int)
    requires 0 <= a < 256 && 0 <= b < 256 && 0 <= c < 256 && 0 <= d < 256
    ensures FromOctets(a, b, c, d).V4? && OctetsOf(FromOctets(a, b, c, d).v) == [a, b, c, d]
  {
    LowBytes((a * 256 + b) * 256 + c, d);
    LowBytes(a * 256 + b, c * 256 + d);
    LowBytes(a * 256 + b, c);
    LowBytes(a, (b * 256 + c) * 256 + d);
    LowBytes(a, b);
  }

  lemma DottedOf(v: u32, fs: seq<string>)
    requires |fs| == 4 && forall i :: 0 <= i < 4 ==> OctetsOf(v)[i] >= 0 && fs[i] == Hostname.Decimal(OctetsOf(v)[i])
    ensures DottedText(v) == Join(fs, ".")
  {
    hide Hostname.Decimal, OctetsOf, Join;
    assert fs == [fs[0], fs[1], fs[2], fs[3]];
  }

  lemma FourFields(fs: seq<string>)
    requires |fs| == 4
    requires Octet(fs[0]).Some? && Octet(fs[1]).Some? && Octet(fs[2]).Some? && Octet(fs[3]).Some?
    ensures var ip := FromOctets(Octet(fs[0]).value, Octet(fs[1]).value, Octet(fs[2]).value, Octet(fs[3]).value);
            ip.V4? && Join(fs, ".") == DottedText(ip.v)
  {
    hide Octet, Hostname.Decimal, OctetsOf, FromOctets, Join, DottedText;
    OctetIsDecimal(fs[0]);
    OctetIsDecimal(fs[1]);
    OctetIsDecimal(fs[2]);
    OctetIsDecimal(fs[3]);
    var a, b, c, d := Octet(fs[0]).value, Octet(fs[1]).value, Octet(fs[2]).value, Octet(fs[3]).value;
    OctetsAreOf(a, b, c, d);
    DottedOf(FromOctets(a, b, c, d).v, fs);
  }

  lemma Parse4Canonical(s: string)
    ensures Parse4(s) == NoIP || (Parse4(s).V4? && s == DottedText(Parse4(s).v))
  {
    var fs := Split(s, '.');
    JoinOfSplit(s, '.');
    assert ['.'] == ".";
    hide Octet, FromOctets, Split, Join, DottedText;
    if Octets(s).Some? {
      FourFields(fs);
    }
  }

  lemma NoColonIndex(s: string)
    requires ':' !in s
    ensures IndexOf(s, ':') == |s|
  {
    IndexOfAbsent(s, ':');
  }

  /** A text without a colon is the address v if and only if it is v in dotted decimal, and else no address at all. */
  lemma DottedIff(s: string, v: u32)
    requires ':' !in s
    ensures ParseIP(s) == V4(v) <==> s == DottedText(v)
    ensures ParseIP(s) == NoIP || ParseIP(s).V4?
  {
    NoColonIndex(s);
    Parse4Canonical(s);
    DottedParses(v);
    hide Parse4, Parse6, IndexOf, OctetsOf, Hostname.Decimal, Join;
  }

  // --- reverse names ---

  lemma {:induction false} AllReversed(parts: seq<string>)
    ensures Reversed(Reversed(parts)) == parts
  {
    ReversedTwice(parts);
  }

  lemma ReversedFour(parts: seq<string>)
    requires |parts| == 4
    ensures Reversed(parts) == [parts[3], parts[2], parts[1], parts[0]]
  {
    assert parts == [parts[0], parts[1], parts[2], parts[3]];
    ReverseFour(parts[0], parts[1], parts[2], parts[3]);
  }

  lemma LabelsAreReversed(v: u32)
    ensures DottedText(v) == Join(Reversed(Labels4(v)), ".") && |Labels4(v)| == 4
  {
    ReversedFour(Labels4(v));
    hide Reversed, Hostname.Decimal, OctetsOf, Join;
  }

  lemma {:induction false} NoColonJoined(parts: seq<string>, c: char)
    requires c != '.' && forall i :: 0 <= i < |parts| ==> c !in parts[i]
    ensures c !in Join(parts, ".")
  {
    JoinAvoids(parts, c);
  }

  predicate Avoid(parts: seq<string>, c: char) {
    forall i :: 0 <= i < |parts| ==> c !in parts[i]
  }

  lemma AvoidCons(x: string, parts: seq<string>, c: char)
    requires c !in x && Avoid(parts, c)
    ensures Avoid([x] + parts, c)
  {
  }

  lemma {:induction false} SplitAvoids(s: string, c: char)
    requires c !in s || c == '.'
    ensures Avoid(Split(s, '.'), c)
    decreases |s|
  {
    hide Avoid;
    var k := IndexOf(s, '.');
    if k < |s| {
      SplitAvoids(s[k + 1..], c);
      AvoidCons(s[..k], Split(s[k + 1..], '.'), c);
    } else {
      assert s[..k] == s;
      assert Avoid([s], c) by {
        OneAvoids(s, c);
      }
    }
  }

  lemma OneAvoids(x: string, c: char)
    requires c !in x
    ensures Avoid([x], c)
  {
  }

  lemma ReversedPieces(parts: seq<string>, c: char)
    requires forall i :: 0 <= i < |parts| ==> c !in parts[i]
    ensures forall i :: 0 <= i < |Reversed(parts)| ==> c !in Reversed(parts)[i]
  {
    ReversedLength(parts);
    forall i | 0 <= i < |Reversed(parts)| ensures c !in Reversed(parts)[i] {
      ReversedAt(parts, i);
    }
  }

  /** Four labels without a colon are those of the address their reversal is the text of. */
  lemma LabelsIff(trimmed: string, v: u32)
    requires ':' !in trimmed && |Split(trimmed, '.')| == 4
    ensures ParseIP(Join(Reversed(Split(trimmed, '.')), ".")) == V4(v) <==> trimmed == Join(Labels4(v), ".")
  {
    var parts := Split(trimmed, '.');
    var text := Join(Reversed(parts), ".");
    SplitAvoids(trimmed, ':');
    SplitAvoids(trimmed, '.');
    ReversedPieces(parts, ':');
    ReversedPieces(parts, '.');
    LabelsAreReversed(v);
    LabelsDotFree(v);
    hide Split, Join, Reversed, ParseIP, Labels4, DottedText;
    ReversedLength(parts);
    NoColonJoined(Reversed(parts), ':');
    DottedIff(text, v);
    assert ['.'] == ".";
    JoinOfSplit(trimmed, '.');
    if text == DottedText(v) {
      SplitOfJoin(Reversed(parts), '.');
      SplitOfJoin(Reversed(Labels4(v)), '.');
      AllReversed(parts);
      AllReversed(Labels4(v));
    }
    if trimmed == Join(Labels4(v), ".") {
      SplitOfJoin(Labels4(v), '.');
    }
  }

  lemma LabelsDotFree(v: u32)
    ensures |Labels4(v)| == 4 && |Reversed(Labels4(v))| == 4
    ensures forall i :: 0 <= i < 4 ==> '.' !in Labels4(v)[i] && '.' !in Reversed(Labels4(v))[i]
  {
    OctetsCombine(v);
    var o := OctetsOf(v);
    DecimalIsOctet(o[0]);
    DecimalIsOctet(o[1]);
    DecimalIsOctet(o[2]);
    DecimalIsOctet(o[3]);
    ReversedFour(Labels4(v));
    hide Hostname.Decimal, Octet, OctetsOf, Reversed;
  }

  lemma {:induction false} FourLabels(v: u32)
    ensures |Split(Join(Labels4(v), "."), '.')| == 4 && ':' !in Join(Labels4(v), ".")
  {
    LabelsDotFree(v);
    LabelsColonFree(v);
    hide Labels4, Split, Join, Reversed;
    assert ['.'] == ".";
    SplitOfJoin(Labels4(v), '.');
    NoColonJoined(Labels4(v), ':');
  }

  lemma LabelsColonFree(v: u32)
    ensures |Labels4(v)| == 4 && forall i :: 0 <= i < 4 ==> ':' !in Labels4(v)[i]
  {
    OctetsCombine(v);
    var o := OctetsOf(v);
    DecimalIsOctet(o[0]);
    DecimalIsOctet(o[1]);
    DecimalIsOctet(o[2]);
    DecimalIsOctet(o[3]);
    hide Hostname.Decimal, Octet, OctetsOf;
  }

  lemma ReverseOfSuffix4(name: string)
    requires HasSuffix(TrimSuffix(name, "."), SUFFIX4)
    ensures var parts := Split(TrimSuffix(TrimSuffix(name, "."), SUFFIX4), '.');
            ReverseOf(name) == if |parts| == 4 then ParseIP(Join(Reversed(parts), ".")) else NoIP
  {
    hide Split, ParseIP, Join, Reversed, TrimSuffix, HasSuffix, Grouped;
  }

  lemma SuffixTrims(n: string, suffix: string)
    requires HasSuffix(n, suffix)
    ensures n == TrimSuffix(n, suffix) + suffix
    ensures forall a :: n == a + suffix ==> a == TrimSuffix(n, suffix)
  {
    forall a | n == a + suffix ensures a == TrimSuffix(n, suffix) {
      TrimAppended(a, suffix);
    }
  }

  /**
   * A name without a colon under in-addr.arpa leads to the address v if and only if, without one final dot, it is v's
   * reverse name. (With colons among its labels a name may also spell an IPv4-mapped address.)
   */
  lemma ReverseName4Iff(name: string, v: u32)
    requires HasSuffix(TrimSuffix(name, "."), SUFFIX4) && ':' !in name
    ensures ReverseOf(name) == V4(v) <==> TrimSuffix(name, ".") == ReverseName4(v)
  {
    var n := TrimSuffix(name, ".");
    var trimmed := TrimSuffix(n, SUFFIX4);
    ReverseOfSuffix4(name);
    SuffixTrims(n, SUFFIX4);
    assert ':' !in trimmed;
    FourLabels(v);
    hide Split, ParseIP, Join, Reversed, TrimSuffix, HasSuffix, Labels4, ReverseOf;
    if |Split(trimmed, '.')| == 4 {
      LabelsIff(trimmed, v);
    }
  }

  /** A name under neither suffix leads nowhere. */
  lemma OtherNamesLeadNowhere(name: string)
    requires !HasSuffix(TrimSuffix(name, "."), ".in-addr.arpa") && !HasSuffix(TrimSuffix(name, "."), ".ip6.arpa")
    ensures ReverseOf(name) == NoIP
  {
    hide TrimSuffix, HasSuffix, ParseIP, Join, Reversed, Grouped, Split;
  }
}
