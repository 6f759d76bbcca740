// internal/hostname/hostname.go: placeholder expansion, and when two expansions differ.
module Hostname {
  import opened Text

  /** The text starts with {id}. */
  predicate IdAt(p: string) {
    |p| >= 4 && p[0] == '{' && p[1] == 'i' && p[2] == 'd' && p[3] == '}'
  }

  /** strings.ReplaceAll(p, "{id}", id) */
  function ReplaceId(p: string, id: string): string
    decreases |p|
  {
    if p == "" then ""
    else if IdAt(p) then id + ReplaceId(p[4..], id)
    else [p[0]] + ReplaceId(p[1..], id)
  }

  /** The number of digits s starts with. */
  function DigitRun(s: string): (n: nat)
    ensures n <= |s|
  {
    if s == "" || !IsDigit(s[0]) then 0 else 1 + DigitRun(s[1..])
  }

  /** The regular expression \{0*(\d+)d\} matches at the start of t. */
  predicate PlaceholderAt(t: string) {
    t != "" && t[0] == '{' &&
    var n := DigitRun(t[1..]);
    n >= 1 && |t| >= n + 3 && t[n + 1] == 'd' && t[n + 2] == '}'
  }

  function DigitValue(c: char): int {
    (c as int) - ('0' as int)
  }

  /** The value of a text of digits. */
  function Number(ds: string): int {
    if ds == "" then 0 else 10 * Number(ds[..|ds| - 1]) + DigitValue(ds[|ds| - 1])
  }

  function Digit(n: nat): char
    requires n < 10
  {
    (('0' as int) + n) as char
  }

  function Decimal(n: nat): (ds: string)
    ensures ds != ""
    ensures forall i :: 0 <= i < |ds| ==> IsDigit(ds[i])
  {
    (if n < 10 then "" else Decimal(n / 10)) + [Digit(n % 10)]
  }

  function ZeroPad(ds: string, width: int): string
    decreases width - |ds|
  {
    if |ds| >= width then ds else ZeroPad("0" + ds, width)
  }

  /** A number zero-padded to a width that counts the sign. */
  function Padded(nid: int, width: int): string {
    if nid < 0 then "-" + ZeroPad(Decimal(-nid), width - 1) else ZeroPad(Decimal(nid), width)
  }

  /** fmt refuses a width above one million and then prints the number unpadded after a marker. */
  const MAX_WIDTH := 1_000_000

  /** fmt.Sprintf("%0*d", width, nid) */
  function Formatted(width: nat, nid: int): string {
    if width > MAX_WIDTH then "%!(BADWIDTH)" + Padded(nid, 0) else Padded(nid, width)
  }

  /** The width written in the placeholder that t starts with; leading zeros do not change it. */
  function WidthAt(t: string): nat
    requires PlaceholderAt(t)
  {
    var w := Number(t[1..1 + DigitRun(t[1..])]);
    if w < 0 then 0 else w
  }

  function AfterPlaceholder(t: string): (rest: string)
    requires PlaceholderAt(t)
    ensures |rest| < |t|
  {
    t[DigitRun(t[1..]) + 3..]
  }

  /** ReplaceAllStringFunc: every placeholder becomes the padded number, everything else stays. */
  function Expand(t: string, nid: int): string
    decreases |t|
  {
    if t == "" then ""
    else if PlaceholderAt(t) then Formatted(WidthAt(t), nid) + Expand(AfterPlaceholder(t), nid)
    else [t[0]] + Expand(t[1..], nid)
  }

  /** ExpandHostnamePattern */
  function ExpandHostnamePattern(pattern: string, nid: int, id: string): string {
    Expand(ReplaceId(pattern, id), nid)
  }

  predicate HasPlaceholder(t: string)
    decreases |t|
  {
    t != "" && (PlaceholderAt(t) || HasPlaceholder(t[1..]))
  }

  /** No {id} anywhere in the pattern. */
  predicate NoId(p: string)
    decreases |p|
  {
    p == "" || (!IdAt(p) && NoId(p[1..]))
  }

  // --- numbers survive formatting ---

  lemma {:induction false} NumberOfDecimal(n: nat)
    ensures Number(Decimal(n)) == n
    decreases n
  {
    if n >= 10 {
      NumberOfDecimal(n / 10);
      var ds := Decimal(n / 10);
      assert (ds + [Digit(n % 10)])[..|ds|] == ds;
    }
  }

  lemma {:induction false} NumberOfZero(ds: string)
    ensures Number("0" + ds) == Number(ds)
    decreases |ds|
  {
    if ds == "" {
      assert "0" + ds == "0" && "0"[..0] == "";
    } else {
      NumberOfZero(ds[..|ds| - 1]);
      assert ("0" + ds)[..|ds|] == "0" + ds[..|ds| - 1];
    }
  }

  lemma {:induction false} ZeroPadKeepsNumber(ds: string, width: int)
    requires forall i :: 0 <= i < |ds| ==> IsDigit(ds[i])
    ensures var z := ZeroPad(ds, width);
            && Number(z) == Number(ds)
            && (forall i :: 0 <= i < |z| ==> IsDigit(z[i]))
            && |z| == if |ds| >= width then |ds| else width
    decreases width - |ds|
  {
    if |ds| < width {
      NumberOfZero(ds);
      ZeroPadKeepsNumber("0" + ds, width);
    }
  }

  function Signed(s: string): int {
    if s != "" && s[0] == '-' then -Number(s[1..]) else Number(s)
  }

  lemma DigitsReadBack(n: nat, width: int)
    ensures var z := ZeroPad(Decimal(n), width);
            && Number(z) == n && z != "" && IsDigit(z[0]) && IsDigit(z[|z| - 1])
            && |z| == if |Decimal(n)| >= width then |Decimal(n)| else width
  {
    NumberOfDecimal(n);
    ZeroPadKeepsNumber(Decimal(n), width);
    hide ZeroPad, Number, IsDigit;
  }

  /** The padded text determines the number, and its length is the larger of the width and the number's own. */
  lemma PaddedReadsBack(nid: int, width: int)
    ensures Signed(Padded(nid, width)) == nid
    ensures |Padded(nid, width)| == if |Padded(nid, 0)| >= width then |Padded(nid, 0)| else width
    ensures var p := Padded(nid, width); p != "" && IsDigit(p[|p| - 1])
  {
    hide ZeroPad, Number, Decimal;
    if nid < 0 {
      DigitsReadBack(-nid, width - 1);
      DigitsReadBack(-nid, -1);
      assert Padded(nid, width)[1..] == ZeroPad(Decimal(-nid), width - 1);
    } else {
      DigitsReadBack(nid, width);
      DigitsReadBack(nid, 0);
    }
  }

  /** For one width, longer numbers never format shorter, and equal texts come from equal numbers. */
  lemma FormattedFacts(width: nat, m: int, n: int)
    ensures |Padded(m, 0)| <= |Padded(n, 0)| ==> |Formatted(width, m)| <= |Formatted(width, n)|
    ensures Formatted(width, m) == Formatted(width, n) ==> m == n
  {
    PaddedReadsBack(m, width);
    PaddedReadsBack(n, width);
    PaddedReadsBack(m, 0);
    PaddedReadsBack(n, 0);
    hide Padded, Signed;
    var bad := "%!(BADWIDTH)";
    assert (bad + Padded(m, 0))[|bad|..] == Padded(m, 0) && (bad + Padded(n, 0))[|bad|..] == Padded(n, 0);
  }

  lemma {:induction false} ExpandLengthMono(t: string, m: int, n: int)
    requires |Padded(m, 0)| <= |Padded(n, 0)|
    ensures |Expand(t, m)| <= |Expand(t, n)|
    decreases |t|
  {
    hide Padded, Formatted, PlaceholderAt;
    if t != "" {
      if PlaceholderAt(t) {
        FormattedFacts(WidthAt(t), m, n);
        ExpandLengthMono(AfterPlaceholder(t), m, n);
      } else {
        ExpandLengthMono(t[1..], m, n);
      }
    }
  }

  lemma {:induction false} ExpandInjectiveOrdered(t: string, m: int, n: int)
    requires HasPlaceholder(t) && Expand(t, m) == Expand(t, n) && |Padded(m, 0)| <= |Padded(n, 0)|
    ensures m == n
    decreases |t|
  {
    hide Padded, Formatted, PlaceholderAt;
    if PlaceholderAt(t) {
      var w, rest := WidthAt(t), AfterPlaceholder(t);
      FormattedFacts(w, m, n);
      ExpandLengthMono(rest, m, n);
      assert Expand(t, m)[..|Formatted(w, m)|] == Formatted(w, m);
      assert Expand(t, n)[..|Formatted(w, n)|] == Formatted(w, n);
    } else {
      assert Expand(t, m)[1..] == Expand(t[1..], m) && Expand(t, n)[1..] == Expand(t[1..], n);
      ExpandInjectiveOrdered(t[1..], m, n);
    }
  }

  lemma {:induction false} ExpandConstant(t: string, m: int, n: int)
    requires !HasPlaceholder(t)
    ensures Expand(t, m) == Expand(t, n)
    decreases |t|
  {
    hide PlaceholderAt;
    if t != "" {
      ExpandConstant(t[1..], m, n);
    }
  }

  /** Different numbers give different texts exactly when the text has a placeholder. */
  lemma ExpandInjective(t: string, m: int, n: int)
    requires m != n
    ensures Expand(t, m) != Expand(t, n) <==> HasPlaceholder(t)
  {
    hide Padded, Expand, HasPlaceholder;
    if HasPlaceholder(t) {
      if Expand(t, m) == Expand(t, n) {
        if |Padded(m, 0)| <= |Padded(n, 0)| {
          ExpandInjectiveOrdered(t, m, n);
        } else {
          ExpandInjectiveOrdered(t, n, m);
        }
      }
    } else {
      ExpandConstant(t, m, n);
    }
  }

  // --- a placeholder in the pattern survives the replacement of {id} ---

  lemma {:induction false} ReplaceIdCopies(p: string, k: nat, id: string)
    requires k <= |p| && forall i :: 0 <= i < k ==> p[i] != '{'
    ensures ReplaceId(p, id) == p[..k] + ReplaceId(p[k..], id)
    decreases k
  {
    if k == 0 {
      assert p[0..] == p;
    } else {
      ReplaceIdCopies(p[1..], k - 1, id);
      assert p[1..][k - 1..] == p[k..] && p[..k] == [p[0]] + p[1..][..k - 1];
    }
  }

  lemma {:induction false} DigitRunIs(ds: string, rest: string)
    requires forall i :: 0 <= i < |ds| ==> IsDigit(ds[i])
    requires rest != "" && !IsDigit(rest[0])
    ensures DigitRun(ds + rest) == |ds|
    decreases |ds|
  {
    if ds == "" {
      assert ds + rest == rest;
    } else {
      DigitRunIs(ds[1..], rest);
      assert (ds + rest)[1..] == ds[1..] + rest;
    }
  }

  lemma {:induction false} DigitRunIsDigits(s: string)
    ensures forall i :: 0 <= i < DigitRun(s) ==> IsDigit(s[i])
    decreases |s|
  {
    if s != "" && IsDigit(s[0]) {
      DigitRunIsDigits(s[1..]);
      forall i | 0 <= i < DigitRun(s) ensures IsDigit(s[i]) {
        assert i > 0 ==> s[i] == s[1..][i - 1];
      }
    }
  }

  lemma PlaceholderSurvives(p: string, id: string)
    requires PlaceholderAt(p)
    ensures PlaceholderAt(ReplaceId(p, id))
  {
    var tail := p[1..];
    var n := DigitRun(tail);
    DigitRunIsDigits(tail);
    assert IsDigit(tail[0]) && tail[0] == p[1];
    assert tail[n] == 'd' && tail[n + 1] == '}';
    ReplaceIdCopies(tail, n + 2, id);
    var after := ReplaceId(tail[n + 2..], id);
    var rest := "d}" + after;
    assert tail[..n + 2] == tail[..n] + "d}";
    assert ReplaceId(tail, id) == tail[..n] + rest;
    DigitRunIs(tail[..n], rest);
    var r := ReplaceId(p, id);
    assert r == ['{'] + ReplaceId(tail, id);
    assert r[1..] == tail[..n] + rest;
  }

  lemma {:induction false} HasPlaceholderAfter(a: string, b: string)
    requires HasPlaceholder(b)
    ensures HasPlaceholder(a + b)
    decreases |a|
  {
    hide PlaceholderAt;
    if a == "" {
      assert a + b == b;
    } else {
      HasPlaceholderAfter(a[1..], b);
      assert (a + b)[1..] == a[1..] + b;
    }
  }

  lemma {:induction false} SkipIdToken(p: string)
    requires IdAt(p) && HasPlaceholder(p)
    ensures HasPlaceholder(p[4..])
  {
    assert p[1..][0] == 'i' && p[2..][0] == 'd' && p[3..][0] == '}';
    assert !PlaceholderAt(p) by {
      assert !IsDigit(p[1..][0]);
    }
    assert !PlaceholderAt(p[1..]) && !PlaceholderAt(p[2..]) && !PlaceholderAt(p[3..]);
    hide PlaceholderAt;
    assert p[1..][1..] == p[2..] && p[2..][1..] == p[3..] && p[3..][1..] == p[4..];
    assert HasPlaceholder(p[1..]) && HasPlaceholder(p[2..]) && HasPlaceholder(p[3..]);
  }

  lemma {:induction false} ReplaceIdKeepsPlaceholder(p: string, id: string)
    requires HasPlaceholder(p)
    ensures HasPlaceholder(ReplaceId(p, id))
    decreases |p|
  {
    if PlaceholderAt(p) {
      PlaceholderSurvives(p, id);
    } else if IdAt(p) {
      SkipIdToken(p);
      ReplaceIdKeepsPlaceholder(p[4..], id);
      HasPlaceholderAfter(id, ReplaceId(p[4..], id));
    } else {
      ReplaceIdKeepsPlaceholder(p[1..], id);
      HasPlaceholderAfter([p[0]], ReplaceId(p[1..], id));
    }
  }

  lemma {:induction false} ReplaceIdNoOp(p: string, id: string)
    requires NoId(p)
    ensures ReplaceId(p, id) == p
    decreases |p|
  {
    if p != "" {
      ReplaceIdNoOp(p[1..], id);
    }
  }

  /** For a fixed id, a pattern with a placeholder gives different numbers different names. */
  lemma SameIdDifferentNames(pattern: string, m: int, n: int, id: string)
    requires HasPlaceholder(pattern) && m != n
    ensures ExpandHostnamePattern(pattern, m, id) != ExpandHostnamePattern(pattern, n, id)
  {
    ReplaceIdKeepsPlaceholder(pattern, id);
    ExpandInjective(ReplaceId(pattern, id), m, n);
  }

  /** Without {id} the ids do not matter either. */
  lemma DifferentNidsDifferentNames(pattern: string, m: int, idM: string, n: int, idN: string)
    requires NoId(pattern) && HasPlaceholder(pattern) && m != n
    ensures ExpandHostnamePattern(pattern, m, idM) != ExpandHostnamePattern(pattern, n, idN)
  {
    ReplaceIdNoOp(pattern, idM);
    ReplaceIdNoOp(pattern, idN);
    ExpandInjective(pattern, m, n);
  }

  // --- a non-blank pattern and a non-blank id never give a blank name ---

  lemma NotBlankConcat(a: string, b: string)
    requires !Blank(a) || !Blank(b)
    ensures !Blank(a + b)
  {
    hide IsSpace;
    if !Blank(a) {
      var i :| 0 <= i < |a| && !IsSpace(a[i]);
      assert (a + b)[i] == a[i];
    } else {
      var i :| 0 <= i < |b| && !IsSpace(b[i]);
      assert (a + b)[|a| + i] == b[i];
    }
  }

  lemma BlankTail(t: string)
    requires t != ""
    ensures Blank(t) <==> IsSpace(t[0]) && Blank(t[1..])
  {
    hide IsSpace;
    if IsSpace(t[0]) && Blank(t[1..]) {
      forall i | 0 <= i < |t| ensures IsSpace(t[i]) {
        assert i > 0 ==> t[i] == t[1..][i - 1];
      }
    }
  }

  lemma NotBlankCons(c: char, b: string)
    requires !IsSpace(c) || !Blank(b)
    ensures !Blank([c] + b)
  {
    hide IsSpace;
    BlankTail([c] + b);
    assert ([c] + b)[1..] == b;
  }

  lemma {:induction false} ReplaceIdNotBlank(p: string, id: string)
    requires !Blank(p) && !Blank(id)
    ensures !Blank(ReplaceId(p, id))
    decreases |p|
  {
    hide IsSpace;
    if IdAt(p) {
      NotBlankConcat(id, ReplaceId(p[4..], id));
    } else {
      BlankTail(p);
      if IsSpace(p[0]) {
        ReplaceIdNotBlank(p[1..], id);
      }
      NotBlankCons(p[0], ReplaceId(p[1..], id));
    }
  }

  lemma FormattedNotBlank(width: nat, nid: int)
    ensures !Blank(Formatted(width, nid))
  {
    PaddedReadsBack(nid, width);
    PaddedReadsBack(nid, 0);
    var f := Formatted(width, nid);
    var p := Padded(nid, if width > MAX_WIDTH then 0 else width);
    hide Padded, IsDigit, IsSpace;
    assert f[|f| - 1] == p[|p| - 1];
    DigitNotSpace(f[|f| - 1]);
  }

  lemma DigitNotSpace(c: char)
    requires IsDigit(c)
    ensures !IsSpace(c)
  {
  }

  lemma {:induction false} ExpandNotBlank(t: string, nid: int)
    requires !Blank(t)
    ensures !Blank(Expand(t, nid))
    decreases |t|
  {
    hide Formatted, IsSpace, PlaceholderAt;
    if PlaceholderAt(t) {
      FormattedNotBlank(WidthAt(t), nid);
      NotBlankConcat(Formatted(WidthAt(t), nid), Expand(AfterPlaceholder(t), nid));
    } else {
      BlankTail(t);
      if IsSpace(t[0]) {
        ExpandNotBlank(t[1..], nid);
      }
      NotBlankCons(t[0], Expand(t[1..], nid));
    }
  }

  lemma {:induction false} ExpandBlank(t: string, nid: int)
    requires Blank(t)
    ensures Expand(t, nid) == t
    decreases |t|
  {
    if t != "" {
      assert IsSpace(t[0]) && t[0] != '{';
      BlankTail(t);
      hide IsSpace;
      ExpandBlank(t[1..], nid);
      assert [t[0]] + t[1..] == t;
    }
  }

  /** The number never makes a blank name, nor a blank one visible. */
  lemma ExpandBlankIff(t: string, nid: int)
    ensures Blank(Expand(t, nid)) <==> Blank(t)
  {
    hide Blank, Expand;
    if Blank(t) {
      ExpandBlank(t, nid);
    } else {
      ExpandNotBlank(t, nid);
    }
  }

  // --- what a placeholder expands to ---

  predicate AllDigits(ds: string) {
    forall i :: 0 <= i < |ds| ==> IsDigit(ds[i])
  }

  /** The number as it is written without padding. */
  function Written(nid: int): string {
    if nid < 0 then "-" + Decimal(-nid) else Decimal(nid)
  }

  /** p is the number written with zeros to the width, which counts the sign; a longer number is not cut. */
  predicate IsPadded(p: string, nid: int, width: nat) {
    && Signed(p) == nid
    && |p| == (if |Written(nid)| >= width then |Written(nid)| else width)
    && p != "" && (if nid < 0 then p[0] == '-' && AllDigits(p[1..]) else AllDigits(p))
  }

  lemma PaddedIs(nid: int, width: nat)
    ensures IsPadded(Padded(nid, width), nid, width)
    ensures Padded(nid, 0) == Written(nid)
  {
    PaddedReadsBack(nid, width);
    if nid < 0 {
      ZeroPadKeepsNumber(Decimal(-nid), width - 1);
      assert Padded(nid, width)[1..] == ZeroPad(Decimal(-nid), width - 1);
    } else {
      ZeroPadKeepsNumber(Decimal(nid), width);
    }
    hide Signed, Number, Decimal;
  }

  lemma ExpandChar(c: char, rest: string, nid: int)
    requires c != '{'
    ensures Expand([c] + rest, nid) == [c] + Expand(rest, nid)
  {
    assert !PlaceholderAt([c] + rest);
    hide Formatted, PlaceholderAt;
    assert ([c] + rest)[1..] == rest;
  }

  lemma {:induction false} ExpandCopies(a: string, rest: string, nid: int)
    requires '{' !in a
    ensures Expand(a + rest, nid) == a + Expand(rest, nid)
    decreases |a|
  {
    hide Expand;
    if a == "" {
      assert a + rest == rest;
    } else {
      var c, tail := a[0], a[1..];
      assert a == [c] + tail && c in a;
      ExpandCopies(tail, rest, nid);
      ExpandChar(c, tail + rest, nid);
      assert [c] + tail + rest == [c] + (tail + rest);
      assert [c] + tail + Expand(rest, nid) == [c] + (tail + Expand(rest, nid));
    }
  }

  /** A placeholder is an opening brace, digits, and the letter d before the closing brace. */
  function Placeholder(ds: string): string {
    "{" + ds + "d}"
  }

  lemma PlaceholderReads(ds: string, rest: string)
    requires ds != "" && AllDigits(ds)
    ensures var t := Placeholder(ds) + rest;
            PlaceholderAt(t) && WidthAt(t) == (if Number(ds) < 0 then 0 else Number(ds)) && AfterPlaceholder(t) == rest
  {
    var t := Placeholder(ds) + rest;
    assert t[1..] == ds + ("d}" + rest);
    DigitRunIs(ds, "d}" + rest);
    assert t[1..1 + |ds|] == ds;
    assert t[|ds| + 3..] == rest;
  }

  lemma ReplaceIdSkips(ds: string, rest: string, id: string)
    requires ds != "" && AllDigits(ds)
    ensures ReplaceId(Placeholder(ds) + rest, id) == Placeholder(ds) + ReplaceId(rest, id)
  {
    var t := Placeholder(ds) + rest;
    var tail := ds + "d}";
    assert t == ['{'] + (tail + rest);
    assert IsDigit(t[1]) && t[1] != 'i';
    assert t[1..] == tail + rest;
    assert forall i :: 0 <= i < |tail| ==> tail[i] != '{';
    ReplaceIdCopies(tail + rest, |tail|, id);
    assert (tail + rest)[..|tail|] == tail && (tail + rest)[|tail|..] == rest;
  }

  /** Every {id} becomes the id, whatever follows. */
  lemma IdHere(rest: string, id: string)
    ensures ReplaceId("{id}" + rest, id) == id + ReplaceId(rest, id)
  {
    assert ("{id}" + rest)[4..] == rest;
  }

  lemma {:induction false} NumberNotNegative(ds: string)
    requires AllDigits(ds)
    ensures Number(ds) >= 0
    decreases |ds|
  {
    if ds != "" {
      NumberNotNegative(ds[..|ds| - 1]);
    }
  }

  lemma ReplaceIdNothing(a: string, rest: string, id: string)
    requires '{' !in a
    ensures ReplaceId(a + rest, id) == a + ReplaceId(rest, id)
  {
    ReplaceIdCopies(a + rest, |a|, id);
    assert (a + rest)[..|a|] == a && (a + rest)[|a|..] == rest;
  }

  /**
   * A pattern with one placeholder expands to the text around it and the number padded to the width written, up to the
   * width fmt refuses; beyond, the number stands unpadded after fmt's marker.
   */
  lemma PlaceholderPads(a: string, ds: string, b: string, nid: int, id: string) returns (p: string)
    requires '{' !in a && '{' !in b && ds != "" && AllDigits(ds)
    ensures ExpandHostnamePattern(a + Placeholder(ds) + b, nid, id) == a + p + b
    ensures 0 <= Number(ds) <= 1_000_000 ==> IsPadded(p, nid, Number(ds))
    ensures Number(ds) > 1_000_000 ==> p == "%!(BADWIDTH)" + Written(nid)
    ensures Number(ds) >= 0
  {
    NumberNotNegative(ds);
    var w := Number(ds);
    p := Formatted(w, nid);
    PaddedIs(nid, w);
    PaddedIs(nid, 0);
    hide Padded, IsPadded, Number, AllDigits, Written;
    TailStays(ds, b, nid, id);
    HeadStays(a, Placeholder(ds) + b, nid, id);
    assert a + Placeholder(ds) + b == a + (Placeholder(ds) + b);
    assert a + p + b == a + (p + b);
  }

  lemma HeadStays(a: string, rest: string, nid: int, id: string)
    requires '{' !in a
    ensures ExpandHostnamePattern(a + rest, nid, id) == a + ExpandHostnamePattern(rest, nid, id)
  {
    ReplaceIdNothing(a, rest, id);
    ExpandCopies(a, ReplaceId(rest, id), nid);
  }

  lemma TailStays(ds: string, b: string, nid: int, id: string)
    requires '{' !in b && ds != "" && AllDigits(ds) && Number(ds) >= 0
    ensures ExpandHostnamePattern(Placeholder(ds) + b, nid, id) == Formatted(Number(ds), nid) + b
  {
    NothingStays(b, nid, id);
    ReplaceIdSkips(ds, b, id);
    PlaceholderReads(ds, b);
    hide Formatted, Number, AllDigits, PlaceholderAt, WidthAt, AfterPlaceholder;
    assert ReplaceId(b, id) == b && Expand(b, nid) == b;
  }

  lemma NothingStays(b: string, nid: int, id: string)
    requires '{' !in b
    ensures ReplaceId(b, id) == b && Expand(b, nid) == b
  {
    ReplaceIdNothing(b, "", id);
    ExpandCopies(b, "", nid);
    assert b + "" == b;
  }

  /** The width may be written in decimal after any number of zeros: {04d} pads to four. */
  lemma {:induction false} DecimalWidth(zeros: string, w: nat)
    requires forall i :: 0 <= i < |zeros| ==> zeros[i] == '0'
    ensures var ds := zeros + Decimal(w); ds != "" && AllDigits(ds) && Number(ds) == w
    decreases |zeros|
  {
    hide Number;
    if zeros == "" {
      assert zeros + Decimal(w) == Decimal(w);
      NumberOfDecimal(w);
    } else {
      DecimalWidth(zeros[1..], w);
      hide Decimal;
      var rest := zeros[1..] + Decimal(w);
      assert zeros == "0" + zeros[1..];
      assert zeros + Decimal(w) == "0" + rest;
      NumberOfZero(rest);
      hide Number;
      assert forall i :: 0 <= i < |"0" + rest| ==> IsDigit(("0" + rest)[i]);
    }
  }

  /** A pattern whose only braces are one {id} expands to the text around the id. */
  lemma IdExpands(a: string, b: string, nid: int, id: string)
    requires '{' !in a && '{' !in b && '{' !in id
    ensures ExpandHostnamePattern(a + "{id}" + b, nid, id) == a + id + b
  {
    IdHere(b, id);
    NothingStays(b, nid, id);
    assert a + "{id}" + b == a + ("{id}" + b);
    ReplaceIdNothing(a, "{id}" + b, id);
    assert a + (id + b) == a + id + b;
    NothingStays(a + id + b, nid, id);
  }
}
