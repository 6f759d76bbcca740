// The string operations the plugins use, on sequences of runes.
module Text {
  import opened Wrappers

  /** White space as Go's unicode.IsSpace defines it. */
  predicate IsSpace(c: char) {
    var n := c as int;
    || 9 <= n <= 13 || n == 0x20 || n == 0x85 || n == 0xA0 || n == 0x1680
    || 0x2000 <= n <= 0x200A || n == 0x2028 || n == 0x2029 || n == 0x202F || n == 0x205F || n == 0x3000
  }

  predicate Blank(s: string) {
    forall i :: 0 <= i < |s| ==> IsSpace(s[i])
  }

  /** Drops leading white space. */
  function TrimStart(s: string): (r: string)
    ensures r == "" || !IsSpace(r[0])
    ensures |r| <= |s| && r == s[|s| - |r|..]
    ensures Blank(s[..|s| - |r|])
  {
    if s != "" && IsSpace(s[0]) then TrimStart(s[1..]) else s
  }

  /** Drops trailing white space. */
  function TrimEnd(s: string): (r: string)
    ensures r == "" || !IsSpace(r[|r| - 1])
    ensures |r| <= |s| && r == s[..|r|]
    ensures Blank(s[|r|..])
  {
    if s != "" && IsSpace(s[|s| - 1]) then
      var r := TrimEnd(s[..|s| - 1]);
      assert s[|r|..] == s[..|s| - 1][|r|..] + [s[|s| - 1]];
      r
    else s
  }

  /** strings.TrimSpace */
  function TrimSpace(s: string): string {
    TrimEnd(TrimStart(s))
  }

  lemma BlankConcat(a: string, b: string)
    requires Blank(a) && Blank(b)
    ensures Blank(a + b)
  {
    hide IsSpace;
  }

  /** Trimming removes a blank prefix and a blank suffix, nothing else, and all of them. */
  lemma TrimSpaceSplits(s: string) returns (before: string, after: string)
    ensures s == before + TrimSpace(s) + after && Blank(before) && Blank(after)
    ensures var t := TrimSpace(s); t == "" || (!IsSpace(t[0]) && !IsSpace(t[|t| - 1]))
    ensures TrimSpace(s) == "" <==> Blank(s)
  {
    hide IsSpace, TrimStart, TrimEnd;
    var m := TrimStart(s);
    var t := TrimEnd(m);
    before := s[..|s| - |m|];
    after := m[|t|..];
    assert s == before + m && m == t + after;
    if t != "" {
      assert t[0] == m[0] == s[|before|];
    } else {
      assert s == before + after;
      BlankConcat(before, after);
    }
  }

  lemma TrimNoOp(s: string)
    requires s == "" || (!IsSpace(s[0]) && !IsSpace(s[|s| - 1]))
    ensures TrimSpace(s) == s
  {
    hide IsSpace;
  }

  lemma {:induction false} TrimStartDrops(before: string, s: string)
    requires Blank(before)
    ensures TrimStart(before + s) == TrimStart(s)
    decreases |before|
  {
    if before == "" {
      assert before + s == s;
    } else {
      assert IsSpace(before[0]);
      assert (before + s)[1..] == before[1..] + s;
      TrimStartDrops(before[1..], s);
    }
  }

  lemma {:induction false} TrimEndDrops(s: string, after: string)
    requires Blank(after)
    ensures TrimEnd(s + after) == TrimEnd(s)
    decreases |after|
  {
    if after == "" {
      assert s + after == s;
    } else {
      var init := after[..|after| - 1];
      assert IsSpace(after[|after| - 1]);
      assert (s + after)[..|s + after| - 1] == s + init;
      TrimEndDrops(s, init);
    }
  }

  /** Trimming gives back what stands between blanks. */
  lemma TrimPadded(before: string, s: string, after: string)
    requires Blank(before) && Blank(after) && (s == "" || (!IsSpace(s[0]) && !IsSpace(s[|s| - 1])))
    ensures TrimSpace(before + s + after) == s
  {
    hide IsSpace;
    if s == "" {
      BlankConcat(before, after);
      assert before + s + after == before + after;
      var _, _ := TrimSpaceSplits(before + after);
    } else {
      assert before + s + after == before + (s + after);
      TrimStartDrops(before, s + after);
      assert TrimStart(s + after) == s + after;
      TrimEndDrops(s, after);
    }
  }

  lemma TrimIdempotent(s: string)
    ensures TrimSpace(TrimSpace(s)) == TrimSpace(s)
  {
    hide IsSpace;
    var _, _ := TrimSpaceSplits(s);
    TrimNoOp(TrimSpace(s));
  }

  /** Position of the first c in s, or |s|. */
  function IndexOf(s: string, c: char): (k: nat)
    ensures k <= |s|
    ensures c !in s[..k]
    ensures k < |s| ==> s[k] == c
  {
    if s == "" || s[0] == c then 0
    else
      var k := IndexOf(s[1..], c);
      assert s[..k + 1] == [s[0]] + s[1..][..k];
      k + 1
  }

  lemma IndexOfFirst(a: string, c: char, b: string)
    requires c !in a
    ensures IndexOf(a + [c] + b, c) == |a|
  {
    var s := a + [c] + b;
    assert s[|a|] == c;
    assert forall i :: 0 <= i < |a| ==> s[i] == a[i];
  }

  lemma IndexOfAbsent(a: string, c: char)
    requires c !in a
    ensures IndexOf(a, c) == |a|
  {
  }

  /** strings.Cut on a one-character separator. */
  function Cut(s: string, c: char): Option<(string, string)> {
    var k := IndexOf(s, c);
    if k == |s| then None else Some((s[..k], s[k + 1..]))
  }

  /** strings.Split on a one-character separator. */
  function Split(s: string, c: char): (parts: seq<string>)
    ensures parts != []
    decreases |s|
  {
    var k := IndexOf(s, c);
    if k == |s| then [s] else [s[..k]] + Split(s[k + 1..], c)
  }

  /** strings.Join */
  function Join(parts: seq<string>, sep: string): string {
    if parts == [] then ""
    else if |parts| == 1 then parts[0]
    else parts[0] + sep + Join(parts[1..], sep)
  }

  lemma JoinCons(p: string, rest: seq<string>, sep: string)
    requires rest != []
    ensures Join([p] + rest, sep) == p + sep + Join(rest, sep)
  {
    assert ([p] + rest)[1..] == rest;
  }

  /** Joining the pieces a split produced gives the text back. */
  lemma {:induction false} JoinOfSplit(s: string, c: char)
    ensures Join(Split(s, c), [c]) == s
    decreases |s|
  {
    var k := IndexOf(s, c);
    if k < |s| {
      JoinOfSplit(s[k + 1..], c);
      JoinCons(s[..k], Split(s[k + 1..], c), [c]);
    }
  }

  /** Splitting a join of separator-free pieces gives the pieces back. */
  lemma {:induction false} SplitOfJoin(parts: seq<string>, c: char)
    requires parts != [] && forall i :: 0 <= i < |parts| ==> c !in parts[i]
    ensures Split(Join(parts, [c]), c) == parts
  {
    if |parts| == 1 {
      IndexOfAbsent(parts[0], c);
    } else {
      var tail := Join(parts[1..], [c]);
      var s := parts[0] + [c] + tail;
      IndexOfFirst(parts[0], c, tail);
      SplitOfJoin(parts[1..], c);
      assert s[..|parts[0]|] == parts[0] && s[|parts[0]| + 1..] == tail;
      assert Join(parts, [c]) == s;
    }
  }

  predicate HasSuffix(s: string, t: string) {
    |t| <= |s| && s[|s| - |t|..] == t
  }

  /** strings.TrimSuffix */
  function TrimSuffix(s: string, t: string): string {
    if HasSuffix(s, t) then s[..|s| - |t|] else s
  }

  /** strings.TrimLeft with a one-character cutset. */
  function TrimLeftChar(s: string, c: char): string {
    if s != "" && s[0] == c then TrimLeftChar(s[1..], c) else s
  }

  /** strings.ToLower on the letters A to Z; no keyword the plugins compare with has any other fold. */
  function Lower(s: string): (r: string)
    ensures |r| == |s|
  {
    if s == "" then "" else
    [if 'A' <= s[0] <= 'Z' then ((s[0] as int) + 32) as char else s[0]] + Lower(s[1..])
  }

  /** Lower-casing acts on each character: the letters A to Z become a to z, the others stay. */
  lemma {:induction false} LowerAt(s: string, i: nat)
    requires i < |s|
    ensures 'A' <= s[i] <= 'Z' ==> Lower(s)[i] as int - 'a' as int == s[i] as int - 'A' as int
    ensures !('A' <= s[i] <= 'Z') ==> Lower(s)[i] == s[i]
    decreases |s|
  {
    if i > 0 {
      LowerAt(s[1..], i - 1);
    }
  }

  /** Leading dots, or whatever character it is, are dropped, all of them and nothing else. */
  lemma {:induction false} TrimLeftDrops(dots: string, s: string, c: char)
    requires (forall i :: 0 <= i < |dots| ==> dots[i] == c) && (s == "" || s[0] != c)
    ensures TrimLeftChar(dots + s, c) == s
    decreases |dots|
  {
    if dots == "" {
      assert dots + s == s;
    } else {
      assert (dots + s)[1..] == dots[1..] + s;
      TrimLeftDrops(dots[1..], s, c);
    }
  }

  predicate IsDigit(c: char) {
    '0' <= c <= '9'
  }
}
