// internal/parse/csv.go: the quote- and escape-aware comma splitter.
module Csv {
  import opened Wrappers
  import opened Text

  /** Where the scanner stands: outside quotes, inside a quoted stretch, or just after a backslash in one. */
  datatype Lex = Outside | Quoted(q: char) | Escaped(q: char)

  datatype SplitError = UnterminatedQuote | TrailingEscape

  predicate IsQuote(c: char) {
    c == '\'' || c == '"'
  }

  function Step(l: Lex, r: char): Lex {
    match l
    case Escaped(q) => Quoted(q)
    case Quoted(q) => if r == '\\' then Escaped(q) else if r == q then Outside else l
    case Outside => if IsQuote(r) then Quoted(r) else Outside
  }

  function LexFrom(l: Lex, s: string): Lex
    decreases |s|
  {
    if s == "" then l else LexFrom(Step(l, s[0]), s[1..])
  }

  /** The text opens no quote that it does not close. */
  predicate Balanced(s: string) {
    LexFrom(Outside, s) == Outside
  }

  /** Position of the first comma outside quotes, or |s|. */
  function FirstBareComma(l: Lex, s: string): (k: nat)
    ensures k <= |s|
    ensures k < |s| ==> s[k] == ','
    decreases |s|
  {
    if s == "" || (l == Outside && s[0] == ',') then 0 else 1 + FirstBareComma(Step(l, s[0]), s[1..])
  }

  predicate NoBareComma(s: string) {
    FirstBareComma(Outside, s) == |s|
  }

  /** A component as SplitCSV delivers it. */
  predicate Plain(s: string) {
    Balanced(s) && NoBareComma(s)
  }

  /** The specification of the splitter: cut at every bare comma; a final empty component is not delivered. */
  function Split(s: string): seq<string>
    decreases |s|
  {
    if s == "" then []
    else
      var k := FirstBareComma(Outside, s);
      if k == |s| then [s] else [s[..k]] + Split(s[k + 1..])
  }

  lemma {:induction false} LexAppend(l: Lex, a: string, b: string)
    ensures LexFrom(l, a + b) == LexFrom(LexFrom(l, a), b)
    decreases |a|
  {
    if a == "" {
      assert a + b == b;
    } else {
      LexAppend(Step(l, a[0]), a[1..], b);
      assert (a + b)[1..] == a[1..] + b;
    }
  }

  /** A bare-comma-free text stays so until what follows it has a bare comma in the state it leaves behind. */
  lemma {:induction false} FirstBareCommaAppend(l: Lex, a: string, b: string)
    requires FirstBareComma(l, a) == |a|
    ensures FirstBareComma(l, a + b) == |a| + FirstBareComma(LexFrom(l, a), b)
    decreases |a|
  {
    if a == "" {
      assert a + b == b;
    } else {
      FirstBareCommaAppend(Step(l, a[0]), a[1..], b);
      assert (a + b)[1..] == a[1..] + b;
    }
  }

  /** What precedes the first bare comma is closed and has no bare comma itself. */
  lemma {:induction false} BeforeFirstBareComma(l: Lex, s: string)
    ensures var k := FirstBareComma(l, s);
            FirstBareComma(l, s[..k]) == k && (k < |s| ==> LexFrom(l, s[..k]) == Outside)
    decreases |s|
  {
    var k := FirstBareComma(l, s);
    if k == 0 {
      assert s[..k] == "";
    } else {
      BeforeFirstBareComma(Step(l, s[0]), s[1..]);
      assert s[..k][1..] == s[1..][..k - 1];
    }
  }

  /** One round of Split, read forwards: a plain component, a comma, and the rest. */
  lemma SplitHead(p: string, rest: string)
    requires Plain(p)
    ensures Split(p + "," + rest) == [p] + Split(rest)
  {
    FirstBareCommaAppend(Outside, p, "," + rest);
    assert p + "," + rest == p + ("," + rest);
    assert (p + "," + rest)[|p| + 1..] == rest;
  }

  lemma SplitUncut(p: string)
    requires NoBareComma(p)
    ensures Split(p) == if p == "" then [] else [p]
  {
  }

  lemma ScanOfNothing(l: Lex)
    ensures LexFrom(l, "") == l && FirstBareComma(l, "") == 0
  {
  }

  /** One rune more in the current component, when it is not a cut. */
  lemma Extend(cur: string, r: char, rest: string)
    requires NoBareComma(cur)
    ensures var l := LexFrom(Outside, cur);
            && LexFrom(Outside, cur + [r]) == Step(l, r)
            && LexFrom(l, [r] + rest) == LexFrom(Step(l, r), rest)
            && (!(l == Outside && r == ',') ==> NoBareComma(cur + [r]))
    ensures cur + ([r] + rest) == (cur + [r]) + rest
  {
    LexAppend(Outside, cur, [r]);
    FirstBareCommaAppend(Outside, cur, [r]);
    assert ([r] + rest)[1..] == rest;
  }

  /** The scanner state the loop variables stand for. */
  function StateOf(quote: Option<char>, escaped: bool): Lex {
    if quote.None? then Outside else if escaped then Escaped(quote.value) else Quoted(quote.value)
  }

  /** SplitCSV: fails exactly when a quote is left open, and otherwise cuts at every bare comma. */
  method SplitCSV(s: string) returns (r: Result<seq<string>, SplitError>)
    ensures r.Ok? <==> Balanced(s)
    ensures r.Ok? ==> r.value == Split(s)
    ensures r.Err? ==> r.error == UnterminatedQuote
  {
    ScanOfNothing(Outside);
    hide LexFrom, FirstBareComma, Split;
    var out: seq<string> := [];
    var cur := "";
    var quote: Option<char> := None;
    var escaped := false;
    assert s[0..] == s && "" + s == s;
    for i := 0 to |s|
      invariant escaped ==> quote.Some?
      invariant LexFrom(Outside, cur) == StateOf(quote, escaped)
      invariant LexFrom(StateOf(quote, escaped), s[i..]) == LexFrom(Outside, s)
      invariant NoBareComma(cur)
      invariant Split(s) == out + Split(cur + s[i..])
    {
      var r := s[i];
      assert s[i..] == [r] + s[i + 1..];
      Extend(cur, r, s[i + 1..]);
      if escaped {
        cur := cur + [r];
        escaped := false;
      } else if quote.Some? {
        if r == '\\' {
          escaped := true;
          cur := cur + [r];
        } else if r == quote.value {
          quote := None;
          cur := cur + [r];
        } else {
          cur := cur + [r];
        }
      } else if IsQuote(r) {
        quote := Some(r);
        cur := cur + [r];
      } else if r == ',' {
        SplitHead(cur, s[i + 1..]);
        assert out + [cur] + Split(s[i + 1..]) == out + ([cur] + Split(s[i + 1..]));
        assert "" + s[i + 1..] == s[i + 1..];
        out := out + [cur];
        cur := "";
      } else {
        cur := cur + [r];
      }
    }
    assert s[|s|..] == "" && cur + "" == cur;
    ScanOfNothing(StateOf(quote, escaped));
    SplitUncut(cur);
    if quote.Some? {
      return Err(UnterminatedQuote);
    }
    if escaped {
      return Err(TrailingEscape);
    }
    if |cur| > 0 {
      out := out + [cur];
    }
    return Ok(out);
  }

  /** The text ends in a comma outside quotes. */
  predicate EndsInBareComma(s: string) {
    s != "" && s[|s| - 1] == ',' && LexFrom(Outside, s[..|s| - 1]) == Outside
  }

  lemma {:induction false} UncutEnd(l: Lex, s: string)
    requires FirstBareComma(l, s) == |s| && s != "" && s[|s| - 1] == ','
    ensures LexFrom(l, s[..|s| - 1]) != Outside
    decreases |s|
  {
    if |s| > 1 {
      UncutEnd(Step(l, s[0]), s[1..]);
      assert s[..|s| - 1][1..] == s[1..][..|s| - 2];
    } else {
      assert s[..|s| - 1] == "";
    }
  }

  lemma EndAfterCut(p: string, rest: string)
    requires LexFrom(Outside, p) == Outside && rest != ""
    ensures EndsInBareComma(p + "," + rest) <==> EndsInBareComma(rest)
    ensures (p + "," + rest)[..|p + "," + rest| - 1] == p + "," + rest[..|rest| - 1]
  {
    var s, body := p + "," + rest, rest[..|rest| - 1];
    assert s[..|s| - 1] == (p + ",") + body;
    CommaStaysOutside();
    hide LexFrom;
    LexAppend(Outside, p + ",", body);
    LexAppend(Outside, p, ",");
  }

  lemma CommaStaysOutside()
    ensures LexFrom(Outside, ",") == Outside
  {
    assert ","[1..] == "";
  }

  /** The text without its last comma, if that is outside quotes. */
  function WithoutEnd(s: string): string {
    if EndsInBareComma(s) then s[..|s| - 1] else s
  }

  lemma JoinOfCut(p: string, rest: string)
    requires LexFrom(Outside, p) == Outside && Join(Split(rest), ",") == WithoutEnd(rest)
    ensures Join([p] + Split(rest), ",") == WithoutEnd(p + "," + rest)
  {
    JoinConsOrOne(p, Split(rest));
    hide Join, LexFrom;
    if rest == "" {
      var s := p + "," + rest;
      assert Split(rest) == [];
      assert s[|s| - 1] == ',' && s[..|s| - 1] == p;
    } else {
      SplitNotEmpty(rest);
      hide Split;
      EndAfterCut(p, rest);
    }
  }

  lemma CutAtComma(s: string) returns (p: string, rest: string)
    requires FirstBareComma(Outside, s) < |s|
    ensures s == p + "," + rest && |rest| < |s|
    ensures Split(s) == [p] + Split(rest) && LexFrom(Outside, p) == Outside
  {
    var k := FirstBareComma(Outside, s);
    BeforeFirstBareComma(Outside, s);
    p, rest := s[..k], s[k + 1..];
    hide LexFrom, FirstBareComma;
  }

  lemma UncutIsWhole(s: string)
    requires FirstBareComma(Outside, s) == |s|
    ensures Join(Split(s), ",") == s && WithoutEnd(s) == s
  {
    assert Join([], ",") == "" && Join([s], ",") == s;
    if s != "" && s[|s| - 1] == ',' {
      UncutEnd(Outside, s);
    }
  }

  /**
   * The components, joined by commas, are the input; only when the input ends in a comma outside quotes, and then
   * always, that last comma is lost.
   */
  lemma {:induction false} JoinOfSplit(s: string)
    ensures Join(Split(s), ",") == WithoutEnd(s)
    decreases |s|
  {
    hide Join, LexFrom, Split, WithoutEnd, FirstBareComma;
    if FirstBareComma(Outside, s) == |s| {
      UncutIsWhole(s);
    } else {
      var p, rest := CutAtComma(s);
      JoinOfSplit(rest);
      JoinOfCut(p, rest);
    }
  }

  lemma SplitNotEmpty(s: string)
    requires s != ""
    ensures Split(s) != []
  {
    hide FirstBareComma;
  }

  lemma JoinConsOrOne(p: string, rest: seq<string>)
    ensures Join([p] + rest, ",") == if rest == [] then p else p + "," + Join(rest, ",")
  {
    if rest != [] {
      JoinCons(p, rest, ",");
    }
  }

  /** No component has a bare comma, and when the input is balanced every component is too. */
  lemma {:induction false} SplitPieces(s: string)
    ensures forall i :: 0 <= i < |Split(s)| ==> NoBareComma(Split(s)[i])
    ensures Balanced(s) ==> forall i :: 0 <= i < |Split(s)| ==> Balanced(Split(s)[i])
    decreases |s|
  {
    var k := FirstBareComma(Outside, s);
    if s != "" && k < |s| {
      BeforeFirstBareComma(Outside, s);
      SplitPieces(s[k + 1..]);
      assert s == s[..k] + ("," + s[k + 1..]);
      LexAppend(Outside, s[..k], "," + s[k + 1..]);
      assert ("," + s[k + 1..])[1..] == s[k + 1..];
    }
  }

  /** Splitting the join of plain components with a non-empty last one returns those components. */
  lemma {:induction false} SplitOfJoin(parts: seq<string>)
    requires forall i :: 0 <= i < |parts| ==> Plain(parts[i])
    requires parts != [] ==> parts[|parts| - 1] != ""
    ensures Split(Join(parts, ",")) == parts
    ensures Balanced(Join(parts, ","))
  {
    if |parts| > 1 {
      var rest := parts[1..];
      SplitOfJoin(rest);
      SplitHead(parts[0], Join(rest, ","));
      LexAppend(Outside, parts[0] + ",", Join(rest, ","));
      LexAppend(Outside, parts[0], ",");
      assert ","[1..] == "";
    } else if |parts| == 1 {
      assert Join(parts, ",") == parts[0] && parts == [parts[0]];
    }
  }

  /** Two component lists with the same join are the same list: the cut positions are determined by the text. */
  lemma SplitUnique(a: seq<string>, b: seq<string>)
    requires forall i :: 0 <= i < |a| ==> Plain(a[i])
    requires forall i :: 0 <= i < |b| ==> Plain(b[i])
    requires a != [] ==> a[|a| - 1] != ""
    requires b != [] ==> b[|b| - 1] != ""
    requires Join(a, ",") == Join(b, ",")
    ensures a == b
  {
    SplitOfJoin(a);
    SplitOfJoin(b);
  }

  /** Blank text around a component does not change whether it is balanced. */
  lemma {:induction false} BlankKeepsOutside(s: string)
    requires Blank(s)
    ensures LexFrom(Outside, s) == Outside
    decreases |s|
  {
    if s != "" {
      BlankKeepsOutside(s[1..]);
    }
  }

  lemma {:induction false} BlankNeverCloses(l: Lex, s: string)
    requires Blank(s) && LexFrom(l, s) == Outside
    requires !l.Outside? ==> IsQuote(l.q)
    ensures l == Outside
    decreases |s|
  {
    if s != "" {
      BlankNeverCloses(Step(l, s[0]), s[1..]);
    }
  }

  lemma {:induction false} LexQuotesAreQuotes(l: Lex, s: string)
    requires !l.Outside? ==> IsQuote(l.q)
    ensures var e := LexFrom(l, s); !e.Outside? ==> IsQuote(e.q)
    decreases |s|
  {
    if s != "" {
      LexQuotesAreQuotes(Step(l, s[0]), s[1..]);
    }
  }

  lemma TrimKeepsBalance(s: string)
    requires Balanced(s)
    ensures Balanced(TrimSpace(s))
  {
    hide IsSpace, TrimStart, TrimEnd;
    var before, after := TrimSpaceSplits(s);
    var t := TrimSpace(s);
    LexAppend(Outside, before + t, after);
    LexAppend(Outside, before, t);
    BlankKeepsOutside(before);
    LexQuotesAreQuotes(Outside, t);
    BlankNeverCloses(LexFrom(Outside, t), after);
  }

  // --- text without quotes ---

  lemma {:induction false} BareCommaIs(s: string)
    requires forall i :: 0 <= i < |s| ==> s[i] != '"' && s[i] != '\''
    ensures FirstBareComma(Outside, s) == IndexOf(s, ',') && LexFrom(Outside, s) == Outside
    decreases |s|
  {
    if s != "" {
      BareCommaIs(s[1..]);
    }
  }

  /** All pieces but an empty last one. */
  function WithoutEmptyLast(pieces: seq<string>): seq<string>
    requires pieces != []
  {
    if pieces[|pieces| - 1] == "" then pieces[..|pieces| - 1] else pieces
  }

  lemma EmptyLastOfMore(p: string, pieces: seq<string>)
    requires pieces != []
    ensures WithoutEmptyLast([p] + pieces) == [p] + WithoutEmptyLast(pieces)
  {
    var all := [p] + pieces;
    assert all[|all| - 1] == pieces[|pieces| - 1];
    assert all[..|all| - 1] == [p] + pieces[..|pieces| - 1];
  }

  lemma CommaStep(s: string)
    requires FirstBareComma(Outside, s) == IndexOf(s, ',') < |s|
    ensures var k := IndexOf(s, ',');
            Split(s) == [s[..k]] + Split(s[k + 1..]) && Text.Split(s, ',') == [s[..k]] + Text.Split(s[k + 1..], ',')
  {
    hide FirstBareComma, IndexOf;
  }

  lemma NoCommaStep(s: string)
    requires FirstBareComma(Outside, s) == IndexOf(s, ',') == |s|
    ensures Split(s) == (if s == "" then [] else [s]) && Text.Split(s, ',') == [s]
  {
    hide FirstBareComma, IndexOf;
  }

  /** Text without quotes is cut at every comma, backslashes or not; an empty last component is dropped. */
  lemma {:induction false} UnquotedTextSplits(s: string)
    requires forall i :: 0 <= i < |s| ==> s[i] != '"' && s[i] != '\''
    ensures Balanced(s) && Split(s) == WithoutEmptyLast(Text.Split(s, ','))
    decreases |s|
  {
    BareCommaIs(s);
    hide FirstBareComma, LexFrom, Split, Text.Split, IndexOf, WithoutEmptyLast;
    var k := IndexOf(s, ',');
    if k < |s| {
      CommaStep(s);
      UnquotedTextSplits(s[k + 1..]);
      EmptyLastOfMore(s[..k], Text.Split(s[k + 1..], ','));
    } else {
      NoCommaStep(s);
      OneLast(s);
    }
  }

  lemma OneLast(s: string)
    ensures WithoutEmptyLast([s]) == if s == "" then [] else [s]
  {
  }
}
