// internal/parse/quote.go: removal of one layer of quotes and its escapes.
module Quote {
  import opened Wrappers
  import opened Text
  import opened Csv

  /** The character an escape stands for; an unknown escape stands for the character itself. */
  function Unescaped(c: char): char {
    if c == 'n' then '\n' else if c == 't' then '\t' else c
  }

  /** The meaning of a quoted body, or None when it ends in the middle of an escape. */
  function Decode(body: string): Option<string>
    decreases |body|
  {
    if body == "" then Some("")
    else if body[0] == '\\' then
      if |body| == 1 then None
      else
        var r := Decode(body[2..]);
        if r.None? then None else Some([Unescaped(body[1])] + r.value)
    else
      var r := Decode(body[1..]);
      if r.None? then None else Some([body[0]] + r.value)
  }

  predicate Wrapped(v: string) {
    |v| >= 2 && IsQuote(v[0]) && v[|v| - 1] == v[0]
  }

  /** Specification of Unquote. */
  function Unquoted(raw: string): Option<string> {
    var v := TrimSpace(raw);
    if Wrapped(v) then Decode(v[1..|v| - 1]) else Some(v)
  }

  function Prepend(b: string, r: Option<string>): Option<string> {
    if r.None? then None else Some(b + r.value)
  }

  /** What one byte more means for the text decoded so far. */
  lemma DecodeStep(b: string, c: char, rest: string)
    ensures c != '\\' ==> Prepend(b, Decode([c] + rest)) == Prepend(b + [c], Decode(rest))
    ensures Prepend(b, Decode(['\\', c] + rest)) == Prepend(b + [Unescaped(c)], Decode(rest))
  {
    assert ([c] + rest)[1..] == rest;
    assert (['\\', c] + rest)[2..] == rest;
    var d := Decode(rest);
    if d.Some? {
      assert b + ([c] + d.value) == b + [c] + d.value;
      assert b + ([Unescaped(c)] + d.value) == b + [Unescaped(c)] + d.value;
    }
  }

  /** Unquote; None is its "unterminated escape" error. */
  method Unquote(raw: string) returns (r: Option<string>)
    ensures r == Unquoted(raw)
  {
    var v := TrimSpace(raw);
    hide TrimSpace;
    if |v| < 2 {
      return Some(v);
    }
    var first, last := v[0], v[|v| - 1];
    if (first == '"' && last == '"') || (first == '\'' && last == '\'') {
      var body := v[1..|v| - 1];
      var b := DecodeLoop(body);
      return b;
    }
    return Some(v);
  }

  /** The escape loop of Unquote. */
  method DecodeLoop(body: string) returns (r: Option<string>)
    ensures r == Decode(body)
  {
    assert Decode("") == Some("") && Decode("\\") == None;
    hide Decode;
    var b := "";
    var esc := false;
    assert body[0..] == body && (Decode(body).Some? ==> "" + Decode(body).value == Decode(body).value);
    for i := 0 to |body|
      invariant Decode(body) == Prepend(b, Decode(if esc then ['\\'] + body[i..] else body[i..]))
    {
      var c := body[i];
      assert body[i..] == [c] + body[i + 1..];
      assert ['\\'] + body[i..] == ['\\', c] + body[i + 1..];
      DecodeStep(b, c, body[i + 1..]);
      if esc {
        if c == '\\' || c == '"' || c == '\'' {
          b := b + [c];
        } else if c == 'n' {
          b := b + ['\n'];
        } else if c == 't' {
          b := b + ['\t'];
        } else {
          b := b + [c];
        }
        esc := false;
      } else if c == '\\' {
        esc := true;
      } else {
        b := b + [c];
      }
    }
    assert body[|body|..] == "" && ['\\'] + "" == "\\" && b + "" == b;
    if esc {
      return None;
    }
    return Some(b);
  }

  /** The printer: a backslash before every backslash and every quote of the kind that encloses the text. */
  function Escape(v: string, q: char): string {
    if v == "" then ""
    else if v[0] == '\\' || v[0] == q then ['\\', v[0]] + Escape(v[1..], q)
    else [v[0]] + Escape(v[1..], q)
  }

  function Enquote(v: string, q: char): string {
    [q] + Escape(v, q) + [q]
  }

  lemma {:induction false} DecodeOfEscape(v: string, q: char)
    requires IsQuote(q)
    ensures Decode(Escape(v, q)) == Some(v)
    decreases |v|
  {
    if v != "" {
      DecodeOfEscape(v[1..], q);
      var e := Escape(v[1..], q);
      if v[0] == '\\' || v[0] == q {
        assert (['\\', v[0]] + e)[2..] == e;
      } else {
        assert ([v[0]] + e)[1..] == e;
      }
      assert [v[0]] + v[1..] == v;
    }
  }

  lemma UnquotedOfWrapped(v: string)
    requires Wrapped(v)
    ensures Unquoted(v) == Decode(v[1..|v| - 1])
  {
    assert !IsSpace(v[0]);
    TrimNoOp(v);
    hide TrimSpace, Decode;
  }

  /** Any text at all survives quoting and unquoting, in either kind of quotes. */
  lemma UnquoteOfEnquote(v: string, q: char)
    requires q == '"' || q == '\''
    ensures Unquoted(Enquote(v, q)) == Some(v)
  {
    hide Unquoted, Escape, Decode;
    var e := Enquote(v, q);
    UnquotedOfWrapped(e);
    assert e[1..|e| - 1] == Escape(v, q);
    DecodeOfEscape(v, q);
  }

  /** A text that does not begin and end in the same quote is only trimmed. */
  lemma BareValueStays(v: string)
    requires |v| < 2 || v[0] != v[|v| - 1] || !(v[0] == '"' || v[0] == '\'')
    requires v == "" || (!IsSpace(v[0]) && !IsSpace(v[|v| - 1]))
    ensures forall before, after :: Blank(before) && Blank(after) ==> Unquoted(before + v + after) == Some(v)
  {
    hide TrimSpace, IsSpace, Blank;
    forall before, after | Blank(before) && Blank(after) ensures Unquoted(before + v + after) == Some(v) {
      TrimPadded(before, v, after);
    }
  }

  /** What follows a backslash: n is a newline, t a tab, and any other character itself. */
  lemma EscapesMean(c: char, rest: string)
    ensures Decode(['\\', c] + rest).None? <==> Decode(rest).None?
    ensures Decode(rest).Some? ==>
              Decode(['\\', c] + rest)
              == Some([if c == 'n' then '\n' else if c == 't' then '\t' else c] + Decode(rest).value)
    ensures c != '\\' && Decode(rest).Some? ==> Decode([c] + rest) == Some([c] + Decode(rest).value)
  {
    assert (['\\', c] + rest)[2..] == rest && ([c] + rest)[1..] == rest;
  }

  /** Escaped text neither closes its quote nor shows the splitter a comma. */
  lemma {:induction false} EscapeStaysQuoted(v: string, q: char)
    ensures LexFrom(Quoted(q), Escape(v, q)) == Quoted(q)
    ensures FirstBareComma(Quoted(q), Escape(v, q)) == |Escape(v, q)|
    decreases |v|
  {
    if v != "" {
      EscapeStaysQuoted(v[1..], q);
      var e := Escape(v[1..], q);
      if v[0] == '\\' || v[0] == q {
        assert (['\\', v[0]] + e)[1..] == [v[0]] + e;
        assert ([v[0]] + e)[1..] == e;
      } else {
        assert ([v[0]] + e)[1..] == e;
      }
    }
  }

  lemma EnquoteIsPlain(v: string, q: char)
    requires IsQuote(q)
    ensures Plain(Enquote(v, q))
  {
    var e := Escape(v, q);
    EscapeStaysQuoted(v, q);
    assert Enquote(v, q) == [q] + (e + [q]);
    assert Enquote(v, q)[1..] == e + [q];
    LexAppend(Quoted(q), e, [q]);
    FirstBareCommaAppend(Quoted(q), e, [q]);
  }

  // --- the two scanners agree on quoting ---

  /** Whether Unquote's scan of s ends just after an unpaired backslash. */
  function Pending(esc: bool, s: string): bool
    decreases |s|
  {
    if s == "" then esc else Pending(!esc && s[0] == '\\', s[1..])
  }

  lemma {:induction false} DecodeFailsIffPending(body: string)
    ensures Decode(body).None? <==> Pending(false, body)
    decreases |body|
  {
    if body != "" {
      if body[0] == '\\' {
        if |body| > 1 {
          DecodeFailsIffPending(body[2..]);
          assert body[1..][1..] == body[2..];
        }
      } else {
        DecodeFailsIffPending(body[1..]);
      }
    }
  }

  /** Inside a quoted stretch both scanners agree on what is escaped; outside the splitter does not look. */
  predicate Agree(l: Lex, esc: bool) {
    match l
    case Outside => true
    case Quoted(_) => !esc
    case Escaped(_) => esc
  }

  lemma {:induction false} ScannersStayInStep(l: Lex, esc: bool, s: string)
    requires Agree(l, esc)
    requires !l.Outside? ==> IsQuote(l.q)
    ensures Agree(LexFrom(l, s), Pending(esc, s))
    decreases |s|
  {
    if s != "" {
      ScannersStayInStep(Step(l, s[0]), !esc && s[0] == '\\', s[1..]);
    }
  }

  /** A value that leaves no quote open for the splitter is one Unquote accepts. */
  lemma BalancedIsUnquotable(raw: string)
    requires Balanced(raw)
    ensures Unquoted(raw).Some?
  {
    var v := TrimSpace(raw);
    TrimKeepsBalance(raw);
    if Wrapped(v) {
      var q, body := v[0], v[1..|v| - 1];
      assert v == [q] + body + [q];
      LexAppend(Outside, [q] + body, [q]);
      LexAppend(Outside, [q], body);
      ScannersStayInStep(Quoted(q), false, body);
      LexQuotesAreQuotes(Quoted(q), body);
      DecodeFailsIffPending(body);
    }
  }
}
