// internal/rule/rule.go, createRuleCompDict: from rule text to the dictionary of its components.
module RuleDict {
  import opened Wrappers
  import Text
  import Csv
  import Quote

  datatype DictError =
    | EmptyRule
    | UnterminatedQuote
    | TrailingEscape
    | KeyValFormat(elem: nat, got: string)
    | NoKey(elem: nat, got: string)
    | UnknownKey(elem: nat, key: string)
    | BadQuote(elem: nat, got: string)
    | DuplicateKey(elem: nat, got: string, key: string)

  type Dict = map<string, string>

  const ALLOWED_KEYS: seq<string> := [
    "cidr", "continue", "domain", "domain_append", "hostname", "id", "id_set",
    "ignore", "log", "name", "netmask", "routers", "subnet", "type"]

  /** A character of an allowed key: neither white space nor anything the scanners treat specially. */
  predicate KeyChar(c: char) {
    'a' <= c <= 'z' || c == '_'
  }

  predicate KeyText(key: string) {
    key != "" && forall i :: 0 <= i < |key| ==> KeyChar(key[i])
  }

  predicate KeyTable(table: seq<string>) {
    forall i :: 0 <= i < |table| ==> KeyText(table[i])
  }

  /** KeyAllowed: the linear search over the table of keys. */
  method KeyAllowed(key: string) returns (found: bool)
    ensures found <==> key in ALLOWED_KEYS
  {
    for i := 0 to |ALLOWED_KEYS|
      invariant key !in ALLOWED_KEYS[..i]
    {
      if ALLOWED_KEYS[i] == key {
        return true;
      }
    }
    return false;
  }

  lemma AllowedKeysAreKeyText()
    ensures KeyTable(ALLOWED_KEYS)
  {
  }

  /** One component, already trimmed and not blank: its key and value, or why it is refused. */
  function Component(table: seq<string>, idx: nat, p: string, taken: set<string>): Result<(string, string), DictError> {
    match Text.Cut(p, ':')
    case None => Err(KeyValFormat(idx, p))
    case Some((rawKey, rawVal)) =>
      var key := Text.TrimSpace(rawKey);
      if key == "" then Err(NoKey(idx, p))
      else if key !in table then Err(UnknownKey(idx, key))
      else match Quote.Unquoted(Text.TrimSpace(rawVal))
        case None => Err(BadQuote(idx, p))
        case Some(val) => if key in taken then Err(DuplicateKey(idx, p, key)) else Ok((key, val))
  }

  /** The components from position idx on, added to those already taken. */
  function Collect(table: seq<string>, parts: seq<string>, idx: nat, comps: Dict): Result<Dict, DictError> {
    if parts == [] then Ok(comps)
    else
      var p := Text.TrimSpace(parts[0]);
      if p == "" then Collect(table, parts[1..], idx + 1, comps)
      else match Component(table, idx, p, comps.Keys)
        case Err(e) => Err(e)
        case Ok((key, val)) => Collect(table, parts[1..], idx + 1, comps[key := val])
  }

  /** Specification of createRuleCompDict. */
  function DictOf(rule: string): Result<Dict, DictError> {
    var r := Text.TrimSpace(rule);
    if r == "" then Err(EmptyRule)
    else if !Csv.Balanced(r) then Err(UnterminatedQuote)
    else Collect(ALLOWED_KEYS, Csv.Split(r), 0, map[])
  }

  /** createRuleCompDict */
  method CreateRuleCompDict(text: string) returns (r: Result<Dict, DictError>)
    ensures r == DictOf(text)
  {
    hide Text.TrimSpace, Quote.Unquoted, Text.Cut, Csv.Balanced, Csv.Split;
    var rule := Text.TrimSpace(text);
    if rule == "" {
      return Err(EmptyRule);
    }
    var split := Csv.SplitCSV(rule);
    if split.Err? {
      return Err(if split.error.UnterminatedQuote? then UnterminatedQuote else TrailingEscape);
    }
    var parts := split.value;
    var comps: Dict := map[];
    for idx := 0 to |parts|
      invariant Collect(ALLOWED_KEYS, parts, 0, map[]) == Collect(ALLOWED_KEYS, parts[idx..], idx, comps)
    {
      var p := Text.TrimSpace(parts[idx]);
      if p == "" {
        continue;
      }
      var cut := Text.Cut(p, ':');
      if cut.None? {
        return Err(KeyValFormat(idx, p));
      }
      var (rawKey, rawVal) := cut.value;
      var key := Text.TrimSpace(rawKey);
      if key == "" {
        return Err(NoKey(idx, p));
      }
      var allowed := KeyAllowed(key);
      if !allowed {
        return Err(UnknownKey(idx, key));
      }
      var val := Quote.Unquote(Text.TrimSpace(rawVal));
      if val.None? {
        return Err(BadQuote(idx, p));
      }
      if key in comps {
        return Err(DuplicateKey(idx, p, key));
      }
      comps := comps[key := val.value];
    }
    return Ok(comps);
  }

  // --- the bad-quote error cannot happen ---

  lemma {:induction false} KeyTextStaysOutside(s: string)
    requires forall i :: 0 <= i < |s| ==> KeyChar(s[i]) || Text.IsSpace(s[i]) || s[i] == ':'
    ensures Csv.LexFrom(Csv.Outside, s) == Csv.Outside
    ensures Csv.FirstBareComma(Csv.Outside, s) == |s|
    decreases |s|
  {
    if s != "" {
      KeyTextStaysOutside(s[1..]);
    }
  }

  lemma PaddedKeyStaysOutside(before: string, key: string, after: string)
    requires Text.Blank(before) && Text.Blank(after) && KeyText(key)
    ensures Csv.Balanced(before + key + after + ":")
  {
    var head := before + key + after + ":";
    forall i | 0 <= i < |head| ensures KeyChar(head[i]) || Text.IsSpace(head[i]) || head[i] == ':' {
      if |before| <= i < |before| + |key| {
        assert head[i] == key[i - |before|];
      } else if |before| + |key| <= i < |head| - 1 {
        assert head[i] == after[i - |before| - |key|];
      }
    }
    KeyTextStaysOutside(head);
  }

  /** The value of a balanced component with an allowed key is balanced. */
  lemma ValueIsBalanced(p: string, rawKey: string, rawVal: string)
    requires Csv.Balanced(p)
    requires Text.Cut(p, ':') == Some((rawKey, rawVal))
    requires KeyText(Text.TrimSpace(rawKey))
    ensures Csv.Balanced(rawVal)
  {
    var before, after := Text.TrimSpaceSplits(rawKey);
    hide Text.TrimSpace;
    PaddedKeyStaysOutside(before, Text.TrimSpace(rawKey), after);
    var head := rawKey + ":";
    assert p == head + rawVal;
    Csv.LexAppend(Csv.Outside, head, rawVal);
  }

  lemma ComponentNeverBadQuote(table: seq<string>, idx: nat, part: string, taken: set<string>)
    requires KeyTable(table) && Csv.Balanced(part)
    ensures var c := Component(table, idx, Text.TrimSpace(part), taken); c.Err? ==> !c.error.BadQuote?
  {
    var p := Text.TrimSpace(part);
    Csv.TrimKeepsBalance(part);
    match Text.Cut(p, ':')
    case None =>
    case Some((rawKey, rawVal)) =>
      if Text.TrimSpace(rawKey) in table {
        ValueIsBalanced(p, rawKey, rawVal);
        Csv.TrimKeepsBalance(rawVal);
        Quote.BalancedIsUnquotable(Text.TrimSpace(rawVal));
      }
  }

  lemma {:induction false} CollectNeverBadQuote(table: seq<string>, parts: seq<string>, idx: nat, comps: Dict)
    requires KeyTable(table)
    requires forall i :: 0 <= i < |parts| ==> Csv.Balanced(parts[i])
    ensures var r := Collect(table, parts, idx, comps); r.Err? ==> !r.error.BadQuote?
    decreases |parts|
  {
    hide Component;
    hide Text.TrimSpace;
    if parts != [] {
      var p := Text.TrimSpace(parts[0]);
      ComponentNeverBadQuote(table, idx, parts[0], comps.Keys);
      if p == "" {
        CollectNeverBadQuote(table, parts[1..], idx + 1, comps);
      } else if Component(table, idx, p, comps.Keys).Ok? {
        var (key, val) := Component(table, idx, p, comps.Keys).value;
        CollectNeverBadQuote(table, parts[1..], idx + 1, comps[key := val]);
      }
    }
  }

  /** The splitter and Unquote agree on quoting: no rule text at all is refused for a bad quote. */
  lemma BadQuoteUnreachable(rule: string)
    ensures DictOf(rule).Err? ==> !DictOf(rule).error.BadQuote? && !DictOf(rule).error.TrailingEscape?
  {
    var r := Text.TrimSpace(rule);
    if r != "" && Csv.Balanced(r) {
      Csv.SplitPieces(r);
      AllowedKeysAreKeyText();
      CollectNeverBadQuote(ALLOWED_KEYS, Csv.Split(r), 0, map[]);
      CollectNeverTrailing(ALLOWED_KEYS, Csv.Split(r), 0, map[]);
    }
  }

  lemma {:induction false} CollectNeverTrailing(table: seq<string>, parts: seq<string>, idx: nat, comps: Dict)
    ensures var r := Collect(table, parts, idx, comps); r.Err? ==> !r.error.TrailingEscape?
    decreases |parts|
  {
    hide Text.TrimSpace, Quote.Unquoted, Text.Cut;
    if parts != [] {
      var p := Text.TrimSpace(parts[0]);
      if p == "" {
        CollectNeverTrailing(table, parts[1..], idx + 1, comps);
      } else if Component(table, idx, p, comps.Keys).Ok? {
        var (key, val) := Component(table, idx, p, comps.Keys).value;
        CollectNeverTrailing(table, parts[1..], idx + 1, comps[key := val]);
      }
    }
  }

  // --- the rule text round trip ---

  /** One printed component: the key, a colon, and the escaped value in quotes. */
  function Printed(key: string, val: string, q: char): string {
    key + ":" + Quote.Enquote(val, q)
  }

  /** The components in the order of keys, each value in the quotes chosen for its key. */
  function PrintedParts(keys: seq<string>, m: Dict, quote: string -> char): seq<string>
    requires forall i :: 0 <= i < |keys| ==> keys[i] in m
  {
    seq(|keys|, i requires 0 <= i < |keys| => Printed(keys[i], m[keys[i]], quote(keys[i])))
  }

  /** A dictionary printed in the order of keys. */
  function Print(keys: seq<string>, m: Dict, quote: string -> char): string
    requires forall i :: 0 <= i < |keys| ==> keys[i] in m
  {
    Text.Join(PrintedParts(keys, m, quote), ",")
  }

  /** Every value is in single or double quotes. */
  ghost predicate Quotes(quote: string -> char) {
    forall k :: quote(k) == '"' || quote(k) == '\''
  }

  /** keys lists the domain of m, each key once. */
  predicate Lists(keys: seq<string>, m: Dict) {
    && (forall i :: 0 <= i < |keys| ==> keys[i] in m)
    && (forall k :: k in m ==> k in keys)
    && (forall i, j :: 0 <= i < j < |keys| ==> keys[i] != keys[j])
  }

  lemma PrintedIsPlain(key: string, val: string, q: char)
    requires KeyText(key) && Csv.IsQuote(q)
    ensures Csv.Plain(Printed(key, val, q))
  {
    KeyTextStaysOutside(key + ":");
    Quote.EnquoteIsPlain(val, q);
    Csv.LexAppend(Csv.Outside, key + ":", Quote.Enquote(val, q));
    Csv.FirstBareCommaAppend(Csv.Outside, key + ":", Quote.Enquote(val, q));
  }

  lemma QuoteVisible(q: char)
    requires q == '"' || q == '\''
    ensures !Text.IsSpace(q)
  {
  }

  /** The ends of a text put together from three. */
  lemma EndsOf(a: string, mid: string, b: string)
    requires a != "" && b != ""
    ensures var s := a + mid + b; s[0] == a[0] && s[|s| - 1] == b[|b| - 1]
  {
  }

  lemma PrintedTrims(key: string, val: string, q: char)
    requires KeyText(key) && (q == '"' || q == '\'')
    ensures var p, e := Printed(key, val, q), Quote.Enquote(val, q);
            Text.TrimSpace(p) == p && Text.TrimSpace(e) == e && Text.TrimSpace(key) == key && p == key + [':'] + e
  {
    var e := Quote.Enquote(val, q);
    QuoteVisible(q);
    KeyVisible(key);
    EndsOf([q], Quote.Escape(val, q), [q]);
    hide Text.TrimSpace, Quote.Enquote, Text.IsSpace;
    EndsOf(key, ":", e);
    Text.TrimNoOp(key + ":" + e);
    Text.TrimNoOp(key);
    Text.TrimNoOp(e);
  }

  lemma KeyVisible(key: string)
    requires KeyText(key)
    ensures !Text.IsSpace(key[0]) && !Text.IsSpace(key[|key| - 1])
  {
    assert KeyChar(key[0]) && KeyChar(key[|key| - 1]);
  }

  lemma CutAt(key: string, rest: string)
    requires ':' !in key
    ensures Text.Cut(key + [':'] + rest, ':') == Some((key, rest))
  {
    Text.IndexOfFirst(key, ':', rest);
    hide Text.IndexOf;
    var p := key + [':'] + rest;
    assert p[..|key|] == key && p[|key| + 1..] == rest;
  }

  /** What becomes of a component with a colon. */
  lemma ComponentCut(table: seq<string>, idx: nat, p: string, rawKey: string, rawVal: string, taken: set<string>)
    requires Text.Cut(p, ':') == Some((rawKey, rawVal))
    ensures var key, val := Text.TrimSpace(rawKey), Quote.Unquoted(Text.TrimSpace(rawVal));
            Component(table, idx, p, taken) ==
            if key == "" then Err(NoKey(idx, p))
            else if key !in table then Err(UnknownKey(idx, key))
            else if val.None? then Err(BadQuote(idx, p))
            else if key in taken then Err(DuplicateKey(idx, p, key))
            else Ok((key, val.value))
  {
    hide Text.Cut, Text.TrimSpace, Quote.Unquoted;
  }

  lemma PrintedReadsBack(table: seq<string>, idx: nat, key: string, val: string, q: char, taken: set<string>)
    requires key in table && KeyText(key) && key !in taken && (q == '"' || q == '\'')
    ensures Text.TrimSpace(Printed(key, val, q)) == Printed(key, val, q)
    ensures Component(table, idx, Printed(key, val, q), taken) == Ok((key, val))
  {
    hide Text.TrimSpace, Quote.Unquoted, Quote.Enquote, Text.Cut, Printed, Component, KeyChar;
    PrintedTrims(key, val, q);
    assert ':' !in key by {
      NoColon(key);
    }
    CutAt(key, Quote.Enquote(val, q));
    Quote.UnquoteOfEnquote(val, q);
    ComponentCut(table, idx, Printed(key, val, q), key, Quote.Enquote(val, q), taken);
  }

  lemma NoColon(key: string)
    requires KeyText(key)
    ensures ':' !in key
  {
    assert !KeyChar(':');
  }

  lemma PrintedNotEmpty(key: string, val: string, q: char)
    ensures Printed(key, val, q) != ""
  {
  }

  lemma CollectStep(table: seq<string>, parts: seq<string>, n: nat, comps: Dict, key: string, val: string)
    requires n < |parts| && Text.TrimSpace(parts[n]) == parts[n] != ""
    requires Component(table, n, parts[n], comps.Keys) == Ok((key, val))
    ensures Collect(table, parts[n..], n, comps) == Collect(table, parts[n + 1..], n + 1, comps[key := val])
  {
    hide Component, Text.TrimSpace;
    assert parts[n..][0] == parts[n] && parts[n..][1..] == parts[n + 1..];
  }

  /** The entries of m under the first n keys. */
  function FirstEntries(keys: seq<string>, m: Dict, n: nat): Dict
    requires n <= |keys| && forall i :: 0 <= i < |keys| ==> keys[i] in m
  {
    map k | k in keys[..n] :: m[k]
  }

  lemma EntriesOneMore(keys: seq<string>, m: Dict, n: nat)
    requires Lists(keys, m) && n < |keys|
    ensures keys[n] !in FirstEntries(keys, m, n)
    ensures FirstEntries(keys, m, n)[keys[n] := m[keys[n]]] == FirstEntries(keys, m, n + 1)
  {
    assert keys[..n + 1] == keys[..n] + [keys[n]];
  }

  lemma EntriesAll(keys: seq<string>, m: Dict)
    requires Lists(keys, m)
    ensures FirstEntries(keys, m, |keys|) == m && FirstEntries(keys, m, 0) == map[]
  {
    assert keys[..|keys|] == keys;
  }

  lemma PartIs(keys: seq<string>, m: Dict, quote: string -> char, n: nat)
    requires Lists(keys, m) && n < |keys|
    ensures |PrintedParts(keys, m, quote)| == |keys|
    ensures PrintedParts(keys, m, quote)[n] == Printed(keys[n], m[keys[n]], quote(keys[n]))
  {
    hide Printed;
  }

  lemma PrintedStep(table: seq<string>, parts: seq<string>, n: nat, comps: Dict, key: string, val: string, q: char)
    requires n < |parts| && parts[n] == Printed(key, val, q)
    requires key in table && KeyText(key) && key !in comps && (q == '"' || q == '\'')
    ensures Collect(table, parts[n..], n, comps) == Collect(table, parts[n + 1..], n + 1, comps[key := val])
  {
    hide Component, Text.TrimSpace, Printed, Collect, KeyText;
    PrintedNotEmpty(key, val, q);
    PrintedReadsBack(table, n, key, val, q, comps.Keys);
    CollectStep(table, parts, n, comps, key, val);
  }

  lemma KeyTextAt(table: seq<string>, key: string)
    requires KeyTable(table) && key in table
    ensures KeyText(key)
  {
    hide KeyText;
  }

  lemma {:induction false} CollectPrinted(table: seq<string>, keys: seq<string>, m: Dict, quote: string -> char, n: nat)
    requires KeyTable(table) && Lists(keys, m) && forall i :: 0 <= i < |keys| ==> keys[i] in table
    requires n <= |keys| && Quotes(quote)
    ensures |PrintedParts(keys, m, quote)| == |keys|
    ensures Collect(table, PrintedParts(keys, m, quote)[n..], n, FirstEntries(keys, m, n)) == Ok(m)
    decreases |keys| - n
  {
    if n == |keys| {
      EntriesAll(keys, m);
      assert PrintedParts(keys, m, quote)[n..] == [];
    } else {
      CollectPrinted(table, keys, m, quote, n + 1);
      KeyTextAt(table, keys[n]);
      PartIs(keys, m, quote, n);
      EntriesOneMore(keys, m, n);
      hide Collect, PrintedParts, FirstEntries, KeyTable, KeyText, Printed;
      PrintedStep(table, PrintedParts(keys, m, quote), n, FirstEntries(keys, m, n), keys[n], m[keys[n]],
                  quote(keys[n]));
    }
  }

  lemma PrintIsTrimmed(keys: seq<string>, m: Dict, quote: string -> char)
    requires Lists(keys, m) && keys != [] && KeyText(keys[0]) && Quotes(quote)
    ensures Text.TrimSpace(Print(keys, m, quote)) == Print(keys, m, quote) != ""
  {
    var parts := PrintedParts(keys, m, quote);
    assert KeyText(keys[0]);
    assert parts[0][0] == keys[0][0];
    var last := parts[|parts| - 1];
    var q := quote(keys[|keys| - 1]);
    assert last[|last| - 1] == q && !Text.IsSpace(q);
    JoinEnds(parts);
    Text.TrimNoOp(Print(keys, m, quote));
  }

  lemma JoinEnds(parts: seq<string>)
    requires parts != [] && parts[0] != "" && parts[|parts| - 1] != ""
    ensures var j := Text.Join(parts, ",");
            var last := parts[|parts| - 1];
            j != "" && j[0] == parts[0][0] && j[|j| - 1] == last[|last| - 1]
  {
    LastOfJoin(parts);
  }

  lemma {:induction false} LastOfJoin(parts: seq<string>)
    requires parts != [] && parts[|parts| - 1] != ""
    ensures var j := Text.Join(parts, ",");
            var last := parts[|parts| - 1];
            j != "" && j[|j| - 1] == last[|last| - 1]
    decreases |parts|
  {
    if |parts| > 1 {
      LastOfJoin(parts[1..]);
    }
  }

  /**
   * The round trip: any non-empty dictionary over the allowed keys, with arbitrary text as values, each in single or in
   * double quotes, and printed in any order, is read back exactly.
   */
  lemma RuleTextRoundTrip(keys: seq<string>, m: Dict, quote: string -> char)
    requires Lists(keys, m) && m != map[] && Quotes(quote)
    requires forall i :: 0 <= i < |keys| ==> keys[i] in ALLOWED_KEYS
    ensures DictOf(Print(keys, m, quote)) == Ok(m)
  {
    var parts := PrintedParts(keys, m, quote);
    var k :| k in m;
    assert keys != [];
    AllowedKeysAreKeyText();
    forall i | 0 <= i < |parts| ensures Csv.Plain(parts[i]) && parts[i] != "" {
      PrintedIsPlain(keys[i], m[keys[i]], quote(keys[i]));
    }
    PrintIsTrimmed(keys, m, quote);
    Csv.SplitOfJoin(parts);
    assert parts[0..] == parts;
    EntriesAll(keys, m);
    CollectPrinted(ALLOWED_KEYS, keys, m, quote, 0);
  }

  // --- which texts are read, and what is wrong with the others ---

  /** The text before the first colon of a component, trimmed; the component has one. */
  function KeyOf(part: string): string {
    var p := Text.TrimSpace(part);
    Text.TrimSpace(p[..Text.IndexOf(p, ':')])
  }

  /** What follows the first colon, unquoted. */
  function ValueOf(part: string): Option<string> {
    var p := Text.TrimSpace(part);
    var k := Text.IndexOf(p, ':');
    if k == |p| then None else Quote.Unquoted(Text.TrimSpace(p[k + 1..]))
  }

  /** A component that counts: not blank. */
  predicate Counts(part: string) {
    Text.TrimSpace(part) != ""
  }

  /** What is wrong with a component in itself, numbered idx, given the keys before it. */
  ghost predicate Fault(part: string, idx: nat, taken: set<string>, e: DictError) {
    var p, key := Text.TrimSpace(part), KeyOf(part);
    if ':' !in p then e == KeyValFormat(idx, p)
    else if key == "" then e == NoKey(idx, p)
    else if key !in ALLOWED_KEYS then e == UnknownKey(idx, key)
    else key in taken && e == DuplicateKey(idx, p, key)
  }

  /** A component in order: a colon, an allowed key, and one not taken. */
  ghost predicate InOrder(part: string, taken: set<string>) {
    ':' in Text.TrimSpace(part) && KeyOf(part) in ALLOWED_KEYS && KeyOf(part) !in taken
  }

  /** The keys of the first n components that count. */
  ghost function KeysBefore(parts: seq<string>, n: nat): set<string>
    requires n <= |parts|
  {
    set i | 0 <= i < n && Counts(parts[i]) :: KeyOf(parts[i])
  }

  lemma ColonIndex(p: string)
    ensures ':' in p <==> Text.IndexOf(p, ':') < |p|
  {
    var k := Text.IndexOf(p, ':');
    assert k == |p| ==> p[..k] == p;
  }

  lemma CutIs(p: string)
    ensures var k := Text.IndexOf(p, ':');
            if ':' in p then k < |p| && Text.Cut(p, ':') == Some((p[..k], p[k + 1..])) else Text.Cut(p, ':') == None
  {
    ColonIndex(p);
    hide Text.IndexOf;
  }

  lemma ComponentIs(idx: nat, part: string, taken: set<string>)
    requires Csv.Balanced(part)
    ensures var c := Component(ALLOWED_KEYS, idx, Text.TrimSpace(part), taken);
            && (c.Ok? <==> InOrder(part, taken))
            && (c.Ok? ==> ValueOf(part).Some? && c.value == (KeyOf(part), ValueOf(part).value))
            && (c.Err? ==> Fault(part, idx, taken, c.error))
  {
    AllowedKeysAreKeyText();
    hide Text.TrimSpace, Quote.Unquoted, Text.IndexOf, Csv.Balanced, ALLOWED_KEYS, Text.Cut, KeyTable;
    var p := Text.TrimSpace(part);
    ComponentNeverBadQuote(ALLOWED_KEYS, idx, part, taken);
    CutIs(p);
    NoEmptyKey();
    if ':' in p {
      var k := Text.IndexOf(p, ':');
      ComponentCut(ALLOWED_KEYS, idx, p, p[..k], p[k + 1..], taken);
      hide Component;
    } else {
      assert Component(ALLOWED_KEYS, idx, p, taken) == Err(KeyValFormat(idx, p));
    }
  }

  lemma NoEmptyKey()
    ensures "" !in ALLOWED_KEYS
  {
    AllowedKeysAreKeyText();
    hide ALLOWED_KEYS;
  }

  /** All components that count are in order. */
  ghost predicate AllInOrder(parts: seq<string>, n: nat)
    requires n <= |parts|
  {
    forall i :: 0 <= i < n && Counts(parts[i]) ==> InOrder(parts[i], KeysBefore(parts, i))
  }

  /** The dictionary has the component's value under its key. */
  predicate HoldsPart(m: Dict, part: string) {
    KeyOf(part) in m && ValueOf(part) == Some(m[KeyOf(part)])
  }

  /** The dictionary holds the keys of the first n components that count, each with its value, and no other. */
  ghost predicate Holds(parts: seq<string>, n: nat, m: Dict)
    requires n <= |parts|
  {
    && m.Keys == KeysBefore(parts, n)
    && forall i :: 0 <= i < n && Counts(parts[i]) ==> HoldsPart(m, parts[i])
  }

  lemma KeysOneMore(parts: seq<string>, n: nat)
    requires n < |parts|
    ensures KeysBefore(parts, n + 1) == KeysBefore(parts, n) + if Counts(parts[n]) then {KeyOf(parts[n])} else {}
  {
    hide KeyOf, Counts;
  }

  lemma HoldsSkip(parts: seq<string>, n: nat, m: Dict)
    requires n < |parts| && Holds(parts, n, m) && !Counts(parts[n])
    ensures Holds(parts, n + 1, m)
  {
    KeysOneMore(parts, n);
    hide KeyOf, Counts, HoldsPart, KeysBefore;
  }

  lemma HoldsPartKept(m: Dict, part: string, key: string, val: string)
    requires HoldsPart(m, part) && key !in m
    ensures HoldsPart(m[key := val], part)
  {
    hide KeyOf, ValueOf;
  }

  lemma HoldsPartNew(m: Dict, part: string)
    requires ValueOf(part).Some?
    ensures HoldsPart(m[KeyOf(part) := ValueOf(part).value], part)
  {
    hide KeyOf, ValueOf;
  }

  lemma HoldsAdd(parts: seq<string>, n: nat, m: Dict)
    requires n < |parts| && Holds(parts, n, m)
    requires Counts(parts[n]) && KeyOf(parts[n]) !in m && ValueOf(parts[n]).Some?
    ensures Holds(parts, n + 1, m[KeyOf(parts[n]) := ValueOf(parts[n]).value])
  {
    hide KeyOf, Counts, ValueOf, KeysBefore, HoldsPart;
    KeysOneMore(parts, n);
    HoldsPartNew(m, parts[n]);
    var key, val := KeyOf(parts[n]), ValueOf(parts[n]).value;
    forall i | 0 <= i < n + 1 && Counts(parts[i]) ensures HoldsPart(m[key := val], parts[i]) {
      if i < n {
        HoldsPartKept(m, parts[i], key, val);
      }
    }
    assert m[key := val].Keys == m.Keys + {key};
  }

  /** The first component out of order has this fault. */
  ghost predicate FirstFault(parts: seq<string>, e: DictError) {
    exists i :: 0 <= i < |parts| && AllInOrder(parts, i) && Counts(parts[i])
                && Fault(parts[i], i, KeysBefore(parts, i), e)
  }

  /** The dictionary of the components, or the fault of the first that has one. */
  lemma {:induction false} CollectIs(parts: seq<string>, n: nat, comps: Dict)
    requires n <= |parts| && forall i :: 0 <= i < |parts| ==> Csv.Balanced(parts[i])
    requires AllInOrder(parts, n) && Holds(parts, n, comps)
    ensures match Collect(ALLOWED_KEYS, parts[n..], n, comps)
            case Ok(m) => AllInOrder(parts, |parts|) && Holds(parts, |parts|, m)
            case Err(e) => FirstFault(parts, e)
    decreases |parts| - n
  {
    hide Component, Text.TrimSpace, KeyOf, ValueOf, Fault, InOrder, Csv.Balanced, Holds, ALLOWED_KEYS, KeysBefore;
    if n < |parts| {
      assert parts[n..][0] == parts[n] && parts[n..][1..] == parts[n + 1..];
      if !Counts(parts[n]) {
        HoldsSkip(parts, n, comps);
        CollectIs(parts, n + 1, comps);
      } else {
        TakenAre(parts, n, comps);
        ComponentIs(n, parts[n], comps.Keys);
        var c := Component(ALLOWED_KEYS, n, Text.TrimSpace(parts[n]), comps.Keys);
        if c.Ok? {
          KeyFree(parts[n], comps.Keys);
          HoldsAdd(parts, n, comps);
          CollectIs(parts, n + 1, comps[KeyOf(parts[n]) := ValueOf(parts[n]).value]);
        }
      }
    }
  }

  lemma TakenAre(parts: seq<string>, n: nat, m: Dict)
    requires n <= |parts| && Holds(parts, n, m)
    ensures m.Keys == KeysBefore(parts, n)
  {
    hide KeysBefore, KeyOf, ValueOf, Counts;
  }

  lemma KeyFree(part: string, taken: set<string>)
    requires InOrder(part, taken)
    ensures KeyOf(part) !in taken
  {
    hide KeyOf, ALLOWED_KEYS;
  }

  /**
   * A text is read if and only if it is not blank, leaves no quote open, and each of its components that is not blank
   * has a colon and an allowed key that no earlier one has; the dictionary then has exactly those keys, each with the
   * unquoted text after its first colon. Otherwise the error is that of the first component out of order.
   */
  lemma DictIs(rule: string)
    ensures var text := Text.TrimSpace(rule);
            var parts := Csv.Split(text);
            match DictOf(rule)
            case Ok(m) => text != "" && Csv.Balanced(text) && AllInOrder(parts, |parts|) && Holds(parts, |parts|, m)
            case Err(e) =>
              if text == "" then e == EmptyRule
              else if !Csv.Balanced(text) then e == UnterminatedQuote
              else FirstFault(parts, e)
  {
    var text := Text.TrimSpace(rule);
    hide Text.TrimSpace, Csv.Split, Csv.Balanced, AllInOrder, Holds, FirstFault, ALLOWED_KEYS, Collect;
    if text != "" && Csv.Balanced(text) {
      var parts := Csv.Split(text);
      Csv.SplitPieces(text);
      NothingHeld(parts);
      CollectIs(parts, 0, map[]);
      assert parts[0..] == parts;
    }
  }

  lemma NothingHeld(parts: seq<string>)
    ensures AllInOrder(parts, 0) && Holds(parts, 0, map[])
  {
  }
}
