// net.ParseIP: dotted decimal, and colon-separated hexadecimal with "::" and an embedded IPv4 tail.
module IPText {
  import opened Wrappers
  import opened Text
  import opened Net
  import Hostname

  /** One field of a dotted address: a decimal number below 256 without leading zeros. */
  function Octet(f: string): Option<int> {
    if f != "" && (forall i :: 0 <= i < |f| ==> IsDigit(f[i])) && (f[0] != '0' || |f| == 1) && |f| <= 3
       && 0 <= Hostname.Number(f) <= 255
    then Some(Hostname.Number(f)) else None
  }

  /** The four octets of a dotted address. */
  function Octets(s: string): Option<seq<int>> {
    var fs := Split(s, '.');
    if |fs| == 4 && Octet(fs[0]).Some? && Octet(fs[1]).Some? && Octet(fs[2]).Some? && Octet(fs[3]).Some?
    then Some([Octet(fs[0]).value, Octet(fs[1]).value, Octet(fs[2]).value, Octet(fs[3]).value]) else None
  }

  function Parse4(s: string): IP {
    var o := Octets(s);
    if o.None? then NoIP else FromOctets(o.value[0], o.value[1], o.value[2], o.value[3])
  }

  function FromOctets(a: int, b: int, c: int, d: int): IP {
    var v := ((a * 256 + b) * 256 + c) * 256 + d;
    if 0 <= v < 0x1_0000_0000 then V4(v) else NoIP
  }

  function HexValue(c: char): Option<int> {
    if IsDigit(c) then Some(Hostname.DigitValue(c))
    else if 'a' <= c <= 'f' then Some((c as int) - ('a' as int) + 10)
    else if 'A' <= c <= 'F' then Some((c as int) - ('A' as int) + 10)
    else None
  }

  /** The number of hexadecimal digits s starts with. */
  function HexRun(s: string): (n: nat)
    ensures n <= |s|
  {
    if s == "" || HexValue(s[0]).None? then 0 else 1 + HexRun(s[1..])
  }

  function HexNumber(s: string): int {
    if s == "" then 0
    else
      var d := HexValue(s[|s| - 1]);
      16 * HexNumber(s[..|s| - 1]) + (if d.None? then 0 else d.value)
  }

  /** The groups read so far and where a "::" stood among them. */
  datatype Groups = Groups(gs: seq<int>, ellipsis: Option<nat>)

  /** The group loop of netip's IPv6 parser; None is a syntax error. */
  function ParseGroups(s: string, g: Groups): Option<Groups>
    requires |g.gs| <= 8
    decreases 8 - |g.gs|
  {
    if |g.gs| == 8 then (if s == "" then Some(g) else None)
    else
      var n := HexRun(s);
      if n == 0 || n > 4 then None
      else if n < |s| && s[n] == '.' then
        var o := Octets(s);
        if (g.ellipsis.None? && |g.gs| != 6) || |g.gs| > 6 || o.None? then None
        else Some(g.(gs := g.gs + [o.value[0] * 256 + o.value[1], o.value[2] * 256 + o.value[3]]))
      else
        var gs, t := g.gs + [HexNumber(s[..n])], s[n..];
        if t == "" then Some(g.(gs := gs))
        else if t[0] != ':' || |t| == 1 then None
        else if t[1] != ':' then ParseGroups(t[1..], g.(gs := gs))
        else if g.ellipsis.Some? then None
        else if |t| == 2 then Some(Groups(gs, Some(|gs|)))
        else ParseGroups(t[2..], Groups(gs, Some(|gs|)))
  }

  function Zeros(n: nat): seq<int> {
    if n == 0 then [] else [0] + Zeros(n - 1)
  }

  /** The eight groups, the "::" replaced by the zeros it stands for. */
  function Completed(g: Groups): Option<seq<int>> {
    match g.ellipsis
    case None => if |g.gs| == 8 then Some(g.gs) else None
    case Some(e) =>
      if |g.gs| < 8 && e <= |g.gs| then Some(g.gs[..e] + Zeros(8 - |g.gs|) + g.gs[e..]) else None
  }

  /** The number the groups, most significant first, stand for. */
  function Combine(gs: seq<int>): int {
    if gs == [] then 0 else 0x1_0000 * Combine(gs[..|gs| - 1]) + gs[|gs| - 1]
  }

  const MAPPED: int := 0xFFFF_0000_0000  // ::ffff:0:0, the start of the IPv4-mapped block

  /** The address of 128 bits: an IPv4-mapped one is an IPv4 address to the net library. */
  function From128(w: int): IP {
    if MAPPED <= w < MAPPED + 0x1_0000_0000 then V4(w - MAPPED)
    else if 0 <= w < 0x1_0000_0000_0000_0000_0000_0000_0000_0000 then V6(w)
    else NoIP
  }

  function Parse6(s: string): IP {
    var lead := |s| >= 2 && s[0] == ':' && s[1] == ':';
    if lead && |s| == 2 then From128(0)
    else
      var g := if lead then ParseGroups(s[2..], Groups([], Some(0))) else ParseGroups(s, Groups([], None));
      if g.None? then NoIP
      else
        var gs := Completed(g.value);
        if gs.None? then NoIP else From128(Combine(gs.value))
  }

  /** The first of '.' and ':' decides the syntax; a zone is never accepted. */
  function ParseIP(s: string): IP {
    if '%' in s then NoIP
    else if IndexOf(s, '.') < IndexOf(s, ':') then Parse4(s)
    else if IndexOf(s, ':') < |s| then Parse6(s)
    else NoIP
  }
}
