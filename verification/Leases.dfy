// The lease machine of plugin/coredhcp/bootloop on values: what one request does to the records map, the pools'
// allocated sets and the leases4 table, write by write, and the invariant it keeps.
module Leases {
  import opened Wrappers
  import opened Net

  type byte = x: int | 0 <= x < 256

  /** A hardware address, as its octets. */
  type Mac = seq<byte>

  datatype Record = Record(ip: u32, hostname: string)

  /** A mac column of leases4: what this plugin writes, or other text and what net.ParseMAC makes of it. */
  datatype MacText = HwAddr(octets: Mac) | OtherMac(text: string, octetsRead: Option<Mac>)

  /** An ip column of leases4: what this plugin writes, or other text and the IPv4 address net.ParseIP makes of it. */
  datatype IpText = Quad(ip: u32) | OtherIp(text: string, ipRead: Option<u32>)

  /** The primary key of leases4. */
  datatype Key = Key(mac: MacText, ip: IpText)

  /** The table: its key and the hostname column. */
  type Table = map<Key, string>

  datatype Pool = Pool(cidr: Cidr, start: u32, end: u32, used: set<u32>)

  datatype State = State(records: map<Mac, Record>, pools: map<string, Pool>, table: Table)

  datatype Request = Request(mac: Mac, giaddr: IP, iPXE: bool, hostname: string)

  /** What the environment decides in a step: whether the database write succeeds, whether the NAK can be built. */
  datatype Env = Env(dbOk: bool, nakOk: bool)

  /** What map order and allocator decide: the pool picked (None when no pool qualifies) and the address. */
  datatype Choice = Choice(pool: Option<string>, addr: u32)

  datatype Reply =
    | Refused
    | Lease(ip: u32, bootloader: bool)
    | BootScript(ip: u32)
    | Nak
    | NakFailed

  predicate InRange(p: Pool, a: u32) {
    p.start <= a <= p.end
  }

  predicate InNet(p: Pool, a: u32) {
    Contains(p.cidr, V4(a))
  }

  ghost predicate Full(p: Pool) {
    forall a :: InRange(p, a) ==> a in p.used
  }

  /** GetAllocatorForGiaddr may return pool c, in some map order. */
  predicate Selectable(pools: map<string, Pool>, giaddr: IP, c: string) {
    && c in pools
    && if giaddr == NoIP || Unspecified(giaddr) then |pools| == 1 else Contains(pools[c].cidr, giaddr)
  }

  /** The scan for the pool to free an address in may stop at c (None: it finds no pool). */
  ghost predicate Frees(pools: map<string, Pool>, a: u32, c: Option<string>) {
    match c
    case None => forall d :: d in pools ==> !InNet(pools[d], a)
    case Some(d) => d in pools && InNet(pools[d], a)
  }

  ghost predicate Allowed(s: State, q: Request, env: Env, ch: Choice) {
    if q.mac !in s.records then
      match ch.pool
      case None => forall c :: !Selectable(s.pools, q.giaddr, c)
      case Some(c) =>
        && Selectable(s.pools, q.giaddr, c)
        && (Full(s.pools[c]) || (InRange(s.pools[c], ch.addr) && ch.addr !in s.pools[c].used))
    else if q.iPXE || !env.nakOk then true
    else Frees(s.pools, s.records[q.mac].ip, ch.pool)
  }

  function Insert(t: Table, m: Mac, r: Record): Table {
    t[Key(HwAddr(m), Quad(r.ip)) := r.hostname]
  }

  function DeleteMac(t: Table, m: Mac): Table {
    map k | k in t && k.mac != HwAddr(m) :: t[k]
  }

  ghost predicate Allocates(s: State, q: Request, ch: Choice) {
    q.mac !in s.records && ch.pool.Some? && ch.pool.value in s.pools && !Full(s.pools[ch.pool.value])
  }

  predicate Revokes(s: State, q: Request, env: Env) {
    q.mac in s.records && !q.iPXE && env.nakOk
  }

  /** The states Handler4 goes through: the one it starts in and one after each write. */
  ghost function Trail(s: State, q: Request, env: Env, ch: Choice): (t: seq<State>)
    ensures t != [] && t[0] == s
  {
    if Allocates(s, q, ch) then
      var c := ch.pool.value;
      var r := Record(ch.addr, q.hostname);
      var s1 := s.(pools := s.pools[c := s.pools[c].(used := s.pools[c].used + {ch.addr})]);
      var s2 := if env.dbOk then s1.(table := Insert(s1.table, q.mac, r)) else s1;
      [s, s1, s2, s2.(records := s2.records[q.mac := r])]
    else if Revokes(s, q, env) then
      var s1 := if env.dbOk then s.(table := DeleteMac(s.table, q.mac)) else s;
      var s2 := s1.(records := s1.records - {q.mac});
      var a := s.records[q.mac].ip;
      if ch.pool.Some? && ch.pool.value in s.pools then
        var c := ch.pool.value;
        [s, s1, s2, s2.(pools := s2.pools[c := s2.pools[c].(used := s2.pools[c].used - {a})])]
      else
        [s, s1, s2]
    else [s]
  }

  ghost function Next(s: State, q: Request, env: Env, ch: Choice): State {
    var t := Trail(s, q, env, ch);
    t[|t| - 1]
  }

  ghost function ReplyTo(s: State, q: Request, env: Env, ch: Choice): Reply {
    if q.mac !in s.records then
      if Allocates(s, q, ch) then Lease(ch.addr, !q.iPXE) else Refused
    else if q.iPXE then BootScript(s.records[q.mac].ip)
    else if env.nakOk then Nak
    else NakFailed
  }

  // --- the lease invariant ---

  ghost predicate PoolsWellFormed(pools: map<string, Pool>) {
    forall c :: c in pools ==>
      var p := pools[c]; p.start <= p.end && InNet(p, p.start) && InNet(p, p.end)
  }

  ghost predicate PoolsDisjoint(pools: map<string, Pool>) {
    forall c, d :: c in pools && d in pools && c != d ==> Disjoint(pools[c].cidr, pools[d].cidr)
  }

  ghost predicate Held(records: map<Mac, Record>, a: u32) {
    exists m :: m in records && records[m].ip == a
  }

  /** Every recorded address inside a pool's network is allocated in that pool. */
  ghost predicate RecordsAreAllocated(records: map<Mac, Record>, pools: map<string, Pool>) {
    forall m, c :: m in records && c in pools && InNet(pools[c], records[m].ip) ==> records[m].ip in pools[c].used
  }

  /** Every allocated address lies in its pool's range and is recorded. */
  ghost predicate AllocatedAreRecorded(records: map<Mac, Record>, pools: map<string, Pool>) {
    forall c, a {:trigger a in pools[c].used} :: c in pools && a in pools[c].used ==>
                                                   InRange(pools[c], a) && Held(records, a)
  }

  /** No two hardware addresses hold the same address of a pool's network. */
  ghost predicate NoSharing(records: map<Mac, Record>, pools: map<string, Pool>) {
    forall m, n, c :: m in records && n in records && m != n && c in pools && InNet(pools[c], records[m].ip)
                      ==> records[m].ip != records[n].ip
  }

  ghost predicate Inv(s: State) {
    && PoolsWellFormed(s.pools)
    && PoolsDisjoint(s.pools)
    && RecordsAreAllocated(s.records, s.pools)
    && AllocatedAreRecorded(s.records, s.pools)
    && NoSharing(s.records, s.pools)
  }

  lemma RangeIsInNet(p: Pool, a: u32)
    requires InNet(p, p.start) && InNet(p, p.end) && InRange(p, a)
    ensures InNet(p, a)
  {
    RangeInside(p.cidr, p.start, p.end, a);
  }

  lemma OnlyOnePool(pools: map<string, Pool>, a: u32, c: string, d: string)
    requires PoolsDisjoint(pools) && c in pools && d in pools && InNet(pools[c], a) && InNet(pools[d], a)
    ensures c == d
  {
  }

  /** Each pool's allocated set is exactly the set of recorded addresses inside its network. */
  lemma AllocatedIsRecordedInside(s: State, c: string, a: u32)
    requires Inv(s) && c in s.pools
    ensures a in s.pools[c].used <==> InNet(s.pools[c], a) && Held(s.records, a)
  {
    hide Contains;
    var p := s.pools[c];
    if a in p.used {
      RangeIsInNet(p, a);
    }
  }

  lemma GrantStaysRecorded(records: map<Mac, Record>, pools: map<string, Pool>, m: Mac, r: Record, c: string)
    requires m !in records && c in pools && InRange(pools[c], r.ip)
    requires AllocatedAreRecorded(records, pools)
    ensures AllocatedAreRecorded(records[m := r], pools[c := pools[c].(used := pools[c].used + {r.ip})])
  {
    hide Contains;
    var after := pools[c := pools[c].(used := pools[c].used + {r.ip})];
    forall d, b | d in after && b in after[d].used ensures InRange(after[d], b) && Held(records[m := r], b) {
      if d == c && b == r.ip {
        assert records[m := r][m].ip == b;
      } else {
        assert b in pools[d].used;
        var n :| n in records && records[n].ip == b;
        assert records[m := r][n].ip == b;
      }
    }
  }

  lemma GrantIsUnshared(records: map<Mac, Record>, pools: map<string, Pool>, m: Mac, r: Record, c: string)
    requires m !in records && c in pools && InNet(pools[c], r.ip) && r.ip !in pools[c].used
    requires PoolsDisjoint(pools) && RecordsAreAllocated(records, pools) && NoSharing(records, pools)
    ensures var after := pools[c := pools[c].(used := pools[c].used + {r.ip})];
            RecordsAreAllocated(records[m := r], after) && NoSharing(records[m := r], after)
  {
    hide Contains;
    var after, recs := pools[c := pools[c].(used := pools[c].used + {r.ip})], records[m := r];
    assert forall n :: n in records ==> records[n].ip != r.ip;
    forall n, d | n in recs && d in after && InNet(after[d], recs[n].ip) ensures recs[n].ip in after[d].used {
      if n == m {
        OnlyOnePool(pools, r.ip, c, d);
      } else {
        assert InNet(pools[d], records[n].ip);
      }
    }
    forall n, o, d | n in recs && o in recs && n != o && d in after && InNet(after[d], recs[n].ip)
      ensures recs[n].ip != recs[o].ip
    {
      if n != m && o != m {
        assert InNet(pools[d], records[n].ip);
      }
    }
  }

  lemma AllocationKeepsInv(s: State, q: Request, env: Env, ch: Choice)
    requires Inv(s) && Allowed(s, q, env, ch) && Allocates(s, q, ch)
    ensures Inv(Next(s, q, env, ch))
  {
    var c, r := ch.pool.value, Record(ch.addr, q.hostname);
    var t := Next(s, q, env, ch);
    assert t.records == s.records[q.mac := r];
    assert t.pools == s.pools[c := s.pools[c].(used := s.pools[c].used + {r.ip})];
    RangeIsInNet(s.pools[c], r.ip);
    GrantStaysRecorded(s.records, s.pools, q.mac, r, c);
    GrantIsUnshared(s.records, s.pools, q.mac, r, c);
  }

  /** Address a is taken out of every pool's allocated set; nothing else changes. */
  ghost predicate FreedEverywhere(pools: map<string, Pool>, a: u32, after: map<string, Pool>) {
    && after.Keys == pools.Keys
    && forall d :: d in pools ==> after[d] == Pool(pools[d].cidr, pools[d].start, pools[d].end, pools[d].used - {a})
  }

  /** A NAK removes the record and takes its address out of every pool, whichever pool the scan stopped at. */
  lemma RevocationFrees(s: State, q: Request, env: Env, ch: Choice)
    requires Inv(s) && Allowed(s, q, env, ch) && Revokes(s, q, env)
    ensures var t := Next(s, q, env, ch);
            t.records == s.records - {q.mac} && FreedEverywhere(s.pools, s.records[q.mac].ip, t.pools)
  {
    hide Contains;
    var a := s.records[q.mac].ip;
    var t := Next(s, q, env, ch);
    forall d | d in s.pools
      ensures t.pools[d] == Pool(s.pools[d].cidr, s.pools[d].start, s.pools[d].end, s.pools[d].used - {a})
    {
      if a in s.pools[d].used {
        RangeIsInNet(s.pools[d], a);
        OnlyOnePool(s.pools, a, ch.pool.value, d);
      } else {
        assert s.pools[d].used - {a} == s.pools[d].used;
      }
    }
  }

  lemma FreedStaysRecorded(records: map<Mac, Record>, pools: map<string, Pool>, m: Mac, after: map<string, Pool>)
    requires m in records && FreedEverywhere(pools, records[m].ip, after)
    requires AllocatedAreRecorded(records, pools)
    ensures AllocatedAreRecorded(records - {m}, after)
  {
    hide Contains;
    forall d, b | d in after && b in after[d].used ensures InRange(after[d], b) && Held(records - {m}, b) {
      assert b in pools[d].used;
      var n :| n in records && records[n].ip == b;
      assert n in records - {m};
    }
  }

  lemma RemainingStayAllocated(records: map<Mac, Record>, pools: map<string, Pool>, m: Mac, after: map<string, Pool>)
    requires m in records && FreedEverywhere(pools, records[m].ip, after)
    requires RecordsAreAllocated(records, pools) && NoSharing(records, pools)
    ensures RecordsAreAllocated(records - {m}, after) && NoSharing(records - {m}, after)
  {
    hide Contains;
    forall n, d | n in records - {m} && d in after && InNet(after[d], records[n].ip)
      ensures records[n].ip in after[d].used
    {
      assert InNet(pools[d], records[n].ip);
    }
    forall n, o, d | n in records - {m} && o in records - {m} && n != o && d in after && InNet(after[d], records[n].ip)
      ensures records[n].ip != records[o].ip
    {
      assert InNet(pools[d], records[n].ip);
    }
  }

  lemma RevocationKeepsInv(s: State, q: Request, env: Env, ch: Choice)
    requires Inv(s) && Allowed(s, q, env, ch) && Revokes(s, q, env)
    ensures Inv(Next(s, q, env, ch))
  {
    var t := Next(s, q, env, ch);
    RevocationFrees(s, q, env, ch);
    FreedStaysRecorded(s.records, s.pools, q.mac, t.pools);
    RemainingStayAllocated(s.records, s.pools, q.mac, t.pools);
  }

  /** Every request keeps the lease invariant, whether or not the database accepts the write. */
  lemma StepKeepsInv(s: State, q: Request, env: Env, ch: Choice)
    requires Inv(s) && Allowed(s, q, env, ch)
    ensures Inv(Next(s, q, env, ch))
  {
    if Allocates(s, q, ch) {
      AllocationKeepsInv(s, q, env, ch);
    } else if Revokes(s, q, env) {
      RevocationKeepsInv(s, q, env, ch);
    }
  }
}
