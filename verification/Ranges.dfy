// What lease safety asks of the configured pools: the exact conditions under which no run gives one address to two
// clients, and under which every run keeps the allocated sets equal to the recorded addresses.
module Ranges {
  import opened Wrappers
  import opened Net
  import opened Leases
  import opened LeaseRuns
  import opened Restart

  /** Two clients hold the same address. */
  ghost predicate Shared(records: map<Mac, Record>) {
    exists m, n :: m in records && n in records && m != n && records[m].ip == records[n].ip
  }

  /** Two clients hold address a. */
  ghost predicate HeldTwice(records: map<Mac, Record>, a: u32) {
    exists m, n :: m in records && n in records && m != n && records[m].ip == records[n].ip == a
  }

  /**
   * Some relay address selects the pool: it is the only one, or its network has an address other than 0.0.0.0, which
   * counts as no relay at all.
   */
  predicate Reachable(pools: map<string, Pool>, c: string)
    requires c in pools
  {
    |pools| == 1 || V4Net(pools[c].cidr) != Some((0, 0))
  }

  /** Such a pool's network has no address but 0.0.0.0, and so has its range. */
  lemma UnreachableIsZero(pools: map<string, Pool>, c: string, a: u32)
    requires PoolsWellFormed(pools) && c in pools && !Reachable(pools, c)
    ensures InNet(pools[c], a) ==> a == 0 && InRange(pools[c], a)
    ensures InRange(pools[c], a) ==> a == 0 && InNet(pools[c], a)
  {
    assert InNet(pools[c], pools[c].start) && InNet(pools[c], pools[c].end);
    OnlyZero(pools[c].cidr, V4(pools[c].start));
    OnlyZero(pools[c].cidr, V4(pools[c].end));
    if InNet(pools[c], a) {
      OnlyZero(pools[c].cidr, V4(a));
    }
  }

  predicate Apart(p: Pool, q: Pool) {
    p.end < q.start || q.end < p.start
  }

  /** The ranges of any two reachable pools are disjoint, however their networks overlap. */
  ghost predicate RangesApart(pools: map<string, Pool>) {
    forall c, d :: c in pools && d in pools && c != d && Reachable(pools, c) && Reachable(pools, d) ==>
                     Apart(pools[c], pools[d])
  }

  /** No address of a reachable pool's range lies in another pool's network. */
  ghost predicate RangesClear(pools: map<string, Pool>) {
    forall c, d, a :: c in pools && d in pools && c != d && Reachable(pools, d) && InRange(pools[d], a) ==>
                        !InNet(pools[c], a)
  }

  /** An address of a reachable pool's range that lies in another pool's network lies in that pool's range too. */
  ghost predicate RangesFill(pools: map<string, Pool>) {
    forall c, d, a :: c in pools && d in pools && Reachable(pools, d) && InRange(pools[d], a) && InNet(pools[c], a) ==>
                        InRange(pools[c], a)
  }

  lemma ClearFills(pools: map<string, Pool>)
    requires RangesClear(pools)
    ensures RangesFill(pools)
  {
    hide Contains, Reachable;
  }

  /** What keeps every row in range: each range is inside its network, and ranges fill what they share with others. */
  ghost predicate WellRanged(pools: map<string, Pool>) {
    PoolsWellFormed(pools) && RangesFill(pools)
  }

  lemma WellRangedAlike(pools: map<string, Pool>, others: map<string, Pool>)
    requires SameConfig(pools, others) && WellRanged(pools)
    ensures WellRanged(others)
  {
    hide Contains;
    forall c | c in others
      ensures var p := others[c]; p.start <= p.end && InNet(p, p.start) && InNet(p, p.end)
    {
      assert c in pools;
    }
    assert |pools.Keys| == |pools| && |others.Keys| == |others|;
    forall c, d, a | c in others && d in others && Reachable(others, d) && InRange(others[d], a) && InNet(others[c], a)
      ensures InRange(others[c], a)
    {
      assert Reachable(pools, d) && InRange(pools[d], a) && InNet(pools[c], a);
    }
  }

  lemma DisjointIsWellRanged(pools: map<string, Pool>)
    requires PoolsWellFormed(pools) && PoolsDisjoint(pools)
    ensures WellRanged(pools)
  {
    DisjointIsClear(pools);
    ClearFills(pools);
  }

  lemma SelectableIsReachable(pools: map<string, Pool>, giaddr: IP, c: string)
    requires PoolsWellFormed(pools) && Selectable(pools, giaddr, c)
    ensures c in pools && Reachable(pools, c)
  {
    if !Unspecified(giaddr) && giaddr != NoIP {
      if V4Net(pools[c].cidr) == Some((0, 0)) {
        OnlyZero(pools[c].cidr, giaddr);
      }
    }
  }

  lemma OnlyZero(n: Cidr, ip: IP)
    requires V4Net(n) == Some((0, 0)) && Contains(n, ip)
    ensures ip == V4(0)
  {
  }

  /** A relay address that selects the pool. */
  lemma RelayFor(pools: map<string, Pool>, c: string) returns (giaddr: IP)
    requires PoolsWellFormed(pools) && c in pools && V4Net(pools[c].cidr) != Some((0, 0))
    ensures Selectable(pools, giaddr, c) && giaddr.V4?
  {
    assert InNet(pools[c], pools[c].start);
    var (base, host) := V4Net(pools[c].cidr).value;
    if base != 0 {
      giaddr := V4(base);
    } else {
      giaddr := V4(1);
      assert HighPart(1, host) == HighPart(0, host - 1) == HighPart(0, host);
    }
  }

  lemma TwoReachable(pools: map<string, Pool>, c: string, d: string)
    requires c in pools && Reachable(pools, c) && d in pools && c != d
    ensures V4Net(pools[c].cidr) != Some((0, 0))
  {
    assert d in pools.Keys - {c};
    assert |pools.Keys - {c}| == |pools| - 1;
  }

  // --- what one request does, seen against the configured pools ---

  lemma SameSelection(cfg: map<string, Pool>, pools: map<string, Pool>, giaddr: IP, c: string)
    requires SameConfig(cfg, pools)
    ensures Selectable(pools, giaddr, c) <==> Selectable(cfg, giaddr, c)
  {
    hide Contains;
    assert |cfg.Keys| == |cfg| && |pools.Keys| == |pools|;
  }

  lemma StepConfig(cfg: map<string, Pool>, s: State, e: Event)
    requires SameConfig(cfg, s.pools) && Enabled(s, e)
    ensures SameConfig(cfg, After(s, e).pools)
  {
    hide Contains;
  }

  ghost predicate UsedGrows(before: map<string, Pool>, after: map<string, Pool>, c: string, a: u32) {
    && before.Keys == after.Keys && c in before
    && forall d :: d in before ==> after[d].used == if d == c then before[d].used + {a} else before[d].used
  }

  /** A new lease: from a reachable pool, in range, not allocated there. */
  lemma LeaseStep(cfg: map<string, Pool>, s: State, e: Event)
    requires PoolsWellFormed(cfg) && SameConfig(cfg, s.pools) && Enabled(s, e) && AllocatesTo(s, e, e.q.mac)
    ensures e.ch.pool.Some?
    ensures var c, a := e.ch.pool.value, e.ch.addr;
            && c in cfg && Reachable(cfg, c) && InRange(cfg[c], a) && a !in s.pools[c].used
            && UsedGrows(s.pools, After(s, e).pools, c, a)
            && e.q.mac !in s.records && After(s, e).records == s.records[e.q.mac := Record(a, e.q.hostname)]
  {
    AfterAllocation(s, e);
    SameSelection(cfg, s.pools, e.q.giaddr, e.ch.pool.value);
    hide Contains, PoolsWellFormed, Reachable, Next, Trail;
    SelectableIsReachable(cfg, e.q.giaddr, e.ch.pool.value);
  }

  /** At most a is taken out of the allocated sets. */
  ghost predicate UsedShrinks(before: map<string, Pool>, after: map<string, Pool>, a: u32) {
    before.Keys == after.Keys && forall d :: d in before ==> before[d].used - {a} <= after[d].used <= before[d].used
  }

  /** A NAK, whichever pool the scan stopped at. */
  lemma NakStep(s: State, e: Event)
    requires Enabled(s, e) && Naks(s, e, e.q.mac)
    ensures e.q.mac in s.records && After(s, e).records == s.records - {e.q.mac}
    ensures UsedShrinks(s.pools, After(s, e).pools, s.records[e.q.mac].ip)
  {
    hide Contains;
  }

  lemma OtherStep(s: State, e: Event)
    requires Enabled(s, e) && !AllocatesTo(s, e, e.q.mac) && !Naks(s, e, e.q.mac)
    ensures After(s, e) == s
  {
    hide Contains;
  }

  // --- no two clients share an address ---

  /** Every recorded address in the range of a reachable pool is allocated there. */
  ghost predicate InRangeAllocated(cfg: map<string, Pool>, s: State)
    requires cfg.Keys == s.pools.Keys
  {
    forall m, c :: m in s.records && c in cfg && Reachable(cfg, c) && InRange(cfg[c], s.records[m].ip)
                   ==> s.records[m].ip in s.pools[c].used
  }

  /** No two clients hold the same address of a reachable pool's range. */
  ghost predicate InRangeUnshared(cfg: map<string, Pool>, records: map<Mac, Record>) {
    forall m, n, c :: (m in records && n in records && m != n && c in cfg && Reachable(cfg, c)
                       && InRange(cfg[c], records[m].ip)) ==> records[m].ip != records[n].ip
  }

  /** The invariant, in a server whose configured pools are cfg. */
  ghost predicate RangeSafe(cfg: map<string, Pool>, s: State) {
    && PoolsWellFormed(cfg) && RangesApart(cfg) && SameConfig(cfg, s.pools)
    && InRangeAllocated(cfg, s) && InRangeUnshared(cfg, s.records)
  }

  /** A leased address was held by nobody. */
  lemma LeasedWasFree(cfg: map<string, Pool>, s: State, e: Event)
    requires RangeSafe(cfg, s) && Enabled(s, e) && AllocatesTo(s, e, e.q.mac)
    ensures !Held(s.records, e.ch.addr)
  {
    LeaseStep(cfg, s, e);
    hide Contains, PoolsWellFormed, Allowed, Next, ReplyTo, Reachable, InRange, RangesApart;
  }

  lemma LeaseKeepsRangeSafe(cfg: map<string, Pool>, s: State, e: Event)
    requires RangeSafe(cfg, s) && Enabled(s, e) && AllocatesTo(s, e, e.q.mac)
    ensures RangeSafe(cfg, After(s, e))
  {
    LeasedWasFree(cfg, s, e);
    LeaseStep(cfg, s, e);
    StepConfig(cfg, s, e);
    var x, r := e.ch.pool.value, Record(e.ch.addr, e.q.hostname);
    hide Contains, PoolsWellFormed, Allowed, Next, ReplyTo, Reachable, SameConfig, InRange, Held, RangesApart,
      UsedGrows, InRangeUnshared, InRangeAllocated;
    OnlyRangeOf(cfg, x, r.ip);
    InRangeOneMore(cfg, s, e.q.mac, r, x, After(s, e));
    UnsharedInRange(cfg, s.records, e.q.mac, r);
  }

  lemma OnlyRangeOf(cfg: map<string, Pool>, x: string, a: u32)
    requires RangesApart(cfg) && x in cfg && Reachable(cfg, x) && InRange(cfg[x], a)
    ensures forall c :: c in cfg && Reachable(cfg, c) && InRange(cfg[c], a) ==> c == x
  {
    hide Reachable;
    forall c | c in cfg && Reachable(cfg, c) && InRange(cfg[c], a) ensures c == x {
      assert !Apart(cfg[c], cfg[x]);
    }
  }

  lemma InRangeOneMore(cfg: map<string, Pool>, s: State, m: Mac, r: Record, x: string, t: State)
    requires cfg.Keys == s.pools.Keys && InRangeAllocated(cfg, s) && t.records == s.records[m := r]
    requires UsedGrows(s.pools, t.pools, x, r.ip)
    requires forall c :: c in cfg && Reachable(cfg, c) && InRange(cfg[c], r.ip) ==> c == x
    ensures InRangeAllocated(cfg, t)
  {
    hide Reachable, InRange;
  }

  lemma UnsharedInRange(cfg: map<string, Pool>, records: map<Mac, Record>, m: Mac, r: Record)
    requires InRangeUnshared(cfg, records) && !Held(records, r.ip)
    ensures InRangeUnshared(cfg, records[m := r])
  {
    hide Reachable, InRange;
  }

  lemma NakKeepsRangeSafe(cfg: map<string, Pool>, s: State, e: Event)
    requires RangeSafe(cfg, s) && Enabled(s, e) && Naks(s, e, e.q.mac)
    ensures RangeSafe(cfg, After(s, e))
  {
    NakStep(s, e);
    StepConfig(cfg, s, e);
    hide Contains, PoolsWellFormed, RangesApart, Allowed, Next, ReplyTo, Reachable, SameConfig, InRange;
    var t := After(s, e);
    forall m, c | m in t.records && c in cfg && Reachable(cfg, c) && InRange(cfg[c], t.records[m].ip)
      ensures t.records[m].ip in t.pools[c].used
    {
      assert t.records[m].ip in s.pools[c].used && t.records[m].ip != s.records[e.q.mac].ip;
    }
    assert InRangeUnshared(cfg, t.records);
  }

  /** Any request keeps in-range uniqueness when the ranges are apart; the networks may overlap in any way. */
  lemma StepKeepsRangeSafe(cfg: map<string, Pool>, s: State, e: Event)
    requires RangeSafe(cfg, s) && Enabled(s, e)
    ensures RangeSafe(cfg, After(s, e))
  {
    hide RangeSafe, Allowed, Next, ReplyTo;
    if AllocatesTo(s, e, e.q.mac) {
      LeaseKeepsRangeSafe(cfg, s, e);
    } else if Naks(s, e, e.q.mac) {
      NakKeepsRangeSafe(cfg, s, e);
    } else {
      OtherStep(s, e);
    }
  }

  /** The same over runs: in particular no two clients ever hold the same address of a reachable pool's range. */
  lemma {:induction false} RunKeepsRangeSafe(cfg: map<string, Pool>, s: State, evs: seq<Event>)
    requires RangeSafe(cfg, s) && RunEnabled(s, evs)
    ensures RangeSafe(cfg, Run(s, evs))
    decreases |evs|
  {
    hide RangeSafe, Next, Allowed;
    if evs != [] {
      StepKeepsRangeSafe(cfg, s, evs[0]);
      RunKeepsRangeSafe(cfg, After(s, evs[0]), evs[1..]);
    }
  }

  lemma StepKeepsUnshared(cfg: map<string, Pool>, s: State, e: Event)
    requires RangeSafe(cfg, s) && !Shared(s.records) && Enabled(s, e)
    ensures !Shared(After(s, e).records)
  {
    if AllocatesTo(s, e, e.q.mac) {
      LeasedWasFree(cfg, s, e);
      AfterAllocation(s, e);
      hide RangeSafe, Allowed, Next, ReplyTo, Shared;
      UnsharedOneMore(s.records, e.q.mac, Record(e.ch.addr, e.q.hostname));
    } else if Naks(s, e, e.q.mac) {
      AfterNak(s, e);
    } else {
      OtherStep(s, e);
    }
  }

  lemma UnsharedOneMore(records: map<Mac, Record>, m: Mac, r: Record)
    requires m !in records && !Shared(records) && !Held(records, r.ip)
    ensures !Shared(records[m := r])
  {
  }

  lemma {:induction false} RunKeepsUnshared(cfg: map<string, Pool>, s: State, evs: seq<Event>)
    requires RangeSafe(cfg, s) && !Shared(s.records) && RunEnabled(s, evs)
    ensures !Shared(Run(s, evs).records)
    decreases |evs|
  {
    hide RangeSafe, Shared, Next, Allowed;
    if evs != [] {
      StepKeepsUnshared(cfg, s, evs[0]);
      StepKeepsRangeSafe(cfg, s, evs[0]);
      RunKeepsUnshared(cfg, After(s, evs[0]), evs[1..]);
    }
  }

  lemma LeaseEnabled(s: State, e: Event)
    requires e.q.mac !in s.records && e.ch.pool.Some? && Selectable(s.pools, e.q.giaddr, e.ch.pool.value)
    requires var p := s.pools[e.ch.pool.value]; InRange(p, e.ch.addr) && e.ch.addr !in p.used
    ensures Enabled(s, e) && AllocatesTo(s, e, e.q.mac)
  {
    hide Contains;
  }

  ghost function Lease(m: Mac, giaddr: IP, c: string, a: u32): Event {
    Event(Request(m, giaddr, false, ""), Env(true, true), Choice(Some(c), a))
  }

  /** Two different clients whose hardware addresses parse. */
  const ONE: Mac := [2, 0, 0, 0, 0, 1]
  const TWO: Mac := [2, 0, 0, 0, 0, 2]

  lemma OneIsNotTwo()
    ensures ONE != TWO
  {
    assert ONE[5] != TWO[5];
  }

  /** One request leases any address of a reachable pool that is free there. */
  lemma LeaseAny(cfg: map<string, Pool>, s: State, m: Mac, d: string, other: string, a: u32) returns (e: Event)
    requires PoolsWellFormed(cfg) && SameConfig(cfg, s.pools) && m !in s.records
    requires d in cfg && Reachable(cfg, d) && other in cfg && other != d
    requires InRange(cfg[d], a) && a !in s.pools[d].used
    ensures Enabled(s, e) && AllocatesTo(s, e, m) && e.q.mac == m && e.env.dbOk && e.ch == Choice(Some(d), a)
    ensures After(s, e).records == s.records[m := Record(a, "")]
    ensures After(s, e).table == Insert(s.table, m, Record(a, ""))
    ensures UsedGrows(s.pools, After(s, e).pools, d, a) && SameConfig(cfg, After(s, e).pools)
  {
    TwoReachable(cfg, d, other);
    var g := RelayFor(cfg, d);
    hide Contains, Selectable, PoolsWellFormed, Allowed, Next, ReplyTo, Reachable;
    SameSelection(cfg, s.pools, g, d);
    e := Lease(m, g, d, a);
    LeaseEnabled(s, e);
    AfterAllocation(s, e);
    StepConfig(cfg, s, e);
  }

  /** Two pools with a common address, both reachable, give it to two clients in two requests. */
  lemma OverlapShares(s: State, c: string, d: string, a: u32) returns (e: Event, f: Event)
    requires s.records == map[] && PoolsWellFormed(s.pools) && NothingAllocated(s.pools)
    requires c in s.pools && d in s.pools && c != d && Reachable(s.pools, c) && Reachable(s.pools, d)
    requires InRange(s.pools[c], a) && InRange(s.pools[d], a)
    ensures e.env.dbOk && f.env.dbOk && e.q.mac == ONE && f.q.mac == TWO
    ensures Enabled(s, e) && AllocatesTo(s, e, ONE)
    ensures Enabled(After(s, e), f) && AllocatesTo(After(s, e), f, TWO)
    ensures After(s, e).table == Insert(s.table, ONE, Record(a, ""))
    ensures After(After(s, e), f).table == Insert(After(s, e).table, TWO, Record(a, ""))
    ensures HeldTwice(After(After(s, e), f).records, a)
  {
    OneIsNotTwo();
    SameConfigSelf(s.pools);
    hide Contains, PoolsWellFormed, Reachable, InRange, Enabled, AllocatesTo, After;
    e := LeaseAny(s.pools, s, ONE, c, d, a);
    var t := After(s, e);
    f := LeaseAny(s.pools, t, TWO, d, c, a);
    var u := After(t, f);
    assert ONE in u.records && TWO in u.records && u.records[ONE].ip == u.records[TWO].ip == a;
  }

  lemma SameConfigSelf(pools: map<string, Pool>)
    ensures SameConfig(pools, pools)
  {
  }

  lemma EmptyIsRangeSafe(s: State)
    requires s.records == map[] && PoolsWellFormed(s.pools) && RangesApart(s.pools)
    ensures RangeSafe(s.pools, s) && !Shared(s.records)
  {
    hide Contains, PoolsWellFormed, RangesApart;
  }

  /** Two ranges that are not apart meet in the higher of their starts. */
  lemma MeetIn(p: Pool, q: Pool) returns (a: u32)
    requires p.start <= p.end && q.start <= q.end && !Apart(p, q)
    ensures InRange(p, a) && InRange(q, a)
  {
    a := if p.start <= q.start then q.start else p.start;
  }

  lemma OverlapRuns(s: State, c: string, d: string) returns (evs: seq<Event>)
    requires s.records == map[] && PoolsWellFormed(s.pools) && NothingAllocated(s.pools)
    requires c in s.pools && d in s.pools && c != d && Reachable(s.pools, c) && Reachable(s.pools, d)
    requires !Apart(s.pools[c], s.pools[d])
    ensures RunEnabled(s, evs) && Shared(Run(s, evs).records)
  {
    assert s.pools[c].start <= s.pools[c].end && s.pools[d].start <= s.pools[d].end;
    var a := MeetIn(s.pools[c], s.pools[d]);
    hide PoolsWellFormed, NothingAllocated, RunEnabled, Run, Enabled, After, Reachable;
    var e, f := OverlapShares(s, c, d, a);
    ShortRuns(s, e, f);
    evs := [e, f];
    TwiceIsShared(Run(s, evs).records, a);
  }

  lemma TwiceIsShared(records: map<Mac, Record>, a: u32)
    requires HeldTwice(records, a)
    ensures Shared(records)
  {
  }

  /**
   * Starting with no leases, no run ever gives one address to two clients if and only if the ranges of the reachable
   * pools are pairwise disjoint; it does not matter whether their networks are.
   */
  lemma UniqueIffRangesApart(s: State)
    requires s.records == map[] && PoolsWellFormed(s.pools) && NothingAllocated(s.pools)
    ensures (forall evs :: RunEnabled(s, evs) ==> !Shared(Run(s, evs).records)) <==> RangesApart(s.pools)
  {
    hide Contains, PoolsWellFormed, Shared, NothingAllocated, RunEnabled, Run, Reachable, Apart;
    if RangesApart(s.pools) {
      EmptyIsRangeSafe(s);
      forall evs | RunEnabled(s, evs) ensures !Shared(Run(s, evs).records) {
        RunKeepsUnshared(s.pools, s, evs);
      }
    } else {
      var c, d :| c in s.pools && d in s.pools && c != d && Reachable(s.pools, c) && Reachable(s.pools, d)
                  && !Apart(s.pools[c], s.pools[d]);
      var evs := OverlapRuns(s, c, d);
    }
  }

  /**
   * The range of every reachable pool is disjoint from all others, those of pools no relay reaches included: a start
   * may put a lease into such a pool, and then its address looks free where it came from.
   */
  ghost predicate LastingApart(pools: map<string, Pool>) {
    forall c, d :: c in pools && d in pools && c != d && Reachable(pools, c) ==> Apart(pools[c], pools[d])
  }

  lemma InRangePicked(pools: map<string, Pool>, recs: map<Mac, Record>, pick: Pick, m: Mac, c: string)
    requires PoolsWellFormed(pools) && Picks(pools, recs, pick) && Fits(pools, recs, pick) && LastingApart(pools)
    requires m in recs && c in pools && Reachable(pools, c) && InRange(pools[c], recs[m].ip)
    ensures GoesTo(pick, m, c)
  {
    RangeIsInNet(pools[c], recs[m].ip);
    hide Contains;
    assert pick[m].Some?;
    assert GoesTo(pick, m, pick[m].value);
    assert !Apart(pools[c], pools[pick[m].value]);
  }

  lemma PicksAreRangeSafe(pools: map<string, Pool>, t: State, pick: Pick)
    requires PoolsWellFormed(pools) && LastingApart(pools) && RestartedWith(pools, t, pick)
    ensures SameConfig(pools, t.pools) && InRangeAllocated(pools, t) && InRangeUnshared(pools, t.records)
  {
    SameConfigPlaced(pools, t.records, pick);
    hide Contains, PoolsWellFormed, LastingApart, SameConfig, Reachable, Picks;
    forall m, c | m in t.records && c in pools && Reachable(pools, c) && InRange(pools[c], t.records[m].ip)
      ensures GoesTo(pick, m, c)
    {
      InRangePicked(pools, t.records, pick, m, c);
    }
    hide InRange;
    assert InRangeUnshared(pools, t.records);
  }

  /** A restart with such ranges gives a state in which in-range addresses are unshared, and stay so. */
  lemma RestartIsRangeSafe(pools: map<string, Pool>, table: Table, t: State)
    requires PoolsWellFormed(pools) && LastingApart(pools) && Restarted(pools, table, t)
    ensures RangeSafe(pools, t)
  {
    hide Contains, Loads, RowsReadable, PoolsWellFormed, InRangeAllocated, InRangeUnshared, RestartedWith, SameConfig,
      Reachable;
    var pick: Pick :| RestartedWith(pools, t, pick);
    PicksAreRangeSafe(pools, t, pick);
  }

  // --- allocated means recorded inside the network ---

  /** Each pool's allocated set is exactly the recorded addresses inside its network. */
  ghost predicate AllocatedExactly(cfg: map<string, Pool>, s: State) {
    && cfg.Keys == s.pools.Keys
    && forall c, a {:trigger a in s.pools[c].used} {:trigger InNet(cfg[c], a)} :: c in cfg ==>
         (a in s.pools[c].used <==> InNet(cfg[c], a) && Held(s.records, a))
  }

  /** The address is in the range of a reachable pool. */
  ghost predicate Leasable(cfg: map<string, Pool>, a: u32) {
    exists c :: c in cfg && Reachable(cfg, c) && InRange(cfg[c], a)
  }

  ghost predicate ExactSafe(cfg: map<string, Pool>, s: State) {
    && PoolsWellFormed(cfg) && RangesClear(cfg) && SameConfig(cfg, s.pools)
    && AllocatedExactly(cfg, s) && !Shared(s.records)
    && forall m :: m in s.records ==> Leasable(cfg, s.records[m].ip)
  }

  /** With clear ranges a leasable address lies in one network only. */
  lemma OneNetwork(cfg: map<string, Pool>, c: string, a: u32)
    requires PoolsWellFormed(cfg) && RangesClear(cfg) && c in cfg && Reachable(cfg, c) && InRange(cfg[c], a)
    ensures forall d :: d in cfg ==> (InNet(cfg[d], a) <==> d == c)
  {
    RangeIsInNet(cfg[c], a);
    hide Contains;
  }

  lemma HeldOneMore(records: map<Mac, Record>, m: Mac, r: Record, b: u32)
    requires m !in records
    ensures Held(records[m := r], b) <==> Held(records, b) || b == r.ip
  {
    var more := records[m := r];
    if Held(records, b) {
      var n :| n in records && records[n].ip == b;
      assert more[n].ip == b;
    }
    assert more[m].ip == r.ip;
  }

  lemma HeldOneLess(records: map<Mac, Record>, m: Mac, b: u32)
    requires m in records && !Shared(records)
    ensures Held(records - {m}, b) <==> Held(records, b) && b != records[m].ip
  {
    if Held(records, b) && b != records[m].ip {
      var n :| n in records && records[n].ip == b;
      assert n in records - {m};
    }
  }

  lemma AllocatedOneMore(cfg: map<string, Pool>, s: State, m: Mac, r: Record, x: string, t: State)
    requires AllocatedExactly(cfg, s) && m !in s.records && t.records == s.records[m := r]
    requires x in cfg && UsedGrows(s.pools, t.pools, x, r.ip)
    requires forall d :: d in cfg ==> (InNet(cfg[d], r.ip) <==> d == x)
    ensures AllocatedExactly(cfg, t)
  {
    hide InNet, Held;
    forall c, b | c in cfg ensures b in t.pools[c].used <==> InNet(cfg[c], b) && Held(t.records, b) {
      HeldOneMore(s.records, m, r, b);
    }
  }

  lemma LeaseIsExact(cfg: map<string, Pool>, s: State, e: Event)
    requires ExactSafe(cfg, s) && Enabled(s, e) && AllocatesTo(s, e, e.q.mac)
    ensures ExactSafe(cfg, After(s, e))
  {
    hide Contains, Allowed, Next, ReplyTo, PoolsWellFormed, Reachable, SameConfig, RangesClear, InRange, InNet, Held,
      Shared, UsedGrows, AllocatedExactly, Leasable;
    LeaseStep(cfg, s, e);
    StepConfig(cfg, s, e);
    var x, a := e.ch.pool.value, e.ch.addr;
    OneNetwork(cfg, x, a);
    FreeIsUnheld(cfg, s, x, a);
    UnsharedOneMore(s.records, e.q.mac, Record(a, e.q.hostname));
    AllocatedOneMore(cfg, s, e.q.mac, Record(a, e.q.hostname), x, After(s, e));
    RangeIsLeasable(cfg, x, a);
  }

  lemma RangeIsLeasable(cfg: map<string, Pool>, c: string, a: u32)
    requires c in cfg && Reachable(cfg, c) && InRange(cfg[c], a)
    ensures Leasable(cfg, a)
  {
  }

  lemma FreeIsUnheld(cfg: map<string, Pool>, s: State, c: string, a: u32)
    requires AllocatedExactly(cfg, s) && c in cfg && a !in s.pools[c].used && InNet(cfg[c], a)
    ensures !Held(s.records, a)
  {
    hide InNet, Held;
  }

  lemma AllocatedOneLess(cfg: map<string, Pool>, s: State, m: Mac, t: State)
    requires AllocatedExactly(cfg, s) && !Shared(s.records) && m in s.records && t.records == s.records - {m}
    requires UsedShrinks(s.pools, t.pools, s.records[m].ip)
    requires forall c :: c in cfg ==> s.records[m].ip !in t.pools[c].used
    ensures AllocatedExactly(cfg, t)
  {
    hide InNet, Held, Shared;
    forall c, b | c in cfg ensures b in t.pools[c].used <==> InNet(cfg[c], b) && Held(t.records, b) {
      HeldOneLess(s.records, m, b);
    }
  }

  lemma NakIsExact(cfg: map<string, Pool>, s: State, e: Event)
    requires ExactSafe(cfg, s) && Enabled(s, e) && Naks(s, e, e.q.mac)
    ensures ExactSafe(cfg, After(s, e))
  {
    NakStep(s, e);
    NakFrees(cfg, s, e);
    StepConfig(cfg, s, e);
    hide Contains, Allowed, Next, ReplyTo, PoolsWellFormed, SameConfig, RangesClear, AllocatedExactly, UsedShrinks,
      Leasable;
    AllocatedOneLess(cfg, s, e.q.mac, After(s, e));
    assert !Shared(After(s, e).records);
  }

  /** The scan stops at c, the only network with the address, and c gives the address back. */
  lemma NakFreesIn(cfg: map<string, Pool>, s: State, e: Event, c: string)
    requires SameConfig(cfg, s.pools) && Enabled(s, e) && Naks(s, e, e.q.mac) && e.q.mac in s.records && c in cfg
    requires forall d :: d in cfg ==> (InNet(cfg[d], s.records[e.q.mac].ip) <==> d == c)
    ensures c in After(s, e).pools && s.records[e.q.mac].ip !in After(s, e).pools[c].used
  {
    hide Contains;
    assert InNet(s.pools[c], s.records[e.q.mac].ip);
  }

  /** A NAK frees the address where it was allocated. */
  lemma NakFrees(cfg: map<string, Pool>, s: State, e: Event)
    requires ExactSafe(cfg, s) && Enabled(s, e) && Naks(s, e, e.q.mac)
    ensures e.q.mac in s.records && cfg.Keys == After(s, e).pools.Keys
    ensures forall c :: c in cfg ==> s.records[e.q.mac].ip !in After(s, e).pools[c].used
  {
    NakStep(s, e);
    hide Contains, Allowed, Next, ReplyTo, PoolsWellFormed, RangesClear, Reachable, Held, Shared, InNet, InRange,
      SameConfig, AllocatedExactly;
    var a := s.records[e.q.mac].ip;
    assert Leasable(cfg, a);
    var c :| c in cfg && Reachable(cfg, c) && InRange(cfg[c], a);
    OneNetwork(cfg, c, a);
    NakFreesIn(cfg, s, e, c);
    NotAllocatedOutside(cfg, s, e, c, a);
  }

  lemma NotAllocatedOutside(cfg: map<string, Pool>, s: State, e: Event, c: string, a: u32)
    requires AllocatedExactly(cfg, s) && UsedShrinks(s.pools, After(s, e).pools, a) && c in cfg
    requires forall d :: d in cfg ==> (InNet(cfg[d], a) <==> d == c)
    ensures cfg.Keys == After(s, e).pools.Keys
    ensures forall d :: d in cfg && d != c ==> a !in After(s, e).pools[d].used
  {
    hide InNet, Held, Next;
    forall d | d in cfg && d != c ensures a !in After(s, e).pools[d].used {
      assert a !in s.pools[d].used;
    }
  }

  lemma StepKeepsExact(cfg: map<string, Pool>, s: State, e: Event)
    requires ExactSafe(cfg, s) && Enabled(s, e)
    ensures ExactSafe(cfg, After(s, e))
  {
    hide ExactSafe, Allowed, Next, ReplyTo;
    if AllocatesTo(s, e, e.q.mac) {
      LeaseIsExact(cfg, s, e);
    } else if Naks(s, e, e.q.mac) {
      NakIsExact(cfg, s, e);
    } else {
      OtherStep(s, e);
    }
  }

  lemma {:induction false} RunKeepsExact(cfg: map<string, Pool>, s: State, evs: seq<Event>)
    requires ExactSafe(cfg, s) && RunEnabled(s, evs)
    ensures ExactSafe(cfg, Run(s, evs))
    decreases |evs|
  {
    hide ExactSafe, Next, Allowed;
    if evs != [] {
      StepKeepsExact(cfg, s, evs[0]);
      RunKeepsExact(cfg, After(s, evs[0]), evs[1..]);
    }
  }

  /** One lease of an address inside another pool's network: recorded there, not allocated there. */
  lemma MisplacedLease(s: State, c: string, d: string, a: u32) returns (evs: seq<Event>)
    requires s.records == map[] && PoolsWellFormed(s.pools) && NothingAllocated(s.pools)
    requires c in s.pools && d in s.pools && Reachable(s.pools, d) && c != d
    requires InRange(s.pools[d], a) && InNet(s.pools[c], a)
    ensures RunEnabled(s, evs) && !AllocatedExactly(s.pools, Run(s, evs))
  {
    SameConfigSelf(s.pools);
    hide Contains, PoolsWellFormed, Reachable, InRange, InNet, Enabled, AllocatesTo, After, RunEnabled, Run;
    var e := LeaseAny(s.pools, s, ONE, d, c, a);
    ShortRuns(s, e, e);
    evs := [e];
    var t := After(s, e);
    assert t.records[ONE].ip == a;
    assert Held(t.records, a) && a !in t.pools[c].used;
  }

  lemma EmptyIsExact(s: State)
    requires s.records == map[] && PoolsWellFormed(s.pools) && NothingAllocated(s.pools) && RangesClear(s.pools)
    ensures ExactSafe(s.pools, s)
  {
    hide Contains, PoolsWellFormed, RangesClear;
  }

  /**
   * Starting with no leases, every run keeps each pool's allocated set equal to the recorded addresses inside its
   * network if and only if no address of a reachable pool's range lies in another pool's network.
   */
  lemma ExactIffRangesClear(s: State)
    requires s.records == map[] && PoolsWellFormed(s.pools) && NothingAllocated(s.pools)
    ensures (forall evs :: RunEnabled(s, evs) ==> AllocatedExactly(s.pools, Run(s, evs))) <==> RangesClear(s.pools)
  {
    hide Contains, PoolsWellFormed, NothingAllocated, RunEnabled, Run, Reachable, AllocatedExactly, InRange, InNet;
    if RangesClear(s.pools) {
      EmptyIsExact(s);
      forall evs | RunEnabled(s, evs) ensures AllocatedExactly(s.pools, Run(s, evs)) {
        RunKeepsExact(s.pools, s, evs);
      }
    } else {
      var c, d, a :| c in s.pools && d in s.pools && c != d && Reachable(s.pools, d) && InRange(s.pools[d], a)
                     && InNet(s.pools[c], a);
      var evs := MisplacedLease(s, c, d, a);
    }
  }

  lemma ClearIsApart(pools: map<string, Pool>)
    requires PoolsWellFormed(pools) && RangesClear(pools)
    ensures RangesApart(pools)
  {
    hide Contains, Reachable;
    forall c, d | c in pools && d in pools && c != d && Reachable(pools, c) && Reachable(pools, d)
      ensures Apart(pools[c], pools[d])
    {
      if !Apart(pools[c], pools[d]) {
        var a := MeetIn(pools[c], pools[d]);
        RangeIsInNet(pools[c], a);
      }
    }
  }

  /** Disjoint networks are enough for both conditions. */
  lemma DisjointIsClear(pools: map<string, Pool>)
    requires PoolsWellFormed(pools) && PoolsDisjoint(pools)
    ensures RangesClear(pools) && RangesApart(pools)
  {
    hide Contains;
    forall c, d, a | c in pools && d in pools && c != d && Reachable(pools, d) && InRange(pools[d], a)
      ensures !InNet(pools[c], a)
    {
      RangeIsInNet(pools[d], a);
      if InNet(pools[c], a) {
        OnlyOnePool(pools, a, c, d);
      }
    }
    ClearIsApart(pools);
  }
}
