// The exact conditions on the configured pools under which a plugin that starts with no leases always recovers, and
// under which it never shares an address, over runs and over whole lifetimes of requests, crashes and restarts.
module Conditions {
  import opened Wrappers
  import opened Net
  import opened Leases
  import opened LeaseRuns
  import opened Restart
  import opened Ranges
  import opened Recovery

  /** A plugin with configured pools that has leased nothing yet. */
  ghost predicate Unused(s: State) {
    s.records == map[] && s.table == map[] && PoolsWellFormed(s.pools) && NothingAllocated(s.pools)
  }

  /** The write works and the client's hardware address parses back. */
  predicate GoodEvent(e: Event) {
    e.env.dbOk && Parses(e.q.mac)
  }

  predicate Good(evs: seq<Event>) {
    forall i :: 0 <= i < |evs| ==> GoodEvent(evs[i])
  }

  lemma UnusedIsExact(s: State)
    requires Unused(s)
    ensures TableExact(s) && AllParse(s.table) && Legible(s.table) && RowsInRange(s.pools, s.table)
  {
    hide Contains, PoolsWellFormed;
  }

  // --- rows stay in range ---

  /** A row with an address inside a pool's network and outside its range. */
  lemma RowOutOfRange(pools: map<string, Pool>, t: Table, m: Mac, c: string, a: u32)
    requires Key(HwAddr(m), Quad(a)) in t && c in pools && InNet(pools[c], a) && !InRange(pools[c], a)
    ensures !RowsInRange(pools, t)
  {
    assert Inside(pools[c], Key(HwAddr(m), Quad(a)));
  }

  /** One lease by a pool of an address that another pool's network has outside its range. */
  lemma StrayLease(s: State, c: string, d: string, a: u32) returns (e: Event)
    requires Unused(s) && c in s.pools && d in s.pools && c != d && Reachable(s.pools, d)
    requires InRange(s.pools[d], a) && InNet(s.pools[c], a) && !InRange(s.pools[c], a)
    ensures Enabled(s, e) && GoodEvent(e) && AllocatesTo(s, e, ONE)
    ensures !RowsInRange(s.pools, After(s, e).table)
  {
    SameConfigSelf(s.pools);
    hide Contains, PoolsWellFormed, Reachable, InRange, InNet, Enabled, AllocatesTo, After, RowsInRange;
    e := LeaseAny(s.pools, s, ONE, d, c, a);
    RowOutOfRange(s.pools, After(s, e).table, ONE, c, a);
  }

  /**
   * Starting with no leases, every row stays in range over every run, whatever writes fail, if and only if the ranges
   * fill what they share with other pools' networks.
   */
  lemma RowsStayInRangeIff(s: State)
    requires Unused(s)
    ensures (forall evs :: RunEnabled(s, evs) ==> RowsInRange(s.pools, Run(s, evs).table)) <==> RangesFill(s.pools)
  {
    UnusedIsExact(s);
    hide Contains, PoolsWellFormed, NothingAllocated, RunEnabled, Run, Reachable, RowsInRange, Legible, InRange, InNet;
    if RangesFill(s.pools) {
      forall evs | RunEnabled(s, evs) ensures RowsInRange(s.pools, Run(s, evs).table) {
        RunStaysInRange(s, evs);
      }
    } else {
      var c, d, a :| c in s.pools && d in s.pools && Reachable(s.pools, d) && InRange(s.pools[d], a)
                     && InNet(s.pools[c], a) && !InRange(s.pools[c], a);
      var e := StrayLease(s, c, d, a);
      hide Enabled, After, AllocatesTo;
      ShortRuns(s, e, e);
      assert RunEnabled(s, [e]) && !RowsInRange(s.pools, Run(s, [e]).table);
    }
  }

  lemma RunStaysInRange(s: State, evs: seq<Event>)
    requires Stored(s) && RunEnabled(s, evs)
    ensures RowsInRange(s.pools, Run(s, evs).table)
  {
    RunKeepsStored(s, evs);
    hide Contains, RunEnabled, Run, WellRanged, Legible, RowsInRange, NoSharedRows, SameConfig;
    SameConfigBack(s.pools, Run(s, evs).pools);
    SameRanges(Run(s, evs).pools, s.pools, Run(s, evs).table);
  }

  // --- restarts after runs ---

  /** No address of a reachable pool's range lies in another reachable pool's network. */
  ghost predicate ReachableClear(pools: map<string, Pool>) {
    forall c, d, a :: (c in pools && d in pools && c != d && Reachable(pools, c) && Reachable(pools, d)
                       && InRange(pools[d], a)) ==> !InNet(pools[c], a)
  }

  lemma ReachableClearFits(pools: map<string, Pool>)
    requires PoolsWellFormed(pools) && ReachableClear(pools)
    ensures RangesFill(pools) && RangesApart(pools)
  {
    hide Contains, Reachable;
    forall c, d, a | c in pools && d in pools && Reachable(pools, d) && InRange(pools[d], a) && InNet(pools[c], a)
      ensures InRange(pools[c], a)
    {
      if !Reachable(pools, c) {
        UnreachableIsZero(pools, c, a);
      }
    }
    forall c, d | c in pools && d in pools && c != d && Reachable(pools, c) && Reachable(pools, d)
      ensures Apart(pools[c], pools[d])
    {
      if !Apart(pools[c], pools[d]) {
        var a := MeetIn(pools[c], pools[d]);
        RangeIsInNet(pools[c], a);
      }
    }
  }

  lemma UnsharedRows(s: State, pools: map<string, Pool>)
    requires TableExact(s) && !Shared(s.records)
    ensures NoSharedRows(pools, s.table)
  {
    hide Contains;
    forall j, k, c | j in s.table && k in s.table && c in pools && Inside(pools[c], j) && IpOf(j.ip) == IpOf(k.ip)
      ensures MacOf(j.mac) == MacOf(k.mac)
    {
      assert s.records[j.mac.octets].ip == s.records[k.mac.octets].ip;
    }
  }

  /**
   * With clear ranges and working writes, starting with no leases: a start after any run succeeds in every order if and
   * only if every client with a lease parses back.
   */
  lemma ClearRunRestarts(s: State, evs: seq<Event>)
    requires Unused(s) && ReachableClear(s.pools) && RunEnabled(s, evs)
    requires forall i :: 0 <= i < |evs| ==> evs[i].env.dbOk
    ensures var u := Run(s, evs);
            RestartSucceeds(s.pools, u.table) <==> forall m :: m in u.records ==> Parses(m)
  {
    var u := Run(s, evs);
    UnusedIsExact(s);
    ReachableClearFits(s.pools);
    EmptyIsRangeSafe(s);
    hide Contains, PoolsWellFormed, NothingAllocated, RunEnabled, Run, RowsInRange, Legible, RangesFill, RangesApart,
      TableExact, RangeSafe, AllParse, RestartSucceeds, NoSharedRows, Shared, SameConfig, ReachableClear;
    RunKeepsUnshared(s.pools, s, evs);
    RunKeepsTable(s, evs);
    RunKeepsStored(s, evs);
    UnsharedRows(u, s.pools);
    ExactParses(u);
    SameConfigBack(s.pools, u.pools);
    SameRanges(u.pools, s.pools, u.table);
    StoredRestarts(s.pools, u.table);
  }

  lemma {:induction false} GoodRunParses(s: State, evs: seq<Event>)
    requires AllParse(s.table) && Good(evs)
    ensures AllParse(Run(s, evs).table)
    decreases |evs|
  {
    hide AllParse, Next, Parses;
    if evs != [] {
      assert GoodEvent(evs[0]);
      TablesParse(s, evs[0]);
      assert forall i :: 0 <= i < |evs[1..]| ==> evs[1..][i] == evs[i + 1];
      GoodRunParses(After(s, evs[0]), evs[1..]);
    }
  }

  lemma GoodRunRestarts(s: State, evs: seq<Event>)
    requires Unused(s) && ReachableClear(s.pools) && RunEnabled(s, evs) && Good(evs)
    ensures RestartSucceeds(s.pools, Run(s, evs).table)
  {
    UnusedIsExact(s);
    hide Contains, Unused, RunEnabled, Run, RestartSucceeds, ReachableClear, AllParse, TableExact, Parses;
    ClearRunRestarts(s, evs);
    GoodRunParses(s, evs);
    RunKeepsTable(s, evs);
    ExactParses(Run(s, evs));
  }

  /** Two rows of different clients with one address of a pool's network. */
  lemma TwiceInTable(pools: map<string, Pool>, t: Table, m: Mac, n: Mac, c: string, a: u32)
    requires Key(HwAddr(m), Quad(a)) in t && Key(HwAddr(n), Quad(a)) in t && m != n && Parses(m) && Parses(n)
    requires c in pools && InNet(pools[c], a)
    ensures !RestartSucceeds(pools, t)
  {
    hide Contains, RestartSucceeds, RowsInRange;
    RestartIffClean(pools, t);
    assert Inside(pools[c], Key(HwAddr(m), Quad(a)));
    assert MacOf(HwAddr(m)) != MacOf(HwAddr(n));
  }

  lemma OutOfRangeBlocks(pools: map<string, Pool>, t: Table)
    requires !RowsInRange(pools, t)
    ensures !RestartSucceeds(pools, t)
  {
    hide Contains, RestartSucceeds, RowsInRange;
    RestartIffClean(pools, t);
  }

  /** At most two requests, the last of which leaves a table that some order of setup4 fails on. */
  lemma UnclearBlocks(s: State, c: string, d: string, a: u32) returns (init: seq<Event>, e: Event)
    requires Unused(s) && c in s.pools && d in s.pools && c != d && Reachable(s.pools, c) && Reachable(s.pools, d)
    requires InRange(s.pools[d], a) && InNet(s.pools[c], a)
    ensures |init| <= 1 && Good(init) && GoodEvent(e) && RunEnabled(s, init) && Enabled(Run(s, init), e)
    ensures Allocates(Run(s, init), e.q, e.ch)
    ensures !RestartSucceeds(s.pools, After(Run(s, init), e).table)
  {
    OneIsNotTwo();
    hide Contains, PoolsWellFormed, Reachable, InNet, Enabled, After, RestartSucceeds, RowsInRange;
    if !InRange(s.pools[c], a) {
      e := StrayLease(s, c, d, a);
      ShortRuns(s, e, e);
      OutOfRangeBlocks(s.pools, After(s, e).table);
      init := [];
      AllocatesMeans(s, e);
    } else {
      var e1, e2 := OverlapShares(s, c, d, a);
      ShortRuns(s, e1, e2);
      TwiceInTable(s.pools, After(After(s, e1), e2).table, ONE, TWO, c, a);
      init, e := [e1], e2;
      AllocatesMeans(After(s, e1), e2);
    }
  }

  lemma AllocatesMeans(s: State, e: Event)
    requires AllocatesTo(s, e, e.q.mac)
    ensures Allocates(s, e.q, e.ch)
  {
  }

  /**
   * Starting with no leases, a start after any run with working writes and parseable clients succeeds in every order if
   * and only if no address of a reachable pool's range lies in another reachable pool's network.
   */
  lemma RestartAfterRunsIff(s: State)
    requires Unused(s)
    ensures (forall evs :: RunEnabled(s, evs) && Good(evs) ==> RestartSucceeds(s.pools, Run(s, evs).table))
            <==> ReachableClear(s.pools)
  {
    hide Contains, Unused, RunEnabled, Run, RestartSucceeds, Reachable, InRange, InNet;
    if ReachableClear(s.pools) {
      forall evs | RunEnabled(s, evs) && Good(evs) ensures RestartSucceeds(s.pools, Run(s, evs).table) {
        GoodRunRestarts(s, evs);
      }
    } else {
      var c, d, a :| c in s.pools && d in s.pools && c != d && Reachable(s.pools, c) && Reachable(s.pools, d)
                     && InRange(s.pools[d], a) && InNet(s.pools[c], a);
      var init, e := UnclearBlocks(s, c, d, a);
      hide Enabled, After;
      RunSnoc(s, init, e);
      assert RunEnabled(s, init + [e]) && Good(init + [e]);
    }
  }

  // --- recovery over lifetimes ---

  ghost predicate LifeFrom(s: State, ss: seq<State>, xs: seq<LifeEvent>) {
    Lifetime(ss, xs) && ss[0] == s
  }

  predicate GoodLife(xs: seq<LifeEvent>) {
    forall i :: 0 <= i < |xs| ==> GoodEvent(xs[i].e)
  }

  /** The process may crash in state t after k of the writes of serving e. */
  ghost predicate CrashPoint(t: State, e: Event, k: nat) {
    Enabled(t, e) && GoodEvent(e) && k < |Trail(t, e.q, e.env, e.ch)|
  }

  /** Whatever has happened, requests, crashes and restarts, the next crash can be recovered from. */
  ghost predicate AlwaysRecovers(s: State) {
    forall ss: seq<State>, xs, e, k :: (|ss| == |xs| + 1 && LifeFrom(s, ss, xs) && GoodLife(xs)
                                        && CrashPoint(ss[|xs|], e, k)) ==>
                                         RestartSucceeds(s.pools, CrashTable(ss[|xs|], e, k))
  }

  /** The invariant of such a lifetime. */
  ghost predicate Recovering(cfg: map<string, Pool>, s: State) {
    ExactSafe(cfg, s) && TableExact(s) && AllParse(s.table)
  }

  lemma ExactRows(cfg: map<string, Pool>, s: State)
    requires ExactSafe(cfg, s) && TableExact(s)
    ensures RowsInRange(cfg, s.table) && NoSharedRows(cfg, s.table) && Legible(s.table)
  {
    UnsharedRows(s, cfg);
    hide Contains, AllocatedExactly, SameConfig, Shared, NoSharedRows;
    forall k, c | k in s.table && c in cfg && Inside(cfg[c], k) ensures InRange(cfg[c], IpOf(k.ip).value) {
      var a := s.records[k.mac.octets].ip;
      assert Leasable(cfg, a);
      LeasableInRange(cfg, c, a);
    }
  }

  lemma LeasableInRange(cfg: map<string, Pool>, c: string, a: u32)
    requires PoolsWellFormed(cfg) && RangesClear(cfg) && c in cfg && InNet(cfg[c], a) && Leasable(cfg, a)
    ensures InRange(cfg[c], a)
  {
    hide Contains, PoolsWellFormed, RangesClear, Reachable, InRange, InNet;
    var d :| d in cfg && Reachable(cfg, d) && InRange(cfg[d], a);
    OneNetwork(cfg, d, a);
  }

  lemma RecoveringRestarts(cfg: map<string, Pool>, s: State)
    requires Recovering(cfg, s)
    ensures RestartSucceeds(cfg, s.table)
  {
    ExactRows(cfg, s);
    hide Contains, ExactSafe, TableExact, AllParse, RowsInRange, NoSharedRows, Legible, RestartSucceeds;
    StoredRestarts(cfg, s.table);
  }

  lemma ServedKeepsRecovering(cfg: map<string, Pool>, s: State, e: Event)
    requires Recovering(cfg, s) && Enabled(s, e) && GoodEvent(e)
    ensures Recovering(cfg, After(s, e))
  {
    hide ExactSafe, TableExact, AllParse, Allowed, Next, Parses;
    StepKeepsExact(cfg, s, e);
    StepKeepsTable(s, e);
    TablesParse(s, e);
  }

  /** With clear ranges every recorded address goes back to the pool it came from. */
  lemma PlacedExactly(cfg: map<string, Pool>, records: map<Mac, Record>, pick: Pick, c: string, a: u32)
    requires PoolsWellFormed(cfg) && RangesClear(cfg) && Picks(cfg, records, pick) && c in cfg
    requires forall m :: m in records ==> Leasable(cfg, records[m].ip)
    ensures a in Placed(cfg[c], c, records, pick).used <==> InNet(cfg[c], a) && Held(records, a)
  {
    hide Contains, PoolsWellFormed, RangesClear, Leasable;
    if InNet(cfg[c], a) && Held(records, a) {
      var m :| m in records && records[m].ip == a;
      assert pick[m].Some?;
      OneNetworkOf(cfg, c, pick[m].value, a);
      assert GoesTo(pick, m, c);
    }
  }

  lemma OneNetworkOf(cfg: map<string, Pool>, c: string, d: string, a: u32)
    requires PoolsWellFormed(cfg) && RangesClear(cfg) && Leasable(cfg, a)
    requires c in cfg && d in cfg && InNet(cfg[c], a) && InNet(cfg[d], a)
    ensures c == d
  {
    hide Contains, PoolsWellFormed, RangesClear, Reachable, InRange, InNet;
    var x :| x in cfg && Reachable(cfg, x) && InRange(cfg[x], a);
    OneNetwork(cfg, x, a);
  }

  /** The same pools configured, seen before and after some leases. */
  lemma RestartedAlike(cfg: map<string, Pool>, pools: map<string, Pool>, table: Table, t: State)
    requires SameConfig(cfg, pools) && Restarted(pools, table, t)
    ensures Restarted(cfg, table, t)
  {
    hide Contains, Loads, RowsReadable;
    var pick: Pick :| RestartedWith(pools, t, pick);
    PlacedAlike(cfg, pools, t, pick);
  }

  lemma PlacedAlike(cfg: map<string, Pool>, pools: map<string, Pool>, t: State, pick: Pick)
    requires SameConfig(cfg, pools) && RestartedWith(pools, t, pick)
    ensures RestartedWith(cfg, t, pick)
  {
    hide Contains;
    forall c | c in cfg ensures Placed(cfg[c], c, t.records, pick) == Placed(pools[c], c, t.records, pick) {
    }
    hide Placed;
    forall m | m in t.records ensures Frees(cfg, t.records[m].ip, pick[m]) {
      FreesAlike(cfg, pools, t.records[m].ip, pick[m]);
    }
  }

  lemma FreesAlike(cfg: map<string, Pool>, pools: map<string, Pool>, a: u32, c: Option<string>)
    requires SameConfig(cfg, pools) && Frees(pools, a, c)
    ensures Frees(cfg, a, c)
  {
    hide Contains;
    assert forall d :: d in cfg ==> (InNet(cfg[d], a) <==> InNet(pools[d], a));
  }

  lemma RestartIsExact(cfg: map<string, Pool>, table: Table, t: State)
    requires PoolsWellFormed(cfg) && RangesClear(cfg) && Restarted(cfg, table, t) && !Shared(t.records)
    requires forall m :: m in t.records ==> Leasable(cfg, t.records[m].ip)
    ensures ExactSafe(cfg, t)
  {
    RestartKeepsConfig(cfg, table, t);
    hide Contains, PoolsWellFormed, RangesClear, Leasable, Loads, RowsReadable, Shared, SameConfig, RestartedWith,
      AllocatedExactly;
    var pick: Pick :| RestartedWith(cfg, t, pick);
    PlacedIsExact(cfg, t, pick);
  }

  lemma PlacedIsExact(cfg: map<string, Pool>, t: State, pick: Pick)
    requires PoolsWellFormed(cfg) && RangesClear(cfg) && RestartedWith(cfg, t, pick)
    requires forall m :: m in t.records ==> Leasable(cfg, t.records[m].ip)
    ensures AllocatedExactly(cfg, t)
  {
    hide PoolsWellFormed, RangesClear, Leasable, InNet, Held, Fits, Picks, Placed;
    forall c, a | c in cfg ensures a in t.pools[c].used <==> InNet(cfg[c], a) && Held(t.records, a) {
      PlacedExactly(cfg, t.records, pick, c, a);
    }
  }

  lemma RestartKeepsRecovering(cfg: map<string, Pool>, s: State, pools: map<string, Pool>, t: State)
    requires Recovering(cfg, s) && SameConfig(cfg, pools) && Restarted(pools, s.table, t)
    ensures Recovering(cfg, t)
  {
    StartFromExact(s, pools, t);
    TableOf(pools, s.table, t);
    hide Contains, TableExact, AllParse, Restarted, PoolsWellFormed, RangesClear, AllocatedExactly, Shared, Leasable;
    RestartedAlike(cfg, pools, s.table, t);
    RestartIsExact(cfg, s.table, t);
  }

  lemma RecoveringConfig(cfg: map<string, Pool>, s: State)
    requires Recovering(cfg, s)
    ensures SameConfig(cfg, s.pools)
  {
    hide SameConfig, PoolsWellFormed, RangesClear, AllocatedExactly, Shared, Leasable, TableExact, AllParse;
  }

  lemma CrashKeepsRecovering(cfg: map<string, Pool>, s: State, e: Event, k: nat, t: State)
    requires Recovering(cfg, s) && LifeStep(s, CrashedIn(e, k), t) && GoodEvent(e)
    ensures Recovering(cfg, t)
  {
    hide Recovering, Restarted, SameConfig, Allowed, Next, Trail;
    RecoveringConfig(cfg, s);
    CrashTableIsBeforeOrAfter(s, e, k);
    if CrashTable(s, e, k) == s.table {
      RestartKeepsRecovering(cfg, s, s.pools, t);
    } else {
      ServedKeepsRecovering(cfg, s, e);
      RestartKeepsRecovering(cfg, After(s, e), s.pools, t);
    }
  }

  lemma LifeStepKeepsRecovering(cfg: map<string, Pool>, s: State, x: LifeEvent, t: State)
    requires Recovering(cfg, s) && LifeStep(s, x, t) && GoodEvent(x.e)
    ensures Recovering(cfg, t)
  {
    hide Recovering, Restarted, Allowed, Next, Trail;
    if x.CrashedIn? {
      CrashKeepsRecovering(cfg, s, x.e, x.k, t);
    } else {
      ServedKeepsRecovering(cfg, s, x.e);
    }
  }

  lemma {:induction false} LifeKeepsRecovering(cfg: map<string, Pool>, ss: seq<State>, xs: seq<LifeEvent>, i: nat)
    requires Lifetime(ss, xs) && GoodLife(xs) && Recovering(cfg, ss[0]) && i <= |xs|
    ensures Recovering(cfg, ss[i])
  {
    hide Recovering, LifeStep, GoodEvent;
    if i > 0 {
      LifeKeepsRecovering(cfg, ss, xs, i - 1);
      LifeStepKeepsRecovering(cfg, ss[i - 1], xs[i - 1], ss[i]);
    }
  }

  lemma CrashPointRecovers(cfg: map<string, Pool>, t: State, e: Event, k: nat)
    requires Recovering(cfg, t) && CrashPoint(t, e, k)
    ensures RestartSucceeds(cfg, CrashTable(t, e, k))
  {
    ServedKeepsRecovering(cfg, t, e);
    CrashTableIsBeforeOrAfter(t, e, k);
    hide Recovering, Allowed, Next, Trail, RestartSucceeds;
    RecoveringRestarts(cfg, t);
    RecoveringRestarts(cfg, After(t, e));
  }

  // --- a lease put into a pool no relay reaches ---

  lemma LastWrite(s: State, e: Event)
    requires Allocates(s, e.q, e.ch)
    ensures |Trail(s, e.q, e.env, e.ch)| == 4 && CrashTable(s, e, 3) == After(s, e).table
  {
    hide Contains;
  }

  /** A start may put m's only lease, of 0.0.0.0, into the pool c that no relay reaches. */
  lemma PutAway(pools: map<string, Pool>, c: string, m: Mac, r: Record, table: Table) returns (t: State)
    requires NothingAllocated(pools) && c in pools && InNet(pools[c], r.ip) && InRange(pools[c], r.ip) && Parses(m)
    requires table == Insert(map[], m, r)
    ensures Restarted(pools, table, t) && t.records == map[m := r] && t.table == table && SameConfig(pools, t.pools)
    ensures forall d :: d in pools && d != c ==> t.pools[d].used == {}
  {
    hide Contains;
    var recs: map<Mac, Record> := map[m := r];
    var pick: Pick := map[m := Some(c)];
    t := State(recs, PlacedBy(pools, recs, pick), table);
    assert GoesTo(pick, m, c);
    var k := Key(HwAddr(m), Quad(r.ip));
    assert k in table && IsRow(k, m, r.ip) && table[k] == r.hostname;
    assert Loads(table, recs) && RowsReadable(table);
    assert RestartedWith(pools, t, pick);
  }

  /** A first lease, of 0.0.0.0 by d. */
  lemma LeaseZero(s: State, c: string, d: string) returns (e: Event)
    requires Unused(s) && c in s.pools && d in s.pools && c != d && Reachable(s.pools, d) && InRange(s.pools[d], 0)
    ensures Enabled(s, e) && GoodEvent(e) && |Trail(s, e.q, e.env, e.ch)| == 4
    ensures CrashTable(s, e, 3) == Insert(map[], ONE, Record(0, ""))
  {
    SameConfigSelf(s.pools);
    hide Contains, PoolsWellFormed, Reachable, InRange, Enabled, AllocatesTo, After, SameConfig, Trail;
    e := LeaseAny(s.pools, s, ONE, d, c, 0);
    AllocatesMeans(s, e);
    LastWrite(s, e);
  }

  /** The same address leased again by d, where it looks free. */
  lemma LeaseZeroAgain(pools: map<string, Pool>, t: State, c: string, d: string) returns (f: Event)
    requires PoolsWellFormed(pools) && SameConfig(pools, t.pools) && c in pools && d in pools && c != d
    requires Reachable(pools, d) && InRange(pools[d], 0) && t.pools[d].used == {}
    requires t.records == map[ONE := Record(0, "")] && t.table == Insert(map[], ONE, Record(0, ""))
    ensures GoodEvent(f) && Enabled(t, f) && Allocates(t, f.q, f.ch) && HeldTwice(After(t, f).records, 0)
    ensures !RestartSucceeds(pools, After(t, f).table)
  {
    OneIsNotTwo();
    RangeIsInNet(pools[d], 0);
    hide Contains, PoolsWellFormed, Reachable, InNet, InRange, Enabled, AllocatesTo, After, RestartSucceeds, SameConfig;
    f := LeaseAny(pools, t, TWO, d, c, 0);
    AllocatesMeans(t, f);
    var u := After(t, f);
    assert u.records[ONE].ip == 0 && u.records[TWO].ip == 0;
    TwiceInTable(pools, u.table, ONE, TWO, d, 0);
  }

  /**
   * One lease of 0.0.0.0, a crash after its last write, a start that puts the lease into c, and another lease of the
   * same address.
   */
  lemma MislaidLease(s: State, c: string, d: string) returns (e: Event, t: State, f: Event)
    requires Unused(s) && c in s.pools && d in s.pools && c != d && !Reachable(s.pools, c) && Reachable(s.pools, d)
    requires InRange(s.pools[d], 0) && InNet(s.pools[c], 0)
    ensures GoodEvent(e) && GoodEvent(f) && LifeStep(s, CrashedIn(e, 3), t)
    ensures Enabled(t, f) && Allocates(t, f.q, f.ch) && HeldTwice(After(t, f).records, 0)
    ensures !RestartSucceeds(s.pools, After(t, f).table)
  {
    UnreachableIsZero(s.pools, c, 0);
    hide Contains, PoolsWellFormed, Reachable, InNet, InRange, Enabled, Allocates, After, RestartSucceeds, SameConfig,
      Restarted, Trail, CrashTable;
    e := LeaseZero(s, c, d);
    t := PutAway(s.pools, c, ONE, Record(0, ""), CrashTable(s, e, 3));
    f := LeaseZeroAgain(s.pools, t, c, d);
  }

  /** A lifetime of one step, and one of none. */
  lemma ShortLife(s: State, x: LifeEvent, t: State)
    ensures LifeFrom(s, [s], []) && GoodLife([])
    ensures LifeStep(s, x, t) ==> LifeFrom(s, [s, t], [x])
    ensures GoodEvent(x.e) ==> GoodLife([x])
  {
    hide LifeStep, GoodEvent;
  }

  lemma LongerLife(s: State, x: LifeEvent, t: State, y: LifeEvent, u: State)
    requires LifeStep(s, x, t) && LifeStep(t, y, u)
    ensures LifeFrom(s, [s, t, u], [x, y])
  {
    hide LifeStep;
  }

  /** An unclear configuration leads, in at most one step, to a crash that some order of setup4 fails on. */
  lemma UnclearLife(s: State, c: string, d: string, a: u32)
      returns (ss: seq<State>, xs: seq<LifeEvent>, e: Event)
    requires Unused(s) && c in s.pools && d in s.pools && c != d && Reachable(s.pools, d)
    requires InRange(s.pools[d], a) && InNet(s.pools[c], a)
    ensures |ss| == |xs| + 1 && LifeFrom(s, ss, xs) && GoodLife(xs) && Enabled(ss[|xs|], e) && GoodEvent(e)
    ensures Allocates(ss[|xs|], e.q, e.ch) && !RestartSucceeds(s.pools, After(ss[|xs|], e).table)
  {
    if !Reachable(s.pools, c) {
      UnreachableIsZero(s.pools, c, a);
    }
    hide Contains, Unused, Reachable, InRange, InNet, Enabled, RestartSucceeds, After, Allocates, LifeStep, LifeFrom,
      GoodEvent, GoodLife;
    if Reachable(s.pools, c) {
      ss, xs, e := UnclearRunLife(s, c, d, a);
    } else {
      var e0, t;
      e0, t, e := MislaidLease(s, c, d);
      ShortLife(s, CrashedIn(e0, 3), t);
      ss, xs := [s, t], [CrashedIn(e0, 3)];
    }
  }

  lemma UnclearRunLife(s: State, c: string, d: string, a: u32)
      returns (ss: seq<State>, xs: seq<LifeEvent>, e: Event)
    requires Unused(s) && c in s.pools && d in s.pools && c != d && Reachable(s.pools, c) && Reachable(s.pools, d)
    requires InRange(s.pools[d], a) && InNet(s.pools[c], a)
    ensures |ss| == |xs| + 1 && LifeFrom(s, ss, xs) && GoodLife(xs) && Enabled(ss[|xs|], e) && GoodEvent(e)
    ensures Allocates(ss[|xs|], e.q, e.ch) && !RestartSucceeds(s.pools, After(ss[|xs|], e).table)
  {
    hide Contains, Unused, Reachable, InRange, InNet, Allowed, RestartSucceeds, Next, Allocates, LifeFrom, GoodEvent,
      GoodLife;
    var init;
    init, e := UnclearBlocks(s, c, d, a);
    ShortLife(s, Served(e), s);
    ShortRuns(s, e, e);
    if init == [] {
      ss, xs := [s], [];
    } else {
      var first := init[0];
      assert init == [first];
      ShortRuns(s, first, e);
      ServedStep(s, first);
      hide LifeStep;
      GoodHead(init);
      ShortLife(s, Served(first), After(s, first));
      ss, xs := [s, After(s, first)], [Served(first)];
    }
  }

  lemma GoodHead(evs: seq<Event>)
    requires evs != [] && Good(evs)
    ensures GoodEvent(evs[0])
  {
  }

  lemma ServedStep(s: State, e: Event)
    requires Enabled(s, e)
    ensures LifeStep(s, Served(e), After(s, e))
  {
  }

  lemma UnusedIsRecovering(s: State)
    requires Unused(s) && RangesClear(s.pools)
    ensures Recovering(s.pools, s)
  {
    UnusedIsExact(s);
    EmptyIsExact(s);
  }

  /**
   * Starting with no leases, with working writes and parseable clients: every crash, at any point of any request after
   * any requests, crashes and restarts, can be recovered from in every order, if and only if no address of a reachable
   * pool's range lies in another pool's network.
   */
  lemma RecoversIffRangesClear(s: State)
    requires Unused(s)
    ensures AlwaysRecovers(s) <==> RangesClear(s.pools)
  {
    hide Contains, Unused, RestartSucceeds, Reachable, InRange, InNet, Recovering, LifeFrom, GoodLife, CrashTable,
      Trail, Enabled, GoodEvent, Allocates, After;
    if RangesClear(s.pools) {
      UnusedIsRecovering(s);
      forall ss: seq<State>, xs, e, k | |ss| == |xs| + 1 && LifeFrom(s, ss, xs) && GoodLife(xs)
                                        && CrashPoint(ss[|xs|], e, k)
        ensures RestartSucceeds(s.pools, CrashTable(ss[|xs|], e, k))
      {
        LifeIsRecovering(s, ss, xs);
        CrashPointRecovers(s.pools, ss[|xs|], e, k);
      }
    } else {
      var c, d, a :| c in s.pools && d in s.pools && c != d && Reachable(s.pools, d) && InRange(s.pools[d], a)
                     && InNet(s.pools[c], a);
      var ss, xs, e := UnclearLife(s, c, d, a);
      LastWrite(ss[|xs|], e);
      assert CrashPoint(ss[|xs|], e, 3);
    }
  }

  lemma LifeIsRecovering(s: State, ss: seq<State>, xs: seq<LifeEvent>)
    requires Recovering(s.pools, s) && LifeFrom(s, ss, xs) && GoodLife(xs)
    ensures Recovering(s.pools, ss[|xs|])
  {
    hide Recovering, LifeStep, GoodLife;
    LifeKeepsRecovering(s.pools, ss, xs, |xs|);
  }

  // --- uniqueness over lifetimes ---

  lemma LifeStepKeepsRangeSafe(cfg: map<string, Pool>, s: State, x: LifeEvent, t: State)
    requires LastingApart(cfg) && RangeSafe(cfg, s) && LifeStep(s, x, t)
    ensures RangeSafe(cfg, t)
  {
    if x.CrashedIn? {
      hide Contains, Enabled, Trail, Restarted, PoolsWellFormed, LastingApart, RangesApart, InRangeAllocated,
        InRangeUnshared, SameConfig;
      RestartedAlike(cfg, s.pools, CrashTable(s, x.e, x.k), t);
      RestartIsRangeSafe(cfg, CrashTable(s, x.e, x.k), t);
    } else {
      StepKeepsRangeSafe(cfg, s, x.e);
    }
  }

  lemma {:induction false} LifeKeepsRangeSafe(cfg: map<string, Pool>, ss: seq<State>, xs: seq<LifeEvent>, i: nat)
    requires Lifetime(ss, xs) && LastingApart(cfg) && RangeSafe(cfg, ss[0]) && i <= |xs|
    ensures RangeSafe(cfg, ss[i])
  {
    hide RangeSafe, LifeStep, LastingApart;
    if i > 0 {
      LifeKeepsRangeSafe(cfg, ss, xs, i - 1);
      LifeStepKeepsRangeSafe(cfg, ss[i - 1], xs[i - 1], ss[i]);
    }
  }

  lemma UnusedIsRangeSafe(s: State)
    requires Unused(s) && LastingApart(s.pools)
    ensures RangeSafe(s.pools, s)
  {
    hide Contains, PoolsWellFormed, Reachable;
    assert RangesApart(s.pools);
    EmptyIsRangeSafe(s);
  }

  /** An address of a reachable pool's range held twice. */
  lemma TwiceInRange(cfg: map<string, Pool>, records: map<Mac, Record>, c: string, a: u32)
    requires HeldTwice(records, a) && c in cfg && Reachable(cfg, c) && InRange(cfg[c], a)
    ensures !InRangeUnshared(cfg, records)
  {
    hide Reachable, InRange;
  }

  /** A reachable pool whose range meets another leads, in two steps, to an address held twice. */
  lemma SharingLife(s: State, c: string, d: string) returns (ss: seq<State>, xs: seq<LifeEvent>)
    requires Unused(s) && c in s.pools && d in s.pools && c != d && Reachable(s.pools, c)
    requires !Apart(s.pools[c], s.pools[d])
    ensures |ss| == |xs| + 1 && LifeFrom(s, ss, xs) && !InRangeUnshared(s.pools, ss[|xs|].records)
  {
    assert s.pools[c].start <= s.pools[c].end && s.pools[d].start <= s.pools[d].end;
    var a := MeetIn(s.pools[c], s.pools[d]);
    if !Reachable(s.pools, d) {
      UnreachableIsZero(s.pools, d, a);
    }
    hide Contains, PoolsWellFormed, Reachable, InRange, InNet, Enabled, After, Restarted, InRangeUnshared, AllocatesTo,
      RestartSucceeds, Allocates, GoodEvent, LifeStep, LifeFrom, HeldTwice, Apart;
    if Reachable(s.pools, d) {
      var e, f := OverlapShares(s, c, d, a);
      ServedStep(s, e);
      ServedStep(After(s, e), f);
      ss, xs := [s, After(s, e), After(After(s, e), f)], [Served(e), Served(f)];
      LongerLife(s, xs[0], ss[1], xs[1], ss[2]);
    } else {
      var e, t, f := MislaidLease(s, d, c);
      ServedStep(t, f);
      ss, xs := [s, t, After(t, f)], [CrashedIn(e, 3), Served(f)];
      LongerLife(s, xs[0], ss[1], xs[1], ss[2]);
    }
    TwiceInRange(s.pools, ss[|xs|].records, c, a);
  }

  /**
   * Starting with no leases: over every lifetime, whatever writes fail and whichever clients ask, no two clients hold
   * the same address of a reachable pool's range, if and only if the range of every reachable pool is disjoint from
   * all others.
   */
  lemma UniqueForLifeIff(s: State)
    requires Unused(s)
    ensures (forall ss: seq<State>, xs :: LifeFrom(s, ss, xs) ==> InRangeUnshared(s.pools, ss[|xs|].records))
            <==> LastingApart(s.pools)
  {
    hide Contains, Unused, Reachable, InRangeUnshared, LifeStep, Apart;
    if LastingApart(s.pools) {
      UnusedIsRangeSafe(s);
      forall ss: seq<State>, xs | LifeFrom(s, ss, xs) ensures InRangeUnshared(s.pools, ss[|xs|].records) {
        LifeKeepsRangeSafe(s.pools, ss, xs, |xs|);
      }
    } else {
      var c, d :| c in s.pools && d in s.pools && c != d && Reachable(s.pools, c) && !Apart(s.pools[c], s.pools[d]);
      var ss, xs := SharingLife(s, c, d);
    }
  }
}
