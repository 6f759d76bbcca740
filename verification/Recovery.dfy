// Crashes and restarts over whole runs: what setup4 makes of the table a crashed process left behind.
module Recovery {
  import opened Wrappers
  import opened Net
  import opened Leases
  import opened LeaseRuns
  import opened Restart
  import opened Ranges

  /** The table left by a process that crashes while serving e: before the first write, or after k of them. */
  ghost function CrashTable(s: State, e: Event, k: nat): Table
    requires k < |Trail(s, e.q, e.env, e.ch)|
  {
    Trail(s, e.q, e.env, e.ch)[k].table
  }

  /** What is left is the table before the request or after it, whether or not the write succeeds. */
  lemma CrashTableIsBeforeOrAfter(s: State, e: Event, k: nat)
    requires k < |Trail(s, e.q, e.env, e.ch)|
    ensures CrashTable(s, e, k) == s.table || CrashTable(s, e, k) == After(s, e).table
  {
    hide Contains;
  }

  lemma ServingKeepsConfig(s: State, e: Event)
    requires Enabled(s, e)
    ensures SameConfig(After(s, e).pools, s.pools)
  {
    hide Contains;
  }

  // --- the table whatever writes fail ---

  /** loadRecords can read every row, except perhaps for a hardware address this plugin wrote. */
  ghost predicate Legible(t: Table) {
    forall k :: k in t ==> IpOf(k.ip).Some? && (k.mac.HwAddr? || MacOf(k.mac).Some?)
  }

  /** Every hardware address this plugin wrote parses. */
  ghost predicate AllParse(t: Table) {
    forall k :: k in t && k.mac.HwAddr? ==> Parses(k.mac.octets)
  }

  /** The table can be read and stays in range; the pools may share addresses as long as ranges fill what they share. */
  ghost predicate Stored(s: State) {
    WellRanged(s.pools) && Legible(s.table) && RowsInRange(s.pools, s.table)
  }

  lemma ReadableIffParses(t: Table)
    requires Legible(t)
    ensures RowsReadable(t) <==> AllParse(t)
  {
  }

  lemma SameRanges(pools: map<string, Pool>, others: map<string, Pool>, t: Table)
    requires SameConfig(pools, others) && RowsInRange(pools, t)
    ensures RowsInRange(others, t)
    ensures NoSharedRows(pools, t) <==> NoSharedRows(others, t)
  {
    hide Contains, IpOf, MacOf;
    assert forall k, c :: c in pools ==> (Inside(pools[c], k) <==> Inside(others[c], k));
  }

  /** Such a table restarts if and only if its hardware addresses parse and no two clients share an in-pool address. */
  lemma StoredRestarts(pools: map<string, Pool>, t: Table)
    requires Legible(t) && RowsInRange(pools, t)
    ensures RestartSucceeds(pools, t) <==> AllParse(t) && NoSharedRows(pools, t)
  {
    hide Legible, RowsInRange, NoSharedRows, AllParse, RowsReadable, RestartSucceeds;
    RestartIffClean(pools, t);
    ReadableIffParses(t);
  }

  lemma AllocatedIsInRange(s: State, e: Event, c: string)
    requires WellRanged(s.pools) && Enabled(s, e) && AllocatesTo(s, e, e.q.mac) && c in s.pools
    requires InNet(s.pools[c], e.ch.addr)
    ensures InRange(s.pools[c], e.ch.addr)
  {
    SameConfigSelf(s.pools);
    hide Contains, PoolsWellFormed, Allowed, Next, ReplyTo, Reachable, InRange, InNet;
    LeaseStep(s.pools, s, e);
  }

  lemma AllocationKeepsStored(s: State, e: Event)
    requires Stored(s) && Enabled(s, e) && AllocatesTo(s, e, e.q.mac)
    ensures Legible(After(s, e).table) && RowsInRange(s.pools, After(s, e).table)
  {
    AfterAllocation(s, e);
    hide Contains, WellRanged, Allowed, Next, ReplyTo, InRange, InNet;
    var t := After(s, e).table;
    forall k, c | k in t && c in s.pools && Inside(s.pools[c], k) ensures InRange(s.pools[c], IpOf(k.ip).value) {
      if k !in s.table {
        assert k == Key(HwAddr(e.q.mac), Quad(e.ch.addr));
        AllocatedIsInRange(s, e, c);
      }
    }
  }

  lemma StepKeepsRows(s: State, e: Event)
    requires Stored(s) && Enabled(s, e)
    ensures Legible(After(s, e).table) && RowsInRange(s.pools, After(s, e).table)
  {
    hide Contains, WellRanged, Allowed, Next, ReplyTo;
    if AllocatesTo(s, e, e.q.mac) {
      AllocationKeepsStored(s, e);
    } else {
      OtherwiseFewerRows(s, e);
    }
  }

  lemma StepKeepsStored(s: State, e: Event)
    requires Stored(s) && Enabled(s, e)
    ensures Stored(After(s, e))
  {
    ServingKeepsConfig(s, e);
    StepKeepsRows(s, e);
    hide Contains, Allowed, Next, SameConfig, WellRanged, Legible, RowsInRange, NoSharedRows;
    SameConfigBack(After(s, e).pools, s.pools);
    WellRangedAlike(s.pools, After(s, e).pools);
    SameRanges(s.pools, After(s, e).pools, After(s, e).table);
  }

  lemma OtherwiseFewerRows(s: State, e: Event)
    requires Enabled(s, e) && !AllocatesTo(s, e, e.q.mac)
    ensures forall k :: k in After(s, e).table ==> k in s.table
  {
    hide Contains;
  }

  lemma {:induction false} RunKeepsStored(s: State, evs: seq<Event>)
    requires Stored(s) && RunEnabled(s, evs)
    ensures Stored(Run(s, evs)) && SameConfig(s.pools, Run(s, evs).pools)
    decreases |evs|
  {
    hide Stored, Next, Allowed;
    if evs != [] {
      StepKeepsStored(s, evs[0]);
      ServingKeepsConfig(s, evs[0]);
      RunKeepsStored(After(s, evs[0]), evs[1..]);
    }
  }

  /**
   * Restart after any run and any crash, whatever writes failed, from a table whose rows can be read and are in range
   * and with ranges that fill what they share with other pools' networks: setup4 with the same pools succeeds if and
   * only if every hardware address in the table parses and no in-pool address stands in it under two clients.
   */
  lemma RestartAfterAnyRun(s: State, evs: seq<Event>, e: Event, k: nat, pools: map<string, Pool>)
    requires Stored(s) && RunEnabled(s, evs) && Enabled(Run(s, evs), e)
    requires k < |Trail(Run(s, evs), e.q, e.env, e.ch)| && SameConfig(s.pools, pools)
    ensures var t := CrashTable(Run(s, evs), e, k);
            RestartSucceeds(pools, t) <==> AllParse(t) && NoSharedRows(pools, t)
  {
    var u := Run(s, evs);
    RunKeepsStored(s, evs);
    StepKeepsStored(u, e);
    ServingKeepsConfig(u, e);
    CrashTableIsBeforeOrAfter(u, e, k);
    hide Contains, WellRanged, Next, Trail, Allowed, RunEnabled, Run, Legible, RowsInRange, NoSharedRows, AllParse,
      RestartSucceeds, SameConfig;
    SameConfigChain(u.pools, s.pools, pools);
    SameConfigChain(After(u, e).pools, u.pools, pools);
    SameRanges(u.pools, pools, u.table);
    SameRanges(After(u, e).pools, pools, After(u, e).table);
    StoredRestarts(pools, CrashTable(u, e, k));
  }

  lemma SameConfigChain(a: map<string, Pool>, b: map<string, Pool>, c: map<string, Pool>)
    requires (SameConfig(a, b) || SameConfig(b, a)) && SameConfig(b, c)
    ensures SameConfig(a, c)
  {
  }

  // --- the table while writes succeed ---

  /** Every row is written the way this plugin writes it. */
  ghost predicate Canonical(t: Table) {
    forall k :: k in t ==> k.mac.HwAddr? && k.ip.Quad?
  }

  /** No two rows have the same hardware address. */
  ghost predicate OneRowEach(t: Table) {
    forall j, k :: j in t && k in t && MacOf(j.mac) == MacOf(k.mac) ==> j == k
  }

  lemma ExactRowsDiffer(s: State)
    requires TableExact(s) && AllParse(s.table)
    ensures Canonical(s.table) && OneRowEach(s.table)
  {
  }

  lemma CanonicalRow(t: Table, m: Mac, r: Record)
    requires Canonical(t) && exists k :: k in t && IsRow(k, m, r.ip) && t[k] == r.hostname
    ensures var k := Key(HwAddr(m), Quad(r.ip)); k in t && t[k] == r.hostname && MacOf(k.mac) == Some(m)
  {
    var k :| k in t && IsRow(k, m, r.ip) && t[k] == r.hostname;
    assert k == Key(HwAddr(m), Quad(r.ip));
  }

  /** After a start the table is exactly the records if and only if this plugin wrote it and no client has two rows. */
  lemma StartedTableIsExact(pools: map<string, Pool>, table: Table, t: State)
    requires Restarted(pools, table, t)
    ensures TableExact(t) <==> Canonical(table) && OneRowEach(table)
  {
    if TableExact(t) {
      ReadableParses(table);
      ExactRowsDiffer(t);
    }
    hide Restarted, TableExact;
    if Canonical(table) && OneRowEach(table) {
      CanonicalIsExact(t);
    }
  }

  lemma ReadableParses(t: Table)
    requires RowsReadable(t)
    ensures AllParse(t)
  {
  }

  lemma CanonicalIsExact(t: State)
    requires Loads(t.table, t.records) && RowsReadable(t.table) && Canonical(t.table) && OneRowEach(t.table)
    ensures TableExact(t)
  {
    hide Loads, MacOf, IpOf;
    forall m | m in t.records ensures Key(HwAddr(m), Quad(t.records[m].ip)) in t.table {
      LoadedHasRow(t, m);
    }
    forall k | k in t.table
      ensures k.mac.octets in t.records && t.records[k.mac.octets] == Record(k.ip.ip, t.table[k])
    {
      RowIsLoaded(t, k);
    }
  }

  lemma LoadedHasRow(t: State, m: Mac)
    requires Loads(t.table, t.records) && Canonical(t.table) && m in t.records
    ensures var k := Key(HwAddr(m), Quad(t.records[m].ip));
            k in t.table && t.table[k] == t.records[m].hostname && MacOf(k.mac) == Some(m)
  {
    assert exists k :: k in t.table && IsRow(k, m, t.records[m].ip) && t.table[k] == t.records[m].hostname;
    hide Loads;
    CanonicalRow(t.table, m, t.records[m]);
  }

  lemma RowIsLoaded(t: State, k: Key)
    requires Loads(t.table, t.records) && RowsReadable(t.table) && Canonical(t.table) && OneRowEach(t.table)
    requires k in t.table
    ensures k.mac.octets in t.records && t.records[k.mac.octets] == Record(k.ip.ip, t.table[k])
  {
    var m := k.mac.octets;
    assert MacOf(k.mac) == Some(m) && m in t.records;
    hide Loads;
    LoadedHasRow(t, m);
  }

  ghost predicate Sound(s: State) {
    Inv(s) && TableExact(s) && AllParse(s.table)
  }

  /** A first start, on an empty table, gives a sound state. */
  lemma FirstStartIsSound(pools: map<string, Pool>, t: State)
    requires PoolsWellFormed(pools) && PoolsDisjoint(pools) && Restarted(pools, map[], t)
    ensures Sound(t) && t.records == map[]
  {
    RestartKeepsInv(pools, map[], t);
    StartedTableIsExact(pools, map[], t);
    hide Contains, Inv, PoolsDisjoint, PoolsWellFormed;
  }

  /** A start on a table that cannot fail gives a state the theorem on arbitrary runs applies to. */
  lemma CleanStartIsStored(pools: map<string, Pool>, table: Table, t: State)
    requires WellRanged(pools) && RestartSucceeds(pools, table) && Restarted(pools, table, t)
    ensures Stored(t)
  {
    RestartIffClean(pools, table);
    RestartKeepsConfig(pools, table, t);
    hide Contains, WellRanged, RestartSucceeds, RowsInRange, NoSharedRows, Loads, SameConfig;
    SameRanges(pools, t.pools, table);
    WellRangedAlike(pools, t.pools);
  }

  lemma ExactIsStored(s: State)
    requires Inv(s) && TableExact(s)
    ensures Stored(s) && NoSharedRows(s.pools, s.table)
  {
    DisjointIsWellRanged(s.pools);
    hide Contains, WellRanged;
    forall k, c | k in s.table && c in s.pools && Inside(s.pools[c], k) ensures InRange(s.pools[c], IpOf(k.ip).value) {
      assert InNet(s.pools[c], s.records[k.mac.octets].ip);
    }
    forall j, k, c | j in s.table && k in s.table && c in s.pools && Inside(s.pools[c], j) && IpOf(j.ip) == IpOf(k.ip)
      ensures MacOf(j.mac) == MacOf(k.mac)
    {
      assert InNet(s.pools[c], s.records[j.mac.octets].ip);
    }
  }

  lemma ExactParses(s: State)
    requires TableExact(s)
    ensures AllParse(s.table) <==> forall m :: m in s.records ==> Parses(m)
  {
    if AllParse(s.table) {
      forall m | m in s.records ensures Parses(m) {
        assert Key(HwAddr(m), Quad(s.records[m].ip)) in s.table;
      }
    }
  }

  lemma RestartFromExact(s: State, pools: map<string, Pool>)
    requires Inv(s) && TableExact(s) && SameConfig(s.pools, pools)
    ensures RestartSucceeds(pools, s.table) <==> AllParse(s.table)
    ensures forall t :: Restarted(pools, s.table, t) ==> Inv(t) && TableExact(t)
  {
    ExactIsStored(s);
    SameRanges(s.pools, pools, s.table);
    ConfigIsWellFormed(s.pools, pools);
    StoredRestarts(pools, s.table);
    forall t | Restarted(pools, s.table, t) ensures Inv(t) && TableExact(t) {
      RestartKeepsInv(pools, s.table, t);
      ReadableIffParses(s.table);
      ExactRowsDiffer(s);
      hide Contains, Inv, TableExact, Canonical, OneRowEach;
      StartedTableIsExact(pools, s.table, t);
    }
  }

  /** While writes succeed, a restart after any run succeeds if and only if every client with a lease parses back. */
  lemma RestartAfterWorkingRun(s: State, evs: seq<Event>)
    requires Inv(s) && TableExact(s) && RunEnabled(s, evs) && forall i :: 0 <= i < |evs| ==> evs[i].env.dbOk
    ensures var u := Run(s, evs);
            RestartSucceeds(s.pools, u.table) <==> forall m :: m in u.records ==> Parses(m)
  {
    var u := Run(s, evs);
    ExactIsStored(s);
    RunKeepsStored(s, evs);
    RunKeepsInv(s, evs);
    RunKeepsTable(s, evs);
    ExactParses(u);
    hide Contains, Inv, TableExact, Stored, RestartSucceeds, AllParse, Run, RunEnabled;
    SameConfigBack(s.pools, u.pools);
    RestartFromExact(u, s.pools);
  }

  lemma SameConfigBack(a: map<string, Pool>, b: map<string, Pool>)
    requires SameConfig(a, b)
    ensures SameConfig(b, a)
  {
  }

  /**
   * Crash recovery: when the writes that ran succeeded, then wherever in a request the process crashes, setup4 with
   * the same pools configured succeeds if and only if every hardware address in the table parses, loads exactly the
   * table's leases and re-establishes the lease invariant.
   */
  lemma CrashRecovery(s: State, e: Event, k: nat, pools: map<string, Pool>)
    requires Inv(s) && TableExact(s) && Enabled(s, e) && e.env.dbOk
    requires k < |Trail(s, e.q, e.env, e.ch)| && SameConfig(s.pools, pools)
    ensures RestartSucceeds(pools, CrashTable(s, e, k)) <==> AllParse(CrashTable(s, e, k))
    ensures forall t :: Restarted(pools, CrashTable(s, e, k), t) ==> Inv(t) && TableExact(t)
  {
    var u := After(s, e);
    StepKeepsInv(s, e.q, e.env, e.ch);
    StepKeepsTable(s, e);
    ServingKeepsConfig(s, e);
    CrashTableIsBeforeOrAfter(s, e, k);
    hide Contains, Next, Trail, Inv, TableExact, RestartSucceeds, Restarted, AllParse;
    SameConfigChain(u.pools, s.pools, pools);
    RestartFromExact(s, pools);
    RestartFromExact(u, pools);
  }

  // --- lifetimes: requests, crashes and restarts in any order ---

  datatype LifeEvent = Served(e: Event) | CrashedIn(e: Event, k: nat)

  ghost predicate LifeStep(s: State, x: LifeEvent, t: State) {
    && Enabled(s, x.e)
    && match x
       case Served(e) => t == After(s, e)
       case CrashedIn(e, k) => k < |Trail(s, e.q, e.env, e.ch)| && Restarted(s.pools, CrashTable(s, e, k), t)
  }

  ghost predicate Lifetime(ss: seq<State>, xs: seq<LifeEvent>) {
    |ss| == |xs| + 1 && forall i :: 0 <= i < |xs| ==> LifeStep(ss[i], xs[i], ss[i + 1])
  }

  /** A crash after k writes of serving e in s is followed by a successful setup4. */
  ghost predicate Recoverable(s: State, e: Event, k: nat) {
    k < |Trail(s, e.q, e.env, e.ch)| && RestartSucceeds(s.pools, CrashTable(s, e, k))
  }

  /** What a crash after k writes of serving e leaves parses and has no in-pool address under two clients. */
  ghost predicate LeavesClean(s: State, e: Event, k: nat) {
    && k < |Trail(s, e.q, e.env, e.ch)|
    && AllParse(CrashTable(s, e, k)) && NoSharedRows(s.pools, CrashTable(s, e, k))
  }

  lemma LifeStepKeepsSound(s: State, x: LifeEvent, t: State)
    requires Sound(s) && LifeStep(s, x, t) && x.e.env.dbOk && Parses(x.e.q.mac)
    ensures Sound(t)
    ensures x.CrashedIn? ==> Recoverable(s, x.e, x.k)
  {
    var e := x.e;
    StepKeepsInv(s, e.q, e.env, e.ch);
    StepKeepsTable(s, e);
    TablesParse(s, e);
    if x.CrashedIn? {
      CrashTableIsBeforeOrAfter(s, e, x.k);
      SameConfigSelf(s.pools);
      hide Inv, TableExact, AllParse, Next, Trail, Allowed, RestartSucceeds;
      CrashRecovery(s, e, x.k, s.pools);
      assert t.table == CrashTable(s, e, x.k);
    }
  }

  lemma TablesParse(s: State, e: Event)
    requires AllParse(s.table) && Parses(e.q.mac)
    ensures AllParse(After(s, e).table)
  {
    hide Contains;
  }

  /**
   * Over any lifetime from a sound state with working storage and parseable hardware addresses, every restart succeeds
   * and every state is sound.
   */
  lemma {:induction false} LifetimeIsSound(ss: seq<State>, xs: seq<LifeEvent>, i: nat)
    requires Lifetime(ss, xs) && Sound(ss[0]) && i <= |xs|
    requires forall j :: 0 <= j < |xs| ==> xs[j].e.env.dbOk && Parses(xs[j].e.q.mac)
    ensures Sound(ss[i])
    ensures i < |xs| && xs[i].CrashedIn? ==> Recoverable(ss[i], xs[i].e, xs[i].k)
  {
    hide Sound, Recoverable, LifeStep;
    if i > 0 {
      LifetimeIsSound(ss, xs, i - 1);
      LifeStepKeepsSound(ss[i - 1], xs[i - 1], ss[i]);
    }
    if i < |xs| {
      LifeStepKeepsSound(ss[i], xs[i], ss[i + 1]);
    }
  }

  lemma CrashLeavesStored(s: State, e: Event, k: nat)
    requires Stored(s) && Enabled(s, e) && k < |Trail(s, e.q, e.env, e.ch)|
    ensures Legible(CrashTable(s, e, k)) && RowsInRange(s.pools, CrashTable(s, e, k))
  {
    StepKeepsRows(s, e);
    CrashTableIsBeforeOrAfter(s, e, k);
    hide Contains, WellRanged, Next, Trail, Allowed, Legible, RowsInRange;
  }

  lemma RestartKeepsConfig(pools: map<string, Pool>, table: Table, t: State)
    requires Restarted(pools, table, t)
    ensures SameConfig(pools, t.pools)
  {
    hide Contains, Loads, Picks, Fits, PlacedBy, SameConfig;
    var pick: Pick :| RestartedWith(pools, t, pick);
    SameConfigPlaced(pools, t.records, pick);
  }

  /** A restart after a crash, with the same pools configured. */
  lemma RestartIsStored(s: State, e: Event, k: nat, pools: map<string, Pool>, t: State)
    requires Stored(s) && Enabled(s, e) && k < |Trail(s, e.q, e.env, e.ch)| && SameConfig(s.pools, pools)
    requires Restarted(pools, CrashTable(s, e, k), t)
    ensures Stored(t)
  {
    CrashLeavesStored(s, e, k);
    RestartKeepsConfig(pools, CrashTable(s, e, k), t);
    hide Contains, Enabled, Trail, Legible, RowsInRange, NoSharedRows, Loads, SameConfig, WellRanged;
    SameRanges(s.pools, pools, t.table);
    SameRanges(pools, t.pools, t.table);
    WellRangedAlike(s.pools, pools);
    WellRangedAlike(pools, t.pools);
  }

  lemma LifeStepKeepsStored(s: State, x: LifeEvent, t: State)
    requires Stored(s) && LifeStep(s, x, t)
    ensures Stored(t)
    ensures x.CrashedIn? ==> (Recoverable(s, x.e, x.k) <==> LeavesClean(s, x.e, x.k))
  {
    var e := x.e;
    if x.CrashedIn? {
      SameConfigSelf(s.pools);
      hide Stored, Next, Trail, Allowed, RestartSucceeds, AllParse, NoSharedRows, Restarted, SameConfig;
      RestartIsStored(s, e, x.k, s.pools, t);
      RestartAfterAnyRun(s, [], e, x.k, s.pools);
    } else {
      StepKeepsStored(s, e);
    }
  }

  lemma LifeStepKeepsInv(s: State, x: LifeEvent, t: State)
    requires Inv(s) && LifeStep(s, x, t)
    ensures Inv(t)
  {
    var e := x.e;
    if x.CrashedIn? {
      hide Contains, Enabled, Trail, Restarted, PoolsWellFormed, PoolsDisjoint;
      RestartKeepsInv(s.pools, CrashTable(s, e, x.k), t);
    } else {
      StepKeepsInv(s, e.q, e.env, e.ch);
    }
  }

  /**
   * Over any lifetime from a state with a stored table, with failing writes and clients of any kind, a crash can be
   * recovered from if and only if what it leaves parses and has no in-pool address under two clients; and every state
   * satisfies the lease invariant if the first does.
   */
  lemma {:induction false} LifetimeWithFailures(ss: seq<State>, xs: seq<LifeEvent>, i: nat)
    requires Lifetime(ss, xs) && Stored(ss[0]) && i <= |xs|
    ensures Stored(ss[i]) && (Inv(ss[0]) ==> Inv(ss[i]))
    ensures i < |xs| && xs[i].CrashedIn? ==>
              (Recoverable(ss[i], xs[i].e, xs[i].k) <==> LeavesClean(ss[i], xs[i].e, xs[i].k))
  {
    hide Inv, Stored, Recoverable, LeavesClean, LifeStep;
    if i > 0 {
      LifetimeWithFailures(ss, xs, i - 1);
      LifeStepKeepsStored(ss[i - 1], xs[i - 1], ss[i]);
      if Inv(ss[i - 1]) {
        LifeStepKeepsInv(ss[i - 1], xs[i - 1], ss[i]);
      }
    }
    if i < |xs| {
      LifeStepKeepsStored(ss[i], xs[i], ss[i + 1]);
    }
  }

  // --- leases survive crashes ---

  lemma ExactTablesAgree(s: State, t: State)
    requires TableExact(s) && TableExact(t) && s.table == t.table
    ensures s.records == t.records
  {
    forall m | m in s.records ensures m in t.records && t.records[m] == s.records[m] {
      assert Key(HwAddr(m), Quad(s.records[m].ip)) in s.table;
    }
    forall m | m in t.records ensures m in s.records {
      assert Key(HwAddr(m), Quad(t.records[m].ip)) in t.table;
    }
    assert s.records.Keys == t.records.Keys;
  }

  lemma StartFromExact(s: State, pools: map<string, Pool>, t: State)
    requires TableExact(s) && Restarted(pools, s.table, t)
    ensures TableExact(t) && t.records == s.records
  {
    ReadableParses(s.table);
    ExactRowsDiffer(s);
    StartedTableIsExact(pools, s.table, t);
    hide Restarted, TableExact, Canonical, OneRowEach;
    TableOf(pools, s.table, t);
    ExactTablesAgree(s, t);
  }

  lemma TableOf(pools: map<string, Pool>, table: Table, t: State)
    requires Restarted(pools, table, t)
    ensures t.table == table && RowsReadable(table)
  {
    hide RowsReadable, Loads, RestartedWith;
  }

  /** After a crash in a request with a working write the restarted plugin has the records from before or after it. */
  lemma CrashKeepsRecords(s: State, e: Event, k: nat, t: State)
    requires TableExact(s) && e.env.dbOk && LifeStep(s, CrashedIn(e, k), t)
    ensures TableExact(t) && (t.records == s.records || t.records == After(s, e).records)
  {
    StepKeepsTable(s, e);
    CrashTableIsBeforeOrAfter(s, e, k);
    hide Contains, Allowed, Next, Trail, TableExact, Restarted;
    if CrashTable(s, e, k) == s.table {
      StartFromExact(s, s.pools, t);
    } else {
      StartFromExact(After(s, e), s.pools, t);
    }
  }

  /**
   * Over any lifetime with working storage that starts from an exact table and sends m no NAK, m keeps its lease,
   * through every crash and restart; and every address sent to m is that of the lease.
   */
  lemma {:induction false} LeaseSurvives(ss: seq<State>, xs: seq<LifeEvent>, m: Mac, i: nat)
    requires Lifetime(ss, xs) && TableExact(ss[0]) && i <= |xs|
    requires forall j :: 0 <= j < |xs| ==> xs[j].e.env.dbOk && !Naks(ss[j], xs[j].e, m)
    requires m in ss[0].records
    ensures TableExact(ss[i]) && m in ss[i].records && ss[i].records[m] == ss[0].records[m]
    ensures i < |xs| && xs[i].e.q.mac == m ==>
              forall a :: Carries(ReplyOf(ss[i], xs[i].e), a) ==> a == ss[0].records[m].ip
  {
    hide TableExact, Allowed, Next, Trail, Restarted, Contains;
    if i > 0 {
      LeaseSurvives(ss, xs, m, i - 1);
      var s, x, t := ss[i - 1], xs[i - 1], ss[i];
      assert LifeStep(s, x, t);
      StepHistory(s, x.e, m);
      if x.CrashedIn? {
        CrashKeepsRecords(s, x.e, x.k, t);
      } else {
        StepKeepsTable(s, x.e);
      }
    }
  }

  // --- histories that end in a failing start ---

  /** No order of rows, records and pools lets setup4 succeed. */
  ghost predicate NoRestart(pools: map<string, Pool>, table: Table) {
    forall t :: !Restarted(pools, table, t)
  }

  /** All rows of m in the table have address a. */
  ghost predicate OnlyAt(table: Table, m: Mac, a: u32) {
    forall k :: k in table && MacOf(k.mac) == Some(m) ==> IpOf(k.ip) == Some(a)
  }

  lemma RowLoads(table: Table, recs: map<Mac, Record>, k: Key)
    requires Loads(table, recs) && k in table && MacOf(k.mac).Some?
    ensures MacOf(k.mac).value in recs
  {
  }

  lemma LoadedRow(table: Table, recs: map<Mac, Record>, m: Mac) returns (k: Key)
    requires Loads(table, recs) && m in recs
    ensures k in table && IsRow(k, m, recs[m].ip)
  {
    k :| k in table && IsRow(k, m, recs[m].ip) && table[k] == recs[m].hostname;
  }

  lemma LoadedAt(table: Table, recs: map<Mac, Record>, m: Mac, a: u32)
    requires Loads(table, recs) && RowsReadable(table) && Key(HwAddr(m), Quad(a)) in table && OnlyAt(table, m, a)
    ensures m in recs && recs[m].ip == a
  {
    hide Loads;
    assert MacOf(HwAddr(m)) == Some(m);
    RowLoads(table, recs, Key(HwAddr(m), Quad(a)));
    var k := LoadedRow(table, recs, m);
  }

  /** With disjoint networks, two clients whose rows all have the same in-pool address block every start. */
  lemma TwoRowsBlock(pools: map<string, Pool>, table: Table, m: Mac, n: Mac, a: u32, c: string)
    requires PoolsDisjoint(pools) && m != n && OnlyAt(table, m, a) && OnlyAt(table, n, a)
    requires Key(HwAddr(m), Quad(a)) in table && Key(HwAddr(n), Quad(a)) in table
    requires c in pools && InNet(pools[c], a)
    ensures NoRestart(pools, table)
  {
    hide Contains, PoolsDisjoint, Loads, RowsReadable, OnlyAt, Picks, Fits, PlacedBy;
    forall t ensures !Restarted(pools, table, t) {
      if Restarted(pools, table, t) {
        var pick: Pick :| RestartedWith(pools, t, pick);
        LoadedAt(table, t.records, m, a);
        LoadedAt(table, t.records, n, a);
        GoesWhereItIs(pools, t.records, pick, m, c);
        GoesWhereItIs(pools, t.records, pick, n, c);
        TwoInOnePool(pools, t.records, pick, m, n, c);
      }
    }
  }

  lemma OneRowAt(s: State, m: Mac)
    requires TableExact(s)
    ensures m in s.records ==> OnlyAt(s.table, m, s.records[m].ip)
    ensures m !in s.records ==> forall k :: k in s.table ==> MacOf(k.mac) != Some(m)
  {
  }

  /**
   * A NAK whose delete fails strands a row: once the freed address is leased to another client, with a working write,
   * setup4 fails in every order, although the running process never broke the lease invariant.
   */
  lemma StrandedRowBlocksRestart(s: State, nak: Event, lease: Event, c: string)
    requires Inv(s) && TableExact(s) && Enabled(s, nak) && Naks(s, nak, nak.q.mac) && !nak.env.dbOk
    requires c in s.pools && InNet(s.pools[c], s.records[nak.q.mac].ip)
    requires var t := After(s, nak);
             && Enabled(t, lease) && lease.env.dbOk && AllocatesTo(t, lease, lease.q.mac)
             && lease.q.mac != nak.q.mac && lease.ch.addr == s.records[nak.q.mac].ip
    ensures Inv(After(After(s, nak), lease))
    ensures NoRestart(s.pools, After(After(s, nak), lease).table)
  {
    hide Contains, Next, Allowed, ReplyTo, NoRestart, PoolsWellFormed, PoolsDisjoint, RecordsAreAllocated,
      AllocatedAreRecorded, NoSharing;
    var m, n, t := nak.q.mac, lease.q.mac, After(s, nak);
    StepKeepsInv(s, nak.q, nak.env, nak.ch);
    StepKeepsInv(t, lease.q, lease.env, lease.ch);
    AfterNak(s, nak);
    AfterAllocation(t, lease);
    OneRowAt(s, m);
    OneRowAt(s, n);
    var r := Record(lease.ch.addr, lease.q.hostname);
    assert After(t, lease).table == Insert(s.table, n, r);
    assert Key(HwAddr(m), Quad(r.ip)) in s.table;
    hide TableExact;
    StrandedRows(s.table, m, n, r);
    TwoRowsBlock(s.pools, Insert(s.table, n, r), m, n, r.ip, c);
  }

  lemma StrandedRows(table: Table, m: Mac, n: Mac, r: Record)
    requires m != n && OnlyAt(table, m, r.ip) && forall k :: k in table ==> MacOf(k.mac) != Some(n)
    ensures OnlyAt(Insert(table, n, r), m, r.ip) && OnlyAt(Insert(table, n, r), n, r.ip)
  {
  }

  /** A table that does not parse lets no start succeed. */
  lemma UnreadableBlocks(pools: map<string, Pool>, table: Table, m: Mac, a: u32)
    requires Key(HwAddr(m), Quad(a)) in table && !Parses(m)
    ensures NoRestart(pools, table)
  {
    assert MacOf(HwAddr(m)) == None;
    hide Loads, RestartedWith;
  }

  /** One pool of the single address a, free. */
  ghost function OneFree(a: u32): State {
    State(map[], map["pool" := Pool(Cidr4(a, 32), a, a, {})], map[])
  }

  /** The same pool, its address leased to m. */
  ghost function OneLease(m: Mac, a: u32): State {
    State(map[m := Record(a, "")], map["pool" := Pool(Cidr4(a, 32), a, a, {a})], map[Key(HwAddr(m), Quad(a)) := ""])
  }

  ghost function Ask(m: Mac, dbOk: bool, a: u32): Event {
    Event(Request(m, NoIP, false, ""), Env(dbOk, true), Choice(Some("pool"), a))
  }

  lemma OneLeaseIsSound(m: Mac, a: u32)
    ensures Inv(OneLease(m, a)) && TableExact(OneLease(m, a))
    ensures InNet(OneLease(m, a).pools["pool"], a)
  {
    var s := OneLease(m, a);
    assert InNet(s.pools["pool"], a);
    hide Contains;
    assert s.records[m].ip == a;
    assert Held(s.records, a);
  }

  lemma OneFreeIsSound(a: u32)
    ensures Inv(OneFree(a)) && TableExact(OneFree(a))
  {
    var s := OneFree(a);
    assert InNet(s.pools["pool"], a);
    hide Contains;
  }

  lemma OneLeaseFreed(m: Mac, dbOk: bool, a: u32)
    ensures var s, e := OneLease(m, a), Ask(m, dbOk, a);
            && Enabled(s, e) && Naks(s, e, m)
            && After(s, e) == OneFree(a).(table := if dbOk then map[] else s.table)
  {
    var s, e := OneLease(m, a), Ask(m, dbOk, a);
    OneLeaseIsSound(m, a);
    hide Contains;
    assert s.records - {m} == map[];
    assert {a} - {a} == {};
  }

  lemma FreedCanBeLeased(n: Mac, a: u32, t: State)
    requires t.records == map[] && t.pools == OneFree(a).pools
    ensures Enabled(t, Ask(n, true, a)) && AllocatesTo(t, Ask(n, true, a), n)
  {
    hide Contains;
    assert InRange(t.pools["pool"], a) && a !in t.pools["pool"].used;
  }

  lemma OneFreeLeased(m: Mac, a: u32)
    ensures Enabled(OneFree(a), Ask(m, true, a)) && After(OneFree(a), Ask(m, true, a)) == OneLease(m, a)
  {
    FreedCanBeLeased(m, a, OneFree(a));
    hide Contains, Next, Allowed, ReplyTo;
    AfterAllocation(OneFree(a), Ask(m, true, a));
    assert {} + {a} == {a};
  }

  /** Such histories exist: a pool of one address, any two clients, one failed delete. */
  lemma FailedDeleteBlocksRestart(m: Mac, n: Mac, a: u32)
    requires m != n
    ensures var s, nak, lease := OneLease(m, a), Ask(m, false, a), Ask(n, true, a);
            && Inv(s) && TableExact(s) && Enabled(s, nak) && Enabled(After(s, nak), lease)
            && NoRestart(s.pools, After(After(s, nak), lease).table)
  {
    OneLeaseIsSound(m, a);
    OneLeaseFreed(m, false, a);
    FreedCanBeLeased(n, a, After(OneLease(m, a), Ask(m, false, a)));
    hide Contains, Inv, Next, Allowed, NoRestart, TableExact;
    StrandedRowBlocksRestart(OneLease(m, a), Ask(m, false, a), Ask(n, true, a), "pool");
  }

  /**
   * A client whose hardware address does not parse back blocks the next start for as long as it has its lease: from its
   * first request to the NAK that answers its second, with working storage throughout.
   */
  lemma UnparseableClientBlocksUntilNak(m: Mac, a: u32)
    requires !Parses(m)
    ensures var s, e := OneFree(a), Ask(m, true, a);
            && Inv(s) && TableExact(s) && RunEnabled(s, [e, e])
            && RestartSucceeds(s.pools, s.table)
            && NoRestart(s.pools, Run(s, [e]).table)
            && RestartSucceeds(s.pools, Run(s, [e, e]).table)
  {
    var s, e := OneFree(a), Ask(m, true, a);
    OneFreeIsSound(a);
    OneFreeLeased(m, a);
    OneLeaseFreed(m, true, a);
    hide Contains, Inv, Next, Allowed, RestartSucceeds, NoRestart, TableExact, ReplyTo;
    ShortRuns(s, e, e);
    assert OneFree(a).(table := map[]) == OneFree(a);
    RestartAfterWorkingRun(s, []);
    RestartAfterWorkingRun(s, [e, e]);
    UnreadableBlocks(s.pools, OneLease(m, a).table, m, a);
  }

  /** A client with seven octets is one. */
  lemma SevenOctetsBlockRestart(a: u32)
    ensures var m: Mac := [2, 0, 0, 0, 0, 0, 1];
            NoRestart(OneFree(a).pools, Run(OneFree(a), [Ask(m, true, a)]).table)
  {
    hide RestartSucceeds, NoRestart, Run, OneFree, Ask;
    UnparseableClientBlocksUntilNak([2, 0, 0, 0, 0, 0, 1], a);
  }
}
