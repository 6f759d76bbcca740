// What setup4 makes of the leases4 table: the rows it loads, the pools it puts their addresses into, and exactly when
// it succeeds.
module Restart {
  import opened Wrappers
  import opened Net
  import opened Leases

  /** net.ParseMAC reads back a printed hardware address of these lengths only. */
  predicate Parses(m: Mac) {
    |m| == 6 || |m| == 8 || |m| == 20
  }

  function MacOf(t: MacText): Option<Mac> {
    match t
    case HwAddr(m) => if Parses(m) then Some(m) else None
    case OtherMac(_, read) => read
  }

  function IpOf(t: IpText): Option<u32> {
    match t
    case Quad(a) => Some(a)
    case OtherIp(_, read) => read
  }

  /** The row reads as a lease of address a to m. */
  predicate IsRow(k: Key, m: Mac, a: u32) {
    MacOf(k.mac) == Some(m) && IpOf(k.ip) == Some(a)
  }

  /** loadRecords accepts every row. */
  ghost predicate RowsReadable(t: Table) {
    forall k :: k in t ==> MacOf(k.mac).Some? && IpOf(k.ip).Some?
  }

  /** loadRecords may return recs from t: one row per hardware address, in whatever order the rows come. */
  ghost predicate Loads(t: Table, recs: map<Mac, Record>) {
    && (forall k :: k in t && MacOf(k.mac).Some? ==> MacOf(k.mac).value in recs)
    && (forall m :: m in recs ==> exists k :: k in t && IsRow(k, m, recs[m].ip) && t[k] == recs[m].hostname)
  }

  /** The pool each loaded address goes to: the first in map order that contains it, None when none does. */
  type Pick = map<Mac, Option<string>>

  predicate GoesTo(pick: Pick, m: Mac, c: string) {
    m in pick && pick[m] == Some(c)
  }

  /** Some map order makes this pick. */
  ghost predicate Picks(pools: map<string, Pool>, recs: map<Mac, Record>, pick: Pick) {
    pick.Keys == recs.Keys && forall m :: m in recs ==> Frees(pools, recs[m].ip, pick[m])
  }

  /** With this pick every allocator gives out exactly the address asked for. */
  ghost predicate Fits(pools: map<string, Pool>, recs: map<Mac, Record>, pick: Pick) {
    && (forall m, c :: m in recs && c in pools && GoesTo(pick, m, c) ==> InRange(pools[c], recs[m].ip))
    && (forall m, n, c :: m in recs && n in recs && m != n && GoesTo(pick, m, c) && GoesTo(pick, n, c)
                          ==> recs[m].ip != recs[n].ip)
  }

  /** Pool c with exactly the addresses picked for it allocated. */
  ghost function Placed(p: Pool, c: string, recs: map<Mac, Record>, pick: Pick): Pool {
    Pool(p.cidr, p.start, p.end, set m | m in recs && GoesTo(pick, m, c) :: recs[m].ip)
  }

  ghost function PlacedBy(pools: map<string, Pool>, recs: map<Mac, Record>, pick: Pick): map<string, Pool> {
    map c | c in pools :: Placed(pools[c], c, recs, pick)
  }

  ghost predicate RestartedWith(pools: map<string, Pool>, t: State, pick: Pick) {
    && Picks(pools, t.records, pick) && Fits(pools, t.records, pick)
    && t.pools == PlacedBy(pools, t.records, pick)
  }

  /** setup4 with these pools may succeed on the table and leave the plugin in t. */
  ghost predicate Restarted(pools: map<string, Pool>, table: Table, t: State) {
    && RowsReadable(table) && t.table == table && Loads(table, t.records)
    && exists pick :: RestartedWith(pools, t, pick)
  }

  /** setup4 succeeds on this table with these pools, whatever order rows, records and pools are visited in. */
  ghost predicate RestartSucceeds(pools: map<string, Pool>, table: Table) {
    && RowsReadable(table)
    && forall recs, pick :: Loads(table, recs) && Picks(pools, recs, pick) ==> Fits(pools, recs, pick)
  }

  // --- exactly when a restart succeeds, as a query on the table ---

  predicate Inside(p: Pool, k: Key) {
    IpOf(k.ip).Some? && InNet(p, IpOf(k.ip).value)
  }

  /** Every row address inside a pool's network is in that pool's range. */
  ghost predicate RowsInRange(pools: map<string, Pool>, t: Table) {
    forall k, c :: k in t && c in pools && Inside(pools[c], k) ==> InRange(pools[c], IpOf(k.ip).value)
  }

  /** No two rows with different hardware addresses have the same address inside a pool's network. */
  ghost predicate NoSharedRows(pools: map<string, Pool>, t: Table) {
    forall j, k, c :: j in t && k in t && c in pools && Inside(pools[c], j) && IpOf(j.ip) == IpOf(k.ip)
                      ==> MacOf(j.mac) == MacOf(k.mac)
  }

  /** A pool that contains the address, if there is one. */
  ghost function SomePool(pools: map<string, Pool>, a: u32): (r: Option<string>)
    ensures Frees(pools, a, r)
  {
    if c :| c in pools && InNet(pools[c], a) then Some(c) else None
  }

  /** A pick that sends every address of pool c's network to c. */
  ghost function PickFor(pools: map<string, Pool>, recs: map<Mac, Record>, c: string): (pick: Pick)
    requires c in pools
    ensures Picks(pools, recs, pick)
    ensures forall m :: m in recs && InNet(pools[c], recs[m].ip) ==> GoesTo(pick, m, c)
  {
    map m | m in recs :: if InNet(pools[c], recs[m].ip) then Some(c) else SomePool(pools, recs[m].ip)
  }

  ghost function RowOf(t: Table, m: Mac): (k: Key)
    requires exists k :: k in t && MacOf(k.mac) == Some(m)
    ensures k in t && MacOf(k.mac) == Some(m)
  {
    var k :| k in t && MacOf(k.mac) == Some(m);
    k
  }

  ghost function RecordOf(t: Table, k: Key): Record
    requires k in t && IpOf(k.ip).Some?
  {
    Record(IpOf(k.ip).value, t[k])
  }

  /** Any two rows of different hardware addresses, or one row twice, can be loaded together. */
  lemma LoadWith(t: Table, j: Key, k: Key) returns (recs: map<Mac, Record>)
    requires RowsReadable(t) && j in t && k in t && (j == k || MacOf(j.mac) != MacOf(k.mac))
    ensures Loads(t, recs)
    ensures MacOf(j.mac).value in recs && recs[MacOf(j.mac).value] == RecordOf(t, j)
    ensures MacOf(k.mac).value in recs && recs[MacOf(k.mac).value] == RecordOf(t, k)
  {
    var macs := set r | r in t :: MacOf(r.mac).value;
    forall m | m in macs ensures exists r :: r in t && MacOf(r.mac) == Some(m) {
      var r :| r in t && MacOf(r.mac).value == m;
    }
    var x, y := MacOf(j.mac).value, MacOf(k.mac).value;
    recs := map m | m in macs :: RecordOf(t, if m == x then j else if m == y then k else RowOf(t, m));
    forall m | m in recs ensures exists r :: r in t && IsRow(r, m, recs[m].ip) && t[r] == recs[m].hostname {
      var r := if m == x then j else if m == y then k else RowOf(t, m);
      assert IsRow(r, m, recs[m].ip);
    }
  }

  lemma CleanTableFits(pools: map<string, Pool>, t: Table, recs: map<Mac, Record>, pick: Pick)
    requires RowsInRange(pools, t) && NoSharedRows(pools, t) && Loads(t, recs) && Picks(pools, recs, pick)
    ensures Fits(pools, recs, pick)
  {
    hide Contains;
    forall m, c | m in recs && c in pools && GoesTo(pick, m, c) ensures InRange(pools[c], recs[m].ip) {
      var k :| k in t && IsRow(k, m, recs[m].ip) && t[k] == recs[m].hostname;
      assert Inside(pools[c], k);
    }
    forall m, n, c | m in recs && n in recs && m != n && GoesTo(pick, m, c) && GoesTo(pick, n, c)
      ensures recs[m].ip != recs[n].ip
    {
      var j :| j in t && IsRow(j, m, recs[m].ip) && t[j] == recs[m].hostname;
      var k :| k in t && IsRow(k, n, recs[n].ip) && t[k] == recs[n].hostname;
      assert Inside(pools[c], j);
    }
  }

  lemma SucceedsInRange(pools: map<string, Pool>, t: Table, k: Key, c: string)
    requires RestartSucceeds(pools, t) && k in t && c in pools && Inside(pools[c], k)
    ensures InRange(pools[c], IpOf(k.ip).value)
  {
    hide Contains, InRange;
    var recs := LoadWith(t, k, k);
    var pick := PickFor(pools, recs, c);
    assert GoesTo(pick, MacOf(k.mac).value, c);
  }

  lemma SharedRowsBlock(pools: map<string, Pool>, t: Table, j: Key, k: Key, c: string)
    requires RowsReadable(t) && j in t && k in t && c in pools && Inside(pools[c], j)
    requires IpOf(j.ip) == IpOf(k.ip) && MacOf(j.mac) != MacOf(k.mac)
    ensures !RestartSucceeds(pools, t)
  {
    hide Contains, Loads, Picks, PickFor, Fits, MacOf, IpOf, GoesTo, InNet;
    var recs := LoadWith(t, j, k);
    var pick := PickFor(pools, recs, c);
    TwoInOnePool(pools, recs, pick, MacOf(j.mac).value, MacOf(k.mac).value, c);
  }

  lemma TwoInOnePool(pools: map<string, Pool>, recs: map<Mac, Record>, pick: Pick, m: Mac, n: Mac, c: string)
    requires m in recs && n in recs && m != n && GoesTo(pick, m, c) && GoesTo(pick, n, c) && recs[m].ip == recs[n].ip
    ensures !Fits(pools, recs, pick)
  {
  }

  /**
   * setup4 succeeds in every order if and only if every row parses, every row address inside a pool's network is in
   * that pool's range, and no two clients stand in the table with the same address of a pool's network.
   */
  lemma RestartIffClean(pools: map<string, Pool>, t: Table)
    ensures RestartSucceeds(pools, t) <==> RowsReadable(t) && RowsInRange(pools, t) && NoSharedRows(pools, t)
  {
    hide Contains, Loads, Picks, Fits, Inside;
    if RestartSucceeds(pools, t) {
      forall k, c | k in t && c in pools && Inside(pools[c], k) ensures InRange(pools[c], IpOf(k.ip).value) {
        SucceedsInRange(pools, t, k, c);
      }
      forall j, k, c | j in t && k in t && c in pools && Inside(pools[c], j) && IpOf(j.ip) == IpOf(k.ip)
        ensures MacOf(j.mac) == MacOf(k.mac)
      {
        if MacOf(j.mac) != MacOf(k.mac) {
          SharedRowsBlock(pools, t, j, k, c);
        }
      }
    } else if RowsReadable(t) && RowsInRange(pools, t) && NoSharedRows(pools, t) {
      var recs, pick :| Loads(t, recs) && Picks(pools, recs, pick) && !Fits(pools, recs, pick);
      CleanTableFits(pools, t, recs, pick);
    }
  }

  /** A table on which every order succeeds is one on which some order does. */
  lemma SucceedsSomehow(pools: map<string, Pool>, table: Table) returns (t: State)
    requires RestartSucceeds(pools, table)
    ensures Restarted(pools, table, t)
  {
    var recs := AnyLoad(table);
    var pick: Pick := map m | m in recs :: SomePool(pools, recs[m].ip);
    hide Loads, Fits, PlacedBy, SomePool, RowsReadable;
    t := State(recs, PlacedBy(pools, recs, pick), table);
    assert RestartedWith(pools, t, pick);
  }

  lemma AnyLoad(t: Table) returns (recs: map<Mac, Record>)
    requires RowsReadable(t)
    ensures Loads(t, recs)
  {
    if k :| k in t {
      recs := LoadWith(t, k, k);
    } else {
      recs := map[];
    }
  }

  // --- re-allocation, one record at a time ---

  ghost predicate NothingAllocated(pools: map<string, Pool>) {
    forall c :: c in pools ==> pools[c].used == {}
  }

  lemma NothingPlaced(pools: map<string, Pool>)
    requires NothingAllocated(pools)
    ensures Picks(pools, map[], map[]) && Fits(pools, map[], map[]) && PlacedBy(pools, map[], map[]) == pools
  {
    hide Contains;
    forall c | c in pools ensures Placed(pools[c], c, map[], map[]) == pools[c] {
      assert Placed(pools[c], c, map[], map[]).used == {};
    }
  }

  lemma PlacedOneMore(p: Pool, c: string, recs: map<Mac, Record>, pick: Pick, m: Mac, r: Record, to: Option<string>)
    requires m !in recs && pick.Keys == recs.Keys
    ensures var q := Placed(p, c, recs, pick);
            Placed(p, c, recs[m := r], pick[m := to]) == if to == Some(c) then q.(used := q.used + {r.ip}) else q
  {
    var more, after := recs[m := r], pick[m := to];
    assert forall n :: n in recs ==> (GoesTo(pick, n, c) <==> GoesTo(after, n, c));
    var q, t := Placed(p, c, recs, pick), Placed(p, c, more, after);
    forall a ensures a in t.used <==> a in q.used || (a == r.ip && to == Some(c)) {
      if a in q.used {
        var n :| n in recs && GoesTo(pick, n, c) && recs[n].ip == a;
        assert more[n].ip == a && GoesTo(after, n, c);
      }
      if to == Some(c) {
        assert GoesTo(after, m, c) && more[m].ip == r.ip;
      }
      if a in t.used {
        var n :| n in more && GoesTo(after, n, c) && more[n].ip == a;
        assert n != m ==> n in recs && GoesTo(pick, n, c);
      }
    }
  }

  /** A record no pool contains is kept and changes no pool. */
  lemma PlaceOutside(pools: map<string, Pool>, recs: map<Mac, Record>, pick: Pick, m: Mac, r: Record)
    requires m !in recs && Frees(pools, r.ip, None) && Picks(pools, recs, pick) && Fits(pools, recs, pick)
    ensures var more, after := recs[m := r], pick[m := None];
            && Picks(pools, more, after) && Fits(pools, more, after)
            && PlacedBy(pools, more, after) == PlacedBy(pools, recs, pick)
  {
    hide Contains, Placed;
    forall c | c in pools
      ensures Placed(pools[c], c, recs[m := r], pick[m := None]) == Placed(pools[c], c, recs, pick)
    {
      PlacedOneMore(pools[c], c, recs, pick, m, r, None);
    }
    var after: Pick := pick[m := None];
    assert forall n, c :: n in recs ==> (GoesTo(pick, n, c) <==> GoesTo(after, n, c));
    assert forall c :: !GoesTo(after, m, c);
  }

  lemma FitsOneMore(pools: map<string, Pool>, recs: map<Mac, Record>, pick: Pick, m: Mac, r: Record, c: string)
    requires m !in recs && c in pools && InRange(pools[c], r.ip) && r.ip !in Placed(pools[c], c, recs, pick).used
    requires pick.Keys == recs.Keys && Fits(pools, recs, pick)
    ensures Fits(pools, recs[m := r], pick[m := Some(c)])
  {
    var after: Pick := pick[m := Some(c)];
    assert forall n, d :: n in recs ==> (GoesTo(pick, n, d) <==> GoesTo(after, n, d));
    forall n | n in recs && GoesTo(pick, n, c) ensures recs[n].ip != r.ip {
      assert recs[n].ip in Placed(pools[c], c, recs, pick).used;
    }
    hide InRange, Placed;
    assert forall d :: GoesTo(after, m, d) ==> d == c;
  }

  /** A record whose address its pool gives out is placed there. */
  lemma PlaceInside(pools: map<string, Pool>, recs: map<Mac, Record>, pick: Pick, m: Mac, r: Record, c: string)
    requires m !in recs && Frees(pools, r.ip, Some(c)) && Picks(pools, recs, pick) && Fits(pools, recs, pick)
    requires InRange(pools[c], r.ip) && r.ip !in PlacedBy(pools, recs, pick)[c].used
    ensures var more, after, placed := recs[m := r], pick[m := Some(c)], PlacedBy(pools, recs, pick);
            && Picks(pools, more, after) && Fits(pools, more, after)
            && PlacedBy(pools, more, after) == placed[c := placed[c].(used := placed[c].used + {r.ip})]
  {
    hide Contains, Placed, Fits, InRange;
    FitsOneMore(pools, recs, pick, m, r, c);
    forall d | d in pools
      ensures var q := Placed(pools[d], d, recs, pick);
              Placed(pools[d], d, recs[m := r], pick[m := Some(c)]) == if d == c then q.(used := q.used + {r.ip}) else q
    {
      PlacedOneMore(pools[d], d, recs, pick, m, r, Some(c));
    }
  }

  /** A record whose address its pool does not give out fails the start, wherever the others would go. */
  lemma PlaceFails(pools: map<string, Pool>, recs: map<Mac, Record>, pick: Pick, m: Mac, c: string,
                   loaded: map<Mac, Record>) returns (full: Pick)
    requires m in loaded && m !in recs && forall n :: n in recs ==> n in loaded && loaded[n] == recs[n]
    requires Frees(pools, loaded[m].ip, Some(c)) && Picks(pools, recs, pick)
    requires !InRange(pools[c], loaded[m].ip) || loaded[m].ip in PlacedBy(pools, recs, pick)[c].used
    ensures Picks(pools, loaded, full) && !Fits(pools, loaded, full)
  {
    hide Contains, InRange, SomePool;
    full := map n | n in loaded ::
      if n == m then Some(c) else if n in recs then pick[n] else SomePool(pools, loaded[n].ip);
    assert GoesTo(full, m, c);
    if loaded[m].ip in PlacedBy(pools, recs, pick)[c].used {
      var n :| n in recs && GoesTo(pick, n, c) && recs[n].ip == loaded[m].ip;
      assert GoesTo(full, n, c);
      TwoInOnePool(pools, loaded, full, m, n, c);
    }
  }

  lemma SameFrees(pools: map<string, Pool>, recs: map<Mac, Record>, pick: Pick, a: u32, c: Option<string>)
    requires Frees(PlacedBy(pools, recs, pick), a, c)
    ensures Frees(pools, a, c)
  {
    hide Contains;
    var placed := PlacedBy(pools, recs, pick);
    assert forall d :: d in pools ==> (InNet(pools[d], a) <==> InNet(placed[d], a));
  }

  // --- with disjoint networks there is only one pick ---

  /** With disjoint networks a recorded address goes to the one pool that contains it. */
  lemma GoesWhereItIs(pools: map<string, Pool>, recs: map<Mac, Record>, pick: Pick, m: Mac, c: string)
    requires PoolsDisjoint(pools) && Picks(pools, recs, pick) && m in recs && c in pools && InNet(pools[c], recs[m].ip)
    ensures GoesTo(pick, m, c)
  {
    hide Contains;
    assert pick[m].Some?;
    OnlyOnePool(pools, recs[m].ip, c, pick[m].value);
  }

  lemma PlacedAreRecorded(pools: map<string, Pool>, recs: map<Mac, Record>, pick: Pick)
    requires Fits(pools, recs, pick)
    ensures AllocatedAreRecorded(recs, PlacedBy(pools, recs, pick))
  {
    hide Contains;
    var after := PlacedBy(pools, recs, pick);
    forall c, a | c in after && a in after[c].used ensures InRange(after[c], a) && Held(recs, a) {
      var m :| m in recs && GoesTo(pick, m, c) && recs[m].ip == a;
    }
  }

  lemma RecordsArePlaced(pools: map<string, Pool>, recs: map<Mac, Record>, pick: Pick)
    requires PoolsDisjoint(pools) && Picks(pools, recs, pick) && Fits(pools, recs, pick)
    ensures RecordsAreAllocated(recs, PlacedBy(pools, recs, pick)) && NoSharing(recs, PlacedBy(pools, recs, pick))
  {
    hide Contains, Picks, PoolsDisjoint;
    var after := PlacedBy(pools, recs, pick);
    forall m, c | m in recs && c in after && InNet(after[c], recs[m].ip) ensures recs[m].ip in after[c].used {
      GoesWhereItIs(pools, recs, pick, m, c);
    }
    forall m, n, c | m in recs && n in recs && m != n && c in after && InNet(after[c], recs[m].ip)
      ensures recs[m].ip != recs[n].ip
    {
      GoesWhereItIs(pools, recs, pick, m, c);
      if recs[m].ip == recs[n].ip {
        GoesWhereItIs(pools, recs, pick, n, c);
      }
    }
  }

  /** A successful restart with disjoint networks establishes the lease invariant. */
  lemma RestartKeepsInv(pools: map<string, Pool>, table: Table, t: State)
    requires PoolsWellFormed(pools) && PoolsDisjoint(pools) && Restarted(pools, table, t)
    ensures Inv(t)
  {
    hide Contains, Loads, Fits, Picks, PlacedBy, SameConfig, PoolsWellFormed, PoolsDisjoint, RecordsAreAllocated,
      AllocatedAreRecorded, NoSharing, RowsReadable;
    var pick: Pick :| RestartedWith(pools, t, pick);
    SameConfigPlaced(pools, t.records, pick);
    ConfigIsWellFormed(pools, t.pools);
    PlacedAreRecorded(pools, t.records, pick);
    RecordsArePlaced(pools, t.records, pick);
  }

  /** The same networks and ranges, whatever is allocated in them. */
  ghost predicate SameConfig(pools: map<string, Pool>, others: map<string, Pool>) {
    && pools.Keys == others.Keys
    && forall c :: c in pools ==>
         pools[c].cidr == others[c].cidr && pools[c].start == others[c].start && pools[c].end == others[c].end
  }

  lemma SameConfigPlaced(pools: map<string, Pool>, recs: map<Mac, Record>, pick: Pick)
    ensures SameConfig(pools, PlacedBy(pools, recs, pick))
  {
  }

  lemma ConfigIsWellFormed(pools: map<string, Pool>, others: map<string, Pool>)
    requires SameConfig(pools, others) && PoolsWellFormed(pools) && PoolsDisjoint(pools)
    ensures PoolsWellFormed(others) && PoolsDisjoint(others)
  {
    hide Contains;
    forall c | c in others
      ensures var p := others[c]; p.start <= p.end && InNet(p, p.start) && InNet(p, p.end)
    {
      assert c in pools;
    }
    forall c, d | c in others && d in others && c != d ensures Disjoint(others[c].cidr, others[d].cidr) {
      assert c in pools && d in pools;
    }
  }
}
