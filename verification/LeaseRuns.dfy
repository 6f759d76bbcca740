// Whole runs of the lease machine: safety, conservation, the history of each client, and the table.
module LeaseRuns {
  import opened Net
  import opened Leases

  /** One served request, with what the environment, the map orders and the allocators chose. */
  datatype Event = Event(q: Request, env: Env, ch: Choice)

  ghost predicate Enabled(s: State, e: Event) {
    Allowed(s, e.q, e.env, e.ch)
  }

  ghost function After(s: State, e: Event): State {
    Next(s, e.q, e.env, e.ch)
  }

  ghost function ReplyOf(s: State, e: Event): Reply {
    ReplyTo(s, e.q, e.env, e.ch)
  }

  ghost function Run(s: State, evs: seq<Event>): State
    decreases |evs|
  {
    if evs == [] then s else Run(After(s, evs[0]), evs[1..])
  }

  ghost predicate RunEnabled(s: State, evs: seq<Event>)
    decreases |evs|
  {
    evs != [] ==> Enabled(s, evs[0]) && RunEnabled(After(s, evs[0]), evs[1..])
  }

  /** One event more at the end of a run. */
  lemma {:induction false} RunSnoc(s: State, evs: seq<Event>, e: Event)
    requires RunEnabled(s, evs) && Enabled(Run(s, evs), e)
    ensures RunEnabled(s, evs + [e]) && Run(s, evs + [e]) == After(Run(s, evs), e)
    decreases |evs|
  {
    hide Next, Allowed;
    if evs == [] {
      assert evs + [e] == [e] && [e][1..] == [];
    } else {
      RunSnoc(After(s, evs[0]), evs[1..], e);
      assert (evs + [e])[1..] == evs[1..] + [e];
    }
  }

  /** Runs of one and of two requests. */
  lemma ShortRuns(s: State, e: Event, f: Event)
    ensures Run(s, []) == s && Run(s, [e]) == After(s, e) && Run(s, [e, f]) == After(After(s, e), f)
    ensures RunEnabled(s, []) && (RunEnabled(s, [e]) <==> Enabled(s, e))
    ensures RunEnabled(s, [e, f]) <==> Enabled(s, e) && Enabled(After(s, e), f)
  {
    hide Next, Allowed;
    var t := After(s, e);
    assert [e, f][1..] == [f] && [e][1..] == [] && [f][1..] == [];
    assert Run(s, [e]) == Run(t, []) && Run(t, [f]) == Run(After(t, f), []) && RunEnabled(t, [f]) == Enabled(t, f);
  }

  lemma {:induction false} RunKeepsInv(s: State, evs: seq<Event>)
    requires Inv(s) && RunEnabled(s, evs)
    ensures Inv(Run(s, evs))
    decreases |evs|
  {
    hide Inv, Next, Allowed;
    if evs != [] {
      StepKeepsInv(s, evs[0].q, evs[0].env, evs[0].ch);
      RunKeepsInv(After(s, evs[0]), evs[1..]);
    }
  }

  /**
   * Lease safety: after any run, each pool's allocated set is exactly the recorded addresses inside its network,
   * all of them in the pool's range, and no two hardware addresses hold the same one. No write needs to succeed.
   */
  lemma LeaseSafety(s: State, evs: seq<Event>)
    requires Inv(s) && RunEnabled(s, evs)
    ensures var t := Run(s, evs);
            forall c, a :: c in t.pools ==> (a in t.pools[c].used <==> InNet(t.pools[c], a) && Held(t.records, a))
    ensures var t := Run(s, evs);
            forall m, n, c :: (m in t.records && n in t.records && m != n && c in t.pools
                               && InNet(t.pools[c], t.records[m].ip)) ==> t.records[m].ip != t.records[n].ip
  {
    RunKeepsInv(s, evs);
    var t := Run(s, evs);
    forall c, a | c in t.pools ensures a in t.pools[c].used <==> InNet(t.pools[c], a) && Held(t.records, a) {
      AllocatedIsRecordedInside(t, c, a);
    }
  }

  // --- conservation and progress ---

  predicate Between(lo: int, a: u32, hi: int) {
    lo <= a <= hi
  }

  ghost function Range(lo: int, hi: int): set<u32>
    requires 0 <= lo && hi < 0x1_0000_0000
  {
    set a: u32 | lo <= a <= hi && Between(lo, a, hi)
  }

  lemma {:induction false} RangeSize(lo: int, hi: int)
    requires 0 <= lo <= hi + 1 && hi < 0x1_0000_0000
    ensures |Range(lo, hi)| == hi - lo + 1
    decreases hi - lo + 1
  {
    if lo <= hi {
      RangeSize(lo, hi - 1);
      RangeSnoc(lo, hi);
    } else {
      assert Range(lo, hi) == {};
    }
  }

  lemma RangeSnoc(lo: int, hi: int)
    requires 0 <= lo <= hi < 0x1_0000_0000
    ensures Range(lo, hi) == Range(lo, hi - 1) + {hi} && hi !in Range(lo, hi - 1)
  {
    forall a: u32 | a in Range(lo, hi) ensures a in Range(lo, hi - 1) + {hi} {
      assert Between(lo, a, hi - 1) || a == hi;
    }
    assert Between(lo, hi, hi);
  }

  ghost function FreeAddresses(p: Pool): set<u32> {
    Range(p.start, p.end) - p.used
  }

  /** The hardware addresses that hold an address of pool c. */
  ghost function Holders(s: State, c: string): set<Mac>
    requires c in s.pools
  {
    set m | m in s.records && InNet(s.pools[c], s.records[m].ip)
  }

  lemma {:induction false} OneHolderEach(macs: set<Mac>, addrs: set<u32>, records: map<Mac, Record>)
    requires forall m :: m in macs ==> m in records && records[m].ip in addrs
    requires forall a :: a in addrs ==> exists m :: m in macs && records[m].ip == a
    requires forall m, n :: m in macs && n in macs && m != n ==> records[m].ip != records[n].ip
    ensures |macs| == |addrs|
    decreases |macs|
  {
    if macs == {} {
      assert addrs == {};
    } else {
      var m :| m in macs;
      var a := records[m].ip;
      forall b | b in addrs - {a} ensures exists n :: n in macs - {m} && records[n].ip == b {
        var n :| n in macs && records[n].ip == b;
        assert n in macs - {m};
      }
      OneHolderEach(macs - {m}, addrs - {a}, records);
    }
  }

  lemma HoldersMatchAllocated(s: State, c: string)
    requires Inv(s) && c in s.pools
    ensures |Holders(s, c)| == |s.pools[c].used|
  {
    hide Contains;
    var p, macs := s.pools[c], Holders(s, c);
    forall a | a in p.used ensures exists m :: m in macs && s.records[m].ip == a {
      AllocatedIsRecordedInside(s, c, a);
      var m :| m in s.records && s.records[m].ip == a;
      assert m in macs;
    }
    OneHolderEach(macs, p.used, s.records);
  }

  /** Conservation: a pool's free addresses and its leaseholders add up to the size of its range. */
  lemma Conservation(s: State, c: string)
    requires Inv(s) && c in s.pools
    ensures var p := s.pools[c]; |FreeAddresses(p)| + |Holders(s, c)| == p.end - p.start + 1
  {
    var p := s.pools[c];
    HoldersMatchAllocated(s, c);
    RangeSize(p.start, p.end);
    assert p.used <= Range(p.start, p.end);
  }

  lemma FullMeansNoneFree(p: Pool)
    ensures Full(p) <==> FreeAddresses(p) == {}
  {
    if FreeAddresses(p) == {} {
      forall a | InRange(p, a) ensures a in p.used {
        assert Between(p.start, a, p.end);
        assert a !in FreeAddresses(p);
      }
    }
  }

  /** Progress: once a pool is picked, a new client is refused exactly when that many clients hold its addresses. */
  lemma RefusedOnlyWhenExhausted(s: State, e: Event)
    requires Inv(s) && Enabled(s, e) && e.q.mac !in s.records && e.ch.pool.Some?
    ensures e.ch.pool.value in s.pools
    ensures var p := s.pools[e.ch.pool.value];
            ReplyOf(s, e).Refused? <==> |Holders(s, e.ch.pool.value)| == p.end - p.start + 1
  {
    hide Contains;
    var p := s.pools[e.ch.pool.value];
    Conservation(s, e.ch.pool.value);
    FullMeansNoneFree(p);
  }

  // --- the history of one hardware address ---

  ghost function Recorded(s: State, m: Mac): nat {
    if m in s.records then 1 else 0
  }

  ghost predicate AllocatesTo(s: State, e: Event, m: Mac) {
    e.q.mac == m && ReplyOf(s, e).Lease?
  }

  ghost predicate Naks(s: State, e: Event, m: Mac) {
    e.q.mac == m && ReplyOf(s, e).Nak?
  }

  ghost function Allocations(s: State, evs: seq<Event>, m: Mac): nat
    decreases |evs|
  {
    if evs == [] then 0
    else (if AllocatesTo(s, evs[0], m) then 1 else 0) + Allocations(After(s, evs[0]), evs[1..], m)
  }

  ghost function NakCount(s: State, evs: seq<Event>, m: Mac): nat
    decreases |evs|
  {
    if evs == [] then 0
    else (if Naks(s, evs[0], m) then 1 else 0) + NakCount(After(s, evs[0]), evs[1..], m)
  }

  /** What one request does to the record of m. */
  lemma StepHistory(s: State, e: Event, m: Mac)
    requires Enabled(s, e)
    ensures var t := After(s, e);
            && Recorded(t, m)
               == Recorded(s, m) + (if AllocatesTo(s, e, m) then 1 else 0) - (if Naks(s, e, m) then 1 else 0)
            && (m in s.records && !Naks(s, e, m) ==> m in t.records && t.records[m] == s.records[m])
            && (AllocatesTo(s, e, m) ==> t.records[m] == Record(ReplyOf(s, e).ip, e.q.hostname))
  {
    hide Contains;
  }

  /** Recorded at the start, plus allocations, minus NAKs, is always 0 or 1 and says whether a record exists. */
  lemma {:induction false} HistoryBalance(s: State, evs: seq<Event>, m: Mac)
    requires RunEnabled(s, evs)
    ensures Recorded(s, m) + Allocations(s, evs, m) - NakCount(s, evs, m) == Recorded(Run(s, evs), m)
    decreases |evs|
  {
    hide Next, Allowed, ReplyTo;
    if evs != [] {
      StepHistory(s, evs[0], m);
      HistoryBalance(After(s, evs[0]), evs[1..], m);
    }
  }

  /** Without a NAK a record stays as it is. */
  lemma {:induction false} RecordStays(s: State, evs: seq<Event>, m: Mac)
    requires RunEnabled(s, evs) && m in s.records && NakCount(s, evs, m) == 0
    ensures m in Run(s, evs).records && Run(s, evs).records[m] == s.records[m]
    decreases |evs|
  {
    hide Next, Allowed, ReplyTo;
    if evs != [] {
      StepHistory(s, evs[0], m);
      RecordStays(After(s, evs[0]), evs[1..], m);
    }
  }

  /** The address a reply carries, if it carries one. */
  ghost predicate Carries(r: Reply, a: u32) {
    (r.Lease? || r.BootScript?) && r.ip == a
  }

  /** As long as m gets no NAK, every address sent to it is the one on record at the end. */
  lemma {:induction false} RepliesCarryTheRecord(s: State, evs: seq<Event>, m: Mac, i: nat, a: u32)
    requires RunEnabled(s, evs) && NakCount(s, evs, m) == 0
    requires i < |evs| && evs[i].q.mac == m && Carries(ReplyOf(Run(s, evs[..i]), evs[i]), a)
    ensures m in Run(s, evs).records && Run(s, evs).records[m].ip == a
    decreases |evs|
  {
    var t := After(s, evs[0]);
    StepHistory(s, evs[0], m);
    if i == 0 {
      assert evs[..0] == [];
      RecordStays(t, evs[1..], m);
    } else {
      assert evs[..i][1..] == evs[1..][..i - 1];
      hide Next, Allowed, ReplyTo;
      RepliesCarryTheRecord(t, evs[1..], m, i - 1, a);
    }
  }

  /**
   * Between two NAKs to m (s is the state after the first, the second is about to be sent) there is exactly one
   * allocation to m, and every address sent to m in between is that one.
   */
  lemma OneLeaseBetweenNaks(s: State, between: seq<Event>, second: Event, m: Mac)
    requires RunEnabled(s, between) && m !in s.records && NakCount(s, between, m) == 0
    requires Naks(Run(s, between), second, m)
    ensures Allocations(s, between, m) == 1
    ensures forall i, a :: 0 <= i < |between| && between[i].q.mac == m
                           && Carries(ReplyOf(Run(s, between[..i]), between[i]), a)
                           ==> a == Run(s, between).records[m].ip
  {
    HistoryBalance(s, between, m);
    forall i, a | 0 <= i < |between| && between[i].q.mac == m && Carries(ReplyOf(Run(s, between[..i]), between[i]), a)
      ensures a == Run(s, between).records[m].ip
    {
      RepliesCarryTheRecord(s, between, m, i, a);
    }
  }

  /** All that an allocation changes. */
  lemma AfterAllocation(s: State, e: Event)
    requires Enabled(s, e) && AllocatesTo(s, e, e.q.mac)
    ensures e.q.mac !in s.records && e.ch.pool.Some? && e.ch.pool.value in s.pools
    ensures var c, r := e.ch.pool.value, Record(e.ch.addr, e.q.hostname);
            After(s, e) == State(s.records[e.q.mac := r],
                                 s.pools[c := s.pools[c].(used := s.pools[c].used + {r.ip})],
                                 if e.env.dbOk then Insert(s.table, e.q.mac, r) else s.table)
  {
    hide Contains;
  }

  /** All that a NAK changes in the records and the table. */
  lemma AfterNak(s: State, e: Event)
    requires Enabled(s, e) && Naks(s, e, e.q.mac)
    ensures e.q.mac in s.records
    ensures After(s, e).records == s.records - {e.q.mac}
    ensures After(s, e).table == if e.env.dbOk then DeleteMac(s.table, e.q.mac) else s.table
  {
    hide Contains;
  }

  // --- the table ---

  /** The table holds exactly the records. */
  ghost predicate TableExact(s: State) {
    && (forall m :: m in s.records ==> Key(HwAddr(m), Quad(s.records[m].ip)) in s.table)
    && (forall k :: k in s.table ==>
          && k.mac.HwAddr? && k.ip.Quad?
          && k.mac.octets in s.records && s.records[k.mac.octets] == Record(k.ip.ip, s.table[k]))
  }

  lemma StepKeepsTable(s: State, e: Event)
    requires TableExact(s) && Enabled(s, e) && e.env.dbOk
    ensures TableExact(After(s, e))
  {
    hide Contains;
  }

  /** While writes succeed the table is the records, after any run. */
  lemma {:induction false} RunKeepsTable(s: State, evs: seq<Event>)
    requires TableExact(s) && RunEnabled(s, evs) && forall i :: 0 <= i < |evs| ==> evs[i].env.dbOk
    ensures TableExact(Run(s, evs))
    decreases |evs|
  {
    hide Next, Allowed, TableExact;
    if evs != [] {
      StepKeepsTable(s, evs[0]);
      RunKeepsTable(After(s, evs[0]), evs[1..]);
    }
  }

  /** While writes succeed, an address is in the table by the time it is sent. */
  lemma SentAddressIsStored(s: State, evs: seq<Event>, e: Event, a: u32)
    requires TableExact(s) && RunEnabled(s, evs) && forall i :: 0 <= i < |evs| ==> evs[i].env.dbOk
    requires var t := Run(s, evs); Enabled(t, e) && e.env.dbOk && Carries(ReplyOf(t, e), a)
    ensures Key(HwAddr(e.q.mac), Quad(a)) in After(Run(s, evs), e).table
  {
    RunKeepsTable(s, evs);
    StepKeepsTable(Run(s, evs), e);
    StepHistory(Run(s, evs), e, e.q.mac);
  }
}
