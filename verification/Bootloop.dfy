// plugin/coredhcp/bootloop: the lease server itself, as an object that updates its records, allocators and database.
module Bootloop {
  import opened Wrappers
  import opened Net
  import opened Leases
  import opened Pools
  import opened Restart
  import Recovery
  import LeaseRuns

  /** The SQLite file with the leases4 table; it outlives the process. */
  class LeaseDB {
    var rows: Table

    constructor ()
      ensures rows == map[]
    {
      rows := map[];
    }
  }

  /** loadRecords: the rows come in an arbitrary order and a later row of the same hardware address wins. */
  method LoadRecords(db: LeaseDB, readable: bool) returns (r: Option<map<Mac, Record>>)
    ensures r.Some? <==> readable && RowsReadable(db.rows)
    ensures r.Some? ==> Loads(db.rows, r.value)
  {
    if !readable {
      return None;
    }
    hide MacOf, IpOf;
    var records: map<Mac, Record> := map[];
    var rest := db.rows.Keys;
    while rest != {}
      invariant rest <= db.rows.Keys
      invariant forall k :: k in db.rows && k !in rest ==>
                              MacOf(k.mac).Some? && IpOf(k.ip).Some? && MacOf(k.mac).value in records
      invariant forall m :: m in records ==>
                              exists k :: k in db.rows && IsRow(k, m, records[m].ip)
                                          && db.rows[k] == records[m].hostname
      decreases rest
    {
      var k :| k in rest;
      var hwaddr, ipaddr := MacOf(k.mac), IpOf(k.ip);
      if hwaddr.None? {
        return None;
      }
      if ipaddr.None? {
        return None;
      }
      assert IsRow(k, hwaddr.value, ipaddr.value);
      records := records[hwaddr.value := Record(ipaddr.value, db.rows[k])];
      rest := rest - {k};
    }
    return Some(records);
  }

  datatype PoolConfig = PoolConfig(net: Option<Cidr>, startIP: IP, endIP: IP)

  datatype Config = Config(
    leaseFile: string,
    ipv4Start: Option<u32>,
    ipv4End: Option<u32>,
    subnetPools: map<string, PoolConfig>)

  /** Config.validate reports no error. */
  predicate ConfigValid(cfg: Config) {
    var subnets := |cfg.subnetPools| > 0;
    var legacy := cfg.ipv4Start.Some? || cfg.ipv4End.Some?;
    && cfg.leaseFile != ""
    && subnets != legacy
    && (legacy ==> cfg.ipv4Start.Some? && cfg.ipv4End.Some? && cfg.ipv4Start.value <= cfg.ipv4End.value)
  }

  /** The errors Config.validate counts. */
  datatype ConfigError = NoLeaseFile | BothModes | NoMode | NoStart | NoEnd | BadRange

  /** Config.validate: gathers every error; setup4 goes on only when there is none. */
  method Validate(cfg: Config) returns (errs: seq<ConfigError>)
    ensures errs == [] <==> ConfigValid(cfg)
    ensures NoLeaseFile in errs <==> cfg.leaseFile == ""
    ensures BothModes in errs <==> cfg.subnetPools != map[] && (cfg.ipv4Start.Some? || cfg.ipv4End.Some?)
    ensures NoMode in errs <==> cfg.subnetPools == map[] && cfg.ipv4Start.None? && cfg.ipv4End.None?
    ensures NoStart in errs <==> cfg.subnetPools == map[] && cfg.ipv4Start.None? && cfg.ipv4End.Some?
    ensures NoEnd in errs <==> cfg.subnetPools == map[] && cfg.ipv4Start.Some? && cfg.ipv4End.None?
    ensures BadRange in errs <==>
            cfg.subnetPools == map[] && cfg.ipv4Start.Some? && cfg.ipv4End.Some?
            && cfg.ipv4Start.value > cfg.ipv4End.value
  {
    errs := [];
    if cfg.leaseFile == "" {
      errs := errs + [NoLeaseFile];
    }
    var usingSubnetPools := |cfg.subnetPools| > 0;
    var usingLegacyPool := cfg.ipv4Start.Some? || cfg.ipv4End.Some?;
    if usingSubnetPools && usingLegacyPool {
      errs := errs + [BothModes];
    } else if !usingSubnetPools && !usingLegacyPool {
      errs := errs + [NoMode];
    }
    if usingLegacyPool && !usingSubnetPools {
      if cfg.ipv4Start.None? {
        errs := errs + [NoStart];
      }
      if cfg.ipv4End.None? {
        errs := errs + [NoEnd];
      }
      if cfg.ipv4Start.Some? && cfg.ipv4End.Some? {
        if cfg.ipv4Start.value > cfg.ipv4End.value {
          errs := errs + [BadRange];
        }
      }
    }
  }

  /** The subnet_pool checks of parseConfig, on a network and two addresses already parsed. */
  predicate Configurable(p: PoolConfig) {
    && p.net.Some?
    && p.startIP.V4? && Contains(p.net.value, p.startIP)
    && p.endIP.V4? && Contains(p.net.value, p.endIP)
  }

  /** The pool size parseConfig computes, in 32-bit arithmetic. */
  function IPv4Range(p: PoolConfig): u32
    requires Configurable(p)
  {
    (p.endIP.v - p.startIP.v + 1) % 0x1_0000_0000
  }

  /** parseConfig lets a reversed range through; setup4 then fails on it, and on nothing else it accepted. */
  lemma AcceptedPoolIsBuildable(p: PoolConfig)
    requires Configurable(p)
    ensures Buildable(p) <==> !Reversed(p)
  {
  }

  /**
   * The computed size is the number of addresses in the range, except for the whole address space, where it is 0, and
   * for ranges reversed by more than one, which parseConfig sizes too.
   */
  lemma RangeCountsAddresses(p: PoolConfig)
    requires Configurable(p)
    ensures IPv4Range(p) == |LeaseRuns.Range(p.startIP.v, p.endIP.v)|
            <==> -1 <= p.endIP.v - p.startIP.v < 0xFFFF_FFFF
  {
    var lo: int, hi: int := p.startIP.v, p.endIP.v;
    if lo <= hi + 1 {
      LeaseRuns.RangeSize(lo, hi);
    } else {
      assert LeaseRuns.Range(lo, hi) == {};
    }
    hide Contains;
  }

  /** The range from 10 down to 5 is accepted, has no address, and is given more than four thousand million. */
  lemma ReversedRangeIsCounted()
    ensures var p := PoolConfig(Some(WHOLE), V4(10), V4(5));
            Configurable(p) && LeaseRuns.Range(10, 5) == {} && IPv4Range(p) == 4294967292
  {
    WholeContains(10);
    WholeContains(5);
  }

  predicate Buildable(p: PoolConfig) {
    && p.net.Some? && Contains(p.net.value, p.startIP) && Contains(p.net.value, p.endIP)
    && p.startIP.V4? && p.endIP.V4? && p.startIP.v <= p.endIP.v
  }

  /** The network of all IPv4 addresses: the legacy single pool is the one pool of this network. */
  const WHOLE: Cidr := Cidr4(0, 0)

  const LEGACY: string := "legacy"

  /** Every AddPool or NewIPv4Allocator of setup4 succeeds. */
  predicate AllBuildable(cfg: Config) {
    forall c :: c in cfg.subnetPools ==> Buildable(cfg.subnetPools[c])
  }

  predicate Reversed(p: PoolConfig) {
    p.startIP.V4? && p.endIP.V4? && p.startIP.v > p.endIP.v
  }

  /** Of a configuration parseConfig accepts, setup4 can build the pools exactly when no range is reversed. */
  lemma AcceptedConfigIsBuildable(cfg: Config)
    requires forall c :: c in cfg.subnetPools ==> Configurable(cfg.subnetPools[c])
    ensures AllBuildable(cfg) <==>
            forall c :: c in cfg.subnetPools ==> !Reversed(cfg.subnetPools[c])
  {
    forall c | c in cfg.subnetPools ensures Buildable(cfg.subnetPools[c]) <==> !Reversed(cfg.subnetPools[c]) {
      AcceptedPoolIsBuildable(cfg.subnetPools[c]);
    }
    hide Buildable, Configurable, Reversed;
  }

  function FreshPool(p: PoolConfig): Pool
    requires Buildable(p)
  {
    Pool(p.net.value, p.startIP.v, p.endIP.v, {})
  }

  /** The configured pools, nothing allocated yet. */
  ghost function ConfiguredPools(cfg: Config): map<string, Pool>
    requires ConfigValid(cfg) && AllBuildable(cfg)
  {
    if |cfg.subnetPools| > 0 then map c | c in cfg.subnetPools :: FreshPool(cfg.subnetPools[c])
    else map[LEGACY := Pool(WHOLE, cfg.ipv4Start.value, cfg.ipv4End.value, {})]
  }

  lemma {:induction false} HighPartZero(a: nat, k: nat)
    requires a < BlockSize(k)
    ensures HighPart(a, k) == 0
    decreases k
  {
    if k > 0 {
      HighPartZero(a / 2, k - 1);
    }
  }

  lemma BlockSize8(k: nat)
    ensures BlockSize(k + 8) == 256 * BlockSize(k)
  {
    assert BlockSize(k + 2) == 4 * BlockSize(k) && BlockSize(k + 4) == 4 * BlockSize(k + 2);
    assert BlockSize(k + 6) == 4 * BlockSize(k + 4) && BlockSize(k + 8) == 4 * BlockSize(k + 6);
  }

  lemma WholeContains(a: u32)
    ensures Contains(WHOLE, V4(a))
  {
    BlockSize8(0); BlockSize8(8); BlockSize8(16); BlockSize8(24);
    HighPartZero(a, 32);
    HighPartZero(0, 32);
  }

  lemma SelectableIsPool(pools: map<string, Pool>, giaddr: IP, c: string)
    requires Selectable(pools, giaddr, c)
    ensures c in pools
  {
  }

  lemma FreesIsPool(pools: map<string, Pool>, a: u32, c: string)
    requires Frees(pools, a, Some(c))
    ensures c in pools
  {
  }

  // --- the trails of the branches of Handler4, as values ---

  lemma RefusalTrail(s: State, q: Request, env: Env, ch: Choice)
    requires q.mac !in s.records
    requires match ch.pool
             case None => forall c :: !Selectable(s.pools, q.giaddr, c)
             case Some(c) => Selectable(s.pools, q.giaddr, c) && Full(s.pools[c])
    ensures Allowed(s, q, env, ch) && Trail(s, q, env, ch) == [s] && Next(s, q, env, ch) == s
    ensures ReplyTo(s, q, env, ch) == Refused
  {
    hide Contains;
  }

  lemma AllocationTrail(s: State, q: Request, env: Env, ch: Choice, s1: State, s2: State, s3: State)
    requires q.mac !in s.records && ch.pool.Some? && Selectable(s.pools, q.giaddr, ch.pool.value)
    requires var p := s.pools[ch.pool.value];
             && !Full(p) && InRange(p, ch.addr) && ch.addr !in p.used
             && s1 == State(s.records, s.pools[ch.pool.value := p.(used := p.used + {ch.addr})], s.table)
    requires var r := Record(ch.addr, q.hostname);
             && s2 == State(s1.records, s1.pools, if env.dbOk then Insert(s1.table, q.mac, r) else s1.table)
             && s3 == State(s2.records[q.mac := r], s2.pools, s2.table)
    ensures Allowed(s, q, env, ch) && Trail(s, q, env, ch) == [s, s1, s2, s3] && Next(s, q, env, ch) == s3
    ensures ReplyTo(s, q, env, ch) == Lease(ch.addr, !q.iPXE)
  {
    hide Contains;
  }

  lemma NoNakTrail(s: State, q: Request, env: Env, ch: Choice)
    requires q.mac in s.records && (q.iPXE || !env.nakOk)
    ensures Allowed(s, q, env, ch) && Trail(s, q, env, ch) == [s] && Next(s, q, env, ch) == s
    ensures ReplyTo(s, q, env, ch) == if q.iPXE then BootScript(s.records[q.mac].ip) else NakFailed
  {
    hide Contains;
  }

  lemma NakTrail(s: State, q: Request, env: Env, ch: Choice, s1: State, s2: State, s3: State)
    requires q.mac in s.records && !q.iPXE && env.nakOk && ch.pool.Some?
    requires Frees(s.pools, s.records[q.mac].ip, ch.pool)
    requires s1 == State(s.records, s.pools, if env.dbOk then DeleteMac(s.table, q.mac) else s.table)
    requires s2 == State(s1.records - {q.mac}, s1.pools, s1.table)
    requires var p := s2.pools[ch.pool.value];
             s3 == State(s2.records, s2.pools[ch.pool.value := p.(used := p.used - {s.records[q.mac].ip})], s2.table)
    ensures Allowed(s, q, env, ch) && Trail(s, q, env, ch) == [s, s1, s2, s3] && Next(s, q, env, ch) == s3
    ensures ReplyTo(s, q, env, ch) == Nak
  {
    hide Contains;
  }

  lemma NakTrailNoPool(s: State, q: Request, env: Env, ch: Choice, s1: State, s2: State)
    requires q.mac in s.records && !q.iPXE && env.nakOk && ch.pool.None?
    requires Frees(s.pools, s.records[q.mac].ip, ch.pool)
    requires s1 == State(s.records, s.pools, if env.dbOk then DeleteMac(s.table, q.mac) else s.table)
    requires s2 == State(s1.records - {q.mac}, s1.pools, s1.table)
    ensures Allowed(s, q, env, ch) && Trail(s, q, env, ch) == [s, s1, s2] && Next(s, q, env, ch) == s2
    ensures ReplyTo(s, q, env, ch) == Nak
  {
    hide Contains;
  }

  // --- values for setup4 ---

  /** The configured pools: each with the network and the ends given for it, or the legacy one with its two ends. */
  lemma ConfiguredPoolsAre(cfg: Config)
    requires ConfigValid(cfg) && AllBuildable(cfg)
    ensures cfg.subnetPools != map[] ==>
              && ConfiguredPools(cfg).Keys == cfg.subnetPools.Keys
              && forall c :: c in cfg.subnetPools ==>
                   var p := cfg.subnetPools[c];
                   p.net.Some? && p.startIP.V4? && p.endIP.V4?
                   && ConfiguredPools(cfg)[c] == Pool(p.net.value, p.startIP.v, p.endIP.v, {})
    ensures cfg.subnetPools == map[] ==>
              cfg.ipv4Start.Some? && cfg.ipv4End.Some?
              && ConfiguredPools(cfg) == map[LEGACY := Pool(Cidr4(0, 0), cfg.ipv4Start.value, cfg.ipv4End.value, {})]
  {
    hide Contains;
  }

  lemma ConfiguredAreWellFormed(cfg: Config)
    requires ConfigValid(cfg) && AllBuildable(cfg)
    ensures PoolsWellFormed(ConfiguredPools(cfg))
  {
    if |cfg.subnetPools| == 0 {
      WholeContains(cfg.ipv4Start.value);
      WholeContains(cfg.ipv4End.value);
    }
    hide Contains;
    forall c | c in ConfiguredPools(cfg)
      ensures var p := ConfiguredPools(cfg)[c]; p.start <= p.end && InNet(p, p.start) && InNet(p, p.end)
    {
      if |cfg.subnetPools| > 0 {
        assert Buildable(cfg.subnetPools[c]);
      }
    }
  }

  lemma ConfiguredAreEmpty(cfg: Config)
    requires ConfigValid(cfg) && AllBuildable(cfg)
    ensures NothingAllocated(ConfiguredPools(cfg))
  {
    hide Contains;
  }

  /** The AddPool loop of setup4; it stops at the first pool that is refused. */
  method AddPools(cfg: Config, mgr: SubnetPoolManager) returns (ok: bool)
    requires mgr.Valid() && mgr.View() == map[]
    modifies mgr
    ensures mgr.Valid()
    ensures ok <==> AllBuildable(cfg)
    ensures ok ==> mgr.View().Keys == cfg.subnetPools.Keys
    ensures ok ==> forall c :: c in cfg.subnetPools ==> mgr.View()[c] == FreshPool(cfg.subnetPools[c])
    ensures fresh(mgr.Allocators() - old(mgr.Allocators()))
  {
    hide Contains, Buildable;
    var rest := cfg.subnetPools.Keys;
    while rest != {}
      invariant mgr.Valid() && rest <= cfg.subnetPools.Keys
      invariant mgr.View().Keys == cfg.subnetPools.Keys - rest
      invariant forall c :: c in cfg.subnetPools && c !in rest ==>
                              Buildable(cfg.subnetPools[c]) && mgr.View()[c] == FreshPool(cfg.subnetPools[c])
      invariant fresh(mgr.Allocators() - old(mgr.Allocators()))
      decreases rest
    {
      var c :| c in rest;
      var p := cfg.subnetPools[c];
      var added := mgr.AddPool(c, p.net, p.startIP, p.endIP);
      BuildableMeans(p);
      if !added {
        return false;
      }
      rest := rest - {c};
    }
    return true;
  }

  lemma BuildableMeans(p: PoolConfig)
    ensures Buildable(p) <==> p.net.Some? && Contains(p.net.value, p.startIP) && Contains(p.net.value, p.endIP)
                              && p.startIP.V4? && p.endIP.V4? && p.startIP.v <= p.endIP.v
  {
  }

  /** PluginState */
  class PluginState {
    var Recordsv4: map<Mac, Record>
    var leasedb: LeaseDB?
    var allocator: Bitmap?
    var subnetPoolMgr: SubnetPoolManager?
    var useSubnetPools: bool

    /** A plugin that setup4 has not run on: no database installed. */
    constructor ()
      ensures leasedb == null
    {
      Recordsv4, leasedb, allocator, subnetPoolMgr, useSubnetPools := map[], null, null, null, false;
    }

    ghost function Bitmaps(): set<Bitmap?>
      reads this`useSubnetPools, this`allocator, this`subnetPoolMgr, subnetPoolMgr
    {
      if useSubnetPools && subnetPoolMgr != null then subnetPoolMgr.Allocators() else {allocator}
    }

    ghost predicate PoolsReady()
      reads this`useSubnetPools, this`allocator, this`subnetPoolMgr, subnetPoolMgr, Bitmaps()
    {
      if useSubnetPools then subnetPoolMgr != null && subnetPoolMgr.Valid() else allocator != null && allocator.Valid()
    }

    ghost predicate Ready()
      reads this, subnetPoolMgr, Bitmaps()
    {
      leasedb != null && PoolsReady()
    }

    ghost function PoolsView(): map<string, Pool>
      requires PoolsReady()
      reads this`useSubnetPools, this`allocator, this`subnetPoolMgr, subnetPoolMgr, Bitmaps()
    {
      if useSubnetPools then subnetPoolMgr.View()
      else map[LEGACY := Pool(WHOLE, allocator.start, allocator.end, allocator.used)]
    }

    /** The plugin and its database as a value. */
    ghost function View(): State
      requires Ready()
      reads this, leasedb, subnetPoolMgr, Bitmaps()
    {
      State(Recordsv4, PoolsView(), leasedb.rows)
    }

    /** Everything a request must leave alone: which objects the plugin is made of. */
    twostate predicate SameObjects()
      reads this, subnetPoolMgr
    {
      leasedb == old(leasedb) && SamePoolObjects()
    }

    twostate predicate SamePoolObjects()
      reads this, subnetPoolMgr
    {
      && allocator == old(allocator) && useSubnetPools == old(useSubnetPools)
      && subnetPoolMgr == old(subnetPoolMgr)
      && (subnetPoolMgr != null ==> subnetPoolMgr.Pools == old(subnetPoolMgr.Pools))
    }

    /** saveIPAddress; ok says whether SQLite accepts the statement. */
    method SaveIPAddress(mac: Mac, record: Record, ok: bool)
      requires leasedb != null
      modifies leasedb
      ensures leasedb.rows == if ok then Insert(old(leasedb.rows), mac, record) else old(leasedb.rows)
    {
      if ok {
        leasedb.rows := leasedb.rows[Key(HwAddr(mac), Quad(record.ip)) := record.hostname];
      }
    }

    /** deleteIPAddress: every row of the hardware address goes. */
    method DeleteIPAddress(mac: Mac, ok: bool)
      requires leasedb != null
      modifies leasedb
      ensures leasedb.rows == if ok then DeleteMac(old(leasedb.rows), mac) else old(leasedb.rows)
    {
      if ok {
        leasedb.rows := map k | k in leasedb.rows && k.mac != HwAddr(mac) :: leasedb.rows[k];
      }
    }

    /** GetAllocatorForGiaddr, or the one allocator of the legacy configuration. */
    method SelectPool(giaddr: IP) returns (r: Option<string>)
      requires PoolsReady() && !giaddr.V6?
      ensures r.Some? ==> Selectable(PoolsView(), giaddr, r.value)
      ensures r.None? ==> forall c :: !Selectable(PoolsView(), giaddr, c)
    {
      if useSubnetPools {
        r := subnetPoolMgr.GetAllocatorForGiaddr(giaddr);
      } else {
        if giaddr.V4? {
          WholeContains(giaddr.v);
        }
        r := Some(LEGACY);
      }
    }

    /** The pool an address belongs to: the first whose network contains it, or the legacy allocator. */
    method PoolOf(ip: u32) returns (r: Option<string>)
      requires PoolsReady()
      ensures Frees(PoolsView(), ip, r)
    {
      if useSubnetPools {
        r := subnetPoolMgr.FindPool(ip);
      } else {
        WholeContains(ip);
        r := Some(LEGACY);
      }
    }

    function BitmapOf(c: string): (b: Bitmap)
      requires PoolsReady() && c in PoolsView()
      reads this`useSubnetPools, this`allocator, this`subnetPoolMgr, subnetPoolMgr, Bitmaps()
      ensures b in Bitmaps()
      ensures var p := PoolsView()[c]; p.start == b.start && p.end == b.end && p.used == b.used
    {
      if useSubnetPools then subnetPoolMgr.Pools[c].allocator else allocator
    }

    /** Changing one pool's bitmap changes that pool in the view and nothing else. */
    twostate lemma OneBitmapChanged(c: string)
      requires old(PoolsReady()) && c in old(PoolsView()) && SameObjects()
      requires var b := old(BitmapOf(c));
               b.Valid() && forall o :: o in old(Bitmaps()) && o != b && o != null ==> unchanged(o)
      ensures PoolsReady()
      ensures PoolsView() == var v := old(PoolsView()); v[c := v[c].(used := old(BitmapOf(c)).used)]
    {
      hide Contains;
      var b := old(BitmapOf(c));
      if useSubnetPools {
        var pools := subnetPoolMgr.Pools;
        forall d | d in pools && d != c ensures pools[d].allocator != b && unchanged(pools[d].allocator) {
          assert pools[d].allocator in old(Bitmaps());
        }
      }
    }

    /** Allocate on pool c's bitmap; NoIP is no hint. */
    method AllocateIn(c: string, hint: IP) returns (a: Option<u32>)
      requires PoolsReady() && c in PoolsView()
      modifies Bitmaps()
      ensures PoolsReady() && SameObjects()
      ensures a.None? <==> Full(old(PoolsView()[c]))
      ensures a.None? ==> PoolsView() == old(PoolsView())
      ensures a.Some? ==>
                var p := old(PoolsView()[c]);
                InRange(p, a.value) && a.value !in p.used
                && PoolsView() == old(PoolsView())[c := p.(used := p.used + {a.value})]
      ensures hint.V4? && InRange(old(PoolsView()[c]), hint.v) && hint.v !in old(PoolsView()[c].used) ==>
                a == Some(hint.v)
    {
      hide Contains;
      var b := BitmapOf(c);
      a := b.Allocate(hint);
      OneBitmapChanged(c);
      ghost var v := old(PoolsView());
      assert a.None? ==> v[c := v[c]] == v;
    }

    /** Free on pool c's bitmap. */
    method FreeIn(c: string, ip: u32)
      requires PoolsReady() && c in PoolsView()
      modifies Bitmaps()
      ensures PoolsReady() && SameObjects()
      ensures var p := old(PoolsView()[c]); PoolsView() == old(PoolsView())[c := p.(used := p.used - {ip})]
    {
      hide Contains;
      var b := BitmapOf(c);
      var ok := b.Free(V4(ip));
      OneBitmapChanged(c);
    }

    /**
     * Handler4. The choice made (pool and address) and the trail of states after each write are reported for the
     * specification; env says whether the database accepts the write and whether the NAK can be built.
     */
    method Handler4(q: Request, env: Env) returns (reply: Reply, ghost ch: Choice, ghost trail: seq<State>)
      requires Ready() && !q.giaddr.V6?
      modifies this`Recordsv4, leasedb, Bitmaps()
      ensures Ready() && SameObjects()
      ensures Allowed(old(View()), q, env, ch)
      ensures trail == Trail(old(View()), q, env, ch)
      ensures View() == Next(old(View()), q, env, ch)
      ensures reply == ReplyTo(old(View()), q, env, ch)
    {
      hide Contains, Trail, Allowed, Next, ReplyTo;
      ghost var s := View();
      trail := [s];
      if q.mac !in Recordsv4 {
        reply, ch, trail := Lease(q, env);
      } else if q.iPXE {
        ch := Choice(None, 0);
        NoNakTrail(s, q, env, ch);
        reply := BootScript(Recordsv4[q.mac].ip);
      } else {
        reply, ch, trail := Revoke(q, env);
      }
    }

    /** Writing the database or the records map does not touch the pools. */
    twostate lemma PoolsUntouched()
      requires old(PoolsReady()) && SamePoolObjects()
      requires forall b :: b in old(Bitmaps()) && b != null ==> unchanged(b)
      ensures PoolsReady() && PoolsView() == old(PoolsView())
    {
      hide Contains;
      if useSubnetPools {
        var pools := subnetPoolMgr.Pools;
        forall d | d in pools ensures unchanged(pools[d].allocator) {
          assert pools[d].allocator in old(Bitmaps());
        }
      } else {
        assert allocator in old(Bitmaps());
      }
    }

    /** The lease goes to the table and then to the records map; between is the state after the first of the two. */
    method StoreLease(mac: Mac, rec: Record, dbOk: bool) returns (ghost between: State)
      requires Ready()
      modifies this`Recordsv4, leasedb
      ensures Ready() && SameObjects()
      ensures var s := old(View());
              between == State(s.records, s.pools, if dbOk then Insert(s.table, mac, rec) else s.table)
      ensures View() == State(between.records[mac := rec], between.pools, between.table)
    {
      hide Contains, Insert;
      SaveIPAddress(mac, rec, dbOk);
      PoolsUntouched();
      between := View();
      label recording:
      Recordsv4 := Recordsv4[mac := rec];
      PoolsUntouched@recording();
    }

    /** The branch of Handler4 for an address that has no record. */
    method Lease(q: Request, env: Env) returns (reply: Reply, ghost ch: Choice, ghost trail: seq<State>)
      requires Ready() && !q.giaddr.V6? && q.mac !in Recordsv4
      modifies this`Recordsv4, leasedb, Bitmaps()
      ensures Ready() && SameObjects()
      ensures Allowed(old(View()), q, env, ch)
      ensures trail == Trail(old(View()), q, env, ch)
      ensures View() == Next(old(View()), q, env, ch)
      ensures reply == ReplyTo(old(View()), q, env, ch)
    {
      hide Contains, Selectable, Full, InRange, Trail, Allowed, ReplyTo, Next, Insert;
      ghost var s := View();
      var c := SelectPool(q.giaddr);
      PoolsUntouched();
      if c.None? {
        ch := Choice(None, 0);
        RefusalTrail(s, q, env, ch);
        return Refused, ch, [s];
      }
      SelectableIsPool(s.pools, q.giaddr, c.value);
      var a := AllocateIn(c.value, NoIP);
      ghost var s1 := View();
      if a.None? {
        ch := Choice(c, 0);
        RefusalTrail(s, q, env, ch);
        return Refused, ch, [s];
      }
      ch := Choice(c, a.value);
      var rec := Record(a.value, q.hostname);
      ghost var s2 := StoreLease(q.mac, rec, env.dbOk);
      ghost var s3 := View();
      AllocationTrail(s, q, env, ch, s1, s2, s3);
      return Reply.Lease(rec.ip, !q.iPXE), ch, [s, s1, s2, s3];
    }

    /** The branch of Handler4 that answers with a NAK and gives the address back. */
    method Revoke(q: Request, env: Env) returns (reply: Reply, ghost ch: Choice, ghost trail: seq<State>)
      requires Ready() && q.mac in Recordsv4 && !q.iPXE
      modifies this`Recordsv4, leasedb, Bitmaps()
      ensures Ready() && SameObjects()
      ensures Allowed(old(View()), q, env, ch)
      ensures trail == Trail(old(View()), q, env, ch)
      ensures View() == Next(old(View()), q, env, ch)
      ensures reply == ReplyTo(old(View()), q, env, ch)
    {
      hide Contains, Trail, Allowed, ReplyTo, Next, Frees, DeleteMac;
      ghost var s := View();
      var record := Recordsv4[q.mac];
      if !env.nakOk {
        ch := Choice(None, 0);
        NoNakTrail(s, q, env, ch);
        return NakFailed, ch, [s];
      }
      DeleteIPAddress(q.mac, env.dbOk);
      PoolsUntouched();
      ghost var s1 := View();
      label forgetting:
      Recordsv4 := Recordsv4 - {q.mac};
      PoolsUntouched@forgetting();
      ghost var s2 := View();
      label searching:
      var c := PoolOf(record.ip);
      PoolsUntouched@searching();
      ch := Choice(c, 0);
      if c.Some? {
        FreesIsPool(s.pools, record.ip, c.value);
        FreeIn(c.value, record.ip);
        ghost var s3 := View();
        NakTrail(s, q, env, ch, s1, s2, s3);
        return Nak, ch, [s, s1, s2, s3];
      }
      NakTrailNoPool(s, q, env, ch, s1, s2);
      return Nak, ch, [s, s1, s2];
    }

    /** The first part of setup4: one allocator per configured pool, or the legacy one. */
    method BuildPools(cfg: Config) returns (ok: bool)
      requires ConfigValid(cfg)
      modifies this`allocator, this`subnetPoolMgr, this`useSubnetPools
      ensures ok <==> AllBuildable(cfg)
      ensures ok ==> PoolsReady() && PoolsView() == ConfiguredPools(cfg) && forall b :: b in Bitmaps() ==> fresh(b)
    {
      if |cfg.subnetPools| > 0 {
        var mgr := new SubnetPoolManager();
        subnetPoolMgr := mgr;
        useSubnetPools := true;
        ok := AddPools(cfg, mgr);
        assert ok ==> mgr.View() == ConfiguredPools(cfg);
      } else {
        useSubnetPools := false;
        allocator := NewIPv4Allocator(V4(cfg.ipv4Start.value), V4(cfg.ipv4End.value));
        ok := true;
      }
    }

    /**
     * The second part of setup4: allocate every loaded address again, records and pools in arbitrary order. pick is the
     * pool each address went to, completed for the records a failed start did not get to.
     */
    method Reallocate() returns (ok: bool, ghost pick: Pick)
      requires PoolsReady() && NothingAllocated(PoolsView())
      modifies Bitmaps()
      ensures PoolsReady() && SameObjects()
      ensures Picks(old(PoolsView()), Recordsv4, pick)
      ensures ok <==> Fits(old(PoolsView()), Recordsv4, pick)
      ensures ok ==> PoolsView() == PlacedBy(old(PoolsView()), Recordsv4, pick)
    {
      hide Contains, Picks, Fits, PlacedBy, Frees, NothingAllocated;
      ghost var pools := PoolsView();
      NothingPlaced(pools);
      pick := map[];
      ghost var done: map<Mac, Record> := map[];
      var rest := Recordsv4.Keys;
      while rest != {}
        invariant PoolsReady() && SameObjects()
        invariant rest <= Recordsv4.Keys && done.Keys == Recordsv4.Keys - rest
        invariant forall m :: m in done ==> done[m] == Recordsv4[m]
        invariant Picks(pools, done, pick) && Fits(pools, done, pick)
        invariant PoolsView() == PlacedBy(pools, done, pick)
        decreases rest
      {
        var m :| m in rest;
        var v := Recordsv4[m];
        ghost var before := PoolsView();
        label searching:
        var c := PoolOf(v.ip);
        PoolsUntouched@searching();
        SameFrees(pools, done, pick, v.ip, c);
        if c.Some? {
          FreesIsPool(pools, v.ip, c.value);
          PlacedConfig(pools, done, pick, c.value);
          var ip := AllocateIn(c.value, V4(v.ip));
          if ip.None? || ip.value != v.ip {
            pick := PlaceFails(pools, done, pick, m, c.value, Recordsv4);
            return false, pick;
          }
          PlaceInside(pools, done, pick, m, v, c.value);
        } else {
          PlaceOutside(pools, done, pick, m, v);
        }
        done := done[m := v];
        pick := pick[m := c];
        rest := rest - {m};
      }
      assert done == Recordsv4;
      return true, pick;
    }

    /**
     * setup4: db is the file it opens; opens and readable say whether SQLite lets it open and query the file. loaded
     * and pick are what the order of rows and pools made of the table.
     */
    method Setup4(cfg: Config, db: LeaseDB, opens: bool, readable: bool)
        returns (ok: bool, ghost loaded: map<Mac, Record>, ghost pick: Pick)
      modifies this
      ensures var started := ConfigValid(cfg) && AllBuildable(cfg) && old(leasedb) == null && opens
                             && readable && RowsReadable(db.rows);
              && (ok ==> started)
              && (started ==> Loads(db.rows, loaded) && Picks(ConfiguredPools(cfg), loaded, pick)
                              && (ok <==> Fits(ConfiguredPools(cfg), loaded, pick)))
      ensures ok ==> Ready() && leasedb == db
                     && View() == State(loaded, PlacedBy(ConfiguredPools(cfg), loaded, pick), db.rows)
      ensures ok ==> Restarted(ConfiguredPools(cfg), db.rows, View())
      ensures ok && PoolsDisjoint(ConfiguredPools(cfg)) ==> Inv(View())
      ensures ok ==> forall b :: b in Bitmaps() ==> fresh(b)
    {
      hide Contains, Loads, PoolsDisjoint, RowsReadable, AllBuildable, ConfigValid, Restarted, Inv, Picks, Fits,
        PlacedBy, PoolsWellFormed, NothingAllocated;
      loaded, pick := map[], map[];
      var errs := Validate(cfg);
      if |errs| > 0 {
        return false, loaded, pick;
      }
      var built := BuildPools(cfg);
      if !built {
        return false, loaded, pick;
      }
      label opening:
      if leasedb != null || !opens {
        return false, loaded, pick;
      }
      leasedb := db;
      var records := LoadRecords(db, readable);
      if records.None? {
        return false, loaded, pick;
      }
      Recordsv4 := records.value;
      loaded := records.value;
      ConfiguredAreEmpty(cfg);
      PoolsUntouched@opening();
      ok, pick := Reallocate();
      if ok {
        StartedIs(ConfiguredPools(cfg), View(), pick);
        if PoolsDisjoint(ConfiguredPools(cfg)) {
          ConfiguredAreWellFormed(cfg);
          RestartKeepsInv(ConfiguredPools(cfg), db.rows, View());
        }
      }
    }
  }

  lemma PlacedConfig(pools: map<string, Pool>, recs: map<Mac, Record>, pick: Pick, c: string)
    requires c in pools
    ensures c in PlacedBy(pools, recs, pick)
    ensures var p := PlacedBy(pools, recs, pick)[c]; p.start == pools[c].start && p.end == pools[c].end
  {
  }

  lemma StartedIs(pools: map<string, Pool>, t: State, pick: Pick)
    requires RowsReadable(t.table) && Loads(t.table, t.records)
    requires Picks(pools, t.records, pick) && Fits(pools, t.records, pick)
    requires t.pools == PlacedBy(pools, t.records, pick)
    ensures Restarted(pools, t.table, t)
  {
    hide Picks, Fits, PlacedBy, Loads, RowsReadable;
    assert RestartedWith(pools, t, pick);
  }

  /** A first start, on an empty table, succeeds on every buildable configuration and gives a sound state. */
  method FirstStart(cfg: Config, db: LeaseDB) returns (p: PluginState, ok: bool)
    requires db.rows == map[]
    ensures fresh(p) && (ok <==> ConfigValid(cfg) && AllBuildable(cfg))
    ensures ok ==> p.Ready() && p.leasedb == db && p.View().records == map[]
    ensures ok && PoolsDisjoint(ConfiguredPools(cfg)) ==> Recovery.Sound(p.View())
  {
    hide Contains, AllBuildable, ConfigValid, Picks, Fits, PlacedBy, PoolsDisjoint, PoolsWellFormed, Restarted, Inv,
      Recovery.Sound, ConfiguredPools;
    p := new PluginState();
    ghost var loaded, pick;
    ok, loaded, pick := p.Setup4(cfg, db, true, true);
    assert ConfigValid(cfg) && AllBuildable(cfg) ==> loaded == map[];
    if ConfigValid(cfg) && AllBuildable(cfg) {
      NothingFits(ConfiguredPools(cfg), pick);
      if ok && PoolsDisjoint(ConfiguredPools(cfg)) {
        ConfiguredAreWellFormed(cfg);
        Recovery.FirstStartIsSound(ConfiguredPools(cfg), p.View());
      }
    }
  }

  lemma NothingFits(pools: map<string, Pool>, pick: Pick)
    ensures Fits(pools, map[], pick)
  {
  }

  /**
   * Crash recovery of the plugin itself: db holds what a process left when it crashed after k of the writes of serving
   * e, after any run in which any writes failed, from a state whose table can be read and stays in range. With the same
   * pools configured, Setup4 succeeds whenever every hardware address in the table parses and no in-pool address stands
   * in it under two clients; with disjoint networks the plugin it starts satisfies the lease invariant. When all writes
   * worked it then serves exactly the table's leases, and from a state that satisfies the lease invariant it starts
   * exactly when the hardware addresses parse.
   */
  method RestartAfterCrash(cfg: Config, db: LeaseDB, ghost s: State, ghost evs: seq<LeaseRuns.Event>,
                           ghost e: LeaseRuns.Event, ghost k: nat)
      returns (p: PluginState, ok: bool)
    requires Recovery.Stored(s) && LeaseRuns.RunEnabled(s, evs)
    requires var u := LeaseRuns.Run(s, evs);
             && LeaseRuns.Enabled(u, e) && k < |Trail(u, e.q, e.env, e.ch)| && db.rows == Recovery.CrashTable(u, e, k)
    requires ConfigValid(cfg) && AllBuildable(cfg) && SameConfig(s.pools, ConfiguredPools(cfg))
    ensures fresh(p)
    ensures Recovery.AllParse(db.rows) && NoSharedRows(ConfiguredPools(cfg), db.rows) ==> ok
    ensures ok ==> p.Ready() && p.leasedb == db && p.View().table == db.rows
    ensures ok ==> Recovery.Stored(p.View()) && SameConfig(ConfiguredPools(cfg), p.View().pools)
    ensures ok && PoolsDisjoint(ConfiguredPools(cfg)) ==> Inv(p.View())
    ensures ok && LeaseRuns.TableExact(s) && Worked(evs, e) ==> LeaseRuns.TableExact(p.View())
    ensures Inv(s) && LeaseRuns.TableExact(s) && Worked(evs, e) ==> (ok <==> Recovery.AllParse(db.rows))
  {
    hide Contains, AllBuildable, ConfigValid, Inv, Recovery.Stored, LeaseRuns.RunEnabled, LeaseRuns.Run, Trail, Allowed,
      Next, RowsReadable, Loads, Picks, Fits, PlacedBy, Restarted, SameConfig, PoolsDisjoint, LeaseRuns.TableExact,
      NoSharedRows, Recovery.AllParse, ConfiguredPools, Recovery.CrashTable, LeaseRuns.Enabled, Worked;
    p := new PluginState();
    ghost var loaded, pick;
    ok, loaded, pick := p.Setup4(cfg, db, true, true);
    StartSucceeds(s, evs, e, k, ConfiguredPools(cfg), loaded, pick);
    if ok {
      TableOfView(ConfiguredPools(cfg), db.rows, p.View());
      StartFacts(s, evs, e, k, ConfiguredPools(cfg), p.View());
    }
  }

  lemma TableOfView(pools: map<string, Pool>, table: Table, t: State)
    requires Restarted(pools, table, t)
    ensures t.table == table && Recovery.AllParse(table)
  {
    Recovery.TableOf(pools, table, t);
    Recovery.ReadableParses(table);
  }

  /** When the table is clean, every order of loading and picking succeeds. */
  lemma StartSucceeds(s: State, evs: seq<LeaseRuns.Event>, e: LeaseRuns.Event, k: nat, pools: map<string, Pool>,
                      loaded: map<Mac, Record>, pick: Pick)
    requires Recovery.Stored(s) && LeaseRuns.RunEnabled(s, evs) && SameConfig(s.pools, pools)
    requires var u := LeaseRuns.Run(s, evs); LeaseRuns.Enabled(u, e) && k < |Trail(u, e.q, e.env, e.ch)|
    ensures var t := Recovery.CrashTable(LeaseRuns.Run(s, evs), e, k);
            Recovery.AllParse(t) && NoSharedRows(pools, t) ==>
              RowsReadable(t) && (Loads(t, loaded) && Picks(pools, loaded, pick) ==> Fits(pools, loaded, pick))
    ensures var t := Recovery.CrashTable(LeaseRuns.Run(s, evs), e, k);
            Inv(s) && LeaseRuns.TableExact(s) && Worked(evs, e) && Recovery.AllParse(t) ==>
              RowsReadable(t) && (Loads(t, loaded) && Picks(pools, loaded, pick) ==> Fits(pools, loaded, pick))
  {
    hide Contains, Inv, Recovery.Stored, LeaseRuns.RunEnabled, LeaseRuns.Run, Trail, LeaseRuns.Enabled, RowsReadable,
      Loads, Picks, Fits, RestartSucceeds, SameConfig, LeaseRuns.TableExact, NoSharedRows, Recovery.AllParse, Worked,
      Recovery.CrashTable;
    CrashFacts(s, evs, e, k, pools);
    SucceedsMeans(pools, Recovery.CrashTable(LeaseRuns.Run(s, evs), e, k), loaded, pick);
  }

  ghost predicate Worked(evs: seq<LeaseRuns.Event>, e: LeaseRuns.Event) {
    e.env.dbOk && forall i :: 0 <= i < |evs| ==> evs[i].env.dbOk
  }

  lemma SucceedsMeans(pools: map<string, Pool>, table: Table, loaded: map<Mac, Record>, pick: Pick)
    ensures RestartSucceeds(pools, table) ==> RowsReadable(table)
    ensures RestartSucceeds(pools, table) && Loads(table, loaded) && Picks(pools, loaded, pick) ==>
              Fits(pools, loaded, pick)
  {
    hide RowsReadable, Loads, Picks, Fits;
  }

  lemma CrashFacts(s: State, evs: seq<LeaseRuns.Event>, e: LeaseRuns.Event, k: nat, pools: map<string, Pool>)
    requires Recovery.Stored(s) && LeaseRuns.RunEnabled(s, evs) && SameConfig(s.pools, pools)
    requires var u := LeaseRuns.Run(s, evs); LeaseRuns.Enabled(u, e) && k < |Trail(u, e.q, e.env, e.ch)|
    ensures var t := Recovery.CrashTable(LeaseRuns.Run(s, evs), e, k);
            RestartSucceeds(pools, t) <==> Recovery.AllParse(t) && NoSharedRows(pools, t)
    ensures var t := Recovery.CrashTable(LeaseRuns.Run(s, evs), e, k);
            Inv(s) && LeaseRuns.TableExact(s) && Worked(evs, e) ==>
              (RestartSucceeds(pools, t) <==> Recovery.AllParse(t))
  {
    Recovery.RestartAfterAnyRun(s, evs, e, k, pools);
    if Inv(s) && LeaseRuns.TableExact(s) && Worked(evs, e) {
      hide Contains, Inv, LeaseRuns.RunEnabled, LeaseRuns.Run, Trail, Allowed, Next, Restarted, SameConfig,
        LeaseRuns.TableExact, RestartSucceeds, Recovery.Stored, Recovery.AllParse, NoSharedRows;
      var u := LeaseRuns.Run(s, evs);
      LeaseRuns.RunKeepsInv(s, evs);
      Recovery.RunKeepsStored(s, evs);
      Recovery.SameConfigBack(s.pools, u.pools);
      Recovery.SameConfigChain(u.pools, s.pools, pools);
      LeaseRuns.RunKeepsTable(s, evs);
      Recovery.CrashRecovery(u, e, k, pools);
    }
  }

  lemma StartFacts(s: State, evs: seq<LeaseRuns.Event>, e: LeaseRuns.Event, k: nat, pools: map<string, Pool>, t: State)
    requires Recovery.Stored(s) && LeaseRuns.RunEnabled(s, evs) && SameConfig(s.pools, pools)
    requires var u := LeaseRuns.Run(s, evs);
             && LeaseRuns.Enabled(u, e) && k < |Trail(u, e.q, e.env, e.ch)|
             && Restarted(pools, Recovery.CrashTable(u, e, k), t)
    ensures Recovery.Stored(t) && SameConfig(pools, t.pools)
    ensures LeaseRuns.TableExact(s) && Worked(evs, e) ==> LeaseRuns.TableExact(t)
  {
    var u := LeaseRuns.Run(s, evs);
    Recovery.RunKeepsStored(s, evs);
    Recovery.RestartKeepsConfig(pools, Recovery.CrashTable(u, e, k), t);
    Recovery.CrashTableIsBeforeOrAfter(u, e, k);
    hide Contains, LeaseRuns.RunEnabled, LeaseRuns.Run, Trail, Allowed, Next, Restarted, SameConfig,
      LeaseRuns.TableExact, RestartSucceeds, Recovery.Stored;
    Recovery.SameConfigBack(s.pools, u.pools);
    Recovery.SameConfigChain(u.pools, s.pools, pools);
    Recovery.RestartIsStored(u, e, k, pools, t);
    if LeaseRuns.TableExact(s) && Worked(evs, e) {
      LeaseRuns.RunKeepsTable(s, evs);
      LeaseRuns.StepKeepsTable(u, e);
      if Recovery.CrashTable(u, e, k) == u.table {
        Recovery.StartFromExact(u, pools, t);
      } else {
        Recovery.StartFromExact(LeaseRuns.After(u, e), pools, t);
      }
    }
  }

  /**
   * The server the plugin runs in hands it one packet after another. Every such run is a run of the lease machine,
   * whichever writes fail, so what is proved of those runs holds of it; in particular it keeps the lease invariant,
   * which a successful Setup4 with disjoint pools establishes.
   */
  method Serve(p: PluginState, packets: seq<(Request, Env)>) returns (ghost evs: seq<LeaseRuns.Event>)
    requires p.Ready()
    requires forall i :: 0 <= i < |packets| ==> !packets[i].0.giaddr.V6?
    modifies p`Recordsv4, p.leasedb, p.Bitmaps()
    ensures p.Ready() && (Inv(old(p.View())) ==> Inv(p.View()))
    ensures LeaseRuns.RunEnabled(old(p.View()), evs) && p.View() == LeaseRuns.Run(old(p.View()), evs)
    ensures |evs| == |packets| && forall i :: 0 <= i < |evs| ==> evs[i].q == packets[i].0 && evs[i].env == packets[i].1
  {
    hide Contains, Inv, Allowed, Next, Trail;
    evs := [];
    for i := 0 to |packets|
      invariant p.Ready() && p.SameObjects()
      invariant LeaseRuns.RunEnabled(old(p.View()), evs) && p.View() == LeaseRuns.Run(old(p.View()), evs)
      invariant |evs| == i && forall j :: 0 <= j < i ==> evs[j].q == packets[j].0 && evs[j].env == packets[j].1
    {
      var (q, env) := packets[i];
      ghost var ch: Choice;
      ghost var trail: seq<State>;
      var reply;
      reply, ch, trail := p.Handler4(q, env);
      ghost var e := LeaseRuns.Event(q, env, ch);
      LeaseRuns.RunSnoc(old(p.View()), evs, e);
      evs := evs + [e];
    }
    if Inv(old(p.View())) {
      LeaseRuns.RunKeepsInv(old(p.View()), evs);
    }
  }
}
