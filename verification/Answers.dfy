// What the bootloop plugin answers a client, stated on the client, the relay and the pools: who gets a lease and from
// which pool, who is refused, and what a client that already has a lease is sent.
module Answers {
  import opened Wrappers
  import opened Net
  import opened Leases
  import opened LeaseRuns

  /** The request came without a relay, whose address is then missing or all zeros. */
  predicate Unrelayed(giaddr: IP) {
    giaddr == NoIP || giaddr == V4(0) || giaddr == V6(0)
  }

  /** The pools a client with this relay address can be served from. */
  predicate Serves(pools: map<string, Pool>, giaddr: IP, c: string) {
    c in pools && if Unrelayed(giaddr) then |pools| == 1 else Contains(pools[c].cidr, giaddr)
  }

  predicate FreeIn(p: Pool, a: u32) {
    p.start <= a <= p.end && a !in p.used
  }

  /** Some address of the pool's range is free. */
  ghost predicate HasRoom(p: Pool) {
    exists a :: FreeIn(p, a)
  }

  lemma RoomIsNotFull(p: Pool)
    ensures HasRoom(p) <==> !Full(p)
  {
    if !Full(p) {
      var a :| InRange(p, a) && a !in p.used;
      assert FreeIn(p, a);
    }
    forall a | FreeIn(p, a) ensures InRange(p, a) && a !in p.used {
    }
  }

  /** The lease answers a new client from pool c, is recorded, and leads to the boot loader unless the client has it. */
  ghost predicate LeasesFrom(s: State, e: Event, c: string) {
    && Serves(s.pools, e.q.giaddr, c)
    && ReplyOf(s, e).Lease? && FreeIn(s.pools[c], ReplyOf(s, e).ip)
    && (ReplyOf(s, e).bootloader <==> !e.q.iPXE)
    && After(s, e).records == s.records[e.q.mac := Record(ReplyOf(s, e).ip, e.q.hostname)]
  }

  lemma ServesIsSelectable(pools: map<string, Pool>, giaddr: IP, c: string)
    ensures Serves(pools, giaddr, c) <==> Selectable(pools, giaddr, c)
  {
    hide Contains;
  }

  /**
   * A new client is leased an address from a pool that serves its relay, or is refused and nothing changes; it is
   * leased one when there is such a pool and all such pools have room, and refused when there is none or none has
   * room.
   */
  lemma NewClientAnswer(s: State, e: Event)
    requires Enabled(s, e) && e.q.mac !in s.records
    ensures (exists c :: LeasesFrom(s, e, c)) || (ReplyOf(s, e).Refused? && After(s, e) == s)
    ensures ((exists c :: Serves(s.pools, e.q.giaddr, c))
             && (forall c :: Serves(s.pools, e.q.giaddr, c) ==> HasRoom(s.pools[c]))) ==> ReplyOf(s, e).Lease?
    ensures (forall c :: Serves(s.pools, e.q.giaddr, c) ==> !HasRoom(s.pools[c])) ==> ReplyOf(s, e).Refused?
  {
    hide Contains, Unrelayed;
    forall c ensures Serves(s.pools, e.q.giaddr, c) <==> Selectable(s.pools, e.q.giaddr, c) {
      ServesIsSelectable(s.pools, e.q.giaddr, c);
    }
    hide Serves, Selectable;
    if e.ch.pool.Some? {
      ServedFrom(s, e);
    } else {
      assert forall c :: !Serves(s.pools, e.q.giaddr, c);
      assert ReplyOf(s, e).Refused? && After(s, e) == s;
    }
  }

  lemma ServedFrom(s: State, e: Event)
    requires Enabled(s, e) && e.q.mac !in s.records && e.ch.pool.Some?
    ensures var c := e.ch.pool.value;
            && Serves(s.pools, e.q.giaddr, c)
            && (HasRoom(s.pools[c]) ==> LeasesFrom(s, e, c))
            && (!HasRoom(s.pools[c]) ==> ReplyOf(s, e).Refused? && After(s, e) == s)
  {
    var c := e.ch.pool.value;
    ServesIsSelectable(s.pools, e.q.giaddr, c);
    RoomIsNotFull(s.pools[c]);
    if HasRoom(s.pools[c]) {
      AfterAllocation(s, e);
    }
    hide Contains, Unrelayed, HasRoom;
  }

  lemma RoomIsFewerHolders(s: State, c: string)
    requires Inv(s) && c in s.pools
    ensures HasRoom(s.pools[c]) <==> |Holders(s, c)| < s.pools[c].end - s.pools[c].start + 1
  {
    var p := s.pools[c];
    Conservation(s, c);
    RoomIsNotFull(p);
    FullMeansNoneFree(p);
    hide Inv;
    if FreeAddresses(p) != {} {
      assert |FreeAddresses(p)| > 0;
    }
  }

  /** Pool c serves the relay and fewer clients hold its addresses than its range has. */
  ghost predicate CanServe(s: State, giaddr: IP, c: string) {
    Serves(s.pools, giaddr, c) && |Holders(s, c)| < s.pools[c].end - s.pools[c].start + 1
  }

  /**
   * With disjoint networks the answer to a new client is determined: it is leased an address if and only if one pool
   * serves its relay and fewer clients hold that pool's addresses than its range has. Without a relay that is the only
   * pool; with one, the pool whose network contains the relay's address.
   */
  lemma NewClientLeasedIff(s: State, e: Event)
    requires Inv(s) && Enabled(s, e) && e.q.mac !in s.records
    ensures ReplyOf(s, e).Lease? <==> exists c :: CanServe(s, e.q.giaddr, c)
    ensures !ReplyOf(s, e).Lease? ==> ReplyOf(s, e).Refused? && After(s, e) == s
  {
    NewClientAnswer(s, e);
    forall c | c in s.pools
      ensures HasRoom(s.pools[c]) <==> |Holders(s, c)| < s.pools[c].end - s.pools[c].start + 1
    {
      RoomIsFewerHolders(s, c);
    }
    forall c, d | Serves(s.pools, e.q.giaddr, c) && Serves(s.pools, e.q.giaddr, d) ensures c == d {
      OnePoolServes(s.pools, e.q.giaddr, c, d);
    }
    ServesIsPool(s.pools, e.q.giaddr);
    hide Contains, Inv, HasRoom, Holders, Enabled, ReplyOf, After, Serves;
    if c :| CanServe(s, e.q.giaddr, c) {
      assert Serves(s.pools, e.q.giaddr, c);
    } else {
      assert forall c :: Serves(s.pools, e.q.giaddr, c) ==> !CanServe(s, e.q.giaddr, c);
    }
  }

  lemma ServesIsPool(pools: map<string, Pool>, giaddr: IP)
    ensures forall c :: Serves(pools, giaddr, c) ==> c in pools
  {
  }

  lemma OnePoolServes(pools: map<string, Pool>, giaddr: IP, c: string, d: string)
    requires PoolsDisjoint(pools) && Serves(pools, giaddr, c) && Serves(pools, giaddr, d)
    ensures c == d
  {
    if Unrelayed(giaddr) {
      assert c in pools.Keys && d in pools.Keys;
      OneOfOne(pools.Keys, c, d);
    }
  }

  lemma OneOfOne(keys: set<string>, c: string, d: string)
    requires |keys| == 1 && c in keys && d in keys
    ensures c == d
  {
    assert |keys - {c}| == 0;
  }

  /**
   * A client with a lease: iPXE is sent its boot script and address; anything else loses the lease, here and, if the
   * write works, in the table, and is sent a NAK; when no NAK can be built nothing changes.
   */
  lemma KnownClientAnswer(s: State, e: Event)
    requires Enabled(s, e) && e.q.mac in s.records
    ensures e.q.iPXE ==> ReplyOf(s, e) == BootScript(s.records[e.q.mac].ip) && After(s, e) == s
    ensures !e.q.iPXE && !e.env.nakOk ==> ReplyOf(s, e) == NakFailed && After(s, e) == s
    ensures !e.q.iPXE && e.env.nakOk ==>
              && ReplyOf(s, e) == Nak && After(s, e).records == s.records - {e.q.mac}
              && forall k :: k in After(s, e).table <==> k in s.table && !(e.env.dbOk && k.mac == HwAddr(e.q.mac))
  {
    hide Contains;
  }
}
