# A verified model of coresmd

coresmd is a set of CoreDHCP and CoreDNS plugins that hand out addresses, names and boot options to the nodes of a
cluster whose inventory lives in the State Management Database (SMD). This project models the parts of it that carry
state or decide something, and proves what they are for.

- **Leases** (`Leases`, `Answers`, `LeaseRuns`, `Ranges`, `Restart`, `Recovery`, `Conditions`, `Pools`, `Bootloop`). The
  bootloop plugin leases addresses to unknown hardware. One lease is kept in three places: a records map, a bitmap per
  pool, and the `leases4` table. `Leases` says on values what one request does, write by write; `Answers` says what each
  client is sent, in terms of the client, its relay and the pools; `LeaseRuns` proves safety, conservation, progress and
  the history of a client over every run; `Ranges` says exactly what the configured pools must satisfy for that.
  `Restart` says exactly on which tables setup4 succeeds, and `Recovery` carries that over runs with failing writes and
  crashes between any two of them; `Conditions` has the exact conditions on the pools for recovery over whole lifetimes.
  `Bootloop` and `Pools` are the objects themselves. Their methods are proved to take exactly the steps of that machine,
  with storage that may fail at each write and maps visited in any order.
- **Rule text** (`Csv`, `Quote`, `RuleDict`, `RuleParser`, `RuleFields`, `DomainAppend`, `IPText`, `Netmask`). The
  splitter and the escape decoder are two hand-written scanners that must agree on quoting; the dictionary and ParseRule
  stand on them. What ParseRule normalizes keeps its meaning. `RuleFields` says, field by field, what an accepted rule has
  to do with the text.
- **Rules** (`Rules`, `Hostname`, `Naming`, `Evaluate`, `RuleWalk`). The rule loops for DHCPv4 and DHCPv6, against one
  declarative meaning: which rules are reached, which one is the last to set an option, and when a request is dropped;
  `RuleWalk` has a second meaning, one rule after another, and proves them equal. `Naming` says what the names are.
- **Networks** (`Net`, `Subnets`, `Iface`, `Identity`). Containment, relay-aware lookups, the component a client is taken
  for, and the address the coresmd plugin assigns.
- **DNS** (`ReverseName`, `Dotted`, `Dns`, `Resolving`). Forward and reverse lookups over the inventory, which names
  resolve and to whom, and reverse names back to addresses.

`Text` and `Wrappers` hold string operations and the option and result types.

Code that updates state in the repository is imperative here: classes for the plugin, its pools, bitmaps, table, subnet
context and responses; loops where the repository has loops; the in-place swap on an array. Each is tied to a
specification function or predicate, and the theorems are about those. A range over a Go map is a loop that picks any
remaining key.

Text is a sequence of Unicode characters, addresses are 32- and 128-bit numbers, masks are 32-bit vectors. A clock, the
database, the DHCP packets and the address library appear as parameters: `Env` says whether a write succeeds, `Choice`
which pool and address came up.

## What turned out different from what one would expect

- A restart succeeds in every order if and only if every row parses, every row address inside a pool's network is in that
  pool's range, and no two clients stand in the table with one address of a pool's network (`Restart.RestartIffClean`).
  The second condition holds by itself after every run that starts with no leases, whatever writes fail, if and only if
  the ranges fill what they share with other pools' networks (`Conditions.RowsStayInRangeIff`). setup4 does not ask for
  that: with a range of 10.0.0.1 to 10.0.0.9 in 10.0.0.0/8 beside a pool in 10.1.0.0/16, one lease from the second can
  make the next start fail.
- Crash recovery has an exact condition on the pools. Starting with no leases, with working writes and parseable clients,
  every crash in every lifetime can be recovered from if and only if no address of a pool's range lies in another pool's
  network (`Conditions.RecoversIffRangesClear`). Pools that no relay can select are left out on one side only: a start may
  put a lease into one of them.
- A hardware address that is not 6, 8 or 20 octets long is written but not read back by `net.ParseMAC`. A client with one
  blocks every start for as long as it has its lease: with working storage, and with disjoint networks or clear ranges, a
  start succeeds if and only if all clients with leases parse (`Recovery.RestartAfterWorkingRun`,
  `Conditions.ClearRunRestarts`, `Recovery.UnparseableClientBlocksUntilNak`).
- A NAK whose delete fails leaves a row behind. Once the address is leased to another client, with a working write, no start
  succeeds in any order, although the running process is never wrong (`Recovery.StrandedRowBlocksRestart`,
  `Recovery.FailedDeleteBlocksRestart`).
- That no two clients share an address does not need disjoint pool networks, only disjoint ranges
  (`Ranges.UniqueIffRangesApart`). That the allocated sets stay equal to the recorded addresses needs that no range meets
  another pool's network (`Ranges.ExactIffRangesClear`). With restarts in between, uniqueness also needs the ranges of
  pools no relay can select out of the way (`Conditions.UniqueForLifeIff`).
- Evaluate4 replaces a blank name by the default one and Evaluate6 keeps it. The two differ exactly when the last rule that
  names appends no domain and its pattern, once `{id}` is replaced, is blank (`Evaluate.EvaluatorsAgree`), which takes a
  blank component id.
- LookupMACWithSubnet drops addresses that do not parse and may return none; Handler4 then indexes an empty list
  (`Iface.IndexPanicIff` for exactly when, `Iface.PanicsWithoutAddress` for a request that does it).
- The size parseConfig computes for a pool is right for every ordered range but the whole address space, where it is 0, and
  wrong for ranges reversed by more than one, which it accepts and sizes too (`Bootloop.RangeCountsAddresses`,
  `Bootloop.ReversedRangeIsCounted`).
- A zone configured with a final dot, when it is the only one, answers PTR queries with names that never resolve: ServeDNS
  drops one dot from each query, and the zone name keeps its own (`Dns.ServedIffUndotted`).
- plugin/coredns/README.md:98-108 shows PTR answers with names made from node numbers; the code always answers with the
  component id. examples/coredhcp/rules.md:464-466 shows a BMC named by its number; only components of type `Node` get one
  (internal/iface/iface.go:55-57). The model follows the code.

## Model

| member | source | states |
|---|---|---|
| Leases.StepKeepsInv | plugin/coredhcp/bootloop/main.go:417-529 | Any request, with any outcome of its database write and any pool and allocator choice, keeps the lease invariant: allocated sets and records match inside every pool, and nobody shares an in-pool address. |
| Leases.AllocatedIsRecordedInside | plugin/coredhcp/bootloop/main.go:451-522 | Under the invariant a pool's allocated set is exactly the recorded addresses inside its network. |
| Leases.RevocationFrees | plugin/coredhcp/bootloop/main.go:486-523 | A NAK removes one record and takes its address out of every pool, whichever pool the search stopped at. |
| Answers.NewClientAnswer | plugin/coredhcp/bootloop/main.go:431-484 | A client without a lease, for any pools: it is leased a free address of a pool that serves its relay, recorded with its name and sent to the boot loader unless it has it, when such a pool exists and all such have room; it is refused and nothing changes when none has. |
| Answers.NewClientLeasedIff | internal/subnet/pool.go:63-82 | With disjoint networks such a client is leased an address if and only if some pool serves its relay and fewer clients hold that pool's addresses than its range has: the only pool when giaddr is missing or all zeros, one whose network contains it otherwise; with several pools and no relay, or a relay outside all networks, it is refused. |
| Answers.KnownClientAnswer | plugin/coredhcp/bootloop/main.go:479-525 | A client with a lease: iPXE is sent the boot script with its address and nothing changes; any other loses its record and, if the delete works, its rows and no others, and is sent a NAK; without a NAK packet nothing changes. |
| LeaseRuns.LeaseSafety | plugin/coredhcp/bootloop/main.go:417-529 | With disjoint networks, after any run, writes failing or not: allocated means recorded and inside, and no two clients hold the same in-pool address. |
| Ranges.UniqueIffRangesApart | plugin/coredhcp/bootloop/main.go:417-529 | From no leases, no run ever gives one address to two clients if and only if the ranges of the pools that some relay selects are pairwise disjoint, however the networks overlap. |
| Ranges.RunKeepsRangeSafe | plugin/coredhcp/bootloop/main.go:417-529 | From any state with disjoint ranges whose in-range addresses are allocated and unshared, they stay so over every run; a NAK that frees in the wrong pool does no harm. |
| Ranges.RestartIsRangeSafe | plugin/coredhcp/bootloop/main.go:168-206 | A successful start establishes that state, for overlapping networks too, when the range of each selectable pool is disjoint from all others. |
| Conditions.UniqueForLifeIff | plugin/coredhcp/bootloop/main.go:110-211 | From no leases, over every lifetime of requests, crashes and restarts, whatever writes fail: no two clients hold the same address of a selectable pool's range if and only if the range of each selectable pool is disjoint from all others, selectable or not. |
| Ranges.ExactIffRangesClear | plugin/coredhcp/bootloop/main.go:451-522 | From no leases, every run keeps each allocated set equal to the recorded addresses inside the network if and only if no address of a selectable pool's range lies in another pool's network. |
| Ranges.DisjointIsClear | internal/subnet/pool.go:34-60 | Disjoint networks are enough for both conditions, because AddPool's endpoint checks put each range inside its network. |
| LeaseRuns.Conservation | plugin/coredhcp/bootloop/main.go:340 | Free addresses plus clients holding an address of the pool always equal the size of its range. |
| LeaseRuns.RefusedOnlyWhenExhausted | plugin/coredhcp/bootloop/main.go:451-455 | Once a pool is picked, a new client is refused if and only if as many distinct clients as the range has addresses hold them. |
| LeaseRuns.HistoryBalance | plugin/coredhcp/bootloop/main.go:428-525 | For each client, recorded at start + allocations - NAKs is whether it has a record now, hence 0 or 1. |
| LeaseRuns.RecordStays | plugin/coredhcp/bootloop/main.go:428-525 | A record changes through a NAK to its own client only. |
| LeaseRuns.RepliesCarryTheRecord | plugin/coredhcp/bootloop/main.go:465-484 | Between NAKs every reply to a client carries the one address on record for it. |
| LeaseRuns.OneLeaseBetweenNaks | plugin/coredhcp/bootloop/main.go:428-525 | Between two NAKs to a client there is exactly one allocation to it, and every address sent to it is that one. |
| LeaseRuns.RunKeepsTable | plugin/coredhcp/bootloop/storage.go:62-91 | While writes succeed the table is exactly the records map, after any run. |
| LeaseRuns.SentAddressIsStored | plugin/coredhcp/bootloop/main.go:461-484 | While writes succeed, every address in a reply is in the table under its client. |
| Restart.RestartIffClean | plugin/coredhcp/bootloop/main.go:159-206 | setup4 succeeds in every row, record and pool order if and only if every row parses, every row address inside a pool's network is in its range, and no two hardware addresses share a row address inside a pool's network. |
| Restart.LoadWith | plugin/coredhcp/bootloop/storage.go:42-55 | Any two rows of different hardware addresses can be loaded together: some row order leaves exactly them. |
| Restart.SucceedsSomehow | plugin/coredhcp/bootloop/main.go:159-206 | A table on which setup4 succeeds in every order is one on which it succeeds in some; so what lets no order succeed is more than what lets some order fail. |
| Recovery.RestartAfterAnyRun | plugin/coredhcp/bootloop/main.go:159-206 | From a readable table with rows in range, and with ranges that fill what they share with other pools' networks: after any run and a crash at any point, whatever writes failed, setup4 with the same pools succeeds in every order if and only if every stored hardware address parses and no in-pool address stands under two clients. |
| Conditions.RowsStayInRangeIff | plugin/coredhcp/bootloop/main.go:339-347 | From no leases, every row stays in the range of each pool whose network contains it, over every run whatever writes fail, if and only if the ranges fill what they share with other pools' networks. |
| Conditions.RecoversIffRangesClear | plugin/coredhcp/bootloop/main.go:110-211 | From no leases, with working writes and parseable clients: after any requests, crashes and restarts, a crash at any point of any request can be recovered from in every order, if and only if no address of a selectable pool's range lies in another pool's network. |
| Conditions.RestartAfterRunsIff | plugin/coredhcp/bootloop/main.go:159-206 | The same for runs without restarts in between, where only selectable pools matter. |
| Conditions.ClearRunRestarts | plugin/coredhcp/bootloop/main.go:159-206 | From no leases and with that condition, while writes succeed, a start after any run succeeds in every order if and only if every client that has a lease parses back. |
| Recovery.RestartAfterWorkingRun | plugin/coredhcp/bootloop/main.go:159-206 | From any state with disjoint networks, the lease invariant and an exact table: while writes succeed, a restart after any run succeeds in every order if and only if every client that has a lease parses back. |
| Recovery.CrashRecovery | plugin/coredhcp/bootloop/main.go:159-206 | From any state with disjoint networks, the lease invariant and an exact table: wherever in a request with a working write the process crashes, setup4 with the same pools succeeds in every order if and only if every hardware address in the table parses; it then holds exactly the table's leases and satisfies the invariant. |
| Recovery.CrashTableIsBeforeOrAfter | plugin/coredhcp/bootloop/main.go:461-505 | The table a crash leaves is the one before the request or the one after it, never a third. |
| Restart.RestartKeepsInv | plugin/coredhcp/bootloop/main.go:168-206 | A successful start with disjoint networks establishes the lease invariant. |
| Recovery.StartedTableIsExact | plugin/coredhcp/bootloop/storage.go:31-60 | After a start the table is exactly the records if and only if this plugin wrote every row and no client has two. |
| Recovery.FirstStartIsSound | plugin/coredhcp/bootloop/main.go:159-206 | A start on an empty table gives a state with the invariant, an exact table and no records. |
| Recovery.CleanStartIsStored | plugin/coredhcp/bootloop/main.go:159-206 | A start on a table that cannot fail, with ranges that fill what they share, gives a state to which the theorem on arbitrary runs applies. |
| Recovery.LifetimeIsSound | plugin/coredhcp/bootloop/main.go:110-211 | Over any sequence of requests, crashes and restarts with working storage and parseable clients, from a sound state such as a first start gives, every state satisfies the invariant with an exact table, and every restart succeeds. |
| Recovery.LifetimeWithFailures | plugin/coredhcp/bootloop/main.go:110-211 | Over any such sequence with failing writes and any clients, from a readable table with rows in range and ranges that fill what they share: each crash can be recovered from in every order if and only if what it leaves parses and has no in-pool address under two clients; and the lease invariant holds throughout if it does at first. |
| Recovery.CrashKeepsRecords | plugin/coredhcp/bootloop/main.go:159-206 | After a crash in a request with a working write, the restarted plugin has exactly the records from before the request or from after it. |
| Recovery.LeaseSurvives | plugin/coredhcp/bootloop/main.go:110-211 | Over any lifetime with working storage that sends a client no NAK, its lease survives every crash and restart, and every address sent to it is that of the lease. |
| Recovery.UnparseableClientBlocksUntilNak | plugin/coredhcp/bootloop/storage.go:46-49 | With working storage, a client that does not parse back makes every start fail from its first request until the NAK that answers its second; before and after, every start succeeds. |
| Recovery.SevenOctetsBlockRestart | plugin/coredhcp/bootloop/storage.go:46-49 | A client with seven octets and a one-address pool are such a case: no order of setup4 succeeds. |
| Recovery.StrandedRowBlocksRestart | plugin/coredhcp/bootloop/main.go:501-522 | With disjoint networks: after a failed delete, leasing the freed address to another client with a working write lets no order of setup4 succeed, while the running process stays correct. |
| Recovery.FailedDeleteBlocksRestart | plugin/coredhcp/bootloop/main.go:501-522 | Such a history exists for any two clients and any one-address pool; no order of setup4 succeeds after it. |
| Bootloop.PluginState.Handler4 | plugin/coredhcp/bootloop/main.go:417-529 | The handler takes exactly one allowed step of the lease machine, passes through exactly its states after each write, and sends its reply. |
| Bootloop.PluginState.Lease | plugin/coredhcp/bootloop/main.go:431-478 | The branch for a new client: pick a pool, allocate, store, record; refused when no pool qualifies or the pool is full. |
| Bootloop.PluginState.Revoke | plugin/coredhcp/bootloop/main.go:485-523 | The NAK branch: delete from the table, forget the record, free the address where a pool has it. |
| Bootloop.PluginState.Setup4 | plugin/coredhcp/bootloop/main.go:110-211 | Starts only on a valid configuration with buildable pools and a readable table; then it succeeds if and only if every loaded address fits the pool its order picked, and the pools hold exactly those addresses. With disjoint networks the result satisfies the lease invariant. |
| Bootloop.PluginState.BuildPools | plugin/coredhcp/bootloop/main.go:135-157 | Succeeds if and only if every configured pool can be built, and yields exactly those pools, empty. |
| Bootloop.PluginState.Reallocate | plugin/coredhcp/bootloop/main.go:168-206 | In every order of records and pools, overlapping or not: each address goes to a pool that contains it if there is one; it succeeds if and only if each is in that pool's range and no two in one pool are equal, and then exactly they are allocated. |
| Bootloop.PluginState.SaveIPAddress | plugin/coredhcp/bootloop/storage.go:75-91 | Inserts or replaces the row of (mac, ip); nothing changes when the statement fails. |
| Bootloop.PluginState.DeleteIPAddress | plugin/coredhcp/bootloop/storage.go:62-73 | Removes every row of the hardware address and no other; nothing changes when the statement fails. |
| Bootloop.LoadRecords | plugin/coredhcp/bootloop/storage.go:31-60 | Succeeds if and only if the table is readable and every row parses, in whatever spelling; the result has one of the rows of each hardware address, in any row order. |
| Bootloop.Validate | plugin/coredhcp/bootloop/main.go:363-415 | Says for each of the six errors exactly when it is reported, and that there is none if and only if there is a lease file and exactly one of the two pool modes, the legacy one complete and in order. |
| Bootloop.ConfiguredPoolsAre | plugin/coredhcp/bootloop/main.go:135-157 | The pools setup4 builds have the network and the ends configured for them, under the configured keys, and are empty; the legacy one has its two ends. |
| Bootloop.AcceptedConfigIsBuildable | plugin/coredhcp/bootloop/main.go:310-347 | Of a configuration parseConfig accepts, setup4 can build all pools if and only if no range is reversed. |
| Bootloop.RangeCountsAddresses | plugin/coredhcp/bootloop/main.go:339-340 | For every pool parseConfig accepts, the 32-bit range size is the number of addresses in the range if and only if the range is not reversed by more than one and is not the whole address space. |
| Bootloop.ReversedRangeIsCounted | plugin/coredhcp/bootloop/main.go:339-347 | A reversed range is accepted and given a size of more than four thousand million. |
| Bootloop.Serve | plugin/coredhcp/bootloop/main.go:417-529 | Serving any list of requests is a run of the lease machine, whichever writes fail, and keeps the lease invariant. |
| Bootloop.FirstStart | plugin/coredhcp/bootloop/main.go:110-211 | On an empty table the plugin starts on every valid, buildable configuration; with disjoint networks the state is one the lifetime theorems start from. |
| Bootloop.RestartAfterCrash | plugin/coredhcp/bootloop/main.go:110-211 | From a readable table with rows in range, and ranges that fill what they share: a new plugin started on what any run and crash left succeeds when every hardware address parses and no in-pool address stands under two clients; with disjoint networks it satisfies the lease invariant. When all writes worked it serves exactly the table's leases, and from a state with the invariant it succeeds if and only if every hardware address parses. |
| Pools.Bitmap.Allocate | plugin/coredhcp/bootloop/main.go:179-185 | The allocator contract: a free in-range hint is returned, otherwise some free address, an error only when full. |
| Pools.Bitmap.Free | plugin/coredhcp/bootloop/main.go:512-514 | Clears a set bit; an address out of range or not allocated is an error and changes nothing. |
| Pools.NewIPv4Allocator | internal/subnet/pool_test.go:62-67 | Refuses a reversed range and anything but IPv4; otherwise an empty bitmap over the range. |
| Pools.SubnetPoolManager.AddPool | internal/subnet/pool.go:34-60 | Adds an empty pool exactly when the network parses, both ends are IPv4 addresses inside it and in order; a refusal changes nothing. |
| Pools.SubnetPoolManager.GetAllocatorForGiaddr | internal/subnet/pool.go:63-82 | With a missing or all-zero giaddr, the only pool, and an error unless there is exactly one; with any other, a pool whose network contains it, and an error if and only if no network does. |
| Pools.SubnetPoolManager.FindPool | plugin/coredhcp/bootloop/main.go:510-517 | Finds a pool whose network contains the address if and only if there is one. |
| Pools.SelectionIsOrderIndependent | internal/subnet/pool.go:63-82 | With disjoint networks all map orders select the same pool. |
| Net.NestedOrDisjoint | internal/subnet/subnet.go:94-98 | Any two networks are nested or disjoint. |
| Net.Contains4Iff | internal/subnet/subnet.go:94-98 | An IPv4 network contains exactly the IPv4 addresses of the aligned block its base lies in, of two to the number of host bits. |
| Net.Contains6Iff | internal/subnet/subnet.go:94-98 | The same for IPv6 networks outside the IPv4-mapped block, which contain no IPv4 address. |
| Net.RangeInside | internal/subnet/pool.go:40-46 | When both ends of a range are in a network, the whole range is: AddPool's two endpoint checks are enough. |
| Subnets.SubnetContext.AddSubnetCIDROnly | internal/subnet/subnet.go:71-85 | Registers a parsed network under its text, keeps an entry already there, and changes nothing on a parse error. |
| Subnets.SubnetContext.FindSubnetForIP | internal/subnet/subnet.go:89-101 | Answers some registered network that contains the address, none only when there is none. |
| Subnets.SubnetContext.MatchInterfaceToSubnet | internal/subnet/subnet.go:106-120 | True without a relay; otherwise whether the address lies in the network found for giaddr, and false when none is found. |
| Subnets.FindSucceedsIffContained | internal/subnet/subnet.go:89-101 | The search succeeds in every map order if and only if some network contains the address. |
| Subnets.FindIsOrderIndependent | internal/subnet/subnet.go:94-98 | All addresses get one answer in all map orders if and only if the registered networks are pairwise disjoint. |
| Csv.SplitCSV | internal/parse/csv.go:17-71 | Fails if and only if a quote is left open, never with the trailing-escape error; otherwise cuts at every comma outside quotes and drops one empty last component. |
| Csv.JoinOfSplit | internal/parse/csv.go:17-71 | The components joined by commas are the input, except that a last comma outside quotes is lost, always and only then. |
| Csv.SplitPieces | internal/parse/csv.go:17-71 | No component has a comma outside quotes, and a balanced input has only balanced components. |
| Csv.SplitOfJoin | internal/parse/csv.go:17-71 | Splitting the join of balanced components without bare commas, the last not empty, gives those components back. |
| Csv.SplitUnique | internal/parse/csv.go:17-71 | A text is the join of at most one such list of components. |
| Csv.UnquotedTextSplits | internal/parse/csv.go:17-71 | Text without quotes is cut at every comma, backslashes or not, and an empty last component dropped. |
| Quote.Unquote | internal/parse/quote.go:14-56 | The escape loop computes the recursive meaning of the quoted body; text without matching outer quotes is only trimmed. |
| Quote.UnquoteOfEnquote | internal/parse/quote.go:14-56 | Any text, in single or in double quotes with its backslashes and that quote escaped, is read back exactly. |
| Quote.BareValueStays | internal/parse/quote.go:14-56 | Text that does not begin and end in the same quote comes out as it is, without the blanks around it. |
| Quote.EscapesMean | internal/parse/quote.go:24-52 | After a backslash n is a newline, t a tab and anything else itself; all other characters stand for themselves. |
| Quote.DecodeFailsIffPending | internal/parse/quote.go:24-52 | The unterminated-escape error occurs if and only if the body ends after an unpaired backslash. |
| Quote.ScannersStayInStep | internal/parse/csv.go:23-56 | Inside quotes, the splitter's and the decoder's idea of what is escaped agree after every character. |
| Quote.BalancedIsUnquotable | internal/parse/quote.go:14-56 | A value the splitter leaves balanced is never refused by Unquote. |
| RuleDict.KeyAllowed | internal/rule/rule.go:45-52 | The search finds exactly the allowed keys. |
| RuleDict.CreateRuleCompDict | internal/rule/rule.go:867-914 | Computes the dictionary of the text or the first error with its position: empty rule, open quote, missing colon, missing, unknown or repeated key. |
| RuleDict.BadQuoteUnreachable | internal/rule/rule.go:900-903 | No text at all is refused with the bad-quote error or with a trailing escape. |
| RuleDict.RuleTextRoundTrip | internal/rule/rule.go:867-914 | Any non-empty dictionary over the allowed keys, with any values, each in single or double quotes, and printed in any order, is read back exactly. |
| RuleDict.DictIs | internal/rule/rule.go:867-914 | A text is read if and only if it is not blank, leaves no quote open and each non-blank component has a colon and an allowed, new key; the dictionary has exactly those keys with the unquoted values; otherwise the error is that of the first component out of order. |
| RuleParser.NormalizeDomainAppend | internal/rule/rule.go:503-561 | Accepts exactly the five meaningful token lists, in any case and spacing, and returns the tokens in the order given. |
| DomainAppend.NormalizationKeepsNames | internal/rule/hostname.go:38-71 | Normalizing an accepted domain_append value changes no name: raw and normalized text add the same, namely the non-empty domains the tokens stand for, in their order. |
| RuleParser.ParseMask | internal/rule/rule.go:294-342 | At most one of netmask and cidr; a netmask must be IPv4, not 0.0.0.0 and contiguous; a width must be 1 to 32. |
| RuleParser.ParseRouters | internal/rule/rule.go:279-292 | Accepts the list if and only if every piece is an IPv4 address, and keeps their order; otherwise reports the first piece that is not. |
| RuleParser.ParseTypes | internal/rule/rule.go:398-410 | Collects exactly the trimmed, non-blank pieces. |
| RuleParser.ParseSubnets | internal/rule/rule.go:421-428 | Accepts the list if and only if every piece is a network, and keeps their order; otherwise reports the first piece that is not. |
| RuleParser.Finish | internal/rule/rule.go:430-455 | The first subnet lends its mask to an action without one; a rule without any action is refused; what is accepted is well-parsed. |
| RuleParser.BuildRule | internal/rule/rule.go:243-488 | Accepts a dictionary if and only if all its components are well-formed, some action is present and there is no id_set, and builds the rule they describe; otherwise returns the error of the first check that fails, with the offending text. |
| RuleParser.ParseRule | internal/rule/rule.go:243-488 | The same from text, a rule without a name getting one made from its printed form; every accepted rule is well-parsed, the hypothesis of the two lemmas on parsed rules. |
| RuleFields.AcceptedIff | internal/rule/rule.go:243-488 | A dictionary makes a rule if and only if its level, routers, mask, flags, mode, types and subnets are each well-formed as the source asks, the domain is not the word none, there is no id_set, and something in it is an action; said on the text of the components. |
| RuleFields.MaskField | internal/rule/rule.go:294-440 | In an accepted rule, whatever its subnets are: a stated width k gives the mask of k ones, a stated netmask the address it parses to, never both; with neither, the mask is the first subnet's if that has any ones, and else none. |
| RuleFields.AtoiReads | internal/rule/rule.go:331-334 | A width is read in decimal, with leading zeros and a sign allowed. |
| RuleFields.RouterField | internal/rule/rule.go:279-292 | The routers of an accepted rule are the addresses its pieces parse to, in order. |
| RuleFields.SubnetField | internal/rule/rule.go:421-428 | Its subnets are the networks the pieces parse to, in order. |
| RuleFields.TypeField | internal/rule/rule.go:398-410 | Its types are exactly the trimmed, non-blank pieces, at least one when the component is there. |
| RuleFields.FlagFields | internal/rule/rule.go:354-370 | continue and ignore are set if and only if their text is one of the words for yes, in any case and between blanks. |
| RuleFields.ModeField | internal/rule/rule.go:503-561 | The mode is the tokens of the component in the order given, one of the five lists; none when it is empty. |
| RuleFields.TextFields | internal/rule/rule.go:243-488 | hostname, domain, id and log are the components' texts, each under its own key. |
| RuleFields.NameField | internal/rule/rule.go:243-488 | The name is the component's text, or the generated one when that is blank. |
| Netmask.CidrMaskBits | internal/rule/netmask.go:14-19 | The mask of width k has exactly its first k bits set. |
| Netmask.CidrMaskIsValid | internal/rule/netmask.go:14-19 | Every mask of k ones followed by zeros passes the bit trick, and its ones number k. |
| Netmask.ValidIsCidrMask | internal/rule/netmask.go:14-19 | Whatever passes the bit trick is some number of ones followed by zeros. |
| Netmask.NetmasksAreWidths | internal/rule/rule.go:294-342 | The masks accepted through netmask and the widths 1 to 32 accepted through cidr correspond one to one. |
| Rules.MatchIface | internal/rule/rule.go:73-132 | The counting code matches if and only if every criterion that is present holds. |
| Rules.LookupHostname | internal/rule/hostname.go:15-72 | The name is the expanded pattern and a suffix that depends on rule and global domain only, in all domain_append modes. |
| Rules.DifferentNodesDifferentNames | internal/rule/hostname.go:15-72 | Nodes with different numbers named by one rule, whose pattern has a {Nd} and no {id}, get different final names. |
| Rules.NameBlankIff | internal/rule/hostname.go:15-72 | A name is blank if and only if nothing is appended and the pattern is blank once {id} is replaced. |
| Rules.NameNotBlank | internal/rule/hostname.go:15-72 | A non-blank pattern and component id never give a blank name. |
| Naming.ModeNames | internal/rule/hostname.go:15-72 | The exact name in every mode: the expanded pattern, then each non-empty domain the mode names after a dot, in the mode's order; without a mode the rule's domain before the global one; none, as mode or domain, adds nothing. |
| Naming.GlobalDomainIs | internal/rule/hostname.go:38-71 | A domain is the configured text without the blanks around it and the dots in front. |
| Naming.UnnamedGetDefault | internal/rule/rule.go:711-720 | When no reached rule names, the DHCPv4 name and the joined DHCPv6 labels are unknown-, the number padded to four, and the global domain after a dot when there is one. |
| Hostname.ExpandInjective | internal/hostname/hostname.go:23-28 | Two different numbers expand differently if and only if the text has a {Nd}; negative numbers and widths beyond what fmt pads included. |
| Hostname.SameIdDifferentNames | internal/hostname/hostname.go:21-30 | For a fixed id, a pattern with a {Nd} is injective in the number, even when the id's replacement interacts with braces. |
| Hostname.DifferentNidsDifferentNames | internal/hostname/hostname.go:21-30 | Without {id}, different numbers give different names whatever the ids are. |
| Hostname.PlaceholderPads | internal/hostname/hostname.go:21-30 | A pattern with one {0Nd} gives the text around it and a decimal that reads as the number, sign included, and is as long as the larger of N and the number's own length; beyond fmt's width limit, fmt's error text. |
| Hostname.IdExpands | internal/hostname/hostname.go:21-30 | A pattern with one {id} gives the text around it and the id. |
| Evaluate.Evaluate4 | internal/rule/rule.go:641-720 | Drops the request if and only if a reached rule ignores; otherwise hostname, routers and mask are each what the last firing rule that sets them sets, and the default name applies if and only if the hostname ends up blank. |
| Evaluate.Evaluate6 | internal/rule/rule.go:801-861 | The same verdict; the labels are those of the last firing rule that names, or of the default name when no rule and no earlier option does. |
| RuleWalk.WalkIsDeclared | internal/rule/rule.go:641-720 | Reading the rules one after another (skip what does not match, drop at an ignore, else set and continue or stop) gives the same verdict and options as the declarative meaning, for every list, client and response. |
| RuleWalk.CriteriaAlone | internal/rule/rule.go:73-132 | A rule matches if and only if its types, its subnets and its ids, each alone, do. |
| RuleWalk.EachCriterion | internal/rule/rule.go:73-132 | Alone, types ask for the component's type, subnets for its first address in one of them, an id for that id without blanks around it, and an id set only counts when there is no id. |
| Evaluate.LastSetterIsLast | internal/rule/rule.go:641-709 | The last setter fires and sets the field, and no later rule does. |
| Evaluate.EvaluatorsAgree | internal/rule/rule.go:711-720 | Starting without a name, the DHCPv6 labels joined by dots are the DHCPv4 name if and only if no rule names, or the last that does appends a domain, or its pattern with {id} replaced is not blank. |
| Evaluate.EvaluatorsAgreeOnNamedComponents | internal/rule/rule.go:849-861 | With a non-blank component id they always agree. |
| Evaluate.EvaluatorsDisagreeOnBlankId | internal/rule/rule.go:853-859 | They do differ: without a global domain, any rule without criteria or domain that names components by `{id}` alone leads to different names for every interface with an empty component id. |
| Evaluate.BlankIdNeedsGlobalDomain | internal/rule/rule.go:853-859 | For such a rule and an empty id the two agree if and only if there is a global domain. |
| Evaluate.ParsedRuleIsEffective | internal/rule/rule.go:442-455 | When a parsed rule is reached, the request is dropped or a rule from it on sets some option. |
| Evaluate.ImplicitMaskIsIdle | internal/rule/rule.go:683-700 | For a parsed rule, Evaluate4's own implicit mask changes nothing. |
| Iface.LookupMAC | internal/iface/iface.go:29-70 | The error of the first failing step, else every address of the interface, unparseable ones as nil. |
| Iface.LookupMACWithSubnet | internal/iface/iface.go:76-160 | Without a restricting relay, or when no network contains giaddr, all parseable addresses; otherwise those inside the network found, and an error when there are none. |
| Identity.LookupIs | internal/iface/iface.go:29-70 | Which of the four lookup errors there is and when; otherwise the identity is the hardware address asked for, the component id of the interface under it, that component's type, and its number for a Node, 0 for anything else. |
| Identity.ClientIsIdentified | internal/iface/iface.go:76-160 | That identity is the one found through any relay and any registered subnets. |
| Identity.ValidIsSubsequence | internal/iface/iface.go:110-117 | The addresses that parse are kept, all of them and in their order. |
| Identity.ParsedAllIs | internal/iface/iface.go:62-67 | LookupMAC keeps every address text in its place, nil where it does not parse. |
| Iface.InsideIsSubsequence | internal/iface/iface.go:133-142 | The filter keeps exactly the addresses inside the network, in their order. |
| Iface.BuildSubnetContext | plugin/coredhcp/coresmd/main.go:358-368 | The context exists if and only if some rule names a subnet, and registers what the printed form of each named network reads back as, and nothing else; the networks that do not read back are the errors. |
| Iface.Handler4 | plugin/coredhcp/coresmd/main.go:433-478 | Looks the interface up, assigns its first address as IPv4, then applies the rules; drops, answers, or fails with the lookup's error. |
| Identity.NodesGetDifferentHostnames | plugin/coredhcp/coresmd/main.go:433-478 | Two Nodes of the cache with different numbers, named last by the same rule with a {Nd} and no {id}, get different hostnames from Handler4, through any relays and whatever was set before. |
| Iface.RelayAwareAssignment | plugin/coredhcp/coresmd/main.go:448-473 | For an IPv4 giaddr inside a named network, the assigned address is inside a registered network containing giaddr, the candidates are exactly the interface's addresses there, and subnet criteria test the very address assigned. |
| Iface.IndexPanicIff | plugin/coredhcp/coresmd/main.go:462 | Handler4 indexes an empty address list if and only if the interface and its component are known, some network is registered, giaddr is nil, unspecified or in none of them, and none of the address texts parses. |
| Iface.PanicsWithoutAddress | plugin/coredhcp/coresmd/main.go:445-462 | One rule with a subnet, an interface whose only address text is empty and no relay make it do so. |
| ReverseName.ReverseInPlace | plugin/coredns/handler.go:308-310 | The swap loop reverses the array. |
| ReverseName.GroupNibbles | plugin/coredns/handler.go:323-329 | The loop joins the reversed nibbles in fours with colons between them and none at the end. |
| ReverseName.ReverseToIP | plugin/coredns/handler.go:295-334 | The code computes the reverse-name function, nil for any other name. |
| ReverseName.ReverseNameRoundTrip4 | plugin/coredns/handler.go:299-312 | The in-addr.arpa name (section 3.5 of RFC 1035) of every 32-bit address gives it back, with or without the trailing dot. |
| ReverseName.ReverseNameRoundTrip6 | plugin/coredns/handler.go:314-331 | The ip6.arpa name (section 2.5 of RFC 3596) of every 128-bit address gives it back, with or without the trailing dot. |
| Dotted.ReverseName4Iff | plugin/coredns/handler.go:299-312 | Conversely, a name under in-addr.arpa without a colon leads to an IPv4 address only if it is that address's reverse name, up to one final dot. |
| Dotted.DottedIff | plugin/coredns/handler.go:299-312 | A text without a colon parses as an address if and only if it is that address in dotted decimal. |
| Dotted.OtherNamesLeadNowhere | plugin/coredns/handler.go:333 | Names under neither suffix lead to nil. |
| Dns.Lookup | plugin/coredns/handler.go:159-208 | lookupA and lookupAAAA: the first zone with an answer decides, nodes before BMCs; nil only when no interface answers in any zone. |
| Dns.LookupPTR | plugin/coredns/handler.go:262-292 | Answers the xname of a component with that address in the first zone that serves it; empty only when there is none. |
| Resolving.NodeNumbersResolve | plugin/coredns/handler.go:159-259 | In every zone with a pattern, the expanded pattern of every Node that has an address of the family gets a non-nil answer, in every map order. |
| Resolving.NodeNumbersResolveToTheNode | plugin/coredns/handler.go:159-259 | With ids as keys, dot-free labels and no shared label, that answer is an address of that very Node. |
| Resolving.IdsResolve | plugin/coredns/handler.go:159-259 | So does the id of every Node and BMC with an address of the family, in every zone. |
| Resolving.AnswersAreNamed | plugin/coredns/handler.go:159-259 | Conversely, an answer is the first address of the family of an interface whose Node or BMC is named so by its id, or whose Node by its number and the zone's pattern; an empty name also finds a Node in a zone without a pattern. |
| Resolving.EarlierZonesAreSilent | plugin/coredns/handler.go:159-208 | The first zone that has an answer gives it, and within it Nodes come before BMCs. |
| Resolving.AddressesAreNamed | plugin/coredns/handler.go:262-292 | A PTR query for an address of a BMC, when there is a zone, or of a Node, when some zone has a pattern, is never left unanswered. |
| Resolving.NamesAreOfTheAddress | plugin/coredns/handler.go:262-292 | A PTR answer is the id of a component that has the address, in the first zone that serves it. |
| Dns.PtrNamesResolve | plugin/coredns/handler.go:211-292 | Every PTR answer has a non-nil forward answer of the same family, in every map order. |
| Dns.PtrNamesResolveServed | plugin/coredns/handler.go:33-127 | The name as the PTR reply carries it and a client sends it back resolves too, when no zone name is empty or ends in a dot. |
| Dns.ServedIffUndotted | plugin/coredns/handler.go:33-127 | With one zone, that round trip succeeds if and only if the zone name does not end in a dot. |
| Dns.ForwardConfirmsReverse | plugin/coredns/handler.go:159-292 | With ids as keys, dot-free labels and no shared label, the forward answer is an address of the very component the PTR answer named, which has the address asked about. |
| Dns.ReverseThenForward4 | plugin/coredns/handler.go:159-208 | The whole loop for an IPv4 address: its in-addr.arpa name, the PTR answer, a non-nil A answer. |
| Dns.ReverseThenForward6 | plugin/coredns/handler.go:211-259 | The same for any IPv6 address outside the IPv4-mapped block, its ip6.arpa name and the AAAA query. |

## Left out

- Pools.Bitmap.Allocate: the allocator is a library outside the repository; the class carries the contract the plugin relies on, with a set of allocated addresses for its bits.
- Bootloop.PluginState.Handler4: giaddr is the four-byte field of a DHCPv4 packet, so it is never an IPv6 address; the choice of bootloader by client architecture, root path and lease time options are not modelled.
- Bootloop.PluginState.Setup4: the legacy single pool is the one pool of the network 0.0.0.0/0, which gives it the same branches.
- Bootloop.LoadRecords: the expiry column is left out, because nothing reads it back; text in the mac and ip columns that this plugin did not write comes with what the net library reads in it; SQLite's column affinity is not modelled.
- Bootloop.Validate: lease_time and script_path defaults, and warnings.
- Iface.RelayAwareAssignment: printing and parsing networks are parameters; the lemma asks of the named network that its printed form reads back as one with the same addresses, which the net library gives.
- RuleParser.ParseRule: `net.ParseCIDR` and the name made from the SHA-256 digest of the printed rule are parameters; the wording of error messages is not modelled; id_set is refused whenever it is not empty, as its compiler is not implemented.
- Rules.MatchIface: an id set is a finite set, and nil entries in the subnet list do not occur.
- Evaluate.Evaluate6: the text of an FQDN option is never blank, so its default applies exactly when the option is absent; the packet library is not modelled.
- Evaluate.ParsedRuleIsEffective: speaks of the options of the model's response, hostname, routers and mask.
- Dns.Lookup: lookupA and lookupAAAA differ in the address family only and are one method with the family as parameter.
- Quote.Unquote: works on characters where the code works on bytes; they agree on valid UTF-8, and invalid UTF-8 is not modelled.
- Net.NestedOrDisjoint: a network is an address and a number of leading ones; containment is equality of what is left after dropping the host bits, not a mask per byte. A network inside the IPv4-mapped block contains IPv4 addresses, as in the net library.
- Lower-casing covers the letters A to Z; no keyword it is compared with has another lower-case source.
- parseConfig's key and comment parsing, and GetAllocatorForSubnet, which setup4 only calls with a key it just read.
- AddSubnet, GetRouterForSubnet and GetSubnetForGiaddr: easy members that no modelled caller uses.
- ServeDNS and the DHCPv6 handler: they dispatch to the lookups and to Evaluate6. Of ServeDNS only the final dots of names are modelled, for names without a backslash.
- Locking: each handler runs under one lock, so a request is one step with crashes inside it.
- Logging, String methods, metrics, readiness, TFTP, HTTP, TLS, JSON and SQLite itself.
