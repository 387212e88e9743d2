# Syslens, modelled and proved

Syslens is a monitoring system in three tiers. Agents collect machine statistics and report
them; an aggregator caches the last report of each node and forwards its cache on a ticker; a
control plane keeps a bounded log per node, a node table with tokens, and indexes of groups
and services. This project models the parts that carry state, concurrency or arithmetic, and
proves what they are for.

- **Delivery** (`Telemetry`, `MemoryStore`, `Delivery`, `Reporter`, `Processor`). One step
  system for agents, cache, ticker and log, in which attempts of agents and forwards of the
  ticker may also take effect after their sender has given up on them. Every entry stored is
  the report of its number changed at the three stamp keys only, and every node's history is in
  report order and in time order exactly if each late step met a guard on the state. The
  agent's retry loop is proved to be part of a run of that system. The ticker's copies are
  modelled on the heap, where isolation is a statement about references.
- **Collection** (`Addresses`, `Collector`, `ParallelCollection`, `Rates`). The sequential
  collector is loops over readings, proved equal to a specification. The parallel one is a
  step system of its goroutines with one worker per mount point. Every schedule ends, all of
  them in the same result, and that result is the sequential one under a condition that is
  proved exact. The speeds that either reports are summed over whole runs.
- **Connections** (`Registry`). Register, heartbeat, metrics and cleanup against a clock, with
  the heartbeat's two critical sections apart.
- **Schema** (`Migration`). Any number of runners, each failing or stopping at any statement,
  for every list of schemas whose references point backwards.
- **Codec and tokens** (`Base64`, `Codec`, `Tokens`, `NodeRepository`). The round trip to two
  differently guarded receivers with its exact condition, and the pair of token columns over
  all interleavings of requests, down to which registration a row's token goes back to.
- **Configuration text** (`Placeholders`) and **indexes** (`ControlPlane`).

Foreign code enters as a reading (gopsutil), a function value under a contract (AES-GCM, gzip,
bcrypt) or a fault that may strike any statement (Postgres). Each contract has a lemma showing
that something satisfies it (`Codec.ToyIsLawful`, `Tokens.ToyEnvIsLawful`).

Assumptions, besides those in the contracts:

- No clock goes back. `Delivery` and `Registry` state this as time passing in steps. Aggregator
  and control plane each have their own clock, and nothing relates the two.
- Order in `Delivery` is claimed for runs whose late steps are harmless: an agent's attempt or
  a forward of the ticker may take effect after its sender has given up on it (an agent after a
  lost reply, the ticker after its timeout of five seconds), if nothing newer of the node is
  already stored or on its way, and for a late store nothing older. Attempts that take effect
  in time need no assumption. `Delivery.InOrderIff` proves this condition exact over all runs.
- One agent process reports under one node identifier. The agent's fallback to the host name
  happens before the model starts.
- JSON encoding and decoding are faithful, and payloads are objects.
- An encryption service exists exactly when encryption is switched on, as the constructors
  have it.

Where the code and its comments or documentation differ, the model follows the code: the
aggregator decompresses although its switch is off; the control plane's own re-registration
of an assigned node forgets the assignment but leaves the list entry
(`ControlPlane.RegisteredConsistentIff` says when that matters); an empty list of counters
makes the parallel collector keep its old baseline where the sequential one replaces it
(`ParallelCollection.BaselinesAgreeIff`), and empty address lists are nil in one and empty in
the other (`ParallelCollection.StatsEqualIff`).

No handler calls the node table's `Delete` (internal/server/repository/node_repository.go:416-434).
As long as nobody else deletes rows, `Tokens.NoDeleteOf` holds of every run and
`Tokens.IssuedTokenKeepsWorking` applies without a proviso; the statements about deletion are
for operators and code to come.

## Model

| member | source | states |
|---|---|---|
| MemoryStore.RangeQueryExact | internal/server/storage/memory.go:35-78 | A range query on the bounded list equals the one on everything ever stored if and only if no evicted entry lies in the range. |
| MemoryStore.RangeQueryAfterEviction | internal/server/storage/memory.go:62-78 | With a clock that does not go back, a query is exact when it starts after the newest evicted timestamp, and only then if it reaches to it. |
| MemoryStore.RangeQueryPicksOut | internal/server/storage/memory.go:62-78 | Places of the log, increasing and exactly those with both ends of the range met, whose payloads the query returns one by one. |
| MemoryStore.LatestExact | internal/server/storage/memory.go:93-103 | Eviction never changes the latest payload. |
| MemoryStore.TrimAfterAppend | internal/server/storage/memory.go:45-56 | Append-then-trim on the kept list keeps it the newest entries of the whole history. |
| MemoryStore.AppendBounded | internal/server/storage/memory.go:45-56 | Appending and reslicing keeps the newest entries within the bound. |
| MemoryStore.MemoryStorage.constructor | internal/server/storage/memory.go:23-32 | A bound that is not positive becomes 1000, and nothing is stored yet. |
| MemoryStore.MemoryStorage.StoreMetrics | internal/server/storage/memory.go:35-59 | Exactly one node's history grows, by the entry stored, which becomes the last of its list; no other list changes, and every list stays the tail of its history and within the bound. |
| MemoryStore.MemoryStorage.GetNodeMetrics | internal/server/storage/memory.go:62-78 | Returns the payloads at increasing places of the kept list, exactly those with start <= timestamp <= end, and nothing for an unknown node; and says exactly when that is the answer of the full history. |
| MemoryStore.MemoryStorage.GetLatestMetrics | internal/server/storage/memory.go:93-103 | Returns the newest payload ever stored for the node, or an error when there is none. |
| MemoryStore.MemoryStorage.GetAllNodes | internal/server/storage/memory.go:81-90 | Every node ever stored, each once, in no promised order. |
| Telemetry.StampStages | internal/aggregator/server.go:425-429 | The three stamps, set one after the other, turn a report into one changed at those keys only; the two of the aggregator are in time order. |
| Telemetry.UnixMeaning | internal/aggregator/server.go:425-426 | A stamp is the number of whole seconds: the clock lies in the second it names. |
| Telemetry.StampedMeaning | internal/server/api/gin_handlers.go:501-503 | A stamp sets its own key, present before or not, and no other. |
| Delivery.ChainStep | internal/aggregator/processor.go:82-141 | Every step, late ones if harmless, keeps stored <= in-flight snapshot <= cached for every node. |
| Delivery.TracedStep | internal/aggregator/processor.go:82-141 | Every step at all keeps cached < number of reports, and nothing of a node is stored or on its way without some report of it being cached. |
| Delivery.OrderStep | internal/server/storage/memory.go:35-59 | Storing, also of a forward given up on if harmless, keeps a node's history in report order and in clock order. |
| Delivery.FaithfulStep | internal/server/api/gin_handlers.go:501-526 | Every step keeps cached, forwarded and stored payloads the reports of their numbers, changed only at the stamps due so far. |
| Delivery.BoundedStep | internal/server/storage/memory.go:35-59 | Every step keeps the kept log the tail of the full one. |
| Delivery.StepMeaning | internal/aggregator/processor.go:82-141 | Which report a landing caches, which copy a forward sends and which message a store appends, each with one named key set to the whole seconds of its clock and everything else as it was; a snapshot is the cache; all other steps do none of this. |
| Delivery.HistoryOrderedAndFaithful | internal/aggregator/processor.go:82-141 | In every state reached with harmless late steps, whatever was retried, lost or failed, stored histories are in report and time order and each entry is its report plus stamps. |
| Delivery.KeptLogAnswers | internal/server/storage/memory.go:62-103 | In every reachable state the kept log answers latest queries, and range queries after the newest evicted time, as the full history would. |
| Delivery.LastReportStaysLatest | internal/server/storage/memory.go:93-103 | Once the last report of a node has been stored, the latest kept entry is that report plus stamps, whatever harmless late steps there were. |
| Delivery.BrokenChainBreaks | internal/aggregator/processor.go:112-146 | Wherever the chain does not hold, the ticker alone brings the node's history out of order. |
| Delivery.HarmlessIff | internal/agent/reporter/reporter.go:138-213 | For every next step, late or not: it is harmless if and only if afterwards the ticker alone cannot bring any history out of order. |
| Delivery.HarmfulLandingOccurs | internal/agent/reporter/reporter.go:138-213 | Under every configuration a state that no late step led to lets an attempt given up land harmfully. |
| Delivery.HarmfulStoreOccurs | internal/aggregator/processor.go:144-258 | Likewise for a forward given up that is stored harmfully. |
| Delivery.InOrderIff | internal/aggregator/processor.go:112-258 | For every run from the start: all its late steps were harmless if and only if at no point of it could the ticker alone bring a history out of order. |
| Delivery.QuietStep | internal/aggregator/processor.go:112-141 | With no new report of a node, no step changes its cached report, nor the freshness of a tick begun after it, nor of the latest entry. |
| Delivery.EventualFreshness | internal/server/api/gin_handlers.go:501-526 | Once a tick that snapshots after a node's last report has stored it, the latest entry is that report plus stamps, and stays so under all further ticks. |
| Reporter.HTTPReporter.constructor | internal/agent/reporter/reporter.go:37-80 | A negative retry count leaves the default of three. |
| Reporter.HTTPReporter.Report | internal/agent/reporter/reporter.go:126-220 | Whatever the network does and however other components move and attempts given up land in between, the attempts are steps of a run of the protocol; the call stops at the first acknowledged attempt and fails only after all. It has the report cached if and only if an attempt landed, or some report of the node if attempts given up land meanwhile. Data that cannot be marshalled, compressed or encrypted is not sent. |
| Processor.DataProcessor.ProcessMetrics | internal/aggregator/processor.go:82-92 | The last report per node wins, no other node's entry changes. |
| Processor.DataProcessor.ReceiveMetrics | internal/aggregator/server.go:425-429 | The decoded payload is stamped in place and the stamped map itself is cached. |
| Processor.DataProcessor.ProcessMetricsData | internal/aggregator/processor.go:112-141 | One forward attempt per node cached at the snapshot; each body is that cached map plus the processing stamp; no map that existed before changes, whatever is written meanwhile. |
| Processor.DataProcessor.Snapshot | internal/aggregator/processor.go:113-124 | Copies of all cached maps, all of them new and no two the same. |
| Processor.DataProcessor.ForwardAll | internal/aggregator/processor.go:126-140 | Every map of the snapshot is sent once, in some order, while other goroutines write the cache. |
| Processor.DataProcessor.GetNodeMetrics | internal/aggregator/processor.go:261-271 | The cached map itself, or an error for an unknown node. |
| Processor.DataProcessor.GetAllNodesMetrics | internal/aggregator/processor.go:274-285 | A new outer map over the cached maps. |
| Processor.OverwrittenTwice | internal/aggregator/processor.go:82-92 | Two bursts of cache writes act as their concatenation. |
| Addresses.MaskCompareIsInterval | internal/agent/collector/system.go:376-385 | For every prefix length, masking and comparing byte by byte is membership in an interval of 2^(32-n) numbers. |
| Addresses.PrivateIPv4Exactly | internal/agent/collector/system.go:361-388 | A non-loopback IPv4 address is private exactly on the ranges of section 3 of RFC 1918 and on 169.254/16. |
| Addresses.PrivateOctets | internal/agent/collector/system.go:361-388 | Private, loopback and "has an IPv4 form", each down to the octets of an address of any length. |
| Addresses.SixteenByteRanges | internal/agent/collector/system.go:371-374 | The bit tests for IPv6 hold exactly on fc00::/7, fe80::/10 and multicast of link-local scope. |
| Addresses.Contains | internal/agent/collector/system.go:382-384 | The byte loop over mask and network number answers interval membership. |
| Addresses.IsPrivateIP | internal/agent/collector/system.go:361-388 | The loop over the blocks and the bit tests say yes exactly on the ranges, given octet by octet, for addresses of four octets, of four wrapped in sixteen, and of sixteen. |
| Addresses.Partition | internal/agent/collector/system.go:286-323 | Every address that is an IP network and not loopback is at one place of one of the four lists, in order; nothing else is listed. |
| Addresses.PositionsMeaning | internal/agent/collector/system.go:289-322 | The places of a kind are increasing and are exactly the addresses of that kind. |
| Addresses.FourLists | internal/agent/collector/system.go:303-320 | Each of the four lists holds, in order, the addresses at exactly the places that hold an IP network, not loopback, with an IPv4 form for the first two lists and without for the others, private for the private lists and not for the public ones. |
| Addresses.AllOfConcat | internal/agent/collector/system.go:286-291 | The addresses of all interfaces are those of each one that can be read, one after the other. |
| Addresses.SortAddresses | internal/agent/collector/system.go:286-323 | The nested loops over interfaces and addresses fill four lists, which hold exactly the public and private addresses with and without an IPv4 form, in order; an interface that fails is skipped. |
| Collector.SumAlongAnyOrder | internal/agent/collector/parallel.go:101-107 | Ranging over the disks in any order gives the same 64-bit total, the sum modulo 2^64. |
| Collector.ByNameMeaning | internal/agent/collector/system.go:279-282 | The baseline holds, per name, the last counter read. |
| Collector.EntriesMeaning | internal/agent/collector/system.go:233-256 | Exactly the wanted interfaces are listed, each with its last counter and the speeds since the baseline. |
| Collector.EntryMeaning | internal/agent/collector/system.go:233-256 | An entry has the counter's own values; each speed is the bytes per second since the baseline rounded down, upload from sent and download from received, and zero without a baseline, for a new interface, or when no time has passed. |
| Collector.ContainsString | internal/agent/collector/system.go:391-398 | True exactly for members. |
| Collector.CollectDisks | internal/agent/collector/system.go:203-220 | The readable mount points, each once, and their total in 64 bits whatever the map's order. |
| Collector.TotalDiskSpace | internal/agent/collector/parallel.go:101-107 | The sum of all capacities modulo 2^64. |
| Collector.TotalsAreSums | internal/agent/collector/system.go:252-253 | There are increasing places, exactly those of the wanted counters, whose sent and received values the two totals sum. |
| Collector.CollectCounters | internal/agent/collector/system.go:224-273 | Entries and both 64-bit totals of the wanted interfaces, with speeds where the baseline has the name. |
| Collector.CountSockets | internal/agent/collector/system.go:326-340 | The numbers of stream and of datagram sockets. |
| Collector.CountIsNumber | internal/agent/collector/system.go:326-340 | A socket count is the number of places of that kind. |
| Collector.SystemCollector.constructor | internal/agent/collector/system.go:112-138 | Defaults to the root directory and to all interfaces, with no baseline. |
| Collector.StatsMeaning | internal/agent/collector/system.go:141-343 | What a report holds, field by field: each machine value is the reading's or zero, disks and their total, entries and totals of the wanted interfaces, the four address lists, both socket counts. |
| Collector.BaselineMeaning | internal/agent/collector/system.go:278-283 | After counters were read the baseline has exactly their names, each with its last counter, and the time of the reading; otherwise it is the old one. |
| Collector.SystemCollector.Collect | internal/agent/collector/system.go:141-343 | The report of these readings, field by field, and the baseline carried over; a failing reading leaves its part at zero. |
| ParallelCollection.StepKeepsInv | internal/agent/collector/parallel.go:35-98 | Every step of every goroutine keeps every part of the shared record what its owner has computed so far. |
| ParallelCollection.EveryScheduleSameResult | internal/agent/collector/parallel.go:35-98 | Whatever the schedule and the order in which disk workers finish, a finished collection has one result, one baseline and one list of mount points. |
| ParallelCollection.ParallelMeaning | internal/agent/collector/parallel.go:35-98 | That result is a report of the readings, field by field, for the mount points or else the root; the baseline is carried over as in the sequential collector unless the list of counters is empty. |
| ParallelCollection.EveryScheduleEnds | internal/agent/collector/parallel.go:51-95 | No schedule is longer than a bound given by the mount points and counters, and none gets stuck before the end. |
| ParallelCollection.WorkerKeeps | internal/agent/collector/parallel.go:162-187 | Any number of disk workers, each reading without and writing with the lock, keep the disk map a correct partial result. |
| ParallelCollection.CounterTaskKeeps | internal/agent/collector/parallel.go:201-282 | The counter goroutine's locked writes keep interfaces, totals and baseline those of the counters gone through. |
| ParallelCollection.StatsAgreeIff | internal/agent/collector/parallel.go:151-193 | Both collectors report the same, up to nil lists, unless no mount point is configured and the root can be read. |
| ParallelCollection.StatsEqualIff | internal/agent/collector/parallel.go:289-334 | They report exactly the same if and only if, besides, the interfaces failed or no address list is empty. |
| ParallelCollection.BaselinesAgreeIff | internal/agent/collector/parallel.go:211-214 | They carry over the same baseline except when the list of counters is empty and would have replaced another one. |
| ParallelCollection.RunsAgree | internal/agent/collector/parallel.go:35-98 | Over any sequence of collections and any schedules, with mount points given and no empty list of counters, reports (up to nil lists) and the final baseline are the sequential ones. |
| ParallelCollection.CollectionAgreesIff | internal/agent/collector/parallel.go:151-159 | One collection agrees in report and baseline if and only if it falls under neither exception, mount points filled in earlier or not. |
| ParallelCollection.RunsAgreeIff | internal/agent/collector/parallel.go:35-98 | Over any run and under any schedules: reports (up to nil lists) and baselines agree at every collection if and only if every collection meets the conditions of agreement from the sequential baseline. |
| ParallelCollection.ParallelCollector.constructor | internal/agent/collector/parallel.go:27-32 | Starts as the sequential collector does. |
| ParallelCollection.ParallelCollector.Collect | internal/agent/collector/parallel.go:35-98 | Under a scheduler that picks any enabled step, terminates with the one determined result, which is a report of the readings field by field; an empty list of mount points becomes the root for good. |
| Rates.MovedBounds | internal/agent/collector/system.go:241-244 | One interval's speed times its length is at most the bytes it saw, modulo 2^64, and short of them by less than one byte per second. |
| Rates.RateConservation | internal/agent/collector/system.go:228-283 | Over a run, failed readings and counters that wrap around included, the sum of speed times interval never exceeds the bytes that went through and falls short by less than the elapsed time. |
| Rates.ThroughIsIncrease | internal/agent/collector/system.go:242-243 | Those bytes are the increase of the counter modulo 2^64, and exactly the increase if it never falls. |
| Rates.SequentialConservation | internal/agent/collector/system.go:228-283 | The same for the reports of a run of the sequential collector. |
| Rates.ParallelConservation | internal/agent/collector/parallel.go:220-280 | The same for the reports of a run of the parallel collector under any schedules, an empty list of counters being a failed reading. |
| Registry.Connections.RegisterOrUpdateNode | internal/aggregator/server.go:551-580 | A known entry is refreshed through its pointer, keeps its connection time and its mark, or gains the mark; an unknown node gets an entry, verified or not, whose times are both now; no other entry changes. |
| Registry.RegisteredMeaning | internal/aggregator/server.go:551-580 | Registration leaves exactly one more key, or none if the node was known; the entry's every field, for a known and an unknown node. |
| Registry.Connections.UpdateNodeActivity | internal/aggregator/server.go:584-594 | Says whether the entry is known; a known one becomes active now and keeps the rest; no other changes. |
| Registry.Connections.CleanupConnections | internal/aggregator/server.go:364-377 | In any order of the map, exactly the entries idle for at most the timeout stay, unchanged. |
| Registry.EntryStep | internal/aggregator/server.go:489-594 | For each critical section and each node: exactly when the entry is there afterwards (unknown nodes: only after a registration of theirs, validated or by heartbeat), and every field it then has. |
| Registry.WaitingStep | internal/aggregator/server.go:511-523 | A heartbeat of an unknown node waits and touches no entry; exactly its own registration ends one wait. |
| Registry.VerifiedIff | internal/aggregator/server.go:489-523 | At every point of every run an entry is verified if and only if a validated registration was applied since it was last created. |
| Registry.TimesOrdered | internal/aggregator/server.go:551-594 | Every entry has its connection time no later than its last activity, and that no later than now. |
| Registry.SurvivesIff | internal/aggregator/server.go:364-377 | An entry survives if and only if no cleanup finds its node silent beyond the timeout, and then keeps connection time and mark. |
| Migration.NextKeepsPrefixes | internal/server/storage/migration.go:187-210 | Any statement of any runner, with any fault, keeps created tables and recorded migrations prefixes and never shorter. |
| Migration.ReferencesPresent | internal/server/storage/migration.go:152-161 | With earlier tables created, the references of the next schema are there and it succeeds. |
| Migration.MigrationSafety | internal/server/storage/migration.go:164-214 | For any number of concurrent, failing or stopping runners: recorded <= created <= recorded + 1, every CREATE finds its references, a nil return means all is created and recorded. |
| Migration.LaterRunExecutesNothing | internal/server/storage/migration.go:348-372 | Once all is recorded, a runner that starts later executes no schema. |
| Migration.NilReturnIsFinal | internal/server/storage/migration.go:164-214 | Once any runner has returned nil, no runner starting afterwards executes a schema. |
| Migration.SomebodySucceeds | internal/server/storage/migration.go:187-210 | Any number of runners racing without faults on a database with prefixes: once all that started have ended, at least one has returned nil. |
| Migration.ReachedInv | internal/server/storage/migration.go:164-214 | After any statements of any runners the recorded and created prefixes are no shorter, and what was recorded still is. |
| Migration.Database.MigrateDatabase | internal/server/storage/migration.go:164-214 | With other runners' statements before each of its own, the loop is a run of the step system: a nil return means all is created and recorded; what was recorded at the start is never executed. Alone, it executes exactly the unrecorded migrations, in order, and an error means that a fault struck. |
| Migration.Database.CreateMigrationTable | internal/server/storage/migration.go:313-345 | Asks for the migration table and creates it; alone, it exists after success and nothing else changed. |
| Migration.Database.IsMigrationApplied | internal/server/storage/migration.go:348-372 | A migration recorded when the runner started is always found applied; alone, exactly the recorded ones are. |
| Migration.SyslensWellOrdered | internal/server/storage/migration.go:152-161 | The repository's own eight schemas have different names and refer backwards. |
| Migration.SyslensTables | internal/server/storage/migration.go:152-161 | The tables the schemas create are exactly the required ones. |
| Migration.CheckTablesExist | internal/server/storage/migration.go:217-238 | Passes exactly when every query is answered and every required table exists; otherwise names the first failing query or missing table. |
| Migration.MigratedTablesExist | internal/server/storage/migration.go:217-238 | After a complete migration the table check passes. |
| Base64.RoundTrip | internal/common/utils/security.go:65-88 | Decoding inverts encoding on every octet string. |
| Base64.CanonicalText | internal/common/utils/security.go:81-88 | A text is an encoding exactly if it has no line breaks, decodes, and leaves its unused bits zero. |
| Base64.LineBreaksIgnored | internal/common/utils/security.go:81-88 | A line feed or carriage return anywhere in a text does not change what it decodes to. |
| Base64.TrailingBitsIgnored | internal/common/utils/security.go:81-88 | The unused bits of a padded quantum may be anything. |
| Base64.GroupValue | internal/common/utils/security.go:65-69 | The grouping of section 4 of RFC 4648: three octets and their four symbols spell the same 24-bit number. |
| Base64.TailValue | internal/common/utils/security.go:65-69 | One or two octets left over are shifted left into two or three symbols, and pads fill the quantum. |
| Base64.Alphabet | internal/common/utils/security.go:65-69 | Every symbol is written as the character table 1 of RFC 4648 gives it, and a pad as an equals sign. |
| Base64.EncodedLength | internal/common/utils/security.go:65-69 | Four symbols for every three octets or part of them. |
| Codec.EncryptionService.NormalizeKey | internal/common/utils/security.go:35-43 | The buffer built in place has 32 octets: the key with zeros behind it if it is no longer than that, and else its first 32. |
| Codec.KeysAgreeIff | internal/common/utils/security.go:35-43 | Two keys agree if and only if both are empty, or neither is and they have the same octet at each of 32 places, a missing one counting as zero. |
| Codec.EncryptionService.Encrypt | internal/common/utils/security.go:30-70 | Without a key the data itself; otherwise a text that decodes to the nonce followed by the data sealed under the key's first 32 octets, zeros filled in behind. |
| Codec.EncryptionService.Decrypt | internal/common/utils/security.go:73-118 | Without a key the text itself; otherwise fails when it does not decode, is shorter than a nonce, or the seal does not open under the same cipher key. |
| Codec.AgentProcessData | internal/agent/reporter/reporter.go:223-247 | Compressed if switched on, then encrypted if switched on, which the headers say; the message the round-trip lemmas speak of. |
| Codec.AggregatorProcessData | internal/aggregator/server.go:436-469 | Likewise for the aggregator: refuses an encrypted message when its encryption is off, else opens and always decompresses, with its three errors. |
| Codec.ControlPlaneProcessData | internal/server/api/handler.go:72-93 | Likewise for the control plane, which skips each stage that the header or its own switch turns off. |
| Codec.DecryptInverts | internal/common/utils/security.go:30-118 | Decryption inverts encryption for every nonce and payload when the keys agree after padding or cutting. |
| Codec.AggregatorInvertsIff | internal/aggregator/server.go:436-469 | The aggregator brings back every payload if and only if encryption is off at the agent, or on at both with agreeing keys; compression does not matter. Otherwise some JSON object is not brought back. |
| Codec.ControlPlaneInvertsIff | internal/server/api/handler.go:72-93 | The control plane does if and only if, moreover, it decompresses when the agent compresses; an agent with encryption on but no key also tolerates a receiver with encryption off. Otherwise some JSON object is not brought back. |
| Tokens.NewNodePaired | internal/server/api/gin_handlers.go:185-234 | A new row's hash and encrypted copy come from the token handed out. |
| Tokens.WriteMeaning | internal/server/api/gin_handlers.go:176-314 | Every column of the row a registration creates or refreshes, the identifier and token it answers, and exactly when it fails: the identifier is taken, the hash refuses the token, or the row to refresh is gone. |
| Tokens.SystemKeyMeaning | internal/server/api/gin_handlers.go:200-205 | Tokens are encrypted under the configured key or, without one, the built-in text. |
| Tokens.OtherStatementsKeepColumns | internal/server/repository/node_repository.go:366-548 | Status, activity and configuration updates and deletions leave both token columns of every remaining row alone. |
| Tokens.StatementMeaning | internal/server/repository/node_repository.go:299-434 | Which column each statement on the node table writes, that all else stays, and that it fails exactly on a taken or missing identifier. |
| Tokens.WriteOutcomes | internal/server/api/gin_handlers.go:252-314 | A registration's write creates a row, refreshes one with the columns it read, or changes nothing. |
| Tokens.RecoversItsToken | internal/server/api/gin_handlers.go:382-400 | From a paired row exactly its token is recovered. |
| Tokens.TaggedStep | internal/server/api/gin_handlers.go:163-314 | Every step keeps each row, and each row a running registration has read, paired with the token of the creation it goes back to. |
| Tokens.WorksIff | internal/server/repository/node_repository.go:437-456 | The token last issued for a node is recovered and accepted if and only if its row goes back to the last creation, or to one that issued the same token. |
| Tokens.StepWorksIff | internal/server/api/gin_handlers.go:252-314 | For every step: a new row works; a row that stays works on if and only if it did, except that after a refresh it works if and only if the creation the refresh had read issued the current token. |
| Tokens.StaleReadIsEarlier | internal/server/api/gin_handlers.go:163-173 | A refresh holding an outdated token has read an earlier creation than the last. |
| Tokens.RecoveredTokenAccepted | internal/server/repository/node_repository.go:437-456 | In every reachable table, with reads and writes of registrations interleaved freely, the recovered token of a row is accepted by its hash. |
| Tokens.IssuedTokenKeepsWorking | internal/server/api/gin_handlers.go:266-271 | While the node's own row is not deleted, the token its registration answered with stays the valid and recovered one, whatever happens to this and other rows. |
| Tokens.StaleRefreshRevivesToken | internal/server/api/gin_handlers.go:275-314 | From every state with a row: a deletion and a new registration between a refresh's read and its write bring the old token back. No handler of the repository deletes rows, so this takes an operator or another program. |
| NodeRepository.FirstAcceptingMeaning | internal/server/repository/node_repository.go:551-569 | Nil exactly when no row accepts the token; otherwise a row that accepts while none listed before it does. |
| NodeRepository.RecoveredTokenIsFound | internal/server/repository/node_repository.go:551-569 | In every reachable table a recovered token finds a node, its own if and only if no earlier row of the listing accepts it too. |
| NodeRepository.ListByName | internal/server/repository/node_repository.go:216-233 | A listing has every row once, in the order of names. |
| NodeRepository.NodeRepository.ValidateNodeToken | internal/server/repository/node_repository.go:437-456 | Fails exactly when the query does; otherwise true exactly if the row exists and its hash accepts the token. |
| NodeRepository.NodeRepository.FindByToken | internal/server/repository/node_repository.go:551-569 | The loop returns the first accepting row in the order of names, nil when none accepts, and an error when the listing fails. |
| NodeRepository.HandleRegisterNode | internal/server/api/gin_handlers.go:122-326 | With arbitrary statements of other requests between its read and its write, the handler is the two protocol steps around them; every column of the row that an accepted registration leaves; the answers to a missing repository, an unreadable request, a failing lookup and a write that is refused or loses its reply, and what each leaves in the table. |
| NodeRepository.HandleGetNodeToken | internal/server/api/gin_handlers.go:340-421 | The token endpoint's answer for every row and every failure, of the repository, the lookup, the text and the seal; a token is what the decoded column opens to under the system key. |
| Placeholders.SegmentationUnique | cmd/agent/main.go:313-314 | A text has one leftmost non-overlapping segmentation into placeholders. |
| Placeholders.MatchAt | cmd/agent/main.go:313-314 | Finds the end of the placeholder starting here, or there is none. |
| Placeholders.FirstSeparator | cmd/agent/main.go:318-320 | The first ":-" of a body, or there is none. |
| Placeholders.Expand | cmd/agent/main.go:313-335 | The scan returns the segmentation, and a text whose gaps are copied and whose placeholders are replaced, which is also the expansion read from the left. |
| Placeholders.DefaultedPlaceholder | cmd/agent/main.go:316-331 | "${n:-d}" followed by r expands to the variable n if it is set, even to nothing, and else to d as it stands, followed by the expansion of r; n ends at the first separator. |
| Placeholders.PlainPlaceholder | cmd/agent/main.go:316-334 | "${n}" without a separator expands to the variable n if it is set and else stays. |
| Placeholders.InertPrefix | cmd/agent/main.go:313-314 | Text in which no placeholder can start, "${}" included, is copied. |
| Placeholders.UnclosedStays | cmd/agent/main.go:313-314 | Without a closing brace nothing changes. |
| Placeholders.ExpandedIsRendered | cmd/agent/main.go:313-335 | Rendering over the segmentation and reading from the left, one match or character at a time, agree on every text. |
| Placeholders.ExpansionIdempotent | cmd/agent/main.go:313-335 | Expanding twice changes nothing when no dollar stands directly before a placeholder and every value put in place is inert: no dollar ends it or stands before a brace that is not closed at once. |
| Placeholders.IdempotentIff | cmd/agent/main.go:313-335 | For every text: it settles after one expansion under every environment with inert values if and only if no dollar stands directly before one of its placeholders. |
| Placeholders.IdempotentIffProper | cmd/agent/main.go:322-325 | The same with only such environments as a process can have, for placeholders that name possible variables. |
| Placeholders.ValueIff | cmd/agent/main.go:322-330 | For every value: all texts without a dollar directly before a placeholder settle with it in place of their placeholders if and only if the value is inert. |
| Placeholders.DollarInValueExpandsAgain | cmd/agent/main.go:322-330 | A dollar in a value can start a new placeholder on the second pass. |
| Placeholders.StrayDollarExpandsAgain | cmd/agent/main.go:313-335 | A stray dollar before a value that starts with a brace can, too. |
| ControlPlane.RemovedIsRestricted | internal/server/server.go:419-447 | In consistent indexes, taking a node off the lists it names takes it off every list, and keeps them consistent. |
| ControlPlane.RestrictedConsistent | internal/server/server.go:393-416 | Filtering the nodes and, in order, every list keeps all index consistency. |
| ControlPlane.RestrictedTwice | internal/server/server.go:393-416 | Filterings compose, so the order of removals does not matter. |
| ControlPlane.RestrictedMeaning | internal/server/server.go:393-416 | What a filtering leaves: the records of the nodes kept, unchanged, and in every list the places of kept nodes, each once and in order, with their priorities. |
| ControlPlane.WithoutIsCut | internal/server/server.go:419-447 | Cutting a node from a list takes its first occurrence and nothing else. |
| ControlPlane.RegisteredConsistentIff | internal/server/server.go:492-502 | Registration keeps the indexes consistent if and only if no existing group or service is named by the record it overwrites. |
| ControlPlane.RegisteredMeaning | internal/server/server.go:492-502 | Every field of the record a registration writes; no other record and no list changes; the indexes stay consistent exactly if no list holds the node. |
| ControlPlane.RegisteredThenCleaned | internal/server/server.go:393-502 | A node registered at t and cleaned up at u survives if and only if u - t is at most the expiry. |
| ControlPlane.ControlPlaneServer.RemoveNodeFromGroup | internal/server/server.go:419-431 | The first occurrence leaves that list, no other list changes. |
| ControlPlane.ControlPlaneServer.RemoveNodeFromService | internal/server/server.go:434-447 | The first occurrence and the priority leave that service, no other changes. |
| ControlPlane.ControlPlaneServer.CleanupNodes | internal/server/server.go:393-416 | For every order of the map: a node remains if and only if it was there and has been active within the expiry, with its record unchanged; every list keeps exactly the places of remaining nodes, in order; the indexes stay consistent. |
| ControlPlane.ControlPlaneServer.HandleDeleteNode | internal/server/server.go:597-624 | Deletes one node from index and lists, all other records and list places staying as they are, or answers not found and changes nothing. |
| ControlPlane.ControlPlaneServer.HandleNodeRegister | internal/server/server.go:450-513 | The order of the checks, that a refused request changes nothing, the record an accepted one writes, and that it keeps the indexes consistent if and only if no list holds the node. |

## Left out

- Rounding of float64 in speeds, and the conversion of a speed beyond 64 bits (exact integer arithmetic instead, rounded down; byte counts and totals are modulo 2^64).
- Percentages and load averages are carried through as reals, never computed with.
- Readings change while they are taken: both collectors are compared on the same readings, and a reading asked twice answers the same.
- Memory model below the steps of `ParallelCollection`: a goroutine's unlocked write to its own fields is one step.
- HTTP, routing, logging, websockets, signals, shutdown and timeouts: a send is a step or an outcome chosen by the environment.
- AES-GCM, gzip and bcrypt themselves. A wrong key is only promised to fail under some nonce, since with a 16-byte tag no scheme rejects every wrong key under every nonce; bcrypt may refuse a token.
- Randomness and clocks are parameters.
- Late attempts of an agent may carry any report already begun, not only those given up on; this only adds runs.
- Delivery.HistoryOrderedAndFaithful: report numbers exist in the model only, so that order can be stated; an agent that restarts under the same identifier continues them.
- Tokens.WriteOutcomes: an INSERT fails on a duplicate identifier only; a foreign key that refuses it is the same as any refused write, and a creation whose reply is lost counts as having issued its token.
- NodeRepository.ListByName: names are ordered by some total preorder, the database's collation, which is not modelled further.
- Placeholders.IdempotentIff: an environment is any map from names to values; only IdempotentIffProper leaves out names that no process can set (empty ones, and those with an equals sign).
- Placeholders.ValueIff: likewise any map; a value that is not inert only for a placeholder such as "${=}", which no process can resolve, counts as not inert.
- EncryptionService's algorithm name, which no operation looks at.
- Migration.MigrationSafety: migration names are their positions in the list, and columns of tables are not modelled; hence VerifyTableColumns is not part of this model.
- ControlPlane.ControlPlaneServer.CleanupNodes: the lists are left before the record goes, which nothing can observe under the lock; GroupID and ServiceID are assigned by no code, so any consistent state is the start.
- Node records of the control plane's in-memory index are values; handleUpdateNode and the creation of groups and services add only field assignments.
- attemptRegistration, saving of failed reports and the default configuration of the agent: loops and assignments without a property that spans operations.
- The authentication middleware of the aggregator, whose rejections are commented out.
- InfluxDB storage, the other SQL repositories, users, JWT, alerts, notifications and the stub handlers.
- cmd/server/main.go repeats the placeholder code of cmd/agent/main.go and is modelled once.
