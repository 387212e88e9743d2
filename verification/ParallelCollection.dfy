/**
 The collector that takes its readings in goroutines: one for the processors, one for memory,
 one for the disks with a worker per mount point, one for the network with three more of its
 own. A step is what one goroutine does between two points where others may run.
 */
module ParallelCollection {
  import opened Prelude
  import opened Addresses
  import opened Collector

  // ----- the goroutines -----

  datatype Worker = Reading | Holding(stat: DiskStats) | Finished

  datatype CounterTask =
    | CountersUnread
    | Scanning(cs: seq<Counter>, i: nat, sent: Word, recv: Word)
    | CountersDone

  datatype AddressTask =
    | AddressesUnread
    | AddressesHeld(public4: Slice, public6: Slice, private4: Slice, private6: Slice)
    | AddressesDone

  datatype SocketTask = SocketsUnread | SocketsHeld(tcp: nat, udp: nat) | SocketsDone

  /** One collection: the interfaces wanted, the readings, and what the collector starts it with. */
  datatype Collection = Collection(ifaces: seq<string>, r: Readings, mounts: seq<string>, base: Baseline)

  /** The shared record and collector fields, and how far each goroutine is. */
  datatype State = State(
    stats: Stats, base: Baseline, mounts: seq<string>,
    spawned: nat, cpu: nat, memory: nat,
    checked: bool, workers: seq<Worker>, disksJoined: bool,
    netSpawned: nat, counters: CounterTask, addresses: AddressTask, sockets: SocketTask, netJoined: bool,
    finished: bool)

  function Initial(c: Collection): State {
    State(Fresh(c.r), c.base, c.mounts, 0, 0, 0, false, [], false, 0,
          CountersUnread, AddressesUnread, SocketsUnread, false, false)
  }

  datatype Step =
    | Spawn
    | ReadCpu
    | ReadMemory
    | CheckMounts
    | SpawnWorker
    | Work(i: nat)
    | JoinDisks
    | SpawnNet
    | ReadCounters
    | ReadAddresses
    | ReadSockets
    | JoinNet
    | Finish(order: seq<string>)

  predicate AllFinished(workers: seq<Worker>) {
    forall i | 0 <= i < |workers| :: workers[i].Finished?
  }

  /** The four goroutines are through, the record is not yet completed. */
  predicate Ready(s: State) {
    !s.finished && s.spawned >= 4 && s.cpu >= 3 && s.memory >= 2 && s.disksJoined && s.netJoined
  }

  ghost predicate Enabled(s: State, step: Step) {
    match step
    case Spawn => s.spawned < 4
    case ReadCpu => s.spawned >= 1 && s.cpu < 3
    case ReadMemory => s.spawned >= 2 && s.memory < 2
    case CheckMounts => s.spawned >= 3 && !s.checked
    case SpawnWorker => s.checked && |s.workers| < |s.mounts|
    case Work(i) => i < |s.workers| && !s.workers[i].Finished?
    case JoinDisks => s.checked && !s.disksJoined && |s.workers| == |s.mounts| && AllFinished(s.workers)
    case SpawnNet => s.spawned >= 4 && s.netSpawned < 3
    case ReadCounters => s.netSpawned >= 1 && !s.counters.CountersDone?
    case ReadAddresses => s.netSpawned >= 2 && !s.addresses.AddressesDone?
    case ReadSockets => s.netSpawned >= 3 && !s.sockets.SocketsDone?
    case JoinNet =>
      && s.netSpawned == 3 && !s.netJoined
      && s.counters.CountersDone? && s.addresses.AddressesDone? && s.sockets.SocketsDone?
    case Finish(order) => Ready(s) && Visits(order, s.stats.disk.Keys)
  }

  // ----- what the goroutines do -----

  function CpuStep(r: Readings, s: State): State {
    var stats :=
      if s.cpu == 0 then
        if r.cpuPercent.Some? && |r.cpuPercent.value| > 0
        then s.stats.(cpu := s.stats.cpu["usage" := r.cpuPercent.value[0]]) else s.stats
      else if s.cpu == 1 then
        if r.cpuModels.Some? && |r.cpuModels.value| > 0
        then s.stats.(hardware := s.stats.hardware.(cpuModel := r.cpuModels.value[0], cpuCores := |r.cpuModels.value|))
        else s.stats
      else if r.load.Some? then s.stats.(load := r.load.value) else s.stats;
    s.(stats := stats, cpu := s.cpu + 1)
  }

  function MemoryStep(r: Readings, s: State): State {
    var was := s.stats.memory;
    var memory :=
      if s.memory == 0 then
        if r.memory.None? then was else
        var m := r.memory.value;
        was.(total := m.total, used := m.used, free := m.free, usedPercent := m.usedPercent)
      else
        if r.swap.None? then was else
        var w := r.swap.value;
        was.(swapTotal := w.total, swapUsed := w.used, swapPercent := w.usedPercent);
    s.(stats := s.stats.(memory := memory), memory := s.memory + 1)
  }

  /** Without mount points, the root directory. */
  function Effective(mounts: seq<string>): seq<string> {
    if mounts == [] then ["/"] else mounts
  }

  /** A worker reads without the lock and writes with it; it ends early when it cannot read. */
  function WorkerStep(r: Readings, s: State, i: nat): State
    requires i < |s.workers| <= |s.mounts|
  {
    var mount := s.mounts[i];
    match s.workers[i]
    case Reading =>
      s.(workers := s.workers[i := if mount in r.disk then Holding(r.disk[mount]) else Finished])
    case Holding(stat) =>
      s.(workers := s.workers[i := Finished], stats := s.stats.(disk := s.stats.disk[mount := stat]))
    case Finished => s
  }

  /** What the network goroutines read and write. */
  datatype NetState = NetState(network: Network, base: Baseline, counters: CounterTask, addresses: AddressTask,
      sockets: SocketTask)

  function NetIn(s: State): NetState {
    NetState(s.stats.network, s.base, s.counters, s.addresses, s.sockets)
  }

  function WithNet(s: State, w: NetState): State {
    s.(stats := s.stats.(network := w.network), base := w.base,
       counters := w.counters, addresses := w.addresses, sockets := w.sockets)
  }

  /** One iteration of the loop over the counters, or the locked section behind it. */
  function CounterStep(c: Collection, w: NetState): NetState {
    match w.counters
    case CountersUnread =>
      if c.r.counters.None? || c.r.counters.value == [] then w.(counters := CountersDone)
      else
        var cs := c.r.counters.value;
        w.(counters := Scanning(cs, if Listing(w.base, c.r.now) then 0 else |cs|, 0, 0))
    case Scanning(cs, i, sent, recv) =>
      if i < |cs| then
        if Wanted(c.ifaces, cs[i].name) then
          var entries := w.network.interfaces[cs[i].name := EntryOf(w.base, c.r.now, cs[i])];
          w.(network := w.network.(interfaces := entries),
             counters := Scanning(cs, i + 1, (sent as int + cs[i].sent as int) % WORD,
                 (recv as int + cs[i].recv as int) % WORD))
        else w.(counters := Scanning(cs, i + 1, sent, recv))
      else
        w.(network := w.network.(totalSent := sent, totalReceived := recv),
           base := Baseline(Some(ByName(cs)), c.r.now), counters := CountersDone)
    case CountersDone => w
  }

  /** What appending to a nil slice leaves. */
  function Appended(kind: Kind, interfaces: seq<Option<seq<Addr>>>): Slice {
    var list := Listed(kind, AllOf(interfaces));
    if list == [] then Nil else Made(list)
  }

  function AddressStep(r: Readings, w: NetState): NetState {
    match w.addresses
    case AddressesUnread =>
      if r.interfaces.None? then w.(addresses := AddressesDone)
      else
        var ifs := r.interfaces.value;
        w.(addresses := AddressesHeld(Appended(PublicV4, ifs), Appended(PublicV6, ifs), Appended(PrivateV4, ifs),
            Appended(PrivateV6, ifs)))
    case AddressesHeld(public4, public6, private4, private6) =>
      w.(network := w.network.(public4 := public4, public6 := public6, private4 := private4, private6 := private6),
         addresses := AddressesDone)
    case AddressesDone => w
  }

  function SocketStep(r: Readings, w: NetState): NetState {
    match w.sockets
    case SocketsUnread =>
      if r.connections.None? then w.(sockets := SocketsDone)
      else w.(sockets := SocketsHeld(CountOf(Stream, r.connections.value), CountOf(Datagram, r.connections.value)))
    case SocketsHeld(tcp, udp) =>
      w.(network := w.network.(tcp := tcp, udp := udp), sockets := SocketsDone)
    case SocketsDone => w
  }

  function FinishStep(s: State, order: seq<string>): State
    requires forall k | k in order :: k in s.stats.disk
  {
    var hardware := s.stats.hardware.(memoryTotal := s.stats.memory.total, diskTotal := SumAlong(s.stats.disk, order));
    s.(stats := s.stats.(hardware := hardware), finished := true)
  }

  ghost predicate WorkersFit(s: State) {
    |s.workers| <= |s.mounts| && (!s.checked ==> s.workers == [])
  }

  function Apply(c: Collection, s: State, step: Step): State
    requires WorkersFit(s) && Enabled(s, step)
  {
    match step
    case Spawn => s.(spawned := s.spawned + 1)
    case ReadCpu => CpuStep(c.r, s)
    case ReadMemory => MemoryStep(c.r, s)
    case CheckMounts => s.(mounts := Effective(s.mounts), checked := true)
    case SpawnWorker => s.(workers := s.workers + [Reading])
    case Work(i) => WorkerStep(c.r, s, i)
    case JoinDisks => s.(disksJoined := true)
    case SpawnNet => s.(netSpawned := s.netSpawned + 1)
    case ReadCounters => WithNet(s, CounterStep(c, NetIn(s)))
    case ReadAddresses => WithNet(s, AddressStep(c.r, NetIn(s)))
    case ReadSockets => WithNet(s, SocketStep(c.r, NetIn(s)))
    case JoinNet => s.(netJoined := true)
    case Finish(order) => FinishStep(s, order)
  }

  // ----- what every step keeps -----

  ghost predicate CpuInv(r: Readings, done: nat, cpu: map<string, real>, model: string, cores: nat, load: LoadAvg) {
    && done <= 3
    && cpu == (if done >= 1 then CpuOf(r) else map[])
    && model == (if done >= 2 then ModelOf(r) else "")
    && cores == (if done >= 2 then CoresOf(r) else 0)
    && load == (if done >= 3 then LoadOf(r) else LoadAvg(0.0, 0.0, 0.0))
  }

  ghost predicate MemoryInv(r: Readings, done: nat, m: Memory) {
    var want := MemoryOf(r);
    && done <= 2
    && m == Memory(if done >= 1 then want.total else 0, if done >= 1 then want.used else 0,
                   if done >= 1 then want.free else 0, if done >= 1 then want.usedPercent else 0.0,
                   if done >= 2 then want.swapTotal else 0, if done >= 2 then want.swapUsed else 0,
                   if done >= 2 then want.swapPercent else 0.0)
  }

  ghost predicate WorkerOk(r: Readings, mount: string, w: Worker, disk: map<string, DiskStats>) {
    match w
    case Reading => true
    case Holding(stat) => mount in r.disk && stat == r.disk[mount]
    case Finished => mount in r.disk ==> mount in disk
  }

  ghost predicate DiskInv(
    r: Readings, given: seq<string>, checked: bool, mounts: seq<string>, workers: seq<Worker>, joined: bool,
        disk: map<string, DiskStats>)
  {
    && |workers| <= |mounts| && (!checked ==> workers == [])
    && mounts == (if checked then Effective(given) else given)
    && (forall i: nat | i < |workers| :: WorkerOk(r, mounts[i], workers[i], disk))
    && (forall m | m in disk :: m in mounts && m in r.disk && disk[m] == r.disk[m])
    && (joined ==> checked && |workers| == |mounts| && AllFinished(workers))
  }

  /** An empty list of counters keeps the baseline, as a failed reading does. */
  function ParallelBaselineOf(base: Baseline, r: Readings): Baseline {
    if r.counters.Some? && r.counters.value != [] then Baseline(Some(ByName(r.counters.value)), r.now) else base
  }

  ghost predicate CountersInv(
    c: Collection, task: CounterTask, base: Baseline, entries: map<string, InterfaceStats>, totalSent: Word,
        totalReceived: Word)
  {
    match task
    case CountersUnread =>
      base == c.base && entries == map[] && totalSent == 0 && totalReceived == 0
    case Scanning(cs, i, sent, recv) =>
      && base == c.base && totalSent == 0 && totalReceived == 0
      && cs != [] && c.r.counters == Some(cs) && i <= |cs|
      && (!Listing(c.base, c.r.now) ==> i == |cs|)
      && var seen := if Listing(c.base, c.r.now) then cs[..i] else [];
      && entries == Entries(c.ifaces, c.base, c.r.now, seen)
      && sent == TotalSent(c.ifaces, seen) && recv == TotalReceived(c.ifaces, seen)
    case CountersDone =>
      && base == ParallelBaselineOf(c.base, c.r)
      && var seen := Seen(c.base, c.r);
      && entries == Entries(c.ifaces, c.base, c.r.now, seen)
      && totalSent == TotalSent(c.ifaces, seen) && totalReceived == TotalReceived(c.ifaces, seen)
  }

  function SliceOf(kind: Kind, r: Readings): Slice {
    if r.interfaces.None? then Made([]) else Appended(kind, r.interfaces.value)
  }

  ghost predicate AddressesInv(r: Readings, task: AddressTask, public4: Slice, public6: Slice, private4: Slice,
      private6: Slice) {
    match task
    case AddressesUnread => public4 == public6 == private4 == private6 == Made([])
    case AddressesHeld(p4, p6, v4, v6) =>
      && public4 == public6 == private4 == private6 == Made([])
      && r.interfaces.Some?
      && p4 == SliceOf(PublicV4, r) && p6 == SliceOf(PublicV6, r) && v4 == SliceOf(PrivateV4, r)
          && v6 == SliceOf(PrivateV6, r)
    case AddressesDone =>
      && public4 == SliceOf(PublicV4, r) && public6 == SliceOf(PublicV6, r)
      && private4 == SliceOf(PrivateV4, r) && private6 == SliceOf(PrivateV6, r)
  }

  ghost predicate SocketsInv(r: Readings, task: SocketTask, tcp: nat, udp: nat) {
    match task
    case SocketsUnread => tcp == 0 && udp == 0
    case SocketsHeld(t, u) => tcp == 0 && udp == 0 && t == SocketsOf(Stream, r) && u == SocketsOf(Datagram, r)
    case SocketsDone => tcp == SocketsOf(Stream, r) && udp == SocketsOf(Datagram, r)
  }

  ghost predicate JoinInv(s: State) {
    && s.spawned <= 4 && s.netSpawned <= 3
    && (s.netJoined ==> s.counters.CountersDone? && s.addresses.AddressesDone? && s.sockets.SocketsDone?)
    && (s.finished ==>
          && s.cpu >= 3 && s.memory >= 2 && s.disksJoined && s.netJoined
          && s.stats.hardware.memoryTotal == s.stats.memory.total
          && s.stats.hardware.diskTotal == SumDisk(s.stats.disk) % WORD)
  }

  ghost predicate HostInv(r: Readings, stats: Stats) {
    var start := Fresh(r);
    && stats.timestamp == start.timestamp && stats.hostname == start.hostname
    && stats.platform == start.platform && stats.uptime == start.uptime
  }

  ghost predicate CountersOk(c: Collection, w: NetState) {
    CountersInv(c, w.counters, w.base, w.network.interfaces, w.network.totalSent, w.network.totalReceived)
  }

  ghost predicate AddressesOk(r: Readings, w: NetState) {
    AddressesInv(r, w.addresses, w.network.public4, w.network.public6, w.network.private4, w.network.private6)
  }

  ghost predicate SocketsOk(r: Readings, w: NetState) {
    SocketsInv(r, w.sockets, w.network.tcp, w.network.udp)
  }

  ghost predicate NetInv(c: Collection, w: NetState) {
    CountersOk(c, w) && AddressesOk(c.r, w) && SocketsOk(c.r, w)
  }

  ghost predicate Inv(c: Collection, s: State) {
    var h := s.stats.hardware;
    && CpuInv(c.r, s.cpu, s.stats.cpu, h.cpuModel, h.cpuCores, s.stats.load)
    && MemoryInv(c.r, s.memory, s.stats.memory)
    && DiskInv(c.r, c.mounts, s.checked, s.mounts, s.workers, s.disksJoined, s.stats.disk)
    && NetInv(c, NetIn(s)) && JoinInv(s) && HostInv(c.r, s.stats)
  }

  // ----- the values the parallel collector arrives at -----

  ghost function ParallelStatsOf(c: Collection): Stats {
    var s := StatsOf(Effective(c.mounts), c.ifaces, c.base, c.r);
    s.(network := s.network.(public4 := SliceOf(PublicV4, c.r), public6 := SliceOf(PublicV6, c.r),
                             private4 := SliceOf(PrivateV4, c.r), private6 := SliceOf(PrivateV6, c.r)))
  }

  // ----- steps keep the invariant -----

  lemma CpuKeeps(c: Collection, s: State)
    requires Inv(c, s) && Enabled(s, ReadCpu)
    ensures Inv(c, CpuStep(c.r, s))
  {
  }

  lemma MemoryKeeps(c: Collection, s: State)
    requires Inv(c, s) && Enabled(s, ReadMemory)
    ensures Inv(c, MemoryStep(c.r, s))
  {
  }

  lemma MountsKeep(c: Collection, s: State)
    requires Inv(c, s) && Enabled(s, CheckMounts)
    ensures Inv(c, Apply(c, s, CheckMounts))
  {
  }

  lemma SpawnWorkerKeeps(c: Collection, s: State)
    requires Inv(c, s) && Enabled(s, SpawnWorker)
    ensures Inv(c, Apply(c, s, SpawnWorker))
  {
  }

  lemma WorkerKeeps(c: Collection, s: State, i: nat)
    requires Inv(c, s) && Enabled(s, Work(i))
    ensures Inv(c, WorkerStep(c.r, s, i))
  {
    var t := WorkerStep(c.r, s, i);
    assert WorkerOk(c.r, s.mounts[i], s.workers[i], s.stats.disk);
    forall k: nat | k < |t.workers| ensures WorkerOk(c.r, t.mounts[k], t.workers[k], t.stats.disk) {
      assert WorkerOk(c.r, s.mounts[k], s.workers[k], s.stats.disk);
    }
    assert DiskInv(c.r, c.mounts, t.checked, t.mounts, t.workers, t.disksJoined, t.stats.disk);
  }

  /** A step of a network goroutine leaves the other goroutines' share alone. */
  lemma NetStepKeeps(c: Collection, s: State, w: NetState)
    requires Inv(c, s) && !s.netJoined && NetInv(c, w)
    ensures Inv(c, WithNet(s, w))
  {
    assert NetIn(WithNet(s, w)) == w;
  }

  ghost predicate SameCounters(w: NetState, v: NetState) {
    && v.counters == w.counters && v.base == w.base && v.network.interfaces == w.network.interfaces
    && v.network.totalSent == w.network.totalSent && v.network.totalReceived == w.network.totalReceived
  }

  ghost predicate SameAddresses(w: NetState, v: NetState) {
    && v.addresses == w.addresses
    && v.network.public4 == w.network.public4 && v.network.public6 == w.network.public6
    && v.network.private4 == w.network.private4 && v.network.private6 == w.network.private6
  }

  ghost predicate SameSockets(w: NetState, v: NetState) {
    v.sockets == w.sockets && v.network.tcp == w.network.tcp && v.network.udp == w.network.udp
  }

  lemma SharesKept(c: Collection, w: NetState, v: NetState)
    requires NetInv(c, w)
    ensures SameCounters(w, v) ==> CountersOk(c, v)
    ensures SameAddresses(w, v) ==> AddressesOk(c.r, v)
    ensures SameSockets(w, v) ==> SocketsOk(c.r, v)
  {
  }

  lemma CountersOnly(c: Collection, w: NetState)
    ensures SameAddresses(w, CounterStep(c, w)) && SameSockets(w, CounterStep(c, w))
  {
  }

  lemma CountersRead(c: Collection, w: NetState)
    requires CountersOk(c, w) && w.counters.CountersUnread?
    ensures CountersOk(c, CounterStep(c, w))
  {
  }

  lemma CountersScanned(c: Collection, w: NetState)
    requires CountersOk(c, w) && w.counters.Scanning? && w.counters.i < |w.counters.cs|
    ensures CountersOk(c, CounterStep(c, w))
  {
    var cs, i := w.counters.cs, w.counters.i;
    var seen := cs[..i + 1];
    assert seen[..i] == cs[..i] && seen[i] == cs[i];
  }

  lemma CountersWritten(c: Collection, w: NetState)
    requires CountersOk(c, w) && w.counters.Scanning? && w.counters.i == |w.counters.cs|
    ensures CountersOk(c, CounterStep(c, w))
  {
    var cs := w.counters.cs;
    assert cs[..|cs|] == cs;
  }

  lemma CounterTaskKeeps(c: Collection, w: NetState)
    requires NetInv(c, w)
    ensures NetInv(c, CounterStep(c, w))
  {
    CountersOnly(c, w);
    SharesKept(c, w, CounterStep(c, w));
    match w.counters
    case CountersUnread => CountersRead(c, w);
    case Scanning(cs, i, sent, recv) => if i < |cs| { CountersScanned(c, w); } else { CountersWritten(c, w); }
    case CountersDone =>
  }

  lemma AddressesOnly(r: Readings, w: NetState)
    ensures SameCounters(w, AddressStep(r, w)) && SameSockets(w, AddressStep(r, w))
  {
  }

  lemma AddressesStepped(r: Readings, w: NetState)
    requires AddressesOk(r, w)
    ensures AddressesOk(r, AddressStep(r, w))
  {
  }

  lemma AddressTaskKeeps(c: Collection, w: NetState)
    requires NetInv(c, w)
    ensures NetInv(c, AddressStep(c.r, w))
  {
    AddressesOnly(c.r, w);
    SharesKept(c, w, AddressStep(c.r, w));
    AddressesStepped(c.r, w);
  }

  lemma SocketsOnly(r: Readings, w: NetState)
    ensures SameCounters(w, SocketStep(r, w)) && SameAddresses(w, SocketStep(r, w))
  {
  }

  lemma SocketsStepped(r: Readings, w: NetState)
    requires SocketsOk(r, w)
    ensures SocketsOk(r, SocketStep(r, w))
  {
  }

  lemma SocketTaskKeeps(c: Collection, w: NetState)
    requires NetInv(c, w)
    ensures NetInv(c, SocketStep(c.r, w))
  {
    SocketsOnly(c.r, w);
    SharesKept(c, w, SocketStep(c.r, w));
    SocketsStepped(c.r, w);
  }

  lemma FinishKeeps(c: Collection, s: State, order: seq<string>)
    requires Inv(c, s) && Enabled(s, Finish(order))
    ensures Inv(c, FinishStep(s, order))
  {
    SumAlongAnyOrder(s.stats.disk, order);
  }

  lemma ControlKeeps(c: Collection, s: State, step: Step)
    requires Inv(c, s) && Enabled(s, step)
    requires step.Spawn? || step.JoinDisks? || step.SpawnNet? || step.JoinNet?
    ensures Inv(c, Apply(c, s, step))
  {
  }

  lemma {:induction false} StepKeepsInv(c: Collection, s: State, step: Step)
    requires Inv(c, s) && Enabled(s, step)
    ensures Inv(c, Apply(c, s, step))
  {
    match step
    case ReadCpu => CpuKeeps(c, s);
    case ReadMemory => MemoryKeeps(c, s);
    case CheckMounts => MountsKeep(c, s);
    case SpawnWorker => SpawnWorkerKeeps(c, s);
    case Work(i) => WorkerKeeps(c, s, i);
    case ReadCounters => CounterTaskKeeps(c, NetIn(s)); NetStepKeeps(c, s, CounterStep(c, NetIn(s)));
    case ReadAddresses => AddressTaskKeeps(c, NetIn(s)); NetStepKeeps(c, s, AddressStep(c.r, NetIn(s)));
    case ReadSockets => SocketTaskKeeps(c, NetIn(s)); NetStepKeeps(c, s, SocketStep(c.r, NetIn(s)));
    case Finish(order) => FinishKeeps(c, s, order);
    case _ => ControlKeeps(c, s, step);
  }

  lemma InitialInv(c: Collection)
    ensures Inv(c, Initial(c))
  {
  }

  lemma FinishedIsDetermined(c: Collection, s: State)
    requires Inv(c, s) && s.finished
    ensures s.stats == ParallelStatsOf(c)
    ensures s.base == ParallelBaselineOf(c.base, c.r) && s.mounts == Effective(c.mounts)
  {
    var want := DiskOf(s.mounts, c.r);
    forall m | m in want ensures m in s.stats.disk {
      var i :| 0 <= i < |s.mounts| && s.mounts[i] == m;
      assert WorkerOk(c.r, s.mounts[i], s.workers[i], s.stats.disk);
    }
    assert s.stats.disk == want;
  }

  // ----- schedules -----

  /** The steps can be taken in this order, from s on. */
  ghost predicate Schedule(c: Collection, s: State, steps: seq<Step>)
    decreases steps
  {
    steps == [] || (WorkersFit(s) && Enabled(s, steps[0]) && Schedule(c, Apply(c, s, steps[0]), steps[1..]))
  }

  ghost function After(c: Collection, s: State, steps: seq<Step>): State
    requires Schedule(c, s, steps)
    decreases steps
  {
    if steps == [] then s else After(c, Apply(c, s, steps[0]), steps[1..])
  }

  lemma {:induction false} ScheduleKeepsInv(c: Collection, s: State, steps: seq<Step>)
    requires Inv(c, s) && Schedule(c, s, steps)
    ensures Inv(c, After(c, s, steps))
    decreases steps
  {
    if steps == [] {
    } else {
      StepKeepsInv(c, s, steps[0]);
      ScheduleKeepsInv(c, Apply(c, s, steps[0]), steps[1..]);
    }
  }

  /** Whatever the schedule, a collection that finishes has one result. */
  lemma {:induction false} EveryScheduleSameResult(c: Collection, steps: seq<Step>)
    requires Schedule(c, Initial(c), steps) && After(c, Initial(c), steps).finished
    ensures var t := After(c, Initial(c), steps);
            t.stats == ParallelStatsOf(c) && t.base == ParallelBaselineOf(c.base, c.r)
                && t.mounts == Effective(c.mounts)
  {
    InitialInv(c);
    ScheduleKeepsInv(c, Initial(c), steps);
    FinishedIsDetermined(c, After(c, Initial(c), steps));
  }

  // ----- every schedule ends -----

  function Missing(want: nat, have: nat): nat {
    if have < want then want - have else 0
  }

  function Weight(workers: seq<Worker>): nat {
    if workers == [] then 0
    else
      var w := workers[|workers| - 1];
      Weight(workers[..|workers| - 1]) + if w.Reading? then 2 else if w.Holding? then 1 else 0
  }

  lemma {:induction false} WeightUpdate(workers: seq<Worker>, i: nat, w: Worker)
    requires i < |workers|
    requires (workers[i].Reading? && !w.Reading?) || (workers[i].Holding? && w.Finished?)
    ensures Weight(workers[i := w]) < Weight(workers)
  {
    var n := |workers| - 1;
    if i < n {
      WeightUpdate(workers[..n], i, w);
      assert workers[i := w][..n] == workers[..n][i := w];
    } else {
      assert workers[i := w][..n] == workers[..n];
    }
  }

  function DisksLeft(c: Collection, s: State): nat {
    if !s.checked then 1 + 3 * |Effective(c.mounts)|
    else 3 * Missing(|s.mounts|, |s.workers|) + Weight(s.workers)
  }

  function CountersLeft(c: Collection, task: CounterTask): nat {
    match task
    case CountersUnread => 2 + if c.r.counters.Some? then |c.r.counters.value| else 0
    case Scanning(cs, i, _, _) => 1 + Missing(|cs|, i)
    case CountersDone => 0
  }

  function Rest(unread: bool, done: bool): nat {
    if unread then 2 else if done then 0 else 1
  }

  function NetLeft(c: Collection, w: NetState): nat {
    CountersLeft(c, w.counters)
    + Rest(w.addresses.AddressesUnread?, w.addresses.AddressesDone?)
    + Rest(w.sockets.SocketsUnread?, w.sockets.SocketsDone?)
  }

  /** How many steps there are left at most. */
  function StepsLeft(c: Collection, s: State): nat {
    Missing(4, s.spawned) + Missing(3, s.cpu) + Missing(2, s.memory) + DisksLeft(c, s) + NetLeft(c, NetIn(s))
    + Missing(3, s.netSpawned)
    + (if s.disksJoined then 0 else 1) + (if s.netJoined then 0 else 1) + (if s.finished then 0 else 1)
  }

  lemma NetStepUses(c: Collection, w: NetState)
    requires NetInv(c, w)
    ensures !w.counters.CountersDone? ==> NetLeft(c, CounterStep(c, w)) < NetLeft(c, w)
    ensures !w.addresses.AddressesDone? ==> NetLeft(c, AddressStep(c.r, w)) < NetLeft(c, w)
    ensures !w.sockets.SocketsDone? ==> NetLeft(c, SocketStep(c.r, w)) < NetLeft(c, w)
  {
  }

  lemma WorkerStepUses(c: Collection, s: State, i: nat)
    requires DiskInv(c.r, c.mounts, s.checked, s.mounts, s.workers, s.disksJoined, s.stats.disk) && Enabled(s, Work(i))
    ensures DisksLeft(c, WorkerStep(c.r, s, i)) < DisksLeft(c, s)
  {
    WeightUpdate(s.workers, i, WorkerStep(c.r, s, i).workers[i]);
  }

  lemma WithNetUses(c: Collection, s: State, w: NetState)
    requires NetLeft(c, w) < NetLeft(c, NetIn(s))
    ensures StepsLeft(c, WithNet(s, w)) < StepsLeft(c, s)
  {
    assert NetIn(WithNet(s, w)) == w;
  }

  lemma DiskStepUses(c: Collection, s: State, step: Step)
    requires DiskInv(c.r, c.mounts, s.checked, s.mounts, s.workers, s.disksJoined, s.stats.disk)
    requires Enabled(s, step) && (step.CheckMounts? || step.SpawnWorker? || step.Work?)
    ensures DisksLeft(c, Apply(c, s, step)) < DisksLeft(c, s)
  {
    match step
    case CheckMounts =>
    case SpawnWorker => assert Apply(c, s, step).workers[..|s.workers|] == s.workers;
    case Work(i) => WorkerStepUses(c, s, i);
  }

  lemma {:induction false} DiskStepLeavesRest(c: Collection, s: State, step: Step)
    requires Inv(c, s) && Enabled(s, step) && (step.CheckMounts? || step.SpawnWorker? || step.Work?)
    ensures var t := Apply(c, s, step);
            StepsLeft(c, t) - DisksLeft(c, t) == StepsLeft(c, s) - DisksLeft(c, s)
  {
    var t := Apply(c, s, step);
    assert t == s.(stats := t.stats, mounts := t.mounts, checked := t.checked, workers := t.workers);
    assert NetLeft(c, NetIn(t)) == NetLeft(c, NetIn(s));
  }

  lemma {:induction false} ControlStepUses(c: Collection, s: State, step: Step)
    requires Inv(c, s) && Enabled(s, step)
    requires step.Spawn? || step.SpawnNet? || step.JoinDisks? || step.JoinNet? || step.Finish?
    ensures StepsLeft(c, Apply(c, s, step)) < StepsLeft(c, s)
  {
    var t := Apply(c, s, step);
    assert NetLeft(c, NetIn(t)) == NetLeft(c, NetIn(s));
  }

  lemma {:induction false} StepUses(c: Collection, s: State, step: Step)
    requires Inv(c, s) && Enabled(s, step)
    ensures StepsLeft(c, Apply(c, s, step)) < StepsLeft(c, s)
  {
    if step.ReadCounters? || step.ReadAddresses? || step.ReadSockets? {
      NetStepUses(c, NetIn(s));
      var w := NetIn(s);
      WithNetUses(c, s, if step.ReadCounters? then CounterStep(c, w)
                        else if step.ReadAddresses? then AddressStep(c.r, w)
                        else SocketStep(c.r, w));
    } else if step.CheckMounts? || step.SpawnWorker? || step.Work? {
      DiskStepUses(c, s, step);
      DiskStepLeavesRest(c, s, step);
    } else if step.ReadCpu? {
    } else if step.ReadMemory? {
    } else {
      ControlStepUses(c, s, step);
    }
  }

  lemma {:induction false} SomeOrder(keys: set<string>) returns (order: seq<string>)
    ensures Visits(order, keys)
  {
    if keys == {} {
      order := [];
    } else {
      var k :| k in keys;
      order := SomeOrder(keys - {k});
      order := order + [k];
    }
  }

  /** A collection that is not finished can go on. */
  lemma {:induction false} Progress(c: Collection, s: State) returns (step: Step)
    requires Inv(c, s) && !s.finished
    ensures Enabled(s, step)
  {
    if s.spawned < 4 { return Spawn; }
    if s.cpu < 3 { return ReadCpu; }
    if s.memory < 2 { return ReadMemory; }
    if !s.checked { return CheckMounts; }
    if |s.workers| < |s.mounts| { return SpawnWorker; }
    if !AllFinished(s.workers) {
      var i: nat :| i < |s.workers| && !s.workers[i].Finished?;
      return Work(i);
    }
    if !s.disksJoined { return JoinDisks; }
    if s.netSpawned < 3 { return SpawnNet; }
    if !s.counters.CountersDone? { return ReadCounters; }
    if !s.addresses.AddressesDone? { return ReadAddresses; }
    if !s.sockets.SocketsDone? { return ReadSockets; }
    if !s.netJoined { return JoinNet; }
    var order := SomeOrder(s.stats.disk.Keys);
    return Finish(order);
  }

  lemma {:induction false} ScheduleUses(c: Collection, s: State, steps: seq<Step>)
    requires Inv(c, s) && Schedule(c, s, steps)
    ensures |steps| + StepsLeft(c, After(c, s, steps)) <= StepsLeft(c, s)
    decreases steps
  {
    if steps == [] {
    } else {
      StepKeepsInv(c, s, steps[0]);
      StepUses(c, s, steps[0]);
      ScheduleUses(c, Apply(c, s, steps[0]), steps[1..]);
    }
  }

  /** No schedule is longer than its readings allow, and none gets stuck before the end. */
  lemma {:induction false} EveryScheduleEnds(c: Collection, steps: seq<Step>)
    requires Schedule(c, Initial(c), steps)
    ensures |steps| <= 22 + 3 * |Effective(c.mounts)| + if c.r.counters.Some? then |c.r.counters.value| else 0
    ensures var t := After(c, Initial(c), steps); t.finished || exists step :: Enabled(t, step)
  {
    var t := After(c, Initial(c), steps);
    InitialInv(c);
    ScheduleKeepsInv(c, Initial(c), steps);
    ScheduleUses(c, Initial(c), steps);
    if !t.finished {
      var step := Progress(c, t);
      assert Enabled(t, step);
    }
  }

  // ----- the collector -----

  /** The scheduler: any step that is enabled. */
  method AnyStep(ghost c: Collection, s: State) returns (step: Step)
    requires Inv(c, s) && !s.finished
    ensures Enabled(s, step)
  {
    ghost var some := Progress(c, s);
    if
    case s.spawned < 4 => step := Spawn;
    case s.spawned >= 1 && s.cpu < 3 => step := ReadCpu;
    case s.spawned >= 2 && s.memory < 2 => step := ReadMemory;
    case s.spawned >= 3 && !s.checked => step := CheckMounts;
    case s.checked && |s.workers| < |s.mounts| => step := SpawnWorker;
    case !AllFinished(s.workers) =>
      var i: nat :| i < |s.workers| && !s.workers[i].Finished?;
      step := Work(i);
    case s.checked && !s.disksJoined && |s.workers| == |s.mounts| && AllFinished(s.workers) => step := JoinDisks;
    case s.spawned >= 4 && s.netSpawned < 3 => step := SpawnNet;
    case s.netSpawned >= 1 && !s.counters.CountersDone? => step := ReadCounters;
    case s.netSpawned >= 2 && !s.addresses.AddressesDone? => step := ReadAddresses;
    case s.netSpawned >= 3 && !s.sockets.SocketsDone? => step := ReadSockets;
    case s.netSpawned == 3 && !s.netJoined && s.counters.CountersDone? && s.addresses.AddressesDone?
        && s.sockets.SocketsDone? =>
      step := JoinNet;
    case Ready(s) =>
      var order := AnyOrder(s.stats.disk.Keys);
      step := Finish(order);
  }

  /** The parallel collector's report is one, too, for the mount points it falls back on. */
  lemma {:induction false} ParallelMeaning(c: Collection)
    ensures IsReport(ParallelStatsOf(c), Effective(c.mounts), c.ifaces, c.base, c.r)
    ensures c.r.counters != Some([]) ==> Carries(c.base, ParallelBaselineOf(c.base, c.r), c.r)
  {
    StatsMeaning(ParallelStatsOf(c), Effective(c.mounts), c.ifaces, c.base, c.r);
    BaselineMeaning(c.base, c.r);
  }

  class ParallelCollector {
    var mountPoints: seq<string>
    var interfaces: seq<string>
    var baseline: Baseline

    constructor (mounts: Option<seq<string>>, ifaces: Option<seq<string>>)
      ensures mountPoints == if mounts.Some? then mounts.value else ["/"]
      ensures interfaces == if ifaces.Some? then ifaces.value else []
      ensures baseline == NO_BASELINE
    {
      mountPoints := if mounts.Some? then mounts.value else ["/"];
      interfaces := if ifaces.Some? then ifaces.value else [];
      baseline := NO_BASELINE;
    }

    /** Lets the goroutines run, the scheduler choosing among those that can. */
    method RunGoroutines(r: Readings) returns (stats: Stats)
      modifies this`mountPoints, this`baseline
      ensures stats == ParallelStatsOf(Collection(interfaces, r, old(mountPoints), old(baseline)))
      ensures baseline == ParallelBaselineOf(old(baseline), r)
      ensures mountPoints == Effective(old(mountPoints))
    {
      var c := Collection(interfaces, r, mountPoints, baseline);
      var s := Initial(c);
      InitialInv(c);
      while !s.finished
        invariant Inv(c, s)
        invariant mountPoints == s.mounts && baseline == s.base
        decreases StepsLeft(c, s)
      {
        var step := AnyStep(c, s);
        StepKeepsInv(c, s, step);
        StepUses(c, s, step);
        s := Apply(c, s, step);
        mountPoints, baseline := s.mounts, s.base;
      }
      FinishedIsDetermined(c, s);
      stats := s.stats;
    }

    /** One collection: what it reports, and what it leaves for the next. */
    method Collect(r: Readings) returns (stats: Stats)
      modifies this`mountPoints, this`baseline
      ensures stats == ParallelStatsOf(Collection(interfaces, r, old(mountPoints), old(baseline)))
      ensures baseline == ParallelBaselineOf(old(baseline), r)
      ensures mountPoints == if old(mountPoints) == [] then ["/"] else old(mountPoints)
      ensures IsReport(stats, mountPoints, interfaces, old(baseline), r)
      ensures if r.counters == Some([]) then baseline == old(baseline) else Carries(old(baseline), baseline, r)
    {
      ParallelMeaning(Collection(interfaces, r, mountPoints, baseline));
      stats := RunGoroutines(r);
    }
  }

  // ----- against the sequential collector -----

  function Flat(n: Network): Network {
    n.(public4 := Made(n.public4.Elems()), public6 := Made(n.public6.Elems()),
       private4 := Made(n.private4.Elems()), private6 := Made(n.private6.Elems()))
  }

  /** Equal but for nil against empty address lists. */
  ghost predicate SameUpToNil(a: Stats, b: Stats) {
    a.(network := Flat(a.network)) == b.(network := Flat(b.network))
  }

  ghost function SequentialStatsOf(c: Collection): Stats {
    StatsOf(c.mounts, c.ifaces, c.base, c.r)
  }

  /** The two collectors report the same unless the parallel one falls back on a root it can read. */
  lemma StatsAgreeIff(c: Collection)
    ensures SameUpToNil(ParallelStatsOf(c), SequentialStatsOf(c)) <==> !(c.mounts == [] && "/" in c.r.disk)
  {
    var p, q := DiskOf(Effective(c.mounts), c.r), DiskOf(c.mounts, c.r);
    if c.mounts == [] {
      assert q == map[];
      if "/" in c.r.disk { assert "/" in p; } else { assert p == map[]; }
    }
  }

  /** Nil lists too are the same exactly when the interfaces failed or every list has an address. */
  lemma StatsEqualIff(c: Collection)
    ensures ParallelStatsOf(c) == SequentialStatsOf(c) <==>
              && !(c.mounts == [] && "/" in c.r.disk)
              && (c.r.interfaces.Some? ==>
                    && ListOf(PublicV4, c.r) != [] && ListOf(PublicV6, c.r) != []
                    && ListOf(PrivateV4, c.r) != [] && ListOf(PrivateV6, c.r) != [])
  {
    StatsAgreeIff(c);
  }

  /** The baselines part only over an empty list of counters. */
  lemma BaselinesAgreeIff(c: Collection)
    ensures ParallelBaselineOf(c.base, c.r) == BaselineOf(c.base, c.r)
            <==> !(c.r.counters == Some([]) && c.base != Baseline(Some(map[]), c.r.now))
  {
  }

  ghost function SequentialRun(mounts: seq<string>, ifaces: seq<string>, base: Baseline, rs: seq<Readings>): seq<Stats>
    decreases rs
  {
    if rs == [] then []
    else [StatsOf(mounts, ifaces, base, rs[0])] + SequentialRun(mounts, ifaces, BaselineOf(base, rs[0]), rs[1..])
  }

  function SequentialBaseline(base: Baseline, rs: seq<Readings>): Baseline
    decreases rs
  {
    if rs == [] then base else SequentialBaseline(BaselineOf(base, rs[0]), rs[1..])
  }

  /** One collection after the other, each under its own schedule and from what the one before left. */
  ghost predicate ParallelRun(
    mounts: seq<string>, ifaces: seq<string>, base: Baseline, rs: seq<Readings>,
    schedules: seq<seq<Step>>, outs: seq<Stats>, last: Baseline)
    decreases rs
  {
    && |schedules| == |outs| == |rs|
    && if rs == [] then last == base
       else
         var c := Collection(ifaces, rs[0], mounts, base);
         && Schedule(c, Initial(c), schedules[0])
         && var t := After(c, Initial(c), schedules[0]);
         && t.finished && t.stats == outs[0]
         && ParallelRun(t.mounts, ifaces, t.base, rs[1..], schedules[1..], outs[1..], last)
  }

  /**
   Over any run and under any schedules, the parallel collector reports and carries over what the
   sequential one does.
   */
  lemma {:induction false} RunsAgree(
    mounts: seq<string>, ifaces: seq<string>, base: Baseline, rs: seq<Readings>,
    schedules: seq<seq<Step>>, outs: seq<Stats>, last: Baseline)
    requires ParallelRun(mounts, ifaces, base, rs, schedules, outs, last)
    requires mounts != [] && forall i | 0 <= i < |rs| :: rs[i].counters != Some([])
    ensures last == SequentialBaseline(base, rs)
    ensures var wanted := SequentialRun(mounts, ifaces, base, rs);
            |wanted| == |outs| && forall i | 0 <= i < |outs| :: SameUpToNil(outs[i], wanted[i])
    decreases rs
  {
    if rs == [] {
    } else {
      var c := Collection(ifaces, rs[0], mounts, base);
      EveryScheduleSameResult(c, schedules[0]);
      StatsAgreeIff(c);
      BaselinesAgreeIff(c);
      RunsAgree(mounts, ifaces, BaselineOf(base, rs[0]), rs[1..], schedules[1..], outs[1..], last);
      var wanted, tail := SequentialRun(mounts, ifaces, base, rs),
          SequentialRun(mounts, ifaces, BaselineOf(base, rs[0]), rs[1..]);
      assert wanted == [SequentialStatsOf(c)] + tail;
      forall i | 0 <= i < |outs| ensures SameUpToNil(outs[i], wanted[i]) {
        if i > 0 { assert outs[i] == outs[1..][i - 1] && wanted[i] == tail[i - 1]; }
      }
    }
  }

  /** The collection meets both conditions for agreement, from this baseline. */
  predicate Agreeable(mounts: seq<string>, base: Baseline, r: Readings) {
    && !(mounts == [] && "/" in r.disk)
    && !(r.counters == Some([]) && base != Baseline(Some(map[]), r.now))
  }

  /** Every collection of the run does, from the sequential collector's baseline. */
  predicate AllAgreeable(mounts: seq<string>, base: Baseline, rs: seq<Readings>)
    decreases rs
  {
    rs != [] ==> Agreeable(mounts, base, rs[0]) && AllAgreeable(mounts, BaselineOf(base, rs[0]), rs[1..])
  }

  /**
   At every collection, from these baselines on, the parallel report is the sequential one up to nil,
   and both carry the same over to the next.
   */
  ghost predicate AgreeThroughout(
    mounts: seq<string>, ifaces: seq<string>, parallel: Baseline, sequential: Baseline, rs: seq<Readings>,
        outs: seq<Stats>)
    requires |outs| == |rs|
    decreases rs
  {
    rs != [] ==>
      var p, q := ParallelBaselineOf(parallel, rs[0]), BaselineOf(sequential, rs[0]);
      && SameUpToNil(outs[0], StatsOf(mounts, ifaces, sequential, rs[0])) && p == q
      && AgreeThroughout(mounts, ifaces, p, q, rs[1..], outs[1..])
  }

  /**
   One collection agrees, in report and baseline, exactly if it is agreeable; mount points filled
   in do not matter.
   */
  lemma CollectionAgreesIff(mounts: seq<string>, filled: seq<string>, ifaces: seq<string>, base: Baseline, r: Readings)
    requires Effective(filled) == Effective(mounts)
    ensures var p := ParallelStatsOf(Collection(ifaces, r, filled, base));
            SameUpToNil(p, StatsOf(mounts, ifaces, base, r)) && ParallelBaselineOf(base, r) == BaselineOf(base, r)
            <==> Agreeable(mounts, base, r)
  {
    var c := Collection(ifaces, r, mounts, base);
    assert ParallelStatsOf(Collection(ifaces, r, filled, base)) == ParallelStatsOf(c);
    StatsAgreeIff(c);
    BaselinesAgreeIff(c);
  }

  /**
   Over any run and under any schedules: the collectors agree at every collection if and only
   if every collection is agreeable.
   */
  lemma {:induction false} RunsAgreeIff(
    mounts: seq<string>, filled: seq<string>, ifaces: seq<string>, base: Baseline, rs: seq<Readings>,
    schedules: seq<seq<Step>>, outs: seq<Stats>, last: Baseline)
    requires ParallelRun(filled, ifaces, base, rs, schedules, outs, last) && Effective(filled) == Effective(mounts)
    ensures |outs| == |rs|
    ensures AgreeThroughout(mounts, ifaces, base, base, rs, outs) <==> AllAgreeable(mounts, base, rs)
    decreases rs
  {
    if rs == [] {
    } else {
      var c := Collection(ifaces, rs[0], filled, base);
      EveryScheduleSameResult(c, schedules[0]);
      CollectionAgreesIff(mounts, filled, ifaces, base, rs[0]);
      if Agreeable(mounts, base, rs[0]) {
        var next := BaselineOf(base, rs[0]);
        RunsAgreeIff(mounts, Effective(filled), ifaces, next, rs[1..], schedules[1..], outs[1..], last);
      }
    }
  }
}
