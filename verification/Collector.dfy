/**
 What one collection computes from the machine's readings, and the collector that takes them
 one after the other. A reading that fails is None, or absent from its map.
 */
module Collector {
  import opened Prelude
  import opened Addresses

  // ----- readings -----

  const WORD := 0x1_0000_0000_0000_0000

  /** An unsigned 64-bit integer. */
  type Word = x: int | 0 <= x < WORD

  datatype Host = Host(hostname: string, platform: string, version: string, uptime: Word)

  datatype LoadAvg = LoadAvg(load1: real, load5: real, load15: real)

  datatype VirtualMemory = VirtualMemory(total: Word, used: Word, free: Word, usedPercent: real)

  datatype SwapMemory = SwapMemory(total: Word, used: Word, usedPercent: real)

  datatype DiskStats = DiskStats(total: Word, used: Word, free: Word, usedPercent: real, fsType: string)

  datatype Counter = Counter(name: string, sent: Word, recv: Word)

  datatype Socket = Stream | Datagram | OtherSocket

  datatype Readings = Readings(
    now: int,
    arch: string,
    host: Option<Host>,
    cpuPercent: Option<seq<real>>,
    cpuModels: Option<seq<string>>,
    load: Option<LoadAvg>,
    memory: Option<VirtualMemory>,
    swap: Option<SwapMemory>,
    disk: map<string, DiskStats>,
    counters: Option<seq<Counter>>,
    interfaces: Option<seq<Option<seq<Addr>>>>,
    connections: Option<seq<Socket>>)

  // ----- statistics -----

  datatype Hardware = Hardware(cpuModel: string, cpuCores: nat, memoryTotal: Word, diskTotal: Word)

  datatype Memory = Memory(total: Word, used: Word, free: Word, usedPercent: real,
                           swapTotal: Word, swapUsed: Word, swapPercent: real)

  /** Speeds are whole bytes per second. */
  datatype InterfaceStats = InterfaceStats(sent: Word, recv: Word, upload: nat, download: nat)

  /** A slice is nil or made; both may have no elements. */
  datatype Slice = Nil | Made(elems: seq<string>) {
    function Elems(): seq<string> { if Nil? then [] else elems }
  }

  datatype Network = Network(
    interfaces: map<string, InterfaceStats>,
    public4: Slice, public6: Slice, private4: Slice, private6: Slice,
    totalSent: Word, totalReceived: Word,
    tcp: nat, udp: nat)

  datatype Stats = Stats(
    timestamp: int, hostname: string, platform: string, uptime: Word,
    hardware: Hardware, load: LoadAvg, cpu: map<string, real>, memory: Memory,
    disk: map<string, DiskStats>, network: Network)

  /** The counters of the last collection that could read them, and when it was. */
  datatype Baseline = Baseline(counters: Option<map<string, Counter>>, at: int)

  const NO_BASELINE := Baseline(None, 0)

  /** The record both collectors start from, host information filled in. */
  function Fresh(r: Readings): Stats {
    var blank := Stats(r.now, "", "", 0, Hardware("", 0, 0, 0), LoadAvg(0.0, 0.0, 0.0), map[],
                       Memory(0, 0, 0, 0.0, 0, 0, 0.0), map[],
                       Network(map[], Made([]), Made([]), Made([]), Made([]), 0, 0, 0, 0));
    if r.host.None? then blank
    else
      var h := r.host.value;
      blank.(hostname := h.hostname, platform := h.platform + " " + h.version + " " + r.arch, uptime := h.uptime)
  }

  // ----- the value of each part -----

  function CpuOf(r: Readings): map<string, real> {
    if r.cpuPercent.Some? && |r.cpuPercent.value| > 0 then map["usage" := r.cpuPercent.value[0]] else map[]
  }

  function ModelOf(r: Readings): string {
    if r.cpuModels.Some? && |r.cpuModels.value| > 0 then r.cpuModels.value[0] else ""
  }

  function CoresOf(r: Readings): nat {
    if r.cpuModels.Some? then |r.cpuModels.value| else 0
  }

  function LoadOf(r: Readings): LoadAvg {
    if r.load.Some? then r.load.value else LoadAvg(0.0, 0.0, 0.0)
  }

  function MemoryOf(r: Readings): Memory {
    var m := if r.memory.Some? then r.memory.value else VirtualMemory(0, 0, 0, 0.0);
    var s := if r.swap.Some? then r.swap.value else SwapMemory(0, 0, 0.0);
    Memory(m.total, m.used, m.free, m.usedPercent, s.total, s.used, s.usedPercent)
  }

  /** The readable ones among the mount points. */
  function DiskOf(mounts: seq<string>, r: Readings): map<string, DiskStats> {
    map m | m in mounts && m in r.disk :: r.disk[m]
  }

  ghost function Pick(m: map<string, DiskStats>): (k: string)
    requires m != map[]
    ensures k in m
  {
    var k :| k in m; k
  }

  lemma SmallerWithout(m: map<string, DiskStats>, k: string)
    requires k in m
    ensures |m - {k}| < |m|
  {
    assert (m - {k}).Keys == m.Keys - {k};
    assert |m - {k}| == |(m - {k}).Keys| && |m| == |m.Keys|;
  }

  /** The capacities of all disks added up. */
  ghost function SumDisk(m: map<string, DiskStats>): nat
    decreases |m|
  {
    if m == map[] then 0 else
    var k := Pick(m);
    assert k in m.Keys && |m - {k}| < |m| by { SmallerWithout(m, k); }
    m[k].total + SumDisk(m - {k})
  }

  lemma {:induction false} SumDiskWithout(m: map<string, DiskStats>, k: string)
    requires k in m
    ensures SumDisk(m) == m[k].total + SumDisk(m - {k})
    decreases |m|
  {
    var j := Pick(m);
    if j == k {
    } else {
      SmallerWithout(m, j);
      SmallerWithout(m, k);
      SumDiskWithout(m - {j}, k);
      SumDiskWithout(m - {k}, j);
      assert m - {j} - {k} == m - {k} - {j};
    }
  }

  /** Adding up in 64 bits along an order. */
  function SumAlong(m: map<string, DiskStats>, order: seq<string>): Word
    requires forall k | k in order :: k in m
  {
    if order == [] then 0
    else
      var n := |order| - 1;
      assert order[n] in order;
      (SumAlong(m, order[..n]) + m[order[n]].total) % WORD
  }

  function Only(m: map<string, DiskStats>, order: seq<string>): map<string, DiskStats> {
    map k | k in m && k in order :: m[k]
  }

  lemma OnlyFront(m: map<string, DiskStats>, order: seq<string>)
    requires order != [] && Distinct(order) && forall k | k in order :: k in m
    ensures var k, front := order[|order| - 1], order[..|order| - 1];
            && k in Only(m, order) && Only(m, order)[k] == m[k]
            && Only(m, order) - {k} == Only(m, front)
            && Distinct(front) && forall j | j in front :: j in m
  {
    var n := |order| - 1;
    var k, front := order[n], order[..n];
    assert k in order;
    forall j ensures j in order <==> j == k || j in front {
      assert order == front + [k];
    }
    assert k !in front;
    assert (Only(m, order) - {k}).Keys == Only(m, front).Keys;
  }

  lemma AddThenWrap(a: nat, b: nat)
    ensures (a % WORD + b) % WORD == (a + b) % WORD
  {
  }

  lemma {:induction false} SumAlongPart(m: map<string, DiskStats>, order: seq<string>)
    requires Distinct(order) && forall k | k in order :: k in m
    ensures SumAlong(m, order) == SumDisk(Only(m, order)) % WORD
  {
    if order == [] {
      assert Only(m, order) == map[];
    } else {
      var n := |order| - 1;
      OnlyFront(m, order);
      SumAlongPart(m, order[..n]);
      SumDiskWithout(Only(m, order), order[n]);
      AddThenWrap(SumDisk(Only(m, order[..n])), m[order[n]].total);
    }
  }

  /** Every order of the map gives the same total: the sum modulo 2^64. */
  lemma SumAlongAnyOrder(m: map<string, DiskStats>, order: seq<string>)
    requires Visits(order, m.Keys)
    ensures SumAlong(m, order) == SumDisk(m) % WORD
  {
    SumAlongPart(m, order);
    assert Only(m, order) == m;
  }

  predicate Wanted(ifaces: seq<string>, name: string) {
    ifaces == [] || name in ifaces
  }

  /** Bytes between two counter values, modulo 2^64: right for a counter that wrapped around at most once. */
  function Wrapped(cur: Word, prev: Word): Word {
    (cur as int - prev as int) % WORD
  }

  /** Bytes per second between two counter values, the difference taken modulo 2^64. */
  function Speed(cur: Word, prev: Word, elapsed: int): nat
    requires elapsed > 0
  {
    Wrapped(cur, prev) * NANOS_PER_SECOND / elapsed
  }

  lemma SpeedBounds(cur: Word, prev: Word, elapsed: int)
    requires elapsed > 0
    ensures var s := Speed(cur, prev, elapsed); var bytes := Wrapped(cur, prev) * NANOS_PER_SECOND;
            s * elapsed <= bytes < s * elapsed + elapsed
  {
  }

  function EntryOf(base: Baseline, now: int, c: Counter): InterfaceStats {
    if base.counters.Some? && c.name in base.counters.value && now > base.at then
      var prev := base.counters.value[c.name];
      InterfaceStats(c.sent, c.recv, Speed(c.sent, prev.sent, now - base.at), Speed(c.recv, prev.recv, now - base.at))
    else
      InterfaceStats(c.sent, c.recv, 0, 0)
  }

  /** A first collection, or one later than the baseline. */
  predicate Listing(base: Baseline, now: int) {
    base.counters.None? || now > base.at
  }

  function Entries(ifaces: seq<string>, base: Baseline, now: int, cs: seq<Counter>): map<string, InterfaceStats> {
    if cs == [] then map[]
    else
      var n := |cs| - 1;
      var m := Entries(ifaces, base, now, cs[..n]);
      if Wanted(ifaces, cs[n].name) then m[cs[n].name := EntryOf(base, now, cs[n])] else m
  }

  function TotalSent(ifaces: seq<string>, cs: seq<Counter>): Word {
    if cs == [] then 0
    else
      var n := |cs| - 1;
      var t := TotalSent(ifaces, cs[..n]);
      if Wanted(ifaces, cs[n].name) then (t as int + cs[n].sent as int) % WORD else t
  }

  function TotalReceived(ifaces: seq<string>, cs: seq<Counter>): Word {
    if cs == [] then 0
    else
      var n := |cs| - 1;
      var t := TotalReceived(ifaces, cs[..n]);
      if Wanted(ifaces, cs[n].name) then (t as int + cs[n].recv as int) % WORD else t
  }

  function ByName(cs: seq<Counter>): map<string, Counter> {
    if cs == [] then map[] else ByName(cs[..|cs| - 1])[cs[|cs| - 1].name := cs[|cs| - 1]]
  }

  function CountOf(kind: Socket, socks: seq<Socket>): nat {
    if socks == [] then 0
    else CountOf(kind, socks[..|socks| - 1]) + if socks[|socks| - 1] == kind then 1 else 0
  }

  function SocketsOf(kind: Socket, r: Readings): nat {
    if r.connections.Some? then CountOf(kind, r.connections.value) else 0
  }

  /** The counters that this collection lists. */
  function Seen(base: Baseline, r: Readings): seq<Counter> {
    if r.counters.Some? && Listing(base, r.now) then r.counters.value else []
  }

  function ListOf(kind: Kind, r: Readings): seq<string> {
    if r.interfaces.Some? then Listed(kind, AllOf(r.interfaces.value)) else []
  }

  function NetworkOf(ifaces: seq<string>, base: Baseline, r: Readings): Network {
    var cs := Seen(base, r);
    Network(
      Entries(ifaces, base, r.now, cs),
      Made(ListOf(PublicV4, r)), Made(ListOf(PublicV6, r)), Made(ListOf(PrivateV4, r)), Made(ListOf(PrivateV6, r)),
      TotalSent(ifaces, cs), TotalReceived(ifaces, cs),
      SocketsOf(Stream, r), SocketsOf(Datagram, r))
  }

  ghost function StatsOf(mounts: seq<string>, ifaces: seq<string>, base: Baseline, r: Readings): Stats {
    var disk := DiskOf(mounts, r);
    Fresh(r).(
      hardware := Hardware(ModelOf(r), CoresOf(r), MemoryOf(r).total, SumDisk(disk) % WORD),
      load := LoadOf(r), cpu := CpuOf(r), memory := MemoryOf(r), disk := disk,
      network := NetworkOf(ifaces, base, r))
  }

  /** What the next collection measures against. */
  function BaselineOf(base: Baseline, r: Readings): Baseline {
    if r.counters.Some? then Baseline(Some(ByName(r.counters.value)), r.now) else base
  }

  // ----- what the folds mean -----

  predicate Names(cs: seq<Counter>, name: string) {
    exists i | 0 <= i < |cs| :: cs[i].name == name
  }

  /** The last of the counters with this name. */
  function Last(cs: seq<Counter>, name: string): (c: Counter)
    requires Names(cs, name)
    ensures c in cs && c.name == name
    ensures exists i | 0 <= i < |cs| :: cs[i] == c && forall j | i < j < |cs| :: cs[j].name != name
  {
    var n := |cs| - 1;
    if cs[n].name == name then cs[n]
    else
      assert forall i | 0 <= i < n :: cs[..n][i] == cs[i];
      assert Names(cs[..n], name);
      var c := Last(cs[..n], name);
      assert forall i | 0 <= i < n :: cs[..n][i] == cs[i];
      c
  }

  lemma NamesSnoc(cs: seq<Counter>, name: string)
    requires cs != []
    ensures Names(cs, name) <==> cs[|cs| - 1].name == name || Names(cs[..|cs| - 1], name)
  {
    var n := |cs| - 1;
    assert forall i | 0 <= i < n :: cs[..n][i] == cs[i];
    if Names(cs[..n], name) {
      var i :| 0 <= i < n && cs[..n][i].name == name;
      assert cs[i].name == name;
    }
  }

  /** The baseline keeps each interface's last reading. */
  lemma {:induction false} ByNameMeaning(cs: seq<Counter>, name: string)
    ensures name in ByName(cs) <==> Names(cs, name)
    ensures Names(cs, name) ==> ByName(cs)[name] == Last(cs, name)
  {
    if cs == [] {
    } else {
      ByNameMeaning(cs[..|cs| - 1], name);
      NamesSnoc(cs, name);
    }
  }

  /** The wanted interfaces are listed, each with its last reading. */
  lemma {:induction false} EntriesMeaning(ifaces: seq<string>, base: Baseline, now: int, cs: seq<Counter>, name: string)
    ensures name in Entries(ifaces, base, now, cs) <==> Wanted(ifaces, name) && Names(cs, name)
    ensures Wanted(ifaces, name) && Names(cs, name) ==>
              Entries(ifaces, base, now, cs)[name] == EntryOf(base, now, Last(cs, name))
  {
    if cs == [] {
    } else {
      EntriesMeaning(ifaces, base, now, cs[..|cs| - 1], name);
      NamesSnoc(cs, name);
    }
  }

  // ----- what a report says, reading by reading -----

  ghost predicate ReportsMachine(stats: Stats, r: Readings) {
    var h, m := stats.hardware, stats.memory;
    && stats.timestamp == r.now
    && (if r.host.Some? then
          && stats.hostname == r.host.value.hostname && stats.uptime == r.host.value.uptime
          && stats.platform == r.host.value.platform + " " + r.host.value.version + " " + r.arch
        else stats.hostname == "" && stats.platform == "" && stats.uptime == 0)
    && (if r.cpuPercent.Some? && r.cpuPercent.value != [] then stats.cpu == map["usage" := r.cpuPercent.value[0]]
        else stats.cpu == map[])
    && (if r.cpuModels.Some? && r.cpuModels.value != []
        then h.cpuModel == r.cpuModels.value[0] && h.cpuCores == |r.cpuModels.value|
        else h.cpuModel == "" && h.cpuCores == 0)
    && (r.load.Some? ==> stats.load == r.load.value)
    && (r.load.None? ==> stats.load.load1 == stats.load.load5 == stats.load.load15 == 0.0)
    && (if r.memory.Some? then
          && m.total == r.memory.value.total && m.used == r.memory.value.used
          && m.free == r.memory.value.free && m.usedPercent == r.memory.value.usedPercent
        else m.total == m.used == m.free == 0 && m.usedPercent == 0.0)
    && (if r.swap.Some? then
          && m.swapTotal == r.swap.value.total && m.swapUsed == r.swap.value.used
          && m.swapPercent == r.swap.value.usedPercent
        else m.swapTotal == m.swapUsed == 0 && m.swapPercent == 0.0)
    && h.memoryTotal == m.total
  }

  ghost predicate ReportsDisks(stats: Stats, mounts: seq<string>, r: Readings) {
    && (forall m :: m in stats.disk <==> m in mounts && m in r.disk)
    && (forall m | m in stats.disk :: stats.disk[m] == r.disk[m])
    && stats.hardware.diskTotal == SumDisk(stats.disk) % WORD
  }

  /** An entry has the counter's values, and speeds floored since the baseline's, if it has the name. */
  ghost predicate IsEntry(e: InterfaceStats, c: Counter, base: Baseline, now: int) {
    && e.sent == c.sent && e.recv == c.recv
    && if base.counters.Some? && c.name in base.counters.value && now > base.at then
         var prev, ns := base.counters.value[c.name], now - base.at;
         && e.upload * ns <= Wrapped(c.sent, prev.sent) * NANOS_PER_SECOND < (e.upload + 1) * ns
         && e.download * ns <= Wrapped(c.recv, prev.recv) * NANOS_PER_SECOND < (e.download + 1) * ns
       else e.upload == 0 && e.download == 0
  }

  ghost function Sum(xs: seq<int>): int {
    if xs == [] then 0 else Sum(xs[..|xs| - 1]) + xs[|xs| - 1]
  }

  /** The places of the counters that are wanted, and both columns at these places. */
  ghost predicate IsWantedAt(ifaces: seq<string>, cs: seq<Counter>, ps: seq<nat>, sent: seq<int>, recv: seq<int>) {
    && (forall i, j | 0 <= i < j < |ps| :: ps[i] < ps[j])
    && (forall i: nat | i < |cs| :: i in ps <==> ifaces == [] || cs[i].name in ifaces)
    && |sent| == |recv| == |ps|
    && forall j | 0 <= j < |ps| :: ps[j] < |cs| && sent[j] == cs[ps[j]].sent && recv[j] == cs[ps[j]].recv
  }

  lemma WantedMore(ifaces: seq<string>, cs: seq<Counter>, ps: seq<nat>, sent: seq<int>, recv: seq<int>, c: Counter)
    requires IsWantedAt(ifaces, cs, ps, sent, recv)
    ensures if Wanted(ifaces, c.name)
            then IsWantedAt(ifaces, cs + [c], ps + [|cs|], sent + [c.sent], recv + [c.recv])
            else IsWantedAt(ifaces, cs + [c], ps, sent, recv)
  {
    var more := cs + [c];
    assert forall i | 0 <= i < |cs| :: more[i] == cs[i];
    if Wanted(ifaces, c.name) {
      var qs := ps + [|cs|];
      forall i: nat | i < |more| ensures i in qs <==> ifaces == [] || more[i].name in ifaces {
        assert i in qs <==> i in ps || i == |cs|;
      }
    }
  }

  lemma SumMore(xs: seq<int>, x: int)
    ensures Sum(xs + [x]) == Sum(xs) + x
    ensures (Sum(xs) % WORD + x) % WORD == Sum(xs + [x]) % WORD
  {
    assert (xs + [x])[..|xs|] == xs;
  }

  ghost predicate AreTotals(ifaces: seq<string>, cs: seq<Counter>, sent: seq<int>, recv: seq<int>) {
    TotalSent(ifaces, cs) == Sum(sent) % WORD && TotalReceived(ifaces, cs) == Sum(recv) % WORD
  }

  lemma TotalsMore(ifaces: seq<string>, cs: seq<Counter>, sent: seq<int>, recv: seq<int>, c: Counter)
    requires AreTotals(ifaces, cs, sent, recv)
    ensures if Wanted(ifaces, c.name) then AreTotals(ifaces, cs + [c], sent + [c.sent], recv + [c.recv])
            else AreTotals(ifaces, cs + [c], sent, recv)
  {
    assert (cs + [c])[..|cs|] == cs;
    SumMore(sent, c.sent);
    SumMore(recv, c.recv);
  }

  ghost function WantedPlaces(ifaces: seq<string>, cs: seq<Counter>): seq<nat> {
    if cs == [] then []
    else
      var n := |cs| - 1;
      WantedPlaces(ifaces, cs[..n]) + if Wanted(ifaces, cs[n].name) then [n] else []
  }

  ghost function WantedSent(ifaces: seq<string>, cs: seq<Counter>): seq<int> {
    if cs == [] then []
    else
      var n := |cs| - 1;
      WantedSent(ifaces, cs[..n]) + if Wanted(ifaces, cs[n].name) then [cs[n].sent] else []
  }

  ghost function WantedReceived(ifaces: seq<string>, cs: seq<Counter>): seq<int> {
    if cs == [] then []
    else
      var n := |cs| - 1;
      WantedReceived(ifaces, cs[..n]) + if Wanted(ifaces, cs[n].name) then [cs[n].recv] else []
  }

  lemma {:induction false} WantedColumns(ifaces: seq<string>, cs: seq<Counter>)
    ensures IsWantedAt(ifaces, cs, WantedPlaces(ifaces, cs), WantedSent(ifaces, cs), WantedReceived(ifaces, cs))
  {
    if cs == [] {
    } else {
      var n := |cs| - 1;
      var front := cs[..n];
      WantedColumns(ifaces, front);
      WantedMore(
        ifaces, front, WantedPlaces(ifaces, front), WantedSent(ifaces, front), WantedReceived(ifaces, front), cs[n]);
      assert cs == front + [cs[n]];
      if Wanted(ifaces, cs[n].name) {
        assert WantedPlaces(ifaces, cs) == WantedPlaces(ifaces, front) + [|front|];
      } else {
        assert WantedPlaces(ifaces, cs) == WantedPlaces(ifaces, front);
        assert WantedSent(ifaces, cs) == WantedSent(ifaces, front);
        assert WantedReceived(ifaces, cs) == WantedReceived(ifaces, front);
      }
    }
  }

  /** The totals are the sums of both columns of the wanted counters. */
  lemma {:induction false} TotalsAreSums(ifaces: seq<string>, cs: seq<Counter>)
    ensures AreTotals(ifaces, cs, WantedSent(ifaces, cs), WantedReceived(ifaces, cs))
  {
    if cs == [] {
    } else {
      var n := |cs| - 1;
      var front := cs[..n];
      TotalsAreSums(ifaces, front);
      TotalsMore(ifaces, front, WantedSent(ifaces, front), WantedReceived(ifaces, front), cs[n]);
      assert cs == front + [cs[n]];
      if !Wanted(ifaces, cs[n].name) {
        assert WantedSent(ifaces, cs) == WantedSent(ifaces, front);
        assert WantedReceived(ifaces, cs) == WantedReceived(ifaces, front);
      }
    }
  }

  /** The sockets of one kind, place by place. */
  ghost predicate IsSocketAt(kind: Socket, socks: seq<Socket>, ps: seq<nat>) {
    && (forall i, j | 0 <= i < j < |ps| :: ps[i] < ps[j])
    && (forall i: nat :: i in ps <==> i < |socks| && socks[i] == kind)
  }

  lemma SocketMore(kind: Socket, socks: seq<Socket>, ps: seq<nat>, s: Socket)
    requires IsSocketAt(kind, socks, ps)
    ensures if s == kind then IsSocketAt(kind, socks + [s], ps + [|socks|]) else IsSocketAt(kind, socks + [s], ps)
  {
    var more, qs := socks + [s], ps + [|socks|];
    assert forall i | 0 <= i < |socks| :: more[i] == socks[i];
    forall i: nat ensures i in qs <==> i in ps || i == |socks| {}
    forall i | 0 <= i < |ps| ensures ps[i] < |socks| { assert ps[i] in ps; }
  }

  lemma {:induction false} CountIsNumber(kind: Socket, socks: seq<Socket>) returns (ps: seq<nat>)
    ensures IsSocketAt(kind, socks, ps) && CountOf(kind, socks) == |ps|
  {
    if socks == [] {
      ps := [];
    } else {
      var n := |socks| - 1;
      ps := CountIsNumber(kind, socks[..n]);
      SocketMore(kind, socks[..n], ps, socks[n]);
      assert socks == socks[..n] + [socks[n]];
      if socks[n] == kind {
        ps := ps + [n];
      }
    }
  }

  ghost predicate ReportsSockets(n: Network, r: Readings) {
    var socks := if r.connections.Some? then r.connections.value else [];
    && (exists ps :: IsSocketAt(Stream, socks, ps) && n.tcp == |ps|)
    && (exists ps :: IsSocketAt(Datagram, socks, ps) && n.udp == |ps|)
  }

  ghost predicate ReportsAddresses(n: Network, r: Readings) {
    var all := if r.interfaces.Some? then AllOf(r.interfaces.value) else [];
    && IsList(n.public4.Elems(), all, false, true) && IsList(n.private4.Elems(), all, true, true)
    && IsList(n.public6.Elems(), all, false, false) && IsList(n.private6.Elems(), all, true, false)
  }

  /** The counters are gone through on a first collection, or on one later than the baseline. */
  ghost predicate ReportsCounters(n: Network, ifaces: seq<string>, base: Baseline, r: Readings) {
    var cs := if r.counters.Some? && (base.counters.None? || r.now > base.at) then r.counters.value else [];
    && (forall name :: name in n.interfaces <==> (ifaces == [] || name in ifaces) && Names(cs, name))
    && (forall name | name in n.interfaces :: IsEntry(n.interfaces[name], Last(cs, name), base, r.now))
    && exists ps, sent, recv ::
         IsWantedAt(ifaces, cs, ps, sent, recv) &&
         n.totalSent == Sum(sent) % WORD && n.totalReceived == Sum(recv) % WORD
  }

  /** The next baseline: each interface's last counter, and when; after a failed reading, the old one. */
  ghost predicate Carries(was: Baseline, now: Baseline, r: Readings) {
    if r.counters.None? then now == was
    else
      && now.counters.Some? && now.at == r.now
      && (forall name :: name in now.counters.value <==> Names(r.counters.value, name))
      && forall name | name in now.counters.value :: now.counters.value[name] == Last(r.counters.value, name)
  }

  ghost predicate IsReport(stats: Stats, mounts: seq<string>, ifaces: seq<string>, base: Baseline, r: Readings) {
    && ReportsMachine(stats, r) && ReportsDisks(stats, mounts, r) && ReportsSockets(stats.network, r)
    && ReportsAddresses(stats.network, r) && ReportsCounters(stats.network, ifaces, base, r)
  }

  lemma EntryMeaning(base: Baseline, now: int, c: Counter)
    ensures IsEntry(EntryOf(base, now, c), c, base, now)
  {
    if base.counters.Some? && c.name in base.counters.value && now > base.at {
      var prev := base.counters.value[c.name];
      SpeedBounds(c.sent, prev.sent, now - base.at);
      SpeedBounds(c.recv, prev.recv, now - base.at);
    }
  }

  lemma {:induction false} CountersReported(n: Network, ifaces: seq<string>, base: Baseline, r: Readings)
    requires n.interfaces == NetworkOf(ifaces, base, r).interfaces
    requires n.totalSent == NetworkOf(ifaces, base, r).totalSent
    requires n.totalReceived == NetworkOf(ifaces, base, r).totalReceived
    ensures ReportsCounters(n, ifaces, base, r)
  {
    var cs := Seen(base, r);
    forall name
      ensures name in n.interfaces <==> Wanted(ifaces, name) && Names(cs, name)
      ensures name in n.interfaces ==> IsEntry(n.interfaces[name], Last(cs, name), base, r.now)
    {
      EntriesMeaning(ifaces, base, r.now, cs, name);
      if name in n.interfaces {
        EntryMeaning(base, r.now, Last(cs, name));
      }
    }
    TotalsAreSums(ifaces, cs);
    WantedColumns(ifaces, cs);
  }

  lemma AddressesReported(n: Network, r: Readings)
    requires n.public4.Elems() == ListOf(PublicV4, r) && n.private4.Elems() == ListOf(PrivateV4, r)
    requires n.public6.Elems() == ListOf(PublicV6, r) && n.private6.Elems() == ListOf(PrivateV6, r)
    ensures ReportsAddresses(n, r)
  {
    FourLists(if r.interfaces.Some? then AllOf(r.interfaces.value) else []);
  }

  lemma SocketsReported(n: Network, r: Readings)
    requires n.tcp == SocketsOf(Stream, r) && n.udp == SocketsOf(Datagram, r)
    ensures ReportsSockets(n, r)
  {
    var socks := if r.connections.Some? then r.connections.value else [];
    var ps := CountIsNumber(Stream, socks);
    var qs := CountIsNumber(Datagram, socks);
  }

  /** Equal but for which of nil and empty the address lists are. */
  ghost predicate SameLists(n: Network, w: Network) {
    && n == w.(public4 := n.public4, public6 := n.public6, private4 := n.private4, private6 := n.private6)
    && n.public4.Elems() == w.public4.Elems() && n.public6.Elems() == w.public6.Elems()
    && n.private4.Elems() == w.private4.Elems() && n.private6.Elems() == w.private6.Elems()
  }

  lemma {:induction false} NetworkReported(n: Network, ifaces: seq<string>, base: Baseline, r: Readings)
    requires SameLists(n, NetworkOf(ifaces, base, r))
    ensures ReportsCounters(n, ifaces, base, r) && ReportsAddresses(n, r) && ReportsSockets(n, r)
  {
    CountersReported(n, ifaces, base, r);
    AddressesReported(n, r);
    SocketsReported(n, r);
  }

  lemma {:induction false} MachineReported(mounts: seq<string>, ifaces: seq<string>, base: Baseline, r: Readings)
    ensures ReportsMachine(StatsOf(mounts, ifaces, base, r), r)
    ensures ReportsDisks(StatsOf(mounts, ifaces, base, r), mounts, r)
  {
  }

  /** The statistics specified are such a report. */
  lemma {:induction false} StatsMeaning(
    stats: Stats, mounts: seq<string>, ifaces: seq<string>, base: Baseline, r: Readings)
    requires stats == StatsOf(mounts, ifaces, base, r).(network := stats.network)
    requires SameLists(stats.network, NetworkOf(ifaces, base, r))
    ensures IsReport(stats, mounts, ifaces, base, r)
  {
    MachineReported(mounts, ifaces, base, r);
    NetworkReported(stats.network, ifaces, base, r);
  }

  lemma {:induction false} BaselineMeaning(base: Baseline, r: Readings)
    ensures Carries(base, BaselineOf(base, r), r)
  {
    if r.counters.Some? {
      forall name
        ensures name in ByName(r.counters.value) <==> Names(r.counters.value, name)
        ensures Names(r.counters.value, name) ==> ByName(r.counters.value)[name] == Last(r.counters.value, name)
      {
        ByNameMeaning(r.counters.value, name);
      }
    }
  }

  // ----- the sequential collector -----

  method ContainsString(slice: seq<string>, s: string) returns (found: bool)
    ensures found <==> s in slice
  {
    for i := 0 to |slice|
      invariant s !in slice[..i]
    {
      if slice[i] == s {
        return true;
      }
      assert slice[..i + 1] == slice[..i] + [slice[i]];
    }
    assert slice[..|slice|] == slice;
    return false;
  }

  method IsWanted(ifaces: seq<string>, name: string) returns (wanted: bool)
    ensures wanted <==> Wanted(ifaces, name)
  {
    wanted := |ifaces| == 0;
    if !wanted {
      wanted := ContainsString(ifaces, name);
    }
  }

  /** Adds up over the map in whatever order the loop takes. */
  method TotalDiskSpace(disk: map<string, DiskStats>) returns (total: Word)
    ensures total == SumDisk(disk) % WORD
  {
    var order := AnyOrder(disk.Keys);
    total := 0;
    for i := 0 to |order|
      invariant total == SumAlong(disk, order[..i])
    {
      assert order[i] in order;
      assert order[..i + 1][..i] == order[..i];
      total := (total as int + disk[order[i]].total as int) % WORD;
    }
    assert order[..|order|] == order;
    SumAlongAnyOrder(disk, order);
  }

  method CollectDisks(mounts: seq<string>, r: Readings) returns (disk: map<string, DiskStats>, total: Word)
    ensures disk == DiskOf(mounts, r) && total == SumDisk(disk) % WORD
  {
    disk := map[];
    for i := 0 to |mounts|
      invariant disk == DiskOf(mounts[..i], r)
    {
      assert mounts[..i + 1] == mounts[..i] + [mounts[i]];
      if mounts[i] in r.disk {
        disk := disk[mounts[i] := r.disk[mounts[i]]];
      }
    }
    assert mounts[..|mounts|] == mounts;
    total := TotalDiskSpace(disk);
  }

  method CollectCounters(ifaces: seq<string>, base: Baseline, now: int, cs: seq<Counter>)
    returns (entries: map<string, InterfaceStats>, sent: Word, recv: Word)
    requires Listing(base, now)
    ensures entries == Entries(ifaces, base, now, cs)
    ensures sent == TotalSent(ifaces, cs) && recv == TotalReceived(ifaces, cs)
  {
    entries, sent, recv := map[], 0, 0;
    for i := 0 to |cs|
      invariant entries == Entries(ifaces, base, now, cs[..i])
      invariant sent == TotalSent(ifaces, cs[..i]) && recv == TotalReceived(ifaces, cs[..i])
    {
      var c := cs[i];
      assert cs[..i + 1][..i] == cs[..i] && cs[..i + 1][i] == c;
      var wanted := IsWanted(ifaces, c.name);
      if wanted {
        var upload, download := 0, 0;
        if base.counters.Some? && c.name in base.counters.value && now > base.at {
          var prev := base.counters.value[c.name];
          upload := Speed(c.sent, prev.sent, now - base.at);
          download := Speed(c.recv, prev.recv, now - base.at);
        }
        entries := entries[c.name := InterfaceStats(c.sent, c.recv, upload, download)];
        sent := (sent as int + c.sent as int) % WORD;
        recv := (recv as int + c.recv as int) % WORD;
      }
    }
    assert cs[..|cs|] == cs;
  }

  method IndexByName(cs: seq<Counter>) returns (m: map<string, Counter>)
    ensures m == ByName(cs)
  {
    m := map[];
    for i := 0 to |cs|
      invariant m == ByName(cs[..i])
    {
      assert cs[..i + 1][..i] == cs[..i];
      m := m[cs[i].name := cs[i]];
    }
    assert cs[..|cs|] == cs;
  }

  method CountSockets(socks: seq<Socket>) returns (tcp: nat, udp: nat)
    ensures tcp == CountOf(Stream, socks) && udp == CountOf(Datagram, socks)
  {
    tcp, udp := 0, 0;
    for i := 0 to |socks|
      invariant tcp == CountOf(Stream, socks[..i]) && udp == CountOf(Datagram, socks[..i])
    {
      assert socks[..i + 1][..i] == socks[..i];
      if socks[i] == Stream {
        tcp := tcp + 1;
      } else if socks[i] == Datagram {
        udp := udp + 1;
      }
    }
    assert socks[..|socks|] == socks;
  }

  class SystemCollector {
    var mountPoints: seq<string>
    var interfaces: seq<string>
    var baseline: Baseline

    constructor (mounts: Option<seq<string>>, ifaces: Option<seq<string>>)
      ensures mountPoints == if mounts.Some? then mounts.value else ["/"]
      ensures interfaces == if ifaces.Some? then ifaces.value else []
      ensures baseline == NO_BASELINE
    {
      mountPoints := if mounts.Some? then mounts.value else ["/"];
      interfaces := if ifaces.Some? then ifaces.value else [];
      baseline := NO_BASELINE;
    }

    /** Host, processors, load and memory. */
    method CollectMachine(r: Readings) returns (stats: Stats)
      ensures stats == Fresh(r).(hardware := Hardware(ModelOf(r), CoresOf(r), MemoryOf(r).total, 0),
                                 load := LoadOf(r), cpu := CpuOf(r), memory := MemoryOf(r))
    {
      stats := Fresh(r);
      if r.memory.Some? {
        stats := stats.(hardware := stats.hardware.(memoryTotal := r.memory.value.total));
      }
      if r.cpuPercent.Some? && |r.cpuPercent.value| > 0 {
        stats := stats.(cpu := stats.cpu["usage" := r.cpuPercent.value[0]]);
      }
      if r.cpuModels.Some? && |r.cpuModels.value| > 0 {
        stats := stats.(hardware := stats.hardware.(cpuModel := r.cpuModels.value[0], cpuCores := |r.cpuModels.value|));
      }
      if r.load.Some? {
        stats := stats.(load := r.load.value);
      }
      if r.memory.Some? {
        var m := r.memory.value;
        stats := stats.(memory := stats.memory.(total := m.total, used := m.used, free := m.free,
            usedPercent := m.usedPercent));
      }
      if r.swap.Some? {
        var s := r.swap.value;
        stats := stats.(memory := stats.memory.(swapTotal := s.total, swapUsed := s.used,
            swapPercent := s.usedPercent));
      }
    }

    method CollectNetwork(blank: Network, r: Readings) returns (network: Network)
      requires blank == Fresh(r).network
      modifies this`baseline
      ensures network == NetworkOf(interfaces, old(baseline), r)
      ensures baseline == BaselineOf(old(baseline), r)
    {
      network := blank;
      if r.counters.Some? {
        var cs := r.counters.value;
        if Listing(baseline, r.now) {
          var entries, sent, recv := CollectCounters(interfaces, baseline, r.now, cs);
          network := network.(interfaces := entries, totalSent := sent, totalReceived := recv);
        }
        var byName := IndexByName(cs);
        baseline := Baseline(Some(byName), r.now);
      }
      if r.interfaces.Some? {
        var public4, public6, private4, private6 := SortAddresses(r.interfaces.value);
        network := network.(public4 := Made(public4), public6 := Made(public6),
                            private4 := Made(private4), private6 := Made(private6));
      }
      if r.connections.Some? {
        var tcp, udp := CountSockets(r.connections.value);
        network := network.(tcp := tcp, udp := udp);
      }
    }

    method Collect(r: Readings) returns (stats: Stats)
      modifies this`baseline
      ensures stats == StatsOf(mountPoints, interfaces, old(baseline), r)
      ensures baseline == BaselineOf(old(baseline), r)
      ensures IsReport(stats, mountPoints, interfaces, old(baseline), r) && Carries(old(baseline), baseline, r)
    {
      stats := CollectMachine(r);
      var disk, total := CollectDisks(mountPoints, r);
      stats := stats.(disk := disk, hardware := stats.hardware.(diskTotal := total));
      var network := CollectNetwork(stats.network, r);
      stats := stats.(network := network);
      StatsMeaning(stats, mountPoints, interfaces, old(baseline), r);
      BaselineMeaning(old(baseline), r);
    }
  }
}
