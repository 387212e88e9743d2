/**
 The telemetry delivery protocol: agents that report with retries, the
 aggregator's last-write-wins cache, its ticker that snapshots under the lock and
 forwards outside it, and the control plane's bounded log. One step is one
 atomic action of one component; a run is any sequence of enabled steps.

 Reports carry their number here so that order can be spoken of; no step looks at it.
 An attempt may take effect after its sender has moved on: an agent's report can land late,
 and a forward whose reply did not come in time can be stored late. Which of these keep
 every history in order is a guard on the state, `Harmless`, proved exact.
 */
module Delivery {
  import opened Prelude
  import opened MemoryStore
  import opened Telemetry

  /** The payload of an agent's report, with its place in that agent's sequence. */
  datatype Report = Report(number: nat, fields: Fields)

  datatype Phase = Idle | Sending(attempt: nat, landed: bool)

  /** An agent process: everything it has set out to report, and where its retry loop stands. */
  datatype Agent = Agent(reported: seq<Fields>, phase: Phase)

  datatype Ticker =
    | Resting
    | Forwarding(left: map<NodeId, Report>)
    | InFlight(left: map<NodeId, Report>, node: NodeId, message: Report, landed: bool)

  /** A forward that the ticker has given up on before it was stored. */
  datatype Stray = Stray(node: NodeId, message: Report)

  datatype State = State(
    clock: int,                         // the aggregator's
    serverClock: int,                   // the control plane's
    agents: map<NodeId, Agent>,
    cache: map<NodeId, Report>,
    ticker: Ticker,
    strays: multiset<Stray>,
    history: map<NodeId, Log<Report>>,  // everything the control plane ever stored
    log: map<NodeId, Log<Report>>)      // what it keeps

  datatype Config = Config(retryCount: NodeId -> nat, maxItems: nat)

  datatype Step =
    | Elapse(time: nat, serverTime: nat)
    | Begin(id: NodeId, fields: Fields)    // Report is called
    | Land(id: NodeId)                     // the aggregator's handler caches the payload
    | Acknowledge(id: NodeId)              // the agent reads a success reply
    | AttemptFails(id: NodeId)             // no reply, a lost reply or an error status
    | Snapshot                             // the tick copies the cache
    | Forward(id: NodeId)                  // the tick stamps and sends one copy
    | Store                                // the control plane's handler stamps and stores it
    | ForwardReturns                       // the forward ends, in success, error or timeout
    | EndTick
    | LandLate(id: NodeId, number: nat)    // an attempt its sender has given up on lands after all
    | StoreLate(stray: Stray)              // a forward the ticker has given up on is stored after all

  function AgentOf(s: State, id: NodeId): Agent {
    if id in s.agents then s.agents[id] else Agent([], Idle)
  }

  function Left(s: State): map<NodeId, Report> {
    if s.ticker.Resting? then map[] else s.ticker.left
  }

  predicate Enabled(cfg: Config, s: State, step: Step) {
    match step
    case Elapse(_, _) => true
    case Begin(id, _) => AgentOf(s, id).phase.Idle?
    case Land(id) => AgentOf(s, id).phase.Sending? && !AgentOf(s, id).phase.landed && AgentOf(s, id).reported != []
    case Acknowledge(id) => AgentOf(s, id).phase.Sending? && AgentOf(s, id).phase.landed
    case AttemptFails(id) => AgentOf(s, id).phase.Sending?
    case Snapshot => s.ticker.Resting?
    case Forward(id) => s.ticker.Forwarding? && id in s.ticker.left
    case Store => s.ticker.InFlight? && !s.ticker.landed
    case ForwardReturns => s.ticker.InFlight?
    case EndTick => s.ticker.Forwarding? && s.ticker.left == map[]
    case LandLate(id, number) => number < |AgentOf(s, id).reported|
    case StoreLate(stray) => stray in s.strays
  }

  function WithPhase(s: State, id: NodeId, phase: Phase): State {
    s.(agents := s.agents[id := AgentOf(s, id).(phase := phase)])
  }

  function Cached(s: State, id: NodeId, number: nat): State
    requires number < |AgentOf(s, id).reported|
  {
    s.(cache := s.cache[id := Report(number, Stamped(AgentOf(s, id).reported[number], AGGREGATOR_RECEIVED, s.clock))])
  }

  /** The entry a message becomes. */
  function EntryOf(s: State, message: Report): MetricsEntry<Report> {
    MetricsEntry(s.serverClock, message.(fields := Stamped(message.fields, RECEIVED, s.serverClock)))
  }

  function Stored(cfg: Config, s: State, id: NodeId, message: Report): State {
    var entry := EntryOf(s, message);
    s.(history := s.history[id := LogOf(s.history, id) + [entry]],
       log := s.log[id := Newest(LogOf(s.log, id) + [entry], cfg.maxItems)])
  }

  function Apply(cfg: Config, s: State, step: Step): State
    requires Enabled(cfg, s, step)
  {
    match step
    case Elapse(time, serverTime) => s.(clock := s.clock + time, serverClock := s.serverClock + serverTime)
    case Begin(id, fields) =>
      s.(agents := s.agents[id := Agent(AgentOf(s, id).reported + [fields], Sending(0, false))])
    case Land(id) =>
      WithPhase(Cached(s, id, |AgentOf(s, id).reported| - 1), id, AgentOf(s, id).phase.(landed := true))
    case Acknowledge(id) => WithPhase(s, id, Idle)
    case AttemptFails(id) =>
      var attempt := AgentOf(s, id).phase.attempt;
      WithPhase(s, id, if attempt < cfg.retryCount(id) then Sending(attempt + 1, false) else Idle)
    case Snapshot => s.(ticker := Forwarding(s.cache))
    case Forward(id) =>
      var copy := s.ticker.left[id];
      var message := copy.(fields := Stamped(copy.fields, PROCESSED, s.clock));
      s.(ticker := InFlight(s.ticker.left - {id}, id, message, false))
    case Store =>
      Stored(cfg, s, s.ticker.node, s.ticker.message).(ticker := s.ticker.(landed := true))
    case ForwardReturns =>
      var stray := Stray(s.ticker.node, s.ticker.message);
      s.(ticker := Forwarding(s.ticker.left),
         strays := if s.ticker.landed then s.strays else s.strays + multiset{stray})
    case EndTick => s.(ticker := Resting)
    case LandLate(id, number) => Cached(s, id, number)
    case StoreLate(stray) => Stored(cfg, s, stray.node, stray.message).(strays := s.strays - multiset{stray})
  }

  /** `fields` with one key set to the whole seconds of a clock. */
  ghost predicate IsStamped(was: Fields, fields: Fields, key: string, clock: int) {
    && fields.Keys == was.Keys + {key}
    && (forall k | k in was && k != key :: fields[k] == was[k])
    && fields[key].JNum? && fields[key].n * 1_000_000_000 <= clock < (fields[key].n + 1) * 1_000_000_000
  }

  lemma StampIsStamped(fields: Fields, key: string, now: int)
    ensures IsStamped(fields, Stamped(fields, key, now), key, now)
  {
    UnixMeaning(now);
  }

  /** One node's report is cached, stamped; no other changes. */
  ghost predicate IsCachedAs(s: State, t: State, id: NodeId, number: nat) {
    && number < |AgentOf(s, id).reported|
    && t.cache.Keys == s.cache.Keys + {id} && t.cache[id].number == number
    && IsStamped(AgentOf(s, id).reported[number], t.cache[id].fields, "aggregator_received_at", s.clock)
    && forall other | other in s.cache && other != id :: t.cache[other] == s.cache[other]
  }

  /** One node's copy is taken and sent, stamped. */
  ghost predicate IsSentAs(s: State, t: State, id: NodeId) {
    && t.ticker.InFlight? && t.ticker.node == id && !t.ticker.landed
    && !s.ticker.Resting? && id in s.ticker.left && t.ticker.left == s.ticker.left - {id}
    && t.ticker.message.number == s.ticker.left[id].number
    && IsStamped(s.ticker.left[id].fields, t.ticker.message.fields, "processed_at", s.clock)
  }

  /** The history of one node grows by the message, stamped. */
  ghost predicate IsStoredAs(s: State, t: State, id: NodeId, message: Report) {
    && t.history.Keys == s.history.Keys + {id}
    && (forall other | other in s.history && other != id :: t.history[other] == s.history[other])
    && t.history[id] != []
    && t.history[id][..|t.history[id]| - 1] == (if id in s.history then s.history[id] else [])
    && var entry := t.history[id][|t.history[id]| - 1];
    && entry.timestamp == s.serverClock && entry.data.number == message.number
    && IsStamped(message.fields, entry.data.fields, "received_at", s.serverClock)
  }

  lemma CachedMeaning(s: State, id: NodeId, number: nat)
    requires number < |AgentOf(s, id).reported|
    ensures IsCachedAs(s, Cached(s, id, number), id, number)
  {
    StampIsStamped(AgentOf(s, id).reported[number], AGGREGATOR_RECEIVED, s.clock);
  }

  lemma SentMeaning(cfg: Config, s: State, id: NodeId)
    requires Enabled(cfg, s, Forward(id))
    ensures IsSentAs(s, Apply(cfg, s, Forward(id)), id)
  {
    StampIsStamped(s.ticker.left[id].fields, PROCESSED, s.clock);
  }

  lemma StoredMeaning(cfg: Config, s: State, id: NodeId, message: Report)
    ensures IsStoredAs(s, Stored(cfg, s, id, message), id, message)
  {
    StampIsStamped(message.fields, RECEIVED, s.serverClock);
    assert Stored(cfg, s, id, message).history[id] == LogOf(s.history, id) + [EntryOf(s, message)];
  }

  /** What each step caches, copies, sends and stores, with the times it stamps; all others do none of it. */
  lemma StepMeaning(cfg: Config, s: State, step: Step)
    requires Enabled(cfg, s, step)
    ensures var t := Apply(cfg, s, step);
            match step
            case Land(id) => IsCachedAs(s, t, id, |AgentOf(s, id).reported| - 1)
            case LandLate(id, number) => IsCachedAs(s, t, id, number)
            case Snapshot => t.ticker == Forwarding(s.cache) && t.cache == s.cache
            case Forward(id) => IsSentAs(s, t, id)
            case Store => IsStoredAs(s, t, s.ticker.node, s.ticker.message)
            case StoreLate(stray) => IsStoredAs(s, t, stray.node, stray.message)
            case _ => t.cache == s.cache && t.history == s.history && t.log == s.log
  {
    match step
    case Land(id) => CachedMeaning(s, id, |AgentOf(s, id).reported| - 1);
    case LandLate(id, number) => CachedMeaning(s, id, number);
    case Forward(id) => SentMeaning(cfg, s, id);
    case Store => StoredMeaning(cfg, s, s.ticker.node, s.ticker.message);
    case StoreLate(stray) => StoredMeaning(cfg, s, stray.node, stray.message);
    case _ =>
  }

  /** `steps` is a run from `s` to `t`. */
  ghost predicate Leads(cfg: Config, s: State, steps: seq<Step>, t: State)
    decreases |steps|
  {
    if steps == [] then s == t
    else Enabled(cfg, s, steps[0]) && Leads(cfg, Apply(cfg, s, steps[0]), steps[1..], t)
  }

  lemma LeadsFirst(cfg: Config, s: State, step: Step, rest: seq<Step>, t: State)
    requires Leads(cfg, s, [step] + rest, t)
    ensures Enabled(cfg, s, step) && Leads(cfg, Apply(cfg, s, step), rest, t)
  {
    assert ([step] + rest)[1..] == rest;
  }

  lemma LeadsOne(cfg: Config, s: State, step: Step)
    requires Enabled(cfg, s, step)
    ensures Leads(cfg, s, [step], Apply(cfg, s, step))
  {
    assert [step][1..] == [];
  }

  lemma {:induction false} LeadsSnoc(cfg: Config, s: State, steps: seq<Step>, t: State, step: Step)
    requires Leads(cfg, s, steps, t) && Enabled(cfg, t, step)
    ensures Leads(cfg, s, steps + [step], Apply(cfg, t, step))
    decreases |steps|
  {
    if steps == [] {
      assert [] + [step] == [step];
      LeadsOne(cfg, s, step);
    } else {
      LeadsSnoc(cfg, Apply(cfg, s, steps[0]), steps[1..], t, step);
      assert (steps + [step])[1..] == steps[1..] + [step];
    }
  }

  /** The message in flight of a node that the control plane has not stored yet. */
  predicate Pending(s: State, id: NodeId) {
    s.ticker.InFlight? && s.ticker.node == id && !s.ticker.landed
  }

  /** No stored report is newer than number `n`. */
  predicate NoneAfter(log: Log<Report>, n: nat) {
    forall i | 0 <= i < |log| :: log[i].data.number <= n
  }

  /**
   A late landing is harmless when nothing newer of its node is stored or on its way through
   the running tick; a late store, when nothing newer is stored and nothing older is cached
   or on its way. Every other step is harmless.
   */
  predicate Harmless(s: State, step: Step) {
    match step
    case LandLate(id, n) =>
      && NoneAfter(LogOf(s.history, id), n)
      && (id in Left(s) ==> Left(s)[id].number <= n)
      && (Pending(s, id) ==> s.ticker.message.number <= n)
    case StoreLate(Stray(id, m)) =>
      && NoneAfter(LogOf(s.history, id), m.number)
      && (id in s.cache ==> m.number <= s.cache[id].number)
      && (id in Left(s) ==> m.number <= Left(s)[id].number)
      && (Pending(s, id) ==> m.number <= s.ticker.message.number)
    case _ => true
  }

  /** All late steps of the run are harmless. In a run without late steps they are. */
  ghost predicate InOrder(cfg: Config, s: State, steps: seq<Step>)
    decreases |steps|
  {
    steps != [] && Enabled(cfg, s, steps[0]) ==>
      Harmless(s, steps[0]) && InOrder(cfg, Apply(cfg, s, steps[0]), steps[1..])
  }

  ghost predicate Initial(s: State) {
    && s.agents == map[] && s.cache == map[] && s.ticker == Resting && s.strays == multiset{}
    && s.history == map[] && s.log == map[]
  }

  ghost predicate Reachable(cfg: Config, s: State) {
    exists init, steps :: Initial(init) && InOrder(cfg, init, steps) && Leads(cfg, init, steps, s)
  }

  // ----- what every step keeps, harmless or not -----

  ghost predicate NumbersOrdered(log: Log<Report>) {
    forall i, j | 0 <= i < j < |log| :: log[i].data.number <= log[j].data.number
  }

  /** Whatever of a node is on its way or stored, some report of it was cached. */
  ghost predicate TracedAt(s: State, id: NodeId) {
    && (id in s.cache ==> s.cache[id].number < |AgentOf(s, id).reported|)
    && (id in s.history ==> id in s.cache)
    && (id in Left(s) ==> id in s.cache)
    && (s.ticker.InFlight? && s.ticker.node == id ==> id in s.cache && id !in s.ticker.left)
    && (id !in s.cache ==> forall m :: Stray(id, m) !in s.strays)
  }

  lemma TracedStep(cfg: Config, s: State, step: Step, id: NodeId)
    requires TracedAt(s, id) && Enabled(cfg, s, step)
    ensures TracedAt(Apply(cfg, s, step), id)
  {
    if step.ForwardReturns? {
      forall m | id !in s.cache ensures Stray(id, m) !in Apply(cfg, s, step).strays {
        assert Stray(id, m) !in s.strays && Stray(id, m) != Stray(s.ticker.node, s.ticker.message);
      }
    }
  }

  // ----- what harmless steps keep -----

  /** stored <= in flight <= cached; `TracedAt` adds reported. */
  ghost predicate ChainAt(s: State, id: NodeId) {
    && (id in s.cache ==> NoneAfter(LogOf(s.history, id), s.cache[id].number))
    && (id in Left(s) && id in s.cache ==>
          Left(s)[id].number <= s.cache[id].number && NoneAfter(LogOf(s.history, id), Left(s)[id].number))
    && (Pending(s, id) && id in s.cache ==>
          s.ticker.message.number <= s.cache[id].number && NoneAfter(LogOf(s.history, id), s.ticker.message.number))
  }

  lemma NoneAfterAppend(log: Log<Report>, entry: MetricsEntry<Report>, n: nat)
    ensures NoneAfter(log + [entry], n) <==> NoneAfter(log, n) && entry.data.number <= n
  {
    assert NoneAfter(log + [entry], n) ==> (log + [entry])[|log|] == entry;
    assert forall i | 0 <= i < |log| :: (log + [entry])[i] == log[i];
  }

  lemma ChainWhenCached(s: State, node: NodeId, number: nat, id: NodeId)
    requires number < |AgentOf(s, node).reported|
    requires ChainAt(s, id) && TracedAt(s, id)
    requires node != id || (id in s.cache && s.cache[id].number <= number) || Harmless(s, LandLate(node, number))
    ensures ChainAt(Cached(s, node, number), id)
  {
    if node == id && id !in s.cache {
      assert LogOf(s.history, id) == [];
    }
  }

  lemma ChainWhenStored(cfg: Config, s: State, node: NodeId, m: Report, id: NodeId)
    requires ChainAt(s, id)
    requires node == id && id in s.cache ==> m.number <= s.cache[id].number
    requires node == id && id in Left(s) ==> m.number <= Left(s)[id].number
    requires node == id && Pending(s, id) ==> m.number <= s.ticker.message.number
    ensures ChainAt(Stored(cfg, s, node, m), id)
  {
    var log, entry := LogOf(s.history, id), EntryOf(s, m);
    if node == id {
      assert LogOf(Stored(cfg, s, node, m).history, id) == log + [entry];
      if id in s.cache { NoneAfterAppend(log, entry, s.cache[id].number); }
      if id in Left(s) { NoneAfterAppend(log, entry, Left(s)[id].number); }
      if Pending(s, id) { NoneAfterAppend(log, entry, s.ticker.message.number); }
    }
  }

  lemma ChainUnlessTouched(cfg: Config, s: State, step: Step, id: NodeId)
    requires TracedAt(s, id) && ChainAt(s, id) && Enabled(cfg, s, step)
    requires !step.Land? && !step.LandLate? && !step.Store? && !step.StoreLate?
    ensures ChainAt(Apply(cfg, s, step), id)
  {
  }

  /** A harmless step keeps the chain of every node. */
  lemma ChainStep(cfg: Config, s: State, step: Step, id: NodeId)
    requires TracedAt(s, id) && ChainAt(s, id) && Enabled(cfg, s, step) && Harmless(s, step)
    ensures ChainAt(Apply(cfg, s, step), id)
  {
    match step
    case Land(node) =>
      ChainWhenCached(s, node, |AgentOf(s, node).reported| - 1, id);
    case LandLate(node, number) => ChainWhenCached(s, node, number, id);
    case Store => ChainWhenStored(cfg, s, s.ticker.node, s.ticker.message, id);
    case StoreLate(stray) => ChainWhenStored(cfg, s, stray.node, stray.message, id);
    case _ => ChainUnlessTouched(cfg, s, step, id);
  }

  /** The full history of a node is in report order and in clock order. */
  ghost predicate OrderedAt(s: State, id: NodeId) {
    var log := LogOf(s.history, id);
    NumbersOrdered(log) && ClockOrdered(log) && forall i | 0 <= i < |log| :: log[i].timestamp <= s.serverClock
  }

  lemma OrderedAppend(log: Log<Report>, entry: MetricsEntry<Report>)
    requires NumbersOrdered(log) && ClockOrdered(log)
    requires NoneAfter(log, entry.data.number) && forall i | 0 <= i < |log| :: log[i].timestamp <= entry.timestamp
    ensures NumbersOrdered(log + [entry]) && ClockOrdered(log + [entry])
    ensures forall i | 0 <= i < |log + [entry]| :: (log + [entry])[i].timestamp <= entry.timestamp
  {
  }

  lemma OrderWhenStored(cfg: Config, s: State, node: NodeId, m: Report, id: NodeId)
    requires OrderedAt(s, id) && (node == id ==> NoneAfter(LogOf(s.history, id), m.number))
    ensures OrderedAt(Stored(cfg, s, node, m), id)
  {
    if node == id {
      OrderedAppend(LogOf(s.history, id), EntryOf(s, m));
      assert LogOf(Stored(cfg, s, node, m).history, id) == LogOf(s.history, id) + [EntryOf(s, m)];
    }
  }

  lemma OrderStep(cfg: Config, s: State, step: Step, id: NodeId)
    requires TracedAt(s, id) && ChainAt(s, id) && OrderedAt(s, id) && Enabled(cfg, s, step) && Harmless(s, step)
    ensures OrderedAt(Apply(cfg, s, step), id)
  {
    match step
    case Store => OrderWhenStored(cfg, s, s.ticker.node, s.ticker.message, id);
    case StoreLate(stray) => OrderWhenStored(cfg, s, stray.node, stray.message, id);
    case _ => assert LogOf(Apply(cfg, s, step).history, id) == LogOf(s.history, id);
  }

  // ----- payloads and the bound -----

  /** A payload is the report of its number, changed only at the stamp keys set so far. */
  ghost predicate CopyFaithful(reported: seq<Fields>, r: Report, now: int) {
    r.number < |reported| && AsCached(reported[r.number], r.fields, now)
  }

  ghost predicate MessageFaithful(reported: seq<Fields>, r: Report, now: int) {
    r.number < |reported| && AsForwarded(reported[r.number], r.fields, now)
  }

  ghost predicate EntryFaithful(reported: seq<Fields>, r: Report, now: int, there: int) {
    r.number < |reported| && AsStored(reported[r.number], r.fields, now, there)
  }

  ghost predicate LogFaithful(reported: seq<Fields>, log: Log<Report>, now: int, there: int) {
    forall i | 0 <= i < |log| :: EntryFaithful(reported, log[i].data, now, there)
  }

  ghost predicate FaithfulAt(s: State, id: NodeId) {
    var reported := AgentOf(s, id).reported;
    && (id in s.cache ==> CopyFaithful(reported, s.cache[id], s.clock))
    && (id in Left(s) ==> CopyFaithful(reported, Left(s)[id], s.clock))
    && (s.ticker.InFlight? && s.ticker.node == id ==> MessageFaithful(reported, s.ticker.message, s.clock))
    && (forall m | Stray(id, m) in s.strays :: MessageFaithful(reported, m, s.clock))
    && LogFaithful(reported, LogOf(s.history, id), s.clock, s.serverClock)
  }

  /** The kept log of a node is the tail of its full history. */
  ghost predicate BoundedAt(cfg: Config, s: State, id: NodeId) {
    && (id in s.log <==> id in s.history)
    && LogOf(s.log, id) == Newest(LogOf(s.history, id), cfg.maxItems)
  }

  lemma FaithPersists(reported: seq<Fields>, more: seq<Fields>, r: Report, now: int, later: int, there: int,
      thereLater: int)
    requires reported <= more && now <= later && there <= thereLater
    ensures CopyFaithful(reported, r, now) ==> CopyFaithful(more, r, later)
    ensures MessageFaithful(reported, r, now) ==> MessageFaithful(more, r, later)
    ensures EntryFaithful(reported, r, now, there) ==> EntryFaithful(more, r, later, thereLater)
  {
    if r.number < |reported| {
      StampsPersist(reported[r.number], r.fields, now, later, there, thereLater);
    }
  }

  /** Agents only ever add reports, and the clocks do not go back. */
  lemma ReportsAccumulate(cfg: Config, s: State, step: Step, id: NodeId)
    requires Enabled(cfg, s, step)
    ensures AgentOf(s, id).reported <= AgentOf(Apply(cfg, s, step), id).reported
    ensures s.clock <= Apply(cfg, s, step).clock && s.serverClock <= Apply(cfg, s, step).serverClock
  {
  }

  lemma LogFaithPersists(reported: seq<Fields>, more: seq<Fields>, log: Log<Report>, now: int, later: int, there: int,
      thereLater: int)
    requires LogFaithful(reported, log, now, there) && reported <= more && now <= later && there <= thereLater
    ensures LogFaithful(more, log, later, thereLater)
  {
    forall i | 0 <= i < |log| ensures EntryFaithful(more, log[i].data, later, thereLater) {
      FaithPersists(reported, more, log[i].data, now, later, there, thereLater);
    }
  }

  lemma FaithfulUnlessTouched(cfg: Config, s: State, step: Step, id: NodeId)
    requires FaithfulAt(s, id) && Enabled(cfg, s, step)
    requires !step.Land? && !step.LandLate? && !step.Forward? && !step.Store? && !step.StoreLate?
    ensures FaithfulAt(Apply(cfg, s, step), id)
  {
    var t := Apply(cfg, s, step);
    ReportsAccumulate(cfg, s, step, id);
    var reported, more := AgentOf(s, id).reported, AgentOf(t, id).reported;
    if id in s.cache {
      FaithPersists(reported, more, s.cache[id], s.clock, t.clock, s.serverClock, t.serverClock);
    }
    if id in Left(s) {
      FaithPersists(reported, more, Left(s)[id], s.clock, t.clock, s.serverClock, t.serverClock);
    }
    if s.ticker.InFlight? {
      FaithPersists(reported, more, s.ticker.message, s.clock, t.clock, s.serverClock, t.serverClock);
    }
    forall m | Stray(id, m) in t.strays ensures MessageFaithful(more, m, t.clock) {
      FaithPersists(reported, more, m, s.clock, t.clock, s.serverClock, t.serverClock);
      assert Stray(id, m) in s.strays || (s.ticker.InFlight? && s.ticker.node == id && m == s.ticker.message);
    }
    LogFaithPersists(reported, more, LogOf(s.history, id), s.clock, t.clock, s.serverClock, t.serverClock);
  }

  lemma FaithfulWhenCached(s: State, node: NodeId, number: nat, id: NodeId)
    requires FaithfulAt(s, id) && number < |AgentOf(s, node).reported|
    ensures FaithfulAt(Cached(s, node, number), id)
  {
    StampStages(AgentOf(s, node).reported[number], map[], s.clock, s.serverClock);
  }

  lemma FaithfulWhenLanded(cfg: Config, s: State, step: Step, id: NodeId)
    requires FaithfulAt(s, id) && Enabled(cfg, s, step) && (step.Land? || step.LandLate?)
    ensures FaithfulAt(Apply(cfg, s, step), id)
  {
    FaithfulWhenCached(s, step.id, if step.Land? then |AgentOf(s, step.id).reported| - 1 else step.number, id);
  }

  lemma FaithfulWhenSent(cfg: Config, s: State, node: NodeId, id: NodeId)
    requires FaithfulAt(s, id) && Enabled(cfg, s, Forward(node))
    ensures FaithfulAt(Apply(cfg, s, Forward(node)), id)
  {
    if node == id {
      var copy := s.ticker.left[node];
      StampStages(AgentOf(s, id).reported[copy.number], copy.fields, s.clock, s.serverClock);
    }
  }

  lemma FaithfulWhenStored(cfg: Config, s: State, node: NodeId, m: Report, id: NodeId)
    requires FaithfulAt(s, id) && (node == id ==> MessageFaithful(AgentOf(s, id).reported, m, s.clock))
    ensures FaithfulAt(Stored(cfg, s, node, m), id)
  {
    if node == id {
      var reported := AgentOf(s, id).reported;
      StampStages(reported[m.number], m.fields, s.clock, s.serverClock);
      assert EntryFaithful(reported, EntryOf(s, m).data, s.clock, s.serverClock);
    }
  }

  lemma FaithfulWhenStoring(cfg: Config, s: State, step: Step, id: NodeId)
    requires FaithfulAt(s, id) && Enabled(cfg, s, step) && (step.Store? || step.StoreLate?)
    ensures FaithfulAt(Apply(cfg, s, step), id)
  {
    if step.Store? {
      FaithfulWhenStored(cfg, s, s.ticker.node, s.ticker.message, id);
    } else {
      FaithfulWhenStored(cfg, s, step.stray.node, step.stray.message, id);
    }
  }

  lemma FaithfulStep(cfg: Config, s: State, step: Step, id: NodeId)
    requires FaithfulAt(s, id) && Enabled(cfg, s, step)
    ensures FaithfulAt(Apply(cfg, s, step), id)
  {
    if step.Land? || step.LandLate? {
      FaithfulWhenLanded(cfg, s, step, id);
    } else if step.Forward? {
      FaithfulWhenSent(cfg, s, step.id, id);
    } else if step.Store? || step.StoreLate? {
      FaithfulWhenStoring(cfg, s, step, id);
    } else {
      FaithfulUnlessTouched(cfg, s, step, id);
    }
  }

  lemma BoundedStep(cfg: Config, s: State, step: Step, id: NodeId)
    requires BoundedAt(cfg, s, id) && Enabled(cfg, s, step) && cfg.maxItems > 0
    ensures BoundedAt(cfg, Apply(cfg, s, step), id)
  {
    match step
    case Store => TrimAfterAppend(LogOf(s.history, id), EntryOf(s, s.ticker.message), cfg.maxItems);
    case StoreLate(stray) => TrimAfterAppend(LogOf(s.history, id), EntryOf(s, stray.message), cfg.maxItems);
    case _ =>
  }

  // ----- over whole runs -----

  ghost predicate Inv(cfg: Config, s: State) {
    forall id :: TracedAt(s, id) && ChainAt(s, id) && OrderedAt(s, id) && FaithfulAt(s, id) && BoundedAt(cfg, s, id)
  }

  lemma InvInitial(cfg: Config, s: State)
    requires Initial(s)
    ensures Inv(cfg, s)
  {
  }

  lemma InvStep(cfg: Config, s: State, step: Step)
    requires cfg.maxItems > 0 && Inv(cfg, s) && Enabled(cfg, s, step) && Harmless(s, step)
    ensures Inv(cfg, Apply(cfg, s, step))
  {
    var t := Apply(cfg, s, step);
    forall id ensures TracedAt(t, id) && ChainAt(t, id) && OrderedAt(t, id) && FaithfulAt(t, id)
        && BoundedAt(cfg, t, id) {
      TracedStep(cfg, s, step, id);
      ChainStep(cfg, s, step, id);
      OrderStep(cfg, s, step, id);
      FaithfulStep(cfg, s, step, id);
      BoundedStep(cfg, s, step, id);
    }
  }

  lemma {:induction false} InvRun(cfg: Config, s: State, steps: seq<Step>, t: State)
    requires cfg.maxItems > 0
    requires Inv(cfg, s) && Leads(cfg, s, steps, t) && InOrder(cfg, s, steps)
    ensures Inv(cfg, t)
    decreases |steps|
  {
    if steps == [] {
    } else {
      InvStep(cfg, s, steps[0]);
      InvRun(cfg, Apply(cfg, s, steps[0]), steps[1..], t);
    }
  }

  lemma ReachableInv(cfg: Config, s: State)
    requires cfg.maxItems > 0 && Reachable(cfg, s)
    ensures Inv(cfg, s)
  {
    var init, steps :| Initial(init) && InOrder(cfg, init, steps) && Leads(cfg, init, steps, s);
    InvInitial(cfg, init);
    InvRun(cfg, init, steps, s);
  }

  /**
   Over every interleaving, with any retries, lost replies, failed forwards and
   harmless late steps: a node's stored history is in report order and in time order,
   and each entry is the report of its number with only the three stamp keys changed.
   */
  lemma HistoryOrderedAndFaithful(cfg: Config, s: State, id: NodeId)
    requires cfg.maxItems > 0 && Reachable(cfg, s)
    ensures NumbersOrdered(LogOf(s.history, id)) && ClockOrdered(LogOf(s.history, id))
    ensures LogFaithful(AgentOf(s, id).reported, LogOf(s.history, id), s.clock, s.serverClock)
  {
    ReachableInv(cfg, s);
    assert OrderedAt(s, id) && FaithfulAt(s, id);
  }

  /**
   What the control plane keeps answers a range query as the full history would,
   whenever the range starts after the newest evicted timestamp; and its latest
   entry is always the newest stored.
   */
  lemma KeptLogAnswers(cfg: Config, s: State, id: NodeId, start: int, end: int)
    requires cfg.maxItems > 0 && Reachable(cfg, s)
    ensures var full, kept := LogOf(s.history, id), LogOf(s.log, id);
            && |kept| <= cfg.maxItems
            && Latest(kept) == Latest(full)
            && (|full| <= cfg.maxItems || start > full[|full| - cfg.maxItems - 1].timestamp
                ==> RangeQuery(kept, start, end) == RangeQuery(full, start, end))
  {
    ReachableInv(cfg, s);
    assert OrderedAt(s, id) && BoundedAt(cfg, s, id);
    RangeQueryAfterEviction(LogOf(s.history, id), cfg.maxItems, start, end);
  }

  /**
   Once the last report of a node has been stored, the latest kept entry is that report,
   stamps added, and whatever harmless late steps there were.
   */
  lemma LastReportStaysLatest(cfg: Config, s: State, id: NodeId, i: nat)
    requires cfg.maxItems > 0 && Reachable(cfg, s)
    requires i < |LogOf(s.history, id)| && LogOf(s.history, id)[i].data.number + 1 == |AgentOf(s, id).reported|
    ensures var latest := Latest(LogOf(s.log, id));
            && latest.Some? && latest.value.number + 1 == |AgentOf(s, id).reported|
            && EntryFaithful(AgentOf(s, id).reported, latest.value, s.clock, s.serverClock)
  {
    HistoryOrderedAndFaithful(cfg, s, id);
    KeptLogAnswers(cfg, s, id, 0, 0);
    var full := LogOf(s.history, id);
    assert full[i].data.number <= full[|full| - 1].data.number;
    assert EntryFaithful(AgentOf(s, id).reported, full[|full| - 1].data, s.clock, s.serverClock);
  }

  // ----- which late steps are harmless, exactly -----

  predicate IsTicking(step: Step) {
    step.Snapshot? || step.Forward? || step.Store? || step.ForwardReturns? || step.EndTick?
  }

  /** The ticker alone, its forwards stored in time, gets from s to t. */
  ghost predicate Ticks(cfg: Config, s: State, t: State) {
    exists steps: seq<Step> :: (forall i | 0 <= i < |steps| :: IsTicking(steps[i])) && Leads(cfg, s, steps, t)
  }

  /** The ticker alone can bring a node's history out of order. */
  ghost predicate Breaks(cfg: Config, s: State, id: NodeId) {
    exists t :: Ticks(cfg, s, t) && !NumbersOrdered(LogOf(t.history, id))
  }

  lemma TicksStart(cfg: Config, s: State)
    ensures Ticks(cfg, s, s)
  {
    assert Leads(cfg, s, [], s);
  }

  lemma TicksOn(cfg: Config, s: State, t: State, step: Step)
    requires Ticks(cfg, s, t) && Enabled(cfg, t, step) && IsTicking(step)
    ensures Ticks(cfg, s, Apply(cfg, t, step))
  {
    var steps :| (forall i | 0 <= i < |steps| :: IsTicking(steps[i])) && Leads(cfg, s, steps, t);
    LeadsSnoc(cfg, s, steps, t, step);
    assert forall i | 0 <= i < |steps + [step]| :: IsTicking((steps + [step])[i]);
  }

  lemma {:induction false} TickingIsInOrder(cfg: Config, s: State, steps: seq<Step>, t: State)
    requires Leads(cfg, s, steps, t) && forall i | 0 <= i < |steps| :: IsTicking(steps[i])
    ensures InOrder(cfg, s, steps)
    decreases |steps|
  {
    if steps == [] {
    } else {
      assert IsTicking(steps[0]);
      assert forall i | 0 <= i < |steps[1..]| :: steps[1..][i] == steps[i + 1];
      TickingIsInOrder(cfg, Apply(cfg, s, steps[0]), steps[1..], t);
    }
  }

  lemma InvHolds(cfg: Config, s: State, id: NodeId)
    requires cfg.maxItems > 0 && Inv(cfg, s)
    ensures !Breaks(cfg, s, id)
  {
    forall t | Ticks(cfg, s, t) ensures NumbersOrdered(LogOf(t.history, id)) {
      var steps :| (forall i | 0 <= i < |steps| :: IsTicking(steps[i])) && Leads(cfg, s, steps, t);
      TickingIsInOrder(cfg, s, steps, t);
      InvRun(cfg, s, steps, t);
      assert OrderedAt(t, id);
    }
  }

  /** Some stored report of the node is newer than number `n`. */
  ghost predicate SomeAfter(s: State, id: NodeId, n: nat) {
    !NoneAfter(LogOf(s.history, id), n)
  }

  lemma StoringBehind(cfg: Config, s: State, t: State, id: NodeId)
    requires Ticks(cfg, s, t) && Pending(t, id) && SomeAfter(t, id, t.ticker.message.number)
    ensures Breaks(cfg, s, id)
  {
    var u := Apply(cfg, t, Store);
    TicksOn(cfg, s, t, Store);
    var log, after := LogOf(t.history, id), LogOf(u.history, id);
    var i :| 0 <= i < |log| && log[i].data.number > t.ticker.message.number;
    assert after == log + [EntryOf(t, t.ticker.message)];
    assert after[i] == log[i] && after[|log|].data.number == t.ticker.message.number;
  }

  /** The running forward, if there is one, ends. */
  lemma Released(cfg: Config, s: State, t: State) returns (u: State)
    requires Ticks(cfg, s, t) && !t.ticker.Resting?
    ensures Ticks(cfg, s, u) && u.ticker == Forwarding(t.ticker.left) && u.cache == t.cache && u.history == t.history
  {
    u := t;
    if t.ticker.InFlight? {
      TicksOn(cfg, s, t, ForwardReturns);
      u := Apply(cfg, t, ForwardReturns);
    }
  }

  lemma {:induction false} Drained(cfg: Config, s: State, t: State) returns (u: State)
    requires Ticks(cfg, s, t)
    ensures Ticks(cfg, s, u) && u.ticker == Resting && u.cache == t.cache && u.history == t.history
    decreases |Left(t)|
  {
    u := t;
    if t.ticker.Resting? {
    } else {
      u := Released(cfg, s, t);
      if u.ticker.left == map[] {
        TicksOn(cfg, s, u, EndTick);
        u := Apply(cfg, u, EndTick);
      } else {
        var id :| id in u.ticker.left;
        TicksOn(cfg, s, u, Forward(id));
        var v := Apply(cfg, u, Forward(id));
        assert v.ticker.left.Keys == u.ticker.left.Keys - {id};
        assert |v.ticker.left.Keys| < |u.ticker.left.Keys|;
        u := Drained(cfg, s, v);
      }
    }
  }

  lemma ForwardingBehind(cfg: Config, s: State, t: State, id: NodeId)
    requires Ticks(cfg, s, t) && id in Left(t) && SomeAfter(t, id, Left(t)[id].number)
    ensures Breaks(cfg, s, id)
  {
    var u := Released(cfg, s, t);
    TicksOn(cfg, s, u, Forward(id));
    StoringBehind(cfg, s, Apply(cfg, u, Forward(id)), id);
  }

  lemma CachedBehind(cfg: Config, s: State, t: State, id: NodeId)
    requires Ticks(cfg, s, t) && id in t.cache && SomeAfter(t, id, t.cache[id].number)
    ensures Breaks(cfg, s, id)
  {
    var u := Drained(cfg, s, t);
    TicksOn(cfg, s, u, Snapshot);
    ForwardingBehind(cfg, s, Apply(cfg, u, Snapshot), id);
  }

  /** What is in flight is stored before the older report that is cached. */
  lemma PendingAhead(cfg: Config, s: State, t: State, id: NodeId)
    requires Ticks(cfg, s, t) && id in t.cache && Pending(t, id) && t.ticker.message.number > t.cache[id].number
    ensures Breaks(cfg, s, id)
  {
    var u := Apply(cfg, t, Store);
    TicksOn(cfg, s, t, Store);
    assert LogOf(u.history, id) == LogOf(t.history, id) + [EntryOf(t, t.ticker.message)];
    NoneAfterAppend(LogOf(t.history, id), EntryOf(t, t.ticker.message), t.cache[id].number);
    CachedBehind(cfg, s, u, id);
  }

  lemma LeftAhead(cfg: Config, s: State, t: State, id: NodeId)
    requires Ticks(cfg, s, t) && id in t.cache && id in Left(t) && Left(t)[id].number > t.cache[id].number
    ensures Breaks(cfg, s, id)
  {
    var u := Released(cfg, s, t);
    TicksOn(cfg, s, u, Forward(id));
    PendingAhead(cfg, s, Apply(cfg, u, Forward(id)), id);
  }

  /** Wherever the chain does not hold, the ticker alone brings the history out of order. */
  lemma BrokenChainBreaks(cfg: Config, s: State, id: NodeId)
    requires TracedAt(s, id) && !ChainAt(s, id)
    ensures Breaks(cfg, s, id)
  {
    TicksStart(cfg, s);
    if SomeAfter(s, id, s.cache[id].number) {
      CachedBehind(cfg, s, s, id);
    } else if id in Left(s) && SomeAfter(s, id, Left(s)[id].number) {
      ForwardingBehind(cfg, s, s, id);
    } else if id in Left(s) && Left(s)[id].number > s.cache[id].number {
      LeftAhead(cfg, s, s, id);
    } else if SomeAfter(s, id, s.ticker.message.number) {
      StoringBehind(cfg, s, s, id);
    } else {
      PendingAhead(cfg, s, s, id);
    }
  }

  /** After a late landing that is not harmless, something newer is stored or on its way. */
  lemma HarmfulLanding(cfg: Config, s: State, id: NodeId, n: nat)
    requires TracedAt(s, id) && Enabled(cfg, s, LandLate(id, n)) && !Harmless(s, LandLate(id, n))
    ensures Breaks(cfg, Cached(s, id, n), id)
  {
    TracedStep(cfg, s, LandLate(id, n), id);
    assert !ChainAt(Cached(s, id, n), id);
    BrokenChainBreaks(cfg, Cached(s, id, n), id);
  }

  /** A stored report newer than one that is cached, held or in flight breaks the chain. */
  lemma StoredAhead(cfg: Config, s: State, id: NodeId, m: Report)
    requires id in s.cache
    requires m.number > s.cache[id].number
             || (id in Left(s) && m.number > Left(s)[id].number)
             || (Pending(s, id) && m.number > s.ticker.message.number)
    ensures !ChainAt(Stored(cfg, s, id, m), id)
  {
    var log, entry := LogOf(s.history, id), EntryOf(s, m);
    assert LogOf(Stored(cfg, s, id, m).history, id) == log + [entry];
    if m.number > s.cache[id].number {
      NoneAfterAppend(log, entry, s.cache[id].number);
    } else if id in Left(s) && m.number > Left(s)[id].number {
      NoneAfterAppend(log, entry, Left(s)[id].number);
    } else {
      NoneAfterAppend(log, entry, s.ticker.message.number);
    }
  }

  lemma HarmfulStore(cfg: Config, s: State, stray: Stray)
    requires TracedAt(s, stray.node) && Enabled(cfg, s, StoreLate(stray)) && !Harmless(s, StoreLate(stray))
    ensures Breaks(cfg, Apply(cfg, s, StoreLate(stray)), stray.node)
  {
    var id, m, t := stray.node, stray.message, Apply(cfg, s, StoreLate(stray));
    var log := LogOf(s.history, id);
    if SomeAfter(s, id, m.number) {
      var after := LogOf(t.history, id);
      assert after == log + [EntryOf(s, m)];
      var i :| 0 <= i < |log| && log[i].data.number > m.number;
      assert after[i] == log[i] && after[|log|].data.number == m.number;
      TicksStart(cfg, t);
    } else {
      TracedStep(cfg, s, StoreLate(stray), id);
      assert id in s.cache by { assert Stray(id, m) in s.strays; }
      StoredAhead(cfg, s, id, m);
      assert ChainAt(t, id) ==> ChainAt(Stored(cfg, s, id, m), id);
      BrokenChainBreaks(cfg, t, id);
    }
  }

  /** The ticker alone cannot bring any history out of order. */
  ghost predicate Safe(cfg: Config, s: State) {
    forall id :: !Breaks(cfg, s, id)
  }

  lemma InvIsSafe(cfg: Config, s: State)
    requires cfg.maxItems > 0 && Inv(cfg, s)
    ensures Safe(cfg, s)
  {
    forall id ensures !Breaks(cfg, s, id) {
      InvHolds(cfg, s, id);
    }
  }

  lemma HarmfulIsUnsafe(cfg: Config, s: State, step: Step)
    requires (forall id :: TracedAt(s, id)) && Enabled(cfg, s, step) && !Harmless(s, step)
    ensures !Safe(cfg, Apply(cfg, s, step))
  {
    var id := if step.LandLate? then step.id else step.stray.node;
    assert TracedAt(s, id);
    if step.LandLate? {
      HarmfulLanding(cfg, s, id, step.number);
    } else {
      HarmfulStore(cfg, s, step.stray);
    }
    assert Breaks(cfg, Apply(cfg, s, step), id);
  }

  /**
   In every state reached by harmless steps, the next step is harmless exactly when the
   ticker alone cannot bring any history out of order after it.
   */
  lemma HarmlessIff(cfg: Config, s: State, step: Step)
    requires cfg.maxItems > 0 && Inv(cfg, s) && Enabled(cfg, s, step)
    ensures Harmless(s, step) <==> Safe(cfg, Apply(cfg, s, step))
  {
    if Harmless(s, step) {
      InvStep(cfg, s, step);
      InvIsSafe(cfg, Apply(cfg, s, step));
    } else {
      HarmfulIsUnsafe(cfg, s, step);
    }
  }

  /** At no point of the run can the ticker alone bring a history out of order. */
  ghost predicate NeverBreaks(cfg: Config, s: State, steps: seq<Step>)
    decreases |steps|
  {
    && Safe(cfg, s)
    && (steps != [] && Enabled(cfg, s, steps[0]) ==> NeverBreaks(cfg, Apply(cfg, s, steps[0]), steps[1..]))
  }

  lemma {:induction false} InOrderIffFrom(cfg: Config, s: State, steps: seq<Step>, t: State)
    requires cfg.maxItems > 0 && Inv(cfg, s) && Leads(cfg, s, steps, t)
    ensures InOrder(cfg, s, steps) <==> NeverBreaks(cfg, s, steps)
    decreases |steps|
  {
    InvIsSafe(cfg, s);
    if steps == [] {
    } else {
      HarmlessIff(cfg, s, steps[0]);
      if Harmless(s, steps[0]) {
        InvStep(cfg, s, steps[0]);
        InOrderIffFrom(cfg, Apply(cfg, s, steps[0]), steps[1..], t);
      }
    }
  }

  /**
   The exact condition for order, over all runs: late steps and everything else are such
   that histories are in order now and under any ticking to come, at every point of the
   run, if and only if every late step of the run was harmless when it happened.
   */
  lemma InOrderIff(cfg: Config, init: State, steps: seq<Step>, t: State)
    requires cfg.maxItems > 0 && Initial(init) && Leads(cfg, init, steps, t)
    ensures InOrder(cfg, init, steps) <==> NeverBreaks(cfg, init, steps)
  {
    InvInitial(cfg, init);
    InOrderIffFrom(cfg, init, steps, t);
  }

  // ----- harmful late steps do occur -----

  lemma {:induction false} InOrderSnoc(cfg: Config, s: State, steps: seq<Step>, t: State, step: Step)
    requires InOrder(cfg, s, steps) && Leads(cfg, s, steps, t) && Harmless(t, step)
    ensures InOrder(cfg, s, steps + [step])
    decreases |steps|
  {
    if steps == [] {
      assert [] + [step] == [step] && [step][1..] == [];
    } else {
      assert (steps + [step])[1..] == steps[1..] + [step];
      InOrderSnoc(cfg, Apply(cfg, s, steps[0]), steps[1..], t, step);
    }
  }

  /** One more harmless step from a reachable state. */
  lemma Went(cfg: Config, s: State, step: Step) returns (t: State)
    requires Reachable(cfg, s) && Enabled(cfg, s, step) && Harmless(s, step)
    ensures Reachable(cfg, t) && t == Apply(cfg, s, step)
  {
    t := Apply(cfg, s, step);
    var init, steps :| Initial(init) && InOrder(cfg, init, steps) && Leads(cfg, init, steps, s);
    LeadsSnoc(cfg, init, steps, s, step);
    InOrderSnoc(cfg, init, steps, s, step);
  }

  /** Nothing but agents and cache changes. */
  ghost predicate SameBehindCache(s: State, t: State) {
    t.ticker == s.ticker && t.strays == s.strays && t.history == s.history
  }

  lemma Began(cfg: Config, s: State, id: NodeId, fields: Fields) returns (t: State)
    requires Reachable(cfg, s) && AgentOf(s, id).phase.Idle?
    ensures Reachable(cfg, t) && SameBehindCache(s, t) && t.cache == s.cache
    ensures AgentOf(t, id) == Agent(AgentOf(s, id).reported + [fields], Sending(0, false))
  {
    t := Went(cfg, s, Begin(id, fields));
  }

  /** An attempt lands. */
  lemma Landed(cfg: Config, s: State, id: NodeId) returns (t: State)
    requires Reachable(cfg, s) && Enabled(cfg, s, Land(id))
    ensures Reachable(cfg, t) && SameBehindCache(s, t)
    ensures AgentOf(t, id).reported == AgentOf(s, id).reported && Enabled(cfg, t, Acknowledge(id))
    ensures t.cache.Keys == s.cache.Keys + {id} && t.cache[id].number + 1 == |AgentOf(s, id).reported|
  {
    t := Went(cfg, s, Land(id));
  }

  /** An attempt lands and is answered. */
  lemma Answered(cfg: Config, s: State, id: NodeId) returns (t: State)
    requires Reachable(cfg, s) && Enabled(cfg, s, Land(id))
    ensures Reachable(cfg, t) && SameBehindCache(s, t)
    ensures AgentOf(t, id) == Agent(AgentOf(s, id).reported, Idle)
    ensures t.cache.Keys == s.cache.Keys + {id} && t.cache[id].number + 1 == |AgentOf(s, id).reported|
  {
    var u := Landed(cfg, s, id);
    t := Went(cfg, u, Acknowledge(id));
  }

  /** An agent reports, and its first attempt is answered. */
  lemma Reported(cfg: Config, s: State, id: NodeId, fields: Fields) returns (t: State)
    requires Reachable(cfg, s) && AgentOf(s, id).phase.Idle?
    ensures Reachable(cfg, t) && SameBehindCache(s, t)
    ensures AgentOf(t, id) == Agent(AgentOf(s, id).reported + [fields], Idle)
    ensures t.cache.Keys == s.cache.Keys + {id} && t.cache[id].number == |AgentOf(s, id).reported|
  {
    t := Began(cfg, s, id, fields);
    t := Answered(cfg, t, id);
  }

  /** An agent reports, giving its first attempt up; another attempt, if there is one, is answered. */
  lemma ReportedGivingUp(cfg: Config, s: State, id: NodeId, fields: Fields) returns (t: State)
    requires Reachable(cfg, s) && AgentOf(s, id).phase.Idle?
    ensures Reachable(cfg, t) && SameBehindCache(s, t)
    ensures AgentOf(t, id) == Agent(AgentOf(s, id).reported + [fields], Idle)
  {
    var u := Began(cfg, s, id, fields);
    t := Went(cfg, u, AttemptFails(id));
    if AgentOf(t, id).phase.Sending? {
      t := Answered(cfg, t, id);
    }
  }

  /** The ticker takes a snapshot. */
  lemma Copied(cfg: Config, s: State) returns (t: State)
    requires Reachable(cfg, s) && s.ticker.Resting?
    ensures Reachable(cfg, t) && t == s.(ticker := Forwarding(s.cache))
  {
    t := Went(cfg, s, Snapshot);
  }

  /** The ticker takes a snapshot and sends the one report that is cached. */
  lemma SentOn(cfg: Config, s: State, id: NodeId) returns (t: State)
    requires Reachable(cfg, s) && s.ticker.Resting? && s.cache.Keys == {id}
    ensures Reachable(cfg, t)
    ensures t.ticker.InFlight? && t.ticker.left == map[] && t.ticker.node == id && !t.ticker.landed
    ensures t.ticker.message.number == s.cache[id].number
    ensures t.agents == s.agents && t.cache == s.cache && t.strays == s.strays && t.history == s.history
  {
    var u := Copied(cfg, s);
    t := Went(cfg, u, Forward(id));
    assert t.ticker.left.Keys == {};
  }

  /**
   Without any late step before it: an attempt is given up, the node's next report is
   cached and copied by a tick, and the attempt that was given up can still land.
   */
  lemma HarmfulLandingOccurs(cfg: Config, init: State, id: NodeId, first: Fields, second: Fields) returns (s: State)
    requires Initial(init)
    ensures Reachable(cfg, s) && Enabled(cfg, s, LandLate(id, 0)) && !Harmless(s, LandLate(id, 0))
  {
    assert Leads(cfg, init, [], init) && InOrder(cfg, init, []);
    s := ReportedGivingUp(cfg, init, id, first);
    s := Reported(cfg, s, id, second);
    s := Copied(cfg, s);
    assert Left(s)[id].number == 1;
  }

  /** A forward that is not stored is given up, and the tick ends. */
  lemma GivenUp(cfg: Config, s: State) returns (t: State)
    requires Reachable(cfg, s) && s.ticker.InFlight? && s.ticker.left == map[] && !s.ticker.landed
    ensures Reachable(cfg, t)
    ensures t == s.(ticker := Resting, strays := s.strays + multiset{Stray(s.ticker.node, s.ticker.message)})
  {
    t := Went(cfg, s, ForwardReturns);
    t := Went(cfg, t, EndTick);
  }

  /** The message in flight is stored. */
  lemma StoredNow(cfg: Config, s: State) returns (t: State)
    requires Reachable(cfg, s) && Enabled(cfg, s, Store)
    ensures Reachable(cfg, t) && t.strays == s.strays
    ensures forall n: nat | n < s.ticker.message.number :: !NoneAfter(LogOf(t.history, s.ticker.node), n)
  {
    t := Went(cfg, s, Store);
    var log, entry := LogOf(s.history, s.ticker.node), EntryOf(s, s.ticker.message);
    assert LogOf(t.history, s.ticker.node) == log + [entry];
    forall n: nat | n < s.ticker.message.number ensures !NoneAfter(log + [entry], n) {
      NoneAfterAppend(log, entry, n);
    }
  }

  /**
   Without any late step before it: a forward is given up, the node's next report is
   forwarded and stored, and the forward that was given up can still be stored.
   */
  lemma HarmfulStoreOccurs(cfg: Config, init: State, id: NodeId, first: Fields, second: Fields)
    returns (s: State, stray: Stray)
    requires Initial(init)
    ensures Reachable(cfg, s) && Enabled(cfg, s, StoreLate(stray)) && !Harmless(s, StoreLate(stray))
  {
    assert Leads(cfg, init, [], init) && InOrder(cfg, init, []);
    s := Reported(cfg, init, id, first);
    s := SentOn(cfg, s, id);
    stray := Stray(id, s.ticker.message);
    s := GivenUp(cfg, s);
    s := Reported(cfg, s, id, second);
    s := SentOn(cfg, s, id);
    s := StoredNow(cfg, s);
  }

  // ----- eventual freshness -----

  /** No new report of `id` begins, and none given up takes effect. */
  predicate IsQuiet(step: Step, id: NodeId) {
    && (step.Begin? || step.LandLate? ==> step.id != id)
    && (step.StoreLate? ==> step.stray.node != id)
  }

  ghost predicate Quiet(steps: seq<Step>, id: NodeId) {
    forall i | 0 <= i < |steps| :: IsQuiet(steps[i], id)
  }

  /** The agent is between reports and its last one is the one cached. */
  ghost predicate LastReportCached(s: State, id: NodeId) {
    var agent := AgentOf(s, id);
    agent.phase.Idle? && id in s.cache && s.cache[id].number + 1 == |agent.reported|
  }

  ghost predicate IsForwardOf(m: Report, c: Report) {
    exists p :: m == c.(fields := c.fields[PROCESSED := JNum(p)])
  }

  /** Whatever the running tick holds of `id` is what is cached. */
  ghost predicate TickFresh(s: State, id: NodeId) {
    id in s.cache && var c := s.cache[id];
    && (id in Left(s) ==> Left(s)[id] == c)
    && (s.ticker.InFlight? && s.ticker.node == id ==> IsForwardOf(s.ticker.message, c))
  }

  ghost predicate IsStoreOf(e: Report, c: Report) {
    exists p, r :: e == c.(fields := c.fields[PROCESSED := JNum(p)][RECEIVED := JNum(r)])
  }

  /** The latest kept entry of `id` is what is cached, stamped twice more. */
  ghost predicate LatestFresh(s: State, id: NodeId) {
    id in s.cache && var latest := Latest(LogOf(s.log, id));
    latest.Some? && IsStoreOf(latest.value, s.cache[id])
  }

  lemma QuietStore(cfg: Config, s: State, id: NodeId)
    requires Enabled(cfg, s, Store) && s.ticker.node == id && TickFresh(s, id) && cfg.maxItems > 0
    ensures LatestFresh(Apply(cfg, s, Store), id)
  {
    var c, m := s.cache[id], s.ticker.message;
    var p :| m == c.(fields := c.fields[PROCESSED := JNum(p)]);
    var e := EntryOf(s, m).data;
    assert Latest(LogOf(Apply(cfg, s, Store).log, id)) == Some(e);
    assert e.fields == c.fields[PROCESSED := JNum(p)][RECEIVED := JNum(Unix(s.serverClock))];
    assert IsStoreOf(e, c);
  }

  lemma QuietForward(cfg: Config, s: State, node: NodeId, id: NodeId)
    requires Enabled(cfg, s, Forward(node)) && TickFresh(s, id)
    ensures TickFresh(Apply(cfg, s, Forward(node)), id)
  {
    if node == id {
      var m := Apply(cfg, s, Forward(node)).ticker.message;
      assert m == s.cache[id].(fields := s.cache[id].fields[PROCESSED := JNum(Unix(s.clock))]);
    }
  }

  lemma QuietStep(cfg: Config, s: State, step: Step, id: NodeId)
    requires cfg.maxItems > 0
    requires Enabled(cfg, s, step) && IsQuiet(step, id)
    requires AgentOf(s, id).phase.Idle? && id in s.cache
    ensures var t := Apply(cfg, s, step);
            && AgentOf(t, id) == AgentOf(s, id) && id in t.cache && t.cache[id] == s.cache[id]
            && (TickFresh(s, id) || step.Snapshot? ==> TickFresh(t, id))
            && (TickFresh(s, id) && LatestFresh(s, id) ==> LatestFresh(t, id))
  {
    match step
    case Store =>
      if s.ticker.node == id && TickFresh(s, id) {
        QuietStore(cfg, s, id);
      }
    case Forward(node) =>
      if TickFresh(s, id) {
        QuietForward(cfg, s, node, id);
      }
    case _ =>
  }

  lemma {:induction false} QuietRun(cfg: Config, s: State, steps: seq<Step>, t: State, id: NodeId)
    requires cfg.maxItems > 0
    requires Leads(cfg, s, steps, t) && Quiet(steps, id)
    requires AgentOf(s, id).phase.Idle? && id in s.cache
    ensures AgentOf(t, id) == AgentOf(s, id) && id in t.cache && t.cache[id] == s.cache[id]
    ensures TickFresh(s, id) ==> TickFresh(t, id)
    ensures TickFresh(s, id) && LatestFresh(s, id) ==> LatestFresh(t, id)
    decreases |steps|
  {
    if steps == [] {
    } else {
      assert IsQuiet(steps[0], id);
      assert forall i | 0 <= i < |steps[1..]| :: steps[1..][i] == steps[i + 1];
      QuietStep(cfg, s, steps[0], id);
      QuietRun(cfg, Apply(cfg, s, steps[0]), steps[1..], t, id);
    }
  }

  /**
   Once an agent has finished its last report and that report is cached, a tick that
   snapshots afterwards and whose forward of this node is stored makes it the
   control plane's latest entry, stamps added; and it stays so under everything after.
   */
  lemma {:induction false} EventualFreshness(cfg: Config, s: State, before: seq<Step>, u: State, after: seq<Step>,
      t: State, id: NodeId)
    requires cfg.maxItems > 0
    requires LastReportCached(s, id)
    requires Leads(cfg, s, [Snapshot] + before, u) && Quiet(before, id)
    requires u.ticker.InFlight? && u.ticker.node == id
    requires Leads(cfg, u, [Store] + after, t) && Quiet(after, id)
    ensures AgentOf(t, id) == AgentOf(s, id)
    ensures Latest(LogOf(t.log, id)).Some?
    ensures Latest(LogOf(t.log, id)).value.number + 1 == |AgentOf(t, id).reported|
    ensures IsStoreOf(Latest(LogOf(t.log, id)).value, s.cache[id])
  {
    LeadsFirst(cfg, s, Snapshot, before, u);
    LeadsFirst(cfg, u, Store, after, t);
    var s1 := Apply(cfg, s, Snapshot);
    QuietStep(cfg, s, Snapshot, id);
    QuietRun(cfg, s1, before, u, id);
    QuietStep(cfg, u, Store, id);
    QuietStore(cfg, u, id);
    QuietRun(cfg, Apply(cfg, u, Store), after, t, id);
  }
}
