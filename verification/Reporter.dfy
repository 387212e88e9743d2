/** The agent's reporter: its retry loop is a run of the delivery protocol, other components moving in between. */
module Reporter {
  import opened Prelude
  import opened Delivery

  /** What the network makes of one attempt: whether it reached the cache, and whether a success reply came back. */
  datatype Outcome = Lost | LandedUnacknowledged | Acknowledged

  /** A step that this agent does not take: one of another component, or an attempt it has given up on. */
  predicate IsOthers(step: Step, id: NodeId) {
    (step.Begin? || step.Land? || step.Acknowledge? || step.AttemptFails?) ==> step.id != id
  }

  predicate IsCalm(step: Step, id: NodeId) {
    step.LandLate? ==> step.id != id
  }

  /** None of the agent's attempts lands late. */
  ghost predicate Calm(steps: seq<Step>, id: NodeId) {
    forall i | 0 <= i < |steps| :: IsCalm(steps[i], id)
  }

  ghost predicate AllCalm(others: nat -> seq<Step>, id: NodeId) {
    forall k: nat :: Calm(others(k), id)
  }

  /** What is cached stays cached, and in a calm run unchanged. */
  ghost predicate SameCached(calm: bool, s: State, t: State, id: NodeId) {
    && (id in s.cache ==> id in t.cache)
    && (calm ==> (id in t.cache <==> id in s.cache) && (id in s.cache ==> t.cache[id] == s.cache[id]))
  }

  /** What of the protocol state a step of the others leaves alone. */
  ghost predicate SameSender(calm: bool, s: State, t: State, id: NodeId) {
    AgentOf(t, id) == AgentOf(s, id) && SameCached(calm, s, t, id)
  }

  /** Once an attempt has landed, a report is cached, and in a calm run report `number`; before, nothing changed. */
  ghost predicate CachedIf(calm: bool, landed: bool, s: State, t: State, id: NodeId, number: nat) {
    if landed then id in t.cache && (calm ==> t.cache[id].number == number) else SameCached(calm, s, t, id)
  }

  /** One of the first `n` attempts reached the cache. */
  ghost predicate LandedBy(network: nat -> Outcome, n: nat) {
    exists i: nat | i < n :: !network(i).Lost?
  }

  lemma OthersKeepSender(cfg: Config, s: State, step: Step, id: NodeId)
    requires Enabled(cfg, s, step) && IsOthers(step, id)
    ensures SameSender(IsCalm(step, id), s, Apply(cfg, s, step), id)
  {
  }

  /** A property of runs that no enabled step breaks. */
  ghost predicate Kept(cfg: Config, p: (seq<Step>, State) -> bool) {
    forall trace, t, step | p(trace, t) && Enabled(cfg, t, step) :: p(trace + [step], Apply(cfg, t, step))
  }

  lemma LeadingIsKept(cfg: Config, s: State)
    ensures Kept(cfg, (trace, t) => Leads(cfg, s, trace, t)) && Leads(cfg, s, [], s)
  {
    forall trace, t, step | Leads(cfg, s, trace, t) && Enabled(cfg, t, step)
      ensures Leads(cfg, s, trace + [step], Apply(cfg, t, step))
    {
      LeadsSnoc(cfg, s, trace, t, step);
    }
  }

  /** Extends a run by one enabled step. */
  lemma Take(cfg: Config, p: (seq<Step>, State) -> bool, trace: seq<Step>, t: State,
      step: Step) returns (longer: seq<Step>, u: State)
    requires Kept(cfg, p) && p(trace, t) && Enabled(cfg, t, step)
    ensures longer == trace + [step] && u == Apply(cfg, t, step)
    ensures p(longer, u)
  {
    longer, u := trace + [step], Apply(cfg, t, step);
  }

  /** The other components take those of the given steps that are theirs and enabled. */
  lemma {:induction false} OthersMove(
    cfg: Config, p: (seq<Step>, State) -> bool, trace: seq<Step>, t: State, id: NodeId, steps: seq<Step>)
    returns (longer: seq<Step>, u: State)
    requires Kept(cfg, p) && p(trace, t)
    ensures p(longer, u) && SameSender(Calm(steps, id), t, u, id)
    decreases |steps|
  {
    longer, u := trace, t;
    if steps == [] {
    } else {
      assert Calm(steps, id) ==> IsCalm(steps[0], id) && Calm(steps[1..], id);
      if IsOthers(steps[0], id) && Enabled(cfg, t, steps[0]) {
        OthersKeepSender(cfg, t, steps[0], id);
        longer, u := Take(cfg, p, trace, t, steps[0]);
      }
      ghost var v := u;
      longer, u := OthersMove(cfg, p, longer, v, id, steps[1..]);
    }
  }

  class HTTPReporter {
    const nodeID: NodeId
    const retryCount: nat

    /** A negative retry count leaves the default. */
    constructor (nodeID: NodeId, retryCount: int)
      ensures this.nodeID == nodeID
      ensures this.retryCount == if retryCount >= 0 then retryCount else 3
    {
      this.nodeID := nodeID;
      this.retryCount := if retryCount >= 0 then retryCount else 3;
    }

    /** The run so far, and where n attempts have brought the agent and its cached report. */
    ghost predicate Attempted(
      calm: bool, p: (seq<Step>, State) -> bool, s: State, trace: seq<Step>, t: State, fields: Fields,
          network: nat -> Outcome, n: nat)
    {
      var agent, done := AgentOf(t, nodeID), n == retryCount + 1 || (n > 0 && network(n - 1).Acknowledged?);
      && p(trace, t)
      && agent == Agent(AgentOf(s, nodeID).reported + [fields], if done then Idle else Sending(n, false))
      && CachedIf(calm, LandedBy(network, n), s, t, nodeID, |AgentOf(s, nodeID).reported|)
    }

    lemma Started(
      calm: bool, cfg: Config, p: (seq<Step>, State) -> bool, s: State, fields: Fields, network: nat -> Outcome)
      returns (trace: seq<Step>, t: State)
      requires Kept(cfg, p) && p([], s)
      requires AgentOf(s, nodeID).phase.Idle?
      ensures Attempted(calm, p, s, trace, t, fields, network, 0)
    {
      trace, t := Take(cfg, p, [], s, Begin(nodeID, fields));
    }

    lemma Sent(calm: bool, cfg: Config, p: (seq<Step>, State) -> bool, outcome: Outcome, trace: seq<Step>, t: State,
        before: seq<Step>)
      returns (longer: seq<Step>, u: State)
      requires Kept(cfg, p) && p(trace, t) && (calm ==> Calm(before, nodeID))
      requires AgentOf(t, nodeID).reported != []
      requires AgentOf(t, nodeID).phase.Sending? && !AgentOf(t, nodeID).phase.landed
      ensures p(longer, u)
      ensures AgentOf(u, nodeID) == AgentOf(t, nodeID).(phase := AgentOf(t, nodeID).phase.(landed := !outcome.Lost?))
      ensures CachedIf(calm, !outcome.Lost?, t, u, nodeID, |AgentOf(t, nodeID).reported| - 1)
    {
      longer, u := OthersMove(cfg, p, trace, t, nodeID, before);
      if !outcome.Lost? {
        longer, u := Take(cfg, p, longer, u, Land(nodeID));
      }
    }

    /** What the reply, or its absence, does to the agent. */
    lemma ReplyOutcome(cfg: Config, t: State, acknowledged: bool)
      requires AgentOf(t, nodeID).phase.Sending? && (acknowledged ==> AgentOf(t, nodeID).phase.landed)
      ensures var agent, step := AgentOf(t, nodeID), if acknowledged then Acknowledge(nodeID) else AttemptFails(nodeID);
              var done := acknowledged || agent.phase.attempt >= cfg.retryCount(nodeID);
              && Enabled(cfg, t, step) && Apply(cfg, t, step).cache == t.cache
              && AgentOf(Apply(cfg, t, step), nodeID)
                 == agent.(phase := if done then Idle else Sending(agent.phase.attempt + 1, false))
    {
    }

    lemma Replied(calm: bool, cfg: Config, p: (seq<Step>, State) -> bool, acknowledged: bool, trace: seq<Step>,
        t: State,
        meanwhile: seq<Step>)
      returns (longer: seq<Step>, u: State)
      requires Kept(cfg, p) && p(trace, t) && (calm ==> Calm(meanwhile, nodeID))
      requires AgentOf(t, nodeID).phase.Sending? && (acknowledged ==> AgentOf(t, nodeID).phase.landed)
      ensures p(longer, u) && SameCached(calm, t, u, nodeID)
      ensures var agent := AgentOf(t, nodeID);
              var done := acknowledged || agent.phase.attempt >= cfg.retryCount(nodeID);
              AgentOf(u, nodeID) == agent.(phase := if done then Idle else Sending(agent.phase.attempt + 1, false))
    {
      longer, u := OthersMove(cfg, p, trace, t, nodeID, meanwhile);
      ReplyOutcome(cfg, u, acknowledged);
      longer, u := Take(cfg, p, longer, u, if acknowledged then Acknowledge(nodeID) else AttemptFails(nodeID));
    }

    lemma Turn(
      calm: bool, cfg: Config, p: (seq<Step>, State) -> bool, outcome: Outcome, trace: seq<Step>, t: State,
      before: seq<Step>, meanwhile: seq<Step>)
      returns (longer: seq<Step>, u: State)
      requires Kept(cfg, p) && p(trace, t) && (calm ==> Calm(before, nodeID) && Calm(meanwhile, nodeID))
      requires AgentOf(t, nodeID).reported != []
      requires AgentOf(t, nodeID).phase.Sending? && !AgentOf(t, nodeID).phase.landed
      ensures p(longer, u)
      ensures var agent := AgentOf(t, nodeID);
              var done := outcome.Acknowledged? || agent.phase.attempt >= cfg.retryCount(nodeID);
              AgentOf(u, nodeID) == agent.(phase := if done then Idle else Sending(agent.phase.attempt + 1, false))
      ensures CachedIf(calm, !outcome.Lost?, t, u, nodeID, |AgentOf(t, nodeID).reported| - 1)
    {
      longer, u := Sent(calm, cfg, p, outcome, trace, t, before);
      longer, u := Replied(calm, cfg, p, outcome.Acknowledged?, longer, u, meanwhile);
    }

    /** One turn of the retry loop. */
    lemma Attempt(
      calm: bool, cfg: Config, p: (seq<Step>, State) -> bool, s: State, fields: Fields, network: nat -> Outcome, n: nat,
      trace: seq<Step>, t: State, before: seq<Step>, meanwhile: seq<Step>)
      returns (longer: seq<Step>, u: State)
      requires Kept(cfg, p) && cfg.retryCount(nodeID) == retryCount
          && Attempted(calm, p, s, trace, t, fields, network, n)
      requires n <= retryCount && (n > 0 ==> !network(n - 1).Acknowledged?)
      requires calm ==> Calm(before, nodeID) && Calm(meanwhile, nodeID)
      ensures Attempted(calm, p, s, longer, u, fields, network, n + 1)
    {
      assert LandedBy(network, n + 1) <==> LandedBy(network, n) || !network(n).Lost?;
      longer, u := Turn(calm, cfg, p, network(n), trace, t, before, meanwhile);
    }

    /**
     `prepared` says whether the data could be marshalled, compressed and encrypted; if not,
     nothing is sent. Otherwise, whatever the network and the other components do, the
     attempts are steps of a run of the protocol that leaves the agent idle with one more
     report; the call succeeds iff one of its retryCount + 1 attempts is acknowledged, stops
     at the first such, and has the report cached iff some attempt made up to then landed,
     unless attempts that were given up land late in between: then some report is cached.
     `others(2 * k)` and `others(2 * k + 1)` move before the k-th attempt and before its reply.
     */
    method Report(
      cfg: Config, ghost s: State, fields: Fields, prepared: bool, network: nat -> Outcome, others: nat -> seq<Step>)
      returns (ok: bool, attempts: nat, ghost trace: seq<Step>, ghost t: State)
      requires cfg.retryCount(nodeID) == retryCount
      requires AgentOf(s, nodeID).phase.Idle?
      ensures Leads(cfg, s, trace, t)
      ensures !prepared ==> !ok && attempts == 0 && trace == []
      ensures prepared ==> AgentOf(t, nodeID) == Agent(AgentOf(s, nodeID).reported + [fields], Idle)
      ensures prepared ==> 1 <= attempts <= retryCount + 1 && (ok <==> network(attempts - 1).Acknowledged?)
      ensures forall i: nat | i < attempts - 1 :: !network(i).Acknowledged?
      ensures prepared && !ok ==> attempts == retryCount + 1
      ensures CachedIf(AllCalm(others, nodeID), LandedBy(network, attempts), s, t, nodeID,
          |AgentOf(s, nodeID).reported|)
    {
      trace, t := [], s;
      ok, attempts := false, 0;
      if !prepared {
        return;
      }
      ghost var calm := AllCalm(others, nodeID);
      ghost var p: (seq<Step>, State) -> bool := (steps, u) => Leads(cfg, s, steps, u);
      LeadingIsKept(cfg, s);
      trace, t := Started(calm, cfg, p, s, fields, network);
      while attempts <= retryCount && !ok
        invariant 0 <= attempts <= retryCount + 1
        invariant Attempted(calm, p, s, trace, t, fields, network, attempts)
        invariant ok <==> attempts > 0 && network(attempts - 1).Acknowledged?
        invariant forall i: nat | i < attempts - 1 :: !network(i).Acknowledged?
        decreases retryCount + 1 - attempts
      {
        var before, meanwhile := others(2 * attempts), others(2 * attempts + 1);
        trace, t := Attempt(calm, cfg, p, s, fields, network, attempts, trace, t, before, meanwhile);
        ok := network(attempts).Acknowledged?;
        attempts := attempts + 1;
      }
    }
  }
}
