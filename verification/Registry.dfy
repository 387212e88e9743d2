/**
 The aggregator's connection registry: register, heartbeat, metrics and cleanup
 against a clock. A heartbeat from an unknown node takes the lock twice, so other
 requests run in between.
 */
module Registry {
  import opened Prelude

  /** An entry as a value. */
  datatype Connection = Connection(nodeID: NodeId, status: string, verified: bool, connectedAt: int, lastActive: int)

  type Entries = map<NodeId, Connection>

  // ----- what each critical section does to the entries -----

  function Registered(entries: Entries, id: NodeId, verified: bool, now: int): Entries {
    if id in entries then
      var c := entries[id];
      entries[id := c.(lastActive := now, status := "active", verified := verified || c.verified)]
    else
      entries[id := Connection(id, "connected", verified, now, now)]
  }

  function Touched(entries: Entries, id: NodeId, now: int): Entries {
    if id in entries then entries[id := entries[id].(lastActive := now, status := "active")] else entries
  }

  function Cleaned(entries: Entries, now: int, timeout: int): Entries {
    map id | id in entries && now - entries[id].lastActive <= timeout :: entries[id]
  }

  /** A registration creates an unknown entry and refreshes a known one; no other entry changes. */
  ghost predicate IsRegistered(was: Entries, now: Entries, id: NodeId, verified: bool, time: int) {
    && now.Keys == was.Keys + {id}
    && now[id] == (if id in was
                   then Connection(was[id].nodeID, "active", verified || was[id].verified, was[id].connectedAt, time)
                   else Connection(id, "connected", verified, time, time))
    && forall other | other in was && other != id :: now[other] == was[other]
  }

  lemma RegisteredMeaning(entries: Entries, id: NodeId, verified: bool, now: int)
    ensures IsRegistered(entries, Registered(entries, id, verified, now), id, verified, now)
  {
  }

  // ----- the imperative registry -----

  /** An entry on the heap, reached and changed through its pointer. */
  class NodeConnection {
    const nodeID: NodeId
    var status: string
    var verified: bool
    const connectedAt: int
    var lastActive: int

    constructor (nodeID: NodeId, verified: bool, now: int)
      ensures Value() == Connection(nodeID, "connected", verified, now, now)
    {
      this.nodeID, this.status, this.verified := nodeID, "connected", verified;
      this.connectedAt, this.lastActive := now, now;
    }

    function Value(): Connection
      reads this
    {
      Connection(nodeID, status, verified, connectedAt, lastActive)
    }
  }

  class Connections {
    var nodes: map<NodeId, NodeConnection>

    /** No two keys share an entry. */
    ghost predicate Valid()
      reads this
    {
      forall id, other | id in nodes && other in nodes && id != other :: nodes[id] != nodes[other]
    }

    function View(): Entries
      reads this, nodes.Values
    {
      map id | id in nodes :: nodes[id].Value()
    }

    constructor ()
      ensures Valid() && View() == map[]
    {
      nodes := map[];
    }

    /** A known node: its entry is changed through the pointer. */
    method Refresh(nodeID: NodeId, verified: bool, now: int)
      requires Valid() && nodeID in nodes
      modifies nodes.Values
      ensures View() == Registered(old(View()), nodeID, verified, now)
    {
      var conn := nodes[nodeID];
      conn.lastActive := now;
      conn.status := "active";
      if verified {
        conn.verified := true;
      }
    }

    method RegisterOrUpdateNode(nodeID: NodeId, verified: bool, now: int)
      requires Valid()
      modifies this, nodes.Values
      ensures Valid() && fresh(nodes.Values - old(nodes.Values))
      ensures View() == Registered(old(View()), nodeID, verified, now)
      ensures IsRegistered(old(View()), View(), nodeID, verified, now)
      ensures nodeID !in old(View()) ==> View()[nodeID] == Connection(nodeID, "connected", verified, now, now)
    {
      RegisteredMeaning(View(), nodeID, verified, now);
      if nodeID in nodes {
        Refresh(nodeID, verified, now);
      } else {
        var conn := new NodeConnection(nodeID, verified, now);
        nodes := nodes[nodeID := conn];
      }
    }

    method UpdateNodeActivity(nodeID: NodeId, now: int) returns (known: bool)
      requires Valid()
      modifies nodes.Values
      ensures known <==> nodeID in nodes
      ensures View() == Touched(old(View()), nodeID, now)
      ensures known ==>
                var was := old(View())[nodeID];
                View()[nodeID] == Connection(was.nodeID, "active", was.verified, was.connectedAt, now)
      ensures forall id | id in old(nodes) && (id != nodeID || !known) :: View()[id] == old(View())[id]
    {
      if nodeID in nodes {
        var conn := nodes[nodeID];
        conn.lastActive := now;
        conn.status := "active";
        return true;
      }
      return false;
    }

    /** The loop over the map. */
    method DeleteIdle(now: int, timeout: int)
      modifies this
      ensures nodes == map id | id in old(nodes) && now - old(nodes[id].lastActive) <= timeout :: old(nodes)[id]
    {
      ghost var start := nodes;
      var left := nodes.Keys;
      while left != {}
        invariant left <= nodes.Keys <= start.Keys
        invariant forall id | id in nodes :: nodes[id] == start[id]
        invariant forall id | id in start :: id in nodes <==> id in left || now - start[id].lastActive <= timeout
      {
        var nodeID :| nodeID in left;
        left := left - {nodeID};
        if now - nodes[nodeID].lastActive > timeout {
          nodes := nodes - {nodeID};
        }
      }
    }

    /** Whatever order the map is ranged over, exactly the entries idle for at most the timeout stay, unchanged. */
    method CleanupConnections(now: int, timeout: int)
      requires Valid()
      modifies this
      ensures Valid() && nodes.Values <= old(nodes.Values)
      ensures View() == Cleaned(old(View()), now, timeout)
      ensures forall id :: id in nodes <==> id in old(nodes) && now - old(View())[id].lastActive <= timeout
      ensures forall id | id in nodes :: View()[id] == old(View())[id]
    {
      ghost var was := View();
      DeleteIdle(now, timeout);
      assert View() == Cleaned(was, now, timeout);
    }
  }

  // ----- runs -----

  /**
   `waiting` holds the heartbeats that found no entry and have not yet come back
   for the lock to register one.
   */
  datatype State = State(entries: Entries, now: int, waiting: multiset<NodeId>)

  /** One critical section, or time passing. */
  datatype Step =
    | Elapse(time: nat)
    | ValidatedRegister(id: NodeId)  // after the control plane accepted the token
    | HeartbeatTouch(id: NodeId)
    | HeartbeatRegister(id: NodeId)
    | Metrics(id: NodeId)
    | Cleanup

  predicate Enabled(s: State, step: Step) {
    step.HeartbeatRegister? ==> step.id in s.waiting
  }

  function Apply(timeout: int, s: State, step: Step): State {
    match step
    case Elapse(time) => s.(now := s.now + time)
    case ValidatedRegister(id) => s.(entries := Registered(s.entries, id, true, s.now))
    case HeartbeatTouch(id) =>
      s.(entries := Touched(s.entries, id, s.now),
         waiting := if id in s.entries then s.waiting else s.waiting + multiset{id})
    case HeartbeatRegister(id) =>
      s.(entries := Registered(s.entries, id, false, s.now), waiting := s.waiting - multiset{id})
    case Metrics(id) => s.(entries := Touched(s.entries, id, s.now))
    case Cleanup => s.(entries := Cleaned(s.entries, s.now, timeout))
  }

  predicate IsValidation(step: Step, id: NodeId) {
    step.ValidatedRegister? && step.id == id
  }

  /** A request that refreshes the entry of `id`. */
  predicate IsActivity(step: Step, id: NodeId) {
    (step.ValidatedRegister? || step.HeartbeatTouch? || step.HeartbeatRegister? || step.Metrics?) && step.id == id
  }

  /** A request that creates an entry for an unknown node. */
  predicate IsRegistration(step: Step, id: NodeId) {
    (step.ValidatedRegister? || step.HeartbeatRegister?) && step.id == id
  }

  /** What one step does to the entry of one node. */
  lemma EntryStep(timeout: int, s: State, step: Step, id: NodeId)
    ensures var t := Apply(timeout, s, step);
            && s.now <= t.now
            && (id in t.entries <==>
                  if id in s.entries then step.Cleanup? ==> s.now - s.entries[id].lastActive <= timeout
                  else IsRegistration(step, id))
            && (id in s.entries && id in t.entries ==>
                  t.entries[id] == s.entries[id].(
                    verified := s.entries[id].verified || IsValidation(step, id),
                    status := if IsActivity(step, id) then "active" else s.entries[id].status,
                    lastActive := if IsActivity(step, id) then s.now else s.entries[id].lastActive))
            && (id !in s.entries && id in t.entries ==>
                  t.entries[id] == Connection(id, "connected", IsValidation(step, id), s.now, s.now))
  {
  }

  /**
   A heartbeat of an unknown node waits to register it and changes no entry; one of a known
   node does not wait. A registration of its own ends the wait, and nothing else does.
   */
  lemma WaitingStep(timeout: int, s: State, step: Step, id: NodeId)
    requires Enabled(s, step)
    ensures var t := Apply(timeout, s, step);
            t.waiting[id]
            == if step == HeartbeatTouch(id) && id !in s.entries then s.waiting[id] + 1
               else if step == HeartbeatRegister(id) then s.waiting[id] - 1
               else s.waiting[id]
    ensures step == HeartbeatTouch(id) && id !in s.entries ==> Apply(timeout, s, step).entries == s.entries
  {
  }

  ghost predicate Run(timeout: int, states: seq<State>, steps: seq<Step>) {
    && |states| == |steps| + 1
    && states[0].entries == map[]
    && forall i | 0 <= i < |steps| :: Enabled(states[i], steps[i])
        && states[i + 1] == Apply(timeout, states[i], steps[i])
  }

  ghost predicate Present(states: seq<State>, id: NodeId, from: nat, to: nat)
    requires to < |states|
  {
    forall j | from <= j <= to :: id in states[j].entries
  }

  /** A validated registration was applied at some step, and the entry has existed ever since. */
  ghost predicate ValidatedSinceCreation(states: seq<State>, steps: seq<Step>, id: NodeId, k: nat)
    requires |states| == |steps| + 1 && k < |states|
  {
    exists i :: 0 <= i < k && IsValidation(steps[i], id) && Present(states, id, i + 1, k)
  }

  /**
   At every point of every run an entry is verified exactly when a validated
   registration was applied since it was last created. So an unverified
   re-registration never clears the mark, and a recreated entry does not inherit it.
   */
  lemma {:induction false} VerifiedIff(timeout: int, states: seq<State>, steps: seq<Step>, id: NodeId, k: nat)
    requires Run(timeout, states, steps) && k <= |steps| && id in states[k].entries
    ensures states[k].entries[id].verified <==> ValidatedSinceCreation(states, steps, id, k)
    decreases k
  {
    if k == 0 {
    } else {
      EntryStep(timeout, states[k - 1], steps[k - 1], id);
      if IsValidation(steps[k - 1], id) {
        assert Present(states, id, k, k);
      } else if id in states[k - 1].entries {
        VerifiedIff(timeout, states, steps, id, k - 1);
        if ValidatedSinceCreation(states, steps, id, k - 1) {
          var i :| 0 <= i < k - 1 && IsValidation(steps[i], id) && Present(states, id, i + 1, k - 1);
          assert Present(states, id, i + 1, k);
        }
      }
    }
  }

  /** connectedAt <= lastActive <= now, for every entry at every point of every run. */
  lemma {:induction false} TimesOrdered(timeout: int, states: seq<State>, steps: seq<Step>, id: NodeId, k: nat)
    requires Run(timeout, states, steps) && k <= |steps| && id in states[k].entries
    ensures states[k].entries[id].nodeID == id
    ensures states[k].entries[id].connectedAt <= states[k].entries[id].lastActive <= states[k].now
    decreases k
  {
    if k == 0 {
    } else {
      EntryStep(timeout, states[k - 1], steps[k - 1], id);
      if id in states[k - 1].entries {
        TimesOrdered(timeout, states, steps, id, k - 1);
      }
    }
  }

  /** When `id` was last heard of before step `k`, counting from its entry at state `a`. */
  function LastActivity(states: seq<State>, steps: seq<Step>, id: NodeId, a: nat, k: nat): int
    requires a <= k < |states| == |steps| + 1 && id in states[a].entries
  {
    if k == a then states[a].entries[id].lastActive
    else if IsActivity(steps[k - 1], id) then states[k - 1].now
    else LastActivity(states, steps, id, a, k - 1)
  }

  /** At every cleanup from state `a` to state `k`, the node was heard of within the timeout. */
  ghost predicate GapsWithin(timeout: int, states: seq<State>, steps: seq<Step>, id: NodeId, a: nat, k: nat)
    requires a <= k < |states| == |steps| + 1 && id in states[a].entries
  {
    forall c | a <= c < k && steps[c].Cleanup? :: states[c].now - LastActivity(states, steps, id, a, c) <= timeout
  }

  lemma GapsUpTo(timeout: int, states: seq<State>, steps: seq<Step>, id: NodeId, a: nat, k: nat)
    requires a < k < |states| == |steps| + 1 && id in states[a].entries
    ensures GapsWithin(timeout, states, steps, id, a, k) <==>
            GapsWithin(timeout, states, steps, id, a, k - 1)
            && (steps[k - 1].Cleanup? ==> states[k - 1].now - LastActivity(states, steps, id, a, k - 1) <= timeout)
  {
  }

  /**
   An entry survives exactly as long as no cleanup finds its node silent for more than
   the timeout; while it does, it keeps its connection time and its verified mark.
   */
  lemma {:induction false} SurvivesIff(timeout: int, states: seq<State>, steps: seq<Step>, id: NodeId, a: nat, k: nat)
    requires Run(timeout, states, steps) && a <= k <= |steps| && id in states[a].entries
    ensures Present(states, id, a, k) <==> GapsWithin(timeout, states, steps, id, a, k)
    ensures Present(states, id, a, k) ==>
              && states[k].entries[id].connectedAt == states[a].entries[id].connectedAt
              && (states[a].entries[id].verified ==> states[k].entries[id].verified)
              && states[k].entries[id].lastActive == LastActivity(states, steps, id, a, k)
    decreases k
  {
    if k == a {
    } else {
      SurvivesIff(timeout, states, steps, id, a, k - 1);
      EntryStep(timeout, states[k - 1], steps[k - 1], id);
      GapsUpTo(timeout, states, steps, id, a, k);
      if Present(states, id, a, k - 1) {
        assert id in states[k - 1].entries;
        assert Present(states, id, a, k) <==> id in states[k].entries;
      } else {
        assert !Present(states, id, a, k);
      }
    }
  }
}
