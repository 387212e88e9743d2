/**
 The aggregator's data processor on the heap: metrics maps are shared by
 reference, and a tick must work on its own copies while other goroutines keep
 writing to the cache.
 */
module Processor {
  import opened Prelude
  import opened Telemetry

  /** A Go map: whoever holds the reference sees its changes. */
  class MetricsMap {
    var fields: Fields

    constructor (fields: Fields)
      ensures this.fields == fields
    {
      this.fields := fields;
    }
  }

  /** A ProcessMetrics call by another goroutine. */
  datatype Write = Write(node: NodeId, metrics: MetricsMap)

  /** A forward attempt: the node and the body sent for it. */
  datatype Attempt = Attempt(node: NodeId, fields: Fields)

  type Cache = map<NodeId, MetricsMap>

  /** The cache after further writes, the last one per node winning. */
  function Overwritten(cache: Cache, writes: seq<Write>): Cache {
    if writes == [] then cache
    else
      var last := writes[|writes| - 1];
      Overwritten(cache, writes[..|writes| - 1])[last.node := last.metrics]
  }

  /** The writes of the first `n` gaps, in order. */
  function WritesBefore(gaps: nat -> seq<Write>, n: nat): seq<Write> {
    if n == 0 then [] else WritesBefore(gaps, n - 1) + gaps(n - 1)
  }

  lemma {:induction false} OverwrittenTwice(cache: Cache, a: seq<Write>, b: seq<Write>)
    ensures Overwritten(Overwritten(cache, a), b) == Overwritten(cache, a + b)
  {
    if b == [] {
      assert a + b == a;
    } else {
      OverwrittenTwice(cache, a, b[..|b| - 1]);
      assert (a + b)[..|a + b| - 1] == a + b[..|b| - 1];
    }
  }

  /** The bodies sent when the cached nodes are visited in `order`. */
  ghost predicate SentInOrder(cached: map<NodeId, Fields>, order: seq<NodeId>, clock: nat -> int,
      attempts: seq<Attempt>) {
    && |attempts| <= |order|
    && forall k | 0 <= k < |attempts| ::
         order[k] in cached && attempts[k] == Attempt(order[k], Stamped(cached[order[k]], PROCESSED, clock(k)))
  }

  lemma SentOneMore(cached: map<NodeId, Fields>, order: seq<NodeId>, clock: nat -> int, attempts: seq<Attempt>)
    requires SentInOrder(cached, order, clock, attempts) && |attempts| < |order| && order[|attempts|] in cached
    ensures var n := |attempts|;
            SentInOrder(cached, order, clock, attempts + [Attempt(order[n],
                Stamped(cached[order[n]], PROCESSED, clock(n)))])
  {
  }

  /** What the maps of a cache hold now. */
  ghost function FieldsOf(cache: Cache): map<NodeId, Fields>
    reads cache.Values
  {
    map id | id in cache :: cache[id].fields
  }

  /** No two nodes share a map. */
  ghost predicate Separate(cache: Cache) {
    forall id, other | id in cache && other in cache && id != other :: cache[id] != cache[other]
  }

  /** The maps visited from place `i` on hold what `cached` has. */
  ghost predicate Untouched(cache: Cache, cached: map<NodeId, Fields>, order: seq<NodeId>, i: nat)
    reads cache.Values
  {
    forall k | i <= k < |order| ::
      order[k] in cache && order[k] in cached && cache[order[k]].fields == cached[order[k]]
  }

  method CopyOf(m: MetricsMap) returns (copy: MetricsMap)
    ensures fresh(copy) && copy.fields == m.fields
  {
    copy := new MetricsMap(map[]);
    var order := AnyOrder(m.fields.Keys);
    for i := 0 to |order|
      invariant fresh(copy)
      invariant forall k :: k in copy.fields <==> k in order[..i]
      invariant forall k | k in copy.fields :: k in m.fields && copy.fields[k] == m.fields[k]
    {
      copy.fields := copy.fields[order[i] := m.fields[order[i]]];
    }
  }

  class DataProcessor {
    var data: Cache

    constructor ()
      ensures data == map[]
    {
      data := map[];
    }

    method ProcessMetrics(nodeID: NodeId, metrics: MetricsMap)
      modifies this
      ensures data == old(data)[nodeID := metrics]
    {
      data := data[nodeID := metrics];
    }

    /** The end of the aggregator's metrics handler: stamp the decoded payload, then hand it over. */
    method ReceiveMetrics(nodeID: NodeId, metrics: MetricsMap, now: int)
      modifies this, metrics
      ensures metrics.fields == Stamped(old(metrics.fields), AGGREGATOR_RECEIVED, now)
      ensures data == old(data)[nodeID := metrics]
    {
      metrics.fields := metrics.fields[AGGREGATOR_RECEIVED := JNum(Unix(now))];
      ProcessMetrics(nodeID, metrics);
    }

    /** Stamps a copy and sends it; what becomes of the request changes nothing here. */
    static method Forward(id: NodeId, metrics: MetricsMap, now: int) returns (attempt: Attempt)
      modifies metrics
      ensures metrics.fields == Stamped(old(metrics.fields), PROCESSED, now)
      ensures attempt == Attempt(id, metrics.fields)
    {
      metrics.fields := metrics.fields[PROCESSED := JNum(Unix(now))];
      attempt := Attempt(id, metrics.fields);
    }

    /** Other goroutines get the lock before the n-th forward. */
    method Unlocked(gaps: nat -> seq<Write>, n: nat, ghost start: Cache)
      requires data == Overwritten(start, WritesBefore(gaps, n))
      modifies this
      ensures data == Overwritten(start, WritesBefore(gaps, n + 1))
    {
      var writes := gaps(n);
      ghost var before := data;
      for i := 0 to |writes|
        invariant data == Overwritten(before, writes[..i])
      {
        assert writes[..i + 1][..i] == writes[..i];
        ProcessMetrics(writes[i].node, writes[i].metrics);
      }
      assert writes[..|writes|] == writes;
      OverwrittenTwice(start, WritesBefore(gaps, n), writes);
    }

    /** The others get the lock, then one copy is stamped and sent. */
    method Turn(id: NodeId, metrics: MetricsMap, clock: nat -> int, gaps: nat -> seq<Write>, n: nat, ghost start: Cache)
      returns (attempt: Attempt)
      requires data == Overwritten(start, WritesBefore(gaps, n))
      modifies this, metrics
      ensures data == Overwritten(start, WritesBefore(gaps, n + 1))
      ensures attempt == Attempt(id, Stamped(old(metrics.fields), PROCESSED, clock(n)))
    {
      Unlocked(gaps, n, start);
      attempt := Forward(id, metrics, clock(n));
    }

    /** The part after the lock is released. */
    method ForwardAll(snapshot: Cache, clock: nat -> int, gaps: nat -> seq<Write>) returns (attempts: seq<Attempt>)
      requires Separate(snapshot)
      modifies this, snapshot.Values
      ensures |attempts| == |snapshot|
      ensures exists order :: Visits(order, snapshot.Keys)
                && SentInOrder(old(FieldsOf(snapshot)), order, clock, attempts)
      ensures data == Overwritten(old(data), WritesBefore(gaps, |attempts|))
    {
      ghost var cached := FieldsOf(snapshot);
      var order := AnyOrder(snapshot.Keys);
      attempts := [];
      for i := 0 to |order|
        invariant data == Overwritten(old(data), WritesBefore(gaps, i))
        invariant Untouched(snapshot, cached, order, i)
        invariant |attempts| == i && SentInOrder(cached, order, clock, attempts)
      {
        var id := order[i];
        var attempt := Turn(id, snapshot[id], clock, gaps, i, old(data));
        SentOneMore(cached, order, clock, attempts);
        attempts := attempts + [attempt];
      }
    }

    /** The part under the lock: a copy of every cached map. */
    method Snapshot() returns (snapshot: Cache)
      ensures snapshot.Keys == data.Keys
      ensures forall id | id in snapshot :: fresh(snapshot[id]) && snapshot[id].fields == data[id].fields
      ensures Separate(snapshot)
    {
      snapshot := map[];
      var order := AnyOrder(data.Keys);
      for i := 0 to |order|
        invariant forall id :: id in snapshot <==> id in order[..i]
        invariant forall id | id in snapshot :: fresh(snapshot[id]) && snapshot[id].fields == data[id].fields
        invariant Separate(snapshot)
      {
        var metricsCopy := CopyOf(data[order[i]]);
        snapshot := snapshot[order[i] := metricsCopy];
      }
    }

    /**
     One tick. `clock(i)` is the time of the i-th forward and `gaps(i)` the writes other
     goroutines make before it, once the lock is released. Exactly one forward is
     attempted per node cached at the snapshot; its body is the node's cached map as
     it was then, with only `processed_at` set; no map reachable by anyone else
     changes; and the cache afterwards is what the writers alone made of it.
     */
    method ProcessMetricsData(clock: nat -> int, gaps: nat -> seq<Write>) returns (attempts: seq<Attempt>)
      modifies this
      ensures |attempts| == |old(data)|
      ensures exists order :: Visits(order, old(data).Keys)
                && SentInOrder(old(FieldsOf(data)), order, clock, attempts)
      ensures forall m: MetricsMap :: old(allocated(m)) ==> m.fields == old(m.fields)
      ensures data == Overwritten(old(data), WritesBefore(gaps, |attempts|))
    {
      var snapshot := Snapshot();
      attempts := ForwardAll(snapshot, clock, gaps);
    }

    method GetNodeMetrics(nodeID: NodeId) returns (metrics: Option<MetricsMap>)
      ensures metrics == if nodeID in data then Some(data[nodeID]) else None
    {
      if nodeID !in data {
        return None;
      }
      metrics := Some(data[nodeID]);
    }

    /** A fresh outer map over the same inner maps. */
    method GetAllNodesMetrics() returns (metrics: Cache)
      ensures metrics == data
    {
      metrics := map[];
      var order := AnyOrder(data.Keys);
      for i := 0 to |order|
        invariant forall id :: id in metrics <==> id in order[..i]
        invariant forall id | id in metrics :: id in data && metrics[id] == data[id]
      {
        metrics := metrics[order[i] := data[order[i]]];
      }
    }
  }
}
