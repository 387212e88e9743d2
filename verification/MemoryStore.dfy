/**
 The control plane's bounded in-memory metrics store, proved to be a window
 onto the unbounded log of everything ever stored.
 */
module MemoryStore {
  import opened Prelude

  datatype MetricsEntry<+T> = MetricsEntry(timestamp: int, data: T)

  type Log<T> = seq<MetricsEntry<T>>

  const DEFAULT_MAX_ITEMS := 1000

  /** The newest `n` entries, or all of them when there are fewer. */
  function Newest<T>(log: Log<T>, n: nat): Log<T> {
    if |log| <= n then log else log[|log| - n..]
  }

  /** The log of a node; a node never stored has an empty one. */
  function LogOf<T>(logs: map<NodeId, Log<T>>, id: NodeId): Log<T> {
    if id in logs then logs[id] else []
  }

  predicate InRange<T>(entry: MetricsEntry<T>, start: int, end: int) {
    start <= entry.timestamp <= end
  }

  /** The payloads stamped within [start, end], oldest first. */
  function RangeQuery<T>(log: Log<T>, start: int, end: int): seq<T> {
    if log == [] then []
    else
      var older := RangeQuery(log[..|log| - 1], start, end);
      var last := log[|log| - 1];
      if InRange(last, start, end) then older + [last.data] else older
  }

  function Latest<T>(log: Log<T>): Option<T> {
    if log == [] then None else Some(log[|log| - 1].data)
  }

  /** Timestamps never go back. */
  ghost predicate ClockOrdered<T>(log: Log<T>) {
    forall i, j | 0 <= i < j < |log| :: log[i].timestamp <= log[j].timestamp
  }

  lemma {:induction false} RangeQueryConcat<T>(a: Log<T>, b: Log<T>, start: int, end: int)
    ensures RangeQuery(a + b, start, end) == RangeQuery(a, start, end) + RangeQuery(b, start, end)
  {
    if b == [] {
      assert a + b == a;
    } else {
      var c := a + b;
      assert c[..|c| - 1] == a + b[..|b| - 1];
      RangeQueryConcat(a, b[..|b| - 1], start, end);
    }
  }

  lemma {:induction false} RangeQueryEmpty<T>(log: Log<T>, start: int, end: int)
    ensures RangeQuery(log, start, end) == [] <==> forall i | 0 <= i < |log| :: !InRange(log[i], start, end)
  {
    if log == [] {
    } else {
      var front := log[..|log| - 1];
      RangeQueryEmpty(front, start, end);
      assert forall i | 0 <= i < |front| :: front[i] == log[i];
      assert InRange(log[|log| - 1], start, end) ==> RangeQuery(log, start, end) != [];
    }
  }

  /** Appending and trimming commute with trimming the whole history. */
  lemma TrimAfterAppend<T>(history: Log<T>, entry: MetricsEntry<T>, n: nat)
    requires n > 0
    ensures Newest(Newest(history, n) + [entry], n) == Newest(history + [entry], n)
  {
    if |history| > n {
      assert (history[|history| - n..] + [entry])[1..] == (history + [entry])[|history| + 1 - n..];
    }
  }

  /** A range query on the bounded log is exact precisely when no evicted entry lies in the range. */
  lemma RangeQueryExact<T>(history: Log<T>, n: nat, start: int, end: int)
    ensures RangeQuery(Newest(history, n), start, end) == RangeQuery(history, start, end)
            <==> forall i | 0 <= i < |history| - n :: !InRange(history[i], start, end)
  {
    if |history| > n {
      var evicted, kept := history[..|history| - n], history[|history| - n..];
      assert history == evicted + kept;
      RangeQueryConcat(evicted, kept, start, end);
      RangeQueryEmpty(evicted, start, end);
      assert forall i | 0 <= i < |evicted| :: evicted[i] == history[i];
      assert |RangeQuery(history, start, end)| == |RangeQuery(evicted, start, end)| + |RangeQuery(kept, start, end)|;
      if RangeQuery(evicted, start, end) == [] {
        assert RangeQuery(history, start, end) == RangeQuery(kept, start, end);
      }
    }
  }

  /**
   With a clock that never goes back, a range reaching at least to the newest
   evicted timestamp is answered exactly iff it starts after that timestamp.
   */
  lemma RangeQueryAfterEviction<T>(history: Log<T>, n: nat, start: int, end: int)
    requires ClockOrdered(history)
    ensures |history| <= n ==> RangeQuery(Newest(history, n), start, end) == RangeQuery(history, start, end)
    ensures |history| > n && start > history[|history| - n - 1].timestamp
            ==> RangeQuery(Newest(history, n), start, end) == RangeQuery(history, start, end)
    ensures |history| > n && end >= history[|history| - n - 1].timestamp
            && RangeQuery(Newest(history, n), start, end) == RangeQuery(history, start, end)
            ==> start > history[|history| - n - 1].timestamp
  {
    RangeQueryExact(history, n, start, end);
  }

  lemma NewestEndsWith<T>(log: Log<T>, entry: MetricsEntry<T>, n: nat)
    requires n > 0
    ensures var kept := Newest(log + [entry], n); 0 < |kept| <= n && kept[|kept| - 1] == entry
  {
  }

  lemma LatestExact<T>(history: Log<T>, n: nat)
    requires n > 0
    ensures Latest(Newest(history, n)) == Latest(history)
  {
  }

  ghost predicate Increasing(ps: seq<nat>) {
    forall i, j | 0 <= i < j < |ps| :: ps[i] < ps[j]
  }

  /** `result` is the payloads at `ps`, which are all places stamped within [start, end], in order. */
  ghost predicate PicksOut<T>(result: seq<T>, log: Log<T>, ps: seq<nat>, start: int, end: int) {
    && Increasing(ps)
    && (forall i: nat | i < |log| :: i in ps <==> start <= log[i].timestamp && log[i].timestamp <= end)
    && |result| == |ps|
    && forall j | 0 <= j < |ps| :: ps[j] < |log| && result[j] == log[ps[j]].data
  }

  lemma PicksOutMore<T>(result: seq<T>, log: Log<T>, ps: seq<nat>, entry: MetricsEntry<T>, start: int, end: int)
    requires PicksOut(result, log, ps, start, end)
    ensures if start <= entry.timestamp && entry.timestamp <= end
            then PicksOut(result + [entry.data], log + [entry], ps + [|log|], start, end)
            else PicksOut(result, log + [entry], ps, start, end)
  {
    var more := log + [entry];
    assert forall i | 0 <= i < |log| :: more[i] == log[i];
    if start <= entry.timestamp && entry.timestamp <= end {
      var qs := ps + [|log|];
      forall i: nat | i < |more| ensures i in qs <==> start <= more[i].timestamp && more[i].timestamp <= end {
        assert i in qs <==> i in ps || i == |log|;
      }
    }
  }

  /** A range query returns each payload of the range once, oldest first, and nothing else. */
  lemma {:induction false} RangeQueryPicksOut<T>(log: Log<T>, start: int, end: int) returns (ps: seq<nat>)
    ensures PicksOut(RangeQuery(log, start, end), log, ps, start, end)
  {
    if log == [] {
      ps := [];
    } else {
      var n := |log| - 1;
      ps := RangeQueryPicksOut(log[..n], start, end);
      PicksOutMore(RangeQuery(log[..n], start, end), log[..n], ps, log[n], start, end);
      assert log == log[..n] + [log[n]];
      if start <= log[n].timestamp <= end {
        ps := ps + [n];
      }
    }
  }

  /** One node's list with an entry appended, and resliced when it has grown beyond its bound. */
  method AppendBounded<T>(entries: Log<T>, entry: MetricsEntry<T>, maxItems: nat) returns (list: Log<T>)
    requires maxItems > 0
    ensures list == Newest(entries + [entry], maxItems)
  {
    list := entries + [entry];
    if |list| > maxItems {
      list := list[|list| - maxItems..];
    }
  }

  class MemoryStorage<T> {
    var data: map<NodeId, Log<T>>
    const maxItems: nat
    /** Everything ever stored, per node. */
    ghost var history: map<NodeId, Log<T>>

    /** Each stored list is the tail of its node's own history. */
    ghost predicate Valid()
      reads this
    {
      && maxItems > 0
      && data.Keys == history.Keys
      && forall id | id in data :: history[id] != [] && data[id] == Newest(history[id], maxItems)
    }

    constructor (maxItems: int)
      ensures Valid()
      ensures history == map[]
      ensures this.maxItems == if maxItems <= 0 then 1000 else maxItems
      ensures data == map[]
    {
      this.maxItems := if maxItems <= 0 then DEFAULT_MAX_ITEMS else maxItems;
      data := map[];
      history := map[];
    }

    /** Only the history of `nodeID` grows, by this one entry, and no list exceeds its bound. */
    method StoreMetrics(nodeID: NodeId, metrics: T, now: int)
      requires Valid()
      modifies this
      ensures Valid()
      ensures history == old(history)[nodeID := LogOf(old(history), nodeID) + [MetricsEntry(now, metrics)]]
      ensures forall id | id in data :: |data[id]| <= maxItems
      ensures nodeID in data && data[nodeID] != []
      ensures data[nodeID][|data[nodeID]| - 1] == MetricsEntry(now, metrics)
      ensures data == old(data)[nodeID := data[nodeID]]
    {
      var entry := MetricsEntry(now, metrics);
      ghost var before := LogOf(history, nodeID);
      TrimAfterAppend(before, entry, maxItems);
      NewestEndsWith(before, entry, maxItems);
      var entries := AppendBounded(if nodeID in data then data[nodeID] else [], entry, maxItems);
      data := data[nodeID := entries];
      history := history[nodeID := before + [entry]];
    }

    /** The answer equals the one from the full history iff no evicted entry lies in the range. */
    method GetNodeMetrics(nodeID: NodeId, start: int, end: int) returns (result: seq<T>)
      requires Valid()
      ensures result == RangeQuery(Newest(LogOf(history, nodeID), maxItems), start, end)
      ensures nodeID !in data ==> result == []
      ensures nodeID in data ==> exists ps :: PicksOut(result, data[nodeID], ps, start, end)
      ensures result == RangeQuery(LogOf(history, nodeID), start, end)
              <==> forall i | 0 <= i < |LogOf(history, nodeID)| - maxItems ::
                  !InRange(LogOf(history, nodeID)[i], start, end)
    {
      result := [];
      if nodeID in data {
        var entries := data[nodeID];
        for i := 0 to |entries|
          invariant result == RangeQuery(entries[..i], start, end)
        {
          assert entries[..i + 1][..i] == entries[..i];
          if InRange(entries[i], start, end) {
            result := result + [entries[i].data];
          }
        }
        assert entries[..|entries|] == entries;
      }
      RangeQueryExact(LogOf(history, nodeID), maxItems, start, end);
      if nodeID in data {
        ghost var ps := RangeQueryPicksOut(data[nodeID], start, end);
      }
    }

    /** Every node ever stored, once each, in no particular order. */
    method GetAllNodes() returns (nodes: seq<NodeId>)
      requires Valid()
      ensures Visits(nodes, history.Keys)
    {
      nodes := AnyOrder(data.Keys);
    }

    /** Eviction never affects the latest payload. */
    method GetLatestMetrics(nodeID: NodeId) returns (result: Option<T>)
      requires Valid()
      ensures result == Latest(LogOf(history, nodeID))
      ensures nodeID !in history ==> result == None
      ensures nodeID in history ==> result == Some(history[nodeID][|history[nodeID]| - 1].data)
    {
      if nodeID in data && |data[nodeID]| > 0 {
        result := Some(data[nodeID][|data[nodeID]| - 1].data);
      } else {
        result := None;
      }
    }
  }
}
