/** The time stamps a payload collects on its way to the control plane. */
module Telemetry {
  import opened Prelude

  const AGGREGATOR_RECEIVED := "aggregator_received_at"
  const PROCESSED := "processed_at"
  const RECEIVED := "received_at"

  /** Sets one stamp key to the current Unix time, overwriting whatever was there. */
  function Stamped(fields: Fields, key: string, now: int): Fields {
    fields[key := JNum(Unix(now))]
  }

  /** The time a stamp key holds, if it holds a number. */
  function StampAt(fields: Fields, key: string): Option<int> {
    if key in fields && fields[key].JNum? then Some(fields[key].n) else None
  }

  /** `fields` is `base` changed at the aggregator's key only, no later than `now`. */
  ghost predicate AsCached(base: Fields, fields: Fields, now: int) {
    var a := StampAt(fields, AGGREGATOR_RECEIVED);
    && a.Some? && a.value <= Unix(now)
    && fields == base[AGGREGATOR_RECEIVED := JNum(a.value)]
  }

  /** `fields` is `base` changed at the two keys set before forwarding, in time order. */
  ghost predicate AsForwarded(base: Fields, fields: Fields, now: int) {
    var a, p := StampAt(fields, AGGREGATOR_RECEIVED), StampAt(fields, PROCESSED);
    && a.Some? && p.Some? && a.value <= p.value <= Unix(now)
    && fields == base[AGGREGATOR_RECEIVED := JNum(a.value)][PROCESSED := JNum(p.value)]
  }

  /**
   `fields` is `base` changed at the three stamp keys only. The first two stamps are in time
   order on the aggregator's clock; the third is from the control plane's, `there`.
   */
  ghost predicate AsStored(base: Fields, fields: Fields, now: int, there: int) {
    var a, p, r := StampAt(fields, AGGREGATOR_RECEIVED), StampAt(fields, PROCESSED), StampAt(fields, RECEIVED);
    && a.Some? && p.Some? && r.Some? && a.value <= p.value <= Unix(now) && r.value <= Unix(there)
    && fields == base[AGGREGATOR_RECEIVED := JNum(a.value)][PROCESSED := JNum(p.value)][RECEIVED := JNum(r.value)]
  }

  lemma StampKeysDiffer()
    ensures AGGREGATOR_RECEIVED != PROCESSED && AGGREGATOR_RECEIVED != RECEIVED && PROCESSED != RECEIVED
  {
    assert |AGGREGATOR_RECEIVED| != |PROCESSED| && |AGGREGATOR_RECEIVED| != |RECEIVED| && |PROCESSED| != |RECEIVED|;
  }

  lemma UnixMonotone(t: int, u: int)
    requires t <= u
    ensures Unix(t) <= Unix(u)
  {
  }

  /** Each stage's stamp turns what the previous stage promises into the next promise. */
  lemma StampStages(base: Fields, fields: Fields, now: int, there: int)
    ensures AsCached(base, Stamped(base, AGGREGATOR_RECEIVED, now), now)
    ensures AsCached(base, fields, now) ==> AsForwarded(base, Stamped(fields, PROCESSED, now), now)
    ensures AsForwarded(base, fields, now) ==> AsStored(base, Stamped(fields, RECEIVED, there), now, there)
  {
    StampKeysDiffer();
  }

  lemma StampsPersist(base: Fields, fields: Fields, now: int, later: int, there: int, thereLater: int)
    requires now <= later && there <= thereLater
    ensures AsCached(base, fields, now) ==> AsCached(base, fields, later)
    ensures AsForwarded(base, fields, now) ==> AsForwarded(base, fields, later)
    ensures AsStored(base, fields, now, there) ==> AsStored(base, fields, later, thereLater)
  {
    UnixMonotone(now, later);
    UnixMonotone(there, thereLater);
  }

  /** The stamp is the whole seconds since the epoch: the clock's reading rounded down, and never up. */
  lemma UnixMeaning(now: int)
    ensures Unix(now) * 1_000_000_000 <= now < (Unix(now) + 1) * 1_000_000_000
  {
  }

  /** A stamp changes its own key only, whatever was there before. */
  lemma StampedMeaning(fields: Fields, key: string, now: int)
    ensures key in Stamped(fields, key, now) && Stamped(fields, key, now)[key] == JNum(Unix(now))
    ensures Stamped(fields, key, now).Keys == fields.Keys + {key}
    ensures forall k | k in fields && k != key :: Stamped(fields, key, now)[k] == fields[k]
  {
  }

  lemma StampKeys()
    ensures AGGREGATOR_RECEIVED == "aggregator_received_at" && PROCESSED == "processed_at" && RECEIVED == "received_at"
  {
  }
}
