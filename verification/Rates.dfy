/** What the reported speeds of an interface add up to over a run of collections. */
module Rates {
  import opened Prelude
  import opened Collector
  import P = ParallelCollection

  datatype Direction = Up | Down

  function Count(dir: Direction, c: Counter): Word {
    if dir == Up then c.sent else c.recv
  }

  function SpeedOf(dir: Direction, s: InterfaceStats): nat {
    if dir == Up then s.upload else s.download
  }

  /** The collector's baseline after these collections. */
  function BaselineAfter(base: Baseline, rs: seq<Readings>): Baseline {
    if rs == [] then base else BaselineOf(BaselineAfter(base, rs[..|rs| - 1]), rs[|rs| - 1])
  }

  /** The counters could be read. */
  predicate Good(r: Readings) {
    r.counters.Some?
  }

  /** Speed times interval of one collection, where there is a baseline to measure against. */
  ghost function Moved(ifaces: seq<string>, dir: Direction, name: string, base: Baseline, r: Readings): int {
    var listed := NetworkOf(ifaces, base, r).interfaces;
    if Good(r) && base.counters.Some? && name in listed then SpeedOf(dir, listed[name]) * (r.now - base.at) else 0
  }

  ghost function TotalMoved(
    ifaces: seq<string>, dir: Direction, name: string, base: Baseline, rs: seq<Readings>): int
  {
    if rs == [] then 0
    else
      var front := rs[..|rs| - 1];
      TotalMoved(ifaces, dir, name, base, front)
      + Moved(ifaces, dir, name, BaselineAfter(base, front), rs[|rs| - 1])
  }

  function Amount(dir: Direction, name: string, r: Readings): Word
    requires Good(r) && Names(r.counters.value, name)
  {
    Count(dir, Last(r.counters.value, name))
  }

  ghost predicate Present(name: string, rs: seq<Readings>) {
    forall i | 0 <= i < |rs| && Good(rs[i]) :: Names(rs[i].counters.value, name)
  }

  /** Successive good readings are later. */
  ghost predicate Later(rs: seq<Readings>) {
    forall i, j | 0 <= i < j < |rs| && Good(rs[i]) && Good(rs[j]) :: rs[i].now < rs[j].now
  }

  ghost predicate FirstGood(rs: seq<Readings>, f: nat) {
    f < |rs| && Good(rs[f]) && forall i | 0 <= i < f :: !Good(rs[i])
  }

  ghost predicate LastGood(rs: seq<Readings>, l: nat) {
    l < |rs| && Good(rs[l]) && forall i | l < i < |rs| :: !Good(rs[i])
  }

  /** The index of the last good reading, if there is one. */
  function LastGoodAt(rs: seq<Readings>): (l: Option<nat>)
    ensures l.Some? ==> LastGood(rs, l.value)
    ensures l.None? ==> forall i | 0 <= i < |rs| :: !Good(rs[i])
  {
    if rs == [] then None
    else if Good(rs[|rs| - 1]) then Some(|rs| - 1)
    else LastGoodAt(rs[..|rs| - 1])
  }

  lemma LastGoodOnce(rs: seq<Readings>, l: nat)
    requires LastGood(rs, l)
    ensures LastGoodAt(rs) == Some(l)
  {
  }

  /** A good reading as a baseline. */
  function BaselineFrom(r: Readings): Baseline
    requires Good(r)
  {
    Baseline(Some(ByName(r.counters.value)), r.now)
  }

  lemma {:induction false} BaselineIsLastGood(rs: seq<Readings>)
    ensures BaselineAfter(NO_BASELINE, rs)
            == if LastGoodAt(rs).Some? then BaselineFrom(rs[LastGoodAt(rs).value]) else NO_BASELINE
  {
    if rs == [] {
    } else {
      BaselineIsLastGood(rs[..|rs| - 1]);
    }
  }

  lemma PresentFront(name: string, rs: seq<Readings>)
    requires rs != [] && Present(name, rs)
    ensures Present(name, rs[..|rs| - 1])
  {
    assert forall i | 0 <= i < |rs| - 1 :: rs[..|rs| - 1][i] == rs[i];
  }

  /** The bytes that went through, summed from good reading to good reading. */
  ghost function Through(dir: Direction, name: string, rs: seq<Readings>): nat
    requires Present(name, rs)
  {
    if rs == [] then 0
    else
      var front, r := rs[..|rs| - 1], rs[|rs| - 1];
      PresentFront(name, rs);
      var l := LastGoodAt(front);
      Through(dir, name, front)
      + if Good(r) && l.Some? then Wrapped(Amount(dir, name, r), Amount(dir, name, front[l.value])) else 0
  }

  lemma {:induction false} MovedIs(ifaces: seq<string>, dir: Direction, name: string, last: Readings, r: Readings)
    requires Wanted(ifaces, name) && Good(last) && Good(r)
    requires Names(last.counters.value, name) && Names(r.counters.value, name) && last.now < r.now
    ensures Moved(ifaces, dir, name, BaselineFrom(last), r)
            == Speed(Amount(dir, name, r), Amount(dir, name, last), r.now - last.now) * (r.now - last.now)
  {
    ByNameMeaning(last.counters.value, name);
    EntriesMeaning(ifaces, BaselineFrom(last), r.now, r.counters.value, name);
  }

  /** One interval's speed accounts for its bytes up to one byte a second. */
  lemma {:induction false} MovedBounds(ifaces: seq<string>, dir: Direction, name: string, last: Readings, r: Readings)
    requires Wanted(ifaces, name) && Good(last) && Good(r)
    requires Names(last.counters.value, name) && Names(r.counters.value, name) && last.now < r.now
    ensures var m := Moved(ifaces, dir, name, BaselineFrom(last), r);
            var bytes := Wrapped(Amount(dir, name, r), Amount(dir, name, last)) * NANOS_PER_SECOND;
            m <= bytes < m + (r.now - last.now)
  {
    MovedIs(ifaces, dir, name, last, r);
    SpeedBounds(Amount(dir, name, r), Amount(dir, name, last), r.now - last.now);
  }

  /** A total speaks for the bytes between the first and the last good reading. */
  ghost predicate SpeaksFor(total: int, bytes: nat, rs: seq<Readings>, f: nat, l: nat)
    requires f < |rs| && l < |rs|
  {
    && total <= bytes * NANOS_PER_SECOND
    && (f < l ==> bytes * NANOS_PER_SECOND < total + (rs[l].now - rs[f].now))
    && (f == l ==> total == 0 && bytes == 0)
  }

  ghost predicate Conserved(ifaces: seq<string>, dir: Direction, name: string, rs: seq<Readings>, f: nat, l: nat) {
    && f <= l < |rs| && Present(name, rs)
    && SpeaksFor(TotalMoved(ifaces, dir, name, NO_BASELINE, rs), Through(dir, name, rs), rs, f, l)
  }

  lemma {:induction false} NothingMoved(ifaces: seq<string>, dir: Direction, name: string, rs: seq<Readings>)
    requires Present(name, rs) && forall i | 0 <= i < |rs| :: !Good(rs[i])
    ensures TotalMoved(ifaces, dir, name, NO_BASELINE, rs) == 0 && Through(dir, name, rs) == 0
  {
    if rs == [] {
    } else {
      PresentFront(name, rs);
      NothingMoved(ifaces, dir, name, rs[..|rs| - 1]);
    }
  }

  lemma {:induction false} ConservedFirst(ifaces: seq<string>, dir: Direction, name: string, rs: seq<Readings>)
    requires rs != [] && Present(name, rs) && FirstGood(rs, |rs| - 1)
    ensures Conserved(ifaces, dir, name, rs, |rs| - 1, |rs| - 1)
  {
    PresentFront(name, rs);
    NothingMoved(ifaces, dir, name, rs[..|rs| - 1]);
    BaselineIsLastGood(rs[..|rs| - 1]);
  }

  lemma {:induction false} ConservedSkip(
    ifaces: seq<string>, dir: Direction, name: string, rs: seq<Readings>, f: nat, l: nat)
    requires rs != [] && Present(name, rs) && !Good(rs[|rs| - 1])
    requires Conserved(ifaces, dir, name, rs[..|rs| - 1], f, l)
    ensures Conserved(ifaces, dir, name, rs, f, l)
  {
    var front := rs[..|rs| - 1];
    assert front[f] == rs[f] && front[l] == rs[l];
    assert TotalMoved(ifaces, dir, name, NO_BASELINE, rs) == TotalMoved(ifaces, dir, name, NO_BASELINE, front);
  }

  /** The bounds of one more interval added to those of the intervals before. */
  lemma StepAdds(
    total: int, bytes: nat, front: seq<Readings>, f: nat, k: nat, moved: int, more: nat, rs: seq<Readings>)
    requires rs != [] && front == rs[..|rs| - 1] && f <= k < |front| && SpeaksFor(total, bytes, front, f, k)
    requires moved <= more * NANOS_PER_SECOND < moved + (rs[|rs| - 1].now - rs[k].now)
    ensures SpeaksFor(total + moved, bytes + more, rs, f, |rs| - 1)
  {
  }

  lemma {:induction false} ConservedStep(
    ifaces: seq<string>, dir: Direction, name: string, rs: seq<Readings>, f: nat, k: nat)
    requires rs != [] && Present(name, rs) && Later(rs) && Wanted(ifaces, name) && Good(rs[|rs| - 1])
    requires LastGood(rs[..|rs| - 1], k) && Conserved(ifaces, dir, name, rs[..|rs| - 1], f, k)
    ensures Conserved(ifaces, dir, name, rs, f, |rs| - 1)
  {
    var n := |rs| - 1;
    var front := rs[..n];
    LastGoodOnce(front, k);
    BaselineIsLastGood(front);
    assert front[f] == rs[f] && front[k] == rs[k];
    MovedBounds(ifaces, dir, name, rs[k], rs[n]);
    StepAdds(
      TotalMoved(ifaces, dir, name, NO_BASELINE, front), Through(dir, name, front), front, f, k,
      Moved(ifaces, dir, name, BaselineFrom(rs[k]), rs[n]),
          Wrapped(Amount(dir, name, rs[n]), Amount(dir, name, rs[k])), rs);
  }

  /** The interface is wanted and in every good reading, and these are later and later. */
  ghost predicate Steady(ifaces: seq<string>, name: string, rs: seq<Readings>) {
    Wanted(ifaces, name) && Present(name, rs) && Later(rs)
  }

  lemma SteadyFront(ifaces: seq<string>, name: string, rs: seq<Readings>)
    requires rs != [] && Steady(ifaces, name, rs)
    ensures Steady(ifaces, name, rs[..|rs| - 1])
  {
    PresentFront(name, rs);
    assert forall i | 0 <= i < |rs| - 1 :: rs[..|rs| - 1][i] == rs[i];
  }

  /** A good reading that is not the last one leaves a last good one before the end. */
  lemma GoodBefore(rs: seq<Readings>, f: nat) returns (k: nat)
    requires FirstGood(rs, f) && f < |rs| - 1
    ensures FirstGood(rs[..|rs| - 1], f) && LastGood(rs[..|rs| - 1], k) && f <= k
    ensures LastGoodAt(rs) == Some(if Good(rs[|rs| - 1]) then |rs| - 1 else k)
  {
    var front := rs[..|rs| - 1];
    assert front[f] == rs[f];
    k := LastGoodAt(front).value;
  }

  /**
   Over a whole run, counters wrapping around or not, the speeds never account for more bytes
   than went through, and for all but less than one byte per second of elapsed time.
   */
  lemma {:induction false} RateConservation(
    ifaces: seq<string>, dir: Direction, name: string, rs: seq<Readings>, f: nat, l: nat)
    requires Steady(ifaces, name, rs) && FirstGood(rs, f) && LastGood(rs, l)
    ensures Conserved(ifaces, dir, name, rs, f, l)
  {
    LastGoodOnce(rs, l);
    if f == |rs| - 1 {
      ConservedFirst(ifaces, dir, name, rs);
    } else {
      var k := GoodBefore(rs, f);
      SteadyFront(ifaces, name, rs);
      RateConservation(ifaces, dir, name, rs[..|rs| - 1], f, k);
      if Good(rs[|rs| - 1]) {
        ConservedStep(ifaces, dir, name, rs, f, k);
      } else {
        ConservedSkip(ifaces, dir, name, rs, f, k);
      }
    }
  }

  /** Good readings never count less than earlier ones. */
  ghost predicate Growing(dir: Direction, name: string, rs: seq<Readings>)
    requires Present(name, rs)
  {
    forall i, j | 0 <= i < j < |rs| && Good(rs[i]) && Good(rs[j]) ::
        Amount(dir, name, rs[i]) <= Amount(dir, name, rs[j])
  }

  lemma GrowingFront(dir: Direction, name: string, rs: seq<Readings>)
    requires rs != [] && Present(name, rs) && Growing(dir, name, rs) && Present(name, rs[..|rs| - 1])
    ensures Growing(dir, name, rs[..|rs| - 1])
  {
    assert forall i | 0 <= i < |rs| - 1 :: rs[..|rs| - 1][i] == rs[i];
  }

  /** `through` is the increase modulo 2^64, and exactly the increase if `growing`. */
  ghost predicate IsIncrease(through: nat, growing: bool, from: Word, to: Word) {
    && (through - (to as int - from as int)) % WORD == 0
    && (growing ==> through == to as int - from as int)
  }

  lemma IncreaseAdds(through: nat, growing: bool, a: Word, b: Word, c: Word)
    requires IsIncrease(through, growing, a, b) && (growing ==> b <= c)
    ensures IsIncrease(through + Wrapped(c, b), growing, a, c)
  {
  }

  lemma ThroughStep(dir: Direction, name: string, rs: seq<Readings>, k: nat)
    requires rs != [] && Present(name, rs) && Present(name, rs[..|rs| - 1]) && LastGood(rs[..|rs| - 1], k)
    ensures var n := |rs| - 1;
            Through(dir, name, rs)
            == Through(dir, name, rs[..n])
               + if Good(rs[n]) then Wrapped(Amount(dir, name, rs[n]), Amount(dir, name, rs[k])) else 0
  {
    LastGoodOnce(rs[..|rs| - 1], k);
  }

  /** What went through is the increase of the counter modulo 2^64, and exactly that if the counter never falls. */
  ghost predicate Telescopes(dir: Direction, name: string, rs: seq<Readings>, f: nat, l: nat) {
    && f < |rs| && l < |rs| && Good(rs[f]) && Good(rs[l]) && Present(name, rs)
    && IsIncrease(Through(dir, name, rs), Growing(dir, name, rs), Amount(dir, name, rs[f]), Amount(dir, name, rs[l]))
  }

  lemma TelescopesFirst(dir: Direction, name: string, rs: seq<Readings>)
    requires rs != [] && Present(name, rs) && FirstGood(rs, |rs| - 1)
    ensures Telescopes(dir, name, rs, |rs| - 1, |rs| - 1)
  {
    PresentFront(name, rs);
    NothingMoved([], dir, name, rs[..|rs| - 1]);
  }

  lemma TelescopesSkip(dir: Direction, name: string, rs: seq<Readings>, f: nat, k: nat)
    requires rs != [] && Present(name, rs) && !Good(rs[|rs| - 1]) && LastGood(rs[..|rs| - 1], k)
    requires Telescopes(dir, name, rs[..|rs| - 1], f, k)
    ensures Telescopes(dir, name, rs, f, k)
  {
    var front := rs[..|rs| - 1];
    assert front[f] == rs[f] && front[k] == rs[k];
    ThroughStep(dir, name, rs, k);
    if Growing(dir, name, rs) {
      GrowingFront(dir, name, rs);
    }
  }

  lemma TelescopesStep(dir: Direction, name: string, rs: seq<Readings>, f: nat, k: nat)
    requires rs != [] && Present(name, rs) && Good(rs[|rs| - 1]) && LastGood(rs[..|rs| - 1], k)
    requires Telescopes(dir, name, rs[..|rs| - 1], f, k)
    ensures Telescopes(dir, name, rs, f, |rs| - 1)
  {
    var n := |rs| - 1;
    var front := rs[..n];
    assert front[f] == rs[f] && front[k] == rs[k];
    ThroughStep(dir, name, rs, k);
    var a, b, c := Amount(dir, name, rs[f]), Amount(dir, name, rs[k]), Amount(dir, name, rs[n]);
    var growing := Growing(dir, name, rs);
    if growing {
      GrowingFront(dir, name, rs);
    }
    IncreaseAdds(Through(dir, name, front), growing, a, b, c);
  }

  lemma {:induction false} ThroughIsIncrease(dir: Direction, name: string, rs: seq<Readings>, f: nat, l: nat)
    requires Present(name, rs) && FirstGood(rs, f) && LastGood(rs, l)
    ensures Telescopes(dir, name, rs, f, l)
  {
    LastGoodOnce(rs, l);
    if f == |rs| - 1 {
      TelescopesFirst(dir, name, rs);
    } else {
      var k := GoodBefore(rs, f);
      PresentFront(name, rs);
      ThroughIsIncrease(dir, name, rs[..|rs| - 1], f, k);
      if Good(rs[|rs| - 1]) {
        TelescopesStep(dir, name, rs, f, k);
      } else {
        TelescopesSkip(dir, name, rs, f, k);
      }
    }
  }

  // ----- what the collectors reported -----

  /** Speed times interval of one report, where there was a baseline to measure against. */
  ghost function Credit(dir: Direction, name: string, base: Baseline, out: Stats): int {
    var listed := out.network.interfaces;
    if base.counters.Some? && name in listed then SpeedOf(dir, listed[name]) * (out.timestamp - base.at) else 0
  }

  /** The credits of a run of reports. */
  ghost function Credited(dir: Direction, name: string, base: Baseline, rs: seq<Readings>, outs: seq<Stats>): int
    requires |outs| == |rs|
    decreases rs
  {
    if rs == [] then 0
    else Credit(dir, name, base, outs[0]) + Credited(dir, name, BaselineOf(base, rs[0]), rs[1..], outs[1..])
  }

  lemma {:induction false} BaselineFromHead(base: Baseline, rs: seq<Readings>)
    requires rs != []
    ensures BaselineAfter(base, rs) == BaselineAfter(BaselineOf(base, rs[0]), rs[1..])
  {
    if |rs| == 1 {
    } else {
      BaselineFromHead(base, rs[..|rs| - 1]);
      assert rs[1..][..|rs| - 2] == rs[..|rs| - 1][1..];
    }
  }

  lemma {:induction false} TotalFromHead(
    ifaces: seq<string>, dir: Direction, name: string, base: Baseline, rs: seq<Readings>)
    requires rs != []
    ensures TotalMoved(ifaces, dir, name, base, rs)
            == Moved(ifaces, dir, name, base, rs[0]) + TotalMoved(ifaces, dir, name, BaselineOf(base, rs[0]), rs[1..])
  {
    if |rs| == 1 {
      assert rs[..0] == [] && rs[1..] == [];
    } else {
      var front := rs[..|rs| - 1];
      TotalFromHead(ifaces, dir, name, base, front);
      BaselineFromHead(base, front);
      assert rs[1..][..|rs| - 2] == front[1..];
    }
  }

  lemma CreditIsMoved(ifaces: seq<string>, dir: Direction, name: string, base: Baseline, r: Readings, out: Stats)
    requires out.network.interfaces == NetworkOf(ifaces, base, r).interfaces && out.timestamp == r.now
    ensures Credit(dir, name, base, out) == Moved(ifaces, dir, name, base, r)
  {
  }

  /** The sequential collector's reports are credited with what moved. */
  lemma {:induction false} SequentialCredits(
    mounts: seq<string>, ifaces: seq<string>, dir: Direction, name: string, base: Baseline, rs: seq<Readings>)
    ensures |P.SequentialRun(mounts, ifaces, base, rs)| == |rs|
    ensures Credited(dir, name, base, rs, P.SequentialRun(mounts, ifaces, base, rs))
            == TotalMoved(ifaces, dir, name, base, rs)
    decreases rs
  {
    if rs == [] {
    } else {
      var outs := P.SequentialRun(mounts, ifaces, base, rs);
      SequentialCredits(mounts, ifaces, dir, name, BaselineOf(base, rs[0]), rs[1..]);
      assert outs[1..] == P.SequentialRun(mounts, ifaces, BaselineOf(base, rs[0]), rs[1..]);
      CreditIsMoved(ifaces, dir, name, base, rs[0], outs[0]);
      TotalFromHead(ifaces, dir, name, base, rs);
    }
  }

  /** To the parallel collector an empty list of counters is a failed reading. */
  function Counting(r: Readings): Readings {
    if r.counters == Some([]) then r.(counters := None) else r
  }

  function CountingAll(rs: seq<Readings>): (cs: seq<Readings>)
    ensures |cs| == |rs|
    decreases rs
  {
    if rs == [] then [] else [Counting(rs[0])] + CountingAll(rs[1..])
  }

  lemma CountingCollection(c: P.Collection)
    ensures P.ParallelBaselineOf(c.base, c.r) == BaselineOf(c.base, Counting(c.r))
    ensures P.ParallelStatsOf(c).network.interfaces == NetworkOf(c.ifaces, c.base, Counting(c.r)).interfaces
    ensures P.ParallelStatsOf(c).timestamp == Counting(c.r).now
  {
  }

  /** The first collection of a parallel run, and what is left of the run. */
  lemma {:induction false} ParallelHead(
    mounts: seq<string>, ifaces: seq<string>, base: Baseline, rs: seq<Readings>,
    schedules: seq<seq<P.Step>>, outs: seq<Stats>, last: Baseline)
    requires P.ParallelRun(mounts, ifaces, base, rs, schedules, outs, last) && rs != []
    ensures |outs| == |schedules| == |rs|
    ensures outs[0].network.interfaces == NetworkOf(ifaces, base, Counting(rs[0])).interfaces
    ensures outs[0].timestamp == Counting(rs[0]).now
    ensures P.ParallelRun(P.Effective(mounts), ifaces, BaselineOf(base, Counting(rs[0])),
                          rs[1..], schedules[1..], outs[1..], last)
  {
    var c := P.Collection(ifaces, rs[0], mounts, base);
    P.EveryScheduleSameResult(c, schedules[0]);
    CountingCollection(c);
  }

  /** So are the parallel collector's, under whatever schedules. */
  lemma {:induction false} ParallelCredits(
    mounts: seq<string>, ifaces: seq<string>, dir: Direction, name: string, base: Baseline, rs: seq<Readings>,
    schedules: seq<seq<P.Step>>, outs: seq<Stats>, last: Baseline)
    requires P.ParallelRun(mounts, ifaces, base, rs, schedules, outs, last)
    ensures |outs| == |rs|
    ensures Credited(dir, name, base, CountingAll(rs), outs) == TotalMoved(ifaces, dir, name, base, CountingAll(rs))
    decreases rs
  {
    if rs == [] {
    } else {
      ParallelHead(mounts, ifaces, base, rs, schedules, outs, last);
      var r, cs := Counting(rs[0]), CountingAll(rs);
      ParallelCredits(
        P.Effective(mounts), ifaces, dir, name, BaselineOf(base, r), rs[1..], schedules[1..], outs[1..], last);
      CreditIsMoved(ifaces, dir, name, base, r, outs[0]);
      TotalFromHead(ifaces, dir, name, base, cs);
      assert cs[0] == r && cs[1..] == CountingAll(rs[1..]);
    }
  }

  /** Conservation for what the sequential collector reports. */
  lemma {:induction false} SequentialConservation(
    mounts: seq<string>, ifaces: seq<string>, dir: Direction, name: string, rs: seq<Readings>, f: nat, l: nat)
    requires Steady(ifaces, name, rs) && FirstGood(rs, f) && LastGood(rs, l)
    ensures var outs := P.SequentialRun(mounts, ifaces, NO_BASELINE, rs);
            |outs| == |rs| && SpeaksFor(Credited(dir, name, NO_BASELINE, rs, outs), Through(dir, name, rs), rs, f, l)
  {
    RateConservation(ifaces, dir, name, rs, f, l);
    SequentialCredits(mounts, ifaces, dir, name, NO_BASELINE, rs);
  }

  /** Conservation for what the parallel collector reports, under whatever schedules. */
  lemma {:induction false} ParallelConservation(
    mounts: seq<string>, ifaces: seq<string>, dir: Direction, name: string, rs: seq<Readings>,
    schedules: seq<seq<P.Step>>, outs: seq<Stats>, last: Baseline, f: nat, l: nat)
    requires P.ParallelRun(mounts, ifaces, NO_BASELINE, rs, schedules, outs, last)
    requires Steady(ifaces, name, CountingAll(rs)) && FirstGood(CountingAll(rs), f) && LastGood(CountingAll(rs), l)
    ensures var cs := CountingAll(rs);
            SpeaksFor(Credited(dir, name, NO_BASELINE, cs, outs), Through(dir, name, cs), cs, f, l)
  {
    RateConservation(ifaces, dir, name, CountingAll(rs), f, l);
    ParallelCredits(mounts, ifaces, dir, name, NO_BASELINE, rs, schedules, outs, last);
  }
}
