/** Versions and wall-clock times, mapped to each other through sparse records of both. */
module TimeKeeper {

  import opened Arithmetic
  import opened Options

  /** Recorded versions by time, in seconds since the epoch. */
  type Records = map<nat, int>

  const MAX_TIME: nat := 0x7fff_ffff_ffff_ffff

  /** The last record at or after `lo` and before `hi`. */
  function Last(records: Records, lo: nat, hi: nat): (r: Option<nat>)
    ensures r.Some? ==> r.value in records && lo <= r.value < hi
    ensures forall t :: t in records && lo <= t < hi ==> r.Some? && t <= r.value
    decreases hi
  {
    if hi <= lo then None
    else if hi - 1 in records then Some(hi - 1)
    else Last(records, lo, hi - 1)
  }

  /** The first record at or after `lo` and before `hi`. */
  function First(records: Records, lo: nat, hi: nat): (r: Option<nat>)
    ensures r.Some? ==> r.value in records && lo <= r.value < hi
    ensures forall t :: t in records && lo <= t < hi ==> r.Some? && r.value <= t
    decreases hi - lo
  {
    if hi <= lo then None
    else if lo in records then Some(lo)
    else First(records, lo + 1, hi)
  }

  // ---------- The search for a record ----------

  /** The record at which the search between two times stops, if it stops at one. */
  function Search(records: Records, v: int, min: nat, max: nat): (r: Option<nat>)
    requires min <= max
    ensures r.Some? ==> r.value in records && records[r.value] <= v && min <= r.value < max
    decreases max - min
  {
    var mid := (min + max + 1) / 2;
    match Last(records, min, mid)
    case None => if mid == min then None else Search(records, v, mid, max)
    case Some(found) =>
      if v < records[found] then Search(records, v, min, found)
      else if found == min then Some(found)
      else Search(records, v, found, max)
  }

  /** The record a result is based on: the one found, or the first one before a later reading of the clock. */
  function Base(records: Records, v: int, now: nat, later: nat): Option<nat> {
    var found := Search(records, v, 0, now);
    if found.Some? then found else First(records, 0, later)
  }

  function EpochsOf(records: Records, rate: int, v: int, now: nat, later: nat): Option<int>
    requires rate > 0
  {
    match Base(records, v, now, later)
    case None => None
    case Some(time) => Some(time + Quotient(v - records[time], rate))
  }

  /** `time` is `n` whole seconds from `from`, at `rate` versions a second, with a rest that is dropped. */
  ghost predicate WholeSeconds(time: int, from: int, n: int, rate: int) {
    if n >= 0 then rate * (time - from) <= n < rate * (time - from) + rate
    else rate * (time - from) - rate < n <= rate * (time - from)
  }

  /** The time of a version; the clock is read at the start and again when the search finds nothing. */
  method EpochsFromVersion(records: Records, rate: int, v: int, now: nat, later: nat) returns (r: Option<int>)
    requires rate > 0
    ensures r == EpochsOf(records, rate, v, now, later)
    ensures r.None? <==> Base(records, v, now, later).None?
    ensures r.Some? ==> var t := Base(records, v, now, later).value; WholeSeconds(r.value, t, v - records[t], rate)
  {
    var min, max := 0, now;
    var found: nat;
    while true
      invariant min <= max
      invariant Search(records, v, min, max) == Search(records, v, 0, now)
      decreases max - min
    {
      var mid := (min + max + 1) / 2;
      var result := Last(records, min, mid);
      if result == None {
        if mid == min {
          result := First(records, 0, later);
          if result == None {
            return None;
          }
          found := result.value;
          break;
        }
        min := mid;
        continue;
      }
      found := result.value;
      if v < records[found] {
        max := found;
      } else {
        if found == min {
          break;
        }
        min := found;
      }
    }
    QuotientRounds(v - records[found], rate);
    return Some(found + Quotient(v - records[found], rate));
  }

  /** The version of a time, never negative; nothing if there is no record to base it on. */
  function VersionFromDatetime(records: Records, rate: int, time: nat): (r: Option<int>)
    ensures r.Some? ==> r.value >= 0
    ensures r.None? <==> forall t :: t in records ==> t >= MAX_TIME && t >= time
  {
    var found := Last(records, 0, time);
    var base := if found.Some? then found else First(records, time, MAX_TIME);
    match base
    case None => None
    case Some(t) =>
      var version := records[t] + (time - t) * rate;
      Some(if version < 0 then 0 else version)
  }

  /** The version comes from the last record before the time, or, if there is none, from the first one after it. */
  lemma VersionFromNearest(records: Records, rate: int, time: nat, t: nat)
    requires t in records && (t < time || t < MAX_TIME)
    requires if t < time then forall s :: s in records && s < time ==> s <= t else forall s :: s in records ==> t <= s
    ensures var version := records[t] + (time - t) * rate;
            VersionFromDatetime(records, rate, time) == Some(if version < 0 then 0 else version)
  {
    if t < time {
      assert Last(records, 0, time) == Some(t);
    } else {
      assert Last(records, 0, time) == None;
      assert First(records, time, MAX_TIME) == Some(t);
    }
  }

  // ---------- Which record is found ----------

  /** Later records have versions that are not lower. */
  ghost predicate Monotone(records: Records) {
    forall s, t :: s in records && t in records && s <= t ==> records[s] <= records[t]
  }

  /** The closest record: the last one before `now` with a version of at most `v`. */
  ghost predicate Closest(records: Records, v: int, now: nat, t: nat) {
    && t in records && t < now && records[t] <= v
    && forall s :: s in records && s < now && records[s] <= v ==> s <= t
  }

  /** No two neighbouring records are more than `gap` apart: after each but the last another one follows in time. */
  ghost predicate GapsAtMost(records: Records, gap: nat) {
    forall s, t :: s in records && t in records && s < t ==> First(records, s + 1, s + 1 + gap).Some?
  }

  lemma Ordered(records: Records, s: nat, t: nat)
    requires Monotone(records) && s in records && t in records
    ensures records[s] < records[t] ==> s < t
    ensures records[t] < records[s] ==> t < s
  {
  }

  lemma Following(records: Records, gap: nat, s: nat, t: nat) returns (next: nat)
    requires GapsAtMost(records, gap) && s in records && t in records && s < t
    ensures next in records && s < next <= s + gap
  {
    next := First(records, s + 1, s + 1 + gap).value;
  }

  /** The search keeps the closest record between its ends, and stops less than two gaps before it. */
  lemma {:induction false} SearchFinds(records: Records, v: int, now: nat, min: nat, max: nat, closest: nat, gap: nat)
    requires Monotone(records) && Closest(records, v, now, closest) && GapsAtMost(records, gap)
    requires min <= closest < max <= now
    ensures var r := Search(records, v, min, max); r.Some? && r.value <= closest < max && (closest - r.value < 2 * gap || r.value == closest)
    decreases max - min
  {
    hide GapsAtMost, Monotone;
    var mid := (min + max + 1) / 2;
    match Last(records, min, mid)
    case None => SearchFinds(records, v, now, mid, max, closest, gap);
    case Some(found) =>
      Ordered(records, found, closest);
      if v < records[found] {
        SearchFinds(records, v, now, min, found, closest, gap);
      } else if found != min {
        SearchFinds(records, v, now, found, max, closest, gap);
      } else if found != closest {
        var next := Following(records, gap, found, closest);
        assert next >= mid;
      }
  }

  /** Among records that are low enough there is a closest one. */
  lemma ClosestExists(records: Records, v: int, now: nat, t: nat) returns (closest: nat)
    requires t in records && t < now && records[t] <= v
    ensures Closest(records, v, now, closest)
  {
    var low := map s | s in records && records[s] <= v :: records[s];
    assert t in low;
    closest := Last(low, 0, now).value;
    forall s | s in records && s < now && records[s] <= v
      ensures s <= closest
    {
      assert s in low;
    }
  }

  /**
   * Whatever the records are: a result is based on a record with a version of at most `v`, or on the first one, as it
   * is if no record before `now` is low enough.  There is no result exactly if there is no record before the later
   * reading of the clock.
   */
  lemma BaseOutcome(records: Records, v: int, now: nat, later: nat)
    ensures var r := Base(records, v, now, later);
            r.Some? ==> r.value in records && ((r.value < now && records[r.value] <= v) || r == First(records, 0, later))
    ensures (forall t :: t in records && t < now ==> records[t] > v) ==>
              Base(records, v, now, later) == First(records, 0, later)
    ensures now <= later ==> (Base(records, v, now, later).None? <==> forall t :: t in records ==> t >= later)
  {
    hide Search, First;
    assert forall t :: t in records && t < later ==> First(records, 0, later).Some?;
  }

  /**
   * If versions do not fall with time and gaps are bounded, then the result is based on a record with a version of at
   * most `v` whenever there is one before `now`, and that is less than two gaps away from the closest.
   */
  lemma BaseFound(records: Records, v: int, now: nat, later: nat, gap: nat, closest: nat)
    requires Monotone(records) && GapsAtMost(records, gap) && Closest(records, v, now, closest)
    ensures var r := Base(records, v, now, later);
            r.Some? && records[r.value] <= v && r.value <= closest && (closest - r.value < 2 * gap || r.value == closest)
  {
    hide GapsAtMost, Monotone;
    SearchFinds(records, v, now, 0, now, closest, gap);
  }

  /** The search always stops at most `distance` before the closest record, if no gap exceeds `gap`. */
  ghost predicate Guaranteed(gap: nat, distance: nat) {
    forall records: Records, v: int, now: nat, closest: nat ::
      Monotone(records) && GapsAtMost(records, gap) && Closest(records, v, now, closest) ==>
        var r := Search(records, v, 0, now); r.Some? && r.value <= closest <= r.value + distance
  }

  /**
   * The comment in the source has the search find the closest record.  It does not: it is guaranteed to stop within
   * a distance of it exactly if that distance is at least twice the gap, less one.
   */
  lemma GuaranteeIff(gap: nat, distance: nat)
    requires gap > 0
    ensures Guaranteed(gap, distance) <==> distance >= 2 * gap - 1
  {
    if distance >= 2 * gap - 1 {
      forall records: Records, v: int, now: nat, closest: nat
        | Monotone(records) && GapsAtMost(records, gap) && Closest(records, v, now, closest)
        ensures var r := Search(records, v, 0, now); r.Some? && r.value <= closest <= r.value + distance
      {
        SearchFinds(records, v, now, 0, now, closest, gap);
      }
    } else {
      StopsEarly(gap);
    }
  }

  function Spread(gap: nat): Records
    requires gap > 0
  {
    map[0 := 0, gap := 0, 2 * gap - 1 := 0]
  }

  /** With records at 0, `gap` and `2 * gap - 1` the search stops at 0. */
  lemma StopsEarly(gap: nat)
    requires gap > 0
    ensures Monotone(Spread(gap)) && GapsAtMost(Spread(gap), gap)
    ensures Closest(Spread(gap), 0, 2 * gap, 2 * gap - 1)
    ensures Search(Spread(gap), 0, 0, 2 * gap) == Some(0)
  {
    hide GapsAtMost, Search, Last, Spread;
    var records := Spread(gap);
    SpreadRecords(gap);
    SpreadGaps(gap);
    assert (0 + 2 * gap + 1) / 2 == gap;
    assert 0 in records;
    assert Last(records, 0, gap) == Some(0);
    SearchStops(records, 0, 0, 2 * gap);
  }

  lemma SearchStops(records: Records, v: int, min: nat, max: nat)
    requires min <= max && Last(records, min, (min + max + 1) / 2) == Some(min) && records[min] <= v
    ensures Search(records, v, min, max) == Some(min)
  {
  }

  lemma SpreadRecords(gap: nat)
    requires gap > 0
    ensures forall t: nat :: t in Spread(gap) <==> t == 0 || t == gap || t == 2 * gap - 1
    ensures forall t: nat :: t in Spread(gap) ==> Spread(gap)[t] == 0
  {
  }

  lemma SpreadGaps(gap: nat)
    requires gap > 0
    ensures GapsAtMost(Spread(gap), gap)
  {
    hide Spread, First;
    SpreadRecords(gap);
    var records := Spread(gap);
    forall s, t | s in records && t in records && s < t
      ensures First(records, s + 1, s + 1 + gap).Some?
    {
      var next := if s == 0 then gap else 2 * gap - 1;
      assert next in records && s + 1 <= next < s + 1 + gap;
    }
  }

  // ---------- Times to versions and back ----------

  /** Versions advance by `rate` a second. */
  ghost predicate Linear(records: Records, rate: int, base: int) {
    forall t :: t in records ==> records[t] == base + rate * t && records[t] >= 0
  }

  lemma Along(rate: int, base: int, s: int, t: int)
    ensures base + rate * s - (base + rate * t) == rate * (s - t)
    ensures base + rate * t + (s - t) * rate == base + rate * s
  {
  }

  lemma VersionOfLinear(records: Records, rate: int, base: int, time: nat)
    requires rate > 0 && Linear(records, rate, base) && VersionFromDatetime(records, rate, time).Some?
    ensures VersionFromDatetime(records, rate, time).value == if base + rate * time < 0 then 0 else base + rate * time
  {
    var found := Last(records, 0, time);
    var t := if found.Some? then found.value else First(records, time, MAX_TIME).value;
    Along(rate, base, time, t);
  }

  /**
   * With records on a line, a time mapped to a version and back comes out unchanged exactly if its version on that
   * line is not negative: a negative one is replaced by 0.
   */
  lemma TimeRoundTripIff(records: Records, rate: int, base: int, time: nat, now: nat, later: nat)
    requires rate > 0 && Linear(records, rate, base)
    requires VersionFromDatetime(records, rate, time).Some?
    requires First(records, 0, later).Some?
    ensures var v := VersionFromDatetime(records, rate, time).value;
            EpochsOf(records, rate, v, now, later) == Some(time) <==> base + rate * time >= 0
  {
    hide VersionFromDatetime, Search, First, Last, Quotient;
    VersionOfLinear(records, rate, base, time);
    var v := VersionFromDatetime(records, rate, time).value;
    var t := Base(records, v, now, later).value;
    OnLine(rate, base, time, t);
  }

  /** Going from a point on the line to another one and back by the rate; a value cut at zero does not lead back. */
  lemma OnLine(rate: int, base: int, time: int, t: int)
    requires rate > 0 && base + rate * t >= 0
    ensures var at := base + rate * time; var v := if at < 0 then 0 else at;
            t + Quotient(v - (base + rate * t), rate) == time <==> at >= 0
  {
    Along(rate, base, time, t);
    if base + rate * time >= 0 {
      QuotientOfMultiple(time - t, rate);
    } else {
      QuotientAbove(time - t, 0 - (base + rate * t), rate);
    }
  }
}
