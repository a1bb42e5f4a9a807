/** The "days coded this year" estimate (`calculateCodingDays` in
    portfolio/components/coding-days.tsx).

    Instants are integer milliseconds since the epoch. The clock readings
    (`new Date()` and the start of the year) are parameters, and the event
    feed is what the events request produced. An event's day is its UTC
    calendar day, the date part of `toISOString()`; distinct days have
    distinct date strings, so the model keys days by the day number
    `t / MsPerDay` (a floor division, which Dafny's `/` is for a positive
    divisor). */
module CodingDays {
  import opened Wrappers

  const MsPerDay: int := 1000 * 60 * 60 * 24

  /** Fewer distinct active days than this and the feed is considered too sparse. */
  const SparseThreshold: int := 10

  /** `new Date(event.created_at)`: `None` for an unparsable timestamp (an
      Invalid Date, which fails both window comparisons). */
  type Stamp = Option<int>

  /** What the events request produced: the events' timestamps, or a failure
      anywhere in the `try` block (network, JSON, a body that is not a list). */
  datatype Feed = Events(stamps: seq<Stamp>) | FeedFailed

  /** The UTC calendar day of instant `t`. */
  function DayKey(t: int): int {
    t / MsPerDay
  }

  /** `eventDate >= startDate && eventDate <= endDate`. */
  predicate InWindow(start: int, now: int, e: Stamp) {
    e.Some? && start <= e.value <= now
  }

  /** The set of days with at least one event inside the window. */
  function ActiveDays(stamps: seq<Stamp>, start: int, now: int): set<int> {
    set e | e in stamps && InWindow(start, now, e) :: DayKey(e.value)
  }

  /** The `events.forEach` loop adding each in-window event's date key to a `Set`. */
  method CollectActiveDays(stamps: seq<Stamp>, start: int, now: int) returns (days: set<int>)
    ensures days == ActiveDays(stamps, start, now)
  {
    days := {};
    var i := 0;
    while i < |stamps|
      invariant 0 <= i <= |stamps|
      invariant days == ActiveDays(stamps[..i], start, now)
    {
      var e := stamps[i];
      if InWindow(start, now, e) {
        days := days + {DayKey(e.value)};
      }
      assert stamps[..i + 1] == stamps[..i] + [e];
      i := i + 1;
    }
    assert stamps[..|stamps|] == stamps;
  }

  /** `Math.floor((endDate - startDate) / 86400000)`. */
  function DaysSinceStart(start: int, now: int): int {
    (now - start) / MsPerDay
  }

  /** `Math.floor(daysSinceStart * 0.7)`, in exact arithmetic. */
  function Fallback(start: int, now: int): int {
    DaysSinceStart(start, now) * 7 / 10
  }

  /** The value `setCodingDays` receives, on the normal path and in the `catch`.
      `ActiveDays` is the set `CollectActiveDays` is proved to build. When the
      year starts at a UTC midnight no later than `now`, the value lies between
      zero and the number of calendar days the window touches. */
  function Estimate(feed: Feed, start: int, now: int): (r: int)
    ensures start <= now && start % MsPerDay == 0 ==> 0 <= r <= DaysSinceStart(start, now) + 1
  {
    var d := DaysSinceStart(start, now);
    assert d >= 0 ==> 0 <= d * 7 / 10 <= d;
    match feed
    case FeedFailed => Fallback(start, now)
    case Events(stamps) =>
      ActiveDaysFitWindow(stamps, start, now);
      var n := |ActiveDays(stamps, start, now)|;
      if n < SparseThreshold then Fallback(start, now) else n
  }

  // ----- Properties -----

  /** A day is active exactly when some event with a valid timestamp inside
      `[start, now]`, both ends included, falls on it. */
  lemma ActiveDayWitness(stamps: seq<Stamp>, start: int, now: int, d: int)
    ensures d in ActiveDays(stamps, start, now) <==>
      exists i :: 0 <= i < |stamps| && stamps[i].Some? && start <= stamps[i].value <= now && DayKey(stamps[i].value) == d
  {
    if d in ActiveDays(stamps, start, now) {
      var e :| e in stamps && InWindow(start, now, e) && DayKey(e.value) == d;
      var i :| 0 <= i < |stamps| && stamps[i] == e;
    }
  }

  /** With at least `SparseThreshold` active days the estimate is their number;
      with fewer it is the fallback, which does not look at the events. */
  lemma EstimateThreshold(stamps: seq<Stamp>, start: int, now: int)
    ensures |ActiveDays(stamps, start, now)| >= SparseThreshold ==>
      Estimate(Events(stamps), start, now) == |ActiveDays(stamps, start, now)|
    ensures |ActiveDays(stamps, start, now)| < SparseThreshold ==>
      Estimate(Events(stamps), start, now) == Fallback(start, now)
  {
  }

  /** At the threshold: nine active days give the fallback, ten give ten. */
  lemma ThresholdEdge(stamps: seq<Stamp>, start: int, now: int)
    ensures |ActiveDays(stamps, start, now)| == 9 ==> Estimate(Events(stamps), start, now) == Fallback(start, now)
    ensures |ActiveDays(stamps, start, now)| == 10 ==> Estimate(Events(stamps), start, now) == 10
  {
  }

  /** Reordering or repeating events changes nothing: only the set of
      timestamps matters. */
  lemma EstimateIgnoresOrderAndRepeats(a: seq<Stamp>, b: seq<Stamp>, start: int, now: int)
    requires forall e :: e in a <==> e in b
    ensures Estimate(Events(a), start, now) == Estimate(Events(b), start, now)
  {
    assert ActiveDays(a, start, now) == ActiveDays(b, start, now);
  }

  /** Events outside the window, and events with unparsable timestamps, change nothing. */
  lemma EstimateIgnoresOutsideWindow(a: seq<Stamp>, b: seq<Stamp>, start: int, now: int)
    requires forall e :: InWindow(start, now, e) ==> (e in a <==> e in b)
    ensures Estimate(Events(a), start, now) == Estimate(Events(b), start, now)
  {
    assert ActiveDays(a, start, now) == ActiveDays(b, start, now);
  }

  /** A failed request gives what an empty event list gives. */
  lemma FailureIsLikeNoEvents(start: int, now: int)
    ensures Estimate(FeedFailed, start, now) == Estimate(Events([]), start, now)
  {
    assert ActiveDays([], start, now) == {};
  }

  /** There are never more active days than events. */
  lemma {:induction false} ActiveDaysAtMostEvents(stamps: seq<Stamp>, start: int, now: int)
    ensures |ActiveDays(stamps, start, now)| <= |stamps|
  {
    if stamps != [] {
      var rest := stamps[1..];
      ActiveDaysAtMostEvents(rest, start, now);
      var e := stamps[0];
      assert stamps == [e] + rest;
      var extra: set<int> := if InWindow(start, now, e) then {DayKey(e.value)} else {};
      assert ActiveDays(stamps, start, now) == ActiveDays(rest, start, now) + extra;
    }
  }

  /** A set of integers inside `[lo, hi]` has at most `hi - lo + 1` elements. */
  lemma {:induction false} SizeWithinRange(days: set<int>, lo: int, hi: int)
    requires lo <= hi + 1
    requires forall d | d in days :: lo <= d <= hi
    ensures |days| <= hi - lo + 1
    decreases hi - lo
  {
    if lo <= hi {
      SizeWithinRange(days - {hi}, lo, hi - 1);
    } else {
      assert forall d :: d !in days;
      assert days == {};
    }
  }

  /** Day numbers of a window that starts at a UTC midnight. */
  lemma DayKeysOfWindow(start: int, now: int)
    requires start <= now && start % MsPerDay == 0
    ensures DayKey(start) <= DayKey(now)
    ensures DayKey(now) - DayKey(start) == DaysSinceStart(start, now)
  {
    var k := start / MsPerDay;
    var x := now - start;
    assert start == k * MsPerDay;
    assert now == (k + x / MsPerDay) * MsPerDay + x % MsPerDay;
  }

  /** When the year starts at a UTC midnight no later than `now`, there are
      no more active days than calendar days the window touches. */
  lemma ActiveDaysFitWindow(stamps: seq<Stamp>, start: int, now: int)
    ensures start <= now && start % MsPerDay == 0 ==>
      |ActiveDays(stamps, start, now)| <= DaysSinceStart(start, now) + 1
  {
    if start <= now && start % MsPerDay == 0 {
      var days := ActiveDays(stamps, start, now);
      DayKeysOfWindow(start, now);
      forall t | start <= t <= now ensures DayKey(start) <= DayKey(t) <= DayKey(now) {
        DayKeyMonotonic(start, t);
        DayKeyMonotonic(t, now);
      }
      SizeWithinRange(days, DayKey(start), DayKey(now));
    }
  }

  lemma DayKeyMonotonic(t: int, u: int)
    requires t <= u
    ensures DayKey(t) <= DayKey(u)
  {
    var q, r := t / MsPerDay, u / MsPerDay;
    assert t == q * MsPerDay + t % MsPerDay;
    assert u == r * MsPerDay + u % MsPerDay;
  }

  // ----- Worked examples -----

  /** No events, 200 days into the year: `floor(200 * 0.7) = 140`. */
  lemma ExampleNoEvents(start: int)
    ensures Estimate(Events([]), start, start + 200 * MsPerDay) == 140
  {
    assert ActiveDays([], start, start + 200 * MsPerDay) == {};
  }

  /** Five events, 100 days into the year: too sparse, so `floor(100 * 0.7) = 70`. */
  lemma ExampleSparse(stamps: seq<Stamp>, start: int)
    requires |stamps| == 5
    ensures Estimate(Events(stamps), start, start + 100 * MsPerDay) == 70
  {
    ActiveDaysAtMostEvents(stamps, start, start + 100 * MsPerDay);
  }
}
