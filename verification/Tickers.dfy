/** One tickee and a run of clock readings: when it fires, how often, and how its deadline moves. */
module Tickers {
  import opened Repetition

  const MICROSECONDS_PER_MILLISECOND: nat := 1000
  const HICCUP_THRESHOLD: nat := 10_000_000
  const UNSIGNED_RANGE: nat := 0x1_0000_0000

  /** Function 0 is the null pointer; times are in microseconds. */
  datatype Tickee = Tickee(fn: nat, deadline: nat, period: nat)

  /** C's 32-bit product `ms * 1000`. */
  function Micros(ms: nat): nat {
    (ms * MICROSECONDS_PER_MILLISECOND) % UNSIGNED_RANGE
  }

  predicate Due(t: Tickee, now: nat) {
    now >= t.deadline
  }

  /** The deadline after a firing. The asynchronous ticker (`rebase`) starts afresh from the
      current time if it is more than the threshold late. */
  function NextDeadline(t: Tickee, now: nat, rebase: bool): nat {
    if rebase && t.deadline + HICCUP_THRESHOLD < now then now + t.period else t.deadline + t.period
  }

  function Tick(t: Tickee, now: nat, rebase: bool): Tickee {
    if Due(t, now) then t.(deadline := NextDeadline(t, now, rebase)) else t
  }

  function Ticks(t: Tickee, clocks: seq<nat>, rebase: bool): Tickee
    decreases |clocks|
  {
    if clocks == [] then t else Ticks(Tick(t, clocks[0], rebase), clocks[1..], rebase)
  }

  /** The clock readings at which the tickee fires. */
  function Firings(t: Tickee, clocks: seq<nat>, rebase: bool): seq<nat>
    decreases |clocks|
  {
    if clocks == [] then []
    else (if Due(t, clocks[0]) then [clocks[0]] else []) + Firings(Tick(t, clocks[0], rebase), clocks[1..], rebase)
  }

  lemma OneMoreReading(t: Tickee, now: nat, clocks: seq<nat>, rebase: bool)
    ensures Ticks(t, [now] + clocks, rebase) == Ticks(Tick(t, now, rebase), clocks, rebase)
    ensures |Firings(t, [now] + clocks, rebase)|
         == (if Due(t, now) then 1 else 0) + |Firings(Tick(t, now, rebase), clocks, rebase)|
  {
    assert ([now] + clocks)[1..] == clocks;
  }

  ghost predicate Within(clocks: seq<nat>, a: nat, b: nat) {
    forall k :: 0 <= k < |clocks| ==> a <= clocks[k] <= b
  }

  // ----- when it fires

  /** Reading `k` is the first one at or after time `d`. */
  ghost predicate FirstAtOrAfter(clocks: seq<nat>, d: nat, k: nat) {
    k < |clocks| && clocks[k] >= d && forall j :: 0 <= j < k ==> clocks[j] < d
  }

  ghost predicate AllBefore(clocks: seq<nat>, d: nat) {
    forall j :: 0 <= j < |clocks| ==> clocks[j] < d
  }

  /** A tickee fires in a run exactly when some reading is at or after its deadline. */
  lemma {:induction false} FiresExactlyWhen(t: Tickee, clocks: seq<nat>, rebase: bool)
    ensures Firings(t, clocks, rebase) == [] <==> AllBefore(clocks, t.deadline)
    decreases |clocks|
  {
    if clocks != [] && clocks[0] < t.deadline {
      var rest := clocks[1..];
      FiresExactlyWhen(t, rest, rebase);
      assert forall j :: 0 < j < |clocks| ==> clocks[j] == rest[j - 1];
    }
  }

  /** It fires at the first such reading. From there on it is due a period after its old deadline, or,
      if the asynchronous ticker was more than ten seconds late, a period after that reading. */
  lemma {:induction false} FiresAtFirst(t: Tickee, clocks: seq<nat>, rebase: bool, k: nat)
    requires FirstAtOrAfter(clocks, t.deadline, k)
    ensures var late := rebase && clocks[k] > t.deadline + 10_000_000;
            var next := t.(deadline := if late then clocks[k] + t.period else t.deadline + t.period);
            && Firings(t, clocks, rebase) == [clocks[k]] + Firings(next, clocks[k + 1..], rebase)
            && Ticks(t, clocks, rebase) == Ticks(next, clocks[k + 1..], rebase)
    decreases k
  {
    if k > 0 {
      var rest := clocks[1..];
      assert forall j :: 0 <= j < k ==> rest[j] == clocks[j + 1];
      assert clocks[0] < t.deadline;
      FiresAtFirst(t, rest, rebase, k - 1);
      assert rest[k..] == clocks[k + 1..];
    }
  }

  /** So the second firing comes at the first later reading at or after that time, and not before. */
  lemma SecondFiring(t: Tickee, clocks: seq<nat>, rebase: bool, k: nat)
    requires FirstAtOrAfter(clocks, t.deadline, k)
    ensures var late := rebase && clocks[k] > t.deadline + 10_000_000;
            var due := if late then clocks[k] + t.period else t.deadline + t.period;
            var fired, rest := Firings(t, clocks, rebase), clocks[k + 1..];
            && fired != [] && fired[0] == clocks[k]
            && (|fired| == 1 <==> AllBefore(rest, due))
            && (forall m: nat :: FirstAtOrAfter(rest, due, m) ==> |fired| >= 2 && fired[1] == rest[m])
  {
    var late := rebase && clocks[k] > t.deadline + 10_000_000;
    var next := t.(deadline := if late then clocks[k] + t.period else t.deadline + t.period);
    var rest := clocks[k + 1..];
    FiresAtFirst(t, clocks, rebase, k);
    FiresExactlyWhen(next, rest, rebase);
    forall m: nat | FirstAtOrAfter(rest, next.deadline, m)
      ensures Firings(next, rest, rebase) != [] && Firings(next, rest, rebase)[0] == rest[m]
    {
      FiresAtFirst(next, rest, rebase, m);
    }
  }

  // ----- rate

  /** Every firing moves the deadline on by a period at least, and the last one finds it no
      later than the clock. */
  lemma {:induction false} FiringsAreSpaced(t: Tickee, clocks: seq<nat>, rebase: bool, b: nat)
    requires Within(clocks, 0, b)
    ensures var n := |Firings(t, clocks, rebase)|; n > 0 ==> t.deadline + Times(t.period, n - 1) <= b
    decreases |clocks|
  {
    if clocks != [] {
      var t', rest := Tick(t, clocks[0], rebase), clocks[1..];
      assert forall k :: 0 <= k < |rest| ==> rest[k] == clocks[k + 1];
      FiringsAreSpaced(t', rest, rebase, b);
    }
  }

  /** Measured from the start of the run, an asynchronous tickee is at most the threshold ahead of
      one firing per period. */
  lemma {:induction false} FiringsFitTheRun(t: Tickee, clocks: seq<nat>, a: nat, b: nat)
    requires a <= b && Within(clocks, a, b)
    ensures var n := |Firings(t, clocks, true)|; n > 0 ==> a + Times(t.period, n - 1) <= b + HICCUP_THRESHOLD
    decreases |clocks|
  {
    if clocks != [] {
      var t', rest := Tick(t, clocks[0], true), clocks[1..];
      assert forall k :: 0 <= k < |rest| ==> rest[k] == clocks[k + 1];
      if Due(t, clocks[0]) {
        FiringsAreSpaced(t', rest, true, b);
      } else {
        FiringsFitTheRun(t', rest, a, b);
      }
    }
  }

  lemma MoreIsMore(m: nat, n: nat, period: nat)
    ensures m <= n ==> m * period <= n * period
  {
  }

  lemma FitsPeriods(n: nat, span: nat, period: nat)
    requires period > 0 && n * period <= span
    ensures n <= span / period
  {
    var q := span / period;
    assert span < (q + 1) * period;
    MoreIsMore(q + 1, n, period);
  }

  lemma PeriodsFit(n: nat, period: nat, span: nat)
    requires period > 0 && (n > 0 ==> Times(period, n - 1) <= span)
    ensures n <= span / period + 1
  {
    if n > 0 {
      TimesIsProduct(period, n - 1);
      FitsPeriods(n - 1, span, period);
    }
  }

  /** Rate bound: with the clock between `a` and `b`, an asynchronous tickee fires at most once
      per period of `b - a` plus the threshold, and once more, whatever its first deadline. */
  lemma RateBound(t: Tickee, clocks: seq<nat>, a: nat, b: nat)
    requires t.period > 0 && a <= b && Within(clocks, a, b)
    ensures |Firings(t, clocks, true)| <= (b - a + 10_000_000) / t.period + 1
  {
    FiringsFitTheRun(t, clocks, a, b);
    PeriodsFit(|Firings(t, clocks, true)|, t.period, b - a + HICCUP_THRESHOLD);
  }

  function Repeated(now: nat, n: nat): seq<nat> {
    seq(n, _ => now)
  }

  lemma {:induction false} NeverDueAgain(t: Tickee, now: nat, n: nat, rebase: bool)
    requires now < t.deadline
    ensures Ticks(t, Repeated(now, n), rebase) == t
    decreases n
  {
    if n > 0 {
      assert Repeated(now, n)[1..] == Repeated(now, n - 1);
      NeverDueAgain(t, now, n - 1, rebase);
    }
  }

  lemma {:induction false} StillDueMeansFired(t: Tickee, now: nat, n: nat)
    requires Due(Ticks(t, Repeated(now, n), true), now)
    ensures |Firings(t, Repeated(now, n + 1), true)| == n + 1
    decreases n
  {
    var t' := Tick(t, now, true);
    assert Repeated(now, n + 1)[1..] == Repeated(now, n);
    if n == 0 {
      assert Firings(t', [], true) == [];
    } else {
      assert Repeated(now, n)[1..] == Repeated(now, n - 1);
      StillDueMeansFired(t', now, n - 1);
      if !Due(t, now) {
        NeverDueAgain(t, now, n, true);
      }
    }
  }

  /** While the clock stands still, repeated checks stop firing: after floor(threshold / period)
      + 1 of them nothing is due any more. */
  lemma FrozenClockStopsFiring(t: Tickee, now: nat, n: nat)
    requires t.period > 0 && n > 10_000_000 / t.period
    ensures |Firings(t, Repeated(now, n), true)| <= 10_000_000 / t.period + 1
    ensures now < Ticks(t, Repeated(now, n), true).deadline
  {
    RateBound(t, Repeated(now, n), now, now);
    RateBound(t, Repeated(now, n + 1), now, now);
    if Due(Ticks(t, Repeated(now, n), true), now) {
      StillDueMeansFired(t, now, n);
    }
  }

  // ----- no drift

  /** No check finds the tickee more than the threshold late. */
  ghost predicate Punctual(t: Tickee, clocks: seq<nat>, rebase: bool)
    decreases |clocks|
  {
    clocks == [] ||
    ((Due(t, clocks[0]) && rebase ==> clocks[0] <= t.deadline + 10_000_000) &&
     Punctual(Tick(t, clocks[0], rebase), clocks[1..], rebase))
  }

  /** The k-th firing is no earlier than `k` periods after the deadline. */
  ghost predicate OnSchedule(deadline: nat, period: nat, fired: seq<nat>) {
    forall k :: 0 <= k < |fired| ==> deadline + Times(period, k) <= fired[k]
  }

  lemma OneFiringEarlier(deadline: nat, period: nat, first: nat, later: seq<nat>)
    requires deadline <= first && OnSchedule(deadline + period, period, later)
    ensures OnSchedule(deadline, period, [first] + later)
  {
    var fired := [first] + later;
    forall k | 0 <= k < |fired| ensures deadline + Times(period, k) <= fired[k] {
      assert k > 0 ==> fired[k] == later[k - 1];
    }
  }

  lemma {:induction false} FiringsFollowSchedule(t: Tickee, clocks: seq<nat>, rebase: bool)
    requires Punctual(t, clocks, rebase)
    ensures var fired := Firings(t, clocks, rebase);
            && Ticks(t, clocks, rebase) == t.(deadline := t.deadline + Times(t.period, |fired|))
            && OnSchedule(t.deadline, t.period, fired)
    decreases |clocks|
  {
    if clocks != [] {
      var t', rest := Tick(t, clocks[0], rebase), clocks[1..];
      FiringsFollowSchedule(t', rest, rebase);
      if Due(t, clocks[0]) {
        var later := Firings(t', rest, rebase);
        assert t' == t.(deadline := t.deadline + t.period);
        assert Firings(t, clocks, rebase) == [clocks[0]] + later;
        assert Times(t.period, |later| + 1) == t.period + Times(t.period, |later|);
        OneFiringEarlier(t.deadline, t.period, clocks[0], later);
      }
    }
  }

  /** No drift: the k-th firing happens at or after its scheduled time, and the deadline has
      moved on by exactly one period per firing. For the synchronous ticker, always. */
  lemma NoDrift(t: Tickee, clocks: seq<nat>, rebase: bool)
    requires Punctual(t, clocks, rebase)
    ensures var fired := Firings(t, clocks, rebase);
            && Ticks(t, clocks, rebase) == t.(deadline := t.deadline + |fired| * t.period)
            && (forall k :: 0 <= k < |fired| ==> t.deadline + k * t.period <= fired[k])
  {
    var fired := Firings(t, clocks, rebase);
    FiringsFollowSchedule(t, clocks, rebase);
    TimesIsProduct(t.period, |fired|);
    forall k | 0 <= k < |fired| ensures t.deadline + k * t.period <= fired[k] {
      TimesIsProduct(t.period, k);
    }
  }

  lemma {:induction false} SynchronousIsPunctual(t: Tickee, clocks: seq<nat>)
    ensures Punctual(t, clocks, false)
    decreases |clocks|
  {
    if clocks != [] {
      SynchronousIsPunctual(Tick(t, clocks[0], false), clocks[1..]);
    }
  }

  /** By time `b` a punctual tickee has fired at most floor((b - D) / P) + 1 times, D being its
      first deadline; not at all if that is still to come. */
  lemma PunctualRate(t: Tickee, clocks: seq<nat>, rebase: bool, b: nat)
    requires t.period > 0 && Within(clocks, 0, b)
    ensures var n := |Firings(t, clocks, rebase)|;
            if b < t.deadline then n == 0 else n <= (b - t.deadline) / t.period + 1
  {
    FiringsAreSpaced(t, clocks, rebase, b);
    if b >= t.deadline {
      PeriodsFit(|Firings(t, clocks, rebase)|, t.period, b - t.deadline);
    }
  }

  lemma {:induction false} FiresAlwaysOrCatchesUp(t: Tickee, now: nat, n: nat)
    ensures |Firings(t, Repeated(now, n), false)| == n || now < Ticks(t, Repeated(now, n), false).deadline
    decreases n
  {
    if n > 0 {
      assert Repeated(now, n)[1..] == Repeated(now, n - 1);
      FiresAlwaysOrCatchesUp(Tick(t, now, false), now, n - 1);
      if now < t.deadline { NeverDueAgain(t, now, n, false); }
    }
  }

  lemma FewerPeriods(n: nat, span: nat, period: nat)
    requires period > 0 && span < n * period
    ensures span / period < n
  {
    var q := span / period;
    assert q * period <= span;
    if n <= q { MoreIsMore(n, q, period); }
  }

  /** A synchronous tickee makes up for lost time: checked often enough at a clock `c` no earlier than its
      deadline D, it fires exactly floor((c - D) / P) + 1 times. */
  lemma CatchesUp(t: Tickee, c: nat, n: nat)
    requires t.period > 0 && c >= t.deadline && n > (c - t.deadline) / t.period
    ensures |Firings(t, Repeated(c, n), false)| == (c - t.deadline) / t.period + 1
  {
    var clocks := Repeated(c, n);
    var fired := |Firings(t, clocks, false)|;
    PunctualRate(t, clocks, false, c);
    FiresAlwaysOrCatchesUp(t, c, n);
    SynchronousIsPunctual(t, clocks);
    NoDrift(t, clocks, false);
    if fired != n {
      assert c - t.deadline < fired * t.period;
      FewerPeriods(fired, c - t.deadline, t.period);
    }
  }

  // ----- rounding

  lemma RemainderFits(x: nat, unit: nat)
    requires unit > 0
    ensures 0 <= x % unit < unit && x % unit <= x
  {
    var q := x / unit;
    assert q >= 0 && x == q * unit + x % unit;
  }

  /** The first deadline of a synchronous tickee; the clock is read twice. */
  function FirstDeadline(periodms: nat, roundms: nat, now: nat, later: nat): nat
    requires roundms == 0 || Micros(roundms) != 0
  {
    var deadline := Micros(periodms) + now;
    if roundms == 0 then deadline
    else
      RemainderFits(deadline, Micros(roundms));
      var rounded := deadline - deadline % Micros(roundms);
      if rounded < later then rounded + Micros(periodms) else rounded
  }

  /** Without overflow a unit no longer than the period stays so. */
  lemma MicrosFit(periodms: nat, roundms: nat)
    requires 0 < roundms <= periodms && periodms * MICROSECONDS_PER_MILLISECOND < UNSIGNED_RANGE
    ensures 0 < Micros(roundms) <= Micros(periodms)
  {
    assert Micros(roundms) == roundms * MICROSECONDS_PER_MILLISECOND;
  }

  lemma SmallMultiple(unit: nat, k: int)
    requires unit > 0
    ensures 0 <= unit * k < unit ==> k == 0
  {
  }

  lemma MultipleHasNoRemainder(k: nat, unit: nat)
    requires unit > 0
    ensures (unit * k) % unit == 0
  {
    var r := (unit * k) % unit;
    assert unit * k == unit * (unit * k / unit) + r;
    assert r == unit * (k - unit * k / unit);
    SmallMultiple(unit, k - unit * k / unit);
  }

  lemma Subtracting(x: nat, unit: nat)
    requires unit > 0
    ensures (x - x % unit) % unit == 0
  {
    assert x - x % unit == unit * (x / unit);
    MultipleHasNoRemainder(x / unit, unit);
  }

  lemma MultiplePlusRest(k: nat, unit: nat, r: nat)
    requires r < unit
    ensures (unit * k + r) % unit == r
  {
    var s := (unit * k + r) % unit;
    var j := (unit * k + r) / unit;
    assert unit * k + r == unit * j + s;
    assert unit * (k - j) == s - r;
    SmallMultiple(unit, k - j);
    SmallMultiple(unit, j - k);
    assert unit * (j - k) == r - s;
  }

  lemma SumWithMultiple(m: nat, x: nat, unit: nat)
    requires unit > 0 && m % unit == 0
    ensures (m + x) % unit == x % unit
  {
    var q := m / unit;
    assert m == unit * q;
    assert m + x == unit * (q + x / unit) + x % unit;
    MultiplePlusRest(q + x / unit, unit, x % unit);
  }

  lemma RoundingDown(period: nat, unit: nat, now: nat)
    requires unit > 0
    ensures var rounded := period + now - (period + now) % unit;
            && rounded % unit == 0
            && (rounded + period) % unit == period % unit
            && (rounded < now <==> (now + period) % unit > period)
  {
    var rounded := period + now - (period + now) % unit;
    Subtracting(period + now, unit);
    SumWithMultiple(rounded, period, unit);
  }

  /** A unit no longer than the period: if the second reading of the clock is no later than the
      last multiple of the unit up to one period ahead, that multiple is the first deadline; else the
      first deadline is one period after it. With one reading it is never else. */
  lemma RoundedStart(periodms: nat, roundms: nat, now: nat, later: nat)
    requires 0 < roundms <= periodms && periodms * MICROSECONDS_PER_MILLISECOND < UNSIGNED_RANGE && now <= later
    ensures var period, unit := Micros(periodms), Micros(roundms);
            var d, last := FirstDeadline(periodms, roundms, now, later), now + period - (now + period) % unit;
            && now < d && last % unit == 0 && now < last <= now + period < last + unit
            && (later <= last ==> d == last)
            && (later > last ==> d == last + period)
            && (later <= now + period - unit ==> later <= last)
  {
    var period, unit := Micros(periodms), Micros(roundms);
    MicrosFit(periodms, roundms);
    RoundingDown(period, unit, now);
    RemainderFits(now + period, unit);
    assert now + period == period + now;
  }

  /** In general the first deadline is a multiple of the unit exactly when the second reading is no
      later than the deadline rounded down, or the period is itself a multiple of the unit. */
  lemma AlignedExactlyWhen(periodms: nat, roundms: nat, now: nat, later: nat)
    requires roundms > 0 && Micros(roundms) != 0
    ensures FirstDeadline(periodms, roundms, now, later) % Micros(roundms) == 0 <==>
            (later <= now + Micros(periodms) - (now + Micros(periodms)) % Micros(roundms) ||
             Micros(periodms) % Micros(roundms) == 0)
  {
    RoundingDown(Micros(periodms), Micros(roundms), now);
  }

  /** It does fail: with a unit longer than the period at once, with a shorter one if the clock
      moves on between its two readings. */
  lemma MisalignedStarts()
    ensures FirstDeadline(2, 3, 1, 1) == 2000 && 2000 % Micros(3) != 0
    ensures FirstDeadline(3, 2, 0, 2001) == 5000 && 5000 % Micros(2) != 0
  {
    assert Micros(2) == 2000 && Micros(3) == 3000;
  }

  /** Alignment lasts: if the period is a multiple of the unit, every later deadline is too. */
  lemma {:induction false} StaysAligned(t: Tickee, clocks: seq<nat>, unit: nat)
    requires unit > 0 && t.deadline % unit == 0 && t.period % unit == 0
    ensures Ticks(t, clocks, false).deadline % unit == 0
    decreases |clocks|
  {
    if clocks != [] {
      SumWithMultiple(t.deadline, t.period, unit);
      StaysAligned(Tick(t, clocks[0], false), clocks[1..], unit);
    }
  }
}
