/** The shared data of the external semaphore table, as a value: one pair of 16-bit
    counters per index, two pairs of tide marks, the side in use and the request flag. */
module SignalTable {

  const MAX_TIDE: int := 0x7FFF_FFFF
  const MIN_TIDE: int := -1
  const COUNTER_RANGE: nat := 0x1_0000

  /** The range of indices that need a scan; `low > high` is the empty range. */
  datatype Tides = Tides(low: int, high: int)

  const EMPTY_TIDES := Tides(MAX_TIDE, MIN_TIDE)

  predicate TidesFit(t: Tides, n: nat) {
    && 0 <= t.low <= MAX_TIDE
    && MIN_TIDE <= t.high < n
  }

  datatype Table = Table(
    requests: seq<nat>,
    responses: seq<nat>,
    a: Tides,
    b: Tides,
    useTideA: bool,
    flag: bool)
  {
    function Pair(sideA: bool): Tides {
      if sideA then a else b
    }

    function WithPair(sideA: bool, t: Tides): (u: Table)
      ensures u.Pair(sideA) == t && u.Pair(!sideA) == Pair(!sideA)
      ensures Valid() && TidesFit(t, |requests|) ==> u.Valid()
    {
      if sideA then this.(a := t) else this.(b := t)
    }

    /** The pair that requestors starting now will mark. */
    function InUse(): Tides {
      Pair(useTideA)
    }

    /** The other pair: the one being drained, or waiting to be emptied. */
    function Retired(): Tides {
      Pair(!useTideA)
    }

    ghost predicate Valid() {
      && |requests| == |responses| <= MAX_TIDE
      && (forall i :: 0 <= i < |requests| ==> requests[i] < COUNTER_RANGE)
      && (forall i :: 0 <= i < |responses| ==> responses[i] < COUNTER_RANGE)
      && TidesFit(a, |requests|)
      && TidesFit(b, |requests|)
    }

    predicate Pending(i: int)
      requires |requests| == |responses|
    {
      0 <= i < |requests| && responses[i] != requests[i]
    }
  }

  predicate Marks(t: Tides, i: int) {
    t.low <= i <= t.high
  }

  /** C's increment of a 16-bit counter. */
  function Bump(x: nat): nat {
    (x + 1) % COUNTER_RANGE
  }

  /** How often a counter must be bumped to reach another one. */
  function Distance(responses: nat, requests: nat): nat
    requires responses < COUNTER_RANGE && requests < COUNTER_RANGE
  {
    if responses <= requests then requests - responses else COUNTER_RANGE - responses + requests
  }

  function Min(x: int, y: int): int {
    if x < y then x else y
  }

  function Max(x: int, y: int): int {
    if x > y then x else y
  }

  /** The table after one undisturbed, accepted signal request for slot `i`. */
  function Requested(t: Table, i: nat): Table
    requires i < |t.requests|
  {
    var p := t.InUse();
    t.(requests := t.requests[i := Bump(t.requests[i])], flag := true)
     .WithPair(t.useTideA, Tides(Min(p.low, i), Max(p.high, i)))
  }

  /** The last index an undisturbed response scans. */
  function LastScanned(high: int, limit: nat): int {
    if high >= limit then limit - 1 else high
  }

  /** The responses once every index in `low..high` has caught up with its requests. */
  function CaughtUp(requests: seq<nat>, responses: seq<nat>, low: int, high: int): (r: seq<nat>)
    requires |requests| == |responses|
  {
    seq(|responses|, i requires 0 <= i < |responses| => if low <= i <= high then requests[i] else responses[i])
  }

  /** The table after one undisturbed response with the flag up. */
  function Responded(t: Table, limit: nat): Table
    requires |t.requests| == |t.responses|
  {
    var p := t.InUse();
    t.(responses := CaughtUp(t.requests, t.responses, p.low, LastScanned(p.high, limit)),
       flag := false,
       useTideA := !t.useTideA)
     .WithPair(!t.useTideA, EMPTY_TIDES)
  }

  /** `n` calls that signal external semaphore number `i + 1`. */
  function Repeat(i: nat, n: nat): seq<nat> {
    seq(n, _ => i + 1)
  }

  /** The semaphore numbers signalled when slots `low..high` are drained, in order. */
  function Drain(t: Table, low: nat, high: int): (calls: seq<nat>)
    requires t.Valid() && high < |t.requests|
    decreases high + 1 - low
  {
    if low > high then []
    else Repeat(low, Distance(t.responses[low], t.requests[low])) + Drain(t, low + 1, high)
  }

  /** The coverage invariant between calls: what is pending is marked, and the flag is up. */
  ghost predicate Quiet(t: Table, limit: nat)
    requires |t.requests| == |t.responses|
  {
    forall i :: 0 <= i < limit && t.Pending(i) ==> t.flag && Marks(t.InUse(), i)
  }

  // ----- facts about undisturbed requests and responses

  lemma DrainNothing(t: Table, low: nat, high: int)
    requires t.Valid() && high < |t.requests|
    requires forall i :: low <= i <= high ==> !t.Pending(i)
    ensures Drain(t, low, high) == []
    decreases high + 1 - low
  {
    if low <= high {
      assert !t.Pending(low);
      DrainNothing(t, low + 1, high);
    }
  }

  lemma {:induction false} DrainSplit(t: Table, low: nat, mid: nat, high: int)
    requires t.Valid() && high < |t.requests| && low <= mid <= high + 1
    ensures Drain(t, low, high) == Drain(t, low, mid - 1) + Drain(t, mid, high)
    decreases mid - low
  {
    if low < mid {
      DrainSplit(t, low + 1, mid, high);
    }
  }

  lemma {:induction false} RepeatCount(j: nat, n: nat, i: nat)
    ensures multiset(Repeat(j, n))[i + 1] == if i == j then n else 0
  {
    if n > 0 {
      RepeatCount(j, n - 1, i);
      assert Repeat(j, n) == Repeat(j, n - 1) + [j + 1];
    }
  }

  /** How often semaphore number `i + 1` is signalled by a drain. */
  lemma {:induction false} DrainCount(t: Table, low: nat, high: int, i: nat)
    requires t.Valid() && high < |t.requests|
    ensures multiset(Drain(t, low, high))[i + 1]
         == if low <= i <= high then Distance(t.responses[i], t.requests[i]) else 0
    decreases high + 1 - low
  {
    if low <= high {
      RepeatCount(low, Distance(t.responses[low], t.requests[low]), i);
      DrainCount(t, low + 1, high, i);
    }
  }

  ghost predicate AscendsAbove(calls: seq<nat>, low: nat) {
    && (forall k :: 0 <= k < |calls| ==> low < calls[k])
    && (forall j, k :: 0 <= j < k < |calls| ==> calls[j] <= calls[k])
  }

  lemma AscendsAfter(low: nat, n: nat, rest: seq<nat>)
    requires AscendsAbove(rest, low + 1)
    ensures AscendsAbove(Repeat(low, n) + rest, low)
  {
    var calls := Repeat(low, n) + rest;
    forall k | 0 <= k < |calls| ensures low < calls[k] {
      if k >= n { assert calls[k] == rest[k - n]; }
    }
    forall j, k | 0 <= j < k < |calls| ensures calls[j] <= calls[k] {
      if k >= n { assert calls[k] == rest[k - n]; }
      if j >= n { assert calls[j] == rest[j - n]; }
    }
  }

  lemma {:induction false} DrainAscends(t: Table, low: nat, high: int)
    requires t.Valid() && high < |t.requests|
    ensures AscendsAbove(Drain(t, low, high), low)
    decreases high + 1 - low
  {
    if low <= high {
      DrainAscends(t, low + 1, high);
      AscendsAfter(low, Distance(t.responses[low], t.requests[low]), Drain(t, low + 1, high));
    }
  }

  /** A response that starts from the coverage invariant signals exactly what is pending
      below the limit, in ascending order and as often as each counter lags, and leaves
      nothing pending there. */
  lemma {:induction false} ResponseSignalsExactlyPending(t: Table, limit: nat)
    requires t.Valid() && t.flag && Quiet(t, limit)
    ensures Drain(t, t.InUse().low, LastScanned(t.InUse().high, limit))
         == Drain(t, 0, Min(limit, |t.requests|) - 1)
    ensures forall i :: 0 <= i < limit ==> !Responded(t, limit).Pending(i)
    ensures Quiet(Responded(t, limit), limit)
  {
    var p, last := t.InUse(), LastScanned(t.InUse().high, limit);
    var top := Min(limit, |t.requests|) - 1;
    if p.low <= last {
      DrainSplit(t, 0, p.low, top);
      DrainSplit(t, p.low, last + 1, top);
      DrainNothing(t, 0, p.low - 1);
      DrainNothing(t, last + 1, top);
    } else {
      DrainNothing(t, 0, top);
      DrainNothing(t, p.low, last);
    }
    forall i | 0 <= i < limit ensures !Responded(t, limit).Pending(i) {
      assert t.Pending(i) ==> Marks(p, i);
    }
  }

  /** Indices at or above the limit are clamped away: a response forgets their marks, so
      the coverage invariant of the whole table survives exactly when none is pending. */
  lemma ResponseForgetsBeyondLimit(t: Table, limit: nat)
    requires t.Valid() && t.flag && limit <= |t.requests| && Quiet(t, |t.requests|)
    ensures Quiet(Responded(t, limit), |t.requests|)
        <==> forall i :: limit <= i < |t.requests| ==> !t.Pending(i)
  {
    var u := Responded(t, limit);
    if Quiet(u, |t.requests|) {
      forall i | limit <= i < |t.requests| ensures !t.Pending(i) {
        assert u.Pending(i) == t.Pending(i);
      }
    } else {
      var i :| 0 <= i < |t.requests| && u.Pending(i) && !(u.flag && Marks(u.InUse(), i));
      assert t.Pending(i) && Marks(t.InUse(), i);
    }
  }

  lemma RequestKeepsQuiet(t: Table, i: nat, limit: nat)
    requires t.Valid() && i < |t.requests| && Quiet(t, limit)
    ensures Requested(t, i).Valid()
    ensures Quiet(Requested(t, i), limit)
  {
    var u := Requested(t, i);
    forall j | 0 <= j < limit && u.Pending(j) ensures u.flag && Marks(u.InUse(), j) {
      assert j != i ==> t.Pending(j);
    }
  }
}
