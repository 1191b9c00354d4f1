/** Requestors racing on the tide marks while the responder stands still: the compare-and-swap
    loops act as atomic minimum and maximum, and the retries are paid for by successes. */
module TideContention {
  import opened Repetition
  import opened SignalTable
  import opened SignalProtocol

  ghost predicate RequestorsOnly(steps: seq<Step>) {
    forall k :: 0 <= k < |steps| ==> !steps[k].Respond?
  }

  // ----- the marks are the minimum and the maximum

  /** Slot `i` has accepted a request since `s0`. */
  predicate Asked(s0: State, s: State, i: int)
    requires |s0.accepted| == |s.accepted|
  {
    0 <= i < |s.accepted| && s0.accepted[i] < s.accepted[i]
  }

  /** Requestor `q` has yet to push the low (`forHigh`: the high) mark out to slot `i`. */
  predicate Pushing(q: Requestor, i: int, forHigh: bool) {
    match q
    case Choosing(j) => j == i
    case ReadingLow(j, _) => j == i
    case SwappingLow(j, _, _) => j == i
    case ReadingHigh(j, _) => forHigh && j == i
    case SwappingHigh(j, _, _) => forHigh && j == i
    case _ => false
  }

  ghost predicate Pushed(s: State, i: int, forHigh: bool) {
    exists r :: 0 <= r < |s.requestors| && Pushing(s.requestors[r], i, forHigh)
  }

  /** Slot `i` is on the right side of a mark, or a requestor is still pushing the mark there. */
  ghost predicate Handled(s: State, i: int, forHigh: bool) {
    (if forHigh then i <= s.table.InUse().high else s.table.InUse().low <= i) || Pushed(s, i, forHigh)
  }

  predicate RacesFor(s0: State, s: State, q: Requestor)
    requires |s0.accepted| == |s.accepted|
  {
    && (q.InWindow() ==> q.sideA == s.table.useTideA)
    && (q.InWindow() || q.Choosing? ==> Asked(s0, s, q.i))
  }

  /** Every mark moved since `s0` names a slot asked for since. */
  ghost predicate MovedByAsking(s0: State, s: State)
    requires Valid(s0) && Valid(s) && SameShape(s0, s)
  {
    var p0, p := s0.table.InUse(), s.table.InUse();
    && s.table.useTideA == s0.table.useTideA
    && s.table.Retired() == s0.table.Retired()
    && p.low <= p0.low && p0.high <= p.high
    && (p.low == p0.low || Asked(s0, s, p.low))
    && (p.high == p0.high || Asked(s0, s, p.high))
  }

  /** ... and every slot asked for since is handled. */
  ghost predicate Racing(s0: State, s: State)
    requires Valid(s0) && Valid(s) && SameShape(s0, s)
  {
    && MovedByAsking(s0, s)
    && (forall r :: 0 <= r < |s.requestors| ==> RacesFor(s0, s, s.requestors[r]))
    && (forall i :: 0 <= i < |s.accepted| ==> s0.accepted[i] <= s.accepted[i])
    && (forall i, forHigh :: Asked(s0, s, i) ==> Handled(s, i, forHigh))
  }

  lemma MarksWiden(s: State, step: Step, sideA: bool)
    requires Valid(s) && Enabled(s, step) && !step.Respond?
    ensures var (p, p') := (s.table.Pair(sideA), Apply(s, step).table.Pair(sideA));
            p'.low <= p.low && p.high <= p'.high
  {
  }

  lemma AdvanceKeepsHandled(s: State, r: nat, i: int, forHigh: bool)
    requires Valid(s) && Enabled(s, Advance(r)) && Handled(s, i, forHigh)
    requires s.requestors[r].InWindow() ==> s.requestors[r].sideA == s.table.useTideA
    ensures Handled(Apply(s, Advance(r)), i, forHigh)
  {
    var s' := Apply(s, Advance(r));
    MarksWiden(s, Advance(r), s.table.useTideA);
    if Pushed(s, i, forHigh) {
      var o :| 0 <= o < |s.requestors| && Pushing(s.requestors[o], i, forHigh);
      if o != r { assert s'.requestors[o] == s.requestors[o]; }
      else { assert Pushing(s'.requestors[r], i, forHigh) || Handled(s', i, forHigh); }
    }
  }

  /** A mark moves only to the slot of the requestor that moves it. */
  lemma MarksMoveToSlot(s: State, r: nat)
    requires Valid(s) && Enabled(s, Advance(r))
    ensures var t, t', q := s.table, Apply(s, Advance(r)).table, s.requestors[r];
            && t'.useTideA == t.useTideA
            && (q.InWindow() ==>
                  && t'.Pair(!q.sideA) == t.Pair(!q.sideA)
                  && (var p, p' := t.Pair(q.sideA), t'.Pair(q.sideA);
                      && (p'.low == p.low || p'.low == q.i) && (p'.high == p.high || p'.high == q.i)))
            && (!q.InWindow() ==> t'.a == t.a && t'.b == t.b)
  {
  }

  lemma AskingStays(s0: State, s: State, r: nat)
    requires Valid(s) && |s0.accepted| == |s.accepted| && Enabled(s, Advance(r))
    ensures |Apply(s, Advance(r)).accepted| == |s.accepted|
    ensures forall i :: Asked(s0, s, i) ==> Asked(s0, Apply(s, Advance(r)), i)
  {
  }

  lemma AdvanceKeepsMoved(s0: State, s: State, r: nat)
    requires Valid(s0) && Valid(s) && SameShape(s0, s) && Enabled(s, Advance(r))
    requires MovedByAsking(s0, s) && RacesFor(s0, s, s.requestors[r])
    ensures MovedByAsking(s0, Apply(s, Advance(r)))
  {
    MarksMoveToSlot(s, r);
    MarksWiden(s, Advance(r), s.table.useTideA);
    AskingStays(s0, s, r);
  }

  lemma AdvanceKeepsRaces(s0: State, s: State, r: nat, o: nat)
    requires Valid(s0) && Valid(s) && SameShape(s0, s) && Enabled(s, Advance(r)) && o < |s.requestors|
    requires RacesFor(s0, s, s.requestors[o])
    requires forall i :: 0 <= i < |s.accepted| ==> s0.accepted[i] <= s.accepted[i]
    ensures RacesFor(s0, Apply(s, Advance(r)), Apply(s, Advance(r)).requestors[o])
  {
    AskingStays(s0, s, r);
    var s' := Apply(s, Advance(r));
    assert o != r ==> s'.requestors[o] == s.requestors[o];
    assert s'.table.useTideA == s.table.useTideA;
  }

  lemma AdvanceKeepsRacing(s0: State, s: State, r: nat)
    requires Valid(s0) && Valid(s) && SameShape(s0, s) && Racing(s0, s) && Enabled(s, Advance(r))
    ensures Racing(s0, Apply(s, Advance(r)))
  {
    var s' := Apply(s, Advance(r));
    AdvanceKeepsMoved(s0, s, r);
    forall o | 0 <= o < |s'.requestors| ensures RacesFor(s0, s', s'.requestors[o]) {
      AdvanceKeepsRaces(s0, s, r, o);
    }
    forall i, forHigh | Asked(s0, s', i) ensures Handled(s', i, forHigh) {
      if s.requestors[r] == Adding(i) {
        assert Pushing(s'.requestors[r], i, forHigh);
      } else {
        assert Asked(s0, s, i);
        AdvanceKeepsHandled(s, r, i, forHigh);
      }
    }
  }

  lemma CallKeepsRacing(s0: State, s: State, r: nat, index: int)
    requires Valid(s0) && Valid(s) && SameShape(s0, s) && Racing(s0, s) && Enabled(s, Call(r, index))
    ensures Racing(s0, Apply(s, Call(r, index)))
  {
    var s' := Apply(s, Call(r, index));
    forall i, forHigh | Asked(s0, s', i) ensures Handled(s', i, forHigh) {
      assert Asked(s0, s, i) && Handled(s, i, forHigh);
      if Pushed(s, i, forHigh) {
        var o :| 0 <= o < |s.requestors| && Pushing(s.requestors[o], i, forHigh);
        assert s'.requestors[o] == s.requestors[o];
      }
    }
    forall q | 0 <= q < |s'.requestors| ensures RacesFor(s0, s', s'.requestors[q]) {
      assert RacesFor(s0, s, s.requestors[q]);
    }
  }

  lemma {:induction false} RunKeepsRacing(s0: State, s: State, steps: seq<Step>)
    requires Valid(s0) && Valid(s) && SameShape(s0, s) && Racing(s0, s)
    requires Allowed(s, steps) && RequestorsOnly(steps)
    ensures Racing(s0, Run(s, steps))
    decreases |steps|
  {
    if steps != [] {
      match steps[0] {
        case Call(r, index) => CallKeepsRacing(s0, s, r, index);
        case Advance(r) => AdvanceKeepsRacing(s0, s, r);
      }
      RunKeepsRacing(s0, Apply(s, steps[0]), steps[1..]);
    }
  }

  /** After any race of requestors with no reset, the low mark is the least of its old value
      and the slots asked for, the high mark the greatest, and the other side is untouched. */
  lemma RaceTakesMinAndMax(s: State, steps: seq<Step>)
    requires Valid(s) && AtRest(s) && Allowed(s, steps) && RequestorsOnly(steps) && AtRest(Run(s, steps))
    ensures var s' := Run(s, steps);
            var (p, p') := (s.table.InUse(), s'.table.InUse());
            && (p'.low == p.low || Asked(s, s', p'.low)) && p'.low <= p.low
            && (p'.high == p.high || Asked(s, s', p'.high)) && p.high <= p'.high
            && (forall i :: Asked(s, s', i) ==> Marks(p', i))
            && s'.table.Retired() == s.table.Retired()
  {
    RunKeepsRacing(s, s, steps);
    var s' := Run(s, steps);
    forall i | Asked(s, s', i) ensures Marks(s'.table.InUse(), i) {
      assert Handled(s', i, true) && Handled(s', i, false);
    }
  }

  // ----- retries are bounded

  function Total(qs: seq<Requestor>, weight: Requestor -> nat): nat {
    if qs == [] then 0 else weight(qs[0]) + Total(qs[1..], weight)
  }

  lemma {:induction false} TotalUpdate(qs: seq<Requestor>, weight: Requestor -> nat, r: nat, q: Requestor)
    requires r < |qs|
    ensures Total(qs[r := q], weight) + weight(qs[r]) == Total(qs, weight) + weight(q)
  {
    if r == 0 {
      assert qs[0 := q][1..] == qs[1..];
    } else {
      assert qs[r := q][1..] == qs[1..][r - 1 := q];
      TotalUpdate(qs[1..], weight, r - 1, q);
    }
  }

  lemma {:induction false} TotalMonotonic(qs: seq<Requestor>, f: Requestor -> nat, g: Requestor -> nat)
    requires forall k :: 0 <= k < |qs| ==> f(qs[k]) <= g(qs[k])
    ensures Total(qs, f) <= Total(qs, g)
  {
    if qs != [] {
      TotalMonotonic(qs[1..], f, g);
    }
  }

  lemma {:induction false} TotalGap(qs: seq<Requestor>, f: Requestor -> nat, g: Requestor -> nat, r: nat)
    requires r < |qs| && forall k :: 0 <= k < |qs| ==> f(qs[k]) <= g(qs[k])
    ensures Total(qs, f) + g(qs[r]) <= Total(qs, g) + f(qs[r])
  {
    if r == 0 {
      TotalMonotonic(qs[1..], f, g);
    } else {
      TotalGap(qs[1..], f, g, r - 1);
    }
  }

  /** 1 for a requestor whose next compare-and-swap is bound to fail. */
  function Stale(t: Table): Requestor -> nat {
    (q: Requestor) =>
      if (q.SwappingLow? && t.Pair(q.sideA).low != q.v) || (q.SwappingHigh? && t.Pair(q.sideA).high != q.v)
      then 1 else 0
  }

  /** How many swaps can still succeed for a requestor: one per loop it has yet to get through. */
  function SwapsLeft(t: Table): Requestor -> nat {
    (q: Requestor) =>
      match q
      case Adding(_) => 2
      case Choosing(_) => 2
      case ReadingLow(i, sideA) => if t.Pair(sideA).low > i then 2 else 1
      case SwappingLow(i, sideA, _) => if t.Pair(sideA).low > i then 2 else 1
      case ReadingHigh(i, sideA) => if t.Pair(sideA).high < i then 1 else 0
      case SwappingHigh(i, sideA, _) => if t.Pair(sideA).high < i then 1 else 0
      case _ => 0
  }

  predicate Swaps(s: State, step: Step) {
    step.Advance? && step.r < |s.requestors| &&
    (s.requestors[step.r].SwappingLow? || s.requestors[step.r].SwappingHigh?)
  }

  ghost function Failed(s: State, step: Step): nat
    requires Valid(s)
  {
    if Swaps(s, step) then Stale(s.table)(s.requestors[step.r]) else 0
  }

  ghost function Failures(s: State, steps: seq<Step>): nat
    requires Valid(s) && Allowed(s, steps)
    decreases |steps|
  {
    if steps == [] then 0
    else Failed(s, steps[0]) + Failures(Apply(s, steps[0]), steps[1..])
  }

  ghost function Succeeded(s: State, step: Step): nat
    requires Valid(s)
  {
    if Swaps(s, step) then 1 - Stale(s.table)(s.requestors[step.r]) else 0
  }

  ghost function Successes(s: State, steps: seq<Step>): nat
    requires Valid(s) && Allowed(s, steps)
    decreases |steps|
  {
    if steps == [] then 0
    else Succeeded(s, steps[0]) + Successes(Apply(s, steps[0]), steps[1..])
  }

  function Calls(steps: seq<Step>): nat {
    if steps == [] then 0 else (if steps[0].Call? then 1 else 0) + Calls(steps[1..])
  }

  lemma {:induction false} TotalAtMost(qs: seq<Requestor>, weight: Requestor -> nat)
    requires forall k :: 0 <= k < |qs| ==> weight(qs[k]) <= 1
    ensures Total(qs, weight) <= |qs|
  {
    if qs != [] {
      TotalAtMost(qs[1..], weight);
    }
  }

  lemma {:induction false} TotalBelow(qs: seq<Requestor>, weight: Requestor -> nat, r: nat)
    requires r < |qs| && weight(qs[r]) == 0
    requires forall k :: 0 <= k < |qs| ==> weight(qs[k]) <= 1
    ensures Total(qs, weight) <= |qs| - 1
  {
    if r == 0 {
      TotalAtMost(qs[1..], weight);
    } else {
      TotalBelow(qs[1..], weight, r - 1);
    }
  }

  ghost function StaleTotal(s: State): nat {
    Total(s.requestors, Stale(s.table))
  }

  ghost function SwapsLeftTotal(s: State): nat {
    Total(s.requestors, SwapsLeft(s.table))
  }

  /** How many other requestors' swaps a step can spoil. */
  ghost function Spoiled(s: State, step: Step): nat
    requires Valid(s)
  {
    if Succeeded(s, step) == 1 then |s.requestors| - 1 else 0
  }

  lemma MarksStay(s: State, step: Step)
    requires Valid(s) && Enabled(s, step) && !step.Respond? && Succeeded(s, step) == 0
    ensures var s' := Apply(s, step);
            && s'.table.a == s.table.a && s'.table.b == s.table.b
            && Stale(s.table)(s'.requestors[step.r]) + Failed(s, step) <= Stale(s.table)(s.requestors[step.r])
  {
  }

  lemma QuietStepPays(s: State, step: Step)
    requires Valid(s) && Enabled(s, step) && !step.Respond? && Succeeded(s, step) == 0
    ensures StaleTotal(Apply(s, step)) + Failed(s, step) <= StaleTotal(s)
  {
    var s', f := Apply(s, step), Stale(s.table);
    MarksStay(s, step);
    TotalMonotonic(s'.requestors, Stale(s'.table), f);
    TotalUpdate(s.requestors, f, step.r, s'.requestors[step.r]);
    assert s'.requestors == s.requestors[step.r := s'.requestors[step.r]];
  }

  /** A success can spoil the swap of every other requestor; a failure uses one spoiling up. */
  lemma FailureIsPaidFor(s: State, step: Step)
    requires Valid(s) && Enabled(s, step) && !step.Respond?
    ensures StaleTotal(Apply(s, step)) + Failed(s, step)
         <= StaleTotal(s) + Spoiled(s, step)
  {
    if Succeeded(s, step) == 1 {
      TotalBelow(Apply(s, step).requestors, Stale(Apply(s, step).table), step.r);
    } else {
      QuietStepPays(s, step);
    }
  }

  lemma SwapsLeftShrinks(s: State, step: Step, q: Requestor)
    requires Valid(s) && Enabled(s, step) && !step.Respond?
    ensures SwapsLeft(Apply(s, step).table)(q) <= SwapsLeft(s.table)(q)
  {
    MarksWiden(s, step, true);
    MarksWiden(s, step, false);
  }

  lemma OwnSwapIsUsedUp(s: State, step: Step)
    requires Valid(s) && Enabled(s, step) && !step.Respond?
    ensures var s' := Apply(s, step);
            SwapsLeft(s'.table)(s'.requestors[step.r]) + Succeeded(s, step)
              <= SwapsLeft(s.table)(s.requestors[step.r]) + if step.Call? then 2 else 0
  {
  }

  lemma SuccessIsUsedUp(s: State, step: Step)
    requires Valid(s) && Enabled(s, step) && !step.Respond?
    ensures SwapsLeftTotal(Apply(s, step)) + Succeeded(s, step)
         <= SwapsLeftTotal(s) + if step.Call? then 2 else 0
  {
    var s' := Apply(s, step);
    var f, g := SwapsLeft(s.table), SwapsLeft(s'.table);
    forall k | 0 <= k < |s.requestors| ensures g(s.requestors[k]) <= f(s.requestors[k]) {
      SwapsLeftShrinks(s, step, s.requestors[k]);
    }
    TotalGap(s.requestors, g, f, step.r);
    TotalUpdate(s.requestors, g, step.r, s'.requestors[step.r]);
    OwnSwapIsUsedUp(s, step);
    assert s'.requestors == s.requestors[step.r := s'.requestors[step.r]];
  }

  /** The failures that the successes of a run can cause. */
  ghost function Spoils(s: State, steps: seq<Step>): nat
    requires Valid(s) && Allowed(s, steps)
    decreases |steps|
  {
    if steps == [] then 0 else Spoiled(s, steps[0]) + Spoils(Apply(s, steps[0]), steps[1..])
  }

  lemma {:induction false} FailuresArePaidFor(s: State, steps: seq<Step>)
    requires Valid(s) && Allowed(s, steps) && RequestorsOnly(steps)
    ensures StaleTotal(Run(s, steps)) + Failures(s, steps) <= StaleTotal(s) + Spoils(s, steps)
    decreases |steps|
  {
    if steps != [] {
      FailureIsPaidFor(s, steps[0]);
      FailuresArePaidFor(Apply(s, steps[0]), steps[1..]);
    }
  }

  lemma {:induction false} SpoilsPerSuccess(s: State, steps: seq<Step>, n: nat)
    requires Valid(s) && Allowed(s, steps) && |s.requestors| == n + 1
    ensures Spoils(s, steps) == Times(n, Successes(s, steps))
    decreases |steps|
  {
    if steps != [] {
      SpoilsPerSuccess(Apply(s, steps[0]), steps[1..], n);
    }
  }

  lemma {:induction false} SuccessesAreUsedUp(s: State, steps: seq<Step>)
    requires Valid(s) && Allowed(s, steps) && RequestorsOnly(steps)
    ensures SwapsLeftTotal(Run(s, steps)) + Successes(s, steps) <= SwapsLeftTotal(s) + 2 * Calls(steps)
    decreases |steps|
  {
    if steps != [] {
      SuccessIsUsedUp(s, steps[0]);
      SuccessesAreUsedUp(Apply(s, steps[0]), steps[1..]);
    }
  }

  lemma {:induction false} RestWeighsNothing(qs: seq<Requestor>, weight: Requestor -> nat)
    requires weight(Resting) == 0 && forall r :: 0 <= r < |qs| ==> qs[r].Resting?
    ensures Total(qs, weight) == 0
  {
    if qs != [] {
      RestWeighsNothing(qs[1..], weight);
    }
  }

  /** From rest: at most two swaps succeed per call, and every failed swap is charged to a
      success of another requestor, each success paying for at most one failure apiece. */
  lemma {:induction false} RetriesAreBounded(s: State, steps: seq<Step>)
    requires Valid(s) && AtRest(s) && Allowed(s, steps) && RequestorsOnly(steps)
    ensures Successes(s, steps) <= 2 * Calls(steps)
    ensures |s.requestors| > 0 ==> Failures(s, steps) <= (|s.requestors| - 1) * Successes(s, steps)
  {
    RestWeighsNothing(s.requestors, Stale(s.table));
    RestWeighsNothing(s.requestors, SwapsLeft(s.table));
    FailuresArePaidFor(s, steps);
    if |s.requestors| > 0 {
      SpoilsPerSuccess(s, steps, |s.requestors| - 1);
      TimesIsProduct(|s.requestors| - 1, Successes(s, steps));
    }
    SuccessesAreUsedUp(s, steps);
  }

  // ----- requestor by requestor

  /** Whether requestor `q` has a success in its low (`forHigh`: its high) loop still to come. */
  function LoopLeft(t: Table, q: Requestor, forHigh: bool): nat {
    match q
    case Adding(_) => 1
    case Choosing(_) => 1
    case ReadingLow(i, sideA) => if forHigh || t.Pair(sideA).low > i then 1 else 0
    case SwappingLow(i, sideA, _) => if forHigh || t.Pair(sideA).low > i then 1 else 0
    case ReadingHigh(i, sideA) => if forHigh && t.Pair(sideA).high < i then 1 else 0
    case SwappingHigh(i, sideA, _) => if forHigh && t.Pair(sideA).high < i then 1 else 0
    case _ => 0
  }

  /** 1 if the step is a successful swap of requestor `r` in that loop. */
  ghost function LoopSucceeded(s: State, step: Step, r: nat, forHigh: bool): nat
    requires Valid(s)
  {
    if Swaps(s, step) && step.r == r && s.requestors[r].SwappingHigh? == forHigh then Succeeded(s, step) else 0
  }

  ghost function LoopSuccesses(s: State, steps: seq<Step>, r: nat, forHigh: bool): nat
    requires Valid(s) && Allowed(s, steps)
    decreases |steps|
  {
    if steps == [] then 0
    else LoopSucceeded(s, steps[0], r, forHigh) + LoopSuccesses(Apply(s, steps[0]), steps[1..], r, forHigh)
  }

  lemma LoopSuccessIsUsedUp(s: State, step: Step, r: nat, forHigh: bool)
    requires Valid(s) && Enabled(s, step) && !step.Respond? && r < |s.requestors|
    requires step.Call? ==> step.r != r
    ensures var s' := Apply(s, step);
            LoopLeft(s'.table, s'.requestors[r], forHigh) + LoopSucceeded(s, step, r, forHigh)
              <= LoopLeft(s.table, s.requestors[r], forHigh)
  {
    MarksWiden(s, step, true);
    MarksWiden(s, step, false);
  }

  lemma {:induction false} LoopSuccessesAreUsedUp(s: State, steps: seq<Step>, r: nat, forHigh: bool)
    requires Valid(s) && Allowed(s, steps) && RequestorsOnly(steps) && r < |s.requestors|
    requires forall k :: 0 <= k < |steps| && steps[k].Call? ==> steps[k].r != r
    ensures LoopSuccesses(s, steps, r, forHigh) <= LoopLeft(s.table, s.requestors[r], forHigh)
    decreases |steps|
  {
    if steps != [] {
      assert !steps[0].Respond? && (steps[0].Call? ==> steps[0].r != r);
      LoopSuccessIsUsedUp(s, steps[0], r, forHigh);
      LoopSuccessesAreUsedUp(Apply(s, steps[0]), steps[1..], r, forHigh);
    }
  }

  /** Within one call, whatever the others do, a requestor's swap succeeds at most once in each of
      its two loops. */
  lemma OneSuccessPerLoop(s: State, steps: seq<Step>, r: nat, forHigh: bool)
    requires Valid(s) && Allowed(s, steps) && RequestorsOnly(steps) && r < |s.requestors|
    requires forall k :: 0 <= k < |steps| && steps[k].Call? ==> steps[k].r != r
    ensures LoopSuccesses(s, steps, r, forHigh) <= 1
  {
    LoopSuccessesAreUsedUp(s, steps, r, forHigh);
  }
}
