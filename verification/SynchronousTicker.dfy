/** The synchronous ticker: a small compact table in registration order. */
module SynchronousTicker {
  import opened Tickers

  const NUM_SYNCHRONOUS_TICKEES: nat := 4

  function Keys(ts: seq<Tickee>): seq<nat> {
    seq(|ts|, i requires 0 <= i < |ts| => ts[i].fn)
  }

  /** The first entry of that function, or the length of the table. */
  function IndexOf(ts: seq<Tickee>, fn: nat): (k: nat)
    ensures k <= |ts|
    ensures k < |ts| ==> ts[k].fn == fn
    ensures forall j :: 0 <= j < k ==> ts[j].fn != fn
  {
    if ts == [] || ts[0].fn == fn then 0 else 1 + IndexOf(ts[1..], fn)
  }

  lemma IndexIs(ts: seq<Tickee>, fn: nat, k: nat)
    requires k <= |ts| && (k < |ts| ==> ts[k].fn == fn)
    requires forall j :: 0 <= j < k ==> ts[j].fn != fn
    ensures IndexOf(ts, fn) == k
  {
  }

  /** Adding, re-adding (`periodms` not 0) or removing a tickee. */
  function Changed(ts: seq<Tickee>, fn: nat, periodms: nat, deadline: nat): seq<Tickee> {
    var k := IndexOf(ts, fn);
    var entry := Tickee(fn, deadline, Micros(periodms));
    if periodms == 0 then
      if k < |ts| then ts[..k] + ts[k + 1..] else ts
    else if k < |ts| then ts[k := entry]
    else if |ts| < NUM_SYNCHRONOUS_TICKEES then ts + [entry]
    else ts
  }

  ghost predicate Distinct(ts: seq<Tickee>) {
    forall i, j :: 0 <= i < j < |ts| ==> ts[i].fn != ts[j].fn
  }

  function WithoutKey(keys: seq<nat>, fn: nat): seq<nat> {
    if keys == [] then []
    else if keys[0] == fn then WithoutKey(keys[1..], fn)
    else [keys[0]] + WithoutKey(keys[1..], fn)
  }

  lemma DistinctIndex(ts: seq<Tickee>, i: nat)
    requires Distinct(ts) && i < |ts|
    ensures IndexOf(ts, ts[i].fn) == i
  {
    IndexIs(ts, ts[i].fn, i);
  }

  lemma {:induction false} WithoutNone(keys: seq<nat>, fn: nat)
    requires fn !in keys
    ensures WithoutKey(keys, fn) == keys
  {
    if keys != [] { WithoutNone(keys[1..], fn); }
  }

  lemma {:induction false} WithoutOnly(keys: seq<nat>, fn: nat, k: nat)
    requires k < |keys| && keys[k] == fn && fn !in keys[..k] && fn !in keys[k + 1..]
    ensures WithoutKey(keys, fn) == keys[..k] + keys[k + 1..]
  {
    if k == 0 {
      WithoutNone(keys[1..], fn);
    } else {
      assert keys[..k][0] == keys[0] != fn;
      assert keys[1..][..k - 1] == keys[..k][1..];
      WithoutOnly(keys[1..], fn, k - 1);
    }
  }

  /** The functions stay distinct and at most four ... */
  lemma ChangedStaysDistinct(ts: seq<Tickee>, fn: nat, periodms: nat, deadline: nat)
    requires Distinct(ts) && |ts| <= NUM_SYNCHRONOUS_TICKEES
    ensures var us := Changed(ts, fn, periodms, deadline);
            Distinct(us) && |us| <= 4
  {
  }

  /** ... in registration order: a new one goes to the end, a known one keeps its place, a removed
      one leaves the rest in order. */
  lemma ChangedKeepsOrder(ts: seq<Tickee>, fn: nat, periodms: nat, deadline: nat)
    requires Distinct(ts)
    ensures Keys(Changed(ts, fn, periodms, deadline))
         == if periodms == 0 then WithoutKey(Keys(ts), fn)
            else if fn in Keys(ts) || |ts| >= 4 then Keys(ts)
            else Keys(ts) + [fn]
  {
    var k, us, keys := IndexOf(ts, fn), Changed(ts, fn, periodms, deadline), Keys(ts);
    assert k < |ts| ==> keys[k] == fn;
    if periodms == 0 {
      if k < |ts| {
        WithoutOnly(keys, fn, k);
        assert Keys(us) == keys[..k] + keys[k + 1..];
      } else {
        WithoutNone(keys, fn);
      }
    }
  }

  /** Only the one function is affected; it is scheduled as asked, or not at all. */
  lemma ChangedAffectsOne(ts: seq<Tickee>, fn: nat, periodms: nat, deadline: nat, other: Tickee)
    requires Distinct(ts) && |ts| <= NUM_SYNCHRONOUS_TICKEES
    ensures var us := Changed(ts, fn, periodms, deadline);
            && (other.fn != fn ==> (other in us <==> other in ts))
            && (other.fn == fn ==>
                  (other in us <==>
                     periodms != 0 && other == Tickee(fn, deadline, (1000 * periodms) % 0x1_0000_0000) &&
                     (fn in Keys(ts) || |ts| < 4)))
  {
    var k, us := IndexOf(ts, fn), Changed(ts, fn, periodms, deadline);
    assert k < |ts| ==> Keys(ts)[k] == fn;
    if other in ts {
      var i :| 0 <= i < |ts| && ts[i] == other;
      DistinctIndex(ts, i);
      if other.fn != fn {
        assert us[if periodms == 0 && k < i then i - 1 else i] == other;
      }
    }
    if other in us {
      var j :| 0 <= j < |us| && us[j] == other;
      var i := if periodms == 0 && k <= j then j + 1 else j;
      assert i < |ts| && i != k ==> ts[i] == other;
      if i < |ts| && i != k { DistinctIndex(ts, i); }
    }
    if periodms != 0 && (fn in Keys(ts) || |ts| < NUM_SYNCHRONOUS_TICKEES) {
      assert us[k] == Tickee(fn, deadline, Micros(periodms));
    }
  }

  /** One check, the clock read once per entry. */
  function Checked(ts: seq<Tickee>, readings: seq<nat>): seq<Tickee>
    requires |ts| == |readings|
  {
    seq(|ts|, i requires 0 <= i < |ts| => Tick(ts[i], readings[i], false))
  }

  lemma CheckedStaysDistinct(ts: seq<Tickee>, readings: seq<nat>)
    requires |ts| == |readings| && Distinct(ts)
    ensures Distinct(Checked(ts, readings)) && Keys(Checked(ts, readings)) == Keys(ts)
  {
  }

  /** The functions called by one check, in table order. */
  function Fired(ts: seq<Tickee>, readings: seq<nat>): seq<nat>
    requires |ts| == |readings|
  {
    if ts == [] then []
    else Fired(ts[..|ts| - 1], readings[..|ts| - 1]) +
         (if Due(ts[|ts| - 1], readings[|ts| - 1]) then [ts[|ts| - 1].fn] else [])
  }

  // ----- runs of changes and checks

  /** A change adds, re-adds or removes a tickee, the clock reading `now` and then `later`; a check comes
      with what the clock reads for each entry. */
  datatype Step =
    | Change(fn: nat, periodms: nat, roundms: nat, now: nat, later: nat)
    | Check(readings: seq<nat>)

  predicate Enabled(ts: seq<Tickee>, step: Step) {
    match step
    case Change(_, periodms, roundms, _, _) => periodms != 0 && roundms != 0 ==> Micros(roundms) != 0
    case Check(readings) => |readings| == |ts|
  }

  function StartOf(step: Step): nat
    requires step.Change? && Enabled([], step)
  {
    if step.periodms == 0 then 0 else FirstDeadline(step.periodms, step.roundms, step.now, step.later)
  }

  function Apply(ts: seq<Tickee>, step: Step): seq<Tickee>
    requires Enabled(ts, step)
  {
    match step
    case Change(fn, periodms, _, _, _) => Changed(ts, fn, periodms, StartOf(step))
    case Check(readings) => Checked(ts, readings)
  }

  ghost predicate Allowed(ts: seq<Tickee>, steps: seq<Step>)
    decreases |steps|
  {
    steps == [] || (Enabled(ts, steps[0]) && Allowed(Apply(ts, steps[0]), steps[1..]))
  }

  ghost function Run(ts: seq<Tickee>, steps: seq<Step>): seq<Tickee>
    requires Allowed(ts, steps)
    decreases |steps|
  {
    if steps == [] then ts else Run(Apply(ts, steps[0]), steps[1..])
  }

  /** The table can hold what it holds. */
  ghost predicate Fits(ts: seq<Tickee>) {
    Distinct(ts) && |ts| <= NUM_SYNCHRONOUS_TICKEES
  }

  lemma StepKeepsFits(ts: seq<Tickee>, step: Step)
    requires Fits(ts) && Enabled(ts, step)
    ensures Fits(Apply(ts, step))
  {
    match step
    case Change(fn, periodms, _, _, _) => ChangedStaysDistinct(ts, fn, periodms, StartOf(step));
    case Check(readings) => CheckedStaysDistinct(ts, readings);
  }

  /** An insertion-ordered set of at most four keys, under one step. */
  function KeysAfter(keys: seq<nat>, step: Step): seq<nat> {
    if step.Check? then keys
    else if step.periodms == 0 then WithoutKey(keys, step.fn)
    else if step.fn in keys || |keys| >= 4 then keys
    else keys + [step.fn]
  }

  function KeysRun(keys: seq<nat>, steps: seq<Step>): seq<nat>
    decreases |steps|
  {
    if steps == [] then keys else KeysRun(KeysAfter(keys, steps[0]), steps[1..])
  }

  lemma StepKeepsOrder(ts: seq<Tickee>, step: Step)
    requires Fits(ts) && Enabled(ts, step)
    ensures Keys(Apply(ts, step)) == KeysAfter(Keys(ts), step)
  {
    match step
    case Change(fn, periodms, _, _, _) => ChangedKeepsOrder(ts, fn, periodms, StartOf(step));
    case Check(readings) => CheckedStaysDistinct(ts, readings);
  }

  /** Over any run of adds, re-adds, removals and checks the functions stay distinct and at most four,
      in registration order. */
  lemma {:induction false} RunKeepsOrder(ts: seq<Tickee>, steps: seq<Step>)
    requires Fits(ts) && Allowed(ts, steps)
    ensures Fits(Run(ts, steps))
    ensures Keys(Run(ts, steps)) == KeysRun(Keys(ts), steps)
    decreases |steps|
  {
    if steps != [] {
      StepKeepsFits(ts, steps[0]);
      StepKeepsOrder(ts, steps[0]);
      RunKeepsOrder(Apply(ts, steps[0]), steps[1..]);
    }
  }

  /** The step is a change of the function that the table accepts: any but adding a fifth. */
  predicate Accepts(ts: seq<Tickee>, step: Step, fn: nat) {
    step.Change? && step.fn == fn &&
    (step.periodms == 0 || fn in Keys(ts) || |ts| < 4)
  }

  predicate IsAdd(step: Step) {
    step.Change? && step.periodms != 0
  }

  /** Step `k` of the run is an accepted change of the function. */
  ghost predicate AcceptedAt(ts: seq<Tickee>, steps: seq<Step>, k: nat, fn: nat)
    requires Allowed(ts, steps)
    decreases |steps|
  {
    k < |steps| &&
    if k == 0 then Accepts(ts, steps[0], fn) else AcceptedAt(Apply(ts, steps[0]), steps[1..], k - 1, fn)
  }

  /** ... and the last one. */
  ghost predicate LastAcceptedAt(ts: seq<Tickee>, steps: seq<Step>, k: nat, fn: nat)
    requires Allowed(ts, steps)
  {
    AcceptedAt(ts, steps, k, fn) && forall j: nat :: k < j < |steps| ==> !AcceptedAt(ts, steps, j, fn)
  }

  ghost predicate NeverAccepted(ts: seq<Tickee>, steps: seq<Step>, fn: nat)
    requires Allowed(ts, steps)
  {
    forall k: nat :: k < |steps| ==> !AcceptedAt(ts, steps, k, fn)
  }

  lemma {:induction false} WithoutKeeps(keys: seq<nat>, fn: nat, other: nat)
    ensures other in WithoutKey(keys, fn) <==> other in keys && other != fn
  {
    if keys != [] {
      assert other in keys <==> other == keys[0] || other in keys[1..];
      WithoutKeeps(keys[1..], fn, other);
    }
  }

  lemma StepRegisters(ts: seq<Tickee>, step: Step, fn: nat)
    requires Fits(ts) && Enabled(ts, step)
    ensures fn in Keys(Apply(ts, step)) <==>
              if Accepts(ts, step, fn) then step.periodms != 0 else fn in Keys(ts)
  {
    StepKeepsOrder(ts, step);
    if step.Change? && step.periodms == 0 {
      WithoutKeeps(Keys(ts), step.fn, fn);
    }
  }

  /** What a run's first step adds to the question which accepted change came last. */
  lemma FirstThenRest(ts: seq<Tickee>, steps: seq<Step>, fn: nat)
    requires steps != [] && Allowed(ts, steps)
    ensures var ts', rest := Apply(ts, steps[0]), steps[1..];
            && (NeverAccepted(ts, steps, fn) <==> !Accepts(ts, steps[0], fn) && NeverAccepted(ts', rest, fn))
            && (LastAcceptedAt(ts, steps, 0, fn) <==> Accepts(ts, steps[0], fn) && NeverAccepted(ts', rest, fn))
            && (forall k: nat :: LastAcceptedAt(ts, steps, k + 1, fn) <==> LastAcceptedAt(ts', rest, k, fn))
  {
    var ts', rest := Apply(ts, steps[0]), steps[1..];
    assert AcceptedAt(ts, steps, 0, fn) == Accepts(ts, steps[0], fn);
    assert forall k: nat :: AcceptedAt(ts, steps, k + 1, fn) == AcceptedAt(ts', rest, k, fn);
    assert forall k: nat :: k > 0 ==> AcceptedAt(ts, steps, k, fn) == AcceptedAt(ts', rest, k - 1, fn);
  }

  lemma ShiftedWitness(ts: seq<Tickee>, steps: seq<Step>, fn: nat)
    requires steps != [] && Allowed(ts, steps)
    ensures var ts', rest := Apply(ts, steps[0]), steps[1..];
            (exists k: nat :: LastAcceptedAt(ts, steps, k, fn) && IsAdd(steps[k])) <==>
            (LastAcceptedAt(ts, steps, 0, fn) && IsAdd(steps[0])) ||
            (exists k: nat :: LastAcceptedAt(ts', rest, k, fn) && IsAdd(rest[k]))
  {
    var ts', rest := Apply(ts, steps[0]), steps[1..];
    FirstThenRest(ts, steps, fn);
    if k: nat :| LastAcceptedAt(ts', rest, k, fn) && IsAdd(rest[k]) {
      assert LastAcceptedAt(ts, steps, k + 1, fn) && IsAdd(steps[k + 1]);
    }
    if k: nat :| LastAcceptedAt(ts, steps, k, fn) && IsAdd(steps[k]) {
      if k > 0 {
        assert LastAcceptedAt(ts', rest, k - 1, fn) && IsAdd(rest[k - 1]);
      }
    }
  }

  /** A function is registered after a run exactly when the last change of it that was accepted was an
      add; if there was none, when it was registered before. */
  lemma {:induction false} LastChangeDecides(ts: seq<Tickee>, steps: seq<Step>, fn: nat)
    requires Fits(ts) && Allowed(ts, steps)
    ensures fn in Keys(Run(ts, steps)) <==>
              (exists k: nat :: LastAcceptedAt(ts, steps, k, fn) && IsAdd(steps[k])) ||
              (NeverAccepted(ts, steps, fn) && fn in Keys(ts))
    decreases |steps|
  {
    if steps != [] {
      var ts', rest := Apply(ts, steps[0]), steps[1..];
      StepKeepsFits(ts, steps[0]);
      StepRegisters(ts, steps[0], fn);
      LastChangeDecides(ts', rest, fn);
      FirstThenRest(ts, steps, fn);
      ShiftedWitness(ts, steps, fn);
    }
  }

  // ----- one entry over a run

  lemma IndexInKeys(ts: seq<Tickee>, fn: nat)
    ensures IndexOf(ts, fn) < |ts| <==> fn in Keys(ts)
  {
    if fn in Keys(ts) {
      var k :| 0 <= k < |ts| && Keys(ts)[k] == fn;
      assert ts[k].fn == fn;
    }
    assert IndexOf(ts, fn) < |ts| ==> Keys(ts)[IndexOf(ts, fn)] == fn;
  }

  /** The entry of a registered function. */
  function Entry(ts: seq<Tickee>, fn: nat): Tickee
    requires fn in Keys(ts)
  {
    IndexInKeys(ts, fn);
    ts[IndexOf(ts, fn)]
  }

  /** No step changes the registration of the function. */
  predicate LeavesAlone(steps: seq<Step>, fn: nat) {
    forall k :: 0 <= k < |steps| && steps[k].Change? ==> steps[k].fn != fn
  }

  /** What the clock reads for the function's entry, check by check. */
  ghost function ClocksOf(ts: seq<Tickee>, steps: seq<Step>, fn: nat): seq<nat>
    requires Allowed(ts, steps)
    decreases |steps|
  {
    if steps == [] then []
    else (if steps[0].Check? && IndexOf(ts, fn) < |ts| then [steps[0].readings[IndexOf(ts, fn)]] else [])
         + ClocksOf(Apply(ts, steps[0]), steps[1..], fn)
  }

  /** How often a run calls the function. */
  ghost function TimesFired(ts: seq<Tickee>, steps: seq<Step>, fn: nat): nat
    requires Allowed(ts, steps)
    decreases |steps|
  {
    if steps == [] then 0
    else (if steps[0].Check? then multiset(Fired(ts, steps[0].readings))[fn] else 0)
         + TimesFired(Apply(ts, steps[0]), steps[1..], fn)
  }

  /** One check calls the function once if it is registered and due, else not at all. */
  lemma {:induction false} FiredOnceIfDue(ts: seq<Tickee>, readings: seq<nat>, fn: nat)
    requires |ts| == |readings| && Distinct(ts)
    ensures var k := IndexOf(ts, fn);
            multiset(Fired(ts, readings))[fn] == if k < |ts| && readings[k] >= ts[k].deadline then 1 else 0
    decreases |ts|
  {
    if ts != [] {
      var n := |ts| - 1;
      var front := ts[..n];
      FiredOnceIfDue(front, readings[..n], fn);
      var k, before := IndexOf(ts, fn), Fired(front, readings[..n]);
      if k < n {
        IndexIs(front, fn, k);
        assert ts[n].fn != fn;
      } else {
        IndexIs(front, fn, n);
      }
      var called: seq<nat> := if readings[n] >= ts[n].deadline then [ts[n].fn] else [];
      assert Fired(ts, readings) == before + called;
    }
  }

  lemma CheckMovesEntry(ts: seq<Tickee>, readings: seq<nat>, fn: nat)
    requires Fits(ts) && |readings| == |ts| && fn in Keys(ts)
    ensures var k := IndexOf(ts, fn);
            && k < |ts| && fn in Keys(Checked(ts, readings))
            && Entry(Checked(ts, readings), fn) == Tick(Entry(ts, fn), readings[k], false)
            && Entry(Checked(ts, readings), fn) ==
                 (var t := Entry(ts, fn);
                  if readings[k] >= t.deadline then t.(deadline := t.deadline + t.period) else t)
  {
    IndexInKeys(ts, fn);
    CheckedStaysDistinct(ts, readings);
    IndexIs(Checked(ts, readings), fn, IndexOf(ts, fn));
  }

  lemma ChangeLeavesEntry(ts: seq<Tickee>, step: Step, fn: nat)
    requires Fits(ts) && step.Change? && Enabled(ts, step) && step.fn != fn && fn in Keys(ts)
    ensures fn in Keys(Apply(ts, step)) && Entry(Apply(ts, step), fn) == Entry(ts, fn)
  {
    var us, e := Apply(ts, step), Entry(ts, fn);
    IndexInKeys(ts, fn);
    ChangedAffectsOne(ts, step.fn, step.periodms, StartOf(step), e);
    var j :| 0 <= j < |us| && us[j] == e;
    assert Keys(us)[j] == fn;
    StepKeepsFits(ts, step);
    DistinctIndex(us, j);
  }

  /** An entry of the table, over any run that leaves it alone, behaves as that tickee by itself over
      its clock readings, whatever else is registered or removed meanwhile. */
  lemma {:induction false} RunFollowsTickee(ts: seq<Tickee>, steps: seq<Step>, fn: nat)
    requires Fits(ts) && Allowed(ts, steps) && LeavesAlone(steps, fn) && fn in Keys(ts)
    ensures fn in Keys(Run(ts, steps))
    ensures Entry(Run(ts, steps), fn) == Ticks(Entry(ts, fn), ClocksOf(ts, steps, fn), false)
    ensures TimesFired(ts, steps, fn) == |Firings(Entry(ts, fn), ClocksOf(ts, steps, fn), false)|
    decreases |steps|
  {
    if steps != [] {
      var ts', rest, t := Apply(ts, steps[0]), steps[1..], Entry(ts, fn);
      StepKeepsFits(ts, steps[0]);
      match steps[0] {
        case Check(readings) =>
          CheckMovesEntry(ts, readings, fn);
          FiredOnceIfDue(ts, readings, fn);
          OneMoreReading(t, readings[IndexOf(ts, fn)], ClocksOf(ts', rest, fn), false);
        case Change(_, _, _, _, _) =>
          ChangeLeavesEntry(ts, steps[0], fn);
          assert ClocksOf(ts, steps, fn) == ClocksOf(ts', rest, fn);
      }
      RunFollowsTickee(ts', rest, fn);
    }
  }

  /** A tickee is called in time: over a run that leaves it alone, exactly if the clock some time reads its
      deadline or later. */
  lemma TableFiresExactlyWhen(ts: seq<Tickee>, steps: seq<Step>, fn: nat)
    requires Fits(ts) && Allowed(ts, steps) && LeavesAlone(steps, fn) && fn in Keys(ts)
    ensures TimesFired(ts, steps, fn) == 0 <==> AllBefore(ClocksOf(ts, steps, fn), Entry(ts, fn).deadline)
  {
    RunFollowsTickee(ts, steps, fn);
    FiresExactlyWhen(Entry(ts, fn), ClocksOf(ts, steps, fn), false);
  }

  /** After its first call it is called again exactly if the clock later reads its next period's start or
      more. */
  lemma TableFiresAgainExactlyWhen(ts: seq<Tickee>, steps: seq<Step>, fn: nat, k: nat)
    requires Fits(ts) && Allowed(ts, steps) && LeavesAlone(steps, fn) && fn in Keys(ts)
    requires FirstAtOrAfter(ClocksOf(ts, steps, fn), Entry(ts, fn).deadline, k)
    ensures var t := Entry(ts, fn);
            TimesFired(ts, steps, fn) >= 1 &&
            (TimesFired(ts, steps, fn) == 1 <==> AllBefore(ClocksOf(ts, steps, fn)[k + 1..], t.deadline + t.period))
  {
    RunFollowsTickee(ts, steps, fn);
    SecondFiring(Entry(ts, fn), ClocksOf(ts, steps, fn), false, k);
  }

  /** It makes up for lost time: checked often enough at a clock `c` no earlier than its deadline D, it is
      called exactly floor((c - D) / P) + 1 times. */
  lemma TableCatchesUp(ts: seq<Tickee>, steps: seq<Step>, fn: nat, c: nat, n: nat)
    requires Fits(ts) && Allowed(ts, steps) && LeavesAlone(steps, fn) && fn in Keys(ts)
    requires ClocksOf(ts, steps, fn) == Repeated(c, n)
    requires var t := Entry(ts, fn); t.period > 0 && c >= t.deadline && n > (c - t.deadline) / t.period
    ensures var t := Entry(ts, fn); TimesFired(ts, steps, fn) == (c - t.deadline) / t.period + 1
  {
    RunFollowsTickee(ts, steps, fn);
    CatchesUp(Entry(ts, fn), c, n);
  }

  /** What an accepted add enters: 1000 microseconds per millisecond, modulo 2^32, from the clock reading
      on; or, if it is to be rounded, as much of that as is a multiple of the unit, unless the clock has
      passed that meanwhile. */
  lemma AddedEntry(ts: seq<Tickee>, step: Step)
    requires Fits(ts) && step.Change? && Enabled(ts, step) && step.periodms != 0 && Accepts(ts, step, step.fn)
    ensures var us, period, unit :=
              Apply(ts, step), (1000 * step.periodms) % 0x1_0000_0000, (1000 * step.roundms) % 0x1_0000_0000;
            && step.fn in Keys(us) && Entry(us, step.fn).period == period
            && (step.roundms == 0 ==> Entry(us, step.fn).deadline == step.now + period)
            && (step.roundms != 0 && unit != 0 ==>
                  var last := step.now + period - (step.now + period) % unit;
                  Entry(us, step.fn).deadline == if step.later <= last then last else last + period)
  {
    var us, e := Apply(ts, step), Tickee(step.fn, StartOf(step), Micros(step.periodms));
    ChangedAffectsOne(ts, step.fn, step.periodms, StartOf(step), e);
    assert e in us;
    var j :| 0 <= j < |us| && us[j] == e;
    assert Keys(us)[j] == step.fn;
    StepKeepsFits(ts, step);
    DistinctIndex(us, j);
  }

  /** From an accepted unrounded add at clock `now` on, the first call comes with the first reading at or
      after `now` plus 1000 microseconds per millisecond of the period, and not before. */
  lemma UnroundedFiresOnTime(ts: seq<Tickee>, add: Step, steps: seq<Step>)
    requires Fits(ts) && add.Change? && Enabled(ts, add) && add.periodms != 0 && add.roundms == 0
    requires Accepts(ts, add, add.fn) && Allowed(Apply(ts, add), steps) && LeavesAlone(steps, add.fn)
    ensures TimesFired(Apply(ts, add), steps, add.fn) == 0 <==>
            AllBefore(ClocksOf(Apply(ts, add), steps, add.fn), add.now + (1000 * add.periodms) % 0x1_0000_0000)
  {
    AddedEntry(ts, add);
    StepKeepsFits(ts, add);
    TableFiresExactlyWhen(Apply(ts, add), steps, add.fn);
  }

  ghost predicate InTableOrder(ts: seq<Tickee>, fired: seq<nat>) {
    forall a, b, i, j | 0 <= a < b < |fired| && 0 <= i < |ts| && 0 <= j < |ts| ::
      ts[i].fn == fired[a] && ts[j].fn == fired[b] ==> i < j
  }

  lemma FiredStands(ts: seq<Tickee>, readings: seq<nat>, fn: nat)
    requires |ts| == |readings| && Distinct(ts) && fn in Fired(ts, readings)
    ensures exists i :: 0 <= i < |ts| && ts[i].fn == fn
  {
    FiredOnceIfDue(ts, readings, fn);
    assert multiset(Fired(ts, readings))[fn] > 0;
  }

  /** Of two functions called by a check the one called earlier stands earlier in the table. */
  lemma {:induction false} FiredInTableOrder(ts: seq<Tickee>, readings: seq<nat>)
    requires |ts| == |readings| && Distinct(ts)
    ensures InTableOrder(ts, Fired(ts, readings))
    decreases |ts|
  {
    if ts != [] {
      var n := |ts| - 1;
      var front, last := ts[..n], ts[n];
      var before, fired := Fired(front, readings[..n]), Fired(ts, readings);
      FiredInTableOrder(front, readings[..n]);
      forall a, i | 0 <= a < |before| && 0 <= i < |ts| && ts[i].fn == before[a] ensures i < n {
        FiredStands(front, readings[..n], before[a]);
      }
      assert before <= fired && (|fired| > |before| ==> fired == before + [last.fn]);
    }
  }

  /** So there is no drift in the table: the k-th call comes at or after its scheduled time, and the
      deadline has moved by exactly one period per call ... */
  lemma TableHasNoDrift(ts: seq<Tickee>, steps: seq<Step>, fn: nat)
    requires Fits(ts) && Allowed(ts, steps) && LeavesAlone(steps, fn) && fn in Keys(ts)
    ensures var t, fired := Entry(ts, fn), Firings(Entry(ts, fn), ClocksOf(ts, steps, fn), false);
            && TimesFired(ts, steps, fn) == |fired|
            && (forall k :: 0 <= k < |fired| ==> t.deadline + k * t.period <= fired[k])
            && fn in Keys(Run(ts, steps)) && Entry(Run(ts, steps), fn).period == t.period
            && Entry(Run(ts, steps), fn).deadline == t.deadline + |fired| * t.period
  {
    RunFollowsTickee(ts, steps, fn);
    SynchronousIsPunctual(Entry(ts, fn), ClocksOf(ts, steps, fn));
    NoDrift(Entry(ts, fn), ClocksOf(ts, steps, fn), false);
  }

  /** ... at most floor((b - D) / P) + 1 calls by time `b`, none before D ... */
  lemma TableRate(ts: seq<Tickee>, steps: seq<Step>, fn: nat, b: nat)
    requires Fits(ts) && Allowed(ts, steps) && LeavesAlone(steps, fn) && fn in Keys(ts)
    requires Entry(ts, fn).period > 0 && Within(ClocksOf(ts, steps, fn), 0, b)
    ensures var t, n := Entry(ts, fn), TimesFired(ts, steps, fn);
            if b < t.deadline then n == 0 else n <= (b - t.deadline) / t.period + 1
  {
    RunFollowsTickee(ts, steps, fn);
    PunctualRate(Entry(ts, fn), ClocksOf(ts, steps, fn), false, b);
  }

  /** ... and an aligned deadline stays aligned if the period is a multiple of the unit. */
  lemma TableStaysAligned(ts: seq<Tickee>, steps: seq<Step>, fn: nat, unit: nat)
    requires Fits(ts) && Allowed(ts, steps) && LeavesAlone(steps, fn) && fn in Keys(ts)
    requires unit > 0 && Entry(ts, fn).deadline % unit == 0 && Entry(ts, fn).period % unit == 0
    ensures fn in Keys(Run(ts, steps)) && Entry(Run(ts, steps), fn).deadline % unit == 0
  {
    RunFollowsTickee(ts, steps, fn);
    StaysAligned(Entry(ts, fn), ClocksOf(ts, steps, fn), unit);
  }

  /** What the class keeps: distinct functions, none of them null. */
  ghost predicate Sound(ts: seq<Tickee>) {
    Distinct(ts) && forall i :: 0 <= i < |ts| ==> ts[i].fn != 0
  }

  lemma ChangedStaysSound(ts: seq<Tickee>, fn: nat, periodms: nat, deadline: nat)
    requires Sound(ts) && |ts| <= NUM_SYNCHRONOUS_TICKEES && fn != 0
    ensures Sound(Changed(ts, fn, periodms, deadline))
  {
    ChangedStaysDistinct(ts, fn, periodms, deadline);
  }

  class Table {
    var synch: array<Tickee>
    var numSyncTickees: nat

    ghost predicate Valid()
      reads this, synch
    {
      synch.Length == NUM_SYNCHRONOUS_TICKEES && numSyncTickees <= synch.Length && Sound(Contents())
    }

    function Contents(): seq<Tickee>
      requires numSyncTickees <= synch.Length
      reads this, synch
    {
      synch[..numSyncTickees]
    }

    constructor ()
      ensures Valid() && fresh(synch) && Contents() == []
    {
      synch := new Tickee[NUM_SYNCHRONOUS_TICKEES](_ => Tickee(0, 0, 0));
      numSyncTickees := 0;
    }

    /** The clock reads `now` and, when it is read again, `later`. Answers false for the error
        that there is no slot left. */
    method AddSynchronousTickee(fn: nat, periodms: nat, roundms: nat, now: nat, later: nat) returns (ok: bool)
      requires Valid() && fn != 0 && (periodms != 0 && roundms != 0 ==> Micros(roundms) != 0)
      modifies this`numSyncTickees, synch
      ensures Valid() && synch == old(synch)
      ensures Contents() == Changed(old(Contents()), fn, periodms,
                                    if periodms == 0 then 0 else FirstDeadline(periodms, roundms, now, later))
      ensures ok <==> periodms == 0 || fn in Keys(old(Contents())) || old(numSyncTickees) < 4
    {
      if periodms == 0 {
        Remove(fn);
        return true;
      }
      ok := false;
      ghost var ts := Contents();
      var i := 0;
      while i < NUM_SYNCHRONOUS_TICKEES
        invariant 0 <= i <= numSyncTickees
        invariant forall j :: 0 <= j < i ==> ts[j].fn != fn
        invariant Contents() == ts && Valid()
      {
        if i >= numSyncTickees || synch[i].fn == 0 || synch[i].fn == fn {
          IndexIs(ts, fn, i);
          IndexInKeys(ts, fn);
          Register(i, Tickee(fn, FirstDeadline(periodms, roundms, now, later), Micros(periodms)));
          ChangedStaysSound(ts, fn, periodms, FirstDeadline(periodms, roundms, now, later));
          return true;
        }
        i := i + 1;
      }
      IndexIs(ts, fn, |ts|);
      IndexInKeys(ts, fn);
    }

    /** Takes slot `i`, a used one or the first one free. */
    method Register(i: nat, entry: Tickee)
      requires i <= numSyncTickees <= synch.Length && i < synch.Length
      modifies this`numSyncTickees, synch
      ensures numSyncTickees == if i < old(numSyncTickees) then old(numSyncTickees) else old(numSyncTickees) + 1
      ensures numSyncTickees <= synch.Length
      ensures Contents() == if i < old(numSyncTickees) then old(Contents())[i := entry] else old(Contents()) + [entry]
    {
      synch[i] := entry;
      if i >= numSyncTickees {
        numSyncTickees := numSyncTickees + 1;
      }
    }

    method Remove(fn: nat)
      requires Valid() && fn != 0
      modifies this`numSyncTickees, synch
      ensures Valid() && Contents() == Changed(old(Contents()), fn, 0, 0)
    {
      ghost var ts := Contents();
      var i := 0;
      while i < numSyncTickees
        invariant 0 <= i <= numSyncTickees
        invariant forall j :: 0 <= j < i ==> ts[j].fn != fn
        invariant Contents() == ts && Valid()
      {
        if synch[i].fn == fn {
          IndexIs(ts, fn, i);
          MoveDown(i);
          ChangedStaysSound(ts, fn, 0, 0);
          return;
        }
        i := i + 1;
      }
      IndexIs(ts, fn, |ts|);
    }

    /** The `memmove` that closes the gap left by entry `i`. */
    method MoveDown(i: nat)
      requires i < numSyncTickees <= synch.Length
      modifies this`numSyncTickees, synch
      ensures numSyncTickees == old(numSyncTickees) - 1
      ensures Contents() == old(Contents())[..i] + old(Contents())[i + 1..]
    {
      numSyncTickees := numSyncTickees - 1;
      var j := i;
      while j < numSyncTickees
        invariant i <= j <= numSyncTickees
        invariant forall k :: 0 <= k < synch.Length ==>
                    synch[k] == old(synch[..])[if i <= k < j then k + 1 else k]
        modifies synch
      {
        synch[j] := synch[j + 1];
        j := j + 1;
      }
    }

    method CheckForEvents(readings: seq<nat>) returns (fired: seq<nat>)
      requires Valid() && |readings| == numSyncTickees
      modifies synch
      ensures Valid() && numSyncTickees == old(numSyncTickees)
      ensures Contents() == Checked(old(Contents()), readings)
      ensures fired == Fired(old(Contents()), readings)
    {
      ghost var ts := Contents();
      fired := [];
      var i := 0;
      while i < numSyncTickees
        invariant 0 <= i <= numSyncTickees
        invariant forall j :: 0 <= j < |ts| ==> synch[j] == if j < i then Tick(ts[j], readings[j], false) else ts[j]
        modifies synch
        invariant fired == Fired(ts[..i], readings[..i])
      {
        if synch[i].fn != 0 && readings[i] >= synch[i].deadline {
          synch[i] := synch[i].(deadline := synch[i].deadline + synch[i].period);
          fired := fired + [synch[i].fn];
        }
        assert ts[..i + 1][..i] == ts[..i] && readings[..i + 1][..i] == readings[..i];
        i := i + 1;
      }
      assert ts[..i] == ts && readings[..i] == readings;
      CheckedStaysDistinct(ts, readings);
      assert Contents() == Checked(ts, readings);
    }
  }
}
