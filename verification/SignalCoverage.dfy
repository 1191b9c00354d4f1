/** No signal is lost. */
module SignalCoverage {
  import opened SignalTable
  import opened SignalProtocol

  /** Slot `i` lies in the part of the retired range the responder has still to scan. */
  predicate InDrain(s: State, i: int) {
    var p := s.table.Retired();
    match s.vm
    case FetchingLow => Marks(p, i)
    case FetchingHigh(low) => low <= i <= p.high
    case Scanning(j, high) => j <= i <= high
    case Signalling(j, high) => j <= i <= high
    case Bumping(j, high) => j <= i <= high
    case _ => false
  }

  /** Requestor `r` has asked for slot `i` and is going to mark it on the side now in use. */
  predicate Owns(s: State, r: nat, i: int) {
    r < |s.requestors| &&
    match s.requestors[r]
    case Choosing(j) => j == i
    case ReadingLow(j, sideA) => j == i && sideA == s.table.useTideA
    case SwappingLow(j, sideA, _) => j == i && sideA == s.table.useTideA
    case ReadingHigh(j, sideA) => j == i && sideA == s.table.useTideA && s.table.InUse().low <= i
    case SwappingHigh(j, sideA, _) => j == i && sideA == s.table.useTideA && s.table.InUse().low <= i
    case _ => false
  }

  ghost predicate Owned(s: State, i: int) {
    exists r: nat :: Owns(s, r, i)
  }

  /** Requestor `r` was overtaken by a toggle, but can still push the retired marks out to slot
      `i` before the responder reads them. */
  predicate Chases(s: State, r: nat, i: int) {
    r < |s.requestors| &&
    var q := s.requestors[r];
    q.InWindow() && q.sideA != s.table.useTideA && q.i == i &&
    match s.vm
    case FetchingLow => q.ReadingLow? || q.SwappingLow? || s.table.Retired().low <= i
    case FetchingHigh(low) => low <= i
    case _ => false
  }

  ghost predicate Chased(s: State, i: int) {
    exists r: nat :: Chases(s, r, i)
  }

  /** Requestor `q` has counted its request for slot `i` and not yet stored the flag. */
  predicate OnItsWay(q: Requestor, i: int) {
    !q.Resting? && !q.Adding? && q.i == i
  }

  ghost predicate Underway(s: State, i: int) {
    exists r :: 0 <= r < |s.requestors| && OnItsWay(s.requestors[r], i)
  }

  /** Slot `i` is marked for the next response to toggle: the flag is up, was up when a response
      started that has yet to toggle, or is going to be raised for that very slot. */
  ghost predicate Marked(s: State, i: int) {
    Marks(s.table.InUse(), i) && (s.table.flag || s.vm.BeforeToggle() || Underway(s, i))
  }

  /** The places a pending request can be. */
  ghost predicate Covered(s: State, i: int) {
    Marked(s, i) || InDrain(s, i) || Owned(s, i) || Chased(s, i)
  }

  /** The request for slot `i`, if one is pending, is not lost. */
  ghost predicate Kept(s: State, i: int)
    requires Valid(s)
  {
    s.table.Pending(i) ==> Covered(s, i)
  }

  /** No request below the limit is lost. */
  ghost predicate NoneLost(s: State)
    requires Valid(s)
  {
    forall i :: 0 <= i < s.limit ==> Kept(s, i)
  }

  /** Requestor `q` is caught: the responder is about to read a retired mark that `q` has not
      pushed out to its pending slot yet. */
  predicate Caught(s: State, q: Requestor)
    requires |s.table.requests| == |s.table.responses|
  {
    && q.InWindow() && q.sideA != s.table.useTideA && q.i < s.limit && s.table.Pending(q.i)
    && (s.vm.FetchingLow? ==> q.i < s.table.Retired().low)
    && (s.vm.FetchingHigh? ==> s.table.Retired().high < q.i)
  }

  /** Slot `i` is marked for the next response, or about to be. */
  ghost predicate DueNext(s: State, i: int) {
    Marks(s.table.InUse(), i) || Owned(s, i)
  }

  /** Some requestor for slot `i` is caught. */
  ghost predicate CaughtAt(s: State, i: int)
    requires Valid(s)
  {
    exists r :: 0 <= r < |s.requestors| && Caught(s, s.requestors[r]) && s.requestors[r].i == i
  }

  /** The assumption on timing, slot by slot: a read of a retired mark that catches a requestor finds
      its slot due for the next response anyhow. */
  ghost predicate TimelyFor(s: State, step: Step, i: int)
    requires Valid(s)
  {
    step.Respond? && s.vm.Fetching() && CaughtAt(s, i) ==> DueNext(s, i)
  }

  ghost predicate Timely(s: State, step: Step)
    requires Valid(s)
  {
    forall i :: 0 <= i < s.limit ==> TimelyFor(s, step, i)
  }

  // ----- one step

  lemma CallKeepsCovered(s: State, r: nat, index: int, i: int)
    requires Valid(s) && Enabled(s, Call(r, index)) && Covered(s, i)
    ensures Covered(Apply(s, Call(r, index)), i)
  {
    var s' := Apply(s, Call(r, index));
    if Owned(s, i) {
      var o: nat :| Owns(s, o, i);
      assert Owns(s', o, i);
    }
    if Chased(s, i) {
      var o: nat :| Chases(s, o, i);
      assert Chases(s', o, i);
    }
    if Underway(s, i) {
      var o :| 0 <= o < |s.requestors| && OnItsWay(s.requestors[o], i);
      assert OnItsWay(s'.requestors[o], i);
    }
  }

  /** Marks never shrink while a requestor moves. */
  lemma AdvanceWidensMarks(s: State, r: nat, sideA: bool)
    requires Valid(s) && Enabled(s, Advance(r))
    ensures var p, p' := s.table.Pair(sideA), Apply(s, Advance(r)).table.Pair(sideA);
            p'.low <= p.low && p.high <= p'.high
    ensures Apply(s, Advance(r)).table.useTideA == s.table.useTideA
    ensures s.table.flag ==> Apply(s, Advance(r)).table.flag
  {
  }

  /** Whoever is on its way stays so until it has raised the flag. */
  lemma UnderwayUntilFlag(s: State, r: nat, i: int)
    requires Valid(s) && Enabled(s, Advance(r)) && Underway(s, i)
    ensures var s' := Apply(s, Advance(r)); s'.table.flag || Underway(s', i)
  {
    var s' := Apply(s, Advance(r));
    var o :| 0 <= o < |s.requestors| && OnItsWay(s.requestors[o], i);
    assert s'.table.flag || OnItsWay(s'.requestors[o], i);
  }

  /** An owner stays one until its slot is marked. */
  lemma OwnerAdvances(s: State, o: nat, i: int)
    requires Valid(s) && Owns(s, o, i)
    ensures var s' := Apply(s, Advance(o));
            Owns(s', o, i) || (Marks(s'.table.InUse(), i) && OnItsWay(s'.requestors[o], i))
  {
  }

  lemma ChaserAdvances(s: State, o: nat, i: int)
    requires Valid(s) && Chases(s, o, i)
    ensures var s' := Apply(s, Advance(o)); Chases(s', o, i) || InDrain(s', i)
  {
  }

  lemma AdvanceKeepsOtherOwners(s: State, r: nat, o: nat, i: int)
    requires Valid(s) && Enabled(s, Advance(r)) && r != o
    ensures Owns(s, o, i) ==> Owns(Apply(s, Advance(r)), o, i)
    ensures Chases(s, o, i) ==> Chases(Apply(s, Advance(r)), o, i)
  {
    AdvanceWidensMarks(s, r, true);
    AdvanceWidensMarks(s, r, false);
    assert o < |s.requestors| ==> Apply(s, Advance(r)).requestors[o] == s.requestors[o];
  }

  lemma AdvanceKeepsCovered(s: State, r: nat, i: int)
    requires Valid(s) && Enabled(s, Advance(r)) && Covered(s, i)
    ensures Covered(Apply(s, Advance(r)), i)
  {
    AdvanceWidensMarks(s, r, true);
    AdvanceWidensMarks(s, r, false);
    if Underway(s, i) { UnderwayUntilFlag(s, r, i); }
    if Owned(s, i) {
      var o: nat :| Owns(s, o, i);
      if o == r { OwnerAdvances(s, o, i); } else { AdvanceKeepsOtherOwners(s, r, o, i); }
    } else if Chased(s, i) {
      var o: nat :| Chases(s, o, i);
      if o == r { ChaserAdvances(s, o, i); } else { AdvanceKeepsOtherOwners(s, r, o, i); }
    }
  }

  lemma AddingIsOwned(s: State, r: nat, i: int)
    requires Valid(s) && Enabled(s, Advance(r))
    requires !s.table.Pending(i) && Apply(s, Advance(r)).table.Pending(i)
    ensures Owns(Apply(s, Advance(r)), r, i)
  {
  }

  lemma RespondKeepsCovered(s: State, i: int)
    requires Valid(s) && s.table.Pending(i) && Covered(s, i) && i < s.limit && TimelyFor(s, Respond, i)
    ensures Kept(Apply(s, Respond), i)
  {
    var s' := Apply(s, Respond);
    if Owned(s, i) {
      var o: nat :| Owns(s, o, i);
      assert s.vm.Toggling? ==> Owns(s', o, i) || Chases(s', o, i);
      assert !s.vm.Toggling? ==> Owns(s', o, i);
    } else if Chased(s, i) {
      var o: nat :| Chases(s, o, i);
      if Caught(s, s.requestors[o]) {
        assert CaughtAt(s, i) && DueNext(s, i);
        assert OnItsWay(s'.requestors[o], i);
      } else {
        assert Chases(s', o, i) || InDrain(s', i);
      }
    } else if Underway(s, i) {
      var o :| 0 <= o < |s.requestors| && OnItsWay(s.requestors[o], i);
      assert OnItsWay(s'.requestors[o], i);
    }
  }

  /** Every step but an untimely fetch keeps a request. */
  lemma StepKeeps(s: State, step: Step, i: int)
    requires Valid(s) && Kept(s, i) && Enabled(s, step) && 0 <= i < s.limit && TimelyFor(s, step, i)
    ensures Kept(Apply(s, step), i)
  {
    match step
    case Call(r, index) => if s.table.Pending(i) { CallKeepsCovered(s, r, index, i); }
    case Advance(r) =>
      if s.table.Pending(i) {
        AdvanceKeepsCovered(s, r, i);
      } else if Apply(s, step).table.Pending(i) {
        AddingIsOwned(s, r, i);
      }
    case Respond =>
      if s.table.Pending(i) {
        RespondKeepsCovered(s, i);
      } else {
        assert Apply(s, step).table.Pending(i) ==> s.vm.Bumping? && s.vm.i == i;
      }
  }

  lemma StepKeepsNoneLost(s: State, step: Step)
    requires Valid(s) && NoneLost(s) && Enabled(s, step) && Timely(s, step)
    ensures NoneLost(Apply(s, step))
  {
    forall i | 0 <= i < s.limit ensures Kept(Apply(s, step), i) {
      assert Kept(s, i) && TimelyFor(s, step, i);
      StepKeeps(s, step, i);
    }
  }

  /** A toggle by itself loses nothing: whoever it overtakes may still be in time for the fetch. */
  lemma ToggleLosesNothing(s: State)
    requires Valid(s) && NoneLost(s) && s.vm.Toggling?
    ensures NoneLost(Apply(s, Respond))
  {
    StepKeepsNoneLost(s, Respond);
  }

  /** Reading a retired mark keeps a request exactly when, should that catch a requestor for it, the
      slot is due for the next response anyhow. */
  lemma FetchKeepsExactlyWhen(s: State, i: int)
    requires Valid(s) && Kept(s, i) && s.vm.Fetching() && 0 <= i < s.limit
    ensures Kept(Apply(s, Respond), i) <==> (CaughtAt(s, i) ==> DueNext(s, i))
  {
    var s' := Apply(s, Respond);
    if TimelyFor(s, Respond, i) {
      StepKeeps(s, Respond, i);
    } else if Kept(s', i) {
      var r :| 0 <= r < |s.requestors| && Caught(s, s.requestors[r]) && s.requestors[r].i == i;
      assert s'.table.Pending(i) && Covered(s', i) && !InDrain(s', i);
      if Owned(s', i) {
        var o: nat :| Owns(s', o, i);
        assert Owns(s, o, i);
      }
    }
  }

  lemma FetchIsSafeExactlyWhen(s: State)
    requires Valid(s) && NoneLost(s) && s.vm.Fetching()
    ensures NoneLost(Apply(s, Respond)) <==>
            forall r :: 0 <= r < |s.requestors| && Caught(s, s.requestors[r]) ==> DueNext(s, s.requestors[r].i)
  {
    forall i | 0 <= i < s.limit
      ensures Kept(Apply(s, Respond), i) <==> (CaughtAt(s, i) ==> DueNext(s, i))
    {
      assert Kept(s, i);
      FetchKeepsExactlyWhen(s, i);
    }
    if NoneLost(Apply(s, Respond)) {
      forall r | 0 <= r < |s.requestors| && Caught(s, s.requestors[r]) ensures DueNext(s, s.requestors[r].i) {
        assert Kept(Apply(s, Respond), s.requestors[r].i) && CaughtAt(s, s.requestors[r].i);
      }
    }
  }

  // ----- every run

  ghost predicate AllTimely(s: State, steps: seq<Step>)
    requires Valid(s) && Allowed(s, steps)
    decreases |steps|
  {
    steps == [] || (Timely(s, steps[0]) && AllTimely(Apply(s, steps[0]), steps[1..]))
  }

  ghost predicate AllTimelyFor(s: State, steps: seq<Step>, i: int)
    requires Valid(s) && Allowed(s, steps)
    decreases |steps|
  {
    steps == [] || (TimelyFor(s, steps[0], i) && AllTimelyFor(Apply(s, steps[0]), steps[1..], i))
  }

  lemma {:induction false} TimelyForEach(s: State, steps: seq<Step>, i: int)
    requires Valid(s) && Allowed(s, steps) && AllTimely(s, steps) && 0 <= i < s.limit
    ensures AllTimelyFor(s, steps, i)
    decreases |steps|
  {
    if steps != [] {
      TimelyForEach(Apply(s, steps[0]), steps[1..], i);
    }
  }

  /** Nothing is lost in any state of the run. */
  ghost predicate NeverLost(s: State, steps: seq<Step>)
    requires Valid(s) && Allowed(s, steps)
    decreases |steps|
  {
    NoneLost(s) && (steps == [] || NeverLost(Apply(s, steps[0]), steps[1..]))
  }

  /** The request for slot `i` is kept in every state of the run. */
  ghost predicate AlwaysKept(s: State, steps: seq<Step>, i: int)
    requires Valid(s) && Allowed(s, steps)
    decreases |steps|
  {
    Kept(s, i) && (steps == [] || AlwaysKept(Apply(s, steps[0]), steps[1..], i))
  }

  lemma {:induction false} RunKeeps(s: State, steps: seq<Step>, i: int)
    requires Valid(s) && Kept(s, i) && Allowed(s, steps) && 0 <= i < s.limit
    ensures AlwaysKept(s, steps, i) <==> AllTimelyFor(s, steps, i)
    ensures AllTimelyFor(s, steps, i) ==> Kept(Run(s, steps), i)
    decreases |steps|
  {
    if steps != [] {
      if TimelyFor(s, steps[0], i) {
        StepKeeps(s, steps[0], i);
        RunKeeps(Apply(s, steps[0]), steps[1..], i);
      } else {
        FetchKeepsExactlyWhen(s, i);
      }
    }
  }

  lemma {:induction false} RunKeepsNoneLost(s: State, steps: seq<Step>)
    requires Valid(s) && NoneLost(s) && Allowed(s, steps) && AllTimely(s, steps)
    ensures NoneLost(Run(s, steps))
    decreases |steps|
  {
    if steps != [] {
      StepKeepsNoneLost(s, steps[0]);
      RunKeepsNoneLost(Apply(s, steps[0]), steps[1..]);
    }
  }

  /** No lost signal: any number of requestors, interleaved access by access, in every run in
      which the responder fetches in time. */
  lemma NoSignalIsLost(s: State, steps: seq<Step>, i: nat)
    requires Initial(s) && Allowed(s, steps) && AllTimely(s, steps)
    requires i < s.limit && Run(s, steps).table.Pending(i)
    ensures Covered(Run(s, steps), i)
  {
    RunKeepsNoneLost(s, steps);
    assert Kept(Run(s, steps), i);
  }

  /** Slot by slot the assumption is the exact one: whatever happens to the other slots, a run from the
      start keeps the request for slot `i` covered in all its states if and only if no fetch catches a
      requestor for that slot untimely. */
  lemma AlwaysKeptExactlyWhen(s: State, steps: seq<Step>, i: nat)
    requires Initial(s) && Allowed(s, steps) && i < s.limit
    ensures AlwaysKept(s, steps, i) <==> AllTimelyFor(s, steps, i)
  {
    RunKeeps(s, steps, i);
  }

  lemma OwnersAreUnderway(s: State, i: int)
    ensures Owned(s, i) ==> Underway(s, i)
  {
    if Owned(s, i) {
      var o: nat :| Owns(s, o, i);
      assert OnItsWay(s.requestors[o], i);
    }
  }

  lemma PollingSeesAll(s: State, i: int)
    requires Valid(s) && Kept(s, i) && s.vm.Polling? && !s.table.flag && !Underway(s, i)
    ensures !s.table.Pending(i)
  {
    OwnersAreUnderway(s, i);
  }

  /** Completed requests are seen, whatever traffic there is on other slots: whenever the responder polls
      with the flag down and nobody is in the middle of a request for slot `i`, nothing is pending there. */
  lemma CompletedIsSeen(s: State, steps: seq<Step>, i: nat)
    requires Initial(s) && Allowed(s, steps) && i < s.limit && AllTimelyFor(s, steps, i)
    requires var t := Run(s, steps); t.vm.Polling? && !t.table.flag && !Underway(t, i)
    ensures !Run(s, steps).table.Pending(i)
  {
    RunKeeps(s, steps, i);
    PollingSeesAll(Run(s, steps), i);
  }

  lemma {:induction false} TimelyExactlyWhenNeverLost(s: State, steps: seq<Step>)
    requires Valid(s) && NoneLost(s) && Allowed(s, steps)
    ensures NeverLost(s, steps) <==> AllTimely(s, steps)
    decreases |steps|
  {
    if steps != [] {
      if Timely(s, steps[0]) {
        StepKeepsNoneLost(s, steps[0]);
        TimelyExactlyWhenNeverLost(Apply(s, steps[0]), steps[1..]);
      } else {
        var i :| 0 <= i < s.limit && !TimelyFor(s, steps[0], i);
        assert Kept(s, i);
        FetchKeepsExactlyWhen(s, i);
      }
    }
  }

  /** The assumption is the exact one: a run from the start keeps every pending request covered in
      all its states if and only if all its fetches are timely. */
  lemma NeverLostExactlyWhen(s: State, steps: seq<Step>)
    requires Initial(s) && Allowed(s, steps)
    ensures NeverLost(s, steps) <==> AllTimely(s, steps)
  {
    TimelyExactlyWhenNeverLost(s, steps);
  }

  // ----- the interrupt model

  /** Signals run as interrupts: the responder only moves while every requestor is at rest. */
  ghost predicate Interrupts(s: State, steps: seq<Step>)
    requires Valid(s) && Allowed(s, steps)
    decreases |steps|
  {
    steps == [] ||
    ((steps[0].Respond? ==> AtRest(s)) && Interrupts(Apply(s, steps[0]), steps[1..]))
  }

  lemma {:induction false} InterruptsAreTimely(s: State, steps: seq<Step>)
    requires Valid(s) && Allowed(s, steps) && Interrupts(s, steps)
    ensures AllTimely(s, steps)
    decreases |steps|
  {
    if steps != [] {
      InterruptsAreTimely(Apply(s, steps[0]), steps[1..]);
    }
  }

  /** When signals only ever interrupt the responder, none is lost, wherever they strike. */
  lemma InterruptsLoseNothing(s: State, steps: seq<Step>)
    requires Initial(s) && Allowed(s, steps) && Interrupts(s, steps)
    ensures NoneLost(Run(s, steps))
  {
    InterruptsAreTimely(s, steps);
    RunKeepsNoneLost(s, steps);
  }

  // ----- conditions on the toggles alone

  /** Requestor `q` is inside its window on the side in use, for a pending slot that the marks of
      that side do not include yet. */
  predicate Unmarked(s: State, q: Requestor)
    requires |s.table.requests| == |s.table.responses|
  {
    q.InWindow() && q.sideA == s.table.useTideA && s.table.Pending(q.i) && !Marks(s.table.InUse(), q.i)
  }

  /** No toggle overtakes a requestor whose slot is still unmarked. */
  ghost predicate TogglesFindSlotsMarked(s: State, steps: seq<Step>)
    requires Valid(s) && Allowed(s, steps)
    decreases |steps|
  {
    steps == [] ||
    ((steps[0].Respond? && s.vm.Toggling? ==> forall r :: 0 <= r < |s.requestors| ==> !Unmarked(s, s.requestors[r])) &&
     TogglesFindSlotsMarked(Apply(s, steps[0]), steps[1..]))
  }

  ghost predicate Uncatchable(s: State, q: Requestor)
    requires Valid(s)
  {
    q.InWindow() && q.sideA != s.table.useTideA && s.table.Pending(q.i) ==> InDrain(s, q.i) || DueNext(s, q.i)
  }

  /** Between a toggle and the fetches: nobody it overtook can be caught. */
  ghost predicate NobodyCatchable(s: State)
    requires Valid(s)
  {
    s.vm.Fetching() ==> forall r :: 0 <= r < |s.requestors| ==> Uncatchable(s, s.requestors[r])
  }

  lemma AdvanceKeepsDueNext(s: State, r: nat, i: int)
    requires Valid(s) && Enabled(s, Advance(r)) && DueNext(s, i)
    ensures DueNext(Apply(s, Advance(r)), i)
  {
    AdvanceWidensMarks(s, r, s.table.useTideA);
    if Owned(s, i) {
      var o: nat :| Owns(s, o, i);
      if o == r { OwnerAdvances(s, o, i); } else { AdvanceKeepsOtherOwners(s, r, o, i); }
    }
  }

  /** Nobody enters a window on the retired side. */
  lemma WindowWasOpen(s: State, r: nat, o: nat)
    requires Valid(s) && Enabled(s, Advance(r)) && o < |s.requestors|
    ensures var q, q' := s.requestors[o], Apply(s, Advance(r)).requestors[o];
            q'.InWindow() && q'.sideA != s.table.useTideA ==> q.InWindow() && q.sideA == q'.sideA && q.i == q'.i
    ensures Apply(s, Advance(r)).table.useTideA == s.table.useTideA
  {
  }

  lemma AdvanceKeepsInDrain(s: State, r: nat, i: int)
    requires Valid(s) && Enabled(s, Advance(r)) && InDrain(s, i)
    ensures InDrain(Apply(s, Advance(r)), i)
  {
    AdvanceWidensMarks(s, r, !s.table.useTideA);
  }

  lemma AdvanceKeepsUncatchable(s: State, r: nat, o: nat)
    requires Valid(s) && Enabled(s, Advance(r)) && o < |s.requestors|
    requires Uncatchable(s, s.requestors[o])
    ensures Uncatchable(Apply(s, Advance(r)), Apply(s, Advance(r)).requestors[o])
  {
    var s' := Apply(s, Advance(r));
    var q := s.requestors[o];
    WindowWasOpen(s, r, o);
    if q.InWindow() {
      if !s.table.Pending(q.i) {
        if s'.table.Pending(q.i) { AddingIsOwned(s, r, q.i); }
      } else if InDrain(s, q.i) {
        AdvanceKeepsInDrain(s, r, q.i);
      } else if DueNext(s, q.i) {
        AdvanceKeepsDueNext(s, r, q.i);
      }
    }
  }

  lemma CallKeepsUncatchable(s: State, r: nat, index: int, o: nat)
    requires Valid(s) && Enabled(s, Call(r, index)) && o < |s.requestors|
    requires Uncatchable(s, s.requestors[o])
    ensures Uncatchable(Apply(s, Call(r, index)), Apply(s, Call(r, index)).requestors[o])
  {
    var s', q := Apply(s, Call(r, index)), s.requestors[o];
    if q.InWindow() && Owned(s, q.i) {
      var other: nat :| Owns(s, other, q.i);
      assert Owns(s', other, q.i);
    }
  }

  lemma FetchKeepsUncatchable(s: State, q: Requestor)
    requires Valid(s) && (s.vm.Toggling? || s.vm.FetchingLow?)
    requires s.vm.Toggling? ==> !Unmarked(s, q)
    requires s.vm.FetchingLow? ==> Uncatchable(s, q)
    ensures Uncatchable(Apply(s, Respond), q)
  {
    var s' := Apply(s, Respond);
    if q.InWindow() && s.vm.FetchingLow? && Owned(s, q.i) {
      var o: nat :| Owns(s, o, q.i);
      assert Owns(s', o, q.i);
    }
  }

  lemma StepKeepsNobodyCatchable(s: State, step: Step)
    requires Valid(s) && NobodyCatchable(s) && Enabled(s, step)
    requires step.Respond? && s.vm.Toggling? ==> forall r :: 0 <= r < |s.requestors| ==> !Unmarked(s, s.requestors[r])
    ensures NobodyCatchable(Apply(s, step)) && Timely(s, step)
  {
    var s' := Apply(s, step);
    if s'.vm.Fetching() {
      forall o | 0 <= o < |s'.requestors| ensures Uncatchable(s', s'.requestors[o]) {
        match step
        case Advance(r) => AdvanceKeepsUncatchable(s, r, o);
        case Call(r, index) => CallKeepsUncatchable(s, r, index, o);
        case Respond => FetchKeepsUncatchable(s, s.requestors[o]);
      }
    }
  }

  lemma {:induction false} MarkedTogglesAreTimely(s: State, steps: seq<Step>)
    requires Valid(s) && Allowed(s, steps) && NobodyCatchable(s) && TogglesFindSlotsMarked(s, steps)
    ensures AllTimely(s, steps)
    decreases |steps|
  {
    if steps != [] {
      StepKeepsNobodyCatchable(s, steps[0]);
      MarkedTogglesAreTimely(Apply(s, steps[0]), steps[1..]);
    }
  }

  ghost predicate WindowsClosed(s: State) {
    forall r :: 0 <= r < |s.requestors| ==> !s.requestors[r].InWindow()
  }

  /** So it is enough that no toggle overtakes a requestor whose slot is still unmarked ... */
  lemma MarkedTogglesLoseNothing(s: State, steps: seq<Step>)
    requires Initial(s) && Allowed(s, steps) && TogglesFindSlotsMarked(s, steps)
    ensures NoneLost(Run(s, steps))
  {
    MarkedTogglesAreTimely(s, steps);
    RunKeepsNoneLost(s, steps);
  }

  /** ... and in particular that nobody at all is in the window when the responder toggles. */
  ghost predicate TogglesFindClosedWindows(s: State, steps: seq<Step>)
    requires Valid(s) && Allowed(s, steps)
    decreases |steps|
  {
    steps == [] ||
    ((steps[0].Respond? && s.vm.Toggling? ==> WindowsClosed(s)) &&
     TogglesFindClosedWindows(Apply(s, steps[0]), steps[1..]))
  }

  /** Everybody inside a window works on the side in use, and the other side is empty when it
      is about to come into use: so in every run whose toggles found the windows closed. */
  ghost predicate Tidy(s: State) {
    && (forall r :: 0 <= r < |s.requestors| && s.requestors[r].InWindow() ==>
          s.requestors[r].sideA == s.table.useTideA)
    && (s.vm.EmptyingHigh? ==> s.table.Retired().low == MAX_TIDE)
    && (s.vm.Toggling? ==> s.table.Retired() == EMPTY_TIDES)
  }

  lemma AdvanceKeepsTidy(s: State, r: nat)
    requires Valid(s) && Tidy(s) && Enabled(s, Advance(r))
    ensures Tidy(Apply(s, Advance(r)))
  {
    var q := s.requestors[r];
    assert q.InWindow() ==> q.sideA == s.table.useTideA;
    forall o | 0 <= o < |s.requestors| ensures
      var q' := Apply(s, Advance(r)).requestors[o]; q'.InWindow() ==> q'.sideA == s.table.useTideA
    {
      WindowWasOpen(s, r, o);
    }
  }

  lemma StepKeepsTidy(s: State, step: Step)
    requires Valid(s) && Tidy(s) && Enabled(s, step)
    requires step.Respond? && s.vm.Toggling? ==> WindowsClosed(s)
    ensures Tidy(Apply(s, step))
  {
    match step
    case Call(_, _) =>
    case Advance(r) => AdvanceKeepsTidy(s, r);
    case Respond =>
  }

  lemma {:induction false} ClosedWindowRuns(s: State, steps: seq<Step>)
    requires Valid(s) && Allowed(s, steps) && TogglesFindClosedWindows(s, steps)
    requires NoneLost(s) && Tidy(s)
    ensures NoneLost(Run(s, steps)) && Tidy(Run(s, steps))
    decreases |steps|
  {
    if steps != [] {
      StepKeepsNoneLost(s, steps[0]);
      StepKeepsTidy(s, steps[0]);
      ClosedWindowRuns(Apply(s, steps[0]), steps[1..]);
    }
  }
}
