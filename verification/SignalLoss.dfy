/** What an untimely response costs: when a request can still be lost, over all schedules. */
module SignalLoss {
  import opened SignalTable
  import opened SignalProtocol
  import opened SignalCoverage
  import opened SignalProgress

  lemma {:induction false} RunAppend(s: State, a: seq<Step>, b: seq<Step>)
    requires Valid(s) && Allowed(s, a) && Allowed(Run(s, a), b)
    ensures Allowed(s, a + b) && Run(s, a + b) == Run(Run(s, a), b)
    decreases |a|
  {
    if a == [] {
      assert a + b == b;
    } else {
      assert (a + b)[0] == a[0] && (a + b)[1..] == a[1..] + b;
      RunAppend(Apply(s, a[0]), a[1..], b);
    }
  }

  lemma {:induction false} FinishRequestIsARun(s: State, r: nat) returns (steps: seq<Step>)
    requires Valid(s) && r < |s.requestors|
    ensures Allowed(s, steps) && Run(s, steps) == FinishRequest(s, r)
    decreases RequestorLeft(s.table, s.requestors[r])
  {
    steps := [];
    if !s.requestors[r].Resting? {
      AdvanceDescends(s, r);
      var rest := FinishRequestIsARun(Apply(s, Advance(r)), r);
      steps := [Advance(r)] + rest;
    }
  }

  // ----- continuing without new calls

  ghost predicate CallFree(steps: seq<Step>) {
    forall k :: 0 <= k < |steps| ==> !steps[k].Call?
  }

  /** Some continuation without new calls leads from `s` to `t`. */
  ghost predicate Reaches(s: State, t: State)
    requires Valid(s)
  {
    exists steps :: Allowed(s, steps) && CallFree(steps) && Run(s, steps) == t
  }

  lemma ReachesItself(s: State)
    requires Valid(s)
    ensures Reaches(s, s)
  {
    assert Allowed(s, []) && CallFree([]) && Run(s, []) == s;
  }

  lemma ReachesNext(s: State, step: Step)
    requires Valid(s) && Enabled(s, step) && !step.Call?
    ensures Reaches(s, Apply(s, step))
  {
    var s' := Apply(s, step);
    assert Allowed(s', []) && Run(s', []) == s';
    assert [step][1..] == [];
    assert Allowed(s, [step]) && CallFree([step]) && Run(s, [step]) == s';
  }

  lemma ReachesOn(s: State, t: State, u: State)
    requires Valid(s) && Valid(t) && Reaches(s, t) && Reaches(t, u)
    ensures Reaches(s, u)
  {
    var a :| Allowed(s, a) && CallFree(a) && Run(s, a) == t;
    var b :| Allowed(t, b) && CallFree(b) && Run(t, b) == u;
    RunAppend(s, a, b);
    assert CallFree(a + b);
  }

  lemma {:induction false} ReachesFinishedRequest(s: State, r: nat)
    requires Valid(s) && r < |s.requestors|
    ensures Reaches(s, FinishRequest(s, r))
    decreases RequestorLeft(s.table, s.requestors[r])
  {
    if s.requestors[r].Resting? {
      ReachesItself(s);
    } else {
      AdvanceDescends(s, r);
      ReachesNext(s, Advance(r));
      ReachesFinishedRequest(Apply(s, Advance(r)), r);
      ReachesOn(s, Apply(s, Advance(r)), FinishRequest(s, r));
    }
  }

  lemma ReachesFinishedResponse(s: State)
    requires Valid(s)
    ensures Reaches(s, FinishResponse(s))
  {
    var steps := FinishResponseIsARun(s);
    assert CallFree(steps);
  }

  // ----- what a requestor leaves alone

  lemma AdvanceFrame(s: State, r: nat)
    requires Valid(s) && Enabled(s, Advance(r))
    ensures var s' := Apply(s, Advance(r));
            && s'.vm == s.vm && s'.table.useTideA == s.table.useTideA
            && s'.table.responses == s.table.responses
            && (s.table.flag || s.requestors[r].Flagging? ==> s'.table.flag)
            && (s'.requestors[r].Resting? ==> s'.table.flag)
            && (forall o :: 0 <= o < |s.requestors| && o != r ==> s'.requestors[o] == s.requestors[o])
  {
  }

  lemma {:induction false} FinishRequestFrame(s: State, r: nat)
    requires Valid(s) && r < |s.requestors|
    ensures var s' := FinishRequest(s, r);
            && s'.vm == s.vm && s'.table.useTideA == s.table.useTideA
            && s'.table.responses == s.table.responses
            && (s.table.flag || !s.requestors[r].Resting? ==> s'.table.flag)
            && (forall o :: 0 <= o < |s.requestors| && o != r ==> s'.requestors[o] == s.requestors[o])
    decreases RequestorLeft(s.table, s.requestors[r])
  {
    if !s.requestors[r].Resting? {
      AdvanceDescends(s, r);
      AdvanceFrame(s, r);
      FinishRequestFrame(Apply(s, Advance(r)), r);
    }
  }

  /** Past the counter, and past reading `useTideA` as `sideA` if still in the window. */
  predicate OnSide(q: Requestor, sideA: bool) {
    q.Resting? || q.Flagging? || (q.InWindow() && q.sideA == sideA)
  }

  lemma AdvanceStaysOnSide(s: State, r: nat, sideA: bool)
    requires Valid(s) && Enabled(s, Advance(r)) && OnSide(s.requestors[r], sideA)
    ensures var s' := Apply(s, Advance(r));
            && |s'.requestors| == |s.requestors| && OnSide(s'.requestors[r], sideA)
            && s'.table.Pair(!sideA) == s.table.Pair(!sideA) && s'.table.requests == s.table.requests
  {
  }

  /** A requestor that has chosen its side leaves the other one, and the counters, alone. */
  lemma {:induction false} FinishRequestStaysOnSide(s: State, r: nat, sideA: bool)
    requires Valid(s) && r < |s.requestors| && OnSide(s.requestors[r], sideA)
    ensures var s' := FinishRequest(s, r);
            s'.table.Pair(!sideA) == s.table.Pair(!sideA) && s'.table.requests == s.table.requests
    decreases RequestorLeft(s.table, s.requestors[r])
  {
    if !s.requestors[r].Resting? {
      AdvanceDescends(s, r);
      AdvanceStaysOnSide(s, r, sideA);
      FinishRequestStaysOnSide(Apply(s, Advance(r)), r, sideA);
    }
  }

  // ----- a response in progress decides

  /** The responder is about to retire a side, or has not read all of the retired marks. */
  predicate Deciding(vm: Responder) {
    vm.Toggling? || vm.Fetching()
  }

  /** The side the response in progress drains. */
  predicate DrainsA(s: State) {
    if s.vm.Toggling? then s.table.useTideA else !s.table.useTideA
  }

  /** As the marks stand, the response in progress drains slot `i`. */
  predicate Drained(s: State, i: int) {
    if s.vm.Toggling? then Marks(s.table.InUse(), i) else InDrain(s, i)
  }

  /** The marks for the response after that. */
  function Fresh(s: State): Tides {
    s.table.Pair(!DrainsA(s))
  }

  /** Everybody is at rest, nobody will look again, and slot `i` has not been answered. */
  ghost predicate Lost(t: State, i: int) {
    Valid(t) && AtRest(t) && t.vm.Polling? && !t.table.flag && t.table.Pending(i)
  }

  ghost predicate Losable(s: State, i: int)
    requires Valid(s)
  {
    exists t :: Reaches(s, t) && Lost(t, i)
  }

  /** Requestor `q` will raise the flag without marking the fresh side: it stands in a window on the side
      being drained, or can still get there, or has marked already. */
  predicate BringsAnother(s: State, q: Requestor) {
    || (q.InWindow() && q.sideA == DrainsA(s))
    || q.Flagging?
    || (s.vm.Toggling? && (q.Adding? || q.Choosing?))
  }

  /** There can be another response after the one in progress with the fresh marks as they are. */
  ghost predicate Again(s: State) {
    s.table.flag || exists r :: 0 <= r < |s.requestors| && BringsAnother(s, s.requestors[r])
  }

  /** Requestor `q` has marks still to push. */
  predicate StillToMark(q: Requestor) {
    !q.Resting? && !q.Flagging?
  }

  /** The marks of a side once requestor `q`, working there, has finished. */
  function MarkedBy(p: Tides, q: Requestor): Tides {
    match q
    case Resting => p
    case Flagging(_) => p
    case ReadingHigh(i, _) => Tides(p.low, Max(p.high, i))
    case SwappingHigh(i, _, _) => Tides(p.low, Max(p.high, i))
    case _ => Tides(Min(p.low, q.i), Max(p.high, q.i))
  }

  predicate LeavesOut(s: State, q: Requestor, i: int) {
    StillToMark(q) && !Marks(MarkedBy(Fresh(s), q), i)
  }

  /** The next response can come about, if at all, without slot `i` being marked for it. */
  ghost predicate Open(s: State, i: int) {
    if Again(s) then !Marks(Fresh(s), i)
    else AtRest(s) || exists r :: 0 <= r < |s.requestors| && LeavesOut(s, s.requestors[r], i)
  }

  // ----- marked slots are answered on every schedule

  /** Slot `i` is bound to be answered, and nobody is about to ask for it again. */
  ghost predicate Secured(s: State, i: nat)
    requires Valid(s)
  {
    && Adding(i) !in s.requestors
    && (|| !s.table.Pending(i)
        || (Marks(s.table.InUse(), i) && (s.table.flag || s.vm.BeforeToggle() || !AtRest(s)))
        || InDrain(s, i)
        || (s.vm.Toggling? && Marks(s.table.Retired(), i) && (s.table.flag || !AtRest(s))))
  }

  /** Whoever comes to rest has raised the flag. */
  lemma RestRaisesFlag(s: State, r: nat)
    requires Valid(s) && Enabled(s, Advance(r))
    ensures var s' := Apply(s, Advance(r)); s'.table.flag || !AtRest(s')
  {
    var s' := Apply(s, Advance(r));
    assert s'.requestors[r].Resting? ==> s'.table.flag;
  }

  lemma AdvanceKeepsSecured(s: State, r: nat, i: nat)
    requires Valid(s) && Enabled(s, Advance(r)) && Secured(s, i)
    ensures Secured(Apply(s, Advance(r)), i)
  {
    AdvanceWidensMarks(s, r, true);
    AdvanceWidensMarks(s, r, false);
    RestRaisesFlag(s, r);
    assert s.requestors[r] in s.requestors;
  }

  lemma RespondKeepsSecured(s: State, i: nat)
    requires Valid(s) && Secured(s, i) && i < s.limit
    ensures Secured(Apply(s, Respond), i)
  {
  }

  lemma {:induction false} RunKeepsSecured(s: State, steps: seq<Step>, i: nat)
    requires Valid(s) && Allowed(s, steps) && CallFree(steps) && Secured(s, i) && i < s.limit
    ensures Secured(Run(s, steps), i)
    decreases |steps|
  {
    if steps != [] {
      assert !steps[0].Call?;
      match steps[0] {
        case Advance(r) => AdvanceKeepsSecured(s, r, i);
        case Respond => RespondKeepsSecured(s, i);
      }
      RunKeepsSecured(Apply(s, steps[0]), steps[1..], i);
    }
  }

  /** The side that is marked from the next toggle on, if one is ahead, else now. */
  predicate NextIsA(s: State) {
    if s.vm.Toggling? then !s.table.useTideA else s.table.useTideA
  }

  predicate GuardedBy(s: State, q: Requestor, i: int) {
    q.Resting? ||
    (&& StillToMark(q)
     && (q.InWindow() ==> q.sideA == NextIsA(s))
     && (!q.InWindow() ==> !s.vm.Toggling?)
     && Marks(MarkedBy(s.table.Pair(NextIsA(s)), q), i))
  }

  /** Nobody has raised the flag since the last toggle, and whoever is going to marks slot `i` first. */
  ghost predicate Guarded(s: State, i: nat)
    requires Valid(s)
  {
    && Adding(i) !in s.requestors && !AtRest(s) && !s.table.flag
    && !s.vm.Clearing? && !s.vm.EmptyingLow? && !s.vm.EmptyingHigh?
    && forall r :: 0 <= r < |s.requestors| ==> GuardedBy(s, s.requestors[r], i)
  }

  /** A requestor on its way leaves the marks it is heading for as they are: inside its window ... */
  lemma InsideHeadsForSame(s: State, r: nat, sideA: bool)
    requires Valid(s) && Enabled(s, Advance(r)) && s.requestors[r].InWindow() && s.requestors[r].sideA == sideA
    ensures var s' := Apply(s, Advance(r));
            && |s'.requestors| == |s.requestors|
            && MarkedBy(s'.table.Pair(sideA), s'.requestors[r]) == MarkedBy(s.table.Pair(sideA), s.requestors[r])
  {
    var p, p' := s.table.Pair(sideA), Apply(s, Advance(r)).table.Pair(sideA);
    var q' := Apply(s, Advance(r)).requestors[r];
    match s.requestors[r]
    case ReadingLow(i, _) => assert p' == p && (q'.SwappingLow? || (q'.ReadingHigh? && p.low <= i));
    case SwappingLow(i, _, v) => assert q' == ReadingLow(i, sideA) && (p' == p || (p.low == v && p' == p.(low := i)));
    case ReadingHigh(i, _) => assert p' == p && (q'.SwappingHigh? || (q'.Flagging? && i <= p.high));
    case SwappingHigh(i, _, v) => assert q' == ReadingHigh(i, sideA) && (p' == p || (p.high == v && p' == p.(high := i)));
  }

  /** ... and before and after it. */
  lemma OutsideHeadsForSame(s: State, r: nat, sideA: bool)
    requires Valid(s) && Enabled(s, Advance(r)) && !s.requestors[r].InWindow()
    requires s.requestors[r].Flagging? || s.table.useTideA == sideA
    ensures var s' := Apply(s, Advance(r));
            && |s'.requestors| == |s.requestors|
            && MarkedBy(s'.table.Pair(sideA), s'.requestors[r]) == MarkedBy(s.table.Pair(sideA), s.requestors[r])
  {
  }

  lemma AdvanceHeadsForSame(s: State, r: nat, sideA: bool)
    requires Valid(s) && Enabled(s, Advance(r))
    requires var q := s.requestors[r]; q.Flagging? || (q.InWindow() && q.sideA == sideA) || (!q.InWindow() && s.table.useTideA == sideA)
    ensures var s' := Apply(s, Advance(r));
            && |s'.requestors| == |s.requestors|
            && MarkedBy(s'.table.Pair(sideA), s'.requestors[r]) == MarkedBy(s.table.Pair(sideA), s.requestors[r])
  {
    if s.requestors[r].InWindow() { InsideHeadsForSame(s, r, sideA); } else { OutsideHeadsForSame(s, r, sideA); }
  }

  lemma OthersStayGuarded(s: State, r: nat, o: nat, i: nat)
    requires Valid(s) && Enabled(s, Advance(r)) && o < |s.requestors| && o != r
    requires GuardedBy(s, s.requestors[o], i)
    ensures GuardedBy(Apply(s, Advance(r)), Apply(s, Advance(r)).requestors[o], i)
  {
    AdvanceWidensMarks(s, r, NextIsA(s));
    assert Apply(s, Advance(r)).requestors[o] == s.requestors[o];
  }

  lemma MoverStaysGuarded(s: State, r: nat, i: nat)
    requires Valid(s) && Enabled(s, Advance(r)) && GuardedBy(s, s.requestors[r], i)
    ensures var s' := Apply(s, Advance(r)); var q' := s'.requestors[r];
            && !q'.Resting?
            && (if q'.Flagging? then Marks(s'.table.Pair(NextIsA(s')), i) else GuardedBy(s', q', i))
  {
    AdvanceHeadsForSame(s, r, NextIsA(s));
  }

  lemma AdvanceAddsNobody(s: State, r: nat, i: nat)
    requires Valid(s) && Enabled(s, Advance(r)) && Adding(i) !in s.requestors
    ensures Adding(i) !in Apply(s, Advance(r)).requestors
  {
  }

  lemma AdvanceKeepsGuarded(s: State, r: nat, i: nat)
    requires Valid(s) && Enabled(s, Advance(r)) && Guarded(s, i)
    ensures var s' := Apply(s, Advance(r)); Guarded(s', i) || Secured(s', i)
  {
    var s' := Apply(s, Advance(r));
    assert GuardedBy(s, s.requestors[r], i);
    MoverStaysGuarded(s, r, i);
    AdvanceAddsNobody(s, r, i);
    AdvanceFrame(s, r);
    assert !AtRest(s');
    if !s'.requestors[r].Flagging? {
      assert s'.table.flag == s.table.flag;
      forall o | 0 <= o < |s.requestors| ensures GuardedBy(s', s'.requestors[o], i) {
        if o != r {
          assert GuardedBy(s, s.requestors[o], i);
          OthersStayGuarded(s, r, o, i);
        }
      }
    }
  }

  lemma RespondKeepsGuarded(s: State, i: nat)
    requires Valid(s) && Guarded(s, i)
    ensures Guarded(Apply(s, Respond), i)
  {
    var s' := Apply(s, Respond);
    forall o | 0 <= o < |s.requestors| ensures GuardedBy(s', s'.requestors[o], i) {
      assert GuardedBy(s, s.requestors[o], i);
    }
  }

  lemma {:induction false} RunKeepsGuarded(s: State, steps: seq<Step>, i: nat)
    requires Valid(s) && Allowed(s, steps) && CallFree(steps) && Guarded(s, i) && i < s.limit
    ensures Guarded(Run(s, steps), i) || Secured(Run(s, steps), i)
    decreases |steps|
  {
    if steps != [] {
      var s' := Apply(s, steps[0]);
      assert !steps[0].Call?;
      match steps[0] {
        case Advance(r) => AdvanceKeepsGuarded(s, r, i);
        case Respond => RespondKeepsGuarded(s, i);
      }
      if Guarded(s', i) {
        RunKeepsGuarded(s', steps[1..], i);
      } else {
        RunKeepsSecured(s', steps[1..], i);
      }
    }
  }

  lemma GuardedIsNotLosable(s: State, i: nat)
    requires Valid(s) && Guarded(s, i) && i < s.limit
    ensures !Losable(s, i)
  {
    if Losable(s, i) {
      var t :| Reaches(s, t) && Lost(t, i);
      var steps :| Allowed(s, steps) && CallFree(steps) && Run(s, steps) == t;
      RunKeepsGuarded(s, steps, i);
      assert false;
    }
  }

  lemma SecuredIsNotLosable(s: State, i: nat)
    requires Valid(s) && Secured(s, i) && i < s.limit
    ensures !Losable(s, i)
  {
    if Losable(s, i) {
      var t :| Reaches(s, t) && Lost(t, i);
      var steps :| Allowed(s, steps) && CallFree(steps) && Run(s, steps) == t;
      RunKeepsSecured(s, steps, i);
      assert false;
    }
  }

  // ----- unmarked slots are lost on some schedule

  predicate SameMarksAhead(s: State, q: Requestor, q': Requestor) {
    MarkedBy(Fresh(s), q') == MarkedBy(Fresh(s), q) && (StillToMark(q') <==> StillToMark(q))
  }

  /** What stays put while requestors are moved up to their windows. */
  ghost predicate MovedUp(s: State, t: State, i: nat)
    requires Valid(s)
  {
    && Valid(t) && SameShape(s, t) && Reaches(s, t)
    && t.vm == s.vm && t.table.useTideA == s.table.useTideA && t.table.a == s.table.a && t.table.b == s.table.b
    && t.table.Pending(i) == s.table.Pending(i)
    && Adding(i) !in t.requestors
    && (Again(s) <==> Again(t))
    && (forall o :: 0 <= o < |s.requestors| ==> SameMarksAhead(s, s.requestors[o], t.requestors[o]))
  }

  function LeftToWindow(q: Requestor): nat {
    match q
    case Adding(_) => 2
    case Choosing(_) => 1
    case Flagging(_) => 1
    case _ => 0
  }

  lemma MoveUpKeepsAgain(s: State, r: nat)
    requires Valid(s) && r < |s.requestors| && LeftToWindow(s.requestors[r]) > 0
    ensures Again(s) <==> Again(Apply(s, Advance(r)))
  {
    var s' := Apply(s, Advance(r));
    AdvanceFrame(s, r);
    if Again(s) && !s.table.flag {
      var o :| 0 <= o < |s.requestors| && BringsAnother(s, s.requestors[o]);
      assert BringsAnother(s', s'.requestors[o]) || s'.table.flag;
    }
    if Again(s') && !s'.table.flag {
      var o :| 0 <= o < |s.requestors| && BringsAnother(s', s'.requestors[o]);
      assert BringsAnother(s, s.requestors[o]);
    } else if s'.table.flag && !s.table.flag {
      assert BringsAnother(s, s.requestors[r]);
    }
  }

  lemma MoveUpOnce(s: State, r: nat, i: nat)
    requires Valid(s) && r < |s.requestors| && LeftToWindow(s.requestors[r]) > 0 && Adding(i) !in s.requestors
    ensures var s' := Apply(s, Advance(r));
            && MovedUp(s, s', i)
            && LeftToWindow(s'.requestors[r]) < LeftToWindow(s.requestors[r])
            && (forall o :: 0 <= o < |s.requestors| && o != r ==> s'.requestors[o] == s.requestors[o])
  {
    ReachesNext(s, Advance(r));
    MoveUpKeepsAgain(s, r);
    AdvanceAddsNobody(s, r, i);
    AdvanceFrame(s, r);
    assert s.requestors[r] in s.requestors;
  }

  lemma MovedUpTwice(s: State, t: State, u: State, i: nat)
    requires Valid(s) && MovedUp(s, t, i) && MovedUp(t, u, i)
    ensures MovedUp(s, u, i)
  {
    ReachesOn(s, t, u);
  }

  lemma MovedUpNotAtAll(s: State, i: nat)
    requires Valid(s) && Adding(i) !in s.requestors
    ensures MovedUp(s, s, i)
  {
    ReachesItself(s);
  }

  lemma {:induction false} MoveUp(s: State, r: nat, i: nat) returns (t: State)
    requires Valid(s) && r < |s.requestors| && Adding(i) !in s.requestors
    ensures MovedUp(s, t, i)
    ensures t.requestors[r].Resting? || t.requestors[r].InWindow()
    ensures forall o :: 0 <= o < |s.requestors| && o != r ==> t.requestors[o] == s.requestors[o]
    decreases LeftToWindow(s.requestors[r])
  {
    if LeftToWindow(s.requestors[r]) == 0 {
      MovedUpNotAtAll(s, i);
      t := s;
    } else {
      MoveUpOnce(s, r, i);
      var s' := Apply(s, Advance(r));
      t := MoveUp(s', r, i);
      MovedUpTwice(s, s', t, i);
    }
  }

  /** The first `n` requestors rest or stand in a window. */
  ghost predicate Gathered(s: State, n: nat) {
    forall r :: 0 <= r < n && r < |s.requestors| ==> s.requestors[r].Resting? || s.requestors[r].InWindow()
  }

  lemma {:induction false} Gather(s: State, n: nat, i: nat) returns (t: State)
    requires Valid(s) && n <= |s.requestors| && Adding(i) !in s.requestors
    ensures MovedUp(s, t, i) && Gathered(t, n)
    decreases n
  {
    if n == 0 {
      MovedUpNotAtAll(s, i);
      t := s;
    } else {
      var s' := Gather(s, n - 1, i);
      t := MoveUp(s', n - 1, i);
      MovedUpTwice(s, s', t, i);
    }
  }

  /** The response in progress passes a slot it does not drain, and touches nobody else's marks. */
  lemma {:induction false} PassesBy(s: State, i: nat)
    requires Valid(s) && Deciding(s.vm) && s.table.Pending(i) && !Drained(s, i) && i < s.limit
    ensures var u := FinishResponse(s);
            && u.vm.Polling? && u.requestors == s.requestors && u.table.flag == s.table.flag
            && u.table.useTideA == !DrainsA(s) && u.table.InUse() == Fresh(s)
            && u.table.Pending(i)
    decreases ResponderLeft(s.vm)
  {
    var s' := Apply(s, Respond);
    RespondFrame(s);
    if s.vm.FetchingHigh? {
      FinishScan(s');
    } else {
      PassesBy(s', i);
    }
  }

  /** The responder polls, and everybody active stands in a window. */
  ghost predicate Ready(s: State, i: nat) {
    Valid(s) && s.vm.Polling? && Gathered(s, |s.requestors|) && s.table.Pending(i)
  }

  predicate Inside(q: Requestor, sideA: bool) {
    q.InWindow() && q.sideA == sideA
  }

  lemma FinishInside(s: State, r: nat, i: nat)
    requires Ready(s, i) && r < |s.requestors| && s.requestors[r].InWindow()
    ensures var t, sideA := FinishRequest(s, r), s.requestors[r].sideA;
            && Ready(t, i) && SameShape(s, t) && Reaches(s, t) && t.table.flag
            && t.table.useTideA == s.table.useTideA && t.table.Pair(!sideA) == s.table.Pair(!sideA)
            && t.requestors == s.requestors[r := Resting]
  {
    var t := FinishRequest(s, r);
    FinishRequestFrame(s, r);
    FinishRequestStaysOnSide(s, r, s.requestors[r].sideA);
    ReachesFinishedRequest(s, r);
    assert t.requestors == s.requestors[r := Resting];
  }

  ghost predicate FinishedOn(qs: seq<Requestor>, qs': seq<Requestor>, sideA: bool, n: nat) {
    && |qs'| == |qs|
    && forall r :: 0 <= r < |qs| ==> qs'[r] == if r < n && Inside(qs[r], sideA) then Resting else qs[r]
  }

  lemma FinishedOneMore(qs: seq<Requestor>, qs': seq<Requestor>, sideA: bool, n: nat)
    requires 0 < n <= |qs| && FinishedOn(qs, qs', sideA, n - 1)
    ensures qs'[n - 1] == qs[n - 1]
    ensures FinishedOn(qs, if Inside(qs[n - 1], sideA) then qs'[n - 1 := Resting] else qs', sideA, n)
  {
  }

  /** The first `n` requestors, if inside on one side, finish there. */
  lemma {:induction false} FinishSide(s: State, sideA: bool, n: nat, i: nat) returns (t: State)
    requires Ready(s, i) && n <= |s.requestors|
    ensures Ready(t, i) && SameShape(s, t) && Reaches(s, t)
    ensures t.table.useTideA == s.table.useTideA && t.table.Pair(!sideA) == s.table.Pair(!sideA)
    ensures s.table.flag ==> t.table.flag
    ensures forall r :: 0 <= r < n && Inside(s.requestors[r], sideA) ==> t.table.flag
    ensures FinishedOn(s.requestors, t.requestors, sideA, n)
    decreases n
  {
    if n == 0 {
      ReachesItself(s);
      t := s;
    } else {
      var s' := FinishSide(s, sideA, n - 1, i);
      t := s';
      FinishedOneMore(s.requestors, s'.requestors, sideA, n);
      if Inside(s.requestors[n - 1], sideA) {
        t := FinishRequest(s', n - 1);
        FinishInside(s', n - 1, i);
        ReachesOn(s, s', t);
      }
    }
  }

  /** A whole response passes by a slot that is not marked. */
  lemma ResponsePassesBy(s: State, i: nat) returns (t: State)
    requires Ready(s, i) && s.table.flag && !Marks(s.table.InUse(), i)
    ensures Ready(t, i) && SameShape(s, t) && Reaches(s, t) && t.requestors == s.requestors
    ensures !t.table.flag && t.table.useTideA == !s.table.useTideA && t.table.InUse() == EMPTY_TIDES
  {
    t := FinishResponse(Apply(s, Respond));
    UndisturbedResponse(s);
    ReachesNext(s, Respond);
    ReachesFinishedResponse(Apply(s, Respond));
    ReachesOn(s, Apply(s, Respond), t);
  }

  lemma RestIsLosable(s: State, i: nat)
    requires Ready(s, i) && AtRest(s) && !Marks(s.table.InUse(), i)
    ensures Losable(s, i)
  {
    if s.table.flag {
      var t := ResponsePassesBy(s, i);
      assert Lost(t, i);
    } else {
      ReachesItself(s);
      assert Lost(s, i);
    }
  }

  /** From there: those on the idle side mark and raise the flag, a response clears their marks away;
      those on the other side are overtaken by it and lose theirs to the next one. */
  lemma ReadyIsLosable(s: State, i: nat)
    requires Ready(s, i) && !Marks(s.table.InUse(), i)
    requires s.table.flag || exists r :: 0 <= r < |s.requestors| && Inside(s.requestors[r], !s.table.useTideA)
    ensures Losable(s, i)
  {
    var n := |s.requestors|;
    var s1 := FinishSide(s, !s.table.useTideA, n, i);
    var s2 := ResponsePassesBy(s1, i);
    ReachesOn(s, s1, s2);
    var s3 := FinishSide(s2, !s2.table.useTideA, n, i);
    ReachesOn(s, s2, s3);
    assert AtRest(s3);
    RestIsLosable(s3, i);
    var t :| Reaches(s3, t) && Lost(t, i);
    ReachesOn(s, s3, t);
  }

  lemma LosableLater(s: State, u: State, i: int)
    requires Valid(s) && Valid(u) && Reaches(s, u) && Losable(u, i)
    ensures Losable(s, i)
  {
    var v :| Reaches(u, v) && Lost(v, i);
    ReachesOn(s, u, v);
  }

  /** Everybody moves up to a window, and the response in progress passes by. */
  lemma PassedBy(s: State, i: nat) returns (t: State, u: State)
    requires Valid(s) && Deciding(s.vm) && i < s.limit && Adding(i) !in s.requestors
    requires s.table.Pending(i) && !Drained(s, i)
    ensures MovedUp(s, t, i) && Gathered(t, |t.requestors|)
    ensures Ready(u, i) && SameShape(s, u) && Reaches(s, u)
    ensures u.requestors == t.requestors && u.table.flag == t.table.flag
    ensures u.table.useTideA == !DrainsA(s) && u.table.InUse() == Fresh(s)
  {
    t := Gather(s, |s.requestors|, i);
    u := FinishResponse(t);
    PassesBy(t, i);
    ReachesFinishedResponse(t);
    ReachesOn(s, t, u);
  }

  lemma UnmarkedIsLosable(s: State, i: nat)
    requires Valid(s) && Deciding(s.vm) && Again(s) && i < s.limit && Adding(i) !in s.requestors
    requires s.table.Pending(i) && !Drained(s, i) && !Marks(Fresh(s), i)
    ensures Losable(s, i)
  {
    var t, u := PassedBy(s, i);
    if !u.table.flag {
      var r :| 0 <= r < |t.requestors| && BringsAnother(t, t.requestors[r]);
      assert Inside(u.requestors[r], !u.table.useTideA);
    }
    ReadyIsLosable(u, i);
    LosableLater(s, u, i);
  }

  lemma {:induction false} FinishRequestMarks(s: State, r: nat, sideA: bool)
    requires Valid(s) && r < |s.requestors| && OnSide(s.requestors[r], sideA)
    ensures FinishRequest(s, r).table.Pair(sideA) == MarkedBy(s.table.Pair(sideA), s.requestors[r])
    decreases RequestorLeft(s.table, s.requestors[r])
  {
    if !s.requestors[r].Resting? {
      AdvanceDescends(s, r);
      AdvanceStaysOnSide(s, r, sideA);
      AdvanceHeadsForSame(s, r, sideA);
      FinishRequestMarks(Apply(s, Advance(r)), r, sideA);
    }
  }

  /** Nobody brings another response but by marking; one who leaves slot `i` out does so first. */
  lemma LeftOutIsLosable(s: State, r: nat, i: nat)
    requires Valid(s) && Deciding(s.vm) && !Again(s) && i < s.limit && Adding(i) !in s.requestors
    requires s.table.Pending(i) && !Drained(s, i)
    requires r < |s.requestors| && LeavesOut(s, s.requestors[r], i)
    ensures Losable(s, i)
  {
    var t, u := PassedBy(s, i);
    assert SameMarksAhead(s, s.requestors[r], t.requestors[r]);
    assert !BringsAnother(t, t.requestors[r]);
    assert Inside(u.requestors[r], u.table.useTideA);
    var v := FinishRequest(u, r);
    FinishInside(u, r, i);
    FinishRequestMarks(u, r, u.table.useTideA);
    ReadyIsLosable(v, i);
    LosableLater(u, v, i);
    LosableLater(s, u, i);
  }

  /** Nobody is there to bring another response. */
  lemma AbandonedIsLosable(s: State, i: nat)
    requires Valid(s) && Deciding(s.vm) && AtRest(s) && !s.table.flag && i < s.limit
    requires s.table.Pending(i) && !Drained(s, i)
    ensures Losable(s, i)
  {
    PassesBy(s, i);
    ReachesFinishedResponse(s);
    assert Lost(FinishResponse(s), i);
  }

  lemma OpenIsLosable(s: State, i: nat)
    requires Valid(s) && Deciding(s.vm) && i < s.limit && Adding(i) !in s.requestors
    requires s.table.Pending(i) && !Drained(s, i) && Open(s, i)
    ensures Losable(s, i)
  {
    if Again(s) {
      UnmarkedIsLosable(s, i);
    } else if AtRest(s) {
      AbandonedIsLosable(s, i);
    } else {
      var r :| 0 <= r < |s.requestors| && LeavesOut(s, s.requestors[r], i);
      LeftOutIsLosable(s, r, i);
    }
  }

  lemma ClosedIsSafe(s: State, i: nat)
    requires Valid(s) && Deciding(s.vm) && Adding(i) !in s.requestors
    requires !s.table.Pending(i) || Drained(s, i) || !Open(s, i)
    ensures Secured(s, i) || Guarded(s, i)
  {
    if s.table.Pending(i) && !Drained(s, i) {
      if Again(s) {
        if !s.table.flag {
          var r :| 0 <= r < |s.requestors| && BringsAnother(s, s.requestors[r]);
          assert !s.requestors[r].Resting?;
        }
      } else {
        forall r | 0 <= r < |s.requestors| ensures GuardedBy(s, s.requestors[r], i) {
          assert !BringsAnother(s, s.requestors[r]) && !LeavesOut(s, s.requestors[r], i);
        }
      }
    }
  }

  /** A response is about to toggle, or has not read all of the retired marks. Over all ways to go on from
      there until everybody rests, with no further calls: some of them leave slot `i` unanswered for good
      exactly when it is pending, the response in progress does not drain it, and the next response can
      come about, if at all, without it. */
  lemma CaughtInTheWindow(s: State, i: nat)
    requires Valid(s) && Deciding(s.vm) && i < s.limit && Adding(i) !in s.requestors
    ensures Losable(s, i) <==> s.table.Pending(i) && !Drained(s, i) && Open(s, i)
  {
    if s.table.Pending(i) && !Drained(s, i) && Open(s, i) {
      OpenIsLosable(s, i);
    } else {
      ClosedIsSafe(s, i);
      if Secured(s, i) { SecuredIsNotLosable(s, i); } else { GuardedIsNotLosable(s, i); }
    }
  }

  /** So every catch at a fetch can cost the request, unless others have marked its slot for the
      next response; and an unmarked requestor overtaken by a tidy toggle can be caught. */
  lemma CaughtCanBeLost(s: State, r: nat)
    requires Valid(s) && r < |s.requestors| && s.requestors[r].InWindow() && Adding(s.requestors[r].i) !in s.requestors
    requires (s.vm.Fetching() && Caught(s, s.requestors[r]) && !Marks(s.table.InUse(), s.requestors[r].i)) ||
             (s.vm.Toggling? && Tidy(s) && Unmarked(s, s.requestors[r]) && s.requestors[r].i < s.limit)
    ensures Losable(s, s.requestors[r].i)
  {
    assert BringsAnother(s, s.requestors[r]);
    UnmarkedIsLosable(s, s.requestors[r].i);
  }

  // ----- a run from the start in which this happens

  ghost function Start(): State {
    State(Table([0, 0], [0, 0], EMPTY_TIDES, EMPTY_TIDES, true, false), [0, 0], [0, 0],
          [Resting, Resting], Polling, 2)
  }

  /** Slot 0 signalled, the response to it about to toggle, slot 1 asked for in its window. */
  ghost function Stranded(): State {
    State(Table([1, 1], [0, 0], Tides(0, 0), EMPTY_TIDES, true, false), [1, 1], [0, 0],
          [Resting, ReadingLow(1, true)], Toggling, 2)
  }

  ghost function Requested0(): State {
    Start().(table := Table([1, 0], [0, 0], Tides(0, 0), EMPTY_TIDES, true, true), accepted := [1, 0])
  }

  lemma RequestSlot0() returns (steps: seq<Step>)
    ensures Valid(Start()) && Allowed(Start(), steps) && Run(Start(), steps) == Requested0()
  {
    var s := Start();
    UndisturbedRequest(s, 0, 1);
    var signal := FinishRequestIsARun(Apply(s, Call(0, 1)), 0);
    steps := [Call(0, 1)] + signal;
  }

  lemma RespondUpToToggle() returns (steps: seq<Step>)
    ensures Valid(Requested0()) && Allowed(Requested0(), steps)
    ensures Run(Requested0(), steps) ==
            Requested0().(table := Requested0().table.(flag := false), vm := Toggling)
  {
    var s := Requested0();
    var s1 := Apply(s, Respond);
    var s2 := Apply(s1, Respond);
    var s3 := Apply(s2, Respond);
    var s4 := Apply(s3, Respond);
    assert Run(s4, []) == s4;
    assert Allowed(s3, [Respond]) && Run(s3, [Respond]) == s4;
    assert Allowed(s2, [Respond, Respond]) && Run(s2, [Respond, Respond]) == s4;
    assert Allowed(s1, [Respond, Respond, Respond]) && Run(s1, [Respond, Respond, Respond]) == s4;
    steps := [Respond, Respond, Respond, Respond];
  }

  lemma RequestSlot1(s: State) returns (steps: seq<Step>)
    requires Valid(s) && s == Requested0().(table := Requested0().table.(flag := false), vm := Toggling)
    ensures Allowed(s, steps) && Run(s, steps) == Stranded()
  {
    var s1 := Apply(s, Call(1, 2));
    var s2 := Apply(s1, Advance(1));
    var s3 := Apply(s2, Advance(1));
    assert Run(s3, []) == s3;
    assert Allowed(s2, [Advance(1)]) && Run(s2, [Advance(1)]) == s3;
    assert Allowed(s1, [Advance(1), Advance(1)]) && Run(s1, [Advance(1), Advance(1)]) == s3;
    steps := [Call(1, 2), Advance(1), Advance(1)];
  }

  lemma ReachStranded() returns (steps: seq<Step>)
    ensures Valid(Start()) && Allowed(Start(), steps) && Run(Start(), steps) == Stranded()
  {
    var a := RequestSlot0();
    var b := RespondUpToToggle();
    RunAppend(Start(), a, b);
    var c := RequestSlot1(Run(Start(), a + b));
    RunAppend(Start(), a + b, c);
    steps := a + b + c;
  }

  /** A loss after a run from the start is the end of a run from the start. */
  lemma LossIsARun(s: State, steps: seq<Step>, c: State, i: nat) returns (longer: seq<Step>)
    requires Valid(s) && Allowed(s, steps) && Run(s, steps) == c && Losable(c, i)
    ensures Allowed(s, longer) && Lost(Run(s, longer), i)
  {
    var t :| Reaches(c, t) && Lost(t, i);
    var more :| Allowed(c, more) && CallFree(more) && Run(c, more) == t;
    RunAppend(s, steps, more);
    longer := steps + more;
  }

  lemma StrandedIsLosable()
    ensures Valid(Stranded()) && Losable(Stranded(), 1)
  {
    CaughtCanBeLost(Stranded(), 1);
  }

  /** "No signal is lost" is false without the timing assumption: a run from the start that ends
      with everybody at rest, the flag down, and an accepted request never answered. */
  lemma SignalsCanBeLost() returns (s: State, steps: seq<Step>)
    ensures Initial(s) && Allowed(s, steps) && s.limit == 2
    ensures Lost(Run(s, steps), 1)
  {
    s := Start();
    StrandedIsLosable();
    var a := ReachStranded();
    steps := LossIsARun(s, a, Stranded(), 1);
  }
}
