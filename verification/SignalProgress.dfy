/** The responder gets everything answered once the requestors are at rest, and what the
    machine does undisturbed is what the one-step descriptions in `SignalTable` say. */
module SignalProgress {
  import opened SignalTable
  import opened SignalProtocol
  import opened SignalCounting
  import opened SignalCoverage

  // ----- one requestor alone

  /** How far a requestor running alone is from rest. */
  ghost function RequestorLeft(t: Table, q: Requestor): nat {
    match q
    case Adding(_) => 12
    case Choosing(_) => 11
    case ReadingLow(i, sideA) => if t.Pair(sideA).low > i then 9 else 7
    case SwappingLow(i, sideA, v) => if t.Pair(sideA).low == v then 8 else 10
    case ReadingHigh(i, sideA) => if t.Pair(sideA).high < i then 4 else 2
    case SwappingHigh(i, sideA, v) => if t.Pair(sideA).high == v then 3 else 5
    case Flagging(_) => 1
    case Resting => 0
  }

  lemma AdvanceDescends(s: State, r: nat)
    requires Valid(s) && Enabled(s, Advance(r))
    ensures var s' := Apply(s, Advance(r));
            && |s'.requestors| == |s.requestors|
            && RequestorLeft(s'.table, s'.requestors[r]) < RequestorLeft(s.table, s.requestors[r])
  {
  }

  /** Requestor `r` alone runs to the end of its signal: no lock can hold it up. */
  ghost function FinishRequest(s: State, r: nat): (s': State)
    requires Valid(s) && r < |s.requestors|
    ensures Valid(s') && SameShape(s, s') && s'.requestors[r].Resting?
    decreases RequestorLeft(s.table, s.requestors[r])
  {
    if s.requestors[r].Resting? then s
    else
      AdvanceDescends(s, r);
      FinishRequest(Apply(s, Advance(r)), r)
  }

  lemma FinishFromFlag(s: State, r: nat)
    requires Valid(s) && r < |s.requestors| && s.requestors[r].Flagging?
    ensures FinishRequest(s, r) == s.(table := s.table.(flag := true), requestors := s.requestors[r := Resting])
  {
    var s1 := Apply(s, Advance(r));
    assert FinishRequest(s1, r) == s1;
  }

  lemma RaiseFirst(s: State, r: nat, i: nat) returns (s': State)
    requires Valid(s) && r < |s.requestors| && s.requestors[r] == ReadingHigh(i, s.table.useTideA)
    ensures var p := s.table.InUse();
            s' == s.(table := s.table.WithPair(s.table.useTideA, p.(high := Max(p.high, i))),
                     requestors := s.requestors[r := Flagging(i)])
    ensures Valid(s') && FinishRequest(s, r) == FinishRequest(s', r)
  {
    s' := Apply(s, Advance(r));
    if s.table.InUse().high < i {
      var s2 := Apply(s', Advance(r));
      assert FinishRequest(s', r) == FinishRequest(s2, r);
      s' := Apply(s2, Advance(r));
      assert FinishRequest(s2, r) == FinishRequest(s', r);
    }
  }

  lemma FinishFromHigh(s: State, r: nat, i: nat)
    requires Valid(s) && r < |s.requestors| && s.requestors[r] == ReadingHigh(i, s.table.useTideA)
    ensures var p := s.table.InUse();
            FinishRequest(s, r) ==
              s.(table := s.table.WithPair(s.table.useTideA, p.(high := Max(p.high, i))).(flag := true),
                 requestors := s.requestors[r := Resting])
  {
    var s1 := RaiseFirst(s, r, i);
    FinishFromFlag(s1, r);
  }

  lemma LowerFirst(s: State, r: nat, i: nat) returns (s': State)
    requires Valid(s) && r < |s.requestors| && s.requestors[r] == ReadingLow(i, s.table.useTideA)
    ensures var p := s.table.InUse();
            s' == s.(table := s.table.WithPair(s.table.useTideA, p.(low := Min(p.low, i))),
                     requestors := s.requestors[r := ReadingHigh(i, s.table.useTideA)])
    ensures Valid(s') && FinishRequest(s, r) == FinishRequest(s', r)
  {
    s' := Apply(s, Advance(r));
    if s.table.InUse().low > i {
      var s2 := Apply(s', Advance(r));
      assert FinishRequest(s', r) == FinishRequest(s2, r);
      s' := Apply(s2, Advance(r));
      assert FinishRequest(s2, r) == FinishRequest(s', r);
    }
  }

  lemma FinishFromLow(s: State, r: nat, i: nat)
    requires Valid(s) && r < |s.requestors| && s.requestors[r] == ReadingLow(i, s.table.useTideA)
    ensures var p := s.table.InUse();
            FinishRequest(s, r) ==
              s.(table := s.table.WithPair(s.table.useTideA, Tides(Min(p.low, i), Max(p.high, i))).(flag := true),
                 requestors := s.requestors[r := Resting])
  {
    var s1 := LowerFirst(s, r, i);
    FinishFromHigh(s1, r, i);
  }

  /** The interleaved steps of one signal, run without interference, have the effect of
      `Requested`; an index outside the table has none. */
  lemma UndisturbedRequest(s: State, r: nat, index: int)
    requires Valid(s) && Enabled(s, Call(r, index))
    ensures var s' := FinishRequest(Apply(s, Call(r, index)), r);
            if 1 <= index <= |s.table.requests|
            then s' == s.(table := Requested(s.table, index - 1),
                          accepted := s.accepted[index - 1 := s.accepted[index - 1] + 1])
            else s' == s
  {
    if 1 <= index <= |s.table.requests| {
      var s1 := Apply(s, Call(r, index));
      var s2 := Apply(s1, Advance(r));
      var s3 := Apply(s2, Advance(r));
      FinishFromLow(s3, r, index - 1);
      assert FinishRequest(s2, r) == FinishRequest(s3, r);
      assert FinishRequest(s1, r) == FinishRequest(s2, r);
      assert s.requestors[r := Resting] == s.requestors;
    }
  }

  // ----- the responder alone

  ghost function ResponderLeft(vm: Responder): nat {
    match vm
    case Clearing => 9
    case EmptyingLow => 8
    case EmptyingHigh => 7
    case Toggling => 6
    case FetchingLow => 5
    case FetchingHigh(_) => 4
    case Scanning(_, _) => 3
    case Signalling(_, _) => 3
    case Bumping(_, _) => 3
    case Rechecking => 1
    case Polling => 0
  }

  ghost predicate InScan(vm: Responder) {
    vm.Scanning? || vm.Signalling? || vm.Bumping?
  }

  ghost function SlotsLeft(vm: Responder): int {
    if InScan(vm) then vm.high - vm.i + 1 else 0
  }

  ghost function BacklogLeft(s: State): nat
    requires Valid(s)
  {
    if !InScan(s.vm) || s.vm.i > s.vm.high then 0
    else
      var responses, requests := s.table.responses[s.vm.i], s.table.requests[s.vm.i];
      if s.vm.Scanning? then Distance(responses, requests) else 1 + Distance(Bump(responses), requests)
  }

  ghost function RoundLeft(vm: Responder): nat {
    if vm.Scanning? then 2 else if vm.Signalling? then 1 else 0
  }

  lemma RespondDescends(s: State)
    requires Valid(s) && !s.vm.Polling?
    ensures var s' := Apply(s, Respond);
            && ResponderLeft(s'.vm) <= ResponderLeft(s.vm)
            && (ResponderLeft(s'.vm) == ResponderLeft(s.vm) ==>
                  && 0 <= SlotsLeft(s'.vm) + 1 <= SlotsLeft(s.vm) + 1
                  && (SlotsLeft(s'.vm) == SlotsLeft(s.vm) ==>
                        && BacklogLeft(s') <= BacklogLeft(s)
                        && (BacklogLeft(s') == BacklogLeft(s) ==> RoundLeft(s'.vm) < RoundLeft(s.vm))))
  {
  }

  /** The responder alone finishes the call it is in. */
  ghost function FinishResponse(s: State): (s': State)
    requires Valid(s)
    ensures Valid(s') && SameShape(s, s') && s'.vm.Polling?
    decreases ResponderLeft(s.vm), SlotsLeft(s.vm) + 1, BacklogLeft(s), RoundLeft(s.vm)
  {
    if s.vm.Polling? then s
    else
      RespondDescends(s);
      FinishResponse(Apply(s, Respond))
  }

  lemma RespondFrame(s: State)
    requires Valid(s)
    ensures var s' := Apply(s, Respond);
            && s'.requestors == s.requestors && s'.accepted == s.accepted
            && s'.table.requests == s.table.requests
            && s'.table.flag == (s.table.flag && !s.vm.Clearing?)
            && (s'.vm.Clearing? ==> s.vm.Polling?)
  {
  }

  lemma {:induction false} FinishResponseFrame(s: State)
    requires Valid(s)
    ensures var s' := FinishResponse(s);
            && s'.requestors == s.requestors && s'.accepted == s.accepted
            && s'.table.requests == s.table.requests
            && s'.table.flag == (s.table.flag && !s.vm.Clearing?)
    decreases ResponderLeft(s.vm), SlotsLeft(s.vm) + 1, BacklogLeft(s), RoundLeft(s.vm)
  {
    if !s.vm.Polling? {
      RespondDescends(s);
      RespondFrame(s);
      FinishResponseFrame(Apply(s, Respond));
    }
  }

  /** The totals once slots `low..high` have been signalled as often as their counters lag. */
  ghost function Topped(s: State, low: int, high: int): seq<nat>
    requires Valid(s)
  {
    seq(|s.signalled|, i requires 0 <= i < |s.signalled| =>
      if low <= i <= high then s.signalled[i] + Distance(s.table.responses[i], s.table.requests[i])
      else s.signalled[i])
  }

  /** The state in which a scan of the rest of `s.vm`'s range ends. */
  ghost function Scanned(s: State): State
    requires Valid(s) && s.vm.Scanning?
  {
    s.(table := s.table.(responses := CaughtUp(s.table.requests, s.table.responses, s.vm.i, s.vm.high)),
       signalled := Topped(s, s.vm.i, s.vm.high),
       vm := Polling)
  }

  /** One round of the inner loop on a lagging slot. */
  ghost function SignalledOnce(s: State): State
    requires Valid(s) && s.vm.Scanning? && s.vm.i <= s.vm.high
  {
    var i := s.vm.i;
    s.(table := s.table.(responses := s.table.responses[i := Bump(s.table.responses[i])]),
       signalled := s.signalled[i := s.signalled[i] + 1])
  }

  lemma RoundRuns(s: State)
    requires Valid(s) && s.vm.Scanning? && s.vm.i <= s.vm.high && s.table.Pending(s.vm.i)
    ensures Valid(SignalledOnce(s)) && FinishResponse(s) == FinishResponse(SignalledOnce(s))
  {
    var s1 := Apply(s, Respond);
    var s2 := Apply(s1, Respond);
    var s3 := Apply(s2, Respond);
    assert s3 == SignalledOnce(s);
    assert FinishResponse(s2) == FinishResponse(s3);
    assert FinishResponse(s1) == FinishResponse(s2);
  }

  lemma RoundScans(s: State)
    requires Valid(s) && s.vm.Scanning? && s.vm.i <= s.vm.high && s.table.Pending(s.vm.i)
    requires Valid(SignalledOnce(s))
    ensures Scanned(s) == Scanned(SignalledOnce(s))
    ensures BacklogLeft(SignalledOnce(s)) < BacklogLeft(s)
  {
    var s' := SignalledOnce(s);
    assert Scanned(s).table.responses == Scanned(s').table.responses;
    assert Scanned(s).signalled == Scanned(s').signalled;
  }

  lemma SkipScans(s: State)
    requires Valid(s) && s.vm.Scanning? && s.vm.i <= s.vm.high && !s.table.Pending(s.vm.i)
    ensures Scanned(s) == Scanned(Apply(s, Respond))
  {
    var s' := Apply(s, Respond);
    assert Scanned(s).table.responses == Scanned(s').table.responses;
    assert Scanned(s).signalled == Scanned(s').signalled;
  }

  lemma EmptyScan(s: State)
    requires Valid(s) && s.vm.Scanning? && s.vm.i > s.vm.high
    ensures Scanned(s) == s.(vm := Polling)
  {
    assert Scanned(s).table.responses == s.table.responses;
    assert Scanned(s).signalled == s.signalled;
  }

  lemma EndScans(s: State)
    requires Valid(s) && s.vm.Scanning? && s.vm.i > s.vm.high
    ensures FinishResponse(s) == Scanned(s)
  {
    var s1 := Apply(s, Respond);
    var s2 := Apply(s1, Respond);
    assert FinishResponse(s) == FinishResponse(s1) == FinishResponse(s2) == s2;
    EmptyScan(s);
  }

  lemma {:induction false} FinishScan(s: State)
    requires Valid(s) && s.vm.Scanning?
    ensures FinishResponse(s) == Scanned(s)
    decreases SlotsLeft(s.vm) + 1, BacklogLeft(s)
  {
    if s.vm.i > s.vm.high {
      EndScans(s);
    } else if s.table.Pending(s.vm.i) {
      RoundRuns(s);
      RoundScans(s);
      FinishScan(SignalledOnce(s));
    } else {
      SkipScans(s);
      FinishScan(Apply(s, Respond));
    }
  }

  /** A response up to its toggle ... */
  lemma ReachToggle(s: State) returns (s': State)
    requires Valid(s) && s.vm.Clearing?
    ensures s' == s.(table := s.table.(flag := false).WithPair(!s.table.useTideA, EMPTY_TIDES), vm := Toggling)
    ensures Valid(s') && FinishResponse(s) == FinishResponse(s')
  {
    var s1 := Apply(s, Respond);
    var s2 := Apply(s1, Respond);
    s' := Apply(s2, Respond);
    assert FinishResponse(s) == FinishResponse(s1) == FinishResponse(s2) == FinishResponse(s');
  }

  /** ... and on to its scan. */
  lemma ReachScan(s: State) returns (s': State)
    requires Valid(s) && s.vm.Toggling?
    ensures var p := s.table.InUse();
            s' == s.(table := s.table.(useTideA := !s.table.useTideA),
                     vm := Scanning(p.low, LastScanned(p.high, s.limit)))
    ensures Valid(s') && FinishResponse(s) == FinishResponse(s')
  {
    var s1 := Apply(s, Respond);
    var s2 := Apply(s1, Respond);
    s' := Apply(s2, Respond);
    assert FinishResponse(s) == FinishResponse(s1) == FinishResponse(s2) == FinishResponse(s');
  }

  /** The steps of one response, run without interference, have the effect of `Responded`. */
  lemma UndisturbedResponse(s: State)
    requires Valid(s) && s.vm.Polling? && s.table.flag
    ensures var (low, high) := (s.table.InUse().low, LastScanned(s.table.InUse().high, s.limit));
            FinishResponse(Apply(s, Respond)) ==
              s.(table := Responded(s.table, s.limit), signalled := Topped(s, low, high))
  {
    var s0 := ReachToggle(Apply(s, Respond));
    var s1 := ReachScan(s0);
    FinishScan(s1);
    assert Topped(s1, s1.vm.i, s1.vm.high) == Topped(s, s1.vm.i, s1.vm.high);
  }

  /** What `FinishResponse` reaches is reached by steps of the machine. */
  lemma {:induction false} FinishResponseIsARun(s: State) returns (steps: seq<Step>)
    requires Valid(s)
    ensures Allowed(s, steps) && Run(s, steps) == FinishResponse(s)
    ensures forall k :: 0 <= k < |steps| ==> steps[k] == Respond
    decreases ResponderLeft(s.vm), SlotsLeft(s.vm) + 1, BacklogLeft(s), RoundLeft(s.vm)
  {
    steps := [];
    if !s.vm.Polling? {
      RespondDescends(s);
      var rest := FinishResponseIsARun(Apply(s, Respond));
      steps := [Respond] + rest;
    }
  }

  /** With nobody on its way to slot `i` nothing can be caught there, wherever the others stand. */
  lemma NobodyToCatch(s: State, i: int)
    requires Valid(s) && !Underway(s, i)
    ensures TimelyFor(s, Respond, i)
  {
  }

  lemma {:induction false} FinishResponseKeeps(s: State, i: int)
    requires Valid(s) && !Underway(s, i) && Kept(s, i) && 0 <= i < s.limit
    ensures Kept(FinishResponse(s), i) && !Underway(FinishResponse(s), i)
    decreases ResponderLeft(s.vm), SlotsLeft(s.vm) + 1, BacklogLeft(s), RoundLeft(s.vm)
  {
    if !s.vm.Polling? {
      RespondDescends(s);
      RespondFrame(s);
      NobodyToCatch(s, i);
      StepKeeps(s, Respond, i);
      FinishResponseKeeps(Apply(s, Respond), i);
    }
  }

  lemma {:induction false} FinishResponseKeepsCounted(s: State)
    requires Valid(s) && Counted(s)
    ensures Counted(FinishResponse(s))
    decreases ResponderLeft(s.vm), SlotsLeft(s.vm) + 1, BacklogLeft(s), RoundLeft(s.vm)
  {
    if !s.vm.Polling? {
      RespondDescends(s);
      StepKeepsCounted(s, Respond);
      FinishResponseKeepsCounted(Apply(s, Respond));
    }
  }

  /** The call in progress, if any, and one more call if the flag is still up. */
  ghost function Settle(s: State): State
    requires Valid(s)
  {
    var s' := FinishResponse(s);
    if s'.table.flag then FinishResponse(Apply(s', Respond)) else s'
  }

  /** Every timely continuation, further signals included, that comes to rest with the flag down has
      answered everything below the limit. */
  lemma TimelyIsAnswered(s: State, steps: seq<Step>)
    requires Valid(s) && NoneLost(s) && Allowed(s, steps) && AllTimely(s, steps)
    requires var t := Run(s, steps); AtRest(t) && t.vm.Polling? && !t.table.flag
    ensures forall i :: 0 <= i < s.limit ==> !Run(s, steps).table.Pending(i)
  {
    RunKeepsNoneLost(s, steps);
    var t := Run(s, steps);
    forall i | 0 <= i < s.limit ensures !t.table.Pending(i) {
      assert Kept(t, i);
      PollingSeesAll(t, i);
    }
  }

  lemma {:induction false} FinishResponseOnlyAdds(s: State, i: nat)
    requires Valid(s) && i < |s.signalled|
    ensures s.signalled[i] <= FinishResponse(s).signalled[i]
    decreases ResponderLeft(s.vm), SlotsLeft(s.vm) + 1, BacklogLeft(s), RoundLeft(s.vm)
  {
    if !s.vm.Polling? {
      RespondDescends(s);
      FinishResponseOnlyAdds(Apply(s, Respond), i);
    }
  }

  lemma SettleOnlyAdds(s: State, i: nat)
    requires Valid(s) && i < |s.signalled|
    ensures s.signalled[i] <= Settle(s).signalled[i]
  {
    FinishResponseOnlyAdds(s, i);
    var s1 := FinishResponse(s);
    if s1.table.flag {
      FinishResponseOnlyAdds(Apply(s1, Respond), i);
    }
  }

  lemma SettleFrame(s: State)
    requires Valid(s)
    ensures var s' := Settle(s);
            && Valid(s') && SameShape(s, s') && s'.vm.Polling? && !s'.table.flag
            && s'.accepted == s.accepted && s'.requestors == s.requestors
  {
    var s1 := FinishResponse(s);
    FinishResponseFrame(s);
    if s1.table.flag {
      RespondFrame(s1);
      FinishResponseFrame(Apply(s1, Respond));
    }
  }

  lemma SettleKeepsCounted(s: State)
    requires Valid(s) && Counted(s)
    ensures Counted(Settle(s))
  {
    var s1 := FinishResponse(s);
    FinishResponseKeepsCounted(s);
    if s1.table.flag {
      StepKeepsCounted(s1, Respond);
      FinishResponseKeepsCounted(Apply(s1, Respond));
    }
  }

  /** Lock freedom: a request whose call has returned is answered by the rest of the current response and
      at most one more, all other requestors stalled anywhere. */
  lemma AnsweredAlone(s: State, i: int)
    requires Valid(s) && Kept(s, i) && !Underway(s, i) && 0 <= i < s.limit
    ensures !Settle(s).table.Pending(i)
  {
    var s1 := FinishResponse(s);
    FinishResponseKeeps(s, i);
    if s1.table.flag {
      RespondFrame(s1);
      NobodyToCatch(s1, i);
      StepKeeps(s1, Respond, i);
      FinishResponseKeeps(Apply(s1, Respond), i);
    }
    SettleFrame(s);
    PollingSeesAll(Settle(s), i);
  }

  /** With a backlog that fits the counter, every accepted request has then been signalled, exactly once. */
  lemma BacklogIsAnswered(s: State, i: nat)
    requires Valid(s) && Counted(s) && Kept(s, i) && !Underway(s, i) && i < s.limit && i < |s.accepted|
    requires s.accepted[i] < s.signalled[i] + 65536
    ensures Settle(s).signalled[i] == s.accepted[i]
  {
    SettleFrame(s);
    SettleKeepsCounted(s);
    AnsweredAlone(s, i);
    SettleOnlyAdds(s, i);
    DrainedMeansAnswered(Settle(s), i);
  }

  /** One response signals a semaphore fewer than 65536 times. */
  lemma SettleAddsLess(s: State, i: nat)
    requires Valid(s) && s.vm.Polling? && i < |s.signalled|
    ensures Settle(s).signalled[i] < s.signalled[i] + 65536
  {
    assert FinishResponse(s) == s;
    if s.table.flag {
      UndisturbedResponse(s);
    }
  }

  /** The exact condition: between responses, with nobody on its way to slot `i`, the next response
      answers every accepted request for it if and only if the backlog is below 65536. */
  lemma AnsweredExactlyWhen(s: State, i: nat)
    requires Valid(s) && Counted(s) && s.vm.Polling? && Kept(s, i) && !Underway(s, i)
    requires i < s.limit && i < |s.accepted|
    ensures Settle(s).signalled[i] == s.accepted[i] <==> s.accepted[i] < s.signalled[i] + 65536
  {
    SettleAddsLess(s, i);
    if s.accepted[i] - s.signalled[i] < COUNTER_RANGE {
      BacklogIsAnswered(s, i);
    }
  }

  /** Progress: once the requestors rest and nothing was lost, the rest of the current response
      and at most one more leave nothing pending below the limit; with backlogs that fit the
      counters, every accepted request has then been signalled, exactly once. */
  lemma BurstIsAnswered(s: State)
    requires Valid(s) && AtRest(s) && NoneLost(s) && Counted(s)
    ensures var s' := Settle(s);
            && s'.vm.Polling? && !s'.table.flag && s'.accepted == s.accepted
            && (forall i :: 0 <= i < s.limit ==> !s'.table.Pending(i))
            && (forall i :: 0 <= i < s.limit && i < |s.accepted| && s.accepted[i] < s.signalled[i] + 65536
                  ==> s'.signalled[i] == s.accepted[i])
  {
    var s' := Settle(s);
    SettleFrame(s);
    forall i | 0 <= i < s.limit ensures !s'.table.Pending(i) {
      assert Kept(s, i);
      AnsweredAlone(s, i);
    }
    forall i | 0 <= i < s.limit && i < |s.accepted| && s.accepted[i] - s.signalled[i] < COUNTER_RANGE
      ensures s'.signalled[i] == s.accepted[i]
    {
      assert Kept(s, i);
      BacklogIsAnswered(s, i);
    }
  }

  /** A finite burst of interrupting signals, then two responses: everything is answered. */
  lemma InterruptBurstIsAnswered(s: State, steps: seq<Step>)
    requires Initial(s) && Allowed(s, steps) && Interrupts(s, steps) && AtRest(Run(s, steps))
    ensures forall i :: 0 <= i < s.limit ==> !Settle(Run(s, steps)).table.Pending(i)
  {
    InterruptsLoseNothing(s, steps);
    RunKeepsCounted(s, steps);
    BurstIsAnswered(Run(s, steps));
  }

  /** The same for a burst of requestors interleaved access by access, with timely fetches. */
  lemma ConcurrentBurstIsAnswered(s: State, steps: seq<Step>)
    requires Initial(s) && Allowed(s, steps) && AllTimely(s, steps) && AtRest(Run(s, steps))
    ensures forall i :: 0 <= i < s.limit ==> !Settle(Run(s, steps)).table.Pending(i)
  {
    RunKeepsNoneLost(s, steps);
    RunKeepsCounted(s, steps);
    BurstIsAnswered(Run(s, steps));
  }
}
