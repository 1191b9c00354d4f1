/** A backlog the 16-bit counters cannot tell from none. */
module SignalOverflow {
  import opened SignalTable
  import opened SignalProtocol
  import opened SignalProgress
  import opened SignalLoss

  /** Slot `i` has been asked for `n` times, nobody else, and the responder has not moved. */
  ghost predicate AskedFor(s: State, t: State, i: nat, n: nat)
    requires Valid(s) && Valid(t)
  {
    && SameShape(s, t) && AtRest(t) && t.vm.Polling? && i < |s.accepted|
    && t.accepted == s.accepted[i := n] && t.signalled == s.signalled
    && t.table.responses == s.table.responses
    && t.table.requests == s.table.requests[i := n % COUNTER_RANGE]
    && (t.table.flag <==> n > 0)
  }

  /** One whole signal, as a run. */
  lemma SignalRuns(s: State, r: nat, index: int) returns (steps: seq<Step>)
    requires Valid(s) && Enabled(s, Call(r, index))
    ensures Allowed(s, steps) && Run(s, steps) == FinishRequest(Apply(s, Call(r, index)), r)
  {
    var finish := FinishRequestIsARun(Apply(s, Call(r, index)), r);
    steps := [Call(r, index)] + finish;
    assert steps[1..] == finish;
  }

  lemma OneMoreAskedFor(s: State, t: State, u: State, i: nat, n: nat)
    requires Valid(s) && Valid(t) && Valid(u) && AskedFor(s, t, i, n)
    requires u == t.(table := Requested(t.table, i), accepted := t.accepted[i := t.accepted[i] + 1])
    ensures AskedFor(s, u, i, n + 1)
  {
    assert t.table.requests[i := Bump(n % COUNTER_RANGE)] == s.table.requests[i := (n + 1) % COUNTER_RANGE];
    assert u.accepted == s.accepted[i := n + 1];
  }

  lemma SignalOnce(t: State, i: nat) returns (u: State)
    requires Valid(t) && i < |t.accepted| && Enabled(t, Call(0, i + 1))
    ensures Valid(u) && u == FinishRequest(Apply(t, Call(0, i + 1)), 0)
    ensures u == t.(table := Requested(t.table, i), accepted := t.accepted[i := t.accepted[i] + 1])
  {
    u := FinishRequest(Apply(t, Call(0, i + 1)), 0);
    UndisturbedRequest(t, 0, i + 1);
  }

  lemma AskOnce(s: State, t: State, i: nat, n: nat) returns (steps: seq<Step>)
    requires Valid(s) && Valid(t) && AskedFor(s, t, i, n) && |t.requestors| > 0
    ensures Allowed(t, steps) && AskedFor(s, Run(t, steps), i, n + 1)
  {
    var u := SignalOnce(t, i);
    OneMoreAskedFor(s, t, u, i, n);
    steps := SignalRuns(t, 0, i + 1);
  }

  /** From the start any backlog can be reached, by calls made while the responder stands still. */
  lemma {:induction false} BacklogOf(s: State, i: nat, n: nat) returns (steps: seq<Step>)
    requires Initial(s) && i < |s.accepted| && |s.requestors| > 0
    ensures Allowed(s, steps) && AskedFor(s, Run(s, steps), i, n)
    decreases n
  {
    if n == 0 {
      steps := [];
      assert s.accepted[i := 0] == s.accepted && s.table.requests[i := 0] == s.table.requests;
    } else {
      var before := BacklogOf(s, i, n - 1);
      var once := AskOnce(s, Run(s, before), i, n - 1);
      RunAppend(s, before, once);
      steps := before + once;
    }
  }

  /** With a backlog of exactly 65536 nothing looks pending any more, and the response that follows
      signals nothing: 65536 accepted requests are never answered. */
  lemma BacklogIsForgotten(s: State, i: nat) returns (steps: seq<Step>)
    requires Initial(s) && i < |s.accepted| && |s.requestors| > 0
    ensures Allowed(s, steps)
    ensures var t := Run(s, steps);
            && AtRest(t) && t.accepted[i] == 65536 && t.signalled[i] == 0
            && (forall j :: !t.table.Pending(j))
            && Settle(t).signalled[i] == 0 && !Settle(t).table.flag
            && (forall j :: !Settle(t).table.Pending(j))
  {
    steps := BacklogOf(s, i, COUNTER_RANGE);
    var t := Run(s, steps);
    assert FinishResponse(t) == t;
    UndisturbedResponse(t);
  }
}
