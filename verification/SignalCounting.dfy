/** Never over-signalled, in every interleaving, and what the 16-bit counters still say about
    the unbounded totals. */
module SignalCounting {
  import opened SignalTable
  import opened SignalProtocol

  ghost predicate CountedAt(s: State, i: nat)
    requires Valid(s) && i < |s.accepted|
  {
    && s.signalled[i] <= s.accepted[i]
    && (s.vm.Signalling? && s.vm.i == i ==> s.signalled[i] < s.accepted[i])
    && s.table.requests[i] == s.accepted[i] % COUNTER_RANGE
    && (var unanswered := if s.vm.Bumping? && s.vm.i == i then 1 else 0;
        && unanswered <= s.signalled[i]
        && s.table.responses[i] == (s.signalled[i] - unanswered) % COUNTER_RANGE)
  }

  /** The 16-bit counters are the unbounded totals modulo 65536 (a response is counted one
      step after its semaphore is signalled), and no semaphore was signalled unasked. */
  ghost predicate Counted(s: State)
    requires Valid(s)
  {
    forall i :: 0 <= i < |s.accepted| ==> CountedAt(s, i)
  }

  lemma BumpIsSuccessor(n: nat)
    ensures Bump(n % COUNTER_RANGE) == (n + 1) % COUNTER_RANGE
  {
  }

  lemma RequestorKeepsCounted(s: State, step: Step, i: nat)
    requires Valid(s) && Enabled(s, step) && !step.Respond? && i < |s.accepted| && CountedAt(s, i)
    ensures CountedAt(Apply(s, step), i)
  {
    BumpIsSuccessor(s.accepted[i]);
  }

  lemma ResponderKeepsCounted(s: State, i: nat)
    requires Valid(s) && i < |s.accepted| && CountedAt(s, i)
    ensures CountedAt(Apply(s, Respond), i)
  {
    if s.signalled[i] > 0 { BumpIsSuccessor(s.signalled[i] - 1); }
  }

  lemma StepKeepsCounted(s: State, step: Step)
    requires Valid(s) && Counted(s) && Enabled(s, step)
    ensures Counted(Apply(s, step))
  {
    forall i | 0 <= i < |s.accepted| ensures CountedAt(Apply(s, step), i) {
      if step.Respond? { ResponderKeepsCounted(s, i); } else { RequestorKeepsCounted(s, step, i); }
    }
  }

  lemma {:induction false} RunKeepsCounted(s: State, steps: seq<Step>)
    requires Valid(s) && Counted(s) && Allowed(s, steps)
    ensures Counted(Run(s, steps))
    decreases |steps|
  {
    if steps != [] {
      StepKeepsCounted(s, steps[0]);
      RunKeepsCounted(Apply(s, steps[0]), steps[1..]);
    }
  }

  /** Safety over every run: a semaphore is never signalled more often than it was asked for,
      whatever the interleaving and however often the counters wrap. */
  lemma NeverOverSignalled(s: State, steps: seq<Step>, i: nat)
    requires Initial(s) && Allowed(s, steps) && i < |s.accepted|
    ensures Run(s, steps).signalled[i] <= Run(s, steps).accepted[i]
    ensures Counted(Run(s, steps))
  {
    RunKeepsCounted(s, steps);
    assert CountedAt(Run(s, steps), i);
  }

  /** Equal 16-bit counters mean totals that agree modulo 65536, and exactly equal totals
      as long as the backlog fits the counter. */
  lemma DrainedMeansAnswered(s: State, i: nat)
    requires Valid(s) && Counted(s) && i < |s.accepted| && !(s.vm.Bumping? && s.vm.i == i)
    ensures !s.table.Pending(i) <==> s.accepted[i] % 65536 == s.signalled[i] % 65536
    ensures s.accepted[i] < s.signalled[i] + 65536 ==>
              (!s.table.Pending(i) <==> s.signalled[i] == s.accepted[i])
  {
    assert CountedAt(s, i);
    if s.accepted[i] % COUNTER_RANGE == s.signalled[i] % COUNTER_RANGE {
      var d := s.accepted[i] - s.signalled[i];
      assert d == COUNTER_RANGE * (s.accepted[i] / COUNTER_RANGE - s.signalled[i] / COUNTER_RANGE);
    }
  }

  /** The bound is needed: a backlog of exactly 65536 looks drained. */
  lemma BacklogOf65536LooksDrained(s: State, i: nat)
    requires Valid(s) && Counted(s) && i < |s.accepted| && !(s.vm.Bumping? && s.vm.i == i)
    requires s.accepted[i] == s.signalled[i] + 65536
    ensures !s.table.Pending(i)
  {
    assert CountedAt(s, i);
  }
}
