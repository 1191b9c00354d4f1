/** The high-priority ticker: a table that never moves its entries, changed store by store while
    the heartbeat may strike between any two stores. */
module AsynchronousTicker {
  import opened Tickers

  const NUM_ASYNCHRONOUS_TICKEES: nat := 4

  datatype Slot = Slot(entry: Tickee, inProgress: bool)

  /** The first slot below `count` that holds the function, or `count`. */
  function FindFn(slots: seq<Slot>, count: nat, fn: nat): (k: nat)
    requires count <= |slots|
    ensures k <= count
    ensures k < count ==> slots[k].entry.fn == fn
    ensures forall j :: 0 <= j < k ==> slots[j].entry.fn != fn
  {
    if count == 0 then 0
    else
      var k := FindFn(slots, count - 1, fn);
      if k < count - 1 || slots[count - 1].entry.fn == fn then k else count
  }

  /** The slot a registration uses: that of the function, or else the first free one. */
  function ChooseSlot(slots: seq<Slot>, count: nat, fn: nat): (k: nat)
    requires count <= |slots|
    ensures k <= count
  {
    var k := FindFn(slots, count, fn);
    if k < count then k else FindFn(slots, count, 0)
  }

  lemma FindIs(slots: seq<Slot>, count: nat, fn: nat, k: nat)
    requires k <= count <= |slots| && (k < count ==> slots[k].entry.fn == fn)
    requires forall j :: 0 <= j < k ==> slots[j].entry.fn != fn
    ensures FindFn(slots, count, fn) == k
  {
  }

  /** A registration is refused: all four slots are counted, and each holds another function. */
  predicate Refused(slots: seq<Slot>, count: nat, fn: nat)
    requires |slots| == 4
  {
    count == 4 && forall i :: 0 <= i < 4 ==> slots[i].entry.fn != 0 && slots[i].entry.fn != fn
  }

  /** It lands in slot `k`: the function's own, or, if it has none, the lowest that is free or not
      counted. */
  predicate LandsIn(slots: seq<Slot>, count: nat, fn: nat, k: nat)
    requires count <= |slots| == 4
  {
    if k < count && slots[k].entry.fn == fn then forall j :: 0 <= j < k ==> slots[j].entry.fn != fn
    else
      && k < 4 && (forall i :: 0 <= i < count ==> slots[i].entry.fn != fn)
      && (k >= count || slots[k].entry.fn == 0) && (forall j :: 0 <= j < k ==> j < count && slots[j].entry.fn != 0)
  }

  lemma ChoiceLands(slots: seq<Slot>, count: nat, fn: nat)
    requires count <= |slots| == 4 && fn != 0
    ensures var k := ChooseSlot(slots, count, fn);
            if Refused(slots, count, fn) then k == 4 else LandsIn(slots, count, fn, k)
  {
    var own, free := FindFn(slots, count, fn), FindFn(slots, count, 0);
    if own < count {
      assert slots[own].entry.fn == fn && LandsIn(slots, count, fn, own);
    } else {
      assert forall i :: 0 <= i < count ==> slots[i].entry.fn != fn;
      if free < count {
        assert slots[free].entry.fn == 0 && LandsIn(slots, count, fn, free);
      } else if count < 4 {
        assert LandsIn(slots, count, fn, count);
      }
    }
  }

  /** There is only one slot it can land in. */
  lemma LandsInOne(slots: seq<Slot>, count: nat, fn: nat, k: nat, l: nat)
    requires count <= |slots| == 4 && fn != 0 && LandsIn(slots, count, fn, k) && LandsIn(slots, count, fn, l)
    ensures k == l && !Refused(slots, count, fn)
  {
    assert k < 4 && l < 4;
    var a, b := slots[k].entry.fn, slots[l].entry.fn;
    assert k < l ==> a != fn;
    assert l < k ==> b != fn;
  }

  // ----- the heartbeat

  predicate Fires(s: Slot, now: nat) {
    s.entry.fn != 0 && !s.inProgress && Due(s.entry, now)
  }

  function Beat(s: Slot, now: nat): Slot {
    if Fires(s, now) then s.(entry := Tick(s.entry, now, true)) else s
  }

  function BeatAll(slots: seq<Slot>, count: nat, now: nat): seq<Slot> {
    seq(|slots|, i requires 0 <= i < |slots| => if i < count then Beat(slots[i], now) else slots[i])
  }

  /** The functions one heartbeat calls, in slot order. */
  function FiredBy(slots: seq<Slot>, count: nat, now: nat): seq<nat>
    requires count <= |slots|
  {
    if count == 0 then []
    else FiredBy(slots, count - 1, now) +
         (if Fires(slots[count - 1], now) then [slots[count - 1].entry.fn] else [])
  }

  // ----- the machine

  /** Where the VM thread is inside `addHighPriorityTickee`. */
  datatype Writer =
    | Outside
    | Disabling(i: nat, fn: nat, periodms: nat)
    | WritingPeriod(i: nat, fn: nat, periodms: nat)
    | WritingDeadline(i: nat, fn: nat, periodms: nat)
    | ResettingProgress(i: nat, fn: nat, periodms: nat, now: nat)
    | Publishing(i: nat, fn: nat, periodms: nat, now: nat)
    | Counting(i: nat, fn: nat)
  {
    /** The slot is switched off while its fields are written. */
    predicate Hidden() {
      WritingPeriod? || WritingDeadline? || ResettingProgress? || Publishing?
    }
  }

  /** `registered` is the history: what each function was last registered for, with its deadline
      moved on by the checker's own advances. */
  datatype State = State(slots: seq<Slot>, count: nat, writer: Writer, registered: map<nat, Tickee>)

  datatype Step =
    | Add(fn: nat, periodms: nat)  // the VM thread calls addHighPriorityTickee
    | Write(now: nat)              // the VM thread's next store; `now` is what the clock would read
    | Heartbeat(now: nat)          // checkHighPriorityTickees runs, as an interrupt

  predicate Enabled(s: State, step: Step) {
    match step
    case Add(fn, _) => s.writer.Outside? && fn != 0
    case Write(_) => !s.writer.Outside?
    case Heartbeat(_) => true
  }

  ghost predicate Shaped(s: State) {
    && |s.slots| == NUM_ASYNCHRONOUS_TICKEES
    && s.count <= |s.slots|
    && (!s.writer.Outside? ==> s.writer.i <= s.count && s.writer.i < |s.slots|)
  }

  function Named(s: Slot, fn: nat): Slot {
    s.(entry := s.entry.(fn := fn))
  }

  function ApplyWrite(s: State, now: nat): (s': State)
    requires Shaped(s) && !s.writer.Outside?
    ensures Shaped(s')
  {
    var slot := s.slots[s.writer.i];
    match s.writer
    case Disabling(i, fn, periodms) =>
      s.(slots := s.slots[i := Named(slot, 0)], writer := WritingPeriod(i, fn, periodms),
         registered := s.registered - {fn})
    case WritingPeriod(i, fn, periodms) =>
      s.(slots := s.slots[i := slot.(entry := slot.entry.(period := Micros(periodms)))],
         writer := WritingDeadline(i, fn, periodms))
    case WritingDeadline(i, fn, periodms) =>
      s.(slots := s.slots[i := slot.(entry := slot.entry.(deadline := slot.entry.period + now))],
         writer := ResettingProgress(i, fn, periodms, now))
    case ResettingProgress(i, fn, periodms, at) =>
      s.(slots := s.slots[i := slot.(inProgress := false)], writer := Publishing(i, fn, periodms, at))
    case Publishing(i, fn, periodms, at) =>
      s.(slots := s.slots[i := Named(slot, fn)], writer := Counting(i, fn),
         registered := s.registered[fn := Tickee(fn, Micros(periodms) + at, Micros(periodms))])
    case Counting(i, fn) =>
      s.(count := if i >= s.count then s.count + 1 else s.count, writer := Outside)
  }

  function Apply(s: State, step: Step): (s': State)
    requires Shaped(s) && Enabled(s, step)
    ensures Shaped(s')
  {
    match step
    case Add(fn, periodms) =>
      if periodms == 0 then
        var k := FindFn(s.slots, s.count, fn);
        if k < s.count
        then s.(slots := s.slots[k := Named(s.slots[k], 0)], registered := s.registered - {fn})
        else s
      else
        var k := ChooseSlot(s.slots, s.count, fn);
        if k < NUM_ASYNCHRONOUS_TICKEES then s.(writer := Disabling(k, fn, periodms)) else s
    case Write(now) => ApplyWrite(s, now)
    case Heartbeat(now) =>
      s.(slots := BeatAll(s.slots, s.count, now),
         registered := map fn | fn in s.registered ::
           if fn in FiredBy(s.slots, s.count, now) then Tick(s.registered[fn], now, true) else s.registered[fn])
  }

  // ----- consistency

  ghost predicate SlotAgrees(s: State, i: nat)
    requires i < |s.slots|
  {
    var slot := s.slots[i];
    && (slot.entry.fn != 0 ==>
          && slot.entry.fn in s.registered && s.registered[slot.entry.fn] == slot.entry
          && !slot.inProgress
          && (i < s.count || s.writer == Counting(i, slot.entry.fn)))
  }

  ghost predicate WriterAgrees(s: State)
    requires Shaped(s)
  {
    var w := s.writer;
    && (!w.Outside? ==> w.fn != 0)
    && (w.Disabling? ==> forall j :: 0 <= j < |s.slots| && s.slots[j].entry.fn == w.fn ==> j == w.i)
    && (w.Disabling? && w.i < s.count ==> s.slots[w.i].entry.fn == 0 || s.slots[w.i].entry.fn == w.fn)
    && (w.Hidden() ==> s.slots[w.i].entry.fn == 0 && forall j :: 0 <= j < |s.slots| ==> s.slots[j].entry.fn != w.fn)
    && (w.WritingDeadline? || w.ResettingProgress? || w.Publishing? ==> s.slots[w.i].entry.period == Micros(w.periodms))
    && (w.ResettingProgress? || w.Publishing? ==> s.slots[w.i].entry.deadline == Micros(w.periodms) + w.now)
    && (w.Publishing? ==> !s.slots[w.i].inProgress)
    && (w.Counting? ==> s.slots[w.i].entry.fn == w.fn)
  }

  /** A registered function has one slot, which says exactly what was registered; a slot that is
      switched on belongs to a registered function; a half-written slot is switched off. */
  ghost predicate Consistent(s: State) {
    && Shaped(s)
    && (forall i, j :: 0 <= i < j < |s.slots| && s.slots[i].entry.fn != 0 ==> s.slots[i].entry.fn != s.slots[j].entry.fn)
    && (forall i :: 0 <= i < |s.slots| ==> SlotAgrees(s, i))
    && 0 !in s.registered
    && (forall fn :: fn in s.registered ==> exists i :: 0 <= i < |s.slots| && s.slots[i].entry.fn == fn)
    && WriterAgrees(s)
  }

  ghost predicate Initial(s: State) {
    Shaped(s) && s.count == 0 && s.writer.Outside? && s.registered == map[] &&
    forall i :: 0 <= i < |s.slots| ==> s.slots[i].entry.fn == 0
  }

  /** Nobody else has the function of a slot that is switched on. */
  lemma OnlySlot(s: State, i: nat, j: nat)
    requires Consistent(s) && i < |s.slots| && j < |s.slots| && s.slots[i].entry.fn != 0
    ensures s.slots[i].entry.fn == s.slots[j].entry.fn ==> i == j
  {
    assert i < j ==> s.slots[i].entry.fn != s.slots[j].entry.fn;
    assert j < i ==> s.slots[j].entry.fn == 0 || s.slots[j].entry.fn != s.slots[i].entry.fn;
  }

  lemma RemoveKeepsConsistent(s: State, fn: nat)
    requires Consistent(s) && Enabled(s, Add(fn, 0))
    ensures Consistent(Apply(s, Add(fn, 0)))
  {
    var s' := Apply(s, Add(fn, 0));
    var k := FindFn(s.slots, s.count, fn);
    if k < s.count {
      forall i | 0 <= i < |s.slots| ensures SlotAgrees(s', i) {
        assert SlotAgrees(s, i);
        OnlySlot(s, k, i);
      }
      forall f | f in s'.registered ensures exists i :: 0 <= i < |s'.slots| && s'.slots[i].entry.fn == f {
        var i :| 0 <= i < |s.slots| && s.slots[i].entry.fn == f;
        assert s'.slots[i].entry.fn == f;
      }
    }
  }

  lemma AddKeepsConsistent(s: State, fn: nat, periodms: nat)
    requires Consistent(s) && Enabled(s, Add(fn, periodms))
    ensures Consistent(Apply(s, Add(fn, periodms)))
  {
    if periodms == 0 {
      RemoveKeepsConsistent(s, fn);
    } else {
      var s', k := Apply(s, Add(fn, periodms)), FindFn(s.slots, s.count, fn);
      forall i | 0 <= i < |s.slots| ensures SlotAgrees(s', i) && (s.slots[i].entry.fn == fn ==> i == k) {
        assert SlotAgrees(s, i);
        if s.slots[i].entry.fn == fn { OnlySlot(s, i, k); }
      }
    }
  }

  lemma WriteKeepsSlot(s: State, now: nat, i: nat)
    requires Consistent(s) && Enabled(s, Write(now)) && i < |s.slots|
    ensures SlotAgrees(Apply(s, Write(now)), i)
  {
    assert SlotAgrees(s, i);
    assert SlotAgrees(s, s.writer.i);
  }

  lemma WriteKeepsRegistered(s: State, now: nat, f: nat)
    requires Consistent(s) && Enabled(s, Write(now)) && f in Apply(s, Write(now)).registered
    ensures var s' := Apply(s, Write(now)); f != 0 && exists i :: 0 <= i < |s'.slots| && s'.slots[i].entry.fn == f
  {
    var s' := Apply(s, Write(now));
    assert SlotAgrees(s, s.writer.i);
    if s.writer.Publishing? && f == s.writer.fn {
      assert s'.slots[s.writer.i].entry.fn == f;
    } else {
      var i :| 0 <= i < |s.slots| && s.slots[i].entry.fn == f;
      assert s'.slots[i].entry.fn == f;
    }
  }

  lemma WriteKeepsWriter(s: State, now: nat)
    requires Consistent(s) && Enabled(s, Write(now))
    ensures WriterAgrees(Apply(s, Write(now)))
  {
    assert SlotAgrees(s, s.writer.i);
  }

  lemma WriteKeepsConsistent(s: State, now: nat)
    requires Consistent(s) && Enabled(s, Write(now))
    ensures Consistent(Apply(s, Write(now)))
  {
    var s' := Apply(s, Write(now));
    WriteKeepsWriter(s, now);
    forall i | 0 <= i < |s'.slots| ensures SlotAgrees(s', i) { WriteKeepsSlot(s, now, i); }
    forall f | f in s'.registered ensures f != 0 && exists i :: 0 <= i < |s'.slots| && s'.slots[i].entry.fn == f {
      WriteKeepsRegistered(s, now, f);
    }
  }

  lemma {:induction false} FiredMeansFires(slots: seq<Slot>, count: nat, now: nat, fn: nat)
    requires count <= |slots|
    ensures fn in FiredBy(slots, count, now) <==> exists i :: 0 <= i < count && slots[i].entry.fn == fn && Fires(slots[i], now)
    ensures fn in FiredBy(slots, count, now) <==>
              exists i :: 0 <= i < count && slots[i].entry.fn == fn && fn != 0 && !slots[i].inProgress && now >= slots[i].entry.deadline
  {
    if count > 0 {
      FiredMeansFires(slots, count - 1, now, fn);
    }
  }

  /** A heartbeat changes a slot exactly if it calls its function, which it never does while a call of it
      is in progress, and then only its deadline. */
  lemma BeatsSlot(slots: seq<Slot>, count: nat, now: nat, i: nat)
    requires count <= |slots| && i < |slots|
    ensures var s, s' := slots[i], BeatAll(slots, count, now)[i];
            var due := if now > s.entry.deadline + 10_000_000 then now + s.entry.period else s.entry.deadline + s.entry.period;
            |BeatAll(slots, count, now)| == |slots| &&
            s' == if i < count && s.entry.fn != 0 && !s.inProgress && now >= s.entry.deadline
                  then s.(entry := s.entry.(deadline := due)) else s
  {
  }

  lemma HeartbeatKeepsConsistent(s: State, now: nat)
    requires Consistent(s)
    ensures Consistent(Apply(s, Heartbeat(now)))
  {
    var s' := Apply(s, Heartbeat(now));
    assert forall i :: 0 <= i < |s.slots| ==> s'.slots[i].entry.fn == s.slots[i].entry.fn;
    forall i | 0 <= i < |s'.slots| ensures SlotAgrees(s', i) {
      assert SlotAgrees(s, i);
      FiredMeansFires(s.slots, s.count, now, s.slots[i].entry.fn);
    }
    forall f | f in s'.registered ensures exists i :: 0 <= i < |s'.slots| && s'.slots[i].entry.fn == f {
      var i :| 0 <= i < |s.slots| && s.slots[i].entry.fn == f;
      assert s'.slots[i].entry.fn == f;
    }
    if !s.writer.Outside? && s.writer.Hidden() {
      assert s'.slots[s.writer.i] == s.slots[s.writer.i];
    }
  }

  ghost predicate Allowed(s: State, steps: seq<Step>)
    requires Shaped(s)
    decreases |steps|
  {
    steps == [] || (Enabled(s, steps[0]) && Allowed(Apply(s, steps[0]), steps[1..]))
  }

  ghost function Run(s: State, steps: seq<Step>): (s': State)
    requires Shaped(s) && Allowed(s, steps)
    ensures Shaped(s')
    decreases |steps|
  {
    if steps == [] then s else Run(Apply(s, steps[0]), steps[1..])
  }

  lemma StepKeepsConsistent(s: State, step: Step)
    requires Consistent(s) && Enabled(s, step)
    ensures Consistent(Apply(s, step))
  {
    match step
    case Add(fn, periodms) => AddKeepsConsistent(s, fn, periodms);
    case Write(now) => WriteKeepsConsistent(s, now);
    case Heartbeat(now) => HeartbeatKeepsConsistent(s, now);
  }

  lemma {:induction false} RunKeepsConsistent(s: State, steps: seq<Step>)
    requires Consistent(s) && Allowed(s, steps)
    ensures Consistent(Run(s, steps))
    decreases |steps|
  {
    if steps != [] {
      StepKeepsConsistent(s, steps[0]);
      RunKeepsConsistent(Apply(s, steps[0]), steps[1..]);
    }
  }

  lemma FiresRegistrations(t: State, now: nat, fn: nat)
    requires Consistent(t)
    ensures fn in FiredBy(t.slots, t.count, now) <==>
              fn in t.registered && now >= t.registered[fn].deadline && !(t.writer == Counting(t.count, fn))
  {
    FiredMeansFires(t.slots, t.count, now, fn);
    if t.writer == Counting(t.count, fn) {
      forall i | 0 <= i < t.count ensures t.slots[i].entry.fn != fn {
        OnlySlot(t, t.count, i);
      }
    }
    if fn in t.registered {
      var i :| 0 <= i < |t.slots| && t.slots[i].entry.fn == fn;
      assert SlotAgrees(t, i);
    }
    if fn in FiredBy(t.slots, t.count, now) {
      var i :| 0 <= i < t.count && t.slots[i].entry.fn == fn && Fires(t.slots[i], now);
      assert SlotAgrees(t, i);
    }
  }

  /** Of any two functions called the earlier one stands in the lower slot. */
  ghost predicate InSlotOrder(slots: seq<Slot>, fired: seq<nat>) {
    forall a, b, i, j | 0 <= a < b < |fired| && 0 <= i < |slots| && 0 <= j < |slots| ::
      slots[i].entry.fn == fired[a] && slots[j].entry.fn == fired[b] ==> i < j
  }

  lemma FiredStandsBelow(s: State, count: nat, now: nat, fn: nat, i: nat)
    requires Consistent(s) && count <= |s.slots| && i < |s.slots|
    requires fn in FiredBy(s.slots, count, now) && s.slots[i].entry.fn == fn
    ensures i < count
  {
    FiredMeansFires(s.slots, count, now, fn);
    var k :| 0 <= k < count && s.slots[k].entry.fn == fn && Fires(s.slots[k], now);
    OnlySlot(s, k, i);
  }

  lemma {:induction false} FiredInSlotOrder(s: State, count: nat, now: nat)
    requires Consistent(s) && count <= |s.slots|
    ensures InSlotOrder(s.slots, FiredBy(s.slots, count, now))
    decreases count
  {
    if count > 0 {
      var before, fired := FiredBy(s.slots, count - 1, now), FiredBy(s.slots, count, now);
      FiredInSlotOrder(s, count - 1, now);
      if Fires(s.slots[count - 1], now) {
        forall a, i | 0 <= a < |before| && 0 <= i < |s.slots| && s.slots[i].entry.fn == before[a]
          ensures i < count - 1
        {
          FiredStandsBelow(s, count - 1, now, before[a], i);
        }
        forall j | 0 <= j < |s.slots| && s.slots[j].entry.fn == s.slots[count - 1].entry.fn ensures j == count - 1 {
          OnlySlot(s, count - 1, j);
        }
        assert fired == before + [s.slots[count - 1].entry.fn];
      } else {
        assert fired == before;
      }
    }
  }

  lemma {:induction false} FiredOnce(s: State, count: nat, now: nat)
    requires Consistent(s) && count <= |s.slots|
    ensures var fired := FiredBy(s.slots, count, now);
            forall i, j :: 0 <= i < j < |fired| ==> fired[i] != fired[j]
    decreases count
  {
    if count > 0 {
      FiredOnce(s, count - 1, now);
      FiredMeansFires(s.slots, count - 1, now, s.slots[count - 1].entry.fn);
    }
  }

  /** Wherever the heartbeat strikes, it calls a function exactly when a completed registration of
      that function, as moved on by earlier heartbeats, is due (one that is published but not
      counted yet has to wait), and it calls each only once, in slot order. */
  lemma HeartbeatFiresRegistrations(s: State, steps: seq<Step>, now: nat, fn: nat)
    requires Initial(s) && Allowed(s, steps)
    ensures var t := Run(s, steps);
            var fired := FiredBy(t.slots, t.count, now);
            && (fn in fired <==>
                  fn in t.registered && now >= t.registered[fn].deadline && !(t.writer == Counting(t.count, fn)))
            && (forall i, j :: 0 <= i < j < |fired| ==> fired[i] != fired[j])
            && InSlotOrder(t.slots, fired)
  {
    RunKeepsConsistent(s, steps);
    var t := Run(s, steps);
    FiresRegistrations(t, now, fn);
    FiredOnce(t, t.count, now);
    FiredInSlotOrder(t, t.count, now);
  }

  // ----- rates, table and interrupts included

  /** The clock readings of the heartbeats in a run. */
  function Clocks(steps: seq<Step>): seq<nat> {
    if steps == [] then []
    else (if steps[0].Heartbeat? then [steps[0].now] else []) + Clocks(steps[1..])
  }

  /** How often a run calls the function. */
  ghost function TimesFired(s: State, steps: seq<Step>, fn: nat): nat
    requires Shaped(s) && Allowed(s, steps)
    decreases |steps|
  {
    if steps == [] then 0
    else (if steps[0].Heartbeat? && fn in FiredBy(s.slots, s.count, steps[0].now) then 1 else 0)
         + TimesFired(Apply(s, steps[0]), steps[1..], fn)
  }

  /** The run neither changes the registration of the function nor is in the middle of it. */
  ghost predicate LeavesAlone(s: State, steps: seq<Step>, fn: nat) {
    && (s.writer.Outside? || s.writer.fn != fn)
    && forall k :: 0 <= k < |steps| && steps[k].Add? ==> steps[k].fn != fn
  }

  lemma StepFollowsTickee(s: State, step: Step, fn: nat)
    requires Consistent(s) && Enabled(s, step) && LeavesAlone(s, [step], fn) && fn in s.registered
    ensures var s' := Apply(s, step);
            && (s'.writer.Outside? || s'.writer.fn != fn) && fn in s'.registered
            && s'.registered[fn] == (if step.Heartbeat? then Tick(s.registered[fn], step.now, true) else s.registered[fn])
            && (step.Heartbeat? ==> (fn in FiredBy(s.slots, s.count, step.now) <==> step.now >= s.registered[fn].deadline))
  {
    assert [step][0] == step;
    if step.Heartbeat? {
      FiresRegistrations(s, step.now, fn);
    }
  }

  /** One tickee of the table, over any run that leaves it alone, behaves as that tickee by itself
      over the heartbeats' clock readings, whatever else is registered or removed meanwhile. */
  lemma {:induction false} RunFollowsTickee(s: State, steps: seq<Step>, fn: nat)
    requires Consistent(s) && Allowed(s, steps) && LeavesAlone(s, steps, fn) && fn in s.registered
    ensures var s' := Run(s, steps);
            fn in s'.registered && s'.registered[fn] == Ticks(s.registered[fn], Clocks(steps), true)
    ensures TimesFired(s, steps, fn) == |Firings(s.registered[fn], Clocks(steps), true)|
    decreases |steps|
  {
    if steps != [] {
      var s', rest := Apply(s, steps[0]), steps[1..];
      var t := s.registered[fn];
      StepKeepsConsistent(s, steps[0]);
      StepFollowsTickee(s, steps[0], fn);
      RunFollowsTickee(s', rest, fn);
      if steps[0].Heartbeat? {
        OneMoreReading(t, steps[0].now, Clocks(rest), true);
        assert Clocks(steps) == [steps[0].now] + Clocks(rest);
      } else {
        assert Clocks(steps) == Clocks(rest);
      }
    }
  }

  /** The rate bound for the table: with the clock between `a` and `b`, at most
      floor((b - a + threshold) / period) + 1 calls, interrupts and other registrations included. */
  lemma {:induction false} TableRateBound(s: State, steps: seq<Step>, fn: nat, a: nat, b: nat)
    requires Consistent(s) && Allowed(s, steps) && LeavesAlone(s, steps, fn) && fn in s.registered
    requires s.registered[fn].period > 0 && a <= b && Within(Clocks(steps), a, b)
    ensures TimesFired(s, steps, fn) <= (b - a + 10_000_000) / s.registered[fn].period + 1
  {
    RunFollowsTickee(s, steps, fn);
    RateBound(s.registered[fn], Clocks(steps), a, b);
  }

  /** It is called in time: over a run that leaves it alone, exactly if some heartbeat comes at or after
      its deadline. */
  lemma {:induction false} TableFiresExactlyWhen(s: State, steps: seq<Step>, fn: nat)
    requires Consistent(s) && Allowed(s, steps) && LeavesAlone(s, steps, fn) && fn in s.registered
    ensures TimesFired(s, steps, fn) == 0 <==> AllBefore(Clocks(steps), s.registered[fn].deadline)
  {
    RunFollowsTickee(s, steps, fn);
    FiresExactlyWhen(s.registered[fn], Clocks(steps), true);
  }

  /** After its first call it is called again exactly if some later heartbeat comes at or after the next
      period's start: counted from the old deadline, or, if it was more than ten seconds late, from the
      heartbeat that called it. */
  lemma {:induction false} TableFiresAgainExactlyWhen(s: State, steps: seq<Step>, fn: nat, k: nat)
    requires Consistent(s) && Allowed(s, steps) && LeavesAlone(s, steps, fn) && fn in s.registered
    requires FirstAtOrAfter(Clocks(steps), s.registered[fn].deadline, k)
    ensures var t, c := s.registered[fn], Clocks(steps)[k];
            var due := if c > t.deadline + 10_000_000 then c + t.period else t.deadline + t.period;
            TimesFired(s, steps, fn) >= 1 &&
            (TimesFired(s, steps, fn) == 1 <==> AllBefore(Clocks(steps)[k + 1..], due))
  {
    RunFollowsTickee(s, steps, fn);
    SecondFiring(s.registered[fn], Clocks(steps), true, k);
  }

  lemma StepKeepsUnregistered(s: State, step: Step, fn: nat)
    requires Consistent(s) && Enabled(s, step) && fn !in s.registered
    requires s.writer.Outside? || s.writer.fn != fn
    requires step.Add? ==> step.fn != fn
    ensures var s' := Apply(s, step); fn !in s'.registered && (s'.writer.Outside? || s'.writer.fn != fn)
  {
  }

  /** A function that is not registered is not called. */
  lemma {:induction false} UnregisteredIsSilent(s: State, steps: seq<Step>, fn: nat)
    requires Consistent(s) && Allowed(s, steps) && LeavesAlone(s, steps, fn) && fn !in s.registered
    ensures fn !in Run(s, steps).registered && TimesFired(s, steps, fn) == 0
    decreases |steps|
  {
    if steps != [] {
      StepKeepsConsistent(s, steps[0]);
      StepKeepsUnregistered(s, steps[0], fn);
      if steps[0].Heartbeat? { FiresRegistrations(s, steps[0].now, fn); }
      UnregisteredIsSilent(Apply(s, steps[0]), steps[1..], fn);
    }
  }

  lemma RegisteredIsFound(s: State, fn: nat)
    requires Consistent(s) && s.writer.Outside? && fn != 0
    ensures fn in s.registered <==> FindFn(s.slots, s.count, fn) < s.count
  {
    if fn in s.registered {
      var i :| 0 <= i < |s.slots| && s.slots[i].entry.fn == fn;
      assert SlotAgrees(s, i);
    }
    var k := FindFn(s.slots, s.count, fn);
    assert k < s.count ==> SlotAgrees(s, k);
  }

  /** A removal takes effect at once, and on that function alone. */
  lemma RemovedIsSilent(s: State, fn: nat, steps: seq<Step>)
    requires Consistent(s) && Enabled(s, Add(fn, 0)) && Allowed(Apply(s, Add(fn, 0)), steps)
    requires LeavesAlone(Apply(s, Add(fn, 0)), steps, fn)
    ensures TimesFired(Apply(s, Add(fn, 0)), steps, fn) == 0
    ensures Apply(s, Add(fn, 0)).registered == s.registered - {fn}
  {
    StepKeepsConsistent(s, Add(fn, 0));
    RegisteredIsFound(s, fn);
    UnregisteredIsSilent(Apply(s, Add(fn, 0)), steps, fn);
  }

  // ----- undisturbed registration

  function StoresLeft(w: Writer): nat {
    match w
    case Outside => 0
    case Counting(_, _) => 1
    case Publishing(_, _, _, _) => 2
    case ResettingProgress(_, _, _, _) => 3
    case WritingDeadline(_, _, _) => 4
    case WritingPeriod(_, _, _) => 5
    case Disabling(_, _, _) => 6
  }

  /** The VM thread runs to the end of its registration without a heartbeat. */
  ghost function FinishAdd(s: State, now: nat): State
    requires Shaped(s)
    decreases StoresLeft(s.writer)
  {
    if s.writer.Outside? then s else FinishAdd(Apply(s, Write(now)), now)
  }

  lemma StoresAddUp(s: State, fn: nat, periodms: nat, now: nat)
    requires Consistent(s) && Enabled(s, Add(fn, periodms)) && periodms != 0
    requires ChooseSlot(s.slots, s.count, fn) < NUM_ASYNCHRONOUS_TICKEES
    ensures var k := ChooseSlot(s.slots, s.count, fn);
            var entry := Tickee(fn, Micros(periodms) + now, Micros(periodms));
            FinishAdd(Apply(s, Add(fn, periodms)), now) ==
              s.(slots := s.slots[k := Slot(entry, false)], count := if k < s.count then s.count else s.count + 1,
                 registered := s.registered[fn := entry])
  {
    var s1 := Apply(s, Add(fn, periodms));
    var s2 := Apply(s1, Write(now));
    var s3 := Apply(s2, Write(now));
    var s4 := Apply(s3, Write(now));
    var s5 := Apply(s4, Write(now));
    var s6 := Apply(s5, Write(now));
    var s7 := Apply(s6, Write(now));
    assert FinishAdd(s1, now) == FinishAdd(s2, now) == FinishAdd(s3, now) == FinishAdd(s4, now);
    assert FinishAdd(s4, now) == FinishAdd(s5, now) == FinishAdd(s6, now) == FinishAdd(s7, now) == s7;
    assert s7.registered == s.registered[fn := Tickee(fn, Micros(periodms) + now, Micros(periodms))];
  }

  /** An undisturbed registration is refused, changing nothing, exactly when four other functions occupy
      the table; else its stores add up to one complete entry in the slot where it lands. */
  lemma UndisturbedAdd(s: State, fn: nat, periodms: nat, now: nat)
    requires Consistent(s) && Enabled(s, Add(fn, periodms)) && periodms != 0
    ensures var s' := FinishAdd(Apply(s, Add(fn, periodms)), now);
            var period := (1000 * periodms) % 0x1_0000_0000;
            var entry := Tickee(fn, period + now, period);
            if Refused(s.slots, s.count, fn) then s' == s
            else exists k: nat ::
              && LandsIn(s.slots, s.count, fn, k)
              && s' == s.(slots := s.slots[k := Slot(entry, false)], count := if k < s.count then s.count else k + 1,
                          registered := s.registered[fn := entry])
  {
    ChoiceLands(s.slots, s.count, fn);
    if !Refused(s.slots, s.count, fn) {
      StoresAddUp(s, fn, periodms, now);
      assert LandsIn(s.slots, s.count, fn, ChooseSlot(s.slots, s.count, fn));
    }
  }

  /** The functions in the four slots, 0 where there is none. */
  function Fns(slots: seq<Slot>): seq<nat> {
    seq(|slots|, i requires 0 <= i < |slots| => slots[i].entry.fn)
  }

  lemma OccupantsRegistered(s: State, fn: nat)
    requires Consistent(s)
    ensures fn in s.registered <==> fn in Fns(s.slots) && fn != 0
  {
    if fn in s.registered {
      var i :| 0 <= i < |s.slots| && s.slots[i].entry.fn == fn;
      assert Fns(s.slots)[i] == fn;
    }
    if fn in Fns(s.slots) && fn != 0 {
      var i :| 0 <= i < |s.slots| && Fns(s.slots)[i] == fn;
      assert SlotAgrees(s, i);
    }
  }

  lemma {:induction false} SubsetIsSmaller(a: set<nat>, b: set<nat>)
    requires a <= b || (b <= a && |b| == |a|)
    ensures |a| <= |b|
    ensures |a| == |b| && a <= b ==> a == b
    decreases a
  {
    if a <= b && a != {} {
      var x :| x in a;
      SubsetIsSmaller(a - {x}, b - {x});
    }
  }

  lemma AtMostFour(a: nat, b: nat, c: nat, d: nat, fns: set<nat>)
    requires fns <= {a, b, c, d}
    ensures |fns| <= 4
    ensures |fns| == 4 ==> fns == {a, b, c, d} && a != b && a != c && a != d && b != c && b != d && c != d
  {
    var four := {a, b, c, d};
    SubsetIsSmaller(fns, four);
    if |fns| == 4 { SubsetIsSmaller(four, fns); }
  }

  lemma FullExactlyWhen(f: seq<nat>, fns: set<nat>)
    requires |f| == 4 && 0 !in fns && forall fn :: fn in fns <==> fn in f && fn != 0
    requires forall i, j :: 0 <= i < j < 4 && f[i] != 0 ==> f[i] != f[j]
    ensures |fns| == 4 <==> 0 !in f
  {
    assert f == [f[0], f[1], f[2], f[3]];
    assert fns <= {f[0], f[1], f[2], f[3]};
    AtMostFour(f[0], f[1], f[2], f[3], fns);
    if 0 !in f {
      assert fns == {f[0], f[1], f[2], f[3]};
    }
  }

  /** Between registrations: refused exactly when four other functions are registered. */
  lemma RefusedExactlyWhen(s: State, fn: nat)
    requires Consistent(s) && s.writer.Outside? && fn != 0
    ensures Refused(s.slots, s.count, fn) <==> fn !in s.registered && |s.registered.Keys| == 4
  {
    var f, fns := Fns(s.slots), s.registered.Keys;
    forall x ensures x in fns <==> x in f && x != 0 { OccupantsRegistered(s, x); }
    FullExactlyWhen(f, fns);
    forall i | 0 <= i < 4 ensures f[i] != 0 ==> i < s.count { assert SlotAgrees(s, i); }
    assert forall i :: 0 <= i < 4 ==> f[i] == s.slots[i].entry.fn && f[i] in f;
    assert fn in fns <==> fn in f;
    if 0 !in f {
      assert f[3] != 0 && s.count == 4;
    }
  }

  lemma {:induction false} FinishAddKeepsConsistent(s: State, now: nat)
    requires Consistent(s)
    ensures Consistent(FinishAdd(s, now))
    decreases StoresLeft(s.writer)
  {
    if !s.writer.Outside? {
      StepKeepsConsistent(s, Write(now));
      FinishAddKeepsConsistent(Apply(s, Write(now)), now);
    }
  }

  /** From an accepted registration at clock `now` on, the first call comes with the first heartbeat at
      or after `now` plus 1000 microseconds per millisecond of the period, and not before. */
  lemma AddedFiresOnTime(s: State, fn: nat, periodms: nat, now: nat, steps: seq<Step>)
    requires Consistent(s) && Enabled(s, Add(fn, periodms)) && periodms != 0 && !Refused(s.slots, s.count, fn)
    requires var s' := FinishAdd(Apply(s, Add(fn, periodms)), now); Shaped(s') && Allowed(s', steps)
    requires LeavesAlone(FinishAdd(Apply(s, Add(fn, periodms)), now), steps, fn)
    ensures var s' := FinishAdd(Apply(s, Add(fn, periodms)), now);
            TimesFired(s', steps, fn) == 0 <==>
            AllBefore(Clocks(steps), now + (1000 * periodms) % 0x1_0000_0000)
  {
    var s' := FinishAdd(Apply(s, Add(fn, periodms)), now);
    UndisturbedAdd(s, fn, periodms, now);
    StepKeepsConsistent(s, Add(fn, periodms));
    FinishAddKeepsConsistent(Apply(s, Add(fn, periodms)), now);
    TableFiresExactlyWhen(s', steps, fn);
  }

  // ----- the table as the program keeps it

  class Table {
    var async: array<Slot>
    var numAsyncTickees: nat

    ghost predicate Valid()
      reads this
    {
      async.Length == NUM_ASYNCHRONOUS_TICKEES && numAsyncTickees <= async.Length
    }

    constructor ()
      ensures Valid() && fresh(async) && numAsyncTickees == 0
      ensures forall i :: 0 <= i < async.Length ==> async[i] == Slot(Tickee(0, 0, 0), false)
    {
      async := new Slot[NUM_ASYNCHRONOUS_TICKEES](_ => Slot(Tickee(0, 0, 0), false));
      numAsyncTickees := 0;
    }

    /** The first slot below the count that holds the function, or the count. */
    method Search(fn: nat) returns (i: nat)
      requires Valid()
      ensures i == FindFn(async[..], numAsyncTickees, fn)
    {
      i := 0;
      while i < numAsyncTickees && async[i].entry.fn != fn
        invariant 0 <= i <= numAsyncTickees
        invariant forall j :: 0 <= j < i ==> async[j].entry.fn != fn
      {
        i := i + 1;
      }
      FindIs(async[..], numAsyncTickees, fn, i);
    }

    /** Answers false for the error that there is no slot left. */
    method AddHighPriorityTickee(fn: nat, periodms: nat, now: nat) returns (ok: bool)
      requires Valid() && fn != 0
      modifies this`numAsyncTickees, async
      ensures Valid()
      ensures var slots, count := old(async[..]), old(numAsyncTickees);
              if periodms == 0 then
                var k := FindFn(slots, count, fn);
                && ok && numAsyncTickees == count
                && async[..] == if k < count then slots[k := Named(slots[k], 0)] else slots
              else if Refused(slots, count, fn) then
                !ok && numAsyncTickees == count && async[..] == slots
              else
                var period := (1000 * periodms) % 0x1_0000_0000;
                ok && exists k: nat ::
                  && LandsIn(slots, count, fn, k)
                  && numAsyncTickees == (if k < count then count else k + 1)
                  && async[..] == slots[k := Slot(Tickee(fn, period + now, period), false)]
    {
      ok := true;
      ChoiceLands(async[..], numAsyncTickees, fn);
      var i := Search(fn);
      if periodms == 0 {
        if i < numAsyncTickees {
          async[i] := Named(async[i], 0);
        }
        return;
      }
      if i >= numAsyncTickees {
        i := Search(0);
      }
      if i >= NUM_ASYNCHRONOUS_TICKEES {
        return false;
      }
      async[i] := Named(async[i], 0);
      async[i] := async[i].(entry := async[i].entry.(period := Micros(periodms)));
      async[i] := async[i].(entry := async[i].entry.(deadline := async[i].entry.period + now));
      async[i] := async[i].(inProgress := false);
      async[i] := Named(async[i], fn);
      if i >= numAsyncTickees {
        numAsyncTickees := numAsyncTickees + 1;
      }
    }

    method CheckHighPriorityTickees(now: nat) returns (fired: seq<nat>)
      requires Valid()
      modifies async
      ensures Valid() && numAsyncTickees == old(numAsyncTickees)
      ensures async[..] == BeatAll(old(async[..]), numAsyncTickees, now)
      ensures fired == FiredBy(old(async[..]), numAsyncTickees, now)
    {
      ghost var slots := async[..];
      fired := [];
      var i := 0;
      while i < numAsyncTickees
        invariant 0 <= i <= numAsyncTickees
        invariant forall j :: 0 <= j < |slots| ==> async[j] == if j < i then Beat(slots[j], now) else slots[j]
        invariant fired == FiredBy(slots, i, now)
        modifies async
      {
        if async[i].entry.fn != 0 && !async[i].inProgress && now >= async[i].entry.deadline {
          async[i] := async[i].(inProgress := true);
          var t := async[i].entry;
          if t.deadline + HICCUP_THRESHOLD < now {
            async[i] := async[i].(entry := t.(deadline := now + t.period));
          } else {
            async[i] := async[i].(entry := t.(deadline := t.deadline + t.period));
          }
          fired := fired + [t.fn];
          async[i] := async[i].(inProgress := false);
        }
        i := i + 1;
      }
    }
  }
}
