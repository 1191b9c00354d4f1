/** The signalling protocol as a step machine: any number of requestors and one responder,
    one step per access to shared data, in any interleaving. */
module SignalProtocol {
  import opened SignalTable

  /** Where a requestor is inside `signalSemaphoreWithIndex`; `i` is the slot it signals,
      `sideA` the side it read from `useTideA`, `v` the mark it last read. */
  datatype Requestor =
    | Resting
    | Adding(i: nat)
    | Choosing(i: nat)
    | ReadingLow(i: nat, sideA: bool)
    | SwappingLow(i: nat, sideA: bool, v: int)
    | ReadingHigh(i: nat, sideA: bool)
    | SwappingHigh(i: nat, sideA: bool, v: int)
    | Flagging(i: nat)
  {
    /** Between reading `useTideA` and the end of the tide loops. */
    predicate InWindow() {
      ReadingLow? || SwappingLow? || ReadingHigh? || SwappingHigh?
    }
  }

  /** Where the responder is inside `doSignalExternalSemaphores`. */
  datatype Responder =
    | Polling
    | Clearing
    | EmptyingLow
    | EmptyingHigh
    | Toggling
    | FetchingLow
    | FetchingHigh(low: int)
    | Scanning(i: int, high: int)
    | Signalling(i: int, high: int)
    | Bumping(i: int, high: int)
    | Rechecking
  {
    /** After the flag is cleared and before the sides are toggled. */
    predicate BeforeToggle() {
      EmptyingLow? || EmptyingHigh? || Toggling?
    }

    /** After the toggle and before both retired marks are read. */
    predicate Fetching() {
      FetchingLow? || FetchingHigh?
    }
  }

  /** The machine. `accepted[i]` and `signalled[i]` are unbounded histories: how many requests
      for slot `i` were accepted, how often its semaphore was signalled. `limit` is the
      `externalSemaphoreTableSize` the responder is called with. */
  datatype State = State(
    table: Table,
    accepted: seq<nat>,
    signalled: seq<nat>,
    requestors: seq<Requestor>,
    vm: Responder,
    limit: nat)

  datatype Step =
    | Call(r: nat, index: int)  // requestor r calls signalSemaphoreWithIndex(index)
    | Advance(r: nat)           // requestor r makes its next access
    | Respond                   // the responder makes its next access

  predicate RequestorFits(q: Requestor, n: nat) {
    && (!q.Resting? ==> q.i < n)
    && (q.SwappingLow? ==> q.v > q.i)
    && (q.SwappingHigh? ==> q.v < q.i)
  }

  predicate ResponderFits(vm: Responder, n: nat) {
    && (vm.FetchingHigh? ==> 0 <= vm.low)
    && (vm.Scanning? ==> 0 <= vm.i && vm.high < n)
    && (vm.Signalling? || vm.Bumping? ==> 0 <= vm.i <= vm.high < n)
  }

  ghost predicate Valid(s: State) {
    && s.table.Valid()
    && |s.accepted| == |s.signalled| == |s.table.requests|
    && (forall r :: 0 <= r < |s.requestors| ==> RequestorFits(s.requestors[r], |s.table.requests|))
    && ResponderFits(s.vm, |s.table.requests|)
  }

  predicate SameShape(s: State, s': State) {
    && s'.limit == s.limit
    && |s'.requestors| == |s.requestors|
    && |s'.table.requests| == |s.table.requests|
  }

  predicate Enabled(s: State, step: Step) {
    match step
    case Call(r, _) => r < |s.requestors| && s.requestors[r].Resting?
    case Advance(r) => r < |s.requestors| && !s.requestors[r].Resting?
    case Respond => true
  }

  function Next(s: State, r: nat, t: Table, q: Requestor): (s': State)
    requires Valid(s) && r < |s.requestors|
    requires t.Valid() && |t.requests| == |s.table.requests| && RequestorFits(q, |t.requests|)
    ensures Valid(s') && SameShape(s, s')
  {
    s.(table := t, requestors := s.requestors[r := q])
  }

  function AdvanceRequestor(s: State, r: nat): (s': State)
    requires Valid(s) && r < |s.requestors| && !s.requestors[r].Resting?
    ensures Valid(s') && SameShape(s, s')
  {
    var t := s.table;
    match s.requestors[r]
    case Adding(i) =>
      Next(s, r, t.(requests := t.requests[i := Bump(t.requests[i])]), Choosing(i))
        .(accepted := s.accepted[i := s.accepted[i] + 1])
    case Choosing(i) =>
      Next(s, r, t, ReadingLow(i, t.useTideA))
    case ReadingLow(i, sideA) =>
      var v := t.Pair(sideA).low;
      Next(s, r, t, if v > i then SwappingLow(i, sideA, v) else ReadingHigh(i, sideA))
    case SwappingLow(i, sideA, v) =>
      var p := t.Pair(sideA);
      Next(s, r, if p.low == v then t.WithPair(sideA, p.(low := i)) else t, ReadingLow(i, sideA))
    case ReadingHigh(i, sideA) =>
      var v := t.Pair(sideA).high;
      Next(s, r, t, if v < i then SwappingHigh(i, sideA, v) else Flagging(i))
    case SwappingHigh(i, sideA, v) =>
      var p := t.Pair(sideA);
      Next(s, r, if p.high == v then t.WithPair(sideA, p.(high := i)) else t, ReadingHigh(i, sideA))
    case Flagging(i) =>
      Next(s, r, t.(flag := true), Resting)
  }

  function AdvanceResponder(s: State): (s': State)
    requires Valid(s)
    ensures Valid(s') && SameShape(s, s')
  {
    var t := s.table;
    match s.vm
    case Polling => if t.flag then s.(vm := Clearing) else s
    case Clearing => s.(table := t.(flag := false), vm := EmptyingLow)
    case EmptyingLow => s.(table := t.WithPair(!t.useTideA, t.Retired().(low := MAX_TIDE)), vm := EmptyingHigh)
    case EmptyingHigh => s.(table := t.WithPair(!t.useTideA, t.Retired().(high := MIN_TIDE)), vm := Toggling)
    case Toggling => s.(table := t.(useTideA := !t.useTideA), vm := FetchingLow)
    case FetchingLow => s.(vm := FetchingHigh(t.Retired().low))
    case FetchingHigh(low) => s.(vm := Scanning(low, LastScanned(t.Retired().high, s.limit)))
    case Scanning(i, high) =>
      if i > high then s.(vm := Rechecking)
      else if t.responses[i] != t.requests[i] then s.(vm := Signalling(i, high))
      else s.(vm := Scanning(i + 1, high))
    case Signalling(i, high) =>
      s.(signalled := s.signalled[i := s.signalled[i] + 1], vm := Bumping(i, high))
    case Bumping(i, high) =>
      s.(table := t.(responses := t.responses[i := Bump(t.responses[i])]), vm := Scanning(i, high))
    case Rechecking => s.(vm := Polling)
  }

  function Apply(s: State, step: Step): (s': State)
    requires Valid(s) && Enabled(s, step)
    ensures Valid(s') && SameShape(s, s')
  {
    match step
    case Call(r, index) =>
      if 0 <= index - 1 < |s.table.requests|
      then s.(requestors := s.requestors[r := Adding(index - 1)])
      else s
    case Advance(r) => AdvanceRequestor(s, r)
    case Respond => AdvanceResponder(s)
  }

  /** Nobody is in the middle of a signal. */
  ghost predicate AtRest(s: State) {
    forall r :: 0 <= r < |s.requestors| ==> s.requestors[r].Resting?
  }

  // ----- runs

  ghost predicate Allowed(s: State, steps: seq<Step>)
    requires Valid(s)
    decreases |steps|
  {
    steps == [] || (Enabled(s, steps[0]) && Allowed(Apply(s, steps[0]), steps[1..]))
  }

  ghost function Run(s: State, steps: seq<Step>): (s': State)
    requires Valid(s) && Allowed(s, steps)
    ensures Valid(s') && SameShape(s, s')
    decreases |steps|
  {
    if steps == [] then s else Run(Apply(s, steps[0]), steps[1..])
  }

  /** The start: a table as `ioSetMaxExtSemTableSize` leaves it, everybody at rest. */
  ghost predicate Initial(s: State) {
    && Valid(s)
    && (forall i :: 0 <= i < |s.table.requests| ==>
          s.table.requests[i] == s.table.responses[i] == s.accepted[i] == s.signalled[i] == 0)
    && s.table.a == s.table.b == EMPTY_TIDES && s.table.useTideA && !s.table.flag
    && (forall r :: 0 <= r < |s.requestors| ==> s.requestors[r].Resting?)
    && s.vm.Polling?
  }
}
