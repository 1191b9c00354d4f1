/** The semaphore table as the program keeps it: counters in arrays, tide marks, the side in
    use and the flag in variables, all updated in place. */
module ExternalSemaphores {
  import opened SignalTable

  /** The number of the highest set bit, counting from 1; 0 for 0. */
  function HighBit(n: nat): nat {
    if n == 0 then 0 else 1 + HighBit(n / 2)
  }

  function ShiftLeft1(k: nat): nat {
    if k == 0 then 1 else 2 * ShiftLeft1(k - 1)
  }

  predicate PowerOfTwo(n: nat) {
    n == 1 || (n > 1 && n % 2 == 0 && PowerOfTwo(n / 2))
  }

  /** The size the table grows to is the least power of two above `n`. */
  lemma {:induction false} RoundedUp(n: nat)
    ensures PowerOfTwo(ShiftLeft1(HighBit(n)))
    ensures n < ShiftLeft1(HighBit(n)) && (n > 0 ==> ShiftLeft1(HighBit(n)) <= 2 * n)
  {
    if n > 0 {
      RoundedUp(n / 2);
      assert ShiftLeft1(HighBit(n)) == 2 * ShiftLeft1(HighBit(n / 2));
    }
  }

  /** A table grown to `size` slots: the new ones are at rest, nothing else changes. */
  function Grown(t: Table, size: nat): Table
    requires |t.requests| == |t.responses| <= size
  {
    var zeros := seq(size - |t.requests|, _ => 0);
    t.(requests := t.requests + zeros, responses := t.responses + zeros)
  }

  lemma GrownSlots(t: Table, size: nat)
    requires |t.requests| == |t.responses| <= size
    ensures var u := Grown(t, size);
            && |u.requests| == |u.responses| == size
            && forall i :: 0 <= i < size ==>
                 && u.requests[i] == (if i < |t.requests| then t.requests[i] else 0)
                 && u.responses[i] == (if i < |t.requests| then t.responses[i] else 0)
  {
  }

  lemma GrowingDisturbsNothing(t: Table, size: nat, limit: nat)
    requires t.Valid() && |t.requests| <= size <= MAX_TIDE
    ensures Grown(t, size).Valid()
    ensures forall i :: Grown(t, size).Pending(i) <==> t.Pending(i)
    ensures Quiet(Grown(t, size), limit) <==> Quiet(t, limit)
  {
    forall i ensures Grown(t, size).Pending(i) <==> t.Pending(i) {
    }
  }

  /** From the coverage invariant: exactly what was pending below the limit is signalled, in
      order, and nothing is pending there any more. */
  ghost predicate RespondedFully(t: Table, u: Table, limit: nat, signalled: seq<nat>)
    requires t.Valid() && |u.requests| == |u.responses|
  {
    && signalled == Drain(t, 0, Min(limit, |t.requests|) - 1)
    && (forall i :: 0 <= i < limit ==> !u.Pending(i))
    && Quiet(u, limit)
  }

  lemma QuietResponse(t: Table, limit: nat)
    requires t.Valid()
    ensures Quiet(t, limit) && t.flag ==>
              RespondedFully(t, Responded(t, limit), limit,
                             Drain(t, t.InUse().low, LastScanned(t.InUse().high, limit)))
    ensures Quiet(t, limit) && !t.flag ==> RespondedFully(t, t, limit, [])
  {
    if Quiet(t, limit) {
      if t.flag {
        ResponseSignalsExactlyPending(t, limit);
      } else {
        DrainNothing(t, 0, Min(limit, |t.requests|) - 1);
      }
    }
  }

  /** One round of the scan. */
  lemma OneMoreSlot(t: Table, low: nat, i: nat)
    requires t.Valid() && low <= i < |t.requests|
    ensures Drain(t, low, i) == Drain(t, low, i - 1) + Repeat(i, Distance(t.responses[i], t.requests[i]))
    ensures CaughtUp(t.requests, t.responses, low, i)
         == CaughtUp(t.requests, t.responses, low, i - 1)[i := t.requests[i]]
  {
    assert Drain(t, i, i) == Repeat(i, Distance(t.responses[i], t.requests[i]));
    DrainSplit(t, low, i, i);
  }

  lemma RespondedIsValid(t: Table, limit: nat)
    requires t.Valid()
    ensures Responded(t, limit).Valid()
  {
  }

  class SemaphoreTable {
    var requests: array<nat>
    var responses: array<nat>
    var lowTideA: int
    var highTideA: int
    var lowTideB: int
    var highTideB: int
    var useTideA: bool
    var checkSignalRequests: bool

    /** Whether signalling semaphore `n`, as the `k`-th signal ever, switches context. */
    const switches: (nat, nat) -> bool
    /** The semaphores signalled so far, in order. */
    var calls: seq<nat>

    ghost predicate Valid()
      reads this, requests, responses
    {
      requests != responses && requests.Length == responses.Length && Contents().Valid()
    }

    function Contents(): Table
      reads this, requests, responses
    {
      Table(requests[..], responses[..], Tides(lowTideA, highTideA), Tides(lowTideB, highTideB),
            useTideA, checkSignalRequests)
    }

    /** Some signal since the first `from` ones switched context. */
    ghost predicate SwitchedSince(from: nat, log: seq<nat>) {
      exists k :: from <= k < |log| && switches(k, log[k])
    }

    lemma OneMoreCall(from: nat, log: seq<nat>, n: nat)
      requires from <= |log|
      ensures SwitchedSince(from, log + [n]) <==> SwitchedSince(from, log) || switches(|log|, n)
    {
      var longer := log + [n];
      assert forall k :: 0 <= k < |log| ==> longer[k] == log[k];
      assert longer[|log|] == n;
    }

    lemma SwitchedAppend(from: nat, log: seq<nat>, more: seq<nat>)
      requires from <= |log|
      ensures SwitchedSince(from, log + more) <==> SwitchedSince(from, log) || SwitchedSince(|log|, log + more)
    {
      var longer := log + more;
      assert forall k :: 0 <= k < |log| ==> longer[k] == log[k];
    }

    constructor (switches: (nat, nat) -> bool)
      ensures Valid() && fresh(requests) && fresh(responses) && calls == []
      ensures Contents() == Table([], [], Tides(0x7FFF_FFFF, -1), Tides(0x7FFF_FFFF, -1), true, false)
    {
      requests, responses := new nat[0], new nat[0];
      lowTideA, highTideA := MAX_TIDE, MIN_TIDE;
      lowTideB, highTideB := MAX_TIDE, MIN_TIDE;
      useTideA, checkSignalRequests := true, false;
      this.switches := switches;
      calls := [];
    }

    method SetMaxTableSize(n: int)
      requires Valid() && n <= 0x4000_0000
      modifies this`requests, this`responses
      ensures Valid() && requests.Length >= n
      ensures if old(requests.Length) < n
              then fresh(requests) && fresh(responses)
                && PowerOfTwo(requests.Length) && requests.Length < 2 * n
                && (forall i :: 0 <= i < requests.Length ==>
                      && requests[i] == (if i < old(requests.Length) then old(requests[..])[i] else 0)
                      && responses[i] == (if i < old(requests.Length) then old(responses[..])[i] else 0))
                && Contents() == Grown(old(Contents()), requests.Length)
              else Contents() == old(Contents())
    {
      if requests.Length < n {
        ghost var before := Contents();
        RoundedUp(n - 1);
        var size := ShiftLeft1(HighBit(n - 1));
        requests := Reallocated(requests, size);
        responses := Reallocated(responses, size);
        assert requests[..] == Grown(before, size).requests;
        assert responses[..] == Grown(before, size).responses;
        GrowingDisturbsNothing(before, size, 0);
        GrownSlots(before, size);
      }
    }

    /** `realloc` to a larger size, the added part cleared. */
    static method Reallocated(a: array<nat>, size: nat) returns (b: array<nat>)
      requires a.Length <= size
      ensures fresh(b) && b[..] == a[..] + seq(size - a.Length, _ => 0)
    {
      b := new nat[size](_ => 0);
      var i := 0;
      while i < a.Length
        invariant 0 <= i <= a.Length
        invariant forall k :: 0 <= k < size ==> b[k] == if k < i then a[k] else 0
        modifies b
      {
        b[i] := a[i];
        i := i + 1;
      }
    }

    /** A signal that nothing interferes with. */
    method SignalSemaphoreWithIndex(index: int) returns (accepted: bool)
      requires Valid()
      modifies this`lowTideA, this`highTideA, this`lowTideB, this`highTideB, this`checkSignalRequests, requests
      ensures Valid() && calls == old(calls)
      ensures accepted <==> 1 <= index <= requests.Length
      ensures Contents() == if accepted then Requested(old(Contents()), index - 1) else old(Contents())
    {
      var i := index - 1;
      if i < 0 || i >= requests.Length {
        return false;
      }
      ghost var before := Contents();
      requests[i] := Bump(requests[i]);
      assert requests[..] == before.requests[i := Bump(before.requests[i])];
      MarkTides(i);
      checkSignalRequests := true;
      accepted := true;
      RequestKeepsQuiet(before, i, 0);
    }

    /** The compare-and-swap loops on the side in use; nothing else moves. */
    method MarkTides(i: int)
      modifies this`lowTideA, this`highTideA, this`lowTideB, this`highTideB
      ensures useTideA ==>
                && lowTideA == Min(old(lowTideA), i) && highTideA == Max(old(highTideA), i)
                && lowTideB == old(lowTideB) && highTideB == old(highTideB)
      ensures !useTideA ==>
                && lowTideB == Min(old(lowTideB), i) && highTideB == Max(old(highTideB), i)
                && lowTideA == old(lowTideA) && highTideA == old(highTideA)
    {
      if useTideA {
        var v := lowTideA;
        while v > i
          invariant v == lowTideA && (v == old(lowTideA) || (v == i && i < old(lowTideA)))
          modifies this`lowTideA
          decreases v - i
        {
          if lowTideA == v { lowTideA := i; }
          v := lowTideA;
        }
        v := highTideA;
        while v < i
          invariant v == highTideA && (v == old(highTideA) || (v == i && old(highTideA) < i))
          modifies this`highTideA
          decreases i - v
        {
          if highTideA == v { highTideA := i; }
          v := highTideA;
        }
      } else {
        var v := lowTideB;
        while v > i
          invariant v == lowTideB && (v == old(lowTideB) || (v == i && i < old(lowTideB)))
          modifies this`lowTideB
          decreases v - i
        {
          if lowTideB == v { lowTideB := i; }
          v := lowTideB;
        }
        v := highTideB;
        while v < i
          invariant v == highTideB && (v == old(highTideB) || (v == i && old(highTideB) < i))
          modifies this`highTideB
          decreases i - v
        {
          if highTideB == v { highTideB := i; }
          v := highTideB;
        }
      }
    }

    /** A response that nothing interferes with. Started from the coverage invariant it signals
        exactly what is pending below the limit, in order, and leaves nothing pending there. */
    method DoSignalExternalSemaphores(limit: nat) returns (switched: bool)
      requires Valid()
      modifies this`lowTideA, this`highTideA, this`lowTideB, this`highTideB, this`useTideA,
               this`checkSignalRequests, this`calls, responses
      ensures Valid()
      ensures !old(checkSignalRequests) ==> Contents() == old(Contents()) && calls == old(calls)
      ensures old(checkSignalRequests) ==>
                var p := old(Contents()).InUse();
                && Contents() == Responded(old(Contents()), limit)
                && calls == old(calls) + Drain(old(Contents()), p.low, LastScanned(p.high, limit))
      ensures switched <==> SwitchedSince(|old(calls)|, calls)
      ensures Quiet(old(Contents()), limit) ==> RespondedFully(old(Contents()), Contents(), limit, calls[|old(calls)|..])
    {
      QuietResponse(Contents(), limit);
      if !checkSignalRequests {
        assert calls[|old(calls)|..] == [];
        return false;
      }
      switched := Respond(limit);
      assert calls[|old(calls)|..] ==
             Drain(old(Contents()), old(Contents()).InUse().low, LastScanned(old(Contents()).InUse().high, limit));
    }

    /** The response proper, with the flag up. */
    method Respond(limit: nat) returns (switched: bool)
      requires Valid() && checkSignalRequests
      modifies this`lowTideA, this`highTideA, this`lowTideB, this`highTideB, this`useTideA,
               this`checkSignalRequests, this`calls, responses
      ensures Valid() && Contents() == Responded(old(Contents()), limit)
      ensures var p := old(Contents()).InUse();
              calls == old(calls) + Drain(old(Contents()), p.low, LastScanned(p.high, limit))
      ensures switched <==> SwitchedSince(|old(calls)|, calls)
    {
      ghost var t := Contents();
      switched := false;
      checkSignalRequests := false;
      var lowTide, highTide := SwitchTides();
      if highTide >= limit {
        highTide := limit - 1;
      }
      switched := Scan(lowTide, highTide, t);
      assert Contents() == Responded(t, limit);
      RespondedIsValid(t, limit);
    }

    /** Empties the idle tides, toggles, and reads the tides that were in use. */
    method SwitchTides() returns (lowTide: int, highTide: int)
      requires Valid()
      modifies this`lowTideA, this`highTideA, this`lowTideB, this`highTideB, this`useTideA
      ensures var t := old(Contents());
              && Contents() == t.(useTideA := !t.useTideA).WithPair(!t.useTideA, EMPTY_TIDES)
              && lowTide == t.InUse().low && highTide == t.InUse().high
      ensures Valid()
    {
      if useTideA {
        lowTideB := MAX_TIDE;
        highTideB := MIN_TIDE;
        useTideA := false;
        lowTide, highTide := lowTideA, highTideA;
      } else {
        lowTideA := MAX_TIDE;
        highTideA := MIN_TIDE;
        useTideA := true;
        lowTide, highTide := lowTideB, highTideB;
      }
    }

    /** The scan of the retired range. */
    method Scan(lowTide: int, highTide: int, ghost t: Table) returns (switched: bool)
      requires Valid() && 0 <= lowTide && highTide < requests.Length
      requires t.Valid() && t.requests == requests[..] && t.responses == responses[..]
      modifies this`calls, responses
      ensures responses[..] == CaughtUp(t.requests, t.responses, lowTide, highTide)
      ensures calls == old(calls) + Drain(t, lowTide, highTide)
      ensures switched <==> SwitchedSince(|old(calls)|, calls)
    {
      switched := false;
      var i := lowTide;
      assert CaughtUp(t.requests, t.responses, lowTide, lowTide - 1) == t.responses;
      while i <= highTide
        invariant lowTide <= i && (if lowTide <= highTide then i <= highTide + 1 else i == lowTide)
        invariant responses[..] == CaughtUp(t.requests, t.responses, lowTide, i - 1)
        invariant calls == old(calls) + Drain(t, lowTide, Min(i - 1, highTide))
        invariant switched <==> SwitchedSince(|old(calls)|, calls)
      {
        ghost var before := calls;
        var here := AnswerSlot(i);
        SwitchedAppend(|old(calls)|, before, Repeat(i, Distance(t.responses[i], t.requests[i])));
        if here {
          switched := true;
        }
        OneMoreSlot(t, lowTide, i);
        i := i + 1;
      }
      assert highTide < lowTide ==> CaughtUp(t.requests, t.responses, lowTide, highTide) == t.responses;
    }

    /** The inner loop: slot `i` catches up, its semaphore signalled once per bump. */
    method AnswerSlot(i: nat) returns (switched: bool)
      requires Valid() && i < requests.Length
      modifies this`calls, responses
      ensures responses[..] == old(responses[..])[i := requests[i]]
      ensures calls == old(calls) + Repeat(i, Distance(old(responses[i]), requests[i]))
      ensures switched <==> SwitchedSince(|old(calls)|, calls)
    {
      switched := false;
      ghost var n := 0;
      while responses[i] != requests[i]
        invariant forall k :: 0 <= k < responses.Length && k != i ==> responses[k] == old(responses[k])
        invariant responses[i] < COUNTER_RANGE
        invariant n + Distance(responses[i], requests[i]) == Distance(old(responses[i]), requests[i])
        invariant calls == old(calls) + Repeat(i, n)
        invariant switched <==> SwitchedSince(|old(calls)|, calls)
        decreases Distance(responses[i], requests[i])
      {
        ghost var sofar := calls;
        var here := Signal(i + 1);
        OneMoreCall(|old(calls)|, sofar, i + 1);
        if here {
          switched := true;
        }
        assert Repeat(i, n + 1) == Repeat(i, n) + [i + 1];
        responses[i] := Bump(responses[i]);
        n := n + 1;
      }
    }

    /** The quiescence test of the program's own test harness. It starts at slot 1, so it says
        nothing about slot 0, that is about external semaphore number 1. */
    method AllRequestsAreAnswered(limit: nat) returns (answered: bool)
      requires Valid() && limit <= requests.Length
      ensures answered <==> forall i :: 1 <= i < limit ==> !Contents().Pending(i)
    {
      var i := 1;
      while i < limit
        invariant 1 <= i && (i <= limit || limit <= 1)
        invariant forall k :: 1 <= k < i ==> !Contents().Pending(k)
      {
        if responses[i] != requests[i] {
          assert Contents().Pending(i);
          return false;
        }
        i := i + 1;
      }
      answered := true;
    }

    /** `doSignalSemaphoreWithIndex`: recorded, and answered by the environment. */
    method Signal(n: nat) returns (here: bool)
      modifies this`calls
      ensures calls == old(calls) + [n] && here == switches(|old(calls)|, n)
    {
      here := switches(|calls|, n);
      calls := calls + [n];
    }
  }
}
