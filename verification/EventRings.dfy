/** The event buffer and the key buffer: rings that drop the oldest item when full. */
module EventRings {
  import opened Wrappers

  const MAX_EVENT_BUFFER: nat := 1024
  const KEYBUF_SIZE: nat := 64
  const FULL_SCREEN_UPDATE: int := 98
  const POST_EVENT_PROCESSING: int := 99

  datatype Event = Event(kind: int, payload: int)

  predicate Internal(e: Event) {
    e.kind == FULL_SCREEN_UPDATE || e.kind == POST_EVENT_PROCESSING
  }

  /** The slots from `get` up to `put`, going round. */
  function Queue<T>(s: seq<T>, get: nat, put: nat): (q: seq<T>)
    requires get < |s| && put < |s|
    ensures |q| == if get <= put then put - get else |s| - get + put
  {
    if get <= put then s[get..put] else s[get..] + s[..put]
  }

  /** A queue of at most `room` items, the oldest making way. */
  function Enqueued<T>(q: seq<T>, x: T, room: nat): seq<T> {
    var longer := q + [x];
    if |longer| <= room then longer else longer[1..]
  }

  lemma Wrapped(k: nat, n: nat)
    requires k < n
    ensures (k + 1) % n == if k + 1 == n then 0 else k + 1
  {
  }

  lemma PutRefines<T>(s: seq<T>, get: nat, put: nat, x: T)
    requires get < |s| && put < |s| && |s| > 1
    ensures var put' := (put + 1) % |s|;
            var get' := if get == put' then (get + 1) % |s| else get;
            Queue(s[put := x], get', put') == Enqueued(Queue(s, get, put), x, |s| - 1)
  {
    var t, put' := s[put := x], (put + 1) % |s|;
    Wrapped(put, |s|);
    Wrapped(get, |s|);
    var q := Queue(s, get, put);
    if get != put' {
      assert Queue(t, get, put') == q + [x];
    } else {
      assert |q| == |s| - 1;
      assert Queue(t, (get + 1) % |s|, put') == (q + [x])[1..];
    }
  }

  lemma FullExactlyWhen<T>(s: seq<T>, get: nat, put: nat)
    requires get < |s| && put < |s| && |s| > 1
    ensures |Queue(s, get, put)| == |s| - 1 <==> get == (put + 1) % |s|
    ensures |Queue(s, get, put)| <= |s| - 1
  {
    Wrapped(put, |s|);
  }

  lemma GetRefines<T>(s: seq<T>, get: nat, put: nat)
    requires get < |s| && put < |s| && get != put
    ensures Queue(s, get, put) == [s[get]] + Queue(s, (get + 1) % |s|, put)
  {
    Wrapped(get, |s|);
  }

  function EnqueuedAll<T>(q: seq<T>, xs: seq<T>, room: nat): seq<T>
    decreases |xs|
  {
    if xs == [] then q else EnqueuedAll(Enqueued(q, xs[0], room), xs[1..], room)
  }

  function Newest<T>(xs: seq<T>, room: nat): seq<T> {
    if |xs| <= room then xs else xs[|xs| - room..]
  }

  /** However many items are put in a row, the ring holds the newest ones it has room for, in order. */
  lemma {:induction false} NewestSurvive<T>(q: seq<T>, xs: seq<T>, room: nat)
    requires |q| <= room
    ensures EnqueuedAll(q, xs, room) == Newest(q + xs, room)
    decreases |xs|
  {
    if xs == [] {
      assert q + xs == q;
    } else {
      NewestSurvive(Enqueued(q, xs[0], room), xs[1..], room);
      assert q + xs == (q + [xs[0]]) + xs[1..];
      assert |q| == room ==> Enqueued(q, xs[0], room) + xs[1..] == (q + xs)[1..];
    }
  }

  /** What one call of `ioGetNextEvent` comes to. */
  datatype Service = Service(answer: Option<Event>, rest: seq<Event>, handled: seq<Event>)

  function Arrived(q: seq<Event>, arrivals: seq<seq<Event>>): seq<Event> {
    if arrivals == [] then q else EnqueuedAll(q, arrivals[0], MAX_EVENT_BUFFER - 1)
  }

  function Later(arrivals: seq<seq<Event>>): seq<seq<Event>> {
    if arrivals == [] then [] else arrivals[1..]
  }

  /** `arrivals` lists what `ioProcessEvents` puts at each round of the recursion, until nothing more
      arrives; the internal events met are handled one by one. */
  function Serve(q: seq<Event>, arrivals: seq<seq<Event>>): Service
    decreases |arrivals|, |q|
  {
    var q', later := Arrived(q, arrivals), Later(arrivals);
    if q' == [] then Service(None, [], [])
    else if Internal(q'[0]) then
      var s := Serve(q'[1..], later);
      s.(handled := [q'[0]] + s.handled)
    else Service(Some(q'[0]), q'[1..], [])
  }

  function FirstBatch(arrivals: seq<seq<Event>>): seq<Event> {
    if arrivals == [] then [] else arrivals[0]
  }

  function Flat(arrivals: seq<seq<Event>>): seq<Event> {
    if arrivals == [] then [] else arrivals[0] + Flat(arrivals[1..])
  }

  function Answered(e: Option<Event>): seq<Event> {
    if e.Some? then [e.value] else []
  }

  /** The arrivals the call gets to see: one batch per event handled, and one more. */
  function Seen(arrivals: seq<seq<Event>>, handled: nat): seq<Event> {
    Flat(arrivals[..if handled < |arrivals| then handled + 1 else |arrivals|])
  }

  /** Nothing internal is ever answered and nothing visible handled; none is answered only once the
      queue has run dry. */
  lemma {:induction false} ServesByKind(q: seq<Event>, arrivals: seq<seq<Event>>)
    ensures var s := Serve(q, arrivals);
            && (forall e :: e in s.handled ==> e.kind == 98 || e.kind == 99)
            && (s.answer.Some? ==> s.answer.value.kind != 98 && s.answer.value.kind != 99)
            && (s.answer.None? ==> s.rest == [])
    decreases |arrivals|, |q|
  {
    var q' := Arrived(q, arrivals);
    if q' != [] && Internal(q'[0]) {
      ServesByKind(q'[1..], Later(arrivals));
    }
  }

  lemma {:induction false} AllFit(q: seq<Event>, es: seq<Event>)
    requires |q| + |es| <= MAX_EVENT_BUFFER - 1
    ensures EnqueuedAll(q, es, MAX_EVENT_BUFFER - 1) == q + es
    decreases |es|
  {
    if es == [] {
      assert q + es == q;
    } else {
      AllFit(q + [es[0]], es[1..]);
      assert q + es == (q + [es[0]]) + es[1..];
    }
  }

  lemma OneSeen(arrivals: seq<seq<Event>>)
    ensures Seen(arrivals, 0) == FirstBatch(arrivals)
  {
    if arrivals != [] {
      assert arrivals[..1] == [arrivals[0]];
      assert Flat([arrivals[0]]) == arrivals[0] + Flat([]);
    }
  }

  lemma OneMoreSeen(arrivals: seq<seq<Event>>, n: nat)
    ensures Seen(arrivals, n + 1) == FirstBatch(arrivals) + Seen(Later(arrivals), n)
  {
    if arrivals != [] {
      var k := if n + 1 < |arrivals| then n + 2 else |arrivals|;
      assert arrivals[..k][0] == arrivals[0] && arrivals[..k][1..] == arrivals[1..][..k - 1];
    }
  }

  lemma ArrivedInOrder(q: seq<Event>, arrivals: seq<seq<Event>>)
    requires |q| + |Flat(arrivals)| <= 1023
    ensures Arrived(q, arrivals) == q + FirstBatch(arrivals)
    ensures |Flat(arrivals)| == |FirstBatch(arrivals)| + |Flat(Later(arrivals))|
  {
    if arrivals != [] {
      AllFit(q, arrivals[0]);
    }
  }

  lemma Prepended(e: Event, h: seq<Event>, a: seq<Event>, r: seq<Event>, q: seq<Event>, f: seq<Event>, x: seq<Event>)
    requires q + f != [] && e == (q + f)[0] && h + a + r == (q + f)[1..] + x
    ensures ([e] + h) + a + r == q + (f + x)
  {
    assert ([e] + h) + a + r == [e] + (h + a + r);
    assert [e] + ((q + f)[1..] + x) == (q + f) + x;
  }

  /** As long as the arrivals fit, everything is met in the order it came: what was handled, then the
      answer, then what is left in the queue. */
  lemma {:induction false} ServesInOrder(q: seq<Event>, arrivals: seq<seq<Event>>)
    requires |q| + |Flat(arrivals)| <= 1023
    ensures var s := Serve(q, arrivals);
            s.handled + Answered(s.answer) + s.rest == q + Seen(arrivals, |s.handled|)
    decreases |arrivals|, |q|
  {
    var q', later := Arrived(q, arrivals), Later(arrivals);
    ArrivedInOrder(q, arrivals);
    if q' != [] && Internal(q'[0]) {
      var s := Serve(q'[1..], later);
      ServesInOrder(q'[1..], later);
      OneMoreSeen(arrivals, |s.handled|);
      Prepended(q'[0], s.handled, Answered(s.answer), s.rest, q, FirstBatch(arrivals), Seen(later, |s.handled|));
    } else {
      OneSeen(arrivals);
      assert q' != [] ==> q' == [q'[0]] + q'[1..];
    }
  }

  lemma OneInFront(q: seq<Event>, k: nat)
    requires q != [] && k < |q| - 1
    ensures var rest := q[1..];
            && q[k + 1] == rest[k] && q[k + 2..] == rest[k + 1..] && q[..k + 1] == [q[0]] + rest[..k]
            && forall j :: 1 <= j <= k ==> q[j] == rest[j - 1]
  {
  }

  /** With nothing arriving meanwhile: the answer is the oldest visible event, everything before it was
      internal and is handled in order, everything behind it stays. */
  lemma {:induction false} OldestVisibleEvent(q: seq<Event>)
    ensures var s := Serve(q, []);
            match s.answer
            case None => s.rest == [] && s.handled == q && forall k :: 0 <= k < |q| ==> q[k].kind == 98 || q[k].kind == 99
            case Some(e) =>
              var k := |s.handled|;
              && k < |q| && q[k] == e && e.kind != 98 && e.kind != 99 && s.rest == q[k + 1..]
              && s.handled == q[..k] && forall j :: 0 <= j < k ==> q[j].kind == 98 || q[j].kind == 99
  {
    if q != [] && Internal(q[0]) {
      var rest, s := q[1..], Serve(q[1..], []);
      OldestVisibleEvent(rest);
      assert q == [q[0]] + rest;
      if s.answer.Some? {
        OneInFront(q, |s.handled|);
      }
    }
  }

  /** One round, once the oldest event has been taken. */
  lemma ServiceFrom(q: seq<Event>, arrivals: seq<seq<Event>>, next: Event, rest: seq<Event>)
    requires Arrived(q, arrivals) == [next] + rest
    ensures Serve(q, arrivals) ==
              if Internal(next) then
                var s := Serve(rest, Later(arrivals)); s.(handled := [next] + s.handled)
              else Service(Some(next), rest, [])
  {
    assert Arrived(q, arrivals)[1..] == rest;
  }

  lemma Regroup(a: seq<Event>, e: Event, b: seq<Event>)
    ensures (a + [e]) + b == a + ([e] + b)
  {
  }

  class EventBuffer {
    var eventBuffer: array<Event>
    var eventBufferGet: nat
    var eventBufferPut: nat
    var handled: seq<Event>  // the internal events acted upon

    ghost predicate Valid()
      reads this
    {
      eventBuffer.Length == MAX_EVENT_BUFFER && eventBufferGet < MAX_EVENT_BUFFER && eventBufferPut < MAX_EVENT_BUFFER
    }

    ghost function Contents(): seq<Event>
      requires Valid()
      reads this, eventBuffer
    {
      Queue(eventBuffer[..], eventBufferGet, eventBufferPut)
    }

    constructor ()
      ensures Valid() && fresh(eventBuffer) && Contents() == [] && handled == []
    {
      eventBuffer := new Event[MAX_EVENT_BUFFER](_ => Event(0, 0));
      eventBufferGet, eventBufferPut, handled := 0, 0, [];
    }

    /** `nextEventPut` and the caller's filling in of the slot, under one lock. */
    method Put(e: Event)
      requires Valid()
      modifies this`eventBufferGet, this`eventBufferPut, eventBuffer
      ensures Valid() && Contents() == Enqueued(old(Contents()), e, 1023)
    {
      PutRefines(eventBuffer[..], eventBufferGet, eventBufferPut, e);
      var slot := eventBufferPut;
      eventBufferPut := (eventBufferPut + 1) % MAX_EVENT_BUFFER;
      if eventBufferGet == eventBufferPut {
        eventBufferGet := (eventBufferGet + 1) % MAX_EVENT_BUFFER;
      }
      eventBuffer[slot] := e;
    }

    /** Takes the newest event back. On an empty buffer it brings 1023 old slots to life instead. */
    method IgnoreLast()
      requires Valid()
      modifies this`eventBufferPut
      ensures Valid() && eventBufferGet == old(eventBufferGet)
      ensures old(Contents()) != [] ==> Contents() == old(Contents())[..|old(Contents())| - 1]
      ensures old(Contents()) == [] ==> |Contents()| == 1023
    {
      if eventBufferPut == 0 {
        eventBufferPut := MAX_EVENT_BUFFER - 1;
      } else {
        eventBufferPut := eventBufferPut - 1;
      }
    }

    /** Copies the oldest event out, under the lock. */
    method Take() returns (e: Event)
      requires Valid() && eventBufferGet != eventBufferPut
      modifies this`eventBufferGet
      ensures Valid() && old(Contents()) == [e] + Contents()
    {
      GetRefines(eventBuffer[..], eventBufferGet, eventBufferPut);
      e := eventBuffer[eventBufferGet];
      eventBufferGet := (eventBufferGet + 1) % MAX_EVENT_BUFFER;
    }

    /** The events the platform has waiting are put. */
    method ProcessEvents(es: seq<Event>)
      requires Valid()
      modifies this`eventBufferGet, this`eventBufferPut, eventBuffer
      ensures Valid() && Contents() == EnqueuedAll(old(Contents()), es, MAX_EVENT_BUFFER - 1)
    {
      var i := 0;
      assert es[0..] == es;
      while i < |es|
        invariant 0 <= i <= |es| && Valid()
        invariant EnqueuedAll(Contents(), es[i..], MAX_EVENT_BUFFER - 1)
               == EnqueuedAll(old(Contents()), es, MAX_EVENT_BUFFER - 1)
      {
        assert es[i..][0] == es[i] && es[i..][1..] == es[i + 1..];
        Put(es[i]);
        i := i + 1;
      }
      assert es[i..] == [];
    }

    /** Puts what arrives, then answers the oldest event; if that is an internal one, acts on it and
        starts again. */
    method GetNext(arrivals: seq<seq<Event>>) returns (e: Option<Event>)
      requires Valid()
      modifies this`eventBufferGet, this`eventBufferPut, this`handled, eventBuffer
      ensures Valid()
      ensures var s := Serve(old(Contents()), arrivals);
              e == s.answer && Contents() == s.rest && handled == old(handled) + s.handled
      decreases |arrivals|, |Contents()|
    {
      if arrivals != [] {
        ProcessEvents(arrivals[0]);
      }
      ghost var q := old(Contents());
      if eventBufferGet == eventBufferPut {
        return None;
      }
      var next := Take();
      ghost var rest, before := Contents(), handled;
      ServiceFrom(q, arrivals, next, rest);
      if Internal(next) {
        handled := handled + [next];
        e := GetNext(Later(arrivals));
        Regroup(before, next, Serve(rest, Later(arrivals)).handled);
        return;
      }
      e := Some(next);
    }
  }

  /** Putting an event and ignoring it again restores the queue exactly when it was not full: a
      full one has lost its oldest event. */
  lemma PutThenIgnore(q: seq<Event>, e: Event)
    requires |q| <= 1023
    ensures var p := Enqueued(q, e, 1023);
            p != [] && (p[..|p| - 1] == q <==> |q| < 1023)
  {
    var p := Enqueued(q, e, MAX_EVENT_BUFFER - 1);
    if |q| == MAX_EVENT_BUFFER - 1 {
      assert |p[..|p| - 1]| == |q| - 1;
    } else {
      assert p[..|p| - 1] == q;
    }
  }

  // ----- the key buffer

  /** Buttons in the low three bits, then the key's modifiers: bits 8 to 12 of its code. */
  function WithModifiers(buttonState: nat, key: nat): nat {
    key / 256 % 32 * 8 + buttonState % 8
  }

  /** Taken apart again: bits 0 to 2 are the buttons as they were, bits 3 to 7 are bits 8 to 12 of the key,
      and there are no others. */
  lemma ModifierBits(buttonState: nat, key: nat)
    ensures var r := WithModifiers(buttonState, key);
            r < 256 && r % 8 == buttonState % 8 && r / 8 == key / 256 % 32
  {
  }

  datatype Keys = Keys(held: seq<nat>, overflows: nat)
  datatype KeyOp = PutKey(key: nat) | GetKey

  function After(k: Keys, op: KeyOp): Keys {
    match op
    case PutKey(key) =>
      Keys(Enqueued(k.held, key, KEYBUF_SIZE - 1),
           if |k.held| >= KEYBUF_SIZE - 1 then k.overflows + 1 else k.overflows)
    case GetKey => if k.held == [] then k else k.(held := k.held[1..])
  }

  /** The ring holds 63 keys: one more drops the oldest and is counted. */
  lemma RoomFor63(k: Keys, key: nat)
    requires |k.held| <= 63
    ensures After(k, PutKey(key)) ==
              if |k.held| < 63 then Keys(k.held + [key], k.overflows) else Keys(k.held[1..] + [key], k.overflows + 1)
  {
    assert |k.held| == 63 ==> (k.held + [key])[1..] == k.held[1..] + [key];
  }

  function Typed(k: Keys, ops: seq<KeyOp>): Keys
    decreases |ops|
  {
    if ops == [] then k else Typed(After(k, ops[0]), ops[1..])
  }

  /** The keystrokes as operations of the ring: the interrupt key is none. */
  function Entering(keys: seq<nat>, interruptKeycode: int): seq<KeyOp> {
    if keys == [] then []
    else (if keys[0] == interruptKeycode then [] else [PutKey(keys[0])]) + Entering(keys[1..], interruptKeycode)
  }

  lemma EnteringOne(k: Keys, keys: seq<nat>, interruptKeycode: int)
    requires keys != []
    ensures Typed(k, Entering(keys, interruptKeycode))
         == Typed(if keys[0] == interruptKeycode then k else After(k, PutKey(keys[0])), Entering(keys[1..], interruptKeycode))
  {
    var rest := Entering(keys[1..], interruptKeycode);
    if keys[0] == interruptKeycode {
      assert Entering(keys, interruptKeycode) == rest;
    } else {
      assert Entering(keys, interruptKeycode)[0] == PutKey(keys[0]) && Entering(keys, interruptKeycode)[1..] == rest;
    }
  }

  class KeyBuffer {
    var keyBuf: array<nat>
    var keyBufGet: nat
    var keyBufPut: nat
    var keyBufOverflows: nat
    var buttonState: nat
    var interruptKeycode: int
    var interruptPending: bool

    ghost predicate Valid()
      reads this
    {
      keyBuf.Length == KEYBUF_SIZE && keyBufGet < KEYBUF_SIZE && keyBufPut < KEYBUF_SIZE
    }

    ghost function Contents(): Keys
      requires Valid()
      reads this, keyBuf
    {
      Keys(Queue(keyBuf[..], keyBufGet, keyBufPut), keyBufOverflows)
    }

    constructor (interruptKeycode: int)
      ensures Valid() && fresh(keyBuf) && Contents() == Keys([], 0)
      ensures buttonState == 0 && this.interruptKeycode == interruptKeycode && !interruptPending
    {
      buttonState, this.interruptKeycode, interruptPending := 0, interruptKeycode, false;
      keyBuf := new nat[KEYBUF_SIZE](_ => 0);
      keyBufGet, keyBufPut, keyBufOverflows := 0, 0, 0;
    }

    /** The interrupt key is not entered; it asks for an interrupt. */
    method Put(key: nat)
      requires Valid()
      modifies this`keyBufGet, this`keyBufPut, this`keyBufOverflows, this`interruptPending, keyBuf
      ensures Valid()
      ensures interruptPending == (old(interruptPending) || key == interruptKeycode)
      ensures Contents() == if key == interruptKeycode then old(Contents()) else After(old(Contents()), PutKey(key))
    {
      if key == interruptKeycode {
        interruptPending := true;
      } else {
        PutRefines(keyBuf[..], keyBufGet, keyBufPut, key);
        FullExactlyWhen(keyBuf[..], keyBufGet, keyBufPut);
        keyBuf[keyBufPut] := key;
        keyBufPut := (keyBufPut + 1) % KEYBUF_SIZE;
        if keyBufGet == keyBufPut {
          keyBufGet := (keyBufGet + 1) % KEYBUF_SIZE;
          keyBufOverflows := keyBufOverflows + 1;
        }
      }
    }

    /** The keystrokes the platform has waiting are entered. */
    method ProcessEvents(keys: seq<nat>)
      requires Valid()
      modifies this`keyBufGet, this`keyBufPut, this`keyBufOverflows, this`interruptPending, keyBuf
      ensures Valid() && Contents() == Typed(old(Contents()), Entering(keys, interruptKeycode))
      ensures interruptPending == (old(interruptPending) || exists k :: 0 <= k < |keys| && keys[k] == interruptKeycode)
    {
      var i := 0;
      assert keys[0..] == keys;
      while i < |keys|
        invariant 0 <= i <= |keys| && Valid()
        invariant Typed(Contents(), Entering(keys[i..], interruptKeycode))
               == Typed(old(Contents()), Entering(keys, interruptKeycode))
        invariant interruptPending == (old(interruptPending) || exists k :: 0 <= k < i && keys[k] == interruptKeycode)
      {
        EnteringOne(Contents(), keys[i..], interruptKeycode);
        assert keys[i..][0] == keys[i] && keys[i..][1..] == keys[i + 1..];
        Put(keys[i]);
        i := i + 1;
      }
      assert keys[i..] == [];
    }

    method Take() returns (key: nat)
      requires Valid() && keyBufGet != keyBufPut
      modifies this`keyBufGet
      ensures Valid() && old(Contents()).held != [] && key == old(Contents()).held[0]
      ensures Contents() == old(Contents()).(held := old(Contents()).held[1..])
    {
      GetRefines(keyBuf[..], keyBufGet, keyBufPut);
      key := keyBuf[keyBufGet];
      keyBufGet := (keyBufGet + 1) % KEYBUF_SIZE;
    }

    /** Enters what arrives, then answers the oldest key, or -1 if there is none; the modifier bits of the
        button state become those of that key. */
    method Get(arrivals: seq<nat>) returns (key: int)
      requires Valid()
      modifies this`keyBufGet, this`keyBufPut, this`keyBufOverflows, this`buttonState, this`interruptPending, keyBuf
      ensures Valid()
      ensures var k := Typed(old(Contents()), Entering(arrivals, interruptKeycode));
              && Contents() == After(k, GetKey)
              && key == (if k.held == [] then -1 else k.held[0])
              && buttonState == if k.held == [] then old(buttonState) else WithModifiers(old(buttonState), k.held[0])
      ensures interruptPending == (old(interruptPending) || exists k :: 0 <= k < |arrivals| && arrivals[k] == interruptKeycode)
    {
      ProcessEvents(arrivals);
      if keyBufGet == keyBufPut {
        return -1;
      }
      key := Take();
      buttonState := WithModifiers(buttonState, key);
    }
  }

  function EnteredBy(op: KeyOp): seq<nat> {
    if op.PutKey? then [op.key] else []
  }

  /** The keys put, and the keys got, in order. */
  function Entered(ops: seq<KeyOp>): seq<nat> {
    if ops == [] then [] else EnteredBy(ops[0]) + Entered(ops[1..])
  }

  function GotBy(k: Keys, op: KeyOp): seq<nat> {
    if op.GetKey? && k.held != [] then [k.held[0]] else []
  }

  function Got(k: Keys, ops: seq<KeyOp>): seq<nat>
    decreases |ops|
  {
    if ops == [] then [] else GotBy(k, ops[0]) + Got(After(k, ops[0]), ops[1..])
  }

  /** Conservation: every key entered has been got, is held, or was counted as dropped. */
  lemma {:induction false} KeysAreConserved(k: Keys, ops: seq<KeyOp>)
    requires |k.held| <= 63
    ensures var k' := Typed(k, ops);
            && |k'.held| <= 63 && k.overflows <= k'.overflows
            && |k.held| + |Entered(ops)| == |Got(k, ops)| + |k'.held| + (k'.overflows - k.overflows)
    decreases |ops|
  {
    if ops != [] {
      KeysAreConserved(After(k, ops[0]), ops[1..]);
    }
  }

  /** How a key leaves the ring: fetched, or dropped to make way. */
  datatype Departure = Fetched(key: nat) | Dropped(key: nat)

  function DepartedBy(k: Keys, op: KeyOp): seq<Departure> {
    match op
    case PutKey(_) => if |k.held| >= KEYBUF_SIZE - 1 then [Dropped(k.held[0])] else []
    case GetKey => if k.held == [] then [] else [Fetched(k.held[0])]
  }

  function Departures(k: Keys, ops: seq<KeyOp>): seq<Departure>
    decreases |ops|
  {
    if ops == [] then [] else DepartedBy(k, ops[0]) + Departures(After(k, ops[0]), ops[1..])
  }

  function KeysOf(ds: seq<Departure>): seq<nat> {
    seq(|ds|, i requires 0 <= i < |ds| => ds[i].key)
  }

  /** The keys fetched, and the number dropped. */
  function FetchedOf(ds: seq<Departure>): seq<nat> {
    if ds == [] then [] else (if ds[0].Fetched? then [ds[0].key] else []) + FetchedOf(ds[1..])
  }

  function DroppedCount(ds: seq<Departure>): nat {
    if ds == [] then 0 else (if ds[0].Dropped? then 1 else 0) + DroppedCount(ds[1..])
  }

  lemma OneKeyOp(k: Keys, op: KeyOp)
    requires |k.held| <= 63
    ensures k.held + EnteredBy(op) == KeysOf(DepartedBy(k, op)) + After(k, op).held
    ensures FetchedOf(DepartedBy(k, op)) == GotBy(k, op)
    ensures After(k, op).overflows == k.overflows + DroppedCount(DepartedBy(k, op))
    ensures |After(k, op).held| <= 63
  {
  }

  lemma Flow(held: seq<nat>, e: seq<nat>, es: seq<nat>, g: seq<nat>, gs: seq<nat>, held': seq<nat>, left: seq<nat>)
    requires held + e == g + held' && held' + es == gs + left
    ensures held + (e + es) == (g + gs) + left
  {
    assert held + (e + es) == (held + e) + es == g + (held' + es) == (g + gs) + left;
  }

  lemma OneMoreDeparture(d: seq<Departure>, ds: seq<Departure>)
    requires |d| <= 1
    ensures KeysOf(d + ds) == KeysOf(d) + KeysOf(ds)
    ensures FetchedOf(d + ds) == FetchedOf(d) + FetchedOf(ds)
    ensures DroppedCount(d + ds) == DroppedCount(d) + DroppedCount(ds)
  {
    if d == [] {
      assert d + ds == ds;
    } else {
      assert (d + ds)[1..] == ds && d[1..] == [];
    }
  }

  /** Keys leave in the order they came: those that departed, then those still held, are exactly those
      held before and those entered. Of the departed, the fetched ones are what was got, the dropped
      ones, each the oldest at its time, number the overflows. */
  lemma {:induction false} KeysLeaveInOrder(k: Keys, ops: seq<KeyOp>)
    requires |k.held| <= 63
    ensures var ds := Departures(k, ops);
            && k.held + Entered(ops) == KeysOf(ds) + Typed(k, ops).held
            && FetchedOf(ds) == Got(k, ops)
            && Typed(k, ops).overflows == k.overflows + DroppedCount(ds)
    decreases |ops|
  {
    if ops != [] {
      var k', rest := After(k, ops[0]), ops[1..];
      var d, ds := DepartedBy(k, ops[0]), Departures(k', rest);
      OneKeyOp(k, ops[0]);
      KeysLeaveInOrder(k', rest);
      OneMoreDeparture(d, ds);
      Flow(k.held, EnteredBy(ops[0]), Entered(rest), KeysOf(d), KeysOf(ds), k'.held, Typed(k', rest).held);
    }
  }

  lemma {:induction false} NothingDropped(ds: seq<Departure>)
    requires DroppedCount(ds) == 0
    ensures FetchedOf(ds) == KeysOf(ds)
  {
    if ds != [] {
      NothingDropped(ds[1..]);
      assert KeysOf(ds) == [ds[0].key] + KeysOf(ds[1..]);
    }
  }

  /** With no overflow the keys come out as they went in. */
  lemma NoOverflowNoLoss(k: Keys, ops: seq<KeyOp>)
    requires |k.held| <= 63 && Typed(k, ops).overflows == k.overflows
    ensures k.held + Entered(ops) == Got(k, ops) + Typed(k, ops).held
  {
    KeysLeaveInOrder(k, ops);
    NothingDropped(Departures(k, ops));
  }
}
