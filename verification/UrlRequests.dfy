/** The URL request table: handles that are reused, notices that carry the id of the request they
    were issued for. */
module UrlRequests {
  import opened Wrappers

  const URL_REQUEST_COUNT: nat := 100
  const MAX_STRING_LENGTH: nat := 1000
  /** Ids below this fit the token without overflow. */
  const ID_LIMIT: int := 0x80_0000

  datatype Status = Idle | InProgress | Failed | Succeeded

  datatype Request = Request(id: int, status: Status, semaIndex: int, fileName: string, buffered: bool)

  /** `signals` lists the semaphores signalled, `deleted` the files removed. */
  datatype Table = Table(requests: seq<Request>, nextId: int, signals: seq<int>, deleted: seq<string>)

  /** A 32-bit two's complement integer. */
  function Wrap(x: int): int {
    (x + 0x8000_0000) % 0x1_0000_0000 - 0x8000_0000
  }

  /** The token handed to the browser, and the two parts taken from it again: the low byte, and
      the arithmetic shift by 8. */
  function Token(id: int, handle: nat): int {
    Wrap(id * 256 + handle)
  }

  function TokenHandle(token: int): nat { token % 256 }
  function TokenId(token: int): int { token / 256 }

  lemma TokenRoundTrip(id: int, handle: nat)
    requires handle < 100
    ensures TokenHandle(Token(id, handle)) == handle
    ensures TokenId(Token(id, handle)) == id <==> -0x80_0000 <= id < 0x80_0000
  {
    var x := id * 256 + handle;
    var w := (x + 0x8000_0000) / 0x1_0000_0000;
    assert Token(id, handle) == (id - w * 0x100_0000) * 256 + handle;
  }

  function FirstIdle(requests: seq<Request>): (k: nat)
    ensures k <= |requests|
    ensures k < |requests| ==> requests[k].status.Idle?
    ensures forall j :: 0 <= j < k ==> !requests[j].status.Idle?
  {
    if requests == [] || requests[0].status.Idle? then 0 else 1 + FirstIdle(requests[1..])
  }

  lemma FirstIdleIs(requests: seq<Request>, k: nat)
    requires k <= |requests| && (k < |requests| ==> requests[k].status.Idle?)
    requires forall j :: 0 <= j < k ==> !requests[j].status.Idle?
    ensures FirstIdle(requests) == k
  {
  }

  // ----- one request

  datatype Notice = Completion(fileName: Option<string>) | Failure

  function Truncated(s: string): string {
    if |s| <= MAX_STRING_LENGTH then s else s[..MAX_STRING_LENGTH]
  }

  /** What a notice that reaches its request makes of it. */
  function Notified(r: Request, n: Notice): Request {
    var verdict :=
      if r.status.Succeeded? || r.status.Failed? then r.status
      else if n.Completion? then Succeeded else Failed;
    var name :=
      if n.Completion? && n.fileName.Some? then Truncated(n.fileName.value) else r.fileName;
    r.(status := verdict, fileName := name, buffered := false)
  }

  /** The fields a notice leaves: id and semaphore untouched, no buffer any more, and the name a completion
      brings, cut to 1000 characters; a failure brings none. */
  lemma NoticeLeaves(r: Request, n: Notice)
    ensures var u := Notified(r, n);
            && u.id == r.id && u.semaIndex == r.semaIndex && !u.buffered
            && (n.Failure? || n.fileName.None? ==> u.fileName == r.fileName)
            && (n.Completion? && n.fileName.Some? ==>
                  var name := n.fileName.value;
                  u.fileName == if |name| <= 1000 then name else name[..1000])
  {
  }

  /** ... and whether it signals: always, unless the request has already succeeded. */
  predicate NoticeSignals(r: Request) {
    !r.status.Succeeded?
  }

  function NotifiedAll(r: Request, ns: seq<Notice>): Request
    decreases |ns|
  {
    if ns == [] then r else NotifiedAll(Notified(r, ns[0]), ns[1..])
  }

  function SignalCount(r: Request, ns: seq<Notice>): nat
    decreases |ns|
  {
    if ns == [] then 0 else (if NoticeSignals(r) then 1 else 0) + SignalCount(Notified(r, ns[0]), ns[1..])
  }

  lemma {:induction false} DecidedStaysDecided(r: Request, ns: seq<Notice>)
    requires r.status.Succeeded? || r.status.Failed?
    ensures NotifiedAll(r, ns).status == r.status
    ensures SignalCount(r, ns) == if r.status.Succeeded? then 0 else |ns|
    decreases |ns|
  {
    if ns != [] {
      DecidedStaysDecided(Notified(r, ns[0]), ns[1..]);
    }
  }

  /** The first notice fixes the verdict; a success signals exactly once however many notices
      follow, a failure once per notice. */
  lemma FirstNoticeDecides(r: Request, ns: seq<Notice>)
    requires r.status.InProgress? && ns != []
    ensures NotifiedAll(r, ns).status == if ns[0].Completion? then Succeeded else Failed
    ensures SignalCount(r, ns) == if ns[0].Completion? then 1 else |ns|
  {
    DecidedStaysDecided(Notified(r, ns[0]), ns[1..]);
  }

  // ----- the table

  function Created(t: Table, semaIndex: int, buffered: bool): Table {
    var k := FirstIdle(t.requests);
    if k == |t.requests| then t
    else t.(requests := t.requests[k := Request(t.nextId, InProgress, semaIndex, t.requests[k].fileName, buffered)],
            nextId := Wrap(t.nextId + 1))
  }

  /** The slot a notice with this token reaches. */
  predicate Reaches(t: Table, token: int) {
    TokenHandle(token) < |t.requests| && t.requests[TokenHandle(token)].id == TokenId(token)
  }

  function Delivered(t: Table, token: int, n: Notice): Table {
    if !Reaches(t, token) then t
    else
      var h := TokenHandle(token);
      t.(requests := t.requests[h := Notified(t.requests[h], n)],
         signals := t.signals + if NoticeSignals(t.requests[h]) then [t.requests[h].semaIndex] else [])
  }

  const BLANK := Request(0, Idle, 0, "", false)

  function Destroyed(t: Table, handle: int): Table {
    if 0 <= handle < |t.requests|
    then t.(requests := t.requests[handle := BLANK],
            deleted := t.deleted + if t.requests[handle].fileName != "" then [t.requests[handle].fileName] else [])
    else t
  }

  datatype Op =
    | Create(semaIndex: int, buffered: bool)
    | Notify(token: int, n: Notice)
    | Destroy(handle: int)

  function Do(t: Table, op: Op): Table {
    match op
    case Create(semaIndex, buffered) => Created(t, semaIndex, buffered)
    case Notify(token, n) => Delivered(t, token, n)
    case Destroy(handle) => Destroyed(t, handle)
  }

  function Session(t: Table, ops: seq<Op>): Table
    decreases |ops|
  {
    if ops == [] then t else Session(Do(t, ops[0]), ops[1..])
  }

  /** Every request in a slot has its own id, given out already; idle slots have id 0. */
  ghost predicate Consistent(t: Table) {
    && |t.requests| == URL_REQUEST_COUNT
    && 1 <= t.nextId <= ID_LIMIT
    && (forall i :: 0 <= i < |t.requests| ==>
          (if t.requests[i].status.Idle? then t.requests[i].id == 0 else 1 <= t.requests[i].id < t.nextId))
    && (forall i, j :: 0 <= i < j < |t.requests| && t.requests[i].id != 0 ==> t.requests[i].id != t.requests[j].id)
  }

  /** A notice carries a token that was issued at some time, in this session or an earlier one: no
      other comes back from the browser. */
  ghost predicate Genuine(op: Op) {
    op.Notify? ==> exists id, handle: nat ::
                     1 <= id < ID_LIMIT && handle < URL_REQUEST_COUNT && op.token == Token(id, handle)
  }

  ghost predicate GenuineSession(ops: seq<Op>) {
    forall k :: 0 <= k < |ops| ==> Genuine(ops[k])
  }

  function Creations(ops: seq<Op>): nat {
    if ops == [] then 0 else (if ops[0].Create? then 1 else 0) + Creations(ops[1..])
  }

  lemma GenuineReaches(t: Table, id: int, handle: nat)
    requires Consistent(t) && 1 <= id < ID_LIMIT && handle < URL_REQUEST_COUNT
    ensures Reaches(t, Token(id, handle)) <==> t.requests[handle].id == id
    ensures Reaches(t, Token(id, handle)) ==> !t.requests[handle].status.Idle?
  {
    TokenRoundTrip(id, handle);
  }

  lemma CreationKeepsConsistent(t: Table, semaIndex: int, buffered: bool)
    requires Consistent(t) && t.nextId < ID_LIMIT
    ensures Consistent(Created(t, semaIndex, buffered)) && Created(t, semaIndex, buffered).nextId <= t.nextId + 1
  {
    assert Wrap(t.nextId + 1) == t.nextId + 1;
  }

  /** A notice changes neither ids nor which slots are idle. */
  lemma NoticeKeepsIds(t: Table, token: int, n: Notice)
    requires Consistent(t) && Genuine(Notify(token, n))
    ensures var u := Delivered(t, token, n);
            && |u.requests| == |t.requests| && u.nextId == t.nextId
            && forall i :: 0 <= i < |t.requests| ==>
                 u.requests[i].id == t.requests[i].id && u.requests[i].status.Idle? == t.requests[i].status.Idle?
  {
    var id, handle: nat :| 1 <= id < ID_LIMIT && handle < URL_REQUEST_COUNT && token == Token(id, handle);
    GenuineReaches(t, id, handle);
  }

  lemma StepKeepsConsistent(t: Table, op: Op)
    requires Consistent(t) && Genuine(op) && (op.Create? ==> t.nextId < ID_LIMIT)
    ensures Consistent(Do(t, op))
    ensures Do(t, op).nextId <= t.nextId + if op.Create? then 1 else 0
  {
    match op
    case Create(semaIndex, buffered) => CreationKeepsConsistent(t, semaIndex, buffered);
    case Notify(token, n) => NoticeKeepsIds(t, token, n);
    case Destroy(_) =>
  }

  lemma {:induction false} SessionsAreConsistent(t: Table, ops: seq<Op>)
    requires Consistent(t) && GenuineSession(ops) && t.nextId + Creations(ops) <= ID_LIMIT
    ensures Consistent(Session(t, ops))
    decreases |ops|
  {
    if ops != [] {
      assert Genuine(ops[0]);
      StepKeepsConsistent(t, ops[0]);
      SessionsAreConsistent(Do(t, ops[0]), ops[1..]);
    }
  }

  /** A token survives slot reuse: a notice touches nothing unless the slot still holds the very
      request the token was issued for, and then it touches that slot alone. */
  lemma NoticeTouchesItsRequestOnly(t: Table, id: int, handle: nat, n: Notice)
    requires Consistent(t) && 1 <= id < ID_LIMIT && handle < URL_REQUEST_COUNT
    ensures var u := Delivered(t, Token(id, handle), n);
            && (t.requests[handle].id != id ==> u == t)
            && (t.requests[handle].id == id ==>
                  && u.requests == t.requests[handle := Notified(t.requests[handle], n)]
                  && u.signals == t.signals + if t.requests[handle].status.Succeeded? then [] else [t.requests[handle].semaIndex])
  {
    TokenRoundTrip(id, handle);
  }

  /** Creation takes an idle slot and an id no slot has, and answers no handle only if none is
      idle. */
  lemma CreationIsFresh(t: Table, semaIndex: int, buffered: bool)
    requires Consistent(t) && t.nextId < ID_LIMIT
    ensures var k, u := FirstIdle(t.requests), Created(t, semaIndex, buffered);
            && (k == |t.requests| <==> forall i :: 0 <= i < |t.requests| ==> !t.requests[i].status.Idle?)
            && (k == |t.requests| ==> u == t)
            && (k < |t.requests| ==>
                  && (forall i :: 0 <= i < |t.requests| ==> t.requests[i].id != u.requests[k].id)
                  && u.requests[k] == Request(t.nextId, InProgress, semaIndex, t.requests[k].fileName, buffered)
                  && u.nextId == t.nextId + 1 && u.signals == t.signals && u.deleted == t.deleted
                  && (forall i :: 0 <= i < |t.requests| && i != k ==> u.requests[i] == t.requests[i]))
  {
  }

  // ----- one request in a session

  /** The notices in a session that carry the token of request `id` in slot `handle`. */
  function NoticesFor(ops: seq<Op>, id: int, handle: nat): seq<Notice> {
    if ops == [] then []
    else (if ops[0].Notify? && ops[0].token == Token(id, handle) then [ops[0].n] else [])
         + NoticesFor(ops[1..], id, handle)
  }

  /** How many signals a session sends on behalf of the request. */
  function SignalsFor(t: Table, ops: seq<Op>, id: int, handle: nat): nat
    decreases |ops|
  {
    if ops == [] then 0
    else (if ops[0].Notify? && ops[0].token == Token(id, handle) && Reaches(t, ops[0].token)
             && NoticeSignals(t.requests[TokenHandle(ops[0].token)])
          then 1 else 0)
         + SignalsFor(Do(t, ops[0]), ops[1..], id, handle)
  }

  lemma OneStepOfARequest(t: Table, op: Op, id: int, handle: nat)
    requires Consistent(t) && Genuine(op)
    requires handle < URL_REQUEST_COUNT && id != 0 && t.requests[handle].id == id && op != Destroy(handle)
    ensures |Do(t, op).requests| == URL_REQUEST_COUNT
    ensures var mine := op.Notify? && op.token == Token(id, handle);
            && (mine ==> Reaches(t, op.token) && TokenHandle(op.token) == handle)
            && Do(t, op).requests[handle] == if mine then Notified(t.requests[handle], op.n) else t.requests[handle]
  {
    TokenRoundTrip(id, handle);
    if op.Notify? {
      var id', handle': nat :| 1 <= id' < ID_LIMIT && handle' < URL_REQUEST_COUNT && op.token == Token(id', handle');
      TokenRoundTrip(id', handle');
    }
  }

  /** Until it is destroyed, a request goes its own way over its own notices, whatever else is
      created, noticed or destroyed meanwhile. */
  lemma {:induction false} RequestGoesItsOwnWay(t: Table, ops: seq<Op>, id: int, handle: nat)
    requires Consistent(t) && GenuineSession(ops) && t.nextId + Creations(ops) <= ID_LIMIT
    requires handle < URL_REQUEST_COUNT && id != 0 && t.requests[handle].id == id
    requires forall k :: 0 <= k < |ops| ==> ops[k] != Destroy(handle)
    ensures |Session(t, ops).requests| == URL_REQUEST_COUNT
    ensures Session(t, ops).requests[handle] == NotifiedAll(t.requests[handle], NoticesFor(ops, id, handle))
    ensures SignalsFor(t, ops, id, handle) == SignalCount(t.requests[handle], NoticesFor(ops, id, handle))
    decreases |ops|
  {
    if ops != [] {
      var op, u, rest := ops[0], Do(t, ops[0]), ops[1..];
      assert Genuine(op);
      StepKeepsConsistent(t, op);
      OneStepOfARequest(t, op, id, handle);
      RequestGoesItsOwnWay(u, rest, id, handle);
      var ns := NoticesFor(rest, id, handle);
      if op.Notify? && op.token == Token(id, handle) {
        assert NoticesFor(ops, id, handle) == [op.n] + ns;
        assert ([op.n] + ns)[1..] == ns;
      } else {
        assert NoticesFor(ops, id, handle) == ns;
      }
    }
  }

  /** Token, reuse and verdict together: within one session, the first notice after creation
      decides a request for good, and a success signals exactly once. */
  lemma {:induction false} VerdictInSession(t: Table, ops: seq<Op>, id: int, handle: nat)
    requires Consistent(t) && GenuineSession(ops) && t.nextId + Creations(ops) <= ID_LIMIT
    requires handle < URL_REQUEST_COUNT && t.requests[handle].id == id && t.requests[handle].status.InProgress?
    requires forall k :: 0 <= k < |ops| ==> ops[k] != Destroy(handle)
    ensures var ns := NoticesFor(ops, id, handle);
            |Session(t, ops).requests| == URL_REQUEST_COUNT &&
            Session(t, ops).requests[handle].status ==
              (if ns == [] then InProgress else if ns[0].Completion? then Succeeded else Failed) &&
            SignalsFor(t, ops, id, handle) == if ns != [] && ns[0].Completion? then 1 else |ns|
  {
    var ns := NoticesFor(ops, id, handle);
    RequestGoesItsOwnWay(t, ops, id, handle);
    if ns != [] { FirstNoticeDecides(t.requests[handle], ns); }
  }

  /** A request's own token finds it exactly while ids fit 23 bits: later requests would wait for
      ever. */
  lemma OwnTokenReachesExactlyWhen(t: Table, handle: nat)
    requires |t.requests| == URL_REQUEST_COUNT && handle < URL_REQUEST_COUNT
    ensures Reaches(t, Token(t.requests[handle].id, handle)) <==> -0x80_0000 <= t.requests[handle].id < 0x80_0000
  {
    TokenRoundTrip(t.requests[handle].id, handle);
  }

  /** Destroying frees the slot whatever it held, deletes its file if it has one, and touches nothing else;
      a handle out of range does nothing. */
  lemma DestructionFrees(t: Table, handle: int)
    requires |t.requests| == 100
    ensures var u := Destroyed(t, handle);
            && |u.requests| == 100 && u.nextId == t.nextId && u.signals == t.signals
            && (forall i :: 0 <= i < 100 && i != handle ==> u.requests[i] == t.requests[i])
            && (if 0 <= handle < 100
                then u.requests[handle] == Request(0, Idle, 0, "", false)
                  && u.deleted == t.deleted +
                       (if t.requests[handle].fileName == "" then [] else [t.requests[handle].fileName])
                else u == t)
  {
  }

  // ----- tokens of earlier sessions

  /** A notice with any token of a 24-bit id changes nothing exactly when its slot does not hold that
      id, or holds it for a request that has succeeded and learns nothing new. */
  lemma TokenActsExactlyWhen(t: Table, id: int, handle: nat, n: Notice)
    requires |t.requests| == URL_REQUEST_COUNT && handle < URL_REQUEST_COUNT && -ID_LIMIT <= id < ID_LIMIT
    ensures Delivered(t, Token(id, handle), n) == t <==>
              var r := t.requests[handle]; r.id != id || (r.status.Succeeded? && Notified(r, n) == r)
  {
    TokenRoundTrip(id, handle);
    var r, u := t.requests[handle], Delivered(t, Token(id, handle), n);
    if r.id == id {
      assert u.requests[handle] == Notified(r, n);
      assert NoticeSignals(r) ==> |u.signals| == |t.signals| + 1;
    }
  }

  /** Some creation in the session gives the id to that very slot. */
  predicate Reissued(t: Table, ops: seq<Op>, id: int, handle: nat)
    decreases |ops|
  {
    ops != [] &&
    ((ops[0].Create? && FirstIdle(t.requests) == handle < |t.requests| && t.nextId == id) ||
     Reissued(Do(t, ops[0]), ops[1..], id, handle))
  }

  /** At some time in the session the slot holds the id. */
  predicate Holds(t: Table, ops: seq<Op>, id: int, handle: nat)
    requires |t.requests| == URL_REQUEST_COUNT && handle < URL_REQUEST_COUNT
    decreases |ops|
  {
    t.requests[handle].id == id || (ops != [] && Holds(Do(t, ops[0]), ops[1..], id, handle))
  }

  /** The session without the notices that carry the token. */
  function Ignoring(ops: seq<Op>, token: int): seq<Op> {
    if ops == [] then []
    else (if ops[0].Notify? && ops[0].token == token then [] else [ops[0]]) + Ignoring(ops[1..], token)
  }

  /** Only a creation puts an id into a slot. */
  lemma IdComesByCreation(t: Table, op: Op, id: int, handle: nat)
    requires |t.requests| == URL_REQUEST_COUNT && handle < URL_REQUEST_COUNT
    requires id != 0 && t.requests[handle].id != id
    ensures |Do(t, op).requests| == URL_REQUEST_COUNT
    ensures Do(t, op).requests[handle].id == id <==>
            op.Create? && FirstIdle(t.requests) == handle && t.nextId == id
  {
  }

  lemma {:induction false} HeldExactlyWhenReissued(t: Table, ops: seq<Op>, id: int, handle: nat)
    requires |t.requests| == URL_REQUEST_COUNT && handle < URL_REQUEST_COUNT
    requires id != 0 && t.requests[handle].id != id
    ensures Holds(t, ops, id, handle) <==> Reissued(t, ops, id, handle)
    decreases |ops|
  {
    if ops != [] {
      IdComesByCreation(t, ops[0], id, handle);
      if Do(t, ops[0]).requests[handle].id != id {
        HeldExactlyWhenReissued(Do(t, ops[0]), ops[1..], id, handle);
      }
    }
  }

  /** An earlier token is harmless as long as its id is not given to its slot again: the session
      goes as if no notice carried it. */
  lemma {:induction false} OldTokensAreHarmless(t: Table, ops: seq<Op>, id: int, handle: nat)
    requires |t.requests| == URL_REQUEST_COUNT && handle < URL_REQUEST_COUNT
    requires id != 0 && -ID_LIMIT <= id < ID_LIMIT && t.requests[handle].id != id
    requires !Reissued(t, ops, id, handle)
    ensures Session(t, ops) == Session(t, Ignoring(ops, Token(id, handle)))
    ensures SignalsFor(t, ops, id, handle) == 0
    decreases |ops|
  {
    if ops != [] {
      var op, rest := ops[0], ops[1..];
      IdComesByCreation(t, op, id, handle);
      OldTokensAreHarmless(Do(t, op), rest, id, handle);
      TokenRoundTrip(id, handle);
      if op.Notify? && op.token == Token(id, handle) {
        assert Do(t, op) == t;
        assert Ignoring(ops, Token(id, handle)) == Ignoring(rest, Token(id, handle));
      } else {
        assert Ignoring(ops, Token(id, handle)) == [op] + Ignoring(rest, Token(id, handle));
        assert ([op] + Ignoring(rest, Token(id, handle)))[1..] == Ignoring(rest, Token(id, handle));
      }
    }
  }

  /** Once given out again it acts: any creation whose id fits makes an old token of that id and slot
      reach the new request. */
  lemma ReissuedTokenActs(t: Table, semaIndex: int, buffered: bool, n: Notice)
    requires |t.requests| == URL_REQUEST_COUNT && FirstIdle(t.requests) < URL_REQUEST_COUNT
    requires -ID_LIMIT <= t.nextId < ID_LIMIT
    ensures var u := Created(t, semaIndex, buffered);
            Delivered(u, Token(t.nextId, FirstIdle(t.requests)), n).signals == u.signals + [semaIndex]
  {
    TokenRoundTrip(t.nextId, FirstIdle(t.requests));
  }

  /** That does happen: the first token of any session reaches the first request made after the table
      is initialised again. */
  lemma TokensDoNotSurviveRestart(semaIndex: int, signals: seq<int>, deleted: seq<string>)
    ensures var t := Created(Table(seq(URL_REQUEST_COUNT, _ => BLANK), 1, signals, deleted), semaIndex, false);
            t.requests[0].status.InProgress? && Reaches(t, Token(1, 0))
  {
    FirstIdleIs(seq(URL_REQUEST_COUNT, _ => BLANK), 0);
    TokenRoundTrip(1, 0);
  }

  /** Creation with the completion that the download delivers before it returns. */
  function Fetched(t: Table, semaIndex: int, fileName: string): Table {
    Delivered(Created(t, semaIndex, false), Token(t.nextId, FirstIdle(t.requests)), Completion(Some(fileName)))
  }

  /** A creation that downloads at once has succeeded when it returns, with one signal, exactly when
      its id fits the token; otherwise the request stays in progress for ever. */
  lemma CreationCompletesExactlyWhen(t: Table, semaIndex: int, fileName: string)
    requires |t.requests| == URL_REQUEST_COUNT && FirstIdle(t.requests) < URL_REQUEST_COUNT
    ensures var (k, u) := (FirstIdle(t.requests), Fetched(t, semaIndex, fileName));
            if -0x80_0000 <= t.nextId < 0x80_0000
            then u.requests[k].status.Succeeded? && u.signals == t.signals + [semaIndex]
              && (if |fileName| <= 1000 then u.requests[k].fileName == fileName
                  else u.requests[k].fileName == fileName[..1000])
            else u == Created(t, semaIndex, false)
  {
    TokenRoundTrip(t.nextId, FirstIdle(t.requests));
  }

  // ----- the table as the program keeps it

  class RequestTable {
    var urlRequests: array<Request>
    var nextRequestID: int
    var signals: seq<int>
    var deleted: seq<string>

    ghost predicate Valid()
      reads this
    {
      urlRequests.Length == URL_REQUEST_COUNT
    }

    function Contents(): Table
      reads this, urlRequests
    {
      Table(urlRequests[..], nextRequestID, signals, deleted)
    }

    constructor ()
      ensures Valid() && fresh(urlRequests) && Consistent(Contents())
      ensures Contents() == Table(seq(100, _ => Request(0, Idle, 0, "", false)), 1, [], [])
    {
      urlRequests := new Request[URL_REQUEST_COUNT](_ => BLANK);
      nextRequestID, signals, deleted := 1, [], [];
    }

    method FindIdle() returns (handle: int)
      requires Valid()
      ensures var k := FirstIdle(urlRequests[..]); handle == if k < urlRequests.Length then k else -1
    {
      var i := 0;
      while i < urlRequests.Length
        invariant 0 <= i <= urlRequests.Length
        invariant forall j :: 0 <= j < i ==> !urlRequests[j].status.Idle?
      {
        if urlRequests[i].status.Idle? {
          FirstIdleIs(urlRequests[..], i);
          return i;
        }
        i := i + 1;
      }
      FirstIdleIs(urlRequests[..], i);
      handle := -1;
    }

    /** Makes the record of a new request and the token that goes out with it. */
    method Issue(semaIndex: int, buffered: bool) returns (handle: int, token: int)
      requires Valid()
      modifies this`nextRequestID, urlRequests
      ensures Valid() && Contents() == Created(old(Contents()), semaIndex, buffered)
      ensures handle == (var k := FirstIdle(old(urlRequests[..])); if k < urlRequests.Length then k else -1)
      ensures handle >= 0 ==> token == Token(old(nextRequestID), handle)
    {
      token := 0;
      handle := FindIdle();
      if handle < 0 {
        return;
      }
      urlRequests[handle] := urlRequests[handle].(id := nextRequestID);
      nextRequestID := Wrap(nextRequestID + 1);
      urlRequests[handle] := urlRequests[handle].(status := InProgress);
      urlRequests[handle] := urlRequests[handle].(semaIndex := semaIndex);
      urlRequests[handle] := urlRequests[handle].(buffered := buffered);
      token := Token(urlRequests[handle].id, handle);
    }

    /** `attached`: the plugin has a browser instance; `fileName`: where the download, which completes
        before this returns, has put its data. */
    method Create(attached: bool, semaIndex: int, fileName: string) returns (handle: int)
      requires Valid()
      modifies this`nextRequestID, this`signals, urlRequests
      ensures Valid()
      ensures handle == (var k := FirstIdle(old(urlRequests[..]));
                         if attached && k < urlRequests.Length then k else -1)
      ensures Contents() == if handle >= 0 then Fetched(old(Contents()), semaIndex, fileName) else old(Contents())
    {
      if !attached {
        return -1;
      }
      var token;
      handle, token := Issue(semaIndex, false);
      if handle >= 0 {
        Completed(token, Some(fileName));
      }
    }

    /** The same for a post, whose download may fail: it then answers -1 but leaves the slot in
        progress, with nobody to know its handle. */
    method Post(attached: bool, semaIndex: int, fileName: Option<string>) returns (handle: int)
      requires Valid()
      modifies this`nextRequestID, this`signals, urlRequests
      ensures Valid()
      ensures var k := FirstIdle(old(urlRequests[..]));
              var issued := attached && k < urlRequests.Length;
              && handle == (if issued && fileName.Some? then k else -1)
              && Contents() == if !issued then old(Contents())
                               else var t := Created(old(Contents()), semaIndex, true);
                                    if fileName.None? then t
                                    else Delivered(t, Token(old(nextRequestID), k), Completion(fileName))
    {
      if !attached {
        return -1;
      }
      var token;
      handle, token := Issue(semaIndex, true);
      if handle >= 0 {
        if fileName.None? {
          return -1;
        }
        Completed(token, fileName);
      }
    }

    method Completed(token: int, fileName: Option<string>)
      requires Valid()
      modifies this`signals, urlRequests
      ensures Valid() && Contents() == Delivered(old(Contents()), token, Completion(fileName))
    {
      var handle := TokenHandle(token);
      if handle >= URL_REQUEST_COUNT {
        return;
      }
      if urlRequests[handle].id == TokenId(token) {
        if fileName.Some? {
          urlRequests[handle] := urlRequests[handle].(fileName := Truncated(fileName.value));
        }
        if urlRequests[handle].buffered {
          urlRequests[handle] := urlRequests[handle].(buffered := false);
        }
        if !urlRequests[handle].status.Succeeded? {
          if !urlRequests[handle].status.Failed? {
            urlRequests[handle] := urlRequests[handle].(status := Succeeded);
          }
          signals := signals + [urlRequests[handle].semaIndex];
        }
      }
    }

    method Fail(token: int)
      requires Valid()
      modifies this`signals, urlRequests
      ensures Valid() && Contents() == Delivered(old(Contents()), token, Failure)
    {
      var handle := TokenHandle(token);
      if handle >= URL_REQUEST_COUNT {
        return;
      }
      if urlRequests[handle].id == TokenId(token) {
        if urlRequests[handle].buffered {
          urlRequests[handle] := urlRequests[handle].(buffered := false);
        }
        if !urlRequests[handle].status.Succeeded? {
          urlRequests[handle] := urlRequests[handle].(status := Failed);
          signals := signals + [urlRequests[handle].semaIndex];
        }
      }
    }

    method Destroy(handle: int)
      requires Valid()
      modifies this`deleted, urlRequests
      ensures Valid() && Contents() == Destroyed(old(Contents()), handle)
    {
      if handle < 0 || handle >= URL_REQUEST_COUNT {
        return;
      }
      urlRequests[handle] := urlRequests[handle].(id := 0, status := Idle, semaIndex := 0);
      if urlRequests[handle].fileName != "" {
        deleted := deleted + [urlRequests[handle].fileName];
        urlRequests[handle] := urlRequests[handle].(fileName := "");
      }
      urlRequests[handle] := urlRequests[handle].(buffered := false);
    }

    /** Ends the session: ids start from 1 again. */
    method Init()
      requires Valid()
      modifies this, urlRequests
      ensures Valid() && urlRequests == old(urlRequests) && signals == old(signals)
      ensures Consistent(Contents()) && urlRequests[..] == seq(URL_REQUEST_COUNT, _ => BLANK) && nextRequestID == 1
    {
      var i := 0;
      while i < URL_REQUEST_COUNT
        invariant 0 <= i <= URL_REQUEST_COUNT && Valid() && urlRequests == old(urlRequests) && signals == old(signals)
        invariant forall j :: 0 <= j < i ==> urlRequests[j] == BLANK
      {
        Destroy(i);
        i := i + 1;
      }
      nextRequestID := 1;
    }
  }
}
