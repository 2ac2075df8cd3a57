/** The request/response session over a debugging socket (packages/app-runtime-sdk/src/browser.ts). */
module CdpSession {
  import opened Wrappers

  // ---------------------------------------------------------------------
  // The session as a step machine
  // ---------------------------------------------------------------------

  datatype Reason = ConnectionClosed | SocketError(text: string) | WriteError(text: string) | RemoteError(text: string)

  /** What became of a promise: `Resolved` carries the `result` of a response, which may be absent. */
  datatype Outcome<T> = Resolved(value: Option<T>) | Rejected(reason: Reason)

  datatype Settlement<T> = Settlement(id: nat, outcome: Outcome<T>)

  /** A socket message: not JSON, JSON without a numeric id, or a response. */
  datatype Incoming<T> = NotJson | NoId | Response(id: int, error: Option<string>, result: Option<T>)

  datatype Event<T> =
    | Send(serializable: bool)
    | Message(message: Incoming<T>)
    | WriteFailed(request: nat, text: string)
    | SocketFailed(text: string)
    | SocketClosed
    | CloseCalled

  /**
   `pending` lists ids in the order the map holds them. `settled` is the history of calls to the
   promises' resolve and reject functions, `unsent` the ids whose payload could not be rendered.
   */
  datatype State<T> = State(nextId: nat, pending: seq<nat>, closed: bool, settled: seq<Settlement<T>>, unsent: set<nat>)

  function Initial<T>(): State<T> {
    State(1, [], false, [], {})
  }

  function Without(ids: seq<nat>, id: int): seq<nat> {
    if ids == [] then [] else if ids[0] == id then ids[1..] else [ids[0]] + Without(ids[1..], id)
  }

  /** Settles one request, if it is still pending. */
  function Settle<T>(s: State<T>, id: int, outcome: Outcome<T>): State<T> {
    if id !in s.pending then s
    else s.(pending := Without(s.pending, id), settled := s.settled + [Settlement(id, outcome)])
  }

  function RejectAll<T>(s: State<T>, reason: Reason): State<T>
    decreases |s.pending|
  {
    if s.pending == [] then s
    else
      RejectAll(
        s.(pending := s.pending[1..], settled := s.settled + [Settlement(s.pending[0], Rejected(reason))]),
        reason)
  }

  /** A response rejects only with a non-empty error message; otherwise it resolves with whatever `result` it has. */
  function OutcomeOf<T>(error: Option<string>, result: Option<T>): Outcome<T> {
    if error.Some? && error.value != "" then Rejected(RemoteError(error.value)) else Resolved(result)
  }

  function Step<T>(s: State<T>, event: Event<T>): State<T> {
    match event
    case Send(serializable) =>
      if s.closed then s
      else if serializable then s.(nextId := s.nextId + 1, pending := s.pending + [s.nextId])
      else s.(nextId := s.nextId + 1, unsent := s.unsent + {s.nextId})
    case Message(Response(id, error, result)) => Settle(s, id, OutcomeOf(error, result))
    case Message(_) => s
    case WriteFailed(id, text) => Settle(s, id, Rejected(WriteError(text)))
    case SocketFailed(text) => RejectAll(s, SocketError(text))
    case SocketClosed => RejectAll(s.(closed := true), ConnectionClosed)
    case CloseCalled => s.(closed := true)
  }

  function Run<T>(events: seq<Event<T>>): State<T> {
    if events == [] then Initial() else Step(Run(events[..|events| - 1]), events[|events| - 1])
  }

  // ---------------------------------------------------------------------
  // The class
  // ---------------------------------------------------------------------

  class CdpSession<T> {
    var nextId: nat
    var pending: seq<nat>
    var closed: bool
    ghost var settled: seq<Settlement<T>>
    ghost var unsent: set<nat>

    ghost function Now(): State<T>
      reads this
    {
      State(nextId, pending, closed, settled, unsent)
    }

    constructor ()
      ensures Now() == Initial()
    {
      nextId, pending, closed := 1, [], false;
      settled, unsent := [], {};
    }

    /** The id whose promise the caller awaits, or None where `send` throws before there is one. */
    method Send(serializable: bool) returns (id: Option<nat>)
      modifies this
      ensures Now() == Step(old(Now()), Event.Send(serializable))
      ensures id.Some? <==> !old(closed) && serializable
      ensures id.Some? ==> id.value == old(nextId) && id.value in pending
    {
      if closed {
        return None;
      }
      var issued := nextId;
      nextId := nextId + 1;
      if !serializable {
        unsent := unsent + {issued};
        return None;
      }
      pending := pending + [issued];
      id := Some(issued);
    }

    /** The write callback: a failure rejects the request, unless something else has settled it already. */
    method OnWritten(id: nat, error: Option<string>)
      modifies this
      ensures Now() == if error.Some? then Step(old(Now()), WriteFailed(id, error.value)) else old(Now())
    {
      if error.None? {
        return;
      }
      if id !in pending {
        return;
      }
      pending := Without(pending, id);
      settled := settled + [Settlement(id, Rejected(WriteError(error.value)))];
    }

    method HandleMessage(message: Incoming<T>)
      modifies this
      ensures Now() == Step(old(Now()), Message(message))
    {
      if !message.Response? {
        return;
      }
      if message.id !in pending {
        return;
      }
      pending := Without(pending, message.id);
      if message.error.Some? && message.error.value != "" {
        settled := settled + [Settlement(message.id, Rejected(RemoteError(message.error.value)))];
        return;
      }
      settled := settled + [Settlement(message.id, Resolved(message.result))];
    }

    method RejectPending(reason: Reason)
      modifies this
      ensures Now() == RejectAll(old(Now()), reason)
    {
      while pending != []
        invariant RejectAll(Now(), reason) == RejectAll(old(Now()), reason)
        decreases |pending|
      {
        var id := pending[0];
        pending := pending[1..];
        settled := settled + [Settlement(id, Rejected(reason))];
      }
    }

    method OnSocketError(text: string)
      modifies this
      ensures Now() == Step(old(Now()), SocketFailed(text))
    {
      RejectPending(SocketError(text));
    }

    method OnSocketClose()
      modifies this
      ensures Now() == Step(old(Now()), SocketClosed)
    {
      closed := true;
      RejectPending(ConnectionClosed);
    }

    /** Refuses new requests at once; those in flight are settled when the socket reports its close. */
    method Close() returns (closesSocket: bool)
      modifies this
      ensures Now() == Step(old(Now()), CloseCalled)
      ensures closesSocket <==> !old(closed)
    {
      closesSocket := !closed;
      closed := true;
    }
  }

  // ---------------------------------------------------------------------
  // What every reachable state keeps
  // ---------------------------------------------------------------------

  ghost predicate Increasing(ids: seq<nat>) {
    forall i, j :: 0 <= i < j < |ids| ==> ids[i] < ids[j]
  }

  ghost predicate HasSettled<T>(s: State<T>, id: nat) {
    exists i :: 0 <= i < |s.settled| && s.settled[i].id == id
  }

  ghost predicate SettledOnce<T>(settled: seq<Settlement<T>>) {
    forall i, j :: 0 <= i < j < |settled| ==> settled[i].id != settled[j].id
  }

  /** Every id issued so far is in exactly one of three places: pending, settled, or never sent. */
  ghost predicate Accounted<T>(s: State<T>) {
    && s.nextId >= 1
    && Increasing(s.pending)
    && SettledOnce(s.settled)
    && (forall id: nat :: 1 <= id < s.nextId <==> id in s.pending || HasSettled(s, id) || id in s.unsent)
    && (forall id: nat :: id in s.pending ==> !HasSettled(s, id) && id !in s.unsent)
    && (forall id: nat :: HasSettled(s, id) ==> id !in s.unsent)
  }

  lemma HeadIsLeast(ids: seq<nat>)
    requires Increasing(ids) && ids != []
    ensures Increasing(ids[1..])
    ensures forall x :: x in ids <==> x == ids[0] || x in ids[1..]
    ensures forall x :: x in ids[1..] ==> ids[0] < x
  {
    assert ids == [ids[0]] + ids[1..];
  }

  lemma IncreasingJoin(front: seq<nat>, back: seq<nat>)
    requires Increasing(front) && Increasing(back)
    requires forall x, y :: x in front && y in back ==> x < y
    ensures Increasing(front + back)
  {
    var ids := front + back;
    forall i, j | 0 <= i < j < |ids|
      ensures ids[i] < ids[j]
    {
      if i < |front| <= j {
        assert ids[i] in front && ids[j] in back;
      }
    }
  }

  lemma {:induction false} WithoutDrops(ids: seq<nat>, id: nat)
    requires Increasing(ids) && id in ids
    ensures Increasing(Without(ids, id))
    ensures forall x :: x in Without(ids, id) <==> x in ids && x != id
  {
    HeadIsLeast(ids);
    if ids[0] != id {
      WithoutDrops(ids[1..], id);
      IncreasingJoin([ids[0]], Without(ids[1..], id));
    }
  }

  lemma SettledExtends<T>(s: State<T>, t: State<T>, last: Settlement<T>)
    requires t.settled == s.settled + [last]
    ensures forall id: nat :: HasSettled(t, id) <==> HasSettled(s, id) || id == last.id
  {
    forall id: nat | HasSettled(s, id) || id == last.id
      ensures HasSettled(t, id)
    {
      if id == last.id {
        assert t.settled[|s.settled|].id == id;
      } else {
        var i :| 0 <= i < |s.settled| && s.settled[i].id == id;
        assert t.settled[i].id == id;
      }
    }
  }

  lemma SettleAccounts<T>(s: State<T>, id: int, outcome: Outcome<T>)
    requires Accounted(s)
    ensures Accounted(Settle(s, id, outcome))
  {
    if id in s.pending {
      WithoutDrops(s.pending, id);
      SettledExtends(s, Settle(s, id, outcome), Settlement(id, outcome));
    }
  }

  lemma {:induction false} RejectAllAccounts<T>(s: State<T>, reason: Reason)
    requires Accounted(s)
    ensures Accounted(RejectAll(s, reason))
    ensures RejectAll(s, reason).pending == []
    ensures RejectAll(s, reason).closed == s.closed
    ensures RejectAll(s, reason).nextId == s.nextId
    decreases |s.pending|
  {
    if s.pending != [] {
      var first := Settlement(s.pending[0], Rejected(reason));
      var next := s.(pending := s.pending[1..], settled := s.settled + [first]);
      HeadIsLeast(s.pending);
      SettledExtends(s, next, first);
      assert s.pending[0] in s.pending && !HasSettled(s, first.id);
      RejectAllAccounts(next, reason);
    }
  }

  lemma SendAccounts<T>(s: State<T>, event: Event<T>)
    requires Accounted(s) && event.Send?
    ensures Accounted(Step(s, event))
  {
    var t := Step(s, event);
    assert forall id: nat :: HasSettled(t, id) <==> HasSettled(s, id);
    assert s.nextId !in s.pending && !HasSettled(s, s.nextId) && s.nextId !in s.unsent;
    assert forall id :: id in s.pending ==> id < s.nextId;
    IncreasingJoin(s.pending, [s.nextId]);
  }

  lemma StepAccounts<T>(s: State<T>, event: Event<T>)
    requires Accounted(s)
    ensures Accounted(Step(s, event))
  {
    match event
    case Send(_) => SendAccounts(s, event);
    case Message(Response(id, error, result)) => SettleAccounts(s, id, OutcomeOf(error, result));
    case Message(_) =>
    case WriteFailed(id, text) => SettleAccounts(s, id, Rejected(WriteError(text)));
    case SocketFailed(text) => RejectAllAccounts(s, SocketError(text));
    case SocketClosed =>
      assert forall id: nat :: HasSettled(s.(closed := true), id) <==> HasSettled(s, id);
      RejectAllAccounts(s.(closed := true), ConnectionClosed);
    case CloseCalled =>
      assert forall id: nat :: HasSettled(s.(closed := true), id) <==> HasSettled(s, id);
  }

  /** Over any run, every promise settles at most once and every issued id is accounted for. */
  lemma {:induction false} RunAccounts<T>(events: seq<Event<T>>)
    ensures Accounted(Run(events))
  {
    if events != [] {
      RunAccounts(events[..|events| - 1]);
      StepAccounts(Run(events[..|events| - 1]), events[|events| - 1]);
    }
  }

  // ---------------------------------------------------------------------
  // Whose answer a promise gets
  // ---------------------------------------------------------------------

  lemma {:induction false} RejectAllOnlyRejects<T>(s: State<T>, reason: Reason)
    ensures s.settled <= RejectAll(s, reason).settled
    ensures forall i :: |s.settled| <= i < |RejectAll(s, reason).settled| ==>
              && RejectAll(s, reason).settled[i].outcome == Rejected(reason)
              && RejectAll(s, reason).settled[i].id in s.pending
    decreases |s.pending|
  {
    if s.pending != [] {
      assert s.pending == [s.pending[0]] + s.pending[1..];
      var next := s.(pending := s.pending[1..], settled := s.settled + [Settlement(s.pending[0], Rejected(reason))]);
      RejectAllOnlyRejects(next, reason);
    }
  }

  /**
   The only event that may settle a promise this way: a response with its own id for a result or
   a remote error, its own write failing, or the socket failing or closing.
   */
  ghost predicate Explains<T>(event: Event<T>, settlement: Settlement<T>) {
    match settlement.outcome
    case Resolved(value) =>
      event.Message? && event.message.Response? && event.message.id == settlement.id && event.message.result == value
      && (event.message.error.None? || event.message.error.value == "")
    case Rejected(RemoteError(text)) =>
      event.Message? && event.message.Response? && event.message.id == settlement.id
      && event.message.error == Some(text) && text != ""
    case Rejected(WriteError(text)) => event == WriteFailed(settlement.id, text)
    case Rejected(SocketError(text)) => event == SocketFailed(text)
    case Rejected(ConnectionClosed) => event.SocketClosed?
  }

  /**
   What has been settled stays settled the way it was, and each settlement goes back to an event
   that explains it, which came while the promise was pending.
   */
  lemma {:induction false} SettledByOwnEvent<T>(events: seq<Event<T>>, i: nat)
    returns (k: nat)
    requires i < |Run(events).settled|
    ensures k < |events|
    ensures Explains(events[k], Run(events).settled[i])
    ensures Run(events).settled[i].id in Run(events[..k]).pending
    ensures Run(events[..k]).settled <= Run(events).settled
  {
    var before := Run(events[..|events| - 1]);
    var event := events[|events| - 1];
    StepKeepsHistory(before, event);
    if i < |before.settled| {
      k := SettledByOwnEvent(events[..|events| - 1], i);
      assert events[..|events| - 1][..k] == events[..k];
    } else {
      k := |events| - 1;
    }
  }

  lemma StepKeepsHistory<T>(s: State<T>, event: Event<T>)
    ensures s.settled <= Step(s, event).settled
    ensures s.nextId <= Step(s, event).nextId && (s.closed ==> Step(s, event).closed)
    ensures forall i :: |s.settled| <= i < |Step(s, event).settled| ==>
              Explains(event, Step(s, event).settled[i]) && Step(s, event).settled[i].id in s.pending
  {
    match event
    case SocketFailed(text) =>
      RejectAllOnlyRejects(s, SocketError(text));
      RejectAllKeepsRest(s, SocketError(text));
    case SocketClosed =>
      RejectAllOnlyRejects(s.(closed := true), ConnectionClosed);
      RejectAllKeepsRest(s.(closed := true), ConnectionClosed);
    case _ =>
  }

  /** A response to a pending request takes it, and it alone, out of the pending ones. */
  lemma ResponseSettlesItsRequest<T>(events: seq<Event<T>>, id: nat, error: Option<string>, result: Option<T>)
    requires id in Run(events).pending
    ensures var next := Run(events + [Message(Response(id, error, result))]);
            && (forall other :: other in next.pending <==> other in Run(events).pending && other != id)
            && |next.settled| == |Run(events).settled| + 1
            && next.settled[|next.settled| - 1].id == id
            && Explains(Message(Response(id, error, result)), next.settled[|next.settled| - 1])
  {
    var all := events + [Message(Response(id, error, result))];
    assert all[..|all| - 1] == events;
    RunAccounts(events);
    WithoutDrops(Run(events).pending, id);
  }

  lemma {:induction false} RejectAllKeepsRest<T>(s: State<T>, reason: Reason)
    ensures RejectAll(s, reason).closed == s.closed && RejectAll(s, reason).nextId == s.nextId
    ensures RejectAll(s, reason).unsent == s.unsent
    decreases |s.pending|
  {
    if s.pending != [] {
      RejectAllKeepsRest(
        s.(pending := s.pending[1..], settled := s.settled + [Settlement(s.pending[0], Rejected(reason))]), reason);
    }
  }

  // ---------------------------------------------------------------------
  // What each event does
  // ---------------------------------------------------------------------

  /**
   Ids are issued from 1 on; a request whose payload cannot be rendered uses its id up, and a
   closed session issues none.
   */
  lemma SendIssuesNextId<T>(events: seq<Event<T>>, serializable: bool)
    ensures Run<T>([]).nextId == 1
    ensures var before, after := Run(events), Run(events + [Event.Send(serializable)]);
            && after.settled == before.settled && after.closed == before.closed
            && after.nextId == (if before.closed then before.nextId else before.nextId + 1)
            && after.pending == before.pending + (if before.closed || !serializable then [] else [before.nextId])
            && after.unsent == before.unsent + (if before.closed || serializable then {} else {before.nextId})
  {
    assert (events + [Event.Send(serializable)])[..|events|] == events;
    assert Run(events).pending + [] == Run(events).pending;
  }

  /** A failed write rejects its own request with its own error, and touches nothing when that is settled already. */
  lemma WriteFailureRejects<T>(events: seq<Event<T>>, id: nat, text: string)
    ensures var before, after := Run(events), Run(events + [WriteFailed(id, text)]);
            && (id !in before.pending ==> after == before)
            && (id in before.pending ==>
                  && after.settled == before.settled + [Settlement(id, Rejected(WriteError(text)))]
                  && (forall other :: other in after.pending <==> other in before.pending && other != id)
                  && after.closed == before.closed && after.nextId == before.nextId && after.unsent == before.unsent)
  {
    assert (events + [WriteFailed(id, text)])[..|events|] == events;
    RunAccounts(events);
    if id in Run(events).pending {
      WithoutDrops(Run(events).pending, id);
    }
  }

  /**
   `after` has rejected, for `reason` and in order, everything pending in `before`, and changed no
   more of its history.
   */
  ghost predicate RejectsAllPending<T>(before: State<T>, after: State<T>, reason: Reason) {
    && after.pending == [] && after.nextId == before.nextId && after.unsent == before.unsent
    && |after.settled| == |before.settled| + |before.pending|
    && before.settled <= after.settled
    && forall i :: 0 <= i < |before.pending| ==>
         after.settled[|before.settled| + i] == Settlement(before.pending[i], Rejected(reason))
  }

  lemma {:induction false} RejectAllInOrder<T>(s: State<T>, reason: Reason)
    ensures RejectsAllPending(s, RejectAll(s, reason), reason) && RejectAll(s, reason).closed == s.closed
    decreases |s.pending|
  {
    if s.pending != [] {
      var next := s.(pending := s.pending[1..], settled := s.settled + [Settlement(s.pending[0], Rejected(reason))]);
      RejectAllInOrder(next, reason);
      var after := RejectAll(s, reason);
      assert after.settled[|s.settled|] == next.settled[|s.settled|];
      forall i | 1 <= i < |s.pending|
        ensures after.settled[|s.settled| + i] == Settlement(s.pending[i], Rejected(reason))
      {
        assert next.pending[i - 1] == s.pending[i];
        assert after.settled[|next.settled| + (i - 1)] == Settlement(next.pending[i - 1], Rejected(reason));
      }
    }
  }

  /**
   A socket error rejects everything pending, in order, with that error, and leaves the session
   open or closed as it was.
   */
  lemma SocketFailureRejectsAll<T>(events: seq<Event<T>>, text: string)
    ensures var before, after := Run(events), Run(events + [SocketFailed(text)]);
            RejectsAllPending(before, after, SocketError(text)) && after.closed == before.closed
  {
    assert (events + [SocketFailed(text)])[..|events|] == events;
    RejectAllInOrder(Run(events), SocketError(text));
  }

  /** The socket's close rejects everything pending, in order, and closes the session. */
  lemma SocketCloseRejectsAll<T>(events: seq<Event<T>>)
    ensures var before, after := Run(events), Run(events + [SocketClosed]);
            RejectsAllPending(before, after, ConnectionClosed) && after.closed
  {
    assert (events + [SocketClosed])[..|events|] == events;
    RejectAllInOrder(Run(events).(closed := true), ConnectionClosed);
  }

  /** Text that is not JSON, JSON without an id, and a response to nothing pending change nothing at all. */
  lemma OtherMessagesAreIgnored<T>(events: seq<Event<T>>, message: Incoming<T>)
    requires message.Response? ==> message.id !in Run(events).pending
    ensures Run(events + [Message(message)]) == Run(events)
  {
    assert (events + [Message(message)])[..|events|] == events;
  }

  // ---------------------------------------------------------------------
  // After the close
  // ---------------------------------------------------------------------

  /**
   Once the socket has closed nothing is pending and nothing can become pending: every request
   ever issued has been settled, and no later event issues another.
   */
  lemma {:induction false} NothingPendingAfterClose<T>(events: seq<Event<T>>, k: nat)
    requires k < |events| && events[k].SocketClosed?
    ensures Run(events).closed && Run(events).pending == []
    ensures Run(events).nextId == Run(events[..k]).nextId
    ensures forall id: nat :: 1 <= id < Run(events).nextId ==> HasSettled(Run(events), id) || id in Run(events).unsent
  {
    var s := Run(events[..|events| - 1]);
    RunAccounts(events[..|events| - 1]);
    RunAccounts(events);
    if k == |events| - 1 {
      assert forall id: nat :: HasSettled(s.(closed := true), id) <==> HasSettled(s, id);
      RejectAllAccounts(s.(closed := true), ConnectionClosed);
    } else {
      NothingPendingAfterClose(events[..|events| - 1], k);
      assert events[..|events| - 1][..k] == events[..k];
    }
  }

  /** Once the session is closed, by either end, no request is ever issued again and none can become pending. */
  lemma {:induction false} NothingIssuedOnceClosed<T>(events: seq<Event<T>>, k: nat)
    requires k <= |events| && Run(events[..k]).closed
    ensures Run(events).closed && Run(events).nextId == Run(events[..k]).nextId
    ensures forall id :: id in Run(events).pending ==> id in Run(events[..k]).pending
    decreases |events| - k
  {
    assert events[..|events|] == events;
    if k < |events| {
      var s := Run(events[..k]);
      assert events[..k + 1][..k] == events[..k];
      RunAccounts(events[..k]);
      StepOnceClosed(s, events[k]);
      NothingIssuedOnceClosed(events, k + 1);
    }
  }

  lemma StepOnceClosed<T>(s: State<T>, event: Event<T>)
    requires s.closed && Accounted(s)
    ensures Step(s, event).closed && Step(s, event).nextId == s.nextId
    ensures forall id :: id in Step(s, event).pending ==> id in s.pending
  {
    match event
    case Message(Response(id, _, _)) =>
      if id in s.pending {
        WithoutDrops(s.pending, id);
      }
    case WriteFailed(id, _) =>
      if id in s.pending {
        WithoutDrops(s.pending, id);
      }
    case SocketFailed(text) => RejectAllAccounts(s, SocketError(text));
    case SocketClosed => RejectAllAccounts(s.(closed := true), ConnectionClosed);
    case _ =>
  }

  /**
   Calling `close()` leaves the requests in flight as they are, still to be answered or rejected,
   while every later request is refused: it is never issued an id.
   */
  lemma CloseRefusesOnlyLaterRequests<T>(before: seq<Event<T>>, after: seq<Event<T>>)
    ensures var closed := Run(before + [CloseCalled]);
            closed.pending == Run(before).pending && closed.settled == Run(before).settled
    ensures Run(before + [CloseCalled] + after).nextId == Run(before).nextId
    ensures forall id :: id in Run(before + [CloseCalled] + after).pending ==> id in Run(before).pending
    ensures forall id: nat :: id in Run(before).pending ==>
              var end := Run(before + [CloseCalled] + after);
              id in end.pending || HasSettled(end, id)
  {
    var closing := before + [CloseCalled];
    assert closing[..|closing| - 1] == before;
    var events := closing + after;
    assert events[..|closing|] == closing;
    NothingIssuedOnceClosed(events, |closing|);
    RunAccounts(before);
    RunAccounts(closing);
    RunAccounts(events);
    NeverSentStays(events, |closing|);
  }

  /** An id that was sent is never counted among those that were not. */
  lemma {:induction false} NeverSentStays<T>(events: seq<Event<T>>, k: nat)
    requires k <= |events|
    ensures forall id: nat :: id < Run(events[..k]).nextId && id in Run(events).unsent ==> id in Run(events[..k]).unsent
    ensures Run(events[..k]).nextId <= Run(events).nextId
    decreases |events|
  {
    if k == |events| {
      assert events[..k] == events;
    } else {
      NeverSentStays(events[..|events| - 1], k);
      assert events[..|events| - 1][..k] == events[..k];
      StepKeepsUnsent(Run(events[..|events| - 1]), events[|events| - 1]);
    }
  }

  lemma StepKeepsUnsent<T>(s: State<T>, event: Event<T>)
    ensures forall id :: id in Step(s, event).unsent ==> id in s.unsent || id == s.nextId
    ensures s.nextId <= Step(s, event).nextId
  {
    match event
    case SocketFailed(text) => RejectAllKeepsRest(s, SocketError(text));
    case SocketClosed => RejectAllKeepsRest(s.(closed := true), ConnectionClosed);
    case _ =>
  }

  /** A response whose error message is empty resolves its request, error or not. */
  lemma EmptyErrorResolves()
    ensures var run := Run([Send(true), Message(Response(1, Some(""), Some(5)))]);
            run.pending == [] && run.settled == [Settlement(1, Resolved(Some(5)))]
  {
    var events: seq<Event<int>> := [Send(true), Message(Response(1, Some(""), Some(5)))];
    assert events[..1] == [Send(true)] && events[..1][..0] == [];
    assert Run(events[..1]).pending == [1];
  }
}
