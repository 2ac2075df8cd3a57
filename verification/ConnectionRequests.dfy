/** What a read of connections asks for, and how much it gets from an endpoint that answers every window in full. */
module ConnectionRequests {
  import opened Wrappers
  import opened ConnectionRows
  import opened Connections
  import opened ConnectionReads

  // ---------------------------------------------------------------------
  // What is asked for
  // ---------------------------------------------------------------------

  /** How many entries the answers to the first `n` requests hold together. */
  function EntriesAnswered(endpoint: Endpoint, limit: nat, offset: nat, n: nat): nat
    requires limit >= 1
  {
    if n == 0 then 0
    else
      var before := StateAfter(endpoint, limit, offset, n - 1);
      EntriesAnswered(endpoint, limit, offset, n - 1)
      + (if before.None? then 0 else EntriesIn(AnswerTo(endpoint, before.value, limit)))
  }

  function EntriesIn(fetched: Fetched): nat {
    if fetched.Payload? && fetched.entries.Some? then |fetched.entries.value| else 0
  }

  lemma ShortOfLimitConsumesAll(p: Progress, fetched: Fetched, limit: nat, offset: nat)
    requires Holds(p, limit, offset) && p.coverage.None? && Advance(p, fetched, limit, offset).Ok?
    ensures var next := Advance(p, fetched, limit, offset).value;
            |next.rows| < limit ==> next.start == p.start + EntriesIn(fetched)
  {
    AbsorbIsSound(fetched.entries.value, p.rows, limit);
  }

  /** A read that goes on, or ends short of its limit, has taken in every entry answered. */
  lemma {:induction false} StartIsAllAnswered(endpoint: Endpoint, limit: nat, offset: nat, n: nat, p: Progress)
    requires limit >= 1 && StateAfter(endpoint, limit, offset, n) == Some(p)
    ensures |p.requests| == n <= MaxRequests(limit) && Holds(p, limit, offset)
    ensures |p.rows| < limit ==> p.start == offset + EntriesAnswered(endpoint, limit, offset, n)
  {
    if n > 0 {
      var before := StateBefore(endpoint, limit, offset, n);
      StartIsAllAnswered(endpoint, limit, offset, n - 1, before);
      AdvanceHolds(before, AnswerTo(endpoint, before, limit), limit, offset);
      ShortOfLimitConsumesAll(before, AnswerTo(endpoint, before, limit), limit, offset);
    }
  }

  /** Request `m` asks, from where the answers so far leave off, for what the limit still allows, at most 40. */
  ghost predicate AsksRightly(endpoint: Endpoint, limit: nat, offset: nat, request: Request, m: nat)
    requires limit >= 1
  {
    && StateAfter(endpoint, limit, offset, m).Some?
    && request.start == offset + EntriesAnswered(endpoint, limit, offset, m)
    && var missing := limit - |StateAfter(endpoint, limit, offset, m).value.rows|;
       request.count == if missing < 40 then missing else 40
  }

  lemma {:induction false} EveryRequestAsksRightly(endpoint: Endpoint, limit: nat, offset: nat, n: nat, p: Progress,
                                                   m: nat)
    requires limit >= 1 && StateAfter(endpoint, limit, offset, n) == Some(p) && m < n
    ensures m < |p.requests| && AsksRightly(endpoint, limit, offset, p.requests[m], m)
  {
    var before := StateBefore(endpoint, limit, offset, n);
    if m == n - 1 {
      StartIsAllAnswered(endpoint, limit, offset, m, before);
    } else {
      EveryRequestAsksRightly(endpoint, limit, offset, n - 1, before, m);
    }
  }

  /**
   Every request a read makes starts where the entries answered before it leave off and asks for what
   is missing to the limit, at most 40; and a read short of its limit hands over, or ends, past every
   entry answered.
   */
  lemma ReadAsksRightly(endpoint: Endpoint, limit: nat, offset: nat)
    requires 1 <= limit <= MAX_LIMIT && Collect(endpoint, limit, offset).Ok?
    ensures var requests := ReadOn(endpoint, Begin(offset), limit, offset).value.requests;
            var read := Collect(endpoint, limit, offset).value;
            && (forall m :: 0 <= m < |requests| ==> AsksRightly(endpoint, limit, offset, requests[m], m))
            && (|read.rows| < limit && read.nextOffset.Some? ==>
                  read.nextOffset.value == offset + EntriesAnswered(endpoint, limit, offset, |requests|))
  {
    ReadOnEndsAfter(endpoint, limit, offset, 0);
    var end := ReadOn(endpoint, Begin(offset), limit, offset).value;
    StartIsAllAnswered(endpoint, limit, offset, |end.requests|, end);
    forall m | 0 <= m < |end.requests|
      ensures AsksRightly(endpoint, limit, offset, end.requests[m], m)
    {
      EveryRequestAsksRightly(endpoint, limit, offset, |end.requests|, end, m);
    }
  }

  /** The first `c` entries of an answer end with the one that gave `row`. */
  ghost predicate EndsWith(fetched: Fetched, c: nat, row: Row) {
    && fetched.Payload? && fetched.entries.Some?
    && 0 < c <= |fetched.entries.value| && fetched.entries.value[c - 1] == Ok(row)
  }

  lemma AdvanceStopsAtLimit(p: Progress, fetched: Fetched, limit: nat, offset: nat) returns (c: nat)
    requires |p.rows| < limit && Advance(p, fetched, limit, offset).Ok?
    requires |Advance(p, fetched, limit, offset).value.rows| == limit
    ensures var next := Advance(p, fetched, limit, offset).value;
            EndsWith(fetched, c, next.rows[limit - 1]) && next.start == p.start + c
  {
    StopsAtLimit(fetched.entries.value, p.rows, limit);
    c := Absorb(fetched.entries.value, p.rows, limit).value.consumed;
  }

  lemma StopsAfter(endpoint: Endpoint, limit: nat, offset: nat, n: nat, end: Progress) returns (before: Progress,
                   c: nat)
    requires limit >= 1 && n > 0 && StateAfter(endpoint, limit, offset, n) == Some(end) && |end.rows| == limit
    ensures StateAfter(endpoint, limit, offset, n - 1) == Some(before)
    ensures EndsWith(AnswerTo(endpoint, before, limit), c, end.rows[limit - 1])
    ensures end.start == offset + EntriesAnswered(endpoint, limit, offset, n - 1) + c
  {
    before := StateBefore(endpoint, limit, offset, n);
    StartIsAllAnswered(endpoint, limit, offset, n - 1, before);
    NextState(endpoint, limit, offset, n, before);
    c := AdvanceStopsAtLimit(before, AnswerTo(endpoint, before, limit), limit, offset);
  }

  /** A read that reaches its limit stops right after the entry that gave its last row: the offset it has come to. */
  lemma LimitStopsAfterLastRow(endpoint: Endpoint, limit: nat, offset: nat) returns (before: Progress, c: nat)
    requires 1 <= limit <= MAX_LIMIT && Collect(endpoint, limit, offset).Ok?
    requires |Collect(endpoint, limit, offset).value.rows| == limit
    ensures var end := ReadOn(endpoint, Begin(offset), limit, offset).value;
            && |end.requests| > 0 && StateAfter(endpoint, limit, offset, |end.requests| - 1) == Some(before)
            && EndsWith(AnswerTo(endpoint, before, limit), c, end.rows[limit - 1])
            && end.start == offset + EntriesAnswered(endpoint, limit, offset, |end.requests| - 1) + c
  {
    ReadOnEndsAfter(endpoint, limit, offset, 0);
    var end := ReadOn(endpoint, Begin(offset), limit, offset).value;
    before, c := StopsAfter(endpoint, limit, offset, |end.requests|, end);
  }

  // ---------------------------------------------------------------------
  // What makes a read throw
  // ---------------------------------------------------------------------

  lemma {:induction false} ReadGoesThrough(endpoint: Endpoint, limit: nat, offset: nat, n: nat, p: Progress)
    requires limit >= 1 && StateAfter(endpoint, limit, offset, n) == Some(p)
    ensures ReadOn(endpoint, Begin(offset), limit, offset) == ReadOn(endpoint, p, limit, offset)
  {
    if n > 0 {
      var before := StateBefore(endpoint, limit, offset, n);
      ReadGoesThrough(endpoint, limit, offset, n - 1, before);
      NextState(endpoint, limit, offset, n, before);
      ReadOnUnfolds(endpoint, before, limit, offset);
    }
  }

  /**
   An answer that cannot be used ends the whole read, with the failure of its kind: a sign-in wall, any
   other failed fetch, a payload without a list, or a leading entry that cannot be mapped.
   */
  lemma BadAnswerThrows(endpoint: Endpoint, limit: nat, offset: nat, n: nat, p: Progress)
    requires 1 <= limit <= MAX_LIMIT && n < MaxRequests(limit)
    requires StateAfter(endpoint, limit, offset, n) == Some(p) && p.coverage.None?
    ensures var fetched, result := AnswerTo(endpoint, p, limit), Collect(endpoint, limit, offset);
            && (fetched.AuthWall? ==> result == Err(AuthRequired))
            && (fetched.FetchError? ==> result == Err(UnexpectedResponse))
            && (fetched.Payload? && fetched.entries.None? ==> result == Err(MalformedPayload))
            && (fetched.Payload? && fetched.entries.Some? && fetched.entries.value != [] ==>
                  (fetched.entries.value[0].Err? ==> result == Err(fetched.entries.value[0].error)))
  {
    ReadGoesThrough(endpoint, limit, offset, n, p);
    ReadOnUnfolds(endpoint, p, limit, offset);
  }

  // ---------------------------------------------------------------------
  // Windows answered in full
  // ---------------------------------------------------------------------

  /** The entries of `list` in a window, as far as it reaches. */
  function Window(list: seq<Row>, start: nat, count: nat): seq<Row> {
    if start >= |list| then []
    else if start + count <= |list| then list[start..start + count]
    else list[start..]
  }

  /** Whatever is asked, the whole window is answered, with the list's true length. */
  ghost predicate ServesInFull(endpoint: Endpoint, list: seq<Row>) {
    forall n, start, count ::
      endpoint(n, start, count) == Payload(Some(EntriesOf(Window(list, start, count))), Integer(|list|))
  }

  lemma FullIsServed(endpoint: Endpoint, list: seq<Row>)
    requires ServesInFull(endpoint, list)
    ensures Serves(endpoint, list)
  {
    forall n: nat, start: nat, count: nat | count >= 1
      ensures AnswersFrom(list, endpoint(n, start, count), start, count)
    {
      var window := Window(list, start, count);
      assert start < |list| ==> window == list[start..start + |window|];
      assert |EntriesOf(window)| == |window|;
    }
  }

  /** So far every page was a full 40. */
  ghost predicate AllFull(p: Progress, list: seq<Row>, limit: nat, offset: nat) {
    Tracks(p, list, limit, offset) && |p.rows| == 40 * |p.requests|
  }

  /** What the read comes to: all there is up to the limit, in as few pages of 40 as hold it, and at least one. */
  ghost predicate IsFullRead(end: Progress, list: seq<Row>, limit: nat, offset: nat)
    requires offset <= |list|
  {
    && |end.rows| == (if |list| - offset < limit then |list| - offset else limit)
    && (end.coverage == Some(Complete) || end.coverage == Some(Limit))
    && |end.requests| == if |end.rows| == 0 then 1 else (|end.rows| + 39) / 40
  }

  lemma FullPage(p: Progress, fetched: Fetched, list: seq<Row>, limit: nat, offset: nat)
    requires DistinctIds(list) && AllFull(p, list, limit, offset) && p.coverage.None?
    requires var request := NextRequest(p, limit);
             fetched == Payload(Some(EntriesOf(Window(list, request.start, request.count))), Integer(|list|))
    requires AnswersFrom(list, fetched, p.start, NextRequest(p, limit).count)
    ensures Advance(p, fetched, limit, offset).Ok?
    ensures var next := Advance(p, fetched, limit, offset).value;
            && (next.coverage.None? ==> AllFull(next, list, limit, offset))
            && (next.coverage.Some? ==> IsFullRead(next, list, limit, offset))
  {
    AdvanceTracks(p, fetched, list, limit, offset);
    ServedPage(p, fetched, list, limit, offset);
  }

  lemma {:induction false} ReadOnInFull(endpoint: Endpoint, p: Progress, list: seq<Row>, limit: nat, offset: nat)
    requires DistinctIds(list) && ServesInFull(endpoint, list) && limit >= 1
    requires AllFull(p, list, limit, offset) && p.coverage.None?
    ensures ReadOn(endpoint, p, limit, offset).Ok?
    ensures IsFullRead(ReadOn(endpoint, p, limit, offset).value, list, limit, offset)
    decreases MaxRequests(limit) - |p.requests|
  {
    var request := NextRequest(p, limit);
    var fetched := endpoint(|p.requests|, request.start, request.count);
    FullIsServed(endpoint, list);
    assert AnswersFrom(list, fetched, request.start, request.count);
    assert |p.requests| < MaxRequests(limit);
    ReadOnUnfolds(endpoint, p, limit, offset);
    FullPage(p, fetched, list, limit, offset);
    var next := Advance(p, fetched, limit, offset).value;
    if next.coverage.None? {
      ReadOnInFull(endpoint, next, list, limit, offset);
    }
  }

  /**
   From an endpoint that answers every window in full, one read returns all there is up to its limit,
   and says which of the two stopped it, in as many requests as that takes at 40 entries each.
   */
  lemma FullReadIsWhole(endpoint: Endpoint, list: seq<Row>, limit: nat, offset: nat)
    requires DistinctIds(list) && ServesInFull(endpoint, list) && 1 <= limit <= MAX_LIMIT && offset <= |list|
    ensures Collect(endpoint, limit, offset).Ok?
    ensures var read := Collect(endpoint, limit, offset).value;
            var requests := ReadOn(endpoint, Begin(offset), limit, offset).value.requests;
            && |read.rows| == (if |list| - offset < limit then |list| - offset else limit)
            && read.rows == list[offset..offset + |read.rows|]
            && read.coverage == (if offset + |read.rows| == |list| then Complete else Limit)
            && |requests| == (if |read.rows| == 0 then 1 else (|read.rows| + 39) / 40)
  {
    FullIsServed(endpoint, list);
    ReadOfFixedList(endpoint, list, limit, offset);
    ReadOnInFull(endpoint, Begin(offset), list, limit, offset);
  }
}
