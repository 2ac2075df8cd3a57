/** What one read promises whatever the endpoint answers, and what chained reads promise of a fixed list. */
module ConnectionReads {
  import opened Wrappers
  import opened ConnectionRows
  import opened Connections

  // ---------------------------------------------------------------------
  // One page
  // ---------------------------------------------------------------------

  ghost predicate DistinctIds(rows: seq<Row>) {
    forall i, j :: 0 <= i < j < |rows| ==> rows[i].publicId != rows[j].publicId
  }

  /**
   A page adds rows behind those in hand, each from an entry it consumed; every consumed entry is
   in hand afterwards, none twice, and it stops short of the page only with the limit reached.
   */
  ghost predicate IsSound(entries: seq<Entry>, rows: seq<Row>, limit: nat, r: Absorbed) {
    && DistinctIds(r.rows)
    && rows <= r.rows
    && |r.rows| <= limit
    && |r.rows| - |rows| <= r.consumed <= |entries|
    && (r.consumed < |entries| ==> |r.rows| == limit)
    && (entries != [] ==> r.consumed > 0)
    && (forall i :: 0 <= i < r.consumed ==> entries[i].Ok? && entries[i].value.publicId in IdsOf(r.rows))
    && (forall i :: |rows| <= i < |r.rows| ==> Ok(r.rows[i]) in entries[..r.consumed])
  }

  /** What consuming the first entry adds to a sound absorption of the others: nothing, or a row. */
  lemma SoundWithFirst(entries: seq<Entry>, rows: seq<Row>, limit: nat, row: Row, taken: seq<Row>, rest: Absorbed)
    requires entries != [] && entries[0] == Ok(row)
    requires if row.publicId in IdsOf(rows) then taken == rows else taken == rows + [row]
    requires IsSound(entries[1..], taken, limit, rest)
    ensures IsSound(entries, rows, limit, Absorbed(rest.rows, rest.consumed + 1))
  {
    var consumed := rest.consumed + 1;
    ConsumedShift(entries, consumed);
    assert row.publicId in IdsOf(rest.rows) by {
      assert row.publicId in IdsOf(taken) by {
        assert taken != rows ==> taken[|rows|] == row;
      }
      assert forall x :: x in taken ==> x in rest.rows;
    }
    forall i | |rows| <= i < |rest.rows|
      ensures Ok(rest.rows[i]) in entries[..consumed]
    {
      if i < |taken| {
        assert rest.rows[i] == taken[i] == row && entries[..consumed][0] == entries[0];
      }
    }
  }

  lemma {:induction false} AbsorbIsSound(entries: seq<Entry>, rows: seq<Row>, limit: nat)
    requires DistinctIds(rows) && |rows| < limit
    requires Absorb(entries, rows, limit).Ok?
    ensures IsSound(entries, rows, limit, Absorb(entries, rows, limit).value)
  {
    if entries != [] {
      var row := entries[0].value;
      if row.publicId in IdsOf(rows) {
        AbsorbIsSound(entries[1..], rows, limit);
        SoundWithFirst(entries, rows, limit, row, rows, Absorb(entries[1..], rows, limit).value);
      } else if |rows| + 1 < limit {
        var taken := rows + [row];
        AbsorbIsSound(entries[1..], taken, limit);
        SoundWithFirst(entries, rows, limit, row, taken, Absorb(entries[1..], taken, limit).value);
      } else {
        assert (rows + [row])[|rows|] == row && entries[..1][0] == entries[0];
      }
    }
  }

  /** An absorption that reaches the limit stops right after the entry that reached it. */
  lemma {:induction false} StopsAtLimit(entries: seq<Entry>, rows: seq<Row>, limit: nat)
    requires |rows| < limit && Absorb(entries, rows, limit).Ok? && |Absorb(entries, rows, limit).value.rows| == limit
    ensures var r := Absorb(entries, rows, limit).value;
            0 < r.consumed <= |entries| && entries[r.consumed - 1] == Ok(r.rows[limit - 1])
  {
    if entries != [] {
      var row := entries[0].value;
      if row.publicId in IdsOf(rows) {
        StopsAtLimit(entries[1..], rows, limit);
      } else if |rows| + 1 < limit {
        StopsAtLimit(entries[1..], rows + [row], limit);
      }
    }
  }

  lemma ConsumedShift(entries: seq<Entry>, consumed: nat)
    requires 0 < consumed <= |entries|
    ensures entries[..consumed] == [entries[0]] + entries[1..][..consumed - 1]
    ensures forall i :: 1 <= i < consumed ==> entries[i] == entries[1..][i - 1]
  {
  }

  // ---------------------------------------------------------------------
  // Any endpoint
  // ---------------------------------------------------------------------

  /** What a read keeps true between requests, and what each way of ending means. */
  ghost predicate Holds(p: Progress, limit: nat, offset: nat) {
    var covered := offset + |p.rows|;
    && DistinctIds(p.rows)
    && |p.rows| <= limit
    && covered <= p.start
    && (p.totalContradicted ==> p.total.None?)
    && (p.total.Some? ==> p.total.value >= covered)
    && (p.total == Some(covered) ==> p.coverage == Some(Complete))
    && |p.requests| <= MaxRequests(limit)
    && (forall i :: 0 <= i < |p.requests| ==> 1 <= p.requests[i].count <= PAGE_SIZE)
    && match p.coverage
       case None => |p.rows| < limit
       case Some(Complete) => p.total == Some(covered)
       case Some(Limit) => |p.rows| == limit
       case Some(ExhaustedUnverified) => p.total.None?
       case Some(Partial) => p.total.Some?
  }

  lemma AdvanceHolds(p: Progress, fetched: Fetched, limit: nat, offset: nat)
    requires Holds(p, limit, offset) && p.coverage.None? && |p.requests| < MaxRequests(limit)
    requires Advance(p, fetched, limit, offset).Ok?
    ensures Holds(Advance(p, fetched, limit, offset).value, limit, offset)
  {
    AbsorbIsSound(fetched.entries.value, p.rows, limit);
  }

  lemma {:induction false} ReadOnHolds(endpoint: Endpoint, p: Progress, limit: nat, offset: nat)
    requires Holds(p, limit, offset) && ReadOn(endpoint, p, limit, offset).Ok?
    ensures Holds(ReadOn(endpoint, p, limit, offset).value, limit, offset)
    ensures var q := ReadOn(endpoint, p, limit, offset).value;
            && p.rows <= q.rows
            && p.requests <= q.requests
            && (q.coverage.None? ==> |q.requests| == MaxRequests(limit))
            && (p.totalContradicted ==> q.totalContradicted)
    decreases MaxRequests(limit) - |p.requests|
  {
    if p.coverage.None? && |p.requests| < MaxRequests(limit) {
      var request := NextRequest(p, limit);
      var fetched := endpoint(|p.requests|, request.start, request.count);
      ReadOnUnfolds(endpoint, p, limit, offset);
      AdvanceHolds(p, fetched, limit, offset);
      AbsorbIsSound(fetched.entries.value, p.rows, limit);
      ReadOnHolds(endpoint, Advance(p, fetched, limit, offset).value, limit, offset);
    }
  }

  /**
   Whatever the endpoint answers, a read that returns has distinct rows, at most `limit` of them,
   a total that is absent or not below what it covers, and a coverage that means what it says.
   */
  lemma ReadIsSound(endpoint: Endpoint, limit: nat, offset: nat)
    requires 1 <= limit <= MAX_LIMIT && Collect(endpoint, limit, offset).Ok?
    ensures var read := Collect(endpoint, limit, offset).value;
            var covered := offset + |read.rows|;
            && DistinctIds(read.rows)
            && |read.rows| <= limit
            && (read.total.Some? ==> read.total.value >= covered)
            && (read.coverage.Complete? <==> read.total == Some(covered))
            && (read.coverage.Complete? <==> read.nextOffset.None?)
            && (read.nextOffset.Some? ==> read.nextOffset.value >= covered)
            && (read.coverage.Limit? ==> |read.rows| == limit)
            && (read.coverage.ExhaustedUnverified? ==> read.total.None?)
  {
    ReadOnHolds(endpoint, Begin(offset), limit, offset);
  }

  /** The request budget, and a budget that binds is reported as a partial read. */
  lemma ReadStaysInBudget(endpoint: Endpoint, limit: nat, offset: nat)
    requires 1 <= limit <= MAX_LIMIT && Collect(endpoint, limit, offset).Ok?
    ensures var end := ReadOn(endpoint, Begin(offset), limit, offset).value;
            && |end.requests| <= 2 * ((limit + 39) / 40) + 2
            && (forall i :: 0 <= i < |end.requests| ==> 1 <= end.requests[i].count <= 40)
            && (end.coverage.None? ==>
                  && |end.requests| == 2 * ((limit + 39) / 40) + 2
                  && Collect(endpoint, limit, offset).value.coverage.Partial?)
  {
    ReadOnHolds(endpoint, Begin(offset), limit, offset);
  }

  /** Once a total has been contradicted, the read can end neither with a total nor complete. */
  lemma ContradictionIsFinal(endpoint: Endpoint, p: Progress, limit: nat, offset: nat)
    requires Holds(p, limit, offset) && p.totalContradicted && ReadOn(endpoint, p, limit, offset).Ok?
    ensures var read := Finish(ReadOn(endpoint, p, limit, offset).value);
            read.total.None? && !read.coverage.Complete? && read.nextOffset.Some?
  {
    ReadOnHolds(endpoint, p, limit, offset);
  }

  // ---------------------------------------------------------------------
  // Which total a read returns
  // ---------------------------------------------------------------------

  function AnswerTo(endpoint: Endpoint, p: Progress, limit: nat): Fetched
    requires |p.rows| <= limit
  {
    var request := NextRequest(p, limit);
    endpoint(|p.requests|, request.start, request.count)
  }

  /** A read after its first `n` requests, or None where it has ended or thrown before making that many. */
  function StateAfter(endpoint: Endpoint, limit: nat, offset: nat, n: nat): (p: Option<Progress>)
    requires limit >= 1
    ensures p.Some? ==>
              && |p.value.requests| == n
              && |p.value.rows| <= limit && (p.value.coverage.None? ==> |p.value.rows| < limit)
  {
    if n == 0 then Some(Begin(offset))
    else
      var before :- StateAfter(endpoint, limit, offset, n - 1);
      if before.coverage.Some? || n > MaxRequests(limit) then None
      else
        var fetched := AnswerTo(endpoint, before, limit);
        AdvanceStaysInLimit(before, fetched, limit, offset);
        var next := Advance(before, fetched, limit, offset);
        if next.Ok? then Some(next.value) else None
  }

  /** The total an answer reports: a whole number, not below zero. */
  function ReportedBy(fetched: Fetched): Option<nat> {
    if fetched.Payload? && fetched.total.Integer? && fetched.total.n >= 0 then Some(fetched.total.n) else None
  }

  /** The newest total among the answers to the first `n` requests. */
  function NewestTotal(endpoint: Endpoint, limit: nat, offset: nat, n: nat): Option<nat>
    requires limit >= 1
  {
    if n == 0 then None
    else
      var before :- StateAfter(endpoint, limit, offset, n - 1);
      var reported := ReportedBy(AnswerTo(endpoint, before, limit));
      if reported.Some? then reported else NewestTotal(endpoint, limit, offset, n - 1)
  }

  /** After `n` requests more distinct connections are in hand than the newest total allows for. */
  ghost predicate Contradicts(endpoint: Endpoint, limit: nat, offset: nat, n: nat)
    requires limit >= 1
  {
    var p, newest := StateAfter(endpoint, limit, offset, n), NewestTotal(endpoint, limit, offset, n);
    p.Some? && newest.Some? && newest.value < offset + |p.value.rows|
  }

  ghost predicate EverContradicts(endpoint: Endpoint, limit: nat, offset: nat, n: nat)
    requires limit >= 1
  {
    exists m: nat :: m <= n && Contradicts(endpoint, limit, offset, m)
  }

  /**
   What a page makes of the total held: the one it reports, if any, replaces it, and rows past it
   drop it for good.
   */
  lemma AdvanceTotal(p: Progress, fetched: Fetched, limit: nat, offset: nat, newest: Option<nat>)
    requires |p.rows| <= limit && Advance(p, fetched, limit, offset).Ok?
    requires p.total == if p.totalContradicted then None else newest
    ensures var next := Advance(p, fetched, limit, offset).value;
            var now := if ReportedBy(fetched).Some? then ReportedBy(fetched) else newest;
            var exceeded := now.Some? && now.value < offset + |next.rows|;
            && (next.totalContradicted <==> p.totalContradicted || exceeded)
            && next.total == if next.totalContradicted then None else now
  {
  }

  lemma NextState(endpoint: Endpoint, limit: nat, offset: nat, n: nat, p: Progress)
    requires limit >= 1 && n > 0 && StateAfter(endpoint, limit, offset, n).Some?
    requires StateAfter(endpoint, limit, offset, n - 1) == Some(p)
    ensures Advance(p, AnswerTo(endpoint, p, limit), limit, offset)
         == Ok(StateAfter(endpoint, limit, offset, n).value)
  {
  }

  lemma NewestAfterOneMore(endpoint: Endpoint, limit: nat, offset: nat, n: nat, p: Progress)
    requires limit >= 1 && n > 0 && StateAfter(endpoint, limit, offset, n - 1) == Some(p)
    ensures var reported := ReportedBy(AnswerTo(endpoint, p, limit));
            NewestTotal(endpoint, limit, offset, n)
            == if reported.Some? then reported else NewestTotal(endpoint, limit, offset, n - 1)
  {
  }

  /** One more request: the total follows the newest one reported until rows in hand contradict it, and then is gone. */
  lemma TotalAfterOneMore(endpoint: Endpoint, limit: nat, offset: nat, n: nat, p: Progress)
    requires limit >= 1 && n > 0 && StateAfter(endpoint, limit, offset, n).Some?
    requires StateAfter(endpoint, limit, offset, n - 1) == Some(p)
    requires p.total == if p.totalContradicted then None else NewestTotal(endpoint, limit, offset, n - 1)
    ensures var next := StateAfter(endpoint, limit, offset, n).value;
            && (next.totalContradicted <==> p.totalContradicted || Contradicts(endpoint, limit, offset, n))
            && next.total == if next.totalContradicted then None else NewestTotal(endpoint, limit, offset, n)
  {
    NextState(endpoint, limit, offset, n, p);
    NewestAfterOneMore(endpoint, limit, offset, n, p);
    AdvanceTotal(p, AnswerTo(endpoint, p, limit), limit, offset, NewestTotal(endpoint, limit, offset, n - 1));
  }

  lemma EverContradictsByNow(endpoint: Endpoint, limit: nat, offset: nat, n: nat)
    requires limit >= 1
    ensures EverContradicts(endpoint, limit, offset, n) <==>
            (n > 0 && EverContradicts(endpoint, limit, offset, n - 1)) || Contradicts(endpoint, limit, offset, n)
  {
  }

  lemma StateBefore(endpoint: Endpoint, limit: nat, offset: nat, n: nat) returns (before: Progress)
    requires limit >= 1 && n > 0 && StateAfter(endpoint, limit, offset, n).Some?
    ensures StateAfter(endpoint, limit, offset, n - 1) == Some(before)
  {
    before := StateAfter(endpoint, limit, offset, n - 1).value;
  }

  /** The total of `p`, a state after `n` requests, is the newest one unless it has been contradicted. */
  ghost predicate TotalIsNewest(endpoint: Endpoint, limit: nat, offset: nat, n: nat, p: Progress)
    requires limit >= 1
  {
    && (p.totalContradicted <==> EverContradicts(endpoint, limit, offset, n))
    && p.total == if p.totalContradicted then None else NewestTotal(endpoint, limit, offset, n)
  }

  lemma TotalAtFirst(endpoint: Endpoint, limit: nat, offset: nat)
    requires limit >= 1
    ensures TotalIsNewest(endpoint, limit, offset, 0, Begin(offset))
  {
    EverContradictsByNow(endpoint, limit, offset, 0);
  }

  lemma TotalAtNext(endpoint: Endpoint, limit: nat, offset: nat, n: nat, before: Progress, p: Progress)
    requires limit >= 1 && n > 0
    requires StateAfter(endpoint, limit, offset, n - 1) == Some(before)
    requires StateAfter(endpoint, limit, offset, n) == Some(p)
    requires TotalIsNewest(endpoint, limit, offset, n - 1, before)
    ensures TotalIsNewest(endpoint, limit, offset, n, p)
  {
    EverContradictsByNow(endpoint, limit, offset, n);
    TotalAfterOneMore(endpoint, limit, offset, n, before);
  }

  lemma {:induction false} TotalSoFar(endpoint: Endpoint, limit: nat, offset: nat, n: nat, p: Progress)
    requires limit >= 1 && StateAfter(endpoint, limit, offset, n) == Some(p)
    ensures TotalIsNewest(endpoint, limit, offset, n, p)
  {
    if n == 0 {
      TotalAtFirst(endpoint, limit, offset);
    } else {
      var before := StateBefore(endpoint, limit, offset, n);
      TotalSoFar(endpoint, limit, offset, n - 1, before);
      TotalAtNext(endpoint, limit, offset, n, before, p);
    }
  }

  lemma {:induction false} ReadOnEndsAfter(endpoint: Endpoint, limit: nat, offset: nat, n: nat)
    requires limit >= 1 && StateAfter(endpoint, limit, offset, n).Some? && n <= MaxRequests(limit)
    requires ReadOn(endpoint, StateAfter(endpoint, limit, offset, n).value, limit, offset).Ok?
    ensures var end := ReadOn(endpoint, StateAfter(endpoint, limit, offset, n).value, limit, offset).value;
            StateAfter(endpoint, limit, offset, |end.requests|) == Some(end)
    decreases MaxRequests(limit) - n
  {
    var p := StateAfter(endpoint, limit, offset, n).value;
    if p.coverage.None? && n < MaxRequests(limit) {
      ReadOnUnfolds(endpoint, p, limit, offset);
      ReadOnEndsAfter(endpoint, limit, offset, n + 1);
    }
  }

  /**
   A read returns the newest total it was told, unless at some request the newest total so far fell
   short of the connections in hand; from then on it returns none, and does not call itself complete.
   */
  lemma TotalIsNewestUnlessContradicted(endpoint: Endpoint, limit: nat, offset: nat)
    requires 1 <= limit <= MAX_LIMIT && Collect(endpoint, limit, offset).Ok?
    ensures var read := Collect(endpoint, limit, offset).value;
            var n := |ReadOn(endpoint, Begin(offset), limit, offset).value.requests|;
            if EverContradicts(endpoint, limit, offset, n)
            then read.total.None? && !read.coverage.Complete? && read.nextOffset.Some?
            else read.total == NewestTotal(endpoint, limit, offset, n)
  {
    ReadOnEndsAfter(endpoint, limit, offset, 0);
    var end := ReadOn(endpoint, Begin(offset), limit, offset).value;
    TotalSoFar(endpoint, limit, offset, |end.requests|, end);
    ReadIsSound(endpoint, limit, offset);
  }

  /** What a read's coverage is, given what it ends with and whether its last page was empty. */
  function CoverageOf(total: Option<nat>, covered: nat, lastPageIsEmpty: bool, limitReached: bool): Coverage {
    if total == Some(covered) then Complete
    else if lastPageIsEmpty then (if total.None? then ExhaustedUnverified else Partial)
    else if limitReached then Limit
    else Partial
  }

  /** The last page answered decides, by the classification, whether and how a read has ended. */
  lemma LastPageClassifies(endpoint: Endpoint, limit: nat, offset: nat, n: nat)
    requires limit >= 1 && n > 0 && StateAfter(endpoint, limit, offset, n).Some?
    ensures StateAfter(endpoint, limit, offset, n - 1).Some?
    ensures var p := StateAfter(endpoint, limit, offset, n).value;
            var last := AnswerTo(endpoint, StateAfter(endpoint, limit, offset, n - 1).value, limit);
            && last.Payload? && last.entries.Some?
            && p.coverage == Classify(p.total, offset + |p.rows|, last.entries.value == [], |p.rows| >= limit)
  {
  }

  lemma FinishedCoverage(p: Progress, limit: nat, offset: nat, isEmpty: bool)
    requires Holds(p, limit, offset)
    requires p.coverage == Classify(p.total, offset + |p.rows|, isEmpty, |p.rows| >= limit)
    ensures Finish(p).coverage == CoverageOf(p.total, offset + |p.rows|, isEmpty, |p.rows| == limit)
    ensures Finish(p).coverage.Partial? ==>
              if isEmpty then p.total.Some? && p.total.value > offset + |p.rows|
              else p.coverage.None? && |p.rows| < limit
  {
  }

  /** Whether the answer to request `n`, the last one made, was a page without entries. */
  ghost predicate EndsOnEmptyPage(endpoint: Endpoint, limit: nat, offset: nat, n: nat)
    requires limit >= 1
  {
    && n > 0 && StateAfter(endpoint, limit, offset, n - 1).Some?
    && var last := AnswerTo(endpoint, StateAfter(endpoint, limit, offset, n - 1).value, limit);
       last.Payload? && last.entries == Some([])
  }

  lemma CoverageAfter(endpoint: Endpoint, limit: nat, offset: nat, n: nat, end: Progress)
    requires limit >= 1 && n > 0 && StateAfter(endpoint, limit, offset, n) == Some(end)
    requires Holds(end, limit, offset)
    ensures var isEmpty := EndsOnEmptyPage(endpoint, limit, offset, n);
            && Finish(end).coverage == CoverageOf(end.total, offset + |end.rows|, isEmpty, |end.rows| == limit)
            && (Finish(end).coverage.Partial? ==>
                  if isEmpty then end.total.Some? && end.total.value > offset + |end.rows|
                  else end.coverage.None? && |end.rows| < limit)
  {
    LastPageClassifies(endpoint, limit, offset, n);
    FinishedCoverage(end, limit, offset, EndsOnEmptyPage(endpoint, limit, offset, n));
  }

  /**
   Exactly when a read is complete, exhausted, limited or partial. Partial is either an empty page
   short of the reported total, or a budget spent with neither the limit nor the total reached.
   */
  lemma CoverageIsExact(endpoint: Endpoint, limit: nat, offset: nat)
    requires 1 <= limit <= MAX_LIMIT && Collect(endpoint, limit, offset).Ok?
    ensures var read := Collect(endpoint, limit, offset).value;
            var n := |ReadOn(endpoint, Begin(offset), limit, offset).value.requests|;
            var isEmpty := EndsOnEmptyPage(endpoint, limit, offset, n);
            && read.coverage == CoverageOf(read.total, offset + |read.rows|, isEmpty, |read.rows| == limit)
            && (read.coverage.Partial? ==>
                  if isEmpty then read.total.Some? && read.total.value > offset + |read.rows|
                  else n == MaxRequests(limit) && |read.rows| < limit)
  {
    var end := ReadOn(endpoint, Begin(offset), limit, offset).value;
    ReadOnEndsAfter(endpoint, limit, offset, 0);
    ReadOnHolds(endpoint, Begin(offset), limit, offset);
    CoverageAfter(endpoint, limit, offset, |end.requests|, end);
  }

  // ---------------------------------------------------------------------
  // What a row carries
  // ---------------------------------------------------------------------

  /** Every page the endpoint answers is a list of elements, read one by one. */
  ghost predicate AnswersElements(endpoint: Endpoint) {
    forall n, start, count ::
      var fetched := endpoint(n, start, count);
      fetched.Payload? && fetched.entries.Some? ==> forall entry :: entry in fetched.entries.value ==> IsMapped(entry)
  }

  lemma {:induction false} ReadOnKeepsMapped(endpoint: Endpoint, p: Progress, limit: nat, offset: nat)
    requires AnswersElements(endpoint) && (forall row :: row in p.rows ==> IsMapped(Ok(row)))
    requires Holds(p, limit, offset) && ReadOn(endpoint, p, limit, offset).Ok?
    ensures forall row :: row in ReadOn(endpoint, p, limit, offset).value.rows ==> IsMapped(Ok(row))
    decreases MaxRequests(limit) - |p.requests|
  {
    if p.coverage.None? && |p.requests| < MaxRequests(limit) {
      var fetched := AnswerTo(endpoint, p, limit);
      ReadOnUnfolds(endpoint, p, limit, offset);
      AdvanceHolds(p, fetched, limit, offset);
      AbsorbIsSound(fetched.entries.value, p.rows, limit);
      var next := Advance(p, fetched, limit, offset).value;
      forall row | row in next.rows
        ensures IsMapped(Ok(row))
      {
        var i :| 0 <= i < |next.rows| && next.rows[i] == row;
        if i < |p.rows| {
          assert row in p.rows;
        }
      }
      ReadOnKeepsMapped(endpoint, next, limit, offset);
    }
  }

  /** Every row a read returns comes from an element with a stable identifier that can stand in an address. */
  lemma ReadRowsAreAddressable(endpoint: Endpoint, limit: nat, offset: nat)
    requires 1 <= limit <= MAX_LIMIT && AnswersElements(endpoint) && Collect(endpoint, limit, offset).Ok?
    ensures forall row :: row in Collect(endpoint, limit, offset).value.rows ==>
              MapConnection(row.element) == Ok(row) && Addressable(row.publicId)
  {
    ReadOnKeepsMapped(endpoint, Begin(offset), limit, offset);
    forall row | row in Collect(endpoint, limit, offset).value.rows
      ensures MapConnection(row.element) == Ok(row) && Addressable(row.publicId)
    {
      MappedIsAddressable(Ok(row));
    }
  }

  // ---------------------------------------------------------------------
  // A fixed list, served in short pages
  // ---------------------------------------------------------------------

  function EntriesOf(rows: seq<Row>): (entries: seq<Entry>)
    ensures |entries| == |rows|
    ensures forall i :: 0 <= i < |rows| ==> entries[i] == Ok(rows[i])
  {
    seq(|rows|, i requires 0 <= i < |rows| => Ok(rows[i]))
  }

  /** A non-empty prefix of the window asked for, empty only past the end, with the list's true length. */
  ghost predicate AnswersFrom(list: seq<Row>, fetched: Fetched, start: nat, count: nat) {
    && fetched.Payload? && fetched.entries.Some? && fetched.total == Integer(|list|)
    && var n := |fetched.entries.value|;
       if start >= |list| then n == 0
       else 1 <= n <= count && start + n <= |list| && fetched.entries.value == EntriesOf(list[start..start + n])
  }

  ghost predicate Serves(endpoint: Endpoint, list: seq<Row>) {
    forall n, start, count :: count >= 1 ==> AnswersFrom(list, endpoint(n, start, count), start, count)
  }

  lemma {:induction false} AbsorbFresh(added: seq<Row>, rows: seq<Row>, limit: nat)
    requires DistinctIds(rows + added) && |rows| < limit && |rows| + |added| <= limit
    ensures Absorb(EntriesOf(added), rows, limit) == Ok(Absorbed(rows + added, |added|))
  {
    if added == [] {
      assert rows + added == rows;
    } else {
      FreshIsUnseen(added, rows);
      assert EntriesOf(added)[1..] == EntriesOf(added[1..]);
      assert rows + added == (rows + [added[0]]) + added[1..];
      if |rows| + 1 < limit {
        AbsorbFresh(added[1..], rows + [added[0]], limit);
      } else {
        assert added == [added[0]];
      }
    }
  }

  lemma FreshIsUnseen(added: seq<Row>, rows: seq<Row>)
    requires DistinctIds(rows + added) && added != []
    ensures added[0].publicId !in IdsOf(rows)
  {
    forall i | 0 <= i < |rows|
      ensures rows[i].publicId != added[0].publicId
    {
      assert (rows + added)[i] == rows[i] && (rows + added)[|rows|] == added[0];
    }
  }

  /** A read of a fixed list so far: the rows are the list from `offset` to where the next request starts. */
  ghost predicate Tracks(p: Progress, list: seq<Row>, limit: nat, offset: nat) {
    && offset <= p.start <= |list|
    && p.rows == list[offset..p.start]
    && |p.rows| <= limit
    && !p.totalContradicted
    && (p.total == Some(|list|) || (p.total.None? && p.requests == []))
    && match p.coverage
       case None => |p.rows| < limit && (p.requests != [] ==> p.start < |list|)
       case Some(Complete) => p.start == |list| && p.total == Some(|list|)
       case Some(Limit) => p.start < |list| && |p.rows| == limit && p.total == Some(|list|)
       case Some(_) => false
  }

  /** The rows a request for the list gets. */
  function Served(list: seq<Row>, fetched: Fetched, start: nat): seq<Row>
    requires fetched.Payload? && fetched.entries.Some?
  {
    var n := |fetched.entries.value|;
    if start + n <= |list| then list[start..start + n] else []
  }

  /** What a page of a fixed list gives: the next rows, all new, and the true total. */
  lemma ServedPage(p: Progress, fetched: Fetched, list: seq<Row>, limit: nat, offset: nat)
    requires DistinctIds(list) && Tracks(p, list, limit, offset) && p.coverage.None?
    requires AnswersFrom(list, fetched, p.start, NextRequest(p, limit).count)
    ensures var added := Served(list, fetched, p.start);
            && |added| == |fetched.entries.value|
            && |p.rows| + |added| <= limit
            && (added == [] <==> p.start == |list|)
            && p.start + |added| <= |list|
            && p.rows + added == list[offset..p.start + |added|]
            && Absorb(fetched.entries.value, p.rows, limit) == Ok(Absorbed(p.rows + added, |added|))
  {
    var added := Served(list, fetched, p.start);
    assert fetched.entries.value == EntriesOf(added);
    assert p.rows + added == list[offset..p.start + |added|];
    AbsorbFresh(added, p.rows, limit);
  }

  lemma AdvanceTracks(p: Progress, fetched: Fetched, list: seq<Row>, limit: nat, offset: nat)
    requires DistinctIds(list) && Tracks(p, list, limit, offset) && p.coverage.None?
    requires AnswersFrom(list, fetched, p.start, NextRequest(p, limit).count)
    ensures Advance(p, fetched, limit, offset).Ok?
    ensures Tracks(Advance(p, fetched, limit, offset).value, list, limit, offset)
    ensures p.start < |list| ==> p.start < Advance(p, fetched, limit, offset).value.start
    ensures Advance(p, fetched, limit, offset).value.requests != []
  {
    ServedPage(p, fetched, list, limit, offset);
  }

  lemma {:induction false} ReadOnTracks(endpoint: Endpoint, p: Progress, list: seq<Row>, limit: nat, offset: nat)
    requires DistinctIds(list) && Serves(endpoint, list) && Tracks(p, list, limit, offset)
    ensures ReadOn(endpoint, p, limit, offset).Ok?
    ensures var q := ReadOn(endpoint, p, limit, offset).value;
            && Tracks(q, list, limit, offset)
            && p.start <= q.start
            && (q.requests != [] || p.requests == [])
            && (p.requests == [] && p.coverage.None? ==>
                  q.requests != [] && (p.start < |list| ==> p.start < q.start))
    decreases MaxRequests(limit) - |p.requests|
  {
    if p.coverage.None? && |p.requests| < MaxRequests(limit) {
      var request := NextRequest(p, limit);
      var fetched := endpoint(|p.requests|, request.start, request.count);
      assert AnswersFrom(list, fetched, request.start, request.count);
      ReadOnUnfolds(endpoint, p, limit, offset);
      AdvanceTracks(p, fetched, list, limit, offset);
      ReadOnTracks(endpoint, Advance(p, fetched, limit, offset).value, list, limit, offset);
    }
  }

  /** One read of a fixed list: the next stretch of it, complete exactly when that stretch reaches the end. */
  lemma ReadOfFixedList(endpoint: Endpoint, list: seq<Row>, limit: nat, offset: nat)
    requires DistinctIds(list) && Serves(endpoint, list) && 1 <= limit <= MAX_LIMIT && offset <= |list|
    ensures Collect(endpoint, limit, offset).Ok?
    ensures var read := Collect(endpoint, limit, offset).value;
            var end := offset + |read.rows|;
            && end <= |list|
            && read.rows == list[offset..end]
            && read.total == Some(|list|)
            && (if end == |list| then read.coverage.Complete? && read.nextOffset.None?
                else && read.nextOffset == Some(end) && end > offset
                     && read.coverage == if |read.rows| == limit then Limit else Partial)
  {
    ReadOnTracks(endpoint, Begin(offset), list, limit, offset);
  }

  /** Whichever endpoint and limit a read is made with, the endpoint serves the list and the limit is allowed. */
  ghost predicate AllServe(endpoints: nat -> Endpoint, limits: nat -> nat, list: seq<Row>) {
    forall i :: Serves(endpoints(i), list) && 1 <= limits(i) <= MAX_LIMIT
  }

  /** The reads a caller makes by passing each `next_offset` back until it is null. */
  function ChainReads(endpoints: nat -> Endpoint, limits: nat -> nat, ghost list: seq<Row>, offset: nat,
                      k: nat): seq<Read>
    requires DistinctIds(list) && offset <= |list|
    requires AllServe(endpoints, limits, list)
    decreases |list| - offset
  {
    ReadOfFixedList(endpoints(k), list, limits(k), offset);
    var read := Collect(endpoints(k), limits(k), offset).value;
    if read.nextOffset.None? then [read]
    else [read] + ChainReads(endpoints, limits, list, read.nextOffset.value, k + 1)
  }

  /** The first read of a chain: the next stretch of the list, complete and last exactly where that ends the list. */
  lemma ChainStarts(endpoints: nat -> Endpoint, limits: nat -> nat, list: seq<Row>, offset: nat, k: nat)
    returns (read: Read, next: nat)
    requires DistinctIds(list) && offset <= |list|
    requires AllServe(endpoints, limits, list)
    ensures offset <= next <= |list| && read.rows == list[offset..next]
    ensures read.coverage.Complete? <==> next == |list|
    ensures next == |list| ==> ChainReads(endpoints, limits, list, offset, k) == [read]
    ensures next < |list| ==>
              && offset < next
              && ChainReads(endpoints, limits, list, offset, k)
              == [read] + ChainReads(endpoints, limits, list, next, k + 1)
  {
    ReadOfFixedList(endpoints(k), list, limits(k), offset);
    read := Collect(endpoints(k), limits(k), offset).value;
    next := offset + |read.rows|;
  }

  function ChainedRows(chain: seq<Read>): seq<Row> {
    if chain == [] then [] else chain[0].rows + ChainedRows(chain[1..])
  }

  /** `chain` hands over exactly `rows`, and only its last read is complete. */
  ghost predicate HandsOver(chain: seq<Read>, rows: seq<Row>) {
    && chain != []
    && ChainedRows(chain) == rows
    && (forall i :: 0 <= i < |chain| ==> (chain[i].coverage.Complete? <==> i == |chain| - 1))
  }

  /** A read up to `next` before reads that hand over the list from there. */
  lemma PrependRead(list: seq<Row>, offset: nat, next: nat, read: Read, rest: seq<Read>)
    requires offset <= next <= |list| && read.rows == list[offset..next] && !read.coverage.Complete?
    requires HandsOver(rest, list[next..])
    ensures HandsOver([read] + rest, list[offset..])
  {
    assert ([read] + rest)[1..] == rest;
    assert list[offset..] == list[offset..next] + list[next..];
  }

  lemma LastRead(list: seq<Row>, offset: nat, read: Read)
    requires offset <= |list| && read.rows == list[offset..|list|] && read.coverage.Complete?
    ensures HandsOver([read], list[offset..])
  {
    assert [read][1..] == [];
    assert ChainedRows([read]) == read.rows + ChainedRows([]);
    assert list[offset..|list|] == list[offset..];
  }

  /**
   Reads chained through `next_offset` come to an end, and end complete, having returned the list
   from the first offset on: no gap and no repeat, whatever the page sizes and the limits are.
   */
  lemma {:induction false} ChainReadsTheList(endpoints: nat -> Endpoint, limits: nat -> nat, list: seq<Row>,
                                             offset: nat, k: nat)
    requires DistinctIds(list) && offset <= |list|
    requires AllServe(endpoints, limits, list)
    ensures HandsOver(ChainReads(endpoints, limits, list, offset, k), list[offset..])
    decreases |list| - offset
  {
    var read, next := ChainStarts(endpoints, limits, list, offset, k);
    if next < |list| {
      ChainReadsTheList(endpoints, limits, list, next, k + 1);
      PrependRead(list, offset, next, read, ChainReads(endpoints, limits, list, next, k + 1));
    } else {
      LastRead(list, offset, read);
    }
  }

  /**
   The one way a chain fails to complete: an offset past the end. The reported total is below the
   offset, so it is taken for contradicted, and every read answers nothing and hands the offset back.
   */
  lemma ReadPastTheEnd(endpoint: Endpoint, list: seq<Row>, limit: nat, offset: nat)
    requires Serves(endpoint, list) && 1 <= limit <= MAX_LIMIT && offset > |list|
    ensures Collect(endpoint, limit, offset) == Ok(Read([], None, ExhaustedUnverified, Some(offset)))
  {
    var p := Begin(offset);
    var request := NextRequest(p, limit);
    var fetched := endpoint(0, request.start, request.count);
    assert AnswersFrom(list, fetched, request.start, request.count);
    ReadOnUnfolds(endpoint, p, limit, offset);
  }

  /** A read makes its caller's chain shorter, or ends it, exactly when it starts within the list. */
  lemma ReadProgressesIff(endpoint: Endpoint, list: seq<Row>, limit: nat, offset: nat)
    requires DistinctIds(list) && Serves(endpoint, list) && 1 <= limit <= MAX_LIMIT
    ensures Collect(endpoint, limit, offset).Ok?
    ensures var read := Collect(endpoint, limit, offset).value;
            offset <= |list| <==> read.coverage.Complete? || (read.nextOffset.Some? && read.nextOffset.value > offset)
  {
    if offset <= |list| {
      ReadOfFixedList(endpoint, list, limit, offset);
    } else {
      ReadPastTheEnd(endpoint, list, limit, offset);
    }
  }
}
