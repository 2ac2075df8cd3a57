/** The paged reader of LinkedIn connections (opencli-plugins/linkedin/connections.js). */
module Connections {
  import opened Wrappers
  import opened Text
  import opened ConnectionRows

  // ---------------------------------------------------------------------
  // What the endpoint answers
  // ---------------------------------------------------------------------

  datatype TotalField = NoTotal | NotInteger | Integer(n: int)

  /** One fetch as the page script reports it; `entries` is None when the payload carries no array. */
  datatype Fetched = AuthWall | FetchError | Payload(entries: Option<seq<Entry>>, total: TotalField)

  /**
   The endpoint: what it answers to its n-th request, asking for `count` entries from `start`.
   Nothing is assumed of it.
   */
  type Endpoint = (nat, nat, nat) -> Fetched

  function ReadReportedTotal(field: TotalField): Option<nat> {
    if field.Integer? && field.n >= 0 then Some(field.n) else None
  }

  // ---------------------------------------------------------------------
  // One page of entries
  // ---------------------------------------------------------------------

  function IdsOf(rows: seq<Row>): set<Text> {
    set r | r in rows :: r.publicId
  }

  datatype Absorbed = Absorbed(rows: seq<Row>, consumed: nat)

  /**
   Takes entries until the page or the limit runs out, skipping ids already seen; one that cannot
   be mapped throws.
   */
  function Absorb(entries: seq<Entry>, rows: seq<Row>, limit: nat): (r: Result<Absorbed, Failure>)
    ensures r.Ok? ==> r.value.consumed <= |entries|
  {
    if entries == [] then Ok(Absorbed(rows, 0))
    else
      var row :- entries[0];
      if row.publicId !in IdsOf(rows) && |rows| + 1 >= limit then Ok(Absorbed(rows + [row], 1))
      else
        var rest :- Absorb(entries[1..], if row.publicId in IdsOf(rows) then rows else rows + [row], limit);
        Ok(Absorbed(rest.rows, rest.consumed + 1))
  }

  // ---------------------------------------------------------------------
  // The read
  // ---------------------------------------------------------------------

  const PAGE_SIZE: nat := 40
  const MAX_LIMIT: nat := 500

  datatype Coverage = Complete | ExhaustedUnverified | Limit | Partial

  datatype Request = Request(start: nat, count: nat)

  datatype Progress = Progress(
    rows: seq<Row>,
    start: nat,
    total: Option<nat>,
    totalContradicted: bool,
    coverage: Option<Coverage>,
    requests: seq<Request>)

  datatype Read = Read(rows: seq<Row>, total: Option<nat>, coverage: Coverage, nextOffset: Option<nat>)

  function MaxRequests(limit: nat): nat {
    (limit + PAGE_SIZE - 1) / PAGE_SIZE * 2 + 2
  }

  function NextRequest(p: Progress, limit: nat): Request
    requires |p.rows| <= limit
  {
    var wanted := limit - |p.rows|;
    Request(p.start, if PAGE_SIZE <= wanted then PAGE_SIZE else wanted)
  }

  /** The total held after a page: the newest one reported, until one is contradicted by the rows in hand. */
  function HeldTotal(p: Progress, reported: Option<nat>): Option<nat> {
    if reported.Some? && !p.totalContradicted then reported else p.total
  }

  function Classify(total: Option<nat>, covered: nat, pageIsEmpty: bool, limitReached: bool): Option<Coverage> {
    if total.Some? && covered >= total.value then Some(Complete)
    else if pageIsEmpty then Some(if total.None? then ExhaustedUnverified else Partial)
    else if limitReached then Some(Limit)
    else None
  }

  /** The state after a page that gave `absorbed`. */
  function Settle(p: Progress, absorbed: Absorbed, reported: Option<nat>, pageIsEmpty: bool, limit: nat,
                  offset: nat): Progress
    requires |p.rows| <= limit
  {
    var covered := offset + |absorbed.rows|;
    var held := HeldTotal(p, reported);
    var contradicted := held.Some? && held.value < covered;
    var total := if contradicted then None else held;
    Progress(
      absorbed.rows,
      p.start + absorbed.consumed,
      total,
      p.totalContradicted || contradicted,
      Classify(total, covered, pageIsEmpty, |absorbed.rows| >= limit),
      p.requests + [NextRequest(p, limit)])
  }

  function Advance(p: Progress, fetched: Fetched, limit: nat, offset: nat): Result<Progress, Failure>
    requires |p.rows| <= limit
  {
    if fetched.AuthWall? then Err(AuthRequired)
    else if fetched.FetchError? then Err(UnexpectedResponse)
    else if fetched.entries.None? then Err(MalformedPayload)
    else
      var absorbed :- Absorb(fetched.entries.value, p.rows, limit);
      Ok(Settle(p, absorbed, ReadReportedTotal(fetched.total), fetched.entries.value == [], limit, offset))
  }

  lemma {:induction false} AbsorbStaysInLimit(entries: seq<Entry>, rows: seq<Row>, limit: nat)
    requires |rows| <= limit
    ensures var r := Absorb(entries, rows, limit);
            r.Ok? ==> |rows| <= |r.value.rows| && (|rows| < limit ==> |r.value.rows| <= limit)
  {
    if entries != [] && entries[0].Ok? {
      var row := entries[0].value;
      if row.publicId in IdsOf(rows) {
        AbsorbStaysInLimit(entries[1..], rows, limit);
      } else if |rows| + 1 < limit {
        AbsorbStaysInLimit(entries[1..], rows + [row], limit);
      }
    }
  }

  /** The rest of a read that has made `p` of progress. */
  function ReadOn(endpoint: Endpoint, p: Progress, limit: nat, offset: nat): Result<Progress, Failure>
    requires |p.rows| <= limit && (p.coverage.None? ==> |p.rows| < limit)
    decreases MaxRequests(limit) - |p.requests|
  {
    if p.coverage.Some? || |p.requests| >= MaxRequests(limit) then Ok(p)
    else
      var request := NextRequest(p, limit);
      var next :- Advance(p, endpoint(|p.requests|, request.start, request.count), limit, offset);
      AdvanceStaysInLimit(p, endpoint(|p.requests|, request.start, request.count), limit, offset);
      ReadOn(endpoint, next, limit, offset)
  }

  lemma AdvanceStaysInLimit(p: Progress, fetched: Fetched, limit: nat, offset: nat)
    requires |p.rows| < limit
    ensures var r := Advance(p, fetched, limit, offset);
            r.Ok? ==> |r.value.rows| <= limit && (r.value.coverage.None? ==> |r.value.rows| < limit)
  {
    if fetched.Payload? && fetched.entries.Some? {
      AbsorbStaysInLimit(fetched.entries.value, p.rows, limit);
    }
  }

  function Begin(offset: nat): Progress {
    Progress([], offset, None, false, None, [])
  }

  function Finish(p: Progress): Read {
    var coverage := if p.coverage.Some? then p.coverage.value else Partial;
    Read(p.rows, p.total, coverage, if coverage.Complete? then None else Some(p.start))
  }

  function Collect(endpoint: Endpoint, limit: nat, offset: nat): Result<Read, Failure>
    requires 1 <= limit <= MAX_LIMIT
  {
    var p :- ReadOn(endpoint, Begin(offset), limit, offset);
    Ok(Finish(p))
  }

  /** An absorption that had already consumed `k` entries. */
  function Shifted(r: Result<Absorbed, Failure>, k: nat): Result<Absorbed, Failure> {
    if r.Err? then r else Ok(Absorbed(r.value.rows, r.value.consumed + k))
  }

  /** Entry `k` goes by without ending the page: its id is already in hand, or there is room for more. */
  lemma AbsorbGoesOn(entries: seq<Entry>, rows: seq<Row>, limit: nat, k: nat, row: Row)
    requires k < |entries| && entries[k] == Ok(row)
    requires row.publicId in IdsOf(rows) || |rows| + 1 < limit
    ensures Shifted(Absorb(entries[k..], rows, limit), k)
         == Shifted(Absorb(entries[k + 1..], if row.publicId in IdsOf(rows) then rows else rows + [row], limit), k + 1)
  {
    assert entries[k..][0] == entries[k] && entries[k..][1..] == entries[k + 1..];
  }

  /** Entry `k` ends the page: it cannot be mapped, or it is the last there is room for. */
  lemma AbsorbEnds(entries: seq<Entry>, rows: seq<Row>, limit: nat, k: nat)
    requires k < |entries|
    ensures var row := entries[k];
            && (row.Err? ==> Shifted(Absorb(entries[k..], rows, limit), k) == Err(row.error))
            && (row.Ok? && row.value.publicId !in IdsOf(rows) && |rows| + 1 >= limit ==>
                  Shifted(Absorb(entries[k..], rows, limit), k) == Ok(Absorbed(rows + [row.value], k + 1)))
  {
    assert entries[k..][0] == entries[k];
  }

  /** One page's loop: `seen` grows with `rows`, and the loop stops at the limit. */
  method AbsorbPage(entries: seq<Entry>, before: seq<Row>, seenBefore: set<Text>, limit: nat)
    returns (absorbed: Result<Absorbed, Failure>, seen: set<Text>)
    requires |before| < limit && seenBefore == IdsOf(before)
    ensures absorbed == Absorb(entries, before, limit)
    ensures absorbed.Ok? ==> seen == IdsOf(absorbed.value.rows)
  {
    var rows := before;
    seen := seenBefore;
    var consumed: nat := 0;
    while consumed < |entries|
      invariant consumed <= |entries|
      invariant |rows| < limit
      invariant seen == IdsOf(rows)
      invariant Absorb(entries, before, limit) == Shifted(Absorb(entries[consumed..], rows, limit), consumed)
    {
      AbsorbEnds(entries, rows, limit, consumed);
      var row := entries[consumed];
      if row.Err? {
        return Err(row.error), seen;
      }
      consumed := consumed + 1;
      if row.value.publicId !in seen {
        if |rows| + 1 < limit {
          AbsorbGoesOn(entries, rows, limit, consumed - 1, row.value);
        }
        seen := seen + {row.value.publicId};
        rows := rows + [row.value];
        if |rows| >= limit {
          break;
        }
      } else {
        AbsorbGoesOn(entries, rows, limit, consumed - 1, row.value);
      }
    }
    absorbed := Ok(Absorbed(rows, consumed));
  }

  lemma ReadOnUnfolds(endpoint: Endpoint, p: Progress, limit: nat, offset: nat)
    requires |p.rows| < limit && p.coverage.None? && |p.requests| < MaxRequests(limit)
    ensures var request := NextRequest(p, limit);
            var next := Advance(p, endpoint(|p.requests|, request.start, request.count), limit, offset);
            && (next.Err? ==> ReadOn(endpoint, p, limit, offset) == Err(next.error))
            && (next.Ok? ==>
                  && |next.value.rows| <= limit
                  && (next.value.coverage.None? ==> |next.value.rows| < limit)
                  && ReadOn(endpoint, p, limit, offset) == ReadOn(endpoint, next.value, limit, offset))
  {
    var request := NextRequest(p, limit);
    AdvanceStaysInLimit(p, endpoint(|p.requests|, request.start, request.count), limit, offset);
  }

  /** One request and what the loop makes of its answer. */
  method ReadPage(endpoint: Endpoint, p: Progress, seenBefore: set<Text>, limit: nat, offset: nat)
    returns (next: Result<Progress, Failure>, seen: set<Text>)
    requires |p.rows| < limit && seenBefore == IdsOf(p.rows)
    ensures var request := NextRequest(p, limit);
            next == Advance(p, endpoint(|p.requests|, request.start, request.count), limit, offset)
    ensures next.Ok? ==> seen == IdsOf(next.value.rows)
  {
    seen := seenBefore;
    var wanted: nat := limit - |p.rows|;
    var count := if PAGE_SIZE <= wanted then PAGE_SIZE else wanted;
    var fetched := endpoint(|p.requests|, p.start, count);
    if fetched.AuthWall? {
      return Err(AuthRequired), seen;
    }
    if fetched.FetchError? {
      return Err(UnexpectedResponse), seen;
    }
    if fetched.entries.None? {
      return Err(MalformedPayload), seen;
    }
    var absorbed;
    absorbed, seen := AbsorbPage(fetched.entries.value, p.rows, seen, limit);
    if absorbed.Err? {
      return Err(absorbed.error), seen;
    }
    var rows, start := absorbed.value.rows, p.start + absorbed.value.consumed;

    var covered := offset + |rows|;
    var total, totalContradicted := p.total, p.totalContradicted;
    var reported := ReadReportedTotal(fetched.total);
    if reported.Some? && !totalContradicted {
      total := reported;
    }
    if total.Some? && total.value < covered {
      totalContradicted := true;
      total := None;
    }
    var coverage: Option<Coverage> := None;
    if total.Some? && covered >= total.value {
      coverage := Some(Complete);
    } else if |fetched.entries.value| == 0 {
      coverage := Some(if total.None? then ExhaustedUnverified else Partial);
    } else if |rows| >= limit {
      coverage := Some(Limit);
    }
    next := Ok(Progress(rows, start, total, totalContradicted, coverage, p.requests + [Request(p.start, count)]));
  }

  /** The read as the program runs it; `requests` is what it asked the endpoint for. */
  method CollectConnections(endpoint: Endpoint, limit: nat, offset: nat)
    returns (result: Result<Read, Failure>, requests: seq<Request>)
    requires 1 <= limit <= MAX_LIMIT
    ensures result == Collect(endpoint, limit, offset)
    ensures result.Ok? ==> requests == ReadOn(endpoint, Begin(offset), limit, offset).value.requests
    ensures |requests| <= MaxRequests(limit)
    ensures forall i :: 0 <= i < |requests| ==> 1 <= requests[i].count <= PAGE_SIZE
  {
    var p := Begin(offset);
    var seen: set<Text> := {};
    while |p.requests| < MaxRequests(limit) && p.coverage.None?
      invariant |p.requests| <= MaxRequests(limit)
      invariant |p.rows| <= limit && (p.coverage.None? ==> |p.rows| < limit)
      invariant seen == IdsOf(p.rows)
      invariant forall i :: 0 <= i < |p.requests| ==> 1 <= p.requests[i].count <= PAGE_SIZE
      invariant ReadOn(endpoint, Begin(offset), limit, offset) == ReadOn(endpoint, p, limit, offset)
    {
      ReadOnUnfolds(endpoint, p, limit, offset);
      var next;
      next, seen := ReadPage(endpoint, p, seen, limit, offset);
      if next.Err? {
        return Err(next.error), p.requests + [NextRequest(p, limit)];
      }
      p := next.value;
    }
    result, requests := Ok(Finish(p)), p.requests;
  }
}
