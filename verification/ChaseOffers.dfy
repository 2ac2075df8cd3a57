/** Accepting card offers in passes and batches (opencli-plugins/chase/accept-offers.js). */
module ChaseOffers {
  import opened Wrappers

  const MAX_ACCOUNT_PASSES: nat := 20

  // ---------------------------------------------------------------------
  // What the site shows and answers for one card
  // ---------------------------------------------------------------------

  datatype Readiness = Ready | SignedOut | NotLoaded

  /** A tile of the offer grid; `offerId` is empty where the tile carries no offer data or no identifier. */
  datatype Tile = Tile(offerId: string, activatable: bool)

  datatype Outcome = Activated | AlreadyAdded | Failed | AuthRequired

  /**
   What becomes of a batch: its answer arrives, the page has lost its queue, or the batch runs but
   its answer is unusable.
   */
  datatype Delivery = Delivered | QueueGone | Garbled

  /**
   One card as the site behaves on it, pass by pass: whether it loads, which tiles the grid shows
   (None when no usable queue comes back), what activating the queue's n-th offer comes to, and
   what happens to the batch that starts there. Nothing is assumed of any of them.
   */
  datatype Site = Site(
    readiness: nat -> Readiness,
    tiles: nat -> Option<seq<Tile>>,
    outcome: (nat, nat) -> Outcome,
    delivery: (nat, nat) -> Delivery)

  datatype Status = LoadFailed | InvalidQueue | NoNewOffers | InvalidBatch | TooManyPasses

  datatype Row = OfferRow(offerId: string, outcome: Outcome) | StatusRow(status: Status)

  // ---------------------------------------------------------------------
  // The page's queue
  // ---------------------------------------------------------------------

  /** Ids worth a click, once each: the first tile of an id decides, and excluded ids are left out. */
  function QueueFrom(tiles: seq<Tile>, seen: set<string>, excluded: set<string>): seq<string> {
    if tiles == [] then []
    else
      var id := tiles[0].offerId;
      if id == "" || id in seen || id in excluded then QueueFrom(tiles[1..], seen, excluded)
      else (if tiles[0].activatable then [id] else []) + QueueFrom(tiles[1..], seen + {id}, excluded)
  }

  function QueueOf(tiles: seq<Tile>, excluded: set<string>): seq<string> {
    QueueFrom(tiles, {}, excluded)
  }

  /** Where a batch that starts at `index` stops: after two offers, at the end, or at an expired session. */
  function BatchStop(items: seq<string>, index: nat, outcome: nat -> Outcome): (stop: nat)
    requires index < |items|
    ensures index < stop <= |items|
    ensures stop == index + 1 || !outcome(index).AuthRequired?
  {
    if outcome(index).AuthRequired? || index + 1 == |items| then index + 1 else index + 2
  }

  function OfferRows(items: seq<string>, from: nat, to: nat, outcome: nat -> Outcome): (rows: seq<Row>)
    requires from <= to <= |items|
    ensures |rows| == to - from
    ensures forall i :: 0 <= i < to - from ==> rows[i] == OfferRow(items[from + i], outcome(from + i))
  {
    seq(to - from, i requires 0 <= i < to - from => OfferRow(items[from + i], outcome(from + i)))
  }

  lemma OneMoreRow(items: seq<string>, from: nat, to: nat, outcome: nat -> Outcome)
    requires from <= to < |items|
    ensures OfferRows(items, from, to + 1, outcome)
         == OfferRows(items, from, to, outcome) + [OfferRow(items[to], outcome(to))]
    ensures items[from..to + 1] == items[from..to] + [items[to]]
  {
  }

  datatype Batch = Batch(rows: seq<Row>, remaining: int)

  /** The window: the queue a prepare leaves there, and every click made on the site. */
  class OfferPage {
    var items: seq<string>
    var index: nat
    var hasQueue: bool
    var clicked: seq<string>

    constructor ()
      ensures clicked == [] && !hasQueue
    {
      items, index, hasQueue, clicked := [], 0, false, [];
    }

    method Prepare(tiles: seq<Tile>, excluded: set<string>) returns (discovered: nat)
      modifies this
      ensures items == QueueOf(tiles, excluded) && index == 0 && hasQueue
      ensures discovered == |items| && clicked == old(clicked)
    {
      var seen: set<string> := {};
      items := [];
      for i := 0 to |tiles|
        invariant clicked == old(clicked)
        invariant QueueOf(tiles, excluded) == items + QueueFrom(tiles[i..], seen, excluded)
      {
        var id := tiles[i].offerId;
        assert tiles[i..][0] == tiles[i] && tiles[i..][1..] == tiles[i + 1..];
        if id == "" || id in seen || id in excluded {
          continue;
        }
        seen := seen + {id};
        if !tiles[i].activatable {
          continue;
        }
        items := items + [id];
      }
      index, hasQueue := 0, true;
      discovered := |items|;
    }

    method AcceptBatch(outcome: nat -> Outcome) returns (batch: Option<Batch>)
      requires hasQueue ==> index < |items|
      modifies this
      ensures items == old(items)
      ensures batch.Some? <==> old(hasQueue)
      ensures batch.None? ==> clicked == old(clicked)
      ensures batch.Some? ==>
                var stop := BatchStop(items, old(index), outcome);
                && index == stop && hasQueue == (stop < |items|)
                && clicked == old(clicked) + items[old(index)..stop]
                && batch.value == Batch(OfferRows(items, old(index), stop, outcome), |items| - stop)
      ensures batch.Some? ==>
                var n := |batch.value.rows|;
                && n == (if old(index) + 1 == |items| || outcome(old(index)).AuthRequired? then 1 else 2)
                && batch.value.remaining == |items| - old(index) - n
                && forall i :: 0 <= i < n ==>
                     batch.value.rows[i] == OfferRow(items[old(index) + i], outcome(old(index) + i))
    {
      if !hasQueue {
        return None;
      }
      var rows: seq<Row> := [];
      var batchEnd := if index + 2 <= |items| then index + 2 else |items|;
      while index < batchEnd
        invariant old(index) <= index <= batchEnd && items == old(items) && hasQueue
        invariant clicked == old(clicked) + items[old(index)..index]
        invariant rows == OfferRows(items, old(index), index, outcome)
        invariant forall i :: old(index) <= i < index ==> !outcome(i).AuthRequired?
      {
        OneMoreRow(items, old(index), index, outcome);
        var item, at := items[index], index;
        index := index + 1;
        clicked := clicked + [item];
        rows := rows + [OfferRow(item, outcome(at))];
        if outcome(at).AuthRequired? {
          break;
        }
      }
      assert index == BatchStop(items, old(index), outcome);
      var remaining := |items| - index;
      if remaining == 0 {
        hasQueue := false;
      }
      batch := Some(Batch(rows, remaining));
    }
  }

  // ---------------------------------------------------------------------
  // One card
  // ---------------------------------------------------------------------

  datatype End = Open | Complete | Expired | Refused

  /** A card's progress: its rows, the clicks made for it, the ids it has rows for, and how it ended. */
  datatype Card = Card(rows: seq<Row>, clicks: seq<string>, processed: set<string>, offerRows: nat, end: End)

  const FRESH := Card([], [], {}, 0, Open)

  function OutcomesOf(site: Site, pass: nat): nat -> Outcome {
    (i: nat) => site.outcome(pass, i)
  }

  function Ids(rows: seq<Row>): set<string> {
    set r | r in rows && r.OfferRow? :: r.offerId
  }

  function WithStatus(c: Card, status: Status): Card {
    c.(rows := c.rows + [StatusRow(status)], end := Complete)
  }

  /** The card after the batch that starts at `index`. */
  function AfterBatch(site: Site, pass: nat, items: seq<string>, index: nat, c: Card): Card
    requires index < |items|
  {
    var outcome := OutcomesOf(site, pass);
    var stop := BatchStop(items, index, outcome);
    var rows := OfferRows(items, index, stop, outcome);
    match site.delivery(pass, index)
    case QueueGone => WithStatus(c, InvalidBatch)
    case Garbled => WithStatus(c, InvalidBatch).(clicks := c.clicks + items[index..stop])
    case Delivered =>
      Card(c.rows + rows, c.clicks + items[index..stop], c.processed + Ids(rows), c.offerRows + |rows|,
           if outcome(stop - 1).AuthRequired? then Expired else Open)
  }

  /** The batches of one pass, from `index` on. */
  function Drain(site: Site, pass: nat, items: seq<string>, index: nat, c: Card): Card
    requires index <= |items|
    decreases |items| - index
  {
    if index == |items| then c
    else
      var next := AfterBatch(site, pass, items, index, c);
      if !next.end.Open? then next
      else Drain(site, pass, items, BatchStop(items, index, OutcomesOf(site, pass)), next)
  }

  /** The card after one more pass. */
  function AfterPass(site: Site, pass: nat, c: Card): Card {
    match site.readiness(pass)
    case SignedOut => c.(end := Refused)
    case NotLoaded => WithStatus(c, LoadFailed)
    case Ready =>
      if site.tiles(pass).None? then WithStatus(c, InvalidQueue)
      else
        var items := QueueOf(site.tiles(pass).value, c.processed);
        if items != [] then Drain(site, pass, items, 0, c)
        else if c.offerRows == 0 then WithStatus(c, NoNewOffers)
        else c.(end := Complete)
  }

  /** The passes from `pass` on. */
  function Passes(site: Site, pass: nat, c: Card): Card
    decreases MAX_ACCOUNT_PASSES + 1 - pass
  {
    if pass > MAX_ACCOUNT_PASSES then WithStatus(c, TooManyPasses)
    else
      var next := AfterPass(site, pass, c);
      if next.end.Open? then Passes(site, pass + 1, next) else next
  }

  function CardOf(site: Site): Card {
    Passes(site, 1, FRESH)
  }

  // ---------------------------------------------------------------------
  // The driver
  // ---------------------------------------------------------------------

  /** Takes a batch's rows in: each offer is marked processed, and an expired session is noticed. */
  method TakeRows(batch: seq<Row>, rowsBefore: seq<Row>, processedBefore: set<string>)
    returns (rows: seq<Row>, processed: set<string>, stopForAuth: bool)
    requires forall i :: 0 <= i < |batch| ==> batch[i].OfferRow?
    ensures rows == rowsBefore + batch && processed == processedBefore + Ids(batch)
    ensures stopForAuth <==> exists i :: 0 <= i < |batch| && batch[i].outcome.AuthRequired?
  {
    rows, processed, stopForAuth := rowsBefore, processedBefore, false;
    for i := 0 to |batch|
      invariant rows == rowsBefore + batch[..i]
      invariant processed == processedBefore + Ids(batch[..i])
      invariant stopForAuth <==> exists j :: 0 <= j < i && batch[j].outcome.AuthRequired?
    {
      assert batch[..i + 1] == batch[..i] + [batch[i]];
      processed := processed + {batch[i].offerId};
      rows := rows + [batch[i]];
      if batch[i].outcome.AuthRequired? {
        stopForAuth := true;
      }
    }
    assert batch[..|batch|] == batch;
  }

  lemma DrainUnfolds(site: Site, pass: nat, items: seq<string>, index: nat, c: Card)
    requires index < |items|
    ensures var next := AfterBatch(site, pass, items, index, c);
            Drain(site, pass, items, index, c)
            == if next.end.Open? then Drain(site, pass, items, BatchStop(items, index, OutcomesOf(site, pass)), next)
               else next
  {
  }

  lemma OnlyLastRowExpires(items: seq<string>, index: nat, outcome: nat -> Outcome)
    requires index < |items|
    ensures var stop := BatchStop(items, index, outcome);
            var rows := OfferRows(items, index, stop, outcome);
            (exists i :: 0 <= i < |rows| && rows[i].outcome.AuthRequired?) <==> outcome(stop - 1).AuthRequired?
  {
    var stop := BatchStop(items, index, outcome);
    var rows := OfferRows(items, index, stop, outcome);
    assert rows[|rows| - 1].outcome == outcome(stop - 1);
  }

  /**
   One batch: what the page did with it, and what the driver makes of its answer. `base` is the
   clicks made before this card.
   */
  method RunBatch(page: OfferPage, site: Site, pass: nat, rowsBefore: seq<Row>, processedBefore: set<string>,
                  offerRowsBefore: nat, remainingBefore: nat, ghost base: nat)
    returns (rows: seq<Row>, processed: set<string>, offerRows: nat, remaining: nat, end: End)
    requires page.hasQueue && page.index < |page.items| && remainingBefore == |page.items| - page.index
    requires base <= |page.clicked|
    modifies page
    ensures base <= |page.clicked| && page.clicked[..base] == old(page.clicked)[..base]
    ensures Card(rows, page.clicked[base..], processed, offerRows, end)
         == AfterBatch(site, pass, old(page.items), old(page.index),
                       Card(rowsBefore, old(page.clicked)[base..], processedBefore, offerRowsBefore, Open))
    ensures end.Open? ==>
              && page.items == old(page.items)
              && page.index == BatchStop(old(page.items), old(page.index), OutcomesOf(site, pass))
              && remaining == |page.items| - page.index && page.hasQueue == (remaining > 0)
    ensures remaining <= remainingBefore && (end.Open? ==> remaining < remainingBefore)
  {
    rows, processed, offerRows, remaining, end := rowsBefore, processedBefore, offerRowsBefore, remainingBefore, Open;
    ghost var at := page.index;
    OnlyLastRowExpires(page.items, at, OutcomesOf(site, pass));
    var delivery := site.delivery(pass, page.index);
    if delivery.QueueGone? {
      page.hasQueue := false;
    }
    var batch := page.AcceptBatch(OutcomesOf(site, pass));
    assert batch.Some? ==> page.clicked[base..] == old(page.clicked)[base..] + page.items[at..page.index];
    if batch.None? || delivery.Garbled? || batch.value.remaining >= remaining {
      rows, end := rows + [StatusRow(InvalidBatch)], Complete;
      return;
    }
    var stopForAuth;
    rows, processed, stopForAuth := TakeRows(batch.value.rows, rows, processed);
    offerRows := offerRows + |batch.value.rows|;
    remaining := batch.value.remaining;
    if stopForAuth {
      end := Expired;
    }
  }

  /** The page holds `items` from `index` on, and drops an exhausted queue. */
  ghost predicate QueueIsAt(page: OfferPage, items: seq<string>, index: int)
    reads page
  {
    page.items == items && page.index == index <= |items| && page.hasQueue == (index < |items|)
  }

  /** What the rest of a pass makes of a card, which is nothing once the card has ended. */
  ghost function DrainRest(site: Site, pass: nat, items: seq<string>, index: nat, c: Card): Card
    requires index <= |items|
  {
    if c.end.Open? then Drain(site, pass, items, index, c) else c
  }

  /** One batch within its pass: it leaves the pass's outcome as it was. */
  method DrainOnce(page: OfferPage, site: Site, pass: nat, rowsBefore: seq<Row>, processedBefore: set<string>,
                   offerRowsBefore: nat, remainingBefore: nat, ghost base: nat, ghost items: seq<string>)
    returns (rows: seq<Row>, processed: set<string>, offerRows: nat, remaining: nat, end: End)
    requires 0 < remainingBefore <= |items| && QueueIsAt(page, items, |items| - remainingBefore)
    requires base <= |page.clicked|
    modifies page
    ensures remaining <= remainingBefore && (end.Open? ==> remaining < remainingBefore)
    ensures end.Open? ==> QueueIsAt(page, items, |items| - remaining)
    ensures base <= |page.clicked| && page.clicked[..base] == old(page.clicked)[..base]
    ensures DrainRest(site, pass, items, |items| - remaining,
                      Card(rows, page.clicked[base..], processed, offerRows, end))
         == DrainRest(site, pass, items, |items| - remainingBefore,
                      Card(rowsBefore, old(page.clicked)[base..], processedBefore, offerRowsBefore, Open))
  {
    DrainUnfolds(site, pass, items, page.index,
                 Card(rowsBefore, page.clicked[base..], processedBefore, offerRowsBefore, Open));
    rows, processed, offerRows, remaining, end :=
      RunBatch(page, site, pass, rowsBefore, processedBefore, offerRowsBefore, remainingBefore, base);
  }

  /** One pass's loop over batches. */
  method DrainQueue(page: OfferPage, site: Site, pass: nat, rowsBefore: seq<Row>, processedBefore: set<string>,
                    offerRowsBefore: nat, ghost base: nat)
    returns (rows: seq<Row>, processed: set<string>, offerRows: nat, end: End)
    requires page.hasQueue && page.index == 0 && page.items != [] && base <= |page.clicked|
    modifies page
    ensures base <= |page.clicked| && page.clicked[..base] == old(page.clicked)[..base]
    ensures Card(rows, page.clicked[base..], processed, offerRows, end)
         == Drain(site, pass, old(page.items), 0,
                  Card(rowsBefore, old(page.clicked)[base..], processedBefore, offerRowsBefore, Open))
  {
    rows, processed, offerRows, end := rowsBefore, processedBefore, offerRowsBefore, Open;
    ghost var items := page.items;
    ghost var whole := DrainRest(site, pass, items, 0, Card(rows, page.clicked[base..], processed, offerRows, end));
    var remaining: nat := |page.items|;
    while remaining > 0 && end.Open?
      invariant remaining <= |items|
      invariant end.Open? ==> QueueIsAt(page, items, |items| - remaining)
      invariant base <= |page.clicked| && page.clicked[..base] == old(page.clicked)[..base]
      invariant whole == DrainRest(site, pass, items, |items| - remaining,
                                   Card(rows, page.clicked[base..], processed, offerRows, end))
      decreases remaining, end.Open?
    {
      rows, processed, offerRows, remaining, end :=
        DrainOnce(page, site, pass, rows, processed, offerRows, remaining, base, items);
    }
  }

  /** One pass: load the card, queue what is not yet processed, and drain the queue. */
  method RunPass(page: OfferPage, site: Site, pass: nat, rowsBefore: seq<Row>, processedBefore: set<string>,
                 offerRowsBefore: nat, ghost base: nat)
    returns (rows: seq<Row>, processed: set<string>, offerRows: nat, end: End)
    requires base <= |page.clicked|
    modifies page
    ensures base <= |page.clicked| && page.clicked[..base] == old(page.clicked)[..base]
    ensures Card(rows, page.clicked[base..], processed, offerRows, end)
         == AfterPass(site, pass, Card(rowsBefore, old(page.clicked)[base..], processedBefore, offerRowsBefore, Open))
  {
    rows, processed, offerRows, end := rowsBefore, processedBefore, offerRowsBefore, Open;
    var readiness, tiles := site.readiness(pass), site.tiles(pass);
    if readiness.SignedOut? {
      end := Refused;
    } else if readiness.NotLoaded? {
      rows, end := rows + [StatusRow(LoadFailed)], Complete;
    } else if tiles.None? {
      rows, end := rows + [StatusRow(InvalidQueue)], Complete;
    } else {
      var discovered := page.Prepare(tiles.value, processed);
      if discovered == 0 {
        if offerRows == 0 {
          rows := rows + [StatusRow(NoNewOffers)];
        }
        end := Complete;
      } else {
        rows, processed, offerRows, end := DrainQueue(page, site, pass, rows, processed, offerRows, base);
      }
    }
  }

  /** One card's loop over passes. */
  method ProcessCard(page: OfferPage, site: Site) returns (rows: seq<Row>, end: End)
    modifies page
    ensures old(page.clicked) <= page.clicked
    ensures rows == CardOf(site).rows && end == CardOf(site).end
    ensures page.clicked == old(page.clicked) + CardOf(site).clicks
  {
    rows, end := [], Open;
    var processed: set<string> := {};
    var offerRows: nat := 0;
    ghost var base := |page.clicked|;
    assert page.clicked[base..] == [];
    var pass := 1;
    while pass <= MAX_ACCOUNT_PASSES && end.Open?
      invariant 1 <= pass <= MAX_ACCOUNT_PASSES + 1
      invariant base <= |page.clicked| && page.clicked[..base] == old(page.clicked)
      invariant CardOf(site) == (var now := Card(rows, page.clicked[base..], processed, offerRows, end);
                                 if end.Open? then Passes(site, pass, now) else now)
      decreases MAX_ACCOUNT_PASSES - pass, end.Open?
    {
      rows, processed, offerRows, end := RunPass(page, site, pass, rows, processed, offerRows, base);
      if end.Open? {
        pass := pass + 1;
      }
    }
    if end.Open? {
      rows, end := rows + [StatusRow(TooManyPasses)], Complete;
    }
  }
}
