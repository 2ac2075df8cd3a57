/** What one card's passes and batches keep, and when each of its clicks has a row. */
module OfferAccounts {
  import opened Wrappers
  import opened Sequences
  import opened ChaseOffers

  // ---------------------------------------------------------------------
  // What one card keeps
  // ---------------------------------------------------------------------

  lemma {:induction false} QueueFromIsDistinct(tiles: seq<Tile>, seen: set<string>, excluded: set<string>)
    ensures Distinct(QueueFrom(tiles, seen, excluded))
    ensures forall id :: id in QueueFrom(tiles, seen, excluded) ==> id !in seen && id !in excluded && id != ""
  {
    if tiles != [] {
      QueueFromIsDistinct(tiles[1..], seen, excluded);
      QueueFromIsDistinct(tiles[1..], seen + {tiles[0].offerId}, excluded);
    }
  }

  /** The first tile that shows an id. */
  function FirstTileOf(tiles: seq<Tile>, id: string): Option<Tile> {
    if tiles == [] then None
    else if tiles[0].offerId == id then Some(tiles[0])
    else FirstTileOf(tiles[1..], id)
  }

  lemma {:induction false} QueueFromHolds(tiles: seq<Tile>, seen: set<string>, excluded: set<string>, id: string)
    ensures id in QueueFrom(tiles, seen, excluded) <==>
            && id != "" && id !in seen && id !in excluded
            && FirstTileOf(tiles, id).Some? && FirstTileOf(tiles, id).value.activatable
  {
    if tiles != [] {
      QueueFromHolds(tiles[1..], seen, excluded, id);
      QueueFromHolds(tiles[1..], seen + {tiles[0].offerId}, excluded, id);
    }
  }

  /** A queue holds, once each, exactly the offers not yet processed whose first tile can be activated. */
  lemma QueueHolds(tiles: seq<Tile>, excluded: set<string>, id: string)
    ensures Distinct(QueueOf(tiles, excluded))
    ensures id in QueueOf(tiles, excluded) <==>
            && id != "" && id !in excluded
            && FirstTileOf(tiles, id).Some? && FirstTileOf(tiles, id).value.activatable
  {
    QueueFromIsDistinct(tiles, {}, excluded);
    QueueFromHolds(tiles, {}, excluded, id);
  }

  /** Where an id first shows among the tiles, or past them all where it never does. */
  function FirstIndexOf(tiles: seq<Tile>, id: string): (k: nat)
    ensures k <= |tiles|
  {
    if tiles == [] || tiles[0].offerId == id then 0 else 1 + FirstIndexOf(tiles[1..], id)
  }

  lemma {:induction false} QueueFromIsInTileOrder(tiles: seq<Tile>, seen: set<string>, excluded: set<string>, i: nat,
                                                  j: nat)
    requires i < j < |QueueFrom(tiles, seen, excluded)|
    ensures var queue := QueueFrom(tiles, seen, excluded);
            FirstIndexOf(tiles, queue[i]) < FirstIndexOf(tiles, queue[j])
  {
    var queue, id := QueueFrom(tiles, seen, excluded), tiles[0].offerId;
    QueueFromIsDistinct(tiles, seen, excluded);
    assert queue[i] in queue && queue[j] in queue;
    if id == "" || id in seen || id in excluded {
      QueueFromIsInTileOrder(tiles[1..], seen, excluded, i, j);
    } else {
      var rest := QueueFrom(tiles[1..], seen + {id}, excluded);
      QueueFromIsDistinct(tiles[1..], seen + {id}, excluded);
      var skip := if tiles[0].activatable then 1 else 0;
      assert queue[j] == rest[j - skip] && queue[j] in rest;
      if i >= skip {
        assert queue[i] == rest[i - skip] && queue[i] in rest;
        QueueFromIsInTileOrder(tiles[1..], seen + {id}, excluded, i - skip, j - skip);
      }
    }
  }

  /** Offers are queued in the order their first tiles show. */
  lemma QueueIsInTileOrder(tiles: seq<Tile>, excluded: set<string>, i: nat, j: nat)
    requires i < j < |QueueOf(tiles, excluded)|
    ensures FirstIndexOf(tiles, QueueOf(tiles, excluded)[i]) < FirstIndexOf(tiles, QueueOf(tiles, excluded)[j])
  {
    QueueFromIsInTileOrder(tiles, {}, excluded, i, j);
  }

  /** The offers rows tell of, in order. */
  function OfferIds(rows: seq<Row>): seq<string> {
    if rows == [] then []
    else OfferIds(rows[..|rows| - 1]) + (if rows[|rows| - 1].OfferRow? then [rows[|rows| - 1].offerId] else [])
  }

  lemma {:induction false} OfferIdsJoin(a: seq<Row>, b: seq<Row>)
    ensures OfferIds(a + b) == OfferIds(a) + OfferIds(b)
  {
    if b == [] {
      assert a + b == a;
    } else {
      assert (a + b)[..|a + b| - 1] == a + b[..|b| - 1];
      OfferIdsJoin(a, b[..|b| - 1]);
    }
  }

  lemma IdsOfQueue(items: seq<string>, from: nat, to: nat, outcome: nat -> Outcome)
    requires from <= to <= |items|
    ensures Ids(OfferRows(items, from, to, outcome)) == set id | id in items[from..to]
  {
    var rows := OfferRows(items, from, to, outcome);
    forall id | id in items[from..to]
      ensures id in Ids(rows)
    {
      var i :| from <= i < to && items[i] == id;
      assert rows[i - from] in rows;
    }
  }

  lemma {:induction false} OfferIdsOfQueue(items: seq<string>, from: nat, to: nat, outcome: nat -> Outcome)
    requires from <= to <= |items|
    ensures OfferIds(OfferRows(items, from, to, outcome)) == items[from..to]
  {
    var rows := OfferRows(items, from, to, outcome);
    if from < to {
      OfferIdsOfQueue(items, from, to - 1, outcome);
      assert rows[..|rows| - 1] == OfferRows(items, from, to - 1, outcome);
      assert items[from..to] == items[from..to - 1] + [items[to - 1]];
    }
  }

  /** While a card is open every click has its row, in order, and no offer has been clicked twice. */
  ghost predicate Accounted(c: Card) {
    && Distinct(c.clicks)
    && c.processed == (set id | id in c.clicks)
    && OfferIds(c.rows) == c.clicks
    && c.offerRows == |c.clicks| == |c.rows|
  }

  /**
   Once it has ended: no offer clicked twice, rows for the clicks in their order, and a click
   without its row only among the last batch's, on a card closed over an unusable answer.
   */
  ghost predicate Settled(c: Card) {
    && Distinct(c.clicks)
    && OfferIds(c.rows) <= c.clicks
    && |c.clicks| <= |OfferIds(c.rows)| + 2
    && (c.end.Complete? ==> c.rows != [])
    && (OfferIds(c.rows) != c.clicks ==> c.end.Complete? && c.rows[|c.rows| - 1] == StatusRow(InvalidBatch))
  }

  /** What is left of a queue is still to be clicked. */
  ghost predicate Unclicked(c: Card, rest: seq<string>) {
    Distinct(rest) && forall id :: id in rest ==> id !in c.clicks
  }

  lemma StatusRowIsNoOffer(rows: seq<Row>, status: Status)
    ensures OfferIds(rows + [StatusRow(status)]) == OfferIds(rows)
  {
    assert (rows + [StatusRow(status)])[..|rows|] == rows;
  }

  lemma StatusSettles(c: Card, status: Status, extra: seq<string>)
    requires Accounted(c) && Unclicked(c, extra) && |extra| <= 2
    requires extra != [] ==> status.InvalidBatch?
    ensures Settled(WithStatus(c, status).(clicks := c.clicks + extra))
  {
    StatusRowIsNoOffer(c.rows, status);
    DistinctJoin(c.clicks, extra);
    assert extra == [] ==> c.clicks + extra == c.clicks;
  }

  /** Closing with a status row and no click outstanding. */
  lemma StatusCloses(c: Card, status: Status)
    requires Accounted(c)
    ensures Settled(WithStatus(c, status))
  {
    StatusSettles(c, status, []);
    assert c.clicks + [] == c.clicks;
  }

  lemma DeliveredAccounts(c: Card, items: seq<string>, from: nat, to: nat, outcome: nat -> Outcome, end: End)
    requires from <= to <= |items| && Accounted(c) && Unclicked(c, items[from..to])
    ensures var rows := OfferRows(items, from, to, outcome);
            Accounted(
              Card(c.rows + rows, c.clicks + items[from..to], c.processed + Ids(rows), c.offerRows + |rows|, end))
  {
    OfferIdsOfQueue(items, from, to, outcome);
    IdsOfQueue(items, from, to, outcome);
    OfferIdsJoin(c.rows, OfferRows(items, from, to, outcome));
    DistinctJoin(c.clicks, items[from..to]);
  }

  lemma QueueSplits(c: Card, items: seq<string>, from: nat, to: nat)
    requires from <= to <= |items| && Unclicked(c, items[from..])
    ensures Unclicked(c, items[from..to])
    ensures Distinct(items[to..]) && forall id :: id in items[to..] ==> id !in c.clicks && id !in items[from..to]
  {
    assert items[from..] == items[from..to] + items[to..];
    DistinctSplits(items[from..to], items[to..]);
  }

  lemma BatchAccounts(site: Site, pass: nat, items: seq<string>, index: nat, c: Card)
    requires index < |items| && Accounted(c) && c.end.Open? && Unclicked(c, items[index..])
    ensures var next := AfterBatch(site, pass, items, index, c);
            var stop := BatchStop(items, index, OutcomesOf(site, pass));
            if next.end.Open? then Accounted(next) && Unclicked(next, items[stop..]) else Settled(next)
  {
    var outcome := OutcomesOf(site, pass);
    var stop := BatchStop(items, index, outcome);
    QueueSplits(c, items, index, stop);
    match site.delivery(pass, index)
    case QueueGone => StatusCloses(c, InvalidBatch);
    case Garbled => StatusSettles(c, InvalidBatch, items[index..stop]);
    case Delivered =>
      DeliveredAccounts(c, items, index, stop, outcome, AfterBatch(site, pass, items, index, c).end);
  }

  lemma {:induction false} DrainAccounts(site: Site, pass: nat, items: seq<string>, index: nat, c: Card)
    requires index <= |items| && Accounted(c) && c.end.Open? && Unclicked(c, items[index..])
    ensures var next := Drain(site, pass, items, index, c);
            if next.end.Open? then Accounted(next) else Settled(next)
    decreases |items| - index
  {
    if index < |items| {
      BatchAccounts(site, pass, items, index, c);
      DrainUnfolds(site, pass, items, index, c);
      var next := AfterBatch(site, pass, items, index, c);
      var stop := BatchStop(items, index, OutcomesOf(site, pass));
      if next.end.Open? {
        DrainAccounts(site, pass, items, stop, next);
      }
    }
  }

  /** A card closed without a failure: its last row is an offer's, or says there was nothing new. */
  predicate ClosedWell(c: Card) {
    c.end.Complete? && c.rows != [] && (c.rows[|c.rows| - 1].OfferRow? || c.rows[|c.rows| - 1].status.NoNewOffers?)
  }

  /** Some pass looked at the card again and saw nothing left to click. */
  ghost predicate NothingLeft(site: Site, clicks: seq<string>) {
    exists pass :: 1 <= pass <= MAX_ACCOUNT_PASSES && site.readiness(pass).Ready? && site.tiles(pass).Some?
                   && QueueOf(site.tiles(pass).value, set id | id in clicks) == []
  }

  lemma {:induction false} PassesSettle(site: Site, pass: nat, c: Card)
    requires pass >= 1 && Accounted(c) && c.end.Open?
    ensures var next := Passes(site, pass, c);
            && !next.end.Open? && Settled(next)
            && (ClosedWell(next) ==> NothingLeft(site, next.clicks))
    decreases MAX_ACCOUNT_PASSES + 1 - pass
  {
    if pass > MAX_ACCOUNT_PASSES {
      StatusCloses(c, TooManyPasses);
    } else {
      LookAgain(site, pass, c);
      if AfterPass(site, pass, c).end.Open? {
        PassesSettle(site, pass + 1, AfterPass(site, pass, c));
      }
    }
  }

  /** A pass leaves the card accounted for, or ends it; as if it were done, only with nothing left to click. */
  lemma LookAgain(site: Site, pass: nat, c: Card)
    requires 1 <= pass <= MAX_ACCOUNT_PASSES && Accounted(c) && c.end.Open?
    ensures var next := AfterPass(site, pass, c);
            && (if next.end.Open? then Accounted(next) else Settled(next))
            && (ClosedWell(next) ==> NothingLeft(site, next.clicks))
  {
    if site.readiness(pass).NotLoaded? {
      StatusCloses(c, LoadFailed);
    } else if site.readiness(pass).Ready? {
      if site.tiles(pass).None? {
        StatusCloses(c, InvalidQueue);
      } else {
        DrainOrDone(site, pass, c, QueueOf(site.tiles(pass).value, c.processed));
      }
    }
  }

  lemma DrainOrDone(site: Site, pass: nat, c: Card, items: seq<string>)
    requires 1 <= pass <= MAX_ACCOUNT_PASSES && Accounted(c) && c.end.Open?
    requires site.readiness(pass).Ready? && site.tiles(pass).Some?
    requires items == QueueOf(site.tiles(pass).value, c.processed)
    ensures var next := AfterPass(site, pass, c);
            && (if next.end.Open? then Accounted(next) else Settled(next))
            && (ClosedWell(next) ==> NothingLeft(site, next.clicks))
  {
    if items == [] {
      StatusCloses(c, NoNewOffers);
      assert NothingLeft(site, c.clicks);
    } else {
      QueueFromIsDistinct(site.tiles(pass).value, {}, c.processed);
      assert items[0..] == items;
      DrainAccounts(site, pass, items, 0, c);
      DrainClosesBadly(site, pass, items, 0, c);
    }
  }

  /** A pass that closes the card does so over an unusable batch, never as if it were done. */
  lemma {:induction false} DrainClosesBadly(site: Site, pass: nat, items: seq<string>, index: nat, c: Card)
    requires index <= |items| && c.end.Open?
    ensures !ClosedWell(Drain(site, pass, items, index, c)) && !Drain(site, pass, items, index, c).end.Refused?
    decreases |items| - index
  {
    if index < |items| {
      DrainUnfolds(site, pass, items, index, c);
      var next := AfterBatch(site, pass, items, index, c);
      if next.end.Open? {
        DrainClosesBadly(site, pass, items, BatchStop(items, index, OutcomesOf(site, pass)), next);
      }
    }
  }

  /**
   On each card, over all passes and batches: no offer is clicked twice; rows tell of the clicks in
   order, one each, and a click goes without its row only when the answer that carried it was
   unusable; the card closes with at least one row unless the session is gone; and a card that
   closes without a failure row has been looked at again with nothing left to click.
   */
  lemma CardIsSettled(site: Site)
    ensures Settled(CardOf(site)) && !CardOf(site).end.Open?
    ensures ClosedWell(CardOf(site)) ==> NothingLeft(site, CardOf(site).clicks)
  {
    assert Accounted(FRESH) by {
      assert FRESH.processed == set id | id in FRESH.clicks;
    }
    PassesSettle(site, 1, FRESH);
  }

  lemma CardHasEnded(site: Site)
    ensures !CardOf(site).end.Open?
  {
    CardIsSettled(site);
  }

  // ---------------------------------------------------------------------
  // When every click has its row
  // ---------------------------------------------------------------------

  /**
   What becomes of a queue: clicked to its end, lost by the page, cut off by an unusable answer, or
   by an expired session.
   */
  datatype Fate = Emptied | Lost | Unusable | Expiry

  /** The fate of a pass's queue from `index` on, read off the site alone. */
  function FateOf(site: Site, pass: nat, items: seq<string>, index: nat): Fate
    requires index <= |items|
    decreases |items| - index
  {
    if index == |items| then Emptied
    else
      var stop := BatchStop(items, index, OutcomesOf(site, pass));
      match site.delivery(pass, index)
      case Garbled => Unusable
      case QueueGone => Lost
      case Delivered => if site.outcome(pass, stop - 1).AuthRequired? then Expiry else FateOf(site, pass, items, stop)
  }

  /** What becomes of a card: it closes with a row for every click, closes with some missing, or the session is gone. */
  datatype CardFate = Closes | ClosesShort | SessionGone

  /**
   The fate of a card from `pass` on, read off the site alone: every pass before shows offers and
   clicks them all, so it is those offers the next one leaves out.
   */
  function FateFrom(site: Site, pass: nat, processed: set<string>): CardFate
    decreases MAX_ACCOUNT_PASSES + 1 - pass
  {
    if pass > MAX_ACCOUNT_PASSES then Closes
    else if site.readiness(pass).SignedOut? then SessionGone
    else if site.readiness(pass).NotLoaded? || site.tiles(pass).None? then Closes
    else
      var items := QueueOf(site.tiles(pass).value, processed);
      match FateOf(site, pass, items, 0)
      case Unusable => ClosesShort
      case Expiry => SessionGone
      case Lost => Closes
      case Emptied => if items == [] then Closes else FateFrom(site, pass + 1, processed + set id | id in items)
  }

  function CardFateOf(site: Site): CardFate {
    FateFrom(site, 1, {})
  }

  /** Every click made so far has its row. */
  ghost predicate EveryClickHasRow(c: Card) {
    OfferIds(c.rows) == c.clicks
  }

  lemma BatchRows(site: Site, pass: nat, items: seq<string>, index: nat, c: Card)
    requires index < |items| && EveryClickHasRow(c)
    ensures var next := AfterBatch(site, pass, items, index, c);
            var stop := BatchStop(items, index, OutcomesOf(site, pass));
            && (EveryClickHasRow(next) <==> !site.delivery(pass, index).Garbled?)
            && (site.delivery(pass, index).Delivered? ==>
                  next.processed == c.processed + set id | id in items[index..stop])
  {
    var stop := BatchStop(items, index, OutcomesOf(site, pass));
    var rows := OfferRows(items, index, stop, OutcomesOf(site, pass));
    StatusRowIsNoOffer(c.rows, InvalidBatch);
    OfferIdsOfQueue(items, index, stop, OutcomesOf(site, pass));
    IdsOfQueue(items, index, stop, OutcomesOf(site, pass));
    OfferIdsJoin(c.rows, rows);
    assert |c.clicks + items[index..stop]| > |c.clicks|;
  }

  lemma {:induction false} DrainRows(site: Site, pass: nat, items: seq<string>, index: nat, c: Card)
    requires index <= |items| && EveryClickHasRow(c) && c.end.Open?
    ensures var next := Drain(site, pass, items, index, c);
            var fate := FateOf(site, pass, items, index);
            && (EveryClickHasRow(next) <==> !fate.Unusable?)
            && next.end == (match fate case Emptied => Open case Expiry => Expired case _ => Complete)
            && (fate.Emptied? ==> next.processed == c.processed + set id | id in items[index..])
    decreases |items| - index
  {
    if index == |items| {
      assert items[index..] == [];
    } else {
      var stop := BatchStop(items, index, OutcomesOf(site, pass));
      var next := AfterBatch(site, pass, items, index, c);
      BatchRows(site, pass, items, index, c);
      DrainUnfolds(site, pass, items, index, c);
      if next.end.Open? {
        DrainRows(site, pass, items, stop, next);
        assert items[index..] == items[index..stop] + items[stop..];
      }
    }
  }

  /** How an ended card is told by its fate. */
  ghost predicate EndsAs(c: Card, fate: CardFate) {
    && (EveryClickHasRow(c) <==> !fate.ClosesShort?)
    && (c.end.Complete? <==> !fate.SessionGone?)
  }

  lemma PassRows(site: Site, pass: nat, c: Card)
    requires pass <= MAX_ACCOUNT_PASSES && EveryClickHasRow(c) && c.end.Open?
    ensures var next, fate := AfterPass(site, pass, c), FateFrom(site, pass, c.processed);
            if next.end.Open? then EveryClickHasRow(next) && fate == FateFrom(site, pass + 1, next.processed)
            else EndsAs(next, fate)
  {
    StatusRowIsNoOffer(c.rows, LoadFailed);
    StatusRowIsNoOffer(c.rows, InvalidQueue);
    StatusRowIsNoOffer(c.rows, NoNewOffers);
    if site.readiness(pass).Ready? && site.tiles(pass).Some? {
      var items := QueueOf(site.tiles(pass).value, c.processed);
      DrainRows(site, pass, items, 0, c);
      assert items[0..] == items;
    }
  }

  lemma {:induction false} PassesRows(site: Site, pass: nat, c: Card)
    requires EveryClickHasRow(c) && c.end.Open?
    ensures EndsAs(Passes(site, pass, c), FateFrom(site, pass, c.processed))
    decreases MAX_ACCOUNT_PASSES + 1 - pass
  {
    if pass > MAX_ACCOUNT_PASSES {
      StatusRowIsNoOffer(c.rows, TooManyPasses);
    } else {
      PassRows(site, pass, c);
      if AfterPass(site, pass, c).end.Open? {
        PassesRows(site, pass + 1, AfterPass(site, pass, c));
      }
    }
  }

  /**
   On one card every click has exactly one row, in order, if and only if no batch the driver sends
   is answered unusably; and the card closes if and only if the session lasts.
   */
  lemma CardEndsAsItsFate(site: Site)
    ensures OfferIds(CardOf(site).rows) == CardOf(site).clicks <==> !CardFateOf(site).ClosesShort?
    ensures CardOf(site).end.Complete? <==> !CardFateOf(site).SessionGone?
  {
    PassesRows(site, 1, FRESH);
  }

  // ---------------------------------------------------------------------
  // What else a card's rows say
  // ---------------------------------------------------------------------

  /**
   What a card says of itself from `pass` on, read off the site alone: that it did not load, gave no
   usable queue, had a batch fail, still showed offers after twenty passes, or had none to begin with;
   and nothing where its offers were all taken or the session is gone.
   */
  function StatusFrom(site: Site, pass: nat, processed: set<string>): Option<Status>
    decreases MAX_ACCOUNT_PASSES + 1 - pass
  {
    if pass > 20 then Some(TooManyPasses)
    else if site.readiness(pass).SignedOut? then None
    else if site.readiness(pass).NotLoaded? then Some(LoadFailed)
    else if site.tiles(pass).None? then Some(InvalidQueue)
    else
      var items := QueueOf(site.tiles(pass).value, processed);
      match FateOf(site, pass, items, 0)
      case Unusable => Some(InvalidBatch)
      case Lost => Some(InvalidBatch)
      case Expiry => None
      case Emptied =>
        if items != [] then StatusFrom(site, pass + 1, processed + set id | id in items)
        else if pass == 1 then Some(NoNewOffers)
        else None
  }

  /** Rows of offers alone, but for the status, if any, which comes last. */
  ghost predicate SaysLast(rows: seq<Row>, status: Option<Status>) {
    if status.None? then forall i :: 0 <= i < |rows| ==> rows[i].OfferRow?
    else
      && rows != [] && rows[|rows| - 1] == StatusRow(status.value)
      && forall i :: 0 <= i < |rows| - 1 ==> rows[i].OfferRow?
  }

  /** While a card is open its rows are all of offers, as many as it counts. */
  ghost predicate OnlyOffers(c: Card) {
    SaysLast(c.rows, None) && c.offerRows == |c.rows| && c.end.Open?
  }

  lemma BatchSays(site: Site, pass: nat, items: seq<string>, index: nat, c: Card)
    requires index < |items| && OnlyOffers(c)
    ensures var next := AfterBatch(site, pass, items, index, c);
            match site.delivery(pass, index)
            case Delivered => SaysLast(next.rows, None) && next.offerRows == |next.rows| > |c.rows|
            case _ => SaysLast(next.rows, Some(InvalidBatch))
  {
  }

  lemma {:induction false} DrainSays(site: Site, pass: nat, items: seq<string>, index: nat, c: Card)
    requires index <= |items| && OnlyOffers(c)
    ensures var next := Drain(site, pass, items, index, c);
            match FateOf(site, pass, items, index)
            case Emptied => OnlyOffers(next) && (index < |items| ==> |next.rows| > |c.rows|) && |next.rows| >= |c.rows|
            case Expiry => SaysLast(next.rows, None)
            case _ => SaysLast(next.rows, Some(InvalidBatch))
    decreases |items| - index
  {
    if index < |items| {
      DrainUnfolds(site, pass, items, index, c);
      BatchSays(site, pass, items, index, c);
      var next := AfterBatch(site, pass, items, index, c);
      if next.end.Open? {
        DrainSays(site, pass, items, BatchStop(items, index, OutcomesOf(site, pass)), next);
      }
    }
  }

  lemma PassSays(site: Site, pass: nat, c: Card)
    requires 1 <= pass <= MAX_ACCOUNT_PASSES && OnlyOffers(c) && EveryClickHasRow(c) && (pass == 1 <==> c.rows == [])
    ensures var next, status := AfterPass(site, pass, c), StatusFrom(site, pass, c.processed);
            if next.end.Open?
            then OnlyOffers(next) && next.rows != [] && status == StatusFrom(site, pass + 1, next.processed)
            else SaysLast(next.rows, status)
  {
    if site.readiness(pass).Ready? && site.tiles(pass).Some? {
      var items := QueueOf(site.tiles(pass).value, c.processed);
      DrainSays(site, pass, items, 0, c);
      DrainRows(site, pass, items, 0, c);
      assert items[0..] == items;
    }
  }

  lemma {:induction false} PassesSay(site: Site, pass: nat, c: Card)
    requires pass >= 1 && OnlyOffers(c) && EveryClickHasRow(c) && (pass == 1 <==> c.rows == [])
    ensures SaysLast(Passes(site, pass, c).rows, StatusFrom(site, pass, c.processed))
    decreases MAX_ACCOUNT_PASSES + 1 - pass
  {
    if pass <= MAX_ACCOUNT_PASSES {
      PassSays(site, pass, c);
      PassRows(site, pass, c);
      if AfterPass(site, pass, c).end.Open? {
        PassesSay(site, pass + 1, AfterPass(site, pass, c));
      }
    }
  }

  /** A card's rows are those of its offers, and after them at most one more, which says what became of the card. */
  lemma CardSaysItsStatus(site: Site)
    ensures SaysLast(CardOf(site).rows, StatusFrom(site, 1, {}))
  {
    PassesSay(site, 1, FRESH);
  }

  /** A card with one offer, whose one batch comes to `delivery`. */
  function OneOffer(delivery: Delivery): Site {
    Site(_ => Ready, _ => Some([Tile("a", true)]), (_, _) => Activated, (_, _) => delivery)
  }

  /** A click without its row, on a card whose rows are those of one where nothing was clicked. */
  lemma ClickWithoutRow()
    ensures CardOf(OneOffer(Garbled)).clicks == ["a"] && OfferIds(CardOf(OneOffer(Garbled)).rows) == []
    ensures CardOf(OneOffer(QueueGone)).clicks == []
    ensures CardOf(OneOffer(Garbled)).rows == CardOf(OneOffer(QueueGone)).rows == [StatusRow(InvalidBatch)]
  {
    OneBatch(Garbled);
    OneBatch(QueueGone);
    StatusRowIsNoOffer([], InvalidBatch);
    assert [] + [StatusRow(InvalidBatch)] == [StatusRow(InvalidBatch)];
  }

  lemma OneBatch(delivery: Delivery)
    requires !delivery.Delivered?
    ensures CardOf(OneOffer(delivery))
         == WithStatus(FRESH, InvalidBatch).(clicks := if delivery.Garbled? then ["a"] else [])
  {
    var site := OneOffer(delivery);
    assert QueueOf([Tile("a", true)], {}) == ["a"] by {
      assert [Tile("a", true)][1..] == [];
    }
    assert ["a"][0..1] == ["a"] && [] + ["a"] == ["a"];
    DrainUnfolds(site, 1, ["a"], 0, FRESH);
    assert AfterPass(site, 1, FRESH) == Drain(site, 1, ["a"], 0, FRESH);
  }
}
