/** The command over every card: what it answers, what it clicks, and when it tells of every click. */
module OfferRuns {
  import opened Wrappers
  import opened Sequences
  import opened ChaseOffers
  import opened OfferAccounts

  // ---------------------------------------------------------------------
  // The driver
  // ---------------------------------------------------------------------

  /** The rows of every card in turn, or None where the command throws for want of a signed-in session. */
  function AllCards(sites: seq<Site>): Option<seq<seq<Row>>> {
    if sites == [] then Some([])
    else
      var before :- AllCards(sites[..|sites| - 1]);
      var card := CardOf(sites[|sites| - 1]);
      if card.end.Complete? then Some(before + [card.rows]) else None
  }

  /** The clicks of every card the command gets to: it stops at the first that does not close. */
  function RunClicks(sites: seq<Site>): seq<string> {
    if sites == [] then []
    else
      var before := sites[..|sites| - 1];
      RunClicks(before) + (if AllCards(before).Some? then CardOf(sites[|sites| - 1]).clicks else [])
  }

  /** One more card after cards that all closed. */
  lemma OneMoreCard(sites: seq<Site>, i: nat)
    requires i < |sites| && AllCards(sites[..i]).Some?
    ensures RunClicks(sites[..i + 1]) == RunClicks(sites[..i]) + CardOf(sites[i]).clicks
    ensures AllCards(sites[..i + 1])
         == if CardOf(sites[i]).end.Complete? then Some(AllCards(sites[..i]).value + [CardOf(sites[i]).rows]) else None
  {
    assert sites[..i + 1][..i] == sites[..i];
  }

  /** What the card visited next makes of the rows and of the clicks, which are `base` and the run's so far. */
  lemma CardTaken(sites: seq<Site>, i: nat, cards: seq<seq<Row>>, base: seq<string>, card: Card)
    requires i < |sites| && card == CardOf(sites[i]) && AllCards(sites[..i]) == Some(cards)
    ensures card.end.Complete? || card.end.Expired? || card.end.Refused?
    ensures AllCards(sites[..i + 1]) == if card.end.Complete? then Some(cards + [card.rows]) else None
    ensures base + RunClicks(sites[..i]) + card.clicks == base + RunClicks(sites[..i + 1])
  {
    OneMoreCard(sites, i);
    CardHasEnded(sites[i]);
    assert base + RunClicks(sites[..i]) + card.clicks == base + (RunClicks(sites[..i]) + card.clicks);
  }

  method AcceptOffers(page: OfferPage, sites: seq<Site>) returns (rows: Option<seq<seq<Row>>>)
    modifies page
    ensures rows == AllCards(sites)
    ensures page.clicked == old(page.clicked) + RunClicks(sites)
  {
    var cards: seq<seq<Row>> := [];
    assert sites[..0] == [] && page.clicked + [] == page.clicked;
    for i := 0 to |sites|
      invariant AllCards(sites[..i]) == Some(cards)
      invariant page.clicked == old(page.clicked) + RunClicks(sites[..i])
    {
      CardTaken(sites, i, cards, old(page.clicked), CardOf(sites[i]));
      var cardRows, end := ProcessCard(page, sites[i]);
      if end.Refused? || end.Expired? {
        StopsForGood(sites, i + 1);
        return None;
      }
      cards := cards + [cardRows];
    }
    assert sites[..|sites|] == sites;
    rows := Some(cards);
  }

  lemma {:induction false} StopsForGood(sites: seq<Site>, n: nat)
    requires n <= |sites| && AllCards(sites[..n]).None?
    ensures AllCards(sites).None? && RunClicks(sites) == RunClicks(sites[..n])
    decreases |sites| - n
  {
    if n < |sites| {
      assert sites[..n + 1][..n] == sites[..n];
      StopsForGood(sites, n + 1);
    } else {
      assert sites[..n] == sites;
    }
  }

  // ---------------------------------------------------------------------
  // What the command reports of its clicks
  // ---------------------------------------------------------------------

  /** The offers the command's answer tells of, in order: none where it throws. */
  function Reported(sites: seq<Site>): seq<string> {
    if AllCards(sites).None? then [] else OfferIds(Concat(AllCards(sites).value))
  }

  /** No card finds the session gone, or loses it. */
  predicate SessionLasts(sites: seq<Site>) {
    sites == [] || (SessionLasts(sites[..|sites| - 1]) && !CardFateOf(sites[|sites| - 1]).SessionGone?)
  }

  /** No card closes with a click that has no row. */
  predicate NoneFallsShort(sites: seq<Site>) {
    sites == [] || (NoneFallsShort(sites[..|sites| - 1]) && !CardFateOf(sites[|sites| - 1]).ClosesShort?)
  }

  lemma {:induction false} SessionLastsIff(sites: seq<Site>)
    ensures SessionLasts(sites) <==> forall i :: 0 <= i < |sites| ==> !CardFateOf(sites[i]).SessionGone?
  {
    if sites != [] {
      SessionLastsIff(sites[..|sites| - 1]);
    }
  }

  lemma {:induction false} NoneFallsShortIff(sites: seq<Site>)
    ensures NoneFallsShort(sites) <==> forall i :: 0 <= i < |sites| ==> !CardFateOf(sites[i]).ClosesShort?
  {
    if sites != [] {
      NoneFallsShortIff(sites[..|sites| - 1]);
    }
  }

  /** The command gets to card `i`: the session has lasted over those before. */
  ghost predicate Visited(sites: seq<Site>, i: nat) {
    i < |sites| && SessionLasts(sites[..i])
  }

  lemma {:induction false} AnswersIff(sites: seq<Site>)
    ensures AllCards(sites).Some? <==> SessionLasts(sites)
  {
    if sites != [] {
      AnswersIff(sites[..|sites| - 1]);
      CardEndsAsItsFate(sites[|sites| - 1]);
    }
  }

  lemma ReportedOneMore(sites: seq<Site>, i: nat)
    requires i < |sites| && AllCards(sites[..i + 1]).Some?
    ensures AllCards(sites[..i]).Some?
    ensures Reported(sites[..i + 1]) == Reported(sites[..i]) + OfferIds(CardOf(sites[i]).rows)
  {
    assert sites[..i + 1][..i] == sites[..i];
    var before, rows := AllCards(sites[..i]).value, CardOf(sites[i]).rows;
    assert (before + [rows])[..|before|] == before;
    OfferIdsJoin(Concat(before), rows);
  }

  /** What one more card adds to what is reported and to what is clicked. */
  lemma CardAdds(sites: seq<Site>, i: nat) returns (ids: seq<string>, clicks: seq<string>)
    requires i < |sites| && AllCards(sites[..i + 1]).Some?
    ensures AllCards(sites[..i]).Some?
    ensures Reported(sites[..i + 1]) == Reported(sites[..i]) + ids
    ensures RunClicks(sites[..i + 1]) == RunClicks(sites[..i]) + clicks
    ensures |ids| <= |clicks|
    ensures NoneFallsShort(sites[..i + 1]) <==> NoneFallsShort(sites[..i]) && ids == clicks
  {
    assert sites[..i + 1][..i] == sites[..i];
    ReportedOneMore(sites, i);
    OneMoreCard(sites, i);
    CardIsSettled(sites[i]);
    CardEndsAsItsFate(sites[i]);
    ids, clicks := OfferIds(CardOf(sites[i]).rows), CardOf(sites[i]).clicks;
  }

  /** While the session lasts, what is reported and what is clicked, card by card. */
  lemma {:induction false} CardByCard(sites: seq<Site>, n: nat) returns (ids: seq<seq<string>>,
                                      clicks: seq<seq<string>>)
    requires n <= |sites| && AllCards(sites[..n]).Some?
    ensures |ids| == |clicks| == n
    ensures Reported(sites[..n]) == Concat(ids) && RunClicks(sites[..n]) == Concat(clicks)
    ensures forall i :: 0 <= i < n ==> |ids[i]| <= |clicks[i]|
    ensures ids == clicks <==> NoneFallsShort(sites[..n])
  {
    if n == 0 {
      ids, clicks := [], [];
    } else {
      var lastIds, lastClicks := CardAdds(sites, n - 1);
      var beforeIds, beforeClicks := CardByCard(sites, n - 1);
      ids, clicks := beforeIds + [lastIds], beforeClicks + [lastClicks];
      assert ids[..n - 1] == beforeIds && clicks[..n - 1] == beforeClicks;
    }
  }

  /** The card shows nothing to click on its first pass, or the page has lost its queue by the first batch. */
  predicate ClicksNothing(site: Site) {
    || !site.readiness(1).Ready? || site.tiles(1).None?
    || QueueOf(site.tiles(1).value, {}) == [] || site.delivery(1, 0).QueueGone?
  }

  /** Clicks are never taken back. */
  lemma {:induction false} DrainClicks(site: Site, pass: nat, items: seq<string>, index: nat, c: Card)
    requires index <= |items|
    ensures |c.clicks| <= |Drain(site, pass, items, index, c).clicks|
    decreases |items| - index
  {
    if index < |items| {
      DrainUnfolds(site, pass, items, index, c);
      var next := AfterBatch(site, pass, items, index, c);
      if next.end.Open? {
        DrainClicks(site, pass, items, BatchStop(items, index, OutcomesOf(site, pass)), next);
      }
    }
  }

  lemma {:induction false} PassesClick(site: Site, pass: nat, c: Card)
    ensures |c.clicks| <= |Passes(site, pass, c).clicks|
    decreases MAX_ACCOUNT_PASSES + 1 - pass
  {
    if pass <= MAX_ACCOUNT_PASSES {
      if site.readiness(pass).Ready? && site.tiles(pass).Some? {
        DrainClicks(site, pass, QueueOf(site.tiles(pass).value, c.processed), 0, c);
      }
      if AfterPass(site, pass, c).end.Open? {
        PassesClick(site, pass + 1, AfterPass(site, pass, c));
      }
    }
  }

  lemma FirstBatchClicks(site: Site, items: seq<string>)
    requires items != []
    ensures Drain(site, 1, items, 0, FRESH).clicks == [] <==> site.delivery(1, 0).QueueGone?
  {
    DrainUnfolds(site, 1, items, 0, FRESH);
    var next := AfterBatch(site, 1, items, 0, FRESH);
    assert !site.delivery(1, 0).QueueGone? ==> |next.clicks| > 0;
    if next.end.Open? {
      DrainClicks(site, 1, items, BatchStop(items, 0, OutcomesOf(site, 1)), next);
    }
  }

  lemma ClicksNothingIff(site: Site)
    ensures CardOf(site).clicks == [] <==> ClicksNothing(site)
  {
    var next := AfterPass(site, 1, FRESH);
    if site.readiness(1).Ready? && site.tiles(1).Some? && QueueOf(site.tiles(1).value, {}) != [] {
      FirstBatchClicks(site, QueueOf(site.tiles(1).value, {}));
    }
    if next.end.Open? {
      PassesClick(site, 2, next);
    }
  }

  lemma {:induction false} RunClicksNothingIff(sites: seq<Site>, n: nat)
    requires n <= |sites|
    ensures RunClicks(sites[..n]) == [] <==>
            forall i: nat :: i < n && Visited(sites, i) ==> ClicksNothing(sites[i])
  {
    if n > 0 {
      RunClicksNothingIff(sites, n - 1);
      ClicksNothingIff(sites[n - 1]);
      AnswersIff(sites[..n - 1]);
      assert sites[..n][..n - 1] == sites[..n - 1];
    }
  }

  /**
   The command's answer tells of exactly the offers it clicked, in order, if and only if the session
   lasts and no card falls short, or the session is lost with nothing clicked on the cards it got to.
   */
  lemma EveryClickIsReportedIff(sites: seq<Site>)
    ensures Reported(sites) == RunClicks(sites) <==>
            if SessionLasts(sites) then NoneFallsShort(sites)
            else forall i: nat :: Visited(sites, i) ==> ClicksNothing(sites[i])
  {
    assert sites[..|sites|] == sites;
    AnswersIff(sites);
    if AllCards(sites).Some? {
      var ids, clicks := CardByCard(sites, |sites|);
      ConcatsAgree(ids, clicks);
    } else {
      RunClicksNothingIff(sites, |sites|);
    }
  }

  /** The command answers, and tells of every click, if and only if every card closes with a row for each of its own. */
  lemma AnswersInFullIff(sites: seq<Site>)
    ensures AllCards(sites).Some? && Reported(sites) == RunClicks(sites) <==>
            SessionLasts(sites) && NoneFallsShort(sites)
  {
    AnswersIff(sites);
    EveryClickIsReportedIff(sites);
  }

  /** A card with one offer, over which the session expires. */
  const EXPIRING := Site(_ => Ready, _ => Some([Tile("a", true)]), (_, _) => AuthRequired, (_, _) => Delivered)

  lemma ExpiringCard()
    ensures CardOf(EXPIRING).clicks == ["a"] && CardOf(EXPIRING).end == Expired
  {
    assert QueueOf([Tile("a", true)], {}) == ["a"] by {
      assert [Tile("a", true)][1..] == [];
    }
    assert ["a"][0..1] == ["a"] && [] + ["a"] == ["a"];
    DrainUnfolds(EXPIRING, 1, ["a"], 0, FRESH);
    assert AfterPass(EXPIRING, 1, FRESH) == Drain(EXPIRING, 1, ["a"], 0, FRESH);
  }

  /** When the session expires after a click the command throws, and the rows of earlier cards go with its own. */
  lemma ExpiryDropsRows(before: seq<Site>)
    requires AllCards(before).Some?
    ensures AllCards(before + [EXPIRING]).None? && Reported(before + [EXPIRING]) == []
    ensures RunClicks(before + [EXPIRING]) == RunClicks(before) + ["a"]
  {
    var sites := before + [EXPIRING];
    assert sites[..|before|] == before && sites[..|before| + 1] == sites;
    OneMoreCard(sites, |before|);
    ExpiringCard();
  }

  /** A run that does not throw answers for every card with at least one row. */
  lemma {:induction false} EveryCardAnswers(sites: seq<Site>)
    requires AllCards(sites).Some?
    ensures |AllCards(sites).value| == |sites|
    ensures forall i :: 0 <= i < |sites| ==>
              AllCards(sites).value[i] == CardOf(sites[i]).rows && CardOf(sites[i]).rows != []
  {
    if sites != [] {
      EveryCardAnswers(sites[..|sites| - 1]);
      CardIsSettled(sites[|sites| - 1]);
    }
  }
}
