/** Paging a directory that changes between requests: nothing is repeated, and nothing that stays is skipped. */
module DirectoryRuns {
  import opened Wrappers
  import opened AccountDirectory
  import opened DirectoryOrder
  import opened DirectoryPaging

  // ---------------------------------------------------------------------
  // Runs of requests
  // ---------------------------------------------------------------------

  /** One request: the directory as it is then, the cursor and page size asked for, and the page answered. */
  datatype Read = Read(directory: seq<DirectoryAccount>, cursor: Option<AccountCursor>, limit: Option<real>, page: Page)

  ghost predicate Answers(u: Unicode, scope: Scope, read: Read) {
    Slice(u, read.directory, Options(scope, read.cursor, read.limit)) == Ok(read.page)
  }

  /** The next request carries, parsed, the cursor the page before it handed over. */
  ghost predicate Resumes(read: Read, next: Read) {
    read.page.nextCursor.Some? && next.cursor == ParseAccountCursor(read.page.nextCursor)
  }

  ghost predicate Chained(u: Unicode, scope: Scope, run: seq<Read>) {
    && (forall i :: 0 <= i < |run| ==> Answers(u, scope, run[i]))
    && (forall i :: 0 <= i < |run| - 1 ==> Resumes(run[i], run[i + 1]))
  }

  /**
   A client following `nextCursor` from the first page. The directory may change in any way
   between reads, and the page size may too.
   */
  ghost predicate IsRun(u: Unicode, scope: Scope, run: seq<Read>) {
    run != [] && run[0].cursor.None? && Chained(u, scope, run)
  }

  /** No snapshot lists an account twice among those the query and the channel admit. */
  ghost predicate ListsOnce(u: Unicode, scope: Scope, run: seq<Read>) {
    forall i :: 0 <= i < |run| ==> DistinctAccounts(Matching(u, run[i].directory, scope))
  }

  ghost predicate HasEnded(run: seq<Read>) {
    run != [] && run[|run| - 1].page.nextCursor.None?
  }

  // ---------------------------------------------------------------------
  // Legs: what a read means once its cursors are decoded
  // ---------------------------------------------------------------------

  /** A read as the order sees it: it starts past `from`, answers `rows`, and leaves off at `to`. */
  datatype Leg = Leg(directory: seq<DirectoryAccount>, from: Option<AccountCursor>, rows: seq<DirectoryAccount>,
                     to: Option<AccountCursor>)

  ghost predicate IsPast(u: Unicode, cursor: Option<AccountCursor>, at: AccountCursor) {
    cursor.Some? ==> CompareAccountCursors(u, cursor.value, at) < 0
  }

  ghost predicate LegHolds(u: Unicode, scope: Scope, leg: Leg) {
    && StrictlySorted(u, leg.rows)
    && (forall a :: a in leg.rows ==> InScope(u, leg.directory, scope, a) && IsPast(u, leg.from, PositionOf(a)))
    && (leg.to.Some? ==> leg.rows != [] && leg.to.value == PositionOf(leg.rows[|leg.rows| - 1]))
    && (forall a :: InScope(u, leg.directory, scope, a) && IsPast(u, leg.from, PositionOf(a)) && a !in leg.rows ==>
          leg.to.Some? && IsPast(u, leg.to, PositionOf(a)))
  }

  /** A leg leaves off past where it starts. */
  ghost predicate LegMoves(u: Unicode, leg: Leg) {
    leg.to.Some? ==> IsPast(u, leg.from, leg.to.value)
  }

  /** Each leg starts where the one before left off. */
  ghost predicate LegsFollow(u: Unicode, legs: seq<Leg>) {
    && (forall i :: 0 <= i < |legs| ==> LegMoves(u, legs[i]))
    && (forall i :: 0 <= i < |legs| - 1 ==> legs[i].to.Some? && legs[i + 1].from == legs[i].to)
  }

  ghost predicate LegsJoin(u: Unicode, scope: Scope, legs: seq<Leg>) {
    LegsFollow(u, legs) && forall i :: 0 <= i < |legs| ==> LegHolds(u, scope, legs[i])
  }

  function LegOf(read: Read): Leg {
    Leg(read.directory, read.cursor, read.page.accounts, ParseAccountCursor(read.page.nextCursor))
  }

  function LegsOf(run: seq<Read>): (legs: seq<Leg>)
    ensures |legs| == |run|
    ensures forall i :: 0 <= i < |run| ==> legs[i] == LegOf(run[i])
  {
    seq(|run|, i requires 0 <= i < |run| => LegOf(run[i]))
  }

  lemma PastIsAfter(u: Unicode, cursor: Option<AccountCursor>, a: DirectoryAccount)
    ensures IsPast(u, cursor, PositionOf(a)) <==> IsAfter(u, cursor)(a)
  {
  }

  lemma LegOfRead(u: Unicode, scope: Scope, read: Read)
    requires Answers(u, scope, read) && DistinctAccounts(Matching(u, read.directory, scope))
    ensures LegHolds(u, scope, LegOf(read))
  {
    PageFacts(u, read.directory, Options(scope, read.cursor, read.limit), read.page);
    forall a: DirectoryAccount
      ensures IsPast(u, read.cursor, PositionOf(a)) <==> IsAfter(u, read.cursor)(a)
    {
      PastIsAfter(u, read.cursor, a);
    }
  }

  /** In any directory, a page's cursor parses to a position past the one the page was asked from. */
  lemma ReadMoves(u: Unicode, scope: Scope, read: Read)
    requires Answers(u, scope, read)
    ensures LegMoves(u, LegOf(read))
    ensures LegOf(read).to.Some? <==> read.page.nextCursor.Some?
  {
    var options := Options(scope, read.cursor, read.limit);
    var remaining := After(u, Listing(u, read.directory, scope), read.cursor);
    PageShape(u, read.directory, options);
    if read.page.nextCursor.Some? {
      var last := read.page.accounts[|read.page.accounts| - 1];
      AccountCursorRoundTrip(PositionOf(last));
      FilterMembers(Listing(u, read.directory, scope), IsAfter(u, read.cursor));
      assert last == remaining[|read.page.accounts| - 1] && last in remaining;
      PastIsAfter(u, read.cursor, last);
    }
  }

  lemma LegsOfRun(u: Unicode, scope: Scope, run: seq<Read>)
    requires IsRun(u, scope, run)
    ensures LegsFollow(u, LegsOf(run))
    ensures LegsOf(run)[0].from.None?
    ensures HasEnded(run) ==> LegsOf(run)[|run| - 1].to.None?
  {
    forall i | 0 <= i < |run|
      ensures LegMoves(u, LegOf(run[i]))
      ensures LegOf(run[i]).to.Some? <==> run[i].page.nextCursor.Some?
    {
      ReadMoves(u, scope, run[i]);
    }
    forall i | 0 <= i < |run| - 1
      ensures LegOf(run[i]).to.Some? && run[i + 1].cursor == LegOf(run[i]).to
    {
      assert Resumes(run[i], run[i + 1]);
    }
  }

  lemma LegsOfDistinctRun(u: Unicode, scope: Scope, run: seq<Read>)
    requires IsRun(u, scope, run) && ListsOnce(u, scope, run)
    ensures LegsJoin(u, scope, LegsOf(run))
  {
    LegsOfRun(u, scope, run);
    forall i | 0 <= i < |run|
      ensures LegHolds(u, scope, LegOf(run[i]))
    {
      LegOfRead(u, scope, run[i]);
    }
  }

  // ---------------------------------------------------------------------
  // Order across legs
  // ---------------------------------------------------------------------

  lemma {:induction false} LegsAdvance(u: Unicode, legs: seq<Leg>, i: nat, j: nat)
    requires LegsFollow(u, legs) && i < j < |legs|
    requires legs[j].to.Some?
    ensures IsPast(u, legs[i].to, legs[j].to.value)
    decreases j - i
  {
    assert LegMoves(u, legs[j]);
    if i + 1 < j {
      LegsAdvance(u, legs, i, j - 1);
      CompareAccountCursorsIsTotalPreorder(u, legs[i].to.value, legs[j - 1].to.value, legs[j].to.value);
    }
  }

  lemma RowsUpToCursor(u: Unicode, scope: Scope, leg: Leg, r: nat)
    requires LegHolds(u, scope, leg) && r < |leg.rows| && leg.to.Some?
    ensures CompareAccountCursors(u, PositionOf(leg.rows[r]), leg.to.value) <= 0
  {
    var last := leg.to.value;
    CompareAccountCursorsIsTotalPreorder(u, last, last, last);
  }

  lemma LegRowsIncrease(u: Unicode, scope: Scope, legs: seq<Leg>, i: nat, r: nat, j: nat, s: nat)
    requires LegsJoin(u, scope, legs) && i < j < |legs| && r < |legs[i].rows| && s < |legs[j].rows|
    ensures CompareAccounts(u, legs[i].rows[r], legs[j].rows[s]) < 0
  {
    var a, b := PositionOf(legs[i].rows[r]), PositionOf(legs[j].rows[s]);
    RowsUpToCursor(u, scope, legs[i], r);
    assert legs[j].rows[s] in legs[j].rows;
    assert IsPast(u, legs[j - 1].to, b);
    if i < j - 1 {
      LegsAdvance(u, legs, i, j - 1);
      CompareAccountCursorsIsTotalPreorder(u, a, legs[i].to.value, legs[j - 1].to.value);
    }
    CompareAccountCursorsIsTotalPreorder(u, a, legs[j - 1].to.value, b);
  }

  // ---------------------------------------------------------------------
  // Places
  // ---------------------------------------------------------------------

  /** `place` is in scope in this snapshot: some account in scope sits exactly there. */
  ghost predicate HoldsPlace(u: Unicode, scope: Scope, directory: seq<DirectoryAccount>, place: AccountCursor) {
    exists a :: InScope(u, directory, scope, a) && CompareAccountCursors(u, PositionOf(a), place) == 0
  }

  ghost predicate IsAt(u: Unicode, rows: seq<DirectoryAccount>, place: AccountCursor, r: nat) {
    r < |rows| && CompareAccountCursors(u, PositionOf(rows[r]), place) == 0
  }

  /** Either this leg answers the place, or the place is past where it leaves off. */
  lemma AnsweredOrPast(u: Unicode, scope: Scope, leg: Leg, place: AccountCursor)
    requires LegHolds(u, scope, leg) && HoldsPlace(u, scope, leg.directory, place) && IsPast(u, leg.from, place)
    ensures (exists r :: IsAt(u, leg.rows, place, r)) || (leg.to.Some? && IsPast(u, leg.to, place))
  {
    var a :| InScope(u, leg.directory, scope, a) && CompareAccountCursors(u, PositionOf(a), place) == 0;
    CompareAccountCursorsIsTotalPreorder(u, place, PositionOf(a), place);
    if leg.from.Some? {
      CompareAccountCursorsIsTotalPreorder(u, leg.from.value, place, PositionOf(a));
    }
    if a in leg.rows {
      var r: nat :| r < |leg.rows| && leg.rows[r] == a;
      assert IsAt(u, leg.rows, place, r);
    } else {
      CompareAccountCursorsIsTotalPreorder(u, leg.to.value, PositionOf(a), place);
    }
  }

  lemma {:induction false} AnsweredFrom(u: Unicode, scope: Scope, legs: seq<Leg>, place: AccountCursor, i: nat)
    returns (k: nat, r: nat)
    requires LegsJoin(u, scope, legs) && i < |legs| && legs[|legs| - 1].to.None?
    requires forall j :: i <= j < |legs| ==> HoldsPlace(u, scope, legs[j].directory, place)
    requires IsPast(u, legs[i].from, place)
    ensures k < |legs| && IsAt(u, legs[k].rows, place, r)
    decreases |legs| - i
  {
    AnsweredOrPast(u, scope, legs[i], place);
    if r0: nat :| IsAt(u, legs[i].rows, place, r0) {
      k, r := i, r0;
    } else {
      k, r := AnsweredFrom(u, scope, legs, place, i + 1);
    }
  }

  lemma TiedRowsTie(u: Unicode, a: AccountCursor, b: AccountCursor, place: AccountCursor)
    requires CompareAccountCursors(u, a, place) == 0 && CompareAccountCursors(u, b, place) == 0
    ensures CompareAccountCursors(u, a, b) == 0
  {
    CompareAccountCursorsIsTotalPreorder(u, a, place, b);
    CompareAccountCursorsIsTotalPreorder(u, b, place, a);
    CompareAccountCursorsIsTotalPreorder(u, a, b, place);
  }

  // ---------------------------------------------------------------------
  // Runs
  // ---------------------------------------------------------------------

  /** Cursors strictly increase, so a run can never resume where it has been. */
  lemma CursorsIncrease(u: Unicode, scope: Scope, run: seq<Read>, i: nat, j: nat)
    requires IsRun(u, scope, run) && 1 <= i < j < |run|
    ensures run[i].cursor.Some? && run[j].cursor.Some?
    ensures CompareAccountCursors(u, run[i].cursor.value, run[j].cursor.value) < 0
  {
    LegsOfRun(u, scope, run);
    var legs := LegsOf(run);
    assert legs[i - 1].to == legs[i].from && legs[j - 1].to == legs[j].from;
    LegsAdvance(u, legs, i - 1, j - 1);
  }

  /** Row `r` of read `i` is at `place`. */
  ghost predicate RowIsAt(u: Unicode, run: seq<Read>, place: AccountCursor, i: nat, r: nat) {
    i < |run| && IsAt(u, run[i].page.accounts, place, r)
  }

  /** Rows come in strictly increasing order over the whole run, so no row is ever repeated. */
  lemma RowsStrictlyIncrease(u: Unicode, scope: Scope, run: seq<Read>, i: nat, r: nat, j: nat, s: nat)
    requires IsRun(u, scope, run) && ListsOnce(u, scope, run)
    requires i < |run| && r < |run[i].page.accounts| && j < |run| && s < |run[j].page.accounts|
    requires i < j || (i == j && r < s)
    ensures CompareAccounts(u, run[i].page.accounts[r], run[j].page.accounts[s]) < 0
  {
    LegsOfDistinctRun(u, scope, run);
    var legs := LegsOf(run);
    assert legs[i].rows == run[i].page.accounts && legs[j].rows == run[j].page.accounts;
    if i < j {
      LegRowsIncrease(u, scope, legs, i, r, j, s);
    } else {
      assert LegHolds(u, scope, legs[i]);
    }
  }

  lemma PlaceIsAnsweredOnce(u: Unicode, scope: Scope, run: seq<Read>, place: AccountCursor, i: nat, r: nat, j: nat,
                            s: nat)
    requires IsRun(u, scope, run) && ListsOnce(u, scope, run)
    requires RowIsAt(u, run, place, i, r) && RowIsAt(u, run, place, j, s)
    ensures i == j && r == s
  {
    var a, b := run[i].page.accounts[r], run[j].page.accounts[s];
    TiedRowsTie(u, PositionOf(a), PositionOf(b), place);
    TiedRowsTie(u, PositionOf(b), PositionOf(a), place);
    if i < j || (i == j && r < s) {
      RowsStrictlyIncrease(u, scope, run, i, r, j, s);
    } else if j < i || (i == j && s < r) {
      RowsStrictlyIncrease(u, scope, run, j, s, i, r);
    }
  }

  /**
   Read `i` reaches the place: it holds it in scope, past the cursor it was asked with and not past
   the one it hands over.
   */
  ghost predicate Reaches(u: Unicode, scope: Scope, run: seq<Read>, place: AccountCursor, i: nat) {
    && i < |run|
    && HoldsPlace(u, scope, run[i].directory, place) && IsPast(u, run[i].cursor, place)
    && (run[i].page.nextCursor.Some? ==> !IsPast(u, ParseAccountCursor(run[i].page.nextCursor), place))
  }

  /** A row a leg answers at a place lies where the leg reads. */
  lemma AnsweredIsReached(u: Unicode, scope: Scope, leg: Leg, place: AccountCursor, r: nat)
    requires LegHolds(u, scope, leg) && IsAt(u, leg.rows, place, r)
    ensures HoldsPlace(u, scope, leg.directory, place) && IsPast(u, leg.from, place)
    ensures leg.to.Some? ==> !IsPast(u, leg.to, place)
  {
    var a := leg.rows[r];
    assert a in leg.rows;
    CompareAccountCursorsIsTotalPreorder(u, PositionOf(a), place, PositionOf(a));
    if leg.from.Some? {
      CompareAccountCursorsIsTotalPreorder(u, leg.from.value, PositionOf(a), place);
    }
    if leg.to.Some? {
      RowsUpToCursor(u, scope, leg, r);
      CompareAccountCursorsIsTotalPreorder(u, place, PositionOf(a), leg.to.value);
      CompareAccountCursorsIsTotalPreorder(u, leg.to.value, place, leg.to.value);
    }
  }

  /**
   A read of the run answers a place if and only if it reaches it: so an account that moved, or came
   late, is missed exactly when every read that holds it has its window elsewhere.
   */
  lemma PlaceIsAnsweredIff(u: Unicode, scope: Scope, run: seq<Read>, place: AccountCursor, i: nat)
    requires IsRun(u, scope, run) && ListsOnce(u, scope, run) && i < |run|
    ensures (exists r :: RowIsAt(u, run, place, i, r)) <==> Reaches(u, scope, run, place, i)
  {
    var leg := LegOf(run[i]);
    LegOfRead(u, scope, run[i]);
    ReadMoves(u, scope, run[i]);
    if r: nat :| RowIsAt(u, run, place, i, r) {
      AnsweredIsReached(u, scope, leg, place, r);
    }
    if Reaches(u, scope, run, place, i) {
      AnsweredOrPast(u, scope, leg, place);
      var r: nat :| IsAt(u, leg.rows, place, r);
      assert RowIsAt(u, run, place, i, r);
    }
  }

  /**
   A read that ends has answered, exactly once, every place that stayed in scope throughout,
   however else the directory changed between its requests.
   */
  lemma EveryStayingAccountIsAnsweredOnce(u: Unicode, scope: Scope, run: seq<Read>, place: AccountCursor)
    requires IsRun(u, scope, run) && HasEnded(run) && ListsOnce(u, scope, run)
    requires forall i :: 0 <= i < |run| ==> HoldsPlace(u, scope, run[i].directory, place)
    ensures exists i, r :: RowIsAt(u, run, place, i, r)
    ensures forall i, r, j, s :: RowIsAt(u, run, place, i, r) && RowIsAt(u, run, place, j, s) ==> i == j && r == s
  {
    LegsOfRun(u, scope, run);
    LegsOfDistinctRun(u, scope, run);
    var legs := LegsOf(run);
    forall i | 0 <= i < |legs|
      ensures HoldsPlace(u, scope, legs[i].directory, place)
    {
      assert legs[i].directory == run[i].directory;
    }
    var k, q := AnsweredFrom(u, scope, legs, place, 0);
    assert legs[k].rows == run[k].page.accounts;
    assert RowIsAt(u, run, place, k, q);
    forall i, r, j, s | RowIsAt(u, run, place, i, r) && RowIsAt(u, run, place, j, s)
      ensures i == j && r == s
    {
      PlaceIsAnsweredOnce(u, scope, run, place, i, r, j, s);
    }
  }

  /** Every row answered is an account of its snapshot on the channel, in the state and by the query asked for. */
  lemma RowsAreAskedFor(u: Unicode, scope: Scope, run: seq<Read>, i: nat, r: nat)
    requires IsRun(u, scope, run) && i < |run| && r < |run[i].page.accounts|
    ensures run[i].page.accounts[r] in run[i].directory && IsAskedFor(u, scope, run[i].page.accounts[r])
  {
    PageHoldsWhatIsAskedFor(u, run[i].directory, Options(scope, run[i].cursor, run[i].limit), run[i].page);
    assert run[i].page.accounts[r] in run[i].page.accounts;
  }

  /** Every row answered was in scope in the snapshot it was answered from: a page never invents one. */
  lemma RowsAreInScope(u: Unicode, scope: Scope, run: seq<Read>, i: nat, r: nat)
    requires IsRun(u, scope, run) && i < |run| && r < |run[i].page.accounts|
    ensures InScope(u, run[i].directory, scope, run[i].page.accounts[r])
  {
    var read := run[i];
    var listing := Listing(u, read.directory, scope);
    PageShape(u, read.directory, Options(scope, read.cursor, read.limit));
    FilterMembers(listing, IsAfter(u, read.cursor));
    assert read.page.accounts[r] == After(u, listing, read.cursor)[r];
    ListingHoldsScope(u, read.directory, scope);
  }

  // ---------------------------------------------------------------------
  // A directory that does not change
  // ---------------------------------------------------------------------

  ghost predicate Unchanged(run: seq<Read>, directory: seq<DirectoryAccount>, limit: Option<real>) {
    forall i :: 0 <= i < |run| ==> run[i].directory == directory && run[i].limit == limit
  }

  function PagesOf(run: seq<Read>): (pages: seq<Page>)
    ensures |pages| == |run|
    ensures forall i :: 0 <= i < |run| ==> pages[i] == run[i].page
  {
    seq(|run|, i requires 0 <= i < |run| => run[i].page)
  }

  /**
   A read of an unchanged directory, free of how it was answered: wherever in the listing it
   resumes, it answers the page cut there, and its cursor resumes at the next cut.
   */
  ghost predicate ReadsAt(read: Read, listing: seq<DirectoryAccount>, limit: nat, counts: AccountCounts) {
    forall k: nat :: ResumesAt(listing, read.cursor, k) ==>
      && CutAt(read.page, listing, limit, counts, k)
      && (k + limit < |listing| ==>
            && 0 < k + limit && CanEndPage(listing[k + limit - 1])
            && ResumesAt(listing, ParseAccountCursor(read.page.nextCursor), k + limit))
  }

  lemma ReadsUnchanged(u: Unicode, scope: Scope, read: Read)
    requires Answers(u, scope, read) && DistinctAccounts(Matching(u, read.directory, scope))
    ensures Nameable(Matching(u, read.directory, scope))
    ensures ReadsAt(read, Listing(u, read.directory, scope), AccountPageLimit(read.limit),
                    CountsOf(Matching(u, read.directory, scope)))
  {
    var options, listing := Options(scope, read.cursor, read.limit), Listing(u, read.directory, scope);
    var limit, counts := AccountPageLimit(read.limit), CountsOf(Matching(u, read.directory, scope));
    NoRefusal(Matching(u, read.directory, scope));
    forall k: nat | ResumesAt(listing, read.cursor, k)
      ensures CutAt(read.page, listing, limit, counts, k)
      ensures k + limit < |listing| ==>
                && 0 < k + limit && CanEndPage(listing[k + limit - 1])
                && ResumesAt(listing, ParseAccountCursor(read.page.nextCursor), k + limit)
    {
      AnswersAtOffset(u, read.directory, options, k);
      var page := PageAndNext(u, read.directory, options, k, listing, limit, counts);
    }
  }

  ghost predicate Steps(run: seq<Read>, listing: seq<DirectoryAccount>, limit: nat, counts: AccountCounts) {
    && run != [] && HasEnded(run)
    && (forall i :: 0 <= i < |run| ==> ReadsAt(run[i], listing, limit, counts))
    && (forall i :: 0 <= i < |run| - 1 ==> Resumes(run[i], run[i + 1]))
  }

  lemma UnchangedRunSteps(u: Unicode, scope: Scope, run: seq<Read>, directory: seq<DirectoryAccount>,
                          requested: Option<real>)
    requires IsRun(u, scope, run) && HasEnded(run) && Unchanged(run, directory, requested)
    requires DistinctAccounts(Matching(u, directory, scope))
    ensures Nameable(Matching(u, directory, scope))
    ensures Steps(run, Listing(u, directory, scope), AccountPageLimit(requested),
                  CountsOf(Matching(u, directory, scope)))
  {
    forall i | 0 <= i < |run|
      ensures Nameable(Matching(u, directory, scope))
      ensures ReadsAt(run[i], Listing(u, directory, scope), AccountPageLimit(requested),
                      CountsOf(Matching(u, directory, scope)))
    {
      ReadsUnchanged(u, scope, run[i]);
    }
    assert run[0] in run;
  }

  lemma StepsTail(run: seq<Read>, listing: seq<DirectoryAccount>, limit: nat, counts: AccountCounts)
    requires Steps(run, listing, limit, counts) && |run| > 1
    ensures Steps(run[1..], listing, limit, counts)
  {
    var rest := run[1..];
    assert forall i :: 0 <= i < |rest| ==> rest[i] == run[i + 1];
  }

  lemma {:induction false} StepsCut(run: seq<Read>, listing: seq<DirectoryAccount>, limit: nat,
                                    counts: AccountCounts, k: nat)
    requires Steps(run, listing, limit, counts) && limit > 0 && ResumesAt(listing, run[0].cursor, k)
    ensures CutFrom(PagesOf(run), listing, limit, counts, k)
    decreases |run|
  {
    assert ReadsAt(run[0], listing, limit, counts);
    assert PagesOf(run)[1..] == PagesOf(run[1..]);
    if |run| > 1 {
      assert Resumes(run[0], run[1]);
      StepsTail(run, listing, limit, counts);
      StepsCut(run[1..], listing, limit, counts, k + limit);
    }
    CutStep(PagesOf(run), listing, limit, counts, k);
  }

  /**
   Following cursors to the end of an unchanged directory reads its listing once, whole and in
   order, in ceil(n / limit) pages that all carry the same counts.
   */
  lemma UnchangedRunReadsTheListing(u: Unicode, scope: Scope, run: seq<Read>, directory: seq<DirectoryAccount>,
                                    requested: Option<real>)
    requires IsRun(u, scope, run) && HasEnded(run) && Unchanged(run, directory, requested)
    requires DistinctAccounts(Matching(u, directory, scope))
    ensures ReadsExactly(
              PagesOf(run),
              Listing(u, directory, scope),
              PageCount(|Listing(u, directory, scope)|, AccountPageLimit(requested)),
              CountsOf(Matching(u, directory, scope)))
  {
    var listing, counts := Listing(u, directory, scope), CountsOf(Matching(u, directory, scope));
    AccountPageLimitClamps(requested);
    UnchangedRunSteps(u, scope, run, directory, requested);
    StepsCut(run, listing, AccountPageLimit(requested), counts, 0);
    CutReadsWhole(PagesOf(run), listing, AccountPageLimit(requested), counts);
  }

  /** From row `k` on, every row a page ends on, with more to follow, can end a page. */
  ghost predicate CutsCanEnd(listing: seq<DirectoryAccount>, limit: nat, k: nat)
    requires limit > 0
    decreases |listing| - k
  {
    k + limit < |listing| ==> CanEndPage(listing[k + limit - 1]) && CutsCanEnd(listing, limit, k + limit)
  }

  /** How many rows `pages` full pages hold: `pages` times the limit. */
  function RowsIn(pages: nat, limit: nat): (rows: nat)
    requires limit > 0
    ensures pages <= rows
  {
    if pages == 0 then 0 else RowsIn(pages - 1, limit) + limit
  }

  lemma {:induction false} MorePagesMoreRows(fewer: nat, more: nat, limit: nat)
    requires fewer <= more && limit > 0
    ensures RowsIn(fewer, limit) <= RowsIn(more, limit)
  {
    if fewer < more {
      MorePagesMoreRows(fewer, more - 1, limit);
    }
  }

  /** After `pages` pages, every row that ends a full page of the listing, with more to follow, can end one. */
  ghost predicate PagesCanEnd(listing: seq<DirectoryAccount>, limit: nat, pages: nat)
    requires limit > 0
  {
    forall m: nat :: pages < m && RowsIn(m, limit) < |listing| ==> CanEndPage(listing[RowsIn(m, limit) - 1])
  }

  lemma {:induction false} PagesEndAtCuts(listing: seq<DirectoryAccount>, limit: nat, pages: nat)
    requires limit > 0
    ensures PagesCanEnd(listing, limit, pages) <==> CutsCanEnd(listing, limit, RowsIn(pages, limit))
    decreases |listing| - RowsIn(pages, limit)
  {
    assert RowsIn(pages + 1, limit) == RowsIn(pages, limit) + limit;
    if RowsIn(pages + 1, limit) < |listing| {
      PagesEndAtCuts(listing, limit, pages + 1);
      var last := listing[RowsIn(pages + 1, limit) - 1];
      forall m: nat | pages < m && PagesCanEnd(listing, limit, pages + 1) && CanEndPage(last)
        ensures RowsIn(m, limit) < |listing| ==> CanEndPage(listing[RowsIn(m, limit) - 1])
      {
        assert m == pages + 1 || pages + 1 < m;
      }
    } else {
      forall m: nat | pages < m
        ensures RowsIn(m, limit) >= |listing|
      {
        MorePagesMoreRows(pages + 1, m, limit);
      }
    }
  }

  lemma {:induction false} StepsCanEnd(run: seq<Read>, listing: seq<DirectoryAccount>, limit: nat,
                                       counts: AccountCounts,
                                       k: nat)
    requires Steps(run, listing, limit, counts) && limit > 0 && ResumesAt(listing, run[0].cursor, k)
    ensures CutsCanEnd(listing, limit, k)
    decreases |run|
  {
    assert ReadsAt(run[0], listing, limit, counts);
    if |run| > 1 {
      assert Resumes(run[0], run[1]);
      StepsTail(run, listing, limit, counts);
      StepsCanEnd(run[1..], listing, limit, counts, k + limit);
    }
  }

  /**
   A read of this directory from `cursor`, `k` rows on, which hands over a cursor for the next cut
   when more follow.
   */
  ghost predicate ReadsOn(read: Read, directory: seq<DirectoryAccount>, requested: Option<real>,
                          cursor: Option<AccountCursor>, k: nat, listing: seq<DirectoryAccount>, limit: nat)
  {
    && read.directory == directory && read.limit == requested && read.cursor == cursor
    && (read.page.nextCursor.Some? <==> k + limit < |listing|)
    && (k + limit < |listing| ==> ResumesAt(listing, ParseAccountCursor(read.page.nextCursor), k + limit))
  }

  /** Wherever a page can end, some answered read goes on. */
  ghost predicate AlwaysReadsOn(answered: Read -> bool, directory: seq<DirectoryAccount>, requested: Option<real>,
                                listing: seq<DirectoryAccount>, limit: nat)
    requires limit > 0
  {
    forall cursor, k: nat ::
      ResumesAt(listing, cursor, k) && (k + limit < |listing| ==> CanEndPage(listing[k + limit - 1])) ==>
        exists read :: answered(read) && ReadsOn(read, directory, requested, cursor, k, listing, limit)
  }

  lemma UnchangedAlwaysReadsOn(u: Unicode, scope: Scope, directory: seq<DirectoryAccount>, requested: Option<real>,
                               answered: Read -> bool)
    requires DistinctAccounts(Matching(u, directory, scope)) && Nameable(Matching(u, directory, scope))
    requires AccountPageLimit(requested) > 0 && forall read :: answered(read) <==> Answers(u, scope, read)
    ensures AlwaysReadsOn(answered, directory, requested, Listing(u, directory, scope), AccountPageLimit(requested))
  {
    var listing, limit := Listing(u, directory, scope), AccountPageLimit(requested);
    forall cursor, k: nat | ResumesAt(listing, cursor, k)
                            && (k + limit < |listing| ==> CanEndPage(listing[k + limit - 1]))
      ensures exists read :: answered(read) && ReadsOn(read, directory, requested, cursor, k, listing, limit)
    {
      AnswersAtOffset(u, directory, Options(scope, cursor, requested), k);
      var read := Read(directory, cursor, requested, Slice(u, directory, Options(scope, cursor, requested)).value);
      ReadsUnchanged(u, scope, read);
      assert answered(read) && ReadsOn(read, directory, requested, cursor, k, listing, limit);
    }
  }

  /** A run of answered reads of this directory, to its end. */
  ghost predicate RunsToEnd(answered: Read -> bool, run: seq<Read>, directory: seq<DirectoryAccount>,
                            requested: Option<real>)
  {
    && HasEnded(run) && Unchanged(run, directory, requested)
    && (forall i :: 0 <= i < |run| ==> answered(run[i]))
    && (forall i :: 0 <= i < |run| - 1 ==> Resumes(run[i], run[i + 1]))
  }

  lemma PrependToEnd(answered: Read -> bool, read: Read, rest: seq<Read>, directory: seq<DirectoryAccount>,
                     requested: Option<real>)
    requires answered(read) && read.directory == directory && read.limit == requested
    requires RunsToEnd(answered, rest, directory, requested) && Resumes(read, rest[0])
    ensures RunsToEnd(answered, [read] + rest, directory, requested)
  {
    var run := [read] + rest;
    assert run[|rest|] == rest[|rest| - 1];
    forall i | 0 <= i < |run| - 1
      ensures Resumes(run[i], run[i + 1])
    {
      assert i > 0 ==> run[i] == rest[i - 1];
    }
  }

  lemma {:induction false} FollowToEnd(answered: Read -> bool, directory: seq<DirectoryAccount>,
                                       requested: Option<real>,
                                       cursor: Option<AccountCursor>, k: nat,
                                       listing: seq<DirectoryAccount>, limit: nat)
    returns (run: seq<Read>)
    requires limit > 0 && AlwaysReadsOn(answered, directory, requested, listing, limit)
    requires ResumesAt(listing, cursor, k) && CutsCanEnd(listing, limit, k)
    ensures RunsToEnd(answered, run, directory, requested) && run[0].cursor == cursor
    decreases |listing| - k
  {
    var read :| answered(read) && ReadsOn(read, directory, requested, cursor, k, listing, limit);
    if k + limit < |listing| {
      var next := ParseAccountCursor(read.page.nextCursor);
      var rest := FollowToEnd(answered, directory, requested, next, k + limit, listing, limit);
      PrependToEnd(answered, read, rest, directory, requested);
      run := [read] + rest;
    } else {
      run := [read];
    }
  }

  /**
   Following cursors through an unchanged directory reaches an end if and only if every account the
   query and the channel admit can be named and every row that ends a page can end one.
   */
  lemma UnchangedRunExistsIff(u: Unicode, scope: Scope, directory: seq<DirectoryAccount>, requested: Option<real>)
    requires DistinctAccounts(Matching(u, directory, scope))
    ensures 1 <= AccountPageLimit(requested)
    ensures (exists run :: IsRun(u, scope, run) && HasEnded(run) && Unchanged(run, directory, requested)) <==>
            && Nameable(Matching(u, directory, scope))
            && PagesCanEnd(Listing(u, directory, scope), AccountPageLimit(requested), 0)
  {
    AccountPageLimitClamps(requested);
    var listing, limit := Listing(u, directory, scope), AccountPageLimit(requested);
    PagesEndAtCuts(listing, limit, 0);
    if run :| IsRun(u, scope, run) && HasEnded(run) && Unchanged(run, directory, requested) {
      UnchangedRunSteps(u, scope, run, directory, requested);
      StepsCanEnd(run, listing, limit, CountsOf(Matching(u, directory, scope)), 0);
    }
    if Nameable(Matching(u, directory, scope)) && PagesCanEnd(listing, limit, 0) {
      var answered := (read: Read) =>
        Slice(u, read.directory, Options(scope, read.cursor, read.limit)) == Ok(read.page);
      UnchangedAlwaysReadsOn(u, scope, directory, requested, answered);
      var run := FollowToEnd(answered, directory, requested, None, 0, listing, limit);
      assert forall i :: 0 <= i < |run| ==> answered(run[i]);
      assert IsRun(u, scope, run);
    }
  }
}
