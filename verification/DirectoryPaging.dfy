/** One page of the directory, and paging a directory that does not change. */
module DirectoryPaging {
  import opened Wrappers
  import opened Text
  import opened AccountDirectory
  import opened DirectoryOrder
  import PercentEncoding

  // ---------------------------------------------------------------------
  // One page
  // ---------------------------------------------------------------------

  lemma {:induction false} NoRefusal(s: seq<DirectoryAccount>)
    ensures FirstRefusal(s).None? <==> Nameable(s)
  {
    if s != [] {
      NoRefusal(s[1..]);
      assert s == [s[0]] + s[1..];
    }
  }

  lemma RefusesIff(u: Unicode, directory: seq<DirectoryAccount>, scope: Scope)
    ensures FirstRefusal(Matching(u, directory, scope)).Some? <==>
            exists a :: a in directory && Admits(u, scope, a) && AccountCursorOf(a).Err?
  {
    FilterMembers(directory, Admitted(u, scope));
    NoRefusal(Matching(u, directory, scope));
  }

  /**
   Exactly when a read throws: an admitted account has no ref, or a next page exists and its cursor
   cannot be encoded.
   */
  lemma SliceThrowsIff(u: Unicode, directory: seq<DirectoryAccount>, options: Options)
    ensures Slice(u, directory, options).Err? <==>
            || (exists a :: a in directory && Admits(u, options.scope, a) && AccountCursorOf(a).Err?)
            || (var remaining := After(u, Listing(u, directory, options.scope), options.cursor);
                var limit := AccountPageLimit(options.limit);
                && limit < |remaining|
                && !(&& PercentEncoding.WellFormed(remaining[limit - 1].displayName)
                     && PercentEncoding.WellFormed(PositionOf(remaining[limit - 1]).ref)))
  {
    RefusesIff(u, directory, options.scope);
    AccountPageLimitClamps(options.limit);
    var remaining := After(u, Listing(u, directory, options.scope), options.cursor);
    PageOfThrowsIff(remaining, AccountPageLimit(options.limit), CountsOf(Matching(u, directory, options.scope)));
  }

  /** In any directory, a page holds only accounts of it that the request asks for. */
  lemma PageHoldsWhatIsAskedFor(u: Unicode, directory: seq<DirectoryAccount>, options: Options, page: Page)
    requires Slice(u, directory, options) == Ok(page)
    ensures forall a :: a in page.accounts ==> a in directory && IsAskedFor(u, options.scope, a)
  {
    ListingHoldsWhatIsAskedFor(u, directory, options.scope);
    PageShape(u, directory, options);
    FilterMembers(Listing(u, directory, options.scope), IsAfter(u, options.cursor));
  }

  lemma {:induction false} FirstRefusalIsFirst(s: seq<DirectoryAccount>, k: nat)
    requires k < |s| && AccountCursorOf(s[k]).Err? && forall i :: 0 <= i < k ==> AccountCursorOf(s[i]).Ok?
    ensures FirstRefusal(s) == Some(AccountCursorOf(s[k]).error)
  {
    if k > 0 {
      FirstRefusalIsFirst(s[1..], k - 1);
    }
  }

  /** Of the accounts the query and the channel admit, the first without a ref decides what a read throws. */
  lemma SliceThrowsTheFirst(u: Unicode, directory: seq<DirectoryAccount>, options: Options, k: nat)
    requires k < |Matching(u, directory, options.scope)|
    requires var m := Matching(u, directory, options.scope);
             AccountCursorOf(m[k]).Err? && forall i :: 0 <= i < k ==> AccountCursorOf(m[i]).Ok?
    ensures Slice(u, directory, options) == Err(AccountCursorOf(Matching(u, directory, options.scope)[k]).error)
  {
    FirstRefusalIsFirst(Matching(u, directory, options.scope), k);
  }

  lemma PageOfThrowsIff(remaining: seq<DirectoryAccount>, limit: nat, counts: AccountCounts)
    requires limit > 0
    ensures PageOf(remaining, limit, counts).Err? <==>
            && limit < |remaining|
            && !(&& PercentEncoding.WellFormed(remaining[limit - 1].displayName)
                 && PercentEncoding.WellFormed(PositionOf(remaining[limit - 1]).ref))
  {
    if limit < |remaining| {
      AccountCursorRoundTrip(PositionOf(remaining[limit - 1]));
    }
  }

  /** A page is the same, cursor and counts included, in whatever order the producer lists the accounts. */
  lemma PageIgnoresProducerOrder(u: Unicode, d1: seq<DirectoryAccount>, d2: seq<DirectoryAccount>, options: Options)
    requires AdmitSame(u, d1, d2, options.scope)
    ensures Slice(u, d1, options) == Slice(u, d2, options)
  {
    NoRefusal(Matching(u, d1, options.scope));
    NoRefusal(Matching(u, d2, options.scope));
    ListingIgnoresProducerOrder(u, d1, d2, options.scope);
  }

  lemma SameLength<T>(s: seq<T>, t: seq<T>)
    requires multiset(s) == multiset(t)
    ensures |s| == |t| && forall x :: x in s <==> x in t
  {
    assert |multiset(s)| == |s| && |multiset(t)| == |t|;
    assert forall x :: x in s <==> x in multiset(s);
    assert forall x :: x in t <==> x in multiset(t);
  }

  /** With nothing narrowed, everything listed remains to be read from the start. */
  lemma EverythingRemains(u: Unicode, directory: seq<DirectoryAccount>, scope: Scope)
    requires scope == Scope(None, None, None)
    ensures Matching(u, directory, scope) == directory
    ensures After(u, Listing(u, directory, scope), None) == Sort(u, directory)
  {
    FilterKeepsAll(directory, Admitted(u, scope));
    var ordered := Sort(u, directory);
    FilterKeepsAll(ordered, StateIs(None));
    FilterKeepsAll(ordered, IsAfter(u, None));
  }

  /** Accounts all named by a lone surrogate, more of them than a page holds, can never be read from the start. */
  lemma LoneSurrogatesThrow(u: Unicode, directory: seq<DirectoryAccount>, options: Options)
    requires options.scope == Scope(None, None, None) && options.cursor.None?
    requires |directory| > AccountPageLimit(options.limit)
    requires forall a :: a in directory ==> a.displayName == [0xD800]
    requires Nameable(directory)
    ensures Slice(u, directory, options) == Err(UriError)
  {
    AccountPageLimitClamps(options.limit);
    EverythingRemains(u, directory, options.scope);
    SortIsSortedPermutation(u, directory);
    var remaining := After(u, Listing(u, directory, options.scope), options.cursor);
    SameLength(remaining, directory);
    assert |multiset(remaining)| == |multiset(directory)|;
    var last := remaining[AccountPageLimit(options.limit) - 1];
    assert last in multiset(remaining);
    assert !PercentEncoding.PairedAt(last.displayName, 0);
    NoRefusal(directory);
    SliceThrowsIff(u, directory, options);
  }

  function NamedByLoneSurrogate(channelUserId: Text): DirectoryAccount {
    DirectoryAccount([0x61], channelUserId, [], [0xD800], Unlinked, None, None)
  }

  /** Two accounts, each with a ref of its own, read one to a page: the read throws instead of answering the first. */
  lemma LoneSurrogateThrows(u: Unicode)
    ensures var directory := [NamedByLoneSurrogate([0x31]), NamedByLoneSurrogate([0x32])];
            && DistinctAccounts(directory) && Nameable(directory)
            && Slice(u, directory, Options(Scope(None, None, None), None, Some(1.0))) == Err(UriError)
  {
    var directory := [NamedByLoneSurrogate([0x31]), NamedByLoneSurrogate([0x32])];
    LoneSurrogatesThrow(u, directory, Options(Scope(None, None, None), None, Some(1.0)));
  }

  /** A page is the head of what remains, and a cursor comes with it exactly when something is left over. */
  lemma PageShape(u: Unicode, directory: seq<DirectoryAccount>, options: Options)
    requires Slice(u, directory, options).Ok?
    ensures var page := Slice(u, directory, options).value;
            var remaining := After(u, Listing(u, directory, options.scope), options.cursor);
            && page.accounts <= remaining
            && (page.nextCursor.Some? <==> AccountPageLimit(options.limit) < |remaining|)
            && (page.nextCursor.None? ==> page.accounts == remaining)
            && (page.nextCursor.Some? ==>
                  && |page.accounts| == AccountPageLimit(options.limit) > 0
                  && page.nextCursor == EncodeAccountCursor(PositionOf(page.accounts[|page.accounts| - 1])))
  {
    AccountPageLimitClamps(options.limit);
    var remaining := After(u, Listing(u, directory, options.scope), options.cursor);
    PageOfShape(remaining, AccountPageLimit(options.limit), CountsOf(Matching(u, directory, options.scope)));
  }

  lemma PageOfShape(remaining: seq<DirectoryAccount>, limit: nat, counts: AccountCounts)
    requires limit > 0 && PageOf(remaining, limit, counts).Ok?
    ensures var page := PageOf(remaining, limit, counts).value;
            && page.accounts <= remaining
            && (page.nextCursor.Some? <==> limit < |remaining|)
            && (page.nextCursor.None? ==> page.accounts == remaining)
            && (page.nextCursor.Some? ==>
                  && |page.accounts| == limit
                  && page.nextCursor == EncodeAccountCursor(PositionOf(page.accounts[|page.accounts| - 1])))
  {
  }

  /** What remains after a cursor is what is in scope and past it, strictly in order. */
  lemma RemainingFacts(u: Unicode, directory: seq<DirectoryAccount>, options: Options)
    requires DistinctAccounts(Matching(u, directory, options.scope))
    requires Nameable(Matching(u, directory, options.scope))
    ensures var remaining := After(u, Listing(u, directory, options.scope), options.cursor);
            && StrictlySorted(u, remaining)
            && forall a :: a in remaining <==> InScope(u, directory, options.scope, a) && IsAfter(u, options.cursor)(a)
  {
    var listing := Listing(u, directory, options.scope);
    ListingIsScopeInOrder(u, directory, options.scope);
    FilterMembers(listing, IsAfter(u, options.cursor));
    FilterStrictlySorted(u, listing, IsAfter(u, options.cursor));
  }

  /** Whatever a strictly sorted sequence holds beyond a proper prefix comes after that prefix's last row. */
  lemma PrefixOrRest(u: Unicode, prefix: seq<DirectoryAccount>, s: seq<DirectoryAccount>)
    requires StrictlySorted(u, s) && prefix <= s
    ensures StrictlySorted(u, prefix)
    ensures forall a :: a in prefix ==> a in s
    ensures prefix != [] ==>
              forall a :: a in s && a !in prefix ==> CompareAccounts(u, prefix[|prefix| - 1], a) < 0
  {
    assert prefix == s[..|prefix|];
    forall a | a in s && a !in prefix && prefix != []
      ensures CompareAccounts(u, prefix[|prefix| - 1], a) < 0
    {
      var k :| 0 <= k < |s| && s[k] == a;
      assert k >= |prefix|;
    }
  }

  /** What a reader may rely on from one page, with nothing said about the requests around it. */
  lemma PageFacts(u: Unicode, directory: seq<DirectoryAccount>, options: Options, page: Page)
    requires DistinctAccounts(Matching(u, directory, options.scope))
    requires Slice(u, directory, options) == Ok(page)
    ensures StrictlySorted(u, page.accounts)
    ensures forall a :: a in page.accounts ==> InScope(u, directory, options.scope, a) && IsAfter(u, options.cursor)(a)
    ensures page.nextCursor.Some? ==>
              && page.accounts != []
              && ParseAccountCursor(page.nextCursor) == Some(PositionOf(page.accounts[|page.accounts| - 1]))
    ensures forall a :: InScope(u, directory, options.scope, a) && IsAfter(u, options.cursor)(a)
                        && a !in page.accounts ==>
              page.nextCursor.Some? && CompareAccounts(u, page.accounts[|page.accounts| - 1], a) < 0
  {
    NoRefusal(Matching(u, directory, options.scope));
    RemainingFacts(u, directory, options);
    PageShape(u, directory, options);
    PrefixOrRest(u, page.accounts, After(u, Listing(u, directory, options.scope), options.cursor));
    if page.nextCursor.Some? {
      AccountCursorRoundTrip(PositionOf(page.accounts[|page.accounts| - 1]));
    }
  }

  // ---------------------------------------------------------------------
  // Paging a fixed directory
  // ---------------------------------------------------------------------

  /** A page may end on this account: its position can be written as a cursor. */
  ghost predicate CanEndPage(a: DirectoryAccount) {
    PercentEncoding.WellFormed(a.displayName) && PercentEncoding.WellFormed(PositionOf(a).ref)
  }

  lemma AfterPositionIsSuffix(u: Unicode, listing: seq<DirectoryAccount>, k: nat)
    requires StrictlySorted(u, listing) && k < |listing|
    ensures After(u, listing, Some(PositionOf(listing[k]))) == listing[k + 1..]
  {
    var cursor := Some(PositionOf(listing[k]));
    var keep := IsAfter(u, cursor);
    forall i | 0 <= i < |listing|
      ensures keep(listing[i]) <==> i > k
    {
      CompareAccountCursorsIsTotalPreorder(u, PositionOf(listing[k]), PositionOf(listing[i]), PositionOf(listing[k]));
    }
    assert listing == listing[..k + 1] + listing[k + 1..];
    FilterAppend(listing[..k + 1], listing[k + 1..], keep);
    FilterDropsAll(listing[..k + 1], keep);
    FilterKeepsAll(listing[k + 1..], keep);
    assert Filter(listing, keep) == listing[k + 1..];
  }

  lemma {:induction false} FilterDropsAll<T>(s: seq<T>, keep: T -> bool)
    requires forall x :: x in s ==> !keep(x)
    ensures Filter(s, keep) == []
  {
    if s != [] {
      FilterDropsAll(s[1..], keep);
    }
  }

  /** The offset a cursor names in an unchanged listing: `k` rows have been read. */
  ghost predicate ResumesAt(listing: seq<DirectoryAccount>, cursor: Option<AccountCursor>, k: nat) {
    k <= |listing| && if k == 0 then cursor.None? else cursor == Some(PositionOf(listing[k - 1]))
  }

  lemma RemainingAtOffset(u: Unicode, listing: seq<DirectoryAccount>, cursor: Option<AccountCursor>, k: nat)
    requires StrictlySorted(u, listing) && ResumesAt(listing, cursor, k)
    ensures After(u, listing, cursor) == listing[k..]
  {
    if k == 0 {
      FilterKeepsAll(listing, IsAfter(u, cursor));
    } else {
      AfterPositionIsSuffix(u, listing, k - 1);
    }
  }

  /** Where the page that starts at row `k` ends. */
  function PageEnd(listing: seq<DirectoryAccount>, limit: nat, k: nat): (end: nat)
    requires k <= |listing|
    ensures k <= end <= |listing|
  {
    if k + limit < |listing| then k + limit else |listing|
  }

  lemma HeadOfSuffix(listing: seq<DirectoryAccount>, k: nat, head: seq<DirectoryAccount>, limit: nat)
    requires k <= |listing| && head <= listing[k..]
    requires if limit < |listing| - k then |head| == limit else head == listing[k..]
    ensures head == listing[k..PageEnd(listing, limit, k)]
    ensures head != [] ==> head[|head| - 1] == listing[PageEnd(listing, limit, k) - 1]
  {
    assert head == listing[k..][..|head|];
  }

  /** An answered page, wherever its rows come from. */
  lemma SliceIsPageOf(u: Unicode, directory: seq<DirectoryAccount>, options: Options)
    requires Slice(u, directory, options).Ok?
    ensures Nameable(Matching(u, directory, options.scope))
    ensures Slice(u, directory, options)
         == PageOf(After(u, Listing(u, directory, options.scope), options.cursor), AccountPageLimit(options.limit),
                   CountsOf(Matching(u, directory, options.scope)))
  {
    NoRefusal(Matching(u, directory, options.scope));
  }

  /** Once `k` rows have been read, the next request answers exactly when the row its page must end on can end one. */
  lemma AnswersAtOffset(u: Unicode, directory: seq<DirectoryAccount>, options: Options, k: nat)
    requires DistinctAccounts(Matching(u, directory, options.scope)) && Nameable(Matching(u, directory, options.scope))
    requires ResumesAt(Listing(u, directory, options.scope), options.cursor, k)
    ensures var listing, limit := Listing(u, directory, options.scope), AccountPageLimit(options.limit);
            Slice(u, directory, options).Ok? <==>
            (k + limit < |listing| ==> 0 < k + limit && CanEndPage(listing[k + limit - 1]))
  {
    AccountPageLimitClamps(options.limit);
    SliceThrowsIff(u, directory, options);
    RefusesIff(u, directory, options.scope);
    NoRefusal(Matching(u, directory, options.scope));
    ListingIsScopeInOrder(u, directory, options.scope);
    RemainingAtOffset(u, Listing(u, directory, options.scope), options.cursor, k);
  }

  lemma {:induction false} FilterShrinks<T>(s: seq<T>, fewer: T -> bool, more: T -> bool)
    requires forall x :: x in s && fewer(x) ==> more(x)
    ensures |Filter(s, fewer)| <= |Filter(s, more)|
    ensures (exists x :: x in s && more(x) && !fewer(x)) ==> |Filter(s, fewer)| < |Filter(s, more)|
  {
    if s != [] {
      FilterShrinks(s[1..], fewer, more);
      assert s == [s[0]] + s[1..];
    }
  }

  /** Every page with a cursor leaves strictly less behind it, even in a directory that lists an account twice. */
  lemma EveryPageMakesProgress(u: Unicode, directory: seq<DirectoryAccount>, options: Options)
    requires Slice(u, directory, options).Ok? && Slice(u, directory, options).value.nextCursor.Some?
    ensures var listing := Listing(u, directory, options.scope);
            var next := ParseAccountCursor(Slice(u, directory, options).value.nextCursor);
            next.Some? && |After(u, listing, next)| < |After(u, listing, options.cursor)|
  {
    PageShape(u, directory, options);
    var listing := Listing(u, directory, options.scope);
    var accounts := Slice(u, directory, options).value.accounts;
    var last := accounts[|accounts| - 1];
    var remaining := After(u, listing, options.cursor);
    AccountCursorRoundTrip(PositionOf(last));
    var next := Some(PositionOf(last));
    FilterMembers(listing, IsAfter(u, options.cursor));
    assert last == remaining[|accounts| - 1];
    assert last in remaining;
    CompareAccountCursorsIsTotalPreorder(u, PositionOf(last), PositionOf(last), PositionOf(last));
    forall a | a in listing && IsAfter(u, next)(a)
      ensures IsAfter(u, options.cursor)(a)
    {
      if options.cursor.Some? {
        CompareAccountCursorsIsTotalPreorder(u, options.cursor.value, PositionOf(last), PositionOf(a));
      }
    }
    FilterShrinks(listing, IsAfter(u, next), IsAfter(u, options.cursor));
  }

  function Concat(pages: seq<Page>): seq<DirectoryAccount> {
    if pages == [] then [] else pages[0].accounts + Concat(pages[1..])
  }

  /** ceil(n / limit), and one page even for an empty listing. */
  function PageCount(n: nat, limit: nat): (pages: nat)
    requires limit > 0
    ensures pages >= 1
    ensures (pages - 1) * limit < n || (n == 0 && pages == 1)
    ensures n <= pages * limit
  {
    if n <= limit then 1
    else
      var rest := PageCount(n - limit, limit);
      assert (rest + 1) * limit == rest * limit + limit && (rest - 1) * limit == rest * limit - limit;
      1 + rest
  }

  /** `pages` hand over exactly `rows`, in `count` pages with the same counts, and only the last has no cursor. */
  ghost predicate ReadsExactly(pages: seq<Page>, rows: seq<DirectoryAccount>, count: nat, counts: AccountCounts) {
    && Concat(pages) == rows
    && |pages| == count
    && (forall i :: 0 <= i < |pages| ==> pages[i].counts == counts)
    && (forall i :: 0 <= i < |pages| ==> (pages[i].nextCursor.None? <==> i == |pages| - 1))
  }

  /** One page of a listing cut every `limit` rows: the rows from `k`, and a cursor exactly when more follow. */
  ghost predicate CutAt(page: Page, listing: seq<DirectoryAccount>, limit: nat, counts: AccountCounts, k: nat)
    requires k <= |listing|
  {
    && page.accounts == listing[k..PageEnd(listing, limit, k)]
    && page.counts == counts
    && (page.nextCursor.Some? <==> k + limit < |listing|)
  }

  /** A listing cut into pages from row `k` on. */
  ghost predicate CutFrom(pages: seq<Page>, listing: seq<DirectoryAccount>, limit: nat, counts: AccountCounts, k: nat)
    requires k <= |listing| && limit > 0
    decreases |listing| - k
  {
    && pages != [] && CutAt(pages[0], listing, limit, counts, k)
    && if k + limit < |listing| then CutFrom(pages[1..], listing, limit, counts, k + limit) else pages[1..] == []
  }

  lemma PrependPage(page: Page, rest: seq<Page>, rows: seq<DirectoryAccount>, count: nat, counts: AccountCounts)
    requires count > 0 && ReadsExactly(rest, rows, count, counts)
    requires page.counts == counts && page.nextCursor.Some?
    ensures ReadsExactly([page] + rest, page.accounts + rows, count + 1, counts)
  {
    assert ([page] + rest)[1..] == rest;
  }

  lemma OnlyPage(page: Page)
    requires page.nextCursor.None?
    ensures ReadsExactly([page], page.accounts, 1, page.counts)
  {
    assert [page][1..] == [];
    assert Concat([page]) == page.accounts + Concat([]);
  }

  lemma {:induction false} CutReadsExactly(pages: seq<Page>, listing: seq<DirectoryAccount>, limit: nat,
                                           counts: AccountCounts, k: nat)
    requires k <= |listing| && limit > 0 && CutFrom(pages, listing, limit, counts, k)
    ensures ReadsExactly(pages, listing[k..], PageCount(|listing| - k, limit), counts)
    decreases |listing| - k
  {
    assert pages == [pages[0]] + pages[1..];
    if k + limit < |listing| {
      CutReadsExactly(pages[1..], listing, limit, counts, k + limit);
      PrependPage(pages[0], pages[1..], listing[k + limit..], PageCount(|listing| - (k + limit), limit), counts);
      assert listing[k..] == listing[k..k + limit] + listing[k + limit..];
    } else {
      OnlyPage(pages[0]);
    }
  }

  lemma CutReadsWhole(pages: seq<Page>, listing: seq<DirectoryAccount>, limit: nat, counts: AccountCounts)
    requires limit > 0 && CutFrom(pages, listing, limit, counts, 0)
    ensures ReadsExactly(pages, listing, PageCount(|listing|, limit), counts)
  {
    CutReadsExactly(pages, listing, limit, counts, 0);
    assert listing[0..] == listing;
  }

  /** A cursor written where the first `end` rows end resumes after them. */
  lemma CursorResumes(listing: seq<DirectoryAccount>, nextCursor: Option<Text>, end: nat)
    requires 0 < end <= |listing| && nextCursor.Some?
    requires nextCursor == EncodeAccountCursor(PositionOf(listing[end - 1]))
    ensures ResumesAt(listing, ParseAccountCursor(nextCursor), end)
  {
    AccountCursorRoundTrip(PositionOf(listing[end - 1]));
  }

  /** The page cut off what is left of a listing after `k` rows, and where its cursor resumes. */
  lemma PageOfIsCut(listing: seq<DirectoryAccount>, k: nat, limit: nat, counts: AccountCounts, page: Page)
    requires k <= |listing| && limit > 0 && PageOf(listing[k..], limit, counts) == Ok(page)
    ensures CutAt(page, listing, limit, counts, k)
    ensures page.nextCursor.Some? ==> ResumesAt(listing, ParseAccountCursor(page.nextCursor), k + limit)
  {
    PageOfShape(listing[k..], limit, counts);
    HeadOfSuffix(listing, k, page.accounts, limit);
    if page.nextCursor.Some? {
      CursorResumes(listing, page.nextCursor, k + limit);
    }
  }

  /**
   In an unchanged directory a request that resumes at row `k` answers the page cut there, and its
   cursor resumes at the next cut.
   */
  lemma PageAndNext(u: Unicode, directory: seq<DirectoryAccount>, options: Options, k: nat,
                    listing: seq<DirectoryAccount>, limit: nat, counts: AccountCounts)
    returns (page: Page)
    requires DistinctAccounts(Matching(u, directory, options.scope)) && Slice(u, directory, options).Ok?
    requires listing == Listing(u, directory, options.scope) && ResumesAt(listing, options.cursor, k)
    requires limit == AccountPageLimit(options.limit)
    requires counts == CountsOf(Matching(u, directory, options.scope))
    ensures Slice(u, directory, options) == Ok(page) && CutAt(page, listing, limit, counts, k)
    ensures page.nextCursor.Some? ==> ResumesAt(listing, ParseAccountCursor(page.nextCursor), k + limit)
  {
    AccountPageLimitClamps(options.limit);
    SliceIsPageOf(u, directory, options);
    ListingIsScopeInOrder(u, directory, options.scope);
    RemainingAtOffset(u, listing, options.cursor, k);
    page := Slice(u, directory, options).value;
    PageOfIsCut(listing, k, limit, counts, page);
  }

  lemma CutStep(pages: seq<Page>, listing: seq<DirectoryAccount>, limit: nat, counts: AccountCounts, k: nat)
    requires k <= |listing| && limit > 0 && pages != []
    requires CutAt(pages[0], listing, limit, counts, k)
    requires if k + limit < |listing| then CutFrom(pages[1..], listing, limit, counts, k + limit) else pages[1..] == []
    ensures CutFrom(pages, listing, limit, counts, k)
  {
  }
}
