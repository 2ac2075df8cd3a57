/**
 The account directory and the page cut out of it (packages/api-types/src/people.ts).

 The Unicode tables are not modelled: every function takes normalization form C and case
 folding as parameters, so each property holds whatever those two functions are.
 */
module AccountDirectory {
  import opened Wrappers
  import opened Text
  import opened CursorParts

  datatype Unicode = Unicode(nfc: Text -> Text, caseFold: Text -> Text)

  datatype AccountState = Unlinked | Linked | Dismissed

  datatype DirectoryAccount = DirectoryAccount(
    channel: Text,
    channelUserId: Text,
    addresses: seq<Text>,
    displayName: Text,
    state: AccountState,
    personId: Option<Text>,
    personName: Option<Text>)

  /** Why a read throws: an account no ref can be rendered for, or a position no cursor can be encoded for. */
  datatype Refusal = BadChannel | EmptyUserId | UriError

  // ---------------------------------------------------------------------
  // Matching
  // ---------------------------------------------------------------------

  predicate MatchesQuery(u: Unicode, query: Text, haystack: seq<Text>) {
    var q := u.caseFold(Trim(u.nfc(query)));
    q == [] || Includes(u.caseFold(u.nfc(Join(haystack, SPACE))), q)
  }

  predicate AccountMatchesQuery(u: Unicode, a: DirectoryAccount, query: Text, matchChannel: bool) {
    var personName := if a.personName.Some? then a.personName.value else [];
    MatchesQuery(u, query, [a.displayName, personName] + (if matchChannel then [a.channel] else []) + a.addresses)
  }

  // ---------------------------------------------------------------------
  // Order
  // ---------------------------------------------------------------------

  function CompareDisplayNames(u: Unicode, a: Text, b: Text): int {
    var byFolded := CompareCodePoints(u.caseFold(u.nfc(a)), u.caseFold(u.nfc(b)));
    if byFolded != 0 then byFolded else CompareCodePoints(u.nfc(a), u.nfc(b))
  }

  datatype AccountCursor = AccountCursor(displayName: Text, ref: Text)

  function CompareAccountCursors(u: Unicode, a: AccountCursor, b: AccountCursor): int {
    var byName := CompareDisplayNames(u, a.displayName, b.displayName);
    if byName != 0 then byName else CompareCodePoints(a.ref, b.ref)
  }

  predicate IsChannelIdentifier(channel: Text) {
    |channel| > 0 && COLON !in channel
  }

  function AccountRef(channel: Text, channelUserId: Text): Result<Text, Refusal> {
    if !IsChannelIdentifier(channel) then Err(BadChannel)
    else if channelUserId == [] then Err(EmptyUserId)
    else Ok(channel + [COLON] + channelUserId)
  }

  function AccountCursorOf(a: DirectoryAccount): Result<AccountCursor, Refusal> {
    var ref :- AccountRef(a.channel, a.channelUserId);
    Ok(AccountCursor(a.displayName, ref))
  }

  /** The position of an account, read only where `AccountCursorOf` has answered it. */
  function PositionOf(a: DirectoryAccount): AccountCursor {
    AccountCursor(a.displayName, a.channel + [COLON] + a.channelUserId)
  }

  function CompareAccounts(u: Unicode, a: DirectoryAccount, b: DirectoryAccount): int {
    CompareAccountCursors(u, PositionOf(a), PositionOf(b))
  }

  predicate IsAfterAccountCursor(u: Unicode, a: DirectoryAccount, cursor: AccountCursor) {
    CompareAccountCursors(u, cursor, PositionOf(a)) < 0
  }

  // ---------------------------------------------------------------------
  // Cursor text
  // ---------------------------------------------------------------------

  function EncodeAccountCursor(cursor: AccountCursor): Option<Text> {
    EncodeParts([cursor.displayName, cursor.ref])
  }

  function ParseAccountCursor(raw: Option<Text>): Option<AccountCursor> {
    var text :- raw;
    if text == [] then None
    else
      var parts :- DecodeParts(text, 2);
      if parts[1] == [] then None else Some(AccountCursor(parts[0], parts[1]))
  }

  // ---------------------------------------------------------------------
  // Limits
  // ---------------------------------------------------------------------

  const ACCOUNT_PAGE_DEFAULT_LIMIT: nat := 200
  const ACCOUNT_PAGE_MAX_LIMIT: nat := 500

  /** `requested` is the asked-for count as `Number` reads it, or None when that is not finite. */
  function PageLimit(requested: Option<real>, fallback: nat, max: nat): nat {
    if requested.Some? && requested.value >= 1.0 then
      (if requested.value.Floor <= max then requested.value.Floor else max)
    else fallback
  }

  function AccountPageLimit(requested: Option<real>): nat {
    PageLimit(requested, ACCOUNT_PAGE_DEFAULT_LIMIT, ACCOUNT_PAGE_MAX_LIMIT)
  }

  /**
   What is asked for in range is only rounded down, what is over the ceiling is lowered to it, and
   anything else reads as the default; so the limit is in range, and clamping twice is clamping once.
   */
  lemma AccountPageLimitClamps(requested: Option<real>)
    ensures 1 <= AccountPageLimit(requested) <= ACCOUNT_PAGE_MAX_LIMIT
    ensures AccountPageLimit(Some(AccountPageLimit(requested) as real)) == AccountPageLimit(requested)
    ensures requested.None? || requested.value < 1.0 ==> AccountPageLimit(requested) == ACCOUNT_PAGE_DEFAULT_LIMIT
    ensures requested.Some? && requested.value > ACCOUNT_PAGE_MAX_LIMIT as real ==>
              AccountPageLimit(requested) == ACCOUNT_PAGE_MAX_LIMIT
    ensures requested.Some? && 1.0 <= requested.value <= ACCOUNT_PAGE_MAX_LIMIT as real ==>
              AccountPageLimit(requested) as real <= requested.value < AccountPageLimit(requested) as real + 1.0
  {
  }

  // ---------------------------------------------------------------------
  // The page
  // ---------------------------------------------------------------------

  /** What every request of one listing shares. */
  datatype Scope = Scope(query: Option<Text>, channel: Option<Text>, state: Option<AccountState>)

  datatype Options = Options(scope: Scope, cursor: Option<AccountCursor>, limit: Option<real>)

  datatype AccountCounts = AccountCounts(unlinked: nat, linked: nat, dismissed: nat) {
    function Of(state: AccountState): nat {
      match state
      case Unlinked => unlinked
      case Linked => linked
      case Dismissed => dismissed
    }
  }

  datatype Page = Page(accounts: seq<DirectoryAccount>, nextCursor: Option<Text>, counts: AccountCounts)

  function Filter<T>(s: seq<T>, keep: T -> bool): seq<T> {
    if s == [] then [] else (if keep(s[0]) then [s[0]] else []) + Filter(s[1..], keep)
  }

  function QueryText(scope: Scope): Text {
    if scope.query.Some? then Trim(scope.query.value) else []
  }

  /** An absent or empty channel narrows nothing. */
  function ChannelFilter(scope: Scope): Option<Text> {
    if scope.channel == Some([]) then None else scope.channel
  }

  predicate Admits(u: Unicode, scope: Scope, a: DirectoryAccount) {
    var channel := ChannelFilter(scope);
    (channel.Some? ==> a.channel == channel.value)
    && (QueryText(scope) != [] ==> AccountMatchesQuery(u, a, QueryText(scope), channel.None?))
  }

  function Admitted(u: Unicode, scope: Scope): DirectoryAccount -> bool {
    a => Admits(u, scope, a)
  }

  function StateIs(state: Option<AccountState>): DirectoryAccount -> bool {
    (a: DirectoryAccount) => state.Some? ==> a.state == state.value
  }

  function IsAfter(u: Unicode, cursor: Option<AccountCursor>): DirectoryAccount -> bool {
    a => cursor.Some? ==> IsAfterAccountCursor(u, a, cursor.value)
  }

  /** Everything the query and the channel admit, in the producer's order. */
  function Matching(u: Unicode, directory: seq<DirectoryAccount>, scope: Scope): seq<DirectoryAccount> {
    Filter(directory, Admitted(u, scope))
  }

  function InState(s: seq<DirectoryAccount>, state: Option<AccountState>): seq<DirectoryAccount> {
    Filter(s, StateIs(state))
  }

  function After(u: Unicode, s: seq<DirectoryAccount>, cursor: Option<AccountCursor>): seq<DirectoryAccount> {
    Filter(s, IsAfter(u, cursor))
  }

  /** The first account, in the producer's order, that no position can be rendered for. */
  function FirstRefusal(s: seq<DirectoryAccount>): Option<Refusal> {
    if s == [] then None
    else if AccountCursorOf(s[0]).Err? then Some(AccountCursorOf(s[0]).error)
    else FirstRefusal(s[1..])
  }

  function Insert(u: Unicode, a: DirectoryAccount, s: seq<DirectoryAccount>): seq<DirectoryAccount> {
    if s == [] || CompareAccounts(u, a, s[0]) <= 0 then [a] + s else [s[0]] + Insert(u, a, s[1..])
  }

  /** The stable sort by position. */
  function Sort(u: Unicode, s: seq<DirectoryAccount>): seq<DirectoryAccount> {
    if s == [] then [] else Insert(u, s[0], Sort(u, s[1..]))
  }

  /** The whole of what a client paging this scope is shown. */
  function Listing(u: Unicode, directory: seq<DirectoryAccount>, scope: Scope): seq<DirectoryAccount> {
    InState(Sort(u, Matching(u, directory, scope)), scope.state)
  }

  function CountsOf(matching: seq<DirectoryAccount>): AccountCounts {
    AccountCounts(
      |InState(matching, Some(Unlinked))|,
      |InState(matching, Some(Linked))|,
      |InState(matching, Some(Dismissed))|)
  }

  /** The page cut off the front of what remains, with a cursor when more is left. */
  function PageOf(remaining: seq<DirectoryAccount>, limit: nat, counts: AccountCounts): Result<Page, Refusal> {
    var accounts := if limit < |remaining| then remaining[..limit] else remaining;
    if |remaining| > |accounts| && accounts != [] then
      var next := EncodeAccountCursor(PositionOf(accounts[|accounts| - 1]));
      if next.None? then Err(UriError) else Ok(Page(accounts, next, counts))
    else
      Ok(Page(accounts, None, counts))
  }

  function Slice(u: Unicode, directory: seq<DirectoryAccount>, options: Options): Result<Page, Refusal> {
    var matching := Matching(u, directory, options.scope);
    var refusal := FirstRefusal(matching);
    if refusal.Some? then Err(refusal.value)
    else
      var remaining := After(u, Listing(u, directory, options.scope), options.cursor);
      PageOf(remaining, AccountPageLimit(options.limit), CountsOf(matching))
  }

  lemma FilterFirst<T>(s: seq<T>, keep: T -> bool)
    requires s != []
    ensures Filter(s, keep) == (if keep(s[0]) then [s[0]] else []) + Filter(s[1..], keep)
  {
  }

  lemma {:induction false} FilterAppend<T>(s: seq<T>, t: seq<T>, keep: T -> bool)
    ensures Filter(s + t, keep) == Filter(s, keep) + Filter(t, keep)
  {
    if s == [] {
      assert s + t == t;
    } else {
      var head := if keep(s[0]) then [s[0]] else [];
      assert (s + t)[0] == s[0] && (s + t)[1..] == s[1..] + t;
      FilterFirst(s + t, keep);
      FilterFirst(s, keep);
      FilterAppend(s[1..], t, keep);
      assert head + (Filter(s[1..], keep) + Filter(t, keep)) == (head + Filter(s[1..], keep)) + Filter(t, keep);
    }
  }

  lemma InStateExtend(s: seq<DirectoryAccount>, a: DirectoryAccount, state: AccountState)
    ensures InState(s + [a], Some(state)) == InState(s, Some(state)) + (if a.state == state then [a] else [])
  {
    FilterAppend(s, [a], StateIs(Some(state)));
  }

  method TallyStates(matching: seq<DirectoryAccount>) returns (counts: AccountCounts)
    ensures counts == CountsOf(matching)
  {
    var unlinked, linked, dismissed := 0, 0, 0;
    for i := 0 to |matching|
      invariant AccountCounts(unlinked, linked, dismissed) == CountsOf(matching[..i])
    {
      assert matching[..i + 1] == matching[..i] + [matching[i]];
      InStateExtend(matching[..i], matching[i], Unlinked);
      InStateExtend(matching[..i], matching[i], Linked);
      InStateExtend(matching[..i], matching[i], Dismissed);
      match matching[i].state
      case Unlinked => unlinked := unlinked + 1;
      case Linked => linked := linked + 1;
      case Dismissed => dismissed := dismissed + 1;
    }
    assert matching[..|matching|] == matching;
    counts := AccountCounts(unlinked, linked, dismissed);
  }

  /** The read itself: the tally is a loop, the rest is cut from the sorted listing. */
  method SliceAccountDirectory(u: Unicode, directory: seq<DirectoryAccount>, options: Options)
    returns (page: Result<Page, Refusal>)
    ensures page == Slice(u, directory, options)
  {
    var matching := Matching(u, directory, options.scope);
    var counts := TallyStates(matching);
    var refusal := FirstRefusal(matching);
    if refusal.Some? {
      return Err(refusal.value);
    }
    var ordered := Sort(u, matching);
    var scoped := if options.scope.state.Some? then InState(ordered, options.scope.state) else ordered;
    if options.scope.state.None? {
      FilterKeepsAll(ordered, StateIs(options.scope.state));
    }
    var remaining := if options.cursor.Some? then After(u, scoped, options.cursor) else scoped;
    if options.cursor.None? {
      FilterKeepsAll(scoped, IsAfter(u, options.cursor));
    }
    page := CutPage(remaining, AccountPageLimit(options.limit), counts);
  }

  method CutPage(remaining: seq<DirectoryAccount>, limit: nat, counts: AccountCounts)
    returns (page: Result<Page, Refusal>)
    ensures page == PageOf(remaining, limit, counts)
  {
    var accounts := if limit < |remaining| then remaining[..limit] else remaining;
    var nextCursor: Option<Text> := None;
    if |remaining| > |accounts| && accounts != [] {
      nextCursor := EncodeAccountCursor(PositionOf(accounts[|accounts| - 1]));
      if nextCursor.None? {
        return Err(UriError);
      }
    }
    page := Ok(Page(accounts, nextCursor, counts));
  }

  lemma {:induction false} FilterKeepsAll<T>(s: seq<T>, keep: T -> bool)
    requires forall x :: x in s ==> keep(x)
    ensures Filter(s, keep) == s
  {
    if s != [] {
      assert s == [s[0]] + s[1..];
      FilterKeepsAll(s[1..], keep);
    }
  }
}
