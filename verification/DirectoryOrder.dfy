/** The directory's order, its cursors, and the listing a scope shows in that order. */
module DirectoryOrder {
  import opened Wrappers
  import opened Text
  import opened CursorParts
  import opened AccountDirectory
  import PercentEncoding

  // ---------------------------------------------------------------------
  // Refs
  // ---------------------------------------------------------------------

  lemma FirstColon(channel: Text, rest: Text)
    requires COLON !in channel
    ensures (channel + [COLON] + rest)[|channel|] == COLON
    ensures forall i :: 0 <= i < |channel| ==> (channel + [COLON] + rest)[i] != COLON
  {
    forall i | 0 <= i < |channel|
      ensures (channel + [COLON] + rest)[i] != COLON
    {
      assert (channel + [COLON] + rest)[i] == channel[i];
    }
  }

  /** The part of a ref before its first colon is the channel, whatever the user id holds. */
  lemma AccountRefInjective(c1: Text, u1: Text, c2: Text, u2: Text)
    requires AccountRef(c1, u1).Ok? && AccountRef(c2, u2).Ok?
    ensures AccountRef(c1, u1) == AccountRef(c2, u2) <==> c1 == c2 && u1 == u2
  {
    var r1, r2 := c1 + [COLON] + u1, c2 + [COLON] + u2;
    if r1 == r2 {
      FirstColon(c1, u1);
      FirstColon(c2, u2);
      assert |c1| == |c2|;
      assert c1 == r1[..|c1|] == r2[..|c2|] == c2;
      assert u1 == r1[|c1| + 1..] == r2[|c2| + 1..] == u2;
    }
  }

  /** Where an account has a position, it is its name and its ref. */
  lemma PositionIsNameAndRef(a: DirectoryAccount)
    ensures AccountCursorOf(a).Ok? <==> AccountRef(a.channel, a.channelUserId).Ok?
    ensures AccountCursorOf(a).Ok? ==>
              && AccountCursorOf(a).value == PositionOf(a)
              && PositionOf(a).displayName == a.displayName
              && AccountRef(a.channel, a.channelUserId) == Ok(PositionOf(a).ref)
  {
  }

  /**
   A ref is the channel, a colon and the user id; without a proper channel, and then without a user
   id, there is none.
   */
  lemma AccountRefReads(channel: Text, channelUserId: Text)
    ensures AccountRef(channel, channelUserId) ==
            if channel == [] || (exists i :: 0 <= i < |channel| && channel[i] == 0x3A) then Err(BadChannel)
            else if channelUserId == [] then Err(EmptyUserId)
            else Ok(channel + [0x3A] + channelUserId)
  {
  }

  // ---------------------------------------------------------------------
  // Order
  // ---------------------------------------------------------------------

  lemma CompareDisplayNamesIsTotalPreorder(u: Unicode, a: Text, b: Text, c: Text)
    ensures CompareDisplayNames(u, a, b) == 0 <==> u.nfc(a) == u.nfc(b)
    ensures CompareDisplayNames(u, a, b) == -CompareDisplayNames(u, b, a)
    ensures CompareDisplayNames(u, a, b) <= 0 && CompareDisplayNames(u, b, c) <= 0 ==> CompareDisplayNames(u, a, c) <= 0
    ensures CompareDisplayNames(u, a, b) < 0 <==>
            || Less(u.caseFold(u.nfc(a)), u.caseFold(u.nfc(b)))
            || (u.caseFold(u.nfc(a)) == u.caseFold(u.nfc(b)) && Less(u.nfc(a), u.nfc(b)))
  {
    LessTrichotomy(u.caseFold(u.nfc(a)), u.caseFold(u.nfc(b)));
    LessTrichotomy(u.nfc(a), u.nfc(b));
    var fa, fb, fc := u.caseFold(u.nfc(a)), u.caseFold(u.nfc(b)), u.caseFold(u.nfc(c));
    CompareCodePointsIsTotalOrder(fa, fb, fc);
    CompareCodePointsIsTotalOrder(fb, fc, fa);
    CompareCodePointsIsTotalOrder(fa, fc, fb);
    CompareCodePointsIsTotalOrder(u.nfc(a), u.nfc(b), u.nfc(c));
  }

  lemma CompareAccountCursorsIsTotalPreorder(u: Unicode, a: AccountCursor, b: AccountCursor, c: AccountCursor)
    ensures CompareAccountCursors(u, a, b) == 0 <==> u.nfc(a.displayName) == u.nfc(b.displayName) && a.ref == b.ref
    ensures CompareAccountCursors(u, a, b) == -CompareAccountCursors(u, b, a)
    ensures CompareAccountCursors(u, a, b) <= 0 && CompareAccountCursors(u, b, c) <= 0 ==>
              CompareAccountCursors(u, a, c) <= 0
    ensures CompareAccountCursors(u, a, b) < 0 && CompareAccountCursors(u, b, c) <= 0 ==>
              CompareAccountCursors(u, a, c) < 0
    ensures CompareAccountCursors(u, a, b) <= 0 && CompareAccountCursors(u, b, c) < 0 ==>
              CompareAccountCursors(u, a, c) < 0
    ensures CompareAccountCursors(u, a, b) < 0 <==>
            || CompareDisplayNames(u, a.displayName, b.displayName) < 0
            || (u.nfc(a.displayName) == u.nfc(b.displayName) && Less(a.ref, b.ref))
  {
    LessTrichotomy(a.ref, b.ref);
    CompareDisplayNamesIsTotalPreorder(u, a.displayName, b.displayName, c.displayName);
    CompareDisplayNamesIsTotalPreorder(u, b.displayName, c.displayName, a.displayName);
    CompareDisplayNamesIsTotalPreorder(u, a.displayName, c.displayName, b.displayName);
    CompareCodePointsIsTotalOrder(a.ref, b.ref, c.ref);
    CompareCodePointsIsTotalOrder(b.ref, c.ref, a.ref);
    CompareCodePointsIsTotalOrder(a.ref, c.ref, b.ref);
  }

  /** On accounts the program can name, the order ties only an account with itself. */
  lemma DistinctAccountsNeverTie(u: Unicode, a: DirectoryAccount, b: DirectoryAccount)
    requires AccountCursorOf(a).Ok? && AccountCursorOf(b).Ok?
    requires a.channel != b.channel || a.channelUserId != b.channelUserId
    ensures CompareAccounts(u, a, b) != 0
  {
    AccountRefInjective(a.channel, a.channelUserId, b.channel, b.channelUserId);
    CompareAccountCursorsIsTotalPreorder(u, PositionOf(a), PositionOf(b), PositionOf(a));
  }

  // ---------------------------------------------------------------------
  // Cursor round trip
  // ---------------------------------------------------------------------

  lemma AccountCursorRoundTrip(cursor: AccountCursor)
    requires cursor.ref != []
    ensures EncodeAccountCursor(cursor).Some? <==>
            PercentEncoding.WellFormed(cursor.displayName) && PercentEncoding.WellFormed(cursor.ref)
    ensures EncodeAccountCursor(cursor).Some? ==> ParseAccountCursor(EncodeAccountCursor(cursor)) == Some(cursor)
  {
    var parts := [cursor.displayName, cursor.ref];
    EncodeAllThrows(parts);
    assert parts[0] == cursor.displayName && parts[1] == cursor.ref;
    if EncodeAccountCursor(cursor).Some? {
      DecodePartsOfEncodeParts(parts);
      JoinOfSeveral(EncodeAll(parts).value, PIPE);
    }
  }

  /** A cursor is the escaped name, a bar and the escaped ref. */
  lemma AccountCursorReads(cursor: AccountCursor)
    requires EncodeAccountCursor(cursor).Some?
    ensures PercentEncoding.Encode(cursor.displayName).Some? && PercentEncoding.Encode(cursor.ref).Some?
    ensures EncodeAccountCursor(cursor).value
         == PercentEncoding.Encode(cursor.displayName).value + [0x7C] + PercentEncoding.Encode(cursor.ref).value
  {
    TwoParts(cursor.displayName, cursor.ref);
  }

  /** `text` is two bar-free parts around a bar, which decode to the cursor's, the ref not to nothing. */
  ghost predicate Spells(text: Text, name: Text, ref: Text, cursor: AccountCursor) {
    && PIPE !in name && PIPE !in ref && text == name + [PIPE] + ref
    && PercentEncoding.Decode(name) == Some(cursor.displayName)
    && PercentEncoding.Decode(ref) == Some(cursor.ref) && cursor.ref != []
  }

  /** What `ParseAccountCursor` makes of the two parts of a text. */
  lemma ParsesTwoParts(text: Text, cursor: AccountCursor)
    ensures ParseAccountCursor(Some(text)) == Some(cursor) <==>
            && text != [] && cursor.ref != []
            && |Split(text, PIPE)| == 2 && DecodeAll(Split(text, PIPE)) == Some([cursor.displayName, cursor.ref])
  {
    var parts := DecodeParts(text, 2);
    if parts.Some? {
      assert parts.value == [parts.value[0], parts.value[1]];
    }
  }

  /** Exactly the texts with one bar, between a part that decodes and one that decodes to something, name a position. */
  lemma AccountCursorParsesIff(text: Text, cursor: AccountCursor)
    ensures ParseAccountCursor(Some(text)) == Some(cursor) <==> exists name, ref :: Spells(text, name, ref, cursor)
  {
    ParsesTwoParts(text, cursor);
    var decoded := [cursor.displayName, cursor.ref];
    if ParseAccountCursor(Some(text)) == Some(cursor) {
      var parts := Split(text, PIPE);
      JoinOfSplit(text, PIPE);
      DecodesEach(parts, decoded);
      assert parts == [parts[0], parts[1]] && parts[1..] == [parts[1]];
      assert decoded[0] == cursor.displayName && decoded[1] == cursor.ref;
      assert Spells(text, parts[0], parts[1], cursor);
    }
    if name, ref :| Spells(text, name, ref, cursor) {
      SplitFirst(name, PIPE, ref);
      SplitSingle(ref, PIPE);
      assert [name] + [ref] == [name, ref];
      DecodesEach([name, ref], decoded);
    }
  }

  // ---------------------------------------------------------------------
  // Sorted sequences
  // ---------------------------------------------------------------------

  ghost predicate Sorted(u: Unicode, s: seq<DirectoryAccount>) {
    forall i, j :: 0 <= i < j < |s| ==> CompareAccounts(u, s[i], s[j]) <= 0
  }

  ghost predicate StrictlySorted(u: Unicode, s: seq<DirectoryAccount>) {
    forall i, j :: 0 <= i < j < |s| ==> CompareAccounts(u, s[i], s[j]) < 0
  }

  /** No account is listed twice. */
  ghost predicate DistinctAccounts(s: seq<DirectoryAccount>) {
    forall i, j :: 0 <= i < j < |s| ==> s[i].channel != s[j].channel || s[i].channelUserId != s[j].channelUserId
  }

  /** Every account can be named: a ref can be rendered for it. */
  ghost predicate Nameable(s: seq<DirectoryAccount>) {
    forall a :: a in s ==> AccountCursorOf(a).Ok?
  }

  lemma SortedCons(u: Unicode, a: DirectoryAccount, s: seq<DirectoryAccount>)
    requires Sorted(u, s) && forall x :: x in s ==> CompareAccounts(u, a, x) <= 0
    ensures Sorted(u, [a] + s)
  {
  }

  lemma StrictlySortedCons(u: Unicode, a: DirectoryAccount, s: seq<DirectoryAccount>)
    requires StrictlySorted(u, s) && forall x :: x in s ==> CompareAccounts(u, a, x) < 0
    ensures StrictlySorted(u, [a] + s)
  {
  }

  lemma {:induction false} InsertIsPermutation(u: Unicode, a: DirectoryAccount, s: seq<DirectoryAccount>)
    ensures multiset(Insert(u, a, s)) == multiset{a} + multiset(s)
    ensures forall x :: x in Insert(u, a, s) <==> x == a || x in s
  {
    if s != [] && CompareAccounts(u, a, s[0]) > 0 {
      InsertIsPermutation(u, a, s[1..]);
    }
    assert s != [] ==> s == [s[0]] + s[1..];
  }

  /** An account at or before the head of a sorted sequence is at or before all of it. */
  lemma BeforeHeadBeforeAll(u: Unicode, a: DirectoryAccount, s: seq<DirectoryAccount>)
    requires s != [] && Sorted(u, s) && CompareAccounts(u, a, s[0]) <= 0
    ensures forall x :: x in s ==> CompareAccounts(u, a, x) <= 0
  {
    forall x | x in s
      ensures CompareAccounts(u, a, x) <= 0
    {
      var k :| 0 <= k < |s| && s[k] == x;
      CompareAccountCursorsIsTotalPreorder(u, PositionOf(a), PositionOf(s[0]), PositionOf(x));
    }
  }

  lemma {:induction false} InsertSorts(u: Unicode, a: DirectoryAccount, s: seq<DirectoryAccount>)
    requires Sorted(u, s)
    ensures Sorted(u, Insert(u, a, s))
  {
    if s == [] {
    } else if CompareAccounts(u, a, s[0]) <= 0 {
      BeforeHeadBeforeAll(u, a, s);
      SortedCons(u, a, s);
    } else {
      InsertSorts(u, a, s[1..]);
      InsertIsPermutation(u, a, s[1..]);
      CompareAccountCursorsIsTotalPreorder(u, PositionOf(s[0]), PositionOf(a), PositionOf(a));
      SortedCons(u, s[0], Insert(u, a, s[1..]));
    }
  }

  /** The sort loses nothing, invents nothing, and orders what it has. */
  lemma {:induction false} SortIsSortedPermutation(u: Unicode, s: seq<DirectoryAccount>)
    ensures Sorted(u, Sort(u, s))
    ensures multiset(Sort(u, s)) == multiset(s)
    ensures forall x :: x in Sort(u, s) <==> x in s
  {
    if s != [] {
      var rest := Sort(u, s[1..]);
      SortIsSortedPermutation(u, s[1..]);
      InsertSorts(u, s[0], rest);
      InsertIsPermutation(u, s[0], rest);
      assert multiset(s) == multiset{s[0]} + multiset(s[1..]) by {
        assert s == [s[0]] + s[1..];
      }
      assert forall x :: x in s <==> x in multiset(s);
      assert forall x :: x in Sort(u, s) <==> x in multiset(Sort(u, s));
    }
  }

  /** The accounts of `s` that tie with `at`, in the order `s` has them. */
  function Ties(u: Unicode, s: seq<DirectoryAccount>, at: AccountCursor): seq<DirectoryAccount> {
    if s == [] then []
    else (if CompareAccountCursors(u, PositionOf(s[0]), at) == 0 then [s[0]] else []) + Ties(u, s[1..], at)
  }

  lemma {:induction false} InsertKeepsTies(u: Unicode, a: DirectoryAccount, s: seq<DirectoryAccount>, at: AccountCursor)
    ensures Ties(u, Insert(u, a, s), at) == Ties(u, [a] + s, at)
  {
    if s != [] && CompareAccounts(u, a, s[0]) > 0 {
      var r := Insert(u, a, s);
      assert r[1..] == Insert(u, a, s[1..]);
      InsertKeepsTies(u, a, s[1..], at);
      assert ([a] + s)[1..] == s;
      assert ([a] + s[1..])[1..] == s[1..];
      CompareAccountCursorsIsTotalPreorder(u, PositionOf(a), at, PositionOf(s[0]));
      CompareAccountCursorsIsTotalPreorder(u, PositionOf(s[0]), at, PositionOf(a));
    }
  }

  /** Accounts the order cannot tell apart stay in the producer's order, as `Array.prototype.sort` promises. */
  lemma {:induction false} SortIsStable(u: Unicode, s: seq<DirectoryAccount>, at: AccountCursor)
    ensures Ties(u, Sort(u, s), at) == Ties(u, s, at)
  {
    if s != [] {
      SortIsStable(u, s[1..], at);
      InsertKeepsTies(u, s[0], Sort(u, s[1..]), at);
      assert ([s[0]] + Sort(u, s[1..]))[1..] == Sort(u, s[1..]);
    }
  }

  // ---------------------------------------------------------------------
  // Filters
  // ---------------------------------------------------------------------

  lemma {:induction false} FilterMembers<T>(s: seq<T>, keep: T -> bool)
    ensures forall x :: x in Filter(s, keep) <==> x in s && keep(x)
  {
    if s != [] {
      FilterMembers(s[1..], keep);
      assert s == [s[0]] + s[1..];
    }
  }

  lemma {:induction false} FilterStrictlySorted(u: Unicode, s: seq<DirectoryAccount>, keep: DirectoryAccount -> bool)
    requires StrictlySorted(u, s)
    ensures StrictlySorted(u, Filter(s, keep))
  {
    if s != [] {
      FilterStrictlySorted(u, s[1..], keep);
      FilterMembers(s[1..], keep);
      StrictlySortedCons(u, s[0], Filter(s[1..], keep));
    }
  }

  // ---------------------------------------------------------------------
  // The listing
  // ---------------------------------------------------------------------

  lemma {:induction false} InsertStrict(u: Unicode, a: DirectoryAccount, s: seq<DirectoryAccount>)
    requires StrictlySorted(u, s)
    requires forall x :: x in s ==> CompareAccounts(u, a, x) != 0
    ensures StrictlySorted(u, Insert(u, a, s))
  {
    if s == [] {
    } else if CompareAccounts(u, a, s[0]) <= 0 {
      BeforeHeadBeforeAll(u, a, s);
      StrictlySortedCons(u, a, s);
    } else {
      InsertStrict(u, a, s[1..]);
      InsertIsPermutation(u, a, s[1..]);
      CompareAccountCursorsIsTotalPreorder(u, PositionOf(s[0]), PositionOf(a), PositionOf(a));
      StrictlySortedCons(u, s[0], Insert(u, a, s[1..]));
    }
  }

  lemma {:induction false} SortDistinct(u: Unicode, s: seq<DirectoryAccount>)
    requires DistinctAccounts(s) && Nameable(s)
    ensures StrictlySorted(u, Sort(u, s))
  {
    if s != [] {
      SortDistinct(u, s[1..]);
      SortIsSortedPermutation(u, s[1..]);
      forall x | x in s[1..]
        ensures CompareAccounts(u, s[0], x) != 0
      {
        DistinctAccountsNeverTie(u, s[0], x);
      }
      InsertStrict(u, s[0], Sort(u, s[1..]));
    }
  }

  /** In scope: in the directory, admitted by the query and the channel, and in the state asked for. */
  predicate InScope(u: Unicode, directory: seq<DirectoryAccount>, scope: Scope, a: DirectoryAccount) {
    a in directory && Admits(u, scope, a) && (scope.state.Some? ==> a.state == scope.state.value)
  }

  /**
   What a request asks for: the channel, unless none or an empty one is named; the state, if one is;
   and the query, unless it is blank, which searches the channel's own name only where no channel is
   fixed.
   */
  ghost predicate IsAskedFor(u: Unicode, scope: Scope, a: DirectoryAccount) {
    && (scope.channel.Some? && scope.channel.value != [] ==> a.channel == scope.channel.value)
    && (scope.state.Some? ==> a.state == scope.state.value)
    && (scope.query.Some? && Trim(scope.query.value) != [] ==>
          AccountMatchesQuery(u, a, Trim(scope.query.value), scope.channel.None? || scope.channel.value == []))
  }

  lemma AskedForIsAdmitted(u: Unicode, scope: Scope, a: DirectoryAccount)
    ensures IsAskedFor(u, scope, a) <==> Admits(u, scope, a) && (scope.state.Some? ==> a.state == scope.state.value)
  {
    var anyChannel := scope.channel.None? || scope.channel.value == [];
    assert ChannelFilter(scope) == if anyChannel then None else scope.channel;
    assert QueryText(scope) == if scope.query.Some? then Trim(scope.query.value) else [];
    var query := QueryText(scope);
    assert AccountMatchesQuery(u, a, query, ChannelFilter(scope).None?) == AccountMatchesQuery(u, a, query, anyChannel);
  }

  /** In any directory, the listing holds exactly the accounts of it that the request asks for. */
  lemma ListingHoldsWhatIsAskedFor(u: Unicode, directory: seq<DirectoryAccount>, scope: Scope)
    ensures forall a :: a in Listing(u, directory, scope) <==> a in directory && IsAskedFor(u, scope, a)
  {
    ListingHoldsScope(u, directory, scope);
    forall a: DirectoryAccount
      ensures InScope(u, directory, scope, a) <==> a in directory && IsAskedFor(u, scope, a)
    {
      AskedForIsAdmitted(u, scope, a);
    }
  }

  /** The listing holds exactly what is in scope, in any directory. */
  lemma ListingHoldsScope(u: Unicode, directory: seq<DirectoryAccount>, scope: Scope)
    ensures forall a :: a in Listing(u, directory, scope) <==> InScope(u, directory, scope, a)
  {
    FilterMembers(directory, Admitted(u, scope));
    SortIsSortedPermutation(u, Matching(u, directory, scope));
    FilterMembers(Sort(u, Matching(u, directory, scope)), StateIs(scope.state));
  }

  /** Nobody is held back: the listing is exactly what is in scope, strictly in order. */
  lemma ListingIsScopeInOrder(u: Unicode, directory: seq<DirectoryAccount>, scope: Scope)
    requires DistinctAccounts(Matching(u, directory, scope)) && Nameable(Matching(u, directory, scope))
    ensures StrictlySorted(u, Listing(u, directory, scope))
    ensures forall a :: a in Listing(u, directory, scope) <==> InScope(u, directory, scope, a)
  {
    var matching := Matching(u, directory, scope);
    ListingHoldsScope(u, directory, scope);
    SortDistinct(u, matching);
    FilterStrictlySorted(u, Sort(u, matching), StateIs(scope.state));
  }

  lemma HasMember(t: seq<DirectoryAccount>)
    ensures t != [] ==> exists a :: a in t
  {
    if t != [] {
      assert t[0] in t;
    }
  }

  /** A set of accounts has one strict order. */
  lemma {:induction false} StrictOrderIsUnique(u: Unicode, s: seq<DirectoryAccount>, t: seq<DirectoryAccount>)
    requires StrictlySorted(u, s) && StrictlySorted(u, t)
    requires forall a :: a in s <==> a in t
    ensures s == t
  {
    if s == [] {
      HasMember(t);
    } else {
      assert s[0] in t;
      assert t[0] in s;
      HeadsAgree(u, s, t);
      StrictTail(u, s);
      StrictTail(u, t);
      StrictOrderIsUnique(u, s[1..], t[1..]);
      assert s == [s[0]] + s[1..] && t == [t[0]] + t[1..];
    }
  }

  lemma AtOrAfterHead(u: Unicode, s: seq<DirectoryAccount>, a: DirectoryAccount)
    requires StrictlySorted(u, s) && a in s
    ensures a == s[0] || CompareAccounts(u, s[0], a) < 0
  {
    var i :| 0 <= i < |s| && s[i] == a;
    if i > 0 {
      assert CompareAccounts(u, s[0], s[i]) < 0;
    }
  }

  lemma HeadsAgree(u: Unicode, s: seq<DirectoryAccount>, t: seq<DirectoryAccount>)
    requires StrictlySorted(u, s) && StrictlySorted(u, t) && s != [] && t != []
    requires s[0] in t && t[0] in s
    ensures s[0] == t[0]
  {
    AtOrAfterHead(u, s, t[0]);
    AtOrAfterHead(u, t, s[0]);
    CompareAccountCursorsIsTotalPreorder(u, PositionOf(s[0]), PositionOf(t[0]), PositionOf(s[0]));
  }

  lemma StrictTail(u: Unicode, s: seq<DirectoryAccount>)
    requires StrictlySorted(u, s) && s != []
    ensures StrictlySorted(u, s[1..])
    ensures forall a :: a in s[1..] <==> a in s && a != s[0]
  {
    CompareAccountCursorsIsTotalPreorder(u, PositionOf(s[0]), PositionOf(s[0]), PositionOf(s[0]));
    assert forall a :: a in s <==> a == s[0] || a in s[1..] by {
      assert s == [s[0]] + s[1..];
    }
    forall i | 0 <= i < |s| - 1
      ensures s[1..][i] != s[0]
    {
      assert CompareAccounts(u, s[0], s[i + 1]) < 0;
    }
  }

  /** Two snapshots admit the same accounts, each listing them once, in whatever order. */
  ghost predicate AdmitSame(u: Unicode, d1: seq<DirectoryAccount>, d2: seq<DirectoryAccount>, scope: Scope) {
    && DistinctAccounts(Matching(u, d1, scope)) && Nameable(Matching(u, d1, scope))
    && DistinctAccounts(Matching(u, d2, scope)) && Nameable(Matching(u, d2, scope))
    && forall a :: Admits(u, scope, a) ==> (a in d1 <==> a in d2)
  }

  /** The listing is in the directory's own order, not the producer's. */
  lemma ListingIgnoresProducerOrder(u: Unicode, d1: seq<DirectoryAccount>, d2: seq<DirectoryAccount>, scope: Scope)
    requires AdmitSame(u, d1, d2, scope)
    ensures Listing(u, d1, scope) == Listing(u, d2, scope)
    ensures CountsOf(Matching(u, d1, scope)) == CountsOf(Matching(u, d2, scope))
  {
    var m1, m2 := Matching(u, d1, scope), Matching(u, d2, scope);
    FilterMembers(d1, Admitted(u, scope));
    FilterMembers(d2, Admitted(u, scope));
    SortDistinct(u, m1);
    SortDistinct(u, m2);
    SortIsSortedPermutation(u, m1);
    SortIsSortedPermutation(u, m2);
    StrictOrderIsUnique(u, Sort(u, m1), Sort(u, m2));
    forall state: AccountState
      ensures |InState(m1, Some(state))| == |InState(m2, Some(state))|
    {
      SortCountsKept(u, m1, StateIs(Some(state)));
      SortCountsKept(u, m2, StateIs(Some(state)));
    }
  }

  lemma {:induction false} InsertCountsKept(u: Unicode, a: DirectoryAccount, s: seq<DirectoryAccount>,
                                            keep: DirectoryAccount -> bool)
    ensures |Filter(Insert(u, a, s), keep)| == (if keep(a) then 1 else 0) + |Filter(s, keep)|
  {
    if s != [] && CompareAccounts(u, a, s[0]) > 0 {
      InsertCountsKept(u, a, s[1..], keep);
      assert Insert(u, a, s)[1..] == Insert(u, a, s[1..]);
    } else {
      assert Insert(u, a, s)[1..] == s;
    }
  }

  lemma {:induction false} SortCountsKept(u: Unicode, s: seq<DirectoryAccount>, keep: DirectoryAccount -> bool)
    ensures |Filter(Sort(u, s), keep)| == |Filter(s, keep)|
  {
    if s != [] {
      SortCountsKept(u, s[1..], keep);
      InsertCountsKept(u, s[0], Sort(u, s[1..]), keep);
    }
  }

  /** Each count stands under its own state's name. */
  lemma CountsByName(u: Unicode, directory: seq<DirectoryAccount>, options: Options)
    requires Slice(u, directory, options).Ok?
    ensures var counts, scope := Slice(u, directory, options).value.counts, options.scope;
            && counts.unlinked == |Listing(u, directory, scope.(state := Some(Unlinked)))|
            && counts.linked == |Listing(u, directory, scope.(state := Some(Linked)))|
            && counts.dismissed == |Listing(u, directory, scope.(state := Some(Dismissed)))|
  {
    CountsAreListingSizes(u, directory, options, Unlinked);
    CountsAreListingSizes(u, directory, options, Linked);
    CountsAreListingSizes(u, directory, options, Dismissed);
  }

  /** Narrowing a scope to one state lists exactly as many accounts as any page counts for that state. */
  lemma CountsAreListingSizes(u: Unicode, directory: seq<DirectoryAccount>, options: Options, state: AccountState)
    requires Slice(u, directory, options).Ok?
    ensures Slice(u, directory, options).value.counts.Of(state)
         == |Listing(u, directory, options.scope.(state := Some(state)))|
  {
    var narrowed := options.scope.(state := Some(state));
    SameMatching(u, directory, options.scope, narrowed);
    SortCountsKept(u, Matching(u, directory, narrowed), StateIs(Some(state)));
  }

  /** Narrowing to a state changes nothing the counts are taken over. */
  lemma {:induction false} SameMatching(u: Unicode, directory: seq<DirectoryAccount>, s1: Scope, s2: Scope)
    requires s1.query == s2.query && s1.channel == s2.channel
    ensures Matching(u, directory, s1) == Matching(u, directory, s2)
  {
    if directory != [] {
      SameMatching(u, directory[1..], s1, s2);
      assert Admits(u, s1, directory[0]) == Admits(u, s2, directory[0]);
    }
  }
}
