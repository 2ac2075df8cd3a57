/** What a typed query finds in the directory. */
module DirectorySearch {
  import opened Text
  import opened AccountDirectory

  // ---------------------------------------------------------------------
  // Joined fields
  // ---------------------------------------------------------------------

  ghost predicate FoundAt(text: Text, needle: Text, k: nat) {
    k <= |text| && needle <= text[k..]
  }

  function Spaces(t: Text): nat {
    if t == [] then 0 else (if t[0] == SPACE then 1 else 0) + Spaces(t[1..])
  }

  /** The needle is found within `fields[i..j]`, joined, and these are no more than its spaces can bridge. */
  ghost predicate FoundAmong(fields: seq<Text>, needle: Text, i: nat, j: nat) {
    i < j <= |fields| && j - i <= 1 + Spaces(needle) && Includes(Join(fields[i..j], SPACE), needle)
  }

  lemma {:induction false} SpacesJoin(a: Text, b: Text)
    ensures Spaces(a + b) == Spaces(a) + Spaces(b)
  {
    if a == [] {
      assert a + b == b;
    } else {
      assert (a + b)[0] == a[0] && (a + b)[1..] == a[1..] + b;
      SpacesJoin(a[1..], b);
    }
  }

  lemma JoinCons(fields: seq<Text>)
    requires |fields| > 1
    ensures Join(fields, SPACE) == fields[0] + [SPACE] + Join(fields[1..], SPACE)
  {
  }

  /** A few leading fields, joined, begin the whole. */
  lemma {:induction false} JoinOfFirst(fields: seq<Text>, j: nat)
    requires 0 < j <= |fields|
    ensures Join(fields[..j], SPACE) <= Join(fields, SPACE)
  {
    if j == |fields| {
      assert fields[..j] == fields;
    } else {
      JoinCons(fields);
      if j == 1 {
        assert fields[..1] == [fields[0]];
      } else {
        JoinCons(fields[..j]);
        assert fields[..j][1..] == fields[1..][..j - 1];
        JoinOfFirst(fields[1..], j - 1);
      }
    }
  }

  lemma FoundInMore(part: Text, before: Text, after: Text, needle: Text)
    requires Includes(part, needle)
    ensures Includes(before + part + after, needle)
  {
    var k :| 0 <= k <= |part| && needle <= part[k..];
    assert (before + part + after)[|before| + k..] == part[k..] + after;
  }

  lemma FoundInFirst(fields: seq<Text>, needle: Text, j: nat)
    requires 0 < j <= |fields| && Includes(Join(fields[..j], SPACE), needle)
    ensures Includes(Join(fields, SPACE), needle)
  {
    var part, whole := Join(fields[..j], SPACE), Join(fields, SPACE);
    JoinOfFirst(fields, j);
    assert whole == [] + part + whole[|part|..];
    FoundInMore(part, [], whole[|part|..], needle);
  }

  lemma FoundInRest(fields: seq<Text>, needle: Text)
    requires |fields| > 1 && Includes(Join(fields[1..], SPACE), needle)
    ensures Includes(Join(fields, SPACE), needle)
  {
    JoinCons(fields);
    var rest := Join(fields[1..], SPACE);
    assert Join(fields, SPACE) == (fields[0] + [SPACE]) + rest + [];
    FoundInMore(rest, fields[0] + [SPACE], [], needle);
  }

  lemma {:induction false} FoundInSuffix(fields: seq<Text>, needle: Text, i: nat)
    requires i < |fields| && Includes(Join(fields[i..], SPACE), needle)
    ensures Includes(Join(fields, SPACE), needle)
  {
    if i == 0 {
      assert fields[0..] == fields;
    } else {
      var before := fields[i - 1..];
      assert before[1..] == fields[i..];
      FoundInRest(before, needle);
      FoundInSuffix(fields, needle, i - 1);
    }
  }

  lemma FoundInSlice(fields: seq<Text>, needle: Text, i: nat, j: nat, slice: seq<Text>)
    requires i < j <= |fields| && slice == fields[i..j] && Includes(Join(slice, SPACE), needle)
    ensures Includes(Join(fields, SPACE), needle)
  {
    assert slice == fields[i..][..j - i];
    FoundInFirst(fields[i..], needle, j - i);
    FoundInSuffix(fields, needle, i);
  }

  lemma FoundAmongIsFound(fields: seq<Text>, needle: Text, i: nat, j: nat)
    requires FoundAmong(fields, needle, i, j)
    ensures Includes(Join(fields, SPACE), needle)
  {
    FoundInSlice(fields, needle, i, j, fields[i..j]);
  }

  /** A needle that fits into what is left of the first field. */
  lemma FitsInFirst(fields: seq<Text>, needle: Text, k: nat)
    requires fields != [] && k <= |fields[0]| && FoundAt(Join(fields, SPACE), needle, k)
    requires |needle| <= |fields[0]| - k || |fields| == 1
    ensures FoundAt(Join(fields[..1], SPACE), needle, k)
  {
    var first := fields[0];
    assert fields[..1] == [first];
    if |fields| > 1 {
      JoinCons(fields);
      assert Join(fields, SPACE)[k..] == first[k..] + ([SPACE] + Join(fields[1..], SPACE));
      assert needle == first[k..][..|needle|];
    }
  }

  /** A longer needle goes on with a space and then from the start of the next field. */
  lemma GoesOn(first: Text, rest: Text, needle: Text, k: nat) returns (tail: Text)
    requires k <= |first| && |needle| > |first| - k
    requires FoundAt(first + [SPACE] + rest, needle, k)
    ensures needle == (first[k..] + [SPACE]) + tail && |tail| < |needle|
    ensures FoundAt(rest, tail, 0) && Spaces(needle) >= 1 + Spaces(tail)
  {
    tail := needle[|first| - k + 1..];
    assert (first + [SPACE] + rest)[k..] == (first[k..] + [SPACE]) + rest;
    assert needle == (first[k..] + [SPACE]) + tail;
    SpacesJoin(first[k..] + [SPACE], tail);
    SpacesJoin(first[k..], [SPACE]);
  }

  /** Found from within the first field on, a needle ends within as many more fields as it has spaces. */
  lemma {:induction false} FoundFromFirst(fields: seq<Text>, needle: Text, k: nat) returns (j: nat)
    requires fields != [] && k <= |fields[0]| && FoundAt(Join(fields, SPACE), needle, k)
    ensures 0 < j <= |fields| && j <= 1 + Spaces(needle) && FoundAt(Join(fields[..j], SPACE), needle, k)
  {
    var first := fields[0];
    if |needle| <= |first| - k || |fields| == 1 {
      j := 1;
      FitsInFirst(fields, needle, k);
    } else {
      JoinCons(fields);
      var tail := GoesOn(first, Join(fields[1..], SPACE), needle, k);
      var more := FoundFromFirst(fields[1..], tail, 0);
      j := more + 1;
      JoinCons(fields[..j]);
      assert fields[..j][1..] == fields[1..][..more];
      assert Join(fields[..j], SPACE)[k..] == (first[k..] + [SPACE]) + Join(fields[1..][..more], SPACE);
    }
  }

  lemma {:induction false} FoundIsFoundAmong(fields: seq<Text>, needle: Text, k: nat) returns (i: nat, j: nat)
    requires fields != [] && FoundAt(Join(fields, SPACE), needle, k)
    ensures FoundAmong(fields, needle, i, j)
  {
    if k <= |fields[0]| {
      j := FoundFromFirst(fields, needle, k);
      i := 0;
      assert fields[0..j] == fields[..j];
    } else {
      JoinCons(fields);
      var at := k - |fields[0]| - 1;
      assert Join(fields, SPACE)[k..] == Join(fields[1..], SPACE)[at..];
      i, j := FoundIsFoundAmong(fields[1..], needle, at);
      assert fields[1..][i..j] == fields[i + 1..j + 1];
      i, j := i + 1, j + 1;
    }
  }

  lemma FoundAmongIff(fields: seq<Text>, needle: Text)
    requires fields != []
    ensures Includes(Join(fields, SPACE), needle) <==> exists i, j :: FoundAmong(fields, needle, i, j)
  {
    if Includes(Join(fields, SPACE), needle) {
      var k :| 0 <= k <= |Join(fields, SPACE)| && needle <= Join(fields, SPACE)[k..];
      var i, j := FoundIsFoundAmong(fields, needle, k);
    }
    if i, j :| FoundAmong(fields, needle, i, j) {
      FoundAmongIsFound(fields, needle, i, j);
    }
  }

  // ---------------------------------------------------------------------
  // Queries
  // ---------------------------------------------------------------------

  /** Everything about a row that its search reads, in the order it is joined. */
  function Searchable(a: DirectoryAccount, matchChannel: bool): seq<Text> {
    [a.displayName, if a.personName.Some? then a.personName.value else []]
    + (if matchChannel then [a.channel] else []) + a.addresses
  }

  function Fold(u: Unicode, t: Text): Text {
    u.caseFold(u.nfc(t))
  }

  function FoldAll(u: Unicode, fields: seq<Text>): (folded: seq<Text>)
    ensures |folded| == |fields|
    ensures forall i :: 0 <= i < |fields| ==> folded[i] == Fold(u, fields[i])
  {
    seq(|fields|, i requires 0 <= i < |fields| => Fold(u, fields[i]))
  }

  /** Folding fields joined by spaces is folding each: nothing composes with a space. */
  ghost predicate FoldsFieldwise(u: Unicode, fields: seq<Text>) {
    Fold(u, Join(fields, SPACE)) == Join(FoldAll(u, fields), SPACE)
  }

  /**
   Where folding works field by field, a query finds exactly the rows that hold it, folded, across
   at most one more adjacent field than it has spaces.
   */
  lemma QueryFindsAdjacentFields(u: Unicode, a: DirectoryAccount, query: Text, matchChannel: bool)
    requires FoldsFieldwise(u, Searchable(a, matchChannel))
    ensures var q := u.caseFold(Trim(u.nfc(query)));
            AccountMatchesQuery(u, a, query, matchChannel) <==>
            q == [] || exists i, j :: FoundAmong(FoldAll(u, Searchable(a, matchChannel)), q, i, j)
  {
    FoundAmongIff(FoldAll(u, Searchable(a, matchChannel)), u.caseFold(Trim(u.nfc(query))));
  }

  lemma {:induction false} NoSpaces(t: Text)
    ensures Spaces(t) == 0 <==> SPACE !in t
  {
    if t != [] {
      NoSpaces(t[1..]);
      assert t == [t[0]] + t[1..];
    }
  }

  lemma WithoutSpacesOneField(fields: seq<Text>, needle: Text)
    requires SPACE !in needle
    ensures (exists i, j :: FoundAmong(fields, needle, i, j)) <==>
            exists i :: 0 <= i < |fields| && Includes(fields[i], needle)
  {
    NoSpaces(needle);
    if i: nat, j: nat :| FoundAmong(fields, needle, i, j) {
      assert fields[i..j] == [fields[i]];
    }
    if i: nat :| i < |fields| && Includes(fields[i], needle) {
      assert fields[i..i + 1] == [fields[i]];
      assert FoundAmong(fields, needle, i, i + 1);
    }
  }

  /** So a query of one word finds exactly the rows with the word, folded, in a single field. */
  lemma OneWordQueryFindsFields(u: Unicode, a: DirectoryAccount, query: Text, matchChannel: bool)
    requires FoldsFieldwise(u, Searchable(a, matchChannel))
    requires var q := u.caseFold(Trim(u.nfc(query))); q != [] && SPACE !in q
    ensures var q, fields := u.caseFold(Trim(u.nfc(query))), FoldAll(u, Searchable(a, matchChannel));
            AccountMatchesQuery(u, a, query, matchChannel) <==>
            exists i :: 0 <= i < |fields| && Includes(fields[i], q)
  {
    QueryFindsAdjacentFields(u, a, query, matchChannel);
    WithoutSpacesOneField(FoldAll(u, Searchable(a, matchChannel)), u.caseFold(Trim(u.nfc(query))));
  }
}
