/** Strings as code points, and where the order by code unit departs from the order by code point. */
module CodePoints {
  import opened Text
  import opened PercentEncoding

  /** A string leads with both halves of a surrogate pair. */
  predicate LeadsWithPair(s: Text) {
    |s| >= 2 && IsHigh(s[0]) && IsLow(s[1])
  }

  function LeadLength(s: Text): (n: nat)
    requires s != []
    ensures 1 <= n <= |s|
  {
    if LeadsWithPair(s) then 2 else 1
  }

  function LeadPoint(s: Text): (cp: int)
    requires s != []
    ensures if LeadsWithPair(s) then cp >= 0x10000 else cp == s[0]
  {
    if LeadsWithPair(s) then PairValue(s[0], s[1]) else s[0]
  }

  /** The code points of a string, as its iterator yields them: a surrogate outside a pair stands for itself. */
  function Points(s: Text): seq<int> {
    if s == [] then [] else [LeadPoint(s)] + Points(s[LeadLength(s)..])
  }

  function CompareByPoints(a: Text, b: Text): int {
    if Points(a) == Points(b) then 0 else if Less(Points(a), Points(b)) then -1 else 1
  }

  /** The unit at `k` is half of a surrogate pair. */
  predicate InPair(s: Text, k: nat)
    requires k < |s|
  {
    (IsHigh(s[k]) && k + 1 < |s| && IsLow(s[k + 1])) || (k > 0 && IsHigh(s[k - 1]) && IsLow(s[k]))
  }

  /** Where two strings first differ, the smaller unit is half of a pair and the larger one is not. */
  ghost predicate CrossAt(a: Text, b: Text, k: nat) {
    && k < |a| && k < |b| && a[..k] == b[..k] && a[k] != b[k]
    && (if a[k] < b[k] then InPair(a, k) && !InPair(b, k) else InPair(b, k) && !InPair(a, k))
  }

  ghost predicate Cross(a: Text, b: Text) {
    exists k: nat :: CrossAt(a, b, k)
  }

  lemma SharedPrefix(a: Text, b: Text, n: nat)
    requires n <= |a| && n <= |b| && a[..n] == b[..n]
    ensures forall i :: 0 <= i < n ==> a[i] == b[i]
  {
    assert forall i :: 0 <= i < n ==> a[i] == a[..n][i] == b[..n][i] == b[i];
  }

  lemma CrossOnlyAtFirstDifference(a: Text, b: Text, d: nat, k: nat)
    requires d < |a| && d < |b| && a[..d] == b[..d] && a[d] != b[d]
    requires CrossAt(a, b, k)
    ensures k == d
  {
    SharedPrefix(a, b, d);
    SharedPrefix(a, b, k);
  }

  /** Nothing crosses where one string ends before any difference. */
  lemma PrefixesDoNotCross(a: Text, b: Text)
    requires a <= b || b <= a
    ensures !Cross(a, b)
  {
    assert forall k: nat :: k < |a| && k < |b| ==> a[k] == b[k];
  }

  /** Whether a unit is half of a pair does not depend on the whole characters before it. */
  lemma InPairShifts(s: Text, k: nat)
    requires s != [] && LeadLength(s) + k < |s|
    ensures InPair(s, LeadLength(s) + k) <==> InPair(s[LeadLength(s)..], k)
  {
  }

  lemma SharedLeadShifts(a: Text, b: Text, n: nat, k: nat)
    requires a != [] && b != [] && n == LeadLength(a) == LeadLength(b) && a[..n] == b[..n]
    ensures CrossAt(a, b, n + k) <==> CrossAt(a[n..], b[n..], k)
  {
    if n + k < |a| && n + k < |b| {
      InPairShifts(a, k);
      InPairShifts(b, k);
      assert a[..n + k] == a[..n] + a[n..][..k] && b[..n + k] == b[..n] + b[n..][..k];
      assert a[n..][..k] == a[..n + k][n..] && b[n..][..k] == b[..n + k][n..];
    }
  }

  /** A leading character both strings share has no say in whether they cross. */
  lemma SharedLeadDrops(a: Text, b: Text, n: nat)
    requires a != [] && b != [] && n == LeadLength(a) == LeadLength(b) && a[..n] == b[..n]
    ensures Cross(a, b) <==> Cross(a[n..], b[n..])
  {
    if k: nat :| CrossAt(a[n..], b[n..], k) {
      SharedLeadShifts(a, b, n, k);
    }
    if k: nat :| CrossAt(a, b, k) {
      SharedPrefix(a, b, n);
      assert k >= n;
      SharedLeadShifts(a, b, n, k - n);
    }
  }

  /** Strings that part within their first character. */
  lemma LeadsDiffer(a: Text, b: Text)
    requires a != [] && b != [] && a[..LeadLength(a)] != b[..LeadLength(b)]
    ensures LeadPoint(a) != LeadPoint(b)
    ensures LeadPoint(a) < LeadPoint(b) <==> if Cross(a, b) then Less(b, a) else Less(a, b)
  {
    if a[0] != b[0] {
      forall k: nat | CrossAt(a, b, k)
        ensures k == 0
      {
        CrossOnlyAtFirstDifference(a, b, 0, k);
      }
      assert Cross(a, b) <==> CrossAt(a, b, 0);
    } else if |a| >= 2 && |b| >= 2 {
      assert a[..1] == [a[0]] == b[..1];
      assert a[..2] == [a[0], a[1]] && b[..2] == [b[0], b[1]];
      forall k: nat | CrossAt(a, b, k)
        ensures k == 1
      {
        CrossOnlyAtFirstDifference(a, b, 1, k);
      }
      assert Cross(a, b) <==> CrossAt(a, b, 1);
      assert Less(a, b) <==> a[1] < b[1] by {
        assert a[1..][0] == a[1] && b[1..][0] == b[1];
      }
      assert Less(b, a) <==> b[1] < a[1] by {
        assert a[1..][0] == a[1] && b[1..][0] == b[1];
      }
    } else {
      assert a[..1] == [a[0]] == b[..1];
      PrefixesDoNotCross(a, b);
    }
  }

  /**
   On any two strings, lone surrogates included, the two orders disagree exactly where a pair
   crosses a larger single unit.
   */
  lemma {:induction false} PointsCompare(a: Text, b: Text)
    ensures a != b ==> Points(a) != Points(b)
    ensures Less(Points(a), Points(b)) <==> if Cross(a, b) then Less(b, a) else Less(a, b)
  {
    if a == [] || b == [] {
      PrefixesDoNotCross(a, b);
    } else if a[..LeadLength(a)] != b[..LeadLength(b)] {
      LeadsDiffer(a, b);
      assert Points(a)[0] == LeadPoint(a) && Points(b)[0] == LeadPoint(b);
    } else {
      var n := LeadLength(a);
      assert n == |a[..LeadLength(a)]| == |b[..LeadLength(b)]| == LeadLength(b);
      SharedLeadDrops(a, b, n);
      PointsCompare(a[n..], b[n..]);
      SharedLeadCompares(a, b, n);
      SharedLeadCompares(b, a, n);
      assert Points(a)[1..] == Points(a[n..]) && Points(b)[1..] == Points(b[n..]);
      assert a == a[..n] + a[n..] && b == a[..n] + b[n..];
    }
  }

  lemma SharedLeadCompares(a: Text, b: Text, n: nat)
    requires 1 <= n <= 2 && n <= |a| && n <= |b| && a[..n] == b[..n]
    ensures Less(a, b) <==> Less(a[n..], b[n..])
  {
    SharedPrefix(a, b, n);
    if n == 2 {
      assert a[1..][1..] == a[2..] && b[1..][1..] == b[2..];
    }
  }

  /**
   Strings compare by code point, as documented, exactly when they do not cross; and only equal
   strings have equal points.
   */
  lemma ComparesByPointIff(a: Text, b: Text)
    ensures Points(a) == Points(b) <==> a == b
    ensures CompareCodePoints(a, b) == CompareByPoints(a, b) <==> !Cross(a, b)
  {
    PointsCompare(a, b);
    LessTrichotomy(a, b);
    if a == b {
      PrefixesDoNotCross(a, b);
    }
  }

  /** In well-formed text, a crossing is a surrogate against a unit from U+E000 on. */
  lemma WellFormedCrossing(a: Text, b: Text, k: nat)
    requires WellFormed(a) && WellFormed(b)
    requires k < |a| && k < |b| && a[..k] == b[..k] && a[k] != b[k]
    ensures CrossAt(a, b, k) <==>
            ((IsHigh(a[k]) || IsLow(a[k])) && b[k] >= 0xE000) || ((IsHigh(b[k]) || IsLow(b[k])) && a[k] >= 0xE000)
  {
    assert PairedAt(a, k) && PairedAt(b, k);
  }

  /** U+1F600 comes before U+FF5E, the smaller code point. */
  lemma UnitOrderIsNotPointOrder()
    ensures CompareCodePoints([0xD83D, 0xDE00], [0xFF5E]) < 0
    ensures Points([0xD83D, 0xDE00]) == [0x1F600] && Points([0xFF5E]) == [0xFF5E]
    ensures CompareByPoints([0xD83D, 0xDE00], [0xFF5E]) > 0
  {
    assert Points([0xD83D, 0xDE00]) == [0x1F600] by {
      assert [0xD83D, 0xDE00][2..] == [];
    }
    assert [0xFF5E][1..] == [];
  }
}
