/** JavaScript strings: sequences of UTF-16 code units, ordered the way `<` orders them. */
module Text {
  type CodeUnit = u: int | 0 <= u < 0x1_0000

  type Text = seq<CodeUnit>

  const SPACE: CodeUnit := 0x20
  const HYPHEN: CodeUnit := 0x2D
  const COLON: CodeUnit := 0x3A
  const PIPE: CodeUnit := 0x7C

  predicate IsDigit(u: CodeUnit) {
    0x30 <= u <= 0x39
  }

  /** The code units of an ASCII text. */
  function Ascii(s: string): (t: Text)
    requires forall i :: 0 <= i < |s| ==> s[i] as int < 0x80
    ensures |t| == |s|
    ensures forall i :: 0 <= i < |s| ==> t[i] == s[i] as int
  {
    seq(|s|, i requires 0 <= i < |s| => s[i] as int)
  }

  // ---------------------------------------------------------------------
  // Order
  // ---------------------------------------------------------------------

  /** Lexicographic order: the `<` of two strings when it is over their code units. */
  predicate Less(a: seq<int>, b: seq<int>) {
    b != [] && (a == [] || a[0] < b[0] || (a[0] == b[0] && Less(a[1..], b[1..])))
  }

  function CompareCodePoints(a: Text, b: Text): int {
    if a == b then 0 else if Less(a, b) then -1 else 1
  }

  /** Where two strings first part ways. */
  ghost predicate DivergeAt(a: Text, b: Text, k: nat) {
    k <= |a| && k < |b| && a[..k] == b[..k] && (k == |a| || a[k] < b[k])
  }

  lemma FirstUnitsAgree(a: Text, b: Text, k: nat)
    requires DivergeAt(a, b, k)
    ensures k > 0 ==> a[0] == b[0]
  {
    if k > 0 {
      assert a[0] == a[..k][0] == b[..k][0] == b[0];
    }
  }

  lemma {:induction false} LessAtDivergence(a: Text, b: Text)
    ensures Less(a, b) <==> exists k: nat :: DivergeAt(a, b, k)
  {
    if a == [] || b == [] || a[0] != b[0] {
      if Less(a, b) {
        assert DivergeAt(a, b, 0);
      }
      forall k: nat | DivergeAt(a, b, k)
        ensures Less(a, b)
      {
        FirstUnitsAgree(a, b, k);
      }
    } else {
      LessAtDivergence(a[1..], b[1..]);
      if Less(a, b) {
        var k: nat :| DivergeAt(a[1..], b[1..], k);
        assert a[..k + 1] == [a[0]] + a[1..][..k];
        assert b[..k + 1] == [b[0]] + b[1..][..k];
        assert DivergeAt(a, b, k + 1);
      }
      forall k: nat | DivergeAt(a, b, k)
        ensures Less(a, b)
      {
        assert k > 0;
        assert a[1..][..k - 1] == a[..k][1..] == b[..k][1..] == b[1..][..k - 1];
        assert DivergeAt(a[1..], b[1..], k - 1);
      }
    }
  }

  lemma {:induction false} LessTrichotomy(a: seq<int>, b: seq<int>)
    ensures a == b ==> !Less(a, b)
    ensures a != b ==> Less(a, b) != Less(b, a)
  {
    if a != [] && b != [] && a[0] == b[0] {
      LessTrichotomy(a[1..], b[1..]);
      assert a == [a[0]] + a[1..] && b == [b[0]] + b[1..];
    }
  }

  lemma {:induction false} LessTransitive(a: seq<int>, b: seq<int>, c: seq<int>)
    requires Less(a, b) && Less(b, c)
    ensures Less(a, c)
  {
    if a != [] && a[0] == b[0] == c[0] {
      LessTransitive(a[1..], b[1..], c[1..]);
    }
  }

  lemma CompareCodePointsIsTotalOrder(a: Text, b: Text, c: Text)
    ensures CompareCodePoints(a, b) == 0 <==> a == b
    ensures CompareCodePoints(a, b) == -CompareCodePoints(b, a)
    ensures CompareCodePoints(a, b) <= 0 && CompareCodePoints(b, c) <= 0 ==> CompareCodePoints(a, c) <= 0
  {
    LessTrichotomy(a, b);
    LessTrichotomy(b, c);
    LessTrichotomy(a, c);
    if Less(a, b) && Less(b, c) {
      LessTransitive(a, b, c);
    }
  }

  // ---------------------------------------------------------------------
  // Searching and cutting
  // ---------------------------------------------------------------------

  /** `haystack.includes(needle)`. */
  predicate Includes(haystack: Text, needle: Text) {
    exists k :: 0 <= k <= |haystack| && needle <= haystack[k..]
  }

  function Split<T(==)>(s: seq<T>, separator: T): (parts: seq<seq<T>>)
    ensures |parts| >= 1
  {
    if s == [] then [[]]
    else
      var rest := Split(s[1..], separator);
      if s[0] == separator then [[]] + rest else [[s[0]] + rest[0]] + rest[1..]
  }

  function Join<T>(parts: seq<seq<T>>, separator: T): seq<T> {
    if parts == [] then []
    else if |parts| == 1 then parts[0]
    else parts[0] + [separator] + Join(parts[1..], separator)
  }

  lemma {:induction false} SplitSingle<T>(part: seq<T>, separator: T)
    requires separator !in part
    ensures Split(part, separator) == [part]
  {
    if part != [] {
      SplitSingle(part[1..], separator);
      assert [part[0]] + part[1..] == part;
    }
  }

  lemma {:induction false} SplitFirst<T>(part: seq<T>, separator: T, rest: seq<T>)
    requires separator !in part
    ensures Split(part + [separator] + rest, separator) == [part] + Split(rest, separator)
  {
    var s := part + [separator] + rest;
    if part == [] {
      assert s[1..] == rest;
    } else {
      assert s[1..] == part[1..] + [separator] + rest;
      SplitFirst(part[1..], separator, rest);
      assert [part[0]] + part[1..] == part;
    }
  }

  lemma {:induction false} SplitOfJoin<T>(parts: seq<seq<T>>, separator: T)
    requires |parts| >= 1
    requires forall i :: 0 <= i < |parts| ==> separator !in parts[i]
    ensures Split(Join(parts, separator), separator) == parts
  {
    if |parts| == 1 {
      SplitSingle(parts[0], separator);
    } else {
      SplitFirst(parts[0], separator, Join(parts[1..], separator));
      SplitOfJoin(parts[1..], separator);
    }
  }

  /** Splitting takes a text apart at every separator and nowhere else. */
  lemma {:induction false} JoinOfSplit<T>(s: seq<T>, separator: T)
    ensures Join(Split(s, separator), separator) == s
    ensures forall part :: part in Split(s, separator) ==> separator !in part
  {
    if s != [] {
      JoinOfSplit(s[1..], separator);
      var rest := Split(s[1..], separator);
      assert s == [s[0]] + s[1..];
      if s[0] == separator {
        assert ([[]] + rest)[1..] == rest;
      } else {
        assert ([[s[0]] + rest[0]] + rest[1..])[1..] == rest[1..];
        if |rest| > 1 {
          assert Join(rest, separator) == rest[0] + [separator] + Join(rest[1..], separator);
        }
      }
    }
  }

  // ---------------------------------------------------------------------
  // White space
  // ---------------------------------------------------------------------

  /** WhiteSpace and LineTerminator of ECMA-262, which `trim` and `\s` share. */
  predicate IsSpace(u: CodeUnit) {
    0x09 <= u <= 0x0D || u == 0x20 || u == 0xA0 || u == 0x1680 || 0x2000 <= u <= 0x200A
    || u == 0x2028 || u == 0x2029 || u == 0x202F || u == 0x205F || u == 0x3000 || u == 0xFEFF
  }

  function TrimStart(s: Text): (t: Text)
    ensures t == [] || !IsSpace(t[0])
    ensures |t| <= |s| && t == s[|s| - |t|..]
  {
    if s != [] && IsSpace(s[0]) then TrimStart(s[1..]) else s
  }

  function TrimEnd(s: Text): (t: Text)
    ensures t == [] || !IsSpace(t[|t| - 1])
    ensures t <= s
  {
    if s != [] && IsSpace(s[|s| - 1]) then TrimEnd(s[..|s| - 1]) else s
  }

  function Trim(s: Text): Text {
    TrimEnd(TrimStart(s))
  }

  /** Trimming drops white space and nothing else. */
  lemma {:induction false} TrimStartDropsSpace(s: Text)
    ensures forall i :: 0 <= i < |s| - |TrimStart(s)| ==> IsSpace(s[i])
  {
    if s != [] && IsSpace(s[0]) {
      TrimStartDropsSpace(s[1..]);
      assert forall i :: 1 <= i < |s| ==> s[i] == s[1..][i - 1];
    }
  }

  lemma {:induction false} TrimEndDropsSpace(s: Text)
    ensures forall i :: |TrimEnd(s)| <= i < |s| ==> IsSpace(s[i])
  {
    if s != [] && IsSpace(s[|s| - 1]) {
      TrimEndDropsSpace(s[..|s| - 1]);
    }
  }

  /** `s.replace(/\s+/g, unit)`: every maximal run of white space becomes one `unit`. */
  function ReplaceSpaceRuns(s: Text, unit: CodeUnit): Text {
    if s == [] then []
    else if !IsSpace(s[0]) then [s[0]] + ReplaceSpaceRuns(s[1..], unit)
    else if |s| > 1 && IsSpace(s[1]) then ReplaceSpaceRuns(s[1..], unit)
    else [unit] + ReplaceSpaceRuns(s[1..], unit)
  }
}
