/**
 `encodeURIComponent` and `decodeURIComponent` (section 19.2.6 of ECMA-262) over UTF-16 text:
 surrogate pairs become scalar values, scalar values become UTF-8 octets, and every octet
 outside the unreserved set becomes a percent triplet (section 2.1 of RFC 3986).
 */
module PercentEncoding {
  import opened Wrappers
  import opened Text

  const PERCENT: CodeUnit := 0x25

  type Octet = b: int | 0 <= b < 0x100

  /** The characters `encodeURIComponent` leaves alone: A-Z a-z 0-9 - _ . ! ~ * ' ( ) */
  predicate Unreserved(u: CodeUnit) {
    0x41 <= u <= 0x5A || 0x61 <= u <= 0x7A || IsDigit(u)
    || u == 0x2D || u == 0x5F || u == 0x2E || u == 0x21 || u == 0x7E
    || u == 0x2A || u == 0x27 || u == 0x28 || u == 0x29
  }

  predicate IsHigh(u: int) {
    0xD800 <= u <= 0xDBFF
  }

  predicate IsLow(u: int) {
    0xDC00 <= u <= 0xDFFF
  }

  predicate IsScalar(cp: int) {
    0 <= cp <= 0x10FFFF && !(0xD800 <= cp <= 0xDFFF)
  }

  // ---------------------------------------------------------------------
  // Scalar values, as code units and as octets
  // ---------------------------------------------------------------------

  function PairValue(high: CodeUnit, low: CodeUnit): (cp: int)
    requires IsHigh(high) && IsLow(low)
    ensures 0x10000 <= cp <= 0x10FFFF
  {
    (high - 0xD800) * 0x400 + (low - 0xDC00) + 0x10000
  }

  function Utf16(cp: int): Text
    requires IsScalar(cp)
  {
    if cp < 0x10000 then [cp]
    else [0xD800 + (cp - 0x10000) / 0x400, 0xDC00 + (cp - 0x10000) % 0x400]
  }

  function Utf8(cp: int): seq<Octet>
    requires IsScalar(cp)
  {
    if cp < 0x80 then [cp]
    else if cp < 0x800 then [0xC0 + cp / 0x40, 0x80 + cp % 0x40]
    else if cp < 0x10000 then [0xE0 + cp / 0x1000, 0x80 + cp / 0x40 % 0x40, 0x80 + cp % 0x40]
    else [0xF0 + cp / 0x40000, 0x80 + cp / 0x1000 % 0x40, 0x80 + cp / 0x40 % 0x40, 0x80 + cp % 0x40]
  }

  /** How many octets a leading octet announces, or 0 when it may not lead. */
  function SequenceLength(b: Octet): (n: nat)
    ensures n <= 4
  {
    if b < 0x80 then 1
    else if 0xC0 <= b < 0xE0 then 2
    else if 0xE0 <= b < 0xF0 then 3
    else if 0xF0 <= b < 0xF8 then 4
    else 0
  }

  predicate IsContinuation(b: Octet) {
    0x80 <= b < 0xC0
  }

  /** The scalar value of one whole UTF-8 sequence, refusing overlong forms and surrogates. */
  function ScalarOf(bs: seq<Octet>): (cp: Option<int>)
    ensures cp.Some? ==> IsScalar(cp.value)
  {
    if |bs| == 0 || |bs| != SequenceLength(bs[0]) then None
    else if !forall i :: 1 <= i < |bs| ==> IsContinuation(bs[i]) then None
    else
      var cp := Assembled(bs);
      if IsScalar(cp) && |Utf8(cp)| == |bs| then Some(cp) else None
  }

  /** The payload bits of a UTF-8 sequence, put together. */
  function Assembled(bs: seq<Octet>): int
    requires 1 <= |bs| <= 4
  {
    var b0: int, b1: int := bs[0], if |bs| > 1 then bs[1] else 0;
    var b2: int, b3: int := if |bs| > 2 then bs[2] else 0, if |bs| > 3 then bs[3] else 0;
    if |bs| == 1 then b0
    else if |bs| == 2 then (b0 - 0xC0) * 0x40 + (b1 - 0x80)
    else if |bs| == 3 then (b0 - 0xE0) * 0x1000 + (b1 - 0x80) * 0x40 + (b2 - 0x80)
    else (b0 - 0xF0) * 0x40000 + (b1 - 0x80) * 0x1000 + (b2 - 0x80) * 0x40 + (b3 - 0x80)
  }

  lemma AssembledUtf8(cp: int)
    requires IsScalar(cp)
    ensures Assembled(Utf8(cp)) == cp
  {
    assert cp == cp / 0x40 * 0x40 + cp % 0x40;
    assert cp / 0x40 == cp / 0x40 / 0x40 * 0x40 + cp / 0x40 % 0x40;
    assert cp / 0x40 / 0x40 == cp / 0x1000;
    assert cp / 0x1000 == cp / 0x1000 / 0x40 * 0x40 + cp / 0x1000 % 0x40;
    assert cp / 0x1000 / 0x40 == cp / 0x40000;
  }

  lemma Utf8RoundTrip(cp: int)
    requires IsScalar(cp)
    ensures ScalarOf(Utf8(cp)) == Some(cp)
  {
    AssembledUtf8(cp);
    var bs := Utf8(cp);
    assert |bs| == SequenceLength(bs[0]);
    assert forall i :: 1 <= i < |bs| ==> IsContinuation(bs[i]);
  }

  lemma Utf16OfPair(high: CodeUnit, low: CodeUnit)
    requires IsHigh(high) && IsLow(low)
    ensures Utf16(PairValue(high, low)) == [high, low]
  {
  }

  // ---------------------------------------------------------------------
  // Percent triplets
  // ---------------------------------------------------------------------

  function HexUnit(n: int): CodeUnit
    requires 0 <= n < 16
  {
    if n < 10 then 0x30 + n else 0x41 + n - 10
  }

  function HexValue(u: CodeUnit): (n: Option<int>)
    ensures n.Some? ==> 0 <= n.value < 16
  {
    if IsDigit(u) then Some(u - 0x30)
    else if 0x41 <= u <= 0x46 then Some(u - 0x41 + 10)
    else if 0x61 <= u <= 0x66 then Some(u - 0x61 + 10)
    else None
  }

  function Triplet(b: Octet): Text {
    [PERCENT, HexUnit(b / 16), HexUnit(b % 16)]
  }

  function Triplets(bs: seq<Octet>): (t: Text)
    ensures |t| == 3 * |bs|
  {
    if bs == [] then [] else Triplet(bs[0]) + Triplets(bs[1..])
  }

  /** The octets of the first `n` percent triplets of `s`. */
  function OctetsAt(s: Text, n: nat): (bs: Option<seq<Octet>>)
    ensures bs.Some? ==> |bs.value| == n && 3 * n <= |s|
  {
    if n == 0 then Some([])
    else if |s| < 3 || s[0] != PERCENT then None
    else
      var high :- HexValue(s[1]);
      var low :- HexValue(s[2]);
      var rest :- OctetsAt(s[3..], n - 1);
      Some([high * 16 + low] + rest)
  }

  // ---------------------------------------------------------------------
  // The two functions
  // ---------------------------------------------------------------------

  /** `encodeURIComponent`, or None where it throws a URIError. */
  function Encode(s: Text): Option<Text> {
    if s == [] then Some([])
    else if Unreserved(s[0]) then
      var rest :- Encode(s[1..]);
      Some([s[0]] + rest)
    else if IsLow(s[0]) then None
    else if IsHigh(s[0]) then
      if |s| < 2 || !IsLow(s[1]) then None
      else
        var rest :- Encode(s[2..]);
        Some(Triplets(Utf8(PairValue(s[0], s[1]))) + rest)
    else
      var rest :- Encode(s[1..]);
      Some(Triplets(Utf8(s[0])) + rest)
  }

  /** `decodeURIComponent`, or None where it throws a URIError. */
  function Decode(s: Text): Option<Text> {
    if s == [] then Some([])
    else if s[0] != PERCENT then
      var rest :- Decode(s[1..]);
      Some([s[0]] + rest)
    else
      var lead :- OctetsAt(s, 1);
      var n := SequenceLength(lead[0]);
      if n == 0 then None
      else
        var octets :- OctetsAt(s, n);
        var cp :- ScalarOf(octets);
        var rest :- Decode(s[3 * n..]);
        Some(Utf16(cp) + rest)
  }

  /** A surrogate at `i`, if there is one, is half of a pair. */
  ghost predicate PairedAt(s: Text, i: nat)
    requires i < |s|
  {
    (IsHigh(s[i]) ==> i + 1 < |s| && IsLow(s[i + 1])) && (IsLow(s[i]) ==> 0 < i && IsHigh(s[i - 1]))
  }

  ghost predicate WellFormed(s: Text) {
    forall i :: 0 <= i < |s| ==> PairedAt(s, i)
  }

  lemma {:induction false} EncodeThrowsIffLoneSurrogate(s: Text)
    ensures Encode(s).Some? <==> WellFormed(s)
  {
    if s == [] {
    } else if IsHigh(s[0]) && |s| >= 2 && IsLow(s[1]) {
      EncodeThrowsIffLoneSurrogate(s[2..]);
      DropWholeCharacter(s, 2);
    } else if IsHigh(s[0]) || IsLow(s[0]) {
      assert !PairedAt(s, 0);
    } else {
      EncodeThrowsIffLoneSurrogate(s[1..]);
      DropWholeCharacter(s, 1);
    }
  }

  /** Dropping a leading whole character neither makes nor breaks well-formedness. */
  lemma DropWholeCharacter(s: Text, k: nat)
    requires k <= |s|
    requires (k == 1 && !IsHigh(s[0]) && !IsLow(s[0])) || (k == 2 && IsHigh(s[0]) && IsLow(s[1]))
    ensures WellFormed(s) <==> WellFormed(s[k..])
  {
    var t := s[k..];
    forall i: nat | k <= i < |s|
      ensures WellFormed(s) || WellFormed(t) ==> (PairedAt(s, i) <==> PairedAt(t, i - k))
    {
      assert i == k && IsLow(s[i]) ==> !PairedAt(t, 0) && !PairedAt(s, k);
    }
    assert forall i: nat :: i < |t| ==> PairedAt(s, i + k) || !PairedAt(t, i);
    assert forall i: nat :: i < k ==> PairedAt(s, i);
    if WellFormed(s) {
      forall i: nat | i < |t|
        ensures PairedAt(t, i)
      {
        assert PairedAt(s, i + k);
      }
    }
  }

  /** The encoder's output alphabet: separators such as "|" never appear in it. */
  predicate Escaped(u: CodeUnit) {
    Unreserved(u) || u == PERCENT
  }

  lemma {:induction false} TripletsEscaped(bs: seq<Octet>)
    ensures forall i :: 0 <= i < |Triplets(bs)| ==> Escaped(Triplets(bs)[i])
  {
    if bs != [] {
      TripletsEscaped(bs[1..]);
    }
  }

  lemma {:induction false} EncodeAlphabet(s: Text)
    ensures Encode(s).Some? ==> forall u :: u in Encode(s).value ==> Escaped(u)
  {
    if s == [] || Encode(s).None? {
    } else if Unreserved(s[0]) {
      EncodeAlphabet(s[1..]);
    } else if IsHigh(s[0]) {
      EncodeAlphabet(s[2..]);
      TripletsEscaped(Utf8(PairValue(s[0], s[1])));
    } else {
      EncodeAlphabet(s[1..]);
      TripletsEscaped(Utf8(s[0]));
    }
  }

  lemma {:induction false} EncodeLengthens(s: Text)
    requires Encode(s).Some?
    ensures |Encode(s).value| >= |s|
    ensures |Encode(s).value| == |s| ==> Encode(s).value == s && forall i :: 0 <= i < |s| ==> Unreserved(s[i])
    ensures (forall i :: 0 <= i < |s| ==> Unreserved(s[i])) ==> Encode(s).value == s
  {
    if s == [] {
    } else if IsHigh(s[0]) {
      EncodeLengthens(s[2..]);
      assert !Unreserved(s[0]);
    } else {
      EncodeLengthens(s[1..]);
      assert s == [s[0]] + s[1..];
    }
  }

  /** The unreserved characters, and only they, go through as they are. */
  lemma EncodePassesOnlyUnreserved(s: Text)
    ensures Encode(s) == Some(s) <==> forall i :: 0 <= i < |s| ==> Unreserved(s[i])
  {
    if Encode(s).Some? {
      EncodeLengthens(s);
    } else {
      EncodeThrowsIffLoneSurrogate(s);
      var i: nat :| i < |s| && !PairedAt(s, i);
      assert !Unreserved(s[i]);
    }
  }

  /** Only ASCII letters, digits and nine marks are left as they are. */
  lemma EncodeLeavesAlone(u: CodeUnit)
    ensures Encode([u]) == Some([u]) <==>
            || 'A' as int <= u <= 'Z' as int || 'a' as int <= u <= 'z' as int || '0' as int <= u <= '9' as int
            || u in Ascii("-_.!~*'()")
  {
    EncodePassesOnlyUnreserved([u]);
    var marks := Ascii("-_.!~*'()");
    assert marks == [0x2D, 0x5F, 0x2E, 0x21, 0x7E, 0x2A, 0x27, 0x28, 0x29];
    assert Unreserved(u) <==> Unreserved([u][0]);
  }

  /** One more unit of ASCII that is not left alone is written as its two upper-case hexadecimal digits. */
  lemma EncodeEscapes(u: CodeUnit, rest: Text)
    requires u < 0x80 && Encode([u]) != Some([u]) && Encode(rest).Some?
    ensures Encode([u] + rest)
         == Some(Ascii("%") + [Ascii("0123456789ABCDEF")[u / 16], Ascii("0123456789ABCDEF")[u % 16]]
                 + Encode(rest).value)
  {
    EncodePassesOnlyUnreserved([u]);
    assert !Unreserved([u][0]);
    assert ([u] + rest)[1..] == rest;
    assert Ascii("%") == [PERCENT];
    HexIsUpperCase(u / 16);
    HexIsUpperCase(u % 16);
    assert Triplet(u) == Ascii("%") + [Ascii("0123456789ABCDEF")[u / 16], Ascii("0123456789ABCDEF")[u % 16]];
    assert Triplets(Utf8(u)) == Triplet(u) by {
      assert Utf8(u) == [u] && [u][1..] == [];
      assert Triplets([u]) == Triplet(u) + Triplets([]);
    }
  }

  lemma HexIsUpperCase(n: int)
    requires 0 <= n < 16
    ensures HexUnit(n) == Ascii("0123456789ABCDEF")[n]
  {
  }

  /** U+E9, U+20AC and U+1F600, through two, three and four octets. */
  lemma EncodeBeyondAscii()
    ensures Encode([0xE9]) == Some(Ascii("%C3%A9"))
    ensures Encode([0x20AC]) == Some(Ascii("%E2%82%AC"))
    ensures Encode([0xD83D, 0xDE00]) == Some(Ascii("%F0%9F%98%80"))
  {
    assert [0xE9][1..] == [] && [0x20AC][1..] == [] && [0xD83D, 0xDE00][2..] == [];
    TwoOctets();
    ThreeOctets();
    FourOctets();
    assert Encode([]) == Some([]);
    assert forall t: Text :: t + [] == t;
  }

  lemma TwoOctets()
    ensures Triplets(Utf8(0xE9)) == Ascii("%C3%A9")
  {
    FewTriplets(0xC3, 0xA9, 0, 0);
    assert Utf8(0xE9) == [0xC3, 0xA9];
  }

  lemma ThreeOctets()
    ensures Triplets(Utf8(0x20AC)) == Ascii("%E2%82%AC")
  {
    FewTriplets(0xE2, 0x82, 0xAC, 0);
    assert Utf8(0x20AC) == [0xE2, 0x82, 0xAC];
  }

  lemma FourOctets()
    ensures Triplets(Utf8(PairValue(0xD83D, 0xDE00))) == Ascii("%F0%9F%98%80")
  {
    FewTriplets(0xF0, 0x9F, 0x98, 0x80);
    assert PairValue(0xD83D, 0xDE00) == 0x1F600;
    assert Utf8(0x1F600) == [0xF0, 0x9F, 0x98, 0x80];
  }

  lemma FewTriplets(a: Octet, b: Octet, c: Octet, d: Octet)
    ensures Triplets([a, b]) == Triplet(a) + Triplet(b)
    ensures Triplets([a, b, c]) == Triplet(a) + Triplet(b) + Triplet(c)
    ensures Triplets([a, b, c, d]) == Triplet(a) + Triplet(b) + Triplet(c) + Triplet(d)
  {
    assert [a, b, c, d][1..] == [b, c, d] && [a, b, c][1..] == [b, c] && [b, c, d][1..] == [c, d];
    assert [a, b][1..] == [b] && [b, c][1..] == [c] && [c, d][1..] == [d];
    assert [b][1..] == [] && [c][1..] == [] && [d][1..] == [];
    assert Triplets([b]) == Triplet(b) && Triplets([c]) == Triplet(c) && Triplets([d]) == Triplet(d);
    assert Triplets([b, c]) == Triplet(b) + Triplets([c]) && Triplets([c, d]) == Triplet(c) + Triplets([d]);
    assert Triplets([b, c, d]) == Triplet(b) + Triplets([c, d]);
  }

  lemma {:induction false} OctetsOfTriplets(bs: seq<Octet>, n: nat, rest: Text)
    requires n <= |bs|
    ensures OctetsAt(Triplets(bs) + rest, n) == Some(bs[..n])
  {
    if n > 0 {
      var s := Triplets(bs) + rest;
      assert s[3..] == Triplets(bs[1..]) + rest;
      OctetsOfTriplets(bs[1..], n - 1, rest);
      assert bs[..n] == [bs[0]] + bs[1..][..n - 1];
    }
  }

  lemma DecodeTriplets(cp: int, rest: Text)
    requires IsScalar(cp)
    requires Decode(rest).Some?
    ensures Decode(Triplets(Utf8(cp)) + rest) == Some(Utf16(cp) + Decode(rest).value)
  {
    var bs := Utf8(cp);
    var s := Triplets(bs) + rest;
    Utf8RoundTrip(cp);
    OctetsOfTriplets(bs, 1, rest);
    OctetsOfTriplets(bs, |bs|, rest);
    assert bs[..|bs|] == bs;
    assert s[0] == PERCENT;
    assert s[3 * |bs|..] == rest;
  }

  lemma OneOctetMore(high: CodeUnit, low: CodeUnit, rest: Text, n: nat)
    requires HexValue(high).Some? && HexValue(low).Some? && OctetsAt(rest, n).Some?
    ensures OctetsAt([PERCENT, high, low] + rest, n + 1)
         == Some([HexValue(high).value * 16 + HexValue(low).value] + OctetsAt(rest, n).value)
  {
    assert ([PERCENT, high, low] + rest)[3..] == rest;
  }

  /** Hexadecimal digits may be lower-case. */
  lemma DecodeLowerCase()
    ensures Decode(Ascii("%c3%a9")) == Some([0xE9])
  {
    var t, last := Ascii("%c3%a9"), [PERCENT, 0x61, 0x39];
    OneOctetMore(0x61, 0x39, [], 0);
    OneOctetMore(0x63, 0x33, last, 0);
    OneOctetMore(0x63, 0x33, last, 1);
    assert last + [] == last && t == [PERCENT, 0x63, 0x33] + last;
    assert [0xC3] + [0xA9] == [0xC3, 0xA9] && t[3 * 2..] == [];
    assert Decode([]) == Some([]) && Utf16(0xE9) + [] == [0xE9];
    assert ScalarOf([0xC3, 0xA9]) == Some(0xE9);
  }

  /** Octets that spell a character longer than needed do not decode. */
  lemma DecodeOverlong()
    ensures Decode(Ascii("%C0%AF")) == None
  {
    var t, last := Ascii("%C0%AF"), [PERCENT, 0x41, 0x46];
    OneOctetMore(0x41, 0x46, [], 0);
    OneOctetMore(0x43, 0x30, last, 0);
    OneOctetMore(0x43, 0x30, last, 1);
    assert last + [] == last && t == [PERCENT, 0x43, 0x30] + last;
    assert [0xC0] + [0xAF] == [0xC0, 0xAF];
    assert ScalarOf([0xC0, 0xAF]) == None;
  }

  /** Nor do the octets of a surrogate. */
  lemma DecodeSurrogate()
    ensures Decode(Ascii("%ED%A0%80")) == None
  {
    var t, last := Ascii("%ED%A0%80"), [PERCENT, 0x38, 0x30];
    var two := [PERCENT, 0x41, 0x30] + last;
    OneOctetMore(0x38, 0x30, [], 0);
    OneOctetMore(0x41, 0x30, last, 1);
    OneOctetMore(0x45, 0x44, two, 0);
    OneOctetMore(0x45, 0x44, two, 2);
    assert last + [] == last && t == [PERCENT, 0x45, 0x44] + two;
    assert [0xED] + ([0xA0] + [0x80]) == [0xED, 0xA0, 0x80];
    assert ScalarOf([0xED, 0xA0, 0x80]) == None;
  }

  lemma DecodePlain(u: CodeUnit, rest: Text)
    requires u != PERCENT && Decode(rest).Some?
    ensures Decode([u] + rest) == Some([u] + Decode(rest).value)
  {
    assert ([u] + rest)[1..] == rest;
  }

  lemma DecodeUnreserved(u: CodeUnit, rest: Text)
    requires Unreserved(u) && Encode(rest).Some? && Decode(Encode(rest).value) == Some(rest)
    ensures Encode([u] + rest).Some? && Decode(Encode([u] + rest).value) == Some([u] + rest)
  {
    assert ([u] + rest)[0] == u && ([u] + rest)[1..] == rest;
    DecodePlain(u, Encode(rest).value);
  }

  lemma DecodePair(high: CodeUnit, low: CodeUnit, rest: Text)
    requires IsHigh(high) && IsLow(low) && Encode(rest).Some? && Decode(Encode(rest).value) == Some(rest)
    ensures Encode([high, low] + rest).Some? && Decode(Encode([high, low] + rest).value) == Some([high, low] + rest)
  {
    var s := [high, low] + rest;
    assert s[0] == high && s[1] == low && s[2..] == rest;
    DecodeTriplets(PairValue(high, low), Encode(rest).value);
    Utf16OfPair(high, low);
  }

  lemma DecodeSingle(u: CodeUnit, rest: Text)
    requires !Unreserved(u) && !IsHigh(u) && !IsLow(u)
    requires Encode(rest).Some? && Decode(Encode(rest).value) == Some(rest)
    ensures Encode([u] + rest).Some? && Decode(Encode([u] + rest).value) == Some([u] + rest)
  {
    assert ([u] + rest)[0] == u && ([u] + rest)[1..] == rest;
    DecodeTriplets(u, Encode(rest).value);
  }

  /** Whatever can be encoded decodes to itself. */
  lemma {:induction false} DecodeOfEncode(s: Text)
    requires Encode(s).Some?
    ensures Decode(Encode(s).value) == Some(s)
  {
    if s == [] {
    } else if IsHigh(s[0]) {
      assert s == [s[0], s[1]] + s[2..];
      DecodeOfEncode(s[2..]);
      DecodePair(s[0], s[1], s[2..]);
    } else {
      assert s == [s[0]] + s[1..];
      DecodeOfEncode(s[1..]);
      if Unreserved(s[0]) {
        DecodeUnreserved(s[0], s[1..]);
      } else {
        DecodeSingle(s[0], s[1..]);
      }
    }
  }
}
