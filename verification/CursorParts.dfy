/** The "|"-separated, percent-escaped text both kinds of cursor are written as. */
module CursorParts {
  import opened Wrappers
  import opened Text
  import PercentEncoding

  /** `parts.map(encodeURIComponent).join("|")`, or None where the encoding throws. */
  function EncodeParts(parts: seq<Text>): Option<Text> {
    var escaped :- EncodeAll(parts);
    Some(Join(escaped, PIPE))
  }

  function EncodeAll(parts: seq<Text>): (escaped: Option<seq<Text>>)
    ensures escaped.Some? ==> |escaped.value| == |parts|
  {
    if parts == [] then Some([])
    else
      var first :- PercentEncoding.Encode(parts[0]);
      var rest :- EncodeAll(parts[1..]);
      Some([first] + rest)
  }

  /** `raw.split("|")` with every part decoded, or None unless there are `n` parts and all decode. */
  function DecodeParts(raw: Text, n: nat): (parts: Option<seq<Text>>)
    ensures parts.Some? ==> |parts.value| == n
  {
    var parts := Split(raw, PIPE);
    if |parts| != n then None else DecodeAll(parts)
  }

  function DecodeAll(parts: seq<Text>): (decoded: Option<seq<Text>>)
    ensures decoded.Some? ==> |decoded.value| == |parts|
  {
    if parts == [] then Some([])
    else
      var first :- PercentEncoding.Decode(parts[0]);
      var rest :- DecodeAll(parts[1..]);
      Some([first] + rest)
  }

  lemma {:induction false} DecodeAllOfEncodeAll(parts: seq<Text>)
    requires EncodeAll(parts).Some?
    ensures DecodeAll(EncodeAll(parts).value) == Some(parts)
    ensures forall i :: 0 <= i < |parts| ==> PIPE !in EncodeAll(parts).value[i]
  {
    if parts != [] {
      DecodeAllOfEncodeAll(parts[1..]);
      PercentEncoding.DecodeOfEncode(parts[0]);
      PercentEncoding.EncodeAlphabet(parts[0]);
      assert EncodeAll(parts).value[1..] == EncodeAll(parts[1..]).value;
      assert [parts[0]] + parts[1..] == parts;
      forall i | 0 <= i < |parts|
        ensures PIPE !in EncodeAll(parts).value[i]
      {
        if i == 0 {
          assert !PercentEncoding.Escaped(PIPE);
        } else {
          assert EncodeAll(parts).value[i] == EncodeAll(parts[1..]).value[i - 1];
        }
      }
    }
  }

  lemma DecodePartsOfEncodeParts(parts: seq<Text>)
    requires |parts| >= 1 && EncodeParts(parts).Some?
    ensures DecodeParts(EncodeParts(parts).value, |parts|) == Some(parts)
  {
    DecodeAllOfEncodeAll(parts);
    SplitOfJoin(EncodeAll(parts).value, PIPE);
  }

  lemma {:induction false} EncodeAllThrows(parts: seq<Text>)
    ensures EncodeAll(parts).Some? <==> forall i :: 0 <= i < |parts| ==> PercentEncoding.WellFormed(parts[i])
  {
    if parts != [] {
      PercentEncoding.EncodeThrowsIffLoneSurrogate(parts[0]);
      EncodeAllThrows(parts[1..]);
      assert forall i :: 1 <= i < |parts| ==> parts[i] == parts[1..][i - 1];
    }
  }

  lemma {:induction false} EncodesEach(parts: seq<Text>)
    requires EncodeAll(parts).Some?
    ensures forall i :: 0 <= i < |parts| ==> PercentEncoding.Encode(parts[i]) == Some(EncodeAll(parts).value[i])
  {
    if parts != [] {
      EncodesEach(parts[1..]);
      assert EncodeAll(parts).value[1..] == EncodeAll(parts[1..]).value;
      forall i | 1 <= i < |parts|
        ensures PercentEncoding.Encode(parts[i]) == Some(EncodeAll(parts).value[i])
      {
        assert parts[i] == parts[1..][i - 1] && EncodeAll(parts).value[i] == EncodeAll(parts[1..]).value[i - 1];
      }
    }
  }

  /** Parts decode together to what they decode to one by one. */
  lemma {:induction false} DecodesEach(parts: seq<Text>, decoded: seq<Text>)
    ensures DecodeAll(parts) == Some(decoded) <==>
            && |parts| == |decoded|
            && forall i :: 0 <= i < |parts| ==> PercentEncoding.Decode(parts[i]) == Some(decoded[i])
  {
    if parts != [] && decoded != [] {
      DecodesEach(parts[1..], decoded[1..]);
      assert decoded == [decoded[0]] + decoded[1..];
      assert forall i :: 1 <= i < |parts| ==> parts[i] == parts[1..][i - 1];
      assert forall i :: 1 <= i < |decoded| ==> decoded[i] == decoded[1..][i - 1];
      forall i | 0 <= i < |parts| - 1
        ensures parts[1..][i] == parts[i + 1]
      {
      }
      forall i | 0 <= i < |decoded| - 1
        ensures decoded[1..][i] == decoded[i + 1]
      {
      }
    }
  }

  /** Two parts are written with one bar between them. */
  lemma TwoParts(a: Text, b: Text)
    requires EncodeParts([a, b]).Some?
    ensures PercentEncoding.Encode(a).Some? && PercentEncoding.Encode(b).Some?
    ensures EncodeParts([a, b]).value == PercentEncoding.Encode(a).value + [0x7C] + PercentEncoding.Encode(b).value
  {
    EncodesEach([a, b]);
    var escaped := EncodeAll([a, b]).value;
    assert [a, b][0] == a && [a, b][1] == b;
    assert Join(escaped[1..], PIPE) == escaped[1];
  }

  lemma JoinOfSeveral<T>(parts: seq<seq<T>>, separator: T)
    requires |parts| >= 2
    ensures Join(parts, separator) != []
  {
    assert separator in Join(parts, separator);
  }
}
