/** The message order, and cursors into it (packages/api-types/src/message.ts). */
module Messages {
  import opened Wrappers
  import opened Text
  import opened CursorParts
  import PercentEncoding
  import Decimal

  datatype Direction = Inbound | Outbound

  datatype Message = Message(
    source: Text,
    timestamp: int,
    body: Option<Text>,
    direction: Direction,
    ref: Text)

  // ---------------------------------------------------------------------
  // Order
  // ---------------------------------------------------------------------

  /** Newest first; within a second, outbound first, then source and ref. */
  function CompareMessages(a: Message, b: Message): int {
    if a.timestamp != b.timestamp then b.timestamp - a.timestamp
    else if a.direction != b.direction then (if a.direction.Outbound? then -1 else 1)
    else if a.source != b.source then CompareCodePoints(a.source, b.source)
    else CompareCodePoints(a.ref, b.ref)
  }

  predicate SamePosition(a: Message, b: Message) {
    a.timestamp == b.timestamp && a.direction == b.direction && a.source == b.source && a.ref == b.ref
  }

  /** What decides the order, read off the documentation: each key matters only when the earlier ones tie. */
  ghost predicate Precedes(a: Message, b: Message) {
    || a.timestamp > b.timestamp
    || (a.timestamp == b.timestamp &&
        (|| (a.direction.Outbound? && b.direction.Inbound?)
         || (a.direction == b.direction &&
             (Less(a.source, b.source) || (a.source == b.source && Less(a.ref, b.ref))))))
  }

  lemma CompareMessagesIsTotalOrder(a: Message, b: Message, c: Message)
    ensures CompareMessages(a, b) == 0 <==> SamePosition(a, b)
    ensures CompareMessages(a, b) == -CompareMessages(b, a)
    ensures CompareMessages(a, b) <= 0 && CompareMessages(b, c) <= 0 ==> CompareMessages(a, c) <= 0
    ensures CompareMessages(a, b) < 0 <==> Precedes(a, b)
  {
    CompareCodePointsIsTotalOrder(a.source, b.source, c.source);
    CompareCodePointsIsTotalOrder(b.source, c.source, a.source);
    CompareCodePointsIsTotalOrder(a.source, c.source, b.source);
    CompareCodePointsIsTotalOrder(a.ref, b.ref, c.ref);
    CompareCodePointsIsTotalOrder(b.ref, c.ref, a.ref);
    LessTrichotomy(a.source, b.source);
    LessTrichotomy(a.ref, b.ref);
  }

  // ---------------------------------------------------------------------
  // Cursor
  // ---------------------------------------------------------------------

  const INBOUND: Text := [0x69, 0x6E, 0x62, 0x6F, 0x75, 0x6E, 0x64]
  const OUTBOUND: Text := [0x6F, 0x75, 0x74, 0x62, 0x6F, 0x75, 0x6E, 0x64]

  function DirectionText(d: Direction): Text {
    if d.Inbound? then INBOUND else OUTBOUND
  }

  function PartsOf(m: Message): seq<Text> {
    [Decimal.Print(m.timestamp), DirectionText(m.direction), m.source, m.ref]
  }

  function MessageCursor(m: Message): Option<Text> {
    EncodeParts(PartsOf(m))
  }

  /** The position four decoded parts name, or None when they name none. */
  function MessageOfParts(parts: seq<Text>, otherLiteral: Text -> Option<int>): Option<Message>
    requires |parts| == 4
  {
    if parts[0] == [] then None
    else
      var timestamp :- Decimal.ReadNumber(parts[0], otherLiteral);
      if parts[1] != INBOUND && parts[1] != OUTBOUND then None
      else if parts[3] == [] then None
      else
        var direction := if parts[1] == INBOUND then Inbound else Outbound;
        Some(Message(parts[2], timestamp, None, direction, parts[3]))
  }

  function ParseMessageCursor(raw: Option<Text>, otherLiteral: Text -> Option<int>): Option<Message> {
    var text :- raw;
    if text == [] then None
    else
      var parts :- DecodeParts(text, 4);
      MessageOfParts(parts, otherLiteral)
  }

  predicate IsAfterMessageCursor(m: Message, cursor: Message) {
    CompareMessages(cursor, m) < 0
  }

  // ---------------------------------------------------------------------
  // Round trip
  // ---------------------------------------------------------------------

  lemma MessageOfPartsOf(m: Message, otherLiteral: Text -> Option<int>)
    requires m.ref != []
    ensures MessageOfParts(PartsOf(m), otherLiteral) == Some(m.(body := None))
  {
    Decimal.ReadNumberOfPrint(m.timestamp, otherLiteral);
    assert |INBOUND| != |OUTBOUND|;
  }

  lemma PrintIsPlain(n: int)
    ensures forall i :: 0 <= i < |Decimal.Print(n)| ==> Decimal.Print(n)[i] < 0x80
  {
    var digits := Decimal.Digits(if n < 0 then -n else n);
    assert forall i :: 0 <= i < |digits| ==> IsDigit(digits[i]);
  }

  lemma DirectionIsPlain(d: Direction)
    ensures forall i :: 0 <= i < |DirectionText(d)| ==> DirectionText(d)[i] < 0x80
  {
  }

  lemma FourWellFormed(a: Text, b: Text, c: Text, d: Text)
    ensures (forall i :: 0 <= i < |[a, b, c, d]| ==> PercentEncoding.WellFormed([a, b, c, d][i])) <==>
            && PercentEncoding.WellFormed(a) && PercentEncoding.WellFormed(b)
            && PercentEncoding.WellFormed(c) && PercentEncoding.WellFormed(d)
  {
    var parts := [a, b, c, d];
    assert parts[0] == a && parts[1] == b && parts[2] == c && parts[3] == d;
  }

  /** Encoding throws only on a lone surrogate: the timestamp and the direction always encode. */
  lemma MessageCursorThrowsIff(m: Message)
    ensures MessageCursor(m).Some? <==> PercentEncoding.WellFormed(m.source) && PercentEncoding.WellFormed(m.ref)
  {
    var printed, direction := Decimal.Print(m.timestamp), DirectionText(m.direction);
    EncodeAllThrows([printed, direction, m.source, m.ref]);
    PrintIsPlain(m.timestamp);
    PlainTextIsWellFormed(printed);
    DirectionIsPlain(m.direction);
    PlainTextIsWellFormed(direction);
    FourWellFormed(printed, direction, m.source, m.ref);
  }

  /** A cursor that can be written names exactly the position it was cut at. */
  lemma MessageCursorRoundTrip(m: Message, otherLiteral: Text -> Option<int>)
    requires m.ref != [] && MessageCursor(m).Some?
    ensures ParseMessageCursor(MessageCursor(m), otherLiteral).Some?
    ensures SamePosition(ParseMessageCursor(MessageCursor(m), otherLiteral).value, m)
  {
    DecodePartsOfEncodeParts(PartsOf(m));
    JoinOfSeveral(EncodeAll(PartsOf(m)).value, PIPE);
    MessageOfPartsOf(m, otherLiteral);
  }

  /** A cursor is the escaped timestamp, direction, source and ref, with bars between. */
  lemma MessageCursorReads(m: Message)
    requires MessageCursor(m).Some?
    ensures PercentEncoding.Encode(Decimal.Print(m.timestamp)).Some?
    ensures PercentEncoding.Encode(m.source).Some? && PercentEncoding.Encode(m.ref).Some?
    ensures MessageCursor(m).value
         == PercentEncoding.Encode(Decimal.Print(m.timestamp)).value + [0x7C]
            + (if m.direction.Inbound? then Ascii("inbound") else Ascii("outbound")) + [0x7C]
            + PercentEncoding.Encode(m.source).value + [0x7C] + PercentEncoding.Encode(m.ref).value
  {
    FourParts(Decimal.Print(m.timestamp), DirectionText(m.direction), m.source, m.ref);
    DirectionReads(m.direction);
    LettersPassThrough(DirectionText(m.direction));
  }

  lemma DirectionReads(d: Direction)
    ensures DirectionText(d) == if d.Inbound? then Ascii("inbound") else Ascii("outbound")
  {
    assert INBOUND == Ascii("inbound");
    assert OUTBOUND == Ascii("outbound");
  }

  lemma FourParts(a: Text, b: Text, c: Text, d: Text)
    requires EncodeParts([a, b, c, d]).Some?
    ensures PercentEncoding.Encode(a).Some? && PercentEncoding.Encode(b).Some?
    ensures PercentEncoding.Encode(c).Some? && PercentEncoding.Encode(d).Some?
    ensures EncodeParts([a, b, c, d]).value
         == PercentEncoding.Encode(a).value + [0x7C] + PercentEncoding.Encode(b).value + [0x7C]
            + PercentEncoding.Encode(c).value + [0x7C] + PercentEncoding.Encode(d).value
  {
    var parts := [a, b, c, d];
    EncodesEach(parts);
    var escaped := EncodeAll(parts).value;
    assert parts[0] == a && parts[1] == b && parts[2] == c && parts[3] == d;
    assert escaped == [escaped[0], escaped[1], escaped[2], escaped[3]];
    FourJoined(escaped[0], escaped[1], escaped[2], escaped[3]);
  }

  lemma LettersPassThrough(t: Text)
    requires forall i :: 0 <= i < |t| ==> 0x61 <= t[i] <= 0x7A
    ensures PercentEncoding.Encode(t) == Some(t)
  {
    PercentEncoding.EncodePassesOnlyUnreserved(t);
  }

  lemma FourJoined(a: Text, b: Text, c: Text, d: Text)
    ensures Join([a, b, c, d], PIPE) == a + [0x7C] + b + [0x7C] + c + [0x7C] + d
  {
    assert [a, b, c, d][1..] == [b, c, d] && [b, c, d][1..] == [c, d] && [c, d][1..] == [d];
    assert Join([d], PIPE) == d;
    assert Join([c, d], PIPE) == c + [PIPE] + d;
    assert Join([b, c, d], PIPE) == b + [PIPE] + (c + [PIPE] + d);
  }

  /** Four parts name a position exactly when they give a timestamp, one of the two directions, and a ref. */
  lemma MessageOfPartsIff(parts: seq<Text>, otherLiteral: Text -> Option<int>, m: Message)
    requires |parts| == 4
    ensures MessageOfParts(parts, otherLiteral) == Some(m) <==>
            && parts[0] != [] && Decimal.ReadNumber(parts[0], otherLiteral) == Some(m.timestamp)
            && parts[1] == (if m.direction.Inbound? then Ascii("inbound") else Ascii("outbound"))
            && parts[2] == m.source && parts[3] == m.ref && m.ref != [] && m.body.None?
  {
    assert INBOUND == Ascii("inbound") && OUTBOUND == Ascii("outbound");
    assert |INBOUND| != |OUTBOUND|;
  }

  /** A cursor text names a position exactly when it has four parts between bars, which decode to one. */
  lemma MessageCursorParsesIff(text: Text, otherLiteral: Text -> Option<int>, m: Message)
    ensures ParseMessageCursor(Some(text), otherLiteral) == Some(m) <==>
            && text != []
            && exists parts, decoded ::
                 && |parts| == |decoded| == 4 && Join(parts, PIPE) == text
                 && (forall i :: 0 <= i < 4 ==>
                       PIPE !in parts[i] && PercentEncoding.Decode(parts[i]) == Some(decoded[i]))
                 && MessageOfParts(decoded, otherLiteral) == Some(m)
  {
    JoinOfSplit(text, PIPE);
    if ParseMessageCursor(Some(text), otherLiteral) == Some(m) {
      var parts, decoded := Split(text, PIPE), DecodeParts(text, 4).value;
      DecodesEach(parts, decoded);
      assert forall i :: 0 <= i < 4 ==> parts[i] in parts;
    }
    if parts, decoded :|
      && |parts| == |decoded| == 4 && Join(parts, PIPE) == text
      && (forall i :: 0 <= i < 4 ==> PIPE !in parts[i] && PercentEncoding.Decode(parts[i]) == Some(decoded[i]))
      && MessageOfParts(decoded, otherLiteral) == Some(m)
    {
      SplitOfJoin(parts, PIPE);
      DecodesEach(parts, decoded);
    }
  }

  lemma PlainTextIsWellFormed(t: Text)
    requires forall i :: 0 <= i < |t| ==> t[i] < 0x80
    ensures PercentEncoding.WellFormed(t)
  {
    forall i: nat | i < |t|
      ensures PercentEncoding.PairedAt(t, i)
    {
    }
  }

  /** The messages of `listing` that a reader resuming at `cursor` is still owed. */
  function AfterCursor(listing: seq<Message>, cursor: Message): seq<Message> {
    if listing == [] then []
    else
      (if IsAfterMessageCursor(listing[0], cursor) then [listing[0]] else []) + AfterCursor(listing[1..], cursor)
  }

  ghost predicate StrictlyOrdered(listing: seq<Message>) {
    forall i, j :: 0 <= i < j < |listing| ==> CompareMessages(listing[i], listing[j]) < 0
  }

  lemma {:induction false} AfterCursorKeepsAll(listing: seq<Message>, cursor: Message)
    requires forall i :: 0 <= i < |listing| ==> IsAfterMessageCursor(listing[i], cursor)
    ensures AfterCursor(listing, cursor) == listing
  {
    if listing != [] {
      assert listing == [listing[0]] + listing[1..];
      AfterCursorKeepsAll(listing[1..], cursor);
    }
  }

  lemma {:induction false} AfterCursorDrops(listing: seq<Message>, cursor: Message, k: nat)
    requires k <= |listing|
    requires forall i :: 0 <= i < k ==> !IsAfterMessageCursor(listing[i], cursor)
    ensures AfterCursor(listing, cursor) == AfterCursor(listing[k..], cursor)
  {
    if k > 0 {
      assert listing[1..][k - 1..] == listing[k..];
      AfterCursorDrops(listing[1..], cursor, k - 1);
    }
  }

  lemma SuffixAfterPosition(listing: seq<Message>, k: nat, cursor: Message)
    requires StrictlyOrdered(listing) && k < |listing|
    requires SamePosition(cursor, listing[k])
    ensures AfterCursor(listing, cursor) == listing[k + 1..]
  {
    forall i | 0 <= i < |listing|
      ensures IsAfterMessageCursor(listing[i], cursor) <==> i > k
    {
      assert CompareMessages(cursor, listing[i]) == CompareMessages(listing[k], listing[i]);
      CompareMessagesIsTotalOrder(listing[k], listing[i], listing[k]);
    }
    AfterCursorDrops(listing, cursor, k + 1);
    AfterCursorKeepsAll(listing[k + 1..], cursor);
  }

  ghost predicate Ordered(listing: seq<Message>) {
    forall i, j :: 0 <= i < j < |listing| ==> CompareMessages(listing[i], listing[j]) <= 0
  }

  /** The row after row `k` and those that share its position. */
  function AfterTies(listing: seq<Message>, k: nat): (m: nat)
    requires k < |listing|
    ensures k < m <= |listing|
    ensures forall i :: k <= i < m ==> SamePosition(listing[k], listing[i])
    ensures m < |listing| ==> !SamePosition(listing[k], listing[m])
    decreases |listing| - k
  {
    if k + 1 < |listing| && SamePosition(listing[k], listing[k + 1]) then AfterTies(listing, k + 1) else k + 1
  }

  /**
   On a listing that may repeat a position, resuming at row `k` answers the rows after the last that
   shares its position: rows after `k` are lost exactly when the next one ties with it.
   */
  lemma ResumeDropsTies(listing: seq<Message>, k: nat, otherLiteral: Text -> Option<int>)
    requires Ordered(listing) && k < |listing|
    requires listing[k].ref != [] && MessageCursor(listing[k]).Some?
    ensures ParseMessageCursor(MessageCursor(listing[k]), otherLiteral).Some?
    ensures var rest := AfterCursor(listing, ParseMessageCursor(MessageCursor(listing[k]), otherLiteral).value);
            && rest == listing[AfterTies(listing, k)..]
            && (rest == listing[k + 1..] <==> k + 1 == |listing| || !SamePosition(listing[k], listing[k + 1]))
  {
    MessageCursorRoundTrip(listing[k], otherLiteral);
    var cursor, m := ParseMessageCursor(MessageCursor(listing[k]), otherLiteral).value, AfterTies(listing, k);
    forall i | 0 <= i < |listing|
      ensures IsAfterMessageCursor(listing[i], cursor) <==> i >= m
    {
      assert CompareMessages(cursor, listing[i]) == CompareMessages(listing[k], listing[i]);
      CompareMessagesIsTotalOrder(listing[k], listing[i], listing[k]);
      if i >= m {
        CompareMessagesIsTotalOrder(listing[k], listing[m], listing[i]);
      }
    }
    AfterCursorDrops(listing, cursor, m);
    AfterCursorKeepsAll(listing[m..], cursor);
  }

  /** Resuming from the encoded cursor of row `k` answers exactly the rows after it: none skipped, none repeated. */
  lemma ResumeSelectsSuffix(listing: seq<Message>, k: nat, otherLiteral: Text -> Option<int>)
    requires StrictlyOrdered(listing) && k < |listing|
    requires listing[k].ref != [] && MessageCursor(listing[k]).Some?
    ensures ParseMessageCursor(MessageCursor(listing[k]), otherLiteral).Some?
    ensures AfterCursor(listing, ParseMessageCursor(MessageCursor(listing[k]), otherLiteral).value) == listing[k + 1..]
  {
    MessageCursorRoundTrip(listing[k], otherLiteral);
    SuffixAfterPosition(listing, k, ParseMessageCursor(MessageCursor(listing[k]), otherLiteral).value);
  }
}
