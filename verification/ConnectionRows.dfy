/** One entry of LinkedIn's connection list (opencli-plugins/linkedin/connections.js). */
module ConnectionRows {
  import opened Wrappers
  import opened Text
  import PercentEncoding

  /** A profile field: missing, of the wrong type, or a string. */
  datatype Field = Absent | NotText | Raw(text: Text)

  datatype Element = NoMiniProfile
                   | Profile(publicIdentifier: Field, firstName: Field, lastName: Field, occupation: Field)

  datatype Failure = AuthRequired | UnexpectedResponse | MalformedPayload | MalformedElement | UriError

  datatype Row = Row(publicId: Text, element: Element)

  function CleanText(t: Text): Text {
    Trim(ReplaceSpaceRuns(t, SPACE))
  }

  function OptionalText(field: Field): Result<Text, Failure> {
    match field
    case Absent => Ok([])
    case NotText => Err(MalformedElement)
    case Raw(text) => Ok(CleanText(text))
  }

  /** White space, "/", "?" and "#" have no place in a public identifier. */
  predicate Unstable(u: CodeUnit) {
    IsSpace(u) || u == 0x2F || u == 0x3F || u == 0x23
  }

  /** What may not stand in an identifier: white space and the three marks that end a path segment. */
  lemma UnstableUnits(u: CodeUnit)
    ensures Unstable(u) <==>
            || u in {0x09, 0x0A, 0x0B, 0x0C, 0x0D, 0x20, 0xA0, 0x1680, 0x2028, 0x2029, 0x202F, 0x205F, 0x3000, 0xFEFF}
            || u in {0x2000, 0x2001, 0x2002, 0x2003, 0x2004, 0x2005, 0x2006, 0x2007, 0x2008, 0x2009, 0x200A}
            || u == '/' as int || u == '?' as int || u == '#' as int
  {
  }

  // ---------------------------------------------------------------------
  // Cleaned text
  // ---------------------------------------------------------------------

  /** The runs of a text that are not white space, in order; `word` is the one begun so far. */
  function Runs(word: Text, t: Text): seq<Text>
    decreases t
  {
    if t == [] then (if word == [] then [] else [word])
    else if !IsSpace(t[0]) then Runs(word + [t[0]], t[1..])
    else (if word == [] then [] else [word]) + Runs([], t[1..])
  }

  lemma {:induction false} RunsIgnoreLastSpace(word: Text, t: Text)
    requires t != [] && IsSpace(t[|t| - 1])
    ensures Runs(word, t) == Runs(word, t[..|t| - 1])
    decreases t
  {
    if |t| > 1 {
      assert t[1..][..|t| - 2] == t[..|t| - 1][1..];
      RunsIgnoreLastSpace([], t[1..]);
      RunsIgnoreLastSpace(word + [t[0]], t[1..]);
    } else {
      assert Runs([], t[1..]) == [];
    }
  }

  lemma {:induction false} TrimKeepsRuns(t: Text)
    ensures Runs([], TrimStart(t)) == Runs([], t) == Runs([], TrimEnd(t))
    decreases |t|
  {
    if t != [] && IsSpace(t[0]) {
      TrimKeepsRuns(t[1..]);
      assert [] + Runs([], t[1..]) == Runs([], t[1..]);
    }
    if t != [] && IsSpace(t[|t| - 1]) {
      RunsIgnoreLastSpace([], t);
      TrimKeepsRuns(t[..|t| - 1]);
    }
  }

  /** White space comes as single plain spaces. */
  ghost predicate SingleSpaced(t: Text) {
    && (forall i :: 0 <= i < |t| && IsSpace(t[i]) ==> t[i] == 0x20)
    && (forall i :: 0 < i < |t| && IsSpace(t[i]) ==> !IsSpace(t[i - 1]))
  }

  lemma {:induction false} SpacingIsSingle(t: Text)
    ensures SingleSpaced(ReplaceSpaceRuns(t, SPACE))
    ensures t != [] && !IsSpace(t[0]) ==> ReplaceSpaceRuns(t, SPACE) != [] && ReplaceSpaceRuns(t, SPACE)[0] == t[0]
  {
    if t != [] {
      SpacingIsSingle(t[1..]);
    }
  }

  lemma {:induction false} SpacingKeepsRuns(word: Text, t: Text)
    ensures Runs(word, ReplaceSpaceRuns(t, SPACE)) == Runs(word, t)
    decreases t
  {
    if t != [] {
      SpacingKeepsRuns([], t[1..]);
      SpacingKeepsRuns(word, t[1..]);
      SpacingKeepsRuns(word + [t[0]], t[1..]);
    }
  }

  lemma SuffixIsSingleSpaced(t: Text, part: Text)
    requires SingleSpaced(t) && |part| <= |t| && part == t[|t| - |part|..]
    ensures SingleSpaced(part)
  {
    assert forall i :: 0 <= i < |part| ==> part[i] == t[|t| - |part| + i];
  }

  lemma PrefixIsSingleSpaced(t: Text, part: Text)
    requires SingleSpaced(t) && part <= t
    ensures SingleSpaced(part)
  {
  }

  lemma TrimStartIsSingleSpaced(t: Text)
    requires SingleSpaced(t)
    ensures SingleSpaced(TrimStart(t))
  {
    SuffixIsSingleSpaced(t, TrimStart(t));
  }

  lemma TrimEndIsSingleSpaced(t: Text)
    requires SingleSpaced(t)
    ensures SingleSpaced(TrimEnd(t))
  {
    PrefixIsSingleSpaced(t, TrimEnd(t));
  }

  /** Cleaning keeps the runs of a text as they are, */
  lemma CleanTextKeepsRuns(t: Text)
    ensures Runs([], CleanText(t)) == Runs([], t)
  {
    SpacingKeepsRuns([], t);
    TrimKeepsRuns(ReplaceSpaceRuns(t, SPACE));
    TrimKeepsRuns(TrimStart(ReplaceSpaceRuns(t, SPACE)));
  }

  /** with single spaces between them, */
  lemma CleanTextIsSingleSpaced(t: Text)
    ensures SingleSpaced(CleanText(t))
  {
    SpacingIsSingle(t);
    TrimStartIsSingleSpaced(ReplaceSpaceRuns(t, SPACE));
    TrimEndIsSingleSpaced(TrimStart(ReplaceSpaceRuns(t, SPACE)));
  }

  /** and none before or after. */
  lemma CleanTextIsTrimmed(t: Text)
    ensures CleanText(t) != [] ==> !IsSpace(CleanText(t)[0]) && !IsSpace(CleanText(t)[|CleanText(t)| - 1])
  {
    var started := TrimStart(ReplaceSpaceRuns(t, SPACE));
    assert TrimEnd(started) != [] ==> TrimEnd(started)[0] == started[0];
  }

  // ---------------------------------------------------------------------
  // Rows
  // ---------------------------------------------------------------------

  predicate IsStable(publicId: Text) {
    publicId != [] && forall u :: u in publicId ==> !Unstable(u)
  }

  /** The row under an identifier already read, if the identifier and the profile's other fields allow one. */
  function RowUnder(publicId: Text, element: Element): Result<Row, Failure>
    requires element.Profile?
  {
    if !IsStable(publicId) then Err(MalformedElement)
    else
      var _ :- OptionalText(element.firstName);
      var _ :- OptionalText(element.lastName);
      var _ :- OptionalText(element.occupation);
      if PercentEncoding.Encode(publicId).None? then Err(UriError)
      else Ok(Row(publicId, element))
  }

  function MapConnection(element: Element): Result<Row, Failure> {
    if element.NoMiniProfile? then Err(MalformedElement)
    else
      var publicId :- OptionalText(element.publicIdentifier);
      RowUnder(publicId, element)
  }

  /** An entry of a page, as `MapConnection` reads it. */
  type Entry = Result<Row, Failure>

  /** The entry is what some element maps to. */
  ghost predicate IsMapped(entry: Entry) {
    exists element :: MapConnection(element) == entry
  }

  /** An identifier that can stand in an address as it is: stable, and possible to encode. */
  ghost predicate Addressable(publicId: Text) {
    IsStable(publicId) && PercentEncoding.WellFormed(publicId)
  }

  lemma RowUnderIff(publicId: Text, element: Element)
    requires element.Profile?
    ensures RowUnder(publicId, element).Ok? <==>
            && Addressable(publicId)
            && !element.firstName.NotText? && !element.lastName.NotText? && !element.occupation.NotText?
    ensures RowUnder(publicId, element).Ok? ==> RowUnder(publicId, element).value == Row(publicId, element)
  {
    PercentEncoding.EncodeThrowsIffLoneSurrogate(publicId);
    OptionalIffText(element.firstName);
    OptionalIffText(element.lastName);
    OptionalIffText(element.occupation);
  }

  /** A field may be missing, but not be of the wrong type. */
  lemma OptionalIffText(field: Field)
    ensures OptionalText(field).Ok? <==> !field.NotText?
  {
  }

  /**
   An element maps to a row, under its cleaned identifier, exactly when it names a profile with an
   addressable one and no field of the wrong type.
   */
  lemma MapsIff(element: Element)
    ensures MapConnection(element).Ok? <==>
            && element.Profile? && element.publicIdentifier.Raw?
            && Addressable(CleanText(element.publicIdentifier.text))
            && !element.firstName.NotText? && !element.lastName.NotText? && !element.occupation.NotText?
    ensures MapConnection(element).Ok? ==>
              MapConnection(element).value == Row(CleanText(element.publicIdentifier.text), element)
  {
    if element.Profile? && element.publicIdentifier.Raw? {
      RowUnderIff(CleanText(element.publicIdentifier.text), element);
    }
  }

  /**
   Why an element does not map: its shape or a field's type, or, all that being right, an
   identifier no address can hold.
   */
  lemma MapsOrSaysWhy(element: Element)
    ensures MapConnection(element).Err? ==>
              MapConnection(element).error ==
              if element.Profile? && element.publicIdentifier.Raw? && IsStable(CleanText(element.publicIdentifier.text))
                 && !element.firstName.NotText? && !element.lastName.NotText? && !element.occupation.NotText?
              then UriError else MalformedElement
  {
    if element.Profile? && element.publicIdentifier.Raw? {
      UnderSaysWhy(CleanText(element.publicIdentifier.text), element);
    }
  }

  lemma UnderSaysWhy(publicId: Text, element: Element)
    requires element.Profile?
    ensures RowUnder(publicId, element).Err? ==>
              RowUnder(publicId, element).error ==
              if IsStable(publicId) && !element.firstName.NotText? && !element.lastName.NotText?
                 && !element.occupation.NotText?
              then UriError else MalformedElement
  {
  }

  /** A row maps from the element it carries, and carries an identifier fit for its address. */
  lemma MappedIsAddressable(entry: Entry)
    requires IsMapped(entry) && entry.Ok?
    ensures MapConnection(entry.value.element) == entry && Addressable(entry.value.publicId)
  {
    var element :| MapConnection(element) == entry;
    MapsIff(element);
  }
}
