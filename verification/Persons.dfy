/** How a display name becomes a person's id (packages/api-types/src/persons.ts). */
module Persons {
  import opened Wrappers
  import opened Text
  import Decimal

  // ---------------------------------------------------------------------
  // Slugs
  // ---------------------------------------------------------------------

  /** [a-z0-9] */
  predicate IsAlnum(u: CodeUnit) {
    0x61 <= u <= 0x7A || IsDigit(u)
  }

  /** `replace(/[^a-z0-9-]/g, "")` */
  function KeepSlugUnits(t: Text): Text {
    if t == [] then []
    else (if IsAlnum(t[0]) || t[0] == HYPHEN then [t[0]] else []) + KeepSlugUnits(t[1..])
  }

  /** `replace(/-+/g, "-")` */
  function CollapseHyphens(t: Text): Text {
    if |t| >= 2 && t[0] == HYPHEN && t[1] == HYPHEN then CollapseHyphens(t[1..])
    else if t == [] then []
    else [t[0]] + CollapseHyphens(t[1..])
  }

  /** `replace(/^-|-$/g, "")`: one hyphen off each end. */
  function StripHyphens(t: Text): Text {
    var s := StripLeading(t);
    if s != [] && s[|s| - 1] == HYPHEN then s[..|s| - 1] else s
  }

  function StripLeading(t: Text): Text {
    if t != [] && t[0] == HYPHEN then t[1..] else t
  }

  /** The passes after lower-casing, which is left to the caller: `toLowerCase` rests on Unicode tables. */
  function SlugOfLowered(t: Text): Text {
    StripHyphens(CollapseHyphens(KeepSlugUnits(ReplaceSpaceRuns(Trim(t), HYPHEN))))
  }

  function GeneratePersonSlug(toLowerCase: Text -> Text, displayName: Text): Text {
    SlugOfLowered(toLowerCase(displayName))
  }

  predicate NoDoubledHyphen(t: Text) {
    forall i :: 0 < i < |t| ==> t[i - 1] != HYPHEN || t[i] != HYPHEN
  }

  predicate SlugAlphabet(t: Text) {
    forall i :: 0 <= i < |t| ==> IsAlnum(t[i]) || t[i] == HYPHEN
  }

  predicate IsSlug(t: Text) {
    SlugAlphabet(t) && NoDoubledHyphen(t)
    && (t != [] ==> t[0] != HYPHEN && t[|t| - 1] != HYPHEN)
  }

  // ---------------------------------------------------------------------
  // What a slug says
  // ---------------------------------------------------------------------

  function Flushed(word: Text): seq<Text> {
    if word == [] then [] else [word]
  }

  /**
   The words of a name, read in one pass: white space and hyphens end a word, letters and digits
   belong to it, and anything else is skipped. `word` is the word begun so far.
   */
  function Words(word: Text, t: Text): seq<Text>
    decreases t
  {
    if t == [] then Flushed(word)
    else if IsAlnum(t[0]) then Words(word + [t[0]], t[1..])
    else if IsBreak(t[0]) then Flushed(word) + Words([], t[1..])
    else Words(word, t[1..])
  }

  predicate IsBreak(u: CodeUnit) {
    IsSpace(u) || u == HYPHEN
  }

  lemma {:induction false} WordsIgnoreLastBreak(word: Text, t: Text)
    requires t != [] && IsBreak(t[|t| - 1])
    ensures Words(word, t) == Words(word, t[..|t| - 1])
    decreases t
  {
    if |t| > 1 {
      assert t[1..][..|t| - 2] == t[..|t| - 1][1..];
      WordsIgnoreLastBreak([], t[1..]);
      WordsIgnoreLastBreak(word, t[1..]);
      WordsIgnoreLastBreak(word + [t[0]], t[1..]);
    } else {
      assert Words([], t[1..]) == [];
    }
  }

  lemma WordsIgnoreFirstBreak(u: CodeUnit, t: Text)
    requires IsBreak(u)
    ensures Words([], [u] + t) == Words([], t)
  {
    assert !IsAlnum(u);
    assert ([u] + t)[1..] == t;
    assert [] + Words([], t) == Words([], t);
  }

  lemma {:induction false} TrimStartKeepsWords(t: Text)
    ensures Words([], TrimStart(t)) == Words([], t)
  {
    if t != [] && IsSpace(t[0]) {
      TrimStartKeepsWords(t[1..]);
      WordsIgnoreFirstBreak(t[0], t[1..]);
      assert t == [t[0]] + t[1..];
    }
  }

  lemma {:induction false} TrimEndKeepsWords(t: Text)
    ensures Words([], TrimEnd(t)) == Words([], t)
  {
    if t != [] && IsSpace(t[|t| - 1]) {
      WordsIgnoreLastBreak([], t);
      TrimEndKeepsWords(t[..|t| - 1]);
    }
  }

  lemma {:induction false} ReplaceSpaceRunsKeepsWords(word: Text, t: Text)
    ensures Words(word, ReplaceSpaceRuns(t, HYPHEN)) == Words(word, t)
    decreases t
  {
    if t != [] {
      ReplaceSpaceRunsKeepsWords([], t[1..]);
      ReplaceSpaceRunsKeepsWords(word, t[1..]);
      ReplaceSpaceRunsKeepsWords(word + [t[0]], t[1..]);
    }
  }

  lemma {:induction false} ReplaceSpaceRunsLeavesNoSpace(t: Text)
    ensures forall i :: 0 <= i < |ReplaceSpaceRuns(t, HYPHEN)| ==> !IsSpace(ReplaceSpaceRuns(t, HYPHEN)[i])
  {
    if t != [] {
      ReplaceSpaceRunsLeavesNoSpace(t[1..]);
    }
  }

  lemma {:induction false} KeepSlugUnitsKeepsWords(word: Text, t: Text)
    requires forall i :: 0 <= i < |t| ==> !IsSpace(t[i])
    ensures SlugAlphabet(KeepSlugUnits(t))
    ensures Words(word, KeepSlugUnits(t)) == Words(word, t)
    decreases t
  {
    if t != [] {
      KeepSlugUnitsKeepsWords([], t[1..]);
      KeepSlugUnitsKeepsWords(word, t[1..]);
      KeepSlugUnitsKeepsWords(word + [t[0]], t[1..]);
      assert ([t[0]] + KeepSlugUnits(t[1..]))[1..] == KeepSlugUnits(t[1..]);
      assert [] + KeepSlugUnits(t[1..]) == KeepSlugUnits(t[1..]);
    }
  }

  lemma {:induction false} CollapseHyphensKeepsWords(word: Text, t: Text)
    requires SlugAlphabet(t)
    ensures SlugAlphabet(CollapseHyphens(t)) && NoDoubledHyphen(CollapseHyphens(t))
    ensures t != [] ==> CollapseHyphens(t) != [] && CollapseHyphens(t)[0] == t[0]
    ensures Words(word, CollapseHyphens(t)) == Words(word, t)
    decreases t
  {
    if t != [] {
      CollapseHyphensKeepsWords([], t[1..]);
      CollapseHyphensKeepsWords(word, t[1..]);
      CollapseHyphensKeepsWords(word + [t[0]], t[1..]);
      assert ([t[0]] + CollapseHyphens(t[1..]))[1..] == CollapseHyphens(t[1..]);
    }
  }

  lemma StripHyphensKeepsWords(t: Text)
    requires SlugAlphabet(t) && NoDoubledHyphen(t)
    ensures IsSlug(StripHyphens(t)) && Words([], StripHyphens(t)) == Words([], t)
  {
    var s := StripLeading(t);
    if t != [] && t[0] == HYPHEN {
      WordsIgnoreFirstBreak(t[0], t[1..]);
      assert t == [t[0]] + t[1..];
    }
    assert Words([], s) == Words([], t);
    if s != [] && s[|s| - 1] == HYPHEN {
      WordsIgnoreLastBreak([], s);
    }
  }

  lemma WordsOfSlug(t: Text)
    ensures IsSlug(SlugOfLowered(t)) && Words([], SlugOfLowered(t)) == Words([], t)
  {
    TrimStartKeepsWords(t);
    TrimEndKeepsWords(TrimStart(t));
    var spaced := ReplaceSpaceRuns(Trim(t), HYPHEN);
    ReplaceSpaceRunsKeepsWords([], Trim(t));
    ReplaceSpaceRunsLeavesNoSpace(Trim(t));
    KeepSlugUnitsKeepsWords([], spaced);
    CollapseHyphensKeepsWords([], KeepSlugUnits(spaced));
    StripHyphensKeepsWords(CollapseHyphens(KeepSlugUnits(spaced)));
  }

  /** Whatever the name, its slug is made of lower-case ASCII letters, digits and single inner hyphens. */
  lemma SlugIsPlain(t: Text, i: nat)
    requires i < |SlugOfLowered(t)|
    ensures var slug := SlugOfLowered(t);
            && ('a' as int <= slug[i] <= 'z' as int || '0' as int <= slug[i] <= '9' as int || slug[i] == '-' as int)
            && (slug[i] == '-' as int ==> 0 < i < |slug| - 1 && slug[i - 1] != '-' as int)
  {
    WordsOfSlug(t);
  }

  /** A unit is kept exactly when it is a lower-case ASCII letter or a digit. */
  lemma OneUnitSlug(u: CodeUnit)
    ensures IsAlnum(u) <==> 'a' as int <= u <= 'z' as int || '0' as int <= u <= '9' as int
    ensures IsBreak(u) <==> IsSpace(u) || u == '-' as int
  {
  }

  /** A well-formed slug, with a word begun before it, is its words joined by single hyphens. */
  lemma {:induction false} JoinedWords(word: Text, t: Text)
    requires SlugAlphabet(t) && NoDoubledHyphen(t) && (t != [] ==> t[|t| - 1] != HYPHEN)
    requires word != [] || (t != [] && t[0] != HYPHEN)
    ensures Words(word, t) != [] && Join(Words(word, t), HYPHEN) == word + t
    decreases t
  {
    if t == [] {
      assert word + t == word;
    } else if IsAlnum(t[0]) {
      var rest := t[1..];
      assert rest != [] ==> rest[|rest| - 1] == t[|t| - 1];
      JoinedWords(word + [t[0]], rest);
      assert (word + [t[0]]) + rest == word + t;
    } else {
      assert t[0] == HYPHEN;
      var rest := t[1..];
      HyphenThenWord(t);
      JoinedWords([], rest);
      JoinOneMore(word, Words([], rest));
      assert Words(word, t) == [word] + Words([], rest);
      assert word + [HYPHEN] + ([] + rest) == word + t;
    }
  }

  lemma HyphenThenWord(t: Text)
    requires SlugAlphabet(t) && NoDoubledHyphen(t) && t != [] && t[0] == HYPHEN && t[|t| - 1] != HYPHEN
    ensures |t| > 1 && t[1..][0] != HYPHEN && t[1..][|t| - 2] != HYPHEN
    ensures SlugAlphabet(t[1..]) && NoDoubledHyphen(t[1..])
  {
  }

  lemma JoinOneMore(word: Text, rest: seq<Text>)
    requires rest != []
    ensures Join([word] + rest, HYPHEN) == word + [HYPHEN] + Join(rest, HYPHEN)
  {
    assert ([word] + rest)[1..] == rest;
  }

  /**
   The five passes give what one reading of the name gives: its words, each reduced to letters and
   digits, joined by single hyphens. Empty exactly when no word survives.
   */
  lemma SlugJoinsWords(t: Text)
    ensures SlugOfLowered(t) == Join(Words([], t), HYPHEN)
    ensures IsSlug(SlugOfLowered(t))
    ensures SlugOfLowered(t) == [] <==> forall i :: 0 <= i < |t| ==> !IsAlnum(t[i])
  {
    WordsOfSlug(t);
    var slug := SlugOfLowered(t);
    if slug != [] {
      JoinedWords([], slug);
    }
    NoWordsIff([], t);
  }

  lemma {:induction false} NoWordsIff(word: Text, t: Text)
    ensures Words(word, t) == [] <==> word == [] && forall i :: 0 <= i < |t| ==> !IsAlnum(t[i])
    decreases t
  {
    if t != [] {
      NoWordsIff([], t[1..]);
      NoWordsIff(word, t[1..]);
      NoWordsIff(word + [t[0]], t[1..]);
      assert forall i :: 1 <= i < |t| ==> t[i] == t[1..][i - 1];
    }
  }

  // ---------------------------------------------------------------------
  // Fixpoints
  // ---------------------------------------------------------------------

  lemma {:induction false} PassesLeaveSlugAlone(t: Text)
    requires SlugAlphabet(t)
    ensures ReplaceSpaceRuns(t, HYPHEN) == t && KeepSlugUnits(t) == t
    ensures NoDoubledHyphen(t) ==> CollapseHyphens(t) == t
  {
    if t != [] {
      PassesLeaveSlugAlone(t[1..]);
      assert t == [t[0]] + t[1..];
    }
  }

  /** The slugs are exactly the texts slugging leaves alone; so slugging twice is slugging once. */
  lemma SlugsAreFixpoints(t: Text)
    ensures SlugOfLowered(t) == t <==> IsSlug(t)
    ensures SlugOfLowered(SlugOfLowered(t)) == SlugOfLowered(t)
  {
    WordsOfSlug(t);
    SlugLeftAlone(SlugOfLowered(t));
    if IsSlug(t) {
      SlugLeftAlone(t);
    }
  }

  lemma SlugLeftAlone(t: Text)
    requires IsSlug(t)
    ensures SlugOfLowered(t) == t
  {
    assert t != [] ==> !IsSpace(t[0]) && !IsSpace(t[|t| - 1]);
    assert Trim(t) == t;
    PassesLeaveSlugAlone(t);
  }

  /** Idempotence of the whole derivation, given that lower-casing leaves [a-z0-9-] alone. */
  lemma GeneratePersonSlugIsIdempotent(toLowerCase: Text -> Text, displayName: Text)
    requires forall t :: SlugAlphabet(t) ==> toLowerCase(t) == t
    ensures IsSlug(GeneratePersonSlug(toLowerCase, displayName))
    ensures GeneratePersonSlug(toLowerCase, GeneratePersonSlug(toLowerCase, displayName))
         == GeneratePersonSlug(toLowerCase, displayName)
  {
    WordsOfSlug(toLowerCase(displayName));
    SlugsAreFixpoints(toLowerCase(displayName));
  }

  // ---------------------------------------------------------------------
  // Ids
  // ---------------------------------------------------------------------

  /** The number an id carries after `base-`, or None when it carries none. */
  function SuffixOf(base: Text, id: Text): Option<int> {
    if base + [HYPHEN] <= id then Decimal.ParseInt(id[|base| + 1..]) else None
  }

  function Numbered(base: Text, suffix: nat): Text {
    base + [HYPHEN] + Decimal.Print(suffix)
  }

  /** `next` follows the greatest of `numbers`, or is 2 where that is more. */
  ghost predicate IsNext(numbers: seq<Option<int>>, next: int) {
    && next >= 2
    && (forall n :: Some(n) in numbers ==> n < next)
    && (next == 2 || Some(next - 1) in numbers)
  }

  function Numbers(ids: seq<Text>, numberOf: Text -> Option<int>): (numbers: seq<Option<int>>)
    ensures |numbers| == |ids|
    ensures forall i :: 0 <= i < |ids| ==> numbers[i] == numberOf(ids[i])
  {
    seq(|ids|, i requires 0 <= i < |ids| => numberOf(ids[i]))
  }

  function Suffix(base: Text): Text -> Option<int> {
    id => SuffixOf(base, id)
  }

  /** The suffix a new id gets: the one that follows the greatest among those taken, from 2 on. */
  ghost predicate IsNextSuffix(base: Text, taken: seq<Text>, suffix: int) {
    IsNext(Numbers(taken, Suffix(base)), suffix)
  }

  /** The next suffix after looking at one more number. */
  function Raised(number: Option<int>, next: nat): nat {
    if number.Some? && number.value >= next then number.value + 1 else next
  }

  lemma RaisedIsNext(numbers: seq<Option<int>>, i: nat, next: nat)
    requires i < |numbers| && IsNext(numbers[..i], next)
    ensures IsNext(numbers[..i + 1], Raised(numbers[i], next))
  {
    assert numbers[..i + 1] == numbers[..i] + [numbers[i]];
    assert numbers[i] in numbers[..i + 1];
  }

  method NextAvailablePersonId(base: Text, taken: seq<Text>) returns (id: Text)
    ensures base !in taken ==> id == base
    ensures base in taken ==> exists suffix: nat :: IsNextSuffix(base, taken, suffix) && id == Numbered(base, suffix)
    ensures id !in taken
  {
    if base !in taken {
      return base;
    }
    var suffix := HighestSuffix(base, taken);
    id := Numbered(base, suffix);
    NumberedIsFresh(base, taken, suffix);
  }

  method HighestSuffix(base: Text, taken: seq<Text>) returns (suffix: nat)
    ensures IsNextSuffix(base, taken, suffix)
  {
    suffix := 2;
    ghost var numbers := Numbers(taken, Suffix(base));
    for i := 0 to |taken|
      invariant IsNext(numbers[..i], suffix)
    {
      ghost var raised := Raised(numbers[i], suffix);
      RaisedIsNext(numbers, i, suffix);
      var num := ReadSuffix(base, taken[i]);
      if num.Some? && num.value >= suffix {
        suffix := num.value + 1;
      }
      assert suffix == raised;
    }
    assert numbers[..|taken|] == numbers;
  }

  method ReadSuffix(base: Text, id: Text) returns (num: Option<int>)
    ensures num == Suffix(base)(id)
  {
    if !(base + [HYPHEN] <= id) {
      return None;
    }
    num := Decimal.ParseInt(id[|base| + 1..]);
  }

  /** A numbered id is the base, "-" and the number. */
  lemma NumberedReads(base: Text, suffix: nat)
    ensures Numbered(base, suffix) == base + Ascii("-") + Decimal.Print(suffix)
  {
    assert Ascii("-") == [HYPHEN];
  }

  lemma SuffixOfNumbered(base: Text, suffix: nat)
    ensures SuffixOf(base, Numbered(base, suffix)) == Some(suffix)
  {
    assert Numbered(base, suffix)[|base| + 1..] == Decimal.Print(suffix) + [];
    Decimal.ParseIntOfPrint(suffix, []);
  }

  /** One past every suffix in use names nobody: printing a number and reading it back gives the number. */
  lemma NumberedIsFresh(base: Text, taken: seq<Text>, suffix: nat)
    requires IsNextSuffix(base, taken, suffix)
    ensures Numbered(base, suffix) !in taken
  {
    SuffixOfNumbered(base, suffix);
    UnlistedNumber(taken, Suffix(base), Numbered(base, suffix), suffix);
  }

  lemma UnlistedNumber(taken: seq<Text>, numberOf: Text -> Option<int>, id: Text, suffix: int)
    requires IsNext(Numbers(taken, numberOf), suffix) && numberOf(id) == Some(suffix)
    ensures id !in taken
  {
    forall i | 0 <= i < |taken|
      ensures taken[i] != id
    {
      assert Numbers(taken, numberOf)[i] == numberOf(taken[i]);
    }
  }

  /** The id minted depends on which ids are taken, not on the order or the number of times they are listed. */
  lemma MintedIdIgnoresOrder(base: Text, taken: seq<Text>, others: seq<Text>, a: nat, b: nat)
    requires forall id :: id in taken <==> id in others
    requires IsNextSuffix(base, taken, a) && IsNextSuffix(base, others, b)
    ensures a == b && Numbered(base, a) == Numbered(base, b)
  {
    SameNumbers(taken, others, Suffix(base));
    SameNumbers(others, taken, Suffix(base));
  }

  /** The ids a minted one could collide with: the base itself, and the base numbered by digits. */
  predicate CanCollide(base: Text, id: Text) {
    id == base
    || (base + [HYPHEN] <= id && id[|base| + 1..] != [] && Decimal.AllDigits(id[|base| + 1..]))
  }

  /** The id minted once the next suffix is known. */
  function Minted(base: Text, taken: seq<Text>, suffix: nat): Text {
    if base in taken then Numbered(base, suffix) else base
  }

  /** No id outside the base's own numbers reads, by its leading digits, as a suffix from `next` on. */
  ghost predicate StraysStayBelow(base: Text, taken: seq<Text>, next: nat) {
    forall id :: id in taken && !CanCollide(base, id) && SuffixOf(base, id).Some? ==> SuffixOf(base, id).value < next
  }

  lemma HighestNumber(taken: seq<Text>, numberOf: Text -> Option<int>, next: int)
    requires IsNext(Numbers(taken, numberOf), next)
    ensures forall id :: id in taken && numberOf(id).Some? ==> numberOf(id).value < next
    ensures next == 2 || exists id :: id in taken && numberOf(id) == Some(next - 1)
  {
    var numbers := Numbers(taken, numberOf);
    forall id | id in taken && numberOf(id).Some?
      ensures numberOf(id).value < next
    {
      var i :| 0 <= i < |taken| && taken[i] == id;
      assert numbers[i] == Some(numberOf(id).value);
    }
    if next != 2 {
      var i :| 0 <= i < |numbers| && numbers[i] == Some(next - 1);
      assert taken[i] in taken && numberOf(taken[i]) == Some(next - 1);
    }
  }

  /** `kept` is `taken` without the ids that cannot collide. */
  ghost predicate IsFiltered(base: Text, taken: seq<Text>, kept: seq<Text>) {
    forall id :: id in kept <==> id in taken && CanCollide(base, id)
  }

  /**
   Leaving out the ids that cannot collide changes nothing if and only if the base is free, or no id
   left out leads with a number at or past the suffix the rest would mint.
   */
  lemma StraysIgnoredIff(base: Text, taken: seq<Text>, kept: seq<Text>, a: nat, b: nat)
    requires IsFiltered(base, taken, kept)
    requires IsNextSuffix(base, taken, a) && IsNextSuffix(base, kept, b)
    ensures Minted(base, taken, a) == Minted(base, kept, b) <==> base !in taken || StraysStayBelow(base, taken, b)
  {
    HighestNumber(taken, Suffix(base), a);
    HighestNumber(kept, Suffix(base), b);
    NumberedInjective(base, a, b);
    assert forall id :: Suffix(base)(id) == SuffixOf(base, id);
    assert b <= a;
    assert StraysStayBelow(base, taken, b) ==> a <= b;
  }

  /** "ada-30-b" is not "ada" numbered, yet it reads as 30; and so for any base, number and tail. */
  lemma StrayReadsAsSuffix(base: Text, n: nat, more: Text)
    ensures var stray := Numbered(base, n) + [HYPHEN] + more;
            SuffixOf(base, stray) == Some(n) && !CanCollide(base, stray)
  {
    var stray := Numbered(base, n) + [HYPHEN] + more;
    var read := Decimal.Print(n) + ([HYPHEN] + more);
    assert stray[|base| + 1..] == read;
    assert base + [HYPHEN] == stray[..|base| + 1];
    assert read[|Decimal.Print(n)|] == HYPHEN && !IsDigit(HYPHEN);
    Decimal.ParseIntOfPrint(n, [HYPHEN] + more);
  }

  lemma NextAfterOne(a: Text, b: Text, numberOf: Text -> Option<int>, n: nat)
    requires n >= 2 && numberOf(a) == None && numberOf(b) == Some(n)
    ensures IsNext(Numbers([a, b], numberOf), n + 1) && IsNext(Numbers([a], numberOf), 2)
  {
    assert Numbers([a, b], numberOf)[1] == Some(n);
  }

  /** With only such a stray taken beside the base, the next suffix is one past it instead of 2. */
  lemma StrayRaisesSuffix(base: Text, stray: Text, n: nat)
    requires n >= 2 && SuffixOf(base, stray) == Some(n) && !CanCollide(base, stray)
    ensures IsFiltered(base, [base, stray], [base])
    ensures IsNextSuffix(base, [base, stray], n + 1) && IsNextSuffix(base, [base], 2)
    ensures Minted(base, [base, stray], n + 1) == Numbered(base, n + 1) != Numbered(base, 2) == Minted(base, [base], 2)
  {
    NextAfterOne(base, stray, Suffix(base), n);
    NumberedInjective(base, n + 1, 2);
  }

  lemma NumberedInjective(base: Text, m: nat, n: nat)
    ensures Numbered(base, m) == Numbered(base, n) <==> m == n
  {
    SuffixOfNumbered(base, m);
    SuffixOfNumbered(base, n);
  }

  lemma SameNumbers(taken: seq<Text>, others: seq<Text>, numberOf: Text -> Option<int>)
    requires forall id :: id in taken ==> id in others
    ensures forall number :: number in Numbers(taken, numberOf) ==> number in Numbers(others, numberOf)
  {
    forall i | 0 <= i < |taken|
      ensures Numbers(taken, numberOf)[i] in Numbers(others, numberOf)
    {
      assert taken[i] in others;
      var j :| 0 <= j < |others| && others[j] == taken[i];
      assert Numbers(others, numberOf)[j] == numberOf(taken[i]);
    }
  }
}
