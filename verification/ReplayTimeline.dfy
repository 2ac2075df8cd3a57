/** What every plan's clock keeps: ordered disjoint beats, one create per message, and an exact typing budget. */
module ReplayTimeline {
  import opened Text
  import opened Replay
  import opened Wrappers

  /** Beat `i` of the whole plan, on its own. */
  lemma {:induction false} BeatIsPlanned(changes: seq<TraceChange>, s: ReplaySettings, n: nat, i: nat)
    requires i < n <= |changes|
    ensures BeatsOf(changes, s, n)[..i] == BeatsOf(changes, s, i)
    ensures BeatsOf(changes, s, n)[i] == BeatAfter(BeatsOf(changes, s, i), changes, i, s)
  {
    var before := BeatsOf(changes, s, n - 1);
    assert BeatsOf(changes, s, n)[..n - 1] == before;
    if i < n - 1 {
      BeatIsPlanned(changes, s, n - 1, i);
      assert BeatsOf(changes, s, n)[..i] == before[..i];
    }
  }

  // ---------------------------------------------------------------------
  // Order
  // ---------------------------------------------------------------------

  /** A beat never ends before it starts, and the next starts only once it has ended. */
  ghost predicate Ordered(beats: seq<ReplayBeat>) {
    && (forall i :: 0 <= i < |beats| ==> 0.0 <= beats[i].start <= beats[i].end)
    && (forall i, j :: 0 <= i < j < |beats| ==> beats[i].end <= beats[j].start)
  }

  lemma {:induction false} BeatsAreOrdered(changes: seq<TraceChange>, s: ReplaySettings, n: nat)
    requires DelaysForward(s) && n <= |changes|
    ensures Ordered(BeatsOf(changes, s, n))
    ensures forall i :: 0 <= i < n ==> BeatsOf(changes, s, n)[i].end <= Clock(BeatsOf(changes, s, n))
  {
    if n > 0 {
      BeatsAreOrdered(changes, s, n - 1);
    }
  }

  // ---------------------------------------------------------------------
  // Creates
  // ---------------------------------------------------------------------

  lemma {:induction false} LatestMessageExists(changes: seq<TraceChange>, n: nat, id: Text)
    requires n <= |changes|
    ensures LatestMessage(changes, n, id).Some? <==> exists i :: 0 <= i < n && changes[i].message.id == id
  {
    if n > 0 {
      LatestMessageExists(changes, n - 1, id);
    }
  }

  /** A beat creates its message exactly when no earlier beat is about that message. */
  lemma CreateIsFirst(changes: seq<TraceChange>, s: ReplaySettings, i: nat)
    requires i < |changes|
    ensures var beats := PlanOf(changes, s).beats;
            && beats[i].message == changes[i].message
            && beats[i].at == changes[i].at
            && (beats[i].kind.Create? <==> forall j :: 0 <= j < i ==> beats[j].message.id != beats[i].message.id)
  {
    var beats := PlanOf(changes, s).beats;
    forall j | 0 <= j <= i
      ensures beats[j].message == changes[j].message
    {
      BeatIsPlanned(changes, s, |changes|, j);
    }
    BeatIsPlanned(changes, s, |changes|, i);
    LatestMessageExists(changes, i, changes[i].message.id);
  }

  // ---------------------------------------------------------------------
  // Waiting
  // ---------------------------------------------------------------------

  /** Some change before change `i` is about the same message. */
  predicate HasEarlier(changes: seq<TraceChange>, i: nat)
    requires i < |changes|
  {
    exists j :: 0 <= j < i && changes[j].message.id == changes[i].message.id
  }

  lemma KindIsByEarlier(changes: seq<TraceChange>, i: nat)
    requires i < |changes|
    ensures KindOf(changes, i).Edit? <==> HasEarlier(changes, i)
  {
    LatestMessageExists(changes, i, changes[i].message.id);
  }

  /**
   The first beat starts at 0, and every other as long after the end of the one before as its setting
   says: the edit delay when an earlier change has its message, the message delay when none has.
   */
  lemma GapsAreDelays(changes: seq<TraceChange>, s: ReplaySettings, i: nat)
    requires i < |changes|
    ensures var beats := PlanOf(changes, s).beats;
            beats[i].start ==
            if i == 0 then 0.0
            else if HasEarlier(changes, i) then beats[i - 1].end + s.editDelayMs
            else beats[i - 1].end + s.messageDelayMs
  {
    BeatIsPlanned(changes, s, |changes|, i);
    KindIsByEarlier(changes, i);
    if i > 0 {
      assert PlanOf(changes, s).beats[..i][i - 1] == PlanOf(changes, s).beats[i - 1];
    }
  }

  function TypingSum(beats: seq<ReplayBeat>): real {
    if beats == [] then 0.0
    else TypingSum(beats[..|beats| - 1]) + (beats[|beats| - 1].end - beats[|beats| - 1].start)
  }

  /** How many of the first `n` changes are edits: about a message an earlier one is about. */
  function Edits(changes: seq<TraceChange>, n: nat): (edits: nat)
    requires n <= |changes|
    ensures edits <= n && (n > 0 ==> edits < n)
  {
    if n == 0 then 0
    else
      assert n == 1 ==> !HasEarlier(changes, 0);
      Edits(changes, n - 1) + (if HasEarlier(changes, n - 1) then 1 else 0)
  }

  /** The waiting before the last of `n` changes: one delay for each but the first, by its kind. */
  function Waiting(changes: seq<TraceChange>, s: ReplaySettings, n: nat): real
    requires n <= |changes|
  {
    if n == 0 then 0.0
    else (n - Edits(changes, n) - 1) as real * s.messageDelayMs + Edits(changes, n) as real * s.editDelayMs
  }

  lemma WaitingOneMore(changes: seq<TraceChange>, s: ReplaySettings, n: nat)
    requires 0 < n < |changes|
    ensures Waiting(changes, s, n + 1)
         == Waiting(changes, s, n) + (if HasEarlier(changes, n) then s.editDelayMs else s.messageDelayMs)
  {
    var creates, edits := n - Edits(changes, n) - 1, Edits(changes, n);
    assert (creates + 1) as real * s.messageDelayMs == creates as real * s.messageDelayMs + s.messageDelayMs;
    assert (edits + 1) as real * s.editDelayMs == edits as real * s.editDelayMs + s.editDelayMs;
  }

  lemma {:induction false} ClockIsTypingPlusDelays(changes: seq<TraceChange>, s: ReplaySettings, n: nat)
    requires n <= |changes|
    ensures Clock(BeatsOf(changes, s, n)) == TypingSum(BeatsOf(changes, s, n)) + Waiting(changes, s, n)
  {
    if n > 0 {
      ClockIsTypingPlusDelays(changes, s, n - 1);
      assert BeatsOf(changes, s, n)[..n - 1] == BeatsOf(changes, s, n - 1);
      KindIsByEarlier(changes, n - 1);
      if n > 1 {
        WaitingOneMore(changes, s, n - 1);
      } else {
        assert !HasEarlier(changes, 0) && Edits(changes, 1) == 0;
      }
    }
  }

  /**
   A replay lasts as long as it types, plus the message delay for each message but the first and
   the edit delay for each edit.
   */
  lemma DurationIsTypingPlusDelays(changes: seq<TraceChange>, s: ReplaySettings)
    ensures var plan := PlanOf(changes, s);
            plan.duration == TypingSum(plan.beats) + Waiting(changes, s, |changes|)
  {
    ClockIsTypingPlusDelays(changes, s, |changes|);
  }

  // ---------------------------------------------------------------------
  // What is typed
  // ---------------------------------------------------------------------

  /**
   A beat takes time exactly when the typewriter is on for its sender, has time to spend, and the
   text is new past what it keeps.
   */
  lemma BeatTypesIff(changes: seq<TraceChange>, s: ReplaySettings, i: nat)
    requires i < |changes|
    ensures var beat := PlanOf(changes, s).beats[i];
            beat.end > beat.start <==>
            && s.typewriter && (beat.message.from.Rome? || s.typeUserMessages)
            && s.maxTypingMs > 0.0
            && beat.keep < |beat.message.text|
  {
    BeatIsPlanned(changes, s, |changes|, i);
    var beat := PlanOf(changes, s).beats[i];
    var here, total := Characters(changes, i, s), TypedCharacters(changes, |changes|, beat.message.id, s);
    CharactersAreCounted(changes, i, |changes|, s);
    if here > 0 && s.maxTypingMs > 0.0 {
      PositiveQuotient(here as real, Speed(total, s));
    }
  }

  lemma PositiveQuotient(a: real, b: real)
    requires a > 0.0 && b > 0.0
    ensures a / b > 0.0
  {
    assert a / b * b == a;
  }

  // ---------------------------------------------------------------------
  // The typing budget
  // ---------------------------------------------------------------------

  /** The characters typed of message `id`: of each change to it by a typed sender, those past what the beat keeps. */
  function TypedPastKeep(beats: seq<ReplayBeat>, id: Text, s: ReplaySettings): int {
    if beats == [] then 0
    else
      var last := beats[|beats| - 1];
      TypedPastKeep(beats[..|beats| - 1], id, s)
      + (if last.message.id == id && s.typewriter && (last.message.from.Rome? || s.typeUserMessages)
         then |last.message.text| - last.keep else 0)
  }

  lemma {:induction false} TypedIsPastKeep(changes: seq<TraceChange>, s: ReplaySettings, n: nat, id: Text)
    requires n <= |changes|
    ensures TypedCharacters(changes, n, id, s) == TypedPastKeep(BeatsOf(changes, s, n), id, s)
  {
    if n > 0 {
      TypedIsPastKeep(changes, s, n - 1, id);
      assert BeatsOf(changes, s, n)[..n - 1] == BeatsOf(changes, s, n - 1);
    }
  }

  /**
   What a beat keeps of its message is all the new text shares, from the start, with the text of the
   latest earlier change to it; nothing where there is none.
   */
  lemma KeepsSharedPrefix(changes: seq<TraceChange>, s: ReplaySettings, i: nat, j: nat)
    requires i < |changes|
    ensures !HasEarlier(changes, i) ==> PlanOf(changes, s).beats[i].keep == 0
    ensures j < i && changes[j].message.id == changes[i].message.id
            && (forall k :: j < k < i ==> changes[k].message.id != changes[i].message.id) ==>
              var before, text := changes[j].message.text, changes[i].message.text;
              var keep := PlanOf(changes, s).beats[i].keep;
              && keep <= |before| && keep <= |text| && before[..keep] == text[..keep]
              && (keep == |before| || keep == |text| || before[keep] != text[keep])
  {
    BeatIsPlanned(changes, s, |changes|, i);
    LatestMessageExists(changes, i, changes[i].message.id);
    if j < i && changes[j].message.id == changes[i].message.id
       && (forall k :: j < k < i ==> changes[k].message.id != changes[i].message.id)
    {
      LatestIsLast(changes, i, j);
    }
  }

  lemma {:induction false} LatestIsLast(changes: seq<TraceChange>, n: nat, j: nat)
    requires j < n <= |changes|
    requires forall k :: j < k < n ==> changes[k].message.id != changes[j].message.id
    ensures LatestMessage(changes, n, changes[j].message.id) == Some(changes[j].message)
  {
    if j < n - 1 {
      LatestIsLast(changes, n - 1, j);
    }
  }

  /** The typing time the beats spend on message `id`. */
  function SpentOn(beats: seq<ReplayBeat>, id: Text): real {
    if beats == [] then 0.0
    else
      var last := beats[|beats| - 1];
      SpentOn(beats[..|beats| - 1], id) + (if last.message.id == id then last.end - last.start else 0.0)
  }

  /** The time `n` characters take at `rate` milliseconds each. */
  function AtRate(n: nat, rate: real): real {
    n as real * rate
  }

  lemma AtRateAdds(a: nat, b: nat, rate: real)
    ensures AtRate(a + b, rate) == AtRate(a, rate) + AtRate(b, rate)
  {
    assert (a + b) as real == a as real + b as real;
  }

  lemma DivideThenScale(a: real, b: real)
    requires b > 0.0
    ensures a / b * 1000.0 == a * (1000.0 / b) == 1000.0 * a / b
  {
    var x, y := a / b, 1000.0 / b;
    assert x * b == a && y * b == 1000.0;
    assert x * 1000.0 == x * (y * b) == (x * b) * y;
    assert 1000.0 * a == (x * 1000.0) * b;
  }

  /** A message has a speed to be typed at: something to type, or the setting's. */
  predicate HasSpeed(total: nat, s: ReplaySettings) {
    s.maxTypingMs > 0.0 && (total > 0 || s.charsPerSecond > 0.0)
  }

  /** Milliseconds per character of a message that types `total` characters in all. */
  function Rate(total: nat, s: ReplaySettings): real
    requires HasSpeed(total, s)
  {
    1000.0 / Speed(total, s)
  }

  lemma TypingAtRate(characters: nat, total: nat, s: ReplaySettings)
    requires HasSpeed(total, s) && characters <= total
    ensures TypingMs(characters, total, s) == AtRate(characters, Rate(total, s))
  {
    DivideThenScale(characters as real, Speed(total, s));
  }

  lemma BeatSpends(changes: seq<TraceChange>, s: ReplaySettings, i: nat)
    requires i < |changes|
    ensures var beat := BeatAfter(BeatsOf(changes, s, i), changes, i, s);
            var total := TypedCharacters(changes, |changes|, beat.message.id, s);
            Characters(changes, i, s) <= total && beat.end - beat.start == TypingMs(Characters(changes, i, s), total, s)
  {
    CharactersAreCounted(changes, i, |changes|, s);
  }

  lemma SpentExtends(beats: seq<ReplayBeat>, beat: ReplayBeat, id: Text)
    ensures SpentOn(beats + [beat], id)
         == SpentOn(beats, id) + (if beat.message.id == id then beat.end - beat.start else 0.0)
  {
    assert (beats + [beat])[..|beats|] == beats;
  }

  /** A beat takes its characters at its message's rate. */
  lemma BeatSpendsAtRate(changes: seq<TraceChange>, s: ReplaySettings, i: nat, rate: real)
    requires i < |changes|
    requires var total := TypedCharacters(changes, |changes|, changes[i].message.id, s);
             HasSpeed(total, s) && rate == Rate(total, s)
    ensures var beat := BeatAfter(BeatsOf(changes, s, i), changes, i, s);
            beat.end - beat.start == AtRate(Characters(changes, i, s), rate)
  {
    var total := TypedCharacters(changes, |changes|, changes[i].message.id, s);
    BeatSpends(changes, s, i);
    TypingAtRate(Characters(changes, i, s), total, s);
  }

  /** One more beat at a rate: what has been spent at that rate still has. */
  lemma SpentAfterOneMore(changes: seq<TraceChange>, s: ReplaySettings, n: nat, id: Text, rate: real)
    requires n < |changes| && SpentOn(BeatsOf(changes, s, n), id) == AtRate(TypedCharacters(changes, n, id, s), rate)
    requires var beat := BeatAfter(BeatsOf(changes, s, n), changes, n, s);
             changes[n].message.id == id ==> beat.end - beat.start == AtRate(Characters(changes, n, s), rate)
    ensures SpentOn(BeatsOf(changes, s, n + 1), id) == AtRate(TypedCharacters(changes, n + 1, id, s), rate)
  {
    var beats := BeatsOf(changes, s, n);
    SpentExtends(beats, BeatAfter(beats, changes, n, s), id);
    AtRateAdds(TypedCharacters(changes, n, id, s), Characters(changes, n, s), rate);
  }

  lemma {:induction false} SpentIsCharactersAtOneRate(changes: seq<TraceChange>, s: ReplaySettings, n: nat, id: Text,
                                                      rate: real)
    requires n <= |changes|
    requires var total := TypedCharacters(changes, |changes|, id, s);
             HasSpeed(total, s) && rate == Rate(total, s)
    ensures SpentOn(BeatsOf(changes, s, n), id) == AtRate(TypedCharacters(changes, n, id, s), rate)
  {
    if n > 0 {
      SpentIsCharactersAtOneRate(changes, s, n - 1, id, rate);
      if changes[n - 1].message.id == id {
        BeatSpendsAtRate(changes, s, n - 1, rate);
      }
      SpentAfterOneMore(changes, s, n - 1, id, rate);
    }
  }

  function Least(a: real, b: real): real {
    if a <= b then a else b
  }

  lemma DivideCompares(t: real, speed: real, cap: real)
    requires speed > 0.0 && cap > 0.0
    ensures t / speed <= cap <==> t <= cap * speed
    ensures t / cap <= speed <==> t <= cap * speed
  {
    var x, y := t / speed, t / cap;
    assert x * speed == t && y * cap == t;
    assert (cap - x) * speed == cap * speed - t;
    assert (speed - y) * cap == cap * speed - t;
  }

  lemma CappedTypingTime(total: nat, s: ReplaySettings)
    requires s.maxTypingMs > 0.0 && s.charsPerSecond > 0.0
    ensures AtRate(total, Rate(total, s)) == Least(1000.0 * total as real / s.charsPerSecond, s.maxTypingMs)
  {
    var t, cps, cap := total as real, s.charsPerSecond, s.maxTypingMs / 1000.0;
    DivideThenScale(t, Speed(total, s));
    DivideThenScale(t, cps);
    DivideCompares(t, cps, cap);
    if cps < t / cap {
      assert t / cap * cap == t;
      assert t / (t / cap) == cap;
    }
  }

  /** Without a speed of its own, a message takes its cap. */
  lemma CapIsSpent(total: nat, s: ReplaySettings)
    requires s.maxTypingMs > 0.0 && s.charsPerSecond <= 0.0 && total > 0
    ensures AtRate(total, Rate(total, s)) == s.maxTypingMs
  {
    var t, cap := total as real, s.maxTypingMs / 1000.0;
    DivideThenScale(t, Speed(total, s));
    PositiveQuotient(t, cap);
    assert t / cap * cap == t;
    assert t / (t / cap) == cap;
  }

  /** The typing time of a message of `total` typed characters. */
  function TypingBudget(total: int, s: ReplaySettings): real {
    if s.maxTypingMs <= 0.0 || total == 0 then 0.0
    else if s.charsPerSecond <= 0.0 then s.maxTypingMs
    else Least(1000.0 * total as real / s.charsPerSecond, s.maxTypingMs)
  }

  /**
   Over all its beats together a message takes exactly as long as its typed characters need at
   the set speed, or exactly the cap when that is less or no speed is set; with no cap to spend, or
   nothing to type, it takes no time.
   */
  lemma TypingBudgetIsExact(changes: seq<TraceChange>, s: ReplaySettings, id: Text)
    ensures var beats := PlanOf(changes, s).beats;
            SpentOn(beats, id) == TypingBudget(TypedPastKeep(beats, id, s), s)
  {
    TypedIsPastKeep(changes, s, |changes|, id);
    var total := TypedCharacters(changes, |changes|, id, s);
    if s.maxTypingMs <= 0.0 || total == 0 {
      NothingSpent(changes, s, |changes|, id);
    } else {
      SpentIsCharactersAtOneRate(changes, s, |changes|, id, Rate(total, s));
      if s.charsPerSecond > 0.0 {
        CappedTypingTime(total, s);
      } else {
        CapIsSpent(total, s);
      }
    }
  }

  lemma {:induction false} NothingSpent(changes: seq<TraceChange>, s: ReplaySettings, n: nat, id: Text)
    requires n <= |changes|
    requires s.maxTypingMs <= 0.0 || TypedCharacters(changes, |changes|, id, s) == 0
    ensures SpentOn(BeatsOf(changes, s, n), id) == 0.0
  {
    if n > 0 {
      NothingSpent(changes, s, n - 1, id);
      var beats := BeatsOf(changes, s, n - 1);
      SpentExtends(beats, BeatAfter(beats, changes, n - 1, s), id);
      BeatSpends(changes, s, n - 1);
    }
  }
}
