/** What a replay shows at any moment, and how it grows into the recorded conversation. */
module ReplayScreen {
  import opened Wrappers
  import opened Sequences
  import opened Text
  import opened Replay
  import opened ReplayTimeline

  // ---------------------------------------------------------------------
  // Reading a screen
  // ---------------------------------------------------------------------

  function Ids(screen: seq<ReplayedMessage>): seq<Text> {
    if screen == [] then [] else [screen[0].message.id] + Ids(screen[1..])
  }

  /** What the screen shows of message `id`. */
  function Shown(screen: seq<ReplayedMessage>, id: Text): Option<ReplayedMessage> {
    if screen == [] then None
    else if screen[0].message.id == id then Some(screen[0])
    else Shown(screen[1..], id)
  }

  function AppendNew(ids: seq<Text>, id: Text): seq<Text> {
    if id in ids then ids else ids + [id]
  }

  lemma {:induction false} PutReads(screen: seq<ReplayedMessage>, m: ReplayedMessage, id: Text)
    ensures Shown(Put(screen, m), id) == if id == m.message.id then Some(m) else Shown(screen, id)
    ensures Ids(Put(screen, m)) == AppendNew(Ids(screen), m.message.id)
  {
    if screen == [] {
      assert Ids([m]) == [m.message.id] + Ids([]);
    } else if screen[0].message.id == m.message.id {
      assert ([m] + screen[1..])[1..] == screen[1..];
    } else {
      PutReads(screen[1..], m, id);
      assert ([screen[0]] + Put(screen[1..], m))[1..] == Put(screen[1..], m);
    }
  }

  /** The last of `beats` about message `id`. */
  function LatestBeat(beats: seq<ReplayBeat>, id: Text): (beat: Option<ReplayBeat>)
    ensures beat.Some? ==> beat.value in beats && beat.value.message.id == id
  {
    if beats == [] then None
    else if beats[|beats| - 1].message.id == id then Some(beats[|beats| - 1])
    else LatestBeat(beats[..|beats| - 1], id)
  }

  /** Message ids in the order they first appear. */
  function FirstAppearances(beats: seq<ReplayBeat>): seq<Text> {
    if beats == [] then [] else AppendNew(FirstAppearances(beats[..|beats| - 1]), beats[|beats| - 1].message.id)
  }

  /** A screen shows each message once, as its latest beat has it, in the order messages first appeared. */
  lemma {:induction false} ScreenReads(beats: seq<ReplayBeat>, time: real, id: Text)
    requires WellKept(beats) && AllStarted(beats, time)
    ensures Shown(Screen(beats, time), id)
         == match LatestBeat(beats, id) case None => None case Some(beat) => Some(Render(beat, time))
    ensures Ids(Screen(beats, time)) == FirstAppearances(beats)
  {
    if beats != [] {
      ScreenReads(beats[..|beats| - 1], time, id);
      PutReads(Screen(beats[..|beats| - 1], time), Render(beats[|beats| - 1], time), id);
    }
  }

  lemma {:induction false} FirstAppearancesDistinct(beats: seq<ReplayBeat>)
    ensures Distinct(FirstAppearances(beats))
    ensures forall id :: id in FirstAppearances(beats) <==> exists i :: 0 <= i < |beats| && beats[i].message.id == id
  {
    if beats != [] {
      FirstAppearancesDistinct(beats[..|beats| - 1]);
    }
  }

  lemma {:induction false} IdsAt(screen: seq<ReplayedMessage>)
    ensures |Ids(screen)| == |screen|
    ensures forall i :: 0 <= i < |screen| ==> Ids(screen)[i] == screen[i].message.id
  {
    if screen != [] {
      IdsAt(screen[1..]);
    }
  }

  lemma {:induction false} ShownAt(screen: seq<ReplayedMessage>, i: nat)
    requires i < |screen| && Distinct(Ids(screen))
    ensures Shown(screen, screen[i].message.id) == Some(screen[i])
  {
    IdsAt(screen);
    if i > 0 {
      IdsAt(screen[1..]);
      assert forall j :: 0 <= j < |screen[1..]| ==> Ids(screen[1..])[j] == Ids(screen)[j + 1];
      ShownAt(screen[1..], i - 1);
      assert Ids(screen)[0] != Ids(screen)[i];
    }
  }

  // ---------------------------------------------------------------------
  // The started beats of a plan
  // ---------------------------------------------------------------------

  /** What the renderer shows of a planned conversation. */
  function ShownAtTime(changes: seq<TraceChange>, s: ReplaySettings, time: real): seq<ReplayedMessage>
    requires DelaysForward(s)
  {
    PlanIsWellKept(changes, s);
    Screen(StartedPrefix(PlanOf(changes, s).beats, time), time)
  }

  lemma PlanIsWellKept(changes: seq<TraceChange>, s: ReplaySettings)
    ensures WellKept(PlanOf(changes, s).beats)
  {
    forall i | 0 <= i < |changes|
      ensures PlanOf(changes, s).beats[i].keep <= |PlanOf(changes, s).beats[i].message.text|
    {
      BeatIsPlanned(changes, s, |changes|, i);
    }
  }

  /** How many beats have started. */
  function StartedCount(changes: seq<TraceChange>, s: ReplaySettings, time: real): (n: nat)
    ensures n <= |changes|
  {
    |StartedPrefix(PlanOf(changes, s).beats, time)|
  }

  lemma StartedAreFirst(changes: seq<TraceChange>, s: ReplaySettings, time: real)
    ensures StartedPrefix(PlanOf(changes, s).beats, time) == BeatsOf(changes, s, StartedCount(changes, s, time))
  {
    var beats := PlanOf(changes, s).beats;
    var n := StartedCount(changes, s, time);
    assert StartedPrefix(beats, time) == beats[..n];
    if n < |beats| {
      BeatIsPlanned(changes, s, |changes|, n);
    } else {
      assert beats[..n] == beats;
    }
  }

  lemma {:induction false} NothingStartsLater(beats: seq<ReplayBeat>, time: real)
    requires forall i :: 0 <= i < |beats| ==> beats[i].start > time
    ensures StartedBeats(beats, time) == []
  {
    if beats != [] {
      NothingStartsLater(beats[1..], time);
    }
  }

  lemma {:induction false} EarlyExitMatchesFilter(beats: seq<ReplayBeat>, time: real)
    requires Ordered(beats)
    ensures StartedBeats(beats, time) == StartedPrefix(beats, time)
  {
    if beats != [] {
      if beats[0].start > time {
        NothingStartsLater(beats[1..], time);
      } else {
        EarlyExitMatchesFilter(beats[1..], time);
      }
    }
  }

  /** Stopping at the first beat to come loses nothing: the renderer and `beatAt` agree on the beat being shown. */
  lemma BeatAtIsLastStarted(changes: seq<TraceChange>, s: ReplaySettings, time: real)
    requires DelaysForward(s)
    ensures var n := StartedCount(changes, s, time);
            BeatAt(PlanOf(changes, s), time) == if n == 0 then None else Some(PlanOf(changes, s).beats[n - 1])
  {
    BeatsAreOrdered(changes, s, |changes|);
    EarlyExitMatchesFilter(PlanOf(changes, s).beats, time);
  }

  // ---------------------------------------------------------------------
  // Typing
  // ---------------------------------------------------------------------

  /** Of the beats started by `time`, only the last can still be typing. */
  lemma EarlierBeatsAreDone(changes: seq<TraceChange>, s: ReplaySettings, n: nat, time: real, id: Text)
    requires DelaysForward(s) && 0 < n <= |changes|
    requires AllStarted(BeatsOf(changes, s, n), time)
    requires LatestBeat(BeatsOf(changes, s, n), id).Some?
    ensures var beat := LatestBeat(BeatsOf(changes, s, n), id).value;
            time < beat.end ==> beat == BeatsOf(changes, s, n)[n - 1]
  {
    var beats := BeatsOf(changes, s, n);
    BeatsAreOrdered(changes, s, n);
    var i :| 0 <= i < n && beats[i] == LatestBeat(beats, id).value;
    assert i < n - 1 ==> beats[i].end <= beats[n - 1].start;
  }

  /**
   At any moment at most one message is being typed, and it is the one `beatAt` names: an entry
   is typing exactly when it renders that beat and that beat has not ended.
   */
  lemma OnlyCurrentBeatTypes(changes: seq<TraceChange>, s: ReplaySettings, time: real, i: nat)
    requires DelaysForward(s) && i < |ShownAtTime(changes, s, time)|
    ensures BeatAt(PlanOf(changes, s), time).Some?
    ensures var entry := ShownAtTime(changes, s, time)[i];
            var beat := BeatAt(PlanOf(changes, s), time).value;
            entry.typing <==> entry.message.id == beat.message.id && time < beat.end
  {
    var n := StartedCount(changes, s, time);
    var started := BeatsOf(changes, s, n);
    var screen := ShownAtTime(changes, s, time);
    var id := screen[i].message.id;
    StartedAreFirst(changes, s, time);
    BeatAtIsLastStarted(changes, s, time);
    PlanIsWellKept(changes, s);
    ScreenReads(started, time, id);
    FirstAppearancesDistinct(started);
    ShownAt(screen, i);
    assert n > 0;
    BeatIsPlanned(changes, s, |changes|, n - 1);
    EarlierBeatsAreDone(changes, s, n, time, id);
  }

  lemma AtMostOneTyping(changes: seq<TraceChange>, s: ReplaySettings, time: real, i: nat, j: nat)
    requires DelaysForward(s)
    requires i < |ShownAtTime(changes, s, time)| && j < |ShownAtTime(changes, s, time)|
    requires ShownAtTime(changes, s, time)[i].typing && ShownAtTime(changes, s, time)[j].typing
    ensures i == j
  {
    var screen := ShownAtTime(changes, s, time);
    OnlyCurrentBeatTypes(changes, s, time, i);
    OnlyCurrentBeatTypes(changes, s, time, j);
    StartedAreFirst(changes, s, time);
    PlanIsWellKept(changes, s);
    var started := StartedPrefix(PlanOf(changes, s).beats, time);
    ScreenReads(started, time, screen[i].message.id);
    FirstAppearancesDistinct(started);
    IdsAt(screen);
  }

  // ---------------------------------------------------------------------
  // Convergence
  // ---------------------------------------------------------------------

  lemma {:induction false} LatestBeatCarriesLatestMessage(changes: seq<TraceChange>, s: ReplaySettings, n: nat,
                                                          id: Text)
    requires n <= |changes|
    ensures LatestBeat(BeatsOf(changes, s, n), id).Some? <==> LatestMessage(changes, n, id).Some?
    ensures LatestBeat(BeatsOf(changes, s, n), id).Some? ==>
              LatestBeat(BeatsOf(changes, s, n), id).value.message == LatestMessage(changes, n, id).value
  {
    if n > 0 {
      assert BeatsOf(changes, s, n)[..n - 1] == BeatsOf(changes, s, n - 1);
      LatestBeatCarriesLatestMessage(changes, s, n - 1, id);
    }
  }

  /** The ids of the recorded messages, in the order the recording first mentions them. */
  function RecordedIds(changes: seq<TraceChange>, n: nat): seq<Text>
    requires n <= |changes|
  {
    if n == 0 then [] else AppendNew(RecordedIds(changes, n - 1), changes[n - 1].message.id)
  }

  lemma {:induction false} BeatsAppearAsRecorded(changes: seq<TraceChange>, s: ReplaySettings, n: nat)
    requires n <= |changes|
    ensures FirstAppearances(BeatsOf(changes, s, n)) == RecordedIds(changes, n)
  {
    if n > 0 {
      assert BeatsOf(changes, s, n)[..n - 1] == BeatsOf(changes, s, n - 1);
      BeatsAppearAsRecorded(changes, s, n - 1);
    }
  }

  lemma EverythingHasStarted(changes: seq<TraceChange>, s: ReplaySettings, time: real)
    requires DelaysForward(s) && time >= PlanOf(changes, s).duration
    ensures StartedPrefix(PlanOf(changes, s).beats, time) == PlanOf(changes, s).beats
    ensures forall i :: 0 <= i < |changes| ==> PlanOf(changes, s).beats[i].end <= time
  {
    var beats := PlanOf(changes, s).beats;
    BeatsAreOrdered(changes, s, |changes|);
    assert beats[..|beats|] == beats;
    StartedPrefixIsUnique(beats, time, |beats|);
  }

  /**
   Once the replay is over the screen is the recorded conversation, whatever the settings: every
   message as its last change left it, none typing, in order of first appearance.
   */
  lemma ReplayConverges(changes: seq<TraceChange>, s: ReplaySettings, time: real, id: Text)
    requires DelaysForward(s) && time >= PlanOf(changes, s).duration
    ensures Shown(ShownAtTime(changes, s, time), id)
         == match LatestMessage(changes, |changes|, id)
            case None => None
            case Some(message) => Some(ReplayedMessage(message, false))
    ensures Ids(ShownAtTime(changes, s, time)) == RecordedIds(changes, |changes|)
  {
    var beats := PlanOf(changes, s).beats;
    PlanIsWellKept(changes, s);
    EverythingHasStarted(changes, s, time);
    ScreenReads(beats, time, id);
    BeatsAppearAsRecorded(changes, s, |changes|);
    LatestBeatCarriesLatestMessage(changes, s, |changes|, id);
    if LatestBeat(beats, id).Some? {
      var beat := LatestBeat(beats, id).value;
      assert beat.message.text[..|beat.message.text|] == beat.message.text;
    }
  }

  // ---------------------------------------------------------------------
  // Growth
  // ---------------------------------------------------------------------

  lemma RenderKeepsAndTypesOn(beat: ReplayBeat, time: real)
    requires beat.start <= time && beat.keep <= |beat.message.text|
    ensures var shown := Render(beat, time).message;
            && shown == beat.message.(text := shown.text)
            && shown.text <= beat.message.text
            && beat.keep <= |shown.text|
  {
  }

  /** With `i + 1` beats started, the screen is theirs. */
  lemma StartedScreen(changes: seq<TraceChange>, s: ReplaySettings, i: nat, time: real)
    requires DelaysForward(s) && i < |changes| && StartedCount(changes, s, time) == i + 1
    ensures WellKept(BeatsOf(changes, s, i + 1)) && AllStarted(BeatsOf(changes, s, i + 1), time)
    ensures ShownAtTime(changes, s, time) == Screen(BeatsOf(changes, s, i + 1), time)
  {
    PlanIsWellKept(changes, s);
    StartedAreFirst(changes, s, time);
  }

  lemma LastOfFirst(changes: seq<TraceChange>, s: ReplaySettings, i: nat)
    requires i < |changes|
    ensures var beat := PlanOf(changes, s).beats[i];
            && BeatsOf(changes, s, i + 1)[i] == beat
            && beat.keep == Keep(changes, i) && beat.message == changes[i].message
  {
    BeatIsPlanned(changes, s, |changes|, i);
  }

  lemma LastStartedIsShown(changes: seq<TraceChange>, s: ReplaySettings, i: nat, time: real)
    requires DelaysForward(s) && i < |changes| && StartedCount(changes, s, time) == i + 1
    ensures var beat := PlanOf(changes, s).beats[i];
            && beat.start <= time && beat.keep == Keep(changes, i) && beat.message == changes[i].message
            && Shown(ShownAtTime(changes, s, time), changes[i].message.id) == Some(Render(beat, time))
  {
    StartedScreen(changes, s, i, time);
    LastOfFirst(changes, s, i);
    LastBeatIsShown(BeatsOf(changes, s, i + 1), time);
  }

  /** The last of some beats that have started is what its message shows. */
  lemma LastBeatIsShown(beats: seq<ReplayBeat>, time: real)
    requires beats != [] && WellKept(beats) && AllStarted(beats, time)
    ensures var last := beats[|beats| - 1];
            Shown(Screen(beats, time), last.message.id) == Some(Render(last, time))
  {
    ScreenReads(beats, time, beats[|beats| - 1].message.id);
  }

  /**
   While beat `i` is the one showing, its message keeps exactly what it shared with the text
   before, and types on towards its new text from there.
   */
  lemma ShownDuringBeat(changes: seq<TraceChange>, s: ReplaySettings, i: nat, time: real)
    requires DelaysForward(s) && i < |changes| && StartedCount(changes, s, time) == i + 1
    ensures var before := LatestMessage(changes, i, changes[i].message.id);
            var shown := Shown(ShownAtTime(changes, s, time), changes[i].message.id);
            && shown.Some?
            && shown.value.message == changes[i].message.(text := shown.value.message.text)
            && shown.value.message.text <= changes[i].message.text
            && Keep(changes, i) <= |shown.value.message.text|
            && (before.Some? ==>
                  && Keep(changes, i) <= |before.value.text|
                  && shown.value.message.text[..Keep(changes, i)] == before.value.text[..Keep(changes, i)])
  {
    LastStartedIsShown(changes, s, i, time);
    var beat := PlanOf(changes, s).beats[i];
    RenderKeepsAndTypesOn(beat, time);
    PrefixOfPrefix(Render(beat, time).message.text, changes[i].message.text, Keep(changes, i));
  }

  /** From its start until the next one's, beat `i` is the last started. */
  lemma StartedWhile(changes: seq<TraceChange>, s: ReplaySettings, i: nat, time: real)
    requires DelaysForward(s) && i < |changes| && PlanOf(changes, s).beats[i].start <= time
    requires i + 1 < |changes| ==> time < PlanOf(changes, s).beats[i + 1].start
    ensures StartedCount(changes, s, time) == i + 1
  {
    BeatsAreOrdered(changes, s, |changes|);
    LastStarted(PlanOf(changes, s).beats, i, time);
  }

  lemma LastStarted(beats: seq<ReplayBeat>, i: nat, time: real)
    requires Ordered(beats) && i < |beats| && beats[i].start <= time
    requires i + 1 < |beats| ==> time < beats[i + 1].start
    ensures |StartedPrefix(beats, time)| == i + 1
  {
    var started := StartedPrefix(beats, time);
    assert forall j :: 0 <= j < |started| ==> beats[j] == started[j];
    assert forall j :: 0 <= j < i ==> beats[j].start <= beats[j].end <= beats[i].start;
    assert forall j :: 0 <= j <= i ==> beats[j].start <= time;
  }

  lemma FloorOfShare(part: real, all: real, whole: nat, typed: int)
    requires 0.0 <= part < all && typed == (part / all * whole as real).Floor
    ensures typed as real * all <= part * whole as real < (typed + 1) as real * all
  {
    var share := part / all;
    assert share * all == part;
    var most := share * whole as real;
    assert typed as real <= most < (typed + 1) as real;
    assert most * all == part * whole as real;
    assert (most - typed as real) * all >= 0.0;
    assert ((typed + 1) as real - most) * all > 0.0;
  }

  /**
   While a beat types it shows, past what it keeps, the whole characters its share of the time is
   worth; from its end on, all of its text.
   */
  ghost predicate ShowsItsShare(beat: ReplayBeat, shown: ReplayedMessage, time: real) {
    if time >= beat.end then shown == ReplayedMessage(beat.message, false)
    else
      var n, rest := |shown.message.text| - beat.keep, |beat.message.text| - beat.keep;
      && shown.typing && shown.message.text <= beat.message.text
      && n as real * (beat.end - beat.start) <= (time - beat.start) * rest as real
      && (time - beat.start) * rest as real < (n + 1) as real * (beat.end - beat.start)
  }

  lemma RenderShowsItsShare(beat: ReplayBeat, time: real)
    requires beat.start <= time && beat.keep <= |beat.message.text|
    ensures ShowsItsShare(beat, Render(beat, time), time)
  {
    if time < beat.end {
      FloorOfShare(time - beat.start, beat.end - beat.start, |beat.message.text| - beat.keep, TypedBy(beat, time));
    } else {
      assert beat.message.text[..|beat.message.text|] == beat.message.text;
    }
  }

  /** From its start until the next one's, a beat's message shows its share. */
  lemma ShownIsItsShare(changes: seq<TraceChange>, s: ReplaySettings, i: nat, time: real)
    requires DelaysForward(s) && i < |changes| && PlanOf(changes, s).beats[i].start <= time
    requires i + 1 < |changes| ==> time < PlanOf(changes, s).beats[i + 1].start
    ensures PlanOf(changes, s).beats[i].message == changes[i].message
    ensures var shown := Shown(ShownAtTime(changes, s, time), changes[i].message.id);
            shown.Some? && ShowsItsShare(PlanOf(changes, s).beats[i], shown.value, time)
  {
    StartedWhile(changes, s, i, time);
    LastStartedIsShown(changes, s, i, time);
    RenderShowsItsShare(PlanOf(changes, s).beats[i], time);
  }

  lemma PrefixOfPrefix(a: Text, b: Text, k: nat)
    requires a <= b && k <= |a|
    ensures a[..k] == b[..k]
  {
  }

  /** Every change of message `id` extends the text the message had. */
  ghost predicate OnlyExtends(changes: seq<TraceChange>, id: Text) {
    forall i :: 0 <= i < |changes| && changes[i].message.id == id ==>
      var before := LatestMessage(changes, i, id);
      before.Some? ==> before.value.text <= changes[i].message.text
  }

  lemma SharedPrefixOfExtension(a: Text, b: Text)
    requires a <= b
    ensures SharedPrefix(a, b) == |a|
  {
    assert a[..|a|] == a && b[..|a|] == a;
    SharedPrefixIsUnique(a, b, |a|);
  }

  /** An extending change keeps all of what its message showed. */
  lemma ExtensionKeepsAll(changes: seq<TraceChange>, i: nat)
    requires i < |changes| && OnlyExtends(changes, changes[i].message.id)
    requires LatestMessage(changes, i, changes[i].message.id).Some?
    ensures LatestMessage(changes, i, changes[i].message.id).value.text == changes[i].message.text[..Keep(changes, i)]
  {
    SharedPrefixOfExtension(LatestMessage(changes, i, changes[i].message.id).value.text, changes[i].message.text);
  }

  /** `later` keeps, before it types anything, all that `earlier` ever shows. */
  ghost predicate Grows(earlier: ReplayBeat, later: ReplayBeat) {
    earlier == later || (later.keep <= |later.message.text| && earlier.message.text <= later.message.text[..later.keep])
  }

  /** The latest beat about `id` among the first `n`. */
  function Latest(changes: seq<TraceChange>, s: ReplaySettings, n: nat, id: Text): Option<ReplayBeat>
    requires n <= |changes|
  {
    LatestBeat(BeatsOf(changes, s, n), id)
  }

  lemma LatestOneOn(changes: seq<TraceChange>, s: ReplaySettings, n: nat, id: Text)
    requires n < |changes|
    ensures Latest(changes, s, n + 1, id)
         == if changes[n].message.id == id then Some(BeatsOf(changes, s, n + 1)[n]) else Latest(changes, s, n, id)
  {
    assert BeatsOf(changes, s, n + 1)[..n] == BeatsOf(changes, s, n);
  }

  lemma NextBeatKeepsLatest(changes: seq<TraceChange>, s: ReplaySettings, n: nat)
    requires n < |changes| && OnlyExtends(changes, changes[n].message.id)
    requires Latest(changes, s, n, changes[n].message.id).Some?
    ensures Grows(Latest(changes, s, n, changes[n].message.id).value, BeatsOf(changes, s, n + 1)[n])
  {
    LatestBeatCarriesLatestMessage(changes, s, n, changes[n].message.id);
    ExtensionKeepsAll(changes, n);
  }

  lemma GrowsOn(a: ReplayBeat, b: ReplayBeat, c: ReplayBeat)
    requires Grows(a, b) && Grows(b, c)
    ensures Grows(a, c)
  {
  }

  /** A later beat of a growing message already holds, in what it keeps, all an earlier beat ever shows. */
  lemma {:induction false} LaterBeatKeepsEarlier(changes: seq<TraceChange>, s: ReplaySettings, n1: nat, n2: nat,
                                                 id: Text)
    requires n1 <= n2 <= |changes| && OnlyExtends(changes, id)
    requires Latest(changes, s, n1, id).Some?
    ensures Latest(changes, s, n2, id).Some?
    ensures Grows(Latest(changes, s, n1, id).value, Latest(changes, s, n2, id).value)
    decreases n2
  {
    if n1 < n2 {
      LaterBeatKeepsEarlier(changes, s, n1, n2 - 1, id);
      LatestOneOn(changes, s, n2 - 1, id);
      if changes[n2 - 1].message.id == id {
        NextBeatKeepsLatest(changes, s, n2 - 1);
        GrowsOn(
          Latest(changes, s, n1, id).value, Latest(changes, s, n2 - 1, id).value, Latest(changes, s, n2, id).value);
      }
    }
  }

  /** Time only adds to what a beat has typed. */
  lemma TypedByGrows(beat: ReplayBeat, t1: real, t2: real)
    requires beat.start <= t1 <= t2 && beat.keep <= |beat.message.text|
    ensures TypedBy(beat, t1) <= TypedBy(beat, t2)
  {
    var all, whole := beat.end - beat.start, |beat.message.text| - beat.keep;
    if t2 < beat.end {
      var p1, p2 := t1 - beat.start, t2 - beat.start;
      FloorGrowsWithShare(p1, p2, all, whole);
      assert TypedBy(beat, t1) == (p1 / all * whole as real).Floor;
      assert TypedBy(beat, t2) == (p2 / all * whole as real).Floor;
    } else {
      assert TypedBy(beat, t2) == whole;
    }
  }

  lemma FloorGrowsWithShare(p1: real, p2: real, all: real, whole: nat)
    requires 0.0 <= p1 <= p2 && 0.0 < all
    ensures (p1 / all * whole as real).Floor <= (p2 / all * whole as real).Floor
  {
    ShareGrows(p1, p2, all, whole as real);
    FloorGrows(p1 / all * whole as real, p2 / all * whole as real);
  }

  lemma FloorGrows(a: real, b: real)
    requires a <= b
    ensures a.Floor <= b.Floor
  {
  }

  lemma ShareGrows(p1: real, p2: real, all: real, whole: real)
    requires 0.0 <= p1 <= p2 && 0.0 < all && 0.0 <= whole
    ensures p1 / all * whole <= p2 / all * whole
  {
    var d := p2 / all - p1 / all;
    assert d * all == p2 - p1;
    assert d >= 0.0;
    assert d * whole >= 0.0;
  }

  lemma {:induction false} StartedPrefixGrows(beats: seq<ReplayBeat>, t1: real, t2: real)
    requires t1 <= t2
    ensures |StartedPrefix(beats, t1)| <= |StartedPrefix(beats, t2)|
  {
    if beats != [] && beats[0].start <= t1 {
      StartedPrefixGrows(beats[1..], t1, t2);
    }
  }

  lemma RenderGrows(b1: ReplayBeat, b2: ReplayBeat, t1: real, t2: real)
    requires b1.start <= t1 <= t2 && b2.start <= t2
    requires b1.keep <= |b1.message.text| && b2.keep <= |b2.message.text|
    requires b1 == b2 || b1.message.text <= b2.message.text[..b2.keep]
    ensures Render(b1, t1).message.text <= Render(b2, t2).message.text
  {
    if b1 == b2 {
      TypedByGrows(b1, t1, t2);
    } else {
      var shown := Render(b1, t1).message.text;
      assert shown <= b1.message.text <= b2.message.text[..b2.keep] <= Render(b2, t2).message.text;
    }
  }

  /** A reply whose every edit extends it only ever grows on screen: no moment takes back what an earlier one showed. */
  lemma TextOnlyGrows(changes: seq<TraceChange>, s: ReplaySettings, id: Text, t1: real, t2: real)
    requires DelaysForward(s) && OnlyExtends(changes, id) && t1 <= t2
    requires Shown(ShownAtTime(changes, s, t1), id).Some?
    ensures Shown(ShownAtTime(changes, s, t2), id).Some?
    ensures Shown(ShownAtTime(changes, s, t1), id).value.message.text
         <= Shown(ShownAtTime(changes, s, t2), id).value.message.text
  {
    var n1, n2 := StartedCount(changes, s, t1), StartedCount(changes, s, t2);
    PlanIsWellKept(changes, s);
    StartedAreFirst(changes, s, t1);
    StartedAreFirst(changes, s, t2);
    StartedPrefixGrows(PlanOf(changes, s).beats, t1, t2);
    ScreenReads(BeatsOf(changes, s, n1), t1, id);
    ScreenReads(BeatsOf(changes, s, n2), t2, id);
    LaterBeatKeepsEarlier(changes, s, n1, n2, id);
    RenderGrows(LatestBeat(BeatsOf(changes, s, n1), id).value, LatestBeat(BeatsOf(changes, s, n2), id).value, t1, t2);
  }
}
