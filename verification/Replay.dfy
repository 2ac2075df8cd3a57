/**
 The replay planner and renderer (packages/channel-test-ui/src/replay.ts), with exact real
 arithmetic for its clock.
 */
module Replay {
  import opened Wrappers
  import opened Text

  // ---------------------------------------------------------------------
  // Settings
  // ---------------------------------------------------------------------

  datatype ReplaySettings = ReplaySettings(
    messageDelayMs: real,
    editDelayMs: real,
    typewriter: bool,
    charsPerSecond: real,
    maxTypingMs: real,
    typeUserMessages: bool)

  const DEFAULT_REPLAY_SETTINGS := ReplaySettings(600.0, 250.0, true, 40.0, 2000.0, false)

  datatype Range = Range(min: real, max: real)

  const DELAY_LIMITS := Range(0.0, 10000.0)
  const SPEED_LIMITS := Range(1.0, 5000.0)
  const TYPING_LIMITS := Range(0.0, 30000.0)

  predicate Within(value: real, range: Range) {
    range.min <= value <= range.max
  }

  predicate InLimits(s: ReplaySettings) {
    Within(s.messageDelayMs, DELAY_LIMITS) && Within(s.editDelayMs, DELAY_LIMITS)
    && Within(s.charsPerSecond, SPEED_LIMITS) && Within(s.maxTypingMs, TYPING_LIMITS)
  }

  /** A field of unknown input: a finite number, a flag, or anything else, missing included. */
  datatype Field = Number(number: real) | Flag(flag: bool) | Other

  datatype RawSettings = RawSettings(
    messageDelayMs: Field,
    editDelayMs: Field,
    typewriter: Field,
    charsPerSecond: Field,
    maxTypingMs: Field,
    typeUserMessages: Field)

  function NumberOr(field: Field, range: Range, default: real): real {
    if !field.Number? then default
    else
      var raised := if field.number < range.min then range.min else field.number;
      if raised > range.max then range.max else raised
  }

  function FlagOr(field: Field, default: bool): bool {
    if field.Flag? then field.flag else default
  }

  function NormalizeReplaySettings(raw: RawSettings, defaults: ReplaySettings): ReplaySettings {
    ReplaySettings(
      NumberOr(raw.messageDelayMs, DELAY_LIMITS, defaults.messageDelayMs),
      NumberOr(raw.editDelayMs, DELAY_LIMITS, defaults.editDelayMs),
      FlagOr(raw.typewriter, defaults.typewriter),
      NumberOr(raw.charsPerSecond, SPEED_LIMITS, defaults.charsPerSecond),
      NumberOr(raw.maxTypingMs, TYPING_LIMITS, defaults.maxTypingMs),
      FlagOr(raw.typeUserMessages, defaults.typeUserMessages))
  }

  function AsRaw(s: ReplaySettings): RawSettings {
    RawSettings(Number(s.messageDelayMs), Number(s.editDelayMs), Flag(s.typewriter),
                Number(s.charsPerSecond), Number(s.maxTypingMs), Flag(s.typeUserMessages))
  }

  /** The ranges and the defaults, number by number. */
  lemma LimitsAndDefaults(s: ReplaySettings)
    ensures InLimits(s) <==>
            && 0.0 <= s.messageDelayMs <= 10000.0 && 0.0 <= s.editDelayMs <= 10000.0
            && 1.0 <= s.charsPerSecond <= 5000.0 && 0.0 <= s.maxTypingMs <= 30000.0
    ensures var d := DEFAULT_REPLAY_SETTINGS;
            && d.messageDelayMs == 600.0 && d.editDelayMs == 250.0 && d.typewriter
            && d.charsPerSecond == 40.0 && d.maxTypingMs == 2000.0 && !d.typeUserMessages
  {
  }

  function Distance(a: real, b: real): real {
    if a < b then b - a else a - b
  }

  /** `read` is the value in range nearest to a numeric field, and the default for any other field. */
  ghost predicate ReadsAs(field: Field, range: Range, default: real, read: real) {
    if !field.Number? then read == default
    else
      && Within(read, range)
      && forall other :: Within(other, range) ==> Distance(field.number, read) <= Distance(field.number, other)
  }

  /**
   Whatever the input, each number reads as the nearest in its range, or as its default, and so the
   settings a plan is made with are in range; settings in range are left as they are.
   */
  lemma NormalizedSettingsAreInLimits(raw: RawSettings, defaults: ReplaySettings)
    ensures InLimits(DEFAULT_REPLAY_SETTINGS)
    ensures InLimits(defaults) ==> InLimits(NormalizeReplaySettings(raw, defaults))
    ensures var s := NormalizeReplaySettings(raw, defaults);
            && ReadsAs(raw.messageDelayMs, DELAY_LIMITS, defaults.messageDelayMs, s.messageDelayMs)
            && ReadsAs(raw.editDelayMs, DELAY_LIMITS, defaults.editDelayMs, s.editDelayMs)
            && ReadsAs(raw.charsPerSecond, SPEED_LIMITS, defaults.charsPerSecond, s.charsPerSecond)
            && ReadsAs(raw.maxTypingMs, TYPING_LIMITS, defaults.maxTypingMs, s.maxTypingMs)
            && (if raw.typewriter.Flag? then s.typewriter == raw.typewriter.flag
                else s.typewriter == defaults.typewriter)
            && (if raw.typeUserMessages.Flag? then s.typeUserMessages == raw.typeUserMessages.flag
                else s.typeUserMessages == defaults.typeUserMessages)
    ensures InLimits(defaults) <==> NormalizeReplaySettings(AsRaw(defaults), DEFAULT_REPLAY_SETTINGS) == defaults
  {
  }

  // ---------------------------------------------------------------------
  // Recorded changes
  // ---------------------------------------------------------------------

  datatype Sender = Rome | User

  datatype TraceMessage = TraceMessage(
    id: Text,
    conversation: Text,
    from: Sender,
    text: Text,
    replyTo: Option<Text>,
    edits: int)

  datatype TraceChange = TraceChange(at: real, message: TraceMessage)

  /** The message `id` as the first `n` changes leave it. */
  function LatestMessage(changes: seq<TraceChange>, n: nat, id: Text): Option<TraceMessage>
    requires n <= |changes|
    ensures LatestMessage(changes, n, id).Some? ==> LatestMessage(changes, n, id).value.id == id
  {
    if n == 0 then None
    else if changes[n - 1].message.id == id then Some(changes[n - 1].message)
    else LatestMessage(changes, n - 1, id)
  }

  /** The longest prefix two texts share. */
  function SharedPrefix(a: Text, b: Text): (k: nat)
    ensures k <= |a| && k <= |b| && a[..k] == b[..k]
    ensures k == |a| || k == |b| || a[k] != b[k]
  {
    if a == [] || b == [] || a[0] != b[0] then 0 else 1 + SharedPrefix(a[1..], b[1..])
  }

  lemma UnitsOfEqualPrefixes(a: Text, b: Text, k: nat)
    requires k <= |a| && k <= |b| && a[..k] == b[..k]
    ensures forall i :: 0 <= i < k ==> a[i] == b[i]
  {
    forall i | 0 <= i < k
      ensures a[i] == b[i]
    {
      assert a[i] == a[..k][i] == b[..k][i] == b[i];
    }
  }

  lemma SharedPrefixIsUnique(a: Text, b: Text, k: nat)
    requires k <= |a| && k <= |b| && a[..k] == b[..k]
    requires k == |a| || k == |b| || a[k] != b[k]
    ensures k == SharedPrefix(a, b)
  {
    UnitsOfEqualPrefixes(a, b, SharedPrefix(a, b));
    UnitsOfEqualPrefixes(a, b, k);
  }

  method CommonPrefixLength(a: Text, b: Text) returns (length: nat)
    ensures length == SharedPrefix(a, b)
  {
    length := 0;
    while length < |a| && length < |b| && a[length] == b[length]
      invariant length <= |a| && length <= |b|
      invariant a[..length] == b[..length]
    {
      length := length + 1;
    }
    SharedPrefixIsUnique(a, b, length);
  }

  // ---------------------------------------------------------------------
  // What each change types
  // ---------------------------------------------------------------------

  /** How many leading characters change `i` keeps of what its message showed before. */
  function Keep(changes: seq<TraceChange>, i: nat): (k: nat)
    requires i < |changes|
    ensures k <= |changes[i].message.text|
  {
    var before := LatestMessage(changes, i, changes[i].message.id);
    if before.None? then 0 else SharedPrefix(before.value.text, changes[i].message.text)
  }

  predicate IsTyped(message: TraceMessage, s: ReplaySettings) {
    s.typewriter && (message.from.Rome? || s.typeUserMessages)
  }

  function Characters(changes: seq<TraceChange>, i: nat, s: ReplaySettings): nat
    requires i < |changes|
  {
    if IsTyped(changes[i].message, s) then |changes[i].message.text| - Keep(changes, i) else 0
  }

  /** The characters the first `n` changes type of message `id`. */
  function TypedCharacters(changes: seq<TraceChange>, n: nat, id: Text, s: ReplaySettings): nat
    requires n <= |changes|
  {
    if n == 0 then 0
    else
      TypedCharacters(changes, n - 1, id, s)
      + (if changes[n - 1].message.id == id then Characters(changes, n - 1, s) else 0)
  }

  /** What a change types is counted among what its message types. */
  lemma {:induction false} CharactersAreCounted(changes: seq<TraceChange>, i: nat, n: nat, s: ReplaySettings)
    requires i < n <= |changes|
    ensures Characters(changes, i, s) <= TypedCharacters(changes, n, changes[i].message.id, s)
  {
    if i < n - 1 {
      CharactersAreCounted(changes, i, n - 1, s);
    }
  }

  /** The setting's speed, or faster where the whole message would otherwise overrun its cap. */
  function Speed(total: nat, s: ReplaySettings): (speed: real)
    requires s.maxTypingMs > 0.0 && (total > 0 || s.charsPerSecond > 0.0)
    ensures speed > 0.0
  {
    var capped := total as real / (s.maxTypingMs / 1000.0);
    if s.charsPerSecond >= capped then s.charsPerSecond else capped
  }

  function TypingMs(characters: nat, total: nat, s: ReplaySettings): (ms: real)
    requires characters <= total
    ensures ms >= 0.0
  {
    if characters == 0 || s.maxTypingMs <= 0.0 then 0.0
    else characters as real / Speed(total, s) * 1000.0
  }

  // ---------------------------------------------------------------------
  // The plan
  // ---------------------------------------------------------------------

  datatype Kind = Create | Edit

  datatype ReplayBeat = ReplayBeat(kind: Kind, start: real, end: real, keep: nat, at: real, message: TraceMessage)

  datatype ReplayPlan = ReplayPlan(beats: seq<ReplayBeat>, duration: real)

  function DelayFor(kind: Kind, s: ReplaySettings): real {
    if kind.Create? then s.messageDelayMs else s.editDelayMs
  }

  /** No beat is placed before the one it follows has ended. */
  predicate DelaysForward(s: ReplaySettings) {
    s.messageDelayMs >= 0.0 && s.editDelayMs >= 0.0
  }

  function KindOf(changes: seq<TraceChange>, i: nat): Kind
    requires i < |changes|
  {
    if LatestMessage(changes, i, changes[i].message.id).None? then Create else Edit
  }

  function Clock(beats: seq<ReplayBeat>): real {
    if beats == [] then 0.0 else beats[|beats| - 1].end
  }

  function BeatAfter(beats: seq<ReplayBeat>, changes: seq<TraceChange>, i: nat, s: ReplaySettings): ReplayBeat
    requires i < |changes|
  {
    var message := changes[i].message;
    CharactersAreCounted(changes, i, |changes|, s);
    var start := if beats == [] then 0.0 else Clock(beats) + DelayFor(KindOf(changes, i), s);
    var typing := TypingMs(Characters(changes, i, s), TypedCharacters(changes, |changes|, message.id, s), s);
    ReplayBeat(KindOf(changes, i), start, start + typing, Keep(changes, i), changes[i].at, message)
  }

  /** The beats of the first `n` changes; every beat's speed looks at the whole recording. */
  function BeatsOf(changes: seq<TraceChange>, s: ReplaySettings, n: nat): (beats: seq<ReplayBeat>)
    requires n <= |changes|
    ensures |beats| == n
  {
    if n == 0 then []
    else
      var beats := BeatsOf(changes, s, n - 1);
      beats + [BeatAfter(beats, changes, n - 1, s)]
  }

  function PlanOf(changes: seq<TraceChange>, s: ReplaySettings): ReplayPlan {
    var beats := BeatsOf(changes, s, |changes|);
    ReplayPlan(beats, Clock(beats))
  }

  datatype Planned = Planned(kind: Kind, keep: nat, characters: nat)

  function PlannedOf(changes: seq<TraceChange>, i: nat, s: ReplaySettings): Planned
    requires i < |changes|
  {
    Planned(KindOf(changes, i), Keep(changes, i), Characters(changes, i, s))
  }

  function TypedSoFar(typedByMessage: map<Text, nat>, id: Text): nat {
    if id in typedByMessage then typedByMessage[id] else 0
  }

  /** The first pass: the plan of every change on its own, and the characters each message adds up to. */
  method MeasureChanges(changes: seq<TraceChange>, s: ReplaySettings)
    returns (planned: seq<Planned>, typedByMessage: map<Text, nat>)
    ensures |planned| == |changes| && forall j :: 0 <= j < |changes| ==> planned[j] == PlannedOf(changes, j, s)
    ensures forall id :: TypedSoFar(typedByMessage, id) == TypedCharacters(changes, |changes|, id, s)
  {
    var shown: map<Text, Text> := map[];
    typedByMessage := map[];
    planned := [];
    for i := 0 to |changes|
      invariant |planned| == i
      invariant forall j :: 0 <= j < i ==> planned[j] == PlannedOf(changes, j, s)
      invariant forall id :: id in shown <==> LatestMessage(changes, i, id).Some?
      invariant forall id :: id in shown ==> shown[id] == LatestMessage(changes, i, id).value.text
      invariant forall id :: TypedSoFar(typedByMessage, id) == TypedCharacters(changes, i, id, s)
    {
      var message := changes[i].message;
      var kind, keep := Create, 0;
      if message.id in shown {
        kind := Edit;
        keep := CommonPrefixLength(shown[message.id], message.text);
      }
      var characters := if IsTyped(message, s) then |message.text| - keep else 0;
      shown := shown[message.id := message.text];
      typedByMessage := typedByMessage[message.id := TypedSoFar(typedByMessage, message.id) + characters];
      planned := planned + [Planned(kind, keep, characters)];
    }
  }

  /** The planner: the second pass runs the clock over what the first one measured. */
  method PlanReplay(changes: seq<TraceChange>, s: ReplaySettings) returns (plan: ReplayPlan)
    ensures plan == PlanOf(changes, s)
  {
    var planned, typedByMessage := MeasureChanges(changes, s);
    var beats: seq<ReplayBeat> := [];
    var clock := 0.0;
    for i := 0 to |changes|
      invariant beats == BeatsOf(changes, s, i)
      invariant clock == Clock(beats)
    {
      var message := changes[i].message;
      var start := if |beats| == 0 then 0.0 else clock + DelayFor(planned[i].kind, s);
      CharactersAreCounted(changes, i, |changes|, s);
      var typing := TypingMs(planned[i].characters, TypedSoFar(typedByMessage, message.id), s);
      beats := beats + [ReplayBeat(planned[i].kind, start, start + typing, planned[i].keep, changes[i].at, message)];
      clock := start + typing;
    }
    plan := ReplayPlan(beats, clock);
  }

  // ---------------------------------------------------------------------
  // The screen
  // ---------------------------------------------------------------------

  datatype ReplayedMessage = ReplayedMessage(message: TraceMessage, typing: bool)

  /** A beat keeps no more than its message holds. */
  predicate WellKept(beats: seq<ReplayBeat>) {
    forall i :: 0 <= i < |beats| ==> beats[i].keep <= |beats[i].message.text|
  }

  /** How many characters past `keep` a beat shows at `time`. */
  function TypedBy(beat: ReplayBeat, time: real): (typed: nat)
    requires beat.start <= time && beat.keep <= |beat.message.text|
    ensures typed <= |beat.message.text| - beat.keep
  {
    var whole := |beat.message.text| - beat.keep;
    if time < beat.end then
      var share := (time - beat.start) / (beat.end - beat.start);
      ShareOfWhole(time - beat.start, beat.end - beat.start, whole);
      (share * whole as real).Floor
    else whole
  }

  lemma ShareOfWhole(part: real, all: real, whole: nat)
    requires 0.0 <= part < all
    ensures 0.0 <= part / all < 1.0
    ensures 0.0 <= part / all * whole as real <= whole as real
  {
  }

  function Render(beat: ReplayBeat, time: real): ReplayedMessage
    requires beat.start <= time && beat.keep <= |beat.message.text|
  {
    ReplayedMessage(beat.message.(text := beat.message.text[..beat.keep + TypedBy(beat, time)]), time < beat.end)
  }

  /** `Map.set`: an id already shown keeps its place. */
  function Put(screen: seq<ReplayedMessage>, m: ReplayedMessage): seq<ReplayedMessage> {
    if screen == [] then [m]
    else if screen[0].message.id == m.message.id then [m] + screen[1..]
    else [screen[0]] + Put(screen[1..], m)
  }

  predicate AllStarted(beats: seq<ReplayBeat>, time: real) {
    forall i :: 0 <= i < |beats| ==> beats[i].start <= time
  }

  /** What beats that have all started show. */
  function Screen(beats: seq<ReplayBeat>, time: real): seq<ReplayedMessage>
    requires WellKept(beats) && AllStarted(beats, time)
  {
    if beats == [] then []
    else Put(Screen(beats[..|beats| - 1], time), Render(beats[|beats| - 1], time))
  }

  /** The beats before the first that has not started. */
  function StartedPrefix(beats: seq<ReplayBeat>, time: real): (started: seq<ReplayBeat>)
    ensures started <= beats && AllStarted(started, time)
    ensures |started| < |beats| ==> beats[|started|].start > time
  {
    if beats == [] || beats[0].start > time then [] else [beats[0]] + StartedPrefix(beats[1..], time)
  }

  /** The loop that stops at the first beat still to come. */
  method ReplayAt(plan: ReplayPlan, time: real) returns (screen: seq<ReplayedMessage>)
    requires WellKept(plan.beats)
    ensures screen == Screen(StartedPrefix(plan.beats, time), time)
  {
    screen := [];
    var i := 0;
    while i < |plan.beats|
      invariant i <= |plan.beats|
      invariant AllStarted(plan.beats[..i], time)
      invariant screen == Screen(plan.beats[..i], time)
    {
      var beat := plan.beats[i];
      if beat.start > time {
        break;
      }
      assert plan.beats[..i + 1][..i] == plan.beats[..i];
      screen := Put(screen, Render(beat, time));
      i := i + 1;
    }
    StartedPrefixIsUnique(plan.beats, time, i);
  }

  lemma StartedPrefixIsUnique(beats: seq<ReplayBeat>, time: real, n: nat)
    requires n <= |beats| && AllStarted(beats[..n], time)
    requires n < |beats| ==> beats[n].start > time
    ensures StartedPrefix(beats, time) == beats[..n]
  {
    var k := |StartedPrefix(beats, time)|;
    assert StartedPrefix(beats, time) == beats[..k];
    assert forall i :: 0 <= i < k ==> beats[i].start <= time by {
      assert forall i :: 0 <= i < k ==> beats[..k][i] == beats[i];
    }
    assert forall i :: 0 <= i < n ==> beats[i].start <= time by {
      assert forall i :: 0 <= i < n ==> beats[..n][i] == beats[i];
    }
  }

  /** The filter `beatAt` runs over every beat. */
  function StartedBeats(beats: seq<ReplayBeat>, time: real): seq<ReplayBeat> {
    if beats == [] then []
    else (if beats[0].start <= time then [beats[0]] else []) + StartedBeats(beats[1..], time)
  }

  function BeatAt(plan: ReplayPlan, time: real): Option<ReplayBeat> {
    var started := StartedBeats(plan.beats, time);
    if started == [] then None else Some(started[|started| - 1])
  }
}
