/**
 The scenario runner behind the test UI (packages/channel-test-ui/src/server.ts): one run at a
 time, no change lost.
 */
module RunServer {
  import opened Wrappers
  import opened Text

  const LOG_LINES: nat := 200

  /** The lines of a chunk of output, blank ones dropped. */
  function Pieces(chunk: string): seq<string> {
    NonEmpty(Split(chunk, '\n'))
  }

  function NonEmpty(parts: seq<string>): seq<string> {
    if parts == [] then [] else (if parts[0] == "" then [] else [parts[0]]) + NonEmpty(parts[1..])
  }

  function LastOf(lines: seq<string>, n: nat): seq<string> {
    if |lines| <= n then lines else lines[|lines| - n..]
  }

  // ---------------------------------------------------------------------
  // The runner as a step machine
  // ---------------------------------------------------------------------

  /** What reaches the server: a run asked for, a settled burst of source changes, child output, a child's end. */
  datatype Event =
    | RunRequested(full: bool)
    | SourceChanged
    | Output(chunk: string)
    | ChildClosed(exitCode: Option<int>)

  /**
   The first four fields are the program's. The rest is history: the pieces the current run has
   printed, children started and ended, a clock that counts events, and when the source last
   changed and a full run last started, 0 standing for never.
   */
  datatype State = State(
    running: bool,
    log: seq<string>,
    exitCode: Option<Option<int>>,
    rerunQueued: bool,
    printed: seq<string>,
    started: nat,
    ended: nat,
    clock: nat,
    lastChange: nat,
    lastFullStart: nat)

  const IDLE := State(false, [], None, false, [], 0, 0, 0, 0, 0)

  function Tick(s: State): State {
    s.(clock := s.clock + 1)
  }

  /** `run`: refused while a child is live. */
  function Start(s: State, full: bool): State {
    if s.running then s
    else
      s.(running := true, log := [], exitCode := None, printed := [], started := s.started + 1,
         lastFullStart := if full then s.clock else s.lastFullStart)
  }

  function Close(s: State, exitCode: Option<int>): State {
    var idle := s.(running := false, exitCode := Some(exitCode), ended := s.ended + 1);
    if idle.rerunQueued then Start(idle.(rerunQueued := false), true) else idle
  }

  function Collect(s: State, chunk: string): State {
    s.(log := LastOf(s.log + Pieces(chunk), LOG_LINES), printed := s.printed + Pieces(chunk))
  }

  function Change(s: State): State {
    var changed := s.(lastChange := s.clock);
    if s.running then changed.(rerunQueued := true) else Start(changed, true)
  }

  /** Output and an end come only from a live child. */
  predicate Possible(s: State, event: Event) {
    event.Output? || event.ChildClosed? ==> s.started > s.ended
  }

  function Step(s: State, event: Event): State {
    match event
    case RunRequested(full) => Start(Tick(s), full)
    case SourceChanged => Change(Tick(s))
    case Output(chunk) => Collect(Tick(s), chunk)
    case ChildClosed(exitCode) => Close(Tick(s), exitCode)
  }

  function RunFrom(s: State, events: seq<Event>): State {
    if events == [] then s else Step(RunFrom(s, events[..|events| - 1]), events[|events| - 1])
  }

  function Run(events: seq<Event>): State {
    RunFrom(IDLE, events)
  }

  ghost predicate CanHappen(events: seq<Event>) {
    forall i :: 0 <= i < |events| ==> Possible(Run(events[..i]), events[i])
  }

  // ---------------------------------------------------------------------
  // The server's closure state
  // ---------------------------------------------------------------------

  class Server {
    var running: bool
    var log: seq<string>
    var exitCode: Option<Option<int>>
    var rerunQueued: bool
    ghost var printed: seq<string>
    ghost var started: nat
    ghost var ended: nat
    ghost var clock: nat
    ghost var lastChange: nat
    ghost var lastFullStart: nat

    ghost function Now(): State
      reads this
    {
      State(running, log, exitCode, rerunQueued, printed, started, ended, clock, lastChange, lastFullStart)
    }

    constructor ()
      ensures Now() == IDLE
    {
      running, log, exitCode, rerunQueued := false, [], None, false;
      printed, started, ended, clock, lastChange, lastFullStart := [], 0, 0, 0, 0, 0;
    }

    method StartRun(full: bool) returns (accepted: bool)
      modifies this
      ensures Now() == Start(old(Now()), full)
      ensures accepted <==> !old(running)
    {
      if running {
        return false;
      }
      running, log, exitCode := true, [], None;
      printed, started := [], started + 1;
      if full {
        lastFullStart := clock;
      }
      return true;
    }

    method RequestRun(full: bool) returns (accepted: bool)
      modifies this
      ensures Now() == Step(old(Now()), RunRequested(full))
      ensures accepted <==> !old(running)
    {
      clock := clock + 1;
      accepted := StartRun(full);
    }

    method OnSourceChanged()
      modifies this
      ensures Now() == Step(old(Now()), SourceChanged)
    {
      clock := clock + 1;
      lastChange := clock;
      var accepted := StartRun(true);
      if !accepted {
        rerunQueued := true;
      }
    }

    method OnOutput(chunk: string)
      modifies this
      ensures Now() == Step(old(Now()), Output(chunk))
    {
      clock := clock + 1;
      var pieces := Pieces(chunk);
      printed := printed + pieces;
      log := log + pieces;
      log := log[if |log| > LOG_LINES then |log| - LOG_LINES else 0..];
    }

    method OnChildClose(code: Option<int>)
      modifies this
      ensures Now() == Step(old(Now()), ChildClosed(code))
    {
      clock := clock + 1;
      ended := ended + 1;
      running, exitCode := false, Some(code);
      if rerunQueued {
        rerunQueued := false;
        var _ := StartRun(true);
      }
    }
  }

  // ---------------------------------------------------------------------
  // What every reachable state keeps
  // ---------------------------------------------------------------------

  ghost predicate Kept(s: State) {
    // At most one child is live, and `running` says whether one is.
    && s.started == s.ended + (if s.running then 1 else 0)
    // The log is the end of what the current run printed.
    && s.log == LastOf(s.printed, LOG_LINES)
    // A rerun waits only behind a live run, and only for a change no full run has seen.
    && (s.rerunQueued ==> s.running)
    && (s.rerunQueued <==> s.lastChange > s.lastFullStart)
    && s.lastChange <= s.clock && s.lastFullStart <= s.clock
  }

  /** The pieces of a chunk put together from lines are those lines, in order, without the blank ones. */
  lemma PiecesAreLines(lines: seq<string>)
    requires lines != [] && forall i :: 0 <= i < |lines| ==> '\n' !in lines[i]
    ensures Pieces(Join(lines, '\n')) == NonEmpty(lines)
  {
    SplitOfJoin(lines, '\n');
  }

  /** Dropping blank lines takes each as it comes, keeps every other, and keeps their order. */
  lemma {:induction false} NonEmptyTakesEach(a: seq<string>, line: string, b: seq<string>)
    ensures NonEmpty([]) == []
    ensures NonEmpty(a + [line] + b) == NonEmpty(a) + (if |line| == 0 then [] else [line]) + NonEmpty(b)
  {
    if a == [] {
      assert a + [line] + b == [line] + b && ([line] + b)[1..] == b;
    } else {
      assert (a + [line] + b)[0] == a[0] && (a + [line] + b)[1..] == a[1..] + [line] + b;
      NonEmptyTakesEach(a[1..], line, b);
    }
  }

  /** Over any run of events the log is the end of what the current run printed: all of it, up to 200 pieces. */
  lemma LogIsTheEnd(events: seq<Event>)
    requires CanHappen(events)
    ensures var s := Run(events);
            && |s.log| == (if |s.printed| < 200 then |s.printed| else 200)
            && s.log == s.printed[|s.printed| - |s.log|..]
  {
    RunKeeps(events);
  }

  /** Output adds its pieces to what the run has printed, and a start, refused while a run is live, clears it. */
  lemma PrintedByCurrentRun(s: State, chunk: string, full: bool)
    ensures Step(s, Output(chunk)).printed == s.printed + Pieces(chunk)
    ensures var t := Step(s, RunRequested(full));
            if s.running then t == s.(clock := t.clock)
            else
              && t.running && t.printed == [] && t.log == [] && t.exitCode == None && t.started == s.started + 1
              && t.lastFullStart == if full then t.clock else s.lastFullStart
  {
  }

  lemma LastOfAppends(a: seq<string>, b: seq<string>, n: nat)
    ensures LastOf(LastOf(a, n) + b, n) == LastOf(a + b, n)
  {
  }

  lemma StepKeeps(s: State, event: Event)
    requires Kept(s) && Possible(s, event)
    ensures Kept(Step(s, event))
  {
    if event.Output? {
      LastOfAppends(s.printed, Pieces(event.chunk), LOG_LINES);
    }
  }

  /**
   Over any run of events at most one child is live, the log is the last 200 pieces of the current
   run, and no change is lost: when idle, the last full run started no earlier than the last change.
   */
  lemma {:induction false} RunKeeps(events: seq<Event>)
    requires CanHappen(events)
    ensures Kept(Run(events))
    ensures !Run(events).running ==> Run(events).lastFullStart >= Run(events).lastChange
  {
    if events != [] {
      var before := events[..|events| - 1];
      assert forall i :: 0 <= i < |before| ==> before[..i] == events[..i] && before[i] == events[i];
      RunKeeps(before);
      StepKeeps(Run(before), events[|events| - 1]);
    }
  }

  lemma StepWhileRunning(s: State, event: Event)
    requires s.running && s.lastChange <= s.clock && !event.ChildClosed?
    ensures var t := Step(s, event);
            && t.running && t.started == s.started && t.ended == s.ended
            && t.lastChange <= t.clock && t.lastFullStart == s.lastFullStart
            && (t.rerunQueued <==> s.rerunQueued || event == SourceChanged)
  {
  }

  /** Until its child ends, a run goes on, whatever else happens, and remembers only whether the source changed. */
  lemma {:induction false} WhileRunning(s: State, events: seq<Event>)
    requires s.running && s.lastChange <= s.clock
    requires forall event :: event in events ==> !event.ChildClosed?
    ensures var t := RunFrom(s, events);
            && t.running && t.started == s.started && t.ended == s.ended
            && t.lastChange <= t.clock && t.lastFullStart == s.lastFullStart
            && (t.rerunQueued <==> s.rerunQueued || SourceChanged in events)
  {
    if events != [] {
      var before, last := events[..|events| - 1], events[|events| - 1];
      assert events == before + [last];
      WhileRunning(s, before);
      StepWhileRunning(RunFrom(s, before), last);
    }
  }

  /**
   However many changes come during a run, and whatever comes between them, they cost exactly one
   more run, a full one, started the moment the run ends; and with none the server is then idle.
   */
  lemma BurstCollapsesToOneRun(s: State, events: seq<Event>, exitCode: Option<int>)
    requires s.running && s.lastChange <= s.clock
    requires forall event :: event in events ==> !event.ChildClosed?
    ensures var t := RunFrom(s, events + [ChildClosed(exitCode)]);
            && t.ended == s.ended + 1 && !t.rerunQueued
            && t.exitCode == (if t.running then None else Some(exitCode))
            && (if s.rerunQueued || SourceChanged in events
                then t.running && t.started == s.started + 1 && t.log == [] && t.lastFullStart > t.lastChange
                else !t.running && t.started == s.started && t.lastFullStart == s.lastFullStart)
  {
    WhileRunning(s, events);
    assert (events + [ChildClosed(exitCode)])[..|events|] == events;
  }
}
