/** The hero terminal: it cycles through the loaded commands, typing each
    command, then its result, showing the result for four seconds and
    fading before the next command. Typewriter completions and timer
    firings are events; an event whose source is not on screen (a
    typewriter that is not rendered, a timer that was never set) leaves the
    state unchanged. */
module Terminal {
  import opened Common

  datatype Command = Command(command: String, result: Option<String>)

  datatype Phase = TypingCommand | TypingResult | Displaying | Fading

  /** `commands` is the loaded list (it is fetched once and never
      refetched); `fadeDue` counts the pending four-second timers. */
  datatype Screen = Screen(commands: seq<Command>, phase: Phase, index: nat, fadeDue: nat)

  datatype Event =
    | CommandTyped       // the command's typewriter completes
    | ResultTyped        // the result's typewriter completes
    | DisplayTimerFires  // a four-second timer fires
    | FadeTimerFires     // the half-second fade timer fires

  const CommandDelayMs := 80
  const ResultDelayMs := 30
  const DisplayMs := 4000
  const FadeMs := 500

  function Init(commands: seq<Command>): (s: Screen)
    ensures s.phase == TypingCommand && s.index == 0 && s.fadeDue == 0
  {
    Screen(commands, TypingCommand, 0, 0)
  }

  /** The command on screen: `commands[index % (length || 1)]`, which is
      missing when the list is empty. */
  function Current(s: Screen): (c: Option<Command>)
    ensures c.Some? <==> |s.commands| > 0
    ensures c.Some? ==> c.value == s.commands[s.index % |s.commands|]
  {
    if |s.commands| == 0 then None else Some(s.commands[s.index % |s.commands|])
  }

  /** The result's typewriter is rendered only for a present, non-empty
      result. */
  predicate ShowsResult(s: Screen) {
    var c := Current(s);
    c.Some? && c.value.result.Some? && c.value.result.value != []
  }

  /** The machine as written. */
  function Step(s: Screen, e: Event): Screen
  {
    match e
    case CommandTyped =>
      if s.phase == TypingCommand && Current(s).Some? then s.(phase := TypingResult) else s
    case ResultTyped =>
      if s.phase == TypingResult && ShowsResult(s) then s.(phase := Displaying, fadeDue := s.fadeDue + 1) else s
    case DisplayTimerFires =>
      if s.fadeDue > 0 then s.(phase := Fading, fadeDue := s.fadeDue - 1) else s
    case FadeTimerFires =>
      if s.phase == Fading && |s.commands| > 0 then
        s.(phase := TypingCommand, index := (s.index + 1) % |s.commands|)
      else s
  }

  function Run(s: Screen, evs: seq<Event>): Screen
    decreases |evs|
  {
    if |evs| == 0 then s else Run(Step(s, evs[0]), evs[1..])
  }

  /** A screen that no event can change. */
  predicate Stuck(s: Screen) {
    forall e: Event :: Step(s, e) == s
  }

  /** Once a command without a result (or with an empty one) has been typed,
      nothing is left to move the terminal on: no typewriter is rendered
      and no timer is pending. */
  lemma {:induction false} MissingResultSticks(commands: seq<Command>)
    requires |commands| > 0
    requires commands[0].result.None? || commands[0].result == Some([])
    ensures Stuck(Step(Init(commands), CommandTyped))
  {
    var s := Step(Init(commands), CommandTyped);
    assert s.phase == TypingResult && s.fadeDue == 0 && !ShowsResult(s);
  }

  /** A stuck screen stays as it is whatever happens afterwards. */
  lemma {:induction false} StuckForever(s: Screen, evs: seq<Event>)
    requires Stuck(s)
    ensures Run(s, evs) == s
    decreases |evs|
  {
    if |evs| > 0 {
      assert Step(s, evs[0]) == s;
      StuckForever(s, evs[1..]);
    }
  }

  /** The index names a command of a non-empty list. */
  predicate IndexInRange(s: Screen) {
    |s.commands| > 0 ==> s.index < |s.commands|
  }

  /** As written, too, every step keeps the index on a command: it moves
      only on a fade, and then modulo the list's length. */
  lemma {:induction false} StepKeepsIndexInRange(s: Screen, e: Event)
    requires IndexInRange(s)
    ensures IndexInRange(Step(s, e))
    ensures Step(s, e).commands == s.commands
  {
  }

  lemma {:induction false} RunKeepsIndexInRange(s: Screen, evs: seq<Event>)
    requires IndexInRange(s)
    ensures IndexInRange(Run(s, evs))
    ensures Run(s, evs).commands == s.commands
    decreases |evs|
  {
    if |evs| > 0 {
      StepKeepsIndexInRange(s, evs[0]);
      RunKeepsIndexInRange(Step(s, evs[0]), evs[1..]);
    }
  }

  /** The machine as evidently intended: a command with nothing to type as
      its result goes straight to being displayed. */
  function FixedStep(s: Screen, e: Event): Screen
  {
    match e
    case CommandTyped =>
      if s.phase == TypingCommand && Current(s).Some? then
        if ShowsResult(s) then s.(phase := TypingResult)
        else s.(phase := Displaying, fadeDue := s.fadeDue + 1)
      else s
    case _ => Step(s, e)
  }

  function FixedRun(s: Screen, evs: seq<Event>): Screen
    decreases |evs|
  {
    if |evs| == 0 then s else FixedRun(FixedStep(s, evs[0]), evs[1..])
  }

  /** What the corrected machine keeps: the index names a command, the
      result is typed only when there is one, and exactly the displaying
      phase has its timer pending. */
  predicate WellFormed(s: Screen) {
    && (|s.commands| > 0 ==> s.index < |s.commands|)
    && (|s.commands| == 0 ==> s.index == 0 && s.phase == TypingCommand)
    && (s.phase == TypingResult ==> ShowsResult(s))
    && s.fadeDue == (if s.phase == Displaying then 1 else 0)
  }

  lemma {:induction false} FixedStepKeepsWellFormed(s: Screen, e: Event)
    requires WellFormed(s)
    ensures WellFormed(FixedStep(s, e))
  {
  }

  lemma {:induction false} FixedRunKeepsWellFormed(s: Screen, evs: seq<Event>)
    requires WellFormed(s)
    ensures WellFormed(FixedRun(s, evs))
    decreases |evs|
  {
    if |evs| > 0 {
      FixedStepKeepsWellFormed(s, evs[0]);
      FixedRunKeepsWellFormed(FixedStep(s, evs[0]), evs[1..]);
    }
  }

  /** The event that moves a screen on next. */
  function NextEvent(s: Screen): Event {
    match s.phase
    case TypingCommand => CommandTyped
    case TypingResult => ResultTyped
    case Displaying => DisplayTimerFires
    case Fading => FadeTimerFires
  }

  /** With the correction, a well-formed screen with commands is never
      stuck: its next event always changes it. */
  lemma {:induction false} FixedNeverSticks(s: Screen)
    requires WellFormed(s) && |s.commands| > 0
    ensures FixedStep(s, NextEvent(s)) != s
  {
  }

  /** One full round of a command: its events in order. */
  function Round(s: Screen): (evs: seq<Event>)
  {
    if ShowsResult(s) then [CommandTyped, ResultTyped, DisplayTimerFires, FadeTimerFires]
    else [CommandTyped, DisplayTimerFires, FadeTimerFires]
  }

  /** Running a sequence whose head is known. */
  lemma {:induction false} FixedRunCons(s: Screen, e: Event, rest: seq<Event>)
    ensures FixedRun(s, [e] + rest) == FixedRun(FixedStep(s, e), rest)
  {
    assert ([e] + rest)[0] == e;
    assert ([e] + rest)[1..] == rest;
  }

  /** The index of the next command, wrapping after the last. */
  function Following(s: Screen): (i: nat)
    requires |s.commands| > 0 && s.index < |s.commands|
    ensures i == (s.index + 1) % |s.commands|
  {
    if s.index + 1 == |s.commands| then 0 else s.index + 1
  }

  /** The last step of every round: the fade timer moves to the next
      command. */
  lemma {:induction false} FadeAdvances(s: Screen)
    requires WellFormed(s) && |s.commands| > 0 && s.phase == Fading
    ensures var r := FixedRun(s, [FadeTimerFires]);
            r.phase == TypingCommand && r.index == Following(s)
            && r.commands == s.commands && WellFormed(r)
  {
    FixedRunCons(s, FadeTimerFires, []);
    FixedStepKeepsWellFormed(s, FadeTimerFires);
  }

  /** A round starting at a typed command ends typing the next command,
      wrapping around after the last. */
  lemma {:induction false} RoundAdvances(s: Screen)
    requires WellFormed(s) && |s.commands| > 0 && s.phase == TypingCommand
    ensures var r := FixedRun(s, Round(s));
            r.phase == TypingCommand && r.index == Following(s)
            && r.commands == s.commands && WellFormed(r)
  {
    var s1 := FixedStep(s, CommandTyped);
    FixedStepKeepsWellFormed(s, CommandTyped);
    if ShowsResult(s) {
      var s2 := FixedStep(s1, ResultTyped);
      FixedStepKeepsWellFormed(s1, ResultTyped);
      var s3 := FixedStep(s2, DisplayTimerFires);
      FixedStepKeepsWellFormed(s2, DisplayTimerFires);
      FixedRunCons(s, CommandTyped, [ResultTyped, DisplayTimerFires, FadeTimerFires]);
      FixedRunCons(s1, ResultTyped, [DisplayTimerFires, FadeTimerFires]);
      FixedRunCons(s2, DisplayTimerFires, [FadeTimerFires]);
      FadeAdvances(s3);
    } else {
      var s2 := FixedStep(s1, DisplayTimerFires);
      FixedStepKeepsWellFormed(s1, DisplayTimerFires);
      FixedRunCons(s, CommandTyped, [DisplayTimerFires, FadeTimerFires]);
      FixedRunCons(s1, DisplayTimerFires, [FadeTimerFires]);
      FadeAdvances(s2);
    }
  }

  /** `k` rounds from the start. */
  function Rounds(s: Screen, k: nat): Screen
    decreases k
  {
    if k == 0 then s else Rounds(FixedRun(s, Round(s)), k - 1)
  }

  /** The first `n` rounds from the start type the commands in list
      order, one per round. */
  lemma {:induction false} RoundsVisitEveryCommand(commands: seq<Command>, k: nat)
    requires k < |commands|
    ensures var r := Rounds(Init(commands), k);
            r.phase == TypingCommand && r.index == k && WellFormed(r)
  {
    RoundsFrom(Init(commands), k);
  }

  /** After one round per command the terminal is back where it started,
      so the cycle repeats for ever. */
  lemma {:induction false} RoundsCycle(commands: seq<Command>)
    requires |commands| > 0
    ensures Rounds(Init(commands), |commands|) == Init(commands)
  {
    RoundsFrom(Init(commands), |commands|);
  }

  lemma {:induction false} RoundsFrom(s: Screen, k: nat)
    requires WellFormed(s) && |s.commands| > 0 && s.phase == TypingCommand
    requires s.index + k <= |s.commands|
    ensures var r := Rounds(s, k);
            && r.phase == TypingCommand && r.commands == s.commands && WellFormed(r)
            && r.index == (if s.index + k == |s.commands| then 0 else s.index + k)
    decreases k
  {
    if k > 0 {
      var s' := FixedRun(s, Round(s));
      RoundAdvances(s);
      if s.index + 1 < |s.commands| {
        RoundsFrom(s', k - 1);
      } else {
        assert Rounds(s, k) == s';
      }
    }
  }

  /** The machine as written behaves like the corrected one as long as
      every command has a non-empty result. */
  lemma {:induction false} AgreesWhenResultsPresent(s: Screen, e: Event)
    requires forall k :: 0 <= k < |s.commands| ==> s.commands[k].result.Some? && s.commands[k].result.value != []
    ensures Step(s, e) == FixedStep(s, e)
  {
    if |s.commands| > 0 {
      var k := s.index % |s.commands|;
      assert s.commands[k].result.Some? && s.commands[k].result.value != [];
    }
  }

  /** Over any run, then, the written terminal cycles exactly like the
      corrected one when no result is missing or empty. */
  lemma {:induction false} RunAgreesWhenResultsPresent(s: Screen, evs: seq<Event>)
    requires forall k :: 0 <= k < |s.commands| ==> s.commands[k].result.Some? && s.commands[k].result.value != []
    ensures Run(s, evs) == FixedRun(s, evs)
    decreases |evs|
  {
    if |evs| > 0 {
      AgreesWhenResultsPresent(s, evs[0]);
      assert Step(s, evs[0]).commands == s.commands;
      RunAgreesWhenResultsPresent(Step(s, evs[0]), evs[1..]);
    }
  }
}
