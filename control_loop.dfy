/**
 * One pass of the control loop of Security_System.c (the body of
 * `while (true)` in main), as a step function over the abstract state.
 */
module ControlLoop {
  import opened Wrappers
  import opened Passcodes
  import opened Modes
  import opened Inputs
  import opened Authentication

  /**
   * The state the loop keeps between passes: the occupied prefix of the
   * store, the digits typed so far, the mode, and the remembered reset
   * button state.
   */
  datatype State = State(codes: seq<Passcode>, typed: seq<Nibble>, mode: int, resetWasPressed: bool)

  datatype Transition = Transition(next: State, verdict: Option<Verdict>)

  /** resetSystem: empty store, blank entry, default mode; the button memory is left alone. */
  function AfterReset(s: State): (r: State)
    ensures Invariant(r) && r.resetWasPressed == s.resetWasPressed
  {
    s.(codes := [], typed := [], mode := DEFAULT_MODE)
  }

  /**
   * The release of the reset button comes first, then the mode button, then a
   * key; only one of them is acted on. When a key completes the entry it is
   * evaluated and the entry cleared.
   */
  function Step(s: State, sample: Sample): (t: Transition)
    ensures t.next.resetWasPressed == sample.resetPressed
    ensures t.verdict.Some? ==> t.next.typed == [] && t.next.mode == s.mode
  {
    var released := FallingEdge(s.resetWasPressed, sample.resetPressed);
    var s' := s.(resetWasPressed := sample.resetPressed);
    if released then
      Transition(AfterReset(s'), None)
    else if sample.modePressed then
      Transition(s'.(mode := Toggled(s.mode), typed := []), None)
    else if IsKeypadPressed(sample.keypad) then
      var typed := Appended(s.typed, KeypadValue(sample.keypad));
      if |typed| == PASSCODE_LENGTH then
        var o := Evaluate(s.mode, s.codes, typed);
        Transition(s'.(codes := o.codes, typed := []), o.verdict)
      else
        Transition(s'.(typed := typed), None)
    else
      Transition(s', None)
  }

  /** The state right after start-up: main calls resetSystem before the loop. */
  function Initial(): State {
    State([], [], DEFAULT_MODE, false)
  }

  /** What holds between passes: a well-formed store, an incomplete entry, a named mode. */
  ghost predicate Invariant(s: State) {
    WellFormedStore(s.codes) && |s.typed| < PASSCODE_LENGTH && IsNamedMode(s.mode)
  }

  lemma InitialInvariant()
    ensures Invariant(Initial())
  {
  }

  /** Every pass keeps the invariant, so the store never holds a duplicate or the master passcode. */
  lemma StepKeepsInvariant(s: State, sample: Sample)
    requires Invariant(s)
    ensures Invariant(Step(s, sample).next)
  {
    var typed := Appended(s.typed, KeypadValue(sample.keypad));
    if |typed| == PASSCODE_LENGTH {
      EvaluateKeepsWellFormed(s.mode, s.codes, typed);
    }
  }

  /** The button memory always ends up holding the sample just taken. */
  lemma StepRemembersReset(s: State, sample: Sample)
    ensures Step(s, sample).next.resetWasPressed == sample.resetPressed
  {
  }

  /** A release of the reset button overrides the mode button and the keypad. */
  lemma ReleaseTakesPriority(s: State, a: Sample, b: Sample)
    requires FallingEdge(s.resetWasPressed, a.resetPressed) && a.resetPressed == b.resetPressed
    ensures Step(s, a) == Step(s, b)
    ensures Step(s, a).next == AfterReset(s).(resetWasPressed := a.resetPressed)
  {
  }

  /** Without a release, the mode button overrides the keypad, and toggling clears the entry. */
  lemma ModeBeforeKeypad(s: State, a: Sample, b: Sample)
    requires !FallingEdge(s.resetWasPressed, a.resetPressed) && a.resetPressed == b.resetPressed
    requires a.modePressed && b.modePressed
    ensures Step(s, a) == Step(s, b)
    ensures Step(s, a).next.codes == s.codes && Step(s, a).next.typed == []
  {
  }

  /** A verdict is given only on a key that completes the entry, and the entry is then cleared. */
  lemma VerdictOnlyOnCompleteEntry(s: State, sample: Sample)
    requires Step(s, sample).verdict.Some?
    ensures !FallingEdge(s.resetWasPressed, sample.resetPressed) && !sample.modePressed
    ensures IsKeypadPressed(sample.keypad)
    ensures |Appended(s.typed, KeypadValue(sample.keypad))| == PASSCODE_LENGTH
    ensures Step(s, sample).next.typed == []
  {
  }

  /** The passes from `s` over a run of samples, with the verdicts they give. */
  function Run(s: State, samples: seq<Sample>): (r: (State, seq<Option<Verdict>>))
    ensures |r.1| == |samples|
    decreases |samples|
  {
    if samples == [] then (s, [])
    else
      var t := Step(s, samples[0]);
      var rest := Run(t.next, samples[1..]);
      (rest.0, [t.verdict] + rest.1)
  }

  lemma RunCons(s: State, x: Sample, rest: seq<Sample>)
    ensures var t := Step(s, x);
      Run(s, [x] + rest) == (Run(t.next, rest).0, [t.verdict] + Run(t.next, rest).1)
  {
    assert ([x] + rest)[1..] == rest;
  }

  /** The invariant holds after any run of passes from start-up. */
  lemma {:induction false} RunKeepsInvariant(s: State, samples: seq<Sample>)
    requires Invariant(s)
    ensures Invariant(Run(s, samples).0)
    decreases |samples|
  {
    if samples != [] {
      StepKeepsInvariant(s, samples[0]);
      RunKeepsInvariant(Step(s, samples[0]).next, samples[1..]);
    }
  }

  /** Running over one more sample is one more pass after the run. */
  lemma {:induction false} RunSnoc(s: State, samples: seq<Sample>, x: Sample)
    ensures Run(s, samples + [x]).0 == Step(Run(s, samples).0, x).next
    decreases |samples|
  {
    if samples == [] {
      RunCons(s, x, []);
    } else {
      assert samples + [x] == [samples[0]] + (samples[1..] + [x]);
      RunCons(s, samples[0], samples[1..] + [x]);
      RunCons(s, samples[0], samples[1..]);
      assert [samples[0]] + samples[1..] == samples;
      RunSnoc(Step(s, samples[0]).next, samples[1..], x);
    }
  }

  /** The reset button levels of a run of samples. */
  function ResetLevels(samples: seq<Sample>): (levels: seq<bool>)
    ensures |levels| == |samples|
    ensures forall j :: 0 <= j < |samples| ==> levels[j] == samples[j].resetPressed
  {
    seq(|samples|, j requires 0 <= j < |samples| => samples[j].resetPressed)
  }

  /**
   * Pass i of a run resets the system exactly when the falling-edge detector,
   * fed the reset levels of the run, reports a release at i.
   */
  lemma {:induction false} RunResetsOnReleases(s: State, samples: seq<Sample>, i: nat)
    requires i < |samples|
    ensures var before := Run(s, samples[..i]).0;
      var released := Releases(s.resetWasPressed, ResetLevels(samples))[i];
      FallingEdge(before.resetWasPressed, samples[i].resetPressed) == released &&
      (released ==>
         Step(before, samples[i]) ==
         Transition(AfterReset(before).(resetWasPressed := samples[i].resetPressed), None))
  {
    ReleasesAt(s.resetWasPressed, ResetLevels(samples), i);
    if i > 0 {
      assert samples[..i] == samples[..i - 1] + [samples[i - 1]];
      RunSnoc(s, samples[..i - 1], samples[i - 1]);
    } else {
      assert samples[..0] == [];
    }
  }

  function Key(d: Nibble): Sample { Sample(false, false, d) }

  const MODE_BUTTON := Sample(false, true, NO_KEY)

  /** The entry states of the Set scenario: mode Set, the given store and typed digits. */
  function SetState(codes: seq<Passcode>, typed: seq<Nibble>): State {
    State(codes, typed, MODE_2_SET_CODE, false)
  }

  /** The five passes of the Set scenario, one at a time. */
  lemma SetScenarioPasses()
    ensures Step(Initial(), MODE_BUTTON) == Transition(SetState([], []), None)
    ensures Step(SetState([], []), Key(1)) == Transition(SetState([], [1]), None)
    ensures Step(SetState([], [1]), Key(2)) == Transition(SetState([], [1, 2]), None)
    ensures Step(SetState([], [1, 2]), Key(3)) == Transition(SetState([], [1, 2, 3]), None)
    ensures Step(SetState([], [1, 2, 3]), Key(4)) == Transition(SetState([[1, 2, 3, 4]], []), Some(Accept))
  {
    assert [1, 2, 3] + [4] == [1, 2, 3, 4];
  }

  /** From start-up: toggle to Set, type 1 2 3 4; the passcode is stored and the fourth key gets Accept. */
  lemma SetScenario()
    ensures var r := Run(Initial(), [MODE_BUTTON, Key(1), Key(2), Key(3), Key(4)]);
      r.0.codes == [[1, 2, 3, 4]] && r.0.mode == MODE_2_SET_CODE &&
      r.1 == [None, None, None, None, Some(Accept)]
  {
    SetScenarioPasses();
    RunCons(SetState([], [1, 2, 3]), Key(4), []);
    RunCons(SetState([], [1, 2]), Key(3), [Key(4)]);
    RunCons(SetState([], [1]), Key(2), [Key(3), Key(4)]);
    RunCons(SetState([], []), Key(1), [Key(2), Key(3), Key(4)]);
    RunCons(Initial(), MODE_BUTTON, [Key(1), Key(2), Key(3), Key(4)]);
  }
}
