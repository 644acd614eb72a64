/**
 * What one pass of the control loop samples: the two push buttons and the
 * keypad register (Security_System.c, "Miscellaneous functionality").
 * The register reads themselves are not part of the model; their values are inputs.
 */
module Inputs {
  import opened Passcodes

  /** One sample of the inputs, as isResetButtonPressed, isModeButtonPressed and the keypad register give them. */
  datatype Sample = Sample(resetPressed: bool, modePressed: bool, keypad: Word32)

  /** The keypad register reads 0xF when no digit key is pressed. */
  const NO_KEY: Word32 := 0xF

  predicate IsKeypadPressed(keypad: Word32) {
    keypad != NO_KEY
  }

  /** getKeypadValue: the low four bits of the register, or 0xF when no key is pressed. */
  function KeypadValue(keypad: Word32): (v: Nibble)
    ensures v == keypad % 16
  {
    if !IsKeypadPressed(keypad) then BLANK_DIGIT else LowNibble(keypad)
  }

  /** The decision of isResetButtonReleased: pressed at the previous sample, released at this one. */
  function FallingEdge(previous: bool, current: bool): bool {
    previous && !current
  }

  /**
   * What isResetButtonReleased answers on each of a run of samples when the
   * remembered state starts at `previous`; the remembered state is always the
   * latest sample.
   */
  function Releases(previous: bool, samples: seq<bool>): (r: seq<bool>)
    ensures |r| == |samples|
    decreases |samples|
  {
    if samples == [] then []
    else [FallingEdge(previous, samples[0])] + Releases(samples[0], samples[1..])
  }

  /**
   * A release is reported exactly where a pressed sample is followed by a
   * released one, whatever was reported before.
   */
  lemma {:induction false} ReleasesAt(previous: bool, samples: seq<bool>, i: nat)
    requires i < |samples|
    ensures Releases(previous, samples)[i] <==>
      (if i == 0 then previous else samples[i - 1]) && !samples[i]
    decreases i
  {
    if i > 0 {
      ReleasesAt(samples[0], samples[1..], i - 1);
    }
  }

  /** One press and release is reported once: no two consecutive samples both report a release. */
  lemma ReleasesNotConsecutive(previous: bool, samples: seq<bool>, i: nat)
    requires i + 1 < |samples|
    ensures !(Releases(previous, samples)[i] && Releases(previous, samples)[i + 1])
  {
    ReleasesAt(previous, samples, i);
    ReleasesAt(previous, samples, i + 1);
  }
}
