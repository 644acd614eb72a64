/**
 * The evaluation of a complete entry against the current mode, the master
 * passcode and the store: the `switch (currentMode)` in the body of the
 * control loop of Security_System.c.
 */
module Authentication {
  import opened Wrappers
  import opened Passcodes
  import opened Modes

  /** Signalled by flashing the status LED green (Accept) or red (Reject). */
  datatype Verdict = Accept | Reject

  /** The verdict (none for a mode the switch does not name) and the store afterwards. */
  datatype Outcome = Outcome(verdict: Option<Verdict>, codes: seq<Passcode>)

  predicate IsFull(codes: seq<Passcode>) {
    |codes| == MAX_NUM_STORED_PASSCODES
  }

  function Evaluate(mode: int, codes: seq<Passcode>, p: Passcode): (o: Outcome)
    ensures o.verdict == None <==> !IsNamedMode(mode)
    ensures o.codes != codes ==>
      o.verdict == Some(Accept) && (mode == MODE_2_SET_CODE || mode == MODE_3_REMOVE_CODE)
  {
    if mode == MODE_1_CHECK_CODE then
      Outcome(Some(if IsMasterPasscode(p) || p in codes then Accept else Reject), codes)
    else if mode == MODE_2_SET_CODE then
      if !IsMasterPasscode(p) && p !in codes && !IsFull(codes) then Outcome(Some(Accept), codes + [p])
      else Outcome(Some(Reject), codes)
    else if mode == MODE_3_REMOVE_CODE then
      if !IsMasterPasscode(p) && p in codes then Outcome(Some(Accept), RemoveFirst(codes, p))
      else Outcome(Some(Reject), codes)
    else
      Outcome(None, codes)
  }

  /**
   * Evaluation keeps the store well formed: the guards of the Set branch are
   * what keep duplicates and the master passcode out, since storing itself
   * checks neither.
   */
  lemma EvaluateKeepsWellFormed(mode: int, codes: seq<Passcode>, p: Passcode)
    requires WellFormedStore(codes)
    ensures WellFormedStore(Evaluate(mode, codes, p).codes)
  {
    if mode == MODE_2_SET_CODE && !IsMasterPasscode(p) && p !in codes && !IsFull(codes) {
      AppendKeepsWellFormed(codes, p);
    } else if mode == MODE_3_REMOVE_CODE {
      RemoveFirstKeepsWellFormed(codes, p);
    }
  }

  /** Check accepts exactly the master passcode and the stored ones, and never changes the store. */
  lemma CheckAccepts(codes: seq<Passcode>, p: Passcode)
    ensures var o := Evaluate(MODE_1_CHECK_CODE, codes, p);
      o.codes == codes && (o.verdict == Some(Accept) <==> p == MASTER_PASSCODE || p in codes)
  {
  }

  /**
   * In Set and Remove mode the verdict reports whether the store changed: an
   * Accept always changes it and a Reject never does.
   */
  lemma VerdictReportsChange(mode: int, codes: seq<Passcode>, p: Passcode)
    requires mode == MODE_2_SET_CODE || mode == MODE_3_REMOVE_CODE
    ensures var o := Evaluate(mode, codes, p);
      o.verdict.Some? && (o.verdict == Some(Accept) <==> o.codes != codes)
  {
    var o := Evaluate(mode, codes, p);
    if mode == MODE_2_SET_CODE && o.verdict == Some(Accept) {
      assert |o.codes| == |codes| + 1;
    }
  }

  /** An accepted Set stores the passcode, so Check accepts it afterwards, and the store grows by one. */
  lemma SetThenCheck(codes: seq<Passcode>, p: Passcode)
    requires Evaluate(MODE_2_SET_CODE, codes, p).verdict == Some(Accept)
    ensures var after := Evaluate(MODE_2_SET_CODE, codes, p).codes;
      |after| == |codes| + 1 && after[..|codes|] == codes &&
      Evaluate(MODE_1_CHECK_CODE, after, p).verdict == Some(Accept)
  {
    var after := codes + [p];
    assert after[|codes|] == p;
  }

  /** Entering the same passcode twice in Set mode: the second attempt is always rejected. */
  lemma SetTwiceRejects(codes: seq<Passcode>, p: Passcode)
    ensures var after := Evaluate(MODE_2_SET_CODE, codes, p).codes;
      Evaluate(MODE_2_SET_CODE, after, p).verdict == Some(Reject)
  {
    var o := Evaluate(MODE_2_SET_CODE, codes, p);
    if o.verdict == Some(Accept) {
      assert o.codes[|codes|] == p;
    }
  }

  /** Once a Remove is accepted, Check rejects the passcode (in a store without duplicates). */
  lemma RemoveThenCheck(codes: seq<Passcode>, p: Passcode)
    requires Distinct(codes)
    requires Evaluate(MODE_3_REMOVE_CODE, codes, p).verdict == Some(Accept)
    ensures var after := Evaluate(MODE_3_REMOVE_CODE, codes, p).codes;
      |after| == |codes| - 1 &&
      Evaluate(MODE_1_CHECK_CODE, after, p).verdict == Some(Reject)
  {
    assert !IsMasterPasscode(p) && p in codes;
    var after := RemoveFirst(codes, p);
    assert Evaluate(MODE_3_REMOVE_CODE, codes, p).codes == after;
    RemoveFirstAbsent(codes, p);
    assert Evaluate(MODE_1_CHECK_CODE, after, p) == Outcome(Some(Reject), after);
  }

  /** Entering the same passcode twice in Remove mode: the second attempt is rejected (in a store without duplicates). */
  lemma RemoveTwiceRejects(codes: seq<Passcode>, p: Passcode)
    requires Distinct(codes)
    ensures var after := Evaluate(MODE_3_REMOVE_CODE, codes, p).codes;
      Evaluate(MODE_3_REMOVE_CODE, after, p).verdict == Some(Reject)
  {
    RemoveFirstAbsent(codes, p);
  }

  /** A full store rejects every Set and keeps its size. */
  lemma SetOnFullRejects(codes: seq<Passcode>, p: Passcode)
    requires IsFull(codes)
    ensures var o := Evaluate(MODE_2_SET_CODE, codes, p);
      o.verdict == Some(Reject) && |o.codes| == MAX_NUM_STORED_PASSCODES
  {
  }

  /** The master passcode passes Check on any store and can be neither set nor removed. */
  lemma MasterIsFixed(mode: int, codes: seq<Passcode>)
    ensures Evaluate(mode, codes, MASTER_PASSCODE).codes == codes
    ensures Evaluate(MODE_1_CHECK_CODE, codes, MASTER_PASSCODE).verdict == Some(Accept)
    ensures IsNamedMode(mode) && mode != MODE_1_CHECK_CODE ==>
      Evaluate(mode, codes, MASTER_PASSCODE).verdict == Some(Reject)
  {
  }
}
