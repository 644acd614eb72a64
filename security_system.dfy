/**
 * The global state of Security_System.c and the functions that update it in
 * place, as one object. Each method states its effect on the abstract state
 * (`Codes`, `Typed`, `Abstract`) that the pure modules reason about.
 */
module SecuritySystem {
  import opened Wrappers
  import opened Passcodes
  import opened Modes
  import opened Inputs
  import opened Authentication
  import opened ControlLoop

  class System {
    /** storedPasscodes: one passcode per row. */
    const store: array<Passcode>
    /** currentStoredPasscodesIndex: the number of occupied rows. */
    var count: nat
    /** currentPasscode: the entry buffer. */
    const buf: array<Nibble>
    /** currentPasscodeIndex: the number of digits typed. */
    var idx: nat
    /** currentMode, as the value of the enum. */
    var mode: int
    /** previousResetButtonState. */
    var prevReset: bool

    ghost predicate Shaped()
      reads this
    {
      store.Length == MAX_NUM_STORED_PASSCODES && buf.Length == PASSCODE_LENGTH
    }

    /** Occupied rows form a prefix and every row past it is blank; likewise for the entry buffer. */
    ghost predicate Valid()
      reads this, store, buf
    {
      Shaped() && count <= MAX_NUM_STORED_PASSCODES && idx <= PASSCODE_LENGTH &&
      (forall i :: count <= i < store.Length ==> store[i] == BLANK_PASSCODE) &&
      (forall i :: idx <= i < buf.Length ==> buf[i] == BLANK_DIGIT)
    }

    /** The stored passcodes, in the order of their rows. */
    ghost function Codes(): seq<Passcode>
      reads this, store, buf
      requires Valid()
    {
      store[..count]
    }

    /** The digits typed so far. */
    ghost function Typed(): seq<Nibble>
      reads this, store, buf
      requires Valid()
    {
      buf[..idx]
    }

    ghost function Abstract(): State
      reads this, store, buf
      requires Valid()
    {
      State(Codes(), Typed(), mode, prevReset)
    }

    /** Start-up: globals are zero, then main calls resetSystem. */
    constructor ()
      ensures Valid() && fresh(store) && fresh(buf)
      ensures Abstract() == Initial()
    {
      store := new Passcode[MAX_NUM_STORED_PASSCODES](_ => [0, 0, 0, 0]);
      buf := new Nibble[PASSCODE_LENGTH](_ => 0);
      count, idx, mode, prevReset := 0, 0, 0, false;
      new;
      ResetSystem();
    }

    /** resetStoredPasscodes: every row blank, no row occupied. */
    method ResetStoredPasscodes()
      requires Shaped()
      modifies this`count, store
      ensures count == 0
      ensures forall i :: 0 <= i < store.Length ==> store[i] == BLANK_PASSCODE
    {
      forall i | 0 <= i < store.Length {
        store[i] := BLANK_PASSCODE;
      }
      count := 0;
    }

    /** resetCurrentPasscode: every position blank, no digit typed. */
    method ResetCurrentPasscode()
      requires Shaped()
      modifies this`idx, buf
      ensures idx == 0
      ensures forall i :: 0 <= i < buf.Length ==> buf[i] == BLANK_DIGIT
    {
      forall i | 0 <= i < buf.Length {
        buf[i] := BLANK_DIGIT;
      }
      idx := 0;
    }

    /** setMode: the new mode, and the entry buffer cleared. */
    method SetMode(m: int)
      requires Shaped()
      modifies this`mode, this`idx, buf
      ensures mode == m && idx == 0
      ensures forall i :: 0 <= i < buf.Length ==> buf[i] == BLANK_DIGIT
    {
      mode := m;
      ResetCurrentPasscode();
    }

    /** toggleMode: the next mode in the cycle, and the entry buffer cleared. */
    method ToggleMode()
      requires Shaped()
      modifies this`mode, this`idx, buf
      ensures mode == Toggled(old(mode)) && idx == 0
      ensures forall i :: 0 <= i < buf.Length ==> buf[i] == BLANK_DIGIT
    {
      if mode == MODE_1_CHECK_CODE {
        SetMode(MODE_2_SET_CODE);
      } else if mode == MODE_2_SET_CODE {
        SetMode(MODE_3_REMOVE_CODE);
      } else if mode == MODE_3_REMOVE_CODE {
        SetMode(MODE_1_CHECK_CODE);
      } else {
        SetMode(DEFAULT_MODE);
      }
    }

    /** resetSystem: empty store, blank entry, default mode. */
    method ResetSystem()
      requires Shaped()
      modifies this`count, store, this`idx, buf, this`mode
      ensures Valid()
      ensures Abstract() == State([], [], DEFAULT_MODE, prevReset)
      ensures forall i :: 0 <= i < store.Length ==> store[i] == BLANK_PASSCODE
      ensures forall i :: 0 <= i < buf.Length ==> buf[i] == BLANK_DIGIT
    {
      ResetStoredPasscodes();
      ResetCurrentPasscode();
      SetMode(DEFAULT_MODE);
    }

    /** isStoredPasscodesFull. */
    function IsStoredPasscodesFull(): (full: bool)
      reads this, store, buf
      requires Valid()
      ensures full <==> IsFull(Codes())
    {
      count == MAX_NUM_STORED_PASSCODES
    }

    /** isCurrentPasscodeComplete: when it holds, the whole buffer is the typed entry. */
    function IsCurrentPasscodeComplete(): (complete: bool)
      reads this, store, buf
      requires Valid()
      ensures complete <==> |Typed()| == PASSCODE_LENGTH
      ensures complete ==> buf[..] == Typed()
    {
      idx == PASSCODE_LENGTH
    }

    /** isExistingPasscode: a scan of the occupied rows only. */
    method IsExistingPasscode(p: Passcode) returns (found: bool)
      requires Valid()
      ensures found <==> p in Codes()
    {
      var i := 0;
      while i < count
        invariant 0 <= i <= count
        invariant p !in store[..i]
      {
        if p == store[i] {
          assert store[..count][i] == p;
          return true;
        }
        assert store[..i + 1] == store[..i] + [store[i]];
        i := i + 1;
      }
      return false;
    }

    /** storePasscode: appends when there is room; it checks nothing else about `p`. */
    method StorePasscode(p: Passcode) returns (stored: bool)
      requires Valid()
      modifies this`count, store
      ensures Valid()
      ensures stored <==> !IsFull(old(Codes()))
      ensures Codes() == if stored then old(Codes()) + [p] else old(Codes())
      ensures forall i :: 0 <= i < store.Length && i != old(count) ==> store[i] == old(store[i])
    {
      if IsStoredPasscodesFull() {
        return false;
      }
      store[count] := p;
      count := count + 1;
      assert store[..count] == old(store[..count]) + [p];
      return true;
    }

    /**
     * removePasscode: finds the first row holding `p`, shifts every later
     * occupied row down by one, and blanks the row that falls out of use.
     */
    method RemovePasscode(p: Passcode) returns (removed: bool)
      requires Valid()
      modifies this`count, store
      ensures Valid()
      ensures removed <==> p in old(Codes())
      ensures Codes() == RemoveFirst(old(Codes()), p)
      ensures removed ==> store[count] == BLANK_PASSCODE && count == old(count) - 1
    {
      var present := IsExistingPasscode(p);
      if !present {
        return false;
      }
      ghost var codes := Codes();
      var i := 0;
      while i < count && p != store[i]
        invariant 0 <= i < count
        invariant p !in store[..i] && p in store[i..count]
      {
        assert store[..i + 1] == store[..i] + [store[i]];
        assert store[i..count] == [store[i]] + store[i + 1..count];
        i := i + 1;
      }
      FirstIndexUnique(codes, p, i);
      RemoveRow(i);
      RemoveFirstIsSplice(codes, p);
      return true;
    }

    /**
     * The second half of removePasscode: every occupied row after `k` moves
     * down by one, and the row that falls out of use is blanked.
     */
    method RemoveRow(k: nat)
      requires Valid() && k < count
      modifies this`count, store
      ensures Valid()
      ensures count == old(count) - 1 && store[count] == BLANK_PASSCODE
      ensures Codes() == old(Codes()[..k] + Codes()[k + 1..])
    {
      ghost var before := store[..];
      var i := k;
      while i < count - 1
        invariant k <= i <= count - 1 && count == old(count)
        invariant forall j :: 0 <= j < k ==> store[j] == before[j]
        invariant forall j :: k <= j < i ==> store[j] == before[j + 1]
        invariant forall j :: i <= j < store.Length ==> store[j] == before[j]
      {
        store[i] := store[i + 1];
        i := i + 1;
      }
      ghost var shifted := store[..];
      ShiftIsSplice(before, shifted, k, count);
      count := count - 1;
      store[count] := BLANK_PASSCODE;
      assert store[..count] == shifted[..count];
      assert forall j :: count < j < store.Length ==> store[j] == before[j];
      assert forall j :: count <= j < store.Length ==> store[j] == BLANK_PASSCODE;
    }

    /** storeCurrentPasscodeDigit: refuses once four digits are held, otherwise stores `digitData & 0xF`. */
    method StoreCurrentPasscodeDigit(digitData: Byte) returns (stored: bool)
      requires Valid()
      modifies this`idx, buf
      ensures Valid()
      ensures stored <==> old(idx) < PASSCODE_LENGTH
      ensures Typed() == Appended(old(Typed()), LowNibble(digitData))
    {
      if IsCurrentPasscodeComplete() {
        return false;
      }
      buf[idx] := LowNibble(digitData);
      idx := idx + 1;
      assert buf[..idx] == old(buf[..idx]) + [LowNibble(digitData)];
      return true;
    }

    /** isResetButtonReleased: reports a falling edge and remembers the new sample. */
    method IsResetButtonReleased(resetPressed: bool) returns (released: bool)
      modifies this`prevReset
      ensures released == FallingEdge(old(prevReset), resetPressed)
      ensures prevReset == resetPressed
    {
      released := prevReset && !resetPressed;
      prevReset := resetPressed;
    }

    /**
     * The `switch (currentMode)` on a complete entry: decides the verdict,
     * applies the change to the store, and always clears the entry buffer.
     */
    method EvaluateEntry() returns (verdict: Option<Verdict>)
      requires Valid()
      modifies this`count, store, this`idx, buf
      ensures Valid()
      ensures var o := Evaluate(mode, old(Codes()), old(buf[..]));
        verdict == o.verdict && Codes() == o.codes
      ensures Typed() == []
    {
      var code: Passcode := buf[..];
      var master := IsMasterPasscode(code);
      var existing := IsExistingPasscode(code);
      if mode == MODE_1_CHECK_CODE {
        verdict := if master || existing then Some(Accept) else Some(Reject);
      } else if mode == MODE_2_SET_CODE {
        if !master && !existing && !IsStoredPasscodesFull() {
          verdict := Some(Accept);
          var _ := StorePasscode(code);
        } else {
          verdict := Some(Reject);
        }
      } else if mode == MODE_3_REMOVE_CODE {
        if !master && existing {
          verdict := Some(Accept);
          var _ := RemovePasscode(code);
        } else {
          verdict := Some(Reject);
        }
      } else {
        verdict := None;
      }
      ResetCurrentPasscode();
      assert buf[..idx] == [];
    }

    /**
     * One pass of the control loop: the reset button's release, then the mode
     * button, then the keypad; a key that completes the entry has it evaluated.
     */
    method Tick(sample: Sample) returns (verdict: Option<Verdict>)
      requires Valid()
      modifies this, store, buf
      ensures Valid()
      ensures Transition(Abstract(), verdict) == Step(old(Abstract()), sample)
    {
      var released := IsResetButtonReleased(sample.resetPressed);
      verdict := None;
      if released {
        ResetSystem();
      } else if sample.modePressed {
        ToggleMode();
        assert buf[..idx] == [];
      } else if IsKeypadPressed(sample.keypad) {
        var _ := StoreCurrentPasscodeDigit(KeypadValue(sample.keypad));
        if IsCurrentPasscodeComplete() {
          verdict := EvaluateEntry();
        }
      }
    }
  }

  /** Shifting the rows after `k` down by one splices row `k` out of the first `n`. */
  lemma ShiftIsSplice(before: seq<Passcode>, after: seq<Passcode>, k: nat, n: nat)
    requires k < n <= |before| == |after|
    requires forall j :: 0 <= j < k ==> after[j] == before[j]
    requires forall j :: k <= j < n - 1 ==> after[j] == before[j + 1]
    ensures after[..n - 1] == before[..k] + before[k + 1..n]
  {
    var spliced := before[..k] + before[k + 1..n];
    forall j | 0 <= j < n - 1 ensures after[j] == spliced[j] {
      if j < k {
        assert spliced[j] == before[j];
      } else {
        assert spliced[j] == before[j + 1];
      }
    }
  }
}
