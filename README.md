# Passcode authentication state machine of a security system

A model, in Dafny, of the control logic of a single-user access device
(`Security_System.c`). The user types 4-digit passcodes on a keypad. A mode
button cycles the device through three modes: Check (is this passcode
valid?), Set (store a new passcode) and Remove (delete a stored passcode).
Releasing the reset button wipes the store and returns to Check. The fixed
master passcode 0000 is always accepted in Check and can be neither set nor
removed.

The C program keeps all of this in global variables:
- a table of 100 passcode rows, with a count of occupied rows;
- a 4-position entry buffer, with a fill index;
- the current mode;
- the remembered reset-button state.

Its `main` loop polls the buttons and the keypad forever.

The model has two layers.

- The pure specification, in five parts:
  - `Passcodes`: passcodes, the store as a sequence, removal of the first
    match, the typed prefix of the entry buffer, and the display encoding.
  - `Modes`: the mode cycle.
  - `Inputs`: the keypad register and the falling-edge detector of the reset
    button.
  - `Authentication.Evaluate`: what a complete entry does in each mode.
  - `ControlLoop.Step`: one pass of the loop, as a function over an abstract
    `State`. `ControlLoop.Run` is a run of passes.
- `SecuritySystem.System`: a class whose fields are the C globals, with one
  method per C function. Arrays are updated in place, and the loops are the
  C loops. Each method states its effect on the abstract state (`Codes()`,
  `Typed()`, `Abstract()`). `Tick` is one pass of the `main` loop, proved to
  be `Step`.

The main invariant is that the store stays within capacity, holds no
passcode twice and never holds the master passcode. `storePasscode` does not
check this. It holds only because the guards of the Set branch run before
the call. So the invariant is proved for `Evaluate` and `Step`
(`EvaluateKeepsWellFormed`, `StepKeepsInvariant`, `RunKeepsInvariant`), not
for `StorePasscode`.

Modelling choices:
- A store row is a `Passcode`: a sequence of four nibbles. The C copies the
  four bytes of a row together, so the model assigns a row as one value.
- The mode is the integer value of the C enum (1, 2, 3). This keeps the
  `default:` branches of `toggleMode` and of the evaluation switch. The
  evaluation's `default:` gives no verdict.
- Hardware reads are inputs. A `Sample` holds the reset button level, the
  mode button level and the 32-bit keypad register.
- The green or red status flash that follows an evaluated entry becomes the
  verdict that `Tick` returns. The green flash after a reset release is not a
  verdict: on that pass `Tick` returns none.

In these details the model follows the code:
- `storeCurrentPasscodeDigit` does not refuse a blank (0xF) digit. It stores
  `digitData & 0xF`, whatever that is.
- The keypad counts as pressed whenever the register is not 0xF. So a
  register such as 0x1F stores a blank nibble as a typed digit.
- Once the buffer is full, further digits are dropped. They do not start a
  new entry. In the loop this never happens, because the buffer is cleared
  as soon as it is complete.
- `storePasscode` checks only capacity. Duplicates and the master passcode
  are kept out by the caller.

## Model

| member | source | states |
|---|---|---|
| Passcodes.LowNibble | Security_System.c:441 | `x & 0xF` is the nibble congruent to x modulo 16, and is x itself for x < 16 |
| Passcodes.IsMasterPasscode | Security_System.c:455-461 | the position-wise comparison with {0,0,0,0} holds exactly when the passcode equals the master passcode |
| Passcodes.FirstIndex | Security_System.c:397-408 | the search stops at an index that holds the passcode, with no match before it |
| Passcodes.FirstIndexUnique | Security_System.c:397-408 | a matching index with no earlier match is the one the search finds |
| Passcodes.RemoveFirst | Security_System.c:392-427 | removal leaves the store unchanged when the passcode is absent, and otherwise shrinks it by one |
| Passcodes.RemoveFirstMultiset | Security_System.c:397-424 | removal takes out exactly one copy of the passcode, if there is one, and nothing else (multiset difference) |
| Passcodes.RemoveFirstIsSplice | Security_System.c:410-417 | removal splices out the first match: earlier entries stay in place, later ones move down by one in the same order |
| Passcodes.RemoveFirstSubset | Security_System.c:410-424 | removal introduces no passcode |
| Passcodes.RemoveFirstAbsent | Security_System.c:266-273 | in a store without duplicates, the removed passcode is no longer contained |
| Passcodes.RemoveFirstDistinct | Security_System.c:410-424 | removal keeps a store free of duplicates |
| Passcodes.RemoveFirstMembers | Security_System.c:392-427 | in a store without duplicates, q is kept after removing p exactly when q was stored and q is not p |
| Passcodes.RemoveFirstKeepsWellFormed | Security_System.c:266-274 | removal keeps the store within capacity, free of duplicates and free of the master passcode, and the removed passcode is gone |
| Passcodes.AppendKeepsWellFormed | Security_System.c:249-257 | appending a new, non-master passcode to a store that is not full keeps it well formed |
| Passcodes.Appended | Security_System.c:435-447 | appending keeps the digits already typed as a prefix, adds at most one, and never takes the entry past four digits |
| Passcodes.TypedAfterKeepsFirstDigits | Security_System.c:435-447 | over any run of keypresses the buffer holds the first digits that fit, in order: four digits complete it and more change nothing |
| Passcodes.DisplayWord | Security_System.c:648-655 | the packed display value fits in 16 bits |
| Passcodes.DisplayRoundTrip | Security_System.c:648-655 | unpacking the four nibbles of the display word gives back the passcode |
| Modes.Toggled | Security_System.c:299-317 | toggling always yields a named mode, different from the current one |
| Modes.ToggleCycle | Security_System.c:299-317 | three toggles return every named mode to itself, and two do not |
| Modes.ToggleUnnamed | Security_System.c:313-315 | a value that names no mode toggles to Check |
| Inputs.IsKeypadPressed | Security_System.c:623-626 | a key counts as pressed exactly when the register is not 0xF; its effect on a pass is stated by `ControlLoop.VerdictOnlyOnCompleteEntry` and `ControlLoop.ModeBeforeKeypad` |
| Inputs.KeypadValue | Security_System.c:633-640 | the digit read is the register's low nibble (0xF when no key is pressed) |
| Inputs.FallingEdge | Security_System.c:598-599 | a release is the previous level pressed and the current one released; stated over runs by `Inputs.ReleasesAt` and `ControlLoop.RunResetsOnReleases`, and per pass by `ControlLoop.ReleaseTakesPriority` |
| Inputs.Releases | Security_System.c:592-605 | the detector gives one answer per sample |
| Inputs.ReleasesAt | Security_System.c:592-605 | a release is reported exactly where a pressed sample is followed by a released one, because the remembered state is updated on every call |
| Inputs.ReleasesNotConsecutive | Security_System.c:592-605 | no two consecutive samples both report a release |
| Authentication.IsFull | Security_System.c:489-492 | the store is full when it holds 100 passcodes; used by `Authentication.SetOnFullRejects` and `SecuritySystem.System.IsStoredPasscodesFull` |
| Authentication.Evaluate | Security_System.c:232-284 | a verdict is given exactly in a named mode, and the store changes only on an accepted Set or Remove |
| Authentication.EvaluateKeepsWellFormed | Security_System.c:232-284 | the evaluation of an entry, in any mode, keeps the store within capacity, free of duplicates and free of the master passcode |
| Authentication.CheckAccepts | Security_System.c:234-248 | Check accepts exactly the master passcode and stored passcodes, and leaves the store unchanged |
| Authentication.VerdictReportsChange | Security_System.c:249-281 | in Set and Remove mode there is always a verdict, and it is Accept exactly when the store changed |
| Authentication.SetThenCheck | Security_System.c:249-258 | an accepted Set appends the passcode after the existing ones, and Check then accepts it |
| Authentication.SetTwiceRejects | Security_System.c:249-265 | setting the same passcode a second time is always rejected |
| Authentication.RemoveThenCheck | Security_System.c:266-281 | after an accepted Remove the store is one shorter and Check rejects the passcode |
| Authentication.RemoveTwiceRejects | Security_System.c:266-281 | removing the same passcode a second time is rejected |
| Authentication.SetOnFullRejects | Security_System.c:249-264 | on a full store Set is rejected and the store keeps 100 entries |
| Authentication.MasterIsFixed | Security_System.c:234-281 | the master passcode never changes the store, passes Check and is rejected by Set and Remove |
| ControlLoop.AfterReset | Security_System.c:690-700 | the reset state satisfies the loop invariant (empty store, blank entry, mode Check) and keeps the reset-button memory |
| ControlLoop.Step | Security_System.c:205-287 | every pass remembers the latest reset level, and a pass that gives a verdict clears the entry and keeps the mode |
| ControlLoop.InitialInvariant | Security_System.c:198-201 | the state after start-up satisfies the loop invariant |
| ControlLoop.StepKeepsInvariant | Security_System.c:203-288 | every pass keeps a well-formed store, an incomplete entry and a named mode |
| ControlLoop.RunKeepsInvariant | Security_System.c:203-288 | the invariant holds after any number of passes |
| ControlLoop.StepRemembersReset | Security_System.c:210 | every pass leaves the remembered reset state equal to the latest sample |
| ControlLoop.ReleaseTakesPriority | Security_System.c:210-215 | on a reset release the mode button and keypad are ignored, and the state is reset |
| ControlLoop.ModeBeforeKeypad | Security_System.c:216-220 | without a release, a pressed mode button makes the keypad irrelevant, keeps the store and clears the entry |
| ControlLoop.VerdictOnlyOnCompleteEntry | Security_System.c:221-286 | a verdict comes only from a key that completes the entry, and the entry is then cleared |
| ControlLoop.RunResetsOnReleases | Security_System.c:210-215 | pass i of a run resets the system exactly when the falling-edge detector, fed the run's reset levels, reports a release at i |
| ControlLoop.SetScenario | Security_System.c:216-258 | from start-up, mode button then keys 1 2 3 4 stores [1,2,3,4], with Accept on the fourth key only |
| SecuritySystem.System.constructor | Security_System.c:198-201 | start-up gives an empty store, a blank entry, mode Check and a released reset button |
| SecuritySystem.System.ResetStoredPasscodes | Security_System.c:342-348 | every row blank and count 0 |
| SecuritySystem.System.ResetCurrentPasscode | Security_System.c:355-360 | every buffer position blank and index 0 |
| SecuritySystem.System.SetMode | Security_System.c:325-335 | the mode is set and the entry buffer cleared |
| SecuritySystem.System.ToggleMode | Security_System.c:299-317 | the mode becomes `Toggled` of the old one and the entry buffer is cleared |
| SecuritySystem.System.ResetSystem | Security_System.c:690-700 | empty store with every row blank, blank entry, mode Check, reset memory untouched |
| SecuritySystem.System.IsStoredPasscodesFull | Security_System.c:489-492 | full exactly when the store holds 100 passcodes |
| SecuritySystem.System.IsCurrentPasscodeComplete | Security_System.c:499-502 | complete exactly when four digits are typed, and then the buffer is the typed entry |
| SecuritySystem.System.IsExistingPasscode | Security_System.c:469-482 | true exactly when one of the occupied rows holds the passcode; no later row is consulted |
| SecuritySystem.System.StorePasscode | Security_System.c:371-384 | refuses exactly when full; otherwise appends at row `count`, and every other row is unchanged |
| SecuritySystem.System.RemovePasscode | Security_System.c:392-427 | succeeds exactly when the passcode is stored; the store becomes `RemoveFirst` of the old one, the count drops by one and the vacated row is blank |
| SecuritySystem.System.RemoveRow | Security_System.c:410-424 | shifting the later rows down splices row k out, decrements the count and blanks the vacated row |
| SecuritySystem.System.StoreCurrentPasscodeDigit | Security_System.c:435-447 | refuses exactly when four digits are held; otherwise appends `digitData & 0xF` to the typed digits |
| SecuritySystem.System.IsResetButtonReleased | Security_System.c:592-605 | reports previous-pressed and now-released, and remembers the new sample |
| SecuritySystem.System.EvaluateEntry | Security_System.c:230-286 | verdict and new store are those of `Evaluate` on the mode, the old store and the buffer; the buffer is always cleared |
| SecuritySystem.System.Tick | Security_System.c:205-287 | one pass changes the state and gives the verdict exactly as `ControlLoop.Step` does |

## Left out

- Hardware register access (button, keypad, display and LED registers) is not modelled. Button levels and the keypad register are inputs of `Tick`.
- LED colours and flashing (`setLEDS`, `setModeLED`, `flashStatusLED`) are output only. The green or red flash after an evaluated entry is the verdict `Tick` returns.
- The green flash that acknowledges a reset release (Security_System.c:214) is not modelled. It is not a verdict, and `Tick` returns no verdict on that pass.
- `clearOutputs` is not modelled. It runs while the reset button is held, and it only blanks the LEDs and the display.
- `delayMS` is a busy-wait for timing and debouncing, with no logical content.
- `displayPasscode` is modelled only as its packing of nibbles (`DisplayWord`). The register write is left out.
- The endless `while (true)` loop is not a method. One pass is `Tick`, and `ControlLoop.Run` strings passes together.
- One pass reads the keypad register three times: `isKeypadPressed` at Security_System.c:221 (via :625), again in `getKeypadValue` at :636, and the digit itself at :639. The model takes one sample for all three reads. So it does not capture a key released between :221 and :636, for which the C types a blank 0xF digit (:636). In the model a blank digit is typed only from a register such as 0x1F.
- The reset button is likewise read twice per pass (:205 and :600). The model takes one level for both reads.
- `Security_System.h` holds only prototypes, so it has no logic to model.
- `EvaluateEntry` scans the store in every mode. The C scans it only where the `||`/`&&` conditions reach the call. The scan only reads, so nothing observable differs.
- Integer widths: the counters stay at or below 100 and 4, so their `uint8_t` types never wrap. The model uses unbounded naturals for them.
