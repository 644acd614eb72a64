/**
 * The operating modes (Security_System.c, "Mode related functionality").
 * A mode is kept as the value of the C enum `Mode`, so that a value outside
 * the three named ones can be represented, as it can in C.
 */
module Modes {

  const MODE_1_CHECK_CODE := 1
  const MODE_2_SET_CODE := 2
  const MODE_3_REMOVE_CODE := 3
  const DEFAULT_MODE := MODE_1_CHECK_CODE

  predicate IsNamedMode(m: int) {
    m == MODE_1_CHECK_CODE || m == MODE_2_SET_CODE || m == MODE_3_REMOVE_CODE
  }

  /** The mode toggleMode switches to: Check, Set, Remove in a cycle; anything else to the default. */
  function Toggled(m: int): (r: int)
    ensures IsNamedMode(r)
    ensures r != m
  {
    if m == MODE_1_CHECK_CODE then MODE_2_SET_CODE
    else if m == MODE_2_SET_CODE then MODE_3_REMOVE_CODE
    else if m == MODE_3_REMOVE_CODE then MODE_1_CHECK_CODE
    else DEFAULT_MODE
  }

  /** Three toggles bring every named mode back, and no fewer do. */
  lemma ToggleCycle(m: int)
    requires IsNamedMode(m)
    ensures Toggled(Toggled(Toggled(m))) == m
    ensures Toggled(Toggled(m)) != m
  {
  }

  /** A value that names no mode is sent to Check. */
  lemma ToggleUnnamed(m: int)
    requires !IsNamedMode(m)
    ensures Toggled(m) == MODE_1_CHECK_CODE
  {
  }
}
