/**
 * The rotation toggle: an index into the two-entry angle table, stepped by
 * the remote's key and kept in the preference store across restarts.
 */
module Rotation {

  /** `rotations.size`: the table holds the angles 0 and 90. */
  const RotationCount: nat := 2

  /** The key the index is stored under, in the preference file "player_settings". */
  const KeyRotation: string := "rotation_state"

  /** Kotlin's `/` on `Int` for a positive divisor: the quotient rounded toward zero. */
  function TruncDiv(a: int, b: int): int
    requires b > 0
  {
    if a >= 0 then a / b else -((-a) / b)
  }

  /**
   * Kotlin's `%` on `Int`: the remainder of truncating division, so it takes
   * the dividend's sign.
   */
  function TruncRem(a: int, b: int): (r: int)
    requires b > 0
    ensures a == TruncDiv(a, b) * b + r
    ensures -b < r < b
    ensures a >= 0 ==> 0 <= r
    ensures a < 0 ==> r <= 0
  {
    if a >= 0 then a % b
    else
      assert -a == (-a) / b * b + (-a) % b;
      -((-a) % b)
  }

  predicate InTable(state: int) {
    0 <= state < RotationCount
  }

  /**
   * `switchSide`'s step, `(rotationState + 1) % rotations.size`: on the table
   * it flips 0 and 1; from -1 it also lands in the table.
   */
  function Toggle(state: int): (r: int)
    ensures InTable(state) ==> r == 1 - state
    ensures state >= -1 ==> InTable(r)
  {
    TruncRem(state + 1, RotationCount)
  }

  /**
   * `loadRotationPreference`'s guard: a value in the table is kept, one at or
   * past its end becomes 0, and a negative one passes through unguarded.
   */
  function LoadedRotation(stored: int): (r: int)
    ensures InTable(stored) ==> r == stored
    ensures stored >= RotationCount ==> r == 0
    ensures stored >= 0 ==> InTable(r)
    ensures stored < 0 ==> r == stored && !InTable(r)
  {
    if stored >= RotationCount then 0 else stored
  }

  /** The toggle is a 2-cycle on the table: it stays in range, changes the angle, and twice is identity. */
  lemma ToggleCycles(state: int)
    requires InTable(state)
    ensures InTable(Toggle(state))
    ensures Toggle(state) != state
    ensures Toggle(Toggle(state)) == state
  {
  }

  /** Saving after a toggle and loading in a new session gives back the toggled index. */
  lemma ToggleSurvivesRestart(state: int)
    requires InTable(state)
    ensures LoadedRotation(Toggle(state)) == Toggle(state)
  {
  }

  /**
   * The integer part of the preference store (the one file "player_settings").
   * `getInt` answers the default for a key never written.
   */
  class Preferences {
    var ints: map<string, int>

    constructor (stored: map<string, int>)
      ensures ints == stored
    {
      ints := stored;
    }

    /** `getInt(key, default)`: the stored value, or the default for a key never written. */
    function GetInt(key: string, default: int): (r: int)
      reads this
      ensures key in ints ==> r == ints[key]
      ensures key !in ints ==> r == default
    {
      if key in ints then ints[key] else default
    }

    method PutInt(key: string, value: int)
      modifies this
      ensures ints == old(ints)[key := value]
      ensures GetInt(key, 0) == value
    {
      ints := ints[key := value];
    }
  }
}
