/**
 * The selection cursor of the file explorer: which entry of the current
 * directory listing is selected, and how one key press moves it.
 *
 * Keys are the strings the terminal reports for a key press; special keys
 * (arrows, function keys, resize events) are named "KEY_...".
 */
module Cursor {

  const SpecialPrefix := "KEY_"
  const KeyUp := "KEY_UP"
  const KeyDown := "KEY_DOWN"

  function Min(a: int, b: int): int { if a <= b then a else b }
  function Max(a: int, b: int): int { if a >= b then a else b }

  /** A key the terminal reports by name ("KEY_UP", "KEY_LEFT", "KEY_RESIZE", ...). */
  predicate IsSpecialKey(key: string)
    ensures IsSpecialKey(key) <==> |key| >= 4 && key[..4] == "KEY_"
  {
    SpecialPrefix <= key
  }

  /** The admissible selections for a listing of n entries: [0, max(0, n - 1)]. */
  predicate InRange(x: int, n: nat) {
    0 <= x <= Max(0, n - 1)
  }

  /** Forces an index into the listing: max(0, min(x, n - 1)). */
  function Clamp(x: int, n: nat): (r: int)
    ensures InRange(r, n)
    ensures n == 0 ==> r == 0
    ensures 0 <= x < n ==> r == x
    ensures x < 0 ==> r == 0
    ensures n > 0 && x >= n ==> r == n - 1
  {
    Max(0, Min(x, n - 1))
  }

  /** Vertical movement requested by a key: up one, down one, or none. */
  function Movement(key: string): (d: int)
    ensures d == -1 <==> key == KeyUp
    ensures d == 1 <==> key == KeyDown
    ensures d == 0 <==> key != KeyUp && key != KeyDown
  {
    if key == KeyUp then -1 else if key == KeyDown then 1 else 0
  }

  /**
   * The selection after one key press over a listing of n entries.
   * Only special keys touch the cursor, and every special key clamps it,
   * whether or not it moves it.
   */
  function NextSelection(sel: int, key: string, n: nat): (r: int)
    ensures IsSpecialKey(key) ==> InRange(r, n)
    ensures !IsSpecialKey(key) ==> r == sel
  {
    if IsSpecialKey(key) then Clamp(sel + Movement(key), n) else sel
  }

  /** Clamping an index that is already admissible changes nothing. */
  lemma ClampIdempotent(x: int, n: nat)
    ensures Clamp(Clamp(x, n), n) == Clamp(x, n)
  {
  }

  /** Clamp leaves x alone exactly when x is already admissible. */
  lemma ClampFixedPoints(x: int, n: nat)
    ensures Clamp(x, n) == x <==> InRange(x, n)
  {
  }

  /** With an empty directory every clamped selection is 0. */
  lemma ClampEmptyListing(x: int)
    ensures Clamp(x, 0) == 0
  {
  }

  /** Up and down move by one before clamping; any other special key only clamps. */
  lemma SpecialKeyEffect(sel: int, key: string, n: nat)
    requires IsSpecialKey(key)
    ensures key == KeyUp ==> NextSelection(sel, key, n) == Clamp(sel - 1, n)
    ensures key == KeyDown ==> NextSelection(sel, key, n) == Clamp(sel + 1, n)
    ensures key != KeyUp && key != KeyDown ==> NextSelection(sel, key, n) == Clamp(sel, n)
  {
  }

  /** From a valid selection the arrows step by one and stop at either end. */
  lemma ArrowSteps(sel: int, n: nat)
    requires 0 <= sel < n
    ensures NextSelection(sel, KeyDown, n) == if sel + 1 < n then sel + 1 else sel
    ensures NextSelection(sel, KeyUp, n) == if sel > 0 then sel - 1 else sel
  {
    assert IsSpecialKey(KeyDown) && IsSpecialKey(KeyUp);
  }
}
