/** The unit choice of `_format_size` / `format_size`: the size is divided by 1024 until it
    drops below 1024, at most four times, giving B, KB, MB, GB or TB. */
module Sizes {

  datatype Unit = B | KB | MB | GB | TB

  /** Bytes per unit. */
  function Scale(u: Unit): (r: nat)
    ensures r >= 1
  {
    match u
    case B => 1
    case KB => 1024
    case MB => 1024 * 1024
    case GB => 1024 * 1024 * 1024
    case TB => 1024 * 1024 * 1024 * 1024
  }

  /** The unit in which `size` is shown, by its thresholds 1024, 1024², 1024³ and 1024⁴. */
  function UnitFor(size: nat): (u: Unit)
    // the shown number size / Scale(u) is at least 1 (except in bytes) and below 1024 (except in TB)
    ensures u == B || Scale(u) <= size
    ensures u == TB || size < 1024 * Scale(u)
  {
    if size < 1024 then B
    else if size < 1024 * 1024 then KB
    else if size < 1024 * 1024 * 1024 then MB
    else if size < 1024 * 1024 * 1024 * 1024 then GB
    else TB
  }

  /** The two bounds of UnitFor determine the unit: no other unit satisfies them. */
  lemma UnitUnique(size: nat, u: Unit)
    requires u == B || Scale(u) <= size
    requires u == TB || size < 1024 * Scale(u)
    ensures u == UnitFor(size)
  {
  }

  /** A size rendered as a number of some unit (the `.1f` text rendering is not modelled). */
  datatype Size = Size(value: real, unit: Unit)

  /** The exact quotient shown by `_format_size`. */
  function Sized(size: nat): (r: Size)
    ensures r.unit == UnitFor(size)
    ensures r.value * Scale(r.unit) as real == size as real
    ensures r.value >= 0.0
    ensures r.unit != TB ==> r.value < 1024.0
    ensures r.unit != B ==> r.value >= 1.0
  {
    var u := UnitFor(size);
    Size(size as real / Scale(u) as real, u)
  }

  /** Sized gives the only unit and value that multiply back to the size and keep the value
      in [1, 1024), widened to 0 below in bytes and unbounded above in TB. */
  lemma SizedUnique(size: nat, u: Unit, value: real)
    requires value * Scale(u) as real == size as real
    requires u == B || value >= 1.0
    requires u == TB || value < 1024.0
    ensures Sized(size) == Size(value, u)
  {
    UnitUnique(size, u);
  }

  /** The i-th unit of the loop `for unit in ['B', 'KB', 'MB', 'GB']`, TB after it. */
  function UnitAt(i: nat): (u: Unit)
    requires i <= 4
    ensures Scale(u) == if i == 0 then 1 else 1024 * Scale(UnitAt(i - 1))
  {
    [B, KB, MB, GB, TB][i]
  }
}
