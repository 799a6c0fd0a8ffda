/**
 * `format_size`: a size in KB shown in the largest of KB, MB and GB that
 * keeps the number below 1024, and in TB when none does. The number is
 * kept as an exact real; its rendering with one decimal is not modelled.
 */
module SizeFormat {

  datatype Unit = KB | MB | GB | TB

  /** How many times 1024 divides into one of the unit, counted in KB. */
  function Rank(u: Unit): nat {
    match u
    case KB => 0
    case MB => 1
    case GB => 2
    case TB => 3
  }

  /** The units the loop of `format_size` tries, in order, before falling back to TB. */
  const LoopUnits: seq<Unit> := [KB, MB, GB]

  function Pow1024(k: nat): (p: nat)
    ensures p >= 1
  {
    if k == 0 then 1 else 1024 * Pow1024(k - 1)
  }

  /** One of the unit, in KB. */
  function Scale(u: Unit): nat {
    Pow1024(Rank(u))
  }

  /** A size as `format_size` shows it: a number and a unit. */
  datatype Size = Size(magnitude: real, unit: Unit)

  /** The unit `format_size` picks for `kb`. */
  function UnitFor(kb: nat): Unit {
    if kb < Scale(MB) then KB
    else if kb < Scale(GB) then MB
    else if kb < Scale(TB) then GB
    else TB
  }

  /**
   * The reference definition of `format_size`: `kb` in the unit `UnitFor`
   * picks. The shown number times the unit is `kb` again, it is below 1024
   * unless the unit is TB, and at least 1 unless the unit is KB.
   */
  function SizeOf(kb: nat): (s: Size)
    ensures s.magnitude * Scale(s.unit) as real == kb as real
    ensures s.unit != TB ==> s.magnitude < 1024.0
    ensures s.unit != KB ==> s.magnitude >= 1.0
  {
    var u := UnitFor(kb);
    var m := kb as real / Scale(u) as real;
    BelowNextUnit(kb, u);
    AtLeastOneUnit(kb, u);
    Size(m, u)
  }

  lemma BelowNextUnit(kb: nat, u: Unit)
    requires u == UnitFor(kb)
    ensures u != TB ==> kb as real / Scale(u) as real < 1024.0
  {
    if u != TB {
      var p := Scale(u) as real;
      assert kb < 1024 * Scale(u);
      assert kb as real < 1024.0 * p;
      DivBelow(kb as real, p, 1024.0);
    }
  }

  lemma AtLeastOneUnit(kb: nat, u: Unit)
    requires u == UnitFor(kb)
    ensures u != KB ==> kb as real / Scale(u) as real >= 1.0
  {
    if u != KB {
      var p := Scale(u) as real;
      assert kb >= Scale(u);
      DivAtLeast(kb as real, p, 1.0);
    }
  }

  lemma DivBelow(x: real, p: real, bound: real)
    requires p > 0.0 && x < bound * p
    ensures x / p < bound
  {
    assert x / p * p == x;
  }

  lemma DivAtLeast(x: real, p: real, bound: real)
    requires p > 0.0 && x >= bound * p
    ensures x / p >= bound
  {
    assert x / p * p == x;
  }

  /**
   * `format_size` itself: try KB, MB and GB in turn, returning as soon as
   * the number is below 1024 and dividing it by 1024 otherwise; what is
   * left after GB is shown in TB.
   */
  method FormatSize(kb: nat) returns (s: Size)
    ensures s == SizeOf(kb)
  {
    var x: real := kb as real;
    var i := 0;
    while i < |LoopUnits|
      invariant 0 <= i <= |LoopUnits|
      invariant x == kb as real / Pow1024(i) as real
      invariant i == 0 || kb >= Pow1024(i)
    {
      var unit := LoopUnits[i];
      assert Scale(unit) == Pow1024(i);
      if x < 1024.0 {
        assert kb < Pow1024(i + 1) by {
          MulBelow(x, Pow1024(i) as real, kb as real);
        }
        return Size(x, unit);
      }
      assert kb >= Pow1024(i + 1) by {
        MulAtLeast(x, Pow1024(i) as real, kb as real);
      }
      x := x / 1024.0;
      assert x == kb as real / Pow1024(i + 1) as real;
      i := i + 1;
    }
    assert Scale(TB) == Pow1024(i);
    return Size(x, TB);
  }

  lemma MulBelow(x: real, p: real, y: real)
    requires p > 0.0 && x == y / p && x < 1024.0
    ensures y < 1024.0 * p
  {
    assert y == x * p;
  }

  lemma MulAtLeast(x: real, p: real, y: real)
    requires p > 0.0 && x == y / p && x >= 1024.0
    ensures y >= 1024.0 * p
  {
    assert y == x * p;
  }

  /**
   * Any number-and-unit pair that shows `kb` within the bounds above is
   * the one `format_size` gives: the unit and the number are determined.
   */
  lemma SizeOfUnique(kb: nat, s: Size)
    requires s.magnitude * Scale(s.unit) as real == kb as real
    requires s.unit != TB ==> s.magnitude < 1024.0
    requires s.unit != KB ==> s.magnitude >= 1.0
    ensures s == SizeOf(kb)
  {
    var p := Scale(s.unit) as real;
    if s.unit != TB {
      assert kb as real < 1024.0 * p;
    }
    if s.unit != KB {
      assert kb as real >= p;
    }
    assert s.unit == UnitFor(kb);
    assert s.magnitude == kb as real / p;
  }

  /** A larger size never gets a smaller unit. */
  lemma UnitMonotone(a: nat, b: nat)
    requires a <= b
    ensures Rank(UnitFor(a)) <= Rank(UnitFor(b))
  {
  }

  /** Boundary cases: 0 KB and 1023 KB stay in KB, 1024 KB is exactly 1 MB, 1024 MB exactly 1 GB, 1024 GB exactly 1 TB. */
  lemma Boundaries()
    ensures SizeOf(0) == Size(0.0, KB)
    ensures SizeOf(1023) == Size(1023.0, KB)
    ensures SizeOf(1024) == Size(1.0, MB)
    ensures SizeOf(1048576) == Size(1.0, GB)
    ensures SizeOf(1073741824) == Size(1.0, TB)
  {
  }
}
