/** The unit selection of `hsize`: how many times the byte count is divided
    by 1024 before it is rendered, and so which suffix it gets. */
module HumanSize {

  const Suffixes: seq<string> := ["B", "KB", "MB", "GB", "TB", "PB"]

  /** The largest unit index: PB. */
  const MaxUnit: nat := 5

  function Pow1024(k: nat): (p: nat)
    ensures p >= 1
  {
    if k == 0 then 1 else 1024 * Pow1024(k - 1)
  }

  /** `i` is the unit for `nbytes`: the largest k with nbytes >= 1024^k,
      capped at PB. */
  ghost predicate IsUnitFor(nbytes: nat, i: nat) {
    && i <= MaxUnit
    && (i == 0 || Pow1024(i) <= nbytes)
    && (i == MaxUnit || nbytes < Pow1024(i + 1))
  }

  /** `x` is the byte count expressed in unit `i`. */
  ghost predicate InUnit(x: real, i: nat, nbytes: nat) {
    x * (Pow1024(i) as real) == nbytes as real
  }

  /** The loop of `hsize`: divide by 1024 while the value is at least 1024
      and a larger suffix exists. Returns the unit index and the value left
      for rendering, which is `nbytes` in that unit. The division is exact:
      dividing by a power of two loses nothing. */
  method HumanUnit(nbytes: nat) returns (i: nat, scaled: real)
    ensures IsUnitFor(nbytes, i) && i < |Suffixes|
    ensures scaled * (Pow1024(i) as real) == nbytes as real
  {
    var x: real := nbytes as real;
    i := 0;
    while x >= 1024.0 && i < |Suffixes| - 1
      invariant i <= MaxUnit
      invariant InUnit(x, i, nbytes)
      invariant i == 0 || Pow1024(i) <= nbytes
    {
      DivideStep(x, i, nbytes);
      x := x / 1024.0;
      i := i + 1;
    }
    if i < MaxUnit {
      BelowNextUnit(x, i, nbytes);
    }
    scaled := x;
  }

  /** One pass of the loop keeps `x` equal to the byte count in the current
      unit, and it only runs when the count reaches the next unit. */
  lemma DivideStep(x: real, i: nat, nbytes: nat)
    requires InUnit(x, i, nbytes) && x >= 1024.0
    ensures InUnit(x / 1024.0, i + 1, nbytes)
    ensures Pow1024(i + 1) <= nbytes
  {
    var p := Pow1024(i) as real;
    assert Pow1024(i + 1) as real == 1024.0 * p;
    DivideReal(x, p, nbytes as real);
  }

  lemma DivideReal(x: real, p: real, n: real)
    requires p > 0.0 && x * p == n && x >= 1024.0
    ensures (x / 1024.0) * (1024.0 * p) == n
    ensures n >= 1024.0 * p
  {
  }

  /** The loop stopped below 1024: the count is below the next unit. */
  lemma BelowNextUnit(x: real, i: nat, nbytes: nat)
    requires InUnit(x, i, nbytes) && x < 1024.0
    ensures nbytes < Pow1024(i + 1)
  {
    var p := Pow1024(i) as real;
    assert Pow1024(i + 1) as real == 1024.0 * p;
    BelowReal(x, p, nbytes as real);
  }

  lemma BelowReal(x: real, p: real, n: real)
    requires p > 0.0 && x * p == n && x < 1024.0
    ensures n < 1024.0 * p
  {
  }

  lemma {:induction false} Pow1024Grows(a: nat, b: nat)
    requires a < b
    ensures Pow1024(a + 1) <= Pow1024(b)
    decreases b
  {
    if a + 1 < b {
      Pow1024Grows(a, b - 1);
    }
  }

  /** The characterisation pins down exactly one unit per byte count. */
  lemma UnitIsUnique(nbytes: nat, i: nat, j: nat)
    requires IsUnitFor(nbytes, i) && IsUnitFor(nbytes, j)
    ensures i == j
  {
    if i < j {
      Pow1024Grows(i, j);
    } else if j < i {
      Pow1024Grows(j, i);
    }
  }

  /** 0 bytes is shown in B, 1536 in KB, 1073741824 in GB, and 1024^7 is
      still shown in PB, the largest suffix. */
  lemma UnitExamples(i: nat)
    ensures IsUnitFor(0, i) ==> Suffixes[i] == "B"
    ensures IsUnitFor(1536, i) ==> Suffixes[i] == "KB"
    ensures IsUnitFor(1073741824, i) ==> Suffixes[i] == "GB"
    ensures IsUnitFor(Pow1024(7), i) ==> Suffixes[i] == "PB"
  {
    if IsUnitFor(0, i) {
      UnitIsUnique(0, i, 0);
    }
    if IsUnitFor(1536, i) {
      UnitIsUnique(1536, i, 1);
    }
    if IsUnitFor(1073741824, i) {
      assert Pow1024(3) == 1073741824;
      UnitIsUnique(1073741824, i, 3);
    }
    if IsUnitFor(Pow1024(7), i) {
      Pow1024Grows(5, 7);
      UnitIsUnique(Pow1024(7), i, 5);
    }
  }
}
