/** The choice of a unit prefix for a value that is already counted in some multiple. */
module Prefixes {
  import opened Bytes

  const PREFIXES := 7

  /** The weight of the prefix of a rank: powers of 1000 or of 1024. */
  function Divisor(si: bool, rank: nat): (d: nat)
    ensures d > 0
  {
    if rank == 0 then 1 else (if si then 1000 else 1024) * Divisor(si, rank - 1)
  }

  /** The divisors of the two tables. */
  lemma DivisorTable()
    ensures Divisor(true, 0) == Divisor(false, 0) == 1
    ensures Divisor(true, 1) == 1_000 && Divisor(false, 1) == 0x400
    ensures Divisor(true, 2) == 1_000_000 && Divisor(false, 2) == 0x10_0000
    ensures Divisor(true, 3) == 1_000_000_000 && Divisor(false, 3) == 0x4000_0000
    ensures Divisor(true, 4) == 1_000_000_000_000 && Divisor(false, 4) == 0x100_0000_0000
    ensures Divisor(true, 5) == 1_000_000_000_000_000 && Divisor(false, 5) == 0x4_0000_0000_0000
    ensures Divisor(true, 6) == 1_000_000_000_000_000_000 && Divisor(false, 6) == 0x1000_0000_0000_0000
  {
    assert Divisor(true, 2) == 1_000_000 && Divisor(false, 2) == 0x10_0000;
    assert Divisor(true, 4) == 1_000_000_000_000 && Divisor(false, 4) == 0x100_0000_0000;
  }

  /** Dividing by divisor under the prefix of rank prefix means as much as the value under that of rank multiplier. */
  predicate SameQuantity(si: bool, value: nat, multiplier: nat, divisor: nat, prefix: nat) {
    value * Divisor(si, multiplier) * divisor == value * Divisor(si, prefix)
  }

  function Quotient(value: nat, d: nat): nat
    requires d > 0
  {
    value / d
  }

  lemma {:induction false} DivisorsMultiply(si: bool, a: nat, b: nat)
    ensures Divisor(si, a + b) == Divisor(si, a) * Divisor(si, b)
  {
    if a > 0 {
      DivisorsMultiply(si, a - 1, b);
      var base := if si then 1000 else 1024;
      assert Divisor(si, a) == base * Divisor(si, a - 1) && Divisor(si, a + b) == base * Divisor(si, a - 1 + b);
      hide Divisor;
      SameProduct(base, Divisor(si, a - 1), Divisor(si, b));
    }
  }

  lemma {:induction false} DivisorsGrow(si: bool, a: nat, b: nat)
    requires a < b
    ensures Divisor(si, a) < Divisor(si, b)
    decreases b
  {
    if a < b - 1 {
      DivisorsGrow(si, a, b - 1);
    }
  }

  class PrefixUnit {
    var init: bool
    var prefix: nat     // rank of the chosen prefix
    var divisor: nat

    constructor ()
      ensures !init
    {
      init, prefix, divisor := false, 0, 1;
    }

    /**
     Chooses a prefix for a value counted in the prefix of rank multiplier. The divisor is
     the largest one not above the value whose prefix still exists, or 1, and dividing by it
     under the new prefix stands for the same quantity.
     */
    method FindBestPrefix(value: u64, multiplier: nat, si: bool)
      requires multiplier < PREFIXES
      modifies this
      ensures init && multiplier <= prefix < PREFIXES
      ensures divisor == Divisor(si, prefix - multiplier)
      ensures divisor == 1 || divisor <= value
      ensures forall k :: prefix - multiplier < k < PREFIXES - multiplier ==> Divisor(si, k) > value
      ensures SameQuantity(si, value, multiplier, divisor, prefix)
    {
      var prefixIndex := 0;
      while prefixIndex < PREFIXES && prefixIndex != multiplier
        invariant 0 <= prefixIndex <= multiplier
      {
        prefixIndex := prefixIndex + 1;
      }
      init := true;
      prefix := prefixIndex;
      divisor := Divisor(si, 0);
      assert divisor == 1;
      hide Divisor, Quotient, SameQuantity;
      prefixIndex := prefixIndex + 1;
      var divisorIndex := 1;
      while prefixIndex < PREFIXES && divisorIndex < PREFIXES && Quotient(value, Divisor(si, divisorIndex)) > 0
        invariant init && 1 <= divisorIndex && prefixIndex == multiplier + divisorIndex <= PREFIXES
        invariant prefix == prefixIndex - 1 && divisor == Divisor(si, divisorIndex - 1)
        invariant if divisorIndex == 1 then divisor == 1 else divisor <= value
        decreases PREFIXES - prefixIndex
      {
        QuotientPositive(value, Divisor(si, divisorIndex));
        prefix := prefixIndex;
        divisor := Divisor(si, divisorIndex);
        prefixIndex, divisorIndex := prefixIndex + 1, divisorIndex + 1;
      }
      ChoiceFacts(value, multiplier, si, divisorIndex - 1);
    }
  }

  /** What it means that the next divisor is too large or has no prefix. */
  lemma ChoiceFacts(value: u64, multiplier: nat, si: bool, d: nat)
    requires multiplier + d < PREFIXES
    requires d + 1 < PREFIXES - multiplier ==> Quotient(value, Divisor(si, d + 1)) <= 0
    ensures forall k :: d < k < PREFIXES - multiplier ==> Divisor(si, k) > value
    ensures SameQuantity(si, value, multiplier, Divisor(si, d), multiplier + d)
  {
    hide Divisor;
    if d + 1 < PREFIXES - multiplier {
      QuotientPositive(value, Divisor(si, d + 1));
      forall k | d < k < PREFIXES - multiplier
        ensures Divisor(si, k) > value
      {
        if d + 1 < k {
          DivisorsGrow(si, d + 1, k);
        }
      }
    }
    DivisorsMultiply(si, multiplier, d);
    SameProduct(value, Divisor(si, multiplier), Divisor(si, d));
  }

  lemma QuotientPositive(value: nat, d: nat)
    requires d > 0
    ensures Quotient(value, d) > 0 <==> value >= d
  {
  }

  lemma SameProduct(v: nat, a: nat, b: nat)
    ensures v * a * b == v * (a * b)
  {
  }
}
