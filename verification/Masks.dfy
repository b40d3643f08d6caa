/** The word of marks a record decoder keeps: one bit for each field it has seen. */
module Masks {
  function Bit(mask: nat, i: nat): bool {
    if i == 0 then mask % 2 == 1 else Bit(mask / 2, i - 1)
  }

  function Pow2(i: nat): (r: nat)
    ensures r > 0
  {
    if i == 0 then 1 else 2 * Pow2(i - 1)
  }

  function And(a: nat, b: nat): nat
    decreases b
  {
    if b == 0 then 0 else 2 * And(a / 2, b / 2) + if a % 2 == 1 && b % 2 == 1 then 1 else 0
  }

  /** Setting a bit that is clear is an addition, and changes no other bit. */
  lemma {:induction false} SetBit(mask: nat, i: nat, j: nat)
    requires !Bit(mask, i)
    ensures Bit(mask + Pow2(i), j) <==> Bit(mask, j) || i == j
    decreases i
  {
    if i > 0 {
      assert (mask + Pow2(i)) / 2 == mask / 2 + Pow2(i - 1);
      if j > 0 {
        SetBit(mask / 2, i - 1, j - 1);
      }
    } else {
      assert (mask + 1) / 2 == mask / 2;
    }
  }

  ghost predicate Within(want: nat, mask: nat) {
    forall i: nat :: Bit(want, i) ==> Bit(mask, i)
  }

  /** The source's test for completeness: every bit of want is set in mask. */
  lemma {:induction false} Covers(mask: nat, want: nat)
    ensures And(mask, want) == want <==> Within(want, mask)
    decreases want
  {
    if want == 0 {
      forall i: nat
        ensures !Bit(0, i)
      {
        NoBits(i);
      }
    } else {
      Covers(mask / 2, want / 2);
      AndBound(mask / 2, want / 2);
      WithinHalves(want, mask);
    }
  }

  lemma WithinHalves(want: nat, mask: nat)
    ensures Within(want, mask) <==> Within(want / 2, mask / 2) && (want % 2 == 1 ==> mask % 2 == 1)
  {
    if Within(want, mask) {
      assert Bit(want, 0) ==> Bit(mask, 0);
      forall i: nat | Bit(want / 2, i)
        ensures Bit(mask / 2, i)
      {
        assert Bit(want, i + 1);
      }
    }
    if Within(want / 2, mask / 2) && (want % 2 == 1 ==> mask % 2 == 1) {
      forall i: nat | Bit(want, i)
        ensures Bit(mask, i)
      {
        if i > 0 {
          assert Bit(want / 2, i - 1);
        }
      }
    }
  }

  lemma {:induction false} AndBound(a: nat, b: nat)
    ensures And(a, b) <= b
    decreases b
  {
    if b > 0 {
      AndBound(a / 2, b / 2);
    }
  }

  lemma {:induction false} NoBits(i: nat)
    ensures !Bit(0, i)
  {
    if i > 0 {
      NoBits(i - 1);
    }
  }

  /** A mask of the first n bits fits n bits: with at most 32 fields the word never overflows. */
  lemma {:induction false} FitsWord(mask: nat, n: nat)
    requires forall i: nat :: i >= n ==> !Bit(mask, i)
    ensures mask < Pow2(n)
    decreases n
  {
    if n == 0 {
      AllClear(mask);
    } else {
      forall i: nat | i >= n - 1
        ensures !Bit(mask / 2, i)
      {
        assert !Bit(mask, i + 1);
      }
      FitsWord(mask / 2, n - 1);
    }
  }

  lemma {:induction false} AllClear(mask: nat)
    requires forall i: nat :: !Bit(mask, i)
    ensures mask == 0
    decreases mask
  {
    assert !Bit(mask, 0);
    if mask > 0 {
      forall i: nat
        ensures !Bit(mask / 2, i)
      {
        assert !Bit(mask, i + 1);
      }
      AllClear(mask / 2);
    }
  }

  lemma {:induction false} PowGrows(j: nat, k: nat)
    requires j <= k
    ensures Pow2(j) <= Pow2(k)
    decreases k
  {
    if j < k {
      PowGrows(j, k - 1);
    }
  }

  lemma Pow32()
    ensures Pow2(32) == 0x1_0000_0000
  {
    assert Pow2(8) == 0x100;
    assert Pow2(16) == 0x1_0000;
    assert Pow2(24) == 0x100_0000;
  }
}
