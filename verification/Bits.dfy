/** Unsigned machine words as natural numbers, read one bit at a time. */
module Bits {

  const TWO_32: nat := 0x1_0000_0000
  const TWO_64: nat := 0x1_0000_0000_0000_0000

  /** Bit `j` of `w`. */
  predicate Bit(w: nat, j: nat)
    decreases j
  {
    if j == 0 then w % 2 == 1 else Bit(w / 2, j - 1)
  }

  /** `w | (1 << j)`. */
  function SetBit(w: nat, j: nat): nat
    decreases j
  {
    if j == 0 then w - w % 2 + 1 else 2 * SetBit(w / 2, j - 1) + w % 2
  }

  function Pow2(n: nat): nat {
    if n == 0 then 1 else 2 * Pow2(n - 1)
  }

  /** `SetBit` is the bitwise or it stands for. */
  lemma {:induction false} SetBitIsOr(w: nat, j: nat, k: nat)
    ensures Bit(SetBit(w, j), k) <==> k == j || Bit(w, k)
    decreases j
  {
    if j == 0 {
      assert SetBit(w, j) / 2 == w / 2;
    } else {
      assert SetBit(w, j) / 2 == SetBit(w / 2, j - 1);
      assert SetBit(w, j) % 2 == w % 2;
      if k > 0 {
        SetBitIsOr(w / 2, j - 1, k - 1);
      }
    }
  }

  /** The scan's test `(w | (1 << j)) == w` reads bit `j`. */
  lemma {:induction false} OrTestReadsBit(w: nat, j: nat)
    ensures SetBit(w, j) == w <==> Bit(w, j)
    decreases j
  {
    if j > 0 {
      OrTestReadsBit(w / 2, j - 1);
    }
  }

  lemma {:induction false} SetBitFits(w: nat, j: nat, n: nat)
    requires j < n && w < Pow2(n)
    ensures SetBit(w, j) < Pow2(n)
    decreases n
  {
    var half := Pow2(n - 1);
    assert Pow2(n) == 2 * half;
    assert w / 2 < half;
    if j == 0 {
      assert SetBit(w, j) == 2 * (w / 2) + 1;
    } else {
      SetBitFits(w / 2, j - 1, n - 1);
      assert SetBit(w / 2, j - 1) < half;
    }
  }

  ghost predicate LowBitsSet(w: nat, n: nat) {
    forall j: nat | j < n :: Bit(w, j)
  }

  /** A word of `n` bits has all of them set exactly when it is the all-ones word. */
  lemma {:induction false} AllOnes(w: nat, n: nat)
    requires w < Pow2(n)
    ensures LowBitsSet(w, n) <==> w == Pow2(n) - 1
    decreases n
  {
    if n > 0 {
      AllOnes(w / 2, n - 1);
      if LowBitsSet(w, n) {
        forall j: nat | j < n - 1
          ensures Bit(w / 2, j)
        {
          assert Bit(w, j + 1);
        }
        assert Bit(w, 0);
      }
      if w == Pow2(n) - 1 {
        assert w / 2 == Pow2(n - 1) - 1;
        forall j: nat | j < n
          ensures Bit(w, j)
        {
          assert j == 0 || Bit(w / 2, j - 1);
        }
      }
    }
  }

  lemma Pow2Of32()
    ensures Pow2(32) == TWO_32
  {
    assert Pow2(8) == 256;
    assert Pow2(16) == 65536;
    assert Pow2(24) == 0x100_0000;
  }
}
