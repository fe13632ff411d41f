/** Division facts for block arithmetic. */
module Arith {

  lemma MulMono(b: nat, x: nat, y: nat)
    requires x <= y
    ensures b * x <= b * y
  {
    assert b * (y - x) >= 0;
  }

  lemma DivUnique(x: nat, b: nat, q: nat, r: nat)
    requires r < b && x == b * q + r
    ensures x / b == q && x % b == r
  {
    var q', r' := x / b, x % b;
    assert x == b * q' + r';
    if q' < q {
      MulMono(b, q' + 1, q);
    }
    if q < q' {
      MulMono(b, q + 1, q');
    }
  }

  lemma DivModEq(x: nat, b: nat)
    requires b > 0
    ensures x == b * (x / b) + x % b && x % b < b
  {
  }

  /** Moving by whole blocks. */
  lemma DivBlocks(x: nat, b: nat, k: nat)
    requires b > 0
    ensures (x + b * k) / b == x / b + k && (x + b * k) % b == x % b
  {
    DivModEq(x, b);
    assert b * (x / b + k) == b * (x / b) + b * k;
    DivUnique(x + b * k, b, x / b + k, x % b);
  }

  /** `b * n` by repeated addition: where block `n` begins. */
  function Times(b: nat, n: nat): nat {
    if n == 0 then 0 else Times(b, n - 1) + b
  }

  lemma {:induction false} TimesIsProduct(b: nat, n: nat)
    ensures Times(b, n) == b * n
  {
    if n > 0 {
      TimesIsProduct(b, n - 1);
    }
  }

  lemma {:induction false} TimesAdd(b: nat, m: nat, n: nat)
    ensures Times(b, m + n) == Times(b, m) + Times(b, n)
  {
    if n > 0 {
      TimesAdd(b, m, n - 1);
    }
  }

  lemma TimesMono(b: nat, m: nat, n: nat)
    requires m <= n
    ensures Times(b, m) <= Times(b, n)
  {
    TimesAdd(b, m, n - m);
  }

  /** A place before the start of block `n` is in an earlier block. */
  lemma TimesLess(b: nat, m: nat, n: nat)
    requires Times(b, m) < Times(b, n)
    ensures m < n
  {
    if n <= m {
      TimesMono(b, n, m);
    }
  }

  /** `pos / b` by repeated subtraction. */
  function Quot(b: nat, pos: nat): nat
    requires b > 0
    decreases pos
  {
    if pos < b then 0 else 1 + Quot(b, pos - b)
  }

  /** `pos % b` likewise. */
  function Rest(b: nat, pos: nat): nat
    requires b > 0
    decreases pos
  {
    if pos < b then pos else Rest(b, pos - b)
  }

  lemma {:induction false} PlaceUnique(b: nat, i: nat, r: nat)
    requires r < b
    ensures Quot(b, Times(b, i) + r) == i && Rest(b, Times(b, i) + r) == r
  {
    if i > 0 {
      PlaceUnique(b, i - 1, r);
    }
  }

  /** Every byte has a place. */
  lemma PlaceOf(pos: nat, b: nat) returns (i: nat, r: nat)
    requires b > 0
    ensures i == pos / b && r == pos % b && pos == Times(b, i) + r && r < b && Quot(b, pos) == i && Rest(b, pos) == r
  {
    i, r := pos / b, pos % b;
    TimesIsProduct(b, i);
    DivModEq(pos, b);
    PlaceUnique(b, i, r);
  }
}
