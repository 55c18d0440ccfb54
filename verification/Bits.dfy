/** Unsigned bit operations on naturals, as far as power-of-two masks and shifts need them. */
module Bits {

  function Pow2(k: nat): (r: nat)
    ensures r > 0
  {
    if k == 0 then 1 else 2 * Pow2(k - 1)
  }

  lemma DoublePow2(k: nat)
    ensures Pow2(k + 1) == 2 * Pow2(k)
  {
  }

  /** Bitwise and. */
  function And(x: nat, y: nat): (r: nat) {
    if x == 0 || y == 0 then 0
    else 2 * And(x / 2, y / 2) + (if x % 2 == 1 && y % 2 == 1 then 1 else 0)
  }

  /** Right shift. */
  function Shr(x: nat, k: nat): (r: nat) {
    if k == 0 then x else Shr(x / 2, k - 1)
  }

  lemma MulLe(a: nat, b: nat, n: nat)
    requires a <= b
    ensures a * n <= b * n
  {
    assert b * n == a * n + (b - a) * n;
  }

  /** A quotient and a remainder that fit are the ones of Euclidean division. */
  lemma DivModUnique(x: nat, d: nat, q: nat, r: nat)
    requires r < d && x == q * d + r
    ensures x / d == q && x % d == r
  {
    var q', r' := x / d, x % d;
    assert x == q' * d + r';
    if q' < q { MulLe(q' + 1, q, d); }
    if q < q' { MulLe(q + 1, q', d); }
  }

  lemma {:induction false} AndMask(x: nat, k: nat)
    ensures And(x, Pow2(k) - 1) == x % Pow2(k)
  {
    if k > 0 {
      var d := Pow2(k - 1);
      AndMask(x / 2, k - 1);
      var h := x / 2;
      assert (Pow2(k) - 1) / 2 == d - 1;
      HalfDivMod(x, d);
    }
  }

  lemma HalfDivMod(x: nat, d: nat)
    requires d > 0
    ensures x % (2 * d) == 2 * ((x / 2) % d) + x % 2
    ensures x / (2 * d) == (x / 2) / d
  {
    var h := x / 2;
    assert h == (h / d) * d + h % d;
    assert x == (h / d) * (2 * d) + (2 * (h % d) + x % 2);
    DivModUnique(x, 2 * d, h / d, 2 * (h % d) + x % 2);
  }

  lemma {:induction false} ShrDiv(x: nat, k: nat)
    ensures Shr(x, k) == x / Pow2(k)
  {
    if k > 0 {
      ShrDiv(x / 2, k - 1);
      HalfDivMod(x, Pow2(k - 1));
    }
  }

  /** Shifting and masking by a power of two divides by it. */
  lemma SplitAt(x: nat, k: nat)
    ensures And(x, Pow2(k) - 1) < Pow2(k)
    ensures x == Shr(x, k) * Pow2(k) + And(x, Pow2(k) - 1)
    ensures Shr(x, k) == x / Pow2(k)
  {
    hide And, Shr, Pow2;
    AndMask(x, k);
    ShrDiv(x, k);
    var d := Pow2(k);
    assert x == (x / d) * d + x % d;
  }
}
