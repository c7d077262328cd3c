/** Powers of two, alignment and the bit test the buddy allocator descends by. */
module Arith {

  function Pow2(n: nat): (r: nat)
    ensures r > 0
  {
    if n == 0 then 1 else 2 * Pow2(n - 1)
  }

  lemma {:induction false} Pow2Add(m: nat, n: nat)
    ensures Pow2(m + n) == Pow2(m) * Pow2(n)
  {
    if m > 0 {
      Pow2Add(m - 1, n);
      assert Pow2(m + n) == 2 * Pow2(m + n - 1);
    }
  }

  lemma {:induction false} Pow2Mono(m: nat, n: nat)
    requires m <= n
    ensures Pow2(m) <= Pow2(n)
    ensures m < n ==> 2 * Pow2(m) <= Pow2(n)
    decreases n
  {
    if m < n {
      Pow2Mono(m, n - 1);
    }
  }

  predicate Aligned(a: int, c: nat) {
    a % Pow2(c) == 0
  }

  lemma MulAtLeast(d: int, k: int)
    requires d > 0
    ensures k >= 1 ==> d * k >= d
    ensures k <= -1 ==> d * k <= -d
  {
    if k >= 1 {
      assert d * k == d + d * (k - 1);
      assert d * (k - 1) >= 0;
    } else if k <= -1 {
      assert d * k == -d + d * (k + 1);
      assert d * (k + 1) <= 0;
    }
  }

  lemma DivModUnique(a: int, d: int, q: int, r: int)
    requires d > 0 && 0 <= r < d && a == d * q + r
    ensures a / d == q && a % d == r
  {
    var q', r' := a / d, a % d;
    assert d * (q - q') == d * q - d * q' == r' - r;
    MulAtLeast(d, q - q');
  }

  lemma AlignedQuotient(a: int, c: nat) returns (q: int)
    requires Aligned(a, c)
    ensures a == Pow2(c) * q
  {
    q := a / Pow2(c);
  }

  lemma AlignedMul(q: int, c: nat)
    ensures Aligned(Pow2(c) * q, c)
  {
    DivModUnique(Pow2(c) * q, Pow2(c), q, 0);
  }

  lemma AlignedDown(a: int, c: nat, d: nat)
    requires Aligned(a, c) && d <= c
    ensures Aligned(a, d)
  {
    var q := AlignedQuotient(a, c);
    Pow2Add(d, c - d);
    assert a == Pow2(d) * (Pow2(c - d) * q);
    AlignedMul(Pow2(c - d) * q, d);
  }

  lemma AlignedSum(a: int, b: int, c: nat)
    requires Aligned(a, c) && Aligned(b, c)
    ensures Aligned(a + b, c) && Aligned(a - b, c)
  {
    var p := AlignedQuotient(a, c);
    var q := AlignedQuotient(b, c);
    assert a + b == Pow2(c) * (p + q);
    assert a - b == Pow2(c) * (p - q);
    AlignedMul(p + q, c);
    AlignedMul(p - q, c);
  }

  lemma AlignedHalf(a: int, c: nat)
    requires c > 0 && Aligned(a, c)
    ensures Aligned(a, c - 1) && Aligned(a + Pow2(c - 1), c - 1)
  {
    AlignedDown(a, c, c - 1);
    assert Pow2(c - 1) == Pow2(c - 1) * 1;
    AlignedMul(1, c - 1);
    AlignedSum(a, Pow2(c - 1), c - 1);
  }

  /** Two aligned values that are less than one block apart are equal. */
  lemma AlignedClose(a: int, b: int, c: nat)
    requires Aligned(a, c) && Aligned(b, c)
    requires a - Pow2(c) < b < a + Pow2(c)
    ensures a == b
  {
    AlignedSum(a, b, c);
    var q := AlignedQuotient(a - b, c);
    MulAtLeast(Pow2(c), q);
  }

  /** Bit c of a: the test page_lookup uses to choose a half. */
  predicate Bit(a: nat, c: nat) {
    (a / Pow2(c)) % 2 == 1
  }

  /** Inside an aligned block, bit c-1 tells the upper half from the lower one. */
  lemma BitIsUpperHalf(base: nat, c: nat, a: nat)
    requires c > 0 && Aligned(base, c)
    requires base <= a < base + Pow2(c)
    ensures Bit(a, c - 1) <==> a >= base + Pow2(c - 1)
  {
    var q := AlignedQuotient(base, c);
    var h := Pow2(c - 1);
    if a >= base + h {
      assert a == h * (2 * q + 1) + (a - base - h);
      DivModUnique(a, h, 2 * q + 1, a - base - h);
    } else {
      assert a == h * (2 * q) + (a - base);
      DivModUnique(a, h, 2 * q, a - base);
    }
  }

  /** An aligned block that starts in a half of a bigger aligned block stays in that half. */
  lemma BlockInHalf(base: nat, c: nat, a: nat, d: nat)
    requires d < c && Aligned(base, c) && Aligned(a, d)
    requires base <= a && a + Pow2(d) <= base + Pow2(c)
    ensures a < base + Pow2(c - 1) ==> a + Pow2(d) <= base + Pow2(c - 1)
    ensures Bit(a, c - 1) <==> a >= base + Pow2(c - 1)
  {
    BitIsUpperHalf(base, c, a);
    AlignedHalf(base, c);
    AlignedDown(base + Pow2(c - 1), c - 1, d);
    var m := base + Pow2(c - 1);
    if a < m < a + Pow2(d) {
      AlignedClose(a, m, d);
    }
  }
}
