/** Powers of two, bit length and bitwise or on natural numbers, and the few
    division facts the bucket arithmetic needs. */
module Bits {
  function Pow2(n: nat): (r: nat)
    ensures r >= 1
  {
    if n == 0 then 1 else 2 * Pow2(n - 1)
  }

  // Number of bits needed to write v: 64 - clz(v) for a positive 64-bit v.
  function BitLength(v: nat): nat {
    if v == 0 then 0 else 1 + BitLength(v / 2)
  }

  function BitOr(a: nat, b: nat): (r: nat)
    ensures r >= a && r >= b
    decreases a + b
  {
    if a == 0 then b
    else if b == 0 then a
    else 2 * BitOr(a / 2, b / 2) + (if a % 2 == 1 || b % 2 == 1 then 1 else 0)
  }

  function ShiftLeft(v: nat, k: nat): nat {
    v * Pow2(k)
  }

  function ShiftRight(v: nat, k: nat): nat {
    QuotientBounds(v, Pow2(k), 0);
    v / Pow2(k)
  }

  function FloorLog2(v: nat): nat
    requires v >= 1
  {
    BitLength(v) - 1
  }

  function CeilLog2(v: nat): nat
    requires v >= 1
  {
    BitLength(v - 1)
  }

  lemma {:induction false} BitLengthBelow(v: nat, n: nat)
    ensures BitLength(v) <= n <==> v < Pow2(n)
  {
    if v != 0 && n != 0 {
      BitLengthBelow(v / 2, n - 1);
    }
  }

  lemma {:induction false} BitLengthOfOr(a: nat, b: nat)
    ensures BitLength(BitOr(a, b)) == if BitLength(a) >= BitLength(b) then BitLength(a) else BitLength(b)
    decreases a + b
  {
    if a != 0 && b != 0 {
      BitLengthOfOr(a / 2, b / 2);
      assert BitOr(a, b) / 2 == BitOr(a / 2, b / 2);
    }
  }

  lemma {:induction false} Pow2Sum(a: nat, b: nat)
    ensures Pow2(a + b) == Pow2(a) * Pow2(b)
  {
    if a != 0 {
      Pow2Sum(a - 1, b);
      assert a + b - 1 == a - 1 + b;
      var p, q := Pow2(a - 1), Pow2(b);
      assert Pow2(a + b) == 2 * (p * q);
    }
  }

  lemma {:induction false} Pow2Increases(a: nat, b: nat)
    requires a <= b
    ensures Pow2(a) <= Pow2(b)
    decreases b
  {
    if a < b {
      Pow2Increases(a, b - 1);
    }
  }

  lemma {:induction false} Pow2Ordered(a: nat, b: nat)
    ensures Pow2(a) < Pow2(b) <==> a < b
  {
    if a < b {
      Pow2Increases(a + 1, b);
    } else {
      Pow2Increases(b, a);
    }
  }

  lemma MulMonotone(a: int, b: int, d: int)
    requires a <= b && d >= 0
    ensures a * d <= b * d && d * a <= d * b
  {
    assert (b - a) * d >= 0;
  }

  lemma QuotientUnique(v: int, d: int, q: int)
    requires d > 0
    requires q * d <= v < (q + 1) * d
    ensures v / d == q
  {
    var r := v / d;
    assert r * d <= v < (r + 1) * d;
    if r < q {
      MulMonotone(r + 1, q, d);
    }
    if r > q {
      MulMonotone(q + 1, r, d);
    }
  }

  lemma QuotientBounds(v: int, d: int, a: int)
    requires d > 0
    ensures v / d * d <= v < v / d * d + d
    ensures v < a * d <==> v / d < a
  {
    var r := v / d;
    assert v == r * d + v % d;
    if r < a {
      MulMonotone(r + 1, a, d);
      assert (r + 1) * d == r * d + d;
    } else {
      MulMonotone(a, r, d);
    }
  }
}
