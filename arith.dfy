/**
 * Natural-number facts shared by the rest of the model: powers, floor
 * logarithms, bit lengths and Euclidean remainders.
 */
module Arith {

  /** b raised to the e-th power. */
  function Pow(b: nat, e: nat): (r: nat)
    ensures 1 <= b ==> 1 <= r
  {
    if e == 0 then 1 else b * Pow(b, e - 1)
  }

  lemma MulDistributes(a: int, b: int, c: int)
    ensures (a + b) * c == a * c + b * c
  {
  }

  lemma MulAssociates(a: int, b: int, c: int)
    ensures a * (b * c) == (a * b) * c
  {
  }

  /** A product of naturals is a natural (Z3 does not see this unaided). */
  lemma MulNonNegative(a: nat, b: nat)
    ensures 0 <= a * b
  {
  }

  lemma MulLe(a: int, b: int, c: nat)
    requires a <= b
    ensures a * c <= b * c
  {
  }

  lemma MulCancelLt(a: int, b: int, m: nat)
    requires a * m < b * m
    ensures a < b
  {
    if b <= a {
      MulLe(b, a, m);
    }
  }

  lemma PowPositive(b: nat, e: nat)
    requires 1 <= b
    ensures 1 <= Pow(b, e)
  {
    if e > 0 {
      PowPositive(b, e - 1);
    }
  }

  lemma {:induction false} PowAdd(b: nat, x: nat, y: nat)
    ensures Pow(b, x + y) == Pow(b, x) * Pow(b, y)
  {
    if x > 0 {
      PowAdd(b, x - 1, y);
      assert Pow(b, x + y) == b * Pow(b, x - 1 + y);
      MulAssociates(b, Pow(b, x - 1), Pow(b, y));
    }
  }

  lemma MulSucc(x: int, y: int)
    requires 0 < y
    ensures x * y == x * (y - 1) + x
  {
  }

  lemma {:induction false} PowMul(b: nat, x: nat, y: nat)
    ensures Pow(b, x * y) == Pow(Pow(b, x), y)
  {
    if y > 0 {
      var k := x * (y - 1);
      PowMul(b, x, y - 1);
      MulSucc(x, y);
      PowAdd(b, k, x);
      PowStep(Pow(b, x), y);
    }
  }

  lemma PowStep(b: nat, e: nat)
    requires 0 < e
    ensures Pow(b, e) == Pow(b, e - 1) * b
  {
  }

  lemma {:induction false} PowMonotone(b: nat, x: nat, y: nat)
    requires 1 <= b && x <= y
    ensures Pow(b, x) <= Pow(b, y)
  {
    if x < y {
      PowMonotone(b, x, y - 1);
      assert Pow(b, y) == b * Pow(b, y - 1);
      MulLe(1, b, Pow(b, y - 1));
    }
  }

  lemma {:induction false} PowStrictlyMonotone(b: nat, x: nat, y: nat)
    requires 2 <= b && x < y
    ensures Pow(b, x) < Pow(b, y)
  {
    PowMonotone(b, x, y - 1);
    var p := Pow(b, y - 1);
    assert Pow(b, y) == b * p;
    MulLe(2, b, p);
  }

  /** An exponent is always smaller than the power it produces. */
  lemma {:induction false} ExponentBelowPow(b: nat, e: nat)
    requires 2 <= b
    ensures e < Pow(b, e)
  {
    if e > 0 {
      ExponentBelowPow(b, e - 1);
      PowPositive(b, e - 1);
      assert Pow(b, e) == b * Pow(b, e - 1);
      MulLe(2, b, Pow(b, e - 1));
    }
  }

  lemma DivShrinks(n: nat, b: nat)
    requires 2 <= b && 1 <= n
    ensures 0 <= n / b < n
  {
  }

  lemma DivMod(n: nat, m: nat)
    requires 0 < m
    ensures n == (n / m) * m + n % m && n % m < m
  {
  }

  /** m * (n / m) <= n < m * (n / m) + m. */
  lemma DivBracket(n: nat, m: nat)
    requires 0 < m
    ensures m * (n / m) <= n < m + m * (n / m)
  {
    DivMod(n, m);
  }

  /** Small powers Dafny does not unfold far enough by itself. */
  lemma SmallPowers()
    ensures Pow(2, 3) == 8 && Pow(2, 4) == 16 && Pow(2, 6) == 64
  {
  }

  /** The largest e with b^e <= n. */
  function FloorLog(b: nat, n: nat): nat
    requires 2 <= b && 1 <= n
    decreases n
  {
    if n < b then 0 else DivShrinks(n, b); 1 + FloorLog(b, n / b)
  }

  /** If p <= n / b < p' then b * p <= n < b * p'. */
  lemma ScaleBracket(b: nat, n: nat, p: nat, p': nat)
    requires 1 <= b && p <= n / b < p'
    ensures b * p <= n < b * p'
  {
    var q, r := n / b, n % b;
    assert n == q * b + r && r < b;
    MulLe(p, q, b);
    MulLe(q + 1, p', b);
    assert (q + 1) * b == q * b + b;
  }

  lemma {:induction false} FloorLogBounds(b: nat, n: nat)
    requires 2 <= b && 1 <= n
    ensures Pow(b, FloorLog(b, n)) <= n < Pow(b, FloorLog(b, n) + 1)
  {
    if n >= b {
      DivShrinks(n, b);
      var q := n / b;
      FloorLogBounds(b, q);
      var e := FloorLog(b, q);
      assert FloorLog(b, n) == e + 1;
      ScaleBracket(b, n, Pow(b, e), Pow(b, e + 1));
      assert Pow(b, e + 1) == b * Pow(b, e);
      assert Pow(b, e + 2) == b * Pow(b, e + 1);
    }
  }

  /** The floor logarithm is the only exponent that brackets n. */
  lemma FloorLogUnique(b: nat, n: nat, e: nat)
    requires 2 <= b && 1 <= n
    requires Pow(b, e) <= n < Pow(b, e + 1)
    ensures FloorLog(b, n) == e
  {
    FloorLogBounds(b, n);
    var f := FloorLog(b, n);
    if f < e {
      PowMonotone(b, f + 1, e);
    } else if e < f {
      PowMonotone(b, e + 1, f);
    }
  }

  /** Number of binary digits of n; 0 for 0, and 1 for 1. */
  function BitLength(n: nat): (r: nat)
    ensures n == 0 <==> r == 0
  {
    if n == 0 then 0 else FloorLog(2, n) + 1
  }

  /** The bit length is the unique h with 2^(h-1) <= n < 2^h. */
  lemma BitLengthBounds(n: nat)
    requires 1 <= n
    ensures Pow(2, BitLength(n) - 1) <= n < Pow(2, BitLength(n))
  {
    FloorLogBounds(2, n);
  }

  lemma BitLengthUnique(n: nat, h: nat)
    requires 1 <= h && Pow(2, h - 1) <= n < Pow(2, h)
    ensures BitLength(n) == h
  {
    PowPositive(2, h - 1);
    FloorLogUnique(2, n, h - 1);
  }

  /** Euclidean division is determined by quotient and remainder. */
  lemma ModUnique(x: int, q: int, r: int, m: int)
    requires 0 < m && 0 <= r < m && x == q * m + r
    ensures x % m == r && x / m == q
  {
    var q', r' := x / m, x % m;
    assert x == q' * m + r';
    assert (q + 1) * m == q * m + m;
    assert (q' + 1) * m == q' * m + m;
    MulCancelLt(q', q + 1, m);
    MulCancelLt(q, q' + 1, m);
  }

  lemma ModAddMultiple(x: int, k: int, m: int)
    requires 0 < m
    ensures (x + k * m) % m == x % m
  {
    assert x == (x / m) * m + x % m;
    assert x + k * m == (x / m + k) * m + x % m;
    ModUnique(x + k * m, x / m + k, x % m, m);
  }

  lemma ModAddMod(x: int, y: int, m: int)
    requires 0 < m
    ensures (x % m + y) % m == (x + y) % m
  {
    assert x == (x / m) * m + x % m;
    ModAddMultiple(x % m + y, x / m, m);
    assert x % m + y + (x / m) * m == x + y;
  }

  lemma ModMulMod(x: int, y: int, m: int)
    requires 0 < m
    ensures (x % m) * y % m == (x * y) % m
  {
    assert x == (x / m) * m + x % m;
    assert x * y == (x % m) * y + ((x / m) * y) * m;
    ModAddMultiple((x % m) * y, (x / m) * y, m);
  }

  /** A remainder modulo m*k reduces to the remainder modulo m. */
  lemma ModModOfMultiple(x: nat, m: nat, k: nat)
    requires 0 < m && 0 < k
    ensures (x % (m * k)) % m == x % m
  {
    var mk := m * k;
    assert x == (x / mk) * mk + x % mk;
    assert x == x % mk + ((x / mk) * k) * m;
    ModAddMultiple(x % mk, (x / mk) * k, m);
  }
}
