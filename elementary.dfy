/**
 * The native-integer helpers: the comparison and arithmetic wrappers used
 * by the rest of the library, and the floor logarithm by repeated
 * multiplication. A native integer type is described by its largest
 * value max; arithmetic is on unbounded naturals and the preconditions
 * say that no step leaves the type.
 */
module Elementary {
  import opened Arith

  /** A == B; it holds exactly when neither value is below the other. */
  function IsEqual(a: nat, b: nat): (r: bool)
    ensures r <==> (!IsLess(a, b) && !IsLess(b, a))
  {
    a == b
  }

  /** A < B; a strict order: irreflexive, and never both ways. */
  function IsLess(a: nat, b: nat): (r: bool)
    ensures r ==> a != b && !(b < a)
    ensures !r ==> b <= a
  {
    a < b
  }

  /** A <= B; the union of IsLess and IsEqual. */
  function IsLessOrEqual(a: nat, b: nat): (r: bool)
    ensures r <==> (IsLess(a, b) || IsEqual(a, b))
  {
    a <= b
  }

  /** a + b; subtracting b gives back a. */
  function Add(a: nat, b: nat): (r: nat)
    ensures r - b == a && a <= r
  {
    a + b
  }

  /** a * b; zero when b is zero, and otherwise dividing by b gives back a exactly. */
  function Multiply(a: nat, b: nat): (r: nat)
    ensures b == 0 ==> r == 0
    ensures b != 0 ==> r / b == a && r % b == 0
  {
    MultiplyDivides(a, b);
    a * b
  }

  lemma MultiplyDivides(a: nat, b: nat)
    ensures b != 0 ==> (a * b) / b == a && (a * b) % b == 0
  {
    if b != 0 {
      ModUnique(a * b, a, 0, b);
    }
  }

  /** A power no larger than n has an exponent no larger than the floor log. */
  lemma PowAtMostFloorLog(b: nat, n: nat, e: nat)
    requires 2 <= b && 1 <= n && Pow(b, e) <= n
    ensures e <= FloorLog(b, n)
  {
    FloorLogBounds(b, n);
    if FloorLog(b, n) < e {
      PowMonotone(b, FloorLog(b, n) + 1, e);
    }
  }

  /**
   * One more round of the loop: a candidate base^(e+1) that is still at
   * most value grows strictly to base^(e+2), which still fits in the type.
   */
  lemma CandidateStep(base: nat, value: nat, max: nat, e: nat, result: nat)
    requires 2 <= base && 1 <= value && result == Pow(base, e + 1) && result <= value
    requires Pow(base, FloorLog(base, value) + 1) <= max
    ensures result < result * base <= max && result * base == Pow(base, e + 2)
  {
    PowAtMostFloorLog(base, value, e + 1);
    PowMonotone(base, e + 2, FloorLog(base, value) + 1);
    PowStep(base, e + 2);
    PowPositive(base, e + 1);
    MulLe(2, base, result);
  }

  /**
   * The loop of logarithm stops: it does so whenever value is 1 (early
   * return), value is below base (the body never runs) or base is at
   * least 2 (the candidate grows). With base 0 or 1 and value >= 2, or
   * base 0 and value 0, it would run forever.
   */
  predicate LogarithmTerminates(base: nat, value: nat)
  {
    value == 1 || value < base || 2 <= base
  }

  /** Without LogarithmTerminates every candidate passes the loop test. */
  lemma {:induction false} LogarithmLoopsForever(base: nat, value: nat, k: nat)
    requires !LogarithmTerminates(base, value)
    ensures Pow(base, k + 1) <= value
  {
    if k > 0 {
      LogarithmLoopsForever(base, value, k - 1);
    }
    if base == 1 {
      assert Pow(base, k + 1) == Pow(base, k);
    }
  }

  /**
   * `logarithm(base, value)` on a native type whose largest value is max.
   * The candidate result runs through base, base^2, ... until it passes
   * value; the last candidate, base^(e+1), must fit in the type.
   */
  method Logarithm(base: nat, value: nat, max: nat) returns (exponent: nat)
    requires base <= max && value <= max
    requires LogarithmTerminates(base, value)
    requires value != 1 && 2 <= base && base <= value ==>
      Pow(base, FloorLog(base, value) + 1) <= max
    ensures 2 <= base && 1 <= value ==> exponent == FloorLog(base, value)
    ensures 2 <= base && 1 <= value ==>
      Pow(base, exponent) <= value < Pow(base, exponent + 1)
    ensures value <= 1 || value < base ==> exponent == 0
    ensures value != 1 ==> Pow(base, exponent + 1) <= max
  {
    if IsEqual(value, 1) {
      return 0;
    }
    exponent := 0;
    var result := base;
    while IsLessOrEqual(result, value)
      invariant result == Pow(base, exponent + 1) && result <= max
      invariant exponent == 0 || Pow(base, exponent) <= value
      invariant 2 <= base || value < result
      decreases value - result
    {
      CandidateStep(base, value, max, exponent, result);
      exponent := Add(exponent, 1);
      result := Multiply(result, base);
    }
    if 2 <= base && 1 <= value {
      FloorLogUnique(base, value, exponent);
    }
  }

  /**
   * logarithm as evidently intended on a native type whose largest value is
   * max: a candidate is only multiplied by base when the product stays at
   * most value, so no product leaves the type, whatever value is.
   */
  method LogarithmCorrected(base: nat, value: nat, max: nat) returns (exponent: nat)
    requires base <= max && value <= max
    requires LogarithmTerminates(base, value)
    ensures 2 <= base && 1 <= value ==> exponent == FloorLog(base, value)
    ensures 2 <= base && 1 <= value ==>
      Pow(base, exponent) <= value < Pow(base, exponent + 1)
    ensures value <= 1 || value < base ==> exponent == 0
  {
    if IsEqual(value, 1) || IsLess(value, base) {
      return 0;
    }
    exponent := 1;
    var result := base;
    while result <= value / base
      invariant result == Pow(base, exponent) && result <= value
      decreases value - result
    {
      ScaleBracket(base, value, result, value / base + 1);
      MulLe(2, base, result);
      exponent := Add(exponent, 1);
      result := Multiply(result, base);
    }
    ScaleBracket(base, value, 0, result);
    FloorLogUnique(base, value, exponent);
  }

  /**
   * The candidate of logarithm after k rounds on an unsigned type with m
   * values: each product `multiply(result, base)` is reduced modulo m when
   * it is stored back into the candidate.
   */
  function WrappedCandidate(base: nat, m: nat, k: nat): (c: nat)
    requires 1 <= m
    ensures c < m
  {
    if k == 0 then base % m else (WrappedCandidate(base, m, k - 1) * base) % m
  }

  /** The wrapped candidate is the true candidate base^(k+1) modulo m. */
  lemma {:induction false} WrappedCandidateIsPowMod(base: nat, m: nat, k: nat)
    requires 1 <= m
    ensures WrappedCandidate(base, m, k) == Pow(base, k + 1) % m
  {
    if k == 0 {
      assert Pow(base, 1) == base;
    } else {
      WrappedCandidateIsPowMod(base, m, k - 1);
      ModMulMod(Pow(base, k), base, m);
      assert Pow(base, k + 1) == Pow(base, k) * base;
    }
  }

  /**
   * `logarithm<uint8_t>(2, 255)`: the floor logarithm is 7, but the eighth
   * candidate 128 * 2 is stored as 0, and from then on every candidate is 0,
   * which passes the loop test 0 <= 255, so the loop never ends.
   */
  lemma {:induction false} WrappedLogarithmLoopsForever(k: nat)
    requires 7 <= k
    ensures FloorLog(2, 255) == 7
    ensures WrappedCandidate(2, 256, k) == 0 && IsLessOrEqual(WrappedCandidate(2, 256, k), 255)
  {
    assert Pow(2, 7) == 128 && Pow(2, 8) == 256;
    FloorLogUnique(2, 255, 7);
    if k == 7 {
      WrappedCandidateIsPowMod(2, 256, 7);
    } else {
      WrappedLogarithmLoopsForever(k - 1);
    }
  }

  /**
   * `logarithm<uint32_t>(3, 4000000000)`: the floor logarithm is 20, but
   * the candidate after 20 rounds is 3^21 mod 2^32 = 1870418611, which still
   * passes the loop test, so the exponent goes past 20.
   */
  lemma WrappedLogarithmOvershoots()
    ensures FloorLog(3, 4000000000) == 20
    ensures WrappedCandidate(3, 4294967296, 20) == 1870418611
    ensures IsLessOrEqual(WrappedCandidate(3, 4294967296, 20), 4000000000)
  {
    assert Pow(3, 10) == 59049 && Pow(3, 11) == 177147;
    PowAdd(3, 10, 10);
    PowAdd(3, 10, 11);
    FloorLogUnique(3, 4000000000, 20);
    WrappedCandidateIsPowMod(3, 4294967296, 20);
    ModUnique(10460353203, 2, 1870418611, 4294967296);
  }

  /** The static checks beside `logarithm`, on `int` (largest value 2^31 - 1). */
  method LogarithmExamples() returns (l1: nat, l63: nat, l64: nat, l127: nat, l128: nat,
                                      l625: nat, l4096: nat, l100000: nat)
    ensures l1 == 0 && l63 == 5 && l64 == 6 && l127 == 6 && l128 == 7
    ensures l625 == 4 && l4096 == 3 && l100000 == 5
  {
    var max := 2147483647;
    l1 := Logarithm(2, 1, max);
    LogExample(2, 63, 5);
    l63 := Logarithm(2, 63, max);
    LogExample(2, 64, 6);
    l64 := Logarithm(2, 64, max);
    LogExample(2, 127, 6);
    l127 := Logarithm(2, 127, max);
    LogExample(2, 128, 7);
    l128 := Logarithm(2, 128, max);
    LogExample(5, 625, 4);
    l625 := Logarithm(5, 625, max);
    LogExample(16, 4096, 3);
    l4096 := Logarithm(16, 4096, max);
    LogExample(10, 100000, 5);
    l100000 := Logarithm(10, 100000, max);
  }

  lemma LogExample(b: nat, n: nat, e: nat)
    requires 2 <= b && 1 <= n && Pow(b, e) <= n < Pow(b, e + 1) && Pow(b, e + 1) <= 2147483647
    ensures FloorLog(b, n) == e && Pow(b, FloorLog(b, n) + 1) <= 2147483647
  {
    FloorLogUnique(b, n, e);
  }
}
