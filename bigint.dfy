/**
 * The fixed-capacity multi-word unsigned integer `bigint<BITS, T>`: an
 * array of RequiredElements(BITS) words of an unsigned type T, least
 * significant word first. As in the library, highest_bit and the
 * comparisons scan the words, widening copies them, and the arithmetic
 * operations build a fresh result array word by word, threading a carry.
 */
module BigInt {
  import opened Arith
  import opened Words
  import RadixCodec
  import Elementary

  /**
   * The width in bits of a word type that has a double-width overflow
   * type (`std::numeric_limits<T>::digits` for uint8_t, uint16_t, uint32_t).
   */
  type Width = w: nat | w == 8 || w == 16 || w == 32 witness 8

  /** One more than the largest word of the given width. */
  function Base(w: Width): nat
  {
    Pow(2, w)
  }

  lemma BaseAtLeast256(w: Width)
    ensures 256 <= Base(w)
  {
    assert Pow(2, 8) == 256;
    PowMonotone(2, 8, w);
  }

  function Max(x: nat, y: nat): nat
  {
    if x < y then y else x
  }

  // ---------------------------------------------------------------------
  // Sizing

  /**
   * `required_elements<T, BITS>`: whole words needed for bits bits, the
   * ceiling of bits / digits.
   */
  function RequiredElements(bits: nat, digits: nat): (n: nat)
    requires 1 <= digits
    ensures bits <= digits * n
    ensures 1 <= n ==> digits * (n - 1) < bits
  {
    DivMod(bits, digits);
    MulSucc(digits, bits / digits + 1);
    bits / digits + (if bits % digits == 0 then 0 else 1)
  }

  /** A wider bigint never has fewer words. */
  lemma RequiredElementsMonotone(x: nat, y: nat, digits: nat)
    requires 1 <= digits && x <= y
    ensures RequiredElements(x, digits) <= RequiredElements(y, digits)
  {
    var m, n := RequiredElements(x, digits), RequiredElements(y, digits);
    if n < m {
      MulLe(n, m - 1, digits);
    }
  }

  /** At least one word for a nonempty bigint. */
  lemma RequiredElementsPositive(bits: nat, digits: nat)
    requires 1 <= digits && 1 <= bits
    ensures 1 <= RequiredElements(bits, digits)
  {
  }

  /** The words of a bits-wide bigint hold every value below 2^bits. */
  lemma Capacity(bits: nat, w: Width)
    ensures Pow(2, bits) <= Pow(Base(w), RequiredElements(bits, w))
  {
    var n := RequiredElements(bits, w);
    PowMul(2, w, n);
    PowMonotone(2, bits, w * n);
  }

  lemma RequiredElementsExamples()
    ensures RequiredElements(8, 8) == 1 && RequiredElements(32, 8) == 4
    ensures RequiredElements(64, 8) == 8 && RequiredElements(4096, 64) == 64
  {
  }

  // ---------------------------------------------------------------------
  // The number

  /** `bigint<bits, T>` with T described by width. */
  datatype BigUint = BigUint(bits: nat, width: Width, words: seq<nat>)
  {
    /** BITS > 0, count = required_elements, and every word is a T. */
    predicate Valid()
    {
      1 <= bits && |words| == RequiredElements(bits, width) &&
      IsWords(words, Base(width))
    }

    /** The number the words denote, least significant word first (ValueRange bounds it). */
    function Value(): (v: nat)
    {
      ToNat(words, Base(width))
    }

    /** The value fits in the declared number of bits. */
    predicate Fits()
    {
      Value() < Pow(2, bits)
    }
  }

  /**
   * The words of a valid bigint denote a number below 2^(W * count), and
   * that range holds every number of the declared BITS bits.
   */
  lemma ValueRange(x: BigUint)
    requires x.Valid()
    ensures x.Value() < Pow(2, x.width * |x.words|)
    ensures Pow(2, x.bits) <= Pow(2, x.width * |x.words|)
  {
    ToNatBound(x.words, Base(x.width));
    PowMul(2, x.width, |x.words|);
    PowMonotone(2, x.bits, x.width * |x.words|);
  }

  /** A bigint whose lowest word is w and whose other words are zero. */
  function Small(bits: nat, width: Width, w: nat): (x: BigUint)
    requires 1 <= bits && w < Base(width)
    ensures x.Valid() && x.bits == bits && x.width == width && x.Value() == w
  {
    var n := RequiredElements(bits, width);
    RequiredElementsPositive(bits, width);
    var words := Window([w], n);
    ToNatPadded([w], n, Base(width));
    assert ToNat([w], Base(width)) == w by {
      assert [w][..0] == [];
    }
    BigUint(bits, width, words)
  }

  // ---------------------------------------------------------------------
  // highest_bit

  /** Bit k of the word x (`x & (1 << k)` is nonzero). */
  predicate BitSet(x: nat, k: nat)
  {
    (x / Pow(2, k)) % 2 == 1
  }

  /** A word below 2^(k+1) whose bit k is clear is below 2^k. */
  lemma BitClear(x: nat, k: nat)
    requires x < Pow(2, k + 1) && !BitSet(x, k)
    ensures x < Pow(2, k)
  {
    var p := Pow(2, k);
    PowPositive(2, k);
    PowStep(2, k + 1);
    QuotientBelowTwo(x, p);
  }

  lemma QuotientBelowTwo(x: nat, p: nat)
    requires 0 < p && x < p * 2 && (x / p) % 2 != 1
    ensures x < p
  {
    DivMod(x, p);
    var q := x / p;
    if q >= 2 {
      MulLe(2, q, p);
    }
  }

  /** A word whose bit k is set is at least 2^k. */
  lemma BitSetAtLeast(x: nat, k: nat)
    requires BitSet(x, k)
    ensures Pow(2, k) <= x
  {
    PowPositive(2, k);
    QuotientAtLeastOne(x, Pow(2, k));
  }

  lemma QuotientAtLeastOne(x: nat, p: nat)
    requires 0 < p && (x / p) % 2 == 1
    ensures p <= x
  {
    DivMod(x, p);
    MulLe(1, x / p, p);
  }

  /**
   * `highest_bit`: skip zero words from the top, then clear bits from the
   * top of the first nonzero word; the result is the bit length of the value.
   */
  method HighestBit(x: BigUint) returns (h: nat)
    requires x.Valid()
    ensures h == BitLength(x.Value())
  {
    var words := x.words;
    var digits := x.width;
    RequiredElementsPositive(x.bits, digits);
    var i: nat := |words| - 1;
    while i > 0 && words[i] == 0
      invariant i < |words|
      invariant forall k :: i < k < |words| ==> words[k] == 0
    {
      i := i - 1;
    }
    var j: nat := digits;
    while j > 0 && !BitSet(words[i], j - 1)
      invariant j <= digits && words[i] < Pow(2, j)
    {
      BitClear(words[i], j - 1);
      j := j - 1;
    }
    if j > 0 {
      BitSetAtLeast(words[i], j - 1);
    }
    MulNonNegative(digits, i);
    h := digits * i + j;
    HighestBitValue(x, i, j);
  }

  /** The value's bit length from the top nonzero word i and its bit length j. */
  lemma HighestBitValue(x: BigUint, i: nat, j: nat)
    requires x.Valid() && i < |x.words|
    requires forall k :: i < k < |x.words| ==> x.words[k] == 0
    requires i == 0 || x.words[i] != 0
    requires x.words[i] < Pow(2, j)
    requires j == 0 || Pow(2, j - 1) <= x.words[i]
    ensures x.width * i + j == BitLength(x.Value())
  {
    var words, base, digits := x.words, Base(x.width), x.width;
    ToNatZeroAbove(words, i + 1, base);
    ToNatPrefix(words, i, base);
    var low := ToNat(words[..i], base);
    var p := Pow(base, i);
    if words[i] == 0 {
      assert j == 0 && i == 0;
    } else {
      ToNatBound(words[..i], base);
      PowMul(2, digits, i);
      MulNonNegative(digits, i);
      BitLengthFromTop(x.Value(), low, words[i], p, j, digits * i);
    }
  }

  /** A top word w of bit length j at 2^m, with lower words below 2^m. */
  lemma BitLengthFromTop(value: nat, low: nat, w: nat, p: nat, j: nat, m: nat)
    requires value == low + w * p && low < p && p == Pow(2, m)
    requires 1 <= j && Pow(2, j - 1) <= w < Pow(2, j)
    ensures BitLength(value) == m + j
  {
    var lo, hi := Pow(2, j - 1), Pow(2, j);
    MulLe(lo, w, p);
    MulLe(w + 1, hi, p);
    MulDistributes(w, 1, p);
    PowAdd(2, j - 1, m);
    PowAdd(2, j, m);
    BitLengthUnique(value, m + j);
  }

  /** The largest k-bit value, k ones, has highest bit k. */
  lemma BitLengthOfOnes(k: nat)
    requires 1 <= k
    ensures BitLength(Pow(2, k) - 1) == k
  {
    PowStep(2, k);
    PowPositive(2, k - 1);
    BitLengthUnique(Pow(2, k) - 1, k);
  }

  /**
   * The static checks beside highest_bit that are not all ones: 0, 1 and
   * 9 have highest bits 0, 1 and 4 (the others, 255, 2^15 - 1, 2^25 - 1,
   * 2^62 - 1 and the 128- and 256-bit maxima, are BitLengthOfOnes).
   */
  lemma HighestBitExamples()
    ensures BitLength(0) == 0 && BitLength(1) == 1 && BitLength(9) == 4
  {
    BitLengthUnique(1, 1);
    BitLengthUnique(9, 4);
  }

  // ---------------------------------------------------------------------
  // of, == and <=

  /** `of<T, INPUT_BITS, bits>`: copy the words into a wider zeroed bigint. */
  method Of(a: BigUint, bits: nat) returns (r: BigUint)
    requires a.Valid() && 1 <= bits
    requires |a.words| <= RequiredElements(bits, a.width)
    ensures r.Valid() && r.bits == bits && r.width == a.width
    ensures r.words == Window(a.words, |r.words|)
    ensures r.Value() == a.Value()
  {
    var n := RequiredElements(bits, a.width);
    var value := new nat[n](_ => 0);
    for i := 0 to |a.words|
      invariant value[..] == Window(a.words[..i], n)
    {
      value[i] := a.words[i];
    }
    assert a.words[..|a.words|] == a.words;
    WindowIsWords(a.words, n, Base(a.width));
    ToNatPadded(a.words, n, Base(a.width));
    r := BigUint(bits, a.width, value[..]);
  }

  /** With zero padding to count words, equal values means equal words. */
  lemma SameValueSameWindow(a: BigUint, b: BigUint, count: nat)
    requires a.Valid() && b.Valid() && a.width == b.width
    requires |a.words| <= count && |b.words| <= count
    ensures a.Value() == b.Value() <==> Window(a.words, count) == Window(b.words, count)
  {
    var base := Base(a.width);
    ToNatPadded(a.words, count, base);
    ToNatPadded(b.words, count, base);
    PowPositive(2, a.width);
    WindowIsWords(a.words, count, base);
    WindowIsWords(b.words, count, base);
    if a.Value() == b.Value() {
      ToNatInjective(Window(a.words, count), Window(b.words, count), base);
    }
  }

  /** `operator==` on two bigints: scan up, zero-padding the shorter one. */
  method Equal(a: BigUint, b: BigUint) returns (r: bool)
    requires a.Valid() && b.Valid() && a.width == b.width
    ensures r <==> a.Value() == b.Value()
  {
    var count := Max(|a.words|, |b.words|);
    SameValueSameWindow(a, b, count);
    for i := 0 to count
      invariant forall k :: 0 <= k < i ==> WordAt(a.words, k) == WordAt(b.words, k)
    {
      var ai := WordAt(a.words, i);
      var bi := WordAt(b.words, i);
      if ai != bi {
        assert Window(a.words, count)[i] != Window(b.words, count)[i];
        return false;
      }
    }
    assert Window(a.words, count) == Window(b.words, count);
    return true;
  }

  /** `operator==` against a single word: the low word matches and the rest are zero. */
  method EqualWord(a: BigUint, w: nat) returns (r: bool)
    requires a.Valid() && w < Base(a.width)
    ensures r <==> a.Value() == w
  {
    RequiredElementsPositive(a.bits, a.width);
    var s := Small(a.bits, a.width, w);
    SameValueSameWindow(a, s, |a.words|);
    assert Window(s.words, |a.words|) == s.words;
    assert Window(a.words, |a.words|) == a.words;
    if a.words[0] != w {
      return false;
    }
    for i := 1 to |a.words|
      invariant forall k :: 1 <= k < i ==> a.words[k] == 0
    {
      if a.words[i] != 0 {
        assert a.words[i] != s.words[i];
        return false;
      }
    }
    assert a.words == s.words;
    return true;
  }

  /** `operator<=`: scan down from the top word; the first difference decides. */
  method LessOrEqual(a: BigUint, b: BigUint) returns (r: bool)
    requires a.Valid() && b.Valid() && a.width == b.width
    ensures r <==> a.Value() <= b.Value()
  {
    var count := Max(|a.words|, |b.words|);
    var base := Base(a.width);
    var wa, wb := Window(a.words, count), Window(b.words, count);
    SameValueSameWindow(a, b, count);
    ToNatPadded(a.words, count, base);
    ToNatPadded(b.words, count, base);
    PowPositive(2, a.width);
    WindowIsWords(a.words, count, base);
    WindowIsWords(b.words, count, base);
    var i := count;
    while i > 0
      invariant i <= count
      invariant forall k :: i <= k < count ==> wa[k] == wb[k]
    {
      var j := i - 1;
      var aj := WordAt(a.words, j);
      var bj := WordAt(b.words, j);
      assert aj == wa[j] && bj == wb[j];
      if Elementary.IsEqual(aj, bj) {
        i := j;
      } else if Elementary.IsLess(aj, bj) {
        ToNatLessAt(wa, wb, j, base);
        return true;
      } else {
        ToNatLessAt(wb, wa, j, base);
        return false;
      }
    }
    assert wa == wb;
    return true;
  }

  // ---------------------------------------------------------------------
  // add and add_in_place

  /**
   * The sum of two T values wraps at most once, and it wrapped exactly when
   * the stored sum comes out below the first operand: the carry test of add.
   */
  lemma WrapOnce(a: nat, b: nat, base: nat)
    requires a < base && b < base
    ensures (a + b) % base == if a + b < base then a + b else a + b - base
    ensures (a + b) % base < a <==> base <= a + b
  {
    if a + b < base {
      ModUnique(a + b, 0, a + b, base);
    } else {
      ModUnique(a + b, 1, a + b - base, base);
    }
  }

  /**
   * One position of the ripple-carry loop in T arithmetic: current = ai + bi
   * and partial = current + carry both wrap modulo base, and a carry out
   * is detected by either sum coming out smaller than what it added to.
   * The comparisons detect exactly the one overflow that can happen.
   */
  function AddWords(ai: nat, bi: nat, carry: nat, base: nat): (r: (nat, nat))
    requires 2 <= base && ai < base && bi < base && carry <= 1
    ensures r.0 < base && r.1 <= 1
    ensures ai + bi + carry == r.0 + r.1 * base
  {
    var current := (ai + bi) % base;
    WrapOnce(ai, bi, base);
    var partial := (current + carry) % base;
    WrapOnce(current, carry, base);
    (partial, if current < ai || partial < current then 1 else 0)
  }

  /** The prefix sums of the ripple-carry loop, one position further. */
  lemma RippleStep(done: seq<nat>, wa: seq<nat>, wb: seq<nat>, i: nat,
                   c: nat, low: nat, c': nat, base: nat)
    requires |done| == i && i < |wa| && i < |wb|
    requires ToNat(done, base) + c * Pow(base, i) == ToNat(wa[..i], base) + ToNat(wb[..i], base)
    requires wa[i] + wb[i] + c == low + c' * base
    ensures ToNat(done + [low], base) + c' * Pow(base, i + 1) ==
      ToNat(wa[..i + 1], base) + ToNat(wb[..i + 1], base)
  {
    var p := Pow(base, i);
    ToNatAppend(done, low, base);
    ToNatPrefix(wa, i, base);
    ToNatPrefix(wb, i, base);
    PowStep(base, i + 1);
    CarryStep(ToNat(done, base), c, p, base, low, c', wa[i] + wb[i],
              ToNat(wa[..i], base) + ToNat(wb[..i], base));
    MulDistributes(wa[i], wb[i], p);
  }

  /**
   * The loop shared by add and add_in_place: len positions of ripple-carry
   * addition over the zero-padded operands, into a fresh zeroed array.
   */
  method RippleAdd(a: seq<nat>, b: seq<nat>, len: nat, base: nat) returns (sum: seq<nat>, carry: nat)
    requires 2 <= base && IsWords(a, base) && IsWords(b, base)
    ensures |sum| == len && IsWords(sum, base) && carry <= 1
    ensures ToNat(sum, base) + carry * Pow(base, len) ==
      ToNat(Window(a, len), base) + ToNat(Window(b, len), base)
  {
    var wa, wb := Window(a, len), Window(b, len);
    var result := new nat[len](_ => 0);
    carry := 0;
    for i := 0 to len
      invariant carry <= 1 && forall k :: 0 <= k < i ==> result[k] < base
      invariant ToNat(result[..i], base) + carry * Pow(base, i) ==
        ToNat(wa[..i], base) + ToNat(wb[..i], base)
    {
      var ai := WordAt(a, i);
      var bi := WordAt(b, i);
      var step := AddWords(ai, bi, carry, base);
      ghost var done := result[..i];
      result[i] := step.0;
      assert result[..i + 1] == done + [step.0];
      assert ToNat(result[..i + 1], base) + step.1 * Pow(base, i + 1) ==
             ToNat(wa[..i + 1], base) + ToNat(wb[..i + 1], base) by {
        RippleStep(done, wa, wb, i, carry, step.0, step.1, base);
      }
      carry := step.1;
    }
    sum := result[..];
    assert result[..len] == sum && wa[..len] == wa && wb[..len] == wb;
    assert IsWords(sum, base);
  }

  /**
   * `add`: the result is max(A, B) + 1 bits wide. Its first n - 1 words are
   * the ripple-carry sum of the operands' first n - 1 words and its last
   * word is the final carry; operand words from n - 1 up are not read.
   */
  method Add(a: BigUint, b: BigUint) returns (r: BigUint)
    requires a.Valid() && b.Valid() && a.width == b.width
    ensures r.Valid() && r.bits == Max(a.bits, b.bits) + 1 && r.width == a.width
    ensures 1 <= |r.words| && r.words[|r.words| - 1] <= 1
    ensures r.Value() == a.Value() % Pow(Base(a.width), |r.words| - 1) +
                         b.Value() % Pow(Base(a.width), |r.words| - 1)
    ensures Max(a.bits, b.bits) % a.width == 0 ==> r.Value() == a.Value() + b.Value()
  {
    var bits := Max(a.bits, b.bits) + 1;
    var n := RequiredElements(bits, a.width);
    RequiredElementsPositive(bits, a.width);
    BaseAtLeast256(a.width);
    var sum, carry := RippleAdd(a.words, b.words, n - 1, Base(a.width));
    r := BigUint(bits, a.width, sum + [carry]);
    AddValue(a, b, sum, carry);
    if Max(a.bits, b.bits) % a.width == 0 {
      AddExact(a, b, |sum|);
    }
  }

  /** The value of add's words: the n - 1 word sums and the carry on top. */
  lemma AddValue(a: BigUint, b: BigUint, sum: seq<nat>, carry: nat)
    requires a.Valid() && b.Valid() && a.width == b.width && carry <= 1
    requires IsWords(sum, Base(a.width))
    requires ToNat(sum, Base(a.width)) + carry * Pow(Base(a.width), |sum|) ==
      ToNat(Window(a.words, |sum|), Base(a.width)) + ToNat(Window(b.words, |sum|), Base(a.width))
    ensures IsWords(sum + [carry], Base(a.width))
    ensures ToNat(sum + [carry], Base(a.width)) ==
      a.Value() % Pow(Base(a.width), |sum|) + b.Value() % Pow(Base(a.width), |sum|)
  {
    var base := Base(a.width);
    BaseAtLeast256(a.width);
    ToNatAppend(sum, carry, base);
    ToNatWindow(a.words, |sum|, base);
    ToNatWindow(b.words, |sum|, base);
  }

  /** When max(A, B) fills its words, the first n - 1 words are all there is. */
  lemma AddExact(a: BigUint, b: BigUint, k: nat)
    requires a.Valid() && b.Valid() && a.width == b.width
    requires k + 1 == RequiredElements(Max(a.bits, b.bits) + 1, a.width)
    requires Max(a.bits, b.bits) % a.width == 0
    ensures a.Value() % Pow(Base(a.width), k) == a.Value()
    ensures b.Value() % Pow(Base(a.width), k) == b.Value()
  {
    BaseAtLeast256(a.width);
    AddReadsEveryWord(a, b);
    BelowModulus(a.words, k, Base(a.width));
    BelowModulus(b.words, k, Base(a.width));
  }

  /** Words fewer than k stand for a value that is its own remainder modulo base^k. */
  lemma BelowModulus(s: seq<nat>, k: nat, base: nat)
    requires 1 <= base && IsWords(s, base) && |s| <= k
    ensures ToNat(s, base) % Pow(base, k) == ToNat(s, base)
  {
    ToNatBound(s, base);
    PowMonotone(base, |s|, k);
    ModUnique(ToNat(s, base), 0, ToNat(s, base), Pow(base, k));
  }

  /** One more bit needs one more word exactly when bits fills its words. */
  lemma RequiredElementsNext(bits: nat, digits: nat)
    requires 2 <= digits
    ensures RequiredElements(bits + 1, digits) ==
      RequiredElements(bits, digits) + (if bits % digits == 0 then 1 else 0)
  {
    var q, r := bits / digits, bits % digits;
    DivMod(bits, digits);
    if r + 1 < digits {
      ModUnique(bits + 1, q, r + 1, digits);
    } else {
      ModUnique(bits + 1, q + 1, 0, digits);
    }
  }

  /**
   * add reads every word of both operands (and so is exact) exactly when
   * max(A, B) is a whole number of words; otherwise the wider operand's
   * top word sits at index n - 1, which the loop never reads.
   */
  lemma AddReadsEveryWord(a: BigUint, b: BigUint)
    requires a.Valid() && b.Valid() && a.width == b.width
    ensures var n := RequiredElements(Max(a.bits, b.bits) + 1, a.width);
      (|a.words| < n && |b.words| < n) <==> Max(a.bits, b.bits) % a.width == 0
  {
    var m := Max(a.bits, b.bits);
    RequiredElementsNext(m, a.width);
    RequiredElementsMonotone(a.bits, m, a.width);
    RequiredElementsMonotone(b.bits, m, a.width);
  }

  /**
   * `add_in_place`: max(A, B) bits, every word position added, the final
   * carry dropped: the sum modulo base^n.
   */
  method AddInPlace(a: BigUint, b: BigUint) returns (r: BigUint)
    requires a.Valid() && b.Valid() && a.width == b.width
    ensures r.Valid() && r.bits == Max(a.bits, b.bits) && r.width == a.width
    ensures r.Value() == (a.Value() + b.Value()) % Pow(Base(a.width), |r.words|)
  {
    var bits := Max(a.bits, b.bits);
    var n := RequiredElements(bits, a.width);
    BaseAtLeast256(a.width);
    RequiredElementsMonotone(a.bits, bits, a.width);
    RequiredElementsMonotone(b.bits, bits, a.width);
    var sum, carry := RippleAdd(a.words, b.words, n, Base(a.width));
    WrappedSum(a, b, sum, carry);
    r := BigUint(bits, a.width, sum);
  }

  /** n full word sums whose final carry is dropped: the sum modulo base^n. */
  lemma WrappedSum(a: BigUint, b: BigUint, sum: seq<nat>, carry: nat)
    requires a.Valid() && b.Valid() && a.width == b.width
    requires |a.words| <= |sum| && |b.words| <= |sum| && IsWords(sum, Base(a.width))
    requires ToNat(sum, Base(a.width)) + carry * Pow(Base(a.width), |sum|) ==
      ToNat(Window(a.words, |sum|), Base(a.width)) + ToNat(Window(b.words, |sum|), Base(a.width))
    ensures ToNat(sum, Base(a.width)) == (a.Value() + b.Value()) % Pow(Base(a.width), |sum|)
  {
    var base := Base(a.width);
    ToNatPadded(a.words, |sum|, base);
    ToNatPadded(b.words, |sum|, base);
    ToNatBound(sum, base);
    ModUnique(a.Value() + b.Value(), carry, ToNat(sum, base), Pow(base, |sum|));
  }

  /**
   * With 8-bit words, a 12-bit operand 256 = [0, 1] added to itself: the
   * 13-bit result has two words, the loop reads only word 0 of each
   * operand, and add gives [0, 0] = 0 rather than 512.
   */
  method AddDropsTopWord() returns (a: BigUint, r: BigUint)
    ensures a == BigUint(12, 8, [0, 1]) && a.Valid() && a.Fits() && a.Value() == 256
    ensures r.bits == 13 && r.words == [0, 0] && r.Value() == 0
  {
    a := BigUint(12, 8, [0, 1]);
    assert a.Value() == 256 by {
      assert [0, 1][..1] == [0];
      assert [0][..0] == [];
    }
    assert Pow(2, 8) == 256 && Pow(2, 12) == 4096;
    r := Add(a, a);
    assert |r.words| == 2;
    assert Pow(Base(8), 1) == 256;
    ToNatZeros([0, 0], 256);
    ToNatInjective(r.words, [0, 0], 256);
  }

  /** The static checks beside add at 8 and 8 bits: [1] + [1] = [2, 0]. */
  method AddSmallExample() returns (r: BigUint)
    ensures r.bits == 9 && r.words == [2, 0]
  {
    assert [1][..0] == [] && [2, 0][..1] == [2] && [2][..0] == [];
    assert Pow(2, 8) == 256;
    var one := BigUint(8, 8, [1]);
    r := Add(one, one);
    ToNatInjective(r.words, [2, 0], 256);
  }

  /** ... and [128] + [128] = [0, 1]: the carry reaches the top word. */
  method AddCarryExample() returns (r: BigUint)
    ensures r.bits == 9 && r.words == [0, 1]
  {
    assert [128][..0] == [] && [0, 1][..1] == [0] && [0][..0] == [];
    assert Pow(2, 8) == 256;
    var half := BigUint(8, 8, [128]);
    r := Add(half, half);
    ToNatInjective(r.words, [0, 1], 256);
  }

  /** At 8 and 16 bits: [1] + [1, 0] = [2, 0, 0]. */
  method AddWiderExample() returns (r: BigUint)
    ensures r.bits == 17 && r.words == [2, 0, 0]
  {
    assert [1][..0] == [] && [1, 0][..1] == [1];
    assert [2, 0, 0][..2] == [2, 0] && [2, 0][..1] == [2] && [2][..0] == [];
    assert Pow(2, 8) == 256;
    var one, wide := BigUint(8, 8, [1]), BigUint(16, 8, [1, 0]);
    r := Add(one, wide);
    ToNatInjective(r.words, [2, 0, 0], 256);
  }

  /** ... and [255] + [0, 255] = [255, 255, 0], whose highest bit is 16. */
  method AddMixedExample() returns (r: BigUint, h: nat)
    ensures r.bits == 17 && r.words == [255, 255, 0] && h == 16
  {
    assert [255][..0] == [] && [0, 255][..1] == [0] && [0][..0] == [];
    assert [255, 255, 0][..2] == [255, 255] && [255, 255][..1] == [255];
    assert Pow(2, 8) == 256;
    var top, wide := BigUint(8, 8, [255]), BigUint(16, 8, [0, 255]);
    r := Add(top, wide);
    assert r.Value() == 65535;
    ToNatInjective(r.words, [255, 255, 0], 256);
    h := HighestBit(r);
    SixteenOnes();
  }

  /** 65535 = 2^16 - 1 has bit length 16. */
  lemma SixteenOnes()
    ensures BitLength(65535) == 16
  {
    assert Pow(2, 8) == 256;
    PowAdd(2, 8, 8);
    BitLengthOfOnes(16);
  }

  /** Two fitting operands sum below 2^(max(A, B) + 1). */
  lemma SumBelow(x: nat, y: nat, i: nat, j: nat)
    requires x < Pow(2, i) && y < Pow(2, j)
    ensures x + y < Pow(2, Max(i, j) + 1)
  {
    PowMonotone(2, i, Max(i, j));
    PowMonotone(2, j, Max(i, j));
  }

  /**
   * add as evidently intended: all n = required_elements(max(A, B) + 1)
   * result words come from the ripple-carry loop, so the top word of the
   * wider operand is read. The sum of fitting operands is exact.
   */
  method AddCorrected(a: BigUint, b: BigUint) returns (r: BigUint)
    requires a.Valid() && b.Valid() && a.width == b.width
    ensures r.Valid() && r.bits == Max(a.bits, b.bits) + 1 && r.width == a.width
    ensures r.Value() == (a.Value() + b.Value()) % Pow(Base(a.width), |r.words|)
    ensures a.Fits() && b.Fits() ==> r.Value() == a.Value() + b.Value()
  {
    var bits := Max(a.bits, b.bits) + 1;
    var n := RequiredElements(bits, a.width);
    BaseAtLeast256(a.width);
    RequiredElementsMonotone(a.bits, bits, a.width);
    RequiredElementsMonotone(b.bits, bits, a.width);
    var sum, carry := RippleAdd(a.words, b.words, n, Base(a.width));
    WrappedSum(a, b, sum, carry);
    r := BigUint(bits, a.width, sum);
    if a.Fits() && b.Fits() {
      SumFits(a, b);
    }
  }

  /** Fitting operands have room for their sum in max(A, B) + 1 bits. */
  lemma SumFits(a: BigUint, b: BigUint)
    requires a.Valid() && b.Valid() && a.width == b.width && a.Fits() && b.Fits()
    ensures var m := Pow(Base(a.width), RequiredElements(Max(a.bits, b.bits) + 1, a.width));
      (a.Value() + b.Value()) % m == a.Value() + b.Value()
  {
    var m := Pow(Base(a.width), RequiredElements(Max(a.bits, b.bits) + 1, a.width));
    SumBelow(a.Value(), b.Value(), a.bits, b.bits);
    Capacity(Max(a.bits, b.bits) + 1, a.width);
    ModUnique(a.Value() + b.Value(), 0, a.Value() + b.Value(), m);
  }

  // ---------------------------------------------------------------------
  // multiply and multiply_in_place

  /** (base - 1) + (base - 1) + (base - 1)^2 is below base^2. */
  lemma DoubleWordFits(acc: nat, k: nat, x: nat, y: nat, base: nat)
    requires acc < base && k < base && x < base && y < base
    ensures acc + k + x * y < base * base
  {
    var b1 := base - 1;
    MulLe(x, b1, y);
    MulLe(y, b1, b1);
    MulSucc(b1, b1 + 1);
    MulDistributes(b1, 1, b1 + 1);
  }

  lemma QuotientBelow(sum: nat, base: nat)
    requires 0 < base && sum < base * base
    ensures sum / base < base
  {
    DivMod(sum, base);
    if sum / base >= base {
      MulLe(base, sum / base, base);
    }
  }

  /**
   * One position of a schoolbook row in the double-width overflow type:
   * sum = result[ai + bi] + k + a[ai] * b[bi] fits in two words, its low
   * word is stored and its high word is the next k.
   */
  function MulAddWords(acc: nat, k: nat, x: nat, y: nat, base: nat): (r: (nat, nat))
    requires acc < base && k < base && x < base && y < base
    ensures acc + k + x * y < base * base
    ensures r.0 < base && r.1 < base && acc + k + x * y == r.0 + r.1 * base
  {
    var product := x * y;
    var partial := acc + k;
    var sum := partial + product;
    DoubleWordFits(acc, k, x, y, base);
    DivMod(sum, base);
    QuotientBelow(sum, base);
    (sum % base, sum / base)
  }

  /** The arithmetic of one position of a row. */
  lemma RowArith(t: int, k: int, pp: int, r0: int, lo: int, d: int, pb: int,
                 t': int, x: int, w: int, k': int, aw: int, pa: int, base: int)
    requires t + k * pp == r0 + lo * d * pb
    requires t' + x * pp == t + w * pp
    requires x + k + aw * d == w + k' * base
    requires pp == pb * pa
    ensures t' + k' * (pp * base) == r0 + (lo + aw * pa) * d * pb
  {
    assert (x + k + aw * d) * pp == (w + k' * base) * pp;
    MulDistributes(w, k' * base, pp);
    MulDistributes(x + k, aw * d, pp);
    MulDistributes(x, k, pp);
    MulAssociates(k', base, pp);
    MulDistributes(lo, aw * pa, d);
    MulDistributes(lo * d, (aw * pa) * d, pb);
    MulAssociates(aw * d, pb, pa);
  }

  /** The row invariant, one position further. */
  lemma RowStep(before: seq<nat>, r0: seq<nat>, a: seq<nat>, d: nat, bi: nat, ai: nat,
                k: nat, low: nat, k': nat, base: nat)
    requires bi + ai < |before| && ai < |a|
    requires ToNat(before, base) + k * Pow(base, bi + ai) ==
      ToNat(r0, base) + ToNat(a[..ai], base) * d * Pow(base, bi)
    requires before[bi + ai] + k + a[ai] * d == low + k' * base
    ensures ToNat(before[bi + ai := low], base) + k' * Pow(base, bi + ai + 1) ==
      ToNat(r0, base) + ToNat(a[..ai + 1], base) * d * Pow(base, bi)
  {
    var p := bi + ai;
    ToNatUpdate(before, p, low, base);
    ToNatPrefix(a, ai, base);
    PowAdd(base, bi, ai);
    PowStep(base, p + 1);
    RowArith(ToNat(before, base), k, Pow(base, p), ToNat(r0, base), ToNat(a[..ai], base), d,
             Pow(base, bi), ToNat(before[p := low], base), before[p], low, k', a[ai],
             Pow(base, ai), base);
  }

  /** The arithmetic of a row whose last carry falls off the top. */
  lemma RowOverflowArith(t: int, k: int, pn: int, r0: int, va: int, lo: int, hi: int,
                         pc: int, d: int, pb: int)
    requires t + k * pn == r0 + lo * d * pb && pn == pb * pc && va == lo + hi * pc
    ensures r0 + va * d * pb == (k + hi * d) * pn + t
  {
    MulDistributes(lo, hi * pc, d);
    MulDistributes(lo * d, (hi * pc) * d, pb);
    MulDistributes(k, hi * d, pn);
    MulAssociates(hi * d, pb, pc);
  }

  /**
   * After a row: adding a * d * base^bi to the words modulo base^n. When
   * the row stops below the top, its last carry lands on a word that was
   * still zero; otherwise it is dropped.
   */
  lemma RowFinish(mid: seq<nat>, fin: seq<nat>, r0: seq<nat>, a: seq<nat>, d: nat,
                  bi: nat, count: nat, k: nat, base: nat)
    requires 1 <= base && |mid| == |r0| && IsWords(fin, base) && |fin| == |mid|
    requires count == if |a| < |mid| - bi then |a| else |mid| - bi
    requires bi <= |mid|
    requires ToNat(mid, base) + k * Pow(base, bi + count) ==
      ToNat(r0, base) + ToNat(a[..count], base) * d * Pow(base, bi)
    requires bi + count < |mid| ==> mid[bi + count] == 0 && fin == mid[bi + count := k]
    requires bi + count == |mid| ==> fin == mid
    ensures ToNat(fin, base) ==
      (ToNat(r0, base) + ToNat(a, base) * d * Pow(base, bi)) % Pow(base, |mid|)
  {
    if bi + count < |mid| {
      RowFinishInside(mid, fin, r0, a, d, bi, k, base);
    } else {
      RowFinishOverflow(mid, r0, a, d, bi, count, k, base);
    }
  }

  lemma RowFinishInside(mid: seq<nat>, fin: seq<nat>, r0: seq<nat>, a: seq<nat>, d: nat,
                        bi: nat, k: nat, base: nat)
    requires 1 <= base && IsWords(fin, base) && bi + |a| < |mid|
    requires ToNat(mid, base) + k * Pow(base, bi + |a|) ==
      ToNat(r0, base) + ToNat(a[..|a|], base) * d * Pow(base, bi)
    requires mid[bi + |a|] == 0 && fin == mid[bi + |a| := k]
    ensures ToNat(fin, base) ==
      (ToNat(r0, base) + ToNat(a, base) * d * Pow(base, bi)) % Pow(base, |mid|)
  {
    assert a[..|a|] == a;
    ToNatUpdate(mid, bi + |a|, k, base);
    ToNatBound(fin, base);
    ModUnique(ToNat(fin, base), 0, ToNat(fin, base), Pow(base, |fin|));
  }

  lemma RowFinishOverflow(mid: seq<nat>, r0: seq<nat>, a: seq<nat>, d: nat,
                          bi: nat, count: nat, k: nat, base: nat)
    requires 1 <= base && IsWords(mid, base) && bi + count == |mid| && count <= |a|
    requires ToNat(mid, base) + k * Pow(base, |mid|) ==
      ToNat(r0, base) + ToNat(a[..count], base) * d * Pow(base, bi)
    ensures ToNat(mid, base) ==
      (ToNat(r0, base) + ToNat(a, base) * d * Pow(base, bi)) % Pow(base, |mid|)
  {
    ToNatSplit(a, count, base);
    PowAdd(base, bi, count);
    ToNatBound(mid, base);
    RowOverflowMod(ToNat(mid, base), k, Pow(base, |mid|), ToNat(r0, base), ToNat(a, base),
                   ToNat(a[..count], base), ToNat(a[count..], base), Pow(base, count), d,
                   Pow(base, bi));
  }

  lemma RowOverflowMod(t: int, k: int, pn: int, r0: int, va: int, lo: int, hi: int,
                       pc: int, d: int, pb: int)
    requires 0 <= t < pn
    requires t + k * pn == r0 + lo * d * pb && pn == pb * pc && va == lo + hi * pc
    ensures t == (r0 + va * d * pb) % pn
  {
    RowOverflowArith(t, k, pn, r0, va, lo, hi, pc, d, pb);
    ModUnique(r0 + va * d * pb, k + hi * d, t, pn);
  }

  /**
   * One position ai of row bi: sum = result[ai + bi] + k + a[ai] * d in
   * the overflow type; the low word is stored and the high word is the
   * new k. Only word ai + bi changes.
   */
  method RowPosition(result: array<nat>, ghost r0: seq<nat>, a: seq<nat>, d: nat, bi: nat,
                     ai: nat, k: nat, base: nat) returns (k': nat)
    modifies result
    requires 2 <= base && IsWords(a, base) && d < base && ai < |a| && bi + ai < result.Length
    requires k < base && forall j :: 0 <= j < result.Length ==> result[j] < base
    requires ToNat(result[..], base) + k * Pow(base, bi + ai) ==
      ToNat(r0, base) + ToNat(a[..ai], base) * d * Pow(base, bi)
    ensures k' < base && forall j :: 0 <= j < result.Length ==> result[j] < base
    ensures result[..] == old(result[..])[bi + ai := result[bi + ai]]
    ensures ToNat(result[..], base) + k' * Pow(base, bi + ai + 1) ==
      ToNat(r0, base) + ToNat(a[..ai + 1], base) * d * Pow(base, bi)
  {
    var p := bi + ai;
    var step := MulAddWords(result[p], k, a[ai], d, base);
    ghost var before := result[..];
    result[p] := step.0;
    assert result[..] == before[p := step.0];
    RowStep(before, r0, a, d, bi, ai, k, step.0, step.1, base);
    k' := step.1;
  }

  /**
   * Row bi of the schoolbook loop: count = min(|a|, n - bi) positions from
   * bi, threading k, then k into position bi + count if that is inside.
   */
  method MultiplyRow(result: array<nat>, a: seq<nat>, d: nat, bi: nat, base: nat)
    modifies result
    requires 2 <= base && IsWords(result[..], base) && IsWords(a, base) && d < base
    requires bi <= result.Length
    requires forall j :: bi + |a| <= j < result.Length ==> result[j] == 0
    ensures IsWords(result[..], base)
    ensures ToNat(result[..], base) ==
      (ToNat(old(result[..]), base) + ToNat(a, base) * d * Pow(base, bi)) % Pow(base, result.Length)
    ensures forall j :: bi + |a| < j < result.Length ==> result[j] == 0
  {
    ghost var r0 := result[..];
    var n := result.Length;
    var k: nat := 0;
    var count: nat := if |a| < n - bi then |a| else n - bi;
    for ai := 0 to count
      invariant k < base && forall j :: 0 <= j < n ==> result[j] < base
      invariant forall j :: bi + ai <= j < n ==> result[j] == r0[j]
      invariant ToNat(result[..], base) + k * Pow(base, bi + ai) ==
        ToNat(r0, base) + ToNat(a[..ai], base) * d * Pow(base, bi)
    {
      ghost var before := result[..];
      k := RowPosition(result, r0, a, d, bi, ai, k, base);
      assert forall j :: bi + ai < j < n ==> result[j] == before[j];
    }
    ghost var mid := result[..];
    if bi + count < n {
      result[bi + count] := k;
    }
    RowFinish(mid, result[..], r0, a, d, bi, count, k, base);
  }

  /** Adding row bi keeps the words equal to a times the low bi words of b. */
  lemma ProductStep(a: seq<nat>, b: seq<nat>, bi: nat, before: nat, base: nat, m: nat)
    requires 0 < m && bi < |b|
    requires before == (ToNat(a, base) * ToNat(b[..bi], base)) % m
    ensures (before + ToNat(a, base) * b[bi] * Pow(base, bi)) % m ==
      (ToNat(a, base) * ToNat(b[..bi + 1], base)) % m
  {
    ToNatPrefix(b, bi, base);
    ProductArith(ToNat(a, base), ToNat(b[..bi], base), b[bi], Pow(base, bi), m);
  }

  lemma ProductArith(va: nat, lo: nat, x: nat, p: nat, m: nat)
    requires 0 < m
    ensures ((va * lo) % m + va * x * p) % m == (va * (lo + x * p)) % m
  {
    assert va * (lo + x * p) == va * lo + va * x * p by {
      MulDistributes(lo, x * p, va);
      MulAssociates(va, x, p);
    }
    ModAddMod(va * lo, va * x * p, m);
  }

  /**
   * The schoolbook loop shared by multiply and multiply_in_place: n result
   * words, one row per word of b. Row bi exists only while bi <= n (a row
   * at bi == n does nothing), so b may have at most n + 1 words.
   */
  method MultiplyWords(a: seq<nat>, b: seq<nat>, n: nat, base: nat) returns (product: seq<nat>)
    requires 2 <= base && IsWords(a, base) && IsWords(b, base) && |b| <= n + 1
    ensures |product| == n && IsWords(product, base)
    ensures ToNat(product, base) == (ToNat(a, base) * ToNat(b, base)) % Pow(base, n)
  {
    var result := new nat[n](_ => 0);
    var m := Pow(base, n);
    PowPositive(base, n);
    ToNatZeros(result[..], base);
    ModUnique(0, 0, 0, m);
    for bi := 0 to |b|
      invariant IsWords(result[..], base)
      invariant ToNat(result[..], base) == (ToNat(a, base) * ToNat(b[..bi], base)) % m
      invariant forall j :: bi + |a| <= j < n ==> result[j] == 0
    {
      ghost var before := ToNat(result[..], base);
      MultiplyRow(result, a, b[bi], bi, base);
      ProductStep(a, b, bi, before, base, m);
    }
    product := result[..];
    assert b[..|b|] == b;
  }

  /** a * b below 2^(A + B) when a < 2^A and b < 2^B. */
  lemma ProductBelow(x: nat, y: nat, i: nat, j: nat)
    requires x < Pow(2, i) && y < Pow(2, j)
    ensures x * y < Pow(2, i + j)
  {
    PowAdd(2, i, j);
    MulLe(x, Pow(2, i), y);
    PowPositive(2, i);
    if y < Pow(2, j) {
      MulLe(y + 1, Pow(2, j), Pow(2, i));
      MulDistributes(y, 1, Pow(2, i));
    }
  }

  /**
   * `multiply`: A + B bits; the product modulo base^n, which is the exact
   * product when both operands fit their declared widths.
   */
  method Multiply(a: BigUint, b: BigUint) returns (r: BigUint)
    requires a.Valid() && b.Valid() && a.width == b.width
    ensures r.Valid() && r.bits == a.bits + b.bits && r.width == a.width
    ensures r.Value() == (a.Value() * b.Value()) % Pow(Base(a.width), |r.words|)
    ensures a.Fits() && b.Fits() ==> r.Value() == a.Value() * b.Value()
  {
    var bits := a.bits + b.bits;
    var n := RequiredElements(bits, a.width);
    var base := Base(a.width);
    BaseAtLeast256(a.width);
    RequiredElementsMonotone(b.bits, bits, a.width);
    var words := MultiplyWords(a.words, b.words, n, base);
    r := BigUint(bits, a.width, words);
    if a.Fits() && b.Fits() {
      assert a.Value() * b.Value() < Pow(base, n) by {
        ProductBelow(a.Value(), b.Value(), a.bits, b.bits);
        Capacity(bits, a.width);
      }
      MulNonNegative(a.Value(), b.Value());
      ModUnique(a.Value() * b.Value(), 0, a.Value() * b.Value(), Pow(base, n));
    }
  }

  /**
   * `multiply_in_place`: the product modulo base^n in a's own width. The
   * row count `result.count - bi` is unsigned, so b may have at most one
   * word more than a; beyond that the rows would write past the result.
   */
  method MultiplyInPlace(a: BigUint, b: BigUint) returns (r: BigUint)
    requires a.Valid() && b.Valid() && a.width == b.width
    requires |b.words| <= |a.words| + 1
    ensures r.Valid() && r.bits == a.bits && r.width == a.width
    ensures r.Value() == (a.Value() * b.Value()) % Pow(Base(a.width), |r.words|)
  {
    BaseAtLeast256(a.width);
    var words := MultiplyWords(a.words, b.words, |a.words|, Base(a.width));
    r := BigUint(a.bits, a.width, words);
  }

  // ---------------------------------------------------------------------
  // required_bits_radix and from_digits

  /**
   * `required_bits_radix<RADIX, D>`: the bits a D-digit number in the radix
   * may need: D * log2(radix) for octal, hexadecimal and base 64, and
   * 1 + floor(D * log2 10) for decimal. Binary has no rule and gets 0,
   * which no bigint accepts. Every D-digit number fits: radix^D <= 2^bits,
   * with equality for the power-of-two radices; for decimal no fewer bits
   * would do, as 2^(bits - 1) <= 10^D.
   */
  function RequiredBitsRadix(r: RadixCodec.Radix, digits: nat): (bits: nat)
    ensures r != RadixCodec.Base2 ==> Pow(r.Value(), digits) <= Pow(2, bits)
    ensures r != RadixCodec.Base2 && r != RadixCodec.Base10 ==>
      Pow(r.Value(), digits) == Pow(2, bits)
    ensures r == RadixCodec.Base10 ==> 1 <= bits && Pow(2, bits - 1) <= Pow(10, digits)
  {
    SmallPowers();
    match r
    case Base2 => 0
    case Base8 => PowMul(2, 3, digits); 3 * digits
    case Base10 =>
      PowPositive(10, digits);
      FloorLogBounds(2, Pow(10, digits));
      1 + FloorLog(2, Pow(10, digits))
    case Base16 => PowMul(2, 4, digits); 4 * digits
    case Base64 => PowMul(2, 6, digits); 6 * digits
  }

  /** The static checks beside required_bits_radix. */
  lemma RequiredBitsRadixExamples()
    ensures RequiredBitsRadix(RadixCodec.Base8, 2) == 6 && RequiredBitsRadix(RadixCodec.Base8, 3) == 9
    ensures RequiredBitsRadix(RadixCodec.Base8, 8) == 24
    ensures RequiredBitsRadix(RadixCodec.Base16, 2) == 8 && RequiredBitsRadix(RadixCodec.Base16, 8) == 32
    ensures RequiredBitsRadix(RadixCodec.Base16, 32) == 128
    ensures RequiredBitsRadix(RadixCodec.Base64, 2) == 12 && RequiredBitsRadix(RadixCodec.Base64, 8) == 48
    ensures RequiredBitsRadix(RadixCodec.Base64, 64) == 384
  {
  }

  /** The decimal static checks beside required_bits_radix. */
  lemma RequiredBitsDecimalExamples()
    ensures RequiredBitsRadix(RadixCodec.Base10, 2) == 7 && RequiredBitsRadix(RadixCodec.Base10, 4) == 14
    ensures RequiredBitsRadix(RadixCodec.Base10, 9) == 30
  {
    SmallPowersOfTwo();
    assert Pow(10, 2) == 100 && Pow(10, 4) == 10000 && Pow(10, 9) == 1000000000;
    DecimalBits(2, 6);
    DecimalBits(4, 13);
    DecimalBits(9, 29);
  }

  lemma SmallPowersOfTwo()
    ensures Pow(2, 6) == 64 && Pow(2, 7) == 128 && Pow(2, 13) == 8192 && Pow(2, 14) == 16384
    ensures Pow(2, 29) == 536870912 && Pow(2, 30) == 1073741824
  {
    assert Pow(2, 8) == 256;
    assert Pow(2, 16) == 65536 by {
      PowAdd(2, 8, 8);
    }
    PowAdd(2, 16, 13);
    PowAdd(2, 16, 14);
  }

  /** The decimal literals of 2^128 - 1 (39 digits) and 2^256 - 1 (78 digits). */
  lemma RequiredBitsLiterals()
    ensures RequiredBitsRadix(RadixCodec.Base10, 39) == 130
    ensures RequiredBitsRadix(RadixCodec.Base10, 78) == 260
    ensures RequiredElements(130, 32) == 5 && RequiredElements(260, 32) == 9
  {
    PowersOfTwo();
    PowersOfTen();
    DecimalBits(39, 129);
    DecimalBits(78, 259);
  }

  lemma PowersOfTwo()
    ensures Pow(2, 128) == 340282366920938463463374607431768211456
    ensures Pow(2, 129) == 2 * Pow(2, 128) && Pow(2, 130) == 4 * Pow(2, 128)
    ensures Pow(2, 256) == Pow(2, 128) * Pow(2, 128)
    ensures Pow(2, 259) == 8 * Pow(2, 256) && Pow(2, 260) == 16 * Pow(2, 256)
  {
    assert Pow(2, 8) == 256;
    assert Pow(256, 8) == 18446744073709551616;
    PowAdd(256, 8, 8);
    PowMul(2, 8, 16);
    PowAdd(2, 128, 1);
    PowAdd(2, 128, 2);
    PowAdd(2, 128, 128);
    PowAdd(2, 256, 3);
    PowAdd(2, 256, 4);
  }

  lemma PowersOfTen()
    ensures Pow(10, 39) == 1000000000000000000000000000000000000000
    ensures Pow(10, 78) == Pow(10, 39) * Pow(10, 39) && Pow(10, 78) == Pow(10, 77) * 10
  {
    assert Pow(10, 8) == 100000000;
    assert Pow(10, 7) == 10000000;
    PowAdd(10, 8, 8);
    PowAdd(10, 16, 16);
    PowAdd(10, 32, 7);
    PowAdd(10, 39, 39);
    PowStep(10, 78);
  }

  lemma DecimalBits(digits: nat, e: nat)
    requires Pow(2, e) <= Pow(10, digits) < Pow(2, e + 1)
    ensures RequiredBitsRadix(RadixCodec.Base10, digits) == e + 1
  {
    FloorLogUnique(2, Pow(10, digits), e);
  }

  /** One word of a from_digits pass, one position further. */
  lemma PassStep(done: seq<nat>, r0: seq<nat>, j: nat, c: nat, low: nat, c': nat,
                 factor: nat, addend: nat, base: nat)
    requires |done| == j && j < |r0|
    requires ToNat(done, base) + c * Pow(base, j) == ToNat(r0[..j], base) * factor + addend
    requires c + r0[j] * factor == low + c' * base
    ensures ToNat(done + [low], base) + c' * Pow(base, j + 1) ==
      ToNat(r0[..j + 1], base) * factor + addend
  {
    var p := Pow(base, j);
    ToNatAppend(done, low, base);
    ToNatPrefix(r0, j, base);
    PowStep(base, j + 1);
    CarryStep(ToNat(done, base), c, p, base, low, c', r0[j] * factor,
              ToNat(r0[..j], base) * factor + addend);
    PassArith(ToNat(r0[..j], base), r0[j], p, factor);
  }

  lemma PassArith(lo: int, x: int, p: int, f: int)
    ensures (lo + x * p) * f == lo * f + (x * f) * p
  {
    MulDistributes(lo, x * p, f);
    MulAssociates(x, p, f);
    MulAssociates(x, f, p);
  }

  /**
   * One pass of from_digits over the result words: each word becomes
   * word * factor + carry in the overflow type, whose low half is stored
   * and whose high half is carried on; the carry out of the top word is
   * dropped. The multiply pass has factor radix and carry 0; the add pass
   * factor 1 and carry the digit.
   */
  method MulAddPass(result: array<nat>, factor: nat, addend: nat, base: nat)
    modifies result
    requires 2 <= base && factor < base && addend < base && IsWords(result[..], base)
    ensures IsWords(result[..], base)
    ensures ToNat(result[..], base) ==
      (ToNat(old(result[..]), base) * factor + addend) % Pow(base, result.Length)
  {
    ghost var r0 := result[..];
    var n := result.Length;
    var carry: nat := addend;
    for j := 0 to n
      invariant carry < base && forall k :: 0 <= k < n ==> result[k] < base
      invariant result[j..] == r0[j..]
      invariant ToNat(result[..j], base) + carry * Pow(base, j) ==
        ToNat(r0[..j], base) * factor + addend
    {
      assert result[j] == r0[j];
      var step := MulAddWords(0, carry, result[j], factor, base);
      ghost var done := result[..j];
      result[j] := step.0;
      assert result[..j + 1] == done + [step.0];
      assert ToNat(result[..j + 1], base) + step.1 * Pow(base, j + 1) ==
             ToNat(r0[..j + 1], base) * factor + addend by {
        PassStep(done, r0, j, carry, step.0, step.1, factor, addend, base);
      }
      carry := step.1;
    }
    assert result[..n] == result[..] && r0[..n] == r0;
    PassFinish(result[..], r0, carry, factor, addend, base);
  }

  /** After a pass: the carry out of the top is what the modulus drops. */
  lemma PassFinish(fin: seq<nat>, r0: seq<nat>, carry: nat, factor: nat, addend: nat, base: nat)
    requires 1 <= base && IsWords(fin, base) && |fin| == |r0|
    requires ToNat(fin, base) + carry * Pow(base, |fin|) == ToNat(r0, base) * factor + addend
    ensures ToNat(fin, base) == (ToNat(r0, base) * factor + addend) % Pow(base, |fin|)
  {
    ToNatBound(fin, base);
    ModUnique(ToNat(r0, base) * factor + addend, carry, ToNat(fin, base), Pow(base, |fin|));
  }

  /** The two passes for digit d take the value modulo m one Horner step further. */
  lemma DigitStep(front: seq<nat>, d: nat, radix: nat, m: nat, before: nat, scaled: nat, after: nat)
    requires 0 < m && before == RadixCodec.Horner(front, radix) % m
    requires scaled == (before * radix + 0) % m && after == (scaled * 1 + d) % m
    ensures after == RadixCodec.Horner(front + [d], radix) % m
  {
    RadixCodec.HornerModStep(front, d, radix, m);
    ModAddMod(before * radix, d, m);
  }

  /**
   * One digit of from_digits: the multiply pass by the radix and the add
   * pass of the digit turn the words of front into the words of front + [d].
   */
  method PushDigit(result: array<nat>, ghost front: seq<nat>, d: nat, rv: nat, base: nat)
    modifies result
    requires 2 <= base && rv < base && d < base && IsWords(result[..], base)
    requires ToNat(result[..], base) == RadixCodec.Horner(front, rv) % Pow(base, result.Length)
    ensures IsWords(result[..], base)
    ensures ToNat(result[..], base) == RadixCodec.Horner(front + [d], rv) % Pow(base, result.Length)
  {
    ghost var m := Pow(base, result.Length);
    PowPositive(base, result.Length);
    ghost var before := ToNat(result[..], base);
    MulAddPass(result, rv, 0, base);
    ghost var scaled := ToNat(result[..], base);
    MulAddPass(result, 1, d, base);
    DigitStep(front, d, rv, m, before, scaled, ToNat(result[..], base));
  }

  /**
   * `from_digits<T, RADIX>`: bits = required_bits_radix<RADIX, D>; for
   * each digit, most significant first, multiply the words by the radix
   * and add the digit. The result is the digits' value modulo base^n, and
   * that value itself when every digit is below the radix.
   */
  method FromDigits(radix: RadixCodec.Radix, digits: seq<nat>, width: Width) returns (r: BigUint)
    requires 1 <= RequiredBitsRadix(radix, |digits|)
    requires forall i :: 0 <= i < |digits| ==> digits[i] < 256
    ensures r.Valid() && r.bits == RequiredBitsRadix(radix, |digits|) && r.width == width
    ensures r.Value() == RadixCodec.Horner(digits, radix.Value()) % Pow(Base(width), |r.words|)
    ensures RadixCodec.IsDigits(digits, radix.Value()) ==>
      r.Value() == RadixCodec.Horner(digits, radix.Value())
  {
    var bits := RequiredBitsRadix(radix, |digits|);
    var n := RequiredElements(bits, width);
    var base := Base(width);
    var rv := radix.Value();
    BaseAtLeast256(width);
    var m := Pow(base, n);
    PowPositive(base, n);
    var result := new nat[n](_ => 0);
    ToNatZeros(result[..], base);
    ModUnique(0, 0, 0, m);
    assert digits[..0] == [];
    for i := 0 to |digits|
      invariant IsWords(result[..], base)
      invariant ToNat(result[..], base) == RadixCodec.Horner(digits[..i], rv) % m
    {
      PushDigit(result, digits[..i], digits[i], rv, base);
      assert digits[..i + 1] == digits[..i] + [digits[i]];
    }
    assert digits[..|digits|] == digits;
    r := BigUint(bits, width, result[..]);
    if RadixCodec.IsDigits(digits, rv) {
      var h := RadixCodec.Horner(digits, rv);
      assert h < m by {
        RadixCodec.HornerBound(digits, rv);
        Capacity(bits, width);
      }
      ModUnique(h, 0, h, m);
    }
  }

  // ---------------------------------------------------------------------
  // logarithm

  /** The exponent counter cannot wrap: e + 1 < base^(e+1) <= value < 2^V. */
  lemma ExponentFits(next: BigUint, e: nat, b: nat, value: BigUint)
    requires next.Valid() && value.Fits() && next.bits == value.bits && next.width == value.width
    requires 2 <= b && Pow(b, e + 1) <= value.Value()
    requires next.Value() == (e + 1) % Pow(Base(next.width), |next.words|)
    ensures next.Value() == e + 1
  {
    ExponentBelowPow(b, e + 1);
    Capacity(next.bits, next.width);
    ModUnique(e + 1, 0, e + 1, Pow(Base(next.width), |next.words|));
  }

  /** The candidate cannot wrap: result * base <= value * base < 2^(V + B). */
  lemma CandidateFits(next: BigUint, p: nat, base: BigUint, value: BigUint)
    requires next.Valid() && base.Fits() && value.Fits() && next.width == value.width
    requires next.bits == value.bits + base.bits && p <= value.Value()
    requires next.Value() == (p * base.Value()) % Pow(Base(next.width), |next.words|)
    ensures next.Value() == p * base.Value()
  {
    ProductBelow(p, base.Value(), value.bits, base.bits);
    Capacity(next.bits, next.width);
    MulNonNegative(p, base.Value());
    ModUnique(p * base.Value(), 0, p * base.Value(), Pow(Base(next.width), |next.words|));
  }

  /**
   * `logarithm(base, value)` on bigints: the candidate base^(e+1) lives in
   * V + B bits and grows by multiply_in_place until it passes value; the
   * exponent counts up by add_in_place. For operands that fit their
   * widths the result is the floor logarithm, and 0 when value is 0 or 1
   * or below base.
   */
  method Logarithm(base: BigUint, value: BigUint) returns (exponent: BigUint)
    requires base.Valid() && value.Valid() && base.width == value.width
    requires base.Fits() && value.Fits()
    requires Elementary.LogarithmTerminates(base.Value(), value.Value())
    ensures exponent.Valid() && exponent.bits == value.bits && exponent.width == value.width
    ensures 2 <= base.Value() && 1 <= value.Value() ==>
      exponent.Value() == FloorLog(base.Value(), value.Value())
    ensures value.Value() <= 1 || value.Value() < base.Value() ==> exponent.Value() == 0
  {
    var w := value.width;
    var b, v := base.Value(), value.Value();
    BaseAtLeast256(w);
    var one := Small(value.bits, w, 1);
    var isOne := Equal(value, one);
    if isOne {
      return Small(value.bits, w, 0);
    }
    exponent := Small(value.bits, w, 0);
    var wide := value.bits + base.bits;
    RequiredElementsMonotone(base.bits, wide, w);
    var result := Of(base, wide);
    var more := LessOrEqual(result, value);
    ghost var e: nat := 0;
    assert Pow(b, 1) == b;
    while more
      invariant result.Valid() && result.bits == wide && result.width == w
      invariant exponent.Valid() && exponent.bits == value.bits && exponent.width == w
      invariant exponent.Value() == e && result.Value() == Pow(b, e + 1)
      invariant more <==> result.Value() <= v
      invariant e == 0 || Pow(b, e) <= v
      invariant 2 <= b || v < result.Value()
      decreases if more then v + 1 - result.Value() else 0
    {
      ghost var p := result.Value();
      exponent := AddInPlace(exponent, one);
      ExponentFits(exponent, e, b, value);
      RequiredElementsMonotone(base.bits, wide, w);
      result := MultiplyInPlace(result, base);
      CandidateFits(result, p, base, value);
      assert p * b == Pow(b, e + 2) by {
        PowStep(b, e + 2);
      }
      assert p < result.Value() by {
        PowStrictlyMonotone(b, e + 1, e + 2);
      }
      e := e + 1;
      more := LessOrEqual(result, value);
    }
    if 2 <= b && 1 <= v {
      FloorLogUnique(b, v, e);
    }
  }

  /** The static check beside logarithm: log10(2^256 - 1) = 77. */
  lemma LogarithmOfMax256()
    ensures FloorLog(10, Pow(2, 256) - 1) == 77
  {
    PowersOfTwo();
    PowersOfTen();
    FloorLogUnique(10, Pow(2, 256) - 1, 77);
  }

  /**
   * The static checks beside multiply on plain numbers, as word values in
   * base 256: [123, 238] * [141, 25, 1] = [191, 92, 72, 6, 1], and
   * 128 * 128 = [0, 64].
   */
  lemma MultiplyTestValues()
    ensures ToNat([123, 238], 256) == 61051 && ToNat([141, 25, 1], 256) == 72077
    ensures ToNat([191, 92, 72, 6, 1], 256) == 61051 * 72077
    ensures ToNat([0, 64], 256) == 128 * 128
  {
    assert Pow(256, 1) == 256 && Pow(256, 2) == 65536;
    assert Pow(256, 3) == 16777216 && Pow(256, 4) == 4294967296;
    assert [123, 238][..1] == [123] && [141, 25, 1][..2] == [141, 25] && [141, 25][..1] == [141];
    assert [0, 64][..1] == [0];
    var p := [191, 92, 72, 6, 1];
    assert p[..4] == [191, 92, 72, 6] && p[..4][..3] == [191, 92, 72];
    assert p[..4][..3][..2] == [191, 92] && p[..4][..3][..2][..1] == [191];
    assert [123][..0] == [] && [141][..0] == [] && [0][..0] == [] && [191][..0] == [];
    assert ToNat([191, 92], 256) == 23743;
    assert ToNat([191, 92, 72], 256) == 4742335;
    assert ToNat([191, 92, 72, 6], 256) == 105405631;
  }

  /**
   * The static checks beside multiply: [128] * [128] = [0, 64] at 8 and 8
   * bits, and [123, 238] * [141, 25, 1] = [191, 92, 72, 6, 1] at 16 and 24.
   */
  method MultiplyExamples() returns (r1: BigUint, r2: BigUint)
    ensures r1.bits == 16 && r1.words == [0, 64]
    ensures r2.bits == 40 && r2.words == [191, 92, 72, 6, 1]
  {
    MultiplyTestValues();
    assert [128][..0] == [];
    assert Pow(2, 8) == 256 && Pow(2, 16) == 65536 && Pow(2, 24) == 16777216;
    var half := BigUint(8, 8, [128]);
    r1 := Multiply(half, half);
    ToNatInjective(r1.words, [0, 64], 256);
    var x, y := BigUint(16, 8, [123, 238]), BigUint(24, 8, [141, 25, 1]);
    r2 := Multiply(x, y);
    ToNatInjective(r2.words, [191, 92, 72, 6, 1], 256);
  }

  // ---------------------------------------------------------------------
  // Operators

  /**
   * `a + b` on two bigints of one width: the as-written add, which reads
   * only the low count - 1 words of each operand and is exact when BITS is
   * a multiple of W.
   */
  method Plus(a: BigUint, b: BigUint) returns (r: BigUint)
    requires a.Valid() && b.Valid() && a.width == b.width && a.bits == b.bits
    ensures r.Valid() && r.bits == a.bits + 1 && r.width == a.width && 1 <= |r.words|
    ensures r.Value() == a.Value() % Pow(Base(a.width), |r.words| - 1) +
                         b.Value() % Pow(Base(a.width), |r.words| - 1)
    ensures a.bits % a.width == 0 ==> r.Value() == a.Value() + b.Value()
  {
    r := Add(a, b);
  }

  /**
   * `a + w` for a single word w: w becomes a one-word bigint of W bits,
   * and the as-written add is exact when max(BITS, W) is a multiple of W.
   */
  method PlusWord(a: BigUint, w: nat) returns (r: BigUint)
    requires a.Valid() && w < Base(a.width)
    ensures r.Valid() && r.bits == Max(a.bits, a.width) + 1 && r.width == a.width
    ensures 2 <= |r.words| && r.Value() == a.Value() % Pow(Base(a.width), |r.words| - 1) + w
    ensures Max(a.bits, a.width) % a.width == 0 ==> r.Value() == a.Value() + w
  {
    var bw := Small(a.width, a.width, w);
    r := Add(a, bw);
    AtLeastTwoWords(r.bits, a.width);
    WordBelowUpperWords(w, a.width, |r.words|);
  }

  /** More bits than one word needs at least two words. */
  lemma AtLeastTwoWords(bits: nat, w: Width)
    requires w < bits
    ensures 2 <= RequiredElements(bits, w)
  {
    var n := RequiredElements(bits, w);
    if n <= 1 {
      MulLe(n, 1, w);
    }
  }

  /** A single word is below the value of n - 1 >= 1 words. */
  lemma WordBelowUpperWords(x: nat, w: Width, n: nat)
    requires x < Base(w) && 2 <= n
    ensures x % Pow(Base(w), n - 1) == x
  {
    var p := Pow(Base(w), n - 1);
    assert Pow(Base(w), 1) == Base(w);
    PowMonotone(Base(w), 1, n - 1);
    ModUnique(x, 0, x, p);
  }

  /** `a * b`: multiply. */
  method Times(a: BigUint, b: BigUint) returns (r: BigUint)
    requires a.Valid() && b.Valid() && a.width == b.width
    ensures r.Valid() && r.bits == a.bits + b.bits && r.width == a.width
    ensures r.Value() == (a.Value() * b.Value()) % Pow(Base(a.width), |r.words|)
    ensures a.Fits() && b.Fits() ==> r.Value() == a.Value() * b.Value()
  {
    r := Multiply(a, b);
  }

  /** `a * w` for a single word w. */
  method TimesWord(a: BigUint, w: nat) returns (r: BigUint)
    requires a.Valid() && w < Base(a.width)
    ensures r.Valid() && r.bits == a.bits + a.width && r.width == a.width
    ensures r.Value() == (a.Value() * w) % Pow(Base(a.width), |r.words|)
    ensures a.Fits() ==> r.Value() == a.Value() * w
  {
    var bw := Small(a.width, a.width, w);
    assert bw.Fits();
    r := Multiply(a, bw);
  }
}
