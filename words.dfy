/**
 * The meaning of a multi-word integer: a little-endian sequence of words
 * (index 0 least significant) in a given word base denotes the natural
 * number sum of s[i] * base^i. For W-bit words the base is 2^W.
 */
module Words {
  import opened Arith

  /** The value denoted by the little-endian words s in the given base. */
  function ToNat(s: seq<nat>, base: nat): nat
  {
    if |s| == 0 then 0 else ToNat(s[..|s| - 1], base) + s[|s| - 1] * Pow(base, |s| - 1)
  }

  /** Every element of s is a digit of the base, that is, fits in one word. */
  predicate IsWords(s: seq<nat>, base: nat)
  {
    forall i :: 0 <= i < |s| ==> s[i] < base
  }

  /** The word at index i, or 0 past the end: a shorter operand is zero-padded. */
  function WordAt(s: seq<nat>, i: nat): nat
  {
    if i < |s| then s[i] else 0
  }

  /** The first n words of s, zero-padded when s is shorter. */
  function Window(s: seq<nat>, n: nat): (r: seq<nat>)
    ensures |r| == n
  {
    seq(n, i requires 0 <= i < n => WordAt(s, i))
  }

  lemma ToNatPrefix(s: seq<nat>, i: nat, base: nat)
    requires i < |s|
    ensures ToNat(s[..i + 1], base) == ToNat(s[..i], base) + s[i] * Pow(base, i)
  {
    assert s[..i + 1][..i] == s[..i];
  }

  /** A value built from n words is below base^n. */
  lemma {:induction false} ToNatBound(s: seq<nat>, base: nat)
    requires IsWords(s, base)
    ensures ToNat(s, base) < Pow(base, |s|)
  {
    if |s| > 0 {
      var n := |s|;
      ToNatBound(s[..n - 1], base);
      var p := Pow(base, n - 1);
      assert Pow(base, n) == base * p;
      MulLe(s[n - 1] + 1, base, p);
      MulDistributes(s[n - 1], 1, p);
    }
  }

  /** Splitting the words at k splits the value at base^k. */
  lemma {:induction false} ToNatSplit(s: seq<nat>, k: nat, base: nat)
    requires k <= |s|
    ensures ToNat(s, base) == ToNat(s[..k], base) + ToNat(s[k..], base) * Pow(base, k)
    decreases |s|
  {
    if |s| == k {
      assert s[..k] == s;
      assert s[k..] == [];
    } else {
      var n := |s|;
      var t := s[..n - 1];
      var x := s[n - 1];
      var hi := s[k..];
      ToNatSplit(t, k, base);
      assert t[..k] == s[..k];
      assert hi[..|hi| - 1] == t[k..];
      var p1, pk := Pow(base, n - 1 - k), Pow(base, k);
      PowAdd(base, n - 1 - k, k);
      SplitArithmetic(ToNat(s[..k], base), ToNat(t[k..], base), x, p1, pk,
                      ToNat(t, base), ToNat(hi, base), ToNat(s, base));
    }
  }

  /** The arithmetic step of ToNatSplit, kept apart from the sequences. */
  lemma SplitArithmetic(lo: nat, a: nat, x: nat, p1: nat, pk: nat, t: nat, hi: nat, s: nat)
    requires t == lo + a * pk && hi == a + x * p1 && s == t + x * (p1 * pk)
    ensures s == lo + hi * pk
  {
    MulAssociates(x, p1, pk);
    MulDistributes(a, x * p1, pk);
  }

  lemma {:induction false} ToNatZeros(s: seq<nat>, base: nat)
    requires forall i :: 0 <= i < |s| ==> s[i] == 0
    ensures ToNat(s, base) == 0
  {
    if |s| > 0 {
      ToNatZeros(s[..|s| - 1], base);
    }
  }

  /** Words that are all zero from index k upward do not contribute. */
  lemma ToNatZeroAbove(s: seq<nat>, k: nat, base: nat)
    requires k <= |s|
    requires forall i :: k <= i < |s| ==> s[i] == 0
    ensures ToNat(s, base) == ToNat(s[..k], base)
  {
    ToNatSplit(s, k, base);
    ToNatZeros(s[k..], base);
  }

  /** Zero padding to at least the operand's length keeps its value. */
  lemma ToNatPadded(s: seq<nat>, n: nat, base: nat)
    requires |s| <= n
    ensures ToNat(Window(s, n), base) == ToNat(s, base)
  {
    var win := Window(s, n);
    assert win[..|s|] == s;
    ToNatZeroAbove(win, |s|, base);
  }

  /** The first n words, zero-padded, denote the value modulo base^n. */
  lemma ToNatWindow(s: seq<nat>, n: nat, base: nat)
    requires 1 <= base && IsWords(s, base)
    ensures ToNat(Window(s, n), base) == ToNat(s, base) % Pow(base, n)
  {
    var win := Window(s, n);
    if n <= |s| {
      assert win == s[..n];
      ToNatSplit(s, n, base);
      ToNatBound(s[..n], base);
      ModUnique(ToNat(s, base), ToNat(s[n..], base), ToNat(s[..n], base), Pow(base, n));
    } else {
      ToNatPadded(s, n, base);
      ToNatBound(s, base);
      PowMonotone(base, |s|, n);
      ModUnique(ToNat(s, base), 0, ToNat(s, base), Pow(base, n));
    }
  }

  /** Equal-length word sequences with equal values are equal. */
  lemma {:induction false} ToNatInjective(s: seq<nat>, t: seq<nat>, base: nat)
    requires 1 <= base && IsWords(s, base) && IsWords(t, base) && |s| == |t|
    requires ToNat(s, base) == ToNat(t, base)
    ensures s == t
  {
    if |s| > 0 {
      var n := |s|;
      var p := Pow(base, n - 1);
      ToNatBound(s[..n - 1], base);
      ToNatBound(t[..n - 1], base);
      ModUnique(ToNat(s, base), s[n - 1], ToNat(s[..n - 1], base), p);
      ModUnique(ToNat(t, base), t[n - 1], ToNat(t[..n - 1], base), p);
      ToNatInjective(s[..n - 1], t[..n - 1], base);
      assert s == s[..n - 1] + [s[n - 1]];
      assert t == t[..n - 1] + [t[n - 1]];
    }
  }

  /**
   * Comparing from the most significant word: if s and t agree above index
   * j and s[j] < t[j], then s denotes the smaller value.
   */
  lemma ToNatLessAt(s: seq<nat>, t: seq<nat>, j: nat, base: nat)
    requires IsWords(s, base) && IsWords(t, base) && |s| == |t| && j < |s|
    requires s[j] < t[j]
    requires forall i :: j < i < |s| ==> s[i] == t[i]
    ensures ToNat(s, base) < ToNat(t, base)
  {
    ToNatSplit(s, j + 1, base);
    ToNatSplit(t, j + 1, base);
    assert s[j + 1..] == t[j + 1..];
    LowerWordsLess(s, t, j, base);
  }

  lemma LowerWordsLess(s: seq<nat>, t: seq<nat>, j: nat, base: nat)
    requires IsWords(s, base) && j < |s| && j < |t| && s[j] < t[j]
    ensures ToNat(s[..j + 1], base) < ToNat(t[..j + 1], base)
  {
    ToNatPrefix(s, j, base);
    ToNatPrefix(t, j, base);
    ToNatBound(s[..j], base);
    var p := Pow(base, j);
    MulLe(s[j] + 1, t[j], p);
    MulDistributes(s[j], 1, p);
  }

  /** Overwriting the word at p changes the value by the difference at base^p. */
  lemma {:induction false} ToNatUpdate(s: seq<nat>, p: nat, w: nat, base: nat)
    requires p < |s|
    ensures ToNat(s[p := w], base) + s[p] * Pow(base, p) == ToNat(s, base) + w * Pow(base, p)
  {
    var n := |s|;
    var t := s[p := w];
    if p == n - 1 {
      assert t[..n - 1] == s[..n - 1];
    } else {
      assert t[..n - 1] == s[..n - 1][p := w];
      ToNatUpdate(s[..n - 1], p, w, base);
    }
  }

  lemma ToNatAppend(s: seq<nat>, x: nat, base: nat)
    ensures ToNat(s + [x], base) == ToNat(s, base) + x * Pow(base, |s|)
  {
    assert (s + [x])[..|s|] == s;
  }

  lemma WindowIsWords(s: seq<nat>, n: nat, base: nat)
    requires 1 <= base && IsWords(s, base)
    ensures IsWords(Window(s, n), base)
  {
  }

  /**
   * One carry step of a loop over words: if the words done so far plus the
   * carry at position i stand for v, and the next word u plus the carry
   * splits into low + carry' * base, then with low stored at position i the
   * words plus carry' at position i + 1 stand for v + u * base^i.
   */
  lemma CarryStep(t: int, c: int, p: int, base: int, low: int, c': int, u: int, v: int)
    requires t + c * p == v && u + c == low + c' * base
    ensures (t + low * p) + c' * (p * base) == v + u * p
  {
    MulAssociates(c', base, p);
    MulDistributes(low, c' * base, p);
    MulDistributes(u, c, p);
  }
}
