/** APR_ALIGN on unsigned words of any width. */
module Align {

  function Pow2(k: nat): (p: nat)
    ensures p >= 1
  {
    if k == 0 then 1 else 2 * Pow2(k - 1)
  }

  /** x & y on words of w bits: bit by bit, lowest bit first. */
  function And(w: nat, x: nat, y: nat): (r: nat)
    ensures r < Pow2(w)
  {
    if w == 0 then 0 else 2 * And(w - 1, x / 2, y / 2) + (if x % 2 == 1 && y % 2 == 1 then 1 else 0)
  }

  /** ~x on words of w bits, for x that fits one. */
  function Not(w: nat, x: nat): nat
    requires x < Pow2(w)
  {
    Pow2(w) - 1 - x
  }

  /** x + y on words of w bits, which wraps around. */
  function Add(w: nat, x: nat, y: nat): (r: nat)
    requires x < Pow2(w) && y < Pow2(w)
    ensures r < Pow2(w)
  {
    if x + y < Pow2(w) then x + y else x + y - Pow2(w)
  }

  /** Bit k of x, bit 0 being the lowest. */
  predicate Bit(x: nat, k: nat) {
    if k == 0 then x % 2 == 1 else Bit(x / 2, k - 1)
  }

  lemma {:induction false} AndIsBitwise(w: nat, x: nat, y: nat, k: nat)
    ensures Bit(And(w, x, y), k) <==> k < w && Bit(x, k) && Bit(y, k)
  {
    if w == 0 {
      NoBits(k);
    } else if k > 0 {
      AndIsBitwise(w - 1, x / 2, y / 2, k - 1);
    }
  }

  lemma {:induction false} NoBits(k: nat)
    ensures !Bit(0, k)
  {
    if k > 0 {
      NoBits(k - 1);
    }
  }

  lemma {:induction false} NotIsBitwise(w: nat, x: nat, k: nat)
    requires x < Pow2(w)
    ensures Bit(Not(w, x), k) <==> k < w && !Bit(x, k)
  {
    if w == 0 {
      NoBits(k);
    } else {
      assert Not(w, x) == 2 * Not(w - 1, x / 2) + 1 - x % 2;
      if k > 0 {
        NotIsBitwise(w - 1, x / 2, k - 1);
      }
    }
  }

  /** APR_ALIGN */
  function AprAlign(w: nat, size: nat, boundary: nat): (r: nat)
    requires size < Pow2(w) && 1 <= boundary < Pow2(w)
    ensures r < Pow2(w)
  {
    And(w, Add(w, size, boundary - 1), Not(w, boundary - 1))
  }

  /** APR_ALIGN_DEFAULT */
  function AlignDefault(w: nat, size: nat): nat
    requires size < Pow2(w) && 8 < Pow2(w)
  {
    AprAlign(w, size, 8)
  }

  /** The least multiple of b that is not below size. */
  ghost predicate LeastMultiple(m: nat, size: nat, b: nat)
    requires b > 0
  {
    m % b == 0 && size <= m && forall n: nat :: n % b == 0 && size <= n ==> m <= n
  }

  /** What fits a word of top values, zero for what does not. */
  function Fitted(m: nat, top: nat): nat {
    if m < top then m else 0
  }

  // ---- words and powers of two ----

  lemma {:induction false} Pow2Divides(k: nat, w: nat)
    requires k <= w
    ensures Pow2(w) % Pow2(k) == 0
  {
    if k == 0 {
      if w > 0 { Pow2Divides(0, w - 1); }
    } else {
      Pow2Divides(k - 1, w - 1);
      var a, b := Pow2(w - 1), Pow2(k - 1);
      Twice(a, b);
    }
  }

  lemma {:induction false} Pow2Grows(k: nat, w: nat)
    requires k <= w
    ensures Pow2(k) <= Pow2(w)
  {
    if k < w {
      Pow2Grows(k, w - 1);
    }
  }

  lemma Twice(a: nat, b: nat)
    requires b > 0
    ensures (2 * a) / (2 * b) == a / b && (2 * a) % (2 * b) == 2 * (a % b)
  {
    var q, r := a / b, a % b;
    assert 2 * a == (2 * b) * q + 2 * r;
    DivUnique(2 * a, 2 * b, q, 2 * r);
  }

  lemma DivUnique(a: nat, b: nat, q: nat, r: nat)
    requires b > 0 && a == b * q + r && r < b
    ensures a / b == q && a % b == r
  {
    var q', r' := a / b, a % b;
    assert b * (q - q') == r' - r by { Distribute(b, q, q'); }
    if q > q' { AtLeastOnce(b, q - q'); }
    if q < q' { AtLeastOnce(b, q' - q); Distribute(b, q', q); }
  }

  lemma Distribute(b: nat, q: nat, p: nat)
    ensures b * (q - p) == b * q - b * p
  {
  }

  lemma Associate(a: nat, b: nat, c: nat)
    ensures a * b * c == a * (b * c)
  {
  }

  lemma AtLeastOnce(b: nat, d: nat)
    requires d >= 1
    ensures b * d >= b
  {
  }

  lemma AndLowBit(w: nat, x: nat, half: nat)
    requires w > 0
    ensures And(w, x, 2 * half) == 2 * And(w - 1, x / 2, half)
    ensures And(w, x, 2 * half + 1) == 2 * And(w - 1, x / 2, half) + x % 2
  {
    assert (2 * half) / 2 == half && (2 * half + 1) / 2 == half;
  }

  lemma {:induction false} MaskWithOnes(w: nat, x: nat)
    requires x < Pow2(w)
    ensures And(w, x, Not(w, 0)) == x
  {
    if w > 0 {
      MaskWithOnes(w - 1, x / 2);
      AndLowBit(w, x, Not(w - 1, 0));
      assert Not(w, 0) == 2 * Not(w - 1, 0) + 1;
    }
  }

  lemma MaskOneMoreBit(w: nat, k: nat, x: nat, rest: nat)
    requires 0 < k <= w && Pow2(k - 1) <= Pow2(w - 1)
    requires And(w - 1, x / 2, Not(w - 1, Pow2(k - 1) - 1)) == rest
    ensures And(w, x, Not(w, Pow2(k) - 1)) == 2 * rest
  {
    var half := Not(w - 1, Pow2(k - 1) - 1);
    AndLowBit(w, x, half);
    assert Not(w, Pow2(k) - 1) == 2 * half;
  }

  /** Masking with the complement of 2^k - 1 splits off the low k bits. */
  lemma {:induction false} MaskSplits(w: nat, k: nat, x: nat) returns (q: nat, r: nat)
    requires k <= w && x < Pow2(w)
    ensures Pow2(k) - 1 < Pow2(w)
    ensures x == Pow2(k) * q + r && r < Pow2(k) && And(w, x, Not(w, Pow2(k) - 1)) == x - r
  {
    Pow2Grows(k, w);
    if k > 0 {
      q, r := MaskSplits(w - 1, k - 1, x / 2);
      MaskOneMoreBit(w, k, x, x / 2 - r);
      Associate(2, Pow2(k - 1), q);
      r := 2 * r + x % 2;
    } else {
      MaskWithOnes(w, x);
      q, r := x, 0;
    }
  }

  /** Masking with the complement of 2^k - 1 takes off the remainder. */
  lemma MaskClears(w: nat, k: nat, x: nat)
    requires k <= w && x < Pow2(w)
    ensures Pow2(k) - 1 < Pow2(w)
    ensures And(w, x, Not(w, Pow2(k) - 1)) == x - x % Pow2(k)
  {
    var q, r := MaskSplits(w, k, x);
    DivUnique(x, Pow2(k), q, r);
  }

  // ---- APR_ALIGN ----

  /** size + b - 1 with its remainder taken off is the least multiple of b not below size. */
  lemma RoundUp(size: nat, b: nat)
    requires b > 0
    ensures var s := size + b - 1; LeastMultiple(s - s % b, size, b)
  {
    var s := size + b - 1;
    var q := s / b;
    assert s == b * q + s % b;
    DivUnique(b * q, b, q, 0);
    forall n: nat | n % b == 0 && size <= n
      ensures b * q <= n
    {
      NoMultipleBetween(b, q, n / b, size);
    }
  }

  lemma NoMultipleBetween(b: nat, q: nat, p: nat, size: nat)
    requires b > 0 && b * q < size + b && size <= b * p
    ensures b * q <= b * p
  {
    if p < q {
      Distribute(b, q, p);
      AtLeastOnce(b, q - p);
    }
  }

  /** Rounding down after the addition wrapped, top being a multiple of b. */
  lemma RoundDownWrapped(size: nat, b: nat, q: nat)
    requires b > 0 && size < b * q
    ensures var top, s := b * q, size + b - 1;
      var t := if s < top then s else s - top;
      s - s % b <= top && t - t % b == Fitted(s - s % b, top)
  {
    var top, s := b * q, size + b - 1;
    if s >= top {
      DivUnique(s, b, q, s - top);
      DivUnique(s - top, b, 0, s - top);
    }
  }

  lemma RoundUpWrapped(size: nat, b: nat, q: nat, t: nat, top: nat) returns (m: nat)
    requires b > 0 && size < top == b * q
    requires t == if size + (b - 1) < top then size + (b - 1) else size + (b - 1) - top
    ensures LeastMultiple(m, size, b) && m <= top && t - t % b == Fitted(m, top)
  {
    RoundUp(size, b);
    RoundDownWrapped(size, b, q);
    m := size + b - 1 - (size + b - 1) % b;
  }

  lemma AlignByMask(w: nat, size: nat, k: nat) returns (q: nat)
    requires size < Pow2(w) && k < w
    ensures Pow2(k) < Pow2(w) && Pow2(w) == Pow2(k) * q
    ensures var s := Add(w, size, Pow2(k) - 1); AprAlign(w, size, Pow2(k)) == s - s % Pow2(k)
  {
    Pow2Grows(k, w - 1);
    q := Pow2Ratio(k, w);
    MaskClears(w, k, Add(w, size, Pow2(k) - 1));
  }

  /**
   * On every word width and for every power of two that fits, APR_ALIGN is the least multiple of the
   * boundary not below size if that fits the word, and zero if it does not.
   */
  lemma AlignIsLeastMultiple(w: nat, size: nat, k: nat) returns (m: nat)
    requires size < Pow2(w) && k < w
    ensures Pow2(k) < Pow2(w) && LeastMultiple(m, size, Pow2(k)) && m <= Pow2(w)
    ensures AprAlign(w, size, Pow2(k)) == Fitted(m, Pow2(w))
  {
    var q := AlignByMask(w, size, k);
    m := RoundUpWrapped(size, Pow2(k), q, Add(w, size, Pow2(k) - 1), Pow2(w));
  }

  lemma ZeroIsLeast(b: nat)
    requires b > 0
    ensures LeastMultiple(0, 0, b)
  {
  }

  /** The result is below size exactly when the least multiple does not fit, so the test detects overflow. */
  lemma OverflowIsVisible(w: nat, size: nat, k: nat, m: nat)
    requires size < Pow2(w) && k < w && LeastMultiple(m, size, Pow2(k))
    ensures Pow2(k) < Pow2(w)
    ensures AprAlign(w, size, Pow2(k)) < size <==> m >= Pow2(w)
    ensures AprAlign(w, size, Pow2(k)) < size ==> AprAlign(w, size, Pow2(k)) == 0
  {
    var n := AlignIsLeastMultiple(w, size, k);
    ZeroIsLeast(Pow2(k));
  }

  lemma MultipleOfMultiple(m: nat, a: nat, b: nat, c: nat)
    requires a > 0 && c > 0 && b == a * c && m % b == 0
    ensures m % a == 0
  {
    assert m == b * (m / b) == a * (c * (m / b)) by { Associate(a, c, m / b); }
    DivUnique(m, a, c * (m / b), 0);
  }

  lemma Pow2Ratio(j: nat, k: nat) returns (c: nat)
    requires j <= k
    ensures c > 0 && Pow2(k) == Pow2(j) * c
  {
    Pow2Divides(j, k);
    Pow2Grows(j, k);
    c := Pow2(k) / Pow2(j);
  }

  lemma NestedUp(top: nat, size: nat, a: nat, b: nat, c: nat, m: nat, n: nat, p: nat)
    requires a > 0 && c > 0 && b == a * c
    requires LeastMultiple(m, size, a) && LeastMultiple(p, size, b) && LeastMultiple(n, Fitted(m, top), b)
    requires size < top && p <= top
    ensures Fitted(n, top) == Fitted(p, top)
  {
    MultipleOfMultiple(p, a, b, c);
    ZeroIsLeast(b);
  }

  lemma NestedDown(top: nat, size: nat, a: nat, b: nat, c: nat, m: nat, n: nat)
    requires b > 0 && c > 0 && a == b * c
    requires LeastMultiple(m, size, a) && LeastMultiple(n, Fitted(m, top), b) && top > 0
    ensures Fitted(n, top) == Fitted(m, top)
  {
    ZeroIsLeast(b);
    MultipleOfMultiple(m, b, a, c);
  }

  /** Aligning to 2^j and then to 2^k is aligning once, to the larger of the two, even when a sum wraps. */
  lemma NestedAlign(w: nat, size: nat, j: nat, k: nat)
    requires size < Pow2(w) && j < w && k < w
    ensures Pow2(j) < Pow2(w) && Pow2(k) < Pow2(w)
    ensures AprAlign(w, AprAlign(w, size, Pow2(j)), Pow2(k))
      == AprAlign(w, size, if j <= k then Pow2(k) else Pow2(j))
  {
    var m := AlignIsLeastMultiple(w, size, j);
    var n := AlignIsLeastMultiple(w, AprAlign(w, size, Pow2(j)), k);
    if j <= k {
      var p := AlignIsLeastMultiple(w, size, k);
      var c := Pow2Ratio(j, k);
      NestedUp(Pow2(w), size, Pow2(j), Pow2(k), c, m, n, p);
    } else {
      var c := Pow2Ratio(k, j);
      NestedDown(Pow2(w), size, Pow2(j), Pow2(k), c, m, n);
    }
  }

  /** APR_ALIGN_DEFAULT rounds up to a multiple of eight. */
  lemma DefaultIsEight(w: nat, size: nat) returns (m: nat)
    requires size < Pow2(w) && 3 < w
    ensures 8 < Pow2(w) && LeastMultiple(m, size, 8) && AlignDefault(w, size) == Fitted(m, Pow2(w))
  {
    m := AlignIsLeastMultiple(w, size, 3);
  }

  ghost predicate IsPow2(b: nat) {
    exists k: nat :: b == Pow2(k)
  }

  /** b & ~(b - 1) is b only for powers of two. */
  lemma {:induction false} LowestBitAlone(w: nat, b: nat)
    requires 1 <= b < Pow2(w)
    ensures And(w, b, Not(w, b - 1)) == b ==> IsPow2(b)
  {
    var n := Not(w, b - 1);
    if b % 2 == 1 {
      if And(w, b, n) == b {
        assert n / 2 == Not(w - 1, b / 2);
        NothingInCommon(w - 1, b / 2);
        assert b == 1 == Pow2(0);
      }
    } else {
      assert n / 2 == Not(w - 1, b / 2 - 1);
      LowestBitAlone(w - 1, b / 2);
      if And(w, b, n) == b {
        var k: nat :| b / 2 == Pow2(k);
        assert b == Pow2(k + 1);
      }
    }
  }

  lemma {:induction false} NothingInCommon(w: nat, x: nat)
    requires x < Pow2(w)
    ensures And(w, x, Not(w, x)) == 0
  {
    if w > 0 {
      NothingInCommon(w - 1, x / 2);
    }
  }

  lemma {:induction false} Pow2Below(k: nat, w: nat)
    requires Pow2(k) < Pow2(w)
    ensures k < w
  {
    if w <= k {
      Pow2Grows(w, k);
    }
  }

  /** APR_ALIGN does what it is for, at every size, if and only if the boundary is a power of two. */
  lemma PowersOfTwoOnly(w: nat, b: nat)
    requires 1 <= b < Pow2(w)
    ensures IsPow2(b) <==> forall size: nat, m: nat ::
      size < Pow2(w) && LeastMultiple(m, size, b) ==> AprAlign(w, size, b) == Fitted(m, Pow2(w))
  {
    if IsPow2(b) {
      var k: nat :| b == Pow2(k);
      Pow2Below(k, w);
      forall size: nat, m: nat | size < Pow2(w) && LeastMultiple(m, size, b)
        ensures AprAlign(w, size, b) == Fitted(m, Pow2(w))
      {
        var n := AlignIsLeastMultiple(w, size, k);
      }
    } else {
      RoundUp(1, b);
      assert LeastMultiple(b, 1, b) && 1 < Pow2(w);
      LowestBitAlone(w, b);
      DivUnique(b, Pow2(w), 0, b);
    }
  }

  // ---- a boundary of a narrower type ----

  /**
   * APR_ALIGN when the boundary has an unsigned type of only v bits, not subject to promotion: its
   * complement is taken in v bits and then extended with zeros.
   */
  function AlignNarrow(w: nat, v: nat, size: nat, boundary: nat): nat
    requires size < Pow2(w) && 1 <= boundary < Pow2(v) <= Pow2(w)
  {
    And(w, Add(w, size, boundary - 1), Not(v, boundary - 1))
  }

  /** Only the low v bits of x meet a mask of v bits. */
  lemma {:induction false} AndNarrow(w: nat, v: nat, x: nat, hi: nat, lo: nat, y: nat)
    requires v <= w && y < Pow2(v) && x == Pow2(v) * hi + lo && lo < Pow2(v)
    ensures And(w, x, y) == And(v, lo, y)
  {
    if v > 0 {
      var t := Pow2(v - 1) * hi;
      Associate(2, Pow2(v - 1), hi);
      assert x == 2 * t + lo;
      AndNarrow(w - 1, v - 1, x / 2, hi, lo / 2, y / 2);
    } else {
      AndZero(w, x);
    }
  }

  lemma {:induction false} AndZero(w: nat, x: nat)
    ensures And(w, x, 0) == 0
  {
    if w > 0 {
      AndZero(w - 1, x / 2);
    }
  }

  /** b divides what lies above lo, so both leave the same remainder. */
  lemma SameRemainder(b: nat, c: nat, hi: nat, lo: nat)
    requires b > 0
    ensures (b * c * hi + lo) % b == lo % b
  {
    var q, r := lo / b, lo % b;
    Associate(b, c, hi);
    Distribute2(b, c * hi, q);
    DivUnique(b * c * hi + lo, b, c * hi + q, r);
  }

  lemma Distribute2(b: nat, p: nat, q: nat)
    ensures b * (p + q) == b * p + b * q
  {
  }

  lemma DivMod(s: nat, t: nat) returns (hi: nat, lo: nat)
    requires t > 0
    ensures s == t * hi + lo && lo < t && lo == s % t && (lo == s <==> s < t)
  {
    hi, lo := s / t, s % t;
    if s < t { DivUnique(s, t, 0, s); }
  }

  /** Masks of v and of w bits take the same remainder off, the former off the low v bits alone. */
  lemma NarrowMask(w: nat, v: nat, s: nat, k: nat) returns (lo: nat, r: nat)
    requires k < v <= w && s < Pow2(w) && Pow2(k) < Pow2(v) <= Pow2(w)
    ensures And(w, s, Not(v, Pow2(k) - 1)) == lo - r && And(w, s, Not(w, Pow2(k) - 1)) == s - r
    ensures lo == s % Pow2(v) && r == lo % Pow2(k) && (lo == s <==> s < Pow2(v))
  {
    var hi, c;
    hi, lo := DivMod(s, Pow2(v));
    AndNarrow(w, v, s, hi, lo, Not(v, Pow2(k) - 1));
    MaskClears(v, k, lo);
    MaskClears(w, k, s);
    c := Pow2Ratio(k, v);
    SameRemainder(Pow2(k), c, hi, lo);
    r := lo % Pow2(k);
  }

  lemma NarrowByMask(w: nat, v: nat, size: nat, k: nat) returns (s: nat, lo: nat, r: nat)
    requires k < v <= w && size < Pow2(w) && Pow2(k) < Pow2(v) <= Pow2(w)
    ensures s == Add(w, size, Pow2(k) - 1) && (lo == s <==> s < Pow2(v))
    ensures lo == s % Pow2(v) && r == lo % Pow2(k)
    ensures AlignNarrow(w, v, size, Pow2(k)) == lo - r
    ensures AprAlign(w, size, Pow2(k)) == s - r
  {
    s := Add(w, size, Pow2(k) - 1);
    lo, r := NarrowMask(w, v, s, k);
  }

  /** What a narrow boundary leaves of the sum: its low v bits with the remainder taken off. */
  lemma NarrowValue(w: nat, v: nat, size: nat, k: nat) returns (low: nat)
    requires k < v <= w && size < Pow2(w)
    ensures Pow2(k) < Pow2(v) <= Pow2(w) && low == Add(w, size, Pow2(k) - 1) % Pow2(v)
    ensures AlignNarrow(w, v, size, Pow2(k)) == low - low % Pow2(k)
  {
    Pow2Grows(k, v - 1);
    Pow2Grows(v, w);
    var s, r;
    s, low, r := NarrowByMask(w, v, size, k);
  }

  /** The narrow boundary aligns as a boundary of full width does if and only if the sum fits its type. */
  lemma NarrowBoundary(w: nat, v: nat, size: nat, k: nat)
    requires k < v <= w && size < Pow2(w)
    ensures Pow2(k) < Pow2(v) <= Pow2(w)
    ensures AlignNarrow(w, v, size, Pow2(k)) == AprAlign(w, size, Pow2(k))
      <==> Add(w, size, Pow2(k) - 1) < Pow2(v)
  {
    Pow2Grows(k, v - 1);
    Pow2Grows(v, w);
    var s, lo, r := NarrowByMask(w, v, size, k);
  }
}
