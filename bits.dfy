/**
 * Bit arithmetic on `unsigned long` values: powers of two, the bitwise
 * operators the dictionary applies to bucket masks and scan cursors, bit
 * reversal (`rev` of dict.c) and the reverse-binary cursor increment of
 * `dictScan`.
 *
 * A value is a natural number; an operator reads it through its 64 bits,
 * `BitsOf(v, WORD)`, least significant bit first, and `Value` turns bits
 * back into a number.
 */
module Bits {

  /** Bits in an `unsigned long` (LP64). */
  const WORD: nat := 64

  function Pow2(k: nat): (r: nat)
    ensures r >= 1
  {
    if k == 0 then 1 else 2 * Pow2(k - 1)
  }

  /** Any `unsigned long` value. */
  predicate IsWord(v: nat)
  {
    v < Pow2(WORD)
  }

  /** The low `w` bits of `v`, least significant first. */
  function BitsOf(v: nat, w: nat): (s: seq<bool>)
    ensures |s| == w
  {
    if w == 0 then [] else [v % 2 == 1] + BitsOf(v / 2, w - 1)
  }

  /** The number whose binary digits, least significant first, are `s`. */
  function Value(s: seq<bool>): (v: nat)
    ensures v < Pow2(|s|)
  {
    if s == [] then 0 else (if s[0] then 1 else 0) + 2 * Value(s[1..])
  }

  function Ones(n: nat): (s: seq<bool>)
    ensures |s| == n
  {
    seq(n, _ => true)
  }

  function Zeros(n: nat): (s: seq<bool>)
    ensures |s| == n
  {
    seq(n, _ => false)
  }

  function Reversed(s: seq<bool>): (r: seq<bool>)
    ensures |r| == |s|
  {
    if s == [] then [] else Reversed(s[1..]) + [s[0]]
  }

  /** The mask of the low `k` bits: `sizemask` of a table of 2^k buckets. */
  function Mask(k: nat): (m: nat)
  {
    Pow2(k) - 1
  }

  function AndBits(x: seq<bool>, y: seq<bool>): (z: seq<bool>)
    requires |x| == |y|
    ensures |z| == |x|
  {
    seq(|x|, i requires 0 <= i < |x| => x[i] && y[i])
  }

  function OrBits(x: seq<bool>, y: seq<bool>): (z: seq<bool>)
    requires |x| == |y|
    ensures |z| == |x|
  {
    seq(|x|, i requires 0 <= i < |x| => x[i] || y[i])
  }

  function XorBits(x: seq<bool>, y: seq<bool>): (z: seq<bool>)
    requires |x| == |y|
    ensures |z| == |x|
  {
    seq(|x|, i requires 0 <= i < |x| => x[i] != y[i])
  }

  function NotBits(x: seq<bool>): (z: seq<bool>)
    ensures |z| == |x|
  {
    seq(|x|, i requires 0 <= i < |x| => !x[i])
  }

  /** `a & b` on `w`-bit values (`w` = WORD for an unsigned long). */
  function And(a: nat, b: nat, w: nat): nat
  {
    Value(AndBits(BitsOf(a, w), BitsOf(b, w)))
  }

  /** `a | b` on `w`-bit values. */
  function Or(a: nat, b: nat, w: nat): nat
  {
    Value(OrBits(BitsOf(a, w), BitsOf(b, w)))
  }

  /** `a ^ b` on `w`-bit values. */
  function Xor(a: nat, b: nat, w: nat): nat
  {
    Value(XorBits(BitsOf(a, w), BitsOf(b, w)))
  }

  /** `~a` on a `w`-bit value. */
  function Not(a: nat, w: nat): nat
  {
    Value(NotBits(BitsOf(a, w)))
  }

  /** `v++` on a `w`-bit value: 2^w - 1 wraps to 0. */
  function Inc(v: nat, w: nat): (r: nat)
    ensures r < Pow2(w)
  {
    (v + 1) % Pow2(w)
  }

  /** The low `w` bits of `v` in reverse order: bit i moves to bit w-1-i. */
  function Reverse(v: nat, w: nat): (r: nat)
    ensures r < Pow2(w)
  {
    Value(Reversed(BitsOf(v, w)))
  }

  /** `rev(v)` of dict.c: the 64 bits of `v` in reverse order. */
  function Rev(v: nat): (r: nat)
    ensures IsWord(r)
  {
    Reverse(v, WORD)
  }

  /** Adding one to binary digits, least significant first, dropping the carry out. */
  function Increment(s: seq<bool>): (r: seq<bool>)
    ensures |r| == |s|
  {
    if s == [] then []
    else if s[0] then [false] + Increment(s[1..])
    else [true] + s[1..]
  }

  // ---------------------------------------------------------------------
  // Arithmetic facts
  // ---------------------------------------------------------------------

  lemma {:induction false} Pow2Add(a: nat, b: nat)
    ensures Pow2(a + b) == Pow2(a) * Pow2(b)
  {
    if a > 0 {
      Pow2Add(a - 1, b);
    }
  }

  lemma MulAtLeast(x: int, d: nat)
    ensures x >= 1 ==> x * d >= d
    ensures x <= -1 ==> x * d + d <= 0
  {
  }

  /** The quotient and remainder of a division are unique. */
  lemma DivModUnique(v: nat, d: nat, q: nat, r: nat)
    requires d > 0 && r < d && v == q * d + r
    ensures v / d == q && v % d == r
  {
    var q': int, r': int := v / d, v % d;
    assert (q - q') * d == r' - r;
    MulAtLeast(q - q', d);
  }

  lemma ModSmall(v: nat, d: nat)
    requires v < d
    ensures v % d == v
  {
    DivModUnique(v, d, 0, v);
  }

  /** The remainder modulo 2^k, one binary digit at a time. */
  lemma DivMod2(v: nat, k: nat)
    requires k > 0
    ensures v % Pow2(k) == 2 * ((v / 2) % Pow2(k - 1)) + v % 2
  {
    var p := Pow2(k - 1);
    var q := (v / 2) / p;
    var s := (v / 2) % p;
    assert v / 2 == q * p + s;
    assert v == q * (2 * p) + (2 * s + v % 2);
    DivModUnique(v, 2 * p, q, 2 * s + v % 2);
  }

  // ---------------------------------------------------------------------
  // Bits and values
  // ---------------------------------------------------------------------

  /** Reading the low `w` bits of `v` gives `v` modulo 2^w. */
  lemma {:induction false} ValueOfBits(v: nat, w: nat)
    ensures Value(BitsOf(v, w)) == v % Pow2(w)
  {
    if w > 0 {
      var s := BitsOf(v, w);
      assert s[1..] == BitsOf(v / 2, w - 1);
      ValueOfBits(v / 2, w - 1);
      DivMod2(v, w);
    }
  }

  /** The bits of a value are the digits it was made from. */
  lemma {:induction false} BitsOfValue(s: seq<bool>)
    ensures BitsOf(Value(s), |s|) == s
  {
    if s != [] {
      var v := Value(s);
      assert v % 2 == (if s[0] then 1 else 0) && v / 2 == Value(s[1..]);
      BitsOfValue(s[1..]);
    }
  }

  /** Digits of equal length with equal values are equal. */
  lemma ValueInjective(s: seq<bool>, t: seq<bool>)
    requires |s| == |t| && Value(s) == Value(t)
    ensures s == t
  {
    BitsOfValue(s);
    BitsOfValue(t);
  }

  lemma {:induction false} ValueZeros(n: nat)
    ensures Value(Zeros(n)) == 0
  {
    if n > 0 {
      assert Zeros(n)[1..] == Zeros(n - 1);
      ValueZeros(n - 1);
    }
  }

  /** High zero digits add nothing. */
  lemma {:induction false} ValueZerosAbove(s: seq<bool>, n: nat)
    ensures Value(s + Zeros(n)) == Value(s)
  {
    if s == [] {
      ValueZeros(n);
      assert s + Zeros(n) == Zeros(n);
    } else {
      assert (s + Zeros(n))[1..] == s[1..] + Zeros(n);
      ValueZerosAbove(s[1..], n);
    }
  }

  lemma {:induction false} ZeroBits(w: nat)
    ensures BitsOf(0, w) == Zeros(w)
  {
    if w > 0 {
      ZeroBits(w - 1);
      assert Zeros(w) == [false] + Zeros(w - 1);
    }
  }

  /** The low `k` of the low `w` bits are the low `k` bits. */
  lemma {:induction false} BitsOfPrefix(v: nat, k: nat, w: nat)
    requires k <= w
    ensures BitsOf(v, w)[..k] == BitsOf(v, k)
  {
    if k > 0 {
      BitsOfPrefix(v / 2, k - 1, w - 1);
      assert BitsOf(v, w)[..k] == [v % 2 == 1] + BitsOf(v / 2, w - 1)[..k - 1];
    }
  }

  lemma MaskHalf(k: nat)
    requires k > 0
    ensures Mask(k) % 2 == 1 && Mask(k) / 2 == Mask(k - 1)
  {
    DivModUnique(Mask(k), 2, Mask(k - 1), 1);
  }

  /** The bits of the low mask: `k` ones, then zeros. */
  lemma {:induction false} MaskBits(k: nat, w: nat)
    requires k <= w
    ensures BitsOf(Mask(k), w) == Ones(k) + Zeros(w - k)
  {
    if w > 0 {
      if k == 0 {
        MaskBits(0, w - 1);
        assert Zeros(w) == [false] + Zeros(w - 1);
      } else {
        MaskHalf(k);
        MaskBits(k - 1, w - 1);
        assert Ones(k) + Zeros(w - k) == [true] + (Ones(k - 1) + Zeros(w - k));
      }
    }
  }

  /** Masking the low `w` bits of `v` with `k` ones keeps `v` modulo 2^k. */
  lemma AndMaskBits(v: nat, k: nat, w: nat)
    requires k <= w
    ensures Value(AndBits(BitsOf(v, w), BitsOf(Mask(k), w))) == v % Pow2(k)
  {
    MaskBits(k, w);
    var z := AndBits(BitsOf(v, w), BitsOf(Mask(k), w));
    BitsOfPrefix(v, k, w);
    assert z == BitsOf(v, k) + Zeros(w - k);
    ValueZerosAbove(BitsOf(v, k), w - k);
    ValueOfBits(v, k);
  }

  /** `v & sizemask` is `v` modulo the table size: the bucket index. */
  lemma AndMask(v: nat, k: nat, w: nat)
    requires k <= w
    ensures And(v, Mask(k), w) == v % Pow2(k)
  {
    AndMaskBits(v, k, w);
  }

  /** `v | ~sizemask` keeps the low `k` bits of `v` and sets every bit above. */
  lemma OrNotMaskBits(v: nat, k: nat, w: nat)
    requires k <= w
    ensures BitsOf(Or(v, Not(Mask(k), w), w), w) == BitsOf(v, k) + Ones(w - k)
  {
    MaskBits(k, w);
    var n := NotBits(BitsOf(Mask(k), w));
    BitsOfValue(n);
    var z := OrBits(BitsOf(v, w), n);
    BitsOfPrefix(v, k, w);
    assert z == BitsOf(v, k) + Ones(w - k);
    BitsOfValue(z);
  }

  /** A value is zero exactly when all its digits are. */
  lemma {:induction false} ValueZeroIff(s: seq<bool>)
    ensures Value(s) == 0 <==> forall i :: 0 <= i < |s| ==> !s[i]
  {
    if s != [] {
      ValueZeroIff(s[1..]);
      assert forall i :: 1 <= i < |s| ==> s[1..][i - 1] == s[i];
    }
  }

  /** The bits of `m0 ^ m1`: ones from bit j up to bit k-1. */
  lemma XorMasksBits(j: nat, k: nat, w: nat)
    requires j <= k <= w
    ensures BitsOf(Xor(Mask(j), Mask(k), w), w) == Zeros(j) + Ones(k - j) + Zeros(w - k)
  {
    MaskBits(j, w);
    MaskBits(k, w);
    var band := XorBits(BitsOf(Mask(j), w), BitsOf(Mask(k), w));
    assert band == Zeros(j) + Ones(k - j) + Zeros(w - k);
    BitsOfValue(band);
  }

  /** A masked value is zero exactly when the mask selects only zero digits. */
  lemma AndZeroIff(x: seq<bool>, m: seq<bool>)
    requires |x| == |m|
    ensures Value(AndBits(x, m)) == 0 <==> forall i :: 0 <= i < |x| && m[i] ==> !x[i]
  {
    var z := AndBits(x, m);
    ValueZeroIff(z);
    if forall i :: 0 <= i < |x| && m[i] ==> !x[i] {
      assert forall i :: 0 <= i < |z| ==> !z[i];
    } else {
      var i :| 0 <= i < |x| && m[i] && x[i];
      assert z[i];
    }
  }

  /** Bits `j` to `k - 1` of the `w`-bit value `v` are all zero. */
  predicate BitsClear(v: nat, j: nat, k: nat, w: nat)
    requires k <= w
  {
    forall i :: j <= i < k ==> !BitsOf(v, w)[i]
  }

  /** `v & (m0 ^ m1)` is zero exactly when bits j..k-1 of `v` are all zero. */
  lemma AndXorMasks(v: nat, j: nat, k: nat, w: nat)
    requires j <= k <= w
    ensures And(v, Xor(Mask(j), Mask(k), w), w) == 0 <==> BitsClear(v, j, k, w)
  {
    XorMasksBits(j, k, w);
    var band := BitsOf(Xor(Mask(j), Mask(k), w), w);
    var x := BitsOf(v, w);
    assert And(v, Xor(Mask(j), Mask(k), w), w) == Value(AndBits(x, band));
    AndZeroIff(x, band);
    if forall i :: j <= i < k ==> !x[i] {
      forall i | 0 <= i < |x| && band[i]
        ensures !x[i]
      {
        assert j <= i < k;
      }
      assert Value(AndBits(x, band)) == 0;
    } else {
      var i :| j <= i < k && x[i];
      assert band[i];
    }
  }

  // ---------------------------------------------------------------------
  // Increment and reversal
  // ---------------------------------------------------------------------

  lemma DoubleMod(a: nat, p: nat)
    requires p > 0
    ensures (2 * a) % (2 * p) == 2 * (a % p)
  {
    DivModUnique(2 * a, 2 * p, a / p, 2 * (a % p));
  }

  /** `Increment` adds one modulo 2^|s|. */
  lemma {:induction false} IncrementValue(s: seq<bool>)
    ensures Value(Increment(s)) == (Value(s) + 1) % Pow2(|s|)
  {
    if s == [] {
    } else if s[0] {
      IncrementValue(s[1..]);
      assert Increment(s)[1..] == Increment(s[1..]);
      DoubleMod(Value(s[1..]) + 1, Pow2(|s| - 1));
    } else {
      assert Increment(s)[1..] == s[1..];
      ModSmall(Value(s) + 1, Pow2(|s|));
    }
  }

  /** `v++` on the bits of a `w`-bit value. */
  lemma IncBits(v: nat, w: nat)
    requires v < Pow2(w)
    ensures BitsOf(Inc(v, w), w) == Increment(BitsOf(v, w))
  {
    var s := BitsOf(v, w);
    ValueOfBits(v, w);
    ModSmall(v, Pow2(w));
    IncrementValue(s);
    BitsOfValue(Increment(s));
  }

  /** A carry runs through a block of ones and leaves zeros behind. */
  lemma {:induction false} IncrementOnes(h: nat, t: seq<bool>)
    ensures Increment(Ones(h) + t) == Zeros(h) + Increment(t)
  {
    if h > 0 {
      assert (Ones(h) + t)[1..] == Ones(h - 1) + t;
      IncrementOnes(h - 1, t);
      assert Zeros(h) + Increment(t) == [false] + (Zeros(h - 1) + Increment(t));
    } else {
      assert Ones(h) + t == t;
      assert Zeros(h) + Increment(t) == Increment(t);
    }
  }

  lemma {:induction false} ReversedAppend(a: seq<bool>, b: seq<bool>)
    ensures Reversed(a + b) == Reversed(b) + Reversed(a)
  {
    if a == [] {
      assert a + b == b;
    } else {
      assert (a + b)[1..] == a[1..] + b;
      ReversedAppend(a[1..], b);
    }
  }

  lemma {:induction false} ReversedTwice(s: seq<bool>)
    ensures Reversed(Reversed(s)) == s
  {
    if s != [] {
      ReversedAppend(Reversed(s[1..]), [s[0]]);
      ReversedTwice(s[1..]);
    }
  }

  /** A run of equal digits reads the same both ways. */
  lemma {:induction false} ReversedConstant(s: seq<bool>, b: bool)
    requires forall i :: 0 <= i < |s| ==> s[i] == b
    ensures Reversed(s) == s
  {
    if s != [] {
      ReversedConstant(s[1..], b);
      assert s[1..] + [s[0]] == s;
    }
  }

  /** Reversing twice gives back the low `w` bits. */
  lemma ReverseInvolution(v: nat, w: nat)
    ensures Reverse(Reverse(v, w), w) == v % Pow2(w)
  {
    BitsOfValue(Reversed(BitsOf(v, w)));
    ReversedTwice(BitsOf(v, w));
    ValueOfBits(v, w);
  }

  /** Reversal is its own inverse on values of `w` bits. */
  lemma ReverseReverse(v: nat, w: nat)
    requires v < Pow2(w)
    ensures Reverse(Reverse(v, w), w) == v
  {
    ReverseInvolution(v, w);
    ModSmall(v, Pow2(w));
  }

  /** `rev(rev(v)) == v` for every unsigned long. */
  lemma RevInvolution(v: nat)
    requires IsWord(v)
    ensures Rev(Rev(v)) == v
  {
    ReverseReverse(v, WORD);
  }

  /** Reversal is injective on the low `w` bits. */
  lemma ReverseInjective(a: nat, b: nat, w: nat)
    requires a < Pow2(w) && b < Pow2(w) && Reverse(a, w) == Reverse(b, w)
    ensures a == b
  {
    ReverseReverse(a, w);
    ReverseReverse(b, w);
  }

  /** Below the wrap-around, `Inc` adds one. */
  lemma IncSmall(c: nat, w: nat)
    requires c + 1 < Pow2(w)
    ensures Inc(c, w) == c + 1
  {
    ModSmall(c + 1, Pow2(w));
  }

  /** At the top, `Inc` wraps to zero. */
  lemma IncTop(w: nat)
    ensures Inc(Pow2(w) - 1, w) == 0
  {
    DivModUnique(Pow2(w), Pow2(w), 1, 0);
  }

  /** The reversal of zero is zero. */
  lemma ReverseZero(w: nat)
    ensures Reverse(0, w) == 0
  {
    ZeroBits(w);
    ReversedConstant(Zeros(w), false);
    ValueZeros(w);
  }

  // ---------------------------------------------------------------------
  // The scan cursor
  // ---------------------------------------------------------------------

  /**
   * One cursor step of dictScan over a table of 2^k buckets, on `w`-bit
   * cursors: `v |= ~m; v = rev(v); v++; v = rev(v);` with m = 2^k - 1.
   */
  function CursorStep(v: nat, k: nat, w: nat): (r: nat)
    ensures r < Pow2(w)
  {
    Reverse(Inc(Reverse(Or(v, Not(Mask(k), w), w), w), w), w)
  }

  /** `rev(v | ~m)`: the bits above `k` come out on top of the low `k` bits reversed. */
  lemma RevOrNotMask(v: nat, k: nat, w: nat)
    requires k <= w
    ensures BitsOf(Reverse(Or(v, Not(Mask(k), w), w), w), w) == Ones(w - k) + Reversed(BitsOf(v, k))
  {
    var x := Or(v, Not(Mask(k), w), w);
    OrNotMaskBits(v, k, w);
    ReversedAppend(BitsOf(v, k), Ones(w - k));
    ReversedConstant(Ones(w - k), true);
    BitsOfValue(Reversed(BitsOf(x, w)));
  }

  /** Incrementing `h` ones on top of `t` clears them and increments `t`. */
  lemma IncOnes(r: nat, h: nat, t: seq<bool>, w: nat)
    requires h + |t| == w && r < Pow2(w) && BitsOf(r, w) == Ones(h) + t
    ensures BitsOf(Inc(r, w), w) == Zeros(h) + Increment(t)
  {
    IncBits(r, w);
    IncrementOnes(h, t);
  }

  /** Reversing `h` zeros on top of `c` gives `c` reversed. */
  lemma ReverseZerosAbove(y: nat, h: nat, c: seq<bool>, w: nat)
    requires h + |c| == w && BitsOf(y, w) == Zeros(h) + c
    ensures Reverse(y, w) == Value(Reversed(c))
  {
    ReversedAppend(Zeros(h), c);
    ReversedConstant(Zeros(h), false);
    ValueZerosAbove(Reversed(c), h);
  }

  /**
   * The cursor step on bits: the low `k` bits of the cursor, read in
   * reverse, are incremented; every bit above `k` comes out zero.
   */
  lemma CursorStepBits(v: nat, k: nat, w: nat)
    requires k <= w
    ensures CursorStep(v, k, w) == Value(Reversed(Increment(Reversed(BitsOf(v, k)))))
  {
    var t := Reversed(BitsOf(v, k));
    var r := Reverse(Or(v, Not(Mask(k), w), w), w);
    RevOrNotMask(v, k, w);
    IncOnes(r, w - k, t, w);
    ReverseZerosAbove(Inc(r, w), w - k, Increment(t), w);
  }

  /**
   * The cursor step in closed form: the low `k` bits of the cursor, read in
   * reverse, form a counter that goes up by one modulo 2^k.
   */
  lemma CursorStepCounter(v: nat, k: nat, w: nat)
    requires k <= w
    ensures CursorStep(v, k, w) == Reverse(Inc(Reverse(v, k), k), k)
  {
    var t := Reversed(BitsOf(v, k));
    assert Reverse(Inc(Reverse(v, k), k), k) == Value(Reversed(Increment(t))) by {
      BitsOfValue(t);
      IncBits(Value(t), k);
    }
    CursorStepBits(v, k, w);
  }

  /** The cursor after `i` steps from 0 over a table of 2^k buckets. */
  function Cursor(i: nat, k: nat, w: nat): (c: nat)
  {
    if i == 0 then 0 else CursorStep(Cursor(i - 1, k, w), k, w)
  }

  /** One step from the reversal of `c` reaches the reversal of `c + 1`. */
  lemma CursorStepReversed(c: nat, k: nat, w: nat)
    requires k <= w && c + 1 < Pow2(k)
    ensures CursorStep(Reverse(c, k), k, w) == Reverse(c + 1, k)
  {
    CursorStepCounter(Reverse(c, k), k, w);
    ReverseReverse(c, k);
    IncSmall(c, k);
  }

  /** The next cursor after the reversal of `i - 1` is the reversal of `i`. */
  lemma CursorNext(i: nat, k: nat, w: nat)
    requires k <= w && 0 < i < Pow2(k) && Cursor(i - 1, k, w) == Reverse(i - 1, k)
    ensures Cursor(i, k, w) == Reverse(i, k)
  {
    CursorStepReversed(i - 1, k, w);
  }

  lemma {:induction false} CursorIsReversedCount(i: nat, k: nat, w: nat)
    requires k <= w && i < Pow2(k)
    ensures Cursor(i, k, w) == Reverse(i, k)
  {
    if i == 0 {
      ReverseZero(k);
    } else {
      CursorIsReversedCount(i - 1, k, w);
      CursorNext(i, k, w);
    }
  }

  /** The first 2^k cursors are distinct buckets of the table. */
  lemma CursorDistinct(i: nat, j: nat, k: nat, w: nat)
    requires k <= w && i < j < Pow2(k)
    ensures Cursor(i, k, w) < Pow2(k) && Cursor(i, k, w) != Cursor(j, k, w)
  {
    CursorIsReversedCount(i, k, w);
    CursorIsReversedCount(j, k, w);
    if Reverse(i, k) == Reverse(j, k) {
      ReverseInjective(i, j, k);
    }
  }

  /** Bucket `b` is the cursor after `Reverse(b, k)` steps. */
  lemma CursorReaches(b: nat, k: nat, w: nat)
    requires k <= w && b < Pow2(k)
    ensures Reverse(b, k) < Pow2(k) && Cursor(Reverse(b, k), k, w) == b
  {
    CursorIsReversedCount(Reverse(b, k), k, w);
    ReverseReverse(b, k);
  }

  /** After 2^k steps the cursor is back at 0. */
  lemma CursorWraps(k: nat, w: nat)
    requires k <= w
    ensures Cursor(Pow2(k), k, w) == 0
  {
    var last := Pow2(k) - 1;
    var c := Cursor(last, k, w);
    assert Cursor(Pow2(k), k, w) == CursorStep(c, k, w);
    CursorIsReversedCount(last, k, w);
    CursorStepCounter(c, k, w);
    ReverseReverse(last, k);
    IncTop(k);
    ReverseZero(k);
  }

  /**
   * A scan of a table of 2^k buckets started at cursor 0 visits every
   * bucket exactly once in its first 2^k steps and then returns cursor 0.
   */
  lemma CursorPermutation(k: nat, w: nat)
    requires k <= w
    ensures forall i :: 0 <= i < Pow2(k) ==> Cursor(i, k, w) < Pow2(k)
    ensures forall i, j :: 0 <= i < j < Pow2(k) ==> Cursor(i, k, w) != Cursor(j, k, w)
    ensures forall b :: 0 <= b < Pow2(k) ==>
              Reverse(b, k) < Pow2(k) && Cursor(Reverse(b, k), k, w) == b
    ensures Cursor(Pow2(k), k, w) == 0
  {
    forall i | 0 <= i < Pow2(k)
      ensures Cursor(i, k, w) < Pow2(k)
    {
      CursorIsReversedCount(i, k, w);
    }
    forall i, j | 0 <= i < j < Pow2(k)
      ensures Cursor(i, k, w) != Cursor(j, k, w)
    {
      CursorDistinct(i, j, k, w);
    }
    forall b | 0 <= b < Pow2(k)
      ensures Reverse(b, k) < Pow2(k) && Cursor(Reverse(b, k), k, w) == b
    {
      CursorReaches(b, k, w);
    }
    CursorWraps(k, w);
  }

  // ---------------------------------------------------------------------
  // The expansion loop of a scan during a rehash
  // ---------------------------------------------------------------------

  lemma MulDouble(x: int, y: int)
    ensures 2 * (x * y) == (2 * x) * y
  {
  }

  /** Digits `a` below digits `b`. */
  lemma {:induction false} ValueAppend(a: seq<bool>, b: seq<bool>)
    ensures Value(a + b) == Value(a) + Pow2(|a|) * Value(b)
  {
    if a == [] {
      assert a + b == b;
    } else {
      var d: int, va: int, vb: int, p: int := if a[0] then 1 else 0, Value(a[1..]), Value(b), Pow2(|a| - 1);
      assert (a + b)[0] == a[0] && (a + b)[1..] == a[1..] + b;
      ValueAppend(a[1..], b);
      calc {
        Value(a + b);
        d + 2 * Value(a[1..] + b);
        d + 2 * (va + p * vb);
        { MulDouble(p, vb); }
        (d + 2 * va) + (2 * p) * vb;
      }
    }
  }

  lemma {:induction false} ReversedIndex(s: seq<bool>)
    ensures forall i :: 0 <= i < |s| ==> Reversed(s)[i] == s[|s| - 1 - i]
  {
    if s != [] {
      ReversedIndex(s[1..]);
    }
  }

  /**
   * Bits `j` to `k - 1` of `v`, read in reverse: the part of the reversed
   * `k`-bit cursor that a table of 2^j buckets does not see.
   */
  function Expansion(v: nat, j: nat, k: nat): (x: nat)
    requires j <= k
    ensures x < Pow2(k - j)
  {
    Value(Reversed(BitsOf(v, k)[j..]))
  }

  /**
   * The reversed `k`-bit cursor splits into the reversed `j`-bit cursor on
   * top and the expansion bits below it.
   */
  lemma ReverseSplit(v: nat, j: nat, k: nat)
    requires j <= k
    ensures Reverse(v, k) == Expansion(v, j, k) + Pow2(k - j) * Reverse(v, j)
    ensures Reverse(v, k) % Pow2(k - j) == Expansion(v, j, k)
    ensures Reverse(v, k) / Pow2(k - j) == Reverse(v, j)
  {
    ReverseSplitSum(v, j, k);
    DivModUnique(Reverse(v, k), Pow2(k - j), Reverse(v, j), Expansion(v, j, k));
  }

  lemma ReverseSplitSum(v: nat, j: nat, k: nat)
    requires j <= k
    ensures Reverse(v, k) == Expansion(v, j, k) + Pow2(k - j) * Reverse(v, j)
    ensures Reverse(v, k) == Reverse(v, j) * Pow2(k - j) + Expansion(v, j, k)
  {
    var s, lo := BitsOf(v, k), BitsOf(v, j);
    BitsOfPrefix(v, j, k);
    assert s == lo + s[j..];
    ReversedAppend(lo, s[j..]);
    ValueAppend(Reversed(s[j..]), Reversed(lo));
  }

  /** Reversal looks at the low `w` bits only. */
  lemma ReverseLow(v: nat, w: nat)
    ensures Reverse(v, w) == Reverse(v % Pow2(w), w)
  {
    ValueOfBits(v, w);
    BitsOfValue(BitsOf(v, w));
  }

  /** Two values reverse alike on `j` bits exactly when they agree modulo 2^j. */
  lemma ReverseLowIff(a: nat, b: nat, j: nat)
    ensures Reverse(a, j) == Reverse(b, j) <==> a % Pow2(j) == b % Pow2(j)
  {
    ReverseLow(a, j);
    ReverseLow(b, j);
    if Reverse(a, j) == Reverse(b, j) {
      ReverseInjective(a % Pow2(j), b % Pow2(j), j);
    }
  }

  /** The expansion bits are zero exactly when bits `j` to `k - 1` are. */
  lemma ExpansionZeroIff(v: nat, j: nat, k: nat, w: nat)
    requires j <= k <= w
    ensures Expansion(v, j, k) == 0 <==> BitsClear(v, j, k, w)
  {
    var h := BitsOf(v, k)[j..];
    BitsOfPrefix(v, k, w);
    ReversedIndex(h);
    ValueZeroIff(Reversed(h));
    if Expansion(v, j, k) == 0 {
      forall i | j <= i < k
        ensures !BitsOf(v, w)[i]
      {
        assert h[i - j] == BitsOf(v, w)[i];
        assert Reversed(h)[k - 1 - i] == h[i - j];
      }
    } else {
      var t :| 0 <= t < |h| && Reversed(h)[t];
      assert BitsOf(v, w)[k - 1 - t] == h[|h| - 1 - t];
    }
  }

  /** A value below 2^j has no expansion bits. */
  lemma ExpansionOfSmall(v: nat, j: nat, k: nat)
    requires j <= k && v < Pow2(j)
    ensures Expansion(v, j, k) == 0
  {
    var z := BitsOf(v, j) + Zeros(k - j);
    ValueZerosAbove(BitsOf(v, j), k - j);
    ValueOfBits(v, j);
    ValueOfBits(v, k);
    Pow2Add(j, k - j);
    ModSmall(v, Pow2(j));
    ModSmall(v, Pow2(k));
    ValueInjective(BitsOf(v, k), z);
    assert BitsOf(v, k)[j..] == Zeros(k - j);
    ReversedConstant(Zeros(k - j), false);
    ValueZeros(k - j);
  }

  /**
   * The test ending the expansion loop of `dictScan`, `v & (m0 ^ m1)`, is
   * zero exactly when the expansion part of the reversed cursor is.
   */
  lemma ScanStopIff(v: nat, j: nat, k: nat, w: nat)
    requires j <= k <= w
    ensures And(v, Xor(Mask(j), Mask(k), w), w) == 0 <==> Reverse(v, k) % Pow2(k - j) == 0
  {
    AndXorMasks(v, j, k, w);
    ExpansionZeroIff(v, j, k, w);
    ReverseSplit(v, j, k);
  }

  /**
   * The step of the expansion loop: from a cursor whose low `k` bits are
   * the reversal of counter `c`, `CursorStep` reaches the reversal of
   * `c + 1`, wrapping to 0 after the last counter.
   */
  lemma ExpansionStep(v: nat, c: nat, k: nat, w: nat)
    requires k <= w && c < Pow2(k) && v % Pow2(k) == Reverse(c, k)
    ensures CursorStep(v, k, w) == Reverse((c + 1) % Pow2(k), k)
  {
    CursorStepCounter(v, k, w);
    ReverseLow(v, k);
    ReverseReverse(c, k);
  }

  lemma MulLess(p: nat, a: nat, b: nat)
    requires a < b
    ensures p * a + p <= p * b
  {
    var d := b - a;
    assert p * b == p * a + d * p;
    MulAtLeast(d, p);
  }

  /** The arithmetic of `ExpansionCounter`, with 2^k written `p * n`. */
  lemma CounterArith(c0: nat, i: nat, p: nat, n: nat)
    requires p > 0 && n > 0 && c0 < p * n && c0 % p + i < p
    ensures c0 + i < p * n
    ensures (c0 + i) / p == c0 / p
    ensures (c0 + i + 1) % (p * n) % p == 0 <==> c0 % p + i + 1 == p
  {
    CounterQuotient(c0, i, p, n);
    CounterWrap(c0, i, p, n);
  }

  /** The counters up to the end of the block of `p` stay in range and in the block. */
  lemma CounterQuotient(c0: nat, i: nat, p: nat, n: nat)
    requires p > 0 && n > 0 && c0 < p * n && c0 % p + i < p
    ensures c0 / p < n && c0 + i < p * n
    ensures (c0 + i) / p == c0 / p
  {
    var q, r := c0 / p, c0 % p;
    assert c0 == p * q + r;
    if q >= n {
      MulLess(p, n - 1, q);
      assert false;
    }
    MulLess(p, q, n);
    DivModUnique(c0 + i, p, q, r + i);
  }

  /** The step after counter `c0 + i` reaches a multiple of `p` exactly at the end of the block. */
  lemma CounterWrap(c0: nat, i: nat, p: nat, n: nat)
    requires p > 0 && n > 0 && c0 < p * n && c0 % p + i < p
    ensures (c0 + i + 1) % (p * n) % p == 0 <==> c0 % p + i + 1 == p
  {
    CounterQuotient(c0, i, p, n);
    var q, r := c0 / p, c0 % p;
    assert c0 == p * q + r;
    var m := c0 + i + 1;
    if m < p * n {
      ModSmall(m, p * n);
      if r + i + 1 < p {
        DivModUnique(m, p, q, r + i + 1);
      } else {
        DivModUnique(m, p, q + 1, 0);
      }
    } else {
      MulLess(p, q, n);
      DivModUnique(m, p * n, 1, 0);
    }
  }


  /**
   * The counter of the expansion loop started at `c0`: the first
   * `P - c0 % P` counters after it stay below 2^k and share the
   * quotient by `P` = 2^(k-j), and the test after the step fails
   * exactly at the last of them.
   */
  lemma ExpansionCounter(c0: nat, i: nat, j: nat, k: nat)
    requires j <= k && c0 < Pow2(k) && c0 % Pow2(k - j) + i < Pow2(k - j)
    ensures c0 + i < Pow2(k)
    ensures (c0 + i) / Pow2(k - j) == c0 / Pow2(k - j)
    ensures (c0 + i + 1) % Pow2(k) % Pow2(k - j) == 0 <==> c0 % Pow2(k - j) + i + 1 == Pow2(k - j)
  {
    Pow2Add(k - j, j);
    CounterArith(c0, i, Pow2(k - j), Pow2(j));
  }

  /**
   * Every bucket the expansion loop visits agrees with the starting cursor
   * on the low `j` bits: it is an expansion of the same bucket of the
   * table of 2^j buckets.
   */
  lemma ExpansionBucket(v0: nat, t: nat, j: nat, k: nat)
    requires j <= k && Reverse(v0, k) % Pow2(k - j) + t < Pow2(k - j)
    ensures Reverse(v0, k) + t < Pow2(k)
    ensures Reverse(Reverse(v0, k) + t, k) % Pow2(j) == v0 % Pow2(j)
  {
    var c0 := Reverse(v0, k);
    var b := Reverse(c0 + t, k);
    ExpansionCounter(c0, t, j, k);
    ReverseReverse(c0 + t, k);
    ReverseSplit(b, j, k);
    ReverseSplit(v0, j, k);
    ReverseLowIff(b, v0, j);
  }

  /**
   * From a cursor with no expansion bits the loop reaches every expansion:
   * a bucket of the larger table that agrees with `v0` on the low `j` bits
   * is visited `Expansion(b, j, k)` steps in.
   */
  lemma ExpansionCovers(v0: nat, b: nat, j: nat, k: nat)
    requires j <= k && Reverse(v0, k) % Pow2(k - j) == 0
    requires b < Pow2(k) && b % Pow2(j) == v0 % Pow2(j)
    ensures Reverse(Reverse(v0, k) + Expansion(b, j, k), k) == b
  {
    ReverseSplit(b, j, k);
    ReverseSplit(v0, j, k);
    ReverseLowIff(b, v0, j);
    ReverseReverse(b, k);
  }

  /**
   * Where the loop ends: after `P - c0 % P` steps the cursor is the one a
   * scan of the smaller table alone would return, `CursorStep(v0, j, w)`.
   */
  lemma ExpansionEnd(v0: nat, c0: nat, n: nat, j: nat, k: nat, w: nat)
    requires j <= k <= w && c0 == Reverse(v0, k) && n == Pow2(k - j) - c0 % Pow2(k - j)
    ensures Reverse((c0 + n) % Pow2(k), k) == CursorStep(v0, j, w)
  {
    var q := Reverse(v0, j);
    ReverseSplit(v0, j, k);
    EndCounter(c0, q, n, j, k);
    EndCursor(q, j, k);
    CursorStepCounter(v0, j, w);
  }

  /** The counter ends on the next multiple of 2^(k-j), wrapped to k bits. */
  lemma EndCounter(c0: nat, q: nat, n: nat, j: nat, k: nat)
    requires j <= k && q == c0 / Pow2(k - j) && n == Pow2(k - j) - c0 % Pow2(k - j)
    ensures (c0 + n) % Pow2(k) == Pow2(k - j) * Inc(q, j)
  {
    var p := Pow2(k - j);
    NextMultiple(c0, p);
    Pow2Add(k - j, j);
    ModTimes(q + 1, p, Pow2(j));
  }

  /** A multiple of 2^(k-j) below 2^k reverses, in k bits, to a cursor of the small table. */
  lemma EndCursor(q: nat, j: nat, k: nat)
    requires j <= k
    ensures Reverse(Pow2(k - j) * Inc(q, j), k) == Reverse(Inc(q, j), j)
  {
    var x := Inc(q, j);
    var y := Reverse(x, j);
    ExpansionOfSmall(y, j, k);
    ReverseSplit(y, j, k);
    ReverseReverse(x, j);
    assert Reverse(y, k) == Pow2(k - j) * x;
    Pow2Mono(j, k);
    ReverseReverse(y, k);
  }

  /** The next multiple of `p` above `c`. */
  lemma NextMultiple(c: nat, p: nat)
    requires p > 0
    ensures c + (p - c % p) == (c / p + 1) * p
  {
  }

  lemma Pow2Mono(j: nat, k: nat)
    requires j <= k
    ensures Pow2(j) <= Pow2(k)
  {
    Pow2Add(j, k - j);
    MulAtLeast(Pow2(k - j), Pow2(j));
  }

  /** Scaling by `p` scales the remainder: (x * p) % (p * n) == p * (x % n). */
  lemma ModTimes(x: nat, p: nat, n: nat)
    requires p > 0 && n > 0
    ensures (x * p) % (p * n) == p * (x % n)
  {
    var q, r := x / n, x % n;
    MulLess(p, r, n);
    assert x * p == q * (p * n) + p * r;
    DivModUnique(x * p, p * n, q, p * r);
  }
}
