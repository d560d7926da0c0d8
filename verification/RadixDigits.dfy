/**
 Base-16 digits of timer keys: the highest differing digit of two keys, and how it moves
 when the lower of the two is raised.
 */
module RadixDigits {
  const LEVELS: nat := 16
  const RADIX: nat := 16

  function Pow16(d: nat): (p: nat)
    ensures p > 0
  {
    if d == 0 then 1 else 16 * Pow16(d - 1)
  }

  /** A key without its `d` lowest digits: the key shifted right by `4 * d`. */
  function Up(k: nat, d: nat): nat
  {
    if d == 0 then k else Up(k / 16, d - 1)
  }

  function Digit(k: nat, d: nat): (x: nat)
    ensures x < RADIX
  {
    Up(k, d) % 16
  }

  /** The highest bit in which two keys differ: the highest set bit of their exclusive or. */
  function TopBit(a: nat, b: nat): nat
    requires a != b
    decreases a + b
  {
    if a / 2 == b / 2 then 0 else 1 + TopBit(a / 2, b / 2)
  }

  /** The highest differing digit, found from the highest differing bit. */
  function TopDigit(a: nat, b: nat): nat
    requires a != b
  {
    TopBit(a, b) / 4
  }

  /** `d` is the highest digit in which the keys differ. */
  ghost predicate IsTop(a: nat, b: nat, d: nat)
  {
    Up(a, d) != Up(b, d) && Up(a, d + 1) == Up(b, d + 1)
  }

  function Bucket(base: nat, k: nat): nat
    requires base != k
  {
    16 * TopDigit(base, k) + Digit(k, TopDigit(base, k))
  }

  lemma {:induction false} UpNext(k: nat, d: nat)
    ensures Up(k, d + 1) == Up(k, d) / 16
  {
    if d > 0 {
      UpNext(k / 16, d - 1);
    }
  }

  lemma {:induction false} UpMono(a: nat, b: nat, d: nat)
    requires a <= b
    ensures Up(a, d) <= Up(b, d)
  {
    if d > 0 {
      UpMono(a / 16, b / 16, d - 1);
    }
  }

  lemma DigitParts(k: nat, d: nat)
    ensures Up(k, d) == 16 * Up(k, d + 1) + Digit(k, d)
  {
    UpNext(k, d);
  }

  /** Keys that agree from digit `d` on agree from every higher digit on. */
  lemma {:induction false} UpEqual(a: nat, b: nat, d: nat, e: nat)
    requires d <= e
    ensures Up(a, d) == Up(b, d) ==> Up(a, e) == Up(b, e)
    ensures Up(a, d) <= Up(b, d) ==> Up(a, e) <= Up(b, e)
    decreases e
  {
    if d < e {
      UpEqual(a, b, d, e - 1);
      UpNext(a, e - 1);
      UpNext(b, e - 1);
    }
  }

  lemma {:induction false} UpTop(k: nat, d: nat)
    requires k < Pow16(d)
    ensures Up(k, d) == 0
  {
    if d > 0 {
      UpTop(k / 16, d - 1);
    }
  }

  /** A key is its upper digits and a remainder below the digit's weight. */
  lemma {:induction false} UpParts(k: nat, d: nat) returns (r: nat)
    ensures r < Pow16(d) && k == Up(k, d) * Pow16(d) + r
  {
    if d == 0 {
      r := 0;
    } else {
      var s := UpParts(k / 16, d - 1);
      r := 16 * s + k % 16;
      Scale(Up(k, d), Pow16(d - 1), s, k);
    }
  }

  lemma Scale(u: nat, p: nat, s: nat, k: nat)
    requires k / 16 == u * p + s
    ensures k == u * (16 * p) + (16 * s + k % 16)
  {
    assert 16 * (u * p + s) == u * (16 * p) + 16 * s;
  }

  lemma IsTopUnique(a: nat, b: nat, d: nat, e: nat)
    requires IsTop(a, b, d) && IsTop(a, b, e)
    ensures d == e
  {
    if d < e {
      UpEqual(a, b, d + 1, e);
    } else if e < d {
      UpEqual(a, b, e + 1, d);
    }
  }

  /** Four bits make a digit: the digit of the highest differing bit is the highest differing digit. */
  lemma {:induction false} TopDigitIs(a: nat, b: nat)
    requires a != b
    ensures IsTop(a, b, TopDigit(a, b))
    decreases a + b
  {
    if a / 16 == b / 16 {
      TopBitLow(a, b);
    } else {
      TopDigitIs(a / 16, b / 16);
      TopBitShift(a, b);
      var d := TopDigit(a / 16, b / 16);
      assert TopDigit(a, b) == d + 1;
    }
  }

  lemma TopBitLow(a: nat, b: nat)
    requires a != b && a / 16 == b / 16
    ensures TopBit(a, b) < 4
  {
    var a1, b1 := a / 2, b / 2;
    var a2, b2 := a1 / 2, b1 / 2;
    var a3, b3 := a2 / 2, b2 / 2;
    assert a3 / 2 == a / 16 && b3 / 2 == b / 16;
    if a1 != b1 {
      assert TopBit(a, b) == 1 + TopBit(a1, b1);
      if a2 != b2 {
        assert TopBit(a1, b1) == 1 + TopBit(a2, b2);
      }
    }
  }

  lemma TopBitShift(a: nat, b: nat)
    requires a / 16 != b / 16
    ensures TopBit(a, b) == 4 + TopBit(a / 16, b / 16)
  {
    var a1, b1 := a / 2, b / 2;
    var a2, b2 := a1 / 2, b1 / 2;
    var a3, b3 := a2 / 2, b2 / 2;
    assert a3 / 2 == a / 16 && b3 / 2 == b / 16;
    assert TopBit(a, b) == 1 + TopBit(a1, b1);
    assert TopBit(a1, b1) == 1 + TopBit(a2, b2);
    assert TopBit(a2, b2) == 1 + TopBit(a3, b3);
    assert TopBit(a3, b3) == 1 + TopBit(a3 / 2, b3 / 2);
  }

  /** Above a smaller base a key differs first in a larger digit, within the sixteen levels. */
  lemma TopDigitOk(base: nat, k: nat)
    requires base < k
    ensures var d := TopDigit(base, k); IsTop(base, k, d) && Up(base, d) < Up(k, d) && Digit(base, d) < Digit(k, d)
    ensures k < Pow16(LEVELS) ==> TopDigit(base, k) < LEVELS
  {
    var d := TopDigit(base, k);
    TopDigitIs(base, k);
    UpMono(base, k, d);
    UpNext(base, d);
    UpNext(k, d);
    if k < Pow16(LEVELS) && d >= LEVELS {
      UpTop(k, LEVELS);
      UpTop(base, LEVELS);
      UpEqual(base, k, LEVELS, d);
    }
  }

  lemma TopDigitIf(a: nat, b: nat, d: nat)
    requires IsTop(a, b, d)
    ensures a != b && TopDigit(a, b) == d
  {
    TopDigitIs(a, b);
    IsTopUnique(a, b, d, TopDigit(a, b));
  }

  /** Raising the base up to a key leaves the key's bucket alone, unless it is the bucket of the new base. */
  lemma BucketKept(base: nat, next: nat, k: nat)
    requires base < next <= k && Bucket(base, k) != Bucket(base, next)
    ensures next < k && Bucket(next, k) == Bucket(base, k)
    ensures TopDigit(base, next) <= TopDigit(base, k)
  {
    hide Up, TopDigit, Digit;
    var d, e := TopDigit(base, next), TopDigit(base, k);
    TopDigitOk(base, next);
    TopDigitOk(base, k);
    UpMono(next, k, d);
    if e < d {
      UpEqual(base, k, e + 1, d);
      assert false;
    } else if d < e {
      UpEqual(base, next, d + 1, e);
      UpEqual(base, next, d + 1, e + 1);
      TopDigitIf(next, k, e);
    } else {
      DigitParts(next, d);
      DigitParts(k, d);
      assert Digit(k, d) != Digit(next, d);
      TopDigitIf(next, k, d);
    }
  }

  /** In the bucket of the new base a key agrees with it from that digit on, so it moves to a lower level. */
  lemma BucketMoves(base: nat, next: nat, k: nat)
    requires base < next <= k && Bucket(base, k) == Bucket(base, next) && next != k
    ensures TopDigit(next, k) < TopDigit(base, next)
  {
    var d := TopDigit(base, next);
    TopDigitOk(base, next);
    TopDigitOk(base, k);
    assert TopDigit(base, k) == d;
    UpNext(k, d);
    UpNext(next, d);
    assert Up(k, d) == Up(next, d);
    TopDigitIs(next, k);
    var e := TopDigit(next, k);
    if d <= e {
      UpEqual(next, k, d, e);
    }
  }

  /** The lowest key a bucket can hold. */
  function Floor(base: nat, d: nat, x: nat): nat
  {
    (16 * Up(base, d + 1) + x) * Pow16(d)
  }

  /** A key in a bucket at least as high, or on a higher level, is not below the bucket's floor. */
  lemma FloorBelow(base: nat, d: nat, x: nat, k: nat)
    requires base < k && x < RADIX
    requires (TopDigit(base, k) == d && x <= Digit(k, d)) || d < TopDigit(base, k)
    ensures Floor(base, d, x) <= k
  {
    hide Up, TopDigit, Pow16;
    var e := TopDigit(base, k);
    TopDigitOk(base, k);
    var r := UpParts(k, d);
    UpNext(k, d);
    if e == d {
      assert 16 * Up(base, d + 1) + x <= Up(k, d);
    } else {
      UpMono(base, k, d + 1);
      if Up(k, d + 1) == Up(base, d + 1) {
        UpEqual(base, k, d + 1, e);
      }
      assert 16 * Up(base, d + 1) + x <= Up(k, d);
    }
    MulMono(16 * Up(base, d + 1) + x, Up(k, d), Pow16(d));
  }

  lemma MulMono(a: nat, b: nat, p: nat)
    requires a <= b
    ensures a * p <= b * p
  {
  }

  /** The step computed from digits and remainder leads to the floor of the bucket, above the base. */
  lemma FloorStep(base: nat, d: nat, x: nat)
    requires Digit(base, d) < x
    ensures Up(base, d) * Pow16(d) <= base
    ensures base + (x - Digit(base, d)) * Pow16(d) - (base - Up(base, d) * Pow16(d)) == Floor(base, d, x) > base
  {
    hide Up, Pow16;
    var r := UpParts(base, d);
    UpNext(base, d);
    DigitIs(base, d);
    StepMath(Up(base, d), x - Digit(base, d), Pow16(d), r, base);
    assert 16 * Up(base, d + 1) + x == Up(base, d) + (x - Digit(base, d));
  }

  lemma DigitIs(k: nat, d: nat)
    ensures Digit(k, d) == Up(k, d) % 16
  {
  }

  lemma StepMath(u: nat, g: nat, p: nat, r: nat, base: nat)
    requires base == u * p + r && r < p && 1 <= g
    ensures u * p <= base && base + g * p - (base - u * p) == (u + g) * p > base
  {
    assert (u + g) * p == u * p + g * p;
    MulMono(1, g, p);
  }

  /** The floor is the key with its digits below `d` cleared, for any key in the bucket. */
  lemma FloorIs(base: nat, k: nat)
    requires base < k
    ensures var d := TopDigit(base, k); Floor(base, d, Digit(k, d)) == Up(k, d) * Pow16(d)
  {
    var d := TopDigit(base, k);
    TopDigitOk(base, k);
    UpNext(k, d);
  }

  lemma BucketParts(base: nat, k: nat)
    requires base != k
    ensures Bucket(base, k) / 16 == TopDigit(base, k) && Bucket(base, k) % 16 == Digit(k, TopDigit(base, k))
  {
  }
}
