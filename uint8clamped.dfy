/**
  The element type of a Uint8ClampedArray and the conversion every store into
  one performs: ToUint8Clamp of ECMA-262 (section 7.1.12, "ToUint8Clamp").
  A number is clamped to [0, 255] and then rounded to the nearest integer,
  ties going to the even neighbour.

  The numbers the filters store are quotients of integers, so the number is
  given exactly as a fraction num / den with a positive denominator.
 */
module Uint8Clamped {
  import opened Arithmetic

  /** One channel value of a clamped byte array. */
  type Byte = x: int | 0 <= x <= 255

  /** An independent statement of what ToUint8Clamp returns for num / den:
      0 at or below zero, 255 at or above 255, otherwise the integer nearest
      to num / den, and on a tie (num / den exactly halfway) the even one. */
  predicate NearestByte(num: int, den: int, b: int)
    requires den > 0
  {
    && (num <= 0 ==> b == 0)
    && (num >= 255 * den ==> b == 255)
    && (0 < num < 255 * den ==>
          && den * (2 * b - 1) <= 2 * num <= den * (2 * b + 1)
          && (2 * num == den * (2 * b - 1) || 2 * num == den * (2 * b + 1) ==> b % 2 == 0))
  }

  /** ToUint8Clamp(num / den), following the algorithm's steps: clamp, take
      the floor f, compare the fraction with one half, break ties to even. */
  function ToUint8Clamp(num: int, den: int): (b: Byte)
    requires den > 0
    ensures NearestByte(num, den, b)
  {
    if num <= 0 then 0
    else if num >= 255 * den then 255
    else
      var f := num / den;
      // twice the fractional part of num / den, scaled by den
      var twiceFraction := 2 * (num - f * den);
      FloorBelow255(num, den);
      HalfBounds(den, f);
      if den < twiceFraction then f + 1
      else if twiceFraction < den then f
      else if f % 2 == 1 then f + 1
      else f
  }

  /** The floor of a quotient strictly between 0 and 255 lies in [0, 254]. */
  lemma FloorBelow255(num: int, den: int)
    requires den > 0 && 0 < num < 255 * den
    ensures 0 <= num / den < 255
    ensures 0 <= num - (num / den) * den < den
  {
    var f, r := num / den, num % den;
    assert num == f * den + r && 0 <= r < den;
    // f * den <= num < 255 * den, so (255 - f) * den > 0
    assert (255 - f) * den > 0;
    PositiveFactor(den, 255 - f);
    // 0 < num < (f + 1) * den, so (f + 1) * den > 0
    assert (f + 1) * den > 0;
    PositiveFactor(den, f + 1);
  }

  /** The half-integer bounds around candidates f and f + 1, multiplied out. */
  lemma HalfBounds(den: int, f: int)
    ensures den * (2 * f - 1) == 2 * (f * den) - den
    ensures den * (2 * f + 1) == 2 * (f * den) + den
    ensures den * (2 * (f + 1) - 1) == 2 * (f * den) + den
    ensures den * (2 * (f + 1) + 1) == 2 * (f * den) + 3 * den
  {
  }

  /** NearestByte determines the byte: ToUint8Clamp is the only value that
      satisfies it. */
  lemma {:induction false} NearestByteUnique(num: int, den: int, b: int)
    requires den > 0 && 0 <= b <= 255
    ensures NearestByte(num, den, b) <==> b == ToUint8Clamp(num, den)
  {
    var t := ToUint8Clamp(num, den);
    if NearestByte(num, den, b) && 0 < num < 255 * den && b != t {
      if b < t {
        NearRoundingGap(num, den, b, t);
      } else {
        NearRoundingGap(num, den, t, b);
      }
    }
  }

  /** Two distinct candidates that both lie within one half of num / den are
      neighbours, and num / den is exactly halfway between them. */
  lemma NearRoundingGap(num: int, den: int, lo: int, hi: int)
    requires den > 0 && lo < hi
    requires den * (2 * hi - 1) <= 2 * num <= den * (2 * lo + 1)
    ensures hi == lo + 1 && 2 * num == den * (2 * lo + 1) && 2 * num == den * (2 * hi - 1)
  {
    var gap := 2 * (hi - lo) - 2;
    assert den * (2 * hi - 1) == den * (2 * lo + 1) + den * gap;
    assert den * (gap + 1) > 0;
    PositiveFactor(den, gap + 1);
  }

  /** A byte given exactly (as v * den / den) is stored unchanged. */
  lemma {:induction false} ToUint8ClampExact(v: Byte, den: int)
    requires den > 0
    ensures ToUint8Clamp(v * den, den) == v
  {
    var num := v * den;
    assert den * (2 * v - 1) < 2 * num < den * (2 * v + 1);
    if num <= 0 {
      assert den * (v + 1) > 0;
      PositiveFactor(den, v + 1);
    }
    if num >= 255 * den {
      assert den * (v - 254) > 0;
      PositiveFactor(den, v - 254);
    }
    NearestByteUnique(num, den, v);
  }

  /** The conversion is monotonic in the number stored. */
  lemma {:induction false} ToUint8ClampMonotonic(num1: int, num2: int, den: int)
    requires den > 0 && num1 <= num2
    ensures ToUint8Clamp(num1, den) <= ToUint8Clamp(num2, den)
  {
    var b1, b2 := ToUint8Clamp(num1, den), ToUint8Clamp(num2, den);
    if b1 > b2 {
      // both numbers lie strictly inside (0, 255), otherwise b1 <= b2 directly
      assert 0 < num1 && num2 < 255 * den;
      NearRoundingGap(num1, den, b2, b1);
      assert false;
    }
  }

  /** A number between lo and hi (both bytes) is stored between lo and hi:
      the conversion never leaves the range its input already lies in. */
  lemma ToUint8ClampBetween(num: int, den: int, lo: Byte, hi: Byte)
    requires den > 0 && lo * den <= num <= hi * den
    ensures lo <= ToUint8Clamp(num, den) <= hi
  {
    ToUint8ClampMonotonic(lo * den, num, den);
    ToUint8ClampMonotonic(num, hi * den, den);
    ToUint8ClampExact(lo, den);
    ToUint8ClampExact(hi, den);
  }
}
