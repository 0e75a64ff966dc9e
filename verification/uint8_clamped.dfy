/**
  The element type of a canvas pixel buffer (a Uint8ClampedArray) and the
  conversion ECMAScript applies to every number stored into one.
*/
module Uint8Clamped {
  import opened Arithmetic

  /** One element of a Uint8ClampedArray. */
  type Byte = x: int | 0 <= x <= 255

  /**
    ToUint8Clamp (ECMA-262, section 7.1.12) applied to the exact rational
    num / den: clamp to [0, 255], then round to the nearest integer, a tie
    going to the even one. The first two postconditions say that r is within
    one half of num / den and that a tie is broken towards the even byte.
  */
  function ToUint8Clamp(num: int, den: int): (r: Byte)
    requires den > 0
    ensures 0 <= num <= 255 * den ==> den * (2 * r - 1) <= 2 * num <= den * (2 * r + 1)
    ensures 0 <= num <= 255 * den && (2 * num == den * (2 * r - 1) || 2 * num == den * (2 * r + 1)) ==> r % 2 == 0
    ensures num <= 0 ==> r == 0
    ensures num >= 255 * den ==> r == 255
  {
    if num <= 0 then 0
    else if num >= 255 * den then 255
    else
      var f, rem := num / den, num % den;
      DivisionFacts(num, den);
      var r := if 2 * rem > den || (2 * rem == den && f % 2 == 1) then f + 1 else f;
      RoundingFacts(num, den, f, rem, r);
      r
  }

  /** The quotient of an in-range num by den is below 255. */
  lemma DivisionFacts(num: int, den: int)
    requires den > 0 && 0 < num < 255 * den
    ensures num == den * (num / den) + num % den && 0 <= num % den < den
    ensures 0 <= num / den < 255
  {
    var f := num / den;
    if f >= 255 {
      MulMono(den, 255, f);
    }
  }

  /** Choosing f or f + 1 by comparing twice the remainder with den gives the nearest integer. */
  lemma RoundingFacts(num: int, den: int, f: int, rem: int, r: int)
    requires den > 0 && num == den * f + rem && 0 <= rem < den
    requires r == if 2 * rem > den || (2 * rem == den && f % 2 == 1) then f + 1 else f
    ensures den * (2 * r - 1) <= 2 * num <= den * (2 * r + 1)
    ensures (2 * num == den * (2 * r - 1) || 2 * num == den * (2 * r + 1)) ==> r % 2 == 0
  {
    assert den * (2 * f + 1) == 2 * (den * f) + den;
    assert den * (2 * f - 1) == 2 * (den * f) - den;
    assert den * (2 * (f + 1) - 1) == 2 * (den * f) + den;
    assert den * (2 * (f + 1) + 1) == 2 * (den * f) + 3 * den;
  }

  /** An integer that is already a byte is stored unchanged, whatever the denominator it is written over. */
  lemma StoresBytesExactly(k: int, den: int)
    requires 0 <= k <= 255 && den > 0
    ensures ToUint8Clamp(k * den, den) == k
  {
    if 0 < k < 255 {
      MulMono(den, k + 1, 255);
      assert den * (k + 1) == k * den + den;
      DivModUnique(k * den, den, 0, k);
    }
  }

  /** Rounding a value that lies between two bytes gives a byte between them. */
  lemma RoundsBetween(num: int, den: int, lo: int, hi: int)
    requires den > 0 && 0 <= lo <= hi <= 255
    requires lo * den <= num <= hi * den
    ensures lo <= ToUint8Clamp(num, den) <= hi
  {
    StoresBytesExactly(lo, den);
    StoresBytesExactly(hi, den);
    Monotone(lo * den, num, den);
    Monotone(num, hi * den, den);
  }

  /** Storing a larger value never gives a smaller byte. */
  lemma Monotone(a: int, b: int, den: int)
    requires den > 0 && a <= b
    ensures ToUint8Clamp(a, den) <= ToUint8Clamp(b, den)
  {
    var ra: int, rb: int := ToUint8Clamp(a, den), ToUint8Clamp(b, den);
    if 0 < a && b < 255 * den {
      MulCancel(den, 2 * ra - 1, 2 * rb + 1);
    }
  }

  /**
    The mean of 49 bytes never lands on a tie (49 is odd), so storing
    sum / 49 gives the integer quotient rounded half up: (sum + 24) / 49.
  */
  lemma MeanOf49(sum: int)
    requires 0 <= sum <= 49 * 255
    ensures ToUint8Clamp(sum, 49) == (sum + 24) / 49
  {
  }
}
