/**
 Conversion between 32-bit fixed point and floating point (`util/util.cc`).

 Scaling by a power of two is exact in a double, so reals stand for doubles.
 */
module FixedPoint {
  import opened Words

  const MAX_REP: Word := 0x7FFF_FFFF
  const MIN_REP: Word := 0x8000_0000

  datatype Error = Greater | Less

  function Scale(p: nat): (s: real)
    ensures 0.0 < s
  {
    Pow2(p) as real
  }

  function Scaled(v: real, p: nat): real {
    v * Scale(p)
  }

  /** `fixed2float` */
  function FixedToFloat(v: Word, p: nat): real {
    AsInt32(v) as real / Scale(p)
  }

  /** Moving the point by one position halves the value; with the point at 0, it is the integer itself. */
  lemma PointMeaning(v: Word, p: nat)
    ensures FixedToFloat(v, 0) == AsInt32(v) as real
    ensures 2.0 * FixedToFloat(v, p + 1) == FixedToFloat(v, p)
  {
    assert Scale(0) == 1.0 && Scale(p + 1) == 2.0 * Scale(p);
  }

  /** The conversion of a double to an integer, toward zero. */
  function Trunc(x: real): int {
    if 0.0 <= x then x.Floor else -((-x).Floor)
  }

  /** The values a fixed-point word can hold run from -2^31 to 2^31 - 1, scaled. */
  function MaxValue(p: nat): real { FixedToFloat(MAX_REP, p) }

  function MinValue(p: nat): real { FixedToFloat(MIN_REP, p) }

  /** Comparing with the value of a word is comparing the scaled number with the word. */
  lemma ScaledBound(v: real, w: Word, p: nat)
    ensures Scaled(FixedToFloat(w, p), p) == AsInt32(w) as real
    ensures v < FixedToFloat(w, p) <==> Scaled(v, p) < AsInt32(w) as real
    ensures v == FixedToFloat(w, p) <==> Scaled(v, p) == AsInt32(w) as real
  {
    DivMul(AsInt32(w) as real, Scale(p));
    MulOrder(v, FixedToFloat(w, p), Scale(p));
  }

  lemma ScaledBounds(v: real, p: nat)
    ensures v <= MaxValue(p) <==> Scaled(v, p) <= 2147483647.0
    ensures v < MaxValue(p) <==> Scaled(v, p) < 2147483647.0
    ensures v < MinValue(p) <==> Scaled(v, p) < -2147483648.0
    ensures v <= MinValue(p) <==> Scaled(v, p) <= -2147483648.0
    ensures MinValue(p) < MaxValue(p) < -MinValue(p)
  {
    ScaledBound(v, MAX_REP, p);
    ScaledBound(v, MIN_REP, p);
    ScaledBound(MinValue(p), MAX_REP, p);
    ScaledBound(-MaxValue(p), MIN_REP, p);
    ScaledBound(MinValue(p), MIN_REP, p);
    ScaledBound(MaxValue(p), MAX_REP, p);
  }

  lemma DivMul(a: real, s: real)
    requires 0.0 < s
    ensures a / s * s == a
  {
  }

  /** Scaling keeps the order. */
  lemma MulOrder(a: real, b: real, s: real)
    requires 0.0 < s
    ensures a < b <==> a * s < b * s
    ensures a == b <==> a * s == b * s
    ensures a > b <==> a * s > b * s
    ensures a <= b <==> a * s <= b * s
  {
    if a < b {
      MulStrict(a, b, s);
    } else if b < a {
      MulStrict(b, a, s);
    }
  }

  /** `float2fixed` */
  function FloatToFixed(v: real, p: nat, saturate: bool): Result<Word, Error> {
    ScaledBounds(v, p);
    if saturate && MaxValue(p) <= v then Ok(MAX_REP)
    else if saturate && v <= MinValue(p) then Ok(MIN_REP)
    else if !saturate && MaxValue(p) < v then
      (if v == -MinValue(p) then Ok(MAX_REP) else Err(Greater))
    else if !saturate && v < MinValue(p) then Err(Less)
    else Ok(AsWord(Trunc(Scaled(v, p))))
  }

  /** The saturating form always answers. */
  function Saturating(v: real, p: nat): Word {
    FloatToFixed(v, p, true).value
  }

  lemma TruncInt(k: int)
    ensures Trunc(k as real) == k
  {
    assert (-(k as real)).Floor == -k by {
      assert -(k as real) == (-k) as real;
    }
  }

  /** Every 32-bit word survives the trip through a double, in either mode. */
  lemma FixedRoundTrip(w: Word, p: nat, saturate: bool)
    ensures FloatToFixed(FixedToFloat(w, p), p, saturate) == Ok(w)
  {
    ScaledBound(0.0, w, p);
    ScaledBounds(FixedToFloat(w, p), p);
    TruncInt(AsInt32(w));
  }

  /**
   The saturating form clamps outside the representable range.  Inside it, the result is the word
   nearest to zero among those whose value is less than one step away.
   */
  lemma SaturatingMeaning(v: real, p: nat)
    ensures MaxValue(p) <= v ==> Saturating(v, p) == MAX_REP
    ensures v <= MinValue(p) ==> Saturating(v, p) == MIN_REP
    ensures MinValue(p) <= v <= MaxValue(p) ==>
              var r := FixedToFloat(Saturating(v, p), p);
              && Scaled(Abs(v - r), p) < 1.0
              && Abs(r) <= Abs(v)
              && (0.0 <= v ==> 0.0 <= r) && (v <= 0.0 ==> r <= 0.0)
  {
    ScaledBounds(v, p);
    if MinValue(p) <= v <= MaxValue(p) {
      SaturatingInside(v, p);
      TruncClose(v, FixedToFloat(Saturating(v, p), p), p);
    }
  }

  lemma SaturatingInside(v: real, p: nat)
    requires MinValue(p) <= v <= MaxValue(p)
    ensures AsInt32(Saturating(v, p)) == Trunc(Scaled(v, p))
    ensures Scaled(FixedToFloat(Saturating(v, p), p), p) == Trunc(Scaled(v, p)) as real
  {
    ScaledBounds(v, p);
    ScaledBound(0.0, Saturating(v, p), p);
  }

  lemma TruncNear(x: real)
    ensures 0.0 <= x ==> 0.0 <= Trunc(x) as real <= x < Trunc(x) as real + 1.0
    ensures x <= 0.0 ==> Trunc(x) as real - 1.0 < x <= Trunc(x) as real <= 0.0
  {
  }

  lemma AbsScaled(v: real, r: real, s: real)
    requires 0.0 < s
    ensures Abs(v - r) * s == Abs(v * s - r * s)
  {
    MulOrder(v, r, s);
    assert (v - r) * s == v * s - r * s;
    assert (r - v) * s == r * s - v * s;
  }

  lemma ScaledOrder(a: real, b: real, p: nat)
    ensures a < b <==> Scaled(a, p) < Scaled(b, p)
    ensures a == b <==> Scaled(a, p) == Scaled(b, p)
    ensures Scaled(0.0, p) == 0.0 && Scaled(Abs(a - b), p) == Abs(Scaled(a, p) - Scaled(b, p))
  {
    MulOrder(a, b, Scale(p));
    AbsScaled(a, b, Scale(p));
  }

  lemma TruncClose(v: real, r: real, p: nat)
    requires Scaled(r, p) == Trunc(Scaled(v, p)) as real
    ensures Scaled(Abs(v - r), p) < 1.0
    ensures Abs(r) <= Abs(v) && (0.0 <= v ==> 0.0 <= r) && (v <= 0.0 ==> r <= 0.0)
  {
    TruncNear(Scaled(v, p));
    ScaledOrder(v, r, p);
    ScaledOrder(v, 0.0, p);
    ScaledOrder(r, 0.0, p);
  }

  lemma TruncMonotone(x: real, y: real)
    requires x <= y
    ensures Trunc(x) <= Trunc(y)
  {
  }

  /** Larger inputs never give smaller stored numbers. */
  lemma SaturatingMonotone(v: real, u: real, p: nat)
    requires v <= u
    ensures AsInt32(Saturating(v, p)) <= AsInt32(Saturating(u, p))
  {
    SaturatingClamps(v, p);
    SaturatingClamps(u, p);
    ScaledOrder(v, u, p);
    TruncMonotone(Scaled(v, p), Scaled(u, p));
  }

  lemma SaturatingClamps(v: real, p: nat)
    ensures AsInt32(Saturating(v, p)) ==
            var t := Trunc(Scaled(v, p));
            if t < -0x8000_0000 then -0x8000_0000 else if 0x7FFF_FFFF < t then 0x7FFF_FFFF else t
  {
    ScaledBounds(v, p);
  }

  /**
   The checked form throws for exactly the values out of range, except the one that lies one step
   above the maximum, and otherwise agrees with the saturating form.
   */
  lemma CheckedMeaning(v: real, p: nat)
    ensures FloatToFixed(v, p, false) == Err(Less) <==> v < MinValue(p)
    ensures FloatToFixed(v, p, false) == Err(Greater) <==> MaxValue(p) < v && v != -MinValue(p)
    ensures FloatToFixed(v, p, false).Ok? ==> FloatToFixed(v, p, false) == Ok(Saturating(v, p))
  {
    ScaledBounds(v, p);
    TruncInt(0x7FFF_FFFF);
    TruncInt(-0x8000_0000);
  }

  /** What is stored is negative exactly from one step below zero on. */
  lemma NegativeIff(v: real, p: nat)
    ensures AsInt32(Saturating(v, p)) < 0 <==> Scaled(v, p) <= -1.0
  {
    SaturatingClamps(v, p);
    TruncNear(Scaled(v, p));
  }
}
