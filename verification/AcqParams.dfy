/**
 The arithmetic of an acquisition request (`get_internal_values` and `encode_params` in
 `modules/acq.cc`).
 */
module AcqParams {
  import opened Words
  import Bits

  const DDR3_PAYLOAD_SIZE: nat := 32

  /** Size of the region of one acquisition core */
  const REGION: nat := 0x1000_0000

  // ----- the sample size

  /** The two 16-bit fields of a channel description register. */
  function LowHalf(desc: Word): nat { desc % 0x1_0000 }

  function HighHalf(desc: Word): nat { desc / 0x1_0000 }

  /** They are the fields under the masks of the register map. */
  lemma HalvesAreFields(desc: Word, low: Word, high: Word)
    requires low == 0xFFFF && high == 0xFFFF_0000
    ensures Bits.Contiguous(low) && Bits.Selected(desc, low) == LowHalf(desc)
    ensures Bits.Contiguous(high) && Bits.Selected(desc, high) == HighHalf(desc)
  {
    var w := 16;
    Pow2Constants();
    Bits.MaskClosedForm(0, w);
    Bits.MaskClosedForm(w, w);
    Bits.MaskShape(0, w);
    Bits.MaskShape(w, w);
    Bits.GetClosedForm(desc, 0, w);
    Bits.GetClosedForm(desc, w, w);
    DivModUnique(HighHalf(desc), 0x1_0000, 0, HighHalf(desc));
  }

  /** Bits of width, in bytes, times words coalesced */
  function SampleSize(desc: Word): nat {
    LowHalf(desc) / 8 * HighHalf(desc)
  }

  predicate PowerOfTwo(x: nat) { Bits.PopCount(x) == 1 }

  lemma PowerOfTwoShape(x: nat)
    requires PowerOfTwo(x)
    ensures 0 < x && x == Pow2(Bits.CountrZero(x))
  {
    Bits.OneBitMask(x);
    Bits.ContiguousShape(x);
    Bits.MaskClosedForm(Bits.CountrZero(x), 1);
  }

  ghost predicate SomePow2(x: nat) { exists k: nat :: x == Pow2(k) }

  /** The bit count of the code finds exactly the powers of two. */
  lemma PowerOfTwoIff(x: nat)
    ensures PowerOfTwo(x) <==> SomePow2(x)
  {
    if PowerOfTwo(x) {
      PowerOfTwoShape(x);
    }
    if k: nat :| x == Pow2(k) {
      OneBit(k);
    }
  }

  lemma {:induction false} OneBit(k: nat)
    ensures Bits.PopCount(Pow2(k)) == 1
  {
    if k != 0 {
      OneBit(k - 1);
    }
  }

  lemma OddTimesOdd(a: nat, b: nat)
    requires a % 2 == 1 && b % 2 == 1
    ensures a * b % 2 == 1
  {
    var x, y := a / 2, b / 2;
    assert a * b == 2 * (2 * x * y + x + y) + 1;
  }

  lemma ProductOne(a: nat, b: nat)
    requires a * b == 1
    ensures a == 1 && b == 1
  {
    if a != 1 && b != 0 {
      StepsApart(1, b, a);
      StepsApart(0, a, b);
    }
  }

  /** Multiples of `a` lie `a` apart. */
  lemma StepsApart(p: int, q: int, a: nat)
    ensures p < q ==> p * a + a <= q * a
    ensures p <= q ==> p * a <= q * a
  {
    if p < q {
      assert 0 <= (q - p - 1) * a;
    }
  }

  /** Only powers of two divide a power of two. */
  lemma {:induction false} PowerFactors(a: nat, b: nat, k: nat) returns (i: nat, j: nat)
    requires a * b == Pow2(k)
    ensures i + j == k && a == Pow2(i) && b == Pow2(j)
    decreases k
  {
    if k == 0 {
      i, j := 0, 0;
      ProductOne(a, b);
    } else if a % 2 == 0 {
      assert a * b == 2 * (a / 2 * b);
      i, j := PowerFactors(a / 2, b, k - 1);
      i := i + 1;
    } else {
      if b % 2 == 1 {
        OddTimesOdd(a, b);
      }
      assert a * b == 2 * (a * (b / 2));
      i, j := PowerFactors(a, b / 2, k - 1);
      j := j + 1;
    }
  }

  /** A sample size the controller accepts is at most 2^27, and divides the region. */
  lemma SampleSizeShape(desc: Word)
    requires PowerOfTwo(SampleSize(desc))
    ensures exists k: nat :: k <= 27 && SampleSize(desc) == Pow2(k)
    ensures 0 < SampleSize(desc) <= REGION && REGION % SampleSize(desc) == 0 && 2 <= REGION / SampleSize(desc)
  {
    var size := SampleSize(desc);
    PowerOfTwoShape(size);
    var k := Bits.CountrZero(size);
    var i, j := PowerFactors(LowHalf(desc) / 8, HighHalf(desc), k);
    ExponentBound(i, j);
    RegionDivides(size, k);
  }

  lemma ExponentBound(i: nat, j: nat)
    requires Pow2(i) < 0x2000 && Pow2(j) < 0x1_0000
    ensures i + j <= 27
  {
    Pow2Constants();
    assert Pow2(16) == 8 * Pow2(13);
    if 13 <= i {
      Pow2Monotone(13, i);
    }
    if 16 <= j {
      Pow2Monotone(16, j);
    }
  }

  lemma RegionDivides(size: nat, k: nat)
    requires size == Pow2(k) && k <= 27
    ensures REGION % size == 0 && 2 <= REGION / size && REGION / size * size == REGION
  {
    Pow2Constants();
    Pow2Add(28 - k, k);
    DivModUnique(REGION, size, Pow2(28 - k), 0);
    Pow2Monotone(1, 28 - k);
  }

  // ----- alignment

  /** Samples that fill whole 32-byte bursts */
  function Alignment(sampleSize: nat): (a: nat)
    requires 0 < sampleSize
  {
    if DDR3_PAYLOAD_SIZE > sampleSize then DDR3_PAYLOAD_SIZE / sampleSize else 1
  }

  lemma AlignmentBound(sampleSize: nat)
    requires 0 < sampleSize
    ensures 0 < Alignment(sampleSize) <= 32
  {
  }

  /** `align_extend`, in wrapping unsigned arithmetic */
  function AlignExtend(value: Word, alignment: nat, canBeZero: bool): Word
    requires 0 < alignment <= 32
  {
    if value == 0 then (if canBeZero then 0 else alignment)
    else
      var extra := value % alignment;
      if extra != 0 then (value + (alignment - extra)) % 0x1_0000_0000 else value
  }

  ghost predicate IsLeastMultiple(r: nat, a: nat, value: nat)
    requires 0 < a
  {
    r % a == 0 && value <= r && forall m: nat :: m % a == 0 && value <= m ==> r <= m
  }

  /** The least number of samples that fill whole bursts of 32 bytes */
  ghost predicate FillsBursts(a: nat, sampleSize: nat) {
    0 < a && a * sampleSize % 32 == 0 && forall n: nat :: 0 < n < a ==> n * sampleSize % 32 != 0
  }

  /** The alignments of accepted sample sizes are the least that fill bursts; as powers of two they divide 2^32. */
  lemma AlignmentShape(sampleSize: nat, k: nat)
    requires sampleSize == Pow2(k) && k <= 27
    ensures Alignment(sampleSize) in {1, 2, 4, 8, 16, 32} && FillsBursts(Alignment(sampleSize), sampleSize)
  {
    if 5 <= k {
      Pow2Add(5, k - 5);
      Pow2Constants();
      Pow2Monotone(5, k);
      DivModUnique(sampleSize, 32, Pow2(k - 5), 0);
    } else {
      SmallPowers(k);
      SmallSamples(sampleSize);
    }
  }

  lemma SmallSamples(size: nat)
    requires size in {1, 2, 4, 8, 16}
    ensures Alignment(size) in {1, 2, 4, 8, 16, 32} && FillsBursts(Alignment(size), size)
  {
    forall n: nat | 0 < n < Alignment(size)
      ensures n * size % 32 != 0
    {
      StepsApart(n, Alignment(size), size);
      StepsApart(0, n, size);
      DivModUnique(n * size, 32, 0, n * size);
    }
  }

  lemma SmallPowers(k: nat)
    requires k < 5
    ensures Pow2(k) in {1, 2, 4, 8, 16}
  {
    assert Pow2(1) == 2 && Pow2(2) == 4 && Pow2(3) == 8 && Pow2(4) == 16;
  }

  lemma NextMultipleIsLeast(v: nat, a: nat)
    requires 0 < a && v % a != 0
    ensures IsLeastMultiple(v + (a - v % a), a, v)
  {
    var q := v / a;
    DivModUnique(v + (a - v % a), a, q + 1, 0);
    forall m: nat | m % a == 0 && v <= m
      ensures v + (a - v % a) <= m
    {
      StepsApart(m / a, q, a);
      StepsApart(q + 1, m / a, a);
    }
  }

  lemma MultipleIsLeast(v: nat, a: nat)
    requires 0 < a && v % a == 0
    ensures IsLeastMultiple(v, a, v)
  {
  }

  /** Rounding up works for every count up to 2^32 - alignment; beyond that it wraps around to zero. */
  lemma AlignExtendMeaning(value: Word, a: nat, canBeZero: bool)
    requires a in {1, 2, 4, 8, 16, 32} && value != 0
    ensures IsLeastMultiple(AlignExtend(value, a, canBeZero), a, value) <==> value <= 0x1_0000_0000 - a
    ensures 0x1_0000_0000 - a < value ==> AlignExtend(value, a, canBeZero) == 0
  {
    var q := value / a;
    WrapPoint(value, a, 0x1_0000_0000 / a);
    if value % a == 0 {
      MultipleIsLeast(value, a);
    } else {
      NextMultipleIsLeast(value, a);
    }
  }

  /** The multiple above a count passes 2^32 exactly when the count is less than one alignment away from it. */
  lemma WrapPoint(value: Word, a: nat, top: nat)
    requires 0 < a && top * a == 0x1_0000_0000
    ensures value % a == 0 ==> value <= 0x1_0000_0000 - a
    ensures value % a != 0 ==>
              var next := value + (a - value % a);
              && (value <= 0x1_0000_0000 - a ==> next < 0x1_0000_0000)
              && (0x1_0000_0000 - a < value ==> next == 0x1_0000_0000)
  {
    var q := value / a;
    assert value == q * a + value % a;
    StepsApart(top, q, a);
    StepsApart(q, top, a);
    StepsApart(q + 1, top, a);
    StepsApart(top - 1, q, a);
  }

  // ----- the checks of a request

  datatype Refusal = NoSamples | BadPostSamples | TooManySamples

  /** The two aligned counts; only an immediate acquisition may have no post-trigger samples. */
  function PreAligned(sampleSize: nat, pre: Word): Word
    requires 0 < sampleSize
  {
    AlignExtend(pre, Alignment(sampleSize), false)
  }

  function PostAligned(sampleSize: nat, post: Word, now: bool): Word
    requires 0 < sampleSize
  {
    AlignExtend(post, Alignment(sampleSize), now)
  }

  /** What `encode_params` throws for the counts, None if it goes on. */
  function Refused(sampleSize: nat, pre: Word, post: Word, now: bool): Option<Refusal>
    requires 0 < sampleSize
  {
    if (post + pre) % 0x1_0000_0000 == 0 then Some(NoSamples)
    else if post != 0 && now then Some(BadPostSamples)
    else if PreAligned(sampleSize, pre) + PostAligned(sampleSize, post, now) >= REGION / sampleSize then
      Some(TooManySamples)
    else None
  }

  /** `r` is the aligned count for a request of `value` samples. */
  ghost predicate Covers(r: nat, a: nat, value: nat, canBeZero: bool)
    requires 0 < a
  {
    if value == 0 then r == (if canBeZero then 0 else a) else IsLeastMultiple(r, a, value)
  }

  /** `r` is `value` rounded up to a multiple of `a`, in arithmetic that wraps around at 2^32. */
  ghost predicate RoundedUp(r: nat, a: nat, value: nat, canBeZero: bool)
    requires 0 < a
  {
    if value == 0 then r == (if canBeZero then 0 else a)
    else if value <= 0x1_0000_0000 - a then r % a == 0 && value <= r < value + a
    else r == 0
  }

  lemma AlignExtendRounds(value: Word, a: nat, canBeZero: bool)
    requires a in {1, 2, 4, 8, 16, 32}
    ensures RoundedUp(AlignExtend(value, a, canBeZero), a, value, canBeZero)
  {
    if value != 0 {
      AlignExtendMeaning(value, a, canBeZero);
      var next := value + (a - value % a);
      if value <= 0x1_0000_0000 - a {
        DivModUnique(next, a, value / a + 1, 0);
      }
    }
  }

  lemma FillsBurstsUnique(a: nat, b: nat, sampleSize: nat)
    requires FillsBursts(a, sampleSize) && FillsBursts(b, sampleSize)
    ensures a == b
  {
  }

  lemma RoundedUpUnique(r: nat, a: nat, value: Word, canBeZero: bool)
    requires a in {1, 2, 4, 8, 16, 32} && RoundedUp(r, a, value, canBeZero)
    ensures r == AlignExtend(value, a, canBeZero)
  {
    AlignExtendRounds(value, a, canBeZero);
    if value != 0 && value <= 0x1_0000_0000 - a {
      OneMultiple(r, AlignExtend(value, a, canBeZero), a, value);
    }
  }

  lemma OneMultiple(r: nat, s: nat, a: nat, value: nat)
    requires 0 < a && r % a == 0 && s % a == 0 && value <= r < value + a && value <= s < value + a
    ensures r == s
  {
    var d := r / a - s / a;
    assert r - s == d * a;
    if d != 0 {
      NonzeroMultiple(d, a);
    }
  }

  lemma WholeBursts(r: nat, a: nat, sampleSize: nat)
    requires 0 < a && r % a == 0 && a * sampleSize % 32 == 0
    ensures r * sampleSize % 32 == 0
  {
    var m, n := r / a, a * sampleSize / 32;
    assert r == m * a && a * sampleSize == n * 32;
    assert r * sampleSize == m * (a * sampleSize) == m * n * 32;
    DivModUnique(r * sampleSize, 32, m * n, 0);
  }

  lemma CountCovers(value: Word, a: nat, canBeZero: bool)
    requires a in {1, 2, 4, 8, 16, 32}
    ensures value <= 0x1_0000_0000 - a <==> Covers(AlignExtend(value, a, canBeZero), a, value, canBeZero)
    ensures value <= 0x1_0000_0000 - a ==>
              AlignExtend(value, a, canBeZero) % a == 0 && value <= AlignExtend(value, a, canBeZero)
  {
    if value != 0 {
      AlignExtendMeaning(value, a, canBeZero);
    }
  }

  /**
   A request that passes the checks has aligned counts that cover it exactly when neither count is
   within one alignment of 2^32; then they fill whole bursts and leave a slot of the region unused.
   */
  lemma AcceptedMeaning(desc: Word, pre: Word, post: Word, now: bool)
    requires PowerOfTwo(SampleSize(desc)) && 0 < SampleSize(desc)
    requires Refused(SampleSize(desc), pre, post, now).None?
    ensures var size := SampleSize(desc);
            var a, pa, po := Alignment(size), PreAligned(size, pre), PostAligned(size, post, now);
            && 0 < a
            && pa + po < REGION / size
            && ((Covers(pa, a, pre, false) && Covers(po, a, post, now))
                <==> pre <= 0x1_0000_0000 - a && post <= 0x1_0000_0000 - a)
            && (pre <= 0x1_0000_0000 - a && post <= 0x1_0000_0000 - a ==>
                  && pa * size % 32 == 0 && po * size % 32 == 0
                  && 0 < pre + post < REGION / size)
  {
    var size := SampleSize(desc);
    SampleSizeShape(desc);
    var k: nat :| k <= 27 && size == Pow2(k);
    AlignmentShape(size, k);
    var a := Alignment(size);
    CountCovers(pre, a, false);
    CountCovers(post, a, now);
    if pre <= 0x1_0000_0000 - a && post <= 0x1_0000_0000 - a {
      WholeBursts(PreAligned(size, pre), a, size);
      WholeBursts(PostAligned(size, post, now), a, size);
    }
  }

  /** The end address given to the core is where the last whole slot of the region starts. */
  lemma LastSlot(desc: Word, ramStart: nat)
    requires PowerOfTwo(SampleSize(desc)) && 0 < SampleSize(desc)
    ensures var size := SampleSize(desc);
            ramStart + REGION - size == ramStart + (REGION / size - 1) * size
  {
    SampleSizeShape(desc);
    var k: nat :| k <= 27 && SampleSize(desc) == Pow2(k);
    RegionDivides(SampleSize(desc), k);
  }

  /** One-byte samples: a request for 2^32 - 1 of them passes, with an aligned count of zero. */
  lemma WrappedRequestPasses(desc: Word)
    requires desc == 0x1_0008
    ensures SampleSize(desc) == 1 && PowerOfTwo(SampleSize(desc))
    ensures Refused(SampleSize(desc), 0xFFFF_FFFF, 0, true) == None && PreAligned(SampleSize(desc), 0xFFFF_FFFF) == 0
  {
    assert SampleSize(desc) == 1;
    assert Bits.PopCount(1) == 1;
  }
}
