/**
 Choosing the dividers of an Si57x oscillator (`util/si57x_util.cc`), over the reals.
 */
module Si57xSearch {
  import opened Words

  const FDCO_MIN: real := 4850000000.0
  const FDCO_MAX: real := 5670000000.0
  const NOMINAL_CRYSTAL: real := 114285000.0
  const RFREQ_FACTOR: real := 268435456.0
  const HS_DIV_OPTS: seq<nat> := [11, 9, 7, 6, 5, 4]

  /** `llrint`: the nearest integer, the even one of two equally near. */
  function RoundNearest(x: real): int {
    var f := x.Floor;
    var d := x - f as real;
    if d < 0.5 || (d == 0.5 && f % 2 == 0) then f else f + 1
  }

  lemma RoundNearestMeaning(x: real)
    ensures Abs(x - RoundNearest(x) as real) <= 0.5
    ensures 0.0 <= x ==> 0 <= RoundNearest(x)
    ensures RoundNearest(x) as real == x <==> x.Floor as real == x
  {
  }

  /** `r` is the integer nearest to `x`, the even one of two equally near. */
  predicate IsNearest(x: real, r: int) {
    Abs(x - r as real) < 0.5 || (Abs(x - r as real) == 0.5 && r % 2 == 0)
  }

  lemma NearestIsRounded(x: real, r: int)
    ensures IsNearest(x, r) <==> r == RoundNearest(x)
  {
    if IsNearest(x, r) {
      var d := r - RoundNearest(x);
      assert -1 <= d <= 1;
    }
  }

  lemma RoundInt(k: int)
    ensures RoundNearest(k as real) == k
  {
  }

  /** A double: a number, or one of the results of dividing by zero (an infinity or not a number). */
  datatype Double = Finite(value: real) | NotFinite

  // ----- the grid of divider pairs, in scan order

  /** Pairs per value of the first divider: n1 = 2, 4, .., 128 */
  const PER_HS: nat := 64
  const GRID: nat := 384

  function HsDiv(j: nat): nat
    requires j < GRID
  {
    HS_DIV_OPTS[j / PER_HS]
  }

  function N1(j: nat): nat { 2 + 2 * (j % PER_HS) }

  /** The product of the two dividers of pair `j` */
  function Div(j: nat): nat
    requires j < GRID
  {
    HsDiv(j) * N1(j)
  }

  lemma DivRange(j: nat)
    requires j < GRID
    ensures HsDiv(j) in {4, 5, 6, 7, 9, 11} && 2 <= N1(j) <= 128 && 8 <= Div(j) <= 1408
  {
    MulBounds(HsDiv(j), N1(j));
  }

  lemma MulBounds(a: nat, b: nat)
    requires 4 <= a <= 11 && 2 <= b <= 128
    ensures 8 <= a * b <= 1408
  {
    assert 0 <= (a - 4) * b && 0 <= (11 - a) * b;
  }

  /** The exact multiplier for a pair of dividers, times 2^28 */
  function WantedFor(fxtal: real, freq: real, hsDiv: nat, n1: nat): real
    requires 0.0 < fxtal
  {
    freq * hsDiv as real * n1 as real * RFREQ_FACTOR / fxtal
  }

  function Wanted(fxtal: real, freq: real, j: nat): real
    requires 0.0 < fxtal && j < GRID
  {
    WantedFor(fxtal, freq, HsDiv(j), N1(j))
  }

  /** The oscillator multiplier for pair `j`, as the hardware stores it. */
  function Rfreq(fxtal: real, freq: real, j: nat): int
    requires 0.0 < fxtal && j < GRID
  {
    RoundNearest(Wanted(fxtal, freq, j))
  }

  function Fdco(fxtal: real, rfreq: int): real { rfreq as real * fxtal / RFREQ_FACTOR }

  /** The pair keeps the oscillator in its range. */
  predicate Feasible(fxtal: real, freq: real, j: nat)
    requires 0.0 < fxtal && j < GRID
  {
    FDCO_MIN <= Fdco(fxtal, Rfreq(fxtal, freq, j)) <= FDCO_MAX
  }

  /** How far the output is from `freq` with multiplier `rfreq` and divider product `d`. */
  function OutputErr(fxtal: real, freq: real, rfreq: int, d: nat): real
    requires 0 < d
  {
    Abs(freq - Fdco(fxtal, rfreq) / d as real)
  }

  function FreqErr(fxtal: real, freq: real, j: nat): real
    requires 0.0 < fxtal && j < GRID
  {
    DivRange(j);
    OutputErr(fxtal, freq, Rfreq(fxtal, freq, j), Div(j))
  }

  /** Pair `b` is feasible, at least as good as all of the first `n` feasible pairs, and better than those before it. */
  ghost predicate Best(fxtal: real, freq: real, b: nat, n: nat)
    requires 0.0 < fxtal && n <= GRID
  {
    && b < n && Feasible(fxtal, freq, b)
    && forall j :: 0 <= j < n && Feasible(fxtal, freq, j) ==>
                     && FreqErr(fxtal, freq, b) <= FreqErr(fxtal, freq, j)
                     && (j < b ==> FreqErr(fxtal, freq, b) < FreqErr(fxtal, freq, j))
  }

  // ----- the same, by the dividers alone

  /** The dividers searched, and the order in which they are tried */
  predicate IsPair(h: nat, n: nat) { h in {4, 5, 6, 7, 9, 11} && n % 2 == 0 && 2 <= n <= 128 }

  predicate Earlier(h: nat, n: nat, h': nat, n': nat) { h > h' || (h == h' && n < n') }

  /** `r` is the multiplier for dividers `h` and `n`, and the oscillator is in its range. */
  predicate Possible(fxtal: real, freq: real, h: nat, n: nat, r: int)
    requires 0.0 < fxtal
  {
    && IsPair(h, n) && IsNearest(freq * h as real * n as real * 268435456.0 / fxtal, r)
    && 4850000000.0 <= r as real * fxtal / 268435456.0 <= 5670000000.0
  }

  function ErrorOf(fxtal: real, freq: real, h: nat, n: nat, r: int): real
    requires 0 < h * n
  {
    Abs(freq - r as real * fxtal / 268435456.0 / (h * n) as real)
  }

  /** No possible choice has a smaller error, and none tried earlier the same. */
  ghost predicate Chosen(fxtal: real, freq: real, h: nat, n: nat, r: int)
    requires 0.0 < fxtal
  {
    && Possible(fxtal, freq, h, n, r) && 0 < h * n
    && forall h': nat, n': nat, r' :: Possible(fxtal, freq, h', n', r') ==>
         && 0 < h' * n' && ErrorOf(fxtal, freq, h, n, r) <= ErrorOf(fxtal, freq, h', n', r')
         && (Earlier(h', n', h, n) ==> ErrorOf(fxtal, freq, h, n, r) < ErrorOf(fxtal, freq, h', n', r'))
  }

  /** The grid holds every pair, and only pairs; GridOrder says that it holds each once. */
  lemma GridHolds(h: nat, n: nat)
    ensures IsPair(h, n) <==> exists j :: 0 <= j < GRID && HsDiv(j) == h && N1(j) == n
  {
    if IsPair(h, n) {
      var i := if h == 11 then 0 else if h == 9 then 1 else if h == 7 then 2 else if h == 6 then 3
               else if h == 5 then 4 else 5;
      var j := PER_HS * i + n / 2 - 1;
      PairAt(i, j);
    }
    if j :| 0 <= j < GRID && HsDiv(j) == h && N1(j) == n {
      DivRange(j);
    }
  }

  lemma GridOrder(j: nat, j': nat)
    requires j < GRID && j' < GRID
    ensures j < j' <==> Earlier(HsDiv(j), N1(j), HsDiv(j'), N1(j'))
  {
    DivMod(j);
    DivMod(j');
  }

  lemma DivMod(j: nat)
    requires j < GRID
    ensures j == PER_HS * (j / PER_HS) + j % PER_HS && j / PER_HS < 6
  {
  }

  lemma PossibleFor(fxtal: real, freq: real, h: nat, n: nat, r: int, wanted: real)
    requires 0.0 < fxtal && wanted == WantedFor(fxtal, freq, h, n)
    ensures Possible(fxtal, freq, h, n, r) <==>
              IsPair(h, n) && IsNearest(wanted, r) && FDCO_MIN <= Fdco(fxtal, r) <= FDCO_MAX
  {
    var f := RFREQ_FACTOR;
    assert f == 268435456.0;
    assert freq * h as real * n as real * f == freq * h as real * n as real * 268435456.0;
    assert wanted == freq * h as real * n as real * 268435456.0 / fxtal;
    assert Fdco(fxtal, r) == r as real * fxtal / 268435456.0;
  }

  lemma ErrorFor(fxtal: real, freq: real, h: nat, n: nat, r: int)
    requires 0 < h * n
    ensures ErrorOf(fxtal, freq, h, n, r) == OutputErr(fxtal, freq, r, h * n)
  {
  }

  /** A pair of the grid is possible with its multiplier and no other. */
  lemma PossibleIff(fxtal: real, freq: real, j: nat, r: int)
    requires 0.0 < fxtal && j < GRID
    ensures Possible(fxtal, freq, HsDiv(j), N1(j), r) <==> Feasible(fxtal, freq, j) && r == Rfreq(fxtal, freq, j)
    ensures 0 < HsDiv(j) * N1(j)
    ensures r == Rfreq(fxtal, freq, j) ==> ErrorOf(fxtal, freq, HsDiv(j), N1(j), r) == FreqErr(fxtal, freq, j)
  {
    var h, n, wanted := HsDiv(j), N1(j), Wanted(fxtal, freq, j);
    GridHolds(h, n);
    NearestIsRounded(wanted, r);
    DivRange(j);
    PossibleFor(fxtal, freq, h, n, r, wanted);
    ErrorFor(fxtal, freq, h, n, r);
  }

  lemma BestIsChosen(fxtal: real, freq: real, b: nat)
    requires 0.0 < fxtal && b < GRID && Best(fxtal, freq, b, GRID)
    ensures Chosen(fxtal, freq, HsDiv(b), N1(b), Rfreq(fxtal, freq, b))
  {
    var h, n, r := HsDiv(b), N1(b), Rfreq(fxtal, freq, b);
    PossibleIff(fxtal, freq, b, r);
    forall h': nat, n': nat, r' | Possible(fxtal, freq, h', n', r')
      ensures 0 < h' * n' && ErrorOf(fxtal, freq, h, n, r) <= ErrorOf(fxtal, freq, h', n', r')
      ensures Earlier(h', n', h, n) ==> ErrorOf(fxtal, freq, h, n, r) < ErrorOf(fxtal, freq, h', n', r')
    {
      GridHolds(h', n');
      var j :| 0 <= j < GRID && HsDiv(j) == h' && N1(j) == n';
      PossibleIff(fxtal, freq, j, r');
      GridOrder(j, b);
    }
  }

  lemma PossibleIsFeasible(fxtal: real, freq: real, h: nat, n: nat, r: int) returns (j: nat)
    requires 0.0 < fxtal && Possible(fxtal, freq, h, n, r)
    ensures j < GRID && Feasible(fxtal, freq, j) && HsDiv(j) == h && N1(j) == n && Rfreq(fxtal, freq, j) == r
  {
    GridHolds(h, n);
    j :| 0 <= j < GRID && HsDiv(j) == h && N1(j) == n;
    PossibleIff(fxtal, freq, j, r);
  }

  /** Some choice of dividers is possible. */
  ghost predicate Reachable(fxtal: real, freq: real)
    requires 0.0 < fxtal
  {
    exists h: nat, n: nat, r :: Possible(fxtal, freq, h, n, r)
  }

  lemma ReachableIff(fxtal: real, freq: real)
    requires 0.0 < fxtal
    ensures Reachable(fxtal, freq) <==> exists j :: 0 <= j < GRID && Feasible(fxtal, freq, j)
  {
    if Reachable(fxtal, freq) {
      var h: nat, n: nat, r :| Possible(fxtal, freq, h, n, r);
      var j := PossibleIsFeasible(fxtal, freq, h, n, r);
    }
    if j :| 0 <= j < GRID && Feasible(fxtal, freq, j) {
      PossibleIff(fxtal, freq, j, Rfreq(fxtal, freq, j));
    }
  }

  // ----- the rounding error

  lemma ScaleDown(a: real, b: real, k: real)
    requires 0.0 < k && Abs(a) <= b
    ensures Abs(a * k) <= b * k
  {
    assert 0.0 <= (b - a) * k && 0.0 <= (b + a) * k;
  }

  lemma RealDiv(a: real, b: real, q: real)
    requires b != 0.0 && a == q * b
    ensures a / b == q
  {
  }

  /** With `x` rounded to `r`, both scaled by `fxtal / (f d)`. */
  lemma RoundedOutput(freq: real, d: real, f: real, fxtal: real, x: real, r: real)
    requires 0.0 < d && 0.0 < f && 0.0 < fxtal && x * fxtal == freq * d * f
    ensures f * d != 0.0 && freq - r * fxtal / f / d == (x - r) * (fxtal / (f * d))
  {
    var k := fxtal / (f * d);
    assert f * d > 0.0;
    assert k * (f * d) == fxtal;
    assert x * k * (f * d) == freq * (f * d);
    CancelReal(x * k, freq, f * d);
    assert r * fxtal == r * k * d * f;
    RealDiv(r * fxtal, f, r * k * d);
    RealDiv(r * k * d, d, r * k);
  }

  lemma CancelReal(a: real, b: real, c: real)
    requires c != 0.0 && a * c == b * c
    ensures a == b
  {
  }

  lemma WantedTimesFxtal(fxtal: real, freq: real, j: nat)
    requires 0.0 < fxtal && j < GRID
    ensures Wanted(fxtal, freq, j) * fxtal == freq * Div(j) as real * RFREQ_FACTOR
  {
    DivRange(j);
    var h, n := HsDiv(j) as real, N1(j) as real;
    assert h * n == Div(j) as real;
    assert freq * h * n == freq * (h * n);
  }

  /** Half a step of the multiplier, seen at the output */
  function HalfStep(fxtal: real, d: nat): real
    requires 0 < d
  {
    fxtal / (RFREQ_FACTOR * d as real) / 2.0
  }

  lemma RoundedError(freq: real, d: nat, fxtal: real, x: real, rfreq: int)
    requires 0 < d && 0.0 < fxtal && x * fxtal == freq * d as real * RFREQ_FACTOR && Abs(x - rfreq as real) <= 0.5
    ensures OutputErr(fxtal, freq, rfreq, d) <= HalfStep(fxtal, d)
  {
    RoundedOutput(freq, d as real, RFREQ_FACTOR, fxtal, x, rfreq as real);
    ScaleDown(x - rfreq as real, 0.5, fxtal / (RFREQ_FACTOR * d as real));
  }

  /** A pair's error is at most half a step of the multiplier, seen at the output. */
  lemma ErrorBound(fxtal: real, freq: real, j: nat)
    requires 0.0 < fxtal && j < GRID
    ensures 0 < Div(j) && FreqErr(fxtal, freq, j) <= HalfStep(fxtal, Div(j))
  {
    DivRange(j);
    RoundNearestMeaning(Wanted(fxtal, freq, j));
    WantedTimesFxtal(fxtal, freq, j);
    RoundedError(freq, Div(j), fxtal, Wanted(fxtal, freq, j), Rfreq(fxtal, freq, j));
  }

  lemma MulMonotone(a: real, b: real, k: real)
    requires a <= b && 0.0 <= k
    ensures a * k <= b * k
  {
    assert 0.0 <= (b - a) * k;
  }

  /** A feasible pair multiplies the crystal by something, so the crystal is slow enough for the error to be small. */
  lemma FeasibleErrorSmall(fxtal: real, freq: real, j: nat)
    requires 0.0 < fxtal && 0.0 <= freq && j < GRID && Feasible(fxtal, freq, j)
    ensures 0 < Rfreq(fxtal, freq, j) && FreqErr(fxtal, freq, j) < 1000000000.0
  {
    var r := Rfreq(fxtal, freq, j);
    var d := Div(j);
    DivRange(j);
    ErrorBound(fxtal, freq, j);
    PositiveMultiplier(fxtal, r);
    SmallHalfStep(fxtal, r, d);
  }

  lemma PositiveMultiplier(fxtal: real, r: int)
    requires 0.0 < fxtal && FDCO_MIN <= Fdco(fxtal, r)
    ensures 0 < r
  {
    if r <= 0 {
      MulMonotone(r as real, 0.0, fxtal);
    }
  }

  lemma SmallHalfStep(fxtal: real, r: int, d: nat)
    requires 0.0 < fxtal && 0 < r && Fdco(fxtal, r) <= FDCO_MAX && 8 <= d
    ensures HalfStep(fxtal, d) < 1000000000.0
  {
    MulMonotone(1.0, r as real, fxtal);
    var k := RFREQ_FACTOR * d as real;
    assert fxtal <= FDCO_MAX * RFREQ_FACTOR;
    assert RFREQ_FACTOR * 8.0 <= k;
    assert fxtal <= FDCO_MAX / 8.0 * k by {
      MulMonotone(RFREQ_FACTOR * 8.0, k, FDCO_MAX / 8.0);
    }
    DivLe(fxtal, FDCO_MAX / 8.0, k);
  }

  lemma DivLe(a: real, q: real, k: real)
    requires 0.0 < k && a <= q * k
    ensures a / k <= q
  {
    var x := a / k;
    assert a == x * k;
    if q < x {
      MulStrict(q, x, k);
    }
  }

  /** The best pair is unique. */
  lemma BestUnique(fxtal: real, freq: real, b: nat, b': nat, n: nat)
    requires 0.0 < fxtal && n <= GRID && Best(fxtal, freq, b, n) && Best(fxtal, freq, b', n)
    ensures b == b'
  {
  }

  /** The variables of the search: whether a pair is set, its error and its values. */
  datatype Choice = Choice(found: bool, err: real, n1: nat, hsDiv: nat, rfreq: int)

  /** What the search knows after the first `n` pairs. */
  ghost predicate Searched(fxtal: real, freq: real, n: nat, found: bool, b: nat, errBest: real)
    requires 0.0 < fxtal && n <= GRID
  {
    if found then Best(fxtal, freq, b, n) && errBest == FreqErr(fxtal, freq, b)
    else errBest == 1000000000.0 && forall j :: 0 <= j < n ==> !Feasible(fxtal, freq, j)
  }

  ghost predicate ChoiceIs(fxtal: Double, freq: real, n: nat, c: Choice, b: nat)
    requires (fxtal.Finite? ==> 0.0 < fxtal.value) && n <= GRID
  {
    match fxtal
    case NotFinite => !c.found
    case Finite(x) =>
      && Searched(x, freq, n, c.found, b, c.err)
      && (c.found ==> c.n1 == N1(b) && c.hsDiv == HsDiv(b) && c.rfreq == Rfreq(x, freq, b))
  }

  lemma SearchStep(fxtal: real, freq: real, n: nat, found: bool, b: nat, errBest: real)
    requires 0.0 < fxtal && 0.0 <= freq && n < GRID && Searched(fxtal, freq, n, found, b, errBest)
    ensures if Feasible(fxtal, freq, n) && FreqErr(fxtal, freq, n) < errBest
            then Searched(fxtal, freq, n + 1, true, n, FreqErr(fxtal, freq, n))
            else Searched(fxtal, freq, n + 1, found, b, errBest)
  {
    if Feasible(fxtal, freq, n) {
      FeasibleErrorSmall(fxtal, freq, n);
    }
  }

  /**
   The body of the inner loop. Without a finite crystal frequency, fdco is not a number and every
   comparison fails.
   */
  method TryPair(fxtal: Double, freq: real, ghost j: nat, hsDiv: nat, n1: nat, c: Choice, ghost b: nat)
    returns (next: Choice, ghost b': nat)
    requires (fxtal.Finite? ==> 0.0 < fxtal.value) && 0.0 <= freq && j < GRID && hsDiv == HsDiv(j) && n1 == N1(j)
    requires ChoiceIs(fxtal, freq, j, c, b)
    ensures ChoiceIs(fxtal, freq, j + 1, next, b')
  {
    DivRange(j);
    next, b' := c, b;
    if fxtal.NotFinite? {
      return;
    }
    var x := fxtal.value;
    SearchStep(x, freq, j, c.found, b, c.err);
    var rfreqVal := RoundNearest(WantedFor(x, freq, hsDiv, n1));
    var fdco := Fdco(x, rfreqVal);
    if FDCO_MIN <= fdco && fdco <= FDCO_MAX {
      var freqErr := OutputErr(x, freq, rfreqVal, hsDiv * n1);
      if freqErr < c.err {
        next := Choice(true, freqErr, n1, hsDiv, rfreqVal);
        b' := j;
      }
    }
  }

  // ----- the registers

  const HS_OPTS: set<nat> := {4, 5, 6, 7, 9, 11}

  /** The output frequency for the dividers as numbers */
  function Output(fxtal: real, rfreq: nat, hsDiv: nat, n1: nat): real
    requires 0 < hsDiv && 0 < n1
  {
    MulPositive(hsDiv, n1);
    fxtal * (rfreq as real / RFREQ_FACTOR) / (hsDiv * n1) as real
  }

  lemma MulPositive(a: nat, b: nat)
    requires 0 < a && 0 < b
    ensures 0 < a * b
  {
    assert 0 <= (a - 1) * b;
  }

  /** The crystal frequency that makes the output `f` */
  function Crystal(f: real, rfreq: nat, hsDiv: nat, n1: nat): real
    requires 0 < rfreq
  {
    f * hsDiv as real * n1 as real / (rfreq as real / RFREQ_FACTOR)
  }

  lemma CrystalPositive(f: real, rfreq: nat, hsDiv: nat, n1: nat)
    requires 0.0 <= f && 0 < rfreq
    ensures 0.0 <= Crystal(f, rfreq, hsDiv, n1)
  {
    MulMonotone(0.0, f, hsDiv as real);
    MulMonotone(0.0, f * hsDiv as real, n1 as real);
    DivGe(f * hsDiv as real * n1 as real, 0.0, rfreq as real / RFREQ_FACTOR);
  }

  /** The calibrated crystal gives back the startup frequency it was computed from. */
  lemma CrystalRoundTrip(f: real, rfreq: nat, hsDiv: nat, n1: nat)
    requires 0 < rfreq && 0 < hsDiv && 0 < n1
    ensures Output(Crystal(f, rfreq, hsDiv, n1), rfreq, hsDiv, n1) == f
  {
    MulPositive(hsDiv, n1);
    var d, r := hsDiv as real * n1 as real, rfreq as real / RFREQ_FACTOR;
    assert (hsDiv * n1) as real == d;
    assert f * hsDiv as real * n1 as real == f * d;
    assert f * d / r * r == f * d;
    RealDiv(f * d, d, f);
  }

  /** `struct si57x_parameters`; the dividers and the multiplier are as the hardware stores them. */
  class Parameters {
    var fxtal: Double
    var fstartup: real
    var rfreq: nat
    var n1: nat
    var hsDiv: nat

    constructor (fxtal: Double, fstartup: real)
      ensures this.fxtal == fxtal && this.fstartup == fstartup
    {
      this.fxtal, this.fstartup := fxtal, fstartup;
    }

    /** `get_freq`; None stands for the exception about an unknown divider. */
    function GetFreq(): Option<Double>
      reads this
    {
      if hsDiv + 4 !in HS_OPTS then None
      else match fxtal
        case NotFinite => Some(NotFinite)
        case Finite(x) => Some(Finite(Output(x, rfreq, hsDiv + 4, n1 + 1)))
    }

    /** `calc_fxtal`, which divides by a multiplier of zero without checking. */
    method CalcFxtal() returns (ok: bool)
      modifies this`fxtal
      ensures ok <==> hsDiv + 4 in HS_OPTS
      ensures ok && rfreq != 0 ==>
                fxtal == Finite(Crystal(fstartup, rfreq, hsDiv + 4, n1 + 1)) && GetFreq() == Some(Finite(fstartup))
      ensures ok && rfreq == 0 ==> fxtal == NotFinite
      ensures !ok ==> fxtal == old(fxtal)
    {
      if hsDiv + 4 !in HS_OPTS {
        return false;
      }
      if rfreq == 0 {
        fxtal := NotFinite;
        return true;
      }
      fxtal := Finite(Crystal(fstartup, rfreq, hsDiv + 4, n1 + 1));
      CrystalRoundTrip(fstartup, rfreq, hsDiv + 4, n1 + 1);
      return true;
    }

    /** `set_freq`: an exhaustive search for the divider pair with the smallest error. */
    method SetFreq(freq: real) returns (ok: bool)
      requires (fxtal.Finite? ==> 0.0 < fxtal.value) && 0.0 <= freq
      modifies this`rfreq, this`n1, this`hsDiv
      ensures !ok <==> fxtal.NotFinite? || forall j :: 0 <= j < GRID ==> !Feasible(fxtal.value, freq, j)
      ensures !ok ==> rfreq == old(rfreq) && n1 == old(n1) && hsDiv == old(hsDiv)
      ensures ok ==> exists b :: 0 <= b < GRID && Best(fxtal.value, freq, b, GRID) && Holds(freq, b)
      ensures ok <==> fxtal.Finite? && Reachable(fxtal.value, freq)
      ensures ok ==> Chosen(fxtal.value, freq, hsDiv + 4, n1 + 1, rfreq)
    {
      var best := Choice(false, 1000000000.0, 0, 0, 0);
      ghost var b: nat := 0;
      for h := 0 to 6
        invariant rfreq == old(rfreq) && n1 == old(n1) && hsDiv == old(hsDiv)
        invariant ChoiceIs(fxtal, freq, PER_HS * h, best, b)
      {
        var hsDivOpt := HS_DIV_OPTS[h];
        var n1Val := 2;
        ghost var j := PER_HS * h;
        while n1Val <= 128
          invariant rfreq == old(rfreq) && n1 == old(n1) && hsDiv == old(hsDiv)
          invariant n1Val == 2 + 2 * (j - PER_HS * h) && PER_HS * h <= j <= PER_HS * h + PER_HS
          invariant ChoiceIs(fxtal, freq, j, best, b)
        {
          PairAt(h, j);
          best, b := TryPair(fxtal, freq, j, hsDivOpt, n1Val, best, b);
          j := j + 1;
          n1Val := n1Val + 2;
        }
      }
      if fxtal.Finite? {
        ReachableIff(fxtal.value, freq);
      }
      if !best.found {
        return false;
      }
      assert Feasible(fxtal.value, freq, b);
      DivRange(b);
      FeasibleErrorSmall(fxtal.value, freq, b);
      n1 := best.n1 - 1;
      hsDiv := best.hsDiv - 4;
      rfreq := best.rfreq;
      assert 0 <= b < GRID && Feasible(fxtal.value, freq, b);
      assert Holds(freq, b);
      BestIsChosen(fxtal.value, freq, b);
      return true;
    }

    /** The fields hold pair `b`. */
    ghost predicate Holds(freq: real, b: nat)
      requires b < GRID && fxtal.Finite? && 0.0 < fxtal.value
      reads this
    {
      n1 + 1 == N1(b) && hsDiv + 4 == HsDiv(b) && rfreq == Rfreq(fxtal.value, freq, b)
    }

    /**
     After a successful search the output differs from the wanted frequency by at most half a step of
     the multiplier.
     */
    lemma OutputClose(freq: real, b: nat)
      requires fxtal.Finite? && 0.0 < fxtal.value && 0.0 <= freq && b < GRID && Holds(freq, b)
      ensures GetFreq().Some? && GetFreq().value.Finite? && 0 < Div(b)
      ensures Abs(freq - GetFreq().value.value) == FreqErr(fxtal.value, freq, b) <= HalfStep(fxtal.value, Div(b))
    {
      DivRange(b);
      ErrorBound(fxtal.value, freq, b);
      OutputIs(fxtal.value, rfreq, HsDiv(b), N1(b));
    }
  }

  lemma OutputIs(fxtal: real, rfreq: nat, hsDiv: nat, n1: nat)
    requires 0 < hsDiv && 0 < n1
    ensures 0 < hsDiv * n1 && Output(fxtal, rfreq, hsDiv, n1) == Fdco(fxtal, rfreq) / (hsDiv * n1) as real
  {
    MulPositive(hsDiv, n1);
    assert fxtal * (rfreq as real / RFREQ_FACTOR) == Fdco(fxtal, rfreq);
  }

  lemma PairAt(h: nat, j: nat)
    requires h < 6 && PER_HS * h <= j < PER_HS * h + PER_HS
    ensures HsDiv(j) == HS_DIV_OPTS[h] && N1(j) == 2 + 2 * (j - PER_HS * h)
  {
    DivModUnique(j, PER_HS, h, j - PER_HS * h);
  }

  // ----- the size of the multiplier

  const MAX_RFREQ: nat := 0x40_0000_0000

  /** A crystal fast enough keeps the multiplier of every feasible pair within 38 bits. */
  lemma RfreqFits(fxtal: real, freq: real, b: nat)
    requires 0.0 < fxtal && b < GRID && Feasible(fxtal, freq, b) && FDCO_MAX / 1024.0 < fxtal
    ensures Rfreq(fxtal, freq, b) < MAX_RFREQ
  {
    var r := Rfreq(fxtal, freq, b);
    assert MAX_RFREQ as real == 1024.0 * RFREQ_FACTOR;
    if MAX_RFREQ <= r {
      MulMonotone(MAX_RFREQ as real, r as real, fxtal);
    }
  }

  lemma DivGe(a: real, q: real, k: real)
    requires 0.0 < k && q * k <= a
    ensures q <= a / k
  {
    var x := a / k;
    assert a == x * k;
    if x < q {
      MulStrict(x, q, k);
    }
  }

  /** The multiplier that takes the oscillator to the top of its range */
  function TopRfreq(fxtal: real): int
    requires 0.0 < fxtal
  {
    (FDCO_MAX * RFREQ_FACTOR / fxtal).Floor
  }

  lemma TopRfreqShape(fxtal: real)
    requires 0.0 < fxtal <= FDCO_MAX / 1024.0
    ensures MAX_RFREQ <= TopRfreq(fxtal) && FDCO_MIN <= Fdco(fxtal, TopRfreq(fxtal)) <= FDCO_MAX
  {
    var x, r := FDCO_MAX * RFREQ_FACTOR / fxtal, TopRfreq(fxtal);
    assert x * fxtal == FDCO_MAX * RFREQ_FACTOR;
    MulMonotone(fxtal, FDCO_MAX / 1024.0, 274877906944.0);
    DivGe(FDCO_MAX * RFREQ_FACTOR, 274877906944.0, fxtal);
    assert MAX_RFREQ as real <= x;
    MulMonotone(r as real, x, fxtal);
    MulMonotone(x - 1.0, r as real, fxtal);
    assert (x - 1.0) * fxtal == x * fxtal - fxtal;
  }

  /** Asking for that oscillator frequency divided by 22 makes the very first pair exact. */
  lemma TopIsBest(fxtal: real, freq: real)
    requires 0.0 < fxtal <= FDCO_MAX / 1024.0 && freq == Fdco(fxtal, TopRfreq(fxtal)) / 22.0
    ensures 0.0 <= freq && Best(fxtal, freq, 0, GRID) && Rfreq(fxtal, freq, 0) == TopRfreq(fxtal)
  {
    TopRfreqShape(fxtal);
    var r := TopRfreq(fxtal);
    DivRange(0);
    assert HsDiv(0) == 11 && N1(0) == 2 && Div(0) == 22;
    assert freq * 11.0 * 2.0 == Fdco(fxtal, r);
    assert Wanted(fxtal, freq, 0) == r as real by {
      assert Fdco(fxtal, r) * RFREQ_FACTOR == r as real * fxtal;
      RealDiv(r as real * fxtal, fxtal, r as real);
    }
    RoundInt(r);
    assert FreqErr(fxtal, freq, 0) == 0.0;
  }

  /**
   Every result of the search fits 38 bits exactly when the crystal is faster than the top oscillator
   frequency over 2^10.
   */
  lemma RfreqFitsIff(fxtal: real)
    requires 0.0 < fxtal
    ensures (forall freq: real, b: nat :: 0.0 <= freq && b < GRID && Best(fxtal, freq, b, GRID) ==>
              Rfreq(fxtal, freq, b) < MAX_RFREQ)
       <==> FDCO_MAX / 1024.0 < fxtal
  {
    if FDCO_MAX / 1024.0 < fxtal {
      forall freq: real, b: nat | 0.0 <= freq && b < GRID && Best(fxtal, freq, b, GRID)
        ensures Rfreq(fxtal, freq, b) < MAX_RFREQ
      {
        RfreqFits(fxtal, freq, b);
      }
    } else {
      var freq := Fdco(fxtal, TopRfreq(fxtal)) / 22.0;
      TopRfreqShape(fxtal);
      TopIsBest(fxtal, freq);
    }
  }
}
