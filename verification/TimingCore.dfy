/**
 The reference clocks of the timing core (`modules/afc_timing.cc`): two Si57x oscillators whose
 settings are kept in the controller and written into registers of the core.
 */
module TimingCore {
  import opened Words
  import Bits
  import Q = Si57xSearch

  /** The first register of each clock, and of the trigger channels after them */
  const RTM: nat := 2
  const AFC: nat := 8
  const NUM_REGS: nat := 126

  /** The dividers share a register. */
  datatype Masks = Masks(n1: Word, hsDiv: Word)

  const MASKS := Masks(0x7F, 0x380)

  predicate MasksOk(m: Masks) { Bits.IsRun(m.n1, 0, 7) && Bits.IsRun(m.hsDiv, 7, 3) }

  lemma KnownMasks(m: Masks)
    requires m == MASKS
    ensures MasksOk(m)
  {
    assert Pow2(7) == 128 && Pow2(3) == 8;
    Bits.RunIs(m.n1, 0, 7);
    Bits.RunIs(m.hsDiv, 7, 3);
  }

  /** A 64-bit multiplier and two 8-bit dividers, as the hardware counts them */
  datatype Clock = Clock(rfreq: nat, n1: nat, hsDiv: nat) {
    predicate Valid() { rfreq < 0x1_0000_0000_0000_0000 && n1 < 256 && hsDiv < 256 }

    /** What the registers can hold */
    predicate Fits() { rfreq < 0x10_0000_0000_0000 && n1 < 128 && hsDiv < 8 }
  }

  function Join(high: nat, low: nat): nat { high * 0x10_0000 + low }

  /** The clock that the registers from `at` on describe: RFREQ_HI and RFREQ_LO, N1 and HS_DIV. */
  function ClockAt(image: seq<Word>, at: nat, m: Masks): Clock
    requires at + 3 <= |image| && MasksOk(m)
  {
    Clock(Join(image[at], image[at + 1]), Bits.Selected(image[at + 2], m.n1), Bits.Selected(image[at + 2], m.hsDiv))
  }

  /** The register for the upper part keeps 32 bits of it. */
  function HighPart(rfreq: nat): Word { rfreq / 0x10_0000 % 0x1_0000_0000 }

  function LowPart(rfreq: nat): Word { rfreq % 0x10_0000 }

  /** Joining the parts gives the low 52 bits of the multiplier. */
  lemma SplitJoins(rfreq: nat)
    ensures Join(HighPart(rfreq), LowPart(rfreq)) == rfreq % 0x10_0000_0000_0000
    ensures Join(HighPart(rfreq), LowPart(rfreq)) == rfreq <==> rfreq < 0x10_0000_0000_0000
  {
    var q := rfreq / 0x10_0000;
    var top := q / 0x1_0000_0000;
    DivModUnique(rfreq, 0x10_0000_0000_0000, top, Join(HighPart(rfreq), LowPart(rfreq)));
  }

  class Controller {
    const m: Masks
    const regs: array<Word>
    var rtm: Clock
    var afc: Clock

    /** Every clock the search finds fits its registers. */
    ghost predicate Valid()
      reads this
    {
      MasksOk(m) && regs.Length == NUM_REGS && rtm.Fits() && afc.Fits()
    }

    constructor (m: Masks)
      requires MasksOk(m)
      ensures Valid() && fresh(regs) && this.m == m && rtm == afc == Clock(0, 0, 0)
    {
      this.m := m;
      regs := new Word[NUM_REGS](_ => 0);
      rtm, afc := Clock(0, 0, 0), Clock(0, 0, 0);
    }

    /** `set_freq` of a clock, which uses the nominal crystal frequency */
    method Search(freq: real, clock: Clock) returns (ok: bool, found: Clock)
      requires 0.0 <= freq
      ensures Finds(freq, clock, ok, found) && (ok ==> found.Fits())
    {
      var si57x := new Q.Parameters(Q.Finite(Q.NOMINAL_CRYSTAL), 0.0);
      ok := si57x.SetFreq(freq);
      if !ok {
        return false, clock;
      }
      ghost var b :| 0 <= b < Q.GRID && Q.Best(Q.NOMINAL_CRYSTAL, freq, b, Q.GRID) && si57x.Holds(freq, b);
      Q.DivRange(b);
      Q.RfreqFits(Q.NOMINAL_CRYSTAL, freq, b);
      found := Clock(si57x.rfreq, si57x.n1, si57x.hsDiv);
    }

    /** `set_rtm_freq` */
    method SetRtmFreq(freq: real) returns (ok: bool)
      requires Valid() && 0.0 <= freq
      modifies this`rtm
      ensures Valid() && Finds(freq, old(rtm), ok, rtm)
    {
      ok, rtm := Search(freq, rtm);
    }

    /** `set_afc_freq` */
    method SetAfcFreq(freq: real) returns (ok: bool)
      requires Valid() && 0.0 <= freq
      modifies this`afc
      ensures Valid() && Finds(freq, old(afc), ok, afc)
    {
      ok, afc := Search(freq, afc);
    }

    /**
     `setup_clock`, for any clock: throws exactly when a divider does not fit its field; otherwise the
     registers describe the clock, with the low 52 bits of its multiplier.
     */
    method SetupClock(at: nat, clock: Clock) returns (ok: bool)
      requires MasksOk(m) && regs.Length == NUM_REGS && at + 3 <= NUM_REGS && clock.Valid()
      modifies regs
      ensures ok <==> clock.n1 < 128 && clock.hsDiv < 8
      ensures ok ==>
                ClockAt(regs[..], at, m) == Clock(clock.rfreq % 0x10_0000_0000_0000, clock.n1, clock.hsDiv)
      ensures ok ==> (ClockAt(regs[..], at, m) == clock <==> clock.rfreq < 0x10_0000_0000_0000)
      ensures forall x :: 0 <= x < NUM_REGS && !(at <= x < at + 3) ==> regs[x] == old(regs[x])
    {
      SplitJoins(clock.rfreq);
      regs[at] := HighPart(clock.rfreq);
      regs[at + 1] := LowPart(clock.rfreq);
      ok := SetDividers(at + 2, clock.n1, clock.hsDiv);
    }

    method SetDividers(r: nat, n1: Word, hsDiv: Word) returns (ok: bool)
      requires MasksOk(m) && regs.Length == NUM_REGS && r < NUM_REGS
      modifies regs
      ensures ok <==> n1 < 128 && hsDiv < 8
      ensures ok ==> Bits.Selected(regs[r], m.n1) == n1 && Bits.Selected(regs[r], m.hsDiv) == hsDiv
      ensures forall x :: 0 <= x < NUM_REGS && x != r ==> regs[x] == old(regs[x])
    {
      assert Pow2(7) == 128 && Pow2(3) == 8;
      ok := Bits.SetFieldOf(regs, r, n1, m.n1);
      if !ok {
        return;
      }
      ok := Bits.SetFieldOf(regs, r, hsDiv, m.hsDiv);
    }

    /** `encode_params` never throws, and decoding its registers gives both clocks back. */
    method EncodeParams() returns (ok: bool)
      requires Valid()
      modifies regs
      ensures ok && ClockAt(regs[..], 2, m) == rtm && ClockAt(regs[..], 8, m) == afc
      ensures forall x :: 0 <= x < NUM_REGS && !(2 <= x < 5) && !(8 <= x < 11) ==>
                regs[x] == old(regs[x])
    {
      ok := SetupClock(RTM, rtm);
      if ok {
        ok := SetupClock(AFC, afc);
      }
    }
  }

  /** A search fails exactly when no dividers are possible, and then keeps the clock; otherwise it finds the best. */
  ghost predicate Finds(freq: real, clock: Clock, ok: bool, found: Clock)
    requires 0.0 <= freq
  {
    && (ok <==> Q.Reachable(114285000.0, freq))
    && (ok ==> Q.Chosen(114285000.0, freq, found.hsDiv + 4, found.n1 + 1, found.rfreq))
    && (!ok ==> found == clock)
  }
}
