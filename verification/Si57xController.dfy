/**
 The Si57x controller object (`si57x_ctrl::Controller` in `modules/si57x_ctrl.cc`).
 */
module Si57xController {
  import opened Words
  import opened Si57xProtocol
  import Bits
  import Q = Si57xSearch

  class Controller {
    const m: Masks
    const device: Device
    const regs: array<Word>
    const fstartup: real
    /** The crystal frequency, zero as long as it is not known */
    var fxtal: Q.Double
    /** The decoder's copy of the core, and how often it was read */
    var snapshot: Image
    var readCount: nat
    ghost var log: Log

    ghost predicate Attached()
      reads this
    {
      && MasksOk(m) && regs.Length == NUM_REGS
      && 0 < readCount == log.looks && snapshot == device(readCount - 1)
    }

    /** Between calls no action waits in the control register. */
    ghost predicate Valid()
      reads this, regs
    {
      Attached() && regs[CTL] == 0 && 0.0 <= fstartup && (fxtal.Finite? ==> 0.0 <= fxtal.value)
    }

    /** Attaching to a core reads its registers once, into the decoder. */
    constructor (m: Masks, device: Device, fstartup: real)
      requires MasksOk(m) && 0.0 <= fstartup
      ensures Valid() && fresh(regs) && this.m == m && this.device == device && this.fstartup == fstartup
      ensures log == Look(m, device, Log([], 0)) && regs[..] == [0, 0, 0, 0, 0, 0] && fxtal == Q.Finite(0.0)
    {
      this.m, this.device, this.fstartup, fxtal := m, device, fstartup, Q.Finite(0.0);
      regs := new Word[NUM_REGS](_ => 0);
      snapshot, readCount := device(0), 1;
      log := Look(m, device, Log([], 0));
    }

    /** `get_busy` */
    method GetBusy() returns (busy: bool)
      requires Attached()
      modifies this`snapshot, this`readCount, this`log
      ensures Attached() && log == Look(m, device, old(log)) && busy == Busy(m, device, old(readCount))
    {
      log := Look(m, device, log);
      snapshot, readCount := device(readCount), readCount + 1;
      Bits.GetBitIsField(snapshot[STA], m.busy);
      busy := Bits.GetBit(snapshot[STA], m.busy);
    }

    /** `still_busy`: at most 201 reads, the last of which decides. */
    method StillBusy() returns (busy: bool)
      requires Attached()
      modifies this`snapshot, this`readCount, this`log
      ensures Attached() && log == PollAll(m, device, old(log)) && busy == Busy(m, device, readCount - 1)
      ensures old(readCount) < readCount <= old(readCount) + BUSY_WAIT_ATTEMPTS + 1
      ensures busy ==> readCount == old(readCount) + BUSY_WAIT_ATTEMPTS + 1
    {
      ghost var limit := log.looks + BUSY_WAIT_ATTEMPTS;
      busy := GetBusy();
      var i := 0;
      while busy && i < BUSY_WAIT_ATTEMPTS
        invariant Attached() && 0 <= i <= BUSY_WAIT_ATTEMPTS && readCount == old(readCount) + 1 + i
        invariant busy == Busy(m, device, readCount - 1)
        invariant PollAll(m, device, old(log)) ==
                  if busy && log.looks <= limit then Poll(m, device, log, limit) else log
      {
        busy := GetBusy();
        i := i + 1;
      }
    }

    /** `write_params`; false stands for the exception of a busy core.  Either way the action bits are cleared. */
    method WriteParams() returns (ok: bool)
      requires Attached()
      modifies this`snapshot, this`readCount, this`log, regs
      ensures Attached() && snapshot == device(old(readCount)) && ok == !Busy(m, device, old(readCount))
      ensures log == Send(m, device, old(log), old(regs[..])) && regs[..] == old(regs[..])[CTL := 0]
    {
      var busy := GetBusy();
      if busy {
        regs[CTL] := 0;
        return false;
      }
      log := Log(log.trace + [Write(regs[..])], log.looks);
      regs[CTL] := 0;
      return true;
    }

    /** `write_general` of an action bit */
    method Ask(mask: Word)
      requires regs.Length == NUM_REGS && Bits.PopCount(mask) == 1
      modifies regs
      ensures Bits.Contiguous(mask) && regs[..] == Asking(old(regs[..]), mask)
    {
      Bits.InsertBit(regs, CTL, true, mask);
    }

    /**
     `apply_config`: write the configuration, then write it again with the apply bit.  It throws exactly
     if the core is busy at one of the two writes, and succeeds exactly if it then ends up not busy and in sync.
     */
    method ApplyConfig() returns (outcome: Outcome)
      requires Valid()
      modifies this`snapshot, this`readCount, this`log, regs
      ensures Valid() && regs[..] == old(regs[..])
      ensures Step(log, outcome) == Apply(m, device, old(log), old(regs[..]))
      ensures outcome == Thrown <==>
                Busy(m, device, old(readCount)) || Busy(m, device, old(readCount) + 1)
      ensures outcome == Done <==>
                outcome != Thrown && !StatusBit(snapshot, m.busy) && StatusBit(snapshot, m.cfgInSync)
    {
      ghost var image := regs[..];
      var ok := WriteParams();
      if !ok {
        return Thrown;
      }
      assert regs[..] == image;
      Ask(m.applyCfg);
      ok := WriteParams();
      assert regs[..] == image;
      if !ok {
        return Thrown;
      }
      outcome := Wait(m.cfgInSync);
    }

    /** The end of both operations that wait for a status bit */
    method Wait(bit: Word) returns (outcome: Outcome)
      requires Attached() && 0 < bit
      modifies this`snapshot, this`readCount, this`log
      ensures Attached() && Step(log, outcome) == Await(m, device, old(log), bit)
      ensures outcome == if !StatusBit(snapshot, m.busy) && StatusBit(snapshot, bit) then Done else Failed
    {
      var busy := StillBusy();
      return if busy || !StatusBit(snapshot, bit) then Failed else Done;
    }

    /** The part of `read_startup_regs` that has the startup values read if they are not there yet. */
    method FetchStartup() returns (outcome: Outcome)
      requires Valid()
      modifies this`snapshot, this`readCount, this`log, regs
      ensures Valid() && regs[..] == old(regs[..])
      ensures Step(log, outcome) == Fetch(m, device, old(log), old(regs[..]))
      ensures outcome == Done ==> StatusBit(snapshot, m.strpComplete)
    {
      if StatusBit(snapshot, m.strpComplete) {
        return Done;
      }
      ghost var image := regs[..];
      Ask(m.readStrp);
      var ok := WriteParams();
      assert regs[..] == image;
      if !ok {
        return Thrown;
      }
      outcome := Wait(m.strpComplete);
    }

    /**
     `read_startup_regs`: get the startup values and compute the crystal frequency from them.  What it
     answers is determined by the startup frequency and by what the device answers.
     */
    method ReadStartupRegs() returns (outcome: Outcome)
      requires Valid()
      modifies this`fxtal, this`snapshot, this`readCount, this`log, regs
      ensures Valid() && regs[..] == old(regs[..])
      ensures Step(log, outcome) == Startup(m, device, old(log), old(regs[..]), fstartup)
      ensures fxtal == if outcome == Done then StartupCrystal(m, snapshot, fstartup) else old(fxtal)
      ensures outcome == Done ==> StatusBit(snapshot, m.strpComplete) && StartupMatches(m, snapshot, fstartup, fxtal)
    {
      if fstartup == 0.0 {
        return Thrown;
      }
      ghost var log0, image := log, regs[..];
      outcome := FetchStartup();
      StartupAfterFetch(m, device, log0, image, fstartup, Step(log, outcome));
      if outcome == Done {
        outcome := ComputeCrystal();
      }
    }

    /**
     The end of `read_startup_regs`: join the multiplier and call `calc_fxtal`, which throws for an
     unknown divider.
     */
    method ComputeCrystal() returns (outcome: Outcome)
      requires MasksOk(m) && 0.0 <= fstartup && (fxtal.Finite? ==> 0.0 <= fxtal.value)
      modifies this`fxtal
      ensures outcome == if KnownDivider(m, snapshot) then Done else Thrown
      ensures fxtal == if outcome == Done then StartupCrystal(m, snapshot, fstartup) else old(fxtal)
      ensures outcome == Done ==> StartupMatches(m, snapshot, fstartup, fxtal)
      ensures fxtal.Finite? ==> 0.0 <= fxtal.value
    {
      var rfreq := Join(Bits.Selected(snapshot[STRP], m.rfreqMsb), snapshot[LSB_STRP]);
      var ok, crystal := Calibrate(rfreq, Bits.Selected(snapshot[STRP], m.n1), Bits.Selected(snapshot[STRP], m.hsDiv));
      if !ok {
        return Thrown;
      }
      CrystalMatches(m, snapshot, fstartup);
      fxtal := crystal;
      return Done;
    }

    /** The use of `si57x_parameters` there */
    method Calibrate(rfreq: nat, n1: nat, hsDiv: nat) returns (ok: bool, crystal: Q.Double)
      requires 0.0 <= fstartup
      ensures ok <==> hsDiv + 4 in Q.HS_OPTS
      ensures ok ==>
                crystal == if rfreq == 0 then Q.NotFinite else Q.Finite(Q.Crystal(fstartup, rfreq, hsDiv + 4, n1 + 1))
      ensures ok && crystal.Finite? ==> 0.0 <= crystal.value
    {
      var params := new Q.Parameters(Q.Finite(0.0), fstartup);
      params.rfreq, params.n1, params.hsDiv := rfreq, n1, hsDiv;
      ok := params.CalcFxtal();
      crystal := params.fxtal;
      if ok && rfreq != 0 {
        Q.CrystalPositive(fstartup, rfreq, hsDiv + 4, n1 + 1);
      }
    }

    /**
     `set_freq`: search the dividers and put them into the shadow registers.  It throws, before any
     register changes, exactly when the upper part of the multiplier does not fit its 6 bits.
     */
    method SetFreq(freq: real) returns (outcome: Outcome)
      requires Valid() && 0.0 <= freq
      modifies regs
      ensures Valid() && FreqSet(m, old(regs[..]), fxtal, freq, outcome, regs[..])
    {
      ghost var image := regs[..];
      var found, rfreq, n1, hsDiv := Search(CrystalOr(fxtal), freq);
      if !found {
        FreqNotFound(m, image, fxtal, freq);
        return Failed;
      }
      var ok := WriteDividers(rfreq, n1, hsDiv);
      FreqIsSet(m, image, fxtal, freq, ok, regs[..], hsDiv, n1, rfreq);
      return if ok then Done else Thrown;
    }

    /** The use of `si57x_parameters` there; the dividers are as the hardware counts them. */
    method Search(crystal: Q.Double, freq: real) returns (found: bool, rfreq: nat, n1: nat, hsDiv: nat)
      requires (crystal.Finite? ==> 0.0 < crystal.value) && 0.0 <= freq
      ensures found <==> crystal.Finite? && Q.Reachable(crystal.value, freq)
      ensures found ==> Q.Chosen(crystal.value, freq, hsDiv + 4, n1 + 1, rfreq)
    {
      var params := new Q.Parameters(crystal, 0.0);
      found := params.SetFreq(freq);
      assert params.fxtal == crystal;
      rfreq, n1, hsDiv := params.rfreq, params.n1, params.hsDiv;
    }

    /** The four field writes of `set_freq`, in its order. */
    method WriteDividers(rfreq: nat, n1: nat, hsDiv: nat) returns (ok: bool)
      requires MasksOk(m) && regs.Length == NUM_REGS && n1 < 128 && hsDiv < 8
      modifies regs
      ensures DividersSet(m, regs[CFG], regs[LSB], hsDiv + 4, n1 + 1, rfreq, ok)
      ensures regs[CTL] == old(regs[CTL])
      ensures !ok ==> regs[..] == old(regs[..])
    {
      ok := WriteConfig(UpperPart(rfreq), LowerPart(rfreq), n1, hsDiv);
    }

    method WriteConfig(msb: Word, lsb: Word, n1: nat, hsDiv: nat) returns (ok: bool)
      requires MasksOk(m) && regs.Length == NUM_REGS && n1 < 128 && hsDiv < 8
      modifies regs
      ensures ok <==> msb < 64
      ensures ok ==>
                && Bits.Selected(regs[CFG], m.rfreqMsb) == msb && regs[LSB] == lsb
                && Bits.Selected(regs[CFG], m.n1) == n1 && Bits.Selected(regs[CFG], m.hsDiv) == hsDiv
      ensures regs[CTL] == old(regs[CTL])
      ensures !ok ==> regs[..] == old(regs[..])
    {
      assert Pow2(6) == 64;
      ok := Bits.SetFieldOf(regs, CFG, msb, m.rfreqMsb);
      if ok {
        regs[LSB] := lsb;
        WriteCounts(n1, hsDiv);
      }
    }

    method WriteCounts(n1: nat, hsDiv: nat)
      requires MasksOk(m) && regs.Length == NUM_REGS && n1 < 128 && hsDiv < 8
      modifies regs
      ensures Bits.Selected(regs[CFG], m.rfreqMsb) == old(Bits.Selected(regs[CFG], m.rfreqMsb))
      ensures Bits.Selected(regs[CFG], m.n1) == n1 && Bits.Selected(regs[CFG], m.hsDiv) == hsDiv
      ensures forall x :: 0 <= x < NUM_REGS && x != CFG ==> regs[x] == old(regs[x])
    {
      assert Pow2(7) == 128 && Pow2(3) == 8;
      var done := Bits.SetFieldOf(regs, CFG, hsDiv, m.hsDiv);
      done := Bits.SetFieldOf(regs, CFG, n1, m.n1);
    }
  }
}
