/**
 What the Si57x controller core's driver does (`modules/si57x_ctrl.cc`), as functions: the reads and block
 writes of every operation and its outcome, for any answers of the device.
 */
module Si57xProtocol {
  import opened Words
  import Bits
  import Q = Si57xSearch

  // ----- the register map

  const CTL: nat := 0
  const STA: nat := 1
  const STRP: nat := 2
  const LSB_STRP: nat := 3
  const CFG: nat := 4
  const LSB: nat := 5
  const NUM_REGS: nat := 6

  /** Reads after the first one before `still_busy` gives up */
  const BUSY_WAIT_ATTEMPTS: nat := 200

  /** The two action bits, three status bits and the three fields of the divider registers. */
  datatype Masks = Masks(
    readStrp: Word, applyCfg: Word, strpComplete: Word, cfgInSync: Word, busy: Word,
    rfreqMsb: Word, n1: Word, hsDiv: Word)

  const MASKS := Masks(0x1, 0x2, 0x1, 0x2, 0x8, 0x3F, 0x1FC0, 0xE000)

  predicate MasksOk(m: Masks) {
    && Bits.IsRun(m.readStrp, 0, 1) && Bits.IsRun(m.applyCfg, 1, 1)
    && Bits.IsRun(m.strpComplete, 0, 1) && Bits.IsRun(m.cfgInSync, 1, 1) && Bits.IsRun(m.busy, 3, 1)
    && Bits.IsRun(m.rfreqMsb, 0, 6) && Bits.IsRun(m.n1, 6, 7) && Bits.IsRun(m.hsDiv, 13, 3)
  }

  /** The masks of the register map have these shapes. */
  lemma KnownMasks(m: Masks)
    requires m == MASKS
    ensures MasksOk(m)
  {
    Pow2Constants();
    assert Pow2(1) == 2 && Pow2(3) == 8 && Pow2(6) == 64 && Pow2(7) == 128 && Pow2(13) == 32 * Pow2(8);
    Bits.RunIs(m.readStrp, 0, 1);
    Bits.RunIs(m.applyCfg, 1, 1);
    Bits.RunIs(m.busy, 3, 1);
    Bits.RunIs(m.rfreqMsb, 0, 6);
    Bits.RunIs(m.n1, 6, 7);
    Bits.RunIs(m.hsDiv, 13, 3);
  }

  // ----- what the device answers

  /** The registers of the core */
  type Image = s: seq<Word> | |s| == 6 witness [0, 0, 0, 0, 0, 0]

  /** What the `k`-th read of the core returns */
  type Device = nat -> Image

  predicate StatusBit(image: Image, mask: Word)
    requires 0 < mask
  {
    Bits.Selected(image[STA], mask) == 1
  }

  predicate Busy(m: Masks, d: Device, k: nat)
    requires MasksOk(m)
  {
    StatusBit(d(k), m.busy)
  }

  // ----- the operations

  /** A read of the whole core, with its busy bit, or a write of it. */
  datatype Event = Read(busy: bool) | Write(image: Image)

  /** What happened so far, and how many reads of the core it holds */
  datatype Log = Log(trace: seq<Event>, looks: nat)

  /** `get_busy` */
  function Look(m: Masks, d: Device, log: Log): Log
    requires MasksOk(m)
  {
    Log(log.trace + [Read(Busy(m, d, log.looks))], log.looks + 1)
  }

  /** `still_busy`: looks until the core is not busy, or until read `limit` was made. */
  function Poll(m: Masks, d: Device, log: Log, limit: nat): Log
    requires MasksOk(m)
    decreases limit - log.looks
  {
    var next := Look(m, d, log);
    if Busy(m, d, log.looks) && log.looks < limit then Poll(m, d, next, limit) else next
  }

  function PollAll(m: Masks, d: Device, log: Log): Log
    requires MasksOk(m)
  {
    Poll(m, d, log, log.looks + BUSY_WAIT_ATTEMPTS)
  }

  /** `write_params` with these registers */
  function Send(m: Masks, d: Device, log: Log, image: Image): Log
    requires MasksOk(m)
  {
    var next := Look(m, d, log);
    if Busy(m, d, log.looks) then next else Log(next.trace + [Write(image)], next.looks)
  }

  /** The registers with an action bit set */
  function Asking(image: Image, mask: Word): Image
    requires Bits.Contiguous(mask)
  {
    image[CTL := Bits.Put(image[CTL], mask, 1)]
  }

  /** `Thrown` stands for an exception, `Failed` for a false result. */
  datatype Outcome = Done | Failed | Thrown

  datatype Step = Step(log: Log, outcome: Outcome)

  /** The wait after a write, which succeeds if the core ends up not busy and with this status bit set. */
  function Await(m: Masks, d: Device, log: Log, bit: Word): Step
    requires MasksOk(m) && 0 < bit
  {
    var after := PollAll(m, d, log);
    PollShape(m, d, log, log.looks + BUSY_WAIT_ATTEMPTS);
    var last := after.looks - 1;
    Step(after, if !Busy(m, d, last) && StatusBit(d(last), bit) then Done else Failed)
  }

  /** `apply_config`: write the configuration, write it again with the apply bit, wait. */
  function Apply(m: Masks, d: Device, log: Log, image: Image): Step
    requires MasksOk(m)
  {
    var first := Send(m, d, log, image);
    if Busy(m, d, log.looks) then Step(first, Thrown)
    else
      var second := Send(m, d, first, Asking(image, m.applyCfg));
      if Busy(m, d, first.looks) then Step(second, Thrown) else Await(m, d, second, m.cfgInSync)
  }

  /** The part of `read_startup_regs` that has the startup values read if they are not there yet. */
  function Fetch(m: Masks, d: Device, log: Log, image: Image): Step
    requires MasksOk(m) && 0 < log.looks
  {
    if StatusBit(d(log.looks - 1), m.strpComplete) then Step(log, Done)
    else
      var sent := Send(m, d, log, Asking(image, m.readStrp));
      if Busy(m, d, log.looks) then Step(sent, Thrown) else Await(m, d, sent, m.strpComplete)
  }

  /** `read_startup_regs` */
  function Startup(m: Masks, d: Device, log: Log, image: Image, fstartup: real): Step
    requires MasksOk(m) && 0 < log.looks
  {
    if fstartup == 0.0 then Step(log, Thrown)
    else
      var fetched := Fetch(m, d, log, image);
      FetchReads(m, d, log, image);
      if fetched.outcome == Done && !KnownDivider(m, d(fetched.log.looks - 1)) then Step(fetched.log, Thrown)
      else fetched
  }

  /** How `read_startup_regs` goes on after fetching. */
  lemma StartupAfterFetch(m: Masks, d: Device, log: Log, image: Image, fstartup: real, fetched: Step)
    requires MasksOk(m) && 0 < log.looks && fstartup != 0.0 && fetched == Fetch(m, d, log, image)
    ensures 0 < fetched.log.looks
    ensures Startup(m, d, log, image, fstartup)
            == if fetched.outcome == Done && !KnownDivider(m, d(fetched.log.looks - 1)) then Step(fetched.log, Thrown)
               else fetched
  {
    FetchReads(m, d, log, image);
  }

  predicate KnownDivider(m: Masks, snapshot: Image)
    requires MasksOk(m)
  {
    Bits.Selected(snapshot[STRP], m.hsDiv) + 4 in Q.HS_OPTS
  }

  lemma {:induction false} PollShape(m: Masks, d: Device, log: Log, limit: nat)
    requires MasksOk(m)
    ensures var after := Poll(m, d, log, limit);
            && log.looks < after.looks && (log.looks <= limit ==> after.looks <= limit + 1)
            && (Busy(m, d, after.looks - 1) ==> limit < after.looks)
            && (forall k :: log.looks <= k < after.looks - 1 ==> Busy(m, d, k))
    decreases limit - log.looks
  {
    if Busy(m, d, log.looks) && log.looks < limit {
      PollShape(m, d, Look(m, d, log), limit);
    }
  }

  lemma FetchReads(m: Masks, d: Device, log: Log, image: Image)
    requires MasksOk(m) && 0 < log.looks
    ensures 0 < Fetch(m, d, log, image).log.looks
  {
    if !StatusBit(d(log.looks - 1), m.strpComplete) && !Busy(m, d, log.looks) {
      var sent := Send(m, d, log, Asking(image, m.readStrp));
      PollShape(m, d, sent, sent.looks + BUSY_WAIT_ATTEMPTS);
    }
  }

  // ----- the same, read by read

  /** Reads `first` to `after - 1` of the core */
  function ReadsOf(m: Masks, d: Device, first: nat, after: nat): (events: seq<Event>)
    requires MasksOk(m) && first <= after
    ensures |events| == after - first
    ensures forall i :: 0 <= i < |events| ==> events[i] == Read(Busy(m, d, first + i))
  {
    seq(after - first, i requires 0 <= i => Read(Busy(m, d, first + i)))
  }

  /** Reads go on to the first one that is not busy, or to the 201st. */
  ghost predicate Waited(m: Masks, d: Device, before: Log, after: Log)
    requires MasksOk(m)
  {
    && before.looks < after.looks <= before.looks + 201
    && after.trace == before.trace + ReadsOf(m, d, before.looks, after.looks)
    && (forall k :: before.looks <= k < after.looks - 1 ==> Busy(m, d, k))
    && (after.looks < before.looks + 201 ==> !Busy(m, d, after.looks - 1))
  }

  /** What `read_startup_regs` reads and writes, and how it ends. */
  ghost predicate StartupDoes(m: Masks, d: Device, fstartup: real, log: Log, image: Image, log': Log, outcome: Outcome)
    requires MasksOk(m) && 0 < log.looks
  {
    var snapshot, now := d(log.looks - 1), log.looks;
    if fstartup == 0.0 then log' == log && outcome == Thrown
    else if StatusBit(snapshot, m.strpComplete) then
      log' == log && outcome == if KnownDivider(m, snapshot) then Done else Thrown
    else if Busy(m, d, now) then log' == Log(log.trace + [Read(true)], now + 1) && outcome == Thrown
    else
      && Waited(m, d, Log(log.trace + [Read(false)] + [Write(image[0 := 1])], now + 1), log')
      && var last := log'.looks - 1;
         outcome == if Busy(m, d, last) || !StatusBit(d(last), m.strpComplete) then Failed
                    else if KnownDivider(m, d(last)) then Done else Thrown
  }

  /** What `apply_config` reads and writes, and how it ends. */
  ghost predicate ApplyDoes(m: Masks, d: Device, log: Log, image: Image, log': Log, outcome: Outcome)
    requires MasksOk(m)
  {
    var now := log.looks;
    if Busy(m, d, now) then log' == Log(log.trace + [Read(true)], now + 1) && outcome == Thrown
    else
      var first := log.trace + [Read(false)] + [Write(image)];
      if Busy(m, d, now + 1) then log' == Log(first + [Read(true)], now + 2) && outcome == Thrown
      else
        && Waited(m, d, Log(first + [Read(false)] + [Write(image[0 := 2])], now + 2), log')
        && var last := log'.looks - 1;
           outcome == if Busy(m, d, last) || !StatusBit(d(last), m.cfgInSync) then Failed else Done
  }

  lemma FieldOf(x: Word, mask: Word, s: nat, w: nat)
    requires Bits.IsRun(mask, s, w)
    ensures Bits.Selected(x, mask) == x / Pow2(s) % Pow2(w)
  {
    Bits.GetClosedForm(x, s, w);
  }

  /** Where the status bits are */
  lemma StatusBits(m: Masks, image: Image)
    requires MasksOk(m)
    ensures StatusBit(image, m.strpComplete) <==> image[1] % 2 == 1
    ensures StatusBit(image, m.cfgInSync) <==> image[1] / 2 % 2 == 1
    ensures StatusBit(image, m.busy) <==> image[1] / 8 % 2 == 1
  {
    assert Pow2(0) == 1 && Pow2(1) == 2 && Pow2(3) == 8;
    FieldOf(image[STA], m.busy, 3, 1);
    FieldOf(image[STA], m.strpComplete, 0, 1);
    FieldOf(image[STA], m.cfgInSync, 1, 1);
  }

  /** Where the startup values are, and when their divider is one the oscillator has */
  lemma StartupFields(m: Masks, snapshot: Image)
    requires MasksOk(m)
    ensures Bits.Selected(snapshot[STRP], m.rfreqMsb) == snapshot[2] % 64 && snapshot[LSB_STRP] == snapshot[3]
    ensures Bits.Selected(snapshot[STRP], m.n1) == snapshot[2] / 64 % 128
    ensures Bits.Selected(snapshot[STRP], m.hsDiv) == snapshot[2] / 0x2000 % 8
    ensures KnownDivider(m, snapshot) <==> snapshot[2] / 0x2000 % 8 + 4 in {4, 5, 6, 7, 9, 11}
  {
    Pow2Constants();
    assert Pow2(0) == 1 && Pow2(3) == 8 && Pow2(6) == 64 && Pow2(7) == 128 && Pow2(13) == 32 * Pow2(8);
    FieldOf(snapshot[STRP], m.rfreqMsb, 0, 6);
    FieldOf(snapshot[STRP], m.n1, 6, 7);
    FieldOf(snapshot[STRP], m.hsDiv, 13, 3);
  }

  /** The action bits are the low two of a control register that holds nothing else. */
  lemma AskingIs(m: Masks, image: Image)
    requires MasksOk(m) && image[CTL] == 0
    ensures Asking(image, m.readStrp) == image[0 := 1] && Asking(image, m.applyCfg) == image[0 := 2]
  {
    var zero: Word := image[CTL];
    assert Pow2(0) == 1 && Pow2(1) == 2;
    ZeroHasNothing(m.readStrp);
    ZeroHasNothing(m.applyCfg);
    Bits.SetClosedForm(zero, 0, 1, 1);
    Bits.SetClosedForm(zero, 1, 1, 1);
  }

  lemma ReadsStart(m: Masks, d: Device, first: nat, after: nat)
    requires MasksOk(m) && first < after
    ensures ReadsOf(m, d, first, after) == [Read(Busy(m, d, first))] + ReadsOf(m, d, first + 1, after)
  {
  }

  lemma {:induction false} PollReads(m: Masks, d: Device, log: Log, limit: nat)
    requires MasksOk(m)
    ensures var after := Poll(m, d, log, limit);
            log.looks < after.looks && after.trace == log.trace + ReadsOf(m, d, log.looks, after.looks)
    decreases limit - log.looks
  {
    var after := Poll(m, d, log, limit);
    if Busy(m, d, log.looks) && log.looks < limit {
      PollReads(m, d, Look(m, d, log), limit);
    }
    ReadsStart(m, d, log.looks, after.looks);
  }

  lemma AwaitDoes(m: Masks, d: Device, log: Log, bit: Word)
    requires MasksOk(m) && 0 < bit
    ensures Waited(m, d, log, Await(m, d, log, bit).log)
  {
    PollReads(m, d, log, log.looks + BUSY_WAIT_ATTEMPTS);
    PollShape(m, d, log, log.looks + BUSY_WAIT_ATTEMPTS);
  }

  lemma StartupIs(m: Masks, d: Device, fstartup: real, log: Log, image: Image)
    requires MasksOk(m) && 0 < log.looks && image[CTL] == 0
    ensures var step := Startup(m, d, log, image, fstartup);
            StartupDoes(m, d, fstartup, log, image, step.log, step.outcome)
  {
    if fstartup != 0.0 {
      StartupAfterFetch(m, d, log, image, fstartup, Fetch(m, d, log, image));
      if !StatusBit(d(log.looks - 1), m.strpComplete) && !Busy(m, d, log.looks) {
        AskingIs(m, image);
        AwaitDoes(m, d, Send(m, d, log, image[0 := 1]), m.strpComplete);
      }
    }
  }

  lemma ApplyIs(m: Masks, d: Device, log: Log, image: Image)
    requires MasksOk(m) && image[CTL] == 0
    ensures var step := Apply(m, d, log, image); ApplyDoes(m, d, log, image, step.log, step.outcome)
  {
    if !Busy(m, d, log.looks) && !Busy(m, d, log.looks + 1) {
      AskingIs(m, image);
      AwaitDoes(m, d, Send(m, d, Send(m, d, log, image), image[0 := 2]), m.cfgInSync);
    }
  }

  // ----- what the log of every operation keeps

  predicate Has(image: Image, mask: Word)
    requires 0 < mask
  {
    Bits.Selected(image[CTL], mask) == 1
  }

  function Reads(trace: seq<Event>): nat {
    if trace == [] then 0 else Reads(trace[..|trace| - 1]) + if trace[|trace| - 1].Read? then 1 else 0
  }

  /** The reads of the log are those of the device, in order. */
  ghost predicate Truthful(m: Masks, d: Device, log: Log)
    requires MasksOk(m)
  {
    && log.looks == Reads(log.trace)
    && forall k :: 0 <= k < |log.trace| && log.trace[k].Read? ==> log.trace[k].busy == Busy(m, d, Reads(log.trace[..k]))
  }

  /** Every write directly follows a read that was not busy. */
  ghost predicate Guarded(trace: seq<Event>) {
    forall k :: 0 <= k < |trace| && trace[k].Write? ==> 0 < k && trace[k - 1] == Read(false)
  }

  predicate SameConfig(a: Image, b: Image) { a[4] == b[4] && a[5] == b[5] }

  /** Write `j` is the last one of the trace; it carried this configuration, without the apply bit. */
  ghost predicate PreparedBy(m: Masks, trace: seq<Event>, image: Image, j: nat)
    requires MasksOk(m)
  {
    && j < |trace| && trace[j].Write? && SameConfig(trace[j].image, image) && !Has(trace[j].image, m.applyCfg)
    && forall i :: j < i < |trace| ==> !trace[i].Write?
  }

  ghost predicate Prepared(m: Masks, trace: seq<Event>, image: Image)
    requires MasksOk(m)
  {
    exists j :: PreparedBy(m, trace, image, j)
  }

  /** The apply bit is only written after a write of the same configuration without it. */
  ghost predicate AppliesPrepared(m: Masks, trace: seq<Event>)
    requires MasksOk(m)
  {
    forall k :: 0 <= k < |trace| && trace[k].Write? && Has(trace[k].image, m.applyCfg) ==>
                  Prepared(m, trace[..k], trace[k].image)
  }

  ghost predicate Safe(m: Masks, d: Device, log: Log)
    requires MasksOk(m)
  {
    Truthful(m, d, log) && Guarded(log.trace) && AppliesPrepared(m, log.trace)
  }

  /** How many writes carry an action bit. */
  function Sent(trace: seq<Event>, mask: Word): nat
    requires 0 < mask
  {
    if trace == [] then 0
    else
      var e := trace[|trace| - 1];
      Sent(trace[..|trace| - 1], mask) + if e.Write? && Has(e.image, mask) then 1 else 0
  }

  lemma CountsStep(trace: seq<Event>, e: Event, mask: Word)
    requires 0 < mask
    ensures Sent(trace + [e], mask) == Sent(trace, mask) + if e.Write? && Has(e.image, mask) then 1 else 0
    ensures Reads(trace + [e]) == Reads(trace) + if e.Read? then 1 else 0
  {
    assert (trace + [e])[..|trace|] == trace;
  }

  lemma TruthGrows(m: Masks, d: Device, log: Log, e: Event)
    requires MasksOk(m) && Truthful(m, d, log) && (e.Read? ==> e.busy == Busy(m, d, log.looks))
    ensures Truthful(m, d, Log(log.trace + [e], log.looks + if e.Read? then 1 else 0))
  {
    var trace' := log.trace + [e];
    CountsStep(log.trace, e, m.busy);
    forall k | 0 <= k < |trace'| && trace'[k].Read? ensures trace'[k].busy == Busy(m, d, Reads(trace'[..k])) {
      assert trace'[..k] == if k < |log.trace| then log.trace[..k] else log.trace;
    }
  }

  lemma AppliesGrow(m: Masks, trace: seq<Event>, e: Event)
    requires MasksOk(m) && AppliesPrepared(m, trace)
    requires e.Write? && Has(e.image, m.applyCfg) ==> Prepared(m, trace, e.image)
    ensures AppliesPrepared(m, trace + [e])
  {
    var trace' := trace + [e];
    forall k | 0 <= k < |trace'| && trace'[k].Write? && Has(trace'[k].image, m.applyCfg)
      ensures Prepared(m, trace'[..k], trace'[k].image)
    {
      assert trace'[..k] == if k < |trace| then trace[..k] else trace;
    }
  }

  /** Nothing but a write undoes a preparation. */
  lemma PreparedStays(m: Masks, trace: seq<Event>, e: Event, image: Image, image': Image)
    requires MasksOk(m) && Prepared(m, trace, image) && !e.Write? && SameConfig(image, image')
    ensures Prepared(m, trace + [e], image')
  {
    var j :| PreparedBy(m, trace, image, j);
    assert PreparedBy(m, trace + [e], image', j);
  }

  /** The counts of both actions */
  predicate SameCounts(m: Masks, a: Log, b: Log)
    requires MasksOk(m)
  {
    Sent(a.trace, m.applyCfg) == Sent(b.trace, m.applyCfg) && Sent(a.trace, m.readStrp) == Sent(b.trace, m.readStrp)
  }

  lemma LookKeeps(m: Masks, d: Device, log: Log)
    requires MasksOk(m) && Safe(m, d, log)
    ensures Safe(m, d, Look(m, d, log)) && SameCounts(m, log, Look(m, d, log))
  {
    var e := Read(Busy(m, d, log.looks));
    TruthGrows(m, d, log, e);
    AppliesGrow(m, log.trace, e);
    CountsStep(log.trace, e, m.applyCfg);
    CountsStep(log.trace, e, m.readStrp);
  }

  lemma {:induction false} PollKeeps(m: Masks, d: Device, log: Log, limit: nat)
    requires MasksOk(m) && Safe(m, d, log)
    ensures Safe(m, d, Poll(m, d, log, limit)) && SameCounts(m, log, Poll(m, d, log, limit))
    decreases limit - log.looks
  {
    LookKeeps(m, d, log);
    if Busy(m, d, log.looks) && log.looks < limit {
      PollKeeps(m, d, Look(m, d, log), limit);
    }
  }

  /** A block write carries its action bits once, if the core was not busy, and prepares its configuration. */
  lemma SendKeeps(m: Masks, d: Device, log: Log, image: Image)
    requires MasksOk(m) && Safe(m, d, log) && (Has(image, m.applyCfg) ==> Prepared(m, log.trace, image))
    ensures var after := Send(m, d, log, image);
            && Safe(m, d, after)
            && (forall mask :: mask in {m.applyCfg, m.readStrp} ==>
                  Sent(after.trace, mask)
                  == Sent(log.trace, mask) + if !Busy(m, d, log.looks) && Has(image, mask) then 1 else 0)
            && (!Busy(m, d, log.looks) && !Has(image, m.applyCfg) ==> Prepared(m, after.trace, image))
  {
    LookKeeps(m, d, log);
    var next := Look(m, d, log);
    if !Busy(m, d, log.looks) {
      var e := Write(image);
      if Has(image, m.applyCfg) {
        PreparedStays(m, log.trace, Read(false), image, image);
      }
      TruthGrows(m, d, next, e);
      AppliesGrow(m, next.trace, e);
      CountsStep(next.trace, e, m.applyCfg);
      CountsStep(next.trace, e, m.readStrp);
      if !Has(image, m.applyCfg) {
        assert PreparedBy(m, next.trace + [e], image, |next.trace|);
      }
    }
  }

  lemma ZeroHasNothing(mask: Word)
    requires 0 < mask
    ensures Bits.Selected(0, mask) == 0
  {
    Bits.GetClosedForm(0, Bits.CountrZero(mask), Bits.PopCount(mask));
    DivModUnique(0, Pow2(Bits.CountrZero(mask)), 0, 0);
    DivModUnique(0, Pow2(Bits.PopCount(mask)), 0, 0);
  }

  /** Without other actions waiting, the registers ask for exactly the action whose bit is set. */
  lemma AskingHas(m: Masks, image: Image, mask: Word)
    requires MasksOk(m) && image[CTL] == 0 && mask in {m.applyCfg, m.readStrp}
    ensures !Has(image, m.applyCfg) && !Has(image, m.readStrp) && SameConfig(image, Asking(image, mask))
    ensures Has(Asking(image, mask), m.applyCfg) <==> mask == m.applyCfg
    ensures Has(Asking(image, mask), m.readStrp) <==> mask == m.readStrp
  {
    ZeroHasNothing(m.applyCfg);
    ZeroHasNothing(m.readStrp);
    assert Pow2(1) == 2;
    Bits.PutSetsField(image[CTL], mask, 1);
  }

  lemma AwaitKeeps(m: Masks, d: Device, log: Log, bit: Word)
    requires MasksOk(m) && 0 < bit && Safe(m, d, log)
    ensures Safe(m, d, Await(m, d, log, bit).log) && SameCounts(m, log, Await(m, d, log, bit).log)
  {
    PollKeeps(m, d, log, log.looks + BUSY_WAIT_ATTEMPTS);
  }

  /** `apply_config` sends the apply bit exactly once unless it throws, and asks for no startup values. */
  lemma ApplyKeeps(m: Masks, d: Device, log: Log, image: Image)
    requires MasksOk(m) && Safe(m, d, log) && image[CTL] == 0
    ensures var step := Apply(m, d, log, image);
            && Safe(m, d, step.log)
            && Sent(step.log.trace, m.applyCfg) ==
                Sent(log.trace, m.applyCfg) + (if step.outcome == Thrown then 0 else 1)
            && Sent(step.log.trace, m.readStrp) == Sent(log.trace, m.readStrp)
  {
    AskingHas(m, image, m.applyCfg);
    SendKeeps(m, d, log, image);
    if !Busy(m, d, log.looks) {
      var first, asking := Send(m, d, log, image), Asking(image, m.applyCfg);
      PreparedAlso(m, first.trace, image, asking);
      SendKeeps(m, d, first, asking);
      if !Busy(m, d, first.looks) {
        AwaitKeeps(m, d, Send(m, d, first, asking), m.cfgInSync);
      }
    }
  }

  lemma PreparedAlso(m: Masks, trace: seq<Event>, image: Image, image': Image)
    requires MasksOk(m) && Prepared(m, trace, image) && SameConfig(image, image')
    ensures Prepared(m, trace, image')
  {
    var j :| PreparedBy(m, trace, image, j);
    assert PreparedBy(m, trace, image', j);
  }

  lemma FetchKeeps(m: Masks, d: Device, log: Log, image: Image)
    requires MasksOk(m) && 0 < log.looks && Safe(m, d, log) && image[CTL] == 0
    ensures var after := Fetch(m, d, log, image).log;
            var asks := !StatusBit(d(log.looks - 1), m.strpComplete) && !Busy(m, d, log.looks);
            && Safe(m, d, after)
            && Sent(after.trace, m.applyCfg) == Sent(log.trace, m.applyCfg)
            && Sent(after.trace, m.readStrp) == Sent(log.trace, m.readStrp) + if asks then 1 else 0
  {
    if !StatusBit(d(log.looks - 1), m.strpComplete) {
      var asking := Asking(image, m.readStrp);
      AskingHas(m, image, m.readStrp);
      SendKeeps(m, d, log, asking);
      if !Busy(m, d, log.looks) {
        AwaitKeeps(m, d, Send(m, d, log, asking), m.strpComplete);
      }
    }
  }

  /** There is a startup frequency, the values of the last read are not there yet, and the next one is not busy. */
  predicate Asks(m: Masks, d: Device, fstartup: real, log: Log)
    requires MasksOk(m)
  {
    && fstartup != 0.0
    && 0 < log.looks && !StatusBit(d(log.looks - 1), m.strpComplete) && !Busy(m, d, log.looks)
  }

  /** `read_startup_regs` sends its action bit exactly once then, and not otherwise; it sends no apply bit. */
  lemma StartupKeeps(m: Masks, d: Device, log: Log, image: Image, fstartup: real)
    requires MasksOk(m) && 0 < log.looks && Safe(m, d, log) && image[CTL] == 0
    ensures var after := Startup(m, d, log, image, fstartup).log;
            && Safe(m, d, after) && 0 < after.looks
            && Sent(after.trace, m.applyCfg) == Sent(log.trace, m.applyCfg)
            && Sent(after.trace, m.readStrp)
               == Sent(log.trace, m.readStrp) + if Asks(m, d, fstartup, log) then 1 else 0
  {
    FetchReads(m, d, log, image);
    FetchKeeps(m, d, log, image);
  }

  // ----- the multiplier in two registers

  /** `(rfreq_msb << 32) | rfreq_lsb` */
  function Join(msb: nat, lsb: Word): nat { msb * 0x1_0000_0000 + lsb }

  function UpperPart(rfreq: nat): Word { rfreq / 0x1_0000_0000 % 0x1_0000_0000 }

  function LowerPart(rfreq: nat): Word { rfreq % 0x1_0000_0000 }

  /** The two registers hold the multiplier, which is a 64-bit number. */
  lemma JoinSplit(rfreq: nat)
    ensures Join(UpperPart(rfreq), LowerPart(rfreq)) == rfreq % 0x1_0000_0000_0000_0000
    ensures rfreq < 0x1_0000_0000_0000_0000 ==> (UpperPart(rfreq) < 64 <==> rfreq < Q.MAX_RFREQ)
  {
    var n := 0x1_0000_0000;
    var q := rfreq / n;
    assert rfreq == q / n * (n * n) + Join(q % n, rfreq % n);
    DivModUnique(rfreq, n * n, q / n, Join(q % n, rfreq % n));
    if rfreq < n * n {
      assert q / n == 0;
    }
  }

  /** The measured crystal frequency, or the nominal one if none was measured. */
  function CrystalOr(fxtal: Q.Double): (crystal: Q.Double)
    ensures (fxtal.Finite? ==> 0.0 <= fxtal.value) && crystal.Finite? ==> 0.0 < crystal.value
  {
    if fxtal != Q.Finite(0.0) then fxtal else Q.Finite(Q.NOMINAL_CRYSTAL)
  }

  /** The registers hold dividers and multiplier if the upper part of the multiplier fits its six bits. */
  ghost predicate DividersSet(m: Masks, cfg: Word, lsb: Word, hsDiv: nat, n1: nat, rfreq: nat, ok: bool)
    requires MasksOk(m)
  {
    && (ok <==> rfreq / 0x1_0000_0000 % 0x1_0000_0000 < 64)
    && (ok ==>
          && Bits.Selected(cfg, m.rfreqMsb) == rfreq / 0x1_0000_0000 % 0x1_0000_0000 && lsb == rfreq % 0x1_0000_0000
          && Bits.Selected(cfg, m.n1) + 1 == n1 && Bits.Selected(cfg, m.hsDiv) + 4 == hsDiv)
  }

  /** A multiplier the search finds with a fast enough crystal is written without an exception. */
  lemma FastCrystalNeverThrows(crystal: real, freq: real, hsDiv: nat, n1: nat, rfreq: nat)
    requires 5670000000.0 / 1024.0 < crystal && Q.Possible(crystal, freq, hsDiv, n1, rfreq)
    ensures UpperPart(rfreq) < 64
  {
    var b := Q.PossibleIsFeasible(crystal, freq, hsDiv, n1, rfreq);
    Q.RfreqFits(crystal, freq, b);
    JoinSplit(rfreq);
  }

  // ----- calibration

  /** The crystal frequency that makes the startup values output the startup frequency. */
  function StartupCrystal(m: Masks, snapshot: Image, fstartup: real): Q.Double
    requires MasksOk(m)
  {
    var rfreq := Join(Bits.Selected(snapshot[STRP], m.rfreqMsb), snapshot[LSB_STRP]);
    var n1, hsDiv := Bits.Selected(snapshot[STRP], m.n1), Bits.Selected(snapshot[STRP], m.hsDiv);
    if rfreq == 0 then Q.NotFinite else Q.Finite(Q.Crystal(fstartup, rfreq, hsDiv + 4, n1 + 1))
  }

  /**
   With this crystal the startup values output the startup frequency.  A multiplier of zero is divided by
   unchecked, and there is no finite crystal.
   */
  predicate StartupMatches(m: Masks, snapshot: Image, fstartup: real, crystal: Q.Double)
    requires MasksOk(m)
  {
    var rfreq := Join(Bits.Selected(snapshot[STRP], m.rfreqMsb), snapshot[LSB_STRP]);
    var n1, hsDiv := Bits.Selected(snapshot[STRP], m.n1), Bits.Selected(snapshot[STRP], m.hsDiv);
    && KnownDivider(m, snapshot)
    && match crystal
       case NotFinite => rfreq == 0
       case Finite(f) => 0 < rfreq && Q.Output(f, rfreq, hsDiv + 4, n1 + 1) == fstartup
  }

  lemma CrystalMatches(m: Masks, snapshot: Image, fstartup: real)
    requires MasksOk(m) && KnownDivider(m, snapshot)
    ensures StartupMatches(m, snapshot, fstartup, StartupCrystal(m, snapshot, fstartup))
  {
    var rfreq := Join(Bits.Selected(snapshot[STRP], m.rfreqMsb), snapshot[LSB_STRP]);
    if rfreq != 0 {
      var n1, hsDiv := Bits.Selected(snapshot[STRP], m.n1), Bits.Selected(snapshot[STRP], m.hsDiv);
      Q.CrystalRoundTrip(fstartup, rfreq, hsDiv + 4, n1 + 1);
    }
  }

  // ----- the frequency setting

  /** What `set_freq` answers and leaves in the registers. */
  ghost predicate FreqSet(m: Masks, image: Image, fxtal: Q.Double, freq: real, outcome: Outcome, after: Image)
    requires MasksOk(m) && 0.0 <= freq && (fxtal.Finite? ==> 0.0 <= fxtal.value)
  {
    var crystal := if fxtal == Q.Finite(0.0) then Q.Finite(114285000.0) else fxtal;
    && after[CTL] == image[CTL]
    && (outcome == Failed <==> crystal.NotFinite? || !Q.Reachable(crystal.value, freq))
    && (outcome != Failed ==>
          exists hsDiv: nat, n1: nat, rfreq: nat ::
            && Q.Chosen(crystal.value, freq, hsDiv, n1, rfreq)
            && DividersSet(m, after[4], after[5], hsDiv, n1, rfreq, outcome == Done))
    && (outcome != Done ==> after == image)
  }

  lemma FreqNotFound(m: Masks, image: Image, fxtal: Q.Double, freq: real)
    requires MasksOk(m) && 0.0 <= freq && (fxtal.Finite? ==> 0.0 <= fxtal.value)
    requires var crystal := CrystalOr(fxtal);
             crystal.NotFinite? || !Q.Reachable(crystal.value, freq)
    ensures FreqSet(m, image, fxtal, freq, Failed, image)
  {
  }

  lemma FreqIsSet(
      m: Masks, image: Image, fxtal: Q.Double, freq: real, ok: bool, after: Image, hsDiv: nat, n1: nat, rfreq: nat)
    requires MasksOk(m) && 0.0 <= freq && (fxtal.Finite? ==> 0.0 <= fxtal.value) && CrystalOr(fxtal).Finite?
    requires Q.Chosen(CrystalOr(fxtal).value, freq, hsDiv + 4, n1 + 1, rfreq)
    requires DividersSet(m, after[CFG], after[LSB], hsDiv + 4, n1 + 1, rfreq, ok)
    requires after[CTL] == image[CTL] && (!ok ==> after == image)
    ensures FreqSet(m, image, fxtal, freq, if ok then Done else Thrown, after)
  {
    assert Q.Possible(CrystalOr(fxtal).value, freq, hsDiv + 4, n1 + 1, rfreq);
  }
}
