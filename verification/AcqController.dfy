/**
 The acquisition controller (`acq::Controller` in `modules/acq.cc`).
 */
module AcqController {
  import opened Words
  import Bits
  import P = AcqParams
  import R = AcqRing
  import S = Sdram
  import opened AcqReadout

  // ----- the register map, as indices and masks of `acq_core`

  const CTL: nat := 0
  const STA: nat := 1
  const TRIG_CFG: nat := 2
  const TRIG_DATA_CFG: nat := 3
  const TRIG_DATA_THRES: nat := 4
  const TRIG_DLY: nat := 5
  const SHOTS: nat := 7
  const PRE_SAMPLES: nat := 9
  const POST_SAMPLES: nat := 10
  const DDR3_START_ADDR: nat := 12
  const DDR3_END_ADDR: nat := 13
  const ACQ_CHAN_CTL: nat := 14
  const NUM_REGS: nat := 63

  /** The masks, as numbers the solver need not compute with. */
  datatype Masks = Masks(
    start: Word, stop: Word, now: Word,
    hwTrigSel: Word, hwTrigPol: Word, hwTrigEn: Word, swTrigEn: Word, intTrigSel: Word,
    thresFilt: Word, shots: Word, which: Word, dtrigWhich: Word)

  const MASKS := Masks(0x1, 0x2, 0x1_0000, 0x1, 0x2, 0x4, 0x8, 0x1F0, 0xFF, 0xFFFF, 0x1F, 0x1F00)

  /** The single-bit masks, and those of whole fields. */
  ghost predicate BitMasksOk(m: Masks) {
    && Bits.IsRun(m.start, 0, 1) && Bits.IsRun(m.stop, 1, 1) && Bits.IsRun(m.now, 16, 1)
    && Bits.IsRun(m.hwTrigSel, 0, 1) && Bits.IsRun(m.hwTrigPol, 1, 1)
    && Bits.IsRun(m.hwTrigEn, 2, 1) && Bits.IsRun(m.swTrigEn, 3, 1)
  }

  ghost predicate FieldMasksOk(m: Masks) {
    && Bits.IsRun(m.intTrigSel, 4, 5) && Bits.IsRun(m.thresFilt, 0, 8) && Bits.IsRun(m.shots, 0, 16)
    && Bits.IsRun(m.which, 0, 5) && Bits.IsRun(m.dtrigWhich, 8, 5)
  }

  /** The masks of the register map have these shapes. */
  lemma KnownMasks(m: Masks)
    requires m == MASKS
    ensures BitMasksOk(m) && FieldMasksOk(m)
  {
    KnownBits(m);
    KnownFields(m);
  }

  lemma KnownBits(m: Masks)
    requires m == MASKS
    ensures BitMasksOk(m)
  {
    Pow2Constants();
    assert Pow2(1) == 2 && Pow2(2) == 4 && Pow2(3) == 8;
    Bits.RunIs(m.start, 0, 1);
    Bits.RunIs(m.stop, 1, 1);
    Bits.RunIs(m.now, 16, 1);
    Bits.RunIs(m.hwTrigEn, 2, 1);
    Bits.RunIs(m.swTrigEn, 3, 1);
  }

  lemma KnownFields(m: Masks)
    requires m == MASKS
    ensures FieldMasksOk(m)
  {
    Pow2Constants();
    assert Pow2(4) == 16;
    Bits.RunIs(m.intTrigSel, 4, 5);
    Bits.RunIs(m.thresFilt, 0, 8);
    Bits.RunIs(m.shots, 0, 16);
    Bits.RunIs(m.which, 0, 5);
    Bits.RunIs(m.dtrigWhich, 8, 5);
  }

  // ----- a request and what is kept of it

  /** The public configuration fields. */
  datatype Config = Config(
    channel: Word, preSamples: Word, postSamples: Word, numberShots: Word, triggerType: string,
    threshold: Word, polarityNeg: bool, sel: Word, filt: Word, triggerChannel: Word, delay: Word)

  /** Geometry of the channel and the counts of the current acquisition. */
  datatype Latched = Latched(atomWidth: nat, numAtoms: nat, sampleSize: nat, alignment: nat, pre: Word, post: Word)

  /** What `start_acquisition` returns; `Thrown` is its own exception. */
  datatype StartResult = Success | Error | BadPostSamples | TooManySamples | NoSamples | Thrown

  /** Settings of the four known trigger types: immediate, hardware, software, external. */
  datatype Trigger = Trigger(now: bool, hwEn: bool, swEn: bool, hwSel: bool)

  function TriggerOf(name: string): Option<Trigger> {
    if name == "now" then Some(Trigger(true, false, false, false))
    else if name == "external" then Some(Trigger(false, true, false, true))
    else if name == "data" then Some(Trigger(false, true, false, false))
    else if name == "software" then Some(Trigger(false, false, true, false))
    else None
  }

  /** Only one trigger type is immediate. */
  lemma NowTrigger(name: string)
    ensures TriggerOf(name).Some? ==> (TriggerOf(name).value.now <==> name == "now")
  {
  }

  function LatchOf(config: Config, desc: Word, atomDesc: Word): Latched
    requires 0 < P.SampleSize(desc)
  {
    Latched(P.HighHalf(atomDesc), P.LowHalf(atomDesc), P.SampleSize(desc), P.Alignment(P.SampleSize(desc)),
            config.preSamples, config.postSamples)
  }

  /** What is latched: the fields of the channel's description registers, and the counts asked for. */
  ghost predicate Latches(l: Latched, config: Config, desc: Word, atomDesc: Word) {
    && l.atomWidth == atomDesc / 0x1_0000 && l.numAtoms == atomDesc % 0x1_0000
    && l.sampleSize == desc % 0x1_0000 / 8 * (desc / 0x1_0000)
    && P.FillsBursts(l.alignment, l.sampleSize)
    && l.pre == config.preSamples && l.post == config.postSamples
  }

  lemma LatchMeans(config: Config, desc: Word, atomDesc: Word)
    requires P.PowerOfTwo(P.SampleSize(desc))
    ensures exists k: nat :: k <= 27 && P.SampleSize(desc) == Pow2(k)
    ensures 0 < P.SampleSize(desc) && Latches(LatchOf(config, desc, atomDesc), config, desc, atomDesc)
  {
    P.SampleSizeShape(desc);
    var k: nat :| k <= 27 && P.SampleSize(desc) == Pow2(k);
    P.AlignmentShape(P.SampleSize(desc), k);
  }

  function Refusal(r: P.Refusal): StartResult {
    match r
    case NoSamples => NoSamples
    case BadPostSamples => BadPostSamples
    case TooManySamples => TooManySamples
  }

  predicate Fits(value: Word, width: nat) { value < Pow2(width) }

  /** What is thrown for the trigger settings. */
  function TriggerError(config: Config): Option<StartResult> {
    if && Fits(config.numberShots, 16) && TriggerOf(config.triggerType).Some?
       && Fits(config.sel, 5) && Fits(config.filt, 8) && Fits(config.triggerChannel, 5)
    then None
    else Some(Error)
  }

  /** How a start fails for a channel of this sample size and atom width, None if it does not. */
  function ErrorFor(config: Config, size: nat, atomWidth: nat): Option<StartResult> {
    if !P.PowerOfTwo(size) || atomWidth !in {8, 16, 32} || !Fits(config.channel, 5) then Some(Error)
    else
      P.PowerOfTwoShape(size);
      match P.Refused(size, config.preSamples, config.postSamples, config.triggerType == "now")
      case Some(r) => Some(Refusal(r))
      case None => TriggerError(config)
  }

  /** How a start fails before its request reaches the core. */
  function StartError(config: Config, desc: Word, atomDesc: Word): Option<StartResult> {
    ErrorFor(config, P.SampleSize(desc), P.HighHalf(atomDesc))
  }

  /** The channel and its description registers are ones the controller knows. */
  ghost predicate Known(config: Config, desc: Word, atomDesc: Word) {
    && P.SomePow2(desc % 0x1_0000 / 8 * (desc / 0x1_0000))
    && atomDesc / 0x1_0000 in {8, 16, 32} && config.channel < 32
  }

  predicate KnownTrigger(config: Config) {
    && config.triggerType in {"now", "external", "data", "software"} && config.numberShots < 0x1_0000
    && config.sel < 32 && config.filt < 0x100 && config.triggerChannel < 32
  }

  /** How a start fails, with the counts rounded up to `pre` and `post`. */
  lemma StartErrorMeaning(config: Config, desc: Word, atomDesc: Word, pre: nat, post: nat)
    requires Known(config, desc, atomDesc) ==>
               exists a: nat ::
                 && P.FillsBursts(a, desc % 0x1_0000 / 8 * (desc / 0x1_0000))
                 && P.RoundedUp(pre, a, config.preSamples, false)
                 && P.RoundedUp(post, a, config.postSamples, config.triggerType == "now")
    ensures StartError(config, desc, atomDesc)
         == if !Known(config, desc, atomDesc) then Some(Error)
            else if config.preSamples + config.postSamples in {0, 0x1_0000_0000} then Some(NoSamples)
            else if config.postSamples != 0 && config.triggerType == "now" then Some(BadPostSamples)
            else if 0x1000_0000 / (desc % 0x1_0000 / 8 * (desc / 0x1_0000)) <= pre + post then Some(TooManySamples)
            else if !KnownTrigger(config) then Some(Error)
            else None
  {
    KnownIff(config, desc, atomDesc);
    TriggerErrorIff(config);
    if Known(config, desc, atomDesc) {
      var size := P.SampleSize(desc);
      var a: nat :| P.FillsBursts(a, size) && P.RoundedUp(pre, a, config.preSamples, false)
                    && P.RoundedUp(post, a, config.postSamples, config.triggerType == "now");
      P.SampleSizeShape(desc);
      CountsAre(config, size, a, pre, post);
      SumWraps(config.preSamples, config.postSamples);
    }
  }

  lemma CountsAre(config: Config, size: nat, a: nat, pre: nat, post: nat)
    requires exists k: nat :: k <= 27 && size == Pow2(k)
    requires P.FillsBursts(a, size) && P.RoundedUp(pre, a, config.preSamples, false)
    requires P.RoundedUp(post, a, config.postSamples, config.triggerType == "now")
    ensures 0 < size && pre == P.PreAligned(size, config.preSamples)
    ensures post == P.PostAligned(size, config.postSamples, config.triggerType == "now")
  {
    var k: nat :| k <= 27 && size == Pow2(k);
    P.AlignmentShape(size, k);
    P.FillsBurstsUnique(a, P.Alignment(size), size);
    P.RoundedUpUnique(pre, a, config.preSamples, false);
    P.RoundedUpUnique(post, a, config.postSamples, config.triggerType == "now");
  }

  lemma SumWraps(pre: Word, post: Word)
    ensures (post + pre) % 0x1_0000_0000 == 0 <==> pre + post in {0, 0x1_0000_0000}
  {
  }

  lemma KnownIff(config: Config, desc: Word, atomDesc: Word)
    ensures Known(config, desc, atomDesc) <==>
              P.PowerOfTwo(P.SampleSize(desc)) && P.HighHalf(atomDesc) in {8, 16, 32} && Fits(config.channel, 5)
  {
    P.PowerOfTwoIff(P.SampleSize(desc));
    SmallPowers();
  }

  lemma TriggerErrorIff(config: Config)
    ensures TriggerError(config) == if KnownTrigger(config) then None else Some(Error)
  {
    SmallPowers();
  }

  function BitOf(b: bool): Word { if b then 1 else 0 }

  datatype FieldValue = FieldValue(mask: Word, value: Word)

  /** The fields a successful start sets in the trigger configuration register. */
  function TriggerFields(m: Masks, config: Config, trigger: Trigger): seq<FieldValue> {
    [ FieldValue(m.hwTrigEn, BitOf(trigger.hwEn)), FieldValue(m.swTrigEn, BitOf(trigger.swEn)),
      FieldValue(m.hwTrigSel, BitOf(trigger.hwSel)), FieldValue(m.hwTrigPol, BitOf(config.polarityNeg)),
      FieldValue(m.intTrigSel, config.sel)]
  }

  function ChannelFields(m: Masks, config: Config): seq<FieldValue> {
    [FieldValue(m.which, config.channel), FieldValue(m.dtrigWhich, config.triggerChannel)]
  }

  // ----- the shadow registers of an accepted request

  /** Each field of the register holds its value. */
  ghost predicate ReadsBack(reg: Word, fields: seq<FieldValue>) {
    forall i :: 0 <= i < |fields| ==> fields[i].mask > 0 && Bits.Selected(reg, fields[i].mask) == fields[i].value
  }

  predicate EncodesCounts(after: seq<Word>, config: Config, size: nat)
    requires |after| == NUM_REGS && 0 < size
  {
    && after[PRE_SAMPLES] == P.PreAligned(size, config.preSamples)
    && after[POST_SAMPLES] == P.PostAligned(size, config.postSamples, config.triggerType == "now")
  }

  ghost predicate EncodesRest(m: Masks, after: seq<Word>, config: Config, size: nat, ramStart: nat)
    requires BitMasksOk(m) && FieldMasksOk(m) && |after| == NUM_REGS
  {
    && Bits.Selected(after[TRIG_DATA_CFG], m.thresFilt) == config.filt
    && ReadsBack(after[ACQ_CHAN_CTL], ChannelFields(m, config))
    && after[TRIG_DLY] == config.delay
    && after[DDR3_START_ADDR] == ramStart && after[DDR3_END_ADDR] == ramStart + P.REGION - size
  }

  /** Everything but the counts. */
  ghost predicate EncodesTrigger(m: Masks, after: seq<Word>, config: Config, size: nat, ramStart: nat)
    requires BitMasksOk(m) && FieldMasksOk(m) && |after| == NUM_REGS
  {
    && Bits.Selected(after[SHOTS], m.shots) == config.numberShots
    && Bits.Selected(after[CTL], m.now) == BitOf(config.triggerType == "now")
    && TriggerOf(config.triggerType).Some?
    && ReadsBack(after[TRIG_CFG], TriggerFields(m, config, TriggerOf(config.triggerType).value))
    && after[TRIG_DATA_THRES] == config.threshold
    && EncodesRest(m, after, config, size, ramStart)
  }

  /** Everything a successful start writes to the core, field by field. */
  ghost predicate Encodes(m: Masks, after: seq<Word>, config: Config, size: nat, ramStart: nat)
    requires BitMasksOk(m) && FieldMasksOk(m) && |after| == NUM_REGS && 0 < size
  {
    EncodesCounts(after, config, size) && EncodesTrigger(m, after, config, size, ramStart)
  }

  // ----- the same, by register index and bit

  /** Bit `s` of a register, and its field of `w` bits from there */
  ghost predicate HasBit(reg: Word, place: nat, b: bool)
    requires 0 < place
  {
    reg / place % 2 == BitOf(b)
  }

  /** CTL, TRIG_CFG, TRIG_DATA_THRES and SHOTS of an accepted request, and which trigger types there are */
  ghost predicate ProgramsTrigger(regs: seq<Word>, config: Config)
    requires |regs| == NUM_REGS
  {
    var kind := config.triggerType;
    && kind in {"now", "external", "data", "software"}
    && HasBit(regs[0], 0x1_0000, kind == "now")
    && HasBit(regs[2], 4, kind == "external" || kind == "data")
    && HasBit(regs[2], 8, kind == "software")
    && HasBit(regs[2], 1, kind == "external")
    && HasBit(regs[2], 2, config.polarityNeg)
    && regs[2] / 16 % 32 == config.sel
    && regs[4] == config.threshold
    && regs[7] % 0x1_0000 == config.numberShots
  }

  /** TRIG_DATA_CFG, ACQ_CHAN_CTL, TRIG_DLY and the addresses */
  ghost predicate ProgramsRest(regs: seq<Word>, config: Config, size: nat, ramStart: nat)
    requires |regs| == NUM_REGS
  {
    && regs[3] % 0x100 == config.filt
    && regs[14] % 32 == config.channel && regs[14] / 0x100 % 32 == config.triggerChannel
    && regs[5] == config.delay
    && regs[12] == ramStart && regs[13] == ramStart + P.REGION - size
  }

  /** PRE_SAMPLES and POST_SAMPLES: the counts rounded up to whole bursts */
  ghost predicate ProgramsCounts(regs: seq<Word>, config: Config, size: nat)
    requires |regs| == NUM_REGS
  {
    exists a: nat ::
      && P.FillsBursts(a, size)
      && P.RoundedUp(regs[9], a, config.preSamples, false)
      && P.RoundedUp(regs[10], a, config.postSamples, config.triggerType == "now")
  }

  ghost predicate Programs(regs: seq<Word>, config: Config, size: nat, ramStart: nat)
    requires |regs| == NUM_REGS
  {
    && ProgramsTrigger(regs, config) && ProgramsRest(regs, config, size, ramStart)
    && ProgramsCounts(regs, config, size)
  }

  lemma RunField(x: Word, mask: Word, s: nat, w: nat)
    requires Bits.IsRun(mask, s, w)
    ensures Bits.Selected(x, mask) == x / Pow2(s) % Pow2(w)
  {
    Bits.GetClosedForm(x, s, w);
  }

  lemma SmallPowers()
    ensures Pow2(0) == 1 && Pow2(1) == 2 && Pow2(2) == 4 && Pow2(3) == 8 && Pow2(4) == 16
    ensures Pow2(5) == 32 && Pow2(8) == 0x100 && Pow2(16) == 0x1_0000
  {
    Pow2Constants();
  }

  lemma TriggerConfigMeans(m: Masks, reg: Word, config: Config, trigger: Trigger)
    requires BitMasksOk(m) && FieldMasksOk(m) && ReadsBack(reg, TriggerFields(m, config, trigger))
    ensures HasBit(reg, 4, trigger.hwEn) && HasBit(reg, 8, trigger.swEn) && HasBit(reg, 1, trigger.hwSel)
    ensures HasBit(reg, 2, config.polarityNeg) && reg / 16 % 32 == config.sel
  {
    var fields := TriggerFields(m, config, trigger);
    assert forall i :: 0 <= i < 5 ==> Bits.Selected(reg, fields[i].mask) == fields[i].value;
    assert fields[0].mask == m.hwTrigEn && fields[1].mask == m.swTrigEn && fields[2].mask == m.hwTrigSel
           && fields[3].mask == m.hwTrigPol && fields[4].mask == m.intTrigSel;
    SmallPowers();
    RunField(reg, m.hwTrigEn, 2, 1);
    RunField(reg, m.swTrigEn, 3, 1);
    RunField(reg, m.hwTrigSel, 0, 1);
    RunField(reg, m.hwTrigPol, 1, 1);
    RunField(reg, m.intTrigSel, 4, 5);
  }

  lemma TriggerMeans(m: Masks, regs: seq<Word>, config: Config, size: nat, ramStart: nat)
    requires BitMasksOk(m) && FieldMasksOk(m) && |regs| == NUM_REGS
    requires EncodesTrigger(m, regs, config, size, ramStart)
    ensures ProgramsTrigger(regs, config)
  {
    TriggerConfigMeans(m, regs[TRIG_CFG], config, TriggerOf(config.triggerType).value);
    SmallPowers();
    RunField(regs[CTL], m.now, 16, 1);
    RunField(regs[SHOTS], m.shots, 0, 16);
  }

  lemma RestMeans(m: Masks, regs: seq<Word>, config: Config, size: nat, ramStart: nat)
    requires BitMasksOk(m) && FieldMasksOk(m) && |regs| == NUM_REGS && EncodesRest(m, regs, config, size, ramStart)
    ensures ProgramsRest(regs, config, size, ramStart)
  {
    var fields := ChannelFields(m, config);
    assert fields[0].mask == m.which && fields[1].mask == m.dtrigWhich;
    SmallPowers();
    RunField(regs[TRIG_DATA_CFG], m.thresFilt, 0, 8);
    RunField(regs[ACQ_CHAN_CTL], m.which, 0, 5);
    RunField(regs[ACQ_CHAN_CTL], m.dtrigWhich, 8, 5);
  }

  /** What the encoded registers hold. */
  lemma EncodesMeans(m: Masks, regs: seq<Word>, config: Config, size: nat, ramStart: nat)
    requires BitMasksOk(m) && FieldMasksOk(m) && |regs| == NUM_REGS
    requires 0 < size && (exists k: nat :: k <= 27 && size == Pow2(k)) && Encodes(m, regs, config, size, ramStart)
    ensures Programs(regs, config, size, ramStart)
  {
    var k: nat :| k <= 27 && size == Pow2(k);
    TriggerMeans(m, regs, config, size, ramStart);
    RestMeans(m, regs, config, size, ramStart);
    P.AlignmentShape(size, k);
    P.AlignExtendRounds(config.preSamples, P.Alignment(size), false);
    P.AlignExtendRounds(config.postSamples, P.Alignment(size), config.triggerType == "now");
  }

  lemma CountsKept(before: seq<Word>, after: seq<Word>, config: Config, size: nat)
    requires |before| == |after| == NUM_REGS && 0 < size && EncodesCounts(before, config, size)
    requires after[PRE_SAMPLES] == before[PRE_SAMPLES] && after[POST_SAMPLES] == before[POST_SAMPLES]
    ensures EncodesCounts(after, config, size)
  {
  }

  /** The errors, in the order in which they are found. */
  lemma ErrorOrder(config: Config, size: nat, atomWidth: nat, counts: Option<StartResult>, trigger: Option<StartResult>)
    requires 0 < size && P.PowerOfTwo(size) && atomWidth in {8, 16, 32} && Fits(config.channel, 5)
    requires counts == match P.Refused(size, config.preSamples, config.postSamples, config.triggerType == "now")
                       case None => None
                       case Some(r) => Some(Refusal(r))
    requires trigger == TriggerError(config)
    ensures ErrorFor(config, size, atomWidth) == if counts.Some? then counts else trigger
  {
  }

  /** The two command bits of the control register. */
  predicate CommandsClear(m: Masks, ctl: Word)
    requires BitMasksOk(m)
  {
    Bits.Selected(ctl, m.start) == 0 && Bits.Selected(ctl, m.stop) == 0
  }

  /**
   A block write that carries a request but no command, and the control write after it, which differs from it
   in the start bit.
   */
  ghost predicate LaunchImage(image: seq<Word>, ctl: Word, config: Config, size: nat, ramStart: nat) {
    |image| == NUM_REGS && Programs(image, config, size, ramStart) && image[0] % 4 == 0 && ctl == image[0] + 1
  }

  /** The device writes grow by those of a start. */
  ghost predicate Launched(before: seq<DeviceWrite>, after: seq<DeviceWrite>, config: Config, size: nat,
      ramStart: nat)
  {
    exists image: seq<Word>, ctl: Word ::
      after == before + [Block(image)] + [Control(ctl)] && LaunchImage(image, ctl, config, size, ramStart)
  }

  lemma LaunchedBy(m: Masks, before: seq<DeviceWrite>, image: seq<Word>, ctl: Word, config: Config, l: Latched,
      ramStart: nat)
    requires BitMasksOk(m)
    requires |image| == NUM_REGS && Programs(image, config, l.sampleSize, ramStart) && CommandsClear(m, image[CTL])
    requires Bits.BitMoved(image[CTL], ctl, m.start, 1)
    ensures Launched(before, before + [Block(image)] + [Control(ctl)], config, l.sampleSize, ramStart)
  {
    CommandsMean(m, image[CTL]);
    SmallPowers();
    SetsBit(image[CTL], ctl, m.start, 0);
    assert LaunchImage(image, ctl, config, l.sampleSize, ramStart);
  }

  /** A bit that was clear is set. */
  lemma SetsBit(before: Word, after: Word, mask: Word, s: nat)
    requires 0 < mask && Bits.CountrZero(mask) == s && Bits.Selected(before, mask) == 0
    requires Bits.BitMoved(before, after, mask, 1)
    ensures after == before + Pow2(s)
  {
  }

  /** A bit that was set is cleared. */
  lemma ClearsBit(before: Word, after: Word, mask: Word, s: nat)
    requires 0 < mask && Bits.CountrZero(mask) == s && Bits.Selected(before, mask) == 1
    requires Bits.BitMoved(before, after, mask, 0)
    ensures after == before - Pow2(s)
  {
  }

  /** The command bits are the low two of the control register. */
  lemma CommandsMean(m: Masks, ctl: Word)
    requires BitMasksOk(m) && CommandsClear(m, ctl)
    ensures ctl % 4 == 0
  {
    var s0, s1, one := 0, 1, 1;
    SmallPowers();
    RunField(ctl, m.start, s0, one);
    RunField(ctl, m.stop, s1, one);
    LowTwo(ctl);
  }

  lemma LowTwo(x: nat)
    ensures x % 4 == x % 2 + 2 * (x / 2 % 2)
  {
    var half := x / 2;
    DivModUnique(x, 4, half / 2, x % 2 + 2 * (half % 2));
  }

  // ----- the history of a controller

  /**
   `Refused` is a start that returns an error or throws, `Polled` a read of the status register,
   `Rejected` a `get_result` in the wrong step, `Lost` one that throws later.
   */
  datatype Event = Started(latched: Latched) | Refused | Stopped | Polled(ready: bool)
      | Returned(latched: Latched) | Lost | Rejected {
    predicate Quiet() { Refused? || Polled? || Rejected? }
  }

  /** An acquisition with these parameters was started and nothing ended it. */
  ghost predicate Running(log: seq<Event>, latched: Latched) {
    exists s :: 0 <= s < |log| && log[s] == Started(latched) && forall i :: s < i < |log| ==> log[i].Quiet()
  }

  /** Moreover a status read after the start was complete. */
  ghost predicate Ready(log: seq<Event>, latched: Latched) {
    exists s, r :: 0 <= s < r < |log| && log[s] == Started(latched) && log[r] == Polled(true)
                   && forall i :: s < i < |log| ==> log[i].Quiet()
  }

  /** Results are returned only for an acquisition that is ready, and with its parameters. */
  ghost predicate Proper(log: seq<Event>) {
    forall g :: 0 <= g < |log| && log[g].Returned? ==> Ready(log[..g], log[g].latched)
  }

  function Count(log: seq<Event>, returned: bool): nat {
    if log == [] then 0
    else
      var e := log[|log| - 1];
      Count(log[..|log| - 1], returned) + if (if returned then e.Returned? else e.Started?) then 1 else 0
  }

  lemma {:induction false} QuietCount(log: seq<Event>, s: nat, returned: bool)
    requires s <= |log| && forall i :: s <= i < |log| ==> log[i].Quiet()
    ensures Count(log, returned) == Count(log[..s], returned)
  {
    if s < |log| {
      var prev := log[..|log| - 1];
      assert prev[..s] == log[..s];
      QuietCount(prev, s, returned);
    } else {
      assert log[..s] == log;
    }
  }

  /** Every result has a start of its own: at most one per successful start, at every moment. */
  lemma {:induction false} ResultsNeedStarts(log: seq<Event>)
    requires Proper(log)
    ensures Count(log, true) <= Count(log, false)
    decreases |log|
  {
    if log != [] {
      var n := |log| - 1;
      var prev := log[..n];
      forall g | 0 <= g < n && prev[g].Returned?
        ensures Ready(prev[..g], prev[g].latched)
      {
        assert prev[..g] == log[..g];
      }
      ResultsNeedStarts(prev);
      if log[n].Returned? {
        var s, r :| 0 <= s < r < |prev| && prev[s] == Started(log[n].latched) && prev[r] == Polled(true)
                    && forall i :: s < i < |prev| ==> prev[i].Quiet();
        ResultsNeedStartsBefore(prev, s);
      }
    }
  }

  lemma {:induction false} ResultsNeedStartsBefore(log: seq<Event>, s: nat)
    requires Proper(log) && s < |log| && log[s].Started? && forall i :: s < i < |log| ==> log[i].Quiet()
    ensures Count(log, true) + 1 <= Count(log, false)
    decreases |log|, 0
  {
    var before := log[..s];
    forall g | 0 <= g < s && before[g].Returned?
      ensures Ready(before[..g], before[g].latched)
    {
      assert before[..g] == log[..g];
    }
    ResultsNeedStarts(before);
    QuietCount(log, s + 1, true);
    QuietCount(log, s + 1, false);
    assert log[..s + 1][..s] == before;
  }

  /** What the controller's step says about its history. */
  datatype Step = StepStop | StepStarted | StepDone

  ghost predicate StepFits(step: Step, latched: Latched, log: seq<Event>) {
    match step
    case StepStop => true
    case StepStarted => Running(log, latched)
    case StepDone => Ready(log, latched)
  }

  /** A quiet event changes nothing for the step. */
  lemma QuietKeeps(step: Step, latched: Latched, log: seq<Event>, e: Event)
    requires Proper(log) && StepFits(step, latched, log) && e.Quiet()
    ensures Proper(log + [e]) && StepFits(step, latched, log + [e])
    ensures step == StepStarted && e == Polled(true) ==> Ready(log + [e], latched)
  {
    ProperGrows(log, e);
    var log' := log + [e];
    if step == StepStarted {
      var s :| 0 <= s < |log| && log[s] == Started(latched) && forall i :: s < i < |log| ==> log[i].Quiet();
      assert log'[s] == Started(latched) && log'[|log|] == e;
      assert forall i :: s < i < |log'| ==> log'[i].Quiet();
    } else if step == StepDone {
      var s, r :| 0 <= s < r < |log| && log[s] == Started(latched) && log[r] == Polled(true)
                  && forall i :: s < i < |log| ==> log[i].Quiet();
      assert log'[s] == Started(latched) && log'[r] == Polled(true);
      assert forall i :: s < i < |log'| ==> log'[i].Quiet();
    }
  }

  lemma ProperGrows(log: seq<Event>, e: Event)
    requires Proper(log) && (e.Returned? ==> Ready(log, e.latched))
    ensures Proper(log + [e])
  {
    var log' := log + [e];
    forall g | 0 <= g < |log'| && log'[g].Returned?
      ensures Ready(log'[..g], log'[g].latched)
    {
      assert log'[..g] == if g < |log| then log[..g] else log;
    }
  }

  lemma StartedRuns(log: seq<Event>, latched: Latched)
    requires Proper(log)
    ensures Proper(log + [Started(latched)]) && Running(log + [Started(latched)], latched)
  {
    ProperGrows(log, Started(latched));
    assert (log + [Started(latched)])[|log|] == Started(latched);
  }

  // ----- the controller

  /** Writes to the core: all its registers, or the control register alone. */
  datatype DeviceWrite = Block(image: seq<Word>) | Control(value: Word) {
    function Ctl(): Word {
      if Control? then value else if CTL < |image| then image[CTL] else 0
    }
  }

  /** How many writes carry the start command. */
  function StartWrites(m: Masks, writes: seq<DeviceWrite>): nat
    requires 0 < m.start
  {
    if writes == [] then 0
    else
      var last := |writes| - 1;
      StartWrites(m, writes[..last]) + if Bits.Selected(writes[last].Ctl(), m.start) == 1 then 1 else 0
  }

  lemma StartWritesStep(m: Masks, writes: seq<DeviceWrite>, w: DeviceWrite)
    requires 0 < m.start
    ensures StartWrites(m, writes + [w]) ==
              StartWrites(m, writes) + if Bits.Selected(w.Ctl(), m.start) == 1 then 1 else 0
  {
    assert (writes + [w])[..|writes|] == writes;
  }

  lemma CountStep(log: seq<Event>, e: Event, returned: bool)
    ensures Count(log + [e], returned) ==
              Count(log, returned) + if (if returned then e.Returned? else e.Started?) then 1 else 0
  {
    assert (log + [e])[..|log|] == log;
  }

  /** The status bits of a finished acquisition: idle, done, and both transfers done. */
  const COMPLETE_MASK: Word := 0x1_010F
  const COMPLETE_VALUE: Word := 0x1_0109

  /** The status fields of a finished acquisition: the state machine idle, and the three done bits set. */
  predicate IsComplete(sta: Word) {
    && sta % 8 == 1
    && sta / 8 % 2 == 1 && sta / 0x100 % 2 == 1 && sta / 0x1_0000 % 2 == 1
  }

  /** The masks of those fields: FSM_STATE, FSM_ACQ_DONE, FC_TRANS_DONE and DDR3_TRANS_DONE. */
  datatype StatusMasks = StatusMasks(state: Word, acqDone: Word, fcDone: Word, ddrDone: Word)

  const STATUS_MASKS := StatusMasks(0x7, 0x8, 0x100, 0x1_0000)

  /** What the fields under the masks of the register map hold. */
  lemma CompleteFields(sta: Word, f: StatusMasks)
    requires f == STATUS_MASKS
    ensures IsComplete(sta) <==>
            && Bits.Selected(sta, f.state) == 1 && Bits.Selected(sta, f.acqDone) == 1
            && Bits.Selected(sta, f.fcDone) == 1 && Bits.Selected(sta, f.ddrDone) == 1
  {
    Pow2Constants();
    assert Pow2(1) == 2 && Pow2(3) == 8;
    FieldIs(sta, f.state, 0, 3);
    FieldIs(sta, f.acqDone, 3, 1);
    FieldIs(sta, f.fcDone, 8, 1);
    FieldIs(sta, f.ddrDone, 16, 1);
  }

  lemma FieldIs(x: Word, mask: Word, s: nat, w: nat)
    requires 0 < w && mask == (Pow2(w) - 1) * Pow2(s)
    ensures 0 < mask && Bits.Selected(x, mask) == x / Pow2(s) % Pow2(w)
    ensures Bits.And(x, mask) == x / Pow2(s) % Pow2(w) * Pow2(s)
  {
    Bits.RunIs(mask, s, w);
    Bits.MaskClosedForm(s, w);
    Bits.GetClosedForm(x, s, w);
    Bits.AndMask(x, s, w);
  }

  /** A mask of low bits and the bit above or beyond them select separately. */
  lemma AddBit(sta: Word, low: Word, bit: Word, s: nat)
    requires bit == Pow2(s) && low < bit && low + bit < 0x1_0000_0000
    ensures Bits.And(sta, low + bit) == Bits.And(sta, low) + sta / bit % 2 * bit
  {
    assert Pow2(1) == 2;
    FieldIs(sta, bit, s, 1);
    FieldIs(low, bit, s, 1);
    DivModUnique(low, bit, 0, low);
    Bits.AndSum(sta, low, bit);
  }

  /** The comparison selects the low four bits, bit 8 and bit 16. */
  lemma CompleteParts(sta: Word, low: Word, fc: Word, ddr: Word)
    requires low == 0xF && fc == 0x100 && ddr == 0x1_0000
    ensures Bits.And(sta, low + fc + ddr) == sta % 16 + sta / fc % 2 * fc + sta / ddr % 2 * ddr
  {
    Pow2Constants();
    assert Pow2(4) == 16;
    FieldIs(sta, low, 0, 4);
    AddBit(sta, low, fc, 8);
    AddBit(sta, low + fc, ddr, 16);
  }

  lemma Parts(low: nat, fc: nat, ddr: nat)
    requires low < 16 && fc < 2 && ddr < 2
    ensures low + fc * 0x100 + ddr * 0x1_0000 == COMPLETE_VALUE <==> low == 9 && fc == 1 && ddr == 1
  {
  }

  lemma LowFour(x: nat)
    ensures x % 16 == x % 8 + 8 * (x / 8 % 2)
  {
  }

  /** The code's comparison tests these fields. */
  lemma CompleteIff(sta: Word, mask: Word, value: Word)
    requires mask == COMPLETE_MASK && value == COMPLETE_VALUE
    ensures Bits.And(sta, mask) == value <==> IsComplete(sta)
  {
    var low, fc, ddr := 0xF, 0x100, 0x1_0000;
    CompleteParts(sta, low, fc, ddr);
    assert mask == low + fc + ddr;
    LowFour(sta);
    Parts(sta % 16, sta / 0x100 % 2, sta / 0x1_0000 % 2);
  }

  datatype Status = Idle | InProgress | Finished

  /** A count is less than one alignment away from 2^32, where rounding it up wraps around. */
  predicate NearWrap(l: Latched) {
    0x1_0000_0000 - l.alignment < l.pre || 0x1_0000_0000 - l.alignment < l.post
  }

  /** What a start latches: a known geometry, and a window smaller than the ring unless a count wrapped around. */
  ghost predicate LatchedOk(l: Latched) {
    && l.atomWidth in {8, 16, 32} && (l.pre + l.post) % 0x1_0000_0000 != 0
    && (exists k: nat :: k <= 27 && l.sampleSize == Pow2(k))
    && (NearWrap(l) || l.pre + l.post < P.REGION / l.sampleSize)
  }

  lemma LatchedSlots(l: Latched)
    requires LatchedOk(l)
    ensures 0 < l.sampleSize && P.REGION / l.sampleSize * l.sampleSize == P.REGION &&
              2 <= P.REGION / l.sampleSize <= P.REGION
  {
    var k: nat :| k <= 27 && l.sampleSize == Pow2(k);
    P.RegionDivides(l.sampleSize, k);
    QuotientAtMost(P.REGION, l.sampleSize);
  }

  lemma LatchIsOk(config: Config, desc: Word, atomDesc: Word)
    requires StartError(config, desc, atomDesc).None?
    ensures 0 < P.SampleSize(desc) && LatchedOk(LatchOf(config, desc, atomDesc))
  {
    P.SampleSizeShape(desc);
    P.AcceptedMeaning(desc, config.preSamples, config.postSamples, config.triggerType == "now");
  }

  /** What holds between any two calls, of the control register, the step and the two histories. */
  ghost predicate Inv(m: Masks, ctl: Word, step: Step, latched: Latched, log: seq<Event>, writes: seq<DeviceWrite>)
    requires BitMasksOk(m)
  {
    && CommandsClear(m, ctl)
    && Proper(log) && StepFits(step, latched, log) && (step != StepStop ==> LatchedOk(latched))
    && StartWrites(m, writes) == Count(log, false)
  }

  lemma InvInitially(m: Masks, latched: Latched)
    requires BitMasksOk(m)
    ensures Inv(m, 0, StepStop, latched, [], [])
  {
    Bits.GetClosedForm(0, 0, 1);
    Bits.GetClosedForm(0, 1, 1);
  }

  lemma InvAfterStop(m: Masks, ctl: Word, sent: Word, ctl': Word, step: Step, latched: Latched,
                     log: seq<Event>, writes: seq<DeviceWrite>)
    requires BitMasksOk(m) && Inv(m, ctl, step, latched, log, writes)
    requires Bits.FieldSet(ctl, sent, m.stop, 1) && Bits.FieldSet(sent, ctl', m.stop, 0)
    ensures Bits.Selected(sent, m.stop) == 1 && Bits.Selected(sent, m.start) == 0
    ensures Inv(m, ctl', StepStop, latched, log + [Stopped], writes + [Control(sent)])
  {
    assert Bits.Selected(sent, m.start) == Bits.Selected(ctl, m.start);
    assert Bits.Selected(ctl', m.start) == Bits.Selected(sent, m.start);
    StartWritesStep(m, writes, Control(sent));
    CountStep(log, Stopped, false);
    ProperGrows(log, Stopped);
  }

  lemma StopMeans(m: Masks, ctl: Word, sent: Word, ctl': Word)
    requires BitMasksOk(m) && CommandsClear(m, ctl)
    requires Bits.BitMoved(ctl, sent, m.stop, 1) && Bits.BitMoved(sent, ctl', m.stop, 0)
    requires Bits.Selected(sent, m.stop) == 1
    ensures ctl % 4 == 0 && sent == ctl + 2 && ctl' == ctl
  {
    CommandsMean(m, ctl);
    SmallPowers();
    SetsBit(ctl, sent, m.stop, 1);
    ClearsBit(sent, ctl', m.stop, 1);
  }

  /** A successful start: the block carries no command, the control write after it carries the start. */
  lemma InvAfterStart(m: Masks, ctl: Word, before: Step, latched: Latched, log: seq<Event>, writes: seq<DeviceWrite>,
                      image: seq<Word>, sent: Word, ctl': Word, l: Latched)
    requires BitMasksOk(m) && Inv(m, ctl, before, latched, log, writes) && LatchedOk(l)
    requires |image| == NUM_REGS && CommandsClear(m, image[CTL])
    requires Bits.FieldSet(image[CTL], sent, m.start, 1) && Bits.FieldSet(sent, ctl', m.start, 0)
    ensures Bits.Selected(sent, m.start) == 1 && Bits.Selected(sent, m.stop) == 0
    ensures Inv(m, ctl', StepStarted, l, log + [Started(l)], writes + [Block(image)] + [Control(sent)])
  {
    assert Bits.Selected(sent, m.stop) == Bits.Selected(image[CTL], m.stop);
    assert Bits.Selected(ctl', m.stop) == Bits.Selected(sent, m.stop);
    StartWritesStep(m, writes, Block(image));
    StartWritesStep(m, writes + [Block(image)], Control(sent));
    CountStep(log, Started(l), false);
    StartedRuns(log, l);
  }

  /** An event that starts nothing; the step stays, goes from started to done on a complete poll, or ends. */
  lemma InvAfterEvent(m: Masks, ctl: Word, ctl': Word, step: Step, latched: Latched, latched': Latched,
                      log: seq<Event>, writes: seq<DeviceWrite>, e: Event)
    requires BitMasksOk(m) && Inv(m, ctl, step, latched, log, writes) && CommandsClear(m, ctl')
    requires !e.Started? && (e.Returned? ==> step == StepDone && e.latched == latched)
    requires step != StepStop ==> latched' == latched
    ensures Inv(m, ctl', StepStop, latched', log + [e], writes)
    ensures e.Quiet() ==> Inv(m, ctl', step, latched', log + [e], writes)
    ensures step == StepStarted && e == Polled(true) ==> Inv(m, ctl', StepDone, latched', log + [e], writes)
  {
    CountStep(log, e, false);
    ProperGrows(log, e);
    if e.Quiet() {
      QuietKeeps(step, latched, log, e);
    }
  }

  /** The size check is about the geometry alone. */
  lemma AtomsFillSamples(total: nat, atoms: nat, bytes: nat, size: nat)
    requires total != 0
    ensures total * atoms * bytes == total * size <==> atoms * bytes == size
  {
    MulAssociates(total, atoms, bytes);
    var d := atoms * bytes - size;
    R.MulSub(atoms * bytes, size, total);
    if d != 0 {
      NonzeroMultiple(d, total);
    }
  }

  /** The reads of a result throw none of the errors found before them. */
  lemma PlanErrorNotOurs(sse41: bool, ramStart: nat, destAddr: nat, q: R.Request)
    requires Fills(q)
    ensures Short(R.Plan(q))
    ensures var e := PlanError(sse41, ramStart, destAddr, R.Plan(q));
            e.Some? ==> e.value in {Unaligned, Faulted, AssertionFailed}
  {
    PlanIsShort(q);
    PlanCases(q);
    var plan := R.Plan(q);
    PlanErrorCases(sse41, ramStart, destAddr, plan[0], if |plan| == 1 then plan[0] else plan[1]);
  }

  /** What the reads of a request throw. */
  lemma PlanErrorMeaning(sse41: bool, ramStart: nat, destAddr: nat, q: R.Request)
    requires Region(ramStart) && Fills(q)
    ensures Short(R.Plan(q))
    ensures var e, first := PlanError(sse41, ramStart, destAddr, R.Plan(q)), (q.trigger - q.pre) * q.size;
            && first <= P.REGION
            && if first % 4 != 0 || q.Total() % 4 != 0 then e.Some? && e.value in {Unaligned, Faulted, AssertionFailed}
               else e == if sse41 && destAddr % 16 != first % 16 && LongAround(first, q.Total())
                         then Some(Faulted) else None
  {
    AnyLongIff(q);
    WholeIff(q);
    PlanErrorNotOurs(sse41, ramStart, destAddr, q);
    NoErrorIsWhole(sse41, ramStart, destAddr, q);
    if Whole(R.Plan(q)) {
      FaultIff(sse41, ramStart, destAddr, q);
    }
  }

  lemma QuotientAtMost(x: nat, d: nat)
    requires 0 < d
    ensures x / d <= x
  {
    var q := x / d;
    assert x == q * d + x % d;
    if q != 0 {
      NonzeroMultiple(d, q);
    }
  }

  lemma TriggerSlot(offset: nat, size: nat, slots: nat)
    requires 0 < size && offset < slots * size
    ensures offset / size < slots
  {
    P.StepsApart(slots, offset / size, size);
    assert offset == offset / size * size + offset % size;
  }

  class Controller {
    const ramStart: nat
    const bars: S.PcieBars
    const m: Masks
    const regs: array<Word>
    var step: Step
    var latched: Latched
    var config: Config
    /** Everything written to the core, and what happened so far */
    var writes: seq<DeviceWrite>
    ghost var log: seq<Event>

    ghost predicate Valid()
      reads this, regs
    {
      && BitMasksOk(m) && FieldMasksOk(m) && regs.Length == NUM_REGS
      && Region(ramStart)
      && Inv(m, regs[CTL], step, latched, log, writes)
    }

    /** The registers start out as zeros; `MASKS` are masks `m` as required. */
    constructor (m: Masks, ramStart: nat, bars: S.PcieBars, config: Config)
      requires BitMasksOk(m) && FieldMasksOk(m)
      requires Region(ramStart)
      ensures Valid() && step == StepStop && log == [] && writes == []
      ensures this.m == m && this.ramStart == ramStart && this.bars == bars && this.config == config && fresh(regs)
    {
      InvInitially(m, Latched(0, 0, 0, 0, 0, 0));
      this.m, this.ramStart, this.bars, this.config := m, ramStart, bars, config;
      regs := new Word[NUM_REGS](_ => 0);
      step, latched, writes, log := StepStop, Latched(0, 0, 0, 0, 0, 0), [], [];
    }

    /** `stop_acquisition` */
    method StopAcquisition()
      requires Valid()
      modifies this`step, this`writes, this`log, regs
      ensures Valid() && step == StepStop && log == old(log) + [Stopped]
      ensures regs[..] == old(regs[..]) && regs[0] % 4 == 0
      ensures exists ctl: Word :: ctl == regs[0] + 2 && writes == old(writes) + [Control(ctl)]
    {
      ghost var ctl, step0, writes0 := regs[CTL], step, writes;
      step := StepStop;
      Bits.SetBitOf(regs, CTL, true, m.stop);
      ghost var sent := regs[CTL];
      writes := writes + [Control(regs[CTL])];
      Bits.SetBitOf(regs, CTL, false, m.stop);
      InvAfterStop(m, ctl, sent, regs[CTL], step0, latched, log, writes0);
      StopMeans(m, ctl, sent, regs[CTL]);
      log := log + [Stopped];
    }

    /** `acquisition_ready` */
    method AcquisitionReady(sta: Word) returns (ready: bool)
      requires regs.Length == NUM_REGS
      modifies regs
      ensures regs[..] == old(regs[..])[1 := sta]
      ensures ready <==> IsComplete(sta)
    {
      regs[STA] := sta;
      CompleteIff(sta, COMPLETE_MASK, COMPLETE_VALUE);
      return Bits.And(regs[STA], COMPLETE_MASK) == COMPLETE_VALUE;
    }

    /** `get_acq_status`; `sta` is what the status register reads if it is read. */
    method GetAcqStatus(sta: Word) returns (status: Status)
      requires Valid()
      modifies this`step, this`log, regs
      ensures Valid() && writes == old(writes) && latched == old(latched)
      ensures var ready := IsComplete(sta);
              && log == old(log) + (if old(step) == StepStarted then [Polled(ready)] else [])
              && step == (if old(step) == StepStarted && ready then StepDone else old(step))
      ensures status == match step case StepStop => Idle case StepStarted => InProgress case StepDone => Finished
    {
      if step == StepStop {
        return Idle;
      }
      if step == StepStarted {
        var ready := AcquisitionReady(sta);
        InvAfterEvent(m, regs[CTL], regs[CTL], step, latched, latched, log, writes, Polled(ready));
        log := log + [Polled(ready)];
        if ready {
          step := StepDone;
        } else {
          return InProgress;
        }
      }
      return Finished;
    }

    /** `get_internal_values`; `desc` and `atomDesc` are what the channel's description registers read. */
    method GetInternalValues(desc: Word, atomDesc: Word) returns (ok: bool)
      modifies this`latched
      ensures ok <==> P.PowerOfTwo(P.SampleSize(desc)) && P.HighHalf(atomDesc) in {8, 16, 32}
      ensures ok ==>
                && 0 < P.SampleSize(desc) <= P.REGION && P.Alignment(P.SampleSize(desc)) <= 32
                && latched == LatchOf(config, desc, atomDesc).(pre := old(latched).pre, post := old(latched).post)
    {
      latched := latched.(sampleSize := P.SampleSize(desc));
      if !P.PowerOfTwo(latched.sampleSize) {
        return false;
      }
      P.SampleSizeShape(desc);
      P.AlignmentBound(latched.sampleSize);
      latched := latched.(alignment := P.Alignment(latched.sampleSize));
      latched := latched.(atomWidth := P.HighHalf(atomDesc), numAtoms := P.LowHalf(atomDesc));
      return latched.atomWidth in {8, 16, 32};
    }

    /** `encode_params`; an exception can leave the registers partly changed, but never the command bits. */
    method EncodeParams(desc: Word, atomDesc: Word) returns (error: Option<StartResult>)
      requires BitMasksOk(m) && FieldMasksOk(m) && regs.Length == NUM_REGS && CommandsClear(m, regs[CTL])
      requires ramStart + P.REGION <= 0x8000_0000
      modifies this`latched, regs
      ensures error == StartError(config, desc, atomDesc)
      ensures CommandsClear(m, regs[CTL])
      ensures error.None? ==>
                && 0 < P.SampleSize(desc) && latched == LatchOf(config, desc, atomDesc)
                && Latches(latched, config, desc, atomDesc)
                && Programs(regs[..], config, P.SampleSize(desc), ramStart)
    {
      var valuesOk := GetInternalValues(desc, atomDesc);
      if !valuesOk {
        return Some(Error);
      }
      latched := latched.(pre := config.preSamples, post := config.postSamples);
      var ok := Bits.SetFieldOf(regs, ACQ_CHAN_CTL, config.channel, m.which);
      if !ok {
        return Some(Error);
      }
      var size := latched.sampleSize;
      error := EncodeCounts(size);
      if error.Some? {
        ErrorOrder(config, size, latched.atomWidth, error, TriggerError(config));
        return;
      }
      ghost var counted := regs[..];
      error := EncodeTrigger(size);
      ErrorOrder(config, size, latched.atomWidth, None, error);
      if error.None? {
        CountsKept(counted, regs[..], config, size);
        LatchMeans(config, desc, atomDesc);
        EncodesMeans(m, regs[..], config, size, ramStart);
      }
    }

    /** The checks of the counts, and the count registers. */
    method EncodeCounts(size: nat) returns (error: Option<StartResult>)
      requires regs.Length == NUM_REGS && 0 < size <= P.REGION && latched.alignment == P.Alignment(size) <= 32
      modifies regs
      ensures error == match P.Refused(size, config.preSamples, config.postSamples, config.triggerType == "now")
                       case None => None
                       case Some(r) => Some(Refusal(r))
      ensures regs[..] == old(regs[..])[PRE_SAMPLES := regs[PRE_SAMPLES]][POST_SAMPLES := regs[POST_SAMPLES]]
      ensures error.None? ==> EncodesCounts(regs[..], config, size)
    {
      var now := config.triggerType == "now";
      if (config.postSamples + config.preSamples) % 0x1_0000_0000 == 0 {
        return Some(NoSamples);
      }
      if config.postSamples != 0 && now {
        return Some(BadPostSamples);
      }
      var preAligned: int := P.AlignExtend(config.preSamples, latched.alignment, false);
      var postAligned: int := P.AlignExtend(config.postSamples, latched.alignment, now);
      var maxSamples := P.REGION / size;
      if preAligned + postAligned >= maxSamples {
        return Some(TooManySamples);
      }
      regs[PRE_SAMPLES] := preAligned;
      regs[POST_SAMPLES] := postAligned;
      return None;
    }

    /** The trigger configuration register. */
    method EncodeTriggerConfig(trigger: Trigger) returns (ok: bool)
      requires BitMasksOk(m) && FieldMasksOk(m) && regs.Length == NUM_REGS
      modifies regs
      ensures ok <==> Fits(config.sel, 5)
      ensures ok ==> ReadsBack(regs[TRIG_CFG], TriggerFields(m, config, trigger))
      ensures ok ==> regs[TRIG_DATA_THRES] == config.threshold
      ensures forall r :: 0 <= r < NUM_REGS && r != TRIG_CFG && r != TRIG_DATA_THRES ==> regs[r] == old(regs[r])
    {
      Bits.SetBitOf(regs, TRIG_CFG, trigger.hwEn, m.hwTrigEn);
      Bits.SetBitOf(regs, TRIG_CFG, trigger.swEn, m.swTrigEn);
      Bits.SetBitOf(regs, TRIG_CFG, trigger.hwSel, m.hwTrigSel);
      regs[TRIG_DATA_THRES] := config.threshold;
      Bits.SetBitOf(regs, TRIG_CFG, config.polarityNeg, m.hwTrigPol);
      ok := Bits.SetFieldOf(regs, TRIG_CFG, config.sel, m.intTrigSel);
    }

    /** The rest of `encode_params`, once the counts are in place. */
    method EncodeTrigger(size: nat) returns (error: Option<StartResult>)
      requires BitMasksOk(m) && FieldMasksOk(m) && regs.Length == NUM_REGS && CommandsClear(m, regs[CTL])
      requires ramStart + P.REGION <= 0x8000_0000 && 0 < size <= P.REGION
      requires Bits.Selected(regs[ACQ_CHAN_CTL], m.which) == config.channel
      modifies regs
      ensures error == TriggerError(config)
      ensures CommandsClear(m, regs[CTL])
      ensures regs[PRE_SAMPLES] == old(regs[PRE_SAMPLES]) && regs[POST_SAMPLES] == old(regs[POST_SAMPLES])
      ensures error.None? ==> EncodesTrigger(m, regs[..], config, size, ramStart)
    {
      var trigger := EncodeMode();
      if trigger.None? {
        return Some(Error);
      }
      var ok := EncodeTriggerConfig(trigger.value);
      if !ok {
        return Some(Error);
      }
      error := EncodeRest(size);
    }

    /** The number of shots and the immediate bit, and which trigger was asked for; None stands for an exception. */
    method EncodeMode() returns (trigger: Option<Trigger>)
      requires BitMasksOk(m) && FieldMasksOk(m) && regs.Length == NUM_REGS && CommandsClear(m, regs[CTL])
      modifies regs
      ensures trigger == if Fits(config.numberShots, 16) then TriggerOf(config.triggerType) else None
      ensures CommandsClear(m, regs[CTL])
      ensures forall r :: 0 <= r < NUM_REGS && r != SHOTS && r != CTL ==> regs[r] == old(regs[r])
      ensures trigger.Some? ==>
                && Bits.Selected(regs[SHOTS], m.shots) == config.numberShots
                && Bits.Selected(regs[CTL], m.now) == BitOf(config.triggerType == "now")
    {
      var ok := Bits.SetFieldOf(regs, SHOTS, config.numberShots, m.shots);
      if !ok {
        return None;
      }
      trigger := TriggerOf(config.triggerType);
      if trigger.Some? {
        NowTrigger(config.triggerType);
        Bits.SetBitOf(regs, CTL, trigger.value.now, m.now);
        assert CommandsClear(m, regs[CTL]);
      }
    }

    /** The registers after the trigger configuration. */
    method EncodeRest(size: nat) returns (error: Option<StartResult>)
      requires BitMasksOk(m) && FieldMasksOk(m) && regs.Length == NUM_REGS
      requires ramStart + P.REGION <= 0x8000_0000 && 0 < size <= P.REGION
      requires Bits.Selected(regs[ACQ_CHAN_CTL], m.which) == config.channel
      modifies regs
      ensures error.None? <==> Fits(config.filt, 8) && Fits(config.triggerChannel, 5)
      ensures error.Some? ==> error == Some(Error)
      ensures forall r :: 0 <= r < TRIG_DATA_CFG || r == TRIG_DATA_THRES || SHOTS <= r < DDR3_START_ADDR ==>
                regs[r] == old(regs[r])
      ensures error.None? ==> EncodesRest(m, regs[..], config, size, ramStart)
    {
      var ok := EncodeDataTrigger();
      if !ok {
        return Some(Error);
      }
      regs[TRIG_DLY] := config.delay;
      regs[DDR3_START_ADDR] := ramStart;
      regs[DDR3_END_ADDR] := ramStart + P.REGION - size;
      return None;
    }

    /** The filter and the channel of the data trigger */
    method EncodeDataTrigger() returns (ok: bool)
      requires BitMasksOk(m) && FieldMasksOk(m) && regs.Length == NUM_REGS
      requires Bits.Selected(regs[ACQ_CHAN_CTL], m.which) == config.channel
      modifies regs
      ensures ok <==> Fits(config.filt, 8) && Fits(config.triggerChannel, 5)
      ensures forall r :: 0 <= r < NUM_REGS && r != TRIG_DATA_CFG && r != ACQ_CHAN_CTL ==> regs[r] == old(regs[r])
      ensures ok ==>
                && Bits.Selected(regs[TRIG_DATA_CFG], m.thresFilt) == config.filt
                && ReadsBack(regs[ACQ_CHAN_CTL], ChannelFields(m, config))
    {
      ok := Bits.SetFieldOf(regs, TRIG_DATA_CFG, config.filt, m.thresFilt);
      if ok {
        ok := Bits.SetFieldOf(regs, ACQ_CHAN_CTL, config.triggerChannel, m.dtrigWhich);
      }
    }

    /** `start_acquisition` */
    method StartAcquisition(desc: Word, atomDesc: Word) returns (result: StartResult)
      requires Valid()
      modifies this`step, this`latched, this`writes, this`log, regs
      ensures Valid()
      ensures result == (if old(step) != StepStop then Thrown
                         else match StartError(config, desc, atomDesc) case None => Success case Some(e) => e)
      ensures result != Success ==>
                && step == old(step) && writes == old(writes) && log == old(log) + [Refused]
                && (old(step) != StepStop ==> latched == old(latched))
      ensures result == Success ==>
                && step == StepStarted && 0 < P.SampleSize(desc) && latched == LatchOf(config, desc, atomDesc)
                && log == old(log) + [Started(latched)]
                && Latches(latched, config, desc, atomDesc)
                && Launched(old(writes), writes, config, latched.sampleSize, ramStart)
    {
      if step != StepStop {
        InvAfterEvent(m, regs[CTL], regs[CTL], step, latched, latched, log, writes, Refused);
        log := log + [Refused];
        return Thrown;
      }
      result := TryStart(desc, atomDesc);
    }

    /** `start_acquisition` of a stopped controller */
    method TryStart(desc: Word, atomDesc: Word) returns (result: StartResult)
      requires Valid() && step == StepStop
      modifies this`step, this`latched, this`writes, this`log, regs
      ensures Valid()
      ensures result == match StartError(config, desc, atomDesc) case None => Success case Some(e) => e
      ensures result != Success ==> step == StepStop && writes == old(writes) && log == old(log) + [Refused]
      ensures result == Success ==> step == StepStarted && log == old(log) + [Started(latched)]
      ensures result == Success ==>
                && 0 < P.SampleSize(desc) && latched == LatchOf(config, desc, atomDesc)
                && Latches(latched, config, desc, atomDesc)
                && Launched(old(writes), writes, config, latched.sampleSize, ramStart)
    {
      ghost var ctl0, latched0 := regs[CTL], latched;
      var error := EncodeParams(desc, atomDesc);
      if error.Some? {
        Refuse(ctl0, latched0);
        return error.value;
      }
      LatchIsOk(config, desc, atomDesc);
      SendStart(ctl0, latched0);
      return Success;
    }

    /** The end of a start that was refused */
    ghost method Refuse(ctl0: Word, latched0: Latched)
      requires BitMasksOk(m) && regs.Length == NUM_REGS && CommandsClear(m, regs[CTL])
      requires Inv(m, ctl0, StepStop, latched0, log, writes)
      modifies this`log
      ensures Inv(m, regs[CTL], StepStop, latched, log, writes) && log == old(log) + [Refused]
    {
      InvAfterEvent(m, ctl0, regs[CTL], StepStop, latched0, latched, log, writes, Refused);
      log := log + [Refused];
    }

    /** The end of a start whose registers are encoded */
    method SendStart(ghost ctl0: Word, ghost latched0: Latched)
      requires BitMasksOk(m) && FieldMasksOk(m) && regs.Length == NUM_REGS && CommandsClear(m, regs[CTL]) &&
                LatchedOk(latched)
      requires Inv(m, ctl0, StepStop, latched0, log, writes)
      requires Programs(regs[..], config, latched.sampleSize, ramStart)
      modifies this`step, this`writes, this`log, regs
      ensures Inv(m, regs[CTL], step, latched, log, writes)
      ensures step == StepStarted && log == old(log) + [Started(latched)]
      ensures Launched(old(writes), writes, config, latched.sampleSize, ramStart)
    {
      ghost var image, writes0 := regs[..], writes;
      ghost var sent := Launch(ctl0, latched0);
      LaunchedBy(m, writes0, image, sent, config, latched, ramStart);
    }

    /** The writes of a start whose registers are encoded, and the step that follows. */
    method Launch(ghost ctl0: Word, ghost latched0: Latched) returns (ghost sent: Word)
      requires BitMasksOk(m) && regs.Length == NUM_REGS && CommandsClear(m, regs[CTL]) && LatchedOk(latched)
      requires Inv(m, ctl0, StepStop, latched0, log, writes)
      modifies this`step, this`writes, this`log, regs
      ensures Inv(m, regs[CTL], step, latched, log, writes)
      ensures step == StepStarted && log == old(log) + [Started(latched)]
      ensures writes == old(writes) + [Block(old(regs[..]))] + [Control(sent)]
      ensures Bits.BitMoved(old(regs[CTL]), sent, m.start, 1)
    {
      ghost var writes0, image := writes, regs[..];
      writes := writes + [Block(regs[..])];
      step := StepStarted;
      Bits.SetBitOf(regs, CTL, true, m.start);
      sent := regs[CTL];
      writes := writes + [Control(regs[CTL])];
      Bits.SetBitOf(regs, CTL, false, m.start);
      InvAfterStart(m, ctl0, StepStop, latched0, log, writes0, image, sent, regs[CTL], latched);
      log := log + [Started(latched)];
    }

    /** The window the latched parameters ask for, around a trigger at address `triggerPos`. */
    function RequestAt(l: Latched, triggerPos: nat): R.Request
      requires 0 < l.sampleSize && ramStart <= triggerPos
    {
      R.Request(l.sampleSize, P.REGION / l.sampleSize, (triggerPos - ramStart) / l.sampleSize, l.pre, l.post)
    }

    /** What `get_result` throws in step done, if anything. */
    function FetchError(l: Latched, triggerPos: nat, destAddr: nat): Option<Outcome>
      requires LatchedOk(l) && Region(ramStart)
    {
      LatchedSlots(l);
      if l.numAtoms * (l.atomWidth / 8) != l.sampleSize then Some(SizeMismatch)
      else if triggerPos < ramStart || ramStart + P.REGION <= triggerPos then Some(TriggerOutside)
      else if P.REGION / l.sampleSize <= l.pre + l.post then Some(Oversized)
      else
        RequestFills(l, triggerPos);
        PlanIsShort(RequestAt(l, triggerPos));
        PlanError(bars.useSse41, ramStart, destAddr, R.Plan(RequestAt(l, triggerPos)))
    }

    lemma RequestFills(l: Latched, triggerPos: nat)
      requires LatchedOk(l) && ramStart <= triggerPos < ramStart + P.REGION && l.pre + l.post < P.REGION / l.sampleSize
      ensures Fills(RequestAt(l, triggerPos))
    {
      LatchedSlots(l);
      TriggerSlot(triggerPos - ramStart, l.sampleSize, P.REGION / l.sampleSize);
    }

    /** The words around the trigger position, by the latched parameters alone */
    ghost predicate Answers(words: seq<Word>, l: Latched, triggerPos: nat) {
      && 0 < l.sampleSize && ramStart <= triggerPos
      && Delivers(bars.sdram, words, ramStart, l.sampleSize, (triggerPos - ramStart) / l.sampleSize, l.pre, l.post)
    }

    /** Which exception `get_result` throws in step done, by plain arithmetic. */
    lemma FetchErrorMeaning(l: Latched, triggerPos: nat, destAddr: nat)
      requires LatchedOk(l) && Region(ramStart)
      ensures 0 < l.sampleSize
      ensures var e := FetchError(l, triggerPos, destAddr);
              if l.numAtoms * (l.atomWidth / 8) != l.sampleSize then e == Some(SizeMismatch)
              else if !(ramStart <= triggerPos < ramStart + P.REGION) then e == Some(TriggerOutside)
              else if P.REGION / l.sampleSize <= l.pre + l.post then e == Some(Oversized)
              else
                var t := (triggerPos - ramStart) / l.sampleSize;
                var first, bytes := (t - l.pre) * l.sampleSize, (l.pre + l.post) * l.sampleSize;
                && first <= P.REGION
                && if first % 4 != 0 || bytes % 4 != 0 then e.Some? && e.value in {Unaligned, Faulted, AssertionFailed}
                   else e == if bars.useSse41 && destAddr % 16 != first % 16 && LongAround(first, bytes)
                             then Some(Faulted) else None
    {
      LatchedSlots(l);
      if && l.numAtoms * (l.atomWidth / 8) == l.sampleSize && ramStart <= triggerPos < ramStart + P.REGION
         && l.pre + l.post < P.REGION / l.sampleSize {
        RequestFills(l, triggerPos);
        PlanErrorMeaning(bars.useSse41, ramStart, destAddr, RequestAt(l, triggerPos));
      }
    }

    /**
     `get_result`; `triggerPos` is what the trigger position register reads, `destAddr` where the
     result is stored.
     */
    method GetResult(triggerPos: Word, destAddr: nat) returns (outcome: Outcome)
      requires Valid()
      modifies this`step, this`log, bars`sdramPage
      ensures Valid() && writes == old(writes) && latched == old(latched)
      ensures old(step) != StepDone ==> outcome == WrongStep && step == old(step) && log == old(log) + [Rejected]
      ensures old(step) == StepDone ==>
                && LatchedOk(latched) && outcome != WrongStep && step == StepStop
                && log == old(log) + [if outcome.Data? then Returned(latched) else Lost]
      ensures old(step) == StepDone ==>
                match FetchError(latched, triggerPos, destAddr)
                case Some(e) => outcome == e
                case None => outcome.Data? && Answers(outcome.words, latched, triggerPos)
      ensures outcome == Oversized ==> NearWrap(latched)
    {
      if step != StepDone {
        InvAfterEvent(m, regs[CTL], regs[CTL], step, latched, latched, log, writes, Rejected);
        log := log + [Rejected];
        return WrongStep;
      }
      outcome := FetchResult(triggerPos, destAddr);
      ghost var e := if outcome.Data? then Returned(latched) else Lost;
      InvAfterEvent(m, regs[CTL], regs[CTL], step, latched, latched, log, writes, e);
      step := StepStop;
      log := log + [e];
    }

    /** The checks of `get_result` and its reads. */
    method FetchResult(triggerPos: Word, destAddr: nat) returns (outcome: Outcome)
      requires LatchedOk(latched) && Region(ramStart)
      modifies bars`sdramPage
      ensures outcome != WrongStep
      ensures match FetchError(latched, triggerPos, destAddr)
              case Some(e) => outcome == e && !outcome.Data?
              case None => outcome.Data? && Answers(outcome.words, latched, triggerPos)
      ensures outcome == Oversized ==> NearWrap(latched)
    {
      LatchedSlots(latched);
      var totalSamples := (latched.pre + latched.post) % 0x1_0000_0000;
      var elements := totalSamples * latched.numAtoms;
      var totalBytes := elements * (latched.atomWidth / 8);
      AtomsFillSamples(totalSamples, latched.numAtoms, latched.atomWidth / 8, latched.sampleSize);
      if totalBytes != totalSamples * latched.sampleSize {
        return SizeMismatch;
      }
      if triggerPos < ramStart || triggerPos >= ramStart + P.REGION {
        return TriggerOutside;
      }
      var q := RequestAt(latched, triggerPos);
      if latched.pre + latched.post >= q.slots {
        return Oversized;
      }
      RequestFills(latched, triggerPos);
      PlanErrorNotOurs(bars.useSse41, ramStart, destAddr, q);
      outcome := ReadWindow(bars, ramStart, q, destAddr);
      if outcome.Data? {
        ResultDelivers(bars.sdram, outcome.words, ramStart, q);
      }
    }

    /**
     `result`: start, poll until the acquisition ends or the polls `sta` are over, fetch.  None stands
     for its exceptions.
     */
    method Result(desc: Word, atomDesc: Word, sta: seq<Word>, attempts: nat, triggerPos: Word, destAddr: nat)
      returns (outcome: Option<Outcome>)
      requires Valid() && |sta| == attempts && 0 < attempts
      modifies this`step, this`latched, this`writes, this`log, regs, bars`sdramPage
      ensures Valid()
      ensures outcome.Some? <==>
                old(step) == StepStop && StartError(config, desc, atomDesc).None? && Completes(sta, attempts)
      ensures outcome.Some? ==> step == StepStop && 0 < P.SampleSize(desc) && latched == LatchOf(config, desc, atomDesc)
      ensures outcome.Some? ==>
                && LatchedOk(latched)
                && match FetchError(latched, triggerPos, destAddr)
                   case Some(e) => outcome.value == e
                   case None => outcome.value.Data? && Answers(outcome.value.words, latched, triggerPos)
    {
      var finished := StartAndPoll(desc, atomDesc, sta, attempts);
      if !finished {
        return None;
      }
      var data := GetResult(triggerPos, destAddr);
      return Some(data);
    }

    /** `result` up to the fetch */
    method StartAndPoll(desc: Word, atomDesc: Word, sta: seq<Word>, attempts: nat) returns (finished: bool)
      requires Valid() && |sta| == attempts && 0 < attempts
      modifies this`step, this`latched, this`writes, this`log, regs
      ensures Valid()
      ensures finished <==>
                old(step) == StepStop && StartError(config, desc, atomDesc).None? && Completes(sta, attempts)
      ensures finished ==> step == StepDone && 0 < P.SampleSize(desc) && latched == LatchOf(config, desc, atomDesc)
    {
      var started := StartAcquisition(desc, atomDesc);
      if started == Thrown {
        return false;
      }
      var status := Poll(sta, attempts);
      return status == Finished;
    }

    /** The polling loop of `result` */
    method Poll(sta: seq<Word>, attempts: nat) returns (status: Status)
      requires Valid() && step != StepDone && |sta| == attempts && 0 < attempts
      modifies this`step, this`log, regs
      ensures Valid() && writes == old(writes) && latched == old(latched)
      ensures old(step) == StepStop ==> step == StepStop && status == Idle
      ensures old(step) == StepStarted ==> step == if Completes(sta, attempts) then StepDone else StepStarted
      ensures status == match step case StepStop => Idle case StepStarted => InProgress case StepDone => Finished
    {
      status := GetAcqStatus(sta[0]);
      var polls := 1;
      CompletesStep(sta, 0);
      while status == InProgress && polls < attempts
        invariant Valid() && writes == old(writes) && latched == old(latched) && 0 < polls <= attempts
        invariant old(step) == StepStop ==> step == StepStop
        invariant old(step) == StepStarted ==> step == if Completes(sta, polls) then StepDone else StepStarted
        invariant status == match step case StepStop => Idle case StepStarted => InProgress case StepDone => Finished
      {
        CompletesStep(sta, polls);
        status := GetAcqStatus(sta[polls]);
        polls := polls + 1;
      }
      if Completes(sta, polls) {
        CompletesStays(sta, polls, attempts);
      }
    }
  }

  lemma CompletesStep(sta: seq<Word>, n: nat)
    requires n < |sta|
    ensures Completes(sta, n + 1) <==> Completes(sta, n) || IsComplete(sta[n])
    ensures n == 0 ==> !Completes(sta, n)
  {
  }

  lemma CompletesStays(sta: seq<Word>, n: nat, more: nat)
    requires n <= more <= |sta| && Completes(sta, n)
    ensures Completes(sta, more)
  {
  }

  /** One of the first `n` status words reports a completed acquisition. */
  ghost predicate Completes(sta: seq<Word>, n: nat)
    requires n <= |sta|
  {
    exists k :: 0 <= k < n && IsComplete(sta[k])
  }
}
