/**
 The coefficient table of the FOFB shaper filter (`modules/fofb_shaper_filt.cc`): five coefficients a
 biquad in the user's vectors, eight words a biquad and 128 words a channel in the registers.
 */
module ShaperFilter {
  import opened Words
  import B = Bits
  import C = Bar4Concurrency
  import F = FixedPoint
  import S = SerialProtocol
  import W = Wishbone

  const CHANNELS: nat := 12
  const MAX_BIQUADS: nat := 10

  /** The words of the register map; the last two hold the number of biquads and the fixed-point format. */
  const REGS: nat := 2050
  /** The words of all channels */
  const TABLE_END: nat := 1536
  const NUM_BIQUADS_REG: nat := 2048
  const FP_REPR_REG: nat := 2049

  /** The register of coefficient `k` of biquad `j` of channel `i` */
  function RegIndex(i: nat, j: nat, k: nat): nat { 128 * i + 8 * j + k }

  /** Word `x` of the register map holds a coefficient that the filters use. */
  predicate InTable(x: nat, biquads: nat) { x < TABLE_END && x % 128 / 8 < biquads && x % 8 < 5 }

  /** The place of word `x` in the vector of its channel */
  function VectorIndex(x: nat): nat { 5 * (x % 128 / 8) + x % 8 }

  lemma SplitIndex(i: nat, j: nat, k: nat)
    requires j < 16 && k < 8
    ensures var x := RegIndex(i, j, k); x / 128 == i && x % 128 / 8 == j && x % 8 == k
  {
  }

  /** The table is exactly the words of the triples in range, and no two triples share one. */
  lemma TableIsTriples(biquads: nat, x: nat)
    requires biquads <= MAX_BIQUADS
    ensures InTable(x, biquads) <==>
              exists i, j, k :: 0 <= i < CHANNELS && 0 <= j < biquads && 0 <= k < 5 && x == RegIndex(i, j, k)
    ensures forall i, j, k, i', j', k' ::
              0 <= i < CHANNELS && 0 <= j < biquads && 0 <= k < 5
              && 0 <= i' < CHANNELS && 0 <= j' < biquads && 0 <= k' < 5
              && RegIndex(i, j, k) == RegIndex(i', j', k')
              ==> i == i' && j == j' && k == k'
  {
    if InTable(x, biquads) {
      assert x == RegIndex(x / 128, x % 128 / 8, x % 8);
    }
    forall i: nat, j: nat, k: nat | j < 16 && k < 8
      ensures var x := RegIndex(i, j, k); x / 128 == i && x % 128 / 8 == j && x % 8 == k
    {
      SplitIndex(i, j, k);
    }
  }

  /** One vector of coefficients a channel, each long enough for its biquads */
  ghost predicate Covers(values: seq<seq<real>>, biquads: nat) {
    |values| == CHANNELS && forall i :: 0 <= i < CHANNELS ==> 5 * biquads <= |values[i]|
  }

  /** The registers hold the fixed-point image of every coefficient. */
  ghost predicate Encoded(regs: seq<Word>, values: seq<seq<real>>, biquads: nat, point: nat) {
    && |regs| == REGS && biquads <= MAX_BIQUADS && Covers(values, biquads)
    && forall x :: 0 <= x < TABLE_END && InTable(x, biquads) ==>
         regs[x] == F.Saturating(values[x / 128][VectorIndex(x)], point)
  }

  /** The vectors hold the value of every coefficient register. */
  ghost predicate Decoded(values: seq<seq<real>>, regs: seq<Word>, biquads: nat, point: nat) {
    && |regs| == REGS && biquads <= MAX_BIQUADS && Covers(values, biquads)
    && forall x :: 0 <= x < TABLE_END && InTable(x, biquads) ==>
         values[x / 128][VectorIndex(x)] == F.FixedToFloat(regs[x], point)
  }

  /** Both relations, coefficient by coefficient. */
  lemma ByTriple(regs: seq<Word>, values: seq<seq<real>>, biquads: nat, point: nat, i: nat, j: nat, k: nat)
    requires i < CHANNELS && j < biquads <= MAX_BIQUADS && k < 5
    ensures Encoded(regs, values, biquads, point) ==>
              regs[RegIndex(i, j, k)] == F.Saturating(values[i][5 * j + k], point)
    ensures Decoded(values, regs, biquads, point) ==>
              values[i][5 * j + k] == F.FixedToFloat(regs[RegIndex(i, j, k)], point)
  {
    SplitIndex(i, j, k);
    assert InTable(RegIndex(i, j, k), biquads) && VectorIndex(RegIndex(i, j, k)) == 5 * j + k;
  }

  /** The position of the point: 32 minus the low five bits of the format register */
  function PointOf(repr: Word): (point: nat)
    ensures 0 < point <= 32
  {
    32 - repr % 32
  }

  /** They are the ones under the mask of the register map. */
  lemma PointField(repr: Word, mask: Word)
    requires mask == 0x1F
    ensures B.Contiguous(mask) && PointOf(repr) == 32 - B.Selected(repr, mask)
  {
    Pow2Constants();
    B.RunIs(mask, 0, 5);
    B.GetClosedForm(repr, 0, 5);
  }

  // ----- encoding

  /** What encoding leaves in word `x`. */
  ghost function NewWord(was: seq<Word>, values: seq<seq<real>>, biquads: nat, point: nat, x: nat): Word
    requires |was| == REGS && x < REGS && Covers(values, biquads)
  {
    if InTable(x, biquads) then F.Saturating(values[x / 128][VectorIndex(x)], point) else was[x]
  }

  /** The words before `bound` are encoded, and the others are as they were. */
  ghost predicate EncodedUpTo(was: seq<Word>, regs: seq<Word>, values: seq<seq<real>>, biquads: nat,
      point: nat, bound: nat) {
    && |was| == |regs| == REGS && Covers(values, biquads)
    && forall x :: 0 <= x < REGS ==> regs[x] == if x < bound then NewWord(was, values, biquads, point, x) else was[x]
  }

  lemma EncodedNothing(was: seq<Word>, values: seq<seq<real>>, biquads: nat, point: nat)
    requires |was| == REGS && Covers(values, biquads)
    ensures EncodedUpTo(was, was, values, biquads, point, 0)
  {
  }

  lemma EncodeOne(was: seq<Word>, regs: seq<Word>, values: seq<seq<real>>, biquads: nat, point: nat, i: nat,
      j: nat, k: nat)
    requires i < CHANNELS && j < biquads <= MAX_BIQUADS && k < 5
    requires EncodedUpTo(was, regs, values, biquads, point, RegIndex(i, j, k))
    ensures var regs' := regs[RegIndex(i, j, k) := F.Saturating(values[i][5 * j + k], point)];
            EncodedUpTo(was, regs', values, biquads, point, RegIndex(i, j, k) + 1)
  {
    SplitIndex(i, j, k);
  }

  /** Words outside the table need no encoding. */
  lemma SkipPadding(was: seq<Word>, regs: seq<Word>, values: seq<seq<real>>, biquads: nat, point: nat,
      bound: nat, next: nat)
    requires EncodedUpTo(was, regs, values, biquads, point, bound) && bound <= next
    requires forall x :: bound <= x < next ==> !InTable(x, biquads)
    ensures EncodedUpTo(was, regs, values, biquads, point, next)
  {
  }

  lemma AfterBiquad(i: nat, j: nat, biquads: nat)
    requires j < 16
    ensures forall x :: 128 * i + 8 * j + 5 <= x < 128 * i + 8 * (j + 1) ==> !InTable(x, biquads)
  {
    forall x | 128 * i + 8 * j + 5 <= x < 128 * i + 8 * (j + 1) ensures !InTable(x, biquads) {
      SplitIndex(i, j, x - (128 * i + 8 * j));
    }
  }

  lemma AfterChannel(i: nat, biquads: nat)
    requires biquads <= 16
    ensures forall x :: 128 * i + 8 * biquads <= x < 128 * (i + 1) ==> !InTable(x, biquads)
  {
    forall x | 128 * i + 8 * biquads <= x < 128 * (i + 1) ensures !InTable(x, biquads) {
      var r: nat := x - 128 * i;
      SplitIndex(i, r / 8, r % 8);
    }
  }

  lemma EncodedChannel(was: seq<Word>, regs: seq<Word>, values: seq<seq<real>>, biquads: nat, point: nat, i: nat)
    requires biquads <= MAX_BIQUADS && EncodedUpTo(was, regs, values, biquads, point, 128 * i + 8 * biquads)
    ensures EncodedUpTo(was, regs, values, biquads, point, 128 * (i + 1))
  {
    AfterChannel(i, biquads);
    SkipPadding(was, regs, values, biquads, point, 128 * i + 8 * biquads, 128 * (i + 1));
  }

  lemma EncodedWhole(was: seq<Word>, regs: seq<Word>, values: seq<seq<real>>, biquads: nat, point: nat)
    requires biquads <= MAX_BIQUADS && EncodedUpTo(was, regs, values, biquads, point, TABLE_END)
    ensures Encoded(regs, values, biquads, point)
    ensures forall x :: 0 <= x < REGS && !InTable(x, biquads) ==> regs[x] == was[x]
  {
  }

  // ----- writing

  /** The bus address `a` is that of a table word of the core at `base`. */
  predicate OnTable(a: nat, base: nat, biquads: nat) {
    base <= a && (a - base) % 4 == 0 && InTable((a - base) / 4, biquads)
  }

  /** The table words before `bound` are on the bus, and nothing else changed. */
  ghost predicate WrittenUpTo(before: C.Memory, after: C.Memory, base: nat, regs: seq<Word>, biquads: nat, bound: nat)
    requires |regs| == REGS
  {
    forall a: nat :: C.At(after, a) ==
      if OnTable(a, base, biquads) && (a - base) / 4 < bound then regs[(a - base) / 4] else C.At(before, a)
  }

  lemma NothingWritten(before: C.Memory, base: nat, regs: seq<Word>, biquads: nat)
    requires |regs| == REGS
    ensures WrittenUpTo(before, before, base, regs, biquads, 0)
  {
  }

  lemma BiquadWritten(before: C.Memory, m: C.Memory, base: nat, regs: seq<Word>, biquads: nat, i: nat, j: nat)
    requires |regs| == REGS && i < CHANNELS && j < biquads <= MAX_BIQUADS
    requires WrittenUpTo(before, m, base, regs, biquads, 128 * i + 8 * j)
    ensures var x := 128 * i + 8 * j;
            WrittenUpTo(before, C.Written(m, C.WriteV(base + 4 * x, regs[x..x + 5]), 5), base, regs, biquads,
                128 * i + 8 * (j + 1))
  {
    var x := 128 * i + 8 * j;
    forall a: nat
      ensures C.At(C.Written(m, C.WriteV(base + 4 * x, regs[x..x + 5]), 5), a) ==
              if OnTable(a, base, biquads) && (a - base) / 4 < x + 8 then regs[(a - base) / 4] else C.At(before, a)
    {
      C.WrittenAt(m, base + 4 * x, regs[x..x + 5], 5, a);
      if base + 4 * x <= a < base + 4 * (x + 8) {
        SplitIndex(i, j, (a - base) / 4 - x);
      }
    }
  }

  lemma ChannelWritten(before: C.Memory, m: C.Memory, base: nat, regs: seq<Word>, biquads: nat, i: nat)
    requires |regs| == REGS && biquads <= MAX_BIQUADS &&
              WrittenUpTo(before, m, base, regs, biquads, 128 * i + 8 * biquads)
    ensures WrittenUpTo(before, m, base, regs, biquads, 128 * (i + 1))
  {
    AfterChannel(i, biquads);
  }

  /** The serial commands for one biquad */
  function BiquadCommands(base: nat, regs: seq<Word>, i: nat, j: nat): (cmds: seq<string>)
    requires |regs| == REGS && i < CHANNELS && j < MAX_BIQUADS
    ensures |cmds| == 5
  {
    S.WriteCommands(base + 4 * (128 * i + 8 * j), regs[128 * i + 8 * j..128 * i + 8 * j + 5], 5)
  }

  /** The serial commands for all biquads of the first `i` channels and the first `j` of the next one */
  function TableCommands(base: nat, regs: seq<Word>, biquads: nat, i: nat, j: nat): seq<string>
    requires |regs| == REGS && i <= CHANNELS && j <= biquads <= MAX_BIQUADS && (i == CHANNELS ==> j == 0)
    decreases i, j
  {
    if 0 < j then TableCommands(base, regs, biquads, i, j - 1) + BiquadCommands(base, regs, i, j - 1)
    else if 0 < i then TableCommands(base, regs, biquads, i - 1, biquads)
    else []
  }

  lemma NextBiquadCommands(sent: seq<string>, base: nat, regs: seq<Word>, biquads: nat, i: nat, j: nat)
    requires |regs| == REGS && i < CHANNELS && j < biquads <= MAX_BIQUADS
    ensures sent + TableCommands(base, regs, biquads, i, j) + BiquadCommands(base, regs, i, j)
         == sent + TableCommands(base, regs, biquads, i, j + 1)
  {
  }

  lemma ChannelCommands(base: nat, regs: seq<Word>, biquads: nat, i: nat)
    requires |regs| == REGS && i < CHANNELS && biquads <= MAX_BIQUADS
    ensures TableCommands(base, regs, biquads, i, biquads) == TableCommands(base, regs, biquads, i + 1, 0)
  {
  }

  /** The place of a coefficient in the order of writing */
  function Turn(i: nat, j: nat, k: nat, biquads: nat): nat { 5 * (i * biquads + j) + k }

  lemma CommandOfBiquad(base: nat, regs: seq<Word>, i: nat, j: nat, k: nat)
    requires |regs| == REGS && i < CHANNELS && j < MAX_BIQUADS && k < 5
    ensures BiquadCommands(base, regs, i, j)[k] == S.WriteCommand(base + 4 * RegIndex(i, j, k), regs[RegIndex(i, j, k)])
  {
  }

  /** Five commands for each biquad, and no others. */
  lemma {:induction false} CommandCount(base: nat, regs: seq<Word>, biquads: nat, i: nat, j: nat)
    requires |regs| == REGS && i <= CHANNELS && j <= biquads <= MAX_BIQUADS && (i == CHANNELS ==> j == 0)
    ensures |TableCommands(base, regs, biquads, i, j)| == Turn(i, j, 0, biquads)
    decreases i, j
  {
    if 0 < j {
      CommandCount(base, regs, biquads, i, j - 1);
    } else if 0 < i {
      CommandCount(base, regs, biquads, i - 1, biquads);
      assert (i - 1) * biquads + biquads == i * biquads;
    }
  }

  lemma EarlierCommand(base: nat, regs: seq<Word>, biquads: nat, i: nat, j: nat, n: nat)
    requires |regs| == REGS && i < CHANNELS && j < biquads <= MAX_BIQUADS &&
              n < |TableCommands(base, regs, biquads, i, j)|
    ensures n < |TableCommands(base, regs, biquads, i, j + 1)|
    ensures TableCommands(base, regs, biquads, i, j + 1)[n] == TableCommands(base, regs, biquads, i, j)[n]
  {
  }

  lemma LastCommands(base: nat, regs: seq<Word>, biquads: nat, i: nat, j: nat, k: nat)
    requires |regs| == REGS && i < CHANNELS && j < biquads <= MAX_BIQUADS && k < 5
    ensures var n := |TableCommands(base, regs, biquads, i, j)| + k;
            n < |TableCommands(base, regs, biquads, i, j + 1)|
            && TableCommands(base, regs, biquads, i, j + 1)[n] == BiquadCommands(base, regs, i, j)[k]
  {
  }

  /** The commands for one biquad follow those for the biquads before it, whatever comes later. */
  lemma {:induction false} CommandAfter(
      base: nat, regs: seq<Word>, biquads: nat, i': nat, j': nat, i: nat, j: nat, k: nat, n: nat)
    requires |regs| == REGS && i' <= CHANNELS && j' <= biquads <= MAX_BIQUADS && (i' == CHANNELS ==> j' == 0)
    requires i < CHANNELS && j < biquads && k < 5 && (i < i' || (i == i' && j < j'))
    requires n == |TableCommands(base, regs, biquads, i, j)| + k
    ensures n < |TableCommands(base, regs, biquads, i', j')|
    ensures TableCommands(base, regs, biquads, i', j')[n] == BiquadCommands(base, regs, i, j)[k]
    decreases i', j'
  {
    if j' == 0 {
      ChannelCommands(base, regs, biquads, i' - 1);
      assert TableCommands(base, regs, biquads, i', j') == TableCommands(base, regs, biquads, i' - 1, biquads);
      CommandAfter(base, regs, biquads, i' - 1, biquads, i, j, k, n);
    } else if i == i' && j == j' - 1 {
      LastCommands(base, regs, biquads, i, j, k);
    } else {
      CommandAfter(base, regs, biquads, i', j' - 1, i, j, k, n);
      EarlierCommand(base, regs, biquads, i', j' - 1, n);
    }
  }

  /** Each coefficient of the biquads passed is written at its own turn, to its own register. */
  lemma CommandAtTurn(
      base: nat, regs: seq<Word>, biquads: nat, i': nat, j': nat, i: nat, j: nat, k: nat)
    requires |regs| == REGS && i' <= CHANNELS && j' <= biquads <= MAX_BIQUADS && (i' == CHANNELS ==> j' == 0)
    requires i < CHANNELS && j < biquads && k < 5 && (i < i' || (i == i' && j < j'))
    ensures Turn(i, j, k, biquads) < Turn(i', j', 0, biquads) == |TableCommands(base, regs, biquads, i', j')|
    ensures TableCommands(base, regs, biquads, i', j')[Turn(i, j, k, biquads)]
            == S.WriteCommand(base + 4 * RegIndex(i, j, k), regs[RegIndex(i, j, k)])
  {
    CommandCount(base, regs, biquads, i, j);
    CommandCount(base, regs, biquads, i', j');
    CommandAfter(base, regs, biquads, i', j', i, j, k, |TableCommands(base, regs, biquads, i, j)| + k);
    CommandOfBiquad(base, regs, i, j, k);
  }

  class Controller {
    /** The register structure, which encoding updates */
    var regs: seq<Word>
    var point: nat
    var biquads: nat
    var coefficients: seq<seq<real>>

    ghost predicate Valid()
      reads this
    {
      |regs| == REGS && biquads <= MAX_BIQUADS && Covers(coefficients, biquads)
    }

    constructor ()
      ensures |regs| == REGS && Covers(coefficients, MAX_BIQUADS)
    {
      regs := seq(REGS, _ => 0);
      coefficients := seq(CHANNELS, _ => seq(5 * MAX_BIQUADS, _ => 0.0));
    }

    /** `set_devinfo_callback` on a board with BAR4: the filter's dimensions as the device reports them. */
    method SetDevinfo(bars: W.PcieBars, base: nat)
      requires |regs| == REGS && bars.Valid() && !bars.serial && base + 4 * REGS <= 0x1_0000_0000
      modifies this, bars
      ensures |regs| == REGS && bars.Valid() && bars.wb == old(bars.wb) && coefficients == old(coefficients)
      ensures biquads == C.At(bars.wb, base + 4 * 2048) &&
                point == PointOf(C.At(bars.wb, base + 4 * 2049))
    {
      var repr, _ := bars.Bar4Read(base + 4 * FP_REPR_REG);
      regs := regs[FP_REPR_REG := repr];
      point := PointOf(repr);
      var count, _ := bars.Bar4Read(base + 4 * NUM_BIQUADS_REG);
      regs := regs[NUM_BIQUADS_REG := count];
      biquads := count;
    }

    method EncodeParams()
      requires Valid()
      modifies this`regs
      ensures Valid() && Encoded(regs, coefficients, biquads, point)
      ensures forall x :: 0 <= x < REGS && !InTable(x, biquads) ==> regs[x] == old(regs[x])
    {
      ghost var was := regs;
      EncodedNothing(was, coefficients, biquads, point);
      for i := 0 to CHANNELS
        invariant Valid() && EncodedUpTo(was, regs, coefficients, biquads, point, 128 * i)
      {
        EncodeChannel(i, was);
      }
      EncodedWhole(was, regs, coefficients, biquads, point);
    }

    /** The two inner loops of `encode_params` */
    method EncodeChannel(i: nat, ghost was: seq<Word>)
      requires Valid() && i < CHANNELS
      requires EncodedUpTo(was, regs, coefficients, biquads, point, 128 * i)
      modifies this`regs
      ensures Valid() && EncodedUpTo(was, regs, coefficients, biquads, point, 128 * (i + 1))
    {
      for j := 0 to biquads
        invariant Valid() && EncodedUpTo(was, regs, coefficients, biquads, point, 128 * i + 8 * j)
      {
        EncodeBiquad(i, j, was);
      }
      EncodedChannel(was, regs, coefficients, biquads, point, i);
    }

    /** The innermost loop of `encode_params` */
    method EncodeBiquad(i: nat, j: nat, ghost was: seq<Word>)
      requires Valid() && i < CHANNELS && j < biquads
      requires EncodedUpTo(was, regs, coefficients, biquads, point, 128 * i + 8 * j)
      modifies this`regs
      ensures Valid() && EncodedUpTo(was, regs, coefficients, biquads, point, 128 * i + 8 * (j + 1))
    {
      for k := 0 to 5
        invariant Valid() && EncodedUpTo(was, regs, coefficients, biquads, point, RegIndex(i, j, k))
      {
        EncodeOne(was, regs, coefficients, biquads, point, i, j, k);
        var value := F.Saturating(coefficients[i][5 * j + k], point);
        regs := regs[RegIndex(i, j, k) := value];
      }
      AfterBiquad(i, j, biquads);
      SkipPadding(was, regs, coefficients, biquads, point, 128 * i + 8 * j + 5, 128 * i + 8 * (j + 1));
    }

    /** The biquads before (`i`, `j`) are on their way: on the bus, or as serial commands. */
    ghost predicate Passed(bars: W.PcieBars, base: nat, i: nat, j: nat, before: C.Memory, sent: seq<string>)
      requires |regs| == REGS && i <= CHANNELS && j <= biquads <= MAX_BIQUADS && (i == CHANNELS ==> j == 0)
      reads this, bars
    {
      if bars.serial then bars.sent == sent + TableCommands(base, regs, biquads, i, j)
      else WrittenUpTo(before, bars.wb, base, regs, biquads, 128 * i + 8 * j)
    }

    /**
     `write_params`: BAR4 receives the encoded table and nothing else; over the serial port, one command
     for each coefficient.
     */
    method WriteParams(bars: W.PcieBars, base: nat) returns (aborted: bool)
      requires Valid() && bars.Valid() && base + 4 * REGS <= 0x1_0000_0000
      modifies this`regs, bars
      ensures bars.Valid() && Valid() && Encoded(regs, coefficients, biquads, point)
      ensures !bars.serial ==> !aborted && WrittenUpTo(old(bars.wb), bars.wb, base, regs, biquads, TABLE_END)
      ensures bars.serial && !aborted ==> bars.sent == old(bars.sent) + TableCommands(base, regs, biquads, CHANNELS, 0)
    {
      EncodeParams();
      NothingWritten(bars.wb, base, regs, biquads);
      ghost var image, none := regs, 0;
      for i := 0 to CHANNELS
        invariant bars.Valid() && Valid() && regs == image
        invariant Passed(bars, base, i, none, old(bars.wb), old(bars.sent))
      {
        aborted := WriteChannel(bars, base, i, none, old(bars.wb), old(bars.sent));
        if aborted {
          return;
        }
      }
      assert 128 * CHANNELS == TABLE_END;
      return false;
    }

    /** The inner loop of `write_params` */
    method WriteChannel(bars: W.PcieBars, base: nat, i: nat, ghost none: nat, ghost before: C.Memory,
        ghost sent: seq<string>)
      returns (aborted: bool)
      requires Valid() && bars.Valid() && base + 4 * REGS <= 0x1_0000_0000 && i < CHANNELS && none == 0
      requires Passed(bars, base, i, none, before, sent)
      modifies bars
      ensures bars.Valid() && (!bars.serial ==> !aborted)
      ensures !aborted ==> Passed(bars, base, i + 1, none, before, sent)
    {
      for j := 0 to biquads
        invariant bars.Valid() && Valid()
        invariant Passed(bars, base, i, j, before, sent)
      {
        aborted := WriteBiquad(bars, base, i, j, before, sent);
        if aborted {
          return;
        }
      }
      if bars.serial {
        ChannelCommands(base, regs, biquads, i);
      } else {
        ChannelWritten(before, bars.wb, base, regs, biquads, i);
      }
      return false;
    }

    /** The block write of one biquad */
    method WriteBiquad(bars: W.PcieBars, base: nat, i: nat, j: nat, ghost before: C.Memory, ghost sent: seq<string>)
      returns (aborted: bool)
      requires Valid() && bars.Valid() && base + 4 * REGS <= 0x1_0000_0000 && i < CHANNELS && j < biquads
      requires Passed(bars, base, i, j, before, sent)
      modifies bars
      ensures bars.Valid() && (!bars.serial ==> !aborted)
      ensures !aborted ==> Passed(bars, base, i, j + 1, before, sent)
    {
      var x := 128 * i + 8 * j;
      var words := regs[x..x + 5];
      if bars.serial {
        NextBiquadCommands(sent, base, regs, biquads, i, j);
      } else {
        BiquadWritten(before, bars.wb, base, regs, biquads, i, j);
      }
      aborted := bars.Bar4WriteV(base + i * 512 + 8 * j * 4, words);
    }
  }

  class Core {
    const regs: array<Word>
    var values: seq<seq<real>>

    constructor ()
      ensures regs.Length == REGS && |values| == CHANNELS && fresh(regs)
    {
      regs := new Word[REGS](_ => 0);
      values := seq(CHANNELS, _ => []);
    }

    /** `decode`; the filter's dimensions come from the registers. */
    method Decode()
      requires regs.Length == REGS && |values| == CHANNELS && regs[NUM_BIQUADS_REG] <= MAX_BIQUADS
      modifies this
      ensures Decoded(values, regs[..], regs[2048], PointOf(regs[2049]))
      ensures forall i :: 0 <= i < CHANNELS ==> |values[i]| == 5 * regs[2048]
    {
      var biquads := regs[NUM_BIQUADS_REG];
      var point := PointOf(regs[FP_REPR_REG]);
      var size := 5 * biquads;
      var unsized := values;
      values := seq(CHANNELS, i requires 0 <= i < CHANNELS => Resized(unsized[i], size));
      ghost var words := regs[..];
      for i := 0 to CHANNELS
        invariant Sized(values, size)
        invariant forall i' :: 0 <= i' < i ==> ChannelDecoded(values[i'], words, i', point, size)
      {
        var v := values[i];
        ghost var others := values;
        for j := 0 to biquads
          invariant values == others && |v| == size && ChannelDecoded(v, words, i, point, 5 * j)
        {
          v := DecodeBiquad(v, i, j, point);
        }
        values := values[i := v];
      }
      DecodedWhole(values, words, biquads, point);
    }

    /** The innermost loop of `decode`, on the vector of one channel */
    method DecodeBiquad(v: seq<real>, i: nat, j: nat, point: nat) returns (v': seq<real>)
      requires regs.Length == REGS && i < CHANNELS && j < MAX_BIQUADS && 5 * j + 5 <= |v|
      requires ChannelDecoded(v, regs[..], i, point, 5 * j)
      ensures |v'| == |v| && ChannelDecoded(v', regs[..], i, point, 5 * j + 5)
    {
      v' := v;
      for k := 0 to 5
        invariant |v'| == |v| && ChannelDecoded(v', regs[..], i, point, 5 * j + k)
      {
        DecodeOne(v', regs[..], i, j, k, point);
        var value := F.FixedToFloat(regs[128 * i + 8 * j + k], point);
        v' := v'[k + 5 * j := value];
      }
    }
  }

  lemma DecodeOne(v: seq<real>, regs: seq<Word>, i: nat, j: nat, k: nat, point: nat)
    requires |regs| == REGS && i < CHANNELS && j < MAX_BIQUADS && k < 5 && 5 * j + k < |v|
    requires ChannelDecoded(v, regs, i, point, 5 * j + k)
    ensures var x := 128 * i + 8 * j + k;
            ChannelDecoded(v[5 * j + k := F.FixedToFloat(regs[x], point)], regs, i, point, 5 * j + k + 1)
  {
    assert (5 * j + k) / 5 == j && (5 * j + k) % 5 == k;
  }

  lemma DecodedWhole(values: seq<seq<real>>, regs: seq<Word>, biquads: nat, point: nat)
    requires |regs| == REGS && biquads <= MAX_BIQUADS && Sized(values, 5 * biquads)
    requires forall i :: 0 <= i < CHANNELS ==> ChannelDecoded(values[i], regs, i, point, 5 * biquads)
    ensures Decoded(values, regs, biquads, point)
  {
    forall x | 0 <= x < TABLE_END && InTable(x, biquads)
      ensures values[x / 128][VectorIndex(x)] == F.FixedToFloat(regs[x], point)
    {
      assert ChannelDecoded(values[x / 128], regs, x / 128, point, 5 * biquads);
      VectorPlace(x);
    }
  }

  /** The place in a vector gives the register back. */
  lemma VectorPlace(x: nat)
    requires x % 8 < 5
    ensures var c := VectorIndex(x); x == 128 * (x / 128) + 8 * (c / 5) + c % 5
  {
    var j, k := x % 128 / 8, x % 8;
    DivModUnique(5 * j + k, 5, j, k);
  }

  ghost predicate Sized(values: seq<seq<real>>, size: nat) {
    |values| == CHANNELS && forall i :: 0 <= i < CHANNELS ==> |values[i]| == size
  }

  /** `vector::resize` */
  function Resized(v: seq<real>, size: nat): (r: seq<real>)
    ensures |r| == size
  {
    if size <= |v| then v[..size] else v + seq(size - |v|, _ => 0.0)
  }

  /** The first `done` values of channel `i` are decoded. */
  ghost predicate ChannelDecoded(v: seq<real>, regs: seq<Word>, i: nat, point: nat, done: nat)
    requires |regs| == REGS && i < CHANNELS
  {
    done <= |v| && done <= 5 * MAX_BIQUADS
    && forall c :: 0 <= c < done ==> v[c] == F.FixedToFloat(regs[128 * i + 8 * (c / 5) + c % 5], point)
  }

  // ----- the round trip

  /**
   Decoding an encoded table gives the fixed-point image of every coefficient: clamped, and within one
   step of it inside the range.
   */
  lemma DecodeOfEncode(values: seq<seq<real>>, regs: seq<Word>, values': seq<seq<real>>, biquads: nat,
      point: nat, i: nat, c: nat)
    requires Encoded(regs, values, biquads, point) && Decoded(values', regs, biquads, point)
    requires i < CHANNELS && c < 5 * biquads
    ensures values'[i][c] == F.FixedToFloat(F.Saturating(values[i][c], point), point)
    ensures F.MinValue(point) <= values[i][c] <= F.MaxValue(point) ==>
              F.Scaled(Abs(values[i][c] - values'[i][c]), point) < 1.0 && Abs(values'[i][c]) <= Abs(values[i][c])
    ensures F.MaxValue(point) <= values[i][c] ==> values'[i][c] == F.MaxValue(point)
    ensures values[i][c] <= F.MinValue(point) ==> values'[i][c] == F.MinValue(point)
  {
    var j, k := c / 5, c % 5;
    assert c == 5 * j + k;
    ByTriple(regs, values, biquads, point, i, j, k);
    ByTriple(regs, values', biquads, point, i, j, k);
    F.SaturatingMeaning(values[i][c], point);
  }

  /** Decoded values are fixed points: encoding them again gives the same registers. */
  lemma EncodeOfDecode(
      regs: seq<Word>, values: seq<seq<real>>, regs': seq<Word>, biquads: nat, point: nat, i: nat, j: nat, k: nat)
    requires Decoded(values, regs, biquads, point) && Encoded(regs', values, biquads, point)
    requires i < CHANNELS && j < biquads && k < 5
    ensures regs'[RegIndex(i, j, k)] == regs[RegIndex(i, j, k)]
  {
    ByTriple(regs, values, biquads, point, i, j, k);
    ByTriple(regs', values, biquads, point, i, j, k);
    SaturatingRoundTrip(regs[RegIndex(i, j, k)], point);
  }

  lemma SaturatingRoundTrip(w: Word, point: nat)
    ensures F.Saturating(F.FixedToFloat(w, point), point) == w
  {
    F.FixedRoundTrip(w, point, true);
  }

  lemma WordOnBus(before: C.Memory, after: C.Memory, base: nat, regs: seq<Word>, biquads: nat, x: nat)
    requires |regs| == REGS && WrittenUpTo(before, after, base, regs, biquads, TABLE_END) && x < REGS
    ensures C.At(after, base + 4 * x) == if InTable(x, biquads) then regs[x] else C.At(before, base + 4 * x)
  {
    assert OnTable(base + 4 * x, base, biquads) <==> InTable(x, biquads);
  }

  /** What is written to the device reads back from it. */
  lemma WrittenReadsBack(before: C.Memory, after: C.Memory, base: nat, regs: seq<Word>, read: seq<Word>,
      values: seq<seq<real>>, biquads: nat, point: nat)
    requires Encoded(regs, values, biquads, point) && WrittenUpTo(before, after, base, regs, biquads, TABLE_END)
    requires |read| == REGS && forall x :: 0 <= x < REGS ==> read[x] == C.At(after, base + 4 * x)
    ensures Encoded(read, values, biquads, point)
    ensures forall x :: 0 <= x < REGS && !InTable(x, biquads) ==> read[x] == C.At(before, base + 4 * x)
  {
    forall x | 0 <= x < TABLE_END && InTable(x, biquads) ensures read[x] == regs[x] {
      WordOnBus(before, after, base, regs, biquads, x);
    }
    forall x | 0 <= x < REGS && !InTable(x, biquads) ensures read[x] == C.At(before, base + 4 * x) {
      WordOnBus(before, after, base, regs, biquads, x);
    }
  }

  ghost predicate Images(values: seq<seq<real>>, values': seq<seq<real>>, biquads: nat, point: nat)
    requires Covers(values, biquads) && Covers(values', biquads)
  {
    forall i, c :: 0 <= i < CHANNELS && 0 <= c < 5 * biquads ==>
      values'[i][c] == F.FixedToFloat(F.Saturating(values[i][c], point), point)
  }

  lemma ImagesAll(values: seq<seq<real>>, regs: seq<Word>, values': seq<seq<real>>, biquads: nat, point: nat)
    requires Encoded(regs, values, biquads, point) && Decoded(values', regs, biquads, point)
    ensures Images(values, values', biquads, point)
  {
    forall i, c | 0 <= i < CHANNELS && 0 <= c < 5 * biquads
      ensures values'[i][c] == F.FixedToFloat(F.Saturating(values[i][c], point), point)
    {
      DecodeOfEncode(values, regs, values', biquads, point, i, c);
    }
  }

  /** A controller configures a filter over BAR4 and a decoder reads it: every value is the image of its coefficient. */
  method ConfigureAndRead(bars: W.PcieBars, base: nat, controller: Controller, core: Core)
    requires bars.Valid() && !bars.serial && base % 4 == 0 && base + 4 * REGS <= 0x1_0000_0000
    requires |controller.regs| == core.regs.Length == REGS && |core.values| == CHANNELS
    requires C.At(bars.wb, base + 4 * 2048) <= MAX_BIQUADS && Covers(controller.coefficients, MAX_BIQUADS)
    modifies bars, controller, core, core.regs
    ensures controller.coefficients == old(controller.coefficients)
    ensures controller.biquads == C.At(old(bars.wb), base + 4 * 2048)
    ensures controller.point == PointOf(C.At(old(bars.wb), base + 4 * 2049))
    ensures Sized(core.values, 5 * controller.biquads) && Covers(controller.coefficients, controller.biquads)
    ensures Images(controller.coefficients, core.values, controller.biquads, controller.point)
  {
    Configure(bars, base, controller, core);
    core.Decode();
    ImagesAll(controller.coefficients, core.regs[..], core.values, controller.biquads, controller.point);
  }

  /** The part of the above before the decoding. */
  method Configure(bars: W.PcieBars, base: nat, controller: Controller, core: Core)
    requires bars.Valid() && !bars.serial && base % 4 == 0 && base + 4 * REGS <= 0x1_0000_0000
    requires |controller.regs| == core.regs.Length == REGS
    requires C.At(bars.wb, base + 4 * 2048) <= MAX_BIQUADS && Covers(controller.coefficients, MAX_BIQUADS)
    modifies bars, controller, core.regs
    ensures controller.coefficients == old(controller.coefficients)
    ensures controller.biquads == C.At(old(bars.wb), base + 4 * 2048) == core.regs[2048]
    ensures controller.point == PointOf(C.At(old(bars.wb), base + 4 * 2049)) == PointOf(core.regs[2049])
    ensures Encoded(core.regs[..], controller.coefficients, controller.biquads, controller.point)
  {
    controller.SetDevinfo(bars, base);
    ghost var before := bars.wb;
    var _ := controller.WriteParams(bars, base);
    ghost var image := controller.regs;
    var _ := bars.Bar4ReadV(base, core.regs, 0, 4 * REGS);
    WrittenReadsBack(before, bars.wb, base, image, core.regs[..], controller.coefficients, controller.biquads,
        controller.point);
  }
}
