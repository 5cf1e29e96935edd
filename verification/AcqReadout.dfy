/**
 Reading a result out of the SDRAM (the second half of `get_result` in `modules/acq.cc`): the reads of
 the ring plan, made with `bar2_read_v`.
 */
module AcqReadout {
  import opened Words
  import P = AcqParams
  import R = AcqRing
  import S = Sdram

  /**
   What `get_result` returns or throws.  `Unaligned` and `Oversized` mark reads this model does not
   follow: from an address that is not a multiple of 4, and of more samples than the region holds.
   */
  datatype Outcome = WrongStep | SizeMismatch | TriggerOutside | Unaligned | Oversized | Faulted | AssertionFailed
                   | Data(words: seq<Word>)

  /** A core's region of the SDRAM starts here. */
  predicate Region(ramStart: nat) { ramStart % P.REGION == 0 && ramStart + P.REGION <= 0x8000_0000 }

  /** A request whose ring fills the region */
  predicate Fills(q: R.Request) { q.Valid() && q.slots * q.size == P.REGION }

  /** Reads that are short enough for every address computation */
  predicate Short(plan: seq<R.Segment>) {
    forall i :: 0 <= i < |plan| ==> plan[i].bytes < 0x1_0000_0000
  }

  /** What one read throws, if anything. */
  function SegmentError(sse41: bool, ramStart: nat, destAddr: nat, s: R.Segment): Option<Outcome>
    requires s.bytes < 0x1_0000_0000
  {
    if s.offset % 4 != 0 then Some(Unaligned)
    else if S.Faults(sse41, destAddr, S.Wrap(ramStart + s.offset), s.bytes) then Some(Faulted)
    else if s.bytes % 4 != 0 then Some(AssertionFailed)
    else None
  }

  /** What the reads of a plan throw, one after the other into consecutive memory. */
  function PlanError(sse41: bool, ramStart: nat, destAddr: nat, plan: seq<R.Segment>): Option<Outcome>
    requires Short(plan)
    decreases |plan|
  {
    if plan == [] then None
    else
      var error := SegmentError(sse41, ramStart, destAddr, plan[0]);
      if error.Some? then error else PlanError(sse41, ramStart, destAddr + plan[0].bytes, plan[1..])
  }

  lemma PlanErrorCases(sse41: bool, ramStart: nat, destAddr: nat, s: R.Segment, t: R.Segment)
    requires s.bytes < 0x1_0000_0000 && t.bytes < 0x1_0000_0000
    ensures PlanError(sse41, ramStart, destAddr, [s]) == SegmentError(sse41, ramStart, destAddr, s)
    ensures PlanError(sse41, ramStart, destAddr, [s, t])
            == var error := SegmentError(sse41, ramStart, destAddr, s);
               if error.Some? then error else SegmentError(sse41, ramStart, destAddr + s.bytes, t)
  {
    var dest := destAddr + s.bytes;
    assert [s][1..] == [] && [t][1..] == [] && [s, t][1..] == [t];
    assert PlanError(sse41, ramStart, dest, []).None?;
    assert PlanError(sse41, ramStart, dest, [t]) == SegmentError(sse41, ramStart, dest, t);
  }

  // ----- the plan of a request

  /** The first slot read, as the code reduces it */
  function Start(q: R.Request): int
    requires q.Valid()
  {
    R.CMod(q.trigger - q.pre, q.slots)
  }

  function End(q: R.Request): int
    requires q.Valid()
  {
    R.CMod(q.trigger + q.post - 1, q.slots)
  }

  /** The bytes from the first slot to the end of the ring */
  function FirstRead(q: R.Request): int
    requires q.Valid()
  {
    (q.slots - Start(q)) * q.size
  }

  /** The two shapes of a plan */
  lemma PlanCases(q: R.Request)
    requires q.Valid()
    ensures R.PlanBytes(R.Plan(q)) == q.Total()
    ensures Start(q) <= End(q) ==> R.Plan(q) == [R.Segment(Start(q) * q.size, q.Total())]
    ensures End(q) < Start(q) ==>
              && 0 <= FirstRead(q) <= q.Total()
              && R.Plan(q) == [R.Segment(Start(q) * q.size, FirstRead(q)), R.Segment(0, q.Total() - FirstRead(q))]
  {
    R.PlanIsWindow(q);
    R.Reduced(q);
    R.MulLe(0, q.slots - Start(q), q.size);
  }

  /** What is read fits in the ring. */
  lemma PlanIsShort(q: R.Request)
    requires Fills(q)
    ensures q.Total() <= P.REGION && Short(R.Plan(q))
  {
    PlanCases(q);
    R.MulLe(q.pre + q.post, q.slots, q.size);
  }

  /** The rest of the ring is what the first offset leaves of it. */
  lemma FirstReadIs(q: R.Request)
    requires Fills(q)
    ensures FirstRead(q) == P.REGION - Start(q) * q.size
  {
    R.MulSub(q.slots, Start(q), q.size);
  }

  // ----- whole words

  /** Every read of the plan starts at a word and has whole words. */
  predicate Whole(plan: seq<R.Segment>) {
    forall i :: 0 <= i < |plan| ==> plan[i].offset % 4 == 0 && plan[i].bytes % 4 == 0
  }

  /** That is so exactly when the first read starts at a word and the result has whole words. */
  lemma WholeIff(q: R.Request)
    requires Fills(q)
    ensures Whole(R.Plan(q)) <==> Start(q) * q.size % 4 == 0 && q.Total() % 4 == 0
  {
    PlanCases(q);
    FirstReadIs(q);
    var o := Start(q) * q.size;
    if Start(q) <= End(q) {
      assert R.Plan(q)[0] == R.Segment(o, q.Total());
    } else {
      assert R.Plan(q)[0] == R.Segment(o, P.REGION - o) && R.Plan(q)[1] == R.Segment(0, q.Total() - (P.REGION - o));
      WholeParts(o, q.Total());
    }
  }

  lemma WholeParts(o: int, total: nat)
    ensures o % 4 == 0 ==> (P.REGION - o) % 4 == 0
    ensures o % 4 == 0 ==> ((total - (P.REGION - o)) % 4 == 0 <==> total % 4 == 0)
  {
    if o % 4 == 0 {
      DivModUnique(P.REGION - o, 4, 0x400_0000 - o / 4, 0);
      DivModUnique(total - (P.REGION - o), 4, total / 4 - 0x400_0000 + o / 4, total % 4);
    }
  }

  /** In particular when the samples have whole words. */
  lemma WordSamplesAreWhole(q: R.Request)
    requires Fills(q) && q.size % 4 == 0
    ensures Whole(R.Plan(q))
  {
    TimesMultiple(q.pre + q.post, q.size, 4);
    TimesMultiple(Start(q), q.size, 4);
    WholeIff(q);
  }

  lemma TimesMultiple(k: int, size: int, d: nat)
    requires 0 < d && size % d == 0
    ensures k * size % d == 0
  {
    var n := size / d;
    assert size == n * d;
    MulAssociates(k, n, d);
    DivModUnique(k * size, d, k * n, 0);
  }

  lemma MulAssociates(a: int, b: int, c: int)
    ensures a * b * c == a * (b * c)
  {
  }

  // ----- misaligned vector stores

  lemma WrapMod16(x: int)
    ensures S.Wrap(x) % 16 == x % 16 && S.Wrap(x) % 4 == x % 4
  {
    var q, w := x / 0x1_0000_0000_0000_0000, S.Wrap(x);
    DivModUnique(x, 16, q * 0x1000_0000_0000_0000 + w / 16, w % 16);
    DivModUnique(x, 4, q * 0x4000_0000_0000_0000 + w / 4, w % 4);
  }

  /** Addresses in a region are placed like their offsets. */
  lemma RegionMod16(ramStart: nat, offset: int)
    requires Region(ramStart)
    ensures S.Wrap(ramStart + offset) % 16 == offset % 16 && S.Wrap(ramStart + offset) % 4 == offset % 4
  {
    WrapMod16(ramStart + offset);
    var k := ramStart / P.REGION;
    DivModUnique(ramStart + offset, 16, k * 0x100_0000 + offset / 16, offset % 16);
    DivModUnique(ramStart + offset, 4, k * 0x400_0000 + offset / 4, offset % 4);
  }

  /** The result and the first sample read are differently placed within 16 bytes. */
  predicate Misaligned(q: R.Request, destAddr: nat)
    requires q.Valid()
  {
    destAddr % 16 != Start(q) * q.size % 16
  }

  /**
   The read is long enough for the vector copy: of the page it starts in, it reads a block of 4096 bytes after
   the next 64-byte boundary, or it reads a block of the next page.
   */
  predicate Long(s: R.Segment) {
    var inPage := s.offset % 0x10_0000;
    var head := if inPage % 64 == 0 then 0 else 64 - inPage % 64;
    head + 4096 <= Min(0x10_0000 - inPage, s.bytes) || 0x10_0000 - inPage + 4096 <= s.bytes
  }

  /** Some read of the plan is. */
  predicate AnyLong(plan: seq<R.Segment>) {
    exists i :: 0 <= i < |plan| && Long(plan[i])
  }

  /** Regions start on a page, so where a read lies in its page is where its offset does. */
  lemma RegionPage(ramStart: nat, offset: int)
    requires Region(ramStart)
    ensures S.PageOffset(S.Wrap(ramStart + offset)) == offset % S.PAGE_SIZE
  {
    var x := ramStart + offset;
    var q, w := x / 0x1_0000_0000_0000_0000, S.Wrap(x);
    var r := offset % S.PAGE_SIZE;
    DivModUnique(x, S.PAGE_SIZE, ramStart / P.REGION * 0x100 + offset / S.PAGE_SIZE, r);
    DivModUnique(w, S.PAGE_SIZE, x / S.PAGE_SIZE - q * 0x1000_0000_0000, r);
  }

  lemma LongIff(ramStart: nat, s: R.Segment)
    requires Region(ramStart) && s.offset % 4 == 0 && s.bytes < 0x1_0000_0000
    ensures S.UsesVectors(S.Wrap(ramStart + s.offset), s.bytes) <==> Long(s)
  {
    RegionMod16(ramStart, s.offset);
    RegionPage(ramStart, s.offset);
    S.UsesVectorsClosedForm(S.Wrap(ramStart + s.offset), s.bytes);
  }

  lemma SecondReadPlacement(o: int, destAddr: nat)
    requires o <= P.REGION
    ensures (destAddr + (P.REGION - o)) % 16 == 0 <==> destAddr % 16 == o % 16
  {
    var d, r := destAddr % 16, o % 16;
    DivModUnique(destAddr + (P.REGION - o), 16,
                 destAddr / 16 + 0x100_0000 - o / 16 - (if d < r then 1 else 0), d - r + if d < r then 16 else 0);
  }

  /**
   With the vector copy compiled in, a plan of whole words faults exactly when the result and the first
   sample are differently placed within 16 bytes and some read is long enough; otherwise it succeeds.
   */
  lemma FaultIff(sse41: bool, ramStart: nat, destAddr: nat, q: R.Request)
    requires Region(ramStart) && Fills(q) && Whole(R.Plan(q))
    ensures Short(R.Plan(q))
    ensures PlanError(sse41, ramStart, destAddr, R.Plan(q))
            == if sse41 && Misaligned(q, destAddr) && AnyLong(R.Plan(q)) then Some(Faulted) else None
  {
    PlanCases(q);
    PlanIsShort(q);
    FirstReadIs(q);
    var plan, o := R.Plan(q), Start(q) * q.size;
    if |plan| == 1 {
      PlanErrorCases(sse41, ramStart, destAddr, plan[0], plan[0]);
      SegmentFaults(sse41, ramStart, destAddr, plan[0]);
      assert AnyLong(plan) <==> Long(plan[0]);
    } else {
      PlanErrorCases(sse41, ramStart, destAddr, plan[0], plan[1]);
      SegmentFaults(sse41, ramStart, destAddr, plan[0]);
      SegmentFaults(sse41, ramStart, destAddr + plan[0].bytes, plan[1]);
      SecondReadPlacement(o, destAddr);
      assert AnyLong(plan) <==> Long(plan[0]) || Long(plan[1]);
    }
  }

  /** What a read of whole words throws. */
  lemma SegmentFaults(sse41: bool, ramStart: nat, destAddr: nat, s: R.Segment)
    requires Region(ramStart) && s.offset % 4 == 0 && s.bytes % 4 == 0 && s.bytes < 0x1_0000_0000
    ensures SegmentError(sse41, ramStart, destAddr, s)
         == if sse41 && destAddr % 16 != s.offset % 16 && Long(s) then Some(Faulted) else None
  {
    RegionMod16(ramStart, s.offset);
    LongIff(ramStart, s);
  }

  /** Samples of whole vectors into an aligned vector never fault. */
  lemma VectorSamplesNeverFault(sse41: bool, ramStart: nat, destAddr: nat, q: R.Request)
    requires Region(ramStart) && Fills(q) && q.size % 16 == 0 && destAddr % 16 == 0
    ensures Short(R.Plan(q)) && PlanError(sse41, ramStart, destAddr, R.Plan(q)).None?
  {
    TimesMultiple(Start(q), q.size, 16);
    DivModUnique(q.size, 4, q.size / 16 * 4, 0);
    WordSamplesAreWhole(q);
    FaultIff(sse41, ramStart, destAddr, q);
  }

  /** Short results never reach the vector copy, so they never fault. */
  lemma ShortResultsNeverFault(sse41: bool, ramStart: nat, destAddr: nat, q: R.Request)
    requires Region(ramStart) && Fills(q) && Whole(R.Plan(q)) && q.Total() < 4096
    ensures Short(R.Plan(q)) && PlanError(sse41, ramStart, destAddr, R.Plan(q)).None?
  {
    FaultIff(sse41, ramStart, destAddr, q);
    PlanCases(q);
  }

  /**
   2048 samples of 4 bytes from slot 1 on, into any aligned vector: the vector copy faults, and no other
   build does.
   */
  lemma AlignedResultFaults(sse41: bool, ramStart: nat, destAddr: nat, q: R.Request)
    requires Region(ramStart) && destAddr % 16 == 0 && q == R.Request(4, 0x400_0000, 1, 0, 2048)
    ensures Fills(q) && Short(R.Plan(q))
    ensures PlanError(sse41, ramStart, destAddr, R.Plan(q)) == if sse41 then Some(Faulted) else None
  {
    R.Reduced(q);
    assert Start(q) == 1 && End(q) == 2048;
    WordSamplesAreWhole(q);
    FaultIff(sse41, ramStart, destAddr, q);
    PlanCases(q);
    assert Long(R.Plan(q)[0]);
  }

  // ----- where the words of a result come from

  /** The SDRAM word behind byte `b` of a result. */
  function SourceWord(ramStart: nat, q: R.Request, b: nat): nat
    requires q.Valid() && b < R.PlanBytes(R.Plan(q))
  {
    S.FlatIndex(S.Wrap(ramStart + R.PlanOffset(R.Plan(q), b)))
  }

  /** The SDRAM word at byte `b` of the circular window. */
  function WindowWord(ramStart: nat, q: R.Request, b: nat): nat
    requires q.Valid()
  {
    (ramStart + R.WindowOffset(q, b)) / 4
  }

  /** Byte offsets of a plan of one read, and of a plan of two. */
  lemma PlanWord(q: R.Request, k: nat)
    requires q.Valid() && 4 * k < q.Total()
    ensures R.PlanBytes(R.Plan(q)) == q.Total() && 0 < |R.Plan(q)| <= 2
    ensures var plan := R.Plan(q);
            R.PlanOffset(plan, 4 * k) == if |plan| == 1 || 4 * k < plan[0].bytes then plan[0].offset + 4 * k
                                         else plan[1].offset + (4 * k - plan[0].bytes)
  {
    R.PlanIsWindow(q);
    var plan := R.Plan(q);
    if |plan| == 2 && plan[0].bytes <= 4 * k {
      assert R.PlanOffset(plan, 4 * k) == R.PlanOffset(plan[1..], 4 * k - plan[0].bytes);
    }
  }

  /** Addresses within a region name their own words. */
  lemma WordInRegion(ramStart: nat, offset: nat)
    requires Region(ramStart) && offset < P.REGION
    ensures S.FlatIndex(S.Wrap(ramStart + offset)) == (ramStart + offset) / 4
  {
    var a := ramStart + offset;
    DivModUnique(a, 0x1_0000_0000_0000_0000, 0, a);
    S.FlatIndexIsIdentity(a);
  }

  /** Below a region lies that of another core, or the far end of what the page register reaches. */
  lemma WordBelowRegion(ramStart: nat, offset: int)
    requires Region(ramStart) && 0 - P.REGION < offset < 0
    ensures S.FlatIndex(S.Wrap(ramStart + offset)) != (ramStart + (offset + P.REGION)) / 4
  {
    var a := ramStart + offset;
    if ramStart == 0 {
      var top := 0x10_0000_0000_0000 + a;
      DivModUnique(a, 0x1_0000_0000_0000_0000, -1, a + 0x1_0000_0000_0000_0000);
      var x := a + 0x1_0000_0000_0000_0000;
      DivModUnique(x, S.PAGE_SIZE, 0xFFF_0000_0000 + top / S.PAGE_SIZE, top % S.PAGE_SIZE);
      DivModUnique(x / S.PAGE_SIZE, 0x1_0000_0000, 0xFFF, top / S.PAGE_SIZE);
      assert S.FlatIndex(x) == top / S.PAGE_SIZE * 0x4_0000 + top % S.PAGE_SIZE / 4;
    } else {
      assert P.REGION <= ramStart;
      DivModUnique(a, 0x1_0000_0000_0000_0000, 0, a);
      S.FlatIndexIsIdentity(a);
    }
  }

  lemma FirstSampleBelow(q: R.Request)
    requires Fills(q) && q.trigger < q.pre
    ensures 0 - P.REGION < (q.trigger - q.pre) * q.size < 0
    ensures R.WindowOffset(q, 0) == (q.trigger - q.pre) * q.size + P.REGION
  {
    var back := q.trigger - q.pre;
    R.MulLe(back, -1, q.size);
    R.MulLe(1 - q.slots, back, q.size);
    R.MulSub(1, q.slots, q.size);
    DivModUnique(back * q.size, P.REGION, -1, back * q.size + P.REGION);
  }

  lemma SourceInWindow(ramStart: nat, q: R.Request, b: nat)
    requires Region(ramStart) && Fills(q) && q.pre <= q.trigger && b < q.Total()
    ensures R.PlanBytes(R.Plan(q)) == q.Total() && SourceWord(ramStart, q, b) == WindowWord(ramStart, q, b)
  {
    R.PlanIsWindow(q);
    WordInRegion(ramStart, R.WindowOffset(q, b));
  }

  /**
   The words of a result are those of the circular window around the trigger, in the core's own region
   of the flat SDRAM, exactly when the pre-trigger samples do not reach back past slot 0.
   */
  lemma ResultIsWindow(ramStart: nat, q: R.Request)
    requires Region(ramStart) && Fills(q)
    ensures R.PlanBytes(R.Plan(q)) == q.Total()
    ensures q.pre <= q.trigger <==>
            forall b: nat :: b < q.Total() && b % 4 == 0 ==> SourceWord(ramStart, q, b) == WindowWord(ramStart, q, b)
  {
    R.PlanIsWindow(q);
    if q.pre <= q.trigger {
      forall b: nat | b < q.Total() && b % 4 == 0
        ensures SourceWord(ramStart, q, b) == WindowWord(ramStart, q, b)
      {
        SourceInWindow(ramStart, q, b);
      }
    } else {
      R.PlanBeforeRegion(q);
      FirstSampleBelow(q);
      R.MulLe(1, q.pre + q.post, q.size);
      WordBelowRegion(ramStart, (q.trigger - q.pre) * q.size);
      assert SourceWord(ramStart, q, 0) != WindowWord(ramStart, q, 0);
    }
  }

  /** The windows of two regions share no word. */
  lemma RegionsShareNoWord(ramStart: nat, ramStart': nat, q: R.Request, q': R.Request, b: nat, b': nat)
    requires Region(ramStart) && Region(ramStart') && ramStart + P.REGION <= ramStart' && Fills(q) && Fills(q')
    ensures WindowWord(ramStart, q, b) < WindowWord(ramStart', q', b')
  {
    DivModUnique(ramStart + P.REGION, 4, (ramStart / P.REGION + 1) * 0x400_0000, 0);
  }

  // ----- the reads

  /** The words of the plan for a request, in order. */
  ghost predicate IsResult(sdram: nat -> Word, words: seq<Word>, ramStart: nat, q: R.Request)
    requires q.Valid()
  {
    && q.Total() % 4 == 0 && |words| == q.Total() / 4
    && R.PlanBytes(R.Plan(q)) == q.Total()
    && forall k :: 0 <= k < |words| ==> words[k] == sdram(SourceWord(ramStart, q, 4 * k))
  }

  /**
   The words delivered for a trigger in slot `t`, in plain numbers: those around the ring from slot `t - pre`
   on, or the linear ones from there when that is before the region.
   */
  ghost predicate Delivers(
      sdram: nat -> Word, words: seq<Word>, ramStart: nat, size: nat, t: nat, pre: nat, post: nat)
  {
    && 4 * |words| == (pre + post) * size
    && forall k :: 0 <= k < |words| ==>
                     words[k] == sdram(if pre <= t then (ramStart + ((t - pre) * size + 4 * k) % P.REGION) / 4
                                       else (ramStart + (t - pre) * size + 4 * k) % 0x10_0000_0000_0000 / 4)
  }

  lemma ResultDelivers(sdram: nat -> Word, words: seq<Word>, ramStart: nat, q: R.Request)
    requires Region(ramStart) && Fills(q) && IsResult(sdram, words, ramStart, q)
    ensures Delivers(sdram, words, ramStart, q.size, q.trigger, q.pre, q.post)
  {
    if q.pre <= q.trigger {
      forall k | 0 <= k < |words|
        ensures words[k] == sdram((ramStart + ((q.trigger - q.pre) * q.size + 4 * k) % P.REGION) / 4)
      {
        SourceInWindow(ramStart, q, 4 * k);
      }
    } else {
      forall k | 0 <= k < |words|
        ensures words[k] == sdram((ramStart + (q.trigger - q.pre) * q.size + 4 * k) % 0x10_0000_0000_0000 / 4)
      {
        SourceBeforeRegion(ramStart, q, k);
      }
    }
  }

  lemma SourceBeforeRegion(ramStart: nat, q: R.Request, k: nat)
    requires Fills(q) && q.trigger < q.pre && 4 * k < q.Total()
    ensures R.PlanBytes(R.Plan(q)) == q.Total()
    ensures SourceWord(ramStart, q, 4 * k)
         == (ramStart + (q.trigger - q.pre) * q.size + 4 * k) % 0x10_0000_0000_0000 / 4
  {
    PlanWord(q, k);
    R.PlanBeforeRegion(q);
    S.FlatWord(ramStart + (q.trigger - q.pre) * q.size + 4 * k);
  }

  /** Without an exception, every read starts at a word and has whole words. */
  lemma NoErrorIsWhole(sse41: bool, ramStart: nat, destAddr: nat, q: R.Request)
    requires Fills(q)
    ensures Short(R.Plan(q))
    ensures PlanError(sse41, ramStart, destAddr, R.Plan(q)).None? ==> Whole(R.Plan(q))
  {
    PlanIsShort(q);
    PlanCases(q);
    var plan := R.Plan(q);
    PlanErrorCases(sse41, ramStart, destAddr, plan[0], plan[|plan| - 1]);
  }

  // ----- what is thrown, in plain numbers

  /** The bytes from offset `o` on wrap around after `REGION`; a read of them is long enough for the vector copy. */
  predicate LongAround(o: int, total: nat)
    requires o <= P.REGION
  {
    || Long(R.Segment(o, if o + total <= P.REGION then total else P.REGION - o))
    || (P.REGION < o + total && Long(R.Segment(0, o + total - P.REGION)))
  }

  lemma AnyLongIff(q: R.Request)
    requires Fills(q)
    ensures (q.trigger - q.pre) * q.size <= P.REGION
    ensures AnyLong(R.Plan(q)) <==> LongAround((q.trigger - q.pre) * q.size, q.Total())
    ensures Start(q) * q.size == (q.trigger - q.pre) * q.size
  {
    R.Reduced(q);
    PlanCases(q);
    FirstReadIs(q);
    var plan, o := R.Plan(q), Start(q) * q.size;
    if Start(q) <= End(q) {
      R.MulLe(Start(q) + q.pre + q.post, q.slots, q.size);
      Distribute(Start(q), q.pre + q.post, q.size);
      assert AnyLong(plan) <==> Long(plan[0]);
    } else {
      assert AnyLong(plan) <==> Long(plan[0]) || Long(plan[1]);
    }
  }

  lemma Distribute(a: int, b: int, s: int)
    ensures (a + b) * s == a * s + b * s
  {
  }

  /** Word `k` of a read at a region offset comes from that offset on. */
  lemma SegmentWord(ramStart: nat, offset: int, k: nat)
    ensures S.WordOf(S.Wrap(ramStart + offset), k) == S.FlatIndex(S.Wrap(ramStart + (offset + 4 * k)))
  {
    var n := 0x1_0000_0000_0000_0000;
    var a := ramStart + offset;
    assert a == a / n * n + S.Wrap(a);
    var w := S.Wrap(a) + 4 * k;
    assert w == w / n * n + w % n;
    DivModUnique(a + 4 * k, n, a / n + w / n, w % n);
  }

  /** One `bar2_read_v` of a result, into the words of `buf` from `at` on. */
  method ReadSegment(bars: S.PcieBars, ramStart: nat, s: R.Segment, buf: array<Word>, at: nat, destAddr: nat)
    returns (outcome: Option<Outcome>)
    requires Region(ramStart) && s.bytes < 0x1_0000_0000 && at + s.bytes / 4 <= buf.Length
    modifies bars`sdramPage, buf
    ensures outcome == SegmentError(bars.useSse41, ramStart, destAddr, s)
    ensures outcome.None? ==>
              forall x :: at <= x < at + s.bytes / 4 ==>
                buf[x] == bars.sdram(S.FlatIndex(S.Wrap(ramStart + (s.offset + 4 * (x - at)))))
    ensures forall x :: 0 <= x < buf.Length && !(at <= x < at + s.bytes / 4) ==> buf[x] == old(buf[x])
  {
    var addr := S.Wrap(ramStart + s.offset);
    RegionMod16(ramStart, s.offset);
    if addr % 4 != 0 {
      return Some(Unaligned);
    }
    var r := bars.Bar2ReadV(addr, buf, at, destAddr, s.bytes);
    match r {
      case Fault => return Some(Faulted);
      case AssertionFailed => return Some(AssertionFailed);
      case Done =>
    }
    forall x | at <= x < at + s.bytes / 4
      ensures buf[x] == bars.sdram(S.FlatIndex(S.Wrap(ramStart + (s.offset + 4 * (x - at)))))
    {
      SegmentWord(ramStart, s.offset, x - at);
    }
    return None;
  }

  /** The two reads of a window that wraps around the end of the region */
  method ReadWrapped(bars: S.PcieBars, ramStart: nat, s: R.Segment, t: R.Segment, buf: array<Word>, destAddr: nat)
    returns (outcome: Option<Outcome>)
    requires Region(ramStart) && s.bytes + t.bytes < 0x1_0000_0000 && s.bytes / 4 + t.bytes / 4 <= buf.Length
    modifies bars`sdramPage, buf
    ensures outcome == PlanError(bars.useSse41, ramStart, destAddr, [s, t])
    ensures outcome.None? ==>
              && s.bytes % 4 == 0 && t.bytes % 4 == 0
              && (forall x :: 0 <= x < s.bytes / 4 ==>
                    buf[x] == bars.sdram(S.FlatIndex(S.Wrap(ramStart + (s.offset + 4 * x)))))
              && (forall x :: s.bytes / 4 <= x < s.bytes / 4 + t.bytes / 4 ==>
                    buf[x] == bars.sdram(S.FlatIndex(S.Wrap(ramStart + (t.offset + 4 * (x - s.bytes / 4))))))
  {
    PlanErrorCases(bars.useSse41, ramStart, destAddr, s, t);
    outcome := ReadSegment(bars, ramStart, s, buf, 0, destAddr);
    if outcome.Some? {
      return;
    }
    outcome := ReadSegment(bars, ramStart, t, buf, s.bytes / 4, destAddr + s.bytes);
  }

  /** The reads of `get_result`, as its two branches make them. */
  method ReadWindow(bars: S.PcieBars, ramStart: nat, q: R.Request, destAddr: nat) returns (outcome: Outcome)
    requires Region(ramStart) && Fills(q)
    modifies bars`sdramPage
    ensures Short(R.Plan(q))
    ensures match PlanError(bars.useSse41, ramStart, destAddr, R.Plan(q))
            case Some(e) => outcome == e
            case None => outcome.Data? && IsResult(bars.sdram, outcome.words, ramStart, q)
  {
    PlanCases(q);
    PlanIsShort(q);
    var totalBytes := q.Total();
    var buf := new Word[totalBytes / 4](_ => 0);
    var start, end := Start(q), End(q);
    var error;
    if end >= start {
      var whole := R.Segment(start * q.size, totalBytes);
      PlanErrorCases(bars.useSse41, ramStart, destAddr, whole, whole);
      error := ReadSegment(bars, ramStart, whole, buf, 0, destAddr);
    } else {
      var firstRead := (q.slots - start) * q.size;
      error := ReadWrapped(bars, ramStart, R.Segment(start * q.size, firstRead), R.Segment(0, totalBytes - firstRead),
                           buf, destAddr);
    }
    if error.Some? {
      return error.value;
    }
    forall k | 0 <= k < totalBytes / 4
      ensures buf[k] == bars.sdram(SourceWord(ramStart, q, 4 * k))
    {
      PlanWord(q, k);
    }
    return Data(buf[..]);
  }
}
