/**
 Reading an acquisition out of its circular buffer (`get_result` in `modules/acq.cc`).

 The region of a core is a ring of whole samples.  The trigger index is the slot of the first
 post-trigger sample, and the result should be the slots from `pre` before it to `post` after it.
 */
module AcqRing {
  import opened Words

  /** `size` bytes a sample, `slots` samples in the ring, `trigger` the slot of the first sample after the trigger */
  datatype Request = Request(size: nat, slots: nat, trigger: nat, pre: nat, post: nat) {
    predicate Valid() {
      0 < size && trigger < slots && 0 < pre + post < slots
    }

    function Total(): nat { (pre + post) * size }
  }

  /** The `%` of C, which truncates toward zero. */
  function CMod(a: int, m: int): int
    requires 0 < m
  {
    if 0 <= a then a % m else -(-a % m)
  }

  /** One linear read, at a signed byte offset from the start of the region. */
  datatype Segment = Segment(offset: int, bytes: nat)

  /** The reads for a ring window given by its reduced first and last index. */
  function PlanFrom(q: Request, start: int, end: int): seq<Segment>
    requires q.Valid() && start < q.slots && (start <= end || (q.slots - start) * q.size <= q.Total())
  {
    if end >= start then [Segment(start * q.size, q.Total())]
    else
      var firstRead := (q.slots - start) * q.size;
      [Segment(start * q.size, firstRead), Segment(0, q.Total() - firstRead)]
  }

  lemma MulLe(a: int, b: int, s: nat)
    requires a <= b
    ensures a * s <= b * s
  {
    assert 0 <= (b - a) * s;
  }

  /** The reduced indices satisfy what `PlanFrom` needs, with either modulus. */
  lemma Reduced(q: Request)
    requires q.Valid()
    ensures var start, end := CMod(q.trigger - q.pre, q.slots), CMod(q.trigger + q.post - 1, q.slots);
            && start < q.slots
            && (start <= end || (q.slots - start) * q.size <= q.Total())
            && (q.pre <= q.trigger ==>
                  start == q.trigger - q.pre && (end < start <==> q.slots < start + (q.pre + q.post)))
            && (q.trigger < q.pre ==> start == q.trigger - q.pre <= end)
    ensures var start, end := (q.trigger - q.pre) % q.slots, (q.trigger + q.post - 1) % q.slots;
            && start < q.slots
            && start == (if q.pre <= q.trigger then q.trigger - q.pre else q.trigger - q.pre + q.slots)
            && (end < start <==> q.slots < start + (q.pre + q.post))
            && (start <= end || (q.slots - start) * q.size <= q.Total())
  {
    var m, first, last := q.slots, q.trigger - q.pre, q.trigger + q.post - 1;
    if 0 <= first {
      DivModUnique(first, m, 0, first);
    } else {
      DivModUnique(-first, m, 0, -first);
      DivModUnique(first, m, -1, first + m);
    }
    if last == -1 {
      DivModUnique(1, m, 0, 1);
      DivModUnique(last, m, -1, last + m);
    } else if last < m {
      DivModUnique(last, m, 0, last);
    } else {
      DivModUnique(last, m, 1, last - m);
    }
    var start := first % m;
    if m < start + (q.pre + q.post) {
      MulLe(m - start, q.pre + q.post, q.size);
    }
  }

  /** The reads `get_result` makes, with the modulus of the code. */
  function Plan(q: Request): seq<Segment>
    requires q.Valid()
  {
    Reduced(q);
    PlanFrom(q, CMod(q.trigger - q.pre, q.slots), CMod(q.trigger + q.post - 1, q.slots))
  }

  /** The reads it would make with a modulus that is never negative. */
  function EuclideanPlan(q: Request): seq<Segment>
    requires q.Valid()
  {
    Reduced(q);
    PlanFrom(q, (q.trigger - q.pre) % q.slots, (q.trigger + q.post - 1) % q.slots)
  }

  function PlanBytes(plan: seq<Segment>): nat {
    if plan == [] then 0 else plan[0].bytes + PlanBytes(plan[1..])
  }

  /** Where byte `b` of the result comes from, as an offset from the start of the region. */
  function PlanOffset(plan: seq<Segment>, b: nat): int
    requires b < PlanBytes(plan)
  {
    if b < plan[0].bytes then plan[0].offset + b else PlanOffset(plan[1..], b - plan[0].bytes)
  }

  /** Where byte `b` of the circular window lies. */
  function WindowOffset(q: Request, b: nat): nat
    requires q.Valid()
  {
    ((q.trigger - q.pre) * q.size + b) % (q.slots * q.size)
  }

  lemma PlanFromBytes(q: Request, start: int, end: int)
    requires q.Valid() && start < q.slots && (start <= end || (q.slots - start) * q.size <= q.Total())
    ensures var plan := PlanFrom(q, start, end);
            && PlanBytes(plan) == q.Total()
            && forall b: nat :: b < q.Total() ==>
                 PlanOffset(plan, b) == if start <= end || b < (q.slots - start) * q.size then start * q.size + b
                                        else b - (q.slots - start) * q.size
  {
    var plan := PlanFrom(q, start, end);
    if start <= end {
      assert plan[1..] == [];
    } else {
      assert plan[1..] == [plan[1]] && plan[1..][1..] == [];
      assert PlanBytes(plan[1..]) == plan[1].bytes;
    }
  }

  /** Byte `b` of a run of the ring that starts at slot `start`. */
  function RingOffset(q: Request, start: nat, b: nat): int {
    var rest := (q.slots - start) * q.size;
    if b < rest then start * q.size + b else b - rest
  }

  /** Going at most once around the ring. */
  lemma OnceAround(s: nat, ring: nat, turns: int, b: nat)
    requires s < ring && b < ring
    ensures (s + turns * ring + b) % ring == if b < ring - s then s + b else s + b - ring
  {
    if b < ring - s {
      DivModUnique(s + turns * ring + b, ring, turns, s + b);
    } else {
      assert (turns + 1) * ring == turns * ring + ring;
      DivModUnique(s + turns * ring + b, ring, turns + 1, s + b - ring);
    }
  }

  lemma TurnsTimesSize(start: nat, turns: int, slots: nat, size: nat)
    ensures (start + turns * slots) * size == start * size + turns * (slots * size)
  {
  }

  /** Offsets of a window that starts at slot `start`, before and after it runs past the end of the ring. */
  lemma WindowOffsetFrom(q: Request, start: nat, turns: int, b: nat)
    requires q.Valid() && start < q.slots && q.trigger - q.pre == start + turns * q.slots && b < q.Total()
    ensures WindowOffset(q, b) == RingOffset(q, start, b)
  {
    var ring, s := q.slots * q.size, start * q.size;
    MulLe(start + 1, q.slots, q.size);
    assert s < ring;
    MulLe(q.pre + q.post, q.slots, q.size);
    assert b < ring;
    MulSub(q.slots, start, q.size);
    TurnsTimesSize(start, turns, q.slots, q.size);
    OnceAround(s, ring, turns, b);
  }

  /** With a Euclidean modulus, the result is the window, whatever the trigger. */
  lemma EuclideanPlanIsWindow(q: Request)
    requires q.Valid()
    ensures PlanBytes(EuclideanPlan(q)) == q.Total()
    ensures forall b: nat :: b < q.Total() ==> PlanOffset(EuclideanPlan(q), b) == WindowOffset(q, b)
  {
    Reduced(q);
    var start := (q.trigger - q.pre) % q.slots;
    PlanIsWindowFrom(q, start, (q.trigger + q.post - 1) % q.slots, if q.pre <= q.trigger then 0 else -1);
  }

  lemma PlanIsWindowFrom(q: Request, start: nat, end: int, turns: int)
    requires q.Valid() && start < q.slots && q.trigger - q.pre == start + turns * q.slots
    requires end < start <==> q.slots < start + (q.pre + q.post)
    requires start <= end || (q.slots - start) * q.size <= q.Total()
    ensures PlanBytes(PlanFrom(q, start, end)) == q.Total()
    ensures forall b: nat :: b < q.Total() ==> PlanOffset(PlanFrom(q, start, end), b) == WindowOffset(q, b)
  {
    PlanFromBytes(q, start, end);
    if start <= end {
      MulLe(q.pre + q.post, q.slots - start, q.size);
    }
    forall b: nat | b < q.Total()
      ensures PlanOffset(PlanFrom(q, start, end), b) == WindowOffset(q, b)
    {
      WindowOffsetFrom(q, start, turns, b);
    }
  }

  /**
   With the modulus of the code, the result is the window exactly when the pre-trigger samples do not
   reach back past slot 0.
   */
  lemma PlanIsWindow(q: Request)
    requires q.Valid()
    ensures PlanBytes(Plan(q)) == q.Total()
    ensures q.pre <= q.trigger <==> forall b: nat :: b < q.Total() ==> PlanOffset(Plan(q), b) == WindowOffset(q, b)
  {
    Reduced(q);
    var start, end := CMod(q.trigger - q.pre, q.slots), CMod(q.trigger + q.post - 1, q.slots);
    PlanFromBytes(q, start, end);
    if q.pre <= q.trigger {
      PlanIsWindowFrom(q, start, end, 0);
    } else {
      MulLe(1, q.pre + q.post, q.size);
      MulLe(start, -1, q.size);
      assert PlanOffset(Plan(q), 0) == start * q.size < 0;
      assert PlanOffset(Plan(q), 0) != WindowOffset(q, 0);
    }
  }

  /** What is read instead: one segment that starts before the region. */
  lemma PlanBeforeRegion(q: Request)
    requires q.Valid() && q.trigger < q.pre
    ensures Plan(q) == [Segment((q.trigger - q.pre) * q.size, q.Total())]
    ensures Plan(q)[0].offset < 0
  {
    Reduced(q);
    MulLe(q.trigger - q.pre, -1, q.size);
  }

  /** The window holds every byte at most once. */
  lemma WindowInjective(q: Request, b: nat, b': nat)
    requires q.Valid() && b < b' < q.Total()
    ensures WindowOffset(q, b) != WindowOffset(q, b')
  {
    Reduced(q);
    var start := (q.trigger - q.pre) % q.slots;
    var turns := if q.pre <= q.trigger then 0 else -1;
    WindowOffsetFrom(q, start, turns, b);
    WindowOffsetFrom(q, start, turns, b');
    RingInjective(q, start, b, b');
  }

  lemma RingInjective(q: Request, start: nat, b: nat, b': nat)
    requires q.Valid() && start < q.slots && b < b' < q.Total()
    ensures RingOffset(q, start, b) != RingOffset(q, start, b')
  {
    MulLe(q.pre + q.post, q.slots, q.size);
    MulSub(q.slots, start, q.size);
  }

  lemma MulSub(a: int, b: int, s: int)
    ensures (a - b) * s == a * s - b * s
  {
  }
}
