/**
 Threads sharing a board (`util/pcie.c`).

 Every call is a sequence of small steps over two recursive locks, the page registers of BAR0 and
 the cached page number, which any schedule may interleave.
 */
module Bar4Concurrency {
  import opened Words
  import S = Sdram

  const WB_PAGE_SIZE: nat := 0x1_0000

  /** `last_bar4_page` of a board just opened: no real page number */
  const NO_PAGE: Word := 0xFFFF_FFFF

  type Memory = map<nat, Word>

  function At(m: Memory, a: nat): Word { if a in m then m[a] else 0 }

  /** A call of `bar4_read`, `bar4_write`, `bar4_read_v`, `bar4_write_v` or `bar2_read_v`; counts are in words. */
  datatype Op =
    | Read(addr: nat)
    | Write(addr: nat, value: Word)
    | ReadV(addr: nat, count: nat)
    | WriteV(addr: nat, src: seq<Word>)
    | SdramRead(addr: nat, count: nat)
  {
    predicate IsScalar() { Read? || Write? }

    predicate IsWrite() { Write? || WriteV? }

    function Count(): nat {
      match this
      case Read(_) => 1
      case Write(_, _) => 1
      case ReadV(_, count) => count
      case WriteV(_, src) => |src|
      case SdramRead(_, count) => count
    }

    /** The address of word `i` */
    function Word(i: nat): nat { addr + 4 * i }

    function Value(i: nat): Word
      requires i < Count()
    {
      if Write? then value else if WriteV? then src[i] else 0
    }

    /** The words lie in the address space; vector reads and the SDRAM need whole words. */
    predicate Valid() {
      && (ReadV? || SdramRead? ==> addr % 4 == 0)
      && (Count() != 0 ==> Word(Count() - 1) < if SdramRead? then 0x10_0000_0000_0000 else 0x1_0000_0000)
    }
  }

  // ----- the state machine

  /** Where a thread is inside one `bar4_read` or `bar4_write`. */
  datatype Stage = Lock | Check | SetPage | SetCache | Access | Unlock

  datatype Thread =
    | Idle
    | Enter(op: Op)
    | Loop(op: Op, i: nat, got: seq<Word>)
    | OneWord(op: Op, i: nat, got: seq<Word>, stage: Stage, readBack: bool)
    | Leave(op: Op, got: seq<Word>)
    | SdramEnter(op: Op)
    | SdramLoop(op: Op, i: nat, got: seq<Word>, mapped: bool)

  datatype Mutex = Free | Held(owner: nat, depth: nat)

  /** A finished call, with the words it returned. */
  datatype Event = Event(thread: nat, op: Op, result: seq<Word>)

  datatype State = State(
    threads: map<nat, Thread>, lock4: Mutex, lock2: Mutex,
    wbPage: Word, cache: Word, sdramPage: Word,
    wb: Memory, sdram: Memory, history: seq<Event>)
  {
    function Of(t: nat): Thread { if t in threads then threads[t] else Idle }

    function Now(t: nat, thread: Thread): State { this.(threads := threads[t := thread]) }
  }

  /** Recursive locking; None means that the thread has to wait. */
  function Acquire(m: Mutex, t: nat): Option<Mutex> {
    match m
    case Free => Some(Held(t, 1))
    case Held(owner, depth) => if owner == t then Some(Held(t, depth + 1)) else None
  }

  function Release(m: Mutex): Mutex {
    match m
    case Free => Free
    case Held(owner, depth) => if depth <= 1 then Free else Held(owner, depth - 1)
  }

  function WbPage(addr: nat): Word { addr / WB_PAGE_SIZE % 0x1_0000_0000 }

  /** BAR4 spreads addresses by 8 bytes, so the bus sees the offset shifted back. */
  function Bar4Offset(addr: nat): nat { addr % WB_PAGE_SIZE * 8 }

  /** What the device makes of its page register and an offset in BAR4 */
  function BusAddress(page: Word, offset: nat): nat { page * 0x1_0000 + offset / 8 }

  /** One step of thread `t`; an idle thread calls `op`, a blocked one does nothing. */
  function Step(s: State, t: nat, op: Op): State {
    match s.Of(t)
    case Idle => if op.Valid() then s.Now(t, Begin(op)) else s
    case Enter(o) => StepEnter(s, t, o)
    case Loop(o, i, got) => s.Now(t, if i < o.Count() then OneWord(o, i, got, Lock, false) else Leave(o, got))
    case OneWord(o, i, got, stage, readBack) => if i < o.Count() then StepWord(s, t, o, i, got, stage, readBack) else s
    case Leave(o, got) => Finish(s.(lock4 := Release(s.lock4)), t, o, got)
    case SdramEnter(o) => StepSdramEnter(s, t, o)
    case SdramLoop(o, i, got, mapped) => StepSdram(s, t, o, i, got, mapped)
  }

  function Begin(op: Op): Thread {
    if op.SdramRead? then SdramEnter(op) else if op.IsScalar() then OneWord(op, 0, [], Lock, false) else Enter(op)
  }

  function Finish(s: State, t: nat, op: Op, got: seq<Word>): State {
    s.Now(t, Idle).(history := s.history + [Event(t, op, got)])
  }

  function StepEnter(s: State, t: nat, op: Op): State {
    match Acquire(s.lock4, t)
    case None => s
    case Some(m) => s.Now(t, Loop(op, 0, [])).(lock4 := m)
  }

  /** The steps of `bar4_read` and `bar4_write`; a write accesses its word twice, each time through the page check. */
  function StepWord(s: State, t: nat, op: Op, i: nat, got: seq<Word>, stage: Stage, readBack: bool): State
    requires i < op.Count()
  {
    var addr := op.Word(i);
    match stage
    case Lock =>
      (match Acquire(s.lock4, t)
       case None => s
       case Some(m) => s.Now(t, OneWord(op, i, got, Check, false)).(lock4 := m))
    case Check => s.Now(t, OneWord(op, i, got, if WbPage(addr) != s.cache then SetPage else Access, readBack))
    case SetPage => s.Now(t, OneWord(op, i, got, SetCache, readBack)).(wbPage := WbPage(addr))
    case SetCache => s.Now(t, OneWord(op, i, got, Access, readBack)).(cache := WbPage(addr))
    case Access =>
      var a := BusAddress(s.wbPage, Bar4Offset(addr));
      if !op.IsWrite() then s.Now(t, OneWord(op, i, got + [At(s.wb, a)], Unlock, readBack))
      else if !readBack then s.Now(t, OneWord(op, i, got, Check, true)).(wb := s.wb[a := op.Value(i)])
      else s.Now(t, OneWord(op, i, got, Unlock, readBack))
    case Unlock =>
      var s' := s.(lock4 := Release(s.lock4));
      if op.IsScalar() then Finish(s', t, op, got) else s'.Now(t, Loop(op, i + 1, got))
  }

  function StepSdramEnter(s: State, t: nat, op: Op): State {
    match Acquire(s.lock2, t)
    case None => s
    case Some(m) => s.Now(t, SdramLoop(op, 0, [], false)).(lock2 := m)
  }

  /** The page is selected at the start of every pass, and a pass ends where the page does. */
  function StepSdram(s: State, t: nat, op: Op, i: nat, got: seq<Word>, mapped: bool): State {
    var addr := op.Word(i);
    if i >= op.Count() then Finish(s.(lock2 := Release(s.lock2)), t, op, got)
    else if !mapped then s.Now(t, SdramLoop(op, i, got, true)).(sdramPage := S.PageNumber(addr))
    else
      var a := s.sdramPage * S.PAGE_SIZE + addr % S.PAGE_SIZE;
      s.Now(t, SdramLoop(op, i + 1, got + [At(s.sdram, a)], op.Word(i + 1) % S.PAGE_SIZE != 0))
  }

  /** A schedule names the thread of each step, and the call it makes if it is idle. */
  function Run(s: State, schedule: seq<(nat, Op)>): State
    decreases |schedule|
  {
    if schedule == [] then s
    else
      var last := |schedule| - 1;
      Step(Run(s, schedule[..last]), schedule[last].0, schedule[last].1)
  }

  predicate Initial(s: State) {
    s.threads == map[] && s.lock4 == Free && s.lock2 == Free && s.cache == NO_PAGE && s.history == []
  }

  // ----- what the calls should do, one whole call at a time

  /** The bus memory after the first `n` words of `op`. */
  function Written(m: Memory, op: Op, n: nat): Memory
    requires n <= op.Count()
  {
    if n == 0 || !op.IsWrite() then m else Written(m, op, n - 1)[op.Word(n - 1) := op.Value(n - 1)]
  }

  /** The first `n` words `op` reads from `m`. */
  function ReadFrom(m: Memory, op: Op, n: nat): seq<Word> {
    if n == 0 || op.IsWrite() then [] else ReadFrom(m, op, n - 1) + [At(m, op.Word(n - 1))]
  }

  function Replay(m: Memory, history: seq<Event>): Memory {
    if history == [] then m
    else
      var last := |history| - 1;
      Written(Replay(m, history[..last]), history[last].op, history[last].op.Count())
  }

  /** What a call returns when the bus memory is `m` and it runs alone. */
  function Result(m: Memory, sdram: Memory, op: Op): seq<Word> {
    ReadFrom(if op.SdramRead? then sdram else m, op, op.Count())
  }

  /** Running the finished calls one after the other, in the order they finished, gives every result they returned. */
  ghost predicate Serializable(m: Memory, sdram: Memory, history: seq<Event>) {
    forall k :: 0 <= k < |history| ==>
                  history[k].result == Result(Replay(m, history[..k]), sdram, history[k].op)
  }

  // ----- the same, address by address

  /** What `op` makes of the bus memory. */
  ghost predicate Stores(m: Memory, op: Op, m': Memory) {
    match op
    case Write(a, v) => forall x: nat :: At(m', x) == if x == a then v else At(m, x)
    case WriteV(a, src) =>
      forall x: nat :: At(m', x) ==
                       if a <= x < a + 4 * |src| && (x - a) % 4 == 0 then src[(x - a) / 4] else At(m, x)
    case _ => m' == m
  }

  /** What `op` returns, with `m` on the bus. */
  ghost predicate Returns(m: Memory, sdram: Memory, op: Op, got: seq<Word>) {
    match op
    case Read(a) => got == [At(m, a)]
    case ReadV(a, count) => |got| == count && forall k :: 0 <= k < count ==> got[k] == At(m, a + 4 * k)
    case SdramRead(a, count) => |got| == count && forall k :: 0 <= k < count ==> got[k] == At(sdram, a + 4 * k)
    case _ => got == []
  }

  /** What a block write leaves at address `a`. */
  lemma {:induction false} WrittenAt(m: Memory, addr: nat, src: seq<Word>, n: nat, a: nat)
    requires n <= |src|
    ensures At(Written(m, WriteV(addr, src), n), a) ==
            if addr <= a < addr + 4 * n && (a - addr) % 4 == 0 then src[(a - addr) / 4] else At(m, a)
    decreases n
  {
    if n != 0 {
      WrittenAt(m, addr, src, n - 1, a);
      assert WriteV(addr, src).Word(n - 1) == addr + 4 * (n - 1);
    }
  }

  lemma WholeCallStores(m: Memory, op: Op)
    ensures Stores(m, op, Written(m, op, op.Count()))
  {
    match op
    case Write(a, v) =>
      assert Written(m, op, 1) == Written(m, op, 0)[op.Word(0) := op.Value(0)];
    case WriteV(a, src) =>
      forall x: nat
        ensures At(Written(m, op, |src|), x) ==
                if a <= x < a + 4 * |src| && (x - a) % 4 == 0 then src[(x - a) / 4] else At(m, x)
      {
        WrittenAt(m, a, src, |src|, x);
      }
    case _ =>
  }

  lemma {:induction false} ReadFromAt(m: Memory, op: Op, n: nat)
    requires !op.IsWrite()
    ensures |ReadFrom(m, op, n)| == n
    ensures forall k :: 0 <= k < n ==> ReadFrom(m, op, n)[k] == At(m, op.addr + 4 * k)
  {
    if n != 0 {
      ReadFromAt(m, op, n - 1);
    }
  }

  lemma WholeCallReturns(m: Memory, sdram: Memory, op: Op)
    ensures Returns(m, sdram, op, Result(m, sdram, op))
  {
    if !op.IsWrite() {
      ReadFromAt(if op.SdramRead? then sdram else m, op, op.Count());
    }
  }

  /** The memories between the calls of `history`, run alone and in order */
  ghost predicate SerialRun(memories: seq<Memory>, sdram: Memory, history: seq<Event>) {
    && |memories| == |history| + 1
    && forall k :: 0 <= k < |history| ==>
                     && Returns(memories[k], sdram, history[k].op, history[k].result)
                     && Stores(memories[k], history[k].op, memories[k + 1])
  }

  ghost function Memories(m: Memory, history: seq<Event>): (r: seq<Memory>)
    ensures |r| == |history| + 1
    ensures forall k :: 0 <= k <= |history| ==> r[k] == Replay(m, history[..k])
  {
    seq(|history| + 1, k requires 0 <= k <= |history| => Replay(m, history[..k]))
  }

  lemma ReplayIsSerialRun(m: Memory, sdram: Memory, history: seq<Event>)
    requires Serializable(m, sdram, history)
    ensures SerialRun(Memories(m, history), sdram, history)
  {
    forall k | 0 <= k < |history|
      ensures Returns(Memories(m, history)[k], sdram, history[k].op, history[k].result)
      ensures Stores(Memories(m, history)[k], history[k].op, Memories(m, history)[k + 1])
    {
      WholeCallReturns(Replay(m, history[..k]), sdram, history[k].op);
      WholeCallStores(Replay(m, history[..k]), history[k].op);
      assert history[..k + 1][..k] == history[..k];
    }
  }

  // ----- the invariant

  /** How often a thread holds the BAR4 lock. */
  function Depth4(th: Thread): nat {
    match th
    case Loop(_, _, _) => 1
    case OneWord(op, _, _, stage, _) => (if op.IsScalar() then 0 else 1) + (if stage == Lock then 0 else 1)
    case Leave(_, _) => 1
    case _ => 0
  }

  function Depth2(th: Thread): nat { if th.SdramLoop? then 1 else 0 }

  function DepthOf(m: Mutex, t: nat): nat {
    if m.Held? && m.owner == t then m.depth else 0
  }

  /** Locks are held exactly as deep as the program points of the threads say. */
  ghost predicate LocksOk(s: State) {
    && (s.lock4.Held? ==> 0 < s.lock4.depth) && (s.lock2.Held? ==> 0 < s.lock2.depth)
    && forall t: nat :: Depth4(s.Of(t)) == DepthOf(s.lock4, t) && Depth2(s.Of(t)) == DepthOf(s.lock2, t)
  }

  /** The cached page is the page register's, except between the two updates. */
  predicate CacheOk(s: State) {
    || s.cache == NO_PAGE || s.cache == s.wbPage
    || (s.lock4.Held? && s.Of(s.lock4.owner).OneWord? && s.Of(s.lock4.owner).stage == SetCache)
  }

  /** The thread's progress, against the memory `m` the finished calls leave. */
  predicate ThreadOk(s: State, m: Memory, th: Thread) {
    match th
    case Idle => true
    case Enter(op) => op.Valid() && !op.IsScalar() && !op.SdramRead?
    case Loop(op, i, got) =>
      && op.Valid() && !op.IsScalar() && !op.SdramRead? && i <= op.Count()
      && s.wb == Written(m, op, i) && got == ReadFrom(m, op, i)
    case OneWord(op, i, got, stage, readBack) =>
      && op.Valid() && !op.SdramRead? && i < op.Count() && (readBack ==> op.IsWrite() && stage != Lock)
      && got == ReadFrom(m, op, if stage == Unlock then i + 1 else i)
      && (!(stage == Lock && op.IsScalar()) ==>
            s.wb == Written(m, op, if readBack || stage == Unlock then i + 1 else i))
      && (stage == SetCache ==> s.wbPage == WbPage(op.Word(i)))
      && (stage == Access ==> s.cache == s.wbPage == WbPage(op.Word(i)))
    case Leave(op, got) =>
      && op.Valid() && !op.IsScalar() && !op.SdramRead?
      && s.wb == Written(m, op, op.Count()) && got == ReadFrom(m, op, op.Count())
    case SdramEnter(op) => op.Valid() && op.SdramRead?
    case SdramLoop(op, i, got, mapped) =>
      && op.Valid() && op.SdramRead? && i <= op.Count() && got == ReadFrom(s.sdram, op, i)
      && (mapped && i < op.Count() ==> s.sdramPage == S.PageNumber(op.Word(i)))
  }

  ghost predicate Inv(s: State, m0: Memory) {
    && LocksOk(s)
    && CacheOk(s)
    && (s.lock4.Free? ==> s.wb == Replay(m0, s.history))
    && Serializable(m0, s.sdram, s.history)
    && forall t: nat :: ThreadOk(s, Replay(m0, s.history), s.Of(t))
  }

  // ----- every step keeps it

  /** The threads other than `t` are outside the parts of the state a step changed. */
  ghost predicate Apart(s: State, s': State, m: Memory, m': Memory, t: nat) {
    && s'.sdram == s.sdram
    && (forall u: nat :: u != t ==> s'.Of(u) == s.Of(u))
    && ((s'.wb == s.wb && s'.wbPage == s.wbPage && s'.cache == s.cache && m' == m)
        || forall u: nat :: u != t ==> Depth4(s.Of(u)) == 0)
    && (s'.sdramPage == s.sdramPage || forall u: nat :: u != t ==> Depth2(s.Of(u)) == 0)
  }

  lemma OthersOk(s: State, s': State, m: Memory, m': Memory, t: nat)
    requires Apart(s, s', m, m', t)
    requires forall u: nat :: ThreadOk(s, m, s.Of(u))
    ensures forall u: nat :: u != t ==> ThreadOk(s', m', s'.Of(u))
  {
    forall u: nat | u != t
      ensures ThreadOk(s', m', s'.Of(u))
    {
      assert ThreadOk(s, m, s.Of(u));
    }
  }

  /** A thread inside the lock is alone there. */
  lemma Alone(s: State, t: nat)
    requires LocksOk(s)
    ensures 0 < Depth4(s.Of(t)) ==>
              s.lock4.Held? && s.lock4.owner == t && forall u: nat :: u != t ==> Depth4(s.Of(u)) == 0
    ensures 0 < Depth2(s.Of(t)) ==>
              s.lock2.Held? && s.lock2.owner == t && forall u: nat :: u != t ==> Depth2(s.Of(u)) == 0
  {
    assert Depth4(s.Of(t)) == DepthOf(s.lock4, t) && Depth2(s.Of(t)) == DepthOf(s.lock2, t);
    forall u: nat | u != t
      ensures 0 < Depth4(s.Of(t)) ==> Depth4(s.Of(u)) == 0
      ensures 0 < Depth2(s.Of(t)) ==> Depth2(s.Of(u)) == 0
    {
      assert Depth4(s.Of(u)) == DepthOf(s.lock4, u) && Depth2(s.Of(u)) == DepthOf(s.lock2, u);
    }
  }

  /** Thread `t` left the lock as it was, took it once more, or gave back one of its `depth` levels. */
  predicate LockMoved(m: Mutex, m': Mutex, t: nat, depth: nat) {
    || m' == m
    || Some(m') == Acquire(m, t)
    || (0 < depth && m' == Release(m))
  }

  /** The locks of the new state fit the new program point of `t`, and nobody else moved. */
  lemma LocksKept(s: State, s': State, t: nat)
    requires LocksOk(s) && forall u: nat :: u != t ==> s'.Of(u) == s.Of(u)
    requires LockMoved(s.lock4, s'.lock4, t, Depth4(s.Of(t))) && LockMoved(s.lock2, s'.lock2, t, Depth2(s.Of(t)))
    requires Depth4(s'.Of(t)) == DepthOf(s'.lock4, t) && Depth2(s'.Of(t)) == DepthOf(s'.lock2, t)
    ensures LocksOk(s')
  {
    assert Depth4(s.Of(t)) == DepthOf(s.lock4, t) && Depth2(s.Of(t)) == DepthOf(s.lock2, t);
    forall u: nat
      ensures Depth4(s'.Of(u)) == DepthOf(s'.lock4, u) && Depth2(s'.Of(u)) == DepthOf(s'.lock2, u)
    {
      assert Depth4(s.Of(u)) == DepthOf(s.lock4, u) && Depth2(s.Of(u)) == DepthOf(s.lock2, u);
    }
  }

  lemma PageMakesAddress(addr: nat)
    requires addr < 0x1_0000_0000
    ensures WbPage(addr) < 0x1_0000 && BusAddress(WbPage(addr), Bar4Offset(addr)) == addr
  {
  }

  lemma SdramPageMakesAddress(addr: nat)
    requires addr < 0x10_0000_0000_0000
    ensures S.PageNumber(addr) * S.PAGE_SIZE + addr % S.PAGE_SIZE == addr
  {
  }

  /** Reads see the same words wherever a call that only reads has got to. */
  lemma {:induction false} ReadsLeaveMemory(m: Memory, op: Op, n: nat)
    requires n <= op.Count()
    ensures !op.IsWrite() ==> Written(m, op, n) == m
    ensures op.IsWrite() ==> ReadFrom(m, op, n) == []
  {
  }

  /** What the invariant says of one thread. */
  lemma About(s: State, m0: Memory, t: nat)
    requires Inv(s, m0)
    ensures ThreadOk(s, Replay(m0, s.history), s.Of(t))
    ensures Depth4(s.Of(t)) == DepthOf(s.lock4, t) && Depth2(s.Of(t)) == DepthOf(s.lock2, t)
    ensures 0 < Depth4(s.Of(t)) ==>
              s.lock4.Held? && s.lock4.owner == t && forall u: nat :: u != t ==> Depth4(s.Of(u)) == 0
    ensures 0 < Depth2(s.Of(t)) ==>
              s.lock2.Held? && s.lock2.owner == t && forall u: nat :: u != t ==> Depth2(s.Of(u)) == 0
  {
    Alone(s, t);
  }

  /** A step that finishes no call keeps the invariant when it fits the locks, the cache and its own thread. */
  lemma StepKept(s: State, s': State, t: nat, m0: Memory)
    requires Inv(s, m0) && s'.history == s.history
    requires LockMoved(s.lock4, s'.lock4, t, Depth4(s.Of(t))) && LockMoved(s.lock2, s'.lock2, t, Depth2(s.Of(t)))
    requires Depth4(s'.Of(t)) == DepthOf(s'.lock4, t) && Depth2(s'.Of(t)) == DepthOf(s'.lock2, t)
    requires Apart(s, s', Replay(m0, s.history), Replay(m0, s.history), t)
    requires CacheOk(s')
    requires s'.lock4.Free? ==> s'.wb == Replay(m0, s.history)
    requires ThreadOk(s', Replay(m0, s.history), s'.Of(t))
    ensures Inv(s', m0)
  {
    LocksKept(s, s', t);
    OthersOk(s, s', Replay(m0, s.history), Replay(m0, s.history), t);
  }

  /** Finishing a call appends it to the history with the result it would have had alone. */
  lemma FinishKept(s: State, s': State, t: nat, op: Op, got: seq<Word>, m0: Memory)
    requires Inv(s, m0) && s'.history == s.history + [Event(t, op, got)]
    requires LockMoved(s.lock4, s'.lock4, t, Depth4(s.Of(t))) && LockMoved(s.lock2, s'.lock2, t, Depth2(s.Of(t)))
    requires s'.Of(t) == Idle && DepthOf(s'.lock4, t) == 0 == DepthOf(s'.lock2, t)
    requires Apart(s, s', Replay(m0, s.history), Written(Replay(m0, s.history), op, op.Count()), t)
    requires CacheOk(s')
    requires s'.lock4.Free? ==> s'.wb == Written(Replay(m0, s.history), op, op.Count())
    requires got == Result(Replay(m0, s.history), s.sdram, op)
    ensures Inv(s', m0)
  {
    var m := Replay(m0, s.history);
    LocksKept(s, s', t);
    assert s'.history[..|s.history|] == s.history;
    OthersOk(s, s', m, Written(m, op, op.Count()), t);
    forall k | 0 <= k < |s'.history|
      ensures s'.history[k].result == Result(Replay(m0, s'.history[..k]), s.sdram, s'.history[k].op)
    {
      if k < |s.history| {
        assert s'.history[..k] == s.history[..k];
      }
    }
  }

  lemma StepEnterKeeps(s: State, t: nat, m0: Memory)
    requires Inv(s, m0) && s.Of(t).Enter?
    ensures Inv(StepEnter(s, t, s.Of(t).op), m0)
  {
    About(s, m0, t);
    if Acquire(s.lock4, t).Some? {
      StepKept(s, StepEnter(s, t, s.Of(t).op), t, m0);
    }
  }

  lemma StepLockKeeps(s: State, t: nat, m0: Memory)
    requires Inv(s, m0) && s.Of(t).OneWord? && s.Of(t).i < s.Of(t).op.Count() && s.Of(t).stage == Lock
    ensures var OneWord(op, i, got, stage, readBack) := s.Of(t); Inv(StepWord(s, t, op, i, got, stage, readBack), m0)
  {
    var OneWord(op, i, got, stage, readBack) := s.Of(t);
    About(s, m0, t);
    if Acquire(s.lock4, t).Some? {
      StepKept(s, StepWord(s, t, op, i, got, stage, readBack), t, m0);
    }
  }

  lemma StepPageKeeps(s: State, t: nat, m0: Memory)
    requires Inv(s, m0) && s.Of(t).OneWord? && s.Of(t).i < s.Of(t).op.Count()
    requires s.Of(t).stage in {Check, SetPage, SetCache}
    ensures var OneWord(op, i, got, stage, readBack) := s.Of(t); Inv(StepWord(s, t, op, i, got, stage, readBack), m0)
  {
    var OneWord(op, i, got, stage, readBack) := s.Of(t);
    About(s, m0, t);
    PageMakesAddress(op.Word(i));
    StepKept(s, StepWord(s, t, op, i, got, stage, readBack), t, m0);
  }

  /** The load itself reads the requested word of the memory the finished calls left. */
  lemma StepLoadKeeps(s: State, t: nat, m0: Memory)
    requires Inv(s, m0) && s.Of(t).OneWord? && s.Of(t).i < s.Of(t).op.Count() && s.Of(t).stage == Access
    requires !s.Of(t).op.IsWrite()
    ensures var OneWord(op, i, got, stage, readBack) := s.Of(t); Inv(StepWord(s, t, op, i, got, stage, readBack), m0)
  {
    var OneWord(op, i, got, stage, readBack) := s.Of(t);
    var m := Replay(m0, s.history);
    About(s, m0, t);
    PageMakesAddress(op.Word(i));
    ReadsLeaveMemory(m, op, i);
    ReadsLeaveMemory(m, op, i + 1);
    StepKept(s, StepWord(s, t, op, i, got, stage, readBack), t, m0);
  }

  /** With its page selected, the store changes the requested word. */
  lemma StoreStepIs(s: State, t: nat, op: Op, i: nat, got: seq<Word>, m: Memory)
    requires op.Valid() && !op.SdramRead? && op.IsWrite() && i < op.Count()
    requires s.wbPage == WbPage(op.Word(i)) && s.wb == Written(m, op, i)
    ensures StepWord(s, t, op, i, got, Access, false)
            == s.Now(t, OneWord(op, i, got, Check, true)).(wb := Written(m, op, i + 1))
  {
    PageMakesAddress(op.Word(i));
  }

  lemma StepStoreKeeps(s: State, t: nat, m0: Memory)
    requires Inv(s, m0) && s.Of(t).OneWord? && s.Of(t).i < s.Of(t).op.Count() && s.Of(t).stage == Access
    requires s.Of(t).op.IsWrite() && !s.Of(t).readBack
    ensures var OneWord(op, i, got, stage, readBack) := s.Of(t); Inv(StepWord(s, t, op, i, got, stage, readBack), m0)
  {
    var OneWord(op, i, got, stage, readBack) := s.Of(t);
    var m := Replay(m0, s.history);
    About(s, m0, t);
    StoreStepIs(s, t, op, i, got, m);
    StepKept(s, s.Now(t, OneWord(op, i, got, Check, true)).(wb := Written(m, op, i + 1)), t, m0);
  }

  /** The read-back that flushes a store changes nothing. */
  lemma StepReadBackKeeps(s: State, t: nat, m0: Memory)
    requires Inv(s, m0) && s.Of(t).OneWord? && s.Of(t).i < s.Of(t).op.Count() && s.Of(t).stage == Access
    requires s.Of(t).op.IsWrite() && s.Of(t).readBack
    ensures var OneWord(op, i, got, stage, readBack) := s.Of(t); Inv(StepWord(s, t, op, i, got, stage, readBack), m0)
  {
    var OneWord(op, i, got, stage, readBack) := s.Of(t);
    About(s, m0, t);
    ReadsLeaveMemory(Replay(m0, s.history), op, i + 1);
    StepKept(s, StepWord(s, t, op, i, got, stage, readBack), t, m0);
  }

  lemma StepUnlockKeeps(s: State, t: nat, m0: Memory)
    requires Inv(s, m0) && s.Of(t).OneWord? && s.Of(t).i < s.Of(t).op.Count() && s.Of(t).stage == Unlock
    ensures var OneWord(op, i, got, stage, readBack) := s.Of(t); Inv(StepWord(s, t, op, i, got, stage, readBack), m0)
  {
    var OneWord(op, i, got, stage, readBack) := s.Of(t);
    var s' := StepWord(s, t, op, i, got, stage, readBack);
    About(s, m0, t);
    if op.IsScalar() {
      FinishKept(s, s', t, op, got, m0);
    } else {
      StepKept(s, s', t, m0);
    }
  }

  lemma StepSdramPageKeeps(s: State, t: nat, m0: Memory)
    requires Inv(s, m0) && s.Of(t).SdramLoop? && s.Of(t).i < s.Of(t).op.Count() && !s.Of(t).mapped
    ensures var SdramLoop(op, i, got, mapped) := s.Of(t); Inv(StepSdram(s, t, op, i, got, mapped), m0)
  {
    var SdramLoop(op, i, got, mapped) := s.Of(t);
    About(s, m0, t);
    StepKept(s, StepSdram(s, t, op, i, got, mapped), t, m0);
  }

  lemma StepSdramReadKeeps(s: State, t: nat, m0: Memory)
    requires Inv(s, m0) && s.Of(t).SdramLoop? && s.Of(t).i < s.Of(t).op.Count() && s.Of(t).mapped
    ensures var SdramLoop(op, i, got, mapped) := s.Of(t); Inv(StepSdram(s, t, op, i, got, mapped), m0)
  {
    var SdramLoop(op, i, got, mapped) := s.Of(t);
    About(s, m0, t);
    NextSdramWord(op, i);
    SdramThreadOk(s, t, op, i, got, Replay(m0, s.history));
    StepKept(s, StepSdram(s, t, op, i, got, mapped), t, m0);
  }

  /** With its page selected, the read finds the word it asked for. */
  lemma SdramStepIs(s: State, t: nat, op: Op, i: nat, got: seq<Word>)
    requires op.Valid() && op.SdramRead? && i < op.Count() && s.sdramPage == S.PageNumber(op.Word(i))
    ensures StepSdram(s, t, op, i, got, true)
            == s.Now(t, SdramLoop(op, i + 1, got + [At(s.sdram, op.Word(i))], op.Word(i + 1) % S.PAGE_SIZE != 0))
  {
    NextSdramWord(op, i);
  }

  lemma SdramThreadOk(s: State, t: nat, op: Op, i: nat, got: seq<Word>, m: Memory)
    requires op.Valid() && op.SdramRead? && i < op.Count() && got == ReadFrom(s.sdram, op, i)
    requires s.sdramPage == S.PageNumber(op.Word(i))
    ensures var s' := StepSdram(s, t, op, i, got, true); s'.Of(t).SdramLoop? && ThreadOk(s', m, s'.Of(t))
  {
    SdramStepIs(s, t, op, i, got);
    NextSdramWord(op, i);
    OneMoreWord(s.sdram, op, i);
  }

  lemma OneMoreWord(m: Memory, op: Op, i: nat)
    requires !op.IsWrite()
    ensures ReadFrom(m, op, i + 1) == ReadFrom(m, op, i) + [At(m, op.Word(i))]
  {
  }

  lemma NextSdramWord(op: Op, i: nat)
    requires op.Valid() && op.SdramRead? && i < op.Count()
    ensures S.PageNumber(op.Word(i)) * S.PAGE_SIZE + op.Word(i) % S.PAGE_SIZE == op.Word(i)
    ensures op.Word(i + 1) % S.PAGE_SIZE != 0 ==> S.PageNumber(op.Word(i + 1)) == S.PageNumber(op.Word(i))
  {
    SdramPageMakesAddress(op.Word(i));
    WordAligned(op.addr, i);
    SamePageUntilBoundary(op.Word(i));
  }

  lemma WordAligned(addr: nat, i: nat)
    requires addr % 4 == 0
    ensures (addr + 4 * i) % 4 == 0
  {
    DivModUnique(addr + 4 * i, 4, addr / 4 + i, 0);
  }

  lemma StepSdramLeaveKeeps(s: State, t: nat, m0: Memory)
    requires Inv(s, m0) && s.Of(t).SdramLoop? && s.Of(t).i >= s.Of(t).op.Count()
    ensures var SdramLoop(op, i, got, mapped) := s.Of(t); Inv(StepSdram(s, t, op, i, got, mapped), m0)
  {
    var SdramLoop(op, i, got, mapped) := s.Of(t);
    About(s, m0, t);
    ReadsLeaveMemory(Replay(m0, s.history), op, op.Count());
    FinishKept(s, StepSdram(s, t, op, i, got, mapped), t, op, got, m0);
  }

  lemma SamePageUntilBoundary(addr: nat)
    requires addr % 4 == 0
    ensures (addr + 4) % S.PAGE_SIZE != 0 ==> S.PageNumber(addr + 4) == S.PageNumber(addr)
  {
    var q, r := addr / S.PAGE_SIZE, addr % S.PAGE_SIZE;
    DivModUnique(addr, 4, q * 0x4_0000 + r / 4, r % 4);
    if r + 4 < S.PAGE_SIZE {
      DivModUnique(addr + 4, S.PAGE_SIZE, q, r + 4);
    } else {
      DivModUnique(addr + 4, S.PAGE_SIZE, q + 1, 0);
    }
  }

  lemma StepIdleKeeps(s: State, t: nat, op: Op, m0: Memory)
    requires Inv(s, m0) && s.Of(t).Idle? && op.Valid()
    ensures Inv(s.Now(t, Begin(op)), m0)
  {
    About(s, m0, t);
    StepKept(s, s.Now(t, Begin(op)), t, m0);
  }

  lemma StepLoopKeeps(s: State, t: nat, op: Op, m0: Memory)
    requires Inv(s, m0) && s.Of(t).Loop?
    ensures Inv(Step(s, t, op), m0)
  {
    About(s, m0, t);
    StepKept(s, Step(s, t, op), t, m0);
  }

  lemma StepLeaveKeeps(s: State, t: nat, op: Op, m0: Memory)
    requires Inv(s, m0) && s.Of(t).Leave?
    ensures Inv(Step(s, t, op), m0)
  {
    About(s, m0, t);
    FinishKept(s, Step(s, t, op), t, s.Of(t).op, s.Of(t).got, m0);
  }

  lemma StepSdramEnterKeeps(s: State, t: nat, m0: Memory)
    requires Inv(s, m0) && s.Of(t).SdramEnter?
    ensures Inv(StepSdramEnter(s, t, s.Of(t).op), m0)
  {
    About(s, m0, t);
    if Acquire(s.lock2, t).Some? {
      StepKept(s, StepSdramEnter(s, t, s.Of(t).op), t, m0);
    }
  }

  /** Every step of every thread keeps the invariant. */
  lemma StepKeepsInv(s: State, t: nat, op: Op, m0: Memory)
    requires Inv(s, m0)
    ensures Inv(Step(s, t, op), m0)
  {
    match s.Of(t)
    case Idle => if op.Valid() { StepIdleKeeps(s, t, op, m0); }
    case Enter(o) => StepEnterKeeps(s, t, m0);
    case Loop(o, i, got) => StepLoopKeeps(s, t, op, m0);
    case OneWord(o, i, got, stage, readBack) => if i < o.Count() { StepWordKeeps(s, t, m0); }
    case Leave(o, got) => StepLeaveKeeps(s, t, op, m0);
    case SdramEnter(o) => StepSdramEnterKeeps(s, t, m0);
    case SdramLoop(o, i, got, mapped) =>
      if i < o.Count() {
        if mapped {
          StepSdramReadKeeps(s, t, m0);
        } else {
          StepSdramPageKeeps(s, t, m0);
        }
      } else {
        StepSdramLeaveKeeps(s, t, m0);
      }
  }

  lemma StepWordKeeps(s: State, t: nat, m0: Memory)
    requires Inv(s, m0) && s.Of(t).OneWord? && s.Of(t).i < s.Of(t).op.Count()
    ensures var OneWord(op, i, got, stage, readBack) := s.Of(t); Inv(StepWord(s, t, op, i, got, stage, readBack), m0)
  {
    match s.Of(t).stage
    case Lock => StepLockKeeps(s, t, m0);
    case Access =>
      if !s.Of(t).op.IsWrite() {
        StepLoadKeeps(s, t, m0);
      } else if s.Of(t).readBack {
        StepReadBackKeeps(s, t, m0);
      } else {
        StepStoreKeeps(s, t, m0);
      }
    case Unlock => StepUnlockKeeps(s, t, m0);
    case _ => StepPageKeeps(s, t, m0);
  }

  /** In every state of every run. */
  lemma {:induction false} RunKeepsInv(s: State, schedule: seq<(nat, Op)>)
    requires Initial(s)
    ensures Inv(Run(s, schedule), s.wb)
    decreases |schedule|
  {
    if schedule != [] {
      var last := |schedule| - 1;
      RunKeepsInv(s, schedule[..last]);
      StepKeepsInv(Run(s, schedule[..last]), schedule[last].0, schedule[last].1, s.wb);
    }
  }

  // ----- what the invariant gives

  /** No other thread can disturb an access: it reaches the bus word it was asked for. */
  lemma AccessHitsRequest(s: State, schedule: seq<(nat, Op)>, t: nat)
    requires Initial(s)
    ensures var now := Run(s, schedule);
            now.Of(t).OneWord? && now.Of(t).stage == Access ==>
              BusAddress(now.wbPage, Bar4Offset(now.Of(t).op.Word(now.Of(t).i))) == now.Of(t).op.Word(now.Of(t).i)
    ensures var now := Run(s, schedule);
            now.Of(t).SdramLoop? && now.Of(t).mapped && now.Of(t).i < now.Of(t).op.Count() ==>
              var addr := now.Of(t).op.Word(now.Of(t).i);
              now.sdramPage * S.PAGE_SIZE + addr % S.PAGE_SIZE == addr
  {
    RunKeepsInv(s, schedule);
    var now := Run(s, schedule);
    About(now, s.wb, t);
    if now.Of(t).OneWord? {
      PageMakesAddress(now.Of(t).op.Word(now.Of(t).i));
    }
    if now.Of(t).SdramLoop? && now.Of(t).i < now.Of(t).op.Count() {
      SdramPageMakesAddress(now.Of(t).op.Word(now.Of(t).i));
    }
  }

  /** While nobody holds the lock, the cache is the page register or still the initial mark. */
  lemma CacheAgreesWhenFree(s: State, schedule: seq<(nat, Op)>)
    requires Initial(s)
    ensures var now := Run(s, schedule); now.lock4.Free? ==> now.cache == NO_PAGE || now.cache == now.wbPage
  {
    RunKeepsInv(s, schedule);
  }

  /** Nothing writes the SDRAM. */
  lemma {:induction false} SdramStays(s: State, schedule: seq<(nat, Op)>)
    ensures Run(s, schedule).sdram == s.sdram
    decreases |schedule|
  {
    if schedule != [] {
      var last := |schedule| - 1;
      SdramStays(s, schedule[..last]);
      StepLeavesSdram(Run(s, schedule[..last]), schedule[last].0, schedule[last].1);
    }
  }

  lemma StepLeavesSdram(s: State, t: nat, op: Op)
    ensures Step(s, t, op).sdram == s.sdram
  {
  }

  /**
   Any interleaving is equivalent to running the finished calls whole, one after the other, from the
   memory of the start: there are memories between the calls such that each call returned the words
   of the one before it and made the one after it, and the last is the bus memory whenever the lock
   is free.
   */
  lemma InterleavingsAreSerial(s: State, schedule: seq<(nat, Op)>)
    requires Initial(s)
    ensures var now := Run(s, schedule);
            exists memories ::
              && SerialRun(memories, s.sdram, now.history)
              && memories[0] == s.wb && (now.lock4.Free? ==> memories[|now.history|] == now.wb)
  {
    SdramStays(s, schedule);
    RunKeepsInv(s, schedule);
    var now := Run(s, schedule);
    ReplayIsSerialRun(s.wb, s.sdram, now.history);
    assert now.history[..|now.history|] == now.history;
    assert SerialRun(Memories(s.wb, now.history), s.sdram, now.history);
  }

  // ----- what is called is what is done

  /** Which calls a thread may make. */
  lemma ValidIff(addr: nat, value: Word, src: seq<Word>, count: nat)
    ensures Read(addr).Valid() == Write(addr, value).Valid() == (addr < 0x1_0000_0000)
    ensures ReadV(addr, count).Valid() ==
            (addr % 4 == 0 && (count == 0 || addr + 4 * count < 0x1_0000_0004))
    ensures WriteV(addr, src).Valid() == (src == [] || addr + 4 * |src| < 0x1_0000_0004)
    ensures SdramRead(addr, count).Valid() ==
            (addr % 4 == 0 && (count == 0 || addr + 4 * count < 0x10_0000_0000_0004))
  {
  }

  /** The calls `t` makes: those the schedule asks of it while it is idle */
  function Called(s: State, schedule: seq<(nat, Op)>, t: nat): seq<Op>
    decreases |schedule|
  {
    if schedule == [] then []
    else
      var last := |schedule| - 1;
      var (u, op) := schedule[last];
      Called(s, schedule[..last], t)
      + if u == t && op.Valid() && Run(s, schedule[..last]).Of(t).Idle? then [op] else []
  }

  /** The calls `t` has finished */
  function Finished(history: seq<Event>, t: nat): seq<Op> {
    if history == [] then []
    else
      var last := |history| - 1;
      Finished(history[..last], t) + if history[last].thread == t then [history[last].op] else []
  }

  function Current(th: Thread): seq<Op> { if th.Idle? then [] else [th.op] }

  /** Each thread's calls are finished in the order it made them, with nothing lost, changed or done twice. */
  lemma {:induction false} CallsAreDone(s: State, schedule: seq<(nat, Op)>, t: nat)
    requires Initial(s)
    ensures var now := Run(s, schedule);
            Called(s, schedule, t) == Finished(now.history, t) + Current(now.Of(t))
    decreases |schedule|
  {
    if schedule != [] {
      var last := |schedule| - 1;
      var (u, op) := schedule[last];
      CallsAreDone(s, schedule[..last], t);
      StepDoesCalls(Run(s, schedule[..last]), u, op, t);
    }
  }

  lemma StepDoesCalls(s: State, u: nat, op: Op, t: nat)
    ensures var s' := Step(s, u, op);
            Finished(s'.history, t) + Current(s'.Of(t))
            == Finished(s.history, t) + Current(s.Of(t))
               + if u == t && op.Valid() && s.Of(t).Idle? then [op] else []
  {
    var s' := Step(s, u, op);
    OnlyOneMoves(s, u, op, t);
    StepKeepsCall(s, u, op);
    if s'.history != s.history {
      var e := s'.history[|s.history|];
      assert s'.history[..|s.history|] == s.history;
      assert Finished(s'.history, t) == Finished(s.history, t) + if e.thread == t then [e.op] else [];
    }
  }

  lemma OnlyOneMoves(s: State, u: nat, op: Op, t: nat)
    ensures t != u ==> Step(s, u, op).Of(t) == s.Of(t)
  {
  }

  /** Thread `u` is still inside `op`, or has just finished it. */
  predicate Goes(s: State, s': State, u: nat, op: Op) {
    || (s'.history == s.history && Current(s'.Of(u)) == [op])
    || (s'.Of(u).Idle? && |s'.history| == |s.history| + 1 && s'.history[..|s.history|] == s.history
        && s'.history[|s.history|].thread == u && s'.history[|s.history|].op == op)
  }

  /** A step begins a call, or goes on with the one the thread is in. */
  lemma StepKeepsCall(s: State, u: nat, op: Op)
    ensures var s', th := Step(s, u, op), s.Of(u);
            if th.Idle? then s'.history == s.history && Current(s'.Of(u)) == if op.Valid() then [op] else []
            else Goes(s, s', u, th.op)
  {
    match s.Of(u)
    case OneWord(o, i, got, stage, readBack) =>
      if i < o.Count() { WordKeepsCall(s, u, o, i, got, stage, readBack); }
    case SdramLoop(o, i, got, mapped) =>
      assert Goes(s, StepSdram(s, u, o, i, got, mapped), u, o);
    case _ =>
  }

  lemma WordKeepsCall(s: State, u: nat, op: Op, i: nat, got: seq<Word>, stage: Stage, readBack: bool)
    requires s.Of(u) == OneWord(op, i, got, stage, readBack) && i < op.Count()
    ensures Goes(s, StepWord(s, u, op, i, got, stage, readBack), u, op)
  {
  }

  /** Locks balance: when no thread is inside a call, both are free. */
  lemma LocksBalance(s: State, schedule: seq<(nat, Op)>)
    requires Initial(s)
    requires forall t: nat :: Run(s, schedule).Of(t).Idle?
    ensures Run(s, schedule).lock4 == Free && Run(s, schedule).lock2 == Free
  {
    RunKeepsInv(s, schedule);
    var now := Run(s, schedule);
    if now.lock4.Held? {
      About(now, s.wb, now.lock4.owner);
    }
    if now.lock2.Held? {
      About(now, s.wb, now.lock2.owner);
    }
  }

  /** A lock's owner is never the one waiting, so whenever some thread is inside a call, some thread can go on. */
  lemma NoDeadlock(s: State, schedule: seq<(nat, Op)>, t: nat, op: Op)
    requires Initial(s)
    requires !Run(s, schedule).Of(t).Idle?
    ensures exists u: nat :: !Run(s, schedule).Of(u).Idle? && Step(Run(s, schedule), u, op) != Run(s, schedule)
  {
    RunKeepsInv(s, schedule);
    var now := Run(s, schedule);
    var waits := Depth4(now.Of(t)) == 0 && !now.Of(t).SdramEnter? && !now.Of(t).SdramLoop?;
    var u := if waits && now.lock4.Held? then now.lock4.owner
             else if now.Of(t).SdramEnter? && now.lock2.Held? then now.lock2.owner
             else t;
    About(now, s.wb, t);
    About(now, s.wb, u);
    OwnerMoves(now, u, op, s.wb);
  }

  /** A thread that does not have to wait changes its program point. */
  lemma OwnerMoves(s: State, u: nat, op: Op, m0: Memory)
    requires Inv(s, m0) && !s.Of(u).Idle?
    requires s.lock4.Free? || 0 < Depth4(s.Of(u)) || s.Of(u).SdramEnter? || s.Of(u).SdramLoop?
    requires s.lock2.Free? || 0 < Depth2(s.Of(u)) || !s.Of(u).SdramEnter?
    ensures Step(s, u, op) != s
  {
    About(s, m0, u);
    if s.Of(u).OneWord? {
      WordMoves(s, u, op);
    } else {
      assert Step(s, u, op).Of(u) != s.Of(u);
    }
  }

  lemma WordMoves(s: State, u: nat, op: Op)
    requires s.Of(u).OneWord? && s.Of(u).i < s.Of(u).op.Count()
    requires s.Of(u).stage == Lock ==> Acquire(s.lock4, u).Some?
    ensures Step(s, u, op) != s
  {
    assert Step(s, u, op).Of(u) != s.Of(u);
  }

  // ----- calls end

  /** A bound on the steps a thread still makes in its call */
  function Left(th: Thread): int {
    match th
    case Idle => 0
    case Enter(op) => 12 * op.Count() + 3
    case Loop(op, i, _) => 12 * (op.Count() - i) + 2
    case OneWord(op, i, _, stage, readBack) => 12 * (op.Count() - i) - StagesBefore(stage, readBack)
    case Leave(_, _) => 1
    case SdramEnter(op) => 2 * op.Count() + 3
    case SdramLoop(op, i, _, mapped) => 2 * (op.Count() - i) + if mapped then 1 else 2
  }

  function StagesBefore(stage: Stage, readBack: bool): nat {
    match stage
    case Lock => 0
    case Check => if readBack then 5 else 1
    case SetPage => if readBack then 6 else 2
    case SetCache => if readBack then 7 else 3
    case Access => if readBack then 8 else 4
    case Unlock => 9
  }

  /** Whatever other threads do, a thread ends its call after a number of own steps fixed by its count. */
  lemma CallsEnd(s: State, schedule: seq<(nat, Op)>, u: nat, op: Op)
    requires Initial(s)
    ensures var now := Run(s, schedule);
            !now.Of(u).Idle? ==>
              && 0 < Left(now.Of(u)) <= 12 * now.Of(u).op.Count() + 3
              && (Step(now, u, op) != now ==> Left(Step(now, u, op).Of(u)) < Left(now.Of(u)))
  {
    RunKeepsInv(s, schedule);
    var now := Run(s, schedule);
    About(now, s.wb, u);
    if now.Of(u).OneWord? {
      var OneWord(o, i, got, stage, readBack) := now.Of(u);
      WordEnds(now, u, o, i, got, stage, readBack);
    } else if !now.Of(u).Idle? {
      OthersEnd(now, u, op);
    }
  }

  lemma WordEnds(s: State, u: nat, op: Op, i: nat, got: seq<Word>, stage: Stage, readBack: bool)
    requires s.Of(u) == OneWord(op, i, got, stage, readBack) && i < op.Count() && (readBack ==> op.IsWrite())
    ensures var s' := StepWord(s, u, op, i, got, stage, readBack); s' == s || Left(s'.Of(u)) < Left(s.Of(u))
  {
  }

  lemma OthersEnd(s: State, u: nat, op: Op)
    requires !s.Of(u).Idle? && !s.Of(u).OneWord?
    requires s.Of(u).Loop? || s.Of(u).SdramLoop? ==> s.Of(u).i <= s.Of(u).op.Count()
    ensures Step(s, u, op) == s || Left(Step(s, u, op).Of(u)) < Left(s.Of(u))
  {
  }
}
