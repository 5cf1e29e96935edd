/**
 Paged reads of the board's SDRAM (`bar2_read_v` in `util/pcie.c`).

 BAR2 is a window of one page; a register in BAR0 selects which page of the SDRAM it shows.
 */
module Sdram {
  import opened Words

  /** `PCIE_SDRAM_PG_SIZE`, also the size of BAR2 */
  const PAGE_SIZE: nat := 0x10_0000

  /** Words copied by one round of the vector loop */
  const BLOCK: nat := 1024

  /** `size_t` */
  type Size = x: int | 0 <= x < 0x1_0000_0000_0000_0000

  /** Address arithmetic wraps around. */
  function Wrap(a: int): Size { a % 0x1_0000_0000_0000_0000 }

  lemma WrapTwice(addr: Size, a: nat, b: nat)
    ensures Wrap(Wrap(addr + a) + b) == Wrap(addr + (a + b))
  {
    var n := 0x1_0000_0000_0000_0000;
    var x := addr + a;
    var y := x % n + b;
    DivModUnique(x + b, n, x / n + y / n, y % n);
  }

  function PageOffset(addr: nat): nat { addr % PAGE_SIZE }

  /** The page number is passed on as an `int` and stored in a 32-bit register. */
  function PageNumber(addr: nat): Word { addr / PAGE_SIZE % 0x1_0000_0000 }

  /** `__m128i` */
  datatype Vector = Vector(w0: Word, w1: Word, w2: Word, w3: Word)

  /** `Fault` is a misaligned vector store; `AssertionFailed` is the check that only whole words were asked for. */
  datatype Outcome = Done | Fault | AssertionFailed

  /** The SDRAM word that address `addr` names: 2^32 pages of 2^18 words. */
  function FlatIndex(addr: Size): nat {
    PageNumber(addr) * 0x4_0000 + PageOffset(addr) / 4
  }

  /** Addresses the page register can reach name their own word. */
  lemma FlatIndexIsIdentity(addr: Size)
    requires addr < 0x10_0000_0000_0000
    ensures FlatIndex(addr) == addr / 4
  {
  }

  lemma WrapAligned(addr: Size, d: nat)
    requires addr % 4 == 0 && d % 4 == 0
    ensures Wrap(addr + d) % 4 == 0
  {
    var x := addr + d;
    DivModUnique(Wrap(x), 4, addr / 4 + d / 4 - x / 0x1_0000_0000_0000_0000 * 0x4000_0000_0000_0000, 0);
  }

  /** Within a page only the offset moves. */
  lemma WrapInPage(addr: Size, d: nat)
    requires PageOffset(addr) + d < PAGE_SIZE
    ensures PageOffset(Wrap(addr + d)) == PageOffset(addr) + d
    ensures PageNumber(Wrap(addr + d)) == PageNumber(addr)
  {
    var q, r := addr / PAGE_SIZE, addr % PAGE_SIZE;
    assert q < 0x1000_0000_0000;
    assert Wrap(addr + d) == addr + d;
    DivModUnique(addr + d, PAGE_SIZE, q, r + d);
  }

  lemma FlatIndexInPage(addr: Size, k: nat)
    requires addr % 4 == 0 && PageOffset(addr) + 4 * k < PAGE_SIZE
    ensures FlatIndex(Wrap(addr + 4 * k)) == FlatIndex(addr) + k
  {
    WrapInPage(addr, 4 * k);
    var r := PageOffset(addr);
    DivModUnique(r + 4 * k, 4, r / 4 + k, r % 4);
  }

  /** The index of the `k`-th word of a read that starts at `addr` */
  function WordOf(addr: Size, k: nat): nat {
    FlatIndex(Wrap(addr + 4 * k))
  }

  /** The indices of the words a read delivers, in order. */
  function Indices(addr: Size, count: nat): (s: seq<nat>)
    ensures |s| == count && forall k :: 0 <= k < count ==> s[k] == WordOf(addr, k)
  {
    seq(count, k requires 0 <= k => WordOf(addr, k))
  }

  /** Indices `done` to `done + words` are consecutive from `first` on. */
  ghost predicate Consecutive(indices: seq<nat>, done: nat, words: nat, first: nat)
    requires done + words <= |indices|
  {
    forall m :: done <= m < done + words ==> indices[m] == first + (m - done)
  }

  /** A pass stays inside one page, where consecutive words have consecutive indices. */
  lemma PassIsConsecutive(addr: Size, count: nat, done: nat, addrNow: Size, words: nat)
    requires addr % 4 == 0 && addrNow == Wrap(addr + 4 * done) && PageOffset(addrNow) + 4 * words <= PAGE_SIZE
    requires done + words <= count
    ensures Consecutive(Indices(addr, count), done, words, FlatIndex(addrNow))
  {
    forall m | done <= m < done + words
      ensures WordOf(addr, m) == WordOf(addr, done) + (m - done)
    {
      WordOfPass(addr, done, words, m);
    }
  }

  lemma WordOfPass(addr: Size, done: nat, words: nat, m: nat)
    requires addr % 4 == 0 && PageOffset(Wrap(addr + 4 * done)) + 4 * words <= PAGE_SIZE
    requires done <= m < done + words
    ensures WordOf(addr, m) == WordOf(addr, done) + (m - done)
  {
    var k := m - done;
    WrapTwice(addr, 4 * done, 4 * k);
    assert 4 * done + 4 * k == 4 * m;
    WrapAligned(addr, 4 * done);
    FlatIndexInPage(Wrap(addr + 4 * done), k);
  }

  /** The page register and the window keep 52 bits of an address. */
  lemma FlatWord(a: int)
    ensures FlatIndex(Wrap(a)) == a % 0x10_0000_0000_0000 / 4
  {
    var n, page := 0x10_0000_0000_0000, PAGE_SIZE;
    var w, r := Wrap(a), a % n;
    DivModUnique(a, n, a / 0x1_0000_0000_0000_0000 * 0x1000 + w / n, w % n);
    assert r == w % n;
    DivModUnique(w, page, w / n * 0x1_0000_0000 + r / page, r % page);
    DivModUnique(w / page, 0x1_0000_0000, w / n, r / page);
    DivModUnique(r, 4, r / page * 0x4_0000 + r % page / 4, r % 4);
  }

  /** Word `k` of a read is the one at its address, of which 52 bits are kept. */
  lemma IndicesAre(addr: Size, count: nat)
    ensures |Indices(addr, count)| == count
    ensures forall k :: 0 <= k < count ==> Indices(addr, count)[k] == (addr + 4 * k) % 0x10_0000_0000_0000 / 4
  {
    forall k | 0 <= k < count
      ensures Indices(addr, count)[k] == (addr + 4 * k) % 0x10_0000_0000_0000 / 4
    {
      FlatWord(addr + 4 * k);
    }
  }

  // ----- when the vector loop runs

  /** Words before the first 64-byte boundary of the window */
  function HeadWords(addrNow: nat): nat {
    if addrNow % 64 == 0 then 0 else (64 - addrNow % 64) / 4
  }

  /** A pass over `toRead` bytes reaches the vector loop. */
  predicate PassUsesVectors(addrNow: nat, toRead: nat) {
    HeadWords(addrNow) + BLOCK <= toRead / 4
  }

  function PassSize(addr: Size, n: Size): Size {
    Min(PAGE_SIZE - PageOffset(addr), n)
  }

  /** Some pass of the read reaches the vector loop. */
  predicate UsesVectors(addr: Size, n: Size)
    decreases n
  {
    n != 0 &&
    var toRead := PassSize(addr, n);
    PassUsesVectors(PageOffset(addr), toRead) || UsesVectors(Wrap(addr + toRead), n - toRead)
  }

  lemma ModShift(a: int, b: int, d: int, m: int)
    requires 0 < m && a % m == b % m
    ensures (a + d) % m == (b + d) % m
  {
    var k := a / m - b / m;
    assert a == b + k * m;
    assert a + d == ((b + d) / m + k) * m + (b + d) % m by {
      assert b + d == (b + d) / m * m + (b + d) % m;
    }
    DivModUnique(a + d, m, (b + d) / m + k, (b + d) % m);
  }

  lemma ShiftAlignment(offset: nat, k: nat, destAddr: nat)
    requires (offset + k) % 16 == 0
    ensures (destAddr + k) % 16 == 0 <==> destAddr % 16 == offset % 16
  {
    if destAddr % 16 == offset % 16 {
      ModShift(destAddr, offset, k, 16);
    }
    if (destAddr + k) % 16 == 0 {
      ModShift(destAddr + k, offset + k, 0 - k, 16);
    }
  }

  lemma RowAlignment(x: nat)
    requires x % 64 == 0
    ensures x % 16 == 0 && (x + 16) % 16 == 0 && (x + 32) % 16 == 0 && (x + 48) % 16 == 0
  {
    var q := x / 64;
    DivModUnique(x, 16, 4 * q, 0);
    DivModUnique(x + 16, 16, 4 * q + 1, 0);
    DivModUnique(x + 32, 16, 4 * q + 2, 0);
    DivModUnique(x + 48, 16, 4 * q + 3, 0);
  }

  lemma RowPlacement(x: nat, j: nat, k: nat)
    ensures (x + 4 * (j * 16 + 4 * k)) % 16 == x % 16
  {
    DivModUnique(x + 4 * (j * 16 + 4 * k), 16, x / 16 + 4 * j + k, x % 16);
  }

  lemma BlockKeepsAlignment(x: nat)
    ensures (x + 4 * BLOCK) % 16 == x % 16 && (x + 4 * BLOCK) % 64 == x % 64
  {
    DivModUnique(x + 4 * BLOCK, 16, x / 16 + 256, x % 16);
    DivModUnique(x + 4 * BLOCK, 64, x / 64 + 64, x % 64);
  }

  lemma BlockRowAlignment(x: nat, j: nat)
    requires x % 64 == 0
    ensures (x + 64 * j) % 64 == 0
  {
    DivModUnique(x + 64 * j, 64, x / 64 + j, 0);
  }

  lemma HeadEndsAligned(offset: nat)
    requires offset % 4 == 0
    ensures (offset + 4 * HeadWords(offset)) % 64 == 0
  {
    HeadIsWhole(offset);
    if offset % 64 != 0 {
      DivModUnique(offset + 4 * HeadWords(offset), 64, offset / 64 + 1, 0);
    }
  }

  lemma HeadIsWhole(offset: nat)
    requires offset % 4 == 0
    ensures 4 * HeadWords(offset) == if offset % 64 == 0 then 0 else 64 - offset % 64
  {
    var q, r := offset / 64, offset % 64;
    DivModUnique(offset, 4, 16 * q + r / 4, r % 4);
    DivModUnique(64 - r, 4, 16 - r / 4, 0);
  }

  /** When a head loop stops with a whole block left to read, the source is 64-byte aligned. */
  lemma HeadAlignment(offset: nat, i: nat, end: nat, destAddr: nat)
    requires offset % 4 == 0 && i <= HeadWords(offset) && (i == HeadWords(offset) || i == end)
    ensures i + BLOCK <= end ==> (offset + 4 * i) % 64 == 0
    ensures i + BLOCK <= end <==> HeadWords(offset) + BLOCK <= end
    ensures i + BLOCK <= end ==> ((destAddr + 4 * i) % 16 == 0 <==> destAddr % 16 == offset % 16)
  {
    HeadEndsAligned(offset);
    if i == HeadWords(offset) {
      RowAlignment(offset + 4 * i);
      ShiftAlignment(offset, 4 * i, destAddr);
    }
  }

  /** The destination and the source are equally placed within 16 bytes. */
  predicate Congruent(destAddr: nat, addr: Size) {
    destAddr % 16 == addr % 16
  }

  lemma SizeMod16(x: nat)
    ensures x % 0x1_0000_0000_0000_0000 % 16 == x % 16
  {
    var r := x % 0x1_0000_0000_0000_0000;
    var q := x / 0x1_0000_0000_0000_0000;
    DivModUnique(x, 16, q * 0x1000_0000_0000_0000 + r / 16, r % 16);
  }

  /** Going on by the same number of bytes on both sides keeps the placement. */
  lemma CongruentWrap(destAddr: nat, addr: Size, d: nat)
    ensures Congruent(destAddr + d, Wrap(addr + d)) <==> Congruent(destAddr, addr)
  {
    SizeMod16(addr + d);
    if Congruent(destAddr, addr) {
      ModShift(destAddr, addr, d, 16);
    }
    if (destAddr + d) % 16 == (addr + d) % 16 {
      ModShift(destAddr + d, addr + d, 0 - d, 16);
    }
  }

  lemma PageOffsetMod16(addr: Size)
    ensures PageOffset(addr) % 16 == addr % 16 && (addr % 4 == 0 ==> PageOffset(addr) % 4 == 0)
  {
    var q, r := addr / PAGE_SIZE, addr % PAGE_SIZE;
    DivModUnique(addr, 16, q * 0x1_0000 + r / 16, r % 16);
    DivModUnique(addr, 4, q * 0x4_0000 + r / 4, r % 4);
  }

  /** A vector store of the read is misaligned. */
  predicate Misplaced(destAddr: nat, addr: Size, n: Size) {
    !Congruent(destAddr, addr) && UsesVectors(addr, n)
  }

  /** A vector store of one pass is misaligned. */
  predicate PassMisplaced(destAddr: nat, addr: Size, toRead: nat) {
    !Congruent(destAddr, addr) && PassUsesVectors(PageOffset(addr), toRead)
  }

  /** A read is misplaced if its first pass is, or the rest of it. */
  lemma MisplacedStep(destAddr: nat, addr: Size, n: Size)
    requires 0 < n
    ensures var toRead := PassSize(addr, n);
            Misplaced(destAddr, addr, n)
            <==> PassMisplaced(destAddr, addr, toRead) || Misplaced(destAddr + toRead, Wrap(addr + toRead), n - toRead)
  {
    CongruentWrap(destAddr, addr, PassSize(addr, n));
  }

  /** A pass reads something, in whole words unless it is the last one, and stays in its page. */
  lemma PassShape(addr: Size, n: Size)
    requires addr % 4 == 0 && 0 < n
    ensures var toRead := PassSize(addr, n);
            0 < toRead <= n && (toRead % 4 == 0 || toRead == n) && PageOffset(addr) + toRead <= PAGE_SIZE
  {
    PageOffsetMod16(addr);
    var o := PageOffset(addr);
    DivModUnique(PAGE_SIZE - o, 4, 0x4_0000 - o / 4, 0);
  }

  /** What one pass of the outer loop relies on. */
  lemma PassFacts(destAddr: nat, addr: Size, n: Size)
    requires addr % 4 == 0 && 0 < n
    ensures var toRead := PassSize(addr, n);
            && 0 < toRead <= n
            && (toRead % 4 == 0 || toRead == n)
            && PageOffset(addr) + toRead <= PAGE_SIZE
            && (toRead % 4 == 0 ==> Wrap(addr + toRead) % 4 == 0)
            && (Misplaced(destAddr, addr, n) <==>
                PassMisplaced(destAddr, addr, toRead) || Misplaced(destAddr + toRead, Wrap(addr + toRead), n - toRead))
  {
    PassShape(addr, n);
    MisplacedStep(destAddr, addr, n);
    var toRead := PassSize(addr, n);
    if toRead % 4 == 0 {
      WrapAligned(addr, toRead);
    }
  }

  lemma WholeWords(n: nat, left: nat, done: nat, toRead: nat)
    requires toRead <= left && n == left + 4 * done
    ensures done + toRead / 4 <= done + left / 4 == n / 4 && n % 4 == left % 4
  {
    DivModUnique(n, 4, left / 4 + done, left % 4);
  }

  /** A build with the vector copy faults. */
  predicate Faults(sse41: bool, destAddr: nat, addr: Size, n: Size) { sse41 && Misplaced(destAddr, addr, n) }

  predicate PassFaults(sse41: bool, destAddr: nat, addr: Size, toRead: nat) {
    sse41 && PassMisplaced(destAddr, addr, toRead)
  }

  /** Where a read stands after `done` words, with `left` bytes to go. */
  ghost predicate Reached(sse41: bool, addr: Size, destAddr: nat, n: Size, left: int, addrNow: Size, done: nat) {
    && 0 <= left && n == left + 4 * done
    && addrNow == Wrap(addr + 4 * done) && addrNow % 4 == 0
    && (Faults(sse41, destAddr, addr, n) <==> Faults(sse41, destAddr + 4 * done, addrNow, left))
  }

  lemma ReadBegins(sse41: bool, addr: Size, destAddr: nat, n: Size)
    requires addr % 4 == 0
    ensures Reached(sse41, addr, destAddr, n, n, addr, 0)
  {
  }

  /** The next pass: how far it goes, and which words it reads. */
  lemma NextPassWords(addr: Size, n: Size, left: int, addrNow: Size, done: nat)
    requires addr % 4 == 0 && 0 < left && n == left + 4 * done && addrNow == Wrap(addr + 4 * done) && addrNow % 4 == 0
    ensures var toRead := PassSize(addrNow, left);
            && 0 < toRead <= left && done + toRead / 4 <= done + left / 4 == n / 4
            && Consecutive(Indices(addr, n / 4), done, toRead / 4, FlatIndex(addrNow))
  {
    PassShape(addrNow, left);
    WholeWords(n, left, done, PassSize(addrNow, left));
    PassIsConsecutive(addr, n / 4, done, addrNow, PassSize(addrNow, left) / 4);
  }

  /** The next pass: whether it faults, and where the read stands after it. */
  lemma NextPassState(sse41: bool, addr: Size, destAddr: nat, n: Size, left: int, addrNow: Size, done: nat)
    requires left != 0 && Reached(sse41, addr, destAddr, n, left, addrNow, done)
    ensures var toRead := PassSize(addrNow, left);
            var fault := PassFaults(sse41, destAddr + 4 * done, addrNow, toRead);
            && (fault ==> Faults(sse41, destAddr, addr, n))
            && (!fault && toRead % 4 == 0 ==>
                  Reached(sse41, addr, destAddr, n, left - toRead, Wrap(addrNow + toRead), done + toRead / 4))
            && (!fault && toRead % 4 != 0 ==>
                  toRead == left && n % 4 != 0 && !Faults(sse41, destAddr, addr, n))
  {
    var toRead := PassSize(addrNow, left);
    PassFacts(destAddr + 4 * done, addrNow, left);
    WholeWords(n, left, done, toRead);
    if toRead % 4 == 0 {
      if !PassFaults(sse41, destAddr + 4 * done, addrNow, toRead) {
        ReachedStep(sse41, addr, destAddr, n, left, addrNow, done, toRead / 4);
      }
    } else {
      NothingMisplaced(destAddr + 4 * done + toRead, Wrap(addrNow + toRead));
    }
  }

  /** A pass of `k` words that does not fault */
  lemma ReachedStep(sse41: bool, addr: Size, destAddr: nat, n: Size, left: int, addrNow: Size, done: nat, k: nat)
    requires Reached(sse41, addr, destAddr, n, left, addrNow, done)
    requires 4 * k <= left && Wrap(addrNow + 4 * k) % 4 == 0
    requires Faults(sse41, destAddr + 4 * done, addrNow, left)
        <==> Faults(sse41, destAddr + 4 * done + 4 * k, Wrap(addrNow + 4 * k), left - 4 * k)
    ensures Reached(sse41, addr, destAddr, n, left - 4 * k, Wrap(addrNow + 4 * k), done + k)
  {
    WrapTwice(addr, 4 * done, 4 * k);
    assert 4 * (done + k) == 4 * done + 4 * k;
  }

  lemma NothingMisplaced(destAddr: nat, addr: Size)
    ensures !Misplaced(destAddr, addr, 0)
  {
  }

  lemma ReadEnds(sse41: bool, addr: Size, destAddr: nat, n: Size, addrNow: Size, done: nat)
    requires Reached(sse41, addr, destAddr, n, 0, addrNow, done)
    ensures n % 4 == 0 && done == n / 4 && !Faults(sse41, destAddr, addr, n)
  {
  }

  lemma PassIsLong(offset: nat, toRead: nat)
    requires offset % 4 == 0
    ensures PassUsesVectors(offset, toRead) <==>
              (if offset % 64 == 0 then 0 else 64 - offset % 64) + 4096 <= toRead
  {
    HeadIsWhole(offset);
  }

  lemma UsesVectorsFromPageStart(addr: Size, n: Size)
    requires PageOffset(addr) == 0
    ensures UsesVectors(addr, n) <==> 4 * BLOCK <= n
  {
    if n < 4 * BLOCK {
      assert PassSize(addr, n) == n;
    }
  }

  /** Only the first two passes matter: the second one starts on a page, so it needs no head. */
  lemma UsesVectorsClosedForm(addr: Size, n: Size)
    requires addr % 4 == 0
    ensures UsesVectors(addr, n)
       <==> var o := addr % 0x10_0000;
            var head := if o % 64 == 0 then 0 else 64 - o % 64;
            head + 4096 <= Min(0x10_0000 - o, n) || 0x10_0000 - o + 4096 <= n
  {
    PageOffsetMod16(addr);
    PassIsLong(PageOffset(addr), PassSize(addr, n));
    var toRead := PassSize(addr, n);
    if toRead < n {
      NextPage(addr);
      UsesVectorsFromPageStart(Wrap(addr + toRead), n - toRead);
    }
  }

  lemma NextPage(addr: Size)
    ensures PageOffset(Wrap(addr + (PAGE_SIZE - PageOffset(addr)))) == 0
  {
    var q := addr / PAGE_SIZE + 1;
    var pages := 0x1000_0000_0000;
    assert addr + (PAGE_SIZE - PageOffset(addr)) == q * PAGE_SIZE;
    if q == pages {
      assert Wrap(addr + (PAGE_SIZE - PageOffset(addr))) == 0;
    }
  }

  class PcieBars {
    const sdram: nat -> Word
    const useSse41: bool
    var sdramPage: Word

    constructor (sdram: nat -> Word, useSse41: bool)
      ensures this.sdram == sdram && this.useSse41 == useSse41
    {
      this.sdram, this.useSse41 := sdram, useSse41;
    }

    /** The SDRAM word BAR2 shows at byte `offset`. */
    function WindowIndex(offset: nat): nat
      reads this`sdramPage
    {
      sdramPage * 0x4_0000 + offset / 4
    }

    /** Four consecutive SDRAM words */
    function VectorAt(word: nat): Vector {
      Vector(sdram(word), sdram(word + 1), sdram(word + 2), sdram(word + 3))
    }

    /** A 16-byte load from byte `offset` of BAR2, which shows SDRAM word `word` there; the offset must be aligned. */
    function StreamLoad(offset: nat, word: nat): Vector
      requires offset % 16 == 0
    {
      VectorAt(word)
    }

    /** The first `count` vectors hold the SDRAM words from `word` on. */
    ghost predicate Loaded(scratch: array<Vector>, count: nat, word: nat)
      requires count <= scratch.Length
      reads scratch
    {
      forall v :: 0 <= v < count ==> scratch[v] == VectorAt(word + 4 * v)
    }

    /**
     Fill the scratch buffer with a block of the window, which lies at byte `offset` and shows SDRAM
     word `word` on.
     */
    method LoadBlock(offset: nat, word: nat, scratch: array<Vector>)
      requires scratch.Length == 256 && offset % 64 == 0
      modifies scratch
      ensures Loaded(scratch, 256, word)
    {
      for j := 0 to 64
        invariant Loaded(scratch, 4 * j, word)
      {
        BlockRowAlignment(offset, j);
        LoadRow(offset + 64 * j, word, scratch, 4 * j);
      }
    }

    /** One round of the loop above: four loads into the buffer, from vector `at` on. */
    method LoadRow(offset: nat, word: nat, scratch: array<Vector>, at: nat)
      requires at + 4 <= scratch.Length && offset % 64 == 0 && Loaded(scratch, at, word)
      modifies scratch
      ensures Loaded(scratch, at + 4, word)
    {
      RowAlignment(offset);
      var first := word + 4 * at;
      var a := StreamLoad(offset, first);
      var b := StreamLoad(offset + 16, first + 4);
      var c := StreamLoad(offset + 32, first + 8);
      var d := StreamLoad(offset + 48, first + 12);
      Keep(scratch, at, word, a);
      Keep(scratch, at + 1, word, b);
      Keep(scratch, at + 2, word, c);
      Keep(scratch, at + 3, word, d);
    }

    /** `_mm_store_si128` into the scratch buffer */
    method Keep(scratch: array<Vector>, at: nat, ghost word: nat, v: Vector)
      requires at < scratch.Length && Loaded(scratch, at, word) && v == VectorAt(word + 4 * at)
      modifies scratch
      ensures Loaded(scratch, at + 1, word)
    {
      scratch[at] := v;
    }

    /** `dest[lo..hi]` holds the SDRAM words from `word` on. */
    ghost predicate Copied(dest: array<Word>, lo: nat, hi: nat, word: nat)
      requires lo <= hi <= dest.Length
      reads dest
    {
      forall x :: lo <= x < hi ==> dest[x] == sdram(word + (x - lo))
    }

    /** An aligned 16-byte store; false stands for the fault of a misaligned one. */
    method StreamStore(dest: array<Word>, x: nat, destAddr: nat, v: Vector) returns (aligned: bool)
      requires x + 4 <= dest.Length
      modifies dest
      ensures aligned <==> destAddr % 16 == 0
      ensures aligned ==> dest[x] == v.w0 && dest[x + 1] == v.w1 && dest[x + 2] == v.w2 && dest[x + 3] == v.w3
      ensures forall y :: 0 <= y < dest.Length && !(x <= y < x + 4) ==> dest[y] == old(dest[y])
    {
      if destAddr % 16 != 0 {
        return false;
      }
      dest[x], dest[x + 1], dest[x + 2], dest[x + 3] := v.w0, v.w1, v.w2, v.w3;
      return true;
    }

    /** Empty the scratch buffer into `dest` from index `x` on, which lies at memory address `destAddr`. */
    method StoreBlock(scratch: array<Vector>, ghost word: nat, dest: array<Word>, x: nat, destAddr: nat)
      returns (fault: bool)
      requires scratch.Length == 256 && Loaded(scratch, 256, word)
      requires x + BLOCK <= dest.Length
      modifies dest
      ensures fault <==> destAddr % 16 != 0
      ensures !fault ==> Copied(dest, x, x + BLOCK, word)
      ensures forall y :: 0 <= y < dest.Length && !(x <= y < x + BLOCK) ==> dest[y] == old(dest[y])
    {
      for j := 0 to 64
        invariant 0 < j ==> destAddr % 16 == 0
        invariant Loaded(scratch, 256, word)
        invariant Copied(dest, x, x + 16 * j, word)
        invariant forall y :: 0 <= y < dest.Length && !(x <= y < x + BLOCK) ==> dest[y] == old(dest[y])
      {
        fault := StoreRow(scratch, j, word, dest, x, destAddr);
        if fault {
          return;
        }
      }
      return false;
    }

    /** The four stores of one round of the loop above. */
    method StoreRow(scratch: array<Vector>, j: nat, ghost word: nat, dest: array<Word>, x: nat, destAddr: nat)
      returns (fault: bool)
      requires scratch.Length == 256 && Loaded(scratch, 256, word) && j < 64
      requires x + BLOCK <= dest.Length
      modifies dest
      ensures fault <==> destAddr % 16 != 0
      ensures !fault ==> Copied(dest, x + 16 * j, x + 16 * j + 16, word + 16 * j)
      ensures forall y :: 0 <= y < dest.Length && !(x + 16 * j <= y < x + 16 * j + 16) ==> dest[y] == old(dest[y])
    {
      for k := 0 to 4
        invariant 0 < k ==> destAddr % 16 == 0
        invariant Copied(dest, x + 16 * j, x + 16 * j + 4 * k, word + 16 * j)
        invariant forall y :: 0 <= y < dest.Length && !(x + 16 * j <= y < x + 16 * j + 16) ==> dest[y] == old(dest[y])
      {
        var base := j * 16 + 4 * k;
        assert scratch[j * 4 + k] == VectorAt(word + base);
        RowPlacement(destAddr, j, k);
        var aligned := StreamStore(dest, x + base, destAddr + 4 * base, scratch[j * 4 + k]);
        if !aligned {
          return true;
        }
      }
      return false;
    }

    /** The copy loop without vectors, from index `i` of a pass whose first SDRAM word is `word`. */
    method CopyWords(word: nat, i: nat, end: nat, dest: array<Word>, at: nat)
      requires i <= end && at + end <= dest.Length && Copied(dest, at, at + i, word)
      modifies dest
      ensures Copied(dest, at, at + end, word)
      ensures forall y :: 0 <= y < dest.Length && !(at <= y < at + end) ==> dest[y] == old(dest[y])
    {
      for m := i to end
        invariant Copied(dest, at, at + m, word)
        invariant forall y :: 0 <= y < dest.Length && !(at <= y < at + end) ==> dest[y] == old(dest[y])
      {
        dest[at + m] := sdram(word + m);
      }
    }

    /** The vector loop, from index `i` of the pass on; it returns the index it stops at. */
    method CopyBlocks(offset: nat, word: nat, i: nat, end: nat, dest: array<Word>, at: nat, destAddr: nat)
      returns (fault: bool, next: nat)
      requires i <= end && at + end <= dest.Length && Copied(dest, at, at + i, word)
      requires i + BLOCK <= end ==> (offset + 4 * i) % 64 == 0
      modifies dest
      ensures fault <==> i + BLOCK <= end && (destAddr + 4 * i) % 16 != 0
      ensures !fault ==> i <= next <= end && Copied(dest, at, at + next, word)
      ensures forall y :: 0 <= y < dest.Length && !(at <= y < at + end) ==> dest[y] == old(dest[y])
    {
      var scratch := new Vector[256](_ => Vector(0, 0, 0, 0));
      next := i;
      while next + (BLOCK - 1) < end
        invariant i <= next <= end
        invariant next + BLOCK <= end ==> (offset + 4 * next) % 64 == 0
        invariant (destAddr + 4 * next) % 16 == (destAddr + 4 * i) % 16
        invariant i < next ==> i + BLOCK <= end && (destAddr + 4 * i) % 16 == 0
        invariant Copied(dest, at, at + next, word)
        invariant forall y :: 0 <= y < dest.Length && !(at <= y < at + end) ==> dest[y] == old(dest[y])
      {
        LoadBlock(offset + 4 * next, word + next, scratch);
        fault := StoreBlock(scratch, word + next, dest, at + next, destAddr + 4 * next);
        if fault {
          return;
        }
        BlockKeepsAlignment(offset + 4 * next);
        BlockKeepsAlignment(destAddr + 4 * next);
        next := next + BLOCK;
      }
      return false, next;
    }

    /**
     One pass: head words up to a 64-byte boundary, whole blocks through the scratch buffer, the rest
     word by word.
     */
    method ReadPass(offset: nat, toRead: nat, dest: array<Word>, at: nat, destAddr: nat) returns (fault: bool)
      requires offset % 4 == 0 && at + toRead / 4 <= dest.Length
      modifies dest
      ensures fault <==> useSse41 && PassUsesVectors(offset, toRead) && destAddr % 16 != offset % 16
      ensures !fault ==> Copied(dest, at, at + toRead / 4, WindowIndex(offset))
      ensures forall y :: 0 <= y < dest.Length && !(at <= y < at + toRead / 4) ==> dest[y] == old(dest[y])
    {
      var word := WindowIndex(offset);
      var i, end := 0, toRead / 4;
      if useSse41 {
        var head := offset % 64;
        head := if head != 0 then 64 - head else 0;
        HeadIsWhole(offset);
        var j := head;
        while i < end && j != 0
          invariant 0 <= i <= end && i <= HeadWords(offset) && j == 4 * (HeadWords(offset) - i)
          invariant Copied(dest, at, at + i, word)
          invariant forall y :: 0 <= y < dest.Length && !(at <= y < at + end) ==> dest[y] == old(dest[y])
        {
          dest[at + i] := sdram(word + i);
          i, j := i + 1, j - 4;
        }
        HeadAlignment(offset, i, end, destAddr);
        fault, i := CopyBlocks(offset, word, i, end, dest, at, destAddr);
        if fault {
          return;
        }
      }
      CopyWords(word, i, end, dest, at);
      return false;
    }

    /** The first `done` words of a read whose words lie at `indices` of the flat SDRAM are in place. */
    ghost predicate Delivered(dest: array<Word>, at: nat, indices: seq<nat>, done: nat)
      requires at + done <= dest.Length && done <= |indices|
      reads dest
    {
      forall x :: at <= x < at + done ==> dest[x] == sdram(indices[x - at])
    }

    lemma PassDelivers(dest: array<Word>, at: nat, indices: seq<nat>, done: nat, words: nat, first: nat)
      requires at + done + words <= dest.Length && done + words <= |indices|
      requires Delivered(dest, at, indices, done)
      requires Consecutive(indices, done, words, first) && Copied(dest, at + done, at + done + words, first)
      ensures Delivered(dest, at, indices, done + words)
    {
    }

    /** Select the page of `addr` and read up to the end of that page or of the request, after `done` words. */
    method ReadPage(addr: Size, left: Size, dest: array<Word>, at: nat, done: nat, destAddr: nat,
        ghost indices: seq<nat>)
      returns (fault: bool, toRead: Size)
      requires addr % 4 == 0 && 0 < left && at + done + left / 4 <= dest.Length
      requires done + PassSize(addr, left) / 4 <= |indices| && Delivered(dest, at, indices, done)
      requires Consecutive(indices, done, PassSize(addr, left) / 4, FlatIndex(addr))
      modifies this`sdramPage, dest
      ensures toRead == PassSize(addr, left)
      ensures fault <==> PassFaults(useSse41, destAddr, addr, toRead)
      ensures !fault ==> Delivered(dest, at, indices, done + toRead / 4)
      ensures forall y :: 0 <= y < dest.Length && !(at + done <= y < at + done + left / 4) ==> dest[y] == old(dest[y])
    {
      var offset := PageOffset(addr);
      var canRead := PAGE_SIZE - offset;
      toRead := if canRead < left then canRead else left;
      PageOffsetMod16(addr);
      sdramPage := PageNumber(addr);
      fault := ReadPass(offset, toRead, dest, at + done, destAddr);
      if !fault {
        PassDelivers(dest, at, indices, done, toRead / 4, FlatIndex(addr));
      }
    }

    /**
     `bar2_read_v`: `n` bytes from address `addr`, into `dest` from index `at` on, which lies at
     memory address `destAddr`.
     */
    method Bar2ReadV(addr: Size, dest: array<Word>, at: nat, destAddr: nat, n: Size) returns (outcome: Outcome)
      requires addr % 4 == 0 && at + n / 4 <= dest.Length
      modifies this`sdramPage, dest
      ensures outcome == Fault <==> Faults(useSse41, destAddr, addr, n)
      ensures outcome == AssertionFailed <==> outcome != Fault && n % 4 != 0
      ensures outcome != Fault ==> Delivered(dest, at, Indices(addr, n / 4), n / 4)
      ensures forall y :: 0 <= y < dest.Length && !(at <= y < at + n / 4) ==> dest[y] == old(dest[y])
    {
      var left: int, addrNow: Size, done: nat := n, addr, 0;
      ghost var indices := Indices(addr, n / 4);
      ReadBegins(useSse41, addr, destAddr, n);
      while left != 0
        invariant Reached(useSse41, addr, destAddr, n, left, addrNow, done)
        invariant done <= n / 4 && Delivered(dest, at, indices, done)
        invariant forall y :: 0 <= y < dest.Length && !(at <= y < at + n / 4) ==> dest[y] == old(dest[y])
        decreases left
      {
        NextPassWords(addr, n, left, addrNow, done);
        NextPassState(useSse41, addr, destAddr, n, left, addrNow, done);
        var fault, toRead := ReadPage(addrNow, left, dest, at, done, destAddr + 4 * done, indices);
        if fault {
          return Fault;
        }
        left := left - toRead;
        if toRead % 4 != 0 {
          return AssertionFailed;
        }
        addrNow := Wrap(addrNow + toRead);
        done := done + toRead / 4;
      }
      ReadEnds(useSse41, addr, destAddr, n, addrNow, done);
      return Done;
    }
  }
}
