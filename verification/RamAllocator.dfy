/**
 How the acquisition RAM of each board is divided (`MemoryAllocator` in `modules/acq.cc`).
 */
module RamAllocator {
  import opened Words

  const MAX_ACQ_CORES: nat := 8
  const ACQ_RAM: nat := 0x8000_0000
  const ACQ_RAM_PER_CORE: nat := 0x1000_0000

  /** The bytes from `start` to before `end`. */
  datatype Range = Range(start: nat, end: nat)

  /** Boards are told apart by their address only. */
  type Board = nat

  function Calls(history: seq<Board>, board: Board): nat {
    if history == [] then 0
    else Calls(history[..|history| - 1], board) + if history[|history| - 1] == board then 1 else 0
  }

  /** The answer to a call for `board` after the calls in `history`. */
  function Answer(history: seq<Board>, board: Board): Option<Range> {
    var n := Calls(history, board);
    if n < 7 then Some(Range(n * ACQ_RAM_PER_CORE, (n + 1) * ACQ_RAM_PER_CORE)) else None
  }

  class MemoryAllocator {
    var counts: map<Board, nat>
    ghost var history: seq<Board>

    ghost predicate Valid()
      reads this
    {
      && (forall b :: b in counts ==> counts[b] == Calls(history, b))
      && (forall b: Board :: b !in counts ==> Calls(history, b) == 0)
    }

    constructor ()
      ensures Valid() && history == []
    {
      counts, history := map[], [];
    }

    /** `get_range`; None stands for the exception.  The count goes up before it is checked. */
    method GetRange(board: Board) returns (range: Option<Range>)
      requires Valid()
      modifies this
      ensures Valid() && history == old(history) + [board]
      ensures range == Answer(old(history), board)
    {
      var index := if board in counts then counts[board] else 0;
      counts := counts[board := index + 1];
      ghost var before := history;
      history := history + [board];
      assert history[..|history| - 1] == before;
      if counts[board] >= MAX_ACQ_CORES {
        return None;
      }
      return Some(Range(index * ACQ_RAM_PER_CORE, (index + 1) * ACQ_RAM_PER_CORE));
    }
  }

  /** The answer to the `k`-th call of a history. */
  function AnswerAt(history: seq<Board>, k: nat): Option<Range>
    requires k < |history|
  {
    Answer(history[..k], history[k])
  }

  lemma {:induction false} CallsGrow(history: seq<Board>, board: Board, j: nat, k: nat)
    requires j <= k <= |history|
    ensures Calls(history[..j], board) <= Calls(history[..k], board)
    ensures j < k && history[j] == board ==> Calls(history[..j], board) < Calls(history[..k], board)
    decreases k
  {
    if j < k {
      assert history[..k][..k - 1] == history[..k - 1];
      CallsGrow(history, board, j, k - 1);
    }
  }

  /** Ranges given for one board never overlap; each has 2^28 bytes inside the board's 2^31. */
  lemma RangesDisjoint(history: seq<Board>, j: nat, k: nat)
    requires j < k < |history| && history[j] == history[k]
    requires AnswerAt(history, j).Some? && AnswerAt(history, k).Some?
    ensures AnswerAt(history, j).value.end <= AnswerAt(history, k).value.start
    ensures forall i :: i in {j, k} ==>
                          var r := AnswerAt(history, i).value;
                          r.end - r.start == ACQ_RAM_PER_CORE && 0 <= r.start && r.end <= ACQ_RAM
  {
    CallsGrow(history, history[j], j, k);
  }

  lemma {:induction false} NoCalls(history: seq<Board>, board: Board, j: nat, k: nat)
    requires j <= k <= |history| && forall i :: j <= i < k ==> history[i] != board
    ensures Calls(history[..k], board) == Calls(history[..j], board)
    decreases k
  {
    if j < k {
      assert history[..k][..k - 1] == history[..k - 1];
      NoCalls(history, board, j, k - 1);
    }
  }

  /** The first call of a board is given the first 2^28 bytes. */
  lemma FirstRange(history: seq<Board>, k: nat)
    requires k < |history| && history[k] !in history[..k]
    ensures AnswerAt(history, k) == Some(Range(0, 0x1000_0000))
  {
    NoCalls(history, history[k], 0, k);
  }

  /** Its next call is given the next 2^28 bytes, up to the seventh; after that there is none. */
  lemma NextRange(history: seq<Board>, j: nat, k: nat)
    requires j < k < |history| && history[j] == history[k] && history[k] !in history[j + 1..k]
    ensures AnswerAt(history, k)
         == match AnswerAt(history, j)
            case None => None
            case Some(r) => if r.end < 0x7000_0000 then Some(Range(r.end, r.end + 0x1000_0000)) else None
  {
    var board := history[k];
    forall i | j + 1 <= i < k
      ensures history[i] != board
    {
      assert history[j + 1..k][i - (j + 1)] == history[i];
    }
    NoCalls(history, board, j + 1, k);
    assert history[..j + 1][..j] == history[..j];
  }

  /** How many calls for `board` were given a range. */
  function Given(history: seq<Board>, board: Board): nat {
    if history == [] then 0
    else
      var last := |history| - 1;
      Given(history[..last], board) + if history[last] == board && AnswerAt(history, last).Some? then 1 else 0
  }

  /**
   A board is given a range for each of its first seven calls and none after, although the message
   speaks of eight.
   */
  lemma {:induction false} SevenRanges(history: seq<Board>, board: Board)
    ensures Given(history, board) == if Calls(history, board) <= 7 then Calls(history, board) else 7
  {
    if history != [] {
      SevenRanges(history[..|history| - 1], board);
    }
  }
}
