/**
 Access to the Wishbone bus through BAR4 or through the serial port (`util/pcie.c`), by one thread.
 */
module Wishbone {
  import opened Words
  import C = Bar4Concurrency
  import S = SerialProtocol
  import D = SerialDevice

  class PcieBars {
    /** The board is reached through the serial port. */
    const serial: bool
    /** How often the BAR4 lock is held */
    var lockDepth: nat
    /** The page register of BAR0, and the page last written to it */
    var wbPage: Word
    var lastBar4Page: Word
    /** The device's bus memory, behind either connection */
    var wb: C.Memory
    /** The two directions of the serial port: lines sent, and the lines still to come back */
    var sent: seq<string>
    var replies: seq<string>

    constructor (serial: bool, wb: C.Memory, replies: seq<string>)
      ensures Valid() && this.serial == serial && this.wb == wb
      ensures lockDepth == 0 && sent == [] && this.replies == replies
    {
      this.serial, this.wb, this.replies := serial, wb, replies;
      lockDepth, sent, lastBar4Page := 0, [], C.NO_PAGE;
    }

    predicate Valid()
      reads this
    {
      lastBar4Page == C.NO_PAGE || lastBar4Page == wbPage
    }

    /** `bar4_access_offset`: after it, the returned offset of BAR4 is the bus word at `addr`. */
    method AccessOffset(addr: nat) returns (offset: nat)
      requires Valid() && addr < 0x1_0000_0000
      modifies this`wbPage, this`lastBar4Page
      ensures Valid() && lastBar4Page == wbPage && C.BusAddress(wbPage, offset) == addr
    {
      C.PageMakesAddress(addr);
      var page := C.WbPage(addr);
      if page != lastBar4Page {
        wbPage := page;
        lastBar4Page := page;
      }
      return C.Bar4Offset(addr);
    }

    /** `getline`; None when the port times out. */
    method GetLine() returns (line: Option<string>)
      modifies this`replies
      ensures if old(replies) == [] then line == None && replies == []
              else line == Some(old(replies)[0]) && replies == old(replies)[1..]
    {
      if replies == [] {
        return None;
      }
      line, replies := Some(replies[0]), replies[1..];
    }

    /** A write command, which the device carries out exactly if it confirms it. */
    method SendWrite(addr: nat, value: Word) returns (line: Option<string>)
      requires addr < 0x1_0000_0000
      modifies this`sent, this`replies, this`wb
      ensures sent == old(sent) + [S.WriteCommand(addr, value)]
      ensures if old(replies) == [] then line == None && replies == []
              else line == Some(old(replies)[0]) && replies == old(replies)[1..]
      ensures wb == if line.Some? && D.Confirms(line.value) then old(wb)[addr := value] else old(wb)
    {
      sent := sent + [S.WriteCommand(addr, value)];
      line := GetLine();
      if line.Some? && D.Confirms(line.value) {
        D.ExecuteWrite(wb, addr, value);
        wb := D.Execute(wb, S.WriteCommand(addr, value));
      }
    }

    /** `bar4_write`; over the serial port, an answer that is not two characters long fails an assertion. */
    method Bar4Write(addr: nat, value: Word) returns (aborted: bool)
      requires Valid() && addr < 0x1_0000_0000
      modifies this
      ensures Valid() && (!aborted ==> lockDepth == old(lockDepth))
      ensures !serial ==> !aborted && wb == old(wb)[addr := value] && sent == old(sent) && replies == old(replies)
      ensures serial ==> sent == old(sent) + [S.WriteCommand(addr, value)]
      ensures serial ==> (aborted <==> old(replies) == [] || |old(replies)[0]| != 2)
      ensures serial && !aborted ==> replies == old(replies)[1..]
      ensures serial ==> wb == if D.ConfirmAll(old(replies), 1) then old(wb)[addr := value] else old(wb)
    {
      lockDepth := lockDepth + 1;
      if serial {
        var line := SendWrite(addr, value);
        if line.None? || |line.value| != 2 {
          return true;
        }
      } else {
        var offset := AccessOffset(addr);
        wb := wb[C.BusAddress(wbPage, offset) := value];
        // the read that flushes the write selects the page once more
        offset := AccessOffset(addr);
        var _ := C.At(wb, C.BusAddress(wbPage, offset));
      }
      lockDepth := lockDepth - 1;
      return false;
    }

    /** `bar4_write_v` */
    method Bar4WriteV(addr: nat, src: seq<Word>) returns (aborted: bool)
      requires Valid() && addr + 4 * |src| <= 0x1_0000_0000
      modifies this
      ensures Valid() && (!aborted ==> lockDepth == old(lockDepth))
      ensures !serial ==> !aborted && wb == C.Written(old(wb), C.WriteV(addr, src), |src|)
      ensures !serial ==> sent == old(sent) && replies == old(replies)
      ensures serial && !aborted ==> sent == old(sent) + S.WriteCommands(addr, src, |src|)
      ensures serial && D.ConfirmAll(old(replies), |src|) ==>
                !aborted && wb == C.Written(old(wb), C.WriteV(addr, src), |src|)
    {
      lockDepth := lockDepth + 1;
      for i := 0 to |src|
        invariant Valid() && lockDepth == old(lockDepth) + 1
        invariant !serial ==> wb == C.Written(old(wb), C.WriteV(addr, src), i)
        invariant !serial ==> sent == old(sent) && replies == old(replies)
        invariant serial ==> sent == old(sent) + S.WriteCommands(addr, src, i)
        invariant serial && D.ConfirmAll(old(replies), |src|) ==>
                    replies == old(replies)[i..] && wb == C.Written(old(wb), C.WriteV(addr, src), i)
      {
        aborted := Bar4Write(addr + 4 * i, src[i]);
        if aborted {
          return;
        }
        NextWrite(addr, src, i);
      }
      lockDepth := lockDepth - 1;
      return false;
    }

    lemma NextWrite(addr: nat, src: seq<Word>, i: nat)
      requires i < |src|
      ensures S.WriteCommands(addr, src, i + 1) ==
                S.WriteCommands(addr, src, i) + [S.WriteCommand(addr + 4 * i, src[i])]
    {
    }

    /** `bar4_read`, which over the serial port is a vector read of one word */
    method Bar4Read(addr: nat) returns (value: Word, aborted: bool)
      requires Valid() && addr + 4 <= 0x1_0000_0000
      modifies this
      ensures Valid() && wb == old(wb) && (!aborted ==> lockDepth == old(lockDepth))
      ensures !serial ==> !aborted && value == C.At(wb, addr) && sent == old(sent) && replies == old(replies)
      ensures serial && addr % 4 != 0 ==> aborted
      ensures serial && !aborted ==> sent == old(sent) + S.ReadCommands(addr, 1) && S.Accepted(old(replies), 1)
      ensures serial && addr % 4 == 0 && D.AnswersAll(wb, S.ReadCommands(addr, 1), old(replies)) ==>
                !aborted && value == C.At(wb, addr)
      decreases if serial then 3 else 0
    {
      lockDepth := lockDepth + 1;
      if serial {
        var rv := new Word[1](_ => 0);
        aborted := Bar4ReadV(addr, rv, 0, 4);
        if aborted {
          return 0, true;
        }
        value := rv[0];
      } else {
        var offset := AccessOffset(addr);
        value := C.At(wb, C.BusAddress(wbPage, offset));
      }
      lockDepth := lockDepth - 1;
      return value, false;
    }

    /** `bar_generic_read_v` over `bar4_read` */
    method BarGenericReadV(addr: nat, dest: array<Word>, at: nat, n: nat) returns (aborted: bool)
      requires Valid() && !serial && addr + n <= 0x1_0000_0000 && at + n / 4 <= dest.Length
      modifies this, dest
      ensures Valid() && wb == old(wb) && lockDepth == old(lockDepth) && sent == old(sent) && replies == old(replies)
      ensures aborted <==> addr % 4 != 0 || n % 4 != 0
      ensures !aborted ==> forall x :: at <= x < at + n / 4 ==> dest[x] == C.At(wb, addr + 4 * (x - at))
      ensures forall x :: 0 <= x < dest.Length && !(at <= x < at + n / 4) ==> dest[x] == old(dest[x])
      decreases 1
    {
      if addr % 4 != 0 || n % 4 != 0 {
        return true;
      }
      for i := 0 to n / 4
        invariant Valid() && wb == old(wb) && lockDepth == old(lockDepth) && sent == old(sent) &&
                  replies == old(replies)
        invariant forall x :: at <= x < at + i ==> dest[x] == C.At(wb, addr + 4 * (x - at))
        invariant forall x :: 0 <= x < dest.Length && !(at <= x < at + n / 4) ==> dest[x] == old(dest[x])
      {
        var value, _ := Bar4Read(addr + 4 * i);
        dest[at + i] := value;
      }
      return false;
    }

    /** `uart_read_cmd`: the number of words read, a negative error, or nothing when an assertion fails. */
    method UartReadCmd(addr: nat, dest: array<Word>, at: nat, numWords: nat, ghost words: seq<Word>)
      returns (wordsRead: Option<int>)
      requires 0 < numWords <= S.MAX_WORDS && at + numWords <= dest.Length
      modifies this`sent, this`replies, dest
      ensures sent == old(sent) + [S.ReadCommand(addr, numWords)]
      ensures replies == if old(replies) == [] then [] else old(replies)[1..]
      ensures wordsRead == Some(numWords) ==>
                old(replies) != [] && 8 * numWords + 2 <= |old(replies)[0]| && old(replies)[0][0] == 'O'
      ensures |words| == numWords && old(replies) != [] && S.IsReply(old(replies)[0], words) ==>
                wordsRead == Some(numWords) && Holds(dest, at, words, numWords)
      ensures forall x :: 0 <= x < dest.Length && !(at <= x < at + numWords) ==> dest[x] == old(dest[x])
    {
      sent := sent + [S.ReadCommand(addr, numWords)];
      var line := GetLine();
      if line.None? || line.value == "" {
        return Some(-110);  // ETIMEDOUT
      }
      var text := line.value;
      if text[0] != 'O' {
        return Some(if text[0] == 'T' then -110 else -5);  // EIO
      }
      var i := 0;
      while i < (|text| - 2) / 8 && i < numWords
        invariant 0 <= i <= numWords && (0 < i ==> 8 * i + 2 <= |text|)
        invariant sent == old(sent) + [S.ReadCommand(addr, numWords)] && replies == old(replies)[1..]
        invariant |words| == numWords && S.IsReply(text, words) ==> Holds(dest, at, words, i)
        invariant forall x :: 0 <= x < dest.Length && !(at <= x < at + numWords) ==> dest[x] == old(dest[x])
      {
        var element := S.ScanHex(text[1 + 8 * i..]);
        if |words| == numWords && S.IsReply(text, words) {
          S.ReplyScans(text, words, i);
        }
        if element.None? {
          return None;
        }
        dest[at + i] := element.value;
        i := i + 1;
      }
      return Some(i);
    }

    /**
     `bar4_read_v`: the bus words of the range.  Over the serial port they are what the device answers
     to the commands sent.
     */
    method Bar4ReadV(addr: nat, dest: array<Word>, at: nat, n: nat) returns (aborted: bool)
      requires Valid() && addr + n <= 0x1_0000_0000 && at + n / 4 <= dest.Length
      modifies this, dest
      ensures Valid() && wb == old(wb) && (!aborted ==> lockDepth == old(lockDepth))
      ensures addr % 4 != 0 || n % 4 != 0 ==> aborted
      ensures !serial && addr % 4 == 0 && n % 4 == 0 ==> !aborted
      ensures !serial && !aborted ==> forall x :: at <= x < at + n / 4 ==> dest[x] == C.At(wb, addr + 4 * (x - at))
      ensures !serial ==> sent == old(sent) && replies == old(replies)
      ensures serial && !aborted ==> sent == old(sent) + S.ReadCommands(addr, n / 4) && S.Accepted(old(replies), n / 4)
      ensures serial && addr % 4 == 0 && n % 4 == 0 && D.AnswersAll(wb, S.ReadCommands(addr, n / 4), old(replies)) ==>
                !aborted && forall x :: at <= x < at + n / 4 ==> dest[x] == C.At(wb, addr + 4 * (x - at))
      ensures forall x :: 0 <= x < dest.Length && !(at <= x < at + n / 4) ==> dest[x] == old(dest[x])
      decreases 2
    {
      lockDepth := lockDepth + 1;
      if serial {
        if addr % 4 != 0 || n % 4 != 0 {
          return true;
        }
        aborted := SerialRead(addr, dest, at, n / 4);
      } else {
        aborted := BarGenericReadV(addr, dest, at, n);
      }
      if aborted {
        return;
      }
      lockDepth := lockDepth - 1;
    }

    /** `bar4_read_v` over the serial port */
    method SerialRead(addr: nat, dest: array<Word>, at: nat, count: nat) returns (aborted: bool)
      requires serial && addr + 4 * count <= 0x1_0000_0000 && at + count <= dest.Length
      modifies this`sent, this`replies, dest
      ensures !aborted ==> sent == old(sent) + S.ReadCommands(addr, count) && S.Accepted(old(replies), count)
      ensures D.AnswersAll(wb, S.ReadCommands(addr, count), old(replies)) ==>
                !aborted && forall x :: at <= x < at + count ==> dest[x] == C.At(wb, addr + 4 * (x - at))
      ensures forall x :: 0 <= x < dest.Length && !(at <= x < at + count) ==> dest[x] == old(dest[x])
    {
      ghost var words := D.WordsAt(wb, addr, count);
      if D.AnswersAll(wb, S.ReadCommands(addr, count), replies) {
        D.AnswersCarryRange(wb, addr, count, replies);
      }
      aborted := ReadChunks(addr, dest, at, count, words);
    }

    /** The loop of `bar4_read_v` over the serial port; `words` are what well-formed replies would carry. */
    method ReadChunks(addr: nat, dest: array<Word>, at: nat, count: nat, ghost words: seq<Word>) returns (aborted: bool)
      requires serial && at + count <= dest.Length && |words| == count
      modifies this`sent, this`replies, dest
      ensures !aborted ==> sent == old(sent) + S.ReadCommands(addr, count) && S.Accepted(old(replies), count)
      ensures S.AreReplies(old(replies), words) ==> !aborted && Holds(dest, at, words, count)
      ensures forall x :: 0 <= x < dest.Length && !(at <= x < at + count) ==> dest[x] == old(dest[x])
    {
      var left: int, done: nat, addrNow: nat := count, 0, addr;
      ghost var all := sent + S.ReadCommands(addr, count);
      ghost var fits, accepted := S.AreReplies(replies, words), S.Accepted(replies, count);
      ChunksBegin(dest, at, words, done, addr, all, fits);
      while left > 0
        invariant 0 <= left && done + left == count && Chunks(dest, at, words, done, left, addrNow, all, fits)
        invariant Rest(left, accepted)
        invariant forall x :: 0 <= x < dest.Length && !(at <= x < at + count) ==> dest[x] == old(dest[x])
      {
        var toRead;
        aborted, toRead := ReadChunk(addrNow, dest, at, done, left, words, fits, all, accepted);
        if aborted {
          return;
        }
        left := left - toRead;
        addrNow := addrNow + toRead * 4;
        done := done + toRead;
      }
      ChunksEnd(dest, at, words, done, left, addrNow, all, fits, accepted);
      return false;
    }

    /** `accepted` holds if the replies still to come accept the commands for the words still to be read. */
    predicate Rest(left: nat, accepted: bool)
      reads this`replies
    {
      S.Accepted(replies, left) ==> accepted
    }

    /** The words before `done` have arrived, and the replies with the others are still to come. */
    ghost predicate Pending(dest: array<Word>, at: nat, words: seq<Word>, done: nat)
      reads this`replies, dest
    {
      done <= |words| && S.AreReplies(replies, words[done..]) && Holds(dest, at, words[..done], done)
    }

    /** The state of the loop: `all` is what it sends altogether, `fits` says that the replies are well formed. */
    ghost predicate Chunks(dest: array<Word>, at: nat, words: seq<Word>, done: nat, left: int, addrNow: nat,
                           all: seq<string>, fits: bool)
      reads this`sent, this`replies, dest
    {
      0 <= left && all == sent + S.ReadCommands(addrNow, left) && (fits ==> Pending(dest, at, words, done))
    }

    lemma ChunksBegin(dest: array<Word>, at: nat, words: seq<Word>, none: nat, addr: nat, all: seq<string>, fits: bool)
      requires none == 0 && at <= dest.Length && all == sent + S.ReadCommands(addr, |words|)
      requires fits ==> S.AreReplies(replies, words)
      ensures Chunks(dest, at, words, none, |words|, addr, all, fits)
    {
      assert words[..none] == [] && words[none..] == words;
    }

    lemma ChunksEnd(dest: array<Word>, at: nat, words: seq<Word>, done: nat, left: int, addrNow: nat,
                    all: seq<string>, fits: bool, accepted: bool)
      requires Chunks(dest, at, words, done, left, addrNow, all, fits) && left == 0 && done == |words|
      requires Rest(left, accepted)
      ensures sent == all && accepted && (fits ==> Holds(dest, at, words, |words|))
    {
      assert words[..done] == words;
    }

    /** The body of the loop above, after `done` words. */
    method ReadChunk(addr: nat, dest: array<Word>, at: nat, done: nat, left: nat,
                     ghost words: seq<Word>, ghost fits: bool, ghost all: seq<string>, ghost accepted: bool)
      returns (aborted: bool, toRead: nat)
      requires 0 < left && |words| == done + left && at + |words| <= dest.Length
      requires Chunks(dest, at, words, done, left, addr, all, fits) && Rest(left, accepted)
      modifies this`sent, this`replies, dest
      ensures 0 < toRead <= left && (fits ==> !aborted)
      ensures Chunks(dest, at, words, done + toRead, left - toRead, addr + toRead * 4, all, fits)
      ensures !aborted ==> Rest(left - toRead, accepted)
      ensures forall x :: 0 <= x < dest.Length && !(at + done <= x < at + |words|) ==> dest[x] == old(dest[x])
    {
      if left > S.MAX_WORDS {
        toRead := S.MAX_WORDS;
      } else {
        toRead := left;
      }
      ghost var read, chunk, before := words[..done], words[done..done + toRead], sent;
      if fits {
        NextReply(replies, words, done, toRead);
      }
      aborted := AppendChunk(addr, dest, at, toRead, done, read, chunk, fits);
      NextCommand(before, sent, addr, toRead, left - toRead);
    }

    /** A command whose reply, if it is well formed, carries `chunk`. */
    method AppendChunk(addr: nat, dest: array<Word>, at: nat, toRead: nat, done: nat,
                       ghost read: seq<Word>, ghost chunk: seq<Word>, ghost fits: bool)
      returns (aborted: bool)
      requires 0 < toRead <= S.MAX_WORDS && at + done + toRead <= dest.Length && |read| == done && |chunk| == toRead
      requires fits ==> Holds(dest, at, read, done) && replies != [] && S.IsReply(replies[0], chunk)
      modifies this`sent, this`replies, dest
      ensures sent == old(sent) + [S.ReadCommand(addr, toRead)]
      ensures !aborted ==> old(replies) != [] && replies == old(replies)[1..] && S.Accepts(old(replies)[0], toRead)
      ensures fits ==> !aborted && Holds(dest, at, read + chunk, done + toRead)
      ensures forall x :: 0 <= x < dest.Length && !(at + done <= x < at + done + toRead) ==> dest[x] == old(dest[x])
    {
      var wordsRead := UartReadCmd(addr, dest, at + done, toRead, chunk);
      aborted := wordsRead != Some(toRead);
    }

    lemma NextCommand(before: seq<string>, after: seq<string>, addr: nat, toRead: nat, left: nat)
      requires 0 < toRead == Min(toRead + left, S.MAX_WORDS)
      requires after == before + [S.ReadCommand(addr, toRead)]
      ensures before + S.ReadCommands(addr, toRead + left) == after + S.ReadCommands(addr + toRead * 4, left)
    {
      var now, rest := [S.ReadCommand(addr, toRead)], S.ReadCommands(addr + toRead * 4, left);
      assert S.ReadCommands(addr, toRead + left) == now + rest;
      assert before + (now + rest) == before + now + rest;
    }

    /** The words still to be read begin with those of the next reply. */
    lemma NextReply(lines: seq<string>, words: seq<Word>, done: nat, toRead: nat)
      requires done + toRead <= |words| && 0 < toRead == Min(|words| - done, S.MAX_WORDS)
      requires S.AreReplies(lines, words[done..])
      ensures lines != [] && S.IsReply(lines[0], words[done..done + toRead])
      ensures S.AreReplies(lines[1..], words[done + toRead..])
      ensures words[..done] + words[done..done + toRead] == words[..done + toRead]
    {
      var rest := words[done..];
      assert rest[..toRead] == words[done..done + toRead] && rest[toRead..] == words[done + toRead..];
    }

    /** The first `n` of `words` are in `dest` from index `at` on. */
    ghost predicate Holds(dest: array<Word>, at: nat, words: seq<Word>, n: nat)
      reads dest
    {
      at + n <= dest.Length && n <= |words| && forall x :: at <= x < at + n ==> dest[x] == words[x - at]
    }
  }
}
