/**
 The device at the other end of the serial port: a bus memory that executes commands
 (the text protocol of `util/pcie.c`).
 */
module SerialDevice {
  import opened Words
  import C = Bar4Concurrency
  import S = SerialProtocol

  function WordsAt(mem: C.Memory, addr: nat, count: nat): seq<Word> {
    seq(count, k requires 0 <= k => C.At(mem, addr + 4 * k))
  }

  /** The line is an answer to the command: a well-formed reply with the words the command asks for. */
  ghost predicate Answers(mem: C.Memory, cmd: string, line: string) {
    match S.ParseRead(cmd)
    case None => false
    case Some((addr, count)) => S.IsReply(line, WordsAt(mem, addr, count))
  }

  /** The first lines answer the commands, in order. */
  ghost predicate AnswersAll(mem: C.Memory, cmds: seq<string>, lines: seq<string>) {
    |cmds| <= |lines| && forall i :: 0 <= i < |cmds| ==> Answers(mem, cmds[i], lines[i])
  }

  /** What a device that prints upper-case digits answers. */
  function Answer(mem: C.Memory, cmd: string): string {
    match S.ParseRead(cmd)
    case None => "E\n"
    case Some((addr, count)) => "O" + Digits(WordsAt(mem, addr, count)) + "\n"
  }

  function Digits(words: seq<Word>): string {
    Concat(seq(|words|, k requires 0 <= k < |words| => S.PrintHex(words[k], 8)))
  }

  function Concat(parts: seq<string>): string {
    if parts == [] then "" else parts[0] + Concat(parts[1..])
  }

  lemma {:induction false} ConcatAt(parts: seq<string>, k: nat)
    requires forall i :: 0 <= i < |parts| ==> |parts[i]| == 8
    ensures |Concat(parts)| == 8 * |parts|
    ensures k < |parts| ==> Concat(parts)[8 * k..8 * k + 8] == parts[k]
    decreases parts
  {
    if parts != [] {
      ConcatAt(parts[1..], if k == 0 then 0 else k - 1);
      var head, tail := parts[0], Concat(parts[1..]);
      if 0 < k < |parts| {
        assert (head + tail)[8 * k..8 * k + 8] == tail[8 * (k - 1)..8 * (k - 1) + 8];
      }
    }
  }

  lemma DigitsOfWord(words: seq<Word>, k: nat)
    ensures |Digits(words)| == 8 * |words|
    ensures k < |words| ==> Digits(words)[8 * k..8 * k + 8] == S.PrintHex(words[k], 8)
  {
    var parts := seq(|words|, k requires 0 <= k < |words| => S.PrintHex(words[k], 8));
    forall i | 0 <= i < |parts| ensures |parts[i]| == 8 {
      S.Power16Constants();
      S.PrintHexRoundTrip(words[i], 8);
    }
    ConcatAt(parts, k);
  }

  /** Such a device answers every read command. */
  lemma AnswerAnswers(mem: C.Memory, addr: nat, count: nat)
    requires addr < 0x1_0000_0000 && 0 < count <= S.MAX_WORDS
    ensures Answers(mem, S.ReadCommand(addr, count), Answer(mem, S.ReadCommand(addr, count)))
  {
    S.ReadCommandDecodes(addr, count);
    ReplyOf(WordsAt(mem, addr, count));
  }

  lemma ReplyOf(words: seq<Word>)
    ensures S.IsReply("O" + Digits(words) + "\n", words)
  {
    var digits := Digits(words);
    DigitsOfWord(words, 0);
    forall k | 0 <= k < |words| ensures S.Carries("O" + digits + "\n", k, words[k]) {
      DigitsOfWord(words, k);
      CarriedWord("O" + digits + "\n", digits, k, words[k]);
    }
  }

  lemma CarriedWord(line: string, digits: string, k: nat, w: Word)
    requires 8 * k + 8 <= |digits| && line == "O" + digits + "\n"
    requires digits[8 * k..8 * k + 8] == S.PrintHex(w, 8)
    ensures S.Carries(line, k, w)
  {
    assert line[1 + 8 * k..9 + 8 * k] == digits[8 * k..8 * k + 8];
    S.Power16Constants();
    S.PrintHexRoundTrip(w, 8);
  }

  /** Answers to the commands of one read carry the words of its range. */
  lemma {:induction false} AnswersCarryRange(mem: C.Memory, addr: nat, count: nat, lines: seq<string>)
    requires addr + 4 * count <= 0x1_0000_0000 && AnswersAll(mem, S.ReadCommands(addr, count), lines)
    ensures S.AreReplies(lines, WordsAt(mem, addr, count))
    decreases count
  {
    if count != 0 {
      var now := Min(count, S.MAX_WORDS);
      FirstAnswer(mem, addr, count, now, lines);
      SplitWords(mem, addr, count, now);
      AnswersCarryRange(mem, addr + 4 * now, count - now, lines[1..]);
    }
  }

  lemma FirstAnswer(mem: C.Memory, addr: nat, count: nat, now: nat, lines: seq<string>)
    requires addr + 4 * count <= 0x1_0000_0000 && 0 < count && now == Min(count, S.MAX_WORDS)
    requires AnswersAll(mem, S.ReadCommands(addr, count), lines)
    ensures lines != [] && S.IsReply(lines[0], WordsAt(mem, addr, now))
    ensures AnswersAll(mem, S.ReadCommands(addr + 4 * now, count - now), lines[1..])
  {
    var cmds := S.ReadCommands(addr, count);
    S.ReadCommandDecodes(addr, now);
    assert Answers(mem, cmds[0], lines[0]);
    assert cmds[1..] == S.ReadCommands(addr + 4 * now, count - now);
  }

  lemma SplitWords(mem: C.Memory, addr: nat, count: nat, now: nat)
    requires now <= count
    ensures WordsAt(mem, addr, count)[..now] == WordsAt(mem, addr, now)
    ensures WordsAt(mem, addr, count)[now..] == WordsAt(mem, addr + 4 * now, count - now)
  {
  }

  /** The memory after a command. */
  function Execute(mem: C.Memory, cmd: string): C.Memory {
    match S.ParseWrite(cmd)
    case Some((addr, value)) => if value < 0x1_0000_0000 then mem[addr := value] else mem
    case None => mem
  }

  lemma ExecuteWrite(mem: C.Memory, addr: nat, value: Word)
    requires addr < 0x1_0000_0000
    ensures Execute(mem, S.WriteCommand(addr, value)) == mem[addr := value]
  {
    S.WriteCommandDecodes(addr, value);
  }

  /** The answer to a write that was carried out. */
  predicate Confirms(line: string) { |line| == 2 && line[0] == 'O' }

  /** The first `n` lines confirm writes. */
  predicate ConfirmAll(lines: seq<string>, n: nat) {
    n <= |lines| && forall i :: 0 <= i < n ==> Confirms(lines[i])
  }
}
