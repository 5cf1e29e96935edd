/**
 The text protocol of the debug serial port (`uart_read_cmd` and `bar4_write` in `util/pcie.c`):
 commands in fixed-width hexadecimal, replies of eight digits a word.
 */
module SerialProtocol {
  import opened Words

  function Power16(n: nat): (p: int)
    ensures 0 < p
  {
    if n == 0 then 1 else 16 * Power16(n - 1)
  }

  // ----- hexadecimal text

  function DigitChar(d: nat): char
    requires d < 16
  {
    "0123456789ABCDEF"[d]
  }

  function DigitValue(c: char): Option<nat> {
    if '0' <= c <= '9' then Some((c - '0') as nat)
    else if 'A' <= c <= 'F' then Some((c - 'A') as nat + 10)
    else if 'a' <= c <= 'f' then Some((c - 'a') as nat + 10)
    else None
  }

  lemma DigitRange(c: char)
    requires DigitValue(c).Some?
    ensures DigitValue(c).value < 16
  {
  }

  predicate AllHex(s: string) {
    forall k :: 0 <= k < |s| ==> DigitValue(s[k]).Some?
  }

  function HexValue(s: string): nat
    requires AllHex(s)
  {
    if s == [] then 0 else 16 * HexValue(s[..|s| - 1]) + DigitValue(s[|s| - 1]).value
  }

  /** The conversion `%0<width>X`, which uses more digits when the number needs them. */
  function PrintHex(v: nat, width: nat): string
    requires 0 < width
    decreases v + width
  {
    if v < 16 && width == 1 then [DigitChar(v)]
    else PrintHex(v / 16, if 1 < width then width - 1 else 1) + [DigitChar(v % 16)]
  }

  lemma DigitRoundTrip(d: nat)
    requires d < 16
    ensures DigitValue(DigitChar(d)) == Some(d)
  {
  }

  /** A number that fits the width is printed in exactly that many digits, and they denote it. */
  lemma {:induction false} PrintHexRoundTrip(v: nat, width: nat)
    requires 0 < width && v < Power16(width)
    ensures |PrintHex(v, width)| == width
    ensures AllHex(PrintHex(v, width)) && HexValue(PrintHex(v, width)) == v
    decreases width
  {
    if width == 1 {
      assert Power16(1) == 16 * Power16(0);
      DigitRoundTrip(v);
      assert HexValue([DigitChar(v)]) == 16 * HexValue([]) + v;
    } else {
      PrintHexRoundTrip(v / 16, width - 1);
      DigitRoundTrip(v % 16);
      var s := PrintHex(v, width);
      assert s[..|s| - 1] == PrintHex(v / 16, width - 1);
    }
  }

  lemma {:induction false} HexValueBound(s: string)
    requires AllHex(s)
    ensures HexValue(s) < Power16(|s|)
  {
    if s != [] {
      HexValueBound(s[..|s| - 1]);
      DigitRange(s[|s| - 1]);
    }
  }

  lemma Power16Constants()
    ensures Power16(2) == 0x100 && Power16(8) == 0x1_0000_0000
  {
    assert Power16(4) == 0x1_0000;
  }

  // ----- commands

  /** Most words one command can ask for */
  const MAX_WORDS: nat := 256

  function ReadCommand(addr: nat, count: nat): string
    requires 0 < count
  {
    "R" + PrintHex(addr, 8) + PrintHex(count - 1, 2) + "\n"
  }

  function WriteCommand(addr: nat, value: Word): string {
    "W" + PrintHex(addr, 8) + PrintHex(value, 8) + "\n"
  }

  /** What the device makes of a read command: an address and a number of words. */
  function ParseRead(cmd: string): Option<(nat, nat)> {
    if |cmd| == 12 && cmd[0] == 'R' && cmd[11] == '\n' && AllHex(cmd[1..9]) && AllHex(cmd[9..11])
    then Some((HexValue(cmd[1..9]), HexValue(cmd[9..11]) + 1))
    else None
  }

  function ParseWrite(cmd: string): Option<(nat, nat)> {
    if |cmd| == 18 && cmd[0] == 'W' && cmd[17] == '\n' && AllHex(cmd[1..9]) && AllHex(cmd[9..17])
    then Some((HexValue(cmd[1..9]), HexValue(cmd[9..17])))
    else None
  }

  lemma CommandParts(c: char, a: string, b: string)
    ensures var cmd := [c] + a + b + "\n";
            && |cmd| == |a| + |b| + 2 && cmd[0] == c && cmd[|cmd| - 1] == '\n'
            && cmd[1..1 + |a|] == a && cmd[1 + |a|..|cmd| - 1] == b
  {
  }

  /** Commands for 32-bit addresses have a fixed length and decode to what was asked. */
  lemma ReadCommandDecodes(addr: nat, count: nat)
    requires addr < 0x1_0000_0000 && 0 < count <= MAX_WORDS
    ensures |ReadCommand(addr, count)| == 12 && ParseRead(ReadCommand(addr, count)) == Some((addr, count))
  {
    Power16Constants();
    PrintHexRoundTrip(addr, 8);
    PrintHexRoundTrip(count - 1, 2);
    CommandParts('R', PrintHex(addr, 8), PrintHex(count - 1, 2));
  }

  lemma WriteCommandDecodes(addr: nat, value: Word)
    requires addr < 0x1_0000_0000
    ensures |WriteCommand(addr, value)| == 18 && ParseWrite(WriteCommand(addr, value)) == Some((addr, value as nat))
  {
    Power16Constants();
    PrintHexRoundTrip(addr, 8);
    PrintHexRoundTrip(value, 8);
    CommandParts('W', PrintHex(addr, 8), PrintHex(value, 8));
  }

  /** The read commands for `count` words from `addr` on. */
  function ReadCommands(addr: nat, count: nat): seq<string>
    decreases count
  {
    if count == 0 then []
    else
      var now := Min(count, MAX_WORDS);
      [ReadCommand(addr, now)] + ReadCommands(addr + 4 * now, count - now)
  }

  /** The write commands for the first `n` words of `src`. */
  function WriteCommands(addr: nat, src: seq<Word>, n: nat): seq<string>
    requires n <= |src|
  {
    seq(n, k requires 0 <= k < n => WriteCommand(addr + 4 * k, src[k]))
  }

  /** The addresses of the words a list of read commands asks for, as the device understands them. */
  function AddressesAsked(cmds: seq<string>): seq<nat> {
    if cmds == [] then []
    else match ParseRead(cmds[0])
      case None => AddressesAsked(cmds[1..])
      case Some((addr, count)) => seq(count, k => addr + 4 * k) + AddressesAsked(cmds[1..])
  }

  /** The commands of one read ask for exactly its words, each once and in order. */
  lemma {:induction false} CommandsPartition(addr: nat, count: nat)
    requires addr + 4 * count <= 0x1_0000_0000
    ensures |AddressesAsked(ReadCommands(addr, count))| == count
    ensures forall k :: 0 <= k < count ==> AddressesAsked(ReadCommands(addr, count))[k] == addr + 4 * k
    decreases count
  {
    if count != 0 {
      var now := Min(count, MAX_WORDS);
      ReadCommandDecodes(addr, now);
      CommandsPartition(addr + 4 * now, count - now);
      assert ReadCommands(addr, count)[1..] == ReadCommands(addr + 4 * now, count - now);
    }
  }

  /** They are the fewest that can: each but the last asks for 256 words, which is what a command can carry. */
  lemma {:induction false} CommandsAre(addr: nat, count: nat, k: nat)
    requires 256 * k < count
    ensures k < |ReadCommands(addr, count)|
    ensures ReadCommands(addr, count)[k] == ReadCommand(addr + 1024 * k, Min(count - 256 * k, 256))
    decreases k
  {
    if k != 0 {
      CommandsAre(addr + 1024, count - 256, k - 1);
    }
  }

  lemma {:induction false} CommandsCount(addr: nat, count: nat)
    ensures |ReadCommands(addr, count)| == (count + 255) / 256
    decreases count
  {
    if count != 0 {
      var now := Min(count, MAX_WORDS);
      CommandsCount(addr + 4 * now, count - now);
    }
  }

  // ----- replies

  /** The digits `sscanf("%8x")` takes: as many as there are, up to `most`. */
  function HexPrefix(s: string, most: nat): (n: nat)
    ensures n <= |s| && n <= most && AllHex(s[..n])
  {
    if most == 0 || s == [] || DigitValue(s[0]).None? then 0 else 1 + HexPrefix(s[1..], most - 1)
  }

  lemma {:induction false} HexPrefixAll(s: string, most: nat)
    requires most <= |s| && AllHex(s[..most])
    ensures HexPrefix(s, most) == most
  {
    if most != 0 {
      assert s[..most][0] == s[0];
      assert s[1..][..most - 1] == s[..most][1..];
      HexPrefixAll(s[1..], most - 1);
    }
  }

  /** `sscanf("%8x")`; None when nothing converts. */
  function ScanHex(s: string): Option<Word> {
    var n := HexPrefix(s, 8);
    Power16Constants();
    HexValueBound(s[..n]);
    Power16Monotone(n, 8);
    if n == 0 then None else Some(HexValue(s[..n]))
  }

  lemma {:induction false} Power16Monotone(m: nat, n: nat)
    requires m <= n
    ensures Power16(m) <= Power16(n)
  {
    if m < n {
      Power16Monotone(m, n - 1);
    }
  }

  /** Digits `k` of a reply denote the word `w`. */
  predicate Carries(line: string, k: nat, w: Word)
    requires 8 * k + 9 <= |line|
  {
    var digits := line[1 + 8 * k..9 + 8 * k];
    AllHex(digits) && HexValue(digits) == w
  }

  /** A well-formed reply that carries `words`: 'O', eight digits of either case for each, a newline. */
  ghost predicate IsReply(line: string, words: seq<Word>) {
    && |line| == 8 * |words| + 2 && line[0] == 'O' && line[|line| - 1] == '\n'
    && forall k :: 0 <= k < |words| ==> Carries(line, k, words[k])
  }

  /** The parser finds each word of a well-formed reply. */
  lemma ReplyScans(line: string, words: seq<Word>, k: nat)
    requires IsReply(line, words) && k < |words|
    ensures ScanHex(line[1 + 8 * k..]) == Some(words[k])
  {
    var rest := line[1 + 8 * k..];
    assert Carries(line, k, words[k]);
    assert rest[..8] == line[1 + 8 * k..9 + 8 * k];
    HexPrefixAll(rest, 8);
  }

  /** Well-formed replies to the commands of one read, carrying `words` between them. */
  ghost predicate AreReplies(lines: seq<string>, words: seq<Word>)
    decreases |words|
  {
    words != [] ==>
      var now := Min(|words|, MAX_WORDS);
      lines != [] && IsReply(lines[0], words[..now]) && AreReplies(lines[1..], words[now..])
  }

  /** The first lines accept the commands for `count` words, and are long enough for the words asked for. */
  predicate Accepted(lines: seq<string>, count: nat)
    decreases count
  {
    count != 0 ==>
      var now := Min(count, MAX_WORDS);
      lines != [] && Accepts(lines[0], now) && Accepted(lines[1..], count - now)
  }

  predicate Accepts(line: string, count: nat) { 8 * count + 2 <= |line| && line[0] == 'O' }
}
