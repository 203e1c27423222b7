/** The hexdump the hardworker's consumer prints for its first record
    (hardworker/user/src/main.rs, lines 101-126): one line per 16 bytes,
    holding the offset as eight hex digits (format `08x`), two spaces, each
    byte as two hex digits (format `02x`) and a space, three spaces per byte
    missing from a short last line, then ` |`,
    the printable bytes as characters (others as `.`) and `|`. Each printed
    line is modelled as a string ending in a newline. */
module Hexdump {
  import opened Bytes
  import opened Seqs

  const Digits: string := "0123456789abcdef"

  /** Every character is a lower-case hex digit. */
  predicate IsHex(s: string)
  {
    forall k :: 0 <= k < |s| ==> '0' <= s[k] <= '9' || 'a' <= s[k] <= 'f'
  }

  /** The lower-case hex digits of `x`, without leading zeros. */
  function HexDigits(x: nat): (s: string)
    ensures 1 <= |s|
    ensures IsHex(s)
    decreases x
  {
    if x < 16 then [Digits[x]] else HexDigits(x / 16) + [Digits[x % 16]]
  }

  /** The value of a hex digit of either case (0 for any other character). */
  function DigitValue(c: char): nat
  {
    if '0' <= c <= '9' then (c - '0') as nat
    else if 'a' <= c <= 'f' then (c - 'a') as nat + 10
    else if 'A' <= c <= 'F' then (c - 'A') as nat + 10
    else 0
  }

  /** The value of a string of hex digits. */
  function HexValue(s: string): nat
  {
    if s == [] then 0 else HexValue(s[..|s| - 1]) * 16 + DigitValue(s[|s| - 1])
  }

  function Pow16(n: nat): (p: nat)
    ensures p >= 1
  {
    if n == 0 then 1 else 16 * Pow16(n - 1)
  }

  /** Reading the digits back gives the number, and a number below 16^n
      needs at most n digits. */
  lemma {:induction false} HexDigitsValue(x: nat, n: nat)
    ensures HexValue(HexDigits(x)) == x
    ensures 1 <= n && x < Pow16(n) ==> |HexDigits(x)| <= n
    decreases x
  {
    if x >= 16 {
      var s, front := HexDigits(x), HexDigits(x / 16);
      assert s == front + [Digits[x % 16]];
      assert s[..|s| - 1] == front;
      HexDigitsValue(x / 16, if n > 0 then n - 1 else 0);
      DigitOf(x % 16);
      assert HexValue(s) == HexValue(front) * 16 + x % 16;
      if 1 <= n && x < Pow16(n) {
        ShiftOutDigit(x, n);
      }
    } else {
      DigitOf(x);
    }
  }

  /** Removing the last digit of a number of at least two digits below 16^n
      leaves a number below 16^(n-1). */
  lemma ShiftOutDigit(x: nat, n: nat)
    requires 16 <= x < Pow16(n) && 1 <= n
    ensures 1 <= n - 1 && x / 16 < Pow16(n - 1)
  {
  }

  /** Digit `d` of the table reads back as `d`. */
  lemma DigitOf(d: nat)
    requires d < 16
    ensures DigitValue(Digits[d]) == d
  {
  }

  /** Format `0wx`: the hex digits of `x` with leading zeros up to width `w`. */
  function Padded(x: nat, w: nat): (s: string)
    ensures |s| == if |HexDigits(x)| < w then w else |HexDigits(x)|
    ensures IsHex(s)
  {
    var d := HexDigits(x);
    if |d| < w then seq(w - |d|, _ => '0') + d else d
  }

  lemma {:induction false} LeadingZerosValue(z: nat, d: string)
    ensures HexValue(seq(z, _ => '0') + d) == HexValue(d)
    decreases |d|
  {
    var s := seq(z, _ => '0') + d;
    if d == [] {
      ZerosValue(z);
      assert s == seq(z, _ => '0');
    } else {
      assert s[..|s| - 1] == seq(z, _ => '0') + d[..|d| - 1];
      LeadingZerosValue(z, d[..|d| - 1]);
    }
  }

  lemma {:induction false} ZerosValue(z: nat)
    ensures HexValue(seq(z, _ => '0')) == 0
  {
    if z > 0 {
      assert seq(z, _ => '0')[..z - 1] == seq(z - 1, _ => '0');
      ZerosValue(z - 1);
    }
  }

  /** A padded number reads back as itself, and a number below 16^w takes
      exactly `w` characters. */
  lemma PaddedValue(x: nat, w: nat)
    ensures HexValue(Padded(x, w)) == x
    ensures 1 <= w && x < Pow16(w) ==> |Padded(x, w)| == w
  {
    HexDigitsValue(x, w);
    if |HexDigits(x)| < w {
      LeadingZerosValue(w - |HexDigits(x)|, HexDigits(x));
    }
  }

  /** `if byte >= 32 && byte <= 126 { byte as char } else { '.' }` */
  function Printable(b: u8): (c: char)
    ensures 32 <= c as int <= 126
    ensures 32 <= b <= 126 ==> c as int == b
    ensures !(32 <= b <= 126) ==> c == '.'
  {
    if 32 <= b <= 126 then b as char else '.'
  }

  /** The hex column of a chunk: each byte as two digits and a space. */
  function HexColumn(chunk: seq<u8>): (s: string)
    ensures |s| == 3 * |chunk|
  {
    if chunk == [] then ""
    else
      PaddedValue(chunk[|chunk| - 1], 2);
      HexColumn(chunk[..|chunk| - 1]) + Padded(chunk[|chunk| - 1], 2) + " "
  }

  /** Byte `j` of a chunk sits at column `3 * j` of its hex column. */
  lemma {:induction false} HexColumnAt(chunk: seq<u8>, j: nat)
    requires j < |chunk|
    ensures HexColumn(chunk)[3 * j..3 * j + 2] == Padded(chunk[j], 2)
    ensures HexColumn(chunk)[3 * j + 2] == ' '
  {
    var n := |chunk|;
    PaddedValue(chunk[n - 1], 2);
    var h, p := HexColumn(chunk[..n - 1]), Padded(chunk[n - 1], 2);
    assert HexColumn(chunk) == h + p + " ";
    if j < n - 1 {
      HexColumnAt(chunk[..n - 1], j);
      assert HexColumn(chunk)[..|h|] == h;
    } else {
      assert HexColumn(chunk)[|h|..|h| + 2] == p;
    }
  }

  /** The ASCII column of a chunk. */
  function AsciiColumn(chunk: seq<u8>): (s: string)
    ensures |s| == |chunk| && forall j :: 0 <= j < |chunk| ==> s[j] == Printable(chunk[j])
  {
    seq(|chunk|, j requires 0 <= j < |chunk| => Printable(chunk[j]))
  }

  function Spaces(n: nat): (s: string)
    ensures |s| == n && forall j :: 0 <= j < n ==> s[j] == ' '
  {
    seq(n, _ => ' ')
  }

  /** The line printed for chunk `i`: the offset, two spaces, the hex
      column, then the rest of the line. */
  function Line(i: nat, chunk: seq<u8>): (line: string)
    requires |chunk| <= 16
    ensures |line| == |Padded(16 * i, 8)| + 54 + |chunk| && line[|line| - 1] == '\n'
  {
    Padded(16 * i, 8) + ("  " + (HexColumn(chunk) + LineTail(chunk)))
  }

  /** What follows the hex column: the padding of a short line, ` |`, the
      ASCII column and `|`. */
  function LineTail(chunk: seq<u8>): string
    requires |chunk| <= 16
  {
    Spaces(3 * (16 - |chunk|)) + (" |" + (AsciiColumn(chunk) + "|\n"))
  }

  /** `bytes.chunks(16)`: chunk `i`, of 16 bytes except perhaps the last. */
  function Chunk(bytes: seq<u8>, i: nat): (c: seq<u8>)
    requires 16 * i < |bytes|
    ensures 1 <= |c| <= 16 && 16 * i + |c| <= |bytes| && c == bytes[16 * i..16 * i + |c|]
  {
    bytes[16 * i..Min(16 * i + 16, |bytes|)]
  }

  function ChunkCount(n: nat): nat { (n + 15) / 16 }

  /** The whole dump, one line per chunk. */
  function Dump(bytes: seq<u8>): (d: seq<string>)
    ensures 16 * |d| - 15 <= |bytes| <= 16 * |d|
  {
    seq(ChunkCount(|bytes|), i requires 0 <= i < ChunkCount(|bytes|) => Line(i, Chunk(bytes, i)))
  }

  /** The layout of one line: 62 characters plus one per byte, the offset
      in the first eight, byte `j` as two hex digits at column `10 + 3 * j`
      and as a character at column `60 + j`. */
  lemma LineLayout(i: nat, chunk: seq<u8>, j: nat)
    requires 16 * i < 0x1_0000_0000 && |chunk| <= 16 && j < |chunk|
    ensures var line := Line(i, chunk);
      && |line| == 62 + |chunk|
      && line[..8] == Padded(16 * i, 8)
      && line[10 + 3 * j..12 + 3 * j] == Padded(chunk[j], 2)
      && line[60 + j] == Printable(chunk[j])
  {
    assert Pow16(8) == 0x1_0000_0000 by {
      assert Pow16(4) == 0x1_0000;
    }
    PaddedValue(16 * i, 8);
    LineOffset(i, chunk);
    LineHex(i, chunk, j);
    LineAscii(i, chunk, j);
  }

  /** The first eight characters of a line: the offset. */
  lemma LineOffset(i: nat, chunk: seq<u8>)
    requires |Padded(16 * i, 8)| == 8 && |chunk| <= 16
    ensures Line(i, chunk)[..8] == Padded(16 * i, 8)
  {
    var off := Padded(16 * i, 8);
    PrefixOfConcat(off, "  " + (HexColumn(chunk) + LineTail(chunk)), 0, 8);
    assert off[0..8] == off;
  }

  /** Characters 10 + 3j and 11 + 3j of a line: byte `j` in hex. */
  lemma LineHex(i: nat, chunk: seq<u8>, j: nat)
    requires |Padded(16 * i, 8)| == 8 && |chunk| <= 16 && j < |chunk|
    ensures Line(i, chunk)[10 + 3 * j..12 + 3 * j] == Padded(chunk[j], 2)
  {
    var off := Padded(16 * i, 8);
    var hex := HexColumn(chunk);
    var rest := hex + LineTail(chunk);
    HexColumnAt(chunk, j);
    assert Line(i, chunk) == off + ("  " + rest);
    SuffixOfConcat(off, "  " + rest, 2 + 3 * j, 4 + 3 * j);
    SuffixOfConcat("  ", rest, 3 * j, 3 * j + 2);
    PrefixOfConcat(hex, LineTail(chunk), 3 * j, 3 * j + 2);
  }

  /** The rest of a line: 62 + n characters in all, byte `j` shown as a
      character at column 60 + j. */
  lemma LineAscii(i: nat, chunk: seq<u8>, j: nat)
    requires |Padded(16 * i, 8)| == 8 && |chunk| <= 16 && j < |chunk|
    ensures var line := Line(i, chunk);
      && |line| == 62 + |chunk|
      && line[60 + j] == Printable(chunk[j])
  {
    var n := |chunk|;
    var tail := LineTail(chunk);
    assert tail[48 - 3 * n + 2 + j] == AsciiColumn(chunk)[j];
    assert Line(i, chunk)[60 + j] == tail[48 - 3 * n + 2 + j];
  }

  /** The layout of a dump of at most 2^32 bytes: one line per 16 bytes, each
      line 62 + (bytes in it) characters long, the offset `16 * i` in the
      first eight characters of line `i`, and byte `k` both as two hex digits
      at column `10 + 3 * (k % 16)` of line `k / 16` and as a character at
      column `60 + k % 16`; the offset and the digits read back to the
      numbers they show. */
  lemma DumpLayout(bytes: seq<u8>, k: nat)
    requires |bytes| <= 0x1_0000_0000 && k < |bytes|
    ensures |Dump(bytes)| == ChunkCount(|bytes|)
    ensures var i, j := k / 16, k % 16;
      var line := Dump(bytes)[i];
      && |line| == 62 + |Chunk(bytes, i)|
      && HexValue(line[..8]) == 16 * i
      && HexValue(line[10 + 3 * j..12 + 3 * j]) == bytes[k]
      && line[60 + j] == Printable(bytes[k])
  {
    DivMod16(k);
    DumpLine(bytes, k / 16, k % 16);
  }

  lemma DivMod16(k: nat)
    ensures k == 16 * (k / 16) + k % 16 && k % 16 < 16
  {
  }

  /** Line `i` of a dump, for the byte `j` of its chunk. */
  lemma DumpLine(bytes: seq<u8>, i: nat, j: nat)
    requires |bytes| <= 0x1_0000_0000 && 16 * i + j < |bytes| && j < 16
    ensures i < |Dump(bytes)|
    ensures var line := Dump(bytes)[i];
      && |line| == 62 + |Chunk(bytes, i)|
      && HexValue(line[..8]) == 16 * i
      && HexValue(line[10 + 3 * j..12 + 3 * j]) == bytes[16 * i + j]
      && line[60 + j] == Printable(bytes[16 * i + j])
  {
    ChunkIndex(|bytes|, i);
    var chunk := Chunk(bytes, i);
    assert chunk[j] == bytes[16 * i + j];
    LineLayout(i, chunk, j);
    PaddedValue(16 * i, 8);
    PaddedValue(chunk[j], 2);
  }

  /** The printing loop over the chunks. */
  method PrintDump(bytes: seq<u8>) returns (lines: seq<string>)
    ensures lines == Dump(bytes)
  {
    var dump := Dump(bytes);
    lines := [];
    var i := 0;
    while i < ChunkCount(|bytes|)
      invariant i <= |dump|
      invariant lines == dump[..i]
    {
      ChunkIndex(|bytes|, i);
      var line := PrintLine(i, Chunk(bytes, i));
      PrefixSnoc(dump, i);
      lines := lines + [line];
      i := i + 1;
    }
    assert dump[..i] == dump;
  }

  /** Chunk `i` exists exactly when it starts inside the data. */
  lemma ChunkIndex(n: nat, i: nat)
    ensures i < ChunkCount(n) <==> 16 * i < n
  {
  }

  /** The body of the loop for one chunk: the offset, then the hex column,
      the padding of a short line and the ASCII column, each printed by its
      own loop. */
  method PrintLine(i: nat, chunk: seq<u8>) returns (line: string)
    requires |chunk| <= 16
    ensures line == Line(i, chunk)
  {
    var hex := PrintHex(chunk);
    var pad := PrintPadding(16 - |chunk|);
    var ascii := PrintAscii(chunk);
    var tail := pad + (" |" + (ascii + "|\n"));
    assert tail == LineTail(chunk);
    line := Padded(16 * i, 8) + ("  " + (hex + tail));
  }

  method PrintHex(chunk: seq<u8>) returns (out: string)
    ensures out == HexColumn(chunk)
  {
    out := "";
    var j := 0;
    while j < |chunk|
      invariant j <= |chunk|
      invariant out == HexColumn(chunk[..j])
    {
      assert chunk[..j + 1][..j] == chunk[..j];
      out := out + Padded(chunk[j], 2) + " ";
      j := j + 1;
    }
    assert chunk[..|chunk|] == chunk;
  }

  method PrintPadding(missing: nat) returns (out: string)
    ensures out == Spaces(3 * missing)
  {
    out := "";
    var k := 0;
    while k < missing
      invariant k <= missing
      invariant out == Spaces(3 * k)
    {
      out := out + "   ";
      k := k + 1;
    }
  }

  method PrintAscii(chunk: seq<u8>) returns (out: string)
    ensures out == AsciiColumn(chunk)
  {
    out := "";
    var j := 0;
    while j < |chunk|
      invariant j <= |chunk|
      invariant out == AsciiColumn(chunk[..j])
    {
      out := out + [Printable(chunk[j])];
      j := j + 1;
    }
  }
}
