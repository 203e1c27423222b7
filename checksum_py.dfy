/** The Python checksum helpers of script/checksum.py: the full checksum
    over a byte string and the looping incremental update.
    network-playground/raw-ipv4.py carries its own copy of `checksum`, letter
    for letter, and no `update_checksum`. Python integers are unbounded
    and `~x & 0xFFFF` is `(-x - 1) mod 0x10000` for every integer `x`. */
module PythonChecksum {
  import opened Bytes
  import opened Checksum

  /** `if len(data) % 2 != 0: data += b'\x00'`: the data is kept as a prefix
      and exactly one zero byte is added when its length is odd. */
  function Pad(data: seq<u8>): (p: seq<u8>)
    ensures |p| % 2 == 0
    ensures |p| == |data| + |data| % 2 && p[..|data|] == data
    ensures forall k :: |data| <= k < |p| ==> p[k] == 0
  {
    if |data| % 2 != 0 then data + [0] else data
  }

  /** `checksum(data)`: big-endian words of the padded data, summed, folded
      twice and complemented. As long as the word sum stays below 2^32 (which
      a length of at most 2 * 0x10001 bytes guarantees) the two folds are
      exact: the result is the complement of the one's-complement sum. */
  function PyChecksum(data: seq<u8>): (c: u16)
    ensures |data| <= 0x2_0002 ==> Sum(Words(Pad(data))) < U32
    ensures |data| <= 0x2_0002 ==> (0xFFFF - c) % 0xFFFF == Sum(Words(Pad(data))) % 0xFFFF
    ensures |data| <= 0x2_0002 ==> (c == 0xFFFF <==> Sum(Words(Pad(data))) == 0)
  {
    var ws := Words(Pad(data));
    SumBound(ws);
    if |data| <= 0x2_0002 then
      ModOfMultiple(Sum(ws), Folded(Sum(ws)), Carries(Sum(ws)));
      WordsChecksum(ws)
    else
      WordsChecksum(ws)
  }

  /** The `while checksum > 0xFFFF` loop of `update_checksum`: it only runs
      on a value above 0xFFFF, always stops at or below 0xFFFF, keeps the
      value modulo 0xFFFF, and leaves a negative value alone. */
  function FoldLoop(x: int): (r: int)
    ensures r <= 0xFFFF
    ensures x <= 0xFFFF ==> r == x
    ensures x > 0xFFFF ==> 1 <= r && r % 0xFFFF == x % 0xFFFF
    decreases x
  {
    if x > 0xFFFF then
      var x' := x % 0x1_0000 + x / 0x1_0000;
      ModOfMultiple(x, x', x / 0x1_0000);
      FoldLoop(x')
    else
      x
  }

  /** `update_checksum(old_checksum, old_word, new_word)` of
      script/checksum.py, on Python integers. */
  function PyUpdate(oldChecksum: int, oldWord: int, newWord: int): (r: u16)
    ensures oldWord == newWord && 0 <= oldChecksum < 0x1_0000 ==> r == oldChecksum
  {
    var checksum := 0xFFFF - oldChecksum % 0x1_0000;
    var checksum := checksum - oldWord + newWord;
    (-FoldLoop(checksum) - 1) % 0x1_0000
  }

  /** The same update, step by step as the source runs it. */
  method UpdateChecksumLoop(oldChecksum: int, oldWord: int, newWord: int) returns (r: u16)
    ensures r == PyUpdate(oldChecksum, oldWord, newWord)
  {
    var checksum := 0xFFFF - oldChecksum % 0x1_0000;
    checksum := checksum - oldWord + newWord;
    ghost var start := checksum;
    while checksum > 0xFFFF
      invariant FoldLoop(checksum) == FoldLoop(start)
      decreases checksum
    {
      checksum := checksum % 0x1_0000 + checksum / 0x1_0000;
    }
    r := (-checksum - 1) % 0x1_0000;
  }

  lemma CongruentOnesEqual(a: int, b: int)
    requires 1 <= a <= 0xFFFF && 1 <= b <= 0xFFFF
    requires a % 0xFFFF == b % 0xFFFF
    ensures a == b
  {
    OnesEqual(a, b, a / 0xFFFF - b / 0xFFFF);
  }

  /** On 16-bit inputs the Python update computes exactly what the Rust
      `update_checksum` computes, including the borrowing case, where the
      Python value goes negative, the loop is skipped and `~x & 0xFFFF`
      yields `-x - 1`. The off-by-one of `AsWrittenVersusRfc1624` therefore
      holds of both. */
  lemma PyUpdateMatchesRust(c: u16, w: u16, w': u16)
    ensures PyUpdate(c, w, w') == UpdateChecksumAsWritten(c, w, w')
  {
    var d := (0xFFFF - c) - w + w';
    assert c % 0x1_0000 == c;
    assert PyUpdate(c, w, w') == (-FoldLoop(d) - 1) % 0x1_0000;
    WrappingAccumulator(c, w, w');
    assert UpdateChecksumAsWritten(c, w, w') == 0xFFFF - Folded(if d >= 0 then d else U32 + d);
    FoldsAgree(d);
  }

  /** The Python fold and complement against the Rust ones, on the
      accumulator `d` before wrapping: a non-negative `d` is folded alike, a
      negative one wraps in Rust and is complemented directly in Python. */
  lemma FoldsAgree(d: int)
    requires -0xFFFF <= d < 0x2_0000
    ensures (-FoldLoop(d) - 1) % 0x1_0000 == 0xFFFF - Folded(if d >= 0 then d else U32 + d)
  {
    ComplementMod(FoldLoop(d));
    if d > 0 {
      FoldLoopIsFolded(d);
    } else if d < 0 {
      BorrowedFold(d);
    }
  }

  /** `~x & 0xFFFF` on a Python integer of at most 16 bits. */
  lemma ComplementMod(x: int)
    requires -0xFFFF <= x <= 0xFFFF
    ensures (-x - 1) % 0x1_0000 == if x >= 0 then 0xFFFF - x else -x - 1
  {
  }

  /** On a positive sum the loop and the two folds agree. */
  lemma FoldLoopIsFolded(d: int)
    requires 0 < d < 0x2_0000
    ensures FoldLoop(d) == Folded(d)
  {
    var r, f := FoldLoop(d), Folded(d);
    ModOfMultiple(d, f, Carries(d));
    assert r % 0xFFFF == d % 0xFFFF;
    CongruentOnesEqual(r, f);
  }

  lemma BorrowedFold(d: int)
    requires -0xFFFF <= d < 0
    ensures Folded(U32 + d) == 0x1_0000 + d
  {
    var x := U32 + d;
    assert x / 0x1_0000 == 0xFFFF && x % 0x1_0000 == 0x1_0000 + d;
  }

  /** The header of script/checksum.py's sample,
      `4568 003c d829 4000 4006 0000 c0a8 0160 c0a8 015d`. */
  function SampleHeader(): (h: seq<u8>)
    ensures |h| == 20
  {
    [0x45, 0x68, 0x00, 0x3c, 0xd8, 0x29, 0x40, 0x00, 0x40, 0x06,
     0x00, 0x00, 0xc0, 0xa8, 0x01, 0x60, 0xc0, 0xa8, 0x01, 0x5d]
  }

  /** The word sum of the sample header with last byte `last`: its ten
      big-endian words are 4568 003c d829 4000 4006 0000 c0a8 0160 c0a8 and
      0x0100 + last. */
  lemma SampleSum(h: seq<u8>, last: u8)
    requires h == SampleHeader()[19 := last]
    ensures Sum(Words(Pad(h))) == 0x3_2183 + last
  {
    assert Pad(h) == h;
    TenWordSum(h);
    SampleWordsFront(h, last);
    SampleWordsBack(h, last);
  }

  lemma SampleWordsFront(h: seq<u8>, last: u8)
    requires h == SampleHeader()[19 := last]
    ensures Be16(h, 0) == 0x4568 && Be16(h, 2) == 0x003c && Be16(h, 4) == 0xd829
    ensures Be16(h, 6) == 0x4000 && Be16(h, 8) == 0x4006
  {
  }

  lemma SampleWordsBack(h: seq<u8>, last: u8)
    requires h == SampleHeader()[19 := last]
    ensures Be16(h, 10) == 0x0000 && Be16(h, 12) == 0xc0a8 && Be16(h, 14) == 0x0160
    ensures Be16(h, 16) == 0xc0a8 && Be16(h, 18) == 0x0100 + last
  {
  }

  /** The word sum of twenty bytes, written out. */
  lemma TenWordSum(h: seq<u8>)
    requires |h| == 20
    ensures Sum(Words(h)) == Be16(h, 0) as int + Be16(h, 2) + Be16(h, 4) + Be16(h, 6) + Be16(h, 8)
      + Be16(h, 10) + Be16(h, 12) + Be16(h, 14) + Be16(h, 16) + Be16(h, 18)
  {
    SumOfTen(Words(h));
  }

  /** The checksum of a sample header from its word sum. */
  lemma SampleChecksum(last: u8, sum: nat, folded: u16)
    requires sum == 0x3_2183 + last && Folded(sum) == folded
    ensures PyChecksum(SampleHeader()[19 := last]) == 0xFFFF - folded
  {
    var h := SampleHeader()[19 := last];
    SampleSum(h, last);
    assert PyChecksum(h) == WordsChecksum(Words(Pad(h)));
  }

  lemma SampleChecksumBefore()
    ensures PyChecksum(SampleHeader()) == 0xde1c
  {
    assert SampleHeader()[19 := 0x5d] == SampleHeader();
    assert Folded(0x3_21e0) == 0x21e3;
    SampleChecksum(0x5d, 0x3_21e0, 0x21e3);
  }

  lemma SampleChecksumAfter()
    ensures PyChecksum(SampleHeader()[19 := 0x4f]) == 0xde2a
  {
    assert Folded(0x3_21d2) == 0x21d5;
    SampleChecksum(0x4f, 0x3_21d2, 0x21d5);
  }

  lemma SampleUpdate()
    ensures PyUpdate(0xde1c, 0x015d, 0x014f) == 0xde2a
  {
    assert FoldLoop(0x21d5) == 0x21d5;
    assert (-0x21d5 - 1) % 0x1_0000 == 0xde2a;
  }

  /** The sample of script/checksum.py: the header has checksum 0xde1c;
      changing its last word from 0x015d to 0x014f gives 0xde2a both by the
      incremental update (whose sum does not go negative here, so the loop
      runs as intended) and by recomputing. */
  lemma PySampleAgrees()
    ensures PyChecksum(SampleHeader()) == 0xde1c
    ensures (0xFFFF - PyChecksum(SampleHeader())) - 0x015d + 0x014f >= 0
    ensures PyUpdate(PyChecksum(SampleHeader()), 0x015d, 0x014f) == PyChecksum(SampleHeader()[19 := 0x4f]) == 0xde2a
  {
    SampleChecksumBefore();
    SampleChecksumAfter();
    SampleUpdate();
  }
}
