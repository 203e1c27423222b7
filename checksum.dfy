/** The Internet checksum (section 1 of RFC 1071) over 16-bit words, and the
    incremental update the packet filters make after rewriting an address
    word.

    `UpdateChecksumAsWritten` is the source's `update_checksum`, which
    computes `~(~HC - m + m')` on a u32 accumulator with `wrapping_sub`; the
    packet filters use it. `UpdateChecksum` is equation 3 of section 3 of
    RFC 1624, `~(~HC + ~m + m')`, the reference it is measured against.
    `AsWrittenVersusRfc1624` says exactly where they differ. */
module Checksum {
  import opened Bytes

  const U32: nat := 0x1_0000_0000

  /** The plain integer sum of the words. */
  function Sum(ws: seq<u16>): nat
  {
    if ws == [] then 0 else ws[0] + Sum(ws[1..])
  }

  /** `(s >> 16) + (s & 0xFFFF)` */
  function FoldOnce(s: nat): nat
  {
    s / 0x1_0000 + s % 0x1_0000
  }

  /** How many times 0xFFFF the two folds take away from `s`: every carry
      moved from bit 16 down to bit 0 removes 0x10000 and adds 1. */
  function Carries(s: nat): nat
  {
    s / 0x1_0000 + (if FoldOnce(s) > 0xFFFF then 1 else 0)
  }

  /** The two carry folds every copy of the code performs,
      `s = (s >> 16) + (s & 0xFFFF); s += s >> 16`, followed by the final
      `& 0xFFFF`. For any accumulator that fits in 32 bits the result is the
      16-bit one's-complement sum: `s` minus a whole number of 0xFFFF (so
      congruent to `s` modulo 0xFFFF), and zero only for a zero sum. */
  function Folded(s: nat): (r: u16)
    ensures s < U32 ==> s == Carries(s) * 0xFFFF + r
    ensures s < U32 ==> (r == 0 <==> s == 0)
  {
    var t := FoldOnce(s);
    (t + t / 0x1_0000) % 0x1_0000
  }

  /** Two one's-complement values in 1..0xFFFF that differ by a multiple of
      0xFFFF are equal. */
  lemma OnesEqual(a: int, b: int, q: int)
    requires 1 <= a <= 0xFFFF && 1 <= b <= 0xFFFF
    requires a - b == q * 0xFFFF
    ensures a == b
  {
  }

  lemma ModOfMultiple(a: int, b: int, q: int)
    requires a == b + q * 0xFFFF
    ensures a % 0xFFFF == b % 0xFFFF
  {
  }

  /** The checksum of a word sequence: the complement of the folded sum
      (`!((sum & 0xFFFF) as u16)` in Rust, `~s & 0xFFFF` in Python). */
  function WordsChecksum(ws: seq<u16>): (c: u16)
    ensures Sum(ws) < U32 ==> (0xFFFF - c) % 0xFFFF == Sum(ws) % 0xFFFF
    ensures Sum(ws) < U32 ==> (c == 0xFFFF <==> Sum(ws) == 0)
  {
    if Sum(ws) < U32 then
      ModOfMultiple(Sum(ws), Folded(Sum(ws)), Carries(Sum(ws)));
      0xFFFF - Folded(Sum(ws))
    else
      0xFFFF - Folded(Sum(ws))
  }

  /** `ipv4_checksum` of script/src/main.rs over a ten-word header: the sum of
      ten words cannot overflow its u32 accumulator, and the result is the
      complement of the one's-complement sum. */
  function Ipv4Checksum(h: seq<u16>): (c: u16)
    requires |h| == 10
    ensures Sum(h) < U32
    ensures (0xFFFF - c) % 0xFFFF == Sum(h) % 0xFFFF
    ensures c == 0xFFFF <==> Sum(h) == 0
  {
    SumBound(h);
    WordsChecksum(h)
  }

  /** `update_checksum` as the source writes it: `!old_csum as u32`, then
      `wrapping_sub(old)` and `wrapping_add(new)` on u32, two folds and a
      complement. Replacing a word by itself leaves the checksum unchanged. */
  function UpdateChecksumAsWritten(oldCsum: u16, oldWord: u16, newWord: u16): (r: u16)
    ensures oldWord == newWord ==> r == oldCsum
  {
    var sum := 0xFFFF - oldCsum;
    var sum := ((sum - oldWord) % U32 + newWord) % U32;
    WrappingAccumulator(oldCsum, oldWord, newWord);
    FoldedSmall(sum);
    0xFFFF - Folded(sum)
  }

  /** A value that already fits in 16 bits folds to itself. */
  lemma FoldedSmall(s: nat)
    ensures s <= 0xFFFF ==> Folded(s) == s
  {
  }

  /** Two non-zero 32-bit accumulators that differ by a multiple of 0xFFFF
      fold to the same one's-complement sum. */
  lemma FoldedCongruent(a: nat, b: nat, q: int)
    requires 0 < a < U32 && 0 < b < U32
    requires a - b == q * 0xFFFF
    ensures Folded(a) == Folded(b)
  {
    OnesEqual(Folded(a), Folded(b), q - Carries(a) + Carries(b));
  }

  /** Equation 3 of RFC 1624: `HC' = ~(~HC + ~m + m')`. The new checksum is
      the complement of a one's-complement sum that is the old sum with `m`
      taken out and `m'` put in. */
  function UpdateChecksum(hc: u16, m: u16, m': u16): (r: u16)
    ensures (0xFFFF - r) % 0xFFFF == ((0xFFFF - hc) - m + m') % 0xFFFF
  {
    var acc := (0xFFFF - hc) + (0xFFFF - m) + m';
    ModOfMultiple(acc, Folded(acc), Carries(acc));
    ModOfMultiple(acc, (0xFFFF - hc) - m + m', 1);
    0xFFFF - Folded(acc)
  }

  /** The sum of a ten-word header written out. */
  lemma SumOfTen(h: seq<u16>)
    requires |h| == 10
    ensures Sum(h) == h[0] as int + h[1] + h[2] + h[3] + h[4] + h[5] + h[6] + h[7] + h[8] + h[9]
  {
    assert Sum(h[9..]) == h[9] by { assert h[9..][1..] == []; }
    assert Sum(h[8..]) == h[8] + Sum(h[9..]) by { assert h[8..][1..] == h[9..]; }
    assert Sum(h[7..]) == h[7] + Sum(h[8..]) by { assert h[7..][1..] == h[8..]; }
    assert Sum(h[6..]) == h[6] + Sum(h[7..]) by { assert h[6..][1..] == h[7..]; }
    assert Sum(h[5..]) == h[5] + Sum(h[6..]) by { assert h[5..][1..] == h[6..]; }
    assert Sum(h[4..]) == h[4] + Sum(h[5..]) by { assert h[4..][1..] == h[5..]; }
    assert Sum(h[3..]) == h[3] + Sum(h[4..]) by { assert h[3..][1..] == h[4..]; }
    assert Sum(h[2..]) == h[2] + Sum(h[3..]) by { assert h[2..][1..] == h[3..]; }
    assert Sum(h[1..]) == h[1] + Sum(h[2..]) by { assert h[1..][1..] == h[2..]; }
  }

  lemma {:induction false} SumBound(ws: seq<u16>)
    ensures Sum(ws) <= |ws| * 0xFFFF
  {
    if ws != [] {
      SumBound(ws[1..]);
    }
  }

  lemma {:induction false} SumAtLeastWord(ws: seq<u16>, i: nat)
    requires i < |ws|
    ensures ws[i] <= Sum(ws)
  {
    if i > 0 {
      SumAtLeastWord(ws[1..], i - 1);
    }
  }

  /** Replacing word `i` changes the sum by exactly the difference. */
  lemma {:induction false} SumUpdate(ws: seq<u16>, i: nat, v: u16)
    requires i < |ws|
    ensures Sum(ws[i := v]) == Sum(ws) - ws[i] + v
  {
    if i == 0 {
      assert ws[i := v][1..] == ws[1..];
    } else {
      assert ws[i := v][1..] == ws[1..][i - 1 := v];
      SumUpdate(ws[1..], i - 1, v);
    }
  }

  /** The incremental update of RFC 1624 agrees with recomputing the checksum
      of the modified words, for every word position and every new value, as
      long as the modified words do not all vanish (an IPv4 header never
      does: its first word holds the version). The word count bound keeps the
      sum inside the 32-bit accumulator. */
  lemma {:induction false} UpdateMatchesRecompute(ws: seq<u16>, i: nat, v: u16)
    requires i < |ws| <= 0x1_0001
    requires Sum(ws[i := v]) > 0
    ensures UpdateChecksum(WordsChecksum(ws), ws[i], v) == WordsChecksum(ws[i := v])
  {
    var s, s' := Sum(ws), Sum(ws[i := v]);
    assert s < U32 && s' < U32 && s' == s - ws[i] + v && ws[i] <= s by {
      SumBound(ws);
      SumBound(ws[i := v]);
      SumUpdate(ws, i, v);
      SumAtLeastWord(ws, i);
    }
    UpdateOnSums(s, s', ws[i], v);
  }

  /** The update on the sums themselves: from the old sum `s` to the new sum
      `s'`, by taking `m` out and putting `m'` in. */
  lemma UpdateOnSums(s: nat, s': nat, m: u16, m': u16)
    requires s < U32 && 0 < s' < U32 && m <= s && s' == s - m + m'
    ensures UpdateChecksum(0xFFFF - Folded(s), m, m') == 0xFFFF - Folded(s')
  {
    var f := Folded(s);
    var acc := f + (0xFFFF - m) + m';
    assert acc > 0 by {
      if f == 0 {
        assert s == 0;
      }
    }
    FoldedCongruent(acc, s', 1 - Carries(s));
  }

  /** Where the source's update departs from equation 3 of RFC 1624. With
      `d = ~HC - m + m'`: when `d > 0` the two agree; when `d == 0` the source
      gives 0xFFFF (negative zero) where equation 3 gives 0; when `d < 0` the
      u32 borrow adds 2^32, which is 1 modulo 0xFFFF, so the source's result
      is one less than equation 3's. */
  lemma AsWrittenVersusRfc1624(hc: u16, m: u16, m': u16)
    ensures var d := (0xFFFF - hc) - m + m';
      && (d > 0 ==> UpdateChecksumAsWritten(hc, m, m') == UpdateChecksum(hc, m, m'))
      && (d == 0 ==> UpdateChecksumAsWritten(hc, m, m') == 0xFFFF && UpdateChecksum(hc, m, m') == 0)
      && (d < 0 ==> UpdateChecksumAsWritten(hc, m, m') + 1 == UpdateChecksum(hc, m, m'))
  {
    var d := (0xFFFF - hc) - m + m';
    var acc := (0xFFFF - hc) + (0xFFFF - m) + m';
    var w := ((0xFFFF - hc - m) % U32 + m') % U32;
    WrappingAccumulator(hc, m, m');
    assert acc == d + 0xFFFF;
    if d > 0 {
      OnesEqual(Folded(d), Folded(acc), Carries(acc) - Carries(d) - 1);
    } else if d < 0 {
      assert w / 0x1_0000 == 0xFFFF && w % 0x1_0000 == 0x1_0000 + d;
      assert Folded(w) == 0x1_0000 + d;
      assert Folded(acc) == acc;
    }
  }

  /** The u32 accumulator of the source's update: the true difference when it
      is not negative, the difference plus 2^32 when it borrows. */
  lemma WrappingAccumulator(hc: u16, m: u16, m': u16)
    ensures var d := (0xFFFF - hc) - m + m';
      var w := ((0xFFFF - hc - m) % U32 + m') % U32;
      (d >= 0 ==> w == d) && (d < 0 ==> w == U32 + d)
  {
    var x := 0xFFFF - hc - m;
    if x >= 0 {
      assert x % U32 == x;
    } else {
      assert x % U32 == x + U32;
    }
  }

  /** The source's update agrees with recomputation whenever its accumulator
      does not borrow. */
  lemma {:induction false} AsWrittenMatchesRecomputeWithoutBorrow(ws: seq<u16>, i: nat, v: u16)
    requires i < |ws| <= 0x1_0001
    requires Sum(ws[i := v]) > 0
    requires (0xFFFF - WordsChecksum(ws)) - ws[i] + v > 0
    ensures UpdateChecksumAsWritten(WordsChecksum(ws), ws[i], v) == WordsChecksum(ws[i := v])
  {
    AsWrittenVersusRfc1624(WordsChecksum(ws), ws[i], v);
    UpdateMatchesRecompute(ws, i, v);
  }

  /** A header whose checksum is 0xFFFE (identification 0xb647, source
      192.168.1.93, destination 192.168.1.96): rewriting the destination's low
      word 0x0160 to 0x015d borrows, and the source's update yields 0x0001
      where recomputation yields 0x0002. */
  lemma AsWrittenBorrowCounterexample()
    ensures var h: seq<u16> := [0x4568, 0x003c, 0xb647, 0x4000, 0x4006, 0x0000, 0xc0a8, 0x015d, 0xc0a8, 0x0160];
      && Ipv4Checksum(h) == 0xFFFE
      && UpdateChecksumAsWritten(Ipv4Checksum(h), h[9], 0x015d) == 0x0001
      && Ipv4Checksum(h[9 := 0x015d]) == 0x0002
      && UpdateChecksum(Ipv4Checksum(h), h[9], 0x015d) == 0x0002
  {
    var h: seq<u16> := [0x4568, 0x003c, 0xb647, 0x4000, 0x4006, 0x0000, 0xc0a8, 0x015d, 0xc0a8, 0x0160];
    var h' := h[9 := 0x015d];
    SumOfTen(h);
    SumOfTen(h');
    assert Sum(h) == 0x2_FFFE && Sum(h') == 0x2_FFFB;
    FoldedOfWords(2, 0xFFFE);
    FoldedOfWords(2, 0xFFFB);
    assert Ipv4Checksum(h) == 0xFFFE && Ipv4Checksum(h') == 0x0002;
    FoldedOfWords(0, 0xFFFD);
    AsWrittenVersusRfc1624(0xFFFE, 0x0160, 0x015d);
  }

  /** The two folds of a sum with high word `hi` and low word `lo`, when
      the first fold carries at most once. */
  lemma FoldedOfWords(hi: nat, lo: nat)
    requires hi <= 0xFFFF && lo <= 0xFFFF
    ensures Folded(hi * 0x1_0000 + lo) == if hi + lo > 0xFFFF then hi + lo - 0xFFFF else hi + lo
  {
    assert FoldOnce(hi * 0x1_0000 + lo) == hi + lo;
  }

  /** Patching only the low word of an address is enough when its high word is
      unchanged: the checksum after the incremental update equals the checksum
      of the words with both halves of the new address in place. */
  lemma {:induction false} LowWordPatchSuffices(ws: seq<u16>, i: nat, a: u32)
    requires i + 1 < |ws| <= 0x1_0001
    requires ws[i] == High16(a)
    requires Sum(ws[i := High16(a)][i + 1 := Low16(a)]) > 0
    ensures UpdateChecksum(WordsChecksum(ws), ws[i + 1], Low16(a))
         == WordsChecksum(ws[i := High16(a)][i + 1 := Low16(a)])
  {
    assert ws[i := High16(a)] == ws;
    UpdateMatchesRecompute(ws, i + 1, Low16(a));
  }

  /** Storing the checksum into a zeroed checksum word makes the whole sequence
      check to zero (the verification rule of RFC 1071). */
  lemma {:induction false} ChecksumVerifiesToZero(ws: seq<u16>, k: nat)
    requires k < |ws| <= 0x1_0000
    requires ws[k] == 0 && Sum(ws) > 0
    ensures WordsChecksum(ws[k := WordsChecksum(ws)]) == 0
  {
    var c := WordsChecksum(ws);
    SumBound(ws);
    SumUpdate(ws, k, c);
    var s' := Sum(ws[k := c]);
    assert s' == Sum(ws) + c;
    assert s' == (Carries(Sum(ws)) + 1) * 0xFFFF;
    OnesEqual(Folded(s'), 0xFFFF, Carries(Sum(ws)) - Carries(s'));
  }

  /** The comparison `main` of script/src/main.rs prints: the header sample,
      its source address 192.168.1.96 replaced by 192.168.1.79 through both
      words, the incremental result against the recomputed one. The sample
      does not borrow, and the two agree. */
  lemma ScriptSampleAgrees()
    ensures var h: seq<u16> := [0x4568, 0x003c, 0xf0be, 0x4000, 0x4006, 0x0000, 0xc0a8, 0x0160, 0xc0a8, 0x015d];
      var newIp: u32 := 0xc0a8_014f;
      && Ipv4Checksum(h) == 0xc587
      && UpdateChecksumAsWritten(Ipv4Checksum(h), h[7], Low16(newIp))
         == Ipv4Checksum(h[6 := High16(newIp)][7 := Low16(newIp)])
         == 0xc598
  {
    var h: seq<u16> := [0x4568, 0x003c, 0xf0be, 0x4000, 0x4006, 0x0000, 0xc0a8, 0x0160, 0xc0a8, 0x015d];
    SumOfTen(h);
    assert Sum(h) == 0x3_3a75;
    FoldedOfWords(3, 0x3a75);
    assert h[6 := 0xc0a8][7 := 0x014f] == h[7 := 0x014f];
    SumOfTen(h[7 := 0x014f]);
    assert Sum(h[7 := 0x014f]) == 0x3_3a64;
    FoldedOfWords(3, 0x3a64);
    WrappingAccumulator(0xc587, 0x0160, 0x014f);
    FoldedSmall(0x3a67);
  }
}
