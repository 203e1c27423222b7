/** Fixed-width unsigned integers and the big/little-endian byte views the
    packet filters, checksums and ring consumers work with.  Integers are
    unbounded in Dafny, so every width is a subset type and every shift or
    mask of the source is written as `/` or `%` by a power of two. */
module Bytes {

  type u8 = x: int | 0 <= x < 0x100
  type u16 = x: int | 0 <= x < 0x1_0000
  type u32 = x: int | 0 <= x < 0x1_0000_0000
  type u64 = x: int | 0 <= x < 0x1_0000_0000_0000_0000

  /** A run of `n` zero bytes (`[0u8; n]`). */
  function Zeros(n: nat): (z: seq<u8>)
    ensures |z| == n && forall k :: 0 <= k < n ==> z[k] == 0
  {
    seq(n, _ => 0)
  }

  function Min(a: nat, b: nat): nat { if a <= b then a else b }

  /** `u16::from_be_bytes([s[i], s[i+1]])`: a big-endian (network order) word. */
  function Be16(s: seq<u8>, i: nat): u16
    requires i + 2 <= |s|
  {
    s[i] as int * 0x100 + s[i + 1]
  }

  /** A 16-bit field read in host order on a little-endian machine, without a
      byte swap (`u16::from_le_bytes`). */
  function Le16(s: seq<u8>, i: nat): u16
    requires i + 2 <= |s|
  {
    s[i + 1] as int * 0x100 + s[i]
  }

  /** `x.to_be_bytes()` for a 16-bit value. */
  function BeBytes16(x: u16): (b: seq<u8>)
    ensures |b| == 2 && Be16(b, 0) == x
  {
    [x / 0x100, x % 0x100]
  }

  /** `Ipv4Addr::octets()` of an address whose `to_bits()` is `a`. */
  function BeBytes32(a: u32): (b: seq<u8>)
    ensures |b| == 4
    ensures Be16(b, 0) == a / 0x1_0000 && Be16(b, 2) == a % 0x1_0000
  {
    Digits32(a);
    [a / 0x100_0000, (a / 0x1_0000) % 0x100, (a / 0x100) % 0x100, a % 0x100]
  }

  /** The four base-256 digits of `a`, taken two by two, are the base-256
      digits of its high and of its low 16 bits. */
  lemma Digits32(a: u32)
    ensures a / 0x100_0000 == (a / 0x1_0000) / 0x100
    ensures (a / 0x100) % 0x100 == (a % 0x1_0000) / 0x100
    ensures a % 0x100 == (a % 0x1_0000) % 0x100
  {
    var hi, lo := a / 0x1_0000, a % 0x1_0000;
    assert a == hi * 0x1_0000 + lo;
    assert a / 0x100 == hi * 0x100 + lo / 0x100;
  }

  /** The low 16 bits of an address (`addr as u16`). */
  function Low16(a: u32): u16 { a % 0x1_0000 }

  /** The high 16 bits of an address (`(addr >> 16) as u16`). */
  function High16(a: u32): u16 { a / 0x1_0000 }

  /** `u64::from_le_bytes` of the eight bytes at `i`. */
  function Le64(s: seq<u8>, i: nat): u64
    requires i + 8 <= |s|
  {
    Pow256Eight();
    LeValue(s[i..i + 8])
  }

  lemma Pow256Eight()
    ensures Pow256(8) == 0x1_0000_0000_0000_0000
  {
    assert Pow256(4) == 0x1_0000_0000;
  }

  /** `ptr::read_unaligned` of a `[u64; n]` on a little-endian host: the
      record's bytes as little-endian 64-bit words. */
  function U64s(b: seq<u8>): (w: seq<u64>)
    requires |b| % 8 == 0
    ensures |w| == |b| / 8 && forall i :: 0 <= i < |w| ==> w[i] == Le64(b, 8 * i)
  {
    seq(|b| / 8, i requires 0 <= i < |b| / 8 => Le64(b, 8 * i))
  }

  /** The little-endian value of a byte string. */
  function LeValue(s: seq<u8>): (v: nat)
    ensures v < Pow256(|s|)
  {
    if s == [] then 0 else s[0] + 0x100 * LeValue(s[1..])
  }

  function Pow256(n: nat): (p: nat)
    ensures p >= 1
  {
    if n == 0 then 1 else 0x100 * Pow256(n - 1)
  }

  /** `x.to_le_bytes()` for a value of `n` bytes. */
  function LeBytes(x: nat, n: nat): (b: seq<u8>)
    ensures |b| == n
  {
    if n == 0 then [] else [x % 0x100] + LeBytes(x / 0x100, n - 1)
  }

  lemma {:induction false} LeBytesOfLeValue(s: seq<u8>)
    ensures LeBytes(LeValue(s), |s|) == s
  {
    if s != [] {
      LeBytesOfLeValue(s[1..]);
      assert LeValue(s) % 0x100 == s[0];
      assert LeValue(s) / 0x100 == LeValue(s[1..]);
    }
  }

  /** The 16-bit big-endian words of an even-length byte string, in order. */
  function Words(b: seq<u8>): (w: seq<u16>)
    requires |b| % 2 == 0
    ensures |w| == |b| / 2
    ensures forall k :: 0 <= k < |w| ==> w[k] == Be16(b, 2 * k)
    decreases |b|
  {
    if b == [] then [] else [Be16(b, 0)] + Words(b[2..])
  }

  /** Overwriting `|x|` bytes of `s` at offset `off` (a header field store). */
  function Splice(s: seq<u8>, off: nat, x: seq<u8>): (r: seq<u8>)
    requires off + |x| <= |s|
    ensures |r| == |s|
    ensures forall k :: 0 <= k < |s| && (k < off || off + |x| <= k) ==> r[k] == s[k]
    ensures forall k :: 0 <= k < |x| ==> r[off + k] == x[k]
  {
    s[..off] + x + s[off + |x|..]
  }

  /** Two big-endian words stored by overwriting the two bytes at `2 * k`
      change exactly word `k` of the word view. */
  lemma WordsSplice(b: seq<u8>, k: nat, x: u16)
    requires |b| % 2 == 0 && 2 * k + 2 <= |b|
    ensures Words(Splice(b, 2 * k, BeBytes16(x))) == Words(b)[k := x]
  {
    var l, r := Words(Splice(b, 2 * k, BeBytes16(x))), Words(b)[k := x];
    assert |l| == |r|;
    forall j | 0 <= j < |l| ensures l[j] == r[j] {
      if j != k {
        assert Splice(b, 2 * k, BeBytes16(x))[2 * j] == b[2 * j];
        assert Splice(b, 2 * k, BeBytes16(x))[2 * j + 1] == b[2 * j + 1];
      }
    }
  }
}
