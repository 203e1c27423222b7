/** What the four XDP programs share: the verdicts, the bounds-checked header
    access `ptr_at`, the build-time constants, the fixed header offsets they
    read (Ethernet at 0, IPv4 at 14, TCP at 34 whatever the IPv4 header length
    says) and the in-place stores they make into the frame. A frame is the
    byte range `[ctx.data(), ctx.data_end())`. */
module Xdp {
  import opened Bytes
  import opened Checksum
  import opened Wrappers

  /** The XDP verdicts the programs return. */
  datatype Action = Aborted | Drop | Pass | Tx

  const EthLen: nat := 14
  const Ipv4Len: nat := 20
  const TcpLen: nat := 20

  type Mac = s: seq<u8> | |s| == 6 witness [0, 0, 0, 0, 0, 0]

  /** The generated `MAC`, `IP`, `MARK` and `DATA` constants. Addresses are
      held as `Ipv4Addr::to_bits()`; `DATA.size` is a free parameter. */
  datatype Macs = Macs(logger: Mac, hardworker: Mac, sensor: Mac)
  datatype Ips = Ips(logger: u32, hardworker: u32, sensor: u32)
  datatype Mark = Mark(tos: u8, port: u16)
  datatype Data = Data(mtu: nat, size: nat)
  datatype Consts = Consts(mac: Macs, ip: Ips, mark: Mark, data: Data)

  /** `ptr_at::<T>(ctx, offset)` for a `T` of `size` bytes in a frame of
      `len` bytes: the view at `offset` when it ends inside the frame, an
      error otherwise. */
  function PtrAt(len: nat, offset: nat, size: nat): (r: Result<nat, ()>)
    ensures r.Ok? <==> offset + size <= len
    ensures r.Ok? ==> r.value == offset && r.value + size <= len
  {
    if offset + size > len then Err(()) else Ok(offset)
  }

  /** The three build-time assertions on a TOS mark: bit 0 clear, and the
      three precedence bits neither 000 nor 001. */
  predicate TosAsserts(tos: u8)
  {
    tos % 2 == 0 && tos / 0x20 != 0 && tos / 0x20 != 1
  }

  /** The hardworker's build-time assertions on `DATA`: a record and the
      IPv4 and TCP headers fit in the MTU, and the ring of sixteen records,
      `16 * (DATA.size as u32)`, is at most 256 KiB. */
  predicate DataAsserts(d: Data)
  {
    d.size + Ipv4Len + TcpLen <= d.mtu && 16 * (d.size % U32) <= 256 * 1024
  }

  /** What the `DATA` assertions guarantee: a `DATA.size`-byte payload after
      minimal IPv4 and TCP headers fits in one MTU-sized frame, and (with the
      size inside `u32`) a record is at most 16 KiB. */
  lemma DataAssertsMeaning(d: Data)
    requires DataAsserts(d)
    ensures EthLen + Ipv4Len + TcpLen + d.size <= EthLen + d.mtu
    ensures d.size < U32 ==> d.size <= 0x4000
  {
  }

  /** The byte-wise meaning of the TOS assertions: the mark is even and at
      least 0x40, so it can never be one of the classic precedence 0 or 1
      values. */
  lemma TosAssertsMeaning(tos: u8)
    ensures TosAsserts(tos) <==> tos % 2 == 0 && tos >= 0x40
  {
  }

  // Field readers, at the offsets the programs use.

  function Tos(f: seq<u8>): u8 requires |f| >= EthLen + Ipv4Len { f[15] }
  function IpCheck(f: seq<u8>): u16 requires |f| >= EthLen + Ipv4Len { Be16(f, 24) }
  /** The low word of the IPv4 source (`src_addr.swap_bytes() as u16`). */
  function IpSrcLow(f: seq<u8>): u16 requires |f| >= EthLen + Ipv4Len { Be16(f, 28) }
  /** The low word of the IPv4 destination. */
  function IpDstLow(f: seq<u8>): u16 requires |f| >= EthLen + Ipv4Len { Be16(f, 32) }
  function TcpSource(f: seq<u8>): u16 requires |f| >= EthLen + Ipv4Len + TcpLen { Be16(f, 34) }
  function TcpDest(f: seq<u8>): u16 requires |f| >= EthLen + Ipv4Len + TcpLen { Be16(f, 36) }
  /** The destination port as the little-endian host loads it, unswapped. */
  function TcpDestRaw(f: seq<u8>): u16 requires |f| >= EthLen + Ipv4Len + TcpLen { Le16(f, 36) }
  /** `doff()`: the high nibble of TCP byte 12. */
  function TcpDoff(f: seq<u8>): nat requires |f| >= EthLen + Ipv4Len + TcpLen { f[46] / 0x10 }
  /** `psh()`: bit 3 of TCP byte 13. */
  predicate TcpPsh(f: seq<u8>) requires |f| >= EthLen + Ipv4Len + TcpLen { (f[47] / 8) % 2 == 1 }
  function TcpCheck(f: seq<u8>): u16 requires |f| >= EthLen + Ipv4Len + TcpLen { Be16(f, 50) }

  /** The byte swap `u16::swap_bytes`. */
  function Swap16(x: u16): u16 { (x % 0x100) * 0x100 + x / 0x100 }

  /** Reading the destination port without a swap and comparing it with
      `port` is comparing the network-order port with `port` swapped. */
  lemma RawPortIsSwapped(f: seq<u8>, port: u16)
    requires |f| >= EthLen + Ipv4Len + TcpLen
    ensures TcpDestRaw(f) == port <==> TcpDest(f) == Swap16(port)
  {
    ByteDigits(f[37], f[36], port);
    ByteDigits(f[36], f[37], Swap16(port));
    assert Swap16(port) / 0x100 == port % 0x100 && Swap16(port) % 0x100 == port / 0x100;
  }

  /** Two bytes make up `x` exactly when they are its base-256 digits. */
  lemma ByteDigits(hi: u8, lo: u8, x: u16)
    ensures hi as int * 0x100 + lo == x <==> hi == x / 0x100 && lo == x % 0x100
  {
  }

  /** The ten header words of the IPv4 header at byte 14. */
  function HeaderWords(f: seq<u8>): (ws: seq<u16>)
    requires |f| >= EthLen + Ipv4Len
    ensures |ws| == 10 && forall k :: 0 <= k < 10 ==> ws[k] == Be16(f, 14 + 2 * k)
  {
    Words(f[14..34])
  }

  /** The IPv4 header's checksum field holds the checksum of the header
      taken with that field zero (section 3.1 of RFC 791). */
  predicate IpChecksumValid(f: seq<u8>)
    requires |f| >= EthLen + Ipv4Len
    ensures IpChecksumValid(f) && f[14] != 0 ==> WordsChecksum(HeaderWords(f)) == 0
  {
    ValidHeaderChecksumsToZero(f);
    IpCheck(f) == WordsChecksum(HeaderWords(f)[5 := 0])
  }

  /** A header whose checksum field holds the checksum of the rest sums, with
      that field, to zero (the receiver's check of section 3.1 of RFC 791). */
  lemma ValidHeaderChecksumsToZero(f: seq<u8>)
    requires |f| >= EthLen + Ipv4Len
    ensures IpCheck(f) == WordsChecksum(HeaderWords(f)[5 := 0]) && f[14] != 0
            ==> WordsChecksum(HeaderWords(f)) == 0
  {
    var ws := HeaderWords(f)[5 := 0];
    if IpCheck(f) == WordsChecksum(ws) && f[14] != 0 {
      assert ws[0] > 0;
      SumAtLeastWord(ws, 0);
      ChecksumVerifiesToZero(ws, 5);
      assert ws[5 := IpCheck(f)] == HeaderWords(f);
    }
  }

  /** The address rewrite both the hardworker and the sensor make: the four
      address bytes at `off` (26 for the source, 30 for the destination) get
      `addr` in network order, and the IPv4 and TCP checksums are each patched
      with the same pair, the address's old low word and `addr`'s low word.
      Nothing else changes. */
  function RewriteAddress(f: seq<u8>, off: nat, addr: u32): (g: seq<u8>)
    requires |f| >= EthLen + Ipv4Len + TcpLen
    requires off == 26 || off == 30
    ensures |g| == |f|
    ensures g[off..off + 4] == BeBytes32(addr)
    ensures IpCheck(g) == UpdateChecksumAsWritten(IpCheck(f), Be16(f, off + 2), Low16(addr))
    ensures TcpCheck(g) == UpdateChecksumAsWritten(TcpCheck(f), Be16(f, off + 2), Low16(addr))
    ensures forall k :: 0 <= k < |f| && !(off <= k < off + 4) && k != 24 && k != 25 && k != 50 && k != 51
              ==> g[k] == f[k]
  {
    var oldLow := Be16(f, off + 2);
    var ipCsum := UpdateChecksumAsWritten(IpCheck(f), oldLow, Low16(addr));
    var tcpCsum := UpdateChecksumAsWritten(TcpCheck(f), oldLow, Low16(addr));
    var g1 := Splice(f, off, BeBytes32(addr));
    var g2 := Splice(g1, 24, BeBytes16(ipCsum));
    var g3 := Splice(g2, 50, BeBytes16(tcpCsum));
    assert g3[off..off + 4] == g1[off..off + 4];
    g3
  }

  /** The accumulator `~HC - m + m'` of the update the rewrite makes on the
      IPv4 checksum, before any wrap-around: the update is exact when it is
      positive and borrows when it is negative. */
  function IpAccumulator(f: seq<u8>, off: nat, addr: u32): int
    requires |f| >= EthLen + Ipv4Len + TcpLen
    requires off == 26 || off == 30
  {
    (0xFFFF - IpCheck(f)) - Be16(f, off + 2) + Low16(addr)
  }

  /** When the address's high word does not change and the update's
      accumulator does not borrow (nor vanish), patching the IPv4 checksum
      with the low words only keeps a valid checksum valid: the result equals
      recomputing it over the rewritten header. The version nibble in byte 14
      keeps the header sum away from zero. */
  lemma RewriteKeepsIpChecksumValid(f: seq<u8>, off: nat, addr: u32)
    requires |f| >= EthLen + Ipv4Len + TcpLen
    requires off == 26 || off == 30
    requires IpChecksumValid(f) && f[14] != 0
    requires Be16(f, off) == High16(addr)
    requires IpAccumulator(f, off, addr) > 0
    ensures IpChecksumValid(RewriteAddress(f, off, addr))
  {
    RewriteRecomputes(f, off, addr);
    AsWrittenVersusRfc1624(IpCheck(f), Be16(f, off + 2), Low16(addr));
  }

  /** When the update's accumulator borrows, the rewrite leaves a checksum one
      less than the valid one, so a frame with a valid IPv4 checksum leaves
      with an invalid one. */
  lemma RewriteBorrowBreaksIpChecksum(f: seq<u8>, off: nat, addr: u32)
    requires |f| >= EthLen + Ipv4Len + TcpLen
    requires off == 26 || off == 30
    requires IpChecksumValid(f) && f[14] != 0
    requires Be16(f, off) == High16(addr)
    requires IpAccumulator(f, off, addr) < 0
    ensures var g := RewriteAddress(f, off, addr);
      IpCheck(g) + 1 == WordsChecksum(HeaderWords(g)[5 := 0]) && !IpChecksumValid(g)
  {
    RewriteRecomputes(f, off, addr);
    AsWrittenVersusRfc1624(IpCheck(f), Be16(f, off + 2), Low16(addr));
  }

  /** Under an unchanged high word, the RFC 1624 update of a valid IPv4
      checksum with the address's low words is the checksum of the rewritten
      header. */
  lemma RewriteRecomputes(f: seq<u8>, off: nat, addr: u32)
    requires |f| >= EthLen + Ipv4Len + TcpLen
    requires off == 26 || off == 30
    requires IpChecksumValid(f) && f[14] != 0
    requires Be16(f, off) == High16(addr)
    ensures UpdateChecksum(IpCheck(f), Be16(f, off + 2), Low16(addr))
         == WordsChecksum(HeaderWords(RewriteAddress(f, off, addr))[5 := 0])
  {
    var i := AddressWord(off);
    var ws := HeaderWords(f)[5 := 0];
    var ws' := ws[i := High16(addr)][i + 1 := Low16(addr)];
    assert ws[i] == High16(addr) && ws[i + 1] == Be16(f, off + 2);
    assert Sum(ws') > 0 by {
      assert ws'[0] == Be16(f, 14) > 0;
      SumAtLeastWord(ws', 0);
    }
    LowWordPatchSuffices(ws, i, addr);
    RewrittenWords(f, off, addr);
  }

  /** The index of the address's high word among the ten header words. */
  function AddressWord(off: nat): (i: nat)
    requires off == 26 || off == 30
    ensures off == 14 + 2 * i && i + 1 < 10 && i != 5 && i + 1 != 5
  {
    if off == 26 then 6 else 8
  }

  /** The header words after the rewrite, checksum word zeroed: the two
      address words replaced, all others as before. */
  lemma RewrittenWords(f: seq<u8>, off: nat, addr: u32)
    requires |f| >= EthLen + Ipv4Len + TcpLen
    requires off == 26 || off == 30
    ensures var i := AddressWord(off);
      HeaderWords(RewriteAddress(f, off, addr))[5 := 0]
      == HeaderWords(f)[5 := 0][i := High16(addr)][i + 1 := Low16(addr)]
  {
    var g := RewriteAddress(f, off, addr);
    var i := AddressWord(off);
    var l, r := HeaderWords(g)[5 := 0], HeaderWords(f)[5 := 0][i := High16(addr)][i + 1 := Low16(addr)];
    forall k | 0 <= k < 10 && k != 5 ensures l[k] == r[k] {
      RewrittenWord(f, off, addr, k);
    }
    assert l[5] == r[5];
  }

  lemma RewrittenWord(f: seq<u8>, off: nat, addr: u32, k: nat)
    requires |f| >= EthLen + Ipv4Len + TcpLen
    requires off == 26 || off == 30
    requires k < 10 && k != 5
    ensures var i := AddressWord(off);
      HeaderWords(RewriteAddress(f, off, addr))[k]
      == if k == i then High16(addr) else if k == i + 1 then Low16(addr) else HeaderWords(f)[k]
  {
    SplicedWord(f, RewriteAddress(f, off, addr), off, BeBytes32(addr), k);
  }

  /** Word `k` of the header of a frame `g` that holds `b` at `off` and
      otherwise agrees with `f` outside the two checksum fields. */
  lemma SplicedWord(f: seq<u8>, g: seq<u8>, off: nat, b: seq<u8>, k: nat)
    requires |g| == |f| >= EthLen + Ipv4Len + TcpLen && |b| == 4
    requires off == 26 || off == 30
    requires g[off..off + 4] == b
    requires forall j :: 0 <= j < |f| && !(off <= j < off + 4) && j != 24 && j != 25 && j != 50 && j != 51
               ==> g[j] == f[j]
    requires k < 10 && k != 5
    ensures Be16(g, 14 + 2 * k)
      == if 14 + 2 * k == off then Be16(b, 0) else if 14 + 2 * k == off + 2 then Be16(b, 2) else Be16(f, 14 + 2 * k)
  {
    if 14 + 2 * k == off {
      assert g[off] == b[0] && g[off + 1] == b[1];
    } else if 14 + 2 * k == off + 2 {
      assert g[off + 2] == b[2] && g[off + 3] == b[3];
    } else {
      assert g[14 + 2 * k] == f[14 + 2 * k];
      assert g[15 + 2 * k] == f[15 + 2 * k];
    }
  }

  /** `(*ethhdr).src_addr = mac` (bytes 6..12). */
  function SetEthSrc(f: seq<u8>, mac: Mac): (g: seq<u8>)
    requires |f| >= EthLen
    ensures |g| == |f| && g[6..12] == mac
    ensures forall k :: 0 <= k < |f| && !(6 <= k < 12) ==> g[k] == f[k]
  {
    Splice(f, 6, mac)
  }

  /** `(*ethhdr).dst_addr = mac` (bytes 0..6). */
  function SetEthDst(f: seq<u8>, mac: Mac): (g: seq<u8>)
    requires |f| >= EthLen
    ensures |g| == |f| && g[0..6] == mac
    ensures forall k :: 6 <= k < |f| ==> g[k] == f[k]
  {
    Splice(f, 0, mac)
  }

  /** A store of `x` into the frame at `off`. */
  method Store(frame: array<u8>, off: nat, x: seq<u8>)
    requires off + |x| <= frame.Length
    modifies frame
    ensures frame[..] == Splice(old(frame[..]), off, x)
  {
    forall k | off <= k < off + |x| {
      frame[k] := x[k - off];
    }
  }
}
