/** The hardworker's XDP program (hardworker/ebpf/src/main.rs): frames marked
    with the TOS mark and sent to the mark port are reflected to the logger
    (Ethernet addresses and IPv4 destination rewritten, both checksums
    patched, `XDP_TX`), and a frame with PSH set also leaves a fixed-size
    snapshot of its payload in the ring. An error from `?` is `XDP_ABORTED`. */
module HardworkerEbpf {
  import opened Bytes
  import opened Checksum
  import opened Xdp
  import opened Ring

  /** `usize` arithmetic wraps modulo 2^64 in the eBPF build. */
  const UsizeMod: nat := 0x1_0000_0000_0000_0000

  /** The verdict of `hardworker`: aborted when the IPv4 header does not fit,
      passed on a TOS other than the mark (even when the TCP header is cut
      short), aborted when the TCP header does not fit, passed on another
      destination port (read in network order), reflected otherwise. */
  function Verdict(c: Consts, f: seq<u8>): (a: Action)
    ensures a != Drop
    ensures a == Aborted <==> |f| < 34 || (|f| < 54 && f[15] == c.mark.tos)
    ensures a == Tx <==> |f| >= 54 && Tos(f) == c.mark.tos && TcpDest(f) == c.mark.port
  {
    if PtrAt(|f|, EthLen, Ipv4Len).Err? then Aborted
    else if Tos(f) != c.mark.tos then Pass
    else if PtrAt(|f|, EthLen + Ipv4Len, TcpLen).Err? then Aborted
    else if TcpDest(f) != c.mark.port then Pass
    else Tx
  }

  /** Where the payload starts: after a 20-byte IPv4 header, whatever its IHL,
      and the TCP header of `doff` words. */
  function PayloadOffset(f: seq<u8>): (p: nat)
    requires |f| >= EthLen + Ipv4Len + TcpLen
    ensures 34 <= p <= 34 + 60 && p == 34 + 4 * TcpDoff(f)
  {
    EthLen + Ipv4Len + TcpDoff(f) * 4
  }

  /** The record written into a reserved entry of `size` bytes. `stale` is
      what the entry holds when nothing is written into it. */
  function Snapshot(size: nat, f: seq<u8>, stale: seq<u8>): (r: seq<u8>)
    requires |f| >= EthLen + Ipv4Len + TcpLen && |stale| == size
    ensures |r| == size
  {
    var p := PayloadOffset(f);
    if PtrAt(|f|, p, size).Ok? then f[p..p + size]
    else
      var dataSize := (|f| - p) % UsizeMod;
      if dataSize == 600 then
        if PtrAt(|f|, p, 600).Ok? then
          var copySize := Min(600, size);
          f[p..p + copySize] + Zeros(size)[copySize..]
        else stale
      else stale
  }

  /** What the snapshot is: the `size` payload bytes when they are all in the
      frame; otherwise, when exactly 600 bytes follow the TCP header, those
      600 bytes padded with zeros (the record is then longer than 600, so the
      `min` always picks 600 and the second bounds check always succeeds);
      otherwise the untouched entry. */
  lemma SnapshotContents(size: nat, f: seq<u8>, stale: seq<u8>)
    requires |f| >= EthLen + Ipv4Len + TcpLen && |stale| == size && |f| < UsizeMod
    ensures var p := PayloadOffset(f);
      var r := Snapshot(size, f, stale);
      && (p + size <= |f| ==> r == f[p..p + size])
      && (p + size > |f| && |f| - p == 600 ==> size > 600 && r == f[p..] + Zeros(size - 600))
      && (p + size > |f| && |f| - p != 600 ==> r == stale)
  {
    var p := PayloadOffset(f);
    if p + size > |f| {
      if |f| - p < 0 {
        assert (|f| - p) % UsizeMod == UsizeMod + (|f| - p);
      } else {
        assert (|f| - p) % UsizeMod == |f| - p;
      }
      if |f| - p == 600 {
        assert Zeros(size)[600..] == Zeros(size - 600);
      }
    }
  }

  /** The two MAC stores of the reflection: source the hardworker, then
      destination the logger; the IPv4 and TCP headers are untouched. */
  function SetMacs(c: Consts, f: seq<u8>): (e: seq<u8>)
    requires |f| >= EthLen + Ipv4Len + TcpLen
    ensures |e| == |f| && e[0..6] == c.mac.logger && e[6..12] == c.mac.hardworker
    ensures forall k :: 12 <= k < |f| ==> e[k] == f[k]
    ensures IpCheck(e) == IpCheck(f) && TcpCheck(e) == TcpCheck(f) && IpDstLow(e) == IpDstLow(f)
  {
    var e := SetEthDst(SetEthSrc(f, c.mac.hardworker), c.mac.logger);
    assert e[6..12] == c.mac.hardworker;
    e
  }

  /** The reflection: Ethernet source the hardworker, destination the
      logger, IPv4 destination the logger, both checksums patched with the
      old and new low words of the destination. Every other byte is kept. */
  function Reflect(c: Consts, f: seq<u8>): (g: seq<u8>)
    requires |f| >= EthLen + Ipv4Len + TcpLen
    ensures |g| == |f|
    ensures g[0..6] == c.mac.logger && g[6..12] == c.mac.hardworker
    ensures g[30..34] == BeBytes32(c.ip.logger)
    ensures IpCheck(g) == UpdateChecksumAsWritten(IpCheck(f), IpDstLow(f), Low16(c.ip.logger))
    ensures TcpCheck(g) == UpdateChecksumAsWritten(TcpCheck(f), IpDstLow(f), Low16(c.ip.logger))
    ensures forall k :: 12 <= k < |f| && !(30 <= k < 34) && k != 24 && k != 25 && k != 50 && k != 51
              ==> g[k] == f[k]
  {
    var e := SetMacs(c, f);
    var g := RewriteAddress(e, 30, c.ip.logger);
    assert g[0..6] == e[0..6] && g[6..12] == e[6..12];
    g
  }

  /** When the destination's high word already is the logger's and the
      update `~HC - m + m'` of the IPv4 checksum neither borrows nor vanishes,
      the patched IPv4 checksum of a frame with a valid one is again valid: it
      equals recomputing the checksum of the rewritten header. */
  lemma ReflectKeepsIpChecksumValid(c: Consts, f: seq<u8>)
    requires |f| >= EthLen + Ipv4Len + TcpLen
    requires IpChecksumValid(f) && f[14] != 0
    requires Be16(f, 30) == High16(c.ip.logger)
    requires (0xFFFF - IpCheck(f)) - IpDstLow(f) + Low16(c.ip.logger) > 0
    ensures IpChecksumValid(Reflect(c, f))
  {
    var e := SetMacs(c, f);
    assert e[14..34] == f[14..34];
    assert HeaderWords(e) == HeaderWords(f);
    RewriteKeepsIpChecksumValid(e, 30, c.ip.logger);
  }

  /** When that update borrows, the reflected frame carries an IPv4 checksum
      one less than the valid one. */
  lemma ReflectBorrowBreaksIpChecksum(c: Consts, f: seq<u8>)
    requires |f| >= EthLen + Ipv4Len + TcpLen
    requires IpChecksumValid(f) && f[14] != 0
    requires Be16(f, 30) == High16(c.ip.logger)
    requires (0xFFFF - IpCheck(f)) - IpDstLow(f) + Low16(c.ip.logger) < 0
    ensures var g := Reflect(c, f);
      IpCheck(g) + 1 == WordsChecksum(HeaderWords(g)[5 := 0]) && !IpChecksumValid(g)
  {
    var e := SetMacs(c, f);
    assert e[14..34] == f[14..34];
    assert HeaderWords(e) == HeaderWords(f);
    RewriteBorrowBreaksIpChecksum(e, 30, c.ip.logger);
  }

  /** A 54-byte frame with TOS 0x68, IPv4 checksum 0xFFFE, identification
      0xb647, from 192.168.1.93 to 192.168.1.96, sent to TCP port `port`. */
  function BorrowFrame(port: u16): (f: seq<u8>)
    ensures |f| == 54
    ensures f[14..34] == [0x45, 0x68, 0x00, 0x3c, 0xb6, 0x47, 0x40, 0x00, 0x40, 0x06,
                          0xff, 0xfe, 0xc0, 0xa8, 0x01, 0x5d, 0xc0, 0xa8, 0x01, 0x60]
    ensures TcpDest(f) == port
  {
    var f := Zeros(12) + [0x08, 0x00]
      + [0x45, 0x68, 0x00, 0x3c, 0xb6, 0x47, 0x40, 0x00, 0x40, 0x06,
         0xff, 0xfe, 0xc0, 0xa8, 0x01, 0x5d, 0xc0, 0xa8, 0x01, 0x60]
      + [0, 0, port / 0x100, port % 0x100] + Zeros(16);
    assert f[36] == port / 0x100 && f[37] == port % 0x100;
    f
  }

  /** The fields of `BorrowFrame` the hardworker reads. */
  lemma BorrowFrameFields(port: u16)
    ensures var f := BorrowFrame(port);
      && Tos(f) == 0x68 && f[14] == 0x45 && IpCheck(f) == 0xFFFE
      && Be16(f, 30) == 0xc0a8 && IpDstLow(f) == 0x0160
      && HeaderWords(f)[5 := 0] == BorrowWords
  {
    var f := BorrowFrame(port);
    var b := f[14..34];
    assert f[15] == b[1] && f[14] == b[0] && f[24] == b[10] && f[25] == b[11];
    assert f[30] == b[16] && f[31] == b[17] && f[32] == b[18] && f[33] == b[19];
    BorrowFrameWords(f);
  }

  /** The header of `BorrowFrame` with its checksum field zeroed. */
  const BorrowWords: seq<u16> :=
    [0x4568, 0x003c, 0xb647, 0x4000, 0x4006, 0x0000, 0xc0a8, 0x015d, 0xc0a8, 0x0160]

  lemma BorrowFrameWords(f: seq<u8>)
    requires |f| >= EthLen + Ipv4Len
    requires f[14..34] == [0x45, 0x68, 0x00, 0x3c, 0xb6, 0x47, 0x40, 0x00, 0x40, 0x06,
                           0xff, 0xfe, 0xc0, 0xa8, 0x01, 0x5d, 0xc0, 0xa8, 0x01, 0x60]
    ensures HeaderWords(f)[5 := 0] == BorrowWords
  {
    var b := f[14..34];
    var ws := HeaderWords(f)[5 := 0];
    forall k | 0 <= k < 10
      ensures ws[k] == BorrowWords[k]
    {
      if k != 5 {
        assert f[14 + 2 * k] == b[2 * k] && f[15 + 2 * k] == b[2 * k + 1];
      }
    }
  }

  /** The borrow on a real frame: `BorrowFrame` of the mark port carries a
      valid IPv4 checksum and is reflected; reflected to the logger at
      192.168.1.93 it leaves with IPv4 checksum 0x0001, where the valid
      checksum of its rewritten header is 0x0002. */
  lemma ReflectBorrowExample(c: Consts)
    requires c.mark.tos == 0x68 && c.ip.logger == 0xc0a8_015d
    ensures var f := BorrowFrame(c.mark.port);
      && Verdict(c, f) == Tx && IpChecksumValid(f)
      && IpCheck(Reflect(c, f)) == 0x0001
      && WordsChecksum(HeaderWords(Reflect(c, f))[5 := 0]) == 0x0002
  {
    var f := BorrowFrame(c.mark.port);
    BorrowFrameFields(c.mark.port);
    assert IpChecksumValid(f) by {
      AsWrittenBorrowCounterexample();
    }
    assert Verdict(c, f) == Tx;
    assert IpCheck(Reflect(c, f)) == 0x0001 by {
      AsWrittenBorrowCounterexample();
    }
    ReflectBorrowBreaksIpChecksum(c, f);
  }

  /** The reflected frame keeps its TOS byte and destination port, so the
      hardworker reflects it again if it ever comes back. */
  lemma ReflectedFrameMatchesAgain(c: Consts, f: seq<u8>)
    requires Verdict(c, f) == Tx
    ensures Verdict(c, Reflect(c, f)) == Tx
  {
    var g := Reflect(c, f);
    assert g[15] == f[15] && g[36] == f[36] && g[37] == f[37];
  }

  /** `try_hardworker` on the frame in place, with the ring `TARGET_MAP`.
      The verdict is `Verdict`; a reflected frame is rewritten as `Reflect`
      says and any other frame is left as it was; a record is submitted
      exactly when the frame is reflected, has PSH set and the ring has room,
      and it holds the `Snapshot` of the frame before the rewrite. A full
      ring changes nothing but the missing record. */
  method Hardworker(c: Consts, frame: array<u8>, ring: RingBuf, stale: seq<u8>) returns (a: Action)
    requires ring.Valid() && |stale| == c.data.size
    modifies frame, ring
    ensures ring.Valid() && ring.reserved == old(ring.reserved)
    ensures a == Verdict(c, old(frame[..]))
    ensures a == Tx ==> frame[..] == Reflect(c, old(frame[..]))
    ensures a != Tx ==> frame[..] == old(frame[..])
    ensures ring.records
         == if a == Tx && TcpPsh(old(frame[..])) && old(ring.HasRoom())
            then old(ring.records) + [Snapshot(c.data.size, old(frame[..]), stale)]
            else old(ring.records)
  {
    a := Classify(c, frame);
    if a == Tx {
      Record(c, frame, ring, stale);
      ReflectInPlace(c, frame);
    }
  }

  /** Lines 58-91: on PSH, a record is reserved and, when the ring has room,
      filled with the payload snapshot and submitted. */
  method Record(c: Consts, frame: array<u8>, ring: RingBuf, stale: seq<u8>)
    requires ring.Valid() && |stale| == c.data.size && frame.Length >= EthLen + Ipv4Len + TcpLen
    modifies ring
    ensures ring.Valid() && ring.reserved == old(ring.reserved)
    ensures ring.records
         == if TcpPsh(frame[..]) && old(ring.HasRoom())
            then old(ring.records) + [Snapshot(c.data.size, frame[..], stale)]
            else old(ring.records)
  {
    if (frame[47] / 8) % 2 == 1 {
      var ok := ring.Reserve();
      if ok {
        var entry := CopyPayload(c.data.size, frame, stale);
        ring.Submit(entry);
      }
    }
  }

  /** The checks of lines 36-56, each returning early: the IPv4 header must
      fit, the TOS must be the mark, the TCP header must fit and the
      destination port must be the mark port. */
  method Classify(c: Consts, frame: array<u8>) returns (a: Action)
    ensures a == Verdict(c, frame[..])
  {
    if PtrAt(frame.Length, EthLen, Ipv4Len).Err? {
      return Aborted;
    }
    if frame[15] != c.mark.tos {
      return Pass;
    }
    if PtrAt(frame.Length, EthLen + Ipv4Len, TcpLen).Err? {
      return Aborted;
    }
    if frame[36] as int * 0x100 + frame[37] != c.mark.port {
      return Pass;
    }
    return Tx;
  }

  /** Filling the reserved entry (lines 65-84): the `[u8; DATA.size]` view
      at the payload when it fits, else the 600-byte fallback copied into a
      zeroed buffer, else nothing. */
  method CopyPayload(size: nat, frame: array<u8>, stale: seq<u8>) returns (entry: seq<u8>)
    requires frame.Length >= EthLen + Ipv4Len + TcpLen && |stale| == size
    ensures entry == Snapshot(size, frame[..], stale)
  {
    entry := stale;
    var p := EthLen + Ipv4Len + (frame[46] / 0x10) * 4;
    if PtrAt(frame.Length, p, size).Ok? {
      entry := frame[p..p + size];
    } else {
      var dataSize := (frame.Length - p) % UsizeMod;
      if dataSize == 600 {
        if PtrAt(frame.Length, p, 600).Ok? {
          entry := ZeroPadded(frame, p, size);
        }
      }
    }
  }

  /** The fallback copy: up to 600 bytes from `p` into a zeroed buffer of
      `size` bytes. */
  method ZeroPadded(frame: array<u8>, p: nat, size: nat) returns (entry: seq<u8>)
    requires p + 600 <= frame.Length
    ensures var copySize := Min(600, size);
      entry == frame[p..p + copySize] + Zeros(size)[copySize..]
  {
    var buffer := new u8[size](_ => 0);
    var copySize := Min(600, size);
    forall k | 0 <= k < copySize {
      buffer[k] := frame[p + k];
    }
    entry := buffer[..];
    assert entry == frame[p..p + copySize] + Zeros(size)[copySize..];
  }

  /** The rewrite of lines 93-110, store by store. */
  method ReflectInPlace(c: Consts, frame: array<u8>)
    requires frame.Length >= EthLen + Ipv4Len + TcpLen
    modifies frame
    ensures frame[..] == Reflect(c, old(frame[..]))
  {
    ghost var f := frame[..];
    Store(frame, 6, c.mac.hardworker);
    Store(frame, 0, c.mac.logger);
    ghost var e := frame[..];
    assert e == SetEthDst(SetEthSrc(f, c.mac.hardworker), c.mac.logger);
    var ipCsum := frame[24] as int * 0x100 + frame[25];
    var tcpCsum := frame[50] as int * 0x100 + frame[51];
    var oldIp := frame[32] as int * 0x100 + frame[33];
    assert ipCsum == IpCheck(e) && tcpCsum == TcpCheck(e) && oldIp == Be16(e, 32);
    var newIp := Low16(c.ip.logger);
    ipCsum := UpdateChecksumAsWritten(ipCsum, oldIp, newIp);
    tcpCsum := UpdateChecksumAsWritten(tcpCsum, oldIp, newIp);
    Store(frame, 30, BeBytes32(c.ip.logger));
    Store(frame, 24, BeBytes16(ipCsum));
    Store(frame, 50, BeBytes16(tcpCsum));
    assert frame[..] == RewriteAddress(e, 30, c.ip.logger);
  }
}
