/** The sensor's XDP program (sensor/ebpf/src/main.rs): frames whose TCP
    source port is the mark port get the hardworker as Ethernet source and
    IPv4 source, with both checksums patched, and are passed up. The TOS test
    is commented out in the source, so no TOS and no IPv4 source address is
    ever looked at. An error from `?` is `XDP_ABORTED`. */
module SensorEbpf {
  import opened Bytes
  import opened Checksum
  import opened Xdp

  /** The verdict of `sensor`: aborted when the IPv4 or the TCP header does
      not fit, passed in every other case. */
  function Verdict(c: Consts, f: seq<u8>): (a: Action)
    ensures a == Aborted <==> |f| < 54
    ensures a != Aborted ==> a == Pass
  {
    if PtrAt(|f|, EthLen, Ipv4Len).Err? then Aborted
    else if PtrAt(|f|, EthLen + Ipv4Len, TcpLen).Err? then Aborted
    else if TcpSource(f) != c.mark.port then Pass
    else Pass
  }

  /** Whether the frame is rewritten: its TCP source port, in network order,
      is the mark port. */
  predicate Rewrites(c: Consts, f: seq<u8>)
    ensures Rewrites(c, f) ==> Verdict(c, f) == Pass
  {
    |f| >= EthLen + Ipv4Len + TcpLen && TcpSource(f) == c.mark.port
  }

  /** The MAC store of the rewrite: the Ethernet source becomes the
      hardworker's; the destination and the IPv4 and TCP headers are
      untouched. */
  function SetMac(c: Consts, f: seq<u8>): (e: seq<u8>)
    requires |f| >= EthLen + Ipv4Len + TcpLen
    ensures |e| == |f| && e[0..6] == f[0..6] && e[6..12] == c.mac.hardworker
    ensures forall k :: 12 <= k < |f| ==> e[k] == f[k]
    ensures e[30..34] == f[30..34] && Be16(e, 28) == IpSrcLow(f)
    ensures IpCheck(e) == IpCheck(f) && TcpCheck(e) == TcpCheck(f)
  {
    var e := SetEthSrc(f, c.mac.hardworker);
    assert e[0..6] == f[0..6] && e[30..34] == f[30..34];
    e
  }

  /** The rewrite: Ethernet source the hardworker (destination untouched),
      IPv4 source the hardworker (destination untouched), both checksums
      patched with the old and new low words of the source. */
  function Rewrite(c: Consts, f: seq<u8>): (g: seq<u8>)
    requires |f| >= EthLen + Ipv4Len + TcpLen
    ensures |g| == |f|
    ensures g[0..6] == f[0..6] && g[6..12] == c.mac.hardworker
    ensures g[26..30] == BeBytes32(c.ip.hardworker) && g[30..34] == f[30..34]
    ensures IpCheck(g) == UpdateChecksumAsWritten(IpCheck(f), IpSrcLow(f), Low16(c.ip.hardworker))
    ensures TcpCheck(g) == UpdateChecksumAsWritten(TcpCheck(f), IpSrcLow(f), Low16(c.ip.hardworker))
    ensures forall k :: 12 <= k < |f| && !(26 <= k < 30) && k != 24 && k != 25 && k != 50 && k != 51
              ==> g[k] == f[k]
  {
    var e := SetMac(c, f);
    var g := RewriteAddress(e, 26, c.ip.hardworker);
    assert g[0..6] == e[0..6] && g[30..34] == e[30..34];
    g
  }

  /** The sensor's decisions do not depend on the TOS byte or on the IPv4
      source address: two frames that differ only there get the same verdict
      and are rewritten alike. */
  lemma IgnoresTosAndSource(c: Consts, f: seq<u8>, f': seq<u8>)
    requires |f| == |f'|
    requires forall k :: 0 <= k < |f| && k != 15 && !(26 <= k < 30) ==> f[k] == f'[k]
    ensures Verdict(c, f) == Verdict(c, f')
    ensures Rewrites(c, f) <==> Rewrites(c, f')
  {
    if |f| >= 54 {
      assert f[34] == f'[34] && f[35] == f'[35];
    }
  }

  /** When the source's high word already is the hardworker's and the update
      `~HC - m + m'` of the IPv4 checksum neither borrows nor vanishes, the
      patched IPv4 checksum of a frame with a valid one is again valid. */
  lemma SourceRewriteKeepsIpChecksumValid(c: Consts, f: seq<u8>)
    requires |f| >= EthLen + Ipv4Len + TcpLen
    requires IpChecksumValid(f) && f[14] != 0
    requires Be16(f, 26) == High16(c.ip.hardworker)
    requires (0xFFFF - IpCheck(f)) - IpSrcLow(f) + Low16(c.ip.hardworker) > 0
    ensures IpChecksumValid(Rewrite(c, f))
  {
    var e := SetMac(c, f);
    assert e[14..34] == f[14..34];
    assert HeaderWords(e) == HeaderWords(f);
    RewriteKeepsIpChecksumValid(e, 26, c.ip.hardworker);
  }

  /** When that update borrows, the rewritten frame carries an IPv4 checksum
      one less than the valid one. */
  lemma SourceRewriteBorrowBreaksIpChecksum(c: Consts, f: seq<u8>)
    requires |f| >= EthLen + Ipv4Len + TcpLen
    requires IpChecksumValid(f) && f[14] != 0
    requires Be16(f, 26) == High16(c.ip.hardworker)
    requires (0xFFFF - IpCheck(f)) - IpSrcLow(f) + Low16(c.ip.hardworker) < 0
    ensures var g := Rewrite(c, f);
      IpCheck(g) + 1 == WordsChecksum(HeaderWords(g)[5 := 0]) && !IpChecksumValid(g)
  {
    var e := SetMac(c, f);
    assert e[14..34] == f[14..34];
    assert HeaderWords(e) == HeaderWords(f);
    RewriteBorrowBreaksIpChecksum(e, 26, c.ip.hardworker);
  }

  /** `try_sensor` on the frame in place: the verdict is `Verdict`; a frame
      the sensor matches is rewritten as `Rewrite` says, any other frame is
      left as it was. */
  method Sensor(c: Consts, frame: array<u8>) returns (a: Action)
    modifies frame
    ensures a == Verdict(c, old(frame[..]))
    ensures Rewrites(c, old(frame[..])) ==> frame[..] == Rewrite(c, old(frame[..]))
    ensures !Rewrites(c, old(frame[..])) ==> frame[..] == old(frame[..])
  {
    if PtrAt(frame.Length, EthLen, Ipv4Len).Err? {
      return Aborted;
    }
    if PtrAt(frame.Length, EthLen + Ipv4Len, TcpLen).Err? {
      return Aborted;
    }
    if frame[34] as int * 0x100 + frame[35] != c.mark.port {
      return Pass;
    }
    RewriteInPlace(c, frame);
    a := Pass;
  }

  /** The rewrite of lines 42-61, store by store. */
  method RewriteInPlace(c: Consts, frame: array<u8>)
    requires frame.Length >= EthLen + Ipv4Len + TcpLen
    modifies frame
    ensures frame[..] == Rewrite(c, old(frame[..]))
  {
    ghost var f := frame[..];
    Store(frame, 6, c.mac.hardworker);
    ghost var e := frame[..];
    assert e == SetEthSrc(f, c.mac.hardworker);
    var ipCsum := frame[24] as int * 0x100 + frame[25];
    var tcpCsum := frame[50] as int * 0x100 + frame[51];
    var oldIp := frame[28] as int * 0x100 + frame[29];
    assert ipCsum == IpCheck(e) && tcpCsum == TcpCheck(e) && oldIp == Be16(e, 28);
    var newIp := Low16(c.ip.hardworker);
    ipCsum := UpdateChecksumAsWritten(ipCsum, oldIp, newIp);
    tcpCsum := UpdateChecksumAsWritten(tcpCsum, oldIp, newIp);
    Store(frame, 26, BeBytes32(c.ip.hardworker));
    Store(frame, 24, BeBytes16(ipCsum));
    Store(frame, 50, BeBytes16(tcpCsum));
    assert frame[..] == RewriteAddress(e, 26, c.ip.hardworker);
  }
}
