/** The logger's XDP program (logger/ebpf/src/main.rs): a frame with the TOS
    mark whose destination port, compared as loaded (without a byte swap),
    is not the mark port gets the sensor as its Ethernet source. Every frame
    that is not aborted is passed. An error from `?` is `XDP_ABORTED`. */
module LoggerEbpf {
  import opened Bytes
  import opened Xdp
  import HardworkerEbpf

  /** The verdict of `logger`: aborted when the IPv4 header does not fit, or
      when the TOS matches and the TCP header does not fit; passed in every
      other case. It is never `XDP_TX` nor `XDP_DROP`. */
  function Verdict(c: Consts, f: seq<u8>): (a: Action)
    ensures a == Aborted || a == Pass
    ensures a == Aborted <==> |f| < 34 || (|f| < 54 && f[15] == c.mark.tos)
  {
    if PtrAt(|f|, EthLen, Ipv4Len).Err? then Aborted
    else if Tos(f) != c.mark.tos then Pass
    else if PtrAt(|f|, EthLen + Ipv4Len, TcpLen).Err? then Aborted
    else if TcpDestRaw(f) == c.mark.port then Pass
    else Pass
  }

  /** Whether the frame is rewritten: the TOS is the mark and the port field,
      read in host (little-endian) order, differs from the mark port. */
  predicate Rewrites(c: Consts, f: seq<u8>)
    ensures Rewrites(c, f) ==> Verdict(c, f) == Pass
  {
    |f| >= EthLen + Ipv4Len + TcpLen && Tos(f) == c.mark.tos && TcpDestRaw(f) != c.mark.port
  }

  /** The rewrite: only the Ethernet source changes, to the sensor. */
  function Rewrite(c: Consts, f: seq<u8>): (g: seq<u8>)
    requires |f| >= EthLen
    ensures |g| == |f| && g[6..12] == c.mac.sensor
    ensures forall k :: 0 <= k < |f| && !(6 <= k < 12) ==> g[k] == f[k]
  {
    SetEthSrc(f, c.mac.sensor)
  }

  /** A frame the hardworker reflects carries the mark port in network
      order; the logger reads that field unswapped, so it rewrites such a
      frame exactly when the port's two bytes differ. */
  lemma RewritesReflectedFrames(c: Consts, f: seq<u8>)
    requires HardworkerEbpf.Verdict(c, f) == Tx
    ensures Rewrites(c, HardworkerEbpf.Reflect(c, f)) <==> Swap16(c.mark.port) != c.mark.port
  {
    var g := HardworkerEbpf.Reflect(c, f);
    assert g[15] == f[15] && g[36] == f[36] && g[37] == f[37];
    RawPortIsSwapped(g, c.mark.port);
  }

  /** `try_logger` on the frame in place: the verdict is `Verdict`; a frame
      the logger matches is rewritten as `Rewrite` says, any other frame is
      left as it was. */
  method Logger(c: Consts, frame: array<u8>) returns (a: Action)
    modifies frame
    ensures a == Verdict(c, old(frame[..]))
    ensures Rewrites(c, old(frame[..])) ==> frame[..] == Rewrite(c, old(frame[..]))
    ensures !Rewrites(c, old(frame[..])) ==> frame[..] == old(frame[..])
  {
    if PtrAt(frame.Length, EthLen, Ipv4Len).Err? {
      return Aborted;
    }
    if frame[15] != c.mark.tos {
      return Pass;
    }
    if PtrAt(frame.Length, EthLen + Ipv4Len, TcpLen).Err? {
      return Aborted;
    }
    if frame[37] as int * 0x100 + frame[36] == c.mark.port {
      return Pass;
    }
    Store(frame, 6, c.mac.sensor);
    a := Pass;
  }
}
