/** The test packet of network-playground/raw-ipv4.py: a twenty-byte IPv4
    header (section 3.1 of RFC 791) packed field by field in network order,
    its checksum computed over the header with the checksum field zero and
    stored into bytes 10-11, followed by a payload of two 64-bit values.
    The random identification and payload values are parameters. */
module RawIpv4 {
  import opened Bytes
  import opened Checksum
  import opened PythonChecksum

  /** `struct.pack('!Q', x)`-style big-endian bytes of a value of `n` bytes. */
  function BeBytes(x: nat, n: nat): (b: seq<u8>)
    ensures |b| == n
  {
    if n == 0 then [] else BeBytes(x / 0x100, n - 1) + [x % 0x100]
  }

  /** The big-endian value of a byte string (`struct.unpack('!Q', ...)`). */
  function BeValue(s: seq<u8>): (v: nat)
    ensures v < Pow256(|s|)
  {
    if s == [] then 0 else BeValue(s[..|s| - 1]) * 0x100 + s[|s| - 1]
  }

  /** Packing a value that fits in `n` bytes and unpacking it gives it back. */
  lemma {:induction false} BeValueOfBeBytes(x: nat, n: nat)
    requires x < Pow256(n)
    ensures BeValue(BeBytes(x, n)) == x
  {
    if n > 0 {
      var b := BeBytes(x, n);
      assert b[..n - 1] == BeBytes(x / 0x100, n - 1);
      BeValueOfBeBytes(x / 0x100, n - 1);
    }
  }

  /** `data = struct.pack('!QQ', u64_1, u64_2)`: sixteen bytes, from which
      both values unpack unchanged. */
  function Payload(v1: u64, v2: u64): (d: seq<u8>)
    ensures |d| == 16
    ensures BeValue(d[..8]) == v1 && BeValue(d[8..]) == v2
  {
    Pow256Eight();
    BeValueOfBeBytes(v1, 8);
    BeValueOfBeBytes(v2, 8);
    var d := BeBytes(v1, 8) + BeBytes(v2, 8);
    assert d[..8] == BeBytes(v1, 8) && d[8..] == BeBytes(v2, 8);
    d
  }

  const Loopback: seq<u8> := [127, 0, 0, 1]

  /** `ip_header`, packed as `!BBHHHBBH4s4s`: version and header length 0x45,
      type of service 104, total length 20 plus the payload length, the
      identification, flags and fragment offset 0, time to live 64, protocol
      253, a zero checksum and 127.0.0.1 as both addresses. Every field reads
      back at its RFC 791 offset. */
  function IpHeader(payloadLength: nat, ident: u16): (h: seq<u8>)
    requires 20 + payloadLength < 0x1_0000
    ensures |h| == 20
    ensures h[0] == 0x45 && h[1] == 104
    ensures Be16(h, 2) == 20 + payloadLength && Be16(h, 4) == ident && Be16(h, 6) == 0
    ensures h[8] == 64 && h[9] == 253 && Be16(h, 10) == 0
    ensures h[12..16] == Loopback && h[16..20] == Loopback
  {
    [0x45, 104] + BeBytes16(20 + payloadLength) + BeBytes16(ident) + BeBytes16(0)
      + [64, 253] + BeBytes16(0) + Loopback + Loopback
  }

  /** `final_ip_header`: the header with its checksum, big-endian, in bytes
      10-11; every other byte is the header's. */
  function FinalHeader(h: seq<u8>): (f: seq<u8>)
    requires |h| == 20
    ensures |f| == 20 && Be16(f, 10) == PyChecksum(h)
    ensures forall k :: 0 <= k < 20 && k != 10 && k != 11 ==> f[k] == h[k]
  {
    h[..10] + BeBytes16(PyChecksum(h)) + h[12..]
  }

  /** `packet = final_ip_header + data`. */
  function Packet(ident: u16, v1: u64, v2: u64): (p: seq<u8>)
    ensures |p| == 36
    ensures p[..20] == FinalHeader(IpHeader(16, ident)) && p[20..] == Payload(v1, v2)
  {
    FinalHeader(IpHeader(16, ident)) + Payload(v1, v2)
  }

  /** The total-length field of the packet equals the packet's length, 36. */
  lemma PacketTotalLength(ident: u16, v1: u64, v2: u64)
    ensures Be16(Packet(ident, v1, v2), 2) == |Packet(ident, v1, v2)| == 36
  {
    var p := Packet(ident, v1, v2);
    var h := IpHeader(16, ident);
    assert p[2] == FinalHeader(h)[2] == h[2];
    assert p[3] == FinalHeader(h)[3] == h[3];
  }

  /** The verification rule of section 1 of RFC 1071: for every
      identification, the checksum computed over the final header, checksum
      included, is zero. */
  lemma FinalHeaderChecksumsToZero(ident: u16)
    ensures PyChecksum(FinalHeader(IpHeader(16, ident))) == 0
  {
    var h := IpHeader(16, ident);
    var f := FinalHeader(h);
    var c := PyChecksum(h);
    assert Pad(h) == h && Pad(f) == f;
    assert f == Splice(h, 2 * 5, BeBytes16(c));
    WordsSplice(h, 5, c);
    var ws := Words(h);
    assert ws[5] == 0;
    assert ws[0] > 0;
    SumAtLeastWord(ws, 0);
    ChecksumVerifiesToZero(ws, 5);
  }
}
