/** The myapp XDP program (myapp-ebpf/src/main.rs): a frame long enough to
    carry a full record after the IPv4 header, of ethertype IPv4 and with TOS
    0b01101000, has its 4093 words after the IPv4 header copied into the ring
    and is dropped. The frame itself is never written. */
module MyappEbpf {
  import opened Bytes
  import opened Xdp
  import opened Ring

  const U64Count: nat := 4093
  const DataSize: nat := U64Count * 8
  const TargetTos: u8 := 0x68

  /** `EtherType::Ipv4` as it lies in the frame: 0x0800 in network order. */
  predicate IsIpv4(f: seq<u8>)
    requires |f| >= EthLen
    ensures IsIpv4(f) <==> Be16(f, 12) == 0x0800
  {
    ByteDigits(f[12], f[13], 0x0800);
    f[12] == 0x08 && f[13] == 0x00
  }

  /** The literal mark satisfies the three build-time assertions. */
  lemma TargetTosAsserts()
    ensures TosAsserts(TargetTos)
  {
  }

  /** The verdict of `myapp`: passed when the frame is too short for a
      record, is not IPv4 or has another TOS; dropped otherwise. The two
      header reads after the length gate cannot fail, so it is never
      aborted. */
  function Verdict(f: seq<u8>): (a: Action)
    ensures a == Pass || a == Drop
    ensures a == Drop <==> |f| >= EthLen + Ipv4Len + DataSize && IsIpv4(f) && Tos(f) == TargetTos
  {
    if EthLen + Ipv4Len + DataSize > |f| then Pass
    else if PtrAt(|f|, 0, EthLen).Err? then Aborted
    else if !IsIpv4(f) then Pass
    else if PtrAt(|f|, EthLen, Ipv4Len).Err? then Aborted
    else if Tos(f) != TargetTos then Pass
    else Drop
  }

  /** The record written into a reserved entry: the `[u64; 4093]` view after
      the IPv4 header, or the untouched entry when that view does not fit. */
  function Record(f: seq<u8>, stale: seq<u8>): (r: seq<u8>)
    requires |stale| == DataSize
    ensures |r| == DataSize
  {
    if PtrAt(|f|, EthLen + Ipv4Len, DataSize).Ok? then f[34..34 + DataSize] else stale
  }

  /** Behind the length gate the record read cannot fail: a dropped frame's
      record is exactly its bytes `[34, 34 + 32744)`. */
  lemma DroppedFrameRecord(f: seq<u8>, stale: seq<u8>)
    requires |stale| == DataSize && Verdict(f) == Drop
    ensures Record(f, stale) == f[34..34 + DataSize]
  {
  }

  /** `try_myapp` with the ring `TARGET_MAP`: the verdict is `Verdict`; a
      record is submitted exactly when the frame is dropped and the ring has
      room; the frame is not modified on any path. */
  method Myapp(frame: array<u8>, ring: RingBuf, stale: seq<u8>) returns (a: Action)
    requires ring.Valid() && |stale| == DataSize
    modifies ring
    ensures ring.Valid() && ring.reserved == old(ring.reserved)
    ensures frame[..] == old(frame[..])
    ensures a == Verdict(frame[..])
    ensures ring.records
         == if a == Drop && old(ring.HasRoom()) then old(ring.records) + [Record(frame[..], stale)]
            else old(ring.records)
  {
    if EthLen + Ipv4Len + DataSize > frame.Length {
      return Pass;
    }
    if PtrAt(frame.Length, 0, EthLen).Err? {
      return Aborted;
    }
    if !(frame[12] == 0x08 && frame[13] == 0x00) {
      return Pass;
    }
    if PtrAt(frame.Length, EthLen, Ipv4Len).Err? {
      return Aborted;
    }
    if frame[15] != TargetTos {
      return Pass;
    }
    var ok := ring.Reserve();
    if ok {
      var entry := stale;
      if PtrAt(frame.Length, EthLen + Ipv4Len, DataSize).Ok? {
        entry := frame[34..34 + DataSize];
      }
      ring.Submit(entry);
    }
    a := Drop;
  }
}
