# myapp telemetry path in Dafny

This project models the packet path and the accounting of the myapp XDP telemetry system, and proves properties of the model.

**The four XDP programs.** Each takes one Ethernet frame as a byte array and returns an XDP verdict.
- The hardworker reflects marked TCP frames to the logger. It rewrites the Ethernet addresses and the IPv4 destination, patches both checksums, and on PSH leaves a fixed-size payload snapshot in a BPF ring buffer.
- The sensor rewrites the source of frames coming from the mark port.
- The logger re-labels the Ethernet source of marked frames.
- myapp drops large marked frames and copies 4093 words of each into its ring.

**Internet-checksum arithmetic.**
- The full checksum of RFC 1071 section 1, in Rust (`ipv4_checksum`) and Python (`checksum`).
- The incremental update (`update_checksum`), measured against equation 3 of RFC 1624 section 3. The Rust copies use a u32 `wrapping_sub`; the Python copy uses a fold loop.
- The test-packet serialiser of `raw-ipv4.py`.

**The user-space consumers.**
- The hardworker's reference/counter state machine and its hexdump.
- myapp's pairing counter.
- Both configuration `try_from`s, with their route lookup (match under the mask, then the longest mask, then the smaller metric, as in RFC 1812 section 5.2.4.3).
- The colon-hex MAC parsing of the build scripts.

**Form of the model.**
- In-place frame rewrites are methods on `array<u8>`, each proved equal to a pure function of the old bytes.
- The ring is a class holding a bounded FIFO queue.
- The consumer loops are classes whose methods update the counters. Their loops are proved against step functions.
- Everything that is expression code in the source is a function.
- Fixed-width integers are subset types of `int`. Shifts and masks are written as `/` and `%` by powers of two, and u32 and usize wrap-around is explicit.
- The host is little-endian, so a field the source reads without `swap_bytes` is read with `Le16`.

**Where the design description and the code disagree, the model follows the code:**
- The TCP header is taken at the fixed offset 34. The IPv4 IHL is ignored.
- The sensor tests neither the TOS nor the IPv4 source address (those tests are commented out).
- The logger compares the destination port field without a byte swap.
- A frame the hardworker reflects keeps its TOS and destination port, so the hardworker would reflect it again (`ReflectedFrameMatchesAgain`). The described "pass on the second run" does not happen.
- The 600-byte fallback copies `min(600, DATA.size)` bytes. It can only run when `DATA.size > 600`, so it always copies 600.
- The hardworker and the sensor patch both checksums with the source's own `update_checksum`, which is one less than the valid checksum when its accumulator borrows (see Findings). The model uses that update, and the checksum-validity lemmas carry the no-borrow premise under which the programs keep a valid checksum valid.
- The hardworker consumer counts a success only for a record equal word for word to the first reference.
- `DATA.size`, which the eBPF code reads but the build scripts do not define (they define `mtu` and `load_u64_count`), is a free parameter.

## Model

| member | source | states |
|---|---|---|
| Xdp.PtrAt | hardworker/ebpf/src/main.rs:139-149 | the access succeeds iff offset + size ≤ frame length, and the view then ends inside the frame |
| Xdp.TosAssertsMeaning | hardworker/ebpf/src/main.rs:39-41 | the three build-time TOS assertions hold iff the mark is even and at least 0x40 (precedence bits neither 000 nor 001) |
| Xdp.DataAssertsMeaning | hardworker/ebpf/src/main.rs:25-27 | the DATA assertions make a size-byte payload behind minimal IPv4 and TCP headers fit the MTU, and cap a record at 16 KiB |
| Xdp.RawPortIsSwapped | logger/ebpf/src/main.rs:42 | comparing the unswapped port field with the port is comparing the network-order port with the byte-swapped port |
| Xdp.HeaderWords | hardworker/ebpf/src/main.rs:43 | the IPv4 header at byte 14 read as ten big-endian words |
| Xdp.IpChecksumValid | hardworker/ebpf/src/main.rs:98-107 | a checksum field holding the checksum of the rest of the header (with byte 14 non-zero) makes the whole header check to zero, as a receiver verifies it |
| Xdp.ValidHeaderChecksumsToZero | hardworker/ebpf/src/main.rs:98-107 | a header whose checksum field holds the checksum of the rest sums, with that field, to zero |
| Xdp.RewriteAddress | hardworker/ebpf/src/main.rs:98-109 | the four address bytes hold the new address; both checksums are patched by the source's `update_checksum` with the same (old low word, new low word) pair; no other byte changes |
| Xdp.RewrittenWords | hardworker/ebpf/src/main.rs:107 | after the rewrite, the header words are the old ones with exactly the two address words replaced |
| Xdp.RewrittenWord | hardworker/ebpf/src/main.rs:107-108 | each header word other than the checksum word, after the rewrite |
| Xdp.RewriteKeepsIpChecksumValid | hardworker/ebpf/src/main.rs:101-107 | when the address's high word is unchanged and the update's accumulator ~HC − m + m' is positive, the source's low-word patch keeps a valid IPv4 checksum valid (it equals full recomputation) |
| Xdp.RewriteBorrowBreaksIpChecksum | hardworker/ebpf/src/main.rs:101-107 | when the accumulator ~HC − m + m' is negative, the patched IPv4 checksum is one less than the valid one, so a valid checksum becomes invalid |
| Xdp.RewriteRecomputes | hardworker/ebpf/src/main.rs:101-107 | with the high word unchanged, the RFC 1624 update of a valid IPv4 checksum equals the checksum of the rewritten header |
| Xdp.SetEthSrc | hardworker/ebpf/src/main.rs:95 | bytes 6..12 hold the MAC, and every other byte is unchanged |
| Xdp.SetEthDst | hardworker/ebpf/src/main.rs:96 | bytes 0..6 hold the MAC, and every other byte is unchanged |
| Xdp.Store | hardworker/ebpf/src/main.rs:107-109 | a store writes exactly the given bytes at the offset into the frame |
| Checksum.Folded | script/src/main.rs:34-36 | for a u32 accumulator, the two carry folds give the accumulator minus a whole number of 0xFFFF, which is zero only for zero |
| Checksum.SumBound | script/src/main.rs:28-31 | a sum of n 16-bit words is at most n·0xFFFF, so ten words never overflow the u32 accumulator |
| Checksum.WordsChecksum | script/checksum.py:6-12 | while the word sum fits in 32 bits, the complement of the checksum is congruent to the sum modulo 0xFFFF, and the checksum is 0xFFFF iff the sum is zero |
| Checksum.Ipv4Checksum | script/src/main.rs:27-37 | the ten-word sum fits in u32; the complement of the result is congruent to the sum modulo 0xFFFF; the result is 0xFFFF iff the sum is zero |
| Checksum.UpdateChecksumAsWritten | script/src/main.rs:48-58 | the source's update; replacing a word by itself leaves the checksum unchanged |
| Checksum.UpdateChecksum | sensor/ebpf/src/main.rs:94-104 | the reference the source's update is measured against, equation 3 of RFC 1624: the complement of the result is the old one's-complement sum with m taken out and m' put in, modulo 0xFFFF |
| Checksum.SumUpdate | script/src/main.rs:16-17 | replacing word i changes the plain sum by exactly the difference |
| Checksum.UpdateMatchesRecompute | script/src/main.rs:21-23 | the incremental update equals recomputing the checksum of the modified words, for every position and value (the modified words not all zero) |
| Checksum.AsWrittenVersusRfc1624 | hardworker/ebpf/src/main.rs:161-171 | with d = ~HC − m + m': the source agrees with RFC 1624 for d > 0, gives 0xFFFF instead of 0 for d = 0, and gives one less for d < 0 |
| Checksum.WrappingAccumulator | script/src/main.rs:50-51 | the u32 accumulator after `wrapping_sub`/`wrapping_add` is d, or 2^32 + d when it borrows |
| Checksum.AsWrittenMatchesRecomputeWithoutBorrow | script/src/main.rs:48-58 | without a borrow, the source's update equals full recomputation |
| Checksum.AsWrittenBorrowCounterexample | script/src/main.rs:48-58 | a concrete header (checksum 0xFFFE) where the source's update gives 0x0001 and recomputation gives 0x0002 |
| Checksum.LowWordPatchSuffices | script/src/main.rs:12-21 | when the address's high word is unchanged, updating with the low words only equals recomputing with both words of the new address |
| Checksum.ChecksumVerifiesToZero | network-playground/raw-ipv4.py:34-43 | storing the checksum into a zeroed checksum word makes the words check to zero |
| Checksum.ScriptSampleAgrees | script/src/main.rs:4-23 | the driver's sample: checksum 0xc587; changing 192.168.1.96 to .79 gives 0xc598 both incrementally and by recomputation |
| PythonChecksum.Pad | script/checksum.py:7-8 | the data is kept as a prefix, and exactly one zero byte is added iff the length is odd |
| PythonChecksum.PyChecksum | script/checksum.py:6-12 | up to 2·0x10001 bytes the word sum fits in 32 bits and the result is the complement of the one's-complement sum (0xFFFF iff the sum is zero) |
| PythonChecksum.FoldLoop | script/checksum.py:22-23 | the loop ends at or below 0xFFFF, preserves the value modulo 0xFFFF, and leaves a value ≤ 0xFFFF (negative included) untouched |
| PythonChecksum.PyUpdate | script/checksum.py:15-25 | replacing a word by itself leaves a 16-bit checksum unchanged; agreement with the Rust update is `PyUpdateMatchesRust` |
| PythonChecksum.UpdateChecksumLoop | script/checksum.py:15-25 | the looping update computes `PyUpdate` |
| PythonChecksum.PyUpdateMatchesRust | script/checksum.py:15-25 | on 16-bit inputs the Python update equals the Rust one, borrow case included (the loop is skipped and `~x & 0xFFFF` gives −x−1) |
| PythonChecksum.SampleSum | script/checksum.py:37-39 | the word sum of the sample header with any last byte: the ten big-endian words 4568 003c d829 4000 4006 0000 c0a8 0160 c0a8 01xx add up to 0x32183 + xx |
| PythonChecksum.SampleChecksum | script/checksum.py:6-13 | `checksum` of the sample header is the complement of the two folds of its word sum |
| PythonChecksum.FoldsAgree | script/checksum.py:15-25 | the Python loop and complement on the unwrapped accumulator agree with the Rust wrap, two folds and complement, for every accumulator a 16-bit update can produce |
| PythonChecksum.SampleChecksumBefore | script/checksum.py:37-41 | the sample header's checksum is 0xde1c |
| PythonChecksum.SampleChecksumAfter | script/checksum.py:43-47 | the modified header's checksum is 0xde2a |
| PythonChecksum.SampleUpdate | script/checksum.py:50-53 | the incremental update of the sample gives 0xde2a |
| PythonChecksum.PySampleAgrees | script/checksum.py:37-53 | the sample does not borrow, and the incremental and recomputed checksums agree at 0xde2a |
| RawIpv4.BeValueOfBeBytes | network-playground/raw-ipv4.py:16 | packing a value that fits in n bytes big-endian and unpacking it gives it back |
| RawIpv4.Payload | network-playground/raw-ipv4.py:14-16 | the payload is 16 bytes from which both u64 values unpack unchanged |
| RawIpv4.IpHeader | network-playground/raw-ipv4.py:19-31 | 20 bytes in RFC 791 field order: 0x45, TOS 104, total length 20 + payload, identification, zero flags, TTL 64, protocol 253, zero checksum, 127.0.0.1 twice |
| RawIpv4.FinalHeader | network-playground/raw-ipv4.py:43 | differs from the header only at bytes 10-11, which hold the header's checksum big-endian |
| RawIpv4.Packet | network-playground/raw-ipv4.py:49 | the final header followed by the payload, 36 bytes |
| RawIpv4.PacketTotalLength | network-playground/raw-ipv4.py:23 | the total-length field equals the packet length, 36 |
| RawIpv4.FinalHeaderChecksumsToZero | network-playground/raw-ipv4.py:34-43 | for every identification, the checksum of the final header is zero |
| Ring.RingBuf.constructor | hardworker/ebpf/src/main.rs:30 | a new ring is empty, with nothing reserved |
| Ring.RingBuf.Reserve | hardworker/ebpf/src/main.rs:61-62 | a reservation succeeds iff there is room, and then takes one slot |
| Ring.RingBuf.Submit | hardworker/ebpf/src/main.rs:85 | a submitted record is appended behind every earlier one and frees its reservation |
| Ring.RingBuf.Next | myapp/src/main.rs:69 | returns and removes the oldest record, or none when the ring is empty |
| HardworkerEbpf.Verdict | hardworker/ebpf/src/main.rs:43-56 | aborted iff the frame is shorter than 34, or shorter than 54 with the TOS matching; TX iff TOS and network-order port both match; never DROP |
| HardworkerEbpf.PayloadOffset | hardworker/ebpf/src/main.rs:65 | the payload starts at 34 + 4·doff, whatever the IHL |
| HardworkerEbpf.Snapshot | hardworker/ebpf/src/main.rs:65-84 | the record always has DATA.size bytes |
| HardworkerEbpf.SnapshotContents | hardworker/ebpf/src/main.rs:65-84 | the record is the payload window when it fits; else, when exactly 600 bytes follow, those 600 bytes then zeros (size > 600 there); else the untouched entry |
| HardworkerEbpf.Reflect | hardworker/ebpf/src/main.rs:93-110 | Eth dst is the logger, Eth src is the hardworker, IPv4 dst is the logger; both checksums are patched by the source's `update_checksum` with the old and new low words of the destination; no other byte changes |
| HardworkerEbpf.ReflectKeepsIpChecksumValid | hardworker/ebpf/src/main.rs:98-108 | when the destination's high word is the logger's already and ~HC − m + m' > 0 (no borrow), the reflected frame's IPv4 checksum is valid if the original's was |
| HardworkerEbpf.ReflectBorrowBreaksIpChecksum | hardworker/ebpf/src/main.rs:98-108 | when ~HC − m + m' < 0, a frame with a valid IPv4 checksum is reflected with a checksum one less than the valid one |
| HardworkerEbpf.ReflectBorrowExample | hardworker/ebpf/src/main.rs:98-108 | a concrete TX frame with valid checksum 0xFFFE, reflected to 192.168.1.93, leaves with checksum 0x0001 where the valid one is 0x0002 |
| HardworkerEbpf.ReflectedFrameMatchesAgain | hardworker/ebpf/src/main.rs:44-56 | a reflected frame is classified TX again |
| HardworkerEbpf.Classify | hardworker/ebpf/src/main.rs:43-56 | the early returns of `try_hardworker` compute exactly `Verdict`: aborted on a short frame, pass on another TOS or port, TX otherwise |
| HardworkerEbpf.Record | hardworker/ebpf/src/main.rs:58-89 | with PSH set and room in the ring, exactly one snapshot of the frame (payload or the 600-byte fallback) is appended; without PSH or room the ring is unchanged; the frame is not written |
| HardworkerEbpf.SetMacs | hardworker/ebpf/src/main.rs:94-96 | after the two MAC stores the destination is the logger and the source the hardworker, and every byte from the IPv4 header on is unchanged |
| HardworkerEbpf.Hardworker | hardworker/ebpf/src/main.rs:32-136 | the verdict is `Verdict`; only a TX frame is rewritten (as `Reflect`, with the source's checksum update), and every other frame is unchanged; a snapshot of the frame before the rewrite is submitted iff TX, PSH and room; a full ring still rewrites |
| HardworkerEbpf.CopyPayload | hardworker/ebpf/src/main.rs:65-84 | the entry filled is exactly `Snapshot` |
| HardworkerEbpf.ReflectInPlace | hardworker/ebpf/src/main.rs:93-110 | the stores, with the checksums from the source's `update_checksum`, leave the frame equal to `Reflect` of its old bytes |
| SensorEbpf.Verdict | sensor/ebpf/src/main.rs:30-39 | aborted iff the frame is shorter than 54; every other path passes |
| SensorEbpf.Rewrites | sensor/ebpf/src/main.rs:37 | the match decision: a frame the sensor rewrites is always passed |
| SensorEbpf.SetMac | sensor/ebpf/src/main.rs:44-45 | after the MAC store the source is the hardworker, the destination is unchanged and so is every byte from the IPv4 header on |
| SensorEbpf.Rewrite | sensor/ebpf/src/main.rs:42-61 | Eth src and IPv4 src become the hardworker's; Eth dst and IPv4 dst are untouched; both checksums are patched by the source's `update_checksum` with (old low source word, new low word); nothing else changes |
| SensorEbpf.IgnoresTosAndSource | sensor/ebpf/src/main.rs:20-39 | frames differing only in the TOS byte or the IPv4 source get the same verdict and the same match decision |
| SensorEbpf.SourceRewriteKeepsIpChecksumValid | sensor/ebpf/src/main.rs:47-59 | with an unchanged high source word and ~HC − m + m' > 0 (no borrow), a valid IPv4 checksum stays valid |
| SensorEbpf.SourceRewriteBorrowBreaksIpChecksum | sensor/ebpf/src/main.rs:47-59 | when ~HC − m + m' < 0, a valid IPv4 checksum is patched to one less than the valid one |
| SensorEbpf.Sensor | sensor/ebpf/src/main.rs:19-69 | the verdict is `Verdict`; a frame from the mark port is rewritten as `Rewrite`, with the source's checksum update; every other frame is unchanged |
| SensorEbpf.RewriteInPlace | sensor/ebpf/src/main.rs:42-61 | the stores, with the checksums from the source's `update_checksum`, leave the frame equal to `Rewrite` of its old bytes |
| LoggerEbpf.Verdict | logger/ebpf/src/main.rs:35-58 | only ABORTED or PASS; aborted iff shorter than 34, or shorter than 54 with the TOS matching |
| LoggerEbpf.Rewrites | logger/ebpf/src/main.rs:36-55 | the match decision: a frame the logger rewrites is always passed |
| LoggerEbpf.Rewrite | logger/ebpf/src/main.rs:52-55 | only the Eth source changes, to the sensor's MAC |
| LoggerEbpf.RewritesReflectedFrames | logger/ebpf/src/main.rs:42 | a frame the hardworker reflected is rewritten by the logger iff the mark port's two bytes differ |
| LoggerEbpf.Logger | logger/ebpf/src/main.rs:24-59 | the verdict is `Verdict`; a matched frame (TOS equal, raw port different) is rewritten as `Rewrite`; every other frame is unchanged |
| MyappEbpf.TargetTosAsserts | myapp-ebpf/src/main.rs:47-55 | the literal 0b01101000 satisfies the three TOS assertions |
| MyappEbpf.IsIpv4 | myapp-ebpf/src/main.rs:42-43 | the EtherType test is the big-endian word at byte 12 being 0x0800 |
| MyappEbpf.Verdict | myapp-ebpf/src/main.rs:37-78 | PASS or DROP only; DROP iff the frame holds 14+20+32744 bytes, is IPv4 and has TOS 0x68 |
| MyappEbpf.Record | myapp-ebpf/src/main.rs:65-71 | a submitted record has 32744 bytes |
| MyappEbpf.DroppedFrameRecord | myapp-ebpf/src/main.rs:37-71 | behind the length gate the read cannot fail: a dropped frame's record is its bytes [34, 34+32744) |
| MyappEbpf.Myapp | myapp-ebpf/src/main.rs:33-79 | the verdict is `Verdict`; the frame is never modified; one record is submitted iff DROP and the ring has room |
| Hexdump.HexDigitsValue | hardworker/user/src/main.rs:107 | the hex digits read back to the number, and a number below 16^n needs at most n digits |
| Hexdump.Padded | hardworker/user/src/main.rs:107 | zero padding gives the width, or the digit count when that is larger; every character is a lower-case hex digit |
| Hexdump.PaddedValue | hardworker/user/src/main.rs:111 | a padded number reads back as itself, and one below 16^w takes exactly w characters |
| Hexdump.Printable | hardworker/user/src/main.rs:122 | always a printable character; a byte in 32..=126 is shown as itself, any other as '.' |
| Hexdump.HexColumn | hardworker/user/src/main.rs:110-112 | three characters per byte |
| Hexdump.HexColumnAt | hardworker/user/src/main.rs:110-112 | byte j is shown as two digits at column 3j, followed by a space |
| Hexdump.AsciiColumn | hardworker/user/src/main.rs:120-124 | one character per byte, each `Printable` of it |
| Hexdump.Spaces | hardworker/user/src/main.rs:115-117 | n spaces |
| Hexdump.Chunk | hardworker/user/src/main.rs:105 | chunk i holds 1 to 16 consecutive bytes starting at 16i |
| Hexdump.Line | hardworker/user/src/main.rs:106-125 | a line is the offset field, 54 + n characters for n bytes, and ends in a newline |
| Hexdump.Dump | hardworker/user/src/main.rs:105 | one line per started chunk of 16 bytes |
| Hexdump.LineLayout | hardworker/user/src/main.rs:105-126 | a line has 62 + n characters: the offset in the first 8, byte j's digits at 10+3j, its character at 60+j |
| Hexdump.DumpLayout | hardworker/user/src/main.rs:101-126 | one line per 16 bytes; line i's offset reads back as 16i; byte k reads back from line k/16 in both columns |
| Hexdump.PrintDump | hardworker/user/src/main.rs:105-126 | the printing loop produces exactly `Dump` |
| Hexdump.PrintLine | hardworker/user/src/main.rs:106-125 | one iteration prints exactly `Line` |
| Hexdump.PrintHex | hardworker/user/src/main.rs:110-112 | the byte loop prints exactly the hex column |
| Hexdump.PrintPadding | hardworker/user/src/main.rs:115-117 | the padding loop prints three spaces per missing byte |
| Hexdump.PrintAscii | hardworker/user/src/main.rs:120-124 | the character loop prints exactly the ASCII column |
| HardworkerUser.FlattenLe | hardworker/user/src/main.rs:101-103 | eight bytes per word |
| HardworkerUser.FlattenLeOfU64s | hardworker/user/src/main.rs:86-103 | the bytes dumped are exactly the bytes of the record that became the reference |
| HardworkerUser.Step | hardworker/user/src/main.rs:84-157 | each wake increments exactly one counter, none decreases, and the reference keeps its length |
| HardworkerUser.StepReference | hardworker/user/src/main.rs:93-98 | a set reference never changes; an unset one (first word 0) is replaced by the next well-sized record, with a success |
| HardworkerUser.StepCounter | hardworker/user/src/main.rs:86-156 | no record: guard_fail; wrong length: align_fail; set reference: success iff the arrays are equal, match_fail otherwise |
| HardworkerUser.Run | hardworker/user/src/main.rs:83-158 | the reference keeps its `load_u64_count` words across any sequence of wakes |
| HardworkerUser.RunTotal | hardworker/user/src/main.rs:83-158 | over any sequence of wakes the counter total grows by the number of wakes, and no counter decreases |
| HardworkerUser.Polls | hardworker/user/src/main.rs:84-85 | the k-th wake sees the k-th queued record, or none once the queue is exhausted |
| HardworkerUser.Consumer.constructor | hardworker/user/src/main.rs:80-82 | zero counters and an all-zero reference of `load_u64_count` words |
| HardworkerUser.Consumer.Handle | hardworker/user/src/main.rs:85-157 | the new state is `Step`; the dump is printed exactly when a record becomes the reference |
| HardworkerUser.Consumer.Take | hardworker/user/src/main.rs:87-137 | a well-sized record becomes the reference, and is dumped, exactly while the reference's first word is 0; otherwise it counts as a success when it equals the reference word for word and as a match failure when it does not; the new state is `Step` |
| HardworkerUser.Consumer.Wake | hardworker/user/src/main.rs:84-157 | after k wakes over a ring that held `queued`, one more wake takes record k (or none) and leaves the ring and the state as after k + 1 wakes |
| HardworkerUser.Consumer.Drain | hardworker/user/src/main.rs:83-158 | each wake takes at most one record, oldest first; the state is `Run` over what `next()` returned |
| MyappUser.Step | myapp/src/main.rs:70-87 | the slot keeps three words; counters never decrease and grow by at most one |
| MyappUser.StepCases | myapp/src/main.rs:70-87 | wrong length: fail with the slot kept; empty slot: the record is stored, nothing counted; filled slot: success iff the first words agree, fail otherwise, and the slot is emptied |
| MyappUser.ZeroRecordLeavesSlotEmpty | myapp/src/main.rs:74-75 | an all-zero record stored into the empty slot leaves it empty |
| MyappUser.ZeroBytesValue | myapp/src/main.rs:71-73 | eight zero bytes read as the word 0 |
| MyappUser.Run | myapp/src/main.rs:69-88 | the slot keeps three words across a drain |
| MyappUser.RunCounts | myapp/src/main.rs:69-88 | success + fail grow by at most the number of records consumed, and neither decreases |
| MyappUser.KernelRecordsAllFail | myapp/src/main.rs:70 | records of the size myapp-ebpf submits (32744 bytes) each count as a failure, and the slot never changes |
| MyappUser.Consumer.constructor | myapp/src/main.rs:57-59 | empty slot, zero counters |
| MyappUser.Consumer.Drain | myapp/src/main.rs:69-88 | takes records until `next()` returns none, leaving the ring empty, with the state `Run` over them in order |
| MyappUser.Consumer.Consume | myapp/src/main.rs:70-87 | the body for one record updates the slot and counters exactly as `Step` |
| Route.BestIndex | hardworker/user/src/config.rs:146-165 | the fold's choice is an index below n |
| Route.Matches | hardworker/user/src/config.rs:149-153 | a route always matches its own destination address |
| Route.Better | hardworker/user/src/config.rs:154-165 | a strictly longer mask is better; a better route never has a shorter mask |
| Route.BestRoute | hardworker/user/src/config.rs:146-166 | nothing is chosen iff no route matches; a chosen route is a table entry that matches |
| Route.BestIndexSpec | hardworker/user/src/config.rs:149-166 | the chosen route matches; no matching route is better; every later matching route is strictly worse; nothing is chosen iff no route matches |
| Route.BestRouteSpec | logger/user/src/config.rs:114-134 | the chosen route is a matching table entry that no match beats, later ties lose to it, and nothing is chosen iff nothing matches |
| Route.SmallerMetricWins | hardworker/user/src/config.rs:161-163 | with equal mask lengths, the smaller metric is chosen in either table order |
| Route.LaterTieWins | hardworker/user/src/config.rs:154 | with equal mask length and metric, the later route is chosen |
| Route.LowOnes | hardworker/user/src/config.rs:150-160 | an n-bit all-ones mask keeps numbers below 2^n and has n one-bits |
| Route.HostAndDefaultRoutes | hardworker/user/src/config.rs:149-153 | a /32 route matches only its own destination, and a /0 route matches every address |
| Route.HostRouteBeatsDefault | hardworker/user/src/config.rs:154-165 | a matching host route beats a default route in either order |
| Route.InterfaceSpec | hardworker/user/src/config.rs:141-169 | a configured name is used as it is; otherwise an unreadable table is an error, NoRoute comes iff nothing matches, and else the name is that of an unbeaten matching route |
| Route.Interface | hardworker/user/src/config.rs:141-169 | never the missing-section error; without a configured name a result comes from a readable table, as the interface of a matching route |
| HardworkerConfig.FromSecs | hardworker/user/src/config.rs:139 | `Duration::from_secs`: whole seconds, zero nanoseconds |
| HardworkerConfig.TryFrom | hardworker/user/src/config.rs:130-181 | MissingTcp iff the tcp section is absent; the size is the file's or data.size; the timeout is present iff the file gives one |
| HardworkerConfig.TryFromSpec | hardworker/user/src/config.rs:130-181 | missing tcp section iff MissingTcp; size is the file's or data.size; the timeout is present iff given, in whole seconds; interface as in `InterfaceSpec`, for the target ip or the hardworker default |
| HardworkerConfig.ExplicitIfnameIgnoresRoutes | hardworker/user/src/config.rs:141-142 | with an ifname configured, the route table makes no difference |
| LoggerConfig.TryFrom | logger/user/src/config.rs:99-148 | MissingTcp iff the tcp section is absent; the size is the file's or data.mtu; the target address is the file's or the logger's |
| LoggerConfig.TryFromSpec | logger/user/src/config.rs:99-148 | missing tcp section iff MissingTcp; logger_ip, port and tos are the file's or the constants'; size is the file's or data.mtu; interface as in `InterfaceSpec` |
| LoggerConfig.ExplicitIfnameIgnoresRoutes | logger/user/src/config.rs:109-110 | with an ifname configured, the route table makes no difference |
| MacAddress.Split | hardworker/ebpf/build.rs:76 | `split(':')` always yields at least one piece |
| MacAddress.JoinSplit | hardworker/ebpf/build.rs:76 | the pieces hold no colon and join back with colons to the string |
| MacAddress.SplitJoin | hardworker/user/build.rs:76 | joining colon-free pieces and splitting again gives the pieces back |
| MacAddress.Accumulate | hardworker/user/build.rs:77 | the digit loop fails only with InvalidDigit or PosOverflow |
| MacAddress.AccumulateSpec | hardworker/user/build.rs:77 | the digit loop succeeds iff all characters are hex digits and the value fits in a byte, and it returns that value |
| MacAddress.FromStrRadix16 | hardworker/user/build.rs:77 | `u8::from_str_radix(s, 16)`: Empty iff s is empty; a lone sign is an invalid digit |
| MacAddress.FromStrRadix16Spec | hardworker/ebpf/build.rs:76 | `from_str_radix(s, 16)` accepts exactly an optional '+' then at least one hex digit of value ≤ 0xFF, and returns that value; Empty iff s is empty |
| MacAddress.ParsePieces | hardworker/user/build.rs:76-78 | one byte per piece, or the panic of a piece |
| MacAddress.ParsePiecesSpec | hardworker/user/build.rs:76-78 | succeeds iff every piece is valid, giving their values in textual order; otherwise panics at the first invalid piece |
| MacAddress.ParseMac | hardworker/user/build.rs:74-80 | a parsed address came from six pieces; a parse panic names one of the pieces; a length panic carries the piece count, which is not six |
| MacAddress.ParseMacSpec | hardworker/ebpf/build.rs:76-78 | an address parses iff it has six valid pieces, with bytes in textual order; a bad piece panics before the count check |
| MacAddress.PaddedByte | hardworker/user/build.rs:77 | two hex digits of a byte form a colon-free piece that parses back to the byte |
| MacAddress.ParseFormat | hardworker/user/build.rs:74-80 | formatting an address as xx:xx:xx:xx:xx:xx and parsing it gives it back |
| MacAddress.MacsFrom | hardworker/user/build.rs:72-100 | `Mac::from`: on success each field is the parse of the string of the same name; on failure the reported panic is that field's own |
| MacAddress.MacsFromSpec | hardworker/ebpf/build.rs:74-80 | the build succeeds iff all three strings parse; each field is the address of the string of the same name; the first failing field is the one reported |

## Left out

- Program loading, XDP attachment, the memlock limit, logger setup, the eBPF `debug!`/`error!` logging and the flag-name chain of the hardworker's debug message: these are foreign calls or have no effect on frames or state.
- Async readiness (`AsyncFd`), `tokio::select!`, the watch, oneshot and mpsc channels, Ctrl-C and timeout handling, and spawned tasks: concurrency plumbing. Only the loop bodies are modelled. A readiness wake is one call of `Handle`, and a myapp wake is one `Drain`.
- Sending the counters on watch channels and the "first success" message: output only.
- Reading and parsing `config.toml` and `const.toml`, the procfs route-table read, `const_gen` code emission and `aya_build`: I/O. The route table is a given list, or the error of reading it.
- The kernel ring buffer's byte capacity, page rounding, per-record headers and multi-CPU producers: the ring is a sequential FIFO with a capacity counted in records.
- The socket senders and receivers, and the send loop of `raw-ipv4.py`: I/O, with float rate reporting. The random identification and payload values are parameters.
- The TCP checksum's pseudo-header (RFC 793 section 3.1): the TCP checksum is patched by the same word delta as the IPv4 checksum (proved). Whether it stays valid over the pseudo-header and segment is not stated, because the segment bytes are not modelled as TCP words.
- The 64-bit counters of both consumers are unbounded naturals; their wrap-around after 2^64 records is not modelled.
- The contents of a reserved ring entry that the producer does not write (hardworker without a usable payload view, myapp on a failed read) are the parameter `stale`: the kernel gives no guarantee about them.
- Route.And: written as arithmetic on naturals; only the all-ones and zero masks are characterised (`Route.LowOnes`, `Route.HostAndDefaultRoutes`).
- Ring.RingBuf.Reserve: the element size argument is not checked against the capacity; a record occupies one slot whatever its length.

## Findings

| source | as written | input that shows it | evidently intended | confidence | as-written member | corrected member |
|---|---|---|---|---|---|---|
| script/src/main.rs:48-58 (also hardworker/ebpf/src/main.rs:161-171, sensor/ebpf/src/main.rs:94-104; script/checksum.py:15-25 behaves the same) | `~(~HC − m + m')` on a u32 accumulator with `wrapping_sub`: a borrow adds 2^32, which is 1 modulo 0xFFFF, so the result is one less than the true checksum; a zero sum gives 0xFFFF | IPv4 header 4568 003c b647 4000 4006 0000 c0a8 015d c0a8 0160 (checksum 0xFFFE); rewriting the destination's low word 0x0160 to 0x015d gives 0x0001, while recomputation gives 0x0002; the hardworker reflecting such a frame to 192.168.1.93 sends it with that invalid checksum (`HardworkerEbpf.ReflectBorrowExample`) | equation 3 of RFC 1624, `~(~HC + ~m + m')`, which equals full recomputation | not executed | Checksum.AsWrittenBorrowCounterexample | Checksum.UpdateMatchesRecompute |
