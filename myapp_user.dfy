/** The body of myapp's consumer loop (myapp/src/main.rs, lines 57-88): on
    a readiness wake every waiting record is taken. Records are paired: a
    24-byte record arriving while the three-word slot is empty is stored;
    the next one is compared with it on its first word only, counted as a
    success or a failure, and the slot is emptied. A record of any other
    length is a failure. The u64 counters are unbounded here. */
module MyappUser {
  import opened Bytes
  import opened Seqs
  import opened Wrappers
  import opened Ring
  import MyappEbpf

  const RecordLen: nat := 24
  const Empty: seq<u64> := [0, 0, 0]

  /** The loop's state: the slot `data`, `success` and `fail`. */
  datatype Pairing = Pairing(data: seq<u64>, success: nat, fail: nat)

  /** One record through the loop body. */
  function Step(t: Pairing, b: seq<u8>): (t': Pairing)
    requires |t.data| == 3
    ensures |t'.data| == 3
    ensures t.success <= t'.success && t.fail <= t'.fail
    ensures t'.success + t'.fail <= t.success + t.fail + 1
  {
    if |b| != RecordLen then t.(fail := t.fail + 1)
    else
      var v := U64s(b);
      if t.data == Empty then t.(data := v)
      else if t.data[0] == v[0] then Pairing(Empty, t.success + 1, t.fail)
      else Pairing(Empty, t.success, t.fail + 1)
  }

  /** The cases of the body: a wrong length is a failure with the slot kept;
      a 24-byte record fills an empty slot and counts nothing; against a
      filled slot it counts a success exactly when the first words agree,
      a failure otherwise, and empties the slot. */
  lemma StepCases(t: Pairing, b: seq<u8>)
    requires |t.data| == 3
    ensures var t' := Step(t, b);
      && (|b| != RecordLen ==> t' == t.(fail := t.fail + 1))
      && (|b| == RecordLen && t.data == Empty ==> t' == t.(data := U64s(b)))
      && (|b| == RecordLen && t.data != Empty ==>
            t'.data == Empty && t'.success + t'.fail == t.success + t.fail + 1
            && (t'.success == t.success + 1 <==> t.data[0] == U64s(b)[0]))
  {
  }

  /** An all-zero record stored into the empty slot leaves it empty, so the
      record after it is stored again instead of being compared. */
  lemma ZeroRecordLeavesSlotEmpty(t: Pairing, b: seq<u8>)
    requires |t.data| == 3 && t.data == Empty
    requires |b| == RecordLen && forall k :: 0 <= k < |b| ==> b[k] == 0
    ensures Step(t, b) == t
  {
    forall i | 0 <= i < 3 ensures U64s(b)[i] == 0 {
      ZeroBytesValue(b[8 * i..8 * i + 8]);
    }
    assert U64s(b) == Empty;
  }

  lemma {:induction false} ZeroBytesValue(s: seq<u8>)
    requires forall k :: 0 <= k < |s| ==> s[k] == 0
    ensures LeValue(s) == 0
  {
    if s != [] {
      ZeroBytesValue(s[1..]);
    }
  }

  /** The records of one drain, oldest first. */
  function Run(t: Pairing, rs: seq<seq<u8>>): (t': Pairing)
    requires |t.data| == 3
    ensures |t'.data| == 3
  {
    if rs == [] then t else Step(Run(t, rs[..|rs| - 1]), rs[|rs| - 1])
  }

  /** Each record counts at most once: the counters grow by at most the
      number of records consumed. */
  lemma {:induction false} RunCounts(t: Pairing, rs: seq<seq<u8>>)
    requires |t.data| == 3
    ensures var t' := Run(t, rs);
      t.success <= t'.success && t.fail <= t'.fail
      && t'.success + t'.fail <= t.success + t.fail + |rs|
  {
    if rs != [] {
      RunCounts(t, rs[..|rs| - 1]);
    }
  }

  /** The XDP side submits records of 4093 words (32744 bytes), not 24: a
      drain over them counts every one as a failure and never a success,
      and the slot never changes. */
  lemma {:induction false} KernelRecordsAllFail(t: Pairing, rs: seq<seq<u8>>)
    requires |t.data| == 3
    requires forall i :: 0 <= i < |rs| ==> |rs[i]| == MyappEbpf.DataSize
    ensures Run(t, rs) == Pairing(t.data, t.success, t.fail + |rs|)
  {
    if rs != [] {
      KernelRecordsAllFail(t, rs[..|rs| - 1]);
    }
  }

  lemma RunSnoc(t: Pairing, rs: seq<seq<u8>>, b: seq<u8>)
    requires |t.data| == 3
    ensures Run(t, rs + [b]) == Step(Run(t, rs), b)
  {
    assert (rs + [b])[..|rs|] == rs;
  }

  /** Taking record `done` from a ring that holds the records of `queued`
      from `done` on: the ring then holds them from `done + 1` on, and the
      state after the step is the run over one more record. */
  lemma TakeNext(start: Pairing, queued: seq<seq<u8>>, done: nat)
    requires |start.data| == 3 && done < |queued|
    ensures queued[done..][0] == queued[done] && queued[done..][1..] == queued[done + 1..]
    ensures Run(start, queued[..done + 1]) == Step(Run(start, queued[..done]), queued[done])
  {
    SuffixAdvance(queued, done);
    PrefixSnoc(queued, done);
    RunSnoc(start, queued[..done], queued[done]);
  }

  class Consumer {
    var data: seq<u64>
    var success: nat
    var fail: nat

    ghost predicate Valid()
      reads this
    {
      |data| == 3
    }

    function State(): Pairing
      reads this
    {
      Pairing(data, success, fail)
    }

    constructor ()
      ensures Valid() && State() == Pairing(Empty, 0, 0)
    {
      data := Empty;
      success := 0;
      fail := 0;
    }

    /** `while let Some(new_data) = ring.next()`: every record waiting in
        the ring is taken, oldest first, until `next()` returns none. */
    method Drain(ring: RingBuf)
      requires Valid() && ring.Valid()
      modifies this, ring
      ensures Valid() && ring.Valid() && ring.reserved == old(ring.reserved)
      ensures ring.records == []
      ensures State() == Run(old(State()), old(ring.records))
    {
      ghost var start := State();
      ghost var queued := ring.records;
      ghost var done := 0;
      while true
        invariant Valid() && ring.Valid() && ring.reserved == old(ring.reserved)
        invariant done <= |queued| && ring.records == queued[done..]
        invariant State() == Run(start, queued[..done])
        decreases |queued| - done
      {
        var next := ring.Next();
        if next.None? {
          assert queued[..done] == queued;
          break;
        }
        var newData := next.value;
        TakeNext(start, queued, done);
        Consume(newData);
        done := done + 1;
      }
    }

    /** The loop body for one record taken from the ring. */
    method Consume(newData: seq<u8>)
      requires Valid()
      modifies this
      ensures Valid() && State() == Step(old(State()), newData)
    {
      if |newData| == RecordLen {
        var val := U64s(newData);
        if data == Empty {
          data := val;
        } else {
          if data[0] == val[0] {
            success := success + 1;
          } else {
            fail := fail + 1;
          }
          data := Empty;
        }
      } else {
        fail := fail + 1;
      }
    }
  }
}
