/** The body of the hardworker's consumer loop (hardworker/user/src/main.rs,
    lines 80-157): on every readiness wake it takes at most one record from
    the ring. A record of the wrong length is an alignment failure; the first
    well-sized record (while the reference's first word is 0) becomes the
    reference, counts as a success and is hexdumped; every later one counts
    as a success when it equals the reference word for word and as a match
    failure otherwise; a wake with no record is a guard failure. The u64
    counters are unbounded here. */
module HardworkerUser {
  import opened Bytes
  import opened Seqs
  import opened Wrappers
  import opened Ring
  import Hexdump

  /** `FaillType`. */
  datatype Fails = Fails(matchFail: nat, alignFail: nat, guardFail: nat)

  /** The loop's state: the reference `data`, `success` and `fail`. */
  datatype Tally = Tally(data: seq<u64>, success: nat, fail: Fails)

  function Total(t: Tally): nat
  {
    t.success + t.fail.matchFail + t.fail.alignFail + t.fail.guardFail
  }

  /** Every counter of `t'` is at least the same counter of `t`. */
  predicate NoneDecreased(t: Tally, t': Tally)
  {
    t.success <= t'.success && t.fail.matchFail <= t'.fail.matchFail
    && t.fail.alignFail <= t'.fail.alignFail && t.fail.guardFail <= t'.fail.guardFail
  }

  /** `data.iter().flat_map(|&val| val.to_le_bytes())`. */
  function FlattenLe(ws: seq<u64>): (b: seq<u8>)
    ensures |b| == 8 * |ws|
  {
    if ws == [] then [] else FlattenLe(ws[..|ws| - 1]) + LeBytes(ws[|ws| - 1], 8)
  }

  /** The bytes the hexdump shows are exactly the bytes of the record that
      became the reference. */
  lemma {:induction false} FlattenLeOfU64s(b: seq<u8>)
    requires |b| % 8 == 0
    ensures FlattenLe(U64s(b)) == b
    decreases |b|
  {
    if b != [] {
      var n := |b|;
      var front, last := b[..n - 8], b[n - 8..n];
      U64sSnoc(b);
      var ws := U64s(b);
      assert ws[..|ws| - 1] == U64s(front) && ws[|ws| - 1] == LeValue(last);
      FlattenLeOfU64s(front);
      LeBytesOfLeValue(last);
      SplitAt(b, n - 8);
    }
  }

  /** The words of a record are the words of all but its last eight bytes,
      then the word of those. */
  lemma U64sSnoc(b: seq<u8>)
    requires |b| % 8 == 0 && |b| >= 8
    ensures U64s(b) == U64s(b[..|b| - 8]) + [Le64(b, |b| - 8)]
  {
    var front := b[..|b| - 8];
    var l, r := U64s(b), U64s(front) + [Le64(b, |b| - 8)];
    forall i | 0 <= i < |l| ensures l[i] == r[i] {
      if i < |front| / 8 {
        assert b[8 * i..8 * i + 8] == front[8 * i..8 * i + 8];
      }
    }
  }

  /** One pass of the loop body, with `r` what `next()` returned. */
  function Step(n: nat, t: Tally, r: Option<seq<u8>>): (t': Tally)
    requires |t.data| == n && n >= 1
    ensures |t'.data| == n
    ensures Total(t') == Total(t) + 1 && NoneDecreased(t, t')
  {
    match r
    case None => t.(fail := t.fail.(guardFail := t.fail.guardFail + 1))
    case Some(b) =>
      if |b| != 8 * n then t.(fail := t.fail.(alignFail := t.fail.alignFail + 1))
      else
        var v := U64s(b);
        if t.data[0] == 0 then Tally(v, t.success + 1, t.fail)
        else if t.data == v then t.(success := t.success + 1)
        else t.(fail := t.fail.(matchFail := t.fail.matchFail + 1))
  }

  /** Once the reference is set, no step changes it; and while its first
      word is 0, a well-sized record replaces it (a record whose first word is
      0 therefore never sticks: the next one replaces it again). */
  lemma StepReference(n: nat, t: Tally, r: Option<seq<u8>>)
    requires |t.data| == n && n >= 1
    ensures t.data[0] != 0 ==> Step(n, t, r).data == t.data
    ensures t.data[0] == 0 && r.Some? && |r.value| == 8 * n
            ==> Step(n, t, r).data == U64s(r.value) && Step(n, t, r).success == t.success + 1
  {
  }

  /** Which counter a step increments. */
  lemma StepCounter(n: nat, t: Tally, r: Option<seq<u8>>)
    requires |t.data| == n && n >= 1
    ensures var t' := Step(n, t, r);
      && (r.None? ==> t'.fail.guardFail == t.fail.guardFail + 1)
      && (r.Some? && |r.value| != 8 * n ==> t'.fail.alignFail == t.fail.alignFail + 1)
      && (r.Some? && |r.value| == 8 * n && t.data[0] != 0 ==>
            (t'.success == t.success + 1 <==> t.data == U64s(r.value))
            && (t'.fail.matchFail == t.fail.matchFail + 1 <==> t.data != U64s(r.value)))
  {
  }

  /** The steps of a sequence of wakes, oldest first. */
  function Run(n: nat, t: Tally, rs: seq<Option<seq<u8>>>): (t': Tally)
    requires |t.data| == n && n >= 1
    ensures |t'.data| == n
  {
    if rs == [] then t else Step(n, Run(n, t, rs[..|rs| - 1]), rs[|rs| - 1])
  }

  /** Each wake increments exactly one counter and none ever decreases. */
  lemma {:induction false} RunTotal(n: nat, t: Tally, rs: seq<Option<seq<u8>>>)
    requires |t.data| == n && n >= 1
    ensures Total(Run(n, t, rs)) == Total(t) + |rs| && NoneDecreased(t, Run(n, t, rs))
  {
    if rs != [] {
      RunTotal(n, t, rs[..|rs| - 1]);
    }
  }

  /** What `next()` returns on `wakes` successive wakes over a ring holding
      `records` and filled by nobody meanwhile. */
  function Polls(records: seq<seq<u8>>, wakes: nat): (rs: seq<Option<seq<u8>>>)
    ensures |rs| == wakes
    ensures forall i :: 0 <= i < wakes ==> rs[i] == if i < |records| then Some(records[i]) else None
  {
    seq(wakes, i requires 0 <= i < wakes => if i < |records| then Some(records[i]) else None)
  }

  /** What wake `k` takes from a ring that held `queued` and has been
      polled `k` times: the record `k` if there is one, and the ring then
      holds the records after it. */
  lemma NextOfQueue(queued: seq<seq<u8>>, k: nat, before: seq<seq<u8>>, after: seq<seq<u8>>, r: Option<seq<u8>>)
    requires before == queued[Min(k, |queued|)..]
    requires before == [] ==> r == None && after == []
    requires before != [] ==> r == Some(before[0]) && after == before[1..]
    ensures after == queued[Min(k + 1, |queued|)..]
    ensures r == if k < |queued| then Some(queued[k]) else None
  {
    if k < |queued| {
      SuffixAdvance(queued, k);
    }
  }

  /** One more wake runs one more step, on what that wake sees. */
  lemma RunPollsSnoc(n: nat, t: Tally, queued: seq<seq<u8>>, k: nat)
    requires |t.data| == n && n >= 1
    ensures Run(n, t, Polls(queued, k + 1))
         == Step(n, Run(n, t, Polls(queued, k)), if k < |queued| then Some(queued[k]) else None)
  {
    var rs, r := Polls(queued, k), if k < |queued| then Some(queued[k]) else None;
    assert Polls(queued, k + 1) == rs + [r];
    assert (rs + [r])[..|rs|] == rs;
  }

  /** Wake `k` on a ring polled `k` times: the ring then holds the records
      after the one taken, and stepping the state on what was taken is the
      run over one more wake. */
  lemma WakeAdvances(n: nat, start: Tally, queued: seq<seq<u8>>, k: nat, before: seq<seq<u8>>, after: seq<seq<u8>>,
                     t: Tally, r: Option<seq<u8>>)
    requires |start.data| == n && n >= 1
    requires before == queued[Min(k, |queued|)..]
    requires before == [] ==> r == None && after == []
    requires before != [] ==> r == Some(before[0]) && after == before[1..]
    requires t == Run(n, start, Polls(queued, k))
    ensures after == queued[Min(k + 1, |queued|)..]
    ensures |t.data| == n && Step(n, t, r) == Run(n, start, Polls(queued, k + 1))
  {
    NextOfQueue(queued, k, before, after, r);
    RunPollsSnoc(n, start, queued, k);
  }

  class Consumer {
    const loadCount: nat
    var data: seq<u64>
    var success: nat
    var fail: Fails

    ghost predicate Valid()
      reads this
    {
      loadCount >= 1 && |data| == loadCount
    }

    function State(): Tally
      reads this
    {
      Tally(data, success, fail)
    }

    /** `[0u64; DATA.load_u64_count]` and zero counters. */
    constructor (loadCount: nat)
      requires loadCount >= 1
      ensures Valid() && this.loadCount == loadCount
      ensures State() == Tally(seq(loadCount, _ => 0), 0, Fails(0, 0, 0))
    {
      this.loadCount := loadCount;
      data := seq(loadCount, _ => 0);
      success := 0;
      fail := Fails(0, 0, 0);
    }

    /** The loop body for one `next()` result. It returns the lines it
        prints: the dump of the new reference when one is taken, else none. */
    method Handle(r: Option<seq<u8>>) returns (printed: seq<string>)
      requires Valid()
      modifies this
      ensures Valid() && State() == Step(loadCount, old(State()), r)
      ensures printed == if old(data)[0] == 0 && r.Some? && |r.value| == 8 * loadCount
                         then Hexdump.Dump(r.value) else []
    {
      printed := [];
      if r.Some? {
        var newData := r.value;
        if |newData| == 8 * loadCount {
          printed := Take(newData);
        } else {
          fail := fail.(alignFail := fail.alignFail + 1);
        }
      } else {
        fail := fail.(guardFail := fail.guardFail + 1);
      }
    }

    /** The body for a well-sized record: it becomes the reference while the
        reference's first word is 0 (and is hexdumped), else it is compared
        with the reference. */
    method Take(newData: seq<u8>) returns (printed: seq<string>)
      requires Valid() && |newData| == 8 * loadCount
      modifies this
      ensures Valid() && State() == Step(loadCount, old(State()), Some(newData))
      ensures printed == if old(data)[0] == 0 then Hexdump.Dump(newData) else []
    {
      printed := [];
      var val := U64s(newData);
      if data[0] == 0 {
        data := val;
        success := success + 1;
        FlattenLeOfU64s(newData);
        printed := Hexdump.PrintDump(FlattenLe(data));
      } else {
        if data == val {
          success := success + 1;
        } else {
          fail := fail.(matchFail := fail.matchFail + 1);
        }
      }
    }

    /** Wake `k` of the loop: `next()` on the ring, then the body for what it
        returned. With the ring polled `k` times since it held `queued`, and
        the state the run over those `k` wakes from `start`, one more wake
        leaves the ring and the state as after `k + 1` wakes. */
    method Wake(ring: RingBuf, ghost start: Tally, ghost queued: seq<seq<u8>>, ghost k: nat)
      requires Valid() && ring.Valid() && |start.data| == loadCount
      requires ring.records == queued[Min(k, |queued|)..]
      requires State() == Run(loadCount, start, Polls(queued, k))
      modifies this, ring
      ensures Valid() && ring.Valid() && ring.reserved == old(ring.reserved)
      ensures ring.records == queued[Min(k + 1, |queued|)..]
      ensures State() == Run(loadCount, start, Polls(queued, k + 1))
    {
      ghost var before, t := ring.records, State();
      var r := ring.Next();
      var _ := Handle(r);
      WakeAdvances(loadCount, start, queued, k, before, ring.records, t, r);
    }

    /** `wakes` passes of the loop over the ring: each takes at most one
        record, oldest first. */
    method Drain(ring: RingBuf, wakes: nat)
      requires Valid() && ring.Valid()
      modifies this, ring
      ensures Valid() && ring.Valid() && ring.reserved == old(ring.reserved)
      ensures ring.records == old(ring.records)[Min(wakes, |old(ring.records)|)..]
      ensures State() == Run(loadCount, old(State()), Polls(old(ring.records), wakes))
    {
      ghost var start := State();
      ghost var queued := ring.records;
      var k := 0;
      while k < wakes
        invariant k <= wakes && Valid() && ring.Valid() && ring.reserved == old(ring.reserved)
        invariant ring.records == queued[Min(k, |queued|)..]
        invariant State() == Run(loadCount, start, Polls(queued, k))
      {
        Wake(ring, start, queued, k);
        k := k + 1;
      }
    }
  }
}
