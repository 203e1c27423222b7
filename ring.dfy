/** The BPF ring buffer `TARGET_MAP`, as the producer (an XDP program) and
    the consumer (the user-space drain loop) see it one call at a time: a
    bounded first-in first-out queue of records. A record is reserved, filled
    and then submitted; reserved records count against the capacity until
    they are submitted. The kernel's byte accounting (record headers, page
    rounding) is abstracted into a capacity counted in records. */
module Ring {
  import opened Bytes
  import opened Wrappers

  class RingBuf {
    /** Submitted records not yet consumed, oldest first. */
    var records: seq<seq<u8>>
    /** Reserved records not yet submitted. */
    var reserved: nat
    const capacity: nat

    ghost predicate Valid()
      reads this
    {
      |records| + reserved <= capacity
    }

    /** Whether a reservation would succeed now. */
    function HasRoom(): bool
      reads this
    {
      |records| + reserved < capacity
    }

    constructor (capacity: nat)
      ensures Valid() && this.capacity == capacity
      ensures records == [] && reserved == 0
    {
      this.capacity := capacity;
      records := [];
      reserved := 0;
    }

    /** `reserve`: `None` when the ring is full, otherwise room for one more
        record is set aside. */
    method Reserve() returns (ok: bool)
      requires Valid()
      modifies this
      ensures Valid() && ok == old(HasRoom())
      ensures records == old(records)
      ensures reserved == if ok then old(reserved) + 1 else old(reserved)
    {
      ok := |records| + reserved < capacity;
      if ok {
        reserved := reserved + 1;
      }
    }

    /** `entry.submit(0)`: the reserved record becomes visible to the
        consumer, after every record submitted before it. */
    method Submit(r: seq<u8>)
      requires Valid() && reserved > 0
      modifies this
      ensures Valid()
      ensures records == old(records) + [r] && reserved == old(reserved) - 1
    {
      records := records + [r];
      reserved := reserved - 1;
    }

    /** `next()` on the consumer side: the oldest record, removed from the
        ring, or `None` when none is waiting. */
    method Next() returns (r: Option<seq<u8>>)
      requires Valid()
      modifies this
      ensures Valid() && reserved == old(reserved)
      ensures old(records) == [] ==> r == None && records == []
      ensures old(records) != [] ==> r == Some(old(records)[0]) && records == old(records)[1..]
    {
      if records == [] {
        r := None;
      } else {
        r := Some(records[0]);
        records := records[1..];
      }
    }
  }
}
