/** Transfers in flight, and the 128-slot ring they wait in. */
module Transfers {
  import opened Bits
  import opened Cyclic
  import opened Descriptors
  import opened Results

  const MAX_ONGOING_TRANSFERS: nat := 128
  const MAX_ONGOING_TRANSFERS_MASK: nat := 127
  const MAX_BUFFERS_PER_TRANSFER: nat := 8
  const MAX_DIRTY_DESCS: nat := 9

  /** A launched transfer: its last descriptor, its buffers, and the descriptors it gave a non-default
      control word (its first descriptor, then the last one of every buffer). */
  datatype Transfer = Transfer(lastDesc: nat, buffers: seq<Buffer>, dirty: seq<nat>, debug: bool)

  /** CIRC_CNT: occupied slots of a ring whose size is a power of two. */
  function CircCount(head: nat, tail: nat): nat {
    And((head - tail) % TWO_64, MAX_ONGOING_TRANSFERS_MASK)
  }

  /** CIRC_SPACE: free slots; one slot always stays free. */
  function CircSpace(head: nat, tail: nat): nat {
    And((tail - head - 1) % TWO_64, MAX_ONGOING_TRANSFERS_MASK)
  }

  lemma CircIs(head: nat, tail: nat)
    requires head < MAX_ONGOING_TRANSFERS && tail < MAX_ONGOING_TRANSFERS
    ensures CircCount(head, tail) == Offset(head, tail, MAX_ONGOING_TRANSFERS)
    ensures CircSpace(head, tail) == MAX_ONGOING_TRANSFERS - 1 - CircCount(head, tail)
  {
    hide And;
    MaskedDifference(head - tail);
    MaskedDifference(tail - head - 1);
  }

  /** The unsigned difference, masked, is the distance around the ring. */
  lemma MaskedDifference(d: int)
    requires -128 <= d < 128
    ensures And(d % TWO_64, MAX_ONGOING_TRANSFERS_MASK) == if d >= 0 then d else d + 128
  {
    hide And, Pow2;
    Pow2Values();
    AndMask(d % TWO_64, 7);
    Difference(d);
  }

  lemma Difference(d: int)
    requires -128 <= d < 128
    ensures d % TWO_64 % 128 == if d >= 0 then d else d + 128
  {
    if d >= 0 {
      DivModUnique(d, TWO_64, 0, d);
    } else {
      DivModUnique(d, TWO_64, -1, d + TWO_64);
      DivModUnique(d + TWO_64, 128, 0x1FF_FFFF_FFFF_FFFF, d + 128);
    }
  }

  lemma NextSlot(i: nat)
    requires i < MAX_ONGOING_TRANSFERS
    ensures And(i + 1, MAX_ONGOING_TRANSFERS_MASK) == Wrap(i + 1, MAX_ONGOING_TRANSFERS)
  {
    hide And;
    Pow2Values();
    AndMask(i + 1, 7);
  }

  /** The ring's contents from tail to head. */
  function Queued(slots: seq<Transfer>, head: nat, tail: nat): (r: seq<Transfer>)
    requires |slots| == MAX_ONGOING_TRANSFERS && head < |slots| && tail < |slots|
    ensures |r| == Offset(head, tail, |slots|)
  {
    Window(slots, tail, Offset(head, tail, |slots|))
  }

  lemma QueuedPush(slots: seq<Transfer>, head: nat, tail: nat, t: Transfer)
    requires |slots| == MAX_ONGOING_TRANSFERS && head < |slots| && tail < |slots|
    requires |Queued(slots, head, tail)| < 127
    ensures Queued(slots[head := t], Wrap(head + 1, |slots|), tail) == Queued(slots, head, tail) + [t]
  {
    hide Window;
    var n := Offset(head, tail, |slots|);
    var before, after := Window(slots, tail, n), Window(slots[head := t], tail, n + 1);
    forall i | 0 <= i < n + 1 ensures after[i] == (before + [t])[i] {
      WindowAt(slots[head := t], tail, n + 1, i);
      if i < n {
        WindowAt(slots, tail, n, i);
      }
    }
  }

  lemma QueuedPop(slots: seq<Transfer>, head: nat, tail: nat)
    requires |slots| == MAX_ONGOING_TRANSFERS && head < |slots| && tail < |slots|
    requires Queued(slots, head, tail) != []
    ensures Queued(slots, head, tail)[0] == slots[tail]
    ensures Queued(slots, head, Wrap(tail + 1, |slots|)) == Queued(slots, head, tail)[1..]
  {
    hide Window;
    var n := Offset(head, tail, |slots|);
    var before, after := Window(slots, tail, n), Window(slots, Wrap(tail + 1, |slots|), n - 1);
    WindowAt(slots, tail, n, 0);
    forall i | 0 <= i < n - 1 ensures after[i] == before[i + 1] {
      WindowAt(slots, tail, n, i + 1);
      WindowAt(slots, Wrap(tail + 1, |slots|), n - 1, i);
    }
  }

  class TransferRing {
    const slots: array<Transfer>
    var head: nat
    var tail: nat

    constructor (slots: array<Transfer>)
      requires slots.Length == MAX_ONGOING_TRANSFERS
      ensures Valid() && this.slots == slots && Contents() == []
    {
      this.slots, head, tail := slots, 0, 0;
    }

    ghost predicate Valid()
      reads this
    {
      slots.Length == MAX_ONGOING_TRANSFERS && head < slots.Length && tail < slots.Length
    }

    /** The transfers in flight, oldest first. */
    ghost function Contents(): (r: seq<Transfer>)
      reads this, slots
      requires Valid()
      ensures |r| == Offset(head, tail, MAX_ONGOING_TRANSFERS)
    {
      Queued(slots[..], head, tail)
    }

    /** ONGOING_TRANSFERS_CIRC_CNT. */
    method Count() returns (n: nat)
      requires Valid()
      ensures n == |Contents()|
    {
      CircIs(head, tail);
      n := CircCount(head, tail);
    }

    /** ongoing_transfer_push: appends unless 127 transfers are in flight. */
    method Push(t: Transfer) returns (ret: int)
      requires Valid()
      modifies this`head, slots
      ensures Valid()
      ensures ret == if |old(Contents())| < 127 && |t.dirty| <= 9 then 0 else EFAULT
      ensures Contents() == if ret == 0 then old(Contents()) + [t] else old(Contents())
    {
      hide Queued, CircSpace, CircCount, And;
      CircIs(head, tail);
      if CircSpace(head, tail) == 0 {
        return EFAULT;
      }
      if |t.dirty| > MAX_DIRTY_DESCS {
        return EFAULT;
      }
      NextSlot(head);
      QueuedPush(slots[..], head, tail, t);
      slots[head] := t;
      head := And(head + 1, MAX_ONGOING_TRANSFERS_MASK);
      return 0;
    }

    /** The oldest transfer, left where it is. */
    method Front() returns (t: Transfer)
      requires Valid() && Contents() != []
      ensures t == Contents()[0]
    {
      QueuedPop(slots[..], head, tail);
      t := slots[tail];
    }

    /** ongoing_transfer_pop: takes the oldest transfer, if there is one. */
    method Pop() returns (ret: int)
      requires Valid()
      modifies this`tail
      ensures Valid()
      ensures ret == if old(Contents()) != [] then 0 else EFAULT
      ensures Contents() == if ret == 0 then old(Contents())[1..] else old(Contents())
    {
      hide Queued, CircSpace, CircCount, And;
      CircIs(head, tail);
      if CircCount(head, tail) == 0 {
        return EFAULT;
      }
      NextSlot(tail);
      QueuedPop(slots[..], head, tail);
      tail := And(tail + 1, MAX_ONGOING_TRANSFERS_MASK);
      return 0;
    }
  }
}
