/** The vDMA channel in memory: its ring, its counters and the descriptor list attached to it. */
module Channels {
  import opened Bits
  import opened Descriptors
  import opened Results
  import opened DescriptorLists
  import opened Transfers
  import opened ChannelModel

  /** The loop of hailo_vdma_launch_transfer over the request's buffers. A negative programming result is not
      tested; it enters the sums. */
  method ProgramBuffers(given: DescriptorsList, req: Request, hw: Hw)
    returns (total: nat, last: nat, dirty: seq<nat>, ghost next': nat)
    requires given.View().Valid() && forall b | b in req.buffers :: FitsU32(b.size, given.page)
    modifies given.descs
    ensures Launching(given.descs[..], total, last, next', dirty)
         == LaunchAll(old(given.View()), LaunchStart(old(given.View()), req), req.buffers, req, hw)
  {
    hide LaunchAll, Program, List.Valid;
    ghost var l := given.View();
    var next: nat := req.start;
    total, last, dirty := 0, U32_MAX, [req.start % TWO_16];
    ghost var result := LaunchAll(l, LaunchStart(l, req), req.buffers, req, hw);
    assert req.buffers[0..] == req.buffers;
    var i := 0;
    while i < |req.buffers|
      invariant 0 <= i <= |req.buffers|
      invariant result == LaunchAll(l, Launching(given.descs[..], total, last, next, dirty), req.buffers[i..], req, hw)
    {
      assert req.buffers[i] in req.buffers;
      ghost var s := Launching(given.descs[..], total, last, next, dirty);
      LaunchAllStep(l, s, req.buffers, i, req, hw);
      SameShape(l, given.descs[..]);
      var n := ProgramList(given, next, req.buffers[i], req.bind, hw,
                           if i == |req.buffers| - 1 then req.last else NO_DOMAIN, req.debug, 0);
      total := U32(total + n);
      last := U32(next + n - 1) % given.descs.Length;
      next := U32(next + n) % given.descs.Length;
      dirty := dirty + [last % TWO_16];
      i := i + 1;
    }
    assert req.buffers[i..] == [];
    LaunchNone(l, Launching(given.descs[..], total, last, next, dirty), req, hw);
    next' := next;
  }

  lemma MoveFront(a: seq<Transfer>, b: seq<Transfer>)
    requires b != []
    ensures a + b == (a + [b[0]]) + b[1..]
  {
  }

  lemma LaunchAllStep(l: List, s: Launching, buffers: seq<Buffer>, i: nat, req: Request, hw: Hw)
    requires l.Valid() && |s.descs| == |l.descs| && i < |buffers|
    ensures LaunchAll(l, s, buffers[i..], req, hw)
         == LaunchAll(l, LaunchOne(l, s, buffers[i], i == |buffers| - 1, req, hw), buffers[i + 1..], req, hw)
  {
    hide LaunchOne;
    assert buffers[i..][1..] == buffers[i + 1..];
  }

  class VdmaChannel {
    const ring: TransferRing
    var numAvail: nat
    var numProc: nat
    var mask: nat
    var list: DescriptorsList?

    /** An idle channel, as hailo_vdma_engine_init leaves it. */
    constructor (ring: TransferRing)
      requires ring.Valid() && ring.Contents() == []
      ensures this.ring == ring && Valid() && View() == IDLE
    {
      this.ring := ring;
      numAvail, numProc, mask, list := 0, 0, U32_MAX, null;
    }

    ghost predicate Valid()
      reads this, ring
    {
      ring.Valid() && (list != null ==> list.descs as object != ring.slots)
    }

    ghost function View(): (c: Channel)
      reads this, ring, ring.slots, list, if list == null then {} else {list.descs}
      requires Valid()
    {
      Channel(numAvail, numProc, mask, if list == null then None else Some(list.View()), ring.Contents())
    }

    /** clear_dirty_descs. */
    method ClearDirtyDescs(t: Transfer)
      requires Valid() && list != null && forall d | d in t.dirty :: d < list.descs.Length
      modifies list.descs
      ensures list.descs[..] == ClearDirty(old(list.descs[..]), t.dirty, list.page)
    {
      hide ControlWord;
      var i := 0;
      ghost var before := list.descs[..];
      ClearNone(before, list.page);
      assert t.dirty[..0] == [];
      while i < |t.dirty|
        invariant 0 <= i <= |t.dirty|
        invariant list.descs[..] == ClearDirty(before, t.dirty[..i], list.page)
      {
        assert t.dirty[i] in t.dirty;
        ClearNext(before, t.dirty, i, list.page);
        list.descs[t.dirty[i]] := list.descs[t.dirty[i]].(control := ControlWord(list.page));
        i := i + 1;
      }
      assert t.dirty[..i] == t.dirty;
    }

    /** The body of the completion loop: the oldest transfer is retired. */
    method RetireOldest() returns (t: Transfer)
      requires Valid() && list != null && View().transfers != [] && InBounds(View())
      modifies this`numProc, ring`tail, list.descs
      ensures Valid() && t == old(View()).transfers[0] && View() == ReapOne(old(View()))
    {
      hide ClearDirty, And;
      t := ring.Front();
      assert t in View().transfers;
      ClearDirtyDescs(t);
      numProc := And(t.lastDesc + 1, mask) % TWO_16;
      var popped := ring.Pop();
    }

    /** fill_channel_irq_data: `numProcReg` and `control` are read from the host registers, `srcErr` and `dstErr`
        are the error registers; `done` is the sequence of transfers handed to the done callback. */
    method FillIrqData(control: nat, numProcReg: nat, srcErr: bool, dstErr: bool)
      returns (data: nat, done: seq<Transfer>)
      requires Valid() && list != null && InBounds(View())
      modifies this`numProc, ring`tail, list.descs
      ensures Valid() && list == old(list)
      ensures var hw := And(numProcReg, old(mask)) % TWO_16;
              && View() == Reap(old(View()), hw)
              && done == Done(old(View()), hw)
              && data == Report(old(View()), control, hw)
              && (control % 2 == 1 && data != CHANNEL_WITH_ERROR ==>
                    data == |old(View()).transfers| - |View().transfers|)
    {
      hide Reap, Done, IsComplete, ReapOne, AllGood, InBounds, And, IsActive, StatusGood;
      var hw := And(numProcReg, mask) % TWO_16;
      var good := true;
      ghost var c := View();
      done := [];
      var n := ring.Count();
      AllGoodNone(c.list.value);
      while n > 0
        invariant Valid() && list == old(list) && mask == old(mask) && n == |View().transfers|
        invariant InBounds(View())
        invariant Reap(c, hw) == Reap(View(), hw) && Done(c, hw) == done + Done(View(), hw)
        invariant good <==> AllGood(c.list.value, done)
        invariant SameStatus(c.list.value, list.View())
      {
        ReapUnfold(View(), hw);
        var t := ring.Front();
        if !IsComplete(Channel(numAvail, numProc, mask, None, []), t, hw) {
          CompleteLooksOnlyAtCounters(View(), t, hw);
          break;
        }
        CompleteLooksOnlyAtCounters(View(), t, hw);
        AllGoodStep(c.list.value, View(), done);
        if t.debug && !StatusGood(list.descs[t.lastDesc]) {
          good := false;
        }
        ReapOneKeeps(c.list.value, View());
        t := RetireOldest();
        done := done + [t];
        n := ring.Count();
      }
      ReapUnfold(View(), hw);
      assert done + [] == done;
      if !good && (srcErr || dstErr) {
        good := false;
      }
      ActiveIsOdd(control);
      DoneIsPrefix(c, hw);
      data := if !IsActive(control) then CHANNEL_NOT_ACTIVE else if !good then CHANNEL_WITH_ERROR else |done|;
    }

    /** hailo_vdma_launch_transfer. */
    method LaunchTransfer(given: DescriptorsList, regs: Registers, req: Request, hw: Hw) returns (ret: int)
      requires Valid() && given.View().Valid() && given.descs as object != ring.slots
      requires (list == null || list == given) && Passes(View(), regs, req) ==> req.start < given.descs.Length
      requires forall b | b in req.buffers :: FitsU32(b.size, given.page)
      modifies this`mask, this`list, this`numAvail, ring`head, ring.slots, given.descs
      ensures Valid()
      ensures old(list) != null && old(list) != given ==>
                LaunchResult(ret, View()) == LaunchOther(old(View()), old(given.View()))
      ensures old(list) == null || old(list) == given ==>
                LaunchResult(ret, View()) == Launch(old(View()), old(given.View()), regs, req, hw)
    {
      hide LaunchAll, LaunchCommit, List.Valid, And;
      ghost var l := given.View();
      SameShape(l, l.descs);
      mask := given.descs.Length - 1;
      if list == null {
        list := given;
      } else if list != given {
        return EINVAL;
      }
      if !IsActive(regs.control) {
        return ECONNRESET;
      }
      if regs.numAvail != numAvail {
        return EFAULT;
      }
      if numAvail != req.start % TWO_16 {
        return EFAULT;
      }
      if |req.buffers| > MAX_BUFFERS_PER_TRANSFER {
        return EINVAL;
      }
      ret := ProgramAndCommit(given, req, hw);
    }

    /** The second half of a launch: program the buffers, queue the transfer, make it available. */
    method ProgramAndCommit(given: DescriptorsList, req: Request, hw: Hw) returns (ret: int)
      requires Valid() && list == given && given.View().Valid() && req.start < given.descs.Length
      requires |req.buffers| <= MAX_BUFFERS_PER_TRANSFER
      requires forall b | b in req.buffers :: FitsU32(b.size, given.page)
      modifies this`numAvail, ring`head, ring.slots, given.descs
      ensures Valid() && given.descs.Length > 0
      ensures var l := old(given.View());
              LaunchResult(ret, View())
              == LaunchCommit(old(View()), l, LaunchAll(l, LaunchStart(l, req), req.buffers, req, hw), req, hw)
    {
      hide LaunchAll, List.Valid, InterruptBits, Or;
      ghost var l := given.View();
      SameShape(l, l.descs);
      var total, last, dirty, next := ProgramBuffers(given, req, hw);
      given.descs[req.start] := given.descs[req.start].(control := Or(given.descs[req.start].control,
                                                                      InterruptBits(hw, req.first, req.debug)));
      DirtyCount(l, req, hw);
      var pushed := ring.Push(Transfer(last % TWO_16, req.buffers, dirty, req.debug));
      if pushed < 0 {
        return pushed;
      }
      numAvail := U32(last + 1) % given.descs.Length % TWO_16;
      return S32(total);
    }

    /** The body of the disabling loop: the oldest transfer is dropped. */
    method DropOldest() returns (t: Transfer)
      requires Valid() && View().transfers != [] && InBounds(View())
      modifies ring`tail, if list == null then {} else {list.descs}
      ensures Valid() && t == old(View()).transfers[0]
      ensures View() == DropOne(old(View()))
    {
      hide ClearDirty;
      t := ring.Front();
      assert t in View().transfers;
      var popped := ring.Pop();
      if list != null {
        ClearDirtyDescs(t);
      }
    }

    /** The disabling loop: everything in flight is dropped, oldest first. */
    method DropAll() returns (dropped: seq<Transfer>)
      requires Valid() && InBounds(View())
      modifies ring`tail, if list == null then {} else {list.descs}
      ensures Valid() && dropped == old(View()).transfers
      ensures View() == DropEvery(old(View()))
    {
      hide DropOne, InBounds, DropEvery;
      ghost var c := View();
      dropped := [];
      var n := ring.Count();
      while n > 0
        invariant Valid() && n == |View().transfers| && InBounds(View())
        invariant c.transfers == dropped + View().transfers
        invariant DropEvery(c) == DropEvery(View())
      {
        DropOneStep(View());
        MoveFront(dropped, View().transfers);
        var t := DropOldest();
        dropped := dropped + [t];
        n := ring.Count();
      }
      assert dropped + [] == dropped;
      DropEveryNone(View());
    }

    /** One channel of hailo_vdma_engine_disable_channels: the state is reset and everything in flight dropped. */
    method Disable() returns (dropped: seq<Transfer>)
      requires Valid() && InBounds(View())
      modifies this, ring`tail, if list == null then {} else {list.descs}
      ensures Valid() && View() == IDLE && dropped == old(View()).transfers
      ensures old(list) != null ==> old(list).View() == Dropped(old(list.View()), dropped)
    {
      hide Dropped;
      numAvail, numProc, mask := 0, 0, U32_MAX;
      InBoundsAgain(old(View()), View());
      dropped := DropAll();
      list := null;
    }
  }

  /** A channel with everything in flight dropped. */
  function DropEvery(c: Channel): Channel {
    c.(list := if c.list.None? then None else Some(Dropped(c.list.value, c.transfers)), transfers := [])
  }

  lemma DropEveryNone(c: Channel)
    requires c.transfers == []
    ensures DropEvery(c) == c
  {
  }

  /** Dropping the oldest transfer. */
  function DropOne(c: Channel): Channel
    requires c.transfers != []
  {
    c.(list := if c.list.None? then None else Some(Cleared(c.list.value, c.transfers[0])),
       transfers := c.transfers[1..])
  }

  lemma DropOneStep(c: Channel)
    requires c.transfers != [] && InBounds(c)
    ensures InBounds(DropOne(c))
    ensures DropOne(c).transfers == c.transfers[1..]
    ensures DropEvery(DropOne(c)) == DropEvery(c)
  {
    hide ControlWord;
    forall t | t in c.transfers[1..] ensures t in c.transfers {
    }
  }

  lemma InBoundsAgain(c: Channel, d: Channel)
    requires InBounds(c) && d.list == c.list && d.transfers == c.transfers
    ensures InBounds(d)
  {
  }

  lemma {:induction false} LaunchAllDirty(l: List, s: Launching, buffers: seq<Buffer>, req: Request, hw: Hw)
    requires l.Valid() && |s.descs| == |l.descs|
    ensures |LaunchAll(l, s, buffers, req, hw).dirty| == |s.dirty| + |buffers|
    decreases |buffers|
  {
    hide Program;
    if buffers != [] {
      LaunchAllDirty(l, LaunchOne(l, s, buffers[0], |buffers| == 1, req, hw), buffers[1..], req, hw);
    }
  }

  lemma DirtyCount(l: List, req: Request, hw: Hw)
    requires l.Valid()
    ensures |LaunchAll(l, LaunchStart(l, req), req.buffers, req, hw).dirty| == 1 + |req.buffers|
  {
    LaunchAllDirty(l, LaunchStart(l, req), req.buffers, req, hw);
  }

  /** Equal but for control words, which the status checks do not look at. */
  ghost predicate SameStatus(a: List, b: List) {
    |a.descs| == |b.descs| && forall j | 0 <= j < |a.descs| :: a.descs[j].status == b.descs[j].status
  }

  lemma ClearNone(descs: seq<Desc>, page: nat)
    ensures ClearDirty(descs, [], page) == descs
  {
  }

  lemma ClearNext(descs: seq<Desc>, dirty: seq<nat>, i: nat, page: nat)
    requires i < |dirty| && dirty[i] < |descs|
    ensures var one := ClearDirty(descs, dirty[..i], page);
            ClearDirty(descs, dirty[..i + 1], page)
            == one[dirty[i] := one[dirty[i]].(control := ControlWord(page))]
  {
    hide ControlWord;
    assert dirty[..i + 1] == dirty[..i] + [dirty[i]];
  }

  lemma CompleteLooksOnlyAtCounters(c: Channel, t: Transfer, hw: nat)
    ensures IsComplete(c, t, hw) <==> IsComplete(Channel(c.numAvail, c.numProc, c.mask, None, []), t, hw)
  {
  }

  lemma AllGoodNone(l: List)
    ensures AllGood(l, [])
  {
  }

  lemma AllGoodStep(l: List, c: Channel, done: seq<Transfer>)
    requires c.list.Some? && c.transfers != [] && InBounds(c) && SameStatus(l, c.list.value)
    ensures c.transfers[0].debug ==> c.transfers[0].lastDesc < |c.list.value.descs|
    ensures AllGood(l, done + [c.transfers[0]])
       <==> AllGood(l, done) && (c.transfers[0].debug ==> StatusGood(c.list.value.descs[c.transfers[0].lastDesc]))
  {
    var t := c.transfers[0];
    assert t in c.transfers;
    assert t in done + [t];
    if AllGood(l, done + [t]) {
      forall u | u in done ensures u in done + [t] {
      }
    }
  }

  lemma ReapOneKeeps(l: List, c: Channel)
    requires c.list.Some? && c.transfers != [] && InBounds(c) && SameStatus(l, c.list.value)
    ensures ReapOne(c).transfers == c.transfers[1..]
    ensures ReapOne(c).list.Some? && InBounds(ReapOne(c)) && SameStatus(l, ReapOne(c).list.value)
  {
    hide And, ControlWord;
    forall t | t in c.transfers[1..] ensures t in c.transfers {
    }
  }
}
