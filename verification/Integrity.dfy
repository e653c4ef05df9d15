/** What is programmed for a transfer stays programmed while it is in flight: its descriptors still name the bytes of
    its buffers. */
module Integrity {
  import opened Bits
  import opened Cyclic
  import opened Descriptors
  import opened Results
  import opened Binding
  import opened Programming
  import opened FastPath
  import opened Requests
  import opened Transfers
  import opened ChannelModel
  import opened Geometry
  import opened Launches
  import opened LaunchWords
  import opened DirtyDescriptors

  // ----- what a launch programs -----

  function BufferBytes(b: Buffer): seq<nat> {
    if b.offset + b.size <= |TableBytes(b.sg)| then TableBytes(b.sg)[b.offset..b.offset + b.size] else []
  }

  /** The memory of all buffers, in order. */
  function BytesOf(buffers: seq<Buffer>): seq<nat> {
    if buffers == [] then [] else BufferBytes(buffers[0]) + BytesOf(buffers[1..])
  }

  /** Memory that 64-bit addresses reach. */
  predicate AllReachable(buffers: seq<Buffer>) {
    forall b | b in buffers :: Reachable(b)
  }

  predicate BufferAligned(b: Buffer, page: nat) {
    forall c | c in Chunks(b.sg, 0, b.offset, b.size) :: Aligned(c, page)
  }

  /** All descriptors of all buffers start on 64-byte boundaries. */
  predicate AllAligned(buffers: seq<Buffer>, page: nat) {
    forall b | b in buffers :: BufferAligned(b, page)
  }

  lemma BufferNames(w: seq<Desc>, b: Buffer, n: nat, page: nat, hw: Hw, bits: nat)
    requires 0 < page < TWO_16 && PlainHw(hw) && bits < 256 && Reachable(b)
    requires b.size > 0 && Programmable(b, true, n, page) && |w| == Count(b, true, page) > 0
    ensures var named := DescsBytes(One(w, b, true, page, page, hw, bits));
            |named| == |BufferBytes(b)| && (named == BufferBytes(b) <==> BufferAligned(b, page))
  {
    hide Chunks, DescsBytes, One, StridedChunks, Aligned, Addressable, TableBytes, ChunkBytes, DescCount, PlainHw;
    BoundNames(w, b, page, page, hw, bits);
    FullStrideChunks(Chunks(b.sg, 0, b.offset, b.size), page);
    ChunksAreTheBytes(b.sg, 0, b.offset, b.size);
  }

  lemma {:induction false} AllNames(w: seq<Desc>, buffers: seq<Buffer>, n: nat, page: nat, hw: Hw, bits: nat)
    requires 0 < page < TWO_16 && PlainHw(hw) && bits < 256 && AllReachable(buffers)
    requires forall b | b in buffers :: b.size > 0 && Programmable(b, true, n, page)
    requires |w| == Counts(buffers, true, page) && Taking(buffers, true, page)
    ensures var named := DescsBytes(All(w, buffers, true, page, page, hw, bits));
            |named| == |BytesOf(buffers)| && (named == BytesOf(buffers) <==> AllAligned(buffers, page))
    decreases |buffers|
  {
    hide Count, Programmable, One, DescBytes, BufferBytes, BufferAligned, Reachable, PlainHw;
    if buffers != [] {
      var b, rest, k := buffers[0], buffers[1..], Count(buffers[0], true, page);
      assert b in buffers;
      var final := if |buffers| == 1 then bits else 0;
      var first, more := One(w[..k], b, true, page, page, hw, final), All(w[k..], rest, true, page, page, hw, bits);
      BufferNames(w[..k], b, n, page, hw, final);
      AllNames(w[k..], rest, n, page, hw, bits);
      DescsBytesConcat(first, more);
      ConcatEqual(DescsBytes(first), DescsBytes(more), BufferBytes(b), BytesOf(rest));
      assert buffers == [b] + rest;
    }
  }

  /** The descriptors from the first one of the transfer on name the bytes of its buffers. */
  ghost predicate Decodes(descs: seq<Desc>, t: Transfer) {
    && t.dirty != [] && t.dirty[0] < |descs|
    && DescsBytes(Window(descs, t.dirty[0], Len(t, |descs|))) == BytesOf(t.buffers)
  }

  /** A bound launch queues a transfer whose descriptors name exactly the bytes of its buffers, one behind the other, if
      and only if all of them are aligned. */
  lemma LaunchDecodes(c: Channel, l: List, regs: Registers, req: Request, hw: Hw)
    requires Circular(l) && (c.list.Some? ==> c.list.value == l) && Acceptable(c, l, regs, req) && |c.transfers| < 127
    requires Counts(req.buffers, true, l.page) <= |l.descs| && req.bind && PlainHw(hw) && AllReachable(req.buffers)
    ensures var r := Launch(c, l, regs, req, hw).channel;
            && r.list.Some? && |r.transfers| == |c.transfers| + 1
            && (Decodes(r.list.value.descs, r.transfers[|c.transfers|]) <==> AllAligned(req.buffers, l.page))
  {
    hide Launch, Counts, Programmable, IsPow2, Len, Taking, Passes, All, InterruptBits, WriteAt, Window, DescsBytes,
      BytesOf, PlainHw, AllReachable, Ends, AllAligned, SetBits;
    LaunchQueues(c, l, regs, req, hw);
    LaunchWrites(c, l, regs, req, hw);
    var m := Counts(req.buffers, true, l.page);
    var all := All(Window(l.descs, req.start, m), req.buffers, true, l.page, l.page, hw,
                   InterruptBits(hw, req.last, req.debug));
    PlainBits(hw, req.first, req.debug);
    PlainBits(hw, req.last, req.debug);
    AllNames(Window(l.descs, req.start, m), req.buffers, |l.descs|, l.page, hw, InterruptBits(hw, req.last, req.debug));
    SetBitsKeepBytes(all, 0, InterruptBits(hw, req.first, req.debug));
    WindowOfWrite(l.descs, req.start, Written(l, req, hw));
  }

  lemma {:induction false} AllUnmarked(w: seq<Desc>, buffers: seq<Buffer>, page: nat, hw: Hw, bits: nat, i: nat)
    requires page > 0 && PlainHw(hw) && bits < 256
    requires |w| == Counts(buffers, true, page) && Taking(buffers, true, page) && i < |w|
    ensures All(w, buffers, true, page, page, hw, bits)[i].status == 0
    decreases |buffers|
  {
    hide Count, One, PlainHw;
    var k := Count(buffers[0], true, page);
    assert buffers[0] in buffers;
    if i < k {
      BoundFields(w[..k], buffers[0], page, page, hw, if |buffers| == 1 then bits else 0, i);
    } else {
      AllUnmarked(w[k..], buffers[1..], page, hw, bits, i - k);
    }
  }

  /** A bound launch clears the status of every descriptor of its transfer. */
  lemma LaunchClearsStatus(c: Channel, l: List, regs: Registers, req: Request, hw: Hw, d: nat)
    requires Circular(l) && (c.list.Some? ==> c.list.value == l) && Acceptable(c, l, regs, req) && |c.transfers| < 127
    requires Counts(req.buffers, true, l.page) <= |l.descs| && req.bind && PlainHw(hw)
    requires InRange(d, req.start, Counts(req.buffers, true, l.page), |l.descs|)
    ensures var r := Launch(c, l, regs, req, hw).channel;
            r.list.Some? && |r.list.value.descs| == |l.descs| && r.list.value.descs[d].status == 0
  {
    hide Launch, Counts, Programmable, IsPow2, Taking, Passes, All, InterruptBits, PlainHw, Or;
    LaunchWrites(c, l, regs, req, hw);
    PlainBits(hw, req.last, req.debug);
    var m := Counts(req.buffers, true, l.page);
    AllUnmarked(Window(l.descs, req.start, m), req.buffers, l.page, hw, InterruptBits(hw, req.last, req.debug),
                Offset(d, req.start, |l.descs|));
  }

  /** So a debug transfer whose status the hardware never wrote is reported as an error, not as completed. */
  lemma UnwrittenStatusIsAnError(c: Channel, l: List, regs: Registers, req: Request, hw: Hw, control: nat, num: nat)
    requires Circular(l) && (c.list.Some? ==> c.list.value == l) && Acceptable(c, l, regs, req) && |c.transfers| < 127
    requires Counts(req.buffers, true, l.page) <= |l.descs| && req.bind && req.debug && PlainHw(hw)
    requires control % 2 == 1 && Launch(c, l, regs, req, hw).channel.list.Some?
    ensures var r := Launch(c, l, regs, req, hw).channel;
            Reap(r, num).transfers == [] ==> Report(r, control, num) == 0xFE
  {
    hide Launch, Counts, Programmable, Passes, Reap, Report, Ends, Len, IsPow2, Taking, PlainHw;
    LaunchQueues(c, l, regs, req, hw);
    var r, m := Launch(c, l, regs, req, hw).channel, Counts(req.buffers, true, l.page);
    OffsetOfWrap(req.start, m - 1, |l.descs|);
    LaunchClearsStatus(c, l, regs, req, hw, Wrap(req.start + m - 1, |l.descs|));
    ReportIs(r, control, num);
    assert Failed(r, |c.transfers|);
  }

  // ----- what keeps it -----

  /** Descriptors that agree but for the status word name the same bytes. */
  lemma SameDecodes(before: seq<Desc>, after: seq<Desc>, t: Transfer)
    requires |before| == |after| && Decodes(before, t)
    requires forall d | 0 <= d < |before| && Occupies(t, d, |before|) :: SameDesc(after[d], before[d])
    ensures Decodes(after, t)
  {
    hide DescsBytes, BytesOf, And, Addresses;
    var n, at, len := |before|, t.dirty[0], Len(t, |before|);
    var a, b := Window(after, at, len), Window(before, at, len);
    forall i | 0 <= i < len ensures DescBytes(a[i]) == DescBytes(b[i]) {
      var d := Wrap(at + i, n);
      OffsetOfWrap(at, i, n);
      assert Occupies(t, d, n);
    }
    SameBytes(a, b);
  }

  /** Every transfer in flight that is to name its bytes does. */
  ghost predicate Intact(c: Channel, names: seq<bool>) {
    && c.list.Some? && |names| == |c.transfers|
    && forall i | 0 <= i < |names| && names[i] :: Decodes(c.list.value.descs, c.transfers[i])
  }

  /** Completing the oldest transfer. */
  lemma ReapOneIntact(c: Channel, names: seq<bool>)
    requires Geometric(c) && c.transfers != [] && Intact(c, names)
    ensures Intact(ReapOne(c), names[1..])
  {
    hide Decodes, Chain, Sum, ClearDirty, And, Occupies, Geometric;
    var r := ReapOne(c);
    forall i | 0 <= i < |names| - 1 && names[1..][i] ensures Decodes(r.list.value.descs, r.transfers[i]) {
      assert names[i + 1] && r.transfers[i] == c.transfers[i + 1];
      forall d | 0 <= d < |c.list.value.descs| && Occupies(c.transfers[i + 1], d, |c.list.value.descs|)
        ensures SameDesc(r.list.value.descs[d], c.list.value.descs[d])
      {
        ReapLeavesOthers(c, i + 1, d);
      }
      SameDecodes(c.list.value.descs, r.list.value.descs, c.transfers[i + 1]);
    }
  }

  lemma {:induction false} ReapIntact(c: Channel, hw: nat, names: seq<bool>)
    requires Geometric(c) && Intact(c, names)
    ensures |Done(c, hw)| <= |names| && Intact(Reap(c, hw), names[|Done(c, hw)|..])
    decreases |c.transfers|
  {
    hide Consecutive, Intact, IsComplete, ReapOne, Sum;
    IntactSize(c, names);
    ReapUnfold(c, hw);
    if c.transfers != [] && IsComplete(c, c.transfers[0], hw) {
      ReapOneIntact(c, names);
      ReapOneGeometric(c);
      ReapOneRest(c);
      ReapIntact(ReapOne(c), hw, names[1..]);
      assert names[|Done(c, hw)|..] == names[1..][|Done(ReapOne(c), hw)|..];
    } else {
      assert names[0..] == names;
    }
  }

  lemma IntactSize(c: Channel, names: seq<bool>)
    requires Intact(c, names)
    ensures |names| == |c.transfers| && c.list.Some?
  {
  }

  /** The descriptors of a request that fits belong to no transfer in flight. */
  lemma OccupiedOutside(c: Channel, i: nat, d: nat, m: nat)
    requires Geometric(c) && i < |c.transfers| && Sum(c.transfers, |c.list.value.descs|) + m <= |c.list.value.descs|
    requires d < |c.list.value.descs| && Occupies(c.transfers[i], d, |c.list.value.descs|)
    ensures !InRange(d, c.numAvail, m, |c.list.value.descs|)
  {
    hide Chain, Sum, Len;
    ChainAt(c.transfers, c.numProc, |c.list.value.descs|, i);
  }

  /** Programming free descriptors leaves every transfer in flight as it is. */
  lemma WriteIntact(c: Channel, names: seq<bool>, ds: seq<Desc>, i: nat)
    requires Geometric(c) && Intact(c, names) && i < |names| && names[i] && c.numAvail < |c.list.value.descs|
    requires Sum(c.transfers, |c.list.value.descs|) + |ds| <= |c.list.value.descs|
    ensures Decodes(WriteAt(c.list.value.descs, c.numAvail, ds), c.transfers[i])
  {
    hide Decodes, Chain, Sum, Occupies, Geometric;
    var before, after := c.list.value.descs, WriteAt(c.list.value.descs, c.numAvail, ds);
    forall d | 0 <= d < |before| && Occupies(c.transfers[i], d, |before|) ensures SameDesc(after[d], before[d]) {
      OccupiedOutside(c, i, d, |ds|);
    }
    SameDecodes(before, after, c.transfers[i]);
  }

  /** A request whose transfer is to name its bytes: bound, to aligned memory. */
  predicate NamesBytes(req: Request, page: nat, hw: Hw) {
    req.bind && PlainHw(hw) && AllReachable(req.buffers) && AllAligned(req.buffers, page)
  }

  /** The request fits into the descriptors that are free. */
  predicate LeavesAlone(c: Channel, l: List, req: Request)
    requires l.page > 0
  {
    Sum(c.transfers, |l.descs|) + Counts(req.buffers, req.bind, l.page) <= |l.descs|
  }

  /** An accepted launch on free descriptors: those in flight still name their bytes, and the new one does. */
  lemma LaunchIntact(c: Channel, l: List, regs: Registers, req: Request, hw: Hw, names: seq<bool>)
    requires Circular(l) && (c.list.Some? ==> c.list.value == l) && Geometric(Attach(c, l))
    requires Acceptable(c, l, regs, req) && |c.transfers| < 127 && LeavesAlone(c, l, req) && Intact(Attach(c, l), names)
    ensures Intact(Launch(c, l, regs, req, hw).channel, names + [NamesBytes(req, l.page, hw)])
  {
    hide Launch, Counts, Programmable, IsPow2, Len, Taking, Passes, Written, WriteAt, AllAligned, AllReachable,
      PlainHw, Ends, Decodes, Chain, Sum, Placed;
    AcceptableStart(c, l, regs, req);
    LaunchQueues(c, l, regs, req, hw);
    LaunchWrites(c, l, regs, req, hw);
    var r, k := Launch(c, l, regs, req, hw).channel, |c.transfers|;
    if NamesBytes(req, l.page, hw) {
      LaunchDecodes(c, l, regs, req, hw);
    }
    forall i | 0 <= i < k && names[i] ensures Decodes(r.list.value.descs, r.transfers[i]) {
      WriteIntact(Attach(c, l), names, Written(l, req, hw), i);
    }
  }

  /** The same for one that finds the ring full. */
  lemma FullRingIntact(c: Channel, l: List, regs: Registers, req: Request, hw: Hw, names: seq<bool>)
    requires Circular(l) && c.list == Some(l) && Geometric(c)
    requires Acceptable(c, l, regs, req) && |c.transfers| >= 127 && LeavesAlone(c, l, req) && Intact(c, names)
    ensures Intact(Launch(c, l, regs, req, hw).channel, names)
  {
    hide Launch, Counts, Programmable, IsPow2, Taking, Passes, Written, WriteAt, Decodes, Chain, Sum;
    AcceptableStart(c, l, regs, req);
    LaunchWrites(c, l, regs, req, hw);
    var r := Launch(c, l, regs, req, hw).channel;
    forall i | 0 <= i < |names| && names[i] ensures Decodes(r.list.value.descs, r.transfers[i]) {
      WriteIntact(c, names, Written(l, req, hw), i);
    }
  }

  /** The hardware writing a status word. */
  lemma StatusIntact(c: Channel, names: seq<bool>, j: nat, status: nat)
    requires Intact(c, names) && j < |c.list.value.descs|
    ensures var l := c.list.value;
            Intact(c.(list := Some(l.(descs := l.descs[j := l.descs[j].(status := status)]))), names)
  {
    hide Decodes, Occupies;
    var before := c.list.value.descs;
    var after := before[j := before[j].(status := status)];
    forall i | 0 <= i < |names| && names[i] ensures Decodes(after, c.transfers[i]) {
      SameDecodes(before, after, c.transfers[i]);
    }
  }

  /** A launch that finds the ring full leaves the transfers in flight alone if and only if the descriptors it programs
      past the free ones are those that were there. It programs none past them exactly when its request fits. */
  lemma FullRingLeavesAlone(c: Channel, l: List, regs: Registers, req: Request, hw: Hw)
    requires Circular(l) && c.list == Some(l) && Geometric(c) && Acceptable(c, l, regs, req) && |c.transfers| >= 127
    requires Counts(req.buffers, req.bind, l.page) <= |l.descs|
    ensures Taking(req.buffers, req.bind, l.page) && Counts(req.buffers, req.bind, l.page) > 0
    ensures var n, sum, m := |l.descs|, Sum(c.transfers, |l.descs|), Counts(req.buffers, req.bind, l.page);
            var r := Launch(c, l, regs, req, hw).channel;
            && r.list.Some? && |r.list.value.descs| == n
            && ((forall d | 0 <= d < n && Offset(d, c.numProc, n) < sum :: r.list.value.descs[d] == l.descs[d])
                <==> forall i | n - sum <= i < m :: Written(l, req, hw)[i] == l.descs[Wrap(req.start + i, n)])
  {
    hide Launch, Counts, Programmable, Written, IsPow2, Taking, Passes, Chain, Sum, WriteAt, Offset, Wrap;
    AcceptableStart(c, l, regs, req);
    LaunchWrites(c, l, regs, req, hw);
    WriteLeaves(l.descs, c.numProc, Sum(c.transfers, |l.descs|), req.start, Written(l, req, hw));
  }

  /** A write right behind `sum` positions from `first` on leaves these as they are exactly if what comes round to them
      was there before. */
  lemma WriteLeaves(before: seq<Desc>, first: nat, sum: nat, start: nat, ds: seq<Desc>)
    requires first < |before| && sum < |before| && start == Wrap(first + sum, |before|) && |ds| <= |before|
    ensures (forall d | 0 <= d < |before| && Offset(d, first, |before|) < sum ::
               WriteAt(before, start, ds)[d] == before[d])
       <==> forall i | |before| - sum <= i < |ds| :: ds[i] == before[Wrap(start + i, |before|)]
  {
    hide WriteAt, Wrap, Offset;
    var n, after := |before|, WriteAt(before, start, ds);
    forall d | 0 <= d < n
      ensures Offset(d, first, n) < sum <==> Offset(d, start, n) >= n - sum
      ensures after[d] == if Offset(d, start, n) < |ds| then ds[Offset(d, start, n)] else before[d]
    {
      AroundFrom(first, sum, start, n, d);
      WrittenAt(before, start, ds, d);
    }
    if forall d | 0 <= d < n && Offset(d, first, n) < sum :: after[d] == before[d] {
      forall i | n - sum <= i < |ds| ensures ds[i] == before[Wrap(start + i, n)] {
        var d := Wrap(start + i, n);
        OffsetOfWrap(start, i, n);
        assert after[d] == before[d];
      }
    }
  }

  lemma AroundFrom(first: nat, sum: nat, start: nat, n: nat, d: nat)
    requires first < n && sum < n && start == Wrap(first + sum, n) && d < n
    ensures Offset(d, first, n) < sum <==> Offset(d, start, n) >= n - sum
  {
  }

  lemma WrittenAt(before: seq<Desc>, start: nat, ds: seq<Desc>, d: nat)
    requires start < |before| && |ds| <= |before| && d < |before|
    ensures WriteAt(before, start, ds)[d]
         == if Offset(d, start, |before|) < |ds| then ds[Offset(d, start, |before|)] else before[d]
  {
  }
}
