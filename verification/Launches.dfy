/** What a launch returns and queues, and what it does to the channel geometry. */
module Launches {
  import opened Bits
  import opened Cyclic
  import opened Descriptors
  import opened Results
  import opened Binding
  import opened Programming
  import opened FastPath
  import opened Requests
  import opened Transfers
  import opened ChannelModel
  import opened Geometry

  // ----- one buffer -----

  /** A buffer that programming accepts on a circular list of n descriptors; see BindableAnywhere. */
  predicate Programmable(b: Buffer, bind: bool, n: nat, page: nat)
    requires page > 0
  {
    bind ==>
      && Rem(b.offset, page) == 0
      && (b.size == 0 || b.offset + b.size <= |TableBytes(b.sg)|)
      && Count(b, true, page) <= n
  }

  lemma BindableAnywhere(l: List, start: nat, b: Buffer)
    requires Circular(l) && start < |l.descs|
    ensures Programmable(b, true, |l.descs|, l.page) <==> Bindable(l, start, b)
  {
    hide Chunks, TableBytes, DescCount;
  }

  /** What programming the buffer returns: the descriptors it takes, or the error. */
  function RetOf(b: Buffer, bind: bool, n: nat, page: nat): int
    requires page > 0
  {
    if Programmable(b, bind, n, page) then Count(b, bind, page)
    else if Rem(b.offset, page) != 0 then EINVAL
    else if Count(b, true, page) > n then ERANGE
    else EFAULT
  }

  lemma ProgramReturns(l: List, start: nat, b: Buffer, bind: bool, hw: Hw, domain: Domain, debug: bool)
    requires Circular(l) && start < |l.descs|
    ensures Program(l, start, b, bind, hw, domain, debug, 0).ret == RetOf(b, bind, |l.descs|, l.page)
  {
    hide TableBytes, Chunks, DescsOf, WriteAt, Fitting, ChunkBytes, InterruptBits, SetBits, DescCount;
    if bind {
      var chunks := Chunks(b.sg, 0, b.offset, b.size);
      ChunksAreTheBytes(b.sg, 0, b.offset, b.size);
      FittingAll(chunks, |l.descs|, l.page);
      FittingShorter(chunks, |l.descs|, l.page);
    }
  }

  lemma RetBounds(b: Buffer, n: nat, page: nat)
    requires page > 0 && n <= TWO_16
    ensures ERANGE <= RetOf(b, true, n, page) <= TWO_16
    ensures RetOf(b, true, n, page) == Count(b, true, page) <==> Programmable(b, true, n, page)
    ensures RetOf(b, true, n, page) <= Count(b, true, page)
  {
    hide Chunks, TableBytes, DescCount;
  }

  lemma CountPositive(b: Buffer, bind: bool, n: nat, page: nat)
    requires 0 < page < TWO_16 && b.size > 0 && Programmable(b, bind, n, page)
    ensures Count(b, bind, page) >= 1
  {
    hide Chunks, TableBytes, DescCount, DescsOf;
    DivUpBounds(b.size, page);
    if bind {
      BufferControls(b, page, PCIE_HW);
    }
  }

  // ----- all buffers of a request -----

  /** The position x on a list of n, counted around in either direction. */
  function Position(x: int, n: nat): (r: nat)
    requires n > 0
    ensures r < n
  {
    x % n
  }

  function RetSum(buffers: seq<Buffer>, bind: bool, n: nat, page: nat): int
    requires page > 0
  {
    if buffers == [] then 0 else RetOf(buffers[0], bind, n, page) + RetSum(buffers[1..], bind, n, page)
  }

  /** The last descriptor of every buffer, when programming starts at `next`. */
  function Ends(buffers: seq<Buffer>, bind: bool, next: nat, n: nat, page: nat): (r: seq<nat>)
    requires page > 0 && n > 0
    ensures |r| == |buffers|
    decreases |buffers|
  {
    if buffers == [] then []
    else
      var ret := RetOf(buffers[0], bind, n, page);
      [Position(next + ret - 1, n)] + Ends(buffers[1..], bind, Position(next + ret, n), n, page)
  }

  /** Errors only lower the sum: it is the number of descriptors exactly when there is no error. */
  lemma {:induction false} SumIsCounts(buffers: seq<Buffer>, n: nat, page: nat)
    requires page > 0 && n <= TWO_16
    ensures ERANGE * |buffers| <= RetSum(buffers, true, n, page) <= TWO_16 * |buffers|
    ensures RetSum(buffers, true, n, page) <= Counts(buffers, true, page)
    ensures RetSum(buffers, true, n, page) == Counts(buffers, true, page)
       <==> forall b | b in buffers :: Programmable(b, true, n, page)
  {
    hide RetOf, Count, Programmable;
    if buffers != [] {
      RetBounds(buffers[0], n, page);
      SumIsCounts(buffers[1..], n, page);
      assert buffers == [buffers[0]] + buffers[1..];
    }
  }

  lemma {:induction false} SumOfProgrammable(buffers: seq<Buffer>, bind: bool, n: nat, page: nat)
    requires page > 0 && forall b | b in buffers :: Programmable(b, bind, n, page)
    ensures RetSum(buffers, bind, n, page) == Counts(buffers, bind, page)
  {
    hide Count, Programmable;
    if buffers != [] {
      assert buffers[0] in buffers;
      SumOfProgrammable(buffers[1..], bind, n, page);
    }
  }

  // ----- remainders -----

  lemma SmallValue(x: nat, n: nat)
    requires x < n
    ensures x % n == x
  {
    DivModUnique(x, n, 0, x);
  }

  /** Reducing modulo 2^32 first does not change a remainder by a smaller power of two. */
  lemma WrappedMod(x: int, n: nat)
    requires IsPow2(n) && n <= TWO_16
    ensures U32(x) % n == x % n
  {
    var k: nat :| n == Pow2(k);
    Pow2Values();
    if k > 16 {
      Pow2Monotone(17, k);
    }
    Pow2Add(32 - k, k);
    ModOfMultiple(x, TWO_32, Pow2(32 - k), n);
  }

  lemma Signed(x: int)
    requires -0x8000_0000 <= x < 0x8000_0000
    ensures S32(U32(x)) == x
  {
    if x < 0 {
      DivModUnique(x, TWO_32, -1, x + TWO_32);
    }
  }

  // ----- the loop over the buffers -----

  /** One round: the sums take in what programming returned, error or not. */
  lemma LaunchOneReturns(l: List, s: Launching, b: Buffer, final: bool, req: Request, hw: Hw)
    requires Circular(l) && |s.descs| == |l.descs| && s.next < |l.descs|
    ensures var n, ret := |l.descs|, RetOf(b, req.bind, |l.descs|, l.page);
            var r := LaunchOne(l, s, b, final, req, hw);
            && r.total == U32(s.total + ret)
            && r.last == Position(s.next + ret - 1, n)
            && r.next == Position(s.next + ret, n)
            && r.dirty == s.dirty + [r.last]
  {
    hide Program, RetOf, IsPow2, U32;
    var n, ret := |l.descs|, RetOf(b, req.bind, |l.descs|, l.page);
    ProgramReturns(l.(descs := s.descs), s.next, b, req.bind, hw, if final then req.last else NO_DOMAIN, req.debug);
    WrappedMod(s.next + ret - 1, n);
    WrappedMod(s.next + ret, n);
    SmallValue((s.next + ret - 1) % n, TWO_16);
  }

  /** The whole loop. */
  lemma {:induction false} LaunchAllReturns(l: List, s: Launching, buffers: seq<Buffer>, req: Request, hw: Hw)
    requires Circular(l) && |s.descs| == |l.descs| && s.next < |l.descs| && s.total < TWO_32
    ensures var n, sum := |l.descs|, RetSum(buffers, req.bind, |l.descs|, l.page);
            var r := LaunchAll(l, s, buffers, req, hw);
            && r.total == U32(s.total + sum)
            && (buffers != [] ==> r.last == Position(s.next + sum - 1, n))
            && r.dirty == s.dirty + Ends(buffers, req.bind, s.next, n, l.page)
    decreases |buffers|
  {
    hide LaunchOne, RetOf, U32, IsPow2, LaunchAll, Position;
    if buffers == [] {
      LaunchNone(l, s, req, hw);
      NoSum(s.total);
      assert s.dirty + [] == s.dirty;
    } else {
      var n, ret := |l.descs|, RetOf(buffers[0], req.bind, |l.descs|, l.page);
      var s' := LaunchOne(l, s, buffers[0], |buffers| == 1, req, hw);
      LaunchOneReturns(l, s, buffers[0], |buffers| == 1, req, hw);
      LaunchMore(l, s, buffers, req, hw);
      LaunchAllReturns(l, s', buffers[1..], req, hw);
      if buffers[1..] == [] {
        LaunchNone(l, s', req, hw);
      }
      SumAgain(s.total, ret, RetSum(buffers[1..], req.bind, n, l.page));
      PositionAdd(s.next + ret, RetSum(buffers[1..], req.bind, n, l.page) - 1, n);
      var more := Ends(buffers[1..], req.bind, s'.next, n, l.page);
      assert s.dirty + [s'.last] + more == s.dirty + ([s'.last] + more);
    }
  }

  lemma PositionAdd(x: int, d: int, n: nat)
    requires n > 0
    ensures Position(Position(x, n) + d, n) == Position(x + d, n)
  {
    ModPlus(x, d, n);
  }

  lemma NoSum(total: nat)
    requires total < TWO_32
    ensures U32(total + 0) == total
  {
  }

  lemma SumAgain(total: nat, a: int, b: int)
    ensures U32(U32(total + a) + b) == U32(total + (a + b))
  {
    ModPlus(total + a, b, TWO_32);
  }

  // ----- the launch -----

  /** c with list l attached, as launch attaches it before anything else. */
  function Attach(c: Channel, l: List): Channel
    requires |l.descs| > 0
  {
    c.(mask := |l.descs| - 1, list := Some(l))
  }

  /** What a launch that passes its checks leaves, once its loop has left s. */
  lemma LaunchIs(c: Channel, l: List, regs: Registers, req: Request, hw: Hw, s: Launching)
    requires l.Valid() && req.start < |l.descs| && (c.list.Some? ==> c.list.value == l)
    requires Passes(c, regs, req) && |c.transfers| < 127
    requires s == LaunchAll(l, LaunchStart(l, req), req.buffers, req, hw)
    ensures Launch(c, l, regs, req, hw)
         == LaunchResult(S32(s.total),
              Channel(U32(s.last + 1) % |l.descs| % TWO_16, c.numProc, |l.descs| - 1,
                      Some(l.(descs := SetBits(s.descs, req.start, InterruptBits(hw, req.first, req.debug)))),
                      c.transfers + [Transfer(s.last % TWO_16, req.buffers, s.dirty, req.debug)]))
  {
    hide LaunchAll, SetBits, InterruptBits, IsActive;
  }

  /** What the checks in front of the programming loop do, from the registers alone: each failing one has its error, and
      the list is attached and nothing else changed. A launch that passes them does what LaunchIs says. */
  lemma LaunchChecks(c: Channel, l: List, regs: Registers, req: Request, hw: Hw)
    requires l.Valid() && req.start < |l.descs| && (c.list.Some? ==> c.list.value == l)
    ensures var sync := regs.numAvail == c.numAvail && c.numAvail == req.start;
            && (Passes(c, regs, req) <==> regs.control % 2 == 1 && sync && |req.buffers| <= 8)
            && (!Passes(c, regs, req) ==>
                  Launch(c, l, regs, req, hw)
                  == LaunchResult(if regs.control % 2 == 0 then ECONNRESET else if !sync then EFAULT else EINVAL,
                                  Attach(c, l)))
  {
    hide LaunchAll, IsActive, IsPow2;
    SmallValue(req.start, TWO_16);
    ActiveIsOdd(regs.control);
  }

  /** A launch returns ECONNRESET if and only if the control register is even, or the errors of buffers that cannot be
      programmed happen to add up to that code. */
  lemma ResetIff(c: Channel, l: List, regs: Registers, req: Request, hw: Hw)
    requires Circular(l) && req.start < |l.descs| && (c.list.Some? ==> c.list.value == l)
    ensures Launch(c, l, regs, req, hw).ret == ECONNRESET
       <==> || regs.control % 2 == 0
            || (&& Passes(c, regs, req) && |c.transfers| < 127
                && S32(U32(RetSum(req.buffers, req.bind, |l.descs|, l.page))) == ECONNRESET)
  {
    hide Launch, RetSum, S32, U32, IsPow2, Bindable, Counts, Ends, Passes, LaunchAll;
    LaunchChecks(c, l, regs, req, hw);
    if Passes(c, regs, req) {
      if |c.transfers| < 127 {
        LaunchReturns(c, l, regs, req, hw);
      } else {
        LaunchFull(c, l, regs, req, hw);
      }
    }
  }

  lemma LaunchFull(c: Channel, l: List, regs: Registers, req: Request, hw: Hw)
    requires l.Valid() && req.start < |l.descs| && (c.list.Some? ==> c.list.value == l)
    requires Passes(c, regs, req) && |c.transfers| >= 127
    ensures Launch(c, l, regs, req, hw).ret == EFAULT
  {
    hide LaunchAll, IsActive, SetBits, InterruptBits;
  }

  /** A request that passes the checks starts inside the list exactly when its starting descriptor fits in the 16 bits
      that are compared. Otherwise the launch goes on to set bits behind the end of the list. */
  lemma StartsInside(c: Channel, l: List, regs: Registers, req: Request)
    requires l.Valid() && c.numAvail < |l.descs| && Passes(c, regs, req)
    ensures req.start < |l.descs| <==> req.start < TWO_16
    ensures req.start < |l.descs| ==> req.start == c.numAvail
  {
    hide IsPow2;
    if req.start < TWO_16 {
      SmallValue(req.start, TWO_16);
    }
  }

  /** Every request that passes the checks queues exactly one transfer, if the ring has a free slot, and moves
      num_avail by what programming its buffers returned, errors included. The value returned is that sum. It is the
      number of descriptors the buffers take if and only if every one of them can be bound. */
  lemma LaunchReturns(c: Channel, l: List, regs: Registers, req: Request, hw: Hw)
    requires Circular(l) && req.start < |l.descs| && (c.list.Some? ==> c.list.value == l)
    requires Passes(c, regs, req) && |c.transfers| < 127
    ensures var n, sum := |l.descs|, RetSum(req.buffers, req.bind, |l.descs|, l.page);
            var r := Launch(c, l, regs, req, hw);
            && |r.channel.transfers| == |c.transfers| + 1
            && var t := r.channel.transfers[|c.transfers|];
               && r.channel.transfers == c.transfers + [t]
               && t.buffers == req.buffers && t.debug == req.debug
               && t.dirty == [req.start] + Ends(req.buffers, req.bind, req.start, n, l.page)
               && (req.buffers != [] ==> t.lastDesc == (req.start + sum - 1) % n)
               && (req.buffers != [] ==> r.channel.numAvail == (req.start + sum) % n)
               && r.channel.numProc == c.numProc && r.channel.mask == n - 1
               && r.channel.list.Some? && r.channel.list.value == l.(descs := r.channel.list.value.descs)
               && |r.channel.list.value.descs| == n
               && r.ret == S32(U32(sum))
               && (req.bind ==>
                     && r.ret == sum
                     && (r.ret == Counts(req.buffers, true, l.page)
                         <==> forall b | b in req.buffers :: Bindable(l, req.start, b)))
  {
    hide LaunchAll, SetBits, InterruptBits, Launch, RetOf, IsPow2, Bindable, Programmable, S32, U32, IsActive;
    var n, sum := |l.descs|, RetSum(req.buffers, req.bind, |l.descs|, l.page);
    LaunchAllReturns(l, LaunchStart(l, req), req.buffers, req, hw);
    var s := LaunchAll(l, LaunchStart(l, req), req.buffers, req, hw);
    LaunchIs(c, l, regs, req, hw, s);
    SmallValue(req.start, TWO_16);
    if req.buffers != [] {
      LastPlusOne(req.start + sum, n);
      SmallValue(s.last, TWO_16);
    }
    if req.bind {
      SumIsCounts(req.buffers, n, l.page);
      Signed(sum);
      forall b | b in req.buffers ensures Programmable(b, true, n, l.page) <==> Bindable(l, req.start, b) {
        BindableAnywhere(l, req.start, b);
      }
    }
  }

  lemma LastPlusOne(x: int, n: nat)
    requires 0 < n <= TWO_16
    ensures U32((x - 1) % n + 1) % n % TWO_16 == x % n
  {
    ModPlus(x - 1, 1, n);
    SmallValue((x - 1) % n + 1, TWO_32);
    SmallValue(x % n, TWO_16);
  }

  // ----- the geometry -----

  /** What a caller can check before launching: 1 to 8 buffers that are not empty and can be programmed. */
  ghost predicate Acceptable(c: Channel, l: List, regs: Registers, req: Request)
    requires l.page > 0
  {
    && Passes(c, regs, req) && req.start < |l.descs|
    && req.buffers != []
    && forall b | b in req.buffers :: b.size > 0 && Programmable(b, req.bind, |l.descs|, l.page)
  }

  /** The first end, and those behind it, in steps from a common start. */
  lemma EndsSplit(buffers: seq<Buffer>, bind: bool, start: nat, a: nat, n: nat, page: nat)
    requires 0 < page < TWO_16 && start < n && a + Counts(buffers, bind, page) <= n && buffers != []
    requires forall b | b in buffers :: b.size > 0 && Programmable(b, bind, n, page)
    ensures var k := Count(buffers[0], bind, page);
            && k >= 1
            && Ends(buffers, bind, Wrap(start + a, n), n, page)
               == [Wrap(start + (a + k - 1), n)] + Ends(buffers[1..], bind, Wrap(start + (a + k), n), n, page)
  {
    hide Count, Programmable, Wrap;
    var b, next := buffers[0], Wrap(start + a, n);
    assert b in buffers;
    var k := Count(b, bind, page);
    CountPositive(b, bind, n, page);
    WrapIsMod(next + k - 1, n);
    WrapIsMod(next + k, n);
    WrapTwice(start, a, k - 1, n);
    WrapTwice(start, a, k, n);
  }

  /** As long as the buffers go round the list at most once, they end inside the descriptors they take together. */
  lemma {:induction false} EndsInside(buffers: seq<Buffer>, bind: bool, start: nat, a: nat, n: nat, page: nat, d: nat)
    requires 0 < page < TWO_16 && start < n && a + Counts(buffers, bind, page) <= n
    requires forall b | b in buffers :: b.size > 0 && Programmable(b, bind, n, page)
    requires d in Ends(buffers, bind, Wrap(start + a, n), n, page)
    ensures d < n && a <= Offset(d, start, n) < a + Counts(buffers, bind, page)
    decreases |buffers|
  {
    hide Count, Programmable, Wrap;
    var k := Count(buffers[0], bind, page);
    EndsSplit(buffers, bind, start, a, n, page);
    if d in Ends(buffers[1..], bind, Wrap(start + (a + k), n), n, page) {
      EndsInside(buffers[1..], bind, start, a + k, n, page, d);
    } else {
      OffsetOfWrap(start, a + k - 1, n);
    }
  }

  lemma OffsetOfWrap(start: nat, i: nat, n: nat)
    requires start < n && i < n
    ensures Offset(Wrap(start + i, n), start, n) == i
  {
  }

  lemma {:induction false} CountsPositive(buffers: seq<Buffer>, bind: bool, n: nat, page: nat)
    requires 0 < page < TWO_16 && buffers != []
    requires forall b | b in buffers :: b.size > 0 && Programmable(b, bind, n, page)
    ensures Counts(buffers, bind, page) >= 1
  {
    hide Count, Programmable;
    assert buffers[0] in buffers;
    CountPositive(buffers[0], bind, n, page);
  }

  /** An accepted launch queues one transfer behind those in flight, on the descriptors from num_avail on, and
      returns their number: those of every piece of the table, wherever the pieces end. */
  lemma LaunchQueues(c: Channel, l: List, regs: Registers, req: Request, hw: Hw)
    requires Circular(l) && (c.list.Some? ==> c.list.value == l)
    requires Acceptable(c, l, regs, req) && |c.transfers| < 127 && Counts(req.buffers, req.bind, l.page) <= |l.descs|
    ensures var m, n := Counts(req.buffers, req.bind, l.page), |l.descs|;
            var r := Launch(c, l, regs, req, hw);
            && r.ret == m >= 1
            && |r.channel.transfers| == |c.transfers| + 1
            && var t := r.channel.transfers[|c.transfers|];
               && r.channel.transfers == c.transfers + [t]
               && t.buffers == req.buffers && t.debug == req.debug
               && t.dirty == [req.start] + Ends(req.buffers, req.bind, req.start, n, l.page)
               && t.lastDesc == Wrap(req.start + m - 1, n)
               && Placed(t, req.start, n) && Len(t, n) == m
               && r.channel.list.Some? && r.channel.list.value == l.(descs := r.channel.list.value.descs)
               && |r.channel.list.value.descs| == n
               && r.channel.numProc == c.numProc && r.channel.mask == n - 1
               && r.channel.numAvail == Wrap(req.start + m, n)
  {
    hide Launch, Count, Programmable, IsActive, S32, U32, IsPow2, Bindable, Ends;
    var m, n := Counts(req.buffers, req.bind, l.page), |l.descs|;
    LaunchReturns(c, l, regs, req, hw);
    SumOfProgrammable(req.buffers, req.bind, n, l.page);
    CountsPositive(req.buffers, req.bind, n, l.page);
    Signed(m);
    WrapIsMod(req.start + m - 1, n);
    WrapIsMod(req.start + m, n);
    OffsetOfWrap(req.start, m - 1, n);
    WrapZero(req.start, n);
    var t := Launch(c, l, regs, req, hw).channel.transfers[|c.transfers|];
    forall d | d in t.dirty ensures d < n && Offset(d, req.start, n) < m {
      if d in Ends(req.buffers, req.bind, req.start, n, l.page) {
        EndsInside(req.buffers, req.bind, req.start, 0, n, l.page, d);
      }
    }
  }

  /** The interval a transfer records is as long as the descriptors it took, unless those go round the list more than
      once, which launch does not check. */
  lemma LengthRecorded(c: Channel, l: List, regs: Registers, req: Request, hw: Hw)
    requires Circular(l) && (c.list.Some? ==> c.list.value == l)
    requires Acceptable(c, l, regs, req) && |c.transfers| < 127
    ensures var r := Launch(c, l, regs, req, hw).channel;
            && |r.transfers| == |c.transfers| + 1
            && (Len(r.transfers[|c.transfers|], |l.descs|) == Counts(req.buffers, req.bind, l.page)
                <==> Counts(req.buffers, req.bind, l.page) <= |l.descs|)
  {
    hide Launch, Counts, Ends, Programmable, Len, RetSum, S32, U32, Bindable;
    LaunchReturns(c, l, regs, req, hw);
    if Counts(req.buffers, req.bind, l.page) <= |l.descs| {
      LaunchQueues(c, l, regs, req, hw);
    }
  }

  lemma StillCircular(l: List, descs: seq<Desc>)
    requires Circular(l) && |descs| == |l.descs|
    ensures Circular(l.(descs := descs)) && l.Valid() && l.page > 0 && |l.descs| <= TWO_16
  {
  }

  /** An accepted launch keeps the channel geometry exactly when at least one descriptor stays free. One that fills
      the list leaves the transfers consecutive, with num_avail back at num_proc. */
  lemma LaunchGeometric(c: Channel, l: List, regs: Registers, req: Request, hw: Hw)
    requires Circular(l) && (c.list.Some? ==> c.list.value == l)
    requires Geometric(Attach(c, l)) && Acceptable(c, l, regs, req) && |c.transfers| < 127
    requires Counts(req.buffers, req.bind, l.page) <= |l.descs|
    ensures req.start < |l.descs|
    ensures var m, n := Sum(c.transfers, |l.descs|) + Counts(req.buffers, req.bind, l.page), |l.descs|;
            var r := Launch(c, l, regs, req, hw).channel;
            && (Geometric(r) <==> m < n)
            && (Consecutive(r) <==> m <= n)
            && (m == n ==> r.numAvail == r.numProc)
  {
    hide Launch, Chain, Acceptable, Wrap, Sum, Placed, Len, Counts, Ends;
    AcceptableStart(c, l, regs, req);
    LaunchQueues(c, l, regs, req, hw);
    var r := Launch(c, l, regs, req, hw).channel;
    var t, n := r.transfers[|c.transfers|], |l.descs|;
    SumAppend(c.transfers, t, n);
    if Sum(c.transfers, n) + Len(t, n) <= n {
      StillCircular(l, r.list.value.descs);
      ChainAppend(c.transfers, t, c.numProc, n);
      WrapTwice(c.numProc, Sum(c.transfers, n), Len(t, n), n);
      AllRound(c.numProc, n);
    }
  }

  lemma AllRound(at: nat, n: nat)
    requires at < n
    ensures Wrap(at + n, n) == at
  {
  }

  lemma AcceptableStart(c: Channel, l: List, regs: Registers, req: Request)
    requires l.Valid() && Acceptable(c, l, regs, req)
    ensures req.start == c.numAvail && req.start < |l.descs|
  {
    hide Programmable;
    SmallValue(req.start, TWO_16);
  }

  lemma SumAppend(ts: seq<Transfer>, t: Transfer, n: nat)
    ensures Sum(ts + [t], n) == Sum(ts, n) + Len(t, n)
  {
    SumConcat(ts, [t], n);
    assert [t][1..] == [];
    assert Sum([t], n) == Len(t, n) + Sum([], n);
  }

  // ----- launches that do not keep the geometry -----

  /** A request without buffers is queued with the last descriptor of no buffer, and num_avail falls back to zero.
      The geometry is gone, unless the list has all the 64K descriptors and num_avail has not gone round: then the
      transfer claims every descriptor up to the end of the list, none of which was programmed. */
  lemma LaunchWithoutBuffers(c: Channel, l: List, regs: Registers, req: Request, hw: Hw)
    requires Circular(l) && req.start < |l.descs| && (c.list.Some? ==> c.list.value == l)
    requires Passes(c, regs, req) && req.buffers == [] && |c.transfers| < 127
    ensures var r := Launch(c, l, regs, req, hw);
            && r.ret == 0
            && r.channel.numAvail == 0
            && r.channel.transfers == c.transfers + [Transfer(TWO_16 - 1, [], [req.start], req.debug)]
            && (Geometric(Attach(c, l)) ==>
                  (Geometric(r.channel) <==> |l.descs| == TWO_16 && Sum(c.transfers, TWO_16) < req.start))
  {
    hide SetBits, InterruptBits, IsActive, Program, Launch, Geometric, Sum;
    SmallValue(req.start, TWO_16);
    LaunchIs(c, l, regs, req, hw, LaunchStart(l, req));
    var r := Launch(c, l, regs, req, hw).channel;
    if Geometric(Attach(c, l)) {
      StillCircular(l, r.list.value.descs);
      NoBuffersGeometric(Attach(c, l), r, Transfer(TWO_16 - 1, [], [req.start], req.debug));
    }
  }

  lemma NoBuffersGeometric(c: Channel, r: Channel, t: Transfer)
    requires Geometric(c) && t.lastDesc == TWO_16 - 1 && t.dirty == [c.numAvail]
    requires r.list.Some? && Circular(r.list.value) && |r.list.value.descs| == |c.list.value.descs|
    requires r.mask == c.mask && r.numProc == c.numProc && r.numAvail == 0 && r.transfers == c.transfers + [t]
    ensures Geometric(r) <==> |c.list.value.descs| == TWO_16 && Sum(c.transfers, TWO_16) < c.numAvail
  {
    hide Chain, Sum, IsPow2;
    var n := |c.list.value.descs|;
    SumAppend(c.transfers, t, n);
    if Geometric(r) {
      ChainAt(r.transfers, r.numProc, n, |c.transfers|);
    } else if n == TWO_16 && Sum(c.transfers, n) < c.numAvail {
      assert Placed(t, c.numAvail, n);
      ChainAppend(c.transfers, t, c.numProc, n);
    }
  }

  /** Whatever a launch queues, it lists existing descriptors. Only a debug request without buffers, on a list of less
      than 64K descriptors, leaves a last descriptor for the completion loop to look up that does not exist. */
  lemma LaunchInBounds(c: Channel, l: List, regs: Registers, req: Request, hw: Hw)
    requires Circular(l) && req.start < |l.descs| && (c.list.Some? ==> c.list.value == l)
    requires InBounds(Attach(c, l)) && Passes(c, regs, req) && |c.transfers| < 127
    ensures InBounds(Launch(c, l, regs, req, hw).channel)
       <==> !(req.debug && req.buffers == [] && |l.descs| < TWO_16)
  {
    hide Launch, RetSum, S32, U32, Bindable, Counts, IsPow2, IsActive;
    LaunchReturns(c, l, regs, req, hw);
    var r, n := Launch(c, l, regs, req, hw).channel, |l.descs|;
    var t := r.transfers[|c.transfers|];
    forall d | d in t.dirty ensures d < n {
      if d != req.start {
        EndsExist(req.buffers, req.bind, req.start, n, l.page, d);
      }
    }
    forall u | u in c.transfers ensures u in Attach(c, l).transfers && u in r.transfers {
    }
    if req.buffers == [] {
      LaunchWithoutBuffers(c, l, regs, req, hw);
    }
    assert t in r.transfers;
  }

  lemma {:induction false} EndsExist(buffers: seq<Buffer>, bind: bool, next: nat, n: nat, page: nat, d: nat)
    requires page > 0 && n > 0 && d in Ends(buffers, bind, next, n, page)
    ensures d < n
    decreases |buffers|
  {
    hide RetOf, Position;
    var at := Position(next + RetOf(buffers[0], bind, n, page), n);
    if d in Ends(buffers[1..], bind, at, n, page) {
      EndsExist(buffers[1..], bind, at, n, page, d);
    }
  }

  /** A launch refused because it names another list keeps the channel only if that list has as many descriptors. */
  lemma OtherListKeeps(c: Channel, other: List)
    requires Geometric(c) && |other.descs| > 0
    ensures Geometric(LaunchOther(c, other).channel) <==> |other.descs| == |c.list.value.descs|
    ensures LaunchOther(c, other).ret == EINVAL
    ensures LaunchOther(c, other).channel.(mask := c.mask) == c
  {
    hide Chain;
  }

  /** An error can hide: a buffer that cannot be bound followed by a longer one that can makes the launch return a
      positive number of descriptors. */
  lemma HiddenError(c: Channel, l: List, regs: Registers, req: Request, hw: Hw)
    requires Circular(l) && req.start < |l.descs| && (c.list.Some? ==> c.list.value == l)
    requires Passes(c, regs, req) && |c.transfers| < 127 && req.bind && |req.buffers| == 2
    requires Rem(req.buffers[0].offset, l.page) != 0 && Bindable(l, req.start, req.buffers[1])
    ensures var r := Launch(c, l, regs, req, hw);
            && r.ret == Count(req.buffers[1], true, l.page) - 22
            && r.channel.numAvail == (req.start + r.ret) % |l.descs|
            && |r.channel.transfers| == |c.transfers| + 1
  {
    hide Launch, Bindable, Count, Ends, IsActive;
    LaunchReturns(c, l, regs, req, hw);
    BindableAnywhere(l, req.start, req.buffers[1]);
    var n, page, rest := |l.descs|, l.page, req.buffers[1..];
    assert rest[1..] == [];
    assert RetSum(rest, true, n, page) == RetOf(rest[0], true, n, page) + RetSum([], true, n, page);
  }

  /** A single buffer that cannot be bound makes the launch return its error, and yet the transfer is queued and
      num_avail moves back by the error code. */
  lemma UnboundLaunch(c: Channel, l: List, regs: Registers, req: Request, hw: Hw)
    requires Circular(l) && req.start < |l.descs| && (c.list.Some? ==> c.list.value == l)
    requires Passes(c, regs, req) && |c.transfers| < 127 && req.bind && |req.buffers| == 1
    requires !Bindable(l, req.start, req.buffers[0])
    ensures var r := Launch(c, l, regs, req, hw);
            && r.ret in {EINVAL, ERANGE, EFAULT}
            && (r.ret == EINVAL <==> Rem(req.buffers[0].offset, l.page) != 0)
            && r.channel.numAvail == (req.start + r.ret) % |l.descs|
            && |r.channel.transfers| == |c.transfers| + 1
  {
    hide Launch, Bindable, Count, Ends, IsActive;
    LaunchReturns(c, l, regs, req, hw);
    BindableAnywhere(l, req.start, req.buffers[0]);
    assert req.buffers[1..] == [];
  }
}
