/** The descriptors a launch leaves on the list, word by word. */
module LaunchWords {
  import opened Bits
  import opened Cyclic
  import opened Descriptors
  import opened Results
  import opened Binding
  import opened Programming
  import opened FastPath
  import opened Requests
  import opened ChannelModel
  import opened Geometry
  import opened Launches

  lemma OneWritten(l: List, start: nat, b: Buffer, bind: bool, hw: Hw, domain: Domain, debug: bool)
    requires Circular(l) && start < |l.descs| && b.size > 0 && Programmable(b, bind, |l.descs|, l.page)
    requires 0 < Count(b, bind, l.page) <= |l.descs|
    ensures Program(l, start, b, bind, hw, domain, debug, 0)
         == Outcome(Count(b, bind, l.page),
                    WriteAt(l.descs, start, One(Window(l.descs, start, Count(b, bind, l.page)), b, bind, l.page, l.page,
                                                hw, InterruptBits(hw, domain, debug))))
  {
    hide InterruptBits, Bind, ProgramLast, WriteAt, Window, One, Count, Bindable, Programmable;
    if bind {
      BindableAnywhere(l, start, b);
      BoundWritten(l, start, b, hw, domain, debug, 0);
    } else {
      FastWritten(l, start, b, hw, domain, debug, l.page);
    }
  }

  /** The loop over the buffers writes All from where it starts. */
  lemma {:induction false} AllWritten(l: List, s: Launching, buffers: seq<Buffer>, req: Request, hw: Hw)
    requires Circular(l) && |s.descs| == |l.descs| && s.next < |l.descs|
    requires forall b | b in buffers :: b.size > 0 && Programmable(b, req.bind, |l.descs|, l.page)
    requires Taking(buffers, req.bind, l.page) && Counts(buffers, req.bind, l.page) <= |l.descs|
    ensures LaunchAll(l, s, buffers, req, hw).descs
         == WriteAt(s.descs, s.next, All(Window(s.descs, s.next, Counts(buffers, req.bind, l.page)), buffers, req.bind,
                                         l.page, l.page, hw, InterruptBits(hw, req.last, req.debug)))
    decreases |buffers|
  {
    hide LaunchOne, InterruptBits, One, Count, Programmable, WriteAt, Window, Wrap, IsPow2, All;
    if buffers == [] {
      WriteAtNone(s.descs, s.next);
    } else {
      var b, final, n := buffers[0], |buffers| == 1, |l.descs|;
      var k, m := Count(b, req.bind, l.page), Counts(buffers, req.bind, l.page);
      assert b in buffers;
      var bits := InterruptBits(hw, req.last, req.debug);
      var first := One(Window(s.descs, s.next, k), b, req.bind, l.page, l.page, hw, if final then bits else 0);
      var s' := LaunchOne(l, s, b, final, req, hw);
      OneRound(l, s, b, final, req, hw);
      AllWritten(l, s', buffers[1..], req, hw);
      AllMore(s.descs, s.next, buffers, req.bind, l.page, l.page, hw, bits, first);
    }
  }

  lemma OneRound(l: List, s: Launching, b: Buffer, final: bool, req: Request, hw: Hw)
    requires Circular(l) && |s.descs| == |l.descs| && s.next < |l.descs|
    requires b.size > 0 && Programmable(b, req.bind, |l.descs|, l.page) && 0 < Count(b, req.bind, l.page) <= |l.descs|
    ensures var k := Count(b, req.bind, l.page);
            var r := LaunchOne(l, s, b, final, req, hw);
            && r.next == Wrap(s.next + k, |l.descs|)
            && r.descs == WriteAt(s.descs, s.next, One(Window(s.descs, s.next, k), b, req.bind, l.page, l.page, hw,
                                                       if final then InterruptBits(hw, req.last, req.debug) else 0))
  {
    hide Program, InterruptBits, One, Count, WriteAt, Window, IsPow2;
    var domain := if final then req.last else NO_DOMAIN;
    StillCircular(l, s.descs);
    OneWritten(l.(descs := s.descs), s.next, b, req.bind, hw, domain, req.debug);
    NoBits(hw, req.debug);
    WrapIsMod(s.next + Count(b, req.bind, l.page), |l.descs|);
  }

  /** The descriptors of a request as the launch leaves them: All, with the bits of the first domain in front. */
  function Written(l: List, req: Request, hw: Hw): (r: seq<Desc>)
    requires l.page > 0 && req.start < |l.descs| && req.buffers != [] && Taking(req.buffers, req.bind, l.page)
    requires 0 < Counts(req.buffers, req.bind, l.page) <= |l.descs|
    ensures |r| == Counts(req.buffers, req.bind, l.page)
  {
    SetBits(All(Window(l.descs, req.start, Counts(req.buffers, req.bind, l.page)), req.buffers, req.bind, l.page,
                l.page, hw, InterruptBits(hw, req.last, req.debug)),
            0, InterruptBits(hw, req.first, req.debug))
  }

  /** What Written needs of an acceptable request that fits. */
  lemma CanBeWritten(c: Channel, l: List, regs: Registers, req: Request)
    requires Circular(l) && Acceptable(c, l, regs, req)
    ensures Taking(req.buffers, req.bind, l.page) && Counts(req.buffers, req.bind, l.page) > 0 && req.start < |l.descs|
  {
    hide Count, Programmable, IsPow2, Passes;
    forall b | b in req.buffers ensures Count(b, req.bind, l.page) > 0 {
      CountPositive(b, req.bind, |l.descs|, l.page);
    }
    CountsPositive(req.buffers, req.bind, |l.descs|, l.page);
  }

  /** A launch that passes its checks writes these descriptors from the starting one on and no others, whether or not
      the ring then has a slot for the transfer. */
  lemma LaunchWrites(c: Channel, l: List, regs: Registers, req: Request, hw: Hw)
    requires Circular(l) && (c.list.Some? ==> c.list.value == l)
    requires Acceptable(c, l, regs, req) && Counts(req.buffers, req.bind, l.page) <= |l.descs|
    ensures Taking(req.buffers, req.bind, l.page) && Counts(req.buffers, req.bind, l.page) > 0 && req.start < |l.descs|
    ensures Launch(c, l, regs, req, hw).channel.list
       == Some(l.(descs := WriteAt(l.descs, req.start, Written(l, req, hw))))
    ensures |c.transfers| >= 127 ==>
              && Launch(c, l, regs, req, hw).ret == EFAULT
              && Launch(c, l, regs, req, hw).channel.(list := Some(l)) == Attach(c, l)
  {
    hide LaunchAll, InterruptBits, WriteAt, Window, All, Counts, Programmable, IsActive, SetBits, IsPow2;
    CanBeWritten(c, l, regs, req);
    AllWritten(l, LaunchStart(l, req), req.buffers, req, hw);
    var m := Counts(req.buffers, req.bind, l.page);
    var all := All(Window(l.descs, req.start, m), req.buffers, req.bind, l.page, l.page, hw,
                   InterruptBits(hw, req.last, req.debug));
    SetInWrite(l.descs, req.start, all, 0, InterruptBits(hw, req.first, req.debug));
    WrapZero(req.start, |l.descs|);
  }

  // ----- which descriptors request interrupts -----

  /** The control bytes of bound buffers: only the last descriptor of all carries bits. */
  lemma {:induction false} AllControlBytes(w: seq<Desc>, buffers: seq<Buffer>, page: nat, hw: Hw, bits: nat, i: nat)
    requires page > 0 && PlainHw(hw) && bits < 256
    requires |w| == Counts(buffers, true, page) && Taking(buffers, true, page) && i < |w|
    ensures All(w, buffers, true, page, page, hw, bits)[i].control % 256 == if i == |w| - 1 then Or(2, bits) else 2
    decreases |buffers|
  {
    hide Count, One, PlainHw, Or;
    var k := Count(buffers[0], true, page);
    assert buffers[0] in buffers;
    OrZero(2);
    if |buffers| == 1 {
      assert Counts(buffers[1..], true, page) == 0;
    } else {
      assert buffers[1] in buffers;
    }
    if i < k {
      BoundFields(w[..k], buffers[0], page, page, hw, if |buffers| == 1 then bits else 0, i);
    } else {
      AllControlBytes(w[k..], buffers[1..], page, hw, bits, i - k);
    }
  }

  /** A bound launch asks for interrupts exactly where it was told to: the bits of the first domain at its first
      descriptor, those of the last domain at its last one, and none in between. */
  lemma LaunchInterrupts(c: Channel, l: List, regs: Registers, req: Request, hw: Hw, i: nat)
    requires Circular(l) && (c.list.Some? ==> c.list.value == l) && Acceptable(c, l, regs, req) && req.bind
    requires i < Counts(req.buffers, true, l.page) <= |l.descs| && PlainHw(hw)
    ensures var r := Launch(c, l, regs, req, hw).channel;
            var first, last := InterruptBits(hw, req.first, req.debug), InterruptBits(hw, req.last, req.debug);
            && r.list.Some? && |r.list.value.descs| == |l.descs|
            && r.list.value.descs[Wrap(req.start + i, |l.descs|)].control % 256
               == Or(if i == Counts(req.buffers, true, l.page) - 1 then Or(2, last) else 2, if i == 0 then first else 0)
  {
    hide Launch, Counts, Programmable, IsPow2, Taking, Passes, All, InterruptBits, PlainHw, Or;
    LaunchWrites(c, l, regs, req, hw);
    var m, n := Counts(req.buffers, true, l.page), |l.descs|;
    var first, last := InterruptBits(hw, req.first, req.debug), InterruptBits(hw, req.last, req.debug);
    PlainBits(hw, req.first, req.debug);
    PlainBits(hw, req.last, req.debug);
    var all := All(Window(l.descs, req.start, m), req.buffers, true, l.page, l.page, hw, last);
    AllControlBytes(Window(l.descs, req.start, m), req.buffers, l.page, hw, last, i);
    OrZero(all[i].control % 256);
    OrKeepsSize(all[0].control, first);
    OffsetOfWrap(req.start, i, n);
  }

  // ----- which control words are the default one -----

  /** The i-th descriptor of a request is the last one of a buffer. */
  predicate IsEnd(i: nat, buffers: seq<Buffer>, bind: bool, page: nat)
    requires page > 0
    decreases |buffers|
  {
    buffers != [] &&
    var k := Count(buffers[0], bind, page);
    if i < k then i == k - 1 else IsEnd(i - k, buffers[1..], bind, page)
  }

  /** The positions a transfer lists for its buffers are those of its ends. */
  lemma {:induction false} EndsAreEnds(buffers: seq<Buffer>, bind: bool, start: nat, a: nat, n: nat, page: nat, i: nat)
    requires 0 < page < TWO_16 && start < n && a + Counts(buffers, bind, page) <= n && i < Counts(buffers, bind, page)
    requires forall b | b in buffers :: b.size > 0 && Programmable(b, bind, n, page)
    ensures Wrap(start + a + i, n) in Ends(buffers, bind, Wrap(start + a, n), n, page)
       <==> IsEnd(i, buffers, bind, page)
    decreases |buffers|
  {
    hide Count, Programmable, Wrap, Ends;
    var k := Count(buffers[0], bind, page);
    EndsSplit(buffers, bind, start, a, n, page);
    var d := Wrap(start + a + i, n);
    OffsetOfWrap(start, a + i, n);
    OffsetOfWrap(start, a + k - 1, n);
    if i >= k {
      EndsAreEnds(buffers[1..], bind, start, a + k, n, page, i - k);
    } else if d in Ends(buffers[1..], bind, Wrap(start + (a + k), n), n, page) {
      EndsInside(buffers[1..], bind, start, a + k, n, page, d);
    }
  }

  /** The control words in front of the last one that are from `from` on are the default one. */
  predicate DefaultFrom(ds: seq<Desc>, from: nat, page: nat) {
    forall i | from <= i < |ds| - 1 :: ds[i].control == ControlWord(page)
  }

  /** The pieces of a buffer's table end on page boundaries, the last one excepted. */
  predicate Tame(b: Buffer, page: nat)
    requires page > 0
  {
    PagedButLast(Chunks(b.sg, 0, b.offset, b.size), page)
  }

  /** The same, but the first piece may also be shorter than a page: its one descriptor is the first of all. */
  predicate TameFirst(b: Buffer, page: nat)
    requires page > 0
  {
    var chunks := Chunks(b.sg, 0, b.offset, b.size);
    PagedButLast(if chunks != [] && chunks[0].size < page then chunks[1..] else chunks, page)
  }

  lemma FirstChunk(chunks: seq<Chunk>, page: nat, hw: Hw)
    requires 0 < page < TWO_16 && chunks != [] && forall c | c in chunks :: c.size > 0
    ensures DefaultFrom(DescsOf(chunks, page, page, hw), 1, page)
       <==> PagedButLast(if chunks[0].size < page then chunks[1..] else chunks, page)
  {
    hide ChunkDescs, ControlWord, Rem, PagedButLast;
    var c, rest := chunks[0], chunks[1..];
    var ds := DescsOf(chunks, page, page, hw);
    assert c in chunks;
    DivUpBounds(c.size, page);
    if c.size < page {
      if rest == [] {
        NoneOrOne(rest, page);
      } else {
        ResidueOnlyAtTheEnd(rest, page, hw);
        var more := DescsOf(rest, page, page, hw);
        assert ds == ChunkDescs(c, page, page, hw) + more;
        ShiftByOne(ds, more, page);
      }
    } else {
      ResidueOnlyAtTheEnd(chunks, page, hw);
      ChunkControls(c, page, hw, 0);
      assert ds[0] == ChunkDescs(c, page, page, hw)[0];
      if DivUp(c.size, page) == 1 {
        ExactlyOnePage(c.size, page);
      }
    }
  }

  lemma ExactlyOnePage(size: nat, page: nat)
    requires page > 0 && size >= page && DivUp(size, page) == 1
    ensures LastSize(size, page) == page
  {
    if size > page {
      DivUpBounds(size - page, page);
    }
  }

  lemma NoneOrOne(chunks: seq<Chunk>, page: nat)
    requires page > 0 && |chunks| <= 1
    ensures PagedButLast(chunks, page)
  {
  }

  lemma ShiftByOne(ds: seq<Desc>, more: seq<Desc>, page: nat)
    requires |ds| == 1 + |more| && ds[1..] == more
    ensures DefaultFrom(ds, 1, page) <==> DefaultButLast(more, page)
  {
    hide ControlWord;
    if DefaultFrom(ds, 1, page) {
      forall i | 0 <= i < |more| - 1 ensures more[i].control == ControlWord(page) {
        assert more[i] == ds[i + 1];
      }
    } else {
      var i :| 1 <= i < |ds| - 1 && ds[i].control != ControlWord(page);
      assert more[i - 1] == ds[i];
    }
  }

  /** Inside one buffer. */
  lemma OneInside(w: seq<Desc>, b: Buffer, bind: bool, n: nat, page: nat, hw: Hw, bits: nat)
    requires 0 < page < TWO_16 && b.size > 0 && Programmable(b, bind, n, page) && |w| == Count(b, bind, page) > 0
    ensures var r := One(w, b, bind, page, page, hw, bits);
            && (bind ==> (DefaultFrom(r, 0, page) <==> Tame(b, page)))
            && (bind ==> (DefaultFrom(r, 1, page) <==> TameFirst(b, page)))
            && (!bind ==> forall i | 0 <= i < |w| - 1 :: r[i] == w[i])
  {
    hide Chunks, DescsOf, ControlWord, TableBytes, PagedButLast, DescCount, Or, FastControl;
    if bind {
      var chunks := Chunks(b.sg, 0, b.offset, b.size);
      BufferControls(b, page, hw);
      ChunksNonEmpty(b.sg, 0, b.offset, b.size);
      var ds := DescsOf(chunks, page, page, hw);
      var r := One(w, b, bind, page, page, hw, bits);
      assert forall i | 0 <= i < |ds| - 1 :: r[i] == ds[i];
      if chunks == [] {
        NoDescs(page, hw);
      } else {
        FirstChunk(chunks, page, hw);
      }
    }
  }

  lemma NoDescs(page: nat, hw: Hw)
    requires page > 0
    ensures DescsOf([], page, page, hw) == []
  {
  }

  /** The control words from `from` on that do not end a buffer are the default one. */
  predicate InsideDefault(ds: seq<Desc>, from: nat, buffers: seq<Buffer>, bind: bool, page: nat)
    requires page > 0
  {
    forall i | from <= i < |ds| && !IsEnd(i, buffers, bind, page) :: ds[i].control == ControlWord(page)
  }

  lemma InsideSplit(first: seq<Desc>, rest: seq<Desc>, from: nat, buffers: seq<Buffer>, bind: bool, page: nat)
    requires page > 0 && buffers != [] && |first| == Count(buffers[0], bind, page) > 0 && from <= 1
    ensures InsideDefault(first + rest, from, buffers, bind, page)
       <==> DefaultFrom(first, from, page) && InsideDefault(rest, 0, buffers[1..], bind, page)
  {
    hide Count, ControlWord;
    var ds, k := first + rest, |first|;
    if InsideDefault(ds, from, buffers, bind, page) {
      forall i | from <= i < k - 1 ensures first[i].control == ControlWord(page) {
        assert ds[i] == first[i] && !IsEnd(i, buffers, bind, page);
      }
      forall i | 0 <= i < |rest| && !IsEnd(i, buffers[1..], bind, page) ensures rest[i].control == ControlWord(page) {
        assert ds[k + i] == rest[i] && !IsEnd(k + i, buffers, bind, page);
      }
    }
  }

  lemma NoneInside(from: nat, bind: bool, page: nat)
    requires page > 0
    ensures InsideDefault([], from, [], bind, page)
  {
  }

  /** Bound buffers give only their last descriptors a control word of their own exactly when all are tame. */
  lemma {:induction false} BoundInside(w: seq<Desc>, buffers: seq<Buffer>, n: nat, page: nat, hw: Hw, bits: nat)
    requires 0 < page < TWO_16 && |w| == Counts(buffers, true, page) && Taking(buffers, true, page)
    requires forall b | b in buffers :: b.size > 0 && Programmable(b, true, n, page)
    ensures InsideDefault(All(w, buffers, true, page, page, hw, bits), 0, buffers, true, page)
       <==> forall b | b in buffers :: Tame(b, page)
    decreases |buffers|
  {
    hide Count, Programmable, One, DefaultFrom, InsideDefault, Tame, TameFirst;
    if buffers == [] {
      NoneInside(0, true, page);
    } else {
      var b, k := buffers[0], Count(buffers[0], true, page);
      assert b in buffers;
      var final := if |buffers| == 1 then bits else 0;
      OneInside(w[..k], b, true, n, page, hw, final);
      BoundInside(w[k..], buffers[1..], n, page, hw, bits);
      InsideSplit(One(w[..k], b, true, page, page, hw, final), All(w[k..], buffers[1..], true, page, page, hw, bits), 0,
                  buffers, true, page);
      assert buffers == [b] + buffers[1..];
    }
  }

  /** Not counting the very first descriptor, the first buffer may begin with a piece shorter than a page. */
  predicate Tidy(buffers: seq<Buffer>, bind: bool, page: nat)
    requires page > 0
  {
    bind && buffers != [] ==> TameFirst(buffers[0], page) && forall b | b in buffers[1..] :: Tame(b, page)
  }

  lemma BoundInsideFirst(w: seq<Desc>, buffers: seq<Buffer>, n: nat, page: nat, hw: Hw, bits: nat)
    requires 0 < page < TWO_16 && |w| == Counts(buffers, true, page) && Taking(buffers, true, page) && buffers != []
    requires forall b | b in buffers :: b.size > 0 && Programmable(b, true, n, page)
    ensures InsideDefault(All(w, buffers, true, page, page, hw, bits), 1, buffers, true, page)
       <==> Tidy(buffers, true, page)
  {
    hide Count, Programmable, One, DefaultFrom, InsideDefault, Tame, TameFirst;
    var b, k := buffers[0], Count(buffers[0], true, page);
    assert b in buffers;
    var final := if |buffers| == 1 then bits else 0;
    OneInside(w[..k], b, true, n, page, hw, final);
    BoundInside(w[k..], buffers[1..], n, page, hw, bits);
    InsideSplit(One(w[..k], b, true, page, page, hw, final), All(w[k..], buffers[1..], true, page, page, hw, bits), 1,
                buffers, true, page);
  }

  /** The fast path leaves everything but the last descriptors of the buffers. */
  lemma {:induction false} FastInside(w: seq<Desc>, buffers: seq<Buffer>, page: nat, hw: Hw, bits: nat, i: nat)
    requires 0 < page < TWO_16 && |w| == Counts(buffers, false, page) && Taking(buffers, false, page)
    requires i < |w| && !IsEnd(i, buffers, false, page)
    ensures All(w, buffers, false, page, page, hw, bits)[i] == w[i]
    decreases |buffers|
  {
    hide Count, FastControl;
    var k := Count(buffers[0], false, page);
    if i >= k {
      FastInside(w[k..], buffers[1..], page, hw, bits, i - k);
    }
  }

  // ----- when no control word is left unusual -----

  predicate AllDefault(ds: seq<Desc>, page: nat) {
    forall i | 0 <= i < |ds| :: ds[i].control == ControlWord(page)
  }

  /** What interrupt bits look like: none at all, or with the request bit among them. */
  predicate Requesting(bits: nat) {
    bits < 256 && (bits == 0 || bits / 4 % 2 == 1)
  }

  lemma OrHalf(a: nat, b: nat)
    ensures Or(a, b) / 2 == Or(a / 2, b / 2)
    ensures Or(a, b) % 2 == if a % 2 == 1 || b % 2 == 1 then 1 else 0
  {
    hide Or;
    OrStep(a, b);
  }

  lemma OrKeepsBit(a: nat, b: nat)
    requires b / 4 % 2 == 1
    ensures Or(a, b) / 4 % 2 == 1
  {
    hide Or;
    OrHalf(a, b);
    OrHalf(a / 2, b / 2);
    OrHalf(a / 2 / 2, b / 2 / 2);
    assert b / 2 / 2 == b / 4 && Or(a, b) / 4 == Or(a, b) / 2 / 2;
  }

  lemma OrKeepsFirstBit(a: nat, b: nat)
    requires a / 4 % 2 == 1
    ensures Or(a, b) / 4 % 2 == 1
  {
    hide Or;
    OrHalf(a, b);
    OrHalf(a / 2, b / 2);
    OrHalf(a / 2 / 2, b / 2 / 2);
    assert a / 2 / 2 == a / 4 && Or(a, b) / 4 == Or(a, b) / 2 / 2;
  }

  lemma BitsRequest(hw: Hw, domain: Domain, debug: bool)
    requires PlainHw(hw)
    ensures Requesting(InterruptBits(hw, domain, debug))
  {
    hide Or;
    InterruptBitsSmall(hw, domain, debug);
    var bits := Or(if domain.device then hw.deviceBits else 0, if domain.host then hw.hostBits else 0);
    OrKeepsBit(bits, 12);
    OrKeepsFirstBit(Or(bits, 12), 3);
  }

  /** Setting bits gives a default control word only if there are none and it was one before. */
  lemma BitsShow(control: nat, bits: nat, page: nat)
    requires Requesting(bits) && page < TWO_16
    ensures Or(control, bits) == ControlWord(page) <==> bits == 0 && control == ControlWord(page)
  {
    hide Or;
    OrZero(control);
    if bits != 0 {
      OrKeepsBit(control, bits);
      assert (page * 256 + 2) / 4 % 2 == 0;
    }
  }

  lemma OneDefault(w: seq<Desc>, b: Buffer, bind: bool, n: nat, page: nat, hw: Hw, bits: nat)
    requires 0 < page < TWO_16 && b.size > 0 && Programmable(b, bind, n, page) && |w| == Count(b, bind, page) > 0
    requires Requesting(bits)
    ensures AllDefault(One(w, b, bind, page, page, hw, bits), page)
       <==> bits == 0 && Rem(b.size, page) == 0 && if bind then Tame(b, page) else DefaultFrom(w, 0, page)
  {
    hide Chunks, DescsOf, ControlWord, TableBytes, PagedButLast, DescCount, Or, FastControl, Programmable, LastSize,
      Rem, Requesting;
    var r := One(w, b, bind, page, page, hw, bits);
    OneInside(w, b, bind, n, page, hw, bits);
    LastSizeDefault(b.size, page);
    BitsShow(ControlWord(LastSize(b.size, page)), bits, page);
    assert AllDefault(r, page) <==> DefaultFrom(r, 0, page) && r[|r| - 1].control == ControlWord(page);
    if bind {
      BoundHeld(b, n, page);
      BufferControls(b, page, hw);
    } else {
      BitsSmall(bits);
      FastControlIs(b.size, page, bits);
      assert DefaultFrom(r, 0, page) <==> DefaultFrom(w, 0, page);
    }
  }

  lemma BitsSmall(bits: nat)
    requires Requesting(bits)
    ensures bits < 256
  {
  }

  lemma BoundHeld(b: Buffer, n: nat, page: nat)
    requires page > 0 && b.size > 0 && Programmable(b, true, n, page)
    ensures b.offset + b.size <= |TableBytes(b.sg)|
  {
  }

  /** Buffers of whole pages, tame if they are bound. */
  predicate WholePages(buffers: seq<Buffer>, bind: bool, page: nat)
    requires page > 0
  {
    forall b | b in buffers :: Rem(b.size, page) == 0 && (bind ==> Tame(b, page))
  }

  lemma DefaultConcat(a: seq<Desc>, b: seq<Desc>, page: nat)
    ensures AllDefault(a + b, page) <==> AllDefault(a, page) && AllDefault(b, page)
  {
    hide ControlWord;
    if AllDefault(a + b, page) {
      forall i | 0 <= i < |a| ensures a[i].control == ControlWord(page) {
        assert a[i] == (a + b)[i];
      }
      forall i | 0 <= i < |b| ensures b[i].control == ControlWord(page) {
        assert b[i] == (a + b)[|a| + i];
      }
    }
  }

  lemma {:induction false} AllDefaultIff(w: seq<Desc>, buffers: seq<Buffer>, bind: bool, n: nat, page: nat, hw: Hw,
                                         bits: nat)
    requires 0 < page < TWO_16 && |w| == Counts(buffers, bind, page) && Taking(buffers, bind, page)
    requires forall b | b in buffers :: b.size > 0 && Programmable(b, bind, n, page)
    requires Requesting(bits)
    ensures AllDefault(All(w, buffers, bind, page, page, hw, bits), page)
       <==> (buffers == [] || bits == 0) && WholePages(buffers, bind, page)
            && (bind || InsideDefault(w, 0, buffers, bind, page))
    decreases |buffers|
  {
    hide Count, Programmable, One, DefaultFrom, InsideDefault, Tame, AllDefault, Rem;
    if buffers == [] {
      NoneInside(0, bind, page);
      EmptyDefault(page);
    } else {
      var b, k := buffers[0], Count(buffers[0], bind, page);
      assert b in buffers;
      var final := if |buffers| == 1 then bits else 0;
      OneDefault(w[..k], b, bind, n, page, hw, final);
      AllDefaultIff(w[k..], buffers[1..], bind, n, page, hw, bits);
      DefaultConcat(One(w[..k], b, bind, page, page, hw, final), All(w[k..], buffers[1..], bind, page, page, hw, bits),
                    page);
      InsideSplit(w[..k], w[k..], 0, buffers, bind, page);
      assert w == w[..k] + w[k..];
      assert buffers == [b] + buffers[1..];
    }
  }

  lemma EmptyDefault(page: nat)
    ensures AllDefault([], page)
  {
  }

  /** With whole pages and no bits, the fast path writes the default control word to the last descriptors. */
  lemma {:induction false} FastEnds(w: seq<Desc>, buffers: seq<Buffer>, page: nat, hw: Hw, i: nat)
    requires 0 < page < TWO_16 && |w| == Counts(buffers, false, page) && Taking(buffers, false, page)
    requires WholePages(buffers, false, page) && (forall b | b in buffers :: b.size > 0)
    requires i < |w| && IsEnd(i, buffers, false, page)
    ensures All(w, buffers, false, page, page, hw, 0)[i].control == ControlWord(page)
    decreases |buffers|
  {
    hide Count, FastControl, ControlWord, LastSize, Rem, Or, Tame;
    var b, k := buffers[0], Count(buffers[0], false, page);
    assert b in buffers;
    if i >= k {
      FastEnds(w[k..], buffers[1..], page, hw, i - k);
    } else {
      FastControlIs(b.size, page, 0);
      OrZero(ControlWord(LastSize(b.size, page)));
      LastSizeDefault(b.size, page);
    }
  }
}
