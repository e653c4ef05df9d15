/** The buffers of a transfer or a batch, programmed one behind the other: how many descriptors they take, and what
    those are afterwards. */
module Requests {
  import opened Bits
  import opened Cyclic
  import opened Descriptors
  import opened Results
  import opened Binding
  import opened Programming
  import opened FastPath

  // ----- how many -----

  /** The descriptors a buffer takes: the pages of every piece of its table when it is bound, its own pages when
      only the last descriptor is programmed. */
  function Count(b: Buffer, bind: bool, page: nat): nat
    requires page > 0
  {
    if bind then DescCount(Chunks(b.sg, 0, b.offset, b.size), page) else DivUp(b.size, page)
  }

  /** The descriptors of all buffers together. */
  function Counts(buffers: seq<Buffer>, bind: bool, page: nat): nat
    requires page > 0
  {
    if buffers == [] then 0 else Count(buffers[0], bind, page) + Counts(buffers[1..], bind, page)
  }

  /** Buffers that take at least one descriptor each. */
  predicate Taking(buffers: seq<Buffer>, bind: bool, page: nat)
    requires page > 0
  {
    forall b | b in buffers :: Count(b, bind, page) > 0
  }

  // ----- what is written -----

  /** The bytes a whole page's descriptor covers: a stride that is a multiple of the page means the page. */
  function Stride(stride: nat, page: nat): (r: nat)
    requires page > 0
    ensures r > 0
  {
    if Rem(stride, page) == 0 then page else stride
  }

  /** The strides that binding accepts. */
  predicate StrideOk(stride: nat, size: nat, page: nat)
    requires page > 0
  {
    Rem(stride, page) == 0 || (Rem(size, page) == 0 && stride <= page)
  }

  lemma StrideBounds(stride: nat, size: nat, page: nat)
    requires page > 0 && StrideOk(stride, size, page)
    ensures 0 < Stride(stride, page) <= page
    ensures Stride(stride, page) < page ==> Rem(size, page) == 0
  {
  }

  /** The descriptors of one buffer, where the list held `w` before. */
  function One(w: seq<Desc>, b: Buffer, bind: bool, page: nat, stride: nat, hw: Hw, bits: nat): (r: seq<Desc>)
    requires page > 0 && |w| == Count(b, bind, page) > 0
    ensures |r| == |w|
  {
    if bind then SetBits(DescsOf(Chunks(b.sg, 0, b.offset, b.size), page, stride, hw), |w| - 1, bits)
    else w[|w| - 1 := w[|w| - 1].(control := FastControl(b.size, page, bits))]
  }

  /** The descriptors of all buffers; the last one gets `bits`. */
  function All(w: seq<Desc>, buffers: seq<Buffer>, bind: bool, page: nat, stride: nat, hw: Hw, bits: nat)
    : (r: seq<Desc>)
    requires page > 0 && |w| == Counts(buffers, bind, page) && Taking(buffers, bind, page)
    ensures |r| == |w|
    decreases |buffers|
  {
    if buffers == [] then []
    else
      var k := Count(buffers[0], bind, page);
      One(w[..k], buffers[0], bind, page, stride, hw, if |buffers| == 1 then bits else 0)
      + All(w[k..], buffers[1..], bind, page, stride, hw, bits)
  }

  lemma SetInWrite(descs: seq<Desc>, start: nat, ds: seq<Desc>, i: nat, bits: nat)
    requires start < |descs| && i < |ds| <= |descs|
    ensures SetBits(WriteAt(descs, start, ds), Wrap(start + i, |descs|), bits)
         == WriteAt(descs, start, SetBits(ds, i, bits))
  {
    hide Or;
    var n := |descs|;
    var at := Wrap(start + i, n);
    var a, b := SetBits(WriteAt(descs, start, ds), at, bits), WriteAt(descs, start, SetBits(ds, i, bits));
    assert Offset(at, start, n) == i;
    forall j | 0 <= j < n ensures a[j] == b[j] {
    }
  }

  /** Rewriting one descriptor of a window. */
  lemma PutInWindow(descs: seq<Desc>, start: nat, m: nat, i: nat, d: Desc)
    requires start < |descs| && i < m <= |descs|
    ensures descs[Wrap(start + i, |descs|) := d] == WriteAt(descs, start, Window(descs, start, m)[i := d])
  {
    var n := |descs|;
    var a, b := descs[Wrap(start + i, n) := d], WriteAt(descs, start, Window(descs, start, m)[i := d]);
    forall j | 0 <= j < n ensures a[j] == b[j] {
    }
  }

  /** The part of a window behind a write is as it was. */
  lemma WindowBehind(descs: seq<Desc>, start: nat, ds: seq<Desc>, m: nat)
    requires start < |descs| && |ds| <= m <= |descs|
    ensures Window(WriteAt(descs, start, ds), Wrap(start + |ds|, |descs|), m - |ds|) == Window(descs, start, m)[|ds|..]
    ensures Window(descs, start, m)[..|ds|] == Window(descs, start, |ds|)
  {
    var n, k := |descs|, |ds|;
    var a, b := Window(WriteAt(descs, start, ds), Wrap(start + k, n), m - k), Window(descs, start, m)[k..];
    forall i | 0 <= i < m - k ensures a[i] == b[i] {
      var j := Wrap(Wrap(start + k, n) + i, n);
      assert Offset(j, start, n) == k + i;
    }
  }

  /** Writing the first buffer and then the others is writing all of them. */
  lemma AllMore(descs: seq<Desc>, start: nat, buffers: seq<Buffer>, bind: bool, page: nat, stride: nat, hw: Hw,
                bits: nat, first: seq<Desc>)
    requires page > 0 && start < |descs| && buffers != [] && Taking(buffers, bind, page)
    requires Counts(buffers, bind, page) <= |descs|
    requires first == One(Window(descs, start, Count(buffers[0], bind, page)), buffers[0], bind, page, stride, hw,
                          if |buffers| == 1 then bits else 0)
    ensures Taking(buffers[1..], bind, page)
    ensures var rest, next := buffers[1..], Wrap(start + |first|, |descs|);
            var mid := WriteAt(descs, start, first);
            WriteAt(mid, next, All(Window(mid, next, Counts(rest, bind, page)), rest, bind, page, stride, hw, bits))
            == WriteAt(descs, start, All(Window(descs, start, Counts(buffers, bind, page)), buffers, bind, page, stride,
                                         hw, bits))
  {
    hide One, Count, WriteAt, Window, Wrap;
    var m, k := Counts(buffers, bind, page), Count(buffers[0], bind, page);
    assert buffers[0] in buffers;
    WindowBehind(descs, start, first, m);
    WriteAtConcat(descs, start, first,
                  All(Window(descs, start, m)[k..], buffers[1..], bind, page, stride, hw, bits));
  }

  /** A bound buffer replaces its window. */
  lemma BoundWritten(l: List, start: nat, b: Buffer, hw: Hw, domain: Domain, debug: bool, stride: nat)
    requires l.Valid() && b.size > 0 && Bindable(l, start, b) && StrideOk(stride, b.size, l.page)
    ensures var k := Count(b, true, l.page);
            && 0 < k <= |l.descs|
            && Bind(l, start, b, hw, domain, debug, stride)
               == Outcome(k, WriteAt(l.descs, start, One(Window(l.descs, start, k), b, true, l.page,
                                                         Stride(stride, l.page), hw, InterruptBits(hw, domain, debug))))
  {
    hide Chunks, InterruptBits, TableBytes, WriteAt, SetBits, Window, IsPow2, Wrap, BindChunks, Rem, DescCount;
    var k := Count(b, true, l.page);
    BindChunksSucceeds(l, start, b, Stride(stride, l.page), hw);
    LastIsWrap(start, k, |l.descs|);
    SetInWrite(l.descs, start, DescsOf(Chunks(b.sg, 0, b.offset, b.size), l.page, Stride(stride, l.page), hw), k - 1,
               InterruptBits(hw, domain, debug));
  }

  /** On the fast path, only its last descriptor changes. */
  lemma FastWritten(l: List, start: nat, b: Buffer, hw: Hw, domain: Domain, debug: bool, stride: nat)
    requires l.Valid() && start < |l.descs| && 0 < Count(b, false, l.page) <= |l.descs|
    ensures var k := Count(b, false, l.page);
            ProgramLast(l, start, b, hw, domain, debug)
            == Outcome(k, WriteAt(l.descs, start, One(Window(l.descs, start, k), b, false, l.page, stride, hw,
                                                      InterruptBits(hw, domain, debug))))
  {
    hide InterruptBits, WriteAt, Window, Or, DivUp, IsPow2, Wrap;
    var k := Count(b, false, l.page);
    LastIsWrap(start, k, |l.descs|);
    var w := Window(l.descs, start, k);
    WindowAt(l.descs, start, k, k - 1);
    var control := FastControl(b.size, l.page, InterruptBits(hw, domain, debug));
    PutInWindow(l.descs, start, k, k - 1, w[k - 1].(control := control));
  }

  // ----- what it names -----

  predicate Reachable(b: Buffer) {
    forall c | c in Chunks(b.sg, 0, b.offset, b.size) :: Addressable(c)
  }

  lemma SetBitsKeepBytes(ds: seq<Desc>, i: nat, bits: nat)
    requires i < |ds| && bits < 256
    ensures DescsBytes(SetBits(ds, i, bits)) == DescsBytes(ds)
  {
    hide Or, DescBytes, DescsBytes;
    SetBitsBytes(ds[i], bits);
    SameBytes(SetBits(ds, i, bits), ds);
  }

  /** The descriptors of a bound buffer name the strided bytes of its pieces exactly if all of them are aligned. */
  lemma BoundNames(w: seq<Desc>, b: Buffer, page: nat, stride: nat, hw: Hw, bits: nat)
    requires 0 < stride <= page < TWO_16 && PlainHw(hw) && bits < 256 && Reachable(b)
    requires |w| == Count(b, true, page) > 0
    ensures var chunks, named := Chunks(b.sg, 0, b.offset, b.size), DescsBytes(One(w, b, true, page, stride, hw, bits));
            && |named| == |StridedChunks(chunks, page, stride)|
            && (named == StridedChunks(chunks, page, stride) <==> forall c | c in chunks :: Aligned(c, page))
  {
    hide Chunks, DescsBytes, DescsOf, StridedChunks, SetBits, Aligned, Addressable, DescCount;
    ChunksMeaning(Chunks(b.sg, 0, b.offset, b.size), page, stride, hw);
    SetBitsKeepBytes(DescsOf(Chunks(b.sg, 0, b.offset, b.size), page, stride, hw), |w| - 1, bits);
  }

  /** The fields of the descriptors of a table's pieces that do not depend on the piece. */
  lemma {:induction false} DescsFields(chunks: seq<Chunk>, page: nat, stride: nat, hw: Hw, i: nat)
    requires page > 0 && hw.dataId < 64 && i < DescCount(chunks, page)
    ensures var d := DescsOf(chunks, page, stride, hw)[i];
            d.status == 0 && d.addrL % 64 == hw.dataId && d.control % 256 == 2
    decreases |chunks|
  {
    hide Programmed, DescAddr, DescSize, DivUp;
    var c := chunks[0];
    var k := DivUp(c.size, page);
    if i < k {
      ProgrammedFields(DescAddr(c, i, page, hw), DescSize(c.size, i, page, stride), hw.dataId);
    } else {
      DescsFields(chunks[1..], page, stride, hw, i - k);
    }
  }

  /** The fields of a descriptor that binding writes, besides address and size: no status, the data id, and the control
      byte, to which only the last descriptor adds bits. */
  lemma BoundFields(w: seq<Desc>, b: Buffer, page: nat, stride: nat, hw: Hw, bits: nat, i: nat)
    requires page > 0 && PlainHw(hw) && bits < 256 && i < |w| == Count(b, true, page)
    ensures var d := One(w, b, true, page, stride, hw, bits)[i];
            && d.status == 0
            && d.addrL % 64 == hw.dataId
            && d.control % 256 == if i == |w| - 1 then Or(2, bits) else 2
  {
    hide Chunks, DescsOf, Or, DescCount;
    var chunks := Chunks(b.sg, 0, b.offset, b.size);
    DescsFields(chunks, page, stride, hw, i);
    OrKeepsSize(DescsOf(chunks, page, stride, hw)[i].control, bits);
  }

  /** A channel tag above the address bits of a chunk is added to the address of each of its descriptors. */
  lemma TaggedAddress(c: Chunk, i: nat, page: nat, hw: Hw, k: nat, tag: nat)
    requires c.addr < Pow2(k) && hw.channelTag == tag * Pow2(k)
    ensures DescAddr(c, i, page, hw) == hw.channelTag + c.addr + i * page
  {
    hide Or, Pow2;
    OrDisjoint(tag, c.addr, k);
    OrCommutes(c.addr, hw.channelTag);
  }

  lemma {:induction false} OrCommutes(a: nat, b: nat)
    ensures Or(a, b) == Or(b, a)
    decreases a
  {
    OrStep(a, b);
    OrStep(b, a);
    if a > 0 {
      OrCommutes(a / 2, b / 2);
    }
  }

  /** After a successful bind, this holds of every descriptor of the buffer on the list. */
  lemma BindFields(l: List, start: nat, b: Buffer, hw: Hw, domain: Domain, debug: bool, stride: nat, i: nat)
    requires l.Valid() && PlainHw(hw) && b.size > 0 && Bindable(l, start, b) && StrideOk(stride, b.size, l.page)
    requires i < Bind(l, start, b, hw, domain, debug, stride).ret
    ensures var o, bits := Bind(l, start, b, hw, domain, debug, stride), InterruptBits(hw, domain, debug);
            var d := o.descs[Wrap(start + i, |l.descs|)];
            && d.status == 0
            && d.addrL % 64 == hw.dataId
            && d.control % 256 == if i == o.ret - 1 then Or(2, bits) else 2
  {
    hide Bind, One, InterruptBits, Or, Count, PlainHw, StrideOk, Stride, TableBytes, DescCount, Chunks;
    BoundWritten(l, start, b, hw, domain, debug, stride);
    var k := Count(b, true, l.page);
    PlainBits(hw, domain, debug);
    BoundFields(Window(l.descs, start, k), b, l.page, Stride(stride, l.page), hw, InterruptBits(hw, domain, debug), i);
    assert Offset(Wrap(start + i, |l.descs|), start, |l.descs|) == i;
  }

  // ----- when binding fails -----

  /** Binding is refused, with the list left alone, exactly for an offset off a page boundary, a position behind the
      list, or a stride that is no multiple of the page and is longer than it or meets a size that is no multiple
      either. */
  lemma BindRefuses(l: List, start: nat, b: Buffer, hw: Hw, domain: Domain, debug: bool, stride: nat)
    requires l.Valid()
    ensures var page := l.page;
            Bind(l, start, b, hw, domain, debug, stride) == Outcome(EINVAL, l.descs)
            <==> || b.offset % page != 0 || start >= |l.descs|
                 || (stride % page != 0 && (b.size % page != 0 || stride > page))
    ensures Bind(l, start, b, hw, domain, debug, stride).ret == EINVAL ==>
              Bind(l, start, b, hw, domain, debug, stride).descs == l.descs
  {
    hide BindChunks, SetBits, InterruptBits, IsPow2, Rem;
    RemIsMod(b.offset, l.page);
    RemIsMod(stride, l.page);
    RemIsMod(b.size, l.page);
    if start < |l.descs| {
      NotRefused(l, start, b, if Rem(stride, l.page) == 0 then l.page else stride, hw);
    }
  }

  lemma NotRefused(l: List, start: nat, b: Buffer, stride: nat, hw: Hw)
    requires l.Valid() && start < |l.descs|
    ensures BindChunks(l, start, b, stride, hw).ret != EINVAL
  {
    hide Chunks, Fitting, DescsOf, WriteAt;
  }

  /** Fitting is the longest run of pieces from the front that fits. */
  lemma {:induction false} FittingIsLongest(chunks: seq<Chunk>, room: nat, page: nat, j: nat)
    requires page > 0 && j <= |chunks|
    ensures Fitting(chunks, room, page) <= chunks
    ensures DescCount(chunks[..j], page) <= room <==> j <= |Fitting(chunks, room, page)|
    decreases |chunks|
  {
    hide DivUp;
    if j == 0 {
      assert chunks[..0] == [];
    } else {
      assert chunks[..j][1..] == chunks[1..][..j - 1];
    }
    if chunks != [] && DivUp(chunks[0].size, page) <= room {
      FittingIsLongest(chunks[1..], room - DivUp(chunks[0].size, page), page, if j == 0 then 0 else j - 1);
      assert chunks == [chunks[0]] + chunks[1..];
    }
  }

  /** A bind that runs out of room or of table has by then programmed the pieces in front: they name their bytes if they
      are aligned, and no other descriptor has changed. */
  lemma FailedBind(l: List, start: nat, b: Buffer, hw: Hw, domain: Domain, debug: bool)
    requires l.Valid() && PlainHw(hw) && start < |l.descs| && b.size > 0
    requires Bind(l, start, b, hw, domain, debug, 0).ret in {ERANGE, EFAULT}
    ensures var o, chunks := Bind(l, start, b, hw, domain, debug, 0), Chunks(b.sg, 0, b.offset, b.size);
            var done := Fitting(chunks, Room(l, start), l.page);
            && (o.ret == ERANGE <==> |done| < |chunks|)
            && DescCount(done, l.page) <= |l.descs|
            && Window(o.descs, start, DescCount(done, l.page)) == DescsOf(done, l.page, l.page, hw)
            && forall j | 0 <= j < |l.descs| && Offset(j, start, |l.descs|) >= DescCount(done, l.page) ::
                 o.descs[j] == l.descs[j]
  {
    hide Chunks, Fitting, DescsOf, IsPow2, Rem, InterruptBits, SetBits, Window, Total;
    NoRem(l.page);
    var done := Fitting(Chunks(b.sg, 0, b.offset, b.size), Room(l, start), l.page);
    FittingShorter(Chunks(b.sg, 0, b.offset, b.size), Room(l, start), l.page);
    WindowOfWrite(l.descs, start, DescsOf(done, l.page, l.page, hw));
  }

  // ----- pages and pieces -----

  /** Whole pages in front leave no more descriptors than needed, and a cut inside a page one more if the end is not
      inside a page. */
  lemma {:induction false} CutCount(a: nat, b: nat, page: nat)
    requires page > 0
    ensures DivUp(a, page) + DivUp(b, page) >= DivUp(a + b, page)
    ensures Rem(a, page) == 0 ==> DivUp(a, page) + DivUp(b, page) == DivUp(a + b, page)
    ensures Rem(a, page) == 0 ==> Rem(a + b, page) == Rem(b, page)
    ensures Rem(a, page) != 0 && Rem(a + b, page) == 0 ==> DivUp(a, page) + DivUp(b, page) > DivUp(a + b, page)
    decreases a + b
  {
    if a > page || (a == page && b > 0) {
      CutCount(a - page, b, page);
      assert a - page + b == a + b - page;
    } else if b > page || (b == page && a > 0) {
      CutCount(a, b - page, page);
      assert a + (b - page) == a + b - page;
    } else if a > 0 && b > 0 && a + b > page {
      assert Rem(a + b, page) == Rem(a + b - page, page) == a + b - page;
    }
  }

  /** The pieces of a buffer take at least its pages. If it ends on a page boundary, they take no more exactly when all
      of them do. */
  lemma {:induction false} CountAtLeast(chunks: seq<Chunk>, page: nat)
    requires page > 0
    ensures DescCount(chunks, page) >= DivUp(Total(chunks), page)
    ensures Rem(Total(chunks), page) == 0 ==>
              (DescCount(chunks, page) == DivUp(Total(chunks), page)
               <==> forall c | c in chunks :: Rem(c.size, page) == 0)
  {
    if chunks != [] {
      hide Rem, DivUp;
      CutCount(chunks[0].size, Total(chunks[1..]), page);
      CountAtLeast(chunks[1..], page);
      assert chunks == [chunks[0]] + chunks[1..];
    }
  }
}
