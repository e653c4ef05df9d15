/** Programming a batch: equal transfers laid out one behind the other, in the buffer and in the list. */
module Batches {
  import opened Bits
  import opened Cyclic
  import opened Descriptors
  import opened Binding
  import opened Programming
  import opened FastPath
  import opened Requests

  // ----- the transfers of a batch -----

  /** The transfer behind b, in the u32 arithmetic of the code, when b took a descriptor for each of its pages. */
  function Next(b: Buffer, page: nat): Buffer
    requires page > 0
  {
    b.(offset := U32(b.offset + DivUp(b.size, page) * page))
  }

  function Members(b: Buffer, batch: nat, page: nat): (r: seq<Buffer>)
    requires page > 0
    ensures |r| == batch
    decreases batch
  {
    if batch == 0 then [] else [b] + Members(Next(b, page), batch - 1, page)
  }

  /** The k-th transfer as documented: each one starts on the next page boundary behind the one before it. */
  function Documented(b: Buffer, k: nat, page: nat): Buffer
    requires page > 0
  {
    b.(offset := b.offset + k * (DivUp(b.size, page) * page))
  }

  /** A batch whose transfers are all aligned and in the table, which a u32 can address. */
  predicate InTable(b: Buffer, batch: nat, page: nat)
    requires page > 0
  {
    && b.size > 0 && Rem(b.offset, page) == 0
    && |TableBytes(b.sg)| + page <= TWO_32
    && (batch == 0 || Documented(b, batch - 1, page).offset + b.size <= |TableBytes(b.sg)|)
  }

  lemma InTableStep(b: Buffer, batch: nat, page: nat)
    requires page > 0 && batch > 0 && InTable(b, batch, page)
    ensures b.offset + b.size <= |TableBytes(b.sg)|
    ensures batch > 1 ==> Next(b, page) == Documented(b, 1, page) && InTable(Next(b, page), batch - 1, page)
  {
    hide TableBytes, Rem, DivUp;
    var mp := DivUp(b.size, page) * page;
    MulMonotone(0, batch - 1, mp);
    DivUpBounds(b.size, page);
    if batch > 1 {
      MulNext(batch - 2, mp);
      MulMonotone(0, batch - 2, mp);
      DivUpAdd(DivUp(b.size, page), b.offset, page);
    }
  }

  lemma {:induction false} MemberIs(b: Buffer, batch: nat, page: nat, k: nat)
    requires page > 0 && k < batch && InTable(b, batch, page)
    ensures Members(b, batch, page)[k] == Documented(b, k, page)
    decreases k
  {
    hide TableBytes, InTable, DivUp;
    InTableStep(b, batch, page);
    if k > 0 {
      MemberIs(Next(b, page), batch - 1, page, k - 1);
      MulNext(k - 1, DivUp(b.size, page) * page);
    }
  }

  /** What the members of such a batch have in common. */
  lemma {:induction false} MemberReady(b: Buffer, batch: nat, page: nat, t: Buffer)
    requires page > 0 && InTable(b, batch, page) && t in Members(b, batch, page)
    ensures t.size == b.size && t.sg == b.sg && Rem(t.offset, page) == 0
    ensures t.offset + t.size <= |TableBytes(t.sg)|
    decreases batch
  {
    hide TableBytes;
    InTableStep(b, batch, page);
    if t != b {
      MemberReady(Next(b, page), batch - 1, page, t);
    }
  }

  /** Every transfer of the batch takes a descriptor for each of its pages, and no more. */
  predicate EachTakes(ts: seq<Buffer>, bind: bool, page: nat, m: nat)
    requires page > 0
  {
    forall t | t in ts :: Count(t, bind, page) == m
  }

  lemma {:induction false} CountsEqual(ts: seq<Buffer>, bind: bool, page: nat, m: nat)
    requires page > 0 && EachTakes(ts, bind, page, m)
    ensures Counts(ts, bind, page) == |ts| * m
    ensures m > 0 ==> Taking(ts, bind, page)
  {
    hide Count;
    if ts != [] {
      assert ts[0] in ts;
      CountsEqual(ts[1..], bind, page, m);
      MulNext(|ts| - 1, m);
    }
  }

  // ----- how many descriptors -----

  /** Binding a buffer fails, or takes at least as many descriptors as it has pages. */
  lemma BindAtLeast(l: List, start: nat, b: Buffer, hw: Hw, domain: Domain, debug: bool, stride: nat)
    requires l.Valid() && b.size > 0
    ensures var ret := Bind(l, start, b, hw, domain, debug, stride).ret;
            ret < 0 || ret == Count(b, true, l.page) >= DivUp(b.size, l.page)
  {
    hide TableBytes, Chunks, BindChunks, InterruptBits, SetBits, DescCount, ChunkBytes, IsPow2, DivUp;
    if Rem(b.offset, l.page) == 0 && start < |l.descs| {
      BindChunksSucceeds(l, start, b, if Rem(stride, l.page) == 0 then l.page else stride, hw);
      ChunksAreTheBytes(b.sg, 0, b.offset, b.size);
      CountAtLeast(Chunks(b.sg, 0, b.offset, b.size), l.page);
    }
  }

  lemma {:induction false} BatchAtLeast(l: List, start: nat, b: Buffer, batch: nat, done: nat, hw: Hw, domain: Domain,
                                        debug: bool, stride: nat)
    requires l.Valid() && b.size > 0
    ensures var ret := Batch(l, start, b, batch, done, true, hw, domain, debug, stride).ret;
            ret < 0 || ret >= done + batch * DivUp(b.size, l.page)
    decreases batch
  {
    hide Bind, Batch, DivUp, Count, List.Valid;
    if batch == 0 {
      BatchEnd(l, start, b, done, true, hw, domain, debug, stride);
    } else {
      var o := Bind(l, start, b, hw, if batch == 1 then domain else NO_DOMAIN, debug, stride);
      SameShape(l, o.descs);
      PageOf(l);
      BindAtLeast(l, start, b, hw, if batch == 1 then domain else NO_DOMAIN, debug, stride);
      BatchStep(l, start, b, batch, done, true, hw, domain, debug, stride, o);
      MulNext(batch - 1, DivUp(b.size, l.page));
      if o.ret >= 0 {
        BatchAtLeast(l.(descs := o.descs), NextStart(l, start, o.ret), b.(offset := U32(b.offset + o.ret * l.page)),
                     batch - 1, done + o.ret, hw, domain, debug, stride);
      }
    }
  }

  lemma PageOf(l: List)
    requires l.Valid()
    ensures l.page > 0 && |l.descs| > 0
  {
  }

  /** Where the next transfer goes. */
  function NextStart(l: List, start: nat, ret: nat): nat
    requires |l.descs| > 0
  {
    if l.circular then U32(start + ret) % |l.descs| else U32(start + ret)
  }

  /** A batch that takes no more than its pages does so transfer by transfer. */
  lemma {:induction false} TotalOnlyIf(l: List, start: nat, b: Buffer, batch: nat, done: nat, hw: Hw, domain: Domain,
                                       debug: bool, stride: nat)
    requires l.Valid() && b.size > 0
    requires Batch(l, start, b, batch, done, true, hw, domain, debug, stride).ret
       == done + batch * DivUp(b.size, l.page)
    ensures EachTakes(Members(b, batch, l.page), true, l.page, DivUp(b.size, l.page))
    decreases batch
  {
    hide Bind, Batch, DivUp, Count, List.Valid;
    PageOf(l);
    if batch > 0 {
      var m := DivUp(b.size, l.page);
      var o := Bind(l, start, b, hw, if batch == 1 then domain else NO_DOMAIN, debug, stride);
      SameShape(l, o.descs);
      MulMonotone(0, batch, m);
      MulNext(batch - 1, m);
      BindAtLeast(l, start, b, hw, if batch == 1 then domain else NO_DOMAIN, debug, stride);
      BatchStep(l, start, b, batch, done, true, hw, domain, debug, stride, o);
      var l', start' := l.(descs := o.descs), NextStart(l, start, o.ret);
      var b' := b.(offset := U32(b.offset + o.ret * l.page));
      BatchAtLeast(l', start', b', batch - 1, done + o.ret, hw, domain, debug, stride);
      TotalOnlyIf(l', start', b', batch - 1, done + m, hw, domain, debug, stride);
    }
  }

  // ----- what a batch writes -----

  /** A member that programming accepts with m descriptors. */
  predicate Ready(t: Buffer, bind: bool, page: nat, stride: nat, m: nat)
    requires page > 0
  {
    && t.size > 0 && Count(t, bind, page) == m
    && (bind ==>
          StrideOk(stride, t.size, page) && Rem(t.offset, page) == 0 && t.offset + t.size <= |TableBytes(t.sg)|)
  }

  /** Programming one member. */
  lemma MemberWritten(l: List, start: nat, t: Buffer, bind: bool, hw: Hw, domain: Domain, debug: bool, stride: nat,
                      m: nat)
    requires l.Valid() && start < |l.descs| && 0 < m <= Room(l, start) && Ready(t, bind, l.page, stride, m)
    ensures m <= |l.descs|
    ensures Program(l, start, t, bind, hw, domain, debug, stride)
         == Outcome(m, WriteAt(l.descs, start, One(Window(l.descs, start, m), t, bind, l.page, Stride(stride, l.page),
                                                   hw, InterruptBits(hw, domain, debug))))
  {
    hide InterruptBits, Bind, ProgramLast, WriteAt, Window, One, IsPow2, TableBytes, DescCount, Chunks, Rem, DivUp;
    if bind {
      BoundWritten(l, start, t, hw, domain, debug, stride);
    } else {
      FastWritten(l, start, t, hw, domain, debug, Stride(stride, l.page));
    }
  }

  /** The batch writes the descriptors of its members one behind the other. */
  ghost predicate Writes(l: List, start: nat, b: Buffer, batch: nat, done: nat, bind: bool, hw: Hw, domain: Domain,
                         debug: bool, stride: nat)
    requires l.Valid() && start < |l.descs|
  {
    var ts, m := Members(b, batch, l.page), DivUp(b.size, l.page);
    && Taking(ts, bind, l.page) && Counts(ts, bind, l.page) == batch * m <= |l.descs|
    && Batch(l, start, b, batch, done, bind, hw, domain, debug, stride)
       == Outcome(done + batch * m,
                  WriteAt(l.descs, start, All(Window(l.descs, start, batch * m), ts, bind, l.page,
                                              Stride(stride, l.page), hw, InterruptBits(hw, domain, debug))))
  }

  lemma WritesNone(l: List, start: nat, b: Buffer, done: nat, bind: bool, hw: Hw, domain: Domain, debug: bool,
                   stride: nat)
    requires l.Valid() && start < |l.descs|
    ensures Writes(l, start, b, 0, done, bind, hw, domain, debug, stride)
  {
    hide InterruptBits, IsPow2, DivUp;
    BatchEnd(l, start, b, done, bind, hw, domain, debug, stride);
    WriteAtNone(l.descs, start);
  }

  /** A member in front of a batch. */
  lemma WritesMore(l: List, start: nat, b: Buffer, batch: nat, done: nat, bind: bool, hw: Hw, domain: Domain,
                   debug: bool, stride: nat, first: seq<Desc>, l': List, m: nat, next: nat)
    requires l.Valid() && l'.Valid() && start < |l.descs| && batch > 0 && batch * m <= |l.descs|
    requires m == DivUp(b.size, l.page) == Count(b, bind, l.page) && 0 < m <= |l.descs|
    requires next == Wrap(start + m, |l.descs|)
    requires first == One(Window(l.descs, start, m), b, bind, l.page, Stride(stride, l.page), hw,
                          if batch == 1 then InterruptBits(hw, domain, debug) else 0)
    requires l' == l.(descs := WriteAt(l.descs, start, first))
    requires Batch(l, start, b, batch, done, bind, hw, domain, debug, stride)
          == Batch(l', next, Next(b, l.page), batch - 1, done + m, bind, hw, domain, debug, stride)
    requires Writes(l', next, Next(b, l.page), batch - 1, done + m, bind, hw, domain, debug, stride)
    ensures Writes(l, start, b, batch, done, bind, hw, domain, debug, stride)
  {
    hide Batch, InterruptBits, WriteAt, Window, One, Wrap, DivUp, Count, List.Valid, Stride, All, Counts, Taking,
      Members;
    PageOf(l);
    var ts := Members(b, batch, l.page);
    MembersSplit(b, batch, bind, l.page);
    MulNext(batch - 1, m);
    AllMore(l.descs, start, ts, bind, l.page, Stride(stride, l.page), hw, InterruptBits(hw, domain, debug), first);
  }

  lemma MembersSplit(b: Buffer, batch: nat, bind: bool, page: nat)
    requires page > 0 && batch > 0
    ensures var ts, rest := Members(b, batch, page), Members(Next(b, page), batch - 1, page);
            && ts[0] == b && ts[1..] == rest
            && Counts(ts, bind, page) == Count(b, bind, page) + Counts(rest, bind, page)
            && (Taking(ts, bind, page) <==> Count(b, bind, page) > 0 && Taking(rest, bind, page))
  {
    hide Count;
    assert Members(b, batch, page)[1..] == Members(Next(b, page), batch - 1, page);
  }

  /** If every member takes its pages and all fit, that is what a batch does. */
  lemma {:induction false} BatchIs(l: List, start: nat, b: Buffer, batch: nat, done: nat, bind: bool, hw: Hw,
                                   domain: Domain, debug: bool, stride: nat)
    requires l.Valid() && start < |l.descs| && b.size > 0 && batch * DivUp(b.size, l.page) <= Room(l, start)
    requires forall t | t in Members(b, batch, l.page) :: Ready(t, bind, l.page, stride, DivUp(b.size, l.page))
    ensures Writes(l, start, b, batch, done, bind, hw, domain, debug, stride)
    decreases batch
  {
    hide Batch, Program, InterruptBits, WriteAt, Window, One, Wrap, DivUp, Count, List.Valid, Stride, Writes,
      TableBytes, Rem, StrideOk;
    SameShape(l, l.descs);
    if batch == 0 {
      WritesNone(l, start, b, done, bind, hw, domain, debug, stride);
    } else {
      var m, n := DivUp(b.size, l.page), |l.descs|;
      DivUpBounds(b.size, l.page);
      MulNext(batch - 1, m);
      MulMonotone(0, batch - 1, m);
      assert b in Members(b, batch, l.page);
      var d := if batch == 1 then domain else NO_DOMAIN;
      NoBits(hw, debug);
      MemberWritten(l, start, b, bind, hw, d, debug, stride, m);
      var first := One(Window(l.descs, start, m), b, bind, l.page, Stride(stride, l.page), hw,
                       InterruptBits(hw, d, debug));
      var l' := l.(descs := WriteAt(l.descs, start, first));
      SameShape(l, l'.descs);
      BatchStep(l, start, b, batch, done, bind, hw, domain, debug, stride, Outcome(m, l'.descs));
      if batch > 1 {
        MulMonotone(1, batch - 1, m);
        RoomBehind(l, start, m);
        BatchIs(l', Wrap(start + m, n), Next(b, l.page), batch - 1, done + m, bind, hw, domain, debug, stride);
      } else {
        WritesNone(l', Wrap(start + m, n), Next(b, l.page), done + m, bind, hw, domain, debug, stride);
      }
      BatchRest(l', start, b, batch, done + m, bind, hw, domain, debug, stride, m);
      WritesMore(l, start, b, batch, done, bind, hw, domain, debug, stride, first, l', m, Wrap(start + m, n));
    }
  }

  lemma RoomBehind(l: List, start: nat, m: nat)
    requires start < |l.descs| && m < Room(l, start)
    ensures Room(l, Wrap(start + m, |l.descs|)) == if l.circular then |l.descs| else Room(l, start) - m
  {
  }

  lemma MembersTake(b: Buffer, batch: nat, bind: bool, page: nat, stride: nat)
    requires page > 0 && b.size > 0
    requires forall t | t in Members(b, batch, page) :: Ready(t, bind, page, stride, DivUp(b.size, page))
    ensures DivUp(b.size, page) > 0
    ensures var ts := Members(b, batch, page);
            Taking(ts, bind, page) && Counts(ts, bind, page) == batch * DivUp(b.size, page)
  {
    hide Count, TableBytes, Rem, DivUp;
    DivUpBounds(b.size, page);
    CountsEqual(Members(b, batch, page), bind, page, DivUp(b.size, page));
  }

  /** The rest of a batch, counted around a circular list. */
  lemma BatchRest(l: List, start: nat, b: Buffer, batch: nat, done: nat, bind: bool, hw: Hw, domain: Domain,
                  debug: bool, stride: nat, m: nat)
    requires l.Valid() && start < |l.descs| && batch > 0 && m <= Room(l, start) && m == DivUp(b.size, l.page)
    requires batch > 1 ==> m < Room(l, start)
    ensures Batch(l, if l.circular then U32(start + m) % |l.descs| else U32(start + m),
                  b.(offset := U32(b.offset + m * l.page)), batch - 1, done, bind, hw, domain, debug, stride)
         == Batch(l, Wrap(start + m, |l.descs|), Next(b, l.page), batch - 1, done, bind, hw, domain, debug, stride)
  {
    hide Batch, DivUp, IsPow2;
    WrapIsMod(start + m, |l.descs|);
    if batch == 1 {
      BatchEnd(l, if l.circular then U32(start + m) % |l.descs| else U32(start + m),
               b.(offset := U32(b.offset + m * l.page)), done, bind, hw, domain, debug, stride);
      BatchEnd(l, Wrap(start + m, |l.descs|), Next(b, l.page), done, bind, hw, domain, debug, stride);
    }
  }

  // ----- the pattern -----

  /** The descriptors name the transfer's bytes, or the first `stride` bytes of every page of it. */
  predicate Names(ds: seq<Desc>, b: Buffer, page: nat, stride: nat)
    requires 0 < stride <= page
  {
    && b.offset + b.size <= |TableBytes(b.sg)|
    && DescsBytes(ds) == Strided(TableBytes(b.sg)[b.offset..b.offset + b.size], page, stride)
  }

  /** One transfer as documented: its descriptors name its bytes, all are of full size but the last, and the last
      carries `bits`. */
  ghost predicate Transfer(ds: seq<Desc>, b: Buffer, page: nat, stride: nat, bits: nat)
    requires 0 < stride <= page
  {
    && |ds| == DivUp(b.size, page) > 0
    && Names(ds, b, page, stride)
    && (forall i | 0 <= i < |ds| - 1 :: ds[i].control == ControlWord(stride))
    && ds[|ds| - 1].control == Or(ControlWord(if stride == page then LastSize(b.size, page) else stride), bits)
  }

  /** The table suits the transfer: all its pieces but the last end on page boundaries, and descriptors are aligned. */
  predicate Suits(b: Buffer, page: nat)
    requires page > 0
  {
    var chunks := Chunks(b.sg, 0, b.offset, b.size);
    PagedButLast(chunks, page) && forall c | c in chunks :: Aligned(c, page)
  }

  /** The bytes a transfer's descriptors name, when it takes its pages. */
  lemma OneNames(w: seq<Desc>, b: Buffer, page: nat, stride: nat, hw: Hw, bits: nat)
    requires 0 < stride <= page < TWO_16 && b.size > 0 && (stride < page ==> Rem(b.size, page) == 0)
    requires PlainHw(hw) && bits < 256 && Reachable(b) && b.offset + b.size <= |TableBytes(b.sg)|
    requires |w| == Count(b, true, page) == DivUp(b.size, page) > 0
    ensures Names(One(w, b, true, page, stride, hw, bits), b, page, stride)
       <==> forall c | c in Chunks(b.sg, 0, b.offset, b.size) :: Aligned(c, page)
  {
    hide TableBytes, Chunks, DescsBytes, One, StridedChunks, Strided, ChunkBytes, Aligned, Addressable, Rem, DivUp,
      DescCount;
    var chunks := Chunks(b.sg, 0, b.offset, b.size);
    ChunksAreTheBytes(b.sg, 0, b.offset, b.size);
    BoundNames(w, b, page, stride, hw, bits);
    if stride == page {
      FullStrideChunks(chunks, page);
      FullStride(ChunkBytes(chunks), page);
    } else {
      CountAtLeast(chunks, page);
      StridedWhole(chunks, page, stride);
    }
  }

  /** With a stride, pieces that end on page boundaries give every descriptor the stride. */
  lemma {:induction false} StrideControls(chunks: seq<Chunk>, page: nat, stride: nat, hw: Hw, i: nat)
    requires page > 0 && i < DescCount(chunks, page) && forall c | c in chunks :: Rem(c.size, page) == 0
    ensures DescsOf(chunks, page, stride, hw)[i].control == ControlWord(stride)
    decreases |chunks|
  {
    hide ControlWord, Or, And;
    assert chunks[0] in chunks;
    var k := DivUp(chunks[0].size, page);
    if i >= k {
      StrideControls(chunks[1..], page, stride, hw, i - k);
    }
  }

  /** Whole pieces in front of a whole buffer leave a whole last piece. */
  lemma {:induction false} AllWhole(chunks: seq<Chunk>, page: nat)
    requires page > 0 && Rem(Total(chunks), page) == 0
    ensures PagedButLast(chunks, page) <==> forall c | c in chunks :: Rem(c.size, page) == 0
  {
    hide Rem;
    if chunks != [] {
      assert chunks == [chunks[0]] + chunks[1..];
      CutCount(chunks[0].size, Total(chunks[1..]), page);
      if |chunks| == 1 {
        assert Total(chunks) == chunks[0].size;
      } else if Rem(chunks[0].size, page) == 0 {
        AllWhole(chunks[1..], page);
      }
    }
  }

  /** A transfer that takes its pages is as documented exactly when the table suits it. */
  lemma OneIff(w: seq<Desc>, b: Buffer, page: nat, stride: nat, hw: Hw, bits: nat)
    requires 0 < stride <= page < TWO_16 && b.size > 0 && (stride < page ==> Rem(b.size, page) == 0)
    requires PlainHw(hw) && bits < 256 && Reachable(b) && b.offset + b.size <= |TableBytes(b.sg)|
    requires |w| == Count(b, true, page) == DivUp(b.size, page) > 0
    ensures Transfer(One(w, b, true, page, stride, hw, bits), b, page, stride, bits) <==> Suits(b, page)
  {
    hide TableBytes, Chunks, DescsBytes, DescsOf, Strided, ChunkBytes, Aligned, Addressable, Rem, DivUp, DescCount,
      Names, PagedButLast, ControlWord, Or, LastSize;
    var chunks := Chunks(b.sg, 0, b.offset, b.size);
    OneNames(w, b, page, stride, hw, bits);
    var ds, r := DescsOf(chunks, page, stride, hw), One(w, b, true, page, stride, hw, bits);
    assert forall i | 0 <= i < |ds| - 1 :: r[i] == ds[i];
    if stride == page {
      BufferControls(b, page, hw);
    } else {
      ChunksAreTheBytes(b.sg, 0, b.offset, b.size);
      CountAtLeast(chunks, page);
      AllWhole(chunks, page);
      forall i | 0 <= i < |ds| ensures ds[i].control == ControlWord(stride) {
        StrideControls(chunks, page, stride, hw, i);
      }
    }
  }

  /** A table that suits a transfer lets it take its pages and no more. */
  lemma SuitsTakes(b: Buffer, page: nat)
    requires 0 < page < TWO_16 && b.size > 0 && b.offset + b.size <= |TableBytes(b.sg)|
    requires PagedButLast(Chunks(b.sg, 0, b.offset, b.size), page)
    ensures Count(b, true, page) == DivUp(b.size, page)
  {
    hide TableBytes, Chunks, DescsOf, PagedButLast, LastSize, ControlWord, DivUp;
    BufferControls(b, page, PCIE_HW);
  }

  /** The k-th part of a sequence in parts of m. */
  function Part<T>(s: seq<T>, k: nat, m: nat): (r: seq<T>)
    requires k * m + m <= |s|
    ensures |r| == m
  {
    s[k * m..k * m + m]
  }

  lemma PartFits(batch: nat, k: nat, m: nat)
    requires k < batch
    ensures k * m + m <= batch * m
  {
    MulNext(k, m);
    MulMonotone(k + 1, batch, m);
  }

  /** The k-th part of what a batch writes is what its k-th transfer writes. */
  lemma {:induction false} PartOfAll(w: seq<Desc>, ts: seq<Buffer>, bind: bool, page: nat, stride: nat, hw: Hw,
                                     bits: nat, m: nat, k: nat)
    requires page > 0 && m > 0 && k < |ts| && EachTakes(ts, bind, page, m)
    requires |w| == Counts(ts, bind, page) == |ts| * m && Taking(ts, bind, page)
    ensures k * m + m <= |w| && Count(ts[k], bind, page) == m
    ensures Part(All(w, ts, bind, page, stride, hw, bits), k, m)
         == One(Part(w, k, m), ts[k], bind, page, stride, hw, if k == |ts| - 1 then bits else 0)
    decreases k
  {
    hide Count, One;
    assert ts[0] in ts && ts[k] in ts;
    PartFits(|ts|, k, m);
    var all := All(w, ts, bind, page, stride, hw, bits);
    if k > 0 {
      CountsEqual(ts[1..], bind, page, m);
      PartOfAll(w[m..], ts[1..], bind, page, stride, hw, bits, m, k - 1);
      MulNext(k - 1, m);
      MulMonotone(0, k - 1, m);
      PartBehind(w, k, m);
      PartBehind(all, k, m);
    }
  }

  lemma PartBehind<T>(s: seq<T>, k: nat, m: nat)
    requires 0 < k && k * m + m <= |s| && k * m == (k - 1) * m + m && m <= |s|
    ensures (k - 1) * m + m <= |s[m..]| && Part(s, k, m) == Part(s[m..], k - 1, m)
  {
  }

  /** The batch as documented: `batch` transfers of ceil(size / page) descriptors each from `start` on, one behind the
      other, only the final one with interrupt bits, and no other descriptor touched. */
  ghost predicate LaidOut(descs: seq<Desc>, o: Outcome, start: nat, b: Buffer, batch: nat, done: nat, page: nat,
                          stride: nat, bits: nat)
    requires 0 < stride <= page && start < |descs|
  {
    var m := DivUp(b.size, page);
    && |o.descs| == |descs| && batch * m <= |descs|
    && o.ret == done + batch * m
    && (forall k | 0 <= k < batch ::
          && k * m + m <= batch * m
          && Transfer(Part(Window(o.descs, start, batch * m), k, m), Documented(b, k, page), page, stride,
                      if k == batch - 1 then bits else 0))
    && forall j | 0 <= j < |descs| && Offset(j, start, |descs|) >= batch * m :: o.descs[j] == descs[j]
  }

  /** What BatchTotal, BatchNames and BatchPattern ask of a caller: the documented transfers are aligned and in the
      table, the stride is one that binding accepts, and the documented descriptors fit in the list. */
  predicate Asked(l: List, start: nat, b: Buffer, batch: nat, stride: nat)
    requires l.page > 0
  {
    && InTable(b, batch, l.page) && StrideOk(stride, b.size, l.page)
    && start < |l.descs| && batch * DivUp(b.size, l.page) <= Room(l, start)
  }

  /** The pieces of every documented transfer take its pages and no more. */
  ghost predicate TakesItsPages(b: Buffer, batch: nat, page: nat)
    requires page > 0
  {
    forall k | 0 <= k < batch :: Count(Documented(b, k, page), true, page) == DivUp(b.size, page)
  }

  lemma TakesIsEach(b: Buffer, batch: nat, page: nat)
    requires page > 0 && InTable(b, batch, page)
    ensures TakesItsPages(b, batch, page) <==> EachTakes(Members(b, batch, page), true, page, DivUp(b.size, page))
  {
    hide Count, InTable, DivUp;
    var ts, m := Members(b, batch, page), DivUp(b.size, page);
    forall k | 0 <= k < batch ensures ts[k] == Documented(b, k, page) {
      MemberIs(b, batch, page, k);
    }
    if EachTakes(ts, true, page, m) {
      forall k | 0 <= k < batch ensures Count(Documented(b, k, page), true, page) == m {
        assert ts[k] in ts;
      }
    }
  }

  lemma MembersReady(l: List, start: nat, b: Buffer, batch: nat, stride: nat)
    requires l.Valid() && Asked(l, start, b, batch, stride) && TakesItsPages(b, batch, l.page)
    ensures forall t | t in Members(b, batch, l.page) :: Ready(t, true, l.page, stride, DivUp(b.size, l.page))
  {
    hide Count, InTable, DivUp, TableBytes, Rem, StrideOk, Members;
    TakesIsEach(b, batch, l.page);
    AskedSize(l, start, b, batch, stride);
    forall t | t in Members(b, batch, l.page) ensures Ready(t, true, l.page, stride, DivUp(b.size, l.page)) {
      MemberReady(b, batch, l.page, t);
    }
  }

  lemma AskedSize(l: List, start: nat, b: Buffer, batch: nat, stride: nat)
    requires l.page > 0 && Asked(l, start, b, batch, stride)
    ensures b.size > 0
  {
  }

  /** The batch returns the documented number of descriptors if and only if the pieces of every documented transfer take
      ceil(size / page) of them. */
  lemma BatchTotal(l: List, start: nat, b: Buffer, batch: nat, done: nat, hw: Hw, domain: Domain, debug: bool,
                   stride: nat)
    requires l.Valid() && Asked(l, start, b, batch, stride)
    ensures Batch(l, start, b, batch, done, true, hw, domain, debug, stride).ret == done + batch * DivUp(b.size, l.page)
       <==> TakesItsPages(b, batch, l.page)
  {
    hide Batch, DivUp, TakesItsPages, InTable, EachTakes, List.Valid, StrideOk, All, WriteAt, Window;
    PageOf(l);
    AskedSize(l, start, b, batch, stride);
    TakesIsEach(b, batch, l.page);
    if TakesItsPages(b, batch, l.page) {
      MembersReady(l, start, b, batch, stride);
      BatchIs(l, start, b, batch, done, true, hw, domain, debug, stride);
    } else if Batch(l, start, b, batch, done, true, hw, domain, debug, stride).ret
       == done + batch * DivUp(b.size, l.page) {
      TotalOnlyIf(l, start, b, batch, done, hw, domain, debug, stride);
    }
  }

  /** Then the descriptors of the k-th transfer are these, and the others are untouched. */
  lemma BatchPart(l: List, start: nat, b: Buffer, batch: nat, done: nat, hw: Hw, domain: Domain, debug: bool,
                  stride: nat, k: nat)
    requires l.Valid() && Asked(l, start, b, batch, stride) && TakesItsPages(b, batch, l.page) && k < batch
    ensures var o, m := Batch(l, start, b, batch, done, true, hw, domain, debug, stride), DivUp(b.size, l.page);
            && k * m + m <= batch * m <= |l.descs| && Count(Documented(b, k, l.page), true, l.page) == m > 0
            && Part(Window(o.descs, start, batch * m), k, m)
               == One(Part(Window(l.descs, start, batch * m), k, m), Documented(b, k, l.page), true, l.page,
                      Stride(stride, l.page), hw, if k == batch - 1 then InterruptBits(hw, domain, debug) else 0)
  {
    hide Batch, DivUp, TakesItsPages, InTable, List.Valid, StrideOk, WriteAt, Window, Count, One, InterruptBits, Stride,
      Members, All, Part;
    PageOf(l);
    AskedSize(l, start, b, batch, stride);
    TakesIsEach(b, batch, l.page);
    MembersReady(l, start, b, batch, stride);
    MembersTake(b, batch, true, l.page, stride);
    BatchIs(l, start, b, batch, done, true, hw, domain, debug, stride);
    var m := DivUp(b.size, l.page);
    var w, ts := Window(l.descs, start, batch * m), Members(b, batch, l.page);
    var all := All(w, ts, true, l.page, Stride(stride, l.page), hw, InterruptBits(hw, domain, debug));
    WindowOfWrite(l.descs, start, all);
    PartFits(batch, k, m);
    PartOfAll(w, ts, true, l.page, Stride(stride, l.page), hw, InterruptBits(hw, domain, debug), m, k);
    MemberIs(b, batch, l.page, k);
  }

  lemma BatchLeaves(l: List, start: nat, b: Buffer, batch: nat, done: nat, hw: Hw, domain: Domain, debug: bool,
                    stride: nat)
    requires l.Valid() && Asked(l, start, b, batch, stride) && TakesItsPages(b, batch, l.page)
    ensures var o, m := Batch(l, start, b, batch, done, true, hw, domain, debug, stride), DivUp(b.size, l.page);
            && batch * m <= |l.descs|
            && forall j | 0 <= j < |l.descs| && Offset(j, start, |l.descs|) >= batch * m :: o.descs[j] == l.descs[j]
  {
    hide Batch, DivUp, TakesItsPages, InTable, List.Valid, StrideOk, InterruptBits, Stride, All, Window;
    PageOf(l);
    AskedSize(l, start, b, batch, stride);
    MembersReady(l, start, b, batch, stride);
    BatchIs(l, start, b, batch, done, true, hw, domain, debug, stride);
  }

  /** Then each transfer names the documented bytes, exactly if its descriptors are aligned. */
  lemma BatchNames(l: List, start: nat, b: Buffer, batch: nat, done: nat, hw: Hw, domain: Domain, debug: bool,
                   stride: nat, k: nat)
    requires l.Valid() && Asked(l, start, b, batch, stride) && TakesItsPages(b, batch, l.page) && k < batch
    requires PlainHw(hw) && Reachable(Documented(b, k, l.page))
    ensures 0 < Stride(stride, l.page) <= l.page
    ensures var o, m := Batch(l, start, b, batch, done, true, hw, domain, debug, stride), DivUp(b.size, l.page);
            var t := Documented(b, k, l.page);
            && k * m + m <= batch * m <= |l.descs|
            && (Names(Part(Window(o.descs, start, batch * m), k, m), t, l.page, Stride(stride, l.page))
                <==> forall c | c in Chunks(t.sg, 0, t.offset, t.size) :: Aligned(c, l.page))
  {
    hide Batch, DivUp, TakesItsPages, InTable, Window, Count, One, InterruptBits, Stride, Part, Names, Aligned, Chunks,
      PlainHw, Addressable, IsPow2, TableBytes, StrideOk, Documented;
    BatchPart(l, start, b, batch, done, hw, domain, debug, stride, k);
    StrideBounds(stride, b.size, l.page);
    DocumentedReady(l, start, b, batch, stride, k);
    PlainBits(hw, domain, debug);
    var m := DivUp(b.size, l.page);
    OneNames(Part(Window(l.descs, start, batch * m), k, m), Documented(b, k, l.page), l.page, Stride(stride, l.page),
             hw, if k == batch - 1 then InterruptBits(hw, domain, debug) else 0);
  }

  lemma DocumentedReady(l: List, start: nat, b: Buffer, batch: nat, stride: nat, k: nat)
    requires l.page > 0 && Asked(l, start, b, batch, stride) && k < batch
    ensures var t := Documented(b, k, l.page);
            t.size == b.size > 0 && t.offset + t.size <= |TableBytes(t.sg)| && StrideOk(stride, t.size, l.page)
  {
    hide TableBytes, Rem, DivUp, Members;
    MemberIs(b, batch, l.page, k);
    MemberReady(b, batch, l.page, Members(b, batch, l.page)[k]);
  }

  /** The batch is laid out as documented if and only if the table suits every transfer: all pieces but the last end on
      page boundaries, and descriptors are aligned. */
  lemma BatchPattern(l: List, start: nat, b: Buffer, batch: nat, done: nat, hw: Hw, domain: Domain, debug: bool,
                     stride: nat)
    requires l.Valid() && Asked(l, start, b, batch, stride) && PlainHw(hw)
    requires forall k | 0 <= k < batch :: Reachable(Documented(b, k, l.page))
    ensures 0 < Stride(stride, l.page) <= l.page
    ensures LaidOut(l.descs, Batch(l, start, b, batch, done, true, hw, domain, debug, stride), start, b, batch, done,
                    l.page, Stride(stride, l.page), InterruptBits(hw, domain, debug))
       <==> forall k | 0 <= k < batch :: Suits(Documented(b, k, l.page), l.page)
  {
    hide Batch, DivUp, TakesItsPages, InTable, Window, InterruptBits, Stride, Part, Transfer, Suits, Reachable, PlainHw,
      IsPow2, StrideOk, Documented;
    StrideBounds(stride, b.size, l.page);
    BatchTotal(l, start, b, batch, done, hw, domain, debug, stride);
    var suits := forall k | 0 <= k < batch :: Suits(Documented(b, k, l.page), l.page);
    if suits {
      forall k | 0 <= k < batch ensures Count(Documented(b, k, l.page), true, l.page) == DivUp(b.size, l.page) {
        SuitedTakes(l, start, b, batch, stride, k);
      }
      TakesAll(b, batch, l.page);
    }
    if TakesItsPages(b, batch, l.page) {
      BatchLeaves(l, start, b, batch, done, hw, domain, debug, stride);
      forall k | 0 <= k < batch
        ensures PartIff(l, start, b, batch, done, hw, domain, debug, stride, k)
      {
        PartIsTransfer(l, start, b, batch, done, hw, domain, debug, stride, k);
      }
      PatternIff(l, start, b, batch, done, hw, domain, debug, stride);
    }
  }

  lemma TakesAll(b: Buffer, batch: nat, page: nat)
    requires page > 0
    requires forall k | 0 <= k < batch :: Count(Documented(b, k, page), true, page) == DivUp(b.size, page)
    ensures TakesItsPages(b, batch, page)
  {
  }

  lemma SuitedTakes(l: List, start: nat, b: Buffer, batch: nat, stride: nat, k: nat)
    requires l.Valid() && Asked(l, start, b, batch, stride) && k < batch && Suits(Documented(b, k, l.page), l.page)
    ensures Count(Documented(b, k, l.page), true, l.page) == DivUp(b.size, l.page)
  {
    hide Count, InTable, DivUp, TableBytes, StrideOk, Documented, PagedButLast, Chunks, Aligned;
    DocumentedReady(l, start, b, batch, stride, k);
    SuitsTakes(Documented(b, k, l.page), l.page);
  }

  /** The k-th part is as documented exactly when the table suits the transfer. */
  ghost predicate PartIff(l: List, start: nat, b: Buffer, batch: nat, done: nat, hw: Hw, domain: Domain, debug: bool,
                          stride: nat, k: nat)
    requires l.Valid() && start < |l.descs| && 0 < Stride(stride, l.page) <= l.page
  {
    var o, m := Batch(l, start, b, batch, done, true, hw, domain, debug, stride), DivUp(b.size, l.page);
    && k * m + m <= batch * m <= |l.descs|
    && (Transfer(Part(Window(o.descs, start, batch * m), k, m), Documented(b, k, l.page), l.page,
                 Stride(stride, l.page), if k == batch - 1 then InterruptBits(hw, domain, debug) else 0)
        <==> Suits(Documented(b, k, l.page), l.page))
  }

  lemma PartIsTransfer(l: List, start: nat, b: Buffer, batch: nat, done: nat, hw: Hw, domain: Domain, debug: bool,
                       stride: nat, k: nat)
    requires l.Valid() && Asked(l, start, b, batch, stride) && TakesItsPages(b, batch, l.page) && k < batch
    requires PlainHw(hw) && Reachable(Documented(b, k, l.page)) && 0 < Stride(stride, l.page) <= l.page
    ensures PartIff(l, start, b, batch, done, hw, domain, debug, stride, k)
  {
    hide Batch, DivUp, TakesItsPages, InTable, Window, Count, One, InterruptBits, Stride, Part, Transfer, Suits,
      PlainHw, IsPow2, TableBytes, StrideOk, Documented, Reachable;
    BatchPart(l, start, b, batch, done, hw, domain, debug, stride, k);
    StrideBounds(stride, b.size, l.page);
    DocumentedReady(l, start, b, batch, stride, k);
    PlainBits(hw, domain, debug);
    var m := DivUp(b.size, l.page);
    OneIff(Part(Window(l.descs, start, batch * m), k, m), Documented(b, k, l.page), l.page, Stride(stride, l.page), hw,
           if k == batch - 1 then InterruptBits(hw, domain, debug) else 0);
  }

  lemma PatternIff(l: List, start: nat, b: Buffer, batch: nat, done: nat, hw: Hw, domain: Domain, debug: bool,
                   stride: nat)
    requires l.Valid() && start < |l.descs| && 0 < Stride(stride, l.page) <= l.page
    requires var o, m := Batch(l, start, b, batch, done, true, hw, domain, debug, stride), DivUp(b.size, l.page);
             && o.ret == done + batch * m && batch * m <= |l.descs|
             && forall j | 0 <= j < |l.descs| && Offset(j, start, |l.descs|) >= batch * m :: o.descs[j] == l.descs[j]
    requires forall k | 0 <= k < batch :: PartIff(l, start, b, batch, done, hw, domain, debug, stride, k)
    ensures LaidOut(l.descs, Batch(l, start, b, batch, done, true, hw, domain, debug, stride), start, b, batch, done,
                    l.page, Stride(stride, l.page), InterruptBits(hw, domain, debug))
       <==> forall k | 0 <= k < batch :: Suits(Documented(b, k, l.page), l.page)
  {
    hide Batch, DivUp, Window, InterruptBits, Stride, Part, Transfer, Suits, IsPow2, Documented;
    var o, m := Batch(l, start, b, batch, done, true, hw, domain, debug, stride), DivUp(b.size, l.page);
    forall k | 0 <= k < batch
      ensures k * m + m <= batch * m
      ensures Transfer(Part(Window(o.descs, start, batch * m), k, m), Documented(b, k, l.page), l.page,
                       Stride(stride, l.page), if k == batch - 1 then InterruptBits(hw, domain, debug) else 0)
         <==> Suits(Documented(b, k, l.page), l.page)
    {
      assert PartIff(l, start, b, batch, done, hw, domain, debug, stride, k);
    }
  }

  // ----- the fast path -----

  lemma {:induction false} SameSizes(b: Buffer, batch: nat, page: nat, t: Buffer)
    requires page > 0 && t in Members(b, batch, page)
    ensures t.size == b.size
    decreases batch
  {
    hide DivUp, U32;
    if t != b {
      SameSizes(Next(b, page), batch - 1, page, t);
    }
  }

  lemma FastReady(b: Buffer, batch: nat, page: nat, stride: nat)
    requires page > 0 && b.size > 0
    ensures forall t | t in Members(b, batch, page) :: Ready(t, false, page, stride, DivUp(b.size, page))
  {
    hide Members, DivUp;
    forall t | t in Members(b, batch, page) ensures Ready(t, false, page, stride, DivUp(b.size, page)) {
      SameSizes(b, batch, page, t);
    }
  }

  /** Without binding, a batch that fits takes the documented number of descriptors, whatever the table. In the k-th
      transfer only the last control word changes: it gets the size of the last page and, in the final transfer, the
      interrupt bits. */
  lemma FastBatch(l: List, start: nat, b: Buffer, batch: nat, done: nat, hw: Hw, domain: Domain, debug: bool,
                  stride: nat, k: nat)
    requires l.Valid() && start < |l.descs| && b.size > 0 && batch * DivUp(b.size, l.page) <= Room(l, start)
    requires PlainHw(hw) && k < batch
    ensures var o, m := Batch(l, start, b, batch, done, false, hw, domain, debug, stride), DivUp(b.size, l.page);
            && m > 0 && k * m + m <= batch * m <= |l.descs|
            && o.ret == done + batch * m
            && (var before := Part(Window(l.descs, start, batch * m), k, m);
                var bits := if k == batch - 1 then InterruptBits(hw, domain, debug) else 0;
                Part(Window(o.descs, start, batch * m), k, m)
                == before[m - 1 := before[m - 1].(control := Or(ControlWord(LastSize(b.size, l.page)), bits))])
            && forall j | 0 <= j < |l.descs| && Offset(j, start, |l.descs|) >= batch * m :: o.descs[j] == l.descs[j]
  {
    hide Batch, DivUp, List.Valid, Window, Count, InterruptBits, Stride, Members, All, Part, FastControl, ControlWord,
      LastSize, Or;
    PageOf(l);
    PageBound(l);
    var m, ts := DivUp(b.size, l.page), Members(b, batch, l.page);
    var s, bits := Stride(stride, l.page), InterruptBits(hw, domain, debug);
    FastReady(b, batch, l.page, stride);
    MembersTake(b, batch, false, l.page, stride);
    BatchIs(l, start, b, batch, done, false, hw, domain, debug, stride);
    var w := Window(l.descs, start, batch * m);
    WindowOfWrite(l.descs, start, All(w, ts, false, l.page, s, hw, bits));
    PartFits(batch, k, m);
    EachTakesFast(ts, l.page, stride, m);
    PartOfAll(w, ts, false, l.page, s, hw, bits, m, k);
    SameSizes(b, batch, l.page, ts[k]);
    PlainBits(hw, domain, debug);
    FastControlIs(b.size, l.page, if k == batch - 1 then bits else 0);
  }

  lemma PageBound(l: List)
    requires l.Valid()
    ensures l.page < TWO_16
  {
  }

  lemma EachTakesFast(ts: seq<Buffer>, page: nat, stride: nat, m: nat)
    requires page > 0 && forall t | t in ts :: Ready(t, false, page, stride, m)
    ensures EachTakes(ts, false, page, m)
  {
    hide Count;
  }

  // ----- a table whose pieces end inside pages -----

  /** Pieces of 96, 96 and 512 bytes. */
  const UNEVEN := Buffer([SgEntry(0, 96), SgEntry(128, 96), SgEntry(256, 512)], 0, 192, 0)

  lemma UnevenChunks()
    ensures Chunks(UNEVEN.sg, 0, 0, 192) == [Chunk(0, 96), Chunk(128, 96)]
    ensures Chunks(UNEVEN.sg, 0, 256, 192) == [Chunk(320, 192)]
    ensures |TableBytes(UNEVEN.sg)| == 704
  {
    var sg := UNEVEN.sg;
    assert sg[1..] == [SgEntry(128, 96), SgEntry(256, 512)] && sg[1..][1..] == [SgEntry(256, 512)];
    assert sg[1..][1..][1..] == [];
    assert Chunks(sg[1..][1..], 192, 0, 0) == [];
    assert Chunks(sg[1..], 96, 0, 96) == [Chunk(128, 96)];
    assert Chunks([], 704, 256, 0) == [];
    assert Chunks(sg[1..][1..], 192, 256, 192) == [Chunk(320, 192)] + Chunks([], 704, 256, 0);
    assert Chunks(sg[1..], 96, 256, 192) == [Chunk(320, 192)];
  }

  lemma UnevenCounts()
    ensures Count(UNEVEN, true, 64) == 4 && DivUp(192, 64) == 3
    ensures Count(UNEVEN.(offset := 256), true, 64) == 3
  {
    UnevenChunks();
    assert [Chunk(320, 192)][1..] == [];
    assert [Chunk(0, 96), Chunk(128, 96)][1..] == [Chunk(128, 96)];
    assert [Chunk(128, 96)][1..] == [];
    assert DescCount([Chunk(128, 96)], 64) == 2;
  }

  lemma UnevenInTable()
    ensures InTable(UNEVEN, 2, 64)
  {
    hide Chunks, TableBytes, Count, DivUp, Rem;
    UnevenChunks();
    UnevenCounts();
    PageRems();
    assert Documented(UNEVEN, 1, 64).offset == 192;
  }

  lemma FirstTakesMore(b: Buffer, batch: nat, page: nat)
    requires page > 0 && batch > 0 && Count(b, true, page) != DivUp(b.size, page)
    ensures !TakesItsPages(b, batch, page)
  {
    hide Count, DivUp;
    assert Documented(b, 0, page) == b;
  }

  lemma UnevenAsked(l: List)
    requires l.Valid() && l.circular && |l.descs| == 16 && l.page == 64
    ensures Asked(l, 0, UNEVEN, 2, 0) && !TakesItsPages(UNEVEN, 2, 64)
  {
    hide InTable, TakesItsPages, IsPow2, DivUp, Rem, Count;
    UnevenInTable();
    UnevenCounts();
    FirstTakesMore(UNEVEN, 2, 64);
    PageRems();
  }

  /** A batch of two transfers of 192 bytes from that table on a list with room for 16 descriptors: the documented total
      of 6 fits, and yet 7 are taken, since the first transfer takes 4 and moves the second one a page on. */
  lemma UnevenBatch(l: List, hw: Hw, domain: Domain, debug: bool)
    requires l.Valid() && l.circular && |l.descs| == 16 && l.page == 64
    ensures Asked(l, 0, UNEVEN, 2, 0) && !TakesItsPages(UNEVEN, 2, 64)
    ensures Batch(l, 0, UNEVEN, 2, 0, true, hw, domain, debug, 0).ret == 7
  {
    hide Chunks, TableBytes, Bind, Batch, DescCount, DivUp, Count, InterruptBits, List.Valid, Asked, TakesItsPages, Rem;
    UnevenAsked(l);
    UnevenChunks();
    UnevenCounts();
    PageRems();
    UnevenTransfer(l, 0, UNEVEN, hw, NO_DOMAIN, debug, 4);
    var o := Bind(l, 0, UNEVEN, hw, NO_DOMAIN, debug, 0);
    BatchStep(l, 0, UNEVEN, 2, 0, true, hw, domain, debug, 0, o);
    SameShape(l, o.descs);
    var l', b' := l.(descs := o.descs), UNEVEN.(offset := 256);
    UnevenRest(l', b', hw, domain, debug);
  }

  lemma PageRems()
    ensures Rem(0, 64) == 0 && Rem(256, 64) == 0
  {
    assert Rem(128, 64) == 0;
  }

  lemma UnevenRest(l: List, b: Buffer, hw: Hw, domain: Domain, debug: bool)
    requires l.Valid() && l.circular && |l.descs| == 16 && l.page == 64 && b == UNEVEN.(offset := 256)
    ensures Batch(l, 4, b, 1, 4, true, hw, domain, debug, 0).ret == 7
  {
    hide Chunks, TableBytes, Bind, Batch, DescCount, DivUp, Count, InterruptBits, List.Valid, Rem;
    UnevenChunks();
    UnevenCounts();
    PageRems();
    UnevenTransfer(l, 4, b, hw, domain, debug, 3);
    var o := Bind(l, 4, b, hw, domain, debug, 0);
    SameShape(l, o.descs);
    BatchStep(l, 4, b, 1, 4, true, hw, domain, debug, 0, o);
    BatchEnd(l.(descs := o.descs), 7, b.(offset := 448), 7, true, hw, domain, debug, 0);
  }

  lemma UnevenTransfer(l: List, start: nat, b: Buffer, hw: Hw, domain: Domain, debug: bool, k: nat)
    requires l.Valid() && l.circular && |l.descs| == 16 && start < 16 && b.size > 0 && k <= 16
    requires Rem(b.offset, l.page) == 0 && b.offset + b.size <= |TableBytes(b.sg)| && Count(b, true, l.page) == k
    ensures Bind(l, start, b, hw, domain, debug, 0).ret == k
  {
    hide Chunks, TableBytes, Bind, DescCount, IsPow2, Window, One, InterruptBits;
    NoRem(l.page);
    BoundWritten(l, start, b, hw, domain, debug, 0);
  }
}
