/** When binding a buffer to a descriptor list succeeds, and that it keeps the meaning of the buffer. */
module Programming {
  import opened Bits
  import opened Cyclic
  import opened Descriptors
  import opened Binding

  lemma WindowOfWrite(descs: seq<Desc>, start: nat, ds: seq<Desc>)
    requires start < |descs| && |ds| <= |descs|
    ensures Window(WriteAt(descs, start, ds), start, |ds|) == ds
  {
    var w := Window(WriteAt(descs, start, ds), start, |ds|);
    forall i | 0 <= i < |ds| ensures w[i] == ds[i] {
      assert Offset(Wrap(start + i, |descs|), start, |descs|) == i;
    }
  }

  lemma LastIsWrap(start: nat, n: nat, count: nat)
    requires start < count <= TWO_16 && 0 < n <= count
    ensures LastIndex(start, n, count) == Wrap(start + n - 1, count)
  {
    WrapIsMod(start + n - 1, count);
  }

  // ----- interrupt bits leave the address and the size alone -----

  lemma OrKeepsSize(control: nat, bits: nat)
    requires bits < 256
    ensures Or(control, bits) / 256 == control / 256
    ensures Or(control, bits) % 256 == Or(control % 256, bits) < 256
  {
    hide Or;
    Pow2Values();
    var q, r := control / 256, control % 256;
    assert control == q * 256 + r;
    OrSplit(q, r, 0, bits, 8);
    OrBelow(r, bits, 8);
    OrZero(q);
  }

  lemma InterruptBitsSmall(hw: Hw, domain: Domain, debug: bool)
    requires hw.deviceBits < 256 && hw.hostBits < 256
    ensures InterruptBits(hw, domain, debug) < 256
  {
    hide Or;
    Pow2Values();
    var device, host := if domain.device then hw.deviceBits else 0, if domain.host then hw.hostBits else 0;
    OrBelow(device, host, 8);
    OrBelow(Or(device, host), 12, 8);
    OrBelow(Or(Or(device, host), 12), 3, 8);
  }

  lemma PlainBits(hw: Hw, domain: Domain, debug: bool)
    requires PlainHw(hw)
    ensures InterruptBits(hw, domain, debug) < 256
  {
    InterruptBitsSmall(hw, domain, debug);
  }

  lemma NoBits(hw: Hw, debug: bool)
    ensures InterruptBits(hw, NO_DOMAIN, debug) == 0
  {
  }

  /** The vDMA parameters of the PCIe boards. */
  const PCIE_HW := Hw(0, 0x10, 0x20, 0)

  /** The interrupt bits on PCIe: none without a domain; otherwise the domain's bit, the request bits and, when
      debugging, the status bits. */
  lemma PcieInterruptBits(domain: Domain, debug: bool)
    ensures PlainHw(PCIE_HW)
    ensures InterruptBits(PCIE_HW, domain, debug) ==
            if domain == NO_DOMAIN then 0
            else (if domain.device then 0x10 else 0) + (if domain.host then 0x20 else 0)
                 + 0xC + (if debug then 3 else 0)
  {
    hide Or;
    OrOnPcie(0, 0x20);
    OrOnPcie(0x10, 0);
    OrOnPcie(0x10, 0x20);
    OrOnPcie(0, 0);
  }

  lemma OrOnPcie(device: nat, host: nat)
    requires device in {0, 0x10} && host in {0, 0x20}
    ensures Or(device, host) == device + host
    ensures Or(device + host, 0xC) == device + host + 0xC
    ensures Or(device + host + 0xC, 3) == device + host + 0xF
  {
    hide Or;
    assert Pow2(2) == 4 && Pow2(4) == 16 && Pow2(5) == 32;
    OrSplit(0, device, host / 32, 0, 5);
    OrZero(device);
    OrZero(host / 32);
    OrDisjoint((device + host) / 16, 0xC, 4);
    OrDisjoint((device + host) / 4 + 3, 3, 2);
  }

  lemma {:induction false} SameBytes(a: seq<Desc>, b: seq<Desc>)
    requires |a| == |b|
    requires forall i | 0 <= i < |a| :: DescBytes(a[i]) == DescBytes(b[i])
    ensures DescsBytes(a) == DescsBytes(b)
  {
    hide DescBytes;
    if a != [] {
      SameBytes(a[1..], b[1..]);
    }
  }

  lemma SetBitsBytes(d: Desc, bits: nat)
    requires bits < 256
    ensures DescBytes(d.(control := Or(d.control, bits))) == DescBytes(d)
  {
    hide Or, And, Addresses;
    OrKeepsSize(d.control, bits);
  }

  lemma WindowSetBits(descs: seq<Desc>, start: nat, n: nat, k: nat, bits: nat)
    requires start < |descs| && n <= |descs| && k < |descs| && bits < 256
    ensures DescsBytes(Window(SetBits(descs, k, bits), start, n)) == DescsBytes(Window(descs, start, n))
  {
    hide Or, DescBytes, DescsBytes;
    var a, b := Window(SetBits(descs, k, bits), start, n), Window(descs, start, n);
    SetBitsBytes(descs[k], bits);
    forall i | 0 <= i < n ensures DescBytes(a[i]) == DescBytes(b[i]) {
      if Wrap(start + i, |descs|) == k {
        assert b[i] == descs[k] && a[i] == descs[k].(control := Or(descs[k].control, bits));
      } else {
        assert a[i] == b[i];
      }
    }
    SameBytes(a, b);
  }

  // ----- when binding succeeds -----

  /** The checks a caller can make before binding with the default stride: the offset is page-aligned, the
      position exists, the table holds the bytes (if there are any), and the descriptors fit. */
  predicate Bindable(l: List, start: nat, b: Buffer)
    requires l.page > 0
  {
    && Rem(b.offset, l.page) == 0
    && start < |l.descs|
    && (b.size == 0 || b.offset + b.size <= |TableBytes(b.sg)|)
    && DescCount(Chunks(b.sg, 0, b.offset, b.size), l.page) <= Room(l, start)
  }

  lemma BindChunksSucceeds(l: List, start: nat, b: Buffer, stride: nat, hw: Hw)
    requires l.Valid() && start < |l.descs| && b.size > 0
    ensures var chunks := Chunks(b.sg, 0, b.offset, b.size);
            var o := BindChunks(l, start, b, stride, hw);
            && (o.ret >= 0 <==> b.offset + b.size <= |TableBytes(b.sg)| && DescCount(chunks, l.page) <= Room(l, start))
            && (o.ret >= 0 ==>
                  && 0 < o.ret == DescCount(chunks, l.page) <= |l.descs|
                  && o.descs == WriteAt(l.descs, start, DescsOf(chunks, l.page, stride, hw)))
  {
    hide TableBytes, Chunks, DescsOf, WriteAt, Fitting, ChunkBytes;
    var chunks := Chunks(b.sg, 0, b.offset, b.size);
    ChunksAreTheBytes(b.sg, 0, b.offset, b.size);
    FittingAll(chunks, Room(l, start), l.page);
    FittingShorter(chunks, Room(l, start), l.page);
    if Total(chunks) == b.size {
      ChunksNonEmpty(b.sg, 0, b.offset, b.size);
      assert chunks[0] in chunks;
      DivUpBounds(chunks[0].size, l.page);
    }
  }

  lemma {:induction false} FittingShorter(chunks: seq<Chunk>, room: nat, page: nat)
    requires page > 0
    ensures |Fitting(chunks, room, page)| <= |chunks|
    ensures |Fitting(chunks, room, page)| == |chunks| ==> Fitting(chunks, room, page) == chunks
  {
    if chunks != [] && DivUp(chunks[0].size, page) <= room {
      FittingShorter(chunks[1..], room - DivUp(chunks[0].size, page), page);
      assert chunks == [chunks[0]] + chunks[1..];
    }
  }

  /** Binding a buffer with the default stride succeeds exactly when it is bindable. Then the descriptors written
      name exactly bytes [offset, offset + size) of the buffer in order if and only if all of them are 64-byte aligned,
      and no other descriptor changes. */
  lemma BindMeaning(l: List, start: nat, b: Buffer, hw: Hw, domain: Domain, debug: bool)
    requires l.Valid() && PlainHw(hw) && b.size > 0
    requires forall c | c in Chunks(b.sg, 0, b.offset, b.size) :: Addressable(c)
    ensures var o := Bind(l, start, b, hw, domain, debug, 0);
            && (o.ret >= 0 <==> Bindable(l, start, b))
            && (o.ret >= 0 ==>
                  && 0 < o.ret <= |l.descs|
                  && (DescsBytes(Window(o.descs, start, o.ret)) == TableBytes(b.sg)[b.offset..b.offset + b.size]
                      <==> forall c | c in Chunks(b.sg, 0, b.offset, b.size) :: Aligned(c, l.page))
                  && forall j | 0 <= j < |l.descs| && Offset(j, start, |l.descs|) >= o.ret :: o.descs[j] == l.descs[j])
  {
    hide TableBytes, Chunks, DescsBytes, BindChunks, InterruptBits, Window, Aligned, Addressable, StridedChunks,
      ChunkBytes, DescCount, Rem;
    NoRem(l.page);
    if Rem(b.offset, l.page) == 0 && start < |l.descs| {
      BindChunksSucceeds(l, start, b, l.page, hw);
      if Bindable(l, start, b) {
        BoundWindow(l, start, b, l.page, hw, domain, debug);
        FullStrideChunks(Chunks(b.sg, 0, b.offset, b.size), l.page);
        ChunksAreTheBytes(b.sg, 0, b.offset, b.size);
      }
    }
  }

  lemma NoRem(page: nat)
    requires page > 0
    ensures Rem(0, page) == 0
  {
  }

  /** What a successful bind leaves, for any stride. */
  lemma BoundWindow(l: List, start: nat, b: Buffer, stride: nat, hw: Hw, domain: Domain, debug: bool)
    requires l.Valid() && PlainHw(hw) && b.size > 0 && 0 < stride <= l.page
    requires forall c | c in Chunks(b.sg, 0, b.offset, b.size) :: Addressable(c)
    requires Bindable(l, start, b)
    ensures 0 < BindChunks(l, start, b, stride, hw).ret <= |l.descs|
    ensures var o := BindChunks(l, start, b, stride, hw);
            var chunks := Chunks(b.sg, 0, b.offset, b.size);
            var last := LastIndex(start, o.ret, |l.descs|);
            var descs := SetBits(o.descs, last, InterruptBits(hw, domain, debug));
            && |DescsBytes(Window(descs, start, o.ret))| == |StridedChunks(chunks, l.page, stride)|
            && (DescsBytes(Window(descs, start, o.ret)) == StridedChunks(chunks, l.page, stride)
                <==> forall c | c in chunks :: Aligned(c, l.page))
            && forall j | 0 <= j < |l.descs| && Offset(j, start, |l.descs|) >= o.ret :: descs[j] == l.descs[j]
  {
    hide TableBytes, Chunks, DescsBytes, BindChunks, InterruptBits, Window, DescsOf, StridedChunks, Aligned,
      Addressable;
    var chunks := Chunks(b.sg, 0, b.offset, b.size);
    var ds := DescsOf(chunks, l.page, stride, hw);
    var o := BindChunks(l, start, b, stride, hw);
    BindChunksSucceeds(l, start, b, stride, hw);
    ChunksMeaning(chunks, l.page, stride, hw);
    WindowOfWrite(l.descs, start, ds);
    InterruptBitsSmall(hw, domain, debug);
    LastIsWrap(start, o.ret, |l.descs|);
    WindowSetBits(o.descs, start, o.ret, LastIndex(start, o.ret, |l.descs|), InterruptBits(hw, domain, debug));
  }

  /** With a stride that is no multiple of the page, the descriptors name the first `stride` bytes of every page of
      every piece of the table, and the rest of a piece whole, if and only if all of them are aligned. They name the
      first `stride` bytes of every page of the buffer if and only if, besides, all its pieces end on page
      boundaries. */
  lemma BindMeaningStrided(l: List, start: nat, b: Buffer, hw: Hw, domain: Domain, debug: bool, stride: nat)
    requires l.Valid() && PlainHw(hw) && b.size > 0
    requires Rem(b.size, l.page) == 0 && 0 < stride < l.page
    requires forall c | c in Chunks(b.sg, 0, b.offset, b.size) :: Addressable(c)
    ensures var o := Bind(l, start, b, hw, domain, debug, stride);
            var chunks := Chunks(b.sg, 0, b.offset, b.size);
            && (o.ret >= 0 <==> Bindable(l, start, b))
            && (o.ret >= 0 ==>
                  && 0 < o.ret <= |l.descs|
                  && var named := DescsBytes(Window(o.descs, start, o.ret));
                     && (named == StridedChunks(chunks, l.page, stride)
                         <==> forall c | c in chunks :: Aligned(c, l.page))
                     && (named == Strided(TableBytes(b.sg)[b.offset..b.offset + b.size], l.page, stride)
                         <==> forall c | c in chunks :: Aligned(c, l.page) && Rem(c.size, l.page) == 0)
                     && forall j | 0 <= j < |l.descs| && Offset(j, start, |l.descs|) >= o.ret ::
                          o.descs[j] == l.descs[j])
  {
    hide TableBytes, Chunks, DescsBytes, BindChunks, InterruptBits, Window, Strided, StridedChunks, ChunkBytes,
      DescCount, Aligned, Addressable;
    SmallRem(stride, l.page);
    if Rem(b.offset, l.page) == 0 && start < |l.descs| {
      BindChunksSucceeds(l, start, b, stride, hw);
      if Bindable(l, start, b) {
        BoundWindow(l, start, b, stride, hw, domain, debug);
        ChunksAreTheBytes(b.sg, 0, b.offset, b.size);
        var o := Bind(l, start, b, hw, domain, debug, stride);
        NamedStrided(DescsBytes(Window(o.descs, start, o.ret)), Chunks(b.sg, 0, b.offset, b.size), l.page, stride);
      }
    }
  }

  lemma SmallRem(x: nat, page: nat)
    requires x < page
    ensures Rem(x, page) == x
  {
  }

  /** An empty buffer programs nothing and yet sets interrupt bits: those of the descriptor in front. */
  lemma EmptyBufferTouchesPrevious(l: List, start: nat, b: Buffer, hw: Hw, domain: Domain, debug: bool)
    requires l.Valid() && start < |l.descs| && b.size == 0 && Rem(b.offset, l.page) == 0
    ensures Bind(l, start, b, hw, domain, debug, 0)
         == Outcome(0, SetBits(l.descs, LastIndex(start, 0, |l.descs|), InterruptBits(hw, domain, debug)))
  {
    hide SetBits, InterruptBits, WriteAt;
    assert Chunks(b.sg, 0, b.offset, 0) == [];
    WriteAtNone(l.descs, start);
  }
}
