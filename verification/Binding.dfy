/** What programmed descriptors mean to the hardware: the memory they name, in order, is the part of the
    scatter-gather buffer that was to be programmed. */
module Binding {
  import opened Bits
  import opened Descriptors

  // ----- memory named by tables, chunks and descriptors -----

  /** The byte addresses of a whole table, in buffer order. */
  function TableBytes(sg: seq<SgEntry>): seq<nat> {
    if sg == [] then [] else Addresses(sg[0].addr, sg[0].len) + TableBytes(sg[1..])
  }

  function ChunkBytes(chunks: seq<Chunk>): seq<nat> {
    if chunks == [] then [] else Addresses(chunks[0].addr, chunks[0].size) + ChunkBytes(chunks[1..])
  }

  /** The byte addresses one descriptor names: the address words give the start, the control word the length. */
  function DescBytes(d: Desc): seq<nat> {
    Addresses(d.addrH * TWO_32 + And(d.addrL, ADDR_L_MASK), d.control / 256)
  }

  function DescsBytes(ds: seq<Desc>): seq<nat> {
    if ds == [] then [] else DescBytes(ds[0]) + DescsBytes(ds[1..])
  }

  /** The first `stride` of every `page` bytes; a final partial page is taken whole. */
  function Strided(bytes: seq<nat>, page: nat, stride: nat): seq<nat>
    requires 0 < stride <= page
    decreases |bytes|
  {
    if |bytes| < page then bytes else bytes[..stride] + Strided(bytes[page..], page, stride)
  }

  // ----- the chunks are the requested bytes -----

  lemma AddressesPart(addr: nat, n: nat, k: nat)
    requires k <= n
    ensures Addresses(addr, n)[..k] == Addresses(addr, k)
    ensures Addresses(addr, n)[k..] == Addresses(addr + k, n - k)
  {
  }

  /** `chunks` are the bytes [skip, skip + size) of the table if it holds them, and too few otherwise. */
  ghost predicate Covers(sg: seq<SgEntry>, skip: nat, size: nat, chunks: seq<Chunk>) {
    var bytes := TableBytes(sg);
    if skip + size <= |bytes| then
      Total(chunks) == size && ChunkBytes(chunks) == bytes[skip..skip + size]
    else
      Total(chunks) < size || size == 0
  }

  /** When the table holds them, the chunks are exactly the requested bytes; when it does not, they are too few. */
  lemma {:induction false} ChunksAreTheBytes(sg: seq<SgEntry>, at: nat, offset: nat, size: nat)
    ensures Covers(sg, Skip(at, offset), size, Chunks(sg, at, offset, size))
    decreases |sg|
  {
    var skip := Skip(at, offset);
    if sg == [] || size == 0 {
    } else if sg[0].len <= skip {
      hide Covers;
      ChunksAreTheBytes(sg[1..], at + sg[0].len, offset, size);
      CoversSkip(sg, skip, size, Chunks(sg, at, offset, size));
    } else {
      hide Covers;
      var n := Min(size, sg[0].len - skip);
      ChunksAreTheBytes(sg[1..], at + sg[0].len, offset, size - n);
      CoversTake(sg, skip, size, n, Chunks(sg[1..], at + sg[0].len, offset, size - n));
    }
  }

  lemma CoversSkip(sg: seq<SgEntry>, skip: nat, size: nat, chunks: seq<Chunk>)
    requires sg != [] && sg[0].len <= skip
    requires Covers(sg[1..], skip - sg[0].len, size, chunks)
    ensures Covers(sg, skip, size, chunks)
  {
    SkipBytes(sg, skip, size);
  }

  lemma CoversTake(sg: seq<SgEntry>, skip: nat, size: nat, n: nat, rest: seq<Chunk>)
    requires sg != [] && skip < sg[0].len && n == Min(size, sg[0].len - skip)
    requires Covers(sg[1..], 0, size - n, rest)
    ensures Covers(sg, skip, size, [Chunk(sg[0].addr + skip, n)] + rest)
  {
    hide TableBytes, Addresses;
    TakeBytes(sg, skip, size, n);
    assert ([Chunk(sg[0].addr + skip, n)] + rest)[1..] == rest;
  }

  lemma SkipBytes(sg: seq<SgEntry>, skip: nat, size: nat)
    requires sg != [] && sg[0].len <= skip
    ensures skip + size <= |TableBytes(sg)| <==> skip - sg[0].len + size <= |TableBytes(sg[1..])|
    ensures skip + size <= |TableBytes(sg)| ==>
              TableBytes(sg)[skip..skip + size]
              == TableBytes(sg[1..])[skip - sg[0].len..skip - sg[0].len + size]
  {
    hide Addresses;
    if skip + size <= |TableBytes(sg)| {
      SliceBehind(Addresses(sg[0].addr, sg[0].len), TableBytes(sg[1..]), skip, skip + size);
    }
  }

  lemma SliceBehind(a: seq<nat>, b: seq<nat>, i: nat, j: nat)
    requires |a| <= i <= j <= |a| + |b|
    ensures (a + b)[i..j] == b[i - |a|..j - |a|]
  {
  }

  lemma TakeBytes(sg: seq<SgEntry>, skip: nat, size: nat, n: nat)
    requires sg != [] && skip < sg[0].len && n == Min(size, sg[0].len - skip)
    ensures skip + size <= |TableBytes(sg)| ==>
              && size - n <= |TableBytes(sg[1..])|
              && TableBytes(sg)[skip..skip + size] == Addresses(sg[0].addr + skip, n) + TableBytes(sg[1..])[..size - n]
    ensures skip + size > |TableBytes(sg)| ==> size - n > |TableBytes(sg[1..])|
  {
  }

  // ----- one descriptor -----

  lemma MaskAddrL(x: nat)
    ensures And(x, ADDR_L_MASK) == x % TWO_32 - x % 64
  {
    Pow2Values();
    var q, r := x / 64, x % 64;
    assert x == q * 64 + r;
    AndSplit(q, r, 0x3FF_FFFF, 0, 6);
    AndMask(q, 26);
    MaskedQuotient(x, q, r);
  }

  lemma MaskedQuotient(x: nat, q: nat, r: nat)
    requires x == q * 64 + r && r < 64
    ensures q % 0x400_0000 * 64 == x % TWO_32 - r
    ensures x % 64 == r
  {
    var h, m := q / 0x400_0000, q % 0x400_0000;
    assert q == h * 0x400_0000 + m;
    assert x == h * TWO_32 + (m * 64 + r);
  }

  /** A descriptor with a 24-bit size names exactly the memory it was programmed with if and only if the address
      is 64-byte aligned (or the size is zero): the hardware keeps no address bits below 64. */
  lemma ProgrammedBytes(addr: nat, size: nat, dataId: nat)
    requires addr < TWO_64 && size < 0x100_0000 && dataId < 64
    ensures DescBytes(Programmed(addr, size, dataId)) == Addresses(addr - addr % 64, size)
    ensures DescBytes(Programmed(addr, size, dataId)) == Addresses(addr, size) <==> addr % 64 == 0 || size == 0
  {
    hide And, Or, Addresses;
    ProgrammedAddress(addr, dataId);
    assert (size * 256 + DESC_CONTROL) / 256 == size;
    assert addr / TWO_32 * TWO_32 + addr % TWO_32 == addr;
    AddressesStart(addr - addr % 64, addr, size);
  }

  lemma AddressesStart(a: nat, b: nat, n: nat)
    ensures Addresses(a, n) == Addresses(b, n) <==> a == b || n == 0
  {
    if n > 0 {
      assert Addresses(a, n)[0] == a && Addresses(b, n)[0] == b;
    } else {
      assert Addresses(a, n) == [];
    }
  }

  lemma ProgrammedAddress(addr: nat, dataId: nat)
    requires dataId < 64
    ensures And(Or(And(addr, ADDR_L_MASK), dataId) % TWO_32, ADDR_L_MASK) == addr % TWO_32 - addr % 64
  {
    hide And, Or, Pow2;
    MaskAddrL(addr);
    var low := addr % TWO_32 - addr % 64;
    AlignedLow(addr, low);
    Pow2Values();
    OrDisjoint(low / 64, dataId, 6);
    MaskAddrL(low + dataId);
    AlignedSum(low, dataId);
  }

  /** The other fields of a programmed descriptor: the data id below the address, the control byte, no status. */
  lemma ProgrammedFields(addr: nat, size: nat, dataId: nat)
    requires dataId < 64
    ensures var d := Programmed(addr, size, dataId);
            && d.status == 0
            && d.addrL % 64 == dataId
            && d.control % 256 == 2
  {
    hide And, Or, Pow2;
    MaskAddrL(addr);
    var low := addr % TWO_32 - addr % 64;
    AlignedLow(addr, low);
    Pow2Values();
    OrDisjoint(low / 64, dataId, 6);
    AlignedSum(low, dataId);
    SmallControl(size);
  }

  lemma SmallControl(size: nat)
    ensures (size * 256 + 2) % TWO_32 % 256 == 2
  {
    var q, r := (size * 256 + 2) / TWO_32, (size * 256 + 2) % TWO_32;
    assert r == (size - q * 0x100_0000) * 256 + 2;
    DivModUnique(r, 256, size - q * 0x100_0000, 2);
  }

  lemma AlignedSum(low: nat, d: nat)
    requires low % 64 == 0 && d < 64
    ensures (low + d) % 64 == d
  {
  }

  lemma AlignedLow(addr: nat, low: nat)
    requires low == addr % TWO_32 - addr % 64
    ensures low % 64 == 0 && low / 64 * 64 == low && low + 63 < TWO_32
  {
    var m := addr / 64 % 0x400_0000;
    MaskedQuotient(addr, addr / 64, addr % 64);
    DivModUnique(low, 64, m, 0);
  }

  // ----- one chunk -----

  /** The hardware parameters of this repository's vDMA: no channel tag in addresses, a 6-bit data id, and
      interrupt bits inside the control byte. */
  predicate PlainHw(hw: Hw) {
    hw.channelTag == 0 && hw.dataId < 64 && hw.deviceBits < 256 && hw.hostBits < 256
  }

  /** Memory that 64-bit addresses reach. */
  predicate Addressable(c: Chunk) {
    0 < c.size && c.addr + c.size <= TWO_64
  }

  /** All descriptors of the chunk start on a 64-byte boundary: descriptors keep no address bits below that. */
  predicate Aligned(c: Chunk, page: nat) {
    c.addr % 64 == 0 && (c.size <= page || page % 64 == 0)
  }

  lemma ConcatEqual(a: seq<nat>, b: seq<nat>, x: seq<nat>, y: seq<nat>)
    requires |a| == |x|
    ensures a + b == x + y <==> a == x && b == y
  {
    if a + b == x + y {
      assert a == (a + b)[..|a|] && x == (x + y)[..|a|];
      assert b == (a + b)[|a|..] && y == (x + y)[|a|..];
    }
  }

  lemma SingleDesc(c: Chunk, page: nat, stride: nat, hw: Hw)
    requires page > 0 && 0 < c.size <= page && hw.channelTag == 0
    ensures ChunkDescs(c, page, stride, hw)
         == [Programmed(c.addr, if c.size < page then c.size else stride, hw.dataId)]
  {
    hide Programmed;
    assert Or(c.addr, 0) == c.addr;
    assert Rem(page, page) == 0;
  }

  lemma PeelDesc(c: Chunk, page: nat, stride: nat, hw: Hw)
    requires page > 0 && c.size > page && hw.channelTag == 0
    ensures ChunkDescs(c, page, stride, hw)
         == [Programmed(c.addr, stride, hw.dataId)]
          + ChunkDescs(Chunk(c.addr + page, c.size - page), page, stride, hw)
  {
    hide Programmed, Rem;
    var rest := Chunk(c.addr + page, c.size - page);
    var n := DivUp(c.size, page);
    assert Or(c.addr, 0) == c.addr && Or(rest.addr, 0) == rest.addr;
    PeelSize(c.size, page);
    forall i | 1 <= i < n ensures ChunkDescs(c, page, stride, hw)[i] == ChunkDescs(rest, page, stride, hw)[i - 1] {
      MulNext(i - 1, page);
    }
  }

  lemma PeelSize(size: nat, page: nat)
    requires page > 0 && size > page
    ensures DivUp(size, page) == 1 + DivUp(size - page, page) >= 2
    ensures Rem(size, page) == Rem(size - page, page)
  {
  }

  lemma {:induction false} DescsBytesConcat(a: seq<Desc>, b: seq<Desc>)
    ensures DescsBytes(a + b) == DescsBytes(a) + DescsBytes(b)
  {
    hide DescBytes;
    if a == [] {
      assert a + b == b;
    } else {
      assert (a + b)[1..] == a[1..] + b;
      DescsBytesConcat(a[1..], b);
    }
  }

  /** The descriptors of one chunk name the strided bytes of the chunk if and only if all of them are aligned. */
  lemma {:induction false} ChunkMeaning(c: Chunk, page: nat, stride: nat, hw: Hw)
    requires PlainHw(hw) && Addressable(c) && 0 < stride <= page < TWO_16
    ensures |DescsBytes(ChunkDescs(c, page, stride, hw))| == |Strided(Addresses(c.addr, c.size), page, stride)|
    ensures DescsBytes(ChunkDescs(c, page, stride, hw)) == Strided(Addresses(c.addr, c.size), page, stride)
       <==> Aligned(c, page)
    decreases c.size
  {
    hide ChunkDescs, Programmed, DescBytes, Addresses;
    if c.size <= page {
      SingleDesc(c, page, stride, hw);
      SmallMeaning(c, page, stride, hw.dataId);
    } else {
      var rest := Chunk(c.addr + page, c.size - page);
      PeelDesc(c, page, stride, hw);
      ChunkMeaning(rest, page, stride, hw);
      PageMeaning(c.addr, c.size, page, stride, hw.dataId);
      var first := Programmed(c.addr, stride, hw.dataId);
      assert ([first] + ChunkDescs(rest, page, stride, hw))[1..] == ChunkDescs(rest, page, stride, hw);
      ConcatEqual(DescBytes(first), DescsBytes(ChunkDescs(rest, page, stride, hw)), Addresses(c.addr, stride),
                  Strided(Addresses(c.addr + page, c.size - page), page, stride));
      AlignedNext(c, page);
    }
  }

  lemma AlignedNext(c: Chunk, page: nat)
    requires c.size > page
    ensures Aligned(c, page) <==> c.addr % 64 == 0 && Aligned(Chunk(c.addr + page, c.size - page), page)
  {
  }

  lemma SmallMeaning(c: Chunk, page: nat, stride: nat, dataId: nat)
    requires Addressable(c) && dataId < 64 && c.size <= page && 0 < stride <= page < TWO_16
    ensures var d := [Programmed(c.addr, if c.size < page then c.size else stride, dataId)];
            && |DescsBytes(d)| == |Strided(Addresses(c.addr, c.size), page, stride)|
            && (DescsBytes(d) == Strided(Addresses(c.addr, c.size), page, stride) <==> c.addr % 64 == 0)
  {
    hide Programmed, Addresses;
    var n := if c.size < page then c.size else stride;
    ProgrammedBytes(c.addr, n, dataId);
    AddressesPart(c.addr, c.size, n);
    assert [Programmed(c.addr, n, dataId)][1..] == [];
    assert DescsBytes([Programmed(c.addr, n, dataId)]) == DescBytes(Programmed(c.addr, n, dataId));
    if c.size == page {
      assert Addresses(c.addr, page)[page..] == [];
      assert Strided([], page, stride) == [];
    }
  }

  lemma PageMeaning(addr: nat, n: nat, page: nat, stride: nat, dataId: nat)
    requires addr + n <= TWO_64 && dataId < 64 && 0 < stride <= page < TWO_16 && page < n
    ensures Strided(Addresses(addr, n), page, stride)
         == Addresses(addr, stride) + Strided(Addresses(addr + page, n - page), page, stride)
    ensures |DescBytes(Programmed(addr, stride, dataId))| == stride
    ensures DescBytes(Programmed(addr, stride, dataId)) == Addresses(addr, stride) <==> addr % 64 == 0
  {
    hide Programmed, Addresses;
    ProgrammedBytes(addr, stride, dataId);
    AddressesPart(addr, n, stride);
    AddressesPart(addr, n, page);
  }

  // ----- a whole buffer -----

  function StridedChunks(chunks: seq<Chunk>, page: nat, stride: nat): seq<nat>
    requires 0 < stride <= page
  {
    if chunks == [] then []
    else Strided(Addresses(chunks[0].addr, chunks[0].size), page, stride) + StridedChunks(chunks[1..], page, stride)
  }

  lemma {:induction false} ChunksMeaning(chunks: seq<Chunk>, page: nat, stride: nat, hw: Hw)
    requires PlainHw(hw) && 0 < stride <= page < TWO_16
    requires forall c | c in chunks :: Addressable(c)
    ensures |DescsBytes(DescsOf(chunks, page, stride, hw))| == |StridedChunks(chunks, page, stride)|
    ensures DescsBytes(DescsOf(chunks, page, stride, hw)) == StridedChunks(chunks, page, stride)
       <==> forall c | c in chunks :: Aligned(c, page)
  {
    hide ChunkDescs, Strided, Addresses, DescBytes, Aligned, Addressable;
    if chunks != [] {
      var c, rest := chunks[0], chunks[1..];
      assert c in chunks;
      ChunkMeaning(c, page, stride, hw);
      ChunksMeaning(rest, page, stride, hw);
      DescsBytesConcat(ChunkDescs(c, page, stride, hw), DescsOf(rest, page, stride, hw));
      ConcatEqual(DescsBytes(ChunkDescs(c, page, stride, hw)), DescsBytes(DescsOf(rest, page, stride, hw)),
                  Strided(Addresses(c.addr, c.size), page, stride), StridedChunks(rest, page, stride));
      assert chunks == [c] + rest;
    }
  }

  lemma {:induction false} FullStride(bytes: seq<nat>, page: nat)
    requires page > 0
    ensures Strided(bytes, page, page) == bytes
    decreases |bytes|
  {
    if |bytes| >= page {
      FullStride(bytes[page..], page);
      assert bytes == bytes[..page] + bytes[page..];
    }
  }

  lemma {:induction false} FullStrideChunks(chunks: seq<Chunk>, page: nat)
    requires page > 0
    ensures StridedChunks(chunks, page, page) == ChunkBytes(chunks)
  {
    if chunks != [] {
      hide Addresses, Strided;
      FullStride(Addresses(chunks[0].addr, chunks[0].size), page);
      FullStrideChunks(chunks[1..], page);
    }
  }

  lemma StridedStep(bytes: seq<nat>, page: nat, stride: nat)
    requires 0 < stride <= page <= |bytes|
    ensures Strided(bytes, page, stride) == bytes[..stride] + Strided(bytes[page..], page, stride)
  {
  }

  lemma StridedNone(page: nat, stride: nat)
    requires 0 < stride <= page
    ensures Strided([], page, stride) == []
  {
  }

  lemma WholePage(n: nat, page: nat)
    requires page > 0 && n > 0 && Rem(n, page) == 0
    ensures n >= page && Rem(n - page, page) == 0
  {
  }

  lemma {:induction false} StridedConcat(a: seq<nat>, b: seq<nat>, page: nat, stride: nat)
    requires 0 < stride <= page && Rem(|a|, page) == 0
    ensures Strided(a + b, page, stride) == Strided(a, page, stride) + Strided(b, page, stride)
    decreases |a|
  {
    hide Strided, Rem;
    if a == [] {
      StridedNone(page, stride);
      assert a + b == b;
    } else {
      WholePage(|a|, page);
      StridedStep(a, page, stride);
      StridedStep(a + b, page, stride);
      DropFront(a, b, page, stride);
      StridedConcat(a[page..], b, page, stride);
    }
  }

  lemma DropFront(a: seq<nat>, b: seq<nat>, page: nat, stride: nat)
    requires stride <= page <= |a|
    ensures (a + b)[page..] == a[page..] + b && (a + b)[..stride] == a[..stride]
  {
  }

  /** Striding chunk by chunk is striding the whole buffer when chunks end on page boundaries. */
  lemma {:induction false} StridedWhole(chunks: seq<Chunk>, page: nat, stride: nat)
    requires 0 < stride <= page
    requires forall c | c in chunks :: Rem(c.size, page) == 0
    ensures StridedChunks(chunks, page, stride) == Strided(ChunkBytes(chunks), page, stride)
  {
    if chunks != [] {
      hide Addresses;
      StridedWhole(chunks[1..], page, stride);
      StridedConcat(Addresses(chunks[0].addr, chunks[0].size), ChunkBytes(chunks[1..]), page, stride);
    }
  }

  /** The whole pages in n bytes. */
  function FullPages(n: nat, page: nat): nat
    requires page > 0
  {
    if n < page then 0 else 1 + FullPages(n - page, page)
  }

  function ChunkPages(chunks: seq<Chunk>, page: nat): nat
    requires page > 0
  {
    if chunks == [] then 0 else FullPages(chunks[0].size, page) + ChunkPages(chunks[1..], page)
  }

  lemma {:induction false} StridedLength(bytes: seq<nat>, page: nat, stride: nat)
    requires 0 < stride <= page
    ensures |Strided(bytes, page, stride)| == |bytes| - FullPages(|bytes|, page) * (page - stride)
    decreases |bytes|
  {
    if |bytes| >= page {
      StridedLength(bytes[page..], page, stride);
      MulNext(FullPages(|bytes| - page, page), page - stride);
    }
  }

  lemma {:induction false} StridedChunksLength(chunks: seq<Chunk>, page: nat, stride: nat)
    requires 0 < stride <= page
    ensures |StridedChunks(chunks, page, stride)| == Total(chunks) - ChunkPages(chunks, page) * (page - stride)
    ensures |ChunkBytes(chunks)| == Total(chunks)
  {
    if chunks != [] {
      hide Strided;
      StridedLength(Addresses(chunks[0].addr, chunks[0].size), page, stride);
      StridedChunksLength(chunks[1..], page, stride);
      MulDistribute(FullPages(chunks[0].size, page), ChunkPages(chunks[1..], page), page - stride);
    }
  }

  /** Cutting bytes in two loses a whole page if the cut is inside one and the end is not. */
  lemma {:induction false} CutPages(a: nat, b: nat, page: nat)
    requires page > 0
    ensures FullPages(a, page) + FullPages(b, page) <= FullPages(a + b, page)
    ensures Rem(a, page) == 0 ==> FullPages(a, page) + FullPages(b, page) == FullPages(a + b, page)
    ensures Rem(a, page) == 0 ==> Rem(a + b, page) == Rem(b, page)
    ensures Rem(a, page) != 0 && Rem(a + b, page) == 0 ==>
              FullPages(a, page) + FullPages(b, page) < FullPages(a + b, page)
    decreases a + b
  {
    if a >= page {
      CutPages(a - page, b, page);
      assert a - page + b == a + b - page;
    } else if b >= page {
      CutPages(a, b - page, page);
      assert a + (b - page) == a + b - page;
    } else if a + b >= page {
      assert Rem(a + b, page) == Rem(a + b - page, page) == a + b - page;
    }
  }

  /** Cut into chunks, bytes that end on a page boundary keep all their pages exactly if every chunk ends on one. */
  lemma {:induction false} ChunkPagesIff(chunks: seq<Chunk>, page: nat)
    requires page > 0
    ensures ChunkPages(chunks, page) <= FullPages(Total(chunks), page)
    ensures Rem(Total(chunks), page) == 0 ==>
              (ChunkPages(chunks, page) == FullPages(Total(chunks), page)
               <==> forall c | c in chunks :: Rem(c.size, page) == 0)
  {
    if chunks != [] {
      hide Rem, FullPages;
      CutPages(chunks[0].size, Total(chunks[1..]), page);
      ChunkPagesIff(chunks[1..], page);
      assert chunks == [chunks[0]] + chunks[1..];
    } else {
      assert FullPages(0, page) == 0;
    }
  }

  /** Striding chunk by chunk is striding the whole buffer exactly when chunks end on page boundaries. */
  lemma StridedIff(chunks: seq<Chunk>, page: nat, stride: nat)
    requires 0 < stride < page && Rem(Total(chunks), page) == 0
    ensures StridedChunks(chunks, page, stride) == Strided(ChunkBytes(chunks), page, stride)
       <==> forall c | c in chunks :: Rem(c.size, page) == 0
    ensures |StridedChunks(chunks, page, stride)| == |Strided(ChunkBytes(chunks), page, stride)|
       <==> forall c | c in chunks :: Rem(c.size, page) == 0
  {
    hide Strided, StridedChunks, ChunkBytes, Rem, FullPages, ChunkPages;
    if forall c | c in chunks :: Rem(c.size, page) == 0 {
      StridedWhole(chunks, page, stride);
    } else {
      ChunkPagesIff(chunks, page);
      StridedChunksLength(chunks, page, stride);
      StridedLength(ChunkBytes(chunks), page, stride);
      MulMonotone(ChunkPages(chunks, page) + 1, FullPages(Total(chunks), page), page - stride);
      MulNext(ChunkPages(chunks, page), page - stride);
    }
  }

  /** Bytes of the right number that are the strided chunks under a condition are the strided buffer exactly when,
      besides, chunks end on page boundaries. */
  lemma NamedStrided(named: seq<nat>, chunks: seq<Chunk>, page: nat, stride: nat)
    requires 0 < stride < page && Rem(Total(chunks), page) == 0
    requires |named| == |StridedChunks(chunks, page, stride)|
    requires named == StridedChunks(chunks, page, stride) <==> forall c | c in chunks :: Aligned(c, page)
    ensures named == Strided(ChunkBytes(chunks), page, stride)
       <==> forall c | c in chunks :: Aligned(c, page) && Rem(c.size, page) == 0
  {
    hide Strided, StridedChunks, ChunkBytes, Rem, Aligned;
    StridedIff(chunks, page, stride);
  }
}
