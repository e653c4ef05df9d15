/** The descriptor list in memory, and the routines that program it in place. */
module DescriptorLists {
  import opened Bits
  import opened Cyclic
  import opened Descriptors
  import opened Results

  datatype Created = Created(list: DescriptorsList) | Rejected(error: int)

  class DescriptorsList {
    const descs: array<Desc>
    const mask: nat
    const page: nat
    const circular: bool

    constructor (descs: array<Desc>, mask: nat, page: nat, circular: bool)
      ensures this.descs == descs && this.mask == mask && this.page == page && this.circular == circular
    {
      this.descs, this.mask, this.page, this.circular := descs, mask, page, circular;
    }

    function View(): (l: List)
      reads descs
      ensures l == List(descs[..], mask, page, circular)
    {
      List(descs[..], mask, page, circular)
    }
  }

  /** On a list that creation accepts, masking an index gives its position: the remainder modulo the
      count on a circular list, the index itself below the count otherwise. */
  lemma MaskIsPosition(l: List, index: nat)
    requires l.Masked()
    ensures l.circular ==> And(index, l.mask) == index % |l.descs|
    ensures index < |l.descs| ==> And(index, l.mask) == index
  {
    var k: nat :| l.mask + 1 == Pow2(k);
    AndMask(index, k);
    if index < |l.descs| {
      DivModUnique(index, l.mask + 1, 0, index);
    }
  }

  lemma MaskWraps(l: List, index: nat)
    requires l.Valid()
    requires index < |l.descs| || (l.circular && index < 2 * |l.descs|)
    ensures And(index, l.mask) == Wrap(index, |l.descs|)
  {
    MaskIsPosition(l, index);
    if l.circular {
      WrapIsMod(index, |l.descs|);
    }
  }

  /** hailo_vdma_program_descriptor on the next descriptor of a run of writes. */
  method Store(list: DescriptorsList, ghost before: seq<Desc>, start: nat, index: nat, ghost ds: seq<Desc>, d: Desc)
    requires list.View().Valid() && |before| == list.descs.Length
    requires start <= index < start + |ds| && |ds| <= |before| && start < 2 * |before|
    requires if list.circular then start + |ds| <= 2 * |before| else start + |ds| <= |before|
    requires d == ds[index - start]
    requires list.descs[..] == WriteAt(before, Wrap(start, |before|), ds[..index - start])
    modifies list.descs
    ensures list.descs[..] == WriteAt(before, Wrap(start, |before|), ds[..index - start + 1])
  {
    WriteNext(list.View(), before, start, index, ds);
    list.descs[And(index, list.mask)] := d;
  }

  /** hailo_vdma_program_descriptors_in_chunk. `start` counts on behind the end of a circular list. */
  method ProgramChunk(list: DescriptorsList, c: Chunk, start: nat, maxIndex: nat, stride: nat, hw: Hw)
    returns (ret: int)
    requires list.View().Valid() && c.size > 0 && FitsU32(c.size, list.page)
    requires start <= maxIndex + 1 <= 2 * list.descs.Length
    requires list.circular || maxIndex < list.descs.Length
    requires maxIndex + 1 <= start + list.descs.Length && start < 2 * list.descs.Length
    modifies list.descs
    ensures start + DivUp(c.size, list.page) > maxIndex + 1 ==>
              ret == ERANGE && list.descs[..] == old(list.descs[..])
    ensures start + DivUp(c.size, list.page) <= maxIndex + 1 ==>
              && ret == DivUp(c.size, list.page) <= list.descs.Length
              && list.descs[..] == WriteAt(old(list.descs[..]), Wrap(start, list.descs.Length),
                                           ChunkDescs(c, list.page, stride, hw))
  {
    hide WriteAt, IsPow2, Programmed, Rem, DivUp, ChunkDescs;
    var residue := Rem(c.size, list.page);
    var toProgram := DivUp(c.size, list.page);
    if start + toProgram > maxIndex + 1 {
      return ERANGE;
    }
    DivUpBounds(c.size, list.page);
    ghost var first := Wrap(start, list.descs.Length);
    ghost var before := list.descs[..];
    ghost var ds := ChunkDescs(c, list.page, stride, hw);
    WriteAtNone(before, first);
    var last := start + toProgram - 1;
    var index := start;
    var addr := Or(c.addr, hw.channelTag);
    while index < last
      invariant start <= index <= last
      invariant addr == DescAddr(c, index - start, list.page, hw)
      invariant list.descs[..] == WriteAt(before, first, ds[..index - start])
    {
      ChunkDescAt(c, index - start, list.page, stride, hw, addr);
      Store(list, before, start, index, ds, Programmed(addr, stride, hw.dataId));
      addr := addr + list.page;
      index := index + 1;
    }
    ChunkDescAt(c, index - start, list.page, stride, hw, addr);
    Store(list, before, start, index, ds,
          Programmed(addr, if residue == 0 then stride else residue, hw.dataId));
    assert ds[..toProgram] == ds;
    return toProgram;
  }

  /** One more descriptor written behind those written so far. */
  lemma WriteNext(l: List, before: seq<Desc>, start: nat, index: nat, ds: seq<Desc>)
    requires l.Valid() && |before| == |l.descs|
    requires start <= index < start + |ds| && |ds| <= |l.descs| && start < 2 * |l.descs|
    requires if l.circular then start + |ds| <= 2 * |l.descs| else start + |ds| <= |l.descs|
    ensures And(index, l.mask) < |l.descs|
    ensures WriteAt(before, Wrap(start, |before|), ds[..index - start + 1])
         == WriteAt(before, Wrap(start, |before|), ds[..index - start])[And(index, l.mask) := ds[index - start]]
  {
    MaskWraps(l, index);
    var i := index - start;
    assert ds[..i + 1] == ds[..i] + [ds[i]];
    WriteAtAppend(before, Wrap(start, |before|), ds[..i], ds[i]);
    assert Wrap(Wrap(start, |before|) + i, |before|) == Wrap(index, |before|);
  }

  /** Where the walk over a scatter-gather table stands: `done` are the chunks already programmed, the
      entries from sg[i] on start at buffer position `at` and still owe `remaining` bytes. */
  ghost predicate Walk(b: Buffer, i: nat, at: nat, remaining: nat, done: seq<Chunk>) {
    && i <= |b.sg|
    && Chunks(b.sg, 0, b.offset, b.size) == done + Chunks(b.sg[i..], at, b.offset, remaining)
    && Total(done) + remaining == b.size
  }

  lemma WalkStart(b: Buffer)
    ensures Walk(b, 0, 0, b.size, [])
  {
    assert b.sg[0..] == b.sg;
    assert [] + Chunks(b.sg, 0, b.offset, b.size) == Chunks(b.sg, 0, b.offset, b.size);
  }

  lemma WalkSkip(b: Buffer, i: nat, at: nat, remaining: nat, done: seq<Chunk>)
    requires Walk(b, i, at, remaining, done) && i < |b.sg|
    requires b.sg[i].len <= Skip(at, b.offset)
    ensures Walk(b, i + 1, at + b.sg[i].len, remaining, done)
  {
    assert b.sg[i..][1..] == b.sg[i + 1..];
  }

  lemma WalkTake(b: Buffer, i: nat, at: nat, remaining: nat, done: seq<Chunk>, c: Chunk)
    requires Walk(b, i, at, remaining, done) && i < |b.sg| && remaining > 0
    requires b.sg[i].len > Skip(at, b.offset)
    requires c == Chunk(b.sg[i].addr + Skip(at, b.offset), Min(remaining, b.sg[i].len - Skip(at, b.offset)))
    ensures 0 < c.size <= remaining <= b.size
    ensures Walk(b, i + 1, at + b.sg[i].len, remaining - c.size, done + [c])
  {
    assert b.sg[i..][1..] == b.sg[i + 1..];
    TotalConcat(done, [c]);
    var rest := Chunks(b.sg[i + 1..], at + b.sg[i].len, b.offset, remaining - c.size);
    assert done + ([c] + rest) == done + [c] + rest;
  }

  /** The programmed prefix grows by one chunk, and so do the descriptors. */
  lemma GrowDone(done: seq<Chunk>, c: Chunk, page: nat, stride: nat, hw: Hw)
    requires page > 0
    ensures DescCount(done + [c], page) == DescCount(done, page) + DivUp(c.size, page)
    ensures DescsOf(done + [c], page, stride, hw) == DescsOf(done, page, stride, hw) + ChunkDescs(c, page, stride, hw)
  {
    DescCountConcat(done, [c], page);
    DescsOfConcat(done, [c], page, stride, hw);
    assert [c][1..] == [];
    assert DescsOf([c], page, stride, hw) == ChunkDescs(c, page, stride, hw);
  }

  lemma GrowWritten(before: seq<Desc>, first: seq<Desc>, second: seq<Desc>, start: nat, done: seq<Chunk>, c: Chunk,
                    page: nat, stride: nat, hw: Hw)
    requires page > 0 && start < |before| && DescCount(done, page) + DivUp(c.size, page) <= |before|
    requires first == WriteAt(before, start, DescsOf(done, page, stride, hw))
    requires second == WriteAt(first, Wrap(start + DescCount(done, page), |before|), ChunkDescs(c, page, stride, hw))
    ensures DescCount(done + [c], page) == DescCount(done, page) + DivUp(c.size, page)
    ensures second == WriteAt(before, start, DescsOf(done + [c], page, stride, hw))
  {
    GrowDone(done, c, page, stride, hw);
    WriteAtConcat(before, start, DescsOf(done, page, stride, hw), ChunkDescs(c, page, stride, hw));
  }

  /** Programs the next chunk behind those of `done`. */
  method ProgramNext(list: DescriptorsList, ghost before: seq<Desc>, start: nat, programmed: nat,
                     ghost done: seq<Chunk>, c: Chunk, stride: nat, hw: Hw)
    returns (ret: int)
    requires list.View().Valid() && |before| == list.descs.Length && start < |before|
    requires c.size > 0 && FitsU32(c.size, list.page)
    requires programmed == DescCount(done, list.page) <= Room(list.View(), start)
    requires list.descs[..] == WriteAt(before, start, DescsOf(done, list.page, stride, hw))
    modifies list.descs
    ensures programmed + DivUp(c.size, list.page) > Room(list.View(), start) ==>
              ret == ERANGE && list.descs[..] == old(list.descs[..])
    ensures programmed + DivUp(c.size, list.page) <= Room(list.View(), start) ==>
              && ret == DivUp(c.size, list.page)
              && programmed + ret == DescCount(done + [c], list.page)
              && list.descs[..] == WriteAt(before, start, DescsOf(done + [c], list.page, stride, hw))
  {
    hide WriteAt, DescsOf, ChunkDescs, IsPow2, DivUp;
    var maxIndex := if list.circular then start + list.descs.Length - 1 else list.descs.Length - 1;
    ghost var first := list.descs[..];
    ret := ProgramChunk(list, c, start + programmed, maxIndex, stride, hw);
    if ret >= 0 {
      GrowWritten(before, first, list.descs[..], start, done, c, list.page, stride, hw);
    }
  }

  lemma WalkStuck(l: List, start: nat, b: Buffer, stride: nat, hw: Hw, i: nat, at: nat, remaining: nat,
                  done: seq<Chunk>, c: Chunk)
    requires l.Valid() && start < |l.descs|
    requires Walk(b, i, at, remaining, done) && i < |b.sg| && remaining > 0
    requires b.sg[i].len > Skip(at, b.offset)
    requires c == Chunk(b.sg[i].addr + Skip(at, b.offset), Min(remaining, b.sg[i].len - Skip(at, b.offset)))
    requires DescCount(done, l.page) <= Room(l, start) < DescCount(done, l.page) + DivUp(c.size, l.page)
    ensures BindChunks(l, start, b, stride, hw)
         == Outcome(ERANGE, WriteAt(l.descs, start, DescsOf(done, l.page, stride, hw)))
  {
    hide WriteAt, DescsOf;
    FittingStops(done, Chunks(b.sg[i..], at, b.offset, remaining), Room(l, start), l.page);
  }

  lemma WalkEnd(l: List, start: nat, b: Buffer, stride: nat, hw: Hw, i: nat, at: nat, remaining: nat, done: seq<Chunk>)
    requires l.Valid() && start < |l.descs|
    requires Walk(b, i, at, remaining, done) && (i == |b.sg| || remaining == 0)
    requires DescCount(done, l.page) <= Room(l, start)
    ensures BindChunks(l, start, b, stride, hw)
         == Outcome(if remaining != 0 then EFAULT else DescCount(done, l.page),
                    WriteAt(l.descs, start, DescsOf(done, l.page, stride, hw)))
  {
    WalkOver(b, i, at, remaining, done);
    FittingAll(done, Room(l, start), l.page);
  }

  lemma WalkOver(b: Buffer, i: nat, at: nat, remaining: nat, done: seq<Chunk>)
    requires Walk(b, i, at, remaining, done) && (i == |b.sg| || remaining == 0)
    ensures Chunks(b.sg, 0, b.offset, b.size) == done
  {
    assert b.sg[|b.sg|..] == [];
    assert Chunks(b.sg[i..], at, b.offset, remaining) == [];
    assert done + [] == done;
  }

  /** One scatter-gather entry: skipped, or cut to a chunk of `taken` bytes and programmed. */
  method ProgramEntry(list: DescriptorsList, ghost l: List, start: nat, b: Buffer, stride: nat, hw: Hw, i: nat, at: nat,
                      remaining: nat, programmed: nat, ghost done: seq<Chunk>)
    returns (ret: int, taken: nat, ghost done': seq<Chunk>)
    requires list.View() == l.(descs := list.descs[..]) && list.View().Valid() && l.Valid()
    requires FitsU32(b.size, list.page) && start < list.descs.Length == |l.descs|
    requires Walk(b, i, at, remaining, done) && i < |b.sg| && remaining > 0
    requires programmed == DescCount(done, l.page) <= Room(l, start)
    requires list.descs[..] == WriteAt(l.descs, start, DescsOf(done, l.page, stride, hw))
    modifies list.descs
    ensures ret < 0 ==> Outcome(ret, list.descs[..]) == BindChunks(l, start, b, stride, hw)
    ensures ret >= 0 ==>
              && taken <= remaining
              && Walk(b, i + 1, at + b.sg[i].len, remaining - taken, done')
              && programmed + ret == DescCount(done', l.page) <= Room(l, start)
              && list.descs[..] == WriteAt(l.descs, start, DescsOf(done', l.page, stride, hw))
  {
    hide Walk, Chunks, BindChunks, WriteAt, DescsOf;
    var skip := Skip(at, b.offset);
    if b.sg[i].len <= skip {
      WalkSkip(b, i, at, remaining, done);
      return 0, 0, done;
    }
    var c := Chunk(b.sg[i].addr + skip, Min(remaining, b.sg[i].len - skip));
    WalkTake(b, i, at, remaining, done, c);
    ret := ProgramNext(list, l.descs, start, programmed, done, c, stride, hw);
    taken, done' := c.size, done + [c];
    if ret < 0 {
      WalkStuck(l, start, b, stride, hw, i, at, remaining, done, c);
    }
  }

  /** The walk over the scatter-gather entries. */
  method ProgramWalk(list: DescriptorsList, start: nat, b: Buffer, stride: nat, hw: Hw) returns (ret: int)
    requires list.View().Valid() && FitsU32(b.size, list.page) && start < list.descs.Length
    modifies list.descs
    ensures Outcome(ret, list.descs[..]) == BindChunks(old(list.View()), start, b, stride, hw)
  {
    hide Walk, Chunks, BindChunks;
    ghost var l := list.View();
    ghost var done: seq<Chunk> := [];
    var programmed: nat, remaining: nat, at: nat, i: nat := 0, b.size, 0, 0;
    WalkStart(b);
    WriteAtNone(l.descs, start);
    while i < |b.sg| && remaining != 0
      invariant i <= |b.sg|
      invariant Walk(b, i, at, remaining, done)
      invariant programmed == DescCount(done, l.page) <= Room(l, start)
      invariant list.descs[..] == WriteAt(l.descs, start, DescsOf(done, l.page, stride, hw))
    {
      var taken: nat;
      ret, taken, done := ProgramEntry(list, l, start, b, stride, hw, i, at, remaining, programmed, done);
      if ret < 0 {
        return;
      }
      programmed, remaining := programmed + ret, remaining - taken;
      at, i := at + b.sg[i].len, i + 1;
    }
    WalkEnd(l, start, b, stride, hw, i, at, remaining, done);
    return if remaining != 0 then EFAULT else programmed;
  }

  /** bind_and_program_descriptors_list. */
  method BindAndProgram(list: DescriptorsList, start: nat, b: Buffer, hw: Hw, domain: Domain, debug: bool, stride: nat)
    returns (ret: int)
    requires list.View().Valid() && FitsU32(b.size, list.page)
    modifies list.descs
    ensures Outcome(ret, list.descs[..]) == Bind(old(list.View()), start, b, hw, domain, debug, stride)
  {
    if Rem(b.offset, list.page) != 0 || start >= list.descs.Length {
      return EINVAL;
    }
    var step := stride;
    if Rem(stride, list.page) == 0 {
      step := list.page;
    } else if Rem(b.size, list.page) != 0 {
      return EINVAL;
    } else if stride > list.page {
      return EINVAL;
    }
    ret := ProgramWalk(list, start, b, step, hw);
    if ret >= 0 {
      var last := LastIndex(start, ret, list.descs.Length);
      list.descs[last] := list.descs[last].(control := Or(list.descs[last].control, InterruptBits(hw, domain, debug)));
    }
  }

  /** program_last_desc. */
  method ProgramLastDesc(list: DescriptorsList, start: nat, b: Buffer, hw: Hw, domain: Domain, debug: bool)
    returns (ret: int)
    requires list.View().Valid() && FitsU32(b.size, list.page)
    modifies list.descs
    ensures Outcome(ret, list.descs[..]) == ProgramLast(old(list.View()), start, b, hw, domain, debug)
  {
    var control := Or(DESC_CONTROL, InterruptBits(hw, domain, debug)) % 256;
    var total := DivUp(b.size, list.page);
    var last := LastIndex(start, total, list.descs.Length);
    var size := U32(b.size - (total - 1) * list.page);
    list.descs[last] := list.descs[last].(control := (size * 256 + control) % TWO_32);
    return total;
  }

  /** hailo_vdma_program_descriptors_list. */
  method ProgramList(list: DescriptorsList, start: nat, b: Buffer, bind: bool, hw: Hw, domain: Domain, debug: bool,
                     stride: nat)
    returns (ret: int)
    requires list.View().Valid() && FitsU32(b.size, list.page)
    modifies list.descs
    ensures Outcome(ret, list.descs[..]) == Program(old(list.View()), start, b, bind, hw, domain, debug, stride)
  {
    if bind {
      ret := BindAndProgram(list, start, b, hw, domain, debug, stride);
    } else {
      ret := ProgramLastDesc(list, start, b, hw, domain, debug);
    }
  }

  /** hailo_vdma_program_descriptors_list_batch. */
  method ProgramBatch(list: DescriptorsList, start: nat, b: Buffer, batch: nat, bind: bool, hw: Hw, domain: Domain,
                      debug: bool, stride: nat)
    returns (ret: int)
    requires list.View().Valid() && FitsU32(b.size, list.page)
    modifies list.descs
    ensures Outcome(ret, list.descs[..]) == Batch(old(list.View()), start, b, batch, 0, bind, hw, domain, debug, stride)
  {
    hide Program, Batch;
    var left: nat, at: nat, transfer, total: nat := batch, start, b, 0;
    ghost var outcome := Batch(list.View(), start, b, batch, 0, bind, hw, domain, debug, stride);
    while left > 0
      invariant transfer.size == b.size
      invariant outcome == Batch(list.View(), at, transfer, left, total, bind, hw, domain, debug, stride)
    {
      ghost var l := list.View();
      var n := ProgramList(list, at, transfer, bind, hw, if left == 1 then domain else NO_DOMAIN, debug, stride);
      BatchStep(l, at, transfer, left, total, bind, hw, domain, debug, stride, Outcome(n, list.descs[..]));
      if n < 0 {
        return n;
      }
      left := left - 1;
      transfer := transfer.(offset := U32(transfer.offset + n * list.page));
      at := U32(at + n);
      if list.circular {
        at := at % list.descs.Length;
      }
      total := total + n;
    }
    BatchEnd(list.View(), at, transfer, total, bind, hw, domain, debug, stride);
    return total;
  }

  /** hailo_desc_list_create_ioctl and hailo_desc_list_create: the checks on the requested geometry, then
      the list. `memory` is what the allocator hands out, if anything; it is not cleared. */
  method CreateList(descCount: nat, page: nat, circular: bool, memory: array?<Desc>) returns (r: Created)
    requires descCount < TWO_64 && page < TWO_16
    requires memory != null ==> memory.Length == U32(descCount)
    ensures r.Created? <==>
              && (circular ==> descCount == 0 || IsPow2(descCount))
              && (page == 0 || IsPow2(page))
              && U32(descCount) <= MAX_POWER_OF_2_VALUE
              && memory != null
    ensures r.Rejected? ==>
              r.error == if (circular ==> descCount == 0 || IsPow2(descCount)) && (page == 0 || IsPow2(page))
                            && U32(descCount) <= MAX_POWER_OF_2_VALUE then ENOBUFS else EINVAL
    ensures r.Created? && !circular ==>
              forall p: nat :: IsPow2(p) && memory.Length <= p ==> r.list.mask + 1 <= p
    ensures r.Created? && circular && memory.Length == 0 ==> r.list.mask == 0xFFFF_FFFF
    ensures r.Created? ==> r.list.descs == memory && r.list.page == page && r.list.circular == circular
    ensures r.Created? && memory.Length > 0 ==> r.list.View().Masked()
    ensures r.Created? && page > 0 && 0 < memory.Length <= TWO_16 ==> r.list.View().Valid()
  {
    hide IsPow2, IsPowerOf2, And;
    IsPowerOf2Exact(descCount);
    IsPowerOf2Exact(page);
    if circular && !IsPowerOf2(descCount) {
      return Rejected(EINVAL);
    }
    if !IsPowerOf2(page) {
      return Rejected(EINVAL);
    }
    var count := U32(descCount);
    if MAX_POWER_OF_2_VALUE < count {
      return Rejected(EINVAL);
    }
    if memory == null {
      return Rejected(ENOBUFS);
    }
    var nearest := NearestPowerOf2(count);
    if circular && count > 0 {
      SmallPower(descCount);
    }
    var list := new DescriptorsList(memory, if circular then U32(count as int - 1) else nearest - 1, page, circular);
    return Created(list);
  }

  /** A power of two that survives truncation to u32 was below 2^32. */
  lemma SmallPower(v: nat)
    requires IsPow2(v) && U32(v) > 0
    ensures v < TWO_32
  {
    var k: nat :| v == Pow2(k);
    Pow2Values();
    if k >= 32 {
      Pow2Add(32, k - 32);
      DivModUnique(v, TWO_32, Pow2(k - 32), 0);
    } else {
      Pow2Monotone(k, 31);
    }
  }
}
