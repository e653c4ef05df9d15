/** The vDMA descriptor list as a value: what one descriptor word means, how a scatter-gather
    buffer is cut into chunks, and which descriptors each chunk becomes. The methods of
    DescriptorLists update a list in place and are specified by the functions here. */
module Descriptors {
  import opened Bits
  import opened Cyclic
  import opened Results

  const ADDR_L_MASK: nat := 0xFFFF_FFC0
  const DESC_CONTROL: nat := 2
  const DESC_STATUS_REQ: nat := 1
  const DESC_STATUS_REQ_ERR: nat := 2
  const DESC_REQUEST_IRQ_PROCESSED: nat := 4
  const DESC_REQUEST_IRQ_ERR: nat := 8

  /** One hardware descriptor: four u32 words. */
  datatype Desc = Desc(control: nat, addrL: nat, addrH: nat, status: nat)

  /** One DMA-mapped entry of a scatter-gather table. */
  datatype SgEntry = SgEntry(addr: nat, len: nat)

  /** A mapped transfer buffer: `size` bytes at `offset` of a scatter-gather table. */
  datatype Buffer = Buffer(sg: seq<SgEntry>, offset: nat, size: nat, owner: nat)

  /** The interrupts domain bit set: none, device, host or both. */
  datatype Domain = Domain(device: bool, host: bool)

  const NO_DOMAIN := Domain(false, false)

  /** The hardware parameters a descriptor depends on. */
  datatype Hw = Hw(dataId: nat, deviceBits: nat, hostBits: nat, channelTag: nat)

  /** A descriptor list. `mask` is what indices are masked with. */
  datatype List = List(descs: seq<Desc>, mask: nat, page: nat, circular: bool) {
    /** What list creation guarantees of the mask. */
    ghost predicate Masked() {
      && 0 < |descs|
      && IsPow2(mask + 1)
      && (if circular then mask + 1 == |descs| else |descs| <= mask + 1)
    }

    /** A list with pages, and no more than the 64K descriptors the u16 counters can address. */
    ghost predicate Valid() {
      Masked() && |descs| <= TWO_16 && 0 < page < TWO_16
    }
  }

  /** Reprogramming a list keeps its shape. */
  lemma SameShape(l: List, descs: seq<Desc>)
    requires l.Valid() && |descs| == |l.descs|
    ensures l.(descs := descs).Valid() && |l.descs| > 0
  {
  }

  /** The result of a programming call: its return value and the descriptors it leaves. */
  datatype Outcome = Outcome(ret: int, descs: seq<Desc>)

  /** Sizes for which none of the u32 sums of the programming code wraps. */
  predicate FitsU32(size: nat, page: nat) {
    size + page + 2 * TWO_16 <= TWO_32
  }

  // ----- one descriptor -----

  function ControlWord(size: nat): nat {
    (size * 256 + DESC_CONTROL) % TWO_32
  }

  function Programmed(addr: nat, size: nat, dataId: nat): Desc {
    Desc(ControlWord(size), Or(And(addr, ADDR_L_MASK), dataId) % TWO_32, addr / TWO_32 % TWO_32, 0)
  }

  function InterruptBits(hw: Hw, domain: Domain, debug: bool): nat {
    var bits := Or(if domain.device then hw.deviceBits else 0, if domain.host then hw.hostBits else 0);
    if bits == 0 then 0
    else
      var requested := Or(bits, DESC_REQUEST_IRQ_PROCESSED + DESC_REQUEST_IRQ_ERR);
      if debug then Or(requested, DESC_STATUS_REQ + DESC_STATUS_REQ_ERR) else requested
  }

  /** The descriptors with `bits` set in the control word at index i. */
  function SetBits(descs: seq<Desc>, i: nat, bits: nat): (r: seq<Desc>)
    requires i < |descs|
    ensures |r| == |descs|
  {
    descs[i := descs[i].(control := Or(descs[i].control, bits))]
  }

  // ----- one chunk -----

  datatype Chunk = Chunk(addr: nat, size: nat)

  /** The size programmed into the i-th descriptor of a chunk. */
  function DescSize(size: nat, i: nat, page: nat, stride: nat): nat
    requires page > 0
  {
    if i == DivUp(size, page) - 1 && Rem(size, page) != 0 then Rem(size, page) else stride
  }

  /** The address programmed into the i-th descriptor of a chunk. */
  function DescAddr(c: Chunk, i: nat, page: nat, hw: Hw): nat {
    Or(c.addr, hw.channelTag) + i * page
  }

  function ChunkDescs(c: Chunk, page: nat, stride: nat, hw: Hw): (r: seq<Desc>)
    requires page > 0
    ensures |r| == DivUp(c.size, page)
  {
    seq(DivUp(c.size, page), i requires 0 <= i < DivUp(c.size, page) =>
      Programmed(DescAddr(c, i, page, hw), DescSize(c.size, i, page, stride), hw.dataId))
  }

  lemma ChunkDescAt(c: Chunk, i: nat, page: nat, stride: nat, hw: Hw, addr: nat)
    requires page > 0 && i < DivUp(c.size, page)
    requires addr == DescAddr(c, i, page, hw)
    ensures ChunkDescs(c, page, stride, hw)[i] == Programmed(addr, DescSize(c.size, i, page, stride), hw.dataId)
    ensures addr + page == DescAddr(c, i + 1, page, hw)
  {
    MulNext(i, page);
  }

  // ----- a whole buffer -----

  /** The part of an entry, starting at buffer position `at`, that lies at or behind `offset`. */
  function Skip(at: nat, offset: nat): nat {
    if at < offset then offset - at else 0
  }

  /** The non-empty pieces of the table that hold bytes [offset, offset + size), in order;
      `at` is the buffer position of sg[0]. */
  function Chunks(sg: seq<SgEntry>, at: nat, offset: nat, size: nat): (r: seq<Chunk>) {
    if sg == [] || size == 0 then []
    else
      var e, rest := sg[0], sg[1..];
      var skip := Skip(at, offset);
      if e.len <= skip then Chunks(rest, at + e.len, offset, size)
      else
        var n := Min(size, e.len - skip);
        [Chunk(e.addr + skip, n)] + Chunks(rest, at + e.len, offset, size - n)
  }

  lemma {:induction false} ChunksNonEmpty(sg: seq<SgEntry>, at: nat, offset: nat, size: nat)
    ensures forall c | c in Chunks(sg, at, offset, size) :: 0 < c.size <= size
  {
    if sg != [] && size > 0 {
      var skip := Skip(at, offset);
      ChunksNonEmpty(sg[1..], at + sg[0].len, offset,
                     if sg[0].len <= skip then size else size - Min(size, sg[0].len - skip));
    }
  }

  function Total(chunks: seq<Chunk>): nat {
    if chunks == [] then 0 else chunks[0].size + Total(chunks[1..])
  }

  function DescCount(chunks: seq<Chunk>, page: nat): nat
    requires page > 0
  {
    if chunks == [] then 0 else DivUp(chunks[0].size, page) + DescCount(chunks[1..], page)
  }

  function DescsOf(chunks: seq<Chunk>, page: nat, stride: nat, hw: Hw): (r: seq<Desc>)
    requires page > 0
    ensures |r| == DescCount(chunks, page)
  {
    if chunks == [] then []
    else ChunkDescs(chunks[0], page, stride, hw) + DescsOf(chunks[1..], page, stride, hw)
  }

  /** The chunks that are programmed before one no longer fits into `room` descriptors. */
  function Fitting(chunks: seq<Chunk>, room: nat, page: nat): (r: seq<Chunk>)
    requires page > 0
    ensures DescCount(r, page) <= room
  {
    if chunks == [] || DivUp(chunks[0].size, page) > room then []
    else
      var rest := Fitting(chunks[1..], room - DivUp(chunks[0].size, page), page);
      assert ([chunks[0]] + rest)[1..] == rest;
      [chunks[0]] + rest
  }

  lemma {:induction false} FittingAll(chunks: seq<Chunk>, room: nat, page: nat)
    requires page > 0
    ensures Fitting(chunks, room, page) == chunks <==> DescCount(chunks, page) <= room
  {
    if chunks != [] && DivUp(chunks[0].size, page) <= room {
      FittingAll(chunks[1..], room - DivUp(chunks[0].size, page), page);
      var rest := Fitting(chunks[1..], room - DivUp(chunks[0].size, page), page);
      assert Fitting(chunks, room, page)[1..] == rest;
      assert chunks == [chunks[0]] + chunks[1..];
    }
  }

  lemma {:induction false} DescCountConcat(a: seq<Chunk>, b: seq<Chunk>, page: nat)
    requires page > 0
    ensures DescCount(a + b, page) == DescCount(a, page) + DescCount(b, page)
  {
    if a == [] {
      assert a + b == b;
    } else {
      assert (a + b)[1..] == a[1..] + b;
      DescCountConcat(a[1..], b, page);
    }
  }

  lemma {:induction false} DescsOfConcat(a: seq<Chunk>, b: seq<Chunk>, page: nat, stride: nat, hw: Hw)
    requires page > 0
    ensures DescsOf(a + b, page, stride, hw) == DescsOf(a, page, stride, hw) + DescsOf(b, page, stride, hw)
  {
    if a == [] {
      assert a + b == b;
    } else {
      assert (a + b)[1..] == a[1..] + b;
      DescsOfConcat(a[1..], b, page, stride, hw);
    }
  }

  lemma {:induction false} TotalConcat(a: seq<Chunk>, b: seq<Chunk>)
    ensures Total(a + b) == Total(a) + Total(b)
  {
    if a == [] {
      assert a + b == b;
    } else {
      assert (a + b)[1..] == a[1..] + b;
      TotalConcat(a[1..], b);
    }
  }

  /** The first chunk that does not fit ends the run of programmed chunks. */
  lemma {:induction false} FittingStops(a: seq<Chunk>, b: seq<Chunk>, room: nat, page: nat)
    requires page > 0 && b != []
    requires DescCount(a, page) <= room < DescCount(a, page) + DivUp(b[0].size, page)
    ensures Fitting(a + b, room, page) == a
  {
    if a == [] {
      assert a + b == b;
    } else {
      assert (a + b)[1..] == a[1..] + b;
      FittingStops(a[1..], b, room - DivUp(a[0].size, page), page);
      assert a == [a[0]] + a[1..];
    }
  }

  /** The descriptor just before `start + programmed`, in the u32 arithmetic of the code. */
  function LastIndex(start: nat, programmed: nat, n: nat): (r: nat)
    requires n > 0
    ensures r < n
  {
    U32(start + programmed - 1) % n
  }

  /** Descriptors left between `start` and the end of the list (all of them on a circular one). */
  function Room(l: List, start: nat): nat
    requires start < |l.descs|
  {
    if l.circular then |l.descs| else |l.descs| - start
  }

  /** Programming every chunk of the buffer, each descriptor but a chunk's residue covering `stride` bytes. */
  function BindChunks(l: List, start: nat, b: Buffer, stride: nat, hw: Hw): (r: Outcome)
    requires l.Valid() && start < |l.descs|
    ensures |r.descs| == |l.descs|
  {
    var chunks := Chunks(b.sg, 0, b.offset, b.size);
    var fitting := Fitting(chunks, Room(l, start), l.page);
    var ds := DescsOf(fitting, l.page, stride, hw);
    Outcome(if |fitting| < |chunks| then ERANGE else if Total(chunks) < b.size then EFAULT else |ds|,
            WriteAt(l.descs, start, ds))
  }

  /** bind_and_program_descriptors_list. */
  function Bind(l: List, start: nat, b: Buffer, hw: Hw, domain: Domain, debug: bool, stride: nat): (r: Outcome)
    requires l.Valid()
    ensures |r.descs| == |l.descs|
  {
    if Rem(b.offset, l.page) != 0 || start >= |l.descs| then Outcome(EINVAL, l.descs)
    else if Rem(stride, l.page) != 0 && (Rem(b.size, l.page) != 0 || stride > l.page) then Outcome(EINVAL, l.descs)
    else
      var o := BindChunks(l, start, b, if Rem(stride, l.page) == 0 then l.page else stride, hw);
      if o.ret < 0 then o
      else o.(descs := SetBits(o.descs, LastIndex(start, o.ret, |l.descs|), InterruptBits(hw, domain, debug)))
  }

  /** program_last_desc: only the last descriptor of an already bound buffer is touched. */
  function ProgramLast(l: List, start: nat, b: Buffer, hw: Hw, domain: Domain, debug: bool): (r: Outcome)
    requires l.Valid()
    ensures |r.descs| == |l.descs|
  {
    var total := DivUp(b.size, l.page);
    var last := LastIndex(start, total, |l.descs|);
    var size := U32(b.size - (total - 1) * l.page);
    var control := Or(DESC_CONTROL, InterruptBits(hw, domain, debug)) % 256;
    Outcome(total, l.descs[last := l.descs[last].(control := (size * 256 + control) % TWO_32)])
  }

  /** hailo_vdma_program_descriptors_list. */
  function Program(l: List, start: nat, b: Buffer, bind: bool, hw: Hw, domain: Domain, debug: bool, stride: nat)
    : (r: Outcome)
    requires l.Valid()
    ensures |r.descs| == |l.descs|
  {
    if bind then Bind(l, start, b, hw, domain, debug, stride) else ProgramLast(l, start, b, hw, domain, debug)
  }

  /** hailo_vdma_program_descriptors_list_batch: `batch` transfers, one behind the other, `done`
      descriptors having been programmed before. */
  function Batch(l: List, start: nat, b: Buffer, batch: nat, done: nat, bind: bool, hw: Hw, domain: Domain,
                 debug: bool, stride: nat): (r: Outcome)
    requires l.Valid()
    ensures |r.descs| == |l.descs|
    decreases batch
  {
    if batch == 0 then Outcome(done, l.descs)
    else
      var o := Program(l, start, b, bind, hw, if batch == 1 then domain else NO_DOMAIN, debug, stride);
      if o.ret < 0 then o
      else
        var next := if l.circular then U32(start + o.ret) % |l.descs| else U32(start + o.ret);
        Batch(l.(descs := o.descs), next, b.(offset := U32(b.offset + o.ret * l.page)), batch - 1,
              done + o.ret, bind, hw, domain, debug, stride)
  }

  lemma BatchStep(l: List, start: nat, b: Buffer, batch: nat, done: nat, bind: bool, hw: Hw, domain: Domain,
                  debug: bool, stride: nat, o: Outcome)
    requires l.Valid() && batch > 0 && |o.descs| == |l.descs|
    requires o == Program(l, start, b, bind, hw, if batch == 1 then domain else NO_DOMAIN, debug, stride)
    ensures o.ret < 0 ==> Batch(l, start, b, batch, done, bind, hw, domain, debug, stride) == o
    ensures o.ret >= 0 ==>
              Batch(l, start, b, batch, done, bind, hw, domain, debug, stride) ==
              Batch(l.(descs := o.descs), if l.circular then U32(start + o.ret) % |l.descs| else U32(start + o.ret),
                    b.(offset := U32(b.offset + o.ret * l.page)), batch - 1, done + o.ret, bind, hw, domain, debug,
                    stride)
  {
    hide Program;
  }

  lemma BatchEnd(l: List, start: nat, b: Buffer, done: nat, bind: bool, hw: Hw, domain: Domain, debug: bool,
                 stride: nat)
    requires l.Valid()
    ensures Batch(l, start, b, 0, done, bind, hw, domain, debug, stride) == Outcome(done, l.descs)
  {
  }
}
