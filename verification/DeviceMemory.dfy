/** Device memory through the 4 KiB window that the bridge's address translation table (ATR) positions. */
module DeviceMemory {
  import opened Bits
  import opened Mmio
  import opened Resources

  const ATR_PARAM: nat := 0x17
  const ATR_SRC_ADDR: nat := 0
  const ATR_TRSL_PARAM: nat := 6
  const ATR_TABLE_SIZE: nat := 0x1000
  const ATR_BASE_MASK: nat := 0xFFFF_F000
  const ATR0_OFFSET: nat := 0x700
  const ATR_BYTES: nat := 20

  // ----- which accesses a copy consists of -----

  /** One chunk: `len` bytes at `offset` of the window positioned at `base`. */
  datatype Access = Access(base: nat, offset: nat, len: nat)

  /** The loop of write_memory and read_memory from `done` on. */
  function Pages(addr: nat, done: nat, len: nat): seq<Access>
    decreases len - done
  {
    if done >= len then []
    else
      var n := Min(len - done, ATR_TABLE_SIZE);
      [Access(addr + done, 0, n)] + Pages(addr, done + n, len)
  }

  /** The window base of an unaligned first chunk; the mask is a u32, so it also drops the upper half of addr. */
  function HeadBase(addr: nat): nat {
    And(addr, ATR_BASE_MASK)
  }

  function HeadLen(addr: nat, len: nat): nat {
    Min(U32(HeadBase(addr) + ATR_TABLE_SIZE - addr), len)
  }

  /** All accesses of a copy of len bytes at addr. */
  function Plan(addr: nat, len: nat): seq<Access> {
    if HeadBase(addr) != addr then
      [Access(HeadBase(addr), U32(addr - HeadBase(addr)), HeadLen(addr, len))] + Pages(addr, HeadLen(addr, len), len)
    else Pages(addr, 0, len)
  }

  /** The byte addresses an access plan touches, in order. */
  function Touches(plan: seq<Access>): seq<nat> {
    if plan == [] then []
    else Addresses(plan[0].base + plan[0].offset, plan[0].len) + Touches(plan[1..])
  }

  /** Every access stays in a window on a 4 KiB boundary, and in a memory of `size` bytes. */
  predicate Windowed(plan: seq<Access>, size: nat) {
    forall a | a in plan ::
      a.base % ATR_TABLE_SIZE == 0 && a.offset + a.len <= ATR_TABLE_SIZE && a.base + a.offset + a.len <= size
  }

  lemma AddressesSplit(addr: nat, n: nat, k: nat)
    requires k <= n
    ensures Addresses(addr, n) == Addresses(addr, k) + Addresses(addr + k, n - k)
  {
  }

  lemma {:induction false} PagesTouch(addr: nat, done: nat, len: nat)
    requires done <= len
    ensures Touches(Pages(addr, done, len)) == Addresses(addr + done, len - done)
    decreases len - done
  {
    hide Addresses;
    if done < len {
      var n := Min(len - done, ATR_TABLE_SIZE);
      PagesTouch(addr, done + n, len);
      AddressesSplit(addr + done, len - done, n);
      var a := Access(addr + done, 0, n);
      assert ([a] + Pages(addr, done + n, len))[1..] == Pages(addr, done + n, len);
    } else {
      assert |Addresses(addr + done, 0)| == 0;
    }
  }

  lemma {:induction false} PagesWindowed(addr: nat, done: nat, len: nat, size: nat)
    requires done <= len && (addr + done) % ATR_TABLE_SIZE == 0 && addr + len <= size
    ensures Windowed(Pages(addr, done, len), size)
    decreases len - done
  {
    if done < len {
      var n := Min(len - done, ATR_TABLE_SIZE);
      if done + n < len {
        PagesWindowed(addr, done + n, len, size);
      } else {
        assert Pages(addr, done + n, len) == [];
      }
    }
  }

  lemma HeadBaseValue(addr: nat)
    ensures HeadBase(addr) == addr % TWO_32 - addr % ATR_TABLE_SIZE
  {
    hide And, Pow2;
    Pow2Values();
    var q, r := addr / 0x1000, addr % 0x1000;
    assert addr == q * 0x1000 + r;
    PowTwenty();
    AndSplit(q, r, 0xF_FFFF, 0, 12);
    AndMask(q, 20);
    AndNone(r);
    QuotientParts(addr, q, r);
  }

  lemma HeadBaseIs(addr: nat)
    ensures HeadBase(addr) == addr % TWO_32 - addr % ATR_TABLE_SIZE
    ensures HeadBase(addr) % ATR_TABLE_SIZE == 0
    ensures addr < TWO_32 ==> HeadBase(addr) == addr - addr % ATR_TABLE_SIZE
    ensures HeadBase(addr) == addr <==> addr < TWO_32 && addr % ATR_TABLE_SIZE == 0
  {
    hide HeadBase;
    HeadBaseValue(addr);
    var q, r := addr / 0x1000, addr % 0x1000;
    assert addr == q * 0x1000 + r;
    QuotientParts(addr, q, r);
  }

  lemma PowTwenty()
    ensures Pow2(20) == 0x10_0000
  {
    Pow2Values();
    Pow2Add(12, 8);
  }

  lemma QuotientParts(addr: nat, q: nat, r: nat)
    requires addr == q * 0x1000 + r && r < 0x1000
    ensures q % 0x10_0000 * 0x1000 == addr % TWO_32 - r
    ensures (addr % TWO_32 - r) % 0x1000 == 0
    ensures addr % 0x1000 == r
  {
    var h, m := q / 0x10_0000, q % 0x10_0000;
    assert q == h * 0x10_0000 + m;
    DivModUnique(addr, TWO_32, h, m * 0x1000 + r);
    DivModUnique(addr, 0x1000, q, r);
    DivModUnique(m * 0x1000, 0x1000, m, 0);
  }

  lemma HeadIs(addr: nat, len: nat)
    ensures var low := addr % ATR_TABLE_SIZE;
            U32(addr - HeadBase(addr)) == low && HeadLen(addr, len) == Min(ATR_TABLE_SIZE - low, len)
  {
    hide HeadBase;
    HeadBaseIs(addr);
    var low, high := addr % ATR_TABLE_SIZE, addr / TWO_32;
    assert addr == high * TWO_32 + addr % TWO_32;
    assert addr - HeadBase(addr) == high * TWO_32 + low;
    assert HeadBase(addr) + ATR_TABLE_SIZE - addr == (-high) * TWO_32 + (ATR_TABLE_SIZE - low);
  }

  /** The accesses of a copy are exactly its addresses, in order, if and only if the address is below 2^32 (or
      nothing is copied); from there on the first chunk goes to the address without its upper half. */
  lemma PlanIsTheRange(addr: nat, len: nat)
    ensures Touches(Plan(addr, len)) == Addresses(addr, len) <==> addr < TWO_32 || len == 0
  {
    hide HeadBase, HeadLen, Addresses;
    HeadBaseIs(addr);
    HeadIs(addr, len);
    if HeadBase(addr) == addr {
      PagesTouch(addr, 0, len);
    } else {
      var n := HeadLen(addr, len);
      var a := Access(HeadBase(addr), addr % ATR_TABLE_SIZE, n);
      PagesTouch(addr, n, len);
      AddressesSplit(addr, len, n);
      assert Plan(addr, len)[1..] == Pages(addr, n, len);
      HeadPlace(addr, n, len);
    }
  }

  /** The head chunk lands on the first addresses exactly when the upper half of the address is zero. */
  lemma HeadPlace(addr: nat, n: nat, len: nat)
    requires n == HeadLen(addr, len)
    ensures Addresses(HeadBase(addr) + addr % ATR_TABLE_SIZE, n) + Addresses(addr + n, len - n)
       == Addresses(addr, n) + Addresses(addr + n, len - n)
       <==> addr < TWO_32 || len == 0
  {
    hide HeadBase, HeadLen;
    HeadBaseIs(addr);
    HeadIs(addr, len);
    var left, right := Addresses(HeadBase(addr) + addr % ATR_TABLE_SIZE, n), Addresses(addr, n);
    if addr >= TWO_32 && len > 0 {
      assert (left + Addresses(addr + n, len - n))[0] == addr % TWO_32;
      assert (right + Addresses(addr + n, len - n))[0] == addr;
    }
  }

  lemma PlanWindowed(addr: nat, len: nat, size: nat)
    requires addr < TWO_32 && addr + len <= size
    ensures Windowed(Plan(addr, len), size)
  {
    hide HeadBase, HeadLen;
    HeadBaseIs(addr);
    HeadIs(addr, len);
    if HeadBase(addr) == addr {
      PagesWindowed(addr, 0, len, size);
    } else {
      var n := HeadLen(addr, len);
      if n == len {
        assert Pages(addr, n, len) == [];
      } else {
        PagesWindowed(addr, n, len, size);
      }
    }
  }

  // ----- what the accesses do -----

  function PlanLen(plan: seq<Access>): nat {
    if plan == [] then 0 else plan[0].len + PlanLen(plan[1..])
  }

  /** Memory after the accesses have written src, piece by piece. */
  function Store(mem: seq<Byte>, plan: seq<Access>, src: seq<Byte>): (r: seq<Byte>)
    requires Windowed(plan, |mem|) && |src| == PlanLen(plan)
    ensures |r| == |mem|
    decreases |plan|
  {
    if plan == [] then mem
    else
      var a := plan[0];
      Store(Splice(mem, a.base + a.offset, src[..a.len]), plan[1..], src[a.len..])
  }

  /** What the accesses read, put together. */
  function Load(mem: seq<Byte>, plan: seq<Access>): seq<Byte>
    requires Windowed(plan, |mem|)
  {
    if plan == [] then []
    else mem[plan[0].base + plan[0].offset..plan[0].base + plan[0].offset + plan[0].len] + Load(mem, plan[1..])
  }

  lemma {:induction false} PagesLen(addr: nat, done: nat, len: nat)
    requires done <= len
    ensures PlanLen(Pages(addr, done, len)) == len - done
    decreases len - done
  {
    if done < len {
      PagesLen(addr, done + Min(len - done, ATR_TABLE_SIZE), len);
    }
  }

  lemma PlanHasLen(addr: nat, len: nat)
    ensures PlanLen(Plan(addr, len)) == len
  {
    hide HeadBase, HeadLen;
    HeadIs(addr, len);
    PagesLen(addr, 0, len);
    PagesLen(addr, HeadLen(addr, len), len);
    if HeadBase(addr) != addr {
      assert Plan(addr, len)[1..] == Pages(addr, HeadLen(addr, len), len);
    }
  }

  lemma SpliceTwice(mem: seq<Byte>, at: nat, src: seq<Byte>, k: nat)
    requires at + |src| <= |mem| && k <= |src|
    ensures Splice(Splice(mem, at, src[..k]), at + k, src[k..]) == Splice(mem, at, src)
  {
    SpliceGrows(mem, at, src[..k], src[k..]);
    assert src[..k] + src[k..] == src;
  }

  lemma {:induction false} PagesStore(mem: seq<Byte>, addr: nat, done: nat, len: nat, src: seq<Byte>)
    requires done <= len && (addr + done) % ATR_TABLE_SIZE == 0 && addr + len <= |mem| && |src| == len - done
    ensures Windowed(Pages(addr, done, len), |mem|) && PlanLen(Pages(addr, done, len)) == len - done
    ensures Store(mem, Pages(addr, done, len), src) == Splice(mem, addr + done, src)
    decreases len - done
  {
    hide Splice, Windowed, Pages, PlanLen, Store;
    PagesWindowed(addr, done, len, |mem|);
    PagesLen(addr, done, len);
    if done == len {
      NothingWritten(mem, addr + done);
      PagesEnd(mem, addr, done, len, src);
    } else {
      var n := Min(len - done, ATR_TABLE_SIZE);
      var rest := Pages(addr, done + n, len);
      var once := Splice(mem, addr + done, src[..n]);
      PagesUnfold(addr, done, len);
      StoreStep(mem, Access(addr + done, 0, n), rest, src);
      SpliceTwice(mem, addr + done, src, n);
      if done + n < len {
        PagesStore(once, addr, done + n, len, src[n..]);
      } else {
        PagesEnd(once, addr, done + n, len, src[n..]);
        NothingWritten(once, addr + done + n);
      }
    }
  }

  lemma HeadThenPages(mem: seq<Byte>, addr: nat, src: seq<Byte>, a: Access)
    requires a.base + a.offset == addr && a.len <= |src| && addr + |src| <= |mem|
    requires a.len < |src| ==> (addr + a.len) % ATR_TABLE_SIZE == 0
    requires Windowed([a] + Pages(addr, a.len, |src|), |mem|) && PlanLen([a] + Pages(addr, a.len, |src|)) == |src|
    ensures Store(mem, [a] + Pages(addr, a.len, |src|), src) == Splice(mem, addr, src)
  {
    hide Splice, Windowed;
    var len, n := |src|, a.len;
    var rest := Pages(addr, n, len);
    assert ([a] + rest)[1..] == rest;
    var once := Splice(mem, addr, src[..n]);
    SpliceTwice(mem, addr, src, n);
    if n < len {
      PagesStore(once, addr, n, len, src[n..]);
    } else {
      assert rest == [] && src[n..] == [];
      NothingWritten(once, addr + n);
    }
  }

  /** Writing through the window is a plain copy. */
  lemma PlanStores(mem: seq<Byte>, addr: nat, src: seq<Byte>)
    requires addr < TWO_32 && addr + |src| <= |mem|
    ensures Windowed(Plan(addr, |src|), |mem|) && PlanLen(Plan(addr, |src|)) == |src|
    ensures Store(mem, Plan(addr, |src|), src) == Splice(mem, addr, src)
  {
    hide HeadBase, HeadLen, Splice, Windowed, Store, Pages, PlanLen;
    HeadBaseIs(addr);
    HeadIs(addr, |src|);
    PlanWindowed(addr, |src|, |mem|);
    PlanHasLen(addr, |src|);
    if HeadBase(addr) == addr {
      PagesStore(mem, addr, 0, |src|, src);
    } else {
      HeadThenPages(mem, addr, src, Access(HeadBase(addr), U32(addr - HeadBase(addr)), HeadLen(addr, |src|)));
    }
  }

  /** data are the bytes of mem at the given addresses. */
  ghost predicate At(mem: seq<Byte>, addrs: seq<nat>, data: seq<Byte>) {
    |data| == |addrs| && forall i | 0 <= i < |addrs| :: addrs[i] < |mem| && data[i] == mem[addrs[i]]
  }

  lemma AtConcat(mem: seq<Byte>, a: seq<nat>, b: seq<nat>, c: seq<Byte>, d: seq<Byte>)
    requires At(mem, a, c) && At(mem, b, d)
    ensures At(mem, a + b, c + d)
  {
  }

  lemma AtRun(mem: seq<Byte>, addr: nat, n: nat)
    requires addr + n <= |mem|
    ensures At(mem, Addresses(addr, n), mem[addr..addr + n])
  {
  }

  lemma {:induction false} LoadIsTouches(mem: seq<Byte>, plan: seq<Access>)
    requires Windowed(plan, |mem|)
    ensures At(mem, Touches(plan), Load(mem, plan))
  {
    hide At, Addresses;
    if plan == [] {
      AtNone(mem);
    } else {
      var a := plan[0];
      assert a in plan;
      LoadIsTouches(mem, plan[1..]);
      AtRun(mem, a.base + a.offset, a.len);
      AtConcat(mem, Addresses(a.base + a.offset, a.len), Touches(plan[1..]),
               mem[a.base + a.offset..a.base + a.offset + a.len], Load(mem, plan[1..]));
    }
  }

  lemma AtNone(mem: seq<Byte>)
    ensures At(mem, [], [])
  {
  }

  /** Reading through the window gives the bytes at the address. */
  lemma PlanLoads(mem: seq<Byte>, addr: nat, len: nat)
    requires addr < TWO_32 && addr + len <= |mem|
    ensures Windowed(Plan(addr, len), |mem|)
    ensures Load(mem, Plan(addr, len)) == mem[addr..addr + len]
  {
    hide Plan, Load, Touches, Windowed;
    PlanWindowed(addr, len, |mem|);
    PlanIsTheRange(addr, len);
    LoadIsTouches(mem, Plan(addr, len));
    forall i | 0 <= i < len ensures Load(mem, Plan(addr, len))[i] == mem[addr..addr + len][i] {
      assert Touches(Plan(addr, len))[i] == addr + i;
    }
  }

  // ----- the bridge -----

  /** The ATR entry as configured: parameter, source, translation address low and high, translation parameter. */
  function AtrEntry(trsl: nat): (r: seq<Byte>)
    ensures |r| == ATR_BYTES
  {
    WordBytes(ATR_PARAM) + WordBytes(ATR_SRC_ADDR) + WordBytes(trsl % TWO_32) + WordBytes(trsl / TWO_32 % TWO_32)
    + WordBytes(ATR_TRSL_PARAM)
  }

  /** The translation address held in the ATR registers. */
  function Translation(config: seq<Byte>): nat
    requires ATR0_OFFSET + ATR_BYTES <= |config|
  {
    Word(config, ATR0_OFFSET + 8) + TWO_32 * Word(config, ATR0_OFFSET + 12)
  }

  lemma ConfiguredTranslation(config: seq<Byte>, trsl: nat)
    requires ATR0_OFFSET + ATR_BYTES <= |config| && trsl < TWO_64
    ensures Translation(Splice(config, ATR0_OFFSET, AtrEntry(trsl))) == trsl
  {
    hide Word, WordBytes;
    var c := Splice(config, ATR0_OFFSET, AtrEntry(trsl));
    var low, high := trsl % TWO_32, trsl / TWO_32 % TWO_32;
    assert c[ATR0_OFFSET + 8..ATR0_OFFSET + 12] == WordBytes(low)[0..4];
    assert c[ATR0_OFFSET + 12..ATR0_OFFSET + 16] == WordBytes(high)[0..4];
    WordShift(c, ATR0_OFFSET + 8, WordBytes(low), 0);
    WordShift(c, ATR0_OFFSET + 12, WordBytes(high), 0);
    WordRoundTrip(low);
    WordRoundTrip(high);
  }

  /** The entry as the bridge reads it: its five words. */
  lemma ConfiguredEntry(config: seq<Byte>, trsl: nat)
    requires ATR0_OFFSET + ATR_BYTES <= |config| && trsl < TWO_64
    ensures var c := Splice(config, 0x700, AtrEntry(trsl));
            && Word(c, 0x700) == 0x17
            && Word(c, 0x704) == 0
            && Word(c, 0x708) + Word(c, 0x70C) * TWO_32 == trsl
            && Word(c, 0x710) == 6
  {
    hide Word, WordBytes;
    var c := Splice(config, ATR0_OFFSET, AtrEntry(trsl));
    var entry := AtrEntry(trsl);
    assert entry[0..4] == WordBytes(0x17)[0..4] && entry[4..8] == WordBytes(0)[0..4];
    assert entry[16..20] == WordBytes(6)[0..4];
    assert c[0x700..0x704] == entry[0..4] && c[0x704..0x708] == entry[4..8] && c[0x710..0x714] == entry[16..20];
    WordShift(c, 0x700, WordBytes(0x17), 0);
    WordShift(c, 0x704, WordBytes(0), 0);
    WordShift(c, 0x710, WordBytes(6), 0);
    WordRoundTrip(0x17);
    WordRoundTrip(0);
    WordRoundTrip(6);
    ConfiguredTranslation(config, trsl);
  }

  /** The two BARs: the bridge configuration, and the window into device memory that it positions. */
  class Bridge {
    const config: Region
    const fw: Region

    constructor (config: Region, fw: Region)
      ensures this.config == config && this.fw == fw
    {
      this.config, this.fw := config, fw;
    }

    /** Both links work, and the window lies where the ATR registers say. */
    ghost predicate Valid()
      reads this, config, fw
    {
      && config != fw && config.linkUp && fw.linkUp
      && config.Backed(0, ATR0_OFFSET + ATR_BYTES) && config.base == 0
      && fw.address % 4 == 0 && |fw.backing| % 4 == 0
      && fw.base == Translation(config.backing)
    }

    /** hailo_pcie_configure_atr_table, and the hardware moving the window. */
    method ConfigureAtr(trsl: nat, entryAddr: nat)
      requires Valid() && trsl < TWO_64
      modifies config`backing, fw`base
      ensures Valid() && fw.base == trsl
      ensures config.backing == Splice(old(config.backing), ATR0_OFFSET, AtrEntry(trsl))
      ensures Word(config.backing, 0x700) == 0x17 && Word(config.backing, 0x704) == 0
      ensures Word(config.backing, 0x710) == 6
      ensures Word(config.backing, 0x708) + Word(config.backing, 0x70C) * TWO_32 == trsl
    {
      hide Splice, Translation, AtrEntry, Word;
      ConfiguredTranslation(config.backing, trsl);
      ConfiguredEntry(config.backing, trsl);
      var ignored := config.WriteBuffer(ATR0_OFFSET, AtrEntry(trsl), entryAddr);
      fw.base := Translation(config.backing);
    }

    /** hailo_pcie_read_atr_table, as far as write_memory and read_memory use it: the translation address. */
    method ReadAtr(entryAddr: nat) returns (trsl: nat)
      requires Valid()
      ensures trsl == fw.base
    {
      hide Word;
      var entry := config.ReadBuffer(ATR0_OFFSET, ATR_BYTES, entryAddr);
      assert config.backing[ATR0_OFFSET + 8..ATR0_OFFSET + 12] == entry[8..12];
      assert config.backing[ATR0_OFFSET + 12..ATR0_OFFSET + 16] == entry[12..16];
      WordShift(config.backing, ATR0_OFFSET + 8, entry, 8);
      WordShift(config.backing, ATR0_OFFSET + 12, entry, 12);
      trsl := TWO_32 * Word(entry, 12) + Word(entry, 8);
    }

    /** write_memory_chunk. */
    method WriteChunk(a: Access, src: seq<Byte>, srcAddr: nat, ghost end: seq<Byte>)
      requires Valid() && Windowed([a], |fw.backing|) && a.base < TWO_64 && |src| == a.len && |end| == ATR_BYTES
      modifies config`backing, fw`base, fw`backing
      ensures Valid() && |fw.backing| == |old(fw.backing)| && |config.backing| == |old(config.backing)|
      ensures fw.backing == Splice(old(fw.backing), a.base + a.offset, src)
      ensures Splice(config.backing, ATR0_OFFSET, end) == Splice(old(config.backing), ATR0_OFFSET, end)
    {
      hide Splice, Translation, AtrEntry, Word;
      assert a in [a];
      WindowAligned(a.base);
      SpliceOver(config.backing, ATR0_OFFSET, AtrEntry(a.base), end);
      ConfigureAtr(a.base, 0);
      var ignored := fw.WriteBuffer(a.offset, src, srcAddr);
    }

    /** read_memory_chunk. */
    method ReadChunk(a: Access, destAddr: nat, ghost end: seq<Byte>) returns (data: seq<Byte>)
      requires Valid() && Windowed([a], |fw.backing|) && a.base < TWO_64 && |end| == ATR_BYTES
      modifies config`backing, fw`base
      ensures Valid() && |config.backing| == |old(config.backing)|
      ensures a.base + a.offset + a.len <= |fw.backing|
      ensures data == fw.backing[a.base + a.offset..a.base + a.offset + a.len]
      ensures Splice(config.backing, ATR0_OFFSET, end) == Splice(old(config.backing), ATR0_OFFSET, end)
    {
      hide Splice, Translation, AtrEntry, Region.Seen, Word;
      assert a in [a];
      WindowAligned(a.base);
      SpliceOver(config.backing, ATR0_OFFSET, AtrEntry(a.base), end);
      ConfigureAtr(a.base, 0);
      assert fw.base == a.base && fw.Seen() == fw.backing;
      data := fw.ReadBuffer(a.offset, a.len, destAddr);
    }

    /** The loop of read_memory from `done` on. */
    method ReadRest(src: nat, len: nat, done: nat, destAddr: nat, ghost end: seq<Byte>)
      returns (data: seq<Byte>, trace: seq<Access>)
      requires Valid() && done <= len && src + len < TWO_64 && |end| == ATR_BYTES
      requires Windowed(Pages(src, done, len), |fw.backing|)
      modifies config`backing, fw`base
      ensures Valid() && |config.backing| == |old(config.backing)|
      ensures trace == Pages(src, done, len) && data == Load(fw.backing, trace)
      ensures Splice(config.backing, ATR0_OFFSET, end) == Splice(old(config.backing), ATR0_OFFSET, end)
    {
      hide Splice, Translation, AtrEntry, Load, Pages, Windowed, Word;
      ghost var mem, conf, plan := fw.backing, config.backing, Pages(src, done, len);
      data, trace := [], [];
      var offset := done;
      while offset < len
        invariant Valid() && done <= offset <= len && |config.backing| == |conf|
        invariant plan == trace + Pages(src, offset, len) && Windowed(Pages(src, offset, len), |mem|)
        invariant Load(mem, plan) == data + Load(mem, Pages(src, offset, len))
        invariant Splice(config.backing, ATR0_OFFSET, end) == Splice(conf, ATR0_OFFSET, end)
      {
        var n := Min(len - offset, ATR_TABLE_SIZE);
        var a := Access(src + offset, 0, n);
        PagesUnfold(src, offset, len);
        LoadStep(mem, a, Pages(src, offset + n, len));
        var piece := ReadChunk(a, destAddr + offset, end);
        AppendPiece(data, piece, Load(mem, Pages(src, offset + n, len)));
        data := data + piece;
        trace, offset := trace + [a], offset + n;
      }
      PagesEnd(mem, src, offset, len, []);
      LoadNone(mem);
      assert trace == plan && data + [] == data;
    }

    /** read_memory. */
    method ReadMemory(src: nat, len: nat, destAddr: nat) returns (data: seq<Byte>, trace: seq<Access>)
      requires Valid() && src + len < TWO_64 && Windowed(Plan(src, len), |fw.backing|)
      modifies config`backing, fw`base
      ensures Valid() && fw.base == old(fw.base)
      ensures trace == Plan(src, len) && data == Load(fw.backing, trace)
      ensures src < TWO_32 && src + len <= |fw.backing| ==> data == fw.backing[src..src + len]
      ensures config.backing == Splice(old(config.backing), ATR0_OFFSET, AtrEntry(old(fw.base)))
    {
      hide Splice, Translation, AtrEntry, HeadBase, HeadLen, Load, Pages, Windowed, Word;
      HeadIs(src, len);
      HeadBaseIs(src);
      var previous := ReadAtr(0);
      BaseBound();
      var rest: seq<Byte>, more: seq<Access>;
      if HeadBase(src) != src {
        var n := HeadLen(src, len);
        var a := Access(HeadBase(src), U32(src - HeadBase(src)), n);
        LoadStep(fw.backing, a, Pages(src, n, len));
        data := ReadChunk(a, destAddr, AtrEntry(previous));
        rest, more := ReadRest(src, len, n, destAddr, AtrEntry(previous));
        data, trace := data + rest, [a] + more;
      } else {
        data, trace := ReadRest(src, len, 0, destAddr, AtrEntry(previous));
      }
      ConfigureAtr(previous, 0);
      if src < TWO_32 && src + len <= |fw.backing| {
        PlanLoads(fw.backing, src, len);
      }
    }

    /** A window lies at a 64-bit address. */
    lemma BaseBound()
      requires Valid()
      ensures fw.base < TWO_64
    {
      hide Word;
      TranslationBound(config.backing);
    }

    /** The loop of write_memory from `done` on. */
    method WriteRest(dest: nat, src: seq<Byte>, done: nat, srcAddr: nat, ghost end: seq<Byte>)
      returns (trace: seq<Access>)
      requires Valid() && done <= |src| && dest + |src| < TWO_64 && |end| == ATR_BYTES
      requires Windowed(Pages(dest, done, |src|), |fw.backing|) && PlanLen(Pages(dest, done, |src|)) == |src[done..]|
      modifies config`backing, fw`base, fw`backing
      ensures Valid() && |fw.backing| == |old(fw.backing)| && |config.backing| == |old(config.backing)|
      ensures trace == Pages(dest, done, |src|)
      ensures fw.backing == Store(old(fw.backing), trace, src[done..])
      ensures Splice(config.backing, ATR0_OFFSET, end) == Splice(old(config.backing), ATR0_OFFSET, end)
    {
      hide Splice, Translation, AtrEntry, Store, Pages, PlanLen, Windowed, Word;
      ghost var mem, len, conf, plan := fw.backing, |src|, config.backing, Pages(dest, done, |src|);
      trace := [];
      var offset := done;
      while offset < |src|
        invariant Valid() && done <= offset <= |src| && |fw.backing| == |mem| && |config.backing| == |conf|
        invariant plan == trace + Pages(dest, offset, len)
        invariant Windowed(Pages(dest, offset, len), |mem|) && PlanLen(Pages(dest, offset, len)) == |src[offset..]|
        invariant Store(mem, plan, src[done..]) == Store(fw.backing, Pages(dest, offset, len), src[offset..])
        invariant Splice(config.backing, ATR0_OFFSET, end) == Splice(conf, ATR0_OFFSET, end)
      {
        var n := Min(|src| - offset, ATR_TABLE_SIZE);
        var a := Access(dest + offset, 0, n);
        PagesUnfold(dest, offset, len);
        StoreStep(fw.backing, a, Pages(dest, offset + n, len), src[offset..]);
        assert src[offset..][..n] == src[offset..offset + n] && src[offset..][n..] == src[offset + n..];
        WriteChunk(a, src[offset..offset + n], srcAddr + offset, end);
        trace, offset := trace + [a], offset + n;
      }
      PagesEnd(fw.backing, dest, offset, len, src[offset..]);
      assert trace == plan;
    }

    /** write_memory: `trace` is the sequence of windowed accesses it makes. The ATR keeps the translation address
        it had; its other fields are left as the driver always configures them. */
    method WriteMemory(dest: nat, src: seq<Byte>, srcAddr: nat) returns (trace: seq<Access>)
      requires Valid() && dest + |src| < TWO_64 && Windowed(Plan(dest, |src|), |fw.backing|)
      modifies config`backing, fw`base, fw`backing
      ensures Valid() && |fw.backing| == |old(fw.backing)| && fw.base == old(fw.base)
      ensures trace == Plan(dest, |src|) && PlanLen(trace) == |src|
      ensures fw.backing == Store(old(fw.backing), trace, src)
      ensures dest < TWO_32 && dest + |src| <= |fw.backing| ==> fw.backing == Splice(old(fw.backing), dest, src)
      ensures config.backing == Splice(old(config.backing), ATR0_OFFSET, AtrEntry(old(fw.base)))
    {
      hide Splice, Translation, AtrEntry, HeadBase, HeadLen, Store, Pages, PlanLen, Windowed, Word;
      ghost var mem, len := fw.backing, |src|;
      PlanHasLen(dest, len);
      HeadIs(dest, len);
      HeadBaseIs(dest);
      var previous := ReadAtr(0);
      BaseBound();
      if HeadBase(dest) != dest {
        var n := HeadLen(dest, |src|);
        var a := Access(HeadBase(dest), U32(dest - HeadBase(dest)), n);
        StoreStep(fw.backing, a, Pages(dest, n, len), src);
        WriteChunk(a, src[..n], srcAddr, AtrEntry(previous));
        trace := WriteRest(dest, src, n, srcAddr, AtrEntry(previous));
        trace := [a] + trace;
      } else {
        assert src[0..] == src;
        trace := WriteRest(dest, src, 0, srcAddr, AtrEntry(previous));
      }
      ConfigureAtr(previous, 0);
      if dest < TWO_32 && dest + |src| <= |mem| {
        PlanStores(mem, dest, src);
      }
    }
  }

  /** Overwriting the same place again. */
  lemma SpliceOver(c: seq<Byte>, at: nat, d: seq<Byte>, e: seq<Byte>)
    requires at + |d| <= |c| && |d| == |e|
    ensures Splice(Splice(c, at, d), at, e) == Splice(c, at, e)
  {
  }

  lemma WindowAligned(base: nat)
    requires base % ATR_TABLE_SIZE == 0
    ensures base % 4 == 0
  {
    var q := base / ATR_TABLE_SIZE;
    assert base == q * 0x400 * 4;
    DivModUnique(base, 4, q * 0x400, 0);
  }

  lemma AppendPiece(data: seq<Byte>, piece: seq<Byte>, rest: seq<Byte>)
    ensures data + (piece + rest) == (data + piece) + rest
  {
  }

  lemma LoadNone(mem: seq<Byte>)
    ensures Windowed([], |mem|) && Load(mem, []) == []
  {
  }

  lemma TranslationBound(config: seq<Byte>)
    requires ATR0_OFFSET + ATR_BYTES <= |config|
    ensures Translation(config) < TWO_64
  {
  }

  lemma StoreStep(mem: seq<Byte>, a: Access, rest: seq<Access>, src: seq<Byte>)
    requires Windowed([a] + rest, |mem|) && PlanLen([a] + rest) == |src|
    ensures a.len <= |src| && Windowed([a], |mem|) && Windowed(rest, |mem|) && PlanLen(rest) == |src| - a.len
    ensures a.base + a.offset + a.len <= |mem|
    ensures Store(mem, [a] + rest, src) == Store(Splice(mem, a.base + a.offset, src[..a.len]), rest, src[a.len..])
  {
    hide Splice, Windowed, Store;
    assert ([a] + rest)[1..] == rest;
    WindowedSplit(a, rest, |mem|);
    StoreUnfold(mem, [a] + rest, a, rest, src);
  }

  lemma StoreUnfold(mem: seq<Byte>, plan: seq<Access>, a: Access, rest: seq<Access>, src: seq<Byte>)
    requires plan != [] && plan[0] == a && plan[1..] == rest && PlanLen(plan) == |src|
    requires Windowed(plan, |mem|) && Windowed(rest, |mem|) && a.base + a.offset + a.len <= |mem|
    ensures a.len <= |src| && PlanLen(rest) == |src| - a.len
    ensures Store(mem, plan, src) == Store(Splice(mem, a.base + a.offset, src[..a.len]), rest, src[a.len..])
  {
    hide Splice, Windowed;
  }

  lemma WindowedSplit(a: Access, rest: seq<Access>, size: nat)
    requires Windowed([a] + rest, size)
    ensures Windowed([a], size) && Windowed(rest, size) && a.base + a.offset + a.len <= size
  {
    assert a in [a] + rest;
    forall b | b in rest ensures b in [a] + rest {
    }
  }

  lemma LoadStep(mem: seq<Byte>, a: Access, rest: seq<Access>)
    requires Windowed([a] + rest, |mem|)
    ensures Windowed([a], |mem|) && Windowed(rest, |mem|) && a.base + a.offset + a.len <= |mem|
    ensures Load(mem, [a] + rest) == mem[a.base + a.offset..a.base + a.offset + a.len] + Load(mem, rest)
  {
    hide Windowed, Load;
    WindowedSplit(a, rest, |mem|);
    assert ([a] + rest)[1..] == rest;
    LoadUnfold(mem, [a] + rest, a, rest);
  }

  lemma LoadUnfold(mem: seq<Byte>, plan: seq<Access>, a: Access, rest: seq<Access>)
    requires plan != [] && plan[0] == a && plan[1..] == rest
    requires Windowed(plan, |mem|) && Windowed(rest, |mem|) && a.base + a.offset + a.len <= |mem|
    ensures Load(mem, plan) == mem[a.base + a.offset..a.base + a.offset + a.len] + Load(mem, rest)
  {
    hide Windowed;
  }

  lemma PagesUnfold(addr: nat, done: nat, len: nat)
    requires done < len
    ensures var n := Min(len - done, ATR_TABLE_SIZE);
            Pages(addr, done, len) == [Access(addr + done, 0, n)] + Pages(addr, done + n, len)
  {
  }

  lemma PagesEnd(mem: seq<Byte>, addr: nat, done: nat, len: nat, src: seq<Byte>)
    requires done >= len && src == []
    ensures Pages(addr, done, len) == [] && Windowed([], |mem|) && PlanLen([]) == 0
    ensures Store(mem, [], src) == mem
  {
  }
}
