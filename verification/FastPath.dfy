/** Which descriptors a bind leaves with a non-default control word, and why programming only the last
    descriptor of an already bound buffer equals binding it again. */
module FastPath {
  import opened Bits
  import opened Cyclic
  import opened Descriptors
  import opened Binding
  import opened Programming

  /** Every piece of the table but the last one used ends on a page boundary. */
  predicate PagedButLast(chunks: seq<Chunk>, page: nat)
    requires page > 0
  {
    |chunks| <= 1 || (Rem(chunks[0].size, page) == 0 && PagedButLast(chunks[1..], page))
  }

  /** Bytes in the last page of n bytes. */
  function LastSize(n: nat, page: nat): (r: nat)
    requires page > 0
    ensures n > 0 ==> 0 < r <= page
  {
    if n <= page then n else LastSize(n - page, page)
  }

  lemma {:induction false} LastSizeIs(n: nat, page: nat)
    requires page > 0 && n > 0
    ensures LastSize(n, page) == if Rem(n, page) != 0 then Rem(n, page) else page
    ensures LastSize(n, page) == n - (DivUp(n, page) - 1) * page
  {
    if n <= page {
      assert Rem(page, page) == 0;
    } else {
      LastSizeIs(n - page, page);
      MulNext(DivUp(n - page, page) - 1, page);
    }
  }

  /** Whole pages in front change neither the last page nor, beyond their number, the page count. */
  lemma {:induction false} WholePagesInFront(n: nat, m: nat, page: nat)
    requires page > 0 && Rem(n, page) == 0 && m > 0
    ensures LastSize(n + m, page) == LastSize(m, page)
    ensures DivUp(n + m, page) == DivUp(n, page) + DivUp(m, page)
  {
    if n > 0 {
      assert n >= page;
      WholePagesInFront(n - page, m, page);
      assert n - page + m == n + m - page;
    }
  }

  lemma ControlDiffers(a: nat, b: nat)
    requires a < b < TWO_16
    ensures ControlWord(a) != ControlWord(b)
  {
  }

  // ----- control words of one chunk, then of all -----

  lemma ChunkControls(c: Chunk, page: nat, hw: Hw, i: nat)
    requires page > 0 && i < DivUp(c.size, page)
    ensures i < DivUp(c.size, page) - 1 ==> ChunkDescs(c, page, page, hw)[i].control == ControlWord(page)
    ensures i == DivUp(c.size, page) - 1 && c.size > 0 ==>
              ChunkDescs(c, page, page, hw)[i].control == ControlWord(LastSize(c.size, page))
  {
    hide ControlWord, And, Or, LastSize;
    if c.size > 0 {
      LastSizeIs(c.size, page);
    }
  }

  /** All control words in front of the last descriptor are the default one. */
  predicate DefaultButLast(ds: seq<Desc>, page: nat) {
    forall i | 0 <= i < |ds| - 1 :: ds[i].control == ControlWord(page)
  }

  lemma LastSizeDefault(size: nat, page: nat)
    requires 0 < page < TWO_16 && size > 0
    ensures ControlWord(LastSize(size, page)) == ControlWord(page) <==> Rem(size, page) == 0
  {
    LastSizeIs(size, page);
    if Rem(size, page) != 0 {
      ControlDiffers(Rem(size, page), page);
    }
  }

  lemma DefaultConcat(c: Chunk, rest: seq<Desc>, page: nat, hw: Hw)
    requires 0 < page < TWO_16 && c.size > 0 && rest != []
    ensures DefaultButLast(ChunkDescs(c, page, page, hw) + rest, page)
       <==> Rem(c.size, page) == 0 && DefaultButLast(rest, page)
  {
    hide ChunkDescs, ControlWord, LastSize, Rem;
    var a := ChunkDescs(c, page, page, hw);
    DivUpBounds(c.size, page);
    LastSizeDefault(c.size, page);
    ChunkControls(c, page, hw, |a| - 1);
    forall i | 0 <= i < |a| - 1 ensures a[i].control == ControlWord(page) {
      ChunkControls(c, page, hw, i);
    }
    assert (a + rest)[|a| - 1] == a[|a| - 1];
    if DefaultButLast(a + rest, page) {
      forall i | 0 <= i < |rest| - 1 ensures rest[i].control == ControlWord(page) {
        assert (a + rest)[|a| + i] == rest[i];
      }
    }
  }

  /** A bind leaves only its last descriptor with a control word of its own exactly when every piece of the
      table but the last ends on a page boundary. */
  lemma {:induction false} ResidueOnlyAtTheEnd(chunks: seq<Chunk>, page: nat, hw: Hw)
    requires 0 < page < TWO_16 && chunks != []
    requires forall c | c in chunks :: c.size > 0
    ensures DefaultButLast(DescsOf(chunks, page, page, hw), page) <==> PagedButLast(chunks, page)
  {
    hide ChunkDescs, ControlWord, Rem;
    var c, rest := chunks[0], chunks[1..];
    if rest == [] {
      assert DescsOf(chunks, page, page, hw) == ChunkDescs(c, page, page, hw);
      forall i | 0 <= i < DivUp(c.size, page) - 1
        ensures ChunkDescs(c, page, page, hw)[i].control == ControlWord(page)
      {
        ChunkControls(c, page, hw, i);
      }
    } else {
      ResidueOnlyAtTheEnd(rest, page, hw);
      assert rest[0] in rest;
      DivUpBounds(rest[0].size, page);
      DefaultConcat(c, DescsOf(rest, page, page, hw), page, hw);
    }
  }

  lemma {:induction false} TotalPositive(chunks: seq<Chunk>)
    requires chunks != [] && forall c | c in chunks :: c.size > 0
    ensures Total(chunks) > 0
  {
    assert chunks[0] in chunks;
  }

  /** Then the descriptors count the pages of the whole buffer, and the last one carries its last page. */
  lemma {:induction false} PagedCount(chunks: seq<Chunk>, page: nat, hw: Hw)
    requires 0 < page && chunks != [] && PagedButLast(chunks, page)
    requires forall c | c in chunks :: c.size > 0
    ensures DescCount(chunks, page) == DivUp(Total(chunks), page) >= 1
    ensures var ds := DescsOf(chunks, page, page, hw);
            ds[|ds| - 1].control == ControlWord(LastSize(Total(chunks), page))
  {
    hide ChunkDescs, ControlWord, LastSize, Rem;
    var c, rest := chunks[0], chunks[1..];
    DivUpBounds(c.size, page);
    if rest == [] {
      assert Total(chunks) == c.size;
      assert DescsOf(chunks, page, page, hw) == ChunkDescs(c, page, page, hw);
      ChunkControls(c, page, hw, DivUp(c.size, page) - 1);
    } else {
      PagedCount(rest, page, hw);
      TotalPositive(rest);
      WholePagesInFront(c.size, Total(rest), page);
      DivUpBounds(Total(rest), page);
    }
  }

  // ----- the fast path -----

  /** The list already names the buffer from `start` on, with default control words. */
  ghost predicate AlreadyBound(l: List, start: nat, b: Buffer, hw: Hw)
    requires l.page > 0 && start < |l.descs|
  {
    var ds := DescsOf(Chunks(b.sg, 0, b.offset, b.size), l.page, l.page, hw);
    && |ds| <= |l.descs|
    && forall i | 0 <= i < |ds| ::
         && Window(l.descs, start, |ds|)[i].control == ControlWord(l.page)
         && Window(l.descs, start, |ds|)[i].addrL == ds[i].addrL
         && Window(l.descs, start, |ds|)[i].addrH == ds[i].addrH
  }

  /** Equal but for the status word, which only the hardware writes. */
  predicate SameDesc(a: Desc, b: Desc) {
    a.control == b.control && a.addrL == b.addrL && a.addrH == b.addrH
  }

  ghost predicate SameProgram(a: Outcome, b: Outcome) {
    && a.ret == b.ret
    && |a.descs| == |b.descs|
    && forall j | 0 <= j < |a.descs| :: SameDesc(a.descs[j], b.descs[j])
  }

  /** The one-word update of the fast path equals the OR of the bind path. */
  lemma LastControl(size: nat, bits: nat)
    requires size < TWO_16 && bits < 256
    ensures (U32(size) * 256 + Or(DESC_CONTROL, bits) % 256) % TWO_32 == Or(ControlWord(size), bits)
  {
    hide Or, ControlWord, Pow2;
    ControlParts(size);
    OrKeepsSize(ControlWord(size), bits);
    Pow2Values();
    OrBelow(DESC_CONTROL, bits, 8);
    var low, whole := Or(DESC_CONTROL, bits), Or(ControlWord(size), bits);
    DivModUnique(low, 256, 0, low);
    DivModUnique(size * 256 + low, TWO_32, 0, size * 256 + low);
    assert whole == whole / 256 * 256 + whole % 256;
  }

  lemma ControlParts(size: nat)
    requires size < TWO_16
    ensures ControlWord(size) / 256 == size && ControlWord(size) % 256 == DESC_CONTROL
  {
    DivModUnique(size * 256 + DESC_CONTROL, TWO_32, 0, size * 256 + DESC_CONTROL);
    DivModUnique(size * 256 + DESC_CONTROL, 256, size, DESC_CONTROL);
  }

  /** The descriptor list as both paths see it: bound control words and addresses `ds` against the list. */
  ghost predicate Matches(descs: seq<Desc>, start: nat, ds: seq<Desc>, page: nat)
    requires start < |descs|
  {
    && 0 < |ds| <= |descs|
    && forall j | 0 <= j < |descs| && Offset(j, start, |descs|) < |ds| ::
         && descs[j].control == ControlWord(page)
         && descs[j].addrL == ds[Offset(j, start, |descs|)].addrL
         && descs[j].addrH == ds[Offset(j, start, |descs|)].addrH
  }

  lemma BoundMatches(l: List, start: nat, b: Buffer, hw: Hw)
    requires l.page > 0 && start < |l.descs| && AlreadyBound(l, start, b, hw)
    requires DescCount(Chunks(b.sg, 0, b.offset, b.size), l.page) > 0
    ensures Matches(l.descs, start, DescsOf(Chunks(b.sg, 0, b.offset, b.size), l.page, l.page, hw), l.page)
  {
    hide Chunks, DescsOf, ControlWord;
    var ds := DescsOf(Chunks(b.sg, 0, b.offset, b.size), l.page, l.page, hw);
    var n := |l.descs|;
    forall j | 0 <= j < n && Offset(j, start, n) < |ds|
      ensures Window(l.descs, start, |ds|)[Offset(j, start, n)] == l.descs[j]
    {
    }
  }

  /** If `ds` has default control words but for the last, whose control word is `control`, then rewriting all
      of `ds` and setting bits in the last is the same as rewriting the last control word alone. */
  lemma RewriteLast(descs: seq<Desc>, start: nat, ds: seq<Desc>, page: nat, control: nat, bits: nat)
    requires start < |descs| && Matches(descs, start, ds, page) && DefaultButLast(ds, page)
    requires control == Or(ds[|ds| - 1].control, bits)
    ensures var last := Wrap(start + |ds| - 1, |descs|);
            SameProgram(Outcome(|ds|, descs[last := descs[last].(control := control)]),
                        Outcome(|ds|, SetBits(WriteAt(descs, start, ds), last, bits)))
  {
    hide Or, ControlWord;
    var n := |descs|;
    var last := Wrap(start + |ds| - 1, n);
    var fast, slow := descs[last := descs[last].(control := control)], SetBits(WriteAt(descs, start, ds), last, bits);
    assert Offset(last, start, n) == |ds| - 1;
    forall j | 0 <= j < n ensures SameDesc(fast[j], slow[j]) {
      if j != last {
        assert Offset(j, start, n) != |ds| - 1;
      }
    }
  }

  /** A residue in front of the last descriptor shows: the bind writes it, the fast path does not. */
  lemma ResidueShows(descs: seq<Desc>, start: nat, ds: seq<Desc>, page: nat, control: nat, bits: nat)
    requires start < |descs| && Matches(descs, start, ds, page) && !DefaultButLast(ds, page)
    ensures var last := Wrap(start + |ds| - 1, |descs|);
            !SameProgram(Outcome(|ds|, descs[last := descs[last].(control := control)]),
                         Outcome(|ds|, SetBits(WriteAt(descs, start, ds), last, bits)))
  {
    hide Or, ControlWord;
    var n := |descs|;
    var last := Wrap(start + |ds| - 1, n);
    var i :| 0 <= i < |ds| - 1 && ds[i].control != ControlWord(page);
    var j := Wrap(start + i, n);
    assert Offset(j, start, n) == i && j != last;
    var fast, slow := descs[last := descs[last].(control := control)], SetBits(WriteAt(descs, start, ds), last, bits);
    assert !SameDesc(fast[j], slow[j]);
  }

  /** The control word the fast path stores. */
  function FastControl(size: nat, page: nat, bits: nat): nat
    requires page > 0
  {
    (U32(size - (DivUp(size, page) - 1) * page) * 256 + Or(DESC_CONTROL, bits) % 256) % TWO_32
  }

  lemma FastControlIs(size: nat, page: nat, bits: nat)
    requires 0 < page < TWO_16 && size > 0 && bits < 256
    ensures FastControl(size, page, bits) == Or(ControlWord(LastSize(size, page)), bits)
  {
    hide ControlWord, Or, LastSize;
    LastSizeIs(size, page);
    LastControl(LastSize(size, page), bits);
  }

  lemma SlowPath(l: List, start: nat, b: Buffer, hw: Hw, domain: Domain, debug: bool)
    requires l.Valid() && b.size > 0 && Bindable(l, start, b)
    ensures var ds := DescsOf(Chunks(b.sg, 0, b.offset, b.size), l.page, l.page, hw);
            && 0 < |ds| <= |l.descs|
            && Bind(l, start, b, hw, domain, debug, 0)
               == Outcome(|ds|, SetBits(WriteAt(l.descs, start, ds), Wrap(start + |ds| - 1, |l.descs|),
                                        InterruptBits(hw, domain, debug)))
  {
    hide Chunks, DescsOf, InterruptBits, TableBytes, BindChunks, SetBits, WriteAt;
    BindChunksSucceeds(l, start, b, l.page, hw);
    LastIsWrap(start, DescCount(Chunks(b.sg, 0, b.offset, b.size), l.page), |l.descs|);
  }

  /** The control words of the descriptors of a buffer that its table holds. */
  lemma BufferControls(b: Buffer, page: nat, hw: Hw)
    requires 0 < page < TWO_16 && b.size > 0 && b.offset + b.size <= |TableBytes(b.sg)|
    ensures var chunks := Chunks(b.sg, 0, b.offset, b.size);
            var ds := DescsOf(chunks, page, page, hw);
            && |ds| > 0
            && (DefaultButLast(ds, page) <==> PagedButLast(chunks, page))
            && (PagedButLast(chunks, page) ==>
                  |ds| == DivUp(b.size, page) && ds[|ds| - 1].control == ControlWord(LastSize(b.size, page)))
  {
    hide Chunks, DescsOf, ControlWord, TableBytes, ChunkBytes, LastSize, PagedButLast, DefaultButLast;
    var chunks := Chunks(b.sg, 0, b.offset, b.size);
    ChunksAreTheBytes(b.sg, 0, b.offset, b.size);
    ChunksNonEmpty(b.sg, 0, b.offset, b.size);
    assert chunks[0] in chunks;
    DivUpBounds(chunks[0].size, page);
    ResidueOnlyAtTheEnd(chunks, page, hw);
    if PagedButLast(chunks, page) {
      PagedCount(chunks, page, hw);
    }
  }

  /** On a list already bound to the buffer, programming the last descriptor alone gives the same addresses,
      control words and descriptor count as binding again, exactly when every piece of the table but the last
      ends on a page boundary. */
  lemma FastPathIsRebind(l: List, start: nat, b: Buffer, hw: Hw, domain: Domain, debug: bool)
    requires l.Valid() && PlainHw(hw) && b.size > 0 && FitsU32(b.size, l.page)
    requires Bindable(l, start, b) && AlreadyBound(l, start, b, hw)
    ensures SameProgram(ProgramLast(l, start, b, hw, domain, debug), Bind(l, start, b, hw, domain, debug, 0))
       <==> PagedButLast(Chunks(b.sg, 0, b.offset, b.size), l.page)
  {
    hide Chunks, DescsOf, InterruptBits, TableBytes, Bind, SetBits, AlreadyBound, Or, DefaultButLast, Matches,
      ControlWord, WriteAt;
    var ds := DescsOf(Chunks(b.sg, 0, b.offset, b.size), l.page, l.page, hw);
    var bits := InterruptBits(hw, domain, debug);
    BufferControls(b, l.page, hw);
    SlowPath(l, start, b, hw, domain, debug);
    BoundMatches(l, start, b, hw);
    LastIsWrap(start, |ds|, |l.descs|);
    var control := FastControl(b.size, l.page, bits);
    if |ds| == DivUp(b.size, l.page) {
      var last := Wrap(start + |ds| - 1, |l.descs|);
      assert ProgramLast(l, start, b, hw, domain, debug)
          == Outcome(|ds|, l.descs[last := l.descs[last].(control := control)]);
      if DefaultButLast(ds, l.page) {
        InterruptBitsSmall(hw, domain, debug);
        FastControlIs(b.size, l.page, bits);
        RewriteLast(l.descs, start, ds, l.page, control, bits);
      } else {
        ResidueShows(l.descs, start, ds, l.page, control, bits);
      }
    }
  }
}
