/** Boot files over vDMA: every file is cut into chunks that fill the descriptor lists of up to eight channels,
    one channel after the other. */
module BootSplit {
  import opened Bits

  const SLOTS: nat := 65535
  const PAGE: nat := 512
  const CHANNELS: nat := 8

  /** A chunk of a file: `size` bytes at `fileOffset`, programmed from descriptor `first` of `channel` on. */
  datatype Placement = Placement(channel: nat, first: nat, fileOffset: nat, size: nat, interrupt: bool)

  // ----- the state after T descriptors -----

  /** The channel that is current once `total` descriptors have been programmed. */
  function CurrentOf(total: nat): nat {
    if total == 0 then 0 else (total - 1) / SLOTS
  }

  /** The descriptors channel c holds then. */
  function LoadOf(c: nat, total: nat): (r: nat)
    ensures r <= SLOTS
  {
    if total >= (c + 1) * SLOTS then SLOTS else if total > c * SLOTS then total - c * SLOTS else 0
  }

  /** The current channel stays in range exactly while the channels have room for all descriptors. */
  lemma IndexInRange(total: nat)
    ensures CurrentOf(total) < CHANNELS <==> total <= CHANNELS * SLOTS
  {
  }

  /** The next chunk goes to the current channel, or to the one behind it if that is full. */
  lemma NextIndex(total: nat)
    ensures total / SLOTS == CurrentOf(total) + if LoadOf(CurrentOf(total), total) == SLOTS then 1 else 0
    ensures total / SLOTS < CHANNELS <==> total < CHANNELS * SLOTS
  {
    FullBeforeEmptyAfter(total, 0);
  }

  /** Channels in front of the current one are full, those behind it are empty. */
  lemma FullBeforeEmptyAfter(total: nat, c: nat)
    ensures c < CurrentOf(total) ==> LoadOf(c, total) == SLOTS
    ensures c > CurrentOf(total) ==> LoadOf(c, total) == 0
    ensures total == CurrentOf(total) * SLOTS + LoadOf(CurrentOf(total), total)
  {
    if total > 0 {
      var q, r := (total - 1) / SLOTS, (total - 1) % SLOTS;
      assert total - 1 == q * SLOTS + r;
    }
  }

  /** Placements that follow one another without a gap, in the file from `offset` on and in the descriptors (counted
      over all channels) from `total` on. */
  predicate Chained(ps: seq<Placement>, offset: nat, total: nat) {
    ps == [] ||
    (&& ps[0].size > 0
     && ps[0].fileOffset == offset
     && ps[0].channel < CHANNELS
     && ps[0].channel * SLOTS + ps[0].first == total
     && ps[0].first + DivUp(ps[0].size, PAGE) <= SLOTS
     && Chained(ps[1..], offset + ps[0].size, total + DivUp(ps[0].size, PAGE)))
  }

  function FileBytes(ps: seq<Placement>): nat {
    if ps == [] then 0 else ps[0].size + FileBytes(ps[1..])
  }

  function Descs(ps: seq<Placement>): nat {
    if ps == [] then 0 else DivUp(ps[0].size, PAGE) + Descs(ps[1..])
  }

  lemma {:induction false} ChainAppend(ps: seq<Placement>, p: Placement, offset: nat, total: nat)
    requires Chained(ps, offset, total)
    requires p.size > 0 && p.fileOffset == offset + FileBytes(ps) && p.channel < CHANNELS
    requires p.channel * SLOTS + p.first == total + Descs(ps) && p.first + DivUp(p.size, PAGE) <= SLOTS
    ensures Chained(ps + [p], offset, total)
    ensures FileBytes(ps + [p]) == FileBytes(ps) + p.size && Descs(ps + [p]) == Descs(ps) + DivUp(p.size, PAGE)
    decreases |ps|
  {
    if ps == [] {
      assert ps + [p] == [p];
      assert [p][1..] == [];
    } else {
      assert (ps + [p])[1..] == ps[1..] + [p];
      ChainAppend(ps[1..], p, offset + ps[0].size, total + DivUp(ps[0].size, PAGE));
    }
  }

  /** The descriptors a placement occupies. */
  predicate OccupiesDesc(p: Placement, channel: nat, desc: nat) {
    p.channel == channel && p.first <= desc < p.first + DivUp(p.size, PAGE)
  }

  lemma {:induction false} ChainBounds(ps: seq<Placement>, offset: nat, total: nat, i: nat)
    requires Chained(ps, offset, total) && i < |ps|
    ensures total <= ps[i].channel * SLOTS + ps[i].first
    ensures ps[i].first + DivUp(ps[i].size, PAGE) <= SLOTS
    decreases i
  {
    if i > 0 {
      ChainBounds(ps[1..], offset + ps[0].size, total + DivUp(ps[0].size, PAGE), i - 1);
    }
  }

  /** No two chunks share a descriptor of a channel, and so no part of its buffer. */
  lemma {:induction false} ChunksDisjoint(ps: seq<Placement>, offset: nat, total: nat, i: nat, j: nat, channel: nat,
                                          desc: nat)
    requires Chained(ps, offset, total) && i < j < |ps|
    ensures !(OccupiesDesc(ps[i], channel, desc) && OccupiesDesc(ps[j], channel, desc))
    decreases i
  {
    if i == 0 {
      ChainBounds(ps[1..], offset + ps[0].size, total + DivUp(ps[0].size, PAGE), j - 1);
    } else {
      ChunksDisjoint(ps[1..], offset + ps[0].size, total + DivUp(ps[0].size, PAGE), i - 1, j - 1, channel, desc);
    }
  }

  lemma {:induction false} ChainEnd(ps: seq<Placement>, offset: nat, total: nat, i: nat)
    requires Chained(ps, offset, total) && i < |ps|
    ensures ps[i].channel * SLOTS + ps[i].first + DivUp(ps[i].size, PAGE) <= total + Descs(ps)
    decreases i
  {
    if i > 0 {
      ChainEnd(ps[1..], offset + ps[0].size, total + DivUp(ps[0].size, PAGE), i - 1);
    }
  }

  /** Chunks of different files are disjoint as well. */
  lemma FilesDisjoint(a: seq<Placement>, b: seq<Placement>, ta: nat, tb: nat, i: nat, j: nat, channel: nat, desc: nat)
    requires Chained(a, 0, ta) && Chained(b, 0, tb) && ta + Descs(a) <= tb && i < |a| && j < |b|
    ensures !(OccupiesDesc(a[i], channel, desc) && OccupiesDesc(b[j], channel, desc))
  {
    hide DivUp, Chained, Descs;
    ChainEnd(a, 0, ta, i);
    ChainBounds(b, 0, tb, j);
  }

  // ----- interrupts -----

  /** The chunk takes the last descriptor of its channel. */
  predicate Fills(p: Placement) {
    p.first + DivUp(p.size, PAGE) == SLOTS
  }

  /** When a chunk raises its channel's interrupt: it is the last of all, or fills its channel with whole pages. */
  predicate Raises(p: Placement, final: bool) {
    final || (Fills(p) && Rem(p.size, PAGE) == 0)
  }

  /** Every chunk of a file but the last fills its channel with whole pages, and the interrupt flags are as above. */
  predicate Flagged(ps: seq<Placement>, lastFile: bool) {
    && (forall i | 0 <= i < |ps| :: ps[i].interrupt <==> Raises(ps[i], lastFile && i == |ps| - 1))
    && (forall i | 0 <= i < |ps| - 1 :: Fills(ps[i]) && Rem(ps[i].size, PAGE) == 0)
  }

  /** The code's test for the last chunk of a channel divides rounding down, and descriptors are counted rounding up:
      it holds of the chunks that fill their channel with whole pages. */
  lemma LastOfChannel(size: nat, first: nat)
    requires 0 < size <= (SLOTS - first) * PAGE && first < SLOTS
    ensures size / PAGE + first == SLOTS <==> first + DivUp(size, PAGE) == SLOTS && Rem(size, PAGE) == 0
  {
    hide DivUp, Rem;
    RemIsMod(size, PAGE);
    DivUpBounds(size, PAGE);
    assert size == size / PAGE * PAGE + size % PAGE;
  }

  /** A file as it is programmed from descriptor `total` on. */
  ghost predicate FileProgrammed(ps: seq<Placement>, size: nat, total: nat, lastFile: bool) {
    Chained(ps, 0, total) && FileBytes(ps) == size && Descs(ps) == DivUp(size, PAGE) && Flagged(ps, lastFile)
  }

  ghost predicate BatchProgrammed(files: seq<seq<Placement>>, sizes: seq<nat>) {
    && |files| == |sizes|
    && forall k | 0 <= k < |sizes| :: FileProgrammed(files[k], sizes[k], TotalPages(sizes[..k]), k == |sizes| - 1)
  }

  // ----- programming -----

  class BootState {
    var current: nat
    var programmed: seq<nat>
    var usedChannels: nat

    /** As probe leaves it: nothing programmed, channel 0 in use. */
    constructor ()
      ensures Holds(0)
    {
      current, programmed, usedChannels := 0, seq(CHANNELS, c => 0), 1;
      new;
      assert Pow2(1) == 2;
    }

    /** The state is the one `total` programmed descriptors lead to. */
    ghost predicate Holds(total: nat)
      reads this
    {
      && |programmed| == CHANNELS
      && current == CurrentOf(total) < CHANNELS
      && (forall c | 0 <= c < CHANNELS :: programmed[c] == LoadOf(c, total))
      && usedChannels == Pow2(current + 1) - 1
    }

    /** Moving on to the next channel when the current one is full. The index leaves the eight channels exactly when all
        of them are full. */
    method NextIfFull(ghost total: nat)
      requires Holds(total)
      modifies this
      ensures |programmed| == CHANNELS && programmed == old(programmed)
      ensures current == total / SLOTS && usedChannels == Pow2(current + 1) - 1
      ensures current < CHANNELS <==> total < CHANNELS * SLOTS
      ensures current < CHANNELS ==> programmed[current] < SLOTS && current * SLOTS + programmed[current] == total
    {
      hide CurrentOf, LoadOf, Pow2, Or;
      FullBeforeEmptyAfter(total, current);
      FullBeforeEmptyAfter(total, current + 1);
      IndexInRange(total);
      NextIndex(total);
      if programmed[current] == SLOTS {
        NextBit(usedChannels, current + 1);
        current := current + 1;
        usedChannels := Or(usedChannels, Pow2(current));
      }
    }

    /** One iteration of the splitting loop of pcie_vdma_program_one_file. */
    method ProgramChunk(remaining: nat, dataOffset: nat, lastFile: bool, ghost total: nat)
      returns (p: Placement, descs: nat)
      requires Holds(total) && remaining > 0 && total < CHANNELS * SLOTS
      modifies this
      ensures 0 < p.size <= remaining && p.fileOffset == dataOffset && descs == DivUp(p.size, PAGE)
      ensures p.channel < CHANNELS && p.channel * SLOTS + p.first == total && p.first + descs <= SLOTS
      ensures p.size < remaining ==> p.size == (SLOTS - p.first) * PAGE
      ensures p.interrupt <==> Raises(p, lastFile && p.size == remaining)
      ensures Holds(total + descs)
    {
      hide CurrentOf, LoadOf, Pow2, DivUp, Or, Rem;
      NextIfFull(total);
      var first := programmed[current];
      var left := SLOTS - first;
      var size := Min(remaining, left * PAGE);
      var isLast := SLOTS == size / PAGE + first;
      descs := DivUp(size, PAGE);
      ChunkFits(size, left);
      LastOfChannel(size, first);
      PagesNeeded(size);
      p := Placement(current, first, dataOffset, size, isLast || (lastFile && remaining == size));
      Advance(total, descs, current, programmed);
      programmed := programmed[current := first + descs];
    }

    /** pcie_vdma_program_one_file: the file's size in, its placements out. */
    method ProgramOneFile(size: nat, lastFile: bool, ghost total: nat) returns (ps: seq<Placement>)
      requires Holds(total) && total + DivUp(size, PAGE) <= CHANNELS * SLOTS
      modifies this
      ensures Holds(total + DivUp(size, PAGE))
      ensures FileProgrammed(ps, size, total, lastFile)
    {
      hide Holds, DivUp, Chained, Flagged;
      var remaining: nat, dataOffset: nat := size, 0;
      ps := [];
      NoChunks(total, lastFile && size == 0);
      while remaining > 0
        invariant Holds(total + Descs(ps)) && Chained(ps, 0, total)
        invariant dataOffset == FileBytes(ps) && remaining + dataOffset == size
        invariant Descs(ps) + DivUp(remaining, PAGE) == DivUp(size, PAGE)
        invariant Flagged(ps, lastFile && remaining == 0) && (remaining > 0 ==> AllFill(ps))
        decreases remaining
      {
        PagesNeeded(remaining);
        var p, descs := ProgramChunk(remaining, dataOffset, lastFile, total + Descs(ps));
        ChainAppend(ps, p, 0, total);
        AfterChunk(remaining, p);
        FlagMore(ps, p, lastFile, remaining);
        ps := ps + [p];
        remaining := remaining - p.size;
        dataOffset := dataOffset + p.size;
      }
      PagesNeeded(0);
    }

    /** pcie_vdma_program_entire_batch: the files' sizes in, the placements of each file out. */
    method ProgramEntireBatch(sizes: seq<nat>) returns (files: seq<seq<Placement>>)
      requires Holds(0) && TotalPages(sizes) <= CHANNELS * SLOTS
      modifies this
      ensures Holds(TotalPages(sizes))
      ensures BatchProgrammed(files, sizes)
    {
      hide Holds, DivUp, FileProgrammed, TotalPages;
      files := [];
      var k := 0;
      NoPages(sizes);
      while k < |sizes|
        invariant 0 <= k == |files| <= |sizes|
        invariant Holds(TotalPages(sizes[..k]))
        invariant forall i | 0 <= i < k :: FileProgrammed(files[i], sizes[i], TotalPages(sizes[..i]), i == |sizes| - 1)
      {
        PagesPrefix(sizes, k);
        var ps := ProgramOneFile(sizes[k], k == |sizes| - 1, TotalPages(sizes[..k]));
        files := files + [ps];
        k := k + 1;
      }
      assert sizes[..k] == sizes;
    }
  }

  /** The descriptors of a sequence of files: each takes whole pages. */
  function TotalPages(sizes: seq<nat>): nat {
    if sizes == [] then 0 else TotalPages(sizes[..|sizes| - 1]) + DivUp(sizes[|sizes| - 1], PAGE)
  }

  lemma NoPages(sizes: seq<nat>)
    ensures TotalPages(sizes[..0]) == 0
  {
    assert sizes[..0] == [];
  }

  lemma {:induction false} PagesPrefix(sizes: seq<nat>, k: nat)
    requires k < |sizes|
    ensures TotalPages(sizes[..k + 1]) == TotalPages(sizes[..k]) + DivUp(sizes[k], PAGE) <= TotalPages(sizes)
    decreases |sizes| - k
  {
    assert sizes[..k + 1][..k] == sizes[..k];
    if k + 1 < |sizes| {
      PagesPrefix(sizes, k + 1);
    } else {
      assert sizes[..k + 1] == sizes;
    }
  }

  lemma NoChunks(total: nat, lastFile: bool)
    ensures Chained([], 0, total) && FileBytes([]) == 0 && Descs([]) == 0
    ensures Flagged([], lastFile) && AllFill([])
  {
  }

  predicate AllFill(ps: seq<Placement>) {
    forall p | p in ps :: Fills(p) && Rem(p.size, PAGE) == 0
  }

  /** Another chunk behind chunks that filled their channels. */
  lemma FlagMore(ps: seq<Placement>, p: Placement, lastFile: bool, remaining: nat)
    requires Flagged(ps, false) && AllFill(ps) && 0 < p.size <= remaining
    requires p.interrupt <==> Raises(p, lastFile && p.size == remaining)
    requires p.size < remaining ==> p.first <= SLOTS && p.size == (SLOTS - p.first) * PAGE
    ensures Flagged(ps + [p], lastFile && remaining == p.size)
    ensures p.size < remaining ==> AllFill(ps + [p])
  {
    hide DivUp, Rem;
    if p.size < remaining {
      DivUpAdd(SLOTS - p.first, 0, PAGE);
      NoRest();
    }
  }

  lemma NoRest()
    ensures Rem(0, PAGE) == 0 && DivUp(0, PAGE) == 0
  {
  }

  lemma PagesNeeded(n: nat)
    ensures n > 0 ==> DivUp(n, PAGE) > 0
    ensures n == 0 ==> DivUp(n, PAGE) == 0
  {
    DivUpBounds(n, PAGE);
  }

  lemma ChunkFits(size: nat, left: nat)
    requires size <= left * PAGE
    ensures DivUp(size, PAGE) <= left
  {
    hide DivUp;
    DivUpBounds(size, PAGE);
  }

  /** What a chunk leaves of a file still needs the remaining pages. */
  lemma AfterChunk(remaining: nat, p: Placement)
    requires 0 < p.size <= remaining && p.first <= SLOTS
    requires p.size < remaining ==> p.size == (SLOTS - p.first) * PAGE
    ensures DivUp(remaining, PAGE) == DivUp(p.size, PAGE) + DivUp(remaining - p.size, PAGE)
  {
    hide DivUp;
    PagesNeeded(0);
    if p.size < remaining {
      DivUpAdd(SLOTS - p.first, remaining - p.size, PAGE);
      DivUpAdd(SLOTS - p.first, 0, PAGE);
    }
  }

  lemma NextBit(bitmap: nat, k: nat)
    requires bitmap == Pow2(k) - 1
    ensures Or(bitmap, Pow2(k)) == Pow2(k + 1) - 1
  {
    hide Or;
    OrSplit(0, bitmap, 1, 0, k);
    OrZero(bitmap);
    OrZero(1);
  }

  /** The loads after `descs` more descriptors on the current channel. */
  lemma Advance(total: nat, descs: nat, current: nat, programmed: seq<nat>)
    requires |programmed| == CHANNELS && current < CHANNELS
    requires current * SLOTS + programmed[current] == total && programmed[current] + descs <= SLOTS
    requires forall c | 0 <= c < CHANNELS :: programmed[c] == LoadOf(c, total)
    requires descs > 0
    ensures CurrentOf(total + descs) == current
    ensures forall c | 0 <= c < CHANNELS ::
              (if c == current then programmed[current] + descs else programmed[c]) == LoadOf(c, total + descs)
  {
    var t := total + descs - 1;
    DivModUnique(t, SLOTS, current, programmed[current] + descs - 1);
  }

  // ----- which channels raise an interrupt -----

  /** Some chunk on channel c raises the interrupt. */
  ghost predicate Raised(files: seq<seq<Placement>>, c: nat) {
    exists k, i | 0 <= k < |files| && 0 <= i < |files[k]| :: files[k][i].channel == c && files[k][i].interrupt
  }

  /** A file ends on the last descriptor of channel c, with part of a page. */
  ghost predicate EndsInPart(sizes: seq<nat>, c: nat) {
    exists k | 0 <= k < |sizes| :: TotalPages(sizes[..k + 1]) == (c + 1) * SLOTS && Rem(sizes[k], PAGE) != 0
  }

  /** The file that descriptor x, counted over all channels, belongs to. */
  lemma {:induction false} FileOf(sizes: seq<nat>, x: nat) returns (k: nat)
    requires x < TotalPages(sizes)
    ensures k < |sizes| && TotalPages(sizes[..k]) <= x < TotalPages(sizes[..k + 1])
    decreases |sizes|
  {
    hide DivUp;
    var n := |sizes| - 1;
    assert sizes[..n + 1] == sizes;
    if TotalPages(sizes[..n]) <= x {
      k := n;
    } else {
      k := FileOf(sizes[..n], x);
      assert sizes[..n][..k] == sizes[..k] && sizes[..n][..k + 1] == sizes[..k + 1];
    }
  }

  /** Where the i-th chunk begins and ends, counted over all channels. */
  function Begin(p: Placement): nat {
    p.channel * SLOTS + p.first
  }

  function End(p: Placement): nat {
    Begin(p) + DivUp(p.size, PAGE)
  }

  /** The chunk that descriptor x belongs to. */
  lemma {:induction false} ChunkOf(ps: seq<Placement>, offset: nat, total: nat, x: nat) returns (i: nat)
    requires Chained(ps, offset, total) && total <= x < total + Descs(ps)
    ensures i < |ps| && Begin(ps[i]) <= x < End(ps[i])
    decreases |ps|
  {
    hide DivUp;
    if x < End(ps[0]) {
      i := 0;
    } else {
      i := ChunkOf(ps[1..], offset + ps[0].size, total + DivUp(ps[0].size, PAGE), x);
      i := i + 1;
    }
  }

  /** The last chunk ends with the file, and the others end where the next begins. */
  lemma {:induction false} ChunkEnds(ps: seq<Placement>, offset: nat, total: nat, i: nat)
    requires Chained(ps, offset, total) && i < |ps|
    ensures if i == |ps| - 1 then End(ps[i]) == total + Descs(ps) else End(ps[i]) < total + Descs(ps)
    ensures ps[i].size > 0 && End(ps[i]) <= (ps[i].channel + 1) * SLOTS
    decreases |ps|
  {
    hide DivUp;
    if i > 0 {
      ChunkEnds(ps[1..], offset + ps[0].size, total + DivUp(ps[0].size, PAGE), i - 1);
    } else if |ps| > 1 {
      ChunkEnds(ps[1..], offset + ps[0].size, total + DivUp(ps[0].size, PAGE), 0);
      PagesNeeded(ps[1].size);
    }
  }

  /** Behind whole pages, the file ends inside a page exactly if its last chunk does. */
  lemma {:induction false} LastChunkRem(ps: seq<Placement>)
    requires ps != [] && forall i | 0 <= i < |ps| - 1 :: Rem(ps[i].size, PAGE) == 0
    ensures Rem(FileBytes(ps), PAGE) == Rem(ps[|ps| - 1].size, PAGE)
    decreases |ps|
  {
    hide Rem;
    if |ps| > 1 {
      LastChunkRem(ps[1..]);
      RemAdd(ps[0].size, FileBytes(ps[1..]));
    } else {
      assert FileBytes(ps[1..]) == 0;
    }
  }

  lemma {:induction false} RemAdd(a: nat, b: nat)
    requires Rem(a, PAGE) == 0
    ensures Rem(a + b, PAGE) == Rem(b, PAGE)
    decreases a
  {
    if a > 0 {
      assert a >= PAGE;
      RemAdd(a - PAGE, b);
      assert a - PAGE + b == a + b - PAGE;
    }
  }

  lemma {:induction false} PagesMonotone(sizes: seq<nat>, a: nat, b: nat)
    requires a <= b <= |sizes|
    ensures TotalPages(sizes[..a]) <= TotalPages(sizes[..b])
    decreases b - a
  {
    hide DivUp, TotalPages;
    if a < b {
      PagesPrefix(sizes, a);
      PagesMonotone(sizes, a + 1, b);
    }
  }

  /** What a chunk of the batch looks like from outside: where it lies, and what its flag says. */
  lemma BatchChunk(files: seq<seq<Placement>>, sizes: seq<nat>, k: nat, i: nat)
    requires BatchProgrammed(files, sizes) && k < |files| && i < |files[k]|
    ensures var p, last := files[k][i], i == |files[k]| - 1;
            && p.size > 0 && sizes[k] > 0
            && TotalPages(sizes[..k]) <= Begin(p) < End(p) <= (p.channel + 1) * SLOTS
            && (if last then End(p) == TotalPages(sizes[..k + 1]) else End(p) < TotalPages(sizes[..k + 1]))
            && (p.interrupt <==> Raises(p, k == |sizes| - 1 && last))
            && (!last ==> Fills(p) && Rem(p.size, PAGE) == 0)
            && (last ==> Rem(sizes[k], PAGE) == Rem(p.size, PAGE))
  {
    hide DivUp, Rem, Chained, TotalPages, Fills, Raises;
    var ps, total := files[k], TotalPages(sizes[..k]);
    assert FileProgrammed(ps, sizes[k], total, k == |sizes| - 1);
    ChunkEnds(ps, 0, total, i);
    ChainBounds(ps, 0, total, i);
    PagesNeeded(ps[i].size);
    PagesPrefix(sizes, k);
    LastChunkRem(ps);
  }

  lemma FillsIs(p: Placement)
    ensures Fills(p) <==> End(p) == (p.channel + 1) * SLOTS
  {
    hide DivUp;
  }

  /** A chunk that raises its channel's interrupt is the last of all, or the channel is full and no file ends on its
      last descriptor with part of a page. */
  lemma RaisedOnlyIf(files: seq<seq<Placement>>, sizes: seq<nat>, k: nat, i: nat)
    requires BatchProgrammed(files, sizes) && k < |files| && i < |files[k]| && files[k][i].interrupt
    ensures var c := files[k][i].channel;
            || (k == |sizes| - 1 && sizes[k] > 0 && c == CurrentOf(TotalPages(sizes)))
            || (TotalPages(sizes) >= (c + 1) * SLOTS && !EndsInPart(sizes, c))
  {
    hide DivUp, Rem, BatchProgrammed, TotalPages;
    var p := files[k][i];
    var c := p.channel;
    BatchChunk(files, sizes, k, i);
    FillsIs(p);
    SizesAgree(files, sizes);
    PagesMonotone(sizes, k + 1, |sizes|);
    assert sizes[..|sizes|] == sizes;
    if k == |sizes| - 1 && i == |files[k]| - 1 {
      DivModUnique(TotalPages(sizes) - 1, SLOTS, c, TotalPages(sizes) - 1 - c * SLOTS);
    } else if EndsInPart(sizes, c) {
      var m :| 0 <= m < |sizes| && TotalPages(sizes[..m + 1]) == (c + 1) * SLOTS && Rem(sizes[m], PAGE) != 0;
      NoRest();
      PagesPrefix(sizes, m);
      PagesNeeded(sizes[m]);
      if k < m {
        PagesMonotone(sizes, k + 1, m);
      } else if m < k {
        PagesMonotone(sizes, m + 1, k);
      }
    }
  }

  lemma SizesAgree(files: seq<seq<Placement>>, sizes: seq<nat>)
    requires BatchProgrammed(files, sizes)
    ensures |files| == |sizes|
  {
  }

  /** The chunk on the last descriptor of a full channel. */
  lemma FillingChunk(files: seq<seq<Placement>>, sizes: seq<nat>, c: nat) returns (k: nat, i: nat)
    requires BatchProgrammed(files, sizes) && TotalPages(sizes) >= (c + 1) * SLOTS
    ensures k < |files| && i < |files[k]| && files[k][i].channel == c && Fills(files[k][i])
  {
    hide DivUp, Rem, TotalPages, Chained, Flagged;
    var x := (c + 1) * SLOTS - 1;
    k := FileOf(sizes, x);
    PagesPrefix(sizes, k);
    assert FileProgrammed(files[k], sizes[k], TotalPages(sizes[..k]), k == |sizes| - 1);
    i := ChunkOf(files[k], 0, TotalPages(sizes[..k]), x);
    ChunkEnds(files[k], 0, TotalPages(sizes[..k]), i);
    ChainBounds(files[k], 0, TotalPages(sizes[..k]), i);
    var p := files[k][i];
    assert p.channel == c;
    FillsIs(p);
  }

  /** For every batch, from the sizes of its files alone: a channel raises an interrupt if and only if it takes the
      last chunk of a last file that is not empty, or is filled and no file ends on its last descriptor with part of a
      page. */
  lemma ChannelInterruptIff(files: seq<seq<Placement>>, sizes: seq<nat>, c: nat)
    requires BatchProgrammed(files, sizes)
    ensures Raised(files, c)
       <==> || (sizes != [] && sizes[|sizes| - 1] > 0 && c == CurrentOf(TotalPages(sizes)))
            || (TotalPages(sizes) >= (c + 1) * SLOTS && !EndsInPart(sizes, c))
  {
    hide DivUp, Rem, BatchProgrammed, TotalPages, EndsInPart, CurrentOf;
    SizesAgree(files, sizes);
    if Raised(files, c) {
      var k, i :| 0 <= k < |files| && 0 <= i < |files[k]| && files[k][i].channel == c && files[k][i].interrupt;
      RaisedOnlyIf(files, sizes, k, i);
    } else if sizes != [] && sizes[|sizes| - 1] > 0 && c == CurrentOf(TotalPages(sizes)) {
      LastRaises(files, sizes);
    } else if TotalPages(sizes) >= (c + 1) * SLOTS && !EndsInPart(sizes, c) {
      FullRaises(files, sizes, c);
    }
  }

  lemma LastRaises(files: seq<seq<Placement>>, sizes: seq<nat>)
    requires BatchProgrammed(files, sizes) && sizes != [] && sizes[|sizes| - 1] > 0
    ensures Raised(files, CurrentOf(TotalPages(sizes)))
  {
    hide DivUp, Rem, TotalPages, Chained, Flagged;
    var k := |sizes| - 1;
    assert FileProgrammed(files[k], sizes[k], TotalPages(sizes[..k]), true);
    var i := |files[k]| - 1;
    BatchChunk(files, sizes, k, i);
    assert sizes[..k + 1] == sizes;
    var p := files[k][i];
    DivModUnique(TotalPages(sizes) - 1, SLOTS, p.channel, TotalPages(sizes) - 1 - p.channel * SLOTS);
  }

  lemma FullRaises(files: seq<seq<Placement>>, sizes: seq<nat>, c: nat)
    requires BatchProgrammed(files, sizes) && TotalPages(sizes) >= (c + 1) * SLOTS && !EndsInPart(sizes, c)
    ensures Raised(files, c)
  {
    hide DivUp, Rem, BatchProgrammed, TotalPages, Fills;
    SizesAgree(files, sizes);
    var k, i := FillingChunk(files, sizes, c);
    BatchChunk(files, sizes, k, i);
    FillsIs(files[k][i]);
  }

  /** Files of 65534 pages, 100 bytes and one byte: the second one fills channel 0 with part of a page, and the channel
      is left without an interrupt. */
  lemma PartialPageIsSilent(files: seq<seq<Placement>>)
    requires BatchProgrammed(files, SILENT_SIZES)
    ensures TotalPages(SILENT_SIZES) == SLOTS + 1
    ensures !Raised(files, 0)
  {
    hide BatchProgrammed, DivUp, Raised, Rem;
    SilentPages();
    ChannelInterruptIff(files, SILENT_SIZES, 0);
    assert EndsInPart(SILENT_SIZES, 0) by {
      assert TotalPages(SILENT_SIZES[..1 + 1]) == (0 + 1) * SLOTS && Rem(SILENT_SIZES[1], PAGE) != 0;
    }
  }

  const SILENT_SIZES: seq<nat> := [(SLOTS - 1) * PAGE, 100, 1]

  lemma SilentPages()
    ensures TotalPages(SILENT_SIZES[..2]) == SLOTS && TotalPages(SILENT_SIZES) == SLOTS + 1
    ensures Rem(SILENT_SIZES[1], PAGE) == 100
  {
    var sizes := SILENT_SIZES;
    DivUpAdd(SLOTS - 1, 0, PAGE);
    assert DivUp(100, PAGE) == 1 && DivUp(1, PAGE) == 1;
    assert sizes[..3] == sizes && sizes[..0] == [];
    PagesPrefix(sizes, 0);
    PagesPrefix(sizes, 1);
    PagesPrefix(sizes, 2);
  }
}
