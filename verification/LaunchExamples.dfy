/** Requests the driver accepts, or programs and then refuses, that leave a control word no transfer lists. */
module LaunchExamples {
  import opened Bits
  import opened Descriptors
  import opened Results
  import opened Binding
  import opened Programming
  import opened Transfers
  import opened ChannelModel
  import opened Geometry
  import opened Requests
  import opened Launches
  import opened LaunchWords
  import opened DirtyDescriptors

  const PAGE: nat := 64

  /** A circular list of n descriptors with default control words. */
  function FreshList(n: nat): (l: List)
    requires n > 0
    ensures |l.descs| == n && l.page == PAGE && l.circular && l.mask == n - 1
    ensures forall j | 0 <= j < n :: l.descs[j].control == ControlWord(PAGE)
  {
    List(seq(n, j requires 0 <= j < n => Desc(ControlWord(PAGE), 0, 0, 0)), n - 1, PAGE, true)
  }

  lemma FreshIsCircular(n: nat, k: nat)
    requires n == Pow2(k) <= TWO_16
    ensures Circular(FreshList(n))
  {
  }

  const REGS_0 := Registers(1, 0)

  /** 192 bytes in two pieces of 96. */
  const TWO_PIECES := Buffer([SgEntry(0, 96), SgEntry(128, 96)], 0, 192, 0)

  const TWO_PIECES_REQUEST := Request(0, [TWO_PIECES], true, NO_DOMAIN, Domain(false, true), false)

  lemma TwoPieces()
    ensures Chunks(TWO_PIECES.sg, 0, 0, 192) == [Chunk(0, 96), Chunk(128, 96)]
    ensures Count(TWO_PIECES, true, PAGE) == 4
    ensures Counts([TWO_PIECES], true, PAGE) == 4
    ensures |TableBytes(TWO_PIECES.sg)| == 192
    ensures !Tidy([TWO_PIECES], true, PAGE)
  {
    var sg := TWO_PIECES.sg;
    assert sg[1..] == [SgEntry(128, 96)];
    assert sg[1..][1..] == [];
    assert Chunks(sg[1..][1..], 192, 0, 0) == [];
    assert Chunks(sg[1..], 96, 0, 96) == [Chunk(128, 96)];
    var chunks := [Chunk(0, 96), Chunk(128, 96)];
    assert chunks[1..] == [Chunk(128, 96)] && chunks[1..][1..] == [];
    assert DescCount(chunks[1..], PAGE) == 2;
    assert [TWO_PIECES][1..] == [];
    assert Rem(96, PAGE) == 32;
  }

  /** Pieces that end inside a page: the launch is accepted, returns its four descriptors and keeps the geometry, and
      yet the second descriptor has a control word that no transfer lists. */
  lemma ResidueIsNotListed()
    ensures Circular(FreshList(8)) && Passes(IDLE, REGS_0, TWO_PIECES_REQUEST)
    ensures var r := Launch(IDLE, FreshList(8), REGS_0, TWO_PIECES_REQUEST, PCIE_HW);
            && r.ret == 4
            && Geometric(r.channel)
            && !Listed(r.channel.list.value.descs, r.channel.transfers, PAGE)
  {
    hide Launch, Chunks, Counts, Count, Tidy, FreshList, TableBytes, Listed, Kept, Ends, Chain;
    assert Pow2(3) == 8;
    FreshIsCircular(8, 3);
    TwoPieces();
    var l, req := FreshList(8), TWO_PIECES_REQUEST;
    SmallValue(0, TWO_16);
    AcceptTwoPieces();
    EmptyGeometric(l);
    LaunchQueues(IDLE, l, REGS_0, req, PCIE_HW);
    LaunchGeometric(IDLE, l, REGS_0, req, PCIE_HW);
    LaunchLists(IDLE, l, REGS_0, req, PCIE_HW);
  }

  lemma AcceptTwoPieces()
    ensures Acceptable(IDLE, FreshList(8), REGS_0, TWO_PIECES_REQUEST)
  {
    hide Chunks, Count, TableBytes;
    TwoPieces();
    SmallValue(0, TWO_16);
    assert And(1, 1) == 1;
    assert Rem(0, PAGE) == 0;
  }

  lemma EmptyGeometric(l: List)
    requires Circular(l)
    ensures Geometric(Attach(IDLE, l)) && Sum(IDLE.transfers, |l.descs|) == 0
  {
  }

  // ----- errors that add up -----

  /** Too many descriptors for a list of 8, an unaligned offset, and a table that is too short. */
  const TOO_LONG := Buffer([SgEntry(0, 576)], 0, 576, 0)
  const UNALIGNED := Buffer([SgEntry(0, 576)], 1, 64, 0)
  const TOO_SHORT := Buffer([SgEntry(0, 64)], 0, 128, 0)

  const RESET_REQUEST := Request(0, [TOO_LONG, TOO_LONG, UNALIGNED, TOO_SHORT], true, NO_DOMAIN, NO_DOMAIN, false)

  lemma BadBuffers()
    ensures RetOf(TOO_LONG, true, 8, PAGE) == ERANGE
    ensures RetOf(UNALIGNED, true, 8, PAGE) == EINVAL
    ensures RetOf(TOO_SHORT, true, 8, PAGE) == EFAULT
  {
    assert Rem(0, PAGE) == 0 && Rem(1, PAGE) == 1;
    OneChunk(576, 576);
    OneChunk(64, 128);
    DivUpAdd(9, 0, PAGE);
    DivUpAdd(1, 0, PAGE);
    assert DivUp(0, PAGE) == 0;
  }

  lemma OneChunk(len: nat, size: nat)
    requires 0 < len <= size
    ensures Chunks([SgEntry(0, len)], 0, 0, size) == [Chunk(0, len)]
    ensures DescCount([Chunk(0, len)], PAGE) == DivUp(len, PAGE)
    ensures |TableBytes([SgEntry(0, len)])| == len
  {
    hide DivUp, Addresses;
    assert [SgEntry(0, len)][1..] == [];
    assert Chunks([], len, 0, size - len) == [];
    assert [Chunk(0, len)][1..] == [];
    assert TableBytes([]) == [];
  }

  /** An active channel returns ECONNRESET for these buffers, as if it were not active, and queues the transfer. */
  lemma ErrorsLookLikeReset()
    ensures Circular(FreshList(8)) && REGS_0.control % 2 == 1
    ensures var r := Launch(IDLE, FreshList(8), REGS_0, RESET_REQUEST, PCIE_HW);
            r.ret == ECONNRESET && |r.channel.transfers| == 1
  {
    hide Launch, FreshList, RetOf, Ends, Bindable, Counts, U32, S32;
    assert Pow2(3) == 8;
    FreshIsCircular(8, 3);
    LaunchChecks(IDLE, FreshList(8), REGS_0, RESET_REQUEST, PCIE_HW);
    LaunchReturns(IDLE, FreshList(8), REGS_0, RESET_REQUEST, PCIE_HW);
    BadBuffers();
    SumOfFour(TOO_LONG, TOO_LONG, UNALIGNED, TOO_SHORT);
  }

  lemma SumOfFour(a: Buffer, b: Buffer, c: Buffer, d: Buffer)
    ensures RetSum([a, b, c, d], true, 8, PAGE)
         == RetOf(a, true, 8, PAGE) + RetOf(b, true, 8, PAGE) + RetOf(c, true, 8, PAGE) + RetOf(d, true, 8, PAGE)
  {
    hide RetOf;
    assert [a, b, c, d][1..] == [b, c, d] && [b, c, d][1..] == [c, d] && [c, d][1..] == [d] && [d][1..] == [];
    assert RetSum([d], true, 8, PAGE) == RetOf(d, true, 8, PAGE) + RetSum([], true, 8, PAGE);
    assert RetSum([c, d], true, 8, PAGE) == RetOf(c, true, 8, PAGE) + RetSum([d], true, 8, PAGE);
    assert RetSum([b, c, d], true, 8, PAGE) == RetOf(b, true, 8, PAGE) + RetSum([c, d], true, 8, PAGE);
  }

  // ----- the full ring -----

  /** One page. */
  const ONE_PAGE := Buffer([SgEntry(0, 64)], 0, 64, 0)

  /** A request for one page from descriptor `at` on, with an interrupt to the host at its end or none. */
  function PageRequest(at: nat, interrupt: bool): Request {
    Request(at, [ONE_PAGE], true, NO_DOMAIN, Domain(false, interrupt), false)
  }

  lemma OnePage()
    ensures Count(ONE_PAGE, true, PAGE) == 1 && Counts([ONE_PAGE], true, PAGE) == 1
    ensures |TableBytes(ONE_PAGE.sg)| == 64
    ensures Tidy([ONE_PAGE], true, PAGE)
  {
    var sg := ONE_PAGE.sg;
    assert sg[1..] == [];
    assert Chunks([], 64, 0, 0) == [];
    assert Chunks(sg, 0, 0, 64) == [Chunk(0, 64)];
    assert [Chunk(0, 64)][1..] == [];
    assert [ONE_PAGE][1..] == [];
  }

  /** The list the next launch is made with. */
  function ListOf(c: Channel): List {
    if c.list.Some? then c.list.value else FreshList(256)
  }

  /** c is what k launches of one page each, without interrupts, make of an idle channel on a fresh list of 256. */
  ghost predicate Reaches(k: nat, c: Channel)
    decreases k
  {
    if k == 0 then c == IDLE
    else
      exists c0 ::
        && Reaches(k - 1, c0)
        && ListOf(c0).Valid() && k - 1 < |ListOf(c0).descs|
        && c == Launch(c0, ListOf(c0), Registers(1, k - 1), PageRequest(k - 1, false), PCIE_HW).channel
  }

  /** What such a channel looks like. */
  ghost predicate Filled(k: nat, c: Channel) {
    var l := ListOf(c);
    && Circular(l) && |l.descs| == 256 && l.page == PAGE
    && c.numAvail == k && c.numProc == 0 && |c.transfers| == k
    && Geometric(Attach(c, l)) && Sum(c.transfers, 256) == k
    && Listed(l.descs, c.transfers, PAGE)
    && (k > 0 ==> Attach(c, l) == c)
  }

  lemma AcceptPage(k: nat, c: Channel, interrupt: bool)
    requires Filled(k, c) && k <= 127
    ensures Acceptable(c, ListOf(c), Registers(1, k), PageRequest(k, interrupt))
  {
    hide Chunks, Count, TableBytes, Geometric, Listed, Sum;
    OnePage();
    SmallValue(k, TWO_16);
    assert And(1, 1) == 1;
    assert Rem(0, PAGE) == 0;
  }

  lemma FilledNone()
    ensures Filled(0, IDLE)
  {
    hide FreshList;
    Pow2Values();
    FreshIsCircular(256, 8);
    EmptyGeometric(FreshList(256));
    NothingInFlight(FreshList(256));
  }

  lemma NothingInFlight(l: List)
    requires forall j | 0 <= j < |l.descs| :: l.descs[j].control == ControlWord(PAGE)
    ensures Listed(l.descs, [], PAGE)
  {
    hide ControlWord;
  }

  /** One more launch. */
  lemma FilledMore(k: nat, c: Channel)
    requires Filled(k, c) && k < 127
    ensures ListOf(c).Valid() && k < |ListOf(c).descs|
    ensures Filled(k + 1, Launch(c, ListOf(c), Registers(1, k), PageRequest(k, false), PCIE_HW).channel)
  {
    hide Launch, Counts, Count, Chain, Sum, Tidy, Kept, Acceptable, Listed, Ends, Len, Placed, ListedAt;
    var l, regs, req := ListOf(c), Registers(1, k), PageRequest(k, false);
    OnePage();
    AcceptPage(k, c, false);
    AcceptableStart(c, l, regs, req);
    LaunchQueues(c, l, regs, req, PCIE_HW);
    LaunchGeometric(c, l, regs, req, PCIE_HW);
    LaunchLists(c, l, regs, req, PCIE_HW);
    KeptListed(l, c.transfers, req);
    var r := Launch(c, l, regs, req, PCIE_HW).channel;
    SumAppend(c.transfers, r.transfers[k], 256);
    StillCircular(l, r.list.value.descs);
    AttachAgain(r);
  }

  lemma AttachAgain(c: Channel)
    requires Geometric(c)
    ensures Attach(c, c.list.value) == c
  {
    hide Chain, Sum;
  }

  lemma KeptListed(l: List, ts: seq<Transfer>, req: Request)
    requires l.page > 0 && |l.descs| > 0 && Listed(l.descs, ts, l.page)
    ensures forall j | 0 <= j < |l.descs| && j != req.start && Kept(l, req, j) :: ListedAt(l.descs, ts, l.page, j)
  {
    hide Kept, ListedAt;
  }

  lemma {:induction false} FillRing(k: nat) returns (c: Channel)
    requires k <= 127
    ensures Reaches(k, c) && Filled(k, c)
    decreases k
  {
    hide Launch, Filled, Reaches;
    if k == 0 {
      ReachesNone();
      FilledNone();
      c := IDLE;
    } else {
      var c0 := FillRing(k - 1);
      FilledMore(k - 1, c0);
      c := Launch(c0, ListOf(c0), Registers(1, k - 1), PageRequest(k - 1, false), PCIE_HW).channel;
      ReachesMore(k - 1, c0);
    }
  }

  lemma ReachesNone()
    ensures Reaches(0, IDLE)
  {
  }

  lemma ReachesMore(k: nat, c: Channel)
    requires Reaches(k, c) && ListOf(c).Valid() && k < |ListOf(c).descs|
    ensures Reaches(k + 1, Launch(c, ListOf(c), Registers(1, k), PageRequest(k, false), PCIE_HW).channel)
  {
    hide Launch, ListOf;
  }

  /** 127 launches of one page each fill the ring of an idle channel, with every control word listed. The next request,
      for one page and an interrupt, fails, and afterwards a control word is not listed. */
  lemma FullRingLosesTrack() returns (c: Channel)
    ensures Reaches(127, c) && Geometric(c) && Listed(c.list.value.descs, c.transfers, PAGE)
    ensures c.list.value.Valid() && 127 < |c.list.value.descs|
    ensures var r := Launch(c, c.list.value, Registers(1, 127), PageRequest(127, true), PCIE_HW);
            && r.ret == EFAULT
            && !Listed(r.channel.list.value.descs, c.transfers, PAGE)
  {
    hide Launch, Counts, Count, Kept, Chain, Sum, InterruptBits, Acceptable, Written, Listed, Reaches;
    c := FillRing(127);
    OnePage();
    AcceptPage(127, c, true);
    PcieInterruptBits(Domain(false, true), false);
    FullRingLaunch(c, c.list.value, Registers(1, 127), PageRequest(127, true), PCIE_HW);
  }
}
