/** Descriptors with a control word of their own are always on some in-flight transfer's list, so retiring the
    transfers gives the list back. */
module DirtyDescriptors {
  import opened Bits
  import opened Cyclic
  import opened Descriptors
  import opened Results
  import opened Binding
  import opened Requests
  import opened Transfers
  import opened ChannelModel
  import opened Geometry
  import opened Launches
  import opened LaunchWords

  ghost predicate InFlight(ts: seq<Transfer>, j: nat) {
    exists t | t in ts :: j in t.dirty
  }

  /** Every control word is the default one, or the one the list came with, or on the list of a transfer in
      flight. `base` are the descriptors as they were when the list was attached. */
  ghost predicate Tracked(descs: seq<Desc>, base: seq<Desc>, ts: seq<Transfer>, page: nat) {
    && |descs| == |base|
    && forall j | 0 <= j < |descs| ::
         || descs[j].control == ControlWord(page)
         || descs[j].control == base[j].control
         || InFlight(ts, j)
  }

  lemma InFlightSplit(ts: seq<Transfer>, j: nat)
    requires ts != []
    ensures InFlight(ts, j) <==> j in ts[0].dirty || InFlight(ts[1..], j)
  {
    assert ts[0] in ts;
    if InFlight(ts, j) && j !in ts[0].dirty {
      var t :| t in ts && j in t.dirty;
      assert t in ts[1..];
    }
  }

  lemma InFlightAppend(ts: seq<Transfer>, t: Transfer, j: nat)
    ensures InFlight(ts + [t], j) <==> InFlight(ts, j) || j in t.dirty
  {
    assert t in ts + [t];
    if InFlight(ts, j) {
      var u :| u in ts && j in u.dirty;
      assert u in ts + [t];
    }
  }

  // ----- completing and dropping -----

  /** Clearing the oldest transfer's descriptors takes it off the books. */
  lemma ClearTracked(l: List, base: seq<Desc>, ts: seq<Transfer>)
    requires ts != [] && Tracked(l.descs, base, ts, l.page)
    ensures Tracked(Cleared(l, ts[0]).descs, base, ts[1..], l.page)
  {
    hide ControlWord, InFlight;
    var after := Cleared(l, ts[0]).descs;
    forall j | 0 <= j < |after|
      ensures after[j].control == ControlWord(l.page) || after[j].control == base[j].control || InFlight(ts[1..], j)
    {
      InFlightSplit(ts, j);
    }
  }

  lemma {:induction false} ReapTracked(c: Channel, hw: nat, base: seq<Desc>)
    requires c.list.Some? && Tracked(c.list.value.descs, base, c.transfers, c.list.value.page)
    ensures var r := Reap(c, hw);
            && r.list.Some? && r.list.value.page == c.list.value.page
            && Tracked(r.list.value.descs, base, r.transfers, r.list.value.page)
    decreases |c.transfers|
  {
    hide Tracked, IsComplete;
    if c.transfers != [] && IsComplete(c, c.transfers[0], hw) {
      ClearTracked(c.list.value, base, c.transfers);
      ReapTracked(ReapOne(c), hw, base);
    }
  }

  /** Dropping everything in flight leaves the default control word, or the one the list came with, everywhere. */
  lemma {:induction false} DroppedIsClean(l: List, base: seq<Desc>, ts: seq<Transfer>)
    requires Tracked(l.descs, base, ts, l.page)
    ensures Dropped(l, ts).page == l.page
    ensures Tracked(Dropped(l, ts).descs, base, [], l.page)
    decreases |ts|
  {
    hide Tracked;
    if ts != [] {
      ClearTracked(l, base, ts);
      DroppedIsClean(Cleared(l, ts[0]), base, ts[1..]);
    }
  }

  /** Completing transfers changes nothing on the list but the control words that those who left had listed: addresses
      and status words stay, so that a buffer bound before is still bound. */
  lemma {:induction false} ReapOnlyClears(c: Channel, hw: nat, j: nat)
    requires c.list.Some? && j < |c.list.value.descs|
    ensures var r := Reap(c, hw);
            && r.list.Some? && |r.list.value.descs| == |c.list.value.descs|
            && var before, after := c.list.value.descs[j], r.list.value.descs[j];
               && after.(control := before.control) == before
               && after.control == if InFlight(Done(c, hw), j) then ControlWord(c.list.value.page) else before.control
    decreases |c.transfers|
  {
    hide IsComplete, And, ControlWord, InFlight;
    if c.transfers != [] && IsComplete(c, c.transfers[0], hw) {
      ReapOnlyClears(ReapOne(c), hw, j);
      InFlightSplit(Done(c, hw), j);
      assert Done(c, hw)[1..] == Done(ReapOne(c), hw);
    } else {
      NoneInFlight(j);
    }
  }

  lemma NoneInFlight(j: nat)
    ensures !InFlight([], j)
  {
  }

  /** So does dropping them. */
  lemma {:induction false} DropOnlyClears(l: List, ts: seq<Transfer>, j: nat)
    requires j < |l.descs|
    ensures var r := Dropped(l, ts);
            && |r.descs| == |l.descs| && r.(descs := l.descs) == l
            && r.descs[j].(control := l.descs[j].control) == l.descs[j]
            && r.descs[j].control == if InFlight(ts, j) then ControlWord(l.page) else l.descs[j].control
    decreases |ts|
  {
    hide ControlWord, InFlight;
    if ts != [] {
      DropOnlyClears(Cleared(l, ts[0]), ts[1..], j);
      InFlightSplit(ts, j);
    } else {
      NoneInFlight(j);
    }
  }

  /** With no transfer in flight, a list that came with default control words has them all again. */
  lemma EmptyRingIsDefault(descs: seq<Desc>, base: seq<Desc>, page: nat)
    requires Tracked(descs, base, [], page) && AllDefault(base, page)
    ensures AllDefault(descs, page)
  {
    forall j | 0 <= j < |descs| ensures descs[j].control == ControlWord(page) {
      assert !InFlight([], j);
    }
  }

  /** Retiring the oldest transfer leaves every descriptor of the others as it was. */
  lemma ReapLeavesOthers(c: Channel, i: nat, d: nat)
    requires Geometric(c) && 0 < i < |c.transfers|
    requires Occupies(c.transfers[i], d, |c.list.value.descs|)
    ensures |ReapOne(c).list.value.descs| == |c.list.value.descs|
    ensures ReapOne(c).list.value.descs[d] == c.list.value.descs[d]
  {
    hide ControlWord, And, Len;
    IntervalsDisjoint(c, 0, i, d);
  }

  // ----- launching -----

  /** j is one of the m descriptors a request takes from `start` on. */
  predicate InRange(j: nat, start: nat, m: nat, n: nat) {
    j < n && start < n && Offset(j, start, n) < m
  }

  /** A descriptor of the request that the transfer does not list is inside a buffer, and not the first of all. */
  lemma Unlisted(req: Request, n: nat, page: nat, j: nat)
    requires 0 < page < TWO_16 && req.start < n && Counts(req.buffers, req.bind, page) <= n
    requires forall b | b in req.buffers :: b.size > 0 && Programmable(b, req.bind, n, page)
    requires InRange(j, req.start, Counts(req.buffers, req.bind, page), n)
    ensures var i := Offset(j, req.start, n);
            && (i == 0 <==> j == req.start)
            && (IsEnd(i, req.buffers, req.bind, page) <==> j in Ends(req.buffers, req.bind, req.start, n, page))
  {
    hide Counts, Programmable, IsEnd, Ends;
    EndsAreEnds(req.buffers, req.bind, req.start, 0, n, page, Offset(j, req.start, n));
  }

  /** The control words a launch leaves where the transfer lists nothing: as they were on the fast path, and the
      default one after a bind of tidy buffers. */
  lemma WrittenInside(l: List, req: Request, hw: Hw, i: nat)
    requires Circular(l) && req.start < |l.descs| && req.buffers != [] && Taking(req.buffers, req.bind, l.page)
    requires forall b | b in req.buffers :: b.size > 0 && Programmable(b, req.bind, |l.descs|, l.page)
    requires 0 < i < Counts(req.buffers, req.bind, l.page) <= |l.descs| && !IsEnd(i, req.buffers, req.bind, l.page)
    ensures !req.bind ==> Written(l, req, hw)[i] == l.descs[Wrap(req.start + i, |l.descs|)]
    ensures req.bind && Tidy(req.buffers, req.bind, l.page) ==> Written(l, req, hw)[i].control == ControlWord(l.page)
  {
    hide Counts, Programmable, IsEnd, Taking, InterruptBits, ControlWord, All, Tidy, IsPow2, Wrap, Or;
    var m := Counts(req.buffers, req.bind, l.page);
    var w := Window(l.descs, req.start, m);
    var bits := InterruptBits(hw, req.last, req.debug);
    if req.bind {
      BoundInsideFirst(w, req.buffers, |l.descs|, l.page, hw, bits);
    } else {
      FastInside(w, req.buffers, l.page, hw, bits, i);
    }
  }

  /** A launch of tidy buffers lists every descriptor it gives a control word of its own. */
  lemma LaunchTracked(c: Channel, l: List, regs: Registers, req: Request, hw: Hw, base: seq<Desc>)
    requires Circular(l) && (c.list.Some? ==> c.list.value == l)
    requires Acceptable(c, l, regs, req) && |c.transfers| < 127 && Counts(req.buffers, req.bind, l.page) <= |l.descs|
    requires Tracked(l.descs, base, c.transfers, l.page) && Tidy(req.buffers, req.bind, l.page)
    ensures var r := Launch(c, l, regs, req, hw).channel;
            r.list.Some? && Tracked(r.list.value.descs, base, r.transfers, l.page)
  {
    hide Launch, Counts, Programmable, Ends, ControlWord, InFlight, Written, Tidy, IsPow2, Len, Taking, Passes;
    LaunchQueues(c, l, regs, req, hw);
    LaunchWrites(c, l, regs, req, hw);
    var r, n, m := Launch(c, l, regs, req, hw).channel, |l.descs|, Counts(req.buffers, req.bind, l.page);
    var t, after := r.transfers[|c.transfers|], r.list.value.descs;
    forall j | 0 <= j < n
      ensures after[j].control == ControlWord(l.page) || after[j].control == base[j].control || InFlight(r.transfers, j)
    {
      InFlightAppend(c.transfers, t, j);
      if InRange(j, req.start, m, n) && j !in t.dirty {
        Unlisted(req, n, l.page, j);
        WrittenInside(l, req, hw, Offset(j, req.start, n));
      }
    }
  }

  // ----- exactly when a launch leaves an unusual control word that no transfer lists -----

  /** The descriptor has the default control word, or a transfer in flight lists it. */
  ghost predicate ListedAt(descs: seq<Desc>, ts: seq<Transfer>, page: nat, j: nat)
    requires j < |descs|
  {
    descs[j].control == ControlWord(page) || InFlight(ts, j)
  }

  ghost predicate Listed(descs: seq<Desc>, ts: seq<Transfer>, page: nat) {
    forall j | 0 <= j < |descs| :: ListedAt(descs, ts, page, j)
  }

  /** Transfers in flight list no descriptor outside the interval from num_proc to num_avail. */
  lemma FreeIsUnlisted(c: Channel, j: nat)
    requires Geometric(c) && j < |c.list.value.descs|
    requires Offset(j, c.numProc, |c.list.value.descs|) >= Sum(c.transfers, |c.list.value.descs|)
    ensures !InFlight(c.transfers, j)
  {
    hide Chain, Sum, Len;
    if InFlight(c.transfers, j) {
      var ts, n := c.transfers, |c.list.value.descs|;
      var t :| t in ts && j in t.dirty;
      var i :| 0 <= i < |ts| && ts[i] == t;
      ChainAt(ts, c.numProc, n, i);
    }
  }

  /** The descriptors of a request that fits are free. */
  lemma RangeIsFree(c: Channel, m: nat, j: nat)
    requires Geometric(c) && Sum(c.transfers, |c.list.value.descs|) + m <= |c.list.value.descs|
    requires InRange(j, c.numAvail, m, |c.list.value.descs|)
    ensures !InFlight(c.transfers, j)
  {
    hide Chain, Sum, InFlight;
    FreeIsUnlisted(c, j);
  }

  /** The words that programming leaves as they were: outside the request's descriptors and, on the fast path, inside
      its buffers. */
  predicate Kept(l: List, req: Request, j: nat)
    requires l.page > 0 && |l.descs| > 0
  {
    if req.bind then !InRange(j, req.start, Counts(req.buffers, req.bind, l.page), |l.descs|)
    else j !in Ends(req.buffers, req.bind, req.start, |l.descs|, l.page)
  }

  /** An accepted launch on free descriptors leaves every unusual control word listed if and only if its buffers are
      tidy and the words it does not write were listed before. */
  lemma LaunchLists(c: Channel, l: List, regs: Registers, req: Request, hw: Hw)
    requires Circular(l) && (c.list.Some? ==> c.list.value == l) && Geometric(Attach(c, l))
    requires Acceptable(c, l, regs, req) && |c.transfers| < 127
    requires Sum(c.transfers, |l.descs|) + Counts(req.buffers, req.bind, l.page) <= |l.descs|
    ensures var r := Launch(c, l, regs, req, hw).channel;
            && r.list.Some?
            && (Listed(r.list.value.descs, r.transfers, l.page)
                <==> && Tidy(req.buffers, req.bind, l.page)
                     && forall j | 0 <= j < |l.descs| && j != req.start && Kept(l, req, j) ::
                          ListedAt(l.descs, c.transfers, l.page, j))
  {
    hide Launch, Counts, Programmable, Ends, ListedAt, Written, Tidy, IsPow2, Len, Taking, Passes, Chain, Sum, Kept,
      IsEnd;
    AcceptableStart(c, l, regs, req);
    LaunchQueues(c, l, regs, req, hw);
    LaunchWrites(c, l, regs, req, hw);
    var r, n, m := Launch(c, l, regs, req, hw).channel, |l.descs|, Counts(req.buffers, req.bind, l.page);
    var t, after := r.transfers[|c.transfers|], r.list.value.descs;
    forall j | 0 <= j < n
      ensures j == req.start ==> ListedAt(after, r.transfers, l.page, j)
      ensures j != req.start && Kept(l, req, j) ==>
                (ListedAt(after, r.transfers, l.page, j) <==> ListedAt(l.descs, c.transfers, l.page, j))
      ensures Tidy(req.buffers, req.bind, l.page) && !Kept(l, req, j) ==> ListedAt(after, r.transfers, l.page, j)
    {
      LaunchListsAt(c, l, req, hw, t, j);
    }
    if req.bind && Listed(after, r.transfers, l.page) {
      ListedIsTidy(c, l, req, hw, t);
    } else if !req.bind {
      FastIsTidy(req.buffers, l.page);
    }
  }

  lemma FastIsTidy(buffers: seq<Buffer>, page: nat)
    requires page > 0
    ensures Tidy(buffers, false, page)
  {
  }

  /** What LaunchLists says of one descriptor. */
  lemma LaunchListsAt(c: Channel, l: List, req: Request, hw: Hw, t: Transfer, j: nat)
    requires Circular(l) && req.start < |l.descs| && req.buffers != [] && Taking(req.buffers, req.bind, l.page)
    requires forall b | b in req.buffers :: b.size > 0 && Programmable(b, req.bind, |l.descs|, l.page)
    requires 0 < Counts(req.buffers, req.bind, l.page) <= |l.descs| && j < |l.descs|
    requires t.dirty == [req.start] + Ends(req.buffers, req.bind, req.start, |l.descs|, l.page)
    ensures var after := WriteAt(l.descs, req.start, Written(l, req, hw));
            && (j == req.start ==> ListedAt(after, c.transfers + [t], l.page, j))
            && (j != req.start && Kept(l, req, j) ==>
                  (ListedAt(after, c.transfers + [t], l.page, j) <==> ListedAt(l.descs, c.transfers, l.page, j)))
            && (Tidy(req.buffers, req.bind, l.page) && !Kept(l, req, j) ==>
                  ListedAt(after, c.transfers + [t], l.page, j))
  {
    hide Counts, Programmable, Ends, Written, Tidy, IsPow2, Taking, IsEnd, InFlight, ControlWord;
    InFlightAppend(c.transfers, t, j);
    var n, m := |l.descs|, Counts(req.buffers, req.bind, l.page);
    if InRange(j, req.start, m, n) {
      Unlisted(req, n, l.page, j);
      if j !in t.dirty {
        WrittenInside(l, req, hw, Offset(j, req.start, n));
      }
    } else if j in Ends(req.buffers, req.bind, req.start, n, l.page) {
      WrapZero(req.start, n);
      EndsInside(req.buffers, req.bind, req.start, 0, n, l.page, j);
    }
  }

  /** If everything is listed after a bind, the buffers were tidy. */
  lemma ListedIsTidy(c: Channel, l: List, req: Request, hw: Hw, t: Transfer)
    requires Circular(l) && Geometric(Attach(c, l)) && req.start == c.numAvail && req.buffers != [] && req.bind
    requires Taking(req.buffers, true, l.page)
    requires forall b | b in req.buffers :: b.size > 0 && Programmable(b, true, |l.descs|, l.page)
    requires 0 < Counts(req.buffers, true, l.page)
    requires Sum(c.transfers, |l.descs|) + Counts(req.buffers, true, l.page) <= |l.descs|
    requires t.dirty == [req.start] + Ends(req.buffers, true, req.start, |l.descs|, l.page)
    requires Listed(WriteAt(l.descs, req.start, Written(l, req, hw)), c.transfers + [t], l.page)
    ensures Tidy(req.buffers, true, l.page)
  {
    hide Counts, Programmable, Ends, Tidy, IsPow2, Taking, InFlight, ControlWord, All, Chain, Sum, InterruptBits, Or,
      IsEnd, Len;
    var n, m := |l.descs|, Counts(req.buffers, true, l.page);
    var w, bits := Window(l.descs, req.start, m), InterruptBits(hw, req.last, req.debug);
    var all := All(w, req.buffers, true, l.page, l.page, hw, bits);
    var after := WriteAt(l.descs, req.start, Written(l, req, hw));
    forall i | 1 <= i < m && !IsEnd(i, req.buffers, true, l.page) ensures all[i].control == ControlWord(l.page) {
      var j := Wrap(req.start + i, n);
      OffsetOfWrap(req.start, i, n);
      Unlisted(req, n, l.page, j);
      InFlightAppend(c.transfers, t, j);
      RangeIsFree(Attach(c, l), m, j);
      assert ListedAt(after, c.transfers + [t], l.page, j);
    }
    BoundInsideFirst(w, req.buffers, n, l.page, hw, bits);
  }

  // ----- a launch that finds the ring full -----

  /** Programming that leaves default control words behind: whole pages, no interrupt bits, and pieces that end on
      page boundaries where buffers are bound. */
  predicate Plain(req: Request, page: nat, hw: Hw)
    requires page > 0
  {
    && WholePages(req.buffers, req.bind, page)
    && InterruptBits(hw, req.first, req.debug) == 0
    && InterruptBits(hw, req.last, req.debug) == 0
  }

  /** All the words of a request are default ones exactly when it is plain and those it keeps were. */
  lemma WrittenDefault(l: List, req: Request, hw: Hw)
    requires Circular(l) && req.start < |l.descs| && req.buffers != [] && Taking(req.buffers, req.bind, l.page)
    requires forall b | b in req.buffers :: b.size > 0 && Programmable(b, req.bind, |l.descs|, l.page)
    requires 0 < Counts(req.buffers, req.bind, l.page) <= |l.descs|
    requires Requesting(InterruptBits(hw, req.first, req.debug)) && Requesting(InterruptBits(hw, req.last, req.debug))
    ensures AllDefault(Written(l, req, hw), l.page)
       <==> && Plain(req, l.page, hw)
            && (req.bind || InsideDefault(Window(l.descs, req.start, Counts(req.buffers, req.bind, l.page)), 0,
                                          req.buffers, req.bind, l.page))
  {
    hide Counts, Programmable, IsPow2, Taking, ControlWord, All, InterruptBits, Or, WholePages, InsideDefault,
      Requesting;
    var w := Window(l.descs, req.start, Counts(req.buffers, req.bind, l.page));
    var first, last := InterruptBits(hw, req.first, req.debug), InterruptBits(hw, req.last, req.debug);
    AllDefaultIff(w, req.buffers, req.bind, |l.descs|, l.page, hw, last);
    var all := All(w, req.buffers, req.bind, l.page, l.page, hw, last);
    BitsShow(all[0].control, first, l.page);
    SetDefault(all, first, l.page);
  }

  lemma SetDefault(all: seq<Desc>, bits: nat, page: nat)
    requires all != []
    requires Or(all[0].control, bits) == ControlWord(page) <==> bits == 0 && all[0].control == ControlWord(page)
    ensures AllDefault(SetBits(all, 0, bits), page) <==> bits == 0 && AllDefault(all, page)
  {
    hide Or, ControlWord;
    var set' := SetBits(all, 0, bits);
    assert forall i | 0 < i < |all| :: set'[i] == all[i];
    if AllDefault(set', page) {
      assert set'[0].control == ControlWord(page);
      forall i | 0 <= i < |all| ensures all[i].control == ControlWord(page) {
        assert i > 0 ==> set'[i] == all[i];
      }
    } else if bits == 0 && AllDefault(all, page) {
      forall i | 0 <= i < |all| ensures set'[i].control == ControlWord(page) {
        assert i > 0 ==> set'[i] == all[i];
      }
    }
  }

  /** Writing free descriptors keeps everything listed exactly when the new words are default ones and the others were
      listed before. */
  lemma WriteListed(before: seq<Desc>, start: nat, ds: seq<Desc>, ts: seq<Transfer>, page: nat)
    requires start < |before| && |ds| <= |before|
    requires forall j | 0 <= j < |before| && InRange(j, start, |ds|, |before|) :: !InFlight(ts, j)
    ensures Listed(WriteAt(before, start, ds), ts, page)
       <==> && AllDefault(ds, page)
            && forall j | 0 <= j < |before| && !InRange(j, start, |ds|, |before|) :: ListedAt(before, ts, page, j)
  {
    hide ControlWord, InFlight;
    var n, after := |before|, WriteAt(before, start, ds);
    if Listed(after, ts, page) {
      forall i | 0 <= i < |ds| ensures ds[i].control == ControlWord(page) {
        var j := Wrap(start + i, n);
        OffsetOfWrap(start, i, n);
        assert InRange(j, start, |ds|, n) && ListedAt(after, ts, page, j);
      }
      forall j | 0 <= j < n && !InRange(j, start, |ds|, n) ensures ListedAt(before, ts, page, j) {
        assert ListedAt(after, ts, page, j);
      }
    } else {
      var j :| 0 <= j < n && !ListedAt(after, ts, page, j);
      assert !InRange(j, start, |ds|, n) ==> !ListedAt(before, ts, page, j);
    }
  }

  /** On the fast path, the words inside the buffers are those the launch keeps. */
  lemma KeptInside(c: Channel, l: List, req: Request)
    requires Circular(l) && req.start < |l.descs| && !req.bind
    requires forall b | b in req.buffers :: b.size > 0 && Programmable(b, false, |l.descs|, l.page)
    requires Counts(req.buffers, false, l.page) <= |l.descs|
    requires var m := Counts(req.buffers, false, l.page);
             forall j | 0 <= j < |l.descs| && InRange(j, req.start, m, |l.descs|) :: !InFlight(c.transfers, j)
    ensures var m := Counts(req.buffers, false, l.page);
            (&& InsideDefault(Window(l.descs, req.start, m), 0, req.buffers, false, l.page)
             && forall j | 0 <= j < |l.descs| && !InRange(j, req.start, m, |l.descs|) ::
                  ListedAt(l.descs, c.transfers, l.page, j))
            <==> forall j | 0 <= j < |l.descs| && Kept(l, req, j) :: ListedAt(l.descs, c.transfers, l.page, j)
  {
    hide Counts, Programmable, Ends, IsPow2, InFlight, ControlWord, IsEnd;
    var n, m := |l.descs|, Counts(req.buffers, false, l.page);
    var w := Window(l.descs, req.start, m);
    forall j | 0 <= j < n
      ensures !InRange(j, req.start, m, n) ==> Kept(l, req, j)
      ensures InRange(j, req.start, m, n) ==>
                && w[Offset(j, req.start, n)] == l.descs[j]
                && (Kept(l, req, j) <==> !IsEnd(Offset(j, req.start, n), req.buffers, false, l.page))
    {
      if InRange(j, req.start, m, n) {
        Unlisted(req, n, l.page, j);
      } else if j in Ends(req.buffers, false, req.start, n, l.page) {
        WrapZero(req.start, n);
        EndsInside(req.buffers, false, req.start, 0, n, l.page, j);
      }
    }
    if forall j | 0 <= j < n && Kept(l, req, j) :: ListedAt(l.descs, c.transfers, l.page, j) {
      forall i | 0 <= i < m && !IsEnd(i, req.buffers, false, l.page) ensures w[i].control == ControlWord(l.page) {
        var j := Wrap(req.start + i, n);
        OffsetOfWrap(req.start, i, n);
        assert Kept(l, req, j) && ListedAt(l.descs, c.transfers, l.page, j);
      }
    }
  }

  /** With 127 transfers in flight the launch fails and the channel keeps its transfers and counters, but the
      descriptors have been programmed, and no transfer lists them. Every unusual control word is still listed if and
      only if the request is plain and the words it does not write were listed before. */
  lemma FullRingLaunch(c: Channel, l: List, regs: Registers, req: Request, hw: Hw)
    requires Circular(l) && c.list == Some(l) && Geometric(c) && PlainHw(hw)
    requires Acceptable(c, l, regs, req) && |c.transfers| >= 127
    requires Sum(c.transfers, |l.descs|) + Counts(req.buffers, req.bind, l.page) <= |l.descs|
    ensures var r := Launch(c, l, regs, req, hw);
            && r.ret == EFAULT
            && r.channel.(list := c.list) == c
            && Geometric(r.channel)
            && Taking(req.buffers, req.bind, l.page) && Counts(req.buffers, req.bind, l.page) > 0
            && r.channel.list.value.descs == WriteAt(l.descs, req.start, Written(l, req, hw))
            && (Listed(r.channel.list.value.descs, c.transfers, l.page)
                <==> && Plain(req, l.page, hw)
                     && forall j | 0 <= j < |l.descs| && Kept(l, req, j) :: ListedAt(l.descs, c.transfers, l.page, j))
  {
    hide Launch, Counts, Programmable, Ends, ListedAt, Written, IsPow2, Len, Taking, Passes, Chain, Sum, IsEnd,
      InFlight, Plain, InsideDefault, PlainHw, AllDefault;
    AcceptableStart(c, l, regs, req);
    LaunchWrites(c, l, regs, req, hw);
    var n, m := |l.descs|, Counts(req.buffers, req.bind, l.page);
    StillCircular(l, Launch(c, l, regs, req, hw).channel.list.value.descs);
    forall j | 0 <= j < n && InRange(j, req.start, m, n) ensures !InFlight(c.transfers, j) {
      RangeIsFree(c, m, j);
    }
    WriteListed(l.descs, req.start, Written(l, req, hw), c.transfers, l.page);
    BitsRequest(hw, req.first, req.debug);
    BitsRequest(hw, req.last, req.debug);
    WrittenDefault(l, req, hw);
    if !req.bind {
      KeptInside(c, l, req);
    }
  }

  /** A plain request writes default control words or leaves them. */
  lemma PlainWrites(l: List, req: Request, hw: Hw, i: nat)
    requires Circular(l) && req.start < |l.descs| && req.buffers != [] && Taking(req.buffers, req.bind, l.page)
    requires forall b | b in req.buffers :: b.size > 0 && Programmable(b, req.bind, |l.descs|, l.page)
    requires i < Counts(req.buffers, req.bind, l.page) <= |l.descs| && Plain(req, l.page, hw)
    ensures || Written(l, req, hw)[i].control == ControlWord(l.page)
            || Written(l, req, hw)[i].control == l.descs[Wrap(req.start + i, |l.descs|)].control
  {
    hide Counts, Programmable, IsPow2, Taking, ControlWord, All, InterruptBits, Or, WholePages, InsideDefault, IsEnd,
      Wrap;
    var w := Window(l.descs, req.start, Counts(req.buffers, req.bind, l.page));
    if req.bind {
      WrittenDefault(l, req, hw);
    } else {
      var all := All(w, req.buffers, false, l.page, l.page, hw, 0);
      OrZero(all[0].control);
      assert Written(l, req, hw)[i].control == all[i].control;
      if IsEnd(i, req.buffers, false, l.page) {
        FastEnds(w, req.buffers, l.page, hw, i);
      } else {
        FastInside(w, req.buffers, l.page, hw, 0, i);
      }
    }
  }

  lemma FullRingTracked(c: Channel, l: List, regs: Registers, req: Request, hw: Hw, base: seq<Desc>)
    requires Circular(l) && c.list == Some(l) && Acceptable(c, l, regs, req) && |c.transfers| >= 127
    requires Counts(req.buffers, req.bind, l.page) <= |l.descs|
    requires Tracked(l.descs, base, c.transfers, l.page) && Plain(req, l.page, hw)
    ensures var r := Launch(c, l, regs, req, hw).channel;
            r.list.Some? && Tracked(r.list.value.descs, base, c.transfers, l.page)
  {
    hide Launch, Counts, Programmable, ControlWord, InFlight, Written, Plain, IsPow2, Taking, Passes;
    LaunchWrites(c, l, regs, req, hw);
    var n, m := |l.descs|, Counts(req.buffers, req.bind, l.page);
    var after := Launch(c, l, regs, req, hw).channel.list.value.descs;
    forall j | 0 <= j < n
      ensures after[j].control == ControlWord(l.page) || after[j].control == base[j].control || InFlight(c.transfers, j)
    {
      if InRange(j, req.start, m, n) {
        PlainWrites(l, req, hw, Offset(j, req.start, n));
      }
    }
  }
}
