/** One channel over time: launches, hardware progress, interrupts, completions and disabling, with the history
    that the safety properties speak about. */
module ChannelRuns {
  import opened Bits
  import opened Cyclic
  import opened Descriptors
  import opened Results
  import opened Transfers
  import opened ChannelModel
  import opened Geometry
  import opened Requests
  import opened Launches
  import opened LaunchWords
  import opened DirtyDescriptors
  import opened Integrity

  /** How a transfer left the ring. */
  datatype Retirement = Completed(t: Transfer) | WasDropped(t: Transfer)

  /** A channel with its history. Since the list was attached, `processed` descriptors have been processed by the
      hardware, `reaped` of them belong to retired transfers, and `signalled` had been processed when the last
      interrupt was delivered. `base` is the list as attached. `sound` says that every launch since met the condition
      under which it keeps the geometry, `tidy` that under which it leaves no unlisted control word, and `intact` that
      under which it leaves the descriptors of the transfers in flight alone. `naming` says of each of these whether it
      was bound to aligned memory. `launched` and `retired` cover all time. */
  datatype Chan = Chan(ch: Channel, base: seq<Desc>, reaped: nat, processed: nat, signalled: nat, sound: bool,
                       tidy: bool, intact: bool, naming: seq<bool>, launched: seq<Transfer>, retired: seq<Retirement>)

  const NEW_CHAN := Chan(IDLE, [], 0, 0, 0, true, true, true, [], [], [])

  function Names(rs: seq<Retirement>): seq<Transfer> {
    seq(|rs|, i requires 0 <= i < |rs| => rs[i].t)
  }

  function AllCompleted(ts: seq<Transfer>): seq<Retirement> {
    seq(|ts|, i requires 0 <= i < |ts| => Completed(ts[i]))
  }

  function AllDropped(ts: seq<Transfer>): seq<Retirement> {
    seq(|ts|, i requires 0 <= i < |ts| => WasDropped(ts[i]))
  }

  lemma NamesOf(rs: seq<Retirement>, ts: seq<Transfer>)
    ensures Names(rs + AllCompleted(ts)) == Names(rs) + ts
    ensures Names(rs + AllDropped(ts)) == Names(rs) + ts
  {
  }

  // ----- steps of one channel -----

  function Slots(x: Chan): nat {
    if x.ch.list.Some? then |x.ch.list.value.descs| else 0
  }

  /** The hardware does not run past what is in flight. On a channel whose geometry a launch has broken it may do
      anything. */
  ghost predicate CanProgress(x: Chan, n: nat) {
    x.ch.list.Some? && (x.sound ==> x.processed + n <= x.reaped + Sum(x.ch.transfers, Slots(x)))
  }

  function Progress(x: Chan, n: nat): Chan {
    x.(processed := x.processed + n)
  }

  /** The hardware writes the status word of a descriptor. */
  function WriteStatus(x: Chan, j: nat, status: nat): Chan
    requires x.ch.list.Some? && j < |x.ch.list.value.descs|
  {
    var l := x.ch.list.value;
    x.(ch := x.ch.(list := Some(l.(descs := l.descs[j := l.descs[j].(status := status)]))))
  }

  function Signal(x: Chan): Chan {
    x.(signalled := x.processed)
  }

  /** The register shows the number of descriptors processed, modulo the list; in place of 0 it may show the
      descriptor count. On a channel whose geometry is broken it may show anything. */
  ghost predicate Shows(x: Chan, raw: nat) {
    x.ch.list.Some? && |x.ch.list.value.descs| > 0 && x.sound ==>
      var n := |x.ch.list.value.descs|;
      raw == x.processed % n || (x.processed % n == 0 && raw == n)
  }

  /** fill_channel_irq_data on a register value; a channel without a list is skipped. */
  function Fill(x: Chan, raw: nat): Chan {
    if x.ch.list.None? then x
    else
      var hw := And(raw, x.ch.mask) % TWO_16;
      var done := Done(x.ch, hw);
      x.(ch := Reap(x.ch, hw),
         reaped := x.reaped + Sum(done, Slots(x)),
         naming := if |done| <= |x.naming| then x.naming[|done|..] else [],
         retired := x.retired + AllCompleted(done))
  }

  function Disable(x: Chan): Chan {
    Chan(IDLE, [], 0, 0, 0, true, true, true, [], x.launched, x.retired + AllDropped(x.ch.transfers))
  }

  /** A launch on the attached list, or on a list to attach; one that passes the checks starts inside it. */
  ghost predicate CanLaunch(x: Chan, l: List, regs: Registers, req: Request) {
    && l.Valid() && (x.ch.list.Some? ==> x.ch.list.value == l)
    && (Passes(x.ch, regs, req) ==> req.start < |l.descs|)
  }

  /** What keeps the geometry: the launch is refused by the checks, or its buffers can be programmed, and then it finds
      the ring full or leaves a descriptor free. See Launches.LaunchGeometric. */
  ghost predicate Sound(c: Channel, l: List, regs: Registers, req: Request) {
    && Circular(l)
    && (|| !Passes(c, regs, req)
        || (&& Acceptable(c, l, regs, req)
            && Counts(req.buffers, req.bind, l.page) <= |l.descs|
            && (|| |c.transfers| >= 127
                || Sum(c.transfers, |l.descs|) + Counts(req.buffers, req.bind, l.page) < |l.descs|)))
  }

  /** The request leaves no unlisted control word: see DirtyDescriptors.LaunchLists and FullRingLaunch. */
  predicate LeavesNone(c: Channel, req: Request, page: nat, hw: Hw)
    requires page > 0
  {
    if |c.transfers| < 127 then Tidy(req.buffers, req.bind, page) else Plain(req, page, hw)
  }

  ghost function LaunchOn(x: Chan, l: List, regs: Registers, req: Request, hw: Hw): Chan
    requires l.Valid() && (x.ch.list.Some? ==> x.ch.list.value == l)
    requires Passes(x.ch, regs, req) ==> req.start < |l.descs|
  {
    var r := Launch(x.ch, l, regs, req, hw);
    var queued := |r.channel.transfers| > |x.ch.transfers|;
    x.(ch := r.channel,
       base := if x.ch.list.None? then l.descs else x.base,
       sound := x.sound && Sound(x.ch, l, regs, req),
       tidy := x.tidy && (Passes(x.ch, regs, req) ==> LeavesNone(x.ch, req, l.page, hw)),
       intact := x.intact && (Passes(x.ch, regs, req) ==> LeavesAlone(x.ch, l, req)),
       naming := x.naming + if queued then [NamesBytes(req, l.page, hw)] else [],
       launched := x.launched + if queued then [r.channel.transfers[|x.ch.transfers|]] else [])
  }

  /** A launch that names a list other than the attached one; it is harmless if that has the same length. */
  function LaunchElsewhere(x: Chan, other: List): Chan
    requires |other.descs| > 0
  {
    x.(ch := LaunchOther(x.ch, other).channel, sound := x.sound && |other.descs| == Slots(x))
  }

  /** HAILO_DESC_LIST_PROGRAM on an attached list: the descriptors become those a batch leaves, whoever they
      belong to. */
  function Reprogram(x: Chan, descs: seq<Desc>): Chan
    requires x.ch.list.Some?
  {
    x.(ch := x.ch.(list := Some(x.ch.list.value.(descs := descs))), tidy := false, intact := false)
  }

  // ----- the invariant -----

  /** Launched is retired plus in flight, in launch order. */
  ghost predicate Conserved(x: Chan) {
    x.launched == Names(x.retired) + x.ch.transfers
  }

  ghost predicate Attached(x: Chan) {
    && Geometric(x.ch)
    && (x.tidy ==> Tracked(x.ch.list.value.descs, x.base, x.ch.transfers, x.ch.list.value.page))
    && (x.intact ==> Intact(x.ch, x.naming))
    && x.ch.numProc == x.reaped % |x.ch.list.value.descs|
    && x.signalled <= x.processed
    && x.reaped <= x.processed <= x.reaped + Sum(x.ch.transfers, |x.ch.list.value.descs|)
  }

  ghost predicate Detached(x: Chan) {
    && x.ch.transfers == [] && x.ch.numAvail == 0 && x.ch.numProc == 0
    && x.reaped == 0 && x.processed == 0 && x.signalled == 0 && x.naming == []
  }

  /** Conservation holds whatever is launched; the rest, while launches are sound. */
  ghost predicate ChanInv(x: Chan) {
    && Conserved(x) && |x.ch.transfers| <= 127
    && if x.ch.list.Some? then x.sound ==> Attached(x) else Detached(x)
  }

  /** No transfer in flight was fully processed when the last interrupt was delivered. */
  ghost predicate Quiet(x: Chan) {
    x.ch.list.Some? ==>
      forall i | 0 < i <= |x.ch.transfers| :: x.reaped + Sum(x.ch.transfers[..i], Slots(x)) > x.signalled
  }

  // ----- counters -----

  lemma ModShift(a: nat, d: nat, n: nat)
    requires n > 0 && d <= n
    ensures a % n + d < 2 * n
    ensures (a + d) % n == Wrap(a % n + d, n)
  {
    var q := a / n;
    assert a == q * n + a % n;
    if a % n + d < n {
      DivModUnique(a + d, n, q, a % n + d);
    } else {
      MulNext(q, n);
      DivModUnique(a + d, n, q + 1, a % n + d - n);
    }
  }

  /** The masked register is the position `processed - reaped` behind num_proc. */
  lemma CounterPosition(x: Chan, raw: nat)
    requires x.ch.list.Some? && x.sound && Attached(x) && Shows(x, raw)
    ensures And(raw, x.ch.mask) % TWO_16 == Wrap(x.ch.numProc + (x.processed - x.reaped), |x.ch.list.value.descs|)
  {
    hide Chain, Tracked, And;
    var n := |x.ch.list.value.descs|;
    ModShift(x.reaped, x.processed - x.reaped, n);
    CounterReads(n, raw, x.processed % n);
  }

  // ----- every step keeps the invariant -----

  lemma ProgressKeeps(x: Chan, n: nat)
    requires ChanInv(x) && CanProgress(x, n)
    ensures ChanInv(Progress(x, n)) && (Quiet(x) ==> Quiet(Progress(x, n)))
  {
    hide Geometric, Tracked, Sum, Intact;
  }

  lemma SignalKeeps(x: Chan)
    requires ChanInv(x)
    ensures ChanInv(Signal(x))
  {
    hide Geometric, Tracked, Sum, Intact;
  }

  lemma StatusKeeps(x: Chan, j: nat, status: nat)
    requires ChanInv(x) && x.ch.list.Some? && j < |x.ch.list.value.descs|
    ensures ChanInv(WriteStatus(x, j, status)) && (Quiet(x) ==> Quiet(WriteStatus(x, j, status)))
  {
    hide Sum, Chain, ControlWord, InFlight, Intact;
    if x.sound && x.intact {
      StatusIntact(x.ch, x.naming, j, status);
    }
  }

  lemma DisableKeeps(x: Chan)
    requires ChanInv(x)
    ensures ChanInv(Disable(x)) && Quiet(Disable(x)) && Disable(x).ch.transfers == []
  {
    hide Geometric, Tracked;
    NamesOf(x.retired, x.ch.transfers);
    assert Names(x.retired) + x.ch.transfers + [] == Names(x.retired) + x.ch.transfers;
  }

  /** What the completion loop leaves, stated with the counters of the history. */
  lemma FillRetires(x: Chan, raw: nat)
    requires x.ch.list.Some? && x.sound && Attached(x) && Shows(x, raw)
    ensures var hw := And(raw, x.ch.mask) % TWO_16;
            Retired(x.ch, x.processed - x.reaped, Reap(x.ch, hw), Done(x.ch, hw))
  {
    hide Chain, Tracked, And, Retired, Reap, Done, Shows;
    CounterPosition(x, raw);
    ExactCompletion(x.ch, x.processed - x.reaped);
  }

  lemma FillAttached(x: Chan, raw: nat)
    requires x.ch.list.Some? && x.sound && Attached(x) && Shows(x, raw)
    ensures Fill(x, raw).ch.list.Some? && Attached(Fill(x, raw))
  {
    hide Chain, Tracked, And, Done, Reap, Processed, Intact;
    FillRetires(x, raw);
    var hw := And(raw, x.ch.mask) % TWO_16;
    var n, done := |x.ch.list.value.descs|, Done(x.ch, hw);
    if x.tidy {
      ReapTracked(x.ch, hw, x.base);
    }
    if x.intact {
      ReapIntact(x.ch, hw, x.naming);
    }
    ModShift(x.reaped, Sum(done, n), n);
    var k := Processed(x.ch.transfers, x.processed - x.reaped, n);
    assert x.ch.transfers == x.ch.transfers[..k] + x.ch.transfers[k..];
    SumConcat(x.ch.transfers[..k], x.ch.transfers[k..], n);
  }

  lemma FillConserved(x: Chan, raw: nat)
    requires x.ch.list.Some? && Conserved(x)
    ensures Conserved(Fill(x, raw)) && |Fill(x, raw).ch.transfers| <= |x.ch.transfers|
  {
    hide Done, Reap, And, Names, AllCompleted;
    var hw := And(raw, x.ch.mask) % TWO_16;
    var done := Done(x.ch, hw);
    DoneIsPrefix(x.ch, hw);
    NamesOf(x.retired, done);
    assert x.ch.transfers == done + x.ch.transfers[|done|..];
    assert Names(x.retired) + (done + x.ch.transfers[|done|..]) == Names(x.retired) + done + x.ch.transfers[|done|..];
  }

  /** After a completion pass, nothing in flight was fully processed: not at the last interrupt, and not now. */
  lemma FillQuiet(x: Chan, raw: nat)
    requires ChanInv(x) && Shows(x, raw) && x.sound
    ensures Quiet(Fill(x, raw))
  {
    hide Chain, Tracked, And, Done, Reap, Processed, Conserved;
    if x.ch.list.Some? {
      FillRetires(x, raw);
      FillAttached(x, raw);
      var y, n := Fill(x, raw), |x.ch.list.value.descs|;
      var p := x.processed - x.reaped;
      var k := Processed(x.ch.transfers, p, n);
      forall i | 0 < i <= |y.ch.transfers| ensures y.reaped + Sum(y.ch.transfers[..i], n) > y.signalled {
        ProcessedIsLongest(x.ch.transfers, p, n, k + i);
        assert x.ch.transfers[..k + i] == x.ch.transfers[..k] + y.ch.transfers[..i];
        SumConcat(x.ch.transfers[..k], y.ch.transfers[..i], n);
      }
    }
  }

  lemma FillKeeps(x: Chan, raw: nat)
    requires ChanInv(x) && Shows(x, raw)
    ensures ChanInv(Fill(x, raw)) && Fill(x, raw).sound == x.sound && (x.sound ==> Quiet(Fill(x, raw)))
  {
    hide Attached, Conserved, Quiet, Fill, Detached, Shows;
    if x.sound {
      FillQuiet(x, raw);
    }
    if x.ch.list.Some? {
      FillKeepsFlags(x, raw);
      FillConserved(x, raw);
      if x.sound {
        FillAttached(x, raw);
      }
    } else {
      FillSkips(x, raw);
    }
  }

  lemma FillKeepsFlags(x: Chan, raw: nat)
    requires x.ch.list.Some?
    ensures Fill(x, raw).ch.list.Some? && Fill(x, raw).sound == x.sound
  {
    hide And, Done;
    ReapKeepsList(x.ch, And(raw, x.ch.mask) % TWO_16);
  }

  lemma {:induction false} ReapKeepsList(c: Channel, hw: nat)
    requires c.list.Some?
    ensures Reap(c, hw).list.Some?
    decreases |c.transfers|
  {
    hide IsComplete, Cleared, And;
    if c.transfers != [] && IsComplete(c, c.transfers[0], hw) {
      ReapKeepsList(ReapOne(c), hw);
    }
  }

  lemma FillSkips(x: Chan, raw: nat)
    requires x.ch.list.None?
    ensures Fill(x, raw) == x
  {
  }

  // ----- launching -----

  /** The channel as launch finds it once the list is attached. */
  function AttachTo(x: Chan, l: List): Chan
    requires |l.descs| > 0
  {
    x.(ch := Attach(x.ch, l), base := if x.ch.list.None? then l.descs else x.base)
  }

  lemma AttachKeeps(x: Chan, l: List)
    requires ChanInv(x) && x.sound && Circular(l) && (x.ch.list.Some? ==> x.ch.list.value == l)
    ensures ChanInv(AttachTo(x, l)) && Attached(AttachTo(x, l))
    ensures Quiet(x) ==> Quiet(AttachTo(x, l))
  {
    hide InFlight, ControlWord, Decodes;
    SmallValue(0, |l.descs|);
  }

  lemma RefusedLaunch(x: Chan, l: List, regs: Registers, req: Request, hw: Hw)
    requires Circular(l) && (x.ch.list.Some? ==> x.ch.list.value == l) && !Passes(x.ch, regs, req)
    requires x.sound
    ensures LaunchOn(x, l, regs, req, hw) == AttachTo(x, l)
    ensures Launch(x.ch, l, regs, req, hw).ret < 0
  {
    hide IsActive, LaunchCommit, LaunchAll, IsPow2, LeavesNone, LeavesAlone, NamesBytes;
    assert x.launched + [] == x.launched && x.naming + [] == x.naming;
  }

  lemma AcceptedLaunch(x: Chan, l: List, regs: Registers, req: Request, hw: Hw)
    requires ChanInv(x) && x.sound && Circular(l) && (x.ch.list.Some? ==> x.ch.list.value == l)
    requires Attached(AttachTo(x, l)) && Acceptable(x.ch, l, regs, req) && |x.ch.transfers| < 127
    requires Sum(x.ch.transfers, |l.descs|) + Counts(req.buffers, req.bind, l.page) < |l.descs|
    ensures req.start < |l.descs|
    ensures ChanInv(LaunchOn(x, l, regs, req, hw))
    ensures Quiet(AttachTo(x, l)) ==> Quiet(LaunchOn(x, l, regs, req, hw))
  {
    hide Launch, Geometric, Tracked, Sum, Acceptable, Detached, Passes, Counts, Placed, Ends, Tidy, Len, IsPow2, Intact,
      NamesBytes;
    AcceptableStart(x.ch, l, regs, req);
    AcceptablePasses(x.ch, l, regs, req);
    var y := LaunchOn(x, l, regs, req, hw);
    LaunchQueues(x.ch, l, regs, req, hw);
    LaunchGeometric(x.ch, l, regs, req, hw);
    var t := y.ch.transfers[|x.ch.transfers|];
    if y.tidy {
      LaunchTracked(x.ch, l, regs, req, hw, y.base);
    }
    if y.intact {
      LaunchIntact(x.ch, l, regs, req, hw, x.naming);
    }
    SumAppend(x.ch.transfers, t, |l.descs|);
    ConservedAppend(x, y, t);
    QuietAppend(AttachTo(x, l), y, t);
  }

  lemma AcceptablePasses(c: Channel, l: List, regs: Registers, req: Request)
    requires l.page > 0 && Acceptable(c, l, regs, req)
    ensures Passes(c, regs, req)
  {
  }

  /** The launch that finds the ring full keeps everything but, unless it is plain, the tracking. */
  lemma FullLaunch(x: Chan, l: List, regs: Registers, req: Request, hw: Hw)
    requires ChanInv(x) && x.sound && Circular(l) && x.ch.list == Some(l)
    requires Acceptable(x.ch, l, regs, req) && |x.ch.transfers| >= 127
    requires Counts(req.buffers, req.bind, l.page) <= |l.descs|
    ensures req.start < |l.descs|
    ensures ChanInv(LaunchOn(x, l, regs, req, hw))
    ensures Quiet(x) ==> Quiet(LaunchOn(x, l, regs, req, hw))
  {
    hide Launch, Tracked, Sum, Acceptable, Detached, Passes, Counts, Chain, Plain, IsPow2, WriteAt, Written, Taking,
      Intact, NamesBytes;
    AcceptableStart(x.ch, l, regs, req);
    AcceptablePasses(x.ch, l, regs, req);
    LaunchWrites(x.ch, l, regs, req, hw);
    var y := LaunchOn(x, l, regs, req, hw);
    StillCircular(l, y.ch.list.value.descs);
    if y.tidy {
      FullRingTracked(x.ch, l, regs, req, hw, x.base);
    }
    if y.intact {
      FullRingIntact(x.ch, l, regs, req, hw, x.naming);
    }
    assert x.launched + [] == x.launched && x.naming + [] == x.naming;
  }

  lemma ConservedAppend(x: Chan, y: Chan, t: Transfer)
    requires Conserved(x) && y.retired == x.retired && y.launched == x.launched + [t]
    requires y.ch.transfers == x.ch.transfers + [t]
    ensures Conserved(y)
  {
    hide Names;
    assert Names(x.retired) + x.ch.transfers + [t] == Names(x.retired) + (x.ch.transfers + [t]);
  }

  lemma QuietAppend(x: Chan, y: Chan, t: Transfer)
    requires x.ch.list.Some? && y.ch.list.Some? && Slots(x) == Slots(y)
    requires y.ch.transfers == x.ch.transfers + [t] && Len(t, Slots(x)) >= 1
    requires y.reaped == x.reaped && y.signalled == x.signalled
    requires x.signalled <= x.processed <= x.reaped + Sum(x.ch.transfers, Slots(x))
    ensures Quiet(x) ==> Quiet(y)
  {
    hide Len, Sum;
    var n := Slots(x);
    if Quiet(x) {
      forall i | 0 < i <= |y.ch.transfers| ensures y.reaped + Sum(y.ch.transfers[..i], n) > y.signalled {
        if i <= |x.ch.transfers| {
          assert y.ch.transfers[..i] == x.ch.transfers[..i];
        } else {
          assert y.ch.transfers[..i] == x.ch.transfers + [t];
          SumAppend(x.ch.transfers, t, n);
        }
      }
    }
  }

  /** A sound launch on a sound channel. */
  lemma SoundLaunchKeeps(x: Chan, l: List, regs: Registers, req: Request, hw: Hw)
    requires ChanInv(x) && CanLaunch(x, l, regs, req) && x.sound && Sound(x.ch, l, regs, req)
    ensures ChanInv(LaunchOn(x, l, regs, req, hw))
    ensures Quiet(x) ==> Quiet(LaunchOn(x, l, regs, req, hw))
  {
    hide LaunchOn, Launch, Attached, Acceptable, Quiet, Sum, Passes, Detached, Conserved, Counts;
    AttachKeeps(x, l);
    if !Passes(x.ch, regs, req) {
      RefusedLaunch(x, l, regs, req, hw);
    } else if |x.ch.transfers| >= 127 {
      FullIsAttached(x);
      FullLaunch(x, l, regs, req, hw);
    } else {
      AcceptedLaunch(x, l, regs, req, hw);
    }
  }

  lemma FullIsAttached(x: Chan)
    requires ChanInv(x) && x.ch.transfers != []
    ensures x.ch.list.Some?
  {
    hide Attached;
  }

  /** Whatever is launched, at most one transfer is added, behind the others. */
  lemma LaunchAdds(c: Channel, l: List, regs: Registers, req: Request, hw: Hw)
    requires l.Valid() && (c.list.Some? ==> c.list.value == l) && (Passes(c, regs, req) ==> req.start < |l.descs|)
    ensures var r := Launch(c, l, regs, req, hw).channel;
            && r.list.Some?
            && (r.transfers == c.transfers || (|c.transfers| < 127 && exists t :: r.transfers == c.transfers + [t]))
  {
    hide LaunchAll, IsActive, SetBits, InterruptBits;
  }

  /** Any launch keeps the channel invariant. */
  lemma LaunchKeeps(x: Chan, l: List, regs: Registers, req: Request, hw: Hw)
    requires ChanInv(x) && CanLaunch(x, l, regs, req)
    ensures var y := LaunchOn(x, l, regs, req, hw);
            && ChanInv(y)
            && (y.sound ==> x.sound)
            && (y.sound && Quiet(x) ==> Quiet(y))
  {
    hide Launch, Attached, Sound, Quiet, Passes, Detached, LeavesNone, LeavesAlone, NamesBytes, List.Valid;
    var y := LaunchOn(x, l, regs, req, hw);
    if y.sound {
      SoundLaunchKeeps(x, l, regs, req, hw);
    } else {
      LaunchAdds(x.ch, l, regs, req, hw);
      if y.ch.transfers != x.ch.transfers {
        ConservedAppend(x, y, y.ch.transfers[|x.ch.transfers|]);
      } else {
        assert x.launched + [] == x.launched;
      }
    }
  }

  /** A launch that names another list keeps the invariant too; if that list has the same length, nothing changes. */
  lemma ElsewhereKeeps(x: Chan, other: List)
    requires ChanInv(x) && x.ch.list.Some? && |other.descs| > 0
    ensures var y := LaunchElsewhere(x, other);
            && ChanInv(y)
            && (y.sound ==> y == x)
  {
    hide Tracked, Chain, Sum, Conserved, Intact;
    ElsewhereConserved(x, other);
  }

  /** Reprogramming an attached list breaks neither conservation nor the geometry. */
  lemma ReprogramKeeps(x: Chan, descs: seq<Desc>)
    requires ChanInv(x) && x.ch.list.Some? && |descs| == Slots(x)
    ensures ChanInv(Reprogram(x, descs)) && (Quiet(x) ==> Quiet(Reprogram(x, descs)))
  {
    hide Chain, Sum, Tracked, Intact;
  }

  lemma ElsewhereConserved(x: Chan, other: List)
    requires Conserved(x) && |other.descs| > 0
    ensures Conserved(LaunchElsewhere(x, other))
  {
    hide Names;
  }
}
