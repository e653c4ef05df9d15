/** A vDMA engine under every interleaving of the hardware, the interrupt handler, waiters, launches and
    enabling or disabling channels.

    The board mutex serialises the ioctls; a waiter holds it from clearing the interrupt bits to the end of the
    completion pass, and a disable from resetting the channels to clearing their bits. Only the hardware and the
    interrupt handler act in between. */
module EngineRuns {
  import opened Bits
  import opened Descriptors
  import opened Binding
  import opened ChannelModel
  import opened Geometry
  import opened Launches
  import opened DirtyDescriptors
  import opened Integrity
  import opened ChannelRuns

  const MAX_CHANNELS: nat := 32

  /** Who holds the mutex in the middle of what: a waiter that has cleared these bits and not yet completed these
      channels, or a disable that has reset these channels and not yet cleared their bits. */
  datatype Phase = Free | Filling(channels: set<nat>) | Disabling(channels: set<nat>)

  datatype Engine = Engine(enabled: set<nat>, interrupted: set<nat>, phase: Phase, chans: seq<Chan>)

  datatype Step =
    | HwProgress(c: nat, n: nat)
    | HwStatus(c: nat, j: nat, status: nat)
    | Interrupt(bitmap: set<nat>)
    | Enable(bitmap: set<nat>)
    | DisableBegin(bitmap: set<nat>)
    | DisableEnd
    | WaitClear(requested: set<nat>)
    | FillOne(c: nat, raw: nat)
    | FillEnd
    | Launches(c: nat, l: List, regs: Registers, req: Request, hw: Hw)
    | LaunchesElsewhere(c: nat, other: List)
    | Reprograms(c: nat, start: nat, b: Buffer, batch: nat, bind: bool, hw: Hw, domain: Domain, debug: bool,
                 stride: nat)

  /** Nothing enabled, nothing pending, and every channel new. */
  function Initial(): Engine {
    Engine({}, {}, Free, seq(MAX_CHANNELS, i => NEW_CHAN))
  }

  /** hailo_vdma_engine_read_interrupts: the bits that are requested, enabled and pending. */
  function ReadInterrupts(e: Engine, requested: set<nat>): set<nat> {
    requested * e.enabled * e.interrupted
  }

  ghost predicate CanStep(e: Engine, s: Step) {
    match s
    case HwProgress(c, n) => c < |e.chans| && CanProgress(e.chans[c], n)
    case HwStatus(c, j, status) =>
      c < |e.chans| && e.chans[c].ch.list.Some? && j < |e.chans[c].ch.list.value.descs|
    case Interrupt(bitmap) => true
    case Enable(bitmap) => e.phase.Free? && bitmap !! e.enabled
    case DisableBegin(bitmap) => e.phase.Free?
    case DisableEnd => e.phase.Disabling?
    case WaitClear(requested) => e.phase.Free?
    case FillOne(c, raw) => e.phase.Filling? && c in e.phase.channels && c < |e.chans| && Shows(e.chans[c], raw)
    case FillEnd => e.phase == Filling({})
    case Launches(c, l, regs, req, hw) => e.phase.Free? && c < |e.chans| && CanLaunch(e.chans[c], l, regs, req)
    case LaunchesElsewhere(c, other) =>
      e.phase.Free? && c < |e.chans| && e.chans[c].ch.list.Some? && |other.descs| > 0
    case Reprograms(c, start, b, batch, bind, hw, domain, debug, stride) =>
      e.phase.Free? && c < |e.chans| && e.chans[c].ch.list.Some? && e.chans[c].ch.list.value.Valid()
  }

  function SignalAll(chans: seq<Chan>, bitmap: set<nat>): (r: seq<Chan>)
    ensures |r| == |chans|
  {
    seq(|chans|, i requires 0 <= i < |chans| => if i in bitmap then Signal(chans[i]) else chans[i])
  }

  function DisableAll(chans: seq<Chan>, bitmap: set<nat>): (r: seq<Chan>)
    ensures |r| == |chans|
  {
    seq(|chans|, i requires 0 <= i < |chans| => if i in bitmap then Disable(chans[i]) else chans[i])
  }

  function Put(e: Engine, c: nat, x: Chan): Engine
    requires c < |e.chans|
  {
    e.(chans := e.chans[c := x])
  }

  ghost function Next(e: Engine, s: Step): Engine
    requires CanStep(e, s)
  {
    match s
    case HwProgress(c, n) => Put(e, c, Progress(e.chans[c], n))
    case HwStatus(c, j, status) => Put(e, c, WriteStatus(e.chans[c], j, status))
    case Interrupt(bitmap) => e.(interrupted := e.interrupted + bitmap, chans := SignalAll(e.chans, bitmap))
    case Enable(bitmap) => e.(enabled := e.enabled + bitmap)
    case DisableBegin(bitmap) =>
      e.(enabled := e.enabled - bitmap, phase := Disabling(bitmap), chans := DisableAll(e.chans, bitmap))
    case DisableEnd => e.(interrupted := e.interrupted - e.phase.channels, phase := Free)
    case WaitClear(requested) =>
      var got := ReadInterrupts(e, requested);
      e.(interrupted := e.interrupted - got, phase := Filling(got))
    case FillOne(c, raw) => Put(e, c, Fill(e.chans[c], raw)).(phase := Filling(e.phase.channels - {c}))
    case FillEnd => e.(phase := Free)
    case Launches(c, l, regs, req, hw) => Put(e, c, LaunchOn(e.chans[c], l, regs, req, hw))
    case LaunchesElsewhere(c, other) => Put(e, c, LaunchElsewhere(e.chans[c], other))
    case Reprograms(c, start, b, batch, bind, hw, domain, debug, stride) =>
      var l := e.chans[c].ch.list.value;
      Put(e, c, Reprogram(e.chans[c], Batch(l, start, b, batch, 0, bind, hw, domain, debug, stride).descs))
  }

  /** e' is reached from e by the steps. */
  ghost predicate Run(e: Engine, steps: seq<Step>, e': Engine)
    decreases |steps|
  {
    if steps == [] then e' == e
    else CanStep(e, steps[0]) && Run(Next(e, steps[0]), steps[1..], e')
  }

  // ----- the invariant -----

  /** No completion is lost: if a transfer in flight was fully processed when its channel's last interrupt was
      delivered, the channel's bit is still pending, or the waiter that cleared it is about to complete it. */
  ghost predicate NotLost(e: Engine, c: nat)
    requires c < |e.chans|
  {
    e.chans[c].sound ==> c in e.interrupted || (e.phase.Filling? && c in e.phase.channels) || Quiet(e.chans[c])
  }

  ghost predicate ChannelOk(e: Engine, c: nat)
    requires c < |e.chans|
  {
    && ChanInv(e.chans[c])
    && NotLost(e, c)
    && (e.phase.Disabling? && c in e.phase.channels ==> e.chans[c].ch.transfers == [])
  }

  ghost predicate EngineInv(e: Engine) {
    |e.chans| == MAX_CHANNELS && forall c | 0 <= c < |e.chans| :: ChannelOk(e, c)
  }

  lemma InitiallyOk()
    ensures EngineInv(Initial())
  {
    forall c | 0 <= c < MAX_CHANNELS ensures ChannelOk(Initial(), c) {
      assert Names([]) + [] == [];
    }
  }

  /** A step that replaces one channel. */
  lemma PutKeeps(e: Engine, c: nat, x: Chan)
    requires EngineInv(e) && c < |e.chans| && ChanInv(x)
    requires x.sound ==> e.chans[c].sound && (Quiet(e.chans[c]) ==> Quiet(x))
    requires e.phase.Disabling? && c in e.phase.channels ==> x.ch.transfers == []
    ensures EngineInv(Put(e, c, x))
  {
    hide ChanInv, Quiet;
    var e' := Put(e, c, x);
    forall k | 0 <= k < |e'.chans| ensures ChannelOk(e', k) {
      assert ChannelOk(e, k);
    }
  }

  lemma FillOneKeeps(e: Engine, c: nat, raw: nat)
    requires EngineInv(e) && CanStep(e, FillOne(c, raw))
    ensures EngineInv(Next(e, FillOne(c, raw)))
  {
    hide ChanInv, Quiet, Fill, Shows;
    assert ChannelOk(e, c);
    FillKeeps(e.chans[c], raw);
    var e' := Next(e, FillOne(c, raw));
    forall k | 0 <= k < |e'.chans| ensures ChannelOk(e', k) {
      assert ChannelOk(e, k);
    }
  }

  lemma InterruptKeeps(e: Engine, bitmap: set<nat>)
    requires EngineInv(e)
    ensures EngineInv(Next(e, Interrupt(bitmap)))
  {
    hide ChanInv, Quiet;
    var e' := Next(e, Interrupt(bitmap));
    forall k | 0 <= k < |e'.chans| ensures ChannelOk(e', k) {
      assert ChannelOk(e, k);
      SignalKeeps(e.chans[k]);
    }
  }

  lemma DisableBeginKeeps(e: Engine, bitmap: set<nat>)
    requires EngineInv(e) && e.phase.Free?
    ensures EngineInv(Next(e, DisableBegin(bitmap)))
  {
    hide ChanInv, Quiet, Disable;
    var e' := Next(e, DisableBegin(bitmap));
    forall k | 0 <= k < |e'.chans| ensures ChannelOk(e', k) {
      assert ChannelOk(e, k);
      DisableKeeps(e.chans[k]);
    }
  }

  lemma DisableEndKeeps(e: Engine)
    requires EngineInv(e) && e.phase.Disabling?
    ensures EngineInv(Next(e, DisableEnd))
  {
    hide ChanInv;
    var e' := Next(e, DisableEnd);
    forall k | 0 <= k < |e'.chans| ensures ChannelOk(e', k) {
      assert ChannelOk(e, k);
    }
  }

  /** Steps that only move bits between the sets. */
  lemma BitsKeep(e: Engine, s: Step)
    requires EngineInv(e) && CanStep(e, s) && (s.Enable? || s.WaitClear? || s.FillEnd?)
    ensures EngineInv(Next(e, s))
  {
    hide ChanInv, Quiet;
    var e' := Next(e, s);
    forall k | 0 <= k < |e'.chans| ensures ChannelOk(e', k) {
      assert ChannelOk(e, k);
    }
  }

  /** Every step keeps the invariant. */
  lemma StepKeeps(e: Engine, s: Step)
    requires EngineInv(e) && CanStep(e, s)
    ensures EngineInv(Next(e, s))
  {
    hide ChanInv, Quiet, Programmable, Passes, Shows, Fill, LaunchOn, LaunchElsewhere, Progress, WriteStatus,
      Reprogram, Batch;
    match s
    case HwProgress(c, n) =>
      assert ChannelOk(e, c);
      ProgressKeeps(e.chans[c], n);
      ProgressSame(e.chans[c], n);
      PutKeeps(e, c, Progress(e.chans[c], n));
    case HwStatus(c, j, status) =>
      assert ChannelOk(e, c);
      StatusKeeps(e.chans[c], j, status);
      StatusSame(e.chans[c], j, status);
      PutKeeps(e, c, WriteStatus(e.chans[c], j, status));
    case Interrupt(bitmap) => InterruptKeeps(e, bitmap);
    case Enable(bitmap) => BitsKeep(e, s);
    case DisableBegin(bitmap) => DisableBeginKeeps(e, bitmap);
    case DisableEnd => DisableEndKeeps(e);
    case WaitClear(requested) => BitsKeep(e, s);
    case FillOne(c, raw) => FillOneKeeps(e, c, raw);
    case FillEnd => BitsKeep(e, s);
    case Launches(c, l, regs, req, hw) =>
      assert ChannelOk(e, c);
      LaunchKeeps(e.chans[c], l, regs, req, hw);
      PutKeeps(e, c, LaunchOn(e.chans[c], l, regs, req, hw));
    case LaunchesElsewhere(c, other) =>
      assert ChannelOk(e, c);
      ElsewhereKeeps(e.chans[c], other);
      PutKeeps(e, c, LaunchElsewhere(e.chans[c], other));
    case Reprograms(c, start, b, batch, bind, hw, domain, debug, stride) =>
      assert ChannelOk(e, c);
      var descs := Batch(e.chans[c].ch.list.value, start, b, batch, 0, bind, hw, domain, debug, stride).descs;
      ReprogramKeeps(e.chans[c], descs);
      ReprogramSame(e.chans[c], descs);
      PutKeeps(e, c, Reprogram(e.chans[c], descs));
  }

  lemma ProgressSame(x: Chan, n: nat)
    ensures Progress(x, n).ch == x.ch && Progress(x, n).sound == x.sound
  {
  }

  lemma ReprogramSame(x: Chan, descs: seq<Desc>)
    requires x.ch.list.Some?
    ensures Reprogram(x, descs).ch.transfers == x.ch.transfers && Reprogram(x, descs).sound == x.sound
  {
  }

  lemma StatusSame(x: Chan, j: nat, status: nat)
    requires x.ch.list.Some? && j < |x.ch.list.value.descs|
    ensures WriteStatus(x, j, status).ch.transfers == x.ch.transfers && WriteStatus(x, j, status).sound == x.sound
  {
  }

  lemma {:induction false} RunKeeps(e: Engine, steps: seq<Step>, e': Engine)
    requires EngineInv(e) && Run(e, steps, e')
    ensures EngineInv(e')
    decreases |steps|
  {
    hide EngineInv, CanStep, Next;
    if steps != [] {
      StepKeeps(e, steps[0]);
      RunKeeps(Next(e, steps[0]), steps[1..], e');
    }
  }

  // ----- what holds in every reachable state -----

  /** In every reachable state, whatever was launched, every launched transfer is retired, in launch order, or in
      flight: none is lost, repeated or overtaken, and at most 127 are in flight. */
  lemma ReachableConservation(steps: seq<Step>, e: Engine, c: nat)
    requires Run(Initial(), steps, e) && c < |e.chans|
    ensures e.chans[c].launched == Names(e.chans[c].retired) + e.chans[c].ch.transfers
    ensures |e.chans[c].launched| == |e.chans[c].retired| + |e.chans[c].ch.transfers|
    ensures |e.chans[c].ch.transfers| <= 127
  {
    hide Run, Quiet, Attached;
    InitiallyOk();
    RunKeeps(Initial(), steps, e);
    assert ChannelOk(e, c);
  }

  /** No lost completion, over all interleavings: in every reachable state, a transfer in flight that had been
      fully processed when the last interrupt of its channel was delivered has its channel's bit pending, or its
      channel among those a waiter is just completing. */
  lemma NoLostCompletion(steps: seq<Step>, e: Engine, c: nat, i: nat)
    requires Run(Initial(), steps, e) && c < |e.chans| && e.chans[c].sound
    requires e.chans[c].ch.list.Some? && i < |e.chans[c].ch.transfers|
    ensures e.chans[c].reaped + Sum(e.chans[c].ch.transfers[..i + 1], Slots(e.chans[c])) <= e.chans[c].signalled
            ==> c in e.interrupted || (e.phase.Filling? && c in e.phase.channels)
  {
    hide Run, Sum, Chain, Tracked;
    InitiallyOk();
    RunKeeps(Initial(), steps, e);
    assert ChannelOk(e, c);
    var j := i + 1;
    assert e.chans[c].ch.transfers[..j] == e.chans[c].ch.transfers[..i + 1];
  }

  /** In every reachable state the transfers in flight lie consecutively from num_proc to num_avail with a
      descriptor to spare, if the launches since the list was attached were sound. If they were tidy as well, every
      control word that is neither the default nor the list's own is on the list of a transfer in flight. */
  lemma ReachableGeometry(steps: seq<Step>, e: Engine, c: nat)
    requires Run(Initial(), steps, e) && c < |e.chans| && e.chans[c].ch.list.Some? && e.chans[c].sound
    ensures Geometric(e.chans[c].ch)
    ensures e.chans[c].tidy ==>
              var l := e.chans[c].ch.list.value; Tracked(l.descs, e.chans[c].base, e.chans[c].ch.transfers, l.page)
  {
    hide Run, Quiet;
    InitiallyOk();
    RunKeeps(Initial(), steps, e);
    assert ChannelOk(e, c);
  }

  /** In every reachable state, as long as launches are sound and fit into the free descriptors, and nothing reprograms
      the list, every transfer in flight that was bound to aligned memory still names exactly the bytes of its
      buffers. */
  lemma ReachableIntegrity(steps: seq<Step>, e: Engine, c: nat, i: nat)
    requires Run(Initial(), steps, e) && c < |e.chans| && e.chans[c].sound && e.chans[c].intact
    requires e.chans[c].ch.list.Some? && i < |e.chans[c].ch.transfers|
    ensures |e.chans[c].naming| == |e.chans[c].ch.transfers|
    ensures e.chans[c].naming[i] ==> Decodes(e.chans[c].ch.list.value.descs, e.chans[c].ch.transfers[i])
  {
    hide Run, Quiet, Geometric, Decodes, Tracked;
    InitiallyOk();
    RunKeeps(Initial(), steps, e);
    assert ChannelOk(e, c);
  }

  /** Disabling a channel in any reachable state hands its list back with every control word the default one or
      the one the list came with, if the launches were sound and tidy. */
  lemma DisabledListIsClean(steps: seq<Step>, e: Engine, c: nat)
    requires Run(Initial(), steps, e) && c < |e.chans| && e.chans[c].ch.list.Some?
    requires e.chans[c].sound && e.chans[c].tidy
    ensures var l := e.chans[c].ch.list.value;
            Tracked(Dropped(l, e.chans[c].ch.transfers).descs, e.chans[c].base, [], l.page)
  {
    hide Run, Tracked, Dropped;
    ReachableGeometry(steps, e, c);
    DroppedIsClean(e.chans[c].ch.list.value, e.chans[c].base, e.chans[c].ch.transfers);
  }

  // ----- runs of sound launches -----

  /** The launch of this step, if it is one, keeps the geometry. */
  ghost predicate SoundStep(e: Engine, s: Step)
    requires CanStep(e, s)
  {
    && (s.Launches? ==> Sound(e.chans[s.c].ch, s.l, s.regs, s.req))
    && (s.LaunchesElsewhere? ==> |s.other.descs| == Slots(e.chans[s.c]))
  }

  /** The launch of this step, if it is one, leaves no unlisted control word and the transfers in flight alone; and the
      step reprograms no list. */
  ghost predicate TidyStep(e: Engine, s: Step)
    requires CanStep(e, s)
  {
    && !s.Reprograms?
    && (s.Launches? && Passes(e.chans[s.c].ch, s.regs, s.req) ==>
          LeavesNone(e.chans[s.c].ch, s.req, s.l.page, s.hw) && LeavesAlone(e.chans[s.c].ch, s.l, s.req))
  }

  /** Every launch of the run is sound where it happens and, if `tidy`, tidy as well. */
  ghost predicate SoundRun(e: Engine, steps: seq<Step>, tidy: bool)
    decreases |steps|
  {
    steps == [] ||
    (&& CanStep(e, steps[0]) && SoundStep(e, steps[0]) && (tidy ==> TidyStep(e, steps[0]))
     && SoundRun(Next(e, steps[0]), steps[1..], tidy))
  }

  ghost predicate AllSound(e: Engine, tidy: bool) {
    forall c | 0 <= c < |e.chans| :: e.chans[c].sound && (tidy ==> e.chans[c].tidy && e.chans[c].intact)
  }

  lemma StepSound(e: Engine, s: Step, tidy: bool)
    requires AllSound(e, tidy) && CanStep(e, s) && SoundStep(e, s) && (tidy ==> TidyStep(e, s))
    ensures AllSound(Next(e, s), tidy)
  {
    hide Launch, Reap, Done, Passes, LeavesNone, LeavesAlone, NamesBytes, Shows, Programmable, Sound, Batch;
  }

  /** Then every channel stays sound, and all the above holds throughout. */
  lemma {:induction false} SoundRunKeeps(e: Engine, steps: seq<Step>, e': Engine, tidy: bool)
    requires AllSound(e, tidy) && Run(e, steps, e') && SoundRun(e, steps, tidy)
    ensures AllSound(e', tidy)
    decreases |steps|
  {
    hide AllSound, CanStep, Next, SoundStep, TidyStep;
    if steps != [] {
      StepSound(e, steps[0], tidy);
      SoundRunKeeps(Next(e, steps[0]), steps[1..], e', tidy);
    }
  }

  /** In a run of sound and tidy launches, every channel keeps its geometry, and every control word of every attached
      list is always the default, the list's own, or on the list of a transfer in flight; and what is in flight still
      names its bytes. */
  lemma SoundRunTracks(steps: seq<Step>, e: Engine, c: nat)
    requires Run(Initial(), steps, e) && SoundRun(Initial(), steps, true) && c < |e.chans| && e.chans[c].ch.list.Some?
    ensures Geometric(e.chans[c].ch)
    ensures var l := e.chans[c].ch.list.value; Tracked(l.descs, e.chans[c].base, e.chans[c].ch.transfers, l.page)
    ensures Intact(e.chans[c].ch, e.chans[c].naming)
  {
    hide Run, SoundRun, Tracked, Geometric, Intact, Quiet;
    SoundRunKeeps(Initial(), steps, e, true);
    ReachableGeometry(steps, e, c);
    InitiallyOk();
    RunKeeps(Initial(), steps, e);
    assert ChannelOk(e, c);
  }

  // ----- what each step does to a channel -----

  /** An interrupt makes exactly its channels pending, and notes what the hardware has processed by then. */
  lemma InterruptMarks(e: Engine, bitmap: set<nat>, c: nat)
    ensures var e' := Next(e, Interrupt(bitmap));
            && (c in e'.interrupted <==> c in e.interrupted || c in bitmap)
            && e'.enabled == e.enabled && e'.phase == e.phase && |e'.chans| == |e.chans|
            && (c < |e.chans| ==>
                  && e'.chans[c].ch == e.chans[c].ch && e'.chans[c].processed == e.chans[c].processed
                  && e'.chans[c].signalled == if c in bitmap then e.chans[c].processed else e.chans[c].signalled)
  {
  }

  /** A wait takes exactly the channels that it was asked for, that are enabled and that are pending; every other
      pending channel stays pending, and no channel changes. */
  lemma WaitTakes(e: Engine, requested: set<nat>, c: nat)
    requires e.phase.Free?
    ensures var e' := Next(e, WaitClear(requested));
            && e'.phase.Filling?
            && (c in e'.phase.channels <==> c in requested && c in e.enabled && c in e.interrupted)
            && (c in e'.interrupted <==> c in e.interrupted && !(c in requested && c in e.enabled))
            && e'.enabled == e.enabled && e'.chans == e.chans
  {
  }

  /** Enabling adds exactly the given channels, and is possible exactly if none of them is enabled. */
  lemma EnableAdds(e: Engine, bitmap: set<nat>, c: nat)
    requires e.phase.Free?
    ensures CanStep(e, Enable(bitmap)) <==> forall k | k in bitmap :: k !in e.enabled
    ensures CanStep(e, Enable(bitmap)) ==>
              var e' := Next(e, Enable(bitmap));
              && (c in e'.enabled <==> c in e.enabled || c in bitmap)
              && e'.interrupted == e.interrupted && e'.chans == e.chans && e'.phase == e.phase
  {
  }

  /** Disabling takes exactly the given channels out of the enabled ones, drops what they had in flight, and at its end
      takes their bits away, those an interrupt set in between included. */
  lemma DisableTakes(e: Engine, bitmap: set<nat>, between: set<nat>, c: nat)
    requires e.phase.Free?
    ensures var mid := Next(e, DisableBegin(bitmap));
            var e' := Next(Next(mid, Interrupt(between)), DisableEnd);
            && (c in mid.enabled <==> c in e.enabled && c !in bitmap)
            && mid.interrupted == e.interrupted
            && e'.enabled == mid.enabled && e'.phase.Free?
            && (c in e'.interrupted <==> (c in e.interrupted || c in between) && c !in bitmap)
            && (c < |e.chans| && c in bitmap ==>
                  && e'.chans[c].ch == IDLE
                  && Names(e'.chans[c].retired) == Names(e.chans[c].retired) + e.chans[c].ch.transfers)
            && (c < |e.chans| && c !in bitmap ==> e'.chans[c].ch == e.chans[c].ch)
  {
    if c < |e.chans| {
      NamesOf(e.chans[c].retired, e.chans[c].ch.transfers);
    }
  }

  /** The hardware counts what it processes and writes status words; nothing else changes. */
  lemma HardwareOnly(e: Engine, c: nat, n: nat, j: nat, status: nat)
    requires c < |e.chans| && e.chans[c].ch.list.Some?
    ensures CanStep(e, HwProgress(c, n)) ==>
              && Next(e, HwProgress(c, n)).chans[c].processed == e.chans[c].processed + n
              && Next(e, HwProgress(c, n)).(chans := e.chans) == e
              && Next(e, HwProgress(c, n)).chans[c].(processed := e.chans[c].processed) == e.chans[c]
    ensures CanStep(e, HwStatus(c, j, status)) ==>
              var before, after := e.chans[c].ch.list.value.descs, Next(e, HwStatus(c, j, status)).chans[c].ch.list;
              && after.Some? && |after.value.descs| == |before|
              && forall k | 0 <= k < |before| ::
                   after.value.descs[k] == if k == j then before[k].(status := status) else before[k]
  {
    hide Sum;
    if CanStep(e, HwProgress(c, n)) {
      assert e.chans[c := e.chans[c]] == e.chans;
    }
  }

  /** The history only grows: what was launched and what was retired stay on record, a launch is recorded exactly if it
      queued a transfer, and the list a channel is compared with is the one that was attached. */
  lemma HistoryIsKept(e: Engine, s: Step, c: nat)
    requires CanStep(e, s) && c < |e.chans|
    ensures var x, y := e.chans[c], Next(e, s).chans[c];
            && x.launched <= y.launched && x.retired <= y.retired
            && |y.launched| == |x.launched| + (if |y.ch.transfers| > |x.ch.transfers| then 1 else 0)
            && (x.ch.list.Some? && y.ch.list.Some? ==> y.base == x.base)
            && (x.ch.list.None? && y.ch.list.Some? ==> s.Launches? && y.base == s.l.descs)
  {
    hide Launch, And, Done, Sound, LeavesNone, LeavesAlone, NamesBytes, Passes, Shows, Sum, Batch, CanProgress;
    match s
    case FillOne(k, raw) =>
      if k == c && e.chans[c].ch.list.Some? {
        var x := e.chans[c];
        DoneIsPrefix(x.ch, And(raw, x.ch.mask) % TWO_16);
      }
    case _ =>
  }

  /** A launch that queues a transfer notes whether it is to name its bytes: it is exactly if it was bound, on plain
      hardware, and every piece of its tables is aligned and can be addressed. */
  lemma LaunchIsNoted(e: Engine, c: nat, l: List, regs: Registers, req: Request, hw: Hw)
    requires CanStep(e, Launches(c, l, regs, req, hw)) && |e.chans[c].naming| == |e.chans[c].ch.transfers|
    ensures var x, y := e.chans[c], Next(e, Launches(c, l, regs, req, hw)).chans[c];
            |y.ch.transfers| > |x.ch.transfers| ==>
              && |y.naming| == |x.naming| + 1 && y.naming[..|x.naming|] == x.naming
              && (y.naming[|x.naming|]
                  <==> && req.bind && PlainHw(hw)
                       && forall b, k | b in req.buffers && k in Chunks(b.sg, 0, b.offset, b.size) ::
                            0 < k.size && k.addr + k.size <= TWO_64 && Aligned(k, l.page))
  {
    hide Launch, Passes, Sound, LeavesNone, LeavesAlone, Chunks;
  }

  /** The completion passes of one wait, up to its end. */
  ghost predicate Fills(steps: seq<Step>) {
    forall s | s in steps :: s.FillOne?
  }

  lemma {:induction false} FillsLeave(e: Engine, steps: seq<Step>, e': Engine, c: nat)
    requires Fills(steps) && Run(e, steps, e') && e.phase.Filling? && c < |e.chans| && c !in e.phase.channels
    ensures e'.phase.Filling? && e'.phase.channels <= e.phase.channels
    ensures |e'.chans| == |e.chans| && e'.chans[c] == e.chans[c]
    ensures e'.interrupted == e.interrupted && e'.enabled == e.enabled
    decreases |steps|
  {
    hide Fill, Shows;
    if steps != [] {
      assert steps[0] in steps;
      var mid := Next(e, steps[0]);
      forall s | s in steps[1..] ensures s in steps {
      }
      FillsLeave(mid, steps[1..], e', c);
    }
  }

  /** A whole wait, from clearing bits to the end of its completion passes, leaves every channel it was not asked for
      alone: its bit, its transfers in flight and what was handed out. */
  lemma WaitLeavesOthers(e: Engine, requested: set<nat>, steps: seq<Step>, e': Engine, c: nat)
    requires e.phase.Free? && c < |e.chans| && c !in requested
    requires Fills(steps) && Run(Next(e, WaitClear(requested)), steps, e') && CanStep(e', FillEnd)
    ensures var end := Next(e', FillEnd);
            && end.phase.Free?
            && |end.chans| == |e.chans| && end.chans[c] == e.chans[c]
            && (c in end.interrupted <==> c in e.interrupted)
  {
    hide Run, Fills;
    WaitTakes(e, requested, c);
    FillsLeave(Next(e, WaitClear(requested)), steps, e', c);
  }

  // ----- the waiter's side -----

  /** hailo_vdma_engine_got_interrupt: what a waiter on these channels sleeps for. */
  predicate GotInterrupt(e: Engine, bitmap: set<nat>) {
    bitmap * e.interrupted != {} || bitmap - e.enabled != {}
  }

  /** A waiter wakes exactly if one of its channels is pending or is not enabled. */
  lemma WakesIff(e: Engine, bitmap: set<nat>)
    ensures GotInterrupt(e, bitmap) <==> exists c :: c in bitmap && (c in e.interrupted || c !in e.enabled)
  {
    if GotInterrupt(e, bitmap) {
      if bitmap * e.interrupted != {} {
        var c :| c in bitmap * e.interrupted;
        assert c in bitmap;
      } else {
        var c :| c in bitmap - e.enabled;
        assert c in bitmap;
      }
    }
    forall c | c in bitmap && (c in e.interrupted || c !in e.enabled) ensures GotInterrupt(e, bitmap) {
      assert c in bitmap * e.interrupted || c in bitmap - e.enabled;
    }
  }

  /** Disabling a channel, or an interrupt on it, wakes whoever waits for it. */
  lemma DisableAndInterruptWake(e: Engine, bitmap: set<nat>, waited: set<nat>, c: nat)
    requires c in bitmap && c in waited
    ensures e.phase.Free? ==> GotInterrupt(Next(e, DisableBegin(bitmap)), waited)
    ensures GotInterrupt(Next(e, Interrupt(bitmap)), waited)
  {
    if e.phase.Free? {
      assert c !in Next(e, DisableBegin(bitmap)).enabled;
      WakesIff(Next(e, DisableBegin(bitmap)), waited);
    }
    assert c in Next(e, Interrupt(bitmap)).interrupted;
    WakesIff(Next(e, Interrupt(bitmap)), waited);
  }

  /** A waiter on a channel with a signalled, finished transfer does not sleep while the mutex is free, and if the
      channel is enabled, the wait completes it. */
  lemma WaiterWakes(steps: seq<Step>, e: Engine, c: nat, i: nat, bitmap: set<nat>)
    requires Run(Initial(), steps, e) && e.phase.Free? && c in bitmap
    requires c < |e.chans| && e.chans[c].sound && e.chans[c].ch.list.Some? && i < |e.chans[c].ch.transfers|
    requires e.chans[c].reaped + Sum(e.chans[c].ch.transfers[..i + 1], Slots(e.chans[c])) <= e.chans[c].signalled
    ensures GotInterrupt(e, bitmap)
    ensures c in e.enabled ==> c in Next(e, WaitClear(bitmap)).phase.channels
  {
    hide Run, Sum;
    NoLostCompletion(steps, e, c, i);
    WakesIff(e, bitmap);
  }

  /** What is left for the hardware to process of what is in flight. */
  function Outstanding(x: Chan): int {
    x.reaped + Sum(x.ch.transfers, Slots(x)) - x.processed
  }

  /** Nothing hangs: from every reachable state with the mutex free, once the hardware has processed all that is in
      flight on an enabled channel and raised its interrupt, a wait on that channel completes every transfer, in launch
      order. */
  lemma EverythingCompletes(steps: seq<Step>, e: Engine, c: nat) returns (raw: nat, end: Engine)
    requires Run(Initial(), steps, e) && e.phase.Free? && c < |e.chans| && c in e.enabled
    requires e.chans[c].ch.list.Some? && e.chans[c].sound
    ensures Outstanding(e.chans[c]) >= 0
    ensures Run(e, [HwProgress(c, Outstanding(e.chans[c])), Interrupt({c}), WaitClear({c}), FillOne(c, raw), FillEnd],
                end)
    ensures end.phase.Free? && |end.chans| == |e.chans| && end.chans[c].ch.transfers == []
    ensures end.chans[c].retired == e.chans[c].retired + AllCompleted(e.chans[c].ch.transfers)
  {
    hide Run, Sum, Attached, AllCompleted, Fill, Shows, Quiet, CanProgress, Signal, Progress;
    InitiallyOk();
    RunKeeps(Initial(), steps, e);
    assert ChannelOk(e, c);
    var x := e.chans[c];
    HasSlots(x);
    AllCanProgress(x);
    raw := (x.reaped + Sum(x.ch.transfers, Slots(x))) % Slots(x);
    FillAll(x, raw);
    var progress := HwProgress(c, Outstanding(x));
    var e1 := Next(Next(e, progress), Interrupt({c}));
    end := WaitCompletes(e1, c, raw);
    var wait := [WaitClear({c}), FillOne(c, raw), FillEnd];
    RunMore(Next(e, progress), Interrupt({c}), wait, end);
    RunMore(e, progress, [Interrupt({c})] + wait, end);
    assert [progress] + ([Interrupt({c})] + wait)
        == [progress, Interrupt({c}), WaitClear({c}), FillOne(c, raw), FillEnd];
  }

  lemma RunMore(e: Engine, s: Step, rest: seq<Step>, e': Engine)
    requires CanStep(e, s) && Run(Next(e, s), rest, e')
    ensures Run(e, [s] + rest, e')
  {
    hide CanStep, Next;
    assert ([s] + rest)[1..] == rest;
  }

  /** A wait on a pending, enabled channel, from clearing its bit to the end of its completion pass. */
  lemma WaitCompletes(e: Engine, c: nat, raw: nat) returns (end: Engine)
    requires e.phase.Free? && c < |e.chans| && c in e.enabled && c in e.interrupted && Shows(e.chans[c], raw)
    ensures Run(e, [WaitClear({c}), FillOne(c, raw), FillEnd], end)
    ensures end.phase.Free? && |end.chans| == |e.chans| && end.chans[c] == Fill(e.chans[c], raw)
  {
    hide Fill, Shows, Run;
    var e1 := Next(e, WaitClear({c}));
    assert e1.phase.channels == {c};
    var e2 := Next(e1, FillOne(c, raw));
    assert e2.phase.channels == {};
    end := Next(e2, FillEnd);
    RunNone(end);
    RunMore(e2, FillEnd, [], end);
    RunMore(e1, FillOne(c, raw), [FillEnd] + [], end);
    RunMore(e, WaitClear({c}), [FillOne(c, raw)] + ([FillEnd] + []), end);
    assert [WaitClear({c})] + ([FillOne(c, raw)] + ([FillEnd] + [])) == [WaitClear({c}), FillOne(c, raw), FillEnd];
  }

  lemma RunNone(e: Engine)
    ensures Run(e, [], e)
  {
  }

  lemma AllCanProgress(x: Chan)
    requires x.ch.list.Some? && Attached(x)
    ensures Outstanding(x) >= 0 && CanProgress(x, Outstanding(x))
  {
    hide Sum, Tracked, Intact, Chain;
  }

  lemma HasSlots(x: Chan)
    requires x.ch.list.Some? && Attached(x)
    ensures Slots(x) > 0
  {
    hide Chain, Sum, Tracked, Intact;
  }

  /** A completion pass once everything in flight has been processed. */
  lemma FillAll(x: Chan, raw: nat)
    requires x.ch.list.Some? && x.sound && Attached(x) && Slots(x) > 0
    requires Outstanding(x) >= 0 && raw == (x.reaped + Sum(x.ch.transfers, Slots(x))) % Slots(x)
    ensures var y := Signal(Progress(x, Outstanding(x)));
            && Shows(y, raw)
            && Fill(y, raw).ch.transfers == [] && Fill(y, raw).retired == x.retired + AllCompleted(x.ch.transfers)
  {
    hide Sum, Tracked, Intact, Chain, AllCompleted, Processed, Reap, Done, And;
    var ts := x.ch.transfers;
    var y := Signal(Progress(x, Outstanding(x)));
    FillRetires(y, raw);
    ProcessedIsLongest(ts, Sum(ts, Slots(x)), Slots(x), |ts|);
    assert ts[..|ts|] == ts;
  }

  /** Clearing the bits and completing a channel that was asked for, is enabled and is pending hands out exactly the
      transfers the hardware has finished by then, in launch order, each as completed. */
  lemma WaitDelivers(steps: seq<Step>, e: Engine, c: nat, requested: set<nat>, raw: nat)
    requires Run(Initial(), steps, e) && e.phase.Free? && c < |e.chans| && e.chans[c].ch.list.Some? && e.chans[c].sound
    requires c in requested && c in e.enabled && c in e.interrupted && Shows(e.chans[c], raw)
    ensures var x, mid := e.chans[c], Next(e, WaitClear(requested));
            && x.reaped <= x.processed
            && CanStep(mid, FillOne(c, raw))
            && var y := Next(mid, FillOne(c, raw)).chans[c];
               var k := Processed(x.ch.transfers, x.processed - x.reaped, Slots(x));
               && y.retired == x.retired + AllCompleted(x.ch.transfers[..k])
               && y.ch.transfers == x.ch.transfers[k..]
  {
    hide Run, Tracked, Done, Reap, Processed, AllCompleted, And, Chain, Shows;
    InitiallyOk();
    RunKeeps(Initial(), steps, e);
    assert ChannelOk(e, c);
    FillRetires(e.chans[c], raw);
  }
}
