/** A transfer from launch to completion, as a run of the engine. */
module RunExamples {
  import opened Bits
  import opened Descriptors
  import opened Programming
  import opened Requests
  import opened ChannelModel
  import opened Geometry
  import opened Launches
  import opened LaunchExamples
  import opened ChannelRuns
  import opened EngineRuns

  const LAUNCH := Launches(0, FreshList(8), REGS_0, TWO_PIECES_REQUEST, PCIE_HW)

  /** The engine once channel 0 has been enabled. */
  function Enabled(): Engine {
    Initial().(enabled := {0})
  }

  lemma EnableRuns()
    ensures CanStep(Initial(), Enable({0})) && Next(Initial(), Enable({0})) == Enabled()
  {
    assert {} + {0} == {0};
  }

  lemma LaunchRuns()
    ensures CanStep(Enabled(), LAUNCH)
    ensures var x := Next(Enabled(), LAUNCH).chans[0];
            && x.sound && x.ch.list.Some? && x.retired == []
            && |x.ch.transfers| == 1 && x.ch.transfers[0].buffers == [TWO_PIECES]
  {
    hide Launch, FreshList, Counts, Count, Ends, LeavesNone, Chunks;
    assert Pow2(3) == 8;
    FreshIsCircular(8, 3);
    TwoPieces();
    AcceptTwoPieces();
    LaunchQueues(IDLE, FreshList(8), REGS_0, TWO_PIECES_REQUEST, PCIE_HW);
    assert Sum([], 8) == 0;
  }

  /** Enabling, launching, processing, interrupt and wait: a run that ends with the one transfer completed. */
  lemma OneTransferCompletes() returns (steps: seq<Step>, end: Engine)
    ensures Run(Initial(), steps, end)
    ensures |end.chans| > 0 && end.chans[0].ch.transfers == []
    ensures |end.chans[0].retired| == 1 && end.chans[0].retired[0].Completed?
    ensures end.chans[0].retired[0].t.buffers == [TWO_PIECES]
  {
    hide Run, CanStep, Next;
    EnableRuns();
    LaunchRuns();
    EnabledStays();
    var e := Next(Enabled(), LAUNCH);
    RunNone(e);
    RunMore(Enabled(), LAUNCH, [], e);
    RunMore(Initial(), Enable({0}), [LAUNCH] + [], e);
    var raw: nat;
    raw, end := EverythingCompletes([Enable({0})] + ([LAUNCH] + []), e, 0);
    var rest := [HwProgress(0, Outstanding(e.chans[0])), Interrupt({0}), WaitClear({0}), FillOne(0, raw), FillEnd];
    RunMore(Enabled(), LAUNCH, rest, end);
    RunMore(Initial(), Enable({0}), [LAUNCH] + rest, end);
    steps := [Enable({0})] + ([LAUNCH] + rest);
  }

  lemma EnabledStays()
    requires CanStep(Enabled(), LAUNCH)
    ensures var e := Next(Enabled(), LAUNCH); 0 in e.enabled && e.phase.Free? && |e.chans| == 32
  {
    hide Launch, FreshList;
  }
}
