/** A vDMA channel as a value: launching, completing and dropping transfers. The class in Channels updates
    a channel in place and is specified by the functions here. */
module ChannelModel {
  import opened Bits
  import opened Descriptors
  import opened Results
  import opened Transfers

  const U32_MAX: nat := 0xFFFF_FFFF

  /** Channel state: the two counters, the counter mask, the attached list and the transfers in flight. */
  datatype Channel = Channel(numAvail: nat, numProc: nat, mask: nat, list: Option<List>, transfers: seq<Transfer>)

  /** channel_state_init plus an empty ring: a channel that is not active. */
  const IDLE := Channel(0, 0, U32_MAX, None, [])

  // ----- completion -----

  /** is_desc_between: desc lies in the cyclic interval [begin, end). */
  predicate IsDescBetween(begin: nat, end: nat, desc: nat) {
    if begin == end then false
    else if begin < end then begin <= desc < end
    else desc < end || begin <= desc
  }

  /** is_transfer_complete. */
  predicate IsComplete(c: Channel, t: Transfer, hwNumProc: nat) {
    c.numAvail == hwNumProc || IsDescBetween(c.numProc, hwNumProc, t.lastDesc)
  }

  /** clear_dirty_descs: the listed descriptors get the default control word back. */
  function ClearDirty(descs: seq<Desc>, dirty: seq<nat>, page: nat): (r: seq<Desc>)
    ensures |r| == |descs|
  {
    seq(|descs|, j requires 0 <= j < |descs| =>
      if j in dirty then descs[j].(control := ControlWord(page)) else descs[j])
  }

  function Cleared(l: List, t: Transfer): List {
    l.(descs := ClearDirty(l.descs, t.dirty, l.page))
  }

  /** Retiring the oldest transfer. */
  function ReapOne(c: Channel): Channel
    requires c.list.Some? && c.transfers != []
  {
    c.(list := Some(Cleared(c.list.value, c.transfers[0])),
       numProc := And(c.transfers[0].lastDesc + 1, c.mask) % TWO_16,
       transfers := c.transfers[1..])
  }

  /** The completion loop of fill_channel_irq_data for a masked hardware counter. */
  function Reap(c: Channel, hwNumProc: nat): Channel
    requires c.list.Some?
    decreases |c.transfers|
  {
    if c.transfers == [] || !IsComplete(c, c.transfers[0], hwNumProc) then c else Reap(ReapOne(c), hwNumProc)
  }

  /** The transfers the loop retires, in order. */
  function Done(c: Channel, hwNumProc: nat): seq<Transfer>
    requires c.list.Some?
    decreases |c.transfers|
  {
    if c.transfers == [] || !IsComplete(c, c.transfers[0], hwNumProc) then []
    else [c.transfers[0]] + Done(ReapOne(c), hwNumProc)
  }

  /** Every descriptor the completion loop looks up exists: those a transfer lists and, when debugging, its last one. */
  ghost predicate InBounds(c: Channel) {
    c.list.Some? ==>
      forall t | t in c.transfers ::
        && (t.debug ==> t.lastDesc < |c.list.value.descs|)
        && forall d | d in t.dirty :: d < |c.list.value.descs|
  }

  lemma ReapUnfold(c: Channel, hw: nat)
    requires c.list.Some?
    ensures c.transfers != [] && IsComplete(c, c.transfers[0], hw) ==>
              && Reap(c, hw) == Reap(ReapOne(c), hw)
              && Done(c, hw) == [c.transfers[0]] + Done(ReapOne(c), hw)
    ensures !(c.transfers != [] && IsComplete(c, c.transfers[0], hw)) ==> Reap(c, hw) == c && Done(c, hw) == []
  {
    hide ReapOne, IsComplete;
  }

  lemma {:induction false} DoneIsPrefix(c: Channel, hw: nat)
    requires c.list.Some?
    ensures Done(c, hw) <= c.transfers
    ensures Reap(c, hw).transfers == c.transfers[|Done(c, hw)|..]
    decreases |c.transfers|
  {
    hide IsComplete, Cleared, And;
    if c.transfers != [] && IsComplete(c, c.transfers[0], hw) {
      DoneIsPrefix(ReapOne(c), hw);
      assert c.transfers == [c.transfers[0]] + c.transfers[1..];
    }
  }

  // ----- what is reported -----

  const CHANNEL_NOT_ACTIVE: nat := 0xFF
  const CHANNEL_WITH_ERROR: nat := 0xFE

  /** validate_last_desc_status: the done bit is set and the error bit is not. */
  predicate StatusGood(d: Desc) {
    And(And(d.status, 0xFF), 1) != 0 && And(And(d.status, 0xFF), 2) == 0
  }

  /** Debug transfers must have finished without an error. */
  ghost predicate AllGood(l: List, done: seq<Transfer>) {
    forall t | t in done && t.debug && t.lastDesc < |l.descs| :: StatusGood(l.descs[t.lastDesc])
  }

  /** The byte a waiter gets for the channel. */
  ghost function Report(c: Channel, control: nat, hw: nat): (r: nat)
    requires c.list.Some?
  {
    if !IsActive(control) then CHANNEL_NOT_ACTIVE
    else if !AllGood(c.list.value, Done(c, hw)) then CHANNEL_WITH_ERROR
    else |Done(c, hw)|
  }

  /** A channel is active exactly while the lowest bit of its control register is set. */
  lemma ActiveIsOdd(control: nat)
    ensures IsActive(control) <==> control % 2 == 1
  {
    AndStep(control, 1);
    AndNone(control / 2);
  }

  /** A status is good exactly if its lowest bit is set and the one above it is not. */
  lemma StatusIs(d: Desc)
    ensures StatusGood(d) <==> d.status % 2 == 1 && d.status / 2 % 2 == 0
  {
    hide And, Pow2;
    Pow2Values();
    AndMask(d.status, 8);
    LowBits(d.status % 256);
    LowByte(d.status);
  }

  lemma LowByte(x: nat)
    ensures x % 256 % 2 == x % 2 && x % 256 / 2 % 2 == x / 2 % 2
  {
    var q, s := x / 256, x % 256;
    assert x == (q * 128 + s / 2) * 2 + s % 2;
    DivModUnique(x, 2, q * 128 + s / 2, s % 2);
    DivModUnique(q * 128 + s / 2, 2, q * 64 + s / 2 / 2, s / 2 % 2);
  }

  lemma LowBits(s: nat)
    ensures And(s, 1) == s % 2
    ensures And(s, 2) == s / 2 % 2 * 2
  {
    hide And;
    AndStep(s, 1);
    AndNone(s / 2);
    AndStep(s, 2);
    AndStep(s / 2, 1);
    AndNone(s / 2 / 2);
  }

  /** The i-th transfer in flight asked for its status to be checked, and the hardware did not report success. */
  predicate Failed(c: Channel, i: nat)
    requires c.list.Some? && i < |c.transfers|
  {
    var t, descs := c.transfers[i], c.list.value.descs;
    && t.debug && t.lastDesc < |descs|
    && !(descs[t.lastDesc].status % 2 == 1 && descs[t.lastDesc].status / 2 % 2 == 0)
  }

  /** The byte, from the registers and the rings before and after the pass alone: 0xFF exactly if the channel is not
      active, 0xFE exactly if it is and one of the transfers that left the ring failed, and otherwise their number,
      which is never one of these codes. */
  lemma ReportIs(c: Channel, control: nat, hw: nat)
    requires c.list.Some? && |c.transfers| <= 127
    ensures var left := |c.transfers| - |Reap(c, hw).transfers|;
            && 0 <= left <= 127
            && (Report(c, control, hw) == 0xFF <==> control % 2 == 0)
            && (Report(c, control, hw) == 0xFE <==> control % 2 == 1 && exists i | 0 <= i < left :: Failed(c, i))
            && (Report(c, control, hw) !in {0xFF, 0xFE} ==> Report(c, control, hw) == left)
  {
    hide Done, Reap, AllGood, IsActive, Failed;
    DoneIsPrefix(c, hw);
    ActiveIsOdd(control);
    GoodIffNoneFailed(c, |Done(c, hw)|);
    assert Done(c, hw) == c.transfers[..|Done(c, hw)|];
  }

  lemma GoodIffNoneFailed(c: Channel, k: nat)
    requires c.list.Some? && k <= |c.transfers|
    ensures AllGood(c.list.value, c.transfers[..k]) <==> forall i | 0 <= i < k :: !Failed(c, i)
  {
    hide StatusGood;
    var l, ts := c.list.value, c.transfers;
    forall d: Desc ensures StatusGood(d) <==> d.status % 2 == 1 && d.status / 2 % 2 == 0 {
      StatusIs(d);
    }
    if AllGood(l, ts[..k]) {
      forall i | 0 <= i < k ensures !Failed(c, i) {
        assert ts[i] in ts[..k];
      }
    } else {
      var t :| t in ts[..k] && t.debug && t.lastDesc < |l.descs| && !StatusGood(l.descs[t.lastDesc]);
      var i :| 0 <= i < k && ts[..k][i] == t;
      assert Failed(c, i);
    }
  }

  // ----- disabling -----

  /** The list once every transfer in flight has been dropped. */
  function Dropped(l: List, transfers: seq<Transfer>): List
    decreases |transfers|
  {
    if transfers == [] then l else Dropped(Cleared(l, transfers[0]), transfers[1..])
  }

  // ----- launching -----

  /** The host registers launch looks at. */
  datatype Registers = Registers(control: nat, numAvail: nat)

  datatype Request = Request(start: nat, buffers: seq<Buffer>, bind: bool, first: Domain, last: Domain, debug: bool)

  predicate IsActive(control: nat) {
    And(control, 1) == 1
  }

  /** The running state of the loop over a request's buffers. */
  datatype Launching = Launching(descs: seq<Desc>, total: nat, last: nat, next: nat, dirty: seq<nat>)

  /** Programming one buffer. A negative result is not looked at: it enters the sums as it is. */
  function LaunchOne(l: List, s: Launching, b: Buffer, final: bool, req: Request, hw: Hw): (r: Launching)
    requires l.Valid() && |s.descs| == |l.descs|
    ensures |r.descs| == |l.descs|
  {
    var domain := if final then req.last else NO_DOMAIN;
    var o := Program(l.(descs := s.descs), s.next, b, req.bind, hw, domain, req.debug, 0);
    var last := U32(s.next + o.ret - 1) % |l.descs|;
    Launching(o.descs, U32(s.total + o.ret), last, U32(s.next + o.ret) % |l.descs|, s.dirty + [last % TWO_16])
  }

  function LaunchAll(l: List, s: Launching, buffers: seq<Buffer>, req: Request, hw: Hw): (r: Launching)
    requires l.Valid() && |s.descs| == |l.descs|
    ensures |r.descs| == |l.descs|
    decreases |buffers|
  {
    if buffers == [] then s
    else LaunchAll(l, LaunchOne(l, s, buffers[0], |buffers| == 1, req, hw), buffers[1..], req, hw)
  }

  lemma LaunchNone(l: List, s: Launching, req: Request, hw: Hw)
    requires l.Valid() && |s.descs| == |l.descs|
    ensures LaunchAll(l, s, [], req, hw) == s
  {
  }

  lemma LaunchMore(l: List, s: Launching, buffers: seq<Buffer>, req: Request, hw: Hw)
    requires l.Valid() && |s.descs| == |l.descs| && buffers != []
    ensures LaunchAll(l, s, buffers, req, hw)
         == LaunchAll(l, LaunchOne(l, s, buffers[0], |buffers| == 1, req, hw), buffers[1..], req, hw)
  {
    hide LaunchOne;
  }

  function LaunchStart(l: List, req: Request): Launching {
    Launching(l.descs, 0, U32_MAX, req.start, [req.start % TWO_16])
  }

  datatype LaunchResult = LaunchResult(ret: int, channel: Channel)

  /** The checks in front of the programming loop; only the low 16 bits of the starting descriptor are compared. */
  predicate Passes(c: Channel, regs: Registers, req: Request) {
    && IsActive(regs.control)
    && regs.numAvail == c.numAvail == req.start % TWO_16
    && |req.buffers| <= MAX_BUFFERS_PER_TRANSFER
  }

  /** hailo_vdma_launch_transfer on the list that is attached, or becomes attached. A request that passes the checks
      has its first descriptor written without another check, so that one must exist. */
  function Launch(c: Channel, l: List, regs: Registers, req: Request, hw: Hw): LaunchResult
    requires l.Valid() && (Passes(c, regs, req) ==> req.start < |l.descs|)
    requires c.list.Some? ==> c.list.value == l
  {
    var attached := c.(mask := |l.descs| - 1, list := Some(l));
    if !IsActive(regs.control) then LaunchResult(ECONNRESET, attached)
    else if regs.numAvail != c.numAvail then LaunchResult(EFAULT, attached)
    else if c.numAvail != req.start % TWO_16 then LaunchResult(EFAULT, attached)
    else if |req.buffers| > MAX_BUFFERS_PER_TRANSFER then LaunchResult(EINVAL, attached)
    else LaunchCommit(attached, l, LaunchAll(l, LaunchStart(l, req), req.buffers, req, hw), req, hw)
  }

  /** The end of a launch, once the loop over the buffers has left s. */
  function LaunchCommit(c: Channel, l: List, s: Launching, req: Request, hw: Hw): LaunchResult
    requires 0 < |l.descs| == |s.descs| && req.start < |l.descs|
  {
    var descs := SetBits(s.descs, req.start, InterruptBits(hw, req.first, req.debug));
    var programmed := c.(list := Some(l.(descs := descs)));
    if |c.transfers| >= 127 then LaunchResult(EFAULT, programmed)
    else
      LaunchResult(S32(s.total),
        programmed.(numAvail := U32(s.last + 1) % |l.descs| % TWO_16,
                    transfers := c.transfers + [Transfer(s.last % TWO_16, req.buffers, s.dirty, req.debug)]))
  }

  /** The same call with a list other than the attached one: it is refused, but the counter mask has already
      been replaced. */
  function LaunchOther(c: Channel, other: List): LaunchResult
    requires |other.descs| > 0
  {
    LaunchResult(EINVAL, c.(mask := |other.descs| - 1))
  }
}
