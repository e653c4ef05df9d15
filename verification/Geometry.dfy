/** Where the transfers in flight lie on the circular list, and which of them a hardware counter completes. */
module Geometry {
  import opened Bits
  import opened Cyclic
  import opened Descriptors
  import opened Transfers
  import opened ChannelModel

  /** The number of descriptors a transfer occupies on a list of n: from the first it records to its last. */
  function Len(t: Transfer, n: nat): (r: nat)
    ensures r <= n
  {
    if t.dirty != [] && t.dirty[0] < n && t.lastDesc < n then Offset(t.lastDesc, t.dirty[0], n) + 1 else 0
  }

  function Sum(ts: seq<Transfer>, n: nat): nat {
    if ts == [] then 0 else Len(ts[0], n) + Sum(ts[1..], n)
  }

  /** t occupies Len(t) descriptors from `at` on, and all it lists as dirty are among them. */
  ghost predicate Placed(t: Transfer, at: nat, n: nat)
    requires at < n
  {
    && t.dirty != [] && t.dirty[0] == at && t.lastDesc < n
    && forall d | d in t.dirty :: d < n && Offset(d, at, n) < Len(t, n)
  }

  /** The transfers occupy consecutive intervals from `at` on. */
  ghost predicate Chain(ts: seq<Transfer>, at: nat, n: nat)
    requires at < n
    decreases |ts|
  {
    ts == [] || (Placed(ts[0], at, n) && Chain(ts[1..], Wrap(at + Len(ts[0], n), n), n))
  }

  /** A circular list whose positions the u16 counters can hold. */
  ghost predicate Circular(l: List) {
    l.Valid() && l.circular
  }

  /** The transfers in flight run consecutively from num_proc to num_avail, and may fill the list. */
  ghost predicate Consecutive(c: Channel) {
    && c.list.Some? && Circular(c.list.value)
    && var n := |c.list.value.descs|;
       && c.mask == n - 1
       && c.numProc < n
       && Chain(c.transfers, c.numProc, n)
       && Sum(c.transfers, n) <= n
       && c.numAvail == Wrap(c.numProc + Sum(c.transfers, n), n)
  }

  /** The channel geometry: consecutive, and at least one descriptor is free. */
  ghost predicate Geometric(c: Channel) {
    Consecutive(c) && Sum(c.transfers, |c.list.value.descs|) < |c.list.value.descs|
  }

  /** The last descriptor a placed transfer records ends its interval. */
  lemma PlacedEnd(t: Transfer, at: nat, n: nat)
    requires at < n && Placed(t, at, n)
    ensures 1 <= Len(t, n) <= n
    ensures t.lastDesc == Wrap(at + Len(t, n) - 1, n)
  {
  }

  // ----- sums and chains over prefixes -----

  lemma {:induction false} SumConcat(a: seq<Transfer>, b: seq<Transfer>, n: nat)
    ensures Sum(a + b, n) == Sum(a, n) + Sum(b, n)
  {
    if a == [] {
      assert a + b == b;
    } else {
      assert (a + b)[1..] == a[1..] + b;
      SumConcat(a[1..], b, n);
    }
  }

  lemma WrapTwice(at: nat, a: nat, b: nat, n: nat)
    requires at < n && a + b <= n
    ensures Wrap(Wrap(at + a, n) + b, n) == Wrap(at + a + b, n)
  {
  }

  /** Appending the transfer that starts where the chain ends. */
  lemma {:induction false} ChainAppend(ts: seq<Transfer>, t: Transfer, at: nat, n: nat)
    requires at < n
    requires Chain(ts, at, n) && Sum(ts, n) + Len(t, n) <= n
    requires Placed(t, Wrap(at + Sum(ts, n), n), n)
    ensures Chain(ts + [t], at, n)
    decreases |ts|
  {
    hide Placed, Len, Wrap;
    if ts == [] {
      assert ts + [t] == [t];
      assert [t][1..] == [];
      WrapZero(at, n);
    } else {
      assert (ts + [t])[1..] == ts[1..] + [t];
      WrapTwice(at, Len(ts[0], n), Sum(ts[1..], n), n);
      ChainAppend(ts[1..], t, Wrap(at + Len(ts[0], n), n), n);
    }
  }

  lemma WrapZero(at: nat, n: nat)
    requires at < n
    ensures Wrap(at, n) == at
  {
  }

  // ----- completion -----

  /** How many of the transfers lie entirely in the first p descriptors of the chain. */
  function Processed(ts: seq<Transfer>, p: nat, n: nat): (k: nat)
    ensures k <= |ts|
    decreases |ts|
  {
    if ts == [] || Len(ts[0], n) > p then 0 else 1 + Processed(ts[1..], p - Len(ts[0], n), n)
  }

  /** Processed is the longest prefix: exactly its prefixes fit in p descriptors. */
  lemma {:induction false} ProcessedIsLongest(ts: seq<Transfer>, p: nat, n: nat, i: nat)
    requires i <= |ts|
    ensures Sum(ts[..i], n) <= p <==> i <= Processed(ts, p, n)
    decreases |ts|
  {
    hide Len;
    if i > 0 {
      assert ts[..i][1..] == ts[1..][..i - 1];
      if Len(ts[0], n) <= p {
        ProcessedIsLongest(ts[1..], p - Len(ts[0], n), n, i - 1);
      }
    } else {
      assert ts[..0] == [];
    }
  }

  /** One test of the completion loop: with `p` of the descriptors in flight processed, the oldest transfer
      is reported complete exactly when all its descriptors are among them. */
  lemma CompleteIffProcessed(c: Channel, p: nat)
    requires Geometric(c) && c.transfers != []
    requires p <= Sum(c.transfers, |c.list.value.descs|)
    ensures IsComplete(c, c.transfers[0], Wrap(c.numProc + p, |c.list.value.descs|))
       <==> Len(c.transfers[0], |c.list.value.descs|) <= p
  {
    hide Len;
    PlacedEnd(c.transfers[0], c.numProc, |c.list.value.descs|);
  }

  /** Retiring the oldest transfer keeps the geometry. */
  lemma ReapOneGeometric(c: Channel)
    requires Consecutive(c) && c.transfers != []
    ensures var r := ReapOne(c);
            && r.list.Some? && r.list.value.page == c.list.value.page && |r.list.value.descs| == |c.list.value.descs|
            && r.numProc == Wrap(c.numProc + Len(c.transfers[0], |c.list.value.descs|), |c.list.value.descs|)
            && Consecutive(r)
            && (Geometric(c) ==> Geometric(r))
  {
    hide Len, ClearDirty, And;
    var l := c.list.value;
    var n := |l.descs|;
    PlacedEnd(c.transfers[0], c.numProc, n);
    CounterMask(n, c.transfers[0].lastDesc + 1);
    WrapTwice(c.numProc, Len(c.transfers[0], n), Sum(c.transfers[1..], n), n);
  }

  lemma CounterMask(n: nat, x: nat)
    requires IsPow2(n) && x < 2 * n && n <= TWO_16
    ensures And(x, n - 1) == Wrap(x, n)
    ensures And(x, n - 1) % TWO_16 == Wrap(x, n)
  {
    var k: nat :| n == Pow2(k);
    AndMask(x, k);
    WrapIsMod(x, n);
  }

  /** r is c with exactly the transfers `done` retired: those among the first p descriptors in flight. */
  ghost predicate Retired(c: Channel, p: nat, r: Channel, done: seq<Transfer>)
    requires Geometric(c)
  {
    var n := |c.list.value.descs|;
    var k := Processed(c.transfers, p, n);
    && done == c.transfers[..k]
    && r.transfers == c.transfers[k..]
    && Geometric(r)
    && r.list.value.page == c.list.value.page && |r.list.value.descs| == n
    && r.numAvail == c.numAvail
    && Sum(done, n) <= p
    && Sum(done, n) <= Sum(c.transfers, n)
    && r.numProc == Wrap(c.numProc + Sum(done, n), n)
  }

  lemma RetiredNone(c: Channel, p: nat)
    requires Geometric(c) && (c.transfers == [] || Len(c.transfers[0], |c.list.value.descs|) > p)
    ensures Retired(c, p, c, [])
  {
    hide Len, Chain;
  }

  lemma RetiredStep(c: Channel, p: nat, r: Channel, done: seq<Transfer>)
    requires Geometric(c) && c.transfers != [] && Len(c.transfers[0], |c.list.value.descs|) <= p
    requires Geometric(ReapOne(c)) && Retired(ReapOne(c), p - Len(c.transfers[0], |c.list.value.descs|), r, done)
    requires ReapOne(c).numProc == Wrap(c.numProc + Len(c.transfers[0], |c.list.value.descs|), |c.list.value.descs|)
    ensures Retired(c, p, r, [c.transfers[0]] + done)
  {
    hide Len, Chain, ClearDirty, And;
    var n, ts := |c.list.value.descs|, c.transfers;
    var k := Processed(ts, p, n);
    assert ts[..k] == [ts[0]] + ts[1..][..k - 1];
    assert ts[k..] == ts[1..][k - 1..];
    assert ([ts[0]] + done)[1..] == done;
    WrapTwice(c.numProc, Len(ts[0], n), Sum(done, n), n);
  }

  /** Exact completion: for a hardware counter that has passed p of the descriptors in flight, the loop retires
      precisely the transfers that lie entirely among them, oldest first, although num_proc moves meanwhile. */
  lemma {:induction false} ExactCompletion(c: Channel, p: nat)
    requires Geometric(c) && p <= Sum(c.transfers, |c.list.value.descs|)
    ensures var hw := Wrap(c.numProc + p, |c.list.value.descs|);
            Retired(c, p, Reap(c, hw), Done(c, hw))
    decreases |c.transfers|
  {
    hide Len, IsComplete, Chain, ReapOne, Retired;
    var n, ts := |c.list.value.descs|, c.transfers;
    if ts == [] {
      RetiredNone(c, p);
    } else {
      CompleteIffProcessed(c, p);
      if Len(ts[0], n) > p {
        RetiredNone(c, p);
      } else {
        ReapOneGeometric(c);
        ReapOneRest(c);
        WrapTwice(c.numProc, Len(ts[0], n), p - Len(ts[0], n), n);
        ExactCompletion(ReapOne(c), p - Len(ts[0], n));
        var hw := Wrap(c.numProc + p, n);
        RetiredStep(c, p, Reap(ReapOne(c), hw), Done(ReapOne(c), hw));
      }
    }
  }

  /** What a waiter is told: on an active channel without errors, the number of transfers in the longest prefix that
      lies in the first p descriptors in flight. */
  lemma ReportsTheLongest(c: Channel, control: nat, p: nat, i: nat)
    requires Geometric(c) && |c.transfers| <= 127 && p <= Sum(c.transfers, |c.list.value.descs|)
    requires i <= |c.transfers| && control % 2 == 1
    ensures var n := |c.list.value.descs|;
            var data := Report(c, control, Wrap(c.numProc + p, n));
            data != 0xFE ==> (Sum(c.transfers[..i], n) <= p <==> i <= data)
  {
    hide Len, Chain, Sum, Reap, Done, Report;
    var n := |c.list.value.descs|;
    ExactCompletion(c, p);
    ReportIs(c, control, Wrap(c.numProc + p, n));
    ProcessedIsLongest(c.transfers, p, n, i);
  }

  lemma ReapOneRest(c: Channel)
    requires c.list.Some? && c.transfers != []
    ensures ReapOne(c).transfers == c.transfers[1..]
  {
  }

  /** Exactness fails precisely on a full list: num_avail then equals num_proc, and a counter that has not moved
      reads as one that has gone all the way round. */
  lemma ExactIffNotFull(c: Channel)
    requires Consecutive(c) && c.transfers != []
    ensures (forall p | 0 <= p <= Sum(c.transfers, |c.list.value.descs|) ::
               |Done(c, Wrap(c.numProc + p, |c.list.value.descs|))| == Processed(c.transfers, p, |c.list.value.descs|))
       <==> Sum(c.transfers, |c.list.value.descs|) < |c.list.value.descs|
  {
    hide Len, Chain, ReapOne;
    var n := |c.list.value.descs|;
    if Sum(c.transfers, n) < n {
      forall p | 0 <= p <= Sum(c.transfers, n)
        ensures |Done(c, Wrap(c.numProc + p, n))| == Processed(c.transfers, p, n)
      {
        ExactCompletion(c, p);
      }
    } else {
      FirstLonger(c);
      assert c.numAvail == Wrap(c.numProc + 0, n);
      assert |Done(c, Wrap(c.numProc + 0, n))| != Processed(c.transfers, 0, n);
    }
  }

  lemma FirstLonger(c: Channel)
    requires Consecutive(c) && c.transfers != []
    ensures Len(c.transfers[0], |c.list.value.descs|) > 0
  {
    hide Len;
    PlacedEnd(c.transfers[0], c.numProc, |c.list.value.descs|);
  }

  // ----- the intervals, seen through what the transfers record -----

  lemma {:induction false} ChainAt(ts: seq<Transfer>, at: nat, n: nat, i: nat)
    requires at < n && Chain(ts, at, n) && Sum(ts, n) <= n && i < |ts|
    ensures Sum(ts[..i], n) + Len(ts[i], n) == Sum(ts[..i + 1], n) <= Sum(ts, n)
    ensures Placed(ts[i], Wrap(at + Sum(ts[..i], n), n), n)
    decreases i
  {
    hide Placed, Len, Wrap;
    if i == 0 {
      assert ts[..1] == [ts[0]];
      assert [ts[0]][1..] == [];
      WrapZero(at, n);
    } else {
      ChainAt(ts[1..], Wrap(at + Len(ts[0], n), n), n, i - 1);
      assert ts[..i][1..] == ts[1..][..i - 1];
      assert ts[..i + 1][1..] == ts[1..][..i];
      WrapTwice(at, Len(ts[0], n), Sum(ts[1..][..i - 1], n), n);
    }
  }

  lemma {:induction false} SumPrefix(ts: seq<Transfer>, i: nat, k: nat, n: nat)
    requires i <= k <= |ts|
    ensures Sum(ts[..i], n) <= Sum(ts[..k], n)
  {
    assert ts[..k] == ts[..i] + ts[i..k];
    SumConcat(ts[..i], ts[i..k], n);
  }

  /** d lies in the interval the transfer records: from its first descriptor, Len descriptors on. */
  ghost predicate Occupies(t: Transfer, d: nat, n: nat)
  {
    t.dirty != [] && t.dirty[0] < n && d < n && Offset(d, t.dirty[0], n) < Len(t, n)
  }

  /** The intervals start at num_proc, follow one another, and end at num_avail. */
  lemma IntervalsConsecutive(c: Channel, i: nat)
    requires Consecutive(c) && i < |c.transfers|
    ensures var ts, n := c.transfers, |c.list.value.descs|;
            && ts[i].dirty != [] && ts[i].lastDesc < n
            && (i == 0 ==> ts[0].dirty[0] == c.numProc)
            && (i + 1 < |ts| ==> ts[i + 1].dirty != [] && ts[i + 1].dirty[0] == Wrap(ts[i].lastDesc + 1, n))
            && (i + 1 == |ts| ==> c.numAvail == Wrap(ts[i].lastDesc + 1, n))
  {
    hide Len, Chain;
    var ts, n := c.transfers, |c.list.value.descs|;
    ChainAt(ts, c.numProc, n, i);
    PlacedEnd(ts[i], Wrap(c.numProc + Sum(ts[..i], n), n), n);
    if i == 0 {
      assert ts[..0] == [];
    }
    if i + 1 < |ts| {
      ChainAt(ts, c.numProc, n, i + 1);
    } else {
      assert ts[..i + 1] == ts;
    }
  }

  /** No descriptor belongs to two transfers in flight. */
  lemma IntervalsDisjoint(c: Channel, i: nat, k: nat, d: nat)
    requires Consecutive(c) && i < k < |c.transfers|
    ensures var n := |c.list.value.descs|;
            !(Occupies(c.transfers[i], d, n) && Occupies(c.transfers[k], d, n))
  {
    hide Len, Chain;
    var ts, n := c.transfers, |c.list.value.descs|;
    ChainAt(ts, c.numProc, n, i);
    ChainAt(ts, c.numProc, n, k);
    SumPrefix(ts, i + 1, k, n);
  }

  /** The counter the hardware reports in place of zero is its descriptor count; the mask maps it back. */
  lemma CounterReads(n: nat, raw: nat, position: nat)
    requires IsPow2(n) && n <= TWO_16 && position < n
    requires raw == position || (position == 0 && raw == n)
    ensures And(raw, n - 1) % TWO_16 == position
  {
    CounterMask(n, raw);
  }
}
