/** Which open file context owns which enabled channels, on all engines of a controller. */
module Ownership {

  import opened Results

  /** One channel bitmap per engine; a bitmap is the set of its channel numbers. */
  type Bitmaps = seq<set<nat>>

  /** The bits of b added to a, engine by engine (b may name engines the controller does not have). */
  function Add(a: Bitmaps, b: Bitmaps): (r: Bitmaps)
    requires |a| <= |b|
    ensures |r| == |a|
  {
    seq(|a|, k requires 0 <= k < |a| => a[k] + b[k])
  }

  /** The bits of b removed from a. */
  function Remove(a: Bitmaps, b: Bitmaps): (r: Bitmaps)
    requires |a| <= |b|
    ensures |r| == |a|
  {
    seq(|a|, k requires 0 <= k < |a| => a[k] - b[k])
  }

  predicate Disjoint(a: Bitmaps, b: Bitmaps)
    requires |a| <= |b|
  {
    forall k | 0 <= k < |a| :: a[k] !! b[k]
  }

  // ----- the ioctls -----

  class Context {
    var owned: Bitmaps

    constructor (engines: nat)
      ensures |owned| == engines && forall k | 0 <= k < engines :: owned[k] == {}
    {
      owned := seq(engines, k => {});
    }
  }

  class Controller {
    var enabled: Bitmaps
    var interrupted: Bitmaps

    /** hailo_vdma_enable_channels_ioctl: refused as a whole if any channel is already enabled. */
    method EnableChannels(ctx: Context, input: Bitmaps) returns (ret: int)
      requires |enabled| == |ctx.owned| <= |input|
      modifies this`enabled, ctx
      ensures ret == if Disjoint(old(enabled), input) then 0 else EINVAL
      ensures ret == 0 ==> enabled == Add(old(enabled), input) && ctx.owned == Add(old(ctx.owned), input)
      ensures ret != 0 ==> enabled == old(enabled) && ctx.owned == old(ctx.owned)
    {
      var k := 0;
      while k < |enabled|
        invariant 0 <= k <= |enabled|
        invariant forall i | 0 <= i < k :: enabled[i] !! input[i]
      {
        if !(enabled[k] !! input[k]) {
          return EINVAL;
        }
        k := k + 1;
      }
      k := 0;
      while k < |enabled|
        invariant 0 <= k <= |enabled| == |old(enabled)| == |ctx.owned|
        invariant forall i | 0 <= i < k :: enabled[i] == old(enabled)[i] + input[i]
                                        && ctx.owned[i] == old(ctx.owned)[i] + input[i]
        invariant forall i | k <= i < |enabled| :: enabled[i] == old(enabled)[i] && ctx.owned[i] == old(ctx.owned)[i]
      {
        enabled := enabled[k := enabled[k] + input[k]];
        ctx.owned := ctx.owned[k := ctx.owned[k] + input[k]];
        k := k + 1;
      }
      return 0;
    }

    /** hailo_vdma_disable_channels_ioctl: disables what it is given, enabled or not, owned or not. */
    method DisableChannels(ctx: Context, input: Bitmaps)
      requires |enabled| == |interrupted| == |ctx.owned| <= |input|
      modifies this, ctx
      ensures enabled == Remove(old(enabled), input) && interrupted == Remove(old(interrupted), input)
      ensures ctx.owned == Remove(old(ctx.owned), input)
    {
      var k := 0;
      while k < |enabled|
        invariant 0 <= k <= |enabled| == |old(enabled)| == |interrupted| == |ctx.owned|
        invariant forall i | 0 <= i < k :: enabled[i] == old(enabled)[i] - input[i]
                                        && interrupted[i] == old(interrupted)[i] - input[i]
                                        && ctx.owned[i] == old(ctx.owned)[i] - input[i]
        invariant forall i | k <= i < |enabled| :: enabled[i] == old(enabled)[i] && ctx.owned[i] == old(ctx.owned)[i]
                                                && interrupted[i] == old(interrupted)[i]
      {
        enabled := enabled[k := enabled[k] - input[k]];
        interrupted := interrupted[k := interrupted[k] - input[k]];
        ctx.owned := ctx.owned[k := ctx.owned[k] - input[k]];
        k := k + 1;
      }
    }

    /** The channel part of hailo_vdma_file_context_finalize: the context's own channels are disabled. */
    method Finalize(ctx: Context)
      requires |enabled| == |interrupted| == |ctx.owned|
      modifies this
      ensures enabled == Remove(old(enabled), ctx.owned) && interrupted == Remove(old(interrupted), ctx.owned)
    {
      var k := 0;
      while k < |enabled|
        invariant 0 <= k <= |enabled| == |old(enabled)| == |interrupted|
        invariant forall i | 0 <= i < k :: enabled[i] == old(enabled)[i] - ctx.owned[i]
                                        && interrupted[i] == old(interrupted)[i] - ctx.owned[i]
        invariant forall i | k <= i < |enabled| ::
                    enabled[i] == old(enabled)[i] && interrupted[i] == old(interrupted)[i]
      {
        if ctx.owned[k] != {} {
          enabled := enabled[k := enabled[k] - ctx.owned[k]];
          interrupted := interrupted[k := interrupted[k] - ctx.owned[k]];
        }
        k := k + 1;
      }
    }
  }

  // ----- all contexts together -----

  /** The enabled channels and the open contexts, by file. */
  datatype World = World(enabled: Bitmaps, contexts: map<nat, Bitmaps>)

  datatype Step =
    | Open(id: nat)
    | Enable(id: nat, input: Bitmaps)
    | DisableSome(id: nat, input: Bitmaps)
    | Close(id: nat)

  predicate Shaped(w: World) {
    forall id | id in w.contexts :: |w.contexts[id]| == |w.enabled|
  }

  predicate CanStep(w: World, s: Step) {
    match s
    case Open(id) => id !in w.contexts
    case Enable(id, input) => id in w.contexts && |w.enabled| <= |input|
    case DisableSome(id, input) => id in w.contexts && |w.enabled| <= |input|
    case Close(id) => id in w.contexts
  }

  function Next(w: World, s: Step): (r: World)
    requires Shaped(w) && CanStep(w, s)
    ensures Shaped(r) && |r.enabled| == |w.enabled|
  {
    match s
    case Open(id) => w.(contexts := w.contexts[id := seq(|w.enabled|, k => {})])
    case Enable(id, input) =>
      if Disjoint(w.enabled, input) then
        World(Add(w.enabled, input), w.contexts[id := Add(w.contexts[id], input)])
      else w
    case DisableSome(id, input) =>
      World(Remove(w.enabled, input), w.contexts[id := Remove(w.contexts[id], input)])
    case Close(id) => World(Remove(w.enabled, w.contexts[id]), w.contexts - {id})
  }

  ghost predicate Owner(w: World, k: nat, ch: nat, id: nat)
    requires Shaped(w) && k < |w.enabled|
  {
    id in w.contexts && ch in w.contexts[id][k]
  }

  /** Every enabled channel is on the bitmap of an open context. */
  ghost predicate Covered(w: World)
    requires Shaped(w)
  {
    forall k, ch | 0 <= k < |w.enabled| && ch in w.enabled[k] :: exists id :: Owner(w, k, ch, id)
  }

  /** The contexts' bitmaps are disjoint, and together exactly the enabled channels. */
  ghost predicate Exact(w: World)
    requires Shaped(w)
  {
    && Covered(w)
    && (forall k, ch, id | 0 <= k < |w.enabled| && Owner(w, k, ch, id) :: ch in w.enabled[k])
    && (forall k, ch, a, b | 0 <= k < |w.enabled| && Owner(w, k, ch, a) && Owner(w, k, ch, b) :: a == b)
  }

  /** The input names no channel on another context's bitmap. */
  ghost predicate OwnOnly(w: World, id: nat, input: Bitmaps)
    requires Shaped(w) && |w.enabled| <= |input|
  {
    forall k, ch, other | 0 <= k < |w.enabled| && Owner(w, k, ch, other) && other != id :: ch !in input[k]
  }

  /** What each step does to one channel. Enabling is refused as a whole if any of the channels is enabled; otherwise it
      gives exactly them to the context. Disabling takes exactly the named ones, closing exactly the context's own. */
  lemma StepEffect(w: World, s: Step, k: nat, ch: nat, other: nat)
    requires Shaped(w) && CanStep(w, s) && k < |w.enabled|
    ensures var w' := Next(w, s);
            match s
            case Open(id) => ch in w'.enabled[k] <==> ch in w.enabled[k]
            case Enable(id, input) =>
              if exists j, c :: 0 <= j < |w.enabled| && c in w.enabled[j] && c in input[j] then w' == w
              else
                && (ch in w'.enabled[k] <==> ch in w.enabled[k] || ch in input[k])
                && (Owner(w', k, ch, id) <==> Owner(w, k, ch, id) || ch in input[k])
            case DisableSome(id, input) =>
              && (ch in w'.enabled[k] <==> ch in w.enabled[k] && ch !in input[k])
              && (Owner(w', k, ch, id) <==> Owner(w, k, ch, id) && ch !in input[k])
            case Close(id) => ch in w'.enabled[k] <==> ch in w.enabled[k] && !Owner(w, k, ch, id)
    ensures other != s.id ==> (Owner(Next(w, s), k, ch, other) <==> Owner(w, k, ch, other))
    ensures s.Open? || s.Close? ==> !Owner(Next(w, s), k, ch, s.id)
    ensures other in Next(w, s).contexts
       <==> if other == s.id then !s.Close? else other in w.contexts
  {
    if s.Enable? && (exists j, c :: 0 <= j < |w.enabled| && c in w.enabled[j] && c in s.input[j]) {
      var j, c :| 0 <= j < |w.enabled| && c in w.enabled[j] && c in s.input[j];
      assert !(w.enabled[j] !! s.input[j]);
    } else if s.Enable? {
      forall j | 0 <= j < |w.enabled| ensures w.enabled[j] !! s.input[j] {
        forall c ensures !(c in w.enabled[j] && c in s.input[j]) {
        }
      }
    }
  }

  /** A file that is opened, enables channels nobody had enabled, and is closed leaves the world as it was. */
  lemma OpenEnableClose(w: World, id: nat, input: Bitmaps)
    requires Shaped(w) && id !in w.contexts && |w.enabled| <= |input| && Disjoint(w.enabled, input)
    ensures var first := Next(w, Open(id));
            && CanStep(first, Enable(id, input))
            && var enabled := Next(first, Enable(id, input));
               && CanStep(enabled, Close(id))
               && Next(enabled, Close(id)) == w
               && forall k, ch | 0 <= k < |w.enabled| && ch in input[k] ::
                    ch in enabled.enabled[k] && Owner(enabled, k, ch, id)
  {
    var enabled := Next(Next(w, Open(id)), Enable(id, input));
    var closed := Next(enabled, Close(id));
    forall k | 0 <= k < |w.enabled| ensures closed.enabled[k] == w.enabled[k] {
      assert enabled.contexts[id][k] == {} + input[k];
    }
    assert closed.contexts == w.contexts;
  }

  lemma StepCovered(w: World, s: Step)
    requires Shaped(w) && CanStep(w, s) && Covered(w)
    ensures Covered(Next(w, s))
  {
    var w' := Next(w, s);
    forall k, ch | 0 <= k < |w'.enabled| && ch in w'.enabled[k] ensures exists id :: Owner(w', k, ch, id) {
      if ch in w.enabled[k] {
        var id :| Owner(w, k, ch, id);
        assert Owner(w', k, ch, id);
      } else {
        assert Owner(w', k, ch, s.id);
      }
    }
  }

  /** A disable keeps the bitmaps exact if and only if it names no channel of another context. */
  lemma DisableKeepsExact(w: World, id: nat, input: Bitmaps)
    requires Shaped(w) && Exact(w) && CanStep(w, DisableSome(id, input))
    ensures Exact(Next(w, DisableSome(id, input))) <==> OwnOnly(w, id, input)
  {
    var w' := Next(w, DisableSome(id, input));
    StepCovered(w, DisableSome(id, input));
    if OwnOnly(w, id, input) {
      forall k, ch, a | 0 <= k < |w'.enabled| && Owner(w', k, ch, a) ensures ch in w'.enabled[k] && Owner(w, k, ch, a) {
        assert Owner(w, k, ch, a);
      }
    } else {
      var k, ch, other :| 0 <= k < |w.enabled| && Owner(w, k, ch, other) && other != id && ch in input[k];
      assert Owner(w', k, ch, other) && ch !in w'.enabled[k];
    }
  }

  lemma OtherStepsExact(w: World, s: Step)
    requires Shaped(w) && Exact(w) && CanStep(w, s) && !s.DisableSome?
    ensures Exact(Next(w, s))
  {
    var w' := Next(w, s);
    StepCovered(w, s);
    forall k, ch, a | 0 <= k < |w'.enabled| && Owner(w', k, ch, a)
      ensures ch in w'.enabled[k]
      ensures Owner(w, k, ch, a) || (s.Enable? && a == s.id && ch in s.input[k] && Disjoint(w.enabled, s.input))
    {
      if a in w.contexts && ch in w.contexts[a][k] {
        assert Owner(w, k, ch, a);
        assert s.Close? && ch in w.contexts[s.id][k] ==> Owner(w, k, ch, s.id);
      }
    }
  }

  /** A run from w, in which `own` says whether contexts disable only their own channels. */
  ghost predicate Run(w: World, steps: seq<Step>, own: bool, w': World)
    requires Shaped(w)
    decreases |steps|
  {
    if steps == [] then w' == w
    else
      && CanStep(w, steps[0])
      && (own && steps[0].DisableSome? ==> OwnOnly(w, steps[0].id, steps[0].input))
      && Run(Next(w, steps[0]), steps[1..], own, w')
  }

  lemma {:induction false} RunKeeps(w: World, steps: seq<Step>, own: bool, w': World)
    requires Shaped(w) && Run(w, steps, own, w') && Covered(w) && (own ==> Exact(w))
    ensures Shaped(w') && Covered(w') && (own ==> Exact(w'))
    decreases |steps|
  {
    hide Covered, Exact, OwnOnly, Next;
    if steps != [] {
      StepCovered(w, steps[0]);
      if own {
        if steps[0].DisableSome? {
          DisableKeepsExact(w, steps[0].id, steps[0].input);
        } else {
          OtherStepsExact(w, steps[0]);
        }
      }
      RunKeeps(Next(w, steps[0]), steps[1..], own, w');
    }
  }

  /** Nothing enabled and no context open. */
  function Fresh(engines: nat): World {
    World(seq(engines, k => {}), map[])
  }

  /** Whatever the contexts do, every enabled channel is on an open context's bitmap, so that none is enabled
      once the last context is closed; if contexts disable only their own channels, the bitmaps moreover stay
      disjoint and exact. */
  lemma OwnershipOverRuns(engines: nat, steps: seq<Step>, own: bool, w: World)
    requires Run(Fresh(engines), steps, own, w)
    ensures Shaped(w) && Covered(w)
    ensures own ==> Exact(w)
    ensures w.contexts == map[] ==> forall k | 0 <= k < |w.enabled| :: w.enabled[k] == {}
  {
    hide Run, Next;
    RunKeeps(Fresh(engines), steps, own, w);
  }
}
