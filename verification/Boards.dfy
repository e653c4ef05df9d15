/** The list of probed boards and the indices they are given. */
module Boards {

  /** The indices in list order are strictly increasing. */
  predicate Sorted(boards: seq<nat>) {
    forall i, j | 0 <= i < j < |boards| :: boards[i] < boards[j]
  }

  /** index is free, and every smaller one is taken. */
  ghost predicate SmallestFree(boards: seq<nat>, index: nat) {
    index !in boards && forall k | 0 <= k < index :: k in boards
  }

  class BoardList {
    var boards: seq<nat>

    constructor ()
      ensures boards == []
    {
      boards := [];
    }

    /** hailo_pcie_insert_board: the new board gets the smallest index not in use, and its place in the list. */
    method Insert() returns (index: nat)
      requires Sorted(boards)
      modifies this
      ensures Sorted(boards) && SmallestFree(old(boards), index)
      ensures index <= |old(boards)| && boards == old(boards)[..index] + [index] + old(boards)[index..]
    {
      if |boards| == 0 || boards[0] > 0 {
        FirstIsFree(boards);
        boards := [0] + boards;
        return 0;
      }
      var i := 0;
      index := boards[i] + 1;
      while i < |boards| - 1 && index == boards[i + 1]
        invariant 0 <= i < |boards| && index == boards[i] + 1
        invariant forall k | 0 <= k <= i :: boards[k] == k
      {
        i := i + 1;
        index := boards[i] + 1;
      }
      GapIsFree(boards, index);
      boards := boards[..i + 1] + [index] + boards[i + 1..];
    }

    /** hailo_pcie_remove_board of the board at position i of the list. */
    method Remove(i: nat)
      requires Sorted(boards) && i < |boards|
      modifies this
      ensures boards == old(boards)[..i] + old(boards)[i + 1..]
      ensures Sorted(boards) && old(boards)[i] !in boards
      ensures forall k | k in old(boards) && k != old(boards)[i] :: k in boards
    {
      RemovedIsGone(boards, i);
      boards := boards[..i] + boards[i + 1..];
    }
  }

  lemma FirstIsFree(boards: seq<nat>)
    requires Sorted(boards) && (boards == [] || boards[0] > 0)
    ensures SmallestFree(boards, 0) && Sorted([0] + boards)
    ensures [0] + boards == boards[..0] + [0] + boards[0..]
  {
  }

  /** The first gap of a list that starts 0, 1, ..., index - 1. */
  lemma GapIsFree(boards: seq<nat>, index: nat)
    requires Sorted(boards) && 0 < index <= |boards| && (forall k | 0 <= k < index :: boards[k] == k)
    requires index == |boards| || boards[index] != index
    ensures SmallestFree(boards, index) && Sorted(boards[..index] + [index] + boards[index..])
  {
    forall k | 0 <= k < index ensures k in boards {
      assert boards[k] == k;
    }
    if index < |boards| {
      assert boards[index - 1] < boards[index];
    }
  }

  lemma RemovedIsGone(boards: seq<nat>, i: nat)
    requires Sorted(boards) && i < |boards|
    ensures var rest := boards[..i] + boards[i + 1..];
            Sorted(rest) && boards[i] !in rest && forall k | k in boards && k != boards[i] :: k in rest
  {
    var rest := boards[..i] + boards[i + 1..];
    forall k | k in boards && k != boards[i] ensures k in rest {
      var j :| 0 <= j < |boards| && boards[j] == k;
      assert rest[if j < i then j else j - 1] == k;
    }
  }

  // ----- any sequence of inserts and removes -----

  datatype Step = Inserted(index: nat) | Removed(position: nat)

  ghost predicate CanStep(boards: seq<nat>, s: Step) {
    match s
    case Inserted(index) => SmallestFree(boards, index) && index <= |boards|
    case Removed(position) => position < |boards|
  }

  function Next(boards: seq<nat>, s: Step): seq<nat>
    requires if s.Inserted? then s.index <= |boards| else s.position < |boards|
  {
    match s
    case Inserted(index) => boards[..index] + [index] + boards[index..]
    case Removed(position) => boards[..position] + boards[position + 1..]
  }

  ghost predicate Run(boards: seq<nat>, steps: seq<Step>, boards': seq<nat>)
    decreases |steps|
  {
    if steps == [] then boards' == boards
    else CanStep(boards, steps[0]) && Run(Next(boards, steps[0]), steps[1..], boards')
  }

  /** In a sorted list the smallest free index is where the indices stop being 0, 1, 2, ... */
  lemma {:induction false} SmallestFreeIsGap(boards: seq<nat>, index: nat, k: nat)
    requires Sorted(boards) && SmallestFree(boards, index) && k < index
    ensures k < |boards| && boards[k] == k
    decreases k
  {
    if k > 0 {
      SmallestFreeIsGap(boards, index, k - 1);
    }
    assert k in boards;
    var j :| 0 <= j < |boards| && boards[j] == k;
  }

  /** Over every sequence of inserts and removes the list stays strictly sorted, so that no two boards share an
      index. */
  lemma {:induction false} AlwaysSorted(boards: seq<nat>, steps: seq<Step>, boards': seq<nat>)
    requires Sorted(boards) && Run(boards, steps, boards')
    ensures Sorted(boards')
    decreases |steps|
  {
    hide Sorted, SmallestFree;
    if steps != [] {
      match steps[0] {
        case Inserted(index) => InsertSorted(boards, index);
        case Removed(position) => RemovedIsGone(boards, position);
      }
      AlwaysSorted(Next(boards, steps[0]), steps[1..], boards');
    }
  }

  lemma InsertSorted(boards: seq<nat>, index: nat)
    requires Sorted(boards) && SmallestFree(boards, index) && index <= |boards|
    ensures Sorted(boards[..index] + [index] + boards[index..])
  {
    forall k | 0 <= k < index ensures boards[k] == k {
      SmallestFreeIsGap(boards, index, k);
    }
    if index == 0 {
      assert boards == [] || boards[0] in boards;
      FirstIsFree(boards);
    } else {
      assert index < |boards| ==> boards[index] in boards;
      GapIsFree(boards, index);
    }
  }
}
