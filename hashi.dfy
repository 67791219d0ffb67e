/**
 * The search of the final solver, A1/hashi.py: constraint propagation on the plank
 * ranges of the bridges, placing and removing planks while counting the islands that
 * are done, and the backtracking search over the bridges in connectedness order.
 */
module Hashi {
  import opened Cells
  import opened Bridges
  import opened Islands
  import opened Propagation
  import HashiBuild
  import Topology
  import Ordering

  /** The puzzle state of hashi.py: the bridges, the islands and the island counter. */
  class Board {
    const bridges: seq<Bridge>
    const islands: map<Cell, Island>
    /** The islands in the dictionary's iteration order. */
    const keys: seq<Cell>
    /** The live plank range of every bridge, by id. */
    var bounds: seq<Bounds>
    /** The global remaining_islands: islands not yet counted as done. */
    var remaining: int

    ghost predicate Valid()
      reads this, islands.Values
    {
      Wired(bridges, islands, keys) && |bounds| == |bridges|
    }

    /** The state main sets up: the bridges' own ranges, and every island remaining. */
    constructor (bridges: seq<Bridge>, islands: map<Cell, Island>, keys: seq<Cell>)
      requires Wired(bridges, islands, keys)
      ensures this.bridges == bridges && this.islands == islands && this.keys == keys
      ensures |bounds| == |bridges| && forall i :: 0 <= i < |bridges| ==> bounds[i] == bridges[i].bounds
      ensures remaining == |keys|
      ensures Valid()
    {
      this.bridges := bridges;
      this.islands := islands;
      this.keys := keys;
      bounds := seq(|bridges|, i requires 0 <= i < |bridges| => bridges[i].bounds);
      remaining := |keys|;
    }

    /** Island.done for the island at c under the ranges bs. */
    ghost predicate DoneAt(bs: seq<Bounds>, c: Cell)
      reads islands.Values
      requires Wired(bridges, islands, keys) && |bs| == |bridges| && c in islands
    {
      islands[c].IsDone(bs)
    }

    /** The island at c can still be satisfied: its maxima reach its number and its minima do not pass it. */
    ghost predicate Feasible(bs: seq<Bounds>, c: Cell)
      reads islands.Values
      requires Wired(bridges, islands, keys) && |bs| == |bridges| && c in islands
    {
      var island := islands[c];
      island.number <= SumOthers(bs, island.bridges, -1, true)
      && island.number >= SumOthers(bs, island.bridges, -1, false)
    }

    ghost predicate Consistent(bs: seq<Bounds>)
      reads islands.Values
      requires Wired(bridges, islands, keys) && |bs| == |bridges|
    {
      forall c :: c in islands ==> Feasible(bs, c)
    }

    /** A fixpoint of initial_forward_check: no pass would narrow any range. */
    ghost predicate Settled(bs: seq<Bounds>)
      reads islands.Values
      requires Wired(bridges, islands, keys) && |bs| == |bridges|
    {
      forall c, k :: c in islands && 0 <= k < |islands[c].bridges| ==>
        MinimumSettled(islands, bs, c, k) && MaximumSettled(islands, bs, c, k)
    }

    /** The number of islands among cs that are done under bs. */
    ghost function DoneCount(bs: seq<Bounds>, cs: seq<Cell>): nat
      reads islands.Values
      requires Wired(bridges, islands, keys) && |bs| == |bridges|
      requires forall i :: 0 <= i < |cs| ==> cs[i] in islands
    {
      if cs == [] then 0
      else DoneCount(bs, cs[..|cs| - 1]) + (if DoneAt(bs, cs[|cs| - 1]) then 1 else 0)
    }

    /** forward_check never rejects ranges that still hold a solution. */
    lemma SolutionFeasible(x: seq<int>, bs: seq<Bounds>)
      requires Wired(bridges, islands, keys) && |bs| == |bridges|
      requires Solves(|bridges|, islands, x) && Within(x, bs)
      ensures Consistent(bs)
    {
      var e := Exact(x);
      forall c | c in islands
        ensures Feasible(bs, c)
      {
        SumOthersMonotone(e, bs, islands[c].bridges, -1, true, true);
        SumOthersMonotone(bs, e, islands[c].bridges, -1, false, true);
      }
    }

    /** Changing one bridge leaves the done state of every island it does not touch alone. */
    lemma DoneElsewhere(bs: seq<Bounds>, id: nat, b: Bounds, c: Cell)
      requires Wired(bridges, islands, keys) && Incidence(bridges, islands) && |bs| == |bridges| && id < |bridges|
      requires c in islands && c != bridges[id].start && c != bridges[id].end
      ensures DoneAt(bs[id := b], c) <==> DoneAt(bs, c)
    {
      assert id !in islands[c].bridges;
      PlacedSumFrame(bs, islands[c].bridges, id, b);
    }

    /** forward_check: every island's maxima reach its number and its minima stay below it. */
    method ForwardCheck() returns (ok: bool)
      requires Valid()
      ensures ok <==> Consistent(bounds)
    {
      for ci := 0 to |keys|
        invariant forall j :: 0 <= j < ci ==> Feasible(bounds, keys[j])
      {
        var island := islands[keys[ci]];
        var total := Total(bounds, island.bridges, -1, true);
        if island.number > total {
          return false;
        }
        total := Total(bounds, island.bridges, -1, false);
        if island.number < total {
          return false;
        }
      }
      forall c | c in islands
        ensures Feasible(bounds, c)
      {
        var j :| 0 <= j < |keys| && keys[j] == c;
      }
      return true;
    }

    /**
     * One step of the minimum pass: raise the minimum of the k-th bridge of the island
     * at c to what the island's other bridges cannot carry at their maxima.
     */
    method RaiseBridge(c: Cell, k: nat) returns (changed: bool)
      requires Valid() && c in islands && k < |islands[c].bridges|
      modifies this`bounds
      ensures Valid() && Narrowed(old(bounds), bounds) && KeepsSolutions(|bridges|, islands, old(bounds), bounds)
      ensures forall i :: 0 <= i < |bounds| ==> bounds[i].maximum == old(bounds)[i].maximum
      ensures !changed ==> bounds == old(bounds) && MinimumSettled(islands, bounds, c, k)
    {
      var island := islands[c];
      var id := island.bridges[k];
      // What the other bridges of the island can carry at most
      var maxSum := Total(bounds, island.bridges, id, true);
      var diff := island.number - maxSum;
      forall x | Solves(|bridges|, islands, x) && Within(x, bounds)
        ensures x[id] >= diff
      {
        SolutionBounds(islands, x, bounds, c, k);
      }
      var oldMinimum := bounds[id].minimum;
      bounds := bounds[id := Bounds(Max(oldMinimum, diff), bounds[id].maximum)];
      changed := bounds[id].minimum != oldMinimum;
    }

    /** The minimum pass over the bridges of the island at c. */
    method RaiseIsland(c: Cell) returns (changed: bool)
      requires Valid() && c in islands
      modifies this`bounds
      ensures Valid() && Narrowed(old(bounds), bounds) && KeepsSolutions(|bridges|, islands, old(bounds), bounds)
      ensures forall i :: 0 <= i < |bounds| ==> bounds[i].maximum == old(bounds)[i].maximum
      ensures !changed ==> bounds == old(bounds)
      ensures !changed ==> forall k :: 0 <= k < |islands[c].bridges| ==> MinimumSettled(islands, bounds, c, k)
    {
      changed := false;
      for k := 0 to |islands[c].bridges|
        invariant Valid() && Narrowed(old(bounds), bounds) && KeepsSolutions(|bridges|, islands, old(bounds), bounds)
        invariant forall i :: 0 <= i < |bounds| ==> bounds[i].maximum == old(bounds)[i].maximum
        invariant !changed ==> bounds == old(bounds)
        invariant !changed ==> forall kk :: 0 <= kk < k ==> MinimumSettled(islands, old(bounds), c, kk)
      {
        var step := RaiseBridge(c, k);
        changed := changed || step;
      }
    }

    /**
     * The first half of a propagation pass: raise every bridge's minimum to what the
     * other bridges of each of its islands cannot carry at their maxima.
     */
    method RaiseMinimums() returns (changed: bool)
      requires Valid()
      modifies this`bounds
      ensures Valid() && Narrowed(old(bounds), bounds) && KeepsSolutions(|bridges|, islands, old(bounds), bounds)
      ensures forall i :: 0 <= i < |bounds| ==> bounds[i].maximum == old(bounds)[i].maximum
      ensures !changed ==> bounds == old(bounds)
      ensures !changed ==> forall c, k :: c in islands && 0 <= k < |islands[c].bridges| ==> MinimumSettled(islands, bounds, c, k)
    {
      changed := false;
      for ci := 0 to |keys|
        invariant Valid() && Narrowed(old(bounds), bounds) && KeepsSolutions(|bridges|, islands, old(bounds), bounds)
        invariant forall i :: 0 <= i < |bounds| ==> bounds[i].maximum == old(bounds)[i].maximum
        invariant !changed ==> bounds == old(bounds)
        invariant !changed ==> forall j, k :: 0 <= j < ci && 0 <= k < |islands[keys[j]].bridges| ==>
          MinimumSettled(islands, old(bounds), keys[j], k)
      {
        var step := RaiseIsland(keys[ci]);
        changed := changed || step;
      }
      if !changed {
        forall c, k | c in islands && 0 <= k < |islands[c].bridges|
          ensures MinimumSettled(islands, bounds, c, k)
        {
          var j :| 0 <= j < |keys| && keys[j] == c;
        }
      }
    }

    /**
     * One step of the maximum pass: lower the maximum of the k-th bridge of the island
     * at c to what the island's other bridges leave over at their minima.
     */
    method LowerBridge(c: Cell, k: nat) returns (changed: bool)
      requires Valid() && c in islands && k < |islands[c].bridges|
      modifies this`bounds
      ensures Valid() && Narrowed(old(bounds), bounds) && KeepsSolutions(|bridges|, islands, old(bounds), bounds)
      ensures forall i :: 0 <= i < |bounds| ==> bounds[i].minimum == old(bounds)[i].minimum
      ensures !changed ==> bounds == old(bounds) && MaximumSettled(islands, bounds, c, k)
    {
      var island := islands[c];
      var id := island.bridges[k];
      // What the other bridges of the island carry at least
      var minSum := Total(bounds, island.bridges, id, false);
      var diff := island.number - minSum;
      forall x | Solves(|bridges|, islands, x) && Within(x, bounds)
        ensures x[id] <= diff
      {
        SolutionBounds(islands, x, bounds, c, k);
      }
      var oldMaximum := bounds[id].maximum;
      bounds := bounds[id := Bounds(bounds[id].minimum, Min(oldMaximum, diff))];
      changed := bounds[id].maximum != oldMaximum;
    }

    /** The maximum pass over the bridges of the island at c. */
    method LowerIsland(c: Cell) returns (changed: bool)
      requires Valid() && c in islands
      modifies this`bounds
      ensures Valid() && Narrowed(old(bounds), bounds) && KeepsSolutions(|bridges|, islands, old(bounds), bounds)
      ensures forall i :: 0 <= i < |bounds| ==> bounds[i].minimum == old(bounds)[i].minimum
      ensures !changed ==> bounds == old(bounds)
      ensures !changed ==> forall k :: 0 <= k < |islands[c].bridges| ==> MaximumSettled(islands, bounds, c, k)
    {
      changed := false;
      for k := 0 to |islands[c].bridges|
        invariant Valid() && Narrowed(old(bounds), bounds) && KeepsSolutions(|bridges|, islands, old(bounds), bounds)
        invariant forall i :: 0 <= i < |bounds| ==> bounds[i].minimum == old(bounds)[i].minimum
        invariant !changed ==> bounds == old(bounds)
        invariant !changed ==> forall kk :: 0 <= kk < k ==> MaximumSettled(islands, old(bounds), c, kk)
      {
        var step := LowerBridge(c, k);
        changed := changed || step;
      }
    }

    /**
     * The second half of a propagation pass: lower every bridge's maximum to what the
     * other bridges of each of its islands leave over at their minima.
     */
    method LowerMaximums() returns (changed: bool)
      requires Valid()
      modifies this`bounds
      ensures Valid() && Narrowed(old(bounds), bounds) && KeepsSolutions(|bridges|, islands, old(bounds), bounds)
      ensures forall i :: 0 <= i < |bounds| ==> bounds[i].minimum == old(bounds)[i].minimum
      ensures !changed ==> bounds == old(bounds)
      ensures !changed ==> forall c, k :: c in islands && 0 <= k < |islands[c].bridges| ==> MaximumSettled(islands, bounds, c, k)
    {
      changed := false;
      for ci := 0 to |keys|
        invariant Valid() && Narrowed(old(bounds), bounds) && KeepsSolutions(|bridges|, islands, old(bounds), bounds)
        invariant forall i :: 0 <= i < |bounds| ==> bounds[i].minimum == old(bounds)[i].minimum
        invariant !changed ==> bounds == old(bounds)
        invariant !changed ==> forall j, k :: 0 <= j < ci && 0 <= k < |islands[keys[j]].bridges| ==>
          MaximumSettled(islands, old(bounds), keys[j], k)
      {
        var step := LowerIsland(keys[ci]);
        changed := changed || step;
      }
      if !changed {
        forall c, k | c in islands && 0 <= k < |islands[c].bridges|
          ensures MaximumSettled(islands, bounds, c, k)
        {
          var j :| 0 <= j < |keys| && keys[j] == c;
        }
      }
    }

    /**
     * initial_forward_check: repeat both passes while one of them narrows a range (at
     * most `fuel` times), then count every island that is done off the counter. The
     * ranges only narrow, no solution inside the old ranges is lost, and on convergence
     * the ranges are a fixpoint of the passes.
     */
    method InitialForwardCheck(fuel: nat) returns (converged: bool)
      requires Valid()
      modifies this`bounds, this`remaining
      ensures Valid() && Narrowed(old(bounds), bounds) && KeepsSolutions(|bridges|, islands, old(bounds), bounds)
      ensures converged ==> Settled(bounds)
      ensures remaining == old(remaining) - DoneCount(bounds, keys)
    {
      var changes := true;
      var passes := 0;
      while changes && passes < fuel
        invariant Valid() && Narrowed(old(bounds), bounds) && KeepsSolutions(|bridges|, islands, old(bounds), bounds)
        invariant !changes ==> Settled(bounds)
        invariant remaining == old(remaining)
        decreases fuel - passes
      {
        var raised := RaiseMinimums();
        var lowered := LowerMaximums();
        changes := raised || lowered;
        passes := passes + 1;
      }
      converged := !changes;
      CountOffDone();
    }

    /** The last step of initial_forward_check: every island that is done is counted off. */
    method CountOffDone()
      requires Valid()
      modifies this`remaining
      ensures remaining == old(remaining) - DoneCount(bounds, keys)
    {
      for ci := 0 to |keys|
        invariant forall j :: 0 <= j < ci ==> keys[..ci][j] in islands
        invariant remaining == old(remaining) - DoneCount(bounds, keys[..ci])
      {
        var done := islands[keys[ci]].Done(bounds);
        if done {
          remaining := remaining - 1;
        }
        assert keys[..ci + 1][..ci] == keys[..ci];
      }
      assert keys[..|keys|] == keys;
    }

    /**
     * find_connectedness: every bridge's score, which counts the bridge itself at both
     * of its islands.
     */
    method FindConnectedness() returns (scores: seq<int>)
      requires Valid() && Incidence(bridges, islands)
      ensures |scores| == |bridges|
      ensures forall i :: 0 <= i < |bridges| ==> scores[i] == Score(bridges, islands, i) && scores[i] >= 2
    {
      scores := [];
      for i := 0 to |bridges|
        invariant |scores| == i
        invariant forall m :: 0 <= m < i ==> scores[m] == Score(bridges, islands, m) && scores[m] >= 2
      {
        var score := 0;
        var bridge := bridges[i];
        if bridge.start in islands {
          score := score + |islands[bridge.start].bridges|;
        }
        if bridge.end in islands {
          score := score + |islands[bridge.end].bridges|;
        }
        assert i in islands[bridge.start].bridges && i in islands[bridge.end].bridges;
        scores := scores + [score];
      }
    }

    /**
     * place_bridge: fix the bridge at `planks`, and count off each end island that
     * this makes done. An end island that stops being done is not counted back.
     */
    method PlaceBridge(id: nat, planks: int)
      requires Valid() && id < |bridges|
      modifies this`bounds, this`remaining
      ensures Valid()
      ensures bounds == old(bounds)[id := Bounds(planks, planks)]
      ensures remaining == old(remaining)
        - (if DoneAt(bounds, bridges[id].start) && !DoneAt(old(bounds), bridges[id].start) then 1 else 0)
        - (if DoneAt(bounds, bridges[id].end) && !DoneAt(old(bounds), bridges[id].end) then 1 else 0)
    {
      var bridge := bridges[id];
      var startIsland, endIsland := islands[bridge.start], islands[bridge.end];
      var prevDoneStart := startIsland.Done(bounds);
      var prevDoneEnd := endIsland.Done(bounds);
      var next := bounds[id := Bounds(planks, planks)];
      var count := remaining;
      var doneStart := startIsland.Done(next);
      if doneStart && !prevDoneStart {
        count := count - 1;
      }
      var doneEnd := endIsland.Done(next);
      if doneEnd && !prevDoneEnd {
        count := count - 1;
      }
      bounds, remaining := next, count;
    }

    /**
     * remove_bridge: give the bridge the range [prevMin, prevMax] back, and count back
     * each end island that this makes not done.
     */
    method RemoveBridge(id: nat, prevMax: int, prevMin: int)
      requires Valid() && id < |bridges|
      modifies this`bounds, this`remaining
      ensures Valid()
      ensures bounds == old(bounds)[id := Bounds(prevMin, prevMax)]
      ensures remaining == old(remaining)
        + (if !DoneAt(bounds, bridges[id].start) && DoneAt(old(bounds), bridges[id].start) then 1 else 0)
        + (if !DoneAt(bounds, bridges[id].end) && DoneAt(old(bounds), bridges[id].end) then 1 else 0)
    {
      var bridge := bridges[id];
      var startIsland, endIsland := islands[bridge.start], islands[bridge.end];
      var prevDoneStart := startIsland.Done(bounds);
      var prevDoneEnd := endIsland.Done(bounds);
      var next := bounds[id := Bounds(prevMin, prevMax)];
      var count := remaining;
      var doneStart := startIsland.Done(next);
      if !doneStart && prevDoneStart {
        count := count + 1;
      }
      var doneEnd := endIsland.Done(next);
      if !doneEnd && prevDoneEnd {
        count := count + 1;
      }
      bounds, remaining := next, count;
    }

    /**
     * The first loop of backtrack: every bridge the current bridge crosses is fixed at
     * 0 planks, and each remembers the current bridge's range, not its own.
     */
    method ZeroCrossings(cur: nat) returns (prevValues: map<nat, Bounds>)
      requires Valid() && cur < |bridges|
      modifies this`bounds, this`remaining
      ensures Valid()
      ensures forall j :: 0 <= j < |bridges| && j !in bridges[cur].crossings ==> bounds[j] == old(bounds)[j]
      ensures forall j :: j in bridges[cur].crossings ==> bounds[j] == Bounds(0, 0)
      ensures forall j :: j in prevValues <==> j in bridges[cur].crossings
      ensures forall j :: j in prevValues ==> prevValues[j] == old(bounds)[cur]
      ensures old(remaining) - 2 * |bridges[cur].crossings| <= remaining <= old(remaining)
    {
      var crossings := bridges[cur].crossings;
      prevValues := map[];
      for k := 0 to |crossings|
        invariant Valid()
        invariant old(remaining) - 2 * k <= remaining <= old(remaining)
        invariant forall j :: 0 <= j < |bridges| && j !in crossings[..k] ==> bounds[j] == old(bounds)[j]
        invariant forall j :: j in crossings[..k] ==> bounds[j] == Bounds(0, 0)
        invariant forall j :: j in prevValues <==> j in crossings[..k]
        invariant forall j :: j in prevValues ==> prevValues[j] == old(bounds)[cur]
      {
        var crossed := crossings[k];
        assert crossings[..k + 1] == crossings[..k] + [crossed];
        prevValues := prevValues[crossed := bounds[cur]];
        PlaceBridge(crossed, 0);
      }
      assert crossings[..|crossings|] == crossings;
    }

    /**
     * The restoring loop of backtrack: every bridge the current bridge crosses gets the
     * range remembered for it back.
     */
    method RestoreCrossings(cur: nat, prevValues: map<nat, Bounds>)
      requires Valid() && cur < |bridges|
      requires forall j :: j in bridges[cur].crossings ==> j in prevValues
      modifies this`bounds, this`remaining
      ensures Valid()
      ensures forall j :: 0 <= j < |bridges| && j !in bridges[cur].crossings ==> bounds[j] == old(bounds)[j]
      ensures forall j :: j in bridges[cur].crossings ==> bounds[j] == prevValues[j]
      ensures old(remaining) <= remaining <= old(remaining) + 2 * |bridges[cur].crossings|
    {
      var crossings := bridges[cur].crossings;
      for k := 0 to |crossings|
        invariant Valid()
        invariant old(remaining) <= remaining <= old(remaining) + 2 * k
        invariant forall j :: 0 <= j < |bridges| && j !in crossings[..k] ==> bounds[j] == old(bounds)[j]
        invariant forall j :: j in crossings[..k] ==> bounds[j] == prevValues[j]
      {
        var crossed := crossings[k];
        assert crossings[..k + 1] == crossings[..k] + [crossed];
        var prev := prevValues[crossed];
        RemoveBridge(crossed, prev.maximum, prev.minimum);
      }
      assert crossings[..|crossings|] == crossings;
    }

    /**
     * The plank loop of backtrack: try startPlanks, startPlanks - 1, ... down to just
     * above endPlanks on the current bridge, and report in `tried` the counts tried.
     */
    method TryPlanks(idx: nat, order: seq<nat>, startPlanks: int, endPlanks: int, prevMax: int, prevMin: int)
      returns (found: bool, ghost tried: seq<int>)
      requires Valid() && endPlanks >= 0
      requires idx < |order| && forall k :: 0 <= k < |order| ==> order[k] < |bridges|
      modifies this`bounds, this`remaining
      decreases |order| - idx, 1
      ensures Valid()
      ensures found ==> remaining == 0
      ensures forall j :: 0 <= j < |bridges| && !Touches(bridges, order, idx, j) ==> bounds[j] == old(bounds)[j]
      ensures forall k :: 0 <= k < |tried| ==> tried[k] == startPlanks - k && tried[k] > endPlanks && tried[k] >= 1
      ensures !found ==> |tried| == Max(0, startPlanks - endPlanks)
    {
      var planks := startPlanks;
      tried := [];
      while planks > endPlanks
        invariant Valid()
        invariant forall j :: 0 <= j < |bridges| && !Touches(bridges, order, idx, j) ==> bounds[j] == old(bounds)[j]
        invariant planks == startPlanks - |tried| && (|tried| > 0 ==> planks >= endPlanks)
        invariant forall k :: 0 <= k < |tried| ==> tried[k] == startPlanks - k && tried[k] > endPlanks
        decreases planks - endPlanks
      {
        tried := tried + [planks];
        found := TryPlank(idx, order, planks, prevMax, prevMin);
        if found {
          return;
        }
        planks := planks - 1;
      }
      found := false;
    }

    /**
     * One count of the plank loop: place it on the current bridge, skip it when an end
     * island is over, and otherwise search on from the next position; a failed search
     * gives the current bridge the range [prevMin, prevMax] back.
     */
    method TryPlank(idx: nat, order: seq<nat>, planks: int, prevMax: int, prevMin: int) returns (found: bool)
      requires Valid()
      requires idx < |order| && forall k :: 0 <= k < |order| ==> order[k] < |bridges|
      modifies this`bounds, this`remaining
      decreases |order| - idx, 0
      ensures Valid()
      ensures found ==> remaining == 0
      ensures forall j :: 0 <= j < |bridges| && !Touches(bridges, order, idx, j) ==> bounds[j] == old(bounds)[j]
      ensures islands[bridges[order[idx]].start].IsOver(old(bounds)[order[idx] := Bounds(planks, planks)])
        || islands[bridges[order[idx]].end].IsOver(old(bounds)[order[idx] := Bounds(planks, planks)])
        ==> !found && bounds == old(bounds)[order[idx] := Bounds(planks, planks)]
      ensures !found
        && !islands[bridges[order[idx]].start].IsOver(old(bounds)[order[idx] := Bounds(planks, planks)])
        && !islands[bridges[order[idx]].end].IsOver(old(bounds)[order[idx] := Bounds(planks, planks)])
        ==> bounds[order[idx]] == Bounds(prevMin, prevMax)
    {
      var cur := order[idx];
      var startIsland, endIsland := islands[bridges[cur].start], islands[bridges[cur].end];
      PlaceBridge(cur, planks);
      var over := startIsland.Over(bounds);
      if !over {
        over := endIsland.Over(bounds);
      }
      found := false;
      if !over {
        found := Backtrack(idx + 1, order);
        if !found {
          RemoveBridge(cur, prevMax, prevMin);
        }
      }
    }

    /**
     * backtrack: search from position idx of `order`. A true result means the counter
     * reached 0. A search that has nothing to do (the counter is 0, no bridge is left,
     * or forward_check fails) changes nothing; otherwise only the bridges still to
     * visit and the bridges they cross change, and on failure the current bridge, if it
     * was undecided, gets its range back.
     */
    method Backtrack(idx: nat, order: seq<nat>) returns (found: bool)
      requires Valid()
      requires idx <= |order| && forall k :: 0 <= k < |order| ==> order[k] < |bridges|
      modifies this`bounds, this`remaining
      decreases |order| - idx, 3
      ensures Valid()
      ensures found ==> remaining == 0
      ensures old(remaining) == 0 ==> found && bounds == old(bounds)
      ensures old(remaining) != 0 && (idx == |order| || !Consistent(old(bounds))) ==>
        !found && bounds == old(bounds) && remaining == old(remaining)
      ensures forall j :: 0 <= j < |bridges| && !Touches(bridges, order, idx, j) ==> bounds[j] == old(bounds)[j]
      ensures !found && idx < |order| && !old(bounds)[order[idx]].Done() ==>
        bounds[order[idx]] == old(bounds)[order[idx]]
    {
      // Every island satisfied: the search succeeds
      if remaining == 0 {
        return true;
      }
      // The order is exhausted with islands still unsatisfied
      if idx == |order| {
        return false;
      }
      // Propagation emptied a range: this branch holds no solution
      var ok := ForwardCheck();
      if !ok {
        return false;
      }
      var cur := order[idx];
      var current := bridges[cur];
      // A decided range needs no choice; move on to the next position
      if bounds[cur].Done() {
        found := Backtrack(idx + 1, order);
        return;
      }
      ghost var tried;
      found, tried := Branch(idx, order);
    }

    /**
     * The branching part of backtrack for an undecided current bridge: zero the bridges
     * it crosses, try its plank counts from the largest down, restore the crossed
     * bridges, and finally try it at 0 planks. On failure the current bridge gets its
     * range back, and the crossed bridges the current bridge's range.
     */
    method Branch(idx: nat, order: seq<nat>) returns (found: bool, ghost tried: seq<int>)
      requires Valid()
      requires idx < |order| && forall k :: 0 <= k < |order| ==> order[k] < |bridges|
      modifies this`bounds, this`remaining
      decreases |order| - idx, 2
      ensures Valid()
      ensures found ==> remaining == 0
      ensures forall j :: 0 <= j < |bridges| && !Touches(bridges, order, idx, j) ==> bounds[j] == old(bounds)[j]
      ensures !found ==> bounds[order[idx]] == old(bounds)[order[idx]]
      ensures forall k :: 0 <= k < |tried| ==>
        && tried[k] == Min(Min(3, islands[bridges[order[idx]].start].number),
                           Min(islands[bridges[order[idx]].end].number, old(bounds)[order[idx]].maximum)) - k
        && Max(1, old(bounds)[order[idx]].minimum) <= tried[k]
      ensures !found ==> |tried| == Max(0, Min(Min(3, islands[bridges[order[idx]].start].number),
                           Min(islands[bridges[order[idx]].end].number, old(bounds)[order[idx]].maximum))
                         - Max(0, old(bounds)[order[idx]].minimum - 1))
    {
      var cur := order[idx];
      var current := bridges[cur];
      var prevMax, prevMin := bounds[cur].maximum, bounds[cur].minimum;
      // The crossed bridges are pinned to zero planks while this one carries some
      var prevValues := ZeroCrossings(cur);
      var startIsland, endIsland := islands[current.start], islands[current.end];
      var startPlanks := Min(Min(3, startIsland.number), Min(endIsland.number, bounds[cur].maximum));
      var endPlanks := Max(0, bounds[cur].minimum - 1);
      found, tried := TryPlanks(idx, order, startPlanks, endPlanks, prevMax, prevMin);
      if found {
        return;
      }
      // Give the crossed bridges their remembered ranges back before trying zero planks
      RestoreCrossings(cur, prevValues);
      found := SkipBridge(idx, order, prevMax, prevMin);
    }

    /**
     * The last case of backtrack: the current bridge is placed at 0 planks and the
     * search goes on from the next position; on failure the bridge is removed again
     * with the range [prevMin, prevMax].
     */
    method SkipBridge(idx: nat, order: seq<nat>, prevMax: int, prevMin: int) returns (found: bool)
      requires Valid()
      requires idx < |order| && forall k :: 0 <= k < |order| ==> order[k] < |bridges|
      modifies this`bounds, this`remaining
      decreases |order| - idx, 0
      ensures Valid()
      ensures found ==> remaining == 0
      ensures forall j :: 0 <= j < |bridges| && !Touches(bridges, order, idx, j) ==> bounds[j] == old(bounds)[j]
      ensures !found ==> bounds[order[idx]] == Bounds(prevMin, prevMax)
    {
      var cur := order[idx];
      PlaceBridge(cur, 0);
      found := Backtrack(idx + 1, order);
      if found {
        return;
      }
      // Undo the placement before the next plank count
      RemoveBridge(cur, prevMax, prevMin);
    }
  }

  /**
   * The pre-processing of main: wire up the puzzle, propagate, and order the bridges by
   * connectedness. The order lists every bridge once, by ascending score.
   */
  method Preprocess(g: Grid, fuel: nat) returns (board: Board, order: seq<nat>)
    requires Rectangular(g)
    ensures fresh(board) && board.Valid() && Incidence(board.bridges, board.islands)
    ensures |board.bridges| == |Topology.AllSpans(g)|
    ensures forall i :: 0 <= i < |board.bridges| ==>
      && board.bridges[i].start == Topology.AllSpans(g)[i].start
      && board.bridges[i].end == Topology.AllSpans(g)[i].end
      && board.bridges[i].horizontal == Topology.AllSpans(g)[i].horizontal
    ensures |order| == |board.bridges| && Distinct(order)
    ensures forall i :: 0 <= i < |board.bridges| ==> i in order
    ensures forall p, q :: 0 <= p < q < |order| ==>
      order[p] < |board.bridges| && order[q] < |board.bridges| && Score(board.bridges, board.islands, order[p]) <= Score(board.bridges, board.islands, order[q])
      && (Score(board.bridges, board.islands, order[p]) == Score(board.bridges, board.islands, order[q]) ==> order[p] < order[q])
    ensures forall c :: c in board.islands <==> InGrid(g, c) && At(g, c) != 0
    ensures forall c :: c in board.islands ==> board.islands[c].number == At(g, c)
    ensures forall i :: 0 <= i < |board.bridges| ==> board.bridges[i].bounds == Bounds(0, 3)
    ensures Narrowed(Ranges(board.bridges), board.bounds)
    ensures KeepsSolutions(|board.bridges|, board.islands, Ranges(board.bridges), board.bounds)
    ensures board.remaining == |board.keys| - board.DoneCount(board.bounds, board.keys)
  {
    var bs, islands, keys := HashiBuild.Wire(g);
    var converged;
    board, converged := Propagated(bs, islands, keys, fuel);
    var scores := board.FindConnectedness();
    order := Ordering.StableOrder(scores);
    forall p, q | 0 <= p < q < |order|
      ensures order[p] != order[q] && Score(board.bridges, board.islands, order[p]) <= Score(board.bridges, board.islands, order[q])
      ensures Score(board.bridges, board.islands, order[p]) == Score(board.bridges, board.islands, order[q]) ==> order[p] < order[q]
    {
      assert Ordering.Ahead(scores, order[p], order[q]);
    }
  }

  /** The board main builds before ordering the bridges: the ranges propagated. */
  method Propagated(bs: seq<Bridge>, islands: map<Cell, Island>, keys: seq<Cell>, fuel: nat)
    returns (board: Board, converged: bool)
    requires Wired(bs, islands, keys)
    ensures fresh(board) && board.Valid()
    ensures board.bridges == bs && board.islands == islands && board.keys == keys
    ensures Narrowed(Ranges(bs), board.bounds)
    ensures KeepsSolutions(|bs|, islands, Ranges(bs), board.bounds)
    ensures board.remaining == |keys| - board.DoneCount(board.bounds, keys)
    ensures converged ==> board.Settled(board.bounds)
  {
    board := new Board(bs, islands, keys);
    assert board.bounds == Ranges(bs);
    converged := board.InitialForwardCheck(fuel);
  }
}
