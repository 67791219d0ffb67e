/**
 * The intermediate solver, A1/airplane.py. Its bridges carry, besides the plank range
 * of A1/bridge.py, a plank count and a `done` flag that placing and removing a bridge
 * set. Propagation skips decided bridges and stops at the first empty range; the
 * search passes the island counter down by value and snapshots the ranges around
 * each propagation.
 */
module Airplane {
  import opened Cells
  import opened Bridges
  import opened Islands
  import opened Propagation
  import HashiBuild
  import Topology
  import Ordering

  /** What one plank count tried by backtrack came to. */
  datatype Attempt =
    | Infeasible           // propagation emptied a range; the ranges were put back
    | Counted              // the end islands that are done use up the counter
    | Overfilled           // an end island carries too many planks; no search below
    | Searched(found: bool) // the search went on from the next position

  /** The puzzle state of airplane.py: the bridges with their live fields, and the islands. */
  class Board {
    const bridges: seq<Bridge>
    const islands: map<Cell, Island>
    /** The islands in the dictionary's iteration order. */
    const keys: seq<Cell>
    /** The live plank range of every bridge, by id. */
    var bounds: seq<Bounds>
    /** The planks placed on every bridge, by id. */
    var planks: seq<int>
    /** The `done` flag of every bridge, by id: set by placing, cleared by removing. */
    var done: seq<bool>

    ghost predicate Valid()
      reads this, islands.Values
    {
      Wired(bridges, islands, keys)
      && |bounds| == |bridges| && |planks| == |bridges| && |done| == |bridges|
    }

    /** A placed bridge holds its plank count as a one-value range; an unplaced one holds no planks. */
    ghost predicate Coherent()
      reads this
      requires |planks| == |bounds| && |done| == |bounds|
    {
      forall i :: 0 <= i < |bounds| ==>
        (done[i] ==> bounds[i] == Bounds(planks[i], planks[i])) && (!done[i] ==> planks[i] == 0)
    }

    /** Bridges start with their own ranges, no planks and the flag cleared. */
    constructor (bridges: seq<Bridge>, islands: map<Cell, Island>, keys: seq<Cell>)
      requires Wired(bridges, islands, keys)
      ensures this.bridges == bridges && this.islands == islands && this.keys == keys
      ensures |bounds| == |bridges| && forall i :: 0 <= i < |bridges| ==> bounds[i] == bridges[i].bounds
      ensures planks == seq(|bridges|, i => 0) && done == seq(|bridges|, i => false)
      ensures Valid() && Coherent()
    {
      this.bridges := bridges;
      this.islands := islands;
      this.keys := keys;
      bounds := seq(|bridges|, i requires 0 <= i < |bridges| => bridges[i].bounds);
      planks := seq(|bridges|, i => 0);
      done := seq(|bridges|, i => false);
    }

    /** The most planks bridge i may carry: 3, and neither end island's number. */
    ghost function Cap(i: nat): int
      reads islands.Values
      requires Wired(bridges, islands, keys) && i < |bridges|
    {
      Min(Min(3, islands[bridges[i].start].number), islands[bridges[i].end].number)
    }

    /**
     * A solution with 0 to 3 planks on every bridge fits under every cap, so
     * set_max_values loses no such solution.
     */
    lemma CapHoldsSolutions(x: seq<int>, i: nat)
      requires Wired(bridges, islands, keys) && Incidence(bridges, islands) && i < |bridges|
      requires Solves(|bridges|, islands, x) && forall j :: 0 <= j < |x| ==> 0 <= x[j] <= 3
      ensures x[i] <= Cap(i)
    {
      SolutionCapped(bridges, islands, keys, x, i);
    }

    /** set_max_values: every bridge's maximum becomes its cap; the minima stay. */
    method SetMaxValues()
      requires Valid()
      modifies this`bounds
      ensures Valid()
      ensures |bounds| == |old(bounds)|
      ensures forall i :: 0 <= i < |bounds| ==> bounds[i] == Bounds(old(bounds)[i].minimum, Cap(i))
    {
      for i := 0 to |bridges|
        invariant |bounds| == |bridges|
        invariant forall j :: 0 <= j < i ==> bounds[j] == Bounds(old(bounds)[j].minimum, Cap(j))
        invariant forall j :: i <= j < |bounds| ==> bounds[j] == old(bounds)[j]
      {
        var start, end := islands[bridges[i].start], islands[bridges[i].end];
        bounds := bounds[i := Bounds(bounds[i].minimum, Min(Min(3, start.number), end.number))];
      }
    }

    /** The closing loop of both checks: no bridge's range is empty. */
    method AllOrdered() returns (ok: bool)
      requires Valid()
      ensures ok <==> Ordered(bounds)
    {
      for i := 0 to |bridges|
        invariant forall j :: 0 <= j < i ==> bounds[j].minimum <= bounds[j].maximum
      {
        if bounds[i].maximum < bounds[i].minimum {
          return false;
        }
      }
      return true;
    }

    /**
     * forward_check_bridge: its pass computes new bounds that it never stores, so all
     * it does is report whether every range is non-empty.
     */
    method ForwardCheckBridge(current: nat) returns (ok: bool)
      requires Valid() && current < |bridges|
      ensures ok <==> Ordered(bounds)
      ensures !ok ==> forall x :: Solves(|bridges|, islands, x) ==> !Within(x, bounds)
    {
      ok := AllOrdered();
      if !ok {
        CrossedHoldsNothing(|bridges|, islands, bounds, bounds);
      }
    }

    /**
     * One step of the minimum pass: unless the bridge is decided, raise the minimum of
     * the k-th bridge of the island at c to what the others cannot carry at their
     * maxima, and report whether that emptied its range.
     */
    method RaiseBridge(c: Cell, k: nat) returns (changed: bool, crossed: bool)
      requires Valid() && c in islands && k < |islands[c].bridges|
      modifies this`bounds
      ensures Valid() && Narrowed(old(bounds), bounds) && KeepsSolutions(|bridges|, islands, old(bounds), bounds)
      ensures forall i :: 0 <= i < |bounds| ==> bounds[i].maximum == old(bounds)[i].maximum
      ensures forall i :: 0 <= i < |bounds| && old(bounds)[i].Done() ==> bounds[i] == old(bounds)[i]
      ensures crossed ==> !Ordered(bounds)
      ensures !changed ==> bounds == old(bounds)
      ensures !changed ==> bounds[islands[c].bridges[k]].Done() || MinimumSettled(islands, bounds, c, k)
    {
      var island := islands[c];
      var id := island.bridges[k];
      if bounds[id].maximum == bounds[id].minimum {
        return false, false;
      }
      // What the other bridges of the island can carry at most
      var maxSum := Total(bounds, island.bridges, id, true);
      var diff := island.number - maxSum;
      changed := diff > bounds[id].minimum;
      forall x | Solves(|bridges|, islands, x) && Within(x, bounds)
        ensures x[id] >= diff
      {
        SolutionBounds(islands, x, bounds, c, k);
      }
      bounds := bounds[id := Bounds(Max(bounds[id].minimum, diff), bounds[id].maximum)];
      crossed := bounds[id].maximum < bounds[id].minimum;
    }

    /** The minimum pass over the bridges of the island at c, up to the first empty range. */
    method RaiseIsland(c: Cell) returns (changed: bool, crossed: bool)
      requires Valid() && c in islands
      modifies this`bounds
      ensures Valid() && Narrowed(old(bounds), bounds) && KeepsSolutions(|bridges|, islands, old(bounds), bounds)
      ensures forall i :: 0 <= i < |bounds| ==> bounds[i].maximum == old(bounds)[i].maximum
      ensures forall i :: 0 <= i < |bounds| && old(bounds)[i].Done() ==> bounds[i] == old(bounds)[i]
      ensures crossed ==> !Ordered(bounds)
      ensures !changed ==> bounds == old(bounds)
      ensures !changed && !crossed ==> forall k :: 0 <= k < |islands[c].bridges| ==>
        bounds[islands[c].bridges[k]].Done() || MinimumSettled(islands, bounds, c, k)
    {
      changed, crossed := false, false;
      for k := 0 to |islands[c].bridges|
        invariant Valid() && Narrowed(old(bounds), bounds) && KeepsSolutions(|bridges|, islands, old(bounds), bounds)
        invariant forall i :: 0 <= i < |bounds| ==> bounds[i].maximum == old(bounds)[i].maximum
        invariant forall i :: 0 <= i < |bounds| && old(bounds)[i].Done() ==> bounds[i] == old(bounds)[i]
        invariant !changed ==> bounds == old(bounds)
        invariant !changed ==> forall kk :: 0 <= kk < k ==>
          old(bounds)[islands[c].bridges[kk]].Done() || MinimumSettled(islands, old(bounds), c, kk)
      {
        var step, stop := RaiseBridge(c, k);
        changed := changed || step;
        if stop {
          crossed := true;
          return;
        }
      }
    }

    /**
     * The minimum pass of initial_forward_check over every island, up to the first
     * empty range.
     */
    method RaiseMinimums() returns (changed: bool, crossed: bool)
      requires Valid()
      modifies this`bounds
      ensures Valid() && Narrowed(old(bounds), bounds) && KeepsSolutions(|bridges|, islands, old(bounds), bounds)
      ensures forall i :: 0 <= i < |bounds| ==> bounds[i].maximum == old(bounds)[i].maximum
      ensures forall i :: 0 <= i < |bounds| && old(bounds)[i].Done() ==> bounds[i] == old(bounds)[i]
      ensures crossed ==> !Ordered(bounds)
      ensures !changed ==> bounds == old(bounds)
      ensures !changed && !crossed ==> forall c, k :: c in islands && 0 <= k < |islands[c].bridges| ==>
        bounds[islands[c].bridges[k]].Done() || MinimumSettled(islands, bounds, c, k)
    {
      changed, crossed := false, false;
      for ci := 0 to |keys|
        invariant Valid() && Narrowed(old(bounds), bounds) && KeepsSolutions(|bridges|, islands, old(bounds), bounds)
        invariant forall i :: 0 <= i < |bounds| ==> bounds[i].maximum == old(bounds)[i].maximum
        invariant forall i :: 0 <= i < |bounds| && old(bounds)[i].Done() ==> bounds[i] == old(bounds)[i]
        invariant !changed ==> bounds == old(bounds)
        invariant !changed ==> forall j, k :: 0 <= j < ci && 0 <= k < |islands[keys[j]].bridges| ==>
          old(bounds)[islands[keys[j]].bridges[k]].Done() || MinimumSettled(islands, old(bounds), keys[j], k)
      {
        var step, stop := RaiseIsland(keys[ci]);
        changed := changed || step;
        if stop {
          crossed := true;
          return;
        }
      }
      if !changed {
        forall c, k | c in islands && 0 <= k < |islands[c].bridges|
          ensures bounds[islands[c].bridges[k]].Done() || MinimumSettled(islands, bounds, c, k)
        {
          var j :| 0 <= j < |keys| && keys[j] == c;
        }
      }
    }

    /**
     * One step of the maximum pass: unless the bridge is decided, lower the maximum of
     * the k-th bridge of the island at c to what the others leave over at their
     * minima, and report whether that emptied its range.
     */
    method LowerBridge(c: Cell, k: nat) returns (changed: bool, crossed: bool)
      requires Valid() && c in islands && k < |islands[c].bridges|
      modifies this`bounds
      ensures Valid() && Narrowed(old(bounds), bounds) && KeepsSolutions(|bridges|, islands, old(bounds), bounds)
      ensures forall i :: 0 <= i < |bounds| ==> bounds[i].minimum == old(bounds)[i].minimum
      ensures forall i :: 0 <= i < |bounds| && old(bounds)[i].Done() ==> bounds[i] == old(bounds)[i]
      ensures crossed ==> !Ordered(bounds)
      ensures !changed ==> bounds == old(bounds)
      ensures !changed ==> bounds[islands[c].bridges[k]].Done() || MaximumSettled(islands, bounds, c, k)
    {
      var island := islands[c];
      var id := island.bridges[k];
      if bounds[id].maximum == bounds[id].minimum {
        return false, false;
      }
      // What the other bridges of the island carry at least
      var minSum := Total(bounds, island.bridges, id, false);
      var diff := island.number - minSum;
      changed := diff < bounds[id].maximum;
      forall x | Solves(|bridges|, islands, x) && Within(x, bounds)
        ensures x[id] <= diff
      {
        SolutionBounds(islands, x, bounds, c, k);
      }
      bounds := bounds[id := Bounds(bounds[id].minimum, Min(bounds[id].maximum, diff))];
      crossed := bounds[id].maximum < bounds[id].minimum;
    }

    /** The maximum pass over the bridges of the island at c, up to the first empty range. */
    method LowerIsland(c: Cell) returns (changed: bool, crossed: bool)
      requires Valid() && c in islands
      modifies this`bounds
      ensures Valid() && Narrowed(old(bounds), bounds) && KeepsSolutions(|bridges|, islands, old(bounds), bounds)
      ensures forall i :: 0 <= i < |bounds| ==> bounds[i].minimum == old(bounds)[i].minimum
      ensures forall i :: 0 <= i < |bounds| && old(bounds)[i].Done() ==> bounds[i] == old(bounds)[i]
      ensures crossed ==> !Ordered(bounds)
      ensures !changed ==> bounds == old(bounds)
      ensures !changed && !crossed ==> forall k :: 0 <= k < |islands[c].bridges| ==>
        bounds[islands[c].bridges[k]].Done() || MaximumSettled(islands, bounds, c, k)
    {
      changed, crossed := false, false;
      for k := 0 to |islands[c].bridges|
        invariant Valid() && Narrowed(old(bounds), bounds) && KeepsSolutions(|bridges|, islands, old(bounds), bounds)
        invariant forall i :: 0 <= i < |bounds| ==> bounds[i].minimum == old(bounds)[i].minimum
        invariant forall i :: 0 <= i < |bounds| && old(bounds)[i].Done() ==> bounds[i] == old(bounds)[i]
        invariant !changed ==> bounds == old(bounds)
        invariant !changed ==> forall kk :: 0 <= kk < k ==>
          old(bounds)[islands[c].bridges[kk]].Done() || MaximumSettled(islands, old(bounds), c, kk)
      {
        var step, stop := LowerBridge(c, k);
        changed := changed || step;
        if stop {
          crossed := true;
          return;
        }
      }
    }

    /**
     * The maximum pass of initial_forward_check over every island, up to the first
     * empty range.
     */
    method LowerMaximums() returns (changed: bool, crossed: bool)
      requires Valid()
      modifies this`bounds
      ensures Valid() && Narrowed(old(bounds), bounds) && KeepsSolutions(|bridges|, islands, old(bounds), bounds)
      ensures forall i :: 0 <= i < |bounds| ==> bounds[i].minimum == old(bounds)[i].minimum
      ensures forall i :: 0 <= i < |bounds| && old(bounds)[i].Done() ==> bounds[i] == old(bounds)[i]
      ensures crossed ==> !Ordered(bounds)
      ensures !changed ==> bounds == old(bounds)
      ensures !changed && !crossed ==> forall c, k :: c in islands && 0 <= k < |islands[c].bridges| ==>
        bounds[islands[c].bridges[k]].Done() || MaximumSettled(islands, bounds, c, k)
    {
      changed, crossed := false, false;
      for ci := 0 to |keys|
        invariant Valid() && Narrowed(old(bounds), bounds) && KeepsSolutions(|bridges|, islands, old(bounds), bounds)
        invariant forall i :: 0 <= i < |bounds| ==> bounds[i].minimum == old(bounds)[i].minimum
        invariant forall i :: 0 <= i < |bounds| && old(bounds)[i].Done() ==> bounds[i] == old(bounds)[i]
        invariant !changed ==> bounds == old(bounds)
        invariant !changed ==> forall j, k :: 0 <= j < ci && 0 <= k < |islands[keys[j]].bridges| ==>
          old(bounds)[islands[keys[j]].bridges[k]].Done() || MaximumSettled(islands, old(bounds), keys[j], k)
      {
        var step, stop := LowerIsland(keys[ci]);
        changed := changed || step;
        if stop {
          crossed := true;
          return;
        }
      }
      if !changed {
        forall c, k | c in islands && 0 <= k < |islands[c].bridges|
          ensures bounds[islands[c].bridges[k]].Done() || MaximumSettled(islands, bounds, c, k)
        {
          var j :| 0 <= j < |keys| && keys[j] == c;
        }
      }
    }

    /** A fixpoint of the passes: every bridge of every island is decided or settled both ways. */
    ghost predicate Settled(bs: seq<Bounds>)
      reads islands.Values
      requires Wired(bridges, islands, keys) && |bs| == |bridges|
    {
      forall c, k :: c in islands && 0 <= k < |islands[c].bridges| ==>
        bs[islands[c].bridges[k]].Done()
        || (MinimumSettled(islands, bs, c, k) && MaximumSettled(islands, bs, c, k))
    }

    /**
     * initial_forward_check: repeat both passes while `loop` is set and a pass narrowed
     * a range (at most `fuel` passes), stopping with false at the first empty range.
     * Decided bridges are left alone, ranges only narrow, and no solution inside the
     * old ranges is lost. The result is true exactly when no range is empty; without
     * `loop` exactly one pass runs; a converged loop leaves a fixpoint.
     */
    method InitialForwardCheck(loop: bool, fuel: nat) returns (ok: bool, passes: nat)
      requires Valid()
      modifies this`bounds
      ensures Valid() && Narrowed(old(bounds), bounds) && KeepsSolutions(|bridges|, islands, old(bounds), bounds)
      ensures forall i :: 0 <= i < |bounds| && old(bounds)[i].Done() ==> bounds[i] == old(bounds)[i]
      ensures ok <==> Ordered(bounds)
      ensures passes <= fuel && (!loop ==> passes == Min(fuel, 1))
      ensures ok && loop && passes < fuel ==> Settled(bounds)
      ensures !ok ==> forall x :: Solves(|bridges|, islands, x) ==> !Within(x, old(bounds))
    {
      var changes := true;
      passes := 0;
      while changes && passes < fuel
        invariant Valid() && Narrowed(old(bounds), bounds) && KeepsSolutions(|bridges|, islands, old(bounds), bounds)
        invariant forall i :: 0 <= i < |bounds| && old(bounds)[i].Done() ==> bounds[i] == old(bounds)[i]
        invariant passes <= fuel
        invariant !loop ==> passes <= 1 && (changes <==> passes == 0)
        invariant loop && !changes ==> Settled(bounds)
        decreases fuel - passes
      {
        passes := passes + 1;
        var raised, crossed := RaiseMinimums();
        if crossed {
          CrossedHoldsNothing(|bridges|, islands, old(bounds), bounds);
          return false, passes;
        }
        var lowered, crossedAgain := LowerMaximums();
        if crossedAgain {
          CrossedHoldsNothing(|bridges|, islands, old(bounds), bounds);
          return false, passes;
        }
        changes := loop && (raised || lowered);
      }
      ok := AllOrdered();
      if !ok {
        CrossedHoldsNothing(|bridges|, islands, old(bounds), bounds);
      }
    }

    /** place_bridge: the bridge carries `value` planks, as a one-value range, and is flagged done. */
    method PlaceBridge(id: nat, value: int)
      requires Valid() && id < |bridges|
      modifies this`bounds, this`planks, this`done
      ensures Valid()
      ensures bounds == old(bounds)[id := Bounds(value, value)]
      ensures planks == old(planks)[id := value]
      ensures done == old(done)[id := true]
    {
      planks := planks[id := value];
      bounds := bounds[id := Bounds(value, value)];
      done := done[id := true];
    }

    /** remove_bridge: the bridge carries no planks, gets [prevMin, prevMax] back, and is not done. */
    method RemoveBridge(id: nat, prevMax: int, prevMin: int)
      requires Valid() && id < |bridges|
      modifies this`bounds, this`planks, this`done
      ensures Valid()
      ensures bounds == old(bounds)[id := Bounds(prevMin, prevMax)]
      ensures planks == old(planks)[id := 0]
      ensures done == old(done)[id := false]
    {
      planks := planks[id := 0];
      bounds := bounds[id := Bounds(prevMin, prevMax)];
      done := done[id := false];
    }

    /** get_current_min_max_state: a snapshot of every bridge's range. */
    method GetCurrentMinMaxState() returns (mapping: seq<Bounds>)
      requires Valid()
      ensures mapping == bounds
    {
      mapping := [];
      for i := 0 to |bridges|
        invariant mapping == bounds[..i]
      {
        mapping := mapping + [Bounds(bounds[i].minimum, bounds[i].maximum)];
      }
    }

    /**
     * restore_min_max_state: every bridge gets its range from the snapshot back; the
     * plank counts and the flags stay as they are.
     */
    method RestoreMinMaxState(mapping: seq<Bounds>)
      requires Valid() && |mapping| == |bridges|
      modifies this`bounds
      ensures Valid() && bounds == mapping
    {
      for i := 0 to |bridges|
        invariant |bounds| == |bridges|
        invariant bounds[..i] == mapping[..i]
      {
        bounds := bounds[i := Bounds(mapping[i].minimum, mapping[i].maximum)];
        assert bounds[..i + 1] == mapping[..i + 1];
      }
      assert bounds == bounds[..|bridges|];
    }

    /**
     * find_connectedness: the bridges with no planks that are not done, in id order,
     * each with its score, which counts the bridge itself at both of its islands.
     */
    method FindConnectedness() returns (ids: seq<nat>, scores: seq<int>)
      requires Valid() && Incidence(bridges, islands)
      ensures |scores| == |ids|
      ensures forall j: nat :: j in ids <==> j < |bridges| && planks[j] == 0 && !done[j]
      ensures forall p, q :: 0 <= p < q < |ids| ==> ids[p] < ids[q]
      ensures forall k :: 0 <= k < |ids| ==>
        ids[k] < |bridges| && scores[k] == Score(bridges, islands, ids[k]) && scores[k] >= 2
    {
      ids, scores := [], [];
      for i := 0 to |bridges|
        invariant |scores| == |ids|
        invariant forall j: nat :: j in ids <==> j < i && planks[j] == 0 && !done[j]
        invariant forall p, q :: 0 <= p < q < |ids| ==> ids[p] < ids[q]
        invariant forall k :: 0 <= k < |ids| ==>
          ids[k] < i && scores[k] == Score(bridges, islands, ids[k]) && scores[k] >= 2
      {
        if planks[i] == 0 && !done[i] {
          var score := 0;
          var bridge := bridges[i];
          if bridge.start in islands {
            score := score + |islands[bridge.start].bridges|;
          }
          if bridge.end in islands {
            score := score + |islands[bridge.end].bridges|;
          }
          assert i in islands[bridge.start].bridges && i in islands[bridge.end].bridges;
          ids, scores := ids + [i], scores + [score];
        }
      }
    }

    /**
     * The order main hands to backtrack: the entries of find_connectedness sorted by
     * score, that is every bridge with no planks that is not done, once, by ascending
     * score.
     */
    method BridgeOrder() returns (order: seq<nat>)
      requires Valid() && Incidence(bridges, islands)
      ensures Distinct(order)
      ensures forall i: nat :: i in order <==> i < |bridges| && planks[i] == 0 && !done[i]
      ensures forall p, q :: 0 <= p < q < |order| ==>
        order[p] < |bridges| && order[q] < |bridges|
        && Score(bridges, islands, order[p]) <= Score(bridges, islands, order[q])
        && (Score(bridges, islands, order[p]) == Score(bridges, islands, order[q]) ==> order[p] < order[q])
    {
      var ids, scores := FindConnectedness();
      var perm;
      order, perm := SortByScore(ids, scores);
      forall p, q | 0 <= p < q < |order|
        ensures Score(bridges, islands, order[p]) <= Score(bridges, islands, order[q])
        ensures Score(bridges, islands, order[p]) == Score(bridges, islands, order[q]) ==> order[p] < order[q]
      {
        assert order[p] == ids[perm[p]] && order[q] == ids[perm[q]];
      }
    }

    /**
     * The first loop of backtrack: every bridge the current bridge crosses is placed
     * at 0 planks, and each remembers the current bridge's range, not its own.
     */
    method ZeroCrossings(cur: nat) returns (prevValues: map<nat, Bounds>)
      requires Valid() && cur < |bridges|
      modifies this`bounds, this`planks, this`done
      ensures Valid()
      ensures forall j :: 0 <= j < |bridges| && j !in bridges[cur].crossings ==>
        bounds[j] == old(bounds)[j] && planks[j] == old(planks)[j] && done[j] == old(done)[j]
      ensures forall j :: j in bridges[cur].crossings ==> bounds[j] == Bounds(0, 0) && planks[j] == 0 && done[j]
      ensures forall j :: j in prevValues <==> j in bridges[cur].crossings
      ensures forall j :: j in prevValues ==> prevValues[j] == old(bounds)[cur]
    {
      var crossings := bridges[cur].crossings;
      prevValues := map[];
      for k := 0 to |crossings|
        invariant Valid()
        invariant forall j :: 0 <= j < |bridges| && j !in crossings[..k] ==>
          bounds[j] == old(bounds)[j] && planks[j] == old(planks)[j] && done[j] == old(done)[j]
        invariant forall j :: j in crossings[..k] ==> bounds[j] == Bounds(0, 0) && planks[j] == 0 && done[j]
        invariant forall j :: j in prevValues <==> j in crossings[..k]
        invariant forall j :: j in prevValues ==> prevValues[j] == old(bounds)[cur]
      {
        var crossed := crossings[k];
        assert crossings[..k + 1] == crossings[..k] + [crossed];
        prevValues := prevValues[crossed := Bounds(bounds[cur].minimum, bounds[cur].maximum)];
        PlaceBridge(crossed, 0);
      }
      assert crossings[..|crossings|] == crossings;
    }

    /**
     * The restoring loop of backtrack: every bridge the current bridge crosses is
     * removed, with the range remembered for it.
     */
    method RestoreCrossings(cur: nat, prevValues: map<nat, Bounds>)
      requires Valid() && cur < |bridges|
      requires forall j :: j in bridges[cur].crossings ==> j in prevValues
      modifies this`bounds, this`planks, this`done
      ensures Valid()
      ensures forall j :: 0 <= j < |bridges| && j !in bridges[cur].crossings ==>
        bounds[j] == old(bounds)[j] && planks[j] == old(planks)[j] && done[j] == old(done)[j]
      ensures forall j :: j in bridges[cur].crossings ==> bounds[j] == prevValues[j] && planks[j] == 0 && !done[j]
    {
      var crossings := bridges[cur].crossings;
      for k := 0 to |crossings|
        invariant Valid()
        invariant forall j :: 0 <= j < |bridges| && j !in crossings[..k] ==>
          bounds[j] == old(bounds)[j] && planks[j] == old(planks)[j] && done[j] == old(done)[j]
        invariant forall j :: j in crossings[..k] ==> bounds[j] == prevValues[j] && planks[j] == 0 && !done[j]
      {
        var crossed := crossings[k];
        assert crossings[..k + 1] == crossings[..k] + [crossed];
        var prev := prevValues[crossed];
        RemoveBridge(crossed, prev.maximum, prev.minimum);
      }
      assert crossings[..|crossings|] == crossings;
    }

    /**
     * Compared with b0, p0 and d0, every bridge the search from position idx of `order`
     * does not visit or cross has the same plank count and flag, and a range that only
     * narrowed: propagation during the search narrows ranges everywhere and nothing
     * widens them again.
     */
    ghost predicate Outside(order: seq<nat>, idx: nat, b0: seq<Bounds>, p0: seq<int>, d0: seq<bool>)
      reads this
      requires forall k :: 0 <= k < |order| ==> order[k] < |bridges|
      requires |bounds| == |bridges| && |planks| == |bridges| && |done| == |bridges|
      requires |b0| == |bridges| && |p0| == |bridges| && |d0| == |bridges|
    {
      forall j :: 0 <= j < |bridges| && !Touches(bridges, order, idx, j) ==>
        && planks[j] == p0[j] && done[j] == d0[j]
        && b0[j].minimum <= bounds[j].minimum && bounds[j].maximum <= b0[j].maximum
    }

    /** The number of end islands of bridge id that are done under bs. */
    ghost function DoneEnds(bs: seq<Bounds>, id: nat): int
      reads islands.Values
      requires Wired(bridges, islands, keys) && |bs| == |bridges| && id < |bridges|
    {
      (if islands[bridges[id].start].IsDone(bs) then 1 else 0)
      + (if islands[bridges[id].end].IsDone(bs) then 1 else 0)
    }

    /**
     * One pass of the plank loop of backtrack: place `value` planks on the current
     * bridge, snapshot the ranges and propagate. If propagation fails the ranges go
     * back to the snapshot. Otherwise the counter loses the end islands that are done,
     * the search succeeds if that uses it up, stops at an overfilled end island, and
     * else goes on from the next position.
     */
    method TryValue(idx: nat, order: seq<nat>, remaining: int, value: int, fuel: nat)
      returns (r: Attempt, ghost after: seq<Bounds>)
      requires Valid() && Coherent()
      requires idx < |order| && forall k :: 0 <= k < |order| ==> order[k] < |bridges|
      modifies this`bounds, this`planks, this`done
      decreases |order| - idx, 1
      ensures Valid() && Coherent()
      ensures Outside(order, idx, old(bounds), old(planks), old(done))
      ensures r == Infeasible ==>
        && bounds == old(bounds)[order[idx] := Bounds(value, value)]
        && planks == old(planks)[order[idx] := value]
        && done == old(done)[order[idx] := true]
      ensures r == Counted || r == Overfilled ==>
        && planks == old(planks)[order[idx] := value]
        && done == old(done)[order[idx] := true]
        && Ordered(bounds)
      ensures r == Counted ==> remaining - DoneEnds(bounds, order[idx]) == 0
      ensures r == Overfilled ==>
        && remaining - DoneEnds(bounds, order[idx]) != 0
        && (islands[bridges[order[idx]].start].IsOver(bounds) || islands[bridges[order[idx]].end].IsOver(bounds))
      ensures r == Infeasible ==>
        forall x :: Solves(|bridges|, islands, x) ==> !Within(x, old(bounds)[order[idx] := Bounds(value, value)])
      ensures r != Infeasible ==>
        && |after| == |bridges| && Ordered(after) && after[order[idx]] == Bounds(value, value)
        && Narrowed(old(bounds)[order[idx] := Bounds(value, value)], after)
        && KeepsSolutions(|bridges|, islands, old(bounds)[order[idx] := Bounds(value, value)], after)
        && (remaining - DoneEnds(after, order[idx]) == 0 ==> r == Counted)
        && (remaining - DoneEnds(after, order[idx]) != 0
            && (islands[bridges[order[idx]].start].IsOver(after) || islands[bridges[order[idx]].end].IsOver(after))
            ==> r == Overfilled)
    {
      var cur := order[idx];
      var startIsland, endIsland := islands[bridges[cur].start], islands[bridges[cur].end];
      PlaceBridge(cur, value);
      var state := GetCurrentMinMaxState();
      var check, passes := InitialForwardCheck(true, fuel);
      after := bounds;
      if !check {
        RestoreMinMaxState(state);
        return Infeasible, after;
      }
      r := Advance(idx, order, remaining, fuel);
    }

    /**
     * The rest of a pass of the plank loop once propagation has succeeded: count the
     * end islands that are done, stop on a used-up counter or an overfilled end island,
     * and else search on from the next position.
     */
    method Advance(idx: nat, order: seq<nat>, remaining: int, fuel: nat) returns (r: Attempt)
      requires Valid() && Coherent() && Ordered(bounds)
      requires idx < |order| && forall k :: 0 <= k < |order| ==> order[k] < |bridges|
      modifies this`bounds, this`planks, this`done
      decreases |order| - idx, 0
      ensures Valid() && Coherent() && r != Infeasible
      ensures Outside(order, idx + 1, old(bounds), old(planks), old(done))
      ensures r == Counted || r == Overfilled ==> bounds == old(bounds) && planks == old(planks) && done == old(done)
      ensures r == Counted ==> remaining - DoneEnds(bounds, order[idx]) == 0
      ensures r == Overfilled ==>
        && remaining - DoneEnds(bounds, order[idx]) != 0
        && (islands[bridges[order[idx]].start].IsOver(bounds) || islands[bridges[order[idx]].end].IsOver(bounds))
      ensures remaining - DoneEnds(old(bounds), order[idx]) == 0 ==> r == Counted
      ensures remaining - DoneEnds(old(bounds), order[idx]) != 0
        && (islands[bridges[order[idx]].start].IsOver(old(bounds)) || islands[bridges[order[idx]].end].IsOver(old(bounds)))
        ==> r == Overfilled
    {
      var cur := order[idx];
      var startIsland, endIsland := islands[bridges[cur].start], islands[bridges[cur].end];
      // Recount the two end islands: each that became satisfied lowers the counter
      var newRemaining := remaining;
      var startDone := startIsland.Done(bounds);
      if startDone {
        newRemaining := newRemaining - 1;
      }
      var endDone := endIsland.Done(bounds);
      if endDone {
        newRemaining := newRemaining - 1;
      }
      if newRemaining == 0 {
        return Counted;
      }
      var over := startIsland.Over(bounds);
      if !over {
        over := endIsland.Over(bounds);
      }
      if over {
        return Overfilled;
      }
      var found := Backtrack(idx + 1, newRemaining, order, fuel);
      r := Searched(found);
    }

    /**
     * The plank loop of backtrack: try startPlanks, startPlanks - 1, ... down to just
     * above endPlanks on the current bridge, until one of them succeeds.
     */
    method TryPlanks(idx: nat, order: seq<nat>, remaining: int, startPlanks: int, endPlanks: int, fuel: nat)
      returns (found: bool)
      requires Valid() && Coherent()
      requires idx < |order| && forall k :: 0 <= k < |order| ==> order[k] < |bridges|
      modifies this`bounds, this`planks, this`done
      decreases |order| - idx, 2
      ensures Valid() && Coherent()
      ensures Outside(order, idx, old(bounds), old(planks), old(done))
    {
      var value := startPlanks;
      while value > endPlanks
        invariant Valid() && Coherent()
        invariant Outside(order, idx, old(bounds), old(planks), old(done))
        decreases value - endPlanks
      {
        var r, after := TryValue(idx, order, remaining, value, fuel);
        if r == Counted || r == Searched(true) {
          return true;
        }
        value := value - 1;
      }
      found := false;
    }

    /**
     * backtrack, with the counter of islands not yet done passed by value. A search
     * with the counter at 0 succeeds and one with no bridge left fails, both without
     * changing anything; otherwise only the bridges still to visit and the bridges they
     * cross change, and on failure an undone current bridge is back to its range, with
     * no planks and not done.
     */
    method Backtrack(idx: nat, remaining: int, order: seq<nat>, fuel: nat) returns (found: bool)
      requires Valid() && Coherent()
      requires idx <= |order| && forall k :: 0 <= k < |order| ==> order[k] < |bridges|
      modifies this`bounds, this`planks, this`done
      decreases |order| - idx, 4
      ensures Valid() && Coherent()
      ensures remaining == 0 ==> found && bounds == old(bounds) && planks == old(planks) && done == old(done)
      ensures remaining != 0 && idx == |order| ==>
        !found && bounds == old(bounds) && planks == old(planks) && done == old(done)
      ensures Outside(order, idx, old(bounds), old(planks), old(done))
      ensures !found && idx < |order| && !old(done)[order[idx]] ==>
        && bounds[order[idx]] == old(bounds)[order[idx]]
        && planks[order[idx]] == old(planks)[order[idx]] == 0
        && !done[order[idx]]
    {
      // Every island satisfied: the search succeeds
      if remaining == 0 {
        return true;
      }
      // The order is exhausted with islands still unsatisfied
      if idx == |order| {
        return false;
      }
      // A bridge flagged done keeps its planks; move on to the next position
      if done[order[idx]] {
        found := Backtrack(idx + 1, remaining, order, fuel);
        return;
      }
      found := Branch(idx, remaining, order, fuel);
    }

    /**
     * The branching part of backtrack for a bridge that is not done: zero the bridges
     * it crosses, try its plank counts from the largest down, remove the crossed
     * bridges again, and finally try it at 0 planks. On failure the current bridge
     * gets its range back and is not done.
     */
    method Branch(idx: nat, remaining: int, order: seq<nat>, fuel: nat) returns (found: bool)
      requires Valid() && Coherent()
      requires idx < |order| && forall k :: 0 <= k < |order| ==> order[k] < |bridges|
      modifies this`bounds, this`planks, this`done
      decreases |order| - idx, 3
      ensures Valid() && Coherent()
      ensures Outside(order, idx, old(bounds), old(planks), old(done))
      ensures !found ==> bounds[order[idx]] == old(bounds)[order[idx]] && planks[order[idx]] == 0 && !done[order[idx]]
    {
      var cur := order[idx];
      var current := bridges[cur];
      var prevMax, prevMin := bounds[cur].maximum, bounds[cur].minimum;
      // The crossed bridges are pinned to zero planks while this one carries some
      var prevValues := ZeroCrossings(cur);
      var startIsland, endIsland := islands[current.start], islands[current.end];
      var startPlanks := Min(Min(3, startIsland.number), Min(endIsland.number, bounds[cur].maximum));
      var endPlanks := Max(0, bounds[cur].minimum - 1);
      found := TryPlanks(idx, order, remaining, startPlanks, endPlanks, fuel);
      if found {
        return;
      }
      // Give the crossed bridges their remembered ranges back before trying zero planks
      RestoreCrossings(cur, prevValues);
      found := SkipBridge(idx, remaining, order, fuel, prevMax, prevMin);
    }

    /**
     * The last case of backtrack: the current bridge is placed at 0 planks and the
     * search goes on from the next position; on failure the bridge is removed again
     * with the range [prevMin, prevMax].
     */
    method SkipBridge(idx: nat, remaining: int, order: seq<nat>, fuel: nat, prevMax: int, prevMin: int)
      returns (found: bool)
      requires Valid() && Coherent()
      requires idx < |order| && forall k :: 0 <= k < |order| ==> order[k] < |bridges|
      modifies this`bounds, this`planks, this`done
      decreases |order| - idx, 0
      ensures Valid() && Coherent()
      ensures Outside(order, idx, old(bounds), old(planks), old(done))
      ensures !found ==> bounds[order[idx]] == Bounds(prevMin, prevMax) && planks[order[idx]] == 0 && !done[order[idx]]
    {
      var cur := order[idx];
      PlaceBridge(cur, 0);
      found := Backtrack(idx + 1, remaining, order, fuel);
      if found {
        return;
      }
      // Undo the placement before the next plank count
      RemoveBridge(cur, prevMax, prevMin);
    }
  }

  /**
   * The pre-processing of main: wire up the puzzle, cap the maxima, propagate, and
   * order the bridges by connectedness. Nothing is placed yet, so the order lists
   * every bridge once, by ascending score.
   */
  method Preprocess(g: Grid, fuel: nat) returns (board: Board, order: seq<nat>)
    requires Rectangular(g)
    ensures fresh(board) && board.Valid() && board.Coherent() && Incidence(board.bridges, board.islands)
    ensures Built(g, board)
    ensures Distinct(order)
    ensures forall i: nat :: i in order <==> i < |board.bridges|
    ensures forall p :: 0 <= p < |order| ==> order[p] < |board.bridges|
    ensures forall p, q :: 0 <= p < q < |order| ==>
      Score(board.bridges, board.islands, order[p]) <= Score(board.bridges, board.islands, order[q])
    ensures forall p, q :: 0 <= p < q < |order| ==>
      Score(board.bridges, board.islands, order[p]) == Score(board.bridges, board.islands, order[q]) ==> order[p] < order[q]
  {
    board := Build(g, fuel);
    order := board.BridgeOrder();
    forall p | 0 <= p < |order|
      ensures order[p] < |board.bridges|
    {
      assert order[p] in order;
    }
  }

  /**
   * What the pre-processing leaves behind: one bridge per legal span of `g`, in the
   * order the scan finds them, one island per non-zero cell carrying its number,
   * nothing placed, every maximum capped, and every solution of at most three planks
   * a bridge still inside the ranges.
   */
  ghost predicate Built(g: Grid, board: Board)
    reads board, board.islands.Values
    requires Rectangular(g) && board.Valid()
  {
    && |board.bridges| == |Topology.AllSpans(g)|
    && (forall i :: 0 <= i < |board.bridges| ==>
      && board.bridges[i].start == Topology.AllSpans(g)[i].start
      && board.bridges[i].end == Topology.AllSpans(g)[i].end
      && board.bridges[i].horizontal == Topology.AllSpans(g)[i].horizontal)
    && (forall c :: c in board.islands <==> InGrid(g, c) && At(g, c) != 0)
    && (forall c :: c in board.islands ==> board.islands[c].number == At(g, c))
    && (forall i :: 0 <= i < |board.bridges| ==> board.planks[i] == 0 && !board.done[i])
    && (forall i :: 0 <= i < |board.bridges| ==>
      0 <= board.bounds[i].minimum && board.bounds[i].maximum <= board.Cap(i))
    && (forall x :: Solves(|board.bridges|, board.islands, x) && PlankCounts(x) ==> Within(x, board.bounds))
  }

  /** Wire up the puzzle and propagate: the board Preprocess orders. */
  method Build(g: Grid, fuel: nat) returns (board: Board)
    requires Rectangular(g)
    ensures fresh(board) && board.Valid() && board.Coherent() && Incidence(board.bridges, board.islands)
    ensures Built(g, board)
  {
    var bs, islands, keys := HashiBuild.Wire(g);
    var ok;
    board, ok := Propagated(bs, islands, keys, fuel);
    forall x | Solves(|bs|, islands, x) && PlankCounts(x)
      ensures Within(x, Ranges(bs))
    {
    }
  }

  /**
   * The board main builds before ordering the bridges: every maximum capped and the
   * ranges propagated, with nothing placed yet.
   */
  method Propagated(bs: seq<Bridge>, islands: map<Cell, Island>, keys: seq<Cell>, fuel: nat)
    returns (board: Board, ok: bool)
    requires Wired(bs, islands, keys) && Incidence(bs, islands)
    ensures fresh(board) && board.Valid() && board.Coherent()
    ensures board.bridges == bs && board.islands == islands && board.keys == keys
    ensures forall i :: 0 <= i < |bs| ==> board.planks[i] == 0 && !board.done[i]
    ensures forall i :: 0 <= i < |bs| ==>
      bs[i].bounds.minimum <= board.bounds[i].minimum && board.bounds[i].maximum <= board.Cap(i)
    ensures forall x :: Solves(|bs|, islands, x) && PlankCounts(x) && Within(x, Ranges(bs)) ==> Within(x, board.bounds)
    ensures ok <==> Ordered(board.bounds)
    ensures !ok ==> forall x :: Solves(|bs|, islands, x) && PlankCounts(x) ==> !Within(x, Ranges(bs))
  {
    board := new Board(bs, islands, keys);
    board.SetMaxValues();
    ghost var capped := board.bounds;
    var passes;
    ok, passes := board.InitialForwardCheck(true, fuel);
    forall x | Solves(|bs|, islands, x) && PlankCounts(x) && Within(x, Ranges(bs))
      ensures Within(x, capped)
    {
      forall i | 0 <= i < |bs|
        ensures x[i] <= board.Cap(i)
      {
        board.CapHoldsSolutions(x, i);
      }
    }
    if !ok {
      CrossedHoldsNothing(|bs|, islands, capped, board.bounds);
    }
  }

  /**
   * sorted(connectedness, key=connectedness.get) over a dictionary whose entries are
   * (ids[k], scores[k]): every id once, in ascending score, through the positions perm.
   */
  method SortByScore(ids: seq<nat>, scores: seq<int>) returns (order: seq<nat>, perm: seq<nat>)
    requires |scores| == |ids|
    requires forall p, q :: 0 <= p < q < |ids| ==> ids[p] < ids[q]
    ensures |perm| == |order|
    ensures Distinct(order) && forall x :: x in order <==> x in ids
    ensures forall p :: 0 <= p < |order| ==> perm[p] < |ids| && order[p] == ids[perm[p]]
    ensures forall p, q :: 0 <= p < q < |order| ==> scores[perm[p]] <= scores[perm[q]]
    ensures forall p, q :: 0 <= p < q < |order| && scores[perm[p]] == scores[perm[q]] ==> order[p] < order[q]
  {
    perm := Ordering.StableOrder(scores);
    forall i, j | 0 <= i < j < |perm|
      ensures perm[i] != perm[j]
    {
      assert Ordering.Ahead(scores, perm[i], perm[j]);
    }
    Ordering.ArrangeIsPermutation(ids, perm);
    order := Ordering.Arrange(ids, perm);
    forall p, q | 0 <= p < q < |order|
      ensures scores[perm[p]] <= scores[perm[q]]
      ensures scores[perm[p]] == scores[perm[q]] ==> order[p] < order[q]
    {
      assert Ordering.Ahead(scores, perm[p], perm[q]);
    }
  }
}
