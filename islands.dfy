/** An island of the final solver version, A1/island.py. */
module Islands {
  import opened Bridges

  /** Every listed bridge id is a valid index of `bounds`. */
  predicate Listed(bounds: seq<Bounds>, ids: seq<nat>) {
    forall k :: 0 <= k < |ids| ==> ids[k] < |bounds|
  }

  /** The planks already placed on the listed bridges: `minimum` of each decided one. */
  function PlacedSum(bounds: seq<Bounds>, ids: seq<nat>): int
    requires Listed(bounds, ids)
  {
    if ids == [] then 0
    else
      var b := bounds[ids[|ids| - 1]];
      PlacedSum(bounds, ids[..|ids| - 1]) + (if b.Done() then b.minimum else 0)
  }

  /** Changing a bridge that is not listed leaves the placed sum alone. */
  lemma {:induction false} PlacedSumFrame(bounds: seq<Bounds>, ids: seq<nat>, id: nat, b: Bounds)
    requires Listed(bounds, ids) && id < |bounds| && id !in ids
    ensures PlacedSum(bounds[id := b], ids) == PlacedSum(bounds, ids)
  {
    if ids != [] {
      PlacedSumFrame(bounds, ids[..|ids| - 1], id, b);
    }
  }

  class Island {
    const x: int
    const y: int
    const number: int
    /** Ids of the bridges that end here, in the order they were added. */
    var bridges: seq<nat>

    constructor (x: int, y: int, number: int)
      ensures this.x == x && this.y == y && this.number == number
      ensures bridges == []
    {
      this.x := x;
      this.y := y;
      this.number := number;
      bridges := [];
    }

    method AddBridge(bridge: nat)
      modifies this`bridges
      ensures bridges == old(bridges) + [bridge]
    {
      bridges := bridges + [bridge];
    }

    /** The island's decided bridges carry exactly its number of planks. */
    predicate IsDone(bounds: seq<Bounds>)
      reads this
      requires Listed(bounds, bridges)
    {
      PlacedSum(bounds, bridges) == number
    }

    /** The island's decided bridges carry more planks than its number. */
    predicate IsOver(bounds: seq<Bounds>)
      reads this
      requires Listed(bounds, bridges)
    {
      PlacedSum(bounds, bridges) > number
    }

    /** Island.done: sum the decided bridges and compare with the number. */
    method Done(bounds: seq<Bounds>) returns (d: bool)
      requires Listed(bounds, bridges)
      ensures d == IsDone(bounds)
      ensures d ==> !IsOver(bounds)
    {
      var total := 0;
      for k := 0 to |bridges|
        invariant total == PlacedSum(bounds, bridges[..k])
      {
        var b := bounds[bridges[k]];
        if b.Done() {
          total := total + b.minimum;
        }
        assert bridges[..k + 1][..k] == bridges[..k];
      }
      assert bridges[..|bridges|] == bridges;
      d := total == number;
    }

    /** Island.over: the same sum, compared the other way. */
    method Over(bounds: seq<Bounds>) returns (o: bool)
      requires Listed(bounds, bridges)
      ensures o == IsOver(bounds)
      ensures o ==> !IsDone(bounds)
    {
      var total := 0;
      for k := 0 to |bridges|
        invariant total == PlacedSum(bounds, bridges[..k])
      {
        var b := bounds[bridges[k]];
        if b.Done() {
          total := total + b.minimum;
        }
        assert bridges[..k + 1][..k] == bridges[..k];
      }
      assert bridges[..|bridges|] == bridges;
      o := total > number;
    }
  }
}
