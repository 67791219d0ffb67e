/** A candidate bridge of the final solver version, A1/bridge.py. */
module Bridges {
  import opened Cells

  /** A bridge's feasible plank range [minimum, maximum]. */
  datatype Bounds = Bounds(minimum: int, maximum: int) {
    /** Bridge.done(): the range holds a single value, so the bridge is decided. */
    predicate Done() {
      maximum == minimum
    }
  }

  /**
   * A bridge record: its ends, orientation, plank range, the ids of the bridges it
   * crosses and the cells it passes over.
   */
  datatype Bridge = Bridge(
    start: Cell,
    end: Cell,
    horizontal: bool,
    bounds: Bounds,
    crossings: seq<nat>,
    indices: seq<Cell>)

  /** The plank ranges of a list of bridges, by bridge id. */
  function Ranges(bs: seq<Bridge>): (r: seq<Bounds>)
    ensures |r| == |bs| && forall i :: 0 <= i < |bs| ==> r[i] == bs[i].bounds
  {
    seq(|bs|, i requires 0 <= i < |bs| => bs[i].bounds)
  }

  /** The state Bridge.__init__ leaves a bridge in. */
  predicate Initial(b: Bridge, start: Cell, end: Cell, horizontal: bool) {
    && b.start == start && b.end == end && b.horizontal == horizontal
    && b.bounds == Bounds(0, 3)
    && b.crossings == []
    && b.indices == Interior(start, end, horizontal)
  }

  /**
   * Bridge.__init__: store the ends and orientation, start from the range [0, 3] with
   * no crossings, and list the cells strictly between the ends. The id argument is not
   * stored.
   */
  method NewBridge(id: nat, start: Cell, end: Cell, horizontal: bool) returns (b: Bridge)
    ensures Initial(b, start, end, horizontal)
  {
    var indices := InteriorCells(start, end, horizontal);
    b := Bridge(start, end, horizontal, Bounds(0, 3), [], indices);
  }
}
