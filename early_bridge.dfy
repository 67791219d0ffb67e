/** A candidate bridge of the earliest solver version, bridge.py. */
module EarlyBridges {
  import opened Cells

  /**
   * A bridge as bridge.py first defined it: an id, a plank count, a `marked` flag, its
   * ends and orientation, and the cells it passes over.
   */
  class Bridge {
    const id: int
    var planks: int
    var marked: bool
    const start: Cell
    const end: Cell
    const horizontal: bool
    const indices: seq<Cell>

    /**
     * Bridge.__init__: keep the id, ends and orientation, start with no planks and
     * unmarked, and list the cells strictly between the ends along the bridge's row
     * (horizontal) or column (vertical).
     */
    constructor (id: int, start: Cell, end: Cell, horizontal: bool)
      ensures this.id == id && this.start == start && this.end == end && this.horizontal == horizontal
      ensures planks == 0 && !marked
      ensures indices == Interior(start, end, horizontal)
    {
      this.id := id;
      planks := 0;
      marked := false;
      this.start := start;
      this.end := end;
      this.horizontal := horizontal;
      var cells := InteriorCells(start, end, horizontal);
      indices := cells;
    }
  }
}
