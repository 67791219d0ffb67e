/** An island of the earliest solver version, island.py. */
module EarlyIslands {
  /** An island: its position, its number and the bridges added to it so far. */
  class Island {
    const x: int
    const y: int
    const number: int
    var bridges: seq<nat>

    /** Island.__init__: keep the position and number, with no bridges yet. */
    constructor (x: int, y: int, number: int)
      ensures this.x == x && this.y == y && this.number == number
      ensures bridges == []
    {
      this.x := x;
      this.y := y;
      this.number := number;
      bridges := [];
    }

    /** add_bridge: append one bridge id; position and number are constants. */
    method AddBridge(bridge: nat)
      modifies this`bridges
      ensures bridges == old(bridges) + [bridge]
    {
      bridges := bridges + [bridge];
    }
  }
}
