/**
 * Pre-processing of the final solver, A1/hashi.py: the islands and candidate bridges
 * of a puzzle, which bridges end at which island, which bridges cross, and which
 * bridges share an island.
 */
module HashiBuild {
  import opened Cells
  import opened Bridges
  import opened Islands
  import opened Propagation
  import Lines
  import Topology

  /** Row-major order of cells, the order in which find_islands inserts them. */
  predicate RowMajor(a: Cell, b: Cell) {
    a.0 < b.0 || (a.0 == b.0 && a.1 < b.1)
  }

  /** Different cells hold different island objects. */
  predicate Injective(islands: map<Cell, Island>) {
    forall c, d :: c in islands && d in islands && c != d ==> islands[c] != islands[d]
  }

  /** Cell c comes before column col of row r in row-major order. */
  predicate Before(c: Cell, r: int, col: int) {
    c.0 < r || (c.0 == r && c.1 < col)
  }

  /**
   * What find_islands has built once it has scanned every cell before column col of
   * row r: one island per non-zero cell, each new and empty, listed once in `keys` in
   * row-major order.
   */
  ghost predicate Scanned(g: Grid, islands: map<Cell, Island>, keys: seq<Cell>, r: int, col: int)
    requires Rectangular(g)
    reads islands.Values
  {
    && (forall c :: c in islands <==> InGrid(g, c) && Before(c, r, col) && At(g, c) != 0)
    && (forall c :: c in islands ==>
          islands[c].x == c.0 && islands[c].y == c.1 && islands[c].number == At(g, c)
          && islands[c].bridges == [])
    && Injective(islands)
    && (forall c :: c in keys <==> c in islands)
    && (forall i :: 0 <= i < |keys| ==> Before(keys[i], r, col))
    && (forall i, j :: 0 <= i < j < |keys| ==> RowMajor(keys[i], keys[j]))
  }

  /**
   * find_islands: one new island per non-zero cell, at that cell and with its number.
   * `keys` is the dictionary's iteration order, which is row-major.
   */
  method FindIslands(g: Grid) returns (islands: map<Cell, Island>, keys: seq<Cell>)
    requires Rectangular(g)
    ensures forall c :: c in islands <==> InGrid(g, c) && At(g, c) != 0
    ensures forall c :: c in islands ==>
      && fresh(islands[c])
      && islands[c].x == c.0 && islands[c].y == c.1 && islands[c].number == At(g, c)
      && islands[c].bridges == []
    ensures Injective(islands)
    ensures forall c :: c in keys <==> c in islands
    ensures forall i, j :: 0 <= i < j < |keys| ==> RowMajor(keys[i], keys[j])
  {
    islands, keys := map[], [];
    for r := 0 to |g|
      invariant Scanned(g, islands, keys, r, 0)
      invariant forall c :: c in islands ==> fresh(islands[c])
    {
      islands, keys := ScanRow(g, r, islands, keys);
    }
  }

  /** The inner loop of find_islands: the islands of row r, added in column order. */
  method ScanRow(g: Grid, r: nat, islands: map<Cell, Island>, keys: seq<Cell>)
    returns (islands': map<Cell, Island>, keys': seq<Cell>)
    requires Rectangular(g) && r < |g| && Scanned(g, islands, keys, r, 0)
    ensures Scanned(g, islands', keys', r + 1, 0)
    ensures forall c :: c in islands' ==> (c in islands && islands'[c] == islands[c]) || fresh(islands'[c])
  {
    islands', keys' := islands, keys;
    for col := 0 to Width(g)
      invariant Scanned(g, islands', keys', r, col)
      invariant forall c :: c in islands' ==> (c in islands && islands'[c] == islands[c]) || fresh(islands'[c])
    {
      if g[r][col] != 0 {
        islands', keys' := AddIsland(g, r, col, islands', keys');
      }
    }
  }

  /** One non-zero cell of find_islands: a new island at (r, col), listed after the others. */
  method AddIsland(g: Grid, r: nat, col: nat, islands: map<Cell, Island>, keys: seq<Cell>)
    returns (islands': map<Cell, Island>, keys': seq<Cell>)
    requires Rectangular(g) && r < |g| && col < Width(g) && g[r][col] != 0
    requires Scanned(g, islands, keys, r, col)
    ensures Scanned(g, islands', keys', r, col + 1)
    ensures forall c :: c in islands' ==> (c in islands && islands'[c] == islands[c]) || fresh(islands'[c])
  {
    var island := new Island(r, col, g[r][col]);
    islands' := islands[(r, col) := island];
    keys' := keys + [(r, col)];
    assert forall c :: c in islands' <==> c in islands || c == (r, col);
  }

  /** A bridge as find_bridges creates it for a span. */
  predicate BuiltFrom(b: Bridge, s: Topology.Span) {
    Initial(b, s.start, s.end, s.horizontal)
  }

  /** The bridges bs are those find_bridges creates for the spans, in order. */
  predicate BuiltAll(bs: seq<Bridge>, spans: seq<Topology.Span>) {
    |bs| == |spans| && forall i :: 0 <= i < |bs| ==> BuiltFrom(bs[i], spans[i])
  }

  /**
   * find_bridges: one new bridge per candidate span, rows first and columns second,
   * the bridge id being its position in the result.
   */
  method FindBridges(g: Grid) returns (bs: seq<Bridge>)
    requires Rectangular(g)
    ensures |bs| == |Topology.AllSpans(g)|
    ensures forall i :: 0 <= i < |bs| ==> BuiltFrom(bs[i], Topology.AllSpans(g)[i])
  {
    bs := [];
    // Rows first: the spans of every row, top to bottom
    for r := 0 to |g|
      invariant BuiltAll(bs, Topology.HorizontalSpans(g, r))
    {
      bs := BuildRow(g, r, bs);
    }
    // Then columns: the spans of every column, left to right
    for c := 0 to Width(g)
      invariant BuiltAll(bs, Topology.HorizontalSpans(g, |g|) + Topology.VerticalSpans(g, c))
    {
      ghost var h, v := Topology.HorizontalSpans(g, |g|), Topology.VerticalSpans(g, c);
      bs := BuildColumn(g, c, bs, h + v);
      assert h + Topology.VerticalSpans(g, c + 1) == (h + v) + Topology.ColumnSpans(g, c);
    }
  }

  /** One more bridge built from one more span. */
  lemma BuiltSnoc(bs: seq<Bridge>, spans: seq<Topology.Span>, b: Bridge, s: Topology.Span)
    requires BuiltAll(bs, spans) && BuiltFrom(b, s)
    ensures BuiltAll(bs + [b], spans + [s])
  {
  }

  /** Bridges built from two runs of spans, one after the other. */
  lemma BuiltAppend(bs: seq<Bridge>, spans: seq<Topology.Span>, more: seq<Bridge>, extra: seq<Topology.Span>)
    requires BuiltAll(bs, spans) && BuiltAll(more, extra)
    ensures BuiltAll(bs + more, spans + extra)
  {
  }

  /** The bridges of row r, appended after those of the rows above. */
  method BuildRow(g: Grid, r: nat, bs: seq<Bridge>) returns (bs': seq<Bridge>)
    requires r < |g| && BuiltAll(bs, Topology.HorizontalSpans(g, r))
    ensures BuiltAll(bs', Topology.HorizontalSpans(g, r + 1))
  {
    var spans := Lines.ScanLine(g[r]);
    ghost var row := Topology.RowSpans(g, r);
    var built := [];
    for k := 0 to |spans|
      invariant BuiltAll(built, row[..k])
    {
      assert row[..k + 1] == row[..k] + [row[k]];
      var b := NewBridge(|bs| + k, (r, spans[k].0), (r, spans[k].1), true);
      BuiltSnoc(built, row[..k], b, row[k]);
      built := built + [b];
    }
    assert row[..|spans|] == row;
    BuiltAppend(bs, Topology.HorizontalSpans(g, r), built, row);
    bs' := bs + built;
  }

  /** The bridges of column c, appended after those of every row and of the columns to its left. */
  method BuildColumn(g: Grid, c: nat, bs: seq<Bridge>, ghost before: seq<Topology.Span>) returns (bs': seq<Bridge>)
    requires Rectangular(g) && c < Width(g) && BuiltAll(bs, before)
    ensures BuiltAll(bs', before + Topology.ColumnSpans(g, c))
  {
    var built := ColumnBridges(g, c, |bs|);
    BuiltAppend(bs, before, built, Topology.ColumnSpans(g, c));
    bs' := bs + built;
  }

  /** The inner loop of the vertical search: the bridges of column c, with ids from `first` on. */
  method ColumnBridges(g: Grid, c: nat, first: nat) returns (built: seq<Bridge>)
    requires Rectangular(g) && c < Width(g)
    ensures BuiltAll(built, Topology.ColumnSpans(g, c))
  {
    var spans := Lines.ScanLine(Column(g, c));
    ghost var col := Topology.ColumnSpans(g, c);
    built := [];
    for k := 0 to |spans|
      invariant BuiltAll(built, col[..k])
    {
      assert col[..k + 1] == col[..k] + [col[k]];
      var b := NewBridge(first + k, (spans[k].0, c), (spans[k].1, c), false);
      BuiltSnoc(built, col[..k], b, col[k]);
      built := built + [b];
    }
    assert col[..|spans|] == col;
  }

  /**
   * The ids find_island_bridges adds to the island at `c` from bridges 0 .. n-1: a
   * bridge's id once for its start and once for its end.
   */
  function Incident(bs: seq<Bridge>, c: Cell, n: nat): seq<nat>
    requires n <= |bs|
  {
    if n == 0 then []
    else
      Incident(bs, c, n - 1) + Ends(bs[n - 1], n - 1, c)
  }

  /** An island lists exactly the bridges ending at it, in increasing id order. */
  lemma IncidentSpec(bs: seq<Bridge>, c: Cell, n: nat)
    requires n <= |bs|
    ensures forall j: nat :: j in Incident(bs, c, n) <==> j < n && (bs[j].start == c || bs[j].end == c)
    ensures forall i, j :: 0 <= i < j < |Incident(bs, c, n)| ==> Incident(bs, c, n)[i] <= Incident(bs, c, n)[j]
  {
    IncidentMembers(bs, c, n);
    IncidentSorted(bs, c, n);
  }

  /** The ids one bridge adds are its own id, once for each of its ends at `c`. */
  lemma EndsSpec(b: Bridge, id: nat, c: Cell)
    ensures forall k :: 0 <= k < |Ends(b, id, c)| ==> Ends(b, id, c)[k] == id
    ensures forall x :: x in Ends(b, id, c) <==> x == id && (b.start == c || b.end == c)
  {
  }

  lemma IncidentMembers(bs: seq<Bridge>, c: Cell, n: nat)
    requires n <= |bs|
    ensures forall j: nat :: j in Incident(bs, c, n) <==> j < n && (bs[j].start == c || bs[j].end == c)
  {
    forall j: nat
      ensures j in Incident(bs, c, n) <==> j < n && (bs[j].start == c || bs[j].end == c)
    {
      IncidentHas(bs, c, n, j);
    }
  }

  /** Bridge j is listed at c exactly when it is among the first n and ends at c. */
  lemma {:induction false} IncidentHas(bs: seq<Bridge>, c: Cell, n: nat, j: nat)
    requires n <= |bs|
    ensures j in Incident(bs, c, n) <==> j < n && (bs[j].start == c || bs[j].end == c)
  {
    if n > 0 {
      IncidentHas(bs, c, n - 1, j);
      var a, e := Incident(bs, c, n - 1), Ends(bs[n - 1], n - 1, c);
      assert Incident(bs, c, n) == a + e;
      assert j in e <==> j == n - 1 && (bs[n - 1].start == c || bs[n - 1].end == c) by {
        EndsHas(bs[n - 1], n - 1, c, j);
      }
      assert j in a + e <==> j in a || j in e;
    }
  }

  /** Ends lists `id` and nothing else, and lists it when the bridge ends at c. */
  lemma EndsHas(b: Bridge, id: nat, c: Cell, j: nat)
    ensures j in Ends(b, id, c) <==> j == id && (b.start == c || b.end == c)
  {
    if b.start == c {
      assert Ends(b, id, c)[0] == id;
    } else if b.end == c {
      assert Ends(b, id, c) == [id];
    } else {
      assert Ends(b, id, c) == [];
    }
  }

  lemma {:induction false} IncidentSorted(bs: seq<Bridge>, c: Cell, n: nat)
    requires n <= |bs|
    ensures forall k :: 0 <= k < |Incident(bs, c, n)| ==> Incident(bs, c, n)[k] < n
    ensures forall i, j :: 0 <= i < j < |Incident(bs, c, n)| ==> Incident(bs, c, n)[i] <= Incident(bs, c, n)[j]
  {
    if n > 0 {
      IncidentSorted(bs, c, n - 1);
      EndsSpec(bs[n - 1], n - 1, c);
      var a, e := Incident(bs, c, n - 1), Ends(bs[n - 1], n - 1, c);
      assert Incident(bs, c, n) == a + e;
    }
  }

  /** A bridge whose ends differ is listed once at each end. */
  lemma {:induction false} IncidentOnce(bs: seq<Bridge>, c: Cell, n: nat)
    requires n <= |bs|
    requires forall j :: 0 <= j < n ==> bs[j].start != bs[j].end
    ensures Distinct(Incident(bs, c, n))
  {
    if n > 0 {
      IncidentOnce(bs, c, n - 1);
      IncidentSorted(bs, c, n - 1);
      EndsSpec(bs[n - 1], n - 1, c);
      var a, e := Incident(bs, c, n - 1), Ends(bs[n - 1], n - 1, c);
      assert Incident(bs, c, n) == a + e;
      assert |e| <= 1;
      forall i, j | 0 <= i < j < |a + e|
        ensures (a + e)[i] != (a + e)[j]
      {
        if j < |a| {
          assert (a + e)[i] == a[i] && (a + e)[j] == a[j];
        } else {
          assert (a + e)[i] == a[i] < n - 1;
          assert (a + e)[j] == e[j - |a|] == n - 1;
        }
      }
    }
  }

  /** The ids one bridge adds to the island at `c`: once per end of the bridge at `c`. */
  function Ends(b: Bridge, id: nat, c: Cell): seq<nat> {
    (if b.start == c then [id] else []) + (if b.end == c then [id] else [])
  }

  /**
   * One step of find_island_bridges: bridge `id` is added to the islands at its two
   * ends, extending the lists built from bridges 0 .. id-1 to bridges 0 .. id.
   */
  method AddToEnds(bs: seq<Bridge>, id: nat, islands: map<Cell, Island>, ghost initial: map<Cell, seq<nat>>)
    requires id < |bs| && bs[id].start in islands && bs[id].end in islands
    requires Injective(islands)
    requires forall c :: c in islands ==> c in initial && islands[c].bridges == initial[c] + Incident(bs, c, id)
    modifies islands[bs[id].start], islands[bs[id].end]
    ensures forall c :: c in islands ==> islands[c].bridges == initial[c] + Incident(bs, c, id + 1)
  {
    var s, e := islands[bs[id].start], islands[bs[id].end];
    s.AddBridge(id);
    e.AddBridge(id);
    forall c | c in islands
      ensures islands[c].bridges == initial[c] + Incident(bs, c, id + 1)
    {
      assert c != bs[id].start ==> islands[c] != s;
      assert c != bs[id].end ==> islands[c] != e;
      assert islands[c].bridges == old(islands[c].bridges) + Ends(bs[id], id, c);
      assert Incident(bs, c, id + 1) == Incident(bs, c, id) + Ends(bs[id], id, c);
    }
  }

  /** find_island_bridges: every island gets the ids of the bridges that end at it. */
  method FindIslandBridges(bs: seq<Bridge>, islands: map<Cell, Island>)
    requires forall i :: 0 <= i < |bs| ==> bs[i].start in islands && bs[i].end in islands
    requires Injective(islands)
    modifies islands.Values
    ensures forall c :: c in islands ==> islands[c].bridges == old(islands[c].bridges) + Incident(bs, c, |bs|)
  {
    ghost var initial := map c | c in islands :: islands[c].bridges;
    for i := 0 to |bs|
      invariant forall c :: c in islands ==> c in initial && islands[c].bridges == initial[c] + Incident(bs, c, i)
    {
      AddToEnds(bs, i, islands, initial);
    }
  }

  /**
   * The ids find_bridge_crossings appends to bridge i: every other bridge among
   * 0 .. n-1 that passes over a cell bridge i also passes over, in id order.
   */
  function Crossing(bs: seq<Bridge>, i: nat, n: nat): seq<nat>
    requires i < |bs| && n <= |bs|
  {
    if n == 0 then []
    else
      Crossing(bs, i, n - 1)
      + (if n - 1 != i && Meet(bs[n - 1].indices, bs[i].indices) then [n - 1] else [])
  }

  lemma {:induction false} CrossingSpec(bs: seq<Bridge>, i: nat, n: nat)
    requires i < |bs| && n <= |bs|
    ensures forall j: nat :: j in Crossing(bs, i, n) <==> j < n && j != i && Meet(bs[j].indices, bs[i].indices)
    ensures forall p, q :: 0 <= p < q < |Crossing(bs, i, n)| ==> Crossing(bs, i, n)[p] < Crossing(bs, i, n)[q]
  {
    if n > 0 {
      CrossingSpec(bs, i, n - 1);
      var a, t := Crossing(bs, i, n - 1), Crossing(bs, i, n);
      forall k | 0 <= k < |a|
        ensures a[k] < n - 1
      {
        assert a[k] in a;
      }
      assert forall k :: 0 <= k < |a| ==> t[k] == a[k];
      assert forall k :: |a| <= k < |t| ==> t[k] == n - 1;
    }
  }

  /** Crossing is symmetric and irreflexive. */
  lemma CrossingSymmetric(bs: seq<Bridge>, i: nat, j: nat)
    requires i < |bs| && j < |bs|
    ensures j in Crossing(bs, i, |bs|) <==> i in Crossing(bs, j, |bs|)
    ensures i !in Crossing(bs, i, |bs|)
  {
    CrossingSpec(bs, i, |bs|);
    CrossingSpec(bs, j, |bs|);
    MeetSymmetric(bs[i].indices, bs[j].indices);
  }

  /** The inner loop of find_bridge_crossings: does some cell of `xs` occur in `ys`? */
  method Shares(xs: seq<Cell>, ys: seq<Cell>) returns (found: bool)
    ensures found == Meet(xs, ys)
  {
    found := false;
    for k := 0 to |xs|
      invariant forall m :: 0 <= m < k ==> xs[m] !in ys
    {
      if xs[k] in ys {
        found := true;
        return;
      }
    }
  }

  /**
   * find_bridge_crossings: every bridge's crossing list gets the ids of the other
   * bridges that share a cell with it. Nothing else about a bridge changes.
   */
  method FindBridgeCrossings(bs: seq<Bridge>) returns (out: seq<Bridge>)
    ensures |out| == |bs|
    ensures forall i :: 0 <= i < |bs| ==>
      out[i] == bs[i].(crossings := bs[i].crossings + Crossing(bs, i, |bs|))
  {
    out := bs;
    for i := 0 to |bs|
      invariant |out| == |bs|
      invariant forall m :: 0 <= m < i ==> out[m] == bs[m].(crossings := bs[m].crossings + Crossing(bs, m, |bs|))
      invariant forall m :: i <= m < |bs| ==> out[m] == bs[m]
    {
      var crossings := CrossingsOf(bs, i);
      out := out[i := bs[i].(crossings := crossings)];
    }
  }

  /** The inner loop of find_bridge_crossings: bridge i's crossing list extended by the bridges it shares a cell with. */
  method CrossingsOf(bs: seq<Bridge>, i: nat) returns (crossings: seq<nat>)
    requires i < |bs|
    ensures crossings == bs[i].crossings + Crossing(bs, i, |bs|)
  {
    crossings := bs[i].crossings;
    for other := 0 to |bs|
      invariant crossings == bs[i].crossings + Crossing(bs, i, other)
    {
      if other != i {
        var found := Shares(bs[other].indices, bs[i].indices);
        if found {
          crossings := crossings + [other];
        }
      }
    }
  }

  /** Bridges b and j are different and have an island in common. */
  predicate Adjacent(starts: seq<Cell>, ends: seq<Cell>, b: nat, j: nat)
    requires b < |starts| && j < |starts| && |ends| == |starts|
  {
    j != b && (starts[b] == starts[j] || starts[b] == ends[j] || ends[b] == starts[j] || ends[b] == ends[j])
  }

  /** The ids find_bridge_connections lists for bridge b among bridges 0 .. n-1. */
  function Connected(starts: seq<Cell>, ends: seq<Cell>, b: nat, n: nat): seq<nat>
    requires b < |starts| && n <= |starts| && |ends| == |starts|
  {
    if n == 0 then []
    else Connected(starts, ends, b, n - 1) + (if Adjacent(starts, ends, b, n - 1) then [n - 1] else [])
  }

  lemma {:induction false} ConnectedSpec(starts: seq<Cell>, ends: seq<Cell>, b: nat, n: nat)
    requires b < |starts| && n <= |starts| && |ends| == |starts|
    ensures forall j: nat :: j in Connected(starts, ends, b, n) <==> j < n && Adjacent(starts, ends, b, j)
    ensures Distinct(Connected(starts, ends, b, n))
  {
    if n > 0 {
      ConnectedSpec(starts, ends, b, n - 1);
    }
  }

  /** Being connected is symmetric. */
  lemma ConnectedSymmetric(starts: seq<Cell>, ends: seq<Cell>, b: nat, j: nat)
    requires b < |starts| && j < |starts| && |ends| == |starts|
    ensures j in Connected(starts, ends, b, |starts|) <==> b in Connected(starts, ends, j, |starts|)
  {
    ConnectedSpec(starts, ends, b, |starts|);
    ConnectedSpec(starts, ends, j, |starts|);
  }

  /**
   * find_bridge_connections: for every bridge, the other bridges that share an island
   * with it, in id order.
   */
  method FindBridgeConnections(starts: seq<Cell>, ends: seq<Cell>) returns (connections: seq<seq<nat>>)
    requires |ends| == |starts|
    ensures |connections| == |starts|
    ensures forall b :: 0 <= b < |starts| ==> connections[b] == Connected(starts, ends, b, |starts|)
  {
    connections := [];
    for b := 0 to |starts|
      invariant |connections| == b
      invariant forall m :: 0 <= m < b ==> connections[m] == Connected(starts, ends, m, |starts|)
    {
      var start, end := starts[b], ends[b];
      var list := [];
      for other := 0 to |starts|
        invariant list == Connected(starts, ends, b, other)
      {
        if other != b {
          var otherStart, otherEnd := starts[other], ends[other];
          if start == otherStart || start == otherEnd || end == otherStart || end == otherEnd {
            list := list + [other];
          }
        }
      }
      connections := connections + [list];
    }
  }

  /**
   * The first steps of main: find the islands and the bridges of the puzzle, list each
   * bridge at its islands and find the crossings. The result is wired, and its bridges
   * are the candidate spans of the puzzle with their crossings.
   */
  method Wire(g: Grid) returns (bs: seq<Bridge>, islands: map<Cell, Island>, keys: seq<Cell>)
    requires Rectangular(g)
    ensures Wired(bs, islands, keys) && Incidence(bs, islands)
    ensures forall c :: c in islands ==> fresh(islands[c])
    ensures |bs| == |Topology.AllSpans(g)|
    ensures forall i :: 0 <= i < |bs| ==>
      && bs[i].start == Topology.AllSpans(g)[i].start
      && bs[i].end == Topology.AllSpans(g)[i].end
      && bs[i].horizontal == Topology.AllSpans(g)[i].horizontal
    ensures forall i :: 0 <= i < |bs| ==>
      bs[i].bounds == Bounds(0, 3) && bs[i].indices == Interior(bs[i].start, bs[i].end, bs[i].horizontal)
    ensures forall i, j :: 0 <= i < |bs| && 0 <= j < |bs| ==>
      (j in bs[i].crossings <==> j != i && Meet(bs[j].indices, bs[i].indices))
    ensures forall c :: c in islands <==> InGrid(g, c) && At(g, c) != 0
    ensures forall c :: c in islands ==> islands[c].x == c.0 && islands[c].y == c.1 && islands[c].number == At(g, c)
  {
    islands, keys := FindIslands(g);
    var made := FindBridges(g);
    Topology.AllSpansLegal(g);
    var n := |made|;
    forall i | 0 <= i < n
      ensures made[i].start in islands && made[i].end in islands && made[i].start != made[i].end
    {
      assert Topology.Legal(g, Topology.AllSpans(g)[i]);
    }
    FindIslandBridges(made, islands);
    bs := FindBridgeCrossings(made);
    IslandListsWired(made, bs, islands);
    CrossingsWired(made, bs);
    forall i, j | 0 <= i < |bs| && 0 <= j < |bs|
      ensures j in bs[i].crossings <==> j != i && Meet(bs[j].indices, bs[i].indices)
    {
      CrossingSpec(made, i, |made|);
      assert bs[i].crossings == Crossing(made, i, |made|);
    }
    forall i, j | 0 <= i < j < |keys|
      ensures keys[i] != keys[j]
    {
      assert RowMajor(keys[i], keys[j]);
    }
  }

  /** The lists find_island_bridges builds hold every bridge at both its ends, once. */
  lemma IslandListsWired(made: seq<Bridge>, bs: seq<Bridge>, islands: map<Cell, Island>)
    requires |bs| == |made|
    requires forall i :: 0 <= i < |made| ==>
      && bs[i].start == made[i].start && bs[i].end == made[i].end && made[i].start != made[i].end
    requires forall c :: c in islands ==> islands[c].bridges == Incident(made, c, |made|)
    ensures forall c :: c in islands ==> Distinct(islands[c].bridges)
    ensures forall c, k :: c in islands && 0 <= k < |islands[c].bridges| ==> islands[c].bridges[k] < |bs|
    ensures Incidence(bs, islands)
  {
    forall c | c in islands
      ensures Distinct(islands[c].bridges)
      ensures forall j: nat :: j in islands[c].bridges <==> j < |bs| && (bs[j].start == c || bs[j].end == c)
    {
      IncidentSpec(made, c, |made|);
      IncidentOnce(made, c, |made|);
    }
    forall c, k | c in islands && 0 <= k < |islands[c].bridges|
      ensures islands[c].bridges[k] < |bs|
    {
      assert islands[c].bridges[k] in islands[c].bridges;
    }
  }

  /** The lists find_bridge_crossings builds hold other bridges only. */
  lemma CrossingsWired(made: seq<Bridge>, bs: seq<Bridge>)
    requires |bs| == |made|
    requires forall i :: 0 <= i < |made| ==>
      bs[i].crossings == made[i].crossings + Crossing(made, i, |made|) && made[i].crossings == []
    ensures forall i, k :: 0 <= i < |bs| && 0 <= k < |bs[i].crossings| ==>
      bs[i].crossings[k] < |bs| && bs[i].crossings[k] != i
  {
    forall i, k | 0 <= i < |bs| && 0 <= k < |bs[i].crossings|
      ensures bs[i].crossings[k] < |bs| && bs[i].crossings[k] != i
    {
      CrossingSpec(made, i, |made|);
      assert bs[i].crossings[k] in Crossing(made, i, |made|);
    }
  }
}
