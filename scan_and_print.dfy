/**
 * The earliest solver version, scan_and_print.py: bridges are plain parallel tables
 * indexed by bridge id (plank count, interior cells, start, end), every island keeps a
 * counter of the planks it still needs, and a set of occupied cells stops a bridge from
 * crossing one already placed. The search tries bridges in order of connectedness.
 */
module ScanAndPrint {
  import opened Cells
  import Lines
  import Topology
  import Ordering
  import HashiBuild
  import Propagation

  /* ---------------- find_islands ---------------- */

  /**
   * find_islands: map every non-zero cell to its number; `keys` is the order in which
   * the dictionary receives its entries, row by row.
   */
  method FindIslands(g: Grid) returns (islands: map<Cell, int>, keys: seq<Cell>)
    requires Rectangular(g)
    ensures forall c :: c in islands <==> InGrid(g, c) && At(g, c) != 0
    ensures forall c :: c in islands ==> islands[c] == At(g, c)
    ensures forall c :: c in keys <==> c in islands
    ensures Distinct(keys)
  {
    islands, keys := map[], [];
    for r := 0 to |g|
      invariant forall c :: c in islands <==> InGrid(g, c) && c.0 < r && At(g, c) != 0
      invariant forall c :: c in islands ==> islands[c] == At(g, c)
      invariant forall c :: c in keys <==> c in islands
      invariant forall i, j :: 0 <= i < j < |keys| ==> HashiBuild.RowMajor(keys[i], keys[j])
    {
      for col := 0 to Width(g)
        invariant forall c :: c in islands <==>
          InGrid(g, c) && (c.0 < r || (c.0 == r && c.1 < col)) && At(g, c) != 0
        invariant forall c :: c in islands ==> islands[c] == At(g, c)
        invariant forall c :: c in keys <==> c in islands
        invariant forall i, j :: 0 <= i < j < |keys| ==> HashiBuild.RowMajor(keys[i], keys[j])
      {
        if g[r][col] != 0 {
          islands := islands[(r, col) := g[r][col]];
          keys := keys + [(r, col)];
        }
      }
    }
  }

  /* ---------------- find_bridges ---------------- */

  /**
   * The four tables find_bridges returns describe the spans `spans` in order: no planks
   * yet, the span's ends, and the cells strictly between them.
   */
  predicate Tables(bridgeMap: seq<int>, indices: seq<seq<Cell>>, starts: seq<Cell>, ends: seq<Cell>,
                   spans: seq<Topology.Span>)
  {
    && |bridgeMap| == |indices| == |starts| == |ends| == |spans|
    && forall i :: 0 <= i < |spans| ==>
      && bridgeMap[i] == 0
      && starts[i] == spans[i].start && ends[i] == spans[i].end
      && indices[i] == Interior(spans[i].start, spans[i].end, spans[i].horizontal)
  }

  /** One step of find_bridges: record span `s` as the next bridge id. */
  method Record(bridgeMap: seq<int>, indices: seq<seq<Cell>>, starts: seq<Cell>, ends: seq<Cell>,
                ghost spans: seq<Topology.Span>, s: Topology.Span)
    returns (bridgeMap': seq<int>, indices': seq<seq<Cell>>, starts': seq<Cell>, ends': seq<Cell>)
    requires Tables(bridgeMap, indices, starts, ends, spans)
    ensures Tables(bridgeMap', indices', starts', ends', spans + [s])
  {
    var cells := InteriorCells(s.start, s.end, s.horizontal);
    bridgeMap', indices' := bridgeMap + [0], indices + [cells];
    starts', ends' := starts + [s.start], ends + [s.end];
  }

  /**
   * find_bridges: every row left to right, then every column top to bottom, pairing
   * each island with the next island on its line; the bridge ids count up from 0.
   */
  method FindBridges(g: Grid) returns (bridgeMap: seq<int>, indices: seq<seq<Cell>>, starts: seq<Cell>, ends: seq<Cell>)
    requires Rectangular(g)
    ensures Tables(bridgeMap, indices, starts, ends, Topology.AllSpans(g))
  {
    bridgeMap, indices, starts, ends := [], [], [], [];
    // Rows first: the spans of every row, top to bottom
    for r := 0 to |g|
      invariant Tables(bridgeMap, indices, starts, ends, Topology.HorizontalSpans(g, r))
    {
      bridgeMap, indices, starts, ends := RecordRow(g, r, bridgeMap, indices, starts, ends);
    }
    // Then columns: the spans of every column, left to right
    for c := 0 to Width(g)
      invariant Tables(bridgeMap, indices, starts, ends, Topology.HorizontalSpans(g, |g|) + Topology.VerticalSpans(g, c))
    {
      bridgeMap, indices, starts, ends := RecordColumn(g, c, bridgeMap, indices, starts, ends);
    }
  }

  /** The bridges of row r, appended after those of the rows above. */
  method RecordRow(g: Grid, r: nat, bridgeMap: seq<int>, indices: seq<seq<Cell>>, starts: seq<Cell>, ends: seq<Cell>)
    returns (bridgeMap': seq<int>, indices': seq<seq<Cell>>, starts': seq<Cell>, ends': seq<Cell>)
    requires r < |g| && Tables(bridgeMap, indices, starts, ends, Topology.HorizontalSpans(g, r))
    ensures Tables(bridgeMap', indices', starts', ends', Topology.HorizontalSpans(g, r + 1))
  {
    bridgeMap', indices', starts', ends' := bridgeMap, indices, starts, ends;
    var spans := Lines.ScanLine(g[r]);
    ghost var before := Topology.HorizontalSpans(g, r);
    ghost var row := Topology.RowSpans(g, r);
    for k := 0 to |spans|
      invariant Tables(bridgeMap', indices', starts', ends', before + row[..k])
    {
      assert row[..k + 1] == row[..k] + [row[k]];
      bridgeMap', indices', starts', ends' :=
        Record(bridgeMap', indices', starts', ends', before + row[..k], Topology.Span((r, spans[k].0), (r, spans[k].1), true));
    }
    assert row[..|spans|] == row;
  }

  /** The bridges of column c, appended after those of every row and of the columns to its left. */
  method RecordColumn(g: Grid, c: nat, bridgeMap: seq<int>, indices: seq<seq<Cell>>, starts: seq<Cell>, ends: seq<Cell>)
    returns (bridgeMap': seq<int>, indices': seq<seq<Cell>>, starts': seq<Cell>, ends': seq<Cell>)
    requires Rectangular(g) && c < Width(g)
    requires Tables(bridgeMap, indices, starts, ends, Topology.HorizontalSpans(g, |g|) + Topology.VerticalSpans(g, c))
    ensures Tables(bridgeMap', indices', starts', ends', Topology.HorizontalSpans(g, |g|) + Topology.VerticalSpans(g, c + 1))
  {
    bridgeMap', indices', starts', ends' := bridgeMap, indices, starts, ends;
    var spans := Lines.ScanLine(Column(g, c));
    ghost var before := Topology.HorizontalSpans(g, |g|) + Topology.VerticalSpans(g, c);
    ghost var col := Topology.ColumnSpans(g, c);
    assert Topology.HorizontalSpans(g, |g|) + Topology.VerticalSpans(g, c + 1) == before + col;
    for k := 0 to |spans|
      invariant Tables(bridgeMap', indices', starts', ends', before + col[..k])
    {
      assert col[..k + 1] == col[..k] + [col[k]];
      bridgeMap', indices', starts', ends' :=
        Record(bridgeMap', indices', starts', ends', before + col[..k], Topology.Span((spans[k].0, c), (spans[k].1, c), false));
    }
    assert col[..|spans|] == col;
  }

  /* ---------------- find_bridge_islands, find_island_bridges ---------------- */

  /** find_bridge_islands: each bridge id with the pair of islands it joins. */
  method FindBridgeIslands(starts: seq<Cell>, ends: seq<Cell>) returns (pairs: seq<(Cell, Cell)>)
    requires |starts| == |ends|
    ensures |pairs| == |starts|
    ensures forall j :: 0 <= j < |pairs| ==> pairs[j].0 == starts[j] && pairs[j].1 == ends[j]
  {
    pairs := [];
    for j := 0 to |starts|
      invariant |pairs| == j
      invariant forall i :: 0 <= i < j ==> pairs[i] == (starts[i], ends[i])
    {
      pairs := pairs + [(starts[j], ends[j])];
    }
  }

  /** Bridge j is one of the first n bridges and ends at cell c. */
  predicate EndsAt(starts: seq<Cell>, ends: seq<Cell>, n: nat, j: nat, c: Cell)
    requires n <= |starts| && n <= |ends|
  {
    j < n && (starts[j] == c || ends[j] == c)
  }

  /**
   * find_island_bridges: the cells that are an end of some bridge, each with the set of
   * the bridges ending there.
   */
  method FindIslandBridges(starts: seq<Cell>, ends: seq<Cell>) returns (sets: map<Cell, set<nat>>)
    requires |starts| == |ends|
    ensures forall c :: c in sets <==> c in starts || c in ends
    ensures forall c, j: nat :: c in sets ==> (j in sets[c] <==> EndsAt(starts, ends, |starts|, j, c))
  {
    sets := map[];
    for k := 0 to |starts|
      invariant forall c :: c in sets <==> c in starts[..k] || c in ends[..k]
      invariant forall c, j: nat :: c in sets ==> (j in sets[c] <==> EndsAt(starts, ends, k, j, c))
    {
      var start, end := starts[k], ends[k];
      assert starts[..k + 1] == starts[..k] + [start] && ends[..k + 1] == ends[..k] + [end];
      if start !in sets {
        sets := sets[start := {}];
      }
      if end !in sets {
        sets := sets[end := {}];
      }
      sets := sets[start := sets[start] + {k}];
      sets := sets[end := sets[end] + {k}];
    }
  }

  /* ---------------- find_connectedness ---------------- */

  /** How often cell c occurs in xs. */
  function Count(xs: seq<Cell>, c: Cell): nat {
    if xs == [] then 0 else Count(xs[..|xs| - 1], c) + (if xs[|xs| - 1] == c then 1 else 0)
  }

  /** Count agrees with the multiplicity of c in the multiset of xs. */
  lemma {:induction false} CountIsMultiplicity(xs: seq<Cell>, c: Cell)
    ensures Count(xs, c) == multiset(xs)[c]
  {
    if xs != [] {
      var init := xs[..|xs| - 1];
      CountIsMultiplicity(init, c);
      assert xs == init + [xs[|xs| - 1]];
    }
  }

  /** The number of bridge starts and bridge ends at cell c. */
  function Degree(starts: seq<Cell>, ends: seq<Cell>, c: Cell): nat {
    Count(starts, c) + Count(ends, c)
  }

  /** Both ends of bridge j are counted at least once, by the bridge itself. */
  lemma EndsCounted(starts: seq<Cell>, ends: seq<Cell>, j: nat)
    requires j < |starts| && j < |ends|
    ensures Degree(starts, ends, starts[j]) >= 1 && Degree(starts, ends, ends[j]) >= 1
  {
    CountIsMultiplicity(starts, starts[j]);
    CountIsMultiplicity(ends, ends[j]);
  }

  /** Python's dict.get(c, 0). */
  function Get(counts: map<Cell, nat>, c: Cell): nat {
    if c in counts then counts[c] else 0
  }

  /** One counting loop of find_connectedness: add one to the count of every cell of xs. */
  method CountInto(counts: map<Cell, nat>, xs: seq<Cell>) returns (counts': map<Cell, nat>)
    ensures forall c :: Get(counts', c) == Get(counts, c) + Count(xs, c)
    ensures forall c :: c in counts' <==> c in counts || c in xs
  {
    counts' := counts;
    for k := 0 to |xs|
      invariant forall c :: Get(counts', c) == Get(counts, c) + Count(xs[..k], c)
      invariant forall c :: c in counts' <==> c in counts || c in xs[..k]
    {
      assert xs[..k + 1][..k] == xs[..k];
      assert xs[..k + 1] == xs[..k] + [xs[k]];
      counts' := counts'[xs[k] := Get(counts', xs[k]) + 1];
    }
    assert xs[..|xs|] == xs;
  }

  /**
   * find_connectedness: count how many bridges start and how many end at each cell,
   * then score each bridge by the count at its start plus the count at its end. Every
   * score is at least 2, as the bridge itself is counted at both of its ends.
   */
  method FindConnectedness(starts: seq<Cell>, ends: seq<Cell>) returns (scores: seq<int>)
    requires |starts| == |ends|
    ensures |scores| == |starts|
    ensures forall j :: 0 <= j < |scores| ==>
      scores[j] == Degree(starts, ends, starts[j]) + Degree(starts, ends, ends[j])
    ensures forall j :: 0 <= j < |scores| ==> scores[j] >= 2
  {
    var counts := CountInto(map[], starts);
    counts := CountInto(counts, ends);
    scores := ScoreBridges(counts, starts, ends);
  }

  /** The last loop of find_connectedness: add up the counts at both ends of each bridge. */
  method ScoreBridges(counts: map<Cell, nat>, starts: seq<Cell>, ends: seq<Cell>) returns (scores: seq<int>)
    requires |starts| == |ends|
    requires forall c :: Get(counts, c) == Degree(starts, ends, c)
    requires forall c :: c in starts || c in ends ==> c in counts
    ensures |scores| == |starts|
    ensures forall j :: 0 <= j < |scores| ==>
      scores[j] == Degree(starts, ends, starts[j]) + Degree(starts, ends, ends[j])
    ensures forall j :: 0 <= j < |scores| ==> scores[j] >= 2
  {
    scores := [];
    for j := 0 to |starts|
      invariant |scores| == j
      invariant forall i :: 0 <= i < j ==>
        scores[i] == Degree(starts, ends, starts[i]) + Degree(starts, ends, ends[i])
      invariant forall i :: 0 <= i < j ==> scores[i] >= 2
    {
      EndsCounted(starts, ends, j);
      assert starts[j] in counts && ends[j] in counts;
      scores := scores + [counts[starts[j]] + counts[ends[j]]];
    }
  }

  /* ---------------- backtrack: the state it keeps ---------------- */

  /** The planks on the first m bridges that end at cell c. */
  function Load(planks: seq<int>, starts: seq<Cell>, ends: seq<Cell>, c: Cell, m: nat): int
    requires m <= |planks| && m <= |starts| && m <= |ends|
  {
    if m == 0 then 0
    else Load(planks, starts, ends, c, m - 1) + (if starts[m - 1] == c || ends[m - 1] == c then planks[m - 1] else 0)
  }

  /** Putting p planks on bridge j changes the load of its two ends, and of no other cell. */
  lemma {:induction false} LoadUpdate(planks: seq<int>, starts: seq<Cell>, ends: seq<Cell>, c: Cell, m: nat, j: nat, p: int)
    requires m <= |planks| && m <= |starts| && m <= |ends| && j < |planks|
    ensures Load(planks[j := p], starts, ends, c, m) ==
      Load(planks, starts, ends, c, m) + (if j < m && (starts[j] == c || ends[j] == c) then p - planks[j] else 0)
  {
    if m > 0 {
      LoadUpdate(planks, starts, ends, c, m - 1, j, p);
    }
  }

  /** Bridges without planks put no load on any cell. */
  lemma {:induction false} LoadZero(planks: seq<int>, starts: seq<Cell>, ends: seq<Cell>, c: Cell, m: nat)
    requires m <= |planks| && m <= |starts| && m <= |ends|
    requires forall j :: 0 <= j < |planks| ==> planks[j] == 0
    ensures Load(planks, starts, ends, c, m) == 0
  {
    if m > 0 {
      LoadZero(planks, starts, ends, c, m - 1);
    }
  }

  /** The number of listed islands whose counter is not yet 0. */
  function Pending(counters: map<Cell, int>, keys: seq<Cell>): nat
    requires forall i :: 0 <= i < |keys| ==> keys[i] in counters
  {
    if keys == [] then 0
    else Pending(counters, keys[..|keys| - 1]) + (if counters[keys[|keys| - 1]] != 0 then 1 else 0)
  }

  /** Changing one counter changes Pending by whether that counter leaves or reaches 0. */
  lemma {:induction false} PendingUpdate(counters: map<Cell, int>, keys: seq<Cell>, c: Cell, v: int)
    requires forall i :: 0 <= i < |keys| ==> keys[i] in counters
    requires c in counters && Distinct(keys)
    ensures Pending(counters[c := v], keys) ==
      Pending(counters, keys) + (if c in keys then (if v != 0 then 1 else 0) - (if counters[c] != 0 then 1 else 0) else 0)
  {
    if keys != [] {
      var init := keys[..|keys| - 1];
      assert forall i :: 0 <= i < |init| ==> init[i] == keys[i];
      assert c in keys <==> c in init || c == keys[|keys| - 1];
      PendingUpdate(counters, init, c, v);
    }
  }

  /** No island pending means every listed counter is 0. */
  lemma {:induction false} PendingZero(counters: map<Cell, int>, keys: seq<Cell>)
    requires forall i :: 0 <= i < |keys| ==> keys[i] in counters
    requires Pending(counters, keys) == 0
    ensures forall i :: 0 <= i < |keys| ==> counters[keys[i]] == 0
  {
    if keys != [] {
      var init := keys[..|keys| - 1];
      PendingZero(counters, init);
      assert forall i :: 0 <= i < |init| ==> init[i] == keys[i];
    }
  }

  /** When no counter is 0, every listed island is pending. */
  lemma {:induction false} PendingAll(counters: map<Cell, int>, keys: seq<Cell>)
    requires forall i :: 0 <= i < |keys| ==> keys[i] in counters && counters[keys[i]] != 0
    ensures Pending(counters, keys) == |keys|
  {
    if keys != [] {
      PendingAll(counters, keys[..|keys| - 1]);
    }
  }

  /** The cells covered by the bridges that carry planks. */
  function Occupied(planks: seq<int>, indices: seq<seq<Cell>>): set<Cell>
    requires |planks| == |indices|
  {
    set j, x | 0 <= j < |planks| && planks[j] != 0 && x in indices[j] :: x
  }

  /** No two bridges that carry planks pass over a common cell. */
  predicate Apart(planks: seq<int>, indices: seq<seq<Cell>>)
    requires |planks| == |indices|
  {
    forall i, j :: 0 <= i < j < |planks| && planks[i] != 0 && planks[j] != 0 ==> !Meet(indices[i], indices[j])
  }

  /** Giving planks to an empty bridge adds its cells to the occupied ones. */
  lemma OccupiedPlace(planks: seq<int>, indices: seq<seq<Cell>>, cur: nat, p: int)
    requires |planks| == |indices| && cur < |planks| && planks[cur] == 0 && p != 0
    ensures Occupied(planks[cur := p], indices) == Occupied(planks, indices) + set x | x in indices[cur]
  {
    var after := planks[cur := p];
    forall x | x in Occupied(after, indices)
      ensures x in Occupied(planks, indices) + set x | x in indices[cur]
    {
      var j :| 0 <= j < |after| && after[j] != 0 && x in indices[j];
      if j != cur {
        assert planks[j] != 0;
      }
    }
  }

  /** A bridge whose cells are all free can take planks without touching another. */
  lemma ApartPlace(planks: seq<int>, indices: seq<seq<Cell>>, cur: nat, p: int)
    requires |planks| == |indices| && cur < |planks| && Apart(planks, indices)
    requires forall x :: x in indices[cur] ==> x !in Occupied(planks, indices)
    ensures Apart(planks[cur := p], indices)
  {
    var after := planks[cur := p];
    forall i, j | 0 <= i < j < |after| && after[i] != 0 && after[j] != 0
      ensures !Meet(indices[i], indices[j])
    {
      if i == cur || j == cur {
        var other := if i == cur then j else i;
        assert other != cur && planks[other] != 0;
        forall x | x in indices[other]
          ensures x in Occupied(planks, indices)
        {
        }
      } else {
        assert planks[i] != 0 && planks[j] != 0;
      }
    }
  }

  /**
   * The island counters: every island of `numbers` has a counter, and that counter is
   * its number minus the planks on its bridges, never below 0.
   */
  predicate Tally(counters: map<Cell, int>, numbers: map<Cell, int>, planks: seq<int>, starts: seq<Cell>, ends: seq<Cell>)
  {
    && |planks| == |starts| == |ends|
    && counters.Keys == numbers.Keys
    && forall c :: c in counters ==> 0 <= counters[c] == numbers[c] - Load(planks, starts, ends, c, |planks|)
  }

  /** Both counters of a bridge's ends moved by d. */
  function Shift(counters: map<Cell, int>, start: Cell, end: Cell, d: int): map<Cell, int>
    requires start in counters && end in counters
  {
    var once := counters[start := counters[start] + d];
    once[end := once[end] + d]
  }

  /** Giving back what was taken restores the counters. */
  lemma ShiftBack(counters: map<Cell, int>, start: Cell, end: Cell, d: int)
    requires start in counters && end in counters && start != end
    ensures Shift(Shift(counters, start, end, -d), start, end, d) == counters
  {
    var back := Shift(Shift(counters, start, end, -d), start, end, d);
    assert back.Keys == counters.Keys;
    assert forall c :: c in counters ==> back[c] == counters[c];
  }

  /**
   * Placing p planks on an empty bridge and taking p from both its ends keeps the
   * counters tallied, as long as p fits in both counters.
   */
  lemma PlaceTally(counters: map<Cell, int>, numbers: map<Cell, int>, planks: seq<int>,
                   starts: seq<Cell>, ends: seq<Cell>, cur: nat, p: int)
    requires Tally(counters, numbers, planks, starts, ends)
    requires cur < |planks| && planks[cur] == 0 && starts[cur] != ends[cur]
    requires starts[cur] in counters && ends[cur] in counters
    requires p <= counters[starts[cur]] && p <= counters[ends[cur]]
    ensures Tally(Shift(counters, starts[cur], ends[cur], -p), numbers, planks[cur := p], starts, ends)
  {
    forall c | c in counters {
      LoadUpdate(planks, starts, ends, c, |planks|, cur, p);
    }
  }

  /**
   * What placing p planks on bridge cur does to the search state: the counters stay
   * tallied, the placed bridges stay apart, the bridge's cells join the occupied ones,
   * and the number of pending islands drops by the ends whose counter reached 0.
   */
  lemma PlaceKeeps(counters: map<Cell, int>, numbers: map<Cell, int>, keys: seq<Cell>, planks: seq<int>,
                   starts: seq<Cell>, ends: seq<Cell>, indices: seq<seq<Cell>>, cur: nat, p: int)
    requires Tally(counters, numbers, planks, starts, ends) && |indices| == |planks|
    requires Apart(planks, indices) && cur < |planks| && planks[cur] == 0
    requires forall x :: x in indices[cur] ==> x !in Occupied(planks, indices)
    requires starts[cur] != ends[cur] && starts[cur] in keys && ends[cur] in keys
    requires forall c :: c in keys <==> c in counters
    requires Distinct(keys)
    requires 0 < p <= counters[starts[cur]] && p <= counters[ends[cur]]
    ensures Tally(Shift(counters, starts[cur], ends[cur], -p), numbers, planks[cur := p], starts, ends)
    ensures Apart(planks[cur := p], indices)
    ensures Occupied(planks[cur := p], indices) == Occupied(planks, indices) + set x | x in indices[cur]
    ensures Pending(Shift(counters, starts[cur], ends[cur], -p), keys) == Pending(counters, keys)
      - (if counters[starts[cur]] == p then 1 else 0) - (if counters[ends[cur]] == p then 1 else 0)
  {
    var s, e := starts[cur], ends[cur];
    PlaceTally(counters, numbers, planks, starts, ends, cur, p);
    ApartPlace(planks, indices, cur, p);
    OccupiedPlace(planks, indices, cur, p);
    var once := counters[s := counters[s] - p];
    PendingUpdate(counters, keys, s, counters[s] - p);
    PendingUpdate(once, keys, e, counters[e] - p);
  }

  /* ---------------- backtrack ---------------- */

  /**
   * The state backtrack threads through its recursion: the bridge tables and the
   * search order are fixed, while the island counters (island_map), the plank counts
   * (bridge_map) and the occupied cells change as bridges are placed and taken back.
   */
  class Search {
    const indices: seq<seq<Cell>>
    const starts: seq<Cell>
    const ends: seq<Cell>
    const order: seq<nat>
    /** The islands in the order island_map received them. */
    const keys: seq<Cell>
    /** The island numbers the counters started from. */
    ghost const numbers: map<Cell, int>
    var islandMap: map<Cell, int>
    var bridgeMap: seq<int>
    var occupied: set<Cell>

    /** Tables that fit together: every bridge joins two islands, the order lists every bridge once. */
    ghost predicate Shape() {
      && |indices| == |starts| == |ends| == |order|
      && (forall j :: 0 <= j < |starts| ==> starts[j] in numbers && ends[j] in numbers && starts[j] != ends[j])
      && (forall j :: 0 <= j < |indices| ==> Distinct(indices[j]))
      && (forall k :: 0 <= k < |order| ==> order[k] < |starts|)
      && Distinct(order)
      && (forall c :: c in keys <==> c in numbers)
      && Distinct(keys)
    }

    /**
     * The invariant of the search state: counters tallied against the planks placed,
     * plank counts between 0 and 3, the occupied cells exactly those of the bridges
     * with planks, and no two such bridges sharing a cell.
     */
    ghost predicate Inv()
      reads this
    {
      && Tally(islandMap, numbers, bridgeMap, starts, ends)
      && |indices| == |bridgeMap|
      && (forall j :: 0 <= j < |bridgeMap| ==> 0 <= bridgeMap[j] <= 3)
      && occupied == Occupied(bridgeMap, indices)
      && Apart(bridgeMap, indices)
    }

    /** Only bridges the search has reached, order[..idx], carry planks. */
    ghost predicate Visited(idx: nat)
      reads this
      requires idx <= |order|
    {
      forall j :: 0 <= j < |bridgeMap| && bridgeMap[j] != 0 ==> j in order[..idx]
    }

    /** Every island carries exactly its number of planks. */
    ghost predicate Solved()
      reads this
      requires |bridgeMap| == |starts| == |ends|
    {
      forall c :: c in numbers ==> Load(bridgeMap, starts, ends, c, |bridgeMap|) == numbers[c]
    }

    constructor (islandMap: map<Cell, int>, keys: seq<Cell>, bridgeMap: seq<int>, indices: seq<seq<Cell>>,
                 starts: seq<Cell>, ends: seq<Cell>, order: seq<nat>)
      ensures this.islandMap == islandMap && this.numbers == islandMap && this.keys == keys
      ensures this.bridgeMap == bridgeMap && this.indices == indices
      ensures this.starts == starts && this.ends == ends && this.order == order
      ensures occupied == {}
    {
      this.islandMap, this.numbers, this.keys := islandMap, islandMap, keys;
      this.bridgeMap, this.indices := bridgeMap, indices;
      this.starts, this.ends, this.order := starts, ends, order;
      occupied := {};
    }

    /** The check at the head of backtrack: does any cell of bridge cur lie in occupied? */
    method Blocked(cur: nat) returns (blocked: bool)
      requires cur < |indices|
      ensures blocked <==> exists x :: x in indices[cur] && x in occupied
    {
      var cells := indices[cur];
      for k := 0 to |cells|
        invariant forall i :: 0 <= i < k ==> cells[i] !in occupied
      {
        if cells[k] in occupied {
          return true;
        }
      }
      return false;
    }

    /** Mark every cell of bridge cur occupied. */
    method Occupy(cur: nat)
      requires cur < |indices|
      modifies this`occupied
      ensures occupied == old(occupied) + set x | x in indices[cur]
    {
      var cells := indices[cur];
      for k := 0 to |cells|
        invariant occupied == old(occupied) + set x | x in cells[..k]
      {
        assert cells[..k + 1] == cells[..k] + [cells[k]];
        occupied := occupied + {cells[k]};
      }
      assert cells[..|cells|] == cells;
    }

    /** Free every cell of bridge cur; set.remove needs each cell present when removed. */
    method Free(cur: nat)
      requires cur < |indices| && Distinct(indices[cur])
      requires forall x :: x in indices[cur] ==> x in occupied
      modifies this`occupied
      ensures occupied == old(occupied) - set x | x in indices[cur]
    {
      var cells := indices[cur];
      for k := 0 to |cells|
        invariant occupied == old(occupied) - set x | x in cells[..k]
        invariant forall i :: k <= i < |cells| ==> cells[i] in occupied
      {
        assert cells[..k + 1] == cells[..k] + [cells[k]];
        occupied := occupied - {cells[k]};
      }
      assert cells[..|cells|] == cells;
    }

    /**
     * backtrack: stop with success once no island is pending and with failure once the
     * order is exhausted; skip a bridge that would cross an occupied cell; otherwise
     * occupy its cells, try its plank counts, and on failure free the cells again and
     * go on without it. A failed call leaves every counter, plank count and occupied
     * cell as it found them; a successful one leaves every island with exactly its
     * number of planks and no two bridges crossing.
     */
    method Backtrack(idx: nat, remaining: int) returns (found: bool)
      requires Shape() && Inv() && idx <= |order|
      requires remaining == Pending(islandMap, keys)
      requires Visited(idx)
      modifies this`islandMap, this`bridgeMap, this`occupied
      decreases |order| - idx, 2
      ensures Inv()
      ensures remaining == 0 ==> found
      ensures found ==> Solved()
      ensures !found ==> islandMap == old(islandMap) && bridgeMap == old(bridgeMap) && occupied == old(occupied)
    {
      if remaining == 0 {
        PendingZero(islandMap, keys);
        return true;
      }
      if idx == |bridgeMap| {
        return false;
      }
      var cur := order[idx];
      forall k | 0 <= k < idx
        ensures order[k] != cur
      {
      }
      assert bridgeMap[cur] == 0;
      assert Visited(idx + 1) by {
        assert forall k :: 0 <= k < idx ==> order[..idx][k] == order[..idx + 1][k];
      }
      var blocked := Blocked(cur);
      if blocked {
        found := Backtrack(idx + 1, remaining);
        return;
      }
      Occupy(cur);
      found := TryPlanks(idx, remaining);
      if found {
        return;
      }
      Free(cur);
      found := Backtrack(idx + 1, remaining);
    }

    /**
     * The plank loop of backtrack: try min(3, counter at start, counter at end) planks
     * down to 1. No counter goes below 0.
     */
    method TryPlanks(idx: nat, remaining: int) returns (found: bool)
      requires Shape() && idx < |order|
      requires Tally(islandMap, numbers, bridgeMap, starts, ends) && |indices| == |bridgeMap|
      requires forall j :: 0 <= j < |bridgeMap| ==> 0 <= bridgeMap[j] <= 3
      requires Apart(bridgeMap, indices) && bridgeMap[order[idx]] == 0
      requires forall x :: x in indices[order[idx]] ==> x !in Occupied(bridgeMap, indices)
      requires occupied == Occupied(bridgeMap, indices) + set x | x in indices[order[idx]]
      requires remaining == Pending(islandMap, keys)
      requires Visited(idx + 1)
      modifies this`islandMap, this`bridgeMap, this`occupied
      decreases |order| - idx, 1
      ensures found ==> Inv() && Solved()
      ensures !found ==> islandMap == old(islandMap) && bridgeMap == old(bridgeMap) && occupied == old(occupied)
    {
      var cur := order[idx];
      var start, end := starts[cur], ends[cur];
      var p := Propagation.Min(Propagation.Min(3, islandMap[start]), islandMap[end]);
      while p > 0
        invariant islandMap == old(islandMap) && bridgeMap == old(bridgeMap) && occupied == old(occupied)
        invariant p <= 3 && p <= islandMap[start] && p <= islandMap[end]
      {
        found := TryPlank(idx, remaining, p);
        if found {
          return;
        }
        p := p - 1;
      }
      found := false;
    }

    /**
     * One round of the plank loop: put p planks on the bridge and take them from both
     * counters, succeed if no island is left pending or the recursion succeeds, and
     * otherwise give the planks back and reset the bridge to 0.
     */
    method TryPlank(idx: nat, remaining: int, p: int) returns (found: bool)
      requires Shape() && idx < |order|
      requires Tally(islandMap, numbers, bridgeMap, starts, ends) && |indices| == |bridgeMap|
      requires forall j :: 0 <= j < |bridgeMap| ==> 0 <= bridgeMap[j] <= 3
      requires Apart(bridgeMap, indices) && bridgeMap[order[idx]] == 0
      requires forall x :: x in indices[order[idx]] ==> x !in Occupied(bridgeMap, indices)
      requires occupied == Occupied(bridgeMap, indices) + set x | x in indices[order[idx]]
      requires remaining == Pending(islandMap, keys)
      requires Visited(idx + 1)
      requires 0 < p <= 3 && p <= islandMap[starts[order[idx]]] && p <= islandMap[ends[order[idx]]]
      modifies this`islandMap, this`bridgeMap, this`occupied
      decreases |order| - idx, 0
      ensures found ==> Inv() && Solved()
      ensures !found ==> islandMap == old(islandMap) && bridgeMap == old(bridgeMap) && occupied == old(occupied)
    {
      var cur := order[idx];
      var start, end := starts[cur], ends[cur];
      PlaceKeeps(islandMap, numbers, keys, bridgeMap, starts, ends, indices, cur, p);
      Place(cur, p);

      var newRemaining := remaining;
      if islandMap[start] == 0 {
        newRemaining := newRemaining - 1;
      }
      if islandMap[end] == 0 {
        newRemaining := newRemaining - 1;
      }
      if newRemaining == 0 {
        PendingZero(islandMap, keys);
        return true;
      }
      found := Backtrack(idx + 1, newRemaining);
      if found {
        return;
      }

      Unplace(cur, p);
      ShiftBack(old(islandMap), start, end, p);
      assert bridgeMap == old(bridgeMap);
    }

    /** Put p planks on bridge cur and take p from the counters of both its ends. */
    method Place(cur: nat, p: int)
      requires cur < |bridgeMap| && cur < |starts| && cur < |ends|
      requires starts[cur] in islandMap && ends[cur] in islandMap
      modifies this`bridgeMap, this`islandMap
      ensures bridgeMap == old(bridgeMap)[cur := p]
      ensures islandMap == Shift(old(islandMap), starts[cur], ends[cur], -p)
    {
      var start, end := starts[cur], ends[cur];
      bridgeMap := bridgeMap[cur := p];
      islandMap := islandMap[start := islandMap[start] - p];
      islandMap := islandMap[end := islandMap[end] - p];
    }

    /** Give the p planks back to both ends and reset bridge cur to 0. */
    method Unplace(cur: nat, p: int)
      requires cur < |bridgeMap| && cur < |starts| && cur < |ends|
      requires starts[cur] in islandMap && ends[cur] in islandMap
      modifies this`bridgeMap, this`islandMap
      ensures bridgeMap == old(bridgeMap)[cur := 0]
      ensures islandMap == Shift(old(islandMap), starts[cur], ends[cur], p)
    {
      var start, end := starts[cur], ends[cur];
      islandMap := islandMap[start := islandMap[start] + p];
      islandMap := islandMap[end := islandMap[end] + p];
      bridgeMap := bridgeMap[cur := 0];
    }
  }

  /* ---------------- the solver's pipeline ---------------- */

  /** The connectedness find_connectedness gives bridge j. */
  function Connectedness(starts: seq<Cell>, ends: seq<Cell>, j: nat): int
    requires j < |starts| && j < |ends|
  {
    Degree(starts, ends, starts[j]) + Degree(starts, ends, ends[j])
  }

  /**
   * The data flow of main without reading or printing the map: build the island
   * counters and the bridge tables, order the bridges by connectedness (stable, so
   * ties keep id order), and search from the first bridge with every island pending.
   * On success every island carries exactly its number of planks, each bridge carries
   * 0 to 3 planks and no two bridges with planks cross; on failure no bridge has any.
   */
  method Solve(g: Grid) returns (found: bool, search: Search)
    requires Rectangular(g)
    requires forall r, c :: 0 <= r < |g| && 0 <= c < |g[r]| ==> g[r][c] >= 0
    ensures |search.bridgeMap| == |search.starts| == |search.ends| == |search.indices| == |Topology.AllSpans(g)|
    ensures forall j :: 0 <= j < |search.starts| ==>
      var s := Topology.AllSpans(g)[j];
      search.starts[j] == s.start && search.ends[j] == s.end && search.indices[j] == Interior(s.start, s.end, s.horizontal)
    ensures |search.order| == |search.starts| && Distinct(search.order)
    ensures forall j :: 0 <= j < |search.starts| ==> j in search.order
    ensures forall k :: 0 <= k < |search.order| ==> search.order[k] < |search.starts|
    ensures forall k, l :: 0 <= k < l < |search.order| ==>
      Connectedness(search.starts, search.ends, search.order[k]) <= Connectedness(search.starts, search.ends, search.order[l])
    ensures forall k, l :: 0 <= k < l < |search.order| ==>
      Connectedness(search.starts, search.ends, search.order[k]) == Connectedness(search.starts, search.ends, search.order[l]) ==>
      search.order[k] < search.order[l]
    ensures forall j :: 0 <= j < |search.bridgeMap| ==> 0 <= search.bridgeMap[j] <= 3
    ensures found ==> forall c :: InGrid(g, c) && At(g, c) != 0 ==>
      Load(search.bridgeMap, search.starts, search.ends, c, |search.bridgeMap|) == At(g, c)
    ensures found ==> Apart(search.bridgeMap, search.indices)
    ensures !found ==> forall j :: 0 <= j < |search.bridgeMap| ==> search.bridgeMap[j] == 0
  {
    var islandMap, keys := FindIslands(g);
    var bridgeMap, indices, starts, ends := FindBridges(g);
    var connectedness := FindConnectedness(starts, ends);
    var order := Ordering.StableOrder(connectedness);
    search := new Search(islandMap, keys, bridgeMap, indices, starts, ends, order);
    Prepared(g, search);
    found := search.Backtrack(0, |keys|);
    forall k, l | 0 <= k < l < |order|
      ensures Connectedness(starts, ends, order[k]) <= Connectedness(starts, ends, order[l])
      ensures Connectedness(starts, ends, order[k]) == Connectedness(starts, ends, order[l]) ==> order[k] < order[l]
    {
      assert Ordering.Ahead(connectedness, order[k], order[l]);
    }
  }

  /** The freshly built search state meets backtrack's precondition at bridge 0. */
  lemma Prepared(g: Grid, search: Search)
    requires Rectangular(g) && forall r, c :: 0 <= r < |g| && 0 <= c < |g[r]| ==> g[r][c] >= 0
    requires forall c :: c in search.numbers <==> InGrid(g, c) && At(g, c) != 0
    requires forall c :: c in search.numbers ==> search.numbers[c] == At(g, c)
    requires search.islandMap == search.numbers
    requires forall c :: c in search.keys <==> c in search.numbers
    requires Distinct(search.keys)
    requires Tables(search.bridgeMap, search.indices, search.starts, search.ends, Topology.AllSpans(g))
    requires |search.order| == |search.starts| && forall p :: 0 <= p < |search.starts| ==> p in search.order
    requires exists scores :: |scores| == |search.starts| && Ordering.SortedPositions(scores, search.order)
    requires search.occupied == {}
    ensures search.Shape() && search.Inv() && search.Visited(0)
    ensures |search.keys| == Pending(search.islandMap, search.keys)
  {
    PreparedShape(g, search);
    forall c | c in search.islandMap
      ensures Load(search.bridgeMap, search.starts, search.ends, c, |search.bridgeMap|) == 0
    {
      LoadZero(search.bridgeMap, search.starts, search.ends, c, |search.bridgeMap|);
    }
    assert Occupied(search.bridgeMap, search.indices) == {};
    PendingAll(search.islandMap, search.keys);
  }

  /** The tables main builds have the shape the search relies on. */
  lemma PreparedShape(g: Grid, search: Search)
    requires Rectangular(g)
    requires forall c :: c in search.numbers <==> InGrid(g, c) && At(g, c) != 0
    requires forall c :: c in search.keys <==> c in search.numbers
    requires Distinct(search.keys)
    requires Tables(search.bridgeMap, search.indices, search.starts, search.ends, Topology.AllSpans(g))
    requires |search.order| == |search.starts| && forall p :: 0 <= p < |search.starts| ==> p in search.order
    requires exists scores :: |scores| == |search.starts| && Ordering.SortedPositions(scores, search.order)
    ensures search.Shape()
  {
    var spans := Topology.AllSpans(g);
    Topology.AllSpansLegal(g);
    forall j | 0 <= j < |search.indices|
      ensures Distinct(search.indices[j])
    {
      InteriorDistinct(spans[j].start, spans[j].end, spans[j].horizontal);
    }
    var scores :| |scores| == |search.starts| && Ordering.SortedPositions(scores, search.order);
    forall i, j | 0 <= i < j < |search.order|
      ensures search.order[i] != search.order[j]
    {
      assert Ordering.Ahead(scores, search.order[i], search.order[j]);
    }
  }

}
