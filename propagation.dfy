/**
 * The arithmetic of bound propagation shared by A1/hashi.py and A1/airplane.py: sums of
 * plank ranges over an island's bridges, what a solution is, what propagation may
 * and may not take away, and the wiring both solvers set up before propagating.
 */
module Propagation {
  import opened Cells
  import opened Bridges
  import opened Islands

  function Min(a: int, b: int): int {
    if a <= b then a else b
  }

  function Max(a: int, b: int): int {
    if a >= b then a else b
  }

  /** The maximum (upper) or the minimum of a plank range. */
  function Field(b: Bounds, upper: bool): int {
    if upper then b.maximum else b.minimum
  }

  /**
   * The sum of the maxima (upper) or of the minima of the listed bridges, leaving out
   * every occurrence of `skip`; -1 leaves out nothing.
   */
  function SumOthers(bounds: seq<Bounds>, ids: seq<nat>, skip: int, upper: bool): int
    requires Listed(bounds, ids)
  {
    if ids == [] then 0
    else
      var id := ids[|ids| - 1];
      SumOthers(bounds, ids[..|ids| - 1], skip, upper) + (if id == skip then 0 else Field(bounds[id], upper))
  }

  /** The ranges that pin every bridge i to exactly x[i] planks. */
  function Exact(x: seq<int>): seq<Bounds> {
    seq(|x|, i requires 0 <= i < |x| => Bounds(x[i], x[i]))
  }

  /** The plank counts `x` lie within the ranges `bounds`. */
  predicate Within(x: seq<int>, bounds: seq<Bounds>) {
    |x| == |bounds| && forall i :: 0 <= i < |x| ==> bounds[i].minimum <= x[i] <= bounds[i].maximum
  }

  /** Plank counts a finished puzzle can show: none negative, at most three per bridge. */
  predicate PlankCounts(x: seq<int>) {
    forall j :: 0 <= j < |x| ==> 0 <= x[j] <= 3
  }

  /** Every minimum only grew and every maximum only shrank. */
  predicate Narrowed(before: seq<Bounds>, after: seq<Bounds>) {
    |after| == |before|
    && forall i :: 0 <= i < |before| ==>
      before[i].minimum <= after[i].minimum && after[i].maximum <= before[i].maximum
  }

  /** No range is empty: every minimum is at most its maximum. */
  predicate Ordered(bounds: seq<Bounds>) {
    forall i :: 0 <= i < |bounds| ==> bounds[i].minimum <= bounds[i].maximum
  }

  /** The inner sums of forward_check and initial_forward_check. */
  method Total(bounds: seq<Bounds>, ids: seq<nat>, skip: int, upper: bool) returns (total: int)
    requires Listed(bounds, ids)
    ensures total == SumOthers(bounds, ids, skip, upper)
  {
    total := 0;
    for k := 0 to |ids|
      invariant total == SumOthers(bounds, ids[..k], skip, upper)
    {
      if ids[k] != skip {
        total := total + Field(bounds[ids[k]], upper);
      }
      assert ids[..k + 1][..k] == ids[..k];
    }
    assert ids[..|ids|] == ids;
  }

  /** Sums are monotone in the summed field. */
  lemma {:induction false} SumOthersMonotone(a: seq<Bounds>, b: seq<Bounds>, ids: seq<nat>, skip: int, ua: bool, ub: bool)
    requires Listed(a, ids) && Listed(b, ids)
    requires forall k :: 0 <= k < |ids| ==> Field(a[ids[k]], ua) <= Field(b[ids[k]], ub)
    ensures SumOthers(a, ids, skip, ua) <= SumOthers(b, ids, skip, ub)
  {
    if ids != [] {
      SumOthersMonotone(a, b, ids[..|ids| - 1], skip, ua, ub);
    }
  }

  /** Leaving out a bridge that is not listed changes nothing. */
  lemma {:induction false} SumOthersSkipAbsent(bounds: seq<Bounds>, ids: seq<nat>, skip: nat, upper: bool)
    requires Listed(bounds, ids) && skip !in ids
    ensures SumOthers(bounds, ids, skip, upper) == SumOthers(bounds, ids, -1, upper)
  {
    if ids != [] {
      SumOthersSkipAbsent(bounds, ids[..|ids| - 1], skip, upper);
    }
  }

  /** The whole sum is the sum of the others plus the bridge's own share. */
  lemma {:induction false} SumOthersSplit(bounds: seq<Bounds>, ids: seq<nat>, id: nat, upper: bool)
    requires Listed(bounds, ids) && Distinct(ids) && id in ids
    ensures SumOthers(bounds, ids, -1, upper) == SumOthers(bounds, ids, id, upper) + Field(bounds[id], upper)
  {
    var init := ids[..|ids| - 1];
    if ids[|ids| - 1] == id {
      forall p | 0 <= p < |init|
        ensures init[p] != id
      {
        assert init[p] == ids[p];
      }
      SumOthersSkipAbsent(bounds, init, id, upper);
    } else {
      assert id in init by {
        var p :| 0 <= p < |ids| && ids[p] == id;
        assert init[p] == id;
      }
      SumOthersSplit(bounds, init, id, upper);
    }
  }

  /** A sum of non-negative fields is non-negative. */
  lemma {:induction false} SumOthersNonNegative(bounds: seq<Bounds>, ids: seq<nat>, skip: int, upper: bool)
    requires Listed(bounds, ids)
    requires forall k :: 0 <= k < |ids| ==> Field(bounds[ids[k]], upper) >= 0
    ensures SumOthers(bounds, ids, skip, upper) >= 0
  {
    if ids != [] {
      SumOthersNonNegative(bounds, ids[..|ids| - 1], skip, upper);
    }
  }

  /** Every island lists only bridge ids below n. */
  ghost predicate ListsBelow(islands: map<Cell, Island>, n: nat)
    reads islands.Values
  {
    forall c, k :: c in islands && 0 <= k < |islands[c].bridges| ==> islands[c].bridges[k] < n
  }

  /**
   * The wiring the pre-processing establishes: every bridge ends at two islands, an
   * island lists valid bridge ids and each one once, a bridge's crossings are other
   * bridges, and `keys` lists every island once.
   */
  ghost predicate Wired(bridges: seq<Bridge>, islands: map<Cell, Island>, keys: seq<Cell>)
    reads islands.Values
  {
    && (forall i :: 0 <= i < |bridges| ==> bridges[i].start in islands && bridges[i].end in islands)
    && (forall i, k :: 0 <= i < |bridges| && 0 <= k < |bridges[i].crossings| ==>
          bridges[i].crossings[k] < |bridges| && bridges[i].crossings[k] != i)
    && (forall c :: c in islands ==> Distinct(islands[c].bridges))
    && ListsBelow(islands, |bridges|)
    && (forall c :: c in keys <==> c in islands)
    && Distinct(keys)
  }

  /** An island lists exactly the bridges that end at it. */
  ghost predicate Incidence(bridges: seq<Bridge>, islands: map<Cell, Island>)
    reads islands.Values
  {
    forall c, j: nat :: c in islands ==>
      (j in islands[c].bridges <==> j < |bridges| && (bridges[j].start == c || bridges[j].end == c))
  }

  /** Plank counts x, one per each of n bridges, that give every island exactly its number. */
  ghost predicate Solves(n: nat, islands: map<Cell, Island>, x: seq<int>)
    reads islands.Values
    requires ListsBelow(islands, n)
  {
    |x| == n
    && forall c :: c in islands ==> SumOthers(Exact(x), islands[c].bridges, -1, true) == islands[c].number
  }

  /** No plank counts that solve the puzzle inside `before` fall outside `after`. */
  ghost predicate KeepsSolutions(n: nat, islands: map<Cell, Island>, before: seq<Bounds>, after: seq<Bounds>)
    reads islands.Values
    requires ListsBelow(islands, n)
  {
    forall x :: Solves(n, islands, x) && Within(x, before) ==> Within(x, after)
  }

  /** The minimum of the k-th bridge of the island at c already covers what the others cannot carry. */
  ghost predicate MinimumSettled(islands: map<Cell, Island>, bs: seq<Bounds>, c: Cell, k: nat)
    reads islands.Values
    requires ListsBelow(islands, |bs|) && c in islands && k < |islands[c].bridges|
  {
    var island := islands[c];
    var id := island.bridges[k];
    bs[id].minimum >= island.number - SumOthers(bs, island.bridges, id, true)
  }

  /** The maximum of the k-th bridge of the island at c leaves room for the others' minima. */
  ghost predicate MaximumSettled(islands: map<Cell, Island>, bs: seq<Bounds>, c: Cell, k: nat)
    reads islands.Values
    requires ListsBelow(islands, |bs|) && c in islands && k < |islands[c].bridges|
  {
    var island := islands[c];
    var id := island.bridges[k];
    bs[id].maximum <= island.number - SumOthers(bs, island.bridges, id, false)
  }

  /**
   * What a solution inside the ranges bs tells about each bridge of an island: it
   * carries at least what the others' maxima leave over and at most what their minima
   * leave over.
   */
  lemma SolutionBounds(islands: map<Cell, Island>, x: seq<int>, bs: seq<Bounds>, c: Cell, k: nat)
    requires ListsBelow(islands, |bs|) && Solves(|bs|, islands, x) && Within(x, bs)
    requires c in islands && k < |islands[c].bridges| && Distinct(islands[c].bridges)
    ensures x[islands[c].bridges[k]] >= islands[c].number - SumOthers(bs, islands[c].bridges, islands[c].bridges[k], true)
    ensures x[islands[c].bridges[k]] <= islands[c].number - SumOthers(bs, islands[c].bridges, islands[c].bridges[k], false)
  {
    var ids, id := islands[c].bridges, islands[c].bridges[k];
    var e := Exact(x);
    SumOthersSplit(e, ids, id, true);
    SumOthersMonotone(e, bs, ids, id, true, true);
    SumOthersMonotone(bs, e, ids, id, false, true);
  }

  /**
   * Once a propagation that keeps every solution has emptied a range, no solution lay
   * inside the ranges it started from: returning False there loses nothing.
   */
  lemma CrossedHoldsNothing(n: nat, islands: map<Cell, Island>, before: seq<Bounds>, after: seq<Bounds>)
    requires ListsBelow(islands, n)
    requires KeepsSolutions(n, islands, before, after) && !Ordered(after)
    ensures forall x :: Solves(n, islands, x) ==> !Within(x, before)
  {
    var i :| 0 <= i < |after| && after[i].minimum > after[i].maximum;
  }

  /**
   * A solution that uses no negative plank count puts no more planks on a bridge than
   * either of its islands asks for.
   */
  lemma SolutionCapped(bridges: seq<Bridge>, islands: map<Cell, Island>, keys: seq<Cell>, x: seq<int>, i: nat)
    requires Wired(bridges, islands, keys) && Incidence(bridges, islands)
    requires Solves(|bridges|, islands, x) && i < |bridges|
    requires forall j :: 0 <= j < |x| ==> x[j] >= 0
    ensures x[i] <= islands[bridges[i].start].number && x[i] <= islands[bridges[i].end].number
  {
    var e := Exact(x);
    forall c | c == bridges[i].start || c == bridges[i].end
      ensures x[i] <= islands[c].number
    {
      var ids := islands[c].bridges;
      assert i in ids;
      SumOthersSplit(e, ids, i, true);
      SumOthersNonNegative(e, ids, i, true);
    }
  }

  /** The connectedness of bridge i: the bridge ids listed at its two islands. */
  ghost function Score(bridges: seq<Bridge>, islands: map<Cell, Island>, i: nat): int
    reads islands.Values
    requires i < |bridges| && bridges[i].start in islands && bridges[i].end in islands
  {
    |islands[bridges[i].start].bridges| + |islands[bridges[i].end].bridges|
  }

  /** Bridge j is one the search from position idx of `order` may change. */
  ghost predicate Touches(bridges: seq<Bridge>, order: seq<nat>, idx: nat, j: nat)
    requires forall k :: 0 <= k < |order| ==> order[k] < |bridges|
  {
    exists k :: idx <= k < |order| && (order[k] == j || j in bridges[order[k]].crossings)
  }
}
