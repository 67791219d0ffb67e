/**
 * Scanning one row or one column of the puzzle for candidate bridges: every two
 * consecutive non-zero entries of the line are the ends of one bridge.
 */
module Lines {

  /** The positions of the non-zero entries of line[..n], in increasing order. */
  function Stops(line: seq<int>, n: nat): seq<nat>
    requires n <= |line|
  {
    if n == 0 then [] else Stops(line, n - 1) + (if line[n - 1] != 0 then [n - 1] else [])
  }

  /** The pairs of consecutive elements of `xs`. */
  function Links(xs: seq<nat>): (ps: seq<(nat, nat)>)
    ensures |ps| == if |xs| < 2 then 0 else |xs| - 1
  {
    if |xs| < 2 then [] else seq(|xs| - 1, k requires 0 <= k < |xs| - 1 => (xs[k], xs[k + 1]))
  }

  /** The candidate bridges of a line: pairs of consecutive non-zero positions. */
  function Spans(line: seq<int>): seq<(nat, nat)> {
    Links(Stops(line, |line|))
  }

  /** Stops(line, n) is strictly increasing, sound and complete for line[..n]. */
  lemma {:induction false} StopsSpec(line: seq<int>, n: nat)
    requires n <= |line|
    ensures forall i, j :: 0 <= i < j < |Stops(line, n)| ==> Stops(line, n)[i] < Stops(line, n)[j]
    ensures forall i :: 0 <= i < |Stops(line, n)| ==> Stops(line, n)[i] < n && line[Stops(line, n)[i]] != 0
    ensures forall p :: 0 <= p < n && line[p] != 0 ==> p in Stops(line, n)
  {
    if n > 0 {
      StopsSpec(line, n - 1);
    }
  }

  /** Appending one element to a non-empty list adds one link, from its last element. */
  lemma LinksSnoc(xs: seq<nat>, x: nat)
    requires |xs| >= 1
    ensures Links(xs + [x]) == Links(xs) + [(xs[|xs| - 1], x)]
  {
    var ys := xs + [x];
    assert Links(ys)[|xs| - 1] == (xs[|xs| - 1], x);
  }

  /**
   * Every span joins two non-zero positions in increasing order with only zeros
   * strictly between them, and spans are strictly increasing in both ends.
   */
  lemma SpansSound(line: seq<int>)
    ensures forall k :: 0 <= k < |Spans(line)| ==>
      var (a, b) := Spans(line)[k];
      a < b < |line| && line[a] != 0 && line[b] != 0 && forall j :: a < j < b ==> line[j] == 0
    ensures forall k, m :: 0 <= k < m < |Spans(line)| ==>
      Spans(line)[k].1 <= Spans(line)[m].0 && Spans(line)[k].0 < Spans(line)[m].0
  {
    var xs := Stops(line, |line|);
    StopsSpec(line, |line|);
    forall k | 0 <= k < |Spans(line)|
      ensures var (a, b) := Spans(line)[k];
        a < b < |line| && line[a] != 0 && line[b] != 0 && forall j :: a < j < b ==> line[j] == 0
    {
      assert Spans(line)[k] == (xs[k], xs[k + 1]);
      forall j | xs[k] < j < xs[k + 1]
        ensures line[j] == 0
      {
        NextStop(line, k, j);
      }
    }
    forall k, m | 0 <= k < m < |Spans(line)|
      ensures Spans(line)[k].1 <= Spans(line)[m].0 && Spans(line)[k].0 < Spans(line)[m].0
    {
      assert Spans(line)[k] == (xs[k], xs[k + 1]) && Spans(line)[m] == (xs[m], xs[m + 1]);
    }
  }

  /** A non-zero entry after the k-th stop lies at or after the next stop. */
  lemma NextStop(line: seq<int>, k: nat, j: nat)
    requires k + 1 < |Stops(line, |line|)| && j < |line|
    ensures line[j] != 0 && Stops(line, |line|)[k] < j ==> Stops(line, |line|)[k + 1] <= j
  {
    var xs := Stops(line, |line|);
    StopsSpec(line, |line|);
    if line[j] != 0 && xs[k] < j {
      assert j in xs;
      var p :| 0 <= p < |xs| && xs[p] == j;
      assert k < p;
    }
  }

  /** Two non-zero positions with only zeros between them always form a span. */
  lemma SpansComplete(line: seq<int>, a: nat, b: nat)
    requires a < b < |line| && line[a] != 0 && line[b] != 0
    requires forall j :: a < j < b ==> line[j] == 0
    ensures (a, b) in Spans(line)
  {
    var xs := Stops(line, |line|);
    StopsSpec(line, |line|);
    assert a in xs;
    var p :| 0 <= p < |xs| && xs[p] == a;
    assert b in xs;
    var q :| 0 <= q < |xs| && xs[q] == b;
    assert p < q;
    assert a < xs[p + 1] <= b && line[xs[p + 1]] != 0;
    assert xs[p + 1] == b;
    assert Spans(line)[p] == (a, b);
  }

  /** The first loop of a line scan: the position of the first non-zero entry, or -1 if there is none. */
  method FirstStop(line: seq<int>) returns (first: int)
    ensures -1 <= first < |line|
    ensures first == -1 ==> Stops(line, |line|) == []
    ensures first >= 0 ==> Stops(line, first + 1) == [first]
  {
    first := -1;
    var c := 0;
    while c < |line|
      invariant 0 <= c <= |line|
      invariant Stops(line, c) == []
    {
      if line[c] != 0 {
        first := c;
        return;
      }
      c := c + 1;
    }
  }

  /**
   * One line of find_bridges: find the first non-zero entry, then pair each later
   * non-zero entry with the previous one.
   */
  method ScanLine(line: seq<int>) returns (spans: seq<(nat, nat)>)
    ensures spans == Spans(line)
  {
    // Spans start at the first non-zero cell of the line
    var first := FirstStop(line);
    spans := [];
    if first == -1 {
      return;
    }
    // Walk the line, closing a span at each further non-zero cell
    var a: nat := first;
    var c := a + 1;
    ghost var stops := [a];
    while c < |line|
      invariant a < c <= |line|
      invariant stops == Stops(line, c)
      invariant |stops| >= 1 && stops[|stops| - 1] == a
      invariant spans == Links(stops)
    {
      if line[c] != 0 {
        LinksSnoc(stops, c);
        spans := spans + [(a, c)];
        stops := stops + [c];
        a := c;
      }
      c := c + 1;
    }
  }
}
