/**
 * The candidate bridges of a puzzle, as find_bridges lists them: first every row from
 * top to bottom, scanned left to right, then every column from left to right, scanned
 * top to bottom. A bridge's id is its position in this list.
 */
module Topology {
  import opened Cells
  import Lines

  /** The ends and orientation of one candidate bridge. */
  datatype Span = Span(start: Cell, end: Cell, horizontal: bool)

  function RowSpans(g: Grid, r: nat): seq<Span>
    requires r < |g|
  {
    var ps := Lines.Spans(g[r]);
    seq(|ps|, k requires 0 <= k < |ps| => Span((r, ps[k].0), (r, ps[k].1), true))
  }

  function ColumnSpans(g: Grid, c: nat): seq<Span>
    requires Rectangular(g) && c < Width(g)
  {
    var ps := Lines.Spans(Column(g, c));
    seq(|ps|, k requires 0 <= k < |ps| => Span((ps[k].0, c), (ps[k].1, c), false))
  }

  /** The spans of rows 0 .. n-1, row by row. */
  function HorizontalSpans(g: Grid, n: nat): seq<Span>
    requires n <= |g|
  {
    if n == 0 then [] else HorizontalSpans(g, n - 1) + RowSpans(g, n - 1)
  }

  /** The spans of columns 0 .. n-1, column by column. */
  function VerticalSpans(g: Grid, n: nat): seq<Span>
    requires Rectangular(g) && n <= Width(g)
  {
    if n == 0 then [] else VerticalSpans(g, n - 1) + ColumnSpans(g, n - 1)
  }

  /** All candidate bridges of the puzzle, indexed by bridge id. */
  function AllSpans(g: Grid): seq<Span>
    requires Rectangular(g)
  {
    HorizontalSpans(g, |g|) + VerticalSpans(g, Width(g))
  }

  /** The row of a horizontal span, the column of a vertical one. */
  function LineOf(s: Span): int {
    if s.horizontal then s.start.0 else s.start.1
  }

  /**
   * What makes a span a legal bridge: both ends are islands on one row (or column),
   * start strictly before end, and every cell strictly between them is empty.
   */
  predicate Legal(g: Grid, s: Span)
    requires Rectangular(g)
  {
    && InGrid(g, s.start) && InGrid(g, s.end)
    && At(g, s.start) != 0 && At(g, s.end) != 0
    && (if s.horizontal then s.start.0 == s.end.0 else s.start.1 == s.end.1)
    && Along(s.start, s.horizontal) < Along(s.end, s.horizontal)
    && forall c :: c in Interior(s.start, s.end, s.horizontal) ==> InGrid(g, c) && At(g, c) == 0
  }

  /** Spans are listed horizontal first, then by line, then along the line. */
  predicate Precedes(s: Span, t: Span) {
    || (s.horizontal && !t.horizontal)
    || (s.horizontal == t.horizontal && LineOf(s) < LineOf(t))
    || (s.horizontal == t.horizontal && LineOf(s) == LineOf(t)
        && Along(s.start, s.horizontal) < Along(t.start, t.horizontal))
  }

  lemma RowSpansLegal(g: Grid, r: nat)
    requires Rectangular(g) && r < |g|
    ensures forall k :: 0 <= k < |RowSpans(g, r)| ==>
      Legal(g, RowSpans(g, r)[k]) && RowSpans(g, r)[k].horizontal && LineOf(RowSpans(g, r)[k]) == r
  {
    var ps := Lines.Spans(g[r]);
    Lines.SpansSound(g[r]);
    forall k | 0 <= k < |ps|
      ensures Legal(g, RowSpans(g, r)[k])
    {
      var s := RowSpans(g, r)[k];
      InteriorSpec(s.start, s.end, true);
    }
  }

  lemma ColumnSpansLegal(g: Grid, c: nat)
    requires Rectangular(g) && c < Width(g)
    ensures forall k :: 0 <= k < |ColumnSpans(g, c)| ==>
      Legal(g, ColumnSpans(g, c)[k]) && !ColumnSpans(g, c)[k].horizontal && LineOf(ColumnSpans(g, c)[k]) == c
  {
    var ps := Lines.Spans(Column(g, c));
    Lines.SpansSound(Column(g, c));
    forall k | 0 <= k < |ps|
      ensures Legal(g, ColumnSpans(g, c)[k])
    {
      var s := ColumnSpans(g, c)[k];
      InteriorSpec(s.start, s.end, false);
    }
  }

  lemma {:induction false} HorizontalSpansLegal(g: Grid, n: nat)
    requires Rectangular(g) && n <= |g|
    ensures forall i :: 0 <= i < |HorizontalSpans(g, n)| ==>
      Legal(g, HorizontalSpans(g, n)[i]) && HorizontalSpans(g, n)[i].horizontal
      && LineOf(HorizontalSpans(g, n)[i]) < n
  {
    if n > 0 {
      HorizontalSpansLegal(g, n - 1);
      RowSpansLegal(g, n - 1);
    }
  }

  lemma {:induction false} VerticalSpansLegal(g: Grid, n: nat)
    requires Rectangular(g) && n <= Width(g)
    ensures forall i :: 0 <= i < |VerticalSpans(g, n)| ==>
      Legal(g, VerticalSpans(g, n)[i]) && !VerticalSpans(g, n)[i].horizontal
      && LineOf(VerticalSpans(g, n)[i]) < n
  {
    if n > 0 {
      VerticalSpansLegal(g, n - 1);
      ColumnSpansLegal(g, n - 1);
    }
  }

  /** Every bridge find_bridges creates joins two islands across empty cells only. */
  lemma AllSpansLegal(g: Grid)
    requires Rectangular(g)
    ensures forall i :: 0 <= i < |AllSpans(g)| ==> Legal(g, AllSpans(g)[i])
  {
    HorizontalSpansLegal(g, |g|);
    VerticalSpansLegal(g, Width(g));
  }

  lemma {:induction false} HorizontalSpansOrdered(g: Grid, n: nat)
    requires Rectangular(g) && n <= |g|
    ensures forall i, j :: 0 <= i < j < |HorizontalSpans(g, n)| ==>
      Precedes(HorizontalSpans(g, n)[i], HorizontalSpans(g, n)[j])
  {
    if n > 0 {
      HorizontalSpansOrdered(g, n - 1);
      HorizontalSpansLegal(g, n - 1);
      RowSpansLegal(g, n - 1);
      Lines.SpansSound(g[n - 1]);
      var h, row := HorizontalSpans(g, n - 1), RowSpans(g, n - 1);
      forall i, j | 0 <= i < j < |h + row|
        ensures Precedes((h + row)[i], (h + row)[j])
      {
        if j < |h| {
          assert (h + row)[i] == h[i] && (h + row)[j] == h[j];
        } else if i < |h| {
          assert (h + row)[i] == h[i] && (h + row)[j] == row[j - |h|];
        } else {
          assert (h + row)[i] == row[i - |h|] && (h + row)[j] == row[j - |h|];
        }
      }
    }
  }

  lemma {:induction false} VerticalSpansOrdered(g: Grid, n: nat)
    requires Rectangular(g) && n <= Width(g)
    ensures forall i, j :: 0 <= i < j < |VerticalSpans(g, n)| ==>
      Precedes(VerticalSpans(g, n)[i], VerticalSpans(g, n)[j])
  {
    if n > 0 {
      VerticalSpansOrdered(g, n - 1);
      VerticalSpansLegal(g, n - 1);
      ColumnSpansLegal(g, n - 1);
      Lines.SpansSound(Column(g, n - 1));
      var v, col := VerticalSpans(g, n - 1), ColumnSpans(g, n - 1);
      forall i, j | 0 <= i < j < |v + col|
        ensures Precedes((v + col)[i], (v + col)[j])
      {
        if j < |v| {
          assert (v + col)[i] == v[i] && (v + col)[j] == v[j];
        } else if i < |v| {
          assert (v + col)[i] == v[i] && (v + col)[j] == col[j - |v|];
        } else {
          assert (v + col)[i] == col[i - |v|] && (v + col)[j] == col[j - |v|];
        }
      }
    }
  }

  /**
   * Bridge ids follow the scan: every horizontal bridge comes before every vertical
   * one, horizontal bridges row by row and left to right, vertical ones column by
   * column and top to bottom. In particular no span is listed twice.
   */
  lemma AllSpansOrdered(g: Grid)
    requires Rectangular(g)
    ensures forall i, j :: 0 <= i < j < |AllSpans(g)| ==> Precedes(AllSpans(g)[i], AllSpans(g)[j])
  {
    var h, v := HorizontalSpans(g, |g|), VerticalSpans(g, Width(g));
    HorizontalSpansOrdered(g, |g|);
    VerticalSpansOrdered(g, Width(g));
    HorizontalSpansLegal(g, |g|);
    VerticalSpansLegal(g, Width(g));
    forall i, j | 0 <= i < j < |h + v|
      ensures Precedes((h + v)[i], (h + v)[j])
    {
      if j < |h| {
        assert (h + v)[i] == h[i] && (h + v)[j] == h[j];
      } else if i < |h| {
        assert (h + v)[i] == h[i] && (h + v)[j] == v[j - |h|];
      } else {
        assert (h + v)[i] == v[i - |h|] && (h + v)[j] == v[j - |h|];
      }
    }
  }

  lemma {:induction false} RowSpansIncluded(g: Grid, r: nat, n: nat)
    requires Rectangular(g) && r < n <= |g|
    ensures forall s :: s in RowSpans(g, r) ==> s in HorizontalSpans(g, n)
  {
    if r < n - 1 {
      RowSpansIncluded(g, r, n - 1);
    }
  }

  lemma {:induction false} ColumnSpansIncluded(g: Grid, c: nat, n: nat)
    requires Rectangular(g) && c < n <= Width(g)
    ensures forall s :: s in ColumnSpans(g, c) ==> s in VerticalSpans(g, n)
  {
    if c < n - 1 {
      ColumnSpansIncluded(g, c, n - 1);
    }
  }

  /** Conversely, every legal bridge of the puzzle is one of the listed candidates. */
  lemma AllSpansComplete(g: Grid, s: Span)
    requires Rectangular(g) && Legal(g, s)
    ensures s in AllSpans(g)
  {
    InteriorSpec(s.start, s.end, s.horizontal);
    if s.horizontal {
      var r := s.start.0;
      var (a, b) := (s.start.1, s.end.1);
      forall j | a < j < b
        ensures g[r][j] == 0
      {
        assert (r, j) in Interior(s.start, s.end, true);
      }
      Lines.SpansComplete(g[r], a, b);
      var ps := Lines.Spans(g[r]);
      var k :| 0 <= k < |ps| && ps[k] == (a, b);
      assert RowSpans(g, r)[k] == s;
      RowSpansIncluded(g, r, |g|);
    } else {
      var c := s.start.1;
      var (a, b) := (s.start.0, s.end.0);
      var col := Column(g, c);
      forall j | a < j < b
        ensures col[j] == 0
      {
        assert (j, c) in Interior(s.start, s.end, false);
      }
      Lines.SpansComplete(col, a, b);
      var ps := Lines.Spans(col);
      var k :| 0 <= k < |ps| && ps[k] == (a, b);
      assert ColumnSpans(g, c)[k] == s;
      ColumnSpansIncluded(g, c, Width(g));
    }
  }
}
