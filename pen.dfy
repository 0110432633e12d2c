/**
 * The glyph preview: the pen that collects a font glyph's outline as
 * drawing paths, and the arrangement of the previews on a grid of
 * `cols` columns.
 */
module Pen {
  import opened Geometry

  datatype Code = MOVETO | LINETO | CURVE4

  /** One recorded drawing command: its code and its point. */
  datatype Entry = Entry(code: Code, p: Point)

  type Path = seq<Entry>

  /** The pen's state as a value: finished paths and the path being drawn. */
  datatype PenState = PenState(paths: seq<Path>, current: Path)

  function Flatten(ps: seq<Path>): seq<Entry> {
    if ps == [] then [] else Flatten(ps[..|ps| - 1]) + ps[|ps| - 1]
  }

  /** Every entry the pen holds, in order. */
  function Recorded(s: PenState): seq<Entry> {
    Flatten(s.paths) + s.current
  }

  /** No finished path is empty. */
  predicate NoEmptyPath(s: PenState) {
    forall i :: 0 <= i < |s.paths| ==> s.paths[i] != []
  }

  function ClosePathSpec(s: PenState): PenState {
    if s.current != [] then PenState(s.paths + [s.current], []) else s
  }

  function MoveToSpec(s: PenState, p: Point): PenState {
    PenState(ClosePathSpec(s).paths, [Entry(MOVETO, p)])
  }

  function LineToSpec(s: PenState, p: Point): PenState {
    PenState(s.paths, s.current + [Entry(LINETO, p)])
  }

  function CurveToOneSpec(s: PenState, p1: Point, p2: Point, p3: Point): PenState {
    PenState(s.paths, s.current + [Entry(CURVE4, p1), Entry(CURVE4, p2), Entry(CURVE4, p3)])
  }

  lemma FlattenSnoc(ps: seq<Path>, p: Path)
    ensures Flatten(ps + [p]) == Flatten(ps) + p
  {
    assert (ps + [p])[..|ps + [p]| - 1] == ps;
  }

  /** Closing a path keeps every entry, in order, and leaves no current path. */
  lemma {:induction false} ClosePathKeepsEntries(s: PenState)
    ensures Recorded(ClosePathSpec(s)) == Recorded(s)
    ensures ClosePathSpec(s).current == []
    ensures NoEmptyPath(s) ==> NoEmptyPath(ClosePathSpec(s))
  {
    if s.current != [] {
      FlattenSnoc(s.paths, s.current);
    }
  }

  /** Moving records exactly one MOVETO entry after everything held so far and starts a new path with it. */
  lemma {:induction false} MoveToRecords(s: PenState, p: Point)
    ensures Recorded(MoveToSpec(s, p)) == Recorded(s) + [Entry(MOVETO, p)]
    ensures MoveToSpec(s, p).current == [Entry(MOVETO, p)]
    ensures NoEmptyPath(s) ==> NoEmptyPath(MoveToSpec(s, p))
  {
    ClosePathKeepsEntries(s);
  }

  /** Lines and curves add to the current path only. */
  lemma LineAndCurveRecord(s: PenState, p1: Point, p2: Point, p3: Point)
    ensures Recorded(LineToSpec(s, p1)) == Recorded(s) + [Entry(LINETO, p1)]
    ensures Recorded(CurveToOneSpec(s, p1, p2, p3)) == Recorded(s) + [Entry(CURVE4, p1), Entry(CURVE4, p2), Entry(CURVE4, p3)]
    ensures LineToSpec(s, p1).paths == s.paths && CurveToOneSpec(s, p1, p2, p3).paths == s.paths
  {
  }

  /** Asking for the paths twice gives the same paths. */
  lemma {:induction false} GetPathsIdempotent(s: PenState)
    ensures ClosePathSpec(ClosePathSpec(s)) == ClosePathSpec(s)
    ensures Flatten(ClosePathSpec(s).paths) == Recorded(s)
  {
    ClosePathKeepsEntries(s);
  }

  /**
   * The fontTools pen of the preview script. `history` is every command
   * recorded since construction; the pen never loses or reorders one.
   */
  class MatplotlibPen {
    var paths: seq<Path>
    var currentPath: Path
    ghost var history: seq<Entry>

    function State(): PenState
      reads this
    {
      PenState(paths, currentPath)
    }

    ghost predicate Valid()
      reads this
    {
      Recorded(State()) == history && NoEmptyPath(State())
    }

    constructor()
      ensures Valid() && paths == [] && currentPath == [] && history == []
    {
      paths := [];
      currentPath := [];
      history := [];
    }

    method ClosePath()
      requires Valid()
      modifies this
      ensures Valid() && State() == ClosePathSpec(old(State())) && history == old(history)
    {
      ClosePathKeepsEntries(State());
      if |currentPath| > 0 {
        paths := paths + [currentPath];
        currentPath := [];
      }
    }

    method MoveTo(p0: Point)
      requires Valid()
      modifies this
      ensures Valid() && State() == MoveToSpec(old(State()), p0)
      ensures history == old(history) + [Entry(MOVETO, p0)]
    {
      MoveToRecords(State(), p0);
      if |currentPath| > 0 {
        ClosePath();
      }
      currentPath := [Entry(MOVETO, p0)];
      history := history + [Entry(MOVETO, p0)];
    }

    method LineTo(p1: Point)
      requires Valid()
      modifies this
      ensures Valid() && State() == LineToSpec(old(State()), p1)
      ensures history == old(history) + [Entry(LINETO, p1)]
    {
      currentPath := currentPath + [Entry(LINETO, p1)];
      history := history + [Entry(LINETO, p1)];
    }

    method CurveToOne(p1: Point, p2: Point, p3: Point)
      requires Valid()
      modifies this
      ensures Valid() && State() == CurveToOneSpec(old(State()), p1, p2, p3)
      ensures history == old(history) + [Entry(CURVE4, p1), Entry(CURVE4, p2), Entry(CURVE4, p3)]
    {
      currentPath := currentPath + [Entry(CURVE4, p1)];
      currentPath := currentPath + [Entry(CURVE4, p2)];
      currentPath := currentPath + [Entry(CURVE4, p3)];
      history := history + [Entry(CURVE4, p1), Entry(CURVE4, p2), Entry(CURVE4, p3)];
    }

    /** Flushes the current path; the result holds every recorded command. */
    method GetPaths() returns (r: seq<Path>)
      requires Valid()
      modifies this
      ensures Valid() && State() == ClosePathSpec(old(State())) && history == old(history)
      ensures r == paths && currentPath == [] && Flatten(r) == history
    {
      if |currentPath| > 0 {
        ClosePath();
      }
      ClosePathKeepsEntries(State());
      r := paths;
    }
  }

  // ---------------------------------------------------------------------
  // The preview grid
  // ---------------------------------------------------------------------

  /** `(n + cols - 1) // cols`: enough rows for `n` previews. */
  function Rows(n: nat, cols: nat): nat
    requires cols > 0
  {
    (n + cols - 1) / cols
  }

  /** `divmod(i, cols)`. */
  function Cell(i: nat, cols: nat): (nat, nat)
    requires cols > 0
  {
    (i / cols, i % cols)
  }

  /** The rows are the fewest that hold `n` previews: `n` fits, one row fewer does not. */
  lemma RowsIsCeiling(n: nat, cols: nat)
    requires cols > 0
    ensures Rows(n, cols) * cols >= n
    ensures n > 0 ==> (Rows(n, cols) - 1) * cols < n
    ensures Rows(n, cols) * cols - n < cols
  {
    var r := Rows(n, cols);
    var m := (n + cols - 1) % cols;
    assert n + cols - 1 == r * cols + m;
  }

  /** Every cell index below `rows * cols` lands inside the grid, and different indices land in different cells. */
  lemma CellsInGrid(n: nat, cols: nat, i: nat, j: nat)
    requires cols > 0
    requires i < Rows(n, cols) * cols && j < Rows(n, cols) * cols
    ensures Cell(i, cols).0 < Rows(n, cols) && Cell(i, cols).1 < cols
    ensures i != j ==> Cell(i, cols) != Cell(j, cols)
  {
    var r := Rows(n, cols);
    assert i == (i / cols) * cols + i % cols;
    assert j == (j / cols) * cols + j % cols;
    assert (i / cols) * cols <= i < r * cols;
  }

  /**
   * The two loops of the preview: the cell of every glyph, in glyph order,
   * and then the cells left empty and hidden.
   */
  method LayOutPreviews(n: nat, cols: nat) returns (drawn: seq<(nat, nat)>, hidden: seq<(nat, nat)>)
    requires cols > 0
    ensures |drawn| == n && |hidden| == Rows(n, cols) * cols - n
    ensures forall i :: 0 <= i < n ==> drawn[i] == Cell(i, cols)
    ensures forall k :: 0 <= k < |hidden| ==> hidden[k] == Cell(n + k, cols)
  {
    var rows := (n + cols - 1) / cols;
    var total := rows * cols;
    assert n <= total by {
      RowsIsCeiling(n, cols);
    }
    drawn := [];
    for i := 0 to n
      invariant |drawn| == i
      invariant forall k :: 0 <= k < i ==> drawn[k] == Cell(k, cols)
    {
      drawn := drawn + [Cell(i, cols)];
    }
    hidden := [];
    for i := n to total
      invariant |hidden| == i - n
      invariant forall k :: 0 <= k < i - n ==> hidden[k] == Cell(n + k, cols)
    {
      hidden := hidden + [Cell(i, cols)];
    }
  }
}
