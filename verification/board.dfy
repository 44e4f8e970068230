/** The playing field: `rows * columns` tiles held in an arena indexed by id,
    the fixed six-direction adjacency rule of the constructor, and the four
    edge sets each colour must connect. */
module Boards {
  import opened Limits
  import opened Teams
  import opened Arith
  import opened Sequences

  /** Dimensions the constructor handles: at least one row (with none, the
      red start loop reads past the empty tile vector) and one column, and
      small enough that no `unsigned int` sum in the constructor wraps. */
  predicate ValidDimensions(rows: nat, columns: nat)
  {
    1 <= rows && 1 <= columns && rows * columns + columns <= UINT_RANGE
  }

  /** `class Board`. Tile `k` of the source is `tiles[k]`; its neighbour list
      is not stored but recomputed by `Neighbours`, since it never changes
      after construction. */
  datatype Board = Board(
    rows: nat,
    columns: nat,
    size: nat,
    tiles: seq<Team>,
    blueStarts: seq<nat>,
    blueEnds: seq<nat>,
    redStarts: seq<nat>,
    redEnds: seq<nat>)
  {
    /** What every board the constructor returns satisfies, and what the
        search and the game rely on. */
    predicate WellFormed()
    {
      && ValidDimensions(rows, columns)
      && size == rows * columns
      && |tiles| == size
      && AllBelow(blueStarts, size) && AllBelow(blueEnds, size)
      && AllBelow(redStarts, size) && AllBelow(redEnds, size)
    }

    /** The neighbour list of tile `id`. */
    function NeighboursOf(id: nat): (ns: seq<nat>)
      requires WellFormed() && id < size
      ensures AllBelow(ns, size)
    {
      SizeIsMultiple(rows, columns);
      Neighbours(id, columns, size)
    }

    /** The origin and goal edges of `team`: Blue joins the first column
        to the last, every other value the first row to the last. */
    function StartsOf(team: Team): seq<nat>
    {
      if team == Blue then blueStarts else redStarts
    }

    function EndsOf(team: Team): seq<nat>
    {
      if team == Blue then blueEnds else redEnds
    }
  }

  lemma SizeIsMultiple(rows: nat, columns: nat)
    requires 1 <= columns
    ensures (rows * columns) % columns == 0
  {
    DivModUnique(rows * columns, columns, rows, 0);
  }

  /** Row and column of a tile id. */
  function Row(id: nat, columns: nat): nat
    requires 1 <= columns
  {
    id / columns
  }

  function Col(id: nat, columns: nat): nat
    requires 1 <= columns
  {
    id % columns
  }

  /** The source's boundary tests on an id, restated through its column. */
  lemma GuardFacts(id: nat, columns: nat, size: nat)
    requires 1 <= columns && size % columns == 0 && id < size
    ensures ((id + 1) % columns != 0) == (id % columns + 1 < columns)
    ensures (id + 1) % columns != 0 ==> id + 1 < size && 2 <= columns
    ensures id % columns != 0 ==> 1 <= id && 2 <= columns
  {
    var r, q := id / columns, id % columns;
    Decompose(id, columns);
    if q + 1 < columns {
      DivModUnique(id + 1, columns, r, q + 1);
      if id + 1 == size {
        assert false;
      }
    } else {
      assert id + 1 == (r + 1) * columns + 0;
      DivModUnique(id + 1, columns, r + 1, 0);
    }
  }

  /** The neighbours the constructor pushes onto tile `id`, in push order:
      right, below, down-left, left, above, up-right. Each is guarded by the
      source's boundary test on the id. */
  function Neighbours(id: nat, columns: nat, size: nat): (ns: seq<nat>)
    requires 1 <= columns && size % columns == 0 && id < size
    ensures |ns| <= 6
    ensures forall k :: 0 <= k < |ns| ==> ns[k] < size && ns[k] != id
  {
    GuardFacts(id, columns, size);
    var right := (id + 1) % columns != 0;
    var below := id + columns < size;
    var notFirst := id % columns != 0;
    (if right then [id + 1] else [])
    + (if below then [id + columns] else [])
    + (if notFirst && below then [id + columns - 1] else [])
    + (if notFirst then [id - 1] else [])
    + (if id >= columns then [id - columns] else [])
    + (if id >= columns && right then [id - columns + 1] else [])
  }

  /** No tile is pushed twice onto the same neighbour list. */
  lemma NeighboursDistinct(id: nat, columns: nat, size: nat)
    requires 1 <= columns && size % columns == 0 && id < size
    ensures NoDuplicates(Neighbours(id, columns, size))
  {
    GuardFacts(id, columns, size);
  }

  /** The six directions of the parallelogram grid in (row, column) terms:
      left/right in the same row, below and below-left in the next row,
      above and above-right in the previous one. */
  predicate HexAdjacent(columns: nat, i: nat, j: nat)
    requires 1 <= columns
  {
    var dr := Row(j, columns) - Row(i, columns);
    var dc := Col(j, columns) - Col(i, columns);
    || (dr == 0 && (dc == 1 || dc == -1))
    || (dr == 1 && (dc == 0 || dc == -1))
    || (dr == -1 && (dc == 0 || dc == 1))
  }

  /** Membership in the neighbour list, one disjunct per direction. */
  lemma NeighbourCases(i: nat, j: nat, columns: nat, size: nat)
    requires 1 <= columns && size % columns == 0 && i < size
    ensures j in Neighbours(i, columns, size) <==>
      || (j == i + 1 && (i + 1) % columns != 0)
      || (j == i + columns && i + columns < size)
      || (j == i + columns - 1 && i % columns != 0 && i + columns < size)
      || (j == i - 1 && i % columns != 0)
      || (j == i - columns && i >= columns)
      || (j == i - columns + 1 && i >= columns && (i + 1) % columns != 0)
  {
  }

  /** Row and column of an id given by a decomposition. */
  lemma RowCol(x: nat, c: nat, r: nat, q: nat)
    requires 1 <= c && q < c && x == r * c + q
    ensures Row(x, c) == r && Col(x, c) == q
  {
    DivModUnique(x, c, r, q);
  }

  lemma RightIsAdjacent(i: nat, c: nat)
    requires 1 <= c && (i + 1) % c != 0
    ensures HexAdjacent(c, i, i + 1)
  {
    var r, q := i / c, i % c;
    Decompose(i, c);
    if q + 1 == c {
      RowCol(i + 1, c, r + 1, 0);
    }
    RowCol(i + 1, c, r, q + 1);
  }

  lemma BelowIsAdjacent(i: nat, c: nat)
    requires 1 <= c
    ensures HexAdjacent(c, i, i + c)
  {
    var r, q := i / c, i % c;
    Decompose(i, c);
    assert i + c == (r + 1) * c + q;
    RowCol(i + c, c, r + 1, q);
  }

  lemma DownLeftIsAdjacent(i: nat, c: nat)
    requires 1 <= c && i % c != 0
    ensures HexAdjacent(c, i, i + c - 1)
  {
    var r, q := i / c, i % c;
    Decompose(i, c);
    assert i + c - 1 == (r + 1) * c + (q - 1);
    RowCol(i + c - 1, c, r + 1, q - 1);
  }

  lemma LeftIsAdjacent(i: nat, c: nat)
    requires 1 <= c && i % c != 0
    ensures HexAdjacent(c, i, i - 1)
  {
    var r, q := i / c, i % c;
    Decompose(i, c);
    RowCol(i - 1, c, r, q - 1);
  }

  lemma AboveIsAdjacent(i: nat, c: nat)
    requires 1 <= c && i >= c
    ensures HexAdjacent(c, i, i - c)
  {
    var r, q := i / c, i % c;
    AboveRow(i, c);
    Decompose(i, c);
    assert i - c == (r - 1) * c + q;
    RowCol(i - c, c, r - 1, q);
  }

  lemma UpRightIsAdjacent(i: nat, c: nat)
    requires 1 <= c && i >= c && (i + 1) % c != 0
    ensures HexAdjacent(c, i, i - c + 1)
  {
    var r, q := i / c, i % c;
    AboveRow(i, c);
    Decompose(i, c);
    if q + 1 == c {
      RowCol(i + 1, c, r + 1, 0);
    }
    assert i - c + 1 == (r - 1) * c + (q + 1);
    RowCol(i - c + 1, c, r - 1, q + 1);
  }

  /** Each pushed id is a geometric neighbour. */
  lemma PushedAreAdjacent(i: nat, j: nat, columns: nat, size: nat)
    requires 1 <= columns && size % columns == 0 && i < size
    requires j in Neighbours(i, columns, size)
    ensures HexAdjacent(columns, i, j)
  {
    var c := columns;
    NeighbourCases(i, j, c, size);
    if j == i + 1 && (i + 1) % c != 0 {
      RightIsAdjacent(i, c);
    } else if j == i + c && i + c < size {
      BelowIsAdjacent(i, c);
    } else if j == i + c - 1 && i % c != 0 && i + c < size {
      DownLeftIsAdjacent(i, c);
    } else if j == i - 1 && i % c != 0 {
      LeftIsAdjacent(i, c);
    } else if j == i - c && i >= c {
      AboveIsAdjacent(i, c);
    } else {
      UpRightIsAdjacent(i, c);
    }
  }

  /** A tile past the first row has a row above it. */
  lemma AboveRow(i: nat, c: nat)
    requires 1 <= c && i >= c
    ensures i / c >= 1
  {
    Decompose(i, c);
  }

  /** Two ids differ by their row offset times the width plus their column
      offset. */
  lemma IdOffset(i: nat, j: nat, c: nat)
    requires 1 <= c
    ensures j - i == (Row(j, c) - Row(i, c)) * c + (Col(j, c) - Col(i, c))
  {
    Decompose(i, c);
    Decompose(j, c);
    assert (Row(j, c) - Row(i, c)) * c == Row(j, c) * c - Row(i, c) * c;
  }

  /** Each on-board geometric neighbour is pushed. */
  lemma AdjacentArePushed(i: nat, j: nat, columns: nat, size: nat)
    requires 1 <= columns && size % columns == 0 && i < size && j < size
    requires HexAdjacent(columns, i, j)
    ensures j in Neighbours(i, columns, size)
  {
    var c := columns;
    var dr := Row(j, c) - Row(i, c);
    IdOffset(i, j, c);
    NeighbourCases(i, j, c, size);
    if dr == 0 {
      SameRowPushed(i, j, c, size);
    } else if dr == 1 {
      NextRowPushed(i, j, c, size);
    } else {
      PreviousRowPushed(i, j, c, size);
    }
  }

  lemma SameRowPushed(i: nat, j: nat, c: nat, size: nat)
    requires 1 <= c && size % c == 0 && i < size && j < size
    requires Row(j, c) == Row(i, c) && (Col(j, c) == Col(i, c) + 1 || Col(j, c) == Col(i, c) - 1)
    ensures (j == i + 1 && (i + 1) % c != 0) || (j == i - 1 && i % c != 0)
  {
    IdOffset(i, j, c);
    GuardFacts(i, c, size);
  }

  lemma NextRowPushed(i: nat, j: nat, c: nat, size: nat)
    requires 1 <= c && size % c == 0 && i < size && j < size
    requires Row(j, c) == Row(i, c) + 1 && (Col(j, c) == Col(i, c) || Col(j, c) == Col(i, c) - 1)
    ensures (j == i + c && i + c < size) || (j == i + c - 1 && i % c != 0 && i + c < size)
  {
    var r, q := Row(i, c), Col(i, c);
    IdOffset(i, j, c);
    assert j - i == c + (Col(j, c) - q);
    if Col(j, c) + 1 == q {
      Decompose(i, c);
      assert i + c == (r + 1) * c + q;
      DivModUnique(i + c, c, r + 1, q);
      assert i + c != size;
    }
  }

  lemma PreviousRowPushed(i: nat, j: nat, c: nat, size: nat)
    requires 1 <= c && size % c == 0 && i < size && j < size
    requires Row(j, c) + 1 == Row(i, c) && (Col(j, c) == Col(i, c) || Col(j, c) == Col(i, c) + 1)
    ensures (j == i - c && i >= c) || (j == i - c + 1 && i >= c && (i + 1) % c != 0)
  {
    var r, q := Row(i, c), Col(i, c);
    IdOffset(i, j, c);
    assert j - i == Col(j, c) - q - c;
    GuardFacts(i, c, size);
  }

  /** The id arithmetic of the constructor wires exactly the geometric hex
      neighbours that lie on the board. */
  lemma NeighboursAreHexAdjacent(i: nat, j: nat, columns: nat, size: nat)
    requires 1 <= columns && size % columns == 0 && i < size
    ensures j in Neighbours(i, columns, size) <==> j < size && HexAdjacent(columns, i, j)
  {
    if j in Neighbours(i, columns, size) {
      PushedAreAdjacent(i, j, columns, size);
    }
    if j < size && HexAdjacent(columns, i, j) {
      AdjacentArePushed(i, j, columns, size);
    }
  }

  /** Adjacency is symmetric: down-left pairs with up-right, right with left
      and below with above. */
  lemma NeighboursSymmetric(i: nat, j: nat, columns: nat, size: nat)
    requires 1 <= columns && size % columns == 0 && i < size && j < size
    ensures j in Neighbours(i, columns, size) <==> i in Neighbours(j, columns, size)
  {
    NeighboursAreHexAdjacent(i, j, columns, size);
    NeighboursAreHexAdjacent(j, i, columns, size);
  }

  /** The constructor (`Board::Board`): `rows * columns` unowned tiles,
      tile `k` at index `k`, and the four edge sets. Blue connects the
      first column to the last, Red the first row to the last. */
  method Construct(rows: nat, columns: nat) returns (b: Board)
    requires ValidDimensions(rows, columns)
    ensures b.WellFormed()
    ensures b.rows == rows && b.columns == columns && b.size == rows * columns
    ensures forall k :: 0 <= k < |b.tiles| ==> b.tiles[k] == None
    ensures |b.blueStarts| == rows && forall k :: 0 <= k < rows ==> b.blueStarts[k] == k * columns
    ensures |b.blueEnds| == rows && forall k :: 0 <= k < rows ==> b.blueEnds[k] == k * columns + columns - 1
    ensures |b.redStarts| == columns && forall k :: 0 <= k < columns ==> b.redStarts[k] == k
    ensures |b.redEnds| == columns && forall k :: 0 <= k < columns ==> b.redEnds[k] == b.size - columns + k
  {
    var size := rows * columns;
    var tiles: seq<Team> := [];
    var tile := 0;
    while tile < size
      invariant tile == |tiles| <= size
      invariant forall k :: 0 <= k < |tiles| ==> tiles[k] == None
    {
      tiles := tiles + [None];
      tile := tile + 1;
    }
    var blueStarts := ColumnEdge(rows, columns, 0);
    var blueEnds := ColumnEdge(rows, columns, columns - 1);
    var redStarts := RowEdge(0, columns);
    MulMonotone(1, rows, columns);
    var redEnds := RowEdge(size - columns, size);
    b := Board(rows, columns, size, tiles, blueStarts, blueEnds, redStarts, redEnds);
  }

  /** `for (i = first; i < size; i += columns) push(i)`: one id per row, in
      column `first`. */
  method ColumnEdge(rows: nat, columns: nat, first: nat) returns (s: seq<nat>)
    requires ValidDimensions(rows, columns) && first < columns
    ensures |s| == rows
    ensures forall k :: 0 <= k < rows ==> s[k] == k * columns + first
    ensures AllBelow(s, rows * columns)
  {
    var size := rows * columns;
    s := [];
    var i := first;
    while i < size
      invariant i == |s| * columns + first
      invariant i < UINT_RANGE
      invariant |s| <= rows
      invariant forall k :: 0 <= k < |s| ==> s[k] == k * columns + first
      invariant AllBelow(s, size)
      decreases size - i
    {
      MulStrictCancel(|s|, rows, columns);
      s := s + [i];
      MulMonotone(|s|, rows, columns);
      i := i + columns;
    }
    assert (|s| + 1) * columns == |s| * columns + columns;
    MulStrictCancel(rows, |s| + 1, columns);
  }

  /** `for (i = from; i < to; i++) push(i)`. */
  method RowEdge(from: nat, to: nat) returns (s: seq<nat>)
    requires from <= to
    ensures |s| == to - from
    ensures forall k :: 0 <= k < |s| ==> s[k] == from + k
    ensures AllBelow(s, to)
  {
    s := [];
    var i := from;
    while i < to
      invariant from <= i <= to && i == from + |s|
      invariant forall k :: 0 <= k < |s| ==> s[k] == from + k
    {
      s := s + [i];
      i := i + 1;
    }
  }

  /** A column edge holds exactly the on-board ids of that column. */
  lemma ColumnEdgeMembership(s: seq<nat>, rows: nat, columns: nat, first: nat, x: nat)
    requires 1 <= columns && first < columns && |s| == rows
    requires forall k :: 0 <= k < rows ==> s[k] == k * columns + first
    ensures x in s <==> x < rows * columns && Col(x, columns) == first
  {
    if x in s {
      var k :| 0 <= k < rows && s[k] == x;
      RowCol(x, columns, k, first);
      MulMonotone(k + 1, rows, columns);
    }
    if x < rows * columns && Col(x, columns) == first {
      var k := Row(x, columns);
      Decompose(x, columns);
      MulMonotone(k, k, columns);
      if k >= rows {
        MulMonotone(rows, k, columns);
      }
      assert s[k] == x;
    }
  }

  /** A row edge holds exactly the on-board ids of that row. */
  lemma RowEdgeMembership(s: seq<nat>, rows: nat, columns: nat, row: nat, x: nat)
    requires 1 <= columns && row < rows && |s| == columns
    requires forall k :: 0 <= k < columns ==> s[k] == row * columns + k
    ensures x in s <==> x < rows * columns && Row(x, columns) == row
  {
    if x in s {
      var k :| 0 <= k < columns && s[k] == x;
      RowCol(x, columns, row, k);
      MulMonotone(row + 1, rows, columns);
    }
    if x < rows * columns && Row(x, columns) == row {
      Decompose(x, columns);
      assert s[Col(x, columns)] == x;
    }
  }

  /** The edge sets of a freshly constructed board lie on the four sides:
      Blue's starts in the first column and ends in the last, Red's starts
      in the first row and ends in the last. */
  lemma ConstructedEdges(b: Board, x: nat)
    requires b.WellFormed()
    requires |b.blueStarts| == b.rows && forall k :: 0 <= k < b.rows ==> b.blueStarts[k] == k * b.columns
    requires |b.blueEnds| == b.rows && forall k :: 0 <= k < b.rows ==> b.blueEnds[k] == k * b.columns + b.columns - 1
    requires |b.redStarts| == b.columns && forall k :: 0 <= k < b.columns ==> b.redStarts[k] == k
    requires |b.redEnds| == b.columns && forall k :: 0 <= k < b.columns ==> b.redEnds[k] == b.size - b.columns + k
    ensures x in b.blueStarts <==> x < b.size && Col(x, b.columns) == 0
    ensures x in b.blueEnds <==> x < b.size && Col(x, b.columns) == b.columns - 1
    ensures x in b.redStarts <==> x < b.size && Row(x, b.columns) == 0
    ensures x in b.redEnds <==> x < b.size && Row(x, b.columns) == b.rows - 1
  {
    ColumnEdgeMembership(b.blueStarts, b.rows, b.columns, 0, x);
    ColumnEdgeMembership(b.blueEnds, b.rows, b.columns, b.columns - 1, x);
    RowEdgeMembership(b.redStarts, b.rows, b.columns, 0, x);
    assert (b.rows - 1) * b.columns == b.size - b.columns;
    RowEdgeMembership(b.redEnds, b.rows, b.columns, b.rows - 1, x);
  }
}
