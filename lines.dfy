/** The lines matrix_print_live prints, as a function of the columns: one
    cell per record, column by column, x first, then y, then the column's
    slots in order; what the lines contain and when they are in increasing
    order. */
module Lines {
  import opened ColumnStore
  import opened SparseMatrix
  import opened Life

  /** The lines printed for one column: its cells, slot by slot. */
  function ColumnCells(x: int, y: int, s: seq<Node>): (r: seq<Cell>)
    ensures |r| == |s| && forall t | 0 <= t < |s| :: r[t] == Cell(x, y, s[t].z)
  {
    seq(|s|, t requires 0 <= t < |s| => Cell(x, y, s[t].z))
  }

  /** The lines printed for a sorted column are the same whichever sorted
      arrangement of its records the sort leaves, repeated depths included:
      only the depths are printed. */
  lemma SortedColumnLines(x: int, y: int, a: seq<Node>, b: seq<Node>)
    requires SortedZ(a) && SortedZ(b) && multiset(a) == multiset(b)
    ensures ColumnCells(x, y, a) == ColumnCells(x, y, b)
  {
    SortedSameDepths(a, b);
    assert forall t | 0 <= t < |a| :: a[t].z == Zs(a)[t];
  }

  /** The records of column (x, y); an absent column has none. */
  ghost function Column(cols: Columns, x: int, y: int): seq<Node>
  {
    if (x, y) in cols then cols[(x, y)] else []
  }

  /** The lines printed for the columns (i, 0) to (i, j - 1). */
  ghost function RowCells(cols: Columns, i: int, j: nat): seq<Cell>
  {
    if j == 0 then [] else RowCells(cols, i, j - 1) + ColumnCells(i, j - 1, Column(cols, i, j - 1))
  }

  /** The lines printed for the rows 0 to i - 1. */
  ghost function GridCells(cols: Columns, side: nat, i: nat): seq<Cell>
  {
    if i == 0 then [] else GridCells(cols, side, i - 1) + RowCells(cols, i - 1, side)
  }

  /** Lexicographic order on cells: x, then y, then z. */
  predicate LexLess(a: Cell, b: Cell)
  {
    a.x < b.x || (a.x == b.x && (a.y < b.y || (a.y == b.y && a.z < b.z)))
  }

  /** Strictly increasing, hence without repeats. */
  predicate Increasing(s: seq<Cell>)
  {
    forall a, b | 0 <= a < b < |s| :: LexLess(s[a], s[b])
  }

  /** A column in strictly increasing depth order. */
  predicate StrictlySorted(s: seq<Node>)
  {
    forall a, b | 0 <= a < b < |s| :: s[a].z < s[b].z
  }

  lemma IncreasingConcat(p: seq<Cell>, q: seq<Cell>)
    requires Increasing(p) && Increasing(q)
    requires forall u, v | 0 <= u < |p| && 0 <= v < |q| :: LexLess(p[u], q[v])
    ensures Increasing(p + q)
  {
  }

  // ---------------------------------------------------------------------
  // What the listing contains.

  /** A cell is listed for column (x, y) exactly when it lies in that column
      and the column has a record of its depth. */
  lemma ColumnCellsMember(x: int, y: int, s: seq<Node>, c: Cell)
    ensures c in ColumnCells(x, y, s) <==> c.x == x && c.y == y && HasZ(s, c.z)
  {
    var cells := ColumnCells(x, y, s);
    if c.x == x && c.y == y && HasZ(s, c.z) {
      var t :| 0 <= t < |s| && s[t].z == c.z;
      assert cells[t] == c;
    }
  }

  /** A cell is listed in row i up to column j - 1 exactly when it lies in one
      of those columns and is listed for it. */
  lemma {:induction false} RowCellsMember(cols: Columns, i: int, j: nat, c: Cell)
    ensures c in RowCells(cols, i, j) <==>
      c.x == i && 0 <= c.y < j && c in ColumnCells(i, c.y, Column(cols, i, c.y))
  {
    if j > 0 {
      RowCellsMember(cols, i, j - 1, c);
      ColumnCellsMember(i, j - 1, Column(cols, i, j - 1), c);
      assert RowCells(cols, i, j) == RowCells(cols, i, j - 1) + ColumnCells(i, j - 1, Column(cols, i, j - 1));
    }
  }

  /** Row i lists only cells with x coordinate i. */
  lemma {:induction false} RowCellsRow(cols: Columns, i: int, j: nat, c: Cell)
    ensures c in RowCells(cols, i, j) ==> c.x == i
  {
    if j > 0 {
      RowCellsRow(cols, i, j - 1, c);
      assert RowCells(cols, i, j) == RowCells(cols, i, j - 1) + ColumnCells(i, j - 1, Column(cols, i, j - 1));
    }
  }

  lemma GridCellsSplit(cols: Columns, side: nat, i: nat, c: Cell)
    requires i > 0
    ensures c in GridCells(cols, side, i) <==> c in GridCells(cols, side, i - 1) || c in RowCells(cols, i - 1, side)
  {
  }

  /** A cell listed in rows 0 to i - 1 lies in one of those rows, and its row
      lists it. */
  lemma {:induction false} GridCellsListed(cols: Columns, side: nat, i: nat, c: Cell)
    ensures c in GridCells(cols, side, i) ==> 0 <= c.x < i && c in RowCells(cols, c.x, side)
  {
    if i > 0 && c in GridCells(cols, side, i) {
      GridCellsSplit(cols, side, i, c);
      if c in RowCells(cols, i - 1, side) {
        RowCellsRow(cols, i - 1, side, c);
      } else {
        GridCellsListed(cols, side, i - 1, c);
      }
    }
  }

  /** A cell that its row lists, in one of the rows 0 to i - 1, is listed in
      those rows. */
  lemma {:induction false} GridCellsLists(cols: Columns, side: nat, i: nat, c: Cell)
    ensures 0 <= c.x < i && c in RowCells(cols, c.x, side) ==> c in GridCells(cols, side, i)
  {
    if i > 0 {
      GridCellsLists(cols, side, i - 1, c);
      GridCellsSplit(cols, side, i, c);
    }
  }

  /** A cell is listed exactly when its column has a record of its depth. */
  lemma ListedIff(cols: Columns, side: nat, c: Cell)
    ensures c in GridCells(cols, side, side) <==>
      0 <= c.x < side && 0 <= c.y < side && HasZ(Column(cols, c.x, c.y), c.z)
  {
    GridCellsListed(cols, side, side, c);
    GridCellsLists(cols, side, side, c);
    RowCellsMember(cols, c.x, side, c);
    ColumnCellsMember(c.x, c.y, Column(cols, c.x, c.y), c);
  }


  // ---------------------------------------------------------------------
  // The order of the listing.

  lemma {:induction false} RowCellsIncreasing(cols: Columns, i: int, j: nat)
    requires forall y | 0 <= y < j :: StrictlySorted(Column(cols, i, y))
    ensures Increasing(RowCells(cols, i, j))
    ensures forall t | 0 <= t < |RowCells(cols, i, j)| ::
      RowCells(cols, i, j)[t].x == i && RowCells(cols, i, j)[t].y < j
  {
    if j > 0 {
      RowCellsIncreasing(cols, i, j - 1);
      var p, q := RowCells(cols, i, j - 1), ColumnCells(i, j - 1, Column(cols, i, j - 1));
      assert Increasing(q);
      IncreasingConcat(p, q);
    }
  }

  lemma {:induction false} GridCellsIncreasing(cols: Columns, side: nat, i: nat)
    requires forall x, y | 0 <= x < i && 0 <= y < side :: StrictlySorted(Column(cols, x, y))
    ensures Increasing(GridCells(cols, side, i))
    ensures forall t | 0 <= t < |GridCells(cols, side, i)| :: GridCells(cols, side, i)[t].x < i
  {
    if i > 0 {
      GridCellsIncreasing(cols, side, i - 1);
      RowCellsIncreasing(cols, i - 1, side);
      IncreasingConcat(GridCells(cols, side, i - 1), RowCells(cols, i - 1, side));
    }
  }

  /** Listing one more slot of a column. */
  lemma ColumnCellsSnoc(x: int, y: int, s: seq<Node>, k: nat)
    requires k < |s|
    ensures ColumnCells(x, y, s[..k + 1]) == ColumnCells(x, y, s[..k]) + [Cell(x, y, s[k].z)]
  {
  }

  /** The listing of rows up to i does not depend on the rows from i on. */
  lemma {:induction false} GridCellsFrame(cols: Columns, cols': Columns, side: nat, i: nat)
    requires forall x, y | 0 <= x < i && 0 <= y < side :: Column(cols', x, y) == Column(cols, x, y)
    ensures GridCells(cols', side, i) == GridCells(cols, side, i)
  {
    if i > 0 {
      GridCellsFrame(cols, cols', side, i - 1);
      RowCellsSame(cols, cols', i - 1, side);
    }
  }

  lemma {:induction false} RowCellsSame(cols: Columns, cols': Columns, i: int, j: nat)
    requires forall y | 0 <= y < j :: Column(cols', i, y) == Column(cols, i, y)
    ensures RowCells(cols', i, j) == RowCells(cols, i, j)
  {
    if j > 0 {
      RowCellsSame(cols, cols', i, j - 1);
    }
  }
}
