/** The output of matrix_print_live: every column is sorted by depth in place,
    then the cells are listed column by column, x first, then y, then the
    column's slots in order. After the generation loop the matrix holds only
    live records, so the listing is exactly the live cells, each once, in
    lexicographic (x, y, z) order. In the program the call to matrix_print_live
    sits inside the same comment block as the generation loop, so this models
    commented-out code as well. */
module Listing {
  import opened ColumnStore
  import opened SparseMatrix
  import opened Life
  import opened Generation
  import opened Lines

  /** The listing of columns that describe `live` is exactly `live`. */
  lemma ListingIsLive(cols: Columns, side: nat, live: set<Cell>)
    requires Holds(cols, side, live)
    ensures forall c :: c in GridCells(cols, side, side) <==> c in live
  {
    forall c ensures c in GridCells(cols, side, side) <==> c in live {
      ListedIff(cols, side, c);
      if c in GridCells(cols, side, side) {
        var col := cols[(c.x, c.y)];
        var t :| 0 <= t < |col| && col[t].z == c.z;
        assert InGrid(c, side);
        assert RecordOf(cols, c) == col[IndexOfZ(col, c.z)];
      }
    }
  }

  /** Sorting a column without repeated depths leaves it strictly sorted. */
  lemma SortedStrict(s: seq<Node>)
    requires SortedZ(s) && UniqueZ(s)
    ensures StrictlySorted(s)
  {
  }

  /** Sorting a column keeps its records, so the depths it holds. */
  lemma SortKeepsDepths(s: seq<Node>, z: int)
    ensures HasZ(SortByZ(s), z) <==> HasZ(s, z)
  {
    var r := SortByZ(s);
    if HasZ(s, z) {
      var t :| 0 <= t < |s| && s[t].z == z;
      SameRecordsSameDepths(s, r, t);
    }
    if HasZ(r, z) {
      var t :| 0 <= t < |r| && r[t].z == z;
      SameRecordsSameDepths(r, s, t);
    }
  }

  /** Sorting a column keeps it free of repeated depths, of dead records and of
      depths outside the grid. */
  lemma SortKeepsColumn(s: seq<Node>, side: nat)
    requires UniqueZ(s) && forall t | 0 <= t < |s| :: !s[t].isDead && 0 <= s[t].z < side
    ensures UniqueZ(SortByZ(s)) && StrictlySorted(SortByZ(s))
    ensures forall t | 0 <= t < |SortByZ(s)| :: !SortByZ(s)[t].isDead && 0 <= SortByZ(s)[t].z < side
  {
    var r := SortByZ(s);
    forall t | 0 <= t < |r| ensures !r[t].isDead && 0 <= r[t].z < side {
      SameRecordsSameDepths(r, s, t);
    }
    PermutationUnique(s, r);
    SortedStrict(r);
  }

  /** Rearranging a column without repeated depths introduces none. */
  lemma PermutationUnique(s: seq<Node>, r: seq<Node>)
    requires UniqueZ(s) && multiset(r) == multiset(s)
    ensures UniqueZ(r)
  {
    forall a, b | 0 <= a < b < |r| ensures r[a].z != r[b].z {
      SameRecordsSameDepths(r, s, a);
      SameRecordsSameDepths(r, s, b);
      var u :| 0 <= u < |s| && s[u] == r[a];
      var v :| 0 <= v < |s| && s[v] == r[b];
      if u == v {
        TwoOccurrences(r, a, b);
        ListNoRepeats(s, u);
        assert false;
      }
    }
  }

  /** Equal records in two slots occur at least twice. */
  lemma TwoOccurrences(r: seq<Node>, a: nat, b: nat)
    requires a < b < |r| && r[a] == r[b]
    ensures multiset(r)[r[a]] >= 2
  {
    assert r == r[..a] + [r[a]] + r[a + 1..b] + [r[b]] + r[b + 1..];
  }

  /** In a column without repeated depths each record occurs once. */
  lemma ListNoRepeats(s: seq<Node>, u: nat)
    requires UniqueZ(s) && u < |s|
    ensures multiset(s)[s[u]] == 1
  {
    var head, tail := s[..u], s[u + 1..];
    assert s == head + [s[u]] + tail;
    forall t | 0 <= t < |head| ensures head[t] != s[u] {
      assert head[t] == s[t];
    }
    forall t | 0 <= t < |tail| ensures tail[t] != s[u] {
      assert tail[t] == s[u + 1 + t];
    }
    assert s[u] !in head && s[u] !in tail;
  }

  /** Sorting every column keeps the columns describing `live`. */
  lemma SortKeepsHolds(cols: Columns, cols': Columns, side: nat, live: set<Cell>)
    requires Holds(cols, side, live)
    requires forall x, y | 0 <= x < side && 0 <= y < side :: (x, y) in cols' && cols'[(x, y)] == SortByZ(cols[(x, y)])
    ensures Holds(cols', side, live)
    ensures forall x, y | 0 <= x < side && 0 <= y < side :: StrictlySorted(cols'[(x, y)])
  {
    forall x, y | 0 <= x < side && 0 <= y < side
      ensures UniqueZ(cols'[(x, y)]) && StrictlySorted(cols'[(x, y)])
      ensures forall t | 0 <= t < |cols'[(x, y)]| :: !cols'[(x, y)][t].isDead && 0 <= cols'[(x, y)][t].z < side
    {
      SortKeepsColumn(cols[(x, y)], side);
    }
    forall c | InGrid(c, side) ensures IsLive(cols', c) <==> IsLive(cols, c) {
      SortKeepsDepths(cols[(c.x, c.y)], c.z);
    }
  }

  // ---------------------------------------------------------------------
  // The printing loop.

  /** Columns before (i, j), x first, then y, are sorted; the rest are as
      they were. */
  ghost predicate SortedUpTo(before: Columns, after: Columns, side: nat, i: int, j: int)
  {
    forall x, y | 0 <= x < side && 0 <= y < side ::
      && (x, y) in before && (x, y) in after
      && after[(x, y)] == if x < i || (x == i && y < j) then SortByZ(before[(x, y)]) else before[(x, y)]
  }

  /** Sorting and listing column (i, j) moves the printing loop one column on. */
  lemma PrintStep(before: Columns, cols: Columns, cols': Columns, side: nat, i: int, j: int,
                  row: seq<Cell>, cells: seq<Cell>)
    requires 0 <= i < side && 0 <= j < side && SortedUpTo(before, cols, side, i, j)
    requires cols' == cols[(i, j) := SortByZ(cols[(i, j)])]
    requires row == RowCells(cols, i, j) && cells == ColumnCells(i, j, cols'[(i, j)])
    ensures SortedUpTo(before, cols', side, i, j + 1)
    ensures row + cells == RowCells(cols', i, j + 1)
  {
    SortedStep(before, cols, cols', side, i, j);
    RowCellsSame(cols, cols', i, j);
    assert Column(cols', i, j) == cols'[(i, j)];
  }

  /** Sorting column (i, j) moves the sorted frontier one column on. */
  lemma SortedStep(before: Columns, cols: Columns, cols': Columns, side: nat, i: int, j: int)
    requires 0 <= i < side && 0 <= j < side && SortedUpTo(before, cols, side, i, j)
    requires cols' == cols[(i, j) := SortByZ(cols[(i, j)])]
    ensures SortedUpTo(before, cols', side, i, j + 1)
  {
  }

  /** One column: sort it, then list its cells. */
  method PrintColumn(m: Matrix, i: int, j: int) returns (cells: seq<Cell>)
    requires m.Valid() && 0 <= i < m.side && 0 <= j < m.side
    modifies m.Repr
    ensures m.Valid() && m.Repr == old(m.Repr)
    ensures m.Cols == old(m.Cols)[(i, j) := SortByZ(old(m.Cols[(i, j)]))]
    ensures cells == ColumnCells(i, j, m.Cols[(i, j)])
  {
    var da := m.Get(i, j);
    if da == null {
      return [];
    }
    m.SortColumn(i, j);
    cells := ListColumn(da, i, j);
  }

  /** The cells of column (x, y), one per record, in slot order. */
  method ListColumn(da: DynamicArray, x: int, y: int) returns (cells: seq<Cell>)
    requires da.Valid()
    ensures cells == ColumnCells(x, y, da.Contents())
  {
    cells := [];
    for k := 0 to da.used
      invariant cells == ColumnCells(x, y, da.Contents()[..k])
    {
      ColumnCellsSnoc(x, y, da.Contents(), k);
      cells := cells + [Cell(x, y, da.data[k].z)];
    }
    assert da.Contents()[..da.used] == da.Contents();
  }

  /** Sort and list column (i, j) of the row being printed. */
  method PrintNext(m: Matrix, i: int, j: int, ghost before: Columns, row: seq<Cell>) returns (row': seq<Cell>)
    requires m.Valid() && 0 <= i < m.side && 0 <= j < m.side
    requires SortedUpTo(before, m.Cols, m.side, i, j) && row == RowCells(m.Cols, i, j)
    modifies m.Repr
    ensures m.Valid() && m.Repr == old(m.Repr)
    ensures SortedUpTo(before, m.Cols, m.side, i, j + 1) && row' == RowCells(m.Cols, i, j + 1)
  {
    ghost var cols := m.Cols;
    var cells := PrintColumn(m, i, j);
    PrintStep(before, cols, m.Cols, m.side, i, j, row, cells);
    row' := row + cells;
  }

  /** One row: columns (i, 0) to (i, side - 1). */
  method PrintRow(m: Matrix, i: int, ghost before: Columns) returns (row: seq<Cell>)
    requires m.Valid() && 0 <= i < m.side && SortedUpTo(before, m.Cols, m.side, i, 0)
    modifies m.Repr
    ensures m.Valid() && m.Repr == old(m.Repr)
    ensures SortedUpTo(before, m.Cols, m.side, i + 1, 0)
    ensures row == RowCells(m.Cols, i, m.side)
  {
    row := [];
    for j := 0 to m.side
      invariant m.Valid() && m.Repr == old(m.Repr)
      invariant SortedUpTo(before, m.Cols, m.side, i, j)
      invariant row == RowCells(m.Cols, i, j)
    {
      row := PrintNext(m, i, j, before, row);
    }
    RowDone(before, m.Cols, m.side, i);
  }

  /** The sorted frontier at the end of row i is the start of row i + 1. */
  lemma RowDone(before: Columns, cols: Columns, side: nat, i: int)
    requires SortedUpTo(before, cols, side, i, side)
    ensures SortedUpTo(before, cols, side, i + 1, 0)
  {
  }

  /** Printing row i extends the listing of the rows before it. */
  lemma RowStep(before: Columns, cols: Columns, cols': Columns, side: nat, i: nat,
                out: seq<Cell>, row: seq<Cell>)
    requires i < side && SortedUpTo(before, cols, side, i, 0) && SortedUpTo(before, cols', side, i + 1, 0)
    requires out == GridCells(cols, side, i) && row == RowCells(cols', i, side)
    ensures out + row == GridCells(cols', side, i + 1)
  {
    GridCellsFrame(cols, cols', side, i);
  }

  /** matrix_print_live, with the printed lines returned in order: one line
      per record of every column, each column sorted by depth first. When the
      matrix holds only live records, as it does after the generation loop,
      the lines are exactly the live cells, in increasing order. */
  method PrintLive(m: Matrix, ghost live: set<Cell>) returns (out: seq<Cell>)
    requires m.Valid()
    modifies m.Repr
    ensures m.Valid() && m.Repr == old(m.Repr)
    ensures forall x, y | 0 <= x < m.side && 0 <= y < m.side :: m.Cols[(x, y)] == SortByZ(old(m.Cols[(x, y)]))
    ensures out == GridCells(m.Cols, m.side, m.side)
    ensures forall c :: c in out <==> 0 <= c.x < m.side && 0 <= c.y < m.side && HasZ(old(m.Cols[(c.x, c.y)]), c.z)
    ensures Holds(old(m.Cols), m.side, live) ==>
              Holds(m.Cols, m.side, live) && (forall c :: c in out <==> c in live) && Increasing(out)
  {
    ghost var before := m.Cols;
    out := [];
    for i := 0 to m.side
      invariant m.Valid() && m.Repr == old(m.Repr)
      invariant SortedUpTo(before, m.Cols, m.side, i, 0)
      invariant out == GridCells(m.Cols, m.side, i)
    {
      ghost var cols := m.Cols;
      var row := PrintRow(m, i, before);
      RowStep(before, cols, m.Cols, m.side, i, out, row);
      out := out + row;
    }
    ListingDone(before, m.Cols, m.side, live);
  }

  /** What the finished printing loop has produced. */
  lemma ListingDone(before: Columns, cols: Columns, side: nat, live: set<Cell>)
    requires SortedUpTo(before, cols, side, side, 0)
    ensures forall x, y | 0 <= x < side && 0 <= y < side :: cols[(x, y)] == SortByZ(before[(x, y)])
    ensures forall c :: c in GridCells(cols, side, side) <==>
              0 <= c.x < side && 0 <= c.y < side && HasZ(before[(c.x, c.y)], c.z)
    ensures Holds(before, side, live) ==>
              Holds(cols, side, live) && (forall c :: c in GridCells(cols, side, side) <==> c in live)
              && Increasing(GridCells(cols, side, side))
  {
    ListingRecords(before, cols, side);
    if Holds(before, side, live) {
      SortKeepsHolds(before, cols, side, live);
      ListingIsLive(cols, side, live);
      GridCellsIncreasing(cols, side, side);
    }
  }

  /** Once every column is sorted, the listing holds one line per record. */
  lemma ListingRecords(before: Columns, cols: Columns, side: nat)
    requires SortedUpTo(before, cols, side, side, 0)
    ensures forall c :: c in GridCells(cols, side, side) <==>
              0 <= c.x < side && 0 <= c.y < side && HasZ(before[(c.x, c.y)], c.z)
  {
    forall c: Cell
      ensures c in GridCells(cols, side, side) <==>
                0 <= c.x < side && 0 <= c.y < side && HasZ(before[(c.x, c.y)], c.z)
    {
      ListedIff(cols, side, c);
      if 0 <= c.x < side && 0 <= c.y < side {
        SortKeepsDepths(before[(c.x, c.y)], c.z);
      }
    }
  }
}
