/** The sparse matrix: a `side * side` table of optional columns, slot
    `x + y * side` holding column (x, y) (matrix_struct). */
module SparseMatrix {
  import opened ColumnStore
  import Partition

  /** The abstract contents of a matrix: the records of every column, keyed by
      (x, y). An absent column reads as empty. */
  type Columns = map<(int, int), seq<Node>>

  /** Slot of column (x, y) in the table. */
  function Index(x: int, y: int, side: nat): (k: nat)
    requires 0 <= x < side && 0 <= y < side
    ensures k < side * side
  {
    IndexBound(x, y, side);
    x + y * side
  }

  lemma IndexBound(x: int, y: int, side: nat)
    requires 0 <= x < side && 0 <= y < side
    ensures x + y * side < side * side
  {
    var y': nat := y;
    Partition.MulMonotone(y' + 1, side, side);
    assert (y' + 1) * side == y' * side + side;
  }

  /** Distinct in-range columns occupy distinct slots. */
  lemma IndexInjective(x: int, y: int, x': int, y': int, side: nat)
    requires 0 <= x < side && 0 <= y < side && 0 <= x' < side && 0 <= y' < side
    requires (x, y) != (x', y')
    ensures Index(x, y, side) != Index(x', y', side)
  {
    if y < y' {
      Partition.MulMonotone(y + 1, y', side);
      assert (y + 1) * side == y * side + side;
    } else if y' < y {
      Partition.MulMonotone(y' + 1, y, side);
      assert (y' + 1) * side == y' * side + side;
    }
  }

  class Matrix {
    const side: nat
    const data: array<DynamicArray?>
    /** The records of each column, keyed by (x, y). */
    ghost var Cols: Columns
    /** The objects the matrix is made of: itself, its table, every column and
        every column's buffer. */
    ghost var Repr: set<object>
    /** The slot each column sits in, and the slot whose column owns each
        buffer: no column and no buffer is shared between two slots. */
    ghost var Slot: map<DynamicArray, int>
    ghost var BufferSlot: map<array<Node>, int>

    ghost predicate Valid()
      reads this, Repr
      ensures Valid() ==> this in Repr
    {
      && this in Repr
      && data in Repr
      && data.Length == side * side
      && (forall k | 0 <= k < data.Length && data[k] != null ::
            && data[k] in Repr && data[k].data in Repr && data[k].Valid()
            && data[k] in Slot && Slot[data[k]] == k
            && data[k].data in BufferSlot && BufferSlot[data[k].data] == k)
      && (forall x, y | 0 <= x < side && 0 <= y < side ::
            && (x, y) in Cols
            && Cols[(x, y)] == (var da := data[Index(x, y, side)];
                                if da == null then [] else da.Contents()))
    }

    /** make_matrix: every column absent. */
    constructor (side: nat)
      ensures Valid() && fresh(Repr) && this.side == side
      ensures forall x, y | 0 <= x < side && 0 <= y < side :: Cols[(x, y)] == []
    {
      this.side := side;
      data := new DynamicArray?[side * side](_ => null);
      Cols := map x, y | 0 <= x < side && 0 <= y < side :: (x, y) := [];
      Repr := {this, data};
      Slot := map[];
      BufferSlot := map[];
    }

    /** matrix_get: the column at (x, y), or null when none was created. */
    method Get(x: int, y: int) returns (da: DynamicArray?)
      requires Valid() && 0 <= x < side && 0 <= y < side
      ensures da == data[Index(x, y, side)]
      ensures da == null ==> Cols[(x, y)] == []
      ensures da != null ==> da in Repr && da.Valid() && da.Contents() == Cols[(x, y)]
    {
      da := data[Index(x, y, side)];
    }

    /** matrix_get_ele, with an index into the column in place of the pointer the
        program returns: the position of depth `z` in column (x, y), or -1 when
        the column or the depth is absent. */
    method GetEle(x: int, y: int, z: int) returns (pos: int)
      requires Valid() && 0 <= x < side && 0 <= y < side
      ensures pos == IndexOfZ(Cols[(x, y)], z)
      ensures pos == -1 <==> !HasZ(Cols[(x, y)], z)
    {
      var da := data[Index(x, y, side)];
      if da == null {
        return -1;
      }
      pos := da.FindZ(z);
    }

    /** Reading a record through its index (`*ptr` in the program). */
    method NodeAt(x: int, y: int, k: nat) returns (n: Node)
      requires Valid() && 0 <= x < side && 0 <= y < side && k < |Cols[(x, y)]|
      ensures n == Cols[(x, y)][k]
    {
      n := data[Index(x, y, side)].data[k];
    }

    /** Writing a record through its index (`ptr->field = ...` in the program). */
    method SetNode(x: int, y: int, k: nat, n: Node)
      requires Valid() && 0 <= x < side && 0 <= y < side && k < |Cols[(x, y)]|
      modifies Repr
      ensures Valid() && Repr == old(Repr)
      ensures Cols == old(Cols)[(x, y) := old(Cols[(x, y)])[k := n]]
    {
      var i := Index(x, y, side);
      var da := data[i];
      da.data[k] := n;
      Cols := Cols[(x, y) := da.Contents()];
      forall x', y' | 0 <= x' < side && 0 <= y' < side && (x', y') != (x, y)
        ensures Index(x', y', side) != i
      {
        IndexInjective(x', y', x, y, side);
      }
    }

    /** The column creation step of matrix_insert: install a fresh, empty
        column of initial capacity 4 at (x, y) when none is there. */
    method CreateColumn(x: int, y: int) returns (da: DynamicArray)
      requires Valid() && 0 <= x < side && 0 <= y < side
      modifies this`Repr, this`Slot, this`BufferSlot, data
      ensures Valid() && fresh(Repr - old(Repr)) && Cols == old(Cols)
      ensures da == data[Index(x, y, side)] && da in Repr
      ensures old(data[Index(x, y, side)]) != null ==> da == old(data[Index(x, y, side)])
    {
      var i := Index(x, y, side);
      if data[i] != null {
        return data[i];
      }
      da := DynamicArray.Make(4);
      data[i] := da;
      Repr := Repr + {da, da.data};
      Slot := Slot[da := i];
      BufferSlot := BufferSlot[da.data := i];
      forall x', y' | 0 <= x' < side && 0 <= y' < side && (x', y') != (x, y)
        ensures Index(x', y', side) != i
      {
        IndexInjective(x', y', x, y, side);
      }
    }

    /** Append a record to the existing column (x, y) (da_insert on it). */
    method Append(x: int, y: int, n: Node)
      requires Valid() && 0 <= x < side && 0 <= y < side && data[Index(x, y, side)] != null
      modifies Repr
      ensures Valid() && fresh(Repr - old(Repr))
      ensures Cols == old(Cols)[(x, y) := old(Cols[(x, y)]) + [n]]
    {
      var i := Index(x, y, side);
      var da := data[i];
      da.Insert(n);
      Repr := Repr + {da.data};
      BufferSlot := BufferSlot[da.data := i];
      Cols := Cols[(x, y) := da.Contents()];
      forall x', y' | 0 <= x' < side && 0 <= y' < side && (x', y') != (x, y)
        ensures Index(x', y', side) != i
      {
        IndexInjective(x', y', x, y, side);
      }
    }

    /** matrix_insert: append a record to column (x, y), creating the column
        when it is absent. It does not check for an existing record of the
        same depth; its callers do. */
    method Insert(x: int, y: int, z: int, isDead: bool, numNei: int)
      requires Valid() && 0 <= x < side && 0 <= y < side
      modifies Repr
      ensures Valid() && fresh(Repr - old(Repr))
      ensures Cols == old(Cols)[(x, y) := old(Cols[(x, y)]) + [Node(z, numNei, isDead)]]
      ensures !HasZ(old(Cols[(x, y)]), z) ==>
                IndexOfZ(Cols[(x, y)], z) == |old(Cols[(x, y)])|
                && Cols[(x, y)][IndexOfZ(Cols[(x, y)], z)] == Node(z, numNei, isDead)
    {
      var _ := CreateColumn(x, y);
      ghost var col := Cols[(x, y)];
      Append(x, y, Node(z, numNei, isDead));
      if !HasZ(col, z) {
        FindAfterAppend(col, Node(z, numNei, isDead));
      }
    }

    /** Delete the record in slot `pos` of the existing column (x, y)
        (da_delete_at on it). */
    method DeleteFrom(x: int, y: int, pos: nat)
      requires Valid() && 0 <= x < side && 0 <= y < side && data[Index(x, y, side)] != null
      requires pos < |Cols[(x, y)]|
      modifies Repr
      ensures Valid() && fresh(Repr - old(Repr))
      ensures Cols == old(Cols)[(x, y) := SwapRemove(old(Cols[(x, y)]), pos)]
    {
      var i := Index(x, y, side);
      var da := data[i];
      da.DeleteAt(pos);
      Repr := Repr + {da.data};
      BufferSlot := BufferSlot[da.data := i];
      Cols := Cols[(x, y) := da.Contents()];
      forall x', y' | 0 <= x' < side && 0 <= y' < side && (x', y') != (x, y)
        ensures Index(x', y', side) != i
      {
        IndexInjective(x', y', x, y, side);
      }
    }

    /** matrix_remove: delete the record of depth `z` from column (x, y); a
        no-op when the column or the depth is absent. */
    method Remove(x: int, y: int, z: int)
      requires Valid() && 0 <= x < side && 0 <= y < side
      modifies Repr
      ensures Valid() && fresh(Repr - old(Repr))
      ensures Cols == old(Cols)[(x, y) := RemoveZ(old(Cols[(x, y)]), z)]
    {
      var da := data[Index(x, y, side)];
      if da == null {
        return;
      }
      var pos := da.FindZ(z);
      if pos == -1 {
        return;
      }
      RemoveZAt(Cols[(x, y)], z, pos);
      DeleteFrom(x, y, pos);
    }

    /** The std::sort call of matrix_print_live on the existing column (x, y). */
    method SortColumn(x: int, y: int)
      requires Valid() && 0 <= x < side && 0 <= y < side && data[Index(x, y, side)] != null
      modifies Repr
      ensures Valid() && Repr == old(Repr) && unchanged(data)
      ensures Cols == old(Cols)[(x, y) := SortByZ(old(Cols[(x, y)]))]
    {
      var i := Index(x, y, side);
      var da := data[i];
      da.SortByDepth();
      Cols := Cols[(x, y) := da.Contents()];
      forall x', y' | 0 <= x' < side && 0 <= y' < side && (x', y') != (x, y)
        ensures Index(x', y', side) != i
      {
        IndexInjective(x', y', x, y, side);
      }
    }
  }
}
