/** The column store: an unordered, growable array of cell records for one
    (x, y) column of the grid (struct node and dynamic_array). */
module ColumnStore {

  /** One tracked cell of a column: its depth `z`, the neighbour count gathered
      during a generation, and whether it is a dead cell tracked only because
      it touches a live one. */
  datatype Node = Node(z: int, numNeighbours: int, isDead: bool)

  /** The MAX macro. */
  function Max(a: nat, b: nat): (r: nat)
    ensures r >= a && r >= b && (r == a || r == b)
  {
    if a > b then a else b
  }

  /** 2 to the power k: a column's capacity is its initial size times a power
      of two, one factor per net doubling. */
  function Pow2(k: nat): (r: nat)
    ensures r >= 1
  {
    if k == 0 then 1 else 2 * Pow2(k - 1)
  }

  /** Depths of a sequence of records, in order. */
  function Zs(s: seq<Node>): (r: seq<int>)
    ensures |r| == |s| && forall t | 0 <= t < |s| :: r[t] == s[t].z
  {
    seq(|s|, t requires 0 <= t < |s| => s[t].z)
  }

  /** Some record has depth `z`. */
  predicate HasZ(s: seq<Node>, z: int)
  {
    exists t | 0 <= t < |s| :: s[t].z == z
  }

  /** No two records share a depth (the column invariant the callers keep). */
  predicate UniqueZ(s: seq<Node>)
  {
    forall a, b | 0 <= a < b < |s| :: s[a].z != s[b].z
  }

  /** Position of the first record with depth `z`, or -1 when there is none. */
  function IndexOfZ(s: seq<Node>, z: int): (r: int)
    ensures -1 <= r < |s|
    ensures r == -1 <==> !HasZ(s, z)
    ensures 0 <= r ==> s[r].z == z && forall t | 0 <= t < r :: s[t].z != z
  {
    if |s| == 0 then -1
    else if s[0].z == z then 0
    else
      var r := IndexOfZ(s[1..], z);
      assert forall t | 0 <= t < |s[1..]| :: s[1..][t] == s[t + 1];
      if r == -1 then -1 else r + 1
  }

  /** In a column without duplicate depths the first match is the only one. */
  lemma IndexOfUniqueZ(s: seq<Node>, k: nat)
    requires UniqueZ(s) && k < |s|
    ensures IndexOfZ(s, s[k].z) == k
  {
  }

  /** A record appended for a depth not yet present is the one found for it. */
  lemma FindAfterAppend(s: seq<Node>, n: Node)
    requires !HasZ(s, n.z)
    ensures IndexOfZ(s + [n], n.z) == |s|
    ensures (s + [n])[IndexOfZ(s + [n], n.z)] == n
  {
    assert (s + [n])[|s|].z == n.z;
  }

  /** da_delete_at on the contents: the last record moves into slot `i` and the
      sequence loses its last slot. */
  function SwapRemove<T>(s: seq<T>, i: nat): (r: seq<T>)
    requires i < |s|
    ensures |r| == |s| - 1
    ensures i < |r| ==> r[i] == s[|s| - 1]
    ensures forall t | 0 <= t < |r| && t != i :: r[t] == s[t]
  {
    s[i := s[|s| - 1]][..|s| - 1]
  }

  /** Deletion removes exactly one occurrence of the deleted record. */
  lemma SwapRemoveMultiset<T>(s: seq<T>, i: nat)
    requires i < |s|
    ensures multiset(SwapRemove(s, i)) == multiset(s) - multiset{s[i]}
  {
    var last := |s| - 1;
    if i == last {
      assert s == SwapRemove(s, i) + [s[i]];
    } else {
      SwapRemoveSplit(s, i);
      MultisetSwap(s[..i], s[i], s[i + 1..last], s[last]);
    }
  }

  /** Deleting from the middle: the last record moves into the gap. */
  lemma SwapRemoveSplit<T>(s: seq<T>, i: nat)
    requires i < |s| - 1
    ensures s == s[..i] + [s[i]] + s[i + 1..|s| - 1] + [s[|s| - 1]]
    ensures SwapRemove(s, i) == s[..i] + [s[|s| - 1]] + s[i + 1..|s| - 1]
  {
  }

  lemma MultisetSwap<T>(a: seq<T>, x: T, b: seq<T>, y: T)
    ensures multiset(a + [y] + b) == multiset(a + [x] + b + [y]) - multiset{x}
  {
  }

  /** Reading the depths commutes with deletion. */
  lemma ZsSwapRemove(s: seq<Node>, i: nat)
    requires i < |s|
    ensures Zs(SwapRemove(s, i)) == SwapRemove(Zs(s), i)
  {
  }

  lemma SwapRemoveUnique(s: seq<Node>, i: nat)
    requires i < |s| && UniqueZ(s)
    ensures UniqueZ(SwapRemove(s, i))
  {
    var r := SwapRemove(s, i);
    var last := |s| - 1;
    forall a, b | 0 <= a < b < |r|
      ensures r[a].z != r[b].z
    {
      var a' := if a == i then last else a;
      var b' := if b == i then last else b;
      assert r[a] == s[a'] && r[b] == s[b'];
    }
  }

  /** matrix_remove on one column: delete the first record with depth `z`, if any. */
  function RemoveZ(s: seq<Node>, z: int): (r: seq<Node>)
    ensures !HasZ(s, z) ==> r == s
    ensures multiset(Zs(r)) == multiset(Zs(s)) - multiset{z}
  {
    var i := IndexOfZ(s, z);
    if i == -1 then
      assert z !in multiset(Zs(s));
      s
    else
      ZsSwapRemove(s, i);
      SwapRemoveMultiset(Zs(s), i);
      SwapRemove(s, i)
  }

  /** When the depth is present, removal is the deletion at its position. */
  lemma RemoveZAt(s: seq<Node>, z: int, i: int)
    requires i == IndexOfZ(s, z) && i != -1
    ensures RemoveZ(s, z) == SwapRemove(s, i)
  {
  }

  /** In a column without duplicate depths, removal keeps it so and leaves no
      record of the removed depth. */
  lemma RemoveZUnique(s: seq<Node>, z: int)
    requires UniqueZ(s)
    ensures UniqueZ(RemoveZ(s, z)) && !HasZ(RemoveZ(s, z), z)
  {
    var i := IndexOfZ(s, z);
    if i != -1 {
      SwapRemoveUnique(s, i);
    }
  }

  /** Records in non-decreasing depth order (node's `operator<` compares z). */
  predicate SortedZ(s: seq<Node>)
  {
    forall a, b | 0 <= a < b < |s| :: s[a].z <= s[b].z
  }

  /** Insert `n` into a depth-sorted sequence, before the first deeper record. */
  function InsertByZ(n: Node, s: seq<Node>): (r: seq<Node>)
    requires SortedZ(s)
    ensures SortedZ(r) && multiset(r) == multiset(s) + multiset{n}
    ensures |r| == |s| + 1 && (r[0] == n || (s != [] && r[0] == s[0]))
  {
    if s == [] || n.z <= s[0].z then [n] + s
    else
      var tail := s[1..];
      assert s == [s[0]] + tail;
      [s[0]] + InsertByZ(n, tail)
  }

  /** The order std::sort leaves a column in: sorted by depth, the same
      records. */
  function SortByZ(s: seq<Node>): (r: seq<Node>)
    ensures SortedZ(r) && multiset(r) == multiset(s)
  {
    if s == [] then []
    else
      assert s == [s[0]] + s[1..];
      InsertByZ(s[0], SortByZ(s[1..]))
  }

  /** Depths are read off a multiset of records. */
  lemma SameRecordsSameDepths(a: seq<Node>, b: seq<Node>, t: nat)
    requires multiset(a) == multiset(b) && t < |a|
    ensures exists u | 0 <= u < |b| :: b[u] == a[t]
  {
    assert a[t] in multiset(b);
    assert a[t] in b;
  }

  /** Two sorted arrangements of the same records, the first without repeated
      depths, start with the same record: the shallowest one. */
  lemma SortedHeads(a: seq<Node>, b: seq<Node>)
    requires SortedZ(a) && SortedZ(b) && multiset(a) == multiset(b) && UniqueZ(a) && a != []
    ensures b != [] && a[0] == b[0]
  {
    SameRecordsSameDepths(a, b, 0);
    var u :| 0 <= u < |b| && b[u] == a[0];
    SameRecordsSameDepths(b, a, 0);
    var t :| 0 <= t < |a| && a[t] == b[0];
    assert a[0].z <= a[t].z == b[0].z <= b[u].z == a[0].z;
  }

  lemma SortedTail(a: seq<Node>)
    requires SortedZ(a) && a != []
    ensures SortedZ(a[1..]) && (UniqueZ(a) ==> UniqueZ(a[1..]))
    ensures multiset(a[1..]) == multiset(a) - multiset{a[0]}
  {
    assert a == [a[0]] + a[1..];
  }

  /** Without repeated depths, sorting has exactly one result: whichever
      sorting algorithm the library uses, the column ends up the same. */
  lemma {:induction false} SortedUnique(a: seq<Node>, b: seq<Node>)
    requires SortedZ(a) && SortedZ(b) && multiset(a) == multiset(b) && UniqueZ(a)
    ensures a == b
  {
    if a == [] {
      assert |b| == |multiset(b)| == 0;
    } else {
      SortedHeads(a, b);
      SortedTail(a);
      SortedTail(b);
      SortedUnique(a[1..], b[1..]);
      assert a == [a[0]] + a[1..] && b == [b[0]] + b[1..];
    }
  }

  /** Taking one element out of a sequence takes one occurrence out of its
      multiset. */
  lemma MultisetRemoveAt<T>(b: seq<T>, u: nat)
    requires u < |b|
    ensures multiset(b[..u] + b[u + 1..]) == multiset(b) - multiset{b[u]}
  {
    assert b == b[..u] + [b[u]] + b[u + 1..];
  }

  /** Matching the first element of `a` with slot `u` of `b`: what is left of
      them still holds the same elements. */
  lemma MultisetPeel<T>(a: seq<T>, b: seq<T>, u: nat)
    requires multiset(a) == multiset(b) && a != [] && u < |b| && b[u] == a[0]
    ensures multiset(a[1..]) == multiset(b[..u] + b[u + 1..])
  {
    MultisetRemoveAt(b, u);
    assert a == [a[0]] + a[1..];
  }

  /** Taking one record out of a sequence takes its depth out of its depths. */
  lemma ZsRemoveAt(b: seq<Node>, u: nat)
    requires u < |b|
    ensures multiset(Zs(b)) == multiset(Zs(b[..u] + b[u + 1..])) + multiset{b[u].z}
  {
    var rest := b[..u] + b[u + 1..];
    assert Zs(b) == Zs(b[..u]) + [b[u].z] + Zs(b[u + 1..]);
    assert Zs(rest) == Zs(b[..u]) + Zs(b[u + 1..]);
  }

  /** The depths held by a collection of records do not depend on their order. */
  lemma {:induction false} SameRecordsSameDepthMultiset(a: seq<Node>, b: seq<Node>)
    requires multiset(a) == multiset(b)
    ensures multiset(Zs(a)) == multiset(Zs(b))
    decreases |a|
  {
    if a == [] {
      assert |b| == |multiset(b)| == 0;
    } else {
      SameRecordsSameDepths(a, b, 0);
      var u :| 0 <= u < |b| && b[u] == a[0];
      var rest := b[..u] + b[u + 1..];
      MultisetPeel(a, b, u);
      SameRecordsSameDepthMultiset(a[1..], rest);
      assert Zs(a) == [a[0].z] + Zs(a[1..]);
      ZsRemoveAt(b, u);
      assert multiset(Zs(b)) == multiset(Zs(rest)) + multiset{a[0].z};
    }
  }

  predicate NonDecreasing(s: seq<int>)
  {
    forall a, b | 0 <= a < b < |s| :: s[a] <= s[b]
  }

  /** The first of a non-decreasing sequence is its least element. */
  lemma HeadIsLeast(x: seq<int>, v: int)
    requires NonDecreasing(x) && v in multiset(x)
    ensures x[0] <= v
  {
    assert v in x;
    var t :| 0 <= t < |x| && x[t] == v;
  }

  lemma NonDecreasingTail(x: seq<int>)
    requires NonDecreasing(x) && x != []
    ensures NonDecreasing(x[1..]) && multiset(x[1..]) == multiset(x) - multiset{x[0]}
  {
    assert x == [x[0]] + x[1..];
  }

  /** A multiset of integers has exactly one non-decreasing arrangement. */
  lemma {:induction false} NonDecreasingUnique(x: seq<int>, y: seq<int>)
    requires NonDecreasing(x) && NonDecreasing(y) && multiset(x) == multiset(y)
    ensures x == y
    decreases |x|
  {
    if x == [] {
      assert |y| == |multiset(y)| == 0;
    } else {
      assert |y| == |multiset(y)| == |multiset(x)| == |x|;
      assert x[0] in multiset(x) && y[0] in multiset(y);
      HeadIsLeast(x, y[0]);
      HeadIsLeast(y, x[0]);
      NonDecreasingTail(x);
      NonDecreasingTail(y);
      assert x[0] == y[0];
      assert multiset(x[1..]) == multiset(y[1..]);
      NonDecreasingUnique(x[1..], y[1..]);
      assert x == [x[0]] + x[1..];
      assert y == [y[0]] + y[1..];
    }
  }

  /** With repeated depths a sort may order the records of one depth either way
      (std::sort is not stable), but every sorted arrangement of the same
      records has the same sequence of depths. */
  lemma SortedSameDepths(a: seq<Node>, b: seq<Node>)
    requires SortedZ(a) && SortedZ(b) && multiset(a) == multiset(b)
    ensures Zs(a) == Zs(b)
  {
    SameRecordsSameDepthMultiset(a, b);
    NonDecreasingUnique(Zs(a), Zs(b));
  }

  /** A column of the sparse matrix (dynamic_array of node). `data[..used]` are
      the records; `size` is the capacity, which starts at `initialSize`,
      doubles when an insert finds the buffer full and halves when a delete
      leaves it at most a quarter full. */
  class DynamicArray {
    var initialSize: nat
    var data: array<Node>
    var used: nat
    var size: nat
    /** How many more doublings than halvings the capacity has seen. */
    ghost var doublings: nat

    /** The capacity invariant: `used <= size`, `size >= initialSize`, and the
        capacity is always `initialSize` times a power of two. */
    ghost predicate Valid()
      reads this
    {
      && 0 < initialSize
      && used <= size
      && size == data.Length
      && size == initialSize * Pow2(doublings)
      && initialSize <= size
    }

    /** The records stored in the column. */
    ghost function Contents(): seq<Node>
      reads this, data
      requires used <= data.Length
    {
      data[..used]
    }

    /** da_init: an empty column with the given initial capacity. The program
        only ever initializes with a capacity of at least 4 (`Make`); with 0 a
        later insert would write past the buffer. */
    constructor (initialSize: nat)
      requires 0 < initialSize
      ensures Valid() && fresh(data)
      ensures this.initialSize == initialSize && size == initialSize
      ensures Contents() == []
    {
      this.initialSize := initialSize;
      used := 0;
      size := initialSize;
      data := new Node[initialSize];
      doublings := 0;
    }

    /** da_make and da_make_ptr (they differ only in returning the struct by
        value or by pointer): an empty column of capacity at least 4. */
    static method Make(initialSize: nat) returns (da: DynamicArray)
      ensures fresh(da) && fresh(da.data) && da.Valid()
      ensures da.initialSize == Max(4, initialSize) && da.initialSize >= 4
      ensures da.size == da.initialSize
      ensures da.Contents() == []
    {
      da := new DynamicArray(Max(4, initialSize));
    }

    /** da_resize: change the capacity, keeping the first `used` records
        (realloc). Every caller keeps `used <= newSize`. */
    method Resize(newSize: nat)
      requires used <= newSize && used <= data.Length
      modifies this
      ensures fresh(data) && data.Length == newSize && size == newSize
      ensures used == old(used) && initialSize == old(initialSize)
      ensures doublings == old(doublings)
      ensures Contents() == old(Contents())
    {
      var a := new Node[newSize];
      forall t | 0 <= t < used {
        a[t] := data[t];
      }
      data := a;
      size := newSize;
    }

    /** da_insert: append a record, doubling the capacity first if full. */
    method Insert(n: Node)
      requires Valid()
      modifies this, data
      ensures Valid()
      ensures Contents() == old(Contents()) + [n]
      ensures initialSize == old(initialSize)
      ensures size == if old(used) == old(size) then 2 * old(size) else old(size)
      ensures data == old(data) || fresh(data)
    {
      if used == size {
        Resize(size * 2);
        doublings := doublings + 1;
        assert size == initialSize * Pow2(doublings) by {
          assert Pow2(doublings) == 2 * Pow2(doublings - 1);
        }
      }
      data[used] := n;
      used := used + 1;
      assert Contents() == old(Contents()) + [n];
    }

    /** da_delete_at: remove the record in slot `i` by moving the last record
        into it, then halve the capacity when it is more than the initial one
        and at most a quarter is used. An index at or past `used` is rejected
        and leaves the column untouched. */
    method DeleteAt(i: nat)
      requires Valid()
      modifies this, data
      ensures Valid()
      ensures initialSize == old(initialSize)
      ensures data == old(data) || fresh(data)
      ensures old(used) <= i ==> unchanged(this) && unchanged(data)
      ensures i < old(used) ==>
                Contents() == SwapRemove(old(Contents()), i)
                && size == if old(size) > initialSize && old(used) - 1 <= old(size) / 4
                           then old(size) / 2 else old(size)
    {
      if i >= used {
        return;
      }
      used := used - 1;
      data[i] := data[used];
      assert Contents() == SwapRemove(old(Contents()), i);
      if size > initialSize && used <= size / 4 {
        HalvingKeepsInvariant(initialSize, doublings, size);
        Resize(size / 2);
        doublings := doublings - 1;
      }
    }

    /** da_clear: drop every record and shrink back to the initial capacity. */
    method Clear()
      requires Valid()
      modifies this
      ensures Valid() && fresh(data)
      ensures Contents() == [] && size == initialSize
      ensures initialSize == old(initialSize)
    {
      used := 0;
      Resize(initialSize);
      doublings := 0;
    }

    /** da_empty: despite its name it returns the number of records, which is
        non-zero exactly when the column is not empty. */
    method Empty() returns (n: nat)
      requires Valid()
      ensures n == |Contents()|
      ensures n == 0 <==> Contents() == []
    {
      n := used;
    }

    /** The std::sort call of matrix_print_live: the buffer's first `used`
        slots are reordered by depth in place. */
    method SortByDepth()
      requires Valid()
      modifies data
      ensures Valid() && used == old(used) && size == old(size)
      ensures Contents() == SortByZ(old(Contents()))
    {
      var sorted := SortByZ(data[..used]);
      forall t | 0 <= t < used {
        data[t] := sorted[t];
      }
      assert data[..used] == sorted;
    }

    /** da_find_z: linear search for the first record with depth `testZ`. */
    method FindZ(testZ: int) returns (pos: int)
      requires Valid()
      ensures pos == IndexOfZ(Contents(), testZ)
      ensures pos == -1 <==> !HasZ(Contents(), testZ)
    {
      var i := 0;
      while i < used
        invariant 0 <= i <= used
        invariant forall t | 0 <= t < i :: data[t].z != testZ
      {
        if data[i].z == testZ {
          return i;
        }
        i := i + 1;
      }
      return -1;
    }
  }

  /** Halving a capacity that is above the initial one keeps it a power-of-two
      multiple of, and at least, the initial capacity. */
  lemma HalvingKeepsInvariant(initialSize: nat, k: nat, size: nat)
    requires 0 < initialSize && size == initialSize * Pow2(k) && size > initialSize
    ensures k > 0
    ensures size / 2 == initialSize * Pow2(k - 1)
    ensures initialSize <= size / 2
  {
    if k == 0 {
      assert false;
    }
    var h := initialSize * Pow2(k - 1);
    assert size == 2 * h;
    assert h >= initialSize by {
      assert h == initialSize * Pow2(k - 1);
      assert Pow2(k - 1) >= 1;
      assert initialSize * Pow2(k - 1) >= initialSize * 1;
    }
  }
}
