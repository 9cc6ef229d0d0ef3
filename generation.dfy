/** One generation of the sparse engine (the generation loop of
    life3d-mpi.cpp, which sits inside a comment block there): a discovery pass
    over every live record that counts its live neighbours and tracks each dead
    neighbour as a dead record carrying its own count, then a commit pass that
    applies the birth and survival rules column by column. The pass is proved
    to produce exactly the dense reference generation `Life.NextGen`. */
module Generation {
  import opened Torus
  import opened ColumnStore
  import opened SparseMatrix
  import opened Life

  // ---------------------------------------------------------------------
  // Reading the grid off the columns.

  /** Every in-range column is present, holds each depth at most once and only
      depths inside the grid. */
  ghost predicate WellFormed(cols: Columns, side: nat)
  {
    forall x, y | 0 <= x < side && 0 <= y < side ::
      && (x, y) in cols
      && UniqueZ(cols[(x, y)])
      && forall t | 0 <= t < |cols[(x, y)]| :: 0 <= cols[(x, y)][t].z < side
  }

  /** Cell `c` has a record (live or dead) in its column. */
  ghost predicate Recorded(cols: Columns, c: Cell)
  {
    (c.x, c.y) in cols && HasZ(cols[(c.x, c.y)], c.z)
  }

  /** The record of cell `c`. */
  ghost function RecordOf(cols: Columns, c: Cell): (n: Node)
    requires Recorded(cols, c)
    ensures n.z == c.z && n in cols[(c.x, c.y)]
  {
    cols[(c.x, c.y)][IndexOfZ(cols[(c.x, c.y)], c.z)]
  }

  ghost predicate IsLive(cols: Columns, c: Cell)
  {
    Recorded(cols, c) && !RecordOf(cols, c).isDead
  }

  /** The live cells the columns describe. */
  ghost function LiveSet(cols: Columns, side: nat): (live: set<Cell>)
    ensures forall c :: c in live <==> InGrid(c, side) && IsLive(cols, c)
  {
    set c | c in Grid(side) && IsLive(cols, c)
  }

  /** No dead records: the state between generations. */
  ghost predicate AllLive(cols: Columns, side: nat)
  {
    forall x, y, t | 0 <= x < side && 0 <= y < side && (x, y) in cols && 0 <= t < |cols[(x, y)]| ::
      !cols[(x, y)][t].isDead
  }

  /** `after` keeps every record of `before` in its slot with its depth and
      liveness, and only appends dead records. */
  ghost predicate Stable(before: Columns, after: Columns, side: nat)
  {
    forall x, y | 0 <= x < side && 0 <= y < side && (x, y) in before ::
      && (x, y) in after
      && |before[(x, y)]| <= |after[(x, y)]|
      && (forall t | 0 <= t < |before[(x, y)]| ::
            after[(x, y)][t].z == before[(x, y)][t].z && after[(x, y)][t].isDead == before[(x, y)][t].isDead)
      && (forall t | |before[(x, y)]| <= t < |after[(x, y)]| :: after[(x, y)][t].isDead)
  }

  lemma StableTrans(a: Columns, b: Columns, c: Columns, side: nat)
    requires Stable(a, b, side) && Stable(b, c, side)
    ensures Stable(a, c, side)
  {
  }

  lemma StableRefl(a: Columns, side: nat)
    ensures Stable(a, a, side)
  {
  }

  /** Finding a depth depends only on the depths. */
  lemma {:induction false} IndexOfSameZs(a: seq<Node>, b: seq<Node>, z: int)
    requires Zs(a) == Zs(b)
    ensures IndexOfZ(a, z) == IndexOfZ(b, z)
  {
    if |a| > 0 {
      assert a[0].z == Zs(a)[0] == Zs(b)[0] == b[0].z;
      assert Zs(a[1..]) == Zs(a)[1..] && Zs(b[1..]) == Zs(b)[1..];
      IndexOfSameZs(a[1..], b[1..], z);
    }
  }

  lemma IndexOfAppend(s: seq<Node>, n: Node, z: int)
    requires !HasZ(s, n.z)
    ensures IndexOfZ(s + [n], z) == if HasZ(s, z) then IndexOfZ(s, z) else if z == n.z then |s| else -1
  {
    var r := IndexOfZ(s + [n], z);
    var t := s + [n];
    if HasZ(s, z) {
      var i := IndexOfZ(s, z);
      assert t[i].z == z;
      assert r <= i;
      assert r == i;
    } else if z == n.z {
      FindAfterAppend(s, n);
    } else {
      assert !HasZ(t, z) by {
        forall u | 0 <= u < |t| ensures t[u].z != z {
          if u < |s| { assert t[u] == s[u]; }
        }
      }
    }
  }

  /** `after` has a record for `p` and agrees with `before` on every other cell. */
  ghost predicate SameExcept(before: Columns, after: Columns, p: Cell)
  {
    && Recorded(after, p)
    && (forall d {:trigger Recorded(after, d)} | d != p :: Recorded(after, d) <==> Recorded(before, d))
    && (forall d {:trigger RecordOf(after, d)} | d != p && Recorded(before, d) ::
          RecordOf(after, d) == RecordOf(before, d))
  }

  /** Replacing the record of `c` by one of the same depth changes nothing else. */
  lemma RecordUpdate(cols: Columns, cols': Columns, side: nat, c: Cell, i: int, n: Node)
    requires WellFormed(cols, side) && InGrid(c, side) && Recorded(cols, c) && n.z == c.z
    requires i == IndexOfZ(cols[(c.x, c.y)], c.z)
    requires cols' == cols[(c.x, c.y) := cols[(c.x, c.y)][i := n]]
    ensures WellFormed(cols', side) && Recorded(cols', c) && RecordOf(cols', c) == n
    ensures forall d :: Recorded(cols', d) <==> Recorded(cols, d)
    ensures forall d | Recorded(cols, d) && d != c :: RecordOf(cols', d) == RecordOf(cols, d)
    ensures n.isDead == RecordOf(cols, c).isDead ==> Stable(cols, cols', side)
    ensures SameExcept(cols, cols', c)
  {
    SameDepthUpdate(cols[(c.x, c.y)], i, n);
    UpdateFrame(cols, cols', side, c, i, n);
  }

  /** The columns stay well formed, and stable when liveness is kept. */
  lemma UpdateFrame(cols: Columns, cols': Columns, side: nat, c: Cell, i: int, n: Node)
    requires WellFormed(cols, side) && InGrid(c, side) && Recorded(cols, c) && n.z == c.z
    requires i == IndexOfZ(cols[(c.x, c.y)], c.z)
    requires cols' == cols[(c.x, c.y) := cols[(c.x, c.y)][i := n]]
    ensures WellFormed(cols', side)
    ensures n.isDead == RecordOf(cols, c).isDead ==> Stable(cols, cols', side)
  {
    SameDepthUpdate(cols[(c.x, c.y)], i, n);
  }

  /** Overwriting a record by one of the same depth keeps every depth where it was. */
  lemma SameDepthUpdate(col: seq<Node>, i: nat, n: Node)
    requires i < |col| && n.z == col[i].z
    ensures forall z :: IndexOfZ(col[i := n], z) == IndexOfZ(col, z)
    ensures forall z :: HasZ(col[i := n], z) <==> HasZ(col, z)
    ensures UniqueZ(col) ==> UniqueZ(col[i := n])
  {
    var col' := col[i := n];
    assert Zs(col') == Zs(col);
    forall z ensures IndexOfZ(col', z) == IndexOfZ(col, z) {
      IndexOfSameZs(col', col, z);
    }
    if UniqueZ(col) {
      forall a, b | 0 <= a < b < |col'| ensures col'[a].z != col'[b].z {
        assert Zs(col')[a] == Zs(col)[a] && Zs(col')[b] == Zs(col)[b];
      }
    }
  }

  /** Appending a record for a cell that has none changes nothing else. */
  lemma RecordInsert(cols: Columns, cols': Columns, side: nat, c: Cell, n: Node)
    requires WellFormed(cols, side) && InGrid(c, side) && !Recorded(cols, c) && n.z == c.z
    requires cols' == cols[(c.x, c.y) := cols[(c.x, c.y)] + [n]]
    ensures WellFormed(cols', side) && Recorded(cols', c) && RecordOf(cols', c) == n
    ensures forall d :: Recorded(cols', d) <==> Recorded(cols, d) || d == c
    ensures forall d | Recorded(cols, d) :: RecordOf(cols', d) == RecordOf(cols, d)
    ensures n.isDead ==> Stable(cols, cols', side)
    ensures SameExcept(cols, cols', c)
  {
    var col := cols[(c.x, c.y)];
    var col' := col + [n];
    forall z ensures IndexOfZ(col', z) == if HasZ(col, z) then IndexOfZ(col, z) else if z == n.z then |col| else -1 {
      IndexOfAppend(col, n, z);
    }
    assert forall z :: HasZ(col', z) <==> HasZ(col, z) || z == n.z;
  }

  // ---------------------------------------------------------------------
  // The discovery pass.

  /** Live records are exactly the cells of `live`. */
  ghost predicate LiveExact(cols: Columns, side: nat, live: set<Cell>)
  {
    forall c {:trigger IsLive(cols, c)} {:trigger c in live} | InGrid(c, side) ::
      IsLive(cols, c) <==> c in live
  }

  /** Each dead record counts the visits its cell has received. */
  ghost predicate DeadCounted(cols: Columns, side: nat, visits: seq<Cell>)
  {
    forall c {:trigger RecordOf(cols, c)} | InGrid(c, side) && Recorded(cols, c) && RecordOf(cols, c).isDead ::
      RecordOf(cols, c).numNeighbours == multiset(visits)[c]
  }

  /** Every visited cell is live or has a record. */
  ghost predicate Covered(cols: Columns, live: set<Cell>, visits: seq<Cell>)
  {
    forall t | 0 <= t < |visits| :: visits[t] in live || Recorded(cols, visits[t])
  }

  /** Each finished live cell's record counts its live neighbours. */
  ghost predicate DoneCounted(cols: Columns, side: nat, live: set<Cell>, done: set<Cell>)
  {
    forall c {:trigger c in done} | c in done ::
      InGrid(c, side) && c in live && Recorded(cols, c)
      && RecordOf(cols, c).numNeighbours == LiveCount(live, c, side)
  }

  /** What the discovery pass keeps true. `live` is the live set it started
      from, `visits` every neighbour visited so far, in order, and `done` the
      live cells whose six visits are complete. */
  ghost predicate DiscInv(cols: Columns, side: nat, live: set<Cell>, visits: seq<Cell>, done: set<Cell>)
  {
    && WellFormed(cols, side)
    && LiveExact(cols, side, live)
    && DeadCounted(cols, side, visits)
    && Covered(cols, live, visits)
    && DoneCounted(cols, side, live, done)
  }

  lemma {:induction false} LiveExactStep(cols: Columns, cols': Columns, side: nat, live: set<Cell>, p: Cell)
    requires LiveExact(cols, side, live) && SameExcept(cols, cols', p)
    requires IsLive(cols', p) <==> IsLive(cols, p)
    ensures LiveExact(cols', side, live)
  {
    forall c | InGrid(c, side) ensures IsLive(cols', c) <==> c in live {
      assert IsLive(cols, c) <==> c in live;
      if c != p && Recorded(cols, c) {
        assert RecordOf(cols', c) == RecordOf(cols, c);
      }
    }
  }

  lemma {:induction false} DeadCountedStep(cols: Columns, cols': Columns, side: nat,
                                           visits: seq<Cell>, visits': seq<Cell>, p: Cell)
    requires DeadCounted(cols, side, visits) && SameExcept(cols, cols', p)
    requires InGrid(p, side) && RecordOf(cols', p).isDead ==>
               RecordOf(cols', p).numNeighbours == multiset(visits')[p]
    requires forall d {:trigger RecordOf(cols, d)} |
               d != p && InGrid(d, side) && Recorded(cols, d) && RecordOf(cols, d).isDead ::
               multiset(visits')[d] == multiset(visits)[d]
    ensures DeadCounted(cols', side, visits')
  {
    forall c | InGrid(c, side) && Recorded(cols', c) && RecordOf(cols', c).isDead
      ensures RecordOf(cols', c).numNeighbours == multiset(visits')[c]
    {
      if c != p {
        assert RecordOf(cols', c) == RecordOf(cols, c);
      }
    }
  }

  lemma {:induction false} CoveredStep(cols: Columns, cols': Columns, live: set<Cell>,
                                       visits: seq<Cell>, extra: seq<Cell>, p: Cell)
    requires Covered(cols, live, visits) && SameExcept(cols, cols', p)
    requires forall t | 0 <= t < |extra| :: extra[t] in live || Recorded(cols', extra[t])
    ensures Covered(cols', live, visits + extra)
  {
    forall t | 0 <= t < |visits + extra|
      ensures (visits + extra)[t] in live || Recorded(cols', (visits + extra)[t])
    {
      if t < |visits| {
        assert (visits + extra)[t] == visits[t];
        if visits[t] != p { assert Recorded(cols', visits[t]) <==> Recorded(cols, visits[t]); }
      } else {
        assert (visits + extra)[t] == extra[t - |visits|];
      }
    }
  }

  lemma {:induction false} DoneStep(cols: Columns, cols': Columns, side: nat, live: set<Cell>,
                                    done: set<Cell>, p: Cell)
    requires DoneCounted(cols, side, live, done) && SameExcept(cols, cols', p) && p !in done
    ensures DoneCounted(cols', side, live, done)
  {
    forall c | c in done
      ensures InGrid(c, side) && c in live && Recorded(cols', c)
              && RecordOf(cols', c).numNeighbours == LiveCount(live, c, side)
    {
      assert Recorded(cols', c) <==> Recorded(cols, c);
      assert RecordOf(cols', c) == RecordOf(cols, c);
    }
  }

  lemma CountInSnoc(s: seq<Cell>, live: set<Cell>, q: Cell)
    ensures CountIn(s + [q], live) == CountIn(s, live) + if q in live then 1 else 0
  {
    assert (s + [q])[..|s|] == s;
  }

  /** Slot `k` of in-range column (x, y) holds a live record whose cell is not
      finished yet: the source the discovery pass is working on. */
  ghost predicate SourceSlot(cols: Columns, side: nat, done: set<Cell>, x: int, y: int, k: nat)
  {
    && 0 <= x < side && 0 <= y < side && (x, y) in cols
    && k < |cols[(x, y)]| && !cols[(x, y)][k].isDead
    && Cell(x, y, cols[(x, y)][k].z) !in done
  }

  /** The source in slot `k` has counted the live cells among `seen`. */
  ghost predicate SourceAt(cols: Columns, side: nat, live: set<Cell>, done: set<Cell>,
                           x: int, y: int, k: nat, seen: seq<Cell>)
  {
    SourceSlot(cols, side, done, x, y, k) && cols[(x, y)][k].numNeighbours == CountIn(seen, live)
  }

  /** The source in slot `k` is the record of its cell, and that cell is live. */
  lemma {:induction false} SourceRecord(cols: Columns, side: nat, live: set<Cell>, visits: seq<Cell>,
                                        done: set<Cell>, x: int, y: int, k: nat)
    requires DiscInv(cols, side, live, visits, done) && SourceSlot(cols, side, done, x, y, k)
    ensures var src := Cell(x, y, cols[(x, y)][k].z);
      InGrid(src, side) && IsLive(cols, src) && src in live && src !in done
      && IndexOfZ(cols[(x, y)], src.z) == k && RecordOf(cols, src) == cols[(x, y)][k]
  {
    IndexOfUniqueZ(cols[(x, y)], k);
    var src := Cell(x, y, cols[(x, y)][k].z);
    assert IsLive(cols, src);
  }

  /** After a step that keeps the source's record in place, it is still the
      source in slot `k`. */
  lemma {:induction false} SourceKept(cols: Columns, cols': Columns, side: nat, live: set<Cell>,
                                      done: set<Cell>, x: int, y: int, k: nat, seen': seq<Cell>)
    requires SourceSlot(cols, side, done, x, y, k)
    requires WellFormed(cols', side) && Stable(cols, cols', side)
    requires var src := Cell(x, y, cols[(x, y)][k].z);
      Recorded(cols', src) && RecordOf(cols', src).numNeighbours == CountIn(seen', live)
    ensures SourceAt(cols', side, live, done, x, y, k, seen')
    ensures cols'[(x, y)][k].z == cols[(x, y)][k].z
  {
    IndexOfUniqueZ(cols'[(x, y)], k);
  }

  /** Visiting a neighbour that already has a dead record: its count goes up. */
  lemma {:induction false} VisitDead(cols: Columns, cols': Columns, side: nat, live: set<Cell>,
                                     visits: seq<Cell>, done: set<Cell>, q: Cell,
                                     x: int, y: int, k: nat, seen: seq<Cell>, i: int, n: Node)
    requires DiscInv(cols, side, live, visits, done) && InGrid(q, side)
    requires SourceAt(cols, side, live, done, x, y, k, seen)
    requires Recorded(cols, q) && i == IndexOfZ(cols[(q.x, q.y)], q.z) && cols[(q.x, q.y)][i].isDead
    requires n == cols[(q.x, q.y)][i].(numNeighbours := cols[(q.x, q.y)][i].numNeighbours + 1)
    requires cols' == cols[(q.x, q.y) := cols[(q.x, q.y)][i := n]]
    ensures DiscInv(cols', side, live, visits + [q], done) && Stable(cols, cols', side)
    ensures SourceAt(cols', side, live, done, x, y, k, seen + [q])
  {
    SourceRecord(cols, side, live, visits, done, x, y, k);
    RecordUpdate(cols, cols', side, q, i, n);
    assert !IsLive(cols, q) && !IsLive(cols', q);
    assert q !in live && q !in done;
    CountInSnoc(seen, live, q);
    assert RecordOf(cols, q).numNeighbours == multiset(visits)[q];
    LiveExactStep(cols, cols', side, live, q);
    DeadCountedStep(cols, cols', side, visits, visits + [q], q);
    CoveredStep(cols, cols', live, visits, [q], q);
    DoneStep(cols, cols', side, live, done, q);
    SourceKept(cols, cols', side, live, done, x, y, k, seen + [q]);
  }

  /** Visiting a live neighbour: the source's own count goes up. */
  lemma {:induction false} VisitLive(cols: Columns, cols': Columns, side: nat, live: set<Cell>,
                                     visits: seq<Cell>, done: set<Cell>, q: Cell,
                                     x: int, y: int, k: nat, seen: seq<Cell>, n: Node)
    requires DiscInv(cols, side, live, visits, done) && InGrid(q, side)
    requires SourceAt(cols, side, live, done, x, y, k, seen)
    requires Recorded(cols, q) && !RecordOf(cols, q).isDead
    requires n == cols[(x, y)][k].(numNeighbours := cols[(x, y)][k].numNeighbours + 1)
    requires cols' == cols[(x, y) := cols[(x, y)][k := n]]
    ensures DiscInv(cols', side, live, visits + [q], done) && Stable(cols, cols', side)
    ensures SourceAt(cols', side, live, done, x, y, k, seen + [q])
  {
    SourceRecord(cols, side, live, visits, done, x, y, k);
    var src := Cell(x, y, cols[(x, y)][k].z);
    RecordUpdate(cols, cols', side, src, k, n);
    assert IsLive(cols, q);
    assert q in live;
    CountInSnoc(seen, live, q);
    LiveExactStep(cols, cols', side, live, src);
    DeadCountedStep(cols, cols', side, visits, visits + [q], src);
    CoveredStep(cols, cols', live, visits, [q], src);
    DoneStep(cols, cols', side, live, done, src);
    SourceKept(cols, cols', side, live, done, x, y, k, seen + [q]);
  }

  /** Visiting a cell with no record: it gets a dead record with count 1. */
  lemma {:induction false} VisitNew(cols: Columns, cols': Columns, side: nat, live: set<Cell>,
                                    visits: seq<Cell>, done: set<Cell>, q: Cell,
                                    x: int, y: int, k: nat, seen: seq<Cell>)
    requires DiscInv(cols, side, live, visits, done) && InGrid(q, side)
    requires SourceAt(cols, side, live, done, x, y, k, seen)
    requires !Recorded(cols, q)
    requires cols' == cols[(q.x, q.y) := cols[(q.x, q.y)] + [Node(q.z, 1, true)]]
    ensures DiscInv(cols', side, live, visits + [q], done) && Stable(cols, cols', side)
    ensures SourceAt(cols', side, live, done, x, y, k, seen + [q])
  {
    SourceRecord(cols, side, live, visits, done, x, y, k);
    RecordInsert(cols, cols', side, q, Node(q.z, 1, true));
    assert !IsLive(cols, q) && !IsLive(cols', q);
    assert q !in live && q !in done;
    assert forall t | 0 <= t < |visits| :: visits[t] != q;
    assert q !in multiset(visits);
    CountInSnoc(seen, live, q);
    LiveExactStep(cols, cols', side, live, q);
    DeadCountedStep(cols, cols', side, visits, visits + [q], q);
    CoveredStep(cols, cols', live, visits, [q], q);
    DoneStep(cols, cols', side, live, done, q);
    SourceKept(cols, cols', side, live, done, x, y, k, seen + [q]);
  }

  /** Resetting the count of the source keeps the invariant. */
  lemma {:induction false} ResetSource(cols: Columns, cols': Columns, side: nat, live: set<Cell>,
                                       visits: seq<Cell>, done: set<Cell>, x: int, y: int, k: nat, n: Node)
    requires DiscInv(cols, side, live, visits, done) && SourceSlot(cols, side, done, x, y, k)
    requires n == cols[(x, y)][k].(numNeighbours := 0)
    requires cols' == cols[(x, y) := cols[(x, y)][k := n]]
    ensures DiscInv(cols', side, live, visits, done) && Stable(cols, cols', side)
    ensures SourceAt(cols', side, live, done, x, y, k, [])
  {
    SourceRecord(cols, side, live, visits, done, x, y, k);
    var src := Cell(x, y, cols[(x, y)][k].z);
    RecordUpdate(cols, cols', side, src, k, n);
    LiveExactStep(cols, cols', side, live, src);
    DeadCountedStep(cols, cols', side, visits, visits, src);
    CoveredStep(cols, cols', live, visits, [], src);
    assert visits + [] == visits;
    DoneStep(cols, cols', side, live, done, src);
    SourceKept(cols, cols', side, live, done, x, y, k, []);
  }

  /** A source whose six visits are complete holds its live-neighbour count
      and joins the finished ones. */
  lemma {:induction false} FinishSource(cols: Columns, side: nat, live: set<Cell>, visits: seq<Cell>,
                                        done: set<Cell>, x: int, y: int, k: nat, src: Cell)
    requires DiscInv(cols, side, live, visits, done)
    requires 0 <= x < side && 0 <= y < side && (x, y) in cols && k < |cols[(x, y)]|
    requires src == Cell(x, y, cols[(x, y)][k].z)
    requires SourceAt(cols, side, live, done, x, y, k, Neighbours(src, side))
    ensures DiscInv(cols, side, live, visits, done + {src})
  {
    SourceRecord(cols, side, live, visits, done, x, y, k);
  }

  /** The discovery pass is at neighbour `d` of the source `src` in slot `k` of
      column (x, y): the first `d` neighbours have been visited. */
  ghost predicate Visiting(cols: Columns, side: nat, live: set<Cell>, visits: seq<Cell>, done: set<Cell>,
                           x: int, y: int, k: nat, src: Cell, d: nat)
  {
    && d <= 6 && InGrid(src, side)
    && SourceAt(cols, side, live, done, x, y, k, Neighbours(src, side)[..d])
    && src == Cell(x, y, cols[(x, y)][k].z)
    && DiscInv(cols, side, live, visits + Neighbours(src, side)[..d], done)
  }

  lemma PrefixSnoc(visits: seq<Cell>, nb: seq<Cell>, d: nat)
    requires d < |nb|
    ensures nb[..d] + [nb[d]] == nb[..d + 1]
    ensures visits + nb[..d] + [nb[d]] == visits + nb[..d + 1]
  {
  }

  /** A neighbour with a dead record: its count goes up by one. */
  method BumpDead(m: Matrix, x: int, y: int, k: nat, q: Cell, pos: nat, t: Node,
                  ghost live: set<Cell>, ghost visits: seq<Cell>, ghost done: set<Cell>, ghost seen: seq<Cell>)
    requires m.Valid() && DiscInv(m.Cols, m.side, live, visits, done) && InGrid(q, m.side)
    requires SourceAt(m.Cols, m.side, live, done, x, y, k, seen)
    requires Recorded(m.Cols, q) && pos == IndexOfZ(m.Cols[(q.x, q.y)], q.z)
    requires t == m.Cols[(q.x, q.y)][pos] && t.isDead
    modifies m.Repr
    ensures m.Valid() && m.Repr == old(m.Repr)
    ensures DiscInv(m.Cols, m.side, live, visits + [q], done) && Stable(old(m.Cols), m.Cols, m.side)
    ensures SourceAt(m.Cols, m.side, live, done, x, y, k, seen + [q])
    ensures m.Cols[(x, y)][k].z == old(m.Cols[(x, y)][k].z)
  {
    ghost var cols := m.Cols;
    var bumped := t.(numNeighbours := t.numNeighbours + 1);
    m.SetNode(q.x, q.y, pos, bumped);
    VisitDead(cols, m.Cols, m.side, live, visits, done, q, x, y, k, seen, pos, bumped);
  }

  /** A live neighbour: the source's own count goes up by one. */
  method BumpSource(m: Matrix, x: int, y: int, k: nat, q: Cell,
                    ghost live: set<Cell>, ghost visits: seq<Cell>, ghost done: set<Cell>, ghost seen: seq<Cell>)
    requires m.Valid() && DiscInv(m.Cols, m.side, live, visits, done) && InGrid(q, m.side)
    requires SourceAt(m.Cols, m.side, live, done, x, y, k, seen)
    requires Recorded(m.Cols, q) && !RecordOf(m.Cols, q).isDead
    modifies m.Repr
    ensures m.Valid() && m.Repr == old(m.Repr)
    ensures DiscInv(m.Cols, m.side, live, visits + [q], done) && Stable(old(m.Cols), m.Cols, m.side)
    ensures SourceAt(m.Cols, m.side, live, done, x, y, k, seen + [q])
    ensures m.Cols[(x, y)][k].z == old(m.Cols[(x, y)][k].z)
  {
    ghost var cols := m.Cols;
    var s := m.NodeAt(x, y, k);
    var bumped := s.(numNeighbours := s.numNeighbours + 1);
    m.SetNode(x, y, k, bumped);
    VisitLive(cols, m.Cols, m.side, live, visits, done, q, x, y, k, seen, bumped);
  }

  /** A neighbour without a record: it is tracked as a dead record with
      count 1 (matrix_insert). */
  method TrackNew(m: Matrix, x: int, y: int, k: nat, q: Cell,
                  ghost live: set<Cell>, ghost visits: seq<Cell>, ghost done: set<Cell>, ghost seen: seq<Cell>)
    requires m.Valid() && DiscInv(m.Cols, m.side, live, visits, done) && InGrid(q, m.side)
    requires SourceAt(m.Cols, m.side, live, done, x, y, k, seen)
    requires !Recorded(m.Cols, q)
    modifies m.Repr
    ensures m.Valid() && fresh(m.Repr - old(m.Repr))
    ensures DiscInv(m.Cols, m.side, live, visits + [q], done) && Stable(old(m.Cols), m.Cols, m.side)
    ensures SourceAt(m.Cols, m.side, live, done, x, y, k, seen + [q])
    ensures m.Cols[(x, y)][k].z == old(m.Cols[(x, y)][k].z)
  {
    ghost var cols := m.Cols;
    m.Insert(q.x, q.y, q.z, true, 1);
    VisitNew(cols, m.Cols, m.side, live, visits, done, q, x, y, k, seen);
  }

  /** The coordinates of neighbour number `dir` of the cell (x, y, z), as the
      six neighbour blocks compute them with pos_mod. */
  method NeighbourAt(x: int, y: int, z: int, side: nat, dir: nat) returns (q: Cell)
    requires dir < 6
    ensures q == Neighbours(Cell(x, y, z), side)[dir]
  {
    if dir == 0 {
      q := Cell(x, y, PosMod(z + 1, side));
    } else if dir == 1 {
      q := Cell(x, y, PosMod(z - 1, side));
    } else if dir == 2 {
      q := Cell(PosMod(x + 1, side), y, z);
    } else if dir == 3 {
      q := Cell(PosMod(x - 1, side), y, z);
    } else if dir == 4 {
      q := Cell(x, PosMod(y + 1, side), z);
    } else {
      q := Cell(x, PosMod(y - 1, side), z);
    }
  }

  /** Neighbour block number `dir` of the discovery pass, for the source `src`
      at depth `z` in slot `k` of column (x, y): a neighbour with a dead record
      gets its count bumped, a live neighbour bumps the source's count, and a
      neighbour without a record is tracked as a new dead record with count 1
      (matrix_get_ele, then the pointer updates or matrix_insert). */
  method VisitNeighbour(m: Matrix, x: int, y: int, k: nat, z: int, dir: nat, ghost src: Cell,
                        ghost live: set<Cell>, ghost visits: seq<Cell>, ghost done: set<Cell>,
                        ghost cols0: Columns)
    requires m.Valid() && dir < 6 && src == Cell(x, y, z)
    requires Visiting(m.Cols, m.side, live, visits, done, x, y, k, src, dir)
    requires Stable(cols0, m.Cols, m.side)
    modifies m.Repr
    ensures m.Valid() && fresh(m.Repr - old(m.Repr))
    ensures Visiting(m.Cols, m.side, live, visits, done, x, y, k, src, dir + 1)
    ensures Stable(cols0, m.Cols, m.side)
  {
    ghost var cols := m.Cols;
    ghost var nb := Neighbours(src, m.side);
    ghost var seen := nb[..dir];
    ghost var vs := visits + seen;
    var q := NeighbourAt(x, y, z, m.side, dir);
    var pos := m.GetEle(q.x, q.y, q.z);
    if pos != -1 {
      var t := m.NodeAt(q.x, q.y, pos);
      if t.isDead {
        BumpDead(m, x, y, k, q, pos, t, live, vs, done, seen);
      } else {
        BumpSource(m, x, y, k, q, live, vs, done, seen);
      }
    } else {
      TrackNew(m, x, y, k, q, live, vs, done, seen);
    }
    PrefixSnoc(visits, nb, dir);
    StableTrans(cols0, cols, m.Cols, m.side);
  }

  /** The start of the live-cell block: the source's count is reset to 0. */
  method ResetCount(m: Matrix, x: int, y: int, k: nat,
                    ghost live: set<Cell>, ghost visits: seq<Cell>, ghost done: set<Cell>)
      returns (z: int, ghost src: Cell)
    requires m.Valid() && DiscInv(m.Cols, m.side, live, visits, done)
    requires SourceSlot(m.Cols, m.side, done, x, y, k)
    modifies m.Repr
    ensures m.Valid() && m.Repr == old(m.Repr)
    ensures z == old(m.Cols[(x, y)][k].z) && src == Cell(x, y, z)
    ensures Visiting(m.Cols, m.side, live, visits, done, x, y, k, src, 0)
    ensures Stable(old(m.Cols), m.Cols, m.side)
  {
    ghost var cols0 := m.Cols;
    SourceRecord(cols0, m.side, live, visits, done, x, y, k);
    var n := m.NodeAt(x, y, k);
    z := n.z;
    src := Cell(x, y, z);
    var reset := n.(numNeighbours := 0);
    m.SetNode(x, y, k, reset);
    ResetSource(cols0, m.Cols, m.side, live, visits, done, x, y, k, reset);
    ghost var nb := Neighbours(src, m.side);
    assert nb[..0] == [] && visits + nb[..0] == visits;
  }

  /** The two neighbour blocks along one axis: numbers `dir` and `dir + 1`
      (z + 1 and z - 1 for 0, x + 1 and x - 1 for 2, y + 1 and y - 1 for 4). */
  method VisitAxis(m: Matrix, x: int, y: int, k: nat, z: int, dir: nat, ghost src: Cell, ghost dir2: nat,
                   ghost live: set<Cell>, ghost visits: seq<Cell>, ghost done: set<Cell>,
                   ghost cols0: Columns)
    requires m.Valid() && dir < 5 && dir2 == dir + 2 && src == Cell(x, y, z)
    requires Visiting(m.Cols, m.side, live, visits, done, x, y, k, src, dir)
    requires Stable(cols0, m.Cols, m.side)
    modifies m.Repr
    ensures m.Valid() && fresh(m.Repr - old(m.Repr))
    ensures Visiting(m.Cols, m.side, live, visits, done, x, y, k, src, dir2)
    ensures Stable(cols0, m.Cols, m.side)
  {
    VisitNeighbour(m, x, y, k, z, dir, src, live, visits, done, cols0);
    VisitNeighbour(m, x, y, k, z, dir + 1, src, live, visits, done, cols0);
  }

  /** The four neighbour blocks in the source's own layer (numbers 2 to 5). */
  method VisitPlane(m: Matrix, x: int, y: int, k: nat, z: int, ghost src: Cell,
                    ghost live: set<Cell>, ghost visits: seq<Cell>, ghost done: set<Cell>,
                    ghost cols0: Columns)
    requires m.Valid() && src == Cell(x, y, z)
    requires Visiting(m.Cols, m.side, live, visits, done, x, y, k, src, 2)
    requires Stable(cols0, m.Cols, m.side)
    modifies m.Repr
    ensures m.Valid() && fresh(m.Repr - old(m.Repr))
    ensures Visiting(m.Cols, m.side, live, visits, done, x, y, k, src, 6)
    ensures Stable(cols0, m.Cols, m.side)
  {
    VisitAxis(m, x, y, k, z, 2, src, 4, live, visits, done, cols0);
    VisitAxis(m, x, y, k, z, 4, src, 6, live, visits, done, cols0);
  }

  /** The six neighbour blocks: z + 1 and z - 1, then the four in the plane. */
  method VisitAll(m: Matrix, x: int, y: int, k: nat, z: int, ghost src: Cell,
                  ghost live: set<Cell>, ghost visits: seq<Cell>, ghost done: set<Cell>,
                  ghost cols0: Columns)
    requires m.Valid() && src == Cell(x, y, z)
    requires Visiting(m.Cols, m.side, live, visits, done, x, y, k, src, 0)
    requires Stable(cols0, m.Cols, m.side)
    modifies m.Repr
    ensures m.Valid() && fresh(m.Repr - old(m.Repr))
    ensures Visiting(m.Cols, m.side, live, visits, done, x, y, k, src, 6)
    ensures Stable(cols0, m.Cols, m.side)
  {
    VisitAxis(m, x, y, k, z, 0, src, 2, live, visits, done, cols0);
    VisitPlane(m, x, y, k, z, src, live, visits, done, cols0);
  }

  /** The live-cell block of the discovery pass for the source in slot `k` of
      column (x, y): reset its count, then visit its six neighbours in the
      program's order (z + 1, z - 1, x + 1, x - 1, y + 1, y - 1). */
  method ProcessLive(m: Matrix, x: int, y: int, k: nat,
                     ghost live: set<Cell>, ghost visits: seq<Cell>, ghost done: set<Cell>)
      returns (ghost src: Cell)
    requires m.Valid() && DiscInv(m.Cols, m.side, live, visits, done)
    requires SourceSlot(m.Cols, m.side, done, x, y, k)
    modifies m.Repr
    ensures m.Valid() && fresh(m.Repr - old(m.Repr))
    ensures src == Cell(x, y, old(m.Cols[(x, y)][k].z))
    ensures DiscInv(m.Cols, m.side, live, visits + Neighbours(src, m.side), done + {src})
    ensures Stable(old(m.Cols), m.Cols, m.side)
  {
    ghost var cols0 := m.Cols;
    var z;
    z, src := ResetCount(m, x, y, k, live, visits, done);
    VisitAll(m, x, y, k, z, src, live, visits, done, cols0);
    ghost var nb := Neighbours(src, m.side);
    assert nb[..6] == nb;
    FinishSource(m.Cols, m.side, live, visits + nb, done, x, y, k, src);
  }

  // ---------------------------------------------------------------------
  // The scan of the discovery pass.

  /** Slot `t` of column (x, y) is scanned before slot `k` of column (i, j):
      columns go by x, then by y, and a column's slots in order. */
  predicate Before(x: int, y: int, t: int, i: int, j: int, k: int)
  {
    x < i || (x == i && (y < j || (y == j && t < k)))
  }

  /** The columns a generation starts from: well formed, no dead records, and
      `live` the cells they describe. */
  ghost predicate Start(cols0: Columns, side: nat, live: set<Cell>)
  {
    WellFormed(cols0, side) && AllLive(cols0, side) && live == LiveSet(cols0, side)
  }

  /** The sources processed so far are exactly the live cells of the starting
      columns `cols0` whose slot is scanned before slot `k` of column (i, j). */
  ghost predicate Processed(cols0: Columns, live: set<Cell>, sources: seq<Cell>, i: int, j: int, k: int)
  {
    forall c {:trigger c in live} | c in live && (c.x, c.y) in cols0 ::
      c in sources <==> Before(c.x, c.y, IndexOfZ(cols0[(c.x, c.y)], c.z), i, j, k)
  }

  /** The discovery pass from `cols0` has reached slot `k` of column (i, j)
      with columns `cols`, having processed the live cells `sources` in order. */
  ghost predicate Scanning(cols0: Columns, cols: Columns, side: nat, live: set<Cell>, sources: seq<Cell>,
                           i: int, j: int, k: int)
  {
    && DiscInv(cols, side, live, Targets(sources, side), Elems(sources))
    && Distinct(sources)
    && Stable(cols0, cols, side)
    && Processed(cols0, live, sources, i, j, k)
  }

  /** What the discovery pass leaves: the live records are exactly `live`, every
      record, live or dead, holds its cell's number of live neighbours, and a
      cell without a record has no live neighbour. */
  ghost predicate Discovered(cols: Columns, side: nat, live: set<Cell>)
  {
    && WellFormed(cols, side)
    && LiveExact(cols, side, live)
    && (forall c {:trigger RecordOf(cols, c)} | InGrid(c, side) && Recorded(cols, c) ::
          RecordOf(cols, c).numNeighbours == LiveCount(live, c, side))
    && (forall c {:trigger Recorded(cols, c)} | InGrid(c, side) && !Recorded(cols, c) ::
          LiveCount(live, c, side) == 0)
  }

  lemma {:induction false} ScanStart(cols0: Columns, side: nat, live: set<Cell>)
    requires Start(cols0, side, live)
    ensures Scanning(cols0, cols0, side, live, [], 0, 0, 0)
  {
    forall c | InGrid(c, side) && Recorded(cols0, c) ensures !RecordOf(cols0, c).isDead {
      var t := IndexOfZ(cols0[(c.x, c.y)], c.z);
      assert RecordOf(cols0, c) == cols0[(c.x, c.y)][t];
    }
    StableRefl(cols0, side);
  }

  /** A live slot reached by the scan holds a record of the starting columns
      that has not been processed yet. */
  lemma {:induction false} SlotIsSource(cols0: Columns, cols: Columns, side: nat, live: set<Cell>,
                                        sources: seq<Cell>, i: int, j: int, k: nat)
    requires Start(cols0, side, live) && Scanning(cols0, cols, side, live, sources, i, j, k)
    requires 0 <= i < side && 0 <= j < side && k < |cols[(i, j)]| && !cols[(i, j)][k].isDead
    ensures k < |cols0[(i, j)]| && cols0[(i, j)][k].z == cols[(i, j)][k].z
    ensures IndexOfZ(cols0[(i, j)], cols0[(i, j)][k].z) == k
    ensures SourceSlot(cols, side, Elems(sources), i, j, k)
  {
    var col0 := cols0[(i, j)];
    assert k < |col0|;
    var c := Cell(i, j, col0[k].z);
    IndexOfUniqueZ(col0, k);
    assert Recorded(cols0, c) && RecordOf(cols0, c) == col0[k];
    assert c in live;
    assert c !in sources;
  }

  /** Processing a live slot adds its cell to the sources. */
  lemma {:induction false} ScanLive(cols0: Columns, cols: Columns, cols': Columns, side: nat, live: set<Cell>,
                                    sources: seq<Cell>, i: int, j: int, k: nat, src: Cell)
    requires Start(cols0, side, live) && Scanning(cols0, cols, side, live, sources, i, j, k)
    requires 0 <= i < side && 0 <= j < side && k < |cols0[(i, j)]|
    requires IndexOfZ(cols0[(i, j)], cols0[(i, j)][k].z) == k
    requires src == Cell(i, j, cols0[(i, j)][k].z) && src !in Elems(sources)
    requires DiscInv(cols', side, live, Targets(sources, side) + Neighbours(src, side), Elems(sources) + {src})
    requires Stable(cols, cols', side)
    ensures Scanning(cols0, cols', side, live, sources + [src], i, j, k + 1)
  {
    var s' := sources + [src];
    NewSource(sources, src, side);
    StableTrans(cols0, cols, cols', side);
    forall c | c in live && (c.x, c.y) in cols0
      ensures c in s' <==> Before(c.x, c.y, IndexOfZ(cols0[(c.x, c.y)], c.z), i, j, k + 1)
    {
      var t := IndexOfZ(cols0[(c.x, c.y)], c.z);
      assert c in s' <==> c in sources || c == src;
      if c.x == i && c.y == j && t == k {
        assert c == src;
      }
    }
  }

  /** Appending a cell that is not yet a source. */
  lemma NewSource(sources: seq<Cell>, src: Cell, side: nat)
    requires Distinct(sources) && src !in Elems(sources)
    ensures Targets(sources + [src], side) == Targets(sources, side) + Neighbours(src, side)
    ensures Elems(sources + [src]) == Elems(sources) + {src}
    ensures Distinct(sources + [src])
  {
    var s' := sources + [src];
    assert s'[..|sources|] == sources;
    forall a, b | 0 <= a < b < |s'| ensures s'[a] != s'[b] {
      if b == |sources| { assert s'[a] == sources[a]; } else { assert s'[a] == sources[a] && s'[b] == sources[b]; }
    }
  }

  /** A dead slot is not a record of the starting columns and is skipped. */
  lemma {:induction false} ScanDead(cols0: Columns, cols: Columns, side: nat, live: set<Cell>,
                                    sources: seq<Cell>, i: int, j: int, k: nat)
    requires Start(cols0, side, live) && Scanning(cols0, cols, side, live, sources, i, j, k)
    requires 0 <= i < side && 0 <= j < side && k < |cols[(i, j)]| && cols[(i, j)][k].isDead
    ensures Scanning(cols0, cols, side, live, sources, i, j, k + 1)
  {
    forall c | c in live && (c.x, c.y) in cols0
      ensures c in sources <==> Before(c.x, c.y, IndexOfZ(cols0[(c.x, c.y)], c.z), i, j, k + 1)
    {
      assert Recorded(cols0, c);
    }
  }

  /** Past the last slot the column was scanned with, every starting record of
      the column has been processed. */
  lemma {:induction false} ScanColumnEnd(cols0: Columns, cols: Columns, side: nat, live: set<Cell>,
                                         sources: seq<Cell>, i: int, j: int, limit: nat)
    requires Start(cols0, side, live) && Scanning(cols0, cols, side, live, sources, i, j, limit)
    requires 0 <= i < side && 0 <= j < side && |cols0[(i, j)]| <= limit
    ensures Scanning(cols0, cols, side, live, sources, i, j + 1, 0)
  {
    forall c | c in live && (c.x, c.y) in cols0
      ensures c in sources <==> Before(c.x, c.y, IndexOfZ(cols0[(c.x, c.y)], c.z), i, j + 1, 0)
    {
      assert Recorded(cols0, c);
    }
  }

  lemma {:induction false} ScanRowEnd(cols0: Columns, cols: Columns, side: nat, live: set<Cell>,
                                      sources: seq<Cell>, i: int)
    requires Start(cols0, side, live) && Scanning(cols0, cols, side, live, sources, i, side, 0)
    ensures Scanning(cols0, cols, side, live, sources, i + 1, 0, 0)
  {
  }

  /** The scan over: every live cell has been a source exactly once, so the
      counting argument applies to every cell. */
  lemma {:induction false} ScanDone(cols0: Columns, cols: Columns, side: nat, live: set<Cell>, sources: seq<Cell>)
    requires Start(cols0, side, live) && Scanning(cols0, cols, side, live, sources, side, 0, 0)
    ensures Discovered(cols, side, live)
  {
    var visits := Targets(sources, side);
    assert Elems(sources) == live;
    assert forall t | 0 <= t < |sources| :: InGrid(sources[t], side) by {
      forall t | 0 <= t < |sources| ensures InGrid(sources[t], side) {
        assert sources[t] in Elems(sources);
      }
    }
    forall c | InGrid(c, side)
      ensures multiset(visits)[c] == LiveCount(live, c, side)
    {
      TargetsCount(sources, side, c);
    }
    forall c | InGrid(c, side) && Recorded(cols, c)
      ensures RecordOf(cols, c).numNeighbours == LiveCount(live, c, side)
    {
      if !RecordOf(cols, c).isDead {
        assert IsLive(cols, c);
        assert c in Elems(sources);
      }
    }
    forall c | InGrid(c, side) && !Recorded(cols, c)
      ensures LiveCount(live, c, side) == 0
    {
      assert !IsLive(cols, c);
      assert forall t | 0 <= t < |visits| :: visits[t] != c;
      assert c !in multiset(visits);
    }
  }

  /** One slot of the discovery scan: a live record is processed as a source,
      a dead record is skipped. */
  method DiscoverSlot(m: Matrix, i: int, j: int, k: nat, ghost cols0: Columns, ghost live: set<Cell>,
                      ghost sources: seq<Cell>)
      returns (ghost sources': seq<Cell>)
    requires m.Valid() && Start(cols0, m.side, live)
    requires 0 <= i < m.side && 0 <= j < m.side && k < |m.Cols[(i, j)]|
    requires Scanning(cols0, m.Cols, m.side, live, sources, i, j, k)
    modifies m.Repr
    ensures m.Valid() && fresh(m.Repr - old(m.Repr))
    ensures Scanning(cols0, m.Cols, m.side, live, sources', i, j, k + 1)
    ensures |old(m.Cols[(i, j)])| <= |m.Cols[(i, j)]|
  {
    var n := m.NodeAt(i, j, k);
    if n.isDead {
      ScanDead(cols0, m.Cols, m.side, live, sources, i, j, k);
      sources' := sources;
    } else {
      ghost var src := DiscoverSource(m, i, j, k, cols0, live, sources);
      sources' := sources + [src];
    }
  }

  /** A live record met by the discovery scan becomes the next source. */
  method DiscoverSource(m: Matrix, i: int, j: int, k: nat, ghost cols0: Columns, ghost live: set<Cell>,
                        ghost sources: seq<Cell>)
      returns (ghost src: Cell)
    requires m.Valid() && Start(cols0, m.side, live)
    requires 0 <= i < m.side && 0 <= j < m.side && k < |m.Cols[(i, j)]| && !m.Cols[(i, j)][k].isDead
    requires Scanning(cols0, m.Cols, m.side, live, sources, i, j, k)
    modifies m.Repr
    ensures m.Valid() && fresh(m.Repr - old(m.Repr))
    ensures Scanning(cols0, m.Cols, m.side, live, sources + [src], i, j, k + 1)
    ensures |old(m.Cols[(i, j)])| <= |m.Cols[(i, j)]|
  {
    ghost var cols := m.Cols;
    SlotIsSource(cols0, cols, m.side, live, sources, i, j, k);
    src := ProcessLive(m, i, j, k, live, Targets(sources, m.side), Elems(sources));
    ScanLive(cols0, cols, m.Cols, m.side, live, sources, i, j, k, src);
  }

  /** The discovery scan of column (i, j): its slots up to the number of
      records it held when the scan reached it (`limit`); records appended
      meanwhile are dead and would be skipped anyway. */
  method DiscoverColumn(m: Matrix, i: int, j: int, ghost cols0: Columns, ghost live: set<Cell>,
                        ghost sources: seq<Cell>)
      returns (ghost sources': seq<Cell>)
    requires m.Valid() && Start(cols0, m.side, live)
    requires 0 <= i < m.side && 0 <= j < m.side
    requires Scanning(cols0, m.Cols, m.side, live, sources, i, j, 0)
    modifies m.Repr
    ensures m.Valid() && fresh(m.Repr - old(m.Repr))
    ensures Scanning(cols0, m.Cols, m.side, live, sources', i, j + 1, 0)
  {
    sources' := sources;
    var da := m.Get(i, j);
    if da == null {
      ScanColumnEnd(cols0, m.Cols, m.side, live, sources, i, j, 0);
      return;
    }
    var limit := da.used;
    for k := 0 to limit
      invariant m.Valid() && fresh(m.Repr - old(m.Repr))
      invariant limit <= |m.Cols[(i, j)]| && |cols0[(i, j)]| <= limit
      invariant Scanning(cols0, m.Cols, m.side, live, sources', i, j, k)
    {
      sources' := DiscoverSlot(m, i, j, k, cols0, live, sources');
    }
    ScanColumnEnd(cols0, m.Cols, m.side, live, sources', i, j, limit);
  }

  /** The discovery scan of the columns (i, 0) to (i, side - 1). */
  method DiscoverRow(m: Matrix, i: int, ghost cols0: Columns, ghost live: set<Cell>, ghost sources: seq<Cell>)
      returns (ghost sources': seq<Cell>)
    requires m.Valid() && Start(cols0, m.side, live) && 0 <= i < m.side
    requires Scanning(cols0, m.Cols, m.side, live, sources, i, 0, 0)
    modifies m.Repr
    ensures m.Valid() && fresh(m.Repr - old(m.Repr))
    ensures Scanning(cols0, m.Cols, m.side, live, sources', i + 1, 0, 0)
  {
    sources' := sources;
    for j := 0 to m.side
      invariant m.Valid() && fresh(m.Repr - old(m.Repr))
      invariant Scanning(cols0, m.Cols, m.side, live, sources', i, j, 0)
    {
      sources' := DiscoverColumn(m, i, j, cols0, live, sources');
    }
    ScanRowEnd(cols0, m.Cols, m.side, live, sources', i);
  }

  /** The discovery pass of one generation: every live record counts its live
      neighbours, and every dead neighbour of a live cell gets a dead record
      holding its own count. */
  method Discover(m: Matrix) returns (ghost live: set<Cell>)
    requires m.Valid() && WellFormed(m.Cols, m.side) && AllLive(m.Cols, m.side)
    modifies m.Repr
    ensures m.Valid() && fresh(m.Repr - old(m.Repr))
    ensures live == LiveSet(old(m.Cols), m.side)
    ensures Discovered(m.Cols, m.side, live)
  {
    ghost var cols0 := m.Cols;
    live := LiveSet(cols0, m.side);
    ScanStart(cols0, m.side, live);
    ghost var sources: seq<Cell> := [];
    for i := 0 to m.side
      invariant m.Valid() && fresh(m.Repr - old(m.Repr))
      invariant Scanning(cols0, m.Cols, m.side, live, sources, i, 0, 0)
    {
      sources := DiscoverRow(m, i, cols0, live, sources);
    }
    ScanDone(cols0, m.Cols, m.side, live, sources);
  }

  // ---------------------------------------------------------------------
  // The commit pass.

  /** Whether the commit keeps a record: a dead record is born with 2 or 3
      live neighbours, a live record survives unless it has fewer than 2 or
      more than 4. */
  predicate Keep(n: Node)
  {
    if n.isDead then Born(n.numNeighbours) else Survives(n.numNeighbours)
  }

  /** A kept record after the commit: live, with its count unchanged. */
  function Revive(n: Node): Node
  {
    n.(isDead := false)
  }

  /** The records of a column that the commit keeps, in their order, revived. */
  function KeptOf(s: seq<Node>): (r: seq<Node>)
    ensures |r| <= |s|
    ensures forall t | 0 <= t < |r| :: !r[t].isDead
  {
    if s == [] then []
    else (if Keep(s[0]) then [Revive(s[0])] else []) + KeptOf(s[1..])
  }

  /** The kept records are exactly the revived records the rules keep. */
  lemma {:induction false} KeptOfMembers(s: seq<Node>)
    ensures forall n | n in KeptOf(s) :: exists t | 0 <= t < |s| :: Keep(s[t]) && n == Revive(s[t])
    ensures forall t | 0 <= t < |s| && Keep(s[t]) :: Revive(s[t]) in KeptOf(s)
  {
    if s != [] {
      var tail := s[1..];
      KeptOfMembers(tail);
      assert forall t | 0 <= t < |tail| :: tail[t] == s[t + 1];
      forall n | n in KeptOf(s)
        ensures exists t | 0 <= t < |s| :: Keep(s[t]) && n == Revive(s[t])
      {
        if n !in KeptOf(tail) {
          assert Keep(s[0]) && n == Revive(s[0]);
        }
      }
    }
  }

  /** The commit scan of a column `col` (taken from the back) has reached slot
      `k` with contents `cur`: the slots below `k` are untouched and the rest
      holds, in some order, the kept records of `col[k..]`. */
  ghost predicate Committing(col: seq<Node>, cur: seq<Node>, k: nat)
  {
    && k <= |col| && k <= |cur|
    && cur[..k] == col[..k]
    && multiset(cur[k..]) == multiset(KeptOf(col[k..]))
    && UniqueZ(cur)
  }

  lemma CommitStart(col: seq<Node>)
    requires UniqueZ(col)
    ensures Committing(col, col, |col|)
  {
    assert col[|col|..] == [];
  }

  /** The kept records of a suffix, by its first record. */
  lemma KeptOfSuffix(col: seq<Node>, k: nat)
    requires k < |col|
    ensures KeptOf(col[k..]) == (if Keep(col[k]) then [Revive(col[k])] else []) + KeptOf(col[k + 1..])
  {
    assert col[k..][1..] == col[k + 1..];
  }

  lemma PrefixStep(col: seq<Node>, cur: seq<Node>, k: nat)
    requires k < |col| && k < |cur| && cur[..k + 1] == col[..k + 1]
    ensures cur[k] == col[k] && cur[..k] == col[..k]
  {
    assert cur[k] == cur[..k + 1][k];
    assert cur[..k] == cur[..k + 1][..k];
    assert col[..k] == col[..k + 1][..k];
  }

  /** Keeping slot `k`: reviving its record (a no-op on a live one). */
  lemma CommitKept(col: seq<Node>, cur: seq<Node>, k: nat)
    requires Committing(col, cur, k + 1) && k < |col| && Keep(col[k])
    ensures Committing(col, cur[k := Revive(cur[k])], k)
  {
    var cur' := cur[k := Revive(cur[k])];
    PrefixStep(col, cur, k);
    KeptOfSuffix(col, k);
    assert cur'[..k] == cur[..k];
    assert cur'[k..] == [Revive(col[k])] + cur[k + 1..];
    forall a, b | 0 <= a < b < |cur'| ensures cur'[a].z != cur'[b].z {
      assert cur'[a].z == cur[a].z && cur'[b].z == cur[b].z;
    }
  }

  /** The multiset of a suffix after a deletion in its first slot. */
  lemma SwapRemoveSuffix(cur: seq<Node>, k: nat)
    requires k < |cur|
    ensures multiset(SwapRemove(cur, k)[k..]) == multiset(cur[k + 1..])
  {
    var last := |cur| - 1;
    if k < last {
      var mid := cur[k + 1..last];
      assert SwapRemove(cur, k)[k..] == [cur[last]] + mid;
      assert cur[k + 1..] == mid + [cur[last]];
    }
  }

  /** Dropping slot `k`: its record is deleted and the last record takes its
      place. */
  lemma CommitDropped(col: seq<Node>, cur: seq<Node>, k: nat)
    requires Committing(col, cur, k + 1) && k < |col| && !Keep(col[k])
    ensures Committing(col, SwapRemove(cur, k), k)
  {
    var cur' := SwapRemove(cur, k);
    PrefixStep(col, cur, k);
    KeptOfSuffix(col, k);
    assert cur'[..k] == cur[..k];
    SwapRemoveSuffix(cur, k);
    SwapRemoveUnique(cur, k);
  }

  /** A committed column holds the kept records of its former contents. */
  ghost predicate ColumnCommitted(before: seq<Node>, after: seq<Node>)
  {
    multiset(after) == multiset(KeptOf(before)) && UniqueZ(after)
  }

  lemma CommitEnd(col: seq<Node>, cur: seq<Node>)
    requires Committing(col, cur, 0)
    ensures ColumnCommitted(col, cur)
  {
    assert cur[0..] == cur && col[0..] == col;
  }

  /** Delete the record in slot `k` of column (i, j), which the rules drop. */
  method DropSlot(m: Matrix, i: int, j: int, k: nat, n: Node, ghost col: seq<Node>)
    requires m.Valid() && 0 <= i < m.side && 0 <= j < m.side
    requires k < |col| && Committing(col, m.Cols[(i, j)], k + 1)
    requires n == m.Cols[(i, j)][k] && !Keep(n)
    modifies m.Repr
    ensures m.Valid() && fresh(m.Repr - old(m.Repr))
    ensures Committing(col, m.Cols[(i, j)], k)
    ensures m.Cols == old(m.Cols)[(i, j) := m.Cols[(i, j)]]
  {
    ghost var cur := m.Cols[(i, j)];
    assert cur[..k + 1][k] == col[..k + 1][k];
    IndexOfUniqueZ(cur, k);
    RemoveZAt(cur, n.z, k);
    CommitDropped(col, cur, k);
    m.Remove(i, j, n.z);
  }

  /** A dead record that is born becomes live in place. */
  method ReviveSlot(m: Matrix, i: int, j: int, k: nat, n: Node, ghost col: seq<Node>)
    requires m.Valid() && 0 <= i < m.side && 0 <= j < m.side
    requires k < |col| && Committing(col, m.Cols[(i, j)], k + 1)
    requires n == m.Cols[(i, j)][k] && n.isDead && Keep(n)
    modifies m.Repr
    ensures m.Valid() && fresh(m.Repr - old(m.Repr))
    ensures Committing(col, m.Cols[(i, j)], k)
    ensures m.Cols == old(m.Cols)[(i, j) := m.Cols[(i, j)]]
  {
    ghost var cur := m.Cols[(i, j)];
    assert cur[..k + 1][k] == col[..k + 1][k];
    CommitKept(col, cur, k);
    m.SetNode(i, j, k, n.(isDead := false));
  }

  /** One slot of the commit scan of column (i, j): a dead record is revived
      when born and deleted otherwise; a live record is deleted when it does
      not survive. */
  method CommitSlot(m: Matrix, i: int, j: int, k: nat, ghost col: seq<Node>)
    requires m.Valid() && 0 <= i < m.side && 0 <= j < m.side
    requires k < |col| && Committing(col, m.Cols[(i, j)], k + 1)
    modifies m.Repr
    ensures m.Valid() && fresh(m.Repr - old(m.Repr))
    ensures Committing(col, m.Cols[(i, j)], k)
    ensures m.Cols == old(m.Cols)[(i, j) := m.Cols[(i, j)]]
  {
    ghost var cur := m.Cols[(i, j)];
    assert cur[..k + 1][k] == col[..k + 1][k];
    var n := m.NodeAt(i, j, k);
    if n.isDead {
      if n.numNeighbours == 2 || n.numNeighbours == 3 {
        ReviveSlot(m, i, j, k, n, col);
      } else {
        DropSlot(m, i, j, k, n, col);
      }
    } else {
      if n.numNeighbours < 2 || n.numNeighbours > 4 {
        DropSlot(m, i, j, k, n, col);
      } else {
        CommitKept(col, cur, k);
        assert cur[k := Revive(cur[k])] == cur;
      }
    }
  }

  /** The commit scan of column (i, j), from its last slot down to slot 0:
      every record present when the scan starts is judged exactly once, and
      the column ends up holding its kept records. */
  method CommitColumn(m: Matrix, i: int, j: int)
    requires m.Valid() && 0 <= i < m.side && 0 <= j < m.side && UniqueZ(m.Cols[(i, j)])
    modifies m.Repr
    ensures m.Valid() && fresh(m.Repr - old(m.Repr))
    ensures ColumnCommitted(old(m.Cols[(i, j)]), m.Cols[(i, j)])
    ensures m.Cols == old(m.Cols)[(i, j) := m.Cols[(i, j)]]
  {
    ghost var col := m.Cols[(i, j)];
    var da := m.Get(i, j);
    if da == null {
      CommitStart(col);
      CommitEnd(col, col);
      return;
    }
    var k: nat := da.used;
    CommitStart(col);
    while k > 0
      invariant m.Valid() && fresh(m.Repr - old(m.Repr))
      invariant k <= |col| && Committing(col, m.Cols[(i, j)], k)
      invariant m.Cols == old(m.Cols)[(i, j) := m.Cols[(i, j)]]
    {
      k := k - 1;
      CommitSlot(m, i, j, k, col);
    }
    CommitEnd(col, m.Cols[(i, j)]);
  }

  /** The commit pass from `before` has committed the columns before (i, j),
      x first, then y, and left the others as they were. */
  ghost predicate CommitProgress(before: Columns, after: Columns, side: nat, i: int, j: int)
  {
    forall x, y | 0 <= x < side && 0 <= y < side ::
      && (x, y) in before && (x, y) in after
      && if x < i || (x == i && y < j) then ColumnCommitted(before[(x, y)], after[(x, y)])
         else after[(x, y)] == before[(x, y)]
  }

  /** Every column of `after` holds the kept records of its `before` version. */
  ghost predicate Committed(before: Columns, after: Columns, side: nat)
  {
    forall x, y | 0 <= x < side && 0 <= y < side ::
      (x, y) in before && (x, y) in after && ColumnCommitted(before[(x, y)], after[(x, y)])
  }

  /** The next column to commit is still as it was, so free of repeated depths. */
  lemma CommitPending(before: Columns, cols: Columns, side: nat, i: int, j: int)
    requires 0 <= i < side && 0 <= j < side && WellFormed(before, side)
    requires CommitProgress(before, cols, side, i, j)
    ensures (i, j) in cols && cols[(i, j)] == before[(i, j)] && UniqueZ(cols[(i, j)])
  {
  }

  /** Committing column (i, j) moves the commit frontier one column on. */
  lemma CommitStep(before: Columns, cols: Columns, cols': Columns, side: nat, i: int, j: int)
    requires 0 <= i < side && 0 <= j < side && CommitProgress(before, cols, side, i, j)
    requires (i, j) in cols' && cols' == cols[(i, j) := cols'[(i, j)]]
    requires ColumnCommitted(cols[(i, j)], cols'[(i, j)])
    ensures CommitProgress(before, cols', side, i, j + 1)
  {
  }

  /** The commit scan of the columns (i, 0) to (i, side - 1). */
  method CommitRow(m: Matrix, i: int, ghost before: Columns)
    requires m.Valid() && 0 <= i < m.side && WellFormed(before, m.side)
    requires CommitProgress(before, m.Cols, m.side, i, 0)
    modifies m.Repr
    ensures m.Valid() && fresh(m.Repr - old(m.Repr))
    ensures CommitProgress(before, m.Cols, m.side, i + 1, 0)
  {
    for j := 0 to m.side
      invariant m.Valid() && fresh(m.Repr - old(m.Repr))
      invariant CommitProgress(before, m.Cols, m.side, i, j)
    {
      CommitPending(before, m.Cols, m.side, i, j);
      ghost var cols := m.Cols;
      CommitColumn(m, i, j);
      CommitStep(before, cols, m.Cols, m.side, i, j);
    }
  }

  /** The commit pass of one generation. */
  method Commit(m: Matrix)
    requires m.Valid() && WellFormed(m.Cols, m.side)
    modifies m.Repr
    ensures m.Valid() && fresh(m.Repr - old(m.Repr))
    ensures Committed(old(m.Cols), m.Cols, m.side)
  {
    ghost var before := m.Cols;
    for i := 0 to m.side
      invariant m.Valid() && fresh(m.Repr - old(m.Repr))
      invariant CommitProgress(before, m.Cols, m.side, i, 0)
    {
      CommitRow(m, i, before);
    }
  }

  /** A committed column has only live records, each of a depth its former
      version had. */
  lemma CommittedShape(col: seq<Node>, cur: seq<Node>)
    requires ColumnCommitted(col, cur)
    ensures forall t | 0 <= t < |cur| :: !cur[t].isDead && HasZ(col, cur[t].z)
  {
    KeptOfMembers(col);
    var kept := KeptOf(col);
    forall t | 0 <= t < |cur| ensures !cur[t].isDead && HasZ(col, cur[t].z) {
      assert cur[t] in multiset(kept);
      assert cur[t] in kept;
    }
  }

  /** A committed column holds a depth exactly when its former version held
      it in a record the rules keep. */
  lemma CommittedHas(col: seq<Node>, cur: seq<Node>, z: int)
    requires ColumnCommitted(col, cur) && UniqueZ(col)
    ensures HasZ(cur, z) <==> HasZ(col, z) && Keep(col[IndexOfZ(col, z)])
  {
    KeptOfMembers(col);
    var kept := KeptOf(col);
    if HasZ(cur, z) {
      var t :| 0 <= t < |cur| && cur[t].z == z;
      assert cur[t] in multiset(kept);
      assert cur[t] in kept;
      var s :| 0 <= s < |col| && Keep(col[s]) && cur[t] == Revive(col[s]);
      IndexOfUniqueZ(col, s);
    }
    if HasZ(col, z) && Keep(col[IndexOfZ(col, z)]) {
      var s := IndexOfZ(col, z);
      assert Revive(col[s]) in multiset(cur);
      assert Revive(col[s]) in cur;
    }
  }

  /** One cell after the commit: live exactly when the reference rule makes it
      live. */
  lemma CellCommitted(cols: Columns, cols': Columns, side: nat, live: set<Cell>, c: Cell)
    requires Discovered(cols, side, live) && Committed(cols, cols', side) && InGrid(c, side)
    ensures IsLive(cols', c) <==> NextAlive(live, c, side)
  {
    var col, cur := cols[(c.x, c.y)], cols'[(c.x, c.y)];
    CommittedShape(col, cur);
    CommittedHas(col, cur, c.z);
    assert IsLive(cols', c) <==> HasZ(cur, c.z);
    if Recorded(cols, c) {
      assert RecordOf(cols, c) == col[IndexOfZ(col, c.z)];
      assert RecordOf(cols, c).isDead <==> c !in live by {
        assert IsLive(cols, c) <==> c in live;
      }
    } else {
      assert LiveCount(live, c, side) == 0;
      assert !IsLive(cols, c);
    }
  }

  /** The commit pass applied to what the discovery pass leaves yields the
      reference next generation, and a state fit for the next one. */
  lemma CommitCorrect(cols: Columns, cols': Columns, side: nat, live: set<Cell>)
    requires Discovered(cols, side, live) && Committed(cols, cols', side)
    ensures WellFormed(cols', side) && AllLive(cols', side)
    ensures LiveSet(cols', side) == NextGen(live, side)
  {
    forall x, y | 0 <= x < side && 0 <= y < side
      ensures forall t | 0 <= t < |cols'[(x, y)]| :: !cols'[(x, y)][t].isDead && 0 <= cols'[(x, y)][t].z < side
    {
      CommittedShape(cols[(x, y)], cols'[(x, y)]);
    }
    forall c | InGrid(c, side) ensures IsLive(cols', c) <==> NextAlive(live, c, side) {
      CellCommitted(cols, cols', side, live, c);
    }
  }

  /** One generation: the discovery pass, then the commit pass. */
  method Step(m: Matrix, ghost live: set<Cell>)
    requires m.Valid() && Holds(m.Cols, m.side, live)
    modifies m.Repr
    ensures m.Valid() && fresh(m.Repr - old(m.Repr))
    ensures Holds(m.Cols, m.side, NextGen(live, m.side))
  {
    ghost var live' := Discover(m);
    ghost var cols := m.Cols;
    Commit(m);
    CommitCorrect(cols, m.Cols, m.side, live');
  }

  /** The columns describe exactly the live cells `live`, with no dead records. */
  ghost predicate Holds(cols: Columns, side: nat, live: set<Cell>)
  {
    WellFormed(cols, side) && AllLive(cols, side) && LiveSet(cols, side) == live
  }

  /** The generation loop: `generations` steps. */
  method Run(m: Matrix, generations: nat, ghost live: set<Cell>)
    requires m.Valid() && Holds(m.Cols, m.side, live)
    modifies m.Repr
    ensures m.Valid() && fresh(m.Repr - old(m.Repr))
    ensures Holds(m.Cols, m.side, Generations(live, m.side, generations))
  {
    var gen: nat := 0;
    while gen < generations
      invariant m.Valid() && fresh(m.Repr - old(m.Repr))
      invariant gen <= generations
      invariant Holds(m.Cols, m.side, Generations(live, m.side, gen))
    {
      ghost var cur := Generations(live, m.side, gen);
      Step(m, cur);
      gen := gen + 1;
      assert Generations(live, m.side, gen) == NextGen(cur, m.side);
    }
  }

  // ---------------------------------------------------------------------
  // Loading the initial cells.

  /** The records of column (x, y) once the cells `cells` have been loaded
      into an empty matrix, in load order: one live record per cell of the
      column, with the count -1 the program stores. */
  function Loaded(cells: seq<Cell>, x: int, y: int): (r: seq<Node>)
    ensures |r| <= |cells|
  {
    if cells == [] then []
    else
      var c := cells[|cells| - 1];
      Loaded(cells[..|cells| - 1], x, y) + if c.x == x && c.y == y then [Node(c.z, -1, false)] else []
  }

  /** A loaded column holds live records for exactly the loaded cells of the
      column; without repeated cells no depth repeats. */
  lemma {:induction false} LoadedColumn(cells: seq<Cell>, x: int, y: int)
    ensures forall t | 0 <= t < |Loaded(cells, x, y)| :: !Loaded(cells, x, y)[t].isDead
    ensures forall z :: HasZ(Loaded(cells, x, y), z) <==> Cell(x, y, z) in cells
    ensures Distinct(cells) ==> UniqueZ(Loaded(cells, x, y))
  {
    if cells != [] {
      var init, c := cells[..|cells| - 1], cells[|cells| - 1];
      LoadedColumn(init, x, y);
      var r0 := Loaded(init, x, y);
      assert cells == init + [c];
      if Distinct(cells) {
        DistinctInit(cells);
      }
      if c.x == x && c.y == y {
        LoadedNew(cells, init, c, r0);
      } else {
        LoadedOther(cells, init, c, x, y);
      }
    }
  }

  /** A loaded cell of the column adds a live record of its depth. */
  lemma LoadedNew(cells: seq<Cell>, init: seq<Cell>, c: Cell, r0: seq<Node>)
    requires cells == init + [c] && r0 == Loaded(init, c.x, c.y)
    requires forall t | 0 <= t < |r0| :: !r0[t].isDead
    requires forall z :: HasZ(r0, z) <==> Cell(c.x, c.y, z) in init
    requires Distinct(cells) ==> UniqueZ(r0) && c !in Elems(init)
    ensures forall t | 0 <= t < |Loaded(cells, c.x, c.y)| :: !Loaded(cells, c.x, c.y)[t].isDead
    ensures forall z :: HasZ(Loaded(cells, c.x, c.y), z) <==> Cell(c.x, c.y, z) in cells
    ensures Distinct(cells) ==> UniqueZ(Loaded(cells, c.x, c.y))
  {
    var n := Node(c.z, -1, false);
    assert cells[..|cells| - 1] == init;
    assert Loaded(cells, c.x, c.y) == r0 + [n];
    forall z ensures HasZ(r0 + [n], z) <==> HasZ(r0, z) || n.z == z {
      HasZSnoc(r0, n, z);
    }
    assert c == Cell(c.x, c.y, c.z);
  }

  /** A loaded cell of another column leaves column (x, y) as it was. */
  lemma LoadedOther(cells: seq<Cell>, init: seq<Cell>, c: Cell, x: int, y: int)
    requires cells == init + [c] && (c.x, c.y) != (x, y)
    ensures Loaded(cells, x, y) == Loaded(init, x, y)
    ensures forall z :: Cell(x, y, z) in cells <==> Cell(x, y, z) in init
  {
    assert cells[..|cells| - 1] == init;
  }

  /** A record appended to a sequence adds its depth. */
  lemma HasZSnoc(r0: seq<Node>, n: Node, z: int)
    ensures HasZ(r0 + [n], z) <==> HasZ(r0, z) || n.z == z
  {
    var r := r0 + [n];
    if HasZ(r0, z) {
      var t :| 0 <= t < |r0| && r0[t].z == z;
      assert r[t].z == z;
    }
    if n.z == z {
      assert r[|r0|].z == z;
    }
  }

  /** Loading distinct in-grid cells gives columns that describe exactly them. */
  lemma LoadedHolds(cols: Columns, side: nat, cells: seq<Cell>)
    requires Distinct(cells) && forall t | 0 <= t < |cells| :: InGrid(cells[t], side)
    requires forall x, y | 0 <= x < side && 0 <= y < side :: (x, y) in cols && cols[(x, y)] == Loaded(cells, x, y)
    ensures Holds(cols, side, Elems(cells))
  {
    LoadedShape(cols, side, cells);
    LoadedLive(cols, side, cells);
    assert LiveSet(cols, side) == Elems(cells);
  }

  /** The loaded columns are well formed and hold only live records. */
  lemma LoadedShape(cols: Columns, side: nat, cells: seq<Cell>)
    requires Distinct(cells) && forall t | 0 <= t < |cells| :: InGrid(cells[t], side)
    requires forall x, y | 0 <= x < side && 0 <= y < side :: (x, y) in cols && cols[(x, y)] == Loaded(cells, x, y)
    ensures WellFormed(cols, side) && AllLive(cols, side)
  {
    forall x, y | 0 <= x < side && 0 <= y < side
      ensures UniqueZ(cols[(x, y)])
      ensures forall t | 0 <= t < |cols[(x, y)]| :: !cols[(x, y)][t].isDead && 0 <= cols[(x, y)][t].z < side
    {
      LoadedColumnShape(cells, side, x, y);
    }
  }

  /** A loaded column holds distinct, live, in-range depths. */
  lemma LoadedColumnShape(cells: seq<Cell>, side: nat, x: int, y: int)
    requires Distinct(cells) && forall t | 0 <= t < |cells| :: InGrid(cells[t], side)
    ensures UniqueZ(Loaded(cells, x, y))
    ensures forall t | 0 <= t < |Loaded(cells, x, y)| ::
              !Loaded(cells, x, y)[t].isDead && 0 <= Loaded(cells, x, y)[t].z < side
  {
    var col := Loaded(cells, x, y);
    LoadedColumn(cells, x, y);
    forall t | 0 <= t < |col| ensures 0 <= col[t].z < side {
      assert Cell(x, y, col[t].z) in cells;
    }
  }

  /** The live cells of the loaded columns are the cells read. */
  lemma LoadedLive(cols: Columns, side: nat, cells: seq<Cell>)
    requires Distinct(cells) && forall t | 0 <= t < |cells| :: InGrid(cells[t], side)
    requires forall x, y | 0 <= x < side && 0 <= y < side :: (x, y) in cols && cols[(x, y)] == Loaded(cells, x, y)
    ensures forall c | c in Elems(cells) :: InGrid(c, side) && IsLive(cols, c)
    ensures forall c | InGrid(c, side) && IsLive(cols, c) :: c in Elems(cells)
  {
    forall c | c in Elems(cells) ensures InGrid(c, side) && IsLive(cols, c) {
      LoadedColumn(cells, c.x, c.y);
      assert c == Cell(c.x, c.y, c.z);
    }
    forall c | InGrid(c, side) && IsLive(cols, c) ensures c in Elems(cells) {
      LoadedColumn(cells, c.x, c.y);
      assert c == Cell(c.x, c.y, c.z);
    }
  }

  /** The load loop: each cell read from the input is inserted as a live
      record with count -1, without a check for repeats. */
  method Load(m: Matrix, cells: seq<Cell>)
    requires m.Valid() && forall t | 0 <= t < |cells| :: InGrid(cells[t], m.side)
    requires forall x, y | 0 <= x < m.side && 0 <= y < m.side :: m.Cols[(x, y)] == []
    modifies m.Repr
    ensures m.Valid() && fresh(m.Repr - old(m.Repr))
    ensures forall x, y | 0 <= x < m.side && 0 <= y < m.side :: m.Cols[(x, y)] == Loaded(cells, x, y)
  {
    for t := 0 to |cells|
      invariant m.Valid() && fresh(m.Repr - old(m.Repr))
      invariant forall x, y | 0 <= x < m.side && 0 <= y < m.side :: m.Cols[(x, y)] == Loaded(cells[..t], x, y)
    {
      var c := cells[t];
      m.Insert(c.x, c.y, c.z, false, -1);
      assert cells[..t + 1][..t] == cells[..t];
    }
    assert cells[..|cells|] == cells;
  }
}
