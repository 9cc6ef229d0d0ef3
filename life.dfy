/** The dense reference semantics of one generation of the 3D automaton on a
    torus of side `side`: every cell has six face neighbours; a live cell
    stays alive with 2 to 4 live neighbours, a dead cell is born with 2 or 3.
    The sparse engine in module Generation is proved to compute exactly this. */
module Life {
  import opened Torus

  datatype Cell = Cell(x: int, y: int, z: int)

  predicate InGrid(c: Cell, side: int)
  {
    0 <= c.x < side && 0 <= c.y < side && 0 <= c.z < side
  }

  /** Every cell of the grid. */
  function Grid(side: nat): (g: set<Cell>)
    ensures forall c :: c in g <==> InGrid(c, side)
  {
    var r := set x, y, z | 0 <= x < side && 0 <= y < side && 0 <= z < side :: Cell(x, y, z);
    assert forall c | InGrid(c, side) :: c in r by {
      forall c | InGrid(c, side) ensures c in r {
        assert c == Cell(c.x, c.y, c.z);
      }
    }
    r
  }

  /** The six face neighbours (z + 1, z - 1, x + 1, x - 1, y + 1, y - 1), each
      coordinate wrapped around the torus, in the order the discovery pass
      visits them. */
  function Neighbours(c: Cell, side: int): (r: seq<Cell>)
    ensures |r| == 6
    ensures InGrid(c, side) ==> forall d | 0 <= d < 6 :: InGrid(r[d], side)
  {
    [ Cell(c.x, c.y, PosMod(c.z + 1, side)), Cell(c.x, c.y, PosMod(c.z - 1, side)),
      Cell(PosMod(c.x + 1, side), c.y, c.z), Cell(PosMod(c.x - 1, side), c.y, c.z),
      Cell(c.x, PosMod(c.y + 1, side), c.z), Cell(c.x, PosMod(c.y - 1, side), c.z) ]
  }

  /** How many entries of `s` are in `live`. */
  function CountIn(s: seq<Cell>, live: set<Cell>): (n: nat)
    ensures n <= |s|
  {
    if s == [] then 0
    else
      CountIn(s[..|s| - 1], live) + if s[|s| - 1] in live then 1 else 0
  }

  /** The count is positive exactly when some entry is live. */
  lemma {:induction false} CountInPositive(s: seq<Cell>, live: set<Cell>)
    ensures CountIn(s, live) > 0 <==> exists t | 0 <= t < |s| :: s[t] in live
  {
    if s != [] {
      var init := s[..|s| - 1];
      CountInPositive(init, live);
      assert forall t | 0 <= t < |init| :: init[t] == s[t];
    }
  }

  /** Number of live face neighbours of `c` (a neighbour reached twice, on a
      torus of side 1 or 2, counts twice). */
  function LiveCount(live: set<Cell>, c: Cell, side: int): nat
  {
    CountIn(Neighbours(c, side), live)
  }

  /** Birth rule: a dead cell becomes live with exactly 2 or 3 live neighbours. */
  predicate Born(n: int)
  {
    n == 2 || n == 3
  }

  /** Survival rule: a live cell dies with fewer than 2 or more than 4. */
  predicate Survives(n: int)
  {
    !(n < 2 || n > 4)
  }

  predicate NextAlive(live: set<Cell>, c: Cell, side: nat)
  {
    InGrid(c, side) &&
    if c in live then Survives(LiveCount(live, c, side)) else Born(LiveCount(live, c, side))
  }

  /** The live cells of the next generation, cell by cell over the whole grid. */
  function NextGen(live: set<Cell>, side: nat): set<Cell>
  {
    set c | c in Grid(side) && NextAlive(live, c, side)
  }

  /** `n` generations. */
  function Generations(live: set<Cell>, side: nat, n: nat): set<Cell>
  {
    if n == 0 then live else NextGen(Generations(live, side, n - 1), side)
  }

  // ---------------------------------------------------------------------
  // Properties of the reference rule.

  /** A cell can only be alive next generation if it is alive now or touches a
      live cell: cells away from every live cell never need to be tracked. */
  lemma BirthNeedsLiveNeighbour(live: set<Cell>, c: Cell, side: nat)
    requires c in NextGen(live, side)
    ensures c in live || exists d | 0 <= d < 6 :: Neighbours(c, side)[d] in live
  {
    CountInPositive(Neighbours(c, side), live);
  }

  /** The neighbour relation is symmetric: stepping in direction `d` and then
      in the opposite direction returns to the start. */
  lemma NeighbourSymmetric(c: Cell, q: Cell, side: nat)
    requires InGrid(c, side) && InGrid(q, side)
    ensures Neighbours(c, side)[0] == q <==> Neighbours(q, side)[1] == c
    ensures Neighbours(c, side)[1] == q <==> Neighbours(q, side)[0] == c
    ensures Neighbours(c, side)[2] == q <==> Neighbours(q, side)[3] == c
    ensures Neighbours(c, side)[3] == q <==> Neighbours(q, side)[2] == c
    ensures Neighbours(c, side)[4] == q <==> Neighbours(q, side)[5] == c
    ensures Neighbours(c, side)[5] == q <==> Neighbours(q, side)[4] == c
  {
    StepPair(c.x, q.x, side);
    StepPair(c.y, q.y, side);
    StepPair(c.z, q.z, side);
  }

  /** Occurrences of `q` in a six-element sequence, axis by axis. */
  lemma MultiplicitySix(s: seq<Cell>, q: Cell)
    requires |s| == 6
    ensures multiset(s)[q] ==
      multiset([s[0], s[1]])[q] + multiset([s[2], s[3]])[q] + multiset([s[4], s[5]])[q]
  {
    assert s == [s[0], s[1]] + [s[2], s[3]] + [s[4], s[5]];
  }

  /** Two neighbours along one axis, matched against the reverse steps. */
  lemma AxisMultiplicity(a0: Cell, a1: Cell, b0: Cell, b1: Cell, q: Cell, c: Cell)
    requires a0 == q <==> b1 == c
    requires a1 == q <==> b0 == c
    ensures multiset([a0, a1])[q] == multiset([b0, b1])[c]
  {
  }

  /** `q` is a neighbour of `c` exactly as often as `c` is a neighbour of `q`. */
  lemma NeighbourMultiplicity(c: Cell, q: Cell, side: nat)
    requires InGrid(c, side) && InGrid(q, side)
    ensures multiset(Neighbours(c, side))[q] == multiset(Neighbours(q, side))[c]
  {
    var nc, nq := Neighbours(c, side), Neighbours(q, side);
    NeighbourSymmetric(c, q, side);
    MultiplicitySix(nc, q);
    MultiplicitySix(nq, c);
    AxisMultiplicity(nc[0], nc[1], nq[0], nq[1], q, c);
    AxisMultiplicity(nc[2], nc[3], nq[2], nq[3], q, c);
    AxisMultiplicity(nc[4], nc[5], nq[4], nq[5], q, c);
  }

  /** Adding one cell to the live set adds its occurrences to the count. */
  lemma {:induction false} CountInAdd(s: seq<Cell>, live: set<Cell>, c: Cell)
    requires c !in live
    ensures CountIn(s, live + {c}) == CountIn(s, live) + multiset(s)[c]
  {
    if s != [] {
      var init := s[..|s| - 1];
      CountInAdd(init, live, c);
      assert s == init + [s[|s| - 1]];
    }
  }

  /** Cells of a sequence. */
  function Elems(s: seq<Cell>): (e: set<Cell>)
    ensures forall c :: c in e <==> c in s
  {
    set c | c in s
  }

  predicate Distinct(s: seq<Cell>)
  {
    forall a, b | 0 <= a < b < |s| :: s[a] != s[b]
  }

  /** The neighbour visits made for the sources `sources`, in order: the
      neighbours of the first source, then those of the second, and so on. */
  function Targets(sources: seq<Cell>, side: nat): (r: seq<Cell>)
    ensures |r| == 6 * |sources|
  {
    if sources == [] then []
    else Targets(sources[..|sources| - 1], side) + Neighbours(sources[|sources| - 1], side)
  }

  /** Dropping the last of a list of distinct cells. */
  lemma DistinctInit(s: seq<Cell>)
    requires Distinct(s) && s != []
    ensures Distinct(s[..|s| - 1])
    ensures s[|s| - 1] !in Elems(s[..|s| - 1])
    ensures Elems(s) == Elems(s[..|s| - 1]) + {s[|s| - 1]}
  {
    var init := s[..|s| - 1];
    assert forall t | 0 <= t < |init| :: init[t] == s[t];
    assert s == init + [s[|s| - 1]];
  }

  lemma TargetsLast(sources: seq<Cell>, side: nat, q: Cell)
    requires sources != []
    ensures multiset(Targets(sources, side))[q] ==
      multiset(Targets(sources[..|sources| - 1], side))[q]
      + multiset(Neighbours(sources[|sources| - 1], side))[q]
  {
  }

  /** The sources before the last are in the grid, as is the last. */
  lemma InitInGrid(sources: seq<Cell>, init: seq<Cell>, side: nat)
    requires sources != [] && init == sources[..|sources| - 1]
    requires forall t | 0 <= t < |sources| :: InGrid(sources[t], side)
    ensures forall t | 0 <= t < |init| :: InGrid(init[t], side)
    ensures InGrid(sources[|sources| - 1], side)
  {
    assert forall t | 0 <= t < |init| :: init[t] == sources[t];
  }

  /** The counting argument behind the discovery pass: when every live cell
      (listed once each in `sources`) has visited its six neighbours, every
      grid cell has been visited exactly as many times as it has live
      neighbours. */
  lemma {:induction false} TargetsCount(sources: seq<Cell>, side: nat, q: Cell)
    requires Distinct(sources)
    requires forall t | 0 <= t < |sources| :: InGrid(sources[t], side)
    requires InGrid(q, side)
    ensures multiset(Targets(sources, side))[q] == LiveCount(Elems(sources), q, side)
  {
    if sources != [] {
      var init := sources[..|sources| - 1];
      var c := sources[|sources| - 1];
      var nq := Neighbours(q, side);
      DistinctInit(sources);
      InitInGrid(sources, init, side);
      calc {
        multiset(Targets(sources, side))[q];
      == { TargetsLast(sources, side, q); }
        multiset(Targets(init, side))[q] + multiset(Neighbours(c, side))[q];
      == { TargetsCount(init, side, q); NeighbourMultiplicity(c, q, side); }
        CountIn(nq, Elems(init)) + multiset(nq)[c];
      == { CountInAdd(nq, Elems(init), c); }
        CountIn(nq, Elems(init) + {c});
      }
    } else {
      CountInPositive(Neighbours(q, side), Elems(sources));
    }
  }
}
