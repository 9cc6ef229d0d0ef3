# life3d-mpi in Dafny

A model of the sparse engine behind `life3d-mpi.cpp`. The program plays a
3D Game of Life on a torus of side `SIZE`. Each cell has six face neighbours.

- A live cell survives with 2 to 4 live neighbours.
- A dead cell is born with exactly 2 or 3.

The grid is not stored densely. It is a `SIZE * SIZE` table of columns, one
per (x, y). Each column is a growable, unordered array (`dynamic_array`) of
`node` records: a depth `z`, a neighbour count and a dead flag. Dead
records exist only for cells that touch a live one.

The model covers five parts of the program:

- The column store (`dynamic_array` and `node`) is a `class` over an
  `array<Node>`. It uses capacity doubling and halving and deletes by
  swap-with-last.
- The sparse `Matrix` is a `class` over an `array<DynamicArray?>`. A ghost
  map `Cols` abstracts its contents, and `Repr` is its footprint.
- `pos_mod` and the `BLOCK_LOW`, `BLOCK_HIGH`, `BLOCK_SIZE` and
  `BLOCK_OWNER` macros, which partition the outer grid axis among workers.
- The loop that loads the input cells, and the generation loop. The
  generation loop is a discovery pass that counts neighbours and tracks
  dead neighbour cells, then a commit pass that applies the rules.
- `matrix_print_live`, which sorts each column with `std::sort` and lists
  the cells. `Lines` describes the printed lines as a function of the
  columns, and `Listing` is the printing loop.

**The generation loop and the final listing are inside one block comment
in the source** (`life3d-mpi.cpp:444-613`). The comment opens before the
generation loop (445-589) and closes only after the `matrix_print_live`
call (599) and the teardown that frees every column (602-613). As written,
worker 0 reads the cells into the matrix (338-342). It then broadcasts SIZE
and the generation count (355, 384) and sends the column lengths (366,
393). No cell record moves between workers: both the send of the records
(369-376) and their receive (408) are commented out. The program ends
without printing any cell.
The model states and proves the commented-out code as the intended
engine: `Generation.Run` is the generation loop and `Listing.PrintLive` is
the commented-out listing call. That code would not compile as it stands:
the generation loop declares a variable of type `Vector3` (448), a type the
file never defines.
Of the load, generation and listing pipeline only `Generation.Load`, with
the matrix operations it calls, runs in the program as written. Outside
that pipeline the program as written also evaluates `BLOCK_OWNER` (364,
366), `BLOCK_LOW` and `BLOCK_HIGH` (391), `make_matrix` (390) and
`da_make_ptr` (404), all of which are modelled.

The main result is in three parts:

- `Generation.Step` maps a matrix holding exactly the live set `live` to
  one holding exactly `Life.NextGen(live)`. `NextGen` is a dense reference
  rule defined cell by cell over the whole grid.
- The engine keeps every column free of repeated depths and of dead
  records between generations.
- `Listing.PrintLive` then lists exactly the live cells, in increasing
  (x, y, z) order.

Where the code and its names or comments disagree, the model follows the
code:

- `matrix_insert` is commented "ordered", but it appends (`Matrix.Insert`).
- `da_empty` returns the number of records, not a truth value
  (`DynamicArray.Empty`).
- `matrix_print_live` is commented as printing live nodes, but it prints
  every record of every column, dead ones included. `Listing.PrintLive`
  states what it prints for any matrix, and proves that this is exactly
  the live set when the matrix holds no dead records, as between
  generations.

The ordering in `matrix_print_live` only needs *some* sorted permutation.
`std::sort` is not stable. `ColumnStore.SortedUnique` shows that in a
column without repeated depths every sorted permutation is the same one,
so for such a column the functional `SortByZ` is exactly what `std::sort`
produces. A column can have repeated depths, for instance after
`Generation.Load` reads the same cell twice. `std::sort` may then order
the records of one depth differently from `SortByZ`. Every sorted
arrangement still has the same sequence of depths
(`ColumnStore.SortedSameDepths`), and only the depths are printed. So the
printed lines are the same whatever `std::sort` does
(`Lines.SortedColumnLines`).

References into nodes (`struct node*`) become indices into a column:
`Matrix.GetEle` returns a slot or -1, and `NodeAt` and `SetNode` read and
write through it. Integers are unbounded; see "Left out".

## Model

| member | source | states |
|---|---|---|
| ColumnStore.Max | life3d-mpi.cpp:9 | the result is the larger argument |
| ColumnStore.DynamicArray.constructor | life3d-mpi.cpp:41-49 | da_init: empty, capacity equal to the initial size, valid |
| ColumnStore.DynamicArray.Make | life3d-mpi.cpp:51-63 | da_make / da_make_ptr: an empty fresh column whose initial capacity is MAX(4, n) |
| ColumnStore.DynamicArray.Resize | life3d-mpi.cpp:65-72 | realloc to a new capacity keeps the first `used` records and the count |
| ColumnStore.DynamicArray.Insert | life3d-mpi.cpp:74-86 | contents become old contents plus the record; capacity doubles exactly when it was full; the capacity invariant is kept |
| ColumnStore.DynamicArray.DeleteAt | life3d-mpi.cpp:88-107 | an index at or past `used` changes nothing; otherwise contents become SwapRemove (last record into the gap), and capacity halves exactly when above the initial size and at most a quarter full |
| ColumnStore.DynamicArray.Empty | life3d-mpi.cpp:140-145 | returns the record count, which is zero exactly when the column is empty |
| ColumnStore.DynamicArray.Clear | life3d-mpi.cpp:147-153 | no records, capacity back to the initial size |
| ColumnStore.DynamicArray.FindZ | life3d-mpi.cpp:155-170 | the index of the first record of depth z, and -1 exactly when none has it |
| ColumnStore.DynamicArray.SortByDepth | life3d-mpi.cpp:250 | the used slots are reordered in place into SortByZ of the old contents; count and capacity unchanged |
| ColumnStore.IndexOfZ | life3d-mpi.cpp:162-169 | -1 exactly when no record has depth z; otherwise a slot with that depth and no earlier one |
| ColumnStore.HalvingKeepsInvariant | life3d-mpi.cpp:104-106 | halving a capacity above the initial one keeps it at least the initial one, and still the initial one times a power of two |
| ColumnStore.SwapRemove | life3d-mpi.cpp:98-102 | one slot fewer; the last record is moved into slot i; every other slot is unchanged |
| ColumnStore.SwapRemoveMultiset | life3d-mpi.cpp:98-102 | deletion removes exactly one occurrence of the deleted record |
| ColumnStore.SwapRemoveUnique | life3d-mpi.cpp:98-102 | deletion keeps a column free of repeated depths |
| ColumnStore.RemoveZ | life3d-mpi.cpp:227-238 | matrix_remove on one column: unchanged when the depth is absent, and the depth multiset loses exactly that depth |
| ColumnStore.RemoveZUnique | life3d-mpi.cpp:227-238 | in a column without repeats, the removed depth is gone and no repeat appears |
| ColumnStore.SortByZ | life3d-mpi.cpp:21-24 | sorted by depth (node's operator<) and a permutation of its input |
| ColumnStore.SortedUnique | life3d-mpi.cpp:250 | two depth-sorted permutations of a column without repeated depths are equal, so the order std::sort leaves is determined |
| ColumnStore.SortedSameDepths | life3d-mpi.cpp:250 | two depth-sorted arrangements of the same records, repeated depths allowed, have the same sequence of depths |
| SparseMatrix.Index | life3d-mpi.cpp:194 | slot x + y * side lies inside the side * side table |
| SparseMatrix.IndexInjective | life3d-mpi.cpp:194 | distinct in-range columns get distinct slots |
| SparseMatrix.Matrix.constructor | life3d-mpi.cpp:183-189 | make_matrix: every column absent, so empty |
| SparseMatrix.Matrix.Get | life3d-mpi.cpp:192-195 | the column in slot x + y * side: when null the column is empty, otherwise a valid column holding exactly its records |
| SparseMatrix.Matrix.GetEle | life3d-mpi.cpp:198-211 | the slot of depth z in column (x, y), and -1 exactly when the column is absent or lacks z |
| SparseMatrix.Matrix.NodeAt | life3d-mpi.cpp:466-469 | reading a record through its slot index (`ptr = data + k`, then `ptr->is_dead`, as the commit scan does again at 572-573) yields exactly the k-th record of column (x, y) |
| SparseMatrix.Matrix.CreateColumn | life3d-mpi.cpp:218-222 | installs a fresh empty column when the slot is null; the contents are unchanged |
| SparseMatrix.Matrix.Append | life3d-mpi.cpp:223 | da_insert on the existing column (x, y): that column becomes its old records plus the new one at the end, and every other column is unchanged |
| SparseMatrix.Matrix.Insert | life3d-mpi.cpp:214-224 | the record is appended to column (x, y), whose column is created if absent, all other columns are unchanged, and a new depth is found at the appended slot |
| SparseMatrix.Matrix.Remove | life3d-mpi.cpp:227-238 | column (x, y) becomes RemoveZ of itself; other columns are unchanged |
| SparseMatrix.Matrix.DeleteFrom | life3d-mpi.cpp:236 | da_delete_at on the existing column (x, y): that column becomes SwapRemove of its old records at pos, and every other column is unchanged |
| SparseMatrix.Matrix.SetNode | life3d-mpi.cpp:482-486 | a write through a node reference changes that one slot only |
| SparseMatrix.Matrix.SortColumn | life3d-mpi.cpp:248-250 | column (x, y) becomes SortByZ of itself; other columns and the table are unchanged |
| Torus.PosMod | life3d-mpi.cpp:281-293 | within one period of the range, the result lies in [0, mod) |
| Torus.PosModIsMod | life3d-mpi.cpp:281-293 | within one period of the range, pos_mod is the mathematical modulus |
| Torus.WrapEdges | life3d-mpi.cpp:281-293 | -1 wraps to mod - 1 and mod wraps to 0 |
| Torus.StepPair | life3d-mpi.cpp:479-555 | b is one step forward from a exactly when a is one step back from b |
| Partition.BlockLow | life3d-mpi.cpp:11 | BLOCK_LOW, the macro's expression; no contract of its own, its properties are the partition lemmas below |
| Partition.BlockHigh | life3d-mpi.cpp:12 | BLOCK_HIGH, the macro's expression; no contract of its own, its properties are the partition lemmas below |
| Partition.BlockSize | life3d-mpi.cpp:13 | BLOCK_SIZE, the macro's expression; no contract of its own, its properties are the partition lemmas below |
| Partition.BlockOwner | life3d-mpi.cpp:14 | BLOCK_OWNER, the macro's expression; no contract of its own, its properties are the partition lemmas below |
| Partition.BlockLowMonotone | life3d-mpi.cpp:11 | later workers never start before earlier ones |
| Partition.BlockEnds | life3d-mpi.cpp:11-12 | block 0 starts at 0 and block p - 1 ends at n - 1 |
| Partition.BlocksContiguous | life3d-mpi.cpp:11-13 | each block starts right after the previous one ends; its size is the distance between starts |
| Partition.BlockSizeBalanced | life3d-mpi.cpp:13 | with p <= n, every block is non-empty and holds n / p or n / p + 1 coordinates |
| Partition.BlockOwnerContains | life3d-mpi.cpp:14 | the owner of a coordinate is a valid worker whose block holds it |
| Partition.BlockOwnerIff | life3d-mpi.cpp:11-14 | a coordinate lies in worker id's block exactly when id is its owner |
| Partition.BlocksCoverAll | life3d-mpi.cpp:11-13 | the p block sizes add up to n |
| Life.Neighbours | life3d-mpi.cpp:479-555 | exactly six neighbours, each inside the grid when the cell is |
| Life.NeighbourSymmetric | life3d-mpi.cpp:479-555 | q is c's neighbour in one direction exactly when c is q's neighbour in the opposite direction |
| Life.NeighbourMultiplicity | life3d-mpi.cpp:479-555 | q is a neighbour of c exactly as often as c is a neighbour of q |
| Life.BirthNeedsLiveNeighbour | life3d-mpi.cpp:456-558 | a cell alive next generation is alive now or touches a live cell, so tracking only live cells' neighbours loses nothing |
| Life.TargetsCount | life3d-mpi.cpp:456-558 | once each live cell has visited its six neighbours, every cell has been visited exactly as often as it has live neighbours |
| Generation.RecordUpdate | life3d-mpi.cpp:483 | overwriting a record with one of the same depth keeps the columns well formed and every other cell's record |
| Generation.RecordInsert | life3d-mpi.cpp:488 | appending a record for an untracked cell adds that cell only |
| Generation.NeighbourAt | life3d-mpi.cpp:479-555 | neighbour number dir, as the pos_mod calls compute it, is Neighbours(c)[dir] |
| Generation.VisitAxis | life3d-mpi.cpp:479-504 | two neighbour blocks along one axis (dir and dir + 1: z, then x at 505-530, then y at 531-555): the visiting invariant moves from block dir to block dir + 2, and existing records are kept |
| Generation.VisitPlane | life3d-mpi.cpp:505-555 | the four in-layer blocks (x + 1, x - 1, y + 1, y - 1): the visiting invariant moves from block 2 to block 6 |
| Generation.VisitAll | life3d-mpi.cpp:479-555 | all six neighbour blocks in the source's order: the visiting invariant moves from block 0 to block 6: all six neighbours of the source have been visited, in order |
| Generation.VisitNeighbour | life3d-mpi.cpp:479-490 | one neighbour block: a dead record's count goes up, a live neighbour raises the source's count, and an untracked one is inserted dead with count 1; the discovery invariant is kept |
| Generation.BumpDead | life3d-mpi.cpp:482-483 | a neighbour with a dead record has its count raised by one; the discovery invariant now includes that visit, no existing record changes depth or liveness, and the source stays in its slot |
| Generation.BumpSource | life3d-mpi.cpp:484-485 | a neighbour with a live record raises the source's own count by one; the discovery invariant now includes that visit and the source has counted it |
| Generation.TrackNew | life3d-mpi.cpp:487-489 | a neighbour without a record is appended as a dead record with count 1; the discovery invariant now includes that visit, existing records keep their slots (so the refetched `ptr` is still the source) |
| Generation.ResetCount | life3d-mpi.cpp:474-477 | the source's count is reset to 0, starting its six visits |
| Generation.ProcessLive | life3d-mpi.cpp:473-555 | after the six visits, the source's count is its live-neighbour count and every dead record counts its visits |
| Generation.DiscoverSlot | life3d-mpi.cpp:466-471 | a dead slot is skipped; a live one is processed as the next source |
| Generation.DiscoverSource | life3d-mpi.cpp:473-555 | a live record met by the scan is processed (its six neighbour blocks) and becomes the next source; the scan moves to slot k + 1 and the column never shrinks |
| Generation.DiscoverColumn | life3d-mpi.cpp:458-556 | scanning one column up to the record count it had when reached (the limit) keeps the discovery invariant and moves it to the next column |
| Generation.DiscoverRow | life3d-mpi.cpp:457-557 | scanning the columns (i, 0) to (i, side - 1) moves the discovery scan from the start of row i to the start of row i + 1 |
| Generation.Discover | life3d-mpi.cpp:456-558 | afterwards every live cell keeps its record with its live-neighbour count, and every tracked dead cell has a record counting its live neighbours; a cell with no record has none |
| Generation.KeptOfMembers | life3d-mpi.cpp:573-585 | the kept records are exactly the revived records that the birth and survival rules keep |
| Generation.CommitSlot | life3d-mpi.cpp:572-585 | one slot of the backward scan: the slots from k on hold the kept records of the original slots from k on; a dead record is revived when born (2 or 3) and removed otherwise, a live one removed unless it has 2 to 4 |
| Generation.DropSlot | life3d-mpi.cpp:576-578 | a record the rules drop (dead and not born, or, at 581-583, live and not surviving) is removed by depth, which extends the committed suffix to slot k and leaves every other column unchanged |
| Generation.ReviveSlot | life3d-mpi.cpp:574-575 | a dead record with 2 or 3 neighbours becomes live in its slot, which extends the committed suffix to slot k and leaves every other column unchanged |
| Generation.CommitColumn | life3d-mpi.cpp:566-586 | the backward scan leaves the column holding a permutation of its kept records, revived, without repeated depths; other columns are unchanged |
| Generation.CommitRow | life3d-mpi.cpp:565-587 | committing the columns (i, 0) to (i, side - 1) moves the commit pass from the start of row i to the start of row i + 1 |
| Generation.Commit | life3d-mpi.cpp:564-588 | every column ends up holding, without repeated depths, a permutation of its kept records |
| Generation.CommittedHas | life3d-mpi.cpp:564-588 | a committed column holds a depth exactly when its former record of that depth is kept |
| Generation.CommitCorrect | life3d-mpi.cpp:564-588 | commit after discovery yields well-formed, all-live columns whose live set is NextGen |
| Generation.Step | life3d-mpi.cpp:446-588 | one generation maps a matrix holding live to one holding NextGen(live) |
| Generation.Run | life3d-mpi.cpp:445-589 | after n generations the matrix holds Generations(live, n) |
| Generation.LoadedColumn | life3d-mpi.cpp:340-342 | a loaded column is all live and holds a depth exactly when that cell was read; without repeated input cells, no depth repeats |
| Generation.LoadedHolds | life3d-mpi.cpp:338-342 | loading distinct in-grid cells gives a matrix that holds exactly those cells |
| Generation.Load | life3d-mpi.cpp:338-342 | every column holds Loaded: one live record with count -1 per input cell of the column, in input order |
| Lines.ColumnCells | life3d-mpi.cpp:251-254 | one line (i, j, z) per slot of the column, in slot order |
| Lines.SortedColumnLines | life3d-mpi.cpp:250-254 | the lines printed for a sorted column are the same for every sorted arrangement of its records, so they do not depend on how `std::sort` orders records of equal depth |
| Listing.ListColumn | life3d-mpi.cpp:251-254 | the loop over a column's slots produces ColumnCells |
| Listing.PrintColumn | life3d-mpi.cpp:246-255 | column (i, j) is sorted in place, then listed |
| Listing.PrintNext | life3d-mpi.cpp:246-255 | one step of the j loop: column (i, j) is sorted and its lines are added to the row's listing, which is then RowCells of the columns up to j + 1 |
| Listing.PrintRow | life3d-mpi.cpp:245-256 | the columns of row i are sorted and their lines concatenated in y order |
| Listing.PrintLive | life3d-mpi.cpp:241-258 | every column is sorted in place by depth; the lines are the columns' records in (x, y) then slot order, and a cell is listed exactly when its column held a record of that depth, dead or live; for a matrix holding exactly live, the lines are exactly live, strictly increasing in (x, y, z) |
| Listing.ListingDone | life3d-mpi.cpp:241-258 | once every column is sorted, the listing names exactly the recorded cells, and for a matrix holding live it is exactly live, strictly increasing |
| Listing.ListingIsLive | life3d-mpi.cpp:240 | for a matrix holding exactly live, the listing contains exactly live |
| Lines.GridCellsIncreasing | life3d-mpi.cpp:244-254 | with strictly sorted columns, the listing of the first i rows is strictly increasing in (x, y, z) and stays within those rows |
| Lines.ListedIff | life3d-mpi.cpp:244-254 | a cell is listed exactly when it lies in the grid and its column has a record of its depth |
| Lines.GridCellsFrame | life3d-mpi.cpp:244-256 | the lines of rows 0 to i - 1 depend only on those rows' columns, so sorting later rows does not change them |
| Listing.SortKeepsHolds | life3d-mpi.cpp:250 | sorting every column keeps the matrix holding the same live set, and leaves each column strictly sorted |
| Listing.ListingRecords | life3d-mpi.cpp:241-258 | after the sort, a cell is listed exactly when its column had a record of its depth before the sort |

## Left out

- MPI: initialisation, the broadcast of SIZE and the generation count,
  the column-length messages and the receiving side (lines 300-415) are
  distribution and I/O. The `MPI_Send` of a row's length vector sits
  inside the y loop (366), so worker 0 sends it once per column (SIZE
  times per row), while each receiver posts one `MPI_Recv` per row (393). The partition they rely on
  is modelled in `Partition`.
- File and argument handling: argc, atoi, fopen and fscanf, with their
  error exits. `Generation.Load` takes the cells already read.
- Printing: `printf` output is the returned sequence of cells. `print_node`,
  `da_print` and `matrix_print` are debug output and are not modelled.
- Timing (`MPI_Wtime`) is left out.
- Memory: `da_free`, `malloc` and `calloc` failure, and freeing the table
  are left out. The model allocates and never frees.
- The `short` fields and coordinates: the model uses unbounded integers.
  A neighbour count cannot exceed 6, and a side below 32768 keeps every
  coordinate in range, so no wrap-around occurs there. Inputs larger than
  that are not modelled.
- Generation.Load: requires every input cell to lie in the grid. The
  source does not check this, and an out-of-range x or y indexes outside
  the table. A repeated input cell storing two records of one depth is
  modelled, but the correctness lemmas assume distinct cells.
- ColumnStore.DynamicArray.SortByDepth: does not model the algorithm inside
  `std::sort`. It writes the sorted order in one step. `SortedUnique`
  shows that any sorting algorithm gives the same result for a column
  without repeated depths. With repeated depths, `std::sort` may leave
  the records of one depth in another order than `SortByZ`. Then only
  the depth sequence, and so the printed lines, is the same
  (`SortedSameDepths`, `Lines.SortedColumnLines`).
- ColumnStore.DynamicArray.constructor: requires an initial capacity of at
  least 1. `da_init` accepts 0, but every caller passes MAX(4, n).
- Torus.PosMod: correct only for values within one period of the range.
  That matches the program, whose arguments are always a coordinate plus
  or minus 1.
- The gathering of results from other workers does not exist in the
  source, so there is nothing to model.
