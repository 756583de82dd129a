# TryMazes grid layer, generators and text renderers in Dafny

This project models the core of TryMazes, a maze toolkit written in Rust, and proves properties of
the model. It covers:

- **The grid abstraction.** `Position2d`, with its derived ordering, and the `Grid2d` contract:
  `append_neighbors` only extends the caller's vector, and `connect_to` opens a passage between
  two adjacent cells or returns false.
- **Four topologies:**
  - rectangular (`RectGrid`), with its optional `RectMask`;
  - hexagonal (`HexaGrid`);
  - triangular (`TriGrid`);
  - concentric-ring (`CircGrid`).

  Each topology fixes how a position steps in a direction and how positions map to flat
  indices. Each stores a passage once, as one flag on one of its two cells; a query from the
  other side reads the neighbour's flag in the reverse direction. The model proves that a
  passage is seen from both sides and that `connect_to` changes exactly one passage.
- **The mask.** `RectMask` holds a flag array and a row-major index map. It reads a text
  format, one line per row, where `x`/`X` marks an inactive cell. Its isolation check runs a
  breadth-first flood fill from the first active cell.
- **Three generators:**
  - Binary Tree and Sidewinder over a `RectGrid` (`src/gene/rect.rs`);
  - the same two over a fresh grid, plus Aldous-Broder (`src/gene.rs`).

  Randomness is an oracle parameter. A generator is proved equal to replaying a log of
  `connect_to` requests, and the log is proved to have the properties the algorithm promises.
- **Two renderers.** `RectMazeCmdDisplay`, with the ASCII and Unicode box charsets, and the older
  `AsciiMazeDisplay`. Each is proved equal to a line-by-line rendering function, whose line
  counts, widths and per-cell text are stated as lemmas.

**How the modules map to the source:**

| module | file |
|---|---|
| `Maze` | `src/maze.rs` (plus `GeneralRectGrid`, whose source is not part of this model) |
| `Rect` | `src/maze/rect.rs` |
| `Hexa` | `src/maze/hexa.rs` |
| `Tri` | `src/maze/tri.rs` |
| `Circ` | `src/maze/circ.rs` |
| `GeneRect` | `src/gene/rect.rs` |
| `Gene` | `src/gene.rs` |
| `ShowRect` | `src/show/rect.rs` |
| `Show` | `src/show.rs` |

`Wrappers`, `Flags` and `Strings` hold the shared `Option`/`Result` types, flag counting and
string concatenation.

**How the Rust code is rendered in Dafny:**

- Each grid is a class with an immutable `layout` and a `cells` sequence that its methods
  reassign. Every method states its new `cells` as a value-level function of the old ones
  (`Connect`, `ConnectAll`). The lemmas about those functions carry the properties.
- `GeneralRectGrid` is modelled as a `Layout` (width, height and an optional mask) over
  row-major cells: a position is a cell when it is inside the bounds and, with a mask, its flag
  is set.
- Rust's `usize` is modelled by `nat`.

## Model

| member | source | states |
|---|---|---|
| Maze.Compare | src/maze.rs:7-8 | the derived ordering of `Position2d` says Equal exactly for equal positions |
| Maze.CompareIsTotalOrder | src/maze.rs:7-8 | the ordering is lexicographic on (first, second): antisymmetric, transitive, equality component-wise |
| Maze.IndexOf | src/maze/rect.rs:353 | the row-major index map behind `cell(pos)` is defined exactly inside the bounds and lands below width*height |
| Maze.PositionAt | src/maze/rect.rs:238-244 | every flat index below width*height is the index of some in-bounds position |
| Maze.FlatIndex | src/maze/rect.rs:353 | a cell's row-major index is below width*height |
| Maze.FlatIndexInjective | src/maze/rect.rs:353 | distinct cells occupy distinct slots of the cell array |
| Maze.PositionAtIndexOf | src/maze/rect.rs:230-244 | position to index to position is the identity |
| Maze.CellsN | src/maze/rect.rs:257-259 | the cell count of a grid (`Grid2d::cells_n` of the rectangular, hexagonal and triangular grids) is at most width*height |
| Maze.CellsNCountsCells | src/maze/rect.rs:257-259 | the cell count is exactly the number of flat indices whose position is a cell: all of them without a mask, the set flags with one |
| Flags.CountTrue | src/maze/rect.rs:197-199 | the number of set flags never exceeds the number of flags |
| Flags.CountTrueIsCardinality | src/maze/rect.rs:197-199 | counting set flags equals the size of the set of their indices |
| Flags.CountTrueUpdate | src/maze/rect.rs:181-185 | writing one flag changes the count by exactly that flag's change |
| Flags.Repeat | src/maze/rect.rs:126 | `vec![x; n]` has n entries, all x |
| Flags.CountTrueRepeat | src/maze/rect.rs:122-128 | a freshly made mask of all-false flags has no cells |
| Rect.Reverse | src/maze/rect.rs:55-62 | `reverse` never returns its argument |
| Rect.ReverseIsInvolution | src/maze/rect.rs:55-62 | `reverse` is an involution |
| Rect.FromPosition2d | src/maze/rect.rs:77-84 | converting back from a `Position2d` and forward again gives the same `Position2d` |
| Rect.PositionConversionRoundTrip | src/maze.rs:10-14 | a `RectPosition` becomes `Position2d(row, col)` and converts back to itself |
| Rect.Neighbor | src/maze/rect.rs:98-106 | `neighbor` is None exactly for North on row 0 and West on column 0 |
| Rect.NeighborRoundTrip | src/maze/rect.rs:98-106 | South and East shift by one; stepping to a neighbour and back in the reverse direction returns |
| Rect.NeighborsDistinct | src/maze/rect.rs:98-106 | different directions lead to different neighbours |
| Rect.FlatIndInverse | src/maze/rect.rs:108-111 | `flat_ind` divided and reduced by the row width gives back row and column |
| Rect.MaskPosToInd | src/maze/rect.rs:230-236 | `pos_to_ind` stays below width*height |
| Rect.MaskIndexRoundTrip | src/maze/rect.rs:230-244 | `pos_to_ind` is Some exactly in bounds, with value row*width+col; `ind_to_pos` is Some exactly below width*height and the two invert each other |
| Rect.ActiveBeforeCard | src/maze/rect.rs:191-199 | the active positions among the first k flags number the set flags among them |
| Rect.ActiveCellsSpec | src/maze/rect.rs:187-199 | `cells_n` counts exactly the positions `is_cell` accepts |
| Rect.FirstSet | src/maze/rect.rs:202-207 | the row-major search returns the first set flag, or None when no flag is set |
| Rect.UnvisitedNeighbors | src/maze/rect.rs:215-220 | the flood fill queues exactly the active, unvisited neighbours of the current cell |
| Rect.AllDirsComplete | src/maze/rect.rs:44-53 | `all_dirs` lists every direction |
| Rect.VisitStep | src/maze/rect.rs:210-221 | one pop of the queue keeps the frontier invariant and only reaches cells connected to the start |
| Rect.LineFlags | src/maze/rect.rs:147 | one flag per character, false exactly for 'x' and 'X' |
| Rect.LinesFlagsLength | src/maze/rect.rs:136-155 | lines of a common width w give height*w flags |
| Rect.LinesFlagsAt | src/maze/rect.rs:136-155 | the flag of (r, c) comes from character c of line r |
| Rect.RectMask.constructor | src/maze/rect.rs:122-128 | `RectMask::new` has the given size and all flags false |
| Rect.RectMask.FromShape | src/maze/rect.rs:151-155 | the mask takes the parsed width, height and flags |
| Rect.RectMask.PosToInd | src/maze/rect.rs:230-236 | Some exactly for in-bounds positions, with the row-major index, below width*height |
| Rect.RectMask.IndToPos | src/maze/rect.rs:238-244 | Some exactly for indices below the number of flags, and `pos_to_ind` maps the position back to the index |
| Rect.RectMask.SetFlag | src/maze/rect.rs:181-185 | only the flag at an in-bounds position changes; out of bounds nothing changes |
| Rect.RectMask.Size | src/maze/rect.rs:177-179 | (width, height) bound exactly the positions `pos_to_ind` accepts, and their product is the number of flags |
| Rect.RectMask.IsCell | src/maze/rect.rs:187-189 | false outside the bounds, and true exactly for the active cells |
| Rect.RectMask.CellsN | src/maze/rect.rs:197-199 | the number of active cells, at most width*height |
| Rect.RectMask.FloodFill | src/maze/rect.rs:208-221 | the breadth-first search visits only active cells connected to the start and leaves no active neighbour of a visited cell unvisited |
| Rect.RectMask.CheckIsolation | src/maze/rect.rs:201-228 | Ok exactly when every active cell is reachable from the first active cell in row-major order, and equally exactly when every active cell is reachable from every other (vacuously for no active cell); otherwise `IsolatedAreaInRectMask` |
| Rect.ComplementClosed | src/maze/rect.rs:201-228 | adjacency between active cells is symmetric: the active cells outside a region closed under it form a closed region too |
| Rect.NoIsolatedAreaIsConnectivity | src/maze/rect.rs:201-228 | every active cell is reachable from the first active cell exactly when every active cell is reachable from every other |
| Rect.ParseTextLines | src/maze/rect.rs:133-155 | accepted exactly when all lines have the first line's width; the result has that width, one row per line and the line flags; otherwise the first mismatching line is reported with both widths |
| Rect.TryFromTextLines | src/maze/rect.rs:130-158 | a mask is returned exactly for uniform lines without an isolated area, with the parsed size and flags; otherwise the first error met |
| Rect.CellIndex | src/maze/rect.rs:353 | a grid cell has an index inside the cell array |
| Rect.CellAt | src/maze/rect.rs:353 | `cell(p)` is Some exactly for cells |
| Rect.NeighborPos | src/maze/rect.rs:365-370 | `neighbor_pos` is Some exactly when both the position and its neighbour are cells, and then it is the neighbour |
| Rect.NeighborPosSymmetric | src/maze/rect.rs:365-370 | the neighbour's neighbour in the reverse direction is the original cell |
| Rect.IsAtBorder | src/maze/rect.rs:348-350 | true exactly for a cell whose step in the direction leaves the grid or lands on a non-cell |
| Rect.IsConnectedIn | src/maze/rect.rs:352-363 | a direction reads as connected only when it has a neighbour cell |
| Rect.CanonicalSide | src/maze/rect.rs:372-390 | a passage is stored as North or East on one of its two cells |
| Rect.WithFlag | src/maze/rect.rs:376-383 | setting a direction's flag makes it true |
| Rect.CanonicalSideShared | src/maze/rect.rs:372-390 | both ends of a passage store it in the same cell and flag |
| Rect.IsConnectedCanonical | src/maze/rect.rs:352-363 | `is_connected_to` reads exactly the stored flag of the passage, and is false without a neighbour |
| Rect.IsConnectedSymmetric | src/maze/rect.rs:352-363 | `is_connected_to(p, d)` equals `is_connected_to(neighbor_pos(p, d), reverse(d))` |
| Rect.NoPassageAtBorder | src/maze/rect.rs:348-363 | a connected direction has a neighbour cell; at a border nothing is connected |
| Rect.Connect | src/maze/rect.rs:372-390 | `connect_to` keeps the cell array's size |
| Rect.ConnectSetsCanonicalFlag | src/maze/rect.rs:372-390 | without a neighbour nothing changes; otherwise exactly the passage's stored flag is set |
| Rect.CanonicalSideInjective | src/maze/rect.rs:372-390 | two requests share a stored flag exactly when they name the same passage |
| Rect.ConnectEffect | src/maze/rect.rs:352-390 | after `connect_to(p, d)` a query is true exactly when it was before or names the new passage, from either side |
| Rect.CellIndexInjective | src/maze/rect.rs:353 | distinct cells have distinct indices |
| Rect.ConnectIdempotent | src/maze/rect.rs:372-390 | connecting twice is connecting once |
| Rect.FindDirection | src/maze/rect.rs:290-296 | the direction search finds a direction that steps to the target, or reports that none does |
| Rect.NeighborCells | src/maze/rect.rs:269-283 | the appended positions are exactly the neighbour cells in the listed directions |
| Rect.NeighborCellsSpec | src/maze/rect.rs:269-283 | `append_neighbors` appends every neighbour cell, and only those, without repetition |
| Rect.NeighborCellsDistinct | src/maze/rect.rs:272-281 | distinct directions append distinct positions |
| Rect.ClosedGridHasNoPassage | src/maze/rect.rs:247-251 | a fresh grid of default cells has no passage |
| Rect.RectGrid.constructor | src/maze/rect.rs:326-331 | a maskless grid of the given size with closed cells |
| Rect.RectGrid.WithMask | src/maze/rect.rs:335-340 | a grid shaped by the mask with closed cells |
| Rect.RectGrid.AppendNeighbors | src/maze/rect.rs:269-283 | the caller's vector is kept and the neighbour cells are appended |
| Rect.RectGrid.ConnectTo | src/maze/rect.rs:372-390 | returns true exactly when the neighbour is a cell; the cells become `Connect` of the old cells |
| Rect.RectGrid.ConnectPositions | src/maze/rect.rs:285-298 | true exactly when both ends are cells and adjacent; then the passage is opened, otherwise nothing changes |
| Rect.RectGrid.SizeBoundsCells | src/maze/rect.rs:344-346 | every cell lies inside `size`'s (width, height), and without a mask every position inside is a cell |
| Rect.RectGrid.LayersN | src/maze/rect.rs:302-304 | the layers times the row width are all the cells, and row r is a layer exactly when r < `layers_n` |
| Rect.RectGrid.CellsNAt | src/maze/rect.rs:306-308 | in each layer, column c is a cell exactly when c < `cells_n_at` |
| Rect.RectGrid.AppendNeighborsUpperLayer | src/maze/rect.rs:310-315 | appends the north neighbour cell when there is one |
| Rect.RectGrid.AppendNeighborsLowerLayer | src/maze/rect.rs:317-322 | appends the south neighbour cell when there is one |
| Hexa.AllDirsComplete | src/maze/hexa.rs:18-28 | `all_dirs` lists every direction |
| Hexa.Opposite | src/maze/hexa.rs:54-84 | the opposite direction differs from the direction |
| Hexa.OppositeSwapsStorage | src/maze/hexa.rs:133-148 | opposite is an involution and exactly one of a direction and its opposite is stored on its own cell (N, SW, NW) |
| Hexa.FromPosition2d | src/maze/hexa.rs:37-47 | converting to `Position2d` and back round-trips |
| Hexa.NeighborOffsets | src/maze/hexa.rs:54-84 | the even-column and odd-column offsets of every direction; N and S change only the row |
| Hexa.Neighbor | src/maze/hexa.rs:54-84 | a neighbour differs from the position and lies within one row and one column of it |
| Hexa.NeighborBoundaries | src/maze/hexa.rs:54-84 | a neighbour is missing exactly for N at row 0, NE and NW from an even column at row 0, and SW and NW at column 0 |
| Hexa.NeighborRoundTrip | src/maze/hexa.rs:54-84 | stepping across NE/SW, SE/NW and S/N and back returns |
| Hexa.NeighborsDistinct | src/maze/hexa.rs:54-84 | different directions lead to different neighbours |
| Hexa.CellIndex | src/maze/hexa.rs:134 | a cell has an index inside the cell array |
| Hexa.WithFlag | src/maze/hexa.rs:133-148 | setting one stored flag sets it and leaves the other two |
| Hexa.NeighborPos | src/maze/hexa.rs:197-211 | Some exactly when the position and its raw neighbour are cells, and then the neighbour |
| Hexa.NeighborPosSymmetric | src/maze/hexa.rs:197-211 | the neighbour's neighbour in the opposite direction is the original cell |
| Hexa.FindDirection | src/maze/hexa.rs:123-132 | finds a direction whose neighbour cell is the target, or reports none |
| Hexa.CanonicalSide | src/maze/hexa.rs:133-148 | a passage is stored as N, SW or NW |
| Hexa.Connect | src/maze/hexa.rs:120-151 | connecting keeps the cell array's size |
| Hexa.CanonicalSideSpec | src/maze/hexa.rs:133-148 | the storing cell exists and two requests share a flag exactly when they name the same passage |
| Hexa.IsConnectedCanonical | src/maze/hexa.rs:228-258 | `is_connected_to` reads exactly the passage's stored flag, own for N/SW/NW and the neighbour's mirrored one for NE/SE/S |
| Hexa.IsConnectedIn | src/maze/hexa.rs:228-258 | true only for a cell; a direction read from the neighbour, and in a grid built by `connect_to` every direction, is connected only toward a neighbour cell |
| Hexa.ConnectedHasNeighbor | src/maze/hexa.rs:228-258 | in a grid built by `connect_to`, a connected direction has a neighbour cell |
| Hexa.IsConnectedSymmetric | src/maze/hexa.rs:228-258 | a passage reads the same from both of its cells |
| Hexa.CellIndexInjective | src/maze/hexa.rs:134 | distinct cells have distinct indices |
| Hexa.ConnectEffect | src/maze/hexa.rs:120-151 | after `connect_to(a, b)` a query is true exactly when it was before or names the a-b passage from either end; a non-neighbour changes nothing |
| Hexa.ConnectEffectAt | src/maze/hexa.rs:133-148 | setting one passage's stored flag opens exactly that passage |
| Hexa.ConnectPreservesWellFormed | src/maze/hexa.rs:120-151 | `connect_to` only ever sets flags that face a neighbour cell |
| Hexa.ClosedGridHasNoPassage | src/maze/hexa.rs:87-92 | a fresh grid of default cells has no passage |
| Hexa.NeighborCells | src/maze/hexa.rs:110-118 | the appended positions are exactly the neighbour cells in the listed directions, and none for a non-cell |
| Hexa.NeighborCellsSpec | src/maze/hexa.rs:110-118 | `append_neighbors` appends every neighbour cell, only those, without repetition, and nothing for a non-cell |
| Hexa.NeighborCellsDistinct | src/maze/hexa.rs:110-118 | distinct directions append distinct positions |
| Hexa.HexaGrid.constructor | src/maze/hexa.rs:179-184 | a maskless grid with closed cells |
| Hexa.HexaGrid.WithMask | src/maze/hexa.rs:188-193 | a grid shaped by the mask with closed cells |
| Hexa.HexaGrid.AppendNeighbors | src/maze/hexa.rs:110-118 | the caller's vector is kept and the neighbour cells are appended |
| Hexa.HexaGrid.ConnectTo | src/maze/hexa.rs:120-151 | true exactly when `to` is a neighbour cell of `from`; the cells become `Connect` of the old cells |
| Hexa.HexaGrid.LayersN | src/maze/hexa.rs:155-157 | the layers times the row width are all the cells, and row r is a layer exactly when r < `layers_n` |
| Hexa.HexaGrid.CellsNAt | src/maze/hexa.rs:159-161 | in each layer, column c is a cell exactly when c < `cells_n_at` |
| Hexa.HexaGrid.AppendNeighborsUpperLayer | src/maze/hexa.rs:163-168 | appends the north neighbour cell when there is one |
| Hexa.HexaGrid.AppendNeighborsLowerLayer | src/maze/hexa.rs:170-175 | appends the south neighbour cell when there is one |
| Tri.Opposite | src/maze/tri.rs:16-32 | the opposite direction differs from the direction |
| Tri.OppositeSwapsOrientation | src/maze/tri.rs:16-32 | opposite is an involution mapping the up-cell directions onto the down-cell directions, and the two sets are disjoint |
| Tri.FromPosition2d | src/maze/tri.rs:41-51 | converting to `Position2d` and back round-trips |
| Tri.NeighborTable | src/maze/tri.rs:58-71 | NW/SW give (r, c-1) and are None at column 0; NE/SE give (r, c+1); S gives (r+1, c); N gives (r-1, c) and is None at row 0 |
| Tri.Neighbor | src/maze/tri.rs:58-71 | a neighbour differs from the position in exactly one coordinate, by one |
| Tri.DefaultAtParity | src/maze/tri.rs:89-102 | the cell at (r, c) is angle-up exactly when r+c is even, for both `default_at` and `is_angle_up` |
| Tri.DefaultAt | src/maze/tri.rs:89-102 | the default cell points up exactly on even row+column and has no passage |
| Tri.IsAngleUp | src/maze/tri.rs:274-279 | a position is angle-up exactly when row+column is even |
| Tri.DirsOf | src/maze/tri.rs:16-32 | each orientation has three directions |
| Tri.CellIndex | src/maze/tri.rs:136 | a cell has an index inside the cell array |
| Tri.CellIndexInjective | src/maze/tri.rs:136 | distinct cells have distinct indices |
| Tri.NeighborPos | src/maze/tri.rs:206-219 | Some exactly when the position is a cell, the direction belongs to its orientation and the neighbour is a cell |
| Tri.NeighborRoundTrip | src/maze/tri.rs:58-71 | stepping to a neighbour and back in the opposite direction returns |
| Tri.NeighborFlipsOrientation | src/maze/tri.rs:58-71 | every neighbour has the opposite orientation |
| Tri.NeighborPosOpposite | src/maze/tri.rs:150-191 | a neighbour found by `neighbor_pos` has the opposite kind, so the `unreachable!()` arms never fire, and it sees the original cell back |
| Tri.WithFlag | src/maze/tri.rs:150-191 | setting a flag keeps the cell's kind and every other flag |
| Tri.FindDirection | src/maze/tri.rs:136-148 | finds an orientation direction whose neighbour cell is the target, or reports none |
| Tri.CanonicalSide | src/maze/tri.rs:150-191 | a passage is stored as NW or S of an up cell or SW of a down cell |
| Tri.Connect | src/maze/tri.rs:133-194 | connecting keeps the cell array's size |
| Tri.CanonicalSideSpec | src/maze/tri.rs:150-191 | the storing cell exists and owns the flag; two requests share a flag exactly when they name the same passage |
| Tri.IsConnectedCanonical | src/maze/tri.rs:238-272 | `is_connected_to` reads exactly the passage's stored flag |
| Tri.IsConnectedIn | src/maze/tri.rs:238-272 | true only for a cell and a direction of its orientation; a direction read from the neighbour needs a neighbour cell |
| Tri.ConnectedHasNeighbor | src/maze/tri.rs:238-272 | a connected direction belongs to the orientation and has a neighbour cell |
| Tri.IsConnectedSymmetric | src/maze/tri.rs:238-272 | a passage reads the same from both of its cells, whichever of them stores it |
| Tri.ConnectPreservesWellFormed | src/maze/tri.rs:133-194 | `connect_to` keeps every cell's kind and only sets flags that face a neighbour cell |
| Tri.SameKindsSameNeighbors | src/maze/tri.rs:206-219 | `neighbor_pos` depends only on the cells' kinds |
| Tri.ConnectKeepsKinds | src/maze/tri.rs:150-191 | connecting never changes a cell's kind |
| Tri.ConnectEffectOnPassage | src/maze/tri.rs:133-194 | a successful `connect_to` opens exactly its passage |
| Tri.ConnectEffect | src/maze/tri.rs:133-194 | after `connect_to(a, b)` a query is true exactly when it was before or names the a-b passage; otherwise nothing changes |
| Tri.DefaultCells | src/maze/tri.rs:198-204 | the fresh cell array fits the layout |
| Tri.DefaultCellsClosed | src/maze/tri.rs:89-102 | a fresh grid has the parity kinds and no passage |
| Tri.NeighborCells | src/maze/tri.rs:120-131 | the appended positions are exactly the neighbour cells in the listed directions |
| Tri.AppendedNeighborsSpec | src/maze/tri.rs:120-131 | `append_neighbors` adds nothing for a non-cell, at most 3 positions, exactly the neighbour cells |
| Tri.TriGrid.constructor | src/maze/tri.rs:198-200 | a maskless grid of default parity cells |
| Tri.TriGrid.WithMask | src/maze/tri.rs:202-204 | a grid shaped by the mask with default parity cells |
| Tri.TriGrid.AppendNeighbors | src/maze/tri.rs:120-131 | the caller's vector is kept and the neighbour cells are appended |
| Tri.TriGrid.ConnectTo | src/maze/tri.rs:133-194 | true exactly when `to` is an orientation neighbour cell of `from`; the cells become `Connect` of the old cells |
| Circ.FromPosition2d | src/maze/circ.rs:36-49 | converting to `Position2d` and back round-trips |
| Circ.RingEnds | src/maze/circ.rs:130-146 | one prefix entry per ring |
| Circ.CountRings | src/maze/circ.rs:131-138 | the first loop leaves each ring's cell count: 1 for the centre, then the previous count times the ring's multiplier |
| Circ.AccumulateRings | src/maze/circ.rs:139-142 | the second loop turns the counts into their prefix sums |
| Circ.MakeRings | src/maze/circ.rs:130-146 | `ring_end_inds` are the prefix sums of the ring counts and there are as many cells as the last prefix entry (none without rings) |
| Circ.SevenRingsLayout | src/maze/circ.rs:333-338 | seven rings give [1, 7, 19, 43, 67, 91, 139] and 139 cells |
| Circ.RingCountPositive | src/maze/circ.rs:131-138 | every ring has at least one cell |
| Circ.RingEndAscending | src/maze/circ.rs:139-142 | the prefix entries strictly increase |
| Circ.MakeRingsLayout | src/maze/circ.rs:130-146 | ring 0 has one cell, each ring's count is an integer multiple of the previous ring's, and each ring's size is its count |
| Circ.RingCellsN | src/maze/circ.rs:200-208 | `ring_cells_n` is Some exactly for rings below `rings_n` |
| Circ.RingSizes | src/maze/circ.rs:159-161 | ring sizes are positive and the outer/this ratio divides the next ring exactly |
| Circ.PosToIndSpec | src/maze/circ.rs:210-221 | `pos_to_ind` is Some exactly for ring < rings_n and cell < ring size, with value ring start + cell, below the cell count |
| Circ.PosToInd | src/maze/circ.rs:210-221 | an index is given only for an existing ring; it lies inside that ring's slice of the cell array and below the cell count |
| Circ.BinarySearch | src/maze/circ.rs:228 | `binary_search` returns Ok at an equal entry, or Err at the insertion point with smaller entries before and larger after |
| Circ.SearchBetween | src/maze/circ.rs:228 | the bisection keeps that contract on a narrowing window |
| Circ.IndToPos | src/maze/circ.rs:223-238 | `ind_to_pos` is Some exactly below `cells.len()` |
| Circ.IndexRoundTrip | src/maze/circ.rs:210-238 | `ind_to_pos` inverts `pos_to_ind` exactly |
| Circ.PosToIndThenIndToPos | src/maze/circ.rs:210-238 | `ind_to_pos` maps a position's index back to the position |
| Circ.IndToPosThenPosToInd | src/maze/circ.rs:210-238 | `pos_to_ind` maps an index's position back to the index |
| Circ.AllCellsPosSetSpec | src/maze/circ.rs:254-258 | `all_cells_pos_set` holds exactly the valid positions |
| Circ.CellRange | src/maze/circ.rs:75-110 | the cell-range iterator yields `count` positions of one ring, exactly the range |
| Circ.CentreAndOutsideNeighbors | src/maze/circ.rs:148-190 | a non-cell has no neighbours; the centre has no inward, clockwise or counterclockwise neighbour and all of ring 1 outward |
| Circ.NeighborPositions | src/maze/circ.rs:148-190 | nothing for a non-cell; at most one neighbour inward, clockwise or counterclockwise; inward neighbours lie one ring in, outward ones one ring out, rotations in the same ring |
| Circ.RotationsInverse | src/maze/circ.rs:167-172 | clockwise is (cell+1) mod n, counterclockwise (cell+n-1) mod n in the same ring, and each undoes the other |
| Circ.OuterRatio | src/maze/circ.rs:175 | the next ring's size is exactly this ratio times this ring's, and the ratio is at least one |
| Circ.OutwardRange | src/maze/circ.rs:173-183 | outward yields [cell*k, cell*k+k) of the next ring with k = next/this, and nothing from the outermost ring |
| Circ.InwardOutwardCorrespond | src/maze/circ.rs:157-183 | q is an outward neighbour of p exactly when p is q's inward neighbour |
| Circ.NeighborsAreCells | src/maze/circ.rs:148-190 | every yielded neighbour is a valid position |
| Circ.NeighborsSymmetric | src/maze/circ.rs:148-190 | a neighbour sees the original cell back in the opposite direction |
| Circ.SevenRingEndsLayout | src/maze/circ.rs:336 | the seven-ring fixture is the model's ring layout |
| Circ.SevenRingsPosToInd | src/maze/circ.rs:340-363 | the `ring_cells_n` and `pos_to_ind` test values |
| Circ.SevenRingsIndToPos | src/maze/circ.rs:365-373 | the `ind_to_pos` test values |
| Circ.SevenRingsNeighbors | src/maze/circ.rs:375-449 | the `neighbor_pos_iter` test values |
| Circ.FindDirection | src/maze/circ.rs:273-282 | the first direction in `all_dirs` order whose iterator yields the target, or none |
| Circ.CellIndex | src/maze/circ.rs:192-198 | a valid position has an index below the cell count |
| Circ.Connect | src/maze/circ.rs:283-292 | connecting keeps the cell array's size |
| Circ.ConnectOpensWall | src/maze/circ.rs:270-293 | a non-neighbour changes nothing; otherwise the wall is open seen from both ends, and connecting from either end writes the same flag |
| Circ.ConnectDirections | src/maze/circ.rs:273-292 | the directions found from the two ends are opposite |
| Circ.CellIndexInjective | src/maze/circ.rs:192-198 | distinct cells have distinct indices |
| Circ.SetInwardEffect | src/maze/circ.rs:283-292 | setting a cell's inward flag opens the wall to its inward neighbour and no other |
| Circ.SetClockwiseEffect | src/maze/circ.rs:283-292 | setting a cell's clockwise flag opens the wall to its clockwise neighbour and no other |
| Circ.ConnectEffect | src/maze/circ.rs:270-293 | after `connect_to(from, to)` between neighbours, a wall is open exactly when it was open before or it is the from-to wall, seen from either end |
| Circ.AllNeighborsSpec | src/maze/circ.rs:260-268 | `append_neighbors` appends exactly the neighbours in some direction, all valid positions |
| Circ.CircGrid.constructor | src/maze/circ.rs:121-128 | the grid holds `make_rings`' prefix sums and closed cells |
| Circ.CircGrid.AppendNeighbors | src/maze/circ.rs:260-268 | the caller's vector is kept and the neighbours are appended |
| Circ.CircGrid.ConnectTo | src/maze/circ.rs:270-293 | true exactly when `to` is a neighbour of `from`; the cells become `Connect` of the old cells |
| Circ.CircGrid.CellsN | src/maze/circ.rs:242-244 | bounds exactly the indices `ind_to_pos` accepts, lies above every index `pos_to_ind` gives, and is 0 exactly without rings |
| Circ.CircGrid.RingsN | src/maze/circ.rs:305-307 | `ring_cells_n` answers exactly for the rings below `rings_n` |
| Circ.CircGrid.RingCellsNOf | src/maze/circ.rs:309-311 | Some exactly below `rings_n`, with a positive size that ends the ring at its prefix entry |
| Circ.CircGrid.IsConnectInward | src/maze/circ.rs:313-317 | false for a non-cell; when true, the wall to the inward neighbour is open |
| Circ.CircGrid.IsConnectClockwise | src/maze/circ.rs:319-323 | false for a non-cell; when true, the wall to the clockwise neighbour is open |
| GeneRect.HvDirs | src/gene/rect.rs:27-36 | NE gives (East, North), SE (East, South), SW (West, South), NW (West, North) |
| GeneRect.HvDirsInjective | src/gene/rect.rs:27-36 | each diagonal has its own pair |
| GeneRect.ConnectAll | src/maze/rect.rs:372-390 | replaying `connect_to` requests keeps the cell array's size |
| GeneRect.ConnectAllAppend | src/maze/rect.rs:372-390 | one more request is one more `connect_to` |
| GeneRect.ConnectAllConcat | src/maze/rect.rs:372-390 | replaying two logs in turn is replaying their concatenation |
| GeneRect.ConnectAllEffect | src/maze/rect.rs:352-390 | after a log, a query is true exactly when it was before or names a logged passage |
| GeneRect.MasklessBorder | src/maze/rect.rs:348-350 | without a mask `is_at_border` is row 0, last row, column 0 or last column |
| GeneRect.MasklessCorner | src/gene/rect.rs:58-62 | the cell on both borders is the single corner of the diagonal |
| GeneRect.BTreeChoiceSpec | src/gene/rect.rs:58-70 | nothing only on both borders; vertical on the horizontal border; horizontal on the vertical border; else one of the two, toward a neighbour cell |
| GeneRect.BTreePrefixSound | src/gene/rect.rs:55-70 | the log holds only visited cells with their choice, in strictly row-major order |
| GeneRect.BTreePrefixComplete | src/gene/rect.rs:55-70 | every visited cell that chose a direction is in the log |
| GeneRect.BTreePrefixLength | src/gene/rect.rs:55-70 | every visited cell but the corner adds one request |
| GeneRect.BTreeLogLength | src/gene/rect.rs:55-70 | Binary Tree makes width*height-1 connections on a maskless grid |
| GeneRect.BTreeMaze | src/gene/rect.rs:49-76 | the passages are exactly the logged ones, and every cell off the corner is connected in its chosen direction |
| GeneRect.BTreePassages | src/gene/rect.rs:49-76 | on a fresh grid the passages open after Binary Tree are exactly the logged ones |
| GeneRect.BTreeJoinsChoice | src/gene/rect.rs:58-70 | a cell off the corner ends up connected in its chosen direction |
| GeneRect.BTreeStep | src/gene/rect.rs:56-71 | one visit applies that cell's choice, if any, to the grid so far |
| GeneRect.BTreeGenerate | src/gene/rect.rs:49-76 | the nested loops turn the grid into the replay of the Binary Tree log |
| GeneRect.BTreeVisit | src/gene/rect.rs:57-70 | the loop body connects the cell in its choice, or leaves the grid at the corner |
| GeneRect.SwColumn | src/gene/rect.rs:97-102 | the scanned column stays in the row |
| GeneRect.SwColumnOrder | src/gene/rect.rs:94-102 | columns are scanned left-to-right toward East and right-to-left toward West |
| GeneRect.SwColumnVisited | src/gene/rect.rs:97-102 | every column is scanned |
| GeneRect.RunPick | src/gene/rect.rs:109-113 | the closing cell lies in the current run |
| GeneRect.SwStepSpec | src/gene/rect.rs:103-122 | never closes on the vertical border, always closes on the horizontal one; a closing cell lies in the run and the run restarts just past the cell; otherwise a horizontal passage unless on the horizontal border |
| GeneRect.SwStepPassage | src/gene/rect.rs:103-122 | every Sidewinder request faces a neighbour cell |
| GeneRect.SwStepSound | src/gene/rect.rs:103-122 | a step's request stays in the row of the cell, goes horizontally or vertically, and without a mask faces a neighbour cell |
| GeneRect.SwRow | src/gene/rect.rs:96-123 | the run start stays within the row and the run reaches the next scanned cell |
| GeneRect.SwRowSound | src/gene/rect.rs:96-123 | a row's requests stay in the row, in the two directions, toward neighbour cells |
| GeneRect.SwRowLength | src/gene/rect.rs:96-123 | every cell of a row makes one request, except the corner |
| GeneRect.SwPrefixRow | src/gene/rect.rs:95-124 | the row after the first r - 1 adds width requests, less one when it holds the corner |
| GeneRect.SwPrefixRowSound | src/gene/rect.rs:95-124 | every request the row after the first r - 1 adds faces a neighbour cell |
| GeneRect.SwPrefixLength | src/gene/rect.rs:95-124 | the first r rows make r*width requests, less one once the corner row is done |
| GeneRect.SwPrefixSound | src/gene/rect.rs:95-124 | every request faces a neighbour cell |
| GeneRect.SidewinderMaze | src/gene/rect.rs:89-127 | width*height-1 passages between neighbour cells, and exactly the logged passages are open |
| GeneRect.SwStepEffect | src/gene/rect.rs:97-123 | one scanned cell applies its step's request to the grid so far and moves the run start |
| GeneRect.SidewinderStep | src/gene/rect.rs:103-122 | the loop body connects as the step decides and returns the new run start |
| GeneRect.SidewinderRow | src/gene/rect.rs:96-123 | one row's loop replays that row's log |
| GeneRect.SidewinderGenerate | src/gene/rect.rs:89-127 | the nested loops turn the grid into the replay of the Sidewinder log |
| Gene.BTreeGenerate | src/gene.rs:40-67 | Binary Tree on a fresh closed maskless grid of the given size |
| Gene.SidewinderGenerate | src/gene.rs:80-119 | Sidewinder on a fresh closed maskless grid of the given size |
| Gene.MarkInd | src/gene.rs:126 | `mark_ind` stays below width*height |
| Gene.MarkIndInjective | src/gene.rs:126 | distinct positions have distinct marks |
| Gene.AllMarked | src/gene.rs:135 | when every mark counts as set, each mark is set |
| Gene.MarksStart | src/gene.rs:129-134 | after marking the start, exactly one mark is set and it is the start's |
| Gene.MarksVisit | src/gene.rs:147-151 | an unmarked neighbour is new, and marking it adds one set mark |
| Gene.MarksAll | src/gene.rs:135 | with no unvisited cell left, every position has been entered |
| Gene.Candidates | src/gene.rs:137-143 | at most four candidates, each a direction with its neighbour cell |
| Gene.CandidatesComplete | src/gene.rs:137-143 | every neighbour cell is a candidate |
| Gene.HasNeighbor | src/gene.rs:145 | on a grid of two or more cells every cell has a neighbour |
| Gene.CandidatesNonEmpty | src/gene.rs:145 | `random_range(0..candidates_n)` is never asked for an empty range |
| Gene.GrowsTreeExtend | src/gene.rs:147-153 | connecting from a visited cell to a new cell extends the spanning tree |
| Gene.TreePassagesDistinct | src/gene.rs:145-153 | no passage is opened twice |
| Gene.CollectCandidates | src/gene.rs:136-143 | the buffer's first `candidates_n` entries are the candidates |
| Gene.AldousBroderGenerate | src/gene.rs:124-158 | the grid is the replay of a log that grows a tree from the start; done means width*height-1 passages and every cell visited |
| ShowRect.CharsetShapes | src/show/rect.rs:26-75 | walls and gaps of a kind have one width and differ |
| ShowRect.SelectCorner | src/show/rect.rs:43-118 | every corner is one character |
| ShowRect.AsciiCorner | src/show/rect.rs:43-54 | the ASCII corner is " " without walls and "+" otherwise |
| ShowRect.UnicodeCornerRoundTrip | src/show/rect.rs:77-118 | the Unicode glyph determines its four arms |
| ShowRect.UnicodeCornerInjective | src/show/rect.rs:77-118 | the 16 combinations have 16 distinct glyphs, " " only without walls |
| ShowRect.WallBetweenCells | src/show/rect.rs:142-155 | between two cells the wall is drawn exactly when they are not connected |
| ShowRect.BodyWallShows | src/show/rect.rs:164-168 | the body shows `vert_wall` exactly for a wall |
| ShowRect.RowLinesShape | src/show/rect.rs:136-193 | each row writes a ceil line, then a body line |
| ShowRect.RenderShape | src/show/rect.rs:136-217 | 2*height+1 lines: ceil and body per row, then the south border |
| ShowRect.CeilLineText | src/show/rect.rs:142-163 | each cell's corner, then `horz_wall` exactly when its north wall is drawn; the row-end corner last |
| ShowRect.BodyPiecesShape | src/show/rect.rs:164-169 | each body piece is the west wall and the empty inside |
| ShowRect.BottomPiecesShape | src/show/rect.rs:198-210 | each bottom piece is a corner and a wall exactly under a last-row cell |
| ShowRect.CeilPiecesShape | src/show/rect.rs:156-163 | each ceil piece is the corner and the north segment |
| ShowRect.BodyLineText | src/show/rect.rs:164-189 | `vert_wall` exactly where the west wall is drawn, then the inside; the east border exactly when the last-column position is a cell |
| ShowRect.WallPieces | src/show/rect.rs:164-189 | the layout of a body line built from equal-width pieces |
| ShowRect.BottomLineText | src/show/rect.rs:198-210 | `horz_wall` on the bottom exactly under a last-row cell |
| ShowRect.CornerPieces | src/show/rect.rs:162-163 | the layout of a ceil line built from equal-width pieces |
| ShowRect.LineWidths | src/show/rect.rs:162-163 | every line is width*span+1 characters: 4*width+1 for ASCII |
| ShowRect.AboveWalls | src/show/rect.rs:134 | one remembered wall per column |
| ShowRect.CellWalls | src/show/rect.rs:143-155 | the cell's north and west walls, for cells and non-cells |
| ShowRect.CellPieces | src/show/rect.rs:149-171 | a corner's north arm is the west wall remembered from the row above |
| ShowRect.FmtRowCells | src/show/rect.rs:140-173 | the inner loop builds the row's ceil and body pieces and leaves this row's west walls in `last_row_has_vert_wall` |
| ShowRect.FmtRow | src/show/rect.rs:137-190 | one row's ceil and body lines, and whether its east border is drawn |
| ShowRect.FmtBottom | src/show/rect.rs:195-217 | the south border line |
| ShowRect.Fmt | src/show/rect.rs:124-218 | `fmt` writes exactly the rendering's lines |
| Show.RowLinesShape | src/show.rs:21-45 | each row writes a ceil line, then a body line |
| Show.RenderShape | src/show.rs:21-54 | 2*height+1 lines, the last the bottom border |
| Show.CeilLineText | src/show.rs:23-31 | starts with "+", is 4*width+1 long, three spaces exactly when connected North, "---" otherwise, each followed by "+" |
| Show.BodyLineText | src/show.rs:24-38 | starts with "\|", is 4*width+1 long, three spaces per cell, then " " exactly when connected East, "\|" otherwise |
| Show.BottomLinePattern | src/show.rs:47-54 | "+---" repeated width times then "+" |
| Show.CeilShowsSouthPassage | src/show.rs:26-30 | a segment is blank exactly when the cell above is connected South |
| Show.FmtRow | src/show.rs:22-44 | the inner loop builds the row's ceil and body lines |
| Show.Fmt | src/show.rs:8-56 | `fmt` writes exactly the rendering's lines |

## Left out

- `GeneralRectGrid` is not part of this model. It is modelled from its callers as row-major
  cells with an optional mask. Its `size` is the layout's width and height, and its `cells_n`
  is `Maze.CellsN`: width*height without a mask, the set flags with one. Its
  `all_cells_pos_set` and `random_cell_pos` are not modelled for the rectangular, hexagonal and
  triangular grids.
- Randomness (`rand::rng`, `random_range`, `random`, `choose`, `RectPosition::random`,
  `random_cell_pos`) is not modelled. Each draw is an oracle parameter: a function of the
  position, or a sequence of picks reduced into range. Nothing about distributions is stated.
- Gene.AldousBroderGenerate: runs on a finite sequence of picks, so it proves partial
  correctness only. The source loops until every cell is visited, which happens with
  probability 1.
- Gene.AldousBroderGenerate: the start cell is a parameter that must be a cell. The source
  draws it at random, and its `width * height - 1` would underflow on an empty grid.
- GeneRect.SidewinderGenerate: requires a non-empty row when the runs go West. The source
  computes `width - 1` in `usize` before its row loop, which underflows for width 0.
- Gene.SidewinderGenerate: requires the same, for the same reason.
- GeneRect.BTreeMaze and GeneRect.SidewinderMaze state how many passages are made and which
  ones, not that the resulting maze is a spanning tree.
- `hv_dirs` in `src/gene.rs` is the same mapping as in `src/gene/rect.rs` and is modelled once, by `GeneRect.HvDirs`.
- `connect_along` in `src/gene/rect.rs` is not shown; it is taken to be `RectGrid::connect_to`.
- `src/gene.rs` and `src/show.rs` target an older `Maze`/`Direction`/`Position` API that is not
  shown. It is modelled as the maskless `RectGrid`, `RectDirection` and `RectPosition`.
- Circ.MakeRings: takes each ring's multiplier as a given positive number. The source computes
  it as the rounded `2 * PI * ring / previous_count` in `f32`, and floating point is not
  modelled.
- Circ.ConnectOpensWall: assumes every ring beyond the centre has at least three cells. The
  source's ring sizes satisfy this (ring 1 has six cells and rings never shrink), but given
  multipliers do not enforce it.
- `CircCellPosIter` is modelled as the sequence of positions it yields, not as a stateful
  iterator.
- `RectMask::try_from_text_file` is modelled on the file's lines; opening and reading the file
  is left out.
- `RectMask::try_from_image_file` is left out: it decodes an image.
- `RectMask::cell_pos_iter` is left out: nothing in the modelled code uses it.
- The `RectMaze`, `HexaMaze` and `TriMaze` enums only dispatch to their grid. Their queries
  are modelled by the grids' `IsConnectedTo` and by `Tri.IsAngleUp`.
- Renderer output is modelled as the list of lines written. `writeln!` ends every line but the
  last with a newline, and formatter errors are not modelled.
- `RectMazePainter` and the other renderers under `src/show/` are left out: they are skia
  drawing with `f32` geometry.
- The generators under `src/gene/` other than `rect.rs` are left out: they delegate to
  `generate_2d`, which is not shown.
- `usize` overflow of `width * height` and of the flat indices is not modelled: integers are
  unbounded.
- `debug_assert!` checks are not modelled, except where the model proves the asserted fact.
