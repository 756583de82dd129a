/** The rectangular topology: four directions, positions with a one-step neighbour, the
    `RectMask` activity mask with its connectivity check and text format, and `RectGrid`, whose
    cells record a passage once, on the canonical side (north and east of a cell). */
module Rect {
  import opened Wrappers
  import opened Maze
  import Flags

  // ---------------------------------------------------------------------------------------
  // Directions and positions
  // ---------------------------------------------------------------------------------------

  datatype RectDirection = North | South | East | West

  /** `RectDirection::all_dirs`, in the order the source lists them. */
  const AllDirs: seq<RectDirection> := [North, East, West, South]

  function Reverse(d: RectDirection): (r: RectDirection)
    ensures r != d
  {
    match d
    case North => South
    case South => North
    case East => West
    case West => East
  }

  lemma ReverseIsInvolution(d: RectDirection)
    ensures Reverse(Reverse(d)) == d && Reverse(d) != d
  {
  }

  datatype RectPosition = RectPosition(row: nat, col: nat)

  /** `From<RectPosition> for Position2d`. */
  function ToPosition2d(p: RectPosition): Position2d
  {
    Position2d(p.row, p.col)
  }

  /** `From<Position2d> for RectPosition`; converting back gives the original. */
  function FromPosition2d(p: Position2d): (r: RectPosition)
    ensures ToPosition2d(r) == p
  {
    RectPosition(p.first, p.second)
  }

  lemma PositionConversionRoundTrip(p: RectPosition)
    ensures FromPosition2d(ToPosition2d(p)) == p
    ensures ToPosition2d(p) == Position2d(p.row, p.col)
  {
  }

  /** The position one step away, when it does not leave the non-negative quadrant. */
  function Neighbor(p: RectPosition, d: RectDirection): (r: Option<RectPosition>)
    ensures r.None? <==> (d == North && p.row == 0) || (d == West && p.col == 0)
  {
    match d
    case North => if p.row > 0 then Some(RectPosition(p.row - 1, p.col)) else None
    case South => Some(RectPosition(p.row + 1, p.col))
    case East => Some(RectPosition(p.row, p.col + 1))
    case West => if p.col > 0 then Some(RectPosition(p.row, p.col - 1)) else None
  }

  /** Stepping back in the reverse direction returns to the start; South and East step by one. */
  lemma NeighborRoundTrip(p: RectPosition, d: RectDirection)
    ensures Neighbor(p, d).Some? ==> Neighbor(Neighbor(p, d).value, Reverse(d)) == Some(p)
    ensures Neighbor(p, South) == Some(RectPosition(p.row + 1, p.col))
    ensures Neighbor(p, East) == Some(RectPosition(p.row, p.col + 1))
  {
  }

  /** Different directions lead to different positions. */
  lemma NeighborsDistinct(p: RectPosition, d: RectDirection, e: RectDirection)
    requires d != e && Neighbor(p, d).Some?
    ensures Neighbor(p, e) != Neighbor(p, d)
  {
  }

  /** Row-major flat index of a position in rows of `rowWidth` cells. */
  function FlatInd(p: RectPosition, rowWidth: nat): nat
    requires p.col < rowWidth
  {
    p.row * rowWidth + p.col
  }

  lemma FlatIndInverse(p: RectPosition, rowWidth: nat)
    requires p.col < rowWidth
    ensures FlatInd(p, rowWidth) / rowWidth == p.row && FlatInd(p, rowWidth) % rowWidth == p.col
  {
    var i := FlatInd(p, rowWidth);
    DivModUnique(i, rowWidth, p.row, p.col);
  }

  // ---------------------------------------------------------------------------------------
  // RectMask: activity flags in row-major order
  // ---------------------------------------------------------------------------------------

  datatype MaskError =
    | InconsistentRectMaskRow(thisWidth: nat, expectedWidth: nat)
    | IsolatedAreaInRectMask

  /** `RectMask::pos_to_ind` for a mask of the given size. */
  function MaskPosToInd(width: nat, height: nat, p: RectPosition): (r: Option<nat>)
    ensures r.Some? ==> r.value < width * height
  {
    if p.row < height && p.col < width then
      FlatIndexBound(p.row, p.col, width, height);
      Some(FlatInd(p, width))
    else None
  }

  /** `RectMask::ind_to_pos` for a mask of the given size (it holds width * height flags). */
  function MaskIndToPos(width: nat, height: nat, i: nat): Option<RectPosition>
  {
    if i >= width * height then None
    else
      DivBelowHeight(i, width, height);
      Some(RectPosition(i / width, i % width))
  }

  /** `pos_to_ind` answers exactly inside the bounds, with the row-major index, and `ind_to_pos`
      inverts it on every index below the number of flags. */
  lemma MaskIndexRoundTrip(width: nat, height: nat, p: RectPosition, i: nat)
    ensures MaskPosToInd(width, height, p).Some? <==> p.row < height && p.col < width
    ensures MaskPosToInd(width, height, p).Some? ==> MaskPosToInd(width, height, p).value == p.row * width + p.col
    ensures MaskIndToPos(width, height, i).Some? <==> i < width * height
    ensures MaskPosToInd(width, height, p) == Some(i) ==> MaskIndToPos(width, height, i) == Some(p)
    ensures MaskIndToPos(width, height, i) == Some(p) ==> MaskPosToInd(width, height, p) == Some(i)
  {
    if MaskPosToInd(width, height, p) == Some(i) {
      FlatIndInverse(p, width);
    }
    if MaskIndToPos(width, height, i) == Some(p) {
      DivBelowHeight(i, width, height);
    }
  }

  /** `RectMask::is_cell` on a mask's flags: in bounds and flagged. */
  predicate MaskIsCell(width: nat, height: nat, flags: seq<bool>, p: RectPosition)
    requires |flags| == width * height
  {
    match MaskPosToInd(width, height, p)
    case Some(i) => flags[i]
    case None => false
  }

  /** The active positions among the first `k` flags. */
  ghost function ActiveBefore(width: nat, height: nat, flags: seq<bool>, k: nat): set<RectPosition>
    requires |flags| == width * height && k <= |flags|
  {
    set i: nat | i < k && flags[i] :: MaskIndToPos(width, height, i).value
  }

  /** Every active position of the mask. */
  ghost function ActiveCells(width: nat, height: nat, flags: seq<bool>): set<RectPosition>
    requires |flags| == width * height
  {
    ActiveBefore(width, height, flags, |flags|)
  }

  lemma {:induction false} ActiveBeforeCard(width: nat, height: nat, flags: seq<bool>, k: nat)
    requires |flags| == width * height && k <= |flags|
    ensures |ActiveBefore(width, height, flags, k)| == Flags.CountTrue(flags[..k])
  {
    if k > 0 {
      ActiveBeforeCard(width, height, flags, k - 1);
      var before := ActiveBefore(width, height, flags, k - 1);
      var p := MaskIndToPos(width, height, k - 1).value;
      MaskIndexRoundTrip(width, height, p, k - 1);
      assert p !in before by {
        if p in before {
          var j: nat :| j < k - 1 && flags[j] && MaskIndToPos(width, height, j).value == p;
          MaskIndexRoundTrip(width, height, p, j);
        }
      }
      assert flags[..k][..k - 1] == flags[..k - 1];
      if flags[k - 1] {
        assert ActiveBefore(width, height, flags, k) == before + {p};
      } else {
        assert ActiveBefore(width, height, flags, k) == before;
      }
    }
  }

  /** The active set holds exactly the cells of the mask, and there are `cells_n` of them. */
  lemma ActiveCellsSpec(width: nat, height: nat, flags: seq<bool>)
    requires |flags| == width * height
    ensures |ActiveCells(width, height, flags)| == Flags.CountTrue(flags)
    ensures forall p :: p in ActiveCells(width, height, flags) <==> MaskIsCell(width, height, flags, p)
  {
    ActiveBeforeCard(width, height, flags, |flags|);
    assert flags[..|flags|] == flags;
    forall p
      ensures p in ActiveCells(width, height, flags) <==> MaskIsCell(width, height, flags, p)
    {
      if MaskIsCell(width, height, flags, p) {
        var i := MaskPosToInd(width, height, p).value;
        MaskIndexRoundTrip(width, height, p, i);
      }
      if p in ActiveCells(width, height, flags) {
        var j: nat :| j < |flags| && flags[j] && MaskIndToPos(width, height, j).value == p;
        MaskIndexRoundTrip(width, height, p, j);
      }
    }
  }

  /** The first set flag at or after index `k`; in row-major order this is the first active cell. */
  function FirstSet(flags: seq<bool>, k: nat): (r: Option<nat>)
    requires k <= |flags|
    ensures r.Some? ==> k <= r.value < |flags| && flags[r.value]
    ensures r.Some? ==> forall j | k <= j < r.value :: !flags[j]
    ensures r.None? ==> forall j | k <= j < |flags| :: !flags[j]
    decreases |flags| - k
  {
    if k == |flags| then None
    else if flags[k] then Some(k)
    else FirstSet(flags, k + 1)
  }

  /** A region closed under moving to an adjacent active cell. */
  ghost predicate ClosedRegion(width: nat, height: nat, flags: seq<bool>, region: set<RectPosition>)
    requires |flags| == width * height
  {
    forall p, d :: p in region && Neighbor(p, d).Some? && MaskIsCell(width, height, flags, Neighbor(p, d).value)
      ==> Neighbor(p, d).value in region
  }

  /** Every closed region that holds `start` holds all of `reached`: each position of `reached`
      is connected to `start` through adjacent active cells. */
  ghost predicate ReachedFrom(width: nat, height: nat, flags: seq<bool>, start: RectPosition, reached: set<RectPosition>)
    requires |flags| == width * height
  {
    forall region :: start in region && ClosedRegion(width, height, flags, region) ==> reached <= region
  }

  /** The property `check_isolation` decides: no active cell, or every active cell is reachable
      from the first active cell in row-major order through 4-adjacent active cells. */
  ghost predicate NoIsolatedArea(width: nat, height: nat, flags: seq<bool>)
    requires |flags| == width * height
  {
    match FirstSet(flags, 0)
    case None => true
    case Some(i) =>
      ReachedFrom(width, height, flags, MaskIndToPos(width, height, i).value, ActiveCells(width, height, flags))
  }

  /** Every active cell is reachable from every other one. */
  ghost predicate MutuallyConnected(width: nat, height: nat, flags: seq<bool>)
    requires |flags| == width * height
  {
    forall p, q | MaskIsCell(width, height, flags, p) && MaskIsCell(width, height, flags, q) ::
      ReachedFrom(width, height, flags, p, {q})
  }

  /** Adjacency between active cells is symmetric, so the active cells outside a closed region
      form a closed region too. */
  lemma ComplementClosed(width: nat, height: nat, flags: seq<bool>, region: set<RectPosition>)
    requires |flags| == width * height && ClosedRegion(width, height, flags, region)
    ensures ClosedRegion(width, height, flags, ActiveCells(width, height, flags) - region)
  {
    var active := ActiveCells(width, height, flags);
    ActiveCellsSpec(width, height, flags);
    forall p, d | p in active - region && Neighbor(p, d).Some? && MaskIsCell(width, height, flags, Neighbor(p, d).value)
      ensures Neighbor(p, d).value in active - region
    {
      var n := Neighbor(p, d).value;
      NeighborRoundTrip(p, d);
      assert Neighbor(n, Reverse(d)) == Some(p) && MaskIsCell(width, height, flags, p);
      assert n in region ==> p in region;
    }
  }

  /** Reaching every active cell from the first one is the same as every active cell reaching
      every other: the check from one start cell decides full connectivity. */
  lemma NoIsolatedAreaIsConnectivity(width: nat, height: nat, flags: seq<bool>)
    requires |flags| == width * height
    ensures NoIsolatedArea(width, height, flags) <==> MutuallyConnected(width, height, flags)
  {
    var active := ActiveCells(width, height, flags);
    ActiveCellsSpec(width, height, flags);
    match FirstSet(flags, 0)
    case None =>
      forall p
        ensures !MaskIsCell(width, height, flags, p)
      {
        match MaskPosToInd(width, height, p)
        case Some(i) => assert !flags[i];
        case None =>
      }
    case Some(k) =>
      MaskIndexRoundTrip(width, height, RectPosition(0, 0), k);
      var s := MaskIndToPos(width, height, k).value;
      MaskIndexRoundTrip(width, height, s, k);
      assert s in active;
      if NoIsolatedArea(width, height, flags) {
        forall p, q | MaskIsCell(width, height, flags, p) && MaskIsCell(width, height, flags, q)
          ensures ReachedFrom(width, height, flags, p, {q})
        {
          forall region | p in region && ClosedRegion(width, height, flags, region)
            ensures {q} <= region
          {
            ComplementClosed(width, height, flags, region);
            assert s in active - region ==> active <= active - region;
            assert p in active;
            assert active <= region;
          }
        }
      }
      if MutuallyConnected(width, height, flags) {
        forall region | s in region && ClosedRegion(width, height, flags, region)
          ensures active <= region
        {
          forall q | q in active
            ensures q in region
          {
            assert ReachedFrom(width, height, flags, s, {q});
          }
        }
      }
  }

  /** The neighbours of `cur` that `check_isolation` queues: active and not yet visited. */
  function UnvisitedNeighbors(width: nat, height: nat, flags: seq<bool>, cur: RectPosition,
                              visited: set<RectPosition>, dirs: seq<RectDirection>): (r: seq<RectPosition>)
    requires |flags| == width * height
    ensures forall q :: q in r <==> exists k :: 0 <= k < |dirs| && Neighbor(cur, dirs[k]) == Some(q)
                                          && MaskIsCell(width, height, flags, q) && q !in visited
  {
    if dirs == [] then []
    else
      var rest := UnvisitedNeighbors(width, height, flags, cur, visited, dirs[1..]);
      assert forall k :: 1 <= k < |dirs| ==> dirs[k] == dirs[1..][k - 1];
      match Neighbor(cur, dirs[0])
      case Some(n) =>
        if MaskIsCell(width, height, flags, n) && n !in visited then [n] + rest else rest
      case None => rest
  }

  lemma AllDirsComplete(d: RectDirection)
    ensures exists k :: 0 <= k < |AllDirs| && AllDirs[k] == d
  {
    match d
    case North => assert AllDirs[0] == d;
    case East => assert AllDirs[1] == d;
    case West => assert AllDirs[2] == d;
    case South => assert AllDirs[3] == d;
  }

  lemma SubsetSameSize<T>(a: set<T>, b: set<T>)
    requires a <= b && |a| == |b|
    ensures a == b
  {
    assert b == a + (b - a) && a * (b - a) == {};
    assert |b - a| == 0;
    forall x | x in b
      ensures x in a
    {
      assert x !in b - a;
    }
  }

  lemma {:induction false} SubsetSize<T>(a: set<T>, b: set<T>)
    requires a <= b
    ensures |a| <= |b|
    decreases b
  {
    if a != {} {
      var x :| x in a;
      SubsetSize(a - {x}, b - {x});
    }
  }

  /** A `RectMask` built from `lines`: the width of the first line, one row per line, and a
      flag per character. */
  datatype MaskShape = MaskShape(width: nat, height: nat, flags: seq<bool>)

  /** The flags of one text line: 'x' and 'X' mark an inactive cell, every other character an
      active one. */
  function LineFlags(line: string): (flags: seq<bool>)
    ensures |flags| == |line|
    ensures forall c | 0 <= c < |line| :: flags[c] <==> !(line[c] == 'x' || line[c] == 'X')
  {
    seq(|line|, c requires 0 <= c < |line| => !(line[c] == 'x' || line[c] == 'X'))
  }

  /** The flags of all lines, in order. */
  function LinesFlags(lines: seq<string>): seq<bool>
  {
    if lines == [] then [] else LinesFlags(lines[..|lines| - 1]) + LineFlags(lines[|lines| - 1])
  }

  /** Every line has the first line's number of characters. */
  predicate UniformWidth(lines: seq<string>)
  {
    forall k | 0 <= k < |lines| :: |lines[k]| == |lines[0]|
  }

  /** `k` is the first line whose width differs from the first line's. */
  predicate FirstMismatch(lines: seq<string>, k: nat)
  {
    0 < k < |lines| && |lines[k]| != |lines[0]| && forall j | 0 <= j < k :: |lines[j]| == |lines[0]|
  }

  /** With lines of a common width `w`, the flags form a `|lines|` by `w` mask. */
  lemma {:induction false} LinesFlagsLength(lines: seq<string>, w: nat)
    requires forall k | 0 <= k < |lines| :: |lines[k]| == w
    ensures |LinesFlags(lines)| == |lines| * w
  {
    if lines != [] {
      var n := |lines| - 1;
      LinesFlagsLength(lines[..n], w);
      assert |LinesFlags(lines)| == n * w + w;
    }
  }

  /** With lines of a common width `w`, the flag at (r, c) of the mask comes from
      character c of line r. */
  lemma {:induction false} LinesFlagsAt(lines: seq<string>, w: nat, r: nat, c: nat)
    requires forall k | 0 <= k < |lines| :: |lines[k]| == w
    requires r < |lines| && c < w
    ensures r * w + c < |LinesFlags(lines)|
    ensures LinesFlags(lines)[r * w + c] == LineFlags(lines[r])[c]
  {
    var n := |lines| - 1;
    var init, last := LinesFlags(lines[..n]), LineFlags(lines[n]);
    LinesFlagsLength(lines[..n], w);
    assert LinesFlags(lines) == init + last;
    assert |init| == n * w && |last| == w;
    if r < n {
      FlatIndexBound(r, c, w, n);
      LinesFlagsAt(lines[..n], w, r, c);
      assert LinesFlags(lines)[r * w + c] == init[r * w + c];
    } else {
      assert r == n;
      assert r * w + c == |init| + c;
      assert LinesFlags(lines)[r * w + c] == last[c];
    }
  }

  /** Every active neighbour of a visited position is visited or waiting in the queue. */
  ghost predicate Frontier(width: nat, height: nat, flags: seq<bool>, visited: set<RectPosition>, queue: seq<RectPosition>)
    requires |flags| == width * height
  {
    forall v, d :: v in visited && Neighbor(v, d).Some? && MaskIsCell(width, height, flags, Neighbor(v, d).value)
      ==> Neighbor(v, d).value in visited || Neighbor(v, d).value in queue
  }

  /** One visit of the flood fill: `cur` joins the visited set and its unvisited active
      neighbours join the queue, which keeps the frontier and reachability facts. */
  lemma VisitStep(width: nat, height: nat, flags: seq<bool>, start: RectPosition, cur: RectPosition,
                  visited: set<RectPosition>, rest: seq<RectPosition>, next: seq<RectPosition>)
    requires |flags| == width * height
    requires Frontier(width, height, flags, visited, [cur] + rest)
    requires ReachedFrom(width, height, flags, start, visited)
    requires ReachedFrom(width, height, flags, start, {cur})
    requires next == UnvisitedNeighbors(width, height, flags, cur, visited + {cur}, AllDirs)
    ensures Frontier(width, height, flags, visited + {cur}, rest + next)
    ensures ReachedFrom(width, height, flags, start, visited + {cur})
    ensures forall q | q in next :: MaskIsCell(width, height, flags, q) && ReachedFrom(width, height, flags, start, {q})
  {
    forall q | q in next
      ensures MaskIsCell(width, height, flags, q) && ReachedFrom(width, height, flags, start, {q})
    {
      var k :| 0 <= k < |AllDirs| && Neighbor(cur, AllDirs[k]) == Some(q) && MaskIsCell(width, height, flags, q);
      forall region | start in region && ClosedRegion(width, height, flags, region)
        ensures q in region
      {
        assert cur in region;
        assert Neighbor(cur, AllDirs[k]).value in region;
      }
    }
    forall v, d | v in visited + {cur} && Neighbor(v, d).Some? && MaskIsCell(width, height, flags, Neighbor(v, d).value)
      ensures Neighbor(v, d).value in visited + {cur} || Neighbor(v, d).value in rest + next
    {
      if v == cur {
        AllDirsComplete(d);
      } else {
        assert Neighbor(v, d).value in visited || Neighbor(v, d).value in [cur] + rest;
      }
    }
  }

  /** A visit takes a new active cell and queues only active cells. */
  lemma VisitProgress(width: nat, height: nat, flags: seq<bool>, visited: set<RectPosition>, cur: RectPosition,
                      next: seq<RectPosition>)
    requires |flags| == width * height
    requires cur in ActiveCells(width, height, flags) && cur !in visited
    requires forall q | q in next :: MaskIsCell(width, height, flags, q)
    ensures forall q | q in next :: q in ActiveCells(width, height, flags)
    ensures ActiveCells(width, height, flags) - (visited + {cur}) < ActiveCells(width, height, flags) - visited
  {
    ActiveCellsSpec(width, height, flags);
    var active := ActiveCells(width, height, flags);
    assert cur in active - visited && cur !in active - (visited + {cur});
  }

  // ---------------------------------------------------------------------------------------
  // RectMask
  // ---------------------------------------------------------------------------------------

  class RectMask {
    var width: nat
    var height: nat
    var flags: seq<bool>

    ghost predicate Valid()
      reads this
    {
      |flags| == width * height
    }

    /** `RectMask::new`: a mask of the given size with no active cell. */
    constructor (width: nat, height: nat)
      ensures Valid() && this.width == width && this.height == height
      ensures flags == Flags.Repeat(false, width * height)
    {
      this.width := width;
      this.height := height;
      this.flags := Flags.Repeat(false, width * height);
    }

    /** The struct literal the file readers end with. */
    constructor FromShape(shape: MaskShape)
      requires |shape.flags| == shape.width * shape.height
      ensures Valid() && width == shape.width && height == shape.height && flags == shape.flags
    {
      width, height, flags := shape.width, shape.height, shape.flags;
    }

    /** `size`: (width, height), which bound exactly the positions `pos_to_ind` accepts and
        whose product is the number of flags. */
    function Size(): (r: (nat, nat))
      reads this
      ensures forall p :: PosToInd(p).Some? <==> p.row < r.1 && p.col < r.0
      ensures Valid() ==> r.0 * r.1 == |flags|
    {
      (width, height)
    }

    /** `pos_to_ind`: the row-major index of an in-bounds position. */
    function PosToInd(p: RectPosition): (r: Option<nat>)
      reads this
      ensures r.Some? <==> p.row < height && p.col < width
      ensures r.Some? ==> r.value == p.row * width + p.col && r.value < width * height
    {
      MaskIndexRoundTrip(width, height, p, 0);
      MaskPosToInd(width, height, p)
    }

    /** `ind_to_pos`: the position of an index below the number of flags, inverse to `PosToInd`. */
    function IndToPos(i: nat): (r: Option<RectPosition>)
      reads this
      requires Valid()
      ensures r.Some? <==> i < |flags|
      ensures r.Some? ==> PosToInd(r.value) == Some(i)
    {
      if i >= |flags| then None
      else
        MaskIndexRoundTrip(width, height, RectPosition(0, 0), i);
        var p := MaskIndToPos(width, height, i).value;
        MaskIndexRoundTrip(width, height, p, i);
        Some(p)
    }

    /** `set_flag` writes the flag of an in-bounds position and nothing else. */
    method SetFlag(p: RectPosition, flag: bool)
      requires Valid()
      modifies this
      ensures Valid() && width == old(width) && height == old(height)
      ensures flags == match PosToInd(p)
                       case Some(i) => old(flags)[i := flag]
                       case None => old(flags)
    {
      var ind := PosToInd(p);
      if ind.Some? {
        flags := flags[ind.value := flag];
      }
    }

    /** `is_cell`: false outside the bounds, and true exactly for the active cells. */
    predicate IsCell(p: RectPosition)
      reads this
      requires Valid()
      ensures IsCell(p) ==> p.row < height && p.col < width
      ensures IsCell(p) <==> p in ActiveCells(width, height, flags)
    {
      ActiveCellsSpec(width, height, flags);
      MaskIsCell(width, height, flags, p)
    }

    /** `cells_n`: the number of set flags, which is the number of active cells. */
    function CellsN(): (r: nat)
      reads this
      requires Valid()
      ensures r == |ActiveCells(width, height, flags)|
      ensures r <= width * height
    {
      ActiveCellsSpec(width, height, flags);
      Flags.CountTrue(flags)
    }

    /** The breadth-first flood fill of `check_isolation` from `start`: it visits active cells
        only, each reachable from `start`, and stops when no active neighbour is left out. */
    method FloodFill(start: RectPosition) returns (visited: set<RectPosition>)
      requires Valid() && start in ActiveCells(width, height, flags)
      ensures visited <= ActiveCells(width, height, flags)
      ensures start in visited
      ensures ReachedFrom(width, height, flags, start, visited)
      ensures ClosedRegion(width, height, flags, visited)
    {
      ghost var active := ActiveCells(width, height, flags);
      visited := {};
      var queue: seq<RectPosition> := [start];
      while queue != []
        invariant visited <= active
        invariant forall q | q in queue :: q in active
        invariant start in visited || (visited == {} && queue == [start])
        invariant ReachedFrom(width, height, flags, start, visited)
        invariant forall q | q in queue :: ReachedFrom(width, height, flags, start, {q})
        invariant Frontier(width, height, flags, visited, queue)
        decreases |active - visited|, |queue|
      {
        var cur := queue[0];
        queue := queue[1..];
        if cur in visited {
          continue;
        }
        ghost var before := visited;
        visited := visited + {cur};
        var next := UnvisitedNeighbors(width, height, flags, cur, visited, AllDirs);
        VisitStep(width, height, flags, start, cur, before, queue, next);
        VisitProgress(width, height, flags, before, cur, next);
        queue := queue + next;
      }
    }

    /** `check_isolation`: a breadth-first flood fill from the first active cell, then a
        comparison of the number of visited cells with `cells_n`. */
    method CheckIsolation() returns (r: Result<(), MaskError>)
      requires Valid()
      ensures r.Ok? <==> NoIsolatedArea(width, height, flags)
      ensures r.Ok? <==> MutuallyConnected(width, height, flags)
      ensures r.Err? ==> r.error == IsolatedAreaInRectMask
    {
      NoIsolatedAreaIsConnectivity(width, height, flags);
      var first := FirstSet(flags, 0);
      if first.None? {
        return Ok(());
      }
      MaskIndexRoundTrip(width, height, RectPosition(0, 0), first.value);
      var start := MaskIndToPos(width, height, first.value).value;
      ghost var active := ActiveCells(width, height, flags);
      ActiveCellsSpec(width, height, flags);
      MaskIndexRoundTrip(width, height, start, first.value);
      assert start in active;
      var visited := FloodFill(start);
      if |visited| == CellsN() {
        SubsetSameSize(visited, active);
        return Ok(());
      } else {
        assert visited != active;
        assert !(active <= visited);
        return Err(IsolatedAreaInRectMask);
      }
    }
  }

  /** The line loop of `try_from_text_file`: a line whose width differs from the first line's is
      rejected, otherwise every character becomes a flag and every line a row. */
  method ParseTextLines(lines: seq<string>) returns (r: Result<MaskShape, MaskError>)
    ensures r.Ok? <==> UniformWidth(lines)
    ensures r.Ok? ==> r.value == MaskShape(LinesWidth(lines), |lines|, LinesFlags(lines))
    ensures r.Err? ==> exists k: nat :: FirstMismatch(lines, k) && r.error == InconsistentRectMaskRow(|lines[k]|, |lines[0]|)
  {
    var width: Option<nat> := None;
    var height: nat := 0;
    var flags: seq<bool> := [];
    for k := 0 to |lines|
      invariant height == k
      invariant flags == LinesFlags(lines[..k])
      invariant width == if k == 0 then None else Some(|lines[0]|)
      invariant forall j | 0 <= j < k :: |lines[j]| == |lines[0]|
    {
      var line := lines[k];
      var thisWidth := |line|;
      if width.None? {
        width := Some(thisWidth);
      }
      if width.value != thisWidth {
        assert FirstMismatch(lines, k);
        return Err(InconsistentRectMaskRow(thisWidth, width.value));
      }
      assert lines[..k + 1][..k] == lines[..k];
      flags := flags + LineFlags(line);
      height := height + 1;
    }
    assert lines[..|lines|] == lines;
    return Ok(MaskShape(if width.Some? then width.value else 0, height, flags));
  }

  /** The width of a mask read from `lines`: that of the first line. */
  function LinesWidth(lines: seq<string>): nat
  {
    if lines == [] then 0 else |lines[0]|
  }

  /** The lines `try_from_text_file` accepts: rows of one width, without an isolated area. */
  ghost predicate AcceptedLines(lines: seq<string>)
  {
    && UniformWidth(lines)
    && |LinesFlags(lines)| == LinesWidth(lines) * |lines|
    && NoIsolatedArea(LinesWidth(lines), |lines|, LinesFlags(lines))
  }

  /** `try_from_text_file` without the file: parse the lines, then reject a mask with an isolated
      area. */
  method TryFromTextLines(lines: seq<string>) returns (r: Result<RectMask, MaskError>)
    ensures r.Ok? <==> AcceptedLines(lines)
    ensures r.Ok? ==> fresh(r.value) && r.value.Valid()
    ensures r.Ok? ==> r.value.width == LinesWidth(lines) && r.value.height == |lines| && r.value.flags == LinesFlags(lines)
    ensures r.Err? && UniformWidth(lines) ==> r.error == IsolatedAreaInRectMask
    ensures !UniformWidth(lines) ==> exists k: nat :: FirstMismatch(lines, k) && r == Err(InconsistentRectMaskRow(|lines[k]|, |lines[0]|))
  {
    var parsed := ParseTextLines(lines);
    if parsed.Err? {
      return Err(parsed.error);
    }
    LinesFlagsLength(lines, LinesWidth(lines));
    var mask := new RectMask.FromShape(parsed.value);
    var checked := mask.CheckIsolation();
    if checked.Err? {
      return Err(checked.error);
    }
    return Ok(mask);
  }

  // ---------------------------------------------------------------------------------------
  // RectGrid: one cell per active position, recording its north and east passages
  // ---------------------------------------------------------------------------------------

  /** `RectCell`: the passage to the north and the one to the east; the south and west
      passages are read from the neighbour's flags. */
  datatype RectCell = RectCell(connectedNorth: bool, connectedEast: bool)

  /** `RectCell::default()`. */
  const ClosedCell := RectCell(false, false)

  /** The cells of a grid with the given layout, in row-major order. */
  predicate SizedFor(l: GridLayout, cells: seq<RectCell>)
  {
    |cells| == l.width * l.height
  }

  /** A rectangular position is a cell of the layout. */
  predicate IsRectCell(l: GridLayout, p: RectPosition)
  {
    IsCell(l, ToPosition2d(p))
  }

  /** The storage index of a cell. */
  function CellIndex(l: GridLayout, p: RectPosition): (i: nat)
    requires IsRectCell(l, p)
    ensures i < l.width * l.height
  {
    FlatIndex(l, ToPosition2d(p))
  }

  /** `GeneralRectGrid::cell`: the stored cell, for positions that are cells. */
  function CellAt(l: GridLayout, cells: seq<RectCell>, p: RectPosition): (r: Option<RectCell>)
    requires SizedFor(l, cells)
    ensures r.Some? <==> IsRectCell(l, p)
  {
    if IsRectCell(l, p) then Some(cells[CellIndex(l, p)]) else None
  }

  /** `RectGrid::neighbor_pos`: the neighbour in a direction, when both it and the position are
      cells. */
  function NeighborPos(l: GridLayout, p: RectPosition, d: RectDirection): (r: Option<RectPosition>)
    ensures r.Some? <==> IsRectCell(l, p) && Neighbor(p, d).Some? && IsRectCell(l, Neighbor(p, d).value)
    ensures r.Some? ==> r == Neighbor(p, d)
  {
    if IsRectCell(l, p) then
      match Neighbor(p, d)
      case Some(n) => if IsRectCell(l, n) then Some(n) else None
      case None => None
    else None
  }

  /** Being neighbours is symmetric: the reverse direction leads back. */
  lemma NeighborPosSymmetric(l: GridLayout, p: RectPosition, d: RectDirection)
    ensures NeighborPos(l, p, d).Some? ==> NeighborPos(l, NeighborPos(l, p, d).value, Reverse(d)) == Some(p)
  {
    NeighborRoundTrip(p, d);
  }

  /** `RectGrid::is_at_border`: a cell with no neighbouring cell in the direction. */
  predicate IsAtBorder(l: GridLayout, p: RectPosition, d: RectDirection)
    ensures IsAtBorder(l, p, d) <==>
      IsRectCell(l, p) && (Neighbor(p, d).None? || !IsRectCell(l, Neighbor(p, d).value))
  {
    IsRectCell(l, p) && NeighborPos(l, p, d).None?
  }

  /** North and East are stored in the cell; South and West defer to the neighbour. */
  function DirRank(d: RectDirection): nat
  {
    if d == North || d == East then 0 else 1
  }

  /** `RectGrid::is_connected_to` on the cells of a grid. */
  function IsConnectedIn(l: GridLayout, cells: seq<RectCell>, p: RectPosition, d: RectDirection): (b: bool)
    requires SizedFor(l, cells)
    ensures b ==> NeighborPos(l, p, d).Some?
    decreases DirRank(d)
  {
    match CellAt(l, cells, p)
    case None => false
    case Some(cell) =>
      match NeighborPos(l, p, d)
      case None => false
      case Some(n) =>
        match d
        case North => cell.connectedNorth
        case East => cell.connectedEast
        case South => IsConnectedIn(l, cells, n, North)
        case West => IsConnectedIn(l, cells, n, East)
  }

  /** The canonical record of the passage from `p` in direction `d`: the cell and the direction
      (North or East) whose flag stores it. */
  function CanonicalSide(p: RectPosition, d: RectDirection): (r: (RectPosition, RectDirection))
    requires Neighbor(p, d).Some?
    ensures r.1 == North || r.1 == East
    ensures r.0 == p || r.0 == Neighbor(p, d).value
  {
    match d
    case North => (p, North)
    case East => (p, East)
    case South => (Neighbor(p, d).value, North)
    case West => (Neighbor(p, d).value, East)
  }

  /** The flag of a cell in a canonical direction. */
  function StoredFlag(cell: RectCell, d: RectDirection): bool
  {
    if d == North then cell.connectedNorth else cell.connectedEast
  }

  /** The cell with its flag in canonical direction `d` set. */
  function WithFlag(cell: RectCell, d: RectDirection): (r: RectCell)
    ensures StoredFlag(r, d)
  {
    if d == North then cell.(connectedNorth := true) else cell.(connectedEast := true)
  }

  /** The two ends of a passage share its canonical record: both are neighbouring cells and the
      reverse step from the neighbour names the same flag. */
  lemma CanonicalSideShared(l: GridLayout, p: RectPosition, d: RectDirection)
    requires NeighborPos(l, p, d).Some?
    ensures var n := NeighborPos(l, p, d).value;
      Neighbor(n, Reverse(d)) == Some(p) && CanonicalSide(n, Reverse(d)) == CanonicalSide(p, d)
      && IsRectCell(l, CanonicalSide(p, d).0)
  {
    NeighborRoundTrip(p, d);
  }

  /** A passage is open exactly when both ends are cells and its canonical flag is set. */
  lemma IsConnectedCanonical(l: GridLayout, cells: seq<RectCell>, p: RectPosition, d: RectDirection)
    requires SizedFor(l, cells)
    ensures IsConnectedIn(l, cells, p, d) <==>
      NeighborPos(l, p, d).Some? && StoredFlag(cells[CellIndex(l, CanonicalSide(p, d).0)], CanonicalSide(p, d).1)
  {
    if NeighborPos(l, p, d).Some? {
      CanonicalSideShared(l, p, d);
    }
  }

  /** `is_connected_to` reads the same passage from both ends. */
  lemma {:induction false} IsConnectedSymmetric(l: GridLayout, cells: seq<RectCell>, p: RectPosition, d: RectDirection)
    requires SizedFor(l, cells)
    requires NeighborPos(l, p, d).Some?
    ensures IsConnectedIn(l, cells, p, d) == IsConnectedIn(l, cells, NeighborPos(l, p, d).value, Reverse(d))
  {
    var n := NeighborPos(l, p, d).value;
    CanonicalSideShared(l, p, d);
    NeighborPosSymmetric(l, p, d);
    IsConnectedCanonical(l, cells, p, d);
    IsConnectedCanonical(l, cells, n, Reverse(d));
  }

  /** Only cells have passages, and none leads off the grid. */
  lemma NoPassageAtBorder(l: GridLayout, cells: seq<RectCell>, p: RectPosition, d: RectDirection)
    requires SizedFor(l, cells)
    ensures IsConnectedIn(l, cells, p, d) ==> NeighborPos(l, p, d).Some?
    ensures IsAtBorder(l, p, d) ==> !IsConnectedIn(l, cells, p, d)
  {
  }

  /** `RectGrid::connect_to(pos, dir)` on the cells of a grid: North and East set the cell's own
      flag, South and West connect the neighbour in the reverse direction. */
  function Connect(l: GridLayout, cells: seq<RectCell>, p: RectPosition, d: RectDirection): (r: seq<RectCell>)
    requires SizedFor(l, cells)
    ensures SizedFor(l, r)
    decreases DirRank(d)
  {
    match NeighborPos(l, p, d)
    case None => cells
    case Some(n) =>
      match d
      case North => cells[CellIndex(l, p) := WithFlag(cells[CellIndex(l, p)], North)]
      case East => cells[CellIndex(l, p) := WithFlag(cells[CellIndex(l, p)], East)]
      case South => Connect(l, cells, n, North)
      case West => Connect(l, cells, n, East)
  }

  /** Connecting writes exactly the passage's canonical flag and no other cell. */
  lemma ConnectSetsCanonicalFlag(l: GridLayout, cells: seq<RectCell>, p: RectPosition, d: RectDirection)
    requires SizedFor(l, cells)
    ensures NeighborPos(l, p, d).None? ==> Connect(l, cells, p, d) == cells
    ensures NeighborPos(l, p, d).Some? ==>
      var (c, e) := CanonicalSide(p, d);
      IsRectCell(l, c) && Connect(l, cells, p, d) == cells[CellIndex(l, c) := WithFlag(cells[CellIndex(l, c)], e)]
  {
    if NeighborPos(l, p, d).Some? {
      CanonicalSideShared(l, p, d);
    }
  }

  /** Two (position, direction) pairs name the same passage. */
  predicate SamePassage(l: GridLayout, p: RectPosition, d: RectDirection, q: RectPosition, e: RectDirection)
  {
    NeighborPos(l, p, d).Some? && ((q, e) == (p, d) || (Some(q) == NeighborPos(l, p, d) && e == Reverse(d)))
  }

  /** Distinct passages have distinct canonical records. */
  lemma CanonicalSideInjective(l: GridLayout, p: RectPosition, d: RectDirection, q: RectPosition, e: RectDirection)
    requires NeighborPos(l, p, d).Some? && NeighborPos(l, q, e).Some?
    ensures CanonicalSide(p, d) == CanonicalSide(q, e) <==> SamePassage(l, p, d, q, e)
  {
    CanonicalSideShared(l, p, d);
  }

  /** After connecting (p, d), a passage is open exactly when it was open before or is the one
      just connected, seen from either end. */
  lemma {:induction false} ConnectEffect(l: GridLayout, cells: seq<RectCell>, p: RectPosition, d: RectDirection,
                                         q: RectPosition, e: RectDirection)
    requires SizedFor(l, cells)
    ensures IsConnectedIn(l, Connect(l, cells, p, d), q, e) <==> IsConnectedIn(l, cells, q, e) || SamePassage(l, p, d, q, e)
  {
    var after := Connect(l, cells, p, d);
    ConnectSetsCanonicalFlag(l, cells, p, d);
    IsConnectedCanonical(l, cells, q, e);
    IsConnectedCanonical(l, after, q, e);
    if NeighborPos(l, p, d).Some? && NeighborPos(l, q, e).Some? {
      CanonicalSideInjective(l, p, d, q, e);
      CanonicalSideShared(l, q, e);
      var (c, f) := CanonicalSide(p, d);
      var (c', f') := CanonicalSide(q, e);
      CellIndexInjective(l, c, c');
    }
  }

  lemma CellIndexInjective(l: GridLayout, p: RectPosition, q: RectPosition)
    requires IsRectCell(l, p) && IsRectCell(l, q)
    ensures CellIndex(l, p) == CellIndex(l, q) <==> p == q
  {
    FlatIndexInjective(l, ToPosition2d(p), ToPosition2d(q));
  }

  /** Connecting twice is connecting once. */
  lemma ConnectIdempotent(l: GridLayout, cells: seq<RectCell>, p: RectPosition, d: RectDirection)
    requires SizedFor(l, cells)
    ensures Connect(l, Connect(l, cells, p, d), p, d) == Connect(l, cells, p, d)
  {
    var once := Connect(l, cells, p, d);
    ConnectSetsCanonicalFlag(l, cells, p, d);
    ConnectSetsCanonicalFlag(l, once, p, d);
    if NeighborPos(l, p, d).Some? {
      var (c, e) := CanonicalSide(p, d);
      assert once[CellIndex(l, c)] == WithFlag(cells[CellIndex(l, c)], e);
    }
  }

  /** The first direction, in `all_dirs` order, leading from `p` to `q`. */
  function FindDirection(p: RectPosition, q: RectPosition): (r: Option<RectDirection>)
    ensures r.Some? ==> Neighbor(p, r.value) == Some(q)
    ensures r.None? ==> forall d :: Neighbor(p, d) != Some(q)
  {
    if Neighbor(p, North) == Some(q) then Some(North)
    else if Neighbor(p, East) == Some(q) then Some(East)
    else if Neighbor(p, West) == Some(q) then Some(West)
    else if Neighbor(p, South) == Some(q) then Some(South)
    else None
  }

  /** The neighbouring cells `append_neighbors` adds, in the order of `dirs`. */
  function NeighborCells(l: GridLayout, p: RectPosition, dirs: seq<RectDirection>): (r: seq<Position2d>)
    ensures |r| <= |dirs|
    ensures forall q :: q in r <==> exists k :: 0 <= k < |dirs| && NeighborPos(l, p, dirs[k]) == Some(FromPosition2d(q))
  {
    if dirs == [] || !IsRectCell(l, p) then []
    else
      var rest := NeighborCells(l, p, dirs[1..]);
      assert forall k :: 1 <= k < |dirs| ==> dirs[k] == dirs[1..][k - 1];
      match NeighborPos(l, p, dirs[0])
      case Some(n) =>
        PositionConversionRoundTrip(n);
        [ToPosition2d(n)] + rest
      case None => rest
  }

  /** The neighbour list of a cell holds each neighbouring cell once, and nothing else. */
  lemma NeighborCellsSpec(l: GridLayout, p: RectPosition, q: RectPosition)
    ensures ToPosition2d(q) in NeighborCells(l, p, AllDirs) <==> exists d :: NeighborPos(l, p, d) == Some(q)
    ensures forall i, j | 0 <= i < j < |NeighborCells(l, p, AllDirs)| ::
      NeighborCells(l, p, AllDirs)[i] != NeighborCells(l, p, AllDirs)[j]
  {
    PositionConversionRoundTrip(q);
    if exists d :: NeighborPos(l, p, d) == Some(q) {
      var d :| NeighborPos(l, p, d) == Some(q);
      AllDirsComplete(d);
    }
    NeighborCellsDistinct(l, p, AllDirs);
  }

  lemma {:induction false} NeighborCellsDistinct(l: GridLayout, p: RectPosition, dirs: seq<RectDirection>)
    requires forall i, j | 0 <= i < j < |dirs| :: dirs[i] != dirs[j]
    ensures forall i, j | 0 <= i < j < |NeighborCells(l, p, dirs)| ::
      NeighborCells(l, p, dirs)[i] != NeighborCells(l, p, dirs)[j]
  {
    if dirs != [] && IsRectCell(l, p) {
      var rest := NeighborCells(l, p, dirs[1..]);
      NeighborCellsDistinct(l, p, dirs[1..]);
      match NeighborPos(l, p, dirs[0])
      case Some(n) =>
        PositionConversionRoundTrip(n);
        forall k | 0 <= k < |dirs[1..]|
          ensures NeighborPos(l, p, dirs[1..][k]) != Some(n)
        {
          assert dirs[1..][k] == dirs[k + 1];
          NeighborsDistinct(p, dirs[0], dirs[1..][k]);
        }
        assert ToPosition2d(n) !in rest;
        assert NeighborCells(l, p, dirs) == [ToPosition2d(n)] + rest;
      case None =>
    }
  }

  /** A fresh grid has no open passage. */
  lemma ClosedGridHasNoPassage(l: GridLayout, p: RectPosition, d: RectDirection)
    ensures !IsConnectedIn(l, Flags.Repeat(ClosedCell, l.width * l.height), p, d)
  {
    IsConnectedCanonical(l, Flags.Repeat(ClosedCell, l.width * l.height), p, d);
  }

  class RectGrid {
    const layout: GridLayout
    var cells: seq<RectCell>

    ghost predicate Valid()
      reads this
    {
      SizedFor(layout, cells)
    }

    /** `RectGrid::<NoMask>::new`: every position is a cell, and no passage is open. */
    constructor (width: nat, height: nat)
      ensures Valid() && layout == Layout(width, height, None)
      ensures cells == Flags.Repeat(ClosedCell, width * height)
    {
      layout := Layout(width, height, None);
      cells := Flags.Repeat(ClosedCell, width * height);
    }

    /** `RectGrid::<WithMask>::new`: the mask decides the cells, and no passage is open. */
    constructor WithMask(mask: RectMask)
      requires mask.Valid()
      ensures Valid() && layout == Layout(mask.width, mask.height, Some(mask.flags))
      ensures cells == Flags.Repeat(ClosedCell, mask.width * mask.height)
    {
      layout := Layout(mask.width, mask.height, Some(mask.flags));
      cells := Flags.Repeat(ClosedCell, mask.width * mask.height);
    }

    /** `size`: (width, height). */
    function Size(): (nat, nat)
    {
      (layout.width, layout.height)
    }

    /** The size bounds every cell, and without a mask the cells are exactly the positions
        inside it. */
    lemma SizeBoundsCells(p: RectPosition)
      ensures IsRectCell(layout, p) ==> p.row < Size().1 && p.col < Size().0
      ensures layout.mask.None? ==> (IsRectCell(layout, p) <==> p.row < Size().1 && p.col < Size().0)
    {
    }

    function CellsN(): nat
    {
      Maze.CellsN(layout)
    }

    predicate IsConnectedTo(p: RectPosition, d: RectDirection)
      reads this
      requires Valid()
    {
      IsConnectedIn(layout, cells, p, d)
    }

    /** `Grid2d::append_neighbors`: extends `neighbors` with the neighbouring cells of `p`. */
    method AppendNeighbors(p: Position2d, neighbors: seq<Position2d>) returns (r: seq<Position2d>)
      ensures Extends(neighbors, r)
      ensures r == neighbors + NeighborCells(layout, FromPosition2d(p), AllDirs)
    {
      r := neighbors + NeighborCells(layout, FromPosition2d(p), AllDirs);
    }

    /** `RectGrid::connect_to(pos, dir)`: opens the passage when the neighbour is a cell. */
    method ConnectTo(p: RectPosition, d: RectDirection) returns (ok: bool)
      requires Valid()
      modifies this
      ensures Valid()
      ensures ok <==> NeighborPos(layout, p, d).Some?
      ensures cells == Connect(layout, old(cells), p, d)
      decreases DirRank(d)
    {
      var n := NeighborPos(layout, p, d);
      if n.None? {
        return false;
      }
      var i := CellIndex(layout, p);
      match d {
        case North =>
          cells := cells[i := WithFlag(cells[i], North)];
          ok := true;
        case East =>
          cells := cells[i := WithFlag(cells[i], East)];
          ok := true;
        case South =>
          NeighborPosSymmetric(layout, p, d);
          ok := ConnectTo(n.value, North);
        case West =>
          NeighborPosSymmetric(layout, p, d);
          ok := ConnectTo(n.value, East);
      }
    }

    /** `Grid2d::connect_to(from, to)`: both must be cells and `to` a neighbour of `from`. */
    method ConnectPositions(from: Position2d, to: Position2d) returns (ok: bool)
      requires Valid()
      modifies this
      ensures Valid()
      ensures ok <==> IsCell(layout, from) && IsCell(layout, to) && exists d :: Neighbor(FromPosition2d(from), d) == Some(FromPosition2d(to))
      ensures ok ==> cells == Connect(layout, old(cells), FromPosition2d(from), FindDirection(FromPosition2d(from), FromPosition2d(to)).value)
      ensures !ok ==> cells == old(cells)
    {
      var rectFrom, rectTo := FromPosition2d(from), FromPosition2d(to);
      if !(IsCell(layout, from) && IsCell(layout, to)) {
        return false;
      }
      var dir := FindDirection(rectFrom, rectTo);
      if dir.None? {
        return false;
      }
      ok := ConnectTo(rectFrom, dir.value);
    }

    /** `LayerGrid::layers_n` of an unmasked grid: its rows. */
    function LayersN(): (r: nat)
      requires layout.mask.None?
      ensures r * layout.width == Maze.CellsN(layout)
      ensures layout.width > 0 ==> forall row: nat :: IsCell(layout, Position2d(row, 0)) <==> row < r
    {
      layout.height
    }

    /** `LayerGrid::cells_n_at` of an unmasked grid: every row has `width` cells. */
    function CellsNAt(layer: nat): (r: nat)
      requires layout.mask.None?
      ensures layer < LayersN() ==> forall col: nat :: IsCell(layout, Position2d(layer, col)) <==> col < r
    {
      layout.width
    }

    /** `LayerGrid::append_neighbors_upper_layer`: the northern neighbour, if any. */
    method AppendNeighborsUpperLayer(p: Position2d, neighbors: seq<Position2d>) returns (r: seq<Position2d>)
      requires layout.mask.None?
      ensures Extends(neighbors, r)
      ensures match NeighborPos(layout, FromPosition2d(p), North)
              case Some(n) => r == neighbors + [ToPosition2d(n)]
              case None => r == neighbors
    {
      r := neighbors;
      var n := NeighborPos(layout, FromPosition2d(p), North);
      if n.Some? {
        r := r + [ToPosition2d(n.value)];
      }
    }

    /** `LayerGrid::append_neighbors_lower_layer`: the southern neighbour, if any. */
    method AppendNeighborsLowerLayer(p: Position2d, neighbors: seq<Position2d>) returns (r: seq<Position2d>)
      requires layout.mask.None?
      ensures Extends(neighbors, r)
      ensures match NeighborPos(layout, FromPosition2d(p), South)
              case Some(n) => r == neighbors + [ToPosition2d(n)]
              case None => r == neighbors
    {
      r := neighbors;
      var n := NeighborPos(layout, FromPosition2d(p), South);
      if n.Some? {
        r := r + [ToPosition2d(n.value)];
      }
    }
  }
}
