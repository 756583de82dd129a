/** The triangular topology: triangles alternate between pointing up and pointing down along a
    row, by the parity of row + column. An up cell owns its Northwest and South passages, a down
    cell its SouthWest passage; every other passage is read from the neighbour. */
module Tri {
  import opened Wrappers
  import opened Maze
  import Rect
  import Flags

  datatype TriDirection = Northwest | Northeast | South | SouthWest | North | Southeast

  /** `TriDirection::angle_up_all_dirs`. */
  const UpDirs: seq<TriDirection> := [Northwest, Northeast, South]

  /** `TriDirection::angle_down_all_dirs`. */
  const DownDirs: seq<TriDirection> := [SouthWest, North, Southeast]

  /** The direction across the same edge, seen from the triangle on the other side. */
  function Opposite(d: TriDirection): (r: TriDirection)
    ensures r != d
  {
    match d
    case Northwest => Southeast
    case Southeast => Northwest
    case Northeast => SouthWest
    case SouthWest => Northeast
    case South => North
    case North => South
  }

  /** Opposite directions belong to opposite orientations. */
  lemma OppositeSwapsOrientation(d: TriDirection)
    ensures Opposite(Opposite(d)) == d
    ensures d in UpDirs <==> Opposite(d) in DownDirs
    ensures d in UpDirs <==> d !in DownDirs
  {
  }

  datatype TriPosition = TriPosition(row: nat, col: nat)

  function ToPosition2d(p: TriPosition): Position2d
  {
    Position2d(p.row, p.col)
  }

  function FromPosition2d(p: Position2d): (r: TriPosition)
    ensures ToPosition2d(r) == p
  {
    TriPosition(p.first, p.second)
  }

  /** `TriPosition::neighbor`. */
  function Neighbor(p: TriPosition, d: TriDirection): (r: Option<TriPosition>)
    ensures r.Some? ==> r.value != p
    ensures r.Some? ==>
      || (r.value.row == p.row && (r.value.col + 1 == p.col || r.value.col == p.col + 1))
      || (r.value.col == p.col && (r.value.row + 1 == p.row || r.value.row == p.row + 1))
  {
    match d
    case Northwest => if p.col > 0 then Some(TriPosition(p.row, p.col - 1)) else None
    case SouthWest => if p.col > 0 then Some(TriPosition(p.row, p.col - 1)) else None
    case Northeast => Some(TriPosition(p.row, p.col + 1))
    case Southeast => Some(TriPosition(p.row, p.col + 1))
    case South => Some(TriPosition(p.row + 1, p.col))
    case North => if p.row > 0 then Some(TriPosition(p.row - 1, p.col)) else None
  }

  /** The western directions step one column left and stop at column 0, the eastern ones step
      one column right, South one row down, and North one row up except on row 0. */
  lemma NeighborTable(p: TriPosition, d: TriDirection)
    ensures d == Northwest || d == SouthWest ==>
      Neighbor(p, d) == if p.col == 0 then None else Some(TriPosition(p.row, p.col - 1))
    ensures d == Northeast || d == Southeast ==> Neighbor(p, d) == Some(TriPosition(p.row, p.col + 1))
    ensures d == South ==> Neighbor(p, d) == Some(TriPosition(p.row + 1, p.col))
    ensures d == North ==> Neighbor(p, d) == if p.row == 0 then None else Some(TriPosition(p.row - 1, p.col))
  {
  }

  /** `TriCell`: an up triangle records its Northwest and South passages, a down triangle its
      SouthWest passage. (The source spells the variants `AngelUp` and `AngelDown`.) */
  datatype TriCell =
    | AngleUp(connectedNorthwest: bool, connectedSouth: bool)
    | AngleDown(connectedSouthwest: bool)

  /** `TriCell::default_at`: a closed cell whose orientation follows the parity of row + column. */
  function DefaultAt(p: Position2d): (r: TriCell)
    ensures r.AngleUp? <==> (p.first + p.second) % 2 == 0
    ensures forall d :: !StoredFlag(r, d)
  {
    if (p.first + p.second) % 2 == 0 then AngleUp(false, false) else AngleDown(false)
  }

  /** `TriMaze::is_angle_up`. */
  predicate IsAngleUp(p: TriPosition)
    ensures IsAngleUp(p) <==> (p.row + p.col) % 2 == 0
  {
    DefaultAt(ToPosition2d(p)).AngleUp?
  }

  /** A triangle points up exactly on even row + column; its default cell has no passage. */
  lemma DefaultAtParity(p: TriPosition)
    ensures IsAngleUp(p) <==> (p.row + p.col) % 2 == 0
    ensures DefaultAt(ToPosition2d(p)) == if IsAngleUp(p) then AngleUp(false, false) else AngleDown(false)
  {
  }

  /** The directions a cell of this orientation has. */
  function DirsOf(cell: TriCell): (r: seq<TriDirection>)
    ensures |r| == 3
  {
    match cell
    case AngleUp(_, _) => UpDirs
    case AngleDown(_) => DownDirs
  }

  // ---------------------------------------------------------------------------------------
  // TriGrid
  // ---------------------------------------------------------------------------------------

  predicate IsTriCell(l: GridLayout, p: TriPosition)
  {
    IsCell(l, ToPosition2d(p))
  }

  predicate SizedFor(l: GridLayout, cells: seq<TriCell>)
  {
    |cells| == l.width * l.height
  }

  function CellIndex(l: GridLayout, p: TriPosition): (i: nat)
    requires IsTriCell(l, p)
    ensures i < l.width * l.height
  {
    FlatIndex(l, ToPosition2d(p))
  }

  lemma CellIndexInjective(l: GridLayout, p: TriPosition, q: TriPosition)
    requires IsTriCell(l, p) && IsTriCell(l, q)
    ensures CellIndex(l, p) == CellIndex(l, q) <==> p == q
  {
    FlatIndexInjective(l, ToPosition2d(p), ToPosition2d(q));
  }

  /** Every cell keeps the orientation `default_at` gave it. */
  ghost predicate KindsMatch(l: GridLayout, cells: seq<TriCell>)
    requires SizedFor(l, cells)
  {
    forall p | IsTriCell(l, p) :: cells[CellIndex(l, p)].AngleUp? == IsAngleUp(p)
  }

  /** `TriGrid::neighbor_pos`: answers only for a direction of the cell's orientation, and only
      when the neighbour is a cell. */
  function NeighborPos(l: GridLayout, cells: seq<TriCell>, p: TriPosition, d: TriDirection): (r: Option<TriPosition>)
    requires SizedFor(l, cells)
    ensures r.Some? <==> IsTriCell(l, p) && d in DirsOf(cells[CellIndex(l, p)])
                         && Neighbor(p, d).Some? && IsTriCell(l, Neighbor(p, d).value)
    ensures r.Some? ==> r == Neighbor(p, d)
  {
    if IsTriCell(l, p) && d in DirsOf(cells[CellIndex(l, p)]) then
      match Neighbor(p, d)
      case Some(n) => if IsTriCell(l, n) then Some(n) else None
      case None => None
    else None
  }

  /** Stepping back in the opposite direction returns to the start. */
  lemma NeighborRoundTrip(p: TriPosition, d: TriDirection)
    ensures Neighbor(p, d).Some? ==> Neighbor(Neighbor(p, d).value, Opposite(d)) == Some(p)
  {
  }

  /** One step always changes the orientation. */
  lemma NeighborFlipsOrientation(p: TriPosition, d: TriDirection)
    ensures Neighbor(p, d).Some? ==> IsAngleUp(Neighbor(p, d).value) == !IsAngleUp(p)
  {
  }

  /** Every neighbour has the other orientation, and the opposite direction leads back. */
  lemma NeighborPosOpposite(l: GridLayout, cells: seq<TriCell>, p: TriPosition, d: TriDirection)
    requires SizedFor(l, cells) && KindsMatch(l, cells)
    requires NeighborPos(l, cells, p, d).Some?
    ensures var n := NeighborPos(l, cells, p, d).value;
      && cells[CellIndex(l, n)].AngleUp? == !cells[CellIndex(l, p)].AngleUp?
      && NeighborPos(l, cells, n, Opposite(d)) == Some(p)
  {
    var n := NeighborPos(l, cells, p, d).value;
    assert cells[CellIndex(l, p)].AngleUp? == IsAngleUp(p);
    assert cells[CellIndex(l, n)].AngleUp? == IsAngleUp(n);
    NeighborFlipsOrientation(p, d);
    NeighborRoundTrip(p, d);
    OppositeSwapsOrientation(d);
  }

  /** The directions whose flag a cell stores itself. */
  predicate Direct(d: TriDirection)
  {
    d == Northwest || d == South || d == SouthWest
  }

  /** North and the eastern directions defer to the neighbour, the stored ones do not. */
  function DirRank(d: TriDirection): nat
  {
    if Direct(d) then 0 else 1
  }

  /** `TriMaze::is_connected_to` on the cells of a grid. */
  function IsConnectedIn(l: GridLayout, cells: seq<TriCell>, p: TriPosition, d: TriDirection): (b: bool)
    requires SizedFor(l, cells)
    ensures b ==> IsTriCell(l, p) && d in DirsOf(cells[CellIndex(l, p)])
    ensures b && !Direct(d) ==> NeighborPos(l, cells, p, d).Some?
    decreases DirRank(d)
  {
    if !IsTriCell(l, p) then false
    else
      match cells[CellIndex(l, p)]
      case AngleUp(nw, s) =>
        (match d
         case Northwest => nw
         case South => s
         case Northeast =>
           (match NeighborPos(l, cells, p, Northeast)
            case Some(n) => IsConnectedIn(l, cells, n, SouthWest)
            case None => false)
         case _ => false)
      case AngleDown(sw) =>
        (match d
         case SouthWest => sw
         case North =>
           (match NeighborPos(l, cells, p, North)
            case Some(n) => IsConnectedIn(l, cells, n, South)
            case None => false)
         case Southeast =>
           (match NeighborPos(l, cells, p, Southeast)
            case Some(n) => IsConnectedIn(l, cells, n, Northwest)
            case None => false)
         case _ => false)
  }

  /** The flag a cell holds for a stored direction of its orientation. */
  function StoredFlag(cell: TriCell, d: TriDirection): bool
  {
    match cell
    case AngleUp(nw, s) => (d == Northwest && nw) || (d == South && s)
    case AngleDown(sw) => d == SouthWest && sw
  }

  /** The cell with the flag of stored direction `d` set; a direction the orientation does not
      store leaves it as it is. */
  function WithFlag(cell: TriCell, d: TriDirection): (r: TriCell)
    ensures r.AngleUp? == cell.AngleUp?
    ensures forall e | e != d :: StoredFlag(r, e) == StoredFlag(cell, e)
    ensures Direct(d) && d in DirsOf(cell) ==> StoredFlag(r, d)
  {
    match cell
    case AngleUp(nw, s) =>
      if d == Northwest then AngleUp(true, s) else if d == South then AngleUp(nw, true) else cell
    case AngleDown(sw) =>
      if d == SouthWest then AngleDown(true) else cell
  }

  /** Flags are set only on stored directions of the cell's orientation, toward a neighbouring
      cell: what `connect_to` ever sets. */
  ghost predicate WellFormed(l: GridLayout, cells: seq<TriCell>)
    requires SizedFor(l, cells)
  {
    && KindsMatch(l, cells)
    && forall p, d | IsTriCell(l, p) && StoredFlag(cells[CellIndex(l, p)], d) ::
         NeighborPos(l, cells, p, d).Some?
  }

  /** The first direction of `from`'s orientation whose neighbouring cell is `to`. */
  function FindDirection(l: GridLayout, cells: seq<TriCell>, from: TriPosition, to: TriPosition): (r: Option<TriDirection>)
    requires SizedFor(l, cells)
    ensures r.Some? ==> NeighborPos(l, cells, from, r.value) == Some(to)
    ensures r.None? ==> forall d :: NeighborPos(l, cells, from, d) != Some(to)
  {
    if !IsTriCell(l, from) then None
    else
      var dirs := DirsOf(cells[CellIndex(l, from)]);
      if NeighborPos(l, cells, from, dirs[0]) == Some(to) then Some(dirs[0])
      else if NeighborPos(l, cells, from, dirs[1]) == Some(to) then Some(dirs[1])
      else if NeighborPos(l, cells, from, dirs[2]) == Some(to) then Some(dirs[2])
      else None
  }

  /** The cell and stored direction that record the passage from `p` in direction `d`. */
  function CanonicalSide(p: TriPosition, d: TriDirection): (r: (TriPosition, TriDirection))
    requires Neighbor(p, d).Some?
    ensures Direct(r.1)
  {
    if Direct(d) then (p, d) else (Neighbor(p, d).value, Opposite(d))
  }

  /** `Grid2d::connect_to` on the cells of a grid: sets the passage's record. */
  function Connect(l: GridLayout, cells: seq<TriCell>, from: TriPosition, to: TriPosition): (r: seq<TriCell>)
    requires SizedFor(l, cells)
    ensures SizedFor(l, r)
  {
    match FindDirection(l, cells, from, to)
    case None => cells
    case Some(d) =>
      var (c, e) := CanonicalSide(from, d);
      if IsTriCell(l, c) then cells[CellIndex(l, c) := WithFlag(cells[CellIndex(l, c)], e)] else cells
  }

  predicate SamePassage(l: GridLayout, cells: seq<TriCell>, p: TriPosition, d: TriDirection, q: TriPosition, e: TriDirection)
    requires SizedFor(l, cells)
  {
    NeighborPos(l, cells, p, d).Some? &&
    ((q, e) == (p, d) || (Some(q) == NeighborPos(l, cells, p, d) && e == Opposite(d)))
  }

  /** Both ends of an edge share its record, which is a stored direction of that cell's
      orientation, and no other edge has the same record. */
  lemma CanonicalSideSpec(l: GridLayout, cells: seq<TriCell>, p: TriPosition, d: TriDirection, q: TriPosition, e: TriDirection)
    requires SizedFor(l, cells) && KindsMatch(l, cells)
    requires NeighborPos(l, cells, p, d).Some? && NeighborPos(l, cells, q, e).Some?
    ensures IsTriCell(l, CanonicalSide(p, d).0)
    ensures CanonicalSide(p, d).1 in DirsOf(cells[CellIndex(l, CanonicalSide(p, d).0)])
    ensures CanonicalSide(p, d) == CanonicalSide(q, e) <==> SamePassage(l, cells, p, d, q, e)
  {
    NeighborPosOpposite(l, cells, p, d);
    NeighborPosOpposite(l, cells, q, e);
  }

  /** A passage between two cells is open exactly when its record is set. */
  lemma {:induction false} IsConnectedCanonical(l: GridLayout, cells: seq<TriCell>, p: TriPosition, d: TriDirection)
    requires SizedFor(l, cells) && KindsMatch(l, cells)
    requires NeighborPos(l, cells, p, d).Some?
    ensures IsTriCell(l, CanonicalSide(p, d).0)
    ensures IsConnectedIn(l, cells, p, d) == StoredFlag(cells[CellIndex(l, CanonicalSide(p, d).0)], CanonicalSide(p, d).1)
  {
    CanonicalSideSpec(l, cells, p, d, p, d);
    NeighborPosOpposite(l, cells, p, d);
  }

  /** In a well-formed grid an open passage always leads to a neighbouring cell; in particular
      a direction outside the cell's orientation is never open. */
  lemma ConnectedHasNeighbor(l: GridLayout, cells: seq<TriCell>, p: TriPosition, d: TriDirection)
    requires SizedFor(l, cells) && WellFormed(l, cells)
    ensures IsConnectedIn(l, cells, p, d) ==> NeighborPos(l, cells, p, d).Some?
  {
  }

  /** `is_connected_to` is symmetric: up.Northeast matches the neighbour's SouthWest, down.North
      the neighbour's South, down.Southeast the neighbour's Northwest, and back. */
  lemma IsConnectedSymmetric(l: GridLayout, cells: seq<TriCell>, p: TriPosition, d: TriDirection)
    requires SizedFor(l, cells) && KindsMatch(l, cells)
    requires NeighborPos(l, cells, p, d).Some?
    ensures IsConnectedIn(l, cells, p, d) == IsConnectedIn(l, cells, NeighborPos(l, cells, p, d).value, Opposite(d))
  {
    var n := NeighborPos(l, cells, p, d).value;
    NeighborPosOpposite(l, cells, p, d);
    CanonicalSideSpec(l, cells, p, d, n, Opposite(d));
    IsConnectedCanonical(l, cells, p, d);
    IsConnectedCanonical(l, cells, n, Opposite(d));
  }

  /** `connect_to` keeps orientations and sets only records of real passages. */
  lemma ConnectPreservesWellFormed(l: GridLayout, cells: seq<TriCell>, from: TriPosition, to: TriPosition)
    requires SizedFor(l, cells) && WellFormed(l, cells)
    ensures WellFormed(l, Connect(l, cells, from, to))
  {
    match FindDirection(l, cells, from, to)
    case None =>
    case Some(d) =>
      var (c, e) := CanonicalSide(from, d);
      var after := Connect(l, cells, from, to);
      CanonicalSideSpec(l, cells, from, d, from, d);
      forall p | IsTriCell(l, p)
        ensures after[CellIndex(l, p)].AngleUp? == IsAngleUp(p)
      {
        CellIndexInjective(l, p, c);
      }
      forall p, f | IsTriCell(l, p) && StoredFlag(after[CellIndex(l, p)], f)
        ensures NeighborPos(l, after, p, f).Some?
      {
        CellIndexInjective(l, p, c);
        assert DirsOf(after[CellIndex(l, p)]) == DirsOf(cells[CellIndex(l, p)]);
        if p == c && f == e {
          NeighborPosOpposite(l, cells, from, d);
        }
      }
  }

  /** Two cell sequences with the same orientations have the same neighbours. */
  lemma SameKindsSameNeighbors(l: GridLayout, a: seq<TriCell>, b: seq<TriCell>, p: TriPosition, d: TriDirection)
    requires SizedFor(l, a) && SizedFor(l, b)
    requires forall i | 0 <= i < |a| :: a[i].AngleUp? == b[i].AngleUp?
    ensures NeighborPos(l, a, p, d) == NeighborPos(l, b, p, d)
  {
    if IsTriCell(l, p) {
      assert DirsOf(a[CellIndex(l, p)]) == DirsOf(b[CellIndex(l, p)]);
    }
  }

  /** `connect_to` never changes an orientation. */
  lemma ConnectKeepsKinds(l: GridLayout, cells: seq<TriCell>, from: TriPosition, to: TriPosition)
    requires SizedFor(l, cells)
    ensures forall i | 0 <= i < |cells| :: Connect(l, cells, from, to)[i].AngleUp? == cells[i].AngleUp?
  {
  }

  /** The effect of connecting along `d` on one passage between two cells. */
  lemma ConnectEffectOnPassage(l: GridLayout, cells: seq<TriCell>, from: TriPosition, to: TriPosition, d: TriDirection,
                               q: TriPosition, e: TriDirection)
    requires SizedFor(l, cells) && KindsMatch(l, cells)
    requires FindDirection(l, cells, from, to) == Some(d)
    requires NeighborPos(l, cells, q, e).Some?
    requires KindsMatch(l, Connect(l, cells, from, to))
    requires NeighborPos(l, Connect(l, cells, from, to), q, e) == NeighborPos(l, cells, q, e)
    ensures IsConnectedIn(l, Connect(l, cells, from, to), q, e) <==>
      IsConnectedIn(l, cells, q, e) || SamePassage(l, cells, from, d, q, e)
  {
    var after := Connect(l, cells, from, to);
    var (c, f) := CanonicalSide(from, d);
    var (c', f') := CanonicalSide(q, e);
    CanonicalSideSpec(l, cells, from, d, q, e);
    CanonicalSideSpec(l, cells, q, e, q, e);
    IsConnectedCanonical(l, cells, q, e);
    IsConnectedCanonical(l, after, q, e);
    CellIndexInjective(l, c, c');
  }

  /** After `connect_to(from, to)` a passage is open exactly when it was open before or it is
      the edge between `from` and `to`, seen from either end. */
  lemma {:induction false} ConnectEffect(l: GridLayout, cells: seq<TriCell>, from: TriPosition, to: TriPosition,
                                         q: TriPosition, e: TriDirection)
    requires SizedFor(l, cells) && WellFormed(l, cells)
    ensures IsConnectedIn(l, Connect(l, cells, from, to), q, e) <==>
      IsConnectedIn(l, cells, q, e) ||
      (FindDirection(l, cells, from, to).Some? && SamePassage(l, cells, from, FindDirection(l, cells, from, to).value, q, e))
  {
    var after := Connect(l, cells, from, to);
    ConnectPreservesWellFormed(l, cells, from, to);
    ConnectKeepsKinds(l, cells, from, to);
    SameKindsSameNeighbors(l, after, cells, q, e);
    ConnectedHasNeighbor(l, cells, q, e);
    ConnectedHasNeighbor(l, after, q, e);
    match FindDirection(l, cells, from, to)
    case None =>
    case Some(d) =>
      if NeighborPos(l, cells, q, e).Some? {
        ConnectEffectOnPassage(l, cells, from, to, d, q, e);
      } else {
        NeighborPosOpposite(l, cells, from, d);
        assert !SamePassage(l, cells, from, d, q, e);
      }
  }

  /** The cells `TriGrid::new` and `with_mask` start from: `default_at` of every position. */
  function DefaultCells(l: GridLayout): (r: seq<TriCell>)
    ensures SizedFor(l, r)
  {
    seq(l.width * l.height, i requires 0 <= i < l.width * l.height => DefaultAt(PositionAt(l, i)))
  }

  /** A fresh grid is well formed and has no open passage. */
  lemma DefaultCellsClosed(l: GridLayout, p: TriPosition, d: TriDirection)
    ensures WellFormed(l, DefaultCells(l))
    ensures !IsConnectedIn(l, DefaultCells(l), p, d)
  {
    var cells := DefaultCells(l);
    forall q | IsTriCell(l, q)
      ensures cells[CellIndex(l, q)] == DefaultAt(ToPosition2d(q))
    {
      PositionAtIndexOf(l, ToPosition2d(q));
    }
    if NeighborPos(l, cells, p, d).Some? {
      IsConnectedCanonical(l, cells, p, d);
    }
  }

  /** The neighbouring cells `append_neighbors` adds, in the order of `dirs`. */
  function NeighborCells(l: GridLayout, cells: seq<TriCell>, p: TriPosition, dirs: seq<TriDirection>): (r: seq<Position2d>)
    requires SizedFor(l, cells)
    ensures |r| <= |dirs|
    ensures forall q :: q in r <==> exists k :: 0 <= k < |dirs| && NeighborPos(l, cells, p, dirs[k]) == Some(FromPosition2d(q))
  {
    if dirs == [] then []
    else
      var rest := NeighborCells(l, cells, p, dirs[1..]);
      assert forall k :: 1 <= k < |dirs| ==> dirs[k] == dirs[1..][k - 1];
      match NeighborPos(l, cells, p, dirs[0])
      case Some(n) => [ToPosition2d(n)] + rest
      case None => rest
  }

  /** `append_neighbors`: nothing for a non-cell, otherwise the neighbouring cells along the
      cell's own three directions. */
  function AppendedNeighbors(l: GridLayout, cells: seq<TriCell>, p: Position2d): seq<Position2d>
    requires SizedFor(l, cells)
  {
    if IsCell(l, p) then NeighborCells(l, cells, FromPosition2d(p), DirsOf(cells[FlatIndex(l, p)])) else []
  }

  /** At most three neighbours, each a neighbouring cell, and every neighbouring cell listed. */
  lemma AppendedNeighborsSpec(l: GridLayout, cells: seq<TriCell>, p: Position2d, q: TriPosition)
    requires SizedFor(l, cells)
    ensures |AppendedNeighbors(l, cells, p)| <= 3
    ensures !IsCell(l, p) ==> AppendedNeighbors(l, cells, p) == []
    ensures ToPosition2d(q) in AppendedNeighbors(l, cells, p) <==> exists d :: NeighborPos(l, cells, FromPosition2d(p), d) == Some(q)
  {
    if exists d :: NeighborPos(l, cells, FromPosition2d(p), d) == Some(q) {
      var d :| NeighborPos(l, cells, FromPosition2d(p), d) == Some(q);
      var dirs := DirsOf(cells[FlatIndex(l, p)]);
      assert d in dirs;
      var k :| 0 <= k < |dirs| && dirs[k] == d;
    }
  }

  class TriGrid {
    const layout: GridLayout
    var cells: seq<TriCell>

    ghost predicate Valid()
      reads this
    {
      SizedFor(layout, cells) && WellFormed(layout, cells)
    }

    /** `TriGrid::new`. */
    constructor (width: nat, height: nat)
      ensures Valid() && layout == Layout(width, height, None)
      ensures cells == DefaultCells(layout)
    {
      layout := Layout(width, height, None);
      cells := DefaultCells(Layout(width, height, None));
      new;
      DefaultCellsClosed(layout, TriPosition(0, 0), North);
    }

    /** `TriGrid::with_mask`. */
    constructor WithMask(mask: Rect.RectMask)
      requires mask.Valid()
      ensures Valid() && layout == Layout(mask.width, mask.height, Some(mask.flags))
      ensures cells == DefaultCells(layout)
    {
      layout := Layout(mask.width, mask.height, Some(mask.flags));
      cells := DefaultCells(Layout(mask.width, mask.height, Some(mask.flags)));
      new;
      DefaultCellsClosed(layout, TriPosition(0, 0), North);
    }

    function CellsN(): nat
    {
      Maze.CellsN(layout)
    }

    predicate IsConnectedTo(p: TriPosition, d: TriDirection)
      reads this
      requires Valid()
    {
      IsConnectedIn(layout, cells, p, d)
    }

    /** `Grid2d::append_neighbors`. */
    method AppendNeighbors(p: Position2d, neighbors: seq<Position2d>) returns (r: seq<Position2d>)
      requires Valid()
      ensures Extends(neighbors, r)
      ensures r == neighbors + AppendedNeighbors(layout, cells, p)
    {
      r := neighbors + AppendedNeighbors(layout, cells, p);
    }

    /** `Grid2d::connect_to`: finds the direction among `from`'s own and sets the flag on the
        cell that stores it. The arms the source marks unreachable are. */
    method ConnectTo(from: Position2d, to: Position2d) returns (ok: bool)
      requires Valid()
      modifies this
      ensures Valid()
      ensures ok <==> exists d :: NeighborPos(layout, old(cells), FromPosition2d(from), d) == Some(FromPosition2d(to))
      ensures cells == Connect(layout, old(cells), FromPosition2d(from), FromPosition2d(to))
    {
      var triFrom, triTo := FromPosition2d(from), FromPosition2d(to);
      var dir := FindDirection(layout, cells, triFrom, triTo);
      if dir.None? {
        return false;
      }
      ConnectPreservesWellFormed(layout, cells, triFrom, triTo);
      CanonicalSideSpec(layout, cells, triFrom, dir.value, triFrom, dir.value);
      NeighborPosOpposite(layout, cells, triFrom, dir.value);
      var d := dir.value;
      var i: nat;
      if d == Northwest || d == South || d == SouthWest {
        i := CellIndex(layout, triFrom);
      } else {
        i := CellIndex(layout, triTo);
      }
      match d {
        case Northwest =>
          match cells[i] {
            case AngleUp(_, s) => cells := cells[i := AngleUp(true, s)];
          }
        case Northeast =>
          match cells[i] {
            case AngleDown(_) => cells := cells[i := AngleDown(true)];
          }
        case South =>
          match cells[i] {
            case AngleUp(nw, _) => cells := cells[i := AngleUp(nw, true)];
          }
        case SouthWest =>
          match cells[i] {
            case AngleDown(_) => cells := cells[i := AngleDown(true)];
          }
        case North =>
          match cells[i] {
            case AngleUp(nw, _) => cells := cells[i := AngleUp(nw, true)];
          }
        case Southeast =>
          match cells[i] {
            case AngleUp(_, s) => cells := cells[i := AngleUp(true, s)];
          }
      }
      ok := true;
    }
  }
}
