/** The hexagonal topology: columns of hexagons where odd columns sit half a cell lower. A cell
    stores its North, NorthWest and SouthWest passages; the other three directions are read from
    the neighbour's mirrored flag. */
module Hexa {
  import opened Wrappers
  import opened Maze
  import Rect
  import Flags

  datatype HexaDirection = North | NorthEast | SouthEast | South | SouthWest | NorthWest

  /** `HexaDirection::all_dirs`, in the order the source lists them. */
  const AllDirs: seq<HexaDirection> := [North, NorthEast, SouthEast, NorthWest, SouthWest, South]

  lemma AllDirsComplete(d: HexaDirection)
    ensures exists k :: 0 <= k < |AllDirs| && AllDirs[k] == d
  {
    match d
    case North => assert AllDirs[0] == d;
    case NorthEast => assert AllDirs[1] == d;
    case SouthEast => assert AllDirs[2] == d;
    case NorthWest => assert AllDirs[3] == d;
    case SouthWest => assert AllDirs[4] == d;
    case South => assert AllDirs[5] == d;
  }

  /** The direction across the same edge, seen from the other cell. */
  function Opposite(d: HexaDirection): (r: HexaDirection)
    ensures r != d
  {
    match d
    case North => South
    case South => North
    case NorthEast => SouthWest
    case SouthWest => NorthEast
    case SouthEast => NorthWest
    case NorthWest => SouthEast
  }

  /** The directions a cell stores itself. */
  predicate Direct(d: HexaDirection)
  {
    d == North || d == SouthWest || d == NorthWest
  }

  lemma OppositeSwapsStorage(d: HexaDirection)
    ensures Opposite(Opposite(d)) == d
    ensures Direct(d) <==> !Direct(Opposite(d))
  {
  }

  datatype HexaPosition = HexaPosition(row: nat, col: nat)

  function ToPosition2d(p: HexaPosition): Position2d
  {
    Position2d(p.row, p.col)
  }

  function FromPosition2d(p: Position2d): (r: HexaPosition)
    ensures ToPosition2d(r) == p
  {
    HexaPosition(p.first, p.second)
  }

  /** `HexaPosition::neighbor`: the offsets depend on the parity of the column. */
  function Neighbor(p: HexaPosition, d: HexaDirection): (r: Option<HexaPosition>)
    ensures r.Some? ==> r.value != p
    ensures r.Some? ==> r.value.row <= p.row + 1 && p.row <= r.value.row + 1
    ensures r.Some? ==> r.value.col <= p.col + 1 && p.col <= r.value.col + 1
  {
    var (r, c) := (p.row, p.col);
    match d
    case North => if r > 0 then Some(HexaPosition(r - 1, c)) else None
    case NorthEast =>
      if c % 2 == 0 && r > 0 then Some(HexaPosition(r - 1, c + 1))
      else if c % 2 == 1 then Some(HexaPosition(r, c + 1))
      else None
    case SouthEast =>
      if c % 2 == 0 then Some(HexaPosition(r, c + 1)) else Some(HexaPosition(r + 1, c + 1))
    case South => Some(HexaPosition(r + 1, c))
    case SouthWest =>
      if c > 0 && c % 2 == 0 then Some(HexaPosition(r, c - 1))
      else if c > 0 && c % 2 == 1 then Some(HexaPosition(r + 1, c - 1))
      else None
    case NorthWest =>
      if c > 0 && c % 2 == 0 && r > 0 then Some(HexaPosition(r - 1, c - 1))
      else if c > 0 && c % 2 == 1 then Some(HexaPosition(r, c - 1))
      else None
  }

  /** The offset table: even columns step up on the east and west diagonals going north, odd
      columns step down going south; North and South move along the column. */
  lemma NeighborOffsets(p: HexaPosition)
    ensures var (r, c) := (p.row, p.col);
      && (c % 2 == 0 && r > 0 ==> Neighbor(p, NorthEast) == Some(HexaPosition(r - 1, c + 1)))
      && (c % 2 == 0 ==> Neighbor(p, SouthEast) == Some(HexaPosition(r, c + 1)))
      && (c % 2 == 0 && c > 0 ==> Neighbor(p, SouthWest) == Some(HexaPosition(r, c - 1)))
      && (c % 2 == 0 && c > 0 && r > 0 ==> Neighbor(p, NorthWest) == Some(HexaPosition(r - 1, c - 1)))
      && (c % 2 == 1 ==> Neighbor(p, NorthEast) == Some(HexaPosition(r, c + 1)))
      && (c % 2 == 1 ==> Neighbor(p, SouthEast) == Some(HexaPosition(r + 1, c + 1)))
      && (c % 2 == 1 ==> Neighbor(p, SouthWest) == Some(HexaPosition(r + 1, c - 1)))
      && (c % 2 == 1 ==> Neighbor(p, NorthWest) == Some(HexaPosition(r, c - 1)))
      && (r > 0 ==> Neighbor(p, North) == Some(HexaPosition(r - 1, c)))
      && Neighbor(p, South) == Some(HexaPosition(r + 1, c))
  {
  }

  /** Where a step leaves the non-negative quadrant. */
  lemma NeighborBoundaries(p: HexaPosition, d: HexaDirection)
    ensures Neighbor(p, d).None? <==>
      || (d == North && p.row == 0)
      || (d == NorthEast && p.col % 2 == 0 && p.row == 0)
      || (d == NorthWest && (p.col == 0 || (p.col % 2 == 0 && p.row == 0)))
      || (d == SouthWest && p.col == 0)
  {
  }

  /** Stepping across an edge and back across it in the opposite direction returns home. */
  lemma NeighborRoundTrip(p: HexaPosition, d: HexaDirection)
    ensures Neighbor(p, d).Some? ==> Neighbor(Neighbor(p, d).value, Opposite(d)) == Some(p)
  {
  }

  /** Different directions lead to different positions. */
  lemma NeighborsDistinct(p: HexaPosition, d: HexaDirection, e: HexaDirection)
    requires d != e && Neighbor(p, d).Some?
    ensures Neighbor(p, e) != Neighbor(p, d)
  {
  }

  // ---------------------------------------------------------------------------------------
  // HexaGrid
  // ---------------------------------------------------------------------------------------

  /** `HexaCell`: the three passages a cell stores. */
  datatype HexaCell = HexaCell(connectedNorth: bool, connectedNorthwest: bool, connectedSouthwest: bool)

  const ClosedCell := HexaCell(false, false, false)

  predicate IsHexaCell(l: GridLayout, p: HexaPosition)
  {
    IsCell(l, ToPosition2d(p))
  }

  predicate SizedFor(l: GridLayout, cells: seq<HexaCell>)
  {
    |cells| == l.width * l.height
  }

  function CellIndex(l: GridLayout, p: HexaPosition): (i: nat)
    requires IsHexaCell(l, p)
    ensures i < l.width * l.height
  {
    FlatIndex(l, ToPosition2d(p))
  }

  /** The flag a cell holds for one of its stored directions. */
  function StoredFlag(cell: HexaCell, d: HexaDirection): bool
    requires Direct(d)
  {
    match d
    case North => cell.connectedNorth
    case NorthWest => cell.connectedNorthwest
    case SouthWest => cell.connectedSouthwest
  }

  function WithFlag(cell: HexaCell, d: HexaDirection): (r: HexaCell)
    requires Direct(d)
    ensures StoredFlag(r, d)
    ensures forall e | Direct(e) && e != d :: StoredFlag(r, e) == StoredFlag(cell, e)
  {
    match d
    case North => cell.(connectedNorth := true)
    case NorthWest => cell.(connectedNorthwest := true)
    case SouthWest => cell.(connectedSouthwest := true)
  }

  /** `HexaGrid::neighbor_pos`: the neighbour when both it and the position are cells. */
  function NeighborPos(l: GridLayout, p: HexaPosition, d: HexaDirection): (r: Option<HexaPosition>)
    ensures r.Some? <==> IsHexaCell(l, p) && Neighbor(p, d).Some? && IsHexaCell(l, Neighbor(p, d).value)
    ensures r.Some? ==> r == Neighbor(p, d)
  {
    if IsHexaCell(l, p) then
      match Neighbor(p, d)
      case Some(n) => if IsHexaCell(l, n) then Some(n) else None
      case None => None
    else None
  }

  lemma NeighborPosSymmetric(l: GridLayout, p: HexaPosition, d: HexaDirection)
    ensures NeighborPos(l, p, d).Some? ==> NeighborPos(l, NeighborPos(l, p, d).value, Opposite(d)) == Some(p)
  {
    NeighborRoundTrip(p, d);
  }

  /** `HexaMaze::is_connected_to`: North, SouthWest and NorthWest read the cell's own flag,
      the other directions the neighbour's flag in the opposite direction. */
  function IsConnectedIn(l: GridLayout, cells: seq<HexaCell>, p: HexaPosition, d: HexaDirection): (b: bool)
    requires SizedFor(l, cells)
    ensures b ==> IsHexaCell(l, p)
    ensures b && !Direct(d) ==> NeighborPos(l, p, d).Some?
    ensures b && WellFormed(l, cells) ==> NeighborPos(l, p, d).Some?
  {
    IsHexaCell(l, p) &&
    if Direct(d) then StoredFlag(cells[CellIndex(l, p)], d)
    else
      match Neighbor(p, d)
      case Some(n) => IsHexaCell(l, n) && StoredFlag(cells[CellIndex(l, n)], Opposite(d))
      case None => false
  }

  /** Stored flags only ever name a passage to a neighbouring cell: `connect_to` sets nothing
      else, so `is_connected_to` need not check the neighbour of a stored direction. */
  ghost predicate WellFormed(l: GridLayout, cells: seq<HexaCell>)
    requires SizedFor(l, cells)
  {
    forall p, d | IsHexaCell(l, p) && Direct(d) && StoredFlag(cells[CellIndex(l, p)], d) ::
      NeighborPos(l, p, d).Some?
  }

  /** The first direction, in `all_dirs` order, whose neighbouring cell is `to`. */
  function FindDirection(l: GridLayout, from: HexaPosition, to: HexaPosition): (r: Option<HexaDirection>)
    ensures r.Some? ==> NeighborPos(l, from, r.value) == Some(to)
    ensures r.None? ==> forall d :: NeighborPos(l, from, d) != Some(to)
  {
    if NeighborPos(l, from, North) == Some(to) then Some(North)
    else if NeighborPos(l, from, NorthEast) == Some(to) then Some(NorthEast)
    else if NeighborPos(l, from, SouthEast) == Some(to) then Some(SouthEast)
    else if NeighborPos(l, from, NorthWest) == Some(to) then Some(NorthWest)
    else if NeighborPos(l, from, SouthWest) == Some(to) then Some(SouthWest)
    else if NeighborPos(l, from, South) == Some(to) then Some(South)
    else None
  }

  /** The cell and stored direction that record the passage from `p` in direction `d`. */
  function CanonicalSide(p: HexaPosition, d: HexaDirection): (r: (HexaPosition, HexaDirection))
    requires Neighbor(p, d).Some?
    ensures Direct(r.1)
  {
    if Direct(d) then (p, d) else (Neighbor(p, d).value, Opposite(d))
  }

  /** `Grid2d::connect_to` on the cells of a grid. */
  function Connect(l: GridLayout, cells: seq<HexaCell>, from: HexaPosition, to: HexaPosition): (r: seq<HexaCell>)
    requires SizedFor(l, cells)
    ensures SizedFor(l, r)
  {
    match FindDirection(l, from, to)
    case None => cells
    case Some(d) =>
      var (c, e) := CanonicalSide(from, d);
      cells[CellIndex(l, c) := WithFlag(cells[CellIndex(l, c)], e)]
  }

  /** Whether two (position, direction) pairs cross the same edge. */
  predicate SamePassage(l: GridLayout, p: HexaPosition, d: HexaDirection, q: HexaPosition, e: HexaDirection)
  {
    NeighborPos(l, p, d).Some? && ((q, e) == (p, d) || (Some(q) == NeighborPos(l, p, d) && e == Opposite(d)))
  }

  /** Both ends of an edge share its record, and only they do. */
  lemma CanonicalSideSpec(l: GridLayout, p: HexaPosition, d: HexaDirection, q: HexaPosition, e: HexaDirection)
    requires NeighborPos(l, p, d).Some? && NeighborPos(l, q, e).Some?
    ensures IsHexaCell(l, CanonicalSide(p, d).0)
    ensures CanonicalSide(p, d) == CanonicalSide(q, e) <==> SamePassage(l, p, d, q, e)
  {
    NeighborRoundTrip(p, d);
    NeighborRoundTrip(q, e);
  }

  /** A passage is open exactly when its record is set, and then it leads to a cell. */
  lemma IsConnectedCanonical(l: GridLayout, cells: seq<HexaCell>, p: HexaPosition, d: HexaDirection)
    requires SizedFor(l, cells)
    requires NeighborPos(l, p, d).Some?
    ensures IsHexaCell(l, CanonicalSide(p, d).0)
    ensures IsConnectedIn(l, cells, p, d) == StoredFlag(cells[CellIndex(l, CanonicalSide(p, d).0)], CanonicalSide(p, d).1)
  {
    CanonicalSideSpec(l, p, d, p, d);
  }

  /** In a well-formed grid every open passage leads to a neighbouring cell. */
  lemma ConnectedHasNeighbor(l: GridLayout, cells: seq<HexaCell>, p: HexaPosition, d: HexaDirection)
    requires SizedFor(l, cells) && WellFormed(l, cells)
    ensures IsConnectedIn(l, cells, p, d) ==> NeighborPos(l, p, d).Some?
  {
  }

  /** `is_connected_to` reads the same passage from both ends. */
  lemma IsConnectedSymmetric(l: GridLayout, cells: seq<HexaCell>, p: HexaPosition, d: HexaDirection)
    requires SizedFor(l, cells)
    requires NeighborPos(l, p, d).Some?
    ensures IsConnectedIn(l, cells, p, d) == IsConnectedIn(l, cells, NeighborPos(l, p, d).value, Opposite(d))
  {
    var n := NeighborPos(l, p, d).value;
    NeighborPosSymmetric(l, p, d);
    CanonicalSideSpec(l, p, d, n, Opposite(d));
    IsConnectedCanonical(l, cells, p, d);
    IsConnectedCanonical(l, cells, n, Opposite(d));
  }

  lemma CellIndexInjective(l: GridLayout, p: HexaPosition, q: HexaPosition)
    requires IsHexaCell(l, p) && IsHexaCell(l, q)
    ensures CellIndex(l, p) == CellIndex(l, q) <==> p == q
  {
    FlatIndexInjective(l, ToPosition2d(p), ToPosition2d(q));
  }

  /** After `connect_to(from, to)` a passage is open exactly when it was open before or it is
      the edge between `from` and `to`, seen from either end. In a well-formed grid this holds
      for every (position, direction) pair. */
  lemma {:induction false} ConnectEffect(l: GridLayout, cells: seq<HexaCell>, from: HexaPosition, to: HexaPosition,
                                         q: HexaPosition, e: HexaDirection)
    requires SizedFor(l, cells) && WellFormed(l, cells)
    ensures IsConnectedIn(l, Connect(l, cells, from, to), q, e) <==>
      IsConnectedIn(l, cells, q, e) ||
      (FindDirection(l, from, to).Some? && SamePassage(l, from, FindDirection(l, from, to).value, q, e))
  {
    var after := Connect(l, cells, from, to);
    ConnectPreservesWellFormed(l, cells, from, to);
    ConnectedHasNeighbor(l, cells, q, e);
    ConnectedHasNeighbor(l, after, q, e);
    match FindDirection(l, from, to)
    case None =>
    case Some(d) =>
      if NeighborPos(l, q, e).Some? {
        ConnectEffectAt(l, cells, from, d, q, e);
      } else {
        NeighborPosSymmetric(l, from, d);
        assert !SamePassage(l, from, d, q, e);
      }
  }

  /** Setting the record of the edge from `from` in direction `d` opens, among the passages
      that lead to a cell, exactly the two sides of that edge. */
  lemma ConnectEffectAt(l: GridLayout, cells: seq<HexaCell>, from: HexaPosition, d: HexaDirection, q: HexaPosition, e: HexaDirection)
    requires SizedFor(l, cells) && NeighborPos(l, from, d).Some? && NeighborPos(l, q, e).Some?
    ensures IsHexaCell(l, CanonicalSide(from, d).0)
    ensures var (c, f) := CanonicalSide(from, d);
      IsConnectedIn(l, cells[CellIndex(l, c) := WithFlag(cells[CellIndex(l, c)], f)], q, e) <==>
        IsConnectedIn(l, cells, q, e) || SamePassage(l, from, d, q, e)
  {
    var (c, f) := CanonicalSide(from, d);
    var (c', f') := CanonicalSide(q, e);
    IsConnectedCanonical(l, cells, from, d);
    var after := cells[CellIndex(l, c) := WithFlag(cells[CellIndex(l, c)], f)];
    CanonicalSideSpec(l, from, d, q, e);
    IsConnectedCanonical(l, cells, q, e);
    IsConnectedCanonical(l, after, q, e);
    CellIndexInjective(l, c, c');
    if c == c' {
      assert after[CellIndex(l, c')] == WithFlag(cells[CellIndex(l, c)], f);
    } else {
      assert after[CellIndex(l, c')] == cells[CellIndex(l, c')];
    }
  }

  /** `connect_to` keeps every stored flag pointing at a neighbouring cell. */
  lemma ConnectPreservesWellFormed(l: GridLayout, cells: seq<HexaCell>, from: HexaPosition, to: HexaPosition)
    requires SizedFor(l, cells) && WellFormed(l, cells)
    ensures WellFormed(l, Connect(l, cells, from, to))
  {
    match FindDirection(l, from, to)
    case None =>
    case Some(d) =>
      var (c, e) := CanonicalSide(from, d);
      var after := Connect(l, cells, from, to);
      CanonicalSideSpec(l, from, d, from, d);
      forall p, f | IsHexaCell(l, p) && Direct(f) && StoredFlag(after[CellIndex(l, p)], f)
        ensures NeighborPos(l, p, f).Some?
      {
        CellIndexInjective(l, p, c);
        if p == c && f == e {
          NeighborPosSymmetric(l, from, d);
        }
      }
  }

  /** A grid of closed cells is well formed and has no open passage. */
  lemma ClosedGridHasNoPassage(l: GridLayout, p: HexaPosition, d: HexaDirection)
    ensures WellFormed(l, Flags.Repeat(ClosedCell, l.width * l.height))
    ensures !IsConnectedIn(l, Flags.Repeat(ClosedCell, l.width * l.height), p, d)
  {
  }

  /** The neighbouring cells `append_neighbors` adds, in the order of `dirs`. */
  function NeighborCells(l: GridLayout, p: HexaPosition, dirs: seq<HexaDirection>): (r: seq<Position2d>)
    ensures |r| <= |dirs|
    ensures !IsHexaCell(l, p) ==> r == []
    ensures forall q :: q in r <==> exists k :: 0 <= k < |dirs| && NeighborPos(l, p, dirs[k]) == Some(FromPosition2d(q))
  {
    if dirs == [] then []
    else
      var rest := NeighborCells(l, p, dirs[1..]);
      assert forall k :: 1 <= k < |dirs| ==> dirs[k] == dirs[1..][k - 1];
      match NeighborPos(l, p, dirs[0])
      case Some(n) => [ToPosition2d(n)] + rest
      case None => rest
  }

  lemma {:induction false} NeighborCellsDistinct(l: GridLayout, p: HexaPosition, dirs: seq<HexaDirection>)
    requires forall i, j | 0 <= i < j < |dirs| :: dirs[i] != dirs[j]
    ensures forall i, j | 0 <= i < j < |NeighborCells(l, p, dirs)| ::
      NeighborCells(l, p, dirs)[i] != NeighborCells(l, p, dirs)[j]
  {
    if dirs != [] {
      var rest := NeighborCells(l, p, dirs[1..]);
      NeighborCellsDistinct(l, p, dirs[1..]);
      match NeighborPos(l, p, dirs[0])
      case Some(n) =>
        forall k | 0 <= k < |dirs[1..]|
          ensures NeighborPos(l, p, dirs[1..][k]) != Some(n)
        {
          assert dirs[1..][k] == dirs[k + 1];
          NeighborsDistinct(p, dirs[0], dirs[1..][k]);
        }
        assert ToPosition2d(n) !in rest;
        assert NeighborCells(l, p, dirs) == [ToPosition2d(n)] + rest;
      case None =>
    }
  }

  /** A cell's neighbour list holds each neighbouring cell once, and a non-cell's is empty. */
  lemma NeighborCellsSpec(l: GridLayout, p: HexaPosition, q: HexaPosition)
    ensures ToPosition2d(q) in NeighborCells(l, p, AllDirs) <==> exists d :: NeighborPos(l, p, d) == Some(q)
    ensures !IsHexaCell(l, p) ==> NeighborCells(l, p, AllDirs) == []
    ensures forall i, j | 0 <= i < j < |NeighborCells(l, p, AllDirs)| ::
      NeighborCells(l, p, AllDirs)[i] != NeighborCells(l, p, AllDirs)[j]
  {
    if exists d :: NeighborPos(l, p, d) == Some(q) {
      var d :| NeighborPos(l, p, d) == Some(q);
      AllDirsComplete(d);
    }
    NeighborCellsDistinct(l, p, AllDirs);
  }

  class HexaGrid {
    const layout: GridLayout
    var cells: seq<HexaCell>

    ghost predicate Valid()
      reads this
    {
      SizedFor(layout, cells) && WellFormed(layout, cells)
    }

    /** `HexaGrid::<NoMask>::new`. */
    constructor (width: nat, height: nat)
      ensures Valid() && layout == Layout(width, height, None)
      ensures cells == Flags.Repeat(ClosedCell, width * height)
    {
      layout := Layout(width, height, None);
      cells := Flags.Repeat(ClosedCell, width * height);
    }

    /** `HexaGrid::<WithMask>::new`. */
    constructor WithMask(mask: Rect.RectMask)
      requires mask.Valid()
      ensures Valid() && layout == Layout(mask.width, mask.height, Some(mask.flags))
      ensures cells == Flags.Repeat(ClosedCell, mask.width * mask.height)
    {
      layout := Layout(mask.width, mask.height, Some(mask.flags));
      cells := Flags.Repeat(ClosedCell, mask.width * mask.height);
    }

    function CellsN(): nat
    {
      Maze.CellsN(layout)
    }

    predicate IsConnectedTo(p: HexaPosition, d: HexaDirection)
      reads this
      requires Valid()
    {
      IsConnectedIn(layout, cells, p, d)
    }

    /** `Grid2d::append_neighbors`. */
    method AppendNeighbors(p: Position2d, neighbors: seq<Position2d>) returns (r: seq<Position2d>)
      ensures Extends(neighbors, r)
      ensures r == neighbors + NeighborCells(layout, FromPosition2d(p), AllDirs)
    {
      r := neighbors + NeighborCells(layout, FromPosition2d(p), AllDirs);
    }

    /** `Grid2d::connect_to`: finds the direction from `from` to `to` and sets its record. */
    method ConnectTo(from: Position2d, to: Position2d) returns (ok: bool)
      requires Valid()
      modifies this
      ensures Valid()
      ensures ok <==> exists d :: NeighborPos(layout, FromPosition2d(from), d) == Some(FromPosition2d(to))
      ensures cells == Connect(layout, old(cells), FromPosition2d(from), FromPosition2d(to))
    {
      var hexFrom, hexTo := FromPosition2d(from), FromPosition2d(to);
      var dir := FindDirection(layout, hexFrom, hexTo);
      if dir.None? {
        return false;
      }
      ConnectPreservesWellFormed(layout, cells, hexFrom, hexTo);
      CanonicalSideSpec(layout, hexFrom, dir.value, hexFrom, dir.value);
      var i: nat;
      match dir.value {
        case North =>
          i := CellIndex(layout, hexFrom);
          cells := cells[i := cells[i].(connectedNorth := true)];
        case NorthEast =>
          i := CellIndex(layout, hexTo);
          cells := cells[i := cells[i].(connectedSouthwest := true)];
        case SouthEast =>
          i := CellIndex(layout, hexTo);
          cells := cells[i := cells[i].(connectedNorthwest := true)];
        case South =>
          i := CellIndex(layout, hexTo);
          cells := cells[i := cells[i].(connectedNorth := true)];
        case SouthWest =>
          i := CellIndex(layout, hexFrom);
          cells := cells[i := cells[i].(connectedSouthwest := true)];
        case NorthWest =>
          i := CellIndex(layout, hexFrom);
          cells := cells[i := cells[i].(connectedNorthwest := true)];
      }
      ok := true;
    }

    /** `LayerGrid::layers_n`: the rows of an unmasked grid. */
    function LayersN(): (r: nat)
      requires layout.mask.None?
      ensures r * layout.width == Maze.CellsN(layout)
      ensures layout.width > 0 ==> forall row: nat :: IsCell(layout, Position2d(row, 0)) <==> row < r
    {
      layout.height
    }

    /** `LayerGrid::cells_n_at`: every row of an unmasked grid has `width` cells. */
    function CellsNAt(layer: nat): (r: nat)
      requires layout.mask.None?
      ensures layer < LayersN() ==> forall col: nat :: IsCell(layout, Position2d(layer, col)) <==> col < r
    {
      layout.width
    }

    method AppendNeighborsUpperLayer(p: Position2d, neighbors: seq<Position2d>) returns (r: seq<Position2d>)
      requires layout.mask.None?
      ensures Extends(neighbors, r)
      ensures match NeighborPos(layout, FromPosition2d(p), North)
              case Some(n) => r == neighbors + [ToPosition2d(n)]
              case None => r == neighbors
    {
      r := neighbors;
      var n := NeighborPos(layout, FromPosition2d(p), North);
      if n.Some? {
        r := r + [ToPosition2d(n.value)];
      }
    }

    method AppendNeighborsLowerLayer(p: Position2d, neighbors: seq<Position2d>) returns (r: seq<Position2d>)
      requires layout.mask.None?
      ensures Extends(neighbors, r)
      ensures match NeighborPos(layout, FromPosition2d(p), South)
              case Some(n) => r == neighbors + [ToPosition2d(n)]
              case None => r == neighbors
    {
      r := neighbors;
      var n := NeighborPos(layout, FromPosition2d(p), South);
      if n.Some? {
        r := r + [ToPosition2d(n.value)];
      }
    }
  }
}
