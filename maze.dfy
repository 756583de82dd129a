/** The topology-independent layer: the `Position2d` value type, the contract every grid offers
    (`Grid2d`), and the width-by-height cell layout with an optional mask that the rectangular,
    hexagonal and triangular grids share (`GeneralRectGrid`). */
module Maze {
  import opened Wrappers
  import Flags

  /** A grid position. Its two coordinates mean row/column for the rectangular, hexagonal and
      triangular grids and ring/cell for the ring grid. */
  datatype Position2d = Position2d(first: nat, second: nat)

  datatype Ordering = Less | Equal | Greater

  /** The derived `Ord` of the two-field position: lexicographic on (first, second). */
  function Compare(p: Position2d, q: Position2d): (r: Ordering)
    ensures r == Equal <==> p == q
  {
    if p.first < q.first then Less
    else if p.first > q.first then Greater
    else if p.second < q.second then Less
    else if p.second > q.second then Greater
    else Equal
  }

  /** The derived ordering is a strict total order whose equality is component-wise equality. */
  lemma CompareIsTotalOrder(p: Position2d, q: Position2d, s: Position2d)
    ensures Compare(p, q) == Less <==> Compare(q, p) == Greater
    ensures Compare(p, q) == Equal <==> (p.first == q.first && p.second == q.second)
    ensures Compare(p, q) == Less && Compare(q, s) == Less ==> Compare(p, s) == Less
  {
  }

  /** `append_neighbors` only extends the caller's vector: what was in it stays, in place. */
  predicate Extends(before: seq<Position2d>, after: seq<Position2d>)
  {
    |before| <= |after| && after[..|before|] == before
  }

  // ---------------------------------------------------------------------------------------
  // GeneralRectGrid: width x height cells in row-major order plus an optional mask.
  // ---------------------------------------------------------------------------------------

  /** The immutable shape of a `GeneralRectGrid`: its size and, when it was built from a mask,
      the mask's flags in row-major order. */
  datatype Layout = Layout(width: nat, height: nat, mask: Option<seq<bool>>)
  {
    ghost predicate Valid()
    {
      mask.Some? ==> |mask.value| == width * height
    }
  }

  type GridLayout = l: Layout | l.Valid() witness Layout(0, 0, None)

  lemma FlatIndexBound(row: nat, col: nat, width: nat, height: nat)
    requires row < height && col < width
    ensures row * width + col < width * height
  {
    calc {
      row * width + col;
    < row * width + width;
    == (row + 1) * width;
    <= { assert row + 1 <= height; } height * width;
    }
  }

  /** The flat index of a position inside the grid's bounds. */
  function IndexOf(l: GridLayout, p: Position2d): (r: Option<nat>)
    ensures r.Some? <==> p.first < l.height && p.second < l.width
    ensures r.Some? ==> r.value < l.width * l.height
  {
    if p.first < l.height && p.second < l.width then
      FlatIndexBound(p.first, p.second, l.width, l.height);
      Some(p.first * l.width + p.second)
    else None
  }

  /** A position is a cell when it is inside the bounds and, with a mask, its flag is set. */
  predicate IsCell(l: GridLayout, p: Position2d)
  {
    match IndexOf(l, p)
    case None => false
    case Some(i) => l.mask.None? || l.mask.value[i]
  }

  /** The number of active cells: every position without a mask, the set flags with one. */
  function CellsN(l: GridLayout): (n: nat)
    ensures n <= l.width * l.height
  {
    match l.mask
    case None => l.width * l.height
    case Some(flags) => Flags.CountTrue(flags)
  }

  /** The position stored at a flat index. */
  function PositionAt(l: GridLayout, i: nat): (p: Position2d)
    requires i < l.width * l.height
    ensures IndexOf(l, p) == Some(i)
  {
    DivBelowHeight(i, l.width, l.height);
    Position2d(i / l.width, i % l.width)
  }

  /** `cells_n` counts exactly the flat indices whose position is a cell: all of them without a
      mask, the set flags with one. */
  lemma CellsNCountsCells(l: GridLayout)
    ensures CellsN(l) == |set i: nat | i < l.width * l.height && IsCell(l, PositionAt(l, i))|
  {
    var n := l.width * l.height;
    var flags := if l.mask.Some? then l.mask.value else Flags.Repeat(true, n);
    assert (set i: nat | i < n && IsCell(l, PositionAt(l, i))) == Flags.TrueIndices(flags);
    Flags.CountTrueIsCardinality(flags);
    if l.mask.None? {
      Flags.CountTrueRepeat(true, n);
    }
  }

  lemma DivBelowHeight(i: nat, width: nat, height: nat)
    requires i < width * height
    ensures width > 0 && i / width < height && i == (i / width) * width + i % width
  {
  }

  /** The storage index of a cell. */
  function FlatIndex(l: GridLayout, p: Position2d): (i: nat)
    requires IsCell(l, p)
    ensures i < l.width * l.height
  {
    IndexOf(l, p).value
  }

  /** Different cells are stored at different indices. */
  lemma FlatIndexInjective(l: GridLayout, p: Position2d, q: Position2d)
    requires IsCell(l, p) && IsCell(l, q)
    ensures FlatIndex(l, p) == FlatIndex(l, q) <==> p == q
  {
    if FlatIndex(l, p) == FlatIndex(l, q) {
      DivModUnique(FlatIndex(l, p), l.width, p.first, p.second);
      DivModUnique(FlatIndex(l, q), l.width, q.first, q.second);
    }
  }

  lemma DivModUnique(i: nat, w: nat, q: nat, r: nat)
    requires r < w && i == q * w + r
    ensures i / w == q && i % w == r
  {
    var q', r' := i / w, i % w;
    assert q' * w <= i < (q' + 1) * w;
    assert q * w <= i < (q + 1) * w;
    MulCancel(q', q + 1, w);
    MulCancel(q, q' + 1, w);
  }

  lemma MulCancel(a: nat, b: nat, w: nat)
    requires a * w < b * w
    ensures a < b
  {
  }

  /** `PositionAt` inverts `IndexOf` inside the bounds. */
  lemma PositionAtIndexOf(l: GridLayout, p: Position2d)
    requires IndexOf(l, p).Some?
    ensures PositionAt(l, IndexOf(l, p).value) == p
  {
    DivModUnique(IndexOf(l, p).value, l.width, p.first, p.second);
  }
}
