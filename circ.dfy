/** The concentric-ring topology. Ring 0 is the single centre cell; every further ring holds an
    integer multiple of the previous ring's cells. Cells are stored ring after ring, with the
    ring boundaries kept as prefix sums (`ring_end_inds`). A cell stores its inward and its
    clockwise passage; the outward and counterclockwise passages are stored by the neighbour. */
module Circ {
  import opened Wrappers
  import opened Maze
  import Flags

  datatype CircDirection = Inward | Clockwise | Counterclockwise | Outward

  /** `CircDirection::all_dirs`, in the order the source lists them. */
  const AllDirs: seq<CircDirection> := [Inward, Clockwise, Counterclockwise, Outward]

  datatype CircPosition = CircPosition(ring: nat, cell: nat)

  function ToPosition2d(p: CircPosition): Position2d
  {
    Position2d(p.ring, p.cell)
  }

  function FromPosition2d(p: Position2d): (r: CircPosition)
    ensures ToPosition2d(r) == p
  {
    CircPosition(p.first, p.second)
  }

  /** `CircCell`: the inward and the clockwise passage of a cell. */
  datatype CircCell = CircCell(connectInward: bool, connectClockwise: bool)

  const ClosedCell := CircCell(false, false)

  // ---------------------------------------------------------------------------------------
  // make_rings: per-ring cell counts and their prefix sums
  // ---------------------------------------------------------------------------------------

  /** The number of cells of ring `i`: 1 for the centre, then the previous ring's count times
      the ring's multiplier. The multipliers stand for the rounded `2 * PI * i / count` factors
      of the source, which this model takes as given. */
  function RingCount(factors: seq<nat>, i: nat): nat
    requires i < |factors|
  {
    if i == 0 then 1 else RingCount(factors, i - 1) * factors[i]
  }

  /** The prefix sum of the ring counts up to and including ring `i`. */
  function RingEnd(factors: seq<nat>, i: nat): nat
    requires i < |factors|
  {
    if i == 0 then RingCount(factors, 0) else RingEnd(factors, i - 1) + RingCount(factors, i)
  }

  /** The `ring_end_inds` vector `make_rings` produces. */
  function RingEnds(factors: seq<nat>): (ends: seq<nat>)
    ensures |ends| == |factors|
  {
    seq(|factors|, i requires 0 <= i < |factors| => RingEnd(factors, i))
  }

  /** Every multiplier after the centre's is at least one. */
  predicate PositiveFactors(factors: seq<nat>)
  {
    forall i | 1 <= i < |factors| :: factors[i] >= 1
  }

  /** The last prefix entry, which is also the total number of cells (`Grid2d::cells_n`). */
  function TotalCells(ends: seq<nat>): nat
  {
    if ends == [] then 0 else ends[|ends| - 1]
  }

  /** The first loop of `make_rings`: each entry after the centre's becomes the previous
      ring's count times the ring's multiplier. */
  method CountRings(rings: array<nat>, factors: seq<nat>)
    requires rings.Length == |factors| && forall i | 0 <= i < rings.Length :: rings[i] == 1
    modifies rings
    ensures forall i | 0 <= i < rings.Length :: rings[i] == RingCount(factors, i)
  {
    var ringInd := 1;
    while ringInd < rings.Length
      invariant 1 <= ringInd
      invariant forall i | 0 <= i < ringInd && i < rings.Length :: rings[i] == RingCount(factors, i)
      invariant forall i | ringInd <= i < rings.Length :: rings[i] == 1
    {
      var lastRingCellsN := rings[ringInd - 1];
      assert RingCount(factors, ringInd) == lastRingCellsN * factors[ringInd];
      rings[ringInd] := lastRingCellsN * factors[ringInd];
      ringInd := ringInd + 1;
    }
  }

  /** The second loop of `make_rings`: accumulates the counts in place into prefix sums. */
  method AccumulateRings(rings: array<nat>, factors: seq<nat>)
    requires rings.Length == |factors| && forall i | 0 <= i < rings.Length :: rings[i] == RingCount(factors, i)
    modifies rings
    ensures rings[..] == RingEnds(factors)
  {
    var ringInd := 1;
    while ringInd < rings.Length
      invariant 1 <= ringInd
      invariant forall i | 0 <= i < ringInd && i < rings.Length :: rings[i] == RingEnd(factors, i)
      invariant forall i | ringInd <= i < rings.Length :: rings[i] == RingCount(factors, i)
    {
      assert RingEnd(factors, ringInd) == RingEnd(factors, ringInd - 1) + RingCount(factors, ringInd);
      rings[ringInd] := rings[ringInd] + rings[ringInd - 1];
      ringInd := ringInd + 1;
    }
    assert forall i | 0 <= i < rings.Length :: rings[..][i] == RingEnds(factors)[i];
  }

  /** `make_rings`: the ring counts, then their prefix sums; the cell vector has one closed
      cell per position. */
  method MakeRings(ringsN: nat, factors: seq<nat>) returns (ends: seq<nat>, cells: seq<CircCell>)
    requires |factors| == ringsN
    ensures ends == RingEnds(factors)
    ensures cells == Flags.Repeat(ClosedCell, TotalCells(ends))
  {
    var rings := new nat[ringsN](_ => 1);
    CountRings(rings, factors);
    AccumulateRings(rings, factors);
    ends := rings[..];
    var cellsN := if |ends| == 0 then 0 else ends[|ends| - 1];
    cells := Flags.Repeat(ClosedCell, cellsN);
  }

  /** The ring sizes of the source's seven-ring grid: 1, 6, 12, 24, 24, 24 and 48 cells. */
  const SevenRingFactors: seq<nat> := [1, 6, 2, 2, 1, 1, 2]

  /** With those multipliers the prefix entries are exactly [1, 7, 19, 43, 67, 91, 139] and
      there are 139 cells. */
  lemma SevenRingsLayout()
    ensures RingEnds(SevenRingFactors) == [1, 7, 19, 43, 67, 91, 139]
    ensures TotalCells(RingEnds(SevenRingFactors)) == 139
  {
    var f := SevenRingFactors;
    assert RingEnd(f, 0) == 1;
    assert RingEnd(f, 1) == 7;
    assert RingEnd(f, 2) == 19;
    assert RingEnd(f, 3) == 43;
    assert RingEnd(f, 4) == 67;
    assert RingEnd(f, 5) == 91;
    assert RingEnd(f, 6) == 139;
  }

  // ---------------------------------------------------------------------------------------
  // The ring layout and the index maps
  // ---------------------------------------------------------------------------------------

  predicate Ascending(s: seq<nat>)
  {
    forall i, j | 0 <= i < j < |s| :: s[i] < s[j]
  }

  /** The first index of a ring: the previous prefix entry, or 0 for the centre. */
  function RingStart(ends: seq<nat>, ring: nat): nat
    requires ring < |ends|
  {
    if ring == 0 then 0 else ends[ring - 1]
  }

  /** The number of cells of a ring, read back from the prefix sums. */
  function RingSize(ends: seq<nat>, ring: nat): (n: nat)
    requires Ascending(ends) && ring < |ends|
  {
    ends[ring] - RingStart(ends, ring)
  }

  /** A ring layout: ascending prefix sums, one centre cell, and every ring a multiple of the
      one inside it. */
  predicate RingLayout(ends: seq<nat>)
  {
    && Ascending(ends)
    && (|ends| > 0 ==> ends[0] == 1)
    && forall i | 0 <= i < |ends| - 1 :: NestsInNext(ends, i)
  }

  /** Ring `i` has cells, and the next ring's size is a multiple of its size. */
  predicate NestsInNext(ends: seq<nat>, i: nat)
    requires Ascending(ends) && i + 1 < |ends|
  {
    RingSize(ends, i) > 0 && RingSize(ends, i + 1) % RingSize(ends, i) == 0
  }

  lemma {:induction false} RingCountPositive(factors: seq<nat>, i: nat)
    requires PositiveFactors(factors) && i < |factors|
    ensures RingCount(factors, i) >= 1
  {
    if i > 0 {
      RingCountPositive(factors, i - 1);
      MulAtLeast(RingCount(factors, i - 1), factors[i]);
    }
  }

  lemma MulAtLeast(a: nat, b: nat)
    requires a >= 1 && b >= 1
    ensures a * b >= a
  {
  }

  lemma {:induction false} RingEndAscending(factors: seq<nat>, i: nat, j: nat)
    requires PositiveFactors(factors) && i < j < |factors|
    ensures RingEnd(factors, i) < RingEnd(factors, j)
    decreases j
  {
    RingCountPositive(factors, j);
    if i < j - 1 {
      RingEndAscending(factors, i, j - 1);
    }
  }

  /** `make_rings` produces a ring layout whose ring sizes are the ring counts, so `cells.len()`
      is the last prefix entry. */
  lemma MakeRingsLayout(factors: seq<nat>)
    requires PositiveFactors(factors)
    ensures RingLayout(RingEnds(factors))
    ensures forall i | 0 <= i < |factors| :: RingSize(RingEnds(factors), i) == RingCount(factors, i)
  {
    var ends := RingEnds(factors);
    forall i, j | 0 <= i < j < |ends|
      ensures ends[i] < ends[j]
    {
      RingEndAscending(factors, i, j);
    }
    forall i | 0 <= i < |ends| - 1
      ensures NestsInNext(ends, i)
    {
      RingCountPositive(factors, i);
      assert RingSize(ends, i) == RingCount(factors, i);
      assert RingSize(ends, i + 1) == RingCount(factors, i + 1);
      DivModUnique(RingCount(factors, i + 1), RingCount(factors, i), factors[i + 1], 0);
    }
  }

  /** `ring_cells_n`: the size of a ring, and None past the outermost ring. */
  function RingCellsN(ends: seq<nat>, ring: nat): (r: Option<nat>)
    requires Ascending(ends)
    ensures r.Some? <==> ring < |ends|
  {
    if ring < |ends| then Some(RingSize(ends, ring)) else None
  }

  /** Ring sizes are positive, and each ring's size divides the next one's. */
  lemma RingSizes(ends: seq<nat>, ring: nat)
    requires RingLayout(ends) && ring < |ends|
    ensures RingSize(ends, ring) >= 1
    ensures ring + 1 < |ends| ==> RingSize(ends, ring + 1) == (RingSize(ends, ring + 1) / RingSize(ends, ring)) * RingSize(ends, ring)
    ensures ring + 1 < |ends| ==> RingSize(ends, ring + 1) / RingSize(ends, ring) >= 1
  {
    if ring + 1 < |ends| {
      assert NestsInNext(ends, ring);
      var n, m := RingSize(ends, ring), RingSize(ends, ring + 1);
      assert m > 0 by {
        assert ends[ring] < ends[ring + 1];
      }
      var k := m / n;
      assert m == k * n + m % n;
      assert m == k * n;
      assert k != 0 by {
        ZeroTimes(n);
      }
    } else if ring > 0 {
      assert ends[ring - 1] < ends[ring];
    }
  }

  lemma ZeroTimes(n: nat)
    ensures 0 * n == 0
  {
  }

  /** `pos_to_ind`: a position's index is its ring's start plus its cell, when the cell is
      inside the ring. */
  function PosToInd(ends: seq<nat>, p: CircPosition): (r: Option<nat>)
    requires Ascending(ends)
    ensures r.Some? ==> p.ring < |ends| && RingStart(ends, p.ring) <= r.value < ends[p.ring]
    ensures r.Some? ==> r.value < TotalCells(ends)
  {
    if p.ring >= |ends| then None
    else
      var ringStart := RingStart(ends, p.ring);
      if ringStart + p.cell < ends[p.ring] then Some(ringStart + p.cell) else None
  }

  /** `pos_to_ind` answers exactly for rings that exist and cells inside them. */
  lemma PosToIndSpec(ends: seq<nat>, p: CircPosition)
    requires RingLayout(ends)
    ensures PosToInd(ends, p).Some? <==> p.ring < |ends| && p.cell < RingSize(ends, p.ring)
    ensures PosToInd(ends, p).Some? ==> PosToInd(ends, p).value == RingStart(ends, p.ring) + p.cell
    ensures PosToInd(ends, p).Some? ==> PosToInd(ends, p).value < TotalCells(ends)
  {
    if p.ring < |ends| && p.ring < |ends| - 1 {
      assert ends[p.ring] < ends[|ends| - 1];
    }
  }

  /** Rust's `binary_search` on an ascending slice: `Ok` with the index of `x`, or `Err` with
      the position where `x` would be inserted. */
  function BinarySearch(s: seq<nat>, x: nat): (r: Result<nat, nat>)
    requires Ascending(s)
    ensures r.Ok? ==> r.value < |s| && s[r.value] == x
    ensures r.Err? ==> r.error <= |s| && (forall j | 0 <= j < r.error :: s[j] < x) && (forall j | r.error <= j < |s| :: x < s[j])
  {
    SearchBetween(s, x, 0, |s|)
  }

  /** Halves `[lo, hi)` while everything below `lo` is smaller than `x` and everything from
      `hi` on is larger. */
  function SearchBetween(s: seq<nat>, x: nat, lo: nat, hi: nat): (r: Result<nat, nat>)
    requires Ascending(s) && lo <= hi <= |s|
    requires forall j | 0 <= j < lo :: s[j] < x
    requires forall j | hi <= j < |s| :: x < s[j]
    ensures r.Ok? ==> r.value < |s| && s[r.value] == x
    ensures r.Err? ==> r.error <= |s| && (forall j | 0 <= j < r.error :: s[j] < x) && (forall j | r.error <= j < |s| :: x < s[j])
    decreases hi - lo
  {
    if lo == hi then Err(lo)
    else
      var mid := lo + (hi - lo) / 2;
      if s[mid] == x then Ok(mid)
      else if s[mid] < x then SearchBetween(s, x, mid + 1, hi)
      else SearchBetween(s, x, lo, mid)
  }

  /** `ind_to_pos`: an index that is a prefix entry starts the next ring; any other index
      lies in the ring where the search would insert it. */
  function IndToPos(ends: seq<nat>, i: nat): (r: Option<CircPosition>)
    requires Ascending(ends)
    ensures r.Some? <==> i < TotalCells(ends)
  {
    if i >= TotalCells(ends) then None
    else
      Some(match BinarySearch(ends, i)
           case Ok(lastRing) => CircPosition(lastRing + 1, i - ends[lastRing])
           case Err(ring) => CircPosition(ring, i - if ring == 0 then 0 else ends[ring - 1]))
  }

  /** `ind_to_pos` and `pos_to_ind` are inverse: each index below `cells_n` names exactly one
      position and that position names the index. */
  lemma IndexRoundTrip(ends: seq<nat>, p: CircPosition, i: nat)
    requires RingLayout(ends)
    ensures PosToInd(ends, p) == Some(i) <==> IndToPos(ends, i) == Some(p)
  {
    if PosToInd(ends, p) == Some(i) {
      PosToIndThenIndToPos(ends, p, i);
    }
    if IndToPos(ends, i) == Some(p) {
      IndToPosThenPosToInd(ends, p, i);
    }
  }

  lemma PosToIndThenIndToPos(ends: seq<nat>, p: CircPosition, i: nat)
    requires RingLayout(ends) && PosToInd(ends, p) == Some(i)
    ensures IndToPos(ends, i) == Some(p)
  {
    PosToIndSpec(ends, p);
    var r := p.ring;
    assert RingStart(ends, r) <= i < ends[r];
    match BinarySearch(ends, i)
    case Ok(j) =>
      assert j < r;
      assert j == r - 1;
    case Err(k) =>
      assert k <= r;
      assert k == r;
  }

  lemma IndToPosThenPosToInd(ends: seq<nat>, p: CircPosition, i: nat)
    requires RingLayout(ends) && IndToPos(ends, i) == Some(p)
    ensures PosToInd(ends, p) == Some(i)
  {
    PosToIndSpec(ends, p);
    var last := |ends| - 1;
    assert i < ends[last];
    match BinarySearch(ends, i)
    case Ok(j) =>
      assert j < last;
      assert ends[j] < ends[j + 1];
    case Err(k) =>
      assert k <= last;
  }

  /** The positions of all cells, from the indices below `cells_n`. */
  function AllCellsPosSet(ends: seq<nat>): set<Position2d>
    requires Ascending(ends)
  {
    set i: nat | i < TotalCells(ends) :: ToPosition2d(IndToPos(ends, i).value)
  }

  /** `all_cells_pos_set` holds exactly the positions `pos_to_ind` accepts. */
  lemma AllCellsPosSetSpec(ends: seq<nat>, p: CircPosition)
    requires RingLayout(ends)
    ensures ToPosition2d(p) in AllCellsPosSet(ends) <==> PosToInd(ends, p).Some?
  {
    if PosToInd(ends, p).Some? {
      var i := PosToInd(ends, p).value;
      PosToIndSpec(ends, p);
      IndexRoundTrip(ends, p, i);
      assert ToPosition2d(IndToPos(ends, i).value) == ToPosition2d(p);
    }
    if ToPosition2d(p) in AllCellsPosSet(ends) {
      var i: nat :| i < TotalCells(ends) && ToPosition2d(IndToPos(ends, i).value) == ToPosition2d(p);
      assert IndToPos(ends, i).value == p;
      IndexRoundTrip(ends, p, i);
    }
  }

  // ---------------------------------------------------------------------------------------
  // Neighbours
  // ---------------------------------------------------------------------------------------

  /** The inward neighbour's cell: divided by the ratio of the two ring sizes when this ring is
      larger, the same cell when both rings have the same size. */
  function InwardCell(ringCellsN: nat, lastRingCellsN: nat, cell: nat): nat
  {
    if ringCellsN > lastRingCellsN && lastRingCellsN > 0 then cell / (ringCellsN / lastRingCellsN) else cell
  }

  /** The cells of ring `ring` from `start`, `count` of them: what the `CellRange` iterator
      yields. */
  function CellRange(ring: nat, start: nat, count: nat): (r: seq<CircPosition>)
    ensures |r| == count
    ensures forall q :: q in r <==> q.ring == ring && start <= q.cell < start + count
  {
    var r := seq(count, j requires 0 <= j < count => CircPosition(ring, start + j));
    assert forall q: CircPosition | q.ring == ring && start <= q.cell < start + count :: r[q.cell - start] == q;
    r
  }

  /** `neighbor_pos_iter`, with the iterator's items as a sequence. */
  function NeighborPositions(ends: seq<nat>, p: CircPosition, d: CircDirection): (r: seq<CircPosition>)
    requires RingLayout(ends)
    ensures PosToInd(ends, p).None? ==> r == []
    ensures d != Outward ==> |r| <= 1
    ensures d == Inward ==> forall q | q in r :: q.ring + 1 == p.ring
    ensures d == Outward ==> forall q | q in r :: q.ring == p.ring + 1
    ensures d == Clockwise || d == Counterclockwise ==> forall q | q in r :: q.ring == p.ring
  {
    if PosToInd(ends, p).None? then []
    else
      var ringCellsN := RingCellsN(ends, p.ring).value;
      var lastRingCellsN := if p.ring > 0 then RingCellsN(ends, p.ring - 1).value else 0;
      RingSizes(ends, p.ring);
      match d
      case Inward =>
        if p.ring > 0 then [CircPosition(p.ring - 1, InwardCell(ringCellsN, lastRingCellsN, p.cell))] else []
      case Clockwise =>
        if p.ring > 0 then [CircPosition(p.ring, (p.cell + 1) % ringCellsN)] else []
      case Counterclockwise =>
        if p.ring > 0 then [CircPosition(p.ring, (p.cell + ringCellsN - 1) % ringCellsN)] else []
      case Outward =>
        match RingCellsN(ends, p.ring + 1)
        case Some(nextRingCellsN) =>
          var outerSelfRatio := nextRingCellsN / ringCellsN;
          CellRange(p.ring + 1, p.cell * outerSelfRatio, outerSelfRatio)
        case None => []
  }

  /** A position outside the grid has no neighbours; the centre has no inward, clockwise or
      counterclockwise neighbour, and its outward neighbours are the whole of ring 1. */
  lemma CentreAndOutsideNeighbors(ends: seq<nat>, p: CircPosition, d: CircDirection)
    requires RingLayout(ends)
    ensures PosToInd(ends, p).None? ==> NeighborPositions(ends, p, d) == []
    ensures |ends| > 0 && d != Outward ==> NeighborPositions(ends, CircPosition(0, 0), d) == []
    ensures |ends| > 1 ==> NeighborPositions(ends, CircPosition(0, 0), Outward) == CellRange(1, 0, RingSize(ends, 1))
    ensures |ends| == 1 ==> NeighborPositions(ends, CircPosition(0, 0), Outward) == []
  {
    if |ends| > 0 {
      PosToIndSpec(ends, CircPosition(0, 0));
    }
  }

  /** Clockwise steps to the next cell of the ring, wrapping around, counterclockwise to the
      previous one, and each undoes the other. */
  lemma RotationsInverse(ends: seq<nat>, p: CircPosition)
    requires RingLayout(ends) && PosToInd(ends, p).Some? && p.ring > 0
    ensures var n := RingSize(ends, p.ring);
      && NeighborPositions(ends, p, Clockwise) == [CircPosition(p.ring, (p.cell + 1) % n)]
      && NeighborPositions(ends, p, Counterclockwise) == [CircPosition(p.ring, (p.cell + n - 1) % n)]
      && NeighborPositions(ends, NeighborPositions(ends, p, Clockwise)[0], Counterclockwise) == [p]
      && NeighborPositions(ends, NeighborPositions(ends, p, Counterclockwise)[0], Clockwise) == [p]
  {
    var n := RingSize(ends, p.ring);
    PosToIndSpec(ends, p);
    RingSizes(ends, p.ring);
    var cw := CircPosition(p.ring, (p.cell + 1) % n);
    var ccw := CircPosition(p.ring, (p.cell + n - 1) % n);
    RotationValues(n, p.cell);
    PosToIndSpec(ends, cw);
    PosToIndSpec(ends, ccw);
    StepBack(n, p.cell);
    assert NeighborPositions(ends, p, Clockwise) == [cw];
    assert NeighborPositions(ends, p, Counterclockwise) == [ccw];
    assert NeighborPositions(ends, cw, Counterclockwise) == [p];
    assert NeighborPositions(ends, ccw, Clockwise) == [p];
  }

  /** The clockwise and counterclockwise steps inside a ring of `n` cells, without `%`. */
  lemma RotationValues(n: nat, c: nat)
    requires c < n
    ensures (c + 1) % n == if c + 1 < n then c + 1 else 0
    ensures (c + n - 1) % n == if c > 0 then c - 1 else n - 1
  {
    if c + 1 < n {
      DivModUnique(c + 1, n, 0, c + 1);
    } else {
      DivModUnique(c + 1, n, 1, 0);
    }
    if c > 0 {
      DivModUnique(c + n - 1, n, 1, c - 1);
    } else {
      DivModUnique(c + n - 1, n, 0, n - 1);
    }
  }

  lemma StepBack(n: nat, c: nat)
    requires c < n
    ensures ((c + 1) % n + n - 1) % n == c
    ensures ((c + n - 1) % n + 1) % n == c
  {
    RotationValues(n, c);
    RotationValues(n, (c + 1) % n);
    RotationValues(n, (c + n - 1) % n);
  }

  /** `outer_self_ratio`: how many cells of the next ring each cell of `ring` faces. */
  function OuterRatio(ends: seq<nat>, ring: nat): (k: nat)
    requires RingLayout(ends) && ring + 1 < |ends|
    ensures k >= 1 && RingSize(ends, ring + 1) == k * RingSize(ends, ring)
  {
    RingSizes(ends, ring);
    RingSize(ends, ring + 1) / RingSize(ends, ring)
  }

  /** The outward neighbours of a cell are the contiguous range [cell * k, cell * k + k) of the
      next ring, k being the ratio of the two ring sizes; none on the outermost ring. */
  lemma OutwardRange(ends: seq<nat>, p: CircPosition)
    requires RingLayout(ends) && PosToInd(ends, p).Some?
    ensures p.ring + 1 == |ends| ==> NeighborPositions(ends, p, Outward) == []
    ensures p.ring + 1 < |ends| ==>
      var k := OuterRatio(ends, p.ring);
      NeighborPositions(ends, p, Outward) == CellRange(p.ring + 1, p.cell * k, k)
  {
    PosToIndSpec(ends, p);
  }

  /** A cell's inward neighbour is exactly the cell whose outward range contains it. */
  lemma InwardOutwardCorrespond(ends: seq<nat>, p: CircPosition, q: CircPosition)
    requires RingLayout(ends)
    ensures q in NeighborPositions(ends, p, Outward) <==> p in NeighborPositions(ends, q, Inward)
    ensures q in NeighborPositions(ends, p, Outward) ==> PosToInd(ends, q).Some?
  {
    if q in NeighborPositions(ends, p, Outward) {
      PosToIndSpec(ends, p);
      RingSizes(ends, p.ring);
      var n := RingSize(ends, p.ring);
      var m := RingSize(ends, p.ring + 1);
      var k := m / n;
      OutwardArith(n, m, k, p.cell, q.cell);
      PosToIndSpec(ends, q);
      assert NeighborPositions(ends, q, Inward) == [CircPosition(p.ring, InwardCell(m, n, q.cell))];
    }
    if PosToInd(ends, q).Some? && q.ring > 0 && p in NeighborPositions(ends, q, Inward) {
      var r := q.ring - 1;
      PosToIndSpec(ends, q);
      RingSizes(ends, r);
      var n := RingSize(ends, r);
      var m := RingSize(ends, q.ring);
      var k := m / n;
      assert p == CircPosition(r, InwardCell(m, n, q.cell));
      InwardArith(n, m, k, q.cell);
      PosToIndSpec(ends, p);
      assert NeighborPositions(ends, p, Outward) == CellRange(q.ring, p.cell * k, k);
    }
  }

  /** A cell of the outward range of cell `c` lies inside the next ring and maps back to `c`. */
  lemma OutwardArith(n: nat, m: nat, k: nat, c: nat, x: nat)
    requires n >= 1 && k >= 1 && k == m / n && m == k * n
    requires c < n && c * k <= x < c * k + k
    ensures x < m && InwardCell(m, n, x) == c
  {
    MulLe(c + 1, n, k);
    if m > n {
      DivModUnique(x, k, c, x - c * k);
    } else {
      OneFactor(n, m, k);
    }
  }

  /** The inward neighbour `c` of cell `x` of the next ring is a cell whose outward range holds
      `x`. */
  lemma InwardArith(n: nat, m: nat, k: nat, x: nat)
    requires n >= 1 && k >= 1 && k == m / n && m == k * n && x < m
    ensures InwardCell(m, n, x) < n
    ensures InwardCell(m, n, x) * k <= x < InwardCell(m, n, x) * k + k
  {
    var c := InwardCell(m, n, x);
    if m > n {
      DivModUnique(x, k, x / k, x % k);
      assert c == x / k;
      assert c * k <= x < n * k;
      assert (n - c) * k == n * k - c * k;
      assert c < n;
    } else {
      OneFactor(n, m, k);
    }
  }

  /** A ring no larger than the one inside it has the same size: the factor is one. */
  lemma OneFactor(n: nat, m: nat, k: nat)
    requires n >= 1 && k >= 1 && m == k * n && m <= n
    ensures k == 1
  {
    assert (k - 1) * n == m - n;
  }

  lemma MulLe(a: nat, b: nat, k: nat)
    requires a <= b
    ensures a * k <= b * k
  {
  }

  /** Every neighbour `neighbor_pos_iter` yields is a cell. */
  lemma NeighborsAreCells(ends: seq<nat>, p: CircPosition, d: CircDirection, q: CircPosition)
    requires RingLayout(ends)
    requires q in NeighborPositions(ends, p, d)
    ensures PosToInd(ends, q).Some?
  {
    PosToIndSpec(ends, p);
    PosToIndSpec(ends, q);
    match d
    case Outward => InwardOutwardCorrespond(ends, p, q);
    case Inward => InwardOutwardCorrespond(ends, q, p);
    case Clockwise => RingSizes(ends, p.ring);
    case Counterclockwise => RingSizes(ends, p.ring);
  }

  /** The direction back across the same wall. */
  function Opposite(d: CircDirection): CircDirection
  {
    match d
    case Inward => Outward
    case Outward => Inward
    case Clockwise => Counterclockwise
    case Counterclockwise => Clockwise
  }

  /** Being neighbours is symmetric: the opposite direction leads back. */
  lemma NeighborsSymmetric(ends: seq<nat>, p: CircPosition, d: CircDirection, q: CircPosition)
    requires RingLayout(ends)
    requires q in NeighborPositions(ends, p, d)
    ensures p in NeighborPositions(ends, q, Opposite(d))
  {
    match d
    case Outward => InwardOutwardCorrespond(ends, p, q);
    case Inward =>
      NeighborsAreCells(ends, p, d, q);
      InwardOutwardCorrespond(ends, q, p);
    case Clockwise => RotationsInverse(ends, p);
    case Counterclockwise => RotationsInverse(ends, p);
  }

  /** The prefix entries of the seven-ring grid. */
  const SevenRingEnds: seq<nat> := [1, 7, 19, 43, 67, 91, 139]

  lemma SevenRingEndsLayout()
    ensures SevenRingEnds == RingEnds(SevenRingFactors)
    ensures RingLayout(SevenRingEnds)
  {
    SevenRingsLayout();
    MakeRingsLayout(SevenRingFactors);
  }

  /** The ring sizes and `pos_to_ind` answers of the seven-ring grid. */
  lemma SevenRingsPosToInd()
    ensures RingLayout(SevenRingEnds)
    ensures RingCellsN(SevenRingEnds, 0) == Some(1) && RingCellsN(SevenRingEnds, 1) == Some(6)
    ensures RingCellsN(SevenRingEnds, 2) == Some(12) && RingCellsN(SevenRingEnds, 6) == Some(48)
    ensures RingCellsN(SevenRingEnds, 7) == None
    ensures PosToInd(SevenRingEnds, CircPosition(0, 0)) == Some(0)
    ensures PosToInd(SevenRingEnds, CircPosition(0, 1)) == None
    ensures PosToInd(SevenRingEnds, CircPosition(1, 4)) == Some(5)
    ensures PosToInd(SevenRingEnds, CircPosition(2, 4)) == Some(11)
    ensures PosToInd(SevenRingEnds, CircPosition(5, 8)) == Some(75)
    ensures PosToInd(SevenRingEnds, CircPosition(7, 0)) == None
  {
    SevenRingEndsLayout();
  }

  /** The `ind_to_pos` answers of the seven-ring grid. */
  lemma SevenRingsIndToPos()
    ensures RingLayout(SevenRingEnds)
    ensures IndToPos(SevenRingEnds, 0) == Some(CircPosition(0, 0))
    ensures IndToPos(SevenRingEnds, 1) == Some(CircPosition(1, 0))
    ensures IndToPos(SevenRingEnds, 28) == Some(CircPosition(3, 9))
    ensures IndToPos(SevenRingEnds, 138) == Some(CircPosition(6, 47))
    ensures IndToPos(SevenRingEnds, 139) == None
  {
    SevenRingEndsLayout();
    var e := SevenRingEnds;
    IndexRoundTrip(e, CircPosition(0, 0), 0);
    IndexRoundTrip(e, CircPosition(1, 0), 1);
    IndexRoundTrip(e, CircPosition(3, 9), 28);
    IndexRoundTrip(e, CircPosition(6, 47), 138);
  }

  /** The neighbour lists of three positions of the seven-ring grid. */
  lemma SevenRingsNeighbors()
    ensures RingLayout(SevenRingEnds)
    ensures NeighborPositions(SevenRingEnds, CircPosition(2, 11), Inward) == [CircPosition(1, 5)]
    ensures NeighborPositions(SevenRingEnds, CircPosition(2, 11), Clockwise) == [CircPosition(2, 0)]
    ensures NeighborPositions(SevenRingEnds, CircPosition(2, 11), Counterclockwise) == [CircPosition(2, 10)]
    ensures NeighborPositions(SevenRingEnds, CircPosition(2, 11), Outward) == [CircPosition(3, 22), CircPosition(3, 23)]
    ensures NeighborPositions(SevenRingEnds, CircPosition(6, 8), Inward) == [CircPosition(5, 4)]
    ensures NeighborPositions(SevenRingEnds, CircPosition(6, 8), Clockwise) == [CircPosition(6, 9)]
    ensures NeighborPositions(SevenRingEnds, CircPosition(6, 8), Outward) == []
    ensures NeighborPositions(SevenRingEnds, CircPosition(7, 8), Inward) == []
  {
    SevenRingEndsLayout();
    var e := SevenRingEnds;
    assert RingSize(e, 2) == 12 && RingSize(e, 1) == 6 && RingSize(e, 3) == 24;
    assert RingSize(e, 6) == 48 && RingSize(e, 5) == 24;
    assert PosToInd(e, CircPosition(2, 11)) == Some(18);
    assert PosToInd(e, CircPosition(6, 8)) == Some(99);
    assert CellRange(3, 22, 2) == [CircPosition(3, 22), CircPosition(3, 23)];
  }

  // ---------------------------------------------------------------------------------------
  // Connections
  // ---------------------------------------------------------------------------------------

  /** The first direction, in `all_dirs` order, whose neighbours include `to`. */
  function FindDirection(ends: seq<nat>, from: CircPosition, to: CircPosition): (r: Option<CircDirection>)
    requires RingLayout(ends)
    ensures r.Some? ==> to in NeighborPositions(ends, from, r.value)
    ensures r.Some? ==> forall d | d == Inward || (d == Clockwise && r.value != Inward) || (d == Counterclockwise && r.value == Outward) ::
      d == r.value || to !in NeighborPositions(ends, from, d)
    ensures r.None? ==> forall d :: to !in NeighborPositions(ends, from, d)
  {
    if to in NeighborPositions(ends, from, Inward) then Some(Inward)
    else if to in NeighborPositions(ends, from, Clockwise) then Some(Clockwise)
    else if to in NeighborPositions(ends, from, Counterclockwise) then Some(Counterclockwise)
    else if to in NeighborPositions(ends, from, Outward) then Some(Outward)
    else None
  }

  predicate SizedFor(ends: seq<nat>, cells: seq<CircCell>)
  {
    |cells| == TotalCells(ends)
  }

  /** The storage index of a cell. */
  function CellIndex(ends: seq<nat>, p: CircPosition): (i: nat)
    requires RingLayout(ends) && PosToInd(ends, p).Some?
    ensures i < TotalCells(ends)
  {
    PosToIndSpec(ends, p);
    PosToInd(ends, p).value
  }

  /** `Grid2d::connect_to` on the cells of a grid: Inward and Clockwise set the flag of `from`,
      Counterclockwise the clockwise flag of `to`, and Outward the inward flag of `to`. */
  function Connect(ends: seq<nat>, cells: seq<CircCell>, from: CircPosition, to: CircPosition): (r: seq<CircCell>)
    requires RingLayout(ends) && SizedFor(ends, cells)
    ensures SizedFor(ends, r)
  {
    match FindDirection(ends, from, to)
    case None => cells
    case Some(d) =>
      NeighborsAreCells(ends, from, d, to);
      PosToIndSpec(ends, from);
      var f := CellIndex(ends, from);
      var t := CellIndex(ends, to);
      match d
      case Inward => cells[f := cells[f].(connectInward := true)]
      case Clockwise => cells[f := cells[f].(connectClockwise := true)]
      case Counterclockwise => cells[t := cells[t].(connectClockwise := true)]
      case Outward => cells[t := cells[t].(connectInward := true)]
  }

  /** Whether the wall between two cells is open, read from whichever of the two stores it:
      the outer cell's inward flag, or the clockwise flag of the cell whose clockwise neighbour
      is the other. */
  predicate WallOpen(ends: seq<nat>, cells: seq<CircCell>, p: CircPosition, q: CircPosition)
    requires RingLayout(ends) && SizedFor(ends, cells)
  {
    || (p in NeighborPositions(ends, q, Inward) && cells[CellIndex(ends, q)].connectInward)
    || (q in NeighborPositions(ends, p, Inward) && cells[CellIndex(ends, p)].connectInward)
    || (p in NeighborPositions(ends, q, Clockwise) && cells[CellIndex(ends, q)].connectClockwise)
    || (q in NeighborPositions(ends, p, Clockwise) && cells[CellIndex(ends, p)].connectClockwise)
  }

  /** A grid whose rings beyond the centre have at least three cells, as the source's ring
      sizes do; with one or two cells a ring's clockwise and counterclockwise neighbours meet. */
  predicate RoomyRings(ends: seq<nat>)
    requires Ascending(ends)
  {
    forall r | 0 < r < |ends| :: RingSize(ends, r) >= 3
  }

  /** After `connect_to(from, to)` the wall between them is open, the connection fails
      exactly when they are not neighbours, and connecting the other way round writes the same
      flag. */
  lemma ConnectOpensWall(ends: seq<nat>, cells: seq<CircCell>, from: CircPosition, to: CircPosition)
    requires RingLayout(ends) && SizedFor(ends, cells) && RoomyRings(ends)
    ensures FindDirection(ends, from, to).None? <==> FindDirection(ends, to, from).None?
    ensures FindDirection(ends, from, to).None? ==> Connect(ends, cells, from, to) == cells
    ensures FindDirection(ends, from, to).Some? ==>
      var after := Connect(ends, cells, from, to);
      PosToInd(ends, from).Some? && PosToInd(ends, to).Some? && WallOpen(ends, after, from, to) && WallOpen(ends, after, to, from)
    ensures Connect(ends, cells, from, to) == Connect(ends, cells, to, from)
  {
    var fwd := FindDirection(ends, from, to);
    var bwd := FindDirection(ends, to, from);
    if fwd.Some? {
      NeighborsSymmetric(ends, from, fwd.value, to);
      NeighborsAreCells(ends, from, fwd.value, to);
      PosToIndSpec(ends, from);
    }
    if bwd.Some? {
      NeighborsSymmetric(ends, to, bwd.value, from);
    }
    if fwd.Some? {
      ConnectDirections(ends, from, to);
    }
  }

  /** Different cells are stored at different indices. */
  lemma CellIndexInjective(ends: seq<nat>, x: CircPosition, y: CircPosition)
    requires RingLayout(ends) && PosToInd(ends, x).Some? && PosToInd(ends, y).Some?
    ensures CellIndex(ends, x) == CellIndex(ends, y) ==> x == y
  {
    var i := CellIndex(ends, x);
    IndexRoundTrip(ends, x, i);
    IndexRoundTrip(ends, y, i);
  }

  /** Setting the inward flag of cell `c` opens the wall to its inward neighbour and no other. */
  lemma SetInwardEffect(ends: seq<nat>, cells: seq<CircCell>, c: CircPosition, p: CircPosition, q: CircPosition)
    requires RingLayout(ends) && SizedFor(ends, cells) && PosToInd(ends, c).Some?
    ensures var i := CellIndex(ends, c);
      var after := cells[i := cells[i].(connectInward := true)];
      WallOpen(ends, after, p, q) <==>
        || WallOpen(ends, cells, p, q)
        || (p == c && q in NeighborPositions(ends, c, Inward))
        || (q == c && p in NeighborPositions(ends, c, Inward))
  {
    if PosToInd(ends, p).Some? {
      CellIndexInjective(ends, p, c);
    }
    if PosToInd(ends, q).Some? {
      CellIndexInjective(ends, q, c);
    }
  }

  /** Setting the clockwise flag of cell `c` opens the wall to its clockwise neighbour and no
      other. */
  lemma SetClockwiseEffect(ends: seq<nat>, cells: seq<CircCell>, c: CircPosition, p: CircPosition, q: CircPosition)
    requires RingLayout(ends) && SizedFor(ends, cells) && PosToInd(ends, c).Some?
    ensures var i := CellIndex(ends, c);
      var after := cells[i := cells[i].(connectClockwise := true)];
      WallOpen(ends, after, p, q) <==>
        || WallOpen(ends, cells, p, q)
        || (p == c && q in NeighborPositions(ends, c, Clockwise))
        || (q == c && p in NeighborPositions(ends, c, Clockwise))
  {
    if PosToInd(ends, p).Some? {
      CellIndexInjective(ends, p, c);
    }
    if PosToInd(ends, q).Some? {
      CellIndexInjective(ends, q, c);
    }
  }

  /** `connect_to` opens exactly one wall, the one between `from` and `to`: every other pair
      of cells is as open or closed as before. */
  lemma ConnectEffect(ends: seq<nat>, cells: seq<CircCell>, from: CircPosition, to: CircPosition,
                      p: CircPosition, q: CircPosition)
    requires RingLayout(ends) && SizedFor(ends, cells)
    requires FindDirection(ends, from, to).Some?
    ensures WallOpen(ends, Connect(ends, cells, from, to), p, q) <==>
      WallOpen(ends, cells, p, q) || (p == from && q == to) || (p == to && q == from)
  {
    var d := FindDirection(ends, from, to).value;
    NeighborsAreCells(ends, from, d, to);
    PosToIndSpec(ends, from);
    match d
    case Inward =>
      assert NeighborPositions(ends, from, Inward) == [to];
      SetInwardEffect(ends, cells, from, p, q);
    case Clockwise =>
      assert NeighborPositions(ends, from, Clockwise) == [to];
      SetClockwiseEffect(ends, cells, from, p, q);
    case Counterclockwise =>
      NeighborsSymmetric(ends, from, d, to);
      assert NeighborPositions(ends, to, Clockwise) == [from];
      SetClockwiseEffect(ends, cells, to, p, q);
    case Outward =>
      NeighborsSymmetric(ends, from, d, to);
      assert NeighborPositions(ends, to, Inward) == [from];
      SetInwardEffect(ends, cells, to, p, q);
  }

  /** The directions found each way across one wall are opposite, and the centre ring aside,
      the other end never also lies clockwise or counterclockwise of the first. */
  lemma ConnectDirections(ends: seq<nat>, from: CircPosition, to: CircPosition)
    requires RingLayout(ends) && RoomyRings(ends)
    requires FindDirection(ends, from, to).Some?
    ensures FindDirection(ends, to, from) == Some(Opposite(FindDirection(ends, from, to).value))
  {
    var d := FindDirection(ends, from, to).value;
    NeighborsSymmetric(ends, from, d, to);
    NeighborsAreCells(ends, from, d, to);
    PosToIndSpec(ends, from);
    PosToIndSpec(ends, to);
    match d
    case Inward =>
      assert to.ring + 1 == from.ring;
    case Outward =>
      assert to.ring == from.ring + 1;
    case Clockwise =>
      RotationsInverse(ends, from);
      RotationsInverse(ends, to);
      var n := RingSize(ends, from.ring);
      assert to.cell == (from.cell + 1) % n;
      CycleDistinct(n, from.cell);
    case Counterclockwise =>
      RotationsInverse(ends, from);
      RotationsInverse(ends, to);
      var n := RingSize(ends, from.ring);
      assert to.cell == (from.cell + n - 1) % n;
      CycleDistinct(n, from.cell);
  }

  lemma CycleDistinct(n: nat, c: nat)
    requires n >= 3 && c < n
    ensures (c + 1) % n != (c + n - 1) % n
    ensures (c + 1) % n != c && (c + n - 1) % n != c
    ensures ((c + 1) % n + 1) % n != c
    ensures ((c + n - 1) % n + n - 1) % n != c
  {
    RotationValues(n, c);
    RotationValues(n, (c + 1) % n);
    RotationValues(n, (c + n - 1) % n);
  }

  /** The neighbours `append_neighbors` adds: every direction in `all_dirs` order. */
  function AllNeighbors(ends: seq<nat>, p: CircPosition): (r: seq<Position2d>)
    requires RingLayout(ends)
  {
    var ns := NeighborPositions(ends, p, Inward) + NeighborPositions(ends, p, Clockwise)
      + NeighborPositions(ends, p, Counterclockwise) + NeighborPositions(ends, p, Outward);
    seq(|ns|, j requires 0 <= j < |ns| => ToPosition2d(ns[j]))
  }

  /** The neighbour list holds exactly the neighbours in some direction, all of them cells. */
  lemma AllNeighborsSpec(ends: seq<nat>, p: CircPosition, q: CircPosition)
    requires RingLayout(ends)
    ensures ToPosition2d(q) in AllNeighbors(ends, p) <==> exists d :: q in NeighborPositions(ends, p, d)
    ensures ToPosition2d(q) in AllNeighbors(ends, p) ==> PosToInd(ends, q).Some?
  {
    var ns := NeighborPositions(ends, p, Inward) + NeighborPositions(ends, p, Clockwise)
      + NeighborPositions(ends, p, Counterclockwise) + NeighborPositions(ends, p, Outward);
    if ToPosition2d(q) in AllNeighbors(ends, p) {
      var j :| 0 <= j < |ns| && AllNeighbors(ends, p)[j] == ToPosition2d(q);
      assert ns[j] == q;
      assert q in ns;
    }
    if exists d :: q in NeighborPositions(ends, p, d) {
      var d :| q in NeighborPositions(ends, p, d);
      NeighborsAreCells(ends, p, d, q);
      assert q in ns;
      var j :| 0 <= j < |ns| && ns[j] == q;
      assert AllNeighbors(ends, p)[j] == ToPosition2d(q);
    }
  }

  class CircGrid {
    const ringsN: nat
    const ringEndInds: seq<nat>
    var cells: seq<CircCell>

    ghost predicate Valid()
      reads this
    {
      ringsN == |ringEndInds| && RingLayout(ringEndInds) && SizedFor(ringEndInds, cells)
    }

    /** `CircGrid::new`, with the ring multipliers given. */
    constructor (ringsN: nat, factors: seq<nat>)
      requires |factors| == ringsN && PositiveFactors(factors)
      ensures Valid()
      ensures this.ringsN == ringsN && ringEndInds == RingEnds(factors)
      ensures cells == Flags.Repeat(ClosedCell, TotalCells(ringEndInds))
    {
      var ends, closed := MakeRings(ringsN, factors);
      MakeRingsLayout(factors);
      this.ringsN := ringsN;
      ringEndInds := ends;
      cells := closed;
    }

    /** `Grid2d::cells_n`: the last prefix entry, 0 without rings. It bounds exactly the indices
        `ind_to_pos` accepts, and every index `pos_to_ind` gives lies below it. */
    function CellsN(): (r: nat)
      reads this
      requires Valid()
      ensures forall i: nat :: IndToPos(ringEndInds, i).Some? <==> i < r
      ensures forall p :: PosToInd(ringEndInds, p).Some? ==> PosToInd(ringEndInds, p).value < r
      ensures r == 0 <==> ringsN == 0
    {
      TotalCells(ringEndInds)
    }

    /** `Grid2d::append_neighbors`. */
    method AppendNeighbors(p: Position2d, neighbors: seq<Position2d>) returns (r: seq<Position2d>)
      requires Valid()
      ensures Extends(neighbors, r)
      ensures r == neighbors + AllNeighbors(ringEndInds, FromPosition2d(p))
    {
      r := neighbors + AllNeighbors(ringEndInds, FromPosition2d(p));
    }

    /** `Grid2d::connect_to`. */
    method ConnectTo(from: Position2d, to: Position2d) returns (ok: bool)
      requires Valid()
      modifies this
      ensures Valid()
      ensures ok <==> exists d :: FromPosition2d(to) in NeighborPositions(ringEndInds, FromPosition2d(from), d)
      ensures cells == Connect(ringEndInds, old(cells), FromPosition2d(from), FromPosition2d(to))
    {
      var circFrom, circTo := FromPosition2d(from), FromPosition2d(to);
      var dir := FindDirection(ringEndInds, circFrom, circTo);
      if dir.None? {
        return false;
      }
      NeighborsAreCells(ringEndInds, circFrom, dir.value, circTo);
      PosToIndSpec(ringEndInds, circFrom);
      var f := CellIndex(ringEndInds, circFrom);
      var t := CellIndex(ringEndInds, circTo);
      match dir.value {
        case Inward => cells := cells[f := cells[f].(connectInward := true)];
        case Clockwise => cells := cells[f := cells[f].(connectClockwise := true)];
        case Counterclockwise => cells := cells[t := cells[t].(connectClockwise := true)];
        case Outward => cells := cells[t := cells[t].(connectInward := true)];
      }
      ok := true;
    }

    /** `CircMaze::rings_n`. */
    function RingsN(): (r: nat)
      reads this
      requires Valid()
      ensures forall ring: nat :: RingCellsN(ringEndInds, ring).Some? <==> ring < r
    {
      ringsN
    }

    /** `CircMaze::ring_cells_n`. */
    function RingCellsNOf(ring: nat): (r: Option<nat>)
      reads this
      requires Valid()
      ensures r.Some? <==> ring < RingsN()
      ensures r.Some? ==> r.value >= 1 && RingStart(ringEndInds, ring) + r.value == ringEndInds[ring]
    {
      RingCellsN(ringEndInds, ring)
    }

    /** `CircMaze::is_connect_inward`: false for a position that is not a cell. */
    predicate IsConnectInward(p: CircPosition)
      reads this
      requires Valid()
      ensures IsConnectInward(p) ==> PosToInd(ringEndInds, p).Some?
      ensures IsConnectInward(p) ==>
        forall q | q in NeighborPositions(ringEndInds, p, Inward) :: WallOpen(ringEndInds, cells, p, q)
    {
      PosToInd(ringEndInds, p).Some? && cells[CellIndex(ringEndInds, p)].connectInward
    }

    /** `CircMaze::is_connect_clockwise`: false for a position that is not a cell. */
    predicate IsConnectClockwise(p: CircPosition)
      reads this
      requires Valid()
      ensures IsConnectClockwise(p) ==> PosToInd(ringEndInds, p).Some?
      ensures IsConnectClockwise(p) ==>
        forall q | q in NeighborPositions(ringEndInds, p, Clockwise) :: WallOpen(ringEndInds, cells, p, q)
    {
      PosToInd(ringEndInds, p).Some? && cells[CellIndex(ringEndInds, p)].connectClockwise
    }
  }
}
