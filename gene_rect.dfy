/** The rectangular generators: Binary Tree and Sidewinder, run over a `RectGrid`. The random
    choices are supplied as oracle functions of the position at which the source draws them. */
module GeneRect {
  import opened Wrappers
  import opened Maze
  import opened Rect
  import Flags

  datatype DiagonalDirection = Northeast | Southeast | Southwest | Northwest

  /** `DiagonalDirection::hv_dirs`: the horizontal and the vertical half of the diagonal. */
  function HvDirs(d: DiagonalDirection): (r: (RectDirection, RectDirection))
    ensures r.0 == East || r.0 == West
    ensures r.1 == North || r.1 == South
    ensures r.0 == East <==> d == Northeast || d == Southeast
    ensures r.1 == North <==> d == Northeast || d == Northwest
  {
    match d
    case Northeast => (East, North)
    case Southeast => (East, South)
    case Southwest => (West, South)
    case Northwest => (West, North)
  }

  /** Different diagonals have different halves. */
  lemma HvDirsInjective(d: DiagonalDirection, e: DiagonalDirection)
    ensures HvDirs(d) == HvDirs(e) <==> d == e
  {
  }

  // ---------------------------------------------------------------------------------------
  // Successive connect_to calls
  // ---------------------------------------------------------------------------------------

  /** One `connect_to(pos, dir)` call. */
  type Request = (RectPosition, RectDirection)

  /** The cells after the requests are made in order. */
  function ConnectAll(l: GridLayout, cells: seq<RectCell>, log: seq<Request>): (r: seq<RectCell>)
    requires SizedFor(l, cells)
    ensures SizedFor(l, r)
  {
    if log == [] then cells
    else
      var last := log[|log| - 1];
      Connect(l, ConnectAll(l, cells, log[..|log| - 1]), last.0, last.1)
  }

  lemma ConnectAllAppend(l: GridLayout, cells: seq<RectCell>, log: seq<Request>, req: Request)
    requires SizedFor(l, cells)
    ensures ConnectAll(l, cells, log + [req]) == Connect(l, ConnectAll(l, cells, log), req.0, req.1)
  {
    assert (log + [req])[..|log|] == log;
  }

  /** Making two series of requests one after the other is making their concatenation. */
  lemma {:induction false} ConnectAllConcat(l: GridLayout, cells: seq<RectCell>, a: seq<Request>, b: seq<Request>)
    requires SizedFor(l, cells)
    ensures ConnectAll(l, cells, a + b) == ConnectAll(l, ConnectAll(l, cells, a), b)
    decreases |b|
  {
    if b != [] {
      var init := b[..|b| - 1];
      ConnectAllConcat(l, cells, a, init);
      assert (a + b)[..|a + b| - 1] == a + init;
      assert (a + b)[|a + b| - 1] == b[|b| - 1];
    } else {
      assert a + b == a;
    }
  }

  /** After a series of requests a passage is open exactly when it was open before or one of
      the requests names it, from either end. */
  lemma {:induction false} ConnectAllEffect(l: GridLayout, cells: seq<RectCell>, log: seq<Request>,
                                            q: RectPosition, e: RectDirection)
    requires SizedFor(l, cells)
    ensures IsConnectedIn(l, ConnectAll(l, cells, log), q, e) <==>
      IsConnectedIn(l, cells, q, e) || exists k | 0 <= k < |log| :: SamePassage(l, log[k].0, log[k].1, q, e)
  {
    if log != [] {
      var init := log[..|log| - 1];
      var last := log[|log| - 1];
      ConnectAllEffect(l, cells, init, q, e);
      ConnectEffect(l, ConnectAll(l, cells, init), last.0, last.1, q, e);
      if exists k | 0 <= k < |log| :: SamePassage(l, log[k].0, log[k].1, q, e) {
        var k :| 0 <= k < |log| && SamePassage(l, log[k].0, log[k].1, q, e);
        if k < |log| - 1 {
          assert init[k] == log[k];
        }
      }
      if exists k | 0 <= k < |init| :: SamePassage(l, init[k].0, init[k].1, q, e) {
        var k :| 0 <= k < |init| && SamePassage(l, init[k].0, init[k].1, q, e);
        assert log[k] == init[k];
      }
    }
  }

  // ---------------------------------------------------------------------------------------
  // Row-major positions and the corner
  // ---------------------------------------------------------------------------------------

  /** One more row of `w` positions. */
  lemma MulStep(r: nat, w: nat)
    requires r > 0
    ensures (r - 1) * w + w == r * w
  {
  }

  /** A cell at the border in both directions of the diagonal. */
  predicate AtCorner(l: GridLayout, p: RectPosition, horz: RectDirection, vert: RectDirection)
  {
    IsAtBorder(l, p, horz) && IsAtBorder(l, p, vert)
  }

  /** Without a mask, a cell is at a border exactly on the matching outer row or column. */
  lemma MasklessBorder(l: GridLayout, p: RectPosition, d: RectDirection)
    requires l.mask.None? && p.row < l.height && p.col < l.width
    ensures IsAtBorder(l, p, d) <==> match d
      case North => p.row == 0
      case South => p.row == l.height - 1
      case West => p.col == 0
      case East => p.col == l.width - 1
  {
    assert IsRectCell(l, p);
  }

  /** The corner cell the diagonal points at. */
  function Corner(l: GridLayout, horz: RectDirection, vert: RectDirection): RectPosition
    requires l.width > 0 && l.height > 0
  {
    RectPosition(if vert == North then 0 else l.height - 1, if horz == West then 0 else l.width - 1)
  }

  /** Without a mask, the corner the diagonal points at is the only cell at both borders. */
  lemma MasklessCorner(l: GridLayout, p: RectPosition, horz: RectDirection, vert: RectDirection)
    requires l.mask.None? && p.row < l.height && p.col < l.width
    requires (horz == East || horz == West) && (vert == North || vert == South)
    ensures AtCorner(l, p, horz, vert) <==> p == Corner(l, horz, vert)
  {
    MasklessBorder(l, p, horz);
    MasklessBorder(l, p, vert);
  }

  // ---------------------------------------------------------------------------------------
  // Binary Tree
  // ---------------------------------------------------------------------------------------

  /** The direction the Binary Tree generator connects a position in: the vertical one on the
      horizontal border, the horizontal one on the vertical border, none at the corner, and
      elsewhere `connect_dirs[pick % 2]`. */
  function BTreeChoice(l: GridLayout, p: RectPosition, horz: RectDirection, vert: RectDirection, pick: nat): Option<RectDirection>
  {
    if IsAtBorder(l, p, horz) then
      if !IsAtBorder(l, p, vert) then Some(vert) else None
    else if IsAtBorder(l, p, vert) then Some(horz)
    else
      var connectDirs := [horz, vert];
      Some(connectDirs[pick % |connectDirs|])
  }

  /** A Binary Tree cell connects nothing exactly at the corner, and otherwise connects along
      one half of the diagonal, toward a neighbouring cell whenever it is a cell itself. */
  lemma BTreeChoiceSpec(l: GridLayout, p: RectPosition, horz: RectDirection, vert: RectDirection, pick: nat)
    ensures BTreeChoice(l, p, horz, vert, pick).None? <==> AtCorner(l, p, horz, vert)
    ensures BTreeChoice(l, p, horz, vert, pick).Some? ==>
      var d := BTreeChoice(l, p, horz, vert, pick).value;
      && (d == horz || d == vert)
      && (IsAtBorder(l, p, horz) ==> d == vert)
      && (IsAtBorder(l, p, vert) ==> d == horz)
      && (IsRectCell(l, p) ==> NeighborPos(l, p, d).Some?)
  {
  }

  /** Position `p` comes before the `c`-th position of row `r` in row-major order, in rows of
      `width` positions. */
  predicate VisitedBefore(p: RectPosition, r: nat, c: nat, width: nat)
  {
    p.col < width && (p.row < r || (p.row == r && p.col < c))
  }

  /** Strict row-major order of two positions. */
  predicate Before(p: RectPosition, q: RectPosition)
  {
    p.row < q.row || (p.row == q.row && p.col < q.col)
  }

  /** The requests Binary Tree makes for the rows above `r` and the first `c` positions of row
      `r`, in the order it makes them. */
  function BTreePrefix(l: GridLayout, horz: RectDirection, vert: RectDirection, pick: RectPosition -> nat, r: nat, c: nat): seq<Request>
    requires c <= l.width
    decreases r, c
  {
    if c == 0 then
      if r == 0 then [] else BTreePrefix(l, horz, vert, pick, r - 1, l.width)
    else
      var p := RectPosition(r, c - 1);
      BTreePrefix(l, horz, vert, pick, r, c - 1) +
        match BTreeChoice(l, p, horz, vert, pick(p))
        case None => []
        case Some(d) => [(p, d)]
  }

  /** All the requests of Binary Tree on a grid. */
  function BTreeLog(l: GridLayout, horz: RectDirection, vert: RectDirection, pick: RectPosition -> nat): seq<Request>
  {
    BTreePrefix(l, horz, vert, pick, l.height, 0)
  }

  /** Every Binary Tree request comes from a visited position, in the direction chosen for it,
      and the requests are in strict row-major order, so each position makes at most one. */
  lemma {:induction false} BTreePrefixSound(l: GridLayout, horz: RectDirection, vert: RectDirection, pick: RectPosition -> nat, r: nat, c: nat)
    requires c <= l.width
    ensures forall req | req in BTreePrefix(l, horz, vert, pick, r, c) ::
      VisitedBefore(req.0, r, c, l.width) && BTreeChoice(l, req.0, horz, vert, pick(req.0)) == Some(req.1)
    ensures forall i, j | 0 <= i < j < |BTreePrefix(l, horz, vert, pick, r, c)| ::
      Before(BTreePrefix(l, horz, vert, pick, r, c)[i].0, BTreePrefix(l, horz, vert, pick, r, c)[j].0)
    decreases r, c
  {
    if c == 0 {
      if r > 0 {
        BTreePrefixSound(l, horz, vert, pick, r - 1, l.width);
      }
    } else {
      BTreePrefixSound(l, horz, vert, pick, r, c - 1);
      var prev := BTreePrefix(l, horz, vert, pick, r, c - 1);
      var log := BTreePrefix(l, horz, vert, pick, r, c);
      forall i, j | 0 <= i < j < |log|
        ensures Before(log[i].0, log[j].0)
      {
        assert log[i] == prev[i];
        if j < |prev| {
          assert log[j] == prev[j];
        } else {
          assert prev[i] in prev;
        }
      }
    }
  }

  /** Every visited position for which a direction is chosen makes its request. */
  lemma {:induction false} BTreePrefixComplete(l: GridLayout, horz: RectDirection, vert: RectDirection, pick: RectPosition -> nat,
                                               r: nat, c: nat, p: RectPosition)
    requires c <= l.width && VisitedBefore(p, r, c, l.width)
    ensures BTreeChoice(l, p, horz, vert, pick(p)).Some? ==>
      (p, BTreeChoice(l, p, horz, vert, pick(p)).value) in BTreePrefix(l, horz, vert, pick, r, c)
    decreases r, c
  {
    if c == 0 {
      BTreePrefixComplete(l, horz, vert, pick, r - 1, l.width, p);
    } else if p != RectPosition(r, c - 1) {
      BTreePrefixComplete(l, horz, vert, pick, r, c - 1, p);
    }
  }

  /** Without a mask, Binary Tree makes one request for each visited cell except the corner. */
  lemma {:induction false} BTreePrefixLength(l: GridLayout, horz: RectDirection, vert: RectDirection, pick: RectPosition -> nat, r: nat, c: nat)
    requires l.mask.None? && l.width > 0 && l.height > 0 && c <= l.width
    requires r < l.height || (r == l.height && c == 0)
    requires (horz == East || horz == West) && (vert == North || vert == South)
    ensures |BTreePrefix(l, horz, vert, pick, r, c)| + (if VisitedBefore(Corner(l, horz, vert), r, c, l.width) then 1 else 0)
      == r * l.width + c
    decreases r, c
  {
    var corner := Corner(l, horz, vert);
    if c == 0 {
      if r > 0 {
        BTreePrefixLength(l, horz, vert, pick, r - 1, l.width);
        MulStep(r, l.width);
      }
    } else {
      var p := RectPosition(r, c - 1);
      BTreePrefixLength(l, horz, vert, pick, r, c - 1);
      MasklessCorner(l, p, horz, vert);
      BTreeChoiceSpec(l, p, horz, vert, pick(p));
    }
  }

  /** Without a mask, Binary Tree makes exactly `width * height - 1` requests. */
  lemma BTreeLogLength(l: GridLayout, horz: RectDirection, vert: RectDirection, pick: RectPosition -> nat)
    requires l.mask.None? && l.width > 0 && l.height > 0
    requires (horz == East || horz == West) && (vert == North || vert == South)
    ensures |BTreeLog(l, horz, vert, pick)| == l.width * l.height - 1
  {
    BTreePrefixLength(l, horz, vert, pick, l.height, 0);
  }

  /** The maze Binary Tree leaves behind on a closed grid: every passage it opens was chosen by
      a cell, and every cell except the corner is joined in the direction it chose. */
  lemma BTreeMaze(l: GridLayout, horz: RectDirection, vert: RectDirection, pick: RectPosition -> nat, q: RectPosition, e: RectDirection)
    ensures var log := BTreeLog(l, horz, vert, pick);
      var after := ConnectAll(l, Flags.Repeat(ClosedCell, l.width * l.height), log);
      && (IsConnectedIn(l, after, q, e) <==>
          exists k | 0 <= k < |log| :: SamePassage(l, log[k].0, log[k].1, q, e))
      && (IsRectCell(l, q) && !AtCorner(l, q, horz, vert) ==>
          && BTreeChoice(l, q, horz, vert, pick(q)).Some?
          && IsConnectedIn(l, after, q, BTreeChoice(l, q, horz, vert, pick(q)).value))
  {
    BTreePassages(l, horz, vert, pick, q, e);
    if IsRectCell(l, q) && !AtCorner(l, q, horz, vert) {
      BTreeJoinsChoice(l, horz, vert, pick, q);
    }
  }

  /** Replayed on a fresh grid, the Binary Tree log opens exactly the logged passages. */
  lemma BTreePassages(l: GridLayout, horz: RectDirection, vert: RectDirection, pick: RectPosition -> nat, q: RectPosition, e: RectDirection)
    ensures var log := BTreeLog(l, horz, vert, pick);
      var after := ConnectAll(l, Flags.Repeat(ClosedCell, l.width * l.height), log);
      IsConnectedIn(l, after, q, e) <==> exists k | 0 <= k < |log| :: SamePassage(l, log[k].0, log[k].1, q, e)
  {
    var log := BTreeLog(l, horz, vert, pick);
    var closed := Flags.Repeat(ClosedCell, l.width * l.height);
    ConnectAllEffect(l, closed, log, q, e);
    ClosedGridHasNoPassage(l, q, e);
  }

  /** A cell other than the corner is joined in the direction chosen for it. */
  lemma BTreeJoinsChoice(l: GridLayout, horz: RectDirection, vert: RectDirection, pick: RectPosition -> nat, q: RectPosition)
    requires IsRectCell(l, q) && !AtCorner(l, q, horz, vert)
    ensures BTreeChoice(l, q, horz, vert, pick(q)).Some?
    ensures IsConnectedIn(l, ConnectAll(l, Flags.Repeat(ClosedCell, l.width * l.height), BTreeLog(l, horz, vert, pick)),
                          q, BTreeChoice(l, q, horz, vert, pick(q)).value)
  {
    var log := BTreeLog(l, horz, vert, pick);
    var closed := Flags.Repeat(ClosedCell, l.width * l.height);
    BTreeChoiceSpec(l, q, horz, vert, pick(q));
    var d := BTreeChoice(l, q, horz, vert, pick(q)).value;
    BTreePrefixComplete(l, horz, vert, pick, l.height, 0, q);
    assert (q, d) in log;
    var k :| 0 <= k < |log| && log[k] == (q, d);
    ConnectAllEffect(l, closed, log, q, d);
    assert SamePassage(l, log[k].0, log[k].1, q, d);
  }

  /** One more position: its request, if any, is made after the earlier ones. */
  lemma BTreeStep(l: GridLayout, cells: seq<RectCell>, horz: RectDirection, vert: RectDirection, pick: RectPosition -> nat, r: nat, c: nat)
    requires SizedFor(l, cells) && c < l.width
    ensures var p := RectPosition(r, c);
      var before := ConnectAll(l, cells, BTreePrefix(l, horz, vert, pick, r, c));
      ConnectAll(l, cells, BTreePrefix(l, horz, vert, pick, r, c + 1)) ==
        match BTreeChoice(l, p, horz, vert, pick(p))
        case None => before
        case Some(d) => Connect(l, before, p, d)
  {
    var p := RectPosition(r, c);
    var log := BTreePrefix(l, horz, vert, pick, r, c);
    match BTreeChoice(l, p, horz, vert, pick(p))
    case None =>
      assert BTreePrefix(l, horz, vert, pick, r, c + 1) == log;
    case Some(d) =>
      assert BTreePrefix(l, horz, vert, pick, r, c + 1) == log + [(p, d)];
      ConnectAllAppend(l, cells, log, (p, d));
  }

  /** `BTreeMazeGenerator::generate`: visits every position in row-major order and connects it
      in the chosen direction; `pick` stands for `random_range(0..2)` at each position. */
  method BTreeGenerate(grid: RectGrid, conDir: DiagonalDirection, pick: RectPosition -> nat)
    requires grid.Valid()
    modifies grid
    ensures grid.Valid()
    ensures grid.cells == ConnectAll(grid.layout, old(grid.cells), BTreeLog(grid.layout, HvDirs(conDir).0, HvDirs(conDir).1, pick))
  {
    var l := grid.layout;
    var (width, height) := grid.Size();
    var hv := HvDirs(conDir);
    var horzDir, vertDir := hv.0, hv.1;
    ghost var cells0 := grid.cells;
    for rInd := 0 to height
      invariant grid.Valid()
      invariant grid.cells == ConnectAll(l, cells0, BTreePrefix(l, horzDir, vertDir, pick, rInd, 0))
    {
      for cInd := 0 to width
        invariant grid.Valid()
        invariant grid.cells == ConnectAll(l, cells0, BTreePrefix(l, horzDir, vertDir, pick, rInd, cInd))
      {
        var pos := RectPosition(rInd, cInd);
        BTreeStep(l, cells0, horzDir, vertDir, pick, rInd, cInd);
        BTreeVisit(grid, pos, horzDir, vertDir, pick(pos));
      }
    }
  }

  /** The loop body of `BTreeMazeGenerator::generate` at one position: at the horizontal
      border it goes vertically, at the vertical border horizontally, at the corner not at all,
      and elsewhere the way `choice` picks. */
  method BTreeVisit(grid: RectGrid, pos: RectPosition, horzDir: RectDirection, vertDir: RectDirection, choice: nat)
    requires grid.Valid()
    modifies grid
    ensures grid.Valid()
    ensures grid.cells == match BTreeChoice(grid.layout, pos, horzDir, vertDir, choice)
      case None => old(grid.cells)
      case Some(d) => Connect(grid.layout, old(grid.cells), pos, d)
  {
    var atHorzBorder := IsAtBorder(grid.layout, pos, horzDir);
    var atVertBorder := IsAtBorder(grid.layout, pos, vertDir);
    if atHorzBorder {
      if !atVertBorder {
        var _ := grid.ConnectTo(pos, vertDir);
      }
    } else if atVertBorder {
      var _ := grid.ConnectTo(pos, horzDir);
    } else {
      var connectDirs := [horzDir, vertDir];
      var randDir := connectDirs[choice % |connectDirs|];
      var _ := grid.ConnectTo(pos, randDir);
    }
  }

  // ---------------------------------------------------------------------------------------
  // Sidewinder
  // ---------------------------------------------------------------------------------------

  /** The column Sidewinder visits at step `j` of a row. */
  function SwColumn(width: nat, horz: RectDirection, j: nat): (c: nat)
    requires j < width
    ensures c < width
  {
    if horz == West then width - 1 - j else j
  }

  /** A row is scanned left to right toward East and right to left toward West, and every
      column is visited at exactly one step. */
  lemma SwColumnOrder(width: nat, horz: RectDirection, j: nat, k: nat)
    requires j < k < width
    ensures horz == West ==> SwColumn(width, horz, k) < SwColumn(width, horz, j)
    ensures horz != West ==> SwColumn(width, horz, j) < SwColumn(width, horz, k)
  {
  }

  lemma SwColumnVisited(width: nat, horz: RectDirection, c: nat)
    requires c < width
    ensures exists j | 0 <= j < width :: SwColumn(width, horz, j) == c
  {
    var j := if horz == West then width - 1 - c else c;
    assert SwColumn(width, horz, j) == c;
  }

  /** Whether the run of `runStart` may still be closed at column `c`: the run lies between its
      start and `c`, in scanning order. */
  predicate RunReaches(horz: RectDirection, runStart: nat, c: nat)
  {
    if horz == West then c <= runStart else runStart <= c
  }

  /** The `random_range` call that picks the cell closing the run: a column between the run
      start and `c`, drawn as `lo + pick % (hi - lo + 1)`. */
  function RunPick(horz: RectDirection, runStart: nat, c: nat, pick: nat): (out: nat)
    requires RunReaches(horz, runStart, c)
    ensures RunReaches(horz, runStart, out) && RunReaches(horz, out, c)
  {
    if horz == West then c + pick % (runStart - c + 1) else runStart + pick % (c - runStart + 1)
  }

  /** One Sidewinder step at `p` with the current run starting at column `runStart`: the request
      made, if any, and the run start afterwards. `coin` stands for the `random::<bool>()` drawn
      at `p` and `pick` for the value behind the `random_range` over the run. */
  function SwStep(l: GridLayout, p: RectPosition, runStart: nat, horz: RectDirection, vert: RectDirection,
                  coin: bool, pick: nat): (Option<Request>, nat)
    requires RunReaches(horz, runStart, p.col)
  {
    var atHorzBorder := IsAtBorder(l, p, horz);
    var atVertBorder := IsAtBorder(l, p, vert);
    var closeOut := !atVertBorder && (atHorzBorder || coin);
    if closeOut then
      var outInd := RunPick(horz, runStart, p.col, pick);
      (Some((RectPosition(p.row, outInd), vert)), if horz == West then (if p.col == 0 then 0 else p.col - 1) else p.col + 1)
    else if !atHorzBorder then
      (Some((p, horz)), runStart)
    else
      (None, runStart)
  }

  /** A Sidewinder step makes no request exactly at the corner. It closes the run vertically
      never on the vertical border and always on the horizontal one (off the vertical border),
      from a cell of the current run, and then restarts the run just past `p`. Otherwise it
      connects `p` horizontally and keeps the run. */
  lemma SwStepSpec(l: GridLayout, p: RectPosition, runStart: nat, horz: RectDirection, vert: RectDirection, coin: bool, pick: nat)
    requires RunReaches(horz, runStart, p.col)
    requires (horz == East || horz == West) && (vert == North || vert == South)
    ensures var (req, next) := SwStep(l, p, runStart, horz, vert, coin, pick);
      && (req.None? <==> AtCorner(l, p, horz, vert))
      && (req.Some? && req.value.1 == vert ==>
            && !IsAtBorder(l, p, vert)
            && req.value.0.row == p.row
            && RunReaches(horz, runStart, req.value.0.col)
            && RunReaches(horz, req.value.0.col, p.col)
            && next == if horz == West then (if p.col == 0 then 0 else p.col - 1) else p.col + 1)
      && (IsAtBorder(l, p, horz) && !IsAtBorder(l, p, vert) ==> req.Some? && req.value.1 == vert)
      && (req.Some? && req.value.1 == horz ==>
            req.value.0 == p && !IsAtBorder(l, p, horz) && next == runStart)
      && (req.None? ==> next == runStart)
  {
  }

  /** Without a mask, every request of a Sidewinder step names an existing passage. */
  lemma SwStepPassage(l: GridLayout, p: RectPosition, runStart: nat, horz: RectDirection, vert: RectDirection, coin: bool, pick: nat)
    requires RunReaches(horz, runStart, p.col)
    requires (horz == East || horz == West) && (vert == North || vert == South)
    requires l.mask.None? && p.row < l.height && p.col < l.width && runStart < l.width
    ensures var req := SwStep(l, p, runStart, horz, vert, coin, pick).0;
      req.Some? ==> NeighborPos(l, req.value.0, req.value.1).Some?
  {
    var req := SwStep(l, p, runStart, horz, vert, coin, pick).0;
    SwStepSpec(l, p, runStart, horz, vert, coin, pick);
    if req.Some? {
      var q := req.value.0;
      assert q.row == p.row && q.col < l.width;
      assert IsRectCell(l, p) && IsRectCell(l, q);
      MasklessBorder(l, p, req.value.1);
      MasklessBorder(l, q, req.value.1);
    }
  }

  /** A row being scanned: the requests so far and the current run start. */
  datatype SwRun = SwRun(log: seq<Request>, runStart: nat)

  /** The requests Sidewinder makes in the first `j` steps of row `r`, and the run start after
      them. The run always reaches the next column to visit, so every `random_range` call is
      over a non-empty range. */
  function SwRow(l: GridLayout, horz: RectDirection, vert: RectDirection, coin: RectPosition -> bool, pick: RectPosition -> nat,
                 r: nat, j: nat): (s: SwRun)
    requires j <= l.width && (horz == West ==> l.width > 0)
    ensures horz == West ==> s.runStart < l.width
    ensures j < l.width ==> RunReaches(horz, s.runStart, SwColumn(l.width, horz, j))
    decreases j
  {
    if j == 0 then SwRun([], if horz == West then l.width - 1 else 0)
    else
      var s := SwRow(l, horz, vert, coin, pick, r, j - 1);
      var p := RectPosition(r, SwColumn(l.width, horz, j - 1));
      var step := SwStep(l, p, s.runStart, horz, vert, coin(p), pick(p));
      SwRun(s.log + (if step.0.Some? then [step.0.value] else []), step.1)
  }

  /** The requests Sidewinder makes in the rows above `r`. */
  function SwPrefix(l: GridLayout, horz: RectDirection, vert: RectDirection, coin: RectPosition -> bool, pick: RectPosition -> nat,
                    r: nat): seq<Request>
    requires horz == West && r > 0 ==> l.width > 0
  {
    if r == 0 then [] else SwPrefix(l, horz, vert, coin, pick, r - 1) + SwRow(l, horz, vert, coin, pick, r - 1, l.width).log
  }

  /** All the requests of Sidewinder on a grid. */
  function SidewinderLog(l: GridLayout, horz: RectDirection, vert: RectDirection, coin: RectPosition -> bool, pick: RectPosition -> nat): seq<Request>
    requires horz == West && l.height > 0 ==> l.width > 0
  {
    SwPrefix(l, horz, vert, coin, pick, l.height)
  }

  /** Every request made in a row starts from a position of that row, along one half of the
      diagonal; without a mask each names an existing passage. */
  lemma {:induction false} SwRowSound(l: GridLayout, horz: RectDirection, vert: RectDirection, coin: RectPosition -> bool,
                                      pick: RectPosition -> nat, r: nat, j: nat)
    requires j <= l.width && (horz == West ==> l.width > 0)
    requires (horz == East || horz == West) && (vert == North || vert == South)
    ensures forall req | req in SwRow(l, horz, vert, coin, pick, r, j).log ::
      && req.0.row == r && req.0.col < l.width && (req.1 == horz || req.1 == vert)
      && (l.mask.None? && r < l.height ==> NeighborPos(l, req.0, req.1).Some?)
    decreases j
  {
    if j > 0 {
      var s := SwRow(l, horz, vert, coin, pick, r, j - 1);
      var p := RectPosition(r, SwColumn(l.width, horz, j - 1));
      var step := SwStep(l, p, s.runStart, horz, vert, coin(p), pick(p));
      SwRowSound(l, horz, vert, coin, pick, r, j - 1);
      SwStepSound(l, p, s.runStart, horz, vert, coin(p), pick(p));
      assert SwRow(l, horz, vert, coin, pick, r, j).log == s.log + (if step.0.Some? then [step.0.value] else []);
    }
  }

  /** The request of one Sidewinder step stays in the row of `p`, goes in one of the two
      directions, and without a mask faces a neighbour cell. */
  lemma SwStepSound(l: GridLayout, p: RectPosition, runStart: nat, horz: RectDirection, vert: RectDirection, coin: bool, pick: nat)
    requires RunReaches(horz, runStart, p.col) && p.col < l.width && (horz == West ==> runStart < l.width)
    requires (horz == East || horz == West) && (vert == North || vert == South)
    ensures var req := SwStep(l, p, runStart, horz, vert, coin, pick).0;
      req.Some? ==>
        && req.value.0.row == p.row && req.value.0.col < l.width && (req.value.1 == horz || req.value.1 == vert)
        && (l.mask.None? && p.row < l.height ==> NeighborPos(l, req.value.0, req.value.1).Some?)
  {
    SwStepSpec(l, p, runStart, horz, vert, coin, pick);
    if l.mask.None? && p.row < l.height {
      SwStepPassage(l, p, runStart, horz, vert, coin, pick);
    }
  }

  /** Without a mask, each step of a row makes exactly one request, except the step at the
      corner. */
  lemma {:induction false} SwRowLength(l: GridLayout, horz: RectDirection, vert: RectDirection, coin: RectPosition -> bool,
                                       pick: RectPosition -> nat, r: nat, j: nat)
    requires l.mask.None? && l.width > 0 && r < l.height && j <= l.width
    requires (horz == East || horz == West) && (vert == North || vert == South)
    ensures |SwRow(l, horz, vert, coin, pick, r, j).log| + (if r == Corner(l, horz, vert).row && j == l.width then 1 else 0) == j
    decreases j
  {
    if j > 0 {
      var s := SwRow(l, horz, vert, coin, pick, r, j - 1);
      var p := RectPosition(r, SwColumn(l.width, horz, j - 1));
      SwRowLength(l, horz, vert, coin, pick, r, j - 1);
      SwStepSpec(l, p, s.runStart, horz, vert, coin(p), pick(p));
      MasklessCorner(l, p, horz, vert);
    }
  }

  /** Row `r - 1` adds `width` requests to those above it, less one at the corner. */
  lemma SwPrefixRow(l: GridLayout, horz: RectDirection, vert: RectDirection, coin: RectPosition -> bool,
                    pick: RectPosition -> nat, r: nat)
    requires l.mask.None? && l.width > 0 && l.height > 0 && 0 < r <= l.height
    requires (horz == East || horz == West) && (vert == North || vert == South)
    ensures |SwPrefix(l, horz, vert, coin, pick, r)| + (if Corner(l, horz, vert).row == r - 1 then 1 else 0)
            == |SwPrefix(l, horz, vert, coin, pick, r - 1)| + l.width
  {
    SwRowLength(l, horz, vert, coin, pick, r - 1, l.width);
  }

  lemma {:induction false} SwPrefixLength(l: GridLayout, horz: RectDirection, vert: RectDirection, coin: RectPosition -> bool,
                                          pick: RectPosition -> nat, r: nat)
    requires l.mask.None? && l.width > 0 && l.height > 0 && r <= l.height
    requires (horz == East || horz == West) && (vert == North || vert == South)
    ensures |SwPrefix(l, horz, vert, coin, pick, r)| + (if Corner(l, horz, vert).row < r then 1 else 0) == r * l.width
    decreases r
  {
    if r > 0 {
      SwPrefixLength(l, horz, vert, coin, pick, r - 1);
      SwPrefixRow(l, horz, vert, coin, pick, r);
      MulStep(r, l.width);
    }
  }

  /** Row `r - 1` adds only requests that face a neighbour cell. */
  lemma SwPrefixRowSound(l: GridLayout, horz: RectDirection, vert: RectDirection, coin: RectPosition -> bool,
                         pick: RectPosition -> nat, r: nat)
    requires l.mask.None? && l.width > 0 && 0 < r <= l.height
    requires (horz == East || horz == West) && (vert == North || vert == South)
    ensures forall req | req in SwPrefix(l, horz, vert, coin, pick, r) ::
      req in SwPrefix(l, horz, vert, coin, pick, r - 1) || NeighborPos(l, req.0, req.1).Some?
  {
    var prev := SwPrefix(l, horz, vert, coin, pick, r - 1);
    var row := SwRow(l, horz, vert, coin, pick, r - 1, l.width).log;
    assert SwPrefix(l, horz, vert, coin, pick, r) == prev + row;
    SwRowSound(l, horz, vert, coin, pick, r - 1, l.width);
    forall req: Request | req in prev + row
      ensures req in prev || NeighborPos(l, req.0, req.1).Some?
    {
      if req !in prev {
        assert req in row;
      }
    }
  }

  lemma {:induction false} SwPrefixSound(l: GridLayout, horz: RectDirection, vert: RectDirection, coin: RectPosition -> bool,
                                         pick: RectPosition -> nat, r: nat)
    requires l.mask.None? && l.width > 0 && r <= l.height
    requires (horz == East || horz == West) && (vert == North || vert == South)
    ensures forall req | req in SwPrefix(l, horz, vert, coin, pick, r) :: NeighborPos(l, req.0, req.1).Some?
    decreases r
  {
    if r > 0 {
      SwPrefixSound(l, horz, vert, coin, pick, r - 1);
      SwPrefixRowSound(l, horz, vert, coin, pick, r);
    }
  }

  /** Without a mask, Sidewinder makes `width * height - 1` requests, every one of which opens
      an existing passage, and on a closed grid it opens exactly the passages it requests. */
  lemma SidewinderMaze(l: GridLayout, horz: RectDirection, vert: RectDirection, coin: RectPosition -> bool, pick: RectPosition -> nat,
                       q: RectPosition, e: RectDirection)
    requires l.mask.None? && l.width > 0 && l.height > 0
    requires (horz == East || horz == West) && (vert == North || vert == South)
    ensures var log := SidewinderLog(l, horz, vert, coin, pick);
      && |log| == l.width * l.height - 1
      && (forall k | 0 <= k < |log| :: NeighborPos(l, log[k].0, log[k].1).Some?)
      && (IsConnectedIn(l, ConnectAll(l, Flags.Repeat(ClosedCell, l.width * l.height), log), q, e) <==>
          exists k | 0 <= k < |log| :: SamePassage(l, log[k].0, log[k].1, q, e))
  {
    var log := SidewinderLog(l, horz, vert, coin, pick);
    SwPrefixLength(l, horz, vert, coin, pick, l.height);
    SwPrefixSound(l, horz, vert, coin, pick, l.height);
    assert forall k | 0 <= k < |log| :: log[k] in log;
    ConnectAllEffect(l, Flags.Repeat(ClosedCell, l.width * l.height), log, q, e);
    ClosedGridHasNoPassage(l, q, e);
  }

  /** One more step of a row: its request, if any, is made after the earlier ones. */
  lemma SwStepEffect(l: GridLayout, cells: seq<RectCell>, horz: RectDirection, vert: RectDirection, coin: RectPosition -> bool,
                     pick: RectPosition -> nat, r: nat, j: nat)
    requires SizedFor(l, cells) && j < l.width && (horz == West ==> l.width > 0)
    ensures var s := SwRow(l, horz, vert, coin, pick, r, j);
      var p := RectPosition(r, SwColumn(l.width, horz, j));
      var step := SwStep(l, p, s.runStart, horz, vert, coin(p), pick(p));
      var before := ConnectAll(l, cells, s.log);
      && SwRow(l, horz, vert, coin, pick, r, j + 1).runStart == step.1
      && ConnectAll(l, cells, SwRow(l, horz, vert, coin, pick, r, j + 1).log) ==
           match step.0
           case None => before
           case Some(req) => Connect(l, before, req.0, req.1)
  {
    var s := SwRow(l, horz, vert, coin, pick, r, j);
    var p := RectPosition(r, SwColumn(l.width, horz, j));
    var step := SwStep(l, p, s.runStart, horz, vert, coin(p), pick(p));
    match step.0
    case None =>
      assert SwRow(l, horz, vert, coin, pick, r, j + 1).log == s.log;
    case Some(req) =>
      assert SwRow(l, horz, vert, coin, pick, r, j + 1).log == s.log + [req];
      ConnectAllAppend(l, cells, s.log, req);
  }

  /** One position of `SideWinderMazeGenerator::generate` (the body of its inner loop): makes
      the request of `SwStep` and returns the new run start. */
  method SidewinderStep(grid: RectGrid, pos: RectPosition, runStartInd: nat, horzDir: RectDirection, vertDir: RectDirection,
                        coin: bool, pick: nat) returns (next: nat)
    requires grid.Valid() && RunReaches(horzDir, runStartInd, pos.col)
    modifies grid
    ensures grid.Valid()
    ensures var step := SwStep(grid.layout, pos, runStartInd, horzDir, vertDir, coin, pick);
      && next == step.1
      && grid.cells == match step.0
         case None => old(grid.cells)
         case Some(req) => Connect(grid.layout, old(grid.cells), req.0, req.1)
  {
    var l := grid.layout;
    var isHorzReverse := horzDir == West;
    var cInd := pos.col;
    var atHorzBorder := IsAtBorder(l, pos, horzDir);
    var atVertBorder := IsAtBorder(l, pos, vertDir);
    var closeOut := !atVertBorder && (atHorzBorder || coin);
    next := runStartInd;
    if closeOut {
      var outInd := RunPick(horzDir, runStartInd, cInd, pick);
      var _ := grid.ConnectTo(RectPosition(pos.row, outInd), vertDir);
      next := if isHorzReverse then (if cInd == 0 then 0 else cInd - 1) else cInd + 1;
    } else if !atHorzBorder {
      var _ := grid.ConnectTo(pos, horzDir);
    }
  }

  /** One row of `SideWinderMazeGenerator::generate` (the body of its outer loop). */
  method SidewinderRow(grid: RectGrid, rInd: nat, horzDir: RectDirection, vertDir: RectDirection,
                       coin: RectPosition -> bool, pick: RectPosition -> nat)
    requires grid.Valid() && (horzDir == West ==> grid.layout.width > 0)
    modifies grid
    ensures grid.Valid()
    ensures grid.cells == ConnectAll(grid.layout, old(grid.cells), SwRow(grid.layout, horzDir, vertDir, coin, pick, rInd, grid.layout.width).log)
  {
    var l := grid.layout;
    var (width, _) := grid.Size();
    var isHorzReverse := horzDir == West;
    ghost var rowCells := grid.cells;
    var runStartInd: nat := if isHorzReverse then width - 1 else 0;
    for j := 0 to width
      invariant grid.Valid()
      invariant runStartInd == SwRow(l, horzDir, vertDir, coin, pick, rInd, j).runStart
      invariant grid.cells == ConnectAll(l, rowCells, SwRow(l, horzDir, vertDir, coin, pick, rInd, j).log)
    {
      var cInd := if isHorzReverse then width - 1 - j else j;
      var pos := RectPosition(rInd, cInd);
      assert cInd == SwColumn(width, horzDir, j);
      SwStepEffect(l, rowCells, horzDir, vertDir, coin, pick, rInd, j);
      runStartInd := SidewinderStep(grid, pos, runStartInd, horzDir, vertDir, coin(pos), pick(pos));
    }
  }

  /** `SideWinderMazeGenerator::generate`: scans each row toward the horizontal half of the
      diagonal, growing a run, and closes the run by connecting one of its cells vertically.
      `coin` and `pick` stand for the random values drawn at each position. */
  method SidewinderGenerate(grid: RectGrid, conDir: DiagonalDirection, coin: RectPosition -> bool, pick: RectPosition -> nat)
    requires grid.Valid()
    requires HvDirs(conDir).0 == West && grid.layout.height > 0 ==> grid.layout.width > 0
    modifies grid
    ensures grid.Valid()
    ensures grid.cells ==
      ConnectAll(grid.layout, old(grid.cells), SidewinderLog(grid.layout, HvDirs(conDir).0, HvDirs(conDir).1, coin, pick))
  {
    var l := grid.layout;
    var (width, height) := grid.Size();
    var hv := HvDirs(conDir);
    var horzDir, vertDir := hv.0, hv.1;
    ghost var cells0 := grid.cells;
    for rInd := 0 to height
      invariant grid.Valid()
      invariant grid.cells == ConnectAll(l, cells0, SwPrefix(l, horzDir, vertDir, coin, pick, rInd))
    {
      SidewinderRow(grid, rInd, horzDir, vertDir, coin, pick);
      ConnectAllConcat(l, cells0, SwPrefix(l, horzDir, vertDir, coin, pick, rInd), SwRow(l, horzDir, vertDir, coin, pick, rInd, width).log);
    }
  }
}
