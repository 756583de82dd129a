/** The generators written against the older maze API: Binary Tree and Sidewinder, which run
    exactly as the rectangular ones but on a fresh grid of the requested size, and the
    Aldous-Broder random walk. The older `Maze`, `Direction` and `Position` types are the
    maskless `RectGrid`, `RectDirection` and `RectPosition`. */
module Gene {
  import opened Wrappers
  import opened Maze
  import opened Rect
  import GeneRect
  import Flags

  /** `BTreeMazeGenerator::generate(width, height)`: Binary Tree on a fresh closed grid. */
  method BTreeGenerate(width: nat, height: nat, conDir: GeneRect.DiagonalDirection, pick: RectPosition -> nat)
    returns (maze: RectGrid)
    ensures fresh(maze) && maze.Valid() && maze.layout == Layout(width, height, None)
    ensures var hv := GeneRect.HvDirs(conDir);
      maze.cells == GeneRect.ConnectAll(maze.layout, Flags.Repeat(ClosedCell, width * height),
                                        GeneRect.BTreeLog(maze.layout, hv.0, hv.1, pick))
  {
    maze := new RectGrid(width, height);
    GeneRect.BTreeGenerate(maze, conDir, pick);
  }

  /** `SideWinderMazeGenerator::generate(width, height)`: Sidewinder on a fresh closed grid.
      Toward West the first run starts at `width - 1`, which the source cannot compute for an
      empty row. */
  method SidewinderGenerate(width: nat, height: nat, conDir: GeneRect.DiagonalDirection,
                            coin: RectPosition -> bool, pick: RectPosition -> nat)
    returns (maze: RectGrid)
    requires GeneRect.HvDirs(conDir).0 == West && height > 0 ==> width > 0
    ensures fresh(maze) && maze.Valid() && maze.layout == Layout(width, height, None)
    ensures var hv := GeneRect.HvDirs(conDir);
      maze.cells == GeneRect.ConnectAll(maze.layout, Flags.Repeat(ClosedCell, width * height),
                                        GeneRect.SidewinderLog(maze.layout, hv.0, hv.1, coin, pick))
  {
    maze := new RectGrid(width, height);
    GeneRect.SidewinderGenerate(maze, conDir, coin, pick);
  }

  // ---------------------------------------------------------------------------------------
  // Aldous-Broder
  // ---------------------------------------------------------------------------------------

  /** `mark_ind`: the index of a position's visited mark, row-major. */
  function MarkInd(width: nat, height: nat, p: RectPosition): (i: nat)
    requires p.row < height && p.col < width
    ensures i < width * height
  {
    FlatIndexBound(p.row, p.col, width, height);
    p.row * width + p.col
  }

  /** Different positions have different marks. */
  lemma MarkIndInjective(width: nat, height: nat, p: RectPosition, q: RectPosition)
    requires p.row < height && p.col < width && q.row < height && q.col < width
    ensures MarkInd(width, height, p) == MarkInd(width, height, q) <==> p == q
  {
    if MarkInd(width, height, p) == MarkInd(width, height, q) {
      DivModUnique(MarkInd(width, height, p), width, p.row, p.col);
      DivModUnique(MarkInd(width, height, q), width, q.row, q.col);
    }
  }

  /** Once every mark counts, every mark is set. */
  lemma AllMarked(s: seq<bool>, i: nat)
    requires Flags.CountTrue(s) == |s| && i < |s|
    ensures s[i]
  {
    Flags.CountTrueUpdate(s, i, true);
  }

  /** The visited marks record exactly the start and the entered cells. */
  ghost predicate MarksVisited(marks: seq<bool>, width: nat, height: nat, start: RectPosition, entered: seq<RectPosition>)
    requires |marks| == width * height
  {
    forall p: RectPosition | p.row < height && p.col < width :: marks[MarkInd(width, height, p)] <==> p == start || p in entered
  }

  /** Marking the start cell on fresh marks records it alone. */
  lemma MarksStart(width: nat, height: nat, start: RectPosition)
    requires start.row < height && start.col < width
    ensures var marks := Flags.Repeat(false, width * height)[MarkInd(width, height, start) := true];
      MarksVisited(marks, width, height, start, []) && Flags.CountTrue(marks) == 1
  {
    var marks0 := Flags.Repeat(false, width * height);
    Flags.CountTrueRepeat(false, width * height);
    Flags.CountTrueUpdate(marks0, MarkInd(width, height, start), true);
    forall p: RectPosition | p.row < height && p.col < width
      ensures marks0[MarkInd(width, height, start) := true][MarkInd(width, height, p)] <==> p == start
    {
      MarkIndInjective(width, height, p, start);
    }
  }

  /** Marking an unmarked cell records it as entered and sets one more mark. */
  lemma MarksVisit(marks: seq<bool>, width: nat, height: nat, start: RectPosition, entered: seq<RectPosition>, next: RectPosition)
    requires |marks| == width * height && MarksVisited(marks, width, height, start, entered)
    requires next.row < height && next.col < width && !marks[MarkInd(width, height, next)]
    ensures next != start && next !in entered
    ensures var marks' := marks[MarkInd(width, height, next) := true];
      MarksVisited(marks', width, height, start, entered + [next]) && Flags.CountTrue(marks') == Flags.CountTrue(marks) + 1
  {
    Flags.CountTrueUpdate(marks, MarkInd(width, height, next), true);
    forall p: RectPosition | p.row < height && p.col < width
      ensures marks[MarkInd(width, height, next) := true][MarkInd(width, height, p)] <==> p == start || p in entered + [next]
    {
      MarkIndInjective(width, height, p, next);
    }
  }

  /** Once every mark is set, every cell is the start or was entered. */
  lemma MarksAll(marks: seq<bool>, width: nat, height: nat, start: RectPosition, entered: seq<RectPosition>)
    requires |marks| == width * height && MarksVisited(marks, width, height, start, entered)
    requires Flags.CountTrue(marks) == |marks|
    ensures forall p: RectPosition | p.row < height && p.col < width :: p == start || p in entered
  {
    forall p: RectPosition | p.row < height && p.col < width
      ensures p == start || p in entered
    {
      AllMarked(marks, MarkInd(width, height, p));
    }
  }

  /** The `filter_map` over `Direction::all_dirs()`: each direction with a neighbouring cell,
      paired with that cell, in the order of `dirs`. */
  function Candidates(l: GridLayout, p: RectPosition, dirs: seq<RectDirection>): (r: seq<(RectDirection, RectPosition)>)
    ensures |r| <= |dirs|
    ensures forall i | 0 <= i < |r| :: NeighborPos(l, p, r[i].0) == Some(r[i].1)
  {
    if dirs == [] then []
    else
      var init := Candidates(l, p, dirs[..|dirs| - 1]);
      var d := dirs[|dirs| - 1];
      match NeighborPos(l, p, d)
      case None => init
      case Some(n) => init + [(d, n)]
  }

  /** Every direction of `dirs` with a neighbouring cell makes a candidate. */
  lemma {:induction false} CandidatesComplete(l: GridLayout, p: RectPosition, dirs: seq<RectDirection>, d: RectDirection)
    requires d in dirs && NeighborPos(l, p, d).Some?
    ensures (d, NeighborPos(l, p, d).value) in Candidates(l, p, dirs)
  {
    if dirs[|dirs| - 1] != d {
      assert d in dirs[..|dirs| - 1];
      CandidatesComplete(l, p, dirs[..|dirs| - 1], d);
    }
  }

  /** Without a mask, a grid of two or more cells gives each of its cells a neighbouring cell. */
  lemma HasNeighbor(l: GridLayout, p: RectPosition)
    requires l.mask.None? && p.row < l.height && p.col < l.width && l.width * l.height >= 2
    ensures exists d :: NeighborPos(l, p, d).Some?
  {
    if l.width >= 2 {
      GeneRect.MasklessBorder(l, p, East);
      GeneRect.MasklessBorder(l, p, West);
      assert NeighborPos(l, p, East).Some? || NeighborPos(l, p, West).Some?;
    } else {
      assert l.width == 1;
      assert l.height >= 2;
      GeneRect.MasklessBorder(l, p, North);
      GeneRect.MasklessBorder(l, p, South);
      assert NeighborPos(l, p, North).Some? || NeighborPos(l, p, South).Some?;
    }
  }

  /** Without a mask, a grid of two or more cells gives each of its cells a candidate. */
  lemma CandidatesNonEmpty(l: GridLayout, p: RectPosition)
    requires l.mask.None? && p.row < l.height && p.col < l.width && l.width * l.height >= 2
    ensures |Candidates(l, p, AllDirs)| > 0
  {
    HasNeighbor(l, p);
    var d :| NeighborPos(l, p, d).Some?;
    Rect.AllDirsComplete(d);
    CandidatesComplete(l, p, AllDirs, d);
  }

  /** The record of a walk from `start`: request `k` joins a cell reached earlier (the start
      or one of the first `k` entered cells) to its neighbour `entered[k]`, which is reached
      for the first time. */
  ghost predicate GrowsTree(l: GridLayout, start: RectPosition, log: seq<GeneRect.Request>, entered: seq<RectPosition>)
  {
    && |log| == |entered|
    && (forall k | 0 <= k < |log| :: NeighborPos(l, log[k].0, log[k].1) == Some(entered[k]))
    && (forall k | 0 <= k < |log| :: log[k].0 == start || log[k].0 in entered[..k])
    && start !in entered
    && (forall i, j | 0 <= i < j < |entered| :: entered[i] != entered[j])
  }

  /** A step from a reached cell into a cell not reached yet extends the record. */
  lemma GrowsTreeExtend(l: GridLayout, start: RectPosition, log: seq<GeneRect.Request>, entered: seq<RectPosition>,
                        cur: RectPosition, dir: RectDirection, next: RectPosition)
    requires GrowsTree(l, start, log, entered)
    requires NeighborPos(l, cur, dir) == Some(next)
    requires cur == start || cur in entered
    requires next != start && next !in entered
    ensures GrowsTree(l, start, log + [(cur, dir)], entered + [next])
  {
    var log', entered' := log + [(cur, dir)], entered + [next];
    assert entered'[..|log|] == entered;
    forall k | 0 <= k < |log'|
      ensures log'[k].0 == start || log'[k].0 in entered'[..k]
    {
      if k < |log| {
        assert log'[k] == log[k] && entered'[..k] == entered[..k];
      }
    }
  }

  /** The passages of a walk's record are pairwise different, so a complete walk on a grid of
      `n` cells opens exactly `n - 1` passages. */
  lemma TreePassagesDistinct(l: GridLayout, start: RectPosition, log: seq<GeneRect.Request>, entered: seq<RectPosition>,
                             k: nat, m: nat)
    requires GrowsTree(l, start, log, entered) && k < m < |log|
    ensures !SamePassage(l, log[k].0, log[k].1, log[m].0, log[m].1)
  {
    var (p, d) := log[k];
    var (q, e) := log[m];
    NeighborPosSymmetric(l, p, d);
    assert entered[k] != entered[m];
    assert forall j | 0 <= j < k :: entered[..k][j] != entered[m];
    assert entered[m] !in entered[..k];
    assert entered[m] != p;
  }

  /** Fills `buf` with the candidates of `p` and returns how many there are. */
  method CollectCandidates(l: GridLayout, p: RectPosition, buf: array<(RectDirection, RectPosition)>) returns (n: nat)
    requires buf.Length == |AllDirs|
    modifies buf
    ensures n <= buf.Length && buf[..n] == Candidates(l, p, AllDirs)
  {
    n := 0;
    for k := 0 to |AllDirs|
      invariant n <= k && buf[..n] == Candidates(l, p, AllDirs[..k])
    {
      var dir := AllDirs[k];
      assert AllDirs[..k + 1][..k] == AllDirs[..k];
      match NeighborPos(l, p, dir) {
        case None =>
        case Some(pos) =>
          buf[n] := (dir, pos);
          n := n + 1;
      }
    }
    assert AllDirs[..|AllDirs|] == AllDirs;
  }

  /** `AldousBroderMazeGenerator::generate`: a random walk from `start` that connects each cell
      it enters for the first time to the cell it came from. `picks` holds the indices drawn by
      `random_range(0..candidates_n)`, one per step; the walk stops when every cell is visited
      (`done`) or `picks` runs out. `log` and `entered` record the connections and the newly
      visited cells. */
  method AldousBroderGenerate(width: nat, height: nat, start: RectPosition, picks: seq<nat>)
    returns (maze: RectGrid, done: bool, ghost log: seq<GeneRect.Request>, ghost entered: seq<RectPosition>)
    requires start.row < height && start.col < width
    ensures fresh(maze) && maze.Valid() && maze.layout == Layout(width, height, None)
    ensures maze.cells == GeneRect.ConnectAll(maze.layout, Flags.Repeat(ClosedCell, width * height), log)
    ensures GrowsTree(maze.layout, start, log, entered)
    ensures done ==> |log| == width * height - 1
    ensures !done ==> |log| < width * height - 1
    ensures done ==> forall p: RectPosition | p.row < height && p.col < width :: p == start || p in entered
  {
    maze := new RectGrid(width, height);
    var l := maze.layout;
    ghost var closed := maze.cells;
    var visitedMarks := new bool[width * height](_ => false);
    var candidateNeighbors := new (RectDirection, RectPosition)[4](_ => (North, RectPosition(0, 0)));
    var curPos := start;
    assert visitedMarks[..] == Flags.Repeat(false, width * height);
    MarksStart(width, height, start);
    visitedMarks[MarkInd(width, height, curPos)] := true;
    var unvisitedCellsN := width * height - 1;
    log, entered := [], [];
    var step := 0;
    while unvisitedCellsN > 0 && step < |picks|
      invariant maze.Valid() && l == maze.layout == Layout(width, height, None)
      invariant fresh(maze) && visitedMarks.Length == width * height
      invariant curPos.row < height && curPos.col < width && (curPos == start || curPos in entered)
      invariant MarksVisited(visitedMarks[..], width, height, start, entered)
      invariant GrowsTree(l, start, log, entered)
      invariant maze.cells == GeneRect.ConnectAll(l, closed, log)
      invariant unvisitedCellsN + Flags.CountTrue(visitedMarks[..]) == width * height
      invariant |entered| + 1 == Flags.CountTrue(visitedMarks[..])
      invariant step <= |picks|
      decreases |picks| - step
    {
      CandidatesNonEmpty(l, curPos);
      var candidatesN := CollectCandidates(l, curPos, candidateNeighbors);
      var candidateInd := picks[step] % candidatesN;
      assert candidateNeighbors[candidateInd] == candidateNeighbors[..candidatesN][candidateInd];
      var (candidateDir, candidatePos) := candidateNeighbors[candidateInd];
      assert NeighborPos(l, curPos, candidateDir) == Some(candidatePos);
      var markInd := MarkInd(width, height, candidatePos);
      if !visitedMarks[markInd] {
        var _ := maze.ConnectTo(curPos, candidateDir);
        GeneRect.ConnectAllAppend(l, closed, log, (curPos, candidateDir));
        MarksVisit(visitedMarks[..], width, height, start, entered, candidatePos);
        visitedMarks[markInd] := true;
        unvisitedCellsN := unvisitedCellsN - 1;
        GrowsTreeExtend(l, start, log, entered, curPos, candidateDir, candidatePos);
        log, entered := log + [(curPos, candidateDir)], entered + [candidatePos];
      }
      curPos := candidatePos;
      step := step + 1;
    }
    done := unvisitedCellsN == 0;
    if done {
      MarksAll(visitedMarks[..], width, height, start, entered);
    }
  }
}
