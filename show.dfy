/** The plain ASCII text rendering of the older maze type (`AsciiMazeDisplay`): per row, a
    ceiling line of `+` corners with `---` where the north passage is closed, and a body line
    starting with `|` with `|` where the east passage is closed, then a bottom border. The
    older maze is the maskless `RectGrid`; the output is modelled as its lines. */
module Show {
  import opened Maze
  import opened Rect
  import opened Strings
  import Flags

  const HorzWall: string := "---"
  const VertWall: string := "|"
  const HorzEmpty: string := "   "
  const VertEmpty: string := " "
  const Corner: string := "+"

  /** The part of the ceiling line above cell (r, c): its north wall or gap, then a corner. */
  function CeilPiece(l: GridLayout, cells: seq<RectCell>, r: nat, c: nat): string
    requires SizedFor(l, cells)
  {
    (if IsConnectedIn(l, cells, RectPosition(r, c), North) then HorzEmpty else HorzWall) + Corner
  }

  function CeilPieces(l: GridLayout, cells: seq<RectCell>, r: nat): seq<string>
    requires SizedFor(l, cells)
  {
    seq(l.width, c requires 0 <= c < l.width => CeilPiece(l, cells, r, c))
  }

  function CeilLine(l: GridLayout, cells: seq<RectCell>, r: nat): string
    requires SizedFor(l, cells)
  {
    Corner + Concat(CeilPieces(l, cells, r))
  }

  /** The part of the body line for cell (r, c): its inside, then its east wall or gap. */
  function BodyPiece(l: GridLayout, cells: seq<RectCell>, r: nat, c: nat): string
    requires SizedFor(l, cells)
  {
    HorzEmpty + (if IsConnectedIn(l, cells, RectPosition(r, c), East) then VertEmpty else VertWall)
  }

  function BodyPieces(l: GridLayout, cells: seq<RectCell>, r: nat): seq<string>
    requires SizedFor(l, cells)
  {
    seq(l.width, c requires 0 <= c < l.width => BodyPiece(l, cells, r, c))
  }

  function BodyLine(l: GridLayout, cells: seq<RectCell>, r: nat): string
    requires SizedFor(l, cells)
  {
    VertWall + Concat(BodyPieces(l, cells, r))
  }

  function BottomLine(width: nat): string
  {
    Concat(Flags.Repeat(Corner + HorzWall, width)) + Corner
  }

  /** The ceiling and body lines of the first `r` rows. */
  function RowLines(l: GridLayout, cells: seq<RectCell>, r: nat): seq<string>
    requires SizedFor(l, cells)
  {
    if r == 0 then [] else RowLines(l, cells, r - 1) + [CeilLine(l, cells, r - 1), BodyLine(l, cells, r - 1)]
  }

  /** Everything `fmt` writes, line by line. */
  function Render(l: GridLayout, cells: seq<RectCell>): seq<string>
    requires SizedFor(l, cells)
  {
    RowLines(l, cells, l.height) + [BottomLine(l.width)]
  }

  // ---------------------------------------------------------------------------------------
  // What the text shows
  // ---------------------------------------------------------------------------------------

  lemma {:induction false} RowLinesShape(l: GridLayout, cells: seq<RectCell>, r: nat)
    requires SizedFor(l, cells)
    ensures |RowLines(l, cells, r)| == 2 * r
    ensures forall i | 0 <= i < r ::
      RowLines(l, cells, r)[2 * i] == CeilLine(l, cells, i) && RowLines(l, cells, r)[2 * i + 1] == BodyLine(l, cells, i)
    decreases r
  {
    if r > 0 {
      var prev := RowLines(l, cells, r - 1);
      RowLinesShape(l, cells, r - 1);
      assert RowLines(l, cells, r) == prev + [CeilLine(l, cells, r - 1), BodyLine(l, cells, r - 1)];
      forall i | 0 <= i < r
        ensures RowLines(l, cells, r)[2 * i] == CeilLine(l, cells, i)
        ensures RowLines(l, cells, r)[2 * i + 1] == BodyLine(l, cells, i)
      {
        if i < r - 1 {
          assert 2 * i + 1 < |prev|;
        } else {
          assert 2 * i == |prev|;
        }
      }
    }
  }

  /** A ceiling line and a body line per row, in row order, then the bottom border:
      `2 * height + 1` lines. */
  lemma RenderShape(l: GridLayout, cells: seq<RectCell>)
    requires SizedFor(l, cells)
    ensures var lines := Render(l, cells);
      && |lines| == 2 * l.height + 1
      && (forall r | 0 <= r < l.height :: lines[2 * r] == CeilLine(l, cells, r) && lines[2 * r + 1] == BodyLine(l, cells, r))
      && lines[2 * l.height] == BottomLine(l.width)
  {
    RowLinesShape(l, cells, l.height);
  }

  /** A ceiling line has `4 * width + 1` characters and starts with `+`; above each cell it
      shows three blanks exactly when the cell is open to the north and `---` otherwise, and
      then a `+`. */
  lemma CeilLineText(l: GridLayout, cells: seq<RectCell>, r: nat, c: nat)
    requires SizedFor(l, cells) && c < l.width
    ensures var line := CeilLine(l, cells, r);
      && |line| == 4 * l.width + 1
      && line[0] == '+'
      && 4 * c + 4 < |line|
      && line[4 * c + 1 .. 4 * c + 4] == (if IsConnectedIn(l, cells, RectPosition(r, c), North) then "   " else "---")
      && line[4 * c + 4] == '+'
  {
    var pieces := CeilPieces(l, cells, r);
    var north := IsConnectedIn(l, cells, RectPosition(r, c), North);
    assert forall i | 0 <= i < |pieces| :: |pieces[i]| == 4;
    PieceAfter(Corner, pieces, 4, c, if north then HorzEmpty else HorzWall, Corner);
  }

  /** A body line has `4 * width + 1` characters and starts with `|`; each cell shows three
      blanks and then a blank exactly when it is open to the east, and `|` otherwise. */
  lemma BodyLineText(l: GridLayout, cells: seq<RectCell>, r: nat, c: nat)
    requires SizedFor(l, cells) && c < l.width
    ensures var line := BodyLine(l, cells, r);
      && |line| == 4 * l.width + 1
      && line[0] == '|'
      && 4 * c + 4 < |line|
      && line[4 * c + 1 .. 4 * c + 4] == "   "
      && line[4 * c + 4] == (if IsConnectedIn(l, cells, RectPosition(r, c), East) then ' ' else '|')
  {
    var pieces := BodyPieces(l, cells, r);
    var east := IsConnectedIn(l, cells, RectPosition(r, c), East);
    assert forall i | 0 <= i < |pieces| :: |pieces[i]| == 4;
    PieceAfter(VertWall, pieces, 4, c, HorzEmpty, if east then VertEmpty else VertWall);
  }

  /** The bottom border is `+---` once per column and a closing `+`: a `+` at every multiple of
      four and `-` everywhere else. */
  lemma {:induction false} BottomLinePattern(width: nat)
    ensures |BottomLine(width)| == 4 * width + 1
    ensures forall i | 0 <= i < |BottomLine(width)| :: BottomLine(width)[i] == if i % 4 == 0 then '+' else '-'
    decreases width
  {
    var pieces := Flags.Repeat(Corner + HorzWall, width);
    if width > 0 {
      BottomLinePattern(width - 1);
      var prev := Concat(pieces[..width - 1]);
      assert pieces[..width - 1] == Flags.Repeat(Corner + HorzWall, width - 1);
      assert BottomLine(width - 1) == prev + Corner;
      ConcatAppend(pieces, width - 1);
      assert BottomLine(width) == prev + "+---" + "+";
      forall i | 0 <= i < |BottomLine(width)|
        ensures BottomLine(width)[i] == if i % 4 == 0 then '+' else '-'
      {
        if i < |prev| {
          assert BottomLine(width)[i] == BottomLine(width - 1)[i];
        }
      }
    }
  }

  /** Each passage shows on the line below the cell it leaves to the south: the ceiling segment
      of (r + 1, c) is blank exactly when (r, c) is open to the south. */
  lemma CeilShowsSouthPassage(l: GridLayout, cells: seq<RectCell>, r: nat, c: nat)
    requires SizedFor(l, cells) && l.mask.None? && c < l.width && r + 1 < l.height
    ensures var line := CeilLine(l, cells, r + 1);
      && 4 * c + 4 < |line|
      && (line[4 * c + 1 .. 4 * c + 4] == "   " <==> IsConnectedIn(l, cells, RectPosition(r, c), South))
  {
    CeilLineText(l, cells, r + 1, c);
    IsConnectedSymmetric(l, cells, RectPosition(r, c), South);
  }

  // ---------------------------------------------------------------------------------------
  // AsciiMazeDisplay::fmt
  // ---------------------------------------------------------------------------------------

  /** One row of `AsciiMazeDisplay::fmt`: the ceiling and body lines of row `rInd`. */
  method FmtRow(maze: RectGrid, rInd: nat) returns (ceilLine: string, bodyLine: string)
    requires maze.Valid()
    ensures ceilLine == CeilLine(maze.layout, maze.cells, rInd)
    ensures bodyLine == BodyLine(maze.layout, maze.cells, rInd)
  {
    ghost var ceilPieces, bodyPieces := CeilPieces(maze.layout, maze.cells, rInd), BodyPieces(maze.layout, maze.cells, rInd);
    var (width, _) := maze.Size();
    ceilLine, bodyLine := Corner, VertWall;
    for cInd := 0 to width
      invariant ceilLine == Corner + Concat(ceilPieces[..cInd])
      invariant bodyLine == VertWall + Concat(bodyPieces[..cInd])
    {
      var segment := if maze.IsConnectedTo(RectPosition(rInd, cInd), North) then HorzEmpty else HorzWall;
      var separator := if maze.IsConnectedTo(RectPosition(rInd, cInd), East) then VertEmpty else VertWall;
      ConcatStepAfter(Corner, ceilPieces, cInd, ceilLine, segment, Corner);
      ConcatStepAfter(VertWall, bodyPieces, cInd, bodyLine, HorzEmpty, separator);
      ceilLine := ceilLine + segment;
      ceilLine := ceilLine + Corner;
      bodyLine := bodyLine + HorzEmpty;
      bodyLine := bodyLine + separator;
    }
    assert ceilPieces[..width] == ceilPieces && bodyPieces[..width] == bodyPieces;
  }

  /** `AsciiMazeDisplay::fmt`: the rows in order, then the bottom border. */
  method Fmt(maze: RectGrid) returns (lines: seq<string>)
    requires maze.Valid()
    ensures lines == Render(maze.layout, maze.cells)
  {
    var (width, height) := maze.Size();
    lines := [];
    for rInd := 0 to height
      invariant lines == RowLines(maze.layout, maze.cells, rInd)
    {
      var ceilLine, bodyLine := FmtRow(maze, rInd);
      lines := lines + [ceilLine, bodyLine];
    }
    // The bottom border.
    var ceilLine := "";
    ghost var pieces := Flags.Repeat(Corner + HorzWall, width);
    for i := 0 to width
      invariant ceilLine == Concat(pieces[..i])
    {
      ConcatStep(pieces, i, ceilLine, Corner, HorzWall);
      ceilLine := ceilLine + Corner;
      ceilLine := ceilLine + HorzWall;
    }
    assert pieces[..width] == pieces;
    ceilLine := ceilLine + Corner;
    lines := lines + [ceilLine];
  }
}
