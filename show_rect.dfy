/** The box-drawing text rendering of a rectangular maze (`RectMazeCmdDisplay`). Each row gives a
    ceiling line of corners and north walls and a body line of west walls, and a final line
    draws the south border. The output is modelled as its lines; `fmt` ends every line but the
    last with a newline. */
module ShowRect {
  import opened Wrappers
  import opened Maze
  import opened Rect
  import opened Strings

  // ---------------------------------------------------------------------------------------
  // Charsets
  // ---------------------------------------------------------------------------------------

  /** `AsciiBoxCharset` and `UnicodeBoxCharset`. */
  datatype Charset = Ascii | Unicode

  function HorzWall(cs: Charset): string
  {
    match cs
    case Ascii => "---"
    case Unicode => "\U{2501}"
  }

  function HorzEmpty(cs: Charset): string
  {
    match cs
    case Ascii => "   "
    case Unicode => " "
  }

  function VertWall(cs: Charset): string
  {
    match cs
    case Ascii => "|"
    case Unicode => "\U{2503}"
  }

  function VertEmpty(cs: Charset): string
  {
    " "
  }

  /** The characters a cell takes on a line: one corner or wall, then one segment. */
  function Span(cs: Charset): nat
  {
    1 + |HorzEmpty(cs)|
  }

  /** Walls and gaps of the same kind have the same width and differ. */
  lemma CharsetShapes(cs: Charset)
    ensures |HorzWall(cs)| == |HorzEmpty(cs)| == Span(cs) - 1 && HorzWall(cs) != HorzEmpty(cs)
    ensures |VertWall(cs)| == |VertEmpty(cs)| == 1 && VertWall(cs) != VertEmpty(cs)
  {
  }

  /** The 16 Unicode corners, keyed by which of the west, north, east and south arms are walls. */
  function UnicodeCorner(west: bool, north: bool, east: bool, south: bool): string
  {
    match (west, north, east, south)
    case (false, false, false, false) => " "
    case (true, false, false, false) => "\U{2578}"
    case (false, true, false, false) => "\U{2579}"
    case (false, false, true, false) => "\U{257a}"
    case (false, false, false, true) => "\U{257b}"
    case (true, false, true, false) => "\U{2501}"
    case (false, true, false, true) => "\U{2503}"
    case (true, true, false, false) => "\U{251b}"
    case (false, true, true, false) => "\U{2517}"
    case (true, false, false, true) => "\U{2513}"
    case (false, false, true, true) => "\U{250f}"
    case (true, true, false, true) => "\U{252b}"
    case (true, true, true, false) => "\U{253b}"
    case (false, true, true, true) => "\U{2523}"
    case (true, false, true, true) => "\U{2533}"
    case (true, true, true, true) => "\U{254b}"
  }

  /** `select_corner`: the glyph where four wall arms meet, always a single character. */
  function SelectCorner(cs: Charset, west: bool, north: bool, east: bool, south: bool): (g: string)
    ensures |g| == 1
  {
    match cs
    case Ascii => if !west && !north && !east && !south then " " else "+"
    case Unicode => UnicodeCorner(west, north, east, south)
  }

  /** The arms a Unicode corner glyph shows: the inverse of `UnicodeCorner`. */
  function UnicodeArms(g: char): Option<(bool, bool, bool, bool)>
  {
    if g == ' ' then Some((false, false, false, false))
    else if g == '\U{2578}' then Some((true, false, false, false))
    else if g == '\U{2579}' then Some((false, true, false, false))
    else if g == '\U{257a}' then Some((false, false, true, false))
    else if g == '\U{257b}' then Some((false, false, false, true))
    else if g == '\U{2501}' then Some((true, false, true, false))
    else if g == '\U{2503}' then Some((false, true, false, true))
    else if g == '\U{251b}' then Some((true, true, false, false))
    else if g == '\U{2517}' then Some((false, true, true, false))
    else if g == '\U{2513}' then Some((true, false, false, true))
    else if g == '\U{250f}' then Some((false, false, true, true))
    else if g == '\U{252b}' then Some((true, true, false, true))
    else if g == '\U{253b}' then Some((true, true, true, false))
    else if g == '\U{2523}' then Some((false, true, true, true))
    else if g == '\U{2533}' then Some((true, false, true, true))
    else if g == '\U{254b}' then Some((true, true, true, true))
    else None
  }

  /** The ASCII corner is a blank exactly when no arm is a wall, and `+` otherwise. */
  lemma AsciiCorner(west: bool, north: bool, east: bool, south: bool)
    ensures SelectCorner(Ascii, west, north, east, south) == " " <==> !west && !north && !east && !south
    ensures SelectCorner(Ascii, west, north, east, south) != " " ==> SelectCorner(Ascii, west, north, east, south) == "+"
  {
  }

  /** All four arms can be read back from the Unicode corner glyph. */
  lemma UnicodeCornerRoundTrip(west: bool, north: bool, east: bool, south: bool)
    ensures UnicodeArms(SelectCorner(Unicode, west, north, east, south)[0]) == Some((west, north, east, south))
  {
  }

  /** So the 16 combinations give 16 different glyphs, and the blank appears only without
      walls. */
  lemma UnicodeCornerInjective(w: bool, n: bool, e: bool, s: bool, w': bool, n': bool, e': bool, s': bool)
    ensures SelectCorner(Unicode, w, n, e, s) == SelectCorner(Unicode, w', n', e', s') <==> (w, n, e, s) == (w', n', e', s')
    ensures SelectCorner(Unicode, w, n, e, s) == " " <==> !w && !n && !e && !s
  {
    UnicodeCornerRoundTrip(w, n, e, s);
    UnicodeCornerRoundTrip(w', n', e', s');
    if !w && !n && !e && !s {
    } else {
      assert UnicodeArms(' ') == Some((false, false, false, false));
    }
  }

  // ---------------------------------------------------------------------------------------
  // Walls
  // ---------------------------------------------------------------------------------------

  /** The wall on the north side of position `p`: a cell has one unless its north passage is
      open; a non-cell has one exactly when the position to its north is a cell. */
  predicate NorthWall(l: GridLayout, cells: seq<RectCell>, p: RectPosition)
    requires SizedFor(l, cells)
  {
    if IsRectCell(l, p) then !IsConnectedIn(l, cells, p, North)
    else Neighbor(p, North).Some? && IsRectCell(l, Neighbor(p, North).value)
  }

  /** The wall on the west side of position `p`, in the same way. */
  predicate WestWall(l: GridLayout, cells: seq<RectCell>, p: RectPosition)
    requires SizedFor(l, cells)
  {
    if IsRectCell(l, p) then !IsConnectedIn(l, cells, p, West)
    else Neighbor(p, West).Some? && IsRectCell(l, Neighbor(p, West).value)
  }

  /** The east border of row `r`: drawn when the row's last position is a cell. */
  predicate EastBorder(l: GridLayout, r: nat)
  {
    l.width > 0 && IsRectCell(l, RectPosition(r, l.width - 1))
  }

  /** The south border of column `c`: drawn when the column's last position is a cell. */
  predicate SouthBorder(l: GridLayout, c: nat)
  {
    l.height > 0 && IsRectCell(l, RectPosition(l.height - 1, c))
  }

  /** Between two cells the wall is drawn exactly when no passage joins them, from whichever
      side it is read. */
  lemma WallBetweenCells(l: GridLayout, cells: seq<RectCell>, p: RectPosition, d: RectDirection)
    requires SizedFor(l, cells) && (d == North || d == West)
    requires IsRectCell(l, p) && NeighborPos(l, p, d).Some?
    ensures var q := NeighborPos(l, p, d).value;
      (if d == North then NorthWall(l, cells, p) else WestWall(l, cells, p)) <==> !IsConnectedIn(l, cells, q, Reverse(d))
  {
    IsConnectedSymmetric(l, cells, p, d);
  }

  // ---------------------------------------------------------------------------------------
  // Lines
  // ---------------------------------------------------------------------------------------

  /** The corner at the north-west of (r, c): its west arm is the north wall of the cell to the
      west, its north arm the west wall of the cell above. */
  function CeilCorner(cs: Charset, l: GridLayout, cells: seq<RectCell>, r: nat, c: nat): string
    requires SizedFor(l, cells)
  {
    SelectCorner(cs,
      c > 0 && NorthWall(l, cells, RectPosition(r, c - 1)),
      r > 0 && WestWall(l, cells, RectPosition(r - 1, c)),
      NorthWall(l, cells, RectPosition(r, c)),
      WestWall(l, cells, RectPosition(r, c)))
  }

  function CeilSegment(cs: Charset, l: GridLayout, cells: seq<RectCell>, r: nat, c: nat): string
    requires SizedFor(l, cells)
  {
    if NorthWall(l, cells, RectPosition(r, c)) then HorzWall(cs) else HorzEmpty(cs)
  }

  /** The pieces of row `r`'s ceiling line, one per column. */
  function CeilPieces(cs: Charset, l: GridLayout, cells: seq<RectCell>, r: nat): seq<string>
    requires SizedFor(l, cells)
  {
    seq(l.width, c requires 0 <= c < l.width => CeilCorner(cs, l, cells, r, c) + CeilSegment(cs, l, cells, r, c))
  }

  /** The corner closing row `r`'s ceiling line, where the east border meets it. */
  function RowEndCorner(cs: Charset, l: GridLayout, cells: seq<RectCell>, r: nat): string
    requires SizedFor(l, cells)
  {
    SelectCorner(cs, l.width > 0 && NorthWall(l, cells, RectPosition(r, l.width - 1)), r > 0 && EastBorder(l, r - 1), false, EastBorder(l, r))
  }

  function CeilLine(cs: Charset, l: GridLayout, cells: seq<RectCell>, r: nat): string
    requires SizedFor(l, cells)
  {
    Concat(CeilPieces(cs, l, cells, r)) + RowEndCorner(cs, l, cells, r)
  }

  function BodyWall(cs: Charset, wall: bool): string
  {
    if wall then VertWall(cs) else VertEmpty(cs)
  }

  /** A body wall shows the vertical wall exactly when there is one. */
  lemma BodyWallShows(cs: Charset, wall: bool)
    ensures |BodyWall(cs, wall)| == 1
    ensures BodyWall(cs, wall) == VertWall(cs) <==> wall
  {
    CharsetShapes(cs);
  }

  /** The pieces of row `r`'s body line: each cell's west wall and its inside. */
  function BodyPieces(cs: Charset, l: GridLayout, cells: seq<RectCell>, r: nat): seq<string>
    requires SizedFor(l, cells)
  {
    seq(l.width, c requires 0 <= c < l.width => BodyWall(cs, WestWall(l, cells, RectPosition(r, c))) + HorzEmpty(cs))
  }

  function BodyLine(cs: Charset, l: GridLayout, cells: seq<RectCell>, r: nat): string
    requires SizedFor(l, cells)
  {
    Concat(BodyPieces(cs, l, cells, r)) + BodyWall(cs, EastBorder(l, r))
  }

  /** The corner at the south-west of column `c` on the bottom line. */
  function BottomCorner(cs: Charset, l: GridLayout, cells: seq<RectCell>, c: nat): string
    requires SizedFor(l, cells)
  {
    SelectCorner(cs, c > 0 && SouthBorder(l, c - 1), l.height > 0 && WestWall(l, cells, RectPosition(l.height - 1, c)),
                 SouthBorder(l, c), false)
  }

  function BottomPieces(cs: Charset, l: GridLayout, cells: seq<RectCell>): seq<string>
    requires SizedFor(l, cells)
  {
    seq(l.width, c requires 0 <= c < l.width =>
      BottomCorner(cs, l, cells, c) + (if SouthBorder(l, c) then HorzWall(cs) else HorzEmpty(cs)))
  }

  function BottomLine(cs: Charset, l: GridLayout, cells: seq<RectCell>): string
    requires SizedFor(l, cells)
  {
    Concat(BottomPieces(cs, l, cells)) +
      SelectCorner(cs, l.width > 0 && SouthBorder(l, l.width - 1), l.height > 0 && EastBorder(l, l.height - 1), false, false)
  }

  /** The lines of the first `r` rows. */
  function RowLines(cs: Charset, l: GridLayout, cells: seq<RectCell>, r: nat): seq<string>
    requires SizedFor(l, cells)
  {
    if r == 0 then [] else RowLines(cs, l, cells, r - 1) + [CeilLine(cs, l, cells, r - 1), BodyLine(cs, l, cells, r - 1)]
  }

  /** Everything `fmt` writes, line by line. */
  function Render(cs: Charset, l: GridLayout, cells: seq<RectCell>): seq<string>
    requires SizedFor(l, cells)
  {
    RowLines(cs, l, cells, l.height) + [BottomLine(cs, l, cells)]
  }

  // ---------------------------------------------------------------------------------------
  // What the text shows
  // ---------------------------------------------------------------------------------------

  lemma {:induction false} RowLinesShape(cs: Charset, l: GridLayout, cells: seq<RectCell>, r: nat)
    requires SizedFor(l, cells)
    ensures |RowLines(cs, l, cells, r)| == 2 * r
    ensures forall i | 0 <= i < r ::
      RowLines(cs, l, cells, r)[2 * i] == CeilLine(cs, l, cells, i) && RowLines(cs, l, cells, r)[2 * i + 1] == BodyLine(cs, l, cells, i)
    decreases r
  {
    if r > 0 {
      var prev := RowLines(cs, l, cells, r - 1);
      RowLinesShape(cs, l, cells, r - 1);
      assert RowLines(cs, l, cells, r) == prev + [CeilLine(cs, l, cells, r - 1), BodyLine(cs, l, cells, r - 1)];
      forall i | 0 <= i < r
        ensures RowLines(cs, l, cells, r)[2 * i] == CeilLine(cs, l, cells, i)
        ensures RowLines(cs, l, cells, r)[2 * i + 1] == BodyLine(cs, l, cells, i)
      {
        if i < r - 1 {
          assert 2 * i + 1 < |prev|;
        } else {
          assert 2 * i == |prev|;
        }
      }
    }
  }

  /** The text has a ceiling line and a body line per row, in row order, and then the bottom
      line: `2 * height + 1` lines. */
  lemma RenderShape(cs: Charset, l: GridLayout, cells: seq<RectCell>)
    requires SizedFor(l, cells)
    ensures var lines := Render(cs, l, cells);
      && |lines| == 2 * l.height + 1
      && (forall r | 0 <= r < l.height :: lines[2 * r] == CeilLine(cs, l, cells, r) && lines[2 * r + 1] == BodyLine(cs, l, cells, r))
      && lines[2 * l.height] == BottomLine(cs, l, cells)
  {
    RowLinesShape(cs, l, cells, l.height);
  }

  /** Ceiling line: each position takes `Span` characters, its corner and then a segment that
      is the wall exactly when the position has a north wall, and one more corner closes the
      line. With ASCII this is `4 * width + 1` characters. */
  lemma CeilLineText(cs: Charset, l: GridLayout, cells: seq<RectCell>, r: nat, c: nat)
    requires SizedFor(l, cells) && c < l.width
    ensures var line := CeilLine(cs, l, cells, r);
      var k := Span(cs);
      && |line| == l.width * k + 1
      && 0 <= c * k && c * k + k <= l.width * k
      && line[c * k .. c * k + 1] == CeilCorner(cs, l, cells, r, c)
      && (line[c * k + 1 .. c * k + k] == HorzWall(cs) <==> NorthWall(l, cells, RectPosition(r, c)))
      && line[l.width * k ..] == RowEndCorner(cs, l, cells, r)
  {
    CeilPiecesShape(cs, l, cells, r);
    CornerPieces(cs, CeilPieces(cs, l, cells, r), c, CeilCorner(cs, l, cells, r, c), NorthWall(l, cells, RectPosition(r, c)),
                 RowEndCorner(cs, l, cells, r));
  }

  lemma BodyPiecesShape(cs: Charset, l: GridLayout, cells: seq<RectCell>, r: nat)
    requires SizedFor(l, cells)
    ensures var pieces := BodyPieces(cs, l, cells, r);
      && |pieces| == l.width
      && (forall c | 0 <= c < l.width :: pieces[c] == BodyWall(cs, WestWall(l, cells, RectPosition(r, c))) + HorzEmpty(cs))
      && (forall c | 0 <= c < l.width :: |pieces[c]| == Span(cs))
  {
    CharsetShapes(cs);
  }

  lemma BottomPiecesShape(cs: Charset, l: GridLayout, cells: seq<RectCell>)
    requires SizedFor(l, cells)
    ensures var pieces := BottomPieces(cs, l, cells);
      && |pieces| == l.width
      && (forall c | 0 <= c < l.width ::
            pieces[c] == BottomCorner(cs, l, cells, c) + (if SouthBorder(l, c) then HorzWall(cs) else HorzEmpty(cs)))
      && (forall c | 0 <= c < l.width :: |pieces[c]| == Span(cs))
  {
    CharsetShapes(cs);
  }

  lemma CeilPiecesShape(cs: Charset, l: GridLayout, cells: seq<RectCell>, r: nat)
    requires SizedFor(l, cells)
    ensures var pieces := CeilPieces(cs, l, cells, r);
      && |pieces| == l.width
      && (forall c | 0 <= c < l.width :: pieces[c] == CeilCorner(cs, l, cells, r, c) + CeilSegment(cs, l, cells, r, c))
      && (forall c | 0 <= c < l.width :: |pieces[c]| == Span(cs))
  {
    CharsetShapes(cs);
  }

  /** Body line: each position takes `Span` characters, its west wall (drawn exactly when it
      has one) and then its blank inside, and the row's east border closes the line. */
  lemma BodyLineText(cs: Charset, l: GridLayout, cells: seq<RectCell>, r: nat, c: nat)
    requires SizedFor(l, cells) && c < l.width
    ensures var line := BodyLine(cs, l, cells, r);
      var k := Span(cs);
      && |line| == l.width * k + 1
      && 0 <= c * k && c * k + k <= l.width * k
      && (line[c * k .. c * k + 1] == VertWall(cs) <==> WestWall(l, cells, RectPosition(r, c)))
      && line[c * k + 1 .. c * k + k] == HorzEmpty(cs)
      && (line[l.width * k ..] == VertWall(cs) <==> EastBorder(l, r))
  {
    BodyPiecesShape(cs, l, cells, r);
    WallPieces(cs, BodyPieces(cs, l, cells, r), c, WestWall(l, cells, RectPosition(r, c)), EastBorder(l, r));
  }

  /** The same for any pieces of wall-then-inside: the slicing argument, apart from the maze. */
  lemma WallPieces(cs: Charset, pieces: seq<string>, c: nat, west: bool, east: bool)
    requires forall i | 0 <= i < |pieces| :: |pieces[i]| == Span(cs)
    requires c < |pieces| && pieces[c] == BodyWall(cs, west) + HorzEmpty(cs)
    ensures var line := Concat(pieces) + BodyWall(cs, east);
      var k := Span(cs);
      && |line| == |pieces| * k + 1
      && 0 <= c * k && c * k + k <= |pieces| * k
      && (line[c * k .. c * k + 1] == VertWall(cs) <==> west)
      && line[c * k + 1 .. c * k + k] == HorzEmpty(cs)
      && (line[|pieces| * k ..] == VertWall(cs) <==> east)
  {
    BodyWallShows(cs, west);
    BodyWallShows(cs, east);
    PieceAt(pieces, Span(cs), BodyWall(cs, east), c, BodyWall(cs, west), HorzEmpty(cs));
  }

  /** Bottom line: each column takes `Span` characters, its corner and then a segment that is
      the wall exactly when the column's last position is a cell, and one corner closes it. */
  lemma BottomLineText(cs: Charset, l: GridLayout, cells: seq<RectCell>, c: nat)
    requires SizedFor(l, cells) && c < l.width
    ensures var line := BottomLine(cs, l, cells);
      var k := Span(cs);
      && |line| == l.width * k + 1
      && 0 <= c * k && c * k + k <= l.width * k
      && line[c * k .. c * k + 1] == BottomCorner(cs, l, cells, c)
      && (line[c * k + 1 .. c * k + k] == HorzWall(cs) <==> SouthBorder(l, c))
  {
    BottomPiecesShape(cs, l, cells);
    CornerPieces(cs, BottomPieces(cs, l, cells), c, BottomCorner(cs, l, cells, c), SouthBorder(l, c),
                 SelectCorner(cs, l.width > 0 && SouthBorder(l, l.width - 1), l.height > 0 && EastBorder(l, l.height - 1), false, false));
  }

  /** The same for any pieces of corner-then-segment followed by a `tail`: the slicing argument,
      apart from the maze. */
  lemma CornerPieces(cs: Charset, pieces: seq<string>, c: nat, corner: string, wall: bool, tail: string)
    requires forall i | 0 <= i < |pieces| :: |pieces[i]| == Span(cs)
    requires c < |pieces| && |corner| == 1 && pieces[c] == corner + (if wall then HorzWall(cs) else HorzEmpty(cs))
    ensures var line := Concat(pieces) + tail;
      var k := Span(cs);
      && |line| == |pieces| * k + |tail|
      && 0 <= c * k && c * k + k <= |pieces| * k
      && line[c * k .. c * k + 1] == corner
      && (line[c * k + 1 .. c * k + k] == HorzWall(cs) <==> wall)
      && line[|pieces| * k ..] == tail
  {
    CharsetShapes(cs);
    PieceAt(pieces, Span(cs), tail, c, corner, if wall then HorzWall(cs) else HorzEmpty(cs));
  }

  /** Every line has `width * Span + 1` characters: `4 * width + 1` with ASCII and
      `2 * width + 1` with Unicode. */
  lemma LineWidths(cs: Charset, l: GridLayout, cells: seq<RectCell>, r: nat)
    requires SizedFor(l, cells)
    ensures Span(cs) == if cs == Ascii then 4 else 2
    ensures |CeilLine(cs, l, cells, r)| == |BodyLine(cs, l, cells, r)| == |BottomLine(cs, l, cells)| == l.width * Span(cs) + 1
  {
    CharsetShapes(cs);
    CeilPiecesShape(cs, l, cells, r);
    BodyPiecesShape(cs, l, cells, r);
    BottomPiecesShape(cs, l, cells);
    ConcatUniform(CeilPieces(cs, l, cells, r), Span(cs), 0);
    ConcatUniform(BodyPieces(cs, l, cells, r), Span(cs), 0);
    ConcatUniform(BottomPieces(cs, l, cells), Span(cs), 0);
  }

  // ---------------------------------------------------------------------------------------
  // RectMazeCmdDisplay::fmt
  // ---------------------------------------------------------------------------------------

  /** The west walls of the row above row `r`, all absent above the first row: what `fmt`
      keeps in `last_row_has_vert_wall` when it starts row `r`. */
  function AboveWalls(l: GridLayout, cells: seq<RectCell>, r: nat): (walls: seq<bool>)
    requires SizedFor(l, cells)
    ensures |walls| == l.width
  {
    seq(l.width, c requires 0 <= c < l.width => r > 0 && WestWall(l, cells, RectPosition(r - 1, c)))
  }

  /** The walls `fmt` reads off position `pos`: its north wall (`has_east_wall`, the east arm
      of its north-west corner) and its west wall (`has_south_wall`, the south arm). */
  method CellWalls(maze: RectGrid, pos: RectPosition) returns (hasEastWall: bool, hasSouthWall: bool)
    requires maze.Valid()
    ensures hasEastWall == NorthWall(maze.layout, maze.cells, pos)
    ensures hasSouthWall == WestWall(maze.layout, maze.cells, pos)
  {
    var isCell := IsRectCell(maze.layout, pos);
    hasEastWall := if isCell then !maze.IsConnectedTo(pos, North)
                   else Neighbor(pos, North).Some? && IsRectCell(maze.layout, Neighbor(pos, North).value);
    hasSouthWall := if isCell then !maze.IsConnectedTo(pos, West)
                    else Neighbor(pos, West).Some? && IsRectCell(maze.layout, Neighbor(pos, West).value);
  }

  /** The pieces of position (r, c) on its row's two lines, given the walls `fmt` carries
      along: the north wall of the position to the west and the west wall of the one above. */
  lemma CellPieces(cs: Charset, l: GridLayout, cells: seq<RectCell>, r: nat, c: nat, west: bool)
    requires SizedFor(l, cells) && c < l.width
    requires west == (c > 0 && NorthWall(l, cells, RectPosition(r, c - 1)))
    ensures var p := RectPosition(r, c);
      CeilPieces(cs, l, cells, r)[c] ==
        SelectCorner(cs, west, AboveWalls(l, cells, r)[c], NorthWall(l, cells, p), AboveWalls(l, cells, r + 1)[c]) +
        (if NorthWall(l, cells, p) then HorzWall(cs) else HorzEmpty(cs))
    ensures BodyPieces(cs, l, cells, r)[c] ==
      (if AboveWalls(l, cells, r + 1)[c] then VertWall(cs) else VertEmpty(cs)) + HorzEmpty(cs)
  {
  }

  /** The inner loop of `RectMazeCmdDisplay::fmt` over row `rInd`: the pieces of its ceiling
      and body lines, reading the west walls of the row above from `lastRowHasVertWall` and
      overwriting them with the row's own. */
  method FmtRowCells(maze: RectGrid, charset: Charset, rInd: nat, lastRowHasVertWall: array<bool>)
    returns (ceil: string, body: string, hasWestWall: bool)
    requires maze.Valid() && lastRowHasVertWall[..] == AboveWalls(maze.layout, maze.cells, rInd)
    modifies lastRowHasVertWall
    ensures ceil == Concat(CeilPieces(charset, maze.layout, maze.cells, rInd))
    ensures body == Concat(BodyPieces(charset, maze.layout, maze.cells, rInd))
    ensures hasWestWall == (maze.layout.width > 0 && NorthWall(maze.layout, maze.cells, RectPosition(rInd, maze.layout.width - 1)))
    ensures lastRowHasVertWall[..] == AboveWalls(maze.layout, maze.cells, rInd + 1)
  {
    ghost var l, cells := maze.layout, maze.cells;
    var horzWall, horzEmpty := HorzWall(charset), HorzEmpty(charset);
    var vertWall, vertEmpty := VertWall(charset), VertEmpty(charset);
    var (width, _) := maze.Size();
    ceil, body := "", "";
    hasWestWall := false;
    ghost var ceilPieces, bodyPieces := CeilPieces(charset, l, cells, rInd), BodyPieces(charset, l, cells, rInd);
    ghost var above, own := AboveWalls(l, cells, rInd), AboveWalls(l, cells, rInd + 1);
    for cInd := 0 to width
      invariant ceil == Concat(ceilPieces[..cInd]) && body == Concat(bodyPieces[..cInd])
      invariant hasWestWall == (cInd > 0 && NorthWall(l, cells, RectPosition(rInd, cInd - 1)))
      invariant lastRowHasVertWall[..] == own[..cInd] + above[cInd..]
    {
      var pos := RectPosition(rInd, cInd);
      var hasEastWall, hasSouthWall := CellWalls(maze, pos);
      assert lastRowHasVertWall[cInd] == (own[..cInd] + above[cInd..])[cInd] == above[cInd];
      var hasNorthWall := lastRowHasVertWall[cInd];
      var corner := SelectCorner(charset, hasWestWall, hasNorthWall, hasEastWall, hasSouthWall);
      var segment := if hasEastWall then horzWall else horzEmpty;
      var wall := if hasSouthWall then vertWall else vertEmpty;
      CellPieces(charset, l, cells, rInd, cInd, hasWestWall);
      ConcatStep(ceilPieces, cInd, ceil, corner, segment);
      ConcatStep(bodyPieces, cInd, body, wall, horzEmpty);
      ceil := ceil + corner;
      ceil := ceil + segment;
      body := body + wall;
      body := body + horzEmpty;
      Flags.SpliceStep(own, above, cInd);
      lastRowHasVertWall[cInd] := hasSouthWall;
      hasWestWall := hasEastWall;
    }
    assert ceilPieces[..width] == ceilPieces && bodyPieces[..width] == bodyPieces && own[..width] + above[width..] == own;
  }

  /** One row of `RectMazeCmdDisplay::fmt` (the body of its outer loop): the row's cells and
      then its east border, whose corner takes its north arm from the row above. */
  method FmtRow(maze: RectGrid, charset: Charset, rInd: nat, lastRowHasVertWall: array<bool>, eastColumnHasNorthWall: bool)
    returns (ceil: string, body: string, hasSouthWall: bool)
    requires maze.Valid() && lastRowHasVertWall[..] == AboveWalls(maze.layout, maze.cells, rInd)
    requires eastColumnHasNorthWall == (rInd > 0 && EastBorder(maze.layout, rInd - 1))
    modifies lastRowHasVertWall
    ensures ceil == CeilLine(charset, maze.layout, maze.cells, rInd)
    ensures body == BodyLine(charset, maze.layout, maze.cells, rInd)
    ensures hasSouthWall == EastBorder(maze.layout, rInd)
    ensures lastRowHasVertWall[..] == AboveWalls(maze.layout, maze.cells, rInd + 1)
  {
    var hasWestWall;
    ceil, body, hasWestWall := FmtRowCells(maze, charset, rInd, lastRowHasVertWall);
    var (width, _) := maze.Size();
    hasSouthWall := width > 0 && IsRectCell(maze.layout, RectPosition(rInd, width - 1));
    ceil := ceil + SelectCorner(charset, hasWestWall, eastColumnHasNorthWall, false, hasSouthWall);
    body := body + if hasSouthWall then VertWall(charset) else VertEmpty(charset);
  }

  /** The final south border written by `RectMazeCmdDisplay::fmt`, from the west walls of the
      last row and whether it has an east border. */
  method FmtBottom(maze: RectGrid, charset: Charset, lastRowHasVertWall: array<bool>, eastColumnHasNorthWall: bool)
    returns (ceil: string)
    requires maze.Valid() && lastRowHasVertWall[..] == AboveWalls(maze.layout, maze.cells, maze.layout.height)
    requires eastColumnHasNorthWall == (maze.layout.height > 0 && EastBorder(maze.layout, maze.layout.height - 1))
    ensures ceil == BottomLine(charset, maze.layout, maze.cells)
  {
    ghost var l, cells := maze.layout, maze.cells;
    var horzWall, horzEmpty := HorzWall(charset), HorzEmpty(charset);
    var (width, height) := maze.Size();
    ceil := "";
    var southRowHasWestWall := false;
    ghost var bottomPieces := BottomPieces(charset, l, cells);
    BottomPiecesShape(charset, l, cells);
    for cInd := 0 to width
      invariant ceil == Concat(bottomPieces[..cInd])
      invariant southRowHasWestWall == (cInd > 0 && SouthBorder(l, cInd - 1))
    {
      var hasEastWall := height > 0 && IsRectCell(maze.layout, RectPosition(height - 1, cInd));
      assert lastRowHasVertWall[cInd] == AboveWalls(l, cells, height)[cInd];
      var corner := SelectCorner(charset, southRowHasWestWall, lastRowHasVertWall[cInd], hasEastWall, false);
      var segment := if hasEastWall then horzWall else horzEmpty;
      ConcatStep(bottomPieces, cInd, ceil, corner, segment);
      ceil := ceil + corner;
      ceil := ceil + segment;
      southRowHasWestWall := hasEastWall;
    }
    ceil := ceil + SelectCorner(charset, southRowHasWestWall, eastColumnHasNorthWall, false, false);
    assert bottomPieces[..width] == bottomPieces;
  }

  /** `RectMazeCmdDisplay::fmt`: writes the lines row by row, remembering the west walls of the
      previous row (`last_row_has_vert_wall`) and its east border for the corners, then the
      south border. */
  method Fmt(maze: RectGrid, charset: Charset) returns (lines: seq<string>)
    requires maze.Valid()
    ensures lines == Render(charset, maze.layout, maze.cells)
  {
    ghost var l, cells := maze.layout, maze.cells;
    var (width, height) := maze.Size();
    var lastRowHasVertWall := new bool[width](_ => false);
    assert lastRowHasVertWall[..] == AboveWalls(l, cells, 0);
    var eastColumnHasNorthWall := false;
    lines := [];
    for rInd := 0 to height
      invariant lines == RowLines(charset, l, cells, rInd)
      invariant lastRowHasVertWall[..] == AboveWalls(l, cells, rInd)
      invariant eastColumnHasNorthWall == (rInd > 0 && EastBorder(l, rInd - 1))
    {
      var ceil, body, hasSouthWall := FmtRow(maze, charset, rInd, lastRowHasVertWall, eastColumnHasNorthWall);
      eastColumnHasNorthWall := hasSouthWall;
      lines := lines + [ceil, body];
    }
    var bottom := FmtBottom(maze, charset, lastRowHasVertWall, eastColumnHasNorthWall);
    lines := lines + [bottom];
  }
}
