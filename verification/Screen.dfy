/** One 24x80 text screen with its cursor, and the layout of a text on it. */
module Screen {
  import opened Basics
  import opened Text

  const ROWS: nat := 24
  const COLS: nat := 80
  const CELLS: nat := 1920
  const ATTRIB: byte := 10
  const UNPRINTABLE: byte := 6

  datatype Cell = Cell(ch: byte, attr: byte)

  const BLANK := Cell(32, ATTRIB)

  datatype View = View(cells: seq<Cell>, row: nat, col: nat) {
    predicate Valid() {
      |cells| == CELLS && row < ROWS && col < COLS
    }

    function Pos(): nat {
      80 * row + col
    }
  }

  function Blanks(): (cells: seq<Cell>)
    ensures |cells| == CELLS && forall k :: 0 <= k < CELLS ==> cells[k] == BLANK
  {
    seq(CELLS, _ => BLANK)
  }

  function Empty(): (v: View)
    ensures v.Valid()
  {
    View(Blanks(), 0, 0)
  }

  // ---- Writing one byte ---------------------------------------------------------------

  /** The cells moved up one row, with a blank row below. */
  function Scrolled(cells: seq<Cell>): (r: seq<Cell>)
    requires |cells| == CELLS
    ensures |r| == CELLS
    ensures forall k :: 0 <= k < CELLS ==> r[k] == if k < CELLS - COLS then cells[k + COLS] else BLANK
  {
    cells[COLS..] + seq(COLS, _ => BLANK)
  }

  function NextRow(v: View): (r: View)
    requires v.Valid()
    ensures r.Valid()
  {
    if v.row < ROWS - 1 then View(v.cells, v.row + 1, 0) else View(Scrolled(v.cells), ROWS - 1, 0)
  }

  function Advance(v: View): (r: View)
    requires v.Valid()
    ensures r.Valid()
  {
    if v.col < COLS - 1 then v.(col := v.col + 1) else NextRow(v)
  }

  function Retreat(v: View): (r: View)
    requires v.Valid() && v.Pos() > 0
    ensures r.Valid() && r.Pos() == v.Pos() - 1 && r.cells == v.cells
  {
    if v.col == 0 then v.(row := v.row - 1, col := COLS - 1) else v.(col := v.col - 1)
  }

  /** A cell stored under the cursor. */
  function Drawn(v: View, c: Cell): (r: View)
    requires v.Valid()
    ensures r.Valid()
  {
    v.(cells := v.cells[v.Pos() := c])
  }

  function Glyph(c: byte): byte {
    if c == TAB then UNPRINTABLE else c
  }

  /** The effect of one byte when it reaches the screen's own frame; off-screen backspaces are excluded by Fits. */
  function Put(v: View, c: byte): (r: View)
    requires v.Valid()
    ensures r.Valid()
  {
    if c == BACKSPACE then
      if v.Pos() == 0 then v else Drawn(Retreat(v), BLANK)
    else if c == NEWLINE || c == RETURN then NextRow(v)
    else if c == NUL then v
    else Advance(Drawn(v, Cell(Glyph(c), ATTRIB)))
  }

  /** The effect of one byte whose glyph goes to another frame: the cursor still moves and the screen still scrolls. */
  function PutLost(v: View, c: byte): (r: View)
    requires v.Valid()
    ensures r.Valid()
  {
    if c == BACKSPACE then if v.Pos() == 0 then v else Retreat(v)
    else if c == NEWLINE || c == RETURN then NextRow(v)
    else if c == NUL then v
    else Advance(v)
  }

  function PutAll(v: View, text: seq<byte>): (r: View)
    requires v.Valid()
    ensures r.Valid()
  {
    if text == [] then v else Put(PutAll(v, Front(text)), Last(text))
  }

  function PutAllLost(v: View, text: seq<byte>): (r: View)
    requires v.Valid()
    ensures r.Valid()
  {
    if text == [] then v else PutLost(PutAllLost(v, Front(text)), Last(text))
  }

  lemma PutAllSingle(v: View, c: byte)
    requires v.Valid()
    ensures PutAll(v, [c]) == Put(v, c) && PutAllLost(v, [c]) == PutLost(v, c)
  {
    assert Front([c]) == [] && Last([c]) == c;
    assert PutAll(v, []) == v && PutAllLost(v, []) == v;
  }

  /** No backspace of `text` is written with the cursor at the top left corner. */
  predicate Fits(v: View, text: seq<byte>)
    requires v.Valid()
  {
    forall i :: 0 <= i < |text| && text[i] == BACKSPACE ==> PutAll(v, text[..i]).Pos() > 0
  }

  /** A cursor_t of the source: two bytes, which need not be on the screen. */
  datatype Cursor = Cursor(row: byte, col: byte) {
    predicate OnScreen() {
      row < ROWS && col < COLS
    }
  }

  function CursorOf(v: View): Cursor
    requires v.Valid()
  {
    Cursor(v.row, v.col)
  }

  /** cursor_decrement on the bytes: from the start of row 0 the row wraps to 255. */
  function Back(k: Cursor): Cursor {
    if k.col == 0 then Cursor((k.row + 255) % 256, 79) else Cursor(k.row, k.col - 1)
  }

  /** cursor_increment_line on the bytes; scrolling leaves the cursor in the last row. */
  function Down(k: Cursor): Cursor {
    var row := (k.row + 1) % 256 % 24;
    Cursor(if row == 0 then 23 else row, 0)
  }

  /** cursor_increment on the bytes. */
  function Forward(k: Cursor): Cursor {
    if (k.col + 1) % 80 != 0 then Cursor(k.row, (k.col + 1) % 80)
    else
      var row := (k.row + 1) % 24;
      Cursor(if row == 0 then 23 else row, 0)
  }

  /** Where one byte of terminal_write moves the cursor, on the screen or not. */
  function Moved(k: Cursor, c: byte): Cursor {
    if c == BACKSPACE then Back(k)
    else if c == NEWLINE || c == RETURN then Down(k)
    else if c == NUL then k
    else Forward(k)
  }

  function MovedAll(k: Cursor, text: seq<byte>): Cursor {
    if text == [] then k else Moved(MovedAll(k, Front(text)), Last(text))
  }

  /** The cursor is on the screen before, during and after writing `text`. */
  predicate Stays(k: Cursor, text: seq<byte>) {
    MovedAll(k, text).OnScreen() && (text == [] || Stays(k, Front(text)))
  }

  /** A backspace keeps the cursor on the screen exactly when it is not at the top left corner. */
  lemma BackOnScreenIff(v: View)
    requires v.Valid()
    ensures Back(CursorOf(v)).OnScreen() <==> v.Pos() > 0
    ensures v.Pos() > 0 ==> Back(CursorOf(v)) == CursorOf(Retreat(v))
    ensures v.Pos() == 0 ==> Back(CursorOf(v)) == Cursor(255, 79)
  {
  }

  lemma MovedIs(v: View, c: byte)
    requires v.Valid() && (c == BACKSPACE ==> v.Pos() > 0)
    ensures Moved(CursorOf(v), c) == CursorOf(Put(v, c))
  {
  }

  lemma FitsFront(v: View, text: seq<byte>)
    requires v.Valid() && text != []
    ensures Fits(v, text) <==> Fits(v, Front(text)) && (Last(text) == BACKSPACE ==> PutAll(v, Front(text)).Pos() > 0)
  {
    var f := Front(text);
    assert text[..|f|] == f;
    if Fits(v, text) {
      forall i | 0 <= i < |f| && f[i] == BACKSPACE ensures PutAll(v, f[..i]).Pos() > 0 {
        assert f[..i] == text[..i] && text[i] == BACKSPACE;
      }
    }
    if Fits(v, f) && (Last(text) == BACKSPACE ==> PutAll(v, f).Pos() > 0) {
      forall i | 0 <= i < |text| && text[i] == BACKSPACE ensures PutAll(v, text[..i]).Pos() > 0 {
        if i < |f| {
          assert f[..i] == text[..i] && f[i] == BACKSPACE;
        }
      }
    }
  }

  /** While a text is written the cursor stays on the screen exactly when no backspace finds it at the corner. */
  lemma {:induction false} StaysIff(v: View, text: seq<byte>)
    requires v.Valid()
    ensures Stays(CursorOf(v), text) <==> Fits(v, text)
    ensures Fits(v, text) ==> MovedAll(CursorOf(v), text) == CursorOf(PutAll(v, text))
  {
    if text != [] {
      StaysIff(v, Front(text));
      FitsFront(v, text);
      if Fits(v, Front(text)) {
        var w := PutAll(v, Front(text));
        if Last(text) == BACKSPACE {
          BackOnScreenIff(w);
        }
        if Last(text) != BACKSPACE || w.Pos() > 0 {
          MovedIs(w, Last(text));
        }
      }
    }
  }

  lemma {:induction false} StaysConcat(k: Cursor, a: seq<byte>, b: seq<byte>)
    ensures MovedAll(k, a + b) == MovedAll(MovedAll(k, a), b)
    ensures Stays(k, a + b) <==> Stays(k, a) && Stays(MovedAll(k, a), b)
    decreases |b|
  {
    if b == [] {
      assert a + b == a;
    } else {
      assert Front(a + b) == a + Front(b);
      StaysConcat(k, a, Front(b));
    }
  }

  /** Cursor movement does not depend on whether the glyphs arrive. */
  lemma {:induction false} LostCursor(v: View, w: View, text: seq<byte>)
    requires v.Valid() && w.Valid() && v.row == w.row && v.col == w.col
    ensures PutAllLost(w, text).row == PutAll(v, text).row && PutAllLost(w, text).col == PutAll(v, text).col
  {
    if text != [] {
      LostCursor(v, w, Front(text));
    }
  }

  /** Writing `a` and then `b` is writing `a + b`. */
  lemma {:induction false} PutAllConcat(v: View, a: seq<byte>, b: seq<byte>)
    requires v.Valid()
    ensures PutAll(v, a + b) == PutAll(PutAll(v, a), b)
    decreases |b|
  {
    if b == [] {
      assert a + b == a;
    } else {
      assert Front(a + b) == a + Front(b);
      PutAllConcat(v, a, Front(b));
    }
  }

  // ---- The layout of a text -----------------------------------------------------------

  /** The bytes of a text that reach a screen, with both line breaks as newlines. */
  function Glyphs(text: seq<byte>): seq<byte> {
    if text == [] then []
    else
      var c := Last(text);
      Glyphs(Front(text)) + (if c == NUL then [] else if c == RETURN then [NEWLINE] else [Glyph(c)])
  }

  /** The number of rows that have scrolled off the top. */
  function Top(n: nat): nat {
    if n <= ROWS then 0 else n - ROWS
  }

  function CellAt(rows: seq<seq<byte>>, i: nat, j: nat): Cell {
    if i < |rows| && j < |rows[i]| then Cell(rows[i][j], ATTRIB) else BLANK
  }

  function PageCells(rows: seq<seq<byte>>): (cells: seq<Cell>)
    ensures |cells| == CELLS
    ensures forall k :: 0 <= k < CELLS ==> cells[k] == CellAt(rows, Top(|rows|) + k / 80, k % 80)
  {
    seq(CELLS, k requires 0 <= k < CELLS => CellAt(rows, Top(|rows|) + k / 80, k % 80))
  }

  /** The last 24 rows of a layout, padded with blanks, and the cursor at its end. */
  function Page(rows: seq<seq<byte>>): (v: View)
    requires rows != [] && |Last(rows)| < COLS
    ensures v.Valid()
  {
    View(PageCells(rows), |rows| - 1 - Top(|rows|), |Last(rows)|)
  }

  lemma PageWrite(rows: seq<seq<byte>>, c: byte)
    requires rows != [] && |Last(rows)| < COLS
    ensures PageCells(rows)[Page(rows).Pos() := Cell(c, ATTRIB)] == PageCells(Front(rows) + [Last(rows) + [c]])
  {
    var p := Page(rows).Pos();
    var a, b := PageCells(rows)[p := Cell(c, ATTRIB)], PageCells(Front(rows) + [Last(rows) + [c]]);
    forall k | 0 <= k < CELLS ensures a[k] == b[k] {
      assert k == 80 * (k / 80) + k % 80;
    }
  }

  lemma PageNewRow(rows: seq<seq<byte>>)
    requires rows != []
    ensures PageCells(rows + [[]]) == if |rows| < ROWS then PageCells(rows) else Scrolled(PageCells(rows))
  {
    var a, b := PageCells(rows + [[]]), PageCells(rows);
    forall k | 0 <= k < CELLS ensures a[k] == if |rows| < ROWS then b[k] else Scrolled(b)[k] {
      if k < CELLS - COLS {
        assert (k + 80) / 80 == k / 80 + 1 && (k + 80) % 80 == k % 80;
      }
    }
  }

  /** One byte extends the page as it extends the layout. */
  lemma PutPage(rows: seq<seq<byte>>, c: byte)
    requires rows != [] && |Last(rows)| < COLS && c != BACKSPACE && c != NUL
    ensures var g := if c == RETURN then NEWLINE else Glyph(c);
            |Last(Extend(rows, g, COLS))| < COLS && Put(Page(rows), c) == Page(Extend(rows, g, COLS))
  {
    if c == NEWLINE || c == RETURN {
      PageNewRow(rows);
    } else {
      PageWrite(rows, Glyph(c));
      var longer := Front(rows) + [Last(rows) + [Glyph(c)]];
      PageNewRow(longer);
      if |Last(rows)| + 1 == COLS {
        assert Extend(rows, Glyph(c), COLS) == longer + [[]];
      }
    }
  }

  /**
   * A screen shows exactly the last 24 rows of the 80-column layout of everything written
   * to it: any text without backspaces, of any length.
   */
  lemma {:induction false} ScreenShowsLayout(text: seq<byte>)
    requires BACKSPACE !in text
    ensures |Last(Rows(Glyphs(text), COLS))| < COLS
    ensures PutAll(Empty(), text) == Page(Rows(Glyphs(text), COLS))
  {
    RowsWidth(Glyphs(text), COLS);
    if text == [] {
      RowsSingle([], COLS);
      assert Page([[]]).cells == Empty().cells;
    } else {
      var c, t := Last(text), Front(text);
      assert c in text && BACKSPACE !in t;
      ScreenShowsLayout(t);
      if c != NUL {
        PutPage(Rows(Glyphs(t), COLS), c);
        RowsExtend(Glyphs(t), if c == RETURN then NEWLINE else Glyph(c), COLS);
      } else {
        assert Glyphs(text) == Glyphs(t);
      }
    }
  }

  // ---- Invariants of writing ----------------------------------------------------------

  /** Every cell from the cursor on is blank. */
  predicate BlankAhead(v: View)
    requires v.Valid()
  {
    forall k :: v.Pos() <= k < CELLS ==> v.cells[k] == BLANK
  }

  lemma PutBlankAhead(v: View, c: byte)
    requires v.Valid() && BlankAhead(v)
    ensures BlankAhead(Put(v, c))
  {
  }

  lemma {:induction false} PutAllBlankAhead(v: View, text: seq<byte>)
    requires v.Valid() && BlankAhead(v)
    ensures BlankAhead(PutAll(v, text))
  {
    if text != [] {
      PutAllBlankAhead(v, Front(text));
      PutBlankAhead(PutAll(v, Front(text)), Last(text));
    }
  }

  /** Without backspaces the same holds even when the glyphs are lost. */
  lemma {:induction false} PutAllLostBlankAhead(v: View, text: seq<byte>)
    requires v.Valid() && BlankAhead(v) && BACKSPACE !in text
    ensures BlankAhead(PutAllLost(v, text))
  {
    if text != [] {
      assert Last(text) in text && BACKSPACE !in Front(text);
      PutAllLostBlankAhead(v, Front(text));
    }
  }

  /** The cells just before the cursor spell `line`. */
  predicate Spells(v: View, line: seq<byte>)
    requires v.Valid()
  {
    |line| <= v.Pos() && forall i :: 0 <= i < |line| ==> v.cells[v.Pos() - |line| + i].ch == line[i]
  }

  /** Typing keeps the echoed line spelled out, across wraps and scrolls. */
  lemma PutSpells(v: View, line: seq<byte>, c: byte)
    requires v.Valid() && Spells(v, line) && |line| < CELLS - COLS
    requires c !in {NUL, BACKSPACE, TAB, NEWLINE, RETURN}
    ensures Spells(Put(v, c), line + [c])
  {
    var w, l := Put(v, c), line + [c];
    forall i | 0 <= i < |l| ensures w.cells[w.Pos() - |l| + i].ch == l[i] {}
  }

  lemma EraseSpells(v: View, line: seq<byte>)
    requires v.Valid() && Spells(v, line) && line != []
    ensures Spells(Put(v, BACKSPACE), Front(line))
  {
    var w, l := Put(v, BACKSPACE), Front(line);
    forall i | 0 <= i < |l| ensures w.cells[w.Pos() - |l| + i].ch == l[i] {}
  }

  /** Writing never brings the cursor closer to the top left corner than a line can be long. */
  lemma {:induction false} PutAllAhead(v: View, text: seq<byte>, n: nat)
    requires v.Valid() && n <= v.Pos() && n <= CELLS - COLS && BACKSPACE !in text
    ensures n <= PutAll(v, text).Pos() && n <= PutAllLost(v, text).Pos()
  {
    if text != [] {
      assert Last(text) in text && BACKSPACE !in Front(text);
      PutAllAhead(v, Front(text), n);
    }
  }
}
