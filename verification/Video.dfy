/** Three virtual terminals over four video frames, one remappable page table entry and an alias. */
module Video {
  import opened Basics
  import opened Text
  import opened Screen
  import opened Terminals
  import Memory

  const VIDEO: nat := 0xB8000          // reaches the frame in the remappable entry
  const PHYS_VIDMEM: nat := 0xB7000    // always reaches the physical screen
  const SCREEN_BYTES: nat := 3840
  const KERNEL_FD: int := 100

  // ---- Frames as bytes ----------------------------------------------------------------

  /** The screen stored in the frame that starts at byte `base`. */
  function CellsOf(mem: seq<byte>, base: nat): (cells: seq<Cell>)
    requires base + SCREEN_BYTES <= |mem|
    ensures |cells| == CELLS
    ensures forall k :: 0 <= k < CELLS ==> cells[k] == Cell(mem[base + 2 * k], mem[base + 2 * k + 1])
  {
    seq(CELLS, k requires 0 <= k < CELLS => Cell(mem[base + 2 * k], mem[base + 2 * k + 1]))
  }

  function Stored(m: seq<byte>, at: nat, c: Cell): seq<byte>
    requires at + 1 < |m|
  {
    m[at := c.ch][at + 1 := c.attr]
  }

  lemma CellsStored(m: seq<byte>, n: seq<byte>, base: nat, p: nat, c: Cell)
    requires base + SCREEN_BYTES <= |m| && p < CELLS
    requires n == Stored(m, base + 2 * p, c)
    ensures CellsOf(n, base) == CellsOf(m, base)[p := c]
  {
  }

  /** The frame of terminal `t`'s logical screen while `visible` is shown. */
  function FrameFor(visible: nat, t: nat): nat {
    if t == visible then 0 else t + 1
  }

  /** Frame `f` (0 is the physical screen, t + 1 the background of terminal t) is all that differs. */
  ghost predicate OnlyFrame(f: nat, m: seq<byte>, n: seq<byte>) {
    |m| == |n| && forall i :: 0 <= i < |m| && i / 4096 != f ==> m[i] == n[i]
  }

  lemma CellsElsewhere(m: seq<byte>, n: seq<byte>, f: nat, g: nat)
    requires |m| == 16384 && OnlyFrame(f, m, n) && g < 4 && g != f
    ensures CellsOf(n, 4096 * g) == CellsOf(m, 4096 * g)
  {
    forall i | 4096 * g <= i < 4096 * g + SCREEN_BYTES ensures m[i] == n[i] {
      assert i / 4096 == g;
    }
  }

  lemma CellsScrolled(m: seq<byte>, n: seq<byte>, base: nat)
    requires base + SCREEN_BYTES <= |m| == |n|
    requires forall i :: base <= i < base + 3680 ==> n[i] == m[i + 160]
    requires forall k :: 0 <= k < 80 ==>
               n[base + 3680 + 2 * k] == BLANK.ch && n[base + 3680 + (2 * k + 1)] == BLANK.attr
    ensures CellsOf(n, base) == Scrolled(CellsOf(m, base))
  {
    var a, b := CellsOf(n, base), Scrolled(CellsOf(m, base));
    forall k | 0 <= k < CELLS ensures a[k] == b[k] {
      if k < CELLS - COLS {
        assert n[base + 2 * k] == m[base + 2 * k + 160];
      } else {
        assert n[base + 3680 + 2 * (k - 1840)] == BLANK.ch;
      }
    }
  }

  /** A terminal_t of the source, without its process id. */
  datatype Terminal = Terminal(buffer: seq<byte>, idx: nat, eol: bool, row: nat, col: nat, mem: nat) {
    predicate Valid() {
      |buffer| == BUFFER && idx <= BUFFER && row < ROWS && col < COLS
    }
  }

  function NewTerminal(mem: nat): (t: Terminal)
    ensures t.Valid()
  {
    Terminal(seq(BUFFER, _ => NUL), 0, false, 0, 0, mem)
  }

  function TypedSpaces(d: Desk, n: nat): (r: Desk)
    requires d.Valid()
    ensures r.Valid()
  {
    if n == 0 then d else Typed(TypedSpaces(d, n - 1), SPACE)
  }

  lemma TypedFour(d: Desk)
    requires d.Valid()
    ensures TypedSpaces(d, 4) == Typed(Typed(Typed(Typed(d, SPACE), SPACE), SPACE), SPACE)
  {
    assert TypedSpaces(d, 2) == Typed(TypedSpaces(d, 1), SPACE);
    assert TypedSpaces(d, 3) == Typed(TypedSpaces(d, 2), SPACE);
  }

  predicate IsBlank(v: View)
    requires v.Valid()
  {
    forall k :: 0 <= k < 1920 ==> v.cells[k] == Cell(32, 10)
  }

  /** The line buffers after an optional store of `c` at position `i` of terminal `t`'s. */
  function LineStored(buffers: seq<seq<byte>>, t: nat, i: int, c: byte, stores: bool): seq<seq<byte>>
    requires t < |buffers| && (stores ==> 0 <= i < |buffers[t]|)
  {
    if stores then
      var line: seq<byte> := buffers[t][i := c];
      buffers[t := line]
    else buffers
  }

  /** Only the buffer of terminal `t` differs, and only where the key stores. */
  ghost predicate OnlyStores(was: seq<seq<byte>>, now: seq<seq<byte>>, t: nat, n: nat, chr: byte, ctrl: bool) {
    && t < |was| == |now| && |was[t]| == |now[t]|
    && (forall u :: 0 <= u < |was| && u != t ==> now[u] == was[u])
    && forall i :: 0 <= i < |now[t]| && now[t][i] != was[t][i] ==> StoresAt(n, chr, ctrl, i)
  }

  lemma LineStoredOnly(was: seq<seq<byte>>, t: nat, i: int, c: byte, stores: bool, n: nat, chr: byte, ctrl: bool)
    requires t < |was| && (stores ==> 0 <= i < |was[t]| && StoresAt(n, chr, ctrl, i))
    ensures OnlyStores(was, LineStored(was, t, i, c, stores), t, n, chr, ctrl)
  {
  }

  lemma StoresTwice(b0: seq<seq<byte>>, b1: seq<seq<byte>>, b2: seq<seq<byte>>, t: nat, n: nat, chr: byte, ctrl: bool)
    requires OnlyStores(b0, b1, t, n, chr, ctrl) && OnlyStores(b1, b2, t, n, chr, ctrl)
    ensures OnlyStores(b0, b2, t, n, chr, ctrl)
  {
    forall i | 0 <= i < |b2[t]| && b2[t][i] != b0[t][i] ensures StoresAt(n, chr, ctrl, i) {
      assert b1[t][i] != b0[t][i] || b2[t][i] != b1[t][i];
    }
  }

  class Console {
    const vram: array<byte>       // frames 0xB8, 0xB9, 0xBA and 0xBB
    const whiteout: array<byte>   // one blank row
    const terms: array<Terminal>
    var entry: nat                // page_table_0[0xB8].addr_31_12
    var userEntry: nat            // user_vidmap_table[0xB8].addr_31_12
    var scheduled: nat
    var visible: nat
    var screenX: nat
    var screenY: nat

    /** Entry 0xB8 is the physical screen or the scheduled terminal's own background, stale or not. */
    ghost predicate Valid()
      reads this, vram, whiteout, terms
    {
      && vram.Length == 16384 && whiteout.Length == 160 && vram != whiteout && terms.Length == TTYS
      && (forall i :: 0 <= i < 160 ==> whiteout[i] == if i % 2 == 0 then BLANK.ch else BLANK.attr)
      && scheduled < TTYS && visible < TTYS
      && (entry == 0xB8 || entry == 0xB8 + 1 + scheduled)
      && (forall t :: 0 <= t < TTYS ==> terms[t].Valid() && terms[t].mem == 0xB9000 + 4096 * t)
    }

    /** The frame that holds terminal `t`'s logical screen. */
    ghost function FrameOf(t: nat): nat
      reads this
    {
      FrameFor(visible, t)
    }

    ghost function ViewOf(t: nat): (v: View)
      requires Valid() && t < TTYS
      reads this, vram, whiteout, terms
      ensures v.Valid()
    {
      View(CellsOf(vram[..], 4096 * FrameOf(t)), terms[t].row, terms[t].col)
    }

    ghost function TtyOf(t: nat): (y: Tty)
      requires Valid() && t < TTYS
      reads this, vram, whiteout, terms
      ensures y.view.Valid()
    {
      Tty(ViewOf(t), terms[t].buffer[..terms[t].idx], terms[t].eol)
    }

    /** What the three users see. */
    ghost function Abs(): (d: Desk)
      requires Valid()
      reads this, vram, whiteout, terms
      ensures d.Valid()
    {
      Desk([TtyOf(0), TtyOf(1), TtyOf(2)], scheduled, visible, entry != 0xB8)
    }

    lemma AbsWith(d: Desk, t: nat, y: Tty)
      requires Valid() && d.Valid() && t < TTYS
      requires scheduled == d.scheduled && visible == d.visible && (entry != 0xB8) == d.shadowed
      requires forall u :: 0 <= u < TTYS && u != t ==> TtyOf(u) == d.ttys[u]
      requires TtyOf(t) == y
      ensures Abs() == d.WithTty(t, y)
    {
    }

    /** Address translation of the video pages, as an index into `vram`. */
    function Phys(va: nat): nat
      requires 0xB7000 <= va < 0xBC000 && entry >= 0xB8
      reads this`entry
    {
      var page := va / 4096;
      var frame := if page == 0xB7 then 0xB8 else if page == 0xB8 then entry else page;
      4096 * (frame - 0xB8) + va % 4096
    }

    method Seek(x: nat, y: nat)
      modifies `screenX, `screenY
      ensures screenX == x && screenY == y
    {
      screenX, screenY := x, y;
    }

    /** putc (base VIDEO) and screen_putc (base PHYS_VIDMEM): store a cell at the seek position. */
    method Putc(base: nat, c: byte, color: byte)
      requires Valid() && screenX < COLS && screenY < ROWS && (base == VIDEO || base == PHYS_VIDMEM)
      modifies vram, `screenX, `screenY
      ensures Valid()
      ensures c in {NEWLINE, RETURN, BACKSPACE, TAB} ==> vram[..] == old(vram[..])
      ensures c !in {NEWLINE, RETURN, BACKSPACE, TAB} ==>
                vram[..] == Stored(old(vram[..]), Phys(base) + 2 * (80 * old(screenY) + old(screenX)), Cell(c, color))
    {
      if c == NEWLINE || c == RETURN {
        screenY := screenY + 1;
        screenX := 0;
      } else if c == BACKSPACE || c == TAB {
      } else {
        var at := Phys(base + 2 * (80 * screenY + screenX));
        vram[at] := c;
        vram[at + 1] := color;
        screenX := screenX + 1;
        screenX := screenX % COLS;
        screenY := (screenY + screenX / COLS) % ROWS;
      }
    }

    /** pan: the terminal's own screen moves up one row, wherever its output currently goes. */
    method Pan(t: nat)
      requires Valid() && t < TTYS
      modifies vram, terms, `screenX, `screenY
      ensures Valid() && OnlyFrame(FrameOf(t), old(vram[..]), vram[..])
      ensures CellsOf(vram[..], 4096 * FrameOf(t)) == Scrolled(old(CellsOf(vram[..], 4096 * FrameOf(t))))
      ensures terms[t] == old(terms[t]).(row := ROWS - 1, col := 0)
      ensures forall u :: 0 <= u < TTYS && u != t ==> terms[u] == old(terms[u])
    {
      var mem := Phys(if t == visible then PHYS_VIDMEM else terms[t].mem);
      assert mem == 4096 * FrameOf(t);
      ghost var m0 := vram[..];
      Memory.Memmove(vram, mem, mem + 160, 3680);
      ghost var m1 := vram[..];
      Memory.Memcpy(vram, mem + 3680, whiteout, 0, 160);
      PanMoves(m0, m1, vram[..], FrameOf(t), whiteout[..]);
      Seek(0, ROWS - 1);
      terms[t] := terms[t].(row := ROWS - 1, col := 0);
    }

    /** A change confined to the frame of `t` leaves the other terminals' screens alone. */
    twostate lemma OthersKept(t: nat)
      requires old(Valid()) && Valid() && t < TTYS
      requires scheduled == old(scheduled) && visible == old(visible) && entry == old(entry)
      requires OnlyFrame(FrameOf(t), old(vram[..]), vram[..])
      requires forall u :: 0 <= u < TTYS && u != t ==> terms[u] == old(terms[u])
      ensures forall u :: 0 <= u < TTYS && u != t ==> TtyOf(u) == old(TtyOf(u))
    {
      forall u | 0 <= u < TTYS && u != t ensures TtyOf(u) == old(TtyOf(u)) {
        CellsElsewhere(old(vram[..]), vram[..], FrameOf(t), FrameOf(u));
      }
    }

    /** The line buffers, whole. */
    ghost function Buffers(): seq<seq<byte>>
      requires terms.Length == TTYS
      reads this, terms
    {
      [terms[0].buffer, terms[1].buffer, terms[2].buffer]
    }

    /** cursor_increment_line: the start of the next row, scrolling after the last one. */
    method CursorIncrementLine(t: nat)
      requires Valid() && t < TTYS
      modifies vram, terms, `screenX, `screenY
      ensures Valid() && forall u :: 0 <= u < TTYS && u != t ==> TtyOf(u) == old(TtyOf(u))
      ensures TtyOf(t) == old(TtyOf(t)).(view := NextRow(old(ViewOf(t)))) && Buffers() == old(Buffers())
    {
      terms[t] := terms[t].(col := 0, row := (terms[t].row + 1) % 24);
      if terms[t].row == 0 {
        Pan(t);
      }
      OthersKept(t);
    }

    /** cursor_increment: one cell on, scrolling at the end of the last row. */
    method CursorIncrement(t: nat)
      requires Valid() && t < TTYS
      modifies vram, terms, `screenX, `screenY
      ensures Valid() && forall u :: 0 <= u < TTYS && u != t ==> TtyOf(u) == old(TtyOf(u))
      ensures TtyOf(t) == old(TtyOf(t)).(view := Advance(old(ViewOf(t)))) && Buffers() == old(Buffers())
    {
      var col := (terms[t].col + 1) % 80;
      var row := if col == 0 then (terms[t].row + 1) % 24 else terms[t].row;
      terms[t] := terms[t].(col := col, row := row);
      if col == 0 && row == 0 {
        Pan(t);
      }
      OthersKept(t);
    }

    /** cursor_decrement: one cell back, or off the screen from the top left corner. */
    method CursorDecrement(t: nat)
      requires Valid() && t < TTYS
      modifies terms
      ensures terms[t].row == Back(CursorOf(old(ViewOf(t)))).row && terms[t].col == Back(CursorOf(old(ViewOf(t)))).col
      ensures terms[t] == old(terms[t]).(row := terms[t].row, col := terms[t].col)
      ensures forall u :: 0 <= u < TTYS && u != t ==> terms[u] == old(terms[u])
      ensures Valid() <==> old(ViewOf(t)).Pos() > 0
      ensures old(ViewOf(t)).Pos() > 0 ==> forall u :: 0 <= u < TTYS && u != t ==> TtyOf(u) == old(TtyOf(u))
      ensures old(ViewOf(t)).Pos() > 0 ==> TtyOf(t) == old(TtyOf(t)).(view := Retreat(old(ViewOf(t))))
    {
      BackOnScreenIff(ViewOf(t));
      ghost var pos := ViewOf(t).Pos();
      if terms[t].col == 0 {
        terms[t] := terms[t].(col := COLS - 1, row := (terms[t].row + 255) % 256);
      } else {
        terms[t] := terms[t].(col := terms[t].col - 1);
      }
      if pos > 0 {
        OthersKept(t);
      }
    }

    /** One iteration of terminal_write's loop, for the visible terminal or for the scheduled process. */
    method WriteByte(t: nat, kernel: bool, c: byte)
      requires Valid() && t < TTYS && (c == BACKSPACE ==> ViewOf(t).Pos() > 0)
      requires if kernel then t == visible else t == scheduled && (entry == 0xB8 ==> t == visible)
      modifies vram, terms, `screenX, `screenY
      ensures Valid() && forall u :: 0 <= u < TTYS && u != t ==> TtyOf(u) == old(TtyOf(u))
      ensures var lost := !kernel && t == visible && entry != 0xB8;
              TtyOf(t) == old(TtyOf(t)).(view := if lost then PutLost(old(ViewOf(t)), c) else Put(old(ViewOf(t)), c))
      ensures Buffers() == old(Buffers())
    {
      var base := if kernel then PHYS_VIDMEM else VIDEO;
      if c == BACKSPACE {
        StepBack(t, base);
      } else if c == NEWLINE || c == RETURN {
        Seek(terms[t].col, terms[t].row);
        Putc(base, NEWLINE, ATTRIB);
        CursorIncrementLine(t);
      } else if c == NUL {
      } else {
        PutCell(t, base, if c == TAB then UNPRINTABLE else c);
        CursorIncrement(t);
      }
    }

    /** The backspace branch: the cursor steps back and the cell there is blanked. */
    method StepBack(t: nat, base: nat)
      requires Valid() && t < TTYS && ViewOf(t).Pos() > 0
      requires base == PHYS_VIDMEM ==> t == visible
      requires base == VIDEO ==> t == scheduled && (entry == 0xB8 ==> t == visible)
      requires base == VIDEO || base == PHYS_VIDMEM
      modifies vram, terms, `screenX, `screenY
      ensures Valid() && forall u :: 0 <= u < TTYS && u != t ==> TtyOf(u) == old(TtyOf(u))
      ensures TtyOf(t) == old(TtyOf(t)).(view :=
                if base == VIDEO && t == visible && entry != 0xB8 then Retreat(old(ViewOf(t)))
                else Drawn(Retreat(old(ViewOf(t))), BLANK))
      ensures Buffers() == old(Buffers())
    {
      CursorDecrement(t);
      PutCell(t, base, SPACE);
      Seek(terms[t].col, terms[t].row);
    }

    /** Store a glyph at the terminal's cursor through `base`; it shows unless `base` reaches another frame. */
    method PutCell(t: nat, base: nat, c: byte)
      requires Valid() && t < TTYS && (base == VIDEO || base == PHYS_VIDMEM)
      requires c !in {NEWLINE, RETURN, BACKSPACE, TAB}
      requires base == PHYS_VIDMEM ==> t == visible
      requires base == VIDEO ==> t == scheduled && (entry == 0xB8 ==> t == visible)
      modifies vram, `screenX, `screenY
      ensures Valid() && forall u :: 0 <= u < TTYS && u != t ==> TtyOf(u) == old(TtyOf(u))
      ensures TtyOf(t) == old(TtyOf(t)).(view :=
                if base == VIDEO && t == visible && entry != 0xB8 then old(ViewOf(t))
                else Drawn(old(ViewOf(t)), Cell(c, ATTRIB)))
    {
      Seek(terms[t].col, terms[t].row);
      Putc(base, c, ATTRIB);
      CellLands(old(vram[..]), vram[..], Phys(base) / 4096, old(ViewOf(t)).Pos(), Cell(c, ATTRIB));
    }

    /** The loop of terminal_write. */
    method WriteBytes(t: nat, kernel: bool, chrs: seq<byte>)
      requires Valid() && t < TTYS && Fits(ViewOf(t), chrs)
      requires if kernel then t == visible else t == scheduled && (entry == 0xB8 ==> t == visible)
      modifies vram, terms, `screenX, `screenY
      ensures Valid() && forall u :: 0 <= u < TTYS && u != t ==> TtyOf(u) == old(TtyOf(u))
      ensures var lost := !kernel && t == visible && entry != 0xB8;
              TtyOf(t) == old(TtyOf(t)).(view := Wrote(old(ViewOf(t)), chrs, lost))
      ensures Buffers() == old(Buffers())
    {
      ghost var v, lost := ViewOf(t), !kernel && t == visible && entry != 0xB8;
      for i := 0 to |chrs|
        invariant Valid() && forall u :: 0 <= u < TTYS && u != t ==> TtyOf(u) == old(TtyOf(u))
        invariant TtyOf(t) == old(TtyOf(t)).(view := Wrote(v, chrs[..i], lost)) && Buffers() == old(Buffers())
      {
        LostCursor(v, v, chrs[..i]);
        WroteMore(v, chrs, i, lost);
        WriteByte(t, kernel, chrs[i]);
      }
      assert chrs[..|chrs|] == chrs;
    }

    /**
     * terminal_write: a process's text goes to the scheduled terminal, the kernel's (fd 100) to
     * the visible one. No other terminal's screen changes, whatever the mapping was.
     */
    method TerminalWrite(fd: int, chrs: seq<byte>) returns (n: nat)
      requires Valid() && Fits(ViewOf(if fd == KERNEL_FD then visible else scheduled), chrs)
      modifies vram, terms, `entry, `screenX, `screenY
      ensures Valid() && n == |chrs| && Buffers() == old(Buffers())
      ensures forall u :: 0 <= u < TTYS && u != (if fd == KERNEL_FD then visible else scheduled) ==>
                TtyOf(u) == old(TtyOf(u))
      ensures fd != KERNEL_FD ==> Abs() == Written(old(Abs()), chrs)
      ensures fd == KERNEL_FD ==>
                Abs() == old(Abs()).Remapped().WithTty(visible,
                                                       old(TtyOf(visible)).(view := PutAll(old(ViewOf(visible)), chrs)))
    {
      ghost var d := Abs();
      Remap();
      var t := if fd == KERNEL_FD then visible else scheduled;
      WriteBytes(t, fd == KERNEL_FD, chrs);
      n := |chrs|;
      AbsWith(d.Remapped(), t, d.ttys[t].(view := Wrote(d.ttys[t].view, chrs, fd != KERNEL_FD && d.Lost())));
    }

    /** A process never writes through a stale physical mapping. */
    method Remap()
      requires Valid()
      modifies `entry
      ensures Valid() && Abs() == old(Abs()).Remapped()
      ensures entry == if scheduled != visible && old(entry) == 0xB8 then 0xB8 + 1 + scheduled else old(entry)
      ensures forall u :: 0 <= u < TTYS ==> TtyOf(u) == old(TtyOf(u))
    {
      if scheduled != visible && entry == 0xB8 {
        entry := 0xB8 + 1 + scheduled;
      }
    }

    /** clear_phys_screen: blank cells on the physical screen. */
    method ClearPhysScreen()
      requires Valid()
      modifies vram, `screenX, `screenY
      ensures Valid() && OnlyFrame(0, old(vram[..]), vram[..]) && CellsOf(vram[..], 0) == Blanks()
    {
      for i := 0 to CELLS
        invariant Valid() && OnlyFrame(0, old(vram[..]), vram[..])
        invariant forall k :: 0 <= k < i ==> vram[2 * k] == BLANK.ch && vram[2 * k + 1] == BLANK.attr
      {
        vram[Phys(PHYS_VIDMEM + 2 * i)] := BLANK.ch;
        vram[Phys(PHYS_VIDMEM + 2 * i + 1)] := BLANK.attr;
      }
      Seek(0, 0);
    }

    /** Copy one frame's screen over another's. */
    method CopyScreen(to: nat, from: nat)
      requires Valid() && to < 4 && from < 4 && to != from
      modifies vram
      ensures Valid() && OnlyFrame(to, old(vram[..]), vram[..])
      ensures CellsOf(vram[..], 4096 * to) == old(CellsOf(vram[..], 4096 * from))
    {
      Memory.Memcpy(vram, 4096 * to, vram, 4096 * from, SCREEN_BYTES);
      CellsCopied(old(vram[..]), vram[..], to, from);
    }

    /** term_switch: what was shown is saved, the new terminal is shown, and no screen changes. */
    method TermSwitch(term: nat)
      requires Valid() && term < TTYS
      modifies vram, `visible, `screenX, `screenY
      ensures Valid() && forall u :: 0 <= u < TTYS ==> TtyOf(u) == old(TtyOf(u))
      ensures Abs() == Switched(old(Abs()), term)
    {
      if term == visible {
        return;
      }
      ghost var d, m0 := Abs(), vram[..];
      CopyScreen(visible + 1, 0);
      ghost var m1 := vram[..];
      ClearPhysScreen();
      ghost var m2 := vram[..];
      CopyScreen(0, term + 1);
      ScreensSwitched(m0, m1, m2, vram[..], visible, term);
      visible := term;
      forall u | 0 <= u < TTYS ensures TtyOf(u) == d.ttys[u] {
        assert FrameOf(u) == FrameFor(term, u);
      }
      AbsWith(Switched(d, term), term, d.ttys[term]);
    }

    /** The video part of pit_handler: the next terminal is scheduled and both mappings follow it. */
    method Tick()
      requires Valid()
      modifies `scheduled, `entry, `userEntry, `screenX, `screenY
      ensures Valid() && Abs() == Ticked(old(Abs())) && scheduled == (old(scheduled) + 1) % 3
      ensures entry == userEntry == 0xB8 + FrameOf(scheduled)
    {
      scheduled := (scheduled + 1) % TTYS;
      if scheduled == visible {
        entry, userEntry := 0xB8, 0xB8;
      } else {
        entry, userEntry := 0xB8 + (scheduled + 1), 0xB8 + (scheduled + 1);
        Seek(terms[scheduled].col, terms[scheduled].row);
      }
    }

    /** terminal_read once Enter has been pressed: the line, cut to `nbytes`, or -1 for a negative count. */
    method TerminalRead(buf: array<byte>, nbytes: int) returns (n: int)
      requires Valid() && terms[scheduled].eol && buf != vram && buf != whiteout && nbytes <= buf.Length
      modifies buf, terms
      ensures Valid()
      ensures nbytes < 0 ==> n == -1 && Abs() == old(Abs()) && buf[..] == old(buf[..])
      ensures nbytes >= 0 ==> Abs() == AfterRead(old(Abs())) && n == |ReadLine(old(Abs()), nbytes)|
      ensures nbytes >= 0 ==> buf[..n] == ReadLine(old(Abs()), nbytes) && buf[n..] == old(buf[n..])
    {
      if nbytes < 0 {
        return -1;
      }
      var t := scheduled;
      ghost var d := Abs();
      n := if terms[t].idx < nbytes then terms[t].idx else nbytes;
      CopyLine(buf, terms[t].buffer, n);
      assert buf[..n] == ReadLine(d, nbytes);
      terms[t] := terms[t].(eol := false, idx := 0);
      AbsWith(d, t, d.ttys[t].(line := [], eol := false));
    }

    static method CopyLine(buf: array<byte>, line: seq<byte>, n: nat)
      requires n <= |line| && n <= buf.Length
      modifies buf
      ensures buf[..n] == line[..n] && buf[n..] == old(buf[n..])
    {
      for i := 0 to n
        invariant forall k :: 0 <= k < i ==> buf[k] == line[k]
        invariant forall k :: i <= k < buf.Length ==> buf[k] == old(buf[k])
      {
        buf[i] := line[i];
      }
    }

    /** Store the edited line of the visible terminal and echo `c`. */
    method Echo(buffer: seq<byte>, idx: nat, c: byte)
      requires Valid() && |buffer| == BUFFER && idx <= BUFFER && (c == BACKSPACE ==> ViewOf(visible).Pos() > 0)
      modifies vram, terms, `entry, `screenX, `screenY
      ensures Valid() && Abs() == Echoed(old(Abs()), buffer[..idx], c)
      ensures Buffers() == old(Buffers())[visible := buffer]
    {
      StoreLine(buffer, idx);
      PutAllSingle(ViewOf(visible), c);
      FitsOne(ViewOf(visible), c);
      var n := TerminalWrite(KERNEL_FD, [c]);
    }

    method StoreLine(buffer: seq<byte>, idx: nat)
      requires Valid() && |buffer| == BUFFER && idx <= BUFFER
      modifies terms
      ensures Valid() && Abs() == old(Abs()).WithTty(visible, old(TtyOf(visible)).(line := buffer[..idx]))
      ensures Buffers() == old(Buffers())[visible := buffer] && ViewOf(visible) == old(ViewOf(visible))
      ensures TtyOf(visible) == old(TtyOf(visible)).(line := buffer[..idx])
    {
      ghost var d := Abs();
      terms[visible] := terms[visible].(buffer := buffer, idx := idx);
      AbsWith(d, visible, d.ttys[visible].(line := buffer[..idx]));
    }

    /** An ordinary character, while there is room for it and a newline. */
    method Type(c: byte)
      requires Valid() && c != BACKSPACE
      modifies vram, terms, `entry, `screenX, `screenY
      ensures Valid() && Abs() == Typed(old(Abs()), c)
      ensures var n := old(terms[visible].idx);
              Buffers() == LineStored(old(Buffers()), visible, n, c, n < 126)
      ensures terms[visible].idx == old(terms[visible].idx) + if old(terms[visible].idx) < 126 then 1 else 0
    {
      var input := terms[visible];
      if input.idx < BUFFER - 2 {
        var buffer := input.buffer[input.idx := c];
        assert buffer[..input.idx + 1] == input.buffer[..input.idx] + [c];
        Echo(buffer, input.idx + 1, c);
        assert terms[visible].idx == |TtyOf(visible).line| == |Abs().ttys[visible].line|;
      }
    }

    method Enter()
      requires Valid() && terms[visible].idx < BUFFER
      modifies vram, terms, `entry, `screenX, `screenY
      ensures Valid() && Abs() == Entered(old(Abs()))
      ensures Buffers() == LineStored(old(Buffers()), visible, old(terms[visible].idx), NEWLINE, true)
    {
      var input := terms[visible];
      var buffer := input.buffer[input.idx := NEWLINE];
      assert buffer[..input.idx + 1] == input.buffer[..input.idx] + [NEWLINE];
      Echo(buffer, input.idx + 1, NEWLINE);
      MarkEnd();
    }

    method MarkEnd()
      requires Valid()
      modifies terms
      ensures Valid() && Abs() == old(Abs()).WithTty(visible, old(TtyOf(visible)).(eol := true))
      ensures Buffers() == old(Buffers())
    {
      ghost var d := Abs();
      terms[visible] := terms[visible].(eol := true);
      AbsWith(d, visible, d.ttys[visible].(eol := true));
    }

    method Erase()
      requires Valid() && (terms[visible].idx != 0 ==> ViewOf(visible).Pos() > 0)
      modifies vram, terms, `entry, `screenX, `screenY
      ensures Valid() && Abs() == Erased(old(Abs()))
      ensures var n: int := old(terms[visible].idx);
              Buffers() == LineStored(old(Buffers()), visible, n - 1, SPACE, n > 0)
    {
      var input := terms[visible];
      if input.idx != 0 {
        var buffer := input.buffer[input.idx - 1 := SPACE];
        assert buffer[..input.idx - 1] == Front(input.buffer[..input.idx]);
        Echo(buffer, input.idx - 1, BACKSPACE);
      }
    }

    method Clear()
      requires Valid()
      modifies vram, `screenX, `screenY
      ensures Valid() && Abs() == Cleared(old(Abs()))
      ensures IsBlank(ViewOf(visible)) && terms[..] == old(terms[..])
      ensures forall u :: 0 <= u < TTYS && u != visible ==> TtyOf(u) == old(TtyOf(u))
    {
      ghost var d, m := Abs(), vram[..];
      ClearPhysScreen();
      forall u | 0 <= u < TTYS && u != visible ensures TtyOf(u) == d.ttys[u] {
        CellsElsewhere(m, vram[..], 0, FrameOf(u));
      }
      AbsWith(d, visible, d.ttys[visible].(view := View(Blanks(), terms[visible].row, terms[visible].col)));
    }

    /** keyboard_handler, from the decoded character on. */
    method KeyboardHandler(chr: byte, control: bool)
      requires Valid() && Safe(Abs(), Key(chr, control))
      modifies vram, terms, `visible, `entry, `screenX, `screenY
      ensures Valid() && Abs() == Pressed(old(Abs()), chr, control)
      ensures OnlyStores(old(Buffers()), Buffers(), old(visible), old(terms[visible].idx), chr, control)
      ensures control && (chr == 108 || chr == 76) ==> IsBlank(ViewOf(visible)) && terms[..] == old(terms[..])
    {
      if chr == ESCAPE || chr == NUL {
      } else if F1 <= chr <= F3 {
        TermSwitch(chr - F1);
      } else if IsClear(chr, control) {
        Clear();
      } else if IsInterrupt(chr, control) {
      } else {
        EditKey(chr, control);
      }
    }

    /** The keys that edit the line. */
    method EditKey(chr: byte, control: bool)
      requires Valid() && Safe(Abs(), Key(chr, control))
      requires chr != ESCAPE && chr != NUL && !(F1 <= chr <= F3) && !IsClear(chr, control) && !IsInterrupt(chr, control)
      modifies vram, terms, `entry, `screenX, `screenY
      ensures Valid() && Abs() == Pressed(old(Abs()), chr, control)
      ensures OnlyStores(old(Buffers()), Buffers(), visible, old(terms[visible].idx), chr, control)
    {
      ghost var was, n: int := Buffers(), terms[visible].idx;
      if chr == NEWLINE {
        Enter();
        LineStoredOnly(was, visible, n, NEWLINE, true, n, chr, control);
      } else if chr == TAB {
        Tab(control);
      } else if chr == BACKSPACE || chr == DELETE {
        Erase();
        LineStoredOnly(was, visible, n - 1, SPACE, n > 0, n, chr, control);
      } else {
        Type(chr);
        LineStoredOnly(was, visible, n, chr, n < 126, n, chr, control);
      }
    }

    /** Up to four spaces; the room is checked before each. */
    method Tab(ghost control: bool)
      requires Valid()
      modifies vram, terms, `entry, `screenX, `screenY
      ensures Valid() && Abs() == Typed(Typed(Typed(Typed(old(Abs()), SPACE), SPACE), SPACE), SPACE)
      ensures OnlyStores(old(Buffers()), Buffers(), visible, old(terms[visible].idx), TAB, control)
    {
      ghost var d, was, n := Abs(), Buffers(), terms[visible].idx;
      for i := 0 to 4
        invariant Valid() && Abs() == TypedSpaces(d, i) && n <= terms[visible].idx <= n + i
        invariant OnlyStores(was, Buffers(), visible, n, TAB, control)
      {
        ghost var now, idx := Buffers(), terms[visible].idx;
        Type(SPACE);
        LineStoredOnly(now, visible, idx, SPACE, idx < 126, n, TAB, control);
        StoresTwice(was, now, Buffers(), visible, n, TAB, control);
      }
      assert Abs() == TypedSpaces(old(Abs()), 4);
      TypedFour(old(Abs()));
    }

    /** One event of a run. */
    method Handle(e: Event)
      requires Valid() && Safe(Abs(), e)
      modifies this, vram, terms
      ensures Valid() && Abs() == Step(old(Abs()), e)
      ensures scheduled == Next(old(scheduled), e)
    {
      match e
      case Tick => Tick();
      case Write(text) => var n := TerminalWrite(1, text);
      case Key(chr, ctrl) =>
        assert TtyOf(visible) == Abs().ttys[visible];
        KeyboardHandler(chr, ctrl);
      case Read(nbytes) =>
        var buf := new byte[nbytes];
        var n := TerminalRead(buf, nbytes);
    }

    /** The handlers refine the three independent terminals over every safe run, and ticks go round all three. */
    method HandleAll(es: seq<Event>)
      requires Valid() && SafeRun(Abs(), es)
      modifies this, vram, terms
      ensures Valid() && Abs() == Run(old(Abs()), es)
      ensures scheduled == Round(old(scheduled), TickCount(es))
    {
      ghost var d, first := Abs(), scheduled;
      for i := 0 to |es|
        invariant Valid() && Abs() == Run(d, es[..i]) && scheduled == Round(first, TickCount(es[..i]))
      {
        HandleAt(es, i, d, first);
      }
      assert es[..|es|] == es;
    }

    /** The i-th event of a run. */
    method HandleAt(es: seq<Event>, i: nat, ghost d: Desk, ghost first: nat)
      requires Valid() && d.Valid() && SafeRun(d, es) && i < |es| && first < 3
      requires Abs() == Run(d, es[..i]) && scheduled == Round(first, TickCount(es[..i]))
      modifies this, vram, terms
      ensures Valid() && Abs() == Run(d, es[..i + 1]) && scheduled == Round(first, TickCount(es[..i + 1]))
    {
      SafeAt(d, es, i);
      RoundMore(first, es, i);
      Handle(es[i]);
    }

    /** init_terms after init_paging: three blank screens, the third terminal scheduled, the first visible. */
    constructor ()
      ensures Valid() && Abs() == Boot() && userEntry == 0xB8
      ensures fresh(vram) && fresh(whiteout) && fresh(terms)
    {
      vram := new byte[16384];
      whiteout := new byte[160](i => if i % 2 == 0 then BLANK.ch else BLANK.attr);
      terms := new Terminal[3](i requires 0 <= i => NewTerminal(0xB9000 + 4096 * i));
      entry, userEntry, scheduled, visible := 0xB8, 0xB8, 2, 0;
      screenX, screenY := 0, 0;
      new;
      ClearPhysScreen();
      BlankBackgrounds();
      BootAbs();
    }

    lemma BootAbs()
      requires Valid() && scheduled == 2 && visible == 0 && entry == 0xB8
      requires forall t :: 0 <= t < TTYS ==> terms[t] == NewTerminal(0xB9000 + 4096 * t)
      requires forall g :: 0 <= g < 4 ==> CellsOf(vram[..], 4096 * g) == Blanks()
      ensures Abs() == Boot()
    {
      forall t | 0 <= t < TTYS ensures TtyOf(t) == Tty(Empty(), [], false) {
        assert terms[t].buffer[..0] == [];
      }
    }

    method BlankBackgrounds()
      requires Valid() && CellsOf(vram[..], 0) == Blanks()
      modifies vram
      ensures Valid() && forall g :: 0 <= g < 4 ==> CellsOf(vram[..], 4096 * g) == Blanks()
    {
      for t := 0 to TTYS
        invariant Valid() && forall g :: 0 <= g <= t ==> CellsOf(vram[..], 4096 * g) == Blanks()
      {
        ghost var m := vram[..];
        BlankFrame(terms[t].mem);
        forall g | 0 <= g <= t ensures CellsOf(vram[..], 4096 * g) == CellsOf(m, 4096 * g) {
          CellsElsewhere(m, vram[..], t + 1, g);
        }
      }
    }

    /** Whiteout of a background frame, bottom row first. */
    method BlankFrame(mem: nat)
      requires Valid() && 0xB9000 <= mem <= 0xBB000 && mem % 4096 == 0
      modifies vram
      ensures Valid() && OnlyFrame(mem / 4096 - 0xB8, old(vram[..]), vram[..])
      ensures CellsOf(vram[..], mem - 0xB8000) == Blanks()
    {
      var base := Phys(mem);
      for j := 0 to ROWS
        invariant Valid() && OnlyFrame(mem / 4096 - 0xB8, old(vram[..]), vram[..])
        invariant forall k :: 1920 - 80 * j <= k < 1920 ==>
                    vram[base + 2 * k] == BLANK.ch && vram[base + (2 * k + 1)] == BLANK.attr
      {
        Memory.Memcpy(vram, base + (23 - j) * 160, whiteout, 0, 160);
      }
    }
  }

  function Wrote(v: View, text: seq<byte>, lost: bool): (r: View)
    requires v.Valid()
    ensures r.Valid()
  {
    if lost then PutAllLost(v, text) else PutAll(v, text)
  }

  lemma FitsOne(v: View, c: byte)
    requires v.Valid() && (c == BACKSPACE ==> v.Pos() > 0)
    ensures Fits(v, [c])
  {
    assert [c][..0] == [];
  }

  lemma WroteMore(v: View, text: seq<byte>, i: nat, lost: bool)
    requires v.Valid() && i < |text|
    ensures Wrote(v, text[..i + 1], lost) ==
            if lost then PutLost(Wrote(v, text[..i], lost), text[i]) else Put(Wrote(v, text[..i], lost), text[i])
  {
    assert Front(text[..i + 1]) == text[..i];
  }

  /** A cell stored in frame `f` changes the screen in that frame and no other. */
  lemma CellLands(m: seq<byte>, n: seq<byte>, f: nat, p: nat, c: Cell)
    requires |m| == 16384 && f < 4 && p < CELLS && n == Stored(m, 4096 * f + 2 * p, c)
    ensures forall g :: 0 <= g < 4 ==>
              CellsOf(n, 4096 * g) == if g == f then CellsOf(m, 4096 * g)[p := c] else CellsOf(m, 4096 * g)
  {
    CellsStored(m, n, 4096 * f, p, c);
    forall g | 0 <= g < 4 && g != f ensures CellsOf(n, 4096 * g) == CellsOf(m, 4096 * g) {
      CellsElsewhere(m, n, f, g);
    }
  }

  lemma CellsCopied(m: seq<byte>, n: seq<byte>, to: nat, from: nat)
    requires |m| == 16384 && to < 4 && from < 4 && Memory.Copied(n, m, 4096 * to, m, 4096 * from, SCREEN_BYTES)
    ensures OnlyFrame(to, m, n) && CellsOf(n, 4096 * to) == CellsOf(m, 4096 * from)
  {
    forall k | 0 <= k < CELLS ensures CellsOf(n, 4096 * to)[k] == CellsOf(m, 4096 * from)[k] {
      assert n[4096 * to + 2 * k] == m[4096 * from + 2 * k];
      assert n[4096 * to + 2 * k + 1] == m[4096 * from + 2 * k + 1];
    }
  }

  /** Saving frame 0 in the background of `before` and showing that of `after` permutes the logical frames. */
  lemma ScreensSwitched(m0: seq<byte>, m1: seq<byte>, m2: seq<byte>, m3: seq<byte>, before: nat, after: nat)
    requires |m0| == 16384 && before < TTYS && after < TTYS && before != after
    requires OnlyFrame(before + 1, m0, m1) && CellsOf(m1, 4096 * (before + 1)) == CellsOf(m0, 0)
    requires OnlyFrame(0, m1, m2)
    requires OnlyFrame(0, m2, m3) && CellsOf(m3, 0) == CellsOf(m2, 4096 * (after + 1))
    ensures forall t :: 0 <= t < TTYS ==>
              CellsOf(m3, 4096 * FrameFor(after, t)) == CellsOf(m0, 4096 * FrameFor(before, t))
  {
    forall g | 1 <= g < 4 ensures CellsOf(m3, 4096 * g) == CellsOf(m1, 4096 * g) == CellsOf(m2, 4096 * g) {
      CellsElsewhere(m1, m2, 0, g);
      CellsElsewhere(m2, m3, 0, g);
    }
    forall g | 0 <= g < 4 && g != before + 1 ensures CellsOf(m1, 4096 * g) == CellsOf(m0, 4096 * g) {
      CellsElsewhere(m0, m1, before + 1, g);
    }
  }

  lemma PanMoves(m0: seq<byte>, m1: seq<byte>, m2: seq<byte>, f: nat, white: seq<byte>)
    requires f < 4 && |m0| == 16384 && |white| == 160
    requires forall i :: 0 <= i < 160 ==> white[i] == if i % 2 == 0 then BLANK.ch else BLANK.attr
    requires Memory.Copied(m1, m0, 4096 * f, m0, 4096 * f + 160, 3680)
    requires Memory.Copied(m2, m1, 4096 * f + 3680, white, 0, 160)
    ensures OnlyFrame(f, m0, m2) && CellsOf(m2, 4096 * f) == Scrolled(CellsOf(m0, 4096 * f))
  {
    var base := 4096 * f;
    forall i | 0 <= i < |m0| && i / 4096 != f ensures m0[i] == m2[i] {}
    forall k | 0 <= k < 80
      ensures m2[base + 3680 + 2 * k] == BLANK.ch && m2[base + 3680 + (2 * k + 1)] == BLANK.attr
    {
      assert white[2 * k] == BLANK.ch && white[2 * k + 1] == BLANK.attr;
    }
    CellsScrolled(m0, m2, base);
  }

  /**
   * A whole session from boot: each terminal's own frame ends up with the last 24 rows of the layout
   * of everything written to that terminal, if nothing of it was lost or cleared.
   */
  method Session(es: seq<Event>) returns (c: Console)
    requires SafeRun(Boot(), es)
    ensures fresh(c) && c.Valid() && c.Abs() == Run(Boot(), es)
    ensures forall t :: 0 <= t < TTYS && ShownRun(Boot(), es) && BACKSPACE !in Transcript(Boot(), es, t) ==>
              && |Last(Rows(Glyphs(Transcript(Boot(), es, t)), COLS))| < COLS
              && c.ViewOf(t) == Page(Rows(Glyphs(Transcript(Boot(), es, t)), COLS))
  {
    c := new Console();
    c.HandleAll(es);
    forall t | 0 <= t < TTYS && ShownRun(Boot(), es) && BACKSPACE !in Transcript(Boot(), es, t)
      ensures |Last(Rows(Glyphs(Transcript(Boot(), es, t)), COLS))| < COLS
      ensures c.ViewOf(t) == Page(Rows(Glyphs(Transcript(Boot(), es, t)), COLS))
    {
      RunShowsLayout(es, t);
      assert c.TtyOf(t) == c.Abs().ttys[t];
    }
  }
}
