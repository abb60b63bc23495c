/** The three terminals as a user sees them: independent screens, one scheduled, one visible. */
module Terminals {
  import opened Basics
  import opened Text
  import opened Screen

  const TTYS: nat := 3
  const LINE_MAX: nat := 126
  const BUFFER: nat := 128
  const ESCAPE: byte := 27
  const DELETE: byte := 127
  const SPACE: byte := 32
  const F1: byte := 0x3b
  const F3: byte := 0x3d

  /** A terminal: its screen, the line being edited, and whether Enter has been pressed. */
  datatype Tty = Tty(view: View, line: seq<byte>, eol: bool)

  /** `shadowed`: the remappable video page is a background frame, not the physical one. */
  datatype Desk = Desk(ttys: seq<Tty>, scheduled: nat, visible: nat, shadowed: bool) {
    predicate Valid() {
      && |ttys| == TTYS && scheduled < TTYS && visible < TTYS
      && (forall t :: 0 <= t < TTYS ==> ttys[t].view.Valid())
    }

    /** Process output misses the screen: its terminal was made visible after its video page was chosen. */
    predicate Lost() {
      shadowed && scheduled == visible
    }

    /** terminal_write first moves a stale physical mapping to the scheduled terminal's frame. */
    function Remapped(): Desk {
      this.(shadowed := shadowed || scheduled != visible)
    }

    function WithTty(t: nat, y: Tty): Desk
      requires t < |ttys|
    {
      this.(ttys := ttys[t := y])
    }
  }

  function Boot(): (d: Desk)
    ensures d.Valid()
  {
    var y := Tty(Empty(), [], false);
    Desk([y, y, y], 2, 0, false)
  }

  datatype Event =
    | Tick
    | Write(text: seq<byte>)         // by the scheduled process
    | Key(chr: byte, ctrl: bool)     // a decoded key, for the visible terminal
    | Read(nbytes: nat)              // completed by the scheduled process

  function Ticked(d: Desk): (r: Desk)
    requires d.Valid()
    ensures r.Valid()
  {
    var s := (d.scheduled + 1) % TTYS;
    d.(scheduled := s, shadowed := s != d.visible)
  }

  function Written(d: Desk, text: seq<byte>): (r: Desk)
    requires d.Valid()
    ensures r.Valid()
  {
    var y := d.ttys[d.scheduled];
    var v := if d.Lost() then PutAllLost(y.view, text) else PutAll(y.view, text);
    d.Remapped().WithTty(d.scheduled, y.(view := v))
  }

  function Switched(d: Desk, t: nat): (r: Desk)
    requires d.Valid() && t < TTYS
    ensures r.Valid()
  {
    d.(visible := t)
  }

  /** The visible line becomes `line` and `c` is echoed. */
  function Echoed(d: Desk, line: seq<byte>, c: byte): (r: Desk)
    requires d.Valid()
    ensures r.Valid()
  {
    var y := d.ttys[d.visible];
    d.Remapped().WithTty(d.visible, y.(view := Put(y.view, c), line := line))
  }

  /** A character is accepted while there is room for it and a newline. */
  function Typed(d: Desk, c: byte): (r: Desk)
    requires d.Valid()
    ensures r.Valid()
  {
    var line := d.ttys[d.visible].line;
    if |line| < LINE_MAX then Echoed(d, line + [c], c) else d
  }

  function Entered(d: Desk): (r: Desk)
    requires d.Valid()
    ensures r.Valid()
  {
    var e := Echoed(d, d.ttys[d.visible].line + [NEWLINE], NEWLINE);
    e.WithTty(e.visible, e.ttys[e.visible].(eol := true))
  }

  function Erased(d: Desk): (r: Desk)
    requires d.Valid()
    ensures r.Valid()
  {
    var line := d.ttys[d.visible].line;
    if line == [] then d else Echoed(d, Front(line), BACKSPACE)
  }

  /** Ctrl-L blanks the visible screen and leaves its cursor where it is. */
  function Cleared(d: Desk): (r: Desk)
    requires d.Valid()
    ensures r.Valid()
  {
    var y := d.ttys[d.visible];
    d.WithTty(d.visible, y.(view := View(Blanks(), y.view.row, y.view.col)))
  }

  predicate IsErase(chr: byte) {
    chr == BACKSPACE || chr == DELETE
  }

  predicate IsClear(chr: byte, ctrl: bool) {
    ctrl && (chr == 'l' as int || chr == 'L' as int)
  }

  predicate IsInterrupt(chr: byte, ctrl: bool) {
    ctrl && (chr == 'c' as int || chr == 'C' as int)
  }

  function Pressed(d: Desk, chr: byte, ctrl: bool): (r: Desk)
    requires d.Valid()
    ensures r.Valid()
  {
    if chr == ESCAPE || chr == NUL then d
    else if F1 <= chr <= F3 then Switched(d, chr - F1)
    else if chr == NEWLINE then Entered(d)
    else if chr == TAB then Typed(Typed(Typed(Typed(d, SPACE), SPACE), SPACE), SPACE)
    else if IsErase(chr) then Erased(d)
    else if IsClear(chr, ctrl) then Cleared(d)
    else if IsInterrupt(chr, ctrl) then d
    else Typed(d, chr)
  }

  /** A completed read of the scheduled terminal's line, cut to `nbytes`; the rest is dropped. */
  function ReadLine(d: Desk, nbytes: nat): seq<byte>
    requires d.Valid()
  {
    var line := d.ttys[d.scheduled].line;
    if |line| < nbytes then line else line[..nbytes]
  }

  function AfterRead(d: Desk): (r: Desk)
    requires d.Valid()
    ensures r.Valid()
  {
    d.WithTty(d.scheduled, d.ttys[d.scheduled].(line := [], eol := false))
  }

  function Step(d: Desk, e: Event): (r: Desk)
    requires d.Valid()
    ensures r.Valid()
  {
    match e
    case Tick => Ticked(d)
    case Write(text) => Written(d, text)
    case Key(chr, ctrl) => Pressed(d, chr, ctrl)
    case Read(_) => AfterRead(d)
  }

  function Run(d: Desk, es: seq<Event>): (r: Desk)
    requires d.Valid()
    ensures r.Valid()
  {
    if es == [] then d else Step(Run(d, Front(es)), Last(es))
  }

  // ---- Round robin --------------------------------------------------------------------

  function TickCount(es: seq<Event>): nat {
    if es == [] then 0 else TickCount(Front(es)) + if Last(es).Tick? then 1 else 0
  }

  /** Over any run the scheduled terminal advances by one, round all three, with every tick and nothing else. */
  lemma {:induction false} Rotates(d: Desk, es: seq<Event>)
    requires d.Valid()
    ensures Run(d, es).scheduled == (d.scheduled + TickCount(es)) % 3
  {
    if es != [] {
      Rotates(d, Front(es));
      StepSchedule(Run(d, Front(es)), Last(es));
      NextInRound(d.scheduled, TickCount(Front(es)));
    }
  }

  /** The terminal `n` ticks after terminal `s`. */
  function Round(s: nat, n: nat): nat {
    if n == 0 then s else (Round(s, n - 1) + 1) % 3
  }

  lemma {:induction false} RoundIs(s: nat, n: nat)
    requires s < 3
    ensures Round(s, n) == (s + n) % 3
  {
    if n > 0 {
      RoundIs(s, n - 1);
      NextInRound(s, n - 1);
    }
  }

  function Next(t: nat, e: Event): nat {
    if e.Tick? then (t + 1) % 3 else t
  }

  lemma RoundMore(s: nat, es: seq<Event>, i: nat)
    requires i < |es|
    ensures Round(s, TickCount(es[..i + 1])) == Next(Round(s, TickCount(es[..i])), es[i])
  {
    assert Front(es[..i + 1]) == es[..i];
  }

  lemma StepSchedule(d: Desk, e: Event)
    requires d.Valid()
    ensures Step(d, e).scheduled == if e.Tick? then (d.scheduled + 1) % 3 else d.scheduled
  {
  }

  lemma NextInRound(s: nat, n: nat)
    ensures ((s + n) % 3 + 1) % 3 == (s + (n + 1)) % 3
  {
  }

  /** The number of ticks, one to three, that take the schedule from `s` to `t`. */
  function TicksTo(s: nat, t: nat): (n: nat)
    requires s < 3 && t < 3
    ensures 1 <= n <= 3 && (s + n) % 3 == t
  {
    if t > s then t - s else t + 3 - s
  }

  lemma {:induction false} SomeCount(es: seq<Event>, n: nat) returns (i: nat)
    requires n <= TickCount(es)
    ensures i <= |es| && TickCount(es[..i]) == n
  {
    if n == TickCount(es) {
      i := |es|;
      assert es[..i] == es;
    } else {
      i := SomeCount(Front(es), n);
      assert Front(es)[..i] == es[..i];
    }
  }

  /** A run with three ticks schedules every terminal. */
  lemma EveryTerminalRuns(d: Desk, es: seq<Event>, t: nat) returns (i: nat)
    requires d.Valid() && t < 3 && TickCount(es) >= 3
    ensures i <= |es| && TickCount(es[..i]) > 0 && Run(d, es[..i]).scheduled == t
  {
    var n := TicksTo(d.scheduled, t);
    i := SomeCount(es, n);
    var some := es[..i];
    assert TickCount(some) == n;
    Rotates(d, some);
  }

  // ---- Single keys --------------------------------------------------------------------

  /** Ctrl-L leaves 1920 blank cells on the visible screen and everything else as it was. */
  lemma ControlLClears(d: Desk, chr: byte)
    requires d.Valid() && (chr == 108 || chr == 76)
    ensures var r := Pressed(d, chr, true);
            var y, was := r.ttys[d.visible], d.ttys[d.visible];
            && |y.view.cells| == 1920 && (forall k :: 0 <= k < 1920 ==> y.view.cells[k] == Cell(32, 10))
            && y.view.row == was.view.row && y.view.col == was.view.col && y.line == was.line && y.eol == was.eol
            && (forall t :: 0 <= t < 3 && t != d.visible ==> r.ttys[t] == d.ttys[t])
            && r.scheduled == d.scheduled && r.visible == d.visible && r.shadowed == d.shadowed
  {
  }

  /** Escape, undecoded keys and Ctrl-C change nothing here; 0x3b to 0x3d show terminals 0 to 2 and do nothing else. */
  lemma KeysThatDoNotEdit(d: Desk, ctrl: bool, t: nat)
    requires d.Valid() && t < 3
    ensures Pressed(d, 0, ctrl) == Pressed(d, 27, ctrl) == d
    ensures Pressed(d, 99, true) == Pressed(d, 67, true) == d
    ensures Pressed(d, 0x3b + t, ctrl) == d.(visible := t)
  {
  }

  /** Which bytes a key adds to a line of `n` characters, and that 8 and 127 take one away. */
  lemma KeysThatEdit(d: Desk, chr: byte, ctrl: bool)
    requires d.Valid() && chr !in {0, 27, 0x3b, 0x3c, 0x3d} && !(ctrl && chr in {99, 67, 108, 76})
    ensures var y, was := Pressed(d, chr, ctrl).ttys[d.visible], d.ttys[d.visible];
            var n := |was.line|;
            && (chr == 10 ==> y.line == was.line + [10] && y.eol)
            && (chr in {8, 127} ==> n > 0 ==> y.line == was.line[..n - 1])
            && (chr in {8, 127} ==> n == 0 ==> Pressed(d, chr, ctrl) == d)
            && (chr == 9 && n <= 122 ==> y.line == was.line + [32, 32, 32, 32])
            && (chr == 9 && 122 < n < 126 ==> y.line == was.line + [32, 32, 32, 32][..126 - n])
            && (chr !in {8, 9, 10, 127} && n < 126 ==> y.line == was.line + [chr])
            && (chr !in {8, 10, 127} && n >= 126 ==> y.line == was.line)
            && (chr != 10 ==> y.eol == was.eol)
  {
    KeyEdits(d, chr, ctrl, d.visible);
    if chr == TAB {
      FourSpaces(d.ttys[d.visible].line);
    }
  }

  lemma FourSpaces(line: seq<byte>)
    ensures var r, n := Appended(Appended(Appended(Appended(line, 32), 32), 32), 32), |line|;
            r == if n >= 126 then line else line + [32, 32, 32, 32][..if n <= 122 then 4 else 126 - n]
  {
    var n := |line|;
    assert line + [32] + [32] == line + [32, 32];
    assert line + [32, 32] + [32] == line + [32, 32, 32];
    assert line + [32, 32, 32] + [32] == line + [32, 32, 32, 32];
    assert [32, 32, 32, 32][..4] == [32, 32, 32, 32] && [32, 32, 32, 32][..3] == [32, 32, 32];
    assert [32, 32, 32, 32][..2] == [32, 32] && [32, 32, 32, 32][..1] == [32];
  }

  /** A key acts on the visible terminal and a process's output on the scheduled one. */
  lemma OthersUntouched(d: Desk, chr: byte, ctrl: bool, text: seq<byte>, t: nat)
    requires d.Valid() && t < 3
    ensures t != d.visible ==> Pressed(d, chr, ctrl).ttys[t] == d.ttys[t]
    ensures t != d.scheduled ==> Written(d, text).ttys[t] == d.ttys[t]
  {
  }

  // ---- Safety over whole runs ---------------------------------------------------------

  /** No backspace, a process's or an erase's, finds the cursor at the top left corner. */
  predicate BackspacesFit(d: Desk, e: Event)
    requires d.Valid()
  {
    match e
    case Write(text) => Fits(d.ttys[d.scheduled].view, text)
    case Key(chr, _) => IsErase(chr) && d.ttys[d.visible].line != [] ==> d.ttys[d.visible].view.Pos() > 0
    case _ => true
  }

  /** An Enter finds room in the line buffer. */
  predicate EnterFits(d: Desk, e: Event)
    requires d.Valid()
  {
    e.Key? && e.chr == NEWLINE ==> |d.ttys[d.visible].line| < BUFFER
  }

  /** A read completes only after Enter. */
  predicate ReadWaits(d: Desk, e: Event)
    requires d.Valid()
  {
    e.Read? ==> d.ttys[d.scheduled].eol
  }

  /** The event stays within the line buffers and the screens, and a read has waited for Enter. */
  predicate Safe(d: Desk, e: Event)
    requires d.Valid()
  {
    BackspacesFit(d, e) && EnterFits(d, e) && ReadWaits(d, e)
  }

  predicate SafeRun(d: Desk, es: seq<Event>)
    requires d.Valid()
  {
    es == [] || (SafeRun(d, Front(es)) && Safe(Run(d, Front(es)), Last(es)))
  }

  /** Every event of a safe run is safe where it happens. */
  lemma {:induction false} SafeAt(d: Desk, es: seq<Event>, i: nat)
    requires d.Valid() && SafeRun(d, es) && i < |es|
    ensures SafeRun(d, es[..i]) && Safe(Run(d, es[..i]), es[i])
    ensures Run(d, es[..i + 1]) == Step(Run(d, es[..i]), es[i])
  {
    assert es[..i + 1] == es[..i] + [es[i]] && Front(es[..i + 1]) == es[..i];
    if i == |es| - 1 {
      assert Front(es) == es[..i];
    } else {
      SafeAt(d, Front(es), i);
      assert Front(es)[..i] == es[..i];
    }
  }

  /** Processes write no backspace, and a read has waited for Enter. */
  predicate Tidy(d: Desk, e: Event)
    requires d.Valid()
  {
    (e.Write? ==> BACKSPACE !in e.text) && ReadWaits(d, e)
  }

  predicate TidyRun(d: Desk, es: seq<Event>)
    requires d.Valid()
  {
    es == [] || (TidyRun(d, Front(es)) && Tidy(Run(d, Front(es)), Last(es)))
  }

  /** Besides, each Enter finds room. */
  predicate Polite(d: Desk, e: Event)
    requires d.Valid()
  {
    Tidy(d, e) && EnterFits(d, e)
  }

  predicate PoliteRun(d: Desk, es: seq<Event>)
    requires d.Valid()
  {
    es == [] || (PoliteRun(d, Front(es)) && Polite(Run(d, Front(es)), Last(es)))
  }

  /** The line fits its buffer, and the cursor is at least as far from the corner as the line is long. */
  predicate Roomy(y: Tty) {
    |y.line| <= BUFFER && |y.line| <= y.view.Pos()
  }

  predicate AllRoomy(d: Desk)
    requires d.Valid()
  {
    forall t :: 0 <= t < TTYS ==> Roomy(d.ttys[t])
  }

  lemma TypedRoomy(d: Desk, c: byte)
    requires d.Valid() && AllRoomy(d) && c != BACKSPACE && c != NUL
    ensures AllRoomy(Typed(d, c))
  {
  }

  lemma TabRoomy(d: Desk)
    requires d.Valid() && AllRoomy(d)
    ensures AllRoomy(Typed(Typed(Typed(Typed(d, SPACE), SPACE), SPACE), SPACE))
  {
    TypedRoomy(d, SPACE);
    TypedRoomy(Typed(d, SPACE), SPACE);
    TypedRoomy(Typed(Typed(d, SPACE), SPACE), SPACE);
    TypedRoomy(Typed(Typed(Typed(d, SPACE), SPACE), SPACE), SPACE);
  }

  lemma EnteredRoomy(d: Desk)
    requires d.Valid() && AllRoomy(d) && |d.ttys[d.visible].line| < BUFFER
    ensures AllRoomy(Entered(d))
  {
  }

  lemma ErasedRoomy(d: Desk)
    requires d.Valid() && AllRoomy(d)
    ensures AllRoomy(Erased(d))
  {
  }

  lemma PressedRoomy(d: Desk, chr: byte, ctrl: bool)
    requires d.Valid() && AllRoomy(d) && (chr == NEWLINE ==> |d.ttys[d.visible].line| < BUFFER)
    ensures AllRoomy(Pressed(d, chr, ctrl))
  {
    if chr == TAB {
      TabRoomy(d);
    } else if chr == NEWLINE {
      EnteredRoomy(d);
    } else if IsErase(chr) {
      ErasedRoomy(d);
    } else if chr != NUL {
      TypedRoomy(d, chr);
    }
  }

  lemma StepRoomy(d: Desk, e: Event)
    requires d.Valid() && AllRoomy(d) && Polite(d, e)
    ensures AllRoomy(Step(d, e))
  {
    match e
    case Tick =>
    case Read(_) =>
    case Write(text) =>
      var y := d.ttys[d.scheduled];
      PutAllAhead(y.view, text, |y.line|);
    case Key(chr, ctrl) =>
      PressedRoomy(d, chr, ctrl);
  }

  /**
   * In every polite run from boot, cursors stay on screen, lines fit their buffers, and an erase
   * always has a cell to its left: a polite run is safe.
   */
  lemma {:induction false} RunRoomy(d: Desk, es: seq<Event>)
    requires d.Valid() && AllRoomy(d) && PoliteRun(d, es)
    ensures AllRoomy(Run(d, es)) && SafeRun(d, es)
  {
    if es != [] {
      RunRoomy(d, Front(es));
      StepRoomy(Run(d, Front(es)), Last(es));
      PoliteIsSafe(Run(d, Front(es)), Last(es));
    }
  }

  lemma PoliteIsSafe(d: Desk, e: Event)
    requires d.Valid() && AllRoomy(d) && Polite(d, e)
    ensures Safe(d, e)
  {
    if e.Write? {
      assert forall i :: 0 <= i < |e.text| ==> e.text[i] in e.text;
    }
  }

  /** A key stores to position `i` of a line buffer that holds `n` characters. */
  predicate StoresAt(n: nat, chr: byte, ctrl: bool, i: nat) {
    if chr == ESCAPE || chr == NUL || F1 <= chr <= F3 || IsClear(chr, ctrl) || IsInterrupt(chr, ctrl) then false
    else if chr == NEWLINE then i == n
    else if chr == TAB then n <= i < n + 4 && i < LINE_MAX
    else if IsErase(chr) then i + 1 == n
    else i == n < LINE_MAX
  }

  /** Whatever the event stores in a line buffer lands inside it. */
  ghost predicate InBuffer(d: Desk, e: Event)
    requires d.Valid()
  {
    e.Key? ==> forall i: nat :: StoresAt(|d.ttys[d.visible].line|, e.chr, e.ctrl, i) ==> i < BUFFER
  }

  ghost predicate InBufferRun(d: Desk, es: seq<Event>)
    requires d.Valid()
  {
    es == [] || (InBufferRun(d, Front(es)) && InBuffer(Run(d, Front(es)), Last(es)))
  }

  predicate EntersFitRun(d: Desk, es: seq<Event>)
    requires d.Valid()
  {
    es == [] || (EntersFitRun(d, Front(es)) && EnterFits(Run(d, Front(es)), Last(es)))
  }

  predicate LinesFit(d: Desk)
    requires d.Valid()
  {
    forall t :: 0 <= t < TTYS ==> |d.ttys[t].line| <= BUFFER
  }

  lemma StepLinesFit(d: Desk, e: Event)
    requires d.Valid() && LinesFit(d)
    ensures InBuffer(d, e) <==> EnterFits(d, e)
    ensures InBuffer(d, e) ==> LinesFit(Step(d, e))
  {
    if e.Key? && e.chr == NEWLINE {
      assert StoresAt(|d.ttys[d.visible].line|, e.chr, e.ctrl, |d.ttys[d.visible].line|);
    }
  }

  /** A run stores only inside the line buffers exactly when every Enter finds fewer than 128 characters. */
  lemma {:induction false} InBufferIff(d: Desk, es: seq<Event>)
    requires d.Valid() && LinesFit(d)
    ensures InBufferRun(d, es) <==> EntersFitRun(d, es)
    ensures InBufferRun(d, es) ==> LinesFit(Run(d, es))
  {
    if es != [] {
      InBufferIff(d, Front(es));
      if InBufferRun(d, Front(es)) {
        StepLinesFit(Run(d, Front(es)), Last(es));
      }
    }
  }

  function Typing(n: nat): (es: seq<Event>)
    ensures |es| == n
  {
    if n == 0 then [] else Typing(n - 1) + [Key(97, false)]
  }

  lemma TypeOne(d: Desk)
    requires d.Valid() && d.visible == 0 && |d.ttys[0].line| < LINE_MAX
    ensures InBuffer(d, Key(97, false))
    ensures var r := Step(d, Key(97, false));
            r.visible == 0 && |r.ttys[0].line| == |d.ttys[0].line| + 1
  {
  }

  lemma {:induction false} TypingFills(n: nat)
    requires n <= LINE_MAX
    ensures InBufferRun(Boot(), Typing(n))
    ensures var r := Run(Boot(), Typing(n));
            r.visible == 0 && |r.ttys[0].line| == n
  {
    if n > 0 {
      TypingFills(n - 1);
      TypeOne(Run(Boot(), Typing(n - 1)));
      assert Front(Typing(n)) == Typing(n - 1);
    }
  }

  lemma EnterAppends(d: Desk, es: seq<Event>)
    requires d.Valid()
    ensures var enter := Key(NEWLINE, false);
            var r, w := Run(d, es), Run(d, es + [enter]);
            && w.visible == r.visible && |w.ttys[r.visible].line| == |r.ttys[r.visible].line| + 1
            && (InBufferRun(d, es + [enter]) <==> InBufferRun(d, es) && |r.ttys[r.visible].line| < BUFFER)
  {
    var enter, r := Key(NEWLINE, false), Run(d, es);
    assert Front(es + [enter]) == es && Last(es + [enter]) == enter;
    assert StoresAt(|r.ttys[r.visible].line|, NEWLINE, false, |r.ttys[r.visible].line|);
  }

  /** After 126 characters two Enters fit and the third stores behind the buffer. */
  lemma ThirdEnterOverflows()
    ensures var two := Typing(126) + [Key(NEWLINE, false)] + [Key(NEWLINE, false)];
            InBufferRun(Boot(), two) && !InBufferRun(Boot(), two + [Key(NEWLINE, false)])
  {
    TypingFills(126);
    var enter := Key(NEWLINE, false);
    EnterAppends(Boot(), Typing(126));
    EnterAppends(Boot(), Typing(126) + [enter]);
    EnterAppends(Boot(), Typing(126) + [enter] + [enter]);
  }

  // ---- Counting Enters ----------------------------------------------------------------

  /** The Enters pressed at `t` since it was last read. */
  function Enters(d: Desk, es: seq<Event>, t: nat): nat
    requires d.Valid()
  {
    if es == [] then 0
    else
      var r, e := Run(d, Front(es)), Last(es);
      if e.Read? && r.scheduled == t then 0
      else Enters(d, Front(es), t) + if e.Key? && e.chr == NEWLINE && r.visible == t then 1 else 0
  }

  /** At no time have more than `n` Enters been pressed at a terminal since it was last read. */
  predicate EntersAtMost(d: Desk, es: seq<Event>, n: nat)
    requires d.Valid()
  {
    (forall t :: 0 <= t < TTYS ==> Enters(d, es, t) <= n) && (es == [] || EntersAtMost(d, Front(es), n))
  }

  /** No line is longer than typing makes it, and none has ended. */
  predicate Fresh(d: Desk)
    requires d.Valid()
  {
    forall t :: 0 <= t < TTYS ==> |d.ttys[t].line| <= LINE_MAX && !d.ttys[t].eol
  }

  lemma EditedLength(line: seq<byte>, chr: byte, ctrl: bool, n: nat)
    requires |line| <= LINE_MAX + n
    ensures |Edited(line, chr, ctrl)| <= LINE_MAX + n + if chr == NEWLINE then 1 else 0
  {
  }

  /** Only Enters take a line beyond 126 characters, each by one; and a line has ended exactly when there was one. */
  lemma {:induction false} LineBound(d: Desk, es: seq<Event>, t: nat)
    requires d.Valid() && t < TTYS && Fresh(d)
    ensures |Run(d, es).ttys[t].line| <= LINE_MAX + Enters(d, es, t)
    ensures Run(d, es).ttys[t].eol <==> Enters(d, es, t) > 0
  {
    if es != [] {
      LineBound(d, Front(es), t);
      var r, e := Run(d, Front(es)), Last(es);
      if Kept(r, e, t) {
        StepEdits(r, e, t);
        if e.Key? && t == r.visible {
          EditedLength(r.ttys[t].line, e.chr, e.ctrl, Enters(d, Front(es), t));
        }
      }
    }
  }

  /** With at most two Enters between reads every Enter finds room. */
  lemma {:induction false} TwoEntersFit(d: Desk, es: seq<Event>, n: nat)
    requires d.Valid() && Fresh(d) && n <= 2 && EntersAtMost(d, es, n)
    ensures EntersFitRun(d, es)
  {
    if es != [] {
      TwoEntersFit(d, Front(es), n);
      var r := Run(d, Front(es));
      LineBound(d, Front(es), r.visible);
      if Last(es).Key? && Last(es).chr == NEWLINE {
        assert Enters(d, es, r.visible) == Enters(d, Front(es), r.visible) + 1 <= 2;
      }
    }
  }

  /**
   * From boot, if processes write no backspaces and at most two Enters are pressed between reads of
   * a terminal, no event leaves a line buffer or a screen, and lines are bounded by the Enters.
   */
  lemma KeysAndReadsSafe(es: seq<Event>)
    requires TidyRun(Boot(), es) && EntersAtMost(Boot(), es, 2)
    ensures PoliteRun(Boot(), es) && SafeRun(Boot(), es) && AllRoomy(Run(Boot(), es))
    ensures forall t :: 0 <= t < TTYS ==> |Run(Boot(), es).ttys[t].line| <= 126 + Enters(Boot(), es, t)
  {
    TwoEntersFit(Boot(), es, 2);
    TidyIsPolite(Boot(), es);
    RunRoomy(Boot(), es);
    forall t | 0 <= t < TTYS ensures |Run(Boot(), es).ttys[t].line| <= 126 + Enters(Boot(), es, t) {
      LineBound(Boot(), es, t);
    }
  }

  lemma {:induction false} TidyIsPolite(d: Desk, es: seq<Event>)
    requires d.Valid() && TidyRun(d, es) && EntersFitRun(d, es)
    ensures PoliteRun(d, es)
  {
    if es != [] {
      TidyIsPolite(d, Front(es));
    }
  }

  lemma {:induction false} TypingNoEnters(n: nat, t: nat, m: nat)
    ensures Enters(Boot(), Typing(n), t) == 0 && EntersAtMost(Boot(), Typing(n), m)
  {
    if n > 0 {
      assert Front(Typing(n)) == Typing(n - 1);
    }
    forall u | 0 <= u < TTYS || u == t ensures Enters(Boot(), Typing(n), u) == 0 {
      if n > 0 {
        TypingNoEnters(n - 1, u, m);
      }
    }
    if n > 0 {
      TypingNoEnters(n - 1, t, m);
    }
  }

  lemma EnterCounts(d: Desk, es: seq<Event>, n: nat)
    requires d.Valid() && EntersAtMost(d, es, n)
    ensures EntersAtMost(d, es + [Key(NEWLINE, false)], n + 1)
  {
    var longer := es + [Key(NEWLINE, false)];
    assert Front(longer) == es && Last(longer) == Key(NEWLINE, false);
    EntersMonotone(d, es, n);
  }

  lemma {:induction false} EntersMonotone(d: Desk, es: seq<Event>, n: nat)
    requires d.Valid() && EntersAtMost(d, es, n)
    ensures EntersAtMost(d, es, n + 1)
  {
    if es != [] {
      EntersMonotone(d, Front(es), n);
    }
  }

  /** A run with at most `n` Enters between reads, three or more, that leaves the buffer. */
  lemma ManyEntersOverflow(full: nat, n: nat) returns (es: seq<Event>)
    requires full == LINE_MAX && n >= 3
    ensures EntersAtMost(Boot(), es, n) && !InBufferRun(Boot(), es)
  {
    var enter := [Key(NEWLINE, false)];
    TypingFills(full);
    EnterAppends(Boot(), Typing(full));
    EnterAppends(Boot(), Typing(full) + enter);
    EnterAppends(Boot(), Typing(full) + enter + enter);
    TypingNoEnters(full, 0, n - 3);
    EnterCounts(Boot(), Typing(full), n - 3);
    EnterCounts(Boot(), Typing(full) + enter, n - 2);
    EnterCounts(Boot(), Typing(full) + enter + enter, n - 1);
    es := Typing(full) + enter + enter + enter;
  }

  /** The runs from boot with at most `n` Enters between reads stay inside the buffers exactly when `n` is at most 2. */
  lemma EntersLimit(n: nat)
    ensures (forall es :: EntersAtMost(Boot(), es, n) ==> InBufferRun(Boot(), es)) <==> n <= 2
  {
    if n <= 2 {
      forall es | EntersAtMost(Boot(), es, n) ensures InBufferRun(Boot(), es) {
        TwoEntersFit(Boot(), es, n);
        InBufferIff(Boot(), es);
      }
    } else {
      var es := ManyEntersOverflow(126, n);
    }
  }

  // ---- Cursors that stay on the screen ------------------------------------------------

  predicate BackspacesFitRun(d: Desk, es: seq<Event>)
    requires d.Valid()
  {
    es == [] || (BackspacesFitRun(d, Front(es)) && BackspacesFit(Run(d, Front(es)), Last(es)))
  }

  lemma FitsSingle(v: View, text: seq<byte>)
    requires v.Valid()
    ensures BACKSPACE !in text ==> Fits(v, text)
    ensures Fits(v, [BACKSPACE]) <==> v.Pos() > 0
  {
    if BACKSPACE !in text {
      assert forall i :: 0 <= i < |text| ==> text[i] in text;
    }
    assert [BACKSPACE][..0] == [];
    assert PutAll(v, []) == v;
  }

  /** What an event writes to the terminals fits their screens exactly when its backspaces do. */
  lemma OutputFits(d: Desk, e: Event)
    requires d.Valid()
    ensures BackspacesFit(d, e) <==> forall t :: 0 <= t < TTYS ==> Fits(d.ttys[t].view, Output(d, e, t))
  {
    forall t | 0 <= t < TTYS
      ensures Fits(d.ttys[t].view, Output(d, e, t)) <==>
              (t == (if e.Write? then d.scheduled else d.visible) ==> BackspacesFit(d, e))
    {
      FitsSingle(d.ttys[t].view, Output(d, e, t));
    }
  }

  /** An event moves each cursor as the bytes it writes there do, whether or not they show. */
  lemma StepCursor(d: Desk, e: Event, t: nat)
    requires d.Valid() && t < TTYS
    ensures CursorOf(Step(d, e).ttys[t].view) == CursorOf(PutAll(d.ttys[t].view, Output(d, e, t)))
  {
    if e.Write? {
      LostCursor(d.ttys[t].view, d.ttys[t].view, e.text);
    } else if !(e.Key? && IsClear(e.chr, e.ctrl)) {
      StepShows(d, e, t);
    }
  }

  /**
   * Over any run all cursors, moved as the code moves its bytes, stay on their screens exactly when
   * every backspace, a process's or an erase's, finds its cursor past the top left corner.
   */
  lemma {:induction false} CursorsStayIff(d: Desk, es: seq<Event>)
    requires d.Valid()
    ensures BackspacesFitRun(d, es) <==>
            forall t :: 0 <= t < TTYS ==> Stays(CursorOf(d.ttys[t].view), Transcript(d, es, t))
    ensures BackspacesFitRun(d, es) ==> forall t :: 0 <= t < TTYS ==>
              MovedAll(CursorOf(d.ttys[t].view), Transcript(d, es, t)) == CursorOf(Run(d, es).ttys[t].view)
  {
    if es != [] {
      var r, e := Run(d, Front(es)), Last(es);
      CursorsStayIff(d, Front(es));
      OutputFits(r, e);
      forall t | 0 <= t < TTYS
        ensures Stays(CursorOf(d.ttys[t].view), Transcript(d, es, t)) <==>
                Stays(CursorOf(d.ttys[t].view), Transcript(d, Front(es), t)) &&
                Stays(MovedAll(CursorOf(d.ttys[t].view), Transcript(d, Front(es), t)), Output(r, e, t))
        ensures MovedAll(CursorOf(d.ttys[t].view), Transcript(d, es, t)) ==
                MovedAll(MovedAll(CursorOf(d.ttys[t].view), Transcript(d, Front(es), t)), Output(r, e, t))
        ensures Stays(CursorOf(r.ttys[t].view), Output(r, e, t)) <==> Fits(r.ttys[t].view, Output(r, e, t))
        ensures Fits(r.ttys[t].view, Output(r, e, t)) ==>
                MovedAll(CursorOf(r.ttys[t].view), Output(r, e, t)) == CursorOf(Step(r, e).ttys[t].view)
      {
        StaysConcat(CursorOf(d.ttys[t].view), Transcript(d, Front(es), t), Output(r, e, t));
        StaysIff(r.ttys[t].view, Output(r, e, t));
        StepCursor(r, e, t);
      }
    }
  }

  /** A key, the tick that schedules its terminal, and a process's backspace. */
  function ToCorner(c: byte): seq<Event> {
    [Key(c, false), Tick, Write([BACKSPACE])]
  }

  lemma TypedAtStart(d: Desk, c: byte)
    requires d.Valid() && d.ttys[d.visible].view.Pos() == 0 && d.ttys[d.visible].line == []
    requires 'a' as int <= c <= 'z' as int
    ensures var r := Pressed(d, c, false);
            && r.ttys[d.visible].view.Pos() == 1 && r.ttys[d.visible].line == [c]
            && r.scheduled == d.scheduled && r.visible == d.visible
  {
  }

  lemma ErasedByProcess(d: Desk)
    requires d.Valid() && d.ttys[d.scheduled].view.Pos() == 1
    ensures Safe(d, Write([BACKSPACE]))
    ensures var r := Written(d, [BACKSPACE]);
            && r.ttys[d.scheduled].view.Pos() == 0 && r.ttys[d.scheduled].line == d.ttys[d.scheduled].line
            && r.visible == d.visible
  {
    var v := d.ttys[d.scheduled].view;
    FitsSingle(v, []);
    PutAllSingle(v, BACKSPACE);
  }

  lemma RunMore(d: Desk, es: seq<Event>, e: Event)
    requires d.Valid()
    ensures Run(d, es + [e]) == Step(Run(d, es), e)
    ensures SafeRun(d, es + [e]) <==> SafeRun(d, es) && Safe(Run(d, es), e)
  {
    assert Front(es + [e]) == es;
  }

  /** The run is safe, and one more event is not. */
  predicate FirstUnsafe(d: Desk, es: seq<Event>, e: Event)
    requires d.Valid()
  {
    SafeRun(d, es) && !Safe(Run(d, es), e)
  }

  predicate AtStart(d: Desk) {
    d.Valid() && d.scheduled == 2 && d.visible == 0 && d.ttys[0].view.Pos() == 0 && d.ttys[0].line == []
  }

  lemma BootAtStart()
    ensures AtStart(Boot())
  {
  }

  lemma CornerReached(d: Desk, c: byte)
    requires AtStart(d) && 'a' as int <= c <= 'z' as int
    ensures FirstUnsafe(d, ToCorner(c), Key(BACKSPACE, false))
  {
    var key, write := Key(c, false), Write([BACKSPACE]);
    var d1 := Step(d, key);
    var d2 := Step(d1, Tick);
    TypedAtStart(d, c);
    ErasedByProcess(d2);
    RunMore(d, [], key);
    RunMore(d, [key], Tick);
    RunMore(d, [key, Tick], write);
    assert [] + [key] == [key] && [key] + [Tick] == [key, Tick] && [key, Tick] + [write] == ToCorner(c);
  }

  /**
   * From boot, a letter, a tick and a process's backspace leave a line being edited at the corner,
   * where an erase is unsafe.
   */
  lemma EraseAtCorner(d: Desk, c: byte)
    requires d == Boot() && 'a' as int <= c <= 'z' as int
    ensures FirstUnsafe(d, ToCorner(c), Key(BACKSPACE, false))
  {
    BootAtStart();
    CornerReached(d, c);
  }

  predicate AllBlankAhead(d: Desk)
    requires d.Valid()
  {
    forall t :: 0 <= t < TTYS ==> BlankAhead(d.ttys[t].view)
  }

  lemma TypedBlankAhead(d: Desk, c: byte)
    requires d.Valid() && AllBlankAhead(d)
    ensures AllBlankAhead(Typed(d, c))
  {
    PutBlankAhead(d.ttys[d.visible].view, c);
  }

  lemma StepBlankAhead(d: Desk, e: Event)
    requires d.Valid() && AllBlankAhead(d) && Polite(d, e)
    ensures AllBlankAhead(Step(d, e))
  {
    match e
    case Tick =>
    case Read(_) =>
    case Write(text) =>
      PutAllBlankAhead(d.ttys[d.scheduled].view, text);
      PutAllLostBlankAhead(d.ttys[d.scheduled].view, text);
    case Key(chr, ctrl) =>
      if chr == TAB {
        TypedBlankAhead(d, SPACE);
        TypedBlankAhead(Typed(d, SPACE), SPACE);
        TypedBlankAhead(Typed(Typed(d, SPACE), SPACE), SPACE);
        TypedBlankAhead(Typed(Typed(Typed(d, SPACE), SPACE), SPACE), SPACE);
      } else {
        PutBlankAhead(d.ttys[d.visible].view, BACKSPACE);
        PutBlankAhead(d.ttys[d.visible].view, chr);
      }
  }

  /** In every polite run the screen is blank from the cursor on. */
  lemma {:induction false} RunBlankAhead(d: Desk, es: seq<Event>)
    requires d.Valid() && AllBlankAhead(d) && PoliteRun(d, es)
    ensures AllBlankAhead(Run(d, es))
  {
    if es != [] {
      RunBlankAhead(d, Front(es));
      StepBlankAhead(Run(d, Front(es)), Last(es));
    }
  }

  // ---- What a screen shows ------------------------------------------------------------

  /** The bytes a key echoes. */
  function Echo(d: Desk, chr: byte, ctrl: bool): seq<byte>
    requires d.Valid()
  {
    var line := d.ttys[d.visible].line;
    if chr == ESCAPE || chr == NUL || F1 <= chr <= F3 then []
    else if chr == NEWLINE then [chr]
    else if chr == TAB then
      var room := if |line| < LINE_MAX then LINE_MAX - |line| else 0;
      [SPACE, SPACE, SPACE, SPACE][..if room < 4 then room else 4]
    else if IsErase(chr) then if line == [] then [] else [BACKSPACE]
    else if IsClear(chr, ctrl) || IsInterrupt(chr, ctrl) || |line| >= LINE_MAX then []
    else [chr]
  }

  /** The bytes an event writes to terminal `t`. */
  function Output(d: Desk, e: Event, t: nat): seq<byte>
    requires d.Valid()
  {
    match e
    case Tick => []
    case Read(_) => []
    case Write(text) => if t == d.scheduled then text else []
    case Key(chr, ctrl) => if t == d.visible then Echo(d, chr, ctrl) else []
  }

  function Transcript(d: Desk, es: seq<Event>, t: nat): seq<byte>
    requires d.Valid()
  {
    if es == [] then [] else Transcript(d, Front(es), t) + Output(Run(d, Front(es)), Last(es), t)
  }

  /** No process write is lost and the screen is not cleared. */
  predicate Shown(d: Desk, e: Event)
    requires d.Valid()
  {
    (e.Write? ==> !d.Lost()) && (e.Key? ==> !IsClear(e.chr, e.ctrl))
  }

  predicate ShownRun(d: Desk, es: seq<Event>)
    requires d.Valid()
  {
    es == [] || (ShownRun(d, Front(es)) && Shown(Run(d, Front(es)), Last(es)))
  }

  lemma TypedShows(d: Desk, c: byte, t: nat)
    requires d.Valid() && t < TTYS
    ensures var out := if t == d.visible && |d.ttys[t].line| < LINE_MAX then [c] else [];
            Typed(d, c).ttys[t].view == PutAll(d.ttys[t].view, out)
    ensures Typed(d, c).visible == d.visible
    ensures |Typed(d, c).ttys[d.visible].line| ==
            |d.ttys[d.visible].line| + if |d.ttys[d.visible].line| < LINE_MAX then 1 else 0
  {
    PutAllSingle(d.ttys[t].view, c);
  }

  lemma TabShows(d: Desk, t: nat)
    requires d.Valid() && t < TTYS
    ensures Pressed(d, TAB, false).ttys[t].view ==
            PutAll(d.ttys[t].view, if t == d.visible then Echo(d, TAB, false) else [])
  {
    var d1 := Typed(d, SPACE);
    var d2 := Typed(d1, SPACE);
    var d3 := Typed(d2, SPACE);
    TypedShows(d, SPACE, t);
    TypedShows(d1, SPACE, t);
    TypedShows(d2, SPACE, t);
    TypedShows(d3, SPACE, t);
    if t == d.visible {
      var v, n := d.ttys[t].view, |d.ttys[t].line|;
      var s := [SPACE, SPACE, SPACE, SPACE];
      assert s[..1] == [SPACE] && s[..2] == s[..1] + [SPACE] && s[..3] == s[..2] + [SPACE];
      assert s == s[..4] == s[..3] + [SPACE];
      PutAllConcat(v, s[..1], [SPACE]);
      PutAllConcat(v, s[..2], [SPACE]);
      PutAllConcat(v, s[..3], [SPACE]);
    }
  }

  lemma StepShows(d: Desk, e: Event, t: nat)
    requires d.Valid() && t < TTYS && Shown(d, e)
    ensures Step(d, e).ttys[t].view == PutAll(d.ttys[t].view, Output(d, e, t))
  {
    if e.Key? {
      if e.chr == TAB {
        TabShows(d, t);
      } else {
        TypedShows(d, e.chr, t);
        PutAllSingle(d.ttys[t].view, e.chr);
        PutAllSingle(d.ttys[t].view, BACKSPACE);
      }
    }
  }

  /** Over any run, terminal `t` shows what writing its transcript in one go would show. */
  lemma {:induction false} RunShows(d: Desk, es: seq<Event>, t: nat)
    requires d.Valid() && t < TTYS && ShownRun(d, es)
    ensures Run(d, es).ttys[t].view == PutAll(d.ttys[t].view, Transcript(d, es, t))
  {
    if es != [] {
      RunShows(d, Front(es), t);
      StepShows(Run(d, Front(es)), Last(es), t);
      PutAllConcat(d.ttys[t].view, Transcript(d, Front(es), t), Output(Run(d, Front(es)), Last(es), t));
    }
  }

  /** From boot, every screen is the last 24 rows of the layout of everything written to its terminal. */
  lemma RunShowsLayout(es: seq<Event>, t: nat)
    requires t < TTYS && ShownRun(Boot(), es) && BACKSPACE !in Transcript(Boot(), es, t)
    ensures |Last(Rows(Glyphs(Transcript(Boot(), es, t)), COLS))| < COLS
    ensures Run(Boot(), es).ttys[t].view == Page(Rows(Glyphs(Transcript(Boot(), es, t)), COLS))
  {
    var text := Transcript(Boot(), es, t);
    RunShows(Boot(), es, t);
    ScreenShowsLayout(text);
  }

  /** A process's writes always reach its screen exactly when the video page is not a shadow of the visible terminal. */
  lemma WriteShowsIff(d: Desk)
    requires d.Valid()
    ensures (forall text :: Written(d, text).ttys[d.scheduled].view == PutAll(d.ttys[d.scheduled].view, text))
            <==> !d.Lost()
  {
    if d.Lost() {
      var v := d.ttys[d.scheduled].view;
      var c: byte := if v.cells[v.Pos()].ch == SPACE then 33 else SPACE;
      PutAllSingle(v, c);
      var k := if v.col == COLS - 1 && v.row == ROWS - 1 then v.Pos() - COLS else v.Pos();
      assert Put(v, c).cells[k].ch == c && PutLost(v, c).cells[k].ch != c;
      assert Written(d, [c]).ttys[d.scheduled].view != PutAll(v, [c]);
    }
  }

  /**
   * The lossy period starts exactly when the scheduled terminal is made visible while its page is a
   * background frame, and the next tick ends it.
   */
  lemma LostOnlyBySwitch(d: Desk, e: Event)
    requires d.Valid()
    ensures !d.Lost() ==>
              (Step(d, e).Lost() <==> e.Key? && F1 <= e.chr <= F3 && e.chr - F1 == d.scheduled && d.shadowed)
    ensures !Step(d, Tick).Lost()
  {
  }

  function Astray(): seq<Event> {
    [Tick, Tick, Key(F1 + 1, false)]
  }

  lemma AstrayRun()
    ensures Run(Boot(), Astray()) == Desk(Boot().ttys, 1, 1, true) && PoliteRun(Boot(), Astray())
  {
    var es := Astray();
    var d0, d1 := Boot(), Ticked(Boot());
    assert Front(es) == [Tick, Tick] && Front([Tick, Tick]) == [Tick] && Front([Tick]) == [];
    assert Run(d0, []) == d0 && Run(d0, [Tick]) == d1 == Desk(d0.ttys, 0, 0, false);
    var d2 := Ticked(d1);
    assert Run(d0, [Tick, Tick]) == d2 == Desk(d0.ttys, 1, 0, true);
    assert Last(es) == Key(F1 + 1, false) && Step(d2, Last(es)) == Switched(d2, 1);
    assert PoliteRun(d0, []) && PoliteRun(d0, [Tick]) && PoliteRun(d0, [Tick, Tick]);
  }

  /** Two ticks and a switch to the second terminal reach the lossy period, and its next write does not show. */
  lemma LossHappens()
    ensures PoliteRun(Boot(), Astray())
    ensures var d := Run(Boot(), Astray());
            d.Lost() && d.scheduled == 1 && Written(d, [65]).ttys[1].view != PutAll(d.ttys[1].view, [65])
  {
    AstrayRun();
    assert Boot().ttys[1].view == Empty();
    LostByte(Boot().ttys[1].view);
  }

  lemma LostByte(v: View)
    requires v.Valid() && v.row == v.col == 0 && v.cells[0].ch != 65
    ensures PutAllLost(v, [65]) != PutAll(v, [65])
  {
    PutAllSingle(v, 65);
    assert Put(v, 65).cells[0].ch == 65 && PutLost(v, 65).cells == v.cells;
  }

  // ---- Line editing -------------------------------------------------------------------

  function Appended(line: seq<byte>, c: byte): seq<byte> {
    if |line| < LINE_MAX then line + [c] else line
  }

  /** The line after one key, apart from terminals and screens. */
  function Edited(line: seq<byte>, chr: byte, ctrl: bool): seq<byte> {
    if chr == ESCAPE || chr == NUL || F1 <= chr <= F3 || IsClear(chr, ctrl) || IsInterrupt(chr, ctrl) then line
    else if chr == NEWLINE then line + [chr]
    else if chr == TAB then Appended(Appended(Appended(Appended(line, SPACE), SPACE), SPACE), SPACE)
    else if IsErase(chr) then if line == [] then line else Front(line)
    else Appended(line, chr)
  }

  /** The keys delivered to `t` in a run, applied to `line`. */
  function EditedRun(d: Desk, es: seq<Event>, t: nat, line: seq<byte>): seq<byte>
    requires d.Valid()
  {
    if es == [] then line
    else
      var l := EditedRun(d, Front(es), t, line);
      var e := Last(es);
      if e.Key? && Run(d, Front(es)).visible == t then Edited(l, e.chr, e.ctrl) else l
  }

  /** `t` is neither read nor written by its process, and its keys neither end the line nor clear the screen. */
  predicate Quiet(d: Desk, e: Event, t: nat)
    requires d.Valid()
  {
    match e
    case Tick => true
    case Write(_) => t != d.scheduled
    case Read(_) => t != d.scheduled
    case Key(chr, ctrl) => t == d.visible ==> chr != NEWLINE && chr != RETURN && !IsClear(chr, ctrl)
  }

  predicate QuietRun(d: Desk, es: seq<Event>, t: nat)
    requires d.Valid()
  {
    es == [] || (QuietRun(d, Front(es), t) && Quiet(Run(d, Front(es)), Last(es), t))
  }

  predicate Echoing(y: Tty)
    requires y.view.Valid()
  {
    |y.line| <= LINE_MAX && Spells(y.view, y.line)
  }

  lemma TypedEchoing(d: Desk, c: byte, t: nat)
    requires d.Valid() && t < TTYS && Echoing(d.ttys[t])
    requires c !in {NUL, BACKSPACE, TAB, NEWLINE, RETURN}
    ensures Echoing(Typed(d, c).ttys[t])
    ensures Typed(d, c).ttys[t].line == if t == d.visible then Appended(d.ttys[t].line, c) else d.ttys[t].line
  {
    if t == d.visible && |d.ttys[t].line| < LINE_MAX {
      PutSpells(d.ttys[t].view, d.ttys[t].line, c);
    }
  }

  lemma StepEchoing(d: Desk, e: Event, t: nat)
    requires d.Valid() && t < TTYS && Quiet(d, e, t) && Echoing(d.ttys[t])
    ensures Echoing(Step(d, e).ttys[t])
    ensures Step(d, e).ttys[t].line ==
            if e.Key? && t == d.visible then Edited(d.ttys[t].line, e.chr, e.ctrl) else d.ttys[t].line
  {
    if e.Key? && t == d.visible {
      PressedEchoing(d, e.chr, e.ctrl, t);
    }
  }

  lemma PressedEchoing(d: Desk, chr: byte, ctrl: bool, t: nat)
    requires d.Valid() && t == d.visible && Quiet(d, Key(chr, ctrl), t) && Echoing(d.ttys[t])
    ensures Echoing(Pressed(d, chr, ctrl).ttys[t])
    ensures Pressed(d, chr, ctrl).ttys[t].line == Edited(d.ttys[t].line, chr, ctrl)
  {
    if chr == TAB {
      TabEchoing(d, t);
    } else if IsErase(chr) {
      ErasedEchoing(d, t);
    } else if chr != NUL {
      TypedEchoing(d, chr, t);
    }
  }

  lemma ErasedEchoing(d: Desk, t: nat)
    requires d.Valid() && t == d.visible && Echoing(d.ttys[t])
    ensures Echoing(Erased(d).ttys[t])
  {
    if d.ttys[t].line != [] {
      EraseSpells(d.ttys[t].view, d.ttys[t].line);
    }
  }

  lemma TabEchoing(d: Desk, t: nat)
    requires d.Valid() && t == d.visible && Echoing(d.ttys[t])
    ensures var r := Typed(Typed(Typed(Typed(d, SPACE), SPACE), SPACE), SPACE);
            Echoing(r.ttys[t]) && r.ttys[t].line == Edited(d.ttys[t].line, TAB, false)
  {
    TypedEchoing(d, SPACE, t);
    TypedEchoing(Typed(d, SPACE), SPACE, t);
    TypedEchoing(Typed(Typed(d, SPACE), SPACE), SPACE, t);
    TypedEchoing(Typed(Typed(Typed(d, SPACE), SPACE), SPACE), SPACE, t);
  }

  /**
   * However a line is edited -- across wraps, scrolls, tabs, erasures and terminal switches --
   * the cells before the cursor spell it, and it is what the keys alone make of it.
   */
  lemma {:induction false} RunEchoing(d: Desk, es: seq<Event>, t: nat)
    requires d.Valid() && t < TTYS && QuietRun(d, es, t) && Echoing(d.ttys[t])
    ensures Echoing(Run(d, es).ttys[t])
    ensures Run(d, es).ttys[t].line == EditedRun(d, es, t, d.ttys[t].line)
  {
    if es != [] {
      RunEchoing(d, Front(es), t);
      StepEchoing(Run(d, Front(es)), Last(es), t);
    }
  }

  /** Nobody types at `t` or reads it. */
  predicate Waits(d: Desk, e: Event, t: nat)
    requires d.Valid()
  {
    (e.Key? ==> d.visible != t) && (e.Read? ==> d.scheduled != t)
  }

  predicate WaitingRun(d: Desk, es: seq<Event>, t: nat)
    requires d.Valid()
  {
    es == [] || (WaitingRun(d, Front(es), t) && Waits(Run(d, Front(es)), Last(es), t))
  }

  lemma StepWaits(d: Desk, e: Event, t: nat)
    requires d.Valid() && t < TTYS && Waits(d, e, t)
    ensures Step(d, e).ttys[t].line == d.ttys[t].line && Step(d, e).ttys[t].eol == d.ttys[t].eol
  {
    StepEdits(d, e, t);
  }

  /** A terminal nobody types at or reads keeps its line. */
  lemma {:induction false} LineWaits(d: Desk, es: seq<Event>, t: nat)
    requires d.Valid() && t < TTYS && WaitingRun(d, es, t)
    ensures Run(d, es).ttys[t].line == d.ttys[t].line && Run(d, es).ttys[t].eol == d.ttys[t].eol
  {
    if es != [] {
      LineWaits(d, Front(es), t);
      StepWaits(Run(d, Front(es)), Last(es), t);
    }
  }

  /** The event is not a read by `t`. */
  predicate Kept(d: Desk, e: Event, t: nat)
    requires d.Valid()
  {
    e.Read? ==> d.scheduled != t
  }

  predicate KeptRun(d: Desk, es: seq<Event>, t: nat)
    requires d.Valid()
  {
    es == [] || (KeptRun(d, Front(es), t) && Kept(Run(d, Front(es)), Last(es), t))
  }

  /** Enter is pressed at `t`. */
  predicate EnteredRun(d: Desk, es: seq<Event>, t: nat)
    requires d.Valid()
  {
    es != [] && (
      EnteredRun(d, Front(es), t) ||
      (Last(es).Key? && Last(es).chr == NEWLINE && Run(d, Front(es)).visible == t))
  }

  lemma TypedEdits(d: Desk, c: byte, t: nat)
    requires d.Valid() && t < TTYS
    ensures Typed(d, c).visible == d.visible && Typed(d, c).ttys[t].eol == d.ttys[t].eol
    ensures Typed(d, c).ttys[t].line == if t == d.visible then Appended(d.ttys[t].line, c) else d.ttys[t].line
  {
  }

  lemma TabEdits(d: Desk, t: nat)
    requires d.Valid() && t < TTYS
    ensures var r := Typed(Typed(Typed(Typed(d, SPACE), SPACE), SPACE), SPACE);
            && r.ttys[t].line == (if t == d.visible then Edited(d.ttys[t].line, TAB, false) else d.ttys[t].line)
            && r.ttys[t].eol == d.ttys[t].eol
  {
    TypedEdits(d, SPACE, t);
    TypedEdits(Typed(d, SPACE), SPACE, t);
    TypedEdits(Typed(Typed(d, SPACE), SPACE), SPACE, t);
    TypedEdits(Typed(Typed(Typed(d, SPACE), SPACE), SPACE), SPACE, t);
  }

  lemma EchoedEdits(d: Desk, line: seq<byte>, c: byte, t: nat)
    requires d.Valid() && t < TTYS
    ensures Echoed(d, line, c).visible == d.visible && Echoed(d, line, c).ttys[t].eol == d.ttys[t].eol
    ensures Echoed(d, line, c).ttys[t].line == if t == d.visible then line else d.ttys[t].line
  {
  }

  lemma EnterEdits(d: Desk, t: nat)
    requires d.Valid() && t < TTYS
    ensures Entered(d).ttys[t].line == if t == d.visible then d.ttys[t].line + [NEWLINE] else d.ttys[t].line
    ensures Entered(d).ttys[t].eol == (d.ttys[t].eol || t == d.visible)
  {
    EchoedEdits(d, d.ttys[d.visible].line + [NEWLINE], NEWLINE, t);
  }

  lemma KeyEdits(d: Desk, chr: byte, ctrl: bool, t: nat)
    requires d.Valid() && t < TTYS
    ensures Pressed(d, chr, ctrl).ttys[t].line ==
            if t == d.visible then Edited(d.ttys[t].line, chr, ctrl) else d.ttys[t].line
    ensures Pressed(d, chr, ctrl).ttys[t].eol == (d.ttys[t].eol || (chr == NEWLINE && t == d.visible))
  {
    if chr == NEWLINE {
      EnterEdits(d, t);
    } else if chr == TAB {
      TabEdits(d, t);
    } else if IsErase(chr) {
      if d.ttys[d.visible].line != [] {
        EchoedEdits(d, Front(d.ttys[d.visible].line), BACKSPACE, t);
      }
    } else if !(chr == ESCAPE || chr == NUL || F1 <= chr <= F3 || IsClear(chr, ctrl) || IsInterrupt(chr, ctrl)) {
      TypedEdits(d, chr, t);
    }
  }

  lemma StepEdits(d: Desk, e: Event, t: nat)
    requires d.Valid() && t < TTYS && Kept(d, e, t)
    ensures Step(d, e).ttys[t].line ==
            if e.Key? && t == d.visible then Edited(d.ttys[t].line, e.chr, e.ctrl) else d.ttys[t].line
    ensures Step(d, e).ttys[t].eol == (d.ttys[t].eol || (e.Key? && e.chr == NEWLINE && t == d.visible))
  {
    if e.Key? {
      KeyEdits(d, e.chr, e.ctrl, t);
    }
  }

  /** In any run between two reads of `t` its line is what its keys alone make of it. */
  lemma {:induction false} RunEdits(d: Desk, es: seq<Event>, t: nat)
    requires d.Valid() && t < TTYS && KeptRun(d, es, t)
    ensures Run(d, es).ttys[t].line == EditedRun(d, es, t, d.ttys[t].line)
    ensures Run(d, es).ttys[t].eol == (d.ttys[t].eol || EnteredRun(d, es, t))
  {
    if es != [] {
      RunEdits(d, Front(es), t);
      StepEdits(Run(d, Front(es)), Last(es), t);
    }
  }

  /**
   * From one read to the next, whatever else happens: a read can complete exactly when Enter was
   * pressed at its terminal, and returns what the terminal's keys made of an empty line, cut to the
   * requested size.
   */
  lemma ReadReturnsEditedLine(d: Desk, es: seq<Event>, t: nat, nbytes: nat)
    requires d.Valid() && t < TTYS && d.ttys[t].line == [] && !d.ttys[t].eol
    requires KeptRun(d, es, t) && Run(d, es).scheduled == t
    ensures var f, line := Run(d, es), EditedRun(d, es, t, []);
            && (f.ttys[t].eol <==> EnteredRun(d, es, t))
            && ReadLine(f, nbytes) == line[..if nbytes < |line| then nbytes else |line|]
            && AfterRead(f).ttys[t].line == [] && !AfterRead(f).ttys[t].eol
  {
    RunEdits(d, es, t);
  }

  /** A line ended by Enter and left alone until its process is scheduled is returned with its newline. */
  lemma ReadAfterEnter(d: Desk, edits: seq<Event>, ctrl: bool, rest: seq<Event>, t: nat, nbytes: nat)
    requires d.Valid() && t < TTYS && d.ttys[t].line == []
    requires KeptRun(d, edits, t) && Run(d, edits).visible == t
    requires var e := Step(Run(d, edits), Key(NEWLINE, ctrl));
             WaitingRun(e, rest, t) && Run(e, rest).scheduled == t
    ensures var f := Run(Step(Run(d, edits), Key(NEWLINE, ctrl)), rest);
            var line := EditedRun(d, edits, t, []) + [NEWLINE];
            f.ttys[t].eol && ReadLine(f, nbytes) == line[..if nbytes < |line| then nbytes else |line|]
  {
    RunEdits(d, edits, t);
    StepEdits(Run(d, edits), Key(NEWLINE, ctrl), t);
    LineWaits(Step(Run(d, edits), Key(NEWLINE, ctrl)), rest, t);
  }
}
