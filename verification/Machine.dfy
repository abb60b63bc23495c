/** Processes and page tables together: whose memory and whose screen is mapped, over whole runs. */
module Machine {
  import opened Basics
  import opened Processes
  import opened Text
  import opened Paging
  import T = Terminals
  import V = Video

  /** The processes, the visible terminal, and the frames in the kernel's and the processes' screen entries. */
  datatype State = State(tab: Table, visible: nat, low: nat, vid: nat)

  datatype Action =
    | Schedule(e: Event)      // a tick, an execute or a halt
    | Switch(t: nat)          // a terminal is made visible
    | Write                   // terminal_write, for a process or for the keyboard

  ghost predicate Fine(s: State) {
    Sound(s.tab) && s.visible < TTYS
  }

  predicate Allowed(a: Action) {
    a.Switch? ==> a.t < TTYS
  }

  predicate AllAllowed(acts: seq<Action>) {
    forall a :: a in acts ==> Allowed(a)
  }

  ghost function Do(s: State, a: Action): (r: State)
    requires Fine(s) && Allowed(a)
    ensures Fine(r)
  {
    match a
    case Schedule(e) =>
      StepSound(s.tab, e);
      var tab := Step(s.tab, e);
      if e.Tick? then State(tab, s.visible, Shown(tab.scheduled, s.visible), Shown(tab.scheduled, s.visible))
      else s.(tab := tab)
    case Switch(t) => s.(visible := t)
    case Write => s.(low := Moved(s.low, s.tab.scheduled, s.visible))
  }

  ghost function DoAll(s: State, acts: seq<Action>): (r: State)
    requires Fine(s) && AllAllowed(acts)
    ensures Fine(r)
    decreases |acts|
  {
    if acts == [] then s else
    assert AllAllowed(Front(acts)) && Last(acts) in acts;
    Do(DoAll(s, Front(acts)), Last(acts))
  }

  // ---- From one tick to the next ------------------------------------------------------

  predicate IsTick(a: Action) {
    a.Schedule? && a.e.Tick?
  }

  predicate NoTick(acts: seq<Action>) {
    forall a :: a in acts ==> !IsTick(a)
  }

  /** Something is written while the scheduled terminal is not the visible one. */
  ghost predicate WritesUnseen(s: State, acts: seq<Action>)
    requires Fine(s) && AllAllowed(acts)
    decreases |acts|
  {
    acts != [] && (
      assert AllAllowed(Front(acts));
      WritesUnseen(s, Front(acts)) ||
      (Last(acts).Write? && DoAll(s, Front(acts)).visible != s.tab.scheduled))
  }

  /** The frame of the running process. */
  function Base(tab: Table): nat
    requires tab.Shaped()
  {
    UserBase(Last(tab.stacks[tab.scheduled]).pid)
  }

  /** In user mode exactly the running process's memory and its terminal's screen are reachable. */
  ghost predicate ReachesOwn(r: State)
    requires Fine(r)
  {
    forall p: nat :: Reachable(r.low, r.vid, Base(r.tab), p) <==>
                     p / 4096 == Shown(r.tab.scheduled, r.visible) || Own(Last(r.tab.stacks[r.tab.scheduled]).pid, p)
  }

  lemma ReachesOwnIff(r: State)
    requires Fine(r) && ScreenFrame(r.vid)
    ensures ReachesOwn(r) <==> r.vid == Shown(r.tab.scheduled, r.visible)
  {
    var pid := Last(r.tab.stacks[r.tab.scheduled]).pid;
    forall p: nat ensures Reachable(r.low, r.vid, Base(r.tab), p) <==> p / 4096 == r.vid || Own(pid, p) {
      UserReach(r.low, r.vid, pid, p);
    }
    var q: nat := 4096 * r.vid;
    assert q / 4096 == r.vid && !Own(pid, q) && Reachable(r.low, r.vid, Base(r.tab), q);
  }

  /**
   * After a tick, in any run, the process and the kernel see the scheduled terminal's screen, and
   * the process reaches that, its own memory and nothing else.
   */
  lemma AfterTick(s: State, acts: seq<Action>, at: Context)
    requires Fine(s) && AllAllowed(acts)
    ensures var r := Do(DoAll(s, acts), Schedule(Tick(at)));
            && r.low == r.vid == Shown(r.tab.scheduled, r.visible)
            && Agree(r.low, r.vid, Base(r.tab)) && ReachesOwn(r)
  {
    var r := Do(DoAll(s, acts), Schedule(Tick(at)));
    AgreeIff(r.low, r.vid, Base(r.tab));
    ReachesOwnIff(r);
  }

  /** Until the next tick the process's entry stays, and the kernel's moves at the first unseen write. */
  lemma {:induction false} SlotFrames(s: State, acts: seq<Action>)
    requires Fine(s) && AllAllowed(acts) && NoTick(acts)
    requires s.low == s.vid == Shown(s.tab.scheduled, s.visible)
    ensures var r := DoAll(s, acts);
            && r.tab.scheduled == s.tab.scheduled && r.vid == s.vid
            && r.low == if s.visible == s.tab.scheduled && WritesUnseen(s, acts) then 0xB9 + s.tab.scheduled else s.low
    decreases |acts|
  {
    if acts != [] {
      var f := Front(acts);
      assert AllAllowed(f) && NoTick(f) && Last(acts) in acts;
      SlotFrames(s, f);
    }
  }

  /**
   * Between two ticks the process and the kernel see the same screen exactly unless the scheduled
   * terminal was visible at the tick and something was written while it was not.
   */
  lemma AgreeBetweenTicks(s: State, acts: seq<Action>)
    requires Fine(s) && AllAllowed(acts) && NoTick(acts)
    requires s.low == s.vid == Shown(s.tab.scheduled, s.visible)
    ensures var r := DoAll(s, acts);
            Agree(r.low, r.vid, Base(r.tab)) <==> !(s.visible == s.tab.scheduled && WritesUnseen(s, acts))
  {
    SlotFrames(s, acts);
    var r := DoAll(s, acts);
    AgreeIff(r.low, r.vid, Base(r.tab));
  }

  /**
   * Between two ticks a process reaches its own screen exactly while its terminal is visible or not
   * as it was at the tick.
   */
  lemma OwnBetweenTicks(s: State, acts: seq<Action>)
    requires Fine(s) && AllAllowed(acts) && NoTick(acts)
    requires s.low == s.vid == Shown(s.tab.scheduled, s.visible)
    ensures var r := DoAll(s, acts);
            ReachesOwn(r) <==> (r.visible == r.tab.scheduled <==> s.visible == s.tab.scheduled)
  {
    SlotFrames(s, acts);
    ReachesOwnIff(DoAll(s, acts));
  }

  /** The first byte of terminal `t`'s screen. */
  function ScreenStart(t: nat, visible: nat): nat
    requires t < TTYS
  {
    4096 * Shown(t, visible)
  }

  /** Some terminal other than the running process's has its screen in the process's reach. */
  ghost predicate ReachesAnother(r: State)
    requires Fine(r)
  {
    exists t: nat :: t < TTYS && t != r.tab.scheduled && Reachable(r.low, r.vid, Base(r.tab), ScreenStart(t, r.visible))
  }

  /** A process reaches another terminal's screen exactly while its own was visible at the tick and is not any more. */
  lemma AnotherBetweenTicks(s: State, acts: seq<Action>)
    requires Fine(s) && AllAllowed(acts) && NoTick(acts)
    requires s.low == s.vid == Shown(s.tab.scheduled, s.visible)
    ensures var r := DoAll(s, acts);
            ReachesAnother(r) <==> s.visible == s.tab.scheduled && r.visible != r.tab.scheduled
  {
    SlotFrames(s, acts);
    var r := DoAll(s, acts);
    forall t: nat | t < TTYS
      ensures Reachable(r.low, r.vid, Base(r.tab), ScreenStart(t, r.visible)) <==> Shown(t, r.visible) == r.vid
    {
      UserReach(r.low, r.vid, Last(r.tab.stacks[r.tab.scheduled]).pid, ScreenStart(t, r.visible));
    }
    assert Shown(r.visible, r.visible) == 0xB8;
  }

  // ---- The terminals' view ------------------------------------------------------------

  /** The same scheduled and visible terminal, and the same frame, physical or not, in the kernel's screen entry. */
  ghost predicate Matches(d: T.Desk, s: State) {
    d.Valid() && Fine(s) && d.scheduled == s.tab.scheduled && d.visible == s.visible && d.shadowed == (s.low != 0xB8)
  }

  /** The terminals' events move the entry as the machine's do. */
  lemma EventsMatch(d: T.Desk, s: State, at: Context, text: seq<byte>, line: seq<byte>, c: byte, t: nat)
    requires Matches(d, s) && t < TTYS
    ensures Matches(T.Ticked(d), Do(s, Schedule(Tick(at))))
    ensures Matches(T.Written(d, text), Do(s, Write)) && Matches(T.Echoed(d, line, c), Do(s, Write))
    ensures Matches(T.Switched(d, t), Do(s, Switch(t)))
  {
  }

  /** The kernel's map of the five video pages is the one the console stores through. */
  lemma VideoPages(c: V.Console, vid: nat, base: nat, a: address)
    requires c.Valid() && 0xB7000 <= a < 0xBC000
    ensures Layout(c.entry, vid, base, a, false) == At(0xB8000 + c.Phys(a))
  {
  }

  /** The alias page always reaches the frame of the visible terminal's screen, whatever is scheduled. */
  lemma AliasIsVisible(low: nat, vid: nat, base: nat, visible: nat, off: nat)
    requires visible < TTYS && off < 4096
    ensures Layout(low, vid, base, 0xB7000 + off, false) == At(4096 * Shown(visible, visible) + off)
    ensures forall t :: 0 <= t < TTYS ==> Shown(t, visible) == 0xB8 + V.FrameFor(visible, t)
  {
  }

  /** What happens: a user's or a process's event at the terminals, or a process starting or ending. */
  datatype Happening = Seen(e: T.Event, at: Context) | Ran(p: Event)

  /** Ticks are seen at the terminals. */
  predicate Told(hs: seq<Happening>) {
    forall h :: h in hs ==> h.Ran? ==> !h.p.Tick?
  }

  /** The events of a history that the terminals see. */
  function SeenIn(hs: seq<Happening>): seq<T.Event> {
    if hs == [] then []
    else if Last(hs).Seen? then SeenIn(Front(hs)) + [Last(hs).e]
    else SeenIn(Front(hs))
  }

  function Writes(n: nat): (acts: seq<Action>)
    ensures |acts| == n && forall a :: a in acts ==> a == Write
  {
    if n == 0 then [] else Writes(n - 1) + [Write]
  }

  /** The actions of one event: a key that echoes makes as many writes as it echoes bytes. */
  function ActionsOf(d: T.Desk, e: T.Event, at: Context): (acts: seq<Action>)
    requires d.Valid()
    ensures AllAllowed(acts)
  {
    match e
    case Tick => [Schedule(Tick(at))]
    case Write(_) => [Write]
    case Read(_) => []
    case Key(chr, ctrl) =>
      if T.F1 <= chr <= T.F3 then [Switch(chr - T.F1)] else Writes(|T.Echo(d, chr, ctrl)|)
  }

  /** The actions of a whole history. */
  function ActionsIn(d: T.Desk, hs: seq<Happening>): (acts: seq<Action>)
    requires d.Valid()
    ensures AllAllowed(acts)
  {
    if hs == [] then []
    else
      var h := Last(hs);
      ActionsIn(d, Front(hs)) +
      (if h.Seen? then ActionsOf(T.Run(d, SeenIn(Front(hs))), h.e, h.at) else [Schedule(h.p)])
  }

  lemma {:induction false} DoAllConcat(s: State, a: seq<Action>, b: seq<Action>)
    requires Fine(s) && AllAllowed(a) && AllAllowed(b)
    ensures AllAllowed(a + b) && DoAll(s, a + b) == DoAll(DoAll(s, a), b)
    decreases |b|
  {
    if b == [] {
      assert a + b == a;
    } else {
      assert Front(a + b) == a + Front(b) && Last(a + b) == Last(b) && Last(b) in b;
      assert AllAllowed(Front(b));
      DoAllConcat(s, a, Front(b));
    }
  }

  lemma DoOne(s: State, a: Action)
    requires Fine(s) && Allowed(a)
    ensures DoAll(s, [a]) == Do(s, a)
  {
    assert Front([a]) == [] && DoAll(s, []) == s;
  }

  /** Any positive number of writes in a row does what one does. */
  lemma {:induction false} WritesDo(s: State, n: nat)
    requires Fine(s)
    ensures DoAll(s, Writes(n)) == if n == 0 then s else Do(s, Write)
  {
    if n > 0 {
      assert Front(Writes(n)) == Writes(n - 1);
      WritesDo(s, n - 1);
    }
  }

  lemma KeyMatches(d: T.Desk, s: State, chr: byte, ctrl: bool, at: Context)
    requires Matches(d, s)
    ensures Matches(T.Pressed(d, chr, ctrl), DoAll(s, ActionsOf(d, T.Key(chr, ctrl), at)))
  {
    if T.F1 <= chr <= T.F3 {
      DoOne(s, Switch(chr - T.F1));
      EventsMatch(d, s, at, [], [], 0, chr - T.F1);
    } else {
      var n := |T.Echo(d, chr, ctrl)|;
      WritesDo(s, n);
      KeyMaps(d, chr, ctrl);
      EchoMatches(d, s, T.Pressed(d, chr, ctrl), n);
    }
  }

  lemma EchoMatches(d: T.Desk, s: State, r: T.Desk, n: nat)
    requires Matches(d, s) && r.Valid() && r.scheduled == d.scheduled && r.visible == d.visible
    requires r.shadowed == if n == 0 then d.shadowed else d.Remapped().shadowed
    ensures Matches(r, if n == 0 then s else Do(s, Write))
  {
  }

  /** A key that echoes moves a stale entry and one that does not moves nothing. */
  lemma KeyMaps(d: T.Desk, chr: byte, ctrl: bool)
    requires d.Valid() && !(T.F1 <= chr <= T.F3)
    ensures var r := T.Pressed(d, chr, ctrl);
            && r.scheduled == d.scheduled && r.visible == d.visible
            && r.shadowed == if T.Echo(d, chr, ctrl) == [] then d.shadowed else d.Remapped().shadowed
  {
    if chr == TAB {
      TabMaps(d);
    }
  }

  lemma TypedMaps(d: T.Desk, c: byte)
    requires d.Valid()
    ensures var r := T.Typed(d, c);
            && r.scheduled == d.scheduled && r.visible == d.visible
            && |r.ttys[d.visible].line| == |d.ttys[d.visible].line| + (if |d.ttys[d.visible].line| < 126 then 1 else 0)
            && r.shadowed == if |d.ttys[d.visible].line| < 126 then d.Remapped().shadowed else d.shadowed
  {
  }

  lemma TabMaps(d: T.Desk)
    requires d.Valid()
    ensures var r := T.Pressed(d, TAB, false);
            && r.scheduled == d.scheduled && r.visible == d.visible
            && r.shadowed == if |d.ttys[d.visible].line| < 126 then d.Remapped().shadowed else d.shadowed
  {
    var d1 := T.Typed(d, T.SPACE);
    var d2 := T.Typed(d1, T.SPACE);
    var d3 := T.Typed(d2, T.SPACE);
    TypedMaps(d, T.SPACE);
    TypedMaps(d1, T.SPACE);
    TypedMaps(d2, T.SPACE);
    TypedMaps(d3, T.SPACE);
  }

  /**
   * Over every history of terminal events and processes starting and ending, the machine's actions
   * leave the same terminals scheduled and visible, and the same frame in the kernel's entry, as the
   * terminals' own run.
   */
  lemma {:induction false} RunsMatch(d: T.Desk, s: State, hs: seq<Happening>)
    requires Matches(d, s) && Told(hs)
    ensures Matches(T.Run(d, SeenIn(hs)), DoAll(s, ActionsIn(d, hs)))
  {
    if hs != [] {
      var f, h := Front(hs), Last(hs);
      assert Told(f) && h in hs;
      RunsMatch(d, s, f);
      var r, u := T.Run(d, SeenIn(f)), DoAll(s, ActionsIn(d, f));
      if h.Seen? {
        assert Front(SeenIn(hs)) == SeenIn(f) && Last(SeenIn(hs)) == h.e;
        DoAllConcat(s, ActionsIn(d, f), ActionsOf(r, h.e, h.at));
        OneMatches(r, u, h.e, h.at);
      } else {
        DoAllConcat(s, ActionsIn(d, f), [Schedule(h.p)]);
        DoOne(u, Schedule(h.p));
      }
    }
  }

  lemma OneMatches(d: T.Desk, s: State, e: T.Event, at: Context)
    requires Matches(d, s)
    ensures Matches(T.Step(d, e), DoAll(s, ActionsOf(d, e, at)))
  {
    match e
    case Tick => DoOne(s, Schedule(Tick(at))); EventsMatch(d, s, at, [], [], 0, 0);
    case Write(text) => DoOne(s, Write); EventsMatch(d, s, at, text, [], 0, 0);
    case Read(_) =>
    case Key(chr, ctrl) => KeyMatches(d, s, chr, ctrl, at);
  }

  // ---- The kernel's structures --------------------------------------------------------

  class System {
    const kernel: Kernel
    const mmu: Mmu
    var visible: nat

    ghost function Abs(): State
      reads this, kernel, mmu.low, mmu.vidmap
      requires mmu.Valid()
    {
      State(kernel.tab, visible, mmu.low[0xB8].frame, mmu.vidmap[0xB8].frame)
    }

    /** The tables translate every address as the abstract state says. */
    ghost predicate Valid()
      reads this, kernel, kernel.slots, kernel.top, kernel.pcbs, mmu.directory, mmu.low, mmu.vidmap
    {
      && kernel.Valid() && mmu.Valid() && Fine(Abs())
      && mmu.Mapped(Abs().low, Abs().vid, Base(kernel.tab)) && mmu.Translates(Abs().low, Abs().vid, Base(kernel.tab))
    }

    /** Booting: init_paging, then three ticks that each start a root shell. */
    constructor (lowFrame: nat, vidmapFrame: nat, at: seq<Context>)
      requires lowFrame != vidmapFrame && |at| == TTYS
      ensures Booted() && fresh(kernel) && fresh(kernel.slots) && fresh(kernel.top) && fresh(kernel.pcbs)
      ensures fresh(mmu.directory) && fresh(mmu.low) && fresh(mmu.vidmap)
    {
      kernel := new Kernel();
      mmu := new Mmu(lowFrame, vidmapFrame);
      visible := 0;
      new;
      mmu.InitPaging();
      Boot(at);
    }

    ghost predicate Booted()
      reads this, kernel, kernel.slots, kernel.top, kernel.pcbs, mmu.directory, mmu.low, mmu.vidmap
    {
      && Valid() && Abs().low == Abs().vid == Shown(kernel.tab.scheduled, visible)
      && kernel.tab.scheduled == 2 && visible == 0 && forall t :: 0 <= t < TTYS ==> |kernel.tab.stacks[t]| == 1
    }

    method Boot(at: seq<Context>)
      requires |at| == TTYS && kernel.Booting(0) && mmu.Valid() && mmu.Mapped(0xB8, 0xB8, 2048) && visible == 0
      modifies kernel, kernel.slots, kernel.top, kernel.pcbs, mmu.directory, mmu.low, mmu.vidmap
      ensures Booted()
    {
      BootTick(at[0], 0, 0xB8, 2048);
      BootTick(at[1], 1, 0xB8, UserBase(0));
      BootTick(at[2], 2, 0xBA, UserBase(1));
      BootDone();
    }

    lemma BootDone()
      requires kernel.Booting(TTYS) && mmu.Valid() && visible == 0
      requires mmu.Mapped(0xBB, 0xBB, UserBase(2)) && mmu.Translates(0xBB, 0xBB, UserBase(2))
      ensures Booted()
    {
      kernel.Booted();
      assert mmu.low[0xB8] == mmu.LowEntry(0xB8, 0xBB) && mmu.vidmap[0xB8] == mmu.VidmapEntry(0xB8, 0xBB);
    }

    /** pit_handler while the next terminal has no process. */
    method BootTick(at: Context, n: nat, ghost f: nat, ghost base: nat)
      requires n < TTYS && kernel.Booting(n) && mmu.Valid() && mmu.Mapped(f, f, base) && visible == 0
      modifies kernel, kernel.slots, kernel.top, kernel.pcbs, mmu.directory, mmu.low, mmu.vidmap
      ensures kernel.Booting(n + 1) && mmu.Mapped(Shown(n, 0), Shown(n, 0), UserBase(n))
      ensures mmu.Translates(Shown(n, 0), Shown(n, 0), UserBase(n))
    {
      kernel.BootTick(at, n);
      mmu.Remap(kernel.scheduled, visible, f, f, base);
      mmu.LoadUser(kernel.top[kernel.scheduled], Shown(n, 0), Shown(n, 0), base);
    }

    /** pit_handler, with its mapping. */
    method HandleTick(at: Context) returns (next: Context)
      requires Valid()
      modifies kernel, kernel.slots, kernel.top, kernel.pcbs, mmu.directory, mmu.low, mmu.vidmap
      ensures Valid() && Abs() == Do(old(Abs()), Schedule(Tick(at)))
      ensures next == old(kernel.tab).resume[kernel.tab.scheduled]
    {
      ghost var s := Abs();
      next := kernel.Tick(at);
      mmu.Remap(kernel.scheduled, visible, s.low, s.vid, Base(s.tab));
      ghost var f := Shown(kernel.scheduled, visible);
      mmu.LoadUser(kernel.top[kernel.scheduled], f, f, Base(s.tab));
    }

    /** syscall_execute, with its mapping. */
    method HandleExecute(valid: bool, caller: Context) returns (r: int)
      requires Valid()
      modifies kernel, kernel.slots, kernel.top, kernel.pcbs, mmu.directory
      ensures Valid() && Abs() == Do(old(Abs()), Schedule(Execute(valid, caller)))
      ensures r == if valid && FreeFrom(old(kernel.tab), 0) < MAX_PIDS then FreeFrom(old(kernel.tab), 0) else -1
    {
      ghost var s := Abs();
      r := kernel.Execute(valid, caller);
      if r != -1 {
        mmu.LoadUser(r, s.low, s.vid, Base(s.tab));
      }
    }

    /** syscall_halt, with its mapping. */
    method HandleHalt(caller: Context) returns (r: Option<Context>)
      requires Valid()
      modifies kernel, kernel.slots, kernel.top, kernel.pcbs, mmu.directory
      ensures Valid() && Abs() == Do(old(Abs()), Schedule(Halt(caller))) && r == HaltReturns(old(kernel.tab))
    {
      ghost var s := Abs();
      r := kernel.Halt(caller);
      mmu.LoadUser(kernel.top[kernel.scheduled], s.low, s.vid, Base(s.tab));
    }

    /** The mapping part of terminal_write. */
    method HandleWrite()
      requires Valid()
      modifies mmu.low
      ensures Valid() && Abs() == Do(old(Abs()), Write)
    {
      mmu.MoveStale(kernel.scheduled, visible, Abs().low, Abs().vid, Base(kernel.tab));
    }

    method Handle(a: Action)
      requires Valid() && Allowed(a)
      modifies this, kernel, kernel.slots, kernel.top, kernel.pcbs, mmu.directory, mmu.low, mmu.vidmap
      ensures Valid() && Abs() == Do(old(Abs()), a)
    {
      match a
      case Schedule(Tick(at)) => var next := HandleTick(at);
      case Schedule(Execute(valid, caller)) => var r := HandleExecute(valid, caller);
      case Schedule(Halt(caller)) => var r := HandleHalt(caller);
      case Switch(t) => visible := t;
      case Write => HandleWrite();
    }

    /** Processes, kernel and every translated address follow the abstract run. */
    method HandleAll(acts: seq<Action>)
      requires Valid() && AllAllowed(acts)
      modifies this, kernel, kernel.slots, kernel.top, kernel.pcbs, mmu.directory, mmu.low, mmu.vidmap
      ensures Valid() && Abs() == DoAll(old(Abs()), acts)
    {
      ghost var s := Abs();
      for i := 0 to |acts|
        invariant Valid() && AllAllowed(acts[..i]) && Abs() == DoAll(s, acts[..i])
      {
        assert Front(acts[..i + 1]) == acts[..i] && acts[i] in acts;
        Handle(acts[i]);
      }
      assert acts[..|acts|] == acts;
    }
  }
}
