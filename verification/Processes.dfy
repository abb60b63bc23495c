/** Three per-terminal stacks of processes, encoded as parent links in a pool of six PCBs. */
module Processes {
  import opened Basics

  const TTYS: nat := 3
  const MAX_PIDS: nat := 6

  /** A saved (ebp, esp) pair. */
  datatype Context = Context(ebp: int, esp: int)

  // ---- The abstract table -------------------------------------------------------------

  /** A process and the kernel context of the execute that started it. */
  datatype Frame = Frame(pid: nat, caller: Context)

  /** Per terminal, the stack of its processes (root first) and where it was last preempted. */
  datatype Table = Table(stacks: seq<seq<Frame>>, resume: seq<Context>, scheduled: nat) {
    predicate Shaped() {
      && |stacks| == TTYS && |resume| == TTYS && scheduled < TTYS
      && (forall t :: 0 <= t < TTYS ==> stacks[t] != [])
    }
  }

  datatype Event =
    | Tick(at: Context)
    | Execute(valid: bool, caller: Context)
    | Halt(caller: Context)

  /** Process `p` is the k-th of terminal `t`, counted from its root. */
  predicate At(tab: Table, t: int, k: int, p: int) {
    0 <= t < |tab.stacks| && 0 <= k < |tab.stacks[t]| && tab.stacks[t][k].pid == p
  }

  ghost predicate Running(tab: Table, p: int) {
    exists t, k :: At(tab, t, k, p)
  }

  /** The lowest pid from `p` on that is not running, or 6. */
  ghost function FreeFrom(tab: Table, p: nat): (r: nat)
    requires p <= MAX_PIDS
    ensures p <= r <= MAX_PIDS && (r < MAX_PIDS ==> !Running(tab, r))
    ensures forall q :: p <= q < r ==> Running(tab, q)
    decreases MAX_PIDS - p
  {
    if p == MAX_PIDS || !Running(tab, p) then p else FreeFrom(tab, p + 1)
  }

  /** After boot: terminal t's stack starts with process t, every other process is 3, 4 or 5, and none runs twice. */
  ghost predicate Sound(tab: Table) {
    && tab.Shaped()
    && (forall t :: 0 <= t < TTYS ==> tab.stacks[t] != [] && At(tab, t, 0, t))
    && (forall t, k, p :: At(tab, t, k, p) && k > 0 ==> TTYS <= p < MAX_PIDS)
    && (forall t, k, u, l, p :: At(tab, t, k, p) && At(tab, u, l, p) ==> t == u && k == l)
  }

  function WithStack(tab: Table, s: seq<Frame>): (r: Table)
    requires tab.Shaped() && s != []
    ensures r.Shaped()
  {
    tab.(stacks := tab.stacks[tab.scheduled := s])
  }

  function Ticked(tab: Table, at: Context): (r: Table)
    requires tab.Shaped()
    ensures r.Shaped()
  {
    tab.(resume := tab.resume[tab.scheduled := at], scheduled := (tab.scheduled + 1) % TTYS)
  }

  ghost function Executed(tab: Table, valid: bool, caller: Context): (r: Table)
    requires tab.Shaped()
    ensures r.Shaped()
  {
    var p := FreeFrom(tab, 0);
    if !valid || p == MAX_PIDS then tab
    else WithStack(tab, tab.stacks[tab.scheduled] + [Frame(p, caller)])
  }

  /** A root shell is replaced by a new root shell; any other process gives way to its parent. */
  function Halted(tab: Table, caller: Context): (r: Table)
    requires tab.Shaped()
    ensures r.Shaped()
  {
    var s := tab.stacks[tab.scheduled];
    WithStack(tab, if |s| == 1 then [Frame(s[0].pid, caller)] else Front(s))
  }

  ghost function Step(tab: Table, e: Event): (r: Table)
    requires tab.Shaped()
    ensures r.Shaped()
  {
    match e
    case Tick(at) => Ticked(tab, at)
    case Execute(valid, caller) => Executed(tab, valid, caller)
    case Halt(caller) => Halted(tab, caller)
  }

  lemma RootsRun(tab: Table)
    requires Sound(tab)
    ensures TTYS <= FreeFrom(tab, 0)
  {
    assert At(tab, 0, 0, 0) && At(tab, 1, 0, 1) && At(tab, 2, 0, 2);
    assert FreeFrom(tab, 0) == FreeFrom(tab, 1) == FreeFrom(tab, 2) == FreeFrom(tab, 3);
  }

  /** Starting a process adds one place; halting a child takes its place away; nothing else moves. */
  lemma StepPlaces(tab: Table, e: Event, t: int, k: int, p: int)
    requires Sound(tab)
    ensures var r, s := Step(tab, e), tab.scheduled;
            At(r, t, k, p) <==>
              if e.Execute? && e.valid && FreeFrom(tab, 0) < MAX_PIDS && t == s && k == |tab.stacks[s]|
              then p == FreeFrom(tab, 0)
              else At(tab, t, k, p) && !(e.Halt? && t == s && k > 0 && k == |tab.stacks[s]| - 1)
  {
  }

  /** Every event keeps the stacks rooted, disjoint and duplicate-free. */
  lemma StepSound(tab: Table, e: Event)
    requires Sound(tab)
    ensures Sound(Step(tab, e))
  {
    var r := Step(tab, e);
    RootsRun(tab);
    forall t | 0 <= t < TTYS ensures At(r, t, 0, t) {
      StepPlaces(tab, e, t, 0, t);
    }
    forall t, k, p | At(r, t, k, p) && k > 0 ensures TTYS <= p < MAX_PIDS {
      StepPlaces(tab, e, t, k, p);
    }
    forall t, k, u, l, p | At(r, t, k, p) && At(r, u, l, p) ensures t == u && k == l {
      StepPlaces(tab, e, t, k, p);
      StepPlaces(tab, e, u, l, p);
    }
  }

  ghost function Run(tab: Table, es: seq<Event>): (r: Table)
    requires tab.Shaped()
    ensures r.Shaped()
  {
    if es == [] then tab else Step(Run(tab, Front(es)), Last(es))
  }

  /** Every reachable table is sound. */
  lemma {:induction false} RunSound(tab: Table, es: seq<Event>)
    requires Sound(tab)
    ensures Sound(Run(tab, es))
  {
    if es != [] {
      RunSound(tab, Front(es));
      StepSound(Run(tab, Front(es)), Last(es));
    }
  }

  // ---- Round robin --------------------------------------------------------------------

  function TickCount(es: seq<Event>): nat {
    if es == [] then 0 else TickCount(Front(es)) + if Last(es).Tick? then 1 else 0
  }

  /** Over any run the scheduled terminal advances by one, round all three, with every tick and nothing else. */
  lemma {:induction false} Rotates(tab: Table, es: seq<Event>)
    requires tab.Shaped()
    ensures Run(tab, es).scheduled == (tab.scheduled + TickCount(es)) % 3
  {
    if es != [] {
      Rotates(tab, Front(es));
    }
  }

  lemma {:induction false} SomeCount(es: seq<Event>, n: nat) returns (i: nat)
    requires n <= TickCount(es)
    ensures i <= |es| && TickCount(es[..i]) == n
  {
    if n == TickCount(es) {
      i := |es|;
      assert es[..i] == es;
    } else {
      i := SomeCount(Front(es), n);
      assert Front(es)[..i] == es[..i];
    }
  }

  /** A run with three ticks schedules every terminal. */
  lemma EveryTerminalRuns(tab: Table, es: seq<Event>, t: nat) returns (i: nat)
    requires tab.Shaped() && t < 3 && TickCount(es) >= 3
    ensures i <= |es| && TickCount(es[..i]) > 0 && Run(tab, es[..i]).scheduled == t
  {
    i := SomeCount(es, if t > tab.scheduled then t - tab.scheduled else t + 3 - tab.scheduled);
    Rotates(tab, es[..i]);
  }

  // ---- Properties of whole runs -------------------------------------------------------

  /** Terminal `t` is not the scheduled one when any of the events happens. */
  ghost predicate Away(tab: Table, es: seq<Event>, t: nat)
    requires tab.Shaped()
  {
    es == [] || (Away(tab, Front(es), t) && Run(tab, Front(es)).scheduled != t)
  }

  lemma {:induction false} AwayIsUntouched(tab: Table, es: seq<Event>, t: nat)
    requires tab.Shaped() && t < TTYS && Away(tab, es, t)
    ensures Run(tab, es).stacks[t] == tab.stacks[t] && Run(tab, es).resume[t] == tab.resume[t]
  {
    if es != [] {
      AwayIsUntouched(tab, Front(es), t);
    }
  }

  /**
   * A terminal preempted at `at` is resumed at `at`, with the same processes, whatever ticks,
   * executes and halts happen for the other terminals in between.
   */
  lemma ResumedWherePreempted(tab: Table, at: Context, es: seq<Event>)
    requires tab.Shaped() && Away(Ticked(tab, at), es, tab.scheduled)
    ensures Run(Ticked(tab, at), es).resume[tab.scheduled] == at
    ensures Run(Ticked(tab, at), es).stacks[tab.scheduled] == tab.stacks[tab.scheduled]
  {
    AwayIsUntouched(Ticked(tab, at), es, tab.scheduled);
  }

  /** The stack of terminal `t` stays more than `k` deep. */
  ghost predicate StaysDeep(tab: Table, es: seq<Event>, t: nat, k: nat)
    requires tab.Shaped() && t < TTYS
  {
    |Run(tab, es).stacks[t]| > k && (es == [] || StaysDeep(tab, Front(es), t, k))
  }

  lemma {:induction false} DeepPartStays(tab: Table, es: seq<Event>, t: nat, k: nat)
    requires tab.Shaped() && t < TTYS && k > 0 && StaysDeep(tab, es, t, k)
    ensures |tab.stacks[t]| > k && |Run(tab, es).stacks[t]| > k
    ensures Run(tab, es).stacks[t][..k + 1] == tab.stacks[t][..k + 1]
    decreases |es|
  {
    if es != [] {
      DeepPartStays(tab, Front(es), t, k);
    }
  }

  /** The context a halt returns to; none when a root shell is replaced. */
  function HaltReturns(tab: Table): Option<Context>
    requires tab.Shaped()
  {
    var s := tab.stacks[tab.scheduled];
    if |s| == 1 then None else Some(Last(s).caller)
  }

  /**
   * A halt returns to the execute that started its process and leaves the terminal's stack as it
   * was before that execute, however many ticks, nested processes and other terminals' events
   * came between.
   */
  lemma HaltMatchesExecute(tab: Table, caller: Context, es: seq<Event>, halter: Context)
    requires tab.Shaped() && FreeFrom(tab, 0) < MAX_PIDS
    requires var t, k := tab.scheduled, |tab.stacks[tab.scheduled]|;
             StaysDeep(Executed(tab, true, caller), es, t, k) &&
             Run(Executed(tab, true, caller), es).scheduled == t &&
             |Run(Executed(tab, true, caller), es).stacks[t]| == k + 1
    ensures var r := Run(Executed(tab, true, caller), es);
            HaltReturns(r) == Some(caller) && Halted(r, halter).stacks[tab.scheduled] == tab.stacks[tab.scheduled]
  {
    var t, k := tab.scheduled, |tab.stacks[tab.scheduled]|;
    var x := Executed(tab, true, caller);
    DeepPartStays(x, es, t, k);
    var s := Run(x, es).stacks[t];
    assert s == x.stacks[t][..k + 1] == tab.stacks[t] + [Frame(FreeFrom(tab, 0), caller)];
  }

  /** Execute and then halt is the identity; halting a root keeps every process where it was. */
  lemma HaltUndoesExecute(tab: Table, caller: Context, halter: Context)
    requires Sound(tab)
    ensures FreeFrom(tab, 0) < MAX_PIDS ==> Halted(Executed(tab, true, caller), halter) == tab
    ensures HaltReturns(tab) == None ==> forall t, k, p :: At(Halted(tab, halter), t, k, p) <==> At(tab, t, k, p)
  {
    var s := tab.stacks[tab.scheduled];
    assert Front(s + [Frame(FreeFrom(tab, 0), caller)]) == s;
  }

  // ---- Capacity -----------------------------------------------------------------------

  function Pids(s: seq<Frame>): set<nat> {
    set k | 0 <= k < |s| :: s[k].pid
  }

  lemma {:induction false} PidsCount(s: seq<Frame>)
    requires forall k, l :: 0 <= k < l < |s| ==> s[k].pid != s[l].pid
    ensures |Pids(s)| == |s|
  {
    if s != [] {
      PidsCount(Front(s));
      assert Pids(s) == Pids(Front(s)) + {Last(s).pid};
    }
  }

  lemma PidsOfStack(tab: Table, t: nat)
    requires Sound(tab) && t < TTYS
    ensures |Pids(tab.stacks[t])| == |tab.stacks[t]|
    ensures forall p: nat :: p in Pids(tab.stacks[t]) <==> exists k :: At(tab, t, k, p)
  {
    var s := tab.stacks[t];
    forall k, l | 0 <= k < l < |s| ensures s[k].pid != s[l].pid {
      assert At(tab, t, k, s[k].pid) && At(tab, t, l, s[l].pid);
    }
    PidsCount(s);
    forall p: nat ensures p in Pids(s) <==> exists k :: At(tab, t, k, p) {
      if p in Pids(s) {
        var k :| 0 <= k < |s| && s[k].pid == p;
        assert At(tab, t, k, p);
      }
    }
  }

  lemma SixPids(u: set<nat>)
    requires forall p :: p in u ==> p < MAX_PIDS
    ensures |u| == MAX_PIDS <==> forall p: nat :: p < MAX_PIDS ==> p in u
  {
    var all: set<nat> := {0, 1, 2, 3, 4, 5};
    assert |all| == MAX_PIDS;
    assert u <= all;
    SubsetCount(u, all);
    if forall p: nat :: p < MAX_PIDS ==> p in u {
      assert 0 in u && 1 in u && 2 in u && 3 in u && 4 in u && 5 in u;
      assert u == all;
    }
  }

  function Union(tab: Table): set<nat>
    requires |tab.stacks| == TTYS
  {
    Pids(tab.stacks[0]) + Pids(tab.stacks[1]) + Pids(tab.stacks[2])
  }

  lemma UnionCount(tab: Table)
    requires Sound(tab)
    ensures |Union(tab)| == |tab.stacks[0]| + |tab.stacks[1]| + |tab.stacks[2]|
  {
    PidsOfStack(tab, 0);
    PidsOfStack(tab, 1);
    PidsOfStack(tab, 2);
    assert Pids(tab.stacks[0]) !! Pids(tab.stacks[1]) !! Pids(tab.stacks[2]);
  }

  lemma UnionBound(tab: Table)
    requires Sound(tab)
    ensures forall p :: p in Union(tab) ==> p < MAX_PIDS
  {
    RunningIsUnion(tab);
    forall p | p in Union(tab) ensures p < MAX_PIDS {
      var t, k :| At(tab, t, k, p);
      assert At(tab, t, 0, t);
    }
  }

  /** A new process is refused exactly when the three stacks hold six processes between them. */
  lemma FullIffSix(tab: Table)
    requires Sound(tab)
    ensures FreeFrom(tab, 0) == MAX_PIDS <==> |tab.stacks[0]| + |tab.stacks[1]| + |tab.stacks[2]| == MAX_PIDS
  {
    UnionCount(tab);
    UnionBound(tab);
    RunningIsUnion(tab);
    SixPids(Union(tab));
  }

  lemma RunningIsUnion(tab: Table)
    requires Sound(tab)
    ensures forall p: nat :: Running(tab, p) <==> p in Union(tab)
  {
    PidsOfStack(tab, 0);
    PidsOfStack(tab, 1);
    PidsOfStack(tab, 2);
    forall p: nat ensures Running(tab, p) <==> p in Union(tab) {
      if Running(tab, p) {
        var t, k :| At(tab, t, k, p);
        assert t == 0 || t == 1 || t == 2;
      }
    }
  }

  // ---- The kernel's own structures ----------------------------------------------------

  const EIGHT_MB: nat := 0x800000

  /** The parts of a pcb_t that scheduling uses. */
  datatype Pcb = Pcb(processId: int, parentId: int, saved: Context, resume: Context, active: bool)

  function PcbAddress(p: int): int {
    0x800000 - (p + 1) * 0x2000
  }

  function StackTop(p: int): int {
    0x800000 - p * 0x2000
  }

  function UserFrame(p: int): int {
    0x800000 + p * 0x400000
  }

  /** Distinct processes have disjoint kernel blocks below 8MB and disjoint user frames above. */
  lemma RegionsDisjoint(p: nat, q: nat)
    requires p < q < MAX_PIDS
    ensures 0x400000 <= PcbAddress(q) < StackTop(q) <= PcbAddress(p) < StackTop(p) <= EIGHT_MB
    ensures EIGHT_MB <= UserFrame(p) && UserFrame(p) + 0x400000 <= UserFrame(q)
    ensures UserFrame(p) % 0x400000 == 0
    ensures PcbAddress(p) + 0x2000 == StackTop(p) && StackTop(p + 1) == PcbAddress(p) && StackTop(0) == 0x800000
    ensures UserFrame(p + 1) == UserFrame(p) + 0x400000 && UserFrame(0) == 0x800000
  {
  }

  ghost predicate Tops(top: seq<int>, tab: Table)
    requires Sound(tab)
  {
    |top| == TTYS && forall t :: 0 <= t < TTYS ==> top[t] == Last(tab.stacks[t]).pid && 0 <= top[t] < MAX_PIDS
  }

  ghost predicate Marks(slots: seq<int>, tab: Table) {
    |slots| == MAX_PIDS && forall p :: 0 <= p < MAX_PIDS ==> (slots[p] != 0 <==> Running(tab, p))
  }

  ghost predicate Links(pcbs: seq<Pcb>, tab: Table) {
    |pcbs| == MAX_PIDS && forall t, k, p :: At(tab, t, k, p) ==> 0 <= p < MAX_PIDS && Linked(pcbs[p], tab, t, k, p)
  }

  ghost predicate Resumes(top: seq<int>, pcbs: seq<Pcb>, tab: Table)
    requires Sound(tab) && Tops(top, tab) && |pcbs| == MAX_PIDS
  {
    forall t :: 0 <= t < TTYS && t != tab.scheduled ==> pcbs[top[t]].resume == tab.resume[t]
  }

  /** The arrays encode the table: parent links spell the stacks, and pid[] marks exactly their members. */
  ghost predicate Encodes(slots: seq<int>, top: seq<int>, pcbs: seq<Pcb>, tab: Table) {
    Sound(tab) && Tops(top, tab) && Marks(slots, tab) && Links(pcbs, tab) && Resumes(top, pcbs, tab)
  }

  /** The PCB of the k-th process of a terminal points to the one below it. */
  predicate Linked(b: Pcb, tab: Table, t: int, k: int, p: int)
    requires At(tab, t, k, p)
  {
    && b.processId == p
    && b.parentId == (if k == 0 then -1 else tab.stacks[t][k - 1].pid)
    && (k > 0 ==> b.saved == tab.stacks[t][k].caller)
  }

  /** The processes met on following parent links from `p`, oldest first. */
  function Chain(pcbs: seq<Pcb>, p: int, fuel: nat): seq<int>
    decreases fuel
  {
    if fuel == 0 || !(0 <= p < |pcbs|) then [] else Chain(pcbs, pcbs[p].parentId, fuel - 1) + [p]
  }

  /** Parent links from the k-th process of a terminal spell the stack below it and then stop. */
  lemma {:induction false} ChainIsStack(slots: seq<int>, top: seq<int>, pcbs: seq<Pcb>, tab: Table, t: nat, k: nat,
      fuel: nat)
    requires Encodes(slots, top, pcbs, tab) && t < TTYS && k < |tab.stacks[t]| && fuel > k
    ensures Chain(pcbs, tab.stacks[t][k].pid, fuel) == seq(k + 1, i requires 0 <= i <= k => tab.stacks[t][i].pid)
    decreases k
  {
    var p := tab.stacks[t][k].pid;
    assert At(tab, t, k, p);
    if k > 0 {
      ChainIsStack(slots, top, pcbs, tab, t, k - 1, fuel - 1);
    } else {
      assert Chain(pcbs, -1, fuel - 1) == [];
    }
  }

  /** The first free slot is the lowest pid that is not running. */
  lemma FirstSlot(slots: seq<int>, top: seq<int>, pcbs: seq<Pcb>, tab: Table, r: nat)
    requires Encodes(slots, top, pcbs, tab) && r <= MAX_PIDS
    requires forall q :: 0 <= q < r ==> slots[q] != 0
    requires r < MAX_PIDS ==> slots[r] == 0
    ensures r == FreeFrom(tab, 0)
  {
    var f := FreeFrom(tab, 0);
    assert f < MAX_PIDS ==> slots[f] == 0;
    assert r < MAX_PIDS ==> !Running(tab, r);
  }

  lemma EncodesLaunch(slots: seq<int>, top: seq<int>, pcbs: seq<Pcb>, tab: Table, caller: Context, r: nat, b: Pcb)
    requires Encodes(slots, top, pcbs, tab) && r == FreeFrom(tab, 0) < MAX_PIDS
    requires b.processId == r && b.parentId == top[tab.scheduled] && b.saved == caller
    ensures Encodes(slots[r := 1], top[tab.scheduled := r], pcbs[r := b], Executed(tab, true, caller))
  {
    var e := Execute(true, caller);
    var x := Executed(tab, true, caller);
    StepSound(tab, e);
    RootsRun(tab);
    forall p | 0 <= p < MAX_PIDS ensures slots[r := 1][p] != 0 <==> Running(x, p) {
      PlaceRunning(tab, e, p);
    }
    LinksLaunch(pcbs, tab, caller, r, b);
    TopPlace(tab, 0);
    TopPlace(tab, 1);
    TopPlace(tab, 2);
    ResumesKept(top, pcbs, tab, r, b, r, x);
  }

  lemma LinksLaunch(pcbs: seq<Pcb>, tab: Table, caller: Context, r: nat, b: Pcb)
    requires Sound(tab) && Links(pcbs, tab) && r == FreeFrom(tab, 0) < MAX_PIDS && r >= TTYS
    requires b.processId == r && b.parentId == Last(tab.stacks[tab.scheduled]).pid && b.saved == caller
    ensures Links(pcbs[r := b], Executed(tab, true, caller))
  {
    var x := Executed(tab, true, caller);
    forall t, k, p | At(x, t, k, p) ensures 0 <= p < MAX_PIDS && Linked(pcbs[r := b][p], x, t, k, p) {
      StepPlaces(tab, Execute(true, caller), t, k, p);
    }
  }

  /** Changing a PCB that no other terminal runs, and the scheduled terminal's top, keeps the saved contexts. */
  lemma ResumesKept(top: seq<int>, pcbs: seq<Pcb>, tab: Table, r: nat, b: Pcb, newTop: nat, x: Table)
    requires Sound(tab) && Sound(x) && Tops(top, tab) && |pcbs| == MAX_PIDS && Resumes(top, pcbs, tab) && r < MAX_PIDS
    requires x.scheduled == tab.scheduled && x.resume == tab.resume && Tops(top[tab.scheduled := newTop], x)
    requires forall t :: 0 <= t < TTYS && t != tab.scheduled ==> top[t] != r
    ensures Resumes(top[tab.scheduled := newTop], pcbs[r := b], x)
  {
  }

  /** The top process of a terminal is in its place. */
  lemma TopPlace(tab: Table, t: nat)
    requires Sound(tab) && t < TTYS
    ensures At(tab, t, |tab.stacks[t]| - 1, Last(tab.stacks[t]).pid)
  {
  }

  lemma PlaceRunning(tab: Table, e: Event, p: int)
    requires Sound(tab) && 0 <= p < MAX_PIDS
    ensures e.Execute? && e.valid && FreeFrom(tab, 0) < MAX_PIDS ==>
              (Running(Step(tab, e), p) <==> Running(tab, p) || p == FreeFrom(tab, 0))
    ensures e.Halt? ==>
              (Running(Step(tab, e), p) <==>
                 Running(tab, p) && !(|tab.stacks[tab.scheduled]| > 1 && p == Last(tab.stacks[tab.scheduled]).pid))
  {
    var r, s := Step(tab, e), tab.scheduled;
    if e.Execute? && e.valid && FreeFrom(tab, 0) < MAX_PIDS {
      StepPlaces(tab, e, s, |tab.stacks[s]|, FreeFrom(tab, 0));
    }
    if Running(tab, p) {
      var t, k :| At(tab, t, k, p);
      StepPlaces(tab, e, t, k, p);
      assert At(tab, s, |tab.stacks[s]| - 1, Last(tab.stacks[s]).pid);
    }
    if Running(r, p) {
      var t, k :| At(r, t, k, p);
      StepPlaces(tab, e, t, k, p);
      assert At(tab, s, |tab.stacks[s]| - 1, Last(tab.stacks[s]).pid);
    }
  }

  /** Halting a child frees its slot and gives the terminal back to its parent, whatever is left in its PCB. */
  lemma EncodesPop(slots: seq<int>, top: seq<int>, pcbs: seq<Pcb>, tab: Table, halter: Context, b: Pcb)
    requires Encodes(slots, top, pcbs, tab) && |tab.stacks[tab.scheduled]| > 1
    ensures var p := top[tab.scheduled];
            && 0 <= pcbs[p].parentId
            && Encodes(slots[p := 0], top[tab.scheduled := pcbs[p].parentId], pcbs[p := b], Halted(tab, halter))
  {
    var s, p, e := tab.scheduled, top[tab.scheduled], Halt(halter);
    var x := Halted(tab, halter);
    StepSound(tab, e);
    TopPlace(tab, 0);
    TopPlace(tab, 1);
    TopPlace(tab, 2);
    TopPlace(x, s);
    forall q | 0 <= q < MAX_PIDS ensures slots[p := 0][q] != 0 <==> Running(x, q) {
      PlaceRunning(tab, e, q);
    }
    LinksPop(pcbs, tab, halter, b);
    ResumesKept(top, pcbs, tab, p, b, pcbs[p].parentId, x);
  }

  lemma LinksPop(pcbs: seq<Pcb>, tab: Table, halter: Context, b: Pcb)
    requires Sound(tab) && Links(pcbs, tab) && |tab.stacks[tab.scheduled]| > 1
    ensures var p := Last(tab.stacks[tab.scheduled]).pid;
            p < MAX_PIDS && Links(pcbs[p := b], Halted(tab, halter))
  {
    var p := Last(tab.stacks[tab.scheduled]).pid;
    var x := Halted(tab, halter);
    TopPlace(tab, tab.scheduled);
    forall t, k, q | At(x, t, k, q) ensures 0 <= q < MAX_PIDS && Linked(pcbs[p := b][q], x, t, k, q) {
      StepPlaces(tab, Halt(halter), t, k, q);
      assert Linked(pcbs[q], tab, t, k, q);
    }
  }

  /** Replacing a root shell by a new one in the same slot. */
  lemma EncodesRoot(slots: seq<int>, top: seq<int>, pcbs: seq<Pcb>, tab: Table, caller: Context, b: Pcb)
    requires Encodes(slots, top, pcbs, tab) && |tab.stacks[tab.scheduled]| == 1
    requires b.processId == top[tab.scheduled] && b.parentId == -1
    ensures Encodes(slots[top[tab.scheduled] := 1], top, pcbs[top[tab.scheduled] := b], Halted(tab, caller))
  {
    var s, p, e := tab.scheduled, top[tab.scheduled], Halt(caller);
    var x := Halted(tab, caller);
    StepSound(tab, e);
    TopPlace(tab, 0);
    TopPlace(tab, 1);
    TopPlace(tab, 2);
    forall q | 0 <= q < MAX_PIDS ensures slots[p := 1][q] != 0 <==> Running(x, q) {
      PlaceRunning(tab, e, q);
    }
    forall t, k, q | At(x, t, k, q) ensures 0 <= q < MAX_PIDS && Linked(pcbs[p := b][q], x, t, k, q) {
      StepPlaces(tab, e, t, k, q);
      assert Linked(pcbs[q], tab, t, k, q);
    }
    assert top[s := p] == top;
    ResumesKept(top, pcbs, tab, p, b, p, x);
  }

  lemma EncodesTick(slots: seq<int>, top: seq<int>, pcbs: seq<Pcb>, tab: Table, at: Context)
    requires Encodes(slots, top, pcbs, tab)
    ensures Encodes(slots, top, pcbs[top[tab.scheduled] := pcbs[top[tab.scheduled]].(resume := at)], Ticked(tab, at))
    ensures forall t :: 0 <= t < TTYS && t != tab.scheduled ==> top[t] != top[tab.scheduled]
  {
    var x, p := Ticked(tab, at), top[tab.scheduled];
    StepSound(tab, Tick(at));
    TopPlace(tab, 0);
    TopPlace(tab, 1);
    TopPlace(tab, 2);
    forall t, k, q | At(x, t, k, q)
      ensures 0 <= q < MAX_PIDS && Linked(pcbs[p := pcbs[p].(resume := at)][q], x, t, k, q)
    {
      assert At(tab, t, k, q) && Linked(pcbs[q], tab, t, k, q);
    }
    forall q | 0 <= q < MAX_PIDS ensures Running(x, q) <==> Running(tab, q) {
      TickRunning(tab, at, q);
    }
  }

  lemma TickRunning(tab: Table, at: Context, q: int)
    requires Sound(tab)
    ensures Running(Ticked(tab, at), q) <==> Running(tab, q)
  {
    if Running(tab, q) {
      var t, k :| At(tab, t, k, q);
      assert At(Ticked(tab, at), t, k, q);
    }
    if Running(Ticked(tab, at), q) {
      var t, k :| At(Ticked(tab, at), t, k, q);
      assert At(tab, t, k, q);
    }
  }

  /** Every process but the one on top of the scheduled terminal keeps its whole PCB. */
  ghost predicate PcbsKept(was: seq<Pcb>, now: seq<Pcb>, tab: Table)
    requires Sound(tab) && |was| == |now| == MAX_PIDS
  {
    forall t, k, p :: At(tab, t, k, p) && !(t == tab.scheduled && k == |tab.stacks[t]| - 1) ==> now[p] == was[p]
  }

  /** Storing into the PCB of a process that does not run, or of the running one, does that. */
  lemma OneStored(was: seq<Pcb>, tab: Table, p: nat, b: Pcb)
    requires Sound(tab) && |was| == MAX_PIDS && p < MAX_PIDS
    requires !Running(tab, p) || p == Last(tab.stacks[tab.scheduled]).pid
    ensures PcbsKept(was, was[p := b], tab)
  {
    TopPlace(tab, tab.scheduled);
  }

  /** The processes of terminal `t` keep their whole PCBs. */
  ghost predicate ChainKept(was: seq<Pcb>, now: seq<Pcb>, tab: Table, t: nat)
    requires Sound(tab) && |was| == |now| == MAX_PIDS
  {
    forall k, p :: At(tab, t, k, p) ==> now[p] == was[p]
  }

  /** An event while another terminal is scheduled keeps them kept. */
  lemma ChainStaysKept(first: Table, tab: Table, t: nat, p0: seq<Pcb>, p1: seq<Pcb>, p2: seq<Pcb>)
    requires Sound(first) && Sound(tab) && t < TTYS && tab.stacks[t] == first.stacks[t] && tab.scheduled != t
    requires |p0| == |p1| == |p2| == MAX_PIDS
    requires ChainKept(p0, p1, first, t) && PcbsKept(p1, p2, tab)
    ensures ChainKept(p0, p2, first, t)
  {
    forall k, p | At(first, t, k, p) ensures p2[p] == p0[p] {
      assert At(tab, t, k, p);
    }
  }

  class Kernel {
    const slots: array<int>      // pid[]
    const top: array<int>        // terms[].pid
    const pcbs: array<Pcb>       // indexed by the process whose address is PcbAddress
    var scheduled: nat
    var thisPcb: int
    var userPage: int            // page_directory[32].addr_31_12
    var esp0: int
    ghost var tab: Table

    ghost predicate Shape()
      reads this
    {
      slots.Length == MAX_PIDS && top.Length == TTYS && pcbs.Length == MAX_PIDS && scheduled < TTYS && slots != top
    }

    /** The user page, the kernel stack and this_pcb are those of process `p`. */
    ghost predicate Runs(p: int)
      reads this
    {
      thisPcb == PcbAddress(p) && userPage * 4096 == UserFrame(p) && esp0 == StackTop(p)
    }

    ghost predicate Valid()
      reads this, slots, top, pcbs
    {
      Shape() && scheduled == tab.scheduled && Encodes(slots[..], top[..], pcbs[..], tab) && Runs(top[scheduled])
    }

    /** The first `n` boot ticks have started a root shell each. */
    ghost predicate Booting(n: nat)
      reads this, slots, top, pcbs
    {
      && Shape() && n <= TTYS && scheduled == tab.scheduled == (2 + n) % TTYS && |tab.stacks| == |tab.resume| == TTYS
      && (forall t :: 0 <= t < n ==> |tab.stacks[t]| == 1 && tab.stacks[t][0].pid == t)
      && (forall t :: 0 <= t < TTYS ==> top[t] == if t < n then t else -1)
      && (forall p :: 0 <= p < MAX_PIDS ==> slots[p] == if p < n then 1 else 0)
      && (forall p :: 0 <= p < n ==> pcbs[p].processId == p && pcbs[p].parentId == -1)
      && (forall t :: 0 <= t < n && t != scheduled ==> pcbs[t].resume == tab.resume[t])
      && (n > 0 ==> Runs(top[scheduled]))
    }

    /** Three boot ticks establish the invariant: terminal t runs shell t. */
    lemma Booted()
      requires Booting(TTYS)
      ensures Valid()
    {
      assert forall t, k, p :: At(tab, t, k, p) <==> 0 <= t < TTYS && k == 0 && p == t;
      assert forall t :: 0 <= t < TTYS ==> At(tab, t, 0, t);
      forall p | 0 <= p < MAX_PIDS ensures Running(tab, p) <==> p < TTYS {
        if p < TTYS {
          assert At(tab, p, 0, p);
        }
      }
    }

    constructor ()
      ensures Booting(0) && fresh(slots) && fresh(top) && fresh(pcbs)
    {
      slots := new int[MAX_PIDS](_ => 0);
      top := new int[TTYS](_ => -1);
      pcbs := new Pcb[MAX_PIDS](_ => Pcb(0, 0, Context(0, 0), Context(0, 0), false));
      scheduled := 2;
      thisPcb, userPage, esp0 := 0, 0, 0;
      tab := Table([[], [], []], [Context(0, 0), Context(0, 0), Context(0, 0)], 2);
    }

    /** The PCB of a program started at `p` from the process `parent`; roots have no parent. */
    function NewPcb(p: nat, parent: int, caller: Context, was: Pcb): Pcb {
      Pcb(p, if p <= 2 then -1 else parent, caller, was.resume, true)
    }

    /** syscall_execute on the arrays: the lowest free slot becomes the terminal's running process. */
    method Launch(valid: bool, caller: Context) returns (r: int)
      requires Shape()
      modifies slots, top, pcbs, `thisPcb, `userPage, `esp0
      ensures r == -1 <==> !valid || forall p :: 0 <= p < MAX_PIDS ==> old(slots[p]) != 0
      ensures r == -1 ==> slots[..] == old(slots[..]) && top[..] == old(top[..]) && pcbs[..] == old(pcbs[..]) &&
                          thisPcb == old(thisPcb) && userPage == old(userPage) && esp0 == old(esp0)
      ensures r != -1 ==>
                && 0 <= r < MAX_PIDS && old(slots[r]) == 0 && (forall p :: 0 <= p < r ==> old(slots[p]) != 0)
                && slots[..] == old(slots[..])[r := 1] && top[..] == old(top[..])[scheduled := r]
                && pcbs[..] == old(pcbs[..])[r := NewPcb(r, old(top[scheduled]), caller, old(pcbs[r]))] && Runs(r)
    {
      if !valid {
        return -1;
      }
      var oldPid := top[scheduled];
      var i := 0;
      while i < MAX_PIDS && slots[i] != 0
        invariant 0 <= i <= MAX_PIDS && forall p :: 0 <= p < i ==> slots[p] != 0
      {
        i := i + 1;
      }
      if i == MAX_PIDS {
        return -1;
      }
      slots[i] := 1;
      userPage := (0x800000 + i * 0x400000) / 4096;
      thisPcb := 0x800000 - (i + 1) * 0x2000;
      top[scheduled] := i;
      pcbs[i] := NewPcb(i, oldPid, caller, pcbs[i]);
      esp0 := 0x800000 - i * 0x2000;
      r := i;
    }

    /** syscall_execute from a running process: -1, or the new process's pid. */
    method Execute(valid: bool, caller: Context) returns (r: int)
      requires Valid()
      modifies this, slots, top, pcbs
      ensures Valid() && tab == Executed(old(tab), valid, caller)
      ensures r == if valid && FreeFrom(old(tab), 0) < MAX_PIDS then FreeFrom(old(tab), 0) else -1
      ensures PcbsKept(old(pcbs[..]), pcbs[..], old(tab))
    {
      ghost var f := FreeFrom(tab, 0);
      r := Launch(valid, caller);
      if r != -1 {
        OneStored(old(pcbs[..]), tab, r, pcbs[r]);
        FirstSlot(old(slots[..]), old(top[..]), old(pcbs[..]), tab, r);
        RootsRun(tab);
        EncodesLaunch(old(slots[..]), old(top[..]), old(pcbs[..]), tab, caller, r, pcbs[r]);
        tab := Executed(tab, true, caller);
      } else if valid {
        FirstSlot(slots[..], top[..], pcbs[..], tab, MAX_PIDS);
      }
    }

    /** syscall_halt: back to the context saved by the execute that started it; a root shell is replaced in place. */
    method Halt(caller: Context) returns (r: Option<Context>)
      requires Valid()
      modifies this, slots, top, pcbs
      ensures Valid() && tab == Halted(old(tab), caller) && r == HaltReturns(old(tab))
      ensures PcbsKept(old(pcbs[..]), pcbs[..], old(tab))
    {
      var p := top[scheduled];
      thisPcb := 0x800000 - (p + 1) * 0x2000;
      TopPlace(tab, scheduled);
      RootOnly(tab, pcbs[..]);
      if pcbs[p].parentId == -1 {
        Relaunch(caller);
        r := None;
      } else {
        r := Some(pcbs[p].saved);
        ToParent(caller);
      }
    }

    /** A root shell halts: its slot is the first free one, so the new shell takes it again. */
    method Relaunch(caller: Context)
      requires Shape() && scheduled == tab.scheduled && Encodes(slots[..], top[..], pcbs[..], tab)
      requires |tab.stacks[scheduled]| == 1
      modifies this, slots, top, pcbs
      ensures Valid() && tab == Halted(old(tab), caller) && PcbsKept(old(pcbs[..]), pcbs[..], old(tab))
    {
      TopPlace(tab, scheduled);
      RootOnly(tab, pcbs[..]);
      ghost var was := slots[..];
      slots[top[scheduled]] := 0;
      ghost var freed := slots[..];
      var q := Launch(true, caller);
      RootSlot(was, tab, freed, q);
      EncodesRoot(was, old(top[..]), old(pcbs[..]), tab, caller, pcbs[q]);
      OneStored(old(pcbs[..]), tab, q, pcbs[q]);
      tab := Halted(tab, caller);
      assert slots[..] == was[q := 1] && top[..] == old(top[..]);
    }

    /** A child halts: its slot is freed and its parent becomes the terminal's process again. */
    method ToParent(caller: Context)
      requires Shape() && scheduled == tab.scheduled && Encodes(slots[..], top[..], pcbs[..], tab)
      requires |tab.stacks[scheduled]| > 1
      modifies this, slots, top, pcbs
      ensures Valid() && tab == Halted(old(tab), caller) && PcbsKept(old(pcbs[..]), pcbs[..], old(tab))
    {
      TopPlace(tab, scheduled);
      RootOnly(tab, pcbs[..]);
      var p := top[scheduled];
      var parent := pcbs[p].parentId;
      top[scheduled] := parent;
      slots[pcbs[p].processId] := 0;
      pcbs[p] := pcbs[p].(active := false, processId := -1);
      userPage := (0x800000 + parent * 0x400000) / 4096;
      thisPcb := 0x800000 - (parent + 1) * 0x2000;
      esp0 := 0x800000 - parent * 0x2000;
      EncodesPop(old(slots[..]), old(top[..]), old(pcbs[..]), tab, caller, pcbs[p]);
      OneStored(old(pcbs[..]), tab, p, pcbs[p]);
      tab := Halted(tab, caller);
    }

    /** pit_handler while a terminal has no process yet: its root shell is started. */
    method BootTick(at: Context, ghost n: nat)
      requires Booting(n) && n < TTYS
      modifies this, slots, top, pcbs
      ensures Booting(n + 1)
    {
      if top[scheduled] != -1 {
        pcbs[top[scheduled]] := pcbs[top[scheduled]].(resume := at);
        tab := tab.(resume := tab.resume[scheduled := at]);
      }
      scheduled := (scheduled + 1) % TTYS;
      assert slots[n] == 0;
      var r := Launch(true, at);
      assert r == n == scheduled;
      tab := tab.(stacks := tab.stacks[scheduled := [Frame(r, at)]], scheduled := scheduled);
    }

    /** pit_handler after boot: the preempted context is saved, and the next terminal's own is returned. */
    method Tick(at: Context) returns (next: Context)
      requires Valid()
      modifies this, pcbs
      ensures Valid() && tab == Ticked(old(tab), at) && next == old(tab).resume[tab.scheduled]
      ensures PcbsKept(old(pcbs[..]), pcbs[..], old(tab))
    {
      TopPlace(tab, scheduled);
      EncodesTick(slots[..], top[..], pcbs[..], tab, at);
      OneStored(pcbs[..], tab, top[scheduled], pcbs[top[scheduled]].(resume := at));
      pcbs[top[scheduled]] := pcbs[top[scheduled]].(resume := at);
      scheduled := (scheduled + 1) % TTYS;
      ghost var was := tab;
      assert pcbs[top[scheduled]].resume == was.resume[scheduled];
      tab := Ticked(tab, at);
      RootOnly(tab, pcbs[..]);
      next := Load();
    }

    /** One event of a run. */
    method Handle(e: Event)
      requires Valid()
      modifies this, slots, top, pcbs
      ensures Valid() && tab == Step(old(tab), e) && PcbsKept(old(pcbs[..]), pcbs[..], old(tab))
    {
      match e
      case Tick(at) => var next := Tick(at);
      case Execute(valid, caller) => var r := Execute(valid, caller);
      case Halt(caller) => var back := Halt(caller);
    }

    /**
     * The arrays encode the per-terminal stacks throughout every run, and a terminal that is not
     * scheduled meanwhile keeps the whole PCBs of its processes.
     */
    method HandleAll(es: seq<Event>)
      requires Valid()
      modifies this, slots, top, pcbs
      ensures Valid() && tab == Run(old(tab), es)
      ensures scheduled == (old(scheduled) + TickCount(es)) % 3
      ensures forall t :: 0 <= t < TTYS && Away(old(tab), es, t) ==> ChainKept(old(pcbs[..]), pcbs[..], old(tab), t)
    {
      ghost var start, was := tab, pcbs[..];
      Rotates(start, es);
      for i := 0 to |es|
        invariant Valid() && tab == Run(start, es[..i])
        invariant forall t :: 0 <= t < TTYS && Away(start, es[..i], t) ==> ChainKept(was, pcbs[..], start, t)
      {
        ghost var before, tab0 := pcbs[..], tab;
        assert Front(es[..i + 1]) == es[..i];
        Handle(es[i]);
        forall t | 0 <= t < TTYS && Away(start, es[..i + 1], t) ensures ChainKept(was, pcbs[..], start, t) {
          AwayIsUntouched(start, es[..i], t);
          ChainStaysKept(start, tab0, t, was, before, pcbs[..]);
        }
      }
      assert es[..|es|] == es;
    }

    /** The user page, this_pcb and the kernel stack follow the scheduled terminal's process. */
    method Load() returns (next: Context)
      requires Shape() && 0 <= top[scheduled] < MAX_PIDS && pcbs[top[scheduled]].processId == top[scheduled]
      modifies `thisPcb, `userPage, `esp0
      ensures Runs(top[scheduled]) && next == pcbs[top[scheduled]].resume
    {
      var b := pcbs[top[scheduled]];
      userPage := (0x800000 + b.processId * 0x400000) / 4096;
      thisPcb := 0x800000 - (top[scheduled] + 1) * 0x2000;
      esp0 := 0x800000 - b.processId * 0x2000;
      next := b.resume;
    }
  }

  /** Three boot ticks start the root shells; from then on every run keeps the encoding. */
  method Session(at: seq<Context>, es: seq<Event>) returns (k: Kernel, ghost booted: Table)
    requires |at| == TTYS
    ensures fresh(k) && k.Valid() && Sound(booted) && k.tab == Run(booted, es)
    ensures forall t :: 0 <= t < TTYS ==> |booted.stacks[t]| == 1
  {
    k := new Kernel();
    k.BootTick(at[0], 0);
    k.BootTick(at[1], 1);
    k.BootTick(at[2], 2);
    k.Booted();
    booted := k.tab;
    k.HandleAll(es);
  }

  /** The running process has no parent exactly when it is its terminal's root. */
  lemma RootOnly(tab: Table, pcbs: seq<Pcb>)
    requires Sound(tab) && Links(pcbs, tab)
    ensures var s := tab.stacks[tab.scheduled];
            var p := Last(s).pid;
            && p < MAX_PIDS && pcbs[p].processId == p && (pcbs[p].parentId == -1 <==> |s| == 1)
            && (|s| > 1 ==> 0 <= pcbs[p].parentId == s[|s| - 2].pid && pcbs[p].saved == Last(s).caller)
            && (|s| == 1 ==> p == tab.scheduled)
  {
    TopPlace(tab, tab.scheduled);
  }

  /** Once a root's slot is freed, it is the first free one. */
  lemma RootSlot(slots: seq<int>, tab: Table, freed: seq<int>, q: int)
    requires Sound(tab) && Marks(slots, tab) && freed == slots[tab.scheduled := 0]
    requires q == -1 ==> forall p :: 0 <= p < MAX_PIDS ==> freed[p] != 0
    requires q != -1 ==> 0 <= q < MAX_PIDS && freed[q] == 0 && forall p :: 0 <= p < q ==> freed[p] != 0
    ensures q == tab.scheduled
  {
    assert freed[tab.scheduled] == 0;
    assert At(tab, 0, 0, 0) && At(tab, 1, 0, 1) && At(tab, 2, 0, 2);
    assert Running(tab, 0) && Running(tab, 1) && Running(tab, 2);
  }
}
