/** The page tables of paging.c, and the address translation they give. */
module Paging {

  datatype Entry = Entry(present: bool, writable: bool, user: bool, large: bool, frame: nat)

  /** A linear address: 10 bits of directory index, 10 of table index, 12 of offset. */
  type address = a: nat | a < 0x1_0000_0000

  datatype Physical = Fault | At(address: nat)

  function DirIndex(a: address): (i: nat)
    ensures i < 1024
  {
    a / 0x40_0000
  }

  function TableIndex(a: address): (i: nat)
    ensures i < 1024
  {
    a / 4096 % 1024
  }

  /**
    * Two-level translation with 4 KB and 4 MB pages. A user access needs the user bit and the write bit at both levels.
    * What memory outside the two tables would hold is not known: walks through it fault here.
    */
  function Walk(dir: seq<Entry>, tables: map<nat, seq<Entry>>, a: address, user: bool): Physical
    requires |dir| == 1024 && forall f <- tables :: |tables[f]| == 1024
  {
    var d := dir[DirIndex(a)];
    if !d.present || (user && !(d.user && d.writable)) then Fault
    else if d.large then
      if d.frame % 1024 == 0 then At(4096 * d.frame + a % 0x40_0000) else Fault
    else if d.frame !in tables then Fault
    else
      var t := tables[d.frame][TableIndex(a)];
      if !t.present || (user && !(t.user && t.writable)) then Fault else At(4096 * t.frame + a % 4096)
  }

  /**
    * The intended map. `low` is the frame in page_table_0[0xB8], `vid` the one in user_vidmap_table[0xB8], and `base`
    * the first frame of the running process.
    */
  function Layout(low: nat, vid: nat, base: nat, a: address, user: bool): Physical {
    var n := a / 4096;
    if n == 33 * 1024 + 0xB8 then At(4096 * vid + a % 4096)
    else if 32 * 1024 <= n < 33 * 1024 then At(4096 * base + (a - 4096 * 32 * 1024))
    else if user then Fault
    else if n == 0xB7 then At(0xB8000 + a % 4096)
    else if n == 0xB8 then At(4096 * low + a % 4096)
    else if 0xB9 <= n <= 0xBB || 1024 <= n < 2048 then At(a)
    else Fault
  }

  // ---- What the map promises ----------------------------------------------------------

  const USER_SCREEN: address := 0x84b8000
  const KERNEL_SCREEN: address := 0xB8000
  const PHYSICAL_SCREEN: address := 0xB7000

  /** A frame holding a screen: the displayed one or the background of a terminal. */
  predicate ScreenFrame(f: nat) {
    0xB8 <= f <= 0xBB
  }

  /** The frame that holds the screen of terminal `t`. */
  function Shown(t: nat, visible: nat): (f: nat)
    requires t < 3
    ensures ScreenFrame(f)
  {
    if t == visible then 0xB8 else 0xB9 + t
  }

  function UserBase(pid: nat): nat {
    2048 + 1024 * pid
  }

  /** Where byte `off` of the screen is for a process that mapped it, and for the kernel. */
  function UserByte(off: nat): address
    requires off < 4096
  {
    USER_SCREEN + off
  }

  function KernelByte(off: nat): address
    requires off < 4096
  {
    KERNEL_SCREEN + off
  }

  /** The process and the kernel see the same screen. */
  ghost predicate Agree(low: nat, vid: nat, base: nat) {
    forall off: nat :: off < 4096 ==>
      Layout(low, vid, base, UserByte(off), true) == Layout(low, vid, base, KernelByte(off), false)
  }

  lemma ScreenBytes(low: nat, vid: nat, base: nat, off: nat)
    requires off < 4096
    ensures Layout(low, vid, base, UserByte(off), true) == At(4096 * vid + off)
    ensures Layout(low, vid, base, KernelByte(off), false) == At(4096 * low + off)
  {
  }

  /** They do exactly when the two entries hold the same frame. */
  lemma AgreeIff(low: nat, vid: nat, base: nat)
    ensures Agree(low, vid, base) <==> low == vid
  {
    forall off: nat | off < 4096
      ensures (low == vid) ==
              (Layout(low, vid, base, UserByte(off), true) == Layout(low, vid, base, KernelByte(off), false))
    {
      ScreenBytes(low, vid, base, off);
    }
    assert UserByte(0) == USER_SCREEN;
  }

  /** Where a glyph at column `col` of row `row` goes, through either base address. */
  function GlyphAddress(base: address, row: nat, col: nat): (a: address)
    requires (base == KERNEL_SCREEN || base == PHYSICAL_SCREEN) && row < 256 && col < 80
    ensures a == base + 2 * (80 * row + col)
  {
    base + 2 * (80 * row + col)
  }

  /** The cursor that a backspace at the top left corner leaves behind points to no page at all. */
  lemma CornerGlyphFaults(low: nat, vid: nat, base: nat, screen: address)
    requires screen == KERNEL_SCREEN || screen == PHYSICAL_SCREEN
    ensures Layout(low, vid, base, GlyphAddress(screen, 255, 79), false) == Fault
  {
    assert GlyphAddress(screen, 255, 79) == screen + 40958;
  }

  /** Byte `p` of memory can be reached in user mode. */
  ghost predicate Reachable(low: nat, vid: nat, base: nat, p: nat) {
    exists a: address :: Layout(low, vid, base, a, true) == At(p)
  }

  /** Byte `p` lies in the 4 MB of process `pid`. */
  predicate Own(pid: nat, p: nat) {
    0 <= p - 0x80_0000 - 0x40_0000 * pid < 0x40_0000
  }

  /** A process reaches its own 4 MB and one screen frame, and each of those bytes once. */
  lemma UserReach(low: nat, vid: nat, pid: nat, p: nat)
    requires ScreenFrame(vid)
    ensures Reachable(low, vid, UserBase(pid), p) <==> p / 4096 == vid || Own(pid, p)
    ensures forall a: address, b: address ::
      Layout(low, vid, UserBase(pid), a, true) == At(p) == Layout(low, vid, UserBase(pid), b, true) ==> a == b
  {
    if p / 4096 == vid {
      var a: address := USER_SCREEN + p % 4096;
      assert Layout(low, vid, UserBase(pid), a, true) == At(p);
    } else if Own(pid, p) {
      var a: address := 0x800_0000 + (p - 0x80_0000 - 0x40_0000 * pid);
      assert Layout(low, vid, UserBase(pid), a, true) == At(p);
    }
  }

  /**
   * The kernel's own 4 MB map to themselves, the user page to the process's, and in both modes every
   * address below the video pages faults.
   */
  lemma MappedRanges(low: nat, vid: nat, pid: nat, a: address, user: bool)
    ensures 0x40_0000 <= a < 0x80_0000 ==> Layout(low, vid, UserBase(pid), a, false) == At(a)
    ensures 0x800_0000 <= a < 0x840_0000 ==>
              Layout(low, vid, UserBase(pid), a, user) == At(a - 0x800_0000 + 0x80_0000 + 0x40_0000 * pid)
    ensures a < 0xB7000 ==> Layout(low, vid, UserBase(pid), a, user) == Fault
    ensures a < 0x800_0000 ==> Layout(low, vid, UserBase(pid), a, true) == Fault
  {
  }

  // ---- The tables ---------------------------------------------------------------------

  class Mmu {
    const directory: array<Entry>
    const low: array<Entry>
    const vidmap: array<Entry>
    const lowFrame: nat
    const vidmapFrame: nat

    ghost predicate Valid() {
      directory.Length == 1024 && low.Length == 1024 && vidmap.Length == 1024 && lowFrame != vidmapFrame &&
      directory != low && directory != vidmap && low != vidmap
    }

    /** The two tables lie in distinct frames, chosen when the kernel was linked. */
    constructor (lowFrame: nat, vidmapFrame: nat)
      requires lowFrame != vidmapFrame
      ensures Valid() && fresh(directory) && fresh(low) && fresh(vidmap)
    {
      var zero := Entry(false, false, false, false, 0);
      directory, low, vidmap := new Entry[1024](_ => zero), new Entry[1024](_ => zero), new Entry[1024](_ => zero);
      this.lowFrame, this.vidmapFrame := lowFrame, vidmapFrame;
    }

    /** Translation through the tables as they stand. */
    function Translate(a: address, user: bool): Physical
      requires Valid()
      reads directory, low, vidmap
    {
      Walk(directory[..], map[lowFrame := low[..], vidmapFrame := vidmap[..]], a, user)
    }

    /** The tables hold what is intended. */
    ghost predicate Mapped(lowScreen: nat, vidScreen: nat, base: nat)
      requires Valid()
      reads directory, low, vidmap
    {
      base % 1024 == 0 &&
      (forall i :: 0 <= i < 1024 ==> directory[i] == DirEntry(i, base)) &&
      (forall i :: 0 <= i < 1024 ==> low[i] == LowEntry(i, lowScreen)) &&
      (forall i :: 0 <= i < 1024 ==> vidmap[i] == VidmapEntry(i, vidScreen))
    }

    function DirEntry(i: nat, base: nat): Entry {
      if i == 0 then Entry(true, true, false, false, lowFrame)
      else if i == 1 then Entry(true, true, false, true, 1024)
      else if i == 32 then Entry(true, true, true, true, base)
      else if i == 33 then Entry(true, true, true, false, vidmapFrame)
      else Entry(false, true, false, true, 0)
    }

    function LowEntry(i: nat, screen: nat): Entry {
      Entry(0xB7 <= i <= 0xBB, true, false, false, if i == 0xB7 then 0xB8 else if i == 0xB8 then screen else i)
    }

    function VidmapEntry(i: nat, screen: nat): Entry {
      Entry(i == 0xB8, true, true, false, if i == 0xB8 then screen else i)
    }

    lemma TranslatesTo(lowScreen: nat, vidScreen: nat, base: nat, a: address, user: bool)
      requires Valid() && Mapped(lowScreen, vidScreen, base)
      ensures Translate(a, user) == Layout(lowScreen, vidScreen, base, a, user)
    {
      var d, t := DirIndex(a), TableIndex(a);
      assert a == 0x40_0000 * d + a % 0x40_0000 && a / 4096 == 1024 * d + t;
      assert directory[..][d] == DirEntry(d, base);
      assert low[..][t] == LowEntry(t, lowScreen) && vidmap[..][t] == VidmapEntry(t, vidScreen);
    }

    /** Translation is the intended one for every address and both modes. */
    ghost predicate Translates(lowScreen: nat, vidScreen: nat, base: nat)
      requires Valid()
      reads directory, low, vidmap
    {
      forall a: address, user: bool :: Translate(a, user) == Layout(lowScreen, vidScreen, base, a, user)
    }

    lemma TranslatesEverywhere(lowScreen: nat, vidScreen: nat, base: nat)
      requires Valid() && Mapped(lowScreen, vidScreen, base)
      ensures Translates(lowScreen, vidScreen, base)
    {
      forall a: address, user: bool ensures Translate(a, user) == Layout(lowScreen, vidScreen, base, a, user) {
        TranslatesTo(lowScreen, vidScreen, base, a, user);
      }
    }

    method SetPde(present: bool, user: bool, large: bool, index: nat, frame: nat)
      requires Valid() && index < 1024
      modifies directory
      ensures forall i :: 0 <= i < 1024 ==>
        directory[i] == if i == index then Entry(present, true, user, large, frame) else old(directory[i])
    {
      directory[index] := Entry(present, true, user, large, frame);
    }

    method SetPte(present: bool, user: bool, index: nat, table: array<Entry>)
      requires index < table.Length
      modifies table
      ensures forall i :: 0 <= i < table.Length ==>
        table[i] == if i == index then Entry(present, true, user, false, index) else old(table[i])
    {
      table[index] := Entry(present, true, user, false, index);
    }

    method InitTables()
      requires Valid()
      modifies low, vidmap
      ensures forall i :: 0 <= i < 1024 ==> low[i] == LowEntry(i, 0xB8) && vidmap[i] == VidmapEntry(i, 0xB8)
    {
      var i := 0;
      while i < 1024
        invariant 0 <= i <= 1024
        invariant forall j :: 0 <= j < i ==> low[j] == Entry(false, true, false, false, j)
        invariant forall j :: 0 <= j < i ==> vidmap[j] == Entry(false, true, true, false, j)
      {
        SetPte(false, false, i, low);
        SetPte(false, true, i, vidmap);
        i := i + 1;
      }
      SetPte(true, false, 0xB8, low);
      SetPte(true, false, 0xB9, low);
      SetPte(true, false, 0xBA, low);
      SetPte(true, false, 0xBB, low);
      SetPte(true, false, 0xB7, low);
      low[0xB7] := low[0xB7].(frame := 0xB8);
      SetPte(true, true, 0xB8, vidmap);
    }

    method InitDirectory()
      requires Valid()
      modifies directory
      ensures forall i :: 0 <= i < 1024 ==> directory[i] == DirEntry(i, 2048)
    {
      SetPde(true, false, false, 0, 0);
      SetPde(true, false, true, 1, 0x40_0000 / 4096);
      directory[0] := directory[0].(frame := lowFrame);
      var i := 2;
      while i < 1024
        invariant 2 <= i <= 1024
        invariant directory[0] == DirEntry(0, 2048) && directory[1] == DirEntry(1, 2048)
        invariant forall j :: 2 <= j < i ==> directory[j] == Entry(false, true, false, true, 0)
      {
        SetPde(false, false, true, i, 0);
        i := i + 1;
      }
      SetPde(true, true, true, 32, 0x80_0000 / 4096);
      SetPde(true, true, false, 33, vidmapFrame);
    }

    /** init_paging: exactly the intended pages, from whatever the tables held before. */
    method InitPaging()
      requires Valid()
      modifies directory, low, vidmap
      ensures Mapped(0xB8, 0xB8, 2048) && Translates(0xB8, 0xB8, 2048)
    {
      InitTables();
      InitDirectory();
      TranslatesEverywhere(0xB8, 0xB8, 2048);
    }

    /** The tick's part: both screen entries follow the scheduled terminal, whatever they held. */
    method Remap(scheduled: nat, visible: nat, ghost lowScreen: nat, ghost vidScreen: nat, ghost base: nat)
      requires Valid() && Mapped(lowScreen, vidScreen, base) && scheduled < 3
      modifies low, vidmap
      ensures Mapped(Shown(scheduled, visible), Shown(scheduled, visible), base)
      ensures Translates(Shown(scheduled, visible), Shown(scheduled, visible), base)
    {
      if scheduled == visible {
        low[0xB8] := low[0xB8].(frame := 0xB8);
        vidmap[0xB8] := vidmap[0xB8].(frame := 0xB8);
      } else {
        low[0xB8] := low[0xB8].(frame := 0xB8 + (scheduled + 1));
        vidmap[0xB8] := vidmap[0xB8].(frame := 0xB8 + (scheduled + 1));
      }
      TranslatesEverywhere(Shown(scheduled, visible), Shown(scheduled, visible), base);
    }

    /** terminal_write's part: a stale physical mapping is moved, in the kernel's table only. */
    method MoveStale(scheduled: nat, visible: nat, ghost lowScreen: nat, ghost vidScreen: nat, ghost base: nat)
      requires Valid() && Mapped(lowScreen, vidScreen, base) && scheduled < 3
      modifies low
      ensures Mapped(Moved(lowScreen, scheduled, visible), vidScreen, base)
      ensures Translates(Moved(lowScreen, scheduled, visible), vidScreen, base)
    {
      if scheduled != visible && low[0xB8].frame == 0xB8 {
        low[0xB8] := low[0xB8].(frame := 0xB9 + scheduled);
      }
      TranslatesEverywhere(Moved(lowScreen, scheduled, visible), vidScreen, base);
    }

    /** The part of a tick, execute or halt that maps the memory of process `pid`. */
    method LoadUser(pid: nat, ghost lowScreen: nat, ghost vidScreen: nat, ghost base: nat)
      requires Valid() && Mapped(lowScreen, vidScreen, base)
      modifies directory
      ensures Mapped(lowScreen, vidScreen, UserBase(pid)) && Translates(lowScreen, vidScreen, UserBase(pid))
    {
      directory[32] := directory[32].(frame := (0x80_0000 + pid * 0x40_0000) / 4096);
      assert (0x80_0000 + pid * 0x40_0000) / 4096 == UserBase(pid);
      TranslatesEverywhere(lowScreen, vidScreen, UserBase(pid));
    }
  }

  /** The frame in page_table_0[0xB8] after a terminal_write found `low` there. */
  function Moved(low: nat, scheduled: nat, visible: nat): nat {
    if scheduled != visible && low == 0xB8 then 0xB9 + scheduled else low
  }
}
