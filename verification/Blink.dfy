/** The blink list: an intrusive singly linked list threaded through a fixed pool of slots. */
module Blink {
  import opened Basics
  import opened Text
  import opened Fish

  const NULL: int := -1

  /** A slot of blink_array; a location of 0 means free. */
  datatype Slot = Slot(fish: Fish, next: int)

  const ZERO := Slot(Fish(0, 0, 0, 0, 0, 0, 0), NULL)

  /** No slot is in the list twice. */
  ghost predicate Distinct(chain: seq<nat>) {
    forall i, j :: 0 <= i < j < |chain| ==> chain[i] != chain[j]
  }

  /** Following the links from `head` visits `chain` and ends. */
  ghost predicate Linked(pool: seq<Slot>, head: int, chain: seq<nat>) {
    && head == NodeAt(chain, 0)
    && (forall i :: 0 <= i < |chain| ==> chain[i] < |pool|)
    && forall i {:trigger pool[chain[i]]} :: 0 <= i < |chain| ==> pool[chain[i]].next == NodeAt(chain, i + 1)
  }

  /** The slots of the list are exactly the occupied ones. */
  ghost predicate Marked(pool: seq<Slot>, chain: seq<nat>) {
    forall s :: 0 <= s < |pool| ==> pool[s].fish.location < 2000 && (pool[s].fish.location != 0 <==> s in chain)
  }

  /** `chain` is the list from `head`: distinct slots linked in order, and exactly the occupied ones. */
  ghost predicate Threads(pool: seq<Slot>, head: int, chain: seq<nat>) {
    |pool| == 2000 && Distinct(chain) && Linked(pool, head, chain) && Marked(pool, chain)
  }

  /** The i-th node of the list, or NULL at its end. */
  function NodeAt(chain: seq<nat>, i: nat): int {
    if i < |chain| then chain[i] else NULL
  }

  ghost function FishOf(pool: seq<Slot>, chain: seq<nat>): (l: seq<Fish>)
    requires forall i :: 0 <= i < |chain| ==> chain[i] < |pool|
    ensures |l| == |chain| && forall i {:trigger l[i]} :: 0 <= i < |l| ==> l[i] == pool[chain[i]].fish
  {
    seq(|chain|, i requires 0 <= i < |chain| => pool[chain[i]].fish)
  }

  /** Slot `s`, occupied at `location` before, is free now, and no other slot's entry has changed. */
  ghost predicate Freed(was: seq<Slot>, now: seq<Slot>, location: word, s: int) {
    && |was| == |now| == 2000 && 0 <= s < 2000
    && was[s].fish.location == location != 0 && now[s].fish.location == 0
    && forall j :: 0 <= j < 2000 && j != s ==> now[j].fish == was[j].fish
  }

  /** Changing an entry in place, but not its location, keeps the list. */
  lemma UpdateThreads(pool: seq<Slot>, head: int, chain: seq<nat>, k: nat, f: Fish)
    requires Threads(pool, head, chain) && k < |chain| && f.location == pool[chain[k]].fish.location
    ensures var p := pool[chain[k] := pool[chain[k]].(fish := f)];
            Threads(p, head, chain) && FishOf(p, chain) == FishOf(pool, chain)[k := f]
  {
  }

  class BlinkList {
    const pool: array<Slot>
    const vmem: array<byte>
    var head: int
    ghost var chain: seq<nat>

    ghost predicate Valid()
      reads this, pool, vmem
    {
      vmem.Length == 4000 && Threads(pool[..], head, chain)
    }

    /** The list as a sequence, front first. */
    ghost function Contents(): (l: seq<Fish>)
      requires Valid()
      reads this, pool, vmem
      ensures forall i :: 0 <= i < |l| ==> 0 < l[i].location < 2000
    {
      var l := FishOf(pool[..], chain);
      assert forall i :: 0 <= i < |chain| ==> chain[i] in chain;
      l
    }

    constructor ()
      ensures Valid() && Contents() == [] && fresh(pool) && fresh(vmem)
    {
      pool := new Slot[2000](_ => ZERO);
      vmem := new byte[4000];
      head := NULL;
      chain := [];
    }

    /** mp1_malloc: the first free slot, or NULL. */
    method Malloc() returns (s: int)
      requires pool.Length == 2000
      ensures s == NULL ||
              (0 <= s < 2000 && pool[s].fish.location == 0 && forall j :: 0 <= j < s ==> pool[j].fish.location != 0)
      ensures s == NULL <==> forall i :: 0 <= i < 2000 ==> pool[i].fish.location != 0
    {
      for i := 0 to 2000
        invariant forall j :: 0 <= j < i ==> pool[j].fish.location != 0
      {
        if pool[i].fish.location == 0 {
          return i;
        }
      }
      s := NULL;
    }

    /** mp1_find_helper: the first node at a location, or NULL. */
    method FindHelper(location: word) returns (s: int)
      requires Valid()
      ensures s == NodeAt(chain, Find(Contents(), location))
    {
      s := head;
      ghost var i, l := 0, Contents();
      while s != NULL
        invariant i <= |chain| && s == NodeAt(chain, i)
        invariant forall j :: 0 <= j < i ==> l[j].location != location
        decreases |chain| - i
      {
        assert l[i] == pool[s].fish;
        if pool[s].fish.location == location {
          FindIs(l, location, i);
          return;
        }
        s := pool[s].next;
        i := i + 1;
      }
      FindIs(l, location, i);
    }

    /** mp1_ioctl_find: a copy of the first entry at a location. */
    method IoctlFind(location: word) returns (r: int, f: Fish)
      requires Valid()
      ensures var k := Find(Contents(), location);
              if k == |Contents()| then r == -1 else r == 0 && f == Contents()[k]
    {
      var s := FindHelper(location);
      f := ZERO.fish;
      if s == NULL {
        return -1, f;
      }
      r, f := 0, pool[s].fish;
    }

    /** mp1_ioctl_sync: the second entry takes over the timing of the first and shows its off character. */
    method IoctlSync(from: word, to: word) returns (r: int)
      requires Valid()
      modifies pool, vmem
      ensures Valid() && Contents() == Synced(old(Contents()), from, to)
      ensures var l := old(Contents());
              r == if Find(l, from) < |l| && Find(l, to) < |l| then 0 else -1
      ensures vmem[..] == if r == -1 then old(vmem[..]) else
                            old(vmem[..])[2 * to := old(Contents())[Find(old(Contents()), to)].offChar]
    {
      var source := FindHelper(from);
      if source == NULL {
        return -1;
      }
      var target := FindHelper(to);
      if target == NULL {
        return -1;
      }
      ghost var k, f := Find(Contents(), to), Timed(pool[target].fish, pool[source].fish);
      UpdateThreads(pool[..], head, chain, k, f);
      pool[target] := pool[target].(fish := Timed(pool[target].fish, pool[source].fish));
      vmem[2 * pool[target].fish.location] := pool[target].fish.offChar;
      r := 0;
    }

    /** The steps of mp1_ioctl_add on the pool, whatever state it is in. */
    method Insert(f: Fish) returns (r: int)
      requires pool.Length == 2000 && vmem.Length == 4000
      modifies pool, vmem, `head
      ensures r == -1 || r == 0
      ensures r == -1 <==> f.location >= 2000 || forall s :: 0 <= s < 2000 ==> old(pool[..])[s].fish.location != 0
      ensures r == -1 ==> pool[..] == old(pool[..]) && head == old(head) && vmem[..] == old(vmem[..])
      ensures r == 0 ==> vmem[..] == old(vmem[..])[2 * f.location := f.onChar]
      ensures r == 0 ==>
                && 0 <= head < 2000 && old(pool[..])[head].fish.location == 0
                && (forall j :: 0 <= j < head ==> old(pool[..])[j].fish.location != 0)
                && pool[..] == old(pool[..])[head := Slot(Started(f), old(head))]
    {
      if f.location >= 2000 {
        return -1;
      }
      var fish := Started(f);
      var s := Malloc();
      if s == NULL {
        return -1;
      }
      pool[s] := Slot(fish, head);
      head := s;
      vmem[2 * pool[s].fish.location] := pool[s].fish.onChar;
      r := 0;
    }

    /**
     * mp1_ioctl_add: fails exactly for a location of 2000 or more or a full pool, and otherwise
     * pushes the entry, on and shown, at the front. A location of 0 is accepted too, but then no
     * list threads the pool any more.
     */
    method IoctlAdd(f: Fish) returns (r: int)
      requires Valid()
      modifies this, pool, vmem
      ensures r == if f.location >= 2000 || |old(Contents())| == 2000 then -1 else 0
      ensures vmem[..] == if r == 0 then old(vmem[..])[2 * f.location := f.onChar] else old(vmem[..])
      ensures r == -1 || f.location != 0 ==> Valid() && Contents() == Added(old(Contents()), f)
      ensures r == 0 && f.location == 0 ==> forall c :: !Threads(pool[..], head, c)
    {
      ghost var was, oldHead := pool[..], head;
      FullIff(was, head, chain);
      r := Insert(f);
      if r == 0 {
        if f.location == 0 {
          NoThread(pool[..], head);
        } else {
          PushThreads(was, oldHead, chain, head, Started(f));
        }
        chain := [head as nat] + chain;
      }
    }

    /** Adding at location 0 and then anywhere closes the list on itself: traversals no longer end. */
    method ZeroLocationLoops(f: Fish, g: Fish)
      requires Valid() && |Contents()| < 2000 && f.location == 0 && g.location < 2000
      modifies this, pool, vmem
      ensures 0 <= head < 2000 && pool[head].next == head
    {
      FullIff(pool[..], head, chain);
      var r := Insert(f);
      ghost var first := head;
      assert pool[..][first].fish.location == 0;
      r := Insert(g);
      assert head == first;
    }

    /** mp1_ioctl_remove: the first entry at a location is unlinked and its slot freed. */
    method IoctlRemove(location: word) returns (r: int)
      requires Valid()
      modifies this, pool
      ensures Valid() && Contents() == Removed(old(Contents()), location)
      ensures r == if Find(old(Contents()), location) == |old(Contents())| then -1 else 0
      ensures r == 0 <==> exists i :: 0 <= i < |old(Contents())| && old(Contents())[i].location == location
      ensures r == 0 ==> exists k :: TakenOut(old(Contents()), Contents(), location, k)
      ensures r == 0 ==> exists s :: Freed(old(pool[..]), pool[..], location, s)
      ensures r == -1 ==> pool[..] == old(pool[..]) && head == old(head)
    {
      ghost var l := Contents();
      ghost var k := Find(l, location);
      ghost var removed := Removed(l, location);
      var s := FindHelper(location);
      if s == NULL {
        return -1;
      }
      assert removed == l[..k] + l[k + 1..];
      TakeOut(s, k, l, location);
      r := 0;
    }

    /** The k-th node, the first at `location`, is taken out and its slot freed. */
    method TakeOut(s: int, ghost k: nat, ghost l: seq<Fish>, ghost location: word)
      requires Valid() && k < |chain| && chain[k] == s && l == Contents() && k == Find(l, location)
      modifies this, pool
      ensures Valid() && Contents() == l[..k] + l[k + 1..]
      ensures TakenOut(l, Contents(), location, k) && Freed(old(pool[..]), pool[..], location, s)
    {
      ghost var was := pool[..];
      assert l[k] == was[s].fish && l[k].location == location != 0;
      Unlink(s, k, l);
      assert Freed(was, pool[..], location, s);
    }

    /** The k-th node is taken out of the list and its slot zeroed. */
    method Unlink(s: int, ghost k: nat, ghost l: seq<Fish>)
      requires Valid() && k < |chain| && chain[k] == s && l == Contents()
      modifies this, pool
      ensures Valid() && Contents() == l[..k] + l[k + 1..]
      ensures pool[s].fish.location == 0 && forall j :: 0 <= j < 2000 && j != s ==> pool[j].fish == old(pool[j].fish)
    {
      ghost var was := pool[..];
      UnlinkThreads(was, head, chain, k);
      var prev := Predecessor(s, k);
      if prev == NULL {
        head := pool[s].next;
      } else {
        pool[prev] := pool[prev].(next := pool[s].next);
      }
      pool[s] := ZERO;
      assert pool[..] == Unlinked(was, chain, k);
      chain := Without(chain, k);
    }

    /** remove_find_prev: the node whose link leads to `s`, or NULL if that is the head. */
    method Predecessor(s: int, ghost k: nat) returns (prev: int)
      requires Valid() && k < |chain| && chain[k] == s
      ensures prev == if k == 0 then NULL else chain[k - 1]
    {
      var cur := head;
      prev := NULL;
      ghost var i := 0;
      while cur != s
        invariant i <= k && cur == chain[i] && prev == if i == 0 then NULL else chain[i - 1]
        decreases k - i
      {
        prev := cur;
        cur := pool[cur].next;
        i := i + 1;
      }
      assert i == k;
    }

    /** mp1_rtc_tasklet: every entry ticks once, and those that fire are shown, in list order. */
    method RtcTasklet()
      requires Valid()
      modifies pool, vmem
      ensures Valid() && Contents() == TickAll(old(Contents()))
      ensures vmem[..] == PokeAll(old(vmem[..]), old(Contents()))
    {
      ghost var l, was, i := Contents(), vmem[..], 0;
      ghost var now, shown := l, was;
      var s := head;
      PartTicked(l, 0);
      while s != NULL
        invariant Valid() && i <= |chain| && s == NodeAt(chain, i)
        invariant now == Contents() == TickedTo(l, i) && |l| == |chain|
        invariant shown == vmem[..] == PokeAll(was, l[..i])
        decreases |chain| - i
      {
        PokeOne(was, l, i);
        PartTicked(l, i);
        TickNode(s, i, now);
        now, shown := TickedTo(l, i + 1), Poke(shown, l[i]);
        s := pool[s].next;
        i := i + 1;
      }
      assert l[..i] == l;
      PartTicked(l, i);
    }

    /** One turn of the tasklet's loop. */
    method TickNode(s: int, ghost i: nat, ghost l: seq<Fish>)
      requires Valid() && i < |chain| && chain[i] == s && l == Contents()
      modifies pool, vmem
      ensures Valid() && Contents() == l[i := Ticked(l[i])]
      ensures vmem[..] == Poke(old(vmem[..]), l[i])
    {
      UpdateThreads(pool[..], head, chain, i, Ticked(l[i]));
      var f, fires := TickEntry(pool[s].fish);
      if fires {
        vmem[2 * f.location] := Shown(f);
      }
      ghost var was := pool[..];
      pool[s] := pool[s].(fish := f);
      assert pool[..] == was[s := was[s].(fish := f)];
    }

    /** One event of a run. */
    method Handle(e: Event)
      requires Valid() && (e.Add? ==> e.f.location != 0)
      modifies this, pool, vmem
      ensures Valid() && Contents() == Step(old(Contents()), e)
      ensures vmem[..] == StepScreen(old(vmem[..]), old(Contents()), e)
    {
      match e
      case Tick => RtcTasklet();
      case Add(f) => var r := IoctlAdd(f);
      case Remove(location) => var r := IoctlRemove(location);
      case Sync(from, to) => var r := IoctlSync(from, to);
    }

    /** The list and the screen follow their abstract run as long as nothing is added at location 0. */
    method HandleAll(es: seq<Event>)
      requires Valid() && forall e <- es :: e.Add? ==> e.f.location != 0
      modifies this, pool, vmem
      ensures Valid() && (vmem[..], Contents()) == RunBoth(old(vmem[..]), old(Contents()), es)
    {
      ghost var v, l := vmem[..], Contents();
      for i := 0 to |es|
        invariant Valid() && (vmem[..], Contents()) == RunBoth(v, l, es[..i])
      {
        assert Front(es[..i + 1]) == es[..i];
        Handle(es[i]);
      }
      assert es[..|es|] == es;
    }

    /** Count down; at the end of a phase flip the status and start the other phase. */
    static method TickEntry(f: Fish) returns (g: Fish, fires: bool)
      ensures g == Ticked(f) && fires == Fires(f)
    {
      g := f.(countdown := Decremented(f.countdown));
      fires := !Positive(g.countdown);
      if fires {
        if g.status % 2 == 1 {
          g := g.(countdown := g.offLength, status := g.status - 1);
        } else {
          g := g.(countdown := g.onLength, status := g.status + 1);
        }
      }
    }
  }

  /** A list whose first `i` entries have ticked. */
  ghost function TickedTo(l: seq<Fish>, i: nat): (r: seq<Fish>)
    ensures |r| == |l| && forall j :: 0 <= j < |l| ==> r[j] == if j < i then Ticked(l[j]) else l[j]
  {
    seq(|l|, j requires 0 <= j < |l| => if j < i then Ticked(l[j]) else l[j])
  }

  lemma PartTicked(l: seq<Fish>, i: nat)
    requires i <= |l|
    ensures TickedTo(l, 0) == l && TickedTo(l, |l|) == TickAll(l)
    ensures i < |l| ==> TickedTo(l, i)[i := Ticked(l[i])] == TickedTo(l, i + 1)
  {
  }

  /** No list starts at a free slot. */
  lemma NoThread(pool: seq<Slot>, head: int)
    requires 0 <= head < |pool| && pool[head].fish.location == 0
    ensures forall c :: !Threads(pool, head, c)
  {
    forall c: seq<nat> ensures !Threads(pool, head, c) {
      assert c != [] ==> c[0] in c;
    }
  }

  lemma PushThreads(pool: seq<Slot>, head: int, chain: seq<nat>, s: nat, f: Fish)
    requires Threads(pool, head, chain) && s < 2000 && pool[s].fish.location == 0 && 0 < f.location < 2000
    ensures Threads(pool[s := Slot(f, head)], s, [s] + chain)
    ensures FishOf(pool[s := Slot(f, head)], [s] + chain) == [f] + FishOf(pool, chain)
  {
    assert s !in chain;
    PushLinked(pool, head, chain, s, f);
    PushFish(pool, chain, s, pool[s := Slot(f, head)], f);
    assert Marked(pool[s := Slot(f, head)], [s] + chain);
  }

  lemma PushLinked(pool: seq<Slot>, head: int, chain: seq<nat>, s: nat, f: Fish)
    requires Linked(pool, head, chain) && s < |pool| && s !in chain
    ensures Linked(pool[s := Slot(f, head)], s, [s] + chain)
  {
    var c, p := [s] + chain, pool[s := Slot(f, head)];
    assert forall i :: 0 <= i < |chain| ==> chain[i] in chain && c[i + 1] == chain[i];
    forall i | 0 <= i < |c| ensures p[c[i]].next == NodeAt(c, i + 1) {
      if i > 0 {
        assert pool[chain[i - 1]].next == NodeAt(chain, i);
      }
    }
  }

  lemma PushFish(pool: seq<Slot>, chain: seq<nat>, s: nat, p: seq<Slot>, f: Fish)
    requires s < |pool| == |p| && s !in chain && p[s].fish == f && forall i :: 0 <= i < |chain| ==> chain[i] < |pool|
    requires forall j :: 0 <= j < |pool| && j != s ==> p[j] == pool[j]
    ensures FishOf(p, [s] + chain) == [f] + FishOf(pool, chain)
  {
    var l, m := FishOf(p, [s] + chain), [f] + FishOf(pool, chain);
    forall i | 0 <= i < |l| ensures l[i] == m[i] {
      if i > 0 {
        assert chain[i - 1] in chain && m[i] == FishOf(pool, chain)[i - 1];
      }
    }
  }

  /** The chain without its k-th node. */
  function Without(chain: seq<nat>, k: nat): (c: seq<nat>)
    requires k < |chain|
    ensures |c| == |chain| - 1
    ensures forall i :: 0 <= i < |c| ==> c[i] == if i < k then chain[i] else chain[i + 1]
  {
    chain[..k] + chain[k + 1..]
  }

  lemma WithoutMembers(chain: seq<nat>, k: nat)
    requires Distinct(chain) && k < |chain|
    ensures Distinct(Without(chain, k))
    ensures forall s :: s in Without(chain, k) <==> s in chain && s != chain[k]
  {
    var c := Without(chain, k);
    forall s | s in chain && s != chain[k] ensures s in c {
      var i :| 0 <= i < |chain| && chain[i] == s;
      assert c[if i < k then i else i - 1] == s;
    }
  }

  /** The pool after node `k` is unlinked and its slot zeroed. */
  function Unlinked(pool: seq<Slot>, chain: seq<nat>, k: nat): seq<Slot>
    requires k < |chain| && forall i :: 0 <= i < |chain| ==> chain[i] < |pool|
  {
    var p := if k == 0 then pool else pool[chain[k - 1] := pool[chain[k - 1]].(next := pool[chain[k]].next)];
    p[chain[k] := ZERO]
  }

  lemma UnlinkThreads(pool: seq<Slot>, head: int, chain: seq<nat>, k: nat)
    requires Threads(pool, head, chain) && k < |chain|
    ensures Threads(Unlinked(pool, chain, k), if k == 0 then pool[chain[k]].next else head, Without(chain, k))
    ensures FishOf(Unlinked(pool, chain, k), Without(chain, k)) ==
            FishOf(pool, chain)[..k] + FishOf(pool, chain)[k + 1..]
  {
    WithoutMembers(chain, k);
    UnlinkLinked(pool, head, chain, k);
    UnlinkKeeps(pool, chain, k);
    UnlinkFish(pool, Unlinked(pool, chain, k), chain, k);
  }

  lemma UnlinkFish(pool: seq<Slot>, p: seq<Slot>, chain: seq<nat>, k: nat)
    requires Distinct(chain) && k < |chain| && |p| == |pool| && forall i :: 0 <= i < |chain| ==> chain[i] < |pool|
    requires forall s :: 0 <= s < |pool| && s != chain[k] ==> p[s].fish == pool[s].fish
    ensures FishOf(p, Without(chain, k)) == FishOf(pool, chain)[..k] + FishOf(pool, chain)[k + 1..]
  {
    var c, l := Without(chain, k), FishOf(pool, chain);
    forall i | 0 <= i < |c| ensures FishOf(p, c)[i] == (l[..k] + l[k + 1..])[i] {
      var j := if i < k then i else i + 1;
      assert c[i] == chain[j] != chain[k];
    }
  }

  lemma UnlinkKeeps(pool: seq<Slot>, chain: seq<nat>, k: nat)
    requires Distinct(chain) && Marked(pool, chain) && k < |chain| && forall i :: 0 <= i < |chain| ==> chain[i] < |pool|
    ensures Marked(Unlinked(pool, chain, k), Without(chain, k)) && |Unlinked(pool, chain, k)| == |pool|
    ensures forall s :: 0 <= s < |pool| && s != chain[k] ==> Unlinked(pool, chain, k)[s].fish == pool[s].fish
  {
    WithoutMembers(chain, k);
  }

  lemma UnlinkLinked(pool: seq<Slot>, head: int, chain: seq<nat>, k: nat)
    requires Distinct(chain) && Linked(pool, head, chain) && k < |chain|
    ensures Linked(Unlinked(pool, chain, k), if k == 0 then pool[chain[k]].next else head, Without(chain, k))
  {
    var c, p := Without(chain, k), Unlinked(pool, chain, k);
    forall i | 0 <= i < |c| ensures c[i] < |p| && p[c[i]].next == NodeAt(c, i + 1) {
      var j := if i < k then i else i + 1;
      assert c[i] == chain[j] != chain[k];
      assert k > 0 && j != k - 1 ==> chain[j] != chain[k - 1];
    }
  }

  function Members(chain: seq<nat>): set<nat> {
    set s | s in chain
  }

  lemma {:induction false} DistinctCount(chain: seq<nat>)
    requires Distinct(chain)
    ensures |Members(chain)| == |chain|
  {
    if chain != [] {
      var f, x := Front(chain), Last(chain);
      assert Distinct(f) && x !in f;
      DistinctCount(f);
      assert forall s :: s in chain <==> s in f || s == x by {
        assert chain == f + [x];
      }
      assert Members(chain) == Members(f) + {x} && x !in Members(f);
    }
  }

  function Below(n: nat): (b: set<nat>)
    ensures |b| == n && forall s: nat :: s in b <==> s < n
  {
    if n == 0 then {} else Below(n - 1) + {n - 1}
  }

  /** Distinct numbers below `n` are all of them exactly when there are `n`. */
  lemma Pigeonhole(chain: seq<nat>, n: nat)
    requires Distinct(chain) && forall s :: s in chain ==> s < n
    ensures |chain| == n <==> forall s: nat :: s < n ==> s in chain
  {
    DistinctCount(chain);
    SubsetCount(Members(chain), Below(n));
    if forall s: nat :: s < n ==> s in chain {
      assert Members(chain) == Below(n);
    } else {
      var s: nat :| s < n && s !in chain;
      assert s in Below(n) && s !in Members(chain);
    }
  }

  /** No slot is free exactly when the list has as many entries as there are slots. */
  lemma FullIff(pool: seq<Slot>, head: int, chain: seq<nat>)
    requires Threads(pool, head, chain)
    ensures |chain| == |pool| <==> forall s :: 0 <= s < |pool| ==> pool[s].fish.location != 0
  {
    forall s | s in chain ensures s < |pool| {
      var i :| 0 <= i < |chain| && chain[i] == s;
    }
    Pigeonhole(chain, |pool|);
  }
}
