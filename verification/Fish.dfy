/** Blinking screen cells on abstract lists: 16-bit countdowns, on/off phases, synchronisation. */
module Fish {
  import opened Basics
  import opened Text

  type word = x: int | 0 <= x < 0x10000

  /** A mp1_blink_struct without its link. */
  datatype Fish = Fish(location: word, onChar: byte, offChar: byte, onLength: word, offLength: word,
                       countdown: word, status: word)

  // ---- One entry ----------------------------------------------------------------------

  /** decw: 16-bit decrement with wrap-around. */
  function Decremented(w: word): word {
    if w == 0 then 0xFFFF else w - 1
  }

  /** A signed 16-bit comparison with zero. */
  predicate Positive(w: word) {
    0 < w < 0x8000
  }

  /** The countdown has run out: this tick flips the entry. */
  predicate Fires(f: Fish) {
    !Positive(Decremented(f.countdown))
  }

  function Ticked(f: Fish): Fish {
    if !Fires(f) then f.(countdown := Decremented(f.countdown))
    else if f.status % 2 == 1 then f.(countdown := f.offLength, status := f.status - 1)
    else f.(countdown := f.onLength, status := f.status + 1)
  }

  function TickedTimes(f: Fish, n: nat): Fish {
    if n == 0 then f else Ticked(TickedTimes(f, n - 1))
  }

  predicate IsOn(f: Fish) {
    f.status % 2 == 1
  }

  /** The character the entry should be showing. */
  function Shown(f: Fish): byte {
    if IsOn(f) then f.onChar else f.offChar
  }

  /** What add stores: on, with a full countdown. */
  function Started(f: Fish): Fish {
    f.(status := 1, countdown := f.onLength)
  }

  /** How many ticks a length really lasts: zero and lengths above 32768 last one. */
  function Lasts(length: word): (n: nat)
    ensures n > 0
  {
    if 1 <= length <= 0x8000 then length else 1
  }

  /** The countdown `m` ticks into a phase of the given length. */
  function CountdownAt(length: word, m: nat): word
    requires m < Lasts(length)
  {
    length - m
  }

  lemma PhaseStep(length: word, m: nat)
    requires m < Lasts(length)
    ensures Positive(Decremented(CountdownAt(length, m))) <==> m + 1 < Lasts(length)
    ensures m + 1 < Lasts(length) ==> Decremented(CountdownAt(length, m)) == CountdownAt(length, m + 1)
  {
  }

  lemma NextRemainder(n: nat, p: nat)
    requires p > 0
    ensures (n + 1) % p == if n % p + 1 == p then 0 else n % p + 1
  {
    var q, r := n / p, n % p;
    assert p * (q + 1) == p * q + p;
    if r + 1 == p {
      QuotientIs(n + 1, p, q + 1);
    } else {
      QuotientIs(n + 1, p, q);
    }
  }

  lemma QuotientIs(n: nat, p: nat, q: nat)
    requires p > 0 && p * q <= n < p * q + p
    ensures n % p == n - p * q
  {
    var k, d := n / p, n / p - q;
    assert p * k == p * q + p * d;
    MultipleIsFar(p, d);
  }

  lemma MultipleIsFar(p: nat, d: int)
    ensures d >= 1 ==> p * d >= p
    ensures d <= -1 ==> p * d + p <= 0
  {
    assert p * d == p * (d - 1) + p;
    assert p * d == p * (d + 1) - p;
  }

  /**
   * For every pair of 16-bit lengths, an entry is on after `n` ticks exactly when `n` falls in
   * the first phase of its period, and its countdown says how far into a phase it is.
   */
  lemma {:induction false} OnAfter(f: Fish, n: nat)
    ensures var on, p := Lasts(f.onLength), Lasts(f.onLength) + Lasts(f.offLength);
            var g, m := TickedTimes(Started(f), n), n % p;
            && (IsOn(g) <==> m < on)
            && g == Started(f).(status := if m < on then 1 else 0,
                                countdown := if m < on then CountdownAt(f.onLength, m)
                                             else CountdownAt(f.offLength, m - on))
  {
    if n > 0 {
      OnAfter(f, n - 1);
      var on, p := Lasts(f.onLength), Lasts(f.onLength) + Lasts(f.offLength);
      var m := (n - 1) % p;
      NextRemainder(n - 1, p);
      if m < on {
        PhaseStep(f.onLength, m);
      } else {
        PhaseStep(f.offLength, m - on);
      }
    }
  }

  // ---- The list -----------------------------------------------------------------------

  function TickAll(l: seq<Fish>): (r: seq<Fish>)
    ensures |r| == |l| && forall i :: 0 <= i < |l| ==> r[i] == Ticked(l[i])
  {
    seq(|l|, i requires 0 <= i < |l| => Ticked(l[i]))
  }

  /** The position of the first entry at a location, or |l|. */
  function Find(l: seq<Fish>, location: word): (k: nat)
    ensures k <= |l| && (k < |l| ==> l[k].location == location)
    ensures forall i :: 0 <= i < k ==> l[i].location != location
  {
    if l == [] || l[0].location == location then 0 else 1 + Find(l[1..], location)
  }

  lemma FindIs(l: seq<Fish>, location: word, k: nat)
    requires k <= |l| && (k < |l| ==> l[k].location == location)
    requires forall i :: 0 <= i < k ==> l[i].location != location
    ensures Find(l, location) == k
  {
  }

  function Added(l: seq<Fish>, f: Fish): seq<Fish> {
    if f.location >= 2000 || |l| == 2000 then l else [Started(f)] + l
  }

  function Removed(l: seq<Fish>, location: word): seq<Fish> {
    var k := Find(l, location);
    if k == |l| then l else l[..k] + l[k + 1..]
  }

  /** No other entry is at the location of the k-th. */
  predicate Unique(l: seq<Fish>, k: nat)
    requires k < |l|
  {
    forall i :: 0 <= i < |l| && i != k ==> l[i].location != l[k].location
  }

  /** `m` is `l` without its k-th entry, the first at its location. */
  ghost predicate TakenOut(l: seq<Fish>, m: seq<Fish>, location: word, k: nat) {
    && k < |l| && l[k].location == location && (forall i :: 0 <= i < k ==> l[i].location != location)
    && |m| == |l| - 1 && forall i :: 0 <= i < |m| ==> m[i] == l[if i < k then i else i + 1]
  }

  /** A remove at a location that is present takes the first entry there out; at any other it changes nothing. */
  lemma RemoveTakesOut(l: seq<Fish>, location: word)
    ensures (forall i :: 0 <= i < |l| ==> l[i].location != location) ==> Step(l, Remove(location)) == l
    ensures (exists i :: 0 <= i < |l| && l[i].location == location) ==>
              exists k :: TakenOut(l, Step(l, Remove(location)), location, k)
  {
    var k := Find(l, location);
    if k < |l| {
      assert TakenOut(l, Step(l, Remove(location)), location, k);
    }
  }

  /** What is taken out is one entry; if it was alone at its location, none is found there any more. */
  lemma TakenOutIsGone(l: seq<Fish>, m: seq<Fish>, location: word, k: nat)
    requires TakenOut(l, m, location, k)
    ensures multiset(l) == multiset(m) + multiset{l[k]}
    ensures Unique(l, k) ==> (forall i :: 0 <= i < |m| ==> m[i].location != location) && Find(m, location) == |m|
  {
    assert l == l[..k] + [l[k]] + l[k + 1..] && m == l[..k] + l[k + 1..];
    if Unique(l, k) {
      FindIs(m, location, |m|);
    }
  }

  /** An add puts its entry, on and with a full countdown, in front of all others, and a find there meets it. */
  lemma AddedIsFirst(l: seq<Fish>, f: Fish)
    requires f.location < 2000 && |l| < 2000
    ensures var m := Step(l, Add(f));
            && |m| == |l| + 1 && m[1..] == l && Find(m, f.location) == 0
            && m[0] == f.(status := 1, countdown := f.onLength)
  {
  }

  /** `to` takes over the timing of `from`. */
  function Timed(to: Fish, from: Fish): Fish {
    to.(onLength := from.onLength, offLength := from.offLength, countdown := from.countdown, status := from.status)
  }

  function Synced(l: seq<Fish>, from: word, to: word): seq<Fish> {
    var i, j := Find(l, from), Find(l, to);
    if i == |l| || j == |l| then l else l[j := Timed(l[j], l[i])]
  }

  datatype Event = Tick | Add(f: Fish) | Remove(location: word) | Sync(from: word, to: word)

  function Step(l: seq<Fish>, e: Event): seq<Fish> {
    match e
    case Tick => TickAll(l)
    case Add(f) => Added(l, f)
    case Remove(location) => Removed(l, location)
    case Sync(from, to) => Synced(l, from, to)
  }

  function Run(l: seq<Fish>, es: seq<Event>): seq<Fish> {
    if es == [] then l else Step(Run(l, Front(es)), Last(es))
  }

  /** The first entries at the two locations exist and agree in lengths, countdown and status. */
  predicate InStep(l: seq<Fish>, a: word, b: word) {
    var i, j := Find(l, a), Find(l, b);
    i < |l| && j < |l| && Timed(l[j], l[i]) == l[j]
  }

  /** The event neither adds in front of, removes nor re-times the entries at `a` and `b`. */
  predicate Leaves(e: Event, a: word, b: word) {
    match e
    case Tick => true
    case Add(f) => f.location != a && f.location != b
    case Remove(location) => location != a && location != b
    case Sync(_, to) => to != a && to != b
  }

  /** What an event that leaves location `a` alone does to the first entry there: at most tick it. */
  lemma StepFirst(l: seq<Fish>, e: Event, a: word)
    requires Leaves(e, a, a) && Find(l, a) < |l|
    ensures var k := Find(Step(l, e), a);
            k < |Step(l, e)| && Step(l, e)[k] == if e.Tick? then Ticked(l[Find(l, a)]) else l[Find(l, a)]
  {
    var i, r := Find(l, a), Step(l, e);
    match e
    case Tick => FindIs(r, a, i);
    case Add(f) => if r != l { FindIs(r, a, i + 1); }
    case Remove(location) =>
      var k := Find(l, location);
      if k < |l| {
        FindIs(r, a, if k < i then i - 1 else i);
      }
    case Sync(_, _) => FindIs(r, a, i);
  }

  predicate LeavesAll(es: seq<Event>, a: word, b: word) {
    forall e :: e in es ==> Leaves(e, a, b)
  }

  /** Once in step, two entries stay in step until one of them is removed, covered or synced again. */
  lemma {:induction false} StaysInStep(l: seq<Fish>, es: seq<Event>, a: word, b: word)
    requires InStep(l, a, b) && LeavesAll(es, a, b)
    ensures InStep(Run(l, es), a, b)
  {
    if es != [] {
      assert LeavesAll(Front(es), a, b) && Last(es) in es;
      StaysInStep(l, Front(es), a, b);
      StepFirst(Run(l, Front(es)), Last(es), a);
      StepFirst(Run(l, Front(es)), Last(es), b);
    }
  }

  /** A successful sync puts its two entries in step for good, in that sense. */
  lemma SyncedStaysInStep(l: seq<Fish>, a: word, b: word, es: seq<Event>)
    requires Find(l, a) < |l| && Find(l, b) < |l| && LeavesAll(es, a, b)
    ensures InStep(Run(Synced(l, a, b), es), a, b)
  {
    var i, j, r := Find(l, a), Find(l, b), Synced(l, a, b);
    FindIs(r, a, i);
    FindIs(r, b, j);
    StaysInStep(r, es, a, b);
  }

  // ---- The screen ---------------------------------------------------------------------

  predicate InRange(l: seq<Fish>) {
    forall i :: 0 <= i < |l| ==> l[i].location < 2000
  }

  /** The byte one entry's tick pokes, if it fires. */
  function Poke(v: seq<byte>, f: Fish): (r: seq<byte>)
    requires |v| >= 4000 && f.location < 2000
    ensures |r| == |v|
  {
    if Fires(f) then v[2 * f.location := Shown(Ticked(f))] else v
  }

  /** The bytes a tick pokes, in list order. */
  function PokeAll(v: seq<byte>, l: seq<Fish>): (r: seq<byte>)
    requires |v| >= 4000 && InRange(l)
    ensures |r| == |v|
  {
    if l == [] then v else Poke(PokeAll(v, Front(l)), Last(l))
  }

  lemma PokeOne(v: seq<byte>, l: seq<Fish>, i: nat)
    requires |v| >= 4000 && i < |l| && InRange(l)
    ensures PokeAll(v, l[..i + 1]) == Poke(PokeAll(v, l[..i]), l[i])
  {
    assert Front(l[..i + 1]) == l[..i];
  }

  /** Bytes of locations that do not fire are not touched. */
  lemma {:induction false} PokeElsewhere(v: seq<byte>, l: seq<Fish>, location: word)
    requires |v| >= 4000 && InRange(l)
    requires location < 2000 && forall i :: 0 <= i < |l| ==> l[i].location != location
    ensures PokeAll(v, l)[2 * location] == v[2 * location]
  {
    if l != [] {
      PokeElsewhere(v, Front(l), location);
    }
  }

  /** A tick changes the screen at an entry alone at its location exactly when the entry fires. */
  lemma {:induction false} TickByte(v: seq<byte>, l: seq<Fish>, k: nat)
    requires |v| >= 4000 && InRange(l) && k < |l| && Unique(l, k)
    ensures PokeAll(v, l)[2 * l[k].location] == if Fires(l[k]) then Shown(Ticked(l[k])) else v[2 * l[k].location]
  {
    if k == |l| - 1 {
      PokeElsewhere(v, Front(l), l[k].location);
    } else {
      TickByte(v, Front(l), k);
      assert Last(l).location != l[k].location;
    }
  }

  /** The screen bytes after an event: what it pokes, if anything. */
  function StepScreen(v: seq<byte>, l: seq<Fish>, e: Event): (w: seq<byte>)
    requires |v| >= 4000 && InRange(l)
    ensures |w| == |v|
  {
    match e
    case Tick => PokeAll(v, l)
    case Add(f) => if f.location >= 2000 || |l| == 2000 then v else v[2 * f.location := f.onChar]
    case Remove(_) => v
    case Sync(from, to) =>
      if Find(l, from) == |l| || Find(l, to) == |l| then v else v[2 * to := l[Find(l, to)].offChar]
  }

  lemma StepInRange(l: seq<Fish>, e: Event)
    requires InRange(l)
    ensures InRange(Step(l, e))
  {
  }

  function RunBoth(v: seq<byte>, l: seq<Fish>, es: seq<Event>): (r: (seq<byte>, seq<Fish>))
    requires |v| >= 4000 && InRange(l)
    ensures |r.0| == |v| && InRange(r.1) && r.1 == Run(l, es)
  {
    if es == [] then (v, l)
    else
      var (w, m) := RunBoth(v, l, Front(es));
      StepInRange(m, Last(es));
      (StepScreen(w, m, Last(es)), Step(m, Last(es)))
  }

  function Ticks(es: seq<Event>): nat {
    if es == [] then 0 else Ticks(Front(es)) + if Last(es).Tick? then 1 else 0
  }

  /** There is one entry at location `a`. */
  predicate Alone(l: seq<Fish>, a: word) {
    a < 2000 && Find(l, a) < |l| && Unique(l, Find(l, a))
  }

  /** There is one entry at location `a`, and the screen shows it. */
  predicate Showing(v: seq<byte>, l: seq<Fish>, a: word)
    requires |v| >= 4000
  {
    Alone(l, a) && v[2 * a] == Shown(l[Find(l, a)])
  }

  lemma StepByte(v: seq<byte>, l: seq<Fish>, e: Event, a: word)
    requires |v| >= 4000 && InRange(l) && Alone(l, a) && Leaves(e, a, a)
    ensures var f := l[Find(l, a)];
            StepScreen(v, l, e)[2 * a] == if e.Tick? && Fires(f) then Shown(Ticked(f)) else v[2 * a]
    ensures Alone(Step(l, e), a)
  {
    StepFirst(l, e, a);
    StepAlone(l, e, a);
    if e.Tick? {
      TickByte(v, l, Find(l, a));
    }
  }

  /** Until its countdown has run, an entry does nothing but count. */
  lemma {:induction false} Counting(f: Fish, n: nat)
    requires n < Lasts(f.countdown)
    ensures TickedTimes(f, n) == f.(countdown := CountdownAt(f.countdown, n))
    ensures Fires(TickedTimes(f, n)) <==> n + 1 == Lasts(f.countdown)
  {
    PhaseStep(f.countdown, n);
    if n > 0 {
      Counting(f, n - 1);
      PhaseStep(f.countdown, n - 1);
    }
  }

  lemma StepAlone(l: seq<Fish>, e: Event, a: word)
    requires Find(l, a) < |l| && Unique(l, Find(l, a)) && Leaves(e, a, a)
    requires Find(Step(l, e), a) < |Step(l, e)|
    ensures Unique(Step(l, e), Find(Step(l, e), a))
  {
    var r := Step(l, e);
    var k, i := Find(r, a), Find(l, a);
    match e
    case Tick => FindIs(r, a, i);
    case Add(f) => if r != l { FindIs(r, a, i + 1); }
    case Remove(location) =>
      RemoveAlone(l, location, a);
    case Sync(_, _) => FindIs(r, a, i);
  }

  lemma RemoveAlone(l: seq<Fish>, location: word, a: word)
    requires Find(l, a) < |l| && Unique(l, Find(l, a)) && location != a
    requires Find(Removed(l, location), a) < |Removed(l, location)|
    ensures Unique(Removed(l, location), Find(Removed(l, location), a))
  {
    var r, d, i := Removed(l, location), Find(l, location), Find(l, a);
    if d < |l| {
      FindIs(r, a, if d < i then i - 1 else i);
      forall j | 0 <= j < |r| && j != Find(r, a) ensures r[j].location != a {
        assert r[j] == l[if j < d then j else j + 1];
      }
    }
  }

  /**
   * The entry alone at `a` is `f` after `n` ticks, and the screen there is `was` until its first phase
   * change and shows the entry from then on.
   */
  predicate Aged(w: seq<byte>, m: seq<Fish>, a: word, f: Fish, n: nat, was: byte) {
    && |w| >= 4000 && Alone(m, a) && m[Find(m, a)] == TickedTimes(f, n)
    && w[2 * a] == if n < Lasts(f.countdown) then was else Shown(TickedTimes(f, n))
  }

  lemma {:induction false} RunAged(v: seq<byte>, l: seq<Fish>, es: seq<Event>, a: word, f: Fish, was: byte)
    requires Aged(v, l, a, f, 0, was) && InRange(l) && LeavesAll(es, a, a)
    ensures Aged(RunBoth(v, l, es).0, RunBoth(v, l, es).1, a, f, Ticks(es), was)
  {
    if es != [] {
      assert LeavesAll(Front(es), a, a) && Last(es) in es;
      RunAged(v, l, Front(es), a, f, was);
      var both := RunBoth(v, l, Front(es));
      AgedMore(both.0, both.1, Last(es), a, f, Ticks(Front(es)), was);
    }
  }

  /**
   * An entry alone at its location, whatever happens at other locations: it has ticked as often
   * as the list has, and from its first phase change on the screen shows it.
   */
  lemma RunAlone(v: seq<byte>, l: seq<Fish>, es: seq<Event>, a: word)
    requires |v| >= 4000 && InRange(l) && Alone(l, a) && LeavesAll(es, a, a)
    ensures var (w, m) := RunBoth(v, l, es);
            Aged(w, m, a, l[Find(l, a)], Ticks(es), v[2 * a])
  {
    RunAged(v, l, es, a, l[Find(l, a)], v[2 * a]);
  }

  lemma AgedMore(w: seq<byte>, m: seq<Fish>, e: Event, a: word, f: Fish, n: nat, was: byte)
    requires InRange(m) && Leaves(e, a, a) && Aged(w, m, a, f, n, was)
    ensures Aged(StepScreen(w, m, e), Step(m, e), a, f, if e.Tick? then n + 1 else n, was)
  {
    StepFirst(m, e, a);
    StepByte(w, m, e, a);
    if n < Lasts(f.countdown) {
      Counting(f, n);
    }
  }

  /** After any such run the screen shows the entry exactly if a phase has changed or it did before. */
  lemma ShowsAgainIff(v: seq<byte>, l: seq<Fish>, es: seq<Event>, a: word)
    requires |v| >= 4000 && InRange(l) && Alone(l, a) && LeavesAll(es, a, a)
    ensures var (w, m) := RunBoth(v, l, es);
            Showing(w, m, a) <==> Ticks(es) >= Lasts(l[Find(l, a)].countdown) || Showing(v, l, a)
  {
    RunAlone(v, l, es, a);
    if Ticks(es) < Lasts(l[Find(l, a)].countdown) {
      Counting(l[Find(l, a)], Ticks(es));
    }
  }

  /** An entry the screen shows stays shown. */
  lemma RunShowing(v: seq<byte>, l: seq<Fish>, es: seq<Event>, a: word)
    requires |v| >= 4000 && InRange(l) && Showing(v, l, a) && LeavesAll(es, a, a)
    ensures var (w, m) := RunBoth(v, l, es);
            Showing(w, m, a) && m[Find(m, a)] == TickedTimes(l[Find(l, a)], Ticks(es))
  {
    RunAlone(v, l, es, a);
    ShowsAgainIff(v, l, es, a);
  }

  /**
   * After a sync, and any run that leaves its target alone, the screen shows the target exactly if
   * its first phase change has come, the source was off, or its two characters are the same.
   */
  lemma SyncShowsIff(v: seq<byte>, l: seq<Fish>, from: word, to: word, es: seq<Event>)
    requires |v| >= 4000 && InRange(l) && Find(l, from) < |l| && Alone(l, to) && LeavesAll(es, to, to)
    ensures var source, target := l[Find(l, from)], l[Find(l, to)];
            var m := Synced(l, from, to);
            InRange(m) && (
              var (w, r) := RunBoth(StepScreen(v, l, Sync(from, to)), m, es);
              Showing(w, r, to) <==>
                Ticks(es) >= Lasts(source.countdown) || !IsOn(source) || target.onChar == target.offChar)
  {
    var m, j := Synced(l, from, to), Find(l, to);
    FindIs(m, to, j);
    assert m[j] == Timed(l[j], l[Find(l, from)]);
    ShowsAgainIff(StepScreen(v, l, Sync(from, to)), m, es, to);
  }

  /**
   * From its add on, an entry at a location of its own shows its on character exactly in the
   * first phase of each period, over every run that leaves its location alone.
   */
  lemma BlinksOnSchedule(v: seq<byte>, l: seq<Fish>, f: Fish, es: seq<Event>)
    requires |v| >= 4000 && InRange(l) && f.location < 2000 && |l| < 2000
    requires Find(l, f.location) == |l| && LeavesAll(es, f.location, f.location)
    ensures var on, off := Lasts(f.onLength), Lasts(f.offLength);
            var w := RunBoth(StepScreen(v, l, Add(f)), Added(l, f), es).0;
            w[2 * f.location] == if Ticks(es) % (on + off) < on then f.onChar else f.offChar
  {
    var m := Added(l, f);
    FindIs(m, f.location, 0);
    OnAfter(f, Ticks(es));
    RunShowing(StepScreen(v, l, Add(f)), m, es, f.location);
  }
}
