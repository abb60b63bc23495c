/** The real-time clock shared out: each terminal gets its own rate from one 512 Hz interrupt. */
module Rtc {
  import opened Numbers

  // ---- Powers of two ------------------------------------------------------------------

  /** Bitwise AND. */
  function And(a: nat, b: nat): nat {
    if a == 0 || b == 0 then 0 else 2 * And(a / 2, b / 2) + (a % 2) * (b % 2)
  }

  ghost predicate PowerOfTwo(v: int) {
    exists k: nat :: v == Power(2, k)
  }

  lemma {:induction false} AndSelf(a: nat)
    ensures And(a, a) == a
  {
    if a > 0 {
      AndSelf(a / 2);
      assert (a % 2) * (a % 2) == a % 2;
    }
  }

  /** Clearing the lowest bit leaves nothing exactly for the powers of two. */
  lemma {:induction false} ClearedIffPower(v: nat)
    requires v > 0
    ensures And(v, v - 1) == 0 <==> PowerOfTwo(v)
  {
    if v == 1 {
      assert Power(2, 0) == 1;
    } else if v % 2 == 1 {
      AndSelf(v / 2);
      assert (v - 1) / 2 == v / 2;
      OddIsNoPower(v);
    } else {
      ClearedIffPower(v / 2);
      assert (v - 1) / 2 == v / 2 - 1;
      HalfIsPower(v);
    }
  }

  lemma OddIsNoPower(v: nat)
    requires v > 1 && v % 2 == 1
    ensures !PowerOfTwo(v)
  {
    forall k: nat ensures v != Power(2, k) {
      assert k == 0 || Power(2, k) == 2 * Power(2, k - 1);
    }
  }

  lemma HalfIsPower(v: nat)
    requires v > 0 && v % 2 == 0
    ensures PowerOfTwo(v) <==> PowerOfTwo(v / 2)
  {
    if PowerOfTwo(v) {
      var k: nat :| v == Power(2, k);
      assert k > 0 && v / 2 == Power(2, k - 1);
    }
    if PowerOfTwo(v / 2) {
      var k: nat :| v / 2 == Power(2, k);
      assert v == Power(2, k + 1);
    }
  }

  /** `freq - 1` as the target computes it. */
  function Pred(v: int32): int32 {
    if v == -0x8000_0000 then 0x7fff_ffff else v - 1
  }

  function ClearLowest(v: int32): nat {
    And(Unsigned(v), Unsigned(Pred(v)))
  }

  /** rtc_write takes zero, the smallest integer and the positive powers of two, and nothing else. */
  lemma AcceptedIff(v: int32)
    ensures ClearLowest(v) == 0 <==> v == 0 || v == -0x8000_0000 || (v > 0 && PowerOfTwo(v))
  {
    if v != 0 {
      ClearedIffPower(Unsigned(v));
      if v == -0x8000_0000 {
        assert Power(2, 8) == 256;
        assert Power(2, 16) == 65536;
        assert Power(2, 31) == 0x8000_0000;
      } else if v < 0 {
        BetweenPowers(Unsigned(v), 31);
      }
    }
  }

  /** There is no power of two strictly between consecutive ones. */
  lemma BetweenPowers(v: nat, n: nat)
    requires Power(2, n) < v < Power(2, n + 1) || (n == 31 && 0x8000_0000 < v < 0x1_0000_0000)
    ensures !PowerOfTwo(v)
  {
    assert Power(2, 8) == 256;
    assert Power(2, 16) == 65536;
    assert Power(2, 31) == 0x8000_0000;
    assert Power(2, 32) == 0x1_0000_0000;
    forall k: nat ensures v != Power(2, k) {
      if k <= n { PowerOrder(k, n); } else { PowerOrder(n + 1, k); }
    }
  }

  lemma {:induction false} PowerOrder(a: nat, b: nat)
    requires a <= b
    ensures Power(2, a) <= Power(2, b)
  {
    if a < b {
      PowerOrder(a, b - 1);
    }
  }

  /** The powers of two up to 512 divide it. */
  lemma DividesSecond(f: nat)
    requires PowerOfTwo(f) && f <= 512
    ensures 1 <= f && f * (512 / f) == 512
  {
    var k: nat :| f == Power(2, k);
    assert Power(2, 4) == 16;
    assert Power(2, 10) == 1024;
    if k >= 10 { PowerOrder(10, k); }
    assert k < 10;
    assert f == 1 || f == 2 || f == 4 || f == 8 || f == 16 || f == 32 || f == 64 || f == 128 || f == 256 || f == 512;
  }

  // ---- Runs ---------------------------------------------------------------------------

  type terminal = t: nat | t < 3

  /** The rate and the countdown of each terminal. */
  datatype Clock = Clock(freq: seq<int32>, counter: seq<int>)

  /** Interrupts, and the calls that programs of terminal `t` make. */
  datatype Event = Tick | Open(t: terminal) | Write(t: terminal, f: int32) | Read(t: terminal)

  const LOWEST: int32 := -0x8000_0000

  predicate Sound(s: Clock) {
    |s.freq| == 3 && |s.counter| == 3 &&
    forall i :: 0 <= i < 3 ==> s.counter[i] >= 0 && (s.freq[i] >= 0 || s.freq[i] == LOWEST)
  }

  /** 512 / f, truncated toward zero as the target does. */
  function Period(f: int): int
    requires f != 0
  {
    if f > 0 then 512 / f else -(512 / -f)
  }

  function Less(c: int): int {
    if c != 0 then c - 1 else c
  }

  /** What an event does; a read at rate 0 faults on its division and changes nothing. */
  function Step(s: Clock, e: Event): (r: Clock)
    requires Sound(s)
    ensures Sound(r)
  {
    match e
    case Tick => s.(counter := [Less(s.counter[0]), Less(s.counter[1]), Less(s.counter[2])])
    case Open(t) => s.(freq := s.freq[t := 2])
    case Write(t, f) => (AcceptedIff(f); if ClearLowest(f) != 0 then s else s.(freq := s.freq[t := f]))
    case Read(t) => if s.freq[t] == 0 then s else s.(counter := s.counter[t := Period(s.freq[t])])
  }

  function Run(s: Clock, es: seq<Event>): (r: Clock)
    requires Sound(s)
    ensures Sound(r)
    decreases es
  {
    if es == [] then s else Run(Step(s, es[0]), es[1..])
  }

  function Ticks(es: seq<Event>): (n: nat)
    ensures n <= |es|
  {
    if es == [] then 0 else (if es[0] == Tick then 1 else 0) + Ticks(es[1..])
  }

  predicate Quiet(es: seq<Event>, t: terminal) {
    Read(t) !in es
  }

  /** A countdown falls with every interrupt and stops at 0, whatever the other terminals do. */
  lemma {:induction false} CountsDown(s: Clock, es: seq<Event>, t: terminal)
    requires Sound(s) && Quiet(es, t)
    ensures Run(s, es).counter[t] == if s.counter[t] > Ticks(es) then s.counter[t] - Ticks(es) else 0
    decreases es
  {
    if es != [] {
      assert es[0] != Read(t);
      CountsDown(Step(s, es[0]), es[1..], t);
    }
  }

  /** A read is over exactly when 512/f interrupts have come, however events interleave, and stays over. */
  lemma ReadLasts(s: Clock, es: seq<Event>, t: terminal)
    requires Sound(s) && s.freq[t] > 0 && Quiet(es, t)
    ensures Run(s, [Read(t)] + es).counter[t] == 0 <==> Ticks(es) >= 512 / s.freq[t]
  {
    assert ([Read(t)] + es)[1..] == es;
    CountsDown(Step(s, Read(t)), es, t);
  }

  /** What `t` does to its rate and countdown is done by then. */
  predicate Settled(es: seq<Event>, t: terminal) {
    forall e <- es :: e.Tick? || e.t != t
  }

  lemma {:induction false} RateStays(s: Clock, es: seq<Event>, t: terminal)
    requires Sound(s) && Settled(es, t)
    ensures Run(s, es).freq[t] == s.freq[t]
    decreases es
  {
    if es != [] {
      assert es[0] in es;
      RateStays(Step(s, es[0]), es[1..], t);
    }
  }

  lemma {:induction false} RunConcat(s: Clock, a: seq<Event>, b: seq<Event>)
    requires Sound(s)
    ensures Run(s, a + b) == Run(Run(s, a), b)
    decreases a
  {
    if a == [] {
      assert a + b == b;
    } else {
      assert (a + b)[1..] == a[1..] + b;
      RunConcat(Step(s, a[0]), a[1..], b);
    }
  }

  /** A read at a rate set before, others' events in between: it is over exactly when 512/f interrupts have come. */
  lemma ReadAtRate(s: Clock, idle: seq<Event>, es: seq<Event>, t: terminal, f: int32)
    requires Sound(s) && s.freq[t] == f > 0 && Settled(idle, t) && Quiet(es, t)
    ensures Run(s, idle + [Read(t)] + es).counter[t] == 0 <==> Ticks(es) >= 512 / f
  {
    RateStays(s, idle, t);
    RunConcat(s, idle, [Read(t)] + es);
    assert idle + ([Read(t)] + es) == idle + [Read(t)] + es;
    ReadLasts(Run(s, idle), es, t);
  }

  /** A rate that is written is the rate at which the next read waits. */
  lemma WrittenRateCounts(s: Clock, idle: seq<Event>, es: seq<Event>, t: terminal, f: int32)
    requires Sound(s) && f > 0 && PowerOfTwo(f) && Settled(idle, t) && Quiet(es, t)
    ensures Run(s, [Write(t, f)] + (idle + [Read(t)] + es)).counter[t] == 0 <==> Ticks(es) >= 512 / f
  {
    AcceptedIff(f);
    var rest := idle + [Read(t)] + es;
    assert ([Write(t, f)] + rest)[1..] == rest;
    ReadAtRate(Step(s, Write(t, f)), idle, es, t, f);
  }

  /** After an open a read waits for 256 interrupts. */
  lemma OpenedRateCounts(s: Clock, idle: seq<Event>, es: seq<Event>, t: terminal)
    requires Sound(s) && Settled(idle, t) && Quiet(es, t)
    ensures Run(s, [Open(t)] + (idle + [Read(t)] + es)).counter[t] == 0 <==> Ticks(es) >= 256
  {
    var rest := idle + [Read(t)] + es;
    assert ([Open(t)] + rest)[1..] == rest;
    ReadAtRate(Step(s, Open(t)), idle, es, t, 2);
  }

  /** A rate that is not a power of two is refused, and the terminal reads on at the rate it had. */
  lemma RefusedRateKeeps(s: Clock, t: terminal, f: int32)
    requires Sound(s) && f > 0 && !PowerOfTwo(f)
    ensures Step(s, Write(t, f)) == s
  {
    AcceptedIff(f);
  }

  /** The events of others, and a program of `t` that reads again as soon as a read is over. */
  function Loop(s: Clock, es: seq<Event>, t: terminal): (beats: nat)
    requires Sound(s)
    decreases es
  {
    if es == [] then 0 else
    var r := Step(s, es[0]);
    if r.counter[t] == 0 then 1 + Loop(Step(r, Read(t)), es[1..], t) else Loop(r, es[1..], t)
  }

  lemma {:induction false} BeatsCounted(s: Clock, es: seq<Event>, t: terminal, p: nat)
    requires Sound(s) && Settled(es, t) && s.freq[t] > 0 && p == 512 / s.freq[t] && 0 < s.counter[t] <= p
    ensures p * Loop(s, es, t) <= Ticks(es) + p - s.counter[t] < p * Loop(s, es, t) + p
    decreases es
  {
    if es != [] {
      var r := Step(s, es[0]);
      assert es[0] == Tick || es[0].t != t;
      assert r.freq[t] == s.freq[t];
      if r.counter[t] == 0 {
        var again := Step(r, Read(t));
        BeatsCounted(again, es[1..], t, p);
        assert p * (1 + Loop(again, es[1..], t)) == p + p * Loop(again, es[1..], t);
      } else {
        BeatsCounted(r, es[1..], t, p);
      }
    }
  }

  /** Reading in a loop at rate f gives exactly f beats in every 512 interrupts, whatever the others do. */
  lemma BeatsPerSecond(s: Clock, es: seq<Event>, t: terminal, seconds: nat)
    requires Sound(s) && Settled(es, t) && Ticks(es) == 512 * seconds
    requires 0 < s.freq[t] <= 512 && PowerOfTwo(s.freq[t])
    ensures Loop(Step(s, Read(t)), es, t) == s.freq[t] * seconds
  {
    var f := s.freq[t];
    var p := 512 / f;
    DividesSecond(f);
    assert p > 0;
    BeatsCounted(Step(s, Read(t)), es, t, p);
    WholeBeats(f, p, seconds, Loop(Step(s, Read(t)), es, t));
  }

  lemma WholeBeats(f: nat, p: nat, seconds: nat, beats: nat)
    requires f * p == 512 && p * beats <= 512 * seconds < p * beats + p
    ensures beats == f * seconds
  {
    var all := f * seconds;
    assert 512 * seconds == p * all;
    if beats < all {
      ProductGap(p, beats, all);
    } else if beats > all {
      ProductGap(p, all, beats);
    }
  }

  lemma ProductGap(p: nat, a: nat, b: nat)
    requires a < b
    ensures p * a + p <= p * b
  {
    assert p * (a + 1) <= p * b;
  }

  // ---- The driver ---------------------------------------------------------------------

  class Driver {
    const freq: array<int32>
    const counter: array<int>
    var scheduled: terminal

    ghost predicate Valid()
      reads this, freq, counter
    {
      freq.Length == 3 && counter.Length == 3 && Sound(Abs())
    }

    function Abs(): Clock
      reads this, freq, counter
    {
      Clock(freq[..], counter[..])
    }

    constructor ()
      ensures Valid() && Abs() == Clock([0, 0, 0], [0, 0, 0]) && fresh(freq) && fresh(counter)
    {
      freq, counter := new int32[3](_ => 0), new int[3](_ => 0);
      scheduled := 0;
    }

    method RtcOpen()
      requires Valid()
      modifies freq
      ensures Valid() && Abs() == Step(old(Abs()), Open(scheduled)) && freq[..] == old(freq[..])[scheduled := 2]
    {
      freq[scheduled] := 2;
    }

    /** Accepts the rate exactly when it is 0, the smallest integer or a positive power of two. */
    method RtcWrite(f: int32) returns (ok: bool)
      requires Valid()
      modifies freq
      ensures Valid() && Abs() == Step(old(Abs()), Write(scheduled, f))
      ensures ok <==> f == 0 || f == LOWEST || (f > 0 && PowerOfTwo(f))
      ensures freq[..] == if ok then old(freq[..])[scheduled := f] else old(freq[..])
    {
      AcceptedIff(f);
      if ClearLowest(f) != 0 { return false; }
      freq[scheduled] := f;
      return true;
    }

    /** The part of rtc_read before it waits; it faults when the rate is 0. */
    method RtcRead() returns (ok: bool)
      requires Valid()
      modifies counter
      ensures Valid() && Abs() == Step(old(Abs()), Read(scheduled)) && ok == (freq[scheduled] != 0)
      ensures freq[scheduled] > 0 ==> counter[..] == old(counter[..])[scheduled := 512 / freq[scheduled]]
    {
      if freq[scheduled] == 0 { return false; }
      counter[scheduled] := Period(freq[scheduled]);
      return true;
    }

    method RtcHandler()
      requires Valid()
      modifies counter
      ensures Valid() && Abs() == Step(old(Abs()), Tick)
    {
      var j := 0;
      while j < 3
        invariant 0 <= j <= 3
        invariant forall i :: 0 <= i < 3 ==> counter[i] == if i < j then Less(old(counter[i])) else old(counter[i])
      {
        if counter[j] != 0 {
          counter[j] := counter[j] - 1;
        }
        j := j + 1;
      }
    }
  }
}
