/** The kernel's block operations: aligned head, dword body, byte tail; direction-aware memmove. */
module Memory {
  import opened Text

  /** `now` is `was` with `n` bytes at `d` replaced by those at `s` in the snapshot `from`. */
  ghost predicate Copied(now: seq<byte>, was: seq<byte>, d: nat, from: seq<byte>, s: nat, n: nat)
    requires d + n <= |was| && s + n <= |from|
  {
    |now| == |was| &&
    forall i :: 0 <= i < |now| ==> now[i] == if d <= i < d + n then from[s + (i - d)] else was[i]
  }

  /** A forward copy may not write a byte of its source before reading it. */
  predicate ForwardSafe(same: bool, d: nat, s: nat, n: nat) {
    !same || d <= s || s + n <= d
  }

  /** The byte loop of memcpy: stops after `n` bytes or, if `align`, at a dword boundary. */
  method CopyBytes(dst: array<byte>, d: nat, src: array<byte>, s: nat, n: nat, align: bool) returns (k: nat)
    requires d + n <= dst.Length && s + n <= src.Length && ForwardSafe(dst == src, d, s, n)
    modifies dst
    ensures k <= n && (k == n || (align && (d + k) % 4 == 0))
    ensures Copied(dst[..], old(dst[..]), d, old(src[..]), s, k)
  {
    ghost var was, from := dst[..], src[..];
    k := 0;
    while k < n && !(align && (d + k) % 4 == 0)
      invariant k <= n
      invariant Copied(dst[..], was, d, from, s, k)
    {
      assert src[s + k] == from[s + k];
      CopiedOne(dst[..], was, d, from, s, k);
      dst[d + k] := src[s + k];
      k := k + 1;
    }
  }

  lemma CopiedOne(now: seq<byte>, was: seq<byte>, d: nat, from: seq<byte>, s: nat, k: nat)
    requires d + k < |was| && s + k < |from| && Copied(now, was, d, from, s, k)
    ensures Copied(now[d + k := from[s + k]], was, d, from, s, k + 1)
  {
  }

  /** `rep movsl`: `c` dwords, each read whole before it is written. */
  method CopyDwords(dst: array<byte>, d0: nat, src: array<byte>, s0: nat, c: nat)
    requires d0 + 4 * c <= dst.Length && s0 + 4 * c <= src.Length && ForwardSafe(dst == src, d0, s0, 4 * c)
    modifies dst
    ensures Copied(dst[..], old(dst[..]), d0, old(src[..]), s0, 4 * c)
  {
    ghost var was, from := dst[..], src[..];
    var k := 0;
    while k < c
      invariant k <= c
      invariant Copied(dst[..], was, d0, from, s0, 4 * k)
    {
      var d, s := d0 + 4 * k, s0 + 4 * k;
      dst[d], dst[d + 1], dst[d + 2], dst[d + 3] := src[s], src[s + 1], src[s + 2], src[s + 3];
      k := k + 1;
    }
  }

  /** memcpy leaves a snapshot copy unless it would overwrite source bytes it has yet to read. */
  method Memcpy(dst: array<byte>, d: nat, src: array<byte>, s: nat, n: nat)
    requires d + n <= dst.Length && s + n <= src.Length && ForwardSafe(dst == src, d, s, n)
    modifies dst
    ensures Copied(dst[..], old(dst[..]), d, old(src[..]), s, n)
  {
    ghost var m0, f0 := dst[..], src[..];
    var head := CopyBytes(dst, d, src, s, n, true);
    ghost var m1, f1 := dst[..], src[..];
    var body := (n - head) / 4;
    CopyDwords(dst, d + head, src, s + head, body);
    ghost var m2, f2 := dst[..], src[..];
    var done := head + 4 * body;
    CopiedTwice(m0, m1, m2, d, f0, f1, s, head, done, dst == src, n);
    var tail := CopyBytes(dst, d + done, src, s + done, n - done, false);
    CopiedTwice(m0, m2, dst[..], d, f0, f2, s, done, n, dst == src, n);
  }

  /** Two consecutive stretches of a safe forward copy make one. */
  lemma CopiedTwice(m0: seq<byte>, m1: seq<byte>, m2: seq<byte>, d: nat, f0: seq<byte>, f1: seq<byte>, s: nat,
                    k: nat, e: nat, same: bool, n: nat)
    requires k <= e <= n && d + n <= |m0| && s + n <= |f0| && |f1| == |f0| && ForwardSafe(same, d, s, n)
    requires f1 == if same then m1 else f0
    requires same ==> f0 == m0
    requires Copied(m1, m0, d, f0, s, k) && Copied(m2, m1, d + k, f1, s + k, e - k)
    ensures Copied(m2, m0, d, f0, s, e)
  {
    forall i | 0 <= i < |m2| ensures m2[i] == if d <= i < d + e then f0[s + (i - d)] else m0[i] {
      if d + k <= i < d + e {
        assert f1[s + (i - d)] == f0[s + (i - d)];
      }
    }
  }

  // ---- Any overlap --------------------------------------------------------------------

  /** The bytes before the first dword boundary. */
  function Head(d: nat, n: nat): (h: nat)
    ensures h <= n && (h < n ==> (d + h) % 4 == 0)
  {
    var h := (4 - d % 4) % 4;
    if h < n then h else n
  }

  /** Where the byte or dword that byte `j` is moved with begins. */
  function Start(d: nat, n: nat, j: nat): (i: nat)
    requires j < n
    ensures i <= j
  {
    var h := Head(d, n);
    if h <= j < h + (n - h) / 4 * 4 then h + (j - h) / 4 * 4 else j
  }

  /** What memcpy of `n` bytes within one memory leaves at `x`: a source byte overwritten in time is read as such. */
  function After(was: seq<byte>, d: nat, s: nat, n: nat, x: nat): byte
    requires d + n <= |was| && s + n <= |was| && x < |was|
    decreases x
  {
    if !(d <= x < d + n) then was[x]
    else
      var j := x - d;
      if d <= s + j < d + Start(d, n, j) then After(was, d, s, n, s + j) else was[s + j]
  }

  /** `k` bytes are done. */
  ghost predicate Done(now: seq<byte>, was: seq<byte>, d: nat, s: nat, n: nat, k: nat)
    requires d + n <= |was| && s + n <= |was|
  {
    |now| == |was| && k <= n &&
    forall x :: 0 <= x < |now| ==> now[x] == if d <= x < d + k then After(was, d, s, n, x) else was[x]
  }

  method MoveBytes(m: array<byte>, d: nat, s: nat, n: nat, from: nat, to: nat, ghost was: seq<byte>)
    requires d + n <= |was| == m.Length && s + n <= |was| && from <= to <= n && Done(m[..], was, d, s, n, from)
    requires forall k :: from <= k < to ==> Start(d, n, k) == k
    modifies m
    ensures Done(m[..], was, d, s, n, to)
  {
    var k := from;
    while k < to
      invariant from <= k <= to && Done(m[..], was, d, s, n, k)
    {
      m[d + k] := m[s + k];
      k := k + 1;
    }
  }

  method MoveDwords(m: array<byte>, d: nat, s: nat, ghost n: nat, from: nat, c: nat, ghost was: seq<byte>)
    requires d + n <= |was| == m.Length && s + n <= |was| && from + 4 * c <= n && Done(m[..], was, d, s, n, from)
    requires forall k :: from <= k < from + 4 * c ==> Start(d, n, k) == from + (k - from) / 4 * 4
    modifies m
    ensures Done(m[..], was, d, s, n, from + 4 * c)
  {
    var j := 0;
    while j < c
      invariant 0 <= j <= c && Done(m[..], was, d, s, n, from + 4 * j)
    {
      MoveDword(m, d, s, n, from + 4 * j, was);
      j := j + 1;
    }
  }

  method MoveDword(m: array<byte>, d: nat, s: nat, ghost n: nat, k: nat, ghost was: seq<byte>)
    requires d + n <= |was| == m.Length && s + n <= |was| && k + 4 <= n && Done(m[..], was, d, s, n, k)
    requires forall i :: k <= i < k + 4 ==> Start(d, n, i) == k
    modifies m
    ensures Done(m[..], was, d, s, n, k + 4)
  {
    ghost var before := m[..];
    var to, from := d + k, s + k;
    m[to], m[to + 1], m[to + 2], m[to + 3] := m[from], m[from + 1], m[from + 2], m[from + 3];
    DwordDone(was, before, m[..], d, s, n, k);
  }

  lemma DwordDone(was: seq<byte>, m0: seq<byte>, m1: seq<byte>, d: nat, s: nat, n: nat, k: nat)
    requires d + n <= |was| && s + n <= |was| && k + 4 <= n && Done(m0, was, d, s, n, k) && |m1| == |m0|
    requires forall i :: k <= i < k + 4 ==> Start(d, n, i) == k
    requires forall x :: 0 <= x < |m1| && !(d + k <= x < d + k + 4) ==> m1[x] == m0[x]
    requires forall x :: d + k <= x < d + k + 4 ==> m1[x] == m0[s + (x - d)]
    ensures Done(m1, was, d, s, n, k + 4)
  {
    forall x | 0 <= x < |m1| ensures m1[x] == if d <= x < d + (k + 4) then After(was, d, s, n, x) else was[x] {
      if d + k <= x < d + k + 4 {
        assert Start(d, n, x - d) == k && m1[x] == m0[s + (x - d)];
      } else {
        assert m1[x] == m0[x];
      }
    }
  }

  method MoveHead(m: array<byte>, d: nat, s: nat, n: nat, ghost was: seq<byte>) returns (h: nat)
    requires d + n <= |was| == m.Length && s + n <= |was| && Done(m[..], was, d, s, n, 0)
    modifies m
    ensures h == Head(d, n) && Done(m[..], was, d, s, n, h)
  {
    h := 0;
    while h < n && (d + h) % 4 != 0
      invariant 0 <= h <= Head(d, n) && Done(m[..], was, d, s, n, h)
    {
      assert Start(d, n, h) == h;
      m[d + h] := m[s + h];
      h := h + 1;
    }
  }

  /** memcpy within one memory, whatever overlaps. */
  method MemcpyWithin(m: array<byte>, d: nat, s: nat, n: nat)
    requires d + n <= m.Length && s + n <= m.Length
    modifies m
    ensures forall x :: 0 <= x < m.Length ==> m[x] == After(old(m[..]), d, s, n, x)
  {
    ghost var was := m[..];
    var h := MoveHead(m, d, s, n, was);
    var c := (n - h) / 4;
    Starts(d, n);
    MoveDwords(m, d, s, n, h, c, was);
    MoveBytes(m, d, s, n, h + 4 * c, n, was);
  }

  /** Single bytes before and after the dwords. */
  lemma Starts(d: nat, n: nat)
    ensures var h := Head(d, n);
            var c := (n - h) / 4;
            && (forall k :: h <= k < h + 4 * c ==> Start(d, n, k) == h + (k - h) / 4 * 4)
            && (forall k :: h + 4 * c <= k < n ==> Start(d, n, k) == k)
  {
  }

  /** Which bytes move with the first one, and that later ones start behind those. */
  lemma FirstMove(d: nat, n: nat, first: nat, j: nat)
    requires first == (if d % 4 == 0 && n >= 4 then 4 else 1) && j < n
    ensures if j < first then Start(d, n, j) == 0 else Start(d, n, j) >= first
  {
    var h := Head(d, n);
    if first == 4 {
      assert h == 0;
      if j >= 4 {
        assert j / 4 >= 1;
      }
    } else if h == 0 {
      assert n < 4;
    }
  }

  /** One byte that an unsafe overlap gets wrong. */
  lemma UnsafeFails(length: nat, d: nat, s: nat, n: nat) returns (m: seq<byte>)
    requires d + n <= length && s + n <= length && !ForwardSafe(true, d, s, n) && !(d % 4 == 0 && n == 4)
    ensures |m| == length && !IsSnapshot(m, d, s, n)
  {
    var gap := d - s;
    var first := if d % 4 == 0 && n >= 4 then 4 else 1;
    var j: nat := if gap < first then first else gap;
    var q: nat := j - gap;
    m := seq(length, x => if x == s + q then 1 else 0);
    FirstMove(d, n, first, q);
    FirstMove(d, n, first, j);
    var x := d + j;
    assert s + (x - d) == d + q && After(m, d, s, n, d + q) == m[s + q] == 1;
    assert After(m, d, s, n, x) == 1 && m[s + (x - d)] == 0;
  }

  /** memcpy leaves a snapshot copy of the bytes `was`. */
  ghost predicate IsSnapshot(was: seq<byte>, d: nat, s: nat, n: nat)
    requires d + n <= |was| && s + n <= |was|
  {
    forall x :: d <= x < d + n ==> After(was, d, s, n, x) == was[s + (x - d)]
  }

  lemma OneMove(m: seq<byte>, d: nat, s: nat)
    requires d + 4 <= |m| && s + 4 <= |m| && d % 4 == 0
    ensures IsSnapshot(m, d, s, 4)
  {
    forall x | d <= x < d + 4 ensures After(m, d, s, 4, x) == m[s + (x - d)] {
      FirstMove(d, 4, 4, x - d);
    }
  }

  /**
   * memcpy within one memory leaves a snapshot copy, whatever the bytes, exactly if it overwrites no
   * source byte before reading it or moves a single aligned dword.
   */
  lemma MemcpyIsSnapshotIff(length: nat, d: nat, s: nat, n: nat)
    requires d + n <= length && s + n <= length
    ensures (forall m: seq<byte> :: |m| == length ==> IsSnapshot(m, d, s, n))
            <==> ForwardSafe(true, d, s, n) || (d % 4 == 0 && n == 4)
  {
    if ForwardSafe(true, d, s, n) {
      assert forall m: seq<byte> :: |m| == length ==> IsSnapshot(m, d, s, n);
    } else if d % 4 == 0 && n == 4 {
      forall m: seq<byte> | |m| == length ensures IsSnapshot(m, d, s, n) {
        OneMove(m, d, s);
      }
    } else {
      var m := UnsafeFails(length, d, s, n);
    }
  }

  /** memset stores the low byte of `v` at exactly the `n` addresses from `d0`. */
  method Memset(dst: array<byte>, d0: nat, v: int, n: nat)
    requires d0 + n <= dst.Length
    modifies dst
    ensures forall i :: 0 <= i < dst.Length ==> dst[i] == if d0 <= i < d0 + n then v % 256 else old(dst[i])
  {
    var b: byte := v % 256;
    var d, c := d0, n;
    while c != 0 && d % 4 != 0
      invariant 0 <= c <= n && d == d0 + (n - c)
      invariant forall i :: 0 <= i < dst.Length ==> dst[i] == if d0 <= i < d then b else old(dst[i])
    {
      dst[d] := b;
      d, c := d + 1, c - 1;
    }
    if c != 0 {
      var e := c % 4;
      c := c / 4;
      while c != 0
        invariant 0 <= c && 4 * c + e <= n && d == d0 + (n - 4 * c - e)
        invariant forall i :: 0 <= i < dst.Length ==> dst[i] == if d0 <= i < d then b else old(dst[i])
      {
        dst[d], dst[d + 1], dst[d + 2], dst[d + 3] := b, b, b, b;
        d, c := d + 4, c - 1;
      }
      while e != 0
        invariant 0 <= e <= n && d == d0 + (n - e)
        invariant forall i :: 0 <= i < dst.Length ==> dst[i] == if d0 <= i < d then b else old(dst[i])
      {
        dst[d] := b;
        d, e := d + 1, e - 1;
      }
    }
  }

  /** memmove leaves a snapshot copy for every overlap: forward from above, backward from below. */
  method Memmove(mem: array<byte>, dst: nat, src: nat, n: nat)
    requires dst + n <= mem.Length && src + n <= mem.Length
    modifies mem
    ensures Copied(mem[..], old(mem[..]), dst, old(mem[..]), src, n)
  {
    ghost var was := mem[..];
    var c := n;
    if src >= dst {
      var d, s := dst, src;
      while c != 0
        invariant 0 <= c <= n && d == dst + (n - c) && s == src + (n - c)
        invariant Copied(mem[..], was, dst, was, src, n - c)
      {
        mem[d] := mem[s];
        d, s, c := d + 1, s + 1, c - 1;
      }
    } else {
      var d: int, s: int := dst + n - 1, src + n - 1;
      while c != 0
        invariant 0 <= c <= n && d == dst + c - 1 && s == src + c - 1
        invariant Copied(mem[..], was, dst + c, was, src + c, n - c)
      {
        mem[d] := mem[s];
        d, s, c := d - 1, s - 1, c - 1;
      }
    }
  }
}
