/** Bytes, C strings, and the division of a text into lines and fixed-width rows. */
module Text {
  import opened Basics

  type byte = x: int | 0 <= x < 256

  const NUL: byte := 0
  const BACKSPACE: byte := 8
  const TAB: byte := 9
  const NEWLINE: byte := 10
  const RETURN: byte := 13

  /** The bytes of a literal. */
  function Ascii(s: string): (b: seq<byte>)
    requires forall i :: 0 <= i < |s| ==> s[i] < 128 as char
  {
    seq(|s|, i requires 0 <= i < |s| => s[i] as int)
  }

  lemma TakeHead<T>(s: seq<T>, n: nat)
    requires 0 < n <= |s|
    ensures s[..n] == [s[0]] + s[1..][..n - 1]
  {
    var a, b := s[..n], [s[0]] + s[1..][..n - 1];
    assert |a| == |b|;
    forall k | 0 <= k < n ensures a[k] == b[k] {}
  }

  /** The bytes before the first NUL (all of `s` when there is none). */
  function CString(s: seq<byte>): (c: seq<byte>)
    ensures c <= s && NUL !in c
    ensures |c| < |s| ==> s[|c|] == NUL
  {
    if s == [] || s[0] == NUL then [] else [s[0]] + CString(s[1..])
  }

  lemma {:induction false} CStringIs(s: seq<byte>, n: nat)
    requires n <= |s| && NUL !in s[..n] && (n < |s| ==> s[n] == NUL)
    ensures CString(s) == s[..n]
  {
    if n > 0 {
      TakeHead(s, n);
      CStringIs(s[1..], n - 1);
    }
  }

  lemma {:induction false} CStringAtLeast(s: seq<byte>, n: nat)
    requires n <= |s| && NUL !in s[..n]
    ensures |CString(s)| >= n
  {
    if n > 0 {
      TakeHead(s, n);
      CStringAtLeast(s[1..], n - 1);
    }
  }

  /** The first position of `c` in `s`, or |s|. */
  function IndexOf(s: seq<byte>, c: byte): (i: nat)
    ensures i <= |s|
  {
    if s == [] || s[0] == c then 0 else IndexOf(s[1..], c) + 1
  }

  lemma {:induction false} IndexOfFinds(s: seq<byte>, c: byte)
    ensures c !in s[..IndexOf(s, c)] && (IndexOf(s, c) < |s| ==> s[IndexOf(s, c)] == c)
  {
    if s != [] && s[0] != c {
      IndexOfFinds(s[1..], c);
      TakeHead(s, IndexOf(s, c));
    }
  }

  /** The pieces of `s` between newlines; the last piece may be empty. */
  function Lines(s: seq<byte>): (ls: seq<seq<byte>>)
    ensures |ls| > 0
  {
    var i := IndexOf(s, NEWLINE);
    if i == |s| then [s] else [s[..i]] + Lines(s[i + 1..])
  }

  /** Lines with newlines between them. */
  function Joined(ls: seq<seq<byte>>): seq<byte>
    requires ls != []
  {
    if |ls| == 1 then ls[0] else ls[0] + [10] + Joined(ls[1..])
  }

  /** The lines of a text hold no newlines, and joined by newlines they are the text again. */
  lemma {:induction false} LinesJoin(s: seq<byte>)
    ensures Joined(Lines(s)) == s && forall i :: 0 <= i < |Lines(s)| ==> 10 !in Lines(s)[i]
  {
    var i := IndexOf(s, NEWLINE);
    IndexOfFinds(s, NEWLINE);
    if i < |s| {
      LinesJoin(s[i + 1..]);
      assert Lines(s)[1..] == Lines(s[i + 1..]);
      assert s == s[..i] + [10] + s[i + 1..];
    } else {
      assert s[..i] == s;
    }
  }

  function Concatenated(rs: seq<seq<byte>>): seq<byte> {
    if rs == [] then [] else rs[0] + Concatenated(rs[1..])
  }

  /** The rows of a line are the line again; all but the last are `w` bytes long, and the last is shorter. */
  lemma {:induction false} WrapJoins(line: seq<byte>, w: nat)
    requires w > 0
    ensures var rs := Wrap(line, w);
            && Concatenated(rs) == line && |rs[|rs| - 1]| < w
            && forall i :: 0 <= i < |rs| - 1 ==> |rs[i]| == w
  {
    if |line| < w {
      assert [line][1..] == [];
    } else {
      WrapJoins(line[w..], w);
      assert Wrap(line, w)[1..] == Wrap(line[w..], w);
    }
  }

  /** A line cut into rows of `w` bytes; only the last row, possibly empty, is shorter. */
  function Wrap(line: seq<byte>, w: nat): (rs: seq<seq<byte>>)
    requires w > 0
    ensures |rs| > 0
  {
    if |line| < w then [line] else [line[..w]] + Wrap(line[w..], w)
  }

  function WrapAll(ls: seq<seq<byte>>, w: nat): seq<seq<byte>>
    requires w > 0
  {
    if ls == [] then [] else Wrap(ls[0], w) + WrapAll(ls[1..], w)
  }

  /** A text laid out in rows of `w` columns. */
  function Rows(s: seq<byte>, w: nat): (rs: seq<seq<byte>>)
    requires w > 0
    ensures |rs| > 0
  {
    WrapAll(Lines(s), w)
  }

  lemma WrapAllHead(l: seq<byte>, ls: seq<seq<byte>>, w: nat)
    requires w > 0
    ensures WrapAll([l] + ls, w) == Wrap(l, w) + WrapAll(ls, w)
    ensures ls == [] ==> WrapAll([l], w) == Wrap(l, w)
  {
    assert ([l] + ls)[1..] == ls;
    assert ls == [] ==> [l] + ls == [l];
  }

  lemma LinesBreak(s: seq<byte>, i: nat)
    requires i < |s| && s[i] == NEWLINE && NEWLINE !in s[..i]
    ensures Lines(s) == [s[..i]] + Lines(s[i + 1..])
  {
    IndexIs(s, i);
  }

  lemma LinesWhole(s: seq<byte>)
    requires NEWLINE !in s
    ensures Lines(s) == [s]
  {
    assert s[..|s|] == s;
    IndexIs(s, |s|);
  }

  // ---- Reading a layout from the front ------------------------------------------------

  /** A complete line shorter than `w` is the first row. */
  lemma {:induction false} RowsFrontLine(s: seq<byte>, i: nat, w: nat)
    requires i < |s| && i < w && s[i] == NEWLINE && NEWLINE !in s[..i]
    ensures Rows(s, w) == [s[..i]] + Rows(s[i + 1..], w)
  {
    LinesBreak(s, i);
    WrapAllHead(s[..i], Lines(s[i + 1..]), w);
  }

  lemma WrapFull(row: seq<byte>, m: seq<byte>, w: nat)
    requires |row| == w > 0
    ensures Wrap(row + m, w) == [row] + Wrap(m, w)
  {
    assert (row + m)[..w] == row && (row + m)[w..] == m;
  }

  lemma LinesOf(l: seq<byte>, t: seq<byte>)
    requires NEWLINE !in l
    ensures Lines(l + [NEWLINE] + t) == [l] + Lines(t)
  {
    var s := l + [NEWLINE] + t;
    assert s[..|l|] == l && s[|l| + 1..] == t;
    LinesBreak(s, |l|);
  }

  lemma RowsFullThenLine(row: seq<byte>, m: seq<byte>, t: seq<byte>, w: nat)
    requires |row| == w > 0 && NEWLINE !in row && NEWLINE !in m
    ensures Rows(row + m + [NEWLINE] + t, w) == [row] + Rows(m + [NEWLINE] + t, w)
  {
    LinesOf(row + m, t);
    LinesOf(m, t);
    WrapAllHead(row + m, Lines(t), w);
    WrapAllHead(m, Lines(t), w);
    WrapFull(row, m, w);
    Assoc([row], Wrap(m, w), WrapAll(Lines(t), w));
  }

  lemma RowsFullThenEnd(row: seq<byte>, m: seq<byte>, w: nat)
    requires |row| == w > 0 && NEWLINE !in row && NEWLINE !in m
    ensures Rows(row + m, w) == [row] + Rows(m, w)
  {
    LinesWhole(row + m);
    LinesWhole(m);
    WrapAllHead(row + m, [], w);
    WrapAllHead(m, [], w);
    WrapFull(row, m, w);
  }

  /** `w` bytes without a newline are the first row. */
  lemma RowsFrontFull(s: seq<byte>, w: nat)
    requires 0 < w <= |s| && NEWLINE !in s[..w]
    ensures Rows(s, w) == [s[..w]] + Rows(s[w..], w)
  {
    var row, u := s[..w], s[w..];
    var j := IndexOf(u, NEWLINE);
    IndexOfFinds(u, NEWLINE);
    var m := u[..j];
    if j < |u| {
      var t := u[j + 1..];
      assert u == m + [NEWLINE] + t && s == row + m + [NEWLINE] + t;
      RowsFullThenLine(row, m, t, w);
    } else {
      assert u == m && s == row + m;
      RowsFullThenEnd(row, m, w);
    }
  }

  /** Fewer than `w` bytes without a newline are the only row. */
  lemma {:induction false} RowsSingle(s: seq<byte>, w: nat)
    requires |s| < w && NEWLINE !in s
    ensures Rows(s, w) == [s]
  {
    LinesWhole(s);
    WrapAllHead(s, [], w);
  }

  lemma {:induction false} IndexIs(s: seq<byte>, i: nat)
    requires i <= |s| && NEWLINE !in s[..i] && (i < |s| ==> s[i] == NEWLINE)
    ensures IndexOf(s, NEWLINE) == i
  {
    if i > 0 {
      TakeHead(s, i);
      IndexIs(s[1..], i - 1);
    }
  }

  // ---- Extending a layout at the end --------------------------------------------------

  /** What one more byte does to a layout: the incremental form of Rows. */
  function Extend(rs: seq<seq<byte>>, c: byte, w: nat): (r: seq<seq<byte>>)
    requires rs != []
  {
    if c == NEWLINE then rs + [[]]
    else
      var l := Last(rs) + [c];
      Front(rs) + (if |l| < w then [l] else [l, []])
  }

  /** What one more byte does to the lines of a text. */
  function ExtendLines(ls: seq<seq<byte>>, c: byte): seq<seq<byte>>
    requires ls != []
  {
    if c == NEWLINE then ls + [[]] else Front(ls) + [Last(ls) + [c]]
  }

  lemma ExtendLinesTail(l: seq<byte>, ls: seq<seq<byte>>, c: byte)
    requires ls != []
    ensures ExtendLines([l] + ls, c) == [l] + ExtendLines(ls, c)
  {
    assert Front([l] + ls) == [l] + Front(ls);
  }

  lemma {:induction false} LinesExtend(s: seq<byte>, c: byte)
    ensures Lines(s + [c]) == ExtendLines(Lines(s), c)
    decreases |s|
  {
    var t := s + [c];
    var i := IndexOf(s, NEWLINE);
    IndexOfFinds(s, NEWLINE);
    if i < |s| {
      assert t[..i] == s[..i] && t[i + 1..] == s[i + 1..] + [c];
      LinesBreak(t, i);
      LinesExtend(s[i + 1..], c);
      ExtendLinesTail(s[..i], Lines(s[i + 1..]), c);
    } else {
      assert s[..i] == s;
      LinesWhole(s);
      if c == NEWLINE {
        assert t[..|s|] == s && t[|s| + 1..] == [];
        LinesBreak(t, |s|);
        LinesWhole([]);
      } else {
        LinesWhole(t);
      }
    }
  }

  lemma {:induction false} WrapExtend(l: seq<byte>, c: byte, w: nat)
    requires w > 0 && c != NEWLINE
    ensures Wrap(l + [c], w) == Extend(Wrap(l, w), c, w)
    decreases |l|
  {
    if |l| >= w {
      var row, u := l[..w], l[w..];
      assert l == row + u && l + [c] == row + (u + [c]);
      WrapFull(row, u, w);
      WrapFull(row, u + [c], w);
      WrapExtend(u, c, w);
      ExtendPrefix([row], Wrap(u, w), c, w);
    } else {
      assert Front([l]) == [];
      if |l| + 1 == w {
        assert l + [c] == l + [c] + [];
        WrapFull(l + [c], [], w);
      }
    }
  }

  lemma {:induction false} WrapAllConcat(a: seq<seq<byte>>, b: seq<seq<byte>>, w: nat)
    requires w > 0
    ensures WrapAll(a + b, w) == WrapAll(a, w) + WrapAll(b, w)
  {
    if a == [] {
      assert a + b == b;
    } else {
      assert (a + b)[1..] == a[1..] + b;
      WrapAllConcat(a[1..], b, w);
    }
  }

  /** Laying out one more byte extends the layout incrementally. */
  lemma {:induction false} RowsExtend(s: seq<byte>, c: byte, w: nat)
    requires w > 0
    ensures Rows(s + [c], w) == Extend(Rows(s, w), c, w)
  {
    var ls := Lines(s);
    LinesExtend(s, c);
    if c == NEWLINE {
      WrapAllConcat(ls, [[]], w);
      WrapAllHead([], [], w);
    } else {
      var l := Last(ls);
      assert ls == Front(ls) + [l];
      WrapAllConcat(Front(ls), [l], w);
      WrapAllConcat(Front(ls), [l + [c]], w);
      WrapAllHead(l, [], w);
      WrapAllHead(l + [c], [], w);
      WrapExtend(l, c, w);
      ExtendPrefix(WrapAll(Front(ls), w), Wrap(l, w), c, w);
    }
  }

  lemma ExtendPrefix(a: seq<seq<byte>>, r: seq<seq<byte>>, c: byte, w: nat)
    requires r != []
    ensures Extend(a + r, c, w) == a + Extend(r, c, w)
  {
    assert Front(a + r) == a + Front(r) && Last(a + r) == Last(r);
  }

  /** Every row of a layout is at most `w` wide and the last one is narrower. */
  lemma {:induction false} RowsWidth(s: seq<byte>, w: nat)
    requires w > 0
    ensures forall i :: 0 <= i < |Rows(s, w)| ==> |Rows(s, w)[i]| <= w
    ensures |Last(Rows(s, w))| < w
  {
    if s == [] {
      RowsSingle(s, w);
    } else {
      assert s == s[..|s| - 1] + [Last(s)];
      RowsWidth(s[..|s| - 1], w);
      RowsExtend(s[..|s| - 1], Last(s), w);
    }
  }
}
