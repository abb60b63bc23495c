/** The grep program: a streaming line search that carries partial lines across buffer refills. */
module Grep {
  import opened Basics
  import opened Text
  import opened FileSystem

  type Bytes = seq<byte>

  const BUFSIZE: nat := 1024
  const SBUFSIZE: nat := 33
  const COLON: byte := 58
  const DOT: byte := 46

  // ---- What grep should print ---------------------------------------------------------

  predicate Contains(line: seq<byte>, pat: seq<byte>) {
    exists i :: 0 <= i <= |line| && IsAt(line, i, pat)
  }

  predicate IsAt(line: seq<byte>, i: nat, pat: seq<byte>) {
    i + |pat| <= |line| && line[i..i + |pat|] == pat
  }

  /** A line contains a pattern exactly when it is something, the pattern, and something. */
  lemma ContainsIff(line: seq<byte>, pat: seq<byte>)
    ensures Contains(line, pat) <==> exists a: seq<byte>, b: seq<byte> :: line == a + pat + b
  {
    if Contains(line, pat) {
      var i :| 0 <= i <= |line| && IsAt(line, i, pat);
      assert line == line[..i] + pat + line[i + |pat|..];
    }
    if a: seq<byte>, b: seq<byte> :| line == a + pat + b {
      assert line[|a|..|a| + |pat|] == pat;
      assert IsAt(line, |a|, pat);
    }
  }

  /** What one line contributes to the output. An empty pattern selects nothing. */
  function Entry(fname: seq<byte>, pat: seq<byte>, line: seq<byte>): seq<byte> {
    if pat != [] && Contains(line, pat) then fname + [COLON] + line + [NEWLINE] else []
  }

  /** A selected line is printed after its file's name and a colon, and ends its own line of output. */
  lemma EntryFormat(fname: seq<byte>, a: seq<byte>, pat: seq<byte>, b: seq<byte>)
    requires pat != []
    ensures Entry(fname, pat, a + pat + b) == fname + Ascii(":") + (a + pat + b) + Ascii("\n")
    ensures Entry(fname, [], a) == []
  {
    ContainsIff(a + pat + b, pat);
  }

  function Report(fname: seq<byte>, pat: seq<byte>, lines: seq<seq<byte>>): seq<byte> {
    if lines == [] then [] else Entry(fname, pat, lines[0]) + Report(fname, pat, lines[1..])
  }

  /** The reference: split into lines, keep those that contain the pattern, print each once in order. */
  function NaiveGrep(fname: seq<byte>, pat: seq<byte>, text: seq<byte>): seq<byte> {
    Report(fname, pat, Lines(text))
  }

  /** What the streaming search prints: the same, over pieces of at most 1024 bytes. */
  function Hits(fname: seq<byte>, pat: seq<byte>, text: seq<byte>): seq<byte> {
    Report(fname, pat, Rows(text, 1024))
  }

  lemma {:induction false} ReportConcat(f: seq<byte>, pat: seq<byte>, a: seq<seq<byte>>, b: seq<seq<byte>>)
    ensures Report(f, pat, a + b) == Report(f, pat, a) + Report(f, pat, b)
  {
    if a == [] {
      assert a + b == b;
    } else {
      assert (a + b)[1..] == a[1..] + b && (a + b)[0] == a[0];
      ReportConcat(f, pat, a[1..], b);
      Assoc(Entry(f, pat, a[0]), Report(f, pat, a[1..]), Report(f, pat, b));
    }
  }

  lemma EmptyHasNoHits(f: seq<byte>, pat: seq<byte>)
    ensures Entry(f, pat, []) == [] && Hits(f, pat, []) == []
  {
    assert forall i :: IsAt([], i, pat) ==> pat == [];
    RowsSingle([], 1024);
    ReportHead(f, pat, [], []);
  }

  lemma ReportHead(f: seq<byte>, pat: seq<byte>, l: seq<byte>, ls: seq<seq<byte>>)
    ensures Report(f, pat, [l] + ls) == Entry(f, pat, l) + Report(f, pat, ls)
    ensures Report(f, pat, [l]) == Entry(f, pat, l)
  {
    assert ([l] + ls)[1..] == ls;
  }

  /** A line short enough for the buffer is cut only if it fills it, and then an empty piece follows. */
  lemma WrapHits(f: seq<byte>, pat: seq<byte>, l: seq<byte>)
    requires |l| <= 1024
    ensures Report(f, pat, Wrap(l, 1024)) == Entry(f, pat, l)
  {
    EmptyHasNoHits(f, pat);
    if |l| == 1024 {
      assert l[..1024] == l && l[1024..] == [];
      assert Wrap(l, 1024) == [l, []];
    }
    ReportHead(f, pat, l, [[]]);
    ReportHead(f, pat, [], []);
  }

  predicate NoLongLine(lines: seq<seq<byte>>) {
    forall l :: l in lines ==> |l| <= 1024
  }

  lemma {:induction false} WrapAllHits(f: seq<byte>, pat: seq<byte>, ls: seq<seq<byte>>)
    requires NoLongLine(ls)
    ensures Report(f, pat, WrapAll(ls, 1024)) == Report(f, pat, ls)
  {
    if ls != [] {
      assert NoLongLine(ls[1..]);
      WrapAllHits(f, pat, ls[1..]);
      assert ls[0] in ls;
      WrapHits(f, pat, ls[0]);
      ReportConcat(f, pat, Wrap(ls[0], 1024), WrapAll(ls[1..], 1024));
    }
  }

  /** A file without NULs has lines without newlines and NULs. */
  lemma {:induction false} LinesClean(text: seq<byte>)
    requires NUL !in text
    ensures forall i :: 0 <= i < |Lines(text)| ==> NEWLINE !in Lines(text)[i] && NUL !in Lines(text)[i]
  {
    var i := IndexOf(text, NEWLINE);
    IndexOfFinds(text, NEWLINE);
    if i < |text| {
      LinesClean(text[i + 1..]);
    } else {
      assert text[..i] == text;
    }
  }

  lemma ContainsFirst(l: seq<byte>)
    requires l != []
    ensures Contains(l, [l[0]])
  {
    assert l[0..0 + 1] == [l[0]];
    assert IsAt(l, 0, [l[0]]);
  }

  /** An overlong line is printed in pieces: where the whole line goes on, a newline is printed. */
  lemma OverlongDiffers(f: seq<byte>, l: seq<byte>, more: seq<byte>, rest: seq<byte>)
    requires |l| > 1024 && NEWLINE !in l
    ensures f + [COLON] + l[..1024] + [NEWLINE] + more != f + [COLON] + l + [NEWLINE] + rest
  {
    var a, b := f + [COLON] + l[..1024] + [NEWLINE] + more, f + [COLON] + l + [NEWLINE] + rest;
    assert a[|f| + 1025] == NEWLINE && b[|f| + 1025] == l[1024];
  }

  lemma OverlongHead(f: seq<byte>, ls: seq<seq<byte>>)
    requires ls != [] && |ls[0]| > 1024 && NEWLINE !in ls[0]
    ensures Report(f, [ls[0][0]], WrapAll(ls, 1024)) != Report(f, [ls[0][0]], ls)
  {
    var l := ls[0];
    var pat, piece := [l[0]], l[..1024];
    ContainsFirst(l);
    assert piece[0] == l[0];
    ContainsFirst(piece);
    var tail := Wrap(l[1024..], 1024) + WrapAll(ls[1..], 1024);
    assert WrapAll(ls, 1024) == [piece] + tail by {
      assert Wrap(l, 1024) == [piece] + Wrap(l[1024..], 1024);
    }
    ReportHead(f, pat, piece, tail);
    OverlongDiffers(f, l, Report(f, pat, tail), Report(f, pat, ls[1..]));
  }

  /** With the first overlong line's first byte as the pattern, the search does not print what it should. */
  lemma {:induction false} OverlongFails(f: seq<byte>, ls: seq<seq<byte>>) returns (c: byte)
    requires !NoLongLine(ls) && forall i :: 0 <= i < |ls| ==> NEWLINE !in ls[i] && NUL !in ls[i]
    ensures c != NUL && Report(f, [c], WrapAll(ls, 1024)) != Report(f, [c], ls)
  {
    if |ls[0]| > 1024 {
      c := ls[0][0];
      OverlongHead(f, ls);
    } else {
      var l :| l in ls && |l| > 1024;
      assert l in ls[1..];
      c := OverlongFails(f, ls[1..]);
      WrapHits(f, [c], ls[0]);
      ReportConcat(f, [c], Wrap(ls[0], 1024), WrapAll(ls[1..], 1024));
      SameFront(Entry(f, [c], ls[0]), Report(f, [c], WrapAll(ls[1..], 1024)), Report(f, [c], ls[1..]));
    }
  }

  lemma SameFront(a: seq<byte>, b: seq<byte>, c: seq<byte>)
    requires b != c
    ensures a + b != a + c
  {
    assert (a + b)[|a|..] == b && (a + c)[|a|..] == c;
  }

  /** The streaming search prints what it should for the given patterns. */
  ghost predicate GrepsFor(f: seq<byte>, text: seq<byte>, pats: iset<seq<byte>>) {
    forall pat: seq<byte> :: pat in pats ==> Hits(f, pat, text) == NaiveGrep(f, pat, text)
  }

  /** The patterns that fit grep's argument buffer. */
  ghost function Patterns(): iset<seq<byte>> {
    iset pat: seq<byte> | 0 < |pat| < BUFSIZE && NUL !in pat
  }

  /** The patterns of a single byte. */
  ghost function OneByte(): iset<seq<byte>> {
    iset pat: seq<byte> | |pat| == 1 && NUL !in pat
  }

  /**
   * The streaming search is grep, for every pattern that can be given to it, exactly when no line is
   * longer than its buffer; and patterns of one byte are enough to tell.
   */
  lemma StreamingIsGrepIff(f: seq<byte>, text: seq<byte>)
    requires NUL !in text
    ensures GrepsFor(f, text, Patterns()) <==> NoLongLine(Lines(text))
    ensures GrepsFor(f, text, OneByte()) <==> NoLongLine(Lines(text))
  {
    var ls := Lines(text);
    if NoLongLine(ls) {
      forall pat: seq<byte> ensures Hits(f, pat, text) == NaiveGrep(f, pat, text) {
        WrapAllHits(f, pat, ls);
      }
    } else {
      LinesClean(text);
      var c := OverlongFails(f, ls);
      assert [c] in Patterns() && [c] in OneByte();
      assert Hits(f, [c], text) != NaiveGrep(f, [c], text);
    }
  }

  // ---- The program --------------------------------------------------------------------

  /** Text that starts with a whole line. */
  lemma HitsLine(f: seq<byte>, pat: seq<byte>, l: seq<byte>, rest: seq<byte>)
    requires NEWLINE !in l && |l| < 1024
    ensures Hits(f, pat, l + [NEWLINE] + rest) == Entry(f, pat, l) + Hits(f, pat, rest)
  {
    var s := l + [NEWLINE] + rest;
    assert s[..|l|] == l && s[|l| + 1..] == rest;
    RowsFrontLine(s, |l|, 1024);
    ReportHead(f, pat, l, Rows(rest, 1024));
  }

  /** Text that starts with a full buffer, or ends with less than one. */
  lemma HitsPiece(f: seq<byte>, pat: seq<byte>, l: seq<byte>, rest: seq<byte>)
    requires NEWLINE !in l && |l| <= 1024 && (|l| == 1024 || rest == [])
    ensures Hits(f, pat, l + rest) == Entry(f, pat, l) + Hits(f, pat, rest)
  {
    var s := l + rest;
    if |l| == 1024 {
      assert s[..1024] == l && s[1024..] == rest;
      RowsFrontFull(s, 1024);
    } else {
      assert s == l;
      EmptyHasNoHits(f, pat);
      RowsSingle(l, 1024);
    }
    ReportHead(f, pat, l, Rows(rest, 1024));
  }

  /** ece391_strncmp: the same comparison as the kernel's, written with a countdown. */
  method UserStrncmp(s1: seq<byte>, s2: seq<byte>, n: nat) returns (r: int)
    requires NUL in s1 && NUL in s2
    ensures r == 0 <==> Cut(s1, n) == Cut(s2, n)
  {
    if n == 0 {
      return 0;
    }
    var i, left := 0, n;
    NotYet(s1, n, 0);
    NotYet(s2, n, 0);
    while s1[i] == s2[i]
      invariant 0 <= i < |s1| && i < |s2| && 0 < left == n - i && SameSoFar(s1, s2, i)
      decreases left
    {
      Decided(s1, s2, n, i);
      left := if s1[i] == NUL then left else left - 1;
      if s1[i] == NUL || left == 0 {
        return 0;
      }
      i := i + 1;
      NotYet(s1, n, i);
      NotYet(s2, n, i);
    }
    Decided(s1, s2, n, i);
    r := s1[i] as int - s2[i] as int;
  }

  /** strncmp over the pattern's length against a terminated line is a match at its start. */
  lemma MatchHere(d: seq<byte>, line: seq<byte>, i: nat, pat: seq<byte>)
    requires i < |line| < i + |d| && line[i..] == d[..|line| - i] && NUL !in line && d[|line| - i] == NUL
    requires NUL !in pat && pat != []
    ensures Cut(d, |pat|) == Cut(pat + [NUL], |pat|) <==> IsAt(line, i, pat)
    ensures IsAt(line, i, pat) ==> pat[0] == d[0]
  {
    var n := |line| - i;
    CStringIs(d, n);
    assert (pat + [NUL])[..|pat|] == pat;
    CutWhole(pat + [NUL], |pat|);
    if |pat| <= n {
      assert d[..n][..|pat|] == line[i..i + |pat|];
    }
  }

  /** The test of the search loop at one position of a terminated line. */
  method TestAt(d: seq<byte>, ghost line: seq<byte>, ghost i: nat, pat: seq<byte>) returns (found: bool)
    requires i < |line| < i + |d| && line[i..] == d[..|line| - i] && NUL !in line && d[|line| - i] == NUL && NUL !in pat
    ensures found <==> pat != [] && IsAt(line, i, pat)
  {
    var s := pat + [NUL];
    assert d[0] == line[i];
    if pat != [] {
      MatchHere(d, line, i, pat);
    }
    if s[0] != d[0] {
      return false;
    }
    assert d[|line| - i] in d && s[|pat|] in s;
    var r := UserStrncmp(d, s, |pat|);
    found := r == 0;
  }

  /** The search loop over the line data[start..end], whose newline has become a terminator. */
  method Search(data: array<byte>, start: nat, end: nat, pat: seq<byte>) returns (found: bool)
    requires start <= end < data.Length && data[end] == NUL && NUL !in data[start..end] && NUL !in pat
    ensures found <==> pat != [] && Contains(data[start..end], pat)
  {
    ghost var line := data[start..end];
    var check := start;
    while check < end
      invariant start <= check <= end
      invariant pat != [] ==> forall i :: 0 <= i < check - start ==> !IsAt(line, i, pat)
    {
      found := TestAt(data[check..], line, check - start, pat);
      if found {
        return;
      }
      check := check + 1;
    }
    found := false;
  }

  /** The scan for the end of a line. */
  method LineEnd(data: array<byte>, start: nat, last: nat) returns (end: nat)
    requires start <= last < data.Length
    ensures start <= end <= last && NEWLINE !in data[start..end] && (end < last ==> data[end] == NEWLINE)
  {
    end := start;
    while end < last && data[end] != NEWLINE
      invariant start <= end <= last && NEWLINE !in data[start..end]
    {
      assert data[start..end + 1] == data[start..end] + [data[end]];
      end := end + 1;
    }
  }

  lemma EndsAt(w: seq<byte>, i: nat, next: byte)
    requires i <= |w| && NUL !in w && (i < |w| ==> next == w[i]) && next == NUL
    ensures i == |w|
  {
  }

  /** strcpy(data, data + start): the partial line, terminated at `last`, moves to the front. */
  method Carry(data: array<byte>, start: nat, last: nat)
    requires 0 < start <= last < data.Length && data[last] == NUL && NUL !in data[start..last]
    modifies data
    ensures data[..last - start] == old(data[start..last])
    ensures data[data.Length - 1] == old(data[data.Length - 1])
  {
    ghost var w := data[start..last];
    var i := 0;
    while data[start + i] != NUL
      invariant i <= |w| && forall j :: 0 <= j < i ==> data[j] == w[j]
      invariant forall j :: i <= j < data.Length ==> data[j] == old(data[j])
      decreases |w| - i
    {
      assert data[start + i] == old(data[start + i]);
      data[i] := data[start + i];
      i := i + 1;
    }
    EndsAt(w, i, data[start + i]);
    data[i] := NUL;
  }

  /** The buffer between reads: free of NULs as far as it is filled, and its spare byte is not a newline. */
  ghost predicate Ready(data: array<byte>, start: nat, last: nat)
    reads data
  {
    data.Length == BUFSIZE + 1 && start <= last <= BUFSIZE && NUL !in data[start..last] && data[BUFSIZE] != NEWLINE
  }

  /** The part of the buffer still to be scanned, followed by what is still to be read. */
  ghost function Ahead(data: array<byte>, start: nat, last: nat, rest: seq<byte>): seq<byte>
    requires last <= data.Length
    reads data
  {
    (if start < last then data[start..last] else []) + rest
  }

  /** `hits` is Hits for one file and one pattern. */
  ghost predicate IsHits(hits: Bytes -> Bytes, fname: seq<byte>, pat: seq<byte>) {
    forall text {:trigger Hits(fname, pat, text)} :: hits(text) == Hits(fname, pat, text)
  }

  /** One turn of the inner loop: carry an incomplete line to the front, or print a complete one. */
  method ScanLine(data: array<byte>, start: nat, last0: nat, cnt: nat, fname: seq<byte>, pat: seq<byte>,
      ghost hits: Bytes -> Bytes, ghost rest: seq<byte>)
    returns (next: nat, last: nat, carried: bool, printed: seq<byte>)
    requires Ready(data, start, last0) && NUL !in pat && IsHits(hits, fname, pat) && (start < last0 || start == 0)
    requires (last0 == BUFSIZE || rest == []) && (cnt == 0 ==> rest == [])
    modifies data
    ensures data.Length == BUFSIZE + 1 && last <= BUFSIZE && data[BUFSIZE] != NEWLINE
    ensures if carried then next == 0 && last < BUFSIZE && cnt != 0 && printed == [] else next > start && last == last0
    ensures next < last ==> Ready(data, next, last)
    ensures old(hits(Ahead(data, start, last0, rest))) == printed + hits(Ahead(data, next, last, rest))
  {
    var end := LineEnd(data, start, last0);
    carried := data[end] != NEWLINE && cnt != 0 && start != 0;
    if carried {
      ghost var text := data[start..last0];
      CarryLine(data, start, last0);
      next, last, printed := 0, last0 - start, [];
      assert data[0..last] == text;
    } else {
      ghost var text := Ahead(data, start, last0, rest);
      assert text == data[start..last0] + rest;
      printed := TakePiece(data, start, end, last0, fname, pat, hits, rest);
      next, last := end + 1, last0;
    }
  }

  /**
   * The inner loop of do_one_file: prints the buffer's complete lines and leaves an incomplete
   * one at its front, so that output and remaining text together stay what they were.
   */
  method ScanBuffer(data: array<byte>, last0: nat, cnt: nat, fname: seq<byte>, pat: seq<byte>,
      ghost hits: Bytes -> Bytes, ghost rest: seq<byte>)
    returns (last: nat, out: seq<byte>)
    requires Ready(data, 0, last0) && NUL !in pat && IsHits(hits, fname, pat)
    requires (last0 == BUFSIZE || rest == []) && (cnt == 0 ==> rest == [])
    modifies data
    ensures last < BUFSIZE && Ready(data, 0, last) && (cnt == 0 ==> last == 0)
    ensures old(hits(Ahead(data, 0, last0, rest))) == out + hits(Ahead(data, 0, last, rest))
  {
    ghost var left := hits(Ahead(data, 0, last0, rest));
    ghost var all := left;
    var start: nat, carried, printed := 0, false, [];
    last, out := last0, [];
    while true
      invariant Ready(data, start, last) && (last == BUFSIZE || rest == []) && (start < last || start == 0)
      invariant left == hits(Ahead(data, start, last, rest)) && out + left == all
      decreases last - start
    {
      start, last, carried, printed := ScanLine(data, start, last, cnt, fname, pat, hits, rest);
      left := hits(Ahead(data, start, last, rest));
      Assoc(out, printed, left);
      out := out + printed;
      if carried {
        return;
      }
      if start >= last {
        last := 0;
        return;
      }
    }
  }

  /** The partial line moves to the front of the buffer. */
  method CarryLine(data: array<byte>, start: nat, last: nat)
    requires Ready(data, start, last) && start != 0
    modifies data
    ensures data[..last - start] == old(data[start..last]) && Ready(data, 0, last - start)
  {
    ghost var text := data[start..last];
    data[last] := NUL;
    assert data[start..last] == text;
    Carry(data, start, last);
    assert data[0..last - start] == text;
  }

  /** Terminate the line or piece data[start..end] and print it if it contains the pattern. */
  method TakePiece(data: array<byte>, start: nat, end: nat, last: nat, fname: seq<byte>, pat: seq<byte>,
      ghost hits: Bytes -> Bytes, ghost rest: seq<byte>)
    returns (printed: seq<byte>)
    requires Ready(data, start, last) && NUL !in pat && IsHits(hits, fname, pat) && start <= end <= last
    requires NEWLINE !in data[start..end] && (end < last ==> data[end] == NEWLINE)
    requires end == last ==> last - start == BUFSIZE || rest == []
    modifies data
    ensures end < last ==> Ready(data, end + 1, last)
    ensures data[BUFSIZE] != NEWLINE && NUL !in data[..0]
    ensures old(hits(data[start..last] + rest)) ==
            printed + hits((if end < last then data[end + 1..last] else []) + rest)
  {
    ghost var was, text := data[..], data[start..last];
    ghost var tail := if end < last then data[end + 1..last] else [];
    assert text[..end - start] == data[start..end];
    assert end < last ==> text[end - start + 1..] == tail;
    NextPiece(hits, fname, pat, text, rest, end - start, tail);
    printed := PrintLine(data, start, end, fname, pat);
    AfterLine(was, data[..], start, end, last);
    assert end < last ==> data[end + 1..last] == tail;
  }

  /** Terminate the line and print it if it contains the pattern. */
  method PrintLine(data: array<byte>, start: nat, end: nat, fname: seq<byte>, pat: seq<byte>) returns (out: seq<byte>)
    requires start <= end < data.Length && NUL !in data[start..end] && NUL !in pat
    modifies data
    ensures out == Entry(fname, pat, old(data[start..end]))
    ensures data[..] == old(data[..])[end := NUL]
  {
    ghost var line := data[start..end];
    data[end] := NUL;
    assert data[start..end] == line;
    var found := Search(data, start, end, pat);
    out := if found then fname + [COLON] + data[start..end] + [NEWLINE] else [];
  }

  /** Terminating a line leaves the text after it as it was. */
  lemma AfterLine(was: seq<byte>, now: seq<byte>, start: nat, end: nat, last: nat)
    requires start <= end < last <= |was| || start <= end == last < |was|
    requires now == was[end := NUL] && NUL !in was[start..last]
    ensures end < last ==> now[end + 1..last] == was[end + 1..last] && NUL !in now[end + 1..last]
  {
    if end < last {
      assert was[end + 1..last] == was[start..last][end - start + 1..];
    }
  }

  /** The piece in front of the text: a whole line, a full buffer, or the end of the file. */
  lemma NextPiece(hits: Bytes -> Bytes, f: seq<byte>, pat: seq<byte>, b: seq<byte>, rest: seq<byte>, n: nat,
      tail: seq<byte>)
    requires IsHits(hits, f, pat)
    requires n <= |b| <= 1024 && NEWLINE !in b[..n] && (n < |b| ==> b[n] == NEWLINE)
    requires n == |b| ==> |b| == 1024 || rest == []
    requires tail == if n < |b| then b[n + 1..] else []
    ensures hits(b + rest) == Entry(f, pat, b[..n]) + hits(tail + rest)
  {
    if n < |b| {
      LineNext(f, pat, b, rest, n, tail);
    } else {
      assert b[..n] == b && [] + rest == rest;
      HitsPiece(f, pat, b, rest);
    }
    assert hits(b + rest) == Hits(f, pat, b + rest);
    assert hits(tail + rest) == Hits(f, pat, tail + rest);
  }

  lemma LineNext(f: seq<byte>, pat: seq<byte>, b: seq<byte>, rest: seq<byte>, n: nat, tail: seq<byte>)
    requires n < |b| <= 1024 && NEWLINE !in b[..n] && b[n] == NEWLINE && tail == b[n + 1..]
    ensures Hits(f, pat, b + rest) == Entry(f, pat, b[..n]) + Hits(f, pat, tail + rest)
  {
    assert b + rest == b[..n] + [NEWLINE] + (tail + rest);
    HitsLine(f, pat, b[..n], tail + rest);
  }

  function OpenFailed(): seq<byte> {
    Ascii("file open failed\n")
  }

  function DirectoryFailed(): seq<byte> {
    Ascii("directory open failed\n")
  }

  /** A descriptor from which text can be searched, and the text still to be read. */
  ghost predicate Reading(p: Process, fd: int, rest: seq<byte>)
    reads p, p.fds
  {
    && p.Valid() && 0 <= fd < FDS && p.fds[fd].inUse && (p.fds[fd].kind.File? || p.fds[fd].kind.Rtc?)
    && rest == p.Unread(fd) && NUL !in rest
  }

  /** One refill of the buffer, from `last` on. */
  method Fill(p: Process, fd: int, data: array<byte>, last: nat, ghost rest0: seq<byte>)
    returns (cnt: nat, ghost rest: seq<byte>)
    requires Reading(p, fd, rest0) && last < BUFSIZE && Ready(data, 0, last)
    modifies p.fds, data
    ensures Reading(p, fd, rest) && OnlyMoved(p.fds[..], old(p.fds[..]), fd)
    ensures last + cnt <= BUFSIZE && Ready(data, 0, last + cnt)
    ensures (last + cnt == BUFSIZE || rest == []) && (cnt == 0 ==> rest == []) && |rest| == |rest0| - cnt
    ensures Ahead(data, 0, last + cnt, rest) == old(Ahead(data, 0, last, rest0))
  {
    ghost var was := data[..];
    cnt := p.ReadSome(fd, data, last, BUFSIZE - last);
    rest := p.Unread(fd);
    Refilled(was, data[..], last, cnt, rest0, rest);
    assert data[0..last + cnt] == data[..][..last + cnt] && was[0..last] == was[..last];
  }

  /** One turn of the outer loop: refill, then print what is complete. */
  method Turn(p: Process, fd: int, fname: seq<byte>, pat: seq<byte>, data: array<byte>, last0: nat,
      ghost hits: Bytes -> Bytes, ghost rest0: seq<byte>)
    returns (cnt: nat, last: nat, printed: seq<byte>, ghost rest: seq<byte>)
    requires Reading(p, fd, rest0) && last0 < BUFSIZE && Ready(data, 0, last0) && NUL !in pat
    requires IsHits(hits, fname, pat)
    modifies p.fds, data
    ensures Reading(p, fd, rest) && OnlyMoved(p.fds[..], old(p.fds[..]), fd)
    ensures last < BUFSIZE && Ready(data, 0, last)
    ensures old(hits(Ahead(data, 0, last0, rest0))) == printed + hits(Ahead(data, 0, last, rest))
    ensures if cnt == 0 then last == 0 && rest == [] else |rest| < |rest0|
  {
    ghost var all := hits(Ahead(data, 0, last0, rest0));
    cnt, rest := Fill(p, fd, data, last0, rest0);
    assert all == hits(Ahead(data, 0, last0 + cnt, rest));
    last, printed := ScanBuffer(data, last0 + cnt, cnt, fname, pat, hits, rest);
    assert all == printed + hits(Ahead(data, 0, last, rest));
  }

  /** The outer loop of do_one_file: every read asks for at least one byte, and the loop ends. */
  method Stream(p: Process, fd: int, fname: seq<byte>, pat: seq<byte>, data: array<byte>) returns (out: seq<byte>)
    requires p.Valid() && 0 <= fd < FDS && p.fds[fd].inUse && Reading(p, fd, p.Unread(fd))
    requires Ready(data, 0, 0) && NUL !in pat
    modifies p.fds, data
    ensures p.Valid() && OnlyMoved(p.fds[..], old(p.fds[..]), fd)
    ensures Ready(data, 0, 0)
    ensures out == Hits(fname, pat, old(p.Unread(fd)))
  {
    ghost var rest := p.Unread(fd);
    ghost var hits := (t: seq<byte>) => Hits(fname, pat, t);
    ghost var left := hits(rest);
    ghost var all := left;
    var last, cnt := 0, 1;
    out := [];
    assert Ahead(data, 0, 0, rest) == rest;
    while cnt != 0
      invariant Reading(p, fd, rest) && OnlyMoved(p.fds[..], old(p.fds[..]), fd)
      invariant 0 <= last < BUFSIZE && 0 <= cnt && Ready(data, 0, last)
      invariant left == hits(Ahead(data, 0, last, rest)) && out + left == all
      invariant cnt == 0 ==> last == 0 && rest == []
      decreases |rest|, cnt
    {
      var printed;
      cnt, last, printed, rest := Turn(p, fd, fname, pat, data, last, hits, rest);
      left := hits(Ahead(data, 0, last, rest));
      Assoc(out, printed, left);
      out := out + printed;
    }
    EmptyHasNoHits(fname, pat);
    assert Ahead(data, 0, 0, []) == [];
  }

  /** A refill moves bytes from the unread part of the file to the end of the buffer. */
  lemma Refilled(was: seq<byte>, now: seq<byte>, last: nat, cnt: nat, unread: seq<byte>, rest: seq<byte>)
    requires last + cnt <= |now| == |was| && NUL !in was[0..last] && NUL !in unread
    requires Filled(now, was, last, now[last..last + cnt])
    requires cnt > 0 ==> unread == now[last..last + cnt] + rest
    requires cnt == 0 ==> unread == rest
    ensures now[..last + cnt] + rest == was[..last] + unread
    ensures NUL !in now[0..last + cnt] && NUL !in rest
  {
    assert now[..last + cnt] == was[..last] + now[last..last + cnt];
    assert now[0..last + cnt] == was[0..last] + now[last..last + cnt];
  }

  /** do_one_file, once its name is known to be that of a regular file or a device without text. */
  method DoOneFile(p: Process, pat: seq<byte>, fname: seq<byte>, data: array<byte>) returns (r: int, out: seq<byte>)
    requires p.Valid() && NUL !in fname && NUL !in pat && Ready(data, 0, 0)
    requires var d := Lookup(p.img, fname + [NUL]);
             d.Some? ==> Searchable(p.img, d.value)
    modifies p.fds, data
    ensures p.Valid() && data[BUFSIZE] != NEWLINE
    ensures var d, k := Lookup(p.img, fname + [NUL]), FirstFree(old(p.fds[..]));
            if d == None || k == FDS then r == -1 && out == OpenFailed() && p.fds[..] == old(p.fds[..])
            else r == 0 && out == Hits(fname, pat, TextOf(p.img, d.value)) &&
                 p.fds[..] == old(p.fds[..])[k := Fd(KindOf(d.value.ftype), 0, 0, false)]
  {
    var fd := p.Open(fname + [NUL]);
    if fd == -1 {
      return -1, OpenFailed();
    }
    out := Stream(p, fd, fname, pat, data);
    r := p.Close(fd);
  }

  ghost predicate Searchable(img: Image, d: Dentry)
    requires img.Valid()
  {
    !d.ftype.DirectoryFile? && (d.ftype.RegularFile? ==> img.Sound(d.inode)) && NUL !in TextOf(img, d)
  }

  // ---- Over the whole directory -------------------------------------------------------

  /** What grep prints from entry `k` on: names that start with a dot are skipped. */
  ghost function GrepFrom(img: Image, pat: seq<byte>, k: nat): seq<byte>
    requires GrepReady(img)
    decreases |img.dentries| - k
  {
    if k >= |img.dentries| then []
    else
      var name := NameOf(img.dentries[k]);
      (if name[0] == DOT then [] else Hits(name, pat, TextOf(img, img.dentries[k]))) + GrepFrom(img, pat, k + 1)
  }

  /** Distinct, non-empty names; every entry that is not skipped can be searched. */
  ghost predicate GrepReady(img: Image) {
    && img.Valid() && DistinctNames(img.dentries)
    && (forall d :: d in img.dentries ==>
          NameOf(d) != [] && (NameOf(d)[0] != DOT ==> Searchable(img, d)))
  }

  /** What grep prints from entry `k` on when every file is split into lines whole. */
  ghost function NaiveGrepFrom(img: Image, pat: seq<byte>, k: nat): seq<byte>
    requires GrepReady(img)
    decreases |img.dentries| - k
  {
    if k >= |img.dentries| then []
    else
      var name := NameOf(img.dentries[k]);
      var own := if name[0] == DOT then [] else NaiveGrep(name, pat, TextOf(img, img.dentries[k]));
      own + NaiveGrepFrom(img, pat, k + 1)
  }

  /** No searched file has a line longer than the buffer. */
  ghost predicate NoLongLines(img: Image)
    requires GrepReady(img)
  {
    forall d :: d in img.dentries && NameOf(d)[0] != DOT ==> NoLongLine(Lines(TextOf(img, d)))
  }

  /** Over a directory without overlong lines, the streaming program prints what the naive one would. */
  lemma {:induction false} DirectoryGrep(img: Image, pat: seq<byte>, k: nat)
    requires GrepReady(img) && NoLongLines(img)
    ensures GrepFrom(img, pat, k) == NaiveGrepFrom(img, pat, k)
    decreases |img.dentries| - k
  {
    if k < |img.dentries| {
      DirectoryGrep(img, pat, k + 1);
      EntryGrep(img, pat, k);
    }
  }

  lemma EntryGrep(img: Image, pat: seq<byte>, k: nat)
    requires GrepReady(img) && NoLongLines(img) && k < |img.dentries|
    ensures var d := img.dentries[k];
            NameOf(d) != [] && (
              NameOf(d)[0] != DOT ==>
                Searchable(img, d) && Hits(NameOf(d), pat, TextOf(img, d)) == NaiveGrep(NameOf(d), pat, TextOf(img, d)))
  {
    var d := img.dentries[k];
    assert d in img.dentries;
    if NameOf(d)[0] != DOT {
      WrapAllHits(NameOf(d), pat, Lines(TextOf(img, d)));
    }
  }

  /** One turn of main's loop: the entry of a name just read from the directory. */
  method SearchEntry(p: Process, pat: seq<byte>, buf: array<byte>, cnt: nat, data: array<byte>, ghost k: nat)
    returns (r: int, out: seq<byte>)
    requires p.Valid() && GrepReady(p.img) && k < |p.img.dentries| && NUL !in pat && Ready(data, 0, 0)
    requires 0 < cnt < buf.Length && buf[..cnt] == NameOf(p.img.dentries[k]) && FirstFree(p.fds[..]) == 3
    modifies p.fds, data, buf
    ensures p.Valid() && Ready(data, 0, 0)
    ensures p.fds[2] == old(p.fds[2]) && !p.fds[3].inUse
    ensures r == 0 && GrepFrom(p.img, pat, k) == out + GrepFrom(p.img, pat, k + 1)
  {
    ghost var d := p.img.dentries[k];
    if buf[0] == DOT {
      return 0, [];
    }
    buf[cnt] := NUL;
    ListedNameOpensEntry(p.img, k, []);
    assert NameOf(d) + [NUL] + [] == NameOf(d) + [NUL];
    assert buf[..cnt] == NameOf(d) && d in p.img.dentries;
    r, out := DoOneFile(p, pat, buf[..cnt], data);
  }

  /** The read of main's loop: the next name, or 0 when the directory is done. */
  method NextName(p: Process, fd: int, buf: array<byte>) returns (cnt: nat)
    requires p.Valid() && p.IsOpen(fd, Directory) && GrepReady(p.img) && buf.Length == SBUFSIZE
    modifies p.fds, buf
    ensures p.Valid() && OnlyMoved(p.fds[..], old(p.fds[..]), fd) && cnt <= NAME_MAX
    ensures cnt == 0 <==> old(p.fds[fd].pos) >= |p.img.dentries|
    ensures cnt > 0 ==>
              p.fds[fd].pos == old(p.fds[fd].pos) + 1 && buf[..cnt] == NameOf(p.img.dentries[old(p.fds[fd].pos)])
  {
    ghost var was, k := buf[..], p.fds[fd].pos;
    var n := p.Read(fd, buf, 0, SBUFSIZE - 1);
    if k < |p.img.dentries| {
      assert p.img.dentries[k] in p.img.dentries;
      var name := NameOf(p.img.dentries[k]);
      assert name[..n] == name;
      Slices(buf[..], was, 0, name, n);
    }
    cnt := n;
  }

  lemma {:induction false} FirstFreeIs(fds: seq<Fd>, k: nat)
    requires k < |fds| && !fds[k].inUse && forall j :: 0 <= j < k ==> fds[j].inUse
    ensures FirstFree(fds) == k
  {
    if k > 0 {
      FirstFreeIs(fds[1..], k - 1);
    }
  }

  /** Between turns of main's loop: the directory is open, and `buf` holds the name of entry `k` until it is done. */
  ghost predicate AtEntry(p: Process, buf: array<byte>, cnt: nat, k: nat)
    reads p, p.fds, buf
  {
    && p.Valid() && p.IsOpen(2, Directory) && !p.fds[3].inUse && buf.Length == SBUFSIZE && cnt <= NAME_MAX
    && if cnt == 0 then k == |p.img.dentries| else
         k < |p.img.dentries| && p.fds[2].pos == k + 1 && buf[..cnt] == NameOf(p.img.dentries[k])
  }

  /** The read of main's loop, for entry `k`. */
  method Arrive(p: Process, buf: array<byte>, ghost k: nat) returns (cnt: nat)
    requires p.Valid() && p.IsOpen(2, Directory) && GrepReady(p.img) && buf.Length == SBUFSIZE && !p.fds[3].inUse
    requires p.fds[2].pos == k <= |p.img.dentries|
    modifies p.fds, buf
    ensures AtEntry(p, buf, cnt, k)
  {
    cnt := NextName(p, 2, buf);
  }

  /** One turn of main's loop. */
  method NextTurn(p: Process, pat: seq<byte>, buf: array<byte>, cnt0: nat, data: array<byte>, ghost k: nat)
    returns (cnt: nat, out: seq<byte>)
    requires AtEntry(p, buf, cnt0, k) && cnt0 > 0 && GrepReady(p.img) && NUL !in pat && Ready(data, 0, 0)
    modifies p.fds, data, buf
    ensures AtEntry(p, buf, cnt, k + 1) && Ready(data, 0, 0)
    ensures GrepFrom(p.img, pat, k) == out + GrepFrom(p.img, pat, k + 1)
  {
    FirstFreeIs(p.fds[..], 3);
    var r;
    r, out := SearchEntry(p, pat, buf, cnt0, data, k);
    cnt := Arrive(p, buf, k + 1);
  }

  /** main's loop over the directory, already open as descriptor 2. */
  method SearchAll(p: Process, pat: seq<byte>, data: array<byte>) returns (out: seq<byte>)
    requires p.Valid() && GrepReady(p.img) && NUL !in pat && Ready(data, 0, 0)
    requires p.IsOpen(2, Directory) && p.fds[2].pos == 0 && !p.fds[3].inUse
    modifies p.fds, data
    ensures p.Valid() && out == GrepFrom(p.img, pat, 0)
  {
    var buf := new byte[SBUFSIZE];
    ghost var k, all, left := 0, GrepFrom(p.img, pat, 0), GrepFrom(p.img, pat, 0);
    out := [];
    var cnt := Arrive(p, buf, 0);
    while cnt != 0
      invariant 0 <= cnt && AtEntry(p, buf, cnt, k) && Ready(data, 0, 0)
      invariant left == GrepFrom(p.img, pat, k) && out + left == all
      decreases |p.img.dentries| - k
    {
      var printed;
      cnt, printed := NextTurn(p, pat, buf, cnt, data, k);
      k := k + 1;
      left := GrepFrom(p.img, pat, k);
      Assoc(out, printed, left);
      out := out + printed;
    }
  }

  /**
   * grep prints, for every entry of the directory in order, exactly what the streaming search
   * of its file yields, and succeeds; a message and 2 if the directory cannot be opened. Without overlong
   * lines that is the naive search.
   */
  method Grep(p: Process, pat: seq<byte>, data: array<byte>) returns (code: int, out: seq<byte>)
    requires p.Valid() && GrepReady(p.img) && NUL !in pat && Ready(data, 0, 0)
    requires forall i :: 2 <= i < FDS ==> !p.fds[i].inUse
    requires var d := Lookup(p.img, [DOT, NUL]);
             d.Some? ==> d.value.ftype.DirectoryFile?
    modifies p.fds, data
    ensures p.Valid()
    ensures Lookup(p.img, [DOT, NUL]) == None ==> code == 2 && out == DirectoryFailed()
    ensures Lookup(p.img, [DOT, NUL]).Some? ==> code == 0 && out == GrepFrom(p.img, pat, 0)
    ensures code == 0 && NoLongLines(p.img) ==> out == NaiveGrepFrom(p.img, pat, 0)
  {
    FirstFreeIs(p.fds[..], 2);
    var fd := p.Open([DOT, NUL]);
    if fd == -1 {
      return 2, DirectoryFailed();
    }
    out := SearchAll(p, pat, data);
    if NoLongLines(p.img) {
      DirectoryGrep(p.img, pat, 0);
    }
    code := 0;
  }
}
