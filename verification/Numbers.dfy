/** Printing numbers: itoa, strrev and the integer conversions of printf. */
module Numbers {
  import opened Text

  const MINUS: byte := 45
  const ZERO: byte := 48

  type uint32 = x: int | 0 <= x < 0x1_0000_0000
  type int32 = x: int | -0x8000_0000 <= x < 0x8000_0000

  // ---- Numerals -----------------------------------------------------------------------

  /** itoa's table of digits at `d`. */
  function DigitChar(d: nat): (c: byte)
    requires d < 36
    ensures IsDigit(c) && DigitOf(c) == d
  {
    if d < 10 then 48 + d else 55 + d
  }

  /** The digits are those of itoa's table. */
  lemma DigitTable(d: nat)
    requires d < 36
    ensures DigitChar(d) == "0123456789ABCDEFGHIJKLMNOPQRSTUVWXYZ"[d] as int && MINUS == '-' as int
  {
  }

  function DigitOf(c: byte): int {
    if c < 58 then c - 48 else c - 55
  }

  predicate IsDigit(c: byte) {
    48 <= c < 58 || 65 <= c < 91
  }

  /** The value of a numeral, most significant digit first. */
  function Parse(s: seq<byte>, radix: nat): int {
    if s == [] then 0 else Parse(s[..|s| - 1], radix) * radix + DigitOf(s[|s| - 1])
  }

  function ParseSigned(s: seq<byte>): int {
    if s != [] && s[0] == MINUS then -Parse(s[1..], 10) else Parse(s, 10)
  }

  /** A digit of the given radix in every place. */
  predicate IsNumeral(s: seq<byte>, radix: nat) {
    s != [] && forall i :: 0 <= i < |s| ==> IsDigit(s[i]) && DigitOf(s[i]) < radix
  }

  /** The numeral of `v`. */
  function Numeral(v: nat, radix: nat): (s: seq<byte>)
    requires 2 <= radix <= 36
  {
    if v < radix then [DigitChar(v)] else
    Smaller(v, radix);
    Numeral(v / radix, radix) + [DigitChar(v % radix)]
  }

  lemma Smaller(v: nat, radix: nat)
    requires 2 <= radix <= v
    ensures 0 < v / radix < v
  {
  }

  lemma ParsePush(s: seq<byte>, c: byte, radix: nat)
    ensures Parse(s + [c], radix) == Parse(s, radix) * radix + DigitOf(c)
  {
    assert (s + [c])[..|s|] == s;
  }

  lemma ParseOne(c: byte, radix: nat)
    ensures Parse([c], radix) == DigitOf(c)
  {
    assert [] + [c] == [c];
    ParsePush([], c, radix);
  }

  lemma {:induction false} NumeralDigits(v: nat, radix: nat)
    requires 2 <= radix <= 36
    ensures IsNumeral(Numeral(v, radix), radix)
    ensures Numeral(v, radix)[0] == ZERO ==> v == 0
  {
    if v >= radix {
      Smaller(v, radix);
      NumeralDigits(v / radix, radix);
      var s, c := Numeral(v / radix, radix), DigitChar(v % radix);
      assert (s + [c])[0] == s[0];
    }
  }

  lemma Recompose(v: nat, radix: nat)
    requires radix > 0
    ensures v / radix * radix + v % radix == v
  {
  }

  lemma {:induction false} NumeralValue(v: nat, radix: nat)
    requires 2 <= radix <= 36
    ensures Parse(Numeral(v, radix), radix) == v
  {
    if v < radix {
      ParseOne(DigitChar(v), radix);
    } else {
      Smaller(v, radix);
      NumeralValue(v / radix, radix);
      var s := Numeral(v / radix, radix);
      ParsePush(s, DigitChar(v % radix), radix);
      Recompose(v, radix);
    }
  }

  /** Parsing a numeral gives the number back, in digits of its radix and with no leading zero. */
  lemma NumeralRoundTrip(v: nat, radix: nat)
    requires 2 <= radix <= 36
    ensures Parse(Numeral(v, radix), radix) == v
    ensures IsNumeral(Numeral(v, radix), radix)
    ensures Numeral(v, radix)[0] == ZERO ==> v == 0
  {
    NumeralValue(v, radix);
    NumeralDigits(v, radix);
  }

  function Power(b: nat, n: nat): nat {
    if n == 0 then 1 else b * Power(b, n - 1)
  }

  lemma QuotientBelow(v: nat, radix: nat, p: nat)
    requires radix > 0 && v < radix * p
    ensures v / radix < p
  {
    Recompose(v, radix);
    if v / radix >= p {
      ProductGrows(p, v / radix, radix, radix);
    }
  }

  /** A number below radix^n has at most n digits. */
  lemma {:induction false} NumeralLength(v: nat, radix: nat, n: nat)
    requires 2 <= radix <= 36 && n > 0 && v < Power(radix, n)
    ensures 0 < |Numeral(v, radix)| <= n
  {
    if n == 1 {
      assert Power(radix, 0) == 1;
      assert v < radix;
    } else if v >= radix {
      Smaller(v, radix);
      QuotientBelow(v, radix, Power(radix, n - 1));
      NumeralLength(v / radix, radix, n - 1);
    }
  }

  /** No 32-bit number takes more than 32 digits, 10 in decimal and 8 in hexadecimal. */
  lemma NumeralFits(v: uint32, radix: nat)
    requires 2 <= radix <= 36
    ensures 0 < |Numeral(v, 10)| <= 10 && 0 < |Numeral(v, 16)| <= 8 && 0 < |Numeral(v, radix)| <= 32
  {
    assert Power(10, 5) == 100000;
    assert Power(10, 10) == 10000000000;
    assert Power(16, 4) == 65536;
    assert Power(16, 8) == 0x1_0000_0000;
    assert Power(2, 8) == 256;
    assert Power(2, 16) == 65536;
    assert Power(2, 24) == 16777216;
    assert Power(2, 32) == 0x1_0000_0000;
    PowerGrows(2, radix, 32);
    NumeralLength(v, 10, 10);
    NumeralLength(v, 16, 8);
    NumeralLength(v, radix, 32);
  }

  lemma {:induction false} PowerGrows(a: nat, b: nat, n: nat)
    requires a <= b
    ensures Power(a, n) <= Power(b, n)
  {
    if n > 0 {
      PowerGrows(a, b, n - 1);
      ProductGrows(a, b, Power(a, n - 1), Power(b, n - 1));
    }
  }

  lemma ProductGrows(a: nat, b: nat, x: nat, y: nat)
    requires a <= b && x <= y
    ensures a * x <= b * y
  {
    assert a * x <= a * y;
    assert a * y <= b * y;
  }

  // ---- The loops ----------------------------------------------------------------------

  method Strlen(s: array<byte>, at: nat, ghost n: nat) returns (k: int)
    requires at + n < s.Length && s[at + n] == NUL && forall i :: at <= i < at + n ==> s[i] != NUL
    ensures k == n
  {
    k := 0;
    while s[at + k] != NUL
      invariant 0 <= k <= n
      decreases n - k
    {
      k := k + 1;
    }
  }

  /** strrev mirrors the C string of `n` bytes at `at` in place. */
  method Strrev(s: array<byte>, at: nat, ghost n: nat)
    requires at + n < s.Length && s[at + n] == NUL && forall i :: at <= i < at + n ==> s[i] != NUL
    modifies s
    ensures forall i :: 0 <= i < s.Length ==>
      s[i] == if at <= i < at + n then old(s[at + at + n - 1 - i]) else old(s[i])
  {
    var len := Strlen(s, at, n);
    var beg, end := 0, len - 1;
    while beg < end
      invariant 0 <= beg && beg + end == n - 1 && end >= -1 && beg <= end + 2
      invariant forall i :: 0 <= i < s.Length && !(at <= i < at + beg) && !(at + end < i < at + n) ==> s[i] == old(s[i])
      invariant forall i :: at <= i < at + beg || at + end < i < at + n ==> s[i] == old(s[at + at + n - 1 - i])
    {
      s[at + end], s[at + beg] := s[at + beg], s[at + end];
      beg, end := beg + 1, end - 1;
    }
  }

  /** itoa's loop: the digits of `value` at `at`, least significant first. */
  method PutDigits(value: uint32, buf: array<byte>, at: nat, radix: nat, ghost all: seq<byte>) returns (len: nat)
    requires 2 <= radix <= 36 && value > 0 && all == Numeral(value, radix) && at + |all| < buf.Length
    modifies buf
    ensures len == |all|
    ensures forall i :: 0 <= i < buf.Length && !(at <= i < at + len) ==> buf[i] == old(buf[i])
    ensures forall i :: at <= i < at + len ==> buf[i] == all[at + len - 1 - i]
  {
    len := 0;
    var newval: nat := value;
    while newval > 0
      invariant len <= |all|
      invariant if newval > 0 then Numeral(newval, radix) == all[..|all| - len] else len == |all|
      invariant forall i :: 0 <= i < buf.Length && !(at <= i < at + len) ==> buf[i] == old(buf[i])
      invariant forall i :: at <= i < at + len ==> buf[i] == all[at + |all| - 1 - i]
      decreases newval
    {
      LastDigit(newval, radix, all, |all| - len);
      buf[at + len] := DigitChar(newval % radix);
      newval := newval / radix;
      len := len + 1;
    }
  }

  /** The last of the `k` leading digits of `all`, and the ones before it. */
  lemma LastDigit(v: nat, radix: nat, all: seq<byte>, k: nat)
    requires 2 <= radix <= 36 && v > 0 && k <= |all| && Numeral(v, radix) == all[..k]
    ensures k > 0 && all[k - 1] == DigitChar(v % radix)
    ensures if v / radix > 0 then Numeral(v / radix, radix) == all[..k - 1] else k == 1
    ensures v / radix < v
  {
    var s := Numeral(v, radix);
    assert s == all[..k];
    if v < radix {
      assert v % radix == v && v / radix == 0;
      assert s == [DigitChar(v)];
    } else {
      Smaller(v, radix);
      var front := Numeral(v / radix, radix);
      assert s == front + [DigitChar(v % radix)];
      assert s[..k - 1] == front;
      assert all[..k - 1] == s[..k - 1];
    }
    assert all[k - 1] == s[k - 1];
  }

  /** itoa leaves the numeral of `value` and a terminator at `at`, and touches nothing else. */
  method Itoa(value: uint32, buf: array<byte>, at: nat, radix: nat, ghost all: seq<byte>)
    requires 2 <= radix <= 36 && all == Numeral(value, radix) && at + |all| < buf.Length
    modifies buf
    ensures forall i :: at <= i < at + |all| ==> buf[i] == all[i - at]
    ensures buf[at + |all|] == NUL
    ensures forall i :: 0 <= i < buf.Length && !(at <= i <= at + |all|) ==> buf[i] == old(buf[i])
  {
    if value == 0 {
      buf[at] := ZERO;
      buf[at + 1] := NUL;
      return;
    }
    var len := PutDigits(value, buf, at, radix, all);
    NumeralRoundTrip(value, radix);
    buf[at + len] := NUL;
    Strrev(buf, at, |all|);
  }

  /** ece391_strrev: returns at once for strings of at most one byte, and mirrors the others. */
  method UserStrrev(s: array<byte>, at: nat, ghost n: nat)
    requires at + n < s.Length && s[at + n] == NUL && forall i :: at <= i < at + n ==> s[i] != NUL
    modifies s
    ensures forall i :: 0 <= i < s.Length ==>
      s[i] == if at <= i < at + n then old(s[at + at + n - 1 - i]) else old(s[i])
  {
    var len := Strlen(s, at, n);
    if len - 1 <= 0 {
      return;
    }
    Strrev(s, at, n);
  }

  /** ece391_itoa leaves what the kernel's itoa leaves. */
  method UserItoa(value: uint32, buf: array<byte>, at: nat, radix: nat, ghost all: seq<byte>)
    requires 2 <= radix <= 36 && all == Numeral(value, radix) && at + |all| < buf.Length
    modifies buf
    ensures forall i :: at <= i < at + |all| ==> buf[i] == all[i - at]
    ensures buf[at + |all|] == NUL
    ensures forall i :: 0 <= i < buf.Length && !(at <= i <= at + |all|) ==> buf[i] == old(buf[i])
  {
    if value == 0 {
      buf[at], buf[at + 1] := ZERO, NUL;
      return;
    }
    var len := PutDigits(value, buf, at, radix, all);
    NumeralRoundTrip(value, radix);
    buf[at + len] := NUL;
    UserStrrev(buf, at, |all|);
  }

  /** puts: the bytes from `at` up to the terminator. */
  method Puts(s: array<byte>, at: nat, ghost text: seq<byte>) returns (out: seq<byte>)
    requires at + |text| < s.Length && s[at + |text|] == NUL && NUL !in text
    requires forall i :: at <= i < at + |text| ==> s[i] == text[i - at]
    ensures out == text
  {
    assert forall i :: 0 <= i < |text| ==> text[i] != NUL;
    var k := 0;
    out := [];
    while s[at + k] != NUL
      invariant 0 <= k <= |text| && out == text[..k]
      decreases |text| - k
    {
      assert text[..k + 1] == text[..k] + [text[k]];
      out := out + [s[at + k]];
      k := k + 1;
    }
    assert text[..|text|] == text;
  }

  // ---- printf -------------------------------------------------------------------------

  /** Zeros from `start` up to the eighth byte; nothing else changes. */
  method PadZeros(buf: array<byte>, start: nat)
    requires start <= 8 < buf.Length
    modifies buf
    ensures forall j :: 0 <= j < buf.Length ==> buf[j] == if start <= j < 8 then ZERO else old(buf[j])
  {
    var i := start;
    while i < 8
      invariant start <= i <= 8
      invariant forall j :: 0 <= j < buf.Length ==> buf[j] == if start <= j < i then ZERO else old(buf[j])
    {
      buf[i] := ZERO;
      i := i + 1;
    }
  }

  function Zeros(n: nat): (z: seq<byte>)
    ensures |z| == n && forall i :: 0 <= i < n ==> z[i] == ZERO
  {
    seq(n, i => 48)
  }

  /** Leading zeros do not change the value of a numeral. */
  lemma {:induction false} PaddedParse(n: nat, s: seq<byte>, radix: nat)
    ensures Parse(Zeros(n) + s, radix) == Parse(s, radix)
  {
    if s != [] {
      assert (Zeros(n) + s)[..n + |s| - 1] == Zeros(n) + s[..|s| - 1];
      PaddedParse(n, s[..|s| - 1], radix);
    } else {
      assert Zeros(n) + s == Zeros(n);
      if n > 0 {
        assert Zeros(n)[..n - 1] == Zeros(n - 1) + [];
        PaddedParse(n - 1, [], radix);
      }
    }
  }

  lemma PaddedHex(value: uint32, all: seq<byte>) returns (text: seq<byte>)
    requires all == Numeral(value, 16)
    ensures 0 < |all| <= 8 && IsNumeral(all, 16) && Parse(text, 16) == value
    ensures |text| == 8 && IsNumeral(text, 16) && NUL !in text
    ensures forall i :: 0 <= i < 8 ==> text[i] == if i < 8 - |all| then ZERO else all[i - (8 - |all|)]
  {
    NumeralFits(value, 16);
    NumeralRoundTrip(value, 16);
    PaddedParse(8 - |all|, all, 16);
    text := Zeros(8 - |all|) + all;
  }

  /** `%#x`: exactly eight digits, denoting the value. */
  method PrintHex8(value: uint32) returns (out: seq<byte>)
    ensures |out| == 8 && IsNumeral(out, 16) && Parse(out, 16) == value
  {
    var buf := new byte[64];
    ghost var all := Numeral(value, 16);
    ghost var text := PaddedHex(value, all);
    Itoa(value, buf, 8, 16, all);
    var start := Strlen(buf, 8, |all|);
    PadZeros(buf, start);
    out := Puts(buf, start, text);
  }

  /** `%x` and `%u`: the numeral of the value. */
  method PrintUnsigned(value: uint32, radix: nat) returns (out: seq<byte>)
    requires radix == 10 || radix == 16
    ensures out == Numeral(value, radix) && Parse(out, radix) == value
  {
    var buf := new byte[36];
    ghost var all := Numeral(value, radix);
    NumeralRoundTrip(value, radix);
    NumeralFits(value, radix);
    Itoa(value, buf, 0, radix, all);
    out := Puts(buf, 0, all);
  }

  /** The unary minus of the target: it wraps on the smallest integer. */
  function Negated(v: int32): int32 {
    if v == -0x8000_0000 then v else -v
  }

  function Unsigned(v: int32): uint32 {
    if v < 0 then v + 0x1_0000_0000 else v
  }

  function Magnitude(v: int): nat {
    if v < 0 then -v else v
  }

  /** `%d`: every 32-bit integer reads back, the smallest included, and has no leading zero. */
  method PrintSigned(value: int32) returns (out: seq<byte>)
    ensures ParseSigned(out) == value
    ensures out == if value < 0 then [MINUS] + Numeral(Magnitude(value), 10) else Numeral(Magnitude(value), 10)
  {
    var buf := new byte[36];
    if value < 0 {
      var magnitude := Unsigned(Negated(value));
      ghost var all := Numeral(magnitude, 10);
      NumeralRoundTrip(magnitude, 10);
      NumeralFits(magnitude, 10);
      buf[0] := MINUS;
      Itoa(magnitude, buf, 1, 10, all);
      ghost var text := [MINUS] + all;
      assert text[1..] == all;
      out := Puts(buf, 0, text);
    } else {
      ghost var all := Numeral(value, 10);
      NumeralRoundTrip(value, 10);
      NumeralFits(value, 10);
      Itoa(value, buf, 0, 10, all);
      out := Puts(buf, 0, all);
    }
  }
}
