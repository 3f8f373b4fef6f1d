/** Decimal forms of 64-bit integers (util.c): the printer ll2string, the library parser strtoll as
    the code relies on it, and the back-and-forth test that decides whether a byte string may be
    stored as an integer. */
module Decimal {
  import opened Bytes
  import opened Options

  const LLONG_MAX := 0x7fff_ffff_ffff_ffff
  const LLONG_MIN := -0x8000_0000_0000_0000
  const MINUS: byte := 45
  const PLUS: byte := 43
  const ZERO: byte := 48

  predicate IsLongLong(v: int) {
    LLONG_MIN <= v <= LLONG_MAX
  }

  predicate IsDigit(c: byte) {
    48 <= c <= 57
  }

  predicate IsSpace(c: byte) {
    c == 32 || 9 <= c <= 13
  }

  // ----- printing

  /** The decimal digits of v, most significant first. */
  function Digits(v: nat): (s: seq<byte>)
    ensures |s| >= 1
    ensures forall k :: 0 <= k < |s| ==> IsDigit(s[k])
  {
    if v < 10 then [ZERO + v] else Digits(v / 10) + [ZERO + v % 10]
  }

  /** The canonical decimal form of v. */
  function Print(v: int): seq<byte> {
    if v < 0 then [MINUS] + Digits(-v) else Digits(v)
  }

  function Pow10(k: nat): (r: int)
    ensures r >= 1
  {
    if k == 0 then 1 else 10 * Pow10(k - 1)
  }

  lemma {:induction false} DigitsBound(v: nat, k: nat)
    requires 1 <= k && v < Pow10(k)
    ensures |Digits(v)| <= k
  {
    if v >= 10 {
      assert k > 1 by { assert Pow10(1) == 10 * Pow10(0); }
      DigitsBound(v / 10, k - 1);
    }
  }

  lemma LongLongDigits(v: int)
    requires IsLongLong(v)
    ensures |Digits(if v < 0 then -v else v)| <= 19
  {
    assert Pow10(4) == 10000 by { assert Pow10(2) == 100; }
    assert Pow10(8) == 1_0000_0000 by { assert Pow10(6) == 1000000; }
    assert Pow10(12) == 1_0000_0000_0000 by { assert Pow10(10) == 1_00_0000_0000; }
    assert Pow10(16) == 1_0000_0000_0000_0000 by { assert Pow10(14) == 100_0000_0000_0000; }
    assert Pow10(19) == 1000_0000_0000_0000_0000 by { assert Pow10(18) == 100_0000_0000_0000_0000; }
    DigitsBound(if v < 0 then -v else v, 19);
  }

  /** The last digit of v moves to the digits behind it. */
  lemma {:induction false} LastDigit(v: nat, tail: seq<byte>)
    requires v != 0
    ensures Digits(v) + tail == (if v / 10 == 0 then [] else Digits(v / 10)) + ([ZERO + v % 10] + tail)
  {
    assert Digits(v) == (if v / 10 == 0 then [] else Digits(v / 10)) + [ZERO + v % 10];
  }

  /** The digit loop of ll2string: fills the scratch buffer backwards and returns the index before
      the first digit written. */
  method DigitsBackward(buf: array<byte>, v0: nat) returns (p: nat)
    requires buf.Length == 32 && |Digits(v0)| <= 19
    modifies buf
    ensures 12 <= p <= 31 && buf[p + 1..] == Digits(v0)
  {
    hide IsDigit;
    var v := v0;
    buf[31] := ZERO + v % 10;
    p := 30;
    v := v / 10;
    while v != 0
      invariant 0 <= p <= 30
      invariant Digits(v0) == (if v == 0 then [] else Digits(v)) + buf[p + 1..]
    {
      ghost var tail := buf[p + 1..];
      buf[p] := ZERO + v % 10;
      assert buf[p..] == [ZERO + v % 10] + tail;
      LastDigit(v, tail);
      p := p - 1;
      v := v / 10;
    }
  }

  /** The decimal form of a value at the end of a 32-byte buffer. */
  method PrintBackward(buf: array<byte>, value: int) returns (p: nat)
    requires IsLongLong(value) && buf.Length == 32
    modifies buf
    ensures p <= 32 && buf[p..] == Print(value)
  {
    LongLongDigits(value);
    var q := DigitsBackward(buf, if value < 0 then -value else value);
    if value < 0 {
      buf[q] := MINUS;
      q := q - 1;
    }
    p := q + 1;
  }

  lemma PrintShort(v: int)
    requires IsLongLong(v)
    ensures |Print(v)| <= 20
  {
    LongLongDigits(v);
  }

  /** ll2string(s, len, value): the bytes written before the terminating NUL. */
  method LongLongToString(len: nat, value: int) returns (s: seq<byte>)
    requires IsLongLong(value)
    ensures s == if len == 0 then [] else if |Print(value)| < len then Print(value) else Print(value)[..len - 1]
    ensures len > 20 ==> s == Print(value)
  {
    hide Print;
    if len == 0 { return []; }
    var buf := new byte[32];
    var p := PrintBackward(buf, value);
    var l := 32 - p;
    if l + 1 > len { l := len - 1; }
    PrintShort(value);
    s := buf[p..p + l];
    assert s == buf[p..][..l];
  }

  // ----- parsing

  /** The number read from a run of digits. */
  function DigitsValue(s: seq<byte>): (v: nat)
    requires forall k :: 0 <= k < |s| ==> IsDigit(s[k])
  {
    if s == [] then 0 else assert IsDigit(s[|s| - 1]); 10 * DigitsValue(s[..|s| - 1]) + (s[|s| - 1] - ZERO)
  }

  /** Length of the leading run of bytes that satisfy the test. */
  function SpaceRun(s: seq<byte>): (n: nat)
    ensures n <= |s|
  {
    if s == [] || !IsSpace(s[0]) then 0 else 1 + SpaceRun(s[1..])
  }

  function DigitRun(s: seq<byte>): (n: nat)
    ensures n <= |s|
    ensures forall k :: 0 <= k < n ==> IsDigit(s[k])
    ensures n == |s| || !IsDigit(s[n])
  {
    if s == [] || !IsDigit(s[0]) then 0 else 1 + DigitRun(s[1..])
  }

  function Saturate(v: int): int {
    if v > LLONG_MAX then LLONG_MAX else if v < LLONG_MIN then LLONG_MIN else v
  }

  /** strtoll(s, &end, 10) on the bytes before the terminating NUL: the value and the offset of end. */
  function Strtoll(s: seq<byte>): (r: (int, nat))
    ensures IsLongLong(r.0) && r.1 <= |s|
  {
    var sp := SpaceRun(s);
    var signed := sp < |s| && (s[sp] == MINUS || s[sp] == PLUS);
    var start := if signed then sp + 1 else sp;
    var n := DigitRun(s[start..]);
    if n == 0 then (0, 0)
    else
      var v: int := DigitsValue(s[start..][..n]);
      (Saturate(if signed && s[sp] == MINUS then -v else v), start + n)
  }

  /** The C string held in a buffer: everything before the first NUL. */
  function CString(s: seq<byte>): (r: seq<byte>)
    ensures |r| <= |s| && r == s[..|r|] && (|r| == |s| || s[|r|] == 0)
    ensures 0 !in r
  {
    if s == [] || s[0] == 0 then [] else [s[0]] + CString(s[1..])
  }

  /** isStringRepresentableAsLongLong: parse, require that the parse stops at a NUL, print the value
      back and compare all bytes. */
  function RepresentableAsLongLong(s: seq<byte>): (r: Option<int>) {
    var c := CString(s);
    var (value, end) := Strtoll(c);
    if end != |c| then None
    else if Print(value) != s then None
    else Some(value)
  }

  lemma {:induction false} DigitsRoundTrip(v: nat)
    ensures DigitsValue(Digits(v)) == v
  {
    var d := Digits(v);
    if v >= 10 {
      DigitsRoundTrip(v / 10);
      assert d[..|d| - 1] == Digits(v / 10);
    }
  }

  lemma {:induction false} DigitRunAll(s: seq<byte>)
    requires forall k :: 0 <= k < |s| ==> IsDigit(s[k])
    ensures DigitRun(s) == |s|
  {
  }

  lemma {:induction false} CStringWhole(s: seq<byte>)
    requires 0 !in s
    ensures CString(s) == s
  {
    if s != [] {
      CStringWhole(s[1..]);
      assert s == [s[0]] + s[1..];
    }
  }

  /** Parsing the canonical form of a 64-bit value consumes it whole and gives the value back. */
  lemma StrtollPrint(v: int)
    requires IsLongLong(v)
    ensures Strtoll(Print(v)) == (v, |Print(v)|)
    ensures CString(Print(v)) == Print(v)
  {
    var s := Print(v);
    var u := if v < 0 then -v else v;
    var start := if v < 0 then 1 else 0;
    assert s[start..] == Digits(u);
    DigitRunAll(Digits(u));
    DigitsRoundTrip(u);
    assert Digits(u)[..|Digits(u)|] == Digits(u);
    if v >= 0 { assert IsDigit(s[0]); }
    CStringWhole(s);
  }

  /** A byte string passes the test exactly when it is the canonical decimal form of a 64-bit value,
      and the value found is that one. */
  lemma {:induction false} RepresentableIffCanonical(s: seq<byte>, v: int)
    ensures RepresentableAsLongLong(s) == Some(v) <==> IsLongLong(v) && s == Print(v)
  {
    if IsLongLong(v) && s == Print(v) {
      StrtollPrint(v);
    }
  }

  // ----- the canonical form

  /** Digits without a leading zero, except for 0 itself. */
  predicate IsNumeral(s: seq<byte>) {
    s != [] && (forall k :: 0 <= k < |s| ==> IsDigit(s[k])) && (s[0] == ZERO ==> |s| == 1)
  }

  /** "0", or a nonzero digit followed by digits, or a minus, a nonzero digit and digits. */
  predicate WellFormed(s: seq<byte>) {
    IsNumeral(s) || (|s| >= 2 && s[0] == MINUS && s[1] != ZERO && IsNumeral(s[1..]))
  }

  /** The integer that a well-formed text denotes. */
  function ValueOf(s: seq<byte>): int
    requires WellFormed(s)
  {
    if IsNumeral(s) then DigitsValue(s) else -(DigitsValue(s[1..]) as int)
  }

  lemma {:induction false} DigitsNumeral(v: nat)
    ensures IsNumeral(Digits(v)) && (Digits(v)[0] == ZERO <==> v == 0)
  {
    if v >= 10 {
      DigitsNumeral(v / 10);
      assert Digits(v)[0] == Digits(v / 10)[0];
    }
  }

  /** A numeral is the printed form of its value. */
  lemma {:induction false} NumeralIsDigits(s: seq<byte>)
    requires IsNumeral(s)
    ensures s == Digits(DigitsValue(s)) && (DigitsValue(s) == 0 <==> s[0] == ZERO)
    decreases |s|
  {
    var n := |s| - 1;
    assert s == s[..n] + [s[n]];
    assert IsDigit(s[n]);
    if n == 0 {
      assert s[..n] == [];
      assert DigitsValue(s) == s[0] - ZERO;
    } else {
      assert forall k :: 0 <= k < n ==> s[..n][k] == s[k];
      NumeralIsDigits(s[..n]);
      assert s[..n][0] == s[0];
      assert DigitsValue(s) == 10 * DigitsValue(s[..n]) + (s[n] - ZERO);
    }
  }

  /** The printed form of v is the one well-formed text that denotes v: "-0" and leading zeros are
      not, although strtoll reads them. */
  lemma {:induction false} CanonicalForm(s: seq<byte>, v: int)
    ensures s == Print(v) <==> WellFormed(s) && ValueOf(s) == v
  {
    var u := if v < 0 then -v else v;
    DigitsNumeral(u);
    DigitsRoundTrip(u);
    if s == Print(v) {
      if v < 0 { assert s[1..] == Digits(u) && !IsNumeral(s) by { assert !IsDigit(s[0]); } }
    } else if IsNumeral(s) {
      NumeralIsDigits(s);
    } else if WellFormed(s) {
      NumeralIsDigits(s[1..]);
      assert s == [MINUS] + s[1..];
    }
  }

  /** Different integers have different canonical forms. */
  lemma PrintInjective(v: int, w: int)
    requires IsLongLong(v) && IsLongLong(w)
    ensures Print(v) == Print(w) <==> v == w
  {
    if Print(v) == Print(w) {
      StrtollPrint(v);
      StrtollPrint(w);
    }
  }
}
