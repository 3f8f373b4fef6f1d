/** Quoting and splitting of argument lines (sds.c): sdscatrepr prints a byte string as a quoted token,
    sdssplitargs parses a line of tokens. */
module SdsArgs {
  import opened Bytes
  import opened Decimal
  import opened Options

  const QUOTE: byte := 34
  const BACKSLASH: byte := 92
  const SPACE: byte := 32
  const LETTER_X: byte := 120

  // ----- printing

  /** isprint in the C locale. */
  predicate IsPrint(c: byte) {
    32 <= c <= 126
  }

  function HexDigit(d: int): (c: byte)
    requires 0 <= d < 16
  {
    if d < 10 then 48 + d else 87 + d
  }

  /** The bytes \a, \b, \t, \n and \r, for which the printer emits the backslash alone. */
  predicate Truncated(c: byte) {
    7 <= c <= 10 || c == 13
  }

  /** What sdscatrepr appends for one byte. */
  function ReprByte(c: byte): (s: seq<byte>)
    ensures |s| >= 1
  {
    if c == BACKSLASH || c == QUOTE then [BACKSLASH, c]
    else if Truncated(c) then [BACKSLASH]
    else if IsPrint(c) then [c]
    else [BACKSLASH, LETTER_X, HexDigit(c / 16), HexDigit(c % 16)]
  }

  function ReprBytes(s: seq<byte>): (r: seq<byte>)
    ensures |r| >= |s|
  {
    if s == [] then [] else ReprByte(s[0]) + ReprBytes(s[1..])
  }

  function Repr(s: seq<byte>): seq<byte> {
    [QUOTE] + ReprBytes(s) + [QUOTE]
  }

  /** Quoted tokens separated by single spaces. */
  function Line(args: seq<seq<byte>>): seq<byte> {
    if args == [] then []
    else if |args| == 1 then Repr(args[0])
    else Repr(args[0]) + [SPACE] + Line(args[1..])
  }

  // ----- splitting

  /** The i-th byte of a C string: NUL at its end. */
  function Peek(m: seq<byte>, i: nat): byte {
    if i < |m| then m[i] else 0
  }

  predicate IsHexDigit(c: byte) {
    48 <= c <= 57 || 97 <= c <= 102 || 65 <= c <= 70
  }

  function HexDigitToInt(c: byte): (d: int)
    ensures 0 <= d < 16
  {
    if 48 <= c <= 57 then c - 48
    else if 97 <= c <= 102 then c - 87
    else if 65 <= c <= 70 then c - 55
    else 0
  }

  /** The byte denoted by a backslash and the byte c. */
  function Unescape(c: byte): byte {
    if c == 110 then 10
    else if c == 114 then 13
    else if c == 116 then 9
    else if c == 98 then 8
    else if c == 97 then 7
    else c
  }

  predicate HexEscape(m: seq<byte>) {
    Peek(m, 0) == BACKSLASH && Peek(m, 1) == LETTER_X && IsHexDigit(Peek(m, 2)) && IsHexDigit(Peek(m, 3))
  }

  datatype Scan = Token(bytes: seq<byte>, rest: seq<byte>) | Fail

  /** The token loop of sdssplitargs from one position on, with what it has collected so far. */
  function ScanToken(m: seq<byte>, inq: bool, cur: seq<byte>): (r: Scan)
    ensures r.Token? ==> |cur| <= |r.bytes| && r.bytes[..|cur|] == cur
    ensures r.Token? ==> |r.rest| <= |m| && (Peek(m, 0) != 0 ==> |r.rest| < |m|)
    decreases |m|
  {
    var c := Peek(m, 0);
    if inq then
      if HexEscape(m) then
        ScanToken(m[4..], true, cur + [HexDigitToInt(Peek(m, 2)) * 16 + HexDigitToInt(Peek(m, 3))])
      else if c == BACKSLASH && Peek(m, 1) != 0 then ScanToken(m[2..], true, cur + [Unescape(Peek(m, 1))])
      else if c == QUOTE then
        if Peek(m, 1) != 0 && !IsSpace(Peek(m, 1)) then Fail else Token(cur, m[1..])
      else if c == 0 then Fail
      else ScanToken(m[1..], true, cur + [c])
    else if c == SPACE || c == 10 || c == 13 || c == 9 then Token(cur, m[1..])
    else if c == 0 then Token(cur, m)
    else if c == QUOTE then ScanToken(m[1..], true, cur)
    else ScanToken(m[1..], false, cur + [c])
  }

  function SkipBlanks(m: seq<byte>): (r: seq<byte>)
    ensures |r| <= |m| && r == m[|m| - |r|..]
    ensures !IsSpace(Peek(r, 0))
  {
    if m != [] && IsSpace(m[0]) then SkipBlanks(m[1..]) else m
  }

  /** sdssplitargs: the tokens of a line, or nothing when a token is malformed. */
  function Split(m: seq<byte>): (r: Option<seq<seq<byte>>>)
    decreases |m|
  {
    var p := SkipBlanks(m);
    if Peek(p, 0) == 0 then Some([])
    else
      match ScanToken(p, false, [])
      case Fail => None
      case Token(t, rest) =>
        match Split(rest)
        case None => None
        case Some(ts) => Some([t] + ts)
  }

  // ----- strings that survive

  predicate Clean(s: seq<byte>) {
    forall i :: 0 <= i < |s| ==> !Truncated(s[i])
  }

  /** What may follow a printed token on a line. */
  predicate Follows(rest: seq<byte>) {
    rest == [] || (|rest| >= 2 && rest[0] == SPACE && rest[1] == QUOTE)
  }

  /** Inside the quotes, the image of a clean byte is read back as that byte. */
  lemma CleanByte(c: byte, m: seq<byte>, cur: seq<byte>)
    requires !Truncated(c)
    ensures ScanToken(ReprByte(c) + m, true, cur) == ScanToken(m, true, cur + [c])
  {
    var p := ReprByte(c) + m;
    if c == BACKSLASH || c == QUOTE {
      assert p[2..] == m;
    } else if IsPrint(c) {
      assert p[1..] == m;
    } else {
      assert p[4..] == m;
    }
  }

  /** A closing quote ends the token. */
  lemma ClosingQuote(rest: seq<byte>, cur: seq<byte>)
    ensures ScanToken([QUOTE] + rest, true, cur)
         == if Peek(rest, 0) != 0 && !IsSpace(Peek(rest, 0)) then Fail else Token(cur, rest)
  {
    assert ([QUOTE] + rest)[1..] == rest;
  }

  /** What stands in the line from the bytes s of a token on. */
  function Behind(s: seq<byte>, rest: seq<byte>): seq<byte> {
    ReprBytes(s) + [QUOTE] + rest
  }

  lemma BehindStep(s: seq<byte>, rest: seq<byte>)
    ensures s == [] ==> Behind(s, rest) == [QUOTE] + rest
    ensures s != [] ==> Behind(s, rest) == ReprByte(s[0]) + Behind(s[1..], rest)
  {
    hide ReprByte;
  }

  lemma {:induction false} CleanToken(s: seq<byte>, rest: seq<byte>, cur: seq<byte>)
    requires Clean(s) && Follows(rest)
    ensures ScanToken(Behind(s, rest), true, cur) == Token(cur + s, rest)
  {
    hide ReprByte, ScanToken, Behind, ReprBytes;
    BehindStep(s, rest);
    if s == [] {
      ClosingQuote(rest, cur);
      assert cur + s == cur;
    } else {
      CleanByte(s[0], Behind(s[1..], rest), cur);
      CleanToken(s[1..], rest, cur + [s[0]]);
      assert cur + s == cur + [s[0]] + s[1..];
    }
  }

  /** The line behind its first token, and its first step. */
  function AfterFirst(args: seq<seq<byte>>): (rest: seq<byte>)
    requires args != []
    ensures Follows(rest)
  {
    if |args| == 1 then [] else [SPACE] + Line(args[1..])
  }

  /** Tokens already collected in front of the result for the rest of the line. */
  function Prepend(done: seq<seq<byte>>, r: Option<seq<seq<byte>>>): Option<seq<seq<byte>>> {
    match r
    case None => None
    case Some(ts) => Some(done + ts)
  }

  /** Splitting a line that starts with no blank. */
  lemma SplitToken(m: seq<byte>)
    requires SkipBlanks(m) == m
    ensures Split(m) ==
      if Peek(m, 0) == 0 then Some([])
      else
        match ScanToken(m, false, [])
        case Fail => None
        case Token(t, rest) => Prepend([t], Split(rest))
  {
    hide ScanToken;
  }

  lemma OpeningQuote(m: seq<byte>)
    ensures ScanToken([QUOTE] + m, false, []) == ScanToken(m, true, [])
  {
    assert ([QUOTE] + m)[1..] == m;
  }

  lemma SplitStep(args: seq<seq<byte>>)
    requires args != []
    ensures var scan := ScanToken(Behind(args[0], AfterFirst(args)), true, []);
      Split(Line(args)) ==
        match scan
        case Fail => None
        case Token(t, rest) => Prepend([t], Split(rest))
  {
    hide ReprBytes, ScanToken, Split;
    var m := Line(args);
    assert m == [QUOTE] + Behind(args[0], AfterFirst(args));
    assert SkipBlanks(m) == m;
    SplitToken(m);
    OpeningQuote(Behind(args[0], AfterFirst(args)));
  }

  /** After the first token the splitter goes on with the line of the other tokens. */
  lemma SplitAfterFirst(args: seq<seq<byte>>)
    requires args != []
    ensures Split(AfterFirst(args)) == Split(Line(args[1..]))
  {
    if |args| > 1 {
      assert ([SPACE] + Line(args[1..]))[1..] == Line(args[1..]);
    }
  }

  /** Round trip: a line printed from clean strings splits into exactly those strings. */
  lemma {:induction false} RoundTrip(args: seq<seq<byte>>)
    requires forall i :: 0 <= i < |args| ==> Clean(args[i])
    ensures Split(Line(args)) == Some(args)
  {
    hide ScanToken, Behind, Repr, AfterFirst, Clean;
    if args == [] {
      assert Split([]) == Some([]);
    } else {
      hide Split, Line;
      CleanToken(args[0], AfterFirst(args), []);
      SplitStep(args);
      SplitAfterFirst(args);
      RoundTrip(args[1..]);
      assert [args[0]] + args[1..] == args;
    }
  }

  // ----- strings that do not survive

  /** The state of a scan that has fallen behind: it has read the image of s up to index i (when lone, also
      all of the image of s[i] but its last byte, a backslash) and produced fewer bytes, all matching s. */
  predicate Lagging(s: seq<byte>, i: nat, lone: bool, cur: seq<byte>) {
    && |cur| < i <= |s| && cur == s[..|cur|]
    && (lone ==> i < |s| && (Truncated(s[i]) || s[i] == BACKSLASH))
  }

  function LagBytes(s: seq<byte>, i: nat, lone: bool, rest: seq<byte>): seq<byte>
    requires if lone then i < |s| else i <= |s|
  {
    if lone then [BACKSLASH] + Behind(s[i + 1..], rest) else Behind(s[i..], rest)
  }

  lemma TruncatedImage(c: byte)
    ensures Truncated(c) ==> ReprByte(c) == [BACKSLASH]
    ensures c == BACKSLASH || c == QUOTE ==> ReprByte(c) == [BACKSLASH, c]
    ensures IsPrint(c) && c != BACKSLASH && c != QUOTE ==> ReprByte(c) == [c]
    ensures !IsPrint(c) && !Truncated(c) ==> ReprByte(c) == [BACKSLASH, LETTER_X, HexDigit(c / 16), HexDigit(c % 16)]
  {
  }

  /** A backslash before a byte that does not complete a hexadecimal escape. */
  lemma EscapeStep(c: byte, m: seq<byte>, cur: seq<byte>)
    requires c != 0 && !HexEscape([BACKSLASH, c] + m)
    ensures ScanToken([BACKSLASH, c] + m, true, cur) == ScanToken(m, true, cur + [Unescape(c)])
  {
    assert ([BACKSLASH, c] + m)[2..] == m;
  }

  lemma HexStep(a: byte, b: byte, m: seq<byte>, cur: seq<byte>)
    requires IsHexDigit(a) && IsHexDigit(b)
    ensures ScanToken([BACKSLASH, LETTER_X, a, b] + m, true, cur)
         == ScanToken(m, true, cur + [HexDigitToInt(a) * 16 + HexDigitToInt(b)])
  {
    assert ([BACKSLASH, LETTER_X, a, b] + m)[4..] == m;
  }

  lemma PlainStep(c: byte, m: seq<byte>, cur: seq<byte>)
    requires c != BACKSLASH && c != QUOTE && c != 0
    ensures ScanToken([c] + m, true, cur) == ScanToken(m, true, cur + [c])
  {
    assert ([c] + m)[1..] == m;
  }

  /** A hexadecimal digit ahead is the image of such a digit. */
  lemma HexHead(u: seq<byte>, rest: seq<byte>)
    requires IsHexDigit(Peek(Behind(u, rest), 0))
    ensures u != [] && Behind(u, rest) == [Peek(Behind(u, rest), 0)] + Behind(u[1..], rest)
  {
    hide Behind;
    BehindStep(u, rest);
    if u != [] {
      TruncatedImage(u[0]);
    }
  }

  /** Produced bytes that differ from s decide the matter; otherwise the scan is still behind. */
  lemma {:induction false} Continue(s: seq<byte>, i: nat, cur: seq<byte>, rest: seq<byte>)
    requires |cur| < i <= |s| && Follows(rest)
    ensures var scan := ScanToken(Behind(s[i..], rest), true, cur); scan.Token? ==> scan.bytes != s
    decreases |s| - i, 3
  {
    hide ScanToken, Behind;
    if cur == s[..|cur|] {
      NeverCatchesUp(s, i, false, cur, rest);
    }
  }

  /** The lone backslash swallows the closing quote: the token runs on into the next one and is at most
      as long as s, and then ends in a space. */
  lemma SwallowedQuote(s: seq<byte>, cur: seq<byte>, rest: seq<byte>)
    requires s != [] && Lagging(s, |s| - 1, true, cur) && Follows(rest)
    ensures var scan := ScanToken([BACKSLASH] + Behind([], rest), true, cur); scan.Token? ==> scan.bytes != s
  {
    hide ScanToken;
    BehindStep([], rest);
    assert [BACKSLASH] + Behind([], rest) == [BACKSLASH, QUOTE] + rest;
    EscapeStep(QUOTE, rest, cur);
    if rest == [] {
      assert ScanToken([], true, cur + [QUOTE]).Fail? by { EndInQuotes(cur + [QUOTE]); }
    } else {
      assert rest == [SPACE] + ([QUOTE] + rest[2..]);
      PlainStep(SPACE, [QUOTE] + rest[2..], cur + [QUOTE]);
      ClosingQuote(rest[2..], cur + [QUOTE] + [SPACE]);
      var t := cur + [QUOTE] + [SPACE];
      assert t[|t| - 1] == SPACE;
    }
  }

  lemma EndInQuotes(cur: seq<byte>)
    ensures ScanToken([], true, cur).Fail?
  {
  }

  /** A lone backslash before the image of the byte s[i + 1]. */
  lemma {:induction false} LoneBackslash(s: seq<byte>, i: nat, cur: seq<byte>, rest: seq<byte>)
    requires Lagging(s, i, true, cur) && Follows(rest)
    ensures var scan := ScanToken([BACKSLASH] + Behind(s[i + 1..], rest), true, cur); scan.Token? ==> scan.bytes != s
    decreases |s| - i, 0
  {
    hide ScanToken, Behind, ReprByte, HexEscape;
    if i + 1 == |s| {
      SwallowedQuote(s, cur, rest);
      assert s[i + 1..] == [];
    } else {
      var w := s[i + 1];
      var b := Behind(s[i + 2..], rest);
      BehindStep(s[i + 1..], rest);
      assert s[i + 1..][1..] == s[i + 2..];
      TruncatedImage(w);
      if IsPrint(w) && w != BACKSLASH && w != QUOTE {
        LonePrintable(s, i, w, cur, rest);
      } else {
        LoneOther(s, i, w, cur, rest);
      }
    }
  }

  lemma {:induction false} LonePrintable(s: seq<byte>, i: nat, w: byte, cur: seq<byte>, rest: seq<byte>)
    requires |cur| <= i && Follows(rest) && i + 1 < |s| && w == s[i + 1] && w != 0
    ensures var scan := ScanToken([BACKSLASH] + ([w] + Behind(s[i + 2..], rest)), true, cur);
      scan.Token? ==> scan.bytes != s
    decreases |s| - i, 0, 0
  {
    hide ScanToken, Behind;
    var b := Behind(s[i + 2..], rest);
    var m := [BACKSLASH, w] + b;
    assert [BACKSLASH] + ([w] + b) == m;
    if HexEscape(m) {
      assert Peek(m, 2) == Peek(b, 0) && Peek(m, 3) == Peek(b, 1);
      HexHead(s[i + 2..], rest);
      assert s[i + 2..][1..] == s[i + 3..];
      var b' := Behind(s[i + 3..], rest);
      assert Peek(b, 1) == Peek(b', 0);
      HexHead(s[i + 3..], rest);
      assert s[i + 3..][1..] == s[i + 4..];
      var b'' := Behind(s[i + 4..], rest);
      assert m == [BACKSLASH, LETTER_X, Peek(b, 0), Peek(b', 0)] + b'';
      HexStep(Peek(b, 0), Peek(b', 0), b'', cur);
      Continue(s, i + 4, cur + [HexDigitToInt(Peek(b, 0)) * 16 + HexDigitToInt(Peek(b', 0))], rest);
    } else {
      EscapeStep(w, b, cur);
      Continue(s, i + 2, cur + [Unescape(w)], rest);
    }
  }

  lemma {:induction false} LoneOther(s: seq<byte>, i: nat, w: byte, cur: seq<byte>, rest: seq<byte>)
    requires Lagging(s, i, true, cur) && Follows(rest) && i + 1 < |s| && w == s[i + 1]
    requires !IsPrint(w) || w == BACKSLASH || w == QUOTE
    ensures var scan := ScanToken([BACKSLASH] + (ReprByte(w) + Behind(s[i + 2..], rest)), true, cur);
      scan.Token? ==> scan.bytes != s
    decreases |s| - i, 0, 0
  {
    hide ScanToken, Behind, ReprByte;
    TruncatedImage(w);
    var b := Behind(s[i + 2..], rest);
    var tail := ReprByte(w)[1..] + b;
    assert [BACKSLASH] + (ReprByte(w) + b) == [BACKSLASH, BACKSLASH] + tail;
    EscapeStep(BACKSLASH, tail, cur);
    var cur' := cur + [BACKSLASH];
    if Truncated(w) {
      assert tail == b;
      Continue(s, i + 2, cur', rest);
    } else if w == QUOTE {
      assert tail == [QUOTE] + b;
      ClosingQuote(b, cur');
    } else if w == BACKSLASH {
      assert tail == [BACKSLASH] + b;
      if cur' == s[..|cur'|] {
        NeverCatchesUp(s, i + 1, true, cur', rest);
      }
    } else {
      var h1, h2 := HexDigit(w / 16), HexDigit(w % 16);
      assert tail == [LETTER_X] + ([h1] + ([h2] + b));
      PlainStep(LETTER_X, [h1] + ([h2] + b), cur');
      PlainStep(h1, [h2] + b, cur' + [LETTER_X]);
      PlainStep(h2, b, cur' + [LETTER_X] + [h1]);
      var cur4 := cur' + [LETTER_X] + [h1] + [h2];
      if |cur4| <= |s| && cur4 == s[..|cur4|] {
        var o := |cur|;
        assert s[o + 1] == cur4[o + 1] && s[o + 2] == cur4[o + 2] && s[o + 3] == cur4[o + 3];
        NeverCatchesUp(s, i + 2, false, cur4, rest);
      }
    }
  }

  /** A scan that has fallen behind never produces s. */
  lemma {:induction false} NeverCatchesUp(s: seq<byte>, i: nat, lone: bool, cur: seq<byte>, rest: seq<byte>)
    requires Lagging(s, i, lone, cur) && Follows(rest)
    ensures var scan := ScanToken(LagBytes(s, i, lone, rest), true, cur); scan.Token? ==> scan.bytes != s
    decreases |s| - i, if lone then 1 else 2
  {
    hide ScanToken, Behind, ReprByte;
    if lone {
      LoneBackslash(s, i, cur, rest);
    } else if i == |s| {
      BehindStep([], rest);
      assert s[i..] == [];
      ClosingQuote(rest, cur);
    } else {
      BehindStep(s[i..], rest);
      assert s[i..][1..] == s[i + 1..];
      if Truncated(s[i]) {
        TruncatedImage(s[i]);
        NeverCatchesUp(s, i, true, cur, rest);
      } else {
        CleanByte(s[i], Behind(s[i + 1..], rest), cur);
        Continue(s, i + 1, cur + [s[i]], rest);
      }
    }
  }

  /** The first truncated byte makes the scan fall behind or go wrong at once. */
  lemma FallsBehind(s: seq<byte>, i: nat, rest: seq<byte>)
    requires i < |s| && Truncated(s[i]) && Follows(rest)
    ensures var scan := ScanToken(Behind(s[i..], rest), true, s[..i]); scan.Token? ==> scan.bytes != s
  {
    hide ScanToken, Behind, ReprByte, HexEscape;
    var cur := s[..i];
    BehindStep(s[i..], rest);
    TruncatedImage(s[i]);
    assert s[i..][1..] == s[i + 1..];
    if i + 1 == |s| {
      BehindStep([], rest);
      assert s[i + 1..] == [];
      assert [BACKSLASH] + ([QUOTE] + rest) == [BACKSLASH, QUOTE] + rest;
      WrongByte(s, i, QUOTE, rest, cur);
    } else {
      var w := s[i + 1];
      var b := Behind(s[i + 2..], rest);
      BehindStep(s[i + 1..], rest);
      TruncatedImage(w);
      assert s[i + 1..][1..] == s[i + 2..];
      if IsPrint(w) && w != BACKSLASH && w != QUOTE {
        LonePrintable(s, i, w, cur, rest);
      } else {
        var tail := ReprByte(w)[1..] + b;
        assert [BACKSLASH] + (ReprByte(w) + b) == [BACKSLASH, BACKSLASH] + tail;
        WrongByte(s, i, BACKSLASH, tail, cur);
      }
    }
  }

  lemma WrongByte(s: seq<byte>, i: nat, c: byte, m: seq<byte>, cur: seq<byte>)
    requires i < |s| && Truncated(s[i]) && (c == BACKSLASH || c == QUOTE) && cur == s[..i]
    ensures var scan := ScanToken([BACKSLASH, c] + m, true, cur); scan.Token? ==> scan.bytes != s
  {
    hide ScanToken;
    EscapeStep(c, m, cur);
    var scan := ScanToken(m, true, cur + [c]);
    if scan.Token? {
      assert scan.bytes[..i + 1][i] == c;
    }
  }

  /** Clean bytes ahead of index i are read back one by one. */
  lemma {:induction false} CleanPrefix(s: seq<byte>, i: nat, rest: seq<byte>)
    requires i <= |s| && forall k :: 0 <= k < i ==> !Truncated(s[k])
    ensures ScanToken(Behind(s, rest), true, []) == ScanToken(Behind(s[i..], rest), true, s[..i])
  {
    hide ScanToken, Behind, ReprByte;
    if i == 0 {
      assert s[0..] == s && s[..0] == [];
    } else {
      CleanPrefix(s, i - 1, rest);
      BehindStep(s[i - 1..], rest);
      assert s[i - 1..][1..] == s[i..];
      CleanByte(s[i - 1], Behind(s[i..], rest), s[..i - 1]);
      assert s[..i] == s[..i - 1] + [s[i - 1]];
    }
  }

  /** A string with a truncated byte is never read back. */
  lemma DirtyToken(s: seq<byte>, rest: seq<byte>)
    requires !Clean(s) && Follows(rest)
    ensures var scan := ScanToken(Behind(s, rest), true, []); scan.Token? ==> scan.bytes != s
  {
    hide ScanToken, Behind, Truncated;
    var i := 0;
    while !Truncated(s[i])
      invariant i < |s| && forall k :: 0 <= k < i ==> !Truncated(s[k])
      decreases |s| - i
    {
      i := i + 1;
    }
    CleanPrefix(s, i, rest);
    FallsBehind(s, i, rest);
  }

  /** The line printed from a list of strings splits into exactly that list if and only if none of the
      strings contains one of the bytes \a, \b, \t, \n, \r. */
  lemma {:induction false} RoundTripExactly(args: seq<seq<byte>>)
    ensures Split(Line(args)) == Some(args) <==> forall i :: 0 <= i < |args| ==> Clean(args[i])
  {
    hide ScanToken, Behind, Clean, AfterFirst;
    if forall i :: 0 <= i < |args| ==> Clean(args[i]) {
      RoundTrip(args);
    } else {
      DirtyList(args);
    }
  }

  /** The one-byte string newline is printed as a quote, a backslash and a quote: the backslash hides the closing
      quote, and the line has no complete token. */
  lemma {:induction false} NewlineIsLost()
    ensures Line([[10]]) == [QUOTE, BACKSLASH, QUOTE] && Split(Line([[10]])) == None
  {
    assert [10][1..] == [];
    var line := Line([[10]]);
    assert line == [QUOTE, BACKSLASH, QUOTE];
    assert line[1..] == [BACKSLASH, QUOTE] && line[1..][2..] == [];
    assert SkipBlanks(line) == line;
    assert ScanToken([], true, [QUOTE]) == Fail;
    assert ScanToken(line[1..], true, []) == ScanToken([], true, [] + [QUOTE]);
    assert ScanToken(line, false, []) == Fail;
  }

  lemma {:induction false} DirtyList(args: seq<seq<byte>>)
    requires !forall i :: 0 <= i < |args| ==> Clean(args[i])
    ensures Split(Line(args)) != Some(args)
  {
    hide ScanToken, Behind, Clean, AfterFirst, Split, Line;
    SplitStep(args);
    SplitAfterFirst(args);
    if Clean(args[0]) {
      CleanToken(args[0], AfterFirst(args), []);
      assert exists i :: 0 <= i < |args[1..]| && !Clean(args[1..][i]) by {
        var i :| 0 <= i < |args| && !Clean(args[i]);
        assert args[1..][i - 1] == args[i];
      }
      DirtyList(args[1..]);
      var tail := Split(Line(args[1..]));
      if tail.Some? {
        assert ([args[0]] + tail.value)[1..] == tail.value;
      }
    } else {
      DirtyToken(args[0], AfterFirst(args));
    }
  }

  // ----- the loops of the source

  lemma ReprBytesStep(p: seq<byte>, i: nat)
    requires i < |p|
    ensures ReprBytes(p[i..]) == ReprByte(p[i]) + ReprBytes(p[i + 1..])
  {
    assert p[i..][1..] == p[i + 1..];
  }

  /** sdscatrepr: appends the quoted form of p to s. */
  method CatRepr(s: seq<byte>, p: seq<byte>) returns (r: seq<byte>)
    ensures r == s + Repr(p)
  {
    hide ReprBytes;
    r := s + [QUOTE];
    ghost var image: seq<byte> := [];
    var i := 0;
    assert p[0..] == p;
    while i < |p|
      invariant i <= |p| && r == s + [QUOTE] + image && image + ReprBytes(p[i..]) == ReprBytes(p)
    {
      var c := p[i];
      ReprBytesStep(p, i);
      image := image + ReprByte(c);
      if c == BACKSLASH || c == QUOTE {
        r := r + [BACKSLASH, c];
      } else if c == 10 || c == 13 || c == 9 || c == 7 || c == 8 {
        r := r + [BACKSLASH];
      } else if IsPrint(c) {
        r := r + [c];
      } else {
        r := r + [BACKSLASH, LETTER_X, HexDigit(c / 16), HexDigit(c % 16)];
      }
      i := i + 1;
    }
    EmptyImage(p[i..]);
    r := r + [QUOTE];
  }

  lemma EmptyImage(p: seq<byte>)
    requires p == []
    ensures ReprBytes(p) == []
  {
  }

  /** What one byte inside quotes leads to. */
  datatype Turn = Went(p: nat, current: seq<byte>) | Closed | Refused

  /** The part of the inner loop of sdssplitargs that runs inside quotes. */
  method QuotedTurn(line: seq<byte>, p0: nat, current0: seq<byte>) returns (t: Turn)
    requires p0 <= |line|
    ensures ScanToken(line[p0..], true, current0) ==
      match t
      case Refused => Fail
      case Closed => Token(current0, line[if p0 < |line| then p0 + 1 else p0..])
      case Went(p, current) => if p <= |line| then ScanToken(line[p..], true, current) else Fail
    ensures t.Went? ==> p0 < t.p <= |line|
    ensures t.Closed? ==> p0 < |line| && line[p0] == QUOTE
  {
    hide IsSpace, HexDigitToInt;
    ghost var m := line[p0..];
    var p, current := p0, current0;
    var c := Peek(line, p);
    Peeks(line, p);
    if c == BACKSLASH && Peek(line, p + 1) == LETTER_X
      && IsHexDigit(Peek(line, p + 2)) && IsHexDigit(Peek(line, p + 3)) {
      current := current + [HexDigitToInt(Peek(line, p + 2)) * 16 + HexDigitToInt(Peek(line, p + 3))];
      p := p + 3;
    } else if c == BACKSLASH && Peek(line, p + 1) != 0 {
      p := p + 1;
      current := current + [Unescape(Peek(line, p))];
    } else if c == QUOTE {
      if Peek(line, p + 1) != 0 && !IsSpace(Peek(line, p + 1)) {
        return Refused;
      }
      return Closed;
    } else if c == 0 {
      return Refused;
    } else {
      current := current + [c];
    }
    p := p + 1;
    assert m[p - p0..] == line[p..];
    t := Went(p, current);
  }

  lemma Peeks(line: seq<byte>, p: nat)
    requires p <= |line|
    ensures forall i: nat :: Peek(line[p..], i) == Peek(line, p + i)
  {
  }

  /** The inner loop of sdssplitargs: one token from offset p0 on. */
  method GetToken(line: seq<byte>, p0: nat) returns (r: Scan, p: nat)
    requires p0 <= |line|
    ensures p <= |line| && r == ScanToken(line[p0..], false, [])
    ensures r.Token? ==> r.rest == line[p..]
  {
    hide IsSpace, IsHexDigit, HexDigitToInt, HexEscape;
    p := p0;
    var current: seq<byte>, inq, done := [], false, false;
    while !done
      invariant p <= |line|
      invariant ScanToken(line[p0..], false, [])
          == if done then Token(current, line[p..]) else ScanToken(line[p..], inq, current)
      decreases !done, |line| - p
    {
      if inq {
        var t := QuotedTurn(line, p, current);
        match t {
          case Refused => return Fail, p;
          case Closed => assert line[p..][1..] == line[p + 1..]; done, p := true, p + 1;
          case Went(p', current') => p, current := p', current';
        }
      } else {
        Peeks(line, p);
        var c := Peek(line, p);
        if c == SPACE || c == 10 || c == 13 || c == 9 || c == 0 {
          done := true;
        } else if c == QUOTE {
          inq := true;
        } else {
          current := current + [c];
        }
        if c != 0 {
          assert line[p..][1..] == line[p + 1..];
          p := p + 1;
        }
      }
    }
    r := Token(current, line[p..]);
  }

  lemma PrependNone(r: Option<seq<seq<byte>>>)
    ensures Prepend([], r) == r
  {
    if r.Some? { assert [] + r.value == r.value; }
  }

  lemma PrependEnd(done: seq<seq<byte>>)
    ensures Prepend(done, Some([])) == Some(done) && Prepend(done, None) == None
  {
    assert done + [] == done;
  }

  lemma PrependOne(done: seq<seq<byte>>, t: seq<byte>, r: Option<seq<seq<byte>>>)
    ensures Prepend(done, Prepend([t], r)) == Prepend(done + [t], r)
  {
    if r.Some? { assert done + ([t] + r.value) == done + [t] + r.value; }
  }

  lemma SplitSkips(m: seq<byte>, m': seq<byte>)
    requires SkipBlanks(m) == m'
    ensures Split(m) == Split(m') && SkipBlanks(m') == m'
  {
    hide ScanToken;
  }

  /** The loop of sdssplitargs over blanks. */
  method SkipSpaces(line: seq<byte>, p0: nat) returns (p: nat)
    requires p0 <= |line|
    ensures p0 <= p <= |line| && SkipBlanks(line[p0..]) == line[p..]
  {
    p := p0;
    while Peek(line, p) != 0 && IsSpace(Peek(line, p))
      invariant p0 <= p <= |line| && SkipBlanks(line[p0..]) == SkipBlanks(line[p..])
      decreases |line| - p
    {
      assert line[p..][1..] == line[p + 1..];
      p := p + 1;
    }
  }

  /** sdssplitargs. */
  method SplitArgs(line: seq<byte>) returns (argv: Option<seq<seq<byte>>>)
    ensures argv == Split(line)
  {
    hide ScanToken, Split, SkipBlanks, Prepend, Peek, IsSpace;
    var p, vector := 0, [];
    assert line[0..] == line;
    PrependNone(Split(line));
    while true
      invariant 0 <= p <= |line|
      invariant Split(line) == Prepend(vector, Split(line[p..]))
      decreases |line| - p
    {
      var q := SkipSpaces(line, p);
      SplitSkips(line[p..], line[q..]);
      SplitToken(line[q..]);
      Peeks(line, q);
      if Peek(line, q) == 0 {
        PrependEnd(vector);
        return Some(vector);
      }
      var scan, rest := GetToken(line, q);
      if scan.Fail? {
        PrependEnd(vector);
        return None;
      }
      PrependOne(vector, scan.bytes, Split(line[rest..]));
      vector := vector + [scan.bytes];
      p := rest;
    }
  }
}
