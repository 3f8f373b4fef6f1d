/** The grammar of argument lines (sds.c), independent of the scanner: the splitter accepts exactly the lines of the
    grammar and returns what their words denote. */
module SdsGrammar {
  import opened Bytes
  import opened Options
  import opened SdsArgs

  const LOWER_DIGITS := "0123456789abcdef"
  const UPPER_DIGITS := "0123456789ABCDEF"

  /** The byte is the hexadecimal digit of value d, in either case. */
  ghost predicate Spells(c: byte, d: int) {
    0 <= d < 16 && (c == LOWER_DIGITS[d] as int || c == UPPER_DIGITS[d] as int)
  }

  /** White space of the C locale. */
  ghost predicate Blank(c: byte) {
    c in {9, 10, 11, 12, 13, 32}
  }

  /** What ends a word outside quotes: a tab, newline, carriage return or space. */
  ghost predicate Separator(c: byte) {
    c in {9, 10, 13, 32}
  }

  /** One byte of a quoted string: written as itself, as a backslash and a letter, or as two hexadecimal digits. */
  datatype Piece = Plain(c: byte) | Letter(l: byte, c: byte) | Hex(hi: byte, lo: byte, c: byte)

  ghost function Text(p: Piece): seq<byte> {
    match p
    case Plain(c) => [c]
    case Letter(l, _) => [BACKSLASH, l]
    case Hex(hi, lo, _) => [BACKSLASH, LETTER_X, hi, lo]
  }

  /** The letters n, r, t, b and a stand for control bytes, every other one for itself. */
  ghost predicate Escape(l: byte, c: byte) {
    (l, c) in {(110, 10), (114, 13), (116, 9), (98, 8), (97, 7)} || (l == c && l !in {110, 114, 116, 98, 97})
  }

  ghost predicate TwoDigits(s: seq<byte>) {
    |s| >= 2 && (exists d :: Spells(s[0], d)) && (exists d :: Spells(s[1], d))
  }

  ghost predicate PieceOk(p: Piece, behind: seq<byte>) {
    match p
    case Plain(c) => c !in {0, QUOTE, BACKSLASH}
    case Letter(l, c) => l != 0 && Escape(l, c) && (l == LETTER_X ==> !TwoDigits(behind))
    case Hex(hi, lo, c) => Spells(hi, c / 16) && Spells(lo, c % 16)
  }

  ghost function Texts(ps: seq<Piece>): seq<byte> {
    if ps == [] then [] else Text(ps[0]) + Texts(ps[1..])
  }

  ghost predicate PiecesOk(ps: seq<Piece>) {
    ps == [] || (PieceOk(ps[0], Texts(ps[1..]) + [QUOTE]) && PiecesOk(ps[1..]))
  }

  ghost function Denoted(ps: seq<Piece>): (s: seq<byte>)
    ensures |s| == |ps| && forall i :: 0 <= i < |s| ==> s[i] == ps[i].c
  {
    seq(|ps|, i requires 0 <= i < |ps| => ps[i].c)
  }

  /** Bare bytes, and behind them possibly a quoted string. */
  datatype Word = Word(bare: seq<byte>, quoted: Option<seq<Piece>>)

  ghost function Source(w: Word): seq<byte> {
    w.bare + if w.quoted.Some? then [QUOTE] + Texts(w.quoted.value) + [QUOTE] else []
  }

  ghost function Value(w: Word): seq<byte> {
    w.bare + if w.quoted.Some? then Denoted(w.quoted.value) else []
  }

  ghost predicate BareOk(bare: seq<byte>) {
    forall i :: 0 <= i < |bare| ==> bare[i] !in {0, QUOTE} && !Separator(bare[i])
  }

  ghost predicate WordOk(w: Word) {
    && BareOk(w.bare) && (if w.bare == [] then w.quoted.Some? else !Blank(w.bare[0]))
    && (w.quoted.Some? ==> PiecesOk(w.quoted.value))
  }

  /** A word and the blanks behind it. */
  datatype Item = Item(word: Word, gap: seq<byte>)

  ghost predicate Blanks(s: seq<byte>) {
    forall i :: 0 <= i < |s| ==> Blank(s[i])
  }

  /** Blanks may be missing behind the last word only; a word without quotes goes on over a vertical tab or a form
      feed. */
  ghost predicate ItemOk(item: Item, last: bool) {
    && WordOk(item.word) && Blanks(item.gap)
    && if item.gap == [] then last else item.word.quoted.Some? || Separator(item.gap[0])
  }

  ghost predicate ItemsOk(items: seq<Item>) {
    items == [] || (ItemOk(items[0], |items| == 1) && ItemsOk(items[1..]))
  }

  ghost function ItemsText(items: seq<Item>): seq<byte> {
    if items == [] then [] else Source(items[0].word) + items[0].gap + ItemsText(items[1..])
  }

  ghost function Values(items: seq<Item>): seq<seq<byte>> {
    if items == [] then [] else [Value(items[0].word)] + Values(items[1..])
  }

  /** The end of a line, or a NUL and anything behind it. */
  ghost predicate Ended(tail: seq<byte>) {
    tail == [] || tail[0] == 0
  }

  ghost predicate IsLine(line: seq<byte>, lead: seq<byte>, items: seq<Item>, tail: seq<byte>) {
    Blanks(lead) && ItemsOk(items) && Ended(tail) && line == lead + (ItemsText(items) + tail)
  }

  // ----- digits and blanks of the scanner

  lemma SpellsIs(c: byte, d: int)
    requires Spells(c, d)
    ensures IsHexDigit(c) && HexDigitToInt(c) == d
  {
    assert d in {0, 1, 2, 3, 4, 5, 6, 7, 8, 9, 10, 11, 12, 13, 14, 15};
  }

  lemma DigitSpells(c: byte)
    requires IsHexDigit(c)
    ensures Spells(c, HexDigitToInt(c))
  {
    assert HexDigitToInt(c) in {0, 1, 2, 3, 4, 5, 6, 7, 8, 9, 10, 11, 12, 13, 14, 15};
  }

  lemma TwoDigitsIs(s: seq<byte>, rest: seq<byte>)
    ensures TwoDigits(s + [QUOTE]) <==>
      IsHexDigit(Peek(s + ([QUOTE] + rest), 0)) && IsHexDigit(Peek(s + ([QUOTE] + rest), 1))
  {
    hide Spells;
    var m, q := s + ([QUOTE] + rest), s + [QUOTE];
    assert forall i :: 0 <= i < |q| ==> q[i] == m[i];
    if TwoDigits(q) {
      var d :| Spells(q[0], d);
      var e :| Spells(q[1], e);
      SpellsIs(q[0], d);
      SpellsIs(q[1], e);
    }
    if IsHexDigit(Peek(m, 0)) && IsHexDigit(Peek(m, 1)) {
      assert |s| >= 1 && |q| >= 2;
      DigitSpells(q[0]);
      DigitSpells(q[1]);
    }
  }

  // ----- every line of the grammar is split into its words

  /** Reading one piece. */
  lemma ScanPiece(p: Piece, behind: seq<byte>, rest: seq<byte>, cur: seq<byte>)
    requires PieceOk(p, behind + [QUOTE])
    ensures ScanToken(Text(p) + (behind + ([QUOTE] + rest)), true, cur)
         == ScanToken(behind + ([QUOTE] + rest), true, cur + [p.c])
  {
    hide ScanToken, Spells, TwoDigits;
    var m := behind + ([QUOTE] + rest);
    match p
    case Plain(c) => PlainStep(c, m, cur);
    case Letter(l, c) =>
      TwoDigitsIs(behind, rest);
      assert Peek([BACKSLASH, l] + m, 2) == Peek(m, 0) && Peek([BACKSLASH, l] + m, 3) == Peek(m, 1);
      EscapeStep(l, m, cur);
    case Hex(hi, lo, c) =>
      SpellsIs(hi, c / 16);
      SpellsIs(lo, c % 16);
      HexStep(hi, lo, m, cur);
  }

  lemma {:induction false} ScanPieces(ps: seq<Piece>, rest: seq<byte>, cur: seq<byte>)
    requires PiecesOk(ps) && (Ended(rest) || Blank(rest[0]))
    ensures ScanToken(Texts(ps) + ([QUOTE] + rest), true, cur) == Token(cur + Denoted(ps), rest)
    decreases |ps|
  {
    hide ScanToken, PieceOk, Text;
    var m := [QUOTE] + rest;
    if ps == [] {
      assert Texts(ps) + m == m && cur + Denoted(ps) == cur;
      ClosingQuote(rest, cur);
    } else {
      assert Texts(ps) + m == Text(ps[0]) + (Texts(ps[1..]) + m);
      ScanPiece(ps[0], Texts(ps[1..]), rest, cur);
      ScanPieces(ps[1..], rest, cur + [ps[0].c]);
      assert cur + [ps[0].c] + Denoted(ps[1..]) == cur + Denoted(ps);
    }
  }

  lemma {:induction false} ScanBare(bare: seq<byte>, m: seq<byte>, cur: seq<byte>)
    requires BareOk(bare)
    ensures ScanToken(bare + m, false, cur) == ScanToken(m, false, cur + bare)
    decreases |bare|
  {
    if bare == [] {
      assert bare + m == m && cur + bare == cur;
    } else {
      assert (bare + m)[1..] == bare[1..] + m && (bare + m)[0] == bare[0];
      ScanBare(bare[1..], m, cur + [bare[0]]);
      assert cur + [bare[0]] + bare[1..] == cur + bare;
    }
  }

  /** A word is read as its value; a separator behind bare bytes is read with it. */
  lemma ScanWord(w: Word, gap: seq<byte>, m: seq<byte>)
    requires ItemOk(Item(w, gap), Ended(m))
    ensures ScanToken(Source(w) + (gap + m), false, [])
         == Token(Value(w), if gap != [] && w.quoted.None? then gap[1..] + m else gap + m)
  {
    hide ScanToken, PiecesOk, Texts;
    var r := gap + m;
    if w.quoted.Some? {
      var s := Texts(w.quoted.value) + ([QUOTE] + r);
      assert Source(w) + r == w.bare + ([QUOTE] + s);
      ScanBare(w.bare, [QUOTE] + s, []);
      assert [] + w.bare == w.bare && r == gap + m;
      QuoteOpens(s, w.bare);
      ScanPieces(w.quoted.value, r, w.bare);
    } else {
      assert Source(w) == w.bare;
      ScanBare(w.bare, r, []);
      assert [] + w.bare == w.bare && Value(w) == w.bare;
      BareEnds(r, w.bare);
      if gap != [] { assert r[1..] == gap[1..] + m; }
    }
  }

  lemma QuoteOpens(m: seq<byte>, cur: seq<byte>)
    ensures ScanToken([QUOTE] + m, false, cur) == ScanToken(m, true, cur)
  {
    assert ([QUOTE] + m)[1..] == m;
  }

  lemma BareEnds(m: seq<byte>, cur: seq<byte>)
    requires Ended(m) || Separator(m[0])
    ensures ScanToken(m, false, cur) == Token(cur, if Ended(m) then m else m[1..])
  {
  }

  lemma {:induction false} LeadSkipped(lead: seq<byte>, m: seq<byte>)
    requires Blanks(lead) && (m == [] || !Blank(m[0]))
    ensures SkipBlanks(lead + m) == m
    decreases |lead|
  {
    if lead == [] {
      assert lead + m == m;
    } else {
      assert (lead + m)[0] == lead[0] && (lead + m)[1..] == lead[1..] + m;
      LeadSkipped(lead[1..], m);
    }
  }

  lemma ScanItem(item: Item, last: bool, rest: seq<byte>)
    requires ItemOk(item, last) && (last ==> Ended(rest))
    ensures ScanToken(Source(item.word) + (item.gap + rest), false, [])
      == Token(Value(item.word), (if item.gap != [] && item.word.quoted.None? then item.gap[1..] else item.gap) + rest)
  {
    hide ScanToken, WordOk, Source, Value;
    ScanWord(item.word, item.gap, rest);
  }

  lemma WordStarts(w: Word, rest: seq<byte>)
    requires WordOk(w)
    ensures var m := Source(w) + rest; m != [] && m[0] != 0 && !Blank(m[0])
  {
  }

  /** Behind the leading blanks a line ends or its first word begins. */
  lemma LineStarts(line: seq<byte>, lead: seq<byte>, items: seq<Item>, tail: seq<byte>)
    requires IsLine(line, lead, items, tail)
    ensures SkipBlanks(line) == ItemsText(items) + tail
    ensures Peek(ItemsText(items) + tail, 0) == 0 <==> items == []
  {
    hide WordOk, Source, SkipBlanks;
    var m := ItemsText(items) + tail;
    if items == [] {
      assert m == tail;
    } else {
      var behind := items[0].gap + ItemsText(items[1..]) + tail;
      assert m == Source(items[0].word) + behind;
      WordStarts(items[0].word, behind);
    }
    LeadSkipped(lead, m);
  }

  /** The first word is read, and a line with the others is left. */
  lemma FirstWord(items: seq<Item>, tail: seq<byte>) returns (rest: seq<byte>, lead: seq<byte>)
    requires items != [] && ItemsOk(items) && Ended(tail)
    ensures ScanToken(ItemsText(items) + tail, false, []) == Token(Value(items[0].word), rest)
    ensures IsLine(rest, lead, items[1..], tail) && Values(items) == [Value(items[0].word)] + Values(items[1..])
  {
    hide ScanToken, WordOk, Source, Value;
    var w, gap, behind := items[0].word, items[0].gap, ItemsText(items[1..]) + tail;
    assert ItemsText(items) + tail == Source(w) + (gap + behind);
    if |items| == 1 { assert behind == tail; }
    ScanItem(items[0], |items| == 1, behind);
    lead := if gap != [] && w.quoted.None? then gap[1..] else gap;
    rest := lead + behind;
  }

  lemma PrependSome(t: seq<byte>, ts: seq<seq<byte>>)
    ensures Prepend([t], Some(ts)) == Some([t] + ts)
  {
  }

  lemma NoValues()
    ensures Values([]) == []
  {
  }

  /** A line of the grammar splits into the values of its words. */
  lemma {:induction false} LineSplits(line: seq<byte>, lead: seq<byte>, items: seq<Item>, tail: seq<byte>)
    requires IsLine(line, lead, items, tail)
    ensures Split(line) == Some(Values(items))
    decreases |items|
  {
    hide *;
    LineParts(line, lead, items, tail);
    LineStarts(line, lead, items, tail);
    var m := ItemsText(items) + tail;
    SplitSkips(line, m);
    SplitToken(m);
    if items == [] {
      NoValues();
    } else {
      var rest, lead' := FirstWord(items, tail);
      LineSplits(rest, lead', items[1..], tail);
      PrependSome(Value(items[0].word), Values(items[1..]));
    }
  }

  lemma LineParts(line: seq<byte>, lead: seq<byte>, items: seq<Item>, tail: seq<byte>)
    requires IsLine(line, lead, items, tail)
    ensures Blanks(lead) && ItemsOk(items) && Ended(tail) && line == lead + (ItemsText(items) + tail)
  {
  }

  // ----- every line that is split is a line of the grammar

  lemma EscapeIs(l: byte)
    ensures Escape(l, Unescape(l))
  {
  }

  /** The piece that the scanner reads next inside quotes. */
  lemma FirstPiece(m: seq<byte>, cur: seq<byte>) returns (p: Piece, next: seq<byte>)
    requires ScanToken(m, true, cur).Token? && m != [] && m[0] != QUOTE
    ensures m == Text(p) + next && |next| < |m| && ScanToken(m, true, cur) == ScanToken(next, true, cur + [p.c])
    ensures forall s, rest :: next == s + ([QUOTE] + rest) ==> PieceOk(p, s + [QUOTE])
  {
    hide Spells, TwoDigits, HexDigitToInt, Unescape, Escape, ScanToken, IsHexDigit;
    NotTheEnd(m, cur);
    if HexEscape(m) {
      p, next := Hex(m[2], m[3], HexDigitToInt(m[2]) * 16 + HexDigitToInt(m[3])), m[4..];
      DigitSpells(m[2]);
      DigitSpells(m[3]);
      assert m == [BACKSLASH, LETTER_X, m[2], m[3]] + next;
      HexStep(m[2], m[3], next, cur);
    } else if m[0] == BACKSLASH {
      p, next := Letter(m[1], Unescape(m[1])), m[2..];
      assert m == [BACKSLASH, m[1]] + next;
      EscapeStep(m[1], next, cur);
      EscapeIs(m[1]);
      forall s, rest | next == s + ([QUOTE] + rest) ensures PieceOk(p, s + [QUOTE]) {
        TwoDigitsIs(s, rest);
        assert Peek(m, 2) == Peek(next, 0) && Peek(m, 3) == Peek(next, 1);
      }
    } else {
      p, next := Plain(m[0]), m[1..];
      assert m == [m[0]] + next;
      PlainStep(m[0], next, cur);
    }
  }

  /** A scan that goes on inside quotes is not at the end, nor at a backslash before it. */
  lemma NotTheEnd(m: seq<byte>, cur: seq<byte>)
    requires ScanToken(m, true, cur).Token? && m != [] && m[0] != QUOTE
    ensures m[0] != 0 && (m[0] == BACKSLASH ==> Peek(m, 1) != 0)
    ensures HexEscape(m) ==> |m| >= 4 && IsHexDigit(m[2]) && IsHexDigit(m[3])
  {
    hide HexDigitToInt, Unescape;
  }

  /** What the scanner reads inside quotes is a sequence of pieces and the closing quote. */
  lemma {:induction false} FindPieces(m: seq<byte>, cur: seq<byte>) returns (ps: seq<Piece>)
    requires ScanToken(m, true, cur).Token?
    ensures var r := ScanToken(m, true, cur);
      && PiecesOk(ps) && m == Texts(ps) + ([QUOTE] + r.rest) && r.bytes == cur + Denoted(ps)
      && (Ended(r.rest) || Blank(r.rest[0]))
    decreases |m|
  {
    hide *;
    CloseOrGoOn(m, cur);
    var rest := ScanToken(m, true, cur).rest;
    if m[0] == QUOTE {
      ps := [];
      NoPieces(cur, [QUOTE] + rest);
    } else {
      var p, next := FirstPiece(m, cur);
      var qs := FindPieces(next, cur + [p.c]);
      ps := [p] + qs;
      OnePiece(p, qs, cur, [QUOTE] + rest);
    }
  }

  lemma NoPieces(cur: seq<byte>, m: seq<byte>)
    ensures PiecesOk([]) && Texts([]) + m == m && cur + Denoted([]) == cur
  {
  }

  lemma OnePiece(p: Piece, qs: seq<Piece>, cur: seq<byte>, m: seq<byte>)
    requires PieceOk(p, Texts(qs) + [QUOTE]) && PiecesOk(qs)
    ensures PiecesOk([p] + qs) && Texts([p] + qs) + m == Text(p) + (Texts(qs) + m)
    ensures cur + [p.c] + Denoted(qs) == cur + Denoted([p] + qs)
  {
    hide PieceOk, Text, TwoDigits, Spells, Escape;
    var ps := [p] + qs;
    assert ps[1..] == qs && ps[0] == p;
    OneMore(p, qs, cur);
  }

  lemma OneMore(p: Piece, qs: seq<Piece>, cur: seq<byte>)
    ensures cur + [p.c] + Denoted(qs) == cur + Denoted([p] + qs)
  {
    assert Denoted([p] + qs) == [p.c] + Denoted(qs);
  }

  lemma CloseOrGoOn(m: seq<byte>, cur: seq<byte>)
    requires ScanToken(m, true, cur).Token?
    ensures m != []
    ensures m[0] == QUOTE ==>
      ScanToken(m, true, cur) == Token(cur, m[1..]) && m == [QUOTE] + m[1..] && (Ended(m[1..]) || Blank(m[1]))
  {
    hide HexDigitToInt, Unescape;
  }

  /** What the scanner reads from outside quotes on: bare bytes, then a quoted string, a separator or the end. */
  lemma {:induction false} FindBare(m: seq<byte>, cur: seq<byte>) returns (w: Word, sep: seq<byte>)
    requires ScanToken(m, false, cur).Token?
    ensures var r := ScanToken(m, false, cur);
      && m == Source(w) + (sep + r.rest) && r.bytes == cur + Value(w) && BareOk(w.bare)
      && (w.quoted.Some? ==> PiecesOk(w.quoted.value) && sep == [] && (Ended(r.rest) || Blank(r.rest[0])))
      && (w.quoted.None? ==> if sep == [] then Ended(r.rest) else |sep| == 1 && Separator(sep[0]))
    decreases |m|
  {
    hide *;
    OutsideQuotes(m, cur);
    var c := Peek(m, 0);
    var rest := ScanToken(m, false, cur).rest;
    if c == 0 || Separator(c) {
      w, sep := Word([], None), if c == 0 then [] else [c];
      NoWord(cur, sep + rest);
    } else if c == QUOTE {
      var ps := FindPieces(m[1..], cur);
      w, sep := Word([], Some(ps)), [];
      QuotedWord(ps, rest, cur);
    } else {
      var v;
      v, sep := FindBare(m[1..], cur + [c]);
      w := Word([c] + v.bare, v.quoted);
      LongerWord(c, v, cur, sep + rest);
    }
  }

  /** One step of the scanner outside quotes. */
  lemma OutsideQuotes(m: seq<byte>, cur: seq<byte>)
    requires ScanToken(m, false, cur).Token?
    ensures Peek(m, 0) == 0 ==> Ended(m) && ScanToken(m, false, cur) == Token(cur, m) && m == [] + m
    ensures Peek(m, 0) != 0 ==> m != [] && m == [Peek(m, 0)] + m[1..]
    ensures Separator(Peek(m, 0)) ==> Peek(m, 0) != 0 && ScanToken(m, false, cur) == Token(cur, m[1..])
    ensures Peek(m, 0) == QUOTE ==> ScanToken(m, false, cur) == ScanToken(m[1..], true, cur)
    ensures Peek(m, 0) !in {0, QUOTE} && !Separator(Peek(m, 0)) ==>
      ScanToken(m, false, cur) == ScanToken(m[1..], false, cur + [Peek(m, 0)])
    ensures !Separator(QUOTE)
  {
  }

  lemma NoWord(cur: seq<byte>, m: seq<byte>)
    ensures var w := Word([], None); Source(w) + m == m && cur + Value(w) == cur && BareOk(w.bare)
    ensures [] + m == m
  {
  }

  lemma QuotedWord(ps: seq<Piece>, rest: seq<byte>, cur: seq<byte>)
    ensures var w := Word([], Some(ps));
      && Source(w) + ([] + rest) == [QUOTE] + (Texts(ps) + ([QUOTE] + rest)) && Value(w) == Denoted(ps)
      && BareOk(w.bare)
  {
    hide Texts;
  }

  lemma LongerWord(c: byte, v: Word, cur: seq<byte>, m: seq<byte>)
    requires BareOk(v.bare) && c !in {0, QUOTE} && !Separator(c)
    ensures var w := Word([c] + v.bare, v.quoted);
      Source(w) + m == [c] + (Source(v) + m) && cur + [c] + Value(v) == cur + Value(w) && BareOk(w.bare)
  {
    hide Texts;
  }

  lemma {:induction false} LeadIsBlank(m: seq<byte>) returns (lead: seq<byte>)
    ensures Blanks(lead) && m == lead + SkipBlanks(m)
    ensures var p := SkipBlanks(m); p == [] || !Blank(p[0])
    decreases |m|
  {
    hide *;
    SkipOne(m);
    if m != [] && Blank(m[0]) {
      var l := LeadIsBlank(m[1..]);
      lead := [m[0]] + l;
      OneBlank(m[0], l, SkipBlanks(m));
    } else {
      lead := [];
      NoBlank(m);
    }
  }

  lemma SkipOne(m: seq<byte>)
    ensures m != [] && Blank(m[0]) ==> SkipBlanks(m) == SkipBlanks(m[1..]) && m == [m[0]] + m[1..]
    ensures m == [] || !Blank(m[0]) ==> SkipBlanks(m) == m
  {
  }

  lemma NoBlank(m: seq<byte>)
    ensures Blanks([]) && [] + m == m
  {
  }

  lemma OneBlank(c: byte, l: seq<byte>, m: seq<byte>)
    requires Blank(c) && Blanks(l)
    ensures Blanks([c] + l) && [c] + (l + m) == [c] + l + m
  {
    hide Blank;
  }

  /** A line that splits is a line of the grammar with words of these values. */
  lemma {:induction false} FindItems(line: seq<byte>) returns (lead: seq<byte>, items: seq<Item>, tail: seq<byte>)
    requires Split(line).Some?
    ensures IsLine(line, lead, items, tail) && Values(items) == Split(line).value
    ensures Ended(line) ==> items == []
    ensures line != [] && Blank(line[0]) ==> lead != []
    decreases |line|
  {
    hide *;
    lead := LeadIsBlank(line);
    var p := SkipBlanks(line);
    SplitSkips(line, p);
    SplitToken(p);
    SplitStarts(line, lead, p);
    if Peek(p, 0) == 0 {
      items, tail := [], p;
    } else {
      SplitGoesOn(p);
      var w, sep := FindBare(p, []);
      var rest := ScanToken(p, false, []).rest;
      NotEmpty(w, sep, rest, p);
      var lead', items', tail' := FindItems(rest);
      items, tail := [Item(w, sep + lead')] + items', tail';
      LineParts(rest, lead', items', tail');
      OneItem(w, sep, lead', items', tail');
      WholeLine(line, lead, items, tail);
    }
  }

  lemma SplitStarts(line: seq<byte>, lead: seq<byte>, p: seq<byte>)
    requires line == lead + p && Blanks(lead) && (p == [] || !Blank(p[0]))
    ensures Peek(p, 0) == 0 <==> Ended(p)
    ensures Ended(line) ==> lead == [] && Ended(p)
    ensures line != [] && Blank(line[0]) ==> lead != []
    ensures Ended(p) ==> IsLine(line, lead, [], p) && Values([]) == []
  {
    assert [] + p == p;
  }

  lemma SplitGoesOn(p: seq<byte>)
    requires SkipBlanks(p) == p && Peek(p, 0) != 0 && Split(p).Some?
    ensures var scan := ScanToken(p, false, []);
      scan.Token? && Split(scan.rest).Some? && Split(p).value == [scan.bytes] + Split(scan.rest).value
  {
    hide ScanToken, Split, SkipBlanks;
    SplitToken(p);
  }

  lemma WholeLine(line: seq<byte>, lead: seq<byte>, items: seq<Item>, tail: seq<byte>)
    requires Blanks(lead) && ItemsOk(items) && Ended(tail) && line == lead + (ItemsText(items) + tail)
    ensures IsLine(line, lead, items, tail)
  {
  }

  /** A word, what the scanner read behind it, and the line that follows. */
  lemma OneItem(w: Word, sep: seq<byte>, lead: seq<byte>, items: seq<Item>, tail: seq<byte>)
    requires WordOk(w) && Blanks(lead) && ItemsOk(items) && Ended(tail)
    requires var rest := lead + (ItemsText(items) + tail);
      && (Ended(rest) ==> items == []) && (rest != [] && Blank(rest[0]) ==> lead != [])
      && (w.quoted.Some? ==> sep == [] && (Ended(rest) || Blank(rest[0])))
      && (w.quoted.None? ==> if sep == [] then Ended(rest) else |sep| == 1 && Separator(sep[0]))
    ensures var all := [Item(w, sep + lead)] + items;
      && ItemsOk(all) && ItemsText(all) + tail == Source(w) + (sep + (lead + (ItemsText(items) + tail)))
      && Values(all) == [[] + Value(w)] + Values(items)
  {
    hide WordOk, Source, Value, Texts;
    var all := [Item(w, sep + lead)] + items;
    assert all[1..] == items;
    assert [] + Value(w) == Value(w);
    assert Source(w) + (sep + lead) + ItemsText(items) + tail == Source(w) + (sep + (lead + (ItemsText(items) + tail)));
    assert ItemOk(all[0], |all| == 1);
  }

  /** A word that starts where no blank and no end is, is not empty. */
  lemma NotEmpty(w: Word, sep: seq<byte>, rest: seq<byte>, p: seq<byte>)
    requires p == Source(w) + (sep + rest) && Peek(p, 0) != 0 && !Blank(p[0]) && BareOk(w.bare)
    requires w.quoted.Some? ==> PiecesOk(w.quoted.value)
    requires w.quoted.None? ==> if sep == [] then Ended(rest) else |sep| == 1 && Separator(sep[0])
    ensures WordOk(w) && |rest| < |p|
  {
    hide BareOk, PiecesOk, Texts;
  }

  /** sdssplitargs succeeds exactly on the lines of the grammar, and returns the values of the words. */
  lemma SplitMeans(line: seq<byte>, args: seq<seq<byte>>)
    ensures Split(line) == Some(args) <==>
      exists lead, items, tail :: IsLine(line, lead, items, tail) && Values(items) == args
  {
    hide Split, IsLine, Values;
    if Split(line) == Some(args) {
      var lead, items, tail := FindItems(line);
    }
    forall lead, items, tail | IsLine(line, lead, items, tail) ensures Split(line) == Some(Values(items)) {
      LineSplits(line, lead, items, tail);
    }
  }

  // ----- what the printer writes

  /** Every byte of the text is printable. */
  ghost predicate Visible(s: seq<byte>) {
    forall i :: 0 <= i < |s| ==> 32 <= s[i] <= 126
  }

  /** A byte other than the five truncated ones is printed as the shortest visible piece that denotes it, with digits in
      lower case; of the five only the backslash of their two-byte piece is printed. */
  lemma PrintsShortest(c: byte) returns (p: Piece)
    ensures PieceOk(p, [QUOTE]) && p.c == c && Visible(Text(p))
    ensures ReprByte(c) == if c in {7, 8, 9, 10, 13} then Text(p)[..1] else Text(p)
    ensures forall q: Piece, s :: PieceOk(q, s) && q.c == c && Visible(Text(q)) ==> |Text(p)| <= |Text(q)|
    ensures p.Hex? ==> p.hi == LOWER_DIGITS[c / 16] as int && p.lo == LOWER_DIGITS[c % 16] as int
  {
    hide TwoDigits;
    if c in {QUOTE, BACKSLASH} {
      p := Letter(c, c);
    } else if Truncated(c) {
      var l := if c == 10 then 110 else if c == 13 then 114 else if c == 9 then 116 else if c == 8 then 98 else 97;
      p := Letter(l, c);
    } else if IsPrint(c) {
      p := Plain(c);
    } else {
      p := Hex(HexDigit(c / 16), HexDigit(c % 16), c);
      LowerDigit(c / 16);
      LowerDigit(c % 16);
    }
    forall q: Piece, s | PieceOk(q, s) && q.c == c && Visible(Text(q)) ensures |Text(p)| <= |Text(q)| {
      match q
      case Plain(d) => assert Text(q)[0] == d;
      case Letter(l, _) => assert Text(q)[1] == l;
      case Hex(_, _, _) =>
    }
  }

  lemma LowerDigit(d: int)
    requires 0 <= d < 16
    ensures HexDigit(d) == LOWER_DIGITS[d] as int && 32 <= HexDigit(d) <= 126
  {
    assert d in {0, 1, 2, 3, 4, 5, 6, 7, 8, 9, 10, 11, 12, 13, 14, 15};
  }
}
