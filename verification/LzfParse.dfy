/** How lzf_compress (lzf_c.c) parses its input: at which positions it emits a reference, to which earlier position, and
    of which length; and what this means for an input of one repeated byte. */
module LzfParse {
  import opened Bytes
  import opened LzfFormat

  const HSIZE := 0x1_0000

  /** FRST, NEXT and IDX on 32-bit unsigned values. */
  function Frst(inp: seq<byte>, p: nat): int
    requires p + 1 < |inp|
  {
    inp[p] * 256 + inp[p + 1] as int
  }

  function Next(h: int, inp: seq<byte>, p: nat): int
    requires p + 2 < |inp|
  {
    h * 256 % 0x1_0000_0000 + inp[p + 2]
  }

  function Idx(h: int): (i: nat)
    ensures i < HSIZE
  {
    (h / 256 - h * 5) % HSIZE
  }

  function Triple(a: int, b: int, c: int): int {
    a * 0x1_0000 + b * 256 + c
  }

  /** The slot of the three bytes at a position; -1 where there are no three bytes. */
  function Slot(inp: seq<byte>, p: int): int {
    if 0 <= p && p + 2 < |inp| then Idx(Triple(inp[p], inp[p + 1], inp[p + 2])) else -1
  }

  /** The value that FRST and NEXT roll over the input: its low two bytes are the two at p. */
  predicate Rolled(h: int, inp: seq<byte>, p: nat) {
    p + 1 < |inp| && 0 <= h && h % 0x1_0000 == inp[p] * 256 + inp[p + 1] as int
  }

  lemma RolledFirst(inp: seq<byte>, p: nat)
    requires p + 1 < |inp|
    ensures Rolled(Frst(inp, p), inp, p)
  {
  }

  lemma RolledNext(h: int, inp: seq<byte>, p: nat)
    requires Rolled(h, inp, p) && p + 2 < |inp|
    ensures Rolled(Next(h, inp, p), inp, p + 1) && Idx(Next(h, inp, p)) == Slot(inp, p)
  {
    hide Idx;
    var k: int, a := inp[p] * 256 + inp[p + 1] as int, h / 0x1_0000;
    Rolls(h, k, a, inp[p + 2]);
    IdxLow(a % 256, 256 * k + inp[p + 2]);
  }

  lemma Rolls(h: nat, k: int, a: nat, c: byte)
    requires h == 0x1_0000 * a + k && 0 <= k < 0x1_0000
    ensures h * 256 % 0x1_0000_0000 == 0x100_0000 * (a % 256) + 256 * k
    ensures (0x100_0000 * (a % 256) + 256 * k + c) % 0x1_0000 == k % 256 * 256 + c
  {
    var b := a / 256;
    assert h * 256 == 0x1_0000_0000 * b + (0x100_0000 * (a % 256) + 256 * k);
    assert 0x100_0000 * (a % 256) + 256 * k + c == 0x1_0000 * (256 * (a % 256) + k / 256) + (k % 256 * 256 + c);
  }

  lemma Shifted(x: int, m: int)
    ensures (x + HSIZE * m) % HSIZE == x % HSIZE
  {
  }

  /** The slot depends on the last three bytes only. */
  lemma IdxLow(a: nat, k: nat)
    ensures Idx(0x100_0000 * a + k) == Idx(k)
  {
    var h := 0x100_0000 * a + k;
    assert h / 256 == HSIZE * a + k / 256;
    assert h / 256 - h * 5 == k / 256 - k * 5 + HSIZE * (a - 1280 * a);
    Shifted(k / 256 - k * 5, a - 1280 * a);
  }

  lemma Spread(a: byte, b: byte, c: byte)
    ensures Idx(Triple(a, b, c)) == (a as int * 256 - 1279 * b as int - 5 * c as int) % HSIZE
  {
    var h := Triple(a, b, c);
    assert h / 256 == a as int * 256 + b as int;
    Shifted(a as int * 256 - 1279 * b as int - 5 * c as int, -5 * a as int);
  }

  lemma SameResidue(x: int, y: int) returns (m: int)
    requires x % HSIZE == y % HSIZE
    ensures x - y == HSIZE * m
  {
    m := x / HSIZE - y / HSIZE;
  }

  /** Two triples of bytes that differ in one byte have different slots. */
  lemma SlotsApart(a: byte, b: byte, c: byte, a': byte, b': byte, c': byte)
    requires Idx(Triple(a, b, c)) == Idx(Triple(a', b', c'))
    ensures b == b' && c == c' ==> a == a'
    ensures a == a' && c == c' ==> b == b'
    ensures a == a' && b == b' ==> c == c'
  {
    hide Idx, Triple;
    Spread(a, b, c);
    Spread(a', b', c');
    var x, y := a as int * 256 - 1279 * b as int - 5 * c as int, a' as int * 256 - 1279 * b' as int - 5 * c' as int;
    var m := SameResidue(x, y);
    Multiple(a as int - a' as int, b' as int - b as int, c' as int - c as int, m);
  }

  lemma Multiple(a: int, b: int, c: int, m: int)
    requires -256 < a < 256 && -256 < b < 256 && -256 < c < 256 && 256 * a + 1279 * b + 5 * c == HSIZE * m
    ensures b == 0 && c == 0 ==> a == 0
    ensures a == 0 && c == 0 ==> b == 0
    ensures a == 0 && b == 0 ==> c == 0
  {
    if a == 0 && c == 0 {
      assert b == HSIZE * (64255 * m - 1254 * b);
    }
  }

  // ----- the parse

  /** One step: a literal byte, or a match with an earlier position. */
  datatype Step = Lit | Match(ref: nat, len: nat)

  function Len(s: Step): nat {
    match s
    case Lit => 1
    case Match(_, len) => len
  }

  /** The input position after some steps. */
  function Pos(steps: seq<Step>): nat {
    if steps == [] then 0 else Pos(steps[..|steps| - 1]) + Len(steps[|steps| - 1])
  }

  /** The positions entered into the hash table: where a step starts, and the last two of a match. */
  ghost function Visited(inp: seq<byte>, steps: seq<Step>): set<int> {
    if steps == [] then {} else
      var before, s := steps[..|steps| - 1], steps[|steps| - 1];
      Visited(inp, before) + Enters(inp, Pos(before), s)
  }

  ghost function Enters(inp: seq<byte>, p: int, s: Step): set<int> {
    var q := p + Len(s);
    (if p + 2 < |inp| then {p} else {}) + if s.Match? && q + 2 < |inp| then {q - 2, q - 1} else {}
  }

  /** What slot i holds: the latest visited position of that slot, or the first content when there is none. */
  ghost predicate Holds(inp: seq<byte>, first: seq<int>, vis: set<int>, i: int, r: int) {
    if exists q :: q in vis && Slot(inp, q) == i then
      r in vis && Slot(inp, r) == i && forall q :: q in vis && Slot(inp, q) == i ==> q <= r
    else 0 <= i < |first| && r == first[i]
  }

  ghost predicate Tabled(inp: seq<byte>, first: seq<int>, vis: set<int>, tab: seq<int>) {
    |tab| == |first| == HSIZE && forall i :: 0 <= i < HSIZE ==> Holds(inp, first, vis, i, tab[i])
  }

  lemma TabledFirst(inp: seq<byte>, first: seq<int>)
    requires |first| == HSIZE
    ensures Tabled(inp, first, {}, first)
  {
  }

  lemma TabledStore(inp: seq<byte>, first: seq<int>, vis: set<int>, tab: seq<int>, p: nat)
    requires Tabled(inp, first, vis, tab) && p + 2 < |inp| && forall q :: q in vis ==> q < p
    ensures Slot(inp, p) < HSIZE && Tabled(inp, first, vis + {p}, tab[Slot(inp, p) := p])
  {
    hide Idx;
    var tab' := tab[Slot(inp, p) := p];
    forall i | 0 <= i < HSIZE ensures Holds(inp, first, vis + {p}, i, tab'[i]) {
      assert Holds(inp, first, vis, i, tab[i]);
      if i == Slot(inp, p) {
        assert p in vis + {p};
      }
    }
  }

  /** A reference to r is possible at p: not to the first byte, at most 8192 bytes back, with four bytes behind p and
      three equal bytes. */
  ghost predicate Matches(inp: seq<byte>, p: nat, r: int) {
    && 0 < r < p && p - r <= 8192 && p + 4 < |inp|
    && inp[r] == inp[p] && inp[r + 1] == inp[p + 1] && inp[r + 2] == inp[p + 2]
  }

  /** The greatest length a match at p may have: two bytes less than what is left, up to 264; but 19 where seventeen or
      eighteen would be, since the unrolled comparisons take no account of the limit. */
  function Cap(n: int): int {
    if n - 2 > 264 then 264 else if 16 < n - 2 < 19 then 19 else n - 2
  }

  /** A match of all the bytes up to the first difference or the greatest length. */
  ghost predicate Longest(inp: seq<byte>, r: nat, p: nat, len: nat) {
    && r < p && 3 <= len <= Cap(|inp| - p) && p + len <= |inp|
    && (forall j :: p <= j < p + len ==> inp[j] == inp[j - (p - r)])
    && (len == Cap(|inp| - p) || (p + len < |inp| && inp[r + len] != inp[p + len]))
  }

  ghost predicate StepFor(inp: seq<byte>, p: nat, r: int, s: Step) {
    if Matches(inp, p, r) then s.Match? && s.ref == r && Longest(inp, r, p, s.len) else s.Lit?
  }

  /** A match is made exactly when the position held by the slot allows one. */
  ghost predicate StepOk(inp: seq<byte>, first: seq<int>, vis: set<int>, p: nat, s: Step) {
    && p < |inp|
    && if p + 2 >= |inp| then s.Lit? else
         exists r :: Holds(inp, first, vis, Slot(inp, p), r) && StepFor(inp, p, r, s)
  }

  ghost predicate Traced(inp: seq<byte>, first: seq<int>, steps: seq<Step>) {
    steps == [] ||
      var before := steps[..|steps| - 1];
      Traced(inp, first, before) && StepOk(inp, first, Visited(inp, before), Pos(before), steps[|steps| - 1])
  }

  // ----- the tokens of a parse

  /** The tokens emitted, and the length of the open literal run. */
  datatype Parse = Parse(ts: seq<Token>, lit: nat)

  function Run(inp: seq<byte>, p: int, lit: nat): seq<byte> {
    if lit <= p <= |inp| then inp[p - lit..p] else []
  }

  /** The open run becomes a token, unless it is empty. */
  function Closed(inp: seq<byte>, p: int, ps: Parse): seq<Token> {
    if ps.lit == 0 then ps.ts else ps.ts + [Literal(Run(inp, p, ps.lit))]
  }

  /** The parse after one more step at p; a run of 32 literal bytes is closed. */
  function After(inp: seq<byte>, p: nat, ps: Parse, s: Step): Parse {
    match s
    case Lit =>
      var more := Parse(ps.ts, ps.lit + 1);
      if more.lit == MAX_LIT then Parse(Closed(inp, p + 1, more), 0) else more
    case Match(ref, len) => Parse(Closed(inp, p, ps) + [BackRef(if ref < p then p - ref - 1 else 0, len)], 0)
  }

  function ParseOf(inp: seq<byte>, steps: seq<Step>): Parse {
    if steps == [] then Parse([], 0) else
      var before := steps[..|steps| - 1];
      After(inp, Pos(before), ParseOf(inp, before), steps[|steps| - 1])
  }

  /** The bytes of some tokens. */
  function Size(ts: seq<Token>): nat {
    if ts == [] then 0 else
      Size(ts[..|ts| - 1]) + match ts[|ts| - 1]
        case Literal(bytes) => 1 + |bytes|
        case BackRef(_, len) => if len < 9 then 2 else 3
  }

  /** The bytes taken by the tokens of a parse and its open run, with the header byte of the run. */
  function Used(inp: seq<byte>, steps: seq<Step>): nat {
    var ps := ParseOf(inp, steps);
    Size(ps.ts) + ps.lit + 1
  }

  /** One step more. */
  lemma TraceStep(inp: seq<byte>, first: seq<int>, steps: seq<Step>, s: Step)
    ensures var p, all := Pos(steps), steps + [s];
      && Pos(all) == p + Len(s) && Visited(inp, all) == Visited(inp, steps) + Enters(inp, p, s)
      && ParseOf(inp, all) == After(inp, p, ParseOf(inp, steps), s)
      && (Traced(inp, first, steps) && StepOk(inp, first, Visited(inp, steps), p, s) ==> Traced(inp, first, all))
  {
    hide StepOk, Enters, After;
    assert (steps + [s])[..|steps|] == steps;
  }

  // ----- the positions in the hash table

  lemma StepFits(inp: seq<byte>, first: seq<int>, vis: set<int>, p: nat, s: Step)
    requires StepOk(inp, first, vis, p, s)
    ensures p + Len(s) <= |inp| && (s.Match? ==> s.len >= 3 && p + 2 < |inp|)
  {
    hide Holds, Matches;
  }

  lemma {:induction false} VisitedBefore(inp: seq<byte>, first: seq<int>, steps: seq<Step>)
    requires Traced(inp, first, steps)
    ensures Pos(steps) <= |inp| && forall q :: q in Visited(inp, steps) ==> 0 <= q < Pos(steps)
    ensures Pos(steps) > 0 && Pos(steps) + 2 < |inp| ==> Pos(steps) - 1 in Visited(inp, steps)
    decreases |steps|
  {
    hide StepOk;
    if steps != [] {
      var before := steps[..|steps| - 1];
      VisitedBefore(inp, first, before);
      StepFits(inp, first, Visited(inp, before), Pos(before), steps[|steps| - 1]);
    }
  }

  // ----- an input of one repeated byte

  predicate Repeats(inp: seq<byte>) {
    forall k :: 0 <= k < |inp| ==> inp[k] == inp[0]
  }

  /** The number of matches. */
  function Matched(steps: seq<Step>): nat {
    if steps == [] then 0 else Matched(steps[..|steps| - 1]) + if steps[|steps| - 1].Match? then 1 else 0
  }

  /** At most two literals, then matches of 264 bytes until at most four bytes are left. */
  ghost predicate Packed(n: nat, p: nat, k: nat, size: nat, lit: nat) {
    if k == 0 then size == 0 && lit == p && (p <= 2 || n < 7)
    else p >= 264 * (k - 1) + 5 && size <= 3 * k + 3 && ((p == 264 * k + 2 && lit == 0) || n - p + lit <= 4)
  }

  lemma {:induction false} RepeatedParse(inp: seq<byte>, first: seq<int>, steps: seq<Step>)
    requires Repeats(inp) && Traced(inp, first, steps)
    ensures var ps := ParseOf(inp, steps); Packed(|inp|, Pos(steps), Matched(steps), Size(ps.ts), ps.lit)
    decreases |steps|
  {
    hide Traced, Holds, StepOk, Packed, Visited;
    if steps == [] {
      PackedFirst(|inp|);
    } else {
      var before, s := steps[..|steps| - 1], steps[|steps| - 1];
      TracedParts(inp, first, steps);
      RepeatedParse(inp, first, before);
      RepeatedStep(inp, first, before, s);
    }
  }

  lemma PackedFirst(n: nat)
    ensures Packed(n, 0, 0, 0, 0)
  {
  }

  lemma TracedParts(inp: seq<byte>, first: seq<int>, steps: seq<Step>)
    requires Traced(inp, first, steps) && steps != []
    ensures Traced(inp, first, steps[..|steps| - 1])
    ensures var before := steps[..|steps| - 1];
      StepOk(inp, first, Visited(inp, before), Pos(before), steps[|steps| - 1])
  {
  }

  /** With one repeated byte the slot of every position is the same, and holds the position before. */
  lemma RepeatedChoice(inp: seq<byte>, first: seq<int>, steps: seq<Step>, s: Step)
    requires Repeats(inp) && Traced(inp, first, steps) && StepOk(inp, first, Visited(inp, steps), Pos(steps), s)
    ensures Pos(steps) < |inp|
    ensures var p, n := Pos(steps), |inp|;
      if p < 2 || p + 4 >= n then s.Lit? else s.Match? && s.len == Cap(n - p) && p + s.len <= n
  {
    hide Idx;
    var p, vis := Pos(steps), Visited(inp, steps);
    VisitedBefore(inp, first, steps);
    if p + 2 < |inp| {
      var r :| Holds(inp, first, vis, Slot(inp, p), r) && StepFor(inp, p, r, s);
      if p > 0 {
        assert Slot(inp, p - 1) == Slot(inp, p) && p - 1 in vis;
        assert r == p - 1;
      }
    }
  }

  lemma RepeatedStep(inp: seq<byte>, first: seq<int>, before: seq<Step>, s: Step)
    requires Repeats(inp) && Traced(inp, first, before) && StepOk(inp, first, Visited(inp, before), Pos(before), s)
    requires var ps := ParseOf(inp, before); Packed(|inp|, Pos(before), Matched(before), Size(ps.ts), ps.lit)
    ensures var k := Matched(before) + if s.Match? then 1 else 0;
      var ps := After(inp, Pos(before), ParseOf(inp, before), s);
      Packed(|inp|, Pos(before) + Len(s), k, Size(ps.ts), ps.lit)
  {
    hide Traced, Holds, StepOk, Visited, Matched, Pos, ParseOf, Size;
    RepeatedChoice(inp, first, before, s);
    var p, ps := Pos(before), ParseOf(inp, before);
    if s.Match? {
      SizeClosed(inp, p, ps);
      SizeSnoc(Closed(inp, p, ps), BackRef(if s.ref < p then p - s.ref - 1 else 0, s.len));
    }
  }

  lemma SizeSnoc(ts: seq<Token>, t: Token)
    ensures Size(ts + [t]) == Size(ts) + match t
      case Literal(bytes) => 1 + |bytes|
      case BackRef(_, len) => if len < 9 then 2 else 3
  {
    assert (ts + [t])[..|ts|] == ts;
  }

  lemma SizeClosed(inp: seq<byte>, p: int, ps: Parse)
    ensures Size(Closed(inp, p, ps)) <= Size(ps.ts) + if ps.lit == 0 then 0 else 1 + ps.lit
  {
    if ps.lit != 0 {
      SizeSnoc(ps.ts, Literal(Run(inp, p, ps.lit)));
    }
  }

  /** Whatever the hash table held before, an input of one repeated byte takes three bytes for every 264, and eleven
      more. */
  lemma RepeatedSize(inp: seq<byte>, first: seq<int>, steps: seq<Step>)
    requires Repeats(inp) && Traced(inp, first, steps)
    ensures Used(inp, steps) <= 3 * (|inp| / 264) + 11
  {
    hide Traced, ParseOf, Matched;
    RepeatedParse(inp, first, steps);
    PosInside(inp, first, steps);
  }

  lemma PosInside(inp: seq<byte>, first: seq<int>, steps: seq<Step>)
    requires Traced(inp, first, steps)
    ensures Pos(steps) <= |inp|
  {
    VisitedBefore(inp, first, steps);
  }
}
