/** Zipmaps (zipmap.c): a map from strings to strings as one byte buffer, searched linearly and rewritten in place. */
module Zipmap {
  import opened Bytes
  import opened Options
  import opened Sequences

  const BIGLEN: byte := 254
  const END: byte := 255
  const VALUE_MAX_FREE := 4
  const U32_LIMIT := 0x1_0000_0000

  /** zipmapEncodeLength. */
  function LenBytes(n: nat): (s: seq<byte>)
    requires n < U32_LIMIT
    ensures |s| == LenSize(n) && s[0] <= BIGLEN
  {
    if n < 254 then [n] else [BIGLEN] + Le(n, 4)
  }

  /** ZIPMAP_LEN_BYTES. */
  function LenSize(n: nat): nat {
    if n < 254 then 1 else 5
  }

  predicate LenReadable(d: seq<byte>) {
    d != [] && (d[0] < BIGLEN || |d| >= 5)
  }

  /** zipmapDecodeLength. */
  function DecodeLength(d: seq<byte>): nat
    requires LenReadable(d)
  {
    if d[0] < BIGLEN then d[0] else FromLe(d[1..5])
  }

  lemma DecodeLenBytes(n: nat, rest: seq<byte>)
    requires n < U32_LIMIT
    ensures LenReadable(LenBytes(n) + rest) && DecodeLength(LenBytes(n) + rest) == n
  {
    PowersOf256();
    FromLeOfLe(n, 4);
    if n >= 254 {
      assert (LenBytes(n) + rest)[1..5] == Le(n, 4);
    }
  }

  /** The layout of a length: one byte below 254, or 254 and four bytes, low byte first. */
  lemma LenLayout(n: nat)
    requires n < U32_LIMIT
    ensures var s := LenBytes(n); if n < 254 then s == [n] else |s| == 5 && s[0] == 254 && FromLe(s[1..]) == n
  {
    PowersOf256();
    FromLeOfLe(n, 4);
    if n >= 254 {
      assert LenBytes(n)[1..] == Le(n, 4);
    }
  }

  /** A key, its value, and the unused bytes behind the value. */
  datatype Pair = Pair(key: seq<byte>, val: seq<byte>, slack: seq<byte>)

  predicate ValidPair(e: Pair) {
    |e.key| < U32_LIMIT && |e.val| < U32_LIMIT && |e.slack| < VALUE_MAX_FREE
  }

  /** What zipmapSet writes for a key and a value with a count of unused bytes. */
  function Written(key: seq<byte>, val: seq<byte>, free: byte): (s: seq<byte>)
    requires |key| < U32_LIMIT && |val| < U32_LIMIT
    ensures |s| == RequiredLength(|key|, |val|) && s[0] <= BIGLEN
  {
    LenBytes(|key|) + key + LenBytes(|val|) + [free] + val
  }

  /** zipmapRequiredLength. */
  function RequiredLength(klen: nat, vlen: nat): nat {
    klen + vlen + 3 + (if klen >= 254 then 4 else 0) + (if vlen >= 254 then 4 else 0)
  }

  function PairBytes(e: Pair): (s: seq<byte>)
    requires ValidPair(e)
    ensures |s| == RequiredLength(|e.key|, |e.val|) + |e.slack| && s[0] <= BIGLEN
  {
    Written(e.key, e.val, |e.slack|) + e.slack
  }

  predicate AllValid(es: seq<Pair>) {
    forall i :: 0 <= i < |es| ==> ValidPair(es[i])
  }

  function Flat(es: seq<Pair>): (s: seq<byte>)
    requires AllValid(es)
  {
    if es == [] then [] else PairBytes(es[0]) + Flat(es[1..])
  }

  lemma {:induction false} FlatConcat(a: seq<Pair>, b: seq<Pair>)
    requires AllValid(a) && AllValid(b)
    ensures Flat(a + b) == Flat(a) + Flat(b)
  {
    hide PairBytes;
    if a == [] {
      assert a + b == b;
    } else {
      assert (a + b)[1..] == a[1..] + b;
      FlatConcat(a[1..], b);
    }
  }

  lemma {:induction false} FlatOne(e: Pair)
    requires ValidPair(e)
    ensures Flat([e]) == PairBytes(e)
  {
    assert Flat([e]) == PairBytes(e) + [];
  }

  /** The bytes around the pair at position i. */
  lemma {:induction false} FlatAround(es: seq<Pair>, i: nat)
    requires AllValid(es) && i < |es|
    ensures Flat(es) == Flat(es[..i]) + PairBytes(es[i]) + Flat(es[i + 1..])
    ensures Flat(es[..i + 1]) == Flat(es[..i]) + PairBytes(es[i])
  {
    hide PairBytes, Flat;
    Around(es, i);
    FlatConcat(es[..i], [es[i]]);
    FlatConcat(es[..i + 1], es[i + 1..]);
    FlatOne(es[i]);
  }

  /** The whole buffer. */
  function Image(count: byte, es: seq<Pair>): seq<byte>
    requires AllValid(es)
  {
    [count] + Flat(es) + [END]
  }

  /** The example of the memory layout: "foo" => "bar" and "hello" => "world". */
  lemma {:induction false} LayoutExample()
    ensures var foo, bar := [102, 111, 111], [98, 97, 114];
      var hello, world := [104, 101, 108, 108, 111], [119, 111, 114, 108, 100];
      Image(2, [Pair(foo, bar, []), Pair(hello, world, [])])
        == [2] + [3] + foo + [3, 0] + bar + [5] + hello + [5, 0] + world + [255]
  {
    var a := Pair([102, 111, 111], [98, 97, 114], []);
    var b := Pair([104, 101, 108, 108, 111], [119, 111, 114, 108, 100], []);
    assert [a, b] == [a] + [b];
    FlatConcat([a], [b]);
    FlatOne(a);
    FlatOne(b);
    assert PairBytes(a) == [3] + a.key + [3, 0] + a.val;
    assert PairBytes(b) == [5] + b.key + [5, 0] + b.val;
  }

  /** The counter after one pair more or less: once it has reached 254 it stays. */
  function Counted(count: byte, change: int): int {
    if count < BIGLEN then count + change else count
  }

  /** How many of the bytes of an entry are unused after a rewriting that needs fewer: four or more are given up. */
  function Unused(have: nat, need: nat): nat {
    if need <= have < need + VALUE_MAX_FREE then have - need else 0
  }

  function OffsetOf(es: seq<Pair>, i: nat): nat
    requires AllValid(es) && i <= |es|
  {
    1 + |Flat(es[..i])|
  }

  predicate UniqueKeys(es: seq<Pair>) {
    forall i, j :: 0 <= i < j < |es| ==> es[i].key != es[j].key
  }

  /** The mapping. */
  function Map(es: seq<Pair>): map<seq<byte>, seq<byte>> {
    if es == [] then map[] else Map(es[..|es| - 1])[es[|es| - 1].key := es[|es| - 1].val]
  }

  lemma {:induction false} MapFrom(es: seq<Pair>, k: seq<byte>) returns (i: nat)
    requires k in Map(es)
    ensures i < |es| && es[i].key == k && Map(es)[k] == es[i].val
  {
    var n := |es| - 1;
    if es[n].key == k {
      i := n;
    } else {
      i := MapFrom(es[..n], k);
    }
  }

  lemma {:induction false} MapAt(es: seq<Pair>, i: nat)
    requires UniqueKeys(es) && i < |es|
    ensures es[i].key in Map(es) && Map(es)[es[i].key] == es[i].val
  {
    var n := |es| - 1;
    if i < n {
      MapAt(es[..n], i);
    }
  }

  lemma {:induction false} MapSize(es: seq<Pair>)
    requires UniqueKeys(es)
    ensures |Map(es)| == |es|
  {
    if es != [] {
      var n := |es| - 1;
      MapSize(es[..n]);
      if es[n].key in Map(es[..n]) {
        var i := MapFrom(es[..n], es[n].key);
      }
      assert Map(es).Keys == Map(es[..n]).Keys + {es[n].key};
    }
  }

  lemma {:induction false} MapChanged(es: seq<Pair>, i: nat, e: Pair)
    requires UniqueKeys(es) && i < |es| && e.key == es[i].key
    ensures UniqueKeys(es[i := e]) && Map(es[i := e]) == Map(es)[e.key := e.val]
  {
    hide Map;
    var es' := es[i := e];
    forall k | k in Map(es') ensures k in Map(es)[e.key := e.val] && Map(es')[k] == Map(es)[e.key := e.val][k] {
      var j := MapFrom(es', k);
      MapAt(es, j);
    }
    forall k | k in Map(es)[e.key := e.val] ensures k in Map(es') {
      var j := i;
      if k != e.key {
        j := MapFrom(es, k);
      }
      MapAt(es', j);
    }
  }

  lemma UniqueRemoved(es: seq<Pair>, i: nat)
    requires UniqueKeys(es) && i < |es|
    ensures UniqueKeys(RemoveAt(es, i))
  {
  }

  lemma {:induction false} MapRemoved(es: seq<Pair>, i: nat)
    requires UniqueKeys(es) && i < |es|
    ensures UniqueKeys(RemoveAt(es, i)) && Map(RemoveAt(es, i)) == Map(es) - {es[i].key}
  {
    UniqueRemoved(es, i);
    hide Map, RemoveAt, UniqueKeys;
    var r := RemoveAt(es, i);
    forall k | k in Map(r) ensures k in Map(es) && k != es[i].key && Map(r)[k] == Map(es)[k] {
      StillThere(es, i, k);
    }
    forall k | k in Map(es) && k != es[i].key ensures k in Map(r) {
      NotLost(es, i, k);
    }
  }

  lemma {:induction false} StillThere(es: seq<Pair>, i: nat, k: seq<byte>)
    requires UniqueKeys(es) && i < |es| && k in Map(RemoveAt(es, i))
    ensures k in Map(es) && k != es[i].key && Map(RemoveAt(es, i))[k] == Map(es)[k]
  {
    hide Map;
    var j := MapFrom(RemoveAt(es, i), k);
    MapAt(es, if j < i then j else j + 1);
  }

  lemma {:induction false} NotLost(es: seq<Pair>, i: nat, k: seq<byte>)
    requires UniqueKeys(es) && i < |es| && k in Map(es) && k != es[i].key
    ensures k in Map(RemoveAt(es, i))
  {
    hide Map;
    UniqueRemoved(es, i);
    var j := MapFrom(es, k);
    RemoveIs(es, i, if j < i then j else j - 1);
    MapAt(RemoveAt(es, i), if j < i then j else j - 1);
  }

  // ----- reading one entry

  /** What stands behind a key. */
  function ValueBytes(e: Pair, rest: seq<byte>): seq<byte>
    requires ValidPair(e)
  {
    LenBytes(|e.val|) + ([|e.slack|] + e.val + e.slack + rest)
  }

  lemma {:induction false} ValuePieces(e: Pair, rest: seq<byte>)
    requires ValidPair(e)
    ensures var d := ValueBytes(e, rest); var vl := LenSize(|e.val|);
      && LenReadable(d) && DecodeLength(d) == |e.val| && vl + 1 + |e.val| + |e.slack| <= |d|
      && d[vl] == |e.slack| && d[vl + 1..vl + 1 + |e.val|] == e.val && d[vl + 1 + |e.val| + |e.slack|..] == rest
  {
    hide LenBytes, DecodeLength, LenReadable;
    DecodeLenBytes(|e.val|, [|e.slack|] + e.val + e.slack + rest);
  }

  /** A buffer that continues with a pair: its key, and where the value is. */
  lemma {:induction false} PairPieces(e: Pair, rest: seq<byte>)
    requires ValidPair(e)
    ensures var d := PairBytes(e) + rest; var kl := LenSize(|e.key|);
      && LenReadable(d) && DecodeLength(d) == |e.key| && d[0] <= BIGLEN
      && kl + |e.key| <= |d| && d[kl..kl + |e.key|] == e.key && d[kl + |e.key|..] == ValueBytes(e, rest)
  {
    hide LenBytes, DecodeLength, LenReadable;
    var kb := LenBytes(|e.key|);
    var d, tail := PairBytes(e) + rest, ValueBytes(e, rest);
    assert d == kb + (e.key + tail);
    DecodeLenBytes(|e.key|, e.key + tail);
    assert d == (kb + e.key) + tail;
  }

  /** The buffer from the offset of position i on: a pair and what follows it, or the end mark. */
  lemma {:induction false} ImageAt(count: byte, es: seq<Pair>, i: nat)
    requires AllValid(es) && i <= |es|
    ensures var d := Image(count, es); var p := OffsetOf(es, i);
      && p < |d| && (d[p] == END <==> i == |es|)
      && (i == |es| ==> p + 1 == |d|)
      && (i < |es| ==>
        OffsetOf(es, i + 1) == p + |PairBytes(es[i])| < |d| && d[p..] == PairBytes(es[i]) + d[OffsetOf(es, i + 1)..])
  {
    hide PairBytes, Flat;
    var d := Image(count, es);
    if i < |es| {
      FlatAround(es, i);
      var a, b, c := [count] + Flat(es[..i]), PairBytes(es[i]), Flat(es[i + 1..]) + [END];
      assert d == a + b + c;
      assert d[|a|..] == b + c && d[|a| + |b|..] == c;
    } else {
      assert es[..i] == es;
    }
  }

  /** Another pair at position i: the bytes before and behind it stay. */
  lemma {:induction false} ImageReplaced(count: byte, es: seq<Pair>, i: nat, e: Pair)
    requires AllValid(es) && i < |es| && ValidPair(e)
    ensures var d := Image(count, es); var p := OffsetOf(es, i);
      && p + |PairBytes(es[i])| <= |d|
      && Image(count, es[i := e]) == d[..p] + PairBytes(e) + d[p + |PairBytes(es[i])|..]
  {
    hide PairBytes, Flat;
    var d, es' := Image(count, es), es[i := e];
    FlatAround(es, i);
    FlatAround(es', i);
    assert es'[..i] == es[..i] && es'[i + 1..] == es[i + 1..];
    var a, b, c := [count] + Flat(es[..i]), PairBytes(es[i]), Flat(es[i + 1..]) + [END];
    assert d == a + b + c;
    assert d[..|a|] == a && d[|a| + |b|..] == c;
    assert Image(count, es') == a + PairBytes(e) + c;
  }

  /** One pair less. */
  lemma {:induction false} ImageRemoved(count: byte, es: seq<Pair>, i: nat)
    requires AllValid(es) && i < |es|
    ensures AllValid(RemoveAt(es, i))
    ensures var d := Image(count, es); var p := OffsetOf(es, i);
      && p + |PairBytes(es[i])| <= |d|
      && Image(count, RemoveAt(es, i)) == d[..p] + d[p + |PairBytes(es[i])|..]
  {
    hide PairBytes, Flat;
    var d := Image(count, es);
    FlatAround(es, i);
    FlatConcat(es[..i], es[i + 1..]);
    var a, b, c := [count] + Flat(es[..i]), PairBytes(es[i]), Flat(es[i + 1..]) + [END];
    assert d == a + b + c;
    assert d[..|a|] == a && d[|a| + |b|..] == c;
    assert Image(count, RemoveAt(es, i)) == a + c;
  }

  /** One pair more, in front of the end mark. */
  lemma {:induction false} ImageAppended(count: byte, es: seq<Pair>, e: Pair)
    requires AllValid(es) && ValidPair(e)
    ensures var d := Image(count, es); Image(count, es + [e]) == d[..|d| - 1] + PairBytes(e) + [END]
  {
    hide PairBytes, Flat;
    FlatConcat(es, [e]);
    FlatOne(e);
    var d := Image(count, es);
    assert d[..|d| - 1] == [count] + Flat(es);
    assert Image(count, es + [e]) == [count] + Flat(es) + PairBytes(e) + [END];
  }

  lemma SliceOfTail(d: seq<byte>, p: nat, a: nat, b: nat)
    requires p <= |d| && a <= b <= |d| - p
    ensures d[p..][a..b] == d[p + a..p + b]
  {
  }

  /** The parts of an entry are found from its offset p by its lengths; the next entry starts at next. */
  ghost predicate Shows(d: seq<byte>, p: nat, e: Pair, next: nat) {
    var k := p + LenSize(|e.key|); var q := k + |e.key|; var v := q + LenSize(|e.val|) + 1;
    && v + |e.val| + |e.slack| == next < |d|
    && LenReadable(d[p..]) && DecodeLength(d[p..]) == |e.key| && d[k..q] == e.key
    && LenReadable(d[q..]) && DecodeLength(d[q..]) == |e.val| && d[v - 1] == |e.slack| && d[v..v + |e.val|] == e.val
  }

  lemma {:induction false} EntryAt(count: byte, es: seq<Pair>, i: nat)
    requires AllValid(es) && i < |es|
    ensures Shows(Image(count, es), OffsetOf(es, i), es[i], OffsetOf(es, i + 1))
  {
    hide Flat, PairBytes, OffsetOf, Image, Shows;
    ImageAt(count, es, i);
    ShowsPair(Image(count, es), OffsetOf(es, i), es[i], OffsetOf(es, i + 1));
  }

  lemma {:induction false} ShowsPair(d: seq<byte>, p: nat, e: Pair, next: nat)
    requires ValidPair(e) && next == p + |PairBytes(e)| < |d| && d[p..] == PairBytes(e) + d[next..]
    ensures Shows(d, p, e, next)
  {
    hide PairBytes, LenBytes, DecodeLength, LenReadable, ValueBytes;
    PairPieces(e, d[next..]);
    var k := p + LenSize(|e.key|);
    SliceOfTail(d, p, k - p, k - p + |e.key|);
    DropTwice(d, p, k - p + |e.key|);
    ShowsValue(d, k + |e.key|, e, next);
  }

  lemma {:induction false} ShowsValue(d: seq<byte>, q: nat, e: Pair, next: nat)
    requires ValidPair(e) && q <= |d| && next <= |d| && d[q..] == ValueBytes(e, d[next..])
    ensures var v := q + LenSize(|e.val|) + 1;
      && LenReadable(d[q..]) && DecodeLength(d[q..]) == |e.val|
      && v + |e.val| <= |d| && d[v - 1] == |e.slack| && d[v..v + |e.val|] == e.val
  {
    hide LenBytes, DecodeLength, LenReadable, ValueBytes;
    ValuePieces(e, d[next..]);
    var n := LenSize(|e.val|) + 1;
    SliceOfTail(d, q, n, n + |e.val|);
    assert d[q + n - 1] == d[q..][n - 1];
  }

  lemma DropTwice(d: seq<byte>, p: nat, n: nat)
    requires p + n <= |d|
    ensures d[p..][n..] == d[p + n..]
  {
  }

  lemma {:induction false} OffsetPositive(es: seq<Pair>, i: nat)
    requires AllValid(es) && i <= |es|
    ensures OffsetOf(es, i) > 0
  {
  }

  lemma PairIsWritten(e: Pair)
    requires ValidPair(e)
    ensures PairBytes(e) == Written(e.key, e.val, |e.slack|) + e.slack
  {
  }

  lemma SameKeys(es: seq<Pair>, i: nat, e: Pair)
    requires UniqueKeys(es) && i < |es| && e.key == es[i].key
    ensures UniqueKeys(es[i := e])
  {
  }

  lemma {:induction false} MapAppended(es: seq<Pair>, e: Pair)
    requires UniqueKeys(es) && e.key !in Map(es)
    ensures UniqueKeys(es + [e]) && Map(es + [e]) == Map(es)[e.key := e.val]
  {
    forall i | 0 <= i < |es| ensures es[i].key != e.key {
      MapAt(es, i);
    }
    assert (es + [e])[..|es|] == es;
  }

  /** A block w written at p leaves what is before and behind it; what is behind splits at r. */
  lemma BlockWritten(m: seq<byte>, m': seq<byte>, p: nat, w: seq<byte>, r: nat)
    requires |m'| == |m| && At(m', p, w) && p + |w| <= r <= |m|
    requires forall k :: 0 <= k < |m| && !(p <= k < p + |w|) ==> m'[k] == m[k]
    ensures m' == m[..p] + w + m[p + |w|..r] + m[r..]
  {
    AtSlice(m', p, w);
    var q := p + |w|;
    assert m'[..p] == m[..p];
    assert m'[q..r] == m[q..r];
    assert m'[r..] == m[r..];
    assert m' == m'[..p] + m'[p..q] + m'[q..r] + m'[r..];
  }

  /** An entry written over m, which is d with room for the entry and its slack in place of freelen bytes. */
  lemma {:induction false} Overwritten(d: seq<byte>, m: seq<byte>, m': seq<byte>, p: nat, freelen: nat, e: Pair)
    requires ValidPair(e) && p + freelen <= |d| && |m'| == |m| == |d| - freelen + |PairBytes(e)|
    requires m[..p] == d[..p] && m[p + |PairBytes(e)|..] == d[p + freelen..]
    requires At(m', p, Written(e.key, e.val, |e.slack|))
    requires m[p + |PairBytes(e)| - |e.slack|..p + |PairBytes(e)|] == e.slack
    requires forall k :: 0 <= k < |m| && !(p <= k < p + |PairBytes(e)| - |e.slack|) ==> m'[k] == m[k]
    ensures m' == d[..p] + PairBytes(e) + d[p + freelen..]
  {
    hide Written, PairBytes, At;
    var w := Written(e.key, e.val, |e.slack|);
    PairIsWritten(e);
    BlockWritten(m, m', p, w, p + |PairBytes(e)|);
    assert m' == d[..p] + w + e.slack + d[p + freelen..];
  }

  class Zipmap {
    var zm: array<byte>
    ghost var pairs: seq<Pair>

    /** The counter is the number of pairs unless it has reached 254. */
    ghost predicate Valid()
      reads this, zm
    {
      && AllValid(pairs) && UniqueKeys(pairs) && 2 <= zm.Length < U32_LIMIT / 2 && zm[..] == Image(zm[0], pairs)
      && zm[0] <= BIGLEN && (zm[0] < BIGLEN ==> zm[0] == |pairs|)
    }

    /** zipmapNew. */
    constructor ()
      ensures Valid() && pairs == [] && fresh(zm) && zm[..] == [0, 255]
    {
      zm := new byte[2];
      pairs := [];
      new;
      zm[0], zm[1] := 0, END;
      assert zm[..] == [0, END];
    }

    /** One turn of the loops over the entries: compare the key, and skip key and value. */
    method Skip(p: nat, key: seq<byte>, ghost i: nat) returns (same: bool, next: nat)
      requires Valid() && i < |pairs| && p == OffsetOf(pairs, i)
      ensures (same <==> pairs[i].key == key) && next == OffsetOf(pairs, i + 1) < zm.Length
    {
      hide Flat, DecodeLength, LenReadable, UniqueKeys, Image, OffsetOf;
      EntryAt(zm[0], pairs, i);
      ghost var d := zm[..];
      var l := DecodeLength(zm[p..]);
      var llen := LenSize(l);
      assert zm[p + llen..p + llen + l] == d[p + llen..p + llen + l];
      same := l == |key| && zm[p + llen..p + llen + l] == key;
      var q := p + llen + l;
      var vl := DecodeLength(zm[q..]);
      var v := q + LenSize(vl);
      var free := zm[v];
      next := v + (vl + 1 + free as int);
    }

    /** The buffer at the offset of a position: an entry, or the end mark as last byte. */
    lemma AtOffset(i: nat)
      requires Valid() && i <= |pairs|
      ensures AllValid(pairs)
      ensures var p := OffsetOf(pairs, i); p < zm.Length && (zm[p] == END <==> i == |pairs|) && (i == |pairs| ==>
        p + 1 == zm.Length)
    {
      hide Flat, PairBytes;
      ImageAt(zm[0], pairs, i);
    }

    lemma {:induction false} OffsetsStart()
      requires Valid()
      ensures OffsetOf(pairs, 0) == 1
    {
      assert pairs[..0] == [];
    }

    /** zipmapLookupRaw: the offset of the key's entry; the whole size is measured on demand. */
    method LookupRaw(key: seq<byte>, total: bool) returns (k: Option<nat>, totlen: nat, ghost at: nat)
      requires Valid()
      ensures k.Some? ==> at < |pairs| && pairs[at].key == key && k.value == OffsetOf(pairs, at)
      ensures k.None? ==> forall j :: 0 <= j < |pairs| ==> pairs[j].key != key
      ensures total ==> totlen == zm.Length
    {
      hide Valid, OffsetOf, Image, Flat, UniqueKeys;
      k, totlen, at := None, 0, 0;
      var p: nat := 1;
      ghost var i := 0;
      OffsetsStart();
      AtOffset(0);
      while zm[p] != END
        invariant i <= |pairs| && AllValid(pairs) && p == OffsetOf(pairs, i) < zm.Length
        invariant zm[p] == END <==> i == |pairs|
        invariant i == |pairs| ==> p + 1 == zm.Length
        invariant k.Some? ==> at < |pairs| && pairs[at].key == key && k.value == OffsetOf(pairs, at)
        invariant k.None? ==> forall j :: 0 <= j < i ==> pairs[j].key != key
        decreases |pairs| - i
      {
        var same, next := Skip(p, key, i);
        if k == None && same {
          at := i;
          k := Some(p);
          if !total {
            return;
          }
        }
        p, i := next, i + 1;
        AtOffset(i);
      }
      totlen := p + 1;
    }

    /** zipmapGet. */
    method Get(key: seq<byte>) returns (r: Option<seq<byte>>)
      requires Valid()
      ensures r == if key in Map(pairs) then Some(Map(pairs)[key]) else None
    {
      hide Map, OffsetOf, Flat;
      var k, totlen, i := LookupRaw(key, false);
      if k.None? {
        Missing(key);
        return None;
      }
      MapAt(pairs, i);
      var val := ValueOf(k.value, i);
      r := Some(val);
    }

    lemma Missing(key: seq<byte>)
      requires forall j :: 0 <= j < |pairs| ==> pairs[j].key != key
      ensures key !in Map(pairs)
    {
      hide Map;
      if key in Map(pairs) {
        var j := MapFrom(pairs, key);
      }
    }

    /** The value of the entry at an offset. */
    method ValueOf(p: nat, ghost i: nat) returns (val: seq<byte>)
      requires Valid() && i < |pairs| && p == OffsetOf(pairs, i)
      ensures val == pairs[i].val
    {
      hide Flat, DecodeLength, LenReadable, UniqueKeys, Image, OffsetOf;
      EntryAt(zm[0], pairs, i);
      var l := DecodeLength(zm[p..]);
      var q := p + LenSize(l) + l;
      var vl := DecodeLength(zm[q..]);
      var v := q + LenSize(vl) + 1;
      val := zm[v..v + vl];
    }

    /** zipmapLen: the number of keys, also when the counter is saturated; a small number is stored anew. */
    method Len() returns (len: nat)
      requires Valid()
      modifies zm
      ensures Valid() && zm == old(zm) && pairs == old(pairs) && len == |Map(pairs)|
      ensures zm[0] == if len < 254 then len else 254
    {
      MapSize(pairs);
      if zm[0] < BIGLEN {
        len := zm[0];
      } else {
        len := Count();
        if len < 254 {
          SetCount(len);
        }
      }
    }

    method Count() returns (len: nat)
      requires Valid()
      ensures len == |pairs|
    {
      hide Valid, OffsetOf, Image, Flat, UniqueKeys;
      var p: nat := 1;
      len := 0;
      OffsetsStart();
      AtOffset(0);
      while zm[p] != END
        invariant len <= |pairs| && AllValid(pairs) && p == OffsetOf(pairs, len) < zm.Length
        invariant zm[p] == END <==> len == |pairs|
        decreases |pairs| - len
      {
        var same;
        same, p := Skip(p, [], len);
        len := len + 1;
        AtOffset(len);
      }
    }

    /** Writing the counter leaves the entries. */
    method SetCount(count: byte)
      requires AllValid(pairs) && zm.Length >= 2 && zm[..] == Image(zm[0], pairs)
      modifies zm
      ensures zm[..] == Image(count, pairs) && zm[0] == count
    {
      hide Flat, PairBytes;
      ghost var d := zm[..];
      zm[0] := count;
      assert zm[..] == [count] + d[1..];
      assert d[1..] == Flat(pairs) + [END];
    }

    /** zipmapRawEntryLength. */
    method RawEntryLength(p: nat, ghost i: nat) returns (n: nat)
      requires Valid() && i < |pairs| && p == OffsetOf(pairs, i)
      ensures n == |PairBytes(pairs[i])| && p + n < zm.Length
    {
      hide Flat, PairBytes, UniqueKeys;
      var same, next := Skip(p, [], i);
      ImageAt(zm[0], pairs, i);
      n := next - p;
    }

    /** zipmapResize: the last byte becomes the end mark. */
    method Resize(len: nat)
      requires len > 0
      modifies `zm
      ensures fresh(zm) && zm.Length == len && zm[len - 1] == END
      ensures forall k :: 0 <= k < len - 1 && k < old(zm.Length) ==> zm[k] == old(zm[k])
    {
      zm := Realloc(zm, len);
      zm[len - 1] := END;
    }

    /** Cut n bytes out of the buffer at offset p. */
    method CloseGap(p: nat, n: nat)
      requires p + n < zm.Length && p > 0 && zm[zm.Length - 1] == END
      modifies this`zm, zm
      ensures fresh(zm) && zm[..] == old(zm[..p]) + old(zm[p + n..])
    {
      ghost var d := zm[..];
      Memmove(zm, p, p + n, zm.Length - (p + n + 1));
      ghost var z := d[p + n..|d| - 1];
      AtSlice(zm[..], p, z);
      ghost var e := zm[..];
      Resize(zm.Length - n);
      assert zm[..] == d[..p] + z + [END];
      assert d[p + n..] == z + [END];
    }

    /** zipmapDel. */
    method Del(key: seq<byte>) returns (deleted: bool, ghost at: nat)
      requires Valid()
      modifies this, zm
      ensures Valid() && (zm == old(zm) || fresh(zm))
      ensures Map(pairs) == old(Map(pairs)) - {key} && (deleted <==> key in old(Map(pairs)))
      ensures deleted ==> at < |old(pairs)| && old(pairs)[at].key == key && pairs == RemoveAt(old(pairs), at)
      ensures !deleted ==> pairs == old(pairs)
      ensures zm[0] == Counted(old(zm[0]), if deleted then -1 else 0)
    {
      hide Map, OffsetOf, Flat, PairBytes, UniqueKeys;
      var k, zmlen, i := LookupRaw(key, true);
      at := i;
      if k.None? {
        Missing(key);
        return false, at;
      }
      var freelen := RawEntryLength(k.value, i);
      MapAt(pairs, i);
      MapRemoved(pairs, i);
      DropEntry(k.value, freelen, i);
      deleted := true;
    }

    method DropEntry(p: nat, freelen: nat, ghost i: nat)
      requires Valid() && i < |pairs| && p == OffsetOf(pairs, i) && freelen == |PairBytes(pairs[i])|
      modifies this, zm
      ensures Valid() && fresh(zm) && pairs == RemoveAt(old(pairs), i) && zm[0] == Counted(old(zm[0]), -1)
    {
      hide Flat, PairBytes, UniqueKeys, RemoveAt;
      ImageRemoved(zm[0], pairs, i);
      UniqueRemoved(pairs, i);
      ImageAt(zm[0], pairs, |pairs|);
      ImageAt(zm[0], pairs, i);
      CloseGap(p, freelen);
      pairs := RemoveAt(pairs, i);
      if zm[0] < BIGLEN {
        SetCount(zm[0] - 1);
      }
    }

    /** zipmapSet. */
    method Set(key: seq<byte>, val: seq<byte>) returns (update: bool, ghost at: nat)
      requires Valid() && |key| < U32_LIMIT && |val| < U32_LIMIT
      requires zm.Length + RequiredLength(|key|, |val|) < U32_LIMIT / 2
      modifies this, zm
      ensures Valid() && (fresh(zm) || zm == old(zm))
      ensures Map(pairs) == old(Map(pairs))[key := val] && (update <==> key in old(Map(pairs)))
      ensures AllValid(old(pairs)) && (!update ==> pairs == old(pairs) + [Pair(key, val, [])])
      ensures update ==> at < |old(pairs)| && old(pairs)[at].key == key && Rewritten(old(pairs), at, key, val)
      ensures zm[0] == Counted(old(zm[0]), if update then 0 else 1)
    {
      hide Map, OffsetOf, Flat, PairBytes, UniqueKeys;
      var k, zmlen, i := LookupRaw(key, true);
      at := i;
      if k.None? {
        Missing(key);
        MapAppended(pairs, Pair(key, val, []));
        Append(key, val);
        return false, at;
      }
      var freelen := RawEntryLength(k.value, i);
      MapAt(pairs, i);
      ghost var es := pairs;
      ghost var slack := Rewrite(k.value, freelen, key, val, i);
      MapChanged(es, i, Pair(key, val, slack));
      update := true;
    }

    /** The entry holds the new value, and as much room as is worth keeping. */
    ghost predicate Rewritten(es: seq<Pair>, i: nat, key: seq<byte>, val: seq<byte>)
      requires AllValid(es)
      reads `pairs
    {
      && i < |es| == |pairs| && |key| < U32_LIMIT && |val| < U32_LIMIT
      && pairs == es[i := Pair(key, val, pairs[i].slack)]
      && |pairs[i].slack| == Unused(|PairBytes(es[i])|, RequiredLength(|key|, |val|))
    }

    /** The key is new: its entry takes the place of the end mark. */
    method Append(key: seq<byte>, val: seq<byte>)
      requires Valid() && |key| < U32_LIMIT && |val| < U32_LIMIT && UniqueKeys(pairs + [Pair(key, val, [])])
      requires zm.Length + RequiredLength(|key|, |val|) < U32_LIMIT / 2
      modifies this, zm
      ensures Valid() && fresh(zm) && pairs == old(pairs) + [Pair(key, val, [])] && zm[0] == Counted(old(zm[0]), 1)
    {
      hide Flat, PairBytes, UniqueKeys, Written;
      ghost var d, e := zm[..], Pair(key, val, []);
      ImageAppended(zm[0], pairs, e);
      PairIsWritten(e);
      var zmlen, reqlen := zm.Length, RequiredLength(|key|, |val|);
      Resize(zmlen + reqlen);
      var p := zmlen - 1;
      Store(zm, p, Written(key, val, 0));
      ghost var w := Written(key, val, 0);
      AtSlice(zm[..], p, w);
      assert zm[..] == d[..|d| - 1] + w + [END];
      pairs := pairs + [e];
      if zm[0] < BIGLEN {
        SetCount(zm[0] + 1);
      }
    }

    /** The key is there: the entry is rewritten in its place, after making room or closing the gap. */
    method Rewrite(p: nat, freelen: nat, key: seq<byte>, val: seq<byte>, ghost i: nat) returns (ghost slack: seq<byte>)
      requires Valid() && i < |pairs| && p == OffsetOf(pairs, i) && freelen == |PairBytes(pairs[i])|
        && key == pairs[i].key
      requires |val| < U32_LIMIT && |key| < U32_LIMIT && zm.Length + RequiredLength(|key|, |val|) < U32_LIMIT / 2
      modifies this, zm
      ensures Valid() && (fresh(zm) || zm == old(zm)) && |slack| == Unused(freelen, RequiredLength(|key|, |val|))
        && pairs == old(pairs)[i := Pair(key, val, slack)] && zm[0] == old(zm[0])
    {
      hide Flat, PairBytes, UniqueKeys, OffsetOf, Image, Valid;
      ValidParts();
      ImageAt(zm[0], pairs, i);
      LastByte();
      OffsetPositive(pairs, i);
      ghost var d := zm[..];
      slack := RewriteBytes(p, freelen, key, val);
      ghost var e := Pair(key, val, slack);
      ImageReplaced(d[0], pairs, i, e);
      SameKeys(pairs, i, e);
      pairs := pairs[i := e];
      assert d[..p][0] == d[0];
      assert zm[0] == d[0];
      ValidIntro();
    }

    lemma ValidParts()
      requires Valid()
      ensures AllValid(pairs) && UniqueKeys(pairs) && 2 <= zm.Length < U32_LIMIT / 2 && zm[..] == Image(zm[0], pairs)
      ensures zm[0] <= BIGLEN && (zm[0] < BIGLEN ==> zm[0] == |pairs|)
    {
    }

    lemma ValidIntro()
      requires AllValid(pairs) && UniqueKeys(pairs) && 2 <= zm.Length < U32_LIMIT / 2 && zm[..] == Image(zm[0], pairs)
      requires zm[0] <= BIGLEN && (zm[0] < BIGLEN ==> zm[0] == |pairs|)
      ensures Valid()
    {
    }

    lemma LastByte()
      requires Valid()
      ensures zm[zm.Length - 1] == END
    {
    }

    /** The bytes of an entry are replaced. */
    method RewriteBytes(p: nat, freelen: nat, key: seq<byte>, val: seq<byte>) returns (ghost slack: seq<byte>)
      requires 0 < p && p + freelen < zm.Length && zm[zm.Length - 1] == END && |val| < U32_LIMIT && |key| < U32_LIMIT
      modifies `zm, zm
      ensures (fresh(zm) || zm == old(zm)) && |slack| == Unused(freelen, RequiredLength(|key|, |val|))
      ensures zm[..] == old(zm[..p]) + PairBytes(Pair(key, val, slack)) + old(zm[p + freelen..])
    {
      hide PairBytes, Written;
      ghost var d := zm[..];
      var reqlen := RequiredLength(|key|, |val|);
      var vempty := MakeRoom(p, freelen, reqlen);
      ghost var m := zm[..];
      slack := m[p + reqlen..p + reqlen + vempty];
      Store(zm, p, Written(key, val, vempty));
      Overwritten(d, m, zm[..], p, freelen, Pair(key, val, slack));
    }

    /** The memory moves of zipmapSet around an entry of freelen bytes that needs reqlen. */
    method MakeRoom(p: nat, freelen: nat, reqlen: nat) returns (vempty: nat)
      requires 0 < p && p + freelen < zm.Length && 0 < reqlen && zm[zm.Length - 1] == END
      modifies `zm, zm
      ensures (fresh(zm) || zm == old(zm)) && vempty == Unused(freelen, reqlen)
      ensures zm.Length == old(zm.Length) - freelen + reqlen + vempty
      ensures zm[..p] == old(zm[..p]) && zm[p + reqlen + vempty..] == old(zm[p + freelen..])
    {
      if freelen < reqlen {
        WidenGap(p, freelen, reqlen);
        return 0;
      }
      var empty := freelen - reqlen;
      if empty >= VALUE_MAX_FREE {
        CloseGap(p + reqlen, empty);
        assert zm[..p] == old(zm[..p + reqlen])[..p];
        assert zm[p + reqlen..] == old(zm[p + freelen..]);
        return 0;
      }
      return empty;
    }

    /** The tail moves back, after the buffer has grown. */
    method WidenGap(p: nat, freelen: nat, reqlen: nat)
      requires 0 < p && p + freelen < zm.Length && freelen < reqlen && zm[zm.Length - 1] == END
      modifies `zm
      ensures fresh(zm) && zm.Length == old(zm.Length) - freelen + reqlen
      ensures zm[..p] == old(zm[..p]) && zm[p + reqlen..] == old(zm[p + freelen..])
    {
      ghost var d := zm[..];
      var zmlen := zm.Length;
      ghost var z := d[p + freelen..|d| - 1];
      assert d[p + freelen..] == z + [END];
      Resize(zmlen - freelen + reqlen);
      assert zm[p + freelen..p + freelen + (zmlen - (p + freelen + 1))] == z;
      Memmove(zm, p + reqlen, p + freelen, zmlen - (p + freelen + 1));
      AtSlice(zm[..], p + reqlen, z);
      assert zm[p + reqlen..] == z + [END];
    }
  }
}
