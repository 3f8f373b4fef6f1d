/** Insertions that narrow the back-length field behind them (ziplist.c:521-532): __ziplistInsert resizes the buffer
    before it moves the tail, and the last byte of the last entry can be lost. What is left, and when it is the same. */
module ZiplistMisfit {
  import opened Bytes
  import opened Decimal
  import opened ZiplistFormat
  import opened ZiplistEntries
  import opened ZiplistLayout

  /** The bytes z in front of the end marker after a resize by grow bytes: a buffer that loses one byte ends in
      the new end marker. */
  function AfterResize(z: seq<byte>, grow: int): (r: seq<byte>)
    requires z != []
    ensures |r| == |z|
  {
    if grow >= 0 then z else z[..|z| - 1] + [ZIP_END]
  }

  lemma KeptByResize(d: seq<byte>, r: seq<byte>, p: nat, z: seq<byte>, grow: int)
    requires 4 <= p && At(d, p, z) && z != [] && p + |z| + 1 == |d| && grow >= -1 && |r| == |d| + grow
    requires r[|r| - 1] == ZIP_END && forall k :: 4 <= k < |r| - 1 && k < |d| ==> r[k] == d[k]
    ensures At(r, p, AfterResize(z, grow))
    ensures AfterResize(z, grow) == z <==> TailSurvives(d, grow)
  {
    AtSlice(d, p, z);
    assert d[|d| - 2] == z[|z| - 1];
    assert r[p..p + |z| - 1] == d[p..p + |z| - 1] == z[..|z| - 1];
    assert z == z[..|z| - 1] + [z[|z| - 1]];
    assert r[p..p + |z|] == r[p..p + |z| - 1] + [r[p + |z| - 1]];
  }

  lemma OneBlock(d: seq<byte>, p: nat, y: seq<byte>, z: seq<byte>)
    requires At(d, p, y) && |y| == |z|
    ensures At(d, p, z) <==> y == z
  {
  }

  // ----- entries whose last byte is lost

  /** A body with a payload behind its header; only the body of the empty string has none. */
  predicate HasPayload(b: seq<byte>) {
    ValidBody(b) && DecodeLength(b).0 < |b|
  }

  /** The entries es after a resize by grow bytes. */
  function Clip(es: seq<Entry>, grow: int): (c: seq<Entry>)
    requires AllValid(es)
    ensures |c| == |es|
  {
    if grow >= 0 || es == [] then es
    else
      var e := es[|es| - 1];
      es[|es| - 1 := Entry(e.prevsize, e.prevlen, if e.body == [] then [] else AfterResize(e.body, grow))]
  }

  predicate Clippable(es: seq<Entry>, grow: int) {
    grow >= 0 || (grow == -1 && es != [] && HasPayload(es[|es| - 1].body))
  }

  lemma ClippedBody(b: seq<byte>, grow: int)
    requires HasPayload(b)
    ensures HasPayload(AfterResize(b, grow)) && EntryEncoding(AfterResize(b, grow)) == EntryEncoding(b)
    ensures DecodeLength(AfterResize(b, grow)) == DecodeLength(b)
  {
  }

  lemma ClipEntries(es: seq<Entry>, grow: int)
    requires AllValid(es) && Clippable(es, grow)
    ensures var c := Clip(es, grow);
      && AllValid(c)
      && (forall k :: 0 <= k < |es| ==> c[k].prevsize == es[k].prevsize && c[k].prevlen == es[k].prevlen
                                        && |c[k].body| == |es[k].body|)
      && (forall k :: 0 <= k < |es| - 1 ==> c[k] == es[k])
    ensures grow < 0 ==> es != [] && es[|es| - 1].body != []
    ensures grow < 0 ==> Clip(es, grow)[|es| - 1].body == AfterResize(es[|es| - 1].body, grow)
    ensures WellLinked(es) ==> WellLinked(Clip(es, grow))
  {
    hide ValidBody;
    if grow < 0 {
      var e := es[|es| - 1];
      ClippedBody(e.body, grow);
    }
  }

  /** Clipping changes no offset. */
  lemma ClipOffsets(es: seq<Entry>, grow: int, i: nat, base: int)
    requires AllValid(es) && Clippable(es, grow) && i < |es|
    ensures AllValid(Clip(es, grow)) && OffsetOf(base, Clip(es, grow), i) == OffsetOf(base, es, i)
    ensures LastOffset(base, Clip(es, grow)) == LastOffset(base, es) && |Flat(Clip(es, grow))| == |Flat(es)|
    ensures Clip(es, grow)[..i] == es[..i]
  {
    hide Flat, ValidEntry, HasPayload;
    ClipEntries(es, grow);
    var c, n := Clip(es, grow), |es| - 1;
    assert c[..i] == es[..i] && c[..n] == es[..n];
    if grow < 0 {
      FlatUpdate(es, n, c[n]);
    }
  }

  lemma AfterConcat(a: seq<byte>, z: seq<byte>, grow: int)
    requires z != []
    ensures AfterResize(a + z, grow) == a + AfterResize(z, grow)
  {
  }

  lemma {:induction false} LastBody(es: seq<Entry>)
    requires AllValid(es) && es != []
    ensures var n := |es| - 1; var e := es[n];
      Flat(es) == Flat(es[..n]) + PrevField(e.prevsize, e.prevlen) + e.body
  {
    hide ValidEntry, PrevField;
    var n := |es| - 1;
    FlatAround(es, n);
    FlatNone(es[n + 1..]);
    assert es[n + 1..][..0] == es[n + 1..];
  }

  /** The bytes from the body of entry i on, after the resize, are those of the clipped entries. */
  lemma {:induction false} ClipTail(es: seq<Entry>, i: nat, grow: int)
    requires AllValid(es) && Clippable(es, grow) && i < |es|
    ensures var c := Clip(es, grow);
      && AllValid(c) && es[i].body + Flat(es[i + 1..]) != []
      && AfterResize(es[i].body + Flat(es[i + 1..]), grow) == c[i].body + Flat(c[i + 1..])
  {
    hide Flat, ValidEntry, HasPayload, PrevField;
    ClipEntries(es, grow);
    EntryFits(es[i]);
    if grow < 0 {
      hide Clip, Clippable, AfterResize;
      if i + 1 == |es| {
        FlatNone(es[i + 1..]);
        FlatNone(Clip(es, grow)[i + 1..]);
        assert es[i + 1..] == es[i + 1..][..0] && Clip(es, grow)[i + 1..] == Clip(es, grow)[i + 1..][..0];
        assert Flat(es[i + 1..]) == Flat(Clip(es, grow)[i + 1..]) == [];
      } else {
        ClipLater(es[i + 1..], Clip(es, grow)[i + 1..], es[i].body, grow);
      }
    }
  }

  lemma {:induction false} ClipLater(x: seq<Entry>, y: seq<Entry>, a: seq<byte>, grow: int)
    requires AllValid(x) && AllValid(y) && |x| == |y| && x != [] && x[|x| - 1].body != []
    requires x[..|x| - 1] == y[..|x| - 1] && y[|x| - 1].body == AfterResize(x[|x| - 1].body, grow)
    requires y[|x| - 1].prevsize == x[|x| - 1].prevsize && y[|x| - 1].prevlen == x[|x| - 1].prevlen
    ensures a + Flat(x) != [] && AfterResize(a + Flat(x), grow) == a + Flat(y)
  {
    hide Flat, ValidEntry, PrevField, AfterResize;
    var e := x[|x| - 1];
    LastBody(x);
    LastBody(y);
    EntryFits(e);
    var front := Flat(x[..|x| - 1]) + PrevField(e.prevsize, e.prevlen);
    assert a + Flat(x) == a + front + e.body;
    AfterConcat(a + front, e.body, grow);
    assert a + Flat(y) == a + front + AfterResize(e.body, grow);
  }

  /** What the shift of the entries from i on relies on: clipping keeps sizes and offsets, and next, which narrows or
      widens the back-length of entry i, moves the tail offset as __ziplistInsert does. */
  lemma BeforeShift(es: seq<Entry>, i: nat, grow: int, reqlen: int, next: Entry)
    requires AllValid(es) && Clippable(es, grow) && i < |es| && 0 <= reqlen < U32_LIMIT
    requires next == Entry(PrevSize(reqlen), reqlen, Clip(es, grow)[i].body)
    ensures var c := Clip(es, grow);
      && AllValid(c) && ValidEntry(next) && c[i].prevsize == es[i].prevsize && |c[i..]| == |es[i..]|
      && |Flat(c[i..])| == |Flat(es[i..])|
      && es[i].body + Flat(es[i + 1..]) != []
      && AfterResize(es[i].body + Flat(es[i + 1..]), grow) == c[i].body + Flat(c[i + 1..])
      && LastOffset(OffsetOf(HEADER_SIZE, es, i) + reqlen, c[i..][0 := next])
         == LastOffset(HEADER_SIZE, es) + reqlen + (if |es[i..]| == 1 then 0 else PrevSize(reqlen) - es[i].prevsize)
      && HEADER_SIZE <= LastOffset(HEADER_SIZE, es) < HEADER_SIZE + |Flat(es)|
      && (i + 1 < |es| ==> LastOffset(HEADER_SIZE, es) >= HEADER_SIZE + Raw(es[i]))
  {
    hide Flat, ValidEntry, HasPayload, Clip, Clippable, AfterResize;
    ClipEntries(es, grow);
    ClipOffsets(es, grow, i, HEADER_SIZE);
    ClipTail(es, i, grow);
    var c := Clip(es, grow);
    PrevFitsSize(reqlen);
    ReplacedValid(c[i], next);
    TailOfShifted(c, i, next, reqlen);
    FlatSplit(es, i);
    FlatSplit(c, i);
  }

  lemma GrowAtLeast(es: seq<Entry>, grow: int)
    requires Clippable(es, grow)
    ensures grow >= -1
  {
  }

  lemma PrevFitsSize(len: int)
    requires 0 <= len < U32_LIMIT
    ensures PrevFits(PrevSize(len), len)
  {
  }

  // ----- what the entries stand for

  /** The strings that the entries denote, whatever encodings they use. */
  function ValuesOf(es: seq<Entry>): (vs: seq<seq<byte>>)
    requires AllValid(es)
    ensures |vs| == |es|
  {
    seq(|es|, i requires 0 <= i < |es| => PayloadOf(es[i].body).Denoted())
  }

  lemma LoadedIsLongLong(b: seq<byte>, c: seq<byte>)
    requires HasPayload(b) && HasPayload(c) && EntryEncoding(c) == EntryEncoding(b) && |b| == |c| && b[0] == c[0]
    requires !IsStr(EntryEncoding(b))
    ensures PayloadOf(b).Integer? && PayloadOf(c).Integer?
    ensures IsLongLong(PayloadOf(b).value) && IsLongLong(PayloadOf(c).value)
    ensures PayloadOf(b).value == PayloadOf(c).value <==> b == c
  {
    PowersOf256();
    var n := IntSize(EntryEncoding(b));
    assert |b| == 1 + n && b[1..][..n] == b[1..] && c[1..][..n] == c[1..];
    SignedInjective(b[1..], c[1..]);
    SignedInjective(c[1..], b[1..]);
    assert b == [b[0]] + b[1..] && c == [c[0]] + c[1..];
  }

  /** A body that has lost its last byte denotes another string, for strings and integers alike. */
  lemma ClippedDenotes(b: seq<byte>)
    requires HasPayload(b)
    ensures HasPayload(AfterResize(b, -1))
    ensures PayloadOf(AfterResize(b, -1)).Denoted() == PayloadOf(b).Denoted() <==> AfterResize(b, -1) == b
    ensures AfterResize(b, -1) == b <==> b[|b| - 1] == ZIP_END
  {
    hide Print;
    var c := AfterResize(b, -1);
    ClippedBody(b, -1);
    assert b == b[..|b| - 1] + [b[|b| - 1]];
    if IsStr(EntryEncoding(b)) {
      var n := DecodeLength(b).0;
      assert b == b[..n] + b[n..] && c == c[..n] + c[n..] && c[..n] == b[..n];
    } else {
      LoadedIsLongLong(b, c);
      PrintInjective(PayloadOf(b).value, PayloadOf(c).value);
    }
  }

  lemma EncodedValues(es: seq<Entry>, vs: seq<seq<byte>>)
    requires AllValid(es) && Encodes(es, vs)
    ensures ValuesOf(es) == vs
    ensures vs != [] && vs[|vs| - 1] != [] ==> HasPayload(es[|es| - 1].body)
  {
    hide EncodeBody, DecodeLength, Print;
    forall i | 0 <= i < |vs| ensures PayloadOf(es[i].body).Denoted() == vs[i] {
      EncodeBodyValid(vs[i]);
    }
    if vs != [] && vs[|vs| - 1] != [] {
      NonemptyPayload(vs[|vs| - 1]);
    }
  }

  lemma NonemptyPayload(s: seq<byte>)
    requires |s| < U32_LIMIT
    ensures ValidBody(EncodeBody(s)) && (s != [] ==> HasPayload(EncodeBody(s)))
    ensures s == [] <==> EncodeBody(s) == [0]
    ensures s == [] <==> |EncodeBody(s)| == 1
  {
    EncodeBodyValid(s);
    if s != [] && TryEncoding(s).None? {
      DecodeStrLength(|s|, s);
    }
  }

  /** An insertion before entry i whose effect is determined: the memmove reads inside the resized buffer, and a
      byte it loses is not the only byte of the last body, which the empty string has. */
  predicate MayInsert(es: seq<Entry>, vs: seq<seq<byte>>, i: nat, s: seq<byte>)
    requires i <= |es| == |vs| && |s| < U32_LIMIT
  {
    var grow := InsertGrow(es, i, s);
    grow >= 0 || (grow == -1 && vs != [] && vs[|vs| - 1] != [])
  }

  /** The last byte before the end marker is the last byte of the last body. */
  lemma {:induction false} LastByteIs(d: seq<byte>, es: seq<Entry>)
    requires Laid(d, HEADER_SIZE, es) && es != []
    ensures es[|es| - 1].body != [] && |d| >= 2
    ensures d[|d| - 2] == es[|es| - 1].body[|es[|es| - 1].body| - 1]
  {
    hide ValidEntry, PrevField;
    LastBody(es);
    EntryFits(es[|es| - 1]);
    AtSlice(d, HEADER_SIZE, Flat(es));
    assert d[|d| - 2] == Flat(es)[|Flat(es)| - 1];
  }

  /** The entries are the same after the resize exactly when the tail survives it. */
  lemma ClipsNothing(d: seq<byte>, es: seq<Entry>, grow: int)
    requires Laid(d, HEADER_SIZE, es) && Clippable(es, grow)
    ensures AllValid(es) && (Clip(es, grow) == es <==> TailSurvives(d, grow))
  {
    hide Flat, At, ValidEntry, DecodeLength, ValidBody;
    if grow < 0 {
      LastByteIs(d, es);
      var b := es[|es| - 1].body;
      ClippedDenotes(b);
      assert Clip(es, grow)[|es| - 1].body == AfterResize(b, grow) == AfterResize(b, -1);
    }
  }

  /** An insertion that fits may be made; one that may be made clips a list that has something to clip. */
  lemma FitsMayInsert(d: seq<byte>, es: seq<Entry>, vs: seq<seq<byte>>, i: nat, s: seq<byte>)
    requires Laid(d, HEADER_SIZE, es) && Encodes(es, vs) && i <= |es| && |s| < U32_LIMIT
    requires i == |es| ==> InsertGrow(es, i, s) >= 0
    ensures InsertFits(d, es, i, s) ==> MayInsert(es, vs, i, s)
    ensures MayInsert(es, vs, i, s) ==> Clippable(es, InsertGrow(es, i, s))
  {
    hide EncodeBody, Flat, At, ValidEntry, InsertGrow;
    EncodedValues(es, vs);
    if es != [] {
      LastByteIs(d, es);
      NonemptyPayload(vs[|vs| - 1]);
    }
  }

  /** What the list stands for after the insertion of s, and when that is the old list with s in it. */
  lemma InsertedMeans(es: seq<Entry>, vs: seq<seq<byte>>, grow: int, i: nat, s: seq<byte>, es': seq<Entry>)
    requires AllValid(es) && AllValid(es') && Encodes(es, vs) && Clippable(es, grow) && i <= |es| && |s| < U32_LIMIT
    requires var c := Clip(es, grow); Bodies(es') == Bodies(c)[..i] + [EncodeBody(s)] + Bodies(c)[i..]
    ensures AllValid(Clip(es, grow))
    ensures ValuesOf(es') == ValuesOf(Clip(es, grow))[..i] + [s] + ValuesOf(Clip(es, grow))[i..]
    ensures ValuesOf(es') == vs[..i] + [s] + vs[i..] <==> Clip(es, grow) == es
  {
    hide EncodeBody, ValidEntry, HasPayload, Clip, ValuesOf, Clippable, Encodes, Bodies;
    ClipMeans(es, vs, grow);
    BodiesMean(es', Clip(es, grow), i, s);
    SameAround(ValuesOf(Clip(es, grow)), vs, i, s);
  }

  lemma ClipMeans(es: seq<Entry>, vs: seq<seq<byte>>, grow: int)
    requires AllValid(es) && Encodes(es, vs) && Clippable(es, grow)
    ensures var c := Clip(es, grow);
      AllValid(c) && |ValuesOf(c)| == |vs| == |es| && (ValuesOf(c) == vs <==> c == es)
  {
    hide EncodeBody, ValidEntry, Print, ValuesOf, Encodes, DecodeLength;
    ClipEntries(es, grow);
    EncodedValues(es, vs);
    if grow < 0 {
      hide Clip;
      var n, c := |es| - 1, Clip(es, grow);
      ClippedDenotes(es[n].body);
      ValueAt(es, n);
      ValueAt(c, n);
    }
  }

  lemma ValueAt(es: seq<Entry>, k: nat)
    requires AllValid(es) && k < |es|
    ensures ValidBody(es[k].body) && ValuesOf(es)[k] == PayloadOf(es[k].body).Denoted()
  {
    hide PayloadOf, Print;
  }

  lemma SameAround<T>(a: seq<T>, b: seq<T>, i: nat, x: T)
    requires i <= |a| == |b|
    ensures a[..i] + [x] + a[i..] == b[..i] + [x] + b[i..] <==> a == b
  {
    var v, w := a[..i] + [x] + a[i..], b[..i] + [x] + b[i..];
    if v == w {
      forall k | 0 <= k < |a| ensures a[k] == b[k] {
        assert v[if k < i then k else k + 1] == a[k] && w[if k < i then k else k + 1] == b[k];
      }
    }
  }

  lemma BodiesMean(es': seq<Entry>, c: seq<Entry>, i: nat, s: seq<byte>)
    requires AllValid(es') && AllValid(c) && i <= |c| && |s| < U32_LIMIT
    requires Bodies(es') == Bodies(c)[..i] + [EncodeBody(s)] + Bodies(c)[i..]
    ensures ValuesOf(es') == ValuesOf(c)[..i] + [s] + ValuesOf(c)[i..]
  {
    hide EncodeBody, Print;
    EncodeBodyValid(s);
    var w := ValuesOf(c)[..i] + [s] + ValuesOf(c)[i..];
    assert |es'| == |Bodies(es')| == |c| + 1;
    forall k | 0 <= k < |es'| ensures ValuesOf(es')[k] == w[k] {
      assert es'[k].body == Bodies(es')[k];
      if k != i {
        var j := if k < i then k else k - 1;
        assert Bodies(es')[k] == Bodies(c)[j] == c[j].body;
      }
    }
  }

  /** What __ziplistInsert relies on before it changes anything. */
  lemma BeforeInsert(d: seq<byte>, es: seq<Entry>, vs: seq<seq<byte>>, i: nat, s: seq<byte>)
    requires Laid(d, HEADER_SIZE, es) && WellLinked(es) && Encodes(es, vs) && i <= |es|
    requires RoomFor(es, s) && MayInsert(es, vs, i, s)
    ensures var body := EncodeBody(s); var e := NewEntry(es, i, body); var grow := InsertGrow(es, i, s);
      && ValidBody(body) && ValidEntry(e) && e.prevlen == PrevLenAt(es, i) && Raw(e) >= 2 && RoomToInsert(es, |body|)
      && grow == (if i < |es| then Raw(e) + PrevSize(Raw(e)) - es[i].prevsize else Raw(e))
      && Clippable(es, grow) && (Clip(es, grow) == es <==> InsertFits(d, es, i, s))
  {
    hide Flat, At, EncodeBody, ValidBody, Encodes, Clip, Clippable, MayInsert;
    EncodeBodyValid(s);
    NewEntryValid(es, i, EncodeBody(s));
    EntryFits(NewEntry(es, i, EncodeBody(s)));
    FitsMayInsert(d, es, vs, i, s);
    ClipsNothing(d, es, InsertGrow(es, i, s));
  }

  /** The entries before and behind the gap, with the new one between them, are the insertion. */
  lemma InsertedParts(es: seq<Entry>, i: nat, s: seq<byte>, c: seq<Entry>, rest: seq<Entry>)
    requires WellLinked(es) && i <= |es| && RoomFor(es, s) && Clippable(es, InsertGrow(es, i, s))
    requires i == |es| ==> InsertGrow(es, i, s) >= 0
    requires c == Clip(es, InsertGrow(es, i, s))
    requires rest == if i < |es| then Refit(c[i..], Raw(NewEntry(es, i, EncodeBody(s)))) else []
    ensures var body := EncodeBody(s); var es' := Inserted(c, i, body);
      && es' == es[..i] + [NewEntry(es, i, body)] + rest && |es'| == |es| + 1
      && WellLinked(es') && AllValid(c) && Bodies(es') == Bodies(c)[..i] + [body] + Bodies(c)[i..]
  {
    hide Flat, EncodeBody, ValidBody, Refit, HasPayload, InsertGrow;
    var grow, body := InsertGrow(es, i, s), EncodeBody(s);
    EncodeBodyValid(s);
    ClipEntries(es, grow);
    assert c[..i] == es[..i];
    assert NewEntry(c, i, body) == NewEntry(es, i, body);
    if es != [] {
      ClipOffsets(es, grow, 0, HEADER_SIZE);
    }
    InsertedCorrect(c, i, body);
  }

  /** The memmove of __ziplistInsert reads up to the old end marker. After the resize that is past the end of the
      buffer exactly when the empty string is inserted where the field behind it narrows. */
  lemma SourceInside(d: seq<byte>, es: seq<Entry>, i: nat, s: seq<byte>)
    requires Laid(d, HEADER_SIZE, es) && i < |es| && |s| < U32_LIMIT
    ensures var reqlen, grow := Raw(NewEntry(es, i, EncodeBody(s))), InsertGrow(es, i, s);
      var p, nextdiff := OffsetOf(HEADER_SIZE, es, i), PrevSize(reqlen) - es[i].prevsize;
      && (p - nextdiff + (|d| - p - 1 + nextdiff) <= |d| + grow <==> grow >= -1)
      && (grow >= -1 <==> !(s == [] && es[i].prevsize == 5 && es[i].prevlen < 254))
  {
    hide Flat, At, EncodeBody, ValidBody;
    EntryFits(es[i]);
    NonemptyPayload(s);
  }

  // ----- a list into which an insertion does not fit

  /** After a first entry of 254 bytes or more is deleted, the entry behind it shrinks below 254 bytes, but the
      cascade keeps the five-byte field of the third entry. */
  lemma MisfitEntries(a: seq<byte>, b: seq<byte>, c: seq<byte>)
    requires 253 <= |a| < 1000 && 249 <= |b| <= 252 && 1 <= |c|
    ensures Inserted([], 0, a) == [Entry(1, 0, a)]
    ensures Inserted([Entry(1, 0, a)], 1, b) == [Entry(1, 0, a), Entry(5, 1 + |a|, b)]
    ensures Inserted([Entry(1, 0, a), Entry(5, 1 + |a|, b)], 2, c)
         == [Entry(1, 0, a), Entry(5, 1 + |a|, b), Entry(5, 5 + |b|, c)]
    ensures Deleted([Entry(1, 0, a), Entry(5, 1 + |a|, b), Entry(5, 5 + |b|, c)], 0, 1)
         == [Entry(1, 0, b), Entry(5, 1 + |b|, c)]
  {
    var e3 := [Entry(1, 0, a), Entry(5, 1 + |a|, b), Entry(5, 5 + |b|, c)];
    assert e3[1..][1..] == [Entry(5, 5 + |b|, c)];
    var first := [Entry(1, 0, b), Entry(5, 5 + |b|, c)];
    assert Refit(e3[1..], 0) == Cascade(first, 0);
    assert Cascade(first, 0) == [Entry(1, 0, b), Entry(5, 1 + |b|, c)];
    assert Deleted(e3, 0, 1) == e3[..0] + Refit(e3[1..], 0);
  }

  lemma {:induction false} FlatSmall(es: seq<Entry>)
    requires AllValid(es) && forall i :: 0 <= i < |es| ==> |es[i].body| < 1000
    ensures |Flat(es)| <= 1005 * |es|
  {
    hide ValidEntry;
    if es != [] {
      FlatSmall(es[1..]);
    }
  }

  /** Inserting a string of one letter, or of one other byte that is no digit, between these entries makes the buffer
      one byte shorter; inserting the empty string makes it two bytes shorter. */
  lemma MisfitBetween(b: seq<byte>, c: seq<byte>, s: seq<byte>)
    requires |b| <= 252 && |s| < U32_LIMIT && |EncodeBody(s)| <= 2
    ensures InsertGrow([Entry(1, 0, b), Entry(5, 1 + |b|, c)], 1, s) == |EncodeBody(s)| - 3
  {
    hide EncodeBody;
  }

  lemma ClippedString(w: seq<byte>)
    requires |w| < U32_LIMIT && w != [] && TryEncoding(w).None?
    ensures HasPayload(EncodeBody(w)) && HasPayload(AfterResize(EncodeBody(w), -1))
    ensures PayloadOf(AfterResize(EncodeBody(w), -1)).Denoted() == w[..|w| - 1] + [ZIP_END]
  {
    hide TryEncoding, EncodeStrLength, DecodeLength, Print;
    var v := w[..|w| - 1] + [ZIP_END];
    StringBody(w);
    StringBody(v);
    DecodeStrLength(|w|, w);
    DecodeStrLength(|v|, v);
    AfterConcat(EncodeStrLength(|w|), w, -1);
  }

  /** What the two entries stand for when the last one has lost its last byte. */
  lemma ClippedPair(es: seq<Entry>, y: seq<byte>, w: seq<byte>)
    requires AllValid(es) && Encodes(es, [y, w]) && w != [] && TryEncoding(w).None?
    ensures AllValid(Clip(es, -1)) && ValuesOf(Clip(es, -1)) == [y, w[..|w| - 1] + [ZIP_END]]
  {
    hide EncodeBody, ValidEntry, Print, TryEncoding, AfterResize;
    assert [y, w][1] == w && es[1].body == EncodeBody(w);
    ClippedString(w);
    ClipEntries(es, -1);
    EncodedValues(es, [y, w]);
    ValueAt(es, 0);
    ValueAt(Clip(es, -1), 0);
    ValueAt(Clip(es, -1), 1);
  }

  /** Strings for which that happens: 252, 248 and 1 letters, and the empty string or one letter to insert. */
  lemma MisfitStrings(x: seq<byte>, y: seq<byte>)
    requires |x| == 252 && |y| == 248 && x[0] == 97 == y[0]
    ensures |EncodeBody(x)| == 254 && |EncodeBody(y)| == 250
    ensures EncodeBody([97]) == [1, 97] && EncodeBody([]) == [0]
  {
  }
}
