/** The layout of a whole ziplist buffer (ziplist.c): header fields, entries, end marker, and how the
    layout of entry sequences is cut, shifted and put together again. */
module ZiplistLayout {
  import opened Bytes
  import opened ZiplistFormat
  import opened ZiplistEntries

  const UINT16_MAX := 65535

  /** The three header fields. */
  function TotalBytes(data: seq<byte>): int
    requires |data| >= 4
  {
    FromLe(data[0..4])
  }

  function TailOffset(data: seq<byte>): int
    requires |data| >= 8
  {
    FromLe(data[4..8])
  }

  function LengthField(data: seq<byte>): int
    requires |data| >= 10
  {
    FromLe(data[8..10])
  }

  /** Offset of entry i in a buffer whose entries start at base. */
  function OffsetOf(base: int, es: seq<Entry>, i: nat): int
    requires AllValid(es) && i <= |es|
  {
    base + |Flat(es[..i])|
  }

  /** Offset of the last entry, or of the end marker when there is none. */
  function LastOffset(base: int, es: seq<Entry>): int
    requires AllValid(es)
  {
    if es == [] then base else OffsetOf(base, es, |es| - 1)
  }

  /** A field holds v when its little-endian image stands there. */
  lemma FieldValue(d: seq<byte>, p: nat, w: nat, v: int)
    requires At(d, p, Le(v, w)) && 0 <= v < Pow256(w)
    ensures FromLe(d[p..p + w]) == v
  {
    FromLeOfLe(v, w);
  }

  /** The entries es fill the buffer from offset base to the end marker. */
  predicate Laid(data: seq<byte>, base: nat, es: seq<Entry>) {
    && AllValid(es)
    && At(data, base, Flat(es)) && base + |Flat(es)| + 1 == |data| && data[|data| - 1] == ZIP_END
  }

  /** The entries es fill the buffer from offset base to the end marker, and the total and tail fields
      agree with them. */
  predicate Holds(data: seq<byte>, base: nat, es: seq<Entry>) {
    && HEADER_SIZE <= base < |data| < U32_LIMIT / 2
    && Laid(data, base, es)
    && TotalBytes(data) == |data|
    && TailOffset(data) == LastOffset(base, es)
  }

  /** The length field counts the entries until it saturates. */
  predicate LengthFieldOk(field: int, n: nat) {
    field == UINT16_MAX || (field == n && n < UINT16_MAX)
  }

  /** The length field after a change of the number of entries: once saturated it stays so. */
  function Counted(field: int, change: int): int {
    if field < UINT16_MAX then field + change else field
  }

  /** Entry k stands at its offset, between the earlier and the later entries. */
  lemma AtEntry(d: seq<byte>, base: nat, es: seq<Entry>, k: nat)
    requires AllValid(es) && At(d, base, Flat(es)) && k < |es|
    ensures var p := OffsetOf(base, es, k);
      && At(d, p, EntryBytes(es[k])) && d[p] != ZIP_END
      && OffsetOf(base, es, k + 1) == p + Raw(es[k])
      && At(d, p + Raw(es[k]), Flat(es[k + 1..]))
      && p + Raw(es[k]) + |Flat(es[k + 1..])| == base + |Flat(es)|
  {
    hide ValidEntry, EntryBytes, Flat, At;
    FlatAround(es, k);
    AtConcat(d, base, Flat(es[..k]) + EntryBytes(es[k]), Flat(es[k + 1..]));
    AtConcat(d, base, Flat(es[..k]), EntryBytes(es[k]));
    AtFirst(d, OffsetOf(base, es, k), EntryBytes(es[k]));
  }

  /** The byte at a cursor tells whether it stands on an entry or on the end marker. */
  lemma AtEntryOrEnd(d: seq<byte>, base: nat, es: seq<Entry>, k: nat)
    requires Laid(d, base, es) && k <= |es|
    ensures base <= OffsetOf(base, es, k) < |d|
    ensures d[OffsetOf(base, es, k)] == ZIP_END <==> k == |es|
    ensures k == |es| <==> OffsetOf(base, es, k) == |d| - 1
    ensures k < |es| ==>
      At(d, OffsetOf(base, es, k), EntryBytes(es[k])) && OffsetOf(base, es, k + 1) == OffsetOf(base, es, k) + Raw(es[k])
  {
    hide ValidEntry, EntryBytes, Flat, At;
    if k < |es| {
      AtEntry(d, base, es, k);
      OffsetsIncrease(es, k, k + 1);
    } else {
      assert es[..k] == es;
    }
  }

  lemma AtFirst(d: seq<byte>, p: nat, t: seq<byte>)
    requires At(d, p, t) && t != []
    ensures d[p] == t[0]
  {
    assert d[p] == d[p..p + |t|][0];
  }

  /** The header read at an entry's offset. */
  lemma HeaderAt(d: seq<byte>, p: nat, e: Entry)
    requires ValidEntry(e) && At(d, p, EntryBytes(e))
    ensures EntryReadable(d[p..])
    ensures ZipEntry(d[p..]).prevrawlensize == e.prevsize
    ensures ZipEntry(d[p..]).prevrawlen == e.prevlen
    ensures ZipEntry(d[p..]).RawLength() == Raw(e)
  {
    hide EntryReadable, ZipEntry, EntryBytes, ValidEntry;
    assert d[p..] == EntryBytes(e) + d[p + Raw(e)..];
    ZipEntryOfBytes(e, d[p + Raw(e)..]);
  }

  lemma EntryFits(e: Entry)
    requires ValidEntry(e)
    ensures PrevFits(e.prevsize, e.prevlen) && |e.body| >= 1 && Raw(e) >= 2
  {
  }

  /** A lemma about replacing entry k + 1 by one with the same body: bytes up to its offset stand,
      the new image stands there, and the later entries follow. */
  lemma Replaced(d: seq<byte>, d': seq<byte>, base: nat, es: seq<Entry>, k: nat, e: Entry)
    requires AllValid(es) && k < |es| && At(d, base, Flat(es)) && ValidEntry(e) && e.body == es[k].body
    requires var np := OffsetOf(base, es, k); np <= |d| && np <= |d'| && forall j :: base <= j < np ==> d'[j] == d[j]
    requires var np := OffsetOf(base, es, k);
      At(d', np, PrevField(e.prevsize, e.prevlen)) && At(d', np + e.prevsize, e.body + Flat(es[k + 1..]))
    ensures At(d', base, Flat(es[k := e]))
    ensures |Flat(es[k := e])| == |Flat(es)| - es[k].prevsize + e.prevsize
  {
    hide At, ValidEntry, PrevField, Flat;
    assert PrevFits(e.prevsize, e.prevlen) by { EntryFits(e); }
    var es' := es[k := e];
    FlatUpdate(es, k, e);
    FlatAround(es, k);
    FlatAround(es', k);
    assert es'[..k] == es[..k] && es'[k + 1..] == es[k + 1..];
    var np := OffsetOf(base, es, k);
    AtConcat(d, base, Flat(es[..k]) + EntryBytes(es[k]), Flat(es[k + 1..]));
    AtConcat(d, base, Flat(es[..k]), EntryBytes(es[k]));
    AtSame(d, d', base, Flat(es[..k]));
    AtConcat(d', np + e.prevsize, e.body, Flat(es[k + 1..]));
    AtConcat(d', np, PrevField(e.prevsize, e.prevlen), e.body);
    AtConcat(d', base, Flat(es[..k]), EntryBytes(e));
    AtConcat(d', base, Flat(es[..k]) + EntryBytes(e), Flat(es[k + 1..]));
  }

  lemma {:induction false} OffsetsIncrease(es: seq<Entry>, i: nat, j: nat)
    requires AllValid(es) && i < j <= |es|
    ensures |Flat(es[..i])| + 2 <= |Flat(es[..j])|
    ensures |Flat(es[..j])| <= |Flat(es)|
    decreases j
  {
    hide ValidEntry, Flat;
    FlatAround(es, j - 1);
    FlatSplit(es, j);
    if i < j - 1 { OffsetsIncrease(es, i, j - 1); }
  }

  /** Replacing entry k moves the offset of the last entry by the change in size, unless k is the last. */
  lemma LastOffsetReplaced(base: int, es: seq<Entry>, k: nat, e: Entry)
    requires AllValid(es) && k < |es| && ValidEntry(e)
    ensures LastOffset(base, es[k := e]) == LastOffset(base, es) + (if k + 1 == |es| then 0 else Raw(e) - Raw(es[k]))
  {
    hide ValidEntry, Flat, Raw;
    var n := |es| - 1;
    if k < n {
      assert es[k := e][..n] == es[..n][k := e];
      FlatUpdate(es[..n], k, e);
    } else {
      assert es[k := e][..n] == es[..n];
    }
  }

  lemma LastOffsetIs(base: int, es: seq<Entry>, k: nat)
    requires AllValid(es) && k < |es|
    ensures OffsetOf(base, es, k) == LastOffset(base, es) <==> k + 1 == |es|
    ensures LastOffset(base, es) < base + |Flat(es)|
  {
    hide ValidEntry, Flat;
    OffsetsIncrease(es, |es| - 1, |es|);
    assert es[..|es|] == es;
    if k < |es| - 1 { OffsetsIncrease(es, k, |es| - 1); }
  }

  lemma LastOffsetAtLeast(base: int, es: seq<Entry>, k: nat)
    requires AllValid(es) && k < |es|
    ensures OffsetOf(base, es, k) <= LastOffset(base, es) < base + |Flat(es)|
  {
    hide ValidEntry, Flat;
    LastOffsetIs(base, es, k);
    if k < |es| - 1 { OffsetsIncrease(es, k, |es| - 1); }
  }

  /** The offset of the last entry, seen from the start or from an entry before it. */
  lemma LastOffsetFrom(base: int, es: seq<Entry>, i: nat)
    requires AllValid(es) && i < |es|
    ensures LastOffset(base, es) == LastOffset(OffsetOf(base, es, i), es[i..])
  {
    hide ValidEntry, Flat;
    var n := |es| - 1;
    FlatSplit(es[..n], i);
    assert es[..n][..i] == es[..i] && es[..n][i..] == es[i..][..n - i];
  }

  /** The entries from i on fill the buffer from the offset of entry i. */
  lemma LaidFrom(d: seq<byte>, base: nat, es: seq<Entry>, i: nat)
    requires Laid(d, base, es) && i <= |es|
    ensures Laid(d, OffsetOf(base, es, i), es[i..])
    ensures At(d, base, Flat(es[..i]))
  {
    hide ValidEntry, Flat, At;
    FlatSplit(es, i);
    AtConcat(d, base, Flat(es[..i]), Flat(es[i..]));
  }

  lemma ReplacedValid(e: Entry, e': Entry)
    requires ValidEntry(e) && e'.body == e.body && PrevFits(e'.prevsize, e'.prevlen)
    ensures ValidEntry(e')
  {
  }

  /** The header of entry i, and what follows its back-length field. */
  lemma AtHeader(d: seq<byte>, base: nat, es: seq<Entry>, i: nat)
    requires Laid(d, base, es) && i < |es|
    ensures var p := OffsetOf(base, es, i);
      && p < |d| && EntryReadable(d[p..]) && d[p] != ZIP_END
      && ZipEntry(d[p..]).prevrawlensize == es[i].prevsize && ZipEntry(d[p..]).prevrawlen == es[i].prevlen
      && ZipEntry(d[p..]).RawLength() == Raw(es[i])
      && At(d, p + es[i].prevsize, es[i].body + Flat(es[i + 1..]))
      && p + es[i].prevsize + |es[i].body + Flat(es[i + 1..])| + 1 == |d|
  {
    hide Flat, At, ValidEntry, PrevField, EntryReadable, ZipEntry;
    var p := OffsetOf(base, es, i);
    EntryFits(es[i]);
    AtEntry(d, base, es, i);
    HeaderAt(d, p, es[i]);
    AtConcat(d, p, PrevField(es[i].prevsize, es[i].prevlen), es[i].body);
    AtConcat(d, p + es[i].prevsize, es[i].body, Flat(es[i + 1..]));
  }

  /** The raw length read at entry i leads to the next entry or to the end marker. */
  lemma NextOffset(d: seq<byte>, base: nat, es: seq<Entry>, i: nat)
    requires Laid(d, base, es) && i < |es|
    ensures var p := OffsetOf(base, es, i);
      && base <= p < |d| && EntryReadable(d[p..]) && ZipEntry(d[p..]).RawLength() == Raw(es[i]) >= 2
      && p + Raw(es[i]) == OffsetOf(base, es, i + 1) < |d|
      && (d[p + Raw(es[i])] == ZIP_END <==> i + 1 == |es|)
  {
    hide Flat, At, ValidEntry, EntryReadable, ZipEntry;
    AtHeader(d, base, es, i);
    EntryFits(es[i]);
    AtEntryOrEnd(d, base, es, i);
    AtEntryOrEnd(d, base, es, i + 1);
  }

  /** Entry i rewritten at offset q in front of its old body and the later entries. */
  lemma ShiftedLayout(d: seq<byte>, q: nat, es: seq<Entry>, i: nat, next: Entry)
    requires AllValid(es) && i < |es| && ValidEntry(next) && next.body == es[i].body
    requires At(d, q, PrevField(next.prevsize, next.prevlen))
    requires At(d, q + next.prevsize, es[i].body + Flat(es[i + 1..]))
    requires q + next.prevsize + |es[i].body + Flat(es[i + 1..])| + 1 == |d| && d[|d| - 1] == ZIP_END
    ensures AllValid(es[i..][0 := next]) && Laid(d, q, es[i..][0 := next])
    ensures |Flat(es[i..][0 := next])| == |Flat(es[i..])| - es[i].prevsize + next.prevsize
  {
    hide Flat, At, ValidEntry, PrevField;
    EntryFits(next);
    var rest := es[i..][0 := next];
    FlatUpdate(es[i..], 0, next);
    FlatAround(rest, 0);
    assert rest[1..] == es[i + 1..];
    FlatNone(rest);
    AtConcat(d, q + next.prevsize, es[i].body, Flat(es[i + 1..]));
    AtConcat(d, q, PrevField(next.prevsize, next.prevlen), es[i].body);
    AtConcat(d, q, EntryBytes(next), Flat(es[i + 1..]));
    assert Flat(rest) == EntryBytes(next) + Flat(es[i + 1..]);
  }

  /** The tail offset after a shift by reqlen and the rewriting of entry i. */
  lemma TailOfShifted(es: seq<Entry>, i: nat, next: Entry, reqlen: int)
    requires AllValid(es) && i < |es| && ValidEntry(next) && next.body == es[i].body
    ensures LastOffset(OffsetOf(HEADER_SIZE, es, i) + reqlen, es[i..][0 := next])
         == LastOffset(HEADER_SIZE, es) + reqlen + (if |es[i..]| == 1 then 0 else next.prevsize - es[i].prevsize)
    ensures LastOffset(HEADER_SIZE, es) < HEADER_SIZE + |Flat(es)|
    ensures i + 1 < |es| ==> LastOffset(HEADER_SIZE, es) >= HEADER_SIZE + Raw(es[i])
  {
    hide Flat, ValidEntry;
    LastOffsetFrom(HEADER_SIZE, es, i);
    LastOffsetReplaced(OffsetOf(HEADER_SIZE, es, i) + reqlen, es[i..], 0, next);
    LastOffsetIs(HEADER_SIZE, es, i);
    if i + 1 < |es| {
      FlatAround(es, i);
      if i + 1 < |es| - 1 { OffsetsIncrease(es, i + 1, |es| - 1); }
    }
  }

  lemma LaidSame(d: seq<byte>, d': seq<byte>, base: nat, es: seq<Entry>)
    requires Laid(d, base, es) && |d'| == |d| && forall j :: base <= j < |d| ==> d'[j] == d[j]
    ensures Laid(d', base, es)
  {
    hide Flat, At;
    AtSame(d, d', base, Flat(es));
  }

  /** Entries before, at and after a gap make one list. */
  lemma Assembled(d: seq<byte>, pre: seq<Entry>, e: Entry, rest: seq<Entry>)
    requires AllValid(pre) && ValidEntry(e)
    requires At(d, HEADER_SIZE, Flat(pre)) && At(d, HEADER_SIZE + |Flat(pre)|, EntryBytes(e))
    requires Laid(d, HEADER_SIZE + |Flat(pre)| + Raw(e), rest)
    ensures Laid(d, HEADER_SIZE, pre + [e] + rest)
  {
    hide Flat, At, ValidEntry, EntryBytes;
    FlatOne(e);
    FlatConcat(pre, [e]);
    FlatConcat(pre + [e], rest);
    AtConcat(d, HEADER_SIZE, Flat(pre), EntryBytes(e));
    AtConcat(d, HEADER_SIZE, Flat(pre) + EntryBytes(e), Flat(rest));
  }

  /** The offset of the last entry of an assembled list. */
  lemma TailOfAssembled(pre: seq<Entry>, e: Entry, rest: seq<Entry>)
    requires AllValid(pre) && ValidEntry(e) && AllValid(rest)
    ensures AllValid(pre + [e] + rest)
    ensures LastOffset(HEADER_SIZE, pre + [e] + rest)
         == if rest == [] then HEADER_SIZE + |Flat(pre)| else LastOffset(HEADER_SIZE + |Flat(pre)| + Raw(e), rest)
  {
    hide Flat, ValidEntry, EntryBytes;
    var all := pre + [e] + rest;
    FlatOne(e);
    FlatConcat(pre, [e]);
    if rest == [] {
      assert all[..|all| - 1] == pre;
    } else {
      LastOffsetFrom(HEADER_SIZE, all, |pre| + 1);
      assert all[..|pre| + 1] == pre + [e] && all[|pre| + 1..] == rest;
    }
  }

  /** The bodies of the entries encode the strings vs. */
  predicate Encodes(es: seq<Entry>, vs: seq<seq<byte>>) {
    && |vs| == |es|
    && forall i :: 0 <= i < |vs| ==> |vs[i]| < U32_LIMIT && es[i].body == EncodeBody(vs[i])
  }

  lemma EncodesBodies(es: seq<Entry>, vs: seq<seq<byte>>)
    ensures Encodes(es, vs) <==> |vs| == |es| && forall i :: 0 <= i < |vs| ==>
      |vs[i]| < U32_LIMIT && Bodies(es)[i] == EncodeBody(vs[i])
  {
    hide EncodeBody;
  }

  lemma EncodesInserted(es: seq<Entry>, es': seq<Entry>, vs: seq<seq<byte>>, i: nat, s: seq<byte>)
    requires Encodes(es, vs) && i <= |es| && |s| < U32_LIMIT
    requires Bodies(es') == Bodies(es)[..i] + [EncodeBody(s)] + Bodies(es)[i..]
    ensures Encodes(es', vs[..i] + [s] + vs[i..])
  {
    hide EncodeBody, Bodies;
    EncodesBodies(es, vs);
    EncodesBodies(es', vs[..i] + [s] + vs[i..]);
  }

  lemma EncodesDeleted(es: seq<Entry>, es': seq<Entry>, vs: seq<seq<byte>>, i: nat, j: nat)
    requires Encodes(es, vs) && i <= j <= |es|
    requires Bodies(es') == Bodies(es)[..i] + Bodies(es)[j..]
    ensures Encodes(es', vs[..i] + vs[j..])
  {
    hide EncodeBody, Bodies;
    EncodesBodies(es, vs);
    EncodesBodies(es', vs[..i] + vs[j..]);
  }

  /** Enough room below 2^31 bytes for the cascade that a deletion may start. */
  predicate RoomToDelete(es: seq<Entry>)
    requires AllValid(es)
  {
    HEADER_SIZE + 1 + |Flat(es)| + 4 * |es| + 9 < U32_LIMIT / 2
  }

  /** Enough room below 2^31 bytes for inserting s, whatever the cascade has to widen. */
  predicate RoomFor(es: seq<Entry>, s: seq<byte>)
    requires AllValid(es)
  {
    |s| < U32_LIMIT && HEADER_SIZE + 1 + |Flat(es)| + 4 * |es| + |EncodeBody(s)| + 9 < U32_LIMIT / 2
  }

  /** Growing a buffer by grow bytes before its tail is moved keeps the tail readable: nothing is cut
      off, or the one byte that the end marker replaces was 255 already. */
  predicate TailSurvives(d: seq<byte>, grow: int) {
    grow >= 0 || (grow == -1 && |d| >= 2 && d[|d| - 2] == ZIP_END)
  }

  /** By how much the resize of __ziplistInsert changes the size of the buffer. */
  function InsertGrow(es: seq<Entry>, i: nat, s: seq<byte>): int
    requires i <= |es| && |s| < U32_LIMIT
  {
    var reqlen := Raw(NewEntry(es, i, EncodeBody(s)));
    if i < |es| then reqlen + PrevSize(reqlen) - es[i].prevsize else reqlen
  }

  /** The condition under which an insertion before entry i finds the later entries intact. Only an
      insertion of an entry of two or three bytes that narrows the next back-length field can miss it,
      because the buffer is resized before its tail is moved. */
  predicate InsertFits(d: seq<byte>, es: seq<Entry>, i: nat, s: seq<byte>)
    requires i <= |es| && |s| < U32_LIMIT
  {
    TailSurvives(d, InsertGrow(es, i, s))
  }

  /** Entries before and after a removed range make one list. */
  lemma Joined(d: seq<byte>, pre: seq<Entry>, rest: seq<Entry>)
    requires AllValid(pre) && At(d, HEADER_SIZE, Flat(pre)) && Laid(d, HEADER_SIZE + |Flat(pre)|, rest)
    ensures Laid(d, HEADER_SIZE, pre + rest)
  {
    hide Flat, At, ValidEntry;
    FlatConcat(pre, rest);
    AtConcat(d, HEADER_SIZE, Flat(pre), Flat(rest));
  }

  /** The last entry of a joined list is where the later entries say it is. */
  lemma TailOfJoined(pre: seq<Entry>, rest: seq<Entry>)
    requires AllValid(pre) && AllValid(rest) && rest != []
    ensures AllValid(pre + rest)
    ensures LastOffset(HEADER_SIZE, pre + rest) == LastOffset(HEADER_SIZE + |Flat(pre)|, rest)
  {
    hide Flat, ValidEntry, LastOffset;
    FlatConcat(pre, rest);
    assert (pre + rest)[..|pre|] == pre && (pre + rest)[|pre|..] == rest;
    LastOffsetFrom(HEADER_SIZE, pre + rest, |pre|);
  }

  /** The last entry before entry i starts one back-length before it. */
  lemma TailOfPrefix(es: seq<Entry>, i: nat)
    requires WellLinked(es) && i < |es|
    ensures LastOffset(HEADER_SIZE, es[..i]) == OffsetOf(HEADER_SIZE, es, i) - es[i].prevlen
    ensures 0 <= es[i].prevlen <= |Flat(es[..i])|
  {
    hide ValidEntry, Flat;
    FlatNone(es);
    if i > 0 {
      FlatAround(es, i - 1);
      assert es[..i][..i - 1] == es[..i - 1];
      assert es[i].prevlen == Raw(es[i - 1]);
      EntryFits(es[i - 1]);
    }
  }

  /** A removed range of entries takes at least the room of the back-length field of its first entry. */
  lemma RangeSize(es: seq<Entry>, i: nat, j: nat)
    requires AllValid(es) && i < j <= |es|
    ensures |Flat(es[..i])| + 2 <= |Flat(es[..j])| <= |Flat(es)|
    ensures es[i].prevlen >= 254 ==> |Flat(es[..i])| + 6 <= |Flat(es[..j])|
    ensures |Flat(es[..j])| + |Flat(es[j..])| == |Flat(es)|
  {
    hide ValidBody, Flat;
    FlatAround(es, i);
    FlatSplit(es, j);
    if i + 1 < j { OffsetsIncrease(es, i + 1, j); }
    EntryFits(es[i]);
  }

  /** A cursor that stands on entry k, or on the end marker after the last entry. */
  predicate Cursor(d: seq<byte>, base: nat, es: seq<Entry>, k: int, p: int) {
    && AllValid(es) && 0 <= k <= |es| && p == OffsetOf(base, es, k)
    && 0 <= p < |d| && (d[p] == ZIP_END <==> k == |es|)
  }

  lemma CursorAt(d: seq<byte>, base: nat, es: seq<Entry>, k: nat, p: int)
    requires Laid(d, base, es) && k <= |es| && p == OffsetOf(base, es, k)
    ensures Cursor(d, base, es, k, p)
  {
    hide Flat, ValidEntry, At;
    AtEntryOrEnd(d, base, es, k);
  }

  lemma CursorNext(d: seq<byte>, base: nat, es: seq<Entry>, k: int, p: int)
    requires Laid(d, base, es) && Cursor(d, base, es, k, p) && d[p] != ZIP_END
    ensures EntryReadable(d[p..]) && Cursor(d, base, es, k + 1, p + ZipEntry(d[p..]).RawLength())
  {
    hide Flat, ValidEntry, At, EntryReadable, ZipEntry;
    NextOffset(d, base, es, k);
  }

  /** The most significant byte of a back-length below 2^31. */
  lemma HighByteSmall(len: int)
    requires 0 <= len < U32_LIMIT / 2
    ensures PrevField(5, len)[4] < 128
  {
    assert Le(len, 4)[1..] == Le(len / 256, 3);
    assert Le(len / 256, 3)[1..] == Le(len / 256 / 256, 2);
    assert Le(len / 256 / 256, 2)[1..] == Le(len / 256 / 256 / 256, 1);
  }

  /** Reading an entry whose back-length field has been disturbed in its content but not in its size. */
  lemma RawByBody(d: seq<byte>, q: nat, size: int, body: seq<byte>)
    requires q < |d| && PrevReadable(d[q..]) && PrevDecodeLength(d[q..]).0 == size
    requires ValidBody(body) && At(d, q + size, body)
    ensures EntryReadable(d[q..]) && ZipEntry(d[q..]).RawLength() == size + |body|
  {
    var b := d[q..][size..];
    assert b == body + d[q + size + |body|..];
    assert b[0] == body[0] && (|body| >= 2 ==> b[1] == body[1]);
    assert |body| >= 5 ==> b[1] == body[1] && b[2] == body[2] && b[3] == body[3] && b[4] == body[4];
  }

  /** In __ziplistDelete the entry after the removed range is read again after its new back-length has
      been stored nextdiff bytes before it; the reading still finds the old size. */
  lemma DisturbedHeader(d: seq<byte>, d': seq<byte>, q: nat, e: Entry, prevlen: int)
    requires ValidEntry(e) && At(d, q, EntryBytes(e)) && 0 <= prevlen < U32_LIMIT / 2
    requires var nextdiff := PrevSize(prevlen) - e.prevsize;
      && nextdiff <= q && |d'| == |d|
      && At(d', q - nextdiff, PrevField(PrevSize(prevlen), prevlen))
      && forall j :: q <= j < |d| && !(q - nextdiff <= j < q + e.prevsize) ==> d'[j] == d[j]
    ensures At(d', q + e.prevsize, e.body)
    ensures EntryReadable(d'[q..]) && ZipEntry(d'[q..]).RawLength() == Raw(e)
  {
    hide ValidBody, EntryReadable, ZipEntry, Le, FromLe;
    AtConcat(d, q, PrevField(e.prevsize, e.prevlen), e.body);
    AtSame(d, d', q + e.prevsize, e.body);
    var nextdiff := PrevSize(prevlen) - e.prevsize;
    var f := PrevField(PrevSize(prevlen), prevlen);
    assert nextdiff == 0 ==> d'[q] == f[0] by { if nextdiff == 0 { AtFirst(d', q, f); } }
    if nextdiff == 4 {
      HighByteSmall(prevlen);
      assert d'[q] == d'[q - 4..q + 1][4] == f[4];
    } else if nextdiff == -4 {
      AtFirst(d, q, EntryBytes(e));
      assert d'[q] == d[q] == 254;
    }
    RawByBody(d', q, e.prevsize, e.body);
  }

  /** The cascade loop: while it goes on, what is left to do from entry k of cur on gives the same
      result as the whole cascade; when it stops, cur is that result. */
  predicate CascadeState(d: seq<byte>, p0: nat, es: seq<Entry>, cur: seq<Entry>, k: nat, p: int, more: bool)
    requires es != []
  {
    && |cur| == |es| && Holds(d, p0, cur)
    && (if more then
          && k < |cur| && Cascade(cur, k) == Cascade(es, 0) && p == OffsetOf(p0, cur, k)
          && p0 + |Flat(cur)| + 4 * (|cur| - k) + 1 < U32_LIMIT / 2
        else cur == Cascade(es, 0))
  }

  lemma CascadeStart(d: seq<byte>, p0: nat, es: seq<Entry>)
    requires es != [] && Holds(d, p0, es) && p0 + |Flat(es)| + 4 * |es| + 1 < U32_LIMIT / 2
    ensures CascadeState(d, p0, es, es, 0, p0, true) && p0 < |d|
  {
    FlatNone(es);
  }

  lemma CascadeCursor(d: seq<byte>, p0: nat, es: seq<Entry>, cur: seq<Entry>, k: nat, p: int, more: bool)
    requires es != [] && CascadeState(d, p0, es, cur, k, p, more)
    ensures more ==> p0 <= p < |d| && d[p] != ZIP_END
  {
    hide Flat, At, Cascade, FromLe;
    if more { AtEntryOrEnd(d, p0, cur, k); }
  }

  lemma CascadeEnd(d: seq<byte>, p0: nat, es: seq<Entry>, cur: seq<Entry>, k: nat, p: int)
    requires es != [] && CascadeState(d, p0, es, cur, k, p, false)
    ensures Holds(d, p0, Cascade(es, 0))
  {
  }

  /** What __ziplistDelete may rely on after storing the new back-length of entry j ahead of the memmove. */
  lemma AheadFacts(d: seq<byte>, d': seq<byte>, es: seq<Entry>, j: nat, q: nat, prevlen: int)
    requires Laid(d, HEADER_SIZE, es) && j < |es| && q == OffsetOf(HEADER_SIZE, es, j)
    requires 0 <= prevlen < U32_LIMIT / 2 && |d'| == |d|
    requires var nextdiff := PrevSize(prevlen) - es[j].prevsize;
      && nextdiff <= q
      && At(d', q - nextdiff, PrevField(PrevSize(prevlen), prevlen))
      && forall k :: q <= k < |d| && !(q - nextdiff <= k < q + es[j].prevsize) ==> d'[k] == d[k]
    ensures At(d', q + es[j].prevsize, es[j].body + Flat(es[j + 1..]))
    ensures q + es[j].prevsize + |es[j].body + Flat(es[j + 1..])| + 1 == |d|
    ensures EntryReadable(d'[q..]) && ZipEntry(d'[q..]).RawLength() == Raw(es[j]) >= 2 && q + Raw(es[j]) < |d|
    ensures d'[q + Raw(es[j])] == ZIP_END <==> j + 1 == |es|
    ensures d'[|d| - 1] == ZIP_END
  {
    hide Flat, At, ValidEntry, EntryReadable, ZipEntry, PrevField;
    EntryFits(es[j]);
    AtHeader(d, HEADER_SIZE, es, j);
    AtEntry(d, HEADER_SIZE, es, j);
    NextOffset(d, HEADER_SIZE, es, j);
    AtSame(d, d', q + es[j].prevsize, es[j].body + Flat(es[j + 1..]));
    DisturbedHeader(d, d', q, es[j], prevlen);
  }

  /** The payload read behind a body's length header does not depend on what follows the body. */
  lemma {:induction false} PayloadInMemory(b: seq<byte>, rest: seq<byte>)
    requires ValidBody(b)
    ensures PayloadBehind((b + rest)[DecodeLength(b).0..], DecodeLength(b).1, EntryEncoding(b), PayloadOf(b))
  {
    hide LoadInteger;
    var (lensize, len) := DecodeLength(b);
    if IsStr(EntryEncoding(b)) {
      assert (b + rest)[lensize..][..len] == b[lensize..];
    } else {
      assert (b + rest)[lensize..] == b[lensize..] + rest;
      LoadPrefix(b[lensize..], rest, EntryEncoding(b));
    }
  }

  /** What ziplistGet reads from the memory m behind an entry header. */
  predicate PayloadBehind(m: seq<byte>, len: int, encoding: byte, payload: Payload) {
    if IsStr(encoding) then 0 <= len <= |m| && payload == Text(m[..len])
    else
      && (encoding == INT_16B || encoding == INT_32B || encoding == INT_64B)
      && |m| >= IntSize(encoding) && payload == Integer(LoadInteger(m, encoding))
  }

  lemma BodyBehind(e: Entry, rest: seq<byte>)
    requires ValidEntry(e)
    ensures (EntryBytes(e) + rest)[e.prevsize..] == e.body + rest
  {
    hide ValidBody;
    assert EntryBytes(e)[e.prevsize..] == e.body;
  }

  /** The payload of the entry at offset p is read from the buffer as from its own body. */
  lemma {:induction false} PayloadFound(d: seq<byte>, base: nat, es: seq<Entry>, k: int, p: int)
    requires Laid(d, base, es) && Cursor(d, base, es, k, p) && k < |es|
    ensures EntryReadable(d[p..]) && ValidBody(es[k].body)
    ensures var e := ZipEntry(d[p..]);
      && 0 <= p + e.HeaderSize() <= |d| && e.encoding == EntryEncoding(es[k].body)
      && PayloadBehind(d[p + e.HeaderSize()..], e.len, e.encoding, PayloadOf(es[k].body))
  {
    hide Flat, EntryReadable, ZipEntry, EntryEncoding, PayloadOf, DecodeLength, PayloadBehind, PrevField;
    AtEntry(d, base, es, k);
    var e := es[k];
    var rest := d[p + Raw(e)..];
    assert d[p..] == EntryBytes(e) + rest;
    ZipEntryOfBytes(e, rest);
    PayloadInMemory(e.body, rest);
    BodyBehind(e, rest);
    assert d[p..][e.prevsize..] == d[p + e.prevsize..];
    assert d[p + e.prevsize..][DecodeLength(e.body).0..] == d[p + e.prevsize + DecodeLength(e.body).0..];
  }

  // ----- stepping

  /** A back-length leads from an entry to its predecessor; only the first entry holds 0. */
  lemma PrevOffset(base: int, es: seq<Entry>, k: nat)
    requires WellLinked(es) && k < |es|
    ensures k == 0 ==> es[k].prevlen == 0
    ensures k > 0 ==> es[k].prevlen >= 2 && OffsetOf(base, es, k) - es[k].prevlen == OffsetOf(base, es, k - 1)
  {
    hide ValidEntry, Flat;
    if k > 0 {
      FlatAround(es, k - 1);
      EntryFits(es[k - 1]);
      assert es[k].prevlen == Raw(es[k - 1]);
    }
  }

  lemma StartCursor(d: seq<byte>, es: seq<Entry>)
    requires Laid(d, HEADER_SIZE, es)
    ensures Cursor(d, HEADER_SIZE, es, 0, HEADER_SIZE)
  {
    hide Flat, At, ValidEntry;
    FlatNone(es);
    CursorAt(d, HEADER_SIZE, es, 0, HEADER_SIZE);
  }

  /** The tail offset leads to the last entry, or to the end marker when there is none. */
  lemma TailCursor(d: seq<byte>, es: seq<Entry>)
    requires Holds(d, HEADER_SIZE, es)
    ensures 0 <= TailOffset(d) < |d|
    ensures Cursor(d, HEADER_SIZE, es, if es == [] then 0 else |es| - 1, TailOffset(d))
  {
    hide Flat, At, ValidEntry, FromLe;
    if es == [] { StartCursor(d, es); } else { CursorAt(d, HEADER_SIZE, es, |es| - 1, TailOffset(d)); }
  }

  /** The back-length at entry k can be read, and leads to entry k - 1 unless k is the first. */
  predicate PrevReadableAt(d: seq<byte>, es: seq<Entry>, k: int, p: int) {
    && 0 <= k < |es| && 0 <= p < |d| && EntryReadable(d[p..])
    && (if k == 0 then ZipEntry(d[p..]).prevrawlen == 0
        else ZipEntry(d[p..]).prevrawlen > 0 && Cursor(d, HEADER_SIZE, es, k - 1, p - ZipEntry(d[p..]).prevrawlen))
  }

  lemma PrevCursor(d: seq<byte>, es: seq<Entry>, k: int, p: int)
    requires Laid(d, HEADER_SIZE, es) && WellLinked(es) && k < |es| && Cursor(d, HEADER_SIZE, es, k, p)
    ensures PrevReadableAt(d, es, k, p)
  {
    hide Flat, At, ValidEntry, EntryReadable, ZipEntry;
    AtHeader(d, HEADER_SIZE, es, k);
    PrevOffset(HEADER_SIZE, es, k);
    if k > 0 { CursorAt(d, HEADER_SIZE, es, k - 1, OffsetOf(HEADER_SIZE, es, k - 1)); }
  }

  /** Only the first entry starts right after the header. */
  lemma StartOnly(es: seq<Entry>, k: nat)
    requires AllValid(es) && k <= |es|
    ensures OffsetOf(HEADER_SIZE, es, k) == HEADER_SIZE <==> k == 0
  {
    hide Flat, ValidEntry;
    FlatNone(es);
    if k > 0 { OffsetsIncrease(es, 0, k); }
  }

  lemma SameLengthField(d: seq<byte>, d': seq<byte>)
    requires |d| >= 10 && |d'| >= 10 && d'[8] == d[8] && d'[9] == d[9]
    ensures LengthField(d') == LengthField(d)
  {
    assert d'[8..10] == d[8..10];
  }

  /** An insertion at the head or at the tail always fits. */
  lemma EndsFit(d: seq<byte>, es: seq<Entry>, s: seq<byte>)
    requires WellLinked(es) && |s| < U32_LIMIT
    ensures InsertFits(d, es, 0, s) && InsertFits(d, es, |es|, s)
    ensures OffsetOf(HEADER_SIZE, es, 0) == HEADER_SIZE
  {
    hide EncodeBody, ValidEntry;
    FlatNone(es);
  }
}
