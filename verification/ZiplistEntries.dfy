/** A ziplist as a sequence of entries: how the entries are laid out in bytes, which sequences are
    well linked, and the effect of cascading, inserting and deleting on that sequence. */
module ZiplistEntries {
  import opened Bytes
  import opened ZiplistFormat

  /** An entry: the size and content of its back-length field, and the bytes after that field. */
  datatype Entry = Entry(prevsize: int, prevlen: int, body: seq<byte>)

  function Raw(e: Entry): int {
    e.prevsize + |e.body|
  }

  predicate ValidEntry(e: Entry) {
    PrevFits(e.prevsize, e.prevlen) && ValidBody(e.body)
  }

  predicate AllValid(es: seq<Entry>) {
    forall i :: 0 <= i < |es| ==> ValidEntry(es[i])
  }

  function EntryBytes(e: Entry): (s: seq<byte>)
    requires ValidEntry(e)
    ensures |s| == Raw(e) >= 2
    ensures s[0] != ZIP_END
  {
    PrevField(e.prevsize, e.prevlen) + e.body
  }

  /** Reading the header of the entry at a pointer gives back its fields, whatever follows the entry. */
  lemma ZipEntryOfBytes(e: Entry, rest: seq<byte>)
    requires ValidEntry(e)
    ensures var p := EntryBytes(e) + rest;
      && EntryReadable(p)
      && ZipEntry(p).prevrawlensize == e.prevsize
      && ZipEntry(p).prevrawlen == e.prevlen
      && ZipEntry(p).RawLength() == Raw(e)
      && (ZipEntry(p).lensize, ZipEntry(p).len) == DecodeLength(e.body)
      && ZipEntry(p).encoding == EntryEncoding(e.body)
  {
    var p := EntryBytes(e) + rest;
    assert p == PrevField(e.prevsize, e.prevlen) + (e.body + rest);
    PrevDecodeField(e.prevsize, e.prevlen, e.body + rest);
    var q := p[e.prevsize..];
    assert q == e.body + rest;
    assert q[0] == e.body[0] && (|e.body| >= 2 ==> q[1] == e.body[1]);
    assert |e.body| >= 5 ==> q[1] == e.body[1] && q[2] == e.body[2] && q[3] == e.body[3] && q[4] == e.body[4];
  }

  // ----- layout

  function Flat(es: seq<Entry>): (s: seq<byte>)
    requires AllValid(es)
    ensures |s| >= 2 * |es|
  {
    if es == [] then [] else EntryBytes(es[0]) + Flat(es[1..])
  }

  lemma {:induction false} FlatConcat(a: seq<Entry>, b: seq<Entry>)
    requires AllValid(a) && AllValid(b)
    ensures AllValid(a + b)
    ensures Flat(a + b) == Flat(a) + Flat(b)
  {
    hide ValidEntry, EntryBytes;
    if a == [] {
      assert a + b == b;
    } else {
      FlatConcat(a[1..], b);
      var ab := a + b;
      assert ab[0] == a[0] && ab[1..] == a[1..] + b;
      assert Flat(ab) == EntryBytes(a[0]) + (Flat(a[1..]) + Flat(b));
    }
  }

  lemma FlatNone(es: seq<Entry>)
    requires AllValid(es)
    ensures Flat(es[..0]) == []
  {
  }

  lemma FlatOne(e: Entry)
    requires ValidEntry(e)
    ensures Flat([e]) == EntryBytes(e)
  {
    assert Flat([e]) == EntryBytes(e) + [];
  }

  /** The layout split around entry k. */
  lemma FlatAround(es: seq<Entry>, k: nat)
    requires AllValid(es) && k < |es|
    ensures Flat(es) == Flat(es[..k]) + EntryBytes(es[k]) + Flat(es[k + 1..])
    ensures Flat(es[..k + 1]) == Flat(es[..k]) + EntryBytes(es[k])
    ensures Flat(es[k..]) == EntryBytes(es[k]) + Flat(es[k + 1..])
    ensures |Flat(es)| == |Flat(es[..k])| + Raw(es[k]) + |Flat(es[k + 1..])|
  {
    hide ValidEntry, EntryBytes;
    assert es[..k] + es[k..] == es;
    FlatConcat(es[..k], es[k..]);
    assert es[k..][1..] == es[k + 1..];
    assert es[..k + 1] == es[..k] + [es[k]];
    FlatConcat(es[..k], [es[k]]);
    assert Flat([es[k]]) == EntryBytes(es[k]) + [];
  }

  lemma FlatSplit(es: seq<Entry>, k: nat)
    requires AllValid(es) && k <= |es|
    ensures Flat(es) == Flat(es[..k]) + Flat(es[k..])
  {
    assert es[..k] + es[k..] == es;
    FlatConcat(es[..k], es[k..]);
  }

  /** Replacing one entry changes the total by the difference of the two raw lengths. */
  lemma FlatUpdate(es: seq<Entry>, k: nat, e: Entry)
    requires AllValid(es) && k < |es| && ValidEntry(e)
    ensures AllValid(es[k := e])
    ensures |Flat(es[k := e])| == |Flat(es)| - Raw(es[k]) + Raw(e)
  {
    var es' := es[k := e];
    FlatAround(es, k);
    FlatAround(es', k);
    assert es'[..k] == es[..k] && es'[k + 1..] == es[k + 1..];
  }

  // ----- linking

  /** Every entry from the second on records the raw length of its predecessor. */
  predicate Linked(es: seq<Entry>) {
    && AllValid(es)
    && forall i {:trigger es[i]} :: 1 <= i < |es| ==> es[i].prevlen == Raw(es[i - 1])
  }

  /** The ziplist invariant: linked, and the first entry holds length 0 in a one-byte field. */
  predicate WellLinked(es: seq<Entry>) {
    Linked(es) && (es != [] ==> es[0].prevsize == 1 && es[0].prevlen == 0)
  }

  /** Linked, except that the entry after k may hold a stale length. */
  predicate StaleAfter(es: seq<Entry>, k: nat) {
    && AllValid(es)
    && forall i {:trigger es[i]} :: 1 <= i < |es| && i != k + 1 ==> es[i].prevlen == Raw(es[i - 1])
  }

  /** __ziplistCascadeUpdate on the entries, started at entry k: widen the next back-length field while
      it is too small for the raw length before it, stop at the first one that need not grow. */
  function Cascade(es: seq<Entry>, k: nat): (c: seq<Entry>)
    requires k < |es|
    ensures |c| == |es|
    decreases |es| - k
  {
    if k + 1 == |es| then es
    else
      var rawlen := Raw(es[k]);
      var next := es[k + 1];
      if next.prevlen == rawlen then es
      else if next.prevsize < PrevSize(rawlen) then
        Cascade(es[k + 1 := Entry(PrevSize(rawlen), rawlen, next.body)], k + 1)
      else
        es[k + 1 := Entry(next.prevsize, rawlen, next.body)]
  }

  /** An entry rewritten to record the length len; its field grows when it must and never shrinks. */
  function Relink(e: Entry, len: int): Entry {
    Entry(if e.prevsize == 5 then 5 else PrevSize(len), len, e.body)
  }

  /** The exhaustive left-to-right pass that the cascade cuts short: every entry rewritten to record
      the raw length of its already rewritten predecessor. */
  predicate IsRelinked(es: seq<Entry>, c: seq<Entry>) {
    && |c| == |es|
    && (es != [] ==> c[0] == es[0])
    && forall i {:trigger c[i]} :: 1 <= i < |es| ==> c[i] == Relink(es[i], Raw(c[i - 1]))
  }

  /** Budget for a cascade: every field that has not been passed yet may still grow by four bytes. */
  predicate RoomFrom(es: seq<Entry>, k: nat)
    requires AllValid(es) && k <= |es|
  {
    |Flat(es)| + 4 * (|es| - k) < U32_LIMIT
  }

  lemma {:induction false} CascadePrefix(es: seq<Entry>, k: nat)
    requires k < |es|
    ensures forall i :: 0 <= i <= k ==> Cascade(es, k)[i] == es[i]
    decreases |es| - k
  {
    if k + 1 < |es| && es[k + 1].prevlen != Raw(es[k]) && es[k + 1].prevsize < PrevSize(Raw(es[k])) {
      CascadePrefix(es[k + 1 := Entry(PrevSize(Raw(es[k])), Raw(es[k]), es[k + 1].body)], k + 1);
    }
  }

  /** Rewriting a field in place leaves the rest of the list linked. */
  lemma CascadeStops(es: seq<Entry>, k: nat)
    requires k + 1 < |es| && StaleAfter(es, k) && es[k + 1].prevsize >= PrevSize(Raw(es[k]))
    ensures var es' := es[k + 1 := Relink(es[k + 1], Raw(es[k]))];
      forall i {:trigger es'[i]} :: k < i < |es| ==> es'[i] == Relink(es[i], Raw(es'[i - 1]))
  {
    var es' := es[k + 1 := Relink(es[k + 1], Raw(es[k]))];
    forall i | k < i < |es| ensures es'[i] == Relink(es[i], Raw(es'[i - 1])) {
      assert ValidEntry(es[i]);
      if i > k + 1 {
        assert es[i].prevlen == Raw(es[i - 1]) && Raw(es'[i - 1]) == Raw(es[i - 1]);
      }
    }
  }

  /** Every entry stays well formed, and the early stop loses nothing: from the first stale field on,
      the result is the exhaustive relinking. */
  lemma {:induction false} CascadeStep(es: seq<Entry>, k: nat)
    requires k < |es| && StaleAfter(es, k) && RoomFrom(es, k)
    ensures AllValid(Cascade(es, k))
    ensures forall i {:trigger Cascade(es, k)[i]} ::
      1 <= i < |es| && k < i ==> Cascade(es, k)[i] == Relink(es[i], Raw(Cascade(es, k)[i - 1]))
    decreases |es| - k
  {
    hide ValidBody, Flat;
    FlatAround(es, k);
    if k + 1 < |es| {
      var rawlen := Raw(es[k]);
      var next := es[k + 1];
      if next.prevlen != rawlen {
        var next' := Relink(next, rawlen);
        var es' := es[k + 1 := next'];
        FlatUpdate(es, k + 1, next');
        if next.prevsize < PrevSize(rawlen) {
          CascadeStep(es', k + 1);
          CascadePrefix(es', k + 1);
          var c := Cascade(es', k + 1);
          assert c == Cascade(es, k);
          forall i | k < i < |es| ensures c[i] == Relink(es[i], Raw(c[i - 1])) {
            if i == k + 1 {
              assert c[i] == es'[i] && c[i - 1] == es'[i - 1] == es[k];
            } else {
              assert es[i] == es'[i];
            }
          }
        } else {
          CascadeStops(es, k);
        }
      }
    }
  }

  /** The cascade, started where at most one back-length is stale, equals the exhaustive relinking;
      the list it leaves is linked, and payloads and order are untouched. */
  lemma {:induction false} CascadeCorrect(es: seq<Entry>)
    requires es != [] && StaleAfter(es, 0) && RoomFrom(es, 0)
    ensures IsRelinked(es, Cascade(es, 0))
    ensures Linked(Cascade(es, 0))
    ensures forall i :: 0 <= i < |es| ==> Cascade(es, 0)[i].body == es[i].body
  {
    CascadePrefix(es, 0);
    CascadeStep(es, 0);
    var c := Cascade(es, 0);
    forall i | 0 <= i < |es| ensures c[i].body == es[i].body {
      if i > 0 { assert c[i] == Relink(es[i], Raw(c[i - 1])); }
    }
  }

  lemma {:induction false} RelinkedAt(es: seq<Entry>, c: seq<Entry>, d: seq<Entry>, k: nat)
    requires IsRelinked(es, c) && IsRelinked(es, d) && k < |es|
    ensures c[k] == d[k]
  {
    if k > 0 {
      RelinkedAt(es, c, d, k - 1);
    }
  }

  /** The exhaustive relinking is determined by its input. */
  lemma RelinkedUnique(es: seq<Entry>, c: seq<Entry>, d: seq<Entry>)
    requires IsRelinked(es, c) && IsRelinked(es, d)
    ensures c == d
  {
    forall k | 0 <= k < |es| ensures c[k] == d[k] {
      RelinkedAt(es, c, d, k);
    }
  }

  /** Number of entries whose back-length field differs in size. */
  function Widened(es: seq<Entry>, c: seq<Entry>): nat
    requires |es| == |c|
  {
    if es == [] then 0 else (if es[0].prevsize != c[0].prevsize then 1 else 0) + Widened(es[1..], c[1..])
  }

  lemma {:induction false} GrowthByWidening(es: seq<Entry>, c: seq<Entry>)
    requires |es| == |c| && AllValid(es) && AllValid(c)
    requires forall i :: 0 <= i < |es| ==>
      c[i].body == es[i].body && (c[i].prevsize == es[i].prevsize || c[i].prevsize == 5)
    ensures |Flat(c)| == |Flat(es)| + 4 * Widened(es, c)
  {
    if es != [] {
      GrowthByWidening(es[1..], c[1..]);
    }
  }

  /** The cascade grows the buffer by four bytes for every entry it widens, and by nothing else. */
  lemma CascadeGrowth(es: seq<Entry>)
    requires es != [] && StaleAfter(es, 0) && RoomFrom(es, 0)
    ensures AllValid(Cascade(es, 0))
    ensures |Flat(Cascade(es, 0))| == |Flat(es)| + 4 * Widened(es, Cascade(es, 0))
  {
    CascadeCorrect(es);
    var c := Cascade(es, 0);
    forall i | 0 <= i < |es| ensures c[i].prevsize == es[i].prevsize || c[i].prevsize == 5 {
      if i > 0 { assert c[i] == Relink(es[i], Raw(c[i - 1])); }
    }
    GrowthByWidening(es, c);
  }

  // ----- insertion and deletion

  function Bodies(es: seq<Entry>): (r: seq<seq<byte>>)
    ensures |r| == |es|
  {
    seq(|es|, i requires 0 <= i < |es| => es[i].body)
  }

  /** The back-length that an entry inserted at position i records. */
  function PrevLenAt(es: seq<Entry>, i: nat): int
    requires i <= |es|
  {
    if i < |es| then es[i].prevlen else if i > 0 then Raw(es[i - 1]) else 0
  }

  function NewEntry(es: seq<Entry>, i: nat, body: seq<byte>): Entry
    requires i <= |es|
  {
    Entry(PrevSize(PrevLenAt(es, i)), PrevLenAt(es, i), body)
  }

  /** The entries after a change of what precedes them: the first one records len in a field of exactly
      the size len needs, and a cascade follows when that changed its raw length. */
  function Refit(rest: seq<Entry>, len: int): (r: seq<Entry>)
    requires rest != []
    ensures |r| == |rest|
  {
    var first := [Entry(PrevSize(len), len, rest[0].body)] + rest[1..];
    if PrevSize(len) == rest[0].prevsize then first else Cascade(first, 0)
  }

  function Inserted(es: seq<Entry>, i: nat, body: seq<byte>): seq<Entry>
    requires i <= |es|
  {
    var e := NewEntry(es, i, body);
    es[..i] + [e] + (if i == |es| then [] else Refit(es[i..], Raw(e)))
  }

  /** Deletion of at most n entries from position i on. */
  function Deleted(es: seq<Entry>, i: nat, n: nat): seq<Entry>
    requires i < |es|
  {
    var j := if i + n < |es| then i + n else |es|;
    if j == i then es
    else es[..i] + (if j == |es| then [] else Refit(es[j..], es[i].prevlen))
  }

  /** Asking for more entries than there are removes those there are. */
  lemma DeletedCapped(es: seq<Entry>, i: nat, n: nat)
    requires i < |es|
    ensures Deleted(es, i, n) == Deleted(es, i, if i + n < |es| then n else |es| - i)
    ensures Deleted(es, i, 0) == es
  {
  }

  lemma {:induction false} FlatGrowthBound(es: seq<Entry>, c: seq<Entry>)
    requires |es| == |c| && AllValid(es) && AllValid(c)
    requires forall i :: 0 <= i < |es| ==> c[i].body == es[i].body
    ensures |Flat(c)| <= |Flat(es)| + 4 * |es|
  {
    if es != [] {
      FlatGrowthBound(es[1..], c[1..]);
    }
  }

  lemma LinkedConcat(a: seq<Entry>, b: seq<Entry>)
    requires Linked(a) && Linked(b)
    requires a != [] && b != [] ==> b[0].prevlen == Raw(a[|a| - 1])
    ensures Linked(a + b)
  {
    hide ValidEntry;
    var c := a + b;
    forall i | 1 <= i < |c| ensures c[i].prevlen == Raw(c[i - 1]) {
      if i >= |a| { assert c[i] == b[i - |a|]; }
      if i > |a| { assert c[i - 1] == b[i - |a| - 1]; }
    }
  }

  lemma {:induction false} RefitCorrect(rest: seq<Entry>, len: int)
    requires rest != [] && Linked(rest) && 0 <= len
    requires |Flat(rest)| + 4 * |rest| + 4 < U32_LIMIT && len < U32_LIMIT
    ensures var r := Refit(rest, len);
      && Linked(r) && Bodies(r) == Bodies(rest)
      && r[0] == Entry(PrevSize(len), len, rest[0].body)
      && |Flat(r)| <= |Flat(rest)| + 4 * |rest|
  {
    hide ValidBody;
    var e := Entry(PrevSize(len), len, rest[0].body);
    var first := [e] + rest[1..];
    assert first == rest[0 := e];
    FlatUpdate(rest, 0, e);
    if e.prevsize == rest[0].prevsize {
      forall i | 1 <= i < |first| ensures first[i].prevlen == Raw(first[i - 1]) {
        assert first[i] == rest[i];
      }
    } else {
      assert StaleAfter(first, 0) by {
        forall i | 1 <= i < |first| && i != 1 ensures first[i].prevlen == Raw(first[i - 1]) {
          assert first[i] == rest[i];
        }
      }
      CascadeCorrect(first);
    }
    FlatGrowthBound(rest, Refit(rest, len));
  }

  /** Room for inserting n body bytes: every back-length field may have to grow. */
  predicate RoomToInsert(es: seq<Entry>, n: nat)
    requires AllValid(es)
  {
    |Flat(es)| + 4 * |es| + n + 9 < U32_LIMIT
  }

  lemma BodiesSplit(es: seq<Entry>, j: nat)
    requires j <= |es|
    ensures Bodies(es[..j]) == Bodies(es)[..j] && Bodies(es[j..]) == Bodies(es)[j..]
  {
  }

  lemma BodiesConcat(a: seq<Entry>, b: seq<Entry>)
    ensures Bodies(a + b) == Bodies(a) + Bodies(b)
  {
  }

  /** The entries from j on, refitted to a new preceding length. */
  lemma RefitSuffix(es: seq<Entry>, j: nat, len: int)
    requires j < |es| && Linked(es) && 0 <= len < U32_LIMIT && |Flat(es)| + 4 * |es| + 4 < U32_LIMIT
    ensures Linked(es[..j]) && Linked(es[j..])
    ensures var r := Refit(es[j..], len);
      && Linked(r) && Bodies(r) == Bodies(es)[j..]
      && r[0] == Entry(PrevSize(len), len, es[j].body)
      && |Flat(es[..j])| + |Flat(r)| <= |Flat(es)| + 4 * |es|
  {
    hide ValidEntry, Flat, Refit;
    FlatSplit(es, j);
    assert Linked(es[j..]) by {
      forall k | 1 <= k < |es[j..]| ensures es[j..][k].prevlen == Raw(es[j..][k - 1]) {
        assert es[j..][k] == es[j + k];
      }
    }
    RefitCorrect(es[j..], len);
    BodiesSplit(es, j);
  }

  /** Insertion keeps the list well linked and puts the new body at position i, moving no other. */
  lemma {:induction false} InsertedCorrect(es: seq<Entry>, i: nat, body: seq<byte>)
    requires WellLinked(es) && i <= |es| && ValidBody(body) && RoomToInsert(es, |body|)
    ensures WellLinked(Inserted(es, i, body))
    ensures Bodies(Inserted(es, i, body)) == Bodies(es)[..i] + [body] + Bodies(es)[i..]
    ensures |Flat(Inserted(es, i, body))| <= |Flat(es)| + 4 * |es| + |body| + 5
  {
    hide ValidBody, Flat, Refit;
    var e := NewEntry(es, i, body);
    NewEntryValid(es, i, body);
    var a := es[..i] + [e];
    LinkedConcat(es[..i], [e]);
    FlatConcat(es[..i], [e]);
    FlatAround([e], 0);
    assert [e][..0] == [] && [e][1..] == [];
    assert |Flat([e])| == Raw(e) by { assert Flat([]) == []; }
    BodiesSplit(es, i);
    BodiesConcat(es[..i], [e]);
    assert Bodies([e]) == [body];
    if i < |es| {
      RefitSuffix(es, i, Raw(e));
      var r := Refit(es[i..], Raw(e));
      LinkedConcat(a, r);
      FlatConcat(a, r);
      BodiesConcat(a, r);
    } else {
      assert Inserted(es, i, body) == a;
      assert es[..i] == es;
    }
  }

  lemma NewEntryValid(es: seq<Entry>, i: nat, body: seq<byte>)
    requires WellLinked(es) && i <= |es| && ValidBody(body) && RoomToInsert(es, |body|)
    ensures ValidEntry(NewEntry(es, i, body))
    ensures i > 0 ==> PrevLenAt(es, i) == Raw(es[i - 1])
    ensures i == 0 ==> PrevLenAt(es, i) == 0
  {
    hide ValidBody, Flat;
    if i > 0 { FlatAround(es, i - 1); }
    if 0 < i < |es| { assert es[i].prevlen == Raw(es[i - 1]); }
    if i > 0 { assert ValidEntry(es[i - 1]); }
  }

  lemma PrevlenInRange(es: seq<Entry>, i: nat)
    requires AllValid(es) && i < |es|
    ensures 0 <= es[i].prevlen < U32_LIMIT
  {
    assert ValidEntry(es[i]);
  }

  lemma {:induction false} DeletedLinks(es: seq<Entry>, i: nat, j: nat)
    requires WellLinked(es) && i < j < |es| && RoomToInsert(es, 0)
    ensures var r := Refit(es[j..], es[i].prevlen);
      && WellLinked(es[..i] + r) && |Flat(es[..i] + r)| <= |Flat(es)| + 4 * |es| && Bodies(r) == Bodies(es[j..])
  {
    hide ValidEntry, Flat, Refit, EntryBytes;
    PrevlenInRange(es, i);
    FlatSplit(es[..j], i);
    assert es[..j][..i] == es[..i];
    RefitSuffix(es, j, es[i].prevlen);
    var r := Refit(es[j..], es[i].prevlen);
    assert i > 0 ==> es[i].prevlen == Raw(es[i - 1]);
    LinkedConcat(es[..i], r);
    FlatConcat(es[..i], r);
  }

  lemma {:induction false} DeletedMiddle(es: seq<Entry>, i: nat, j: nat)
    requires WellLinked(es) && i < j < |es| && RoomToInsert(es, 0)
    ensures var r := es[..i] + Refit(es[j..], es[i].prevlen);
      && WellLinked(r) && Bodies(r) == Bodies(es)[..i] + Bodies(es)[j..]
      && |Flat(r)| <= |Flat(es)| + 4 * |es|
  {
    hide ValidBody, Flat, Refit, WellLinked;
    DeletedLinks(es, i, j);
    BodiesSplit(es, i);
    BodiesSplit(es, j);
    BodiesConcat(es[..i], Refit(es[j..], es[i].prevlen));
  }

  /** Deletion keeps the list well linked and removes exactly the bodies of the named positions. */
  lemma {:induction false} DeletedCorrect(es: seq<Entry>, i: nat, n: nat)
    requires WellLinked(es) && i < |es| && RoomToInsert(es, 0)
    ensures var j := if i + n < |es| then i + n else |es|;
      && WellLinked(Deleted(es, i, n))
      && Bodies(Deleted(es, i, n)) == Bodies(es)[..i] + Bodies(es)[j..]
      && |Flat(Deleted(es, i, n))| <= |Flat(es)| + 4 * |es|
  {
    hide ValidBody, Flat, Refit;
    var j := if i + n < |es| then i + n else |es|;
    BodiesSplit(es, i);
    FlatSplit(es, i);
    if j == i {
      assert Deleted(es, i, n) == es;
      assert Bodies(es) == Bodies(es)[..i] + Bodies(es)[i..];
    } else if j < |es| {
      DeletedMiddle(es, i, j);
    } else {
      assert Deleted(es, i, n) == es[..i];
    }
  }
}
