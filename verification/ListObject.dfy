/** List objects (t_list.c): one sequence of strings behind a ziplist or a linked list, the iterator that works on
    both, and the commands that remove elements while iterating. */
module ListObject {
  import opened Bytes
  import opened Decimal
  import opened Options
  import opened Sequences
  import opened ZiplistFormat
  import opened ZiplistEntries
  import opened ZiplistLayout
  import opened ZiplistMisfit
  import opened Ziplist

  // ----- what LREM means

  /** All elements but those equal to o. */
  function AllBut<T(==)>(s: seq<T>, o: T): seq<T> {
    if s == [] then [] else AllBut(s[..|s| - 1], o) + if s[|s| - 1] == o then [] else [s[|s| - 1]]
  }

  /** Without the first k elements equal to o. */
  function DropFirst<T(==)>(s: seq<T>, o: T, k: nat): (r: seq<T>)
    ensures |s| - k <= |r| <= |s|
  {
    if s == [] || k == 0 then s
    else if s[0] == o then DropFirst(s[1..], o, k - 1)
    else [s[0]] + DropFirst(s[1..], o, k)
  }

  /** Without the last k elements equal to o. */
  function DropLast<T(==)>(s: seq<T>, o: T, k: nat): (r: seq<T>)
    ensures |s| - k <= |r| <= |s|
  {
    if s == [] || k == 0 then s
    else if s[|s| - 1] == o then DropLast(s[..|s| - 1], o, k - 1)
    else DropLast(s[..|s| - 1], o, k) + [s[|s| - 1]]
  }

  /** One more element behind those that have been scanned. */
  lemma {:induction false} DropFirstSnoc<T>(s: seq<T>, x: T, o: T, k: nat)
    ensures DropFirst(s + [x], o, k)
         == DropFirst(s, o, k) + if x == o && |s| - |DropFirst(s, o, k)| < k then [] else [x]
  {
    if s == [] {
      assert [x][1..] == [];
      assert s + [x] == [x];
    } else if k > 0 {
      assert (s + [x])[1..] == s[1..] + [x];
      DropFirstSnoc(s[1..], x, o, if s[0] == o then k - 1 else k);
    }
  }

  /** When k elements have been dropped, the rest stays. */
  lemma {:induction false} DropFirstDone<T>(s: seq<T>, t: seq<T>, o: T, k: nat)
    requires |s| - |DropFirst(s, o, k)| == k
    ensures DropFirst(s + t, o, k) == DropFirst(s, o, k) + t
  {
    if k > 0 {
      assert (s + t)[1..] == s[1..] + t;
      DropFirstDone(s[1..], t, o, if s[0] == o then k - 1 else k);
    }
  }

  lemma {:induction false} DropLastCons<T>(s: seq<T>, x: T, o: T, k: nat)
    ensures DropLast([x] + s, o, k)
         == (if x == o && |s| - |DropLast(s, o, k)| < k then [] else [x]) + DropLast(s, o, k)
  {
    var n := |s| - 1;
    if s == [] {
      assert [x][..0] == [];
      assert [x] + s == [x];
    } else if k > 0 {
      assert ([x] + s)[..n + 1] == [x] + s[..n];
      DropLastCons(s[..n], x, o, if s[n] == o then k - 1 else k);
    }
  }

  lemma {:induction false} DropLastDone<T>(s: seq<T>, t: seq<T>, o: T, k: nat)
    requires |s| - |DropLast(s, o, k)| == k
    ensures DropLast(t + s, o, k) == t + DropLast(s, o, k)
  {
    if k > 0 {
      var n := |s| - 1;
      assert (t + s)[..|t + s| - 1] == t + s[..n];
      DropLastDone(s[..n], t, o, if s[n] == o then k - 1 else k);
    }
  }

  /** Dropping without a bound leaves exactly the other elements, from either side. */
  lemma {:induction false} DropAll<T>(s: seq<T>, o: T, k: nat)
    requires k >= |s|
    ensures DropFirst(s, o, k) == AllBut(s, o) == DropLast(s, o, k)
  {
    if s != [] {
      var n := |s| - 1;
      DropAll(s[..n], o, k);
      DropFirstSnoc(s[..n], s[n], o, k);
      assert s[..n] + [s[n]] == s;
      if s[n] == o {
        DropAll(s[..n], o, k - 1);
      }
    }
  }

  /** What is dropped lies in a prefix that contains no other element equal to o, and the rest is untouched. */
  lemma {:induction false} DropFirstPrefix<T>(s: seq<T>, o: T, k: nat) returns (n: nat)
    ensures n <= |s| && DropFirst(s, o, k) == AllBut(s[..n], o) + s[n..]
    ensures |s| - |DropFirst(s, o, k)| == k || n == |s|
  {
    n := 0;
    assert s[..0] == [];
    while n < |s| && n - |AllBut(s[..n], o)| < k
      invariant n <= |s| && |AllBut(s[..n], o)| <= n && n - |AllBut(s[..n], o)| <= k
      invariant DropFirst(s[..n], o, k) == AllBut(s[..n], o)
    {
      assert s[..n + 1] == s[..n] + [s[n]] && s[..n + 1][..n] == s[..n];
      DropFirstSnoc(s[..n], s[n], o, k);
      n := n + 1;
    }
    assert s[..n] + s[n..] == s;
    if n < |s| {
      DropFirstDone(s[..n], s[n..], o, k);
    } else {
      assert s[..n] == s;
    }
  }

  lemma {:induction false} AllButCons<T>(s: seq<T>, x: T, o: T)
    ensures AllBut([x] + s, o) == (if x == o then [] else [x]) + AllBut(s, o)
  {
    if s == [] {
      assert [x][..0] == [];
      assert [x] + s == [x];
    } else {
      var n := |s| - 1;
      assert ([x] + s)[..n + 1] == [x] + s[..n];
      AllButCons(s[..n], x, o);
    }
  }

  /** From the tail, what is dropped lies in a suffix that contains no other element equal to o. */
  lemma {:induction false} DropLastSuffix<T>(s: seq<T>, o: T, k: nat) returns (n: nat)
    ensures n <= |s| && DropLast(s, o, k) == s[..n] + AllBut(s[n..], o)
    ensures |s| - |DropLast(s, o, k)| == k || n == 0
  {
    n := |s|;
    assert s[|s|..] == [];
    while n > 0 && |s| - n - |AllBut(s[n..], o)| < k
      invariant n <= |s| && |AllBut(s[n..], o)| <= |s| - n && |s| - n - |AllBut(s[n..], o)| <= k
      invariant DropLast(s[n..], o, k) == AllBut(s[n..], o)
    {
      assert s[n - 1..] == [s[n - 1]] + s[n..];
      DropLastCons(s[n..], s[n - 1], o, k);
      AllButCons(s[n..], s[n - 1], o);
      n := n - 1;
    }
    assert s[..n] + s[n..] == s;
    if n > 0 {
      DropLastDone(s[n..], s[..n], o, k);
    } else {
      assert s[n..] == s;
    }
  }

  /** Scanning one more element from the head. */
  lemma {:induction false} Scanned<T>(vs: seq<T>, o: T, lim: nat, n: nat)
    requires n < |vs|
    ensures var d := DropFirst(vs[..n], o, lim);
      && DropFirst(vs[..n + 1], o, lim) == d + (if vs[n] == o && n - |d| < lim then [] else [vs[n]])
      && (d + vs[n..])[|d|] == vs[n] && RemoveAt(d + vs[n..], |d|) == d + vs[n + 1..]
        && d + [vs[n]] + vs[n + 1..] == d + vs[n..]
  {
    hide DropFirst, RemoveAt;
    DropFirstSnoc(vs[..n], vs[n], o, lim);
    assert vs[..n] + [vs[n]] == vs[..n + 1];
    assert vs[n..] == [vs[n]] + vs[n + 1..];
    Spliced(DropFirst(vs[..n], o, lim), vs[n], vs[n + 1..]);
  }

  lemma Spliced<T>(d: seq<T>, x: T, r: seq<T>)
    ensures (d + ([x] + r))[|d|] == x && RemoveAt(d + ([x] + r), |d|) == d + r && d + [x] + r == d + ([x] + r)
  {
  }

  /** Scanning one more element from the tail. */
  lemma {:induction false} ScannedBack<T>(vs: seq<T>, o: T, lim: nat, n: nat)
    requires n < |vs|
    ensures var d := DropLast(vs[n + 1..], o, lim);
      && DropLast(vs[n..], o, lim) == (if vs[n] == o && |vs| - n - 1 - |d| < lim then [] else [vs[n]]) + d
      && (vs[..n + 1] + d)[n] == vs[n] && RemoveAt(vs[..n + 1] + d, n) == vs[..n] + d
        && vs[..n] + ([vs[n]] + d) == vs[..n + 1] + d
  {
    DropLastCons(vs[n + 1..], vs[n], o, lim);
    assert [vs[n]] + vs[n + 1..] == vs[n..];
  }

  lemma {:induction false} ScanStart<T>(vs: seq<T>, o: T, lim: nat)
    ensures vs[..0] == [] && vs[0..] == vs
    ensures DropFirst([], o, lim) == [] && [] + vs == vs
  {
  }

  lemma {:induction false} ScanEnd<T>(vs: seq<T>, o: T, lim: nat, n: nat, d: seq<T>)
    requires n == |vs| && d == DropFirst(vs[..n], o, lim)
    ensures d + vs[n..] == DropFirst(vs, o, lim) && DropFirst(vs, o, |vs|) == DropFirst(vs, o, |vs| + 1)
  {
    assert vs[..n] == vs && d + vs[n..] == d;
    DropAll(vs, o, |vs|);
    DropAll(vs, o, |vs| + 1);
  }

  /** A scan from the tail of vs has come to index n: d is left of what is behind it, and values is what there is. */
  ghost predicate ScanState<T>(vs: seq<T>, o: T, lim: nat, n: nat, d: seq<T>, values: seq<T>) {
    n <= |vs| && d == DropLast(vs[n..], o, lim) && values == vs[..n] + d
  }

  lemma {:induction false} ScanStartBack<T>(vs: seq<T>, o: T, lim: nat)
    ensures ScanState(vs, o, lim, |vs|, [], vs)
  {
    assert vs[|vs|..] == [] && vs[..|vs|] + [] == vs;
  }

  lemma {:induction false} ScanEndBack<T>(vs: seq<T>, o: T, lim: nat, d: seq<T>, values: seq<T>)
    requires ScanState(vs, o, lim, 0, d, values)
    ensures values == DropLast(vs, o, lim) && |values| == |d|
  {
    assert vs[0..] == vs && vs[..0] + d == d;
  }

  lemma {:induction false} Finished<T>(vs: seq<T>, o: T, lim: nat, n: nat)
    requires n <= |vs| && n - |DropFirst(vs[..n], o, lim)| == lim
    ensures DropFirst(vs, o, lim) == DropFirst(vs[..n], o, lim) + vs[n..]
  {
    DropFirstDone(vs[..n], vs[n..], o, lim);
    assert vs[..n] + vs[n..] == vs;
  }

  lemma {:induction false} FinishedBack<T>(vs: seq<T>, o: T, lim: nat, n: nat, d: seq<T>, values: seq<T>)
    requires ScanState(vs, o, lim, n, d, values) && |vs| - n - |d| == lim
    ensures values == DropLast(vs, o, lim) && |vs| - |values| == lim
  {
    DropLastDone(vs[n..], vs[..n], o, lim);
    assert vs[..n] + vs[n..] == vs;
  }

  lemma HeadCut<T>(vs: seq<T>, ltrim: nat)
    requires ltrim <= |vs|
    ensures var n := |vs|; vs[ltrim..] == if n == 0 then vs else vs[..0] + vs[if ltrim < n then ltrim else n..]
  {
  }

  /** What ltrimCommand keeps of the elements vs: the positions start to end, cut to the list. */
  function Kept<T>(vs: seq<T>, start: int, end: int): seq<T> {
    var n := |vs|;
    var lo, hi := FromEnd(start, n), FromEnd(end, n);
    var a, b := if lo < 0 then 0 else lo, if hi >= n then n - 1 else hi;
    if a > b then [] else vs[a..b + 1]
  }

  lemma KeptIs<T>(vs: seq<T>, start: int, end: int, ltrim: nat, rtrim: nat)
    requires var n := |vs|; var lo, hi := if FromEnd(start, n) < 0 then 0 else FromEnd(start, n), FromEnd(end, n);
      if lo > hi || lo >= n then ltrim == n && rtrim == 0
      else ltrim == lo && rtrim == n - (if hi >= n then n - 1 else hi) - 1
    ensures ltrim + rtrim <= |vs| && vs[ltrim..|vs| - rtrim] == Kept(vs, start, end)
  {
  }

  lemma TailCut<T>(vs: seq<T>, ltrim: nat, rtrim: nat)
    requires ltrim + rtrim <= |vs|
    ensures var ws := vs[ltrim..]; var n := |ws|; var k := FromEnd(-(rtrim as int), n);
      vs[ltrim..|vs| - rtrim] == if !(0 <= k < n) then ws else ws[..k] + ws[if k + rtrim < n then k + rtrim else n..]
  {
  }

  // ----- room in the ziplist

  /** The most that entries with these bodies can take: every back-length field may be five bytes wide. */
  function FullSize(bodies: seq<seq<byte>>): (n: nat) {
    if bodies == [] then 0 else FullSize(bodies[..|bodies| - 1]) + 5 + |bodies[|bodies| - 1]|
  }

  lemma {:induction false} FullSizeConcat(a: seq<seq<byte>>, b: seq<seq<byte>>)
    ensures FullSize(a + b) == FullSize(a) + FullSize(b)
  {
    if b == [] {
      assert a + b == a;
    } else {
      var n := |b| - 1;
      assert (a + b)[..|a| + n] == a + b[..n];
      FullSizeConcat(a, b[..n]);
    }
  }

  lemma FullSizePart(b: seq<seq<byte>>, i: nat, j: nat)
    requires i <= j <= |b|
    ensures FullSize(b[..i] + b[j..]) <= FullSize(b)
  {
    hide FullSize;
    var x, y, z := b[..i], b[i..j], b[j..];
    FullSizeConcat(x, y);
    FullSizeConcat(x + y, z);
    FullSizeConcat(x, z);
    assert x + y + z == b;
  }

  lemma {:induction false} FlatWithin(es: seq<Entry>)
    requires AllValid(es)
    ensures |Flat(es)| <= FullSize(Bodies(es))
  {
    hide ValidBody, PrevField;
    if es != [] {
      var n := |es| - 1;
      FlatWithin(es[..n]);
      FlatConcat(es[..n], es[n..]);
      assert es[..n] + es[n..] == es && es[n..] == [es[n]];
      FlatOne(es[n]);
      assert Bodies(es)[..n] == Bodies(es[..n]);
    }
  }

  /** Room for any number of deletions. */
  predicate Room(bodies: seq<seq<byte>>) {
    HEADER_SIZE + FullSize(bodies) + 4 * |bodies| + 10 < U32_LIMIT / 2
  }

  lemma RoomLeft(es: seq<Entry>)
    requires AllValid(es) && Room(Bodies(es))
    ensures RoomToDelete(es)
  {
    FlatWithin(es);
  }

  lemma RoomAfter(es: seq<Entry>, i: nat, n: nat)
    requires WellLinked(es) && i < |es| && Room(Bodies(es))
    ensures WellLinked(Deleted(es, i, n)) && Room(Bodies(Deleted(es, i, n)))
  {
    RoomLeft(es);
    DeletedCorrect(es, i, n);
    FullSizePart(Bodies(es), i, if i + n < |es| then i + n else |es|);
  }

  /** Room for one more string as well. */
  predicate RoomWith(bodies: seq<seq<byte>>, s: seq<byte>) {
    |s| < U32_LIMIT && Room(bodies + [EncodeBody(s)])
  }

  lemma {:induction false} FullSizeInserted(b: seq<seq<byte>>, i: nat, x: seq<byte>)
    requires i <= |b|
    ensures FullSize(b[..i] + [x] + b[i..]) == FullSize(b + [x]) == FullSize(b) + 5 + |x|
  {
    assert (b + [x])[..|b|] == b;
    assert FullSize([x]) == FullSize([x][..0]) + 5 + |x|;
    hide FullSize;
    var a, c := b[..i], b[i..];
    FullSizeConcat(a, [x]);
    FullSizeConcat(a + [x], c);
    FullSizeConcat(a, c);
    assert a + c == b;
  }

  lemma {:induction false} RoomInserted(es: seq<Entry>, i: nat, s: seq<byte>)
    requires WellLinked(es) && i <= |es| && RoomWith(Bodies(es), s)
    ensures RoomFor(es, s) && WellLinked(Inserted(es, i, EncodeBody(s)))
    ensures Room(Bodies(Inserted(es, i, EncodeBody(s)))) && |es| + 1 < 0x8000_0000
  {
    hide FullSize, EncodeBody, Flat, Inserted, ValidBody;
    FlatWithin(es);
    EncodeBodyValid(s);
    FullSizeInserted(Bodies(es), i, EncodeBody(s));
    InsertedCorrect(es, i, EncodeBody(s));
  }

  // ----- the object

  /** A list object. The linked list is the sequence of its node values; a place in it is an index. */
  class ListObject {
    /** The ziplist, or null when the encoding is a linked list. */
    var zl: Ziplist?
    var items: seq<seq<byte>>

    ghost predicate Valid()
      reads this, zl, if zl == null then {} else {zl.buf}
    {
      zl != null ==> zl.Valid() && Room(Bodies(zl.entries)) && |zl.values| < 0x8000_0000
    }

    /** The strings the object represents. */
    ghost function Values(): seq<seq<byte>>
      reads this, zl
    {
      if zl != null then zl.values else items
    }

    /** The ziplist and its buffer, if there is one. */
    ghost function Owned(): set<object>
      reads this, zl
    {
      if zl == null then {} else
        var z: Ziplist := zl;
        {z, z.buf}
    }

    /** An iterator stands on element k, or, in a ziplist, on the end mark. */
    ghost predicate On(at: nat, k: int)
      requires Valid()
      reads this, zl, if zl == null then {} else {zl.buf}
    {
      if zl != null then 0 <= k <= |zl.values| && Cursor(zl.buf[..], HEADER_SIZE, zl.entries, k, at)
      else at == k && 0 <= k < |items|
    }

    lemma PlaceOf(k: nat)
      requires Valid() && zl != null && k <= |zl.values|
      ensures |zl.entries| == |zl.values|
      ensures Cursor(zl.buf[..], HEADER_SIZE, zl.entries, k, OffsetOf(HEADER_SIZE, zl.entries, k))
    {
      hide Flat, At, EncodeBody, FromLe, LastOffset, OffsetOf, ValidEntry;
      CursorAt(zl.buf[..], HEADER_SIZE, zl.entries, k, OffsetOf(HEADER_SIZE, zl.entries, k));
    }

    /** listTypeInitIterator at the first or the last element. */
    method First(forward: bool) returns (at: Option<nat>)
      requires Valid()
      ensures at.Some? <==> Values() != []
      ensures at.Some? ==> On(at.value, if forward then 0 else |Values()| - 1)
    {
      hide Ziplist.Valid, Cursor, Flat, OffsetOf, FullSize, Bodies;
      if zl != null {
        if zl.values != [] {
          PlaceOf(if forward then 0 else |zl.values| - 1);
        }
        at := zl.Index(if forward then 0 else -1);
      } else {
        at := if items == [] then None else Some(if forward then 0 else |items| - 1);
      }
    }

    /** listTypeNext: the place the iterator moves on to. */
    method Advance(at: nat, forward: bool, ghost k: nat) returns (next: Option<nat>)
      requires Valid() && On(at, k)
      ensures forward ==> (next.Some? <==> k + 1 < |Values()|) && (next.Some? ==> On(next.value, k + 1))
      ensures !forward ==> (next.Some? <==> k > 0) && (next.Some? ==> On(next.value, k - 1))
    {
      hide Ziplist.Valid, Cursor, Flat, OffsetOf, FullSize, Bodies;
      if zl != null {
        if forward && k + 1 < |zl.values| {
          PlaceOf(k + 1);
        } else if !forward && k > 0 {
          PlaceOf(k - 1);
        }
        if forward {
          next := zl.Next(at, k);
        } else {
          next := zl.Prev(at, k);
        }
      } else if forward {
        next := if at + 1 < |items| then Some(at + 1) else None;
      } else {
        next := if at > 0 then Some(at - 1) else None;
      }
    }

    /** listTypeEqual. */
    method Equal(at: nat, o: seq<byte>, ghost k: nat) returns (r: bool)
      requires Valid() && On(at, k)
      ensures r <==> k < |Values()| && Values()[k] == o
    {
      hide Ziplist.Valid, Cursor, Flat, OffsetOf, FullSize, Bodies;
      if zl != null {
        r := zl.Compare(at, o, k);
      } else {
        r := items[at] == o;
      }
    }

    /** listTypeDelete: the element goes, and the iterator moves on in its direction. After the last element of a
        ziplist a forward iterator is left on the end mark. */
    method DeleteEntry(at: nat, forward: bool, ghost k: nat) returns (next: Option<nat>)
      requires Valid() && On(at, k) && k < |Values()|
      modifies this, Owned()
      ensures Valid() && zl == old(zl) && forall x :: x in Owned() ==> x in old(Owned()) || fresh(x)
      ensures Values() == RemoveAt(old(Values()), k)
      ensures forward && next.None? ==> k == |Values()|
      ensures forward && next.Some? ==> On(next.value, k)
      ensures !forward ==> (next.Some? <==> k > 0) && (next.Some? ==> On(next.value, k - 1))
    {
      hide Ziplist.Valid, Cursor, Flat, OffsetOf, FullSize, Bodies, Deleted;
      if zl != null {
        DeleteFromZiplist(at, k);
        PlaceOf(k);
        if forward {
          next := Some(at);
        } else {
          if k > 0 {
            PlaceOf(k - 1);
          }
          next := zl.Prev(at, k);
        }
      } else {
        if forward {
          next := if at + 1 < |items| then Some(at) else None;
        } else {
          next := if at > 0 then Some(at - 1) else None;
        }
        items := RemoveAt(items, at);
      }
    }

    method DeleteFromZiplist(at: nat, ghost k: nat)
      requires Valid() && zl != null && On(at, k) && k < |zl.values|
      modifies zl, zl.buf
      ensures Valid() && zl.values == RemoveAt(old(zl.values), k) && (zl.buf == old(zl.buf) || fresh(zl.buf))
      ensures k <= |zl.values| && at == OffsetOf(HEADER_SIZE, zl.entries, k)
    {
      hide Flat, At, EncodeBody, FromLe, LastOffset, ValidEntry, FullSize, Bodies, Deleted;
      ghost var es := zl.entries;
      RoomAfter(es, k, 1);
      RoomLeft(es);
      zl.DeleteAt(at, 1, k);
      SameOffset(es, k);
    }

    lemma SameOffset(es: seq<Entry>, k: nat)
      requires AllValid(es) && k < |es| && AllValid(Deleted(es, k, 1)) && k <= |Deleted(es, k, 1)|
      ensures OffsetOf(HEADER_SIZE, Deleted(es, k, 1), k) == OffsetOf(HEADER_SIZE, es, k)
    {
      hide Flat, Refit;
      assert Deleted(es, k, 1)[..k] == es[..k];
    }

    /** lremCommand: the first count elements equal to o go, or the last -count, or all of them when count is 0. */
    method RemoveEqual(o: seq<byte>, count: int) returns (removed: nat)
      requires Valid()
      modifies this, Owned()
      ensures Valid() && zl == old(zl) && removed == |old(Values())| - |Values()|
      ensures Values() == if count == 0 then AllBut(old(Values()), o)
        else if count > 0 then DropFirst(old(Values()), o, count) else DropLast(old(Values()), o, -count)
    {
      hide Valid, Values, Owned;
      ghost var vs := Values();
      if count < 0 {
        removed := RemoveBackward(o, -count);
      } else {
        removed := RemoveForward(o, count);
      }
      if count == 0 {
        DropAll(vs, o, |vs|);
      }
    }

    /** One turn of the loop of lremCommand: move on, compare, delete. */
    method Visit(at: nat, o: seq<byte>, forward: bool, ghost k: nat) returns (next: Option<nat>, equal: bool)
      requires Valid() && On(at, k)
      modifies this, Owned()
      ensures Valid() && zl == old(zl) && forall x :: x in Owned() ==> x in old(Owned()) || fresh(x)
      ensures equal <==> k < |old(Values())| && old(Values())[k] == o
      ensures Values() == if equal then RemoveAt(old(Values()), k) else old(Values())
      ensures forward ==> var i := if equal || k == |old(Values())| then k else k + 1;
        i <= |Values()| && (if next.Some? then k < |old(Values())| && On(next.value, i) else i == |Values()|)
      ensures !forward ==> (next.Some? <==> k > 0) && (next.Some? ==> On(next.value, k - 1))
    {
      OnBound(at, k);
      hide Valid, Values, Owned, On, RemoveAt;
      next, equal := Look(at, o, forward, k);
      if equal {
        next := DeleteEntry(at, forward, k);
      }
    }

    /** The part of a turn that changes nothing. */
    method Look(at: nat, o: seq<byte>, forward: bool, ghost k: nat) returns (next: Option<nat>, equal: bool)
      requires Valid() && On(at, k)
      ensures Valid() && On(at, k) && Owned() == old(Owned()) && Values() == old(Values())
      ensures equal <==> k < |Values()| && Values()[k] == o
      ensures forward ==> (next.Some? <==> k + 1 < |Values()|) && (next.Some? ==> On(next.value, k + 1))
      ensures !forward ==> (next.Some? <==> k > 0) && (next.Some? ==> On(next.value, k - 1))
    {
      hide Valid, Values, Owned, On;
      next := Advance(at, forward, k);
      equal := Equal(at, o, k);
    }

    lemma OnBound(at: nat, k: nat)
      requires Valid() && On(at, k)
      ensures k <= |Values()|
    {
    }

    /** One turn from the head: d is what is left of the n elements seen so far. */
    method TurnForward(at: nat, o: seq<byte>, ghost vs: seq<seq<byte>>, ghost lim: nat, ghost n: nat,
        ghost d: seq<seq<byte>>)
        returns (next: Option<nat>, equal: bool, ghost n': nat, ghost d': seq<seq<byte>>)
      requires Valid() && n <= |vs| && d == DropFirst(vs[..n], o, lim) && n - |d| < lim && Values() == d + vs[n..]
        && On(at, |d|)
      modifies this, Owned()
      ensures Valid() && zl == old(zl) && forall x :: x in Owned() ==> x in old(Owned()) || fresh(x)
      ensures n <= n' <= |vs| && d' == DropFirst(vs[..n'], o, lim) && Values() == d' + vs[n'..]
      ensures n' - |d'| == n - |d| + (if equal then 1 else 0)
      ensures if next.Some? then n' > n && On(next.value, |d'|) else n' == |vs|
    {
      hide Valid, Values, Owned, On, DropFirst, RemoveAt;
      if n < |vs| {
        Scanned(vs, o, lim, n);
      }
      next, equal := Visit(at, o, true, |d|);
      n', d' := n, d;
      if n < |vs| {
        n', d' := n + 1, if equal then d else d + [vs[n]];
      }
    }

    /** The loop of lremCommand from the head; no bound when toremove is 0. */
    method RemoveForward(o: seq<byte>, toremove: nat) returns (removed: nat)
      requires Valid()
      modifies this, Owned()
      ensures Valid() && zl == old(zl) && removed == |old(Values())| - |Values()|
      ensures Values() == DropFirst(old(Values()), o, if toremove == 0 then |old(Values())| else toremove)
    {
      hide Valid, Values, Owned, On, DropFirst, RemoveAt;
      ghost var vs := Values();
      ghost var lim := if toremove == 0 then |vs| + 1 else toremove;
      ghost var n, d := 0, [];
      removed := 0;
      ScanStart(vs, o, lim);
      var li := First(true);
      while li.Some?
        invariant Valid() && zl == old(zl) && forall x :: x in Owned() ==> x in old(Owned()) || fresh(x)
        invariant n <= |vs| && d == DropFirst(vs[..n], o, lim) && removed == n - |d| < lim
        invariant Values() == d + vs[n..]
        invariant if li.Some? then On(li.value, |d|) else n == |vs|
        decreases |vs| - n, li.Some?
      {
        var equal;
        li, equal, n, d := TurnForward(li.value, o, vs, lim, n, d);
        if equal {
          removed := removed + 1;
          if toremove != 0 && removed == toremove {
            Finished(vs, o, lim, n);
            return;
          }
        }
      }
      ScanEnd(vs, o, lim, n, d);
    }

    /** One turn from the tail: d is what is left of the elements behind the first n. */
    method TurnBackward(at: nat, o: seq<byte>, ghost vs: seq<seq<byte>>, ghost lim: nat, ghost n: nat,
        ghost d: seq<seq<byte>>)
        returns (next: Option<nat>, equal: bool, ghost d': seq<seq<byte>>)
      requires Valid() && 0 < n <= |vs| && ScanState(vs, o, lim, n, d, Values()) && |vs| - n - |d| < lim
      requires On(at, n - 1)
      modifies this, Owned()
      ensures Valid() && zl == old(zl) && forall x :: x in Owned() ==> x in old(Owned()) || fresh(x)
      ensures ScanState(vs, o, lim, n - 1, d', Values())
      ensures |vs| - (n - 1) - |d'| == |vs| - n - |d| + (if equal then 1 else 0)
      ensures (next.Some? <==> n > 1) && (next.Some? ==> On(next.value, n - 2))
    {
      hide Valid, Values, Owned, On, DropLast, RemoveAt;
      ScannedBack(vs, o, lim, n - 1);
      next, equal := Visit(at, o, false, n - 1);
      d' := if equal then d else [vs[n - 1]] + d;
    }

    /** The loop of lremCommand from the tail. */
    method RemoveBackward(o: seq<byte>, toremove: nat) returns (removed: nat)
      requires Valid() && toremove > 0
      modifies this, Owned()
      ensures Valid() && zl == old(zl) && removed == |old(Values())| - |Values()|
      ensures Values() == DropLast(old(Values()), o, toremove)
    {
      hide *;
      ghost var vs := Values();
      ghost var n: nat, d := |vs|, [];
      removed := 0;
      ScanStartBack(vs, o, toremove);
      var li := First(false);
      while li.Some?
        invariant Valid() && zl == old(zl) && forall x :: x in Owned() ==> x in old(Owned()) || fresh(x)
        invariant n <= |vs| && ScanState(vs, o, toremove, n, d, Values()) && removed == |vs| - n - |d| < toremove
        invariant (li.Some? <==> n > 0) && (li.Some? ==> On(li.value, n - 1))
        decreases n
      {
        var equal;
        li, equal, d := TurnBackward(li.value, o, vs, toremove, n, d);
        n := n - 1;
        if equal {
          removed := removed + 1;
          if removed == toremove {
            FinishedBack(vs, o, toremove, n, d, Values());
            return;
          }
        }
      }
      ScanEndBack(vs, o, toremove, d, Values());
    }

    /** listTypeLength; a ziplist may store its length anew. */
    method Length() returns (n: nat)
      requires Valid()
      modifies Owned()
      ensures Valid() && zl == old(zl) && Values() == old(Values()) && Owned() == old(Owned()) && n == |Values()|
    {
      hide Ziplist.Valid, Room, Bodies;
      if zl != null {
        n := zl.Len();
      } else {
        n := |items|;
      }
    }

    /** ltrimCommand: only the elements start to end stay; negative positions count from the tail. */
    method Trim(start: int, end: int)
      requires Valid() && |Values()| < 0x8000_0000
      modifies this, Owned()
      ensures Valid() && zl == old(zl)
      ensures Values() == Kept(old(Values()), start, end)
    {
      hide Valid, Owned, Kept;
      ghost var vs := Values();
      var llen := Length();
      var lo := if start < 0 then llen + start else start;
      var hi := if end < 0 then llen + end else end;
      lo := if lo < 0 then 0 else lo;
      var ltrim, rtrim := llen, 0;
      if !(lo > hi || lo >= llen) {
        hi := if hi >= llen then llen - 1 else hi;
        ltrim, rtrim := lo, llen - hi - 1;
      }
      KeptIs(vs, start, end, ltrim, rtrim);
      if zl != null {
        TrimZiplist(ltrim, rtrim);
      } else {
        TrimItems(ltrim, rtrim);
      }
    }

    method TrimZiplist(ltrim: nat, rtrim: nat)
      requires Valid() && zl != null && ltrim + rtrim <= |zl.values| < 0x8000_0000
      modifies Owned()
      ensures Valid() && zl == old(zl) && zl.values == old(zl.values)[ltrim..|old(zl.values)| - rtrim]
    {
      hide Ziplist.Valid, Room, Bodies;
      HeadCut(zl.values, ltrim);
      TailCut(zl.values, ltrim, rtrim);
      CutRange(0, ltrim);
      CutRange(-(rtrim as int), rtrim);
    }

    method CutRange(index: int, num: nat)
      requires Valid() && zl != null && -0x8000_0000 < index <= 0x7fff_ffff
      modifies Owned()
      ensures Valid() && zl == old(zl) && (zl.buf == old(zl.buf) || fresh(zl.buf))
      ensures var vs := old(zl.values); var n := |vs|; var k := FromEnd(index, n);
        zl.values == if !(0 <= k < n) then vs else vs[..k] + vs[if k + num < n then k + num else n..]
    {
      hide Ziplist.Valid, Room, Bodies, Deleted, RoomToDelete;
      MayCut(FromEnd(index, |zl.entries|), num);
      zl.DeleteRange(index, num);
    }

    /** A deletion has room, and leaves room. */
    lemma MayCut(k: int, num: nat)
      requires Valid() && zl != null
      ensures AllValid(zl.entries) && RoomToDelete(zl.entries) && |zl.entries| == |zl.values|
      ensures 0 <= k < |zl.entries| ==> Room(Bodies(Deleted(zl.entries, k, num)))
    {
      hide Flat, At, EncodeBody, FromLe, LastOffset, ValidEntry, FullSize, Bodies, Deleted;
      RoomLeft(zl.entries);
      if 0 <= k < |zl.entries| {
        RoomAfter(zl.entries, k, num);
      }
    }

    method TrimItems(ltrim: nat, rtrim: nat)
      requires Valid() && zl == null && ltrim + rtrim <= |items|
      modifies `items
      ensures Valid() && items == old(items)[ltrim..|old(items)| - rtrim]
    {
      for j := 0 to ltrim
        invariant zl == null && items == old(items)[j..]
      {
        items := items[1..];
      }
      for j := 0 to rtrim
        invariant items == old(items)[ltrim..|old(items)| - j]
      {
        items := items[..|items| - 1];
        assert items == old(items)[ltrim..|old(items)| - (j + 1)];
      }
    }

    /** listTypeConvert to a linked list. */
    method Convert()
      requires Valid() && zl != null
      modifies this
      ensures Valid() && zl == null && Values() == old(Values())
    {
      hide Ziplist.Valid, Cursor, Flat, OffsetOf, FullSize, Bodies, EncodeBody, Print;
      ghost var vs, k := zl.values, 0;
      var l: seq<seq<byte>> := [];
      var li := First(true);
      while li.Some?
        invariant Valid() && zl != null && zl.values == vs && k <= |vs| && l == vs[..k]
        invariant if li.Some? then k < |vs| && On(li.value, k) else k == |vs|
        decreases |vs| - k
      {
        var entry := li.value;
        li := Advance(entry, true, k);
        var value := zl.Get(entry, k);
        l := l + [value.value.Denoted()];
        k := k + 1;
      }
      assert vs[..|vs|] == vs;
      zl, items := null, l;
    }

    // ----- adding and taking elements

    /** listTypeTryConversion: a raw string that is too long for a ziplist. */
    method TryConversion(value: seq<byte>, raw: bool, maxValue: nat)
      requires Valid()
      modifies this
      ensures Valid() && Values() == old(Values())
      ensures zl == if raw && |value| > maxValue then null else old(zl)
    {
      if zl == null {
        return;
      }
      if raw && |value| > maxValue {
        Convert();
      }
    }

    /** listTypePush, which gives up the ziplist when the value is too long or the list has too many elements. */
    method Push(value: seq<byte>, raw: bool, head: bool, maxValue: nat, maxEntries: nat)
      requires Valid() && (zl != null ==> RoomWith(Bodies(zl.entries), value))
      modifies this, Owned()
      ensures Valid() && forall x :: x in Owned() ==> x in old(Owned()) || fresh(x)
      ensures zl == if (raw && |value| > maxValue) || |old(Values())| >= maxEntries then null else old(zl)
      ensures Values() == if head then [value] + old(Values()) else old(Values()) + [value]
    {
      hide Ziplist.Valid, Room, Bodies, EncodeBody;
      TryConversion(value, raw, maxValue);
      if zl != null {
        var n := zl.Len();
        if n >= maxEntries {
          Convert();
        }
      }
      if zl != null {
        PushZiplist(value, head);
      } else {
        items := if head then [value] + items else items + [value];
      }
    }

    method PushZiplist(value: seq<byte>, head: bool)
      requires Valid() && zl != null && RoomWith(Bodies(zl.entries), value)
      modifies Owned()
      ensures Valid() && zl == old(zl) && fresh(zl.buf)
      ensures zl.values == if head then [value] + old(zl.values) else old(zl.values) + [value]
    {
      hide Flat, At, EncodeBody, FromLe, LastOffset, ValidEntry, FullSize, Bodies, Inserted;
      RoomInserted(zl.entries, if head then 0 else |zl.entries|, value);
      if head {
        zl.PushHead(value);
      } else {
        zl.PushTail(value);
      }
    }

    /** listTypePop. */
    method Pop(head: bool) returns (value: Option<seq<byte>>)
      requires Valid()
      modifies this, Owned()
      ensures Valid() && zl == old(zl) && forall x :: x in Owned() ==> x in old(Owned()) || fresh(x)
      ensures var vs := old(Values()); var n := |vs|;
        if vs == [] then value == None && Values() == vs
        else if head then value == Some(vs[0]) && Values() == vs[1..]
        else value == Some(vs[n - 1]) && Values() == vs[..n - 1]
    {
      hide Ziplist.Valid, Cursor, Flat, OffsetOf, Room, Bodies;
      var at := First(head);
      if at.None? {
        return None;
      }
      ghost var k := if head then 0 else |Values()| - 1;
      if zl != null {
        var got := zl.Get(at.value, k);
        value := Some(got.value.Denoted());
        DeleteFromZiplist(at.value, k);
      } else {
        value := Some(items[at.value]);
        items := RemoveAt(items, at.value);
      }
    }

    /** listTypeInsert next to the element of an iterator: the value comes before or after it, unless the list is a
        ziplist into whose middle it does not fit; then the list that is left is another one. */
    method Insert(at: nat, value: seq<byte>, after: bool, ghost k: nat) returns (ghost fits: bool)
      requires Valid() && On(at, k) && k < |Values()|
      requires zl != null ==> RoomWith(Bodies(zl.entries), value)
      requires zl != null ==> MayInsert(zl.entries, zl.values, if after then k + 1 else k, value)
      modifies this, Owned()
      ensures zl == old(zl) && (zl != null ==> zl.Stored()) && (fits ==> Valid())
      ensures fits == (zl == null || old(InsertFits(zl.buf[..], zl.entries, if after then k + 1 else k, value)))
      ensures Values() == Sequences.InsertAt(old(Values()), if after then k + 1 else k, value) <==> fits
    {
      hide Ziplist.Valid, Ziplist.Stored, Cursor, Flat, OffsetOf, Room, Bodies, EncodeBody, InsertFits, MayInsert;
      if zl != null {
        zl.ValidStored();
        fits := InsertFits(zl.buf[..], zl.entries, if after then k + 1 else k, value);
        InsertIntoZiplist(at, value, after, k);
      } else {
        fits := true;
        items := Sequences.InsertAt(items, if after then at + 1 else at, value);
      }
    }

    method InsertIntoZiplist(at: nat, value: seq<byte>, after: bool, ghost k: nat)
      requires Valid() && zl != null && On(at, k) && k < |zl.values| && RoomWith(Bodies(zl.entries), value)
      requires MayInsert(zl.entries, zl.values, if after then k + 1 else k, value)
      modifies Owned()
      ensures zl == old(zl) && zl.Stored() && fresh(zl.buf)
      ensures old(InsertFits(zl.buf[..], zl.entries, if after then k + 1 else k, value)) ==> Valid()
      ensures zl.values == Sequences.InsertAt(old(zl.values), if after then k + 1 else k, value)
        <==> old(InsertFits(zl.buf[..], zl.entries, if after then k + 1 else k, value))
    {
      hide Flat, At, EncodeBody, FromLe, LastOffset, ValidEntry, FullSize, Bodies, Inserted, InsertFits, OffsetOf, Clip;
      hide MayInsert, ValuesOf;
      ghost var i := if after then k + 1 else k;
      RoomInserted(zl.entries, i, value);
      if after {
        var next := zl.Next(at, k);
        if next.None? {
          EndsFit(zl.buf[..], zl.entries, value);
          ghost var vs := zl.values;
          zl.PushTail(value);
          zl.ValidStored();
          assert vs[..|vs|] == vs && vs[|vs|..] == [];
        } else {
          zl.InsertAt(next.value, value, k + 1);
        }
      } else {
        zl.InsertAt(at, value, k);
      }
    }
  }
}
