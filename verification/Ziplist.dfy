/** The ziplist operations (ziplist.c) on one byte buffer: resize, memmove and in-place rewriting,
    proved against the entry sequences of ZiplistEntries. */
module Ziplist {
  import opened Bytes
  import opened Options
  import opened Sequences
  import opened ZiplistFormat
  import opened ZiplistEntries
  import opened ZiplistLayout
  import opened ZiplistMisfit

  class Ziplist {
    var buf: array<byte>
    ghost var entries: seq<Entry>
    ghost var values: seq<seq<byte>>

    /** The buffer holds well-linked entries whose bodies encode the represented strings. */
    ghost predicate Valid()
      reads this, buf
    {
      && Holds(buf[..], HEADER_SIZE, entries)
      && LengthFieldOk(LengthField(buf[..]), |entries|)
      && WellLinked(entries)
      && Encodes(entries, values)
    }

    /** The buffer holds well-linked entries that denote the strings, in whatever encodings. */
    ghost predicate Stored()
      reads this, buf
    {
      && Holds(buf[..], HEADER_SIZE, entries)
      && LengthFieldOk(LengthField(buf[..]), |entries|)
      && WellLinked(entries)
      && values == ValuesOf(entries)
    }

    lemma ValidStored()
      requires Valid()
      ensures Stored() && |entries| == |values|
    {
      hide Encodes, ValuesOf, Flat, At;
      EncodedValues(entries, values);
    }

    /** The overall layout: the number of bytes, the offset of the last entry (of the end, when there is none) and the
        number of entries in ten bytes, then the entries, then 255. */
    lemma {:induction false} Layout()
      requires Valid()
      ensures 11 <= buf.Length && var d := buf[..]; var n := |values|;
        && n == |entries| && AllValid(entries)
        && FromLe(d[0..4]) == |d| && FromLe(d[4..8]) == 10 + |Flat(entries[..if n == 0 then 0 else n - 1])|
        && (FromLe(d[8..10]) == n < 65535 || FromLe(d[8..10]) == 65535)
        && d[10..|d| - 1] == Flat(entries) && d[|d| - 1] == 255
    {
      hide Encodes, Flat, FromLe;
      ValidStored();
      FlatNone(entries);
      AtSlice(buf[..], HEADER_SIZE, Flat(entries));
      assert entries[..0] == [];
    }

    // ----- header fields

    method SetField(at: nat, width: nat, v: int)
      requires (at == 0 && width == 4) || (at == 4 && width == 4) || (at == 8 && width == 2)
      requires 0 <= v < Pow256(width) && buf.Length >= 10
      modifies buf
      ensures FromLe(buf[..][at..at + width]) == v
      ensures forall k :: 0 <= k < buf.Length && !(at <= k < at + width) ==> buf[k] == old(buf[k])
    {
      Store(buf, at, Le(v, width));
      FieldValue(buf[..], at, width, v);
    }

    /** ziplistResize. */
    method Resize(len: nat)
      requires 11 <= len < U32_LIMIT
      modifies this`buf
      ensures fresh(buf) && buf.Length == len
      ensures TotalBytes(buf[..]) == len && buf[len - 1] == ZIP_END
      ensures forall k :: 4 <= k < len - 1 && k < old(buf.Length) ==> buf[k] == old(buf[k])
    {
      var b := Realloc(buf, len);
      buf := b;
      PowersOf256();
      SetField(0, 4, len);
      ghost var was := buf[..];
      buf[len - 1] := ZIP_END;
      assert buf[..][0..4] == was[0..4];
    }

    // ----- cascade

    /** Moves the bytes z from offset src to offset dst and writes t right before them. */
    method MoveBehind(dst: nat, src: nat, ghost z: seq<byte>, n: nat, t: seq<byte>)
      requires At(buf[..], src, z) && |z| == n && dst + n <= buf.Length && |t| <= dst
      modifies buf
      ensures At(buf[..], dst - |t|, t) && At(buf[..], dst, z)
      ensures forall k :: 0 <= k < buf.Length && !(dst - |t| <= k < dst + n) ==> buf[k] == old(buf[k])
    {
      hide At;
      AtSlice(buf[..], src, z);
      Memmove(buf, dst, src, n);
      ghost var moved := buf[..];
      Store(buf, dst - |t|, t);
      AtSame(moved, buf[..], dst, z);
    }

    /** Adds delta to the tail offset. */
    method AddToTail(delta: int)
      requires buf.Length >= 10 && 0 <= TailOffset(buf[..]) + delta < U32_LIMIT
      modifies buf
      ensures TailOffset(buf[..]) == old(TailOffset(buf[..])) + delta
      ensures forall k :: 0 <= k < buf.Length && !(4 <= k < 8) ==> buf[k] == old(buf[k])
      ensures TotalBytes(buf[..]) == old(TotalBytes(buf[..]))
    {
      PowersOf256();
      ghost var was := buf[..];
      SetField(4, 4, TailOffset(buf[..]) + delta);
      assert buf[..][0..4] == was[0..4];
    }

    /** The widening branch of __ziplistCascadeUpdate: the one-byte back-length field at np becomes a
        five-byte field holding rawlen; everything after it moves up by four bytes. */
    method WidenField(np: nat, rawlen: nat, ghost z: seq<byte>)
      requires HEADER_SIZE <= np && np + 2 + |z| == buf.Length < U32_LIMIT / 2
      requires At(buf[..], np + 1, z)
      requires 254 <= rawlen < U32_LIMIT && TailOffset(buf[..]) < buf.Length
      modifies this`buf
      ensures fresh(buf) && buf.Length == old(buf.Length) + 4
      ensures forall k :: 8 <= k < np ==> buf[k] == old(buf[k])
      ensures At(buf[..], np, PrevField(5, rawlen)) && At(buf[..], np + 5, z) && buf[buf.Length - 1] == ZIP_END
      ensures TotalBytes(buf[..]) == buf.Length
      ensures TailOffset(buf[..]) == old(TailOffset(buf[..])) + (if old(TailOffset(buf[..])) != np then 4 else 0)
    {
      hide FromLe, PrevField, At;
      var curlen := buf.Length;
      ghost var d0 := buf[..];
      Resize(curlen + 4);
      assert buf[..][4..8] == d0[4..8];
      if TailOffset(buf[..]) != np {
        AddToTail(4);
      }
      ghost var d2 := buf[..];
      AtSame(d0, d2, np + 1, z);
      MoveBehind(np + 5, np + 1, z, curlen - np - 1 - 1, PrevField(5, rawlen));
      assert buf[..][0..4] == d2[0..4] && buf[..][4..8] == d2[4..8];
    }
  
    /** One widening step of the cascade, on the entry after k. */
    method CascadeWiden(np: nat, rawlen: nat, ghost p0: nat, ghost es: seq<Entry>, ghost k: nat)
      requires Holds(buf[..], p0, es) && k < |es| && np == OffsetOf(p0, es, k)
      requires es[k].prevsize == 1 && 254 <= rawlen < U32_LIMIT && buf.Length + 4 < U32_LIMIT / 2
      modifies this`buf
      ensures fresh(buf)
      ensures Holds(buf[..], p0, es[k := Entry(5, rawlen, es[k].body)])
      ensures |Flat(es[k := Entry(5, rawlen, es[k].body)])| == |Flat(es)| + 4
      ensures forall j :: 8 <= j < p0 ==> buf[j] == old(buf[j])
    {
      hide ValidBody, Flat, FromLe, At, PrevField;
      ghost var e := Entry(5, rawlen, es[k].body);
      ghost var z := es[k].body + Flat(es[k + 1..]);
      ghost var was := buf[..];
      FlatUpdate(es, k, e);
      LastOffsetReplaced(p0, es, k, e);
      LastOffsetIs(p0, es, k);
      AtEntry(was, p0, es, k);
      AtConcat(was, np, PrevField(es[k].prevsize, es[k].prevlen), es[k].body);
      AtConcat(was, np + 1, es[k].body, Flat(es[k + 1..]));
      WidenField(np, rawlen, z);
      Replaced(was, buf[..], p0, es, k, e);
    }

    /** The last step of the cascade: the new length is written into a field that is large enough. */
    method CascadeRewrite(np: nat, size: nat, rawlen: nat, ghost p0: nat, ghost es: seq<Entry>, ghost k: nat)
      requires Holds(buf[..], p0, es) && k < |es| && np == OffsetOf(p0, es, k)
      requires size == es[k].prevsize && PrevFits(size, rawlen)
      modifies buf
      ensures Holds(buf[..], p0, es[k := Entry(size, rawlen, es[k].body)])
      ensures |Flat(es[k := Entry(size, rawlen, es[k].body)])| == |Flat(es)|
      ensures forall j :: 8 <= j < p0 ==> buf[j] == old(buf[j])
    {
      hide ValidBody, Flat, FromLe, At, PrevField;
      ghost var e := Entry(size, rawlen, es[k].body);
      ghost var z := es[k].body + Flat(es[k + 1..]);
      ghost var was := buf[..];
      FlatUpdate(es, k, e);
      LastOffsetReplaced(p0, es, k, e);
      AtEntry(was, p0, es, k);
      AtConcat(was, np, PrevField(es[k].prevsize, es[k].prevlen), es[k].body);
      AtConcat(was, np + size, es[k].body, Flat(es[k + 1..]));
      Store(buf, np, PrevField(size, rawlen));
      AtSame(was, buf[..], np + size, z);
      Replaced(was, buf[..], p0, es, k, e);
      assert buf[..][0..4] == was[0..4] && buf[..][4..8] == was[4..8];
    }

    /** One turn of the loop of __ziplistCascadeUpdate, with the cursor p at entry k: tells whether the
        loop goes on with the next entry, and the raw length it advances by. */
    method CascadeTurn(p: nat, ghost p0: nat, ghost es: seq<Entry>, ghost k: nat)
        returns (more: bool, rawlen: nat, ghost next: seq<Entry>)
      requires Holds(buf[..], p0, es) && k < |es| && p == OffsetOf(p0, es, k)
      requires p0 + |Flat(es)| + 4 * (|es| - k) + 1 < U32_LIMIT / 2
      modifies this`buf, buf
      ensures buf == old(buf) || fresh(buf)
      ensures |next| == |es| && p0 < buf.Length && Holds(buf[..], p0, next) && |Flat(next)| <= |Flat(es)| + 4
      ensures more ==> k + 1 < |es| && Cascade(next, k + 1) == Cascade(es, k) && p + rawlen == OffsetOf(p0, next, k + 1)
      ensures !more ==> next == Cascade(es, k)
      ensures forall j :: 8 <= j < p0 ==> buf[j] == old(buf[j])
    {
      hide Flat, FromLe, At, EntryReadable, ZipEntry, PrevField, ValidBody;
      AtHeader(buf[..], p0, es, k);
      NextOffset(buf[..], p0, es, k);
      rawlen := ZipEntry(buf[p..]).RawLength();
      more, next := false, es;
      if buf[p + rawlen] == ZIP_END {
        return;
      }
      AtHeader(buf[..], p0, es, k + 1);
      var entry := ZipEntry(buf[p + rawlen..]);
      var rawlensize := PrevSize(rawlen);
      if entry.prevrawlen == rawlen {
        return;
      }
      assert ValidEntry(es[k + 1]);
      if entry.prevrawlensize < rawlensize {
        CascadeWiden(p + rawlen, rawlen, p0, es, k + 1);
        next := es[k + 1 := Entry(5, rawlen, es[k + 1].body)];
        more := true;
        assert next[..k + 1] == es[..k + 1];
      } else {
        CascadeRewrite(p + rawlen, entry.prevrawlensize, rawlen, p0, es, k + 1);
        next := es[k + 1 := Entry(entry.prevrawlensize, rawlen, es[k + 1].body)];
      }
    }

    /** A turn of the loop keeps its invariant. */
    method CascadeLoopTurn(p: nat, ghost p0: nat, ghost es: seq<Entry>, ghost cur: seq<Entry>, ghost k: nat)
      returns (more: bool, p': nat, ghost next: seq<Entry>)
      requires es != [] && CascadeState(buf[..], p0, es, cur, k, p, true)
      modifies this`buf, buf
      ensures buf == old(buf) || fresh(buf)
      ensures |next| == |es| && CascadeState(buf[..], p0, es, next, k + 1, p', more)
      ensures p0 < buf.Length && (more ==> k + 1 < |es|)
      ensures forall j :: 8 <= j < p0 ==> buf[j] == old(buf[j])
    {
      hide ValidEntry, FromLe, At, Cascade, Laid;
      var rawlen;
      more, rawlen, next := CascadeTurn(p, p0, cur, k);
      p' := p + rawlen;
    }

    /** __ziplistCascadeUpdate, started at the entry at offset p0, where es are the entries from there on:
        they become Cascade(es, 0); bytes 8 to p0 do not change. */
    method CascadeUpdate(p0: nat, ghost es: seq<Entry>)
      requires es != [] && Holds(buf[..], p0, es)
      requires p0 + |Flat(es)| + 4 * |es| + 1 < U32_LIMIT / 2
      modifies this`buf, buf
      ensures buf == old(buf) || fresh(buf)
      ensures p0 < buf.Length && Holds(buf[..], p0, Cascade(es, 0))
      ensures forall j :: 8 <= j < p0 ==> buf[j] == old(buf[j])
    {
      hide Flat, Holds, Cascade, CascadeState;
      var p := p0;
      ghost var cur, k := es, 0;
      CascadeStart(buf[..], p0, es);
      CascadeCursor(buf[..], p0, es, cur, k, p, true);
      var more := true;
      while more && buf[p] != ZIP_END
        invariant buf == old(buf) || fresh(buf)
        invariant p0 < buf.Length && CascadeState(buf[..], p0, es, cur, k, p, more)
        invariant more ==> 0 <= p < buf.Length && buf[p] != ZIP_END && k < |es|
        invariant forall j :: 8 <= j < p0 ==> buf[j] == old(buf[j])
        decreases more, |es| - k
      {
        more, p, cur := CascadeLoopTurn(p, p0, es, cur, k);
        k := k + 1;
        CascadeCursor(buf[..], p0, es, cur, k, p, more);
      }
      CascadeEnd(buf[..], p0, es, cur, k, p);
    }

    // ----- insertion

    /** Moves n bytes from src to dst, of which the last are z, and overwrites the others with t. */
    method MoveUnder(dst: nat, src: nat, n: nat, t: seq<byte>, ghost z: seq<byte>)
      requires dst + n <= buf.Length && src + n <= buf.Length && n == |t| + |z| && At(buf[..], src + |t|, z)
      modifies buf
      ensures At(buf[..], dst, t) && At(buf[..], dst + |t|, z)
      ensures forall j :: 0 <= j < buf.Length && !(dst <= j < dst + n) ==> buf[j] == old(buf[j])
    {
      hide At;
      ghost var d0 := buf[..];
      SliceAt(d0, src, |t|, z);
      Memmove(buf, dst, src, n);
      ghost var d := buf[..];
      assert d0[src..src + n] == d0[src..src + |t|] + z;
      AtConcat(d, dst, d0[src..src + |t|], z);
      Store(buf, dst, t);
      AtSame(d, buf[..], dst + |t|, z);
    }

    /** The resize by grow bytes, with the bytes z in front of the old end marker. */
    method ResizeBehind(p: nat, grow: int, ghost z: seq<byte>)
      requires 4 <= p && z != [] && p + |z| + 1 == buf.Length && At(buf[..], p, z) && -1 <= grow
      requires 11 <= buf.Length + grow < U32_LIMIT
      modifies this`buf
      ensures fresh(buf) && buf.Length == old(buf.Length) + grow
      ensures At(buf[..], p, AfterResize(z, grow)) && (AfterResize(z, grow) == z <==> old(TailSurvives(buf[..], grow)))
      ensures TotalBytes(buf[..]) == buf.Length && buf[buf.Length - 1] == ZIP_END
      ensures forall j :: 4 <= j < p ==> buf[j] == old(buf[j])
    {
      hide FromLe, At, TailSurvives, AfterResize;
      ghost var d := buf[..];
      Resize(buf.Length + grow);
      KeptByResize(d, buf[..], p, z, grow);
    }

    /** The resize, memmove and back-length store of __ziplistInsert before an entry whose back-length field of the
        given size is followed by the bytes z, whenever the memmove reads inside the resized buffer: what the resize
        left of z stands behind a field that holds reqlen, and it is z if and only if the tail survived. */
    method ShiftUp(p: nat, reqlen: nat, size: nat, nextdiff: int, ghost z: seq<byte>)
      requires HEADER_SIZE <= p && p + size + |z| + 1 == buf.Length && At(buf[..], p + size, z)
      requires (size == 1 || size == 5) && nextdiff == PrevSize(reqlen) - size
      requires reqlen + nextdiff >= -1 && z != [] && buf[buf.Length - 1] == ZIP_END && 2 <= reqlen
      requires buf.Length + reqlen + nextdiff < U32_LIMIT
      modifies this`buf
      ensures fresh(buf) && buf.Length == old(buf.Length) + reqlen + nextdiff
      ensures At(buf[..], p + reqlen, PrevField(PrevSize(reqlen), reqlen))
      ensures At(buf[..], p + reqlen + PrevSize(reqlen), AfterResize(z, reqlen + nextdiff))
      ensures At(buf[..], p + reqlen + PrevSize(reqlen), z) <==> old(TailSurvives(buf[..], reqlen + nextdiff))
      ensures TotalBytes(buf[..]) == buf.Length && buf[buf.Length - 1] == ZIP_END
      ensures forall j :: 4 <= j < p ==> buf[j] == old(buf[j])
    {
      hide FromLe, PrevField, At, TailSurvives, AfterResize;
      var curlen := buf.Length;
      ghost var kept := AfterResize(z, reqlen + nextdiff);
      ResizeBehind(p + size, reqlen + nextdiff, z);
      ghost var d1 := buf[..];
      MoveUnder(p + reqlen, p - nextdiff, curlen - p - 1 + nextdiff, PrevField(PrevSize(reqlen), reqlen), kept);
      OneBlock(buf[..], p + reqlen + PrevSize(reqlen), kept, z);
      assert buf[..][0..4] == d1[0..4];
    }

    /** The tail offset update of __ziplistInsert: the entries rest now start at q. */
    method ShiftTail(q: nat, reqlen: nat, nextdiff: int, ghost rest: seq<Entry>)
      requires HEADER_SIZE <= q < buf.Length < U32_LIMIT / 2 && rest != [] && Laid(buf[..], q, rest)
      requires 0 <= TailOffset(buf[..]) + reqlen < U32_LIMIT - 4 && 0 <= TailOffset(buf[..]) + reqlen + nextdiff
        && -4 <= nextdiff <= 4
      modifies buf
      ensures Laid(buf[..], q, rest) && TotalBytes(buf[..]) == old(TotalBytes(buf[..]))
      ensures TailOffset(buf[..]) == old(TailOffset(buf[..])) + reqlen + (if |rest| == 1 then 0 else nextdiff)
      ensures forall j :: 8 <= j < buf.Length ==> buf[j] == old(buf[j])
    {
      hide FromLe, Flat, ValidEntry, EntryReadable, ZipEntry, EntryBytes;
      ghost var d0 := buf[..];
      AddToTail(reqlen);
      ghost var d1 := buf[..];
      AtSame(d0, d1, q, Flat(rest));
      FlatNone(rest);
      AtEntryOrEnd(d1, q, rest, 0);
      AtEntryOrEnd(d1, q, rest, 1);
      HeaderAt(d1, q, rest[0]);
      var tail := ZipEntry(buf[q..]);
      if buf[q + tail.RawLength()] != ZIP_END {
        AddToTail(nextdiff);
        AtSame(d1, buf[..], q, Flat(rest));
      }
    }
  
    /** The part of __ziplistInsert from the resize to the tail update, for an insertion before entry i of es, which
        the resize makes c. */
    method ShiftEntries(p: nat, reqlen: nat, ghost es: seq<Entry>, ghost i: nat, ghost c: seq<Entry>)
        returns (nextdiff: int)
      requires Holds(buf[..], HEADER_SIZE, es) && i < |es| == |c| && p == OffsetOf(HEADER_SIZE, es, i) && p < buf.Length
      requires 2 <= reqlen && buf.Length + reqlen + 4 < U32_LIMIT / 2
      requires var grow := reqlen + PrevSize(reqlen) - es[i].prevsize; Clippable(es, grow) && c == Clip(es, grow)
      modifies this`buf
      ensures fresh(buf) && buf.Length == old(buf.Length) + reqlen + nextdiff
      ensures nextdiff == PrevSize(reqlen) - es[i].prevsize
      ensures Holds(buf[..], p + reqlen, c[i..][0 := Entry(PrevSize(reqlen), reqlen, c[i].body)])
      ensures forall j :: 8 <= j < p ==> buf[j] == old(buf[j])
    {
      hide Flat, FromLe, At, PrevField, ValidEntry, EntryReadable, ZipEntry, PrevReadable, PrevLenByteDiff, Clip;
      hide Clippable, AfterResize, LastOffset, TailSurvives;
      ghost var d0, grow := buf[..], reqlen + PrevSize(reqlen) - es[i].prevsize;
      ghost var next := Entry(PrevSize(reqlen), reqlen, c[i].body);
      EntryFits(es[i]);
      GrowAtLeast(es, grow);
      BeforeShift(es, i, grow, reqlen, next);
      AtHeader(d0, HEADER_SIZE, es, i);
      var size := ZipEntry(buf[p..]).prevrawlensize;
      DiffOfHeader(buf[p..], reqlen);
      nextdiff := PrevLenByteDiff(buf[p..], reqlen);
      ShiftUp(p, reqlen, size, nextdiff, es[i].body + Flat(es[i + 1..]));
      ShiftedLayout(buf[..], p + reqlen, c, i, next);
      assert buf[..][4..8] == d0[4..8];
      ShiftTail(p + reqlen, reqlen, nextdiff, c[i..][0 := next]);
    }

    /** The part of __ziplistInsert from the resize to the cascade, for an insertion before entry i: the
        later entries stand refitted behind a gap of reqlen bytes. */
    method MakeRoom(p: nat, reqlen: nat, ghost es: seq<Entry>, ghost i: nat, ghost c: seq<Entry>)
      requires Holds(buf[..], HEADER_SIZE, es) && i < |es| && p == OffsetOf(HEADER_SIZE, es, i) && p < buf.Length
      requires 2 <= reqlen && buf.Length + reqlen + 4 * |es| + 4 < U32_LIMIT / 2
      requires var grow := reqlen + PrevSize(reqlen) - es[i].prevsize; Clippable(es, grow) && c == Clip(es, grow)
      modifies this`buf, buf
      ensures fresh(buf)
      ensures p + reqlen < buf.Length && Holds(buf[..], p + reqlen, Refit(c[i..], reqlen))
      ensures forall j :: 8 <= j < p ==> buf[j] == old(buf[j])
    {
      hide Flat, FromLe, At, PrevField, ValidEntry, Cascade, Clip, Clippable, LastOffset;
      ClipEntries(es, reqlen + PrevSize(reqlen) - es[i].prevsize);
      ghost var rest := c[i..][0 := Entry(PrevSize(reqlen), reqlen, c[i].body)];
      EntryFits(es[i]);
      var nextdiff := ShiftEntries(p, reqlen, es, i, c);
      assert rest == [rest[0]] + c[i..][1..];
      if nextdiff != 0 {
        CascadeUpdate(p + reqlen, rest);
      }
    }

    /** The back-length of an entry inserted at p: that of the entry there, or the raw length of the last
        entry when p is at the end marker. */
    method PrevLenFor(p: nat, ghost i: nat) returns (prevlen: nat)
      requires Valid() && i <= |entries| && p == OffsetOf(HEADER_SIZE, entries, i)
      ensures p < buf.Length && (buf[p] == ZIP_END <==> i == |entries|)
      ensures prevlen == PrevLenAt(entries, i)
    {
      hide Flat, FromLe, At, PrevField, ValidEntry, EntryReadable, ZipEntry, EncodeBody;
      ghost var es := entries;
      AtEntryOrEnd(buf[..], HEADER_SIZE, es, i);
      if buf[p] != ZIP_END {
        AtHeader(buf[..], HEADER_SIZE, es, i);
        EntryFits(es[i]);
        prevlen := ZipEntry(buf[p..]).prevrawlen;
      } else {
        prevlen := 0;
        var ptail := TailOffset(buf[..]);
        assert es[..|es|] == es;
        FlatNone(es);
        if es != [] {
          AtHeader(buf[..], HEADER_SIZE, es, |es| - 1);
          EntryFits(es[|es| - 1]);
        }
        if buf[ptail] != ZIP_END {
          prevlen := ZipEntry(buf[ptail..]).RawLength();
        }
      }
    }

    /** Stores the entry e in the gap at p between the entries pre and rest. */
    method WriteEntry(p: nat, prevlen: nat, body: seq<byte>, ghost pre: seq<Entry>, ghost rest: seq<Entry>)
      requires AllValid(pre) && ValidEntry(Entry(PrevSize(prevlen), prevlen, body))
      requires At(buf[..], HEADER_SIZE, Flat(pre)) && p == HEADER_SIZE + |Flat(pre)|
      requires Laid(buf[..], p + PrevSize(prevlen) + |body|, rest)
      modifies buf
      ensures Laid(buf[..], HEADER_SIZE, pre + [Entry(PrevSize(prevlen), prevlen, body)] + rest)
      ensures forall j :: 0 <= j < HEADER_SIZE ==> buf[j] == old(buf[j])
    {
      hide Flat, At, PrevField, ValidBody;
      ghost var e := Entry(PrevSize(prevlen), prevlen, body);
      ghost var d0 := buf[..];
      Store(buf, p, PrevField(PrevSize(prevlen), prevlen));
      ghost var d1 := buf[..];
      Store(buf, p + PrevSize(prevlen), body);
      ghost var d2 := buf[..];
      AtSame(d1, d2, p, PrevField(PrevSize(prevlen), prevlen));
      AtConcat(d2, p, PrevField(PrevSize(prevlen), prevlen), body);
      AtSame(d0, d2, HEADER_SIZE, Flat(pre));
      AtSame(d0, d2, p + Raw(e), Flat(rest));
      Assembled(d2, pre, e, rest);
    }

    /** ZIPLIST_INCR_LENGTH. */
    method IncrLength(delta: int)
      requires buf.Length >= 10
        && (LengthField(buf[..]) < UINT16_MAX ==> 0 <= LengthField(buf[..]) + delta <= UINT16_MAX)
      modifies buf
      ensures LengthField(buf[..]) == Counted(old(LengthField(buf[..])), delta)
      ensures forall j :: 0 <= j < buf.Length && !(8 <= j < 10) ==> buf[j] == old(buf[j])
    {
      PowersOf256();
      if LengthField(buf[..]) < UINT16_MAX {
        SetField(8, 2, LengthField(buf[..]) + delta);
      }
    }
  
    /** Opens a gap of reqlen bytes at entry i; rest is what then stands behind it. */
    method OpenGap(p: nat, reqlen: nat, ghost es: seq<Entry>, ghost i: nat, ghost c: seq<Entry>, ghost rest: seq<Entry>)
      requires Holds(buf[..], HEADER_SIZE, es) && i <= |es| && p == OffsetOf(HEADER_SIZE, es, i) && p < buf.Length
      requires 2 <= reqlen && buf.Length + reqlen + 4 * |es| + 4 < U32_LIMIT / 2
      requires i < |es| ==>
        var grow := reqlen + PrevSize(reqlen) - es[i].prevsize; Clippable(es, grow) && c == Clip(es, grow)
      requires |c| == |es| && rest == if i < |es| then Refit(c[i..], reqlen) else []
      modifies this`buf, buf
      ensures fresh(buf) && buf.Length < U32_LIMIT / 2
      ensures At(buf[..], HEADER_SIZE, Flat(es[..i])) && Laid(buf[..], p + reqlen, rest)
      ensures TotalBytes(buf[..]) == buf.Length
      ensures TailOffset(buf[..]) == if rest == [] then p else LastOffset(p + reqlen, rest)
      ensures LengthField(buf[..]) == old(LengthField(buf[..]))
    {
      hide Flat, FromLe, ValidEntry, Refit, Clip, Clippable, LastOffset, At;
      ghost var d0 := buf[..];
      AtEntryOrEnd(d0, HEADER_SIZE, es, i);
      LaidFrom(d0, HEADER_SIZE, es, i);
      if buf[p] != ZIP_END {
        MakeRoom(p, reqlen, es, i, c);
      } else {
        OpenTail(p, reqlen);
      }
      AtSame(d0, buf[..], HEADER_SIZE, Flat(es[..i]));
      SameLengthField(d0, buf[..]);
    }

    /** The same at the end of the list: the new entry will be the tail. */
    method OpenTail(p: nat, reqlen: nat)
      requires HEADER_SIZE <= p == buf.Length - 1 && buf.Length + reqlen < U32_LIMIT / 2
      modifies this`buf
      ensures fresh(buf) && buf.Length == old(buf.Length) + reqlen && Laid(buf[..], p + reqlen, [])
      ensures TotalBytes(buf[..]) == buf.Length && TailOffset(buf[..]) == p
      ensures forall j :: 8 <= j < p ==> buf[j] == old(buf[j])
    {
      hide FromLe;
      Resize(buf.Length + reqlen);
      ghost var d1 := buf[..];
      PowersOf256();
      SetField(4, 4, p);
      assert buf[..][0..4] == d1[0..4];
    }

    /** The last part of __ziplistInsert: store the entry in the gap and count it. */
    method FillGap(p: nat, prevlen: nat, body: seq<byte>, ghost pre: seq<Entry>, ghost rest: seq<Entry>)
      requires AllValid(pre) && ValidEntry(Entry(PrevSize(prevlen), prevlen, body))
      requires At(buf[..], HEADER_SIZE, Flat(pre)) && p == HEADER_SIZE + |Flat(pre)|
      requires Laid(buf[..], p + PrevSize(prevlen) + |body|, rest)
      requires TotalBytes(buf[..]) == buf.Length < U32_LIMIT / 2
      requires TailOffset(buf[..]) == if rest == [] then p else LastOffset(p + PrevSize(prevlen) + |body|, rest)
      requires LengthFieldOk(LengthField(buf[..]), |pre| + |rest|)
      modifies buf
      ensures var es := pre + [Entry(PrevSize(prevlen), prevlen, body)] + rest;
        Holds(buf[..], HEADER_SIZE, es) && LengthFieldOk(LengthField(buf[..]), |es|)
      ensures LengthField(buf[..]) == Counted(old(LengthField(buf[..])), 1)
    {
      hide Flat, FromLe, At, ValidEntry, PrevField;
      ghost var d1 := buf[..];
      TailOfAssembled(pre, Entry(PrevSize(prevlen), prevlen, body), rest);
      WriteEntry(p, prevlen, body, pre, rest);
      ghost var d2 := buf[..];
      assert d2[0..4] == d1[0..4] && d2[4..8] == d1[4..8] && d2[8..10] == d1[8..10];
      IncrLength(1);
      assert buf[..][0..4] == d2[0..4] && buf[..][4..8] == d2[4..8];
      LaidSame(d2, buf[..], HEADER_SIZE, pre + [Entry(PrevSize(prevlen), prevlen, body)] + rest);
    }

    /** __ziplistInsert of s before element i. If the resize loses the last byte of the last entry, the list is the
        one with that byte replaced; it is the old list with s in it if and only if the insertion fits. */
    method InsertAt(p: nat, s: seq<byte>, ghost i: nat)
      requires Valid() && i <= |entries| && p == OffsetOf(HEADER_SIZE, entries, i)
      requires RoomFor(entries, s) && MayInsert(entries, values, i, s)
      modifies this, buf
      ensures Stored() && fresh(buf)
      ensures entries == Inserted(Clip(old(entries), InsertGrow(old(entries), i, s)), i, EncodeBody(s))
      ensures values == old(values)[..i] + [s] + old(values)[i..] <==> old(InsertFits(buf[..], entries, i, s))
      ensures old(InsertFits(buf[..], entries, i, s)) ==>
        Valid() && entries == Inserted(old(entries), i, EncodeBody(s))
      ensures LengthField(buf[..]) == Counted(old(LengthField(buf[..])), 1)
    {
      hide Flat, FromLe, At, EncodeBody, Refit, ValidBody, LastOffset, Clip, Clippable, Inserted, ValuesOf, Encodes;
      hide MayInsert, TailSurvives;
      var prevlen := PrevLenFor(p, i);
      var body := EncodeBody(s);
      var reqlen := PrevSize(prevlen) + |body|;
      ghost var d, es, vs, grow := buf[..], entries, values, InsertGrow(entries, i, s);
      ghost var c := Clip(es, grow);
      ghost var rest := if i < |es| then Refit(c[i..], reqlen) else [];
      BeforeInsert(d, es, vs, i, s);
      OpenGap(p, reqlen, es, i, c, rest);
      FillGap(p, prevlen, body, es[..i], rest);
      InsertedParts(es, i, s, c, rest);
      entries := Inserted(c, i, body);
      values := ValuesOf(entries);
      InsertedMeans(es, vs, grow, i, s, entries);
      if c == es {
        EncodesInserted(es, entries, vs, i, s);
      }
    }

    // ----- deletion

    /** The skipping loop of __ziplistDelete. */
    method SkipEntries(p0: nat, num: nat, ghost es: seq<Entry>, ghost i: nat) returns (p: int, deleted: nat)
      requires Laid(buf[..], HEADER_SIZE, es) && i < |es| && p0 == OffsetOf(HEADER_SIZE, es, i)
      ensures deleted == if i + num < |es| then num else |es| - i
      ensures Cursor(buf[..], HEADER_SIZE, es, i + deleted, p)
    {
      hide Flat, At, Laid, EntryReadable, ZipEntry, OffsetOf;
      p, deleted := p0, 0;
      CursorAt(buf[..], HEADER_SIZE, es, i, p);
      while deleted < num && buf[p] != ZIP_END
        invariant deleted <= num && Cursor(buf[..], HEADER_SIZE, es, i + deleted, p)
      {
        CursorNext(buf[..], HEADER_SIZE, es, i + deleted, p);
        p := p + ZipEntry(buf[p..]).RawLength();
        deleted := deleted + 1;
      }
    }

    /** The tail offset update of __ziplistDelete; q is where the entry after the removed range stands. */
    method DropFromTail(q: nat, totlen: nat, nextdiff: int, ghost raw: int)
      requires HEADER_SIZE <= q < buf.Length && EntryReadable(buf[q..]) && ZipEntry(buf[q..]).RawLength() == raw
        && q <= q + raw < buf.Length
      requires 4 <= TailOffset(buf[..]) - totlen && TailOffset(buf[..]) + 4 < U32_LIMIT && -4 <= nextdiff <= 4
      modifies buf
      ensures TotalBytes(buf[..]) == old(TotalBytes(buf[..]))
      ensures TailOffset(buf[..]) == old(TailOffset(buf[..])) - totlen
        + (if old(buf[q + raw]) != ZIP_END then nextdiff else 0)
      ensures forall k :: 8 <= k < buf.Length ==> buf[k] == old(buf[k])
    {
      hide FromLe, EntryReadable, ZipEntry;
      ghost var d0 := buf[q..];
      AddToTail(-(totlen as int));
      assert buf[q..] == d0;
      var tail := ZipEntry(buf[q..]);
      if buf[q + tail.RawLength()] != ZIP_END {
        AddToTail(nextdiff);
      }
    }

    /** Stores the new back-length of entry j so that it ends where the old one ended. */
    method StoreAhead(q: nat, prevlen: nat, ghost es: seq<Entry>, ghost j: nat) returns (nextdiff: int)
      requires Laid(buf[..], HEADER_SIZE, es) && j < |es| && q == OffsetOf(HEADER_SIZE, es, j) < buf.Length
      requires prevlen < U32_LIMIT / 2 && (prevlen >= 254 ==> HEADER_SIZE + 4 <= q)
      modifies buf
      ensures nextdiff == PrevSize(prevlen) - es[j].prevsize && -4 <= nextdiff <= 4
      ensures At(buf[..], q - nextdiff, PrevField(PrevSize(prevlen), prevlen))
      ensures forall k :: 0 <= k < buf.Length && !(q - nextdiff <= k < q + es[j].prevsize) ==> buf[k] == old(buf[k])
      ensures At(buf[..], q + es[j].prevsize, es[j].body + Flat(es[j + 1..]))
      ensures q + es[j].prevsize + |es[j].body + Flat(es[j + 1..])| + 1 == buf.Length
      ensures EntryReadable(buf[q..]) && ZipEntry(buf[q..]).RawLength() == Raw(es[j]) >= 2
      ensures q + Raw(es[j]) < buf.Length
      ensures buf[q + Raw(es[j])] == ZIP_END <==> j + 1 == |es|
    {
      hide Flat, At, ValidEntry, EntryReadable, ZipEntry, PrevField, PrevReadable, PrevLenByteDiff;
      AtHeader(buf[..], HEADER_SIZE, es, j);
      EntryFits(es[j]);
      DiffOfHeader(buf[q..], prevlen);
      nextdiff := PrevLenByteDiff(buf[q..], prevlen);
      ghost var d := buf[..];
      Store(buf, q - nextdiff, PrevField(PrevSize(prevlen), prevlen));
      AheadFacts(d, buf[..], es, j, q, prevlen);
      assert buf[..][q..] == buf[q..];
    }

    /** The memmove and the resize of __ziplistDelete: the field f and the bytes z behind it move to a. */
    method MoveDown(a: nat, from: nat, f: seq<byte>, n: nat, ghost z: seq<byte>)
      requires HEADER_SIZE <= a <= from && n == |f| + |z| && from + n + 1 == buf.Length < U32_LIMIT
      requires At(buf[..], from, f) && At(buf[..], from + |f|, z)
      modifies this`buf, buf
      ensures fresh(buf) && buf.Length == a + n + 1
      ensures At(buf[..], a, f) && At(buf[..], a + |f|, z)
      ensures TotalBytes(buf[..]) == buf.Length && buf[buf.Length - 1] == ZIP_END
      ensures forall k :: 4 <= k < a ==> buf[k] == old(buf[k])
    {
      hide FromLe, At;
      AtConcat(buf[..], from, f, z);
      AtSlice(buf[..], from, f + z);
      assert buf[from..from + n] == buf[..][from..from + n];
      Memmove(buf, a, from, n);
      ghost var d := buf[..];
      Resize(a + n + 1);
      AtSame(d, buf[..], a, f + z);
      AtConcat(buf[..], a, f, z);
    }

    /** The back-length store and the tail update of __ziplistDelete, for a removed range from a to q. */
    method StoreAndDrop(a: nat, q: nat, prevlen: nat, ghost es: seq<Entry>, ghost j: nat) returns (nextdiff: int)
      requires Holds(buf[..], HEADER_SIZE, es) && j < |es| && q == OffsetOf(HEADER_SIZE, es, j) < buf.Length
      requires prevlen < U32_LIMIT / 2 && HEADER_SIZE <= a < q && (prevlen >= 254 ==> a + 6 <= q)
      modifies buf
      ensures nextdiff == PrevSize(prevlen) - es[j].prevsize && a <= q - nextdiff && -4 <= nextdiff <= 4
      ensures At(buf[..], q - nextdiff, PrevField(PrevSize(prevlen), prevlen))
      ensures At(buf[..], q + es[j].prevsize, es[j].body + Flat(es[j + 1..]))
      ensures q + es[j].prevsize + |es[j].body + Flat(es[j + 1..])| + 1 == buf.Length
      ensures TailOffset(buf[..]) == LastOffset(HEADER_SIZE, es) - (q - a) + (if j + 1 == |es| then 0 else nextdiff)
      ensures forall k :: 8 <= k < a ==> buf[k] == old(buf[k])
    {
      hide Flat, FromLe, At, ValidEntry, EntryReadable, ZipEntry, PrevField, LastOffset, OffsetOf;
      ghost var d0 := buf[..];
      EntryFits(es[j]);
      LastOffsetAtLeast(HEADER_SIZE, es, j);
      nextdiff := StoreAhead(q, prevlen, es, j);
      ghost var d1 := buf[..];
      assert d1[0..4] == d0[0..4] && d1[4..8] == d0[4..8];
      DropFromTail(q, q - a, nextdiff, Raw(es[j]));
      AtSame(d1, buf[..], q - nextdiff, PrevField(PrevSize(prevlen), prevlen));
      AtSame(d1, buf[..], q + es[j].prevsize, es[j].body + Flat(es[j + 1..]));
    }

    /** The rest of __ziplistDelete up to the cascade when entry j follows the removed range. */
    method CloseGap(a: nat, q: nat, prevlen: nat, ghost es: seq<Entry>, ghost j: nat) returns (nextdiff: int)
      requires Holds(buf[..], HEADER_SIZE, es) && j < |es| && q == OffsetOf(HEADER_SIZE, es, j) < buf.Length
      requires prevlen < U32_LIMIT / 2 && HEADER_SIZE <= a < q && (prevlen >= 254 ==> a + 6 <= q)
      modifies this`buf, buf
      ensures fresh(buf)
      ensures nextdiff == PrevSize(prevlen) - es[j].prevsize
      ensures Holds(buf[..], a, es[j..][0 := Entry(PrevSize(prevlen), prevlen, es[j].body)])
      ensures |Flat(es[j..][0 := Entry(PrevSize(prevlen), prevlen, es[j].body)])| == |Flat(es[j..])| + nextdiff
      ensures nextdiff <= 4
      ensures forall k :: 8 <= k < a ==> buf[k] == old(buf[k])
    {
      hide Flat, FromLe, At, ValidEntry, PrevField;
      ghost var z := es[j].body + Flat(es[j + 1..]);
      ghost var next := Entry(PrevSize(prevlen), prevlen, es[j].body);
      var curlen := buf.Length;
      EntryFits(es[j]);
      ReplacedValid(es[j], next);
      TailOfShifted(es, j, next, a - q);
      nextdiff := StoreAndDrop(a, q, prevlen, es, j);
      ghost var d2 := buf[..];
      MoveDown(a, q - nextdiff, PrevField(PrevSize(prevlen), prevlen), curlen - q - 1 + nextdiff, z);
      ShiftedLayout(buf[..], a, es, j, next);
      assert buf[..][4..8] == d2[4..8];
    }
  
    /** __ziplistDelete when the removed range reaches the end of the list. */
    method DropTail(a: nat, prevlen: nat, deleted: nat, ghost es: seq<Entry>, ghost i: nat)
      requires Holds(buf[..], HEADER_SIZE, es) && WellLinked(es) && i < |es| && a == OffsetOf(HEADER_SIZE, es, i)
      requires prevlen == es[i].prevlen && deleted == |es| - i && LengthFieldOk(LengthField(buf[..]), |es|)
      modifies this`buf, buf
      ensures fresh(buf) && Holds(buf[..], HEADER_SIZE, es[..i]) && LengthFieldOk(LengthField(buf[..]), i)
      ensures LengthField(buf[..]) == Counted(old(LengthField(buf[..])), -(deleted as int))
    {
      hide Flat, FromLe, At, ValidEntry, LastOffset;
      ghost var d0 := buf[..];
      LaidFrom(d0, HEADER_SIZE, es, i);
      TailOfPrefix(es, i);
      RangeSize(es, i, |es|);
      PowersOf256();
      SetField(4, 4, a - prevlen);
      ghost var d1 := buf[..];
      Resize(a + 1);
      ghost var d2 := buf[..];
      assert d2[4..8] == d1[4..8] && d2[8..10] == d0[8..10];
      IncrLength(-(deleted as int));
      assert buf[..][0..4] == d2[0..4] && buf[..][4..8] == d2[4..8];
      AtSame(d0, buf[..], HEADER_SIZE, Flat(es[..i]));
    }

    /** __ziplistDelete when entry j follows the removed range: later entries stand refitted at a. */
    method DropMiddle(a: nat, q: nat, prevlen: nat, deleted: nat, ghost es: seq<Entry>, ghost i: nat, ghost j: nat)
      requires Holds(buf[..], HEADER_SIZE, es) && LengthFieldOk(LengthField(buf[..]), |es|) && WellLinked(es)
      requires i < j < |es| && a == OffsetOf(HEADER_SIZE, es, i) && a < q == OffsetOf(HEADER_SIZE, es, j) < buf.Length
      requires prevlen == es[i].prevlen && deleted == j - i && HEADER_SIZE + |Flat(es)| + 4 * |es| + 5 < U32_LIMIT / 2
      modifies this`buf, buf
      ensures fresh(buf) && a < buf.Length && Holds(buf[..], a, Refit(es[j..], prevlen))
      ensures LengthFieldOk(LengthField(buf[..]), |es| - deleted)
      ensures LengthField(buf[..]) == Counted(old(LengthField(buf[..])), -(deleted as int))
      ensures forall k :: HEADER_SIZE <= k < a ==> buf[k] == old(buf[k])
    {
      hide Flat, FromLe, At, ValidEntry, LastOffset, Cascade;
      ghost var d0 := buf[..];
      ghost var rest := es[j..][0 := Entry(PrevSize(prevlen), prevlen, es[j].body)];
      TailOfPrefix(es, i);
      RangeSize(es, i, j);
      var nextdiff := CloseGap(a, q, prevlen, es, j);
      assert rest == [rest[0]] + es[j..][1..];
      assert buf[..][8..10] == d0[8..10];
      CountOff(deleted, a, rest, |es|);
      if nextdiff != 0 {
        ghost var d2 := buf[..];
        CascadeUpdate(a, rest);
        assert buf[..][8..10] == d2[8..10];
      }
    }

    /** The length field loses the removed entries; the entries behind the header stay. */
    method CountOff(deleted: nat, ghost a: nat, ghost rest: seq<Entry>, ghost n: nat)
      requires Holds(buf[..], a, rest) && LengthFieldOk(LengthField(buf[..]), n) && deleted <= n
      modifies buf
      ensures Holds(buf[..], a, rest) && LengthFieldOk(LengthField(buf[..]), n - deleted)
      ensures LengthField(buf[..]) == Counted(old(LengthField(buf[..])), -(deleted as int))
      ensures forall k :: 0 <= k < buf.Length && !(8 <= k < 10) ==> buf[k] == old(buf[k])
    {
      hide Flat, FromLe, At, ValidEntry, LastOffset, Laid;
      ghost var d1 := buf[..];
      IncrLength(-(deleted as int));
      ghost var d2 := buf[..];
      assert d2[0..4] == d1[0..4] && d2[4..8] == d1[4..8];
      LaidSame(d1, d2, a, rest);
    }
  
    /** The part of __ziplistDelete after the skipping loop. */
    method DropRange(a: nat, q: nat, prevlen: nat, deleted: nat, ghost es: seq<Entry>, ghost i: nat)
      requires Holds(buf[..], HEADER_SIZE, es) && LengthFieldOk(LengthField(buf[..]), |es|) && WellLinked(es)
      requires 0 < deleted && i + deleted <= |es| && a == OffsetOf(HEADER_SIZE, es, i)
        && Cursor(buf[..], HEADER_SIZE, es, i + deleted, q)
      requires prevlen == es[i].prevlen && RoomToDelete(es)
      modifies this`buf, buf
      ensures fresh(buf) && Holds(buf[..], HEADER_SIZE, Deleted(es, i, deleted))
      ensures LengthFieldOk(LengthField(buf[..]), |es| - deleted)
      ensures LengthField(buf[..]) == Counted(old(LengthField(buf[..])), -(deleted as int))
    {
      hide Flat, FromLe, At, ValidEntry, LastOffset, Refit;
      ghost var d0, j := buf[..], i + deleted;
      RangeSize(es, i, j);
      if buf[q] != ZIP_END {
        LaidFrom(d0, HEADER_SIZE, es, i);
        DropMiddle(a, q, prevlen, deleted, es, i, j);
        AtSame(d0, buf[..], HEADER_SIZE, Flat(es[..i]));
        Joined(buf[..], es[..i], Refit(es[j..], prevlen));
        TailOfJoined(es[..i], Refit(es[j..], prevlen));
        assert Deleted(es, i, deleted) == es[..i] + Refit(es[j..], prevlen);
      } else {
        DropTail(a, prevlen, deleted, es, i);
        assert es[..i] == Deleted(es, i, deleted);
      }
    }

    /** __ziplistDelete: removes at most num elements from element i on. */
    method DeleteAt(p0: nat, num: nat, ghost i: nat)
      requires Valid() && i < |entries| && p0 == OffsetOf(HEADER_SIZE, entries, i) && RoomToDelete(entries)
      modifies this, buf
      ensures Valid() && (buf == old(buf) || fresh(buf))
      ensures entries == Deleted(old(entries), i, num)
      ensures var j := if i + num < |old(values)| then i + num else |old(values)|;
        values == old(values)[..i] + old(values)[j..]
      ensures LengthField(buf[..]) == Counted(old(LengthField(buf[..])), |entries| - |old(entries)|)
    {
      hide Flat, FromLe, At, AllValid, Deleted, Bodies, EncodeBody, LastOffset, EntryReadable, ZipEntry;
      ghost var es, vs := entries, values;
      DeletedCapped(es, i, num);
      AtHeader(buf[..], HEADER_SIZE, es, i);
      TailOfPrefix(es, i);
      var prevlen := ZipEntry(buf[p0..]).prevrawlen;
      var p, deleted := SkipEntries(p0, num, es, i);
      DeletedCorrect(es, i, num);
      ghost var j := i + deleted;
      if deleted > 0 {
        DropRange(p0, p, prevlen, deleted, es, i);
        entries := Deleted(es, i, num);
      }
      values := vs[..i] + vs[j..];
      EncodesDeleted(es, entries, vs, i, j);
    }
  
    // ----- the interface

    /** ziplistNew. */
    constructor ()
      ensures Valid() && values == [] && entries == [] && fresh(buf) && LengthField(buf[..]) == 0
    {
      buf := new byte[11];
      entries, values := [], [];
      new;
      PowersOf256();
      SetField(0, 4, 11);
      ghost var d1 := buf[..];
      SetField(4, 4, HEADER_SIZE);
      ghost var d2 := buf[..];
      SetField(8, 2, 0);
      ghost var d3 := buf[..];
      buf[10] := ZIP_END;
      assert d2[0..4] == d1[0..4];
      assert buf[..][0..4] == d3[0..4] == d2[0..4];
      assert buf[..][4..8] == d3[4..8] == d2[4..8];
      assert buf[..][8..10] == d3[8..10];
    }

    /** ziplistPush at the head: no condition on the entries, because the first one has a one-byte field. */
    method PushHead(s: seq<byte>)
      requires Valid() && RoomFor(entries, s)
      modifies this, buf
      ensures Valid() && fresh(buf)
      ensures values == [s] + old(values) && entries == Inserted(old(entries), 0, EncodeBody(s))
      ensures LengthField(buf[..]) == Counted(old(LengthField(buf[..])), 1)
    {
      hide Flat, FromLe, Laid, EncodeBody, AllValid, LastOffset, InsertFits, OffsetOf;
      EndsFit(buf[..], entries, s);
      ghost var vs := values;
      InsertAt(HEADER_SIZE, s, 0);
      assert vs[..0] + [s] + vs[0..] == [s] + vs;
    }

    /** ziplistPush at the tail. */
    method PushTail(s: seq<byte>)
      requires Valid() && RoomFor(entries, s)
      modifies this, buf
      ensures Valid() && fresh(buf)
      ensures values == old(values) + [s] && entries == Inserted(old(entries), |old(entries)|, EncodeBody(s))
      ensures LengthField(buf[..]) == Counted(old(LengthField(buf[..])), 1)
    {
      hide Flat, FromLe, At, EncodeBody, AllValid, LastOffset, InsertFits;
      ghost var es, vs := entries, values;
      assert es[..|es|] == es;
      EndsFit(buf[..], es, s);
      InsertAt(buf.Length - 1, s, |es|);
      assert vs[..|es|] + [s] + vs[|es|..] == vs + [s];
    }

    /** The forward loop of ziplistIndex: where it stops and how many steps are left. */
    method WalkForward(index: nat, ghost es: seq<Entry>) returns (p: nat, n: nat)
      requires Laid(buf[..], HEADER_SIZE, es)
      ensures p < buf.Length && n == (if index <= |es| then 0 else index - |es|)
      ensures Cursor(buf[..], HEADER_SIZE, es, index - n, p)
    {
      hide Flat, At, Laid, EntryReadable, ZipEntry, OffsetOf;
      p, n := HEADER_SIZE, index;
      StartCursor(buf[..], es);
      while buf[p] != ZIP_END && n != 0
        invariant n <= index && Cursor(buf[..], HEADER_SIZE, es, index - n, p)
        decreases n
      {
        CursorNext(buf[..], HEADER_SIZE, es, index - n, p);
        p := p + ZipEntry(buf[p..]).RawLength();
        n := n - 1;
      }
    }

    /** The backward loop of ziplistIndex. */
    method WalkBackward(index: nat, ghost es: seq<Entry>) returns (p: nat, n: nat)
      requires Holds(buf[..], HEADER_SIZE, es) && WellLinked(es)
      ensures p < buf.Length
      ensures es == [] ==> buf[p] == ZIP_END
      ensures es != [] ==> n == if index < |es| then 0 else index - (|es| - 1)
      ensures es != [] ==> Cursor(buf[..], HEADER_SIZE, es, |es| - 1 - (index - n), p)
    {
      hide Flat, At, Laid, EntryReadable, ZipEntry, OffsetOf;
      TailCursor(buf[..], es);
      p, n := TailOffset(buf[..]), index;
      if buf[p] != ZIP_END {
        PrevCursor(buf[..], es, |es| - 1, p);
        while ZipEntry(buf[p..]).prevrawlen > 0 && n != 0
          invariant n <= index && index - n < |es| && 0 <= p < buf.Length
          invariant Cursor(buf[..], HEADER_SIZE, es, |es| - 1 - (index - n), p)
          invariant PrevReadableAt(buf[..], es, |es| - 1 - (index - n), p)
          decreases n
        {
          p := p - ZipEntry(buf[p..]).prevrawlen;
          n := n - 1;
          PrevCursor(buf[..], es, |es| - 1 - (index - n), p);
        }
      }
    }

    /** ziplistIndex: the offset of an element counted from the head, or from the tail when negative. */
    method Index(index: int) returns (r: Option<nat>)
      requires Valid() && -0x8000_0000 < index <= 0x7fff_ffff
      ensures var k := FromEnd(index, |values|);
        r == if 0 <= k < |values| then Some(OffsetOf(HEADER_SIZE, entries, k)) else None
    {
      hide Flat, At, Laid, EncodeBody, FromLe;
      var p, n;
      if index < 0 {
        p, n := WalkBackward(-index - 1, entries);
      } else {
        p, n := WalkForward(index, entries);
      }
      r := if buf[p] == ZIP_END || n > 0 then None else Some(p);
    }
  
    /** ziplistNext; k is the position of the cursor. */
    method Next(p: nat, ghost k: nat) returns (r: Option<nat>)
      requires Valid() && Cursor(buf[..], HEADER_SIZE, entries, k, p)
      ensures r == if k + 1 < |values| then Some(OffsetOf(HEADER_SIZE, entries, k + 1)) else None
    {
      hide Flat, At, Laid, EncodeBody, FromLe, EntryReadable, ZipEntry;
      if buf[p] == ZIP_END {
        return None;
      }
      CursorNext(buf[..], HEADER_SIZE, entries, k, p);
      var q := p + ZipEntry(buf[p..]).RawLength();
      r := if buf[q] == ZIP_END then None else Some(q);
    }

    /** ziplistPrev. */
    method Prev(p: nat, ghost k: nat) returns (r: Option<nat>)
      requires Valid() && Cursor(buf[..], HEADER_SIZE, entries, k, p)
      ensures r == if 0 < k then Some(OffsetOf(HEADER_SIZE, entries, k - 1)) else None
    {
      hide Flat, At, Laid, EncodeBody, FromLe, EntryReadable, ZipEntry;
      if buf[p] == ZIP_END {
        TailCursor(buf[..], entries);
        var tail := TailOffset(buf[..]);
        r := if buf[tail] == ZIP_END then None else Some(tail);
      } else if p == HEADER_SIZE {
        StartOnly(entries, k);
        r := None;
      } else {
        StartOnly(entries, k);
        PrevCursor(buf[..], entries, k, p);
        r := Some(p - ZipEntry(buf[p..]).prevrawlen);
      }
    }

    /** ziplistGet: the payload at a cursor, which denotes the element there. */
    method Get(p: nat, ghost k: nat) returns (r: Option<Payload>)
      requires Valid() && Cursor(buf[..], HEADER_SIZE, entries, k, p)
      ensures r.Some? <==> k < |values|
      ensures r.Some? ==> r.value.Denoted() == values[k]
    {
      hide Flat, At, Laid, EncodeBody, FromLe, EntryReadable, ZipEntry, PayloadOf, LoadInteger, ValidBody;
      if buf[p] == ZIP_END {
        return None;
      }
      PayloadFound(buf[..], HEADER_SIZE, entries, k, p);
      EncodeBodyValid(values[k]);
      var entry := ZipEntry(buf[p..]);
      var q := p + entry.HeaderSize();
      if IsStr(entry.encoding) {
        r := Some(Text(buf[q..q + entry.len]));
      } else {
        r := Some(Integer(LoadInteger(buf[q..], entry.encoding)));
      }
    }

    /** ziplistCompare: 1 exactly when the element at the cursor is the string s. */
    method Compare(p: nat, s: seq<byte>, ghost k: nat) returns (r: bool)
      requires Valid() && Cursor(buf[..], HEADER_SIZE, entries, k, p)
      ensures r <==> k < |values| && values[k] == s
    {
      hide Flat, At, Laid, EncodeBody, FromLe, EntryReadable, ZipEntry, PayloadOf, LoadInteger, ValidBody, TryEncoding;
      if buf[p] == ZIP_END {
        return false;
      }
      PayloadFound(buf[..], HEADER_SIZE, entries, k, p);
      CompareIffEqual(values[k], s);
      var entry := ZipEntry(buf[p..]);
      var q := p + entry.HeaderSize();
      if IsStr(entry.encoding) {
        r := buf[q..q + entry.len] == s;
      } else {
        match TryEncoding(s) {
          case Some((sval, sencoding)) =>
            r := entry.encoding == sencoding && LoadInteger(buf[q..], entry.encoding) == sval;
          case None =>
            r := false;
        }
      }
    }

    /** ziplistLen: a saturated length field is recounted, and restored when the count fits again. */
    method Len() returns (len: nat)
      requires Valid()
      modifies buf
      ensures Valid() && buf == old(buf) && values == old(values) && entries == old(entries)
      ensures len == |values| && LengthField(buf[..]) == if len < UINT16_MAX then len else UINT16_MAX
    {
      hide Flat, At, EncodeBody, FromLe, EntryReadable, ZipEntry, Cursor, WellLinked, LastOffset;
      ghost var d0, es := buf[..], entries;
      if LengthField(buf[..]) < UINT16_MAX {
        len := LengthField(buf[..]);
      } else {
        len := CountEntries(es);
        PowersOf256();
        if len < UINT16_MAX {
          SetField(8, 2, len);
        }
        assert buf[..][0..4] == d0[0..4] && buf[..][4..8] == d0[4..8];
        LaidSame(d0, buf[..], HEADER_SIZE, es);
      }
    }

    /** The counting loop of ziplistLen. */
    method CountEntries(ghost es: seq<Entry>) returns (len: nat)
      requires Laid(buf[..], HEADER_SIZE, es)
      ensures len == |es|
    {
      hide Flat, At, Laid, EntryReadable, ZipEntry, OffsetOf;
      var p := HEADER_SIZE;
      len := 0;
      StartCursor(buf[..], es);
      while buf[p] != ZIP_END
        invariant Cursor(buf[..], HEADER_SIZE, es, len, p)
        decreases |es| - len
      {
        CursorNext(buf[..], HEADER_SIZE, es, len, p);
        p := p + ZipEntry(buf[p..]).RawLength();
        len := len + 1;
      }
    }

    /** ziplistDeleteRange; a negative index counts from the tail. */
    method DeleteRange(index: int, num: nat)
      requires Valid() && -0x8000_0000 < index <= 0x7fff_ffff && RoomToDelete(entries)
      modifies this, buf
      ensures Valid() && (buf == old(buf) || fresh(buf))
      ensures var n := |old(values)|; var k := FromEnd(index, n);
        values == if !(0 <= k < n) then old(values)
                  else old(values)[..k] + old(values)[if k + num < n then k + num else n..]
      ensures var n := |old(entries)|; var k := FromEnd(index, n);
        entries == if 0 <= k < n then Deleted(old(entries), k, num) else old(entries)
      ensures LengthField(buf[..]) == Counted(old(LengthField(buf[..])), |entries| - |old(entries)|)
    {
      hide Flat, At, Laid, EncodeBody, FromLe, AllValid, Deleted;
      var p := Index(index);
      if p.Some? {
        DeleteAt(p.value, num, FromEnd(index, |values|));
      }
    }
  }

  /** Three pushes and a deletion lead to a list into which s cannot be inserted at position 1. */
  method ReachMisfit(x: seq<byte>, y: seq<byte>, w: seq<byte>) returns (zl: Ziplist)
    requires |x| < 1000 && |y| < 1000 && |w| < 1000
    requires 253 <= |EncodeBody(x)| < 1000 && 249 <= |EncodeBody(y)| <= 252 && |EncodeBody(w)| < 1000
    ensures fresh(zl) && fresh(zl.buf) && zl.Valid() && zl.values == [y, w]
    ensures zl.entries == [Entry(1, 0, EncodeBody(y)), Entry(5, 1 + |EncodeBody(y)|, EncodeBody(w))]
  {
    hide EncodeBody, Inserted, Deleted, InsertFits, Flat;
    var a, b, c := EncodeBody(x), EncodeBody(y), EncodeBody(w);
    MisfitEntries(a, b, c);
    zl := new Ziplist();
    FlatSmall(zl.entries);
    zl.PushTail(x);
    FlatSmall(zl.entries);
    zl.PushTail(y);
    FlatSmall(zl.entries);
    zl.PushTail(w);
    FlatSmall(zl.entries);
    StartCursor(zl.buf[..], zl.entries);
    zl.DeleteAt(HEADER_SIZE, 1, 0);
    assert zl.values == [y, w];
  }

  /** The insertion at position 1 of a string whose body takes two bytes then leaves a wrong list. */
  method LoseByte(x: seq<byte>, y: seq<byte>, w: seq<byte>, s: seq<byte>) returns (zl: Ziplist)
    requires |x| < 1000 && |y| < 1000 && 0 < |w| < 1000 && |s| < 1000
    requires 253 <= |EncodeBody(x)| < 1000 && 249 <= |EncodeBody(y)| <= 252 && |EncodeBody(w)| < 1000
    requires |EncodeBody(s)| == 2 && TryEncoding(w).None?
    ensures zl.Stored() && zl.values == [y, s, w[..|w| - 1] + [ZIP_END]]
  {
    hide EncodeBody, Inserted, Flat, Clip, ValuesOf, TryEncoding, InsertGrow, Encodes;
    zl := ReachMisfit(x, y, w);
    ghost var es := zl.entries;
    MisfitBetween(EncodeBody(y), EncodeBody(w), s);
    FlatSmall(es);
    ClippedPair(es, y, w);
    BeforeInsert(zl.buf[..], es, zl.values, 1, s);
    var p := zl.Index(1);
    zl.InsertAt(p.value, s, 1);
    ghost var c := Clip(es, -1);
    InsertedParts(es, 1, s, c, Refit(c[1..], Raw(NewEntry(es, 1, EncodeBody(s)))));
    BodiesMean(zl.entries, c, 1, s);
    assert zl.values == [y] + [s] + [w[..|w| - 1] + [ZIP_END]];
  }
}
