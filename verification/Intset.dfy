/** Sets of integers (intset.c): a strictly sorted array of 16-, 32- or 64-bit values in one byte buffer, which is
    rewritten in place with wider values when a value does not fit. */
module Intset {
  import opened Bytes

  const ENC_INT16 := 2
  const ENC_INT32 := 4
  const ENC_INT64 := 8

  predicate IsEncoding(enc: int) {
    enc == ENC_INT16 || enc == ENC_INT32 || enc == ENC_INT64
  }

  /** The values an encoding can hold. */
  predicate Fits(v: int, enc: nat)
    requires IsEncoding(enc)
  {
    if enc == ENC_INT16 then -0x8000 <= v <= 0x7fff
    else if enc == ENC_INT32 then -0x8000_0000 <= v <= 0x7fff_ffff
    else -0x8000_0000_0000_0000 <= v <= 0x7fff_ffff_ffff_ffff
  }

  /** _intsetValueEncoding: the smallest encoding that can hold the value. */
  function ValueEncoding(v: int): (enc: nat)
    requires Fits(v, ENC_INT64)
    ensures IsEncoding(enc) && forall e: nat :: IsEncoding(e) ==> (Fits(v, e) <==> enc <= e)
  {
    if v < -0x8000_0000 || v > 0x7fff_ffff then ENC_INT64
    else if v < -0x8000 || v > 0x7fff then ENC_INT32
    else ENC_INT16
  }

  /** The offset of the value at a position. */
  function Offset(enc: nat, pos: nat): (o: nat)
    requires IsEncoding(enc)
  {
    if enc == ENC_INT16 then 2 * pos else if enc == ENC_INT32 then 4 * pos else 8 * pos
  }

  /** _intsetGetEncoded on the bytes of the buffer. */
  function ValueAt(d: seq<byte>, enc: nat, pos: nat): (v: int)
    requires IsEncoding(enc) && Offset(enc, pos + 1) <= |d|
    ensures Fits(v, enc)
  {
    var s := d[Offset(enc, pos)..Offset(enc, pos + 1)];
    FromLeBound(s);
    PowersOf256();
    Signed(s)
  }

  /** The values in the buffer. */
  function ValuesOf(d: seq<byte>, enc: nat, n: nat): (vs: seq<int>)
    requires IsEncoding(enc) && Offset(enc, n) <= |d|
    ensures |vs| == n && forall k :: 0 <= k < n ==> vs[k] == ValueAt(d, enc, k) && Fits(vs[k], enc)
  {
    seq(n, k requires 0 <= k < n => ValueAt(d, enc, k))
  }

  predicate Ascending(vs: seq<int>) {
    forall i, j :: 0 <= i < j < |vs| ==> vs[i] < vs[j]
  }

  /** Writing outside a position keeps its value. */
  lemma ValueKept(d: seq<byte>, d': seq<byte>, enc: nat, pos: nat)
    requires IsEncoding(enc) && Offset(enc, pos + 1) <= |d| && Offset(enc, pos + 1) <= |d'|
    requires forall k :: Offset(enc, pos) <= k < Offset(enc, pos + 1) ==> d'[k] == d[k]
    ensures ValueAt(d', enc, pos) == ValueAt(d, enc, pos)
  {
    assert d'[Offset(enc, pos)..Offset(enc, pos + 1)] == d[Offset(enc, pos)..Offset(enc, pos + 1)];
  }

  /** A value that needs a wider encoding lies outside the values of a narrower one: below them when negative. */
  lemma OutOfRange(value: int, v: int, enc: nat)
    requires IsEncoding(enc) && Fits(value, ENC_INT64) && ValueEncoding(value) > enc && Fits(v, enc)
    ensures if value < 0 then value < v else v < value
  {
  }

  /** A value that needs a wider encoding belongs at one end. */
  lemma Extends(value: int, vs: seq<int>, enc: nat)
    requires IsEncoding(enc) && Fits(value, ENC_INT64) && ValueEncoding(value) > enc
    requires Ascending(vs) && forall k :: 0 <= k < |vs| ==> Fits(vs[k], enc)
    ensures Ascending(if value < 0 then [value] + vs else vs + [value])
  {
    forall k | 0 <= k < |vs| ensures if value < 0 then value < vs[k] else vs[k] < value {
      OutOfRange(value, vs[k], enc);
    }
  }

  lemma AtOneEnd(w: seq<int>, vs: seq<int>, value: int)
    requires |w| == |vs| + 1 && w[if value < 0 then 0 else |vs|] == value
    requires forall j :: 0 <= j < |vs| ==> w[if value < 0 then j + 1 else j] == vs[j]
    ensures w == if value < 0 then [value] + vs else vs + [value]
  {
  }

  lemma SameSlice(d: seq<byte>, e: seq<byte>, a: nat, b: nat, n: nat, x: nat, y: nat)
    requires a + n <= |d| && b + n <= |e| && e[b..b + n] == d[a..a + n] && x <= y <= n
    ensures e[b + x..b + y] == d[a + x..a + y]
  {
    var p, q := e[b + x..b + y], d[a + x..a + y];
    forall k | 0 <= k < |p| ensures p[k] == q[k] {
      assert e[b..b + n][x + k] == d[a..a + n][x + k];
    }
  }

  /** A moved block of values. */
  lemma ValueMoved(d: seq<byte>, e: seq<byte>, enc: nat, from: nat, to: nat, m: nat, j: nat)
    requires IsEncoding(enc) && Offset(enc, from + m) <= |d| && Offset(enc, to + m) <= |e| && to <= j < to + m
    requires e[Offset(enc, to)..Offset(enc, to + m)] == d[Offset(enc, from)..Offset(enc, from + m)]
    ensures ValueAt(e, enc, j) == ValueAt(d, enc, j - to + from)
  {
    SameSlice(d, e, Offset(enc, from), Offset(enc, to), Offset(enc, m), Offset(enc, j - to), Offset(enc, j - to + 1));
    assert Offset(enc, to) + Offset(enc, j - to) == Offset(enc, j);
    assert Offset(enc, from) + Offset(enc, j - to) == Offset(enc, j - to + from);
  }

  /** The buffers of an insertion, as found (d), resized (d1), with the tail moved (d2) and written at pos (d3): the
      other values stand around pos. */
  lemma OthersAround(d: seq<byte>, d1: seq<byte>, d2: seq<byte>, d3: seq<byte>, enc: nat, n: nat, pos: nat, k: nat)
    requires IsEncoding(enc) && pos <= n && k <= n && k != pos
    requires |d| == Offset(enc, n) && |d1| == |d2| == |d3| == Offset(enc, n + 1)
    requires forall i :: 0 <= i < |d| ==> d1[i] == d[i]
    requires forall i :: 0 <= i < Offset(enc, pos) ==> d2[i] == d1[i]
    requires forall j :: pos < j <= n ==> ValueAt(d2, enc, j) == ValueAt(d1, enc, j - 1)
    requires forall i :: 0 <= i < |d2| && !(Offset(enc, pos) <= i < Offset(enc, pos + 1)) ==> d3[i] == d2[i]
    ensures ValueAt(d3, enc, k) == ValueAt(d, enc, if k < pos then k else k - 1)
  {
    hide ValueAt;
    ValueKept(d2, d3, enc, k);
    if k < pos {
      ValueKept(d, d2, enc, k);
    } else {
      ValueKept(d, d1, enc, k - 1);
    }
  }

  lemma Inserted(w: seq<int>, vs: seq<int>, pos: nat, value: int)
    requires pos <= |vs| && |w| == |vs| + 1 && w[pos] == value && Ascending(vs)
    requires forall k :: 0 <= k < |w| && k != pos ==> w[k] == vs[if k < pos then k else k - 1]
    requires forall k :: 0 <= k < |vs| ==> if k < pos then vs[k] < value else value < vs[k]
    ensures w == vs[..pos] + [value] + vs[pos..] && Ascending(w)
  {
  }

  lemma Removed(w: seq<int>, vs: seq<int>, pos: nat)
    requires pos < |vs| && |w| == |vs| - 1 && Ascending(vs)
    requires forall k :: 0 <= k < |w| ==> w[k] == vs[if k < pos then k else k + 1]
    ensures w == vs[..pos] + vs[pos + 1..] && Ascending(w)
  {
  }

  lemma {:induction false} AscendingCount(vs: seq<int>)
    requires Ascending(vs)
    ensures |set v | v in vs| == |vs|
  {
    if vs != [] {
      var n := |vs| - 1;
      AscendingCount(vs[..n]);
      assert vs == vs[..n] + [vs[n]];
      assert (set v | v in vs) == (set v | v in vs[..n]) + {vs[n]};
    }
  }

  class Intset {
    var contents: array<byte>
    var encoding: nat
    var length: nat

    ghost predicate Valid()
      reads this, contents
    {
      IsEncoding(encoding) && contents.Length == Offset(encoding, length) && Ascending(Values())
    }

    /** The values in the order of the buffer. */
    ghost function Values(): seq<int>
      requires IsEncoding(encoding) && contents.Length >= Offset(encoding, length)
      reads this, contents
    {
      ValuesOf(contents[..], encoding, length)
    }

    /** The set that is stored. */
    ghost function Members(): set<int>
      requires IsEncoding(encoding) && contents.Length >= Offset(encoding, length)
      reads this, contents
    {
      set v | v in Values()
    }

    /** intsetNew. */
    constructor ()
      ensures Valid() && Members() == {} && fresh(contents) && encoding == ENC_INT16
    {
      contents := new byte[0];
      encoding, length := ENC_INT16, 0;
    }

    /** _intsetGet. */
    function Get(pos: nat): int
      requires IsEncoding(encoding) && Offset(encoding, pos + 1) <= contents.Length
      reads this, contents
    {
      ValueAt(contents[..], encoding, pos)
    }

    /** _intsetSet: only the bytes of the position change. */
    method Set(pos: nat, value: int)
      requires IsEncoding(encoding) && Offset(encoding, pos + 1) <= contents.Length && Fits(value, encoding)
      modifies contents
      ensures ValueAt(contents[..], encoding, pos) == value
      ensures forall k :: 0 <= k < contents.Length && !(Offset(encoding, pos) <= k < Offset(encoding, pos + 1)) ==>
        contents[k] == old(contents[k])
    {
      Store(contents, Offset(encoding, pos), Le(value, encoding));
      AtSlice(contents[..], Offset(encoding, pos), Le(value, encoding));
      PowersOf256();
      SignedOfLe(value, encoding);
    }

    /** intsetResize. */
    method Resize(len: nat)
      requires IsEncoding(encoding)
      modifies `contents
      ensures fresh(contents) && contents.Length == Offset(encoding, len)
      ensures forall k :: 0 <= k < contents.Length && k < old(contents.Length) ==> contents[k] == old(contents[k])
    {
      contents := Realloc(contents, Offset(encoding, len));
    }

    /** intsetSearch: where the value is, or where it can be inserted. */
    method Search(value: int) returns (found: bool, pos: nat)
      requires Valid()
      ensures found <==> value in Values()
      ensures found ==> pos < length && Values()[pos] == value
      ensures !found ==> pos <= length && forall k :: 0 <= k < length ==>
        if k < pos then Values()[k] < value else value < Values()[k]
    {
      hide ValueAt;
      if length == 0 {
        return false, 0;
      }
      ghost var vs := Values();
      assert forall k :: 0 <= k < length ==> vs[k] == Get(k);
      if value > Get(length - 1) {
        return false, length;
      }
      if value < Get(0) {
        return false, 0;
      }
      var min, max, mid, cur := 0, length - 1, -1, -1;
      while max >= min
        invariant 0 <= min <= length && -1 <= max < length && min <= max + 1
        invariant forall k :: 0 <= k < min ==> vs[k] < value
        invariant forall k :: max < k < length ==> value < vs[k]
        invariant if mid == -1 then min <= max else 0 <= mid < length && cur == vs[mid] != value
        decreases max - min
      {
        mid := (min + max) / 2;
        cur := Get(mid);
        if value > cur {
          min := mid + 1;
        } else if value < cur {
          max := mid - 1;
        } else {
          break;
        }
      }
      if value == cur {
        return true, mid;
      } else {
        return false, min;
      }
    }

    /** intsetUpgradeAndAdd: every value is read at the old width before its bytes are overwritten. */
    method UpgradeAndAdd(value: int)
      requires Valid() && Fits(value, ENC_INT64) && ValueEncoding(value) > encoding
      modifies this
      ensures Valid() && encoding == ValueEncoding(value) && fresh(contents)
      ensures Values() == if value < 0 then [value] + old(Values()) else old(Values()) + [value]
    {
      hide ValueAt;
      ghost var vs := Values();
      var curenc := encoding;
      var prepend := if value < 0 then 1 else 0;
      ghost var d := contents[..];
      encoding := ValueEncoding(value);
      Resize(length + 1);
      Widen(curenc, prepend, d);
      ghost var c := contents[..];
      Set(if value < 0 then 0 else length, value);
      forall j | 0 <= j < length ensures ValueAt(contents[..], encoding, j + prepend) == vs[j] {
        ValueKept(c, contents[..], encoding, j + prepend);
      }
      length := length + 1;
      Extends(value, vs, curenc);
      ghost var w := Values();
      assert forall k :: 0 <= k < |w| ==> w[k] == ValueAt(contents[..], encoding, k);
      AtOneEnd(w, vs, value);
    }

    /** The loop of intsetUpgradeAndAdd, from the back to the front. */
    method Widen(curenc: nat, prepend: nat, ghost d: seq<byte>)
      requires IsEncoding(encoding) && IsEncoding(curenc) && curenc < encoding && prepend <= 1
      requires contents.Length == Offset(encoding, length + 1) && |d| == Offset(curenc, length) && contents[..|d|] == d
      modifies contents
      ensures forall j :: 0 <= j < length ==> ValueAt(contents[..], encoding, j + prepend) == ValueAt(d, curenc, j)
    {
      hide ValueAt;
      var n: nat := length;
      while n > 0
        invariant n <= length && contents[..Offset(curenc, n)] == d[..Offset(curenc, n)]
        invariant forall j :: n <= j < length ==> ValueAt(contents[..], encoding, j + prepend) == ValueAt(d, curenc, j)
      {
        n := n - 1;
        ghost var c := contents[..];
        ValueKept(d, c, curenc, n);
        Set(n + prepend, ValueAt(contents[..], curenc, n));
        forall j | n < j < length ensures ValueAt(contents[..], encoding, j + prepend) == ValueAt(d, curenc, j) {
          ValueKept(c, contents[..], encoding, j + prepend);
        }
      }
    }

    /** intsetMoveTail: the values from one position on move to another. */
    method MoveTail(from: nat, to: nat)
      requires IsEncoding(encoding) && from <= length && contents.Length >= Offset(encoding, length)
        && contents.Length >= Offset(encoding, to + (length - from))
      modifies contents
      ensures forall j :: to <= j < to + (length - from) ==>
        ValueAt(contents[..], encoding, j) == old(ValueAt(contents[..], encoding, j - to + from))
      ensures forall k :: 0 <= k < contents.Length && k < Offset(encoding, to) ==> contents[k] == old(contents[k])
    {
      hide ValueAt;
      ghost var d := contents[..];
      Memmove(contents, Offset(encoding, to), Offset(encoding, from), Offset(encoding, length - from));
      ghost var e := contents[..];
      ghost var m := length - from;
      ghost var z := d[Offset(encoding, from)..Offset(encoding, from + m)];
      AtSlice(e, Offset(encoding, to), z);
      assert e[Offset(encoding, to)..Offset(encoding, to + m)] == z;
      forall j | to <= j < to + (length - from) ensures ValueAt(e, encoding, j) == ValueAt(d, encoding, j - to + from) {
        ValueMoved(d, e, encoding, from, to, m, j);
      }
    }

    /** intsetAdd. */
    method Add(value: int) returns (success: bool)
      requires Valid() && Fits(value, ENC_INT64)
      modifies this, contents
      ensures Valid() && Members() == old(Members()) + {value}
      ensures success <==> value !in old(Members())
      ensures encoding == if ValueEncoding(value) > old(encoding) then ValueEncoding(value) else old(encoding)
      ensures fresh(contents) || contents == old(contents)
    {
      hide ValueAt;
      ghost var vs := Values();
      if ValueEncoding(value) > encoding {
        UpgradeAndAdd(value);
        return true;
      }
      var found, pos := Search(value);
      if found {
        return false;
      }
      InsertAtPos(pos, value);
      return true;
    }

    /** The value is written where the tail made room for it. */
    method InsertAtPos(pos: nat, value: int)
      requires Valid() && pos <= length && Fits(value, encoding)
      requires forall k :: 0 <= k < length ==> if k < pos then Values()[k] < value else value < Values()[k]
      modifies this
      ensures Valid() && fresh(contents) && Values() == old(Values())[..pos] + [value] + old(Values())[pos..]
      ensures encoding == old(encoding)
    {
      hide ValueAt, Ascending, Fits;
      ghost var vs, d := Values(), contents[..];
      Resize(length + 1);
      ghost var d1 := contents[..];
      if pos < length {
        MoveTail(pos, pos + 1);
      }
      ghost var d2 := contents[..];
      Set(pos, value);
      forall k | 0 <= k <= length && k != pos
          ensures ValueAt(contents[..], encoding, k) == vs[if k < pos then k else k - 1] {
        OthersAround(d, d1, d2, contents[..], encoding, length, pos, k);
      }
      length := length + 1;
      Inserted(Values(), vs, pos, value);
    }

    /** intsetRemove. */
    method Remove(value: int) returns (success: bool)
      requires Valid() && Fits(value, ENC_INT64)
      modifies this, contents
      ensures Valid() && Members() == old(Members()) - {value}
      ensures success <==> value in old(Members())
      ensures encoding == old(encoding) && (fresh(contents) || contents == old(contents))
    {
      hide ValueAt;
      if ValueEncoding(value) > encoding {
        NotStored(value);
        return false;
      }
      var found, pos := Search(value);
      if !found {
        return false;
      }
      RemoveAtPos(pos);
      return true;
    }

    /** The tail moves over the value, and the buffer shrinks. */
    method RemoveAtPos(pos: nat)
      requires Valid() && pos < length
      modifies this, contents
      ensures Valid() && fresh(contents) && Values() == old(Values())[..pos] + old(Values())[pos + 1..]
      ensures encoding == old(encoding)
    {
      hide ValueAt;
      ghost var vs, d := Values(), contents[..];
      if pos < length - 1 {
        MoveTail(pos + 1, pos);
      }
      ghost var d1 := contents[..];
      Resize(length - 1);
      forall k | 0 <= k < length - 1 ensures ValueAt(contents[..], encoding, k) == vs[if k < pos then k else k + 1] {
        ValueKept(d1, contents[..], encoding, k);
        if k < pos {
          ValueKept(d, d1, encoding, k);
        }
      }
      length := length - 1;
      Removed(Values(), vs, pos);
    }

    lemma NotStored(value: int)
      requires Valid() && Fits(value, ENC_INT64) && ValueEncoding(value) > encoding
      ensures value !in Values()
    {
      hide ValueAt;
      forall k | 0 <= k < length ensures Values()[k] != value {
        OutOfRange(value, Values()[k], encoding);
      }
    }

    /** intsetFind. */
    method Find(value: int) returns (found: bool)
      requires Valid() && Fits(value, ENC_INT64)
      ensures found <==> value in Members()
    {
      hide ValueAt;
      if ValueEncoding(value) > encoding {
        NotStored(value);
        return false;
      }
      var pos;
      found, pos := Search(value);
    }

    /** intsetLen. */
    method Len() returns (n: nat)
      requires Valid()
      ensures n == |Members()|
    {
      AscendingCount(Values());
      n := length;
    }
  }
}
