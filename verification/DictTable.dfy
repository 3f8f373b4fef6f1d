/** One hash table of a dictionary (dict.c): chained entries, where they belong, and what adding and removing one
    does to the chains and to the mapping they hold. */
module DictTable {
  import opened Sequences

  /** dictEntry. */
  class Entry<K, V> {
    const key: K
    var val: V
    var next: Entry?<K, V>

    constructor (key: K, val: V)
      ensures this.key == key && this.val == val
    {
      this.key, this.val, this.next := key, val, null;
    }
  }

  /** The values of some entries. */
  ghost function ValsOf<K, V>(m: map<K, Entry<K, V>>): (r: map<K, V>)
    reads m.Values
    ensures r.Keys == m.Keys
  {
    map k | k in m :: m[k].val
  }

  /** dictht: the bucket heads and the number of entries. */
  datatype Table<!K, !V> = Table(buckets: seq<Entry?<K, V>>, used: int)

  /** The bucket of a key: the hash masked with the size less one, for a size that is a power of two. */
  function Slot<K>(hash: K -> nat, size: nat, key: K): (i: nat)
    requires size > 0
    ensures i < size
  {
    hash(key) % size
  }

  /** The bits that two numbers have in common. */
  function And(a: nat, b: nat): nat
    decreases b
  {
    if b == 0 then 0 else 2 * And(a / 2, b / 2) + (if a % 2 == 1 && b % 2 == 1 then 1 else 0)
  }

  function PowerOf2(n: nat): (r: nat)
    ensures r >= 1
  {
    if n == 0 then 1 else 2 * PowerOf2(n - 1)
  }

  function Rem(a: nat, n: nat): (r: nat)
    requires n > 0
  {
    a % n
  }

  /** Masking with one less than a power of two is the remainder. */
  lemma {:induction false} MaskIsRemainder(a: nat, n: nat)
    ensures And(a, PowerOf2(n) - 1) == Rem(a, PowerOf2(n))
  {
    hide Rem;
    if n == 0 {
      RemOne(a);
    } else {
      MaskIsRemainder(a / 2, n - 1);
      AndOdd(a, PowerOf2(n - 1) - 1);
      HalfRemainder(a, PowerOf2(n - 1), PowerOf2(n));
    }
  }

  lemma RemOne(a: nat)
    ensures Rem(a, 1) == 0
  {
  }

  lemma {:induction false} AndOdd(a: nat, b: nat)
    ensures And(a, 2 * b + 1) == 2 * And(a / 2, b) + a % 2
  {
  }

  lemma HalfRemainder(a: nat, p: nat, p2: nat)
    requires p >= 1 && p2 == 2 * p
    ensures Rem(a, p2) == 2 * Rem(a / 2, p) + a % 2
  {
    var h := a / 2;
    var q, r := h / p, h % p;
    Doubled(p, p2, q);
    RemainderIs(a, p2, q, 2 * r + a % 2);
  }

  lemma Doubled(p: int, p2: int, q: int)
    requires p2 == 2 * p
    ensures q * p2 == 2 * (q * p)
  {
  }

  lemma RemainderIs(a: nat, n: int, q: int, r: nat)
    requires n > 0 && a == q * n + r && r < n
    ensures a % n == r
  {
    var d := a / n - q;
    assert a == (a / n) * n + a % n;
    assert d * n == r - a % n;
    assert (d > 0 ==> d * n >= n) && (d < 0 ==> d * n <= -n);
  }

  /** In a table of a power of two buckets, the bucket of a key is its hash masked with the size less one. */
  lemma SlotIsMask<K>(hash: K -> nat, n: nat, key: K)
    ensures Slot(hash, PowerOf2(n), key) == And(hash(key), PowerOf2(n) - 1)
  {
    MaskIsRemainder(hash(key), n);
  }

  /** The entry at a place of a chain, or NULL behind its end. */
  ghost function Nth<K, V>(chain: seq<Entry<K, V>>, j: nat): Entry?<K, V> {
    if j < |chain| then chain[j] else null
  }

  /** The head and the next pointers run through the chain. */
  ghost predicate Linked<K, V>(first: Entry?<K, V>, chain: seq<Entry<K, V>>)
    reads chain
  {
    first == Nth(chain, 0) && forall j :: 0 <= j < |chain| ==> chain[j].next == Nth(chain, j + 1)
  }

  lemma LinkedTail<K, V>(first: Entry?<K, V>, chain: seq<Entry<K, V>>)
    requires Linked(first, chain) && chain != []
    ensures first == chain[0] && Linked(chain[0].next, RemoveAt(chain, 0))
  {
  }

  lemma LinkedHead<K, V>(first: Entry?<K, V>, chain: seq<Entry<K, V>>)
    requires Linked(first, chain)
    ensures first == Nth(chain, 0)
  {
  }

  lemma LinkedPush<K, V>(e: Entry<K, V>, chain: seq<Entry<K, V>>)
    requires Linked(e.next, chain)
    ensures Linked(e, [e] + chain)
  {
  }

  ghost predicate Threaded<K, V>(buckets: seq<Entry?<K, V>>, c: seq<seq<Entry<K, V>>>, m: map<K, Entry<K, V>>)
    reads m.Values
  {
    && |buckets| == |c|
    && (forall i, j :: 0 <= i < |c| && 0 <= j < |c[i]| ==> c[i][j] in m.Values)
    && (forall i :: 0 <= i < |c| ==> Linked(buckets[i], c[i]))
  }

  /** Every entry of the mapping is in the bucket of its key, once, and nothing else is. */
  ghost predicate Placed<K, V>(hash: K -> nat, c: seq<seq<Entry<K, V>>>, m: map<K, Entry<K, V>>) {
    && (forall i, j :: 0 <= i < |c| && 0 <= j < |c[i]| ==> Homed(hash, |c|, m, c[i][j], i))
    && (forall i :: 0 <= i < |c| ==> Distinct(c[i]))
    && (forall k :: k in m ==> m[k].key == k && |c| > 0 && m[k] in c[Slot(hash, |c|, k)])
  }

  ghost predicate Homed<K, V>(hash: K -> nat, size: nat, m: map<K, Entry<K, V>>, e: Entry<K, V>, i: nat) {
    e.key in m && m[e.key] == e && i < size && Slot(hash, size, e.key) == i
  }

  /** A table with the chains c that holds the mapping m. */
  ghost predicate TableOk<K, V>(hash: K -> nat, t: Table<K, V>, c: seq<seq<Entry<K, V>>>, m: map<K, Entry<K, V>>)
    reads m.Values
  {
    Placed(hash, c, m) && Threaded(t.buckets, c, m) && t.used == |m|
  }

  /** Adding an entry at the head of its bucket. */
  lemma PushPlaced<K, V>(hash: K -> nat, c: seq<seq<Entry<K, V>>>, m: map<K, Entry<K, V>>, e: Entry<K, V>)
    requires Placed(hash, c, m) && |c| > 0 && e.key !in m
    ensures var s := Slot(hash, |c|, e.key); Placed(hash, c[s := [e] + c[s]], m[e.key := e])
  {
    var s := Slot(hash, |c|, e.key);
    var c', m' := c[s := [e] + c[s]], m[e.key := e];
    forall i, j | 0 <= i < |c'| && 0 <= j < |c'[i]| ensures Homed(hash, |c'|, m', c'[i][j], i) {
      if i != s {
        assert Homed(hash, |c|, m, c[i][j], i);
      } else if j > 0 {
        assert Homed(hash, |c|, m, c[i][j - 1], i);
      }
    }
    forall i | 0 <= i < |c'| ensures Distinct(c'[i]) {
      if i == s {
        assert forall j :: 0 <= j < |c[s]| ==> Homed(hash, |c|, m, c[s][j], s);
      }
    }
  }

  /** Removing an entry from its bucket. */
  lemma PullPlaced<K, V>(hash: K -> nat, c: seq<seq<Entry<K, V>>>, m: map<K, Entry<K, V>>, i: nat, j: nat)
    requires Placed(hash, c, m) && i < |c| && j < |c[i]|
    ensures c[i][j].key in m && m[c[i][j].key] == c[i][j]
    ensures Placed(hash, c[i := RemoveAt(c[i], j)], m - {c[i][j].key})
  {
    var e := c[i][j];
    assert Homed(hash, |c|, m, e, i);
    var c', m' := c[i := RemoveAt(c[i], j)], m - {e.key};
    forall x, y | 0 <= x < |c'| && 0 <= y < |c'[x]| ensures Homed(hash, |c'|, m', c'[x][y], x) {
      var y' := if x != i || y < j then y else y + 1;
      assert c'[x][y] == c[x][y'] && Homed(hash, |c|, m, c[x][y'], x);
      if x == i {
        assert c[i][y'] != c[i][j];
      }
    }
    forall k | k in m' ensures m'[k] in c'[Slot(hash, |c'|, k)] {
      var s := Slot(hash, |c|, k);
      var y :| 0 <= y < |c[s]| && c[s][y] == m[k];
      if s == i {
        assert y != j;
        assert c'[i][if y < j then y else y - 1] == m[k];
      }
    }
  }

  lemma EmptyOk<K, V>(hash: K -> nat)
    ensures TableOk<K, V>(hash, Table([], 0), [], map[])
  {
  }

  lemma FreshOk<K, V>(hash: K -> nat, size: nat)
    ensures TableOk<K, V>(hash, Table(seq(size, _ => null), 0), seq(size, _ => []), map[])
  {
  }

  /** A table without buckets holds nothing. */
  lemma NoBuckets<K, V>(hash: K -> nat, t: Table<K, V>, c: seq<seq<Entry<K, V>>>, m: map<K, Entry<K, V>>)
    requires TableOk(hash, t, c, m) && t.buckets == []
    ensures m == map[] && t.used == 0
  {
  }

  lemma UsedNone<K, V>(hash: K -> nat, t: Table<K, V>, c: seq<seq<Entry<K, V>>>, m: map<K, Entry<K, V>>)
    requires TableOk(hash, t, c, m)
    ensures t.used == 0 <==> m == map[]
  {
  }

  /** What TableOk says of one chain. */
  lemma ChainAt<K, V>(hash: K -> nat, t: Table<K, V>, c: seq<seq<Entry<K, V>>>, m: map<K, Entry<K, V>>, i: nat)
    requires TableOk(hash, t, c, m) && i < |c|
    ensures |t.buckets| == |c| && Linked(t.buckets[i], c[i]) && Distinct(c[i])
    ensures forall j :: 0 <= j < |c[i]| ==> Homed(hash, |c|, m, c[i][j], i)
  {
  }

  lemma KeyAt<K, V>(hash: K -> nat, t: Table<K, V>, c: seq<seq<Entry<K, V>>>, m: map<K, Entry<K, V>>, key: K)
    requires TableOk(hash, t, c, m) && key in m
    ensures m[key].key == key && |c| > 0 && m[key] in c[Slot(hash, |c|, key)]
  {
  }

  /** Keeping the tail of a chain only: the head leaves the table. */
  lemma PopHead<K, V>(hash: K -> nat, t: Table<K, V>, c: seq<seq<Entry<K, V>>>, m: map<K, Entry<K, V>>, r: nat)
    requires TableOk(hash, t, c, m) && r < |c| == |t.buckets| && c[r] != []
    ensures var e := c[r][0];
      && t.buckets[r] == e && e.next == Nth(RemoveAt(c[r], 0), 0) && e.key in m && m[e.key] == e
        && e !in (m - {e.key}).Values
      && TableOk(hash, Table(t.buckets[r := e.next], t.used - 1), c[r := RemoveAt(c[r], 0)], m - {e.key})
  {
    hide Placed, Linked;
    ChainAt(hash, t, c, m, r);
    PullPlaced(hash, c, m, r, 0);
    var e := c[r][0];
    var c', m' := c[r := RemoveAt(c[r], 0)], m - {e.key};
    PlacedValues(hash, c', m');
    PlacedKeys(hash, c, m);
    LinkedTail(t.buckets[r], c[r]);
    LinkedHead(e.next, c'[r]);
    forall i | 0 <= i < |c'| ensures Linked(t.buckets[r := e.next][i], c'[i]) {
      ChainAt(hash, t, c, m, i);
    }
    assert m'.Keys == m.Keys - {e.key};
  }

  lemma PlacedValues<K, V>(hash: K -> nat, c: seq<seq<Entry<K, V>>>, m: map<K, Entry<K, V>>)
    requires Placed(hash, c, m)
    ensures forall i, j :: 0 <= i < |c| && 0 <= j < |c[i]| ==> c[i][j] in m.Values
  {
    forall i, j | 0 <= i < |c| && 0 <= j < |c[i]| ensures c[i][j] in m.Values {
      assert Homed(hash, |c|, m, c[i][j], i);
    }
  }

  lemma PlacedKeys<K, V>(hash: K -> nat, c: seq<seq<Entry<K, V>>>, m: map<K, Entry<K, V>>)
    requires Placed(hash, c, m)
    ensures forall k :: k in m ==> m[k].key == k
  {
  }

  /** Adding an entry at the head of its bucket, as dictAdd and dictRehash do. */
  method PushHead<K, V>(hash: K -> nat, t: Table<K, V>, h: nat, e: Entry<K, V>, ghost c: seq<seq<Entry<K, V>>>,
      ghost m: map<K, Entry<K, V>>)
      returns (t': Table<K, V>)
    requires TableOk(hash, t, c, m) && t.buckets != [] && e.key !in m && h == Slot(hash, |t.buckets|, e.key)
    modifies e`next
    ensures |t'.buckets| == |t.buckets| == |c| && TableOk(hash, t', c[h := [e] + c[h]], m[e.key := e])
  {
    hide Placed, Linked;
    PushPlaced(hash, c, m, e);
    PlacedKeys(hash, c, m);
    assert e !in m.Values;
    e.next := t.buckets[h];
    t' := Table(t.buckets[h := e], t.used + 1);
    ChainAt(hash, t, c, m, h);
    LinkedPush(e, c[h]);
    ghost var c', m' := c[h := [e] + c[h]], m[e.key := e];
    PlacedValues(hash, c', m');
    forall i | 0 <= i < |c'| ensures Linked(t'.buckets[i], c'[i]) {
      ChainAt(hash, t, c, m, i);
    }
    assert m'.Keys == m.Keys + {e.key};
  }

  /** Unlinking an entry from its bucket, as dictGenericDelete does. */
  method Unlink<K, V>(hash: K -> nat, t: Table<K, V>, i: nat, he: Entry<K, V>, prev: Entry?<K, V>,
      ghost all: map<K, Entry<K, V>>, ghost j: nat, ghost c: seq<seq<Entry<K, V>>>, ghost m: map<K, Entry<K, V>>)
      returns (t': Table<K, V>)
    requires TableOk(hash, t, c, m) && i < |c| == |t.buckets| && j < |c[i]| && he == c[i][j]
    requires prev == if j == 0 then null else c[i][j - 1]
    modifies if prev == null then {} else {prev}
    ensures |t'.buckets| == |c| && he.key in m && m[he.key] == he
    ensures TableOk(hash, t', c[i := RemoveAt(c[i], j)], m - {he.key})
    ensures ValsOf(all) == old(ValsOf(all))
  {
    hide Placed, Linked;
    PullPlaced(hash, c, m, i, j);
    ghost var c', m' := c[i := RemoveAt(c[i], j)], m - {he.key};
    PlacedValues(hash, c', m');
    forall x | 0 <= x < |c| ensures Linked(t.buckets[x], c[x]) && (prev != null && x != i ==> prev !in c[x]) {
      ChainAt(hash, t, c, m, x);
      ChainAt(hash, t, c, m, i);
    }
    assert Distinct(c[i]) by { ChainAt(hash, t, c, m, i); }
    if prev != null {
      assert prev != he;
      SkipNext(t.buckets[i], prev, he, c[i], j);
      t' := t.(used := t.used - 1);
    } else {
      LinkedTail(t.buckets[i], c[i]);
      t' := Table(t.buckets[i := he.next], t.used - 1);
    }
    assert m'.Keys == m.Keys - {he.key};
  }

  /** Taking an entry that is not the head out of a chain. */
  method SkipNext<K, V>(ghost first: Entry?<K, V>, prev: Entry<K, V>, he: Entry<K, V>, ghost chain: seq<Entry<K, V>>,
      ghost j: nat)
    requires Linked(first, chain) && Distinct(chain) && 1 <= j < |chain| && prev == chain[j - 1] && he == chain[j]
    modifies prev`next
    ensures Linked(first, RemoveAt(chain, j)) && he.next == old(he.next)
  {
    assert he.next == Nth(chain, j + 1);
    prev.next := he.next;
    ghost var rest := RemoveAt(chain, j);
    forall x | 0 <= x < |rest| ensures rest[x].next == Nth(rest, x + 1) {
      var y := if x < j then x else x + 1;
      RemoveIs(chain, j, x);
      assert y == j - 1 || chain[y] != chain[j - 1];
    }
  }

  /** A new value for an entry does not disturb the tables. */
  method WriteVal<K, V>(e: Entry<K, V>, val: V, ghost hash: K -> nat, ghost m: map<K, Entry<K, V>>,
      ghost t0: Table<K, V>, ghost c0: seq<seq<Entry<K, V>>>, ghost m0: map<K, Entry<K, V>>,
      ghost t1: Table<K, V>, ghost c1: seq<seq<Entry<K, V>>>, ghost m1: map<K, Entry<K, V>>)
    requires TableOk(hash, t0, c0, m0) && TableOk(hash, t1, c1, m1)
    requires e.key in m && m[e.key] == e && forall k :: k in m ==> m[k].key == k
    modifies e`val
    ensures TableOk(hash, t0, c0, m0) && TableOk(hash, t1, c1, m1)
    ensures ValsOf(m) == old(ValsOf(m))[e.key := val]
  {
    hide Placed;
    e.val := val;
  }

  /** The walk of dictGenericDelete: the entry of the key and the one before it in the chain. */
  method WalkBefore<K(==), V>(first: Entry?<K, V>, key: K, ghost chain: seq<Entry<K, V>>)
      returns (he: Entry?<K, V>, prev: Entry?<K, V>, ghost j: nat)
    requires Linked(first, chain)
    ensures he == null ==> forall i :: 0 <= i < |chain| ==> chain[i].key != key
    ensures he != null ==>
      j < |chain| && he == chain[j] && he.key == key && prev == if j == 0 then null else chain[j - 1]
  {
    he, prev, j := first, null, 0;
    while he != null && he.key != key
      invariant j <= |chain| && he == Nth(chain, j) && prev == if j == 0 then null else chain[j - 1]
      invariant forall i :: 0 <= i < j ==> chain[i].key != key
      decreases |chain| - j
    {
      he, prev, j := he.next, he, j + 1;
    }
  }

  /** The number of entries in some chains. */
  ghost function TotalLength<K, V>(c: seq<seq<Entry<K, V>>>): nat {
    if c == [] then 0 else TotalLength(c[..|c| - 1]) + |c[|c| - 1]|
  }

  lemma {:induction false} LengthChanged<K, V>(c: seq<seq<Entry<K, V>>>, i: nat, s: seq<Entry<K, V>>)
    requires i < |c|
    ensures TotalLength(c[i := s]) == TotalLength(c) - |c[i]| + |s|
  {
    var n := |c| - 1;
    if i < n {
      LengthChanged(c[..n], i, s);
      assert c[i := s][..n] == c[..n][i := s];
    } else {
      assert c[i := s][..n] == c[..n];
    }
  }

  lemma {:induction false} LengthZero<K, V>(c: seq<seq<Entry<K, V>>>)
    requires forall i :: 0 <= i < |c| ==> c[i] == []
    ensures TotalLength(c) == 0
  {
    if c != [] {
      LengthZero(c[..|c| - 1]);
    }
  }

  lemma HoldsSome<K, V>(hash: K -> nat, c: seq<seq<Entry<K, V>>>, m: map<K, Entry<K, V>>, i: nat)
    requires Placed(hash, c, m) && i < |c| && c[i] != []
    ensures m != map[]
  {
    assert Homed(hash, |c|, m, c[i][0], i);
  }

  /** Chains that hold a mapping have as many entries as the mapping has keys, so the field used is their total
      length. */
  lemma {:induction false} LengthIsCount<K, V>(hash: K -> nat, c: seq<seq<Entry<K, V>>>, m: map<K, Entry<K, V>>)
    requires Placed(hash, c, m)
    ensures TotalLength(c) == |m|
    decreases |m|
  {
    if m == map[] {
      forall i | 0 <= i < |c| ensures c[i] == [] {
        if c[i] != [] {
          HoldsSome(hash, c, m, i);
        }
      }
      LengthZero(c);
    } else {
      var k :| k in m;
      var i := Slot(hash, |c|, k);
      var j :| 0 <= j < |c[i]| && c[i][j] == m[k];
      PullPlaced(hash, c, m, i, j);
      assert (m - {k}).Keys == m.Keys - {k};
      LengthIsCount(hash, c[i := RemoveAt(c[i], j)], m - {k});
      LengthChanged(c, i, RemoveAt(c[i], j));
    }
  }
}
