/** Dictionaries (dict.c): two hash tables with incremental rehashing from the first to the second, which together
    hold one finite map. */
module Dict {
  import opened Options
  import opened Sequences
  import opened DictTable

  const INITIAL_SIZE := 4
  const FORCE_RESIZE_RATIO := 5
  const MIN_FILL := 10
  const LONG_MAX := 0x7fff_ffff_ffff_ffff

  function Larger(a: int, b: int): int {
    if a > b then a else b
  }

  function Percent(part: int, whole: int): int
    requires whole > 0
  {
    part * 100 / whole
  }

  function Ratio(entries: int, buckets: int): int
    requires buckets > 0
  {
    entries / buckets
  }

  lemma Doubles(a: nat, b: int)
    requires a <= b < LONG_MAX / 2
    ensures 0 <= b <= Larger(a, b) * 2 == 2 * Larger(a, b) < LONG_MAX
  {
  }

  /** A size a table can have. */
  ghost predicate IsSize(size: nat) {
    exists n :: size == INITIAL_SIZE * PowerOf2(n)
  }

  /** The smallest size of a table that is not below the request. */
  ghost predicate Smallest(size: nat, request: int) {
    IsSize(size) && request <= size && forall m: nat :: IsSize(m) && request <= m ==> size <= m
  }

  lemma {:induction false} PowersApart(n: nat, m: nat)
    requires n < m
    ensures 2 * PowerOf2(n) <= PowerOf2(m)
  {
    if n + 1 < m { PowersApart(n, m - 1); }
  }

  /** Every size above a size is at least its double. */
  lemma SizesApart(n: nat, size: nat)
    requires IsSize(size) && size > INITIAL_SIZE * PowerOf2(n)
    ensures size >= 2 * INITIAL_SIZE * PowerOf2(n)
  {
    var m: nat :| size == INITIAL_SIZE * PowerOf2(m);
    if m < n { PowersApart(m, n); }
    if n < m { PowersApart(n, m); }
  }

  /** _dictNextPower. */
  method NextPower(size: nat) returns (i: nat)
    requires size < LONG_MAX
    ensures Smallest(i, size) && (i == INITIAL_SIZE || i < 2 * size)
  {
    hide IsSize;
    i := INITIAL_SIZE;
    ghost var n := 0;
    assert INITIAL_SIZE * PowerOf2(0) == INITIAL_SIZE;
    forall m: nat | IsSize(m) ensures i <= m { SizePositive(m); }
    while i < size
      invariant i == INITIAL_SIZE * PowerOf2(n) && (i == INITIAL_SIZE || i < 2 * size)
      invariant forall m: nat :: IsSize(m) && size <= m ==> i <= m
      decreases size - i
    {
      forall m: nat | IsSize(m) && size <= m ensures 2 * i <= m { SizesApart(n, m); }
      i, n := i * 2, n + 1;
    }
    SizeIs(n);
  }

  lemma SmallestIs(n: nat, request: int)
    requires Smallest(n, request)
    ensures IsSize(n) && request <= n
  {
  }

  lemma SmallestInitial(n: nat)
    requires Smallest(n, INITIAL_SIZE)
    ensures n == INITIAL_SIZE
  {
    assert INITIAL_SIZE == INITIAL_SIZE * PowerOf2(0);
    assert IsSize(INITIAL_SIZE);
  }

  lemma SizeIs(n: nat)
    ensures IsSize(INITIAL_SIZE * PowerOf2(n))
  {
  }

  lemma SizePositive(n: nat)
    requires IsSize(n)
    ensures n >= INITIAL_SIZE
  {
  }

  /** How many buckets are not empty. */
  ghost function Filled<T>(c: seq<seq<T>>): nat {
    if c == [] then 0 else Filled(c[..|c| - 1]) + if c[|c| - 1] == [] then 0 else 1
  }

  lemma {:induction false} FilledSkip<T>(c: seq<seq<T>>, a: nat, from: nat, b: nat)
    requires a <= from <= b <= |c| && forall i :: from <= i < b ==> c[i] == []
    ensures Filled(c[a..b]) == Filled(c[a..from])
    decreases b
  {
    if from != b {
      FilledSkip(c, a, from, b - 1);
      assert c[a..b][..b - 1 - a] == c[a..b - 1];
    }
  }

  lemma {:induction false} FilledNext<T>(c: seq<seq<T>>, a: nat, from: nat, b: nat)
    requires a <= from <= b < |c| && (forall i :: from <= i < b ==> c[i] == []) && c[b] != []
    ensures Filled(c[a..b + 1]) == Filled(c[a..from]) + 1
  {
    FilledSkip(c, a, from, b);
    assert c[a..b + 1][..b - a] == c[a..b];
  }

  /** Every chain of c is the end of the chain of the same bucket in d. */
  ghost predicate Extended<T>(c: seq<seq<seq<T>>>, d: seq<seq<seq<T>>>) {
    && |c| == |d| == 2
    && (forall t :: 0 <= t < 2 ==> c[t] == [] || |c[t]| == |d[t]|)
    && (forall t, i :: 0 <= t < 2 && 0 <= i < |c[t]| ==> EndOf(c[t][i], d[t][i]))
  }

  ghost predicate EndOf<T>(s: seq<T>, t: seq<T>) {
    |s| <= |t| && s == t[|t| - |s|..]
  }

  lemma ExtendedSame<T>(c: seq<seq<seq<T>>>)
    requires |c| == 2
    ensures Extended(c, c)
  {
  }

  lemma ExtendedFirst<T>(c: seq<seq<seq<T>>>, n: nat)
    requires |c| == 2 && c[0] == [] && c[1] == []
    ensures Extended(c, [seq(n, _ => []), []])
  {
  }

  lemma ExtendedSecond<T>(c: seq<seq<seq<T>>>, n: nat)
    requires |c| == 2 && c[1] == []
    ensures Extended(c, [c[0], seq(n, _ => [])])
  {
  }

  lemma ExtendedTrans<T>(c: seq<seq<seq<T>>>, d: seq<seq<seq<T>>>, e: seq<seq<seq<T>>>)
    requires Extended(c, d) && Extended(d, e)
    ensures Extended(c, e)
  {
    forall t, i | 0 <= t < 2 && 0 <= i < |c[t]| ensures EndOf(c[t][i], e[t][i]) {
      assert EndOf(c[t][i], d[t][i]) && EndOf(d[t][i], e[t][i]);
    }
  }

  lemma ExtendedPush<T>(c: seq<seq<seq<T>>>, t: nat, i: nat, e: T)
    requires |c| == 2 && t < 2 && i < |c[t]|
    ensures Extended(c, c[t := c[t][i := [e] + c[t][i]]])
  {
  }

  /** Adding to either of two disjoint mappings adds to their union. */
  lemma AddEither<K, V>(m0: map<K, Entry<K, V>>, m1: map<K, Entry<K, V>>, key: K, e: Entry<K, V>)
    requires key !in m0 && key !in m1
    ensures m0[key := e] + m1 == (m0 + m1)[key := e] == m0 + m1[key := e]
  {
  }

  lemma ValsAdd<K, V>(m: map<K, Entry<K, V>>, key: K, e: Entry<K, V>)
    ensures ValsOf(m[key := e]) == ValsOf(m)[key := e.val]
  {
  }

  lemma ValsDrop<K, V>(m: map<K, Entry<K, V>>, key: K)
    ensures ValsOf(m - {key}) == ValsOf(m) - {key}
  {
  }

  lemma Absent<S, T>(m: map<S, T>, key: S)
    requires key !in m
    ensures m - {key} == m
  {
  }

  lemma EitherDrop<K, V>(m: seq<map<K, Entry<K, V>>>, t: nat, key: K)
    requires |m| == 2 && t < 2 && m[0].Keys !! m[1].Keys && key in m[t]
    ensures var n := m[t := m[t] - {key}]; n[0] + n[1] == m[0] + m[1] - {key}
  {
  }

  class Dict<K(==), V> {
    const hash: K -> nat
    var ht: seq<Table<K, V>>
    var rehashidx: int
    var iterators: int
    ghost var cs: seq<seq<seq<Entry<K, V>>>>
    ghost var ms: seq<map<K, Entry<K, V>>>

    /** The entry of every key, from either table. */
    ghost function All(): map<K, Entry<K, V>>
      reads `ms
    {
      if |ms| == 2 then ms[0] + ms[1] else map[]
    }

    ghost function Nodes(): set<Entry<K, V>>
      reads `ms
    {
      All().Values
    }

    /** The map the two tables hold together. */
    ghost function Map(): map<K, V>
      reads `ms, Nodes()
    {
      ValsOf(All())
    }

    ghost predicate Sized()
      reads `ht, `cs, `ms
    {
      && |ht| == |cs| == |ms| == 2
      && (forall t :: 0 <= t < 2 ==> |ht[t].buckets| == |cs[t]| && (ht[t].buckets == [] || IsSize(|ht[t].buckets|)))
    }

    /** The rehashing state: while it runs both tables exist and the buckets below rehashidx are empty. */
    ghost predicate Phase()
      requires Sized()
      reads `ht, `cs, `ms, `rehashidx
    {
      if rehashidx == -1 then ht[1].buckets == [] else
        && 0 <= rehashidx <= |cs[0]| && cs[0] != [] && cs[1] != []
        && forall i :: 0 <= i < rehashidx ==> cs[0][i] == []
    }

    ghost predicate Valid()
      reads `ht, `cs, `ms, `rehashidx, Nodes()
    {
      && Sized() && Phase() && ms[0].Keys !! ms[1].Keys
      && TableOk(hash, ht[0], cs[0], ms[0]) && TableOk(hash, ht[1], cs[1], ms[1])
    }

    /** dictCreate. */
    constructor (hash: K -> nat)
      ensures Valid() && Map() == map[] && Nodes() == {} && rehashidx == -1 && iterators == 0 && this.hash == hash
    {
      this.hash := hash;
      ht := [Table([], 0), Table([], 0)];
      rehashidx, iterators := -1, 0;
      cs, ms := [[], []], [map[], map[]];
    }

    predicate IsRehashing()
      reads `rehashidx
    {
      rehashidx != -1
    }

    lemma Facts()
      requires Valid()
      ensures |ht| == |cs| == |ms| == 2 && Sized() && Phase() && ms[0].Keys !! ms[1].Keys
      ensures TableOk(hash, ht[0], cs[0], ms[0]) && TableOk(hash, ht[1], cs[1], ms[1])
      ensures All().Keys == Map().Keys == ms[0].Keys + ms[1].Keys && ms[0].Values <= Nodes() && ms[1].Values <= Nodes()
    {
    }

    /** In the middle of moving bucket r: its chain starts at de, whatever the bucket says. */
    ghost predicate Moving(r: nat, de: Entry?<K, V>)
      reads this, Nodes()
    {
      && Sized() && r < |cs[0]| && cs[1] != [] && de == Nth(cs[0][r], 0) && ms[0].Keys !! ms[1].Keys
      && TableOk(hash, Table(ht[0].buckets[r := de], ht[0].used), cs[0], ms[0]) && TableOk(hash, ht[1], cs[1], ms[1])
    }

    /** One entry of the bucket moves to the second table. */
    method MoveHead(r: nat, de: Entry<K, V>) returns (nextde: Entry?<K, V>)
      requires Moving(r, de)
      modifies `ht, `cs, `ms, de`next
      ensures Moving(r, nextde) && All() == old(All()) && Map() == old(Map())
      ensures |cs| == |ht| == 2 && cs[0] == old(cs[0][r := RemoveAt(cs[0][r], 0)])
      ensures |ht[0].buckets| == old(|ht[0].buckets|) && |cs[1]| == |old(cs[1])|
    {
      hide TableOk, Linked, IsSize;
      PopHead(hash, Table(ht[0].buckets[r := de], ht[0].used), cs[0], ms[0], r);
      nextde := de.next;
      assert ht[0].buckets[r := de][r := nextde] == ht[0].buckets[r := nextde];
      var h := Slot(hash, |ht[1].buckets|, de.key);
      var t1 := PushHead(hash, ht[1], h, de, cs[1], ms[1]);
      ht := [Table(ht[0].buckets, ht[0].used - 1), t1];
      cs := [cs[0][r := RemoveAt(cs[0][r], 0)], cs[1][h := [de] + cs[1][h]]];
      ms := [ms[0] - {de.key}, ms[1][de.key := de]];
    }

    lemma MovingFacts(r: nat, de: Entry?<K, V>)
      requires Moving(r, de)
      ensures Sized() && r < |cs[0]| && (de == null <==> cs[0][r] == []) && (de != null ==> de in Nodes())
    {
      hide Linked, IsSize;
      if de != null {
        PopHead(hash, Table(ht[0].buckets[r := de], ht[0].used), cs[0], ms[0], r);
      }
    }

    /** Move all the entries of bucket rehashidx. */
    method MoveBucket()
      requires Valid() && IsRehashing() && rehashidx < |cs[0]|
      modifies `ht, `cs, `ms, `rehashidx, Nodes()
      ensures Valid() && rehashidx == old(rehashidx) + 1 && All() == old(All()) && Map() == old(Map())
        && Nodes() == old(Nodes())
      ensures SameSizes(old(cs)) && forall i :: rehashidx <= i < |cs[0]| ==> cs[0][i] == old(cs)[0][i]
    {
      hide All, Map, Moving, Valid, TableOk;
      StartMoving();
      var r: nat := rehashidx;
      var de := ht[0].buckets[r];
      ghost var c0, n1 := cs[0], |cs[1]|;
      while de != null
        invariant Moving(r, de) && All() == old(All()) && Map() == old(Map()) && rehashidx == r
        invariant |cs| == 2 && |cs[0]| == |c0| && |cs[1]| == n1
        invariant forall i :: 0 <= i < |c0| && i != r ==> cs[0][i] == c0[i]
        decreases |cs[0][r]|
      {
        MovingFacts(r, de);
        de := MoveHead(r, de);
      }
      MovingFacts(r, null);
      FinishBucket(r);
    }

    lemma StartMoving()
      requires Valid() && IsRehashing() && rehashidx < |cs[0]|
      ensures Sized() && Phase() && rehashidx >= 0 && Moving(rehashidx, ht[0].buckets[rehashidx])
    {
      hide IsSize;
      assert ht[0].buckets[rehashidx := ht[0].buckets[rehashidx]] == ht[0].buckets;
      ChainAt(hash, ht[0], cs[0], ms[0], rehashidx);
      LinkedHead(ht[0].buckets[rehashidx], cs[0][rehashidx]);
    }

    /** The emptied bucket is cleared. */
    method FinishBucket(r: nat)
      requires Moving(r, null) && rehashidx == r && forall i :: 0 <= i <= r ==> cs[0][i] == []
      modifies `ht, `rehashidx
      ensures Valid() && rehashidx == r + 1 && All() == old(All()) && Map() == old(Map()) && cs == old(cs)
    {
      hide Linked, IsSize, ValsOf, TableOk;
      ht := [Table(ht[0].buckets[r := null], ht[0].used), ht[1]];
      rehashidx := r + 1;
    }

    /** While entries are left in the first table, one of the buckets from rehashidx on is not empty. */
    lemma SomeBucket()
      requires Valid() && IsRehashing() && ht[0].used != 0
      ensures exists i :: rehashidx <= i < |cs[0]| && cs[0][i] != []
    {
      hide Linked, IsSize;
      var key :| key in ms[0];
      KeyAt(hash, ht[0], cs[0], ms[0], key);
      var i := Slot(hash, |cs[0]|, key);
      assert cs[0][i] != [];
    }

    lemma BucketEmpty(i: nat)
      requires Valid() && i < |cs[0]|
      ensures |ht[0].buckets| == |cs[0]| && (ht[0].buckets[i] == null <==> cs[0][i] == [])
    {
      ChainAt(hash, ht[0], cs[0], ms[0], i);
    }

    /** Both tables have as many buckets as before. */
    ghost predicate SameSizes(cs: seq<seq<seq<Entry<K, V>>>>)
      reads `cs
    {
      |cs| == |this.cs| == 2 && |cs[0]| == |this.cs[0]| && |cs[1]| == |this.cs[1]|
    }

    /** The number of buckets that were not empty and have been passed. */
    ghost function MovedBuckets(cs: seq<seq<seq<Entry<K, V>>>>, rehashidx: int): nat
      reads `rehashidx
    {
      if |cs| == 2 && 0 <= rehashidx <= this.rehashidx <= |cs[0]| then Filled(cs[0][rehashidx..this.rehashidx]) else 0
    }

    /** What a step of rehashing achieves: one bucket that is not empty has moved, or the second table has become the
        first. */
    ghost predicate Progressed(cs: seq<seq<seq<Entry<K, V>>>>, rehashidx: int)
      reads `cs, `rehashidx
    {
      if IsRehashing() then SameSizes(cs) && MovedBuckets(cs, rehashidx) == 1
      else |cs| == |this.cs| == 2 && |this.cs[0]| == |cs[1]| && this.cs[1] == []
    }

    /** dictRehash: up to n buckets move, and the tables are exchanged when the first one is empty. */
    method Rehash(n: nat) returns (more: bool)
      requires Valid()
      modifies `ht, `cs, `ms, `rehashidx, Nodes()
      ensures Valid() && All() == old(All()) && Map() == old(Map()) && Nodes() == old(Nodes())
      ensures old(ht[0].buckets) != [] ==> ht[0].buckets != []
      ensures more == IsRehashing() && (IsRehashing() ==> old(IsRehashing()) && rehashidx >= old(rehashidx) + n)
      ensures more ==> MovedBuckets(old(cs), old(rehashidx)) == n
      ensures old(IsRehashing()) && n == 1 ==> Progressed(old(cs), old(rehashidx))
      ensures old(IsRehashing()) && !IsRehashing() ==>
        |cs| == 2 && |old(cs)| == 2 && |cs[0]| == |old(cs)[1]| && cs[1] == []
      ensures !old(IsRehashing()) ==> Still(old(ht), old(cs), old(ms), old(rehashidx))
    {
      hide Valid, All, Map, Nodes, TableOk, Passed, SameSizes, MovedBuckets, Sized, Phase, Linked, IsSize;
      if !IsRehashing() {
        return false;
      }
      ghost var c, r := cs, rehashidx;
      PassedNone();
      var left := n;
      ghost var k := 0;
      while left > 0
        invariant Valid() && IsRehashing() && All() == old(All()) && Map() == old(Map()) && Nodes() == old(Nodes())
        invariant k + left == n && rehashidx >= old(rehashidx) + k && Passed(c, r, k)
      {
        left := left - 1;
        Facts();
        if ht[0].used == 0 {
          PassedSizes(c, r, k);
          Exchange();
          return false;
        }
        MoveNext(c, r, k);
        k := k + 1;
      }
      Facts();
      PassedSizes(c, r, k);
      return true;
    }

    /** From r on, k buckets of c that were not empty have moved, and those from rehashidx on are as they were. */
    ghost predicate Passed(c: seq<seq<seq<Entry<K, V>>>>, r: int, k: int)
      reads `cs, `rehashidx
    {
      && SameSizes(c) && 0 <= r <= rehashidx <= |c[0]| && Filled(c[0][r..rehashidx]) == k
      && forall i :: rehashidx <= i < |c[0]| ==> cs[0][i] == c[0][i]
    }

    lemma PassedNone()
      requires Valid() && IsRehashing()
      ensures Passed(cs, rehashidx, 0)
    {
      hide Valid, TableOk, IsSize;
      Facts();
      assert cs[0][rehashidx..rehashidx] == [];
    }

    lemma PassedSizes(c: seq<seq<seq<Entry<K, V>>>>, r: int, k: int)
      requires Passed(c, r, k)
      ensures SameSizes(c) && |c| == |cs| == 2 && |c[1]| == |cs[1]| && MovedBuckets(c, r) == k
    {
    }

    /** One turn of dictRehash: the next bucket that is not empty moves. */
    method MoveNext(ghost c: seq<seq<seq<Entry<K, V>>>>, ghost r: int, ghost k: int)
      requires Valid() && IsRehashing() && ht[0].used != 0 && Passed(c, r, k)
      modifies `ht, `cs, `ms, `rehashidx, Nodes()
      ensures Valid() && IsRehashing() && All() == old(All()) && Map() == old(Map()) && Nodes() == old(Nodes())
      ensures rehashidx > old(rehashidx) && Passed(c, r, k + 1)
    {
      hide Valid, All, Map, Nodes, TableOk, Passed, Sized, Phase, Linked, IsSize, Filled;
      Facts();
      PassedParts(c, r, k);
      ghost var from, d := rehashidx, cs;
      SkipEmpty();
      ghost var q := rehashidx + 1;
      PassedOne(c, r, k, from, q);
      MoveBucket();
      PassedIntro(c, d, r, k + 1, q);
    }

    lemma PassedParts(c: seq<seq<seq<Entry<K, V>>>>, r: int, k: int)
      requires Passed(c, r, k)
      ensures |cs| == |c| == 2 && |cs[0]| == |c[0]| && |cs[1]| == |c[1]|
      ensures 0 <= r <= rehashidx <= |c[0]| && Filled(c[0][r..rehashidx]) == k
      ensures forall i :: rehashidx <= i < |c[0]| ==> cs[0][i] == c[0][i]
    {
    }

    lemma PassedIntro(c: seq<seq<seq<Entry<K, V>>>>, d: seq<seq<seq<Entry<K, V>>>>, r: int, k: int, q: int)
      requires SameSizes(d) && |c| == 2 && |c[0]| == |d[0]| && |c[1]| == |d[1]|
      requires 0 <= r <= rehashidx == q <= |c[0]|
      requires forall i :: rehashidx <= i < |c[0]| ==> d[0][i] == c[0][i] && cs[0][i] == d[0][i]
      requires Filled(c[0][r..q]) == k
      ensures Passed(c, r, k)
    {
    }

    /** The next bucket that is not empty is found. */
    lemma PassedOne(c: seq<seq<seq<Entry<K, V>>>>, r: int, k: int, from: int, q: int)
      requires |cs| == |c| == 2 && |cs[0]| == |c[0]| && 0 <= r <= from <= rehashidx < q == rehashidx + 1 <= |c[0]|
      requires Filled(c[0][r..from]) == k
      requires forall i :: from <= i < |c[0]| ==> cs[0][i] == c[0][i]
      requires (forall i :: from <= i < rehashidx ==> cs[0][i] == []) && cs[0][rehashidx] != []
      ensures Filled(c[0][r..q]) == k + 1
    {
      hide Filled;
      FilledNext(c[0], r, from, rehashidx);
    }

    /** The scan for the next bucket that is not empty stays inside the table. */
    method SkipEmpty()
      requires Valid() && IsRehashing() && ht[0].used != 0
      modifies `rehashidx
      ensures Valid() && old(rehashidx) <= rehashidx < |cs[0]| && ht[0].buckets[rehashidx] != null
      ensures All() == old(All()) && Map() == old(Map()) && Nodes() == old(Nodes())
      ensures (forall i :: old(rehashidx) <= i < rehashidx ==> cs[0][i] == []) && cs[0][rehashidx] != []
    {
      hide TableOk, IsSize;
      SomeBucket();
      ghost var i :| rehashidx <= i < |cs[0]| && cs[0][i] != [];
      BucketEmpty(i);
      while ht[0].buckets[rehashidx] == null
        invariant Valid() && old(rehashidx) <= rehashidx <= i < |cs[0]| && cs[0][i] != []
        invariant forall k :: old(rehashidx) <= k < rehashidx ==> cs[0][k] == []
        decreases i - rehashidx
      {
        BucketEmpty(rehashidx);
        rehashidx := rehashidx + 1;
      }
      BucketEmpty(rehashidx);
    }

    /** The end of the rehashing: the second table becomes the first. */
    method Exchange()
      requires Valid() && IsRehashing() && ht[0].used == 0
      modifies `ht, `cs, `ms, `rehashidx
      ensures Valid() && !IsRehashing() && All() == old(All()) && Map() == old(Map()) && Nodes() == old(Nodes())
      ensures ht[0].buckets != [] && cs == [old(cs[1]), []]
    {
      hide TableOk, IsSize, ValsOf;
      UsedNone(hash, ht[0], cs[0], ms[0]);
      EmptyOk<K, V>(hash);
      ht, rehashidx := [ht[1], Table([], 0)], -1;
      cs, ms := [cs[1], []], [ms[1], map[]];
      assert All() == old(All());
    }

    method RealSize(size: nat) returns (i: nat)
      requires Valid() && size < LONG_MAX
      ensures Smallest(i, size) && Valid() && All() == old(All()) && Map() == old(Map())
    {
      hide Valid, TableOk, IsSize, ValsOf, All, Nodes;
      Facts();
      ghost var m := All();
      i := NextPower(size);
      assert ValsOf(m) == old(ValsOf(m));
      ValidIntro();
    }

    /** dictExpand: the first table is created, or a second one to which the rehashing starts. */
    method Expand(size: nat) returns (ok: bool, ghost n: nat)
      requires Valid() && size < LONG_MAX
      modifies `ht, `cs, `rehashidx
      ensures Valid() && All() == old(All()) && Map() == old(Map()) && Nodes() == old(Nodes())
      ensures ok <==> !old(IsRehashing()) && old(ht[0].used) <= size
      ensures !ok ==> ht == old(ht) && cs == old(cs) && rehashidx == old(rehashidx)
      ensures ok ==> ht[0].buckets != [] && Extended(old(cs), cs)
      ensures ok && old(ht[0].buckets) == [] ==> !IsRehashing() && cs == [seq(n, _ => []), []]
      ensures ok && old(ht[0].buckets) != [] ==> rehashidx == 0 && cs == [old(cs[0]), seq(n, _ => [])]
      ensures ok ==> Smallest(n, size) && ms == old(ms)
      ensures ok && old(ht[0].buckets) != [] ==> Growing(old(cs), size)
    {
      hide Valid, TableOk, IsSize, All, Map, Extended, Smallest;
      n := 0;
      var realsize := RealSize(size);
      Facts();
      if IsRehashing() || ht[0].used > size {
        return false, n;
      }
      n := realsize;
      SmallestIs(n, size);
      SizePositive(n);
      if ht[0].buckets == [] {
        ExtendedFirst(cs, n);
        FirstTable(realsize);
      } else {
        ExtendedSecond(cs, n);
        SecondTable(realsize);
      }
      Facts();
      return true, n;
    }

    method FirstTable(n: nat)
      requires Valid() && !IsRehashing() && ht[0].buckets == [] && IsSize(n)
      modifies `ht, `cs
      ensures Valid() && ms == old(ms) && cs == [seq(n, _ => []), []]
      ensures All() == old(All()) && Map() == old(Map()) && Nodes() == old(Nodes())
    {
      hide TableOk, IsSize, Map;
      NoBuckets(hash, ht[0], cs[0], ms[0]);
      FreshOk<K, V>(hash, n);
      ht, cs := [Table(seq(n, _ => null), 0), ht[1]], [seq(n, _ => []), cs[1]];
      assert All() == old(All()) && Nodes() == old(Nodes());
    }

    method SecondTable(n: nat)
      requires Valid() && !IsRehashing() && ht[0].buckets != [] && IsSize(n) && n > 0
      modifies `ht, `cs, `rehashidx
      ensures Valid() && ms == old(ms) && cs == [old(cs[0]), seq(n, _ => [])] && rehashidx == 0
      ensures All() == old(All()) && Map() == old(Map()) && Nodes() == old(Nodes())
    {
      hide TableOk, IsSize, Map;
      NoBuckets(hash, ht[1], cs[1], ms[1]);
      FreshOk<K, V>(hash, n);
      ht, cs := [ht[0], Table(seq(n, _ => null), 0)], [cs[0], seq(n, _ => [])];
      rehashidx := 0;
      assert All() == old(All()) && Nodes() == old(Nodes());
    }

    lemma ValidIntro()
      requires Sized() && Phase() && ms[0].Keys !! ms[1].Keys
      requires TableOk(hash, ht[0], cs[0], ms[0]) && TableOk(hash, ht[1], cs[1], ms[1])
      ensures Valid()
    {
    }

    /** The chain walk of a lookup in one table. */
    method Search(t: nat, key: K) returns (he: Entry?<K, V>)
      requires Valid() && t < 2 && ht[t].buckets != []
      ensures he == null <==> key !in ms[t]
      ensures he != null ==> he == ms[t][key] && he.key == key
      ensures Valid() && All() == old(All()) && Map() == old(Map())
    {
      hide Valid, TableOk, Linked, IsSize, ValsOf, All;
      Facts();
      ghost var m := All();
      var idx := Slot(hash, |ht[t].buckets|, key);
      ChainAt(hash, ht[t], cs[t], ms[t], idx);
      if key in ms[t] {
        KeyAt(hash, ht[t], cs[t], ms[t], key);
      }
      he := WalkChain(ht[t].buckets[idx], key, cs[t][idx]);
      assert ValsOf(m) == old(ValsOf(m));
      ValidIntro();
    }

    /** _dictRehashStep: rehashing rests while safe iterators run. */
    method RehashStep()
      requires Valid()
      modifies `ht, `cs, `ms, `rehashidx, Nodes()
      ensures Valid() && All() == old(All()) && Map() == old(Map()) && Nodes() == old(Nodes())
      ensures iterators != 0 ==> Still(old(ht), old(cs), old(ms), old(rehashidx))
      ensures iterators == 0 && old(IsRehashing()) ==> Progressed(old(cs), old(rehashidx))
      ensures !old(IsRehashing()) ==> Still(old(ht), old(cs), old(ms), old(rehashidx))
      ensures old(ht[0].buckets) != [] ==> ht[0].buckets != []
    {
      hide Valid, TableOk, All, Map, Nodes;
      if iterators == 0 {
        var more := Rehash(1);
      }
    }

    /** The tables are as they were. */
    ghost predicate Still(ht: seq<Table<K, V>>, cs: seq<seq<seq<Entry<K, V>>>>, ms: seq<map<K, Entry<K, V>>>,
        rehashidx: int)
      reads this
    {
      this.ht == ht && this.cs == cs && this.ms == ms && this.rehashidx == rehashidx
    }

    /** A first table of the initial size, and no other. */
    ghost predicate FirstOnly()
      reads `cs, `rehashidx
    {
      !IsRehashing() && cs == [seq(INITIAL_SIZE, _ => []), []]
    }

    /** Rehashing is about to start, to an empty table of the smallest size that is not below the request. */
    ghost predicate Growing(cs: seq<seq<seq<Entry<K, V>>>>, request: int)
      reads `cs, `rehashidx
    {
      && rehashidx == 0 && |cs| == |this.cs| == 2 && this.cs[0] == cs[0]
      && Smallest(|this.cs[1]|, request) && this.cs[1] == seq(|this.cs[1]|, _ => [])
    }

    /** The first table is full and may grow, or is overdue to. */
    ghost predicate Crowded(table: Table<K, V>, canResize: bool) {
      var size, used := |table.buckets|, table.used;
      size > 0 && used >= size && (canResize || Ratio(used, size) > FORCE_RESIZE_RATIO)
    }

    /** _dictExpandIfNeeded: a first table, or one of twice the size when every bucket has an entry on average. */
    method ExpandIfNeeded(canResize: bool)
      requires Valid() && |All()| < LONG_MAX / 2
      modifies `ht, `cs, `rehashidx
      ensures Valid() && All() == old(All()) && Map() == old(Map()) && Nodes() == old(Nodes())
      ensures ht[0].buckets != [] && Extended(old(cs), cs) && (old(IsRehashing()) ==> IsRehashing()) && ms == old(ms)
      ensures !old(IsRehashing()) && old(ht[0].buckets) == [] ==> FirstOnly()
      ensures !old(IsRehashing()) && Crowded(old(ht[0]), canResize) ==>
        Growing(old(cs), 2 * Larger(|old(ht[0]).buckets|, old(ht[0]).used))
      ensures old(IsRehashing()) || (old(ht[0].buckets) != [] && !Crowded(old(ht[0]), canResize)) ==>
        Still(old(ht), old(cs), old(ms), old(rehashidx))
    {
      hide Valid, TableOk, All, Map, Nodes, Extended, IsSize, Smallest, Ratio, Growing;
      Facts();
      Fill();
      ExtendedSame(cs);
      if IsRehashing() {
        return;
      }
      if ht[0].buckets == [] {
        NoBuckets(hash, ht[0], cs[0], ms[0]);
        var ok, n := Expand(INITIAL_SIZE);
        SmallestInitial(n);
      } else if ht[0].used >= |ht[0].buckets|
        && (canResize || Ratio(ht[0].used, |ht[0].buckets|) > FORCE_RESIZE_RATIO) {
        Double();
      }
    }

    /** The full first table gets one of twice its size or twice its number of entries. */
    method Double()
      requires Valid() && |All()| < LONG_MAX / 2 && !IsRehashing() && ht[0].buckets != []
      requires ht[0].used >= |ht[0].buckets|
      modifies `ht, `cs, `rehashidx
      ensures Valid() && All() == old(All()) && Map() == old(Map()) && Nodes() == old(Nodes())
      ensures |ht| == 2 && ht[0].buckets != [] && Extended(old(cs), cs) && ms == old(ms)
      ensures Growing(old(cs), 2 * Larger(|old(ht[0]).buckets|, old(ht[0]).used))
    {
      hide *;
      FirstHoldsAll();
      Doubles(|ht[0].buckets|, ht[0].used);
      var ok, n := Expand(Larger(|ht[0].buckets|, ht[0].used) * 2);
      Facts();
    }

    /** The fields used count the entries. */
    lemma Counts()
      requires Valid()
      ensures ht[0].used == |ms[0]| && ht[1].used == |ms[1]| && ht[0].used + ht[1].used == |All()|
    {
      hide Placed, Threaded, IsSize;
      assert All().Keys == ms[0].Keys + ms[1].Keys;
      assert |ms[0].Keys + ms[1].Keys| == |ms[0].Keys| + |ms[1].Keys|;
    }

    /** The tables before a new entry, when no rehashing ran: sizes, and whether a rehashing runs now. */
    ghost predicate Grown(table: Table<K, V>, canResize: bool)
      reads `cs, `rehashidx
    {
      |cs| == 2 && var n := |table.buckets|;
      if n == 0 then !IsRehashing() && |cs[0]| == INITIAL_SIZE
      else if Crowded(table, canResize) then
        rehashidx == 0 && |cs[0]| == n && Smallest(|cs[1]|, 2 * Larger(n, table.used))
      else !IsRehashing() && |cs[0]| == n
    }

    lemma GrownIntro(table: Table<K, V>, cs0: seq<seq<seq<Entry<K, V>>>>, canResize: bool)
      requires |cs0| == |cs| == 2 && |table.buckets| == |cs0[0]|
      requires table.buckets == [] ==> FirstOnly()
      requires Crowded(table, canResize) ==> Growing(cs0, 2 * Larger(|table.buckets|, table.used))
      requires table.buckets != [] && !Crowded(table, canResize) ==> cs == cs0 && !IsRehashing()
      ensures Grown(table, canResize)
    {
      hide Smallest;
    }

    /** _dictKeyIndex: the bucket for a new entry, or -1 when the key is there. */
    method KeyIndex(key: K, canResize: bool) returns (index: int)
      requires Valid() && |All()| < LONG_MAX / 2
      modifies `ht, `cs, `rehashidx
      ensures Valid() && All() == old(All()) && Map() == old(Map()) && Nodes() == old(Nodes())
      ensures Extended(old(cs), cs) && (index == -1 <==> key in Map()) && (old(IsRehashing()) ==> IsRehashing())
      ensures index != -1 ==> var t := if IsRehashing() then 1 else 0;
        ht[t].buckets != [] && index == Slot(hash, |ht[t].buckets|, key)
      ensures if old(IsRehashing()) then Still(old(ht), old(cs), old(ms), old(rehashidx))
        else Grown(old(ht[0]), canResize)
    {
      hide Valid, TableOk, All, Map, Nodes, Extended, FirstOnly, Growing, Crowded, Grown;
      Facts();
      ExpandIfNeeded(canResize);
      Facts();
      if !old(IsRehashing()) { GrownIntro(old(ht[0]), old(cs), canResize); }
      Where(key);
      var he := Search(0, key);
      if he != null {
        return -1;
      }
      if !IsRehashing() {
        return Slot(hash, |ht[0].buckets|, key);
      }
      he := Search(1, key);
      return if he != null then -1 else Slot(hash, |ht[1].buckets|, key);
    }

    /** Either one more bucket has moved, or the second table has become the first. */
    ghost predicate Advanced(cs: seq<seq<seq<Entry<K, V>>>>, rehashidx: int)
      reads `cs, `rehashidx
    {
      |cs| == |this.cs| == 2 && ((SameSizes(cs) && MovedBuckets(cs, rehashidx) == 1) || |this.cs[0]| == |cs[1]|)
    }

    /** dictAdd. */
    method Add(key: K, val: V, canResize: bool) returns (ok: bool)
      requires Valid() && |All()| < LONG_MAX / 2
      modifies `ht, `cs, `ms, `rehashidx, Nodes()
      ensures Valid() && (ok <==> key !in old(Map()))
      ensures ok ==>
        key in All() && fresh(All()[key]) && All() == old(All())[key := All()[key]] && Map() == old(Map())[key := val]
      ensures !ok ==> All() == old(All()) && Map() == old(Map()) && Nodes() == old(Nodes())
      ensures iterators != 0 ==> Extended(old(cs), cs) && (old(IsRehashing()) ==> IsRehashing())
      ensures |ms| == 2 && (ok ==> key in ms[Target()])
      ensures !old(IsRehashing()) ==> Grown(old(ht[0]), canResize)
      ensures old(IsRehashing()) ==>
        if iterators == 0 then Advanced(old(cs), old(rehashidx)) else SameSizes(old(cs)) && rehashidx == old(rehashidx)
    {
      hide Valid, TableOk, All, Map, Nodes, Extended, IsSize, Smallest, Crowded, MovedBuckets, Filled;
      ghost var c := cs;
      var index := IndexForNew(key, canResize);
      Facts();
      if index == -1 {
        return false;
      }
      ghost var c1 := cs;
      AddAt(index, key, val);
      if iterators != 0 { ExtendedTrans(c, c1, cs); }
      return true;
    }

    /** The part of dictAdd before the entry is made. */
    method IndexForNew(key: K, canResize: bool) returns (index: int)
      requires Valid() && |All()| < LONG_MAX / 2
      modifies `ht, `cs, `ms, `rehashidx, Nodes()
      ensures Valid() && All() == old(All()) && Map() == old(Map()) && Nodes() == old(Nodes())
      ensures index == -1 <==> key in Map()
      ensures index != -1 ==> ht[Target()].buckets != [] && index == Slot(hash, |ht[Target()].buckets|, key)
      ensures iterators != 0 ==> Extended(old(cs), cs) && (old(IsRehashing()) ==> IsRehashing())
      ensures !old(IsRehashing()) ==> Grown(old(ht[0]), canResize)
      ensures old(IsRehashing()) ==>
        if iterators == 0 then Advanced(old(cs), old(rehashidx)) else SameSizes(old(cs)) && rehashidx == old(rehashidx)
    {
      hide Valid, TableOk, All, Map, Nodes, Extended, IsSize, Smallest, Crowded, MovedBuckets, Filled;
      Facts();
      if IsRehashing() {
        RehashStep();
        Facts();
      }
      index := KeyIndex(key, canResize);
    }

    method AddAt(index: nat, key: K, val: V)
      requires Valid() && key !in Map()
      requires ht[Target()].buckets != [] && index == Slot(hash, |ht[Target()].buckets|, key)
      modifies `ht, `cs, `ms
      ensures Valid() && key in All() && fresh(All()[key]) && Extended(old(cs), cs)
      ensures SameSizes(old(cs)) && |ms| == 2 && key in ms[Target()]
      ensures All() == old(All())[key := All()[key]] && Map() == old(Map())[key := val]
    {
      hide Valid, TableOk, All, Map, Nodes, Extended, IsSize;
      var entry := NewEntry(key, val);
      Facts();
      KeysOfAll();
      Place(entry, index);
    }

    lemma OwnKeys()
      requires Valid()
      ensures forall k :: k in All() ==> All()[k].key == k
    {
      hide Threaded, IsSize;
    }

    lemma KeysOfAll()
      ensures Map().Keys == All().Keys && Nodes() == All().Values
    {
    }

    method NewEntry(key: K, val: V) returns (entry: Entry<K, V>)
      requires Valid()
      ensures fresh(entry) && entry !in Nodes() && entry.key == key && entry.val == val
      ensures Valid() && All() == old(All()) && Map() == old(Map()) && Nodes() == old(Nodes())
    {
      hide Valid, TableOk, IsSize, ValsOf, All;
      Facts();
      ghost var m := All();
      entry := new Entry(key, val);
      assert ValsOf(m) == old(ValsOf(m));
      ValidIntro();
    }

    /** The new entry becomes the head of its bucket in the table that takes new entries. */
    method Place(e: Entry<K, V>, index: nat)
      requires Valid() && e.key !in All() && e !in Nodes()
      requires Sized() && var t := Target(); ht[t].buckets != [] && index == Slot(hash, |ht[t].buckets|, e.key)
      modifies `ht, `cs, `ms, e`next
      ensures Valid() && All() == old(All())[e.key := e] && Map() == old(Map())[e.key := e.val]
      ensures Extended(old(cs), cs) && SameSizes(old(cs)) && |ms| == 2 && e.key in ms[Target()]
    {
      hide Valid, TableOk, Extended, IsSize, All, Map, ValsOf;
      Facts();
      Unfold();
      ghost var a, c := All(), cs;
      AddEither(ms[0], ms[1], e.key, e);
      ExtendedPush(c, Target(), index, e);
      if IsRehashing() {
        PlaceSecond(e, index);
        assert cs == c[1 := c[1][index := [e] + c[1][index]]];
      } else {
        PlaceFirst(e, index);
        assert cs == c[0 := c[0][index := [e] + c[0][index]]];
      }
      Unfold();
      ValsAdd(a, e.key, e);
    }

    ghost function Target(): (t: nat)
      reads this
      ensures t < 2
    {
      if IsRehashing() then 1 else 0
    }

    method PlaceFirst(e: Entry<K, V>, index: nat)
      requires Valid() && e.key !in All() && e !in Nodes() && !IsRehashing()
      requires Sized() && ht[0].buckets != [] && index == Slot(hash, |ht[0].buckets|, e.key)
      modifies `ht, `cs, `ms, e`next
      ensures Valid() && |ms| == 2 && ms == [old(ms[0])[e.key := e], old(ms[1])]
      ensures cs == [old(cs[0][index := [e] + cs[0][index]]), old(cs[1])]
      ensures ValsOf(old(All())) == old(Map())
    {
      hide TableOk, IsSize, ValsOf;
      var table := PushHead(hash, ht[0], index, e, cs[0], ms[0]);
      ht := [table, ht[1]];
      cs := [cs[0][index := [e] + cs[0][index]], cs[1]];
      ms := [ms[0][e.key := e], ms[1]];
    }

    method PlaceSecond(e: Entry<K, V>, index: nat)
      requires Valid() && e.key !in All() && e !in Nodes() && IsRehashing()
      requires Sized() && ht[1].buckets != [] && index == Slot(hash, |ht[1].buckets|, e.key)
      modifies `ht, `cs, `ms, e`next
      ensures Valid() && |ms| == 2 && ms == [old(ms[0]), old(ms[1])[e.key := e]]
      ensures cs == [old(cs[0]), old(cs[1][index := [e] + cs[1][index]])]
      ensures ValsOf(old(All())) == old(Map())
    {
      hide TableOk, IsSize, ValsOf;
      var table := PushHead(hash, ht[1], index, e, cs[1], ms[1]);
      ht := [ht[0], table];
      cs := [cs[0], cs[1][index := [e] + cs[1][index]]];
      ms := [ms[0], ms[1][e.key := e]];
    }

    /** dictReplace: true when the key was not there before. */
    method Replace(key: K, val: V, canResize: bool) returns (added: bool)
      requires Valid() && |All()| < LONG_MAX / 2
      modifies `ht, `cs, `ms, `rehashidx, Nodes()
      ensures Valid() && Map() == old(Map())[key := val] && (added <==> key !in old(Map()))
      ensures added ==> key in All() && fresh(All()[key]) && All() == old(All())[key := All()[key]]
      ensures !added ==> All() == old(All())
      ensures iterators != 0 ==> Extended(old(cs), cs) && (old(IsRehashing()) ==> IsRehashing())
      ensures |ms| == 2 && (added ==> key in ms[Target()])
      ensures added && !old(IsRehashing()) ==> Grown(old(ht[0]), canResize)
    {
      hide Valid, TableOk, All, Map, Nodes, Extended, IsSize, Advanced;
      ghost var c := cs;
      added := Add(key, val, canResize);
      if added {
        return;
      }
      ghost var c1 := cs;
      var entry := Find(key);
      KeysOfAll();
      SetVal(entry, val);
      Facts();
    }

    method SetVal(entry: Entry<K, V>, val: V)
      requires Valid() && entry.key in All() && entry == All()[entry.key]
      modifies entry`val
      ensures Valid() && All() == old(All()) && Map() == old(Map())[entry.key := val]
    {
      hide Valid, TableOk, IsSize, ValsOf, All;
      Facts();
      Unfold();
      OwnKeys();
      WriteVal(entry, val, hash, All(), ht[0], cs[0], ms[0], ht[1], cs[1], ms[1]);
      ValidIntro();
    }

    lemma NotInBoth(t: nat, e: Entry<K, V>)
      requires Valid() && t < 2 && e.key in ms[t] && ms[t][e.key] == e
      ensures e !in ms[1 - t].Values
    {
      hide Threaded, IsSize;
      PlacedKeys(hash, cs[1 - t], ms[1 - t]);
    }

    /** An entry is unlinked from a table; the other table is not disturbed. */
    method CutTable(t: nat, i: nat, he: Entry<K, V>, prev: Entry?<K, V>, ghost j: nat) returns (table: Table<K, V>)
      requires Valid() && t < 2 && i < |cs[t]| && j < |cs[t][i]| && he == cs[t][i][j]
      requires prev == if j == 0 then null else cs[t][i][j - 1]
      modifies if prev == null then {} else {prev}
      ensures |table.buckets| == |cs[t]| && he.key in ms[t] && ms[t][he.key] == he
      ensures TableOk(hash, table, cs[t][i := RemoveAt(cs[t][i], j)], ms[t] - {he.key})
      ensures TableOk(hash, ht[1 - t], cs[1 - t], ms[1 - t]) && ValsOf(old(All())) == old(Map())
    {
      hide Valid, TableOk, IsSize, ValsOf, All;
      OneTable(t);
      ghost var c, m, a, c1, m1 := cs[t], ms[t], All(), cs[1 - t], ms[1 - t];
      ChainAt(hash, ht[t], c, m, i);
      if prev != null {
        assert Homed(hash, |c|, m, prev, i);
        NotInBoth(t, prev);
      }
      table := Unlink(hash, ht[t], i, he, prev, a, j, c, m);
    }

    lemma OneTable(t: nat)
      requires Valid() && t < 2
      ensures |ht| == |cs| == |ms| == 2 && TableOk(hash, ht[t], cs[t], ms[t])
        && TableOk(hash, ht[1 - t], cs[1 - t], ms[1 - t])
      ensures |ht[t].buckets| == |cs[t]| && Map() == ValsOf(All()) && ms[t].Keys !! ms[1 - t].Keys
    {
      hide TableOk, IsSize;
    }

    /** A changed table takes its place. */
    method Install(t: nat, table: Table<K, V>, ghost c: seq<seq<Entry<K, V>>>, ghost m: map<K, Entry<K, V>>,
        ghost a: map<K, Entry<K, V>>)
      requires Sized() && Phase() && t < 2 && |table.buckets| == |c| == |cs[t]|
      requires TableOk(hash, table, c, m) && TableOk(hash, ht[1 - t], cs[1 - t], ms[1 - t]) && m.Keys !! ms[1 - t].Keys
      requires t == 0 ==> forall i :: 0 <= i < rehashidx && i < |c| ==> c[i] == []
      modifies `ht, `cs, `ms
      ensures Valid() && ht == old(ht)[t := table] && cs == old(cs)[t := c] && ms == old(ms)[t := m]
        && ValsOf(a) == old(ValsOf(a))
    {
      hide TableOk, IsSize, ValsOf;
      ht, cs, ms := ht[t := table], cs[t := c], ms[t := m];
      if t == 0 {
        assert TableOk(hash, ht[0], cs[0], ms[0]) && TableOk(hash, ht[1], cs[1], ms[1]);
      }
    }

    /** The entry leaves its table. */
    method Cut(t: nat, i: nat, he: Entry<K, V>, prev: Entry?<K, V>, ghost j: nat)
      requires Valid() && t < 2 && i < |cs[t]| && j < |cs[t][i]| && he == cs[t][i][j]
      requires prev == if j == 0 then null else cs[t][i][j - 1]
      modifies `ht, `cs, `ms, if prev == null then {} else {prev}
      ensures Valid() && cs == old(cs[t := cs[t][i := RemoveAt(cs[t][i], j)]])
      ensures he.key in old(ms[t]) && ms == old(ms[t := ms[t] - {he.key}]) && ValsOf(old(All())) == old(Map())
    {
      hide Valid, TableOk, IsSize, ValsOf, All, Map;
      Facts();
      OneTable(t);
      ghost var a, m, c := All(), ms[t], cs[t][i := RemoveAt(cs[t][i], j)];
      var table := CutTable(t, i, he, prev, j);
      Install(t, table, c, m - {he.key}, a);
    }

    lemma MapsDrop(m: seq<map<K, Entry<K, V>>>, t: nat, key: K)
      requires |m| == 2 && t < 2 && m[0].Keys !! m[1].Keys && key in m[t] && ms == m[t := m[t] - {key}]
      ensures All() == m[0] + m[1] - {key} && Map() == ValsOf(m[0] + m[1]) - {key}
    {
      EitherDrop(m, t, key);
      ValsDrop(m[0] + m[1], key);
    }

    lemma EntryAt(t: nat, i: nat, j: nat)
      requires Valid() && t < 2 && i < |cs[t]| && j < |cs[t][i]|
      ensures var e := cs[t][i][j]; e.key in ms[t] && ms[t][e.key] == e && e.key in All() && All()[e.key] == e
    {
      hide Valid, TableOk, Linked;
      OneTable(t);
      ChainAt(hash, ht[t], cs[t], ms[t], i);
      assert Homed(hash, |cs[t]|, ms[t], cs[t][i][j], i);
    }

    /** dictGenericDelete. */
    method Delete(key: K) returns (ok: bool, ghost t: nat, ghost i: nat, ghost j: nat)
      requires Valid()
      modifies `ht, `cs, `ms, `rehashidx, Nodes()
      ensures Valid() && (ok <==> key in old(Map())) && All() == old(All()) - {key} && Map() == old(Map()) - {key}
      ensures iterators != 0 && !ok ==> cs == old(cs)
      ensures iterators != 0 ==> rehashidx == old(rehashidx)
      ensures iterators == 0 && old(IsRehashing()) ==> Progressed(old(cs), old(rehashidx))
      ensures !old(IsRehashing()) ==> !IsRehashing() && SameSizes(old(cs))
      ensures iterators != 0 && ok ==>
        t < 2 && i < |old(cs)[t]| && j < |old(cs)[t][i]| && old(cs)[t][i][j] == old(All())[key]
      ensures iterators != 0 && ok ==> cs == old(cs)[t := old(cs)[t][i := RemoveAt(old(cs)[t][i], j)]]
    {
      hide Valid, TableOk, All, Map, Nodes, IsSize, MovedBuckets, Filled;
      t, i, j := 0, 0, 0;
      Facts();
      if ht[0].buckets == [] {
        NoTable();
        Absent(All(), key);
        Absent(Map(), key);
        return false, t, i, j;
      }
      if IsRehashing() {
        RehashStep();
      }
      ok, t, i, j := DeleteEither(key);
    }

    /** The loop over the two tables. */
    method DeleteEither(key: K) returns (ok: bool, ghost t: nat, ghost i: nat, ghost j: nat)
      requires Valid() && ht[0].buckets != []
      modifies `ht, `cs, `ms, Nodes()
      ensures Valid() && (ok <==> key in old(Map())) && All() == old(All()) - {key} && Map() == old(Map()) - {key}
      ensures SameSizes(old(cs)) && (!ok ==> cs == old(cs))
      ensures ok ==> t < 2 && i < |old(cs)[t]| && j < |old(cs)[t][i]| && old(cs)[t][i][j] == old(All())[key]
      ensures ok ==> cs == old(cs)[t := old(cs)[t][i := RemoveAt(old(cs)[t][i], j)]]
    {
      hide Valid, TableOk, All, Map, Nodes, IsSize, Phase;
      Facts();
      Where(key);
      t := 0;
      ok, i, j := DeleteIn(0, key);
      if !ok && IsRehashing() {
        Rehashes();
        ok, i, j := DeleteIn(1, key);
        t := 1;
      }
      if !ok {
        Absent(All(), key);
        Absent(Map(), key);
      }
    }

    lemma Rehashes()
      requires Valid() && IsRehashing()
      ensures ht[1].buckets != []
    {
      hide TableOk, IsSize;
    }

    /** The search for the key in one table, and its removal. */
    method DeleteIn(t: nat, key: K) returns (ok: bool, ghost i: nat, ghost j: nat)
      requires Valid() && t < 2 && |ht| == 2 && ht[t].buckets != []
      modifies `ht, `cs, `ms, Nodes()
      ensures Valid() && (ok <==> key in old(ms)[t])
        && (ok ==> key in old(All()) && All() == old(All()) - {key} && Map() == old(Map()) - {key})
      ensures !ok ==>
        All() == old(All()) && Map() == old(Map()) && Nodes() == old(Nodes()) && ht == old(ht) && cs == old(cs)
          && ms == old(ms)
      ensures ok ==> i < |old(cs)[t]| && j < |old(cs)[t][i]| && old(cs)[t][i][j] == old(All())[key]
      ensures ok ==> cs == old(cs)[t := old(cs)[t][i := RemoveAt(old(cs)[t][i], j)]]
    {
      hide Valid, TableOk, All, Map, Nodes, IsSize, ValsOf;
      Facts();
      Unfold();
      var he, prev, idx;
      he, prev, idx, j := WalkTo(t, key);
      i, ok := idx, he != null;
      if ok {
        ghost var m := ms;
        EntryAt(t, i, j);
        Cut(t, idx, he, prev, j);
        MapsDrop(m, t, key);
      }
    }

    method WalkTo(t: nat, key: K) returns (he: Entry?<K, V>, prev: Entry?<K, V>, idx: nat, ghost j: nat)
      requires Valid() && t < 2 && |ht| == 2 && ht[t].buckets != []
      ensures he == null <==> key !in ms[t]
      ensures Valid() && All() == old(All()) && Map() == old(Map()) && Nodes() == old(Nodes())
      ensures he != null ==> idx < |cs[t]| && j < |cs[t][idx]| && he == cs[t][idx][j] && he.key == key
      ensures he != null && prev != null ==> prev in Nodes()
      ensures he != null ==> prev == if j == 0 then null else cs[t][idx][j - 1]
    {
      hide TableOk, Linked, IsSize, ValsOf;
      idx := Slot(hash, |ht[t].buckets|, key);
      ChainAt(hash, ht[t], cs[t], ms[t], idx);
      if key in ms[t] {
        KeyAt(hash, ht[t], cs[t], ms[t], key);
      }
      he, prev, j := WalkBefore(ht[t].buckets[idx], key, cs[t][idx]);
      if he != null && prev != null {
        EntryAt(t, idx, j - 1);
      }
    }

    /** Where an entry is kept: its table and its bucket. */
    ghost function Home(e: Entry<K, V>): (int, int)
      reads this
    {
      if |ms| != 2 || |cs| != 2 then (0, 0) else
        var t := if e.key in ms[0] then 0 else 1;
        (t, if cs[t] == [] then 0 else Slot(hash, |cs[t]|, e.key))
    }

    lemma HomeOf(t: nat, i: nat, e: Entry<K, V>)
      requires Valid() && t < 2 && i < |cs[t]| && e in cs[t][i]
      ensures Home(e) == (t, i) && e in Nodes() && All()[e.key] == e
    {
      hide Valid, TableOk, Linked, IsSize;
      Facts();
      OneTable(t);
      ChainAt(hash, ht[t], cs[t], ms[t], i);
      var j :| 0 <= j < |cs[t][i]| && cs[t][i][j] == e;
      assert Homed(hash, |cs[t]|, ms[t], cs[t][i][j], i);
    }

    lemma AtHome(e: Entry<K, V>)
      requires Valid() && e in Nodes()
      ensures |cs| == 2 && 0 <= Home(e).0 < 2 && 0 <= Home(e).1 < |cs[Home(e).0]| && e in cs[Home(e).0][Home(e).1]
      ensures e.key in All() && All()[e.key] == e
    {
      hide Threaded, IsSize;
      var t := if exists k :: k in ms[0] && ms[0][k] == e then 0 else 1;
      var k :| k in ms[t] && ms[t][k] == e;
      KeyAt(hash, ht[t], cs[t], ms[t], k);
    }

    /** A safe iterator starts (1) or is released (-1). */
    method Hold(change: int)
      requires Valid()
      modifies `iterators
      ensures Valid() && iterators == old(iterators) + change && All() == old(All()) && Map() == old(Map())
    {
      hide TableOk, ValsOf;
      iterators := iterators + change;
    }

    /** dictFetchValue. */
    method FetchValue(key: K) returns (val: Option<V>)
      requires Valid()
      modifies `ht, `cs, `ms, `rehashidx, Nodes()
      ensures Valid() && All() == old(All()) && Map() == old(Map())
      ensures iterators == 0 && old(IsRehashing()) ==> Progressed(old(cs), old(rehashidx))
      ensures val == if key in Map() then Some(Map()[key]) else None
    {
      var he := Find(key);
      val := if he != null then Some(he.val) else None;
    }

    /** dictResize: shrink to the number of entries. */
    method Resize(canResize: bool) returns (ok: bool)
      requires Valid() && |All()| < LONG_MAX
      modifies `ht, `cs, `rehashidx
      ensures Valid() && All() == old(All()) && Map() == old(Map()) && Nodes() == old(Nodes())
      ensures ok <==> canResize && !old(IsRehashing())
      ensures ok && old(ht[0].buckets) == [] ==> FirstOnly()
      ensures ok && old(ht[0].buckets) != [] ==> Growing(old(cs), Larger(|All()|, INITIAL_SIZE))
      ensures !ok ==> Still(old(ht), old(cs), old(ms), old(rehashidx))
      ensures Extended(old(cs), cs) && (old(IsRehashing()) ==> IsRehashing())
    {
      hide Valid, TableOk, All, Map, Nodes, Extended, IsSize;
      Facts();
      Counts();
      ExtendedSame(cs);
      if !canResize || IsRehashing() {
        return false;
      }
      FirstHoldsAll();
      ghost var n;
      ok, n := Expand(if ht[0].used < INITIAL_SIZE then INITIAL_SIZE else ht[0].used);
      if |All()| <= INITIAL_SIZE { SmallestInitial(n); }
    }

    /** While no rehashing runs, all entries are in the first table. */
    lemma FirstHoldsAll()
      requires Valid() && !IsRehashing()
      ensures |ht| == 2 && ht[0].used == |All()| && (ht[0].buckets == [] ==> All() == map[])
    {
      hide IsSize;
      NoBuckets(hash, ht[1], cs[1], ms[1]);
      Counts();
      if ht[0].buckets == [] { NoTable(); }
    }

    /** Fewer than MIN_FILL entries for every hundred buckets. */
    ghost predicate Sparse(cs: seq<seq<seq<Entry<K, V>>>>)
      reads `ms
    {
      |cs| == 2 && var size := |cs[0]| + |cs[1]|;
      size > INITIAL_SIZE && |All()| != 0 && Percent(|All()|, size) < MIN_FILL
    }

    /** Not sparse, or about to become smaller. */
    ghost predicate Compact()
      reads `cs, `ms, `rehashidx
    {
      IsRehashing() || !Sparse(cs)
    }

    /** htNeedsResize and dictResize, as the commands that remove something call them: a sparse table shrinks. */
    method ShrinkIfSparse(canResize: bool)
      requires Valid() && |All()| < LONG_MAX
      modifies `ht, `cs, `rehashidx
      ensures Valid() && All() == old(All()) && Map() == old(Map()) && Nodes() == old(Nodes())
      ensures if canResize && !old(IsRehashing()) && Sparse(old(cs))
        then Growing(old(cs), Larger(|All()|, INITIAL_SIZE)) else Still(old(ht), old(cs), old(ms), old(rehashidx))
      ensures canResize ==> Compact()
    {
      hide Valid, TableOk, All, Map, Nodes, Extended, IsSize, Smallest, Compact, FirstOnly, Percent;
      Fill();
      var size, used := |ht[0].buckets| + |ht[1].buckets|, ht[0].used + ht[1].used;
      if size > INITIAL_SIZE && used != 0 && Percent(used, size) < MIN_FILL {
        var ok := Resize(canResize);
      }
      CompactIs();
    }

    /** The sizes and counters that the test looks at. */
    lemma Fill()
      requires Valid()
      ensures |ht| == |cs| == 2 && |ht[0].buckets| == |cs[0]| && |ht[1].buckets| == |cs[1]|
      ensures ht[0].used + ht[1].used == |All()| && (!IsRehashing() ==> |cs[1]| == 0)
    {
      hide Valid, TableOk, All, IsSize;
      Facts();
      Counts();
    }

    lemma CompactIs()
      ensures Compact() <==> IsRehashing() || !Sparse(cs)
    {
      hide Sparse;
    }

    lemma Unfold()
      requires |ms| == 2
      ensures All() == ms[0] + ms[1] && Map() == ValsOf(All())
    {
    }

    /** dictFind. */
    method Find(key: K) returns (he: Entry?<K, V>)
      requires Valid()
      modifies `ht, `cs, `ms, `rehashidx, Nodes()
      ensures Valid() && All() == old(All()) && Map() == old(Map()) && Nodes() == old(Nodes())
      ensures iterators != 0 || !old(IsRehashing()) ==> Still(old(ht), old(cs), old(ms), old(rehashidx))
      ensures iterators == 0 && old(IsRehashing()) ==> Progressed(old(cs), old(rehashidx))
      ensures he == null <==> key !in Map()
      ensures he != null ==> he == All()[key] && he.key == key && he.val == Map()[key]
    {
      hide Valid, TableOk, All, Map, Nodes, Progressed;
      Facts();
      if ht[0].buckets == [] {
        NoTable();
        return null;
      }
      if IsRehashing() {
        RehashStep();
      }
      Facts();
      he := Search(0, key);
      if he == null && IsRehashing() {
        he := Search(1, key);
      }
      Facts();
      Where(key);
    }

    lemma NoTable()
      requires Valid() && ht[0].buckets == []
      ensures Map() == map[] && All() == map[] && !IsRehashing()
    {
      hide IsSize;
      NoBuckets(hash, ht[0], cs[0], ms[0]);
      NoBuckets(hash, ht[1], cs[1], ms[1]);
    }

    lemma Where(key: K)
      requires Valid()
      ensures |ms| == 2 && (key in Map() <==> key in ms[0] || key in ms[1]) && Map().Keys == All().Keys
      ensures key in ms[0] ==> All()[key] == ms[0][key]
      ensures key in ms[1] ==> All()[key] == ms[1][key]
      ensures key in Map() ==> Map()[key] == All()[key].val
      ensures !IsRehashing() ==> key !in ms[1]
    {
      hide IsSize;
      if !IsRehashing() {
        NoBuckets(hash, ht[1], cs[1], ms[1]);
      }
    }
  }

  method WalkChain<K(==), V>(first: Entry?<K, V>, key: K, ghost chain: seq<Entry<K, V>>) returns (he: Entry?<K, V>)
    requires Linked(first, chain)
    ensures he == null ==> forall j :: 0 <= j < |chain| ==> chain[j].key != key
    ensures he != null ==> he in chain && he.key == key
  {
    he := first;
    ghost var j := 0;
    while he != null && he.key != key
      invariant j <= |chain| && he == Nth(chain, j)
      invariant forall i :: 0 <= i < j ==> chain[i].key != key
      decreases |chain| - j
    {
      he, j := he.next, j + 1;
    }
  }
}
