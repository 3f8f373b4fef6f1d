/** Safe iterators over a dictionary (dict.c): what is still ahead of an iterator, and how the operations that may be
    interleaved with the iteration change it. */
module DictIterator {
  import opened Sequences
  import opened DictTable
  import opened Dict

  /** Buckets are visited table by table, in the order of their indices. */
  predicate Behind(at: (int, int), table: int, index: int) {
    at.0 > table || (at.0 == table && at.1 > index)
  }

  /** The entries an iterator has not returned yet: those left in its bucket and those in later buckets. */
  ghost function Ahead<K, V>(d: Dict<K, V>, table: int, index: int, rest: seq<Entry<K, V>>): set<Entry<K, V>>
    reads d
  {
    set e | e in d.Nodes() && (e in rest || Behind(d.Home(e), table, index))
  }

  lemma NextBucket<K, V>(d: Dict<K, V>, table: int, index: int)
    requires d.Valid() && 0 <= table < 2 && -1 <= index && index + 1 < |d.cs[table]|
    ensures Ahead(d, table, index, []) == Ahead(d, table, index + 1, d.cs[table][index + 1])
  {
    hide Dict.Valid, Dict.Home;
    Shape(d);
    var chain := d.cs[table][index + 1];
    forall e | e in d.Nodes()
        ensures Behind(d.Home(e), table, index) <==> e in chain || Behind(d.Home(e), table, index + 1) {
      d.AtHome(e);
      if e in chain {
        d.HomeOf(table, index + 1, e);
      }
    }
  }

  lemma NextTable<K, V>(d: Dict<K, V>, index: int)
    requires d.Valid() && d.IsRehashing() && index + 1 >= |d.cs[0]|
    ensures |d.cs[1]| > 0 && Ahead(d, 0, index, []) == Ahead(d, 1, 0, d.cs[1][0])
  {
    hide Dict.Valid, Dict.Home;
    d.Rehashes();
    Shape(d);
    var chain := d.cs[1][0];
    forall e | e in d.Nodes() ensures Behind(d.Home(e), 0, index) <==> e in chain || Behind(d.Home(e), 1, 0) {
      d.AtHome(e);
      if e in chain {
        d.HomeOf(1, 0, e);
      }
    }
  }

  lemma NothingLeft<K, V>(d: Dict<K, V>, table: int, index: int)
    requires d.Valid() && 0 <= table < 2 && index + 1 >= |d.cs[table]| && (table == 0 ==> !d.IsRehashing())
    ensures Ahead(d, table, index, []) == {}
  {
    hide Dict.Valid, Dict.Home;
    Shape(d);
    forall e | e in d.Nodes() ensures !Behind(d.Home(e), table, index) {
      d.AtHome(e);
    }
  }

  lemma AllAhead<K, V>(d: Dict<K, V>)
    requires d.Valid()
    ensures Ahead(d, 0, -1, []) == d.Nodes()
  {
    forall e | e in d.Nodes() ensures Behind(d.Home(e), 0, -1) {
      d.AtHome(e);
    }
  }

  lemma Shape<K, V>(d: Dict<K, V>)
    requires d.Valid()
    ensures |d.cs| == |d.ht| == 2 && |d.ht[0].buckets| == |d.cs[0]| && |d.ht[1].buckets| == |d.cs[1]|
    ensures !d.IsRehashing() ==> d.cs[1] == []
  {
    hide TableOk;
  }

  lemma WholeChain<K, V>(d: Dict<K, V>, table: int, index: int)
    requires d.Valid() && 0 <= table < 2 && 0 <= index < |d.cs[table]|
    ensures |d.ht[table].buckets| == |d.cs[table]| && d.ht[table].buckets[index] == Nth(d.cs[table][index], 0)
    ensures EndOf(d.cs[table][index], d.cs[table][index])
  {
    hide Dict.Valid, TableOk;
    d.Facts();
    ChainAt(d.hash, d.ht[table], d.cs[table], d.ms[table], index);
  }

  /** The head of the end of a chain. */
  lemma HeadOf<K, V>(d: Dict<K, V>, table: int, index: int, rest: seq<Entry<K, V>>)
    requires d.Valid() && 0 <= table < 2 && 0 <= index < |d.cs[table]| && EndOf(rest, d.cs[table][index]) && rest != []
    ensures rest[0] in d.cs[table][index] && rest[0] !in rest[1..] && EndOf(rest[1..], d.cs[table][index])
    ensures rest[0].next == Nth(rest[1..], 0)
  {
    hide Dict.Valid, TableOk;
    d.Facts();
    var chain := d.cs[table][index];
    var p := |chain| - |rest|;
    assert forall j :: 0 <= j < |rest| ==> rest[j] == chain[p + j];
    ChainAt(d.hash, d.ht[table], d.cs[table], d.ms[table], index);
    assert chain[p].next == Nth(chain, p + 1);
  }

  /** Returning the next entry of the bucket. */
  lemma TakeOne<K, V>(d: Dict<K, V>, table: int, index: int, rest: seq<Entry<K, V>>)
    requires d.Valid() && 0 <= table < 2 && 0 <= index < |d.cs[table]| && EndOf(rest, d.cs[table][index]) && rest != []
    ensures rest[0] in Ahead(d, table, index, rest) && rest[0] in d.Nodes()
    ensures Ahead(d, table, index, rest[1..]) == Ahead(d, table, index, rest) - {rest[0]}
    ensures EndOf(rest[1..], d.cs[table][index]) && rest[0].next == Nth(rest[1..], 0)
  {
    hide Dict.Valid, TableOk, EndOf, Dict.Home, Linked;
    HeadOf(d, table, index, rest);
    d.HomeOf(table, index, rest[0]);
    assert rest == [rest[0]] + rest[1..];
  }

  /** The homes of the entries. */
  ghost function Homes<K, V>(d: Dict<K, V>): map<Entry<K, V>, (int, int)>
    reads d
  {
    map e | e in d.Nodes() :: d.Home(e)
  }

  /** The entries that were in the chains c, by their homes. */
  ghost predicate Housed<K, V>(c: seq<seq<seq<Entry<K, V>>>>, homes: map<Entry<K, V>, (int, int)>) {
    |c| == 2 && forall e :: e in homes ==> At(c, homes[e], e)
  }

  ghost predicate At<K, V>(c: seq<seq<seq<Entry<K, V>>>>, h: (int, int), e: Entry<K, V>) {
    |c| == 2 && 0 <= h.0 < 2 && 0 <= h.1 < |c[h.0]| && e in c[h.0][h.1]
  }

  lemma AllHoused<K, V>(d: Dict<K, V>)
    requires d.Valid()
    ensures Housed(d.cs, Homes(d))
  {
    hide Dict.Valid, Dict.Home;
    Shape(d);
    forall e | e in d.Nodes() ensures At(d.cs, d.Home(e), e) {
      d.AtHome(e);
    }
  }

  /** Entries keep their homes when chains grow at the front. */
  lemma HomesKept<K, V>(d: Dict<K, V>, c: seq<seq<seq<Entry<K, V>>>>, homes: map<Entry<K, V>, (int, int)>)
    requires d.Valid() && Housed(c, homes) && Extended(c, d.cs)
    ensures forall e :: e in homes ==> e in d.Nodes() && d.Home(e) == homes[e]
  {
    hide Dict.Valid, Dict.Home, Dict.Nodes;
    forall e | e in homes ensures e in d.Nodes() && d.Home(e) == homes[e] {
      var h := homes[e];
      assert At(c, h, e) && EndOf(c[h.0][h.1], d.cs[h.0][h.1]);
      d.HomeOf(h.0, h.1, e);
    }
  }

  /** Growing chains leave what is ahead ahead. */
  lemma AheadGrown<K, V>(d: Dict<K, V>, homes: map<Entry<K, V>, (int, int)>, table: int, index: int,
      rest: seq<Entry<K, V>>, left: set<Entry<K, V>>)
    requires forall e :: e in homes ==> e in d.Nodes() && d.Home(e) == homes[e]
    requires left == set e | e in homes && (e in rest || Behind(homes[e], table, index))
    ensures forall e :: e in homes ==> (e in Ahead(d, table, index, rest) <==> e in left)
    ensures left <= Ahead(d, table, index, rest)
    ensures forall e :: e in Ahead(d, table, index, rest) && e !in left ==> e !in homes && e in d.Nodes()
  {
    hide Dict.Home, Dict.Nodes;
  }

  lemma RestKept<T>(c: seq<seq<seq<T>>>, d: seq<seq<seq<T>>>, t: int, i: int, rest: seq<T>)
    requires Extended(c, d) && 0 <= t < 2 && 0 <= i < |c[t]| && EndOf(rest, c[t][i])
    ensures |d| == 2 && i < |d[t]| && EndOf(rest, d[t][i])
  {
    assert EndOf(c[t][i], d[t][i]);
  }

  /** The chains without one entry. */
  ghost function Without1<T>(c: seq<seq<seq<T>>>, t: nat, i: nat, j: nat): seq<seq<seq<T>>>
    requires |c| == 2 && t < 2 && i < |c[t]| && j < |c[t][i]|
  {
    c[t := c[t][i := RemoveAt(c[t][i], j)]]
  }

  /** The other entries keep their homes when one is removed. */
  lemma HomesCut<K, V>(d: Dict<K, V>, c: seq<seq<seq<Entry<K, V>>>>, homes: map<Entry<K, V>, (int, int)>, t: nat,
      i: nat, j: nat)
    requires d.Valid() && Housed(c, homes) && t < 2 && i < |c[t]| && j < |c[t][i]| && d.cs == Without1(c, t, i, j)
    ensures forall e :: e in homes && e != c[t][i][j] ==> e in d.Nodes() && d.Home(e) == homes[e]
  {
    hide Dict.Valid, Dict.Home, Dict.Nodes;
    forall e | e in homes && e != c[t][i][j] ensures e in d.Nodes() && d.Home(e) == homes[e] {
      var h := homes[e];
      assert At(c, h, e);
      var x :| 0 <= x < |c[h.0][h.1]| && c[h.0][h.1][x] == e;
      if h == (t, i) {
        RemoveIs(c[t][i], j, if x < j then x else x - 1);
      }
      assert e in d.cs[h.0][h.1];
      d.HomeOf(h.0, h.1, e);
    }
  }

  /** What is to come of a chain after a removal. */
  ghost function RestCut<T>(chain: seq<T>, rest: seq<T>, j: nat): seq<T>
    requires |rest| <= |chain| && j < |chain|
  {
    var p := |chain| - |rest|;
    if j < p then rest else RemoveAt(rest, j - p)
  }

  lemma RestCutIs<T>(chain: seq<T>, rest: seq<T>, j: nat)
    requires EndOf(rest, chain) && j < |chain| && Distinct(chain) && (rest != [] ==> chain[j] != rest[0])
    ensures var r := RestCut(chain, rest, j);
      && EndOf(r, RemoveAt(chain, j)) && (forall e :: e in r <==> e in rest && e != chain[j])
      && (r == [] <==> rest == []) && (rest != [] ==> r[0] == rest[0])
  {
    var p := |chain| - |rest|;
    assert forall k :: 0 <= k < |rest| ==> rest[k] == chain[p + k];
    if j < p {
      assert RemoveAt(chain, j)[p - 1..] == rest;
    } else {
      RemoveMembers(rest, j - p);
      assert RemoveAt(chain, j)[p..] == RemoveAt(rest, j - p);
    }
  }

  lemma Before<K, V>(d: Dict<K, V>)
    requires d.Valid()
    ensures Housed(d.cs, Homes(d)) && Homes(d).Keys == d.Nodes() && |d.cs| == |d.ht| == 2
    ensures forall t, i :: 0 <= t < 2 && 0 <= i < |d.cs[t]| ==> Distinct(d.cs[t][i])
    ensures forall k :: k in d.All() ==> d.All()[k].key == k
  {
    AllHoused(d);
    d.OwnKeys();
    forall t, i | 0 <= t < 2 && 0 <= i < |d.cs[t]| ensures Distinct(d.cs[t][i]) {
      d.OneTable(t);
      ChainAt(d.hash, d.ht[t], d.cs[t], d.ms[t], i);
    }
  }

  /** Deleting one entry takes it, and nothing else, from what is to come. */
  lemma After<K, V>(d: Dict<K, V>, c: seq<seq<seq<Entry<K, V>>>>, homes: map<Entry<K, V>, (int, int)>,
      a: map<K, Entry<K, V>>, key: K, t: nat, i: nat, j: nat, r: seq<Entry<K, V>>, rest: seq<Entry<K, V>>,
      table: int, index: int, left: set<Entry<K, V>>)
    requires d.Valid() && Housed(c, homes) && t < 2 && i < |c[t]| && j < |c[t][i]| && d.cs == Without1(c, t, i, j)
    requires key in a && c[t][i][j] == a[key] && d.All() == a - {key} && (forall k :: k in a ==> a[k].key == k)
      && homes.Keys == a.Values
    requires left == set e | e in homes && (e in r || Behind(homes[e], table, index))
    requires forall e :: e in homes && e != a[key] ==> (e in r <==> e in rest)
    ensures Ahead(d, table, index, rest) == left - {a[key]}
  {
    hide Dict.Valid, Dict.Home, Without1;
    HomesCut(d, c, homes, t, i, j);
    assert a[key] !in d.Nodes();
    assert forall e :: e in d.Nodes() ==> e in homes;
  }

  lemma OneMore<S, T>(a: map<S, T>, key: S, e: T)
    ensures |a[key := e]| <= |a| + 1 && a[key := e].Values <= a.Values + {e}
  {
    assert a[key := e].Keys == a.Keys + {key};
  }

  lemma LeftIs<K, V>(d: Dict<K, V>, table: int, index: int, rest: seq<Entry<K, V>>)
    ensures Ahead(d, table, index, rest) == set e | e in Homes(d) && (e in rest || Behind(Homes(d)[e], table, index))
    ensures Homes(d).Keys == d.Nodes()
  {
    hide Dict.Home, Dict.Nodes;
  }

  /** dictIterator, created safe. */
  class DictIterator<K(==), V> {
    const d: Dict<K, V>
    var table: int
    var index: int
    var entry: Entry?<K, V>
    var nextEntry: Entry?<K, V>
    /** The part of the current chain that is still to come. */
    ghost var rest: seq<Entry<K, V>>

    ghost predicate Valid()
      reads this, d, d.Nodes()
    {
      Positioned() && d.iterators >= 0 && (Started() ==> d.iterators > 0)
    }

    ghost predicate Positioned()
      reads this, d, d.Nodes()
    {
      && d.Valid() && |d.cs| == 2 && 0 <= table < 2 && -1 <= index && (table == 1 ==> d.IsRehashing())
      && (entry == null ==> rest == [])
      && (entry != null ==> 0 <= index < |d.cs[table]| && EndOf(rest, d.cs[table][index]) && nextEntry == Nth(rest, 0))
    }

    predicate Started()
      reads `table, `index
    {
      !(index == -1 && table == 0)
    }

    ghost function Left(): set<Entry<K, V>>
      reads this, d
    {
      Ahead(d, table, index, rest)
    }

    /** dictGetSafeIterator. */
    constructor (d: Dict<K, V>)
      requires d.Valid() && d.iterators >= 0
      ensures Valid() && this.d == d && Left() == d.Nodes() && !Started() && entry == null
    {
      hide Ahead, Dict.Valid, EndOf, Dict.All, Nth;
      Shape(d);
      AllAhead(d);
      this.d, table, index, entry, nextEntry, rest := d, 0, -1, null, null, [];
      new;
      assert d.Nodes() == old(d.Nodes());
    }

    /** dictNext; the first call makes the dictionary stop rehashing. */
    method Next() returns (e: Entry?<K, V>)
      requires Valid()
      modifies this, d`iterators
      ensures Valid() && Started() && entry == e && d.All() == old(d.All()) && d.Map() == old(d.Map())
      ensures e != null ==> e in old(Left()) && Left() == old(Left()) - {e} && e in d.Nodes()
      ensures e == null ==> old(Left()) == {} && Left() == {}
      ensures d.iterators == old(d.iterators) + (if old(Started()) then 0 else 1)
    {
      hide Dict.Valid, Dict.Map, EndOf, Ahead, Positioned;
      if !Started() {
        Begin();
      }
      ghost var ns := d.Nodes();
      e := Walk();
      assert d.Nodes() == ns;
    }

    method Begin()
      requires Valid() && !Started()
      modifies d`iterators
      ensures Valid() && d.iterators == old(d.iterators) + 1
      ensures d.All() == old(d.All()) && d.Map() == old(d.Map()) && Left() == old(Left())
    {
      hide Dict.Valid, Dict.All, Dict.Map, EndOf;
      d.Hold(1);
    }

    /** The loop of dictNext. */
    method Walk() returns (e: Entry?<K, V>)
      requires Positioned() && d.iterators > 0
      modifies this
      ensures Positioned() && Started() && entry == e
      ensures e != null ==> e in old(Left()) && Left() == old(Left()) - {e} && e in d.Nodes()
      ensures e == null ==> old(Left()) == {} && Left() == {}
    {
      hide Dict.Valid, EndOf, Ahead;
      Shape(d);
      while true
        invariant Positioned() && Left() == old(Left()) && d.Nodes() == old(d.Nodes())
        decreases 1 - table, |d.cs[table]| - index, if entry == null then 0 else 1
      {
        if entry == null {
          var more := NextChain();
          if !more {
            return null;
          }
        } else {
          entry := nextEntry;
          assert d.Nodes() == old(d.Nodes());
        }
        if entry != null {
          Take();
          return entry;
        }
      }
      return null;
    }

    /** The next bucket, in this table or in the next one. */
    method NextChain() returns (more: bool)
      requires Positioned() && entry == null
      modifies this
      ensures d.Valid() && d.Nodes() == old(d.Nodes()) && Started() && 0 <= table < 2 && |d.cs| == 2
        && (table == 1 ==> d.IsRehashing())
      ensures more ==> 0 <= index < |d.cs[table]| && EndOf(rest, d.cs[table][index]) && entry == Nth(rest, 0)
      ensures more ==> Left() == old(Left()) && (table > old(table) || (table == old(table) && index == old(index) + 1))
      ensures !more ==> Positioned() && entry == null && old(Left()) == {} && Left() == {}
    {
      hide Dict.Valid, EndOf, Ahead;
      Shape(d);
      index := index + 1;
      assert d.Nodes() == old(d.Nodes());
      if index >= |d.ht[table].buckets| {
        if d.IsRehashing() && table == 0 {
          NextTable(d, index - 1);
          table, index := 1, 0;
        } else {
          NothingLeft(d, table, index - 1);
          NothingLeft(d, table, index);
          return false;
        }
      } else {
        NextBucket(d, table, index - 1);
      }
      rest := d.cs[table][index];
      WholeChain(d, table, index);
      entry := d.ht[table].buckets[index];
      return true;
    }

    /** The entry is returned, and the one behind it remembered. */
    method Take()
      requires d.Valid() && |d.cs| == 2 && 0 <= table < 2 && (table == 1 ==> d.IsRehashing()) && entry != null
      requires 0 <= index < |d.cs[table]| && EndOf(rest, d.cs[table][index]) && entry == Nth(rest, 0)
      modifies `nextEntry, `rest
      ensures Positioned() && entry in old(Left()) && Left() == old(Left()) - {entry} && entry in d.Nodes()
    {
      hide Dict.Valid, EndOf, Ahead;
      TakeOne(d, table, index, rest);
      nextEntry := entry.next;
      rest := rest[1..];
    }

    /** dictFind during the iteration. */
    method Find(key: K) returns (he: Entry?<K, V>)
      requires Valid() && Started()
      modifies d`ht, d`cs, d`ms, d`rehashidx, d.Nodes()
      ensures Valid() && Left() == old(Left()) && d.All() == old(d.All()) && d.Map() == old(d.Map())
      ensures (he == null <==> key !in d.Map()) && (he != null ==> he == d.All()[key])
    {
      hide Dict.Valid, Dict.Nodes, Dict.All, Dict.Map, EndOf;
      he := d.Find(key);
    }

    /** dictAdd during the iteration: nothing that is still to come is lost, and only the new entry may join it. */
    method Add(key: K, val: V, canResize: bool) returns (ok: bool)
      requires Valid() && Started() && |d.All()| < LONG_MAX / 2
      modifies d`ht, d`cs, d`ms, d`rehashidx, d.Nodes()
      ensures Valid() && old(Left()) <= Left() && (forall e :: e in Left() && e !in old(Left()) ==> fresh(e))
      ensures (ok <==> key !in old(d.Map())) && d.Map() == if ok then old(d.Map())[key := val] else old(d.Map())
      ensures |d.All()| <= |old(d.All())| + 1 && forall x :: x in d.Nodes() && x !in old(d.Nodes()) ==> fresh(x)
    {
      hide Dict.Valid, Dict.All, Dict.Map, Dict.Home, EndOf, Ahead, Extended;
      ghost var c, homes, left := d.cs, Homes(d), Left();
      AllHoused(d);
      LeftIs(d, table, index, rest);
      ghost var a := d.All();
      ok := d.Add(key, val, canResize);
      if ok {
        OneMore(a, key, d.All()[key]);
      }
      Shape(d);
      if entry != null {
        RestKept(c, d.cs, table, index, rest);
      }
      HomesKept(d, c, homes);
      AheadGrown(d, homes, table, index, rest, left);
    }

    /** dictReplace during the iteration. */
    method Replace(key: K, val: V, canResize: bool) returns (added: bool)
      requires Valid() && Started() && |d.All()| < LONG_MAX / 2
      modifies d`ht, d`cs, d`ms, d`rehashidx, d.Nodes()
      ensures Valid() && old(Left()) <= Left() && (forall e :: e in Left() && e !in old(Left()) ==> fresh(e))
      ensures (added <==> key !in old(d.Map())) && d.Map() == old(d.Map())[key := val]
      ensures |d.All()| <= |old(d.All())| + 1 && forall x :: x in d.Nodes() && x !in old(d.Nodes()) ==> fresh(x)
    {
      hide Dict.Valid, Dict.All, Dict.Map, Dict.Home, EndOf, Ahead, Extended;
      ghost var c, homes, left := d.cs, Homes(d), Left();
      AllHoused(d);
      LeftIs(d, table, index, rest);
      ghost var a := d.All();
      added := d.Replace(key, val, canResize);
      if added {
        OneMore(a, key, d.All()[key]);
      }
      Shape(d);
      if entry != null {
        RestKept(c, d.cs, table, index, rest);
      }
      HomesKept(d, c, homes);
      AheadGrown(d, homes, table, index, rest, left);
    }

    /** dictResize during the iteration. */
    method Resize(canResize: bool) returns (ok: bool)
      requires Valid() && Started() && |d.All()| < LONG_MAX / 2
      modifies d`ht, d`cs, d`rehashidx
      ensures Valid() && Left() == old(Left()) && d.All() == old(d.All()) && d.Map() == old(d.Map())
    {
      hide Dict.Valid, Dict.All, Dict.Map, Dict.Home, EndOf, Ahead, Extended;
      ghost var c, homes, left := d.cs, Homes(d), Left();
      AllHoused(d);
      LeftIs(d, table, index, rest);
      ok := d.Resize(canResize);
      Shape(d);
      if entry != null {
        RestKept(c, d.cs, table, index, rest);
      }
      HomesKept(d, c, homes);
      AheadGrown(d, homes, table, index, rest, left);
      assert homes.Keys == d.Nodes();
    }

    /** dictDelete during the iteration, of any entry but the one remembered as next: only that entry is lost. The
        entry just returned is never the one remembered. */
    method Delete(key: K) returns (ok: bool)
      requires Valid() && Started()
      requires entry != null && key in d.All() ==> d.All()[key] != nextEntry
      modifies `rest, d`ht, d`cs, d`ms, d`rehashidx, d.Nodes()
      ensures Valid() && (ok <==> key in old(d.Map())) && d.Map() == old(d.Map()) - {key}
        && d.All() == old(d.All()) - {key}
      ensures Left() == old(Left()) - (if key in old(d.All()) then {old(d.All())[key]} else {})
    {
      hide Dict.Valid, Dict.Map, Dict.Home, Dict.All, Ahead, Homes, EndOf;
      ghost var c, homes, left, a, r := d.cs, Homes(d), Left(), d.All(), rest;
      Before(d);
      d.KeysOfAll();
      LeftIs(d, table, index, rest);
      ghost var t, i, j;
      ok, t, i, j := d.Delete(key);
      if ok {
        Adjust(c, t, i, j);
        After(d, c, homes, a, key, t, i, j, r, rest, table, index, left);
      } else {
        ExtendedSame(c);
        HomesKept(d, c, homes);
        AheadGrown(d, homes, table, index, rest, left);
      }
    }

    /** What is to come of the current chain after a removal. */
    ghost method Adjust(c: seq<seq<seq<Entry<K, V>>>>, t: nat, i: nat, j: nat)
      requires d.Valid() && |c| == 2 && t < 2 && i < |c[t]| && j < |c[t][i]| && Distinct(c[t][i])
        && d.cs == Without1(c, t, i, j)
      requires 0 <= table < 2 && (entry == null ==> rest == [])
      requires entry != null ==>
        0 <= index < |c[table]| && EndOf(rest, c[table][index]) && nextEntry == Nth(rest, 0) && nextEntry != c[t][i][j]
      modifies `rest
      ensures d.Valid() && d.Nodes() == old(d.Nodes()) && d.Map() == old(d.Map()) && (entry == null ==> rest == [])
      ensures entry != null ==> index < |d.cs[table]| && EndOf(rest, d.cs[table][index]) && nextEntry == Nth(rest, 0)
      ensures forall e :: e != c[t][i][j] ==> (e in rest <==> e in old(rest))
    {
      hide Dict.Valid, Dict.Map, Dict.All, RestCut, Distinct;
      ghost var ns := d.Nodes();
      if entry != null && t == table && i == index {
        RestCutIs(c[t][i], rest, j);
        rest := RestCut(c[t][i], rest, j);
        assert d.Nodes() == ns;
      }
    }

    /** The entry remembered as next is still to come. */
    lemma NextIsLeft()
      requires Valid() && entry != null && nextEntry != null
      ensures nextEntry in Left()
    {
      hide Dict.Valid;
      d.HomeOf(table, index, rest[0]);
    }

    /** One thing a client may do between two calls of dictNext. */
    method Perform(op: ClientOp<K, V>, e: Entry<K, V>)
      requires Valid() && Started() && |d.All()| < LONG_MAX / 2 && e !in Left()
      modifies `rest, d`ht, d`cs, d`ms, d`rehashidx, d.Nodes()
      ensures Valid() && |d.All()| <= old(|d.All()|) + 1 && old(Left()) <= Left()
      ensures forall x :: x in Left() && x !in old(Left()) ==> fresh(x)
      ensures forall x :: x in d.Nodes() && x !in old(d.Nodes()) ==> fresh(x)
      ensures d.Map() == Meaning(op, e, old(d.Map()), old(d.All()))
    {
      hide Dict.Valid, Dict.Map, Ahead, EndOf;
      d.KeysOfAll();
      match op
      case FindOp(key) =>
        var he := Find(key);
      case AddOp(key, val, canResize) =>
        var ok := Add(key, val, canResize);
      case ReplaceOp(key, val, canResize) =>
        var added := Replace(key, val, canResize);
      case ResizeOp(canResize) =>
        var ok := Resize(canResize);
      case DeleteReturned =>
        var he := Find(e.key);
        d.KeysOfAll();
        if he == e {
          DeleteIt(e);
        }
    }

    /** The entry returned last is deleted. */
    method DeleteIt(e: Entry<K, V>)
      requires Valid() && Started() && e.key in d.All() && d.All()[e.key] == e && e !in Left()
      modifies `rest, d`ht, d`cs, d`ms, d`rehashidx, d.Nodes()
      ensures Valid() && Left() == old(Left()) && |d.All()| <= old(|d.All()|) && d.Nodes() <= old(d.Nodes())
      ensures d.Map() == old(d.Map()) - {e.key}
    {
      hide Dict.Valid, Dict.Map, Ahead, EndOf;
      if entry != null && nextEntry != null {
        NextIsLeft();
      }
      ghost var a := d.All();
      var ok := Delete(e.key);
      assert a.Keys - {e.key} == d.All().Keys;
    }

    /** Everything a client does between two calls of dictNext. */
    method PerformAll(ops: seq<ClientOp<K, V>>, e: Entry<K, V>)
      requires Valid() && Started() && |d.All()| + |ops| < LONG_MAX / 2 && e !in Left()
      modifies `rest, d`ht, d`cs, d`ms, d`rehashidx, d.Nodes()
      ensures Valid() && |d.All()| <= old(|d.All()|) + |ops| && old(Left()) <= Left()
      ensures forall x :: x in Left() && x !in old(Left()) ==> fresh(x)
      ensures forall x :: x in d.Nodes() && x !in old(d.Nodes()) ==> fresh(x)
    {
      hide Dict.Valid, Dict.Map, Ahead, EndOf, Positioned, Dict.All;
      for n := 0 to |ops|
        invariant Valid() && |d.All()| <= old(|d.All()|) + n && old(Left()) <= Left()
        invariant forall x :: x in Left() && x !in old(Left()) ==> fresh(x)
        invariant forall x :: x in d.Nodes() && x !in old(d.Nodes()) ==> fresh(x)
      {
        Perform(ops[n], e);
      }
    }

    /** dictReleaseIterator. */
    method Release()
      requires Valid()
      modifies d`iterators
      ensures d.Valid() && d.All() == old(d.All()) && d.Map() == old(d.Map())
      ensures d.iterators == old(d.iterators) - (if Started() then 1 else 0)
    {
      if Started() {
        d.Hold(-1);
      }
    }
  }

  /** What a client may do with the dictionary before it asks for the next entry. */
  datatype ClientOp<K, V> = FindOp(key: K) | AddOp(key: K, val: V, canResize: bool)
    | ReplaceOp(key: K, val: V, canResize: bool) | ResizeOp(canResize: bool) | DeleteReturned

  /** What the dictionary holds after an operation of the client; e is the entry returned last. */
  ghost function Meaning<K, V>(op: ClientOp<K, V>, e: Entry<K, V>, m: map<K, V>, entries: map<K, Entry<K, V>>):
      map<K, V> {
    match op
    case FindOp(_) => m
    case AddOp(key, val, _) => if key in m then m else m[key := val]
    case ReplaceOp(key, val, _) => m[key := val]
    case ResizeOp(_) => m
    case DeleteReturned => if e.key in entries && entries[e.key] == e then m - {e.key} else m
  }

  ghost function OpsIn<K, V>(script: seq<seq<ClientOp<K, V>>>): nat {
    if script == [] then 0 else OpsIn(script[..|script| - 1]) + |script[|script| - 1]|
  }

  lemma {:induction false} OpsPrefix<K, V>(script: seq<seq<ClientOp<K, V>>>, n: nat)
    requires n <= |script|
    ensures OpsIn(script[..n]) <= OpsIn(script)
    ensures n < |script| ==> OpsIn(script[..n]) + |script[n]| == OpsIn(script[..n + 1]) <= OpsIn(script)
    decreases |script|
  {
    if n < |script| {
      var s := script[..|script| - 1];
      OpsPrefix(s, if n < |s| then n else |s|);
      assert script[..n + 1][..n] == script[..n];
      if n < |s| {
        assert s[..n] == script[..n] && s[..n + 1] == script[..n + 1];
      } else {
        assert script[..n + 1] == script && s == script[..n];
      }
    } else {
      assert script[..n] == script;
    }
  }

  /** A complete safe iteration, in which the client runs script[n] after the n-th entry: no entry is returned twice,
      and every entry that was there when it began is returned. */
  method Iterate<K(==), V>(d: Dict<K, V>, script: seq<seq<ClientOp<K, V>>>) returns (returned: seq<Entry<K, V>>)
    requires d.Valid() && d.iterators >= 0 && |d.All()| + OpsIn(script) < LONG_MAX / 2
    modifies d, d.Nodes()
    ensures d.Valid() && Distinct(returned)
    ensures forall e :: e in old(d.Nodes()) ==> e in returned
    ensures forall e :: e in returned ==> e in old(d.Nodes()) || fresh(e)
    ensures d.iterators == old(d.iterators)
  {
    hide Dict.Valid, Dict.Map, Dict.All, Ahead, EndOf;
    hide DictIterator.Valid, DictIterator.Positioned, DictIterator.Started;
    var it := new DictIterator(d);
    returned := [];
    var n := 0;
    OpsPrefix(script, 0);
    while true
      invariant n <= |script| && it.d == d && fresh(it) && it.Valid()
        && |d.All()| <= old(|d.All()|) + OpsIn(script[..n])
      invariant d.iterators == old(d.iterators) + (if it.Started() then 1 else 0)
      invariant Distinct(returned) && forall e :: e in returned ==> e !in it.Left()
      invariant forall e :: e in old(d.Nodes()) ==> e in returned || e in it.Left()
      invariant forall e :: e in returned ==> e in old(d.Nodes()) || fresh(e)
      invariant forall e :: e in d.Nodes() ==> e in old(d.Nodes()) || fresh(e)
      decreases |script| - n, |it.Left()|
    {
      var e := it.Next();
      if e == null {
        break;
      }
      returned := returned + [e];
      if n < |script| {
        OpsPrefix(script, n);
        it.PerformAll(script[n], e);
        n := n + 1;
      }
    }
    it.Release();
  }
}
