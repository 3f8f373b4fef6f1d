/** The sorted-set skiplist (t_zset.c): search, insertion and deletion over nodes with forward pointers,
    spans and back pointers. */
module SkipList {
  import Dict
  import opened Options
  import opened Sequences
  import opened SkipLevels
  import opened SkipNodes

  /** What a node is ordered by: its score, then its object. */
  datatype Key<O> = Key(score: real, obj: O)

  ghost predicate TotalOrder<O(!new)>(cmp: (O, O) -> int) {
    && (forall x, y :: cmp(x, y) == 0 <==> x == y)
    && (forall x, y :: cmp(x, y) < 0 <==> cmp(y, x) > 0)
    && (forall x, y, z :: cmp(x, y) < 0 && cmp(y, z) < 0 ==> cmp(x, z) < 0)
  }

  predicate KeyLess<O>(cmp: (O, O) -> int, a: Key<O>, b: Key<O>) {
    a.score < b.score || (a.score == b.score && cmp(a.obj, b.obj) < 0)
  }

  ghost predicate SortedKeys<O>(cmp: (O, O) -> int, es: seq<Key<O>>) {
    forall i, j :: 0 <= i < j < |es| ==> KeyLess(cmp, es[i], es[j])
  }

  /** The keys of the nodes after the header. */
  ghost function KeysOf<O>(nodes: seq<Node<O>>): (es: seq<Key<O>>)
    requires nodes != [] && forall k :: 1 <= k < |nodes| ==> nodes[k].obj.Some?
    ensures |es| == |nodes| - 1
    ensures forall i :: 0 <= i < |es| ==> es[i] == Key(nodes[i + 1].score, nodes[i + 1].obj.value)
  {
    seq(|nodes| - 1, i requires 0 <= i < |nodes| - 1 => Key(nodes[i + 1].score, nodes[i + 1].obj.value))
  }

  /** A test on 1-based ranks and keys that holds of exactly the first cut elements. */
  ghost predicate Splits<O>(es: seq<Key<O>>, before: (int, Key<O>) -> bool, cut: nat) {
    cut <= |es| && forall i :: 0 <= i < |es| ==> (before(i + 1, es[i]) <==> i < cut)
  }

  /** The loop test of a search: the next node at this level exists and is still before the target. */
  predicate Ahead<O>(before: (int, Key<O>) -> bool, x: Node<O>, rank: nat, lv: nat)
    requires lv < |x.forward| && lv < |x.span| && (x.forward[lv] != null ==> x.forward[lv].obj.Some?)
    reads x
  {
    x.forward[lv] != null && before(rank + x.span[lv], Key(x.forward[lv].score, x.forward[lv].obj.value))
  }

  /** A test that holds of no element behind one it fails on splits every sequence. */
  lemma Cut<O>(es: seq<Key<O>>, before: (int, Key<O>) -> bool) returns (cut: nat)
    requires forall i, j :: 0 <= i < j < |es| && before(j + 1, es[j]) ==> before(i + 1, es[i])
    ensures Splits(es, before, cut)
  {
    cut := 0;
    while cut < |es| && before(cut + 1, es[cut])
      invariant cut <= |es| && forall i :: 0 <= i < cut ==> before(i + 1, es[i])
    {
      cut := cut + 1;
    }
  }

  /** The descent test of zslInsert and zslDelete. */
  function Less<O>(cmp: (O, O) -> int, key: Key<O>): (int, Key<O>) -> bool {
    (rank, k) => KeyLess(cmp, k, key)
  }

  lemma CutLess<O(!new)>(cmp: (O, O) -> int, es: seq<Key<O>>, key: Key<O>) returns (cut: nat)
    requires TotalOrder(cmp) && SortedKeys(cmp, es)
    ensures Splits(es, Less(cmp, key), cut)
  {
    cut := Cut(es, Less(cmp, key));
  }

  /** The new key goes behind the keys that are less. */
  lemma InsertSorted<O(!new)>(cmp: (O, O) -> int, es: seq<Key<O>>, key: Key<O>, cut: nat)
    requires TotalOrder(cmp) && SortedKeys(cmp, es) && Splits(es, Less(cmp, key), cut) && key !in es
    ensures SortedKeys(cmp, InsertAt(es, cut, key))
  {
    forall i | cut <= i < |es| ensures KeyLess(cmp, key, es[i]) {
      assert !Less(cmp, key)(i + 1, es[i]) && es[i] != key;
    }
  }

  lemma KeysInsert<O>(nodes: seq<Node<O>>, cut: nat, x: Node<O>)
    requires cut < |nodes| && x.obj.Some? && forall k :: 1 <= k < |nodes| ==> nodes[k].obj.Some?
    ensures var ns := InsertAt(nodes, cut + 1, x); forall k :: 1 <= k < |ns| ==> ns[k].obj.Some?
    ensures KeysOf(InsertAt(nodes, cut + 1, x)) == InsertAt(KeysOf(nodes), cut, Key(x.score, x.obj.value))
  {
  }

  /** A key that is present is the first one not less than itself. */
  lemma FoundAtCut<O(!new)>(cmp: (O, O) -> int, es: seq<Key<O>>, key: Key<O>, cut: nat)
    requires TotalOrder(cmp) && SortedKeys(cmp, es) && Splits(es, Less(cmp, key), cut)
    ensures key in es <==> cut < |es| && es[cut] == key
  {
    if key in es {
      var i :| 0 <= i < |es| && es[i] == key;
      assert !Less(cmp, key)(i + 1, es[i]);
      assert forall j :: 0 <= j < i ==> Less(cmp, key)(j + 1, es[j]);
    }
  }

  lemma RemoveSorted<O(!new)>(cmp: (O, O) -> int, es: seq<Key<O>>, cut: nat)
    requires SortedKeys(cmp, es) && cut < |es|
    ensures SortedKeys(cmp, RemoveAt(es, cut))
  {
  }

  lemma KeysRemove<O>(nodes: seq<Node<O>>, cut: nat)
    requires cut + 1 < |nodes| && forall k :: 1 <= k < |nodes| ==> nodes[k].obj.Some?
    ensures var ns := RemoveAt(nodes, cut + 1); ns != [] && (forall k :: 1 <= k < |ns| ==> ns[k].obj.Some?)
    ensures KeysOf(RemoveAt(nodes, cut + 1)) == RemoveAt(KeysOf(nodes), cut)
  {
  }

  /** The objects of some keys. */
  ghost function ObjsOf<O>(es: seq<Key<O>>): set<O> {
    set i | 0 <= i < |es| :: es[i].obj
  }

  /** A sequence without the elements from..to. */
  function Without<T>(s: seq<T>, from: nat, to: nat): seq<T>
    requires from <= to <= |s|
  {
    s[..from] + s[to..]
  }

  lemma WithoutNext<T>(s: seq<T>, from: nat, to: nat)
    requires from <= to < |s|
    ensures |Without(s, from, to)| == |s| - (to - from) && Without(s, from, to)[from] == s[to]
    ensures Without(s, from, to + 1) == RemoveAt(Without(s, from, to), from)
  {
  }

  lemma RefIs<O>(nodes: seq<Node<O>>, k: nat)
    requires Ref(nodes, k) != null
    ensures k < |nodes| && nodes[k] == Ref(nodes, k)
  {
  }

  lemma RemoveKeeps<T>(s: seq<T>, p: nat)
    requires p < |s|
    ensures |RemoveAt(s, p)| == |s| - 1 && forall i :: 0 <= i < |s| - 1 ==> RemoveAt(s, p)[i] in s
  {
  }

  lemma NoObjs<O, V>(dict: map<O, V>)
    ensures dict - ObjsOf([]) == dict
  {
  }

  lemma DictNext<O, V>(dict: map<O, V>, es: seq<Key<O>>, from: nat, to: nat)
    requires from <= to < |es|
    ensures dict - ObjsOf(es[from..to]) - {es[to].obj} == dict - ObjsOf(es[from..to + 1])
  {
    ObjsOfNext(es, from, to);
  }

  lemma ObjsOfNext<O>(es: seq<Key<O>>, from: nat, to: nat)
    requires from <= to < |es|
    ensures ObjsOf(es[from..to + 1]) == ObjsOf(es[from..to]) + {es[to].obj}
  {
    var a, b := es[from..to], es[from..to + 1];
    assert b == a + [es[to]];
    assert b[|a|] == es[to];
    forall o | o in ObjsOf(a) ensures o in ObjsOf(b) {
      var i :| 0 <= i < |a| && a[i].obj == o;
      assert b[i] == a[i];
    }
  }

  /** zrangespec. */
  datatype Range = Range(min: real, max: real, minex: bool, maxex: bool)

  predicate InRange(r: Range, score: real) {
    (if r.minex then score > r.min else score >= r.min) && (if r.maxex then score < r.max else score <= r.max)
  }

  function Min(a: int, b: int): int {
    if a <= b then a else b
  }

  lemma RankCut<O>(es: seq<Key<O>>, before: (int, Key<O>) -> bool, rank: int, cut: nat)
    requires Splits(es, before, cut)
    requires forall i :: 0 <= i < |es| ==> (before(i + 1, es[i]) <==> i + 1 <= rank)
    ensures cut == Min(if rank < 0 then 0 else rank, |es|)
  {
    assert cut > 0 ==> before(cut, es[cut - 1]);
    assert cut < |es| ==> !before(cut + 1, es[cut]);
  }

  /** The descent test of zslGetRank. */
  function AtMost<O>(cmp: (O, O) -> int, key: Key<O>): (int, Key<O>) -> bool {
    (rank: int, k: Key<O>) => k.score < key.score || (k.score == key.score && cmp(k.obj, key.obj) <= 0)
  }

  /** A key that is present is the last one not greater than itself. */
  lemma AtMostCut<O(!new)>(cmp: (O, O) -> int, es: seq<Key<O>>, key: Key<O>, cut: nat)
    requires TotalOrder(cmp) && SortedKeys(cmp, es) && Splits(es, AtMost(cmp, key), cut)
    ensures key in es <==> cut > 0 && es[cut - 1] == key
  {
    if key in es {
      var i :| 0 <= i < |es| && es[i] == key;
      assert AtMost(cmp, key)(i + 1, es[i]);
      assert forall j :: i < j < |es| ==> !AtMost(cmp, key)(j + 1, es[j]);
    }
  }

  /** The element of rank q is among the first ones, and higher than all the later ones among them: a descent that
      walks over the first elements stops at it on some level. */
  ghost predicate StopsAt<O>(es: seq<Key<O>>, hs: seq<nat>, before: (int, Key<O>) -> bool, q: int)
    requires |hs| == |es| + 1
  {
    1 <= q <= |es| && before(q, es[q - 1]) && forall j :: q < j <= |es| && before(j, es[j - 1]) ==> hs[j] < hs[q]
  }

  lemma StopsIffPred<O>(es: seq<Key<O>>, hs: seq<nat>, before: (int, Key<O>) -> bool, cut: nat, q: nat)
    requires |hs| == |es| + 1 && Splits(es, before, cut) && 1 <= q < |hs| && hs[q] >= 1
    ensures StopsAt(es, hs, before, q) ==> Pred(hs, q, hs[q] - 1, cut)
    ensures forall lv :: Pred(hs, q, lv, cut) ==> StopsAt(es, hs, before, q)
  {
    if StopsAt(es, hs, before, q) {
      assert before(q, es[q - 1]);
      forall j | q < j <= cut ensures hs[j] < hs[q] {
        assert before(j - 1 + 1, es[j - 1]);
      }
    }
    forall lv | Pred(hs, q, lv, cut) ensures StopsAt(es, hs, before, q) {
      assert before(q - 1 + 1, es[q - 1]);
      forall j | q < j <= |es| && before(j, es[j - 1]) ensures hs[j] < hs[q] {
        assert before(j - 1 + 1, es[j - 1]);
        assert j <= cut;
      }
    }
  }

  /** In a list that holds an object once, every search for it with a greater score stops at it. */
  lemma StopsAtOther<O(!new)>(cmp: (O, O) -> int, o: O, s: real, t: real, hs: seq<nat>)
    requires TotalOrder(cmp) && s < t && |hs| == 2
    ensures var es := [Key(s, o)]; Key(t, o) !in es && StopsAt(es, hs, AtMost(cmp, Key(t, o)), 1)
  {
    assert AtMost(cmp, Key(t, o))(1, Key(s, o));
  }

  /** The two loop tests of zslDeleteRangeByScore. */
  predicate BelowMin(r: Range, score: real) {
    if r.minex then score <= r.min else score < r.min
  }

  predicate UpToMax(r: Range, score: real) {
    if r.maxex then score < r.max else score <= r.max
  }

  /** Exactly the elements from..to have a score in the interval. */
  ghost predicate Inside<O>(es: seq<Key<O>>, range: Range, from: int, to: int) {
    forall i :: 0 <= i < |es| ==> (InRange(range, es[i].score) <==> from <= i < to)
  }

  /** Between the first score not below the interval and the first one beyond it lies the interval. */
  lemma ScoresInRange<O>(cmp: (O, O) -> int, es: seq<Key<O>>, range: Range, from: nat, to: nat)
    requires SortedKeys(cmp, es) && from <= to <= |es|
    requires forall i :: 0 <= i < |es| ==> (BelowMin(range, es[i].score) <==> i < from)
    requires forall i :: from <= i < to ==> UpToMax(range, es[i].score)
    requires to < |es| ==> !UpToMax(range, es[to].score)
    ensures forall i :: 0 <= i < |es| ==> (InRange(range, es[i].score) <==> from <= i < to)
  {
    forall i | 0 <= i < |es| ensures InRange(range, es[i].score) <==> from <= i < to {
      if i > to {
        assert KeyLess(cmp, es[to], es[i]);
      }
    }
  }

  lemma KeyAt<O>(nodes: seq<Node<O>>, k: nat)
    requires nodes != [] && k >= 1 && forall k :: 1 <= k < |nodes| ==> nodes[k].obj.Some?
    ensures |KeysOf(nodes)| == |nodes| - 1
      && (k < |nodes| ==> KeysOf(nodes)[k - 1] == Key(nodes[k].score, nodes[k].obj.value))
  {
  }

  // ----- the field updates of zslInsert

  /** Respanned up to level j. */
  predicate PartSpanned(sp: seq<seq<int>>, sp': seq<seq<int>>, u: seq<nat>, h: nat, cut: nat, j: nat) {
    && |sp'| == |sp| && j <= |u|
    && (forall k :: 0 <= k < |sp| ==> |sp'[k]| == |sp[k]|)
    && (forall k, lv :: 0 <= k < |sp| && 0 <= lv < |sp[k]| ==>
          sp'[k][lv] == if lv < j && u[lv] == k then (if lv < h then cut - u[lv] + 1 else sp[k][lv] + 1) else sp[k][lv])
  }

  lemma RelinkedStep<O>(fw: seq<seq<Node?<O>>>, fw1: seq<seq<Node?<O>>>, u: seq<nat>, i: nat, x: Node<O>)
    requires Relinked(fw, fw1, u, i, x) && i < |u| && u[i] < |fw| && i < |fw[u[i]]|
    ensures Relinked(fw, fw1[u[i] := fw1[u[i]][i := x]], u, i + 1, x)
  {
  }

  lemma PartSpannedStep(sp: seq<seq<int>>, sp1: seq<seq<int>>, u: seq<nat>, h: nat, cut: nat, j: nat)
    requires PartSpanned(sp, sp1, u, h, cut, j) && j < |u| && u[j] < |sp| && j < |sp[u[j]]|
    ensures sp1[u[j]][j] == sp[u[j]][j]
    ensures var span := if j < h then cut - u[j] + 1 else sp[u[j]][j] + 1;
      PartSpanned(sp, sp1[u[j] := sp1[u[j]][j := span]], u, h, cut, j + 1)
  {
  }

  /** Predecessor nodes by index. */
  ghost predicate Located<O>(nodes: seq<Node<O>>, update: seq<Node<O>>, u: seq<nat>) {
    |update| == |u| && forall i :: 0 <= i < |u| ==> u[i] < |nodes| && update[i] == nodes[u[i]]
  }

  /** Each predecessor has the level it is a predecessor for. */
  predicate Tall<T>(u: seq<nat>, rows: seq<seq<T>>) {
    forall i :: 0 <= i < |u| ==> u[i] < |rows| && i < |rows[u[i]]|
  }

  /** The level loop of zslInsert below the height of the new node. */
  method LinkLevels<O>(x: Node<O>, update: seq<Node<O>>, rank: seq<nat>, h: nat, ghost nodes: seq<Node<O>>)
    requires Distinct(nodes) && x !in nodes && Located(nodes, update, rank)
    requires Tall(rank, FW(nodes)) && Tall(rank, SP(nodes))
    requires 1 <= h <= |rank| && |x.forward| == |x.span| == h
    modifies nodes, x
    ensures Relinked(old(FW(nodes)), FW(nodes), rank, h, x)
    ensures PartSpanned(old(SP(nodes)), SP(nodes), rank, h, rank[0], h)
    ensures |x.forward| == |x.span| == h
    ensures forall lv :: 0 <= lv < h ==>
      && x.forward[lv] == old(FW(nodes))[rank[lv]][lv]
      && x.span[lv] == old(SP(nodes))[rank[lv]][lv] - (rank[0] as int - rank[lv])
    ensures BW(nodes) == old(BW(nodes)) && x.backward == old(x.backward)
  {
    hide Relinked, PartSpanned, Distinct, BW, FW, SP;
    ghost var fw, sp := FW(nodes), SP(nodes);
    assert Relinked(fw, fw, rank, 0, x) by { RelinkedNone(fw, rank, x); }
    assert PartSpanned(sp, sp, rank, h, rank[0], 0) by { PartSpannedNone(sp, rank, h, rank[0]); }
    var i := 0;
    while i < h
      invariant i <= h && |x.forward| == |x.span| == h
      invariant Relinked(fw, FW(nodes), rank, i, x) && PartSpanned(sp, SP(nodes), rank, h, rank[0], i)
      invariant BW(nodes) == old(BW(nodes)) && x.backward == old(x.backward)
      invariant forall lv :: 0 <= lv < i ==>
        x.forward[lv] == fw[rank[lv]][lv] && x.span[lv] == sp[rank[lv]][lv] - (rank[0] as int - rank[lv])
    {
      RelinkedAt(fw, FW(nodes), rank, i, x, rank[i], i);
      RelinkedStep(fw, FW(nodes), rank, i, x);
      PartSpannedStep(sp, SP(nodes), rank, h, rank[0], i);
      PartLength(sp, SP(nodes), rank, h, rank[0], i, rank[i]);
      RowsOf(nodes, rank[i]);
      LinkLevel(x, update[i], rank[0] as int - rank[i], i, nodes, rank[i]);
      i := i + 1;
    }
  }

  /** The second level loop of zslInsert: the spans above the new node grow by one. */
  method BumpLevels<O>(update: seq<Node<O>>, rank: seq<nat>, h: nat, ghost nodes: seq<Node<O>>, ghost sp: seq<seq<int>>)
    requires Distinct(nodes) && Located(nodes, update, rank)
    requires Tall(rank, sp)
    requires 1 <= h <= |rank| && PartSpanned(sp, SP(nodes), rank, h, rank[0], h)
    modifies nodes
    ensures FW(nodes) == old(FW(nodes)) && BW(nodes) == old(BW(nodes))
    ensures Respanned(sp, SP(nodes), rank, h, rank[0])
  {
    hide PartSpanned, Distinct, BW, FW, SP;
    var i := h;
    while i < |rank|
      invariant h <= i <= |rank|
      invariant FW(nodes) == old(FW(nodes)) && BW(nodes) == old(BW(nodes))
      invariant PartSpanned(sp, SP(nodes), rank, h, rank[0], i)
    {
      PartLength(sp, SP(nodes), rank, h, rank[0], i, rank[i]);
      PartSpannedStep(sp, SP(nodes), rank, h, rank[0], i);
      RowsOf(nodes, rank[i]);
      SetSpan(update[i], i, update[i].span[i] + 1, nodes, rank[i]);
      i := i + 1;
    }
    PartSpannedAll(sp, SP(nodes), rank, h, rank[0]);
  }

  lemma RelinkedNone<O>(fw: seq<seq<Node?<O>>>, u: seq<nat>, x: Node<O>)
    ensures Relinked(fw, fw, u, 0, x)
  {
  }

  lemma PartSpannedNone(sp: seq<seq<int>>, u: seq<nat>, h: nat, cut: nat)
    ensures PartSpanned(sp, sp, u, h, cut, 0)
  {
  }

  /** Writing one level of node k. */
  method SetLevel<O>(p: Node<O>, lv: nat, next: Node?<O>, d: int, ghost nodes: seq<Node<O>>, ghost k: nat)
    requires Distinct(nodes) && k < |nodes| && p == nodes[k] && lv < |p.forward| && lv < |p.span|
    modifies p
    ensures FW(nodes) == old(FW(nodes))[k := old(p.forward)[lv := next]]
    ensures SP(nodes) == old(SP(nodes))[k := old(p.span)[lv := d]]
    ensures BW(nodes) == old(BW(nodes)) && p.backward == old(p.backward)
  {
    p.forward := p.forward[lv := next];
    p.span := p.span[lv := d];
  }

  /** One level: a predecessor that points at the node takes over its pointer and its span. */
  method UnlinkLevel<O>(x: Node<O>, q: Node<O>, i: nat, ghost nodes: seq<Node<O>>, ghost k: nat, ghost p: nat)
    requires Distinct(nodes) && k < |nodes| && p < |nodes| && k != p && q == nodes[k] && x == nodes[p]
    requires i < |q.forward| && i < |q.span| && (q.forward[i] == x ==> i < |x.forward| && i < |x.span|)
    modifies q
    ensures var hit := old(q.forward[i]) == x;
      && FW(nodes) == (if hit then old(FW(nodes))[k := old(q.forward)[i := old(x.forward[i])]] else old(FW(nodes)))
      && SP(nodes) ==
         old(SP(nodes))[k := old(q.span)[i := if hit then old(q.span[i] + (x.span[i] - 1)) else old(q.span[i]) - 1]]
    ensures BW(nodes) == old(BW(nodes)) && x.forward == old(x.forward) && x.span == old(x.span)
      && x.backward == old(x.backward)
  {
    hide FW, SP, BW, Distinct;
    Apart(nodes, k, p);
    if q.forward[i] == x {
      SetLevel(q, i, x.forward[i], q.span[i] + (x.span[i] - 1), nodes, k);
    } else {
      SetSpan(q, i, q.span[i] - 1, nodes, k);
    }
  }

  /** The level loop of zslDeleteNode. */
  method UnlinkLevels<O>(x: Node<O>, update: seq<Node<O>>, level: nat, ghost nodes: seq<Node<O>>, ghost u: seq<nat>,
      ghost p: nat)
    requires Distinct(nodes) && |u| == level <= |update| && Located(nodes, update[..level], u) && Tall(u, FW(nodes))
    requires p < |nodes| && x == nodes[p]
      && (forall i :: 0 <= i < |u| ==> u[i] != p && (FW(nodes)[u[i]][i] == x ==> i < |x.forward|))
    requires forall k :: 0 <= k < |nodes| ==> |nodes[k].forward| == |nodes[k].span|
    modifies nodes
    ensures Unlinked(old(FW(nodes)), old(SP(nodes)), FW(nodes), SP(nodes), u, x, old(x.forward), old(x.span))
    ensures BW(nodes) == old(BW(nodes)) && x.forward == old(x.forward) && x.backward == old(x.backward)
  {
    hide Unlinked, BW;
    ghost var fw, sp, xf, xs := FW(nodes), SP(nodes), x.forward, x.span;
    UnlinkedNone(fw, sp, x, xf, xs);
    assert u[..0] == [];
    hide FW, SP, Distinct;
    var i := 0;
    while i < level
      invariant i <= level && x.forward == xf && x.span == xs && x.backward == old(x.backward)
        && BW(nodes) == old(BW(nodes))
      invariant Unlinked(fw, sp, FW(nodes), SP(nodes), u[..i], x, xf, xs)
    {
      UnlinkedStep(fw, sp, FW(nodes), SP(nodes), u, i, x, xf, xs);
      RowsOf(nodes, u[i]);
      UnlinkLevel(x, update[i], i, nodes, u[i], p);
      i := i + 1;
    }
    assert u[..level] == u;
  }

  lemma Apart<T>(s: seq<T>, i: nat, j: nat)
    requires Distinct(s) && i < |s| && j < |s| && i != j
    ensures s[i] != s[j]
  {
  }

  method SetSpan<O>(p: Node<O>, lv: nat, d: int, ghost nodes: seq<Node<O>>, ghost k: nat)
    requires Distinct(nodes) && k < |nodes| && p == nodes[k] && lv < |p.span|
    modifies p
    ensures FW(nodes) == old(FW(nodes)) && BW(nodes) == old(BW(nodes))
    ensures SP(nodes) == old(SP(nodes))[k := old(p.span)[lv := d]]
    ensures p.forward == old(p.forward) && p.backward == old(p.backward)
  {
    p.span := p.span[lv := d];
  }

  method SetBack<O>(p: Node<O>, b: Node?<O>, ghost nodes: seq<Node<O>>, ghost k: nat)
    requires Distinct(nodes) && k < |nodes| && p == nodes[k]
    modifies p`backward
    ensures FW(nodes) == old(FW(nodes)) && SP(nodes) == old(SP(nodes))
    ensures BW(nodes) == old(BW(nodes))[k := b]
  {
    p.backward := b;
  }

  /** One level: the new node takes over the predecessor's pointer and the rest of its span. */
  method LinkLevel<O>(x: Node<O>, p: Node<O>, d: int, i: nat, ghost nodes: seq<Node<O>>, ghost k: nat)
    requires Distinct(nodes) && x !in nodes && k < |nodes| && p == nodes[k]
    requires i < |x.forward| && i < |x.span| && i < |p.forward| && i < |p.span|
    modifies p, x
    ensures FW(nodes) == old(FW(nodes))[k := old(p.forward)[i := x]]
    ensures SP(nodes) == old(SP(nodes))[k := old(p.span)[i := d + 1]]
    ensures x.forward == old(x.forward)[i := old(p.forward[i])] && x.span == old(x.span)[i := old(p.span[i]) - d]
    ensures BW(nodes) == old(BW(nodes)) && x.backward == old(x.backward)
  {
    hide FW, SP, BW;
    x.forward := x.forward[i := p.forward[i]];
    x.span := x.span[i := p.span[i] - d];
    SetLevel(p, i, x, d + 1, nodes, k);
  }

  lemma RowsOf<O>(nodes: seq<Node<O>>, k: nat)
    requires k < |nodes|
    ensures |FW(nodes)| == |SP(nodes)| == |nodes| && FW(nodes)[k] == nodes[k].forward && SP(nodes)[k] == nodes[k].span
  {
  }

  lemma PartSpannedAll(sp: seq<seq<int>>, sp1: seq<seq<int>>, u: seq<nat>, h: nat, cut: nat)
    requires PartSpanned(sp, sp1, u, h, cut, |u|) && h <= |u|
    ensures Respanned(sp, sp1, u, h, cut)
  {
  }

  lemma PartLength(sp: seq<seq<int>>, sp1: seq<seq<int>>, u: seq<nat>, h: nat, cut: nat, j: nat, k: nat)
    requires PartSpanned(sp, sp1, u, h, cut, j) && k < |sp|
    ensures |sp1| == |sp| && |sp1[k]| == |sp[k]|
  {
  }

  // ----- the list

  lemma EmptyGood<O>(h: Node<O>, fw: seq<seq<Node?<O>>>, sp: seq<seq<int>>)
    requires |fw| == |sp| == 1 && |fw[0]| == |sp[0]| == MAXLEVEL
    requires forall lv :: 0 <= lv < MAXLEVEL ==> fw[0][lv] == null && sp[0][lv] == 0
    ensures Good([h], [MAXLEVEL], fw, sp, 1)
  {
  }

  /** The predecessors of a cut as zslInsert and zslDelete collect them: only the levels in use matter. */
  ghost predicate Path<O>(nodes: seq<Node<O>>, hs: seq<nat>, update: seq<Node<O>>, u: seq<nat>, level: nat, cut: nat) {
    level <= |update| == |u| && Preds(hs, u[..level], level, cut) && Located(nodes, update[..level], u[..level])
  }

  /** The dictionary of a sorted set: from members to the nodes that hold their scores. */
  type Members<O(==)> = Dict.Dict<O, Node?<O>>

  /** The dictionary stands for the mapping m. */
  ghost predicate Holds<O>(dict: Members<O>, m: map<O, Node?<O>>)
    reads dict, dict.Nodes()
  {
    dict.Valid() && dict.Map() == m
  }

  /** dictDelete of one member. */
  method Forget<O(==)>(dict: Members<O>, obj: O, ghost m: map<O, Node?<O>>)
    requires Holds(dict, m)
    modifies dict, dict.Nodes()
    ensures Holds(dict, m - {obj}) && dict.Nodes() <= old(dict.Nodes())
  {
    hide Members.Valid, Members.Map;
    var ok, _, _, _ := dict.Delete(obj);
  }

  /** The list's level is the height of a node, or 1. */
  ghost predicate Topped(hs: seq<nat>, level: nat) {
    level == 1 || exists k :: 1 <= k < |hs| && hs[k] == level
  }

  lemma ToppedInsert(hs: seq<nat>, level: nat, p: nat, h: nat)
    requires 1 <= p <= |hs| && h >= 1 && Topped(hs, level)
    ensures Topped(InsertAt(hs, p, h), if h > level then h else level)
  {
    var hs' := InsertAt(hs, p, h);
    assert hs'[p] == h;
    if level > 1 {
      var k :| 1 <= k < |hs| && hs[k] == level;
      assert hs'[if k < p then k else k + 1] == level;
    }
  }

  /** zskiplist. Index k of nodes is the node of rank k; index 0 is the header. */
  class Zsl<O(!new, ==)> {
    const cmp: (O, O) -> int
    const header: Node<O>
    var tail: Node?<O>
    var length: int
    var level: nat
    ghost var nodes: seq<Node<O>>
    ghost var hs: seq<nat>

    /** The shape of the node chain. */
    ghost predicate Chained()
      reads this, nodes
    {
      && nodes != [] && nodes[0] == header && header.obj.None? && Distinct(nodes)
      && (forall k :: 1 <= k < |nodes| ==> nodes[k].obj.Some?)
      && Good(nodes, hs, FW(nodes), SP(nodes), level)
      && Mirrored(nodes, BW(nodes), tail)
      && length == |nodes| - 1
    }

    /** zslCreate. */
    constructor (cmp: (O, O) -> int)
      requires TotalOrder(cmp)
      ensures Valid() && Entries() == [] && this.cmp == cmp && fresh(header) && nodes == [header]
      ensures hs == [MAXLEVEL] && level == 1
    {
      this.cmp := cmp;
      var h := new Node(MAXLEVEL, 0.0, None);
      header, tail, length, level := h, null, 0, 1;
      nodes, hs := [h], [MAXLEVEL];
      new;
      EmptyGood(header, FW(nodes), SP(nodes));
    }

    ghost function Entries(): (es: seq<Key<O>>)
      requires nodes != [] && forall k :: 1 <= k < |nodes| ==> nodes[k].obj.Some?
      reads this
    {
      KeysOf(nodes)
    }

    ghost predicate Valid()
      reads this, nodes
    {
      Chained() && Topped(hs, level) && TotalOrder(cmp) && SortedKeys(cmp, Entries())
    }

    lemma LevelAt(k: nat, lv: nat)
      requires Chained() && k < |nodes| == |hs| && lv < hs[k]
      ensures |nodes[k].forward| == hs[k] == |nodes[k].span|
      ensures nodes[k].forward[lv] == Ref(nodes, Next(hs, k + 1, lv))
      ensures lv < level ==> nodes[k].span[lv] == Span(hs, k, lv)
    {
      hide Next, Span;
      LinkAt(nodes, hs, FW(nodes), SP(nodes), level, k, lv);
    }

    /** What a search at node q sees of the next node of its level. */
    lemma Sees(before: (int, Key<O>) -> bool, q: nat, lv: nat, cut: nat)
      requires Chained() && Splits(Entries(), before, cut) && q <= cut < |nodes| == |hs| && lv < hs[q] && lv < level
      ensures lv < |nodes[q].forward| && lv < |nodes[q].span|
      ensures nodes[q].forward[lv] != null ==> nodes[q].forward[lv].obj.Some?
      ensures Ahead(before, nodes[q], q, lv) <==> Next(hs, q + 1, lv) <= cut
      ensures Ahead(before, nodes[q], q, lv) ==>
        var n := q + nodes[q].span[lv]; q < n <= cut && nodes[q].forward[lv] == nodes[n] && lv < hs[n]
      ensures !Ahead(before, nodes[q], q, lv) ==> Pred(hs, q, lv, cut)
    {
      hide Chained, Distinct, Good, Mirrored, KeysOf;
      LevelAt(q, lv);
      var n := Next(hs, q + 1, lv);
      if n < |hs| {
        SplitsAt(before, n, cut);
      }
    }

    lemma SplitsAt(before: (int, Key<O>) -> bool, n: nat, cut: nat)
      requires Chained() && Splits(Entries(), before, cut) && 1 <= n < |nodes|
      ensures nodes[n].obj.Some? && (before(n, Key(nodes[n].score, nodes[n].obj.value)) <==> n <= cut)
    {
      hide Good, Distinct, Mirrored;
      assert Entries()[n - 1] == Key(nodes[n].score, nodes[n].obj.value);
    }

    /** One level of a search: walk right while the test holds. */
    method Advance(before: (int, Key<O>) -> bool, x: Node<O>, r: nat, lv: nat, ghost cut: nat)
        returns (y: Node<O>, q: nat)
      requires Chained() && Splits(Entries(), before, cut)
      requires r <= cut < |hs| == |nodes| && x == nodes[r] && lv < hs[r] && lv < level
      ensures r <= q <= cut && y == nodes[q] && Pred(hs, q, lv, cut)
    {
      hide Chained, Distinct, Good, Mirrored, Next, Pred, Splits, Ahead;
      y, q := x, r;
      Sees(before, q, lv, cut);
      while Ahead(before, y, q, lv)
        invariant r <= q <= cut && y == nodes[q] && lv < hs[q] && lv < |y.forward| && lv < |y.span|
        invariant y.forward[lv] != null ==> y.forward[lv].obj.Some?
        invariant Ahead(before, y, q, lv) ==>
          var n := q + y.span[lv]; q < n <= cut && y.forward[lv] == nodes[n] && lv < hs[n]
        invariant !Ahead(before, y, q, lv) ==> Pred(hs, q, lv, cut)
        decreases cut - q
      {
        y, q := y.forward[lv], q + y.span[lv];
        Sees(before, q, lv, cut);
      }
    }

    /** The descent shared by insertion and deletion: the predecessor at every level and its rank. */
    method Descend(before: (int, Key<O>) -> bool, ghost cut: nat) returns (update: seq<Node<O>>, rank: seq<nat>)
      requires Chained() && Splits(Entries(), before, cut)
      ensures Path(nodes, hs, update, rank, level, cut) && |rank| == level
    {
      hide Chained, Distinct, Good, Mirrored, Splits, Pred, KeysOf;
      update, rank := [], [];
      var x, r: nat, i: nat := header, 0, level;
      Header();
      CutBound(before, cut);
      while i > 0
        invariant i <= level && |update| == |rank| == level - i
        invariant r <= cut < |hs| == |nodes| && x == nodes[r] && (i > 0 ==> i - 1 < hs[r])
        invariant forall j :: 0 <= j < |rank| ==>
          Pred(hs, rank[j], i + j, cut) && rank[j] < |nodes| && update[j] == nodes[rank[j]]
      {
        i := i - 1;
        x, r := Advance(before, x, r, i, cut);
        update, rank := [x] + update, [r] + rank;
        PredReaches(hs, r, i, cut);
      }
      assert rank[..level] == rank && update[..level] == update;
    }

    lemma Header()
      requires Chained()
      ensures header == nodes[0] && |hs| == |nodes| && hs[0] == MAXLEVEL && 1 <= level <= MAXLEVEL
      ensures |Entries()| == |nodes| - 1 == length
    {
      hide Linked, Spanned, Distinct, Mirrored;
    }

    lemma CutBound(before: (int, Key<O>) -> bool, cut: nat)
      requires Chained() && Splits(Entries(), before, cut)
      ensures cut < |nodes|
    {
      hide Good, Distinct, Mirrored;
    }

    /** Raising the list's level: the header covers the new levels. */
    method Raise(level': nat, update: seq<Node<O>>, rank: seq<nat>, ghost cut: nat)
        returns (update': seq<Node<O>>, rank': seq<nat>)
      requires Chained() && level < level' <= MAXLEVEL && |rank| == level && cut < |nodes|
        && Path(nodes, hs, update, rank, level, cut)
      modifies `level, header
      ensures Chained() && level == level' && |rank'| == level && Path(nodes, hs, update', rank', level, cut)
      ensures Entries() == old(Entries())
    {
      hide Good, FW, BW, SP, Distinct, Mirrored, Path;
      Header();
      LevelAt(0, 0);
      ghost var fw, sp := FW(nodes), SP(nodes);
      update', rank' := CoverLevels(header, level, level', length, update, rank, nodes);
      RaisedPath(nodes, hs, fw, sp, update, rank, level, cut, SP(nodes), level');
      level := level';
    }

    /** The field updates of zslInsert, without the back pointers. */
    method LinkNew(x: Node<O>, update: seq<Node<O>>, rank: seq<nat>, h: nat, ghost cut: nat)
      requires Chained() && x !in nodes && |rank| == level && cut < |nodes| && Path(nodes, hs, update, rank, level, cut)
      requires 1 <= h <= level && |x.forward| == |x.span| == h
      modifies nodes, x
      ensures Written(old(FW(nodes)), old(SP(nodes)), rank, cut, h, x, FW(nodes), SP(nodes), x.forward, x.span)
      ensures BW(nodes) == old(BW(nodes)) && x.backward == old(x.backward) && rank != [] && rank[0] == cut
    {
      hide Chained, Good, Distinct, Mirrored, Path, Relinked, PartSpanned, Respanned, FW, SP, BW;
      ghost var fw, sp := FW(nodes), SP(nodes);
      ChainedParts();
      PathTall(nodes, hs, fw, sp, update, rank, level, cut);
      LinkLevels(x, update, rank, h, nodes);
      ghost var fw' := FW(nodes);
      BumpLevels(update, rank, h, nodes, sp);
    }

    /** The back pointers around the new node, and the tail. */
    method LinkBack(x: Node<O>, p: Node<O>, ghost cut: nat)
      requires Distinct(nodes) && Mirrored(nodes, BW(nodes), tail) && cut < |nodes| && nodes[0] == header
        && p == nodes[cut] && x !in nodes
      requires |x.forward| >= 1 && x.forward[0] == Ref(nodes, cut + 1)
      modifies `tail, x`backward, nodes
      ensures FW(nodes) == old(FW(nodes)) && SP(nodes) == old(SP(nodes)) && x.forward == old(x.forward)
        && x.span == old(x.span)
      ensures Mirrored(InsertAt(nodes, cut + 1, x), BW(InsertAt(nodes, cut + 1, x)), tail)
    {
      hide Mirrored, FW, SP, BW, InsertAt;
      InsertMirrored(nodes, BW(nodes), tail, cut, x);
      assert p == header <==> cut == 0;
      x.backward := if p == header then null else p;
      if x.forward[0] != null {
        SetBack(x.forward[0], x, nodes, cut + 1);
      } else {
        tail := x;
      }
      InsertSnapshots(nodes, cut + 1, x);
    }

    /** The forward pointers and spans that zslInsert writes. */
    method LinkForward(x: Node<O>, update: seq<Node<O>>, rank: seq<nat>, h: nat, ghost cut: nat)
      requires Chained() && x !in nodes && cut < |nodes| && |rank| == level && Path(nodes, hs, update, rank, level, cut)
      requires 1 <= h <= level && |x.forward| == |x.span| == h
      modifies nodes, x
      ensures BW(nodes) == old(BW(nodes)) && |x.forward| >= 1 && x.forward[0] == Ref(nodes, cut + 1)
      ensures cut < |hs| && update != [] && update[0] == nodes[cut]
      ensures Good(InsertAt(nodes, cut + 1, x), InsertAt(hs, cut + 1, h), InsertAt(FW(nodes), cut + 1, x.forward),
                   InsertAt(SP(nodes), cut + 1, x.span), level)
    {
      hide Chained, Good, Distinct, Mirrored, Path, FW, SP, BW, Written, InsertAt;
      ChainedParts();
      ghost var fw, sp := FW(nodes), SP(nodes);
      LinkNew(x, update, rank, h, cut);
      ghost var fw', sp' := FW(nodes), SP(nodes);
      NewBottom(nodes, hs, fw, sp, level, update, rank, cut, h, x, fw', sp', x.forward, x.span);
      InsertGood(nodes, hs, fw, sp, level, rank, cut, h, x, fw', sp', x.forward, x.span);
    }

    /** Everything zslInsert writes to nodes. */
    method LinkFields(x: Node<O>, update: seq<Node<O>>, rank: seq<nat>, h: nat, ghost cut: nat)
      requires Chained() && x !in nodes && cut < |nodes| && |rank| == level && Path(nodes, hs, update, rank, level, cut)
      requires 1 <= h <= level && |x.forward| == |x.span| == h
      modifies `tail, nodes, x
      ensures cut < |hs| && Mirrored(InsertAt(nodes, cut + 1, x), BW(InsertAt(nodes, cut + 1, x)), tail)
      ensures var ns := InsertAt(nodes, cut + 1, x); Good(ns, InsertAt(hs, cut + 1, h), FW(ns), SP(ns), level)
    {
      hide Chained, Good, Distinct, Mirrored, Path, FW, SP, BW, InsertAt;
      ChainedParts();
      LinkForward(x, update, rank, h, cut);
      LinkBack(x, update[0], cut);
      InsertSnapshots(nodes, cut + 1, x);
    }

    /** The new node enters the chain behind the cut. */
    method InsertNode(x: Node<O>, update: seq<Node<O>>, rank: seq<nat>, h: nat, ghost cut: nat)
      requires Chained() && x !in nodes && x.obj.Some? && cut < |nodes| && |rank| == level
        && Path(nodes, hs, update, rank, level, cut)
      requires 1 <= h <= level && |x.forward| == |x.span| == h
      modifies this, nodes, x
      ensures Chained() && nodes == InsertAt(old(nodes), cut + 1, x) && level == old(level)
      ensures cut < |old(hs)| && hs == InsertAt(old(hs), cut + 1, h)
    {
      hide Chained, Good, Distinct, Mirrored, Path, FW, SP, BW, InsertAt;
      ChainedParts();
      InsertRest(nodes, cut + 1, x);
      LinkFields(x, update, rank, h, cut);
      length := length + 1;
      nodes, hs := InsertAt(nodes, cut + 1, x), InsertAt(hs, cut + 1, h);
      ChainedIntro();
    }

    lemma NewHeight(p: nat, x: Node<O>)
      requires Chained() && 1 <= p < |nodes| && nodes[p] == x
      ensures p < |hs| && |x.forward| == |x.span| == hs[p]
    {
      hide Linked, Spanned, Distinct, Mirrored;
    }

    /** zslInsert, for the level the random generator chose. */
    method Insert(score: real, obj: O, newLevel: nat) returns (x: Node<O>, ghost at: nat)
      requires Valid() && 1 <= newLevel <= MAXLEVEL && Key(score, obj) !in Entries()
      modifies this, nodes
      ensures Valid() && fresh(x) && x.score == score && x.obj == Some(obj)
      ensures at <= |old(Entries())| && Entries() == InsertAt(old(Entries()), at, Key(score, obj))
      ensures nodes == InsertAt(old(nodes), at + 1, x) && |x.forward| == |x.span| == newLevel
      ensures |old(hs)| == |old(nodes)| && hs == InsertAt(old(hs), at + 1, newLevel)
      ensures level == if newLevel > old(level) then newLevel else old(level)
    {
      hide Chained, Good, Distinct, Mirrored, Path, FW, SP, BW, InsertAt, Splits, SortedKeys, KeysOf, TotalOrder, Ahead;
      ChainedParts();
      Header();
      var before := Less(cmp, Key(score, obj));
      at := CutLess(cmp, Entries(), Key(score, obj));
      CutBound(before, at);
      var update, rank := Descend(before, at);
      if newLevel > level {
        update, rank := Raise(newLevel, update, rank, at);
      }
      x := new Node(newLevel, score, Some(obj));
      InsertNode(x, update, rank, newLevel, at);
      KeysInsert(old(nodes), at, x);
      InsertSorted(cmp, old(Entries()), Key(score, obj), at);
      InsertIs(old(nodes), at + 1, x, at + 1);
      InsertIs(old(hs), at + 1, newLevel, at + 1);
      NewHeight(at + 1, x);
      ToppedInsert(old(hs), old(level), at + 1, newLevel);
    }

    /** The forward pointers and spans that zslDeleteNode writes. */
    method UnlinkForward(x: Node<O>, update: seq<Node<O>>, ghost u: seq<nat>, ghost cut: nat)
      requires Chained() && cut + 1 < |nodes| && x == nodes[cut + 1] && Path(nodes, hs, update, u, level, cut)
      modifies nodes
      ensures BW(nodes) == old(BW(nodes)) && |x.forward| >= 1 && x.forward[0] == Ref(nodes, cut + 2)
      ensures |hs| == |nodes|
      ensures Good(RemoveAt(nodes, cut + 1), RemoveAt(hs, cut + 1), RemoveAt(FW(nodes), cut + 1),
          RemoveAt(SP(nodes), cut + 1), level)
    {
      hide Chained, Good, Distinct, Mirrored, Path, FW, SP, BW, Unlinked, RemoveAt;
      ChainedParts();
      ghost var fw, sp := FW(nodes), SP(nodes);
      UnlinkReady(nodes, hs, fw, sp, level, update, u, cut);
      RowsOf(nodes, cut + 1);
      UnlinkLevels(x, update, level, nodes, u[..level], cut + 1);
      RemoveGood(nodes, hs, fw, sp, level, u[..level], cut, FW(nodes), SP(nodes));
    }

    /** Everything zslDeleteNode writes to nodes. */
    method UnlinkFields(x: Node<O>, update: seq<Node<O>>, ghost u: seq<nat>, ghost cut: nat)
      requires Chained() && cut + 1 < |nodes| && x == nodes[cut + 1] && Path(nodes, hs, update, u, level, cut)
      modifies `tail, nodes
      ensures |hs| == |nodes| && Mirrored(RemoveAt(nodes, cut + 1), BW(RemoveAt(nodes, cut + 1)), tail)
      ensures var ns := RemoveAt(nodes, cut + 1); Good(ns, RemoveAt(hs, cut + 1), FW(ns), SP(ns), level)
    {
      hide Chained, Good, Distinct, Mirrored, Path, FW, SP, BW, RemoveAt;
      ChainedParts();
      UnlinkForward(x, update, u, cut);
      UnlinkBack(x, cut);
      RemoveSnapshots(nodes, cut + 1);
    }

    /** The back pointer behind the removed node, and the tail. */
    method UnlinkBack(x: Node<O>, ghost cut: nat)
      requires Distinct(nodes) && Mirrored(nodes, BW(nodes), tail) && cut + 1 < |nodes| && x == nodes[cut + 1]
      requires |x.forward| >= 1 && x.forward[0] == Ref(nodes, cut + 2)
      modifies `tail, nodes
      ensures FW(nodes) == old(FW(nodes)) && SP(nodes) == old(SP(nodes)) && x.forward == old(x.forward)
      ensures Mirrored(RemoveAt(nodes, cut + 1), RemoveAt(BW(nodes), cut + 1), tail)
    {
      hide Mirrored, FW, SP, RemoveAt;
      RemoveMirrored(nodes, BW(nodes), tail, cut);
      if x.forward[0] != null {
        SetBack(x.forward[0], x.backward, nodes, cut + 2);
      } else {
        tail := x.backward;
      }
    }

    /** zslDeleteNode: the predecessors may have been collected for a list of more levels. */
    method DeleteNode(x: Node<O>, update: seq<Node<O>>, ghost u: seq<nat>, ghost cut: nat)
      requires Chained() && cut + 1 < |nodes| && x == nodes[cut + 1] && Path(nodes, hs, update, u, level, cut)
      modifies this, nodes
      ensures Chained() && nodes == RemoveAt(old(nodes), cut + 1) && Path(nodes, hs, update, u, level, cut)
      ensures |old(hs)| == |old(nodes)| && hs == RemoveAt(old(hs), cut + 1) && Topped(hs, level)
    {
      hide Chained, Good, Distinct, Mirrored, Path, FW, SP, BW, RemoveAt;
      ChainedParts();
      RemoveRest(nodes, cut + 1);
      UnlinkFields(x, update, u, cut);
      PathAfterRemove(nodes, hs, update, u, level, cut);
      nodes, hs := RemoveAt(nodes, cut + 1), RemoveAt(hs, cut + 1);
      Shorten(update, u, cut);
    }

    /** The end of zslDeleteNode: the level and the length. */
    method Shorten(ghost update: seq<Node<O>>, ghost u: seq<nat>, ghost cut: nat)
      requires nodes != [] && nodes[0] == header && header.obj.None? && length == |nodes|
      requires forall k :: 1 <= k < |nodes| ==> nodes[k].obj.Some?
      requires Distinct(nodes) && Good(nodes, hs, FW(nodes), SP(nodes), level) && Mirrored(nodes, BW(nodes), tail)
      requires Path(nodes, hs, update, u, level, cut)
      modifies `level, `length
      ensures Chained() && Path(nodes, hs, update, u, level, cut) && Topped(hs, level)
    {
      hide Chained, Good, Distinct, Mirrored, Path, SP, BW;
      level := LowerLevel(header.forward, level, nodes, hs, FW(nodes), SP(nodes), update, u, cut);
      length := length - 1;
      ChainedIntro();
    }

    /** The end of a descent: update[0] is the node before the cut and links to the one behind it. */
    lemma BottomAt(update: seq<Node<O>>, rank: seq<nat>, cut: nat)
      requires Chained() && |rank| == level && cut < |nodes| && Path(nodes, hs, update, rank, level, cut)
      ensures rank != [] && rank[0] == cut && update != [] && update[0] == nodes[cut]
      ensures |update[0].forward| >= 1 && update[0].forward[0] == Ref(nodes, cut + 1)
    {
      hide Good, Path, Distinct, Mirrored;
      PathTall(nodes, hs, FW(nodes), SP(nodes), update, rank, level, cut);
      BottomLink(nodes, hs, FW(nodes), SP(nodes), level, cut);
    }

    /** zslDelete. */
    method Delete(score: real, obj: O) returns (found: bool, ghost at: nat)
      requires Valid()
      modifies this, nodes
      ensures Valid()
      ensures found <==> Key(score, obj) in old(Entries())
      ensures found ==> at < |old(Entries())| && old(Entries())[at] == Key(score, obj)
      ensures found ==> Entries() == RemoveAt(old(Entries()), at) && nodes == RemoveAt(old(nodes), at + 1)
      ensures |old(hs)| == |old(nodes)| && (found ==> hs == RemoveAt(old(hs), at + 1))
      ensures !found ==> Entries() == old(Entries()) && nodes == old(nodes) && hs == old(hs) && level == old(level)
    {
      hide Chained, Good, Distinct, Mirrored, Path, FW, SP, BW, RemoveAt, Splits, SortedKeys, KeysOf, TotalOrder, Ahead;
      ChainedParts();
      Header();
      var before := Less(cmp, Key(score, obj));
      at := CutLess(cmp, Entries(), Key(score, obj));
      CutBound(before, at);
      FoundAtCut(cmp, Entries(), Key(score, obj), at);
      var update, rank := Descend(before, at);
      BottomAt(update, rank, at);
      var x := update[0].forward[0];
      KeyAt(nodes, at + 1);
      if x != null && score == x.score && x.obj == Some(obj) {
        KeysRemove(nodes, at);
        RemoveSorted(cmp, Entries(), at);
        DeleteNode(x, update, rank, at);
        found := true;
      } else {
        found := false;
      }
    }

    /** Level 0 links every node. */
    lemma NextOf(k: nat)
      requires Chained() && k < |nodes|
      ensures |nodes[k].forward| >= 1 && nodes[k].forward[0] == Ref(nodes, k + 1)
    {
      hide Good, Distinct, Mirrored;
      BottomLink(nodes, hs, FW(nodes), SP(nodes), level, k);
    }

    lemma ValidParts()
      requires Valid()
      ensures Chained() && Topped(hs, level) && TotalOrder(cmp) && SortedKeys(cmp, Entries())
    {
    }

    /** One deletion of a range deletion: the node behind the cut, with the predecessors collected before. */
    method DeleteBehind(x: Node<O>, update: seq<Node<O>>, ghost u: seq<nat>, ghost cut: nat) returns (next: Node?<O>)
      requires Valid() && cut + 1 < |nodes| && x == nodes[cut + 1] && Path(nodes, hs, update, u, level, cut)
      modifies this, nodes
      ensures Valid() && Path(nodes, hs, update, u, level, cut) && Parts()
      ensures nodes == RemoveAt(old(nodes), cut + 1) && next == Ref(nodes, cut + 1)
      ensures |old(hs)| == |old(nodes)| && hs == RemoveAt(old(hs), cut + 1)
      ensures Entries() == RemoveAt(old(Entries()), cut)
    {
      hide Chained, Valid, Good, Distinct, Mirrored, Path, FW, SP, BW, RemoveAt, KeysOf, SortedKeys;
      ValidParts();
      ChainedParts();
      NextOf(cut + 1);
      next := x.forward[0];
      RefRemove(nodes, cut + 1, cut + 2);
      KeysRemove(nodes, cut);
      KeyAt(nodes, cut + 1);
      RemoveSorted(cmp, Entries(), cut);
      DeleteNode(x, update, u, cut);
      assert Valid() by { ValidIntro(); }
    }

    /** The deletion loop of both range deletions: as long as the test holds, delete the node behind the cut from
        the list and its object from the dictionary. */
    method DeleteRun(update: seq<Node<O>>, ghost u: seq<nat>, ghost cut: nat, first: int, test: (int, Key<O>) -> bool,
        dict: Members<O>, ghost m: map<O, Node?<O>>)
        returns (removed: nat)
      requires Valid() && Path(nodes, hs, update, u, level, cut) && cut < |nodes| && first == cut + 1
      requires update != [] && update[0] == nodes[cut] && Holds(dict, m)
      modifies this, nodes, dict, dict.Nodes()
      ensures Valid() && cut + removed <= |old(Entries())|
      ensures Entries() == Without(old(Entries()), cut, cut + removed)
        && nodes == Without(old(nodes), cut + 1, cut + removed + 1)
      ensures |old(hs)| == |old(nodes)| && hs == Without(old(hs), cut + 1, cut + removed + 1)
      ensures Holds(dict, m - ObjsOf(old(Entries())[cut..cut + removed])) && dict.Nodes() <= old(dict.Nodes())
      ensures forall i :: cut <= i < cut + removed ==> test(i + 1, old(Entries())[i])
      ensures cut + removed < |old(Entries())| ==> !test(cut + removed + 1, old(Entries())[cut + removed])
    {
      hide Chained, Valid, Good, Distinct, Mirrored, Path, FW, SP, BW, RemoveAt, KeysOf, SortedKeys, Without, ObjsOf;
      hide Holds;
      RunStart(cut);
      ghost var ns, ks, es := nodes, hs, Entries();
      removed := 0;
      NoObjs(m);
      var x, traversed := update[0].forward[0], first;
      ChainedKey(x, cut);
      while x != null && test(traversed, Key(x.score, x.obj.value))
        invariant Running(ns, ks, es, update, u, cut, cut + removed) && traversed == cut + 1 + removed
        invariant x == Ref(nodes, cut + 1) && (x == null <==> cut + removed == |es|)
        invariant x != null ==> x.obj.Some? && es[cut + removed] == Key(x.score, x.obj.value)
        invariant forall k :: 0 <= k < |nodes| ==> nodes[k] in old(nodes)
        invariant Holds(dict, m - ObjsOf(es[cut..cut + removed])) && dict.Nodes() <= old(dict.Nodes())
        invariant forall i :: cut <= i < cut + removed ==> test(i + 1, es[i])
        decreases |es| - removed
      {
        x := RunOne(x, update, u, cut, ns, ks, es, cut + removed, dict, m);
        removed, traversed := removed + 1, traversed + 1;
      }
    }

    /** The node behind the cut leaves the list, and its object the dictionary. */
    method RunOne(x: Node<O>, update: seq<Node<O>>, ghost u: seq<nat>, ghost cut: nat, ghost ns: seq<Node<O>>,
        ghost ks: seq<nat>, ghost es: seq<Key<O>>, ghost to: nat, dict: Members<O>, ghost m: map<O, Node?<O>>)
        returns (next: Node?<O>)
      requires Running(ns, ks, es, update, u, cut, to) && to < |es| && x == Ref(nodes, cut + 1)
      requires x.obj.Some? && es[to] == Key(x.score, x.obj.value) && Holds(dict, m - ObjsOf(es[cut..to]))
      modifies this, nodes, dict, dict.Nodes()
      ensures Running(ns, ks, es, update, u, cut, to + 1)
      ensures next == Ref(nodes, cut + 1) && (next == null <==> to + 1 == |es|)
      ensures next != null ==> next.obj.Some? && es[to + 1] == Key(next.score, next.obj.value)
      ensures forall k :: 0 <= k < |nodes| ==> nodes[k] in old(nodes)
      ensures Holds(dict, m - ObjsOf(es[cut..to + 1])) && dict.Nodes() <= old(dict.Nodes())
    {
      hide Chained, Valid, Good, Distinct, Mirrored, Path, FW, SP, BW, RemoveAt, KeysOf, SortedKeys, Without, ObjsOf;
      hide Holds;
      DictNext(m, es, cut, to);
      ghost var left := dict.Nodes();
      next := RunStep(x, update, u, cut, ns, ks, es, to);
      assert dict.Nodes() == left;
      Forget(dict, x.obj.value, m - ObjsOf(es[cut..to]));
    }

    /** In the deletion loop, the elements cut..to of the original chain are gone. */
    ghost predicate Running(ns: seq<Node<O>>, ks: seq<nat>, es: seq<Key<O>>, update: seq<Node<O>>, u: seq<nat>,
        cut: nat, to: nat)
      reads this, nodes
    {
      && Valid() && Path(nodes, hs, update, u, level, cut) && cut <= to <= |es| == |ns| - 1 == |ks| - 1
      && Entries() == Without(es, cut, to) && nodes == Without(ns, cut + 1, to + 1)
      && hs == Without(ks, cut + 1, to + 1)
    }

    method RunStep(x: Node<O>, update: seq<Node<O>>, ghost u: seq<nat>, ghost cut: nat, ghost ns: seq<Node<O>>,
        ghost ks: seq<nat>, ghost es: seq<Key<O>>, ghost to: nat)
        returns (next: Node?<O>)
      requires Running(ns, ks, es, update, u, cut, to) && to < |es| && x == Ref(nodes, cut + 1)
      modifies this, nodes
      ensures Running(ns, ks, es, update, u, cut, to + 1)
      ensures next == Ref(nodes, cut + 1) && (next == null <==> to + 1 == |es|)
      ensures next != null ==> next.obj.Some? && es[to + 1] == Key(next.score, next.obj.value)
      ensures forall k :: 0 <= k < |nodes| ==> nodes[k] in old(nodes)
    {
      hide Chained, Valid, Good, Distinct, Mirrored, Path, FW, SP, BW, RemoveAt, KeysOf, Without;
      WithoutNext(es, cut, to);
      WithoutNext(ns, cut + 1, to + 1);
      WithoutNext(ks, cut + 1, to + 1);
      RefIs(nodes, cut + 1);
      RemoveKeeps(nodes, cut + 1);
      next := DeleteBehind(x, update, u, cut);
      RunNext(es, cut, to + 1);
    }

    /** The chain has keys. */
    ghost predicate Parts()
      reads this
    {
      nodes != [] && forall k :: 1 <= k < |nodes| ==> nodes[k].obj.Some?
    }

    lemma RunStart(cut: nat)
      requires Valid() && cut < |nodes|
      ensures Parts() && |nodes[cut].forward| >= 1 && nodes[cut].forward[0] == Ref(nodes, cut + 1)
      ensures |Entries()| == |nodes| - 1 == |hs| - 1 && Without(hs, cut + 1, cut + 1) == hs
      ensures Without(nodes, cut + 1, cut + 1) == nodes && Without(Entries(), cut, cut) == Entries()
      ensures Entries()[cut..cut] == []
    {
      hide Good, Distinct, Mirrored, SortedKeys;
      Header();
      NextOf(cut);
    }

    /** The node behind the cut holds the next key of the original sequence. */
    lemma ChainedKey(x: Node?<O>, cut: nat)
      requires Valid() && x == Ref(nodes, cut + 1) && cut < |nodes|
      ensures Parts() && |Entries()| == |nodes| - 1 && (x == null <==> cut == |Entries()|)
      ensures x != null ==> x.obj.Some? && Entries()[cut] == Key(x.score, x.obj.value)
    {
      hide Good, Distinct, Mirrored, SortedKeys;
    }

    lemma RunNext(es: seq<Key<O>>, cut: nat, to: nat)
      requires Valid() && cut <= to <= |es| && Parts() && Entries() == Without(es, cut, to) && cut < |nodes|
      ensures var x := Ref(nodes, cut + 1);
        (x == null <==> to == |es|) && (x != null ==> x.obj.Some? && es[to] == Key(x.score, x.obj.value))
    {
      hide Valid;
      ChainedKey(Ref(nodes, cut + 1), cut);
    }

    /** zslDeleteRangeByScore: exactly the keys in the interval go, from the list and from the dictionary. */
    method DeleteRangeByScore(range: Range, dict: Members<O>, ghost m: map<O, Node?<O>>)
        returns (removed: nat, ghost from: nat)
      requires Valid() && Holds(dict, m)
      modifies this, nodes, dict, dict.Nodes()
      ensures Valid() && from + removed <= |old(Entries())|
      ensures Inside(old(Entries()), range, from, from + removed)
      ensures Entries() == Without(old(Entries()), from, from + removed)
      ensures nodes == Without(old(nodes), from + 1, from + removed + 1)
      ensures |old(hs)| == |old(nodes)| && hs == Without(old(hs), from + 1, from + removed + 1)
      ensures Holds(dict, m - ObjsOf(old(Entries())[from..from + removed])) && dict.Nodes() <= old(dict.Nodes())
    {
      hide Chained, Good, Distinct, Mirrored, Path, FW, SP, BW, KeysOf, Without, ObjsOf;
      hide Holds;
      ChainedParts();
      ghost var es := Entries();
      var before: (int, Key<O>) -> bool := (rank: int, k: Key<O>) => BelowMin(range, k.score);
      from := Cut(es, before);
      CutBound(before, from);
      var update, rank := Descend(before, from);
      BottomAt(update, rank, from);
      removed := DeleteRun(update, rank, from, rank[0] + 1, (rank: int, k: Key<O>) => UpToMax(range, k.score), dict,
        m);
      ScoresInRange(cmp, es, range, from, from + removed);
    }

    /** zslDeleteRangeByRank: exactly the ranks start to end go. */
    method DeleteRangeByRank(start: nat, end: nat, dict: Members<O>, ghost m: map<O, Node?<O>>)
        returns (removed: nat, ghost from: nat)
      requires Valid() && Holds(dict, m)
      modifies this, nodes, dict, dict.Nodes()
      ensures Valid() && from + removed <= |old(Entries())|
      ensures from == Min(if start == 0 then 0 else start - 1, |old(Entries())|)
      ensures removed == if end <= from then 0 else Min(end, |old(Entries())|) - from
      ensures Entries() == Without(old(Entries()), from, from + removed)
      ensures nodes == Without(old(nodes), from + 1, from + removed + 1)
      ensures |old(hs)| == |old(nodes)| && hs == Without(old(hs), from + 1, from + removed + 1)
      ensures Holds(dict, m - ObjsOf(old(Entries())[from..from + removed])) && dict.Nodes() <= old(dict.Nodes())
    {
      hide Chained, Good, Distinct, Mirrored, Path, FW, SP, BW, KeysOf, Without, ObjsOf, SortedKeys, TotalOrder;
      hide Holds;
      ChainedParts();
      var before: (int, Key<O>) -> bool := (rank: int, k: Key<O>) => rank < start;
      from := Cut(Entries(), before);
      CutBound(before, from);
      RankCut(Entries(), before, start - 1, from);
      var update, rank := Descend(before, from);
      BottomAt(update, rank, from);
      ghost var es := Entries();
      var traversed := rank[0] + 1;
      removed := DeleteRun(update, rank, from, traversed, (rank: int, k: Key<O>) => rank <= end, dict, m);
      assert removed > 0 ==> es[from + removed - 1] in es;
    }

    /** zslFirstWithScore: the first node whose score is at least the given one, or NULL. */
    method FirstWithScore(score: real) returns (x: Node?<O>, ghost at: nat)
      requires Valid()
      ensures at <= |Entries()| && x == Ref(nodes, at + 1)
      ensures forall i :: 0 <= i < |Entries()| ==> (Entries()[i].score < score <==> i < at)
    {
      hide Chained, Good, Distinct, Mirrored, Path, FW, SP, BW, KeysOf;
      ChainedParts();
      var before: (int, Key<O>) -> bool := (rank: int, k: Key<O>) => k.score < score;
      at := Cut(Entries(), before);
      CutBound(before, at);
      var update, rank := Descend(before, at);
      BottomAt(update, rank, at);
      x := update[0].forward[0];
    }

    /** zslGetElementByRank. Rank 0 yields the header. */
    method GetElementByRank(rank: nat) returns (x: Node?<O>)
      requires Valid()
      ensures x == Ref(nodes, rank)
    {
      hide Chained, Good, Distinct, Mirrored, KeysOf, SortedKeys, TotalOrder;
      ChainedParts();
      Header();
      var before: (int, Key<O>) -> bool := (r: int, k: Key<O>) => r <= rank;
      ghost var cut := Cut(Entries(), before);
      var y, traversed: nat, i: nat := header, 0, level;
      while i > 0
        invariant i <= level && traversed <= cut < |hs| == |nodes| && y == nodes[traversed]
          && (i > 0 ==> i - 1 < hs[traversed])
        invariant i == 0 ==> Pred(hs, traversed, 0, cut) && traversed != rank
      {
        i := i - 1;
        y, traversed := Advance(before, y, traversed, i, cut);
        PredReaches(hs, traversed, i, cut);
        if traversed == rank {
          return y;
        }
      }
      AtBottom(traversed, cut);
      RankCut(Entries(), before, rank, cut);
      return null;
    }

    lemma AtBottom(r: nat, cut: nat)
      requires Chained() && |hs| == |nodes| && Pred(hs, r, 0, cut)
      ensures r == cut
    {
      hide Linked, Spanned, Distinct, Mirrored;
      BottomPred(hs, r, cut);
    }

    /** zslGetRank. The early return compares objects only: the answer is the rank of a node of the object at which the
        descent stops, of a score that may be smaller than the one asked for, and 0 exactly when there is none. */
    method GetRank(score: real, o: O) returns (rank: nat)
      requires Valid()
      ensures |hs| == |Entries()| + 1 && rank <= |Entries()|
      ensures rank > 0 ==> StopsAt(Entries(), hs, AtMost(cmp, Key(score, o)), rank) && Entries()[rank - 1].obj == o
      ensures rank == 0 ==> forall q :: StopsAt(Entries(), hs, AtMost(cmp, Key(score, o)), q) ==>
        Entries()[q - 1].obj != o
      ensures rank == 0 ==> Key(score, o) !in Entries()
    {
      hide *;
      ValidParts();
      ChainedParts();
      Header();
      var before := AtMost(cmp, Key(score, o));
      ghost var cut := AtMostSplits(Key(score, o));
      var x, i: nat := header, level;
      rank := 0;
      while i > 0
        invariant i <= level && rank <= cut < |hs| == |nodes| && x == nodes[rank] && (i > 0 ==> i - 1 < hs[rank])
        invariant i == 0 ==> Pred(hs, rank, 0, cut) && x.obj != Some(o)
        invariant forall q, lv :: 1 <= q < |nodes| && i <= lv < level && Pred(hs, q, lv, cut) ==>
          nodes[q].obj != Some(o)
      {
        i := i - 1;
        x, rank := Advance(before, x, rank, i, cut);
        PredReaches(hs, rank, i, cut);
        if x.obj == Some(o) {
          Stop(Key(score, o), cut, rank);
          return;
        }
        OnlyPred(rank, i, cut);
      }
      Missed(Key(score, o), cut);
      return 0;
    }

    lemma AtMostSplits(key: Key<O>) returns (cut: nat)
      requires Valid()
      ensures cut < |nodes| && Splits(Entries(), AtMost(cmp, key), cut)
    {
      hide Chained, Good, Distinct, Mirrored, KeysOf;
      ChainedParts();
      cut := Cut(Entries(), AtMost(cmp, key));
      CutBound(AtMost(cmp, key), cut);
    }

    lemma OnlyPred(p: nat, lv: nat, cut: nat)
      requires Pred(hs, p, lv, cut)
      ensures forall q :: 0 <= q < |hs| && Pred(hs, q, lv, cut) ==> q == p
    {
      hide Next;
      forall q | 0 <= q < |hs| && Pred(hs, q, lv, cut) ensures q == p {
        PredUnique(hs, p, q, lv, cut);
      }
    }

    lemma Stop(key: Key<O>, cut: nat, q: nat)
      requires Valid() && Splits(Entries(), AtMost(cmp, key), cut) && 1 <= q < |nodes|
      ensures |hs| == |Entries()| + 1 == |nodes| && 1 <= hs[q] <= level
      ensures nodes[q].obj.Some? && Entries()[q - 1] == Key(nodes[q].score, nodes[q].obj.value)
      ensures StopsAt(Entries(), hs, AtMost(cmp, key), q) ==> Pred(hs, q, hs[q] - 1, cut)
      ensures forall lv :: Pred(hs, q, lv, cut) ==> StopsAt(Entries(), hs, AtMost(cmp, key), q)
    {
      hide Linked, Spanned, Distinct, Mirrored, Pred, StopsAt, AtMost;
      Header();
      StopsIffPred(Entries(), hs, AtMost(cmp, key), cut, q);
    }

    /** No level stopped at a node of the object, so there is none at which a level could stop. */
    lemma Missed(key: Key<O>, cut: nat)
      requires Valid() && Splits(Entries(), AtMost(cmp, key), cut)
      requires forall q, lv :: 1 <= q < |nodes| && 0 <= lv < level && Pred(hs, q, lv, cut) ==>
        nodes[q].obj != Some(key.obj)
      ensures |hs| == |Entries()| + 1 && key !in Entries()
      ensures forall q :: StopsAt(Entries(), hs, AtMost(cmp, key), q) ==> Entries()[q - 1].obj != key.obj
    {
      hide Chained, Good, Distinct, Mirrored, KeysOf, Pred, AtMost;
      ChainedParts();
      Header();
      forall q | StopsAt(Entries(), hs, AtMost(cmp, key), q) ensures Entries()[q - 1].obj != key.obj {
        Stop(key, cut, q);
      }
      AtMostCut(cmp, Entries(), key, cut);
      assert cut > 0 && Entries()[cut - 1] == key ==> StopsAt(Entries(), hs, AtMost(cmp, key), cut);
    }

    /** The element of rank k, or NULL outside the ranks. */
    ghost function NodeAt(k: int): Node?<O>
      reads this
    {
      if k >= 1 then Ref(nodes, k) else null
    }

    /** The neighbours and the key of the element of rank k. */
    lemma StepsAt(k: nat)
      requires Valid() && 1 <= k < |nodes|
      ensures NodeAt(k) == nodes[k] && |nodes[k].forward| >= 1
      ensures nodes[k].forward[0] == NodeAt(k + 1) && nodes[k].backward == NodeAt(k - 1)
      ensures nodes[k].obj.Some? && Parts() && |Entries()| == |nodes| - 1
        && Entries()[k - 1] == Key(nodes[k].score, nodes[k].obj.value)
    {
      hide Good, Distinct, SortedKeys;
      NextOf(k);
    }

    lemma EndsAt()
      requires Valid()
      ensures Parts() && |Entries()| == |nodes| - 1 == length && tail == NodeAt(length)
      ensures nodes[0] == header && |header.forward| >= 1 && header.forward[0] == NodeAt(1)
    {
      hide Good, Distinct, SortedKeys;
      NextOf(0);
    }

    lemma HasParts()
      requires Valid()
      ensures Parts()
    {
    }

    lemma ValidIntro()
      requires Chained() && Topped(hs, level) && TotalOrder(cmp) && SortedKeys(cmp, Entries())
      ensures Valid()
    {
    }

    lemma ChainedParts()
      requires Chained()
      ensures Distinct(nodes) && Good(nodes, hs, FW(nodes), SP(nodes), level) && Mirrored(nodes, BW(nodes), tail)
      ensures nodes != [] && nodes[0] == header && header.obj.None? && length == |nodes| - 1
      ensures forall k :: 1 <= k < |nodes| ==> nodes[k].obj.Some?
    {
      hide Good, Distinct, Mirrored, FW, SP, BW;
    }

    lemma ChainedIntro()
      requires nodes != [] && nodes[0] == header && header.obj.None? && length == |nodes| - 1
      requires forall k :: 1 <= k < |nodes| ==> nodes[k].obj.Some?
      requires Distinct(nodes) && Good(nodes, hs, FW(nodes), SP(nodes), level) && Mirrored(nodes, BW(nodes), tail)
      ensures Chained()
    {
      hide Good, Distinct, Mirrored, FW, SP, BW;
    }
  }

  /** The predecessors of a cut reach their levels; at level 0 that is the cut itself. */
  lemma PathTall<O>(nodes: seq<Node<O>>, hs: seq<nat>, fw: seq<seq<Node?<O>>>, sp: seq<seq<int>>,
                    update: seq<Node<O>>, u: seq<nat>, level: nat, cut: nat)
    requires Good(nodes, hs, fw, sp, level) && Path(nodes, hs, update, u, level, cut) && |u| == level && cut < |nodes|
    ensures Located(nodes, update, u) && Preds(hs, u, level, cut) && Tall(u, fw) && Tall(u, sp)
    ensures u != [] && u[0] == cut
  {
    hide Next, Linked, Spanned;
    assert u[..level] == u && update[..level] == update;
    BottomPred(hs, u[0], cut);
  }

  /** The new node points to the node behind the cut. */
  lemma NewBottom<O>(nodes: seq<Node<O>>, hs: seq<nat>, fw: seq<seq<Node?<O>>>, sp: seq<seq<int>>, level: nat,
                     update: seq<Node<O>>, u: seq<nat>, cut: nat, h: nat, x: Node<O>,
                     fw': seq<seq<Node?<O>>>, sp': seq<seq<int>>, xf: seq<Node?<O>>, xs: seq<int>)
    requires Good(nodes, hs, fw, sp, level) && Path(nodes, hs, update, u, level, cut) && |u| == level && cut < |nodes|
      && h >= 1
    requires Written(fw, sp, u, cut, h, x, fw', sp', xf, xs)
    ensures |xf| >= 1 && xf[0] == Ref(nodes, cut + 1) && update != [] && update[0] == nodes[cut]
      && Preds(hs, u, level, cut) && |hs| == |nodes|
  {
    hide Relinked, Respanned, Next;
    PathTall(nodes, hs, fw, sp, update, u, level, cut);
    BottomLink(nodes, hs, fw, sp, level, cut);
  }

  /** Level 0 links every node. */
  lemma BottomLink<O>(nodes: seq<Node<O>>, hs: seq<nat>, fw: seq<seq<Node?<O>>>, sp: seq<seq<int>>, level: nat, k: nat)
    requires Good(nodes, hs, fw, sp, level) && k < |nodes|
    ensures |fw| == |hs| == |nodes| && hs[k] >= 1 && |fw[k]| >= 1 && fw[k][0] == Ref(nodes, k + 1)
  {
    hide Next;
    LinkAt(nodes, hs, fw, sp, level, k, 0);
    if k + 1 < |hs| {
      NextIs(hs, k + 1, 0, k + 1);
    } else {
      NextIs(hs, k + 1, 0, |hs|);
    }
  }

  /** What the level loop of zslDeleteNode relies on. */
  lemma UnlinkReady<O>(nodes: seq<Node<O>>, hs: seq<nat>, fw: seq<seq<Node?<O>>>, sp: seq<seq<int>>, level: nat,
                       update: seq<Node<O>>, u: seq<nat>, cut: nat)
    requires Good(nodes, hs, fw, sp, level) && Path(nodes, hs, update, u, level, cut) && Distinct(nodes)
      && cut + 1 < |nodes|
    ensures level <= |update| == |u|
    ensures var p := u[..level];
      && Located(nodes, update[..level], p) && Preds(hs, p, level, cut) && Tall(p, fw)
      && (forall i :: 0 <= i < level ==> p[i] != cut + 1 && (fw[p[i]][i] == nodes[cut + 1] ==> i < |fw[cut + 1]|))
    ensures |hs| == |nodes| == |fw| == |sp| && forall k :: 0 <= k < |nodes| ==> |fw[k]| == |sp[k]|
    ensures |fw[cut + 1]| >= 1 && fw[cut + 1][0] == Ref(nodes, cut + 2)
  {
    hide Next, Linked, Spanned, Distinct;
    BottomLink(nodes, hs, fw, sp, level, cut + 1);
    var p := u[..level];
    forall i | 0 <= i < level && fw[p[i]][i] == nodes[cut + 1] ensures i < |fw[cut + 1]| {
      LinkAt(nodes, hs, fw, sp, level, p[i], i);
      LinkBound(nodes, hs, p[i], i, cut + 1);
    }
  }

  lemma LinkBound<O>(nodes: seq<Node<O>>, hs: seq<nat>, k: nat, lv: nat, p: nat)
    requires Distinct(nodes) && |hs| == |nodes| && p < |nodes| && k < |nodes|
    requires Ref(nodes, Next(hs, k + 1, lv)) == nodes[p]
    ensures hs[p] > lv
  {
  }

  /** The last loop of zslDeleteNode. */
  method LowerLevel<O>(top: seq<Node?<O>>, level: nat, ghost nodes: seq<Node<O>>, ghost hs: seq<nat>,
      ghost fw: seq<seq<Node?<O>>>, ghost sp: seq<seq<int>>, ghost update: seq<Node<O>>, ghost u: seq<nat>,
      ghost cut: nat) returns (level': nat)
    requires Good(nodes, hs, fw, sp, level) && Path(nodes, hs, update, u, level, cut) && fw[0] == top
    ensures Good(nodes, hs, fw, sp, level') && Path(nodes, hs, update, u, level', cut)
    ensures 1 <= level' <= level && Topped(hs, level')
  {
    HeaderRow(nodes, hs, fw, sp, level);
    hide Good, Path;
    level' := level;
    while level' > 1 && top[level' - 1] == null
      invariant 1 <= level' <= level <= |top|
      invariant Good(nodes, hs, fw, sp, level') && Path(nodes, hs, update, u, level', cut)
    {
      Lowered(nodes, hs, fw, sp, level');
      PathLowered(nodes, hs, update, u, level', cut);
      level' := level' - 1;
    }
    if level' > 1 { TopReached(nodes, hs, fw, sp, level'); }
  }

  /** A header pointer on the highest level leads to a node of that height. */
  lemma TopReached<O>(nodes: seq<Node<O>>, hs: seq<nat>, fw: seq<seq<Node?<O>>>, sp: seq<seq<int>>, level: nat)
    requires Good(nodes, hs, fw, sp, level) && level > 1 && level <= |fw[0]| && fw[0][level - 1] != null
    ensures Topped(hs, level)
  {
    hide Next, Linked, Spanned;
    LinkAt(nodes, hs, fw, sp, level, 0, level - 1);
    assert hs[Next(hs, 1, level - 1)] == level;
  }

  lemma HeaderRow<O>(nodes: seq<Node<O>>, hs: seq<nat>, fw: seq<seq<Node?<O>>>, sp: seq<seq<int>>, level: nat)
    requires Good(nodes, hs, fw, sp, level)
    ensures 1 <= |fw| && 1 <= level <= |fw[0]|
  {
    hide Next, Linked, Spanned;
  }

  lemma PathLowered<O>(nodes: seq<Node<O>>, hs: seq<nat>, update: seq<Node<O>>, u: seq<nat>, level: nat, cut: nat)
    requires Path(nodes, hs, update, u, level, cut) && level > 1
    ensures Path(nodes, hs, update, u, level - 1, cut)
  {
    hide Pred;
  }

  lemma PathAfterRemove<O>(nodes: seq<Node<O>>, hs: seq<nat>, update: seq<Node<O>>, u: seq<nat>, level: nat, cut: nat)
    requires Path(nodes, hs, update, u, level, cut) && cut + 1 < |nodes| == |hs|
    ensures Path(RemoveAt(nodes, cut + 1), RemoveAt(hs, cut + 1), update, u, level, cut)
  {
    hide Next;
    PredsAfterRemove(hs, u[..level], level, cut);
  }

  lemma RemoveRest<O>(nodes: seq<Node<O>>, p: nat)
    requires Distinct(nodes) && 1 <= p < |nodes| && nodes[0].obj.None?
      && forall k :: 1 <= k < |nodes| ==> nodes[k].obj.Some?
    ensures var ns := RemoveAt(nodes, p);
      Distinct(ns) && |ns| == |nodes| - 1 && ns[0] == nodes[0] && (forall k :: 1 <= k < |ns| ==> ns[k].obj.Some?)
  {
  }

  lemma InsertRest<O>(nodes: seq<Node<O>>, p: nat, x: Node<O>)
    requires Distinct(nodes) && x !in nodes && 1 <= p <= |nodes| && nodes[0].obj.None? && x.obj.Some?
    requires forall k :: 1 <= k < |nodes| ==> nodes[k].obj.Some?
    ensures var ns := InsertAt(nodes, p, x);
      Distinct(ns) && |ns| == |nodes| + 1 && ns[0] == nodes[0] && (forall k :: 1 <= k < |ns| ==> ns[k].obj.Some?)
  {
  }

  lemma BottomPred(hs: seq<nat>, u: nat, cut: nat)
    requires Pred(hs, u, 0, cut) && forall k :: 1 <= k < |hs| ==> hs[k] >= 1
    ensures u == cut
  {
    if u + 1 < |hs| {
      NextIs(hs, u + 1, 0, u + 1);
    }
  }

  /** The loop of zslInsert that gives the header the new levels. */
  method CoverLevels<O>(header: Node<O>, level: nat, level': nat, length: int, update: seq<Node<O>>, rank: seq<nat>,
      ghost nodes: seq<Node<O>>)
      returns (update': seq<Node<O>>, rank': seq<nat>)
    requires Distinct(nodes) && nodes != [] && nodes[0] == header && level <= level' <= |header.span|
    modifies header`span
    ensures FW(nodes) == old(FW(nodes)) && BW(nodes) == old(BW(nodes))
    ensures update' == update + seq(level' - level, _ => header) && rank' == rank + seq(level' - level, _ => 0)
    ensures SP(nodes) == old(SP(nodes))[0 := header.span] && |header.span| == |old(header.span)|
    ensures forall lv :: 0 <= lv < |header.span| ==>
      header.span[lv] == if level <= lv < level' then length else old(header.span)[lv]
  {
    hide FW, BW;
    update', rank' := update, rank;
    for i := level to level'
      invariant update' == update + seq(i - level, _ => header) && rank' == rank + seq(i - level, _ => 0)
      invariant |header.span| == |old(header.span)|
      invariant forall lv :: 0 <= lv < |header.span| ==>
        header.span[lv] == if level <= lv < i then length else old(header.span)[lv]
    {
      header.span := header.span[i := length];
      update', rank' := update' + [header], rank' + [0];
    }
  }

  lemma RaisedPath<O>(nodes: seq<Node<O>>, hs: seq<nat>, fw: seq<seq<Node?<O>>>, sp: seq<seq<int>>,
                      update: seq<Node<O>>, u: seq<nat>, level: nat, cut: nat, sp': seq<seq<int>>, level': nat)
    requires Good(nodes, hs, fw, sp, level) && Path(nodes, hs, update, u, level, cut)
      && |u| == level < level' <= MAXLEVEL && cut < |nodes|
    requires |sp'| == |sp| >= 1 && |sp'[0]| == MAXLEVEL && sp' == sp[0 := sp'[0]]
    requires forall lv :: 0 <= lv < MAXLEVEL ==> sp'[0][lv] == if level <= lv < level' then |nodes| - 1 else sp[0][lv]
    ensures Good(nodes, hs, fw, sp', level')
    ensures Path(nodes, hs, update + seq(level' - level, _ => nodes[0]), u + seq(level' - level, _ => 0), level', cut)
  {
    hide Next, Linked, Spanned, Pred, Preds;
    Raised(nodes, hs, fw, sp, level, sp', level');
    assert u[..level] == u;
    PredsRaised(hs, u, level, cut, level');
    var u', update' := u + seq(level' - level, _ => 0), update + seq(level' - level, _ => nodes[0]);
    assert u'[..level'] == u' && update'[..level'] == update';
  }

  /** A list of one element answers rank 1 to a search for its object with a greater score. */
  method RankOfAbsent<O(!new, ==)>(cmp: (O, O) -> int, o: O, s: real, t: real) returns (z: Zsl<O>, rank: nat)
    requires TotalOrder(cmp) && s < t
    ensures z.Valid() && z.Entries() == [Key(s, o)] && Key(t, o) !in z.Entries() && rank == 1
  {
    hide Zsl.Chained, KeysOf, SortedKeys, TotalOrder;
    z := new Zsl(cmp);
    var x, at := z.Insert(s, o, 1);
    z.HasParts();
    assert z.Entries() == [Key(s, o)];
    rank := z.GetRank(t, o);
    StopsAtOther(cmp, o, s, t, z.hs);
  }
}
