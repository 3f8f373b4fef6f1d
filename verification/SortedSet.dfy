/** Sorted sets (t_zset.c): a skiplist and a dictionary that hold the same member-to-score mapping. */
module SortedSet {
  import Dict
  import DictTable
  import opened Options
  import opened Sequences
  import opened SkipNodes
  import opened SkipList

  /** The skiplist's keys and the dictionary say the same. */
  ghost predicate Agree<O(!new)>(es: seq<Key<O>>, dict: map<O, real>) {
    && (forall i :: 0 <= i < |es| ==> es[i].obj in dict && dict[es[i].obj] == es[i].score)
    && (forall o :: o in dict ==> Key(dict[o], o) in es)
  }

  /** No member occurs twice. */
  ghost predicate Unique<O>(es: seq<Key<O>>) {
    forall i, j :: 0 <= i < j < |es| ==> es[i].obj != es[j].obj
  }

  lemma AgreeUnique<O(!new)>(cmp: (O, O) -> int, es: seq<Key<O>>, dict: map<O, real>)
    requires TotalOrder(cmp) && SortedKeys(cmp, es) && Agree(es, dict)
    ensures Unique(es)
  {
    forall i, j | 0 <= i < j < |es| ensures es[i].obj != es[j].obj {
      assert KeyLess(cmp, es[i], es[j]);
    }
  }

  lemma {:induction false} UniqueCount<O>(es: seq<Key<O>>)
    requires Unique(es)
    ensures |ObjsOf(es)| == |es|
  {
    if es != [] {
      var n := |es| - 1;
      UniqueCount(es[..n]);
      ObjsOfNext(es, 0, n);
      assert es[0..n] == es[..n] && es[0..n + 1] == es;
    }
  }

  /** The skiplist's length is the number of members. */
  lemma AgreeCount<O(!new)>(cmp: (O, O) -> int, es: seq<Key<O>>, dict: map<O, real>)
    requires TotalOrder(cmp) && SortedKeys(cmp, es) && Agree(es, dict)
    ensures |es| == |dict|
  {
    AgreeUnique(cmp, es, dict);
    UniqueCount(es);
    assert dict.Keys == ObjsOf(es) by {
      forall o | o in dict ensures o in ObjsOf(es) {
        var i :| 0 <= i < |es| && es[i] == Key(dict[o], o);
      }
    }
  }

  lemma AgreeInsert<O(!new)>(es: seq<Key<O>>, dict: map<O, real>, at: nat, key: Key<O>)
    requires Agree(es, dict) && at <= |es| && key.obj !in dict
    ensures Agree(InsertAt(es, at, key), dict[key.obj := key.score])
  {
    var es', dict' := InsertAt(es, at, key), dict[key.obj := key.score];
    forall o | o in dict' ensures Key(dict'[o], o) in es' {
      if o == key.obj {
        assert es'[at] == key;
      } else {
        var i :| 0 <= i < |es| && es[i] == Key(dict[o], o);
        assert es'[if i < at then i else i + 1] == es[i];
      }
    }
  }

  /** With unique members, exactly the ones in the cut-out part are gone. */
  lemma GoneIs<O>(es: seq<Key<O>>, from: nat, to: nat, k: nat)
    requires Unique(es) && from <= to <= |es| && k < |es|
    ensures es[k].obj in ObjsOf(es[from..to]) <==> from <= k < to
  {
    var part := es[from..to];
    if from <= k < to {
      assert part[k - from].obj == es[k].obj;
    }
    assert forall i :: 0 <= i < |part| ==> part[i] == es[from + i];
  }

  lemma WithoutAt<T>(s: seq<T>, from: nat, to: nat, k: nat)
    requires from <= to <= |s|
    ensures |Without(s, from, to)| == |s| - (to - from)
    ensures k < |s| - (to - from) ==> Without(s, from, to)[k] == s[if k < from then k else k + (to - from)]
  {
  }

  lemma AgreeWithout<O(!new)>(es: seq<Key<O>>, dict: map<O, real>, from: nat, to: nat)
    requires Agree(es, dict) && Unique(es) && from <= to <= |es|
    ensures Agree(Without(es, from, to), dict - ObjsOf(es[from..to]))
  {
    hide Without, ObjsOf, Unique;
    var es', gone := Without(es, from, to), ObjsOf(es[from..to]);
    forall i | 0 <= i < |es'| ensures es'[i].obj in dict - gone && dict[es'[i].obj] == es'[i].score {
      WithoutAt(es, from, to, i);
      GoneIs(es, from, to, if i < from then i else i + (to - from));
    }
    forall o | o in dict && o !in gone ensures Key(dict[o], o) in es' {
      var k :| 0 <= k < |es| && es[k] == Key(dict[o], o);
      GoneIs(es, from, to, k);
      WithoutAt(es, from, to, if k < from then k else k - (to - from));
    }
  }

  lemma CountWithout<O(!new)>(es: seq<Key<O>>, dict: map<O, real>, from: nat, to: nat)
    requires Agree(es, dict) && Unique(es) && from <= to <= |es|
    ensures |dict - ObjsOf(es[from..to])| == |dict| - (to - from)
  {
    var part := es[from..to];
    UniqueCount(part);
    forall o | o in ObjsOf(part) ensures o in dict {
      var i :| 0 <= i < |part| && part[i].obj == o;
      assert part[i] == es[from + i];
    }
    assert (dict - ObjsOf(part)).Keys == dict.Keys - ObjsOf(part);
  }

  /** The 0-based rank of a member: how many members are ordered before it. */
  ghost function RankIn<O>(cmp: (O, O) -> int, dict: map<O, real>, ele: O): nat
    requires ele in dict
  {
    |set o | o in dict && KeyLess(cmp, Key(dict[o], o), Key(dict[ele], ele))|
  }

  lemma LessIsBefore<O(!new)>(cmp: (O, O) -> int, es: seq<Key<O>>, k: nat, i: nat)
    requires TotalOrder(cmp) && SortedKeys(cmp, es) && k < |es| && i < |es|
    ensures KeyLess(cmp, es[k], es[i]) <==> k < i
  {
    if i < k {
      assert KeyLess(cmp, es[i], es[k]);
    }
  }

  /** Ranks are positions in the skiplist. */
  lemma RankIsIndex<O(!new)>(cmp: (O, O) -> int, es: seq<Key<O>>, dict: map<O, real>, i: nat)
    requires TotalOrder(cmp) && SortedKeys(cmp, es) && Agree(es, dict) && i < |es|
    ensures es[i].obj in dict && RankIn(cmp, dict, es[i].obj) == i
  {
    var less := set o | o in dict && KeyLess(cmp, Key(dict[o], o), es[i]);
    AgreeUnique(cmp, es, dict);
    UniqueCount(es[..i]);
    forall o | o in less ensures o in ObjsOf(es[..i]) {
      var k :| 0 <= k < |es| && es[k] == Key(dict[o], o);
      LessIsBefore(cmp, es, k, i);
      assert es[..i][k] == es[k];
    }
    assert less == ObjsOf(es[..i]);
  }

  lemma OneOut<T>(s: seq<T>, at: nat)
    requires at < |s|
    ensures RemoveAt(s, at) == Without(s, at, at + 1)
  {
  }

  lemma OneObj<O>(es: seq<Key<O>>, at: nat)
    requires at < |es|
    ensures ObjsOf(es[at..at + 1]) == {es[at].obj}
  {
    assert es[at..at + 1] == [es[at]];
  }

  lemma InsertAdds<T>(s: seq<T>, p: nat, x: T)
    requires p <= |s|
    ensures forall i :: 0 <= i < |InsertAt(s, p, x)| ==> InsertAt(s, p, x)[i] in s || InsertAt(s, p, x)[i] == x
  {
  }

  lemma WithoutKeeps<T>(s: seq<T>, from: nat, to: nat)
    requires from <= to <= |s|
    ensures forall i :: 0 <= i < |Without(s, from, to)| ==> Without(s, from, to)[i] in s
  {
  }

  /** The members whose score is not in the interval. */
  ghost function OtherScores<O>(dict: map<O, real>, range: Range): map<O, real> {
    map o | o in dict && !InRange(range, dict[o]) :: dict[o]
  }

  /** Removing the part of the skiplist inside the interval removes the members inside it. */
  lemma ScoresGone<O(!new)>(es: seq<Key<O>>, dict: map<O, real>, range: Range, from: nat, to: nat)
    requires Agree(es, dict) && Unique(es) && from <= to <= |es|
    requires Inside(es, range, from, to)
    ensures dict - ObjsOf(es[from..to]) == OtherScores(dict, range)
  {
    hide ObjsOf, Unique;
    forall o | o in dict ensures o in ObjsOf(es[from..to]) <==> InRange(range, dict[o]) {
      var k :| 0 <= k < |es| && es[k] == Key(dict[o], o);
      GoneIs(es, from, to, k);
    }
  }

  /** The members whose rank is not in lo..hi. */
  ghost function OtherRanks<O>(cmp: (O, O) -> int, dict: map<O, real>, lo: int, hi: int): map<O, real> {
    map o | o in dict && !(lo <= RankIn(cmp, dict, o) <= hi) :: dict[o]
  }

  /** Ranks outside 0..|dict|-1 do not matter. */
  lemma OtherRanksClamped<O(!new)>(cmp: (O, O) -> int, es: seq<Key<O>>, dict: map<O, real>, lo: int, hi: int)
    requires TotalOrder(cmp) && SortedKeys(cmp, es) && Agree(es, dict)
    ensures var n := |dict|; var a, b := if lo < 0 then 0 else lo, if hi >= n then n - 1 else hi;
      OtherRanks(cmp, dict, lo, hi) == (if a > b || a >= n then dict else OtherRanks(cmp, dict, a, b))
  {
    hide RankIn, SortedKeys, TotalOrder;
    AgreeCount(cmp, es, dict);
    forall o | o in dict ensures RankIn(cmp, dict, o) < |dict| {
      var k :| 0 <= k < |es| && es[k] == Key(dict[o], o);
      RankIsIndex(cmp, es, dict, k);
    }
  }

  /** Removing the part of the skiplist between two positions removes the members of those ranks. */
  lemma RanksGone<O(!new)>(cmp: (O, O) -> int, es: seq<Key<O>>, dict: map<O, real>, from: nat, to: nat)
    requires TotalOrder(cmp) && SortedKeys(cmp, es) && Agree(es, dict) && Unique(es) && from <= to <= |es|
    ensures dict - ObjsOf(es[from..to]) == OtherRanks(cmp, dict, from, to - 1)
  {
    hide ObjsOf, Unique, RankIn, SortedKeys, TotalOrder;
    forall o | o in dict ensures o in ObjsOf(es[from..to]) <==> from <= RankIn(cmp, dict, o) < to {
      var k :| 0 <= k < |es| && es[k] == Key(dict[o], o);
      GoneIs(es, from, to, k);
      RankIsIndex(cmp, es, dict, k);
    }
  }

  ghost predicate Nondecreasing<O>(es: seq<Key<O>>) {
    forall i, j :: 0 <= i <= j < |es| ==> es[i].score <= es[j].score
  }

  /** Not beyond the interval that starts at its upper end: what ZREVRANGEBYSCORE looks for. */
  predicate UpToFirst(r: Range, score: real) {
    if r.minex then score < r.min else score <= r.min
  }

  /** The loop test of genericZrangebyscoreCommand. */
  predicate Passes(r: Range, reverse: bool, score: real) {
    if reverse then (if r.maxex then !(score <= r.max) else !(score < r.max))
    else (if r.maxex then !(score >= r.max) else !(score > r.max))
  }

  /** The interval meant by the arguments: reversed commands name its upper end first. */
  function Meant(r: Range, reverse: bool): Range {
    if reverse then Range.Range(r.max, r.min, r.maxex, r.minex) else r
  }

  /** The index of the j-th element seen from the one of rank k. */
  function Seen(k: nat, reverse: bool, j: int): int {
    if reverse then k - 1 - j else k - 1 + j
  }

  /** How many elements pass the test, seen from the one of rank k. */
  lemma CountPassing<O>(es: seq<Key<O>>, r: Range, reverse: bool, k: nat) returns (c: nat)
    requires if reverse then k <= |es| else 1 <= k <= |es| + 1
    ensures forall j :: 0 <= j < c ==>
      0 <= Seen(k, reverse, j) < |es| && Passes(r, reverse, es[Seen(k, reverse, j)].score)
    ensures var i := Seen(k, reverse, c); 0 <= i < |es| ==> !Passes(r, reverse, es[i].score)
    ensures c <= if reverse then k else |es| + 1 - k
  {
    c := 0;
    while 0 <= Seen(k, reverse, c) < |es| && Passes(r, reverse, es[Seen(k, reverse, c)].score)
      invariant c <= if reverse then k else |es| + 1 - k
      invariant forall j :: 0 <= j < c ==>
        0 <= Seen(k, reverse, j) < |es| && Passes(r, reverse, es[Seen(k, reverse, j)].score)
      decreases |es| - c
    {
      c := c + 1;
    }
  }

  /** The elements that pass, from the first one sought, are the interval. */
  lemma PassingIsInterval<O>(es: seq<Key<O>>, r: Range, reverse: bool, k: nat, c: nat)
    requires Nondecreasing(es) && if reverse then c <= k <= |es| else 1 <= k && k - 1 + c <= |es|
    requires forall i :: 0 <= i < |es| ==>
      if reverse then UpToFirst(r, es[i].score) <==> i + 1 <= k else BelowMin(r, es[i].score) <==> i + 1 < k
    requires forall j :: 0 <= j < c ==>
      0 <= Seen(k, reverse, j) < |es| && Passes(r, reverse, es[Seen(k, reverse, j)].score)
    requires var i := Seen(k, reverse, c); 0 <= i < |es| ==> !Passes(r, reverse, es[i].score)
    ensures forall i :: 0 <= i < |es| ==>
      (InRange(Meant(r, reverse), es[i].score) <==> if reverse then k - c <= i < k else k - 1 <= i < k - 1 + c)
  {
    forall i | 0 <= i < |es|
      ensures InRange(Meant(r, reverse), es[i].score) <==> if reverse then k - c <= i < k else k - 1 <= i < k - 1 + c
    {
      var j := if reverse then k - 1 - i else i - (k - 1);
      assert i == Seen(k, reverse, j);
      if j >= c {
        assert var e := Seen(k, reverse, c); if reverse then es[i].score <= es[e].score else es[e].score <= es[i].score;
      }
    }
  }

  /** What ZADD and ZINCRBY answer. */
  datatype AddResult = Limited | Added(score: real) | Updated(score: real)

  /** The commands that change a sorted set. */
  datatype Op<O> = AddOp(ele: O, score: real, incr: bool, newLevel: nat) | RemoveOp(ele: O) | ScoreOp(range: Range)
    | RankOp(start: int, end: int)

  /** What a command means for the mapping. */
  ghost function Apply<O>(cmp: (O, O) -> int, maxSize: nat, dict: map<O, real>, op: Op<O>): map<O, real> {
    match op
    case AddOp(ele, score, incr, _) =>
      if |dict| >= maxSize && ele !in dict then dict
      else dict[ele := if incr && ele in dict then dict[ele] + score else score]
    case RemoveOp(ele) => dict - {ele}
    case ScoreOp(range) => OtherScores(dict, range)
    case RankOp(start, end) => OtherRanks(cmp, dict, FromEnd(start, |dict|), FromEnd(end, |dict|))
  }

  /** A command adds at most one member. */
  lemma ApplyGrows<O>(cmp: (O, O) -> int, maxSize: nat, dict: map<O, real>, op: Op<O>)
    ensures |Apply(cmp, maxSize, dict, op)| <= |dict| + 1
  {
    hide RankIn, InRange;
    var a := Apply(cmp, maxSize, dict, op);
    var more: set<O> := if op.AddOp? then dict.Keys + {op.ele} else dict.Keys;
    Fewer(a.Keys, more);
    assert |a| == |a.Keys| && |dict| == |dict.Keys|;
  }

  lemma {:induction false} Fewer<T>(a: set<T>, b: set<T>)
    requires a <= b
    ensures |a| <= |b|
  {
    assert b == a + (b - a);
  }

  ghost function ApplyAll<O>(cmp: (O, O) -> int, maxSize: nat, dict: map<O, real>, ops: seq<Op<O>>): map<O, real> {
    if ops == [] then dict
    else Apply(cmp, maxSize, ApplyAll(cmp, maxSize, dict, ops[..|ops| - 1]), ops[|ops| - 1])
  }

  /** A member that the mapping does not have is not in the skiplist under any score. */
  lemma NotThere<O(!new)>(es: seq<Key<O>>, dict: map<O, real>, ele: O, score: real)
    requires Agree(es, dict) && ele !in dict
    ensures Key(score, ele) !in es && forall i :: 0 <= i < |es| ==> es[i].obj != ele
  {
  }

  /** The dictionary holds every node under its object. */
  ghost predicate PointsInto<O>(m: map<O, Node?<O>>, nodes: seq<Node<O>>) {
    forall k :: 1 <= k < |nodes| ==>
      nodes[k].obj.Some? && nodes[k].obj.value in m && m[nodes[k].obj.value] == nodes[k]
  }

  lemma PointsWider<O>(m: map<O, Node?<O>>, ele: O, nodes: seq<Node<O>>)
    requires PointsInto(m, nodes) && ele !in m
    ensures PointsInto(m[ele := null], nodes)
  {
  }

  lemma PointsInsert<O>(m: map<O, Node?<O>>, nodes: seq<Node<O>>, p: nat, x: Node<O>, es: seq<Key<O>>, ele: O)
    requires PointsInto(m, nodes) && 1 <= p <= |nodes| && x.obj == Some(ele) && |es| == |nodes| - 1
    requires forall i :: 0 <= i < |es| ==> nodes[i + 1].obj == Some(es[i].obj) && es[i].obj != ele
    ensures PointsInto(m[ele := x], InsertAt(nodes, p, x))
  {
    var ns := InsertAt(nodes, p, x);
    forall k | 1 <= k < |ns|
      ensures ns[k].obj.Some? && ns[k].obj.value in m[ele := x] && m[ele := x][ns[k].obj.value] == ns[k]
    {
      if k != p {
        var j := if k < p then k else k - 1;
        assert ns[k] == nodes[j] && nodes[j - 1 + 1].obj == Some(es[j - 1].obj);
      }
    }
  }

  lemma PointsWithout<O>(m: map<O, Node?<O>>, nodes: seq<Node<O>>, es: seq<Key<O>>, from: nat, to: nat)
    requires PointsInto(m, nodes) && |es| == |nodes| - 1 && from <= to <= |es| && Unique(es)
    requires forall i :: 0 <= i < |es| ==> nodes[i + 1].obj == Some(es[i].obj)
    ensures PointsInto(m - ObjsOf(es[from..to]), Without(nodes, from + 1, to + 1))
  {
    hide Without, ObjsOf, Unique;
    var ns, gone := Without(nodes, from + 1, to + 1), ObjsOf(es[from..to]);
    forall k | 1 <= k < |ns|
      ensures ns[k].obj.Some? && ns[k].obj.value in m - gone && (m - gone)[ns[k].obj.value] == ns[k]
    {
      WithoutAt(nodes, from + 1, to + 1, k);
      var j := if k < from + 1 then k else k + (to - from);
      assert nodes[j - 1 + 1].obj == Some(es[j - 1].obj);
      GoneIs(es, from, to, j - 1);
    }
  }

  /** zset: a skiplist, and a dictionary from members to skiplist nodes. The mapping that both stand for is scores;
      pointers is what the dictionary holds. */
  class ZSet<O(!new, ==)> {
    const zsl: Zsl<O>
    const dict: Members<O>
    ghost var scores: map<O, real>
    ghost var pointers: map<O, Node?<O>>

    /** The skiplist stands for the mapping sc. */
    ghost predicate Lists(sc: map<O, real>)
      reads zsl, zsl.nodes
    {
      zsl.Valid() && zsl.Parts() && Agree(zsl.Entries(), sc)
    }

    ghost predicate Valid()
      reads this, zsl, zsl.nodes, dict, dict.Nodes()
    {
      && Lists(scores) && Holds(dict, pointers)
      && pointers.Keys == scores.Keys && PointsInto(pointers, zsl.nodes) && |scores| < Dict.LONG_MAX / 2
    }

    /** createZsetObject. */
    constructor (cmp: (O, O) -> int, hash: O -> nat)
      requires TotalOrder(cmp)
      ensures Valid() && scores == map[] && zsl.cmp == cmp
      ensures fresh(zsl) && fresh(zsl.nodes) && fresh(dict) && fresh(dict.Nodes())
    {
      zsl := new Zsl(cmp);
      dict := new Dict.Dict(hash);
      scores, pointers := map[], map[];
    }

    lemma ListFacts(sc: map<O, real>)
      requires Lists(sc)
      ensures zsl.Valid() && zsl.Parts() && TotalOrder(zsl.cmp) && SortedKeys(zsl.cmp, zsl.Entries())
        && Agree(zsl.Entries(), sc)
      ensures zsl.length == |zsl.Entries()| == |sc| == |zsl.nodes| - 1 && Unique(zsl.Entries())
      ensures forall i :: 0 <= i < |zsl.Entries()| ==> zsl.nodes[i + 1].obj == Some(zsl.Entries()[i].obj)
    {
      hide Good, Distinct, Mirrored;
      AgreeUnique(zsl.cmp, zsl.Entries(), sc);
      AgreeCount(zsl.cmp, zsl.Entries(), sc);
    }

    lemma Facts()
      requires Valid()
      ensures zsl.Valid() && zsl.Parts() && TotalOrder(zsl.cmp) && SortedKeys(zsl.cmp, zsl.Entries())
        && Agree(zsl.Entries(), scores)
      ensures zsl.length == |zsl.Entries()| == |scores| == |zsl.nodes| - 1 && Unique(zsl.Entries())
    {
      hide Lists, Holds, PointsInto;
      ListFacts(scores);
    }

    /** What the dictionary holds under a member is the member's node. */
    lemma Pointed(ele: O)
      requires Valid() && ele in scores
      ensures ele in pointers && pointers[ele] != null
      ensures pointers[ele].obj == Some(ele) && pointers[ele].score == scores[ele]
    {
      hide Zsl.Valid, Zsl.Chained, Holds, Lists, KeysOf;
      ListFacts(scores);
      var i :| 0 <= i < |zsl.Entries()| && zsl.Entries()[i] == Key(scores[ele], ele);
      KeyAt(zsl.nodes, i + 1);
    }

    /** A member that is not in the mapping is not in the skiplist, and one that is in it is there. */
    lemma Present(sc: map<O, real>, ele: O, score: real)
      requires Lists(sc)
      ensures zsl.Parts() && (Key(score, ele) in zsl.Entries() <==> ele in sc && sc[ele] == score)
    {
      hide Zsl.Valid, KeysOf;
    }

    lemma ListsIntro(sc: map<O, real>)
      requires zsl.Valid() && zsl.Parts() && Agree(zsl.Entries(), sc)
      ensures Lists(sc)
    {
    }

    lemma HeldKeys(m: map<O, Node?<O>>)
      requires Holds(dict, m)
      ensures dict.Valid() && dict.Map() == m && dict.All().Keys == m.Keys && |dict.All()| == |m|
    {
      hide Members.Valid, Members.Map;
      dict.KeysOfAll();
      assert |dict.All()| == |dict.All().Keys| && |m| == |m.Keys|;
    }

    // ----- the skiplist's side of an update

    /** A new member enters the skiplist; m is what the dictionary holds. */
    method ListInsert(ele: O, score: real, newLevel: nat, ghost sc: map<O, real>, ghost m: map<O, Node?<O>>)
        returns (znode: Node<O>)
      requires Lists(sc) && PointsInto(m, zsl.nodes) && ele !in sc && 1 <= newLevel <= MAXLEVEL
      modifies zsl, zsl.nodes
      ensures Lists(sc[ele := score]) && PointsInto(m[ele := znode], zsl.nodes)
      ensures fresh(znode) && |znode.forward| == newLevel
      ensures forall i :: 0 <= i < |zsl.nodes| ==> zsl.nodes[i] in old(zsl.nodes) || fresh(zsl.nodes[i])
    {
      hide Lists, Zsl.Valid, Zsl.Chained, Agree, TotalOrder, SortedKeys, InsertAt, KeysOf, PointsInto, Unique;
      ListFacts(sc);
      ghost var es, ns := zsl.Entries(), zsl.nodes;
      NotThere(es, sc, ele, score);
      ghost var at;
      znode, at := zsl.Insert(score, ele, newLevel);
      AgreeInsert(es, sc, at, Key(score, ele));
      InsertAdds(ns, at + 1, znode);
      PointsInsert(m, ns, at + 1, znode, es, ele);
      zsl.HasParts();
      ListsIntro(sc[ele := score]);
    }

    /** A member leaves the skiplist. */
    method ListDelete(ele: O, score: real, ghost sc: map<O, real>, ghost m: map<O, Node?<O>>)
      requires Lists(sc) && PointsInto(m, zsl.nodes) && ele in sc && sc[ele] == score
      modifies zsl, zsl.nodes
      ensures Lists(sc - {ele}) && PointsInto(m - {ele}, zsl.nodes) && |sc - {ele}| == |sc| - 1
      ensures forall i :: 0 <= i < |zsl.nodes| ==> zsl.nodes[i] in old(zsl.nodes)
    {
      hide Lists, Zsl.Valid, Zsl.Chained, Agree, TotalOrder, SortedKeys, KeysOf, ObjsOf, Unique, Without, PointsInto;
      hide RemoveAt;
      ListFacts(sc);
      Present(sc, ele, score);
      ghost var es, ns := zsl.Entries(), zsl.nodes;
      var deleted, at := zsl.Delete(score, ele);
      AgreeWithout(es, sc, at, at + 1);
      CountWithout(es, sc, at, at + 1);
      PointsWithout(m, ns, es, at, at + 1);
      OneObj(es, at);
      OneOut(es, at);
      OneOut(ns, at + 1);
      RemoveKeeps(ns, at + 1);
      zsl.HasParts();
      ListsIntro(sc - {ele});
    }

    /** A member leaves the skiplist and comes back with another score. */
    method ListMove(ele: O, from: real, to: real, newLevel: nat, ghost sc: map<O, real>, ghost m: map<O, Node?<O>>)
        returns (znode: Node<O>)
      requires Lists(sc) && PointsInto(m, zsl.nodes) && ele in sc && sc[ele] == from && 1 <= newLevel <= MAXLEVEL
      modifies zsl, zsl.nodes
      ensures Lists(sc[ele := to]) && PointsInto(m[ele := znode], zsl.nodes)
      ensures fresh(znode) && |znode.forward| == newLevel
      ensures forall i :: 0 <= i < |zsl.nodes| ==> zsl.nodes[i] in old(zsl.nodes) || fresh(zsl.nodes[i])
    {
      hide Lists, PointsInto;
      ListDelete(ele, from, sc, m);
      znode := ListInsert(ele, to, newLevel, sc - {ele}, m - {ele});
      assert (m - {ele})[ele := znode] == m[ele := znode] && (sc - {ele})[ele := to] == sc[ele := to];
    }

    // ----- the dictionary's side

    /** dictFind, and the node behind the entry. */
    method Lookup(ele: O) returns (de: DictTable.Entry?<O, Node?<O>>)
      requires Valid()
      modifies dict, dict.Nodes()
      ensures Valid() && dict.Nodes() == old(dict.Nodes())
      ensures de == null <==> ele !in scores
      ensures de != null ==> Holder(de, ele) && de.val != null && de.val.obj == Some(ele) && de.val.score == scores[ele]
    {
      hide Lists, Holds, PointsInto;
      if ele in scores {
        Pointed(ele);
      }
      ghost var ns := zsl.nodes;
      de := FindEntry(ele, pointers);
      assert zsl.nodes == ns && Lists(scores);
    }

    /** An entry of the dictionary, with its key. */
    ghost predicate Holder(de: DictTable.Entry<O, Node?<O>>, ele: O)
      reads dict
    {
      ele in dict.All() && de == dict.All()[ele] && de.key == ele
    }

    method FindEntry(ele: O, ghost m: map<O, Node?<O>>) returns (de: DictTable.Entry?<O, Node?<O>>)
      requires Holds(dict, m)
      modifies dict, dict.Nodes()
      ensures Holds(dict, m) && dict.Nodes() == old(dict.Nodes()) && (de == null <==> ele !in m)
      ensures de != null ==> Holder(de, ele) && de.val == m[ele]
    {
      hide Members.Valid, Members.Map;
      HeldKeys(m);
      de := dict.Find(ele);
      HeldKeys(m);
    }

    /** The entry gets another node. */
    method SetNode(de: DictTable.Entry<O, Node?<O>>, znode: Node<O>, ghost m: map<O, Node?<O>>)
      requires Holds(dict, m) && Holder(de, de.key)
      modifies de
      ensures Holds(dict, m[de.key := znode]) && dict.Nodes() == old(dict.Nodes())
    {
      hide Members.Valid, Members.Map;
      dict.SetVal(de, znode);
      dict.KeysOfAll();
    }

    /** What the removing commands do with the dictionary in the end. */
    method Shrink(canResize: bool)
      requires Valid()
      modifies dict
      ensures Valid() && dict.Nodes() == old(dict.Nodes()) && scores == old(scores)
      ensures canResize ==> dict.Compact()
    {
      hide Lists, Holds, PointsInto, Members.Compact;
      SameSize();
      ShrinkDict(canResize, pointers);
      assert Lists(scores);
    }

    lemma SameSize()
      requires Valid()
      ensures |pointers| == |scores|
    {
      hide Lists, Holds, PointsInto;
      assert |pointers| == |pointers.Keys| && |scores| == |scores.Keys|;
    }

    method ShrinkDict(canResize: bool, ghost m: map<O, Node?<O>>)
      requires Holds(dict, m) && |m| < Dict.LONG_MAX
      modifies dict
      ensures Holds(dict, m) && dict.Nodes() == old(dict.Nodes()) && (canResize ==> dict.Compact())
    {
      hide Members.Valid, Members.Map;
      HeldKeys(m);
      dict.ShrinkIfSparse(canResize);
    }

    // ----- adding

    /** zaddGenericCommand; adding to the limit is refused, a changed score moves the member. */
    method Add(ele: O, score: real, incr: bool, newLevel: nat, maxSize: nat, canResize: bool)
        returns (result: AddResult, ghost made: Node?<O>)
      requires Valid() && 1 <= newLevel <= MAXLEVEL && |scores| + 1 < Dict.LONG_MAX / 2
      modifies this, zsl, zsl.nodes, dict, dict.Nodes()
      ensures Valid() && forall i :: 0 <= i < |zsl.nodes| ==> zsl.nodes[i] in old(zsl.nodes) || fresh(zsl.nodes[i])
      ensures forall e :: e in dict.Nodes() ==> e in old(dict.Nodes()) || fresh(e)
      ensures |old(scores)| >= maxSize && ele !in old(scores) ==>
        result == Limited && scores == old(scores) && made == null
      ensures |old(scores)| < maxSize || ele in old(scores) ==>
        var s := if incr && ele in old(scores) then old(scores)[ele] + score else score;
        scores == old(scores)[ele := s] && result == (if ele in old(scores) then Updated(s) else Added(s))
        && (made == null <==> ele in old(scores) && old(scores)[ele] == s)
      ensures made == null ==> zsl.nodes == old(zsl.nodes) && pointers == old(pointers)
      ensures made != null ==> fresh(made) && |made.forward| == newLevel && pointers == old(pointers)[ele := made]
    {
      hide Valid, Zsl.Valid, Agree, SortedKeys, KeysOf, Unique, Members.Nodes;
      Facts();
      if zsl.length >= maxSize {
        var de := Lookup(ele);
        if de == null {
          return Limited, null;
        }
      }
      var s := score;
      if incr {
        var de := Lookup(ele);
        if de != null {
          s := de.val.score + score;
        }
      }
      var added;
      added, made := AddOrMove(ele, s, newLevel, canResize);
      result := if added then Added(s) else Updated(s);
    }

    /** The part of zaddGenericCommand behind the new score. */
    method AddOrMove(ele: O, s: real, newLevel: nat, canResize: bool)
        returns (added: bool, ghost made: Node?<O>)
      requires Valid() && 1 <= newLevel <= MAXLEVEL && |scores| + 1 < Dict.LONG_MAX / 2
      modifies this, zsl, zsl.nodes, dict, dict.Nodes()
      ensures Valid() && forall i :: 0 <= i < |zsl.nodes| ==> zsl.nodes[i] in old(zsl.nodes) || fresh(zsl.nodes[i])
      ensures forall e :: e in dict.Nodes() ==> e in old(dict.Nodes()) || fresh(e)
      ensures scores == old(scores)[ele := s] && (added <==> ele !in old(scores))
      ensures made == null <==> ele in old(scores) && old(scores)[ele] == s
      ensures made == null ==> zsl.nodes == old(zsl.nodes) && pointers == old(pointers)
      ensures made != null ==> fresh(made) && |made.forward| == newLevel && pointers == old(pointers)[ele := made]
    {
      hide Lists, Holds, PointsInto, Members.Nodes;
      SameSize();
      ghost var ns := zsl.nodes;
      added := AddEntry(ele, canResize, pointers);
      assert zsl.nodes == ns && Lists(scores);
      if added {
        PointsWider(pointers, ele, zsl.nodes);
        made := NewMember(ele, s, newLevel);
      } else {
        made := null;
        var de := Lookup(ele);
        HolderKey(de, ele);
        if s != de.val.score {
          made := MoveMember(de, s, newLevel);
        }
      }
    }

    /** dictAdd of a member without a node. */
    method AddEntry(ele: O, canResize: bool, ghost m: map<O, Node?<O>>) returns (added: bool)
      requires Holds(dict, m) && |m| < Dict.LONG_MAX / 2
      modifies dict, dict.Nodes()
      ensures (added <==> ele !in m) && Holds(dict, if added then m[ele := null] else m)
      ensures forall e :: e in dict.Nodes() ==> e in old(dict.Nodes()) || fresh(e)
    {
      hide Members.Valid, Members.Map;
      HeldKeys(m);
      added := dict.Add(ele, null, canResize);
    }

    /** The entry of the new member is there already, without a node. */
    method NewMember(ele: O, score: real, newLevel: nat) returns (znode: Node<O>)
      requires Lists(scores) && Holds(dict, pointers[ele := null]) && PointsInto(pointers[ele := null], zsl.nodes)
      requires pointers.Keys == scores.Keys && |scores| + 1 < Dict.LONG_MAX / 2
      requires ele !in scores && 1 <= newLevel <= MAXLEVEL
      modifies this, zsl, zsl.nodes, dict, dict.Nodes()
      ensures Valid() && scores == old(scores)[ele := score] && dict.Nodes() == old(dict.Nodes())
      ensures fresh(znode) && |znode.forward| == newLevel && pointers == old(pointers)[ele := znode]
      ensures forall i :: 0 <= i < |zsl.nodes| ==> zsl.nodes[i] in old(zsl.nodes) || fresh(zsl.nodes[i])
    {
      hide Valid, Lists, Holds, PointsInto, Holder;
      ghost var m := pointers[ele := null];
      znode := ListInsert(ele, score, newLevel, scores, m);
      ghost var ns := zsl.nodes;
      assert dict.Nodes() == old(dict.Nodes()) && Holds(dict, m);
      Assign(ele, znode, m);
      scores, pointers := scores[ele := score], m[ele := znode];
      assert zsl.nodes == ns && Lists(scores);
      ValidIntro();
    }

    lemma ValidIntro()
      requires Lists(scores) && Holds(dict, pointers) && pointers.Keys == scores.Keys
      requires PointsInto(pointers, zsl.nodes) && |scores| < Dict.LONG_MAX / 2
      ensures Valid()
    {
      hide Lists, Holds, PointsInto;
    }

    /** The entry of a member gets its node. */
    method Assign(ele: O, znode: Node<O>, ghost m: map<O, Node?<O>>)
      requires Holds(dict, m) && ele in m
      modifies dict, dict.Nodes()
      ensures Holds(dict, m[ele := znode]) && dict.Nodes() == old(dict.Nodes())
    {
      hide Holds, Holder;
      var de := FindEntry(ele, m);
      HolderKey(de, ele);
      SetNode(de, znode, m);
    }

    lemma HolderKey(de: DictTable.Entry<O, Node?<O>>, ele: O)
      requires Holder(de, ele)
      ensures de.key == ele && de in dict.Nodes()
    {
    }

    /** The member has an entry; its node is replaced by one with the new score. */
    method MoveMember(de: DictTable.Entry<O, Node?<O>>, score: real, newLevel: nat)
        returns (znode: Node<O>)
      requires Valid() && de.key in scores && Holder(de, de.key) && 1 <= newLevel <= MAXLEVEL
      requires de.val != null && de.val.score == scores[de.key]
      modifies this, zsl, zsl.nodes, de
      ensures Valid() && scores == old(scores)[de.key := score] && dict.Nodes() == old(dict.Nodes())
      ensures fresh(znode) && |znode.forward| == newLevel && pointers == old(pointers)[de.key := znode]
      ensures forall i :: 0 <= i < |zsl.nodes| ==> zsl.nodes[i] in old(zsl.nodes) || fresh(zsl.nodes[i])
    {
      hide Lists, Holds, PointsInto, Holder;
      var ele := de.key;
      ghost var m := pointers;
      znode := ListMove(ele, de.val.score, score, newLevel, scores, m);
      ghost var ns := zsl.nodes;
      assert dict.Nodes() == old(dict.Nodes()) && Holds(dict, m) && Holder(de, ele);
      SetNode(de, znode, m);
      scores, pointers := scores[ele := score], m[ele := znode];
      assert zsl.nodes == ns && Lists(scores);
    }

    // ----- removing

    /** The member leaves the skiplist under its current score, then the dictionary. */
    method DeleteMember(ele: O, score: real)
      requires Valid() && ele in scores && scores[ele] == score
      modifies this, zsl, zsl.nodes, dict, dict.Nodes()
      ensures Valid() && scores == old(scores) - {ele} && dict.Nodes() <= old(dict.Nodes())
      ensures forall i :: 0 <= i < |zsl.nodes| ==> zsl.nodes[i] in old(zsl.nodes)
    {
      hide Lists, Holds, PointsInto;
      ghost var m := pointers;
      ListDelete(ele, score, scores, m);
      ghost var ns := zsl.nodes;
      assert dict.Nodes() == old(dict.Nodes()) && Holds(dict, m);
      Forget(dict, ele, m);
      scores, pointers := scores - {ele}, m - {ele};
      assert zsl.nodes == ns && Lists(scores);
    }

    /** zremCommand. */
    method Remove(ele: O, canResize: bool) returns (removed: bool)
      requires Valid()
      modifies this, zsl, zsl.nodes, dict, dict.Nodes()
      ensures Valid() && scores == old(scores) - {ele} && removed == (ele in old(scores))
      ensures dict.Nodes() <= old(dict.Nodes()) && (removed && canResize ==> dict.Compact())
      ensures forall i :: 0 <= i < |zsl.nodes| ==> zsl.nodes[i] in old(zsl.nodes)
    {
      hide Valid, Members.Nodes, Members.Compact;
      var de := Lookup(ele);
      if de == null {
        return false;
      }
      DeleteMember(ele, de.val.score);
      Shrink(canResize);
      return true;
    }

    /** After a range deletion from skiplist and dictionary, what both hold is the old mapping without the range. */
    lemma RangeGone(es: seq<Key<O>>, ns: seq<Node<O>>, sc: map<O, real>, m: map<O, Node?<O>>, from: nat, to: nat)
      requires Agree(es, sc) && Unique(es) && from <= to <= |es| == |ns| - 1 && PointsInto(m, ns)
      requires forall i :: 0 <= i < |es| ==> ns[i + 1].obj == Some(es[i].obj)
      requires zsl.Valid() && zsl.Parts() && zsl.Entries() == Without(es, from, to)
      requires zsl.nodes == Without(ns, from + 1, to + 1)
      ensures Lists(sc - ObjsOf(es[from..to])) && PointsInto(m - ObjsOf(es[from..to]), zsl.nodes)
      ensures |sc - ObjsOf(es[from..to])| == |sc| - (to - from)
      ensures forall i :: 0 <= i < |zsl.nodes| ==> zsl.nodes[i] in ns
    {
      hide Lists, Zsl.Valid, Zsl.Chained, Agree, SortedKeys, KeysOf, ObjsOf, Unique, Without, PointsInto;
      WithoutKeeps(ns, from + 1, to + 1);
      AgreeWithout(es, sc, from, to);
      CountWithout(es, sc, from, to);
      PointsWithout(m, ns, es, from, to);
      ListsIntro(sc - ObjsOf(es[from..to]));
    }

    /** zremrangebyscoreCommand: exactly the members with a score in the interval go. */
    method RemoveRangeByScore(range: Range, canResize: bool) returns (deleted: nat)
      requires Valid()
      modifies this, zsl, zsl.nodes, dict, dict.Nodes()
      ensures Valid() && forall i :: 0 <= i < |zsl.nodes| ==> zsl.nodes[i] in old(zsl.nodes)
      ensures dict.Nodes() <= old(dict.Nodes())
      ensures scores == OtherScores(old(scores), range)
      ensures deleted == |old(scores)| - |scores| && (canResize ==> dict.Compact())
    {
      hide Valid, OtherScores, Members.Nodes, Members.Compact;
      deleted := DeleteScores(range);
      Shrink(canResize);
    }

    method DeleteScores(range: Range) returns (deleted: nat)
      requires Valid()
      modifies this, zsl, zsl.nodes, dict, dict.Nodes()
      ensures Valid() && forall i :: 0 <= i < |zsl.nodes| ==> zsl.nodes[i] in old(zsl.nodes)
      ensures dict.Nodes() <= old(dict.Nodes())
      ensures scores == OtherScores(old(scores), range)
      ensures deleted == |old(scores)| - |scores|
    {
      hide Lists, Holds, PointsInto, OtherScores;
      ghost var gone, sc, m := {}, scores, pointers;
      deleted, gone := CutScores(range, sc, m);
      ghost var ns := zsl.nodes;
      scores, pointers := sc - gone, m - gone;
      assert zsl.nodes == ns && Lists(scores) && dict.Nodes() <= old(dict.Nodes()) && Holds(dict, pointers);
    }

    /** The range deletion in skiplist and dictionary. */
    method CutScores(range: Range, ghost sc: map<O, real>, ghost m: map<O, Node?<O>>)
        returns (deleted: nat, ghost gone: set<O>)
      requires Lists(sc) && Holds(dict, m) && PointsInto(m, zsl.nodes)
      modifies zsl, zsl.nodes, dict, dict.Nodes()
      ensures Lists(sc - gone) && Holds(dict, m - gone) && PointsInto(m - gone, zsl.nodes)
      ensures dict.Nodes() <= old(dict.Nodes()) && |sc - gone| == |sc| - deleted
      ensures forall i :: 0 <= i < |zsl.nodes| ==> zsl.nodes[i] in old(zsl.nodes)
      ensures sc - gone == OtherScores(sc, range)
    {
      hide Lists, Zsl.Valid, Zsl.Chained, Agree, SortedKeys, KeysOf, ObjsOf, Unique, Without, TotalOrder, OtherScores;
      hide PointsInto, Holds, Inside, Members.Nodes, Members.All;
      ListFacts(sc);
      ghost var es, ns := zsl.Entries(), zsl.nodes;
      ghost var from;
      deleted, from := zsl.DeleteRangeByScore(range, dict, m);
      gone := ObjsOf(es[from..from + deleted]);
      zsl.HasParts();
      ScoresGone(es, sc, range, from, from + deleted);
      RangeGone(es, ns, sc, m, from, from + deleted);
    }

    /** zremrangebyrankCommand: negative positions count from the end; exactly the members of those ranks go. */
    method RemoveRangeByRank(start: int, end: int, canResize: bool) returns (deleted: nat)
      requires Valid()
      modifies this, zsl, zsl.nodes, dict, dict.Nodes()
      ensures Valid() && forall i :: 0 <= i < |zsl.nodes| ==> zsl.nodes[i] in old(zsl.nodes)
      ensures dict.Nodes() <= old(dict.Nodes())
      ensures var n := |old(scores)|; scores == OtherRanks(zsl.cmp, old(scores), FromEnd(start, n), FromEnd(end, n))
      ensures deleted == |old(scores)| - |scores| && (deleted > 0 && canResize ==> dict.Compact())
    {
      hide Valid, Zsl.Valid, Zsl.Chained, Agree, SortedKeys, KeysOf, Unique, TotalOrder, OtherRanks, Members.Nodes;
      hide Members.Compact;
      Facts();
      var llen := zsl.length;
      var lo := if start < 0 then llen + start else start;
      var hi := if end < 0 then llen + end else end;
      OtherRanksClamped(zsl.cmp, zsl.Entries(), scores, lo, hi);
      lo := if lo < 0 then 0 else lo;
      if lo > hi || lo >= llen {
        return 0;
      }
      hi := if hi >= llen then llen - 1 else hi;
      deleted := DeleteRanks(lo, hi);
      Shrink(canResize);
    }

    method DeleteRanks(lo: nat, hi: nat) returns (deleted: nat)
      requires Valid() && lo <= hi < |scores|
      modifies this, zsl, zsl.nodes, dict, dict.Nodes()
      ensures Valid() && forall i :: 0 <= i < |zsl.nodes| ==> zsl.nodes[i] in old(zsl.nodes)
      ensures dict.Nodes() <= old(dict.Nodes())
      ensures scores == OtherRanks(zsl.cmp, old(scores), lo, hi) && deleted == |old(scores)| - |scores|
    {
      hide Lists, Holds, PointsInto, OtherRanks;
      ghost var gone, sc, m := {}, scores, pointers;
      deleted, gone := CutRanks(lo, hi, sc, m);
      ghost var ns := zsl.nodes;
      scores, pointers := sc - gone, m - gone;
      assert zsl.nodes == ns && Lists(scores) && dict.Nodes() <= old(dict.Nodes()) && Holds(dict, pointers);
    }

    method CutRanks(lo: nat, hi: nat, ghost sc: map<O, real>, ghost m: map<O, Node?<O>>)
        returns (deleted: nat, ghost gone: set<O>)
      requires Lists(sc) && Holds(dict, m) && PointsInto(m, zsl.nodes) && lo <= hi < |sc|
      modifies zsl, zsl.nodes, dict, dict.Nodes()
      ensures Lists(sc - gone) && Holds(dict, m - gone) && PointsInto(m - gone, zsl.nodes)
      ensures dict.Nodes() <= old(dict.Nodes()) && |sc - gone| == |sc| - deleted
      ensures forall i :: 0 <= i < |zsl.nodes| ==> zsl.nodes[i] in old(zsl.nodes)
      ensures sc - gone == OtherRanks(zsl.cmp, sc, lo, hi)
    {
      hide Lists, Zsl.Valid, Zsl.Chained, Agree, SortedKeys, KeysOf, ObjsOf, Unique, Without, TotalOrder, OtherRanks;
      hide PointsInto, Holds;
      ListFacts(sc);
      ghost var es, ns := zsl.Entries(), zsl.nodes;
      ghost var from;
      deleted, from := zsl.DeleteRangeByRank(lo + 1, hi + 1, dict, m);
      gone := ObjsOf(es[from..from + deleted]);
      zsl.HasParts();
      RanksGone(zsl.cmp, es, sc, from, from + deleted);
      RangeGone(es, ns, sc, m, from, from + deleted);
    }

    // ----- ranks

    /** zrankGenericCommand. */
    method Rank(ele: O, reverse: bool) returns (r: Option<int>)
      requires Valid()
      modifies dict, dict.Nodes()
      ensures Valid() && dict.Nodes() == old(dict.Nodes())
      ensures ele !in scores ==> r == None
      ensures ele in scores ==>
        var rank := RankIn(zsl.cmp, scores, ele);
        rank < |scores| && r == Some(if reverse then |scores| - 1 - rank else rank)
    {
      hide Valid, Zsl.Valid, Zsl.Chained, SortedKeys, KeysOf, TotalOrder, RankIn, Agree, StopsAt;
      var de := Lookup(ele);
      Facts();
      if de == null {
        return None;
      }
      Present(scores, ele, de.val.score);
      var rank := zsl.GetRank(de.val.score, ele);
      RankIsIndex(zsl.cmp, zsl.Entries(), scores, rank - 1);
      return Some(if reverse then zsl.length - rank else rank - 1);
    }

    /** zslGetElementByRank undoes zslGetRank: the rank of a member leads to its node. */
    method ElementOfRankOf(ele: O) returns (rank: nat, x: Node?<O>)
      requires Valid() && ele in scores
      modifies dict, dict.Nodes()
      ensures Valid() && 1 <= rank <= |scores| && rank == RankIn(zsl.cmp, scores, ele) + 1
      ensures x == zsl.NodeAt(rank) && x != null && x.obj == Some(ele) && x.score == scores[ele]
    {
      hide Valid, Zsl.Valid, Zsl.Chained, SortedKeys, KeysOf, TotalOrder, RankIn, Agree, StopsAt;
      var de := Lookup(ele);
      Facts();
      Present(scores, ele, de.val.score);
      rank := zsl.GetRank(de.val.score, ele);
      RankIsIndex(zsl.cmp, zsl.Entries(), scores, rank - 1);
      x := zsl.GetElementByRank(rank);
      Member(rank);
    }

    /** zslGetRank undoes zslGetElementByRank: the node of a rank has that rank, and only 1..|scores| are ranks. */
    method RankOfElementAt(rank: nat) returns (x: Node?<O>, r: nat)
      requires Valid() && rank > 0
      ensures x == zsl.NodeAt(rank) && (x != null <==> rank <= |scores|)
      ensures x != null ==> x.obj.Some? && r == rank
    {
      hide Lists, Holds, PointsInto, Zsl.Valid, Zsl.Chained, SortedKeys, KeysOf, TotalOrder, RankIn, Agree, StopsAt;
      Facts();
      x := zsl.GetElementByRank(rank);
      assert dict.Nodes() == old(dict.Nodes()) && Lists(scores) && Holds(dict, pointers);
      r := 0;
      if x != null {
        Member(rank);
        r := zsl.GetRank(x.score, x.obj.value);
        RankIsIndex(zsl.cmp, zsl.Entries(), scores, rank - 1);
        RankIsIndex(zsl.cmp, zsl.Entries(), scores, r - 1);
      }
    }

    /** The node of a rank, its key and its member. */
    lemma Member(k: nat)
      requires Valid() && 1 <= k < |zsl.nodes|
      ensures zsl.NodeAt(k) == zsl.nodes[k] && zsl.nodes[k].obj.Some? && zsl.nodes[k].obj.value in scores
      ensures scores[zsl.nodes[k].obj.value] == zsl.nodes[k].score
      ensures zsl.Parts() && k <= |zsl.Entries()|
        && zsl.Entries()[k - 1] == Key(zsl.nodes[k].score, zsl.nodes[k].obj.value)
    {
      hide Zsl.Valid, Zsl.Chained, SortedKeys, KeysOf, TotalOrder, StopsAt;
      zsl.StepsAt(k);
    }

    lemma Scores()
      requires zsl.Valid()
      ensures zsl.Valid() && zsl.Parts() && Nondecreasing(zsl.Entries())
        && zsl.length == |zsl.Entries()| == |zsl.nodes| - 1
    {
      hide Good, Distinct, Mirrored, TotalOrder;
    }

    /** zrangeGenericCommand: the keys of the positions start to end, from either side. */
    method Range(start: int, end: int, reverse: bool) returns (items: seq<Key<O>>)
      requires zsl.Valid()
      ensures zsl.Parts()
      ensures var es := zsl.Entries(); var n := |es|;
        var lo, hi := if FromEnd(start, n) < 0 then 0 else FromEnd(start, n), Min(FromEnd(end, n), n - 1);
        && |items| == (if lo > hi then 0 else hi - lo + 1)
        && forall j :: 0 <= j < |items| ==> items[j] == es[if reverse then n - 1 - (lo + j) else lo + j]
    {
      hide Zsl.Valid, Zsl.Chained, KeysOf, Nondecreasing;
      Scores();
      zsl.EndsAt();
      items := [];
      var llen := zsl.length;
      var lo := if start < 0 then llen + start else start;
      var hi := if end < 0 then llen + end else end;
      lo := if lo < 0 then 0 else lo;
      if lo > hi || lo >= llen {
        return;
      }
      hi := if hi >= llen then llen - 1 else hi;
      var ln: Node?<O>;
      if reverse {
        if lo == 0 { ln := zsl.tail; } else { ln := zsl.GetElementByRank(llen - lo); }
      } else {
        if lo == 0 { ln := zsl.header.forward[0]; } else { ln := zsl.GetElementByRank(lo + 1); }
      }
      items := Collect(ln, if reverse then llen - lo else lo + 1, reverse, hi - lo + 1);
    }

    /** The output loop of zrangeGenericCommand. */
    method Collect(first: Node?<O>, ghost k: nat, reverse: bool, rangelen: nat) returns (items: seq<Key<O>>)
      requires zsl.Valid() && zsl.Parts() && first == zsl.NodeAt(k)
      requires 1 <= k <= |zsl.Entries()| && (if reverse then rangelen <= k else k - 1 + rangelen <= |zsl.Entries()|)
      ensures |items| == rangelen
      ensures forall j :: 0 <= j < rangelen ==> items[j] == zsl.Entries()[if reverse then k - 1 - j else k - 1 + j]
    {
      hide Zsl.Valid, Zsl.Chained, KeysOf, Nondecreasing;
      Scores();
      items := [];
      var ln := first;
      for j := 0 to rangelen
        invariant ln == zsl.NodeAt(if reverse then k - j else k + j) && |items| == j
        invariant forall i :: 0 <= i < j ==> items[i] == zsl.Entries()[if reverse then k - 1 - i else k - 1 + i]
      {
        zsl.StepsAt(if reverse then k - j else k + j);
        items := items + [Key(ln.score, ln.obj.value)];
        ln := if reverse then ln.backward else ln.forward[0];
      }
    }

    /** genericZrangebyscoreCommand, forward: the first element of the interval. */
    method SeekForward(range: SkipList.Range) returns (ln: Node?<O>, ghost k: nat)
      requires zsl.Valid() && zsl.Parts()
      ensures 1 <= k <= |zsl.Entries()| + 1 && ln == zsl.NodeAt(k)
      ensures forall i :: 0 <= i < |zsl.Entries()| ==> (BelowMin(range, zsl.Entries()[i].score) <==> i + 1 < k)
    {
      hide Zsl.Valid, Zsl.Chained, KeysOf;
      Scores();
      ghost var at;
      ln, at := zsl.FirstWithScore(range.min);
      k := at + 1;
      if range.minex {
        while ln != null && ln.score == range.min
          invariant at + 1 <= k <= |zsl.Entries()| + 1 && ln == zsl.NodeAt(k)
          invariant forall i :: 0 <= i < k - 1 ==> zsl.Entries()[i].score <= range.min
          decreases |zsl.Entries()| + 1 - k
        {
          zsl.StepsAt(k);
          ln, k := ln.forward[0], k + 1;
        }
        if k <= |zsl.Entries()| {
          zsl.StepsAt(k);
          assert forall i :: k - 1 <= i < |zsl.Entries()| ==> zsl.Entries()[k - 1].score <= zsl.Entries()[i].score;
        }
      }
    }

    /** genericZrangebyscoreCommand, reversed: the last element of the interval that starts at its upper end. */
    method SeekBackward(range: SkipList.Range) returns (ln: Node?<O>, ghost k: nat)
      requires zsl.Valid() && zsl.Parts()
      ensures k <= |zsl.Entries()| && ln == zsl.NodeAt(k)
      ensures forall i :: 0 <= i < |zsl.Entries()| ==> (UpToFirst(range, zsl.Entries()[i].score) <==> i + 1 <= k)
    {
      hide Zsl.Valid, Zsl.Chained, KeysOf;
      Scores();
      ghost var at;
      ln, at := zsl.FirstWithScore(range.min);
      k := at + 1;
      if ln == null {
        zsl.EndsAt();
        ln, k := zsl.tail, |zsl.Entries()|;
      }
      while ln != null && ln.score > range.min
        invariant at <= k <= |zsl.Entries()| && ln == zsl.NodeAt(k)
        invariant forall i :: k <= i < |zsl.Entries()| ==> zsl.Entries()[i].score >= range.min
        invariant k == at ==> forall i :: k <= i < |zsl.Entries()| ==> zsl.Entries()[i].score > range.min
        decreases k
      {
        zsl.StepsAt(k);
        assert forall i :: k - 1 <= i < |zsl.Entries()| ==> zsl.Entries()[k - 1].score <= zsl.Entries()[i].score;
        ln, k := ln.backward, k - 1;
      }
      if range.minex {
        ln, k := BackOverEqual(range.min, ln, k);
      } else {
        ln, k := ForwardOverEqual(range.min, ln, k);
      }
    }

    /** Find the last element with a score less than the bound. */
    method BackOverEqual(bound: real, first: Node?<O>, ghost from: nat) returns (ln: Node?<O>, ghost k: nat)
      requires zsl.Valid() && zsl.Parts() && from <= |zsl.Entries()| && first == zsl.NodeAt(from)
      requires forall i :: 0 <= i < |zsl.Entries()| ==>
        (i + 1 <= from ==> zsl.Entries()[i].score <= bound) && (from <= i ==> zsl.Entries()[i].score >= bound)
      ensures k <= |zsl.Entries()| && ln == zsl.NodeAt(k)
      ensures forall i :: 0 <= i < |zsl.Entries()| ==> (zsl.Entries()[i].score < bound <==> i + 1 <= k)
    {
      hide Zsl.Valid, Zsl.Chained, KeysOf;
      Scores();
      ln, k := first, from;
      while ln != null && ln.score == bound
        invariant k <= from && ln == zsl.NodeAt(k)
        invariant forall i :: k <= i < |zsl.Entries()| ==> zsl.Entries()[i].score >= bound
        decreases k
      {
        zsl.StepsAt(k);
        ln, k := ln.backward, k - 1;
      }
      if k >= 1 {
        zsl.StepsAt(k);
        assert forall i :: 0 <= i <= k - 1 ==> zsl.Entries()[i].score <= zsl.Entries()[k - 1].score;
      }
    }

    /** Find the last element with a score not greater than the bound. */
    method ForwardOverEqual(bound: real, first: Node?<O>, ghost from: nat) returns (ln: Node?<O>, ghost k: nat)
      requires zsl.Valid() && zsl.Parts() && from <= |zsl.Entries()| && first == zsl.NodeAt(from)
      requires forall i :: 0 <= i < |zsl.Entries()| ==>
        (i + 1 <= from ==> zsl.Entries()[i].score <= bound)
        && (from <= i ==> zsl.Entries()[i].score >= bound && (from == 0 ==> zsl.Entries()[i].score > bound))
      ensures k <= |zsl.Entries()| && ln == zsl.NodeAt(k)
      ensures forall i :: 0 <= i < |zsl.Entries()| ==> (zsl.Entries()[i].score <= bound <==> i + 1 <= k)
    {
      hide Zsl.Valid, Zsl.Chained, KeysOf;
      Scores();
      ln, k := first, from;
      if ln == null {
        return;
      }
      zsl.StepsAt(k);
      while ln.forward[0] != null && ln.forward[0].score == bound
        invariant from <= k <= |zsl.Entries()| && 1 <= k && ln == zsl.NodeAt(k) != null
        invariant |ln.forward| >= 1 && ln.forward[0] == zsl.NodeAt(k + 1)
        invariant forall i :: 0 <= i < k ==> zsl.Entries()[i].score <= bound
        decreases |zsl.Entries()| - k
      {
        zsl.StepsAt(k + 1);
        ln, k := ln.forward[0], k + 1;
      }
      if k < |zsl.Entries()| {
        zsl.StepsAt(k + 1);
        assert forall i :: k <= i < |zsl.Entries()| ==> zsl.Entries()[k].score <= zsl.Entries()[i].score;
      }
    }

    /** genericZrangebyscoreCommand: the members of the interval from..to, up to the limit unless it is negative. */
    method RangeByScore(range: SkipList.Range, reverse: bool, limit: int, justcount: bool)
        returns (items: seq<Key<O>>, rangelen: nat, ghost from: nat, ghost to: nat)
      requires zsl.Valid()
      ensures zsl.Parts() && from <= to <= |zsl.Entries()|
      ensures forall i :: 0 <= i < |zsl.Entries()| ==>
        (InRange(Meant(range, reverse), zsl.Entries()[i].score) <==> from <= i < to)
      ensures rangelen == if limit < 0 then to - from else Min(limit, to - from)
      ensures |items| == if justcount then 0 else rangelen
      ensures forall j :: 0 <= j < |items| ==> items[j] == zsl.Entries()[if reverse then to - 1 - j else from + j]
    {
      hide Zsl.Valid, Zsl.Chained, KeysOf, Passes, BelowMin, UpToFirst, InRange, Meant;
      Scores();
      var ln: Node?<O>;
      ghost var k: nat;
      if reverse {
        ln, k := SeekBackward(range);
      } else {
        ln, k := SeekForward(range);
      }
      ghost var c := CountPassing(zsl.Entries(), range, reverse, k);
      PassingIsInterval(zsl.Entries(), range, reverse, k, c);
      from, to := if reverse then k - c else k - 1, if reverse then k else k - 1 + c;
      items, rangelen := TakePassing(range, reverse, limit, justcount, ln, k, c);
    }

    /** The output loop of genericZrangebyscoreCommand. */
    method TakePassing(range: SkipList.Range, reverse: bool, limit: int, justcount: bool, first: Node?<O>,
        ghost k: nat, ghost c: nat)
        returns (items: seq<Key<O>>, rangelen: nat)
      requires zsl.Valid() && zsl.Parts() && first == zsl.NodeAt(k)
      requires if reverse then c <= k <= |zsl.Entries()| else 1 <= k && k - 1 + c <= |zsl.Entries()|
      requires forall j :: 0 <= j < c ==>
        0 <= Seen(k, reverse, j) < |zsl.Entries()| && Passes(range, reverse, zsl.Entries()[Seen(k, reverse, j)].score)
      requires var i := Seen(k, reverse, c); 0 <= i < |zsl.Entries()| ==>
        !Passes(range, reverse, zsl.Entries()[i].score)
      ensures rangelen == if limit < 0 then c else Min(limit, c)
      ensures |items| == if justcount then 0 else rangelen
      ensures forall j :: 0 <= j < |items| ==>
        0 <= Seen(k, reverse, j) < |zsl.Entries()| && items[j] == zsl.Entries()[Seen(k, reverse, j)]
    {
      hide Zsl.Valid, Zsl.Chained, KeysOf, Passes;
      Scores();
      items, rangelen := [], 0;
      var ln, left := first, limit;
      while ln != null && left != 0
        invariant ln == zsl.NodeAt(Seen(k, reverse, rangelen) + 1) && left == limit - rangelen
        invariant rangelen <= c && (0 <= limit ==> rangelen <= limit)
        invariant |items| == if justcount then 0 else rangelen
        invariant forall j :: 0 <= j < |items| ==>
          0 <= Seen(k, reverse, j) < |zsl.Entries()| && items[j] == zsl.Entries()[Seen(k, reverse, j)]
        decreases c - rangelen
      {
        left := left - 1;
        zsl.StepsAt(Seen(k, reverse, rangelen) + 1);
        if !Passes(range, reverse, ln.score) {
          break;
        }
        rangelen := rangelen + 1;
        if !justcount {
          items := items + [Key(ln.score, ln.obj.value)];
        }
        ln := if reverse then ln.backward else ln.forward[0];
      }
    }

    /** One command. */
    method Perform(op: Op<O>, maxSize: nat, canResize: bool)
      requires Valid() && (op.AddOp? ==> 1 <= op.newLevel <= MAXLEVEL) && |scores| + 1 < Dict.LONG_MAX / 2
      modifies this, zsl, zsl.nodes, dict, dict.Nodes()
      ensures Valid() && scores == Apply(zsl.cmp, maxSize, old(scores), op)
      ensures forall i :: 0 <= i < |zsl.nodes| ==> zsl.nodes[i] in old(zsl.nodes) || fresh(zsl.nodes[i])
      ensures forall e :: e in dict.Nodes() ==> e in old(dict.Nodes()) || fresh(e)
    {
      hide Valid, OtherRanks, OtherScores;
      match op
      case AddOp(ele, score, incr, newLevel) => var r, made := Add(ele, score, incr, newLevel, maxSize, canResize);
      case RemoveOp(ele) => var r := Remove(ele, canResize);
      case ScoreOp(range) => var n := RemoveRangeByScore(range, canResize);
      case RankOp(start, end) => var n := RemoveRangeByRank(start, end, canResize);
    }

    /** Any run of commands, with any levels and any resizing policy, keeps skiplist and dictionary in agreement on
        what the run means. */
    method Run(ops: seq<Op<O>>, maxSize: nat, canResize: seq<bool>)
      requires Valid() && forall i :: 0 <= i < |ops| && ops[i].AddOp? ==> 1 <= ops[i].newLevel <= MAXLEVEL
      requires |canResize| == |ops| && |scores| + |ops| + 1 < Dict.LONG_MAX / 2
      modifies this, zsl, zsl.nodes, dict, dict.Nodes()
      ensures Valid() && scores == ApplyAll(zsl.cmp, maxSize, old(scores), ops)
    {
      hide Valid, Apply, Members.Nodes;
      for i := 0 to |ops|
        invariant Valid() && scores == ApplyAll(zsl.cmp, maxSize, old(scores), ops[..i])
        invariant |scores| <= |old(scores)| + i
        invariant forall j :: 0 <= j < |zsl.nodes| ==> zsl.nodes[j] in old(zsl.nodes) || fresh(zsl.nodes[j])
        invariant forall e :: e in dict.Nodes() ==> e in old(dict.Nodes()) || fresh(e)
      {
        assert ops[..i + 1][..i] == ops[..i];
        ApplyGrows(zsl.cmp, maxSize, scores, ops[i]);
        Perform(ops[i], maxSize, canResize[i]);
      }
      assert ops[..|ops|] == ops;
    }
  }
}
