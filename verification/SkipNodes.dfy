/** Skiplist nodes (redis.h) and the invariant of a whole node chain, stated on snapshots of the mutable
    node fields so that each operation is a functional update of the snapshots. */
module SkipNodes {
  import opened Options
  import opened Sequences
  import opened SkipLevels

  const MAXLEVEL := 32

  /** zskiplistNode; the header holds no object. */
  class Node<O> {
    const score: real
    const obj: Option<O>
    var forward: seq<Node?<O>>
    var span: seq<int>
    var backward: Node?<O>

    /** zslCreateNode. */
    constructor (level: nat, score: real, obj: Option<O>)
      ensures this.score == score && this.obj == obj && backward == null
      ensures |forward| == level && |span| == level
      ensures forall i :: 0 <= i < level ==> forward[i] == null && span[i] == 0
    {
      this.score := score;
      this.obj := obj;
      backward := null;
      forward := seq(level, _ => null);
      span := seq(level, _ => 0);
    }
  }

  ghost function FW<O>(nodes: seq<Node<O>>): (r: seq<seq<Node?<O>>>)
    reads nodes
    ensures |r| == |nodes| && forall k :: 0 <= k < |r| ==> r[k] == nodes[k].forward
  {
    seq(|nodes|, k requires 0 <= k < |nodes| reads nodes => nodes[k].forward)
  }

  ghost function SP<O>(nodes: seq<Node<O>>): (r: seq<seq<int>>)
    reads nodes
    ensures |r| == |nodes| && forall k :: 0 <= k < |r| ==> r[k] == nodes[k].span
  {
    seq(|nodes|, k requires 0 <= k < |nodes| reads nodes => nodes[k].span)
  }

  ghost function BW<O>(nodes: seq<Node<O>>): (r: seq<Node?<O>>)
    reads nodes
    ensures |r| == |nodes| && forall k :: 0 <= k < |r| ==> r[k] == nodes[k].backward
  {
    seq(|nodes|, k requires 0 <= k < |nodes| reads nodes => nodes[k].backward)
  }

  /** The node at index j, or NULL past the end. */
  ghost function Ref<O>(nodes: seq<Node<O>>, j: nat): Node?<O> {
    if j < |nodes| then nodes[j] else null
  }

  /** Heights fit the fields; the header has all levels, the others at most the list's level. */
  ghost predicate Shaped<O>(nodes: seq<Node<O>>, hs: seq<nat>, fw: seq<seq<Node?<O>>>, sp: seq<seq<int>>, level: nat) {
    && 1 <= |nodes| == |hs| == |fw| == |sp|
    && 1 <= level <= MAXLEVEL && hs[0] == MAXLEVEL
    && (forall k :: 0 <= k < |hs| ==> |fw[k]| == hs[k] && |sp[k]| == hs[k])
    && (forall k :: 1 <= k < |hs| ==> 1 <= hs[k] <= level)
  }

  /** Every forward pointer leads to the next node that reaches its level. */
  ghost predicate Linked<O>(nodes: seq<Node<O>>, hs: seq<nat>, fw: seq<seq<Node?<O>>>)
    requires |nodes| == |hs| == |fw| && forall k :: 0 <= k < |hs| ==> |fw[k]| == hs[k]
  {
    forall k, lv :: 0 <= k < |hs| && 0 <= lv < hs[k] ==> fw[k][lv] == Ref(nodes, Next(hs, k + 1, lv))
  }

  /** Every span below the list's level is the distance to that node, or to the last node. */
  ghost predicate Spanned(hs: seq<nat>, sp: seq<seq<int>>, level: nat)
    requires |hs| == |sp| && forall k :: 0 <= k < |hs| ==> |sp[k]| == hs[k]
  {
    forall k, lv :: 0 <= k < |hs| && 0 <= lv < hs[k] && lv < level ==> sp[k][lv] == Span(hs, k, lv)
  }

  ghost predicate Good<O>(nodes: seq<Node<O>>, hs: seq<nat>, fw: seq<seq<Node?<O>>>, sp: seq<seq<int>>, level: nat) {
    Shaped(nodes, hs, fw, sp, level) && Linked(nodes, hs, fw) && Spanned(hs, sp, level)
  }

  /** Back pointers mirror level 0 and skip the header; tail is the last node. */
  ghost predicate Mirrored<O>(nodes: seq<Node<O>>, bw: seq<Node?<O>>, tail: Node?<O>) {
    && 1 <= |nodes| == |bw|
    && (forall k :: 0 <= k < |bw| ==> bw[k] == if k <= 1 then null else nodes[k - 1])
    && tail == (if |nodes| == 1 then null else nodes[|nodes| - 1])
  }

  /** u holds, for each level below level, the last node not after the cut that reaches it. */
  predicate Preds(hs: seq<nat>, u: seq<nat>, level: nat, cut: nat) {
    |u| == level && forall lv :: 0 <= lv < level ==> Pred(hs, u[lv], lv, cut)
  }

  lemma LinkAt<O>(nodes: seq<Node<O>>, hs: seq<nat>, fw: seq<seq<Node?<O>>>, sp: seq<seq<int>>, level: nat, k: nat,
      lv: nat)
    requires Good(nodes, hs, fw, sp, level) && k < |hs| && lv < hs[k]
    ensures lv < |fw[k]| && fw[k][lv] == Ref(nodes, Next(hs, k + 1, lv))
    ensures lv < |sp[k]| && (lv < level ==> sp[k][lv] == Span(hs, k, lv))
    ensures k > 0 ==> lv < level
    ensures lv >= level ==> Next(hs, k + 1, lv) == |hs|
  {
    hide Next, Span;
    if lv >= level { NextIs(hs, 1, lv, |hs|); }
  }

  // ----- insertion on the snapshots

  /** Raising the list's level: the header spans of the new levels cover the whole list. */
  lemma Raised<O>(nodes: seq<Node<O>>, hs: seq<nat>, fw: seq<seq<Node?<O>>>, sp: seq<seq<int>>, level: nat,
                  sp': seq<seq<int>>, level': nat)
    requires Good(nodes, hs, fw, sp, level) && level <= level' <= MAXLEVEL
    requires |sp'| == |sp| && (forall k :: 0 <= k < |sp| ==> |sp'[k]| == |sp[k]|)
    requires forall k, lv :: 0 <= k < |sp| && 0 <= lv < |sp[k]| ==>
      sp'[k][lv] == if k == 0 && level <= lv < level' then |nodes| - 1 else sp[k][lv]
    ensures Good(nodes, hs, fw, sp', level')
  {
    hide Next;
    forall k, lv | 0 <= k < |hs| && 0 <= lv < hs[k] && lv < level' ensures sp'[k][lv] == Span(hs, k, lv) {
      if lv >= level {
        NextIs(hs, 1, lv, |hs|);
      }
    }
  }

  lemma PredsRaised(hs: seq<nat>, u: seq<nat>, level: nat, cut: nat, level': nat)
    requires Preds(hs, u, level, cut) && cut < |hs| && hs[0] == MAXLEVEL && level <= level' <= MAXLEVEL
    requires forall k :: 1 <= k < |hs| ==> hs[k] <= level
    ensures Preds(hs, u + seq(level' - level, _ => 0), level', cut)
  {
    var u' := u + seq(level' - level, _ => 0);
    forall lv | 0 <= lv < level' ensures Pred(hs, u'[lv], lv, cut) {
      if lv >= level {
        NextIs(hs, 1, lv, |hs|);
      }
    }
  }

  /** The forward pointers of the predecessors below height h lead to x. */
  ghost predicate Relinked<O>(fw: seq<seq<Node?<O>>>, fw': seq<seq<Node?<O>>>, u: seq<nat>, h: nat, x: Node<O>) {
    && |fw'| == |fw| && h <= |u|
    && (forall k :: 0 <= k < |fw| ==> |fw'[k]| == |fw[k]|)
    && (forall k, lv :: 0 <= k < |fw| && 0 <= lv < |fw[k]| ==>
          fw'[k][lv] == if lv < h && u[lv] == k then x else fw[k][lv])
  }

  /** The spans of the predecessors end at the new node below height h and grow by one above. */
  predicate Respanned(sp: seq<seq<int>>, sp': seq<seq<int>>, u: seq<nat>, h: nat, cut: nat) {
    && |sp'| == |sp| && h <= |u|
    && (forall k :: 0 <= k < |sp| ==> |sp'[k]| == |sp[k]|)
    && (forall k, lv :: 0 <= k < |sp| && 0 <= lv < |sp[k]| ==>
          sp'[k][lv] ==
            if lv < |u| && u[lv] == k then (if lv < h then cut - u[lv] + 1 else sp[k][lv] + 1) else sp[k][lv])
  }

  lemma RelinkedAt<O>(fw: seq<seq<Node?<O>>>, fw': seq<seq<Node?<O>>>, u: seq<nat>, h: nat, x: Node<O>, k: nat, lv: nat)
    requires Relinked(fw, fw', u, h, x) && k < |fw| && lv < |fw[k]|
    ensures lv < |fw'[k]| && fw'[k][lv] == if lv < h && u[lv] == k then x else fw[k][lv]
  {
  }

  lemma RespannedAt(sp: seq<seq<int>>, sp': seq<seq<int>>, u: seq<nat>, h: nat, cut: nat, k: nat, lv: nat)
    requires Respanned(sp, sp', u, h, cut) && k < |sp| && lv < |sp[k]|
    ensures lv < |sp'[k]|
    ensures sp'[k][lv] ==
      if lv < |u| && u[lv] == k then (if lv < h then cut - u[lv] + 1 else sp[k][lv] + 1) else sp[k][lv]
  {
  }

  lemma UnlinkedAt<O>(fw: seq<seq<Node?<O>>>, sp: seq<seq<int>>, fw': seq<seq<Node?<O>>>, sp': seq<seq<int>>,
                      u: seq<nat>, x: Node<O>, xf: seq<Node?<O>>, xs: seq<int>, k: nat, lv: nat)
    requires Unlinked(fw, sp, fw', sp', u, x, xf, xs) && k < |fw| && lv < |fw[k]|
    ensures lv < |fw'[k]| && lv < |sp[k]| && lv < |sp'[k]|
    ensures
      if lv < |u| && u[lv] == k then
        if fw[k][lv] == x then lv < |xf| && fw'[k][lv] == xf[lv] && sp'[k][lv] == sp[k][lv] + xs[lv] - 1
        else fw'[k][lv] == fw[k][lv] && sp'[k][lv] == sp[k][lv] - 1
      else fw'[k][lv] == fw[k][lv] && sp'[k][lv] == sp[k][lv]
  {
  }

  lemma PredsAt(hs: seq<nat>, u: seq<nat>, level: nat, cut: nat, lv: nat)
    requires Preds(hs, u, level, cut) && lv < level
    ensures lv < |u| && Pred(hs, u[lv], lv, cut)
  {
  }

  /** Links of the nodes up to the cut after an insertion. */
  lemma InsertedLinkBefore<O>(nodes: seq<Node<O>>, hs: seq<nat>, fw: seq<seq<Node?<O>>>, sp: seq<seq<int>>, level: nat,
                              u: seq<nat>, cut: nat, h: nat, x: Node<O>, fw': seq<seq<Node?<O>>>, k: nat, lv: nat)
    requires Good(nodes, hs, fw, sp, level) && Preds(hs, u, level, cut) && 1 <= h <= level && cut < |hs|
    requires Relinked(fw, fw', u, h, x) && k <= cut && lv < hs[k]
    ensures lv < |fw'[k]| && fw'[k][lv] == Ref(InsertAt(nodes, cut + 1, x), Next(InsertAt(hs, cut + 1, h), k + 1, lv))
  {
    hide Next, Span, Good, Pred, Preds, Relinked, InsertAt;
    InsertLength(hs, cut + 1, h);
    GoodShape(nodes, hs, fw, sp, level);
    RelinkedAt(fw, fw', u, h, x, k, lv);
    LinkAt(nodes, hs, fw, sp, level, k, lv);
    RefInsert(nodes, cut + 1, x, Next(hs, k + 1, lv));
    if lv < level {
      PredsAt(hs, u, level, cut, lv);
      InsertBeforeCut(hs, u[lv], h, lv, cut, k);
    } else {
      NextInsertBefore(hs, cut + 1, h, 1, lv);
    }
  }

  lemma RefInsert<O>(nodes: seq<Node<O>>, p: nat, x: Node<O>, j: nat)
    requires p <= |nodes|
    ensures Ref(InsertAt(nodes, p, x), p) == x
      && Ref(InsertAt(nodes, p, x), if j < p then j else j + 1) == Ref(nodes, j)
  {
  }

  lemma RefRemove<O>(nodes: seq<Node<O>>, p: nat, j: nat)
    requires p < |nodes| && j != p
    ensures Ref(RemoveAt(nodes, p), if j < p then j else j - 1) == Ref(nodes, j)
  {
  }

  lemma InsertLength(hs: seq<nat>, p: nat, h: nat)
    requires p <= |hs|
    ensures |InsertAt(hs, p, h)| == |hs| + 1
  {
  }

  lemma GoodShape<O>(nodes: seq<Node<O>>, hs: seq<nat>, fw: seq<seq<Node?<O>>>, sp: seq<seq<int>>, level: nat)
    requires Good(nodes, hs, fw, sp, level)
    ensures Shaped(nodes, hs, fw, sp, level)
  {
  }

  /** Links of the nodes behind the cut. */
  lemma InsertedLinkBehind<O>(nodes: seq<Node<O>>, hs: seq<nat>, fw: seq<seq<Node?<O>>>, sp: seq<seq<int>>, level: nat,
                              u: seq<nat>, cut: nat, h: nat, x: Node<O>, fw': seq<seq<Node?<O>>>, k: nat, lv: nat)
    requires Good(nodes, hs, fw, sp, level) && Preds(hs, u, level, cut) && 1 <= h <= level
    requires Relinked(fw, fw', u, h, x) && cut < k < |nodes| == |hs| && lv < hs[k]
    ensures k < |fw'| && lv < |fw'[k]|
      && fw'[k][lv] == Ref(InsertAt(nodes, cut + 1, x), Next(InsertAt(hs, cut + 1, h), k + 2, lv))
  {
    hide Next, Span, Good, Pred, Preds, InsertAt;
    InsertLength(hs, cut + 1, h);
    GoodShape(nodes, hs, fw, sp, level);
    LinkAt(nodes, hs, fw, sp, level, k, lv);
    InsertBehindCut(hs, h, lv, cut, k);
    PredsAt(hs, u, level, cut, lv);
    PredReaches(hs, u[lv], lv, cut);
    RelinkedAt(fw, fw', u, h, x, k, lv);
  }

  /** Links of the new node. */
  lemma InsertedLinkNew<O>(nodes: seq<Node<O>>, hs: seq<nat>, fw: seq<seq<Node?<O>>>, sp: seq<seq<int>>, level: nat,
                           u: seq<nat>, cut: nat, h: nat, x: Node<O>, lv: nat)
    requires Good(nodes, hs, fw, sp, level) && Preds(hs, u, level, cut) && lv < h <= level && cut < |nodes| == |hs|
    ensures lv < |u| && u[lv] < |fw| && lv < |fw[u[lv]]| && u[lv] < |sp| && lv < |sp[u[lv]]|
    ensures fw[u[lv]][lv] == Ref(InsertAt(nodes, cut + 1, x), Next(InsertAt(hs, cut + 1, h), cut + 2, lv))
    ensures sp[u[lv]][lv] - (cut - u[lv]) == Span(InsertAt(hs, cut + 1, h), cut + 1, lv)
  {
    hide Next, Span, Good, Pred, Preds, InsertAt;
    InsertLength(hs, cut + 1, h);
    GoodShape(nodes, hs, fw, sp, level);
    PredsAt(hs, u, level, cut, lv);
    PredReaches(hs, u[lv], lv, cut);
    PredAhead(hs, u[lv], lv, cut);
    InsertNew(hs, u[lv], h, lv, cut);
    LinkAt(nodes, hs, fw, sp, level, u[lv], lv);
  }

  lemma PredAhead(hs: seq<nat>, u: nat, lv: nat, cut: nat)
    requires Pred(hs, u, lv, cut)
    ensures Next(hs, u + 1, lv) > cut
  {
  }

  lemma PredReaches(hs: seq<nat>, u: nat, lv: nat, cut: nat)
    requires Pred(hs, u, lv, cut)
    ensures u <= cut < |hs| && hs[u] > lv
  {
  }

  /** Spans of the nodes up to the cut. */
  lemma InsertedSpanBefore<O>(nodes: seq<Node<O>>, hs: seq<nat>, fw: seq<seq<Node?<O>>>, sp: seq<seq<int>>, level: nat,
                              u: seq<nat>, cut: nat, h: nat, sp': seq<seq<int>>, k: nat, lv: nat)
    requires Good(nodes, hs, fw, sp, level) && Preds(hs, u, level, cut) && cut < |nodes| == |hs| == |sp|
    requires Respanned(sp, sp', u, h, cut) && k <= cut && lv < hs[k] && lv < level
    ensures k < |sp'| && lv < |sp'[k]| && sp'[k][lv] == Span(InsertAt(hs, cut + 1, h), k, lv)
  {
    hide Next, Span, Good, Pred, Preds, InsertAt;
    InsertLength(hs, cut + 1, h);
    GoodShape(nodes, hs, fw, sp, level);
    PredsAt(hs, u, level, cut, lv);
    RespannedAt(sp, sp', u, h, cut, k, lv);
    LinkAt(nodes, hs, fw, sp, level, k, lv);
    InsertBeforeCut(hs, u[lv], h, lv, cut, k);
  }

  /** Spans of the nodes behind the cut. */
  lemma InsertedSpanBehind<O>(nodes: seq<Node<O>>, hs: seq<nat>, fw: seq<seq<Node?<O>>>, sp: seq<seq<int>>, level: nat,
                              u: seq<nat>, cut: nat, h: nat, sp': seq<seq<int>>, k: nat, lv: nat)
    requires Good(nodes, hs, fw, sp, level) && Preds(hs, u, level, cut) && cut < k < |nodes| == |hs| == |sp|
    requires Respanned(sp, sp', u, h, cut) && lv < hs[k] && lv < level
    ensures k < |sp'| && lv < |sp'[k]| && sp'[k][lv] == Span(InsertAt(hs, cut + 1, h), k + 1, lv)
  {
    hide Next, Span, Good, Pred, Preds, InsertAt;
    InsertLength(hs, cut + 1, h);
    GoodShape(nodes, hs, fw, sp, level);
    PredsAt(hs, u, level, cut, lv);
    PredReaches(hs, u[lv], lv, cut);
    RespannedAt(sp, sp', u, h, cut, k, lv);
    LinkAt(nodes, hs, fw, sp, level, k, lv);
    InsertBehindCut(hs, h, lv, cut, k);
  }

  /** What zslInsert writes: the predecessors' fields and those of the new node. */
  ghost predicate Written<O>(fw: seq<seq<Node?<O>>>, sp: seq<seq<int>>, u: seq<nat>, cut: nat, h: nat, x: Node<O>,
                             fw': seq<seq<Node?<O>>>, sp': seq<seq<int>>, xf: seq<Node?<O>>, xs: seq<int>)
  {
    && Relinked(fw, fw', u, h, x) && Respanned(sp, sp', u, h, cut) && |xf| == h && |xs| == h
    && (forall lv :: 0 <= lv < h ==> u[lv] < |fw| && lv < |fw[u[lv]]| && xf[lv] == fw[u[lv]][lv])
    && (forall lv :: 0 <= lv < h ==> u[lv] < |sp| && lv < |sp[u[lv]]| && xs[lv] == sp[u[lv]][lv] - (cut - u[lv]))
  }

  lemma InsertedShape<O>(nodes: seq<Node<O>>, hs: seq<nat>, fw: seq<seq<Node?<O>>>, sp: seq<seq<int>>, level: nat,
                         u: seq<nat>, cut: nat, h: nat, x: Node<O>,
                         fw': seq<seq<Node?<O>>>, sp': seq<seq<int>>, xf: seq<Node?<O>>, xs: seq<int>)
    requires Shaped(nodes, hs, fw, sp, level) && 1 <= h <= level && cut < |hs|
      && Written(fw, sp, u, cut, h, x, fw', sp', xf, xs)
    ensures |fw'| == |sp'| == |hs|
    ensures Shaped(InsertAt(nodes, cut + 1, x), InsertAt(hs, cut + 1, h), InsertAt(fw', cut + 1, xf),
        InsertAt(sp', cut + 1, xs), level)
  {
  }

  lemma InsertedLinks<O>(nodes: seq<Node<O>>, hs: seq<nat>, fw: seq<seq<Node?<O>>>, sp: seq<seq<int>>, level: nat,
                         u: seq<nat>, cut: nat, h: nat, x: Node<O>,
                         fw': seq<seq<Node?<O>>>, sp': seq<seq<int>>, xf: seq<Node?<O>>, xs: seq<int>)
    requires Good(nodes, hs, fw, sp, level) && Preds(hs, u, level, cut) && 1 <= h <= level
      && cut < |hs| == |nodes| == |fw'|
    requires Written(fw, sp, u, cut, h, x, fw', sp', xf, xs)
    requires var hs' := InsertAt(hs, cut + 1, h); var f := InsertAt(fw', cut + 1, xf);
      |f| == |hs'| && (forall k :: 0 <= k < |hs'| ==> |f[k]| == hs'[k])
    ensures Linked(InsertAt(nodes, cut + 1, x), InsertAt(hs, cut + 1, h), InsertAt(fw', cut + 1, xf))
  {
    hide Next, Span, Good, Preds, Relinked, Respanned;
    var hs' := InsertAt(hs, cut + 1, h);
    var f := InsertAt(fw', cut + 1, xf);
    forall k, lv | 0 <= k < |hs'| && 0 <= lv < hs'[k]
        ensures f[k][lv] == Ref(InsertAt(nodes, cut + 1, x), Next(hs', k + 1, lv)) {
      if k <= cut {
        InsertedLinkBefore(nodes, hs, fw, sp, level, u, cut, h, x, fw', k, lv);
      } else if k == cut + 1 {
        InsertedLinkNew(nodes, hs, fw, sp, level, u, cut, h, x, lv);
      } else {
        InsertedLinkBehind(nodes, hs, fw, sp, level, u, cut, h, x, fw', k - 1, lv);
      }
    }
  }

  lemma InsertedSpans<O>(nodes: seq<Node<O>>, hs: seq<nat>, fw: seq<seq<Node?<O>>>, sp: seq<seq<int>>, level: nat,
                         u: seq<nat>, cut: nat, h: nat, x: Node<O>,
                         fw': seq<seq<Node?<O>>>, sp': seq<seq<int>>, xf: seq<Node?<O>>, xs: seq<int>)
    requires Good(nodes, hs, fw, sp, level) && Preds(hs, u, level, cut) && 1 <= h <= level
      && cut < |hs| == |nodes| == |sp| == |sp'|
    requires Written(fw, sp, u, cut, h, x, fw', sp', xf, xs)
    requires var hs' := InsertAt(hs, cut + 1, h); var f := InsertAt(sp', cut + 1, xs);
      |f| == |hs'| && (forall k :: 0 <= k < |hs'| ==> |f[k]| == hs'[k])
    ensures Spanned(InsertAt(hs, cut + 1, h), InsertAt(sp', cut + 1, xs), level)
  {
    hide Next, Span, Good, Preds, Relinked, Respanned;
    var hs' := InsertAt(hs, cut + 1, h);
    var f := InsertAt(sp', cut + 1, xs);
    forall k, lv | 0 <= k < |hs'| && 0 <= lv < hs'[k] && lv < level ensures f[k][lv] == Span(hs', k, lv) {
      if k <= cut {
        InsertedSpanBefore(nodes, hs, fw, sp, level, u, cut, h, sp', k, lv);
      } else if k == cut + 1 {
        InsertedLinkNew(nodes, hs, fw, sp, level, u, cut, h, x, lv);
      } else {
        InsertedSpanBehind(nodes, hs, fw, sp, level, u, cut, h, sp', k - 1, lv);
      }
    }
  }

  /** A node of height h behind the cut, linked and measured as zslInsert does, keeps the chain good. */
  lemma InsertGood<O>(nodes: seq<Node<O>>, hs: seq<nat>, fw: seq<seq<Node?<O>>>, sp: seq<seq<int>>, level: nat,
                      u: seq<nat>, cut: nat, h: nat, x: Node<O>,
                      fw': seq<seq<Node?<O>>>, sp': seq<seq<int>>, xf: seq<Node?<O>>, xs: seq<int>)
    requires Good(nodes, hs, fw, sp, level) && Preds(hs, u, level, cut) && 1 <= h <= level && cut < |hs| == |nodes|
    requires Written(fw, sp, u, cut, h, x, fw', sp', xf, xs)
    ensures |fw'| == |sp'| == |hs|
    ensures Good(InsertAt(nodes, cut + 1, x), InsertAt(hs, cut + 1, h), InsertAt(fw', cut + 1, xf),
        InsertAt(sp', cut + 1, xs), level)
  {
    hide Preds, Linked, Spanned, Written, InsertAt;
    InsertedShape(nodes, hs, fw, sp, level, u, cut, h, x, fw', sp', xf, xs);
    InsertedLinks(nodes, hs, fw, sp, level, u, cut, h, x, fw', sp', xf, xs);
    InsertedSpans(nodes, hs, fw, sp, level, u, cut, h, x, fw', sp', xf, xs);
  }

  /** The back pointers after zslInsert. */
  ghost function BackInserted<O>(nodes: seq<Node<O>>, bw: seq<Node?<O>>, cut: nat, x: Node<O>): (r: seq<Node?<O>>)
    requires cut < |nodes| == |bw|
  {
    InsertAt(if cut + 1 == |nodes| then bw else bw[cut + 1 := x], cut + 1, if cut == 0 then null else nodes[cut])
  }

  lemma BackInsertedAt<O>(nodes: seq<Node<O>>, bw: seq<Node?<O>>, tail: Node?<O>, cut: nat, x: Node<O>, k: nat)
    requires Mirrored(nodes, bw, tail) && cut < |nodes| && k <= |nodes|
    ensures |BackInserted(nodes, bw, cut, x)| == |InsertAt(nodes, cut + 1, x)| == |nodes| + 1
    ensures BackInserted(nodes, bw, cut, x)[k] == if k <= 1 then null else InsertAt(nodes, cut + 1, x)[k - 1]
  {
    hide InsertAt;
    InsertIs(if cut + 1 == |nodes| then bw else bw[cut + 1 := x], cut + 1, if cut == 0 then null else nodes[cut], k);
    InsertIs(nodes, cut + 1, x, if k == 0 then 0 else k - 1);
  }

  lemma InsertMirrored<O>(nodes: seq<Node<O>>, bw: seq<Node?<O>>, tail: Node?<O>, cut: nat, x: Node<O>)
    requires Mirrored(nodes, bw, tail) && cut < |nodes|
    ensures Mirrored(InsertAt(nodes, cut + 1, x), BackInserted(nodes, bw, cut, x),
      if cut + 1 == |nodes| then x else tail)
  {
    hide InsertAt, BackInserted;
    BackInsertedAt(nodes, bw, tail, cut, x, 0);
    InsertIs(nodes, cut + 1, x, |nodes|);
    var ns, bs := InsertAt(nodes, cut + 1, x), BackInserted(nodes, bw, cut, x);
    forall k | 0 <= k < |bs| ensures bs[k] == if k <= 1 then null else ns[k - 1] {
      BackInsertedAt(nodes, bw, tail, cut, x, k);
    }
  }

  /** The snapshots of a chain with one more node. */
  lemma InsertSnapshots<O>(nodes: seq<Node<O>>, p: nat, x: Node<O>)
    requires p <= |nodes|
    ensures FW(InsertAt(nodes, p, x)) == InsertAt(FW(nodes), p, x.forward)
    ensures SP(InsertAt(nodes, p, x)) == InsertAt(SP(nodes), p, x.span)
    ensures BW(InsertAt(nodes, p, x)) == InsertAt(BW(nodes), p, x.backward)
  {
  }

  /** The snapshots of a chain with one node less. */
  lemma RemoveSnapshots<O>(nodes: seq<Node<O>>, p: nat)
    requires p < |nodes|
    ensures FW(RemoveAt(nodes, p)) == RemoveAt(FW(nodes), p)
    ensures SP(RemoveAt(nodes, p)) == RemoveAt(SP(nodes), p)
    ensures BW(RemoveAt(nodes, p)) == RemoveAt(BW(nodes), p)
  {
  }

  // ----- removal on the snapshots

  /** Predecessors that point at x skip to where x points; the spans of all predecessors lose one position. */
  ghost predicate Unlinked<O>(fw: seq<seq<Node?<O>>>, sp: seq<seq<int>>, fw': seq<seq<Node?<O>>>, sp': seq<seq<int>>,
                              u: seq<nat>, x: Node<O>, xf: seq<Node?<O>>, xs: seq<int>)
  {
    && |fw'| == |fw| == |sp| == |sp'| && |xs| == |xf|
    && (forall k :: 0 <= k < |fw| ==> |fw'[k]| == |fw[k]| == |sp[k]| == |sp'[k]|)
    && (forall k, lv :: 0 <= k < |fw| && 0 <= lv < |fw[k]| ==>
          if lv < |u| && u[lv] == k then
            if fw[k][lv] == x then lv < |xf| && fw'[k][lv] == xf[lv] && sp'[k][lv] == sp[k][lv] + xs[lv] - 1
            else fw'[k][lv] == fw[k][lv] && sp'[k][lv] == sp[k][lv] - 1
          else fw'[k][lv] == fw[k][lv] && sp'[k][lv] == sp[k][lv])
  }

  lemma RemovedBefore<O>(nodes: seq<Node<O>>, hs: seq<nat>, fw: seq<seq<Node?<O>>>, sp: seq<seq<int>>, level: nat,
                         u: seq<nat>, cut: nat, fw': seq<seq<Node?<O>>>, sp': seq<seq<int>>, k: nat, lv: nat)
    requires Good(nodes, hs, fw, sp, level) && Preds(hs, u, level, cut) && cut + 1 < |nodes| == |hs| == |fw| == |sp|
      && Distinct(nodes)
    requires Unlinked(fw, sp, fw', sp', u, nodes[cut + 1], fw[cut + 1], sp[cut + 1])
    requires k <= cut && lv < hs[k]
    ensures var hs' := RemoveAt(hs, cut + 1);
      && lv < |fw'[k]| && lv < |sp'[k]|
      && fw'[k][lv] == Ref(RemoveAt(nodes, cut + 1), Next(hs', k + 1, lv))
      && (lv < level ==> sp'[k][lv] == Span(hs', k, lv))
  {
    hide Next, Span, Good, Preds, Pred, Unlinked, RemoveAt;
    RemoveLength(hs, cut + 1);
    GoodShape(nodes, hs, fw, sp, level);
    LinkAt(nodes, hs, fw, sp, level, k, lv);
    UnlinkedAt(fw, sp, fw', sp', u, nodes[cut + 1], fw[cut + 1], sp[cut + 1], k, lv);
    if Next(hs, k + 1, lv) != cut + 1 {
      RefRemove(nodes, cut + 1, Next(hs, k + 1, lv));
    }
    if lv >= level {
      PredsLength(hs, u, level, cut);
      NextRemoveBefore(hs, cut + 1, 1, lv);
    } else {
      PredsAt(hs, u, level, cut, lv);
      RemoveBeforeCut(hs, u[lv], lv, cut, k);
      if hs[cut + 1] > lv {
        LinkAt(nodes, hs, fw, sp, level, cut + 1, lv);
        RefRemove(nodes, cut + 1, Next(hs, cut + 2, lv));
      }
    }
  }

  lemma RemoveLength(hs: seq<nat>, p: nat)
    requires p < |hs|
    ensures |RemoveAt(hs, p)| == |hs| - 1
  {
  }

  lemma PredsLength(hs: seq<nat>, u: seq<nat>, level: nat, cut: nat)
    requires Preds(hs, u, level, cut)
    ensures |u| == level
  {
  }

  lemma RemovedBehind<O>(nodes: seq<Node<O>>, hs: seq<nat>, fw: seq<seq<Node?<O>>>, sp: seq<seq<int>>, level: nat,
                         u: seq<nat>, cut: nat, fw': seq<seq<Node?<O>>>, sp': seq<seq<int>>, k: nat, lv: nat)
    requires Good(nodes, hs, fw, sp, level) && Preds(hs, u, level, cut) && cut + 1 < |nodes| == |hs| == |fw| == |sp|
      && Distinct(nodes)
    requires Unlinked(fw, sp, fw', sp', u, nodes[cut + 1], fw[cut + 1], sp[cut + 1])
    requires cut + 1 < k < |hs| && lv < hs[k]
    ensures var hs' := RemoveAt(hs, cut + 1);
      && lv < |fw'[k]| && lv < |sp'[k]|
      && fw'[k][lv] == Ref(RemoveAt(nodes, cut + 1), Next(hs', k, lv))
      && (lv < level ==> sp'[k][lv] == Span(hs', k - 1, lv))
  {
    hide Next, Span, Good, Preds, Pred, Unlinked, RemoveAt;
    RemoveLength(hs, cut + 1);
    GoodShape(nodes, hs, fw, sp, level);
    LinkAt(nodes, hs, fw, sp, level, k, lv);
    UnlinkedAt(fw, sp, fw', sp', u, nodes[cut + 1], fw[cut + 1], sp[cut + 1], k, lv);
    PredsAt(hs, u, level, cut, lv);
    PredReaches(hs, u[lv], lv, cut);
    RemoveBehindCut(hs, lv, cut, k);
  }

  lemma RemovedShape<O>(nodes: seq<Node<O>>, hs: seq<nat>, fw: seq<seq<Node?<O>>>, sp: seq<seq<int>>, level: nat,
                        u: seq<nat>, cut: nat, fw': seq<seq<Node?<O>>>, sp': seq<seq<int>>)
    requires Shaped(nodes, hs, fw, sp, level) && cut + 1 < |hs|
    requires Unlinked(fw, sp, fw', sp', u, nodes[cut + 1], fw[cut + 1], sp[cut + 1])
    ensures |fw'| == |sp'| == |hs|
    ensures Shaped(RemoveAt(nodes, cut + 1), RemoveAt(hs, cut + 1), RemoveAt(fw', cut + 1), RemoveAt(sp', cut + 1),
        level)
  {
  }

  /** Removing the node behind the cut as zslDeleteNode does keeps the chain good. */
  lemma RemoveGood<O>(nodes: seq<Node<O>>, hs: seq<nat>, fw: seq<seq<Node?<O>>>, sp: seq<seq<int>>, level: nat,
                      u: seq<nat>, cut: nat, fw': seq<seq<Node?<O>>>, sp': seq<seq<int>>)
    requires Good(nodes, hs, fw, sp, level) && Preds(hs, u, level, cut) && Distinct(nodes)
    requires cut + 1 < |nodes| == |hs| == |fw| == |sp|
    requires Unlinked(fw, sp, fw', sp', u, nodes[cut + 1], fw[cut + 1], sp[cut + 1])
    ensures |fw'| == |sp'| == |hs|
    ensures Good(RemoveAt(nodes, cut + 1), RemoveAt(hs, cut + 1), RemoveAt(fw', cut + 1), RemoveAt(sp', cut + 1), level)
  {
    hide Next, Span, Preds, Unlinked, Distinct, Linked, Spanned;
    RemovedShape(nodes, hs, fw, sp, level, u, cut, fw', sp');
    var hs' := RemoveAt(hs, cut + 1);
    var f, s, ns := RemoveAt(fw', cut + 1), RemoveAt(sp', cut + 1), RemoveAt(nodes, cut + 1);
    forall k, lv | 0 <= k < |hs'| && 0 <= lv < hs'[k]
      ensures f[k][lv] == Ref(ns, Next(hs', k + 1, lv)) && (lv < level ==> s[k][lv] == Span(hs', k, lv))
    {
      if k <= cut {
        RemovedBefore(nodes, hs, fw, sp, level, u, cut, fw', sp', k, lv);
      } else {
        RemovedBehind(nodes, hs, fw, sp, level, u, cut, fw', sp', k + 1, lv);
      }
    }
    LinkedSpannedIntro(ns, hs', f, s, level);
  }

  lemma LinkedSpannedIntro<O>(nodes: seq<Node<O>>, hs: seq<nat>, fw: seq<seq<Node?<O>>>, sp: seq<seq<int>>, level: nat)
    requires Shaped(nodes, hs, fw, sp, level)
    requires forall k, lv :: 0 <= k < |hs| && 0 <= lv < hs[k] ==>
      fw[k][lv] == Ref(nodes, Next(hs, k + 1, lv)) && (lv < level ==> sp[k][lv] == Span(hs, k, lv))
    ensures Good(nodes, hs, fw, sp, level)
  {
    hide Next, Span;
  }

  lemma PredsAfterRemove(hs: seq<nat>, u: seq<nat>, level: nat, cut: nat)
    requires Preds(hs, u, level, cut) && cut + 1 < |hs|
    ensures Preds(RemoveAt(hs, cut + 1), u, level, cut)
  {
    hide RemoveAt;
    forall lv | 0 <= lv < level ensures Pred(RemoveAt(hs, cut + 1), u[lv], lv, cut) {
      PredAfterRemove(hs, u[lv], lv, cut);
    }
  }

  /** Lowering the list's level over levels at which the header points nowhere. */
  lemma Lowered<O>(nodes: seq<Node<O>>, hs: seq<nat>, fw: seq<seq<Node?<O>>>, sp: seq<seq<int>>, level: nat)
    requires Good(nodes, hs, fw, sp, level) && level > 1 && fw[0][level - 1] == null
    ensures Good(nodes, hs, fw, sp, level - 1)
  {
    assert fw[0][level - 1] == Ref(nodes, Next(hs, 1, level - 1));
    forall k | 1 <= k < |hs| ensures hs[k] <= level - 1 {
    }
  }

  /** The back pointers after zslDeleteNode. */
  ghost function BackRemoved<O>(bw: seq<Node?<O>>, cut: nat): (r: seq<Node?<O>>)
    requires cut + 1 < |bw|
  {
    RemoveAt(if cut + 2 == |bw| then bw else bw[cut + 2 := bw[cut + 1]], cut + 1)
  }

  lemma RemoveMirrored<O>(nodes: seq<Node<O>>, bw: seq<Node?<O>>, tail: Node?<O>, cut: nat)
    requires Mirrored(nodes, bw, tail) && cut + 1 < |nodes|
    ensures Mirrored(RemoveAt(nodes, cut + 1), BackRemoved(bw, cut), if cut + 2 == |nodes| then bw[cut + 1] else tail)
  {
  }

  lemma UnlinkedNone<O>(fw: seq<seq<Node?<O>>>, sp: seq<seq<int>>, x: Node<O>, xf: seq<Node?<O>>, xs: seq<int>)
    requires |fw| == |sp| && |xf| == |xs| && forall k :: 0 <= k < |fw| ==> |fw[k]| == |sp[k]|
    ensures Unlinked(fw, sp, fw, sp, [], x, xf, xs)
  {
  }

  lemma UnlinkedStep<O>(fw: seq<seq<Node?<O>>>, sp: seq<seq<int>>, fw1: seq<seq<Node?<O>>>, sp1: seq<seq<int>>,
                        u: seq<nat>, i: nat, x: Node<O>, xf: seq<Node?<O>>, xs: seq<int>)
    requires i < |u| && Unlinked(fw, sp, fw1, sp1, u[..i], x, xf, xs) && u[i] < |fw| && i < |fw[u[i]]|
    requires fw[u[i]][i] == x ==> i < |xf|
    ensures |fw1| == |sp1| == |fw| == |sp| && |fw1[u[i]]| == |sp1[u[i]]| == |fw[u[i]]| == |sp[u[i]]|
    ensures fw1[u[i]][i] == fw[u[i]][i] && sp1[u[i]][i] == sp[u[i]][i]
    ensures var k := u[i];
      if fw[k][i] == x then
        Unlinked(fw, sp, fw1[k := fw1[k][i := xf[i]]], sp1[k := sp1[k][i := sp[k][i] + xs[i] - 1]], u[..i + 1], x, xf,
            xs)
      else
        Unlinked(fw, sp, fw1, sp1[k := sp1[k][i := sp[k][i] - 1]], u[..i + 1], x, xf, xs)
  {
    UnlinkedAt(fw, sp, fw1, sp1, u[..i], x, xf, xs, u[i], i);
  }
}
