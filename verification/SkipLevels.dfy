/** The level structure of a skiplist on plain values: node heights, the next node at a level, spans, and
    how they change when a node is inserted or removed. Index 0 is the header. */
module SkipLevels {
  import opened Sequences

  /** The first index from j on whose height exceeds lv, or |hs| when there is none. */
  function Next(hs: seq<nat>, j: nat, lv: nat): (r: nat)
    requires j <= |hs|
    ensures j <= r <= |hs|
    ensures r < |hs| ==> hs[r] > lv
    ensures forall i :: j <= i < r ==> hs[i] <= lv
    decreases |hs| - j
  {
    if j == |hs| || hs[j] > lv then j else Next(hs, j + 1, lv)
  }

  lemma NextIs(hs: seq<nat>, j: nat, lv: nat, r: nat)
    requires j <= r <= |hs| && (r < |hs| ==> hs[r] > lv) && forall i :: j <= i < r ==> hs[i] <= lv
    ensures Next(hs, j, lv) == r
  {
  }

  /** The distance from node k to the next node at level lv, or to the last node when there is none. */
  function Span(hs: seq<nat>, k: nat, lv: nat): int
    requires k < |hs|
  {
    var j := Next(hs, k + 1, lv);
    if j == |hs| then j - 1 - k else j - k
  }

  lemma NextInsertBefore(hs: seq<nat>, p: nat, h: nat, j: nat, lv: nat)
    requires j <= p <= |hs|
    ensures Next(InsertAt(hs, p, h), j, lv)
         == (var r := Next(hs, j, lv); if r < p then r else if lv < h then p else r + 1)
  {
    var r := Next(hs, j, lv);
    var hs' := InsertAt(hs, p, h);
    if r < p {
      NextIs(hs', j, lv, r);
    } else if lv < h {
      NextIs(hs', j, lv, p);
    } else {
      NextIs(hs', j, lv, r + 1);
    }
  }

  lemma NextInsertAfter(hs: seq<nat>, p: nat, h: nat, j: nat, lv: nat)
    requires p <= j <= |hs|
    ensures Next(InsertAt(hs, p, h), j + 1, lv) == Next(hs, j, lv) + 1
  {
    NextIs(InsertAt(hs, p, h), j + 1, lv, Next(hs, j, lv) + 1);
  }

  /** The node u is the last one not after cut that reaches level lv. */
  predicate Pred(hs: seq<nat>, u: nat, lv: nat, cut: nat) {
    && u <= cut < |hs| && hs[u] > lv && Next(hs, u + 1, lv) > cut
  }

  lemma PredUnique(hs: seq<nat>, u: nat, k: nat, lv: nat, cut: nat)
    requires Pred(hs, u, lv, cut) && k <= cut && hs[k] > lv
    ensures k <= u && (Next(hs, k + 1, lv) > cut <==> k == u)
    ensures k < u ==> Next(hs, k + 1, lv) <= u
  {
    assert forall i :: u + 1 <= i <= cut ==> hs[i] <= lv;
  }

  /** After inserting a node of height h behind cut: links of the nodes up to the cut. */
  lemma InsertBeforeCut(hs: seq<nat>, u: nat, h: nat, lv: nat, cut: nat, k: nat)
    requires Pred(hs, u, lv, cut) && k <= cut && hs[k] > lv
    ensures var hs' := InsertAt(hs, cut + 1, h);
      if k != u then Next(hs', k + 1, lv) == Next(hs, k + 1, lv) <= cut && Span(hs', k, lv) == Span(hs, k, lv)
      else if lv < h then Next(hs', k + 1, lv) == cut + 1 && Span(hs', k, lv) == cut + 1 - u
      else Next(hs', k + 1, lv) == Next(hs, k + 1, lv) + 1 > cut + 1 && Span(hs', k, lv) == Span(hs, k, lv) + 1
  {
    hide InsertAt, Next;
    PredUnique(hs, u, k, lv, cut);
    NextInsertBefore(hs, cut + 1, h, k + 1, lv);
  }

  /** Links of the nodes behind the cut, which move up by one. */
  lemma InsertBehindCut(hs: seq<nat>, h: nat, lv: nat, cut: nat, k: nat)
    requires cut < k < |hs|
    ensures var hs' := InsertAt(hs, cut + 1, h);
      Next(hs', k + 2, lv) == Next(hs, k + 1, lv) + 1 && Span(hs', k + 1, lv) == Span(hs, k, lv)
  {
    hide InsertAt, Next;
    NextInsertAfter(hs, cut + 1, h, k + 1, lv);
  }

  /** Links of the new node. */
  lemma InsertNew(hs: seq<nat>, u: nat, h: nat, lv: nat, cut: nat)
    requires Pred(hs, u, lv, cut)
    ensures var hs' := InsertAt(hs, cut + 1, h);
      Next(hs', cut + 2, lv) == Next(hs, u + 1, lv) + 1 && Span(hs', cut + 1, lv) == Span(hs, u, lv) - (cut - u)
  {
    hide InsertAt, Next;
    NextInsertAfter(hs, cut + 1, h, cut + 1, lv);
    NextIs(hs, cut + 1, lv, Next(hs, u + 1, lv));
  }

  lemma NextRemoveBefore(hs: seq<nat>, p: nat, j: nat, lv: nat)
    requires j <= p < |hs|
    ensures Next(RemoveAt(hs, p), j, lv)
         == (var r := Next(hs, j, lv); if r < p then r else if r == p then Next(hs, p + 1, lv) - 1 else r - 1)
  {
    var r := Next(hs, j, lv);
    var hs' := RemoveAt(hs, p);
    if r < p {
      NextIs(hs', j, lv, r);
    } else if r == p {
      NextIs(hs', j, lv, Next(hs, p + 1, lv) - 1);
    } else {
      NextIs(hs', j, lv, r - 1);
    }
  }

  lemma NextRemoveAfter(hs: seq<nat>, p: nat, j: nat, lv: nat)
    requires p < j <= |hs|
    ensures Next(RemoveAt(hs, p), j - 1, lv) == Next(hs, j, lv) - 1
  {
    NextIs(RemoveAt(hs, p), j - 1, lv, Next(hs, j, lv) - 1);
  }

  /** After removing the node behind cut: links of the nodes up to the cut. */
  lemma RemoveBeforeCut(hs: seq<nat>, u: nat, lv: nat, cut: nat, k: nat)
    requires Pred(hs, u, lv, cut) && cut + 1 < |hs| && k <= cut && hs[k] > lv
    ensures var hs' := RemoveAt(hs, cut + 1);
      if k != u then Next(hs', k + 1, lv) == Next(hs, k + 1, lv) <= cut && Span(hs', k, lv) == Span(hs, k, lv)
      else if hs[cut + 1] > lv then
        && Next(hs, k + 1, lv) == cut + 1
        && Next(hs', k + 1, lv) == Next(hs, cut + 2, lv) - 1 > cut
        && Span(hs', k, lv) == Span(hs, u, lv) + Span(hs, cut + 1, lv) - 1
      else
        && Next(hs, k + 1, lv) > cut + 1
        && Next(hs', k + 1, lv) == Next(hs, k + 1, lv) - 1
        && Span(hs', k, lv) == Span(hs, k, lv) - 1
  {
    hide RemoveAt, Next;
    PredUnique(hs, u, k, lv, cut);
    NextRemoveBefore(hs, cut + 1, k + 1, lv);
    if k == u && hs[cut + 1] > lv {
      NextIs(hs, u + 1, lv, cut + 1);
    }
  }

  /** Links of the nodes behind the removed one, which move down by one. */
  lemma RemoveBehindCut(hs: seq<nat>, lv: nat, cut: nat, k: nat)
    requires cut + 1 < k < |hs|
    ensures var hs' := RemoveAt(hs, cut + 1);
      Next(hs', k, lv) == Next(hs, k + 1, lv) - 1 && Span(hs', k - 1, lv) == Span(hs, k, lv)
  {
    hide RemoveAt, Next;
    NextRemoveAfter(hs, cut + 1, k + 1, lv);
  }

  /** The predecessors of a cut stay predecessors when the node behind the cut is removed. */
  lemma PredAfterRemove(hs: seq<nat>, u: nat, lv: nat, cut: nat)
    requires Pred(hs, u, lv, cut) && cut + 1 < |hs|
    ensures Pred(RemoveAt(hs, cut + 1), u, lv, cut)
  {
    hide Next;
    RemoveBeforeCut(hs, u, lv, cut, u);
    assert RemoveAt(hs, cut + 1)[u] == hs[u];
  }
}
