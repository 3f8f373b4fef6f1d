/** Insertion into and removal from sequences. */
module Sequences {

  predicate Distinct<T(==)>(s: seq<T>) {
    forall i, j :: 0 <= i < j < |s| ==> s[i] != s[j]
  }

  function InsertAt<T>(s: seq<T>, p: nat, x: T): (r: seq<T>)
    requires p <= |s|
    ensures |r| == |s| + 1
    ensures forall i :: 0 <= i < |r| ==> r[i] == if i < p then s[i] else if i == p then x else s[i - 1]
  {
    s[..p] + [x] + s[p..]
  }

  function RemoveAt<T>(s: seq<T>, p: nat): (r: seq<T>)
    requires p < |s|
    ensures |r| == |s| - 1
    ensures forall i :: 0 <= i < |r| ==> r[i] == if i < p then s[i] else s[i + 1]
  {
    s[..p] + s[p + 1..]
  }

  lemma InsertIs<T>(s: seq<T>, p: nat, x: T, i: nat)
    requires p <= |s| && i <= |s|
    ensures |InsertAt(s, p, x)| == |s| + 1
      && InsertAt(s, p, x)[i] == if i < p then s[i] else if i == p then x else s[i - 1]
  {
  }

  lemma RemoveIs<T>(s: seq<T>, p: nat, i: nat)
    requires p < |s| && i < |s| - 1
    ensures |RemoveAt(s, p)| == |s| - 1 && RemoveAt(s, p)[i] == s[if i < p then i else i + 1]
  {
  }

  /** Removing from a sequence without repetitions removes one element. */
  lemma RemoveMembers<T>(s: seq<T>, p: nat)
    requires p < |s| && Distinct(s)
    ensures forall e :: e in RemoveAt(s, p) <==> e in s && e != s[p]
  {
    forall e ensures e in RemoveAt(s, p) <==> e in s && e != s[p] {
      if e in s && e != s[p] {
        var k :| 0 <= k < |s| && s[k] == e;
        RemoveIs(s, p, if k < p then k else k - 1);
      }
    }
  }

  /** A position, counted from the end when negative. */
  function FromEnd(i: int, n: nat): int {
    if i < 0 then n + i else i
  }

  lemma Around<T>(s: seq<T>, i: nat)
    requires i < |s|
    ensures s[..i] + [s[i]] == s[..i + 1] && s[..i + 1] + s[i + 1..] == s
  {
  }
}
