/** pqsort (pqsort.c): Bentley-McIlroy quicksort that orders only the positions of a requested range. */
module Pqsort {

  type Cmp<!T> = (T, T) -> int

  ghost predicate TotalPreorder<T(!new)>(cmp: Cmp<T>) {
    && (forall x, y :: cmp(x, y) < 0 <==> cmp(y, x) > 0)
    && (forall x, y, z :: cmp(x, y) <= 0 && cmp(y, z) <= 0 ==> cmp(x, z) <= 0)
  }

  // ----- permutations of a range

  /** t is s with the elements of [lo, hi) permuted. */
  ghost predicate Permuted<T>(s: seq<T>, t: seq<T>, lo: int, hi: int) {
    && 0 <= lo <= hi <= |s| && |t| == |s|
    && t[..lo] == s[..lo] && t[hi..] == s[hi..]
    && multiset(t[lo..hi]) == multiset(s[lo..hi])
  }

  lemma PermutedTrans<T>(s: seq<T>, t: seq<T>, u: seq<T>, lo: int, hi: int)
    requires Permuted(s, t, lo, hi) && Permuted(t, u, lo, hi)
    ensures Permuted(s, u, lo, hi)
  {
  }

  /** A permutation of a part of a range is a permutation of the range. */
  lemma PermutedWider<T>(s: seq<T>, t: seq<T>, lo: int, hi: int, lo': int, hi': int)
    requires Permuted(s, t, lo, hi) && 0 <= lo' <= lo && hi <= hi' <= |s|
    ensures Permuted(s, t, lo', hi')
  {
    assert t[..lo'] == t[..lo][..lo'] == s[..lo'];
    assert t[hi'..] == t[hi..][hi' - hi..] == s[hi'..];
    assert s[lo'..hi'] == s[..lo][lo'..] + s[lo..hi] + s[hi..][..hi' - hi];
    assert t[lo'..hi'] == t[..lo][lo'..] + t[lo..hi] + t[hi..][..hi' - hi];
  }

  /** Each element of a permuted range comes from the range. */
  lemma PermutedFrom<T>(s: seq<T>, t: seq<T>, lo: int, hi: int, k: int) returns (j: int)
    requires Permuted(s, t, lo, hi) && lo <= k < hi
    ensures lo <= j < hi && t[k] == s[j]
  {
    assert t[k] == t[lo..hi][k - lo];
    assert t[k] in multiset(s[lo..hi]);
    assert t[k] in s[lo..hi];
    var i :| 0 <= i < hi - lo && s[lo..hi][i] == t[k];
    j := lo + i;
  }

  lemma PermutedOutside<T>(s: seq<T>, t: seq<T>, lo: int, hi: int, k: int)
    requires Permuted(s, t, lo, hi) && 0 <= k < |s| && (k < lo || hi <= k)
    ensures t[k] == s[k]
  {
    if k < lo {
      assert t[k] == t[..lo][k] == s[..lo][k];
    } else {
      assert t[k] == t[hi..][k - hi] == s[hi..][k - hi];
    }
  }

  function Swapped<T>(s: seq<T>, i: int, j: int): (t: seq<T>)
    requires 0 <= i < |s| && 0 <= j < |s|
    ensures |t| == |s| && t[i] == s[j] && t[j] == s[i]
    ensures forall k :: 0 <= k < |s| && k != i && k != j ==> t[k] == s[k]
  {
    s[i := s[j]][j := s[i]]
  }

  lemma SwappedPermutes<T>(s: seq<T>, i: int, j: int, lo: int, hi: int)
    requires 0 <= lo <= i < hi <= |s| && lo <= j < hi
    ensures Permuted(s, Swapped(s, i, j), lo, hi)
  {
    var t := Swapped(s, i, j);
    assert t[lo..hi] == s[lo..hi][i - lo := s[j]][j - lo := s[i]];
  }

  /** The swap macro. */
  method Swap<T>(a: array<T>, i: int, j: int, ghost lo: int, ghost hi: int)
    requires 0 <= lo <= i < hi <= a.Length && lo <= j < hi
    modifies a
    ensures a[..] == Swapped(old(a[..]), i, j)
    ensures Permuted(old(a[..]), a[..], lo, hi)
  {
    var t := a[i];
    a[i] := a[j];
    a[j] := t;
    assert a[..] == Swapped(old(a[..]), i, j);
    SwappedPermutes(old(a[..]), i, j, lo, hi);
  }

  // ----- what is promised

  /** Position i holds an element that nothing before it in [lo, hi) exceeds and nothing after it undercuts. */
  ghost predicate Placed<T>(cmp: Cmp<T>, s: seq<T>, lo: int, hi: int, i: int)
    requires 0 <= lo <= hi <= |s| && lo <= i < hi
  {
    && (forall j :: lo <= j < i ==> cmp(s[j], s[i]) <= 0)
    && (forall j :: i < j < hi ==> cmp(s[i], s[j]) <= 0)
  }

  ghost predicate PlacedIn<T>(cmp: Cmp<T>, s: seq<T>, lo: int, hi: int, lrange: int, rrange: int) {
    && 0 <= lo <= hi <= |s|
    && forall i :: lo <= i < hi && lrange <= i <= rrange ==> Placed(cmp, s, lo, hi, i)
  }

  ghost predicate SortedRange<T>(cmp: Cmp<T>, s: seq<T>, lo: int, hi: int) {
    && 0 <= lo <= hi <= |s|
    && forall i, j :: lo <= i < j < hi ==> cmp(s[i], s[j]) <= 0
  }

  lemma SortedIsPlaced<T>(cmp: Cmp<T>, s: seq<T>, lo: int, hi: int, lrange: int, rrange: int)
    requires SortedRange(cmp, s, lo, hi)
    ensures PlacedIn(cmp, s, lo, hi, lrange, rrange)
  {
  }

  /** The inner loop of the insertion sort: the element at pm sinks to its place. */
  method Insert<T(!new)>(a: array<T>, lo: nat, pm: nat, hi: nat, cmp: Cmp<T>)
    requires lo < pm < hi <= a.Length && TotalPreorder(cmp) && SortedRange(cmp, a[..], lo, pm)
    modifies a
    ensures Permuted(old(a[..]), a[..], lo, hi) && SortedRange(cmp, a[..], lo, pm + 1)
  {
    hide Permuted, SortedBut, SortedRange, TotalPreorder, Swapped;
    var pl := pm;
    ghost var s0 := a[..];
    HoleStarts(cmp, s0, lo, hi, pm);
    while pl > lo && cmp(a[pl - 1], a[pl]) > 0
      invariant lo <= pl <= pm
      invariant Permuted(s0, a[..], lo, hi)
      invariant SortedBut(cmp, a[..], lo, pm + 1, pl)
    {
      ghost var s := a[..];
      Swap(a, pl, pl - 1, lo, hi);
      PermutedTrans(s0, s, a[..], lo, hi);
      SinkOnce(cmp, s, lo, pm + 1, pl);
      pl := pl - 1;
    }
    HoleFits(cmp, a[..], lo, pm + 1, pl);
  }

  /** Sorted, except for comparisons of the element at p with those before it. */
  ghost predicate SortedBut<T>(cmp: Cmp<T>, s: seq<T>, lo: int, hi: int, p: int) {
    && 0 <= lo <= p < hi <= |s|
    && forall i, j :: lo <= i < j < hi && j != p ==> cmp(s[i], s[j]) <= 0
  }

  lemma HoleStarts<T>(cmp: Cmp<T>, s: seq<T>, lo: int, hi: int, pm: int)
    requires SortedRange(cmp, s, lo, pm) && lo <= pm < hi <= |s|
    ensures SortedBut(cmp, s, lo, pm + 1, pm) && Permuted(s, s, lo, hi)
  {
  }

  lemma SinkOnce<T(!new)>(cmp: Cmp<T>, s: seq<T>, lo: int, hi: int, p: int)
    requires SortedBut(cmp, s, lo, hi, p) && lo < p && cmp(s[p - 1], s[p]) > 0 && TotalPreorder(cmp)
    ensures SortedBut(cmp, Swapped(s, p, p - 1), lo, hi, p - 1)
  {
    var t := Swapped(s, p, p - 1);
    forall i, j | lo <= i < j < hi && j != p - 1 ensures cmp(t[i], t[j]) <= 0 {
      if j == p {
        assert cmp(s[p], s[p - 1]) < 0;
      }
    }
  }

  lemma HoleFits<T(!new)>(cmp: Cmp<T>, s: seq<T>, lo: int, hi: int, p: int)
    requires SortedBut(cmp, s, lo, hi, p) && TotalPreorder(cmp) && (p == lo || cmp(s[p - 1], s[p]) <= 0)
    ensures SortedRange(cmp, s, lo, hi)
  {
    forall i, j | lo <= i < j < hi ensures cmp(s[i], s[j]) <= 0 {
      if j == p && i < p - 1 {
        assert cmp(s[i], s[p - 1]) <= 0;
      }
    }
  }

  /** The insertion sort used for small ranges and for ranges found nearly sorted. */
  method InsertionSort<T(!new)>(a: array<T>, lo: nat, hi: nat, cmp: Cmp<T>)
    requires lo <= hi <= a.Length && TotalPreorder(cmp)
    modifies a
    ensures Permuted(old(a[..]), a[..], lo, hi) && SortedRange(cmp, a[..], lo, hi)
  {
    var pm := lo + 1;
    ghost var s0 := a[..];
    while pm < hi
      invariant lo < pm && (pm <= hi || pm == lo + 1)
      invariant Permuted(s0, a[..], lo, hi)
      invariant SortedRange(cmp, a[..], lo, if pm <= hi then pm else hi)
    {
      ghost var s := a[..];
      Insert(a, lo, pm, hi, cmp);
      PermutedTrans(s0, s, a[..], lo, hi);
      pm := pm + 1;
    }
  }

  // ----- pivot

  /** med3: the index, among three, of an element with one of the others on each side. */
  method Med3<T(!new)>(a: array<T>, i: nat, j: nat, k: nat, cmp: Cmp<T>) returns (m: nat)
    requires i < a.Length && j < a.Length && k < a.Length && TotalPreorder(cmp)
    ensures (m == i && Between(cmp, a[j], a[i], a[k])) || (m == j && Between(cmp, a[i], a[j], a[k]))
      || (m == k && Between(cmp, a[i], a[k], a[j]))
  {
    if cmp(a[i], a[j]) < 0 {
      m := if cmp(a[j], a[k]) < 0 then j else if cmp(a[i], a[k]) < 0 then k else i;
    } else {
      m := if cmp(a[j], a[k]) > 0 then j else if cmp(a[i], a[k]) < 0 then i else k;
    }
  }

  ghost predicate Between<T>(cmp: Cmp<T>, x: T, m: T, y: T) {
    (cmp(x, m) <= 0 && cmp(m, y) <= 0) || (cmp(y, m) <= 0 && cmp(m, x) <= 0)
  }

  /** The choice of the pivot position for a range of n elements from lo on. */
  method ChoosePivot<T(!new)>(a: array<T>, lo: nat, n: nat, cmp: Cmp<T>) returns (pm: nat)
    requires n >= 7 && lo + n <= a.Length && TotalPreorder(cmp)
    ensures lo <= pm < lo + n
  {
    pm := lo + n / 2;
    if n > 7 {
      var pl := lo;
      var pn := lo + (n - 1);
      if n > 40 {
        var d := n / 8;
        pl := Med3(a, pl, pl + d, pl + 2 * d, cmp);
        pm := Med3(a, pm - d, pm, pm + d, cmp);
        pn := Med3(a, pn - 2 * d, pn - d, pn, cmp);
      }
      pm := Med3(a, pl, pm, pn, cmp);
    }
  }

  // ----- partition

  /** The bands during partitioning of [lo, hi) around the element at lo: equal, less, unseen, greater,
      equal. */
  ghost predicate Banded<T>(cmp: Cmp<T>, s: seq<T>, lo: int, hi: int, pa: int, pb: int, pc: int, pd: int) {
    && 0 <= lo < pa <= pb <= pc + 1 <= pd + 1 <= hi <= |s|
    && (forall k :: lo <= k < pa ==> cmp(s[k], s[lo]) == 0)
    && (forall k :: pa <= k < pb ==> cmp(s[k], s[lo]) < 0)
    && (forall k :: pc < k <= pd ==> cmp(s[k], s[lo]) > 0)
    && (forall k :: pd < k < hi ==> cmp(s[k], s[lo]) == 0)
  }

  lemma BandBounds<T>(cmp: Cmp<T>, s: seq<T>, lo: int, hi: int, pa: int, pb: int, pc: int, pd: int)
    requires Banded(cmp, s, lo, hi, pa, pb, pc, pd)
    ensures 0 <= lo < pa <= pb <= pc + 1 <= pd + 1 <= hi <= |s|
  {
  }

  lemma BandsStart<T(!new)>(cmp: Cmp<T>, s: seq<T>, lo: int, hi: int)
    requires 0 <= lo && lo + 2 <= hi <= |s| && TotalPreorder(cmp)
    ensures Banded(cmp, s, lo, hi, lo + 1, lo + 1, hi - 1, hi - 1)
  {
    assert !(cmp(s[lo], s[lo]) < 0) && !(cmp(s[lo], s[lo]) > 0);
  }

  /** The scan from the left: elements equal to the pivot are swapped to the left edge. */
  method ScanLeft<T(!new)>(a: array<T>, lo: nat, hi: nat, pa0: nat, pb0: nat, pc: int, ghost pd: int, cmp: Cmp<T>,
      swapped0: bool)
      returns (pa: nat, pb: nat, swapped: bool)
    requires hi <= a.Length && Banded(cmp, a[..], lo, hi, pa0, pb0, pc, pd)
    modifies a
    ensures Banded(cmp, a[..], lo, hi, pa, pb, pc, pd) && Permuted(old(a[..]), a[..], lo, hi)
    ensures pb0 <= pb && (pb <= pc ==> cmp(a[pb], a[lo]) > 0)
  {
    hide Permuted, Swapped;
    pa, pb, swapped := pa0, pb0, swapped0;
    ghost var s0 := a[..];
    PermutedSelf(s0, lo, hi);
    while pb <= pc && cmp(a[pb], a[lo]) <= 0
      invariant pb0 <= pb && Banded(cmp, a[..], lo, hi, pa, pb, pc, pd) && Permuted(s0, a[..], lo, hi)
      decreases pc - pb
    {
      if cmp(a[pb], a[lo]) == 0 {
        swapped := true;
        ghost var s := a[..];
        Swap(a, pa, pb, lo, hi);
        PermutedTrans(s0, s, a[..], lo, hi);
        pa := pa + 1;
      }
      pb := pb + 1;
    }
  }

  lemma PermutedSelf<T>(s: seq<T>, lo: int, hi: int)
    requires 0 <= lo <= hi <= |s|
    ensures Permuted(s, s, lo, hi)
  {
  }

  /** The scan from the right: elements equal to the pivot are swapped to the right edge. */
  method ScanRight<T(!new)>(a: array<T>, lo: nat, hi: nat, ghost pa: int, pb: nat, pc0: int, pd0: int, cmp: Cmp<T>,
      swapped0: bool)
      returns (pc: int, pd: int, swapped: bool)
    requires hi <= a.Length && Banded(cmp, a[..], lo, hi, pa, pb, pc0, pd0)
    modifies a
    ensures Banded(cmp, a[..], lo, hi, pa, pb, pc, pd) && Permuted(old(a[..]), a[..], lo, hi)
    ensures pc <= pc0 && (pb <= pc ==> cmp(a[pc], a[lo]) < 0)
    ensures a[lo] == old(a[lo]) && (pb <= pc ==> a[pb] == old(a[pb]))
  {
    hide Permuted, Swapped;
    pc, pd, swapped := pc0, pd0, swapped0;
    ghost var s0 := a[..];
    PermutedSelf(s0, lo, hi);
    while pb <= pc && cmp(a[pc], a[lo]) >= 0
      invariant pc <= pc0 && Banded(cmp, a[..], lo, hi, pa, pb, pc, pd) && Permuted(s0, a[..], lo, hi)
      invariant a[lo] == s0[lo] && (pb <= pc ==> a[pb] == s0[pb])
      decreases pc - pb
    {
      if cmp(a[pc], a[lo]) == 0 {
        swapped := true;
        ghost var s := a[..];
        Swap(a, pc, pd, lo, hi);
        PermutedTrans(s0, s, a[..], lo, hi);
        pd := pd - 1;
      }
      pc := pc - 1;
    }
  }

  /** Two elements on the wrong sides change places. */
  lemma BandsCross<T>(cmp: Cmp<T>, s: seq<T>, lo: int, hi: int, pa: int, pb: int, pc: int, pd: int)
    requires Banded(cmp, s, lo, hi, pa, pb, pc, pd) && pb <= pc
    requires cmp(s[pb], s[lo]) > 0 && cmp(s[pc], s[lo]) < 0
    ensures Banded(cmp, Swapped(s, pb, pc), lo, hi, pa, pb + 1, pc - 1, pd)
  {
    assert pb < pc;
  }

  /** The scanning loop: everything in [lo, hi) ends up in one of the four known bands. */
  method Scan<T(!new)>(a: array<T>, lo: nat, hi: nat, cmp: Cmp<T>)
      returns (pa: nat, pb: nat, pc: int, pd: int, swapped: bool)
    requires lo + 2 <= hi <= a.Length && TotalPreorder(cmp)
    modifies a
    ensures pb == pc + 1 && Banded(cmp, a[..], lo, hi, pa, pb, pc, pd) && Permuted(old(a[..]), a[..], lo, hi)
  {
    hide Permuted, Swapped, TotalPreorder;
    pa, pb, pc, pd, swapped := lo + 1, lo + 1, hi - 1, hi - 1, false;
    ghost var s0 := a[..];
    PermutedSelf(s0, lo, hi);
    BandsStart(cmp, s0, lo, hi);
    while true
      invariant Banded(cmp, a[..], lo, hi, pa, pb, pc, pd) && Permuted(s0, a[..], lo, hi)
      decreases pc - pb
    {
      ghost var s1 := a[..];
      pa, pb, swapped := ScanLeft(a, lo, hi, pa, pb, pc, pd, cmp, swapped);
      ghost var s2 := a[..];
      PermutedTrans(s0, s1, s2, lo, hi);
      pc, pd, swapped := ScanRight(a, lo, hi, pa, pb, pc, pd, cmp, swapped);
      ghost var s3 := a[..];
      PermutedTrans(s0, s2, s3, lo, hi);
      if pb > pc {
        break;
      }
      BandsCross(cmp, s3, lo, hi, pa, pb, pc, pd);
      Swap(a, pb, pc, lo, hi);
      PermutedTrans(s0, s3, a[..], lo, hi);
      swapped := true;
      pb := pb + 1;
      pc := pc - 1;
    }
  }

  // ----- moving the equal bands to the middle

  /** vecswap: exchanges two disjoint blocks of n elements. */
  method VecSwap<T>(a: array<T>, i: nat, j: nat, n: nat, ghost lo: int, ghost hi: int)
    requires 0 <= lo <= i && i + n <= j && j + n <= hi <= a.Length
    modifies a
    ensures Permuted(old(a[..]), a[..], lo, hi) && BlocksSwapped(old(a[..]), a[..], i, j, n)
  {
    hide Permuted, BlocksSwapped, Swapped;
    ghost var s0 := a[..];
    PermutedSelf(s0, lo, hi);
    NoBlocks(s0, i, j);
    for k := 0 to n
      invariant Permuted(s0, a[..], lo, hi) && BlocksSwapped(s0, a[..], i, j, k)
    {
      ghost var s := a[..];
      Swap(a, i + k, j + k, lo, hi);
      PermutedTrans(s0, s, a[..], lo, hi);
      BlocksGrow(s0, s, i, j, k);
    }
  }

  lemma NoBlocks<T>(s: seq<T>, i: int, j: int)
    requires 0 <= i <= j <= |s|
    ensures BlocksSwapped(s, s, i, j, 0)
  {
  }

  lemma BlocksGrow<T>(s0: seq<T>, s: seq<T>, i: int, j: int, k: int)
    requires BlocksSwapped(s0, s, i, j, k) && i + k < j && j + k < |s|
    ensures BlocksSwapped(s0, Swapped(s, i + k, j + k), i, j, k + 1)
  {
  }

  ghost predicate BlocksSwapped<T>(s: seq<T>, t: seq<T>, i: int, j: int, n: int) {
    && 0 <= i && 0 <= n && i + n <= j && j + n <= |s| == |t|
    && (forall k :: i <= k < i + n ==> t[k] == s[k + (j - i)])
    && (forall k :: j <= k < j + n ==> t[k] == s[k - (j - i)])
    && (forall k :: 0 <= k < |s| && !(i <= k < i + n) && !(j <= k < j + n) ==> t[k] == s[k])
  }

  /** [lo, l) holds elements below v, [l, r) elements equal to v, [r, hi) elements above v. */
  ghost predicate Thirds<T>(cmp: Cmp<T>, s: seq<T>, v: T, lo: int, l: int, r: int, hi: int) {
    && 0 <= lo <= l <= r <= hi <= |s|
    && (forall k :: lo <= k < l ==> cmp(s[k], v) < 0)
    && (forall k :: l <= k < r ==> cmp(s[k], v) == 0)
    && (forall k :: r <= k < hi ==> cmp(s[k], v) > 0)
  }

  function Min(x: int, y: int): int {
    if x < y then x else y
  }

  /** [lo, l) less, [l, m) equal, [m, n) greater, [n, hi) equal. */
  ghost predicate HalfMoved<T>(cmp: Cmp<T>, s: seq<T>, v: T, lo: int, l: int, m: int, n: int, hi: int) {
    && 0 <= lo <= l <= m <= n <= hi <= |s|
    && (forall k :: lo <= k < l ==> cmp(s[k], v) < 0)
    && (forall k :: l <= k < m ==> cmp(s[k], v) == 0)
    && (forall k :: m <= k < n ==> cmp(s[k], v) > 0)
    && (forall k :: n <= k < hi ==> cmp(s[k], v) == 0)
  }

  /** The left exchange: an equal band before a band of smaller elements. */
  lemma LeftExchanged<T>(cmp: Cmp<T>, s: seq<T>, t: seq<T>, lo: int, hi: int, pa: int, pb: int, pc: int, pd: int)
    requires Banded(cmp, s, lo, hi, pa, pb, pc, pd) && pb == pc + 1
    requires BlocksSwapped(s, t, lo, pb - Min(pa - lo, pb - pa), Min(pa - lo, pb - pa))
    ensures HalfMoved(cmp, t, s[lo], lo, lo + (pb - pa), pb, pd + 1, hi)
  {
  }

  /** The right exchange: a band of greater elements before an equal band. */
  lemma RightExchanged<T>(cmp: Cmp<T>, t: seq<T>, u: seq<T>, v: T, lo: int, l: int, m: int, n: int, hi: int)
    requires HalfMoved(cmp, t, v, lo, l, m, n, hi)
    requires BlocksSwapped(t, u, m, hi - Min(n - m, hi - n), Min(n - m, hi - n))
    ensures Thirds(cmp, u, v, lo, l, hi - (n - m), hi)
  {
  }

  /** One partitioning of [lo, hi), up to the point where the source may switch to insertion sort. */
  method Partition<T(!new)>(a: array<T>, lo: nat, hi: nat, cmp: Cmp<T>)
      returns (swapped: bool, l: nat, r: nat, ghost v: T)
    requires lo + 7 <= hi <= a.Length && TotalPreorder(cmp)
    modifies a
    ensures Permuted(old(a[..]), a[..], lo, hi)
    ensures lo <= l < r <= hi
    ensures swapped ==> Thirds(cmp, a[..], v, lo, l, r, hi)
  {
    hide Permuted, Swapped, TotalPreorder, Thirds, BlocksSwapped, HalfMoved, Banded;
    ghost var s0 := a[..];
    var pm := ChoosePivot(a, lo, hi - lo, cmp);
    Swap(a, lo, pm, lo, hi);
    ghost var s1 := a[..];
    var pa, pb, pc, pd, swap_cnt := Scan(a, lo, hi, cmp);
    ghost var s2 := a[..];
    PermutedTrans(s0, s1, s2, lo, hi);
    BandBounds(cmp, s2, lo, hi, pa, pb, pc, pd);
    swapped, v := swap_cnt, a[lo];
    l, r := lo + (pb - pa), hi - (pd - pc);
    if swapped {
      var n := Min(pa - lo, pb - pa);
      VecSwap(a, lo, pb - n, n, lo, hi);
      ghost var s3 := a[..];
      PermutedTrans(s0, s2, s3, lo, hi);
      LeftExchanged(cmp, s2, s3, lo, hi, pa, pb, pc, pd);
      n := Min(pd - pc, hi - pd - 1);
      VecSwap(a, pb, hi - n, n, lo, hi);
      PermutedTrans(s0, s3, a[..], lo, hi);
      RightExchanged(cmp, s3, a[..], v, lo, l, pb, pd + 1, hi);
    }
  }

  // ----- the sort

  /** Everything before lo is no greater than anything from lo on, and the requested positions before lo
      are placed for the whole range [lo0, hi). */
  ghost predicate Settled<T>(cmp: Cmp<T>, s: seq<T>, lo0: int, lo: int, hi: int, lrange: int, rrange: int) {
    && 0 <= lo0 <= lo <= hi <= |s|
    && (forall i, j :: lo0 <= i < lo && lo <= j < hi ==> cmp(s[i], s[j]) <= 0)
    && (forall i :: lo0 <= i < lo && lrange <= i <= rrange ==> Placed(cmp, s, lo0, hi, i))
  }

  lemma SettledKept<T>(cmp: Cmp<T>, s: seq<T>, t: seq<T>, lo0: int, lo: int, hi: int, lrange: int, rrange: int)
    requires Settled(cmp, s, lo0, lo, hi, lrange, rrange) && Permuted(s, t, lo, hi) && |t| == |s|
    ensures Settled(cmp, t, lo0, lo, hi, lrange, rrange)
  {
    hide Permuted;
    forall k | lo0 <= k < lo ensures t[k] == s[k] { PermutedOutside(s, t, lo, hi, k); }
    forall j | lo <= j < hi ensures exists j' :: lo <= j' < hi && t[j] == s[j'] {
      var j' := PermutedFrom(s, t, lo, hi, j);
    }
    forall i | lo0 <= i < lo && lrange <= i <= rrange ensures Placed(cmp, t, lo0, hi, i) {
      assert Placed(cmp, s, lo0, hi, i);
    }
  }

  lemma ThirdsKept<T>(cmp: Cmp<T>, s: seq<T>, t: seq<T>, v: T, lo: int, l: int, r: int, hi: int)
    requires Thirds(cmp, s, v, lo, l, r, hi) && Permuted(s, t, lo, l) && |t| == |s|
    ensures Thirds(cmp, t, v, lo, l, r, hi)
  {
    hide Permuted;
    forall k | l <= k < hi ensures t[k] == s[k] { PermutedOutside(s, t, lo, l, k); }
    forall k | lo <= k < l ensures cmp(t[k], v) < 0 { var j := PermutedFrom(s, t, lo, l, k); }
  }

  lemma Advance<T(!new)>(cmp: Cmp<T>, s: seq<T>, v: T, lo0: int, lo: int, l: int, r: int, hi: int, lrange: int,
      rrange: int)
    requires TotalPreorder(cmp) && Settled(cmp, s, lo0, lo, hi, lrange, rrange)
    requires Thirds(cmp, s, v, lo, l, r, hi) && PlacedIn(cmp, s, lo, l, lrange, rrange)
    ensures Settled(cmp, s, lo0, r, hi, lrange, rrange)
  {
    forall i, j | lo0 <= i < r && r <= j < hi ensures cmp(s[i], s[j]) <= 0 {
      if i >= lo {
        assert cmp(s[i], v) <= 0 && cmp(v, s[j]) <= 0;
      }
    }
    forall i | lo <= i < r && lrange <= i <= rrange ensures Placed(cmp, s, lo0, hi, i) {
      PlaceThird(cmp, s, v, lo0, lo, l, r, hi, lrange, rrange, i);
    }
  }

  lemma PlaceThird<T(!new)>(cmp: Cmp<T>, s: seq<T>, v: T, lo0: int, lo: int, l: int, r: int, hi: int, lrange: int,
      rrange: int, i: int)
    requires TotalPreorder(cmp) && Settled(cmp, s, lo0, lo, hi, lrange, rrange) && lo <= i < r && lrange <= i <= rrange
    requires Thirds(cmp, s, v, lo, l, r, hi) && PlacedIn(cmp, s, lo, l, lrange, rrange)
    ensures Placed(cmp, s, lo0, hi, i)
  {
    forall j | lo0 <= j < i ensures cmp(s[j], s[i]) <= 0 {
      if j >= lo {
        if i < l {
          assert Placed(cmp, s, lo, l, i);
        } else {
          assert cmp(s[j], v) <= 0 && cmp(v, s[i]) <= 0;
        }
      }
    }
    forall j | i < j < hi ensures cmp(s[i], s[j]) <= 0 {
      if j < l {
        assert Placed(cmp, s, lo, l, i);
      } else {
        assert cmp(s[i], v) <= 0 && cmp(v, s[j]) <= 0;
      }
    }
  }

  lemma Conclude<T>(cmp: Cmp<T>, s: seq<T>, lo0: int, lo: int, hi: int, lrange: int, rrange: int)
    requires Settled(cmp, s, lo0, lo, hi, lrange, rrange) && PlacedIn(cmp, s, lo, hi, lrange, rrange)
    ensures PlacedIn(cmp, s, lo0, hi, lrange, rrange)
  {
    forall i | lo <= i < hi && lrange <= i <= rrange ensures Placed(cmp, s, lo0, hi, i) {
      assert Placed(cmp, s, lo, hi, i);
    }
  }

  lemma NothingAsked<T>(cmp: Cmp<T>, s: seq<T>, lo: int, hi: int, lrange: int, rrange: int)
    requires 0 <= lo <= hi <= |s| && (hi - lo <= 1 || Pruned(lo, hi - 1, lrange, rrange))
    ensures PlacedIn(cmp, s, lo, hi, lrange, rrange)
  {
  }

  /** The requested range lies entirely before or entirely after the positions first..last. */
  predicate Pruned(first: int, last: int, lrange: int, rrange: int) {
    (lrange < first && rrange < first) || (lrange > last && rrange > last)
  }

  /** _pqsort on the n elements from lo0 on: recursion on the smaller elements, iteration on the greater. */
  method Sort<T(!new)>(a: array<T>, lo0: nat, n0: nat, cmp: Cmp<T>, lrange: int, rrange: int)
    requires lo0 + n0 <= a.Length && TotalPreorder(cmp)
    modifies a
    ensures Permuted(old(a[..]), a[..], lo0, lo0 + n0)
    ensures PlacedIn(cmp, a[..], lo0, lo0 + n0, lrange, rrange)
    decreases n0
  {
    hide Permuted, TotalPreorder, Settled, PlacedIn, SortedRange, Thirds, Swapped;
    var lo, n, hi := lo0, n0, lo0 + n0;
    ghost var s0 := a[..];
    PermutedSelf(s0, lo0, hi);
    NothingSettled(cmp, s0, lo0, hi, lrange, rrange);
    while true
      invariant lo0 <= lo && lo + n == hi && 0 <= n <= n0
      invariant Permuted(s0, a[..], lo0, hi) && Settled(cmp, a[..], lo0, lo, hi, lrange, rrange)
      decreases n
    {
      if n < 7 {
        SortRest(a, lo0, lo, hi, cmp, lrange, rrange, s0);
        return;
      }
      ghost var s1 := a[..];
      var swapped, l, r, v := Partition(a, lo, hi, cmp);
      ghost var s2 := a[..];
      PermutedWider(s1, s2, lo, hi, lo0, hi);
      PermutedTrans(s0, s1, s2, lo0, hi);
      SettledKept(cmp, s1, s2, lo0, lo, hi, lrange, rrange);
      if !swapped {
        SortRest(a, lo0, lo, hi, cmp, lrange, rrange, s0);
        return;
      }
      if l - lo > 1 && !Pruned(lo, l - 1, lrange, rrange) {
        Sort(a, lo, l - lo, cmp, lrange, rrange);
        ghost var s3 := a[..];
        ThirdsKept(cmp, s2, s3, v, lo, l, r, hi);
        PermutedWider(s2, s3, lo, l, lo, hi);
        PermutedWider(s2, s3, lo, l, lo0, hi);
        PermutedTrans(s0, s2, s3, lo0, hi);
        SettledKept(cmp, s2, s3, lo0, lo, hi, lrange, rrange);
      } else {
        NothingAsked(cmp, a[..], lo, l, lrange, rrange);
      }
      Advance(cmp, a[..], v, lo0, lo, l, r, hi, lrange, rrange);
      if hi - r > 1 && !Pruned(r, hi - 1, lrange, rrange) {
        lo, n := r, hi - r;
      } else {
        NothingAsked(cmp, a[..], r, hi, lrange, rrange);
        Conclude(cmp, a[..], lo0, r, hi, lrange, rrange);
        return;
      }
    }
  }

  lemma NothingSettled<T>(cmp: Cmp<T>, s: seq<T>, lo: int, hi: int, lrange: int, rrange: int)
    requires 0 <= lo <= hi <= |s|
    ensures Settled(cmp, s, lo, lo, hi, lrange, rrange)
  {
  }

  /** The insertion sort that ends a run of the loop. */
  method SortRest<T(!new)>(a: array<T>, lo0: nat, lo: nat, hi: nat, cmp: Cmp<T>, lrange: int, rrange: int,
      ghost s0: seq<T>)
    requires lo0 <= lo <= hi <= a.Length && TotalPreorder(cmp)
    requires Permuted(s0, a[..], lo0, hi) && Settled(cmp, a[..], lo0, lo, hi, lrange, rrange)
    modifies a
    ensures Permuted(s0, a[..], lo0, hi) && PlacedIn(cmp, a[..], lo0, hi, lrange, rrange)
  {
    hide Permuted, TotalPreorder, Settled, PlacedIn, SortedRange;
    ghost var s := a[..];
    InsertionSort(a, lo, hi, cmp);
    PermutedWider(s, a[..], lo, hi, lo0, hi);
    PermutedTrans(s0, s, a[..], lo0, hi);
    SettledKept(cmp, s, a[..], lo0, lo, hi, lrange, rrange);
    SortedIsPlaced(cmp, a[..], lo, hi, lrange, rrange);
    Conclude(cmp, a[..], lo0, lo, hi, lrange, rrange);
  }

  /** pqsort: the array is permuted, and every position from lrange to rrange holds the element that a
      full sort could put there. */
  method PqSort<T(!new)>(a: array<T>, cmp: Cmp<T>, lrange: nat, rrange: nat)
    requires TotalPreorder(cmp)
    modifies a
    ensures multiset(a[..]) == multiset(old(a[..]))
    ensures forall i :: lrange <= i <= rrange && i < a.Length ==> Placed(cmp, a[..], 0, a.Length, i)
  {
    Sort(a, 0, a.Length, cmp, lrange, rrange);
    assert a[..][0..a.Length] == a[..] && old(a[..])[0..a.Length] == old(a[..]);
  }
}
