/** The demo application: quicksort that touches its data only through the
    access functions of the paged memory. */
module Quicksort {
  import opened PagedMemory
  import opened Vmem

  ghost predicate Range(s: seq<int>, l: int, r: int) {
    0 <= l <= r + 1 <= |s|
  }

  ghost predicate Sorted(s: seq<int>, l: int, r: int) {
    forall a, b :: l <= a <= b <= r && 0 <= a && b < |s| ==> s[a] <= s[b]
  }

  /** t is s with the cells l..r permuted. */
  ghost predicate Rearranged(s: seq<int>, t: seq<int>, l: int, r: int) {
    && |s| == |t|
    && (!Range(s, l, r) ==> s == t)
    && (Range(s, l, r) ==>
          s[..l] == t[..l] && s[r + 1..] == t[r + 1..] && multiset(s[l..r + 1]) == multiset(t[l..r + 1]))
  }

  /** Everything the trace gained since `before` lies in l..r. */
  ghost predicate OnlyTouched(before: seq<Op>, after: seq<Op>, l: int, r: int) {
    before <= after && forall k :: |before| <= k < |after| ==> l <= after[k].addr <= r
  }

  lemma RearrangedTrans(s: seq<int>, t: seq<int>, u: seq<int>, l: int, r: int)
    requires Rearranged(s, t, l, r) && Rearranged(t, u, l, r)
    ensures Rearranged(s, u, l, r)
  {
  }

  lemma RearrangedSame(s: seq<int>, l: int, r: int)
    ensures Rearranged(s, s, l, r)
  {
  }

  lemma TouchedMore(before: seq<Op>, between: seq<Op>, after: seq<Op>, l': int, r': int, l: int, r: int)
    requires OnlyTouched(before, between, l, r) && OnlyTouched(between, after, l', r') && l <= l' && r' <= r
    ensures OnlyTouched(before, after, l, r)
  {
  }

  lemma TouchedOne(before: seq<Op>, between: seq<Op>, op: Op, l: int, r: int)
    requires OnlyTouched(before, between, l, r) && l <= op.addr <= r
    ensures OnlyTouched(before, between + [op], l, r)
  {
  }

  lemma RearrangedWider(s: seq<int>, t: seq<int>, l': int, r': int, l: int, r: int)
    requires Rearranged(s, t, l', r') && l <= l' && r' <= r && Range(s, l, r) && Range(s, l', r')
    ensures Rearranged(s, t, l, r)
  {
    assert s[..l] == s[..l'][..l] && t[..l] == t[..l'][..l];
    assert s[r + 1..] == s[r' + 1..][r - r'..] && t[r + 1..] == t[r' + 1..][r - r'..];
    ThreeParts(s, l', r', l, r);
    ThreeParts(t, l', r', l, r);
  }

  lemma ThreeParts(s: seq<int>, l': int, r': int, l: int, r: int)
    requires 0 <= l <= l' <= r' + 1 <= r + 1 <= |s|
    ensures s[l..r + 1] == s[..l'][l..] + s[l'..r' + 1] + s[r' + 1..][..r - r']
  {
  }

  lemma SwapRearranges(s: seq<int>, a: int, b: int, l: int, r: int)
    requires Range(s, l, r) && l <= a <= b <= r
    ensures Rearranged(s, s[a := s[b]][b := s[a]], l, r)
  {
    var t := s[a := s[b]][b := s[a]];
    var m := s[l..r + 1];
    assert t[l..r + 1] == m[a - l := m[b - l]][b - l := m[a - l]];
    assert s[..l] == t[..l] && s[r + 1..] == t[r + 1..];
  }

  /** A bound on the cells l..r survives a permutation of them. */
  lemma BoundSurvives(s: seq<int>, t: seq<int>, l: int, r: int, p: int)
    requires Range(s, l, r) && Rearranged(s, t, l, r)
    ensures (forall a :: l <= a <= r ==> s[a] < p) ==> forall a :: l <= a <= r ==> t[a] < p
    ensures (forall a :: l <= a <= r ==> s[a] >= p) ==> forall a :: l <= a <= r ==> t[a] >= p
  {
    forall a | l <= a <= r ensures exists b :: l <= b <= r && s[b] == t[a] {
      assert t[a] == t[l..r + 1][a - l];
      assert t[a] in multiset(t[l..r + 1]);
      assert t[a] in s[l..r + 1];
      var b :| 0 <= b < |s[l..r + 1]| && s[l..r + 1][b] == t[a];
      assert s[l + b] == t[a];
    }
  }

  method Swap(v: VmemStruct, addr1: int, addr2: int)
    requires v.Valid() && 0 <= addr1 <= addr2 < v.npages * v.pageSize
    modifies v.Repr
    ensures v.Valid() && old(v.Valid())
    ensures v.Cells() == old(v.Cells())[addr1 := old(v.Cells())[addr2]][addr2 := old(v.Cells())[addr1]]
    ensures OnlyTouched(old(v.trace), v.trace, addr1, addr2)
  {
    hide *;
    NothingTouched(v.trace, addr1, addr2);
    TouchedOne(old(v.trace), v.trace, Read(addr1), addr1, addr2);
    var tmp := v.VmemRead(addr1);
    TouchedOne(old(v.trace), v.trace, Read(addr2), addr1, addr2);
    var other := v.VmemRead(addr2);
    TouchedOne(old(v.trace), v.trace, Write(addr1, other), addr1, addr2);
    v.VmemWrite(addr1, other);
    TouchedOne(old(v.trace), v.trace, Write(addr2, tmp), addr1, addr2);
    v.VmemWrite(addr2, tmp);
  }

  /** All cells of l..i-1 below the pivot, all cells of j+1..r-1 at least the pivot. */
  ghost predicate Partitioned(s: seq<int>, l: int, r: int, i: int, j: int, pivot: int) {
    && 0 <= l <= i <= r < |s| && l <= j < r && s[r] == pivot
    && (forall a :: l <= a < i ==> s[a] < pivot)
    && (forall a :: j < a < r ==> s[a] >= pivot)
  }

  /** One comparison of the source: both cells are read through the pager. */
  method ReadPair(v: VmemStruct, addr: int, r: int, ghost before: seq<Op>, ghost l: int) returns (x: int, p: int)
    requires v.Valid() && l <= addr <= r && 0 <= addr && r < v.npages * v.pageSize
    requires OnlyTouched(before, v.trace, l, r)
    modifies v.Repr
    ensures v.Valid() && old(v.Valid()) && v.Cells() == old(v.Cells())
    ensures x == v.Cells()[addr] && p == v.Cells()[r]
    ensures OnlyTouched(before, v.trace, l, r)
  {
    hide *;
    TouchedOne(before, v.trace, Read(addr), l, r);
    x := v.VmemRead(addr);
    TouchedOne(before, v.trace, Read(r), l, r);
    p := v.VmemRead(r);
  }

  /** The outer loop of the source and the swap after it: the pivot ends at i. */
  method Partition(v: VmemStruct, l: int, r: int) returns (i: int)
    requires v.Valid() && 0 <= l < r < v.npages * v.pageSize
    modifies v.Repr
    ensures v.Valid() && old(v.Valid()) && l <= i <= r
    ensures Rearranged(old(v.Cells()), v.Cells(), l, r)
    ensures v.Cells()[i] == old(v.Cells())[r]
    ensures forall a :: l <= a < i ==> v.Cells()[a] < v.Cells()[i]
    ensures forall a :: i < a <= r ==> v.Cells()[a] >= v.Cells()[i]
    ensures OnlyTouched(old(v.trace), v.trace, l, r)
  {
    hide VmemStruct.Valid, VmemStruct.Cells, Rearranged, OnlyTouched;
    ghost var start := v.Cells();
    ghost var pivot := start[r];
    i := l;
    var j := r - 1;
    RearrangedSame(start, l, r);
    NothingTouched(v.trace, l, r);
    while true
      invariant v.Valid() && Partitioned(v.Cells(), l, r, i, j, pivot) && i <= j
      invariant Rearranged(start, v.Cells(), l, r)
      invariant OnlyTouched(old(v.trace), v.trace, l, r)
      decreases j - i, v.Cells()[i] >= pivot
    {
      ghost var cells := v.Cells();
      ghost var i0, j0 := i, j;
      while true
        invariant v.Valid() && v.Cells() == cells && Partitioned(cells, l, r, i, j, pivot) && i0 <= i
        invariant i == i0 || cells[i0] < pivot
        invariant OnlyTouched(old(v.trace), v.trace, l, r)
        decreases r - i
      {
        var x, p := ReadPair(v, i, r, old(v.trace), l);
        if !(x < p) { break; }
        i := i + 1;
      }
      while true
        invariant v.Valid() && v.Cells() == cells && Partitioned(cells, l, r, i, j, pivot) && j <= j0
        invariant OnlyTouched(old(v.trace), v.trace, l, r)
        decreases j - l
      {
        var x, p := ReadPair(v, j, r, old(v.trace), l);
        if !(x >= p && j > l) { break; }
        j := j - 1;
      }
      if i >= j { break; }
      SwapInRange(v, i, j, start, old(v.trace), l, r);
    }
    SwapInRange(v, i, r, start, old(v.trace), l, r);
  }

  lemma NothingTouched(trace: seq<Op>, l: int, r: int)
    ensures OnlyTouched(trace, trace, l, r)
  {
  }

  /** Swap as one more rearrangement of the range that is being sorted. */
  method SwapInRange(v: VmemStruct, a: int, b: int, ghost start: seq<int>, ghost before: seq<Op>,
                     ghost l: int, ghost r: int)
    requires v.Valid() && 0 <= l <= a <= b <= r < v.npages * v.pageSize
    requires Rearranged(start, v.Cells(), l, r) && OnlyTouched(before, v.trace, l, r)
    modifies v.Repr
    ensures v.Valid() && old(v.Valid())
    ensures v.Cells() == old(v.Cells())[a := old(v.Cells())[b]][b := old(v.Cells())[a]]
    ensures Rearranged(start, v.Cells(), l, r) && OnlyTouched(before, v.trace, l, r)
  {
    hide VmemStruct.Valid, VmemStruct.Cells, Rearranged, OnlyTouched;
    ghost var cells := v.Cells();
    ghost var trace := v.trace;
    Swap(v, a, b);
    SwapRearranges(cells, a, b, l, r);
    RearrangedTrans(start, cells, v.Cells(), l, r);
    TouchedMore(before, trace, v.trace, a, b, l, r);
  }

  /** Sorts the cells l..r, permuting them, and touches no other address. */
  method Sort(v: VmemStruct, l: int, r: int)
    requires v.Valid() && (l < r ==> 0 <= l && r < v.npages * v.pageSize)
    modifies v.Repr
    ensures v.Valid() && old(v.Valid())
    ensures Sorted(v.Cells(), l, r)
    ensures Rearranged(old(v.Cells()), v.Cells(), l, r)
    ensures OnlyTouched(old(v.trace), v.trace, l, r)
    decreases r - l
  {
    hide VmemStruct.Valid, VmemStruct.Cells, Rearranged, OnlyTouched;
    RearrangedSame(v.Cells(), l, r);
    NothingTouched(v.trace, l, r);
    if l < r {
      var i := Partition(v, l, r);
      ghost var c0, t0 := v.Cells(), v.trace;
      Sort(v, l, i - 1);
      ghost var c1, t1 := v.Cells(), v.trace;
      Sort(v, i + 1, r);
      LowerHalf(c0, c1, l, i, r);
      UpperHalf(c0, c1, v.Cells(), l, i, r);
      RearrangedTrans(old(v.Cells()), c0, v.Cells(), l, r);
      TouchedMore(old(v.trace), t0, t1, l, i - 1, l, r);
      TouchedMore(old(v.trace), t1, v.trace, i + 1, r, l, r);
    }
  }

  /** Sorting the part below the pivot. */
  lemma LowerHalf(c0: seq<int>, c1: seq<int>, l: int, i: int, r: int)
    requires 0 <= l <= i <= r < |c0| && Rearranged(c0, c1, l, i - 1)
    requires forall a :: l <= a < i ==> c0[a] < c0[i]
    requires forall a :: i < a <= r ==> c0[a] >= c0[i]
    ensures |c1| == |c0| && c1[i] == c0[i] && Rearranged(c0, c1, l, r)
    ensures forall a :: l <= a < i ==> c1[a] < c1[i]
    ensures forall a :: i < a <= r ==> c1[a] >= c1[i]
  {
    BoundSurvives(c0, c1, l, i - 1, c0[i]);
    forall a | i <= a <= r ensures c1[a] == c0[a] {
      assert c1[i - 1 + 1..][a - i] == c0[i - 1 + 1..][a - i];
    }
    RearrangedWider(c0, c1, l, i - 1, l, r);
  }

  /** Sorting the part above it as well. */
  lemma UpperHalf(c0: seq<int>, c1: seq<int>, c2: seq<int>, l: int, i: int, r: int)
    requires 0 <= l <= i <= r < |c1| == |c0| && Rearranged(c1, c2, i + 1, r) && Rearranged(c0, c1, l, r)
    requires forall a :: l <= a < i ==> c1[a] < c1[i]
    requires forall a :: i < a <= r ==> c1[a] >= c1[i]
    requires Sorted(c1, l, i - 1) && Sorted(c2, i + 1, r)
    ensures Sorted(c2, l, r) && Rearranged(c0, c2, l, r)
  {
    BoundSurvives(c1, c2, i + 1, r, c1[i]);
    forall a | 0 <= a <= i ensures c2[a] == c1[a] {
      assert c2[..i + 1][a] == c1[..i + 1][a];
    }
    RearrangedWider(c1, c2, i + 1, r, l, r);
    RearrangedTrans(c0, c1, c2, l, r);
  }

  lemma {:induction false} SortedUnique(s: seq<int>, t: seq<int>)
    requires multiset(s) == multiset(t)
    requires Sorted(s, 0, |s| - 1) && Sorted(t, 0, |t| - 1)
    ensures s == t
    decreases |s|
  {
    assert |s| == |multiset(s)| == |multiset(t)| == |t|;
    if s != [] {
      HeadIsLeast(s, t);
      HeadIsLeast(t, s);
      TailOf(s);
      TailOf(t);
      hide Sorted;
      SortedUnique(s[1..], t[1..]);
      assert s == [s[0]] + s[1..] && t == [t[0]] + t[1..];
    }
  }

  lemma HeadIsLeast(s: seq<int>, t: seq<int>)
    requires s != [] && t != [] && multiset(s) == multiset(t) && Sorted(s, 0, |s| - 1)
    ensures s[0] <= t[0]
  {
    assert t[0] in multiset(s);
    var i :| 0 <= i < |s| && s[i] == t[0];
  }

  lemma TailOf(s: seq<int>)
    requires s != [] && Sorted(s, 0, |s| - 1)
    ensures Sorted(s[1..], 0, |s[1..]| - 1)
    ensures multiset(s[1..]) == multiset(s) - multiset{s[0]}
  {
    assert s == [s[0]] + s[1..];
  }

  /** What Sort promises determines the resulting memory. */
  lemma SortResultUnique(before: seq<int>, after1: seq<int>, after2: seq<int>, l: int, r: int)
    requires Rearranged(before, after1, l, r) && Sorted(after1, l, r)
    requires Rearranged(before, after2, l, r) && Sorted(after2, l, r)
    ensures after1 == after2
  {
    if Range(before, l, r) {
      var m1, m2 := after1[l..r + 1], after2[l..r + 1];
      forall a, b | 0 <= a <= b <= |m1| - 1 ensures m1[a] <= m1[b] && m2[a] <= m2[b] {
        assert after1[l + a] <= after1[l + b] && after2[l + a] <= after2[l + b];
      }
      SortedUnique(m1, m2);
      assert after1 == after1[..l] + m1 + after1[r + 1..];
      assert after2 == after2[..l] + m2 + after2[r + 1..];
    }
  }

  /** Two pagers with the same cells, whatever their policies, frame counts and tables: the demo
      application leaves both with the same cells. */
  method SortBoth(v: VmemStruct, w: VmemStruct, l: int, r: int)
    requires v.Valid() && w.Valid() && v.Repr !! w.Repr && v.Cells() == w.Cells()
    requires l < r ==> 0 <= l && r < v.npages * v.pageSize && r < w.npages * w.pageSize
    modifies v.Repr, w.Repr
    ensures v.Valid() && w.Valid() && old(v.Valid() && w.Valid())
    ensures v.Cells() == w.Cells()
    ensures Sorted(v.Cells(), l, r) && Rearranged(old(v.Cells()), v.Cells(), l, r)
  {
    assert v in v.Repr && w in w.Repr;
    hide VmemStruct.Valid, VmemStruct.Cells, Sorted, Rearranged, OnlyTouched;
    ghost var before := v.Cells();
    Sort(v, l, r);
    ghost var sorted := v.Cells();
    Sort(w, l, r);
    SortResultUnique(before, sorted, w.Cells(), l, r);
  }
}
