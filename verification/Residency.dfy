/** How many pages are resident: in every reachable state the page table and the
    inverse table describe one and the same bijection, of `size` pages and frames. */
module Residency {
  import opened PageTable
  import opened Runs

  ghost function ResidentPages(t: Table): set<int>
    requires t.Shaped()
  {
    set p: int | 0 <= p < t.NPages() && t.Present(p)
  }

  lemma {:induction false} DistinctCount(xs: seq<int>)
    requires forall i, j :: 0 <= i < j < |xs| ==> xs[i] != xs[j]
    ensures |set x | x in xs| == |xs|
  {
    if xs != [] {
      var k := |xs| - 1;
      DistinctCount(xs[..k]);
      assert (set x | x in xs) == (set x | x in xs[..k]) + {xs[k]};
    }
  }

  /** The occupied frames hold exactly the resident pages, each one once. */
  lemma FramesHoldResidentPages(t: Table)
    requires t.Consistent()
    ensures ResidentPages(t) == (set p | p in t.framepage[..t.size])
    ensures |ResidentPages(t)| == t.size
    ensures forall f :: 0 <= f < t.size ==> 0 <= t.framepage[f] < t.NPages() && t.Entry(t.framepage[f]).frame == f
    ensures forall p :: 0 <= p < t.NPages() && t.Present(p) ==>
              0 <= t.Entry(p).frame < t.size && t.framepage[t.Entry(p).frame] == p
  {
    var xs := t.framepage[..t.size];
    forall i, j | 0 <= i < j < |xs| ensures xs[i] != xs[j] {
      assert t.FrameHolds(i) && t.FrameHolds(j);
    }
    DistinctCount(xs);
    forall p | 0 <= p < t.NPages() && t.Present(p)
      ensures 0 <= t.Entry(p).frame < t.size && t.framepage[t.Entry(p).frame] == p
    {
      assert t.PageSound(p);
    }
    forall f | 0 <= f < t.size
      ensures 0 <= t.framepage[f] < t.NPages() && t.Entry(t.framepage[f]).frame == f && t.Present(t.framepage[f])
    {
      assert t.FrameHolds(f) && t.PageSound(t.framepage[f]);
    }
    forall p | p in ResidentPages(t) ensures p in xs {
      assert xs[t.Entry(p).frame] == p;
    }
    assert ResidentPages(t) == (set p | p in xs);
  }

  function Smaller(a: nat, b: nat): nat {
    if a < b then a else b
  }

  lemma AccessSize(t: Table, policy: Policy, page: int, write: bool)
    requires t.Consistent() && 0 <= page < t.NPages()
    ensures AccessTable(t, policy, page, write).size ==
            Smaller(t.size + (if t.Present(page) then 0 else 1), t.NFrames())
  {
    if !t.Present(page) {
      ChooseSound(t, policy);
      if t.Full() && policy != Fifo {
        SweepSound(t, policy);
      }
    }
  }

  lemma {:induction false} RunSize(t: Table, policy: Policy, refs: seq<PageRef>)
    requires t.Consistent() && InRange(refs, t.NPages())
    ensures RunTable(t, policy, refs).size == Smaller(t.size + |Loads(t, policy, refs)|, t.NFrames())
    decreases |refs|
  {
    hide *;
    if refs == [] {
      SizeOfNothing(t, policy);
    } else {
      RunUnfolds(t, policy, refs);
      AccessSize(t, policy, refs[0].page, refs[0].write);
      RunSize(AccessTable(t, policy, refs[0].page, refs[0].write), policy, refs[1..]);
      SizeAdds(t.size, if t.Present(refs[0].page) then 0 else 1, t.NFrames(),
               |Loads(AccessTable(t, policy, refs[0].page, refs[0].write), policy, refs[1..])|);
    }
  }

  lemma SizeOfNothing(t: Table, policy: Policy)
    requires t.Consistent()
    ensures InRange([], t.NPages())
    ensures RunTable(t, policy, []).size == Smaller(t.size + |Loads(t, policy, [])|, t.NFrames())
  {
  }

  lemma SizeAdds(size: nat, one: nat, n: nat, more: nat)
    ensures Smaller(Smaller(size + one, n) + more, n) == Smaller(size + (one + more), n)
  {
  }

  /** After any run from the start, under any policy: as many pages are resident as were
      loaded, until all frames are occupied. */
  lemma ResidentAfterRun(npages: nat, nframes: nat, policy: Policy, refs: seq<PageRef>)
    requires npages >= 1 && nframes >= 1 && InRange(refs, npages)
    ensures InitTable(npages, nframes).Consistent() && InitTable(npages, nframes).NPages() == npages
    ensures var t := RunTable(InitTable(npages, nframes), policy, refs);
            |ResidentPages(t)| == t.size == Smaller(|Loads(InitTable(npages, nframes), policy, refs)|, nframes)
  {
    InitConsistent(npages, nframes);
    RunSize(InitTable(npages, nframes), policy, refs);
    FramesHoldResidentPages(RunTable(InitTable(npages, nframes), policy, refs));
  }
}
