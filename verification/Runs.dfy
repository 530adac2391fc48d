/** Runs of the manager under any policy: the accesses, what they load, and the
    tables before and after. */
module Runs {
  import opened PageTable

  datatype PageRef = PageRef(page: int, write: bool)

  ghost predicate InRange(refs: seq<PageRef>, npages: int) {
    forall i :: 0 <= i < |refs| ==> 0 <= refs[i].page < npages
  }

  /** The pages faulted in over a run, in order. */
  function Loads(t: Table, policy: Policy, refs: seq<PageRef>): seq<int>
    requires t.Consistent() && InRange(refs, t.NPages())
    decreases |refs|
  {
    if refs == [] then []
    else
      (if t.Present(refs[0].page) then [] else [refs[0].page]) +
      Loads(AccessTable(t, policy, refs[0].page, refs[0].write), policy, refs[1..])
  }

  function RunTable(t: Table, policy: Policy, refs: seq<PageRef>): (r: Table)
    requires t.Consistent() && InRange(refs, t.NPages())
    ensures r.Consistent() && r.NPages() == t.NPages() && r.NFrames() == t.NFrames()
    decreases |refs|
  {
    if refs == [] then t
    else RunTable(AccessTable(t, policy, refs[0].page, refs[0].write), policy, refs[1..])
  }

  /** The tables as vmem_init leaves them. */
  function InitTable(npages: nat, nframes: nat): Table {
    Table(0, 0, seq(npages + 1, i => VOID_ENTRY), seq(nframes, i => VOID_IDX))
  }

  lemma InitConsistent(npages: nat, nframes: nat)
    requires npages >= 1 && nframes >= 1
    ensures InitTable(npages, nframes).Consistent()
    ensures InitTable(npages, nframes).NPages() == npages && InitTable(npages, nframes).NFrames() == nframes
  {
    var t := InitTable(npages, nframes);
    forall p | 0 <= p < npages ensures t.PageSound(p) { assert t.Entry(p) == VOID_ENTRY; }
  }

  lemma NoRefs(t: Table, policy: Policy)
    requires t.Consistent()
    ensures InRange([], t.NPages()) && Loads(t, policy, []) == [] && RunTable(t, policy, []) == t
  {
  }

  lemma RunUnfolds(t: Table, policy: Policy, refs: seq<PageRef>)
    requires t.Consistent() && InRange(refs, t.NPages()) && refs != []
    ensures 0 <= refs[0].page < t.NPages() && t.NFrames() >= 1
    ensures InRange(refs[1..], AccessTable(t, policy, refs[0].page, refs[0].write).NPages())
    ensures var page := refs[0].page;
            var t1 := AccessTable(t, policy, page, refs[0].write);
            && RunTable(t, policy, refs) == RunTable(t1, policy, refs[1..])
            && Loads(t, policy, refs) == (if t.Present(page) then [] else [page]) + Loads(t1, policy, refs[1..])
  {
  }

  /** A run followed by one more access. */
  lemma {:induction false} RunSnoc(t: Table, policy: Policy, refs: seq<PageRef>, last: PageRef)
    requires t.Consistent() && InRange(refs, t.NPages()) && 0 <= last.page < t.NPages()
    ensures InRange(refs + [last], t.NPages())
    ensures RunTable(t, policy, refs + [last]) == AccessTable(RunTable(t, policy, refs), policy, last.page, last.write)
    decreases |refs|
  {
    hide *;
    RangeSnoc(refs, last, t.NPages());
    RunUnfolds(t, policy, refs + [last]);
    if refs == [] {
      NoRefs(t, policy);
      assert (refs + [last])[1..] == refs && (refs + [last])[0] == last;
      NoRefs(AccessTable(t, policy, last.page, last.write), policy);
    } else {
      RunUnfolds(t, policy, refs);
      assert (refs + [last])[0] == refs[0] && (refs + [last])[1..] == refs[1..] + [last];
      RunSnoc(AccessTable(t, policy, refs[0].page, refs[0].write), policy, refs[1..], last);
    }
  }

  lemma RangeSnoc(refs: seq<PageRef>, last: PageRef, n: int)
    ensures InRange(refs + [last], n) <==> InRange(refs, n) && 0 <= last.page < n
  {
    assert (refs + [last])[|refs|] == last;
    forall i | 0 <= i < |refs| ensures refs[i] == (refs + [last])[i] {}
  }

  /** A run cut in two: its loads are the loads of the parts. */
  lemma {:induction false} LoadsAppend(t: Table, policy: Policy, before: seq<PageRef>, window: seq<PageRef>)
    requires t.Consistent() && InRange(before, t.NPages()) && InRange(window, t.NPages())
    ensures InRange(before + window, t.NPages())
    ensures Loads(t, policy, before + window) ==
            Loads(t, policy, before) + Loads(RunTable(t, policy, before), policy, window)
    decreases |before|
  {
    hide *;
    if before == [] {
      assert before + window == window;
      NoRefs(t, policy);
    } else {
      RunUnfolds(t, policy, before);
      assert (before + window)[0] == before[0] && (before + window)[1..] == before[1..] + window;
      InRangeAppend(before, window, t.NPages());
      RunUnfolds(t, policy, before + window);
      LoadsAppend(AccessTable(t, policy, before[0].page, before[0].write), policy, before[1..], window);
    }
  }

  lemma InRangeAppend(xs: seq<PageRef>, ys: seq<PageRef>, n: int)
    ensures InRange(xs + ys, n) <==> InRange(xs, n) && InRange(ys, n)
  {
    forall i | 0 <= i < |ys| ensures ys[i] == (xs + ys)[|xs| + i] {}
    forall i | 0 <= i < |xs| ensures xs[i] == (xs + ys)[i] {}
  }
}
