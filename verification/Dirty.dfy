/** What the CHANGED bit means: over runs from the start, a resident page has it exactly if
    it was written since it came in.  So the manager stores exactly the pages that need it. */
module Dirty {
  import opened PageTable
  import opened Runs
  import opened PagedMemory

  /** The tables before access number j of a run. */
  function TableBefore(t: Table, policy: Policy, refs: seq<PageRef>, j: nat): (r: Table)
    requires t.Consistent() && InRange(refs, t.NPages()) && j <= |refs|
    ensures r.Consistent() && r.NPages() == t.NPages()
  {
    RunTable(t, policy, refs[..j])
  }

  /** Access number j of the run faults. */
  ghost predicate LoadedAt(t: Table, policy: Policy, refs: seq<PageRef>, j: nat)
    requires t.Consistent() && InRange(refs, t.NPages()) && j < |refs|
  {
    !TableBefore(t, policy, refs, j).Present(refs[j].page)
  }

  /** The run holds a write to p that is not followed by a load of p. */
  ghost predicate WrittenSinceLoad(t: Table, policy: Policy, refs: seq<PageRef>, p: int)
    requires t.Consistent() && InRange(refs, t.NPages())
  {
    exists k :: 0 <= k < |refs| && refs[k].page == p && refs[k].write && NotLoadedAfter(t, policy, refs, p, k)
  }

  ghost predicate NotLoadedAfter(t: Table, policy: Policy, refs: seq<PageRef>, p: int, k: nat)
    requires t.Consistent() && InRange(refs, t.NPages()) && k < |refs|
  {
    forall j :: k < j < |refs| && refs[j].page == p ==> !LoadedAt(t, policy, refs, j)
  }

  ghost predicate Changed(t: Table, p: int) {
    0 <= p < t.NPages() && t.Entry(p).flags.changed
  }

  /** One access: a fault clears the bit, a write sets it, nothing else changes it. */
  lemma AccessChanges(t: Table, policy: Policy, q: int, write: bool, p: int)
    requires t.Consistent() && 0 <= q < t.NPages() && 0 <= p < t.NPages()
    ensures var r := AccessTable(t, policy, q, write);
            && (p == q ==> (Changed(r, p) <==> write || (t.Present(p) && Changed(t, p))))
            && (p != q && r.Present(p) ==> t.Present(p) && (Changed(r, p) <==> Changed(t, p)))
  {
    var t1 := Resident(t, policy, q);
    if !t.Present(q) {
      assert Fault(t, policy, q).PageSound(p) && t.PageSound(p) by { FaultSound(t, policy, q); }
      FaultEntry(t, policy, q, p);
    }
    hide Fault, Choose;
    TouchFlags(t1, q, write);
  }

  lemma SameBefore(t: Table, policy: Policy, refs: seq<PageRef>, last: PageRef, j: nat)
    requires t.Consistent() && InRange(refs, t.NPages()) && 0 <= last.page < t.NPages() && j <= |refs|
    ensures InRange(refs + [last], t.NPages())
    ensures TableBefore(t, policy, refs + [last], j) == TableBefore(t, policy, refs, j)
  {
    RangeSnoc(refs, last, t.NPages());
    assert (refs + [last])[..j] == refs[..j];
  }

  lemma SameLoads(t: Table, policy: Policy, refs: seq<PageRef>, last: PageRef)
    requires t.Consistent() && InRange(refs, t.NPages()) && 0 <= last.page < t.NPages()
    ensures InRange(refs + [last], t.NPages())
    ensures forall j :: 0 <= j < |refs| ==>
              (refs + [last])[j] == refs[j] && (LoadedAt(t, policy, refs + [last], j) <==> LoadedAt(t, policy, refs, j))
    ensures LoadedAt(t, policy, refs + [last], |refs|) <==> !RunTable(t, policy, refs).Present(last.page)
  {
    RangeSnoc(refs, last, t.NPages());
    forall j | 0 <= j < |refs|
      ensures LoadedAt(t, policy, refs + [last], j) <==> LoadedAt(t, policy, refs, j)
    {
      SameBefore(t, policy, refs, last, j);
    }
    SameBefore(t, policy, refs, last, |refs|);
    assert refs[..|refs|] == refs;
  }

  /** A write before the last access counts as before, unless the last access loads the page. */
  lemma StillNotLoaded(t: Table, policy: Policy, refs: seq<PageRef>, last: PageRef, p: int, k: nat)
    requires t.Consistent() && InRange(refs, t.NPages()) && 0 <= last.page < t.NPages() && 0 <= p < t.NPages()
    requires k < |refs|
    ensures InRange(refs + [last], t.NPages())
    ensures NotLoadedAfter(t, policy, refs + [last], p, k) <==>
            NotLoadedAfter(t, policy, refs, p, k) && (last.page == p ==> RunTable(t, policy, refs).Present(p))
  {
    hide RunTable, LoadedAt;
    SameLoads(t, policy, refs, last);
    if NotLoadedAfter(t, policy, refs + [last], p, k) {
      forall j | k < j < |refs| && refs[j].page == p ensures !LoadedAt(t, policy, refs, j) {
        assert (refs + [last])[j].page == p && !LoadedAt(t, policy, refs + [last], j);
      }
      assert last.page == p ==> !LoadedAt(t, policy, refs + [last], |refs|);
    }
  }

  lemma JustWritten(t: Table, policy: Policy, refs: seq<PageRef>, p: int)
    requires t.Consistent() && InRange(refs, t.NPages()) && refs != []
    ensures NotLoadedAfter(t, policy, refs, p, |refs| - 1)
  {
  }

  /** The condition after one more access. */
  lemma WrittenSnoc(t: Table, policy: Policy, refs: seq<PageRef>, last: PageRef, p: int)
    requires t.Consistent() && InRange(refs, t.NPages()) && 0 <= last.page < t.NPages() && 0 <= p < t.NPages()
    ensures InRange(refs + [last], t.NPages())
    ensures WrittenSinceLoad(t, policy, refs + [last], p) <==>
              (last.page == p && last.write) ||
              (WrittenSinceLoad(t, policy, refs, p) && (last.page == p ==> RunTable(t, policy, refs).Present(p)))
  {
    hide Table.Consistent, InRange, RunTable, NotLoadedAfter;
    RangeSnoc(refs, last, t.NPages());
    var all, n := refs + [last], |refs|;
    JustWritten(t, policy, all, p);
    forall k | 0 <= k < n
      ensures all[k] == refs[k]
      ensures NotLoadedAfter(t, policy, all, p, k) <==>
              NotLoadedAfter(t, policy, refs, p, k) && (last.page == p ==> RunTable(t, policy, refs).Present(p))
    {
      StillNotLoaded(t, policy, refs, last, p, k);
    }
  }

  /** Main theorem: after any run from the start, under any policy, a resident page is marked
      CHANGED if and only if it was written since its last load. */
  lemma {:induction false} ChangedIffWritten(npages: nat, nframes: nat, policy: Policy, refs: seq<PageRef>, p: int)
    requires npages >= 1 && nframes >= 1 && InRange(refs, npages) && 0 <= p < npages
    ensures InitTable(npages, nframes).Consistent() && InitTable(npages, nframes).NPages() == npages
    ensures var t := RunTable(InitTable(npages, nframes), policy, refs);
            t.Present(p) ==> (Changed(t, p) <==> WrittenSinceLoad(InitTable(npages, nframes), policy, refs, p))
    decreases |refs|
  {
    InitConsistent(npages, nframes);
    var t0 := InitTable(npages, nframes);
    if refs == [] {
      assert t0.Entry(p) == VOID_ENTRY;
    } else {
      var n := |refs| - 1;
      var before, last := refs[..n], refs[n];
      assert refs == before + [last];
      RangeSnoc(before, last, npages);
      ChangedIffWritten(npages, nframes, policy, before, p);
      RunSnoc(t0, policy, before, last);
      WrittenSnoc(t0, policy, before, last, p);
      AccessChanges(RunTable(t0, policy, before), policy, last.page, last.write, p);
    }
  }

  // ----- what this means for the page file -----

  /** A read marks no page. */
  lemma ReadMarksNothing(t: Table, policy: Policy, q: int, p: int)
    requires t.Consistent() && 0 <= q < t.NPages() && Changed(AccessTable(t, policy, q, false), p)
    ensures Changed(t, p)
  {
    AccessChanges(t, policy, q, false, p);
    assert AccessTable(t, policy, q, false).PageSound(p);
  }

  /** A read of an address marks no page, a write marks its own. */
  lemma AccessMarks(m: Memory, policy: Policy, op: Op, pageSize: nat)
    requires Sound(m, pageSize) && op.addr < m.table.NPages() * pageSize
    ensures op.Read? ==> forall p :: Changed(Access(m, policy, op, pageSize).table, p) ==> Changed(m.table, p)
    ensures op.Write? ==> Changed(Access(m, policy, op, pageSize).table, op.addr / pageSize)
  {
    AccessRefines(m, policy, op, pageSize);
    var r := Access(m, policy, op, pageSize);
    var page := PageOf(op.addr, pageSize);
    hide Access, Sound, Flat;
    if op.Read? {
      forall p | Changed(r.table, p) ensures Changed(m.table, p) {
        ReadMarksNothing(m.table, policy, page, p);
      }
    } else {
      AccessChanges(m.table, policy, page, true, page);
    }
  }

  /** The accesses to pages behind the accesses to addresses. */
  function RefsOf(ops: seq<Op>, pageSize: nat): (refs: seq<PageRef>)
    requires pageSize >= 1
    ensures |refs| == |ops|
  {
    seq(|ops|, i requires 0 <= i < |ops| => PageRef(PageOf(ops[i].addr, pageSize), ops[i].Write?))
  }

  lemma RefsInRange(ops: seq<Op>, npages: nat, pageSize: nat)
    requires pageSize >= 1 && Addressed(ops, npages * pageSize)
    ensures InRange(RefsOf(ops, pageSize), npages)
  {
    forall i | 0 <= i < |ops| ensures RefsOf(ops, pageSize)[i].page < npages {
      AddressSplit(ops[i].addr, npages, pageSize);
    }
  }

  lemma RefsUnfold(ops: seq<Op>, pageSize: nat)
    requires pageSize >= 1
    ensures if ops == [] then RefsOf(ops, pageSize) == []
            else
              && RefsOf(ops, pageSize)[0] == PageRef(PageOf(ops[0].addr, pageSize), ops[0].Write?)
              && RefsOf(ops, pageSize)[1..] == RefsOf(ops[1..], pageSize)
  {
  }

  lemma SoundTable(m: Memory, pageSize: nat)
    requires Sound(m, pageSize)
    ensures pageSize >= 1 && m.table.Consistent() && m.table.NPages() >= 1
  {
  }

  lemma NoOps(m: Memory, policy: Policy, pageSize: nat)
    requires Sound(m, pageSize)
    ensures Addressed([], m.table.NPages() * pageSize) && Run(m, policy, [], pageSize) == m
  {
  }

  /** The tables of the memory run on their own. */
  lemma {:induction false} TableOfRun(m: Memory, policy: Policy, ops: seq<Op>, pageSize: nat)
    requires Sound(m, pageSize) && Addressed(ops, m.table.NPages() * pageSize)
    ensures InRange(RefsOf(ops, pageSize), m.table.NPages())
    ensures Run(m, policy, ops, pageSize).table == RunTable(m.table, policy, RefsOf(ops, pageSize))
    decreases |ops|
  {
    hide Addressed, Sound, Run, RunTable, InRange, RefsOf, Access, AccessTable, Table.Consistent;
    SoundTable(m, pageSize);
    RefsInRange(ops, m.table.NPages(), pageSize);
    RefsUnfold(ops, pageSize);
    if ops == [] {
      NoOps(m, policy, pageSize);
      NoRefs(m.table, policy);
    } else {
      OpsUnfold(m, policy, ops, pageSize);
      AccessRefines(m, policy, ops[0], pageSize);
      TableOfRun(Access(m, policy, ops[0], pageSize), policy, ops[1..], pageSize);
      RunUnfolds(m.table, policy, RefsOf(ops, pageSize));
    }
  }

  /** In every fault of every run the manager stores the victim if and only if the program wrote to
      it since it came in. */
  lemma StoresExactlyTheWritten(npages: nat, nframes: nat, pageSize: nat, pagefile: seq<seq<int>>, policy: Policy,
                                ops: seq<Op>, page: int)
    requires npages >= 1 && nframes >= 1 && pageSize >= 1 && Blocks(pagefile, npages, pageSize)
    requires Addressed(ops, npages * pageSize) && 0 <= page < npages
    ensures Sound(InitMemory(npages, nframes, pageSize, pagefile), pageSize)
    ensures InitMemory(npages, nframes, pageSize, pagefile).table.NPages() == npages
    ensures InRange(RefsOf(ops, pageSize), npages) && InitTable(npages, nframes).Consistent()
    ensures var m := Run(InitMemory(npages, nframes, pageSize, pagefile), policy, ops, pageSize);
            !m.table.Present(page) ==>
              && |m.frames| == m.table.NFrames() && |m.pagefile| == m.table.NPages()
              && var victim := VictimOf(m, policy);
                 var needed := victim != VOID_IDX &&
                               WrittenSinceLoad(InitTable(npages, nframes), policy, RefsOf(ops, pageSize), victim);
                 && (victim != VOID_IDX ==> (Changed(m.table, victim) <==> needed))
                 && PageFault(m, policy, page).pagefile ==
                    if needed then m.pagefile[victim := m.frames[Choose(m.table, policy).frame]] else m.pagefile
  {
    InitSound(npages, nframes, pageSize, pagefile);
    InitConsistent(npages, nframes);
    var m0 := InitMemory(npages, nframes, pageSize, pagefile);
    TableOfRun(m0, policy, ops, pageSize);
    var m := Run(m0, policy, ops, pageSize);
    hide Run, WrittenSinceLoad, InitTable, RunTable;
    if !m.table.Present(page) {
      FaultParts(m, policy, page);
      var victim := VictimOf(m, policy);
      if victim != VOID_IDX {
        ChangedIffWritten(npages, nframes, policy, RefsOf(ops, pageSize), victim);
      }
    }
  }

  /** A program that only reads never changes the page file: no page is ever marked, so none is
      stored. */
  lemma ReadersStoreNothing(npages: nat, nframes: nat, pageSize: nat, pagefile: seq<seq<int>>, policy: Policy,
                            ops: seq<Op>)
    requires npages >= 1 && nframes >= 1 && pageSize >= 1 && Blocks(pagefile, npages, pageSize)
    requires Addressed(ops, npages * pageSize) && forall i :: 0 <= i < |ops| ==> ops[i].Read?
    ensures Sound(InitMemory(npages, nframes, pageSize, pagefile), pageSize)
    ensures InitMemory(npages, nframes, pageSize, pagefile).table.NPages() == npages
    ensures var m := Run(InitMemory(npages, nframes, pageSize, pagefile), policy, ops, pageSize);
            m.pagefile == pagefile && forall p :: !Changed(m.table, p)
  {
    InitSound(npages, nframes, pageSize, pagefile);
    var m0 := InitMemory(npages, nframes, pageSize, pagefile);
    forall p ensures !Changed(m0.table, p) {
      assert 0 <= p < npages ==> m0.table.Entry(p) == VOID_ENTRY;
    }
    hide Sound, InitMemory;
    ReadsKeepClean(m0, policy, ops, pageSize);
  }

  lemma {:induction false} ReadsKeepClean(m: Memory, policy: Policy, ops: seq<Op>, pageSize: nat)
    requires Sound(m, pageSize) && Addressed(ops, m.table.NPages() * pageSize)
    requires (forall p :: !Changed(m.table, p)) && forall i :: 0 <= i < |ops| ==> ops[i].Read?
    ensures Run(m, policy, ops, pageSize).pagefile == m.pagefile
    ensures forall p :: !Changed(Run(m, policy, ops, pageSize).table, p)
    decreases |ops|
  {
    if ops != [] {
      OpsUnfold(m, policy, ops, pageSize);
      ReadKeepsClean(m, policy, ops[0], pageSize);
      hide Run, Access, Sound, Changed;
      ReadsKeepClean(Access(m, policy, ops[0], pageSize), policy, ops[1..], pageSize);
    }
  }

  lemma ReadKeepsClean(m: Memory, policy: Policy, op: Op, pageSize: nat)
    requires Sound(m, pageSize) && op.addr < m.table.NPages() * pageSize && op.Read?
    requires forall p :: !Changed(m.table, p)
    ensures Access(m, policy, op, pageSize).pagefile == m.pagefile
    ensures forall p :: !Changed(Access(m, policy, op, pageSize).table, p)
  {
    AccessMarks(m, policy, op, pageSize);
    AddressSplit(op.addr, m.table.NPages(), pageSize);
    var page := PageOf(op.addr, pageSize);
    if !m.table.Present(page) {
      FaultParts(m, policy, page);
      assert !Changed(m.table, VictimOf(m, policy));
    }
  }
}
