/** FIFO replaces pages in the order in which they were loaded. */
module LoadOrder {
  import opened PageTable
  import opened Runs

  /** The frames, read cyclically from the hand, are the last |frames| loads of `log`, oldest first;
      while there are fewer loads than frames, they fill the frames from the first on. */
  ghost predicate Cyclic(frames: seq<int>, hand: nat, log: seq<int>)
    requires hand < |frames|
  {
    var n := |frames|;
    if |log| < n then forall f :: 0 <= f < |log| ==> frames[f] == log[f]
    else forall f :: 0 <= f < n ==> frames[f] == log[|log| - n + Dist(hand, f, n)]
  }

  lemma CyclicStep(frames: seq<int>, hand: nat, log: seq<int>, page: int)
    requires hand < |frames| && Cyclic(frames, hand, log)
    requires |log| < |frames| ==> hand == 0
    ensures |log| < |frames| ==> Cyclic(frames[|log| := page], 0, log + [page])
    ensures |log| >= |frames| ==> Cyclic(frames[hand := page], Next(hand, |frames|), log + [page])
  {
    var n := |frames|;
    if |log| >= n {
      forall f | 0 <= f < n
        ensures frames[hand := page][f] == (log + [page])[|log| + 1 - n + Dist(Next(hand, n), f, n)]
      {
        if f != hand {
          assert Dist(hand, f, n) == Dist(Next(hand, n), f, n) + 1;
          assert frames[f] == log[|log| - n + Dist(hand, f, n)];
        }
      }
    }
  }

  ghost predicate InLoadOrder(t: Table, log: seq<int>)
    requires t.Shaped()
  {
    && t.size == (if |log| < t.NFrames() then |log| else t.NFrames())
    && Cyclic(t.framepage, t.hand, log)
  }

  /** A FIFO fault in terms of the inverse table alone. */
  lemma FifoFrames(t: Table, page: int)
    requires t.Consistent() && 0 <= page < t.NPages() && !t.Present(page)
    ensures var r := Fault(t, Fifo, page);
      if t.Full() then
        r.framepage == t.framepage[t.hand := page] && r.hand == Next(t.hand, t.NFrames()) && r.size == t.size
      else
        r.framepage == t.framepage[t.size := page] && r.hand == t.hand && r.size == t.size + 1
    ensures Choose(t, Fifo).frame == if t.Full() then t.hand else t.size
  {
    ChooseSound(t, Fifo);
  }

  lemma FifoFault(t: Table, log: seq<int>, page: int)
    requires t.Consistent() && 0 <= page < t.NPages() && !t.Present(page) && InLoadOrder(t, log)
    ensures Fault(t, Fifo, page).Consistent()
    ensures InLoadOrder(Fault(t, Fifo, page), log + [page])
    ensures Choose(t, Fifo).frame < t.NFrames()
    ensures t.framepage[Choose(t, Fifo).frame] == if |log| < t.NFrames() then VOID_IDX else log[|log| - t.NFrames()]
    ensures |log| >= t.NFrames() ==> log[|log| - t.NFrames()] != VOID_IDX
  {
    FaultSound(t, Fifo, page);
    FifoFrames(t, page);
    CyclicStep(t.framepage, t.hand, log, page);
    if t.Full() {
      assert t.FrameHolds(t.hand);
    }
  }

  /** The page replaced by an access, if any. */
  function Victim(t: Table, policy: Policy, page: int): seq<int>
    requires t.Consistent() && 0 <= page < t.NPages()
  {
    ChooseSound(t, policy);
    var victim := t.framepage[Choose(t, policy).frame];
    if t.Present(page) || victim == VOID_IDX then [] else [victim]
  }

  /** The pages a run replaces, in order; a fault that fills a free frame replaces none. */
  function Evictions(t: Table, policy: Policy, refs: seq<PageRef>): seq<int>
    requires t.Consistent() && InRange(refs, t.NPages())
    decreases |refs|
  {
    if refs == [] then []
    else
      Victim(t, policy, refs[0].page) +
      Evictions(AccessTable(t, policy, refs[0].page, refs[0].write), policy, refs[1..])
  }

  /** How many of the first k loads have been replaced again, with n frames. */
  function PushedCount(k: nat, n: nat): nat {
    if k < n then 0 else k - n
  }

  /** Of the loads `log + loads`, exactly those that `loads` pushed out are `evictions`, in load order. */
  ghost predicate PushedOut(log: seq<int>, loads: seq<int>, evictions: seq<int>, n: nat) {
    evictions == (log + loads)[PushedCount(|log|, n)..PushedCount(|log + loads|, n)]
  }

  lemma PushedOutStep(log: seq<int>, page: int, loads: seq<int>, evictions: seq<int>, n: nat)
    requires PushedOut(log + [page], loads, evictions, n) && n >= 1
    ensures PushedOut(log, [page] + loads, (if |log| < n then [] else [log[|log| - n]]) + evictions, n)
  {
    assert log + [page] + loads == log + ([page] + loads);
  }

  lemma {:induction false} EvictionsFrom(t: Table, refs: seq<PageRef>, log: seq<int>)
    requires t.Consistent() && InRange(refs, t.NPages()) && InLoadOrder(t, log)
    ensures InLoadOrder(RunTable(t, Fifo, refs), log + Loads(t, Fifo, refs))
    ensures PushedOut(log, Loads(t, Fifo, refs), Evictions(t, Fifo, refs), t.NFrames())
    decreases |refs|
  {
    hide *;
    if refs == [] {
      RunOfNothing(t, log);
    } else {
      RunUnfolds(t, Fifo, refs);
      EvictionsUnfold(t, Fifo, refs);
      var page := refs[0].page;
      var t1 := AccessTable(t, Fifo, page, refs[0].write);
      AccessInLoadOrder(t, page, refs[0].write, log);
      var rest := Loads(t1, Fifo, refs[1..]);
      if t.Present(page) {
        EvictionsFrom(t1, refs[1..], log);
        assert [] + rest == rest && [] + Evictions(t1, Fifo, refs[1..]) == Evictions(t1, Fifo, refs[1..]);
      } else {
        EvictionsFrom(t1, refs[1..], log + [page]);
        PushedOutStep(log, page, rest, Evictions(t1, Fifo, refs[1..]), t.NFrames());
        assert log + [page] + rest == log + ([page] + rest);
      }
    }
  }

  lemma RunOfNothing(t: Table, log: seq<int>)
    requires t.Consistent() && InLoadOrder(t, log)
    ensures InLoadOrder(RunTable(t, Fifo, []), log + Loads(t, Fifo, []))
    ensures PushedOut(log, Loads(t, Fifo, []), Evictions(t, Fifo, []), t.NFrames())
  {
    assert log + [] == log;
  }

  lemma EvictionsUnfold(t: Table, policy: Policy, refs: seq<PageRef>)
    requires t.Consistent() && InRange(refs, t.NPages()) && refs != []
    ensures 0 <= refs[0].page < t.NPages()
    ensures var t1 := AccessTable(t, policy, refs[0].page, refs[0].write);
            && InRange(refs[1..], t1.NPages())
            && Evictions(t, policy, refs) == Victim(t, policy, refs[0].page) + Evictions(t1, policy, refs[1..])
  {
  }

  lemma AccessInLoadOrder(t: Table, page: int, write: bool, log: seq<int>)
    requires t.Consistent() && 0 <= page < t.NPages() && InLoadOrder(t, log)
    ensures InLoadOrder(AccessTable(t, Fifo, page, write), if t.Present(page) then log else log + [page])
    ensures Victim(t, Fifo, page) ==
            if t.Present(page) || |log| < t.NFrames() then [] else [log[|log| - t.NFrames()]]
  {
    if !t.Present(page) {
      FifoFault(t, log, page);
    }
  }

  /** From the start: the pages are replaced exactly in load order, so the page of load
      number i is replaced by load number i + nframes. */
  lemma FifoReplacesInLoadOrder(npages: nat, nframes: nat, refs: seq<PageRef>)
    requires npages >= 1 && nframes >= 1 && InRange(refs, npages)
    ensures InitTable(npages, nframes).Consistent() && InitTable(npages, nframes).NPages() == npages
    ensures var t := InitTable(npages, nframes);
            var loads := Loads(t, Fifo, refs);
            && Evictions(t, Fifo, refs) == loads[..PushedCount(|loads|, nframes)]
            && InLoadOrder(RunTable(t, Fifo, refs), loads)
  {
    InitConsistent(npages, nframes);
    EvictionsFrom(InitTable(npages, nframes), refs, []);
    assert [] + Loads(InitTable(npages, nframes), Fifo, refs) == Loads(InitTable(npages, nframes), Fifo, refs);
  }
}
