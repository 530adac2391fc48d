/** When the policies are conservative: in any run, any window of accesses that
    touches at most as many pages as there are frames faults at most once on
    each of them.  FIFO and CLOCK always are; CLOCK2 is with a single frame or
    with as many frames as pages (the other half is in Conservative). */
module FaultWindows {
  import opened PageTable
  import opened Runs
  import opened ClockSweep

  /** Frame f lies behind the hand, counted from frame a: the hand went over it since it left a. */
  ghost predicate Behind(a: nat, hand: nat, f: nat, n: nat)
    requires a < n && hand < n && f < n
  {
    0 < Dist(a, f, n) && (hand == a || Dist(a, f, n) < Dist(a, hand, n))
  }

  /** A step of the hand adds exactly the frame it leaves to what is behind it. */
  lemma BehindStep(a: nat, hand: nat, f: nat, n: nat)
    requires a < n && hand < n && f < n && a != hand
    ensures Behind(a, Next(hand, n), f, n) <==> Behind(a, hand, f, n) || f == hand
  {
  }

  /** Distinct pages of a set are at most as many as the set has. */
  lemma {:induction false} Distinct(xs: seq<int>, pages: set<int>)
    requires forall i, j :: 0 <= i < j < |xs| ==> xs[i] != xs[j]
    requires forall i :: 0 <= i < |xs| ==> xs[i] in pages
    ensures |xs| <= |pages|
  {
    if xs != [] {
      var k := |xs| - 1;
      Distinct(xs[..k], pages - {xs[k]});
    }
  }

  /** When a page of the set is absent, some frame holds a page outside it: n frames with distinct
      pages of the set, and one more page of the set, do not fit into n. */
  lemma SomeFrameOutside(t: Table, pages: set<int>, absent: int)
    requires t.Consistent() && t.Full() && |pages| <= t.NFrames()
    requires absent in pages && 0 <= absent < t.NPages() && !t.Present(absent)
    ensures exists f :: 0 <= f < t.NFrames() && t.framepage[f] !in pages
  {
    if forall f :: 0 <= f < t.NFrames() ==> t.framepage[f] in pages {
      forall i, j | 0 <= i < j < t.NFrames() ensures t.framepage[i] != t.framepage[j] {
        assert t.FrameHolds(i) && t.FrameHolds(j);
      }
      forall i | 0 <= i < t.NFrames() ensures t.framepage[i] in pages - {absent} {
        assert t.FrameHolds(i) && t.PageSound(t.framepage[i]);
      }
      Distinct(t.framepage, pages - {absent});
    }
  }

  // ----- FIFO -----

  /** Every frame the hand went over since a page of `loaded` came in is in the window, or still empty. */
  ghost predicate FifoInv(t: Table, pages: set<int>, loaded: set<int>)
    requires t.Consistent()
  {
    && loaded <= pages
    && (forall p :: p in loaded ==> 0 <= p < t.NPages() && t.Present(p) && t.PageSound(p))
    && (forall p, f :: p in loaded && 0 <= f < t.NFrames() && Behind(t.Entry(p).frame, t.hand, f, t.NFrames()) ==>
          t.framepage[f] in pages || t.framepage[f] == VOID_IDX)
  }

  /** When a page of the window is missing, the oldest page was not loaded in the window. */
  lemma FifoHandOutside(t: Table, absent: int, pages: set<int>, loaded: set<int>)
    requires t.Consistent() && t.Full() && |pages| <= t.NFrames() && FifoInv(t, pages, loaded)
    requires absent in pages && 0 <= absent < t.NPages() && !t.Present(absent)
    ensures t.framepage[t.hand] !in loaded
  {
    SomeFrameOutside(t, pages, absent);
    var f :| 0 <= f < t.NFrames() && t.framepage[f] !in pages;
    assert t.FrameHolds(t.hand) && t.FrameHolds(f);
    assert f != t.hand ==> Behind(t.hand, t.hand, f, t.NFrames());
  }

  lemma FifoStep(t: Table, page: int, pages: set<int>, loaded: set<int>)
    requires t.Consistent() && |pages| <= t.NFrames() && FifoInv(t, pages, loaded)
    requires page in pages && 0 <= page < t.NPages() && !t.Present(page)
    ensures Fault(t, Fifo, page).Consistent()
    ensures page !in loaded && FifoInv(Fault(t, Fifo, page), pages, loaded + {page})
  {
    FaultSound(t, Fifo, page);
    ChooseSound(t, Fifo);
    var c := Choose(t, Fifo);
    RewireSound(c.table, c.frame, page);
    var r := Fault(t, Fifo, page);
    var n := t.NFrames();
    if t.Full() {
      FifoHandOutside(t, page, pages, loaded);
    }
    forall p | p in loaded + {page} ensures r.Present(p) && r.PageSound(p) {
      assert r.PageSound(p);
    }
    forall p, f | p in loaded + {page} && 0 <= f < n && Behind(r.Entry(p).frame, r.hand, f, n)
      ensures r.framepage[f] in pages || r.framepage[f] == VOID_IDX
    {
      if p != page && t.Full() {
        BehindStep(r.Entry(p).frame, t.hand, f, n);
      }
    }
  }

  // ----- CLOCK -----

  /** The page in frame f belongs to the window, or the hand will take it when it comes by. */
  ghost predicate Harmless(t: Table, pages: set<int>, f: nat)
    requires t.Consistent() && f < t.NFrames()
  {
    t.framepage[f] in pages ||
    (-1 <= t.framepage[f] < t.NPages() && !t.Entry(t.framepage[f]).flags.used1)
  }

  /** A loaded page the hand has not passed yet is referenced, and what lies behind the hand is harmless. */
  ghost predicate Fresh(t: Table, pages: set<int>, p: int)
    requires t.Consistent() && 0 <= p < t.NPages() && t.PageSound(p) && t.Present(p)
  {
    var a := t.Entry(p).frame;
    && t.Entry(p).flags.used1
    && forall f :: 0 <= f < t.NFrames() && Behind(a, t.hand, f, t.NFrames()) ==> Harmless(t, pages, f)
  }

  /** Once the hand has passed it, what lies behind the hand belongs to the window, and the rest is harmless. */
  ghost predicate Seasoned(t: Table, pages: set<int>, p: int)
    requires t.Consistent() && 0 <= p < t.NPages() && t.PageSound(p) && t.Present(p)
  {
    var a := t.Entry(p).frame;
    && t.Full()
    && (forall f :: 0 <= f < t.NFrames() && f != a ==> Harmless(t, pages, f))
    && (forall f :: 0 <= f < t.NFrames() && Behind(a, t.hand, f, t.NFrames()) ==> t.framepage[f] in pages)
  }

  ghost predicate ClockInv(t: Table, pages: set<int>, loaded: set<int>)
    requires t.Consistent()
  {
    && loaded <= pages
    && (forall p :: p in loaded ==> 0 <= p < t.NPages() && t.Present(p) && t.PageSound(p))
    && (forall p :: p in loaded ==> Fresh(t, pages, p) || Seasoned(t, pages, p))
  }

  /** During a fault the hand never points at a seasoned page. */
  lemma HandNotSeasoned(t: Table, pages: set<int>, absent: int)
    requires t.Consistent() && t.Full() && |pages| <= t.NFrames()
    requires absent in pages && 0 <= absent < t.NPages() && !t.Present(absent)
    requires t.framepage[t.hand] in pages
    requires 0 <= t.framepage[t.hand] < t.NPages() && t.PageSound(t.framepage[t.hand]) && t.Present(t.framepage[t.hand])
    ensures !Seasoned(t, pages, t.framepage[t.hand])
  {
    SomeFrameOutside(t, pages, absent);
    var f :| 0 <= f < t.NFrames() && t.framepage[f] !in pages;
    assert t.FrameHolds(t.hand);
    assert Behind(t.hand, t.hand, f, t.NFrames());
  }

  lemma PassKeepsOne(t: Table, pages: set<int>, absent: int, p: int)
    requires t.Consistent() && t.Full() && |pages| <= t.NFrames()
    requires absent in pages && 0 <= absent < t.NPages() && !t.Present(absent)
    requires WeightAt(t, Clock, t.hand) > 0
    requires p in pages && 0 <= p < t.NPages() && t.PageSound(p) && t.Present(p)
    requires Fresh(t, pages, p) || Seasoned(t, pages, p)
    requires PassHand(t, Clock).Consistent() && PassHand(t, Clock).PageSound(p) && PassHand(t, Clock).Present(p)
    ensures Fresh(PassHand(t, Clock), pages, p) || Seasoned(PassHand(t, Clock), pages, p)
  {
    var r := PassHand(t, Clock);
    var n := t.NFrames();
    var a := t.Entry(p).frame;
    assert t.FrameHolds(t.hand);
    forall f | 0 <= f < n
      ensures r.framepage[f] == t.framepage[f] && (Harmless(t, pages, f) ==> Harmless(r, pages, f))
    {
      assert t.FrameHolds(f);
    }
    if a == t.hand {
      HandNotSeasoned(t, pages, absent);
      forall f | 0 <= f < n && f != a ensures Harmless(t, pages, f) && !Behind(a, r.hand, f, n) {
        assert Behind(a, t.hand, f, n);
      }
    } else {
      assert Harmless(r, pages, t.hand);
      forall f | 0 <= f < n ensures Behind(a, r.hand, f, n) <==> Behind(a, t.hand, f, n) || f == t.hand {
        BehindStep(a, t.hand, f, n);
      }
      if Seasoned(t, pages, p) {
        assert Harmless(t, pages, t.hand);
        assert Seasoned(r, pages, p);
      } else {
        assert Fresh(r, pages, p);
      }
    }
  }

  /** The whole sweep keeps the invariant, and never stops at a page loaded in the window. */
  lemma {:induction false} SweepKeeps(t: Table, pages: set<int>, loaded: set<int>, absent: int)
    requires t.Consistent() && t.Full() && |pages| <= t.NFrames() && ClockInv(t, pages, loaded)
    requires absent in pages && 0 <= absent < t.NPages() && !t.Present(absent)
    ensures Sweep(t, Clock).Consistent() && ClockInv(Sweep(t, Clock), pages, loaded)
    ensures Sweep(t, Clock).framepage == t.framepage
    ensures Sweep(t, Clock).framepage[Sweep(t, Clock).hand] !in loaded
    decreases Sum(Weights(t, Clock))
  {
    assert t.FrameHolds(t.hand);
    if WeightAt(t, Clock, t.hand) == 0 {
      if t.framepage[t.hand] in loaded {
        HandNotSeasoned(t, pages, absent);
        assert false;
      }
    } else {
      PassHandSound(t, Clock);
      var r := PassHand(t, Clock);
      forall p | p in loaded
        ensures r.Present(p) && r.PageSound(p) && (Fresh(r, pages, p) || Seasoned(r, pages, p))
      {
        assert r.PageSound(p);
        PassKeepsOne(t, pages, absent, p);
      }
      SweepKeeps(r, pages, loaded, absent);
    }
  }

  /** Replacing the hand's page by one of the window and moving on. */
  lemma EvictKeepsOne(t: Table, r: Table, page: int, pages: set<int>, p: int)
    requires t.Consistent() && t.Full() && r.Consistent() && page in pages
    requires 0 <= p < t.NPages() && t.PageSound(p) && t.Present(p) && t.framepage[t.hand] != p
    requires r.NPages() == t.NPages() && r.framepage == t.framepage[t.hand := page]
    requires r.hand == Next(t.hand, t.NFrames()) && r.size == t.size
    requires forall q :: -1 <= q < t.NPages() && q != page && q != t.framepage[t.hand] ==> r.Entry(q) == t.Entry(q)
    requires Fresh(t, pages, p) || Seasoned(t, pages, p)
    requires p != page && r.PageSound(p) && r.Present(p)
    ensures Fresh(r, pages, p) || Seasoned(r, pages, p)
  {
    var n := t.NFrames();
    var a := t.Entry(p).frame;
    assert t.FrameHolds(t.hand) && a != t.hand;
    forall f | 0 <= f < n
      ensures (f != t.hand ==> r.framepage[f] == t.framepage[f]) && (Harmless(t, pages, f) ==> Harmless(r, pages, f))
    {
      assert t.FrameHolds(f) && r.FrameHolds(f);
    }
    forall f | 0 <= f < n ensures Behind(a, r.hand, f, n) <==> Behind(a, t.hand, f, n) || f == t.hand {
      BehindStep(a, t.hand, f, n);
    }
    assert Harmless(r, pages, t.hand);
    if Seasoned(t, pages, p) {
      assert Seasoned(r, pages, p);
    } else {
      assert Fresh(r, pages, p);
    }
  }

  /** Filling a free frame with a page of the window. */
  lemma FillKeepsOne(t: Table, r: Table, page: int, pages: set<int>, p: int)
    requires t.Consistent() && !t.Full() && r.Consistent() && page in pages
    requires 0 <= p < t.NPages() && t.PageSound(p) && t.Present(p)
    requires r.NPages() == t.NPages() && r.framepage == t.framepage[t.size := page] && r.hand == t.hand
    requires forall q :: -1 <= q < t.NPages() && q != page ==> r.Entry(q) == t.Entry(q)
    requires Fresh(t, pages, p)
    requires p != page && r.PageSound(p) && r.Present(p)
    ensures Fresh(r, pages, p)
  {
    forall f | 0 <= f < t.NFrames() && Harmless(t, pages, f) ensures Harmless(r, pages, f) {
    }
  }

  /** Nothing harmful lies behind the hand, seen from the frame of `page`. */
  ghost predicate NothingBehind(t: Table, pages: set<int>, page: int) {
    && t.Consistent() && 0 <= page < t.NPages() && t.PageSound(page) && t.Present(page)
    && forall f :: 0 <= f < t.NFrames() && Behind(t.Entry(page).frame, t.hand, f, t.NFrames()) ==> Harmless(t, pages, f)
  }

  lemma ClockStep(t: Table, page: int, pages: set<int>, loaded: set<int>)
    requires t.Consistent() && |pages| <= t.NFrames() && ClockInv(t, pages, loaded)
    requires page in pages && 0 <= page < t.NPages() && !t.Present(page)
    ensures Fault(t, Clock, page).Consistent()
    ensures page !in loaded && ClockInv(Fault(t, Clock, page), pages, loaded)
    ensures NothingBehind(Fault(t, Clock, page), pages, page)
  {
    FaultSound(t, Clock, page);
    ChooseSound(t, Clock);
    var c := Choose(t, Clock);
    RewireSound(c.table, c.frame, page);
    var r := Fault(t, Clock, page);
    assert r.PageSound(page);
    if t.Full() {
      SweepKeeps(t, pages, loaded, page);
      SweepSound(t, Clock);
      var s := Sweep(t, Clock);
      forall p | p in loaded
        ensures r.Present(p) && r.PageSound(p) && (Fresh(r, pages, p) || Seasoned(r, pages, p))
      {
        assert r.PageSound(p);
        EvictKeepsOne(s, r, page, pages, p);
      }
    } else {
      forall p | p in loaded ensures r.Present(p) && r.PageSound(p) && Fresh(r, pages, p) {
        assert r.PageSound(p);
        FillKeepsOne(t, r, page, pages, p);
      }
    }
  }

  // ----- one frame, or a frame for every page -----

  ghost predicate Roomy(t: Table)
    requires t.Consistent()
  {
    t.NFrames() == 1 || t.NPages() <= t.NFrames()
  }

  /** The pages loaded in the window are still resident. */
  ghost predicate RoomInv(t: Table, pages: set<int>, loaded: set<int>)
    requires t.Consistent()
  {
    loaded <= pages && forall p :: p in loaded ==> 0 <= p < t.NPages() && t.Present(p)
  }

  function PagesBelow(n: nat): (all: set<int>)
    ensures forall p :: p in all <==> 0 <= p < n
    ensures |all| == n
  {
    if n == 0 then {} else PagesBelow(n - 1) + {n - 1}
  }

  /** With a frame for every page, an absent page finds a free frame. */
  lemma FreeFrame(t: Table, absent: int)
    requires t.Consistent() && t.NPages() <= t.NFrames() && 0 <= absent < t.NPages() && !t.Present(absent)
    ensures !t.Full()
  {
    var all := PagesBelow(t.NPages());
    if t.Full() {
      forall f | 0 <= f < t.NFrames() ensures t.framepage[f] in all { assert t.FrameHolds(f); }
      SomeFrameOutside(t, all, absent);
    }
  }

  lemma RoomyFaultKeeps(t: Table, policy: Policy, page: int, pages: set<int>, loaded: set<int>)
    requires t.Consistent() && Roomy(t) && |pages| <= t.NFrames() && RoomInv(t, pages, loaded)
    requires page in pages && 0 <= page < t.NPages() && !t.Present(page)
    ensures Fault(t, policy, page).Consistent()
    ensures RoomInv(Fault(t, policy, page), pages, loaded + {page})
  {
    FaultSound(t, policy, page);
    if t.NPages() <= t.NFrames() {
      FreeFrame(t, page);
      ChooseSound(t, policy);
      var c := Choose(t, policy);
      RewireSound(c.table, c.frame, page);
    } else {
      OnlyPage(pages, page);
    }
  }

  lemma OnlyPage(pages: set<int>, page: int)
    requires |pages| <= 1 && page in pages
    ensures pages == {page}
  {
    assert |pages - {page}| == 0;
  }

  // ----- the window theorem -----

  ghost predicate WindowInv(t: Table, policy: Policy, pages: set<int>, loaded: set<int>)
    requires t.Consistent()
  {
    match policy
    case Fifo => FifoInv(t, pages, loaded)
    case Clock => ClockInv(t, pages, loaded)
    case Clock2 => RoomInv(t, pages, loaded)
  }

  lemma TouchKeeps(t: Table, policy: Policy, page: int, write: bool, pages: set<int>, loaded: set<int>)
    requires t.Consistent() && WindowInv(t, policy, pages, loaded)
    requires page in pages && 0 <= page < t.NPages() && t.Present(page)
    ensures Touch(t, page, write).Consistent()
    ensures WindowInv(Touch(t, page, write), policy, pages, loaded)
  {
    TouchSound(t, page, write);
    var r := Touch(t, page, write);
    forall p | p in loaded ensures r.Present(p) && r.PageSound(p) { assert r.PageSound(p); }
    if policy == Clock {
      forall f | 0 <= f < t.NFrames() && Harmless(t, pages, f) ensures Harmless(r, pages, f) {}
      forall p | p in loaded ensures Fresh(r, pages, p) || Seasoned(r, pages, p) {
        if Seasoned(t, pages, p) {
          assert Seasoned(r, pages, p);
        } else {
          assert Fresh(t, pages, p);
        }
      }
    }
  }

  lemma AccessKeeps(t: Table, policy: Policy, page: int, write: bool, pages: set<int>, loaded: set<int>)
    requires t.Consistent() && (policy == Clock2 ==> Roomy(t)) && |pages| <= t.NFrames()
    requires WindowInv(t, policy, pages, loaded)
    requires page in pages && 0 <= page < t.NPages()
    ensures page in loaded ==> t.Present(page)
    ensures WindowInv(AccessTable(t, policy, page, write), policy, pages,
                      if t.Present(page) then loaded else loaded + {page})
  {
    if t.Present(page) {
      TouchKeeps(t, policy, page, write, pages, loaded);
    } else {
      FaultSound(t, policy, page);
      match policy
      case Fifo =>
        FifoStep(t, page, pages, loaded);
        TouchKeeps(Fault(t, Fifo, page), policy, page, write, pages, loaded + {page});
      case Clock =>
        ClockFaultKeeps(t, page, write, pages, loaded);
      case Clock2 =>
        RoomyFaultKeeps(t, policy, page, pages, loaded);
        TouchKeeps(Fault(t, Clock2, page), policy, page, write, pages, loaded + {page});
    }
  }

  lemma ClockFaultKeeps(t: Table, page: int, write: bool, pages: set<int>, loaded: set<int>)
    requires t.Consistent() && |pages| <= t.NFrames() && ClockInv(t, pages, loaded)
    requires page in pages && 0 <= page < t.NPages() && !t.Present(page)
    ensures page !in loaded
    ensures ClockInv(AccessTable(t, Clock, page, write), pages, loaded + {page})
  {
    ClockStep(t, page, pages, loaded);
    FaultSound(t, Clock, page);
    var s := Fault(t, Clock, page);
    TouchKeeps(s, Clock, page, write, pages, loaded);
    hide Fault;
    var r := Touch(s, page, write);
    assert s.PageSound(page) && r.PageSound(page);
    forall f | 0 <= f < t.NFrames() && Behind(r.Entry(page).frame, r.hand, f, t.NFrames())
      ensures Harmless(r, pages, f)
    {
      assert Harmless(s, pages, f);
    }
    assert Fresh(r, pages, page);
  }

  /** How often `page` faults in a run. */
  function FaultsOn(loads: seq<int>, page: int): nat {
    multiset(loads)[page]
  }

  lemma {:induction false} WindowFrom(t: Table, policy: Policy, refs: seq<PageRef>, pages: set<int>, loaded: set<int>)
    requires t.Consistent() && (policy == Clock2 ==> Roomy(t)) && InRange(refs, t.NPages())
    requires |pages| <= t.NFrames() && forall i :: 0 <= i < |refs| ==> refs[i].page in pages
    requires WindowInv(t, policy, pages, loaded)
    ensures forall p :: FaultsOn(Loads(t, policy, refs), p) <= (if p in pages - loaded then 1 else 0)
    ensures |Loads(t, policy, refs)| <= |pages - loaded|
    decreases |refs|
  {
    if refs != [] {
      var page := refs[0].page;
      AccessKeeps(t, policy, page, refs[0].write, pages, loaded);
      var loaded' := if t.Present(page) then loaded else loaded + {page};
      var t1 := AccessTable(t, policy, page, refs[0].write);
      WindowFrom(t1, policy, refs[1..], pages, loaded');
      if !t.Present(page) {
        CountOneMore(page, Loads(t1, policy, refs[1..]), pages, loaded);
      }
    }
  }

  lemma CountOneMore(page: int, rest: seq<int>, pages: set<int>, loaded: set<int>)
    requires page in pages && page !in loaded
    requires forall p :: FaultsOn(rest, p) <= (if p in pages - (loaded + {page}) then 1 else 0)
    requires |rest| <= |pages - (loaded + {page})|
    ensures forall p :: FaultsOn([page] + rest, p) <= (if p in pages - loaded then 1 else 0)
    ensures |[page] + rest| <= |pages - loaded|
  {
    assert pages - loaded == (pages - (loaded + {page})) + {page};
  }

  /** The theorem: t is the table after any run so far, refs is the window. */
  lemma WindowTheorem(t: Table, policy: Policy, refs: seq<PageRef>, pages: set<int>)
    requires t.Consistent() && (policy == Clock2 ==> Roomy(t)) && InRange(refs, t.NPages())
    requires |pages| <= t.NFrames() && forall i :: 0 <= i < |refs| ==> refs[i].page in pages
    ensures forall p :: FaultsOn(Loads(t, policy, refs), p) <= 1
    ensures |Loads(t, policy, refs)| <= |pages|
  {
    WindowFrom(t, policy, refs, pages, {});
    assert pages - {} == pages;
  }

  /** The same from the start of the manager: in a run that starts with empty tables, the part
      of the loads that falls into a window of few pages is short. */
  lemma WindowOfRun(npages: nat, nframes: nat, policy: Policy, before: seq<PageRef>, window: seq<PageRef>,
                    pages: set<int>)
    requires npages >= 1 && nframes >= 1 && (policy == Clock2 ==> nframes == 1 || npages <= nframes)
    requires InRange(before, npages) && InRange(window, npages) && InRange(before + window, npages)
    requires |pages| <= nframes && forall i :: 0 <= i < |window| ==> window[i].page in pages
    ensures InitTable(npages, nframes).Consistent() && InitTable(npages, nframes).NPages() == npages
    ensures var t := InitTable(npages, nframes);
            |Loads(t, policy, before + window)| <= |Loads(t, policy, before)| + |pages|
  {
    InitConsistent(npages, nframes);
    var t := InitTable(npages, nframes);
    LoadsAppend(t, policy, before, window);
    WindowTheorem(RunTable(t, policy, before), policy, window, pages);
  }
}
