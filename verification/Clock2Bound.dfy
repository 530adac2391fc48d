/** How far CLOCK2 is from being conservative: a window of k pages, k at most the number of
    frames, faults at most 2k - 1 times, and on no page more than twice.  (That this is
    reached is shown in Conservative.) */
module Clock2Bound {
  import opened PageTable
  import opened Runs
  import opened ClockSweep
  import opened FaultWindows

  // ----- tables page by page -----

  function FrameOf(t: Table, p: int): (f: nat)
    requires t.Consistent() && 0 <= p < t.NPages() && t.Present(p)
    ensures f < t.NFrames() && t.framepage[f] == p
  {
    assert t.PageSound(p);
    t.Entry(p).frame
  }

  /** The references left to a page. */
  function Refs(t: Table, p: int): nat
    requires 0 <= p < t.NPages()
  {
    Weight(Clock2, t.Entry(p).flags)
  }

  /** Resident, but not accessed in the window so far. */
  ghost predicate Stale(t: Table, live: set<int>, s: int) {
    0 <= s < t.NPages() && t.Present(s) && s !in live
  }

  /** The hand went over the frame of s since it left the frame of p. */
  ghost predicate Over(t: Table, p: int, s: int)
    requires t.Consistent() && 0 <= p < t.NPages() && t.Present(p) && 0 <= s < t.NPages() && t.Present(s)
  {
    Behind(FrameOf(t, p), t.hand, FrameOf(t, s), t.NFrames())
  }

  lemma BehindStart(a: nat, f: nat, n: nat)
    requires a < n && f < n
    ensures !Behind(a, Next(a, n), f, n)
    ensures Behind(a, a, f, n) <==> f != a
  {
  }

  /** The page the hand points at. */
  function HandPage(t: Table): (h: int)
    requires t.Consistent() && t.Full()
    ensures 0 <= h < t.NPages() && t.Present(h) && FrameOf(t, h) == t.hand
    ensures Refs(t, h) == WeightAt(t, Clock2, t.hand)
  {
    assert t.FrameHolds(t.hand) && t.PageSound(t.framepage[t.hand]);
    t.framepage[t.hand]
  }

  /** One pass of the hand, page by page. */
  lemma PassPage(t: Table, p: int)
    requires t.Consistent() && t.Full() && WeightAt(t, Clock2, t.hand) > 0 && 0 <= p < t.NPages()
    ensures PassHand(t, Clock2).Consistent() && PassHand(t, Clock2).Full()
    ensures var r := PassHand(t, Clock2);
            && r.NPages() == t.NPages() && r.NFrames() == t.NFrames() && (r.Present(p) <==> t.Present(p))
            && (t.Present(p) ==> FrameOf(r, p) == FrameOf(t, p))
            && Refs(r, p) == if p == HandPage(t) then Refs(t, p) - 1 else Refs(t, p)
  {
    PassHandSound(t, Clock2);
    assert t.FrameHolds(t.hand);
  }

  lemma PassOver(t: Table, p: int, s: int)
    requires t.Consistent() && t.Full() && WeightAt(t, Clock2, t.hand) > 0
    requires 0 <= p < t.NPages() && t.Present(p) && 0 <= s < t.NPages() && t.Present(s)
    ensures var r := PassHand(t, Clock2);
            && r.Consistent() && r.NPages() == t.NPages() && r.Present(p) && r.Present(s)
            && (Over(r, p, s) <==> p != HandPage(t) && (Over(t, p, s) || s == HandPage(t)))
            && (p == HandPage(t) ==> (Over(t, p, s) <==> s != p))
  {
    PassPage(t, p);
    PassPage(t, s);
    var a, f, n := FrameOf(t, p), FrameOf(t, s), t.NFrames();
    assert PassHand(t, Clock2).hand == Next(t.hand, n);
    BehindStart(a, f, n);
    if a != t.hand {
      BehindStep(a, t.hand, f, n);
    }
  }

  // ----- as long as no page of the window has been replaced -----

  /** Once p has no reference left, the hand has been at p; what it went over since then has at
      most one. */
  ghost predicate CalmA(t: Table, live: set<int>, p: int)
    requires t.Consistent() && 0 <= p < t.NPages() && t.Present(p)
  {
    Refs(t, p) == 0 ==> t.Full() && forall s :: Stale(t, live, s) && Over(t, p, s) ==> Refs(t, s) <= 1
  }

  /** Every page accessed in the window is resident. */
  ghost predicate PhaseA(t: Table, live: set<int>)
    requires t.Consistent()
  {
    forall p :: p in live ==> 0 <= p < t.NPages() && t.Present(p) && CalmA(t, live, p)
  }

  lemma PassA(t: Table, live: set<int>)
    requires t.Consistent() && t.Full() && WeightAt(t, Clock2, t.hand) > 0 && PhaseA(t, live)
    ensures PassHand(t, Clock2).Consistent() && PhaseA(PassHand(t, Clock2), live)
  {
    PassHandSound(t, Clock2);
    var r := PassHand(t, Clock2);
    forall p | p in live ensures 0 <= p < r.NPages() && r.Present(p) && CalmA(r, live, p) {
      assert CalmA(t, live, p);
      PassPage(t, p);
      forall s | Refs(r, p) == 0 && Stale(r, live, s) && Over(r, p, s) ensures Refs(r, s) <= 1 {
        PassPage(t, s);
        PassOver(t, p, s);
        assert Stale(t, live, s);
      }
    }
  }

  lemma {:induction false} SweepA(t: Table, live: set<int>)
    requires t.Consistent() && t.Full() && PhaseA(t, live)
    ensures Sweep(t, Clock2).Consistent() && Sweep(t, Clock2).Full() && PhaseA(Sweep(t, Clock2), live)
    decreases Sum(Weights(t, Clock2))
  {
    hide *;
    SweepSound(t, Clock2);
    SweepUnfolds(t, Clock2);
    if WeightAt(t, Clock2, t.hand) != 0 {
      PassHandSound(t, Clock2);
      PassA(t, live);
      SweepA(PassHand(t, Clock2), live);
    }
  }

  // ----- and after that -----

  /** What the hand went over since p came in has no reference left; and once p has none left
      either, it has gone over nothing stale since it was at p, because it would have taken it. */
  ghost predicate CalmB(t: Table, live: set<int>, p: int)
    requires t.Consistent() && 0 <= p < t.NPages() && t.Present(p)
  {
    && (forall s :: Stale(t, live, s) && Over(t, p, s) ==> Refs(t, s) == 0)
    && (Refs(t, p) == 0 ==> forall s :: Stale(t, live, s) ==> Refs(t, s) == 0 && !Over(t, p, s))
  }

  /** `recent` came in since the first page of the window was replaced. */
  ghost predicate PhaseB(t: Table, live: set<int>, recent: set<int>)
    requires t.Consistent()
  {
    && t.Full() && recent <= live
    && (forall s :: Stale(t, live, s) ==> Refs(t, s) <= 1)
    && (forall p :: p in recent ==> 0 <= p < t.NPages() && t.Present(p) && CalmB(t, live, p))
  }

  lemma PassB(t: Table, live: set<int>, recent: set<int>)
    requires t.Consistent() && t.Full() && WeightAt(t, Clock2, t.hand) > 0 && PhaseB(t, live, recent)
    ensures PassHand(t, Clock2).Consistent() && PhaseB(PassHand(t, Clock2), live, recent)
  {
    PassHandSound(t, Clock2);
    var r := PassHand(t, Clock2);
    forall s | Stale(r, live, s) ensures Stale(t, live, s) && Refs(r, s) <= Refs(t, s) <= 1 {
      PassPage(t, s);
      assert Stale(t, live, s);
    }
    forall p | p in recent ensures 0 <= p < r.NPages() && r.Present(p) && CalmB(r, live, p) {
      assert CalmB(t, live, p);
      PassPage(t, p);
      forall s | Stale(r, live, s) ensures Over(r, p, s) ==> Refs(r, s) == 0 {
        PassPage(t, s);
        PassOver(t, p, s);
      }
      forall s | Refs(r, p) == 0 && Stale(r, live, s) ensures Refs(r, s) == 0 && !Over(r, p, s) {
        PassPage(t, s);
        PassOver(t, p, s);
      }
    }
  }

  lemma {:induction false} SweepB(t: Table, live: set<int>, recent: set<int>)
    requires t.Consistent() && t.Full() && PhaseB(t, live, recent)
    ensures Sweep(t, Clock2).Consistent() && PhaseB(Sweep(t, Clock2), live, recent)
    decreases Sum(Weights(t, Clock2))
  {
    hide *;
    SweepSound(t, Clock2);
    SweepUnfolds(t, Clock2);
    if WeightAt(t, Clock2, t.hand) != 0 {
      PassHandSound(t, Clock2);
      PassB(t, live, recent);
      SweepB(PassHand(t, Clock2), live, recent);
    }
  }

  // ----- replacing a page -----

  /** r is s after its hand replaced the page it points at by q, which then was accessed. */
  ghost predicate Evicted(s: Table, r: Table, q: int) {
    && s.Consistent() && s.Full() && r.Consistent() && r.Full()
    && r.NPages() == s.NPages() && r.NFrames() == s.NFrames() && r.hand == Next(s.hand, s.NFrames())
    && Refs(s, HandPage(s)) == 0 && !r.Present(HandPage(s))
    && 0 <= q < s.NPages() && !s.Present(q)
    && r.Present(q) && FrameOf(r, q) == s.hand && Refs(r, q) == 1
    && forall p :: 0 <= p < s.NPages() && p != q && p != HandPage(s) ==>
         && (r.Present(p) <==> s.Present(p)) && Refs(r, p) == Refs(s, p)
         && (s.Present(p) ==> FrameOf(r, p) == FrameOf(s, p))
  }

  lemma MissEvicts(t: Table, q: int, write: bool)
    requires t.Consistent() && t.Full() && 0 <= q < t.NPages() && !t.Present(q)
    ensures Evicted(Sweep(t, Clock2), AccessTable(t, Clock2, q, write), q)
  {
    SweepSound(t, Clock2);
    ChooseSound(t, Clock2);
    FaultSound(t, Clock2, q);
    var s, c := Sweep(t, Clock2), Choose(t, Clock2);
    assert s.PageSound(q) && c.table.PageSound(q);
    RewireSound(c.table, c.frame, q);
    var f := Fault(t, Clock2, q);
    TouchSound(f, q, write);
    var u := HandPage(s);
    forall p | 0 <= p < s.NPages() && p != q && p != u
      ensures AccessTable(t, Clock2, q, write).Entry(p) == s.Entry(p)
    {
      assert c.table.Entry(p) == s.Entry(p);
    }
  }

  lemma EvictOver(s: Table, r: Table, q: int, p: int, x: int)
    requires Evicted(s, r, q) && 0 <= p < s.NPages() && r.Present(p)
    requires 0 <= x < s.NPages() && r.Present(x) && x != q
    ensures x != HandPage(s) && p != HandPage(s) && s.Present(x) && (p != q ==> s.Present(p))
    ensures Over(r, p, x) <==> p != q && Over(s, p, x)
  {
    var n := s.NFrames();
    assert FrameOf(s, x) != s.hand;
    if p == q {
      BehindStart(s.hand, FrameOf(r, x), n);
    } else {
      assert FrameOf(s, p) != s.hand;
      BehindStep(FrameOf(s, p), s.hand, FrameOf(s, x), n);
    }
  }

  /** Replacing a stale page. */
  lemma EvictA(s: Table, r: Table, q: int, live: set<int>)
    requires Evicted(s, r, q) && PhaseA(s, live) && HandPage(s) !in live
    ensures PhaseA(r, live + {q})
  {
    forall p | p in live + {q} ensures 0 <= p < r.NPages() && r.Present(p) && CalmA(r, live + {q}, p) {
      assert p != q ==> CalmA(s, live, p);
      forall x | Refs(r, p) == 0 && Stale(r, live + {q}, x) && Over(r, p, x) ensures Refs(r, x) <= 1 {
        EvictOver(s, r, q, p, x);
        assert Stale(s, live, x);
      }
    }
  }

  /** The first page of the window that is replaced: by then the hand has been everywhere. */
  lemma EvictStarts(s: Table, r: Table, q: int, live: set<int>)
    requires Evicted(s, r, q) && PhaseA(s, live) && HandPage(s) in live
    ensures PhaseB(r, live + {q}, {q})
  {
    var u := HandPage(s);
    assert CalmA(s, live, u);
    forall x | Stale(r, live + {q}, x) ensures Refs(r, x) <= 1 && !Over(r, q, x) {
      EvictOver(s, r, q, q, x);
      assert Stale(s, live, x);
      BehindStart(s.hand, FrameOf(s, x), s.NFrames());
    }
    assert CalmB(r, live + {q}, q);
  }

  /** A page that came in since then is not replaced: there would be nothing else but pages of
      the window left, and q would be one of them. */
  lemma RecentStays(s: Table, live: set<int>, recent: set<int>, q: int, pages: set<int>)
    requires s.Consistent() && PhaseB(s, live, recent) && Refs(s, HandPage(s)) == 0
    requires live <= pages && |pages| <= s.NFrames() && q in pages && 0 <= q < s.NPages() && !s.Present(q)
    ensures HandPage(s) !in recent
  {
    var u := HandPage(s);
    if u in recent {
      SomeFrameOutside(s, pages, q);
      var f :| 0 <= f < s.NFrames() && s.framepage[f] !in pages;
      var x := s.framepage[f];
      assert s.FrameHolds(f) && s.PageSound(x);
      assert CalmB(s, live, u) && Stale(s, live, x);
      BehindStart(s.hand, f, s.NFrames());
    }
  }

  lemma EvictB(s: Table, r: Table, q: int, live: set<int>, recent: set<int>)
    requires Evicted(s, r, q) && PhaseB(s, live, recent) && HandPage(s) !in recent
    ensures PhaseB(r, live + {q}, recent + {q})
  {
    forall x | Stale(r, live + {q}, x) ensures Stale(s, live, x) && Refs(r, x) <= 1 {
      EvictOver(s, r, q, q, x);
      assert Stale(s, live, x);
    }
    forall p | p in recent + {q} ensures 0 <= p < r.NPages() && r.Present(p) && CalmB(r, live + {q}, p) {
      assert p != q ==> CalmB(s, live, p);
      forall x | Stale(r, live + {q}, x)
        ensures Over(r, p, x) ==> Refs(r, x) == 0
        ensures Refs(r, p) == 0 ==> Refs(r, x) == 0 && !Over(r, p, x)
      {
        EvictOver(s, r, q, p, x);
        assert Stale(s, live, x);
      }
    }
  }

  // ----- filling a frame, and hits -----

  /** While frames are free, nothing is passed and nothing is replaced. */
  lemma FillA(t: Table, q: int, write: bool, live: set<int>)
    requires t.Consistent() && !t.Full() && 0 <= q < t.NPages() && !t.Present(q) && PhaseA(t, live)
    ensures PhaseA(AccessTable(t, Clock2, q, write), live + {q})
  {
    ChooseSound(t, Clock2);
    FaultSound(t, Clock2, q);
    var c := Choose(t, Clock2);
    assert t.PageSound(q) && c.table.PageSound(q);
    RewireSound(c.table, c.frame, q);
    TouchSound(Fault(t, Clock2, q), q, write);
    var r := AccessTable(t, Clock2, q, write);
    forall p | p in live + {q} ensures 0 <= p < r.NPages() && r.Present(p) && CalmA(r, live + {q}, p) {
      if p != q {
        assert CalmA(t, live, p);
        assert r.Entry(p) == t.Entry(p);
      }
    }
  }

  /** A hit adds references to a page that then counts as accessed in the window. */
  lemma HitPage(t: Table, q: int, write: bool, p: int)
    requires t.Consistent() && 0 <= q < t.NPages() && t.Present(q) && 0 <= p < t.NPages()
    ensures var r := AccessTable(t, Clock2, q, write);
            && r.NPages() == t.NPages() && r.NFrames() == t.NFrames() && r.hand == t.hand && (r.Full() <==> t.Full())
            && (r.Present(p) <==> t.Present(p)) && (t.Present(p) ==> FrameOf(r, p) == FrameOf(t, p))
            && if p == q then Refs(r, p) >= 1 else Refs(r, p) == Refs(t, p)
  {
    TouchSound(t, q, write);
  }

  lemma HitA(t: Table, q: int, write: bool, live: set<int>)
    requires t.Consistent() && 0 <= q < t.NPages() && t.Present(q) && PhaseA(t, live)
    ensures PhaseA(AccessTable(t, Clock2, q, write), live + {q})
  {
    var r := AccessTable(t, Clock2, q, write);
    forall p | p in live + {q} ensures 0 <= p < r.NPages() && r.Present(p) && CalmA(r, live + {q}, p) {
      HitPage(t, q, write, p);
      assert p != q ==> CalmA(t, live, p);
      forall s | Refs(r, p) == 0 && Stale(r, live + {q}, s) && Over(r, p, s) ensures Refs(r, s) <= 1 {
        HitPage(t, q, write, s);
        assert Stale(t, live, s) && Over(t, p, s);
      }
    }
  }

  lemma HitB(t: Table, q: int, write: bool, live: set<int>, recent: set<int>)
    requires t.Consistent() && 0 <= q < t.NPages() && t.Present(q) && PhaseB(t, live, recent)
    ensures PhaseB(AccessTable(t, Clock2, q, write), live + {q}, recent)
  {
    var r := AccessTable(t, Clock2, q, write);
    HitPage(t, q, write, q);
    forall s | Stale(r, live + {q}, s) ensures Stale(t, live, s) && Refs(r, s) == Refs(t, s) {
      HitPage(t, q, write, s);
    }
    forall p | p in recent ensures 0 <= p < r.NPages() && r.Present(p) && CalmB(r, live + {q}, p) {
      HitPage(t, q, write, p);
      assert CalmB(t, live, p);
      forall s | Stale(r, live + {q}, s)
        ensures Over(r, p, s) ==> Refs(r, s) == 0
        ensures Refs(r, p) == 0 ==> Refs(r, s) == 0 && !Over(r, p, s)
      {
        HitPage(t, q, write, s);
        assert Stale(t, live, s) && (Over(r, p, s) <==> Over(t, p, s));
      }
    }
  }

  // ----- windows -----

  lemma AccessA(t: Table, q: int, write: bool, live: set<int>)
    requires t.Consistent() && 0 <= q < t.NPages() && PhaseA(t, live)
    ensures var r := AccessTable(t, Clock2, q, write);
            if t.Present(q) then PhaseA(r, live + {q})
            else q !in live && (PhaseA(r, live + {q}) || PhaseB(r, live + {q}, {q}))
  {
    hide Sweep, CalmA, PhaseB, Evicted, Table.Consistent, AccessTable;
    if t.Present(q) {
      HitA(t, q, write, live);
    } else if !t.Full() {
      FillA(t, q, write, live);
    } else {
      SweepSound(t, Clock2);
      var s, r := Sweep(t, Clock2), AccessTable(t, Clock2, q, write);
      SweepA(t, live);
      MissEvicts(t, q, write);
      if HandPage(s) in live {
        EvictStarts(s, r, q, live);
      } else {
        EvictA(s, r, q, live);
      }
    }
  }

  lemma AccessB(t: Table, q: int, write: bool, live: set<int>, recent: set<int>, pages: set<int>)
    requires t.Consistent() && 0 <= q < t.NPages() && PhaseB(t, live, recent)
    requires live <= pages && |pages| <= t.NFrames() && q in pages
    ensures var r := AccessTable(t, Clock2, q, write);
            if t.Present(q) then PhaseB(r, live + {q}, recent)
            else q !in recent && PhaseB(r, live + {q}, recent + {q})
  {
    hide Sweep, CalmB, Table.Consistent, AccessTable;
    if t.Present(q) {
      HitB(t, q, write, live, recent);
    } else {
      SweepSound(t, Clock2);
      var s, r := Sweep(t, Clock2), AccessTable(t, Clock2, q, write);
      SweepB(t, live, recent);
      MissEvicts(t, q, write);
      RecentStays(s, live, recent, q, pages);
      EvictB(s, r, q, live, recent);
    }
  }

  function One(p: int, pages: set<int>): nat {
    if p in pages then 1 else 0
  }

  lemma NoFaults()
    ensures forall p :: FaultsOn([], p) == 0
  {
  }

  lemma FaultsCons(q: int, rest: seq<int>)
    ensures |[q] + rest| == |rest| + 1
    ensures forall p :: FaultsOn([q] + rest, p) == FaultsOn(rest, p) + One(p, {q})
  {
  }

  /** The rest of a window, once a page of it has been replaced. */
  lemma {:induction false} WindowB(t: Table, refs: seq<PageRef>, pages: set<int>, live: set<int>, recent: set<int>)
    requires t.Consistent() && InRange(refs, t.NPages()) && PhaseB(t, live, recent)
    requires live <= pages && |pages| <= t.NFrames() && forall i :: 0 <= i < |refs| ==> refs[i].page in pages
    ensures |Loads(t, Clock2, refs)| <= |pages - recent|
    ensures forall p :: FaultsOn(Loads(t, Clock2, refs), p) <= One(p, pages - recent)
    decreases |refs|
  {
    hide Table.Consistent, InRange, PhaseB, AccessTable, Loads, FaultsOn;
    if refs == [] {
      NoRefs(t, Clock2);
      NoFaults();
    } else {
      RunUnfolds(t, Clock2, refs);
      var q := refs[0].page;
      var r := AccessTable(t, Clock2, q, refs[0].write);
      var rest := Loads(r, Clock2, refs[1..]);
      AccessB(t, q, refs[0].write, live, recent, pages);
      if t.Present(q) {
        WindowB(r, refs[1..], pages, live + {q}, recent);
        assert [] + rest == rest;
      } else {
        WindowB(r, refs[1..], pages, live + {q}, recent + {q});
        FaultsCons(q, rest);
        assert pages - recent == (pages - (recent + {q})) + {q};
      }
    }
  }

  lemma {:induction false} WindowA(t: Table, refs: seq<PageRef>, pages: set<int>, live: set<int>)
    requires t.Consistent() && InRange(refs, t.NPages()) && PhaseA(t, live) && pages != {}
    requires live <= pages && |pages| <= t.NFrames() && forall i :: 0 <= i < |refs| ==> refs[i].page in pages
    ensures |Loads(t, Clock2, refs)| <= |pages - live| + |pages| - 1
    ensures forall p :: FaultsOn(Loads(t, Clock2, refs), p) <= One(p, pages - live) + One(p, pages)
    decreases |refs|
  {
    hide Table.Consistent, InRange, PhaseA, PhaseB, AccessTable, Loads, FaultsOn;
    assert |pages| >= 1;
    if refs == [] {
      NoRefs(t, Clock2);
      NoFaults();
    } else {
      RunUnfolds(t, Clock2, refs);
      var q := refs[0].page;
      var r := AccessTable(t, Clock2, q, refs[0].write);
      var rest := Loads(r, Clock2, refs[1..]);
      AccessA(t, q, refs[0].write, live);
      if t.Present(q) {
        WindowA(r, refs[1..], pages, live + {q});
        assert [] + rest == rest;
        assert pages - (live + {q}) <= pages - live;
        SubsetSize(pages - (live + {q}), pages - live);
      } else {
        assert pages - live == (pages - (live + {q})) + {q};
        assert pages == (pages - {q}) + {q};
        FaultsCons(q, rest);
        if PhaseA(r, live + {q}) {
          WindowA(r, refs[1..], pages, live + {q});
        } else {
          WindowB(r, refs[1..], pages, live + {q}, {q});
        }
      }
    }
  }

  lemma SubsetSize(a: set<int>, b: set<int>)
    requires a <= b
    ensures |a| <= |b|
  {
    assert b == a + (b - a);
  }

  /** From any consistent table: a window of k pages, at most as many as there are frames,
      faults at most 2k - 1 times under CLOCK2, and at most twice on each page. */
  lemma Clock2Window(t: Table, refs: seq<PageRef>, pages: set<int>)
    requires t.Consistent() && InRange(refs, t.NPages()) && pages != {} && |pages| <= t.NFrames()
    requires forall i :: 0 <= i < |refs| ==> refs[i].page in pages
    ensures |Loads(t, Clock2, refs)| <= 2 * |pages| - 1
    ensures forall p :: FaultsOn(Loads(t, Clock2, refs), p) <= 2
  {
    WindowA(t, refs, pages, {});
    assert pages - {} == pages;
  }
}
