/** Closed forms of the clock hand: which frame it stops at, and exactly what
    it does to the reference bits on the way. */
module ClockSweep {
  import opened PageTable
  import opened Runs

  /** m is the least weight of all frames. */
  ghost predicate IsMinimum(ws: seq<nat>, m: nat) {
    m in ws && forall f :: 0 <= f < |ws| ==> m <= ws[f]
  }

  /** v is the first frame of weight m that the hand meets. */
  ghost predicate IsFirst(ws: seq<nat>, hand: nat, m: nat, v: nat)
    requires hand < |ws|
  {
    && v < |ws| && ws[v] == m
    && forall f :: 0 <= f < |ws| && Dist(hand, f, |ws|) < Dist(hand, v, |ws|) ==> ws[f] != m
  }

  /** How many passes frame f sees before the hand stops at v. */
  function Loss(hand: nat, n: nat, m: nat, v: nat, f: nat): nat
    requires hand < n && v < n && f < n
  {
    if Dist(hand, f, n) < Dist(hand, v, n) then m + 1 else m
  }

  /** r is t after the hand passed every frame exactly Loss times, and nothing else changed. */
  ghost predicate Passed(t: Table, r: Table, policy: Policy, m: nat)
    requires t.Consistent() && t.Full() && r.Shaped()
  {
    && r.framepage == t.framepage && r.size == t.size && r.NPages() == t.NPages()
    && (forall f :: 0 <= f < t.NFrames() && t.FrameHolds(f) ==>
          r.Entry(PageAt(t, f)) ==
          PtEntry(PassTimes(policy, t.Entry(PageAt(t, f)).flags, Loss(t.hand, t.NFrames(), m, r.hand, f)), f))
    && (forall p :: 0 <= p < t.NPages() && !t.Present(p) ==> r.Entry(p) == t.Entry(p))
  }

  /** One pass followed by the passes Loss counts from the next frame on is Loss counted from here. */
  lemma LossStep(t: Table, policy: Policy, r: Table, m': nat, m: nat)
    requires t.Consistent() && t.Full() && policy != Fifo && WeightAt(t, policy, t.hand) > 0
    requires PassHand(t, policy).Consistent() && PassHand(t, policy).Full() && r.Shaped()
    requires Passed(PassHand(t, policy), r, policy, m')
    requires m == if r.hand == t.hand then m' + 1 else m'
    ensures Passed(t, r, policy, m)
  {
    var t1 := PassHand(t, policy);
    var n := t.NFrames();
    forall f | 0 <= f < n && t.FrameHolds(f)
      ensures r.Entry(PageAt(t, f)) ==
              PtEntry(PassTimes(policy, t.Entry(PageAt(t, f)).flags, Loss(t.hand, n, m, r.hand, f)), f)
    {
      assert t1.FrameHolds(f);
      assert t.FrameHolds(t.hand);
      var before := if f == t.hand then 1 else 0;
      assert Loss(t.hand, n, m, r.hand, f) == Loss(t1.hand, n, m', r.hand, f) + before;
    }
    forall p | 0 <= p < t.NPages() && !t.Present(p) ensures r.Entry(p) == t.Entry(p) {
      assert t.FrameHolds(t.hand) && t.PageSound(PageAt(t, t.hand));
      assert !t1.Present(p);
    }
  }

  /** How many rounds the search makes: every round passes one frame. */
  function Rounds(t: Table, policy: Policy): nat
    requires t.Consistent() && t.Full() && policy != Fifo
    decreases Sum(Weights(t, policy))
  {
    if WeightAt(t, policy, t.hand) == 0 then 0
    else
      PassHandSound(t, policy);
      1 + Rounds(PassHand(t, policy), policy)
  }

  /** The closed form, for CLOCK (weights 0 and 1) and CLOCK2 (weights 0, 1 and 2) alike:
      with m the least weight, the hand stops at the first frame of weight m; the frames
      strictly before it lose m + 1 references and all others lose m; that takes m turns of the
      hand and the way to the victim. */
  lemma {:induction false} SweepClosedForm(t: Table, policy: Policy) returns (m: nat)
    requires t.Consistent() && t.Full() && policy != Fifo
    ensures Sweep(t, policy).Consistent() && Sweep(t, policy).NFrames() == t.NFrames()
    ensures IsMinimum(Weights(t, policy), m)
    ensures IsFirst(Weights(t, policy), t.hand, m, Sweep(t, policy).hand)
    ensures Passed(t, Sweep(t, policy), policy, m)
    ensures t.hand < t.NFrames() && Sweep(t, policy).hand < t.NFrames()
    ensures Rounds(t, policy) == m * t.NFrames() + Dist(t.hand, Sweep(t, policy).hand, t.NFrames())
    decreases Sum(Weights(t, policy))
  {
    hide *;
    SweepSound(t, policy);
    SweepUnfolds(t, policy);
    if WeightAt(t, policy, t.hand) == 0 {
      m := 0;
      SweepStops(t, policy);
      RoundsStep(0, t.hand, t.hand, t.NFrames());
    } else {
      PassHandSound(t, policy);
      var m' := SweepClosedForm(PassHand(t, policy), policy);
      var r := Sweep(t, policy);
      m := if r.hand == t.hand then m' + 1 else m';
      LossStep(t, policy, r, m', m);
      FirstStep(Weights(t, policy), t.hand, m', r.hand);
      RoundsStep(m', t.hand, r.hand, t.NFrames());
    }
  }

  /** One round more: either the hand comes one frame closer, or a whole turn is added. */
  lemma RoundsStep(m: nat, hand: nat, v: nat, n: nat)
    requires hand < n && v < n
    ensures Dist(hand, hand, n) == 0
    ensures 1 + m * n + Dist(Next(hand, n), v, n) == (if v == hand then m + 1 else m) * n + Dist(hand, v, n)
  {
    assert (m + 1) * n == m * n + n;
  }

  lemma SweepUnfolds(t: Table, policy: Policy)
    requires t.Consistent() && t.Full() && policy != Fifo
    ensures t.hand < t.NFrames() && t.Shaped()
    ensures t.NFrames() == PassHand(t, policy).NFrames()
    ensures PassHand(t, policy).hand == Next(t.hand, t.NFrames())
    ensures Sweep(t, policy).Shaped() && Sweep(t, policy).NFrames() == t.NFrames()
    ensures if WeightAt(t, policy, t.hand) == 0 then Sweep(t, policy) == t
            else
              && PassHand(t, policy).Consistent() && PassHand(t, policy).Full()
              && Sweep(t, policy) == Sweep(PassHand(t, policy), policy)
    ensures Rounds(t, policy) == if WeightAt(t, policy, t.hand) == 0 then 0 else 1 + Rounds(PassHand(t, policy), policy)
  {
    SweepSound(t, policy);
    if WeightAt(t, policy, t.hand) != 0 { PassHandSound(t, policy); }
  }

  /** Nothing is passed when the hand already points at an unreferenced frame. */
  lemma SweepStops(t: Table, policy: Policy)
    requires t.Consistent() && t.Full() && WeightAt(t, policy, t.hand) == 0
    ensures IsMinimum(Weights(t, policy), 0)
    ensures IsFirst(Weights(t, policy), t.hand, 0, t.hand)
    ensures Passed(t, t, policy, 0)
  {
    assert Weights(t, policy)[t.hand] == 0;
    forall f | 0 <= f < t.NFrames() && t.FrameHolds(f)
      ensures t.Entry(PageAt(t, f)) ==
              PtEntry(PassTimes(policy, t.Entry(PageAt(t, f)).flags, Loss(t.hand, t.NFrames(), 0, t.hand, f)), f)
    {
      assert Loss(t.hand, t.NFrames(), 0, t.hand, f) == 0;
    }
  }

  /** Minimum and first frame, seen from one frame earlier. */
  lemma FirstStep(ws: seq<nat>, hand: nat, m: nat, v: nat)
    requires hand < |ws| && ws[hand] > 0
    requires IsMinimum(ws[hand := ws[hand] - 1], m)
    requires IsFirst(ws[hand := ws[hand] - 1], Next(hand, |ws|), m, v)
    ensures var m' := if v == hand then m + 1 else m; IsMinimum(ws, m') && IsFirst(ws, hand, m', v)
  {
    var ws1 := ws[hand := ws[hand] - 1];
    var n := |ws|;
    forall f | 0 <= f < n && f != hand && f != v && v == hand ensures ws[f] > m {
      assert ws1[f] >= m;
      assert Dist(Next(hand, n), f, n) < Dist(Next(hand, n), v, n);
    }
    var m' := if v == hand then m + 1 else m;
    assert ws[v] == m';
    forall f | 0 <= f < n ensures m' <= ws[f] {
      assert m <= ws1[f];
    }
    forall f | 0 <= f < n && Dist(hand, f, n) < Dist(hand, v, n) ensures ws[f] != m' {
      if f != hand {
        assert Dist(Next(hand, n), f, n) < Dist(Next(hand, n), v, n);
        assert ws1[f] != m;
      } else {
        assert m <= ws1[f];
      }
    }
  }

  /** Every round takes exactly one reference away, and the search ends after at most one turn
      of the hand under CLOCK and two under CLOCK2. */
  lemma SweepBound(t: Table, policy: Policy)
    requires t.Consistent() && t.Full() && policy != Fifo
    ensures Sweep(t, policy).Consistent() && Sweep(t, policy).Full()
    ensures Sum(Weights(Sweep(t, policy), policy)) + Rounds(t, policy) == Sum(Weights(t, policy))
    ensures Rounds(t, policy) <= (if policy == Clock then 1 else 2) * t.NFrames()
  {
    RoundsClear(t, policy);
    var m := SweepClosedForm(t, policy);
    var ws := Weights(t, policy);
    var n := t.NFrames();
    var b := if policy == Clock then 1 else 2;
    assert t.FrameHolds(t.hand) && ws[t.hand] <= b;
    assert m == b ==> Dist(t.hand, Sweep(t, policy).hand, n) == 0;
    TurnsBound(m, Dist(t.hand, Sweep(t, policy).hand, n), n, b);
  }

  lemma TurnsBound(m: nat, d: nat, n: nat, b: nat)
    requires m <= b && d < n && (m == b ==> d == 0)
    ensures m * n + d <= b * n
  {
    if m < b {
      assert b * n == m * n + n + (b - m - 1) * n;
    }
  }

  lemma {:induction false} RoundsClear(t: Table, policy: Policy)
    requires t.Consistent() && t.Full() && policy != Fifo
    ensures Sweep(t, policy).Consistent() && Sweep(t, policy).Full()
    ensures Sum(Weights(Sweep(t, policy), policy)) + Rounds(t, policy) == Sum(Weights(t, policy))
    decreases Sum(Weights(t, policy))
  {
    hide *;
    SweepSound(t, policy);
    SweepUnfolds(t, policy);
    if WeightAt(t, policy, t.hand) != 0 {
      PassHandSound(t, policy);
      RoundsClear(PassHand(t, policy), policy);
    }
  }

  /** CLOCK gives a second chance: the victim is the first frame from the hand whose used
      bit is clear, or the hand's own frame if there is none; exactly the passed frames lose
      their used bit and nothing else about any page changes. */
  lemma ClockSecondChance(t: Table)
    requires t.Consistent() && t.Full()
    ensures var r := Sweep(t, Clock);
      && r.Consistent() && r.framepage == t.framepage && r.NPages() == t.NPages()
      && var ws := Weights(t, Clock);
         var clear := 0 in ws;
         && (if clear then IsFirst(ws, t.hand, 0, r.hand) else r.hand == t.hand)
         && (forall f :: 0 <= f < t.NFrames() && t.FrameHolds(f) ==>
               var passed := !clear || Dist(t.hand, f, t.NFrames()) < Dist(t.hand, r.hand, t.NFrames());
               var e := t.Entry(PageAt(t, f));
               r.Entry(PageAt(t, f)) == if passed then e.(flags := e.flags.(used1 := false)) else e)
         && (forall p :: 0 <= p < t.NPages() && !t.Present(p) ==> r.Entry(p) == t.Entry(p))
  {
    var m := SweepClosedForm(t, Clock);
    var r := Sweep(t, Clock);
    var ws := Weights(t, Clock);
    SweepSound(t, Clock);
    assert m <= 1 by {
      assert t.FrameHolds(t.hand);
      assert ws[t.hand] <= 1;
    }
    assert 0 in ws <==> m == 0;
    if m == 1 {
      assert Dist(t.hand, r.hand, t.NFrames()) == 0 by {
        assert t.FrameHolds(t.hand);
        assert ws[t.hand] == 1;
      }
    }
    forall f | 0 <= f < t.NFrames() && t.FrameHolds(f)
      ensures var passed := m != 0 || Dist(t.hand, f, t.NFrames()) < Dist(t.hand, r.hand, t.NFrames());
              var e := t.Entry(PageAt(t, f));
              r.Entry(PageAt(t, f)) == if passed then e.(flags := e.flags.(used1 := false)) else e
    {
      var e := t.Entry(PageAt(t, f));
      var k := Loss(t.hand, t.NFrames(), m, r.hand, f);
      assert k <= 1;
      assert k == 1 ==> PassTimes(Clock, e.flags, k) == PassTimes(Clock, Pass(Clock, e.flags), 0);
    }
  }

  /** The weight that is left after k passes, and what the passes leave alone. */
  lemma {:induction false} PassesLower(policy: Policy, flags: Flags, k: nat)
    requires policy != Fifo && k <= Weight(policy, flags)
    ensures Weight(policy, PassTimes(policy, flags, k)) == Weight(policy, flags) - k
    ensures PassTimes(policy, flags, k).present == flags.present && PassTimes(policy, flags, k).changed == flags.changed
    ensures PassTimes(policy, flags, k).used1 <==> Weight(policy, flags) > k
    ensures policy == Clock2 ==>
              (PassTimes(policy, flags, k).used2 <==> Weight(policy, flags) - k == 2 || (flags.used2 && !flags.used1))
    decreases k
  {
    if k > 0 {
      PassesLower(policy, Pass(policy, flags), k - 1);
    }
  }

  /** CLOCK2 in terms of the two used bits: with m the least weight, the victim is the first frame
      from the hand with that weight; frames strictly before it lose m + 1 references, all others
      m; a page keeps its first used bit while a reference is left and its second one while two
      are, or if that bit was set without the first; PRESENT, CHANGED and the frames of all pages
      stay, absent pages are untouched. */
  lemma Clock2Victim(t: Table) returns (m: nat)
    requires t.Consistent() && t.Full()
    ensures Sweep(t, Clock2).Consistent() && Sweep(t, Clock2).Full() && SameButUsed(t, Sweep(t, Clock2))
    ensures Sweep(t, Clock2).framepage == t.framepage
    ensures IsMinimum(Weights(t, Clock2), m) && IsFirst(Weights(t, Clock2), t.hand, m, Sweep(t, Clock2).hand)
    ensures forall f :: 0 <= f < t.NFrames() && t.FrameHolds(f) ==>
              var left := WeightAt(t, Clock2, f) - Loss(t.hand, t.NFrames(), m, Sweep(t, Clock2).hand, f);
              var before := t.Entry(PageAt(t, f)).flags;
              var after := Sweep(t, Clock2).Entry(PageAt(t, f)).flags;
              && left >= 0 && (after.used1 <==> left > 0)
              && (after.used2 <==> left == 2 || (before.used2 && !before.used1))
    ensures forall p :: 0 <= p < t.NPages() && !t.Present(p) ==> Sweep(t, Clock2).Entry(p) == t.Entry(p)
  {
    m := SweepClosedForm(t, Clock2);
    SweepSound(t, Clock2);
    var r := Sweep(t, Clock2);
    var ws := Weights(t, Clock2);
    forall f | 0 <= f < t.NFrames() && t.FrameHolds(f)
      ensures var left := WeightAt(t, Clock2, f) - Loss(t.hand, t.NFrames(), m, r.hand, f);
              var before := t.Entry(PageAt(t, f)).flags;
              var after := r.Entry(PageAt(t, f)).flags;
              && left >= 0 && (after.used1 <==> left > 0)
              && (after.used2 <==> left == 2 || (before.used2 && !before.used1))
    {
      assert ws[f] >= m && (Dist(t.hand, f, |ws|) < Dist(t.hand, r.hand, |ws|) ==> ws[f] != m);
      PassesLower(Clock2, t.Entry(PageAt(t, f)).flags, Loss(t.hand, t.NFrames(), m, r.hand, f));
    }
  }

  // ----- which frame each policy takes -----

  /** The page in frame f has its first used bit set. */
  ghost predicate Used(t: Table, f: nat) {
    f < t.NFrames() && -1 <= t.framepage[f] < t.NPages() && t.Entry(t.framepage[f]).flags.used1
  }

  /** From t the hand goes to frame v and leaves r: v is the first frame from the hand with a clear
      used bit, and those before it lose theirs; if there is none, v is the hand's, and all do. */
  ghost predicate SecondChance(t: Table, r: Table, v: nat)
    requires t.hand < t.NFrames() && v < t.NFrames() && r.NFrames() == t.NFrames()
  {
    var n := t.NFrames();
    if forall f :: 0 <= f < n ==> Used(t, f) then v == t.hand && forall f :: 0 <= f < n ==> !Used(r, f)
    else
      && !Used(t, v)
      && (forall f :: 0 <= f < n && Dist(t.hand, f, n) < Dist(t.hand, v, n) ==> Used(t, f))
      && forall f :: 0 <= f < n ==> (Used(r, f) <==> Used(t, f) && Dist(t.hand, f, n) >= Dist(t.hand, v, n))
  }

  /** The choice of a frame under each policy, once all are occupied: FIFO takes the hand's, CLOCK
      gives a second chance, CLOCK2 takes the first one from the hand with the fewest references.
      The hand then stands behind the chosen frame. */
  lemma PolicyChooses(t: Table, policy: Policy)
    requires t.Consistent() && t.Full()
    ensures var c, n := Choose(t, policy), t.NFrames();
            && t.hand < n && c.frame < n && c.table.hand == Next(c.frame, n)
            && c.table.framepage == t.framepage && c.table.NPages() == t.NPages()
            && match policy
               case Fifo => c.frame == t.hand && c.table.entries == t.entries
               case Clock => SecondChance(t, c.table, c.frame)
               case Clock2 =>
                 exists m :: IsMinimum(Weights(t, Clock2), m) && IsFirst(Weights(t, Clock2), t.hand, m, c.frame)
  {
    match policy
    case Fifo =>
    case Clock =>
      ClockChooses(t);
      SweepSound(t, Clock);
      hide Sweep, Table.Consistent;
      var r, c := Sweep(t, Clock), Choose(t, Clock);
      forall f | 0 <= f < t.NFrames() ensures Used(c.table, f) <==> Used(r, f) {}
    case Clock2 =>
      var m := SweepClosedForm(t, Clock2);
      SweepSound(t, Clock2);
  }

  lemma ClockChooses(t: Table)
    requires t.Consistent() && t.Full()
    ensures t.hand < t.NFrames() && Sweep(t, Clock).hand < t.NFrames() && Sweep(t, Clock).NFrames() == t.NFrames()
    ensures SecondChance(t, Sweep(t, Clock), Sweep(t, Clock).hand)
  {
    hide Sweep, Sum;
    ClockSecondChance(t);
    SweepSound(t, Clock);
    var ws, r, n := Weights(t, Clock), Sweep(t, Clock), t.NFrames();
    forall f | 0 <= f < n ensures ws[f] == if Used(t, f) then 1 else 0 {
      assert t.FrameHolds(f) && ws[f] == WeightAt(t, Clock, f);
    }
    var clear := 0 in ws;
    forall f | 0 <= f < n
      ensures Used(r, f) <==> Used(t, f) && clear && Dist(t.hand, f, n) >= Dist(t.hand, r.hand, n)
    {
      assert t.FrameHolds(f) && r.FrameHolds(f) && r.Entry(PageAt(t, f)) == r.Entry(r.framepage[f]);
    }
    assert clear <==> !forall f :: 0 <= f < n ==> Used(t, f) by {
      if f :| 0 <= f < n && !Used(t, f) { assert ws[f] == 0; }
    }
  }

  // ----- the second used bit -----

  /** No page carries the second used bit without the first. */
  ghost predicate Tidy(t: Table) {
    forall p :: -1 <= p < t.NPages() ==> t.Entry(p).flags.used2 ==> t.Entry(p).flags.used1
  }

  lemma PassTidy(t: Table)
    requires t.Consistent() && t.Full() && Tidy(t)
    ensures Tidy(PassHand(t, Clock2))
  {
    var r := PassHand(t, Clock2);
    assert t.FrameHolds(t.hand);
    var page := PageAt(t, t.hand);
    forall p | -1 <= p < r.NPages() ensures r.Entry(p).flags.used2 ==> r.Entry(p).flags.used1 {
      assert t.Entry(p) == t.entries[p + 1] && r.Entry(p) == r.entries[p + 1];
      assert p != page ==> r.Entry(p) == t.Entry(p);
    }
  }

  lemma {:induction false} SweepTidy(t: Table)
    requires t.Consistent() && t.Full() && Tidy(t)
    ensures Tidy(Sweep(t, Clock2))
    decreases Sum(Weights(t, Clock2))
  {
    if WeightAt(t, Clock2, t.hand) != 0 {
      PassHandSound(t, Clock2);
      assert t.FrameHolds(t.hand);
      PassTidy(t);
      SweepTidy(PassHand(t, Clock2));
    }
  }

  /** CLOCK2 and the accesses of the client keep the tables tidy. */
  lemma AccessTidy(t: Table, page: int, write: bool)
    requires t.Consistent() && 0 <= page < t.NPages() && Tidy(t)
    ensures Tidy(AccessTable(t, Clock2, page, write))
  {
    if t.Present(page) {
      TouchTidy(t, page, write);
    } else {
      FaultTidy(t, page);
      FaultSound(t, Clock2, page);
      TouchTidy(Fault(t, Clock2, page), page, write);
    }
  }

  lemma TouchTidy(t: Table, page: int, write: bool)
    requires 0 <= page < t.NPages() && Tidy(t)
    ensures Tidy(Touch(t, page, write))
  {
  }

  lemma FaultTidy(t: Table, page: int)
    requires t.Consistent() && 0 <= page < t.NPages() && !t.Present(page) && Tidy(t)
    ensures Tidy(Fault(t, Clock2, page))
  {
    ChooseSound(t, Clock2);
    var c := Choose(t, Clock2);
    if t.Full() { SweepTidy(t); }
    var chosen := if t.Full() then Sweep(t, Clock2) else t;
    assert c.table.entries == chosen.entries;
    assert c.table.PageSound(page) && t.PageSound(page);
    RewireSound(c.table, c.frame, page);
    var r := Fault(t, Clock2, page);
    forall p | -1 <= p < r.NPages() ensures r.Entry(p).flags.used2 ==> r.Entry(p).flags.used1 {
      assert chosen.Entry(p) == c.table.Entry(p);
    }
  }

  lemma {:induction false} RunTidy(t: Table, refs: seq<PageRef>)
    requires t.Consistent() && InRange(refs, t.NPages()) && Tidy(t)
    ensures Tidy(RunTable(t, Clock2, refs))
    decreases |refs|
  {
    hide Tidy;
    if refs != [] {
      AccessTidy(t, refs[0].page, refs[0].write);
      hide Table.Consistent, AccessTable;
      RunTidy(AccessTable(t, Clock2, refs[0].page, refs[0].write), refs[1..]);
    }
  }

  lemma InitTidy(npages: nat, nframes: nat)
    requires npages >= 1 && nframes >= 1
    ensures InitTable(npages, nframes).Consistent() && InitTable(npages, nframes).NPages() == npages
    ensures Tidy(InitTable(npages, nframes))
  {
    InitConsistent(npages, nframes);
    var t := InitTable(npages, nframes);
    forall p | -1 <= p < t.NPages() ensures t.Entry(p) == VOID_ENTRY {}
  }

  /** The same for the tables of a run from the start: there the second used bit
      never stands without the first. */
  lemma Clock2VictimOfRun(npages: nat, nframes: nat, refs: seq<PageRef>) returns (m: nat)
    requires npages >= 1 && nframes >= 1 && InRange(refs, npages)
    ensures InitTable(npages, nframes).Consistent() && InitTable(npages, nframes).NPages() == npages
    ensures var t := RunTable(InitTable(npages, nframes), Clock2, refs);
            && (forall p :: 0 <= p < npages ==> t.Entry(p).flags.used2 ==> t.Entry(p).flags.used1)
            && (t.Full() ==>
              && Sweep(t, Clock2).Consistent() && Sweep(t, Clock2).Full() && SameButUsed(t, Sweep(t, Clock2))
              && IsMinimum(Weights(t, Clock2), m) && IsFirst(Weights(t, Clock2), t.hand, m, Sweep(t, Clock2).hand)
              && forall f :: 0 <= f < t.NFrames() && t.FrameHolds(f) ==>
                   var left := WeightAt(t, Clock2, f) - Loss(t.hand, t.NFrames(), m, Sweep(t, Clock2).hand, f);
                   var after := Sweep(t, Clock2).Entry(PageAt(t, f)).flags;
                   left >= 0 && (after.used1 <==> left > 0) && (after.used2 <==> left == 2))
  {
    InitTidy(npages, nframes);
    RunTidy(InitTable(npages, nframes), refs);
    var t := RunTable(InitTable(npages, nframes), Clock2, refs);
    m := 0;
    hide RunTable, InitTable;
    if t.Full() {
      m := Clock2Victim(t);
    }
  }
}
