/** Exactly when a policy is conservative, why CLOCK2 in general is not, and exactly how far
    from it CLOCK2 is. */
module Conservative {
  import opened PageTable
  import opened Runs
  import opened ClockSweep
  import opened FaultWindows
  import opened Clock2Bound

  /** A run so far, and a window after it that touches at most as many pages as there are frames. */
  ghost predicate IsWindow(npages: nat, nframes: nat, before: seq<PageRef>, window: seq<PageRef>, pages: set<int>) {
    && InRange(before, npages) && InRange(window, npages)
    && |pages| <= nframes && forall i :: 0 <= i < |window| ==> window[i].page in pages
  }

  /** The pages that fault in the window. */
  function WindowLoads(policy: Policy, npages: nat, nframes: nat, before: seq<PageRef>, window: seq<PageRef>): seq<int>
    requires npages >= 1 && nframes >= 1 && InRange(before, npages) && InRange(window, npages)
  {
    InitConsistent(npages, nframes);
    Loads(RunTable(InitTable(npages, nframes), policy, before), policy, window)
  }

  /** Never more faults in a window than pages. */
  ghost predicate FewFaults(policy: Policy, npages: nat, nframes: nat)
    requires npages >= 1 && nframes >= 1
  {
    forall before, window, pages :: IsWindow(npages, nframes, before, window, pages) ==>
      |WindowLoads(policy, npages, nframes, before, window)| <= |pages|
  }

  /** No page faults twice in a window. */
  ghost predicate FaultsOnce(policy: Policy, npages: nat, nframes: nat)
    requires npages >= 1 && nframes >= 1
  {
    forall before, window, pages :: IsWindow(npages, nframes, before, window, pages) ==>
      forall p :: FaultsOn(WindowLoads(policy, npages, nframes, before, window), p) <= 1
  }

  // ----- CLOCK2 in terms of frames and weights -----

  /** All frames occupied: what they hold, where the hand is, and how many references each has. */
  ghost predicate Layout(t: Table, frames: seq<int>, hand: nat, ws: seq<nat>) {
    t.Consistent() && t.Full() && Tidy(t) && t.framepage == frames && t.hand == hand && Weights(t, Clock2) == ws
  }

  function Plus(w: nat): nat {
    if w >= 2 then 2 else w + 1
  }

  lemma LayoutShape(t: Table, frames: seq<int>, hand: nat, ws: seq<nat>)
    requires Layout(t, frames, hand, ws)
    ensures |ws| == |frames| == t.NFrames() && hand < |frames|
    ensures forall f :: 0 <= f < |frames| ==> 0 <= frames[f] < t.NPages() && t.Present(frames[f])
    ensures forall p :: 0 <= p < t.NPages() ==> (t.Present(p) <==> p in frames)
  {
    forall f | 0 <= f < |frames| ensures 0 <= frames[f] < t.NPages() && t.Present(frames[f]) {
      assert t.FrameHolds(f) && t.PageSound(frames[f]);
    }
    forall p | 0 <= p < t.NPages() && t.Present(p) ensures p in frames {
      assert t.PageSound(p) && frames[t.Entry(p).frame] == p;
    }
  }

  /** An access to the page in frame f adds a reference to it. */
  lemma HitLayout(t: Table, frames: seq<int>, hand: nat, ws: seq<nat>, f: nat)
    requires Layout(t, frames, hand, ws) && f < |frames|
    ensures |ws| == |frames| && 0 <= frames[f] < t.NPages()
    ensures var r := AccessTable(t, Clock2, frames[f], false);
            r.NPages() == t.NPages() && Layout(r, frames, hand, ws[f := Plus(ws[f])])
  {
    LayoutShape(t, frames, hand, ws);
    var r := AccessTable(t, Clock2, frames[f], false);
    AccessTidy(t, frames[f], false);
    forall g | 0 <= g < |frames| ensures WeightAt(r, Clock2, g) == ws[f := Plus(ws[f])][g] {
      assert t.FrameHolds(g) && t.FrameHolds(f);
    }
    assert Weights(r, Clock2) == ws[f := Plus(ws[f])];
  }

  /** The weights after a fault that replaces frame v, with m the least weight before. */
  function AfterMiss(ws: seq<nat>, hand: nat, m: nat, v: nat): (r: seq<nat>)
    requires hand < |ws| && v < |ws| && IsMinimum(ws, m) && IsFirst(ws, hand, m, v)
    ensures |r| == |ws|
  {
    seq(|ws|, f requires 0 <= f < |ws| =>
      assert ws[f] >= Loss(hand, |ws|, m, v, f);
      if f == v then 1 else ws[f] - Loss(hand, |ws|, m, v, f))
  }

  lemma FirstUnique(ws: seq<nat>, hand: nat, m: nat, v: nat, m': nat, v': nat)
    requires hand < |ws| && IsMinimum(ws, m) && IsFirst(ws, hand, m, v)
    requires IsMinimum(ws, m') && IsFirst(ws, hand, m', v')
    ensures m == m' && v == v'
  {
  }

  /** A fault takes the first frame from the hand with the least weight. */
  lemma MissLayout(t: Table, frames: seq<int>, hand: nat, ws: seq<nat>, page: int, m: nat, v: nat)
    requires Layout(t, frames, hand, ws) && 0 <= page < t.NPages() && page !in frames
    requires hand < |ws| && IsMinimum(ws, m) && IsFirst(ws, hand, m, v)
    ensures |ws| == |frames| && v < |frames| && !t.Present(page)
    ensures var r := AccessTable(t, Clock2, page, false);
            r.NPages() == t.NPages() && Layout(r, frames[v := page], Next(v, |frames|), AfterMiss(ws, hand, m, v))
  {
    LayoutShape(t, frames, hand, ws);
    MissChoice(t, frames, hand, ws, page, m, v);
    MissWeights(t, frames, hand, ws, page, m, v);
    FaultSound(t, Clock2, page);
    AccessTidy(t, page, false);
    var r := AccessTable(t, Clock2, page, false);
    hide AccessTable, WeightAt, Tidy, Table.Consistent;
    assert Weights(r, Clock2) == AfterMiss(ws, hand, m, v);
  }

  lemma MissChoice(t: Table, frames: seq<int>, hand: nat, ws: seq<nat>, page: int, m: nat, v: nat)
    requires Layout(t, frames, hand, ws) && 0 <= page < t.NPages() && !t.Present(page)
    requires hand < |ws| && IsMinimum(ws, m) && IsFirst(ws, hand, m, v)
    ensures |ws| == |frames| == t.NFrames() && v < |frames|
    ensures Sweep(t, Clock2).Shaped() && Sweep(t, Clock2).hand == v && Passed(t, Sweep(t, Clock2), Clock2, m)
    ensures var r := AccessTable(t, Clock2, page, false);
            r.framepage == frames[v := page] && r.hand == Next(v, |frames|) && r.Full()
    ensures Chosen(Choose(t, Clock2).table, v) && Choose(t, Clock2).table.NPages() == t.NPages()
    ensures !Choose(t, Clock2).table.Present(page)
    ensures Choose(t, Clock2).frame == v && Choose(t, Clock2).table.entries == Sweep(t, Clock2).entries
  {
    var m' := SweepClosedForm(t, Clock2);
    FirstUnique(ws, hand, m, v, m', Sweep(t, Clock2).hand);
    ChooseSound(t, Clock2);
    FaultSound(t, Clock2, page);
  }

  lemma MissWeights(t: Table, frames: seq<int>, hand: nat, ws: seq<nat>, page: int, m: nat, v: nat)
    requires Layout(t, frames, hand, ws) && 0 <= page < t.NPages() && !t.Present(page)
    requires hand < |ws| == |frames| && IsMinimum(ws, m) && IsFirst(ws, hand, m, v)
    ensures var r := AccessTable(t, Clock2, page, false);
            && r.Full() && r.NFrames() == |frames|
            && forall f :: 0 <= f < |frames| ==> WeightAt(r, Clock2, f) == AfterMiss(ws, hand, m, v)[f]
  {
    MissChoice(t, frames, hand, ws, page, m, v);
    FaultSound(t, Clock2, page);
    var r := AccessTable(t, Clock2, page, false);
    forall f | 0 <= f < |frames| ensures WeightAt(r, Clock2, f) == AfterMiss(ws, hand, m, v)[f] {
      assert r.FrameHolds(f) && t.FrameHolds(f);
      WeightLeft(ws, hand, m, v, f);
      assert ws[f] == WeightAt(t, Clock2, f);
      if f != v {
        OtherFrame(t, page, m, v, f);
      } else {
        MissEvicts(t, page, false);
      }
    }
  }

  lemma WeightLeft(ws: seq<nat>, hand: nat, m: nat, v: nat, f: nat)
    requires hand < |ws| && v < |ws| && IsMinimum(ws, m) && IsFirst(ws, hand, m, v) && f < |ws|
    ensures Loss(hand, |ws|, m, v, f) <= ws[f]
  {
  }

  /** The page in another frame keeps what the passes of the hand left of its references. */
  lemma OtherFrame(t: Table, page: int, m: nat, v: nat, f: nat)
    requires t.Consistent() && t.Full() && 0 <= page < t.NPages() && !t.Present(page) && v < t.NFrames()
    requires f < t.NFrames() && f != v && t.FrameHolds(f) && t.FrameHolds(v)
    requires Sweep(t, Clock2).Shaped() && Sweep(t, Clock2).hand == v && Passed(t, Sweep(t, Clock2), Clock2, m)
    requires Choose(t, Clock2).frame == v && Choose(t, Clock2).table.entries == Sweep(t, Clock2).entries
    requires Loss(t.hand, t.NFrames(), m, v, f) <= WeightAt(t, Clock2, f)
    ensures AccessTable(t, Clock2, page, false).NPages() == t.NPages()
    ensures Weight(Clock2, AccessTable(t, Clock2, page, false).Entry(t.framepage[f]).flags) ==
            WeightAt(t, Clock2, f) - Loss(t.hand, t.NFrames(), m, v, f)
  {
    var q := t.framepage[f];
    assert t.PageSound(q);
    PassesLower(Clock2, t.Entry(q).flags, Loss(t.hand, t.NFrames(), m, v, f));
    OthersStay(t, page, q);
    hide Table.Consistent, Sweep, AccessTable;
  }

  lemma OthersStay(t: Table, page: int, q: int)
    requires t.Consistent() && t.Full() && 0 <= page < t.NPages() && !t.Present(page)
    requires 0 <= q < t.NPages() && q != page && t.Present(q) && t.Entry(q).frame != Sweep(t, Clock2).hand
    ensures AccessTable(t, Clock2, page, false).NPages() == t.NPages() == Sweep(t, Clock2).NPages()
    ensures Refs(AccessTable(t, Clock2, page, false), q) == Refs(Sweep(t, Clock2), q)
  {
    hide Sweep, AccessTable;
    SweepSound(t, Clock2);
    MissEvicts(t, page, false);
  }

  // ----- a run that sets the trap -----

  /** t is what the run `before` makes of the initial tables. */
  ghost predicate Reaches(npages: nat, nframes: nat, before: seq<PageRef>, t: Table) {
    && npages >= 1 && nframes >= 1 && InRange(before, npages)
    && InitTable(npages, nframes).Consistent() && InitTable(npages, nframes).NPages() == npages
    && t == RunTable(InitTable(npages, nframes), Clock2, before)
  }

  lemma ReachesOne(npages: nat, nframes: nat, before: seq<PageRef>, t: Table, page: int) returns (longer: seq<PageRef>)
    requires Reaches(npages, nframes, before, t) && 0 <= page < npages
    ensures t.Consistent() && t.NPages() == npages && t.NFrames() == nframes
    ensures Reaches(npages, nframes, longer, AccessTable(t, Clock2, page, false))
  {
    assert InitTable(npages, nframes).NFrames() == nframes;
    longer := before + [PageRef(page, false)];
    RunSnoc(InitTable(npages, nframes), Clock2, before, PageRef(page, false));
  }

  /** The first k frames hold the first k pages, with one reference each. */
  ghost predicate Filling(t: Table, k: nat) {
    && t.Consistent() && Tidy(t) && t.size == k && t.hand == 0
    && forall f :: 0 <= f < k ==> t.framepage[f] == f < t.NPages() && Weight(Clock2, t.Entry(f).flags) == 1
  }

  lemma FillStep(t: Table, k: nat)
    requires Filling(t, k) && k < t.NFrames() && k < t.NPages()
    ensures Filling(AccessTable(t, Clock2, k, false), k + 1)
  {
    assert t.PageSound(k);
    ChooseSound(t, Clock2);
    var c := Choose(t, Clock2);
    assert c.table.PageSound(k);
    RewireSound(c.table, c.frame, k);
    AccessTidy(t, k, false);
  }

  lemma {:induction false} Fill(npages: nat, nframes: nat, k: nat) returns (before: seq<PageRef>, t: Table)
    requires 1 <= nframes && k <= nframes < npages
    ensures Reaches(npages, nframes, before, t) && t.NPages() == npages && t.NFrames() == nframes && Filling(t, k)
  {
    if k == 0 {
      before, t := [], InitTable(npages, nframes);
      InitTidy(npages, nframes);
    } else {
      before, t := Fill(npages, nframes, k - 1);
      FillStep(t, k - 1);
      before := ReachesOne(npages, nframes, before, t, k - 1);
      t := AccessTable(t, Clock2, k - 1, false);
    }
  }

  /** After pages 0 to n - 1, page n went to frame 0. */
  function Frames(n: nat): seq<int> {
    seq(n, f => if f == 0 then n else f)
  }

  /** Frame 0 with one reference, the frames from k to j - 1 with two, the others with none. */
  function Raised(n: nat, k: nat, j: nat): seq<nat> {
    seq(n, f => if f == 0 then 1 else if k <= f < j then 2 else 0)
  }

  lemma FilledLayout(t: Table, n: nat)
    requires Filling(t, n) && 1 <= n == t.NFrames()
    ensures Layout(t, seq(n, f => f), 0, seq(n, f => 1))
  {
    assert t.framepage == seq(n, f => f);
    forall f | 0 <= f < n ensures WeightAt(t, Clock2, f) == 1 { assert t.FrameHolds(f); }
    assert Weights(t, Clock2) == seq(n, f => 1);
  }

  lemma FirstReplaced(npages: nat, n: nat, k: nat) returns (before: seq<PageRef>, t: Table)
    requires 2 <= k <= n < npages
    ensures Reaches(npages, n, before, t) && t.NPages() == npages && Layout(t, Frames(n), 1, Raised(n, k, k))
  {
    before, t := Fill(npages, n, n);
    FilledLayout(t, n);
    hide Reaches, Filling, Layout, AccessTable;
    var frames, ws := seq(n, f => f), seq(n, f => 1);
    assert ws[0] == 1;
    MissLayout(t, frames, 0, ws, n, 1, 0);
    before := ReachesOne(npages, n, before, t, n);
    t := AccessTable(t, Clock2, n, false);
    assert frames[0 := n] == Frames(n);
    assert AfterMiss(ws, 0, 1, 0) == Raised(n, k, k);
  }

  lemma {:induction false} Raise(npages: nat, n: nat, k: nat, j: nat) returns (before: seq<PageRef>, t: Table)
    requires 2 <= k <= j <= n < npages
    ensures Reaches(npages, n, before, t) && t.NPages() == npages && Layout(t, Frames(n), 1, Raised(n, k, j))
    decreases j
  {
    hide Layout, Reaches, Frames;
    if j == k {
      before, t := FirstReplaced(npages, n, k);
    } else {
      before, t := Raise(npages, n, k, j - 1);
      var ws := Raised(n, k, j - 1);
      before, t := HitFrame(npages, n, before, t, ws, j - 1);
      before, t := HitFrame(npages, n, before, t, ws[j - 1 := 1], j - 1);
      assert ws[j - 1 := 1][j - 1 := 2] == Raised(n, k, j);
    }
  }

  lemma HitFrame(npages: nat, n: nat, before: seq<PageRef>, t: Table, ws: seq<nat>, f: nat)
      returns (before': seq<PageRef>, t': Table)
    requires Reaches(npages, n, before, t) && t.NPages() == npages && |ws| == n && f < n
    requires Layout(t, Frames(n), 1, ws)
    ensures Reaches(npages, n, before', t') && t'.NPages() == npages
    ensures Layout(t', Frames(n), 1, ws[f := Plus(ws[f])])
  {
    HitLayout(t, Frames(n), 1, ws, f);
    before' := ReachesOne(npages, n, before, t, Frames(n)[f]);
    t' := AccessTable(t, Clock2, Frames(n)[f], false);
  }

  /** The frames from 1 to k - 1 have no reference, the others have two; the hand is at frame 1. */
  function Trap(n: nat, k: nat): seq<nat> {
    seq(n, f => if 1 <= f < k then 0 else 2)
  }

  lemma SetTrap(npages: nat, n: nat, k: nat) returns (before: seq<PageRef>, t: Table)
    requires 2 <= k <= n < npages
    ensures Reaches(npages, n, before, t) && t.NPages() == npages && Layout(t, Frames(n), 1, Trap(n, k))
  {
    before, t := Raise(npages, n, k, n);
    before, t := HitFrame(npages, n, before, t, Raised(n, k, n), 0);
    assert Raised(n, k, n)[0 := 2] == Trap(n, k);
  }

  // ----- the trap springs -----

  function Reads(ps: seq<int>): seq<PageRef> {
    seq(|ps|, i requires 0 <= i < |ps| => PageRef(ps[i], false))
  }

  /** Reading these pages one after the other faults every time. */
  ghost predicate AllMiss(t: Table, ps: seq<int>)
    requires t.Consistent()
    decreases |ps|
  {
    ps != [] ==>
      0 <= ps[0] < t.NPages() && !t.Present(ps[0]) && AllMiss(AccessTable(t, Clock2, ps[0], false), ps[1..])
  }

  lemma {:induction false} AllMissLoads(t: Table, ps: seq<int>)
    requires t.Consistent() && AllMiss(t, ps)
    ensures InRange(Reads(ps), t.NPages()) && Loads(t, Clock2, Reads(ps)) == ps
    decreases |ps|
  {
    hide Loads, RunTable, AccessTable, Table.Consistent, Table.Present, Reads;
    ReadsOf(ps);
    if ps == [] {
      NoRefs(t, Clock2);
    } else {
      ReadsRest(ps);
      AllMissLoads(AccessTable(t, Clock2, ps[0], false), ps[1..]);
      ReadsInRange(ps, t.NPages());
      RunUnfolds(t, Clock2, Reads(ps));
      assert ps == [ps[0]] + ps[1..];
    }
  }

  lemma ReadsOf(ps: seq<int>)
    ensures |Reads(ps)| == |ps| && forall i :: 0 <= i < |ps| ==> Reads(ps)[i] == PageRef(ps[i], false)
  {
  }

  lemma ReadsRest(ps: seq<int>)
    requires ps != []
    ensures Reads(ps) != [] && Reads(ps)[1..] == Reads(ps[1..])
  {
  }

  lemma ReadsInRange(ps: seq<int>, n: int)
    requires ps != [] && 0 <= ps[0] < n && InRange(Reads(ps[1..]), n)
    ensures InRange(Reads(ps), n)
  {
    forall i | 0 <= i < |ps| ensures 0 <= Reads(ps)[i].page < n {
      assert i > 0 ==> Reads(ps)[i] == Reads(ps[1..])[i - 1];
    }
  }

  lemma MissFirst(t: Table, page: int, rest: seq<int>)
    requires t.Consistent() && 0 <= page < t.NPages() && !t.Present(page)
    requires AllMiss(AccessTable(t, Clock2, page, false), rest)
    ensures AllMiss(t, [page] + rest)
  {
    assert ([page] + rest)[1..] == rest;
  }

  /** The pages from a to b - 1, in order. */
  function From(a: nat, b: nat): (ps: seq<int>)
    requires a <= b
    ensures |ps| == b - a && forall i :: 0 <= i < |ps| ==> ps[i] == a + i
  {
    seq(b - a, i => a + i)
  }

  lemma FromUnfolds(a: nat, b: nat, rest: seq<int>)
    requires a < b
    ensures From(a, b) + rest == [a] + (From(a + 1, b) + rest)
  {
    assert From(a, b) == [a] + From(a + 1, b);
  }

  function HandAt(f: nat, n: nat): (h: nat)
    requires f <= n && n >= 1
    ensures h < n
  {
    if f == n then 0 else f
  }

  /** After pages 0 to i - 1 of the first round: each went to the frame of its successor. */
  function Frames1(n: nat, i: nat): seq<int> {
    seq(n, f => if f == 0 then n else if f <= i then f - 1 else f)
  }

  function Weights1(n: nat, k: nat, i: nat): seq<nat> {
    seq(n, f => if 1 <= f <= i then 1 else if 1 <= f < k then 0 else 2)
  }

  /** After pages 0 to i - 1 of the second round, page k - 1 being in frame 1. */
  function Frames2(n: nat, k: nat, i: nat): seq<int> {
    seq(n, f =>
      if f == 0 then n else if f == 1 then k - 1 else if f <= i + 1 then f - 2 else if f < k then f - 1 else f)
  }

  function Weights2(n: nat, i: nat): seq<nat> {
    seq(n, f => if 1 <= f <= i + 1 then 1 else 0)
  }

  /** The second round: the newcomers have no reference left, and each throws out the next one. */
  lemma {:induction false} SecondRound(t: Table, n: nat, k: nat, i: nat)
    requires 2 <= k <= n < t.NPages() && i <= k - 2 && Layout(t, Frames2(n, k, i), HandAt(i + 2, n), Weights2(n, i))
    ensures AllMiss(t, From(i, k - 1))
    decreases k - i
  {
    hide Layout, AccessTable, AllMiss;
    var frames, ws := Frames2(n, k, i), Weights2(n, i);
    LayoutShape(t, frames, HandAt(i + 2, n), ws);
    LayoutConsistent(t, frames, HandAt(i + 2, n), ws);
    NotIn2(n, k, i);
    FromUnfolds(i, k - 1, []);
    assert From(i, k - 1) + [] == From(i, k - 1) && From(i + 1, k - 1) + [] == From(i + 1, k - 1);
    if i < k - 2 {
      var v := i + 2;
      assert ws[v] == 0;
      MissLayout(t, frames, v, ws, i, 0, v);
      assert frames[v := i] == Frames2(n, k, i + 1);
      assert AfterMiss(ws, v, 0, v) == Weights2(n, i + 1);
      SecondRound(AccessTable(t, Clock2, i, false), n, k, i + 1);
    } else {
      NoMiss(AccessTable(t, Clock2, i, false), From(i + 1, k - 1));
    }
    MissFirst(t, i, From(i + 1, k - 1));
  }

  lemma NotIn2(n: nat, k: nat, i: nat)
    requires 2 <= k <= n && i <= k - 2
    ensures i !in Frames2(n, k, i)
  {
  }

  lemma NoMiss(t: Table, ps: seq<int>)
    requires t.Consistent() && ps == []
    ensures AllMiss(t, ps)
  {
  }

  lemma LayoutConsistent(t: Table, frames: seq<int>, hand: nat, ws: seq<nat>)
    requires Layout(t, frames, hand, ws)
    ensures t.Consistent()
  {
  }

  /** Between the rounds: page k - 1 costs all others the references that protected them, and
      the stale pages theirs as well. */
  lemma TurnsRound(t: Table, n: nat, k: nat)
    requires 2 <= k <= n < t.NPages() && Layout(t, Frames1(n, k - 1), HandAt(k, n), Weights1(n, k, k - 1))
    ensures t.Consistent() && AllMiss(t, [k - 1] + From(0, k - 1))
  {
    hide Layout, AccessTable, AllMiss;
    var frames, ws, hand := Frames1(n, k - 1), Weights1(n, k, k - 1), HandAt(k, n);
    LayoutConsistent(t, frames, hand, ws);
    assert k - 1 !in frames;
    assert ws[1] == 1;
    MissLayout(t, frames, hand, ws, k - 1, 1, 1);
    assert frames[1 := k - 1] == Frames2(n, k, 0);
    assert AfterMiss(ws, hand, 1, 1) == Weights2(n, 0);
    SecondRound(AccessTable(t, Clock2, k - 1, false), n, k, 0);
    MissFirst(t, k - 1, From(0, k - 1));
  }

  /** The first round: page i comes in where page i + 1 was, which has no reference. */
  lemma {:induction false} FirstRound(t: Table, n: nat, k: nat, i: nat)
    requires 2 <= k <= n < t.NPages() && i <= k - 1 && Layout(t, Frames1(n, i), HandAt(i + 1, n), Weights1(n, k, i))
    ensures t.Consistent() && AllMiss(t, From(i, k - 1) + ([k - 1] + From(0, k - 1)))
    decreases k - i
  {
    hide Layout, AccessTable, AllMiss;
    var frames, ws, rest := Frames1(n, i), Weights1(n, k, i), [k - 1] + From(0, k - 1);
    LayoutConsistent(t, frames, HandAt(i + 1, n), ws);
    if i == k - 1 {
      TurnsRound(t, n, k);
      assert From(i, k - 1) + rest == rest;
    } else {
      var v := i + 1;
      assert ws[v] == 0 && i !in frames;
      MissLayout(t, frames, v, ws, i, 0, v);
      assert frames[v := i] == Frames1(n, i + 1);
      assert AfterMiss(ws, v, 0, v) == Weights1(n, k, i + 1);
      FirstRound(AccessTable(t, Clock2, i, false), n, k, i + 1);
      MissFirst(t, i, From(i + 1, k - 1) + rest);
      FromUnfolds(i, k - 1, rest);
    }
  }

  lemma TrapSprings(t: Table, n: nat, k: nat)
    requires 2 <= k <= n < t.NPages() && Layout(t, Frames(n), 1, Trap(n, k))
    ensures t.Consistent() && AllMiss(t, WorstPages(k))
  {
    hide Layout, AllMiss, WorstPages, From;
    assert Frames(n) == Frames1(n, 0) && Trap(n, k) == Weights1(n, k, 0);
    FirstRound(t, n, k, 0);
    WorstPagesAre(k);
  }

  lemma WorstPagesAre(k: nat)
    requires k >= 1
    ensures From(0, k - 1) + ([k - 1] + From(0, k - 1)) == WorstPages(k)
  {
    assert From(0, k) == From(0, k - 1) + [k - 1];
  }

  // ----- the exact condition, and the exact worst case -----

  /** The pages 0 to k - 1, and all of them but the last once more. */
  function WorstPages(k: nat): (ps: seq<int>)
    requires k >= 1
    ensures |ps| == 2 * k - 1
  {
    From(0, k) + From(0, k - 1)
  }

  lemma WorstPagesBelow(k: nat)
    requires k >= 1
    ensures forall i :: 0 <= i < |WorstPages(k)| ==> WorstPages(k)[i] in PagesBelow(k)
  {
  }

  lemma WorstPageTwice(k: nat)
    requires k >= 2
    ensures FaultsOn(WorstPages(k), 0) >= 2
  {
    assert From(0, k) == [0] + From(1, k) && From(0, k - 1) == [0] + From(1, k - 1);
    hide From;
    FaultsCons(0, From(1, k));
    FaultsCons(0, From(1, k - 1));
    FaultsJoin(From(0, k), From(0, k - 1), 0);
  }

  lemma FaultsJoin(a: seq<int>, b: seq<int>, p: int)
    ensures FaultsOn(a + b, p) == FaultsOn(a, p) + FaultsOn(b, p)
  {
  }

  /** With more pages than frames and any number k of pages that fit into the frames: a run from
      the start after which reads of k pages fault 2k - 1 times under CLOCK2. */
  lemma Clock2IsNotConservative(npages: nat, nframes: nat, k: nat) returns (before: seq<PageRef>)
    requires 1 <= k <= nframes < npages
    ensures IsWindow(npages, nframes, before, Reads(WorstPages(k)), PagesBelow(k))
    ensures WindowLoads(Clock2, npages, nframes, before, Reads(WorstPages(k))) == WorstPages(k)
  {
    hide Layout, AllMiss, Loads, RunTable, InitTable, Frames, Trap, Reads, WorstPages, Table.Consistent;
    var t;
    if k == 1 {
      before, t := Nothing(npages, nframes);
    } else {
      before, t := SetTrap(npages, nframes, k);
      TrapSprings(t, nframes, k);
    }
    AllMissLoads(t, WorstPages(k));
    WorstPagesBelow(k);
    ReadsOf(WorstPages(k));
  }

  /** A single page faults at the start. */
  lemma Nothing(npages: nat, nframes: nat) returns (before: seq<PageRef>, t: Table)
    requires 1 <= nframes < npages
    ensures Reaches(npages, nframes, before, t) && t.NPages() == npages && t.Consistent() && AllMiss(t, WorstPages(1))
  {
    InitConsistent(npages, nframes);
    before, t := [], InitTable(npages, nframes);
    assert t.Entry(0) == VOID_ENTRY;
    NoMiss(AccessTable(t, Clock2, 0, false), []);
    MissFirst(t, 0, []);
    assert [0] + [] == WorstPages(1);
  }

  /** The exact worst case of CLOCK2 with more pages than frames: a window of k pages, k at most the
      number of frames, never faults more than 2k - 1 times, nor more than twice on a page, and
      some run reaches both bounds, the second one from k = 2 on. */
  lemma Clock2WorstCase(npages: nat, nframes: nat, k: nat)
    requires 1 <= k <= nframes < npages
    ensures forall before, window, pages :: IsWindow(npages, nframes, before, window, pages) && |pages| == k ==>
              && |WindowLoads(Clock2, npages, nframes, before, window)| <= 2 * k - 1
              && forall p :: FaultsOn(WindowLoads(Clock2, npages, nframes, before, window), p) <= 2
    ensures exists before, window, pages :: IsWindow(npages, nframes, before, window, pages) && |pages| == k &&
              |WindowLoads(Clock2, npages, nframes, before, window)| == 2 * k - 1 &&
              (k >= 2 ==> FaultsOn(WindowLoads(Clock2, npages, nframes, before, window), 0) == 2)
  {
    hide WindowLoads, FaultsOn;
    forall before, window, pages | IsWindow(npages, nframes, before, window, pages) && |pages| == k
      ensures |WindowLoads(Clock2, npages, nframes, before, window)| <= 2 * k - 1
      ensures forall p :: FaultsOn(WindowLoads(Clock2, npages, nframes, before, window), p) <= 2
    {
      WindowIsBounded(npages, nframes, before, window, pages);
    }
    var before := Clock2IsNotConservative(npages, nframes, k);
    assert |PagesBelow(k)| == k;
    if k >= 2 { WorstPageTwice(k); }
    WindowIsBounded(npages, nframes, before, Reads(WorstPages(k)), PagesBelow(k));
  }

  /** The upper bound, for any number of pages and frames. */
  lemma WindowIsBounded(npages: nat, nframes: nat, before: seq<PageRef>, window: seq<PageRef>, pages: set<int>)
    requires npages >= 1 && nframes >= 1 && IsWindow(npages, nframes, before, window, pages) && pages != {}
    ensures |WindowLoads(Clock2, npages, nframes, before, window)| <= 2 * |pages| - 1
    ensures forall p :: FaultsOn(WindowLoads(Clock2, npages, nframes, before, window), p) <= 2
  {
    InitConsistent(npages, nframes);
    Clock2Window(RunTable(InitTable(npages, nframes), Clock2, before), window, pages);
  }

  lemma Clock2Fails(npages: nat, nframes: nat)
    requires 2 <= nframes < npages
    ensures !FewFaults(Clock2, npages, nframes) && !FaultsOnce(Clock2, npages, nframes)
  {
    hide IsWindow, WindowLoads, FaultsOn, Reads, WorstPages;
    var before := Clock2IsNotConservative(npages, nframes, 2);
    WorstPageTwice(2);
    assert |PagesBelow(2)| == 2;
  }

  /** Main theorem, for every number of pages and frames: a policy is conservative, in either
      sense, exactly if it is FIFO or CLOCK, or there is one frame, or a frame for every page. */
  lemma ConservativeIff(policy: Policy, npages: nat, nframes: nat)
    requires npages >= 1 && nframes >= 1
    ensures FewFaults(policy, npages, nframes) <==> policy != Clock2 || nframes == 1 || npages <= nframes
    ensures FaultsOnce(policy, npages, nframes) <==> policy != Clock2 || nframes == 1 || npages <= nframes
  {
    hide WindowLoads, FaultsOn;
    if policy != Clock2 || nframes == 1 || npages <= nframes {
      forall before, window, pages | IsWindow(npages, nframes, before, window, pages)
        ensures |WindowLoads(policy, npages, nframes, before, window)| <= |pages|
        ensures forall p :: FaultsOn(WindowLoads(policy, npages, nframes, before, window), p) <= 1
      {
        WindowIsShort(policy, npages, nframes, before, window, pages);
      }
    } else {
      Clock2Fails(npages, nframes);
    }
  }

  lemma WindowIsShort(policy: Policy, npages: nat, nframes: nat, before: seq<PageRef>, window: seq<PageRef>,
                      pages: set<int>)
    requires npages >= 1 && nframes >= 1 && IsWindow(npages, nframes, before, window, pages)
    requires policy != Clock2 || nframes == 1 || npages <= nframes
    ensures |WindowLoads(policy, npages, nframes, before, window)| <= |pages|
    ensures forall p :: FaultsOn(WindowLoads(policy, npages, nframes, before, window), p) <= 1
  {
    InitConsistent(npages, nframes);
    WindowTheorem(RunTable(InitTable(npages, nframes), policy, before), policy, window, pages);
  }
}
