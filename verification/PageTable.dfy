/** The page table of the demand pager and its replacement policies.

    A Table is the part of the shared vmem structure that the memory manager
    decides with: the page table, the inverse table, the fill count and the
    clock hand.  The data frames and the page file are added in PagedMemory. */
module PageTable {

  const VOID_IDX: int := -1

  datatype Policy = Fifo | Clock | Clock2

  /** The four PTF_ bits of a page table entry. */
  datatype Flags = Flags(present: bool, changed: bool, used1: bool, used2: bool)

  const NO_FLAGS := Flags(false, false, false, false)

  datatype PtEntry = PtEntry(flags: Flags, frame: int)

  const VOID_ENTRY := PtEntry(NO_FLAGS, VOID_IDX)

  /** Page p is entry number p + 1: entry number 0 is the extra slot that the
      source reaches with index VOID_IDX while the frames are being filled. */
  datatype Table = Table(size: nat, hand: nat, entries: seq<PtEntry>, framepage: seq<int>) {

    ghost predicate Shaped() {
      |entries| >= 2 && |framepage| >= 1 && size <= |framepage| && hand < |framepage|
    }

    function NPages(): int { |entries| - 1 }

    function NFrames(): nat { |framepage| }

    predicate Full() { size >= |framepage| }

    function Entry(page: int): PtEntry
      requires -1 <= page < NPages()
    {
      entries[page + 1]
    }

    function WithEntry(page: int, e: PtEntry): (t: Table)
      requires -1 <= page < NPages()
      ensures t.NPages() == NPages() && t.size == size && t.hand == hand && t.framepage == framepage
      ensures forall q {:trigger t.Entry(q)} :: -1 <= q < NPages() ==> t.Entry(q) == if q == page then e else Entry(q)
    {
      this.(entries := entries[page + 1 := e])
    }

    predicate Present(page: int)
      requires -1 <= page < NPages()
    {
      Entry(page).flags.present
    }

    /** Frame f holds a page, and the page table agrees. */
    ghost predicate FrameHolds(f: int)
      requires 0 <= f < |framepage|
    {
      0 <= framepage[f] < NPages() && Entry(framepage[f]).frame == f
    }

    /** An absent page has no frame and no flags; a resident one is where the inverse table says. */
    ghost predicate PageSound(p: int)
      requires 0 <= p < NPages() && size <= |framepage|
    {
      var e := Entry(p);
      if e.flags.present then 0 <= e.frame < size && framepage[e.frame] == p else e == VOID_ENTRY
    }

    /** The two tables are inverse to each other on the first `size` frames; the rest is unused. */
    ghost predicate Consistent() {
      && Shaped()
      && (size < |framepage| ==> hand == 0)
      && (forall f :: 0 <= f < size ==> FrameHolds(f))
      && (forall f :: size <= f < |framepage| ==> framepage[f] == VOID_IDX)
      && (forall p :: 0 <= p < NPages() ==> PageSound(p))
      && Entry(VOID_IDX) == VOID_ENTRY
    }
  }

  /** The hand one frame further, without the remainder operator. */
  function Next(i: nat, n: nat): (r: nat)
    requires i < n
    ensures r < n
  {
    if i + 1 == n then 0 else i + 1
  }

  lemma NextIsModulo(i: nat, n: nat)
    requires i < n
    ensures Next(i, n) == (i + 1) % n
  {
  }

  /** How many steps the hand needs from frame `hand` to frame `f`. */
  function Dist(hand: nat, f: nat, n: nat): (d: nat)
    requires hand < n && f < n
    ensures d < n
  {
    if f >= hand then f - hand else f - hand + n
  }

  // ----- reference weights -----

  /** How many passes of the hand a page survives. */
  function Weight(policy: Policy, flags: Flags): (w: nat)
    ensures w <= 2
  {
    if !flags.used1 then 0 else if policy == Clock2 && flags.used2 then 2 else 1
  }

  /** What one pass of the hand does to the flags of a referenced page. */
  function Pass(policy: Policy, flags: Flags): Flags {
    if policy == Clock2 && flags.used2 then flags.(used2 := false) else flags.(used1 := false)
  }

  function PassTimes(policy: Policy, flags: Flags, k: nat): Flags
    decreases k
  {
    if k == 0 then flags else PassTimes(policy, Pass(policy, flags), k - 1)
  }

  function PageAt(t: Table, f: nat): int
    requires t.Shaped() && f < t.NFrames()
  {
    t.framepage[f]
  }

  function WeightAt(t: Table, policy: Policy, f: nat): nat
    requires t.Consistent() && t.Full() && f < t.NFrames()
  {
    assert t.FrameHolds(f);
    Weight(policy, t.Entry(PageAt(t, f)).flags)
  }

  function Weights(t: Table, policy: Policy): (ws: seq<nat>)
    requires t.Consistent() && t.Full()
    ensures |ws| == t.NFrames()
    ensures forall f :: 0 <= f < |ws| ==> ws[f] == WeightAt(t, policy, f)
  {
    seq(t.NFrames(), f requires 0 <= f < t.NFrames() => WeightAt(t, policy, f))
  }

  function Sum(ws: seq<nat>): nat {
    if ws == [] then 0 else ws[0] + Sum(ws[1..])
  }

  lemma {:induction false} SumUpdate(ws: seq<nat>, i: nat, x: nat)
    requires i < |ws|
    ensures Sum(ws[i := x]) + ws[i] == Sum(ws) + x
  {
    if i == 0 {
      assert ws[0 := x][1..] == ws[1..];
    } else {
      assert ws[i := x][1..] == ws[1..][i - 1 := x];
      SumUpdate(ws[1..], i - 1, x);
    }
  }

  lemma {:induction false} SumBound(ws: seq<nat>, b: nat)
    requires forall i :: 0 <= i < |ws| ==> ws[i] <= b
    ensures Sum(ws) <= b * |ws|
  {
    if ws != [] {
      SumBound(ws[1..], b);
      assert b * |ws| == b + b * |ws[1..]|;
    }
  }

  // ----- the clock sweep -----

  /** The hand passes the frame it points at: one reference bit goes, the hand moves on. */
  function PassHand(t: Table, policy: Policy): (r: Table)
    requires t.Consistent() && t.Full()
  {
    assert t.FrameHolds(t.hand);
    var page := PageAt(t, t.hand);
    var e := t.Entry(page);
    t.WithEntry(page, e.(flags := Pass(policy, e.flags))).(hand := Next(t.hand, t.NFrames()))
  }

  lemma PassHandSound(t: Table, policy: Policy)
    requires t.Consistent() && t.Full() && policy != Fifo
    requires WeightAt(t, policy, t.hand) > 0
    ensures PassHand(t, policy).Consistent() && PassHand(t, policy).Full()
    ensures Weights(PassHand(t, policy), policy) == Weights(t, policy)[t.hand := WeightAt(t, policy, t.hand) - 1]
    ensures Sum(Weights(PassHand(t, policy), policy)) + 1 == Sum(Weights(t, policy))
  {
    var r := PassHand(t, policy);
    assert t.FrameHolds(t.hand);
    forall f | 0 <= f < t.NFrames() ensures r.FrameHolds(f) { assert t.FrameHolds(f); }
    forall p | 0 <= p < r.NPages() ensures r.PageSound(p) { assert t.PageSound(p); }
    assert r.Consistent();
    forall f | 0 <= f < t.NFrames()
      ensures WeightAt(r, policy, f) == WeightAt(t, policy, f) - (if f == t.hand then 1 else 0)
    {
      assert t.FrameHolds(f);
    }
    var w := WeightAt(t, policy, t.hand) - 1;
    assert Weights(r, policy) == Weights(t, policy)[t.hand := w];
    SumUpdate(Weights(t, policy), t.hand, w);
  }

  /** Choosing a frame changes nothing about a page but its used bits. */
  ghost predicate SameButUsed(t: Table, r: Table) {
    && r.entries != [] && r.NPages() == t.NPages()
    && forall p :: -1 <= p < t.NPages() ==>
         && r.Entry(p).frame == t.Entry(p).frame
         && r.Entry(p).flags.present == t.Entry(p).flags.present
         && r.Entry(p).flags.changed == t.Entry(p).flags.changed
  }

  /** The hand passes frames until it finds one without a reference. */
  function Sweep(t: Table, policy: Policy): (r: Table)
    requires t.Consistent() && t.Full() && policy != Fifo
    decreases Sum(Weights(t, policy))
  {
    if WeightAt(t, policy, t.hand) == 0 then t
    else
      PassHandSound(t, policy);
      Sweep(PassHand(t, policy), policy)
  }

  lemma {:induction false} SweepSound(t: Table, policy: Policy)
    requires t.Consistent() && t.Full() && policy != Fifo
    ensures Sweep(t, policy).Consistent() && Sweep(t, policy).Full()
    ensures Sweep(t, policy).framepage == t.framepage && Sweep(t, policy).size == t.size
    ensures SameButUsed(t, Sweep(t, policy))
    ensures WeightAt(Sweep(t, policy), policy, Sweep(t, policy).hand) == 0
    decreases Sum(Weights(t, policy))
  {
    if WeightAt(t, policy, t.hand) != 0 {
      PassHandSound(t, policy);
      SweepSound(PassHand(t, policy), policy);
    }
  }

  // ----- choosing a frame -----

  datatype Choice = Choice(table: Table, frame: nat)

  /** Free frames first, in order; then the policy decides. */
  function Choose(t: Table, policy: Policy): Choice
    requires t.Consistent()
  {
    if !t.Full() then Choice(t.(size := t.size + 1), t.size)
    else if policy == Fifo then Choice(t.(hand := Next(t.hand, t.NFrames())), t.hand)
    else
      SweepSound(t, policy);
      var r := Sweep(t, policy);
      Choice(r.(hand := Next(r.hand, r.NFrames())), r.hand)
  }

  /** What holds between choosing a frame and updating the tables: the chosen
      frame may still be empty, everything else is as in a consistent table. */
  ghost predicate Chosen(t: Table, frame: nat) {
    && t.Shaped()
    && frame < t.size
    && (t.size < |t.framepage| ==> t.hand == 0)
    && (forall f :: 0 <= f < t.size && f != frame ==> t.FrameHolds(f))
    && (t.framepage[frame] == VOID_IDX || t.FrameHolds(frame))
    && (forall f :: t.size <= f < |t.framepage| ==> t.framepage[f] == VOID_IDX)
    && (forall p :: 0 <= p < t.NPages() ==> t.PageSound(p))
    && t.Entry(VOID_IDX) == VOID_ENTRY
  }

  lemma ChooseSound(t: Table, policy: Policy)
    requires t.Consistent()
    ensures Chosen(Choose(t, policy).table, Choose(t, policy).frame)
    ensures Choose(t, policy).table.framepage == t.framepage
    ensures SameButUsed(t, Choose(t, policy).table)
  {
    var c := Choose(t, policy);
    if t.Full() {
      if policy != Fifo {
        SweepSound(t, policy);
      }
      var r := if policy == Fifo then t else Sweep(t, policy);
      forall f | 0 <= f < t.size ensures c.table.FrameHolds(f) { assert r.FrameHolds(f); }
      forall p | 0 <= p < t.NPages() ensures c.table.PageSound(p) { assert r.PageSound(p); }
    } else {
      forall f | 0 <= f < t.size ensures c.table.FrameHolds(f) { assert t.FrameHolds(f); }
      forall p | 0 <= p < t.NPages() ensures c.table.PageSound(p) { assert t.PageSound(p); }
    }
  }

  // ----- rewiring the tables -----

  function Unload(t: Table, page: int): Table
    requires -1 <= page < t.NPages()
  {
    t.WithEntry(page, VOID_ENTRY)
  }

  function Load(t: Table, frame: nat, page: int): Table
    requires 0 <= page < t.NPages() && frame < t.NFrames()
  {
    var e := t.Entry(page);
    t.(framepage := t.framepage[frame := page]).WithEntry(page, PtEntry(e.flags.(present := true), frame))
  }

  function Rewire(t: Table, frame: nat, page: int): Table
    requires 0 <= page < t.NPages() && frame < t.NFrames() && -1 <= t.framepage[frame] < t.NPages()
  {
    Load(Unload(t, t.framepage[frame]), frame, page)
  }

  lemma RewireSound(t: Table, frame: nat, page: int)
    requires Chosen(t, frame) && 0 <= page < t.NPages() && !t.Present(page)
    ensures -1 <= t.framepage[frame] < t.NPages()
    ensures Rewire(t, frame, page).Consistent()
    ensures Rewire(t, frame, page).Entry(page) == PtEntry(NO_FLAGS.(present := true), frame)
    ensures forall q :: -1 <= q < t.NPages() && q != page && q != t.framepage[frame] ==>
              Rewire(t, frame, page).Entry(q) == t.Entry(q)
    ensures t.framepage[frame] != VOID_IDX ==> Rewire(t, frame, page).Entry(t.framepage[frame]) == VOID_ENTRY
  {
    var victim := t.framepage[frame];
    assert victim == VOID_IDX || t.FrameHolds(frame);
    assert t.PageSound(page);
    var r := Rewire(t, frame, page);
    if victim != VOID_IDX {
      assert t.PageSound(victim);
    }
    forall f | 0 <= f < r.size ensures r.FrameHolds(f) {
      if f != frame { assert t.FrameHolds(f); }
    }
    forall p | 0 <= p < r.NPages() ensures r.PageSound(p) { assert t.PageSound(p); }
  }

  /** The effect of a page fault on the tables. */
  function Fault(t: Table, policy: Policy, page: int): Table
    requires t.Consistent() && 0 <= page < t.NPages() && !t.Present(page)
  {
    ChooseSound(t, policy);
    var c := Choose(t, policy);
    assert c.table.framepage[c.frame] != VOID_IDX ==> c.table.FrameHolds(c.frame);
    Rewire(c.table, c.frame, page)
  }

  lemma FaultSound(t: Table, policy: Policy, page: int)
    requires t.Consistent() && 0 <= page < t.NPages() && !t.Present(page)
    ensures Fault(t, policy, page).Consistent()
    ensures Fault(t, policy, page).NPages() == t.NPages() && Fault(t, policy, page).NFrames() == t.NFrames()
    ensures Fault(t, policy, page).Present(page)
  {
    ChooseSound(t, policy);
    var c := Choose(t, policy);
    assert c.table.PageSound(page) && t.PageSound(page);
    RewireSound(c.table, c.frame, page);
  }

  // ----- one access of the client -----

  /** The flags after an access: the second used bit records a second reference. */
  function UsedFlags(flags: Flags): Flags {
    flags.(used2 := flags.used2 || flags.used1, used1 := true)
  }

  function Touch(t: Table, page: int, write: bool): (r: Table)
    requires 0 <= page < t.NPages()
  {
    var e := t.Entry(page);
    var flags := UsedFlags(e.flags);
    t.WithEntry(page, e.(flags := if write then flags.(changed := true) else flags))
  }

  /** The first used bit is set, the second one if the first was, CHANGED only by a write; no bit is
      cleared, nothing else is touched. */
  lemma TouchFlags(t: Table, page: int, write: bool)
    requires 0 <= page < t.NPages()
    ensures var r := Touch(t, page, write);
            && r.size == t.size && r.hand == t.hand && r.framepage == t.framepage && r.NPages() == t.NPages()
            && (forall p :: -1 <= p < t.NPages() && p != page ==> r.Entry(p) == t.Entry(p))
            && r.Entry(page).frame == t.Entry(page).frame && (r.Present(page) <==> t.Present(page))
            && r.Entry(page).flags.used1
            && (r.Entry(page).flags.used2 <==> t.Entry(page).flags.used1 || t.Entry(page).flags.used2)
            && (r.Entry(page).flags.changed <==> write || t.Entry(page).flags.changed)
  {
  }

  lemma TouchSound(t: Table, page: int, write: bool)
    requires t.Consistent() && 0 <= page < t.NPages() && t.Present(page)
    ensures Touch(t, page, write).Consistent()
  {
    var r := Touch(t, page, write);
    forall f | 0 <= f < r.size ensures r.FrameHolds(f) { assert t.FrameHolds(f); }
    forall p | 0 <= p < r.NPages() ensures r.PageSound(p) { assert t.PageSound(p); }
  }

  /** The page after the check and, if need be, the fault: the client may now touch it. */
  function Resident(t: Table, policy: Policy, page: int): (r: Table)
    requires t.Consistent() && 0 <= page < t.NPages()
    ensures r.Consistent() && r.NPages() == t.NPages() && r.NFrames() == t.NFrames() && r.Present(page)
  {
    if t.Present(page) then t
    else
      FaultSound(t, policy, page);
      Fault(t, policy, page)
  }

  function AccessTable(t: Table, policy: Policy, page: int, write: bool): (r: Table)
    requires t.Consistent() && 0 <= page < t.NPages()
    ensures r.Consistent() && r.NPages() == t.NPages() && r.NFrames() == t.NFrames()
  {
    var t1 := Resident(t, policy, page);
    TouchSound(t1, page, write);
    Touch(t1, page, write)
  }
}
