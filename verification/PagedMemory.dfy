/** Paging as a cache: the table, the frames and the page file together behave
    like one flat memory, whatever the replacement policy and the frame count. */
module PagedMemory {
  import opened PageTable
  import opened Runs

  /** One block of values per frame, and one per page in the page file. */
  datatype Memory = Memory(table: Table, frames: seq<seq<int>>, pagefile: seq<seq<int>>)

  ghost predicate Blocks(xs: seq<seq<int>>, n: int, pageSize: nat) {
    |xs| == n && forall i :: 0 <= i < n ==> |xs[i]| == pageSize
  }

  /** A resident page that was not written since it came in equals its block of the page file. */
  ghost predicate CleanAgrees(m: Memory, p: int)
    requires m.table.Consistent() && |m.frames| == m.table.NFrames() && |m.pagefile| == m.table.NPages()
    requires 0 <= p < m.table.NPages() && m.table.PageSound(p)
  {
    m.table.Present(p) && !m.table.Entry(p).flags.changed ==> m.frames[m.table.Entry(p).frame] == m.pagefile[p]
  }

  ghost predicate Sound(m: Memory, pageSize: nat) {
    && pageSize >= 1
    && m.table.Consistent()
    && Blocks(m.frames, m.table.NFrames(), pageSize)
    && Blocks(m.pagefile, m.table.NPages(), pageSize)
    && forall p :: 0 <= p < m.table.NPages() && m.table.PageSound(p) ==> CleanAgrees(m, p)
  }

  /** What the application sees of page p. */
  function Content(m: Memory, p: int): seq<int>
    requires m.table.Shaped() && 0 <= p < m.table.NPages() && m.table.PageSound(p)
    requires |m.frames| == m.table.NFrames() && |m.pagefile| == m.table.NPages()
  {
    if m.table.Present(p) then m.frames[m.table.Entry(p).frame] else m.pagefile[p]
  }

  function Contents(m: Memory, pageSize: nat): (c: seq<seq<int>>)
    requires Sound(m, pageSize)
    ensures |c| == m.table.NPages()
    ensures forall p :: 0 <= p < |c| && m.table.PageSound(p) ==> c[p] == Content(m, p)
    ensures Blocks(c, m.table.NPages(), pageSize)
  {
    var c := seq(m.table.NPages(), p requires 0 <= p < m.table.NPages() && m.table.PageSound(p) => Content(m, p));
    assert forall p :: 0 <= p < |c| ==> m.table.PageSound(p) && c[p] == Content(m, p);
    c
  }

  // ----- the page fault -----

  function StorePage(m: Memory, page: int): Memory
    requires m.table.Shaped() && -1 <= page < m.table.NPages()
    requires m.table.Entry(page).flags.changed ==>
               0 <= page < |m.pagefile| && 0 <= m.table.Entry(page).frame < |m.frames|
  {
    var e := m.table.Entry(page);
    if e.flags.changed then m.(pagefile := m.pagefile[page := m.frames[e.frame]]) else m
  }

  function FetchPage(m: Memory, page: int): Memory
    requires m.table.Shaped() && 0 <= page < m.table.NPages() && page < |m.pagefile|
    requires 0 <= m.table.Entry(page).frame < |m.frames|
  {
    m.(frames := m.frames[m.table.Entry(page).frame := m.pagefile[page]])
  }

  /** The victim of the choice: a page, or VOID_IDX for a frame never used. */
  function Replaced(m: Memory, frame: nat): (p: int)
    requires Chosen(m.table, frame)
    ensures -1 <= p < m.table.NPages()
    ensures p != VOID_IDX ==> m.table.FrameHolds(frame) && m.table.PageSound(p)
  {
    assert m.table.framepage[frame] != VOID_IDX ==>
        m.table.FrameHolds(frame) && m.table.PageSound(m.table.framepage[frame]);
    m.table.framepage[frame]
  }

  /** The victim is written back if all frames are occupied and it was changed. */
  function WriteBack(m: Memory, frame: nat): Memory
    requires Chosen(m.table, frame)
    requires |m.frames| == m.table.NFrames() && |m.pagefile| == m.table.NPages()
  {
    if m.table.Full() then StorePage(m, Replaced(m, frame)) else m
  }

  function PageFault(m: Memory, policy: Policy, page: int): Memory
    requires m.table.Consistent() && 0 <= page < m.table.NPages() && !m.table.Present(page)
    requires |m.frames| == m.table.NFrames() && |m.pagefile| == m.table.NPages()
  {
    ChooseSound(m.table, policy);
    FaultSound(m.table, policy, page);
    var c := Choose(m.table, policy);
    var stored := WriteBack(m.(table := c.table), c.frame);
    var p := Replaced(stored, c.frame);
    var loaded := stored.(table := Rewire(stored.table, c.frame, page));
    assert loaded.table.PageSound(page);
    FetchPage(loaded, page)
  }

  /** The page that a fault replaces, or VOID_IDX. */
  function VictimOf(m: Memory, policy: Policy): (p: int)
    requires m.table.Consistent()
    ensures Choose(m.table, policy).frame < m.table.NFrames()
    ensures -1 <= p < m.table.NPages()
    ensures p != VOID_IDX ==> m.table.PageSound(p) && m.table.Present(p) && m.table.Full()
    ensures p != VOID_IDX ==> m.table.Entry(p).frame == Choose(m.table, policy).frame
  {
    ChooseSound(m.table, policy);
    var f := Choose(m.table, policy).frame;
    assert m.table.Full() ==> m.table.FrameHolds(f) && m.table.PageSound(m.table.framepage[f]);
    m.table.framepage[f]
  }

  /** A fault, component by component. */
  lemma FaultParts(m: Memory, policy: Policy, page: int)
    requires m.table.Consistent() && 0 <= page < m.table.NPages() && !m.table.Present(page)
    requires |m.frames| == m.table.NFrames() && |m.pagefile| == m.table.NPages()
    ensures var r := PageFault(m, policy, page);
            var f := Choose(m.table, policy).frame;
            var victim := VictimOf(m, policy);
            && r.table == Fault(m.table, policy, page)
            && r.pagefile == (if victim != VOID_IDX && m.table.Entry(victim).flags.changed
                              then m.pagefile[victim := m.frames[f]] else m.pagefile)
            && r.frames == m.frames[f := r.pagefile[page]]
  {
    ChooseSound(m.table, policy);
    var c := Choose(m.table, policy);
    assert c.table.PageSound(page) && m.table.PageSound(page);
    RewireSound(c.table, c.frame, page);
  }

  /** Filling a frame that was never used stores nothing: whenever a fault tests the CHANGED bit
      of the slot behind VOID_IDX, which the last fill does, the bit is clear. */
  lemma FillStoresNothing(m: Memory, policy: Policy, page: int)
    requires m.table.Consistent() && 0 <= page < m.table.NPages() && !m.table.Present(page)
    requires |m.frames| == m.table.NFrames() && |m.pagefile| == m.table.NPages()
    ensures var c := Choose(m.table, policy);
            && c.table.Shaped() && c.frame < m.table.NFrames()
            && !c.table.Entry(VOID_IDX).flags.changed
            && (c.table.framepage[c.frame] == VOID_IDX <==> !m.table.Full())
    ensures !m.table.Full() ==> PageFault(m, policy, page).pagefile == m.pagefile
  {
    ChooseSound(m.table, policy);
    FaultParts(m, policy, page);
    var f := Choose(m.table, policy).frame;
    assert m.table.Full() ==> m.table.FrameHolds(f);
  }

  /** What a fault does to the table entry of any page. */
  lemma FaultEntry(t: Table, policy: Policy, page: int, p: int)
    requires t.Consistent() && 0 <= page < t.NPages() && !t.Present(page) && 0 <= p < t.NPages()
    ensures Choose(t, policy).frame < t.NFrames()
    ensures Fault(t, policy, page).NPages() == t.NPages()
    ensures var f := Choose(t, policy).frame;
            var e := Fault(t, policy, page).Entry(p);
            if p == page then e == PtEntry(NO_FLAGS.(present := true), f)
            else if p == t.framepage[f] then e == VOID_ENTRY
            else e.frame == t.Entry(p).frame && e.flags.present == t.Entry(p).flags.present &&
                 e.flags.changed == t.Entry(p).flags.changed && (t.Present(p) ==> e.frame != f)
  {
    ChooseSound(t, policy);
    var c := Choose(t, policy);
    assert t.PageSound(page) && c.table.PageSound(page) && t.PageSound(p) && c.table.PageSound(p);
    RewireSound(c.table, c.frame, page);
  }

  /** A fault leaves the content of every page alone. */
  lemma FaultOnePage(m: Memory, policy: Policy, page: int, p: int)
    requires m.table.Consistent() && 0 <= page < m.table.NPages() && !m.table.Present(page)
    requires |m.frames| == m.table.NFrames() && |m.pagefile| == m.table.NPages()
    requires 0 <= p < m.table.NPages() && m.table.PageSound(p) && CleanAgrees(m, p)
    requires VictimOf(m, policy) != VOID_IDX ==> CleanAgrees(m, VictimOf(m, policy))
    ensures var r := PageFault(m, policy, page);
            && r.table.Consistent() && r.table.NPages() == m.table.NPages() && r.table.NFrames() == m.table.NFrames()
            && |r.frames| == |m.frames| && |r.pagefile| == |m.pagefile| && r.table.PageSound(p)
            && CleanAgrees(r, p) && Content(r, p) == Content(m, p)
  {
    FaultSound(m.table, policy, page);
    FaultParts(m, policy, page);
    FaultEntry(m.table, policy, page, p);
    assert Fault(m.table, policy, page).PageSound(p);
    hide PageFault, Fault, Choose;
  }

  /** The whole memory after a fault: sound, and the same in the eyes of the application. */
  lemma FaultTransparent(m: Memory, policy: Policy, page: int, pageSize: nat)
    requires Sound(m, pageSize) && 0 <= page < m.table.NPages() && !m.table.Present(page)
    ensures var r := PageFault(m, policy, page);
            && Sound(r, pageSize)
            && r.table == Fault(m.table, policy, page)
            && r.table.NPages() == m.table.NPages()
            && r.table.Present(page)
            && Contents(r, pageSize) == Contents(m, pageSize)
  {
    FaultSound(m.table, policy, page);
    FaultParts(m, policy, page);
    var r := PageFault(m, policy, page);
    hide PageFault, Fault, Choose;
    assert forall p :: 0 <= p < m.table.NPages() ==> m.table.PageSound(p);
    forall p | 0 <= p < m.table.NPages()
      ensures r.table.PageSound(p) && m.table.PageSound(p) && CleanAgrees(r, p) && Content(r, p) == Content(m, p)
    {
      assert CleanAgrees(m, p);
      FaultOnePage(m, policy, page, p);
    }
    assert Blocks(r.pagefile, m.table.NPages(), pageSize);
    assert Blocks(r.frames, m.table.NFrames(), pageSize);
  }

  /** Writing back only changed pages leaves the page file that writing back every victim would. */
  lemma SkippedWriteBackIsSound(m: Memory, policy: Policy, page: int, pageSize: nat)
    requires Sound(m, pageSize) && 0 <= page < m.table.NPages() && !m.table.Present(page)
    ensures Chosen(Choose(m.table, policy).table, Choose(m.table, policy).frame)
    ensures var c := Choose(m.table, policy);
            var chosen := m.(table := c.table);
            var victim := Replaced(chosen, c.frame);
            victim != VOID_IDX ==>
              && |m.frames| == c.table.NFrames() && |m.pagefile| == c.table.NPages()
              && WriteBack(chosen, c.frame).pagefile == m.pagefile[victim := m.frames[c.frame]]
              && WriteBack(chosen, c.frame).frames == m.frames
  {
    ChooseSound(m.table, policy);
    var c := Choose(m.table, policy);
    var victim := Replaced(m.(table := c.table), c.frame);
    if victim != VOID_IDX {
      assert m.table.PageSound(victim) && m.table.Full() && CleanAgrees(m, victim);
    }
  }

  /** The fault of a manager that writes every victim back, changed or not. */
  function EagerFault(m: Memory, policy: Policy, page: int): Memory
    requires m.table.Consistent() && 0 <= page < m.table.NPages() && !m.table.Present(page)
    requires |m.frames| == m.table.NFrames() && |m.pagefile| == m.table.NPages()
  {
    var victim := VictimOf(m, policy);
    var f := Choose(m.table, policy).frame;
    var pagefile := if victim == VOID_IDX then m.pagefile else m.pagefile[victim := m.frames[f]];
    Memory(Fault(m.table, policy, page), m.frames[f := pagefile[page]], pagefile)
  }

  lemma EagerFaultSame(m: Memory, policy: Policy, page: int, pageSize: nat)
    requires Sound(m, pageSize) && 0 <= page < m.table.NPages() && !m.table.Present(page)
    ensures EagerFault(m, policy, page) == PageFault(m, policy, page)
  {
    FaultParts(m, policy, page);
    var victim := VictimOf(m, policy);
    hide Choose, Fault, PageFault;
    if victim != VOID_IDX {
      assert CleanAgrees(m, victim);
      assert m.pagefile[victim := m.pagefile[victim]] == m.pagefile;
    }
  }

  // ----- one access -----

  /** An access of the application to a virtual address. */
  datatype Op = Read(addr: nat) | Write(addr: nat, value: int)

  function PageOf(addr: nat, pageSize: nat): nat
    requires pageSize >= 1
  {
    addr / pageSize
  }

  lemma AddressSplit(addr: nat, npages: nat, pageSize: nat)
    requires pageSize >= 1 && addr < npages * pageSize
    ensures PageOf(addr, pageSize) < npages
    ensures addr == PageOf(addr, pageSize) * pageSize + addr % pageSize
  {
    var page := PageOf(addr, pageSize);
    assert page >= npages ==> page * pageSize >= npages * pageSize;
  }

  /** The page is made resident, if it is not. */
  function MakeResident(m: Memory, policy: Policy, page: int, pageSize: nat): (r: Memory)
    requires Sound(m, pageSize) && 0 <= page < m.table.NPages()
    ensures Sound(r, pageSize) && r.table == Resident(m.table, policy, page)
    ensures Contents(r, pageSize) == Contents(m, pageSize)
  {
    if m.table.Present(page) then m
    else
      FaultTransparent(m, policy, page, pageSize);
      PageFault(m, policy, page)
  }

  /** Flags and data of a resident page after an access to it. */
  function TouchCell(m: Memory, op: Op, pageSize: nat): Memory
    requires Sound(m, pageSize) && op.addr < m.table.NPages() * pageSize
    requires 0 <= PageOf(op.addr, pageSize) < m.table.NPages() && m.table.Present(PageOf(op.addr, pageSize))
  {
    var page := PageOf(op.addr, pageSize);
    assert m.table.PageSound(page);
    var f := m.table.Entry(page).frame;
    var t := Touch(m.table, page, op.Write?);
    if op.Write? then
      m.(table := t, frames := m.frames[f := m.frames[f][op.addr % pageSize := op.value]])
    else m.(table := t)
  }

  function CellOf(m: Memory, addr: nat, pageSize: nat): int
    requires Sound(m, pageSize) && addr < m.table.NPages() * pageSize
    requires 0 <= PageOf(addr, pageSize) < m.table.NPages() && m.table.Present(PageOf(addr, pageSize))
  {
    assert m.table.PageSound(PageOf(addr, pageSize));
    m.frames[m.table.Entry(PageOf(addr, pageSize)).frame][addr % pageSize]
  }

  function Access(m: Memory, policy: Policy, op: Op, pageSize: nat): Memory
    requires Sound(m, pageSize) && op.addr < m.table.NPages() * pageSize
  {
    AddressSplit(op.addr, m.table.NPages(), pageSize);
    TouchCell(MakeResident(m, policy, PageOf(op.addr, pageSize), pageSize), op, pageSize)
  }

  function ReadValue(m: Memory, policy: Policy, addr: nat, pageSize: nat): int
    requires Sound(m, pageSize) && addr < m.table.NPages() * pageSize
  {
    AddressSplit(addr, m.table.NPages(), pageSize);
    CellOf(MakeResident(m, policy, PageOf(addr, pageSize), pageSize), addr, pageSize)
  }

  lemma TouchTransparent(m: Memory, op: Op, pageSize: nat)
    requires Sound(m, pageSize) && op.addr < m.table.NPages() * pageSize
    requires 0 <= PageOf(op.addr, pageSize) < m.table.NPages() && m.table.Present(PageOf(op.addr, pageSize))
    ensures var r := TouchCell(m, op, pageSize);
            var page := PageOf(op.addr, pageSize);
            var c := Contents(m, pageSize);
            && Sound(r, pageSize)
            && Contents(r, pageSize) ==
               if op.Read? then c else c[page := c[page][op.addr % pageSize := op.value]]
  {
    var r := TouchCell(m, op, pageSize);
    var page := PageOf(op.addr, pageSize);
    TouchSound(m.table, page, op.Write?);
    assert m.table.PageSound(page);
    forall p | 0 <= p < m.table.NPages()
      ensures r.table.PageSound(p) && m.table.PageSound(p) && CleanAgrees(r, p)
      ensures Content(r, p) ==
              if op.Write? && p == page then Content(m, p)[op.addr % pageSize := op.value] else Content(m, p)
    {
      assert r.table.PageSound(p) && m.table.PageSound(p) && CleanAgrees(m, p);
    }
  }

  // ----- the flat memory -----

  function Flat(m: Memory, pageSize: nat): (cells: seq<int>)
    requires Sound(m, pageSize)
    ensures |cells| == m.table.NPages() * pageSize
  {
    Join(Contents(m, pageSize), m.table.NPages(), pageSize)
  }

  function Join(c: seq<seq<int>>, npages: nat, pageSize: nat): (cells: seq<int>)
    requires pageSize >= 1 && Blocks(c, npages, pageSize)
    ensures |cells| == npages * pageSize
    ensures forall a :: 0 <= a < |cells| && PageOf(a, pageSize) < npages ==>
              cells[a] == c[PageOf(a, pageSize)][a % pageSize]
  {
    seq(npages * pageSize, a requires 0 <= a < npages * pageSize =>
      AddressSplit(a, npages, pageSize); c[PageOf(a, pageSize)][a % pageSize])
  }

  lemma JoinUpdate(c: seq<seq<int>>, npages: nat, pageSize: nat, addr: nat, value: int)
    requires pageSize >= 1 && Blocks(c, npages, pageSize) && addr < npages * pageSize
    requires PageOf(addr, pageSize) < npages
    ensures var page := PageOf(addr, pageSize);
            var c' := c[page := c[page][addr % pageSize := value]];
            Blocks(c', npages, pageSize) && Join(c', npages, pageSize) == Join(c, npages, pageSize)[addr := value]
  {
    var page := PageOf(addr, pageSize);
    var c' := c[page := c[page][addr % pageSize := value]];
    forall a | 0 <= a < npages * pageSize
      ensures Join(c', npages, pageSize)[a] == Join(c, npages, pageSize)[addr := value][a]
    {
      AddressSplit(a, npages, pageSize);
      AddressSplit(addr, npages, pageSize);
    }
  }

  /** The flat memory the application believes in. */
  function FlatStep(cells: seq<int>, op: Op): seq<int>
    requires op.addr < |cells|
  {
    if op.Read? then cells else cells[op.addr := op.value]
  }

  /** One access refines the flat memory: it keeps everything sound, changes exactly the
      written address, and reads what the flat memory holds. */
  lemma AccessRefines(m: Memory, policy: Policy, op: Op, pageSize: nat)
    requires Sound(m, pageSize) && op.addr < m.table.NPages() * pageSize
    ensures 0 <= PageOf(op.addr, pageSize) < m.table.NPages()
    ensures var r := Access(m, policy, op, pageSize);
            && Sound(r, pageSize)
            && r.table == AccessTable(m.table, policy, PageOf(op.addr, pageSize), op.Write?)
            && Flat(r, pageSize) == FlatStep(Flat(m, pageSize), op)
    ensures ReadValue(m, policy, op.addr, pageSize) == Flat(m, pageSize)[op.addr]
  {
    AddressSplit(op.addr, m.table.NPages(), pageSize);
    var page := PageOf(op.addr, pageSize);
    var m1 := MakeResident(m, policy, page, pageSize);
    TouchTransparent(m1, op, pageSize);
    assert m1.table.PageSound(page);
    if op.Write? {
      JoinUpdate(Contents(m, pageSize), m.table.NPages(), pageSize, op.addr, op.value);
    }
  }

  // ----- runs -----

  ghost predicate Addressed(ops: seq<Op>, size: int) {
    forall i :: 0 <= i < |ops| ==> ops[i].addr < size
  }

  function Run(m: Memory, policy: Policy, ops: seq<Op>, pageSize: nat): (r: Memory)
    requires Sound(m, pageSize) && Addressed(ops, m.table.NPages() * pageSize)
    ensures Sound(r, pageSize) && r.table.NPages() == m.table.NPages()
    decreases |ops|
  {
    if ops == [] then m
    else
      AccessRefines(m, policy, ops[0], pageSize);
      Run(Access(m, policy, ops[0], pageSize), policy, ops[1..], pageSize)
  }

  /** An access, and a run, under the manager that writes every victim back. */
  function EagerAccess(m: Memory, policy: Policy, op: Op, pageSize: nat): Memory
    requires Sound(m, pageSize) && op.addr < m.table.NPages() * pageSize
  {
    AddressSplit(op.addr, m.table.NPages(), pageSize);
    var page := PageOf(op.addr, pageSize);
    if m.table.Present(page) then TouchCell(m, op, pageSize)
    else
      EagerFaultSame(m, policy, page, pageSize);
      FaultTransparent(m, policy, page, pageSize);
      TouchCell(EagerFault(m, policy, page), op, pageSize)
  }

  lemma EagerAccessSame(m: Memory, policy: Policy, op: Op, pageSize: nat)
    requires Sound(m, pageSize) && op.addr < m.table.NPages() * pageSize
    ensures EagerAccess(m, policy, op, pageSize) == Access(m, policy, op, pageSize)
  {
    AddressSplit(op.addr, m.table.NPages(), pageSize);
    var page := PageOf(op.addr, pageSize);
    if !m.table.Present(page) {
      EagerFaultSame(m, policy, page, pageSize);
      FaultTransparent(m, policy, page, pageSize);
    }
    hide EagerFault, PageFault, Sound, TouchCell;
  }

  function EagerRun(m: Memory, policy: Policy, ops: seq<Op>, pageSize: nat): Memory
    requires Sound(m, pageSize) && Addressed(ops, m.table.NPages() * pageSize)
    decreases |ops|
  {
    if ops == [] then m
    else
      EagerAccessSame(m, policy, ops[0], pageSize);
      AccessRefines(m, policy, ops[0], pageSize);
      EagerRun(EagerAccess(m, policy, ops[0], pageSize), policy, ops[1..], pageSize)
  }

  /** Writing back only what changed is invisible in every state of every run: tables, frames and
      page file are those of the manager that writes every victim back. */
  lemma {:induction false} SkippedWriteBackInRuns(m: Memory, policy: Policy, ops: seq<Op>, pageSize: nat)
    requires Sound(m, pageSize) && Addressed(ops, m.table.NPages() * pageSize)
    ensures EagerRun(m, policy, ops, pageSize) == Run(m, policy, ops, pageSize)
    decreases |ops|
  {
    hide *;
    EagerUnfolds(m, policy, ops, pageSize);
    if ops != [] {
      OpsUnfold(m, policy, ops, pageSize);
      EagerAccessSame(m, policy, ops[0], pageSize);
      SkippedWriteBackInRuns(Access(m, policy, ops[0], pageSize), policy, ops[1..], pageSize);
    }
  }

  lemma EagerUnfolds(m: Memory, policy: Policy, ops: seq<Op>, pageSize: nat)
    requires Sound(m, pageSize) && Addressed(ops, m.table.NPages() * pageSize)
    ensures ops == [] ==> EagerRun(m, policy, ops, pageSize) == m == Run(m, policy, ops, pageSize)
    ensures ops != [] ==>
              && ops[0].addr < m.table.NPages() * pageSize
              && var r := EagerAccess(m, policy, ops[0], pageSize);
                 && Sound(r, pageSize) && Addressed(ops[1..], r.table.NPages() * pageSize)
                 && EagerRun(m, policy, ops, pageSize) == EagerRun(r, policy, ops[1..], pageSize)
  {
    if ops != [] {
      EagerAccessSame(m, policy, ops[0], pageSize);
      AccessRefines(m, policy, ops[0], pageSize);
    }
    hide EagerAccess, Access, Sound;
  }

  /** The values the reads of a run return, in order. */
  function Outputs(m: Memory, policy: Policy, ops: seq<Op>, pageSize: nat): seq<int>
    requires Sound(m, pageSize) && Addressed(ops, m.table.NPages() * pageSize)
    decreases |ops|
  {
    if ops == [] then []
    else
      AccessRefines(m, policy, ops[0], pageSize);
      (if ops[0].Read? then [ReadValue(m, policy, ops[0].addr, pageSize)] else []) +
      Outputs(Access(m, policy, ops[0], pageSize), policy, ops[1..], pageSize)
  }

  lemma OpsUnfold(m: Memory, policy: Policy, ops: seq<Op>, pageSize: nat)
    requires Sound(m, pageSize) && Addressed(ops, m.table.NPages() * pageSize) && ops != []
    ensures ops[0].addr < m.table.NPages() * pageSize
    ensures var r := Access(m, policy, ops[0], pageSize);
            && Sound(r, pageSize) && r.table.NPages() == m.table.NPages()
            && Addressed(ops[1..], r.table.NPages() * pageSize)
            && Run(m, policy, ops, pageSize) == Run(r, policy, ops[1..], pageSize)
            && Outputs(m, policy, ops, pageSize) ==
                 (if ops[0].Read? then [ReadValue(m, policy, ops[0].addr, pageSize)] else []) +
                 Outputs(r, policy, ops[1..], pageSize)
  {
    AccessRefines(m, policy, ops[0], pageSize);
  }

  /** The last value written to `addr`, or its initial value. */
  function LastWritten(cells: seq<int>, ops: seq<Op>, addr: nat): int
    requires addr < |cells|
    decreases |ops|
  {
    if ops == [] then cells[addr]
    else
      var last := ops[|ops| - 1];
      if last.Write? && last.addr == addr then last.value
      else LastWritten(cells, ops[..|ops| - 1], addr)
  }

  /** For every read of a run, the last value written to its address before it. */
  function LastWrites(cells: seq<int>, before: seq<Op>, ops: seq<Op>): seq<int>
    requires Addressed(ops, |cells|)
    decreases |ops|
  {
    if ops == [] then []
    else
      (if ops[0].Read? then [LastWritten(cells, before, ops[0].addr)] else []) +
      LastWrites(cells, before + [ops[0]], ops[1..])
  }

  ghost predicate Agrees(m: Memory, pageSize: nat, cells: seq<int>, before: seq<Op>)
    requires Sound(m, pageSize)
  {
    && |cells| == m.table.NPages() * pageSize
    && forall a :: 0 <= a < |cells| ==> Flat(m, pageSize)[a] == LastWritten(cells, before, a)
  }

  lemma AccessAgrees(m: Memory, policy: Policy, op: Op, pageSize: nat, cells: seq<int>, before: seq<Op>)
    requires Sound(m, pageSize) && op.addr < m.table.NPages() * pageSize && Agrees(m, pageSize, cells, before)
    ensures Sound(Access(m, policy, op, pageSize), pageSize)
    ensures Agrees(Access(m, policy, op, pageSize), pageSize, cells, before + [op])
    ensures |cells| == m.table.NPages() * pageSize
    ensures ReadValue(m, policy, op.addr, pageSize) == LastWritten(cells, before, op.addr)
  {
    AccessRefines(m, policy, op, pageSize);
    assert (before + [op])[..|before|] == before;
  }

  lemma {:induction false} RunFrom(m: Memory, policy: Policy, ops: seq<Op>, pageSize: nat, cells: seq<int>,
                                   before: seq<Op>)
    requires Sound(m, pageSize) && Addressed(ops, m.table.NPages() * pageSize) && Agrees(m, pageSize, cells, before)
    ensures Agrees(Run(m, policy, ops, pageSize), pageSize, cells, before + ops)
    ensures Outputs(m, policy, ops, pageSize) == LastWrites(cells, before, ops)
    decreases |ops|
  {
    hide *;
    RunStep(m, policy, ops, pageSize, cells, before);
    if ops == [] {
      assert before + [] == before;
    } else {
      OpsUnfold(m, policy, ops, pageSize);
      AccessAgrees(m, policy, ops[0], pageSize, cells, before);
      RunFrom(Access(m, policy, ops[0], pageSize), policy, ops[1..], pageSize, cells, before + [ops[0]]);
      assert before + [ops[0]] + ops[1..] == before + ops;
    }
  }

  lemma RunStep(m: Memory, policy: Policy, ops: seq<Op>, pageSize: nat, cells: seq<int>, before: seq<Op>)
    requires Sound(m, pageSize) && Addressed(ops, m.table.NPages() * pageSize) && Agrees(m, pageSize, cells, before)
    ensures Addressed(ops, |cells|)
    ensures ops == [] ==> Run(m, policy, ops, pageSize) == m && Outputs(m, policy, ops, pageSize) == []
    ensures ops == [] ==> LastWrites(cells, before, ops) == []
    ensures ops != [] ==>
              && ops[0].addr < |cells| && Addressed(ops[1..], |cells|)
              && LastWrites(cells, before, ops) ==
                   (if ops[0].Read? then [LastWritten(cells, before, ops[0].addr)] else []) +
                   LastWrites(cells, before + [ops[0]], ops[1..])
  {
  }

  /** The paged memory at the start: nothing resident, every data cell VOID_IDX. */
  function InitMemory(npages: nat, nframes: nat, pageSize: nat, pagefile: seq<seq<int>>): Memory {
    Memory(InitTable(npages, nframes), seq(nframes, f => seq(pageSize, i => VOID_IDX)), pagefile)
  }

  lemma InitSound(npages: nat, nframes: nat, pageSize: nat, pagefile: seq<seq<int>>)
    requires npages >= 1 && nframes >= 1 && pageSize >= 1 && Blocks(pagefile, npages, pageSize)
    ensures Sound(InitMemory(npages, nframes, pageSize, pagefile), pageSize)
    ensures InitMemory(npages, nframes, pageSize, pagefile).table.NPages() == npages
    ensures Contents(InitMemory(npages, nframes, pageSize, pagefile), pageSize) == pagefile
  {
    InitConsistent(npages, nframes);
    var m := InitMemory(npages, nframes, pageSize, pagefile);
    forall p | 0 <= p < npages ensures m.table.PageSound(p) && !m.table.Present(p) {
      assert m.table.Entry(p) == VOID_ENTRY;
    }
  }

  lemma InitAgrees(npages: nat, nframes: nat, pageSize: nat, pagefile: seq<seq<int>>)
    requires npages >= 1 && nframes >= 1 && pageSize >= 1 && Blocks(pagefile, npages, pageSize)
    ensures var m := InitMemory(npages, nframes, pageSize, pagefile);
            && Sound(m, pageSize) && m.table.NPages() == npages
            && Agrees(m, pageSize, Join(pagefile, npages, pageSize), [])
  {
    InitSound(npages, nframes, pageSize, pagefile);
  }

  /** Main theorem.  From the start, for every run, every policy and every number of frames:
      each read returns the last value written to its address, or the initial value of the
      page file; and at the end every address holds the last value written to it. */
  lemma PagingIsFlatMemory(npages: nat, nframes: nat, pageSize: nat, pagefile: seq<seq<int>>, policy: Policy,
                           ops: seq<Op>)
    requires npages >= 1 && nframes >= 1 && pageSize >= 1 && Blocks(pagefile, npages, pageSize)
    requires Addressed(ops, npages * pageSize)
    ensures var m := InitMemory(npages, nframes, pageSize, pagefile);
            var cells := Join(pagefile, npages, pageSize);
            && Sound(m, pageSize) && m.table.NPages() == npages
            && Outputs(m, policy, ops, pageSize) == LastWrites(cells, [], ops)
            && forall a :: 0 <= a < |cells| ==>
                 Flat(Run(m, policy, ops, pageSize), pageSize)[a] == LastWritten(cells, ops, a)
  {
    InitAgrees(npages, nframes, pageSize, pagefile);
    var m := InitMemory(npages, nframes, pageSize, pagefile);
    hide Run, Outputs, LastWrites, Sound, InitMemory, Flat, Join;
    RunFrom(m, policy, ops, pageSize, Join(pagefile, npages, pageSize), []);
    assert [] + ops == ops;
  }

  /** The same for every fault of every run: the slot behind VOID_IDX is clean when it is tested,
      and as long as a frame is free the page file stays what it was at the start. */
  lemma NothingStoredForVoid(npages: nat, nframes: nat, pageSize: nat, pagefile: seq<seq<int>>, policy: Policy,
                             ops: seq<Op>, page: int)
    requires npages >= 1 && nframes >= 1 && pageSize >= 1 && Blocks(pagefile, npages, pageSize)
    requires Addressed(ops, npages * pageSize) && 0 <= page < npages
    ensures Sound(InitMemory(npages, nframes, pageSize, pagefile), pageSize)
    ensures InitMemory(npages, nframes, pageSize, pagefile).table.NPages() == npages
    ensures var m := Run(InitMemory(npages, nframes, pageSize, pagefile), policy, ops, pageSize);
            var c := Choose(m.table, policy);
            !m.table.Present(page) ==>
              && c.table.Shaped() && c.frame < m.table.NFrames()
              && !c.table.Entry(VOID_IDX).flags.changed
              && (c.table.framepage[c.frame] == VOID_IDX <==> !m.table.Full())
              && (!m.table.Full() ==> PageFault(m, policy, page).pagefile == m.pagefile == pagefile)
  {
    InitSound(npages, nframes, pageSize, pagefile);
    var m0 := InitMemory(npages, nframes, pageSize, pagefile);
    var m := Run(m0, policy, ops, pageSize);
    if !m.table.Full() { FillingKeepsPageFile(m0, policy, ops, pageSize); }
    hide Run;
    if !m.table.Present(page) { FillStoresNothing(m, policy, page); }
  }

  /** The page file is only written once all frames are occupied. */
  lemma {:induction false} FillingKeepsPageFile(m: Memory, policy: Policy, ops: seq<Op>, pageSize: nat)
    requires Sound(m, pageSize) && Addressed(ops, m.table.NPages() * pageSize)
    requires !Run(m, policy, ops, pageSize).table.Full()
    ensures !m.table.Full() && Run(m, policy, ops, pageSize).pagefile == m.pagefile
    decreases |ops|
  {
    if ops != [] {
      OpsUnfold(m, policy, ops, pageSize);
      var r := Access(m, policy, ops[0], pageSize);
      hide Run, Sound;
      FillingKeepsPageFile(r, policy, ops[1..], pageSize);
      AccessFills(m, policy, ops[0], pageSize);
    }
  }

  lemma AccessFills(m: Memory, policy: Policy, op: Op, pageSize: nat)
    requires Sound(m, pageSize) && op.addr < m.table.NPages() * pageSize
    requires !Access(m, policy, op, pageSize).table.Full()
    ensures !m.table.Full() && Access(m, policy, op, pageSize).pagefile == m.pagefile
  {
    AddressSplit(op.addr, m.table.NPages(), pageSize);
    var page := PageOf(op.addr, pageSize);
    if !m.table.Present(page) {
      FillStoresNothing(m, policy, page);
      ChooseSound(m.table, policy);
      FaultSound(m.table, policy, page);
    }
  }

  /** Hence neither the policy nor the number of frames can be observed. */
  lemma PolicyIsInvisible(npages: nat, pageSize: nat, pagefile: seq<seq<int>>, ops: seq<Op>,
                          nframes1: nat, policy1: Policy, nframes2: nat, policy2: Policy)
    requires npages >= 1 && nframes1 >= 1 && nframes2 >= 1 && pageSize >= 1 && Blocks(pagefile, npages, pageSize)
    requires Addressed(ops, npages * pageSize)
    ensures var m1 := InitMemory(npages, nframes1, pageSize, pagefile);
            var m2 := InitMemory(npages, nframes2, pageSize, pagefile);
            && Sound(m1, pageSize) && Sound(m2, pageSize)
            && m1.table.NPages() == npages && m2.table.NPages() == npages
            && Outputs(m1, policy1, ops, pageSize) == Outputs(m2, policy2, ops, pageSize)
            && Flat(Run(m1, policy1, ops, pageSize), pageSize) == Flat(Run(m2, policy2, ops, pageSize), pageSize)
  {
    PagingIsFlatMemory(npages, nframes1, pageSize, pagefile, policy1, ops);
    PagingIsFlatMemory(npages, nframes2, pageSize, pagefile, policy2, ops);
  }
}
