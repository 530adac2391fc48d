/** The memory manager and the access functions of its client, over the shared
    vmem structure.  Every method is proved against its function in PageTable
    and PagedMemory, where the properties of those functions are proved. */
module Vmem {
  import opened PageTable
  import opened ClockSweep
  import opened PagedMemory
  import opened Dirty

  /** A flat array of n * pageSize cells, block by block. */
  ghost function Split(cells: seq<int>, n: nat, pageSize: nat): (b: seq<seq<int>>)
    requires |cells| == n * pageSize
    ensures Blocks(b, n, pageSize)
    ensures forall i :: 0 <= i < n && BlockFits(i, n, pageSize) ==> b[i] == BlockAt(cells, i * pageSize, pageSize)
  {
    BlocksInside(n, pageSize);
    seq(n, i requires 0 <= i < n && BlockFits(i, n, pageSize) => BlockAt(cells, i * pageSize, pageSize))
  }

  ghost function BlockAt(cells: seq<int>, at: nat, pageSize: nat): (b: seq<int>)
    requires at + pageSize <= |cells|
    ensures |b| == pageSize
  {
    cells[at..at + pageSize]
  }

  /** Cut into blocks and read address by address, the cells are in order. */
  lemma JoinSplit(cells: seq<int>, n: nat, pageSize: nat)
    requires pageSize >= 1 && |cells| == n * pageSize
    ensures Join(Split(cells, n, pageSize), n, pageSize) == cells
  {
    var b := Split(cells, n, pageSize);
    forall a | 0 <= a < n * pageSize ensures Join(b, n, pageSize)[a] == cells[a] {
      AddressSplit(a, n, pageSize);
      var page := PageOf(a, pageSize);
      BlockInside(page, n, pageSize);
      assert b[page] == BlockAt(cells, page * pageSize, pageSize);
    }
  }

  lemma BlocksInside(n: nat, pageSize: nat)
    ensures forall i :: 0 <= i < n ==> BlockFits(i, n, pageSize)
  {
    forall i | 0 <= i < n ensures BlockFits(i, n, pageSize) { BlockInside(i, n, pageSize); }
  }

  ghost predicate BlockFits(i: nat, n: nat, pageSize: nat) {
    i * pageSize + pageSize <= n * pageSize
  }

  lemma BlockInside(i: nat, n: nat, pageSize: nat)
    requires i < n
    ensures BlockFits(i, n, pageSize)
  {
    var rest := n - (i + 1);
    Distribute(i + 1, rest, pageSize);
    Distribute(i, 1, pageSize);
  }

  lemma Distribute(a: nat, b: nat, c: nat)
    ensures (a + b) * c == a * c + b * c
  {
  }

  lemma BlocksApart(i: nat, j: nat, pageSize: nat)
    requires i < j
    ensures i * pageSize + pageSize <= j * pageSize
  {
    BlockInside(i, j, pageSize);
  }

  /** Overwriting the cells of block i is replacing block i. */
  lemma SplitReplace(cells: seq<int>, cells': seq<int>, n: nat, pageSize: nat, i: nat, at: nat, block: seq<int>)
    requires |cells| == n * pageSize && |cells'| == |cells| && i < n && |block| == pageSize
    requires at == i * pageSize && at + pageSize <= |cells|
    requires forall k :: 0 <= k < |cells| ==>
               cells'[k] == if at <= k < at + pageSize then block[k - at] else cells[k]
    ensures Split(cells', n, pageSize) == Split(cells, n, pageSize)[i := block]
  {
    BlocksInside(n, pageSize);
    forall j | 0 <= j < n
      ensures Split(cells', n, pageSize)[j] == Split(cells, n, pageSize)[i := block][j]
    {
      BlockInside(j, n, pageSize);
      if j < i { BlocksApart(j, i, pageSize); }
      if i < j { BlocksApart(i, j, pageSize); }
      ReplaceOne(cells, cells', at, block, pageSize, j * pageSize);
    }
  }

  lemma ReplaceOne(cells: seq<int>, cells': seq<int>, at: nat, block: seq<int>, pageSize: nat, from: nat)
    requires |cells'| == |cells| && |block| == pageSize && at + pageSize <= |cells| && from + pageSize <= |cells|
    requires from == at || from + pageSize <= at || at + pageSize <= from
    requires forall k :: 0 <= k < |cells| ==>
               cells'[k] == if at <= k < at + pageSize then block[k - at] else cells[k]
    ensures BlockAt(cells', from, pageSize) == if from == at then block else BlockAt(cells, from, pageSize)
  {
  }

  /** A transfer of n values between the frames and the page file that succeeds. */
  method CopyBlock(source: array<int>, from: nat, target: array<int>, to: nat, n: nat)
    requires source != target && from + n <= source.Length && to + n <= target.Length
    modifies target
    ensures forall k :: 0 <= k < target.Length ==>
              target[k] == if to <= k < to + n then source[from..from + n][k - to] else old(target[k])
  {
    forall k | 0 <= k < n {
      target[to + k] := source[from + k];
    }
  }

  /** One round of the clock loops in terms of the arrays. */
  lemma Round(t: Table, policy: Policy)
    requires t.Consistent() && t.Full() && policy != Fifo
    ensures t.hand < t.NFrames() && 0 <= t.framepage[t.hand] < t.NPages()
    ensures var page := t.framepage[t.hand];
            var e := t.entries[page + 1];
            && (WeightAt(t, policy, t.hand) == 0 <==> !e.flags.used1)
            && PassHand(t, policy) ==
               t.(entries := t.entries[page + 1 := e.(flags := Pass(policy, e.flags))],
                  hand := Next(t.hand, t.NFrames()))
    ensures if WeightAt(t, policy, t.hand) == 0 then Sweep(t, policy) == t && Rounds(t, policy) == 0
            else
              && PassHand(t, policy).Consistent() && PassHand(t, policy).Full()
              && Sum(Weights(PassHand(t, policy), policy)) < Sum(Weights(t, policy))
              && Sweep(t, policy) == Sweep(PassHand(t, policy), policy)
              && Rounds(t, policy) == 1 + Rounds(PassHand(t, policy), policy)
  {
    assert t.FrameHolds(t.hand);
    SweepUnfolds(t, policy);
    if WeightAt(t, policy, t.hand) != 0 { PassHandSound(t, policy); }
    hide Sweep, Rounds, Sum, Weights;
  }

  class VmemStruct {
    const policy: Policy
    const npages: nat
    const nframes: nat
    const pageSize: nat

    var size: nat
    var nextAllocIdx: nat
    var reqPageno: int
    const entries: array<PtEntry>
    const framepage: array<int>
    const data: array<int>
    const pagefile: array<int>

    /** Every access of the client so far. */
    ghost var trace: seq<Op>

    /** The content of the page file at the start, address by address. */
    ghost const origin: seq<int>

    ghost const Repr: set<object>

    ghost predicate Shaped()
      reads this
    {
      && npages >= 1 && nframes >= 1 && pageSize >= 1
      && Repr == {this, entries, framepage, data, pagefile}
      && framepage != data && framepage != pagefile && data != pagefile
      && entries.Length == npages + 1 && framepage.Length == nframes
      && data.Length == nframes * pageSize && pagefile.Length == npages * pageSize
      && size <= nframes && nextAllocIdx < nframes
    }

    ghost function Table(): Table
      reads this, entries, framepage
    {
      PageTable.Table.Table(size, nextAllocIdx, entries[..], framepage[..])
    }

    ghost function Mem(): Memory
      requires Shaped()
      reads Repr
    {
      Memory(Table(), Split(data[..], nframes, pageSize), Split(pagefile[..], npages, pageSize))
    }

    ghost predicate Valid()
      reads this, Repr
    {
      Shaped() && Sound(Mem(), pageSize)
    }

    /** The flat memory the application believes in. */
    ghost function Cells(): (cells: seq<int>)
      requires Valid()
      reads Repr
      ensures |cells| == npages * pageSize
    {
      Flat(Mem(), pageSize)
    }

    /** Every address holds what was last written to it since the start. */
    ghost predicate Remembers()
      requires Valid()
      reads Repr
    {
      Agrees(Mem(), pageSize, origin, trace)
    }

    /** vmem_init over a page file with the given content. */
    constructor (policy: Policy, npages: nat, nframes: nat, pageSize: nat, content: seq<int>)
      requires npages >= 1 && nframes >= 1 && pageSize >= 1 && |content| == npages * pageSize
      ensures Valid() && fresh(Repr)
      ensures this.policy == policy && this.npages == npages && this.pageSize == pageSize && this.nframes == nframes
      ensures Mem() == InitMemory(npages, nframes, pageSize, Split(content, npages, pageSize))
      ensures trace == [] && origin == content && Remembers()
    {
      hide Sound, Agrees, Flat, Join, PageTable.Table.Consistent;
      this.policy, this.npages, this.nframes, this.pageSize := policy, npages, nframes, pageSize;
      size, reqPageno, nextAllocIdx := 0, VOID_IDX, 0;
      var table := new PtEntry[npages + 1](i => VOID_ENTRY);
      var inverse := new int[nframes](i => VOID_IDX);
      var cells := new int[nframes * pageSize](i => VOID_IDX);
      var file := new int[npages * pageSize](i requires 0 <= i < |content| => content[i]);
      entries, framepage, data, pagefile := table, inverse, cells, file;
      trace := [];
      origin := Join(Split(content, npages, pageSize), npages, pageSize);
      Repr := {this, table, inverse, cells, file};
      new;
      assert pagefile[..] == content;
      assert entries[..] == seq(npages + 1, i => VOID_ENTRY);
      assert framepage[..] == seq(nframes, i => VOID_IDX);
      forall f | 0 <= f < nframes
        ensures Split(data[..], nframes, pageSize)[f] == seq(pageSize, i => VOID_IDX)
      {
        BlockInside(f, nframes, pageSize);
        assert BlockAt(data[..], f * pageSize, pageSize) == seq(pageSize, i => VOID_IDX);
      }
      assert Split(data[..], nframes, pageSize) == seq(nframes, f => seq(pageSize, i => VOID_IDX));
      InitAgrees(npages, nframes, pageSize, Split(content, npages, pageSize));
      JoinSplit(content, npages, pageSize);
    }

    // ----- memory manager -----

    method RotateAllocIdx()
      requires Shaped()
      modifies this`nextAllocIdx
      ensures Shaped() && nextAllocIdx == Next(old(nextAllocIdx), nframes)
    {
      NextIsModulo(nextAllocIdx, nframes);
      nextAllocIdx := nextAllocIdx + 1;
      nextAllocIdx := nextAllocIdx % nframes;
    }

    method FramesAreOccupied() returns (b: bool)
      requires Shaped()
      ensures b == Table().Full()
    {
      b := size >= nframes;
    }

    method FindRemoveFifo() returns (frame: int)
      requires Shaped()
      modifies this`nextAllocIdx
      ensures Shaped() && frame == old(nextAllocIdx)
      ensures Table() == old(Table()).(hand := Next(old(nextAllocIdx), nframes))
    {
      frame := nextAllocIdx;
      RotateAllocIdx();
    }

    method FindRemoveClock() returns (frame: int, ghost rounds: nat)
      requires Shaped() && Table().Consistent() && Table().Full()
      modifies this`nextAllocIdx, entries
      ensures Shaped() && old(Table()).Consistent()
      ensures var r := Sweep(old(Table()), Clock);
              r.Consistent() && frame == r.hand < nframes && Table() == r.(hand := Next(r.hand, nframes))
      ensures rounds == Rounds(old(Table()), Clock)
    {
      hide Sweep, Rounds, Weights, Sum, SameButUsed, PassHand, WeightAt, Next, PageTable.Table.Consistent;
      frame, rounds := VOID_IDX, 0;
      ghost var start := Table();
      ghost var t := start;
      while frame == VOID_IDX
        invariant Shaped() && Table() == t && t.Consistent() && t.Full()
        invariant Sweep(t, Clock) == Sweep(start, Clock)
        invariant rounds + Rounds(t, Clock) == Rounds(start, Clock)
        invariant frame != VOID_IDX ==> frame == t.hand && Sweep(start, Clock) == t && Rounds(t, Clock) == 0
        decreases frame == VOID_IDX, Sum(Weights(t, Clock))
      {
        Round(t, Clock);
        var allocIdx := nextAllocIdx;
        var page := framepage[allocIdx];
        var flags := entries[page + 1].flags;
        if flags.used1 {
          entries[page + 1] := entries[page + 1].(flags := flags.(used1 := false));
          RotateAllocIdx();
          t := PassHand(t, Clock);
          rounds := rounds + 1;
        } else {
          frame := allocIdx;
        }
      }
      RotateAllocIdx();
    }

    method FindRemoveClock2() returns (frame: int, ghost rounds: nat)
      requires Shaped() && Table().Consistent() && Table().Full()
      modifies this`nextAllocIdx, entries
      ensures Shaped() && old(Table()).Consistent()
      ensures var r := Sweep(old(Table()), Clock2);
              r.Consistent() && frame == r.hand < nframes && Table() == r.(hand := Next(r.hand, nframes))
      ensures rounds == Rounds(old(Table()), Clock2)
    {
      hide Sweep, Rounds, Weights, Sum, SameButUsed, PassHand, WeightAt, Next, PageTable.Table.Consistent;
      frame, rounds := VOID_IDX, 0;
      ghost var start := Table();
      ghost var t := start;
      while frame == VOID_IDX
        invariant Shaped() && Table() == t && t.Consistent() && t.Full()
        invariant Sweep(t, Clock2) == Sweep(start, Clock2)
        invariant rounds + Rounds(t, Clock2) == Rounds(start, Clock2)
        invariant frame != VOID_IDX ==> frame == t.hand && Sweep(start, Clock2) == t && Rounds(t, Clock2) == 0
        decreases frame == VOID_IDX, Sum(Weights(t, Clock2))
      {
        Round(t, Clock2);
        var allocIdx := nextAllocIdx;
        var page := framepage[allocIdx];
        var flags := entries[page + 1].flags;
        if flags.used1 {
          if flags.used2 {
            entries[page + 1] := entries[page + 1].(flags := flags.(used2 := false));
          } else {
            entries[page + 1] := entries[page + 1].(flags := flags.(used1 := false));
          }
          RotateAllocIdx();
          t := PassHand(t, Clock2);
          rounds := rounds + 1;
        } else {
          frame := allocIdx;
        }
      }
      RotateAllocIdx();
    }

    method FindRemoveFrame() returns (frame: int)
      requires Shaped() && Table().Consistent()
      modifies this`size, this`nextAllocIdx, entries
      ensures Shaped() && old(Table()).Consistent()
      ensures Table() == Choose(old(Table()), policy).table && frame == Choose(old(Table()), policy).frame
    {
      var full := FramesAreOccupied();
      ghost var rounds: nat;
      if !full {
        frame := size;
        size := size + 1;
      } else {
        match policy
        case Fifo => frame := FindRemoveFifo();
        case Clock => frame, rounds := FindRemoveClock();
        case Clock2 => frame, rounds := FindRemoveClock2();
      }
    }

    method StorePage(page: int)
      requires Shaped() && -1 <= page < npages
      requires Table().Entry(page).flags.changed ==> 0 <= page && 0 <= Table().Entry(page).frame < nframes
      modifies pagefile
      ensures Shaped() && Table() == old(Table())
      ensures Mem() == PagedMemory.StorePage(old(Mem()), page)
    {
      assert Table().Entry(page) == entries[page + 1];
      if entries[page + 1].flags.changed {
        var frame := entries[page + 1].frame;
        BlockInside(page, npages, pageSize);
        BlockInside(frame, nframes, pageSize);
        var to, from := page * pageSize, frame * pageSize;
        CopyBlock(data, from, pagefile, to, pageSize);
        SplitReplace(old(pagefile[..]), pagefile[..], npages, pageSize, page, to, BlockAt(data[..], from, pageSize));
      }
    }

    method FetchPage(page: int)
      requires Shaped() && 0 <= page < npages && 0 <= Table().Entry(page).frame < nframes
      modifies data
      ensures Shaped() && Table() == old(Table())
      ensures Mem() == PagedMemory.FetchPage(old(Mem()), page)
    {
      assert Table().Entry(page) == entries[page + 1];
      var frame := entries[page + 1].frame;
      BlockInside(page, npages, pageSize);
      BlockInside(frame, nframes, pageSize);
      var to, from := frame * pageSize, page * pageSize;
      CopyBlock(pagefile, from, data, to, pageSize);
      SplitReplace(old(data[..]), data[..], nframes, pageSize, frame, to, BlockAt(pagefile[..], from, pageSize));
    }

    method UpdateUnload(oldPage: int)
      requires Shaped() && -1 <= oldPage < npages
      modifies entries
      ensures Shaped() && Table() == Unload(old(Table()), oldPage)
    {
      entries[oldPage + 1] := entries[oldPage + 1].(flags := NO_FLAGS);
      entries[oldPage + 1] := entries[oldPage + 1].(frame := VOID_IDX);
      assert entries[..] == old(entries[..])[oldPage + 1 := VOID_ENTRY];
    }

    method UpdateLoad(frame: int)
      requires Shaped() && 0 <= frame < nframes && 0 <= reqPageno < npages
      modifies entries, framepage
      ensures Shaped() && Table() == Load(old(Table()), frame, reqPageno)
    {
      var page := reqPageno;
      framepage[frame] := page;
      entries[page + 1] := entries[page + 1].(frame := frame);
      entries[page + 1] := entries[page + 1].(flags := entries[page + 1].flags.(present := true));
      ghost var e := old(Table()).Entry(page);
      assert entries[..] == old(entries[..])[page + 1 := PtEntry(e.flags.(present := true), frame)];
      assert framepage[..] == old(framepage[..])[frame := page];
    }

    method UpdatePt(frame: int)
      requires Shaped() && 0 <= frame < nframes && 0 <= reqPageno < npages
      requires -1 <= framepage[frame] < npages
      modifies entries, framepage
      ensures Shaped() && Table() == Rewire(old(Table()), frame, reqPageno)
    {
      var oldPage := framepage[frame];
      UpdateUnload(oldPage);
      UpdateLoad(frame);
    }

    /** The handler of SIGUSR1, up to the post of the semaphore (see FaultHandshake). */
    method PageFault()
      requires Valid() && 0 <= reqPageno < npages && !Table().Present(reqPageno)
      modifies this`size, this`nextAllocIdx, entries, framepage, data, pagefile
      ensures Valid() && old(Valid())
      ensures Mem() == PagedMemory.PageFault(old(Mem()), policy, reqPageno)
      ensures Table().Present(reqPageno) && Cells() == old(Cells())
    {
      ghost var m := Mem();
      FaultTransparent(m, policy, reqPageno, pageSize);
      ChooseSound(m.table, policy);
      FaultSound(m.table, policy, reqPageno);
      var newFrame := FindRemoveFrame();
      var pageUnloaded := framepage[newFrame];
      assert Mem() == m.(table := Choose(m.table, policy).table);
      assert pageUnloaded == Replaced(Mem(), newFrame);
      var full := FramesAreOccupied();
      if full {
        StorePage(pageUnloaded);
      }
      ghost var stored := Mem();
      assert stored == WriteBack(m.(table := Choose(m.table, policy).table), newFrame);
      UpdatePt(newFrame);
      assert Table().PageSound(reqPageno);
      FetchPage(reqPageno);
    }

    // ----- client -----

    method CountUsed(page: int)
      requires Shaped() && 0 <= page < npages
      modifies entries
      ensures Shaped() && Table() == Touch(old(Table()), page, false)
      ensures var before, after := old(Table()).Entry(page), Table().Entry(page);
              && after.frame == before.frame
              && after.flags == Flags(before.flags.present, before.flags.changed, true,
                                      before.flags.used1 || before.flags.used2)
    {
      ghost var e := Table().Entry(page);
      if entries[page + 1].flags.used1 {
        entries[page + 1] := entries[page + 1].(flags := entries[page + 1].flags.(used2 := true));
      }
      entries[page + 1] := entries[page + 1].(flags := entries[page + 1].flags.(used1 := true));
      assert entries[..] == old(entries[..])[page + 1 := e.(flags := UsedFlags(e.flags))];
    }

    function CalcIndexFromPageOffset(page: int, offset: int): int
      requires 0 <= page && page + 1 < entries.Length
      reads entries
    {
      entries[page + 1].frame * pageSize + offset
    }

    /** The index lies inside the block of the page's frame. */
    lemma IndexInFrame(page: int, offset: int)
      requires Valid() && 0 <= page < npages && Table().Present(page) && 0 <= offset < pageSize
      ensures 0 <= Table().Entry(page).frame < nframes
      ensures 0 <= CalcIndexFromPageOffset(page, offset) < data.Length
      ensures data[CalcIndexFromPageOffset(page, offset)] == Mem().frames[Table().Entry(page).frame][offset]
    {
      assert Table().PageSound(page) && Table().Entry(page) == entries[page + 1];
      BlockInside(Table().Entry(page).frame, nframes, pageSize);
    }

    method ReadPage(page: int, offset: int, ghost addr: nat) returns (value: int)
      requires Valid() && 0 <= page < npages && Table().Present(page) && 0 <= offset < pageSize
      requires addr < npages * pageSize && page == PageOf(addr, pageSize) && offset == addr % pageSize
      modifies entries
      ensures Shaped() && old(Valid())
      ensures Mem() == TouchCell(old(Mem()), Read(addr), pageSize)
      ensures Table().Entry(page).flags.changed == old(Table()).Entry(page).flags.changed
      ensures value == CellOf(old(Mem()), addr, pageSize)
    {
      IndexInFrame(page, offset);
      CountUsed(page);
      assert entries[page + 1].frame == old(Table()).Entry(page).frame;
      value := data[CalcIndexFromPageOffset(page, offset)];
    }

    method WritePage(page: int, offset: int, value: int, ghost addr: nat)
      requires Valid() && 0 <= page < npages && Table().Present(page) && 0 <= offset < pageSize
      requires addr < npages * pageSize && page == PageOf(addr, pageSize) && offset == addr % pageSize
      modifies entries, data
      ensures Shaped() && old(Valid())
      ensures Mem() == TouchCell(old(Mem()), Write(addr, value), pageSize)
      ensures Table().Entry(page).flags.changed
    {
      IndexInFrame(page, offset);
      ghost var t := Table();
      ghost var f := t.Entry(page).frame;
      CountUsed(page);
      entries[page + 1] := entries[page + 1].(flags := entries[page + 1].flags.(changed := true));
      assert entries[..] == Touch(t, page, true).entries;
      var index := CalcIndexFromPageOffset(page, offset);
      assert index == f * pageSize + offset;
      data[index] := value;
      ghost var block := Split(old(data[..]), nframes, pageSize)[f][offset := value];
      BlockInside(f, nframes, pageSize);
      SplitReplace(old(data[..]), data[..], nframes, pageSize, f, f * pageSize, block);
    }

    /** Sets the requested page and, if it is absent, waits for the manager to fault it in. */
    method RequestPage(page: int)
      requires Valid() && 0 <= page < npages
      modifies this`reqPageno, this`size, this`nextAllocIdx, entries, framepage, data, pagefile
      ensures Valid() && old(Valid())
      ensures Mem() == MakeResident(old(Mem()), policy, page, pageSize) && Table().Present(page)
      ensures Cells() == old(Cells())
    {
      reqPageno := page;
      assert Table().Entry(page) == entries[page + 1];
      if !entries[page + 1].flags.present {
        PageFault();
      }
    }

    ghost method Record(op: Op)
      requires Shaped()
      modifies this`trace
      ensures Shaped() && Mem() == old(Mem()) && trace == old(trace) + [op]
    {
      trace := trace + [op];
    }

    method VmemRead(address: int) returns (result: int)
      requires Valid() && 0 <= address < npages * pageSize
      modifies Repr
      ensures Valid() && old(Valid())
      ensures Mem() == Access(old(Mem()), policy, Read(address), pageSize)
      ensures result == old(Cells())[address] && Cells() == old(Cells())
      ensures forall p :: Changed(Table(), p) ==> old(Changed(Table(), p))
      ensures trace == old(trace) + [Read(address)]
      ensures old(Remembers()) ==>
                Remembers() && |origin| == npages * pageSize && result == LastWritten(origin, old(trace), address)
    {
      hide Sound, Flat, TouchCell, CellOf, Table, Mem, Agrees, LastWritten, MakeResident, AccessTable, Changed;
      ValidUnfolds();
      ghost var m := Mem();
      AccessRefines(m, policy, Read(address), pageSize);
      if Remembers() {
        AccessAgrees(m, policy, Read(address), pageSize, origin, trace);
      }
      AddressSplit(address, npages, pageSize);
      var page := address / pageSize;
      var offset := address % pageSize;
      RequestPage(page);
      result := ReadPage(page, offset, address);
      Record(Read(address));
      AccessMarks(m, policy, Read(address), pageSize);
      ValidUnfolds();
    }

    method VmemWrite(address: int, value: int)
      requires Valid() && 0 <= address < npages * pageSize
      modifies Repr
      ensures Valid() && old(Valid())
      ensures Mem() == Access(old(Mem()), policy, Write(address, value), pageSize)
      ensures Cells() == old(Cells())[address := value] && Changed(Table(), address / pageSize)
      ensures trace == old(trace) + [Write(address, value)]
      ensures old(Remembers()) ==> Remembers()
    {
      hide Sound, Flat, TouchCell, CellOf, Table, Mem, Agrees, LastWritten, MakeResident, AccessTable, Changed;
      ValidUnfolds();
      ghost var m := Mem();
      AccessRefines(m, policy, Write(address, value), pageSize);
      if Remembers() {
        AccessAgrees(m, policy, Write(address, value), pageSize, origin, trace);
      }
      AddressSplit(address, npages, pageSize);
      var page := address / pageSize;
      var offset := address % pageSize;
      RequestPage(page);
      WritePage(page, offset, value, address);
      Record(Write(address, value));
      AccessMarks(m, policy, Write(address, value), pageSize);
      ValidUnfolds();
    }

    lemma ValidUnfolds()
      requires Valid()
      ensures Shaped() && Sound(Mem(), pageSize) && Mem().table == Table() && Table().NPages() == npages
      ensures |Cells()| == npages * pageSize && Cells() == Flat(Mem(), pageSize)
    {
    }
  }
}
