/** A program that uses the scull device: it writes and reads in loops, since one call
    never crosses a quantum, and seeks in between. */
module ScullProgram {
  import opened Bytes
  import opened ScullStore
  import opened Scull

  /** What the file held outside from..to is still there. */
  ghost predicate Kept(before: Store, after: Store, from: nat, to: nat)
    requires Sound(before) && Sound(after)
  {
    forall p: nat :: (p < from || p >= to) && At(before, p).Byte? ==> At(after, p) == At(before, p)
  }

  /** The same file, though perhaps in a longer list. */
  ghost predicate SameFile(before: Store, after: Store)
    requires Sound(before) && Sound(after)
  {
    after.size == before.size && forall p: nat :: At(after, p) == At(before, p)
  }

  /** One write in the middle of a buffer of which `done` has been written. */
  lemma WriteOn(start: Store, st: Store, fPos: nat, done: seq<byte>, rest: seq<byte>, garbage: seq<byte>)
    requires Sound(start) && Sound(st) && |garbage| == st.quantum
    requires Holds(st, fPos, done) && Kept(start, st, fPos, fPos + |done|)
    ensures WriteChunk(st, fPos + |done|, |rest|) <= |rest|
    ensures var n := WriteChunk(st, fPos + |done|, |rest|);
            var r := Write(st, fPos + |done|, rest, garbage);
            && (rest != [] ==> n > 0) && r.size == Max(st.size, fPos + |done| + n)
            && Holds(r, fPos, done + rest[..n]) && Kept(start, r, fPos, fPos + |done| + n)
  {
    hide Write, At, WriteChunk, Holds, Locate, BlockAt, SameBlock;
    var pos := fPos + |done|;
    var n := WriteChunk(st, pos, |rest|);
    var r := Write(st, pos, rest, garbage);
    WriteProgress(st, pos, |rest|);
    WriteHolds(st, pos, rest, garbage);
    WriteKeeps(st, pos, rest, garbage, fPos, done);
    HoldsAppend(r, fPos, done, rest[..n]);
    WriteUpdates(st, pos, rest, garbage, 0);
    forall p: nat | (p < fPos || p >= pos + n) && At(start, p).Byte? ensures At(r, p) == At(start, p) {
      WriteUpdates(st, pos, rest, garbage, p);
    }
  }

  /** The size of a file after `done` bytes have been written from fPos on. */
  function SizeAfter(size: nat, fPos: nat, done: nat): nat {
    if done == 0 then size else Max(size, fPos + done)
  }

  lemma SizeGrows(size: nat, fPos: nat, done: nat, n: nat)
    ensures n > 0 ==> Max(SizeAfter(size, fPos, done), fPos + done + n) == SizeAfter(size, fPos, done + n)
    ensures SizeAfter(size, fPos, 0) == size && SizeAfter(size, size, done) == size + done
  {
  }

  /** Writes all of data from fPos on. */
  method WriteFully(dev: ScullDev, fPos: nat, data: seq<byte>) returns (newPos: nat)
    requires dev.Valid()
    modifies dev.Repr
    ensures dev.Valid() && fresh(dev.Repr - old(dev.Repr)) && newPos == fPos + |data|
    ensures Holds(dev.Store(), fPos, data) && Kept(old(dev.Store()), dev.Store(), fPos, newPos)
    ensures dev.size == SizeAfter(old(dev.size), fPos, |data|)
  {
    hide *;
    newPos := fPos;
    var done := 0;
    ghost var start := dev.Store();
    NothingWritten(start, fPos);
    SizeGrows(start.size, fPos, 0, 0);
    while done < |data|
      invariant dev.Valid() && fresh(dev.Repr - old(dev.Repr))
      invariant done <= |data| && newPos == fPos + done
      invariant Holds(dev.Store(), fPos, data[..done]) && Kept(start, dev.Store(), fPos, newPos)
      invariant dev.size == SizeAfter(start.size, fPos, done)
    {
      ghost var st := dev.Store();
      var n;
      ghost var garbage;
      n, newPos, garbage := dev.Write(newPos, data[done..]);
      WriteOn(start, st, fPos, data[..done], data[done..], garbage);
      SizeGrows(start.size, fPos, done, n);
      assert data[..done] + data[done..][..n] == data[..done + n];
      done := done + n;
    }
    assert data[..done] == data;
  }

  lemma NothingWritten(st: Store, fPos: nat)
    requires Sound(st)
    ensures Holds(st, fPos, []) && Kept(st, st, fPos, fPos)
  {
  }

  lemma NothingRead(st: Store)
    requires Sound(st)
    ensures SameFile(st, st)
  {
  }

  lemma ReadSame(start: Store, st: Store, pos: nat)
    requires Sound(start) && Sound(st) && SameFile(start, st)
    ensures SameFile(start, AfterRead(st, pos))
  {
    hide At, AfterRead;
    forall p: nat ensures At(AfterRead(st, pos), p) == At(start, p) {
      ReadUnseen(st, pos, p);
    }
    ReadUnseen(st, pos, 0);
  }

  /** What has been read, followed by what is still to be read. */
  ghost function Whole(out: seq<byte>, st: Store, pos: nat, count: nat): seq<byte>
    requires Sound(st) && |out| <= count
  {
    out + ReadAll(st, pos, count - |out|)
  }

  lemma ReadOn(out: seq<byte>, st: Store, pos: nat, count: nat)
    requires Sound(st) && |out| <= count
    ensures var chunk := ScullStore.Read(st, pos, count - |out|);
            && |out + chunk| <= count
            && Whole(out, st, pos, count) ==
               if chunk == [] then out else Whole(out + chunk, AfterRead(st, pos), pos + |chunk|, count)
  {
    hide ReadAll, ScullStore.Read, AfterRead, Sound;
    ReadAllUnfolds(st, pos, count - |out|);
    var chunk := ScullStore.Read(st, pos, count - |out|);
    if chunk != [] {
      var rest := ReadAll(AfterRead(st, pos), pos + |chunk|, count - |out| - |chunk|);
      Assoc(out, chunk, rest);
      assert count - |out| - |chunk| == count - |out + chunk|;
    }
  }

  lemma ReadEnds(out: seq<byte>, st: Store, pos: nat, count: nat)
    requires Sound(st)
    ensures Whole([], st, pos, count) == ReadAll(st, pos, count)
    ensures Whole(out, st, pos, |out|) == out
  {
    hide ReadAll, ScullStore.Read, AfterRead;
    assert [] + ReadAll(st, pos, count) == ReadAll(st, pos, count);
    ReadAllUnfolds(st, pos, 0);
    assert out + [] == out;
  }

  /** Reads until it has count bytes or a read returns nothing. */
  method ReadFully(dev: ScullDev, fPos: nat, count: nat) returns (out: seq<byte>)
    requires dev.Valid()
    modifies dev.Repr
    ensures dev.Valid() && fresh(dev.Repr - old(dev.Repr))
    ensures out == ReadAll(old(dev.Store()), fPos, count) && SameFile(old(dev.Store()), dev.Store())
  {
    hide *;
    ghost var start := dev.Store();
    NothingRead(start);
    ghost var all := ReadAll(start, fPos, count);
    ReadEnds([], start, fPos, count);
    out := [];
    var pos := fPos;
    while |out| < count
      invariant dev.Valid() && fresh(dev.Repr - old(dev.Repr))
      invariant |out| <= count && SameFile(start, dev.Store()) && all == Whole(out, dev.Store(), pos, count)
    {
      ReadOn(out, dev.Store(), pos, count);
      ReadSame(start, dev.Store(), pos);
      var chunk;
      chunk, pos := dev.Read(pos, count - |out|);
      if chunk == [] {
        return;
      }
      out := out + chunk;
    }
    ReadEnds(out, dev.Store(), pos, count);
  }

  /** scull_llseek. */
  method Seek(dev: ScullDev, fPos: nat, off: int, whence: Whence) returns (r: SeekResult)
    requires dev.Valid()
    ensures r == Llseek(dev.Store(), fPos, off, whence)
  {
    var newPos := match whence case SeekSet => off case SeekCur => fPos + off case SeekEnd => dev.size + off;
    r := if newPos < 0 then EInval else NewPos(newPos);
  }

  /** Seeking to the end and writing appends to the file. */
  method Append(dev: ScullDev, fPos: nat, data: seq<byte>)
    requires dev.Valid()
    modifies dev.Repr
    ensures dev.Valid() && fresh(dev.Repr - old(dev.Repr))
    ensures dev.size == old(dev.size) + |data| && Holds(dev.Store(), old(dev.size), data)
    ensures Kept(old(dev.Store()), dev.Store(), old(dev.size), dev.size)
  {
    hide *;
    var at := Seek(dev, fPos, 0, SeekEnd);
    SeekReaches(dev.Store(), fPos, 0, 0);
    SizeGrows(dev.size, at.pos, |data|, 0);
    var end := WriteFully(dev, at.pos, data);
  }

  lemma SeekBack(st: Store, pos: nat, data: seq<byte>)
    ensures Llseek(st, pos + |data|, -|data|, SeekCur) == NewPos(pos)
  {
  }

  lemma StillThere(start: Store, written: Store, after: Store, pos: nat, data: seq<byte>)
    requires Sound(start) && Sound(written) && Sound(after) && SameFile(written, after)
    requires Holds(written, pos, data) && Kept(start, written, pos, pos + |data|)
    ensures Holds(after, pos, data) && Kept(start, after, pos, pos + |data|)
  {
    hide At;
  }

  /** On the device in memory, in whatever state: a buffer written at any position that a seek
      reaches comes back after seeking back, and nothing else in the file is lost. */
  method WriteSeekRead(dev: ScullDev, fPos: nat, off: int, whence: Whence, data: seq<byte>)
      returns (at: SeekResult, out: seq<byte>)
    requires dev.Valid()
    modifies dev.Repr
    ensures dev.Valid() && fresh(dev.Repr - old(dev.Repr))
    ensures at == Llseek(old(dev.Store()), fPos, off, whence)
    ensures at.NewPos? ==> out == data
    ensures at.NewPos? ==>
              Holds(dev.Store(), at.pos, data) && Kept(old(dev.Store()), dev.Store(), at.pos, at.pos + |data|)
  {
    hide *;
    out := [];
    at := Seek(dev, fPos, off, whence);
    if at.NewPos? {
      ghost var start := dev.Store();
      var end := WriteFully(dev, at.pos, data);
      var back := Seek(dev, end, -|data|, SeekCur);
      SeekBack(dev.Store(), at.pos, data);
      ghost var written := dev.Store();
      ReadAllReturns(written, at.pos, data);
      out := ReadFully(dev, back.pos, |data|);
      StillThere(start, written, dev.Store(), at.pos, data);
    }
  }
}
