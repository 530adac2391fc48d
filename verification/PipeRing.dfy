/** The circular buffer of the scull pipe: one slot stays empty, so that a full
    buffer and an empty one are never confused. */
module PipeRing {
  import opened Bytes

  /** The positions of both pointers.  While a pointer is being advanced it may equal |buffer|
      (the source's `end`) for a moment, before it is wrapped; never both at once. */
  ghost predicate RingOk(buffer: seq<byte>, rp: nat, wp: nat) {
    && |buffer| >= 1 && rp <= |buffer| && wp <= |buffer|
    && !(rp == |buffer| && wp == |buffer|) && (wp == |buffer| ==> rp > 0)
  }

  /** The bytes between the read and the write pointer. */
  function Queue(buffer: seq<byte>, rp: nat, wp: nat): seq<byte>
    requires rp <= |buffer| && wp <= |buffer|
  {
    if rp <= wp then buffer[rp..wp] else buffer[rp..] + buffer[..wp]
  }

  function SpaceFree(size: nat, rp: nat, wp: nat): int
    requires size >= 1
  {
    if rp == wp then size - 1 else Gap(size, rp, wp)
  }

  /** The free space between different pointers. */
  function Gap(size: nat, rp: nat, wp: nat): int
    requires size >= 1
  {
    (rp + size - wp) % size - 1
  }

  /** Of equal pointers, which a second look may find, Gap is not zero. */
  lemma GapZero(size: nat, rp: nat, wp: nat)
    requires size >= 1 && Gap(size, rp, wp) == 0
    ensures SpaceFree(size, rp, wp) == 0
  {
    Remainder(0, size);
    assert 0 + size == size;
  }

  /** The remainder in SpaceFree, case by case. */
  lemma SpaceFreeCases(size: nat, rp: nat, wp: nat)
    requires size >= 1 && rp < size && wp < size
    ensures SpaceFree(size, rp, wp) == if wp >= rp then size - 1 - (wp - rp) else rp - wp - 1
  {
    if rp > wp {
      Remainder(rp - wp, size);
    } else if rp < wp {
      assert (rp + size - wp) % size == rp + size - wp;
    }
  }

  /** Queued and free bytes always add up to one less than the buffer: full is never empty. */
  lemma QueuedPlusFree(buffer: seq<byte>, rp: nat, wp: nat)
    requires rp < |buffer| && wp < |buffer|
    ensures |Queue(buffer, rp, wp)| + SpaceFree(|buffer|, rp, wp) == |buffer| - 1
    ensures Queue(buffer, rp, wp) == [] <==> rp == wp
  {
    SpaceFreeCases(|buffer|, rp, wp);
  }

  lemma QueueLength(buffer: seq<byte>, rp: nat, wp: nat)
    requires rp < |buffer| && wp < |buffer|
    ensures |Queue(buffer, rp, wp)| == if rp <= wp then wp - rp else |buffer| - rp + wp
  {
  }

  /** How many bytes a read of `count` takes at once: only up to `end` when the queue wraps. */
  function ReadChunk(size: nat, rp: nat, wp: nat, count: nat): (n: nat)
    requires rp < size && wp < size
  {
    if wp > rp then Min(count, wp - rp) else Min(count, size - rp)
  }

  /** How many bytes a write of `count` accepts at once. */
  function WriteChunk(size: nat, rp: nat, wp: nat, count: nat): (n: nat)
    requires rp < size && wp < size
    requires SpaceFree(size, rp, wp) >= 0
  {
    var n := Min(count, SpaceFree(size, rp, wp));
    if wp >= rp then Min(n, size - wp) else Min(n, rp - wp - 1)
  }

  lemma WriteChunkFits(size: nat, rp: nat, wp: nat, count: nat)
    requires rp < size && wp < size
    ensures SpaceFree(size, rp, wp) >= 0
    ensures var n := WriteChunk(size, rp, wp, count);
      && wp + n <= size && n <= count && n <= SpaceFree(size, rp, wp)
      && (wp >= rp ==> (wp + n == size ==> rp > 0)) && (wp < rp ==> wp + n < rp)
      && (count > 0 && SpaceFree(size, rp, wp) > 0 ==> n > 0)
  {
    SpaceFreeCases(size, rp, wp);
  }

  lemma ReadChunkBounds(size: nat, rp: nat, wp: nat, count: nat)
    requires rp < size && wp < size && rp != wp
    ensures var n := ReadChunk(size, rp, wp, count);
      rp + n <= size && n <= count && (wp > rp ==> rp + n <= wp) && (count > 0 ==> n > 0)
  {
  }

  lemma ReadChunkFits(buffer: seq<byte>, rp: nat, wp: nat, count: nat)
    requires rp < |buffer| && wp < |buffer| && rp != wp
    ensures var n := ReadChunk(|buffer|, rp, wp, count);
      && rp + n <= |buffer| && n <= count && n <= |Queue(buffer, rp, wp)|
      && buffer[rp..rp + n] == Queue(buffer, rp, wp)[..n]
      && (wp > rp ==> rp + n <= wp) && (count > 0 ==> n > 0)
  {
  }

  /** Wrapping a pointer that reached `end`. */
  function Wrapped(p: nat, size: nat): nat {
    if p == size then 0 else p
  }

  /** Storing n bytes behind the write pointer does not disturb the queue. */
  lemma StoreUnseen(buffer: seq<byte>, buffer': seq<byte>, rp: nat, wp: nat, n: nat)
    requires rp < |buffer| && wp < |buffer| && |buffer'| == |buffer| && wp + n <= |buffer|
    requires wp < rp ==> wp + n < rp
    requires buffer'[..wp] == buffer[..wp] && buffer'[wp + n..] == buffer[wp + n..]
    ensures Queue(buffer', rp, wp) == Queue(buffer, rp, wp)
  {
    if rp <= wp {
      assert buffer'[rp..wp] == buffer'[..wp][rp..] && buffer[rp..wp] == buffer[..wp][rp..];
    } else {
      assert buffer'[rp..] == buffer'[wp + n..][rp - wp - n..] && buffer[rp..] == buffer[wp + n..][rp - wp - n..];
    }
  }

  /** Advancing the write pointer appends what was stored behind it. */
  lemma AdvanceWrite(buffer: seq<byte>, rp: nat, wp: nat, n: nat)
    requires rp < |buffer| && wp < |buffer| && wp + n <= |buffer|
    requires wp < rp ==> wp + n < rp
    requires wp >= rp && wp + n == |buffer| ==> rp > 0
    ensures Queue(buffer, rp, wp + n) == Queue(buffer, rp, wp) + buffer[wp..wp + n]
  {
    if rp <= wp {
      SliceSplit(buffer, rp, wp, wp + n);
    } else {
      SliceSplit(buffer, 0, wp, wp + n);
      assert buffer[0..wp] == buffer[..wp] && buffer[0..wp + n] == buffer[..wp + n];
      Assoc(buffer[rp..], buffer[..wp], buffer[wp..wp + n]);
    }
  }

  lemma SliceSplit(xs: seq<byte>, i: nat, j: nat, k: nat)
    requires i <= j <= k <= |xs|
    ensures xs[i..k] == xs[i..j] + xs[j..k]
  {
  }

  lemma TailSplit(xs: seq<byte>, i: nat, j: nat)
    requires i <= j <= |xs|
    ensures xs[i..] == xs[i..j] + xs[j..]
  {
  }

  /** Advancing the read pointer removes what it went over. */
  lemma AdvanceRead(buffer: seq<byte>, rp: nat, wp: nat, n: nat)
    requires rp < |buffer| && wp < |buffer| && rp + n <= |buffer| && rp != wp
    requires wp > rp ==> rp + n <= wp
    ensures Queue(buffer, rp, wp) == buffer[rp..rp + n] + Queue(buffer, rp + n, wp)
  {
    if rp < wp {
      SliceSplit(buffer, rp, rp + n, wp);
    } else {
      TailSplit(buffer, rp, rp + n);
      Assoc(buffer[rp..rp + n], buffer[rp + n..], buffer[..wp]);
    }
  }

  /** Wrapping either pointer leaves the queue alone. */
  lemma WrapUnseen(buffer: seq<byte>, rp: nat, wp: nat)
    requires RingOk(buffer, rp, wp)
    ensures Queue(buffer, Wrapped(rp, |buffer|), Wrapped(wp, |buffer|)) == Queue(buffer, rp, wp)
  {
  }

  /** A whole read: the bytes taken, the pointer advanced and wrapped. */
  lemma ReadStep(buffer: seq<byte>, rp: nat, wp: nat, count: nat, n: nat)
    requires rp < |buffer| && wp < |buffer| && rp != wp && n == ReadChunk(|buffer|, rp, wp, count)
    ensures rp + n <= |buffer| && n <= count && (count > 0 ==> n > 0)
    ensures Queue(buffer, rp, wp) == buffer[rp..rp + n] + Queue(buffer, Wrapped(rp + n, |buffer|), wp)
  {
    hide Queue, ReadChunk;
    ReadChunkFits(buffer, rp, wp, count);
    AdvanceRead(buffer, rp, wp, n);
    assert Wrapped(wp, |buffer|) == wp;
    WrapUnseen(buffer, rp + n, wp);
  }

  /** A whole write: the bytes stored, the pointer advanced and wrapped. */
  lemma WriteStep(buffer: seq<byte>, buffer': seq<byte>, rp: nat, wp: nat, data: seq<byte>)
    requires rp < |buffer| && wp < |buffer| && SpaceFree(|buffer|, rp, wp) >= 0
    requires var n := WriteChunk(|buffer|, rp, wp, |data|);
      && wp + n <= |buffer| && n <= |data|
      && buffer' == buffer[..wp] + data[..n] + buffer[wp + n..]
    ensures var n := WriteChunk(|buffer|, rp, wp, |data|);
      && Wrapped(wp + n, |buffer|) < |buffer|
      && Queue(buffer', rp, Wrapped(wp + n, |buffer|)) == Queue(buffer, rp, wp) + data[..n]
  {
    var n := WriteChunk(|buffer|, rp, wp, |data|);
    WriteChunkFits(|buffer|, rp, wp, |data|);
    hide Queue;
    StoreUnseen(buffer, buffer', rp, wp, n);
    assert buffer'[wp..wp + n] == data[..n];
    AdvanceWrite(buffer', rp, wp, n);
    WrapUnseen(buffer', rp, wp + n);
  }
}

/** The pipe device, one call at a time. */
module Pipe {
  import opened Bytes
  import opened PipeRing

  /** What a call of read or write comes to. */
  datatype Outcome =
    | Moved(n: nat)   // the return value
    | EAgain          // nothing to do, and O_NONBLOCK is set
    | Sleeps          // nothing to do: the caller waits (see PipeProtocol)

  /** copy_from_user that succeeds. */
  method CopyFromUser(buffer: array<byte>, at: nat, data: seq<byte>)
    requires at + |data| <= buffer.Length
    modifies buffer
    ensures buffer[..] == old(buffer[..])[..at] + data + old(buffer[..])[at + |data|..]
  {
    forall k | 0 <= k < |data| {
      buffer[at + k] := data[k];
    }
  }

  class ScullPipe {
    const buffersize: nat
    var buffer: array?<byte>
    var rp: nat
    var wp: nat

    /** What holds of the device whether it was ever opened or not. */
    ghost predicate Allocated()
      reads this
    {
      buffersize >= 1 && (buffer != null ==> buffer.Length == buffersize)
    }

    /** The device is open. */
    ghost predicate Valid()
      reads this
    {
      Allocated() && buffer != null && rp < buffersize && wp < buffersize
    }

    ghost function Contents(): seq<byte>
      requires Valid()
      reads this, buffer
    {
      Queue(buffer[..], rp, wp)
    }

    /** The device as scull_p_init leaves it: the buffer comes with the first open. */
    constructor (scullPBuffer: nat)
      requires scullPBuffer >= 1
      ensures Allocated() && buffer == null && buffersize == scullPBuffer
    {
      buffersize := scullPBuffer;
      buffer := null;
      rp, wp := 0, 0;
    }

    /** scull_p_open: the buffer is allocated if there is none; the pointers are reset in any case,
        so that what a device that is already open had queued is gone. */
    method Open()
      requires Allocated()
      modifies this
      ensures Valid() && Contents() == [] && Free() == buffersize - 1
      ensures if old(buffer) == null then fresh(buffer) else buffer == old(buffer)
    {
      if buffer == null {
        buffer := new byte[buffersize];
      }
      rp, wp := 0, 0;
    }

    function Free(): int
      requires Valid()
      reads this, buffer
    {
      SpaceFree(buffersize, rp, wp)
    }

    lemma FreeIsRoom()
      requires Valid()
      ensures |Contents()| + Free() == buffersize - 1
      ensures Contents() == [] <==> rp == wp
    {
      QueuedPlusFree(buffer[..], rp, wp);
    }

    method Read(count: nat, nonblock: bool) returns (outcome: Outcome, out: seq<byte>)
      requires Valid()
      modifies this`rp
      ensures Valid()
      ensures old(Contents()) == [] ==> outcome == (if nonblock then EAgain else Sleeps) && out == [] && rp == old(rp)
      ensures old(Contents()) != [] ==>
                && outcome == Moved(|out|) && |out| <= count && (count > 0 ==> |out| > 0)
                && old(Contents()) == out + Contents()
                && |out| == Min(count, if old(rp) < wp then |old(Contents())| else buffersize - old(rp))
    {
      FreeIsRoom();
      if rp == wp {
        return if nonblock then EAgain else Sleeps, [];
      }
      ghost var bytes := buffer[..];
      QueueLength(bytes, rp, wp);
      hide Queue;
      var n: nat;
      if wp > rp {
        n := Min(count, wp - rp);
      } else {
        n := Min(count, buffersize - rp);
      }
      ReadStep(bytes, rp, wp, count, n);
      hide ReadChunk, Min, SpaceFree;
      out := buffer[rp..rp + n];
      rp := rp + n;
      if rp == buffersize {
        rp := 0;
      }
      outcome := Moved(n);
    }

    method Write(data: seq<byte>, nonblock: bool) returns (outcome: Outcome)
      requires Valid()
      modifies this`wp, buffer
      ensures Valid()
      ensures old(Free()) == 0 ==>
                outcome == (if nonblock then EAgain else Sleeps) && Contents() == old(Contents())
      ensures old(Free()) > 0 ==>
                && outcome.Moved? && outcome.n <= |data| && (|data| > 0 ==> outcome.n > 0)
                && Contents() == old(Contents()) + data[..outcome.n]
                && outcome.n ==
                   Min(Min(|data|, old(Free())), if old(wp) < rp then old(Free()) else buffersize - old(wp))
    {
      FreeIsRoom();
      var free := Free();
      if free == 0 {
        return if nonblock then EAgain else Sleeps;
      }
      WriteChunkFits(buffersize, rp, wp, |data|);
      SpaceFreeCases(buffersize, rp, wp);
      hide Queue, SpaceFree;
      ghost var before := buffer[..];
      var n := Min(|data|, free);
      if wp >= rp {
        n := Min(n, buffersize - wp);
      } else {
        n := Min(n, rp - wp - 1);
      }
      assert n == WriteChunk(buffersize, rp, wp, |data|);
      CopyFromUser(buffer, wp, data[..n]);
      WriteStep(before, buffer[..], rp, wp, data);
      wp := wp + n;
      if wp == buffersize {
        wp := 0;
      }
      outcome := Moved(n);
    }
  }
}
