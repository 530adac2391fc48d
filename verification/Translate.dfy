/** The translate devices of Aufgabe4_final: a ring of characters that the first
    device encodes on the way in and the second decodes on the way out. */
module Translate {
  import opened Bytes
  import opened Cipher

  /** The position i cells behind p in a ring of n cells. */
  function Cell(p: nat, i: nat, n: nat): (c: nat)
    requires p < n && i <= n
    ensures c < n
  {
    if p + i < n then p + i else p + i - n
  }

  lemma CellIsModulo(p: nat, i: nat, n: nat)
    requires p < n && i <= n
    ensures Cell(p, i, n) == (p + i) % n
  {
    if p + i >= n {
      Remainder(p + i - n, n);
    }
  }

  /** What device `minor` stores for a byte written to it, and hands out for a stored one. */
  function Stored(minor: nat, subst: seq<byte>, c: byte): (r: byte)
    requires IsSubst(subst)
    ensures if minor == 0 then Encodes(subst, c, r) else r == c
  {
    EncodesByPosition(subst, c);
    if minor == 0 then EncodeChar(subst, c) else c
  }

  function HandedOut(minor: nat, subst: seq<byte>, c: byte): (r: byte)
    requires IsSubst(subst)
    ensures if minor == 1 then Decodes(subst, c, r) else r == c
  {
    DecodesByPosition(subst, c);
    if minor == 1 then DecodeChar(subst, c) else c
  }

  function StoredAll(minor: nat, subst: seq<byte>, cs: seq<byte>): (r: seq<byte>)
    requires IsSubst(subst)
    ensures |r| == |cs|
  {
    seq(|cs|, i requires 0 <= i < |cs| => Stored(minor, subst, cs[i]))
  }

  function HandedOutAll(minor: nat, subst: seq<byte>, cs: seq<byte>): (r: seq<byte>)
    requires IsSubst(subst)
    ensures |r| == |cs|
  {
    seq(|cs|, i requires 0 <= i < |cs| => HandedOut(minor, subst, cs[i]))
  }

  /** The queue of a device after writing as much of data as fits. */
  function Written(minor: nat, subst: seq<byte>, bufsize: nat, queue: seq<byte>, data: seq<byte>): (r: seq<byte>)
    requires IsSubst(subst) && |queue| <= bufsize
    ensures |r| <= bufsize
  {
    queue + StoredAll(minor, subst, data[..Min(|data|, bufsize - |queue|)])
  }

  class TranslateDev {
    const minor: nat
    const subst: seq<byte>
    const bufsize: nat
    const buffer: array<byte>
    var items: nat
    var readPos: nat
    var writePos: nat

    ghost predicate Valid()
      reads this, buffer
    {
      && IsSubst(subst) && buffer.Length == bufsize >= 1
      && items <= bufsize && readPos < bufsize && writePos == Cell(readPos, items, bufsize)
    }

    ghost function Contents(): (q: seq<byte>)
      requires Valid()
      reads this, buffer
      ensures |q| == items
    {
      seq(items, i requires 0 <= i < items && buffer.Length == bufsize && readPos < bufsize && items <= bufsize
        reads this, buffer => buffer[Cell(readPos, i, bufsize)])
    }

    /** The part of translate_init that concerns one device. */
    constructor (minor: nat, subst: seq<byte>, bufsize: nat)
      requires IsSubst(subst) && bufsize >= 1
      ensures Valid() && fresh(buffer) && Contents() == []
      ensures this.minor == minor && this.subst == subst && this.bufsize == bufsize
    {
      this.minor, this.subst, this.bufsize := minor, subst, bufsize;
      buffer := new byte[bufsize];
      items, readPos, writePos := 0, 0, 0;
    }

    /** One round of the loop in translate_write. */
    method Put(c: byte)
      requires Valid() && items < bufsize
      modifies this`items, this`writePos, buffer
      ensures Valid() && items == old(items) + 1
      ensures Contents() == old(Contents()) + [Stored(minor, subst, c)]
      ensures var stored := Contents()[old(items)];
              if minor == 0 then Encodes(subst, c, stored) else stored == c
    {
      ghost var before := Contents();
      buffer[writePos] := c;
      if minor == 0 {
        buffer[writePos] := EncodeChar(subst, buffer[writePos]);
      }
      CellIsModulo(writePos, 1, bufsize);
      writePos := (writePos + 1) % bufsize;
      items := items + 1;
      forall i | 0 <= i < items ensures Contents()[i] == (before + [Stored(minor, subst, c)])[i] {
        if i < items - 1 {
          assert before[i] == old(buffer[Cell(readPos, i, bufsize)]);
        }
      }
    }

    /** One round of the loop in translate_read: the cell is decoded in place, then handed out. */
    method Take() returns (c: byte)
      requires Valid() && items > 0
      modifies this`items, this`readPos, buffer
      ensures Valid() && items == old(items) - 1
      ensures c == HandedOut(minor, subst, old(Contents())[0]) && Contents() == old(Contents())[1..]
      ensures if minor == 1 then Decodes(subst, old(Contents())[0], c) else c == old(Contents())[0]
    {
      ghost var before := Contents();
      assert before[0] == buffer[readPos];
      if minor == 1 {
        buffer[readPos] := DecodeChar(subst, buffer[readPos]);
      }
      c := buffer[readPos];
      CellIsModulo(readPos, 1, bufsize);
      readPos := (readPos + 1) % bufsize;
      items := items - 1;
      forall i | 0 <= i < items ensures Contents()[i] == before[1..][i] {
        assert before[i + 1] == old(buffer[Cell(readPos, i + 1, bufsize)]);
      }
    }

    /** translate_write: returns early when the buffer is full. */
    method Write(data: seq<byte>) returns (n: nat)
      requires Valid()
      modifies this`items, this`writePos, buffer
      ensures Valid() && n == Min(|data|, bufsize - old(items))
      ensures Contents() == Written(minor, subst, bufsize, old(Contents()), data)
      ensures items == old(items) + n && Contents()[..old(items)] == old(Contents())
      ensures forall i :: 0 <= i < n ==>
                var stored := Contents()[old(items) + i];
                if minor == 0 then Encodes(subst, data[i], stored) else stored == data[i]
    {
      n := 0;
      ghost var before := Contents();
      while n < |data|
        invariant Valid() && n <= |data| && items == |before| + n
        invariant Contents() == before + StoredAll(minor, subst, data[..n])
      {
        if items == bufsize {
          return;
        }
        StoredOneMore(minor, subst, data, n);
        Put(data[n]);
        n := n + 1;
      }
    }

    /** translate_read: returns early when the buffer is empty. */
    method Read(count: nat) returns (out: seq<byte>)
      requires Valid()
      modifies this`items, this`readPos, buffer
      ensures Valid() && |out| == Min(count, old(items))
      ensures out == HandedOutAll(minor, subst, old(Contents())[..|out|])
      ensures forall i :: 0 <= i < |out| ==>
                if minor == 1 then Decodes(subst, old(Contents())[i], out[i]) else out[i] == old(Contents())[i]
      ensures Contents() == old(Contents())[|out|..]
    {
      out := [];
      ghost var before := Contents();
      while |out| < count
        invariant Valid() && |out| <= count && items + |out| == |before|
        invariant out == HandedOutAll(minor, subst, before[..|out|])
        invariant Contents() == before[|out|..]
      {
        if items == 0 {
          return;
        }
        ghost var n := |out|;
        var c := Take();
        HandedOutOneMore(minor, subst, before, n);
        out := out + [c];
      }
    }
  }

  lemma StoredOneMore(minor: nat, subst: seq<byte>, data: seq<byte>, n: nat)
    requires IsSubst(subst) && n < |data|
    ensures StoredAll(minor, subst, data[..n + 1]) ==
            StoredAll(minor, subst, data[..n]) + [Stored(minor, subst, data[n])]
  {
  }

  lemma HandedOutOneMore(minor: nat, subst: seq<byte>, cs: seq<byte>, n: nat)
    requires IsSubst(subst) && n < |cs|
    ensures HandedOutAll(minor, subst, cs[..n + 1]) ==
            HandedOutAll(minor, subst, cs[..n]) + [HandedOut(minor, subst, cs[n])]
  {
  }
}

/** translate0 and translate1 in a row: bytes written to the first, carried over in pieces of
    any size, and read from the second. */
module TranslatePipeline {
  import opened Bytes
  import opened Cipher
  import opened Translate

  /** The two queues, the bytes in transit between them, and what went in and came out. */
  datatype Line = Line(queue0: seq<byte>, transit: seq<byte>, queue1: seq<byte>, accepted: seq<byte>, output: seq<byte>)

  datatype Call = Write0(data: seq<byte>) | Read0(count: nat) | Write1(count: nat) | Read1(count: nat)

  datatype Setup = Setup(subst: seq<byte>, bufsize0: nat, bufsize1: nat)

  ghost predicate Fits(k: Setup, l: Line) {
    IsSubst(k.subst) && |l.queue0| <= k.bufsize0 && |l.queue1| <= k.bufsize1
  }

  /** One call of a user process; Write1 offers the first bytes of what is in transit. */
  function Apply(k: Setup, l: Line, call: Call): (r: Line)
    requires Fits(k, l)
    ensures Fits(k, r)
  {
    match call
    case Write0(data) =>
      var n := Min(|data|, k.bufsize0 - |l.queue0|);
      l.(queue0 := Written(0, k.subst, k.bufsize0, l.queue0, data), accepted := l.accepted + data[..n])
    case Read0(count) =>
      var n := Min(count, |l.queue0|);
      l.(queue0 := l.queue0[n..], transit := l.transit + HandedOutAll(0, k.subst, l.queue0[..n]))
    case Write1(count) =>
      var data := l.transit[..Min(count, |l.transit|)];
      var n := Min(|data|, k.bufsize1 - |l.queue1|);
      l.(queue1 := Written(1, k.subst, k.bufsize1, l.queue1, data), transit := l.transit[n..])
    case Read1(count) =>
      var n := Min(count, |l.queue1|);
      l.(queue1 := l.queue1[n..], output := l.output + HandedOutAll(1, k.subst, l.queue1[..n]))
  }

  /** The calls on the line are those of the two devices. */
  method Perform(d0: TranslateDev, d1: TranslateDev, call: Call, ghost l: Line, transit: seq<byte>)
      returns (ghost r: Line, transit': seq<byte>, out: seq<byte>)
    requires d0.Valid() && d1.Valid() && d0 != d1 && d0.buffer != d1.buffer
    requires d0.minor == 0 && d1.minor == 1 && d0.subst == d1.subst
    requires l.queue0 == d0.Contents() && l.queue1 == d1.Contents() && l.transit == transit
    modifies d0, d0.buffer, d1, d1.buffer
    ensures d0.Valid() && d1.Valid()
    ensures r == Apply(Setup(d0.subst, d0.bufsize, d1.bufsize), l, call)
    ensures r.queue0 == d0.Contents() && r.queue1 == d1.Contents() && r.transit == transit'
    ensures r.output == l.output + out
  {
    r, transit', out := l, transit, [];
    match call
    case Write0(data) =>
      var n := d0.Write(data);
      r := l.(queue0 := d0.Contents(), accepted := l.accepted + data[..n]);
    case Read0(count) =>
      var bytes := d0.Read(count);
      transit' := transit + bytes;
      r := l.(queue0 := d0.Contents(), transit := transit');
    case Write1(count) =>
      var n := d1.Write(transit[..Min(count, |transit|)]);
      transit' := transit[n..];
      r := l.(queue1 := d1.Contents(), transit := transit');
    case Read1(count) =>
      out := d1.Read(count);
      r := l.(queue1 := d1.Contents(), output := l.output + out);
  }

  function Run(k: Setup, l: Line, calls: seq<Call>): (r: Line)
    requires Fits(k, l)
    ensures Fits(k, r)
    decreases |calls|
  {
    if calls == [] then l else Run(k, Apply(k, l, calls[0]), calls[1..])
  }

  ghost predicate NoNul(calls: seq<Call>) {
    forall i :: 0 <= i < |calls| && calls[i].Write0? ==> forall j :: 0 <= j < |calls[i].data| ==> calls[i].data[j] != 0
  }

  /** Everything accepted and not yet delivered, in order, still encoded. */
  function Under(l: Line): seq<byte> {
    l.queue1 + l.transit + l.queue0
  }

  /** What the two devices together make of some bytes. */
  function Through(subst: seq<byte>, data: seq<byte>): (r: seq<byte>)
    requires IsSubst(subst)
    ensures |r| == |data|
  {
    HandedOutAll(1, subst, StoredAll(0, subst, data))
  }

  ghost predicate Conserved(k: Setup, l: Line)
    requires IsSubst(k.subst)
  {
    Through(k.subst, l.accepted) == l.output + HandedOutAll(1, k.subst, Under(l))
  }

  lemma HandedOutAppend(subst: seq<byte>, a: seq<byte>, b: seq<byte>)
    requires IsSubst(subst)
    ensures HandedOutAll(1, subst, a + b) == HandedOutAll(1, subst, a) + HandedOutAll(1, subst, b)
  {
  }

  lemma ThroughAppend(subst: seq<byte>, a: seq<byte>, b: seq<byte>)
    requires IsSubst(subst)
    ensures Through(subst, a + b) == Through(subst, a) + HandedOutAll(1, subst, StoredAll(0, subst, b))
  {
    assert StoredAll(0, subst, a + b) == StoredAll(0, subst, a) + StoredAll(0, subst, b);
    hide StoredAll;
    HandedOutAppend(subst, StoredAll(0, subst, a), StoredAll(0, subst, b));
  }

  /** The inner devices hand bytes on unchanged. */
  lemma PassedOn(subst: seq<byte>, cs: seq<byte>)
    requires IsSubst(subst)
    ensures HandedOutAll(0, subst, cs) == cs && StoredAll(1, subst, cs) == cs
  {
  }

  lemma Write0Conserves(k: Setup, l: Line, data: seq<byte>)
    requires Fits(k, l) && Conserved(k, l)
    ensures Conserved(k, Apply(k, l, Write0(data)))
  {
    var r := Apply(k, l, Write0(data));
    var taken := data[..Min(|data|, k.bufsize0 - |l.queue0|)];
    var stored := StoredAll(0, k.subst, taken);
    assert Under(r) == Under(l) + stored;
    hide Under, Apply, HandedOutAll, StoredAll;
    ThroughAppend(k.subst, l.accepted, taken);
    HandedOutAppend(k.subst, Under(l), stored);
    hide Through;
    Assoc(l.output, HandedOutAll(1, k.subst, Under(l)), HandedOutAll(1, k.subst, stored));
  }

  lemma MoveConserves(k: Setup, l: Line, call: Call)
    requires Fits(k, l) && Conserved(k, l) && (call.Read0? || call.Write1?)
    ensures Conserved(k, Apply(k, l, call))
  {
    hide Through;
    if call.Read0? {
      PassedOn(k.subst, l.queue0[..Min(call.count, |l.queue0|)]);
    } else {
      var data := l.transit[..Min(call.count, |l.transit|)];
      PassedOn(k.subst, data[..Min(|data|, k.bufsize1 - |l.queue1|)]);
    }
    assert Under(Apply(k, l, call)) == Under(l);
  }

  lemma Read1Conserves(k: Setup, l: Line, count: nat)
    requires Fits(k, l) && Conserved(k, l)
    ensures Conserved(k, Apply(k, l, Read1(count)))
  {
    var r := Apply(k, l, Read1(count));
    var taken := l.queue1[..Min(count, |l.queue1|)];
    assert Under(l) == taken + Under(r);
    hide Under, Apply, HandedOutAll, Through;
    HandedOutAppend(k.subst, taken, Under(r));
    Assoc(l.output, HandedOutAll(1, k.subst, taken), HandedOutAll(1, k.subst, Under(r)));
  }

  /** Whatever the parameter and the bytes. */
  lemma CallConserves(k: Setup, l: Line, call: Call)
    requires Fits(k, l) && Conserved(k, l)
    ensures Conserved(k, Apply(k, l, call))
  {
    hide *;
    match call
    case Write0(data) => Write0Conserves(k, l, data);
    case Read1(count) => Read1Conserves(k, l, count);
    case _ => MoveConserves(k, l, call);
  }

  lemma {:induction false} RunConserves(k: Setup, l: Line, calls: seq<Call>)
    requires Fits(k, l) && Conserved(k, l)
    ensures Conserved(k, Run(k, l, calls))
    decreases |calls|
  {
    if calls != [] {
      CallConserves(k, l, calls[0]);
      RunConserves(k, Apply(k, l, calls[0]), calls[1..]);
    }
  }

  /** Main theorem, for every parameter of 52 characters and all bytes: what is read from translate1
      is always a prefix of what the two devices make of the bytes that translate0 accepted, and the
      rest is what the devices and the carrier still hold. */
  lemma PipelineDelivers(k: Setup, calls: seq<Call>)
    requires IsSubst(k.subst)
    ensures var l := Run(k, Line([], [], [], [], []), calls);
            && l.output <= Through(k.subst, l.accepted)
            && |l.accepted| - |l.output| == |l.queue0| + |l.transit| + |l.queue1|
            && |l.queue0| <= k.bufsize0 && |l.queue1| <= k.bufsize1
  {
    RunConserves(k, Line([], [], [], [], []), calls);
  }

  /** With 52 distinct letters the two devices cancel, exactly on what holds no NUL. */
  lemma ThroughCancels(subst: seq<byte>, data: seq<byte>)
    requires IsSubst(subst) && DistinctLetters(subst)
    ensures Through(subst, data) == data <==> forall j :: 0 <= j < |data| ==> data[j] != 0
  {
    forall j | 0 <= j < |data| ensures Through(subst, data)[j] == data[j] <==> data[j] != 0 {
      RoundTrip(subst, data[j]);
    }
  }

  /** Hence, with 52 distinct letters, the bytes delivered are the first ones accepted exactly
      if no NUL is among those. */
  lemma PipelineRestores(k: Setup, calls: seq<Call>)
    requires IsSubst(k.subst) && DistinctLetters(k.subst)
    ensures var l := Run(k, Line([], [], [], [], []), calls);
            && |l.output| <= |l.accepted|
            && (l.output <= l.accepted <==> forall j :: 0 <= j < |l.output| ==> l.accepted[j] != 0)
            && (NoNul(calls) ==> l.output <= l.accepted)
  {
    PipelineDelivers(k, calls);
    var l := Run(k, Line([], [], [], [], []), calls);
    if NoNul(calls) { AcceptedNoNul(k, Line([], [], [], [], []), calls); }
    hide Run;
    var first := l.accepted[..|l.output|];
    assert l.accepted == first + l.accepted[|l.output|..];
    ThroughAppend(k.subst, first, l.accepted[|l.output|..]);
    assert l.output == Through(k.subst, first);
    ThroughCancels(k.subst, first);
  }

  lemma {:induction false} AcceptedNoNul(k: Setup, l: Line, calls: seq<Call>)
    requires Fits(k, l) && NoNul(calls) && forall j :: 0 <= j < |l.accepted| ==> l.accepted[j] != 0
    ensures forall j :: 0 <= j < |Run(k, l, calls).accepted| ==> Run(k, l, calls).accepted[j] != 0
    decreases |calls|
  {
    if calls != [] {
      hide StoredAll, HandedOutAll;
      AcceptedNoNul(k, Apply(k, l, calls[0]), calls[1..]);
    }
  }
}
