/** The translate device of Aufgabe4/vorlauf under concurrency: one writer and
    one reader, two counting semaphores, every interleaving of their steps. */
module BoundedBuffer {
  import opened Bytes
  import opened Cipher
  import opened Translate

  /** Steps of translate_write; `rest` is what the caller still wants written. */
  datatype WriterPc =
    | WIdle
    | WDown(rest: seq<byte>, first: bool)  // about to take a free slot
    | WCopy(rest: seq<byte>)     // holding a slot, copying rest[0] into it
    | WEncode(rest: seq<byte>)   // encoding the cell in place
    | WAdvance(rest: seq<byte>)  // moving the write pointer on
    | WUp(rest: seq<byte>)       // about to announce the item

  /** Steps of translate_read; `want` more bytes are asked for. */
  datatype ReaderPc =
    | RIdle
    | RDown(want: nat, first: bool)
    | RDecode(want: nat)   // holding an item, decoding the cell in place
    | RCopy(want: nat)     // handing the cell to the caller
    | RAdvance(want: nat)
    | RUp(want: nat)

  datatype State = State(
    buffer: seq<byte>, readPos: nat, writePos: nat,
    freeBufferSpace: nat, itemsInBuffer: nat,
    writer: WriterPc, reader: ReaderPc,
    accepted: seq<byte>, delivered: seq<byte>)

  datatype Setup = Setup(minor: nat, subst: seq<byte>, bufsize: nat)

  ghost predicate Proper(k: Setup) {
    IsSubst(k.subst) && k.bufsize >= 1
  }

  ghost predicate Init(k: Setup, s: State) {
    && |s.buffer| == k.bufsize && s.readPos == 0 && s.writePos == 0
    && s.freeBufferSpace == k.bufsize && s.itemsInBuffer == 0
    && s.writer == WIdle && s.reader == RIdle && s.accepted == [] && s.delivered == []
  }

  // ----- steps -----

  /** A step of the writer.  The first slot of a call is waited for (or a signal ends the
      call); further slots are only tried for, and the call returns when there is none. */
  ghost predicate WriterStep(k: Setup, s: State, s': State)
    requires Proper(k) && |s.buffer| == k.bufsize && s.writePos < k.bufsize
  {
    match s.writer
    case WIdle => s'.writer.WDown? && s'.writer.first && s' == s.(writer := s'.writer)
    case WDown(rest, first) =>
      if rest == [] then s' == s.(writer := WIdle)
      else if s.freeBufferSpace > 0 then
        s' == s.(writer := WCopy(rest), freeBufferSpace := s.freeBufferSpace - 1) ||
        (first && s' == s.(writer := WIdle))
      else s' == s.(writer := WIdle)
    case WCopy(rest) => rest != [] && s' == s.(writer := WEncode(rest), buffer := s.buffer[s.writePos := rest[0]])
    case WEncode(rest) =>
      s' == s.(writer := WAdvance(rest),
               buffer := if k.minor == 0 then s.buffer[s.writePos := Encode(k.subst, s.buffer[s.writePos])]
                         else s.buffer)
    case WAdvance(rest) =>
      && rest != []
      && s' == s.(writer := WUp(rest), writePos := (s.writePos + 1) % k.bufsize, accepted := s.accepted + [rest[0]])
    case WUp(rest) =>
      rest != [] && s' == s.(writer := WDown(rest[1..], false), itemsInBuffer := s.itemsInBuffer + 1)
  }

  ghost predicate ReaderStep(k: Setup, s: State, s': State)
    requires Proper(k) && |s.buffer| == k.bufsize && s.readPos < k.bufsize
  {
    match s.reader
    case RIdle => s'.reader.RDown? && s'.reader.first && s' == s.(reader := s'.reader)
    case RDown(want, first) =>
      if want == 0 then s' == s.(reader := RIdle)
      else if s.itemsInBuffer > 0 then
        s' == s.(reader := RDecode(want), itemsInBuffer := s.itemsInBuffer - 1) ||
        (first && s' == s.(reader := RIdle))
      else s' == s.(reader := RIdle)
    case RDecode(want) =>
      s' == s.(reader := RCopy(want),
               buffer := if k.minor == 1 then s.buffer[s.readPos := Decode(k.subst, s.buffer[s.readPos])] else s.buffer)
    case RCopy(want) => s' == s.(reader := RAdvance(want), delivered := s.delivered + [s.buffer[s.readPos]])
    case RAdvance(want) => s' == s.(reader := RUp(want), readPos := (s.readPos + 1) % k.bufsize)
    case RUp(want) => want > 0 && s' == s.(reader := RDown(want - 1, false), freeBufferSpace := s.freeBufferSpace + 1)
  }

  // ----- the invariant -----

  ghost predicate HoldsSlot(w: WriterPc) { w.WCopy? || w.WEncode? || w.WAdvance? || w.WUp? }

  ghost predicate HoldsItem(r: ReaderPc) { r.RDecode? || r.RCopy? || r.RAdvance? || r.RUp? }

  /** Free slots, announced items, the slot the writer holds and the item the reader holds. */
  ghost predicate Tokens(k: Setup, s: State) {
    s.freeBufferSpace + s.itemsInBuffer +
    (if HoldsSlot(s.writer) then 1 else 0) + (if HoldsItem(s.reader) then 1 else 0) == k.bufsize
  }

  /** How many cells from the read pointer on hold a byte that was written and not yet passed. */
  ghost function Occupied(s: State): nat {
    s.itemsInBuffer + (if s.writer.WUp? then 1 else 0) +
    (if s.reader.RDecode? || s.reader.RCopy? || s.reader.RAdvance? then 1 else 0)
  }

  /** How many bytes were written and not yet handed out. */
  ghost function Backlog(s: State): int {
    Occupied(s) - (if s.reader.RAdvance? then 1 else 0)
  }

  /** What a device stores for a byte, and hands out for a stored one, in this version. */
  function In(k: Setup, c: byte): byte {
    if k.minor == 0 then Encode(k.subst, c) else c
  }

  function Out(k: Setup, c: byte): byte
    requires IsSubst(k.subst)
  {
    if k.minor == 1 then Decode(k.subst, c) else c
  }

  /** The i-th occupied cell holds the byte with the matching number, encoded; the one under
      the reader's hands may be decoded already. */
  ghost predicate CellOk(k: Setup, s: State, i: nat)
    requires Proper(k) && |s.buffer| == k.bufsize && s.readPos < k.bufsize && i <= k.bufsize
  {
    var number := |s.delivered| + i - (if s.reader.RAdvance? then 1 else 0);
    var stored := s.buffer[Cell(s.readPos, i, k.bufsize)];
    && 0 <= number < |s.accepted|
    && if i == 0 && s.reader.RAdvance? then true
       else if i == 0 && s.reader.RCopy? then stored == Out(k, In(k, s.accepted[number]))
       else stored == In(k, s.accepted[number])
  }

  ghost predicate Delivered(k: Setup, s: State)
    requires Proper(k)
  {
    && |s.delivered| <= |s.accepted|
    && forall i :: 0 <= i < |s.delivered| ==> s.delivered[i] == Out(k, In(k, s.accepted[i]))
  }

  /** The cell the writer is working on. */
  ghost predicate WriterOk(k: Setup, s: State)
    requires Proper(k) && |s.buffer| == k.bufsize && s.writePos < k.bufsize
  {
    && (HoldsSlot(s.writer) ==> s.writer.rest != [])
    && (s.writer.WEncode? ==> s.buffer[s.writePos] == s.writer.rest[0])
    && (s.writer.WAdvance? ==> s.buffer[s.writePos] == In(k, s.writer.rest[0]))
  }

  /** Everything but the cells: counts, pointers and what was delivered. */
  ghost predicate Counts(k: Setup, s: State) {
    && Proper(k) && |s.buffer| == k.bufsize
    && Tokens(k, s)
    && s.readPos < k.bufsize && s.writePos == Cell(s.readPos, Occupied(s), k.bufsize)
    && (HoldsItem(s.reader) ==> s.reader.want > 0)
    && WriterOk(k, s)
    && |s.accepted| == |s.delivered| + Backlog(s)
  }

  ghost predicate Inv(k: Setup, s: State) {
    && Counts(k, s)
    && Delivered(k, s)
    && forall i :: 0 <= i < Occupied(s) ==> CellOk(k, s, i)
  }

  // ----- every step keeps the invariant -----

  lemma WriterCounts(k: Setup, s: State, s': State)
    requires Counts(k, s) && WriterStep(k, s, s')
    ensures Counts(k, s')
  {
    hide Encode, Decode;
    CellIsModulo(s.writePos, 1, k.bufsize);
  }

  lemma WriterCell(k: Setup, s: State, s': State, i: nat)
    requires Counts(k, s) && WriterStep(k, s, s') && Counts(k, s') && i < Occupied(s')
    requires i < Occupied(s) ==> CellOk(k, s, i)
    ensures CellOk(k, s', i)
  {
    hide Encode, Decode;
  }

  lemma WriterDelivers(k: Setup, s: State, s': State)
    requires Counts(k, s) && WriterStep(k, s, s') && Delivered(k, s)
    ensures Delivered(k, s')
  {
    hide Encode, Decode;
  }

  lemma WriterKeeps(k: Setup, s: State, s': State)
    requires Inv(k, s) && WriterStep(k, s, s')
    ensures Inv(k, s')
  {
    WriterCounts(k, s, s');
    WriterDelivers(k, s, s');
    hide WriterStep, CellOk, Delivered, Tokens, Occupied, Backlog, WriterOk;
    forall i | 0 <= i < Occupied(s') ensures CellOk(k, s', i) {
      WriterCell(k, s, s', i);
    }
  }

  lemma ReaderCounts(k: Setup, s: State, s': State)
    requires Counts(k, s) && ReaderStep(k, s, s') && (Occupied(s) > 0 ==> CellOk(k, s, 0))
    ensures Counts(k, s')
  {
    hide Encode, Decode;
    CellIsModulo(s.readPos, 1, k.bufsize);
  }

  lemma ReaderCell(k: Setup, s: State, s': State, i: nat)
    requires Counts(k, s) && ReaderStep(k, s, s') && Counts(k, s') && i < Occupied(s')
    requires forall j :: 0 <= j < Occupied(s) ==> CellOk(k, s, j)
    ensures CellOk(k, s', i)
  {
    hide Encode, Decode, WriterOk;
    CellIsModulo(s.readPos, 1, k.bufsize);
    assert CellOk(k, s, if s.reader.RAdvance? then i + 1 else i);
  }

  lemma ReaderDelivers(k: Setup, s: State, s': State)
    requires Counts(k, s) && ReaderStep(k, s, s') && Delivered(k, s) && (Occupied(s) > 0 ==> CellOk(k, s, 0))
    ensures Delivered(k, s')
  {
    hide Encode, Decode, WriterOk;
  }

  lemma ReaderKeeps(k: Setup, s: State, s': State)
    requires Inv(k, s) && ReaderStep(k, s, s')
    ensures Inv(k, s')
  {
    ReaderCounts(k, s, s');
    ReaderDelivers(k, s, s');
    hide ReaderStep, CellOk, Delivered, Tokens, Occupied, Backlog, WriterOk;
    forall i | 0 <= i < Occupied(s') ensures CellOk(k, s', i) {
      ReaderCell(k, s, s', i);
    }
  }

  // ----- whole behaviours -----

  ghost predicate Behaviour(k: Setup, states: seq<State>) {
    && Proper(k) && |states| >= 1 && Init(k, states[0])
    && forall i :: 0 <= i < |states| - 1 ==> Moves(k, states[i], states[i + 1])
  }

  ghost predicate Moves(k: Setup, s: State, s': State) {
    && Proper(k) && |s.buffer| == k.bufsize && s.readPos < k.bufsize && s.writePos < k.bufsize
    && (WriterStep(k, s, s') || ReaderStep(k, s, s'))
  }

  lemma InitInv(k: Setup, s: State)
    requires Proper(k) && Init(k, s)
    ensures Inv(k, s)
  {
  }

  lemma {:induction false} BehaviourSafe(k: Setup, states: seq<State>, i: nat)
    requires Behaviour(k, states) && i < |states|
    ensures Inv(k, states[i])
    decreases i
  {
    hide Inv, WriterStep, ReaderStep, Init;
    if i == 0 {
      InitInv(k, states[0]);
    } else {
      BehaviourSafe(k, states, i - 1);
      assert Moves(k, states[i - 1], states[i]);
      if WriterStep(k, states[i - 1], states[i]) {
        WriterKeeps(k, states[i - 1], states[i]);
      } else {
        ReaderKeeps(k, states[i - 1], states[i]);
      }
    }
  }

  /** Main theorem: in every interleaving the tokens add up to the buffer size, and the bytes
      delivered are the bytes accepted, in order, each encoded and decoded as the device does. */
  lemma BoundedBufferWorks(k: Setup, states: seq<State>, i: nat)
    requires Behaviour(k, states) && i < |states|
    ensures Tokens(k, states[i])
    ensures |states[i].delivered| <= |states[i].accepted| <= |states[i].delivered| + k.bufsize
    ensures forall j :: 0 <= j < |states[i].delivered| ==>
              states[i].delivered[j] == Out(k, In(k, states[i].accepted[j]))
    ensures forall j :: 0 <= j < |states[i].delivered| ==>
              Translated(k, states[i].accepted[j], states[i].delivered[j])
  {
    BehaviourSafe(k, states, i);
    forall c: byte ensures Translated(k, c, Out(k, In(k, c))) {
      EndsByPosition(k, c);
    }
  }

  /** What a device makes of a byte, in terms of the positions in the parameter: translate0 encodes,
      translate1 decodes, any other device hands it on. */
  ghost predicate Translated(k: Setup, c: byte, r: byte)
    requires Proper(k)
  {
    if k.minor == 0 then Encodes(k.subst, c, r) else if k.minor == 1 then Decodes(k.subst, c, r) else r == c
  }

  /** Encoding happens on the way in, decoding on the way out. */
  lemma EndsByPosition(k: Setup, c: byte)
    requires Proper(k)
    ensures if k.minor == 0 then Encodes(k.subst, c, In(k, c)) else In(k, c) == c
    ensures if k.minor == 1 then Decodes(k.subst, c, Out(k, c)) else Out(k, c) == c
  {
    VersionsAgree(k.subst, c);
    EncodesByPosition(k.subst, c);
    DecodesByPosition(k.subst, c);
  }

  /** The reader and the writer never work on the same cell. */
  lemma NeverTheSameCell(k: Setup, states: seq<State>, i: nat)
    requires Behaviour(k, states) && i < |states|
    requires states[i].writer.WCopy? || states[i].writer.WEncode? || states[i].writer.WAdvance?
    requires states[i].reader.RDecode? || states[i].reader.RCopy? || states[i].reader.RAdvance?
    ensures states[i].readPos != states[i].writePos
  {
    BehaviourSafe(k, states, i);
  }

  /** The reader never starts on a byte before the writer has encoded it. */
  lemma ReaderSeesEncoded(k: Setup, states: seq<State>, i: nat)
    requires Behaviour(k, states) && i < |states| && states[i].reader.RDecode?
    ensures var s := states[i];
            && |s.delivered| < |s.accepted| && s.readPos < |s.buffer|
            && s.buffer[s.readPos] == In(k, s.accepted[|s.delivered|])
  {
    BehaviourSafe(k, states, i);
    assert CellOk(k, states[i], 0);
  }

  /** The two sides never wait for each other. */
  lemma NotBothBlocked(k: Setup, states: seq<State>, i: nat)
    requires Behaviour(k, states) && i < |states| && states[i].writer.WDown? && states[i].reader.RDown?
    ensures states[i].freeBufferSpace > 0 || states[i].itemsInBuffer > 0
  {
    BehaviourSafe(k, states, i);
  }

  /** translate0 read directly hands out the encoded bytes, translate1 the decoded ones; with a
      cipher of 52 distinct letters the two cancel, except on NUL. */
  lemma EndsCancel(k0: Setup, k1: Setup, c: byte)
    requires Proper(k0) && k0.minor == 0 && k1.minor == 1 && k1.subst == k0.subst
    requires DistinctLetters(k0.subst)
    ensures Out(k1, In(k1, Out(k0, In(k0, c)))) == c <==> c != 0
  {
    VersionsAgree(k0.subst, c);
    VersionsAgree(k0.subst, EncodeChar(k0.subst, c));
    RoundTrip(k0.subst, c);
  }
}
