/** The scull device as a value: rows of blocks that grow on demand, and the
    sparse byte file that they stand for. */
module ScullStore {
  import opened Bytes

  /** One quantum: not allocated yet, or `quantum` bytes. */
  datatype Block = Hole | Data(bytes: seq<byte>)

  /** rows[item][s_pos] is one quantum; the list has one row per quantum set. */
  datatype Store = Store(quantum: nat, qset: nat, rows: seq<seq<Block>>, size: nat)

  ghost predicate Sound(st: Store) {
    && st.quantum >= 1 && st.qset >= 1
    && forall i :: 0 <= i < |st.rows| ==> RowSound(st, st.rows[i])
  }

  ghost predicate RowSound(st: Store, row: seq<Block>) {
    |row| == st.qset && forall s :: 0 <= s < |row| && row[s].Data? ==> |row[s].bytes| == st.quantum
  }

  // ----- addressing -----

  /** Where the byte at a position lives: list item, quantum in the set, offset in the quantum. */
  datatype Place = Place(item: nat, sPos: nat, qPos: nat)

  function ItemSize(quantum: nat, qset: nat): (n: nat)
    requires quantum >= 1 && qset >= 1
    ensures n >= 1 && n == quantum * qset
  {
    Positive(quantum, qset);
    quantum * qset
  }

  lemma Positive(a: nat, b: nat)
    requires a >= 1 && b >= 1
    ensures a * b >= 1
  {
    assert a * b == a + a * (b - 1);
    assert a * (b - 1) >= 0;
  }

  /** The divisions and remainders of scull_read and scull_write. */
  function Locate(pos: nat, quantum: nat, qset: nat): (p: Place)
    requires quantum >= 1 && qset >= 1
    ensures p.sPos < qset && p.qPos < quantum
  {
    var itemsize := ItemSize(quantum, qset);
    var rest := Remainder(pos, itemsize);
    QuotientBelow(rest, quantum, qset);
    Place(pos / itemsize, rest / quantum, Remainder(rest, quantum))
  }

  function Remainder(a: nat, b: nat): (r: nat)
    requires b >= 1
    ensures r < b && a == (a / b) * b + r
  {
    a % b
  }

  lemma QuotientBelow(a: nat, b: nat, c: nat)
    requires b >= 1 && a < b * c
    ensures a / b < c
  {
    var q := a / b;
    assert q * b <= a;
    if q >= c {
      Monotone(c, q, b);
    }
  }

  lemma Monotone(a: nat, b: nat, c: nat)
    requires a <= b
    ensures a * c <= b * c
  {
    assert b * c == a * c + (b - a) * c;
  }

  /** The position of a place. */
  function Position(p: Place, quantum: nat, qset: nat): nat {
    p.item * (quantum * qset) + p.sPos * quantum + p.qPos
  }

  /** Locate loses nothing: different positions live at different places. */
  lemma PositionOfLocate(pos: nat, quantum: nat, qset: nat)
    requires quantum >= 1 && qset >= 1
    ensures Position(Locate(pos, quantum, qset), quantum, qset) == pos
  {
    var itemsize := ItemSize(quantum, qset);
    var rest := Remainder(pos, itemsize);
    assert rest == (rest / quantum) * quantum + Remainder(rest, quantum);
  }

  lemma DivMod(a: nat, b: nat, q: nat, r: nat)
    requires b >= 1 && r < b && a == q * b + r
    ensures a / b == q && a % b == r
  {
    var q', r' := a / b, a % b;
    assert q' * b + r' == q * b + r;
    OneMore(q, q', b);
    OneMore(q', q, b);
  }

  lemma OneMore(a: nat, b: nat, c: nat)
    ensures a < b ==> a * c + c <= b * c
  {
    if a < b {
      Monotone(a + 1, b, c);
      assert (a + 1) * c == a * c + c;
    }
  }

  /** Every place is the place of its position. */
  lemma LocateOfPosition(p: Place, quantum: nat, qset: nat)
    requires quantum >= 1 && qset >= 1 && p.sPos < qset && p.qPos < quantum
    ensures Locate(Position(p, quantum, qset), quantum, qset) == p
  {
    var itemsize := ItemSize(quantum, qset);
    var rest := p.sPos * quantum + p.qPos;
    Monotone(p.sPos + 1, qset, quantum);
    assert (p.sPos + 1) * quantum == p.sPos * quantum + quantum;
    assert qset * quantum == itemsize;
    DivMod(Position(p, quantum, qset), itemsize, p.item, rest);
    DivMod(rest, quantum, p.sPos, p.qPos);
  }

  /** Positions inside one quantum share their block, at consecutive offsets. */
  lemma SameQuantum(pos: nat, k: nat, quantum: nat, qset: nat)
    requires quantum >= 1 && qset >= 1 && Locate(pos, quantum, qset).qPos + k < quantum
    ensures var p := Locate(pos, quantum, qset); Locate(pos + k, quantum, qset) == p.(qPos := p.qPos + k)
  {
    var p := Locate(pos, quantum, qset);
    PositionOfLocate(pos, quantum, qset);
    LocateOfPosition(p.(qPos := p.qPos + k), quantum, qset);
  }

  /** The offset in the quantum does not depend on the list. */
  lemma OffsetInQuantum(pos: nat, quantum: nat, qset: nat)
    requires quantum >= 1 && qset >= 1
    ensures Locate(pos, quantum, qset).qPos == pos % quantum
  {
    var p := Locate(pos, quantum, qset);
    PositionOfLocate(pos, quantum, qset);
    Regroup(p.item, p.sPos, quantum, qset);
    hide Locate;
    DivMod(pos, quantum, p.item * qset + p.sPos, p.qPos);
  }

  lemma Regroup(item: nat, sPos: nat, quantum: nat, qset: nat)
    ensures item * (quantum * qset) + sPos * quantum == (item * qset + sPos) * quantum
  {
    assert item * (quantum * qset) == (item * qset) * quantum;
  }

  /** A position that shares the block of pos is its offset away from pos. */
  lemma InBlock(pos: nat, other: nat, quantum: nat, qset: nat)
    requires quantum >= 1 && qset >= 1
    requires var p, o := Locate(pos, quantum, qset), Locate(other, quantum, qset); p.item == o.item && p.sPos == o.sPos
    ensures other - pos == Locate(other, quantum, qset).qPos - Locate(pos, quantum, qset).qPos
  {
    PositionOfLocate(pos, quantum, qset);
    PositionOfLocate(other, quantum, qset);
  }

  // ----- the sparse byte file -----

  datatype Cell = Absent | Byte(value: byte)

  function BlockAt(st: Store, item: nat, sPos: nat): (b: Block)
    requires Sound(st) && sPos < st.qset
    ensures b.Data? ==> |b.bytes| == st.quantum
  {
    if item < |st.rows| then
      assert RowSound(st, st.rows[item]);
      st.rows[item][sPos]
    else Hole
  }

  /** The byte at a position: absent as long as its quantum is not allocated. */
  function At(st: Store, pos: nat): Cell
    requires Sound(st)
  {
    var p := Locate(pos, st.quantum, st.qset);
    var b := BlockAt(st, p.item, p.sPos);
    if b.Hole? then Absent else Byte(b.bytes[p.qPos])
  }

  // ----- the operations -----

  function EmptyRow(qset: nat): (row: seq<Block>)
    ensures |row| == qset
  {
    seq(qset, s => Hole)
  }

  function WithEmptyRow(st: Store): (r: Store)
    requires Sound(st)
    ensures Sound(r) && r.quantum == st.quantum && r.qset == st.qset && r.size == st.size && |r.rows| == |st.rows| + 1
    ensures forall i: nat, s: nat :: s < st.qset ==> BlockAt(r, i, s) == BlockAt(st, i, s)
  {
    st.(rows := st.rows + [EmptyRow(st.qset)])
  }

  /** scull_follow: the list is extended by empty quantum sets up to item n. */
  function Follow(st: Store, n: nat): (r: Store)
    requires Sound(st)
    ensures Sound(r) && r.quantum == st.quantum && r.qset == st.qset && r.size == st.size
    ensures |r.rows| > n && |r.rows| >= |st.rows|
    decreases n - |st.rows|
  {
    if n < |st.rows| then st else Follow(WithEmptyRow(st), n)
  }

  /** No further than that: the list grows to n + 1 items, or stays as it is. */
  lemma {:induction false} FollowExtends(st: Store, n: nat)
    requires Sound(st)
    ensures |Follow(st, n).rows| == Max(|st.rows|, n + 1) && st.rows <= Follow(st, n).rows
    ensures forall i :: |st.rows| <= i <= n ==> Follow(st, n).rows[i] == EmptyRow(st.qset)
    decreases n - |st.rows|
  {
    if n >= |st.rows| {
      var st1 := WithEmptyRow(st);
      FollowExtends(st1, n);
      assert st1.rows <= Follow(st, n).rows;
      assert Follow(st, n).rows[|st.rows|] == st1.rows[|st.rows|];
    }
  }

  function Max(a: nat, b: nat): nat {
    if a < b then b else a
  }

  lemma {:induction false} FollowUnseen(st: Store, n: nat, pos: nat)
    requires Sound(st)
    ensures At(Follow(st, n), pos) == At(st, pos)
    decreases n - |st.rows|
  {
    if n >= |st.rows| {
      FollowUnseen(WithEmptyRow(st), n, pos);
    }
  }

  function WithBlock(st: Store, item: nat, sPos: nat, b: Block): (r: Store)
    requires Sound(st) && item < |st.rows| && sPos < st.qset && (b.Data? ==> |b.bytes| == st.quantum)
    ensures Sound(r) && r.quantum == st.quantum && r.qset == st.qset && r.size == st.size && |r.rows| == |st.rows|
    ensures forall i: nat, s: nat :: s < st.qset ==>
              BlockAt(r, i, s) == if i == item && s == sPos then b else BlockAt(st, i, s)
  {
    assert RowSound(st, st.rows[item]);
    var row := st.rows[item][sPos := b];
    assert RowSound(st, row);
    var r := st.(rows := st.rows[item := row]);
    assert forall i :: 0 <= i < |r.rows| ==> RowSound(st, r.rows[i]) by {
      assert forall i :: 0 <= i < |st.rows| ==> RowSound(st, st.rows[i]);
    }
    r
  }

  lemma WithBlockTwice(st: Store, item: nat, sPos: nat, b: Block, c: Block)
    requires Sound(st) && item < |st.rows| && sPos < st.qset
    requires (b.Data? ==> |b.bytes| == st.quantum) && (c.Data? ==> |c.bytes| == st.quantum)
    ensures WithBlock(WithBlock(st, item, sPos, b), item, sPos, c) == WithBlock(st, item, sPos, c)
  {
    assert RowSound(st, st.rows[item]);
    assert st.rows[item][sPos := b][sPos := c] == st.rows[item][sPos := c];
    var row, row' := st.rows[item][sPos := b], st.rows[item][sPos := c];
    assert st.rows[item := row][item := row'] == st.rows[item := row'];
  }

  /** Stores that agree on every block are equal. */
  lemma SameBlocks(st: Store, r: Store)
    requires Sound(st) && Sound(r)
    requires st.quantum == r.quantum && st.qset == r.qset && st.size == r.size && |st.rows| == |r.rows|
    requires forall i, s :: 0 <= i < |st.rows| && 0 <= s < st.qset ==> BlockAt(st, i, s) == BlockAt(r, i, s)
    ensures st == r
  {
    forall i | 0 <= i < |st.rows| ensures st.rows[i] == r.rows[i] {
      assert RowSound(st, st.rows[i]) && RowSound(r, r.rows[i]);
      forall s | 0 <= s < st.qset ensures st.rows[i][s] == r.rows[i][s] {
        assert BlockAt(st, i, s) == BlockAt(r, i, s);
      }
    }
  }

  /** How many bytes one call moves: never past the end of the quantum. */
  function WriteChunk(st: Store, pos: nat, count: nat): nat
    requires Sound(st)
  {
    Min(count, st.quantum - Locate(pos, st.quantum, st.qset).qPos)
  }

  /** The store after `bytes` went into one quantum, which is allocated on the way if need be. */
  function Filled(st: Store, p: Place, bytes: seq<byte>, garbage: seq<byte>): (r: Store)
    requires Sound(st) && |garbage| == st.quantum && p.sPos < st.qset && p.qPos + |bytes| <= st.quantum
    ensures Sound(r) && r.quantum == st.quantum && r.qset == st.qset && r.size == st.size
  {
    var st1 := Follow(st, p.item);
    var b := BlockAt(st1, p.item, p.sPos);
    var before := if b.Hole? then garbage else b.bytes;
    WithBlock(st1, p.item, p.sPos, Data(before[..p.qPos] + bytes + before[p.qPos + |bytes|..]))
  }

  /** scull_write.  A new quantum is not cleared: `garbage` is what the allocator left in it. */
  function Write(st: Store, pos: nat, data: seq<byte>, garbage: seq<byte>): (r: Store)
    requires Sound(st) && |garbage| == st.quantum
    ensures Sound(r) && r.quantum == st.quantum && r.qset == st.qset
  {
    var p := Locate(pos, st.quantum, st.qset);
    var n := WriteChunk(st, pos, |data|);
    Filled(st, p, data[..n], garbage).(size := if st.size < pos + n then pos + n else st.size)
  }

  /** How many bytes scull_read returns. */
  function ReadCount(st: Store, pos: nat, count: nat): nat
    requires Sound(st)
  {
    if pos >= st.size || At(st, pos).Absent? then 0
    else WriteChunk(st, pos, Min(count, st.size - pos))
  }

  /** scull_read: nothing beyond the end of the file, nothing out of a hole. */
  function Read(st: Store, pos: nat, count: nat): (out: seq<byte>)
    requires Sound(st)
    ensures |out| == ReadCount(st, pos, count) && |out| <= count
  {
    var p := Locate(pos, st.quantum, st.qset);
    var b := BlockAt(st, p.item, p.sPos);
    if ReadCount(st, pos, count) == 0 then [] else b.bytes[p.qPos..p.qPos + ReadCount(st, pos, count)]
  }

  /** The state after scull_read: a read inside the file follows, and so extends, the list. */
  function AfterRead(st: Store, pos: nat): (r: Store)
    requires Sound(st)
    ensures Sound(r)
  {
    if pos >= st.size then st else Follow(st, Locate(pos, st.quantum, st.qset).item)
  }

  // ----- the operations refine the sparse byte file -----

  /** A write changes exactly the positions it covers.  Every other byte of the file stays; only
      where the write allocates a quantum do the rest of its bytes appear, uncleared. */
  lemma WriteUpdates(st: Store, pos: nat, data: seq<byte>, garbage: seq<byte>, other: nat)
    requires Sound(st) && |garbage| == st.quantum
    ensures var n := WriteChunk(st, pos, |data|);
            var r := Write(st, pos, data, garbage);
            At(r, other) ==
              if pos <= other < pos + n then Byte(data[other - pos])
              else if At(st, other).Byte? || !SameBlock(st, pos, other) then At(st, other)
              else Byte(garbage[Locate(other, st.quantum, st.qset).qPos])
    ensures var newPos := pos + WriteChunk(st, pos, |data|);
            Write(st, pos, data, garbage).size == if st.size < newPos then newPos else st.size
  {
    var p := Locate(pos, st.quantum, st.qset);
    var o := Locate(other, st.quantum, st.qset);
    var n := WriteChunk(st, pos, |data|);
    FollowUnseen(st, p.item, other);
    if pos <= other < pos + n {
      SameQuantum(pos, other - pos, st.quantum, st.qset);
    }
    if o.item == p.item && o.sPos == p.sPos {
      InBlock(pos, other, st.quantum, st.qset);
    }
  }

  /** A write accepts everything up to the end of the quantum: something whenever something is
      offered, and never across a quantum. */
  lemma WriteProgress(st: Store, pos: nat, count: nat)
    requires Sound(st)
    ensures var n := WriteChunk(st, pos, count);
            && n == Min(count, st.quantum - pos % st.quantum)
            && n <= count && (count > 0 ==> n > 0) && (n > 0 ==> SameBlock(st, pos, pos + n - 1))
  {
    OffsetInQuantum(pos, st.quantum, st.qset);
    var n := WriteChunk(st, pos, count);
    if n > 0 {
      SameQuantum(pos, n - 1, st.quantum, st.qset);
    }
  }

  ghost predicate SameBlock(st: Store, a: nat, b: nat)
    requires Sound(st)
  {
    var p, q := Locate(a, st.quantum, st.qset), Locate(b, st.quantum, st.qset);
    p.item == q.item && p.sPos == q.sPos
  }

  /** A write makes the list long enough for its item, and no longer. */
  lemma WriteExtends(st: Store, pos: nat, data: seq<byte>, garbage: seq<byte>)
    requires Sound(st) && |garbage| == st.quantum
    ensures |Write(st, pos, data, garbage).rows| == Max(|st.rows|, pos / (st.quantum * st.qset) + 1)
  {
    FollowExtends(st, Locate(pos, st.quantum, st.qset).item);
  }

  /** A read returns the bytes that the file holds, as many as are asked for up to the end of the
      file and of the quantum, and nothing at the end, in a hole, or if nothing was asked for. */
  lemma ReadReturns(st: Store, pos: nat, count: nat)
    requires Sound(st)
    ensures var out := Read(st, pos, count);
            && |out| <= count && (out != [] ==> pos + |out| <= st.size && SameBlock(st, pos, pos + |out| - 1))
            && (forall k :: 0 <= k < |out| ==> At(st, pos + k) == Byte(out[k]))
            && (out == [] <==> count == 0 || pos >= st.size || At(st, pos).Absent?)
            && (pos < st.size && At(st, pos).Byte? ==>
                  |out| == Min(count, Min(st.size - pos, st.quantum - pos % st.quantum)))
  {
    OffsetInQuantum(pos, st.quantum, st.qset);
    var out := Read(st, pos, count);
    var p := Locate(pos, st.quantum, st.qset);
    forall k | 0 <= k < |out| ensures At(st, pos + k) == Byte(out[k]) {
      SameQuantum(pos, k, st.quantum, st.qset);
    }
    if out != [] {
      SameQuantum(pos, |out| - 1, st.quantum, st.qset);
    }
  }

  /** A read beyond the end of the file leaves the list alone, one inside makes it long enough. */
  lemma ReadExtends(st: Store, pos: nat)
    requires Sound(st)
    ensures pos >= st.size ==> AfterRead(st, pos) == st
    ensures pos < st.size ==>
              |AfterRead(st, pos).rows| == Max(|st.rows|, pos / (st.quantum * st.qset) + 1)
  {
    FollowExtends(st, Locate(pos, st.quantum, st.qset).item);
  }

  /** A read changes nothing that can be read. */
  lemma ReadUnseen(st: Store, pos: nat, other: nat)
    requires Sound(st)
    ensures At(AfterRead(st, pos), other) == At(st, other) && AfterRead(st, pos).size == st.size
  {
    FollowUnseen(st, Locate(pos, st.quantum, st.qset).item, other);
  }

  // ----- whole buffers -----

  /** A program that writes until everything is written; fresh quanta contain leftover[i]. */
  function WriteAll(st: Store, pos: nat, data: seq<byte>, leftover: seq<seq<byte>>): (r: Store)
    requires Sound(st) && |leftover| >= |data| && forall i :: 0 <= i < |leftover| ==> |leftover[i]| == st.quantum
    ensures Sound(r) && r.quantum == st.quantum && r.qset == st.qset
    decreases |data|
  {
    if data == [] then st
    else
      WriteProgress(st, pos, |data|);
      var n := WriteChunk(st, pos, |data|);
      WriteAll(Write(st, pos, data, leftover[0]), pos + n, data[n..], leftover[1..])
  }

  /** A program that reads until it has `count` bytes or a read returns nothing. */
  function ReadAll(st: Store, pos: nat, count: nat): seq<byte>
    requires Sound(st)
    decreases count
  {
    var out := Read(st, pos, count);
    if out == [] then [] else out + ReadAll(AfterRead(st, pos), pos + |out|, count - |out|)
  }

  /** The bytes from pos on are in the file. */
  ghost predicate Holds(st: Store, pos: nat, data: seq<byte>)
    requires Sound(st)
  {
    (data == [] || pos + |data| <= st.size) &&
    forall k :: 0 <= k < |data| ==> At(st, pos + k) == Byte(data[k])
  }

  /** Writing further on keeps what lies before. */
  lemma WriteKeeps(st: Store, pos: nat, data: seq<byte>, garbage: seq<byte>, before: nat, kept: seq<byte>)
    requires Sound(st) && |garbage| == st.quantum && Holds(st, before, kept) && before + |kept| <= pos
    ensures Holds(Write(st, pos, data, garbage), before, kept)
  {
    forall k | 0 <= k < |kept| ensures At(Write(st, pos, data, garbage), before + k) == Byte(kept[k]) {
      WriteUpdates(st, pos, data, garbage, before + k);
    }
    WriteUpdates(st, pos, data, garbage, 0);
  }

  lemma WriteHolds(st: Store, pos: nat, data: seq<byte>, garbage: seq<byte>)
    requires Sound(st) && |garbage| == st.quantum
    ensures WriteChunk(st, pos, |data|) <= |data|
    ensures Holds(Write(st, pos, data, garbage), pos, data[..WriteChunk(st, pos, |data|)])
  {
    var n := WriteChunk(st, pos, |data|);
    forall k | 0 <= k < n ensures At(Write(st, pos, data, garbage), pos + k) == Byte(data[..n][k]) {
      WriteUpdates(st, pos, data, garbage, pos + k);
    }
    WriteUpdates(st, pos, data, garbage, 0);
  }

  lemma HoldsAppend(st: Store, pos: nat, a: seq<byte>, b: seq<byte>)
    requires Sound(st) && Holds(st, pos, a) && Holds(st, pos + |a|, b)
    ensures Holds(st, pos, a + b)
  {
    forall k | 0 <= k < |a + b| ensures At(st, pos + k) == Byte((a + b)[k]) {
      if k >= |a| {
        assert At(st, pos + |a| + (k - |a|)) == Byte(b[k - |a|]);
      }
    }
  }

  lemma {:induction false} WriteAllHolds(st: Store, pos: nat, data: seq<byte>, leftover: seq<seq<byte>>,
                                         before: nat, kept: seq<byte>)
    requires Sound(st) && |leftover| >= |data| && forall i :: 0 <= i < |leftover| ==> |leftover[i]| == st.quantum
    requires Holds(st, before, kept) && before + |kept| == pos
    ensures Holds(WriteAll(st, pos, data, leftover), before, kept + data)
    decreases |data|
  {
    hide *;
    WriteAllUnfolds(st, pos, data, leftover);
    if data == [] {
      assert kept + data == kept;
    } else {
      WriteProgress(st, pos, |data|);
      var n := WriteChunk(st, pos, |data|);
      var st1 := Write(st, pos, data, leftover[0]);
      WriteHolds(st, pos, data, leftover[0]);
      WriteKeeps(st, pos, data, leftover[0], before, kept);
      HoldsAppend(st1, before, kept, data[..n]);
      WriteAllHolds(st1, pos + n, data[n..], leftover[1..], before, kept + data[..n]);
      assert kept + data[..n] + data[n..] == kept + data;
    }
  }

  lemma WriteAllUnfolds(st: Store, pos: nat, data: seq<byte>, leftover: seq<seq<byte>>)
    requires Sound(st) && |leftover| >= |data| && forall i :: 0 <= i < |leftover| ==> |leftover[i]| == st.quantum
    ensures if data == [] then WriteAll(st, pos, data, leftover) == st
            else
              var n := WriteChunk(st, pos, |data|);
              && n <= |data|
              && WriteAll(st, pos, data, leftover) ==
                 WriteAll(Write(st, pos, data, leftover[0]), pos + n, data[n..], leftover[1..])
  {
    WriteProgress(st, pos, |data|);
    hide Write, WriteChunk, SameBlock, Follow, Locate;
  }

  lemma {:induction false} ReadAllReturns(st: Store, pos: nat, data: seq<byte>)
    requires Sound(st) && Holds(st, pos, data)
    ensures ReadAll(st, pos, |data|) == data
    decreases |data|
  {
    hide *;
    ReadAllUnfolds(st, pos, |data|);
    if data != [] {
      var out := Read(st, pos, |data|);
      ReadHeld(st, pos, data);
      ReadAllReturns(AfterRead(st, pos), pos + |out|, data[|out|..]);
    }
  }

  lemma ReadAllUnfolds(st: Store, pos: nat, count: nat)
    requires Sound(st)
    ensures var out := Read(st, pos, count);
            && |out| <= count
            && ReadAll(st, pos, count) ==
               if out == [] then [] else out + ReadAll(AfterRead(st, pos), pos + |out|, count - |out|)
    ensures count == 0 ==> ReadAll(st, pos, count) == []
  {
    hide Read, AfterRead, Sound, ReadCount, At, Follow;
  }

  /** One read of bytes that are in the file returns the first of them, and the rest is still there. */
  lemma ReadHeld(st: Store, pos: nat, data: seq<byte>)
    requires Sound(st) && Holds(st, pos, data) && data != []
    ensures var out := Read(st, pos, |data|);
            && 0 < |out| <= |data| && data == out + data[|out|..]
            && Holds(AfterRead(st, pos), pos + |out|, data[|out|..])
  {
    ReadReturns(st, pos, |data|);
    var out := Read(st, pos, |data|);
    var st1 := AfterRead(st, pos);
    assert At(st, pos + 0) == Byte(data[0]);
    hide Read, At, Locate, BlockAt, AfterRead;
    forall k | 0 <= k < |out| ensures out[k] == data[k] {
      assert At(st, pos + k) == Byte(out[k]);
    }
    forall k | 0 <= k < |data[|out|..]| ensures At(st1, pos + |out| + k) == Byte(data[|out|..][k]) {
      assert At(st, pos + (|out| + k)) == Byte(data[|out| + k]);
      ReadUnseen(st, pos, pos + |out| + k);
    }
    ReadUnseen(st, pos, pos);
  }

  // ----- seeking -----

  datatype Whence = SeekSet | SeekCur | SeekEnd

  datatype SeekResult = NewPos(pos: nat) | EInval

  function Llseek(st: Store, fPos: nat, off: int, whence: Whence): SeekResult {
    var newPos := match whence case SeekSet => off case SeekCur => fPos + off case SeekEnd => st.size + off;
    if newPos < 0 then EInval else NewPos(newPos)
  }

  /** What a seek means: SEEK_SET gives the position asked for, whatever the device and the old
      position; SEEK_END counts from the end of the file, SEEK_CUR from the old position; each is
      refused exactly in front of the start of the file. */
  lemma SeekReaches(st: Store, fPos: nat, p: nat, back: nat)
    ensures Llseek(st, fPos, p, SeekSet) == NewPos(p)
    ensures Llseek(st, fPos, p, SeekCur) == NewPos(fPos + p)
    ensures Llseek(st, fPos, p, SeekEnd) == NewPos(st.size + p)
    ensures back > 0 ==> Llseek(st, fPos, -(back as int), SeekSet) == EInval
    ensures Llseek(st, fPos, -(back as int), SeekCur) == if back <= fPos then NewPos(fPos - back) else EInval
    ensures Llseek(st, fPos, -(back as int), SeekEnd) == if back <= st.size then NewPos(st.size - back) else EInval
  {
  }

  /** Main theorem: from any position that a seek can reach, in any state of the device and for
      any quantum and qset, writing a buffer out in a loop, seeking back and reading in a loop
      returns the buffer, however the allocator left new quanta. */
  lemma WriteSeekRead(st: Store, fPos: nat, off: int, whence: Whence, data: seq<byte>, leftover: seq<seq<byte>>)
    requires Sound(st) && |leftover| >= |data| && forall i :: 0 <= i < |leftover| ==> |leftover[i]| == st.quantum
    requires Llseek(st, fPos, off, whence).NewPos?
    ensures var start := Llseek(st, fPos, off, whence).pos;
            var written := WriteAll(st, start, data, leftover);
            && Llseek(written, start + |data|, -|data|, SeekCur) == NewPos(start)
            && ReadAll(written, start, |data|) == data
  {
    var start := Llseek(st, fPos, off, whence).pos;
    WriteAllHolds(st, start, data, leftover, start, []);
    assert [] + data == data;
    ReadAllReturns(WriteAll(st, start, data, leftover), start, data);
  }

  /** Writing in a loop makes the file exactly long enough. */
  lemma {:induction false} WriteAllSize(st: Store, pos: nat, data: seq<byte>, leftover: seq<seq<byte>>)
    requires Sound(st) && |leftover| >= |data| && forall i :: 0 <= i < |leftover| ==> |leftover[i]| == st.quantum
    ensures WriteAll(st, pos, data, leftover).size == if data == [] then st.size else Max(st.size, pos + |data|)
    decreases |data|
  {
    hide *;
    WriteAllUnfolds(st, pos, data, leftover);
    if data != [] {
      var n := WriteChunk(st, pos, |data|);
      WriteUpdates(st, pos, data, leftover[0], 0);
      WriteProgress(st, pos, |data|);
      WriteAllSize(Write(st, pos, data, leftover[0]), pos + n, data[n..], leftover[1..]);
      Longest(st.size, pos, n, |data|);
    }
  }

  lemma Longest(size: nat, pos: nat, n: nat, all: nat)
    requires n <= all
    ensures Max(if size < pos + n then pos + n else size, pos + all) == Max(size, pos + all)
    ensures Max(size, pos + all) == if size < pos + all then pos + all else size
  {
  }

  /** Writing in a loop keeps every byte in front of it. */
  lemma {:induction false} WriteAllKeeps(st: Store, pos: nat, data: seq<byte>, leftover: seq<seq<byte>>, other: nat)
    requires Sound(st) && |leftover| >= |data| && forall i :: 0 <= i < |leftover| ==> |leftover[i]| == st.quantum
    requires At(st, other).Byte? && (other < pos || other >= pos + |data|)
    ensures At(WriteAll(st, pos, data, leftover), other) == At(st, other)
    decreases |data|
  {
    hide *;
    WriteAllUnfolds(st, pos, data, leftover);
    if data != [] {
      var n := WriteChunk(st, pos, |data|);
      WriteUpdates(st, pos, data, leftover[0], other);
      WriteProgress(st, pos, |data|);
      WriteAllKeeps(Write(st, pos, data, leftover[0]), pos + n, data[n..], leftover[1..], other);
    }
  }

  /** Seeking to the end and writing appends: every byte that was in the file stays, the data lies
      from the old end on, and the file is longer by exactly that much. */
  lemma SeekEndAppends(st: Store, fPos: nat, data: seq<byte>, leftover: seq<seq<byte>>)
    requires Sound(st) && |leftover| >= |data| && forall i :: 0 <= i < |leftover| ==> |leftover[i]| == st.quantum
    ensures Llseek(st, fPos, 0, SeekEnd).NewPos?
    ensures var r := WriteAll(st, Llseek(st, fPos, 0, SeekEnd).pos, data, leftover);
            && r.size == st.size + |data| && Holds(r, st.size, data)
            && forall p: nat :: p < st.size && At(st, p).Byte? ==> At(r, p) == At(st, p)
  {
    hide WriteAll, At;
    var r := WriteAll(st, st.size, data, leftover);
    WriteAllSize(st, st.size, data, leftover);
    NothingHeld(st, st.size);
    WriteAllHolds(st, st.size, data, leftover, st.size, []);
    assert [] + data == data;
    forall p: nat | p < st.size && At(st, p).Byte? ensures At(r, p) == At(st, p) {
      WriteAllKeeps(st, st.size, data, leftover, p);
    }
  }

  lemma NothingHeld(st: Store, pos: nat)
    requires Sound(st)
    ensures Holds(st, pos, [])
  {
  }
}
