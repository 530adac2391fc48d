/** The scull device in memory: a linked list of quantum sets, each an array of
    pointers to blocks.  Its methods refine the value operations of ScullStore. */
module Scull {
  import opened Bytes
  import opened ScullStore

  class ScullQset {
    var data: array?<array?<byte>>
    var next: ScullQset?

    constructor ()
      ensures data == null && next == null
    {
      data, next := null, null;
    }
  }

  class ScullDev {
    var data: ScullQset?
    var quantum: nat
    var qset: nat
    var size: nat

    /** The list from the first node to the last. */
    ghost var nodes: seq<ScullQset>
    /** Where each object of the device hangs: list item, and index in its quantum set. */
    ghost var place: map<object, (nat, nat)>
    ghost var Repr: set<object>

    ghost predicate Valid()
      reads this, Repr
    {
      && quantum >= 1 && qset >= 1
      && this in Repr && this !in place && Repr == {this} + place.Keys
      && data == (if nodes == [] then null else nodes[0])
      && (forall i :: 0 <= i < |nodes| ==> NodeOk(i))
      && (forall i, s :: 0 <= i < |nodes| && NodeOk(i) && nodes[i].data != null && 0 <= s < qset ==> BlockOk(i, s))
    }

    /** Node i is linked to node i + 1, and its array of pointers belongs to it alone. */
    ghost predicate NodeOk(i: nat)
      requires i < |nodes|
      reads this, Repr
    {
      && nodes[i] in Repr && nodes[i] in place && place[nodes[i]] == (i, 0)
      && nodes[i].next == (if i + 1 < |nodes| then nodes[i + 1] else null)
      && (nodes[i].data != null ==>
            && nodes[i].data in Repr && nodes[i].data in place && place[nodes[i].data] == (i, 0)
            && nodes[i].data.Length == qset)
    }

    /** Pointer s of node i is null, or a block that belongs to it alone. */
    ghost predicate BlockOk(i: nat, s: nat)
      requires i < |nodes| && NodeOk(i) && nodes[i].data != null && s < qset
      reads this, Repr
    {
      var b := nodes[i].data[s];
      b != null ==> b in Repr && b in place && place[b] == (i, s) && b.Length == quantum
    }

    // ----- the value -----

    ghost function Quantum(i: nat, s: nat): (b: Block)
      requires Valid() && i < |nodes| && s < qset
      reads this, Repr
      ensures b.Data? ==> |b.bytes| == quantum
    {
      assert NodeOk(i);
      if nodes[i].data == null then Hole
      else
        assert BlockOk(i, s);
        if nodes[i].data[s] == null then Hole else Data(nodes[i].data[s][..])
    }

    ghost function Row(i: nat): (row: seq<Block>)
      requires Valid() && i < |nodes|
      reads this, Repr
      ensures |row| == qset && forall s :: 0 <= s < qset ==> row[s] == Quantum(i, s)
    {
      seq(qset, s requires 0 <= s < qset && Valid() && i < |nodes| reads this, Repr => Quantum(i, s))
    }

    ghost function Store(): (st: Store)
      requires Valid()
      reads this, Repr
      ensures Sound(st) && st.quantum == quantum && st.qset == qset && st.size == size && |st.rows| == |nodes|
      ensures forall i :: 0 <= i < |nodes| ==> st.rows[i] == Row(i)
    {
      var st := ScullStore.Store.Store(quantum, qset,
        seq(|nodes|, i requires 0 <= i < |nodes| && Valid() reads this, Repr => Row(i)), size);
      assert forall i :: 0 <= i < |st.rows| ==> RowSound(st, st.rows[i]) by {
        forall i | 0 <= i < |nodes| ensures RowSound(st, Row(i)) {
          forall s | 0 <= s < qset && Row(i)[s].Data? ensures |Row(i)[s].bytes| == quantum {
            assert NodeOk(i) && BlockOk(i, s) && Row(i)[s] == Quantum(i, s);
          }
        }
      }
      st
    }

    constructor (quantum: nat, qset: nat)
      requires quantum >= 1 && qset >= 1
      ensures Valid() && fresh(Repr)
      ensures Store() == ScullStore.Store.Store(quantum, qset, [], 0)
    {
      this.quantum, this.qset, size, data := quantum, qset, 0, null;
      nodes, place, Repr := [], map[], {this};
    }

    // ----- following the list -----

    lemma NodesDistinct()
      requires Valid()
      ensures forall i, j :: 0 <= i < j < |nodes| ==> nodes[i] != nodes[j]
    {
      forall i, j | 0 <= i < j < |nodes| ensures nodes[i] != nodes[j] {
        assert NodeOk(i) && NodeOk(j);
      }
    }

    /** One more empty quantum set behind the last one. */
    method Append(last: ScullQset?) returns (node: ScullQset)
      requires Valid() && last == (if nodes == [] then null else nodes[|nodes| - 1])
      modifies Repr
      ensures Valid() && fresh(Repr - old(Repr))
      ensures nodes == old(nodes) + [node]
      ensures Store() == WithEmptyRow(old(Store()))
    {
      ghost var before := Store();
      ghost var after := WithEmptyRow(before);
      node := LinkNode(last);
      forall i, s | 0 <= i < |nodes| && 0 <= s < qset ensures Quantum(i, s) == BlockAt(after, i, s) {
        if i < |before.rows| {
          assert BlockAt(before, i, s) == old(Row(i))[s] == old(Quantum(i, s));
        }
      }
      hide Valid;
      SameQuanta(after);
    }

    method LinkNode(last: ScullQset?) returns (node: ScullQset)
      requires Valid() && last == (if nodes == [] then null else nodes[|nodes| - 1])
      modifies Repr
      ensures Valid() && fresh(Repr - old(Repr))
      ensures nodes == old(nodes) + [node]
      ensures size == old(size) && quantum == old(quantum) && qset == old(qset)
      ensures forall i, s :: 0 <= i < |nodes| && 0 <= s < qset ==>
                Quantum(i, s) == if i < |old(nodes)| then old(Quantum(i, s)) else Hole
    {
      assert nodes != [] ==> NodeOk(|nodes| - 1);
      NodesDistinct();
      node := new ScullQset();
      if last == null {
        data := node;
      } else {
        last.next := node;
      }
      ghost var n := |nodes|;
      nodes := nodes + [node];
      place := place[node := (n, 0)];
      Repr := Repr + {node};
      forall i | 0 <= i < |nodes| ensures NodeOk(i) {
        assert i < n ==> old(NodeOk(i));
      }
      forall i, s | 0 <= i < |nodes| && NodeOk(i) && nodes[i].data != null && 0 <= s < qset ensures BlockOk(i, s) {
        assert i < n && old(NodeOk(i)) && old(BlockOk(i, s));
      }
      forall i, s | 0 <= i < |nodes| && 0 <= s < qset
        ensures Quantum(i, s) == if i < n then old(Quantum(i, s)) else Hole
      {
        assert i < n && nodes[i].data != null ==> old(NodeOk(i)) && old(BlockOk(i, s));
      }
    }

    method Follow(n: nat) returns (qs: ScullQset)
      requires Valid()
      modifies Repr
      ensures Valid() && fresh(Repr - old(Repr))
      ensures n < |nodes| && qs == nodes[n]
      ensures Store() == ScullStore.Follow(old(Store()), n)
    {
      ghost var start := Store();
      if data == null {
        qs := Append(null);
      } else {
        qs := data;
      }
      var k := 0;
      while k < n
        invariant Valid() && fresh(Repr - old(Repr))
        invariant k <= n && k < |nodes| && qs == nodes[k]
        invariant ScullStore.Follow(Store(), n) == ScullStore.Follow(start, n)
        invariant |nodes| > k + 1 ==> Store() == start
      {
        assert NodeOk(k);
        if qs.next == null {
          var node := Append(qs);
        }
        assert NodeOk(k);
        qs := qs.next;
        k := k + 1;
      }
    }

    // ----- reading and writing -----

    /** The array of pointers of item `item`, allocated and cleared if it is missing. */
    method EnsureSet(dptr: ScullQset, ghost item: nat) returns (pointers: array<array?<byte>>)
      requires Valid() && item < |nodes| && nodes[item] == dptr
      modifies Repr
      ensures Valid() && fresh(Repr - old(Repr)) && nodes == old(nodes)
      ensures nodes[item].data == pointers && pointers.Length == qset
      ensures Store() == old(Store())
    {
      assert NodeOk(item);
      if dptr.data != null {
        return dptr.data;
      }
      pointers := AllocateSet(dptr, item);
      assert NodeOk(item);
    }

    method AllocateSet(dptr: ScullQset, ghost item: nat) returns (pointers: array<array?<byte>>)
      requires Valid() && item < |nodes| && nodes[item] == dptr && NodeOk(item) && dptr.data == null
      modifies Repr
      ensures Valid() && fresh(Repr - old(Repr)) && nodes == old(nodes)
      ensures nodes[item].data == pointers
      ensures Store() == old(Store())
    {
      NodesDistinct();
      ghost var before := Store();
      pointers := new array?<byte>[qset](_ => null);
      dptr.data := pointers;
      place := place[pointers := (item, 0)];
      Repr := Repr + {pointers};
      forall i | 0 <= i < |nodes| ensures NodeOk(i) {
        assert old(NodeOk(i));
      }
      forall i, s | 0 <= i < |nodes| && NodeOk(i) && nodes[i].data != null && 0 <= s < qset ensures BlockOk(i, s) {
        assert i != item ==> old(NodeOk(i)) && old(BlockOk(i, s));
      }
      forall i, s | 0 <= i < |nodes| && 0 <= s < qset ensures Quantum(i, s) == BlockAt(before, i, s) {
        assert before.rows[i][s] == old(Row(i))[s] == old(Quantum(i, s));
        assert i != item && nodes[i].data != null ==> old(NodeOk(i)) && old(BlockOk(i, s));
      }
      SameQuanta(before);
    }

    lemma BlockIsQuantum(i: nat, s: nat)
      requires Valid() && i < |nodes| && s < qset
      ensures BlockAt(Store(), i, s) == Quantum(i, s)
    {
      assert Row(i)[s] == Quantum(i, s);
    }

    /** The value depends on the quanta alone. */
    lemma SameQuanta(before: Store)
      requires Valid() && Sound(before) && |before.rows| == |nodes|
      requires before.size == size && before.quantum == quantum && before.qset == qset
      requires forall i, s :: 0 <= i < |nodes| && 0 <= s < qset ==> Quantum(i, s) == BlockAt(before, i, s)
      ensures Store() == before
    {
      forall i, s | 0 <= i < |nodes| && 0 <= s < qset ensures BlockAt(Store(), i, s) == BlockAt(before, i, s) {
        BlockIsQuantum(i, s);
      }
      SameBlocks(Store(), before);
    }

    /** The block behind pointer s of item `item`, allocated with whatever it contains if it is missing. */
    method EnsureQuantum(pointers: array<array?<byte>>, ghost item: nat, s: nat)
        returns (block: array<byte>, ghost garbage: seq<byte>)
      requires Valid() && item < |nodes| && nodes[item].data == pointers && s < qset && pointers.Length == qset
      modifies Repr
      ensures Valid() && fresh(Repr - old(Repr)) && nodes == old(nodes)
      ensures nodes[item].data == pointers && pointers.Length == qset && pointers[s] == block
      ensures |garbage| == quantum == old(quantum) && qset == old(qset)
      ensures Store() == WithBlock(old(Store()), item, s,
                if old(Quantum(item, s)).Hole? then Data(garbage) else old(Quantum(item, s)))
    {
      assert NodeOk(item) && BlockOk(item, s);
      if pointers[s] != null {
        block := pointers[s];
        garbage := block[..];
        assert BlockAt(Store(), item, s) == Row(item)[s] == Quantum(item, s);
        SameBlocks(Store(), WithBlock(Store(), item, s, Quantum(item, s)));
      } else {
        block, garbage := AllocateQuantum(pointers, item, s);
      }
    }

    method AllocateQuantum(pointers: array<array?<byte>>, ghost item: nat, s: nat)
        returns (block: array<byte>, ghost garbage: seq<byte>)
      requires Valid() && item < |nodes| && nodes[item].data == pointers && s < qset && pointers.Length == qset
      requires NodeOk(item) && pointers[s] == null
      modifies Repr
      ensures Valid() && fresh(Repr - old(Repr)) && nodes == old(nodes)
      ensures nodes[item].data == pointers && pointers.Length == qset && pointers[s] == block
      ensures |garbage| == quantum == old(quantum) && qset == old(qset)
      ensures Store() == WithBlock(old(Store()), item, s, Data(garbage))
    {
      block := new byte[quantum];
      garbage := block[..];
      pointers[s] := block;
      place := place[block := (item, s)];
      Repr := Repr + {block};
      forall i | 0 <= i < |nodes| ensures NodeOk(i) {
        assert old(NodeOk(i));
      }
      forall i, t | 0 <= i < |nodes| && NodeOk(i) && nodes[i].data != null && 0 <= t < qset ensures BlockOk(i, t) {
        assert old(NodeOk(i)) && old(BlockOk(i, t));
      }
      ghost var after := WithBlock(old(Store()), item, s, Data(garbage));
      forall i, t | 0 <= i < |nodes| && 0 <= t < qset ensures Quantum(i, t) == BlockAt(after, i, t) {
        assert NodeOk(i) && old(NodeOk(i));
        assert BlockAt(old(Store()), i, t) == old(Row(i))[t] == old(Quantum(i, t));
        assert nodes[i].data != null ==> old(BlockOk(i, t));
      }
      SameQuanta(after);
    }

    /** copy_from_user into one block. */
    method PutBytes(block: array<byte>, ghost item: nat, ghost s: nat, at: nat, bytes: seq<byte>)
      requires Valid() && item < |nodes| && s < qset
      requires NodeOk(item) && nodes[item].data != null && nodes[item].data[s] == block && block.Length == quantum
      requires at + |bytes| <= quantum
      modifies block
      ensures Valid() && nodes == old(nodes)
      ensures Store() == WithBlock(old(Store()), item, s,
                Data(old(block[..])[..at] + bytes + old(block[..])[at + |bytes|..]))
    {
      assert BlockOk(item, s);
      forall k | 0 <= k < |bytes| {
        block[at + k] := bytes[k];
      }
      ghost var content := old(block[..])[..at] + bytes + old(block[..])[at + |bytes|..];
      assert block[..] == content;
      forall i | 0 <= i < |nodes| ensures NodeOk(i) {
        assert old(NodeOk(i));
      }
      forall i, t | 0 <= i < |nodes| && NodeOk(i) && nodes[i].data != null && 0 <= t < qset ensures BlockOk(i, t) {
        assert old(NodeOk(i)) && old(BlockOk(i, t));
      }
      ghost var after := WithBlock(old(Store()), item, s, Data(content));
      forall i, t | 0 <= i < |nodes| && 0 <= t < qset ensures Quantum(i, t) == BlockAt(after, i, t) {
        assert NodeOk(i) && old(NodeOk(i));
        assert BlockAt(old(Store()), i, t) == old(Row(i))[t] == old(Quantum(i, t));
        assert nodes[i].data != null ==> old(BlockOk(i, t)) && BlockOk(i, t);
      }
      SameQuanta(after);
    }

    /** The divisions and remainders of both calls. */
    method Split(fPos: nat) returns (item: nat, sPos: nat, qPos: nat)
      requires Valid()
      ensures Locate(fPos, quantum, qset) == Place(item, sPos, qPos)
    {
      var itemsize := ItemSize(quantum, qset);
      item := fPos / itemsize;
      var rest := fPos % itemsize;
      QuotientBelow(rest, quantum, qset);
      sPos, qPos := rest / quantum, rest % quantum;
    }

    /** Everything scull_write does before it copies: the block is there, allocated on the way if need be. */
    method Acquire(item: nat, sPos: nat) returns (block: array<byte>, ghost garbage: seq<byte>)
      requires Valid() && sPos < qset
      modifies Repr
      ensures Valid() && fresh(Repr - old(Repr))
      ensures item < |nodes| && sPos < qset && NodeOk(item) && nodes[item].data != null
      ensures nodes[item].data[sPos] == block && this in Repr && block in Repr && block.Length == quantum
      ensures |garbage| == quantum == old(quantum) && qset == old(qset)
      ensures var st1 := ScullStore.Follow(old(Store()), item);
              var b := BlockAt(st1, item, sPos);
              var bytes := if b.Hole? then garbage else b.bytes;
              block[..] == bytes && Store() == WithBlock(st1, item, sPos, Data(bytes))
    {
      var dptr := Follow(item);
      var pointers := EnsureSet(dptr, item);
      assert NodeOk(item);
      assert Store().rows[item][sPos] == Row(item)[sPos] == Quantum(item, sPos);
      block, garbage := EnsureQuantum(pointers, item, sPos);
      assert NodeOk(item) && BlockOk(item, sPos);
      assert Store().rows[item][sPos] == Row(item)[sPos] == Quantum(item, sPos) == Data(block[..]);
      assert BlockAt(Store(), item, sPos) == Data(block[..]);
    }

    /** The copy of scull_write, into the block that holds the position. */
    method WriteQuantum(item: nat, sPos: nat, qPos: nat, bytes: seq<byte>) returns (ghost garbage: seq<byte>)
      requires Valid() && sPos < qset && qPos + |bytes| <= quantum
      modifies Repr
      ensures Valid() && fresh(Repr - old(Repr)) && this in Repr && |garbage| == old(quantum) && size == old(size)
      ensures Store() == Filled(old(Store()), Place(item, sPos, qPos), bytes, garbage)
    {
      hide NodeOk, Valid, BlockOk, BlockAt, WithBlock;
      ghost var st1 := ScullStore.Follow(Store(), item);
      var block;
      block, garbage := Acquire(item, sPos);
      ghost var before := block[..];
      PutBytes(block, item, sPos, qPos, bytes);
      WithBlockTwice(st1, item, sPos, Data(before), Data(before[..qPos] + bytes + before[qPos + |bytes|..]));
    }

    /** scull_write; `garbage` is what a newly allocated quantum contained. */
    method Write(fPos: nat, buf: seq<byte>) returns (n: nat, newPos: nat, ghost garbage: seq<byte>)
      requires Valid()
      modifies Repr
      ensures Valid() && fresh(Repr - old(Repr))
      ensures n == WriteChunk(old(Store()), fPos, |buf|) && newPos == fPos + n
      ensures n == Min(|buf|, old(quantum) - fPos % old(quantum))
      ensures |garbage| == old(quantum) && Store() == ScullStore.Write(old(Store()), fPos, buf, garbage)
    {
      assert quantum >= 1 && qset >= 1;
      OffsetInQuantum(fPos, quantum, qset);
      hide NodeOk, BlockOk, Valid, Filled, ItemSize, Locate, Sound;
      var item, sPos, qPos := Split(fPos);
      n := Min(|buf|, quantum - qPos);
      garbage := WriteQuantum(item, sPos, qPos, buf[..n]);
      newPos := fPos + n;
      if size < newPos {
        SetSize(newPos);
      }
    }

    method SetSize(newSize: nat)
      requires Valid()
      modifies this`size
      ensures Valid() && Repr == old(Repr) && quantum == old(quantum) && qset == old(qset)
      ensures Store() == old(Store()).(size := newSize)
    {
      size := newSize;
      forall i | 0 <= i < |nodes| ensures NodeOk(i) {
        assert old(NodeOk(i));
      }
      forall i, s | 0 <= i < |nodes| && NodeOk(i) && nodes[i].data != null && 0 <= s < qset ensures BlockOk(i, s) {
        assert old(BlockOk(i, s));
      }
      forall i | 0 <= i < |nodes| ensures Row(i) == old(Row(i)) {
        forall s | 0 <= s < qset ensures Row(i)[s] == old(Row(i))[s] {
          assert Row(i)[s] == Quantum(i, s) && old(Row(i))[s] == old(Quantum(i, s));
        }
      }
      assert Store().rows == old(Store()).rows;
    }

    /** scull_read. */
    method Read(fPos: nat, count: nat) returns (out: seq<byte>, newPos: nat)
      requires Valid()
      modifies Repr
      ensures Valid() && fresh(Repr - old(Repr))
      ensures out == ScullStore.Read(old(Store()), fPos, count) && newPos == fPos + |out|
      ensures fPos < size && At(old(Store()), fPos).Byte? ==>
                |out| == Min(count, Min(size - fPos, quantum - fPos % quantum))
      ensures fPos >= size || At(old(Store()), fPos).Absent? ==> out == []
      ensures Store() == AfterRead(old(Store()), fPos)
    {
      out, newPos := [], fPos;
      ReadReturns(Store(), fPos, count);
      if fPos >= size {
        return;
      }
      ghost var start := Store();
      var n := count;
      if fPos + n > size {
        n := size - fPos;
      }
      var item, sPos, qPos := Split(fPos);
      FollowUnseen(start, item, fPos);
      var dptr := Follow(item);
      hide Locate, Sound, ItemSize, ScullStore.Follow;
      assert NodeOk(item) && BlockAt(Store(), item, sPos) == Row(item)[sPos] == Quantum(item, sPos);
      if dptr.data == null {
        return;
      }
      assert BlockOk(item, sPos);
      if dptr.data[sPos] == null {
        return;
      }
      if n > quantum - qPos {
        n := quantum - qPos;
      }
      out := dptr.data[sPos][qPos..qPos + n];
      newPos := fPos + n;
    }

    /** scull_trim: the whole list is dropped and the current parameters take effect. */
    method Trim(scullQuantum: nat, scullQset: nat)
      requires Valid() && scullQuantum >= 1 && scullQset >= 1
      modifies Repr
      ensures Valid() && Repr <= old(Repr)
      ensures Store() == ScullStore.Store.Store(scullQuantum, scullQset, [], 0)
    {
      size, quantum, qset, data := 0, scullQuantum, scullQset, null;
      nodes, place, Repr := [], map[], {this};
    }
  }
}
