/**
 raxRemoveChildAtPtr on the bytes of a node.
 */
module RaxPackedRemove {
  import opened Keys
  import opened RaxTree
  import opened RaxHeap
  import opened RaxPacked
  import RaxRemove

  // ------------------------------------------------------------------ moving bytes

  /** Block `m2` is block `m` after the edge at `pos` and its child word were removed. `p1` and `p2`
      are the offsets of the child words before and after, `tail` the bytes that follow the removed word. */
  ghost predicate Narrowed(m: seq<byte>, m2: seq<byte>, size: nat, pos: nat, p1: nat, p2: nat, tail: nat) {
    && pos < size && HEADER + size - 1 <= p2 <= p1 && HEADER + size <= p1 && |m2| == |m|
    && p1 + WORD * pos + WORD + tail <= |m|
    && (forall k | HEADER <= k < HEADER + pos :: m2[k] == m[k])
    && (forall k | HEADER + pos <= k < HEADER + size - 1 :: m2[k] == m[k + 1])
    && (forall k | p2 <= k < p2 + WORD * pos :: m2[k] == m[k + (p1 - p2)])
    && (forall k | p2 + WORD * pos <= k < p2 + WORD * pos + tail :: m2[k] == m[k + (p1 - p2) + WORD])
  }

  /** The three moves of raxRemoveChildAtPtr, in their order. */
  lemma NarrowMoves(m0: seq<byte>, m1: seq<byte>, m2: seq<byte>, m3: seq<byte>, size: nat, pos: nat, p1: nat, p2: nat, tail: nat)
    requires pos < size && HEADER + size - 1 <= p2 <= p1 <= p2 + WORD && HEADER + size <= p1
    requires p1 + WORD * pos + WORD + tail <= |m0|
    requires Moved(m0, m1, HEADER + pos, HEADER + pos + 1, size - pos - 1)
    requires MovedIf(p2 != p1, m1, m2, p2, p1, WORD * pos)
    requires Moved(m2, m3, p2 + WORD * pos, p1 + WORD * pos + WORD, tail)
    ensures Narrowed(m0, m3, size, pos, p1, p2, tail)
  {
    NarrowEdges(m0, m1, m2, m3, size, pos, p1, p2, tail);
    NarrowWords(m0, m1, m2, m3, size, pos, p1, p2, tail);
  }

  lemma NarrowEdges(m0: seq<byte>, m1: seq<byte>, m2: seq<byte>, m3: seq<byte>, size: nat, pos: nat, p1: nat, p2: nat, tail: nat)
    requires pos < size && HEADER + size - 1 <= p2 <= p1
    requires Moved(m0, m1, HEADER + pos, HEADER + pos + 1, size - pos - 1)
    requires MovedIf(p2 != p1, m1, m2, p2, p1, WORD * pos)
    requires Moved(m2, m3, p2 + WORD * pos, p1 + WORD * pos + WORD, tail)
    ensures forall k | HEADER <= k < HEADER + pos :: m3[k] == m0[k]
    ensures forall k | HEADER + pos <= k < HEADER + size - 1 :: m3[k] == m0[k + 1]
  {
    assert forall k | HEADER <= k < HEADER + size - 1 :: m2[k] == m1[k];
    assert forall k | HEADER <= k < HEADER + size - 1 :: m3[k] == m2[k];
  }

  lemma NarrowWords(m0: seq<byte>, m1: seq<byte>, m2: seq<byte>, m3: seq<byte>, size: nat, pos: nat, p1: nat, p2: nat, tail: nat)
    requires pos < size && HEADER + size - 1 <= p2 <= p1 <= p2 + WORD && HEADER + size <= p1
    requires Moved(m0, m1, HEADER + pos, HEADER + pos + 1, size - pos - 1)
    requires MovedIf(p2 != p1, m1, m2, p2, p1, WORD * pos)
    requires Moved(m2, m3, p2 + WORD * pos, p1 + WORD * pos + WORD, tail)
    ensures forall k | p2 <= k < p2 + WORD * pos :: m3[k] == m0[k + (p1 - p2)]
    ensures forall k | p2 + WORD * pos <= k < p2 + WORD * pos + tail :: m3[k] == m0[k + (p1 - p2) + WORD]
  {
    var d := p1 - p2;
    assert forall k | p1 <= k < |m1| :: m1[k] == m0[k];
    assert forall k | p1 + WORD * pos <= k < |m2| :: m2[k] == m1[k];
    forall k | p2 <= k < p2 + WORD * pos ensures m3[k] == m0[k + d] {
      assert m3[k] == m2[k];
      assert m2[k] == m1[k + d];
    }
    forall k | p2 + WORD * pos <= k < p2 + WORD * pos + tail ensures m3[k] == m0[k + d + WORD] {
      assert m3[k] == m2[k + d + WORD];
    }
  }

  method NarrowBlock(a: array<byte>, size: nat, pos: nat, p1: nat, p2: nat, tail: nat)
    requires pos < size && HEADER + size - 1 <= p2 <= p1 <= p2 + WORD && HEADER + size <= p1
    requires p1 + WORD * pos + WORD + tail <= a.Length
    modifies a
    ensures Narrowed(old(a[..]), a[..], size, pos, p1, p2, tail)
  {
    ghost var m0 := a[..];
    Memmove(a, HEADER + pos, HEADER + pos + 1, size - pos - 1);
    ghost var m1 := a[..];
    MemmoveIf(p2 != p1, a, p2, p1, WORD * pos);
    ghost var m2 := a[..];
    Memmove(a, p2 + WORD * pos, p1 + WORD * pos + WORD, tail);
    NarrowMoves(m0, m1, m2, a[..], size, pos, p1, p2, tail);
  }

  // ------------------------------------------------------------------ what the block reads afterwards

  lemma NarrowedEdges(m: seq<byte>, m2: seq<byte>, size: nat, pos: nat, p1: nat, p2: nat, tail: nat)
    requires Narrowed(m, m2, size, pos, p1, p2, tail)
    ensures EdgesIn(m2, size - 1) == RaxRemove.Without(EdgesIn(m, size), pos)
  {
    var e := EdgesIn(m2, size - 1);
    forall i | 0 <= i < |e| ensures e[i] == RaxRemove.Without(EdgesIn(m, size), pos)[i] {
      assert e[i] == m2[HEADER + i];
    }
  }

  lemma NarrowedWord(m: seq<byte>, m2: seq<byte>, size: nat, pos: nat, p1: nat, p2: nat, tail: nat, i: nat)
    requires Narrowed(m, m2, size, pos, p1, p2, tail)
    requires i < pos || (pos <= i && WORD * (i - pos) + WORD <= tail)
    ensures ChildWord(m2, p2, i) == ChildWord(m, p1, if i < pos then i else i + 1)
  {
    var a, b := p1 + WORD * (if i < pos then i else i + 1), p2 + WORD * i;
    forall k | 0 <= k < WORD ensures WordAt(m2, b)[k] == WordAt(m, a)[k] {
      assert WordAt(m, a)[k] == m[a + k] && WordAt(m2, b)[k] == m2[b + k];
    }
  }

  /** The flags after closing the gap at `pos`; there is no flag for slot 13. */
  ghost predicate Closed(flags: Flags, flags2: Flags, pos: nat) {
    && (forall i | 0 <= i < INLINE_SLOTS && i < pos :: flags2[i] == flags[i])
    && (forall i | pos <= i < INLINE_SLOTS :: flags2[i] == (i + 1 < INLINE_SLOTS && flags[i + 1]))
  }

  lemma NarrowedSlots(m: seq<byte>, m2: seq<byte>, flags: Flags, flags2: Flags, size: nat, pos: nat, tail: nat)
    requires 0 < size && Narrowed(m, m2, size, pos, Ptrs(size), Ptrs(size - 1), tail) && WORD * (size - pos - 1) <= tail
    requires Closed(flags, flags2, pos)
    ensures SlotsIn(m2, flags2, false, size - 1) == RaxRemove.Without(SlotsIn(m, flags, false, size), pos)
  {
    var got := SlotsIn(m2, flags2, false, size - 1);
    forall i | 0 <= i < size - 1 ensures got[i] == RaxRemove.Without(SlotsIn(m, flags, false, size), pos)[i] {
      NarrowedWord(m, m2, size, pos, Ptrs(size), Ptrs(size - 1), tail, i);
      SlotsInAt(m2, flags2, false, size - 1, i);
      SlotsInAt(m, flags, false, size, if i < pos then i else i + 1);
    }
  }

  function ClosedBits(bits: Bitmap, pos: nat): Bitmap {
    if bits != 0 && pos < INLINE_SLOTS then CloseGap(bits, One(pos)) else bits
  }

  lemma ClosedBitsFlags(bits: Bitmap, pos: nat)
    requires bits < 0x2000
    ensures ClosedBits(bits, pos) < 0x2000
    ensures Closed(FlagsOf(bits), FlagsOf(ClosedBits(bits, pos)), pos)
  {
    hide CloseGap, One;
    if pos < INLINE_SLOTS {
      RemoveBits(bits, pos, 0);
    }
    var f, f2 := FlagsOf(bits), FlagsOf(ClosedBits(bits, pos));
    forall i | 0 <= i < INLINE_SLOTS
      ensures i < pos ==> f2[i] == f[i]
      ensures pos <= i ==> f2[i] == (i + 1 < INLINE_SLOTS && f[i + 1])
    {
      ClosedBitAt(bits, pos, i);
      FlagAt(bits, i);
      FlagAt(ClosedBits(bits, pos), i);
      if i + 1 < INLINE_SLOTS {
        FlagAt(bits, i + 1);
      }
    }
  }

  lemma ClosedBitAt(bits: Bitmap, pos: nat, i: nat)
    requires i < INLINE_SLOTS && bits < 0x2000
    ensures Bit(ClosedBits(bits, pos), i) == if i < pos then Bit(bits, i) else Bit(bits, i + 1)
  {
    if bits == 0 {
      NoBits(i);
      NoBits(i + 1);
    } else if pos < INLINE_SLOTS {
      RemoveBits(bits, pos, i);
    }
  }

  // ------------------------------------------------------------------ removing a child

  /** What the moves achieve, in terms of the decoded parts. */
  ghost predicate Shrunk(m: seq<byte>, m2: seq<byte>, size: nat, flags: Flags, flags2: Flags, pos: nat, hasValue: bool) {
    && pos < size && |m2| == |m|
    && Length(false, size - 1, hasValue) <= Length(false, size, hasValue) <= |m|
    && EdgesIn(m2, size - 1) == RaxRemove.Without(EdgesIn(m, size), pos)
    && SlotsIn(m2, flags2, false, size - 1) == RaxRemove.Without(SlotsIn(m, flags, false, size), pos)
    && (hasValue ==> WordAt(m2, Length(false, size - 1, hasValue) - WORD) == WordAt(m, Length(false, size, hasValue) - WORD))
  }

  method ShrinkBlock(a: array<byte>, size: nat, ghost flags: Flags, ghost flags2: Flags, pos: nat, hasValue: bool)
    requires pos < size && Length(false, size, hasValue) <= a.Length && Closed(flags, flags2, pos)
    modifies a
    ensures Shrunk(old(a[..]), a[..], size, flags, flags2, pos, hasValue)
  {
    hide SlotsIn, Narrowed, EdgesIn, WordAt;
    PtrsStep(size - 1);
    ghost var m := a[..];
    var tail := WORD * (size - pos - 1) + (if hasValue then WORD else 0);
    NarrowBlock(a, size, pos, Ptrs(size), Ptrs(size - 1), tail);
    NarrowedEdges(m, a[..], size, pos, Ptrs(size), Ptrs(size - 1), tail);
    NarrowedSlots(m, a[..], flags, flags2, size, pos, tail);
    if hasValue {
      // The value word moves like one more child.
      NarrowedWord(m, a[..], size, pos, Ptrs(size), Ptrs(size - 1), tail, size - 1);
    }
  }

  /** raxRemoveChildAtPtr as the rest of the model sees it. */
  ghost predicate ChildRemoved(before: Node, after: Node, pos: nat) {
    if before.compr then after == Node(before.key, false, [], [])
    else
      && pos < |before.edges| == |before.slots|
      && after == Node(before.key, false, RaxRemove.Without(before.edges, pos), RaxRemove.Without(before.slots, pos))
  }

  lemma ShrunkNode(m: seq<byte>, m2: seq<byte>, iskey: bool, isnull: bool, bits: Bitmap, bits2: Bitmap, size: nat, pos: nat)
    requires Shrunk(m, m2, size, FlagsOf(bits), FlagsOf(bits2), pos, iskey && !isnull)
    ensures ChildRemoved(DecodeOf(iskey, isnull, false, bits, size, m), DecodeOf(iskey, isnull, false, bits2, size - 1, m2), pos)
  {
  }

  lemma WithoutAscending(edges: seq<byte>, pos: nat)
    requires RaxTree.Ascending(edges) && pos < |edges|
    ensures RaxTree.Ascending(RaxRemove.Without(edges, pos))
  {
  }

  lemma ClosedUnused(bits: Bitmap, bits2: Bitmap, pos: nat, size: nat)
    requires Closed(FlagsOf(bits), FlagsOf(bits2), pos) && pos < size
    requires forall i | size <= i < INLINE_SLOTS :: !Bit(bits, i)
    ensures forall i | size - 1 <= i < INLINE_SLOTS :: !Bit(bits2, i)
  {
    forall i | size - 1 <= i < INLINE_SLOTS ensures !Bit(bits2, i) {
      FlagAt(bits2, i);
      if i + 1 < INLINE_SLOTS {
        FlagAt(bits, i + 1);
      }
    }
  }

  method ShrinkNode(a: array<byte>, iskey: bool, isnull: bool, bits: Bitmap, size: nat, pos: nat) returns (bits2: Bitmap)
    requires Length(false, size, iskey && !isnull) <= a.Length && pos < size && bits < 0x2000
    modifies a
    ensures bits2 < 0x2000 && Closed(FlagsOf(bits), FlagsOf(bits2), pos)
    ensures Length(false, size - 1, iskey && !isnull) <= a.Length
    ensures ChildRemoved(DecodeOf(iskey, isnull, false, bits, size, old(a[..])),
                         DecodeOf(iskey, isnull, false, bits2, size - 1, a[..]), pos)
  {
    ghost var m := a[..];
    ClosedBitsFlags(bits, pos);
    bits2 := ClosedBits(bits, pos);
    ShrinkBlock(a, size, FlagsOf(bits), FlagsOf(bits2), pos, iskey && !isnull);
    ShrunkNode(m, a[..], iskey, isnull, bits, bits2, size, pos);
  }

  /** raxGetData, NULL for a node that is no key. */
  method GetData(n: PackedNode) returns (data: seq<byte>)
    requires n.Valid()
    ensures |data| == WORD && n.Decode().key == if n.iskey then Some(Word(data)) else None
  {
    ZeroWord();
    if n.iskey && !n.isnull {
      data := n.mem[n.CurrentLength() - WORD..n.CurrentLength()];
    } else {
      data := seq(WORD, _ => 0);
    }
  }

  /** raxGetData and raxSetData around the fields that turn a compressed node into an empty one. */
  method EmptyCompressed(n: PackedNode)
    requires n.Valid() && n.iscompr
    modifies n, n.mem
    ensures InUse(n) && n.mem == old(n.mem) && ChildRemoved(old(n.Decode()), n.Decode(), 0)
    ensures n.isnull <==> n.Decode().key == Some(0)
  {
    hide One, Word, WordAt, Bit;
    var data := GetData(n);
    n.isnull := false;
    n.iscompr := false;
    n.size := 0;
    n.leafbitmap := 0;
    if n.iskey {
      SetData(n, data);
    }
    forall i | 0 <= i < INLINE_SLOTS ensures !Bit(n.leafbitmap, i) {
      NoBits(i);
    }
  }

  lemma ZeroWord()
    ensures Word(seq(WORD, _ => 0)) == 0
  {
    Zeros(WORD);
  }

  lemma {:induction false} Zeros(n: nat)
    ensures Word(seq(n, _ => 0)) == 0
  {
    if n > 0 {
      Zeros(n - 1);
      var z: seq<byte> := seq(n, _ => 0);
      assert z[1..] == seq(n - 1, _ => 0);
    }
  }

  /** Storing the value word leaves edges and children as they are. */
  lemma StoredValue(m: seq<byte>, m2: seq<byte>, flags: Flags, compr: bool, size: nat, w: seq<byte>)
    requires Length(compr, size, true) <= |m| && |w| == WORD
    requires m2 == StoreLeaf(m, Length(compr, size, false), w)
    ensures |m2| == |m| && WordAt(m2, Length(compr, size, false)) == w
    ensures EdgesIn(m2, size) == EdgesIn(m, size) && SlotsIn(m2, flags, compr, size) == SlotsIn(m, flags, compr, size)
  {
    var at := Length(compr, size, false);
    assert forall k | 0 <= k < at :: m2[k] == m[k];
    var e, e2 := EdgesIn(m, size), EdgesIn(m2, size);
    forall i | 0 <= i < size ensures e2[i] == e[i] {
      assert e[i] == m[HEADER + i] && e2[i] == m2[HEADER + i];
    }
    assert e2 == e;
    assert WordAt(m2, at) == w;
    SameSlots(m, m2, flags, compr, size);
  }

  lemma SameSlots(m: seq<byte>, m2: seq<byte>, flags: Flags, compr: bool, size: nat)
    requires Length(compr, size, false) <= |m| == |m2|
    requires forall k | 0 <= k < Length(compr, size, false) :: m2[k] == m[k]
    ensures SlotsIn(m2, flags, compr, size) == SlotsIn(m, flags, compr, size)
  {
    var s, s2 := SlotsIn(m, flags, compr, size), SlotsIn(m2, flags, compr, size);
    forall i | 0 <= i < ChildCount(compr, size) ensures s2[i] == s[i] {
      SlotsInAt(m, flags, compr, size, i);
      SlotsInAt(m2, flags, compr, size, i);
      EqualWords(m, Ptrs(size) + WORD * i, m2, Ptrs(size) + WORD * i);
    }
    assert s2 == s;
  }

  /** A node is decoded from the first bytes of its block; what follows does not matter. */
  lemma DecodeFirst(iskey: bool, isnull: bool, compr: bool, bits: Bitmap, size: nat, m: seq<byte>)
    requires Length(compr, size, iskey && !isnull) <= |m|
    ensures DecodeOf(iskey, isnull, compr, bits, size, m[..Length(compr, size, iskey && !isnull)])
         == DecodeOf(iskey, isnull, compr, bits, size, m)
  {
    var len := Length(compr, size, iskey && !isnull);
    var m2, rest := m[..len], Length(compr, size, false);
    SlotsPrefix(m, rest, FlagsOf(bits), compr, size);
    SlotsPrefix(m2, rest, FlagsOf(bits), compr, size);
    assert m2[..rest] == m[..rest];
    assert EdgesIn(m2, size) == EdgesIn(m, size);
    if iskey && !isnull {
      assert WordAt(m2, len - WORD) == WordAt(m, len - WORD);
    }
  }

  lemma SlotsPrefix(m: seq<byte>, len: nat, flags: Flags, compr: bool, size: nat)
    requires Length(compr, size, false) == len <= |m|
    ensures SlotsIn(m[..len], flags, compr, size) == SlotsIn(m, flags, compr, size)
  {
    var s, s2 := SlotsIn(m, flags, compr, size), SlotsIn(m[..len], flags, compr, size);
    forall i | 0 <= i < ChildCount(compr, size) ensures s2[i] == s[i] {
      SlotsInAt(m, flags, compr, size, i);
      SlotsInAt(m[..len], flags, compr, size, i);
      EqualWords(m, Ptrs(size) + WORD * i, m[..len], Ptrs(size) + WORD * i);
    }
    assert s2 == s;
  }

  /** The node whose value word has been stored. */
  lemma DecodedValue(m: seq<byte>, m2: seq<byte>, iskey: bool, isnull: bool, compr: bool, bits: Bitmap, size: nat, w: seq<byte>)
    requires Length(compr, size, true) <= |m| && |w| == WORD
    requires m2 == StoreLeaf(m, Length(compr, size, false), w)
    ensures |m2| == |m|
    ensures DecodeOf(true, false, compr, bits, size, m2)
         == DecodeOf(iskey, isnull, compr, bits, size, m).(key := Some(Word(w)))
  {
    hide Word, SlotsIn, EdgesIn, WordAt;
    StoredValue(m, m2, FlagsOf(bits), compr, size, w);
  }

  /** raxSetData, on a node with or without a value; a value that is not NULL needs room for its word. */
  method SetData(n: PackedNode, data: seq<byte>)
    requires n.Valid() && |data| == WORD
    requires Word(data) != 0 ==> Length(n.iscompr, n.size, true) <= n.mem.Length
    modifies n`iskey, n`isnull, n.mem
    ensures n.Valid() && n.mem == old(n.mem) && n.iskey
    ensures n.Decode() == old(n.Decode()).(key := Some(Word(data)))
    ensures n.isnull <==> Word(data) == 0
  {
    hide Word, SlotsIn, EdgesIn, WordAt, FlagsOf, StoreLeaf;
    n.iskey := true;
    if Word(data) != 0 {
      n.isnull := false;
      ghost var m := n.mem[..];
      StoreWord(n.mem, n.CurrentLength() - WORD, data);
      DecodedValue(m, n.mem[..], old(n.iskey), old(n.isnull), n.iscompr, n.leafbitmap, n.size, data);
    } else {
      n.isnull := true;
    }
  }

  /** raxRemoveChildAtPtr on the bytes: the edge and the child at `pos` are gone, the value and every
      other child are what they were. */
  method RemoveChildAtPtr(n: PackedNode, pos: nat)
    requires if n.iscompr then n.Valid() && pos == 0 else InUse(n) && pos < n.size
    modifies n, n.mem
    ensures InUse(n) && n.mem == old(n.mem)
    ensures ChildRemoved(old(n.Decode()), n.Decode(), pos)
    ensures if old(n.iscompr) then n.isnull <==> n.Decode().key == Some(0) else n.isnull == old(n.isnull)
  {
    hide One, Word, WordAt, KeyIn, Closed, ChildRemoved;
    if n.iscompr {
      EmptyCompressed(n);
      return;
    }
    ghost var m := n.mem[..];
    ghost var bits := n.leafbitmap;
    WithoutAscending(EdgesIn(m, n.size), pos);
    var bits2 := ShrinkNode(n.mem, n.iskey, n.isnull, n.leafbitmap, n.size, pos);
    n.size := n.size - 1;
    n.leafbitmap := bits2;
    ClosedUnused(bits, bits2, pos, n.size + 1);
  }

  /** The same step on the tree. */
  lemma ChildRemovedIsRemoveKid(t: Tree, after: Node, pos: nat)
    requires ChildRemoved(NodeOf(t), after, pos) && NodeOk(t) && pos < |t.kids|
    ensures after == NodeOf(RaxRemove.RemoveKid(t, pos))
  {
    if !t.compr {
      var want := SlotsOf(RaxRemove.RemoveKid(t, pos).kids);
      forall i | 0 <= i < |want| ensures after.slots[i] == want[i] {
        assert SlotsOf(t.kids)[if i < pos then i else i + 1] == want[i];
      }
    }
  }
}
