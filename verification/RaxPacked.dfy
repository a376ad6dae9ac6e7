/**
 The bytes of one raxNode. Edge bytes, padding, child words and the optional value word share one
 block, and children are added and removed by moving parts of it in place. Decoding the block before
 and after shows that this is insertion and deletion in the node that the rest of the model uses.
 */
module RaxPacked {
  import opened Keys
  import opened RaxTree
  import opened RaxHeap
  import RaxInsert

  const HEADER := 4  // sizeof(raxNode): the four header bytes
  const WORD := 8    // sizeof(void*)

  /** raxPadding. */
  function Padding(size: nat): nat {
    (WORD - (size + HEADER) % WORD) % WORD
  }

  /** Offset of the first child word (raxNodeFirstChildPtr). */
  function Ptrs(size: nat): nat {
    HEADER + size + Padding(size)
  }

  /** Child words are aligned, with as little padding as possible. */
  lemma PaddingLeast(size: nat)
    ensures Ptrs(size) % 8 == 0 && 4 + size <= Ptrs(size) < 4 + size + 8
  {
  }

  lemma PtrsStep(size: nat)
    ensures Ptrs(size + 1) == Ptrs(size) + (if (size + 1 + HEADER) % WORD == 1 then WORD else 0)
    ensures Ptrs(size) % WORD == 0
  {
  }

  /** A little-endian word. */
  function Word(b: seq<byte>): nat {
    if b == [] then 0 else b[0] + 256 * Word(b[1..])
  }

  /** A word is determined by its value. */
  lemma {:induction false} WordInjective(a: seq<byte>, b: seq<byte>)
    requires |a| == |b| && Word(a) == Word(b)
    ensures a == b
  {
    if a != [] {
      WordInjective(a[1..], b[1..]);
      assert a == [a[0]] + a[1..] && b == [b[0]] + b[1..];
    }
  }

  // ------------------------------------------------------------------ the leaf bitmap

  type Bitmap = bv16

  /** `1u << pos`. */
  function One(pos: nat): Bitmap
    requires pos < INLINE_SLOTS
  {
    if pos == 0 then 1 else One(pos - 1) << 1
  }

  lemma {:induction false} OneTable(pos: nat)
    requires pos < INLINE_SLOTS
    ensures One(pos) == (
              if pos == 0 then 1 else if pos == 1 then 2 else if pos == 2 then 4 else if pos == 3 then 8
              else if pos == 4 then 16 else if pos == 5 then 32 else if pos == 6 then 64 else if pos == 7 then 128
              else if pos == 8 then 256 else if pos == 9 then 512 else if pos == 10 then 1024 else if pos == 11 then 2048
              else 4096)
  {
    if pos > 0 {
      OneTable(pos - 1);
    }
  }

  /** raxIsInlineLeaf. */
  predicate Bit(b: Bitmap, i: nat) {
    i < INLINE_SLOTS && b & One(i) != 0
  }

  predicate PowerOfTwo(p: Bitmap) {
    p != 0 && p & (p - 1) == 0 && p <= 4096
  }

  lemma OnePower(i: nat)
    requires i < INLINE_SLOTS
    ensures PowerOfTwo(One(i))
    ensures i > 0 ==> One(i) >> 1 == One(i - 1)
    ensures i < 12 ==> One(i) << 1 == One(i + 1)
    ensures i == 12 ==> One(i) == 4096
  {
    OneTable(i);
    if i > 0 {
      OneTable(i - 1);
    }
  }

  lemma {:induction false} OneMonotone(i: nat, j: nat)
    requires i < j < INLINE_SLOTS
    ensures One(i) < One(j)
    decreases j - i
  {
    OneTable(i);
    OneTable(i + 1);
    if i + 1 < j {
      OneMonotone(i + 1, j);
    }
  }

  /** Making room at the position whose bit is `p`: bits from there on move up, and the one that
      leaves slot 12 is dropped. */
  function MakeRoom(b: Bitmap, p: Bitmap): Bitmap {
    var below := if p != 1 then b & (p - 1) else 0;
    var above := b & !below;
    below | ((above << 1) & 0x1FFF)
  }

  function CloseGap(b: Bitmap, p: Bitmap): Bitmap {
    var above := b & !((p << 1) - 1);
    var below := if p != 1 then b & (p - 1) else 0;
    below | (above >> 1)
  }

  /** The bit `q` after making room at `p`. */
  lemma InsertBit(b: Bitmap, p: Bitmap, q: Bitmap)
    requires PowerOfTwo(p) && PowerOfTwo(q)
    ensures q < p ==> (MakeRoom(b, p) & q != 0 <==> b & q != 0)
    ensures q == p ==> MakeRoom(b, p) & q == 0
    ensures q > p ==> (MakeRoom(b, p) & q != 0 <==> b & (q >> 1) != 0)
  {
  }

  lemma RemoveBit(b: Bitmap, p: Bitmap, q: Bitmap)
    requires PowerOfTwo(p) && PowerOfTwo(q) && b < 0x2000
    ensures q < p ==> (CloseGap(b, p) & q != 0 <==> b & q != 0)
    ensures q >= p ==> (CloseGap(b, p) & q != 0 <==> b & (q << 1) != 0)
    ensures CloseGap(b, p) < 0x2000
  {
  }

  lemma InsertRange(b: Bitmap, p: Bitmap)
    requires PowerOfTwo(p) && b < 0x2000
    ensures MakeRoom(b, p) < 0x2000
  {
  }

  lemma InsertBits(b: Bitmap, pos: nat, i: nat)
    requires pos < INLINE_SLOTS
    ensures Bit(MakeRoom(b, One(pos)), i)
       <==> if i < pos then Bit(b, i) else pos < i < INLINE_SLOTS && Bit(b, i - 1)
  {
    hide MakeRoom, PowerOfTwo, One;
    if i < INLINE_SLOTS {
      OnePower(pos);
      OnePower(i);
      if i < pos {
        OneMonotone(i, pos);
      } else if pos < i {
        OneMonotone(pos, i);
      }
      InsertBit(b, One(pos), One(i));
    }
  }

  lemma RemoveBits(b: Bitmap, pos: nat, i: nat)
    requires pos < INLINE_SLOTS && b < 0x2000
    ensures Bit(CloseGap(b, One(pos)), i) <==> if i < pos then Bit(b, i) else Bit(b, i + 1)
    ensures CloseGap(b, One(pos)) < 0x2000
  {
    hide CloseGap, PowerOfTwo, One, Bit;
    OnePower(pos);
    RemoveBit(b, One(pos), One(pos));
    if i < pos {
      LowBit(b, pos, i);
    } else if i < INLINE_SLOTS {
      HighBit(b, pos, i);
    } else {
      NoSuchBit(CloseGap(b, One(pos)), i);
      NoSuchBit(b, i + 1);
    }
  }

  lemma LowBit(b: Bitmap, pos: nat, i: nat)
    requires i < pos < INLINE_SLOTS && b < 0x2000
    ensures Bit(CloseGap(b, One(pos)), i) <==> Bit(b, i)
  {
    hide CloseGap, PowerOfTwo, One;
    OnePower(pos);
    OnePower(i);
    OneMonotone(i, pos);
    RemoveBit(b, One(pos), One(i));
  }

  lemma HighBit(b: Bitmap, pos: nat, i: nat)
    requires pos <= i < INLINE_SLOTS && b < 0x2000
    ensures Bit(CloseGap(b, One(pos)), i) <==> Bit(b, i + 1)
  {
    hide CloseGap, PowerOfTwo, One;
    OnePower(pos);
    OnePower(i);
    if pos < i { OneMonotone(pos, i); }
    RemoveBit(b, One(pos), One(i));
    NextBit(b, i);
  }

  lemma NoSuchBit(b: Bitmap, i: nat)
    requires i >= INLINE_SLOTS
    ensures !Bit(b, i)
  {
  }

  lemma NextBit(b: Bitmap, i: nat)
    requires i < INLINE_SLOTS && b < 0x2000
    ensures b & (One(i) << 1) != 0 <==> Bit(b, i + 1)
  {
    OnePower(i);
    if i == 12 {
      TopBit(b, One(12));
    }
  }

  /** There is no bit above slot 12. */
  lemma TopBit(b: Bitmap, q: Bitmap)
    requires b < 0x2000 && q == 4096
    ensures b & (q << 1) == 0
  {
  }

  // ------------------------------------------------------------------ reading a block

  function ChildCount(compr: bool, size: nat): nat {
    if compr then 1 else size
  }

  /** raxNodeCurrentLength. */
  function Length(compr: bool, size: nat, hasValue: bool): nat {
    Ptrs(size) + WORD * ChildCount(compr, size) + (if hasValue then WORD else 0)
  }

  function EdgesIn(m: seq<byte>, size: nat): seq<byte>
    requires HEADER + size <= |m|
  {
    m[HEADER..HEADER + size]
  }

  function WordAt(m: seq<byte>, at: nat): seq<byte>
    requires at + WORD <= |m|
  {
    m[at..at + WORD]
  }

  /** Child word `i` of a block whose child words start at `p`. */
  function ChildWord(m: seq<byte>, p: nat, i: nat): seq<byte>
    requires p + WORD * i + WORD <= |m|
  {
    WordAt(m, p + WORD * i)
  }

  type Flags = f: seq<bool> | |f| == INLINE_SLOTS witness seq(INLINE_SLOTS, _ => false)

  /** The bits of a bitmap as a list. */
  function FlagsOf(bits: Bitmap): Flags {
    seq(INLINE_SLOTS, i requires 0 <= i => Bit(bits, i))
  }

  function SlotIn(flags: Flags, i: nat, w: seq<byte>): Slot {
    if i < INLINE_SLOTS && flags[i] then Inline(Word(w)) else Ptr(Word(w))
  }

  function SlotsIn(m: seq<byte>, flags: Flags, compr: bool, size: nat): (slots: seq<Slot>)
    requires Ptrs(size) + WORD * ChildCount(compr, size) <= |m|
    ensures |slots| == ChildCount(compr, size)
  {
    seq(ChildCount(compr, size), i requires 0 <= i < ChildCount(compr, size) =>
        SlotIn(flags, i, ChildWord(m, Ptrs(size), i)))
  }

  lemma SlotsInAt(m: seq<byte>, flags: Flags, compr: bool, size: nat, i: nat)
    requires Ptrs(size) + WORD * ChildCount(compr, size) <= |m| && i < ChildCount(compr, size)
    ensures SlotsIn(m, flags, compr, size)[i] == SlotIn(flags, i, ChildWord(m, Ptrs(size), i))
  {
  }

  class PackedNode {
    var iskey: bool
    var isnull: bool
    var iscompr: bool
    var leafbitmap: Bitmap
    var size: nat
    var mem: array<byte>  // the whole allocation, header included

    ghost predicate Valid()
      reads this, mem
    {
      && size <= NODE_MAX_SIZE
      && leafbitmap < 0x2000
      && CurrentLength() <= mem.Length
    }

    function CurrentLength(): nat
      reads this
    {
      Length(iscompr, size, iskey && !isnull)
    }

    /** The node of the tree model that the block stands for. */
    ghost function Decode(): Node
      reads this, mem
      requires Valid()
    {
      DecodeOf(iskey, isnull, iscompr, leafbitmap, size, mem[..])
    }
  }

  function KeyIn(iskey: bool, isnull: bool, len: nat, m: seq<byte>): Option<Val>
    requires WORD <= len <= |m|
  {
    if !iskey then None
    else if isnull then Some(NULL)
    else Some(Word(WordAt(m, len - WORD)))
  }

  function DecodeOf(iskey: bool, isnull: bool, compr: bool, bits: Bitmap, size: nat, m: seq<byte>): Node
    requires Length(compr, size, iskey && !isnull) <= |m|
  {
    Node(KeyIn(iskey, isnull, Length(compr, size, iskey && !isnull), m), compr, EdgesIn(m, size),
         SlotsIn(m, FlagsOf(bits), compr, size))
  }

  // ------------------------------------------------------------------ moving bytes

  /** `m2` is `m` after memmove(dst, src, n). */
  ghost predicate Moved(m: seq<byte>, m2: seq<byte>, dst: nat, src: nat, n: nat) {
    && |m2| == |m| && dst + n <= |m| && src + n <= |m|
    && (forall k | 0 <= k < |m2| && !(dst <= k < dst + n) :: m2[k] == m[k])
    && (forall k | dst <= k < dst + n :: m2[k] == m[k - dst + src])
  }

  method Memmove(a: array<byte>, dst: nat, src: nat, n: nat)
    requires dst + n <= a.Length && src + n <= a.Length
    modifies a
    ensures Moved(old(a[..]), a[..], dst, src, n)
  {
    forall i | dst <= i < dst + n {
      a[i] := a[src + i - dst];
    }
  }

  ghost predicate MovedIf(cond: bool, m: seq<byte>, m2: seq<byte>, dst: nat, src: nat, n: nat) {
    if cond then Moved(m, m2, dst, src, n) else m2 == m
  }

  method MemmoveIf(cond: bool, a: array<byte>, dst: nat, src: nat, n: nat)
    requires cond ==> dst + n <= a.Length && src + n <= a.Length
    modifies a
    ensures MovedIf(cond, old(a[..]), a[..], dst, src, n)
  {
    if cond {
      Memmove(a, dst, src, n);
    }
  }

  /** Block `m2` is block `m` after an edge `c` was inserted at `pos`. `p1` and `p2` are the offsets
      of the child words before and after, `l1` and `l2` the lengths. The new word is stale. */
  ghost predicate Widened(m: seq<byte>, m2: seq<byte>, size: nat, pos: nat, c: byte, p1: nat, p2: nat, l1: nat, l2: nat) {
    && pos <= size && HEADER + size <= p1 <= p2 && p2 + WORD * size + WORD <= l2 <= |m2| == |m| && WORD <= l1 <= l2
    && p1 + WORD * size <= l1 && HEADER + size < p2
    && (forall k | HEADER <= k < HEADER + pos :: m2[k] == m[k])
    && m2[HEADER + pos] == c
    && (forall k | HEADER + pos < k <= HEADER + size :: m2[k] == m[k - 1])
    && (forall k | p2 <= k < p2 + WORD * pos :: m2[k] == m[k - (p2 - p1)])
    && (forall k | p2 + WORD * pos + WORD <= k < p2 + WORD * size + WORD :: m2[k] == m[k - WORD - (p2 - p1)])
  }

  ghost predicate SameTail(m: seq<byte>, m2: seq<byte>, l1: nat, l2: nat) {
    && WORD <= l1 <= |m| && WORD <= l2 <= |m2|
    && forall k | l2 - WORD <= k < l2 :: m2[k] == m[k - l2 + l1]
  }

  /** The four moves of raxAddChildNoAlloc, in their order. */
  lemma WidenMoves(m0: seq<byte>, m1: seq<byte>, m2: seq<byte>, m3: seq<byte>, m4: seq<byte>, size: nat, pos: nat, c: byte,
                   p1: nat, p2: nat, l1: nat, l2: nat, hasValue: bool)
    requires pos <= size && HEADER + size <= p1 && WORD <= p1 && (p2 == p1 || p2 == p1 + WORD) && HEADER + size < p2
    requires l1 == p1 + WORD * size + (if hasValue then WORD else 0) && l2 == l1 + WORD + (p2 - p1) && l2 <= |m0|
    requires WORD <= l1 && MovedIf(hasValue, m0, m1, l2 - WORD, l1 - WORD, WORD)
    requires Moved(m1, m2, p2 + WORD * pos + WORD, p1 + WORD * pos, WORD * (size - pos))
    requires MovedIf(p2 != p1, m2, m3, p2, p1, WORD * pos)
    requires Moved(m3, m4, HEADER + pos + 1, HEADER + pos, size - pos)
    ensures Widened(m0, m4[HEADER + pos := c], size, pos, c, p1, p2, l1, l2)
    ensures hasValue ==> SameTail(m0, m4[HEADER + pos := c], l1, l2)
  {
    assert forall k | 0 <= k < p2 + WORD * size + WORD && k < l2 - (if hasValue then WORD else 0) :: m1[k] == m0[k];
    EdgePart(m1, m2, m3, m4, size, pos, p1, p2);
    ChildPart(m1, m2, m3, m4, size, pos, p1, p2);
    if hasValue {
      assert forall k | l2 - WORD <= k < l2 :: m4[k] == m1[k];
    }
  }

  lemma EdgePart(m1: seq<byte>, m2: seq<byte>, m3: seq<byte>, m4: seq<byte>, size: nat, pos: nat, p1: nat, p2: nat)
    requires pos <= size && HEADER + size <= p1 <= p2
    requires Moved(m1, m2, p2 + WORD * pos + WORD, p1 + WORD * pos, WORD * (size - pos))
    requires if p2 != p1 then Moved(m2, m3, p2, p1, WORD * pos) else m3 == m2
    requires Moved(m3, m4, HEADER + pos + 1, HEADER + pos, size - pos)
    ensures forall k | HEADER <= k < HEADER + pos :: m4[k] == m1[k]
    ensures forall k | HEADER + pos < k <= HEADER + size :: m4[k] == m1[k - 1]
  {
    assert forall k | HEADER <= k < HEADER + size :: m2[k] == m1[k];
    assert forall k | HEADER <= k < HEADER + size :: m3[k] == m2[k];
  }

  lemma ChildPart(m1: seq<byte>, m2: seq<byte>, m3: seq<byte>, m4: seq<byte>, size: nat, pos: nat, p1: nat, p2: nat)
    requires pos <= size && HEADER + size <= p1 <= p2 && HEADER + size < p2
    requires Moved(m1, m2, p2 + WORD * pos + WORD, p1 + WORD * pos, WORD * (size - pos))
    requires if p2 != p1 then Moved(m2, m3, p2, p1, WORD * pos) else m3 == m2
    requires Moved(m3, m4, HEADER + pos + 1, HEADER + pos, size - pos)
    ensures forall k | p2 <= k < p2 + WORD * pos :: m4[k] == m1[k - (p2 - p1)]
    ensures forall k | p2 + WORD * pos + WORD <= k < p2 + WORD * size + WORD :: m4[k] == m1[k - WORD - (p2 - p1)]
    ensures forall k | p2 + WORD * size + WORD <= k < |m4| :: m4[k] == m1[k]
  {
    var d := p2 - p1;
    assert forall k | p2 <= k < |m4| :: m4[k] == m3[k];
    assert forall k | p2 + WORD * pos <= k < |m3| :: m3[k] == m2[k];
    assert forall k | p1 <= k < p1 + WORD * pos :: m2[k] == m1[k];
    forall k | p2 <= k < p2 + WORD * pos ensures m3[k] == m1[k - d] {
      assert m3[k] == m2[k - d];
    }
  }

  /** The moves of raxAddChildNoAlloc on a block that has been reallocated to its new length `l2`.
      The child words start at `p1` and are to start at `p2`. */
  method WidenBlock(a: array<byte>, size: nat, pos: nat, c: byte, p1: nat, p2: nat, l1: nat, l2: nat, hasValue: bool)
    requires pos <= size && HEADER + size <= p1 && WORD <= p1 && (p2 == p1 || p2 == p1 + WORD) && HEADER + size < p2
    requires l1 == p1 + WORD * size + (if hasValue then WORD else 0) && l2 == l1 + WORD + (p2 - p1) && l2 <= a.Length
    modifies a
    ensures Widened(old(a[..]), a[..], size, pos, c, p1, p2, l1, l2)
    ensures hasValue ==> SameTail(old(a[..]), a[..], l1, l2)
  {
    hide Widened, Moved;
    ghost var m0 := a[..];
    ghost var m1, m2, m3 := WidenWords(a, size, pos, p1, p2, l1, l2, hasValue);
    // Edge bytes after the insertion point.
    Memmove(a, HEADER + pos + 1, HEADER + pos, size - pos);
    ghost var m4 := a[..];
    WidenMoves(m0, m1, m2, m3, m4, size, pos, c, p1, p2, l1, l2, hasValue);
    SetEdge(a, HEADER + pos, c);
  }

  method SetEdge(a: array<byte>, at: nat, c: byte)
    requires at < a.Length
    modifies a
    ensures a[..] == old(a[..])[at := c]
  {
    a[at] := c;
  }

  /** The moves of whole words; the ghost results are the block after each of them. */
  method WidenWords(a: array<byte>, size: nat, pos: nat, p1: nat, p2: nat, l1: nat, l2: nat, hasValue: bool)
    returns (ghost m1: seq<byte>, ghost m2: seq<byte>, ghost m3: seq<byte>)
    requires pos <= size && HEADER + size <= p1 && WORD <= p1 && (p2 == p1 || p2 == p1 + WORD) && HEADER + size < p2
    requires l1 == p1 + WORD * size + (if hasValue then WORD else 0) && l2 == l1 + WORD + (p2 - p1) && l2 <= a.Length
    modifies a
    ensures MovedIf(hasValue, old(a[..]), m1, l2 - WORD, l1 - WORD, WORD)
    ensures Moved(m1, m2, p2 + WORD * pos + WORD, p1 + WORD * pos, WORD * (size - pos))
    ensures MovedIf(p2 != p1, m2, m3, p2, p1, WORD * pos)
    ensures a[..] == m3
  {
    hide Moved;
    // The value first, so that the rest can be moved without overwriting it.
    MemmoveIf(hasValue, a, l2 - WORD, l1 - WORD, WORD);
    m1 := a[..];
    // Children after the insertion point, then those before it.
    Memmove(a, p2 + WORD * pos + WORD, p1 + WORD * pos, WORD * (size - pos));
    m2 := a[..];
    MemmoveIf(p2 != p1, a, p2, p1, WORD * pos);
    m3 := a[..];
  }

  // ------------------------------------------------------------------ adding a child

  lemma WidenedEdge(m: seq<byte>, m2: seq<byte>, size: nat, pos: nat, c: byte, p1: nat, p2: nat, l1: nat, l2: nat, i: nat)
    requires Widened(m, m2, size, pos, c, p1, p2, l1, l2) && i <= size
    ensures m2[HEADER + i] == RaxInsert.Insert(EdgesIn(m, size), pos, c)[i]
  {
    if i > pos {
      assert EdgesIn(m, size)[i - 1] == m[HEADER + i - 1];
    } else if i < pos {
      assert EdgesIn(m, size)[i] == m[HEADER + i];
    }
  }

  lemma WidenedEdges(m: seq<byte>, m2: seq<byte>, size: nat, pos: nat, c: byte, p1: nat, p2: nat, l1: nat, l2: nat)
    requires Widened(m, m2, size, pos, c, p1, p2, l1, l2)
    ensures EdgesIn(m2, size + 1) == RaxInsert.Insert(EdgesIn(m, size), pos, c)
  {
    var e, want := EdgesIn(m2, size + 1), RaxInsert.Insert(EdgesIn(m, size), pos, c);
    forall i | 0 <= i < |e| ensures e[i] == want[i] {
      assert e[i] == m2[HEADER + i];
      WidenedEdge(m, m2, size, pos, c, p1, p2, l1, l2, i);
    }
  }

  lemma WidenedWord(m: seq<byte>, m2: seq<byte>, size: nat, pos: nat, c: byte, p1: nat, p2: nat, l1: nat, l2: nat, i: nat)
    requires Widened(m, m2, size, pos, c, p1, p2, l1, l2) && i < size
    ensures ChildWord(m, p1, i) == ChildWord(m2, p2, if i < pos then i else i + 1)
  {
    var a, b := p1 + WORD * i, p2 + WORD * (if i < pos then i else i + 1);
    forall k | 0 <= k < WORD ensures WordAt(m, a)[k] == WordAt(m2, b)[k] {
      assert WordAt(m, a)[k] == m[a + k] && WordAt(m2, b)[k] == m2[b + k];
    }
  }

  predicate SpillsOut(flags: Flags, pos: nat) {
    pos <= 12 && flags[12]
  }

  /** The child slots with an inline child 12 replaced by a node at the address `leaf`. */
  function Spilled(slots: seq<Slot>, pos: nat, leaf: nat): seq<Slot> {
    if pos <= 12 && 12 < |slots| && slots[12].Inline? then slots[12 := Ptr(leaf)] else slots
  }

  /** On nodes the same as spilling in the tree model. */
  lemma SpilledIsSpillKids(kids: seq<Kid>, pos: nat, leaf: Addr)
    ensures Spilled(SlotsOf(kids), pos, leaf) == SlotsOf(RaxInsert.SpillKids(kids, pos, leaf))
  {
    var k2 := RaxInsert.SpillKids(kids, pos, leaf);
    forall i | 0 <= i < |kids| ensures Spilled(SlotsOf(kids), pos, leaf)[i] == SlotsOf(k2)[i] {
      assert SlotsOf(kids)[i] == SlotOf(kids[i]);
    }
  }

  function NewBits(bits: Bitmap, pos: nat): Bitmap {
    if bits != 0 && pos < INLINE_SLOTS then MakeRoom(bits, One(pos)) else bits
  }

  /** The list of flags after making room at `pos`. */
  ghost predicate Shifted(flags: Flags, flags2: Flags, pos: nat) {
    && (forall i | 0 <= i < INLINE_SLOTS && i < pos :: flags2[i] == flags[i])
    && (pos < INLINE_SLOTS ==> !flags2[pos])
    && (forall i | pos < i < INLINE_SLOTS :: flags2[i] == flags[i - 1])
  }

  lemma NewBitsShift(bits: Bitmap, pos: nat)
    requires bits < 0x2000
    ensures NewBits(bits, pos) < 0x2000
    ensures Shifted(FlagsOf(bits), FlagsOf(NewBits(bits, pos)), pos)
  {
    if pos < INLINE_SLOTS {
      OnePower(pos);
      InsertRange(bits, One(pos));
    }
    var f, f2 := FlagsOf(bits), FlagsOf(NewBits(bits, pos));
    forall i | 0 <= i < INLINE_SLOTS
      ensures i < pos ==> f2[i] == f[i]
      ensures i == pos ==> !f2[i]
      ensures pos < i ==> f2[i] == f[i - 1]
    {
      NewBitAt(bits, pos, i);
      FlagAt(bits, i);
      FlagAt(NewBits(bits, pos), i);
      if i > 0 {
        FlagAt(bits, i - 1);
      }
    }
  }

  lemma FlagAt(bits: Bitmap, i: nat)
    requires i < INLINE_SLOTS
    ensures FlagsOf(bits)[i] == Bit(bits, i)
  {
  }

  lemma NewBitAt(bits: Bitmap, pos: nat, i: nat)
    requires i < INLINE_SLOTS
    ensures Bit(NewBits(bits, pos), i) == if i < pos then Bit(bits, i) else i > pos && Bit(bits, i - 1)
  {
    if bits == 0 {
      NoBits(i);
      if i > 0 { NoBits(i - 1); }
    } else if pos < INLINE_SLOTS {
      InsertBits(bits, pos, i);
    }
  }

  lemma NoBits(i: nat)
    ensures !Bit(0, i)
  {
    if i < INLINE_SLOTS {
      NoBit(One(i));
    }
  }

  lemma NoBit(q: Bitmap)
    ensures 0 & q == 0
  {
  }

  /** The words of the children were moved, not changed: child `j` of `m` is child `j` or `j + 1`
      of `m2`. */
  ghost predicate SameWords(m: seq<byte>, m2: seq<byte>, size: nat, pos: nat, p1: nat, p2: nat) {
    && p1 + WORD * size <= |m| && p2 + WORD * size + WORD <= |m2|
    && (forall j | 0 <= j < size :: ChildWord(m, p1, j) == ChildWord(m2, p2, if j < pos then j else j + 1))
  }

  lemma WidenedWords(m: seq<byte>, m2: seq<byte>, size: nat, pos: nat, c: byte, p1: nat, p2: nat, l1: nat, l2: nat)
    requires Widened(m, m2, size, pos, c, p1, p2, l1, l2)
    ensures SameWords(m, m2, size, pos, p1, p2)
  {
    forall j | 0 <= j < size
      ensures ChildWord(m, p1, j) == ChildWord(m2, p2, if j < pos then j else j + 1)
    {
      WidenedWord(m, m2, size, pos, c, p1, p2, l1, l2, j);
    }
  }

  function StoreLeaf(m: seq<byte>, at: nat, leaf: seq<byte>): seq<byte>
    requires at + WORD <= |m|
  {
    m[..at] + leaf + m[at + WORD..]
  }

  /** The child words of the widened block, once the spilled leaf has been stored at slot 13. */
  lemma WidenedSlots(m: seq<byte>, m2: seq<byte>, m3: seq<byte>, flags: Flags, flags2: Flags, size: nat, pos: nat, p1: nat, p2: nat, leaf: seq<byte>)
    requires p1 == Ptrs(size) && p2 == Ptrs(size + 1) && SameWords(m, m2, size, pos, p1, p2) && pos <= size
    requires Shifted(flags, flags2, pos) && |leaf| == WORD && (SpillsOut(flags, pos) ==> 12 < size)
    requires m3 == if SpillsOut(flags, pos) then StoreLeaf(m2, p2 + WORD * 13, leaf) else m2
    ensures |m3| == |m2|
    ensures SlotsIn(m3, flags2, false, size + 1)
         == RaxInsert.Insert(Spilled(SlotsIn(m, flags, false, size), pos, Word(leaf)), pos,
                             Ptr(Word(ChildWord(m3, p2, pos))))
  {
    SpillWord(m2, m3, p2, SpillsOut(flags, pos), leaf, pos);
    var got := SlotsIn(m3, flags2, false, size + 1);
    var spilled := Spilled(SlotsIn(m, flags, false, size), pos, Word(leaf));
    var want := RaxInsert.Insert(spilled, pos, Ptr(Word(ChildWord(m3, p2, pos))));
    forall i | 0 <= i <= size ensures got[i] == want[i] {
      SlotsInAt(m3, flags2, false, size + 1, i);
      if i != pos {
        WidenedSlotAt(m, m2, m3, flags, flags2, size, pos, p1, p2, leaf, i);
      }
    }
  }

  lemma WidenedSlotAt(m: seq<byte>, m2: seq<byte>, m3: seq<byte>, flags: Flags, flags2: Flags, size: nat, pos: nat, p1: nat, p2: nat, leaf: seq<byte>, i: nat)
    requires p1 == Ptrs(size) && SameWords(m, m2, size, pos, p1, p2) && pos <= size
    requires Shifted(flags, flags2, pos) && |leaf| == WORD && (SpillsOut(flags, pos) ==> 12 < size)
    requires m3 == if SpillsOut(flags, pos) then StoreLeaf(m2, p2 + WORD * 13, leaf) else m2
    requires i <= size && i != pos
    ensures |m3| == |m2|
    ensures SlotIn(flags2, i, ChildWord(m3, p2, i))
         == Spilled(SlotsIn(m, flags, false, size), pos, Word(leaf))[if i < pos then i else i - 1]
  {
    var j := if i < pos then i else i - 1;
    SpillWord(m2, m3, p2, SpillsOut(flags, pos), leaf, i);
    assert ChildWord(m, p1, j) == ChildWord(m2, p2, i);
    SlotsInAt(m, flags, false, size, j);
    if 12 < size {
      SlotsInAt(m, flags, false, size, 12);
    }
  }

  lemma SpillWord(m2: seq<byte>, m3: seq<byte>, p2: nat, spill: bool, leaf: seq<byte>, i: nat)
    requires |leaf| == WORD && p2 + WORD * i + WORD <= |m2| && (spill ==> p2 + WORD * 14 <= |m2|)
    requires m3 == if spill then StoreLeaf(m2, p2 + WORD * 13, leaf) else m2
    ensures |m3| == |m2|
    ensures ChildWord(m3, p2, i) == if spill && i == 13 then leaf else ChildWord(m2, p2, i)
  {
    var a := p2 + WORD * i;
    forall k | 0 <= k < WORD
      ensures WordAt(m3, a)[k] == (if spill && i == 13 then leaf else WordAt(m2, a))[k]
    {
      assert WordAt(m3, a)[k] == m3[a + k];
    }
  }

  /** A node of the tree: sorted edges, and bits only for children that exist. */
  ghost predicate InUse(n: PackedNode)
    reads n, n.mem
  {
    && n.Valid() && !n.iscompr
    && RaxTree.Ascending(EdgesIn(n.mem[..], n.size))
    && forall i | n.size <= i < INLINE_SLOTS :: !Bit(n.leafbitmap, i)
  }

  /** realloc: the leading bytes are kept, the rest is stale. */
  method Realloc(a: array<byte>, len: nat) returns (b: array<byte>)
    ensures fresh(b) && b.Length == len
    ensures forall k | 0 <= k < len && k < a.Length :: b[k] == a[k]
  {
    b := new byte[len];
    var keep := if len < a.Length then len else a.Length;
    for i := 0 to keep
      invariant forall k | 0 <= k < i :: b[k] == a[k]
    {
      b[i] := a[i];
    }
  }

  lemma EqualWords(m: seq<byte>, a: nat, m2: seq<byte>, b: nat)
    requires a + WORD <= |m| && b + WORD <= |m2|
    requires forall k | b <= k < b + WORD :: m2[k] == m[k - b + a]
    ensures WordAt(m2, b) == WordAt(m, a)
  {
    forall k | 0 <= k < WORD ensures WordAt(m2, b)[k] == WordAt(m, a)[k] {
      assert WordAt(m2, b)[k] == m2[b + k];
    }
  }

  /** What a node reads depends on the bytes of its current length only. */
  lemma DecodePrefix(m: seq<byte>, m0: seq<byte>, size: nat, flags: Flags, len: nat, hasValue: bool)
    requires len == Length(false, size, hasValue) && len <= |m| && len <= |m0|
    requires forall k | 0 <= k < len :: m0[k] == m[k]
    ensures EdgesIn(m0, size) == EdgesIn(m, size)
    ensures SlotsIn(m0, flags, false, size) == SlotsIn(m, flags, false, size)
    ensures hasValue ==> WordAt(m0, len - WORD) == WordAt(m, len - WORD)
  {
    var s, s0 := SlotsIn(m, flags, false, size), SlotsIn(m0, flags, false, size);
    forall i | 0 <= i < size ensures s0[i] == s[i] {
      SlotsInAt(m, flags, false, size, i);
      SlotsInAt(m0, flags, false, size, i);
      EqualWords(m, Ptrs(size) + WORD * i, m0, Ptrs(size) + WORD * i);
    }
    if hasValue {
      EqualWords(m, len - WORD, m0, len - WORD);
    }
  }

  lemma TailWord(m: seq<byte>, m2: seq<byte>, l1: nat, l2: nat)
    requires SameTail(m, m2, l1, l2)
    ensures WordAt(m2, l2 - WORD) == WordAt(m, l1 - WORD)
  {
    EqualWords(m, l1 - WORD, m2, l2 - WORD);
  }

  /** Storing the spilled leaf touches neither the edges nor the value. */
  lemma SpillElsewhere(m2: seq<byte>, m3: seq<byte>, size: nat, len: nat, spill: bool, leaf: seq<byte>, hasValue: bool)
    requires |leaf| == WORD && len == Length(false, size, hasValue) && len <= |m2| && (spill ==> 13 < size)
    requires m3 == if spill then StoreLeaf(m2, Ptrs(size) + WORD * 13, leaf) else m2
    ensures |m3| == |m2| && EdgesIn(m3, size) == EdgesIn(m2, size)
    ensures hasValue ==> WordAt(m3, len - WORD) == WordAt(m2, len - WORD)
  {
    if spill {
      var at := Ptrs(size) + WORD * 13;
      assert forall k | 0 <= k < at :: m3[k] == m2[k];
      assert forall k | at + WORD <= k < |m2| :: m3[k] == m2[k];
      if hasValue {
        EqualWords(m2, len - WORD, m3, len - WORD);
      }
    }
  }

  /** The steps on the block: `m0` is `m` reallocated, `m2` widened, `m3` has the spilled leaf. */
  ghost predicate AddSteps(m: seq<byte>, m0: seq<byte>, m2: seq<byte>, m3: seq<byte>, size: nat, flags: Flags, pos: nat, c: byte,
                           leaf: seq<byte>, hasValue: bool) {
    var l1, l2 := Length(false, size, hasValue), Length(false, size + 1, hasValue);
    && l1 <= |m| && l2 == |m0| && l1 <= l2
    && (forall k | 0 <= k < l1 :: m0[k] == m[k])
    && Widened(m0, m2, size, pos, c, Ptrs(size), Ptrs(size + 1), l1, l2)
    && (hasValue ==> SameTail(m0, m2, l1, l2))
    && |leaf| == WORD && (SpillsOut(flags, pos) ==> 12 < size)
    && m3 == if SpillsOut(flags, pos) then StoreLeaf(m2, Ptrs(size + 1) + WORD * 13, leaf) else m2
  }

  lemma AddedEdges(m: seq<byte>, m0: seq<byte>, m2: seq<byte>, m3: seq<byte>, size: nat, flags: Flags, pos: nat, c: byte,
                   leaf: seq<byte>, hasValue: bool)
    requires AddSteps(m, m0, m2, m3, size, flags, pos, c, leaf, hasValue)
    ensures |m3| == Length(false, size + 1, hasValue)
    ensures EdgesIn(m3, size + 1) == RaxInsert.Insert(EdgesIn(m, size), pos, c)
    ensures hasValue ==> WordAt(m3, Length(false, size + 1, hasValue) - WORD) == WordAt(m, Length(false, size, hasValue) - WORD)
  {
    hide EdgesIn, SlotsIn, WordAt, SameTail, StoreLeaf, SpillsOut;
    var l1, l2 := Length(false, size, hasValue), Length(false, size + 1, hasValue);
    DecodePrefix(m, m0, size, flags, l1, hasValue);
    WidenedEdges(m0, m2, size, pos, c, Ptrs(size), Ptrs(size + 1), l1, l2);
    SpillElsewhere(m2, m3, size + 1, l2, SpillsOut(flags, pos), leaf, hasValue);
    if hasValue {
      TailWord(m0, m2, l1, l2);
    }
  }

  lemma AddedSlots(m: seq<byte>, m0: seq<byte>, m2: seq<byte>, m3: seq<byte>, size: nat, flags: Flags, flags2: Flags, pos: nat, c: byte,
                   leaf: seq<byte>, hasValue: bool)
    requires AddSteps(m, m0, m2, m3, size, flags, pos, c, leaf, hasValue) && Shifted(flags, flags2, pos)
    ensures |m3| == Length(false, size + 1, hasValue)
    ensures SlotsIn(m3, flags2, false, size + 1)
         == RaxInsert.Insert(Spilled(SlotsIn(m, flags, false, size), pos, Word(leaf)), pos,
                             Ptr(Word(ChildWord(m3, Ptrs(size + 1), pos))))
  {
    var l1, l2 := Length(false, size, hasValue), Length(false, size + 1, hasValue);
    DecodePrefix(m, m0, size, flags, l1, hasValue);
    WidenedWords(m0, m2, size, pos, c, Ptrs(size), Ptrs(size + 1), l1, l2);
    WidenedSlots(m0, m2, m3, flags, flags2, size, pos, Ptrs(size), Ptrs(size + 1), leaf);
  }

  method StoreWord(a: array<byte>, at: nat, w: seq<byte>)
    requires at + WORD <= a.Length && |w| == WORD
    modifies a
    ensures a[..] == StoreLeaf(old(a[..]), at, w)
  {
    forall i | at <= i < at + WORD {
      a[i] := w[i - at];
    }
  }

  /** The reallocation and the moves of raxAddChildNoAlloc. */
  method BuildWider(mem: array<byte>, size: nat, bits: Bitmap, pos: nat, c: byte, leaf: seq<byte>, hasValue: bool)
    returns (a: array<byte>, ghost m0: seq<byte>, ghost m2: seq<byte>)
    requires Length(false, size, hasValue) <= mem.Length && pos <= size && |leaf| == WORD
    requires SpillsOut(FlagsOf(bits), pos) ==> 12 < size
    ensures fresh(a)
    ensures AddSteps(mem[..], m0, m2, a[..], size, FlagsOf(bits), pos, c, leaf, hasValue)
  {
    hide Widened, SameTail, StoreLeaf, FlagsOf, Bit, Word;
    var l1, l2 := Length(false, size, hasValue), Length(false, size + 1, hasValue);
    PtrsStep(size);
    a := Realloc(mem, l2);
    m0 := a[..];
    WidenBlock(a, size, pos, c, Ptrs(size), Ptrs(size + 1), l1, l2, hasValue);
    m2 := a[..];
    FlagAt(bits, 12);
    if pos <= 12 && Bit(bits, 12) {
      StoreWord(a, Ptrs(size + 1) + WORD * 13, leaf);
    }
  }

  /** What the steps achieve, in terms of the decoded parts. */
  ghost predicate Grown(m: seq<byte>, m3: seq<byte>, size: nat, flags: Flags, flags2: Flags, pos: nat, c: byte,
                        leaf: seq<byte>, hasValue: bool) {
    var l1, l2 := Length(false, size, hasValue), Length(false, size + 1, hasValue);
    && pos <= size && l1 <= |m| && l2 == |m3| && (SpillsOut(flags, pos) ==> 12 < size)
    && EdgesIn(m3, size + 1) == RaxInsert.Insert(EdgesIn(m, size), pos, c)
    && SlotsIn(m3, flags2, false, size + 1)
       == RaxInsert.Insert(Spilled(SlotsIn(m, flags, false, size), pos, Word(leaf)), pos,
                           Ptr(Word(ChildWord(m3, Ptrs(size + 1), pos))))
    && (hasValue ==> WordAt(m3, l2 - WORD) == WordAt(m, l1 - WORD))
  }

  method GrowBlock(mem: array<byte>, size: nat, bits: Bitmap, ghost flags2: Flags, pos: nat, c: byte, leaf: seq<byte>, hasValue: bool)
    returns (a: array<byte>)
    requires Length(false, size, hasValue) <= mem.Length && pos <= size && |leaf| == WORD
    requires SpillsOut(FlagsOf(bits), pos) ==> 12 < size
    requires Shifted(FlagsOf(bits), flags2, pos)
    ensures fresh(a) && Grown(mem[..], a[..], size, FlagsOf(bits), flags2, pos, c, leaf, hasValue)
  {
    ghost var m0, m2;
    a, m0, m2 := BuildWider(mem, size, bits, pos, c, leaf, hasValue);
    AddedEdges(mem[..], m0, m2, a[..], size, FlagsOf(bits), pos, c, leaf, hasValue);
    AddedSlots(mem[..], m0, m2, a[..], size, FlagsOf(bits), flags2, pos, c, leaf, hasValue);
  }

  lemma GrownNode(m: seq<byte>, m3: seq<byte>, iskey: bool, isnull: bool, bits: Bitmap, bits2: Bitmap, size: nat,
                  pos: nat, c: byte, leaf: seq<byte>)
    requires Grown(m, m3, size, FlagsOf(bits), FlagsOf(bits2), pos, c, leaf, iskey && !isnull)
    ensures var before := DecodeOf(iskey, isnull, false, bits, size, m);
            DecodeOf(iskey, isnull, false, bits2, size + 1, m3)
            == Node(before.key, false, RaxInsert.Insert(before.edges, pos, c),
                    RaxInsert.Insert(Spilled(before.slots, pos, Word(leaf)), pos,
                                     Ptr(Word(ChildWord(m3, Ptrs(size + 1), pos)))))
  {
  }

  /** The node `after` is `before` with the edge `c` inserted at `pos` and a stale slot. */
  ghost predicate ChildAdded(before: Node, after: Node, pos: nat, c: byte, leaf: nat, stale: nat) {
    && pos <= |before.edges| == |before.slots|
    && after == Node(before.key, false, RaxInsert.Insert(before.edges, pos, c),
                     RaxInsert.Insert(Spilled(before.slots, pos, leaf), pos, Ptr(stale)))
  }

  lemma InsertAscending(before: Node, after: Node, pos: nat, c: byte, leaf: nat, stale: nat)
    requires ChildAdded(before, after, pos, c, leaf, stale)
    requires RaxTree.Ascending(before.edges) && RaxInsert.EdgePos(before.edges, pos, c)
    ensures RaxTree.Ascending(after.edges)
  {
  }

  /** Bits below `size` only become bits below `size + 1` only. */
  lemma ShiftedUnused(bits: Bitmap, bits2: Bitmap, pos: nat, size: nat)
    requires Shifted(FlagsOf(bits), FlagsOf(bits2), pos) && pos <= size
    requires forall i | size <= i < INLINE_SLOTS :: !Bit(bits, i)
    ensures forall i | size + 1 <= i < INLINE_SLOTS :: !Bit(bits2, i)
  {
    forall i | size + 1 <= i < INLINE_SLOTS ensures !Bit(bits2, i) {
      FlagAt(bits2, i);
      FlagAt(bits, i - 1);
    }
  }

  method GrowNode(mem: array<byte>, iskey: bool, isnull: bool, bits: Bitmap, size: nat, pos: nat, c: byte, leaf: seq<byte>)
    returns (a: array<byte>, bits2: Bitmap, ghost stale: nat)
    requires Length(false, size, iskey && !isnull) <= mem.Length && pos <= size && |leaf| == WORD && bits < 0x2000
    requires SpillsOut(FlagsOf(bits), pos) ==> 12 < size
    ensures fresh(a) && bits2 < 0x2000 && a.Length == Length(false, size + 1, iskey && !isnull)
    ensures Shifted(FlagsOf(bits), FlagsOf(bits2), pos)
    ensures ChildAdded(DecodeOf(iskey, isnull, false, bits, size, mem[..]),
                       DecodeOf(iskey, isnull, false, bits2, size + 1, a[..]), pos, c, Word(leaf), stale)
  {
    NewBitsShift(bits, pos);
    bits2 := NewBits(bits, pos);
    a := GrowBlock(mem, size, bits, FlagsOf(bits2), pos, c, leaf, iskey && !isnull);
    GrownNode(mem[..], a[..], iskey, isnull, bits, bits2, size, pos, c, leaf);
    stale := Word(ChildWord(a[..], Ptrs(size + 1), pos));
  }

  /** Where the new edge goes, and why an inline child 12 exists when its bit is set. */
  method EdgePosition(n: PackedNode, c: byte) returns (pos: nat)
    requires InUse(n) && c !in EdgesIn(n.mem[..], n.size)
    ensures pos <= n.size <= 256 && RaxInsert.EdgePos(n.Decode().edges, pos, c)
    ensures SpillsOut(FlagsOf(n.leafbitmap), pos) ==> 12 < n.size
  {
    RaxInsert.AscendingBound(EdgesIn(n.mem[..], n.size));
    pos := RaxInsert.FindChildPos(n.mem[HEADER..HEADER + n.size], c);
    FlagAt(n.leafbitmap, 12);
  }

  /** The grown block replaces the old one. */
  method Install(n: PackedNode, a: array<byte>, bits2: Bitmap)
    requires n.Valid() && !n.iscompr && n.size < NODE_MAX_SIZE && bits2 < 0x2000
    requires Length(false, n.size + 1, n.iskey && !n.isnull) <= a.Length
    requires RaxTree.Ascending(EdgesIn(a[..], n.size + 1))
    requires forall i | n.size + 1 <= i < INLINE_SLOTS :: !Bit(bits2, i)
    modifies n`mem, n`size, n`leafbitmap
    ensures InUse(n)
    ensures n.Decode() == DecodeOf(old(n.iskey), old(n.isnull), false, bits2, old(n.size) + 1, a[..])
  {
    n.mem := a;
    n.size := n.size + 1;
    n.leafbitmap := bits2;
  }

  /** raxAddChildNoAlloc on the bytes. `leaf` is the address of the value node allocated for child 12
      in case it has to be spilled. The result is the node of the tree model with the edge and a
      stale slot inserted. */
  method AddChildNoAlloc(n: PackedNode, c: byte, leaf: seq<byte>) returns (pos: nat, ghost stale: nat)
    requires InUse(n) && c !in EdgesIn(n.mem[..], n.size) && |leaf| == WORD
    modifies n
    ensures InUse(n) && RaxInsert.EdgePos(old(n.Decode()).edges, pos, c)
    ensures ChildAdded(old(n.Decode()), n.Decode(), pos, c, Word(leaf), stale) && n.isnull == old(n.isnull)
  {
    hide One, Word, EdgesIn, SlotsIn, ChildAdded, Shifted;
    pos := EdgePosition(n, c);
    var a, bits2;
    a, bits2, stale := GrowNode(n.mem, n.iskey, n.isnull, n.leafbitmap, n.size, pos, c, leaf);
    InsertAscending(n.Decode(), DecodeOf(n.iskey, n.isnull, false, bits2, n.size + 1, a[..]), pos, c, Word(leaf), stale);
    ShiftedUnused(n.leafbitmap, bits2, pos, n.size);
    Install(n, a, bits2);
  }

  /** The same step on the tree: insertion of a child, with an inline child 12 turned into a node. */
  lemma ChildAddedIsAddKid(t: Tree, after: Node, pos: nat, c: byte, leaf: Addr, stale: nat, kid: Kid)
    requires ChildAdded(NodeOf(t), after, pos, c, leaf, stale) && !t.compr && SlotOf(kid) == Ptr(stale)
    ensures |t.kids| == |t.edges|
    ensures after == NodeOf(RaxInsert.AddKid(t.(kids := RaxInsert.SpillKids(t.kids, pos, leaf)), pos, c, kid))
  {
    SpilledIsSpillKids(t.kids, pos, leaf);
    var spilled := RaxInsert.SpillKids(t.kids, pos, leaf);
    var want := SlotsOf(spilled[..pos] + [kid] + spilled[pos..]);
    forall i | 0 <= i < |want| ensures after.slots[i] == want[i] {
      if i != pos {
        assert SlotsOf(spilled)[if i < pos then i else i - 1] == want[i];
      }
    }
  }
}
