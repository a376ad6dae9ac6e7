/**
 The other direction of `RaxPacked`: every node whose words fit 64 bits can be stored as bytes, and the
 bytes decode to it. Together with the layout, read off with plain offsets, this says what a block is.
 */
module RaxEncode {
  import opened Keys
  import opened RaxTree
  import opened RaxHeap
  import opened RaxPacked

  // ------------------------------------------------------------------ words

  /** The low `n` bytes of a number, low byte first. */
  function BytesOf(v: nat, n: nat): (b: seq<byte>)
    ensures |b| == n
  {
    if n == 0 then [] else [v % 256] + BytesOf(v / 256, n - 1)
  }

  function Pow256(n: nat): nat {
    if n == 0 then 1 else 256 * Pow256(n - 1)
  }

  lemma {:induction false} WordOfBytes(v: nat, n: nat)
    requires v < Pow256(n)
    ensures Word(BytesOf(v, n)) == v
  {
    if n > 0 {
      WordOfBytes(v / 256, n - 1);
      assert BytesOf(v, n)[1..] == BytesOf(v / 256, n - 1);
    }
  }

  lemma WordOf64(v: nat)
    requires v < 0x1_0000_0000_0000_0000
    ensures Word(BytesOf(v, 8)) == v
  {
    assert Pow256(4) == 0x1_0000_0000;
    assert Pow256(8) == 0x1_0000_0000_0000_0000;
    WordOfBytes(v, 8);
  }

  // ------------------------------------------------------------------ the bitmap

  function WithBit(b: Bitmap, p: Bitmap): Bitmap {
    b | p
  }

  /** The bitmap with exactly the bits of the first `n` flags. */
  function BitsOf(flags: seq<bool>, n: nat): Bitmap
    requires n <= |flags| && n <= INLINE_SLOTS
  {
    if n == 0 then 0 else if flags[n - 1] then WithBit(BitsOf(flags, n - 1), One(n - 1)) else BitsOf(flags, n - 1)
  }

  /** Setting bit `j`. */
  lemma BitSet(b: Bitmap, j: nat, i: nat)
    requires j < INLINE_SLOTS
    ensures Bit(WithBit(b, One(j)), i) <==> Bit(b, i) || i == j
  {
    hide PowerOfTwo, One, WithBit;
    if i < INLINE_SLOTS {
      OnePower(i);
      OnePower(j);
      if i < j { OneMonotone(i, j); }
      if j < i { OneMonotone(j, i); }
      SetBit(b, One(j), One(i));
    }
  }

  lemma SetBit(b: Bitmap, p: Bitmap, q: Bitmap)
    requires PowerOfTwo(p) && PowerOfTwo(q)
    ensures p != q ==> (WithBit(b, p) & q != 0 <==> b & q != 0)
    ensures p == q ==> WithBit(b, p) & q != 0
  {
  }

  lemma {:induction false} BitsAre(flags: seq<bool>, n: nat, i: nat)
    requires n <= |flags| && n <= INLINE_SLOTS
    ensures Bit(BitsOf(flags, n), i) <==> i < n && flags[i]
    ensures BitsOf(flags, n) < 0x2000
  {
    hide Bit, One, WithBit;
    if n == 0 {
      NothingSet(i);
    } else {
      BitsAre(flags, n - 1, i);
      if flags[n - 1] {
        BitSet(BitsOf(flags, n - 1), n - 1, i);
        InRange(BitsOf(flags, n - 1), n - 1);
      }
    }
  }

  lemma InRange(b: Bitmap, j: nat)
    requires j < INLINE_SLOTS && b < 0x2000
    ensures WithBit(b, One(j)) < 0x2000
  {
    hide One, WithBit;
    OnePower(j);
    OrRange(b, One(j));
  }

  lemma OrRange(b: Bitmap, p: Bitmap)
    requires b < 0x2000 && p <= 4096
    ensures WithBit(b, p) < 0x2000
  {
  }

  lemma NothingSet(i: nat)
    ensures !Bit(0, i)
  {
    if i < INLINE_SLOTS {
      AndZero(One(i));
    }
  }

  lemma AndZero(b: Bitmap)
    ensures 0 & b == 0
  {
  }

  // ------------------------------------------------------------------ the layout of a block

  /** What a block says, by plain offsets. The child words start at `p`, the first multiple of eight behind
      the edges; a compressed node has one child, any other one for every edge; the value comes last. */
  lemma Layout(iskey: bool, isnull: bool, compr: bool, bits: Bitmap, size: nat, m: seq<byte>, p: nat)
    requires Length(compr, size, iskey && !isnull) <= |m|
    requires p % 8 == 0 && 4 + size <= p < 12 + size
    ensures var n := DecodeOf(iskey, isnull, compr, bits, size, m);
            var count := if compr then 1 else size;
            && Length(compr, size, iskey && !isnull) == p + 8 * count + (if iskey && !isnull then 8 else 0)
            && n.compr == compr && n.edges == m[4..4 + size] && |n.slots| == count
            && (forall i | 0 <= i < count ::
                  n.slots[i] == if i < 13 && Bit(bits, i) then Inline(Word(m[p + 8 * i..p + 8 * i + 8]))
                                else Ptr(Word(m[p + 8 * i..p + 8 * i + 8])))
            && n.key == if !iskey then None else if isnull then Some(0)
                        else Some(Word(m[p + 8 * count..p + 8 * count + 8]))
  {
    hide Word, Bit;
    assert p == Ptrs(size) by {
      PaddingLeast(size);
    }
  }

  // ------------------------------------------------------------------ writing a block

  function SlotWord(s: Slot): nat {
    match s
    case Inline(v) => v
    case Ptr(a) => a
  }

  function SlotBytes(slots: seq<Slot>): (b: seq<byte>)
    ensures |b| == WORD * |slots|
  {
    if slots == [] then [] else SlotBytes(slots[..|slots| - 1]) + BytesOf(SlotWord(slots[|slots| - 1]), WORD)
  }

  lemma {:induction false} SlotBytesAt(slots: seq<Slot>, i: nat)
    requires i < |slots|
    ensures SlotBytes(slots)[WORD * i..WORD * i + WORD] == BytesOf(SlotWord(slots[i]), WORD)
  {
    var n := |slots| - 1;
    if i < n {
      SlotBytesAt(slots[..n], i);
      assert SlotBytes(slots)[WORD * i..WORD * i + WORD] == SlotBytes(slots[..n])[WORD * i..WORD * i + WORD];
    }
  }

  function InlineFlags(slots: seq<Slot>): Flags {
    seq(INLINE_SLOTS, i requires 0 <= i => i < |slots| && slots[i].Inline?)
  }

  /** A node that C could store: sizes and words fit, and inline leaves are below slot 13. */
  ghost predicate Storable(n: Node) {
    && |n.edges| <= 65535 && |n.slots| == (if n.compr then 1 else |n.edges|)
    && (forall i | 0 <= i < |n.slots| :: SlotWord(n.slots[i]) < 0x1_0000_0000_0000_0000 && (i >= 13 ==> n.slots[i].Ptr?))
    && (n.key.Some? ==> n.key.value < 0x1_0000_0000_0000_0000)
  }

  function HasWord(key: Option<Val>): bool {
    key.Some? && key.value != NULL
  }

  /** The header bytes are fields of `PackedNode`, and zero here. */
  function Encode(n: Node): seq<byte> {
    seq(HEADER, _ => 0) + n.edges + seq(Padding(|n.edges|), _ => 0) + SlotBytes(n.slots)
    + if HasWord(n.key) then BytesOf(n.key.value, WORD) else []
  }

  function EncodedBits(n: Node): Bitmap {
    BitsOf(InlineFlags(n.slots), INLINE_SLOTS)
  }

  lemma EncodedFlags(slots: seq<Slot>)
    ensures FlagsOf(BitsOf(InlineFlags(slots), INLINE_SLOTS)) == InlineFlags(slots)
  {
    hide Bit, BitsOf;
    forall i: nat | i < INLINE_SLOTS
      ensures Bit(BitsOf(InlineFlags(slots), INLINE_SLOTS), i) == InlineFlags(slots)[i]
    {
      BitsAre(InlineFlags(slots), INLINE_SLOTS, i);
    }
  }

  /** Where the parts of an encoded node are. */
  lemma EncodedParts(n: Node)
    requires Storable(n)
    ensures var m, p := Encode(n), Ptrs(|n.edges|);
            && |m| == Length(n.compr, |n.edges|, HasWord(n.key))
            && p + WORD * |n.slots| <= |m|
            && m[HEADER..HEADER + |n.edges|] == n.edges && m[p..p + WORD * |n.slots|] == SlotBytes(n.slots)
            && (HasWord(n.key) ==> m[|m| - WORD..] == BytesOf(n.key.value, WORD))
  {
    hide SlotBytes, BytesOf;
  }

  lemma EncodedSlot(n: Node, i: nat)
    requires Storable(n) && i < |n.slots|
    ensures Ptrs(|n.edges|) + WORD * |n.slots| <= |Encode(n)|
    ensures SlotIn(FlagsOf(EncodedBits(n)), i, ChildWord(Encode(n), Ptrs(|n.edges|), i)) == n.slots[i]
  {
    hide Word, BytesOf, Bit, BitsOf, Encode;
    var m, p := Encode(n), Ptrs(|n.edges|);
    EncodedParts(n);
    EncodedFlags(n.slots);
    SlotBytesAt(n.slots, i);
    assert ChildWord(m, p, i) == m[p..p + WORD * |n.slots|][WORD * i..WORD * i + WORD];
    WordOf64(SlotWord(n.slots[i]));
  }

  /** Storing a node and reading it back. */
  lemma EncodeDecode(n: Node)
    requires Storable(n)
    ensures |Encode(n)| == Length(n.compr, |n.edges|, HasWord(n.key))
    ensures EncodedBits(n) < 0x2000
    ensures DecodeOf(n.key.Some?, n.key == Some(NULL), n.compr, EncodedBits(n), |n.edges|, Encode(n)) == n
  {
    hide Word, BytesOf, Bit, BitsOf, Encode, SlotIn;
    var m := Encode(n);
    EncodedParts(n);
    BitsAre(InlineFlags(n.slots), INLINE_SLOTS, 0);
    var slots := SlotsIn(m, FlagsOf(EncodedBits(n)), n.compr, |n.edges|);
    forall i | 0 <= i < |n.slots| ensures slots[i] == n.slots[i] {
      SlotsInAt(m, FlagsOf(EncodedBits(n)), n.compr, |n.edges|, i);
      EncodedSlot(n, i);
    }
    assert slots == n.slots;
    if HasWord(n.key) {
      WordOf64(n.key.value);
      assert WordAt(m, |m| - WORD) == m[|m| - WORD..];
    }
  }
}
