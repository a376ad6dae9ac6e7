/**
 The decoders of ds4_gpu_arena_stub.c, which pick rows out of an arena by index, against the
 reference decoders of ds4_source_formats.c.
 */
module ArenaDecode {
  import opened Keys
  import opened KvPlan
  import opened SourceFormats

  const FLOAT := 4  // sizeof(float)

  type u32 = x: nat | x <= 0xFFFF_FFFF

  datatype F8View = F8View(offset: u64, length: u64, rows: u32, cols: u32, stride: u32)

  /** The stride is in elements of two bytes. */
  datatype Bf16View = Bf16View(offset: u64, length: u64, rows: u32, cols: u32, stride: u32)

  class Arena {
    var ptr: seq<byte>  // the allocation
    var used: u64
    var valid: bool

    ghost predicate Valid()
      reads this
    {
      |ptr| <= MAX
    }

    /** arena_range_ok. */
    predicate RangeOk(offset: u64, bytes: u64)
      reads this
      requires Valid()
    {
      valid && offset <= |ptr| && bytes <= |ptr| - offset
    }
  }

  /** checked_mul_u64: None when the product does not fit. */
  datatype Checked = Fits(value: u64) | Overflow

  function CheckedMul(a: u64, b: u64): (r: Checked)
    ensures r == if a * b <= MAX then Fits(a * b) else Overflow
  {
    MulFits(a, b);
    if a != 0 && b > MAX / a then Overflow else Fits(a * b)
  }

  // ------------------------------------------------------------------ when a request is accepted

  /** What a request asks for, in unbounded arithmetic: the arena holds the view, the view holds its
      last row, the rows exist, and the output has room. */
  ghost predicate F8Fits(arenaValid: bool, arenaBytes: nat, v: F8View, rowIds: seq<u32>, outBytes: u64) {
    && arenaValid && rowIds != [] && v.rows > 0 && v.cols > 0 && v.stride > 0
    && v.offset + v.length <= arenaBytes
    && v.cols % F8_ELEMS == 0 && F8_BYTES * (v.cols / F8_ELEMS) <= v.stride
    && |rowIds| * v.cols * FLOAT <= outBytes
    && (v.rows - 1) * v.stride + F8_BYTES * (v.cols / F8_ELEMS) <= v.length
    && forall i | 0 <= i < |rowIds| :: rowIds[i] < v.rows
  }

  method F8RangeOk(arena: Arena, v: F8View, rowIds: seq<u32>, outBytes: u64) returns (ok: bool, values: u64)
    requires arena.Valid() && |rowIds| <= 0xFFFF_FFFF
    ensures ok <==> F8Fits(arena.valid, |arena.ptr|, v, rowIds, outBytes)
    ensures ok ==> values == |rowIds| * v.cols
  {
    values := 0;
    if !arena.valid { return false, 0; }
    if |rowIds| == 0 || v.rows == 0 || v.cols == 0 || v.stride == 0 { return false, 0; }
    if !arena.RangeOk(v.offset, v.length) { return false, 0; }
    if v.cols % F8_ELEMS != 0 { return false, 0; }
    var rowBytes := v.cols / F8_ELEMS * F8_BYTES;
    if v.stride < rowBytes { return false, 0; }
    var n := CheckedMul(|rowIds|, v.cols);
    if n.Overflow? { return false, 0; }
    values := n.value;
    var out := CheckedMul(values, FLOAT);
    if out.Overflow? || outBytes < out.value { return false, values; }
    var last := CheckedMul(v.rows - 1, v.stride);
    if last.Overflow? { return false, values; }
    if last.value > v.length || rowBytes > v.length - last.value { return false, values; }
    for i := 0 to |rowIds|
      invariant forall k | 0 <= k < i :: rowIds[k] < v.rows
    {
      if rowIds[i] >= v.rows { return false, values; }
    }
    return true, values;
  }

  ghost predicate Bf16Fits(arenaValid: bool, arenaBytes: nat, v: Bf16View, rowIds: seq<u32>, outBytes: u64) {
    && arenaValid && rowIds != [] && v.rows > 0 && v.cols > 0 && v.cols <= v.stride
    && v.offset % 2 == 0 && v.length % 2 == 0
    && v.offset + v.length <= arenaBytes
    && |rowIds| * v.cols * FLOAT <= outBytes
    && 2 * ((v.rows - 1) * v.stride + v.cols) <= v.length
    && forall i | 0 <= i < |rowIds| :: rowIds[i] < v.rows
  }

  method Bf16RangeOk(arena: Arena, v: Bf16View, rowIds: seq<u32>, outBytes: u64) returns (ok: bool, values: u64)
    requires arena.Valid() && |rowIds| <= 0xFFFF_FFFF
    ensures ok <==> Bf16Fits(arena.valid, |arena.ptr|, v, rowIds, outBytes)
    ensures ok ==> values == |rowIds| * v.cols
  {
    values := 0;
    if !arena.valid { return false, 0; }
    if |rowIds| == 0 || v.rows == 0 || v.cols == 0 { return false, 0; }
    if v.stride < v.cols { return false, 0; }
    if v.offset % 2 != 0 || v.length % 2 != 0 { return false, 0; }
    if !arena.RangeOk(v.offset, v.length) { return false, 0; }
    var n := CheckedMul(|rowIds|, v.cols);
    if n.Overflow? { return false, 0; }
    values := n.value;
    var out := CheckedMul(values, FLOAT);
    if out.Overflow? || outBytes < out.value { return false, values; }
    var total := v.length / 2;
    var last := CheckedMul(v.rows - 1, v.stride);
    if last.Overflow? { return false, values; }
    if v.cols > total || last.value > total - v.cols { return false, values; }
    for i := 0 to |rowIds|
      invariant forall k | 0 <= k < i :: rowIds[k] < v.rows
    {
      if rowIds[i] >= v.rows { return false, values; }
    }
    return true, values;
  }

  // ------------------------------------------------------------------ decoding

  /** Where row `id` starts. */
  function RowStart(offset: nat, id: nat, stride: nat): nat {
    MulMono(stride, 0, id);
    offset + id * stride
  }

  /** Row `id` of a view that fits lies in the arena. */
  lemma RowInside(id: nat, rows: nat, stride: nat, row: nat, offset: nat, length: nat, bytes: nat)
    requires id < rows && (rows - 1) * stride + row <= length && offset + length <= bytes
    ensures RowStart(offset, id, stride) + row <= bytes
  {
    MulMono(stride, id, rows - 1);
  }

  /** The view is inside the memory, its last row is inside the view, and the rows exist. */
  ghost predicate F8Inside(m: nat, v: F8View, rowIds: seq<u32>) {
    && v.cols % F8_ELEMS == 0 && v.rows > 0 && v.offset + v.length <= m
    && (v.rows - 1) * v.stride + F8_BYTES * (v.cols / F8_ELEMS) <= v.length
    && forall i | 0 <= i < |rowIds| :: rowIds[i] < v.rows
  }

  /** The bytes of one row of a view. */
  function F8RowBytes(m: seq<byte>, v: F8View, id: nat): (r: seq<byte>)
    requires v.cols % F8_ELEMS == 0 && id < v.rows && v.offset + v.length <= |m|
    requires (v.rows - 1) * v.stride + F8_BYTES * (v.cols / F8_ELEMS) <= v.length
    ensures |r| == F8_BYTES * (v.cols / F8_ELEMS)
    ensures RowStart(v.offset, id, v.stride) + F8_BYTES * (v.cols / F8_ELEMS) <= |m|
  {
    RowInside(id, v.rows, v.stride, F8_BYTES * (v.cols / F8_ELEMS), v.offset, v.length, |m|);
    var at := RowStart(v.offset, id, v.stride);
    m[at..at + F8_BYTES * (v.cols / F8_ELEMS)]
  }

  /** The rows one after the other, each decoded by the reference decoder. */
  function F8Rows<F>(ops: Ops<F>, m: seq<byte>, v: F8View, rowIds: seq<u32>): seq<F>
    requires F8Inside(|m|, v, rowIds)
  {
    if rowIds == [] then []
    else
      var n := |rowIds| - 1;
      F8Rows(ops, m, v, rowIds[..n]) + F8Row(ops, F8RowBytes(m, v, rowIds[n]), v.cols / F8_ELEMS)
  }

  lemma {:induction false} F8RowsLength<F>(ops: Ops<F>, m: seq<byte>, v: F8View, rowIds: seq<u32>)
    requires F8Inside(|m|, v, rowIds)
    ensures |F8Rows(ops, m, v, rowIds)| == |rowIds| * v.cols
  {
    if rowIds != [] {
      F8RowsLength(ops, m, v, rowIds[..|rowIds| - 1]);
      OneMoreRow(|rowIds| - 1, v.cols);
    }
  }

  lemma OneMoreRow(n: nat, cols: nat)
    ensures (n + 1) * cols == n * cols + cols
  {
  }

  /** The rows up to `r`, row `r`, and the rows after it. */
  lemma {:induction false} F8RowsNext<F>(ops: Ops<F>, m: seq<byte>, v: F8View, rowIds: seq<u32>, r: nat)
    requires F8Inside(|m|, v, rowIds) && r < |rowIds|
    ensures F8Inside(|m|, v, rowIds[..r]) && F8Inside(|m|, v, rowIds[..r + 1])
    ensures F8Rows(ops, m, v, rowIds[..r + 1])
         == F8Rows(ops, m, v, rowIds[..r]) + F8Row(ops, F8RowBytes(m, v, rowIds[r]), v.cols / F8_ELEMS)
    ensures |F8Rows(ops, m, v, rowIds[..r])| + v.cols <= |F8Rows(ops, m, v, rowIds)|
    decreases |rowIds| - r
  {
    assert rowIds[..r + 1][..r] == rowIds[..r];
    if r + 1 < |rowIds| {
      F8RowsNext(ops, m, v, rowIds, r + 1);
    } else {
      assert rowIds[..r + 1] == rowIds;
    }
  }

  /** Value `k` of block `b` of row `rowIds[i]` is element `i * cols + 128 * b + k` of the output. The row
      starts `rowIds[i]` strides behind the start of the view, and the block 129 bytes for each before it. */
  lemma F8Decoded<F>(ops: Ops<F>, m: seq<byte>, v: F8View, rowIds: seq<u32>, i: nat, b: nat, k: nat, block: nat)
    requires F8Inside(|m|, v, rowIds) && i < |rowIds| && k < 128 && 128 * b + k < v.cols
    requires block == v.offset + rowIds[i] * v.stride + 129 * b
    ensures block + 129 <= |m| && 0 <= i * v.cols && i * v.cols + 128 * b + k < |F8Rows(ops, m, v, rowIds)|
    ensures F8Rows(ops, m, v, rowIds)[i * v.cols + 128 * b + k] == ops.mul(ops.e4m3(m[block + 1 + k]), ops.e8m0(m[block]))
  {
    hide F8Rows, F8Row, F8RowBytes;
    var c := 128 * b + k;
    assert c / 128 == b && c % 128 == k;
    F8RowsAt(ops, m, v, rowIds, i, c);
    RowBytesAt(m, v, rowIds, i);
    F8RowDecoded(ops, m, RowStart(v.offset, rowIds[i], v.stride), v.cols, c);
  }

  lemma {:induction false} F8RowsAt<F>(ops: Ops<F>, m: seq<byte>, v: F8View, rowIds: seq<u32>, i: nat, c: nat)
    requires F8Inside(|m|, v, rowIds) && i < |rowIds| && c < v.cols
    ensures 0 <= i * v.cols && i * v.cols + c < |F8Rows(ops, m, v, rowIds)|
    ensures F8Rows(ops, m, v, rowIds)[i * v.cols + c] == F8Row(ops, F8RowBytes(m, v, rowIds[i]), v.cols / F8_ELEMS)[c]
  {
    hide F8Row, F8RowBytes;
    var n := |rowIds| - 1;
    F8RowsLength(ops, m, v, rowIds[..n]);
    if i < n {
      F8RowsAt(ops, m, v, rowIds[..n], i, c);
      assert rowIds[..n][i] == rowIds[i];
    }
  }

  lemma F8RowDecoded<F>(ops: Ops<F>, m: seq<byte>, at: nat, cols: nat, c: nat)
    requires cols % F8_ELEMS == 0 && c < cols && at + F8_BYTES * (cols / F8_ELEMS) <= |m|
    ensures at + 129 * (c / 128) + 129 <= |m|
    ensures var block := at + 129 * (c / 128);
            F8Row(ops, m[at..at + F8_BYTES * (cols / F8_ELEMS)], cols / F8_ELEMS)[c]
            == ops.mul(ops.e4m3(m[block + 1 + c % 128]), ops.e8m0(m[block]))
  {
    hide F8Row;
    var row := m[at..at + F8_BYTES * (cols / F8_ELEMS)];
    BlockInside(c, cols);
    F8RowAt(ops, row, cols / F8_ELEMS, c);
    assert row[129 * (c / 128)] == m[at + 129 * (c / 128)];
    assert row[129 * (c / 128) + 1 + c % 128] == m[at + 129 * (c / 128) + 1 + c % 128];
  }

  lemma RowBytesAt(m: seq<byte>, v: F8View, rowIds: seq<u32>, r: nat)
    requires F8Inside(|m|, v, rowIds) && r < |rowIds|
    ensures var at, width := RowStart(v.offset, rowIds[r], v.stride), F8_BYTES * (v.cols / F8_ELEMS);
            v.cols % F8_ELEMS == 0 && at + width <= |m| && F8RowBytes(m, v, rowIds[r]) == m[at..at + width]
  {
    hide RowStart;
    var row := F8RowBytes(m, v, rowIds[r]);
  }

  /** The inner loop: one row, column by column. */
  method DecodeF8Row<F>(ops: Ops<F>, mem: seq<byte>, base: nat, cols: nat, out: array<F>, at: nat)
    requires cols % F8_ELEMS == 0 && base + F8_BYTES * (cols / F8_ELEMS) <= |mem| && at + cols <= out.Length
    modifies out
    ensures out[at..at + cols] == F8Row(ops, mem[base..base + F8_BYTES * (cols / F8_ELEMS)], cols / F8_ELEMS)
    ensures out[..at] == old(out[..at]) && out[at + cols..] == old(out[at + cols..])
  {
    ghost var row := mem[base..base + F8_BYTES * (cols / F8_ELEMS)];
    ghost var want := F8Row(ops, row, cols / F8_ELEMS);
    hide F8Row;
    for c := 0 to cols
      invariant forall k | 0 <= k < c :: out[at + k] == want[k]
      invariant out[..at] == old(out[..at]) && out[at + cols..] == old(out[at + cols..])
    {
      BlockInside(c, cols);
      var block := base + c / F8_ELEMS * F8_BYTES;
      F8RowDecoded(ops, mem, base, cols, c);
      out[at + c] := ops.mul(ops.e4m3(mem[block + 1 + c % F8_ELEMS]), ops.e8m0(mem[block]));
    }
  }

  lemma BlockInside(c: nat, cols: nat)
    requires c < cols && cols % F8_ELEMS == 0
    ensures F8_BYTES * (c / F8_ELEMS) + F8_BYTES <= F8_BYTES * (cols / F8_ELEMS)
  {
  }

  /** Row `rowIds[r]` of the view. */
  method DecodeF8RowOf<F>(ops: Ops<F>, mem: seq<byte>, v: F8View, rowIds: seq<u32>, r: nat, out: array<F>, at: nat)
    requires F8Inside(|mem|, v, rowIds) && r < |rowIds| && at + v.cols <= out.Length
    modifies out
    ensures out[at..at + v.cols] == F8Row(ops, F8RowBytes(mem, v, rowIds[r]), v.cols / F8_ELEMS)
    ensures out[..at] == old(out[..at]) && out[at + v.cols..] == old(out[at + v.cols..])
  {
    hide F8Row, F8RowBytes, F8Inside, RowStart;
    var base := RowStart(v.offset, rowIds[r], v.stride);
    RowBytesAt(mem, v, rowIds, r);
    DecodeF8Row(ops, mem, base, v.cols, out, at);
  }

  /** The outer loop. */
  method DecodeF8Rows<F>(ops: Ops<F>, mem: seq<byte>, v: F8View, rowIds: seq<u32>, out: array<F>)
    requires F8Inside(|mem|, v, rowIds) && |F8Rows(ops, mem, v, rowIds)| <= out.Length
    modifies out
    ensures var n := |F8Rows(ops, mem, v, rowIds)|; out[..n] == F8Rows(ops, mem, v, rowIds) && out[n..] == old(out[n..])
  {
    hide F8Row, F8Rows, F8RowBytes, F8Inside;
    ghost var total := |F8Rows(ops, mem, v, rowIds)|;
    var outI: nat := 0;
    NoRows(ops, mem, v, rowIds);
    for r := 0 to |rowIds|
      invariant F8Inside(|mem|, v, rowIds[..r]) && outI <= total
      invariant out[..outI] == F8Rows(ops, mem, v, rowIds[..r]) && out[total..] == old(out[total..])
    {
      F8RowsNext(ops, mem, v, rowIds, r);
      ghost var done := out[..outI];
      DecodeF8RowOf(ops, mem, v, rowIds, r, out, outI);
      assert out[..outI + v.cols] == done + out[outI..outI + v.cols];
      outI := outI + v.cols;
    }
    assert rowIds[..|rowIds|] == rowIds;
  }

  lemma NoRows<F>(ops: Ops<F>, m: seq<byte>, v: F8View, rowIds: seq<u32>)
    requires F8Inside(|m|, v, rowIds)
    ensures F8Inside(|m|, v, rowIds[..0]) && F8Rows(ops, m, v, rowIds[..0]) == []
  {
  }

  /** ds4_gpu_arena_f8_e4m3_b128_row_decode_f32: a request that fits yields what the reference decoder
      makes of the bytes of the rows asked for, and nothing else of the output changes. */
  method F8RowDecode<F>(ops: Ops<F>, arena: Arena, v: F8View, rowIds: seq<u32>, out: array<F>, outBytes: u64) returns (rc: int)
    requires arena.Valid() && |rowIds| <= 0xFFFF_FFFF && outBytes <= FLOAT * out.Length
    modifies out
    ensures rc == 0 <==> F8Fits(arena.valid, |arena.ptr|, v, rowIds, outBytes)
    ensures rc == 0 ==>
              && F8Inside(|arena.ptr|, v, rowIds) && |rowIds| * v.cols <= out.Length
              && out[..|rowIds| * v.cols] == F8Rows(ops, arena.ptr, v, rowIds)
              && out[|rowIds| * v.cols..] == old(out[|rowIds| * v.cols..])
    ensures rc != 0 ==> out[..] == old(out[..])
  {
    var ok, values := F8RangeOk(arena, v, rowIds, outBytes);
    if !ok { return 1; }
    F8RowsLength(ops, arena.ptr, v, rowIds);
    DecodeF8Rows(ops, arena.ptr, v, rowIds, out);
    return 0;
  }

  // ------------------------------------------------------------------ bf16

  /** The 16-bit elements at an address. */
  function Words(m: seq<byte>, at: nat, n: nat): (r: seq<nat>)
    requires at + 2 * n <= |m|
    ensures |r| == n
  {
    seq(n, i requires 0 <= i < n => (m[at + 2 * i] as int) + 256 * (m[at + 2 * i + 1] as int))
  }

  ghost predicate Bf16Inside(m: nat, v: Bf16View, rowIds: seq<u32>) {
    && v.rows > 0 && v.offset + v.length <= m && 2 * ((v.rows - 1) * v.stride + v.cols) <= v.length
    && forall i | 0 <= i < |rowIds| :: rowIds[i] < v.rows
  }

  function Bf16RowWords(m: seq<byte>, v: Bf16View, id: nat): (r: seq<nat>)
    requires id < v.rows && v.offset + v.length <= |m| && 2 * ((v.rows - 1) * v.stride + v.cols) <= v.length
    ensures |r| == v.cols && v.offset + 2 * RowStart(0, id, v.stride) + 2 * v.cols <= |m|
  {
    RowInside(id, v.rows, v.stride, v.cols, 0, v.length / 2, v.length / 2);
    Words(m, v.offset + 2 * RowStart(0, id, v.stride), v.cols)
  }

  function Bf16Rows<F>(ops: Ops<F>, m: seq<byte>, v: Bf16View, rowIds: seq<u32>): seq<F>
    requires Bf16Inside(|m|, v, rowIds)
  {
    if rowIds == [] then []
    else
      var n := |rowIds| - 1;
      Bf16Rows(ops, m, v, rowIds[..n]) + Bf16Row(ops, Bf16RowWords(m, v, rowIds[n]), v.cols)
  }

  lemma {:induction false} Bf16RowsLength<F>(ops: Ops<F>, m: seq<byte>, v: Bf16View, rowIds: seq<u32>)
    requires Bf16Inside(|m|, v, rowIds)
    ensures |Bf16Rows(ops, m, v, rowIds)| == |rowIds| * v.cols
  {
    if rowIds != [] {
      Bf16RowsLength(ops, m, v, rowIds[..|rowIds| - 1]);
      OneMoreRow(|rowIds| - 1, v.cols);
    }
  }

  lemma {:induction false} Bf16RowsNext<F>(ops: Ops<F>, m: seq<byte>, v: Bf16View, rowIds: seq<u32>, r: nat)
    requires Bf16Inside(|m|, v, rowIds) && r < |rowIds|
    ensures Bf16Inside(|m|, v, rowIds[..r]) && Bf16Inside(|m|, v, rowIds[..r + 1])
    ensures Bf16Rows(ops, m, v, rowIds[..r + 1])
         == Bf16Rows(ops, m, v, rowIds[..r]) + Bf16Row(ops, Bf16RowWords(m, v, rowIds[r]), v.cols)
    ensures |Bf16Rows(ops, m, v, rowIds[..r])| + v.cols <= |Bf16Rows(ops, m, v, rowIds)|
    decreases |rowIds| - r
  {
    assert rowIds[..r + 1][..r] == rowIds[..r];
    if r + 1 < |rowIds| {
      Bf16RowsNext(ops, m, v, rowIds, r + 1);
    } else {
      assert rowIds[..r + 1] == rowIds;
    }
  }

  /** Element `i * cols + c` of the output is the 16-bit element `c` of row `rowIds[i]`, low byte first. */
  lemma {:induction false} Bf16Gathered<F>(ops: Ops<F>, m: seq<byte>, v: Bf16View, rowIds: seq<u32>, i: nat, c: nat)
    requires Bf16Inside(|m|, v, rowIds) && i < |rowIds| && c < v.cols
    ensures 0 <= rowIds[i] * v.stride && 0 <= i * v.cols
    ensures v.offset + 2 * (rowIds[i] * v.stride + c) + 1 < |m|
    ensures i * v.cols + c < |Bf16Rows(ops, m, v, rowIds)|
    ensures var at := v.offset + 2 * (rowIds[i] * v.stride + c);
            Bf16Rows(ops, m, v, rowIds)[i * v.cols + c] == ops.bf16(m[at] as int + 256 * (m[at + 1] as int))
  {
    var n := |rowIds| - 1;
    Bf16RowsLength(ops, m, v, rowIds[..n]);
    if i < n {
      Bf16Gathered(ops, m, v, rowIds[..n], i, c);
    } else {
      assert |Bf16RowWords(m, v, rowIds[n])| == v.cols;
    }
  }

  method GatherRow<F>(ops: Ops<F>, mem: seq<byte>, base: nat, cols: nat, out: array<F>, at: nat)
    requires base + 2 * cols <= |mem| && at + cols <= out.Length
    modifies out
    ensures out[at..at + cols] == Bf16Row(ops, Words(mem, base, cols), cols)
    ensures out[..at] == old(out[..at]) && out[at + cols..] == old(out[at + cols..])
  {
    for c := 0 to cols
      invariant forall k | 0 <= k < c :: out[at + k] == Bf16Row(ops, Words(mem, base, cols), cols)[k]
      invariant out[..at] == old(out[..at]) && out[at + cols..] == old(out[at + cols..])
    {
      out[at + c] := ops.bf16((mem[base + 2 * c] as int) + 256 * (mem[base + 2 * c + 1] as int));
    }
  }

  method GatherRows<F>(ops: Ops<F>, mem: seq<byte>, v: Bf16View, rowIds: seq<u32>, out: array<F>)
    requires Bf16Inside(|mem|, v, rowIds) && |Bf16Rows(ops, mem, v, rowIds)| <= out.Length
    modifies out
    ensures var n := |Bf16Rows(ops, mem, v, rowIds)|; out[..n] == Bf16Rows(ops, mem, v, rowIds) && out[n..] == old(out[n..])
  {
    hide Bf16Row, Bf16Rows;
    ghost var total := |Bf16Rows(ops, mem, v, rowIds)|;
    var outI: nat := 0;
    NoBf16Rows(ops, mem, v);
    assert rowIds[..0] == [];
    for r := 0 to |rowIds|
      invariant Bf16Inside(|mem|, v, rowIds[..r]) && outI <= total
      invariant out[..outI] == Bf16Rows(ops, mem, v, rowIds[..r]) && out[total..] == old(out[total..])
    {
      Bf16RowsNext(ops, mem, v, rowIds, r);
      ghost var done, row := out[..outI], Bf16RowWords(mem, v, rowIds[r]);
      GatherRow(ops, mem, v.offset + 2 * RowStart(0, rowIds[r], v.stride), v.cols, out, outI);
      assert out[..outI + v.cols] == done + out[outI..outI + v.cols];
      outI := outI + v.cols;
    }
    assert rowIds[..|rowIds|] == rowIds;
  }

  lemma NoBf16Rows<F>(ops: Ops<F>, m: seq<byte>, v: Bf16View)
    requires Bf16Inside(|m|, v, [])
    ensures Bf16Rows(ops, m, v, []) == []
  {
  }

  /** ds4_gpu_arena_bf16_row_gather_f32. */
  method Bf16RowGather<F>(ops: Ops<F>, arena: Arena, v: Bf16View, rowIds: seq<u32>, out: array<F>, outBytes: u64) returns (rc: int)
    requires arena.Valid() && |rowIds| <= 0xFFFF_FFFF && outBytes <= FLOAT * out.Length
    modifies out
    ensures rc == 0 <==> Bf16Fits(arena.valid, |arena.ptr|, v, rowIds, outBytes)
    ensures rc == 0 ==>
              && Bf16Inside(|arena.ptr|, v, rowIds) && |rowIds| * v.cols <= out.Length
              && out[..|rowIds| * v.cols] == Bf16Rows(ops, arena.ptr, v, rowIds)
              && out[|rowIds| * v.cols..] == old(out[|rowIds| * v.cols..])
    ensures rc != 0 ==> out[..] == old(out[..])
  {
    var ok, values := Bf16RangeOk(arena, v, rowIds, outBytes);
    if !ok { return 1; }
    Bf16RowsLength(ops, arena.ptr, v, rowIds);
    GatherRows(ops, arena.ptr, v, rowIds, out);
    return 0;
  }
}
