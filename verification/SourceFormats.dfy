/**
 The reference row decoders of ds4_source_formats.c. The scalar conversions and the multiplication
 are parameters: what matters here is which bytes make up which value.
 */
module SourceFormats {
  import opened Keys
  import opened KvPlan

  const F8_ELEMS := 128
  const F8_BYTES := 129
  const MX_ELEMS := 32
  const MX_BYTES := 17

  /** The scalar operations on values of type `F`. */
  datatype Ops<!F> = Ops(e4m3: byte -> F, e8m0: byte -> F, nibble: byte -> F, bf16: nat -> F, mul: (F, F) -> F)

  /** packed_row_bytes: 0 stands for a length that is refused. */
  function PackedRowBytes(cols: u64, elems: nat, bytes: nat): (r: u64)
    requires elems > 0 && bytes > 0
    ensures r == 0 <==> cols == 0 || cols % elems != 0 || cols / elems * bytes > MAX
    ensures r != 0 ==> exists blocks :: cols == blocks * elems && r == blocks * bytes
  {
    if cols == 0 || cols % elems != 0 then 0
    else
      var blocks := cols / elems;
      MulFits(bytes, blocks);
      BlocksOf(cols, elems, bytes);
      if blocks > MAX / bytes then 0 else blocks * bytes
  }

  lemma BlocksOf(cols: nat, elems: nat, bytes: nat)
    requires elems > 0 && bytes > 0 && cols > 0 && cols % elems == 0
    ensures var blocks := cols / elems; cols == blocks * elems && blocks * bytes > 0
  {
    var blocks := cols / elems;
    MulMono(bytes, 1, blocks);
  }

  // ------------------------------------------------------------------ one block

  /** A scale byte and 128 quantised bytes. */
  function F8Block<F>(ops: Ops<F>, b: seq<byte>): (r: seq<F>)
    requires |b| == F8_BYTES
    ensures |r| == F8_ELEMS
  {
    seq(F8_ELEMS, i requires 0 <= i < F8_ELEMS => ops.mul(ops.e4m3(b[1 + i]), ops.e8m0(b[0])))
  }

  /** A scale byte and 16 bytes of two nibbles: the low ones make up the first half of the values, the
      high ones the second. */
  function MxBlock<F>(ops: Ops<F>, b: seq<byte>): (r: seq<F>)
    requires |b| == MX_BYTES
    ensures |r| == MX_ELEMS
  {
    seq(MX_ELEMS, i requires 0 <= i < MX_ELEMS =>
        ops.mul(ops.nibble(if i < 16 then b[1 + i] % 16 else b[1 + i - 16] / 16), ops.e8m0(b[0])))
  }

  // ------------------------------------------------------------------ a row, block by block

  function F8Row<F>(ops: Ops<F>, src: seq<byte>, blocks: nat): (r: seq<F>)
    requires F8_BYTES * blocks <= |src|
    ensures |r| == F8_ELEMS * blocks
  {
    if blocks == 0 then []
    else F8Row(ops, src, blocks - 1) + F8Block(ops, src[F8_BYTES * (blocks - 1)..F8_BYTES * blocks])
  }

  function MxRow<F>(ops: Ops<F>, src: seq<byte>, blocks: nat): (r: seq<F>)
    requires MX_BYTES * blocks <= |src|
    ensures |r| == MX_ELEMS * blocks
  {
    if blocks == 0 then []
    else MxRow(ops, src, blocks - 1) + MxBlock(ops, src[MX_BYTES * (blocks - 1)..MX_BYTES * blocks])
  }

  /** Column `c` comes from its own byte and the scale of its block: block `c / 128` starts at byte
      `129 * (c / 128)`. */
  lemma {:induction false} F8RowAt<F>(ops: Ops<F>, src: seq<byte>, blocks: nat, c: nat)
    requires 129 * blocks <= |src| && c < 128 * blocks
    ensures 129 * (c / 128) + 129 <= |src|
    ensures F8Row(ops, src, blocks)[c] == ops.mul(ops.e4m3(src[129 * (c / 128) + 1 + c % 128]), ops.e8m0(src[129 * (c / 128)]))
  {
    var n := blocks - 1;
    if c < F8_ELEMS * n {
      F8RowAt(ops, src, n, c);
    } else {
      assert c / F8_ELEMS == n && c % F8_ELEMS == c - F8_ELEMS * n;
      var b := src[F8_BYTES * n..F8_BYTES * blocks];
      assert b[1 + c % F8_ELEMS] == src[F8_BYTES * n + 1 + c % F8_ELEMS] && b[0] == src[F8_BYTES * n];
    }
  }

  /** Column `c` of an mxfp4 row comes from one nibble: block `c / 32` starts at byte `17 * (c / 32)`, and
      its columns 0 to 15 are the low nibbles of its bytes 1 to 16, its columns 16 to 31 the high ones. */
  lemma {:induction false} MxRowAt<F>(ops: Ops<F>, src: seq<byte>, blocks: nat, c: nat)
    requires 17 * blocks <= |src| && c < 32 * blocks
    ensures 17 * (c / 32) + 17 <= |src|
    ensures var q := src[17 * (c / 32) + 1 + c % 16];
            MxRow(ops, src, blocks)[c] == ops.mul(ops.nibble(if c % 32 < 16 then q % 16 else q / 16), ops.e8m0(src[17 * (c / 32)]))
  {
    var n := blocks - 1;
    if c < MX_ELEMS * n {
      MxRowAt(ops, src, n, c);
    } else {
      MxBlockAt(ops, src, n, c - MX_ELEMS * n);
      assert MxRow(ops, src, blocks)[c] == MxBlock(ops, src[MX_BYTES * n..MX_BYTES * blocks])[c - MX_ELEMS * n];
    }
  }

  lemma MxBlockAt<F>(ops: Ops<F>, src: seq<byte>, n: nat, i: nat)
    requires MX_BYTES * (n + 1) <= |src| && i < MX_ELEMS
    ensures var c := MX_ELEMS * n + i;
            var q := src[17 * n + 1 + c % 16];
            && c / 32 == n
            && MxBlock(ops, src[MX_BYTES * n..MX_BYTES * (n + 1)])[i]
               == ops.mul(ops.nibble(if c % 32 < 16 then q % 16 else q / 16), ops.e8m0(src[17 * n]))
  {
    var b := src[MX_BYTES * n..MX_BYTES * (n + 1)];
    var r := if i < 16 then i else i - 16;
    MxIndex(n, i, r);
    assert b[0] == src[17 * n] && b[1 + r] == src[17 * n + 1 + r];
    assert MxBlock(ops, b)[i] == ops.mul(ops.nibble(if i < 16 then b[1 + r] % 16 else b[1 + r] / 16), ops.e8m0(b[0]));
  }

  lemma MxIndex(n: nat, i: nat, r: nat)
    requires i < 32 && r < 16 && (i == r || i == r + 16)
    ensures (32 * n + i) / 32 == n && (32 * n + i) % 32 == i && (32 * n + i) % 16 == r
  {
    assert 32 * n + i == 16 * (2 * n + if i == r then 0 else 1) + r;
  }

  // ------------------------------------------------------------------ the decoders

  /** ds4_src_f8_e4m3_b128_row_to_f32. */
  method F8RowToF32<F>(ops: Ops<F>, dst: array<F>, src: seq<byte>, ncols: u64) returns (rc: int)
    requires ncols % F8_ELEMS == 0 ==> F8_BYTES * (ncols / F8_ELEMS) <= |src| && ncols <= dst.Length
    modifies dst
    ensures rc == 0 <==> ncols != 0 && ncols % F8_ELEMS == 0
    ensures rc == 0 ==> dst[..ncols] == F8Row(ops, src, ncols / F8_ELEMS) && dst[ncols..] == old(dst[ncols..])
    ensures rc != 0 ==> dst[..] == old(dst[..])
  {
    if ncols == 0 || ncols % F8_ELEMS != 0 { return -1; }
    var nblocks := ncols / F8_ELEMS;
    for b := 0 to nblocks
      invariant dst[..F8_ELEMS * b] == F8Row(ops, src, b) && dst[ncols..] == old(dst[ncols..])
    {
      var at := F8_ELEMS * b;
      ghost var done := dst[..at];
      F8BlockToF32(ops, dst, at, src[F8_BYTES * b..F8_BYTES * (b + 1)], ncols);
      assert dst[..at + F8_ELEMS] == done + dst[at..at + F8_ELEMS];
    }
    return 0;
  }

  method F8BlockToF32<F>(ops: Ops<F>, dst: array<F>, at: nat, block: seq<byte>, end: nat)
    requires |block| == F8_BYTES && at + F8_ELEMS <= end <= dst.Length
    modifies dst
    ensures dst[at..at + F8_ELEMS] == F8Block(ops, block)
    ensures dst[..at] == old(dst[..at]) && dst[end..] == old(dst[end..])
  {
    var scale := ops.e8m0(block[0]);
    for i := 0 to F8_ELEMS
      invariant forall k | 0 <= k < i :: dst[at + k] == F8Block(ops, block)[k]
      invariant dst[..at] == old(dst[..at]) && dst[end..] == old(dst[end..])
    {
      dst[at + i] := ops.mul(ops.e4m3(block[1 + i]), scale);
    }
  }

  /** ds4_src_mxfp4_row_to_f32. */
  method MxRowToF32<F>(ops: Ops<F>, dst: array<F>, src: seq<byte>, ncols: u64) returns (rc: int)
    requires ncols % MX_ELEMS == 0 ==> MX_BYTES * (ncols / MX_ELEMS) <= |src| && ncols <= dst.Length
    modifies dst
    ensures rc == 0 <==> ncols != 0 && ncols % MX_ELEMS == 0
    ensures rc == 0 ==> dst[..ncols] == MxRow(ops, src, ncols / MX_ELEMS) && dst[ncols..] == old(dst[ncols..])
    ensures rc != 0 ==> dst[..] == old(dst[..])
  {
    if ncols == 0 || ncols % MX_ELEMS != 0 { return -1; }
    var nblocks := ncols / MX_ELEMS;
    for b := 0 to nblocks
      invariant dst[..MX_ELEMS * b] == MxRow(ops, src, b) && dst[ncols..] == old(dst[ncols..])
    {
      var at := MX_ELEMS * b;
      ghost var done := dst[..at];
      MxBlockToF32(ops, dst, at, src[MX_BYTES * b..MX_BYTES * (b + 1)], ncols);
      assert dst[..at + MX_ELEMS] == done + dst[at..at + MX_ELEMS];
    }
    return 0;
  }

  method MxBlockToF32<F>(ops: Ops<F>, dst: array<F>, at: nat, block: seq<byte>, end: nat)
    requires |block| == MX_BYTES && at + MX_ELEMS <= end <= dst.Length
    modifies dst
    ensures dst[at..at + MX_ELEMS] == MxBlock(ops, block)
    ensures dst[..at] == old(dst[..at]) && dst[end..] == old(dst[end..])
  {
    var scale := ops.e8m0(block[0]);
    for j := 0 to MX_ELEMS / 2
      invariant forall k | 0 <= k < j :: dst[at + k] == MxBlock(ops, block)[k]
      invariant forall k | 16 <= k < 16 + j :: dst[at + k] == MxBlock(ops, block)[k]
      invariant dst[..at] == old(dst[..at]) && dst[end..] == old(dst[end..])
    {
      var q := block[1 + j];
      dst[at + j] := ops.mul(ops.nibble(q % 16), scale);
      dst[at + j + MX_ELEMS / 2] := ops.mul(ops.nibble(q / 16), scale);
    }
  }

  /** ds4_src_bf16_row_to_f32. */
  method Bf16RowToF32<F>(ops: Ops<F>, dst: array<F>, src: seq<nat>, n: u64) returns (rc: int)
    requires n <= |src| && n <= dst.Length
    modifies dst
    ensures rc == 0 <==> n != 0
    ensures rc == 0 ==> dst[..n] == Bf16Row(ops, src, n) && dst[n..] == old(dst[n..])
  {
    if n == 0 { return -1; }
    for i := 0 to n
      invariant forall k | 0 <= k < i :: dst[k] == ops.bf16(src[k])
      invariant dst[n..] == old(dst[n..])
    {
      dst[i] := ops.bf16(src[i]);
    }
    return 0;
  }

  function Bf16Row<F>(ops: Ops<F>, src: seq<nat>, n: nat): (r: seq<F>)
    requires n <= |src|
    ensures |r| == n
  {
    seq(n, i requires 0 <= i < n => ops.bf16(src[i]))
  }
}
