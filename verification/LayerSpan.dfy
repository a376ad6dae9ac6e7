/**
 Tensor byte lengths (engine/context.c), the per-expert matrices cut out of a packed binding, and the
 part of the arena that a feed-forward layer needs (engine/layer_state.c).
 */
module LayerSpan {
  import opened Keys
  import opened Seqs
  import opened KvPlan
  import SourceFormats
  import Shapes

  const WRAP := MAX + 1
  const U32 := 0x1_0000_0000

  // ------------------------------------------------------------------ expected_bytes_for_entry

  datatype Dtype = Bf16 | F32 | I32 | F8 | Mxfp4 | Fp4 | Unknown

  datatype Bytes = Bytes(count: u64) | NoBytes

  /** expected_bytes_for_entry, on the number of elements. */
  function ExpectedBytes(t: Dtype, elements: u64): Bytes {
    match t
    case Bf16 => if elements > MAX / 2 then NoBytes else Bytes(elements * 2)
    case F32 => if elements > MAX / 4 then NoBytes else Bytes(elements * 4)
    case I32 => if elements > MAX / 4 then NoBytes else Bytes(elements * 4)
    case F8 =>
      var blocks := (elements + 127) % WRAP / 128;
      if elements > MAX - blocks then NoBytes else Bytes(elements + blocks)
    case Mxfp4 => if elements % 32 != 0 then NoBytes else if elements > MAX / 17 then NoBytes else Bytes(elements * 17 / 32)
    case Fp4 => if elements % 32 != 0 then NoBytes else if elements > MAX / 17 then NoBytes else Bytes(elements * 17 / 32)
    case Unknown => NoBytes
  }

  /** Two bytes for every bf16 element and four for every f32 or i32, refused exactly when that does not
      fit; an unknown type has no size, and both four-bit types have the same. */
  lemma PlainBytes(elements: u64)
    ensures ExpectedBytes(Bf16, elements) == if 2 * elements <= MAX then Bytes(2 * elements) else NoBytes
    ensures ExpectedBytes(F32, elements) == if 4 * elements <= MAX then Bytes(4 * elements) else NoBytes
    ensures ExpectedBytes(I32, elements) == ExpectedBytes(F32, elements)
    ensures ExpectedBytes(Fp4, elements) == ExpectedBytes(Mxfp4, elements)
    ensures ExpectedBytes(Unknown, elements) == NoBytes
  {
  }

  /** A byte for every element and one for every begun block of 128, in exact arithmetic. */
  function F8Bytes(elements: nat): Bytes {
    var bytes := elements + (elements + 127) / 128;
    if bytes <= MAX then Bytes(bytes) else NoBytes
  }

  /** The f8 length is exact unless rounding up to blocks wraps around: then the scale bytes are lost,
      and a length that does not fit is accepted. */
  lemma F8BytesExactly(elements: u64)
    ensures ExpectedBytes(F8, elements) == F8Bytes(elements) <==> elements + 127 <= MAX
    ensures elements + 127 > MAX ==> ExpectedBytes(F8, elements) == Bytes(elements) && F8Bytes(elements) == NoBytes
  {
    if elements + 127 > MAX {
      assert (elements + 127) % WRAP == elements + 127 - WRAP < 128;
    } else {
      assert (elements + 127) % WRAP == elements + 127;
    }
  }

  /** Seventeen bytes for every block of 32 elements. */
  lemma MxBytes(elements: u64)
    ensures ExpectedBytes(Mxfp4, elements).Bytes? <==> elements % 32 == 0 && elements * 17 <= MAX
    ensures ExpectedBytes(Mxfp4, elements).Bytes? ==> ExpectedBytes(Mxfp4, elements).count == elements / 32 * 17
  {
  }

  // ------------------------------------------------------------------ bindings and matrices

  datatype Binding = Binding(dims: seq<u64>, dtype: Dtype, length: u64, shardOffset: u64)

  /** What parse_pack_row and the byte-length check of the context have established. */
  ghost predicate BindingOk(b: Binding) {
    && b.shardOffset + b.length <= MAX
    && Shapes.Product(b.dims) <= MAX && (forall d | d in b.dims :: d > 0)
    && ExpectedBytes(b.dtype, Shapes.Product(b.dims)) == Bytes(b.length)
  }

  datatype Matrix = Matrix(binding: Binding, cols: nat, rows: nat, planes: nat, rowBytes: u64, bytes: u64, rel: u64)

  datatype Made = Made(m: Matrix) | Failed

  /** make_mxfp4_expert_matrix. Dimensions are cut to 32 bits and products to 64. */
  method MakeExpertMatrix(b: Binding, expert: nat) returns (r: Made)
    requires expert < U32
    ensures r == ExpertMatrix(b, expert)
  {
    if |b.dims| != 3 || b.dtype != Mxfp4 { return Failed; }
    if expert >= b.dims[2] { return Failed; }
    var cols := b.dims[0] % U32;
    var rows := b.dims[1] % U32;
    var planes := b.dims[2] % U32;
    var rowBytes := SourceFormats.PackedRowBytes(cols, SourceFormats.MX_ELEMS, SourceFormats.MX_BYTES);
    var bytes := rows * rowBytes % WRAP;
    var rel := expert * bytes % WRAP;
    if rel > b.length || bytes > b.length - rel { return Failed; }
    return Made(Matrix(b, cols, rows, planes, rowBytes, bytes, rel));
  }

  function ExpertMatrix(b: Binding, expert: nat): Made {
    if |b.dims| != 3 || b.dtype != Mxfp4 || expert >= b.dims[2] then Failed
    else
      var cols, rows := b.dims[0] % U32, b.dims[1] % U32;
      var rowBytes := SourceFormats.PackedRowBytes(cols, SourceFormats.MX_ELEMS, SourceFormats.MX_BYTES);
      var bytes := rows * rowBytes % WRAP;
      var rel := expert * bytes % WRAP;
      if rel > b.length || bytes > b.length - rel then Failed
      else Made(Matrix(b, cols, rows, b.dims[2] % U32, rowBytes, bytes, rel))
  }

  /** The fields of an expert's matrix. */
  lemma ExpertShape(b: Binding, expert: nat)
    requires ExpertMatrix(b, expert).Made?
    ensures var m := ExpertMatrix(b, expert).m;
            && m.binding == b && expert < b.dims[2]
            && m.cols % 0x1_0000_0000 == b.dims[0] % 0x1_0000_0000 && m.cols < 0x1_0000_0000
            && m.rows % 0x1_0000_0000 == b.dims[1] % 0x1_0000_0000 && m.rows < 0x1_0000_0000
            && m.planes % 0x1_0000_0000 == b.dims[2] % 0x1_0000_0000 && m.planes < 0x1_0000_0000
            && m.rowBytes == (if m.cols % 32 == 0 then m.cols / 32 * 17 else 0)
            && m.bytes == m.rows * m.rowBytes
  {
    RowBytesSmall(b);
    assert ExpertMatrix(b, expert).m.rowBytes == RowBytesOf(b);
    assert b.dims[1] % U32 * RowBytesOf(b) == BytesOf(b) <= MAX;
  }

  // ------------------------------------------------------------------ the experts tile the binding

  /** The bytes of one expert in exact arithmetic. */
  function PlaneBytes(cols: nat, rows: nat): nat {
    rows * (cols / 32 * 17)
  }

  /** The spans of the first `n` experts. */
  function Spans(b: Binding, n: nat): seq<Span>
    requires forall e | 0 <= e < n :: ExpertMatrix(b, e).Made?
  {
    if n == 0 then [] else Spans(b, n - 1) + [Span(ExpertMatrix(b, n - 1).m.rel, ExpertMatrix(b, n - 1).m.bytes)]
  }

  /** The experts a caller can name: their numbers have 32 bits. */
  function Experts(b: Binding): nat
    requires |b.dims| == 3
  {
    if b.dims[2] <= U32 then b.dims[2] else U32
  }

  ghost predicate ExpertsTile(b: Binding) {
    && |b.dims| == 3
    && (forall e | 0 <= e < Experts(b) :: ExpertMatrix(b, e).Made?)
    && Tiles(Spans(b, Experts(b)), 0, b.length)
  }

  /** Rows are whole blocks, and no dimension is cut or out of the callers' reach. */
  predicate Regular(b: Binding)
    requires |b.dims| == 3
  {
    b.dims[0] % 32 == 0 && b.dims[0] < U32 && b.dims[1] < U32 && b.dims[2] <= U32
  }

  lemma ProductThree(c: nat, r: nat, p: nat)
    ensures Shapes.Product([c, r, p]) == c * r * p
  {
    assert [c, r, p][..2] == [c, r] && [c, r][..1] == [c] && [c][..0] == [];
    assert Shapes.Product([c]) == 1 * c;
  }

  lemma {:induction false} TilesSum(p: seq<Span>, lo: nat, hi: nat, len: nat)
    requires Tiles(p, lo, hi) && forall i | 0 <= i < |p| :: p[i].len == len
    ensures hi == lo + |p| * len
  {
    if p != [] {
      TilesSum(p[1..], lo + len, hi, len);
      Distribute(|p| - 1, len);
    }
  }

  lemma Distribute(n: nat, x: nat)
    ensures (n + 1) * x == n * x + x
  {
  }

  /** What the program computes for one expert, without the checks. */
  function RowBytesOf(b: Binding): nat
    requires |b.dims| == 3
  {
    SourceFormats.PackedRowBytes(b.dims[0] % U32, SourceFormats.MX_ELEMS, SourceFormats.MX_BYTES)
  }

  function BytesOf(b: Binding): nat
    requires |b.dims| == 3
  {
    b.dims[1] % U32 * RowBytesOf(b)
  }

  lemma RowBytesSmall(b: Binding)
    requires |b.dims| == 3
    ensures var c := b.dims[0] % U32; RowBytesOf(b) == if c % 32 == 0 then c / 32 * 17 else 0
    ensures RowBytesOf(b) < U32 && BytesOf(b) <= MAX
  {
    var c := b.dims[0] % U32;
    assert c / 32 <= MAX / 17;
    MulBoth(b.dims[1] % U32, RowBytesOf(b));
  }

  lemma MulBoth(a: nat, b: nat)
    requires a < U32 && b < U32
    ensures a * b <= MAX
  {
    MulMono(a, b, U32 - 1);
    MulMono(U32 - 1, a, U32 - 1);
  }

  lemma {:induction false} SpanLengths(b: Binding, n: nat)
    requires |b.dims| == 3 && (forall e | 0 <= e < n :: ExpertMatrix(b, e).Made?)
    ensures |Spans(b, n)| == n && forall i | 0 <= i < n :: Spans(b, n)[i].len == BytesOf(b)
  {
    hide ExpertMatrix, BytesOf;
    if n > 0 {
      SpanLengths(b, n - 1);
      ExpertBytes(b, n - 1);
    }
  }

  lemma ExpertBytes(b: Binding, e: nat)
    requires |b.dims| == 3 && ExpertMatrix(b, e).Made?
    ensures ExpertMatrix(b, e).m.bytes == BytesOf(b)
  {
    RowBytesSmall(b);
  }

  /** The flat formula counts the experts' exact bytes when rows consist of whole blocks. */
  lemma FlatBytes(c: nat, r: nat, p: nat)
    requires c % 32 == 0
    ensures c * r * p % 32 == 0 && c * r * p / 32 * 17 == p * PlaneBytes(c, r)
  {
    var k := c / 32;
    assert c == 32 * k;
    var n := k * r * p;
    assert c * r * p == 32 * n by { Shuffle(32, k, r, p); }
    assert n * 17 == p * (r * (k * 17)) by { Shuffle2(k, r, p, 17); }
  }

  lemma Shuffle(a: nat, b: nat, c: nat, d: nat)
    ensures (a * b) * c * d == a * (b * c * d)
  {
    assert (a * b) * c == a * (b * c);
    assert a * (b * c) * d == a * (b * c * d);
  }

  lemma Shuffle2(k: nat, r: nat, p: nat, x: nat)
    ensures k * r * p * x == p * (r * (k * x))
  {
    assert k * r * p == p * (k * r);
    assert p * (k * r) * x == p * (k * r * x);
    assert k * r * x == r * (k * x);
  }

  /** An expert that ends inside the binding is what the exact products say. */
  lemma ExpertMatrixIs(b: Binding, e: nat)
    requires |b.dims| == 3 && b.dtype == Mxfp4 && e < b.dims[2] && e * BytesOf(b) + BytesOf(b) <= b.length
    ensures ExpertMatrix(b, e).Made? && ExpertMatrix(b, e).m.rel == e * BytesOf(b) && ExpertMatrix(b, e).m.bytes == BytesOf(b)
  {
    RowBytesSmall(b);
    var bytes := BytesOf(b);
    assert bytes % WRAP == bytes;
    assert 0 <= e * bytes <= MAX;
    assert e * bytes % WRAP == e * bytes;
  }

  /** Whole blocks and 32-bit dimensions are enough. */
  lemma WholeBlocksTile(b: Binding)
    requires BindingOk(b) && b.dtype == Mxfp4 && |b.dims| == 3 && Regular(b)
    ensures ExpertsTile(b)
    ensures forall e | 0 <= e < b.dims[2] ::
              ExpertMatrix(b, e).m.rel == e * PlaneBytes(b.dims[0], b.dims[1]) && ExpertMatrix(b, e).m.bytes == PlaneBytes(b.dims[0], b.dims[1])
  {
    WholeBlocks(b);
    hide ExpertMatrix, Spans, Tiles, BytesOf, PlaneBytes, BindingOk;
    var p, plane := b.dims[2], PlaneBytes(b.dims[0], b.dims[1]);
    forall e | 0 <= e < p
      ensures ExpertMatrix(b, e).Made? && ExpertMatrix(b, e).m.rel == e * plane && ExpertMatrix(b, e).m.bytes == plane
    {
      ExpertFits(e, p, plane);
      ExpertMatrixIs(b, e);
    }
    SpansTile(b, plane, p);
  }

  lemma ExpertFits(e: nat, p: nat, plane: nat)
    requires e < p
    ensures e * plane + plane <= p * plane
  {
    MulMono(plane, e + 1, p);
    Distribute(e, plane);
  }

  lemma WholeBlocks(b: Binding)
    requires BindingOk(b) && b.dtype == Mxfp4 && |b.dims| == 3 && Regular(b)
    ensures BytesOf(b) == PlaneBytes(b.dims[0], b.dims[1]) && b.dims[2] * BytesOf(b) == b.length
  {
    PlaneIs(b);
    var c, r, p := b.dims[0], b.dims[1], b.dims[2];
    assert b.dims == [c, r, p];
    ProductThree(c, r, p);
    hide Shapes.Product, BytesOf, PlaneBytes;
    MxBytes(c * r * p);
    hide ExpectedBytes;
    FlatBytes(c, r, p);
  }

  lemma PlaneIs(b: Binding)
    requires |b.dims| == 3 && Regular(b)
    ensures BytesOf(b) == PlaneBytes(b.dims[0], b.dims[1])
  {
    RowBytesSmall(b);
    hide RowBytesOf;
    assert b.dims[0] % U32 == b.dims[0] && b.dims[1] % U32 == b.dims[1];
  }

  lemma {:induction false} SpansTile(b: Binding, plane: nat, n: nat)
    requires forall e | 0 <= e < n :: ExpertMatrix(b, e).Made? && ExpertMatrix(b, e).m.rel == e * plane && ExpertMatrix(b, e).m.bytes == plane
    ensures Tiles(Spans(b, n), 0, n * plane)
  {
    if n > 0 {
      SpansTile(b, plane, n - 1);
      Distribute(n - 1, plane);
      var last := Span(ExpertMatrix(b, n - 1).m.rel, ExpertMatrix(b, n - 1).m.bytes);
      TilesOne(last, (n - 1) * plane);
      TilesAppend(Spans(b, n - 1), [last], 0, (n - 1) * plane, n * plane);
    }
  }

  lemma LessPair(a: nat, b: nat, a2: nat, b2: nat)
    requires a2 <= a && b2 <= b && a > 0 && b > 0
    ensures a2 * b2 <= a * b
    ensures a2 < a || b2 < b ==> a2 * b2 < a * b
  {
    MulMono(a2, b2, b);
    MulMono(b, a2, a);
    if a2 < a {
      Distribute(a2, b);
      MulMono(b, a2 + 1, a);
    } else if b2 < b {
      Strict(b2, b, a);
    }
  }

  lemma LessProduct(c: nat, r: nat, p: nat, c2: nat, r2: nat, p2: nat)
    requires c2 <= c && r2 <= r && p2 <= p && p > 0 && c > 0 && r > 0
    ensures c2 < c || r2 < r || p2 < p ==> c2 * r2 * p2 < c * r * p
  {
    LessPair(c, r, c2, r2);
    MulMono(c, 1, r);
    LessPair(c * r, p, c2 * r2, p2);
  }

  lemma Strict(a: nat, b: nat, p: nat)
    requires a < b && p > 0
    ensures a * p < b * p
  {
    Distribute(a, p);
    MulMono(p, a + 1, b);
  }

  lemma {:induction false} PositiveProduct(c: nat, r: nat, p: nat)
    requires c > 0 && r > 0 && p > 0
    ensures c * r * p > 0
  {
    MulMono(c, 1, r);
    MulMono(p, 1, c * r);
  }

  /** Nothing else tiles: a row that ends inside a block has no bytes at all, a dimension that was cut
      to 32 bits makes the experts too small, and experts that cannot be named leave a gap at the end. */
  lemma TilesOnlyThen(b: Binding)
    requires BindingOk(b) && b.dtype == Mxfp4 && ExpertsTile(b)
    ensures Regular(b)
  {
    hide ExpertMatrix, Spans, Tiles, Shapes.Product;
    var c, r, p := b.dims[0], b.dims[1], b.dims[2];
    assert b.dims == [c, r, p];
    assert c in b.dims && r in b.dims && p in b.dims;
    ProductThree(c, r, p);
    MxBytes(c * r * p);
    SpanLengths(b, Experts(b));
    TilesSum(Spans(b, Experts(b)), 0, b.length, BytesOf(b));
    RowBytesSmall(b);
    OnlyExact(c, r, p, c % U32, r % U32, Experts(b));
  }

  /** Seventeen bytes for every 32 elements, cut down to whole blocks or to smaller dimensions, are too few. */
  lemma OnlyExact(c: nat, r: nat, p: nat, c2: nat, r2: nat, p2: nat)
    requires c > 0 && r > 0 && p > 0 && c2 <= c && r2 <= r && p2 <= p && c * r * p % 32 == 0
    requires p2 * (r2 * (if c2 % 32 == 0 then c2 / 32 * 17 else 0)) == c * r * p / 32 * 17
    ensures c2 == c && r2 == r && p2 == p && c % 32 == 0
  {
    PositiveProduct(c, r, p);
    assert p2 * (r2 * 0) == 0;
    if c2 % 32 == 0 {
      FlatBytes(c2, r2, p2);
      LessProduct(c, r, p, c2, r2, p2);
    }
  }

  /** The per-expert spans tile a binding exactly when its columns are whole blocks, its rows and
      columns fit 32 bits, and every expert has a 32-bit number. */
  lemma ExpertsTileExactly(b: Binding)
    requires BindingOk(b) && b.dtype == Mxfp4 && |b.dims| == 3
    ensures ExpertsTile(b) <==>
              (b.dims[0] % 32 == 0 && b.dims[0] < U32 && b.dims[1] < U32 && b.dims[2] <= U32)
  {
    if Regular(b) {
      WholeBlocksTile(b);
    }
    if ExpertsTile(b) {
      TilesOnlyThen(b);
    }
  }

  /** With more than 2^32 experts of one block each, the last ones have no number. */
  lemma TooManyExperts()
    ensures var b := Binding([32, 1, U32 + 1], Mxfp4, 17 * (U32 + 1), 0);
            BindingOk(b) && !ExpertsTile(b)
  {
    var b := Binding([32, 1, U32 + 1], Mxfp4, 17 * (U32 + 1), 0);
    ProductThree(32, 1, U32 + 1);
    MxBytes(32 * (U32 + 1));
    if ExpertsTile(b) {
      TilesOnlyThen(b);
    }
  }

  /** Sixteen columns and two rows pass the flat formula, but every expert comes out empty. */
  lemma HalfBlockRows()
    ensures var b := Binding([16, 2, 1], Mxfp4, 17, 0);
            BindingOk(b) && ExpertMatrix(b, 0).Made? && ExpertMatrix(b, 0).m.bytes == 0 && !ExpertsTile(b)
  {
    var b := Binding([16, 2, 1], Mxfp4, 17, 0);
    HalfBlockBinding(b);
    hide ExpertsTile;
    ExpertsTileExactly(b);
    hide BindingOk, ExpectedBytes, Shapes.Product;
  }

  lemma HalfBlockBinding(b: Binding)
    requires b == Binding([16, 2, 1], Mxfp4, 17, 0)
    ensures BindingOk(b)
  {
    ProductThree(16, 2, 1);
    MxBytes(32);
  }

  // ------------------------------------------------------------------ the arena span of a layer

  /** ds4_bound_matrix_arena_offset. */
  function ArenaOffset(m: Matrix): u64 {
    (m.binding.shardOffset + m.rel) % WRAP
  }

  /** The end of a matrix in the arena, or NoBytes when it is beyond the largest number. */
  function EndOfMatrix(m: Matrix): Bytes {
    if m.bytes > MAX - ArenaOffset(m) then NoBytes else Bytes(ArenaOffset(m) + m.bytes)
  }

  /** The sum of the offsets wraps around, the end does not. */
  lemma EndExact(m: Matrix)
    ensures var off := (m.binding.shardOffset + m.rel) % 0x1_0000_0000_0000_0000;
            EndOfMatrix(m) == if off + m.bytes <= MAX then Bytes(off + m.bytes) else NoBytes
  {
  }

  /** A matrix cut out of a checked binding ends inside the binding, in the arena too. */
  lemma ExpertEnd(b: Binding, e: nat)
    requires b.shardOffset + b.length <= MAX && ExpertMatrix(b, e).Made?
    ensures EndOfMatrix(ExpertMatrix(b, e).m) == Bytes(b.shardOffset + ExpertMatrix(b, e).m.rel + ExpertMatrix(b, e).m.bytes)
    ensures EndOfMatrix(ExpertMatrix(b, e).m).count <= b.shardOffset + b.length
  {
    var m := ExpertMatrix(b, e).m;
    assert m.binding == b && m.rel + m.bytes <= b.length;
    hide ExpertMatrix;
    assert (b.shardOffset + m.rel) % WRAP == b.shardOffset + m.rel;
  }

  /** A layer state without TurboMind bindings: four fixed matrices and three expert tensors. */
  datatype State = State(router: Matrix, sharedGate: Matrix, sharedUp: Matrix, sharedDown: Matrix,
                         routedGate: Binding, routedUp: Binding, routedDown: Binding, routedExperts: nat)

  /** grow_span_for_matrix: the span reaches at least to the end of the matrix. */
  method GrowSpan(m: Matrix, span: u64) returns (ok: bool, grown: u64)
    ensures ok <==> EndOfMatrix(m).Bytes?
    ensures grown == if ok && EndOfMatrix(m).count > span then EndOfMatrix(m).count else span
  {
    grown := span;
    var start := ArenaOffset(m);
    if m.bytes > MAX - start { return false, grown; }
    var end := start + m.bytes;
    if end > span { grown := end; }
    return true, grown;
  }

  datatype Route = Route(gate: Matrix, up: Matrix, down: Matrix) | NoRoute

  /** ds4_layer_state_route_matrices. */
  method RouteMatrices(s: State, expert: nat) returns (r: Route)
    requires expert < U32
    ensures r == RouteOf(s, expert)
  {
    if expert >= s.routedExperts { return NoRoute; }
    var gate := MakeExpertMatrix(s.routedGate, expert);
    if gate.Failed? { return NoRoute; }
    var up := MakeExpertMatrix(s.routedUp, expert);
    if up.Failed? { return NoRoute; }
    var down := MakeExpertMatrix(s.routedDown, expert);
    if down.Failed? { return NoRoute; }
    return Route(gate.m, up.m, down.m);
  }

  function RouteOf(s: State, expert: nat): Route {
    var g, u, d := ExpertMatrix(s.routedGate, expert), ExpertMatrix(s.routedUp, expert), ExpertMatrix(s.routedDown, expert);
    if expert < s.routedExperts && g.Made? && u.Made? && d.Made? then Route(g.m, u.m, d.m) else NoRoute
  }

  /** The matrices of a list, when each has an end. */
  ghost predicate Ends(ms: seq<Matrix>) {
    forall i | 0 <= i < |ms| :: EndOfMatrix(ms[i]).Bytes?
  }

  function Fixed(s: State): seq<Matrix> {
    [s.router, s.sharedGate, s.sharedUp, s.sharedDown]
  }

  /** The matrices that the selected experts need. */
  ghost predicate Routable(s: State, selected: seq<int>) {
    forall i | 0 <= i < |selected| :: 0 <= selected[i] < U32 && RouteOf(s, selected[i]).Route?
  }

  function Routed(s: State, selected: seq<int>): seq<Matrix>
    requires Routable(s, selected)
  {
    if selected == [] then []
    else
      var n := |selected| - 1;
      var r := RouteOf(s, selected[n]);
      Routed(s, selected[..n]) + [r.gate, r.up, r.down]
  }

  /** `span` is the least number that no end of a matrix exceeds. */
  ghost predicate IsLub(span: nat, ms: seq<Matrix>) {
    && Ends(ms)
    && (forall i | 0 <= i < |ms| :: EndOfMatrix(ms[i]).count <= span)
    && (span == 0 || exists i :: 0 <= i < |ms| && EndOfMatrix(ms[i]).count == span)
  }

  lemma LubLeast(span: nat, ms: seq<Matrix>, bound: nat)
    requires IsLub(span, ms) && forall i | 0 <= i < |ms| :: EndOfMatrix(ms[i]).count <= bound
    ensures span <= bound
  {
  }

  lemma LubGrows(span: nat, grown: nat, ms: seq<Matrix>, m: Matrix)
    requires IsLub(span, ms) && EndOfMatrix(m).Bytes?
    requires grown == if EndOfMatrix(m).count > span then EndOfMatrix(m).count else span
    ensures IsLub(grown, ms + [m])
  {
    var all := ms + [m];
    assert all[|ms|] == m;
    if grown == span && span != 0 {
      var i :| 0 <= i < |ms| && EndOfMatrix(ms[i]).count == span;
      assert all[i] == ms[i];
    }
  }

  /** Grow a span over several matrices in a row. */
  method GrowOver(ms: seq<Matrix>, span: u64, ghost before: seq<Matrix>) returns (ok: bool, grown: u64)
    requires IsLub(span, before)
    ensures ok <==> Ends(before + ms)
    ensures ok ==> IsLub(grown, before + ms)
  {
    grown := span;
    assert before + ms[..0] == before;
    for i := 0 to |ms|
      invariant IsLub(grown, before + ms[..i])
    {
      ok, grown := GrowMatrix(ms[i], grown, before + ms[..i]);
      assert before + ms[..i + 1] == before + ms[..i] + [ms[i]];
      if !ok {
        assert (before + ms)[|before| + i] == ms[i];
        return;
      }
    }
    assert ms[..|ms|] == ms;
    ok := true;
  }

  method GrowMatrix(m: Matrix, span: u64, ghost before: seq<Matrix>) returns (ok: bool, grown: u64)
    requires IsLub(span, before)
    ensures ok <==> EndOfMatrix(m).Bytes?
    ensures ok ==> IsLub(grown, before + [m])
  {
    ok, grown := GrowSpan(m, span);
    if ok { LubGrows(span, grown, before, m); }
  }

  /** What a selection needs. */
  ghost predicate Spannable(s: State, selected: seq<int>) {
    Routable(s, selected) && Ends(Fixed(s) + Routed(s, selected))
  }

  /** A matrix that the layer needs: one of the four fixed ones, or one that is cut out of the three
      expert tensors for a selected expert. */
  ghost predicate Wanted(s: State, selected: seq<int>, m: Matrix) {
    || m == s.router || m == s.sharedGate || m == s.sharedUp || m == s.sharedDown
    || exists i :: 0 <= i < |selected| && 0 <= selected[i] && WantedBy(s, selected[i], m)
  }

  ghost predicate WantedBy(s: State, expert: nat, m: Matrix) {
    || ExpertMatrix(s.routedGate, expert) == Made(m)
    || ExpertMatrix(s.routedUp, expert) == Made(m)
    || ExpertMatrix(s.routedDown, expert) == Made(m)
  }

  /** Every selected expert exists and can be cut out of all three tensors, and everything that is needed
      ends within the largest number. */
  ghost predicate Feasible(s: State, selected: seq<int>) {
    && (forall i | 0 <= i < |selected| :: 0 <= selected[i] < s.routedExperts && CutOut(s, selected[i]))
    && forall m | Wanted(s, selected, m) :: EndOfMatrix(m).Bytes?
  }

  ghost predicate CutOut(s: State, expert: nat) {
    ExpertMatrix(s.routedGate, expert).Made? && ExpertMatrix(s.routedUp, expert).Made? && ExpertMatrix(s.routedDown, expert).Made?
  }

  lemma WantedExactly(s: State, selected: seq<int>, m: Matrix)
    requires Routable(s, selected)
    ensures m in Fixed(s) + Routed(s, selected) <==> Wanted(s, selected, m)
  {
    if m in Routed(s, selected) {
      var i := RoutedFrom(s, selected, m);
      assert WantedBy(s, selected[i], m);
    }
    if exists i :: 0 <= i < |selected| && 0 <= selected[i] && WantedBy(s, selected[i], m) {
      var i :| 0 <= i < |selected| && 0 <= selected[i] && WantedBy(s, selected[i], m);
      assert RouteOf(s, selected[i]).Route?;
      RoutedHas(s, selected, i, m);
    }
  }

  lemma SpannableExactly(s: State, selected: seq<int>)
    requires s.routedExperts < U32
    ensures Spannable(s, selected) <==> Feasible(s, selected)
  {
    hide ExpertMatrix, EndOfMatrix;
    assert Routable(s, selected) <==>
             forall i | 0 <= i < |selected| :: 0 <= selected[i] < s.routedExperts && CutOut(s, selected[i]);
    if Routable(s, selected) {
      var all := Fixed(s) + Routed(s, selected);
      forall m ensures m in all <==> Wanted(s, selected, m) {
        WantedExactly(s, selected, m);
      }
      hide Wanted, Fixed, Routed;
      AllEnd(all);
    }
  }

  lemma AllEnd(ms: seq<Matrix>)
    ensures Ends(ms) <==> forall m | m in ms :: EndOfMatrix(m).Bytes?
  {
    forall i | 0 <= i < |ms| ensures ms[i] in ms {}
  }

  /** The span is the greatest end of what is needed. */
  lemma LubIsGreatest(s: State, selected: seq<int>, bytes: nat)
    requires Spannable(s, selected) && IsLub(bytes, Fixed(s) + Routed(s, selected))
    ensures forall m | Wanted(s, selected, m) :: EndOfMatrix(m).Bytes? && EndOfMatrix(m).count <= bytes
    ensures exists m :: Wanted(s, selected, m) && EndOfMatrix(m) == Bytes(bytes)
  {
    var all := Fixed(s) + Routed(s, selected);
    assert all[0] == s.router;
    hide EndOfMatrix, ExpertMatrix, Routed;
    forall m ensures m in all <==> Wanted(s, selected, m) {
      WantedExactly(s, selected, m);
    }
    hide Wanted, Fixed;
    forall m | Wanted(s, selected, m) ensures EndOfMatrix(m).Bytes? && EndOfMatrix(m).count <= bytes {
      var i := MemberAt(all, m);
    }
    var i: nat := if bytes == 0 then 0 else var k :| 0 <= k < |all| && EndOfMatrix(all[k]).count == bytes; k;
    assert all[i] in all && EndOfMatrix(all[i]).Bytes?;
  }

  /** ds4_layer_state_ffn_arena_span. */
  method FfnArenaSpan(s: State, selected: seq<int>) returns (ok: bool, bytes: u64)
    requires s.routedExperts < U32
    ensures ok <==> Feasible(s, selected)
    ensures ok ==> forall m | Wanted(s, selected, m) :: EndOfMatrix(m).Bytes? && EndOfMatrix(m).count <= bytes
    ensures ok ==> exists m :: Wanted(s, selected, m) && EndOfMatrix(m) == Bytes(bytes)
  {
    ok, bytes := GrowSpans(s, selected);
    hide Spannable, Feasible, IsLub, Wanted, EndOfMatrix, Fixed, Routed;
    SpannableExactly(s, selected);
    if ok {
      LubIsGreatest(s, selected, bytes);
    }
  }

  /** The growing of the span, matrix by matrix. */
  method GrowSpans(s: State, selected: seq<int>) returns (ok: bool, bytes: u64)
    requires s.routedExperts < U32
    ensures ok <==> Spannable(s, selected)
    ensures ok ==> IsLub(bytes, Fixed(s) + Routed(s, selected))
  {
    bytes := 0;
    ok, bytes := GrowOver(Fixed(s), 0, []);
    assert [] + Fixed(s) == Fixed(s);
    if !ok {
      FixedFails(s, selected);
      return;
    }
    assert Fixed(s) + Routed(s, selected[..0]) == Fixed(s);
    for i := 0 to |selected|
      invariant Routable(s, selected[..i]) && IsLub(bytes, Fixed(s) + Routed(s, selected[..i]))
    {
      ghost var before := Fixed(s) + Routed(s, selected[..i]);
      if selected[i] < 0 || selected[i] >= s.routedExperts { return false, bytes; }
      var r := RouteMatrices(s, selected[i]);
      if r.NoRoute? { return false, bytes; }
      RoutedNext(s, selected, i);
      ok, bytes := GrowOver([r.gate, r.up, r.down], bytes, before);
      if !ok {
        RouteFails(s, selected, i);
        return;
      }
    }
    assert selected[..|selected|] == selected;
    ok := true;
  }

  lemma FixedFails(s: State, selected: seq<int>)
    requires !Ends(Fixed(s))
    ensures !Spannable(s, selected)
  {
    if Routable(s, selected) {
      var all := Fixed(s) + Routed(s, selected);
      assert forall i | 0 <= i < 4 :: all[i] == Fixed(s)[i];
    }
  }

  lemma RoutedNext(s: State, selected: seq<int>, i: nat)
    requires i < |selected| && Routable(s, selected[..i]) && 0 <= selected[i] < U32 && RouteOf(s, selected[i]).Route?
    ensures Routable(s, selected[..i + 1])
    ensures var r := RouteOf(s, selected[i]);
            Fixed(s) + Routed(s, selected[..i + 1]) == Fixed(s) + Routed(s, selected[..i]) + [r.gate, r.up, r.down]
  {
    assert selected[..i + 1][..i] == selected[..i];
    var t := selected[..i + 1];
    forall k | 0 <= k < |t| ensures 0 <= t[k] < U32 && RouteOf(s, t[k]).Route? {
      if k < i { assert selected[..i][k] == t[k]; }
    }
  }

  /** An expert whose matrices have no end spoils every selection that contains it. */
  lemma RouteFails(s: State, selected: seq<int>, i: nat)
    requires i < |selected| && Routable(s, selected[..i + 1]) && !Ends(Fixed(s) + Routed(s, selected[..i + 1]))
    ensures !Spannable(s, selected)
  {
    hide EndOfMatrix, RouteOf, Routed;
    if Spannable(s, selected) {
      RoutedPrefix(s, selected, i + 1);
      PrefixEnds(Fixed(s), Routed(s, selected[..i + 1]), Routed(s, selected));
    }
  }

  lemma PrefixEnds(a: seq<Matrix>, b: seq<Matrix>, c: seq<Matrix>)
    requires b <= c && Ends(a + c)
    ensures Ends(a + b)
  {
    assert forall k | 0 <= k < |a + b| :: (a + b)[k] == (a + c)[k];
  }

  lemma {:induction false} RoutedPrefix(s: State, selected: seq<int>, n: nat)
    requires Routable(s, selected) && n <= |selected|
    ensures Routable(s, selected[..n]) && Routed(s, selected[..n]) <= Routed(s, selected)
    decreases |selected|
  {
    if n < |selected| {
      var m := |selected| - 1;
      assert selected[..m][..n] == selected[..n];
      RoutedPrefix(s, selected[..m], n);
    } else {
      assert selected[..n] == selected;
    }
  }

  // ------------------------------------------------------------------ order and repetition do not matter

  lemma {:induction false} RoutedFrom(s: State, selected: seq<int>, m: Matrix) returns (i: nat)
    requires Routable(s, selected) && m in Routed(s, selected)
    ensures i < |selected| && Needs(s, selected[i], m)
  {
    var n := |selected| - 1;
    if m in Routed(s, selected[..n]) {
      i := RoutedFrom(s, selected[..n], m);
    } else {
      i := n;
    }
  }

  lemma {:induction false} RoutedHas(s: State, selected: seq<int>, i: nat, m: Matrix)
    requires Routable(s, selected) && i < |selected| && Needs(s, selected[i], m)
    ensures m in Routed(s, selected)
  {
    var n := |selected| - 1;
    if i < n {
      RoutedHas(s, selected[..n], i, m);
    } else {
      var r := RouteOf(s, selected[n]);
      assert m in [r.gate, r.up, r.down];
    }
  }

  predicate Needs(s: State, expert: int, m: Matrix) {
    0 <= expert && RouteOf(s, expert).Route?
    && (m == RouteOf(s, expert).gate || m == RouteOf(s, expert).up || m == RouteOf(s, expert).down)
  }

  ghost predicate SameExperts(a: seq<int>, b: seq<int>) {
    (forall x | x in a :: x in b) && (forall x | x in b :: x in a)
  }

  lemma SameRouted(s: State, a: seq<int>, b: seq<int>, m: Matrix)
    requires SameExperts(a, b) && Routable(s, a) && Routable(s, b) && m in Routed(s, a)
    ensures m in Routed(s, b)
  {
    var i := RoutedFrom(s, a, m);
    var j := MemberAt(b, a[i]);
    RoutedHas(s, b, j, m);
  }

  lemma SameLub(x: nat, y: nat, a: seq<Matrix>, b: seq<Matrix>)
    requires IsLub(x, a) && IsLub(y, b) && forall m | m in a :: m in b
    ensures x <= y
  {
    if x != 0 {
      var i :| 0 <= i < |a| && EndOfMatrix(a[i]).count == x;
      var j := MemberAt(b, a[i]);
    }
  }

  lemma SameSpannable(s: State, a: seq<int>, b: seq<int>)
    requires SameExperts(a, b) && Spannable(s, a)
    ensures Spannable(s, b)
  {
    hide EndOfMatrix, RouteOf, Routed;
    forall i | 0 <= i < |b| ensures 0 <= b[i] < U32 && RouteOf(s, b[i]).Route? {
      var j := MemberAt(a, b[i]);
    }
    forall m | m in Fixed(s) + Routed(s, b) ensures m in Fixed(s) + Routed(s, a) {
      if m in Routed(s, b) { SameRouted(s, b, a, m); }
    }
    MemberEnds(Fixed(s) + Routed(s, a), Fixed(s) + Routed(s, b));
  }

  lemma MemberEnds(a: seq<Matrix>, b: seq<Matrix>)
    requires Ends(a) && forall m | m in b :: m in a
    ensures Ends(b)
  {
    forall i | 0 <= i < |b| ensures EndOfMatrix(b[i]).Bytes? {
      var j := MemberAt(a, b[i]);
    }
  }

  /** Reordering or repeating the selected experts changes neither the outcome nor the span. */
  lemma SelectionAsSet(s: State, a: seq<int>, b: seq<int>)
    requires SameExperts(a, b)
    ensures Spannable(s, a) <==> Spannable(s, b)
    ensures forall x: nat, y: nat | Spannable(s, a) && Spannable(s, b)
              && IsLub(x, Fixed(s) + Routed(s, a)) && IsLub(y, Fixed(s) + Routed(s, b)) :: x == y
  {
    if Spannable(s, a) { SameSpannable(s, a, b); }
    if Spannable(s, b) { SameSpannable(s, b, a); }
    forall x: nat, y: nat | Spannable(s, a) && Spannable(s, b)
      && IsLub(x, Fixed(s) + Routed(s, a)) && IsLub(y, Fixed(s) + Routed(s, b))
      ensures x == y
    {
      forall m | m in Fixed(s) + Routed(s, a) ensures m in Fixed(s) + Routed(s, b) {
        if m in Routed(s, a) { SameRouted(s, a, b, m); }
      }
      forall m | m in Fixed(s) + Routed(s, b) ensures m in Fixed(s) + Routed(s, a) {
        if m in Routed(s, b) { SameRouted(s, b, a, m); }
      }
      SameLub(x, y, Fixed(s) + Routed(s, a), Fixed(s) + Routed(s, b));
      SameLub(y, x, Fixed(s) + Routed(s, b), Fixed(s) + Routed(s, a));
    }
  }
}
