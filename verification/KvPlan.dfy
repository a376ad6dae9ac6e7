/**
 The KV-cache planner of engine/context.c: per-layer budgets in saturating 64-bit arithmetic, one
 arena per stage, and a view of the arena for every layer.
 */
module KvPlan {
  const MAX := 0xFFFF_FFFF_FFFF_FFFF  // UINT64_MAX

  type u64 = x: nat | x <= MAX

  const LAYERS := 43
  const STAGES := 8
  const SWA_ROWS := 128
  const HEAD_DIM := 512
  const INDEXER_HEAD_DIM := 128
  const ELEM_BYTES := 2
  const FLOAT_BYTES := 4
  const ALIGN := 256

  // ------------------------------------------------------------------ saturating arithmetic

  function SatMul(a: u64, b: u64): u64 {
    if a != 0 && b > MAX / a then MAX
    else
      MulFits(a, b);
      a * b
  }

  function SatAdd(a: u64, b: u64): u64 {
    if b > MAX - a then MAX else a + b
  }

  predicate PowerOfTwo(n: nat) {
    n == 1 || (n % 2 == 0 && n > 0 && PowerOfTwo(n / 2))
  }

  /** For a power of two, `x & ~(align - 1)` clears `x % align`. */
  function AlignUp(v: u64, align: u64): u64 {
    if align == 0 then v
    else if !PowerOfTwo(align) then v
    else if v > MAX - (align - 1) then MAX
    else v + (align - 1) - (v + (align - 1)) % align
  }

  /** What all of them compute: the exact result, cut off at the largest number. */
  function Sat(x: nat): u64 {
    if x > MAX then MAX else x
  }

  lemma MulFits(a: nat, b: nat)
    ensures a != 0 ==> (b > MAX / a <==> a * b > MAX)
    ensures a == 0 ==> a * b == 0
  {
    if a != 0 {
      var q := MAX / a;
      assert a * q <= MAX < a * q + a;
      if b > q {
        MulMono(a, q + 1, b);
      } else {
        MulMono(a, b, q);
      }
    }
  }

  lemma MulMono(a: nat, b: nat, c: nat)
    requires b <= c
    ensures a * b <= a * c && b * a <= c * a
  {
  }

  lemma SatMulExact(a: nat, b: nat)
    ensures b > 0 ==> SatMul(Sat(a), Sat(b)) == Sat(a * b)
  {
    MulFits(Sat(a), Sat(b));
    if b > 0 {
      if a > MAX {
        MulMono(a, 1, b);
        MulMono(MAX, 1, Sat(b));
      } else if b > MAX && a > 0 {
        MulMono(b, 1, a);
        MulMono(MAX, 1, a);
      }
    }
  }

  lemma SatAddExact(a: nat, b: nat)
    ensures SatAdd(Sat(a), Sat(b)) == Sat(a + b)
  {
  }

  function Up(x: nat): nat {
    (x + (ALIGN - 1)) / ALIGN * ALIGN
  }

  lemma AlignUpExact(x: nat)
    ensures AlignUp(Sat(x), ALIGN) == Sat(Up(x))
    ensures x <= Up(x) < x + 256 && Up(x) % 256 == 0
  {
    assert PowerOfTwo(256) by {
      assert PowerOfTwo(2);
      assert PowerOfTwo(4);
      assert PowerOfTwo(8);
      assert PowerOfTwo(16);
      assert PowerOfTwo(32);
      assert PowerOfTwo(64);
      assert PowerOfTwo(128);
    }
  }

  // ------------------------------------------------------------------ budgets

  datatype LayerClass = SwaOnly | Ratio4 | Ratio128

  function ClassOf(layer: int): LayerClass {
    if layer < 0 || layer >= LAYERS then SwaOnly
    else if layer <= 1 then SwaOnly
    else if layer % 2 == 0 then Ratio4 else Ratio128
  }

  function StageOf(layer: int): int {
    if layer < 0 || layer >= LAYERS then -1
    else if layer <= 5 then 0
    else if layer <= 11 then 1
    else if layer <= 17 then 2
    else if layer <= 23 then 3
    else if layer <= 29 then 4
    else if layer <= 34 then 5
    else if layer <= 39 then 6
    else 7
  }

  /** Layers 0 and 1 have a window only; after them, even layers keep every fourth token and odd ones
      every 128th. */
  lemma Classes(layer: int)
    ensures ClassOf(layer) == Ratio4 <==> 2 <= layer < 43 && layer % 2 == 0
    ensures ClassOf(layer) == Ratio128 <==> 2 <= layer < 43 && layer % 2 == 1
  {
  }

  /** A stage holds a contiguous range of layers, and the stages follow each other without a gap. */
  lemma Stages(layer: int, stage: int)
    requires 0 <= stage < 8
    ensures var first := [0, 6, 12, 18, 24, 30, 35, 40, 43];
            StageOf(layer) == stage <==> first[stage] <= layer < first[stage + 1]
  {
  }

  datatype Budget = Budget(raw: u64, compressed: u64, indexer: u64, state: u64, total: u64)

  /** ds4_kv_budget_for_layer. */
  function BudgetFor(layer: int, tokens: u64, slots: u64): Budget {
    if layer < 0 || layer >= LAYERS || tokens == 0 || slots == 0 then Budget(0, 0, 0, 0, 0)
    else
      var raw := SatMul(SWA_ROWS * HEAD_DIM * ELEM_BYTES, slots);
      var (comp, index, state) :=
        match ClassOf(layer)
        case SwaOnly => (0, 0, 0)
        case Ratio4 =>
          (SatMul(SatMul(tokens / 4, HEAD_DIM * ELEM_BYTES), slots),
           SatMul(SatMul(tokens / 4, INDEXER_HEAD_DIM * ELEM_BYTES), slots),
           SatAdd(2 * (2 * HEAD_DIM) * (2 * 4) * FLOAT_BYTES, 2 * (2 * INDEXER_HEAD_DIM) * (2 * 4) * FLOAT_BYTES))
        case Ratio128 =>
          (SatMul(SatMul(tokens / 128, HEAD_DIM * ELEM_BYTES), slots), 0, 2 * HEAD_DIM * 128 * FLOAT_BYTES);
      Budget(raw, comp, index, state, SatAdd(SatAdd(SatAdd(raw, comp), index), state))
  }

  /** kv_state_split_for_layer: attention kv and score, indexer kv and score. */
  function StateSplit(layer: int): (u64, u64, u64, u64) {
    match ClassOf(layer)
    case SwaOnly => (0, 0, 0, 0)
    case Ratio4 =>
      var attn, idx := (2 * HEAD_DIM) * (2 * 4) * FLOAT_BYTES, (2 * INDEXER_HEAD_DIM) * (2 * 4) * FLOAT_BYTES;
      (attn, attn, idx, idx)
    case Ratio128 => (HEAD_DIM * 128 * FLOAT_BYTES, HEAD_DIM * 128 * FLOAT_BYTES, 0, 0)
  }

  datatype Region = Raw | Compressed | Indexer | State

  function Part(b: Budget, r: Region): u64 {
    match r case Raw => b.raw case Compressed => b.compressed case Indexer => b.indexer case State => b.state
  }

  /** The bytes a layer needs, in unbounded arithmetic: one row of the window per slot, one compressed
      row per slot and group of tokens, and a fixed state. */
  function Need(layer: int, r: Region, tokens: nat, slots: nat): nat {
    var group := match ClassOf(layer) case SwaOnly => 0 case Ratio4 => tokens / 4 case Ratio128 => tokens / 128;
    match r
    case Raw => 131072 * slots
    case Compressed => group * 1024 * slots
    case Indexer => if ClassOf(layer).Ratio4? then group * 256 * slots else 0
    case State => match ClassOf(layer) case SwaOnly => 0 case Ratio4 => 81920 case Ratio128 => 524288
  }

  /** The need in terms of what is stored: 128 window rows of 512 values of two bytes per slot, one
      compressed row for every full group of 4 or 128 tokens, with an indexer row of 128 values beside it
      in the first case. */
  lemma NeedRows(layer: int, tokens: nat, slots: nat)
    requires 0 <= layer < 43
    ensures Need(layer, Raw, tokens, slots) == 128 * 512 * 2 * slots
    ensures forall rows: nat | ClassOf(layer).Ratio4? && 4 * rows <= tokens < 4 * rows + 4 ::
              && Need(layer, Compressed, tokens, slots) == rows * (512 * 2) * slots
              && Need(layer, Indexer, tokens, slots) == rows * (128 * 2) * slots
    ensures forall rows: nat | ClassOf(layer).Ratio128? && 128 * rows <= tokens < 128 * rows + 128 ::
              Need(layer, Compressed, tokens, slots) == rows * (512 * 2) * slots
    ensures ClassOf(layer).SwaOnly? ==> Need(layer, Compressed, tokens, slots) == 0
    ensures !ClassOf(layer).Ratio4? ==> Need(layer, Indexer, tokens, slots) == 0
  {
    forall rows: nat | 4 * rows <= tokens < 4 * rows + 4 ensures rows == tokens / 4 {}
    forall rows: nat | 128 * rows <= tokens < 128 * rows + 128 ensures rows == tokens / 128 {}
  }

  lemma SatMulTwice(a: u64, b: u64, slots: u64)
    requires b > 0 && slots > 0
    ensures SatMul(SatMul(a, b), slots) == Sat(a * b * slots)
  {
    SatMulExact(a, b);
    SatMulExact(a * b, slots);
  }

  /** Saturation never hides a wrong intermediate result: a budget is the exact need, or the largest
      number when that does not fit. */
  lemma BudgetExact(layer: int, tokens: u64, slots: u64)
    requires 0 <= layer < LAYERS && tokens > 0 && slots > 0
    ensures forall r :: Part(BudgetFor(layer, tokens, slots), r) == Sat(Need(layer, r, tokens, slots))
    ensures BudgetFor(layer, tokens, slots).total
         == Sat(Need(layer, Raw, tokens, slots) + Need(layer, Compressed, tokens, slots)
                + Need(layer, Indexer, tokens, slots) + Need(layer, State, tokens, slots))
  {
    SatMulExact(131072, slots);
    SatMulTwice(tokens / 4, 1024, slots);
    SatMulTwice(tokens / 4, 256, slots);
    SatMulTwice(tokens / 128, 1024, slots);
    var b := BudgetFor(layer, tokens, slots);
    forall r ensures Part(b, r) == Sat(Need(layer, r, tokens, slots)) {
      match r case Raw => case Compressed => case Indexer => case State =>
    }
  }

  /** A layer needs nothing exactly when it does not exist or there is no context. */
  lemma BudgetEmpty(layer: int, tokens: u64, slots: u64)
    ensures BudgetFor(layer, tokens, slots) == Budget(0, 0, 0, 0, 0) <==> layer < 0 || layer >= 43 || tokens == 0 || slots == 0
  {
    if 0 <= layer < LAYERS && tokens > 0 && slots > 0 {
      BudgetExact(layer, tokens, slots);
      assert Part(BudgetFor(layer, tokens, slots), Raw) == Sat(131072 * slots);
    }
  }

  /** The four state pieces are the compression-state budget, cut in four. */
  lemma StateSplitSums(layer: int, tokens: u64, slots: u64)
    requires 0 <= layer < LAYERS && tokens > 0 && slots > 0
    ensures var (a, b, c, d) := StateSplit(layer);
            a + b + c + d == BudgetFor(layer, tokens, slots).state == Need(layer, State, tokens, slots)
  {
  }

  /** How the state of a layer is divided: a key/value and a score part of the same size, for the
      attention and, on layers that keep every fourth token, for the indexer, whose head is a quarter
      as wide. */
  ghost predicate StateDivided(layer: int, attnKv: nat, attnScore: nat, indexerKv: nat, indexerScore: nat) {
    && attnKv == attnScore && indexerKv == indexerScore
    && (!ClassOf(layer).Ratio4? ==> indexerKv == 0)
    && (ClassOf(layer).Ratio4? ==> attnKv * 128 == indexerKv * 512)
    && attnKv + attnScore + indexerKv + indexerScore == Need(layer, State, 1, 1)
  }

  /** Only one division is like that. */
  lemma StateDividedOnce(layer: int, a: nat, b: nat, c: nat, d: nat)
    requires StateDivided(layer, a, b, c, d)
    ensures (a, b, c, d) == match ClassOf(layer)
                            case SwaOnly => (0, 0, 0, 0)
                            case Ratio4 => (32768, 32768, 8192, 8192)
                            case Ratio128 => (262144, 262144, 0, 0)
  {
  }

  // ------------------------------------------------------------------ exact layout

  /** What the layers below `n` of a stage need in a region. */
  function Total(stage: int, n: nat, r: Region, tokens: nat, slots: nat): nat
    decreases n, slots
  {
    if n == 0 then 0
    else Total(stage, n - 1, r, tokens, slots) + if StageOf(n - 1) == stage then Need(n - 1, r, tokens, slots) else 0
  }

  function Size(stage: int, r: Region, tokens: nat, slots: nat): nat {
    Total(stage, LAYERS, r, tokens, slots)
  }

  /** Where a region starts: after the one before, rounded up. */
  function Start(stage: int, r: Region, tokens: nat, slots: nat): nat
    decreases match r case Raw => 0 case Compressed => 1 case Indexer => 2 case State => 3
  {
    match r
    case Raw => 0
    case Compressed => Up(Size(stage, Raw, tokens, slots))
    case Indexer => Up(Start(stage, Compressed, tokens, slots) + Size(stage, Compressed, tokens, slots))
    case State => Up(Start(stage, Indexer, tokens, slots) + Size(stage, Indexer, tokens, slots))
  }

  /** What a stage needs up to its last byte. */
  function Used(stage: int, tokens: nat, slots: nat): nat {
    Start(stage, State, tokens, slots) + Size(stage, State, tokens, slots)
  }

  function End(stage: int, tokens: nat, slots: nat): nat {
    Up(Used(stage, tokens, slots))
  }

  // ------------------------------------------------------------------ the plan

  datatype Span = Span(off: u64, len: u64)

  datatype Arena = Arena(raw: Span, compressed: Span, indexer: Span, state: Span, total: u64)

  datatype Sums = Sums(raw: u64, compressed: u64, indexer: u64, state: u64)

  datatype Stage = Stage(planned: u64, arena: Arena, sums: Sums)

  datatype View = View(raw: Span, compressed: Span, indexer: Span, attnKv: Span, attnScore: Span, indexerKv: Span,
                       indexerScore: Span, total: u64)

  datatype Layer = Layer(stageId: int, budget: Budget, view: View)

  function RegionOf(a: Arena, r: Region): Span {
    match r case Raw => a.raw case Compressed => a.compressed case Indexer => a.indexer case State => a.state
  }

  function SumOf(s: Sums, r: Region): u64 {
    match r case Raw => s.raw case Compressed => s.compressed case Indexer => s.indexer case State => s.state
  }

  const NO_SPAN := Span(0, 0)
  const NO_ARENA := Arena(NO_SPAN, NO_SPAN, NO_SPAN, NO_SPAN, 0)
  const NO_SUMS := Sums(0, 0, 0, 0)
  const NO_VIEW := View(NO_SPAN, NO_SPAN, NO_SPAN, NO_SPAN, NO_SPAN, NO_SPAN, NO_SPAN, 0)

  /** The sums of the first `n` layers. */
  ghost predicate Summed(s: Sums, stage: int, n: nat, tokens: u64, slots: u64) {
    forall r :: SumOf(s, r) == Sat(Total(stage, n, r, tokens, slots))
  }

  ghost predicate ArenaPlanned(a: Arena, stage: int, tokens: u64, slots: u64) {
    && (forall r :: RegionOf(a, r) == Span(Sat(Start(stage, r, tokens, slots)), Sat(Size(stage, r, tokens, slots))))
    && a.total == Sat(End(stage, tokens, slots))
  }

  /** Where a piece goes that `before` bytes of the region precede. */
  function Placed(stage: int, r: Region, before: nat, len: u64, tokens: u64, slots: u64): Span {
    Span(Sat(Start(stage, r, tokens, slots) + before), len)
  }

  ghost predicate ViewPlanned(v: View, layer: nat, tokens: u64, slots: u64)
    requires layer < LAYERS
  {
    var stage, (a, b, c, d) := StageOf(layer), StateSplit(layer);
    var base := Total(stage, layer, State, tokens, slots);
    && v.raw == Placed(stage, Raw, Total(stage, layer, Raw, tokens, slots), Sat(Need(layer, Raw, tokens, slots)), tokens, slots)
    && v.compressed == Placed(stage, Compressed, Total(stage, layer, Compressed, tokens, slots),
                              Sat(Need(layer, Compressed, tokens, slots)), tokens, slots)
    && v.indexer == Placed(stage, Indexer, Total(stage, layer, Indexer, tokens, slots),
                           Sat(Need(layer, Indexer, tokens, slots)), tokens, slots)
    && v.attnKv == Placed(stage, State, base, a, tokens, slots)
    && v.attnScore == Placed(stage, State, base + a, b, tokens, slots)
    && v.indexerKv == Placed(stage, State, base + a + b, c, tokens, slots)
    && v.indexerScore == Placed(stage, State, base + a + b + c, d, tokens, slots)
    && v.total == BudgetFor(layer, tokens, slots).total
  }

  class Context {
    const tokens: u64
    const slots: u64
    var stages: seq<Stage>
    var layers: seq<Layer>

    /** There is a slot if there are tokens, and every layer knows its stage. */
    ghost predicate Valid()
      reads this
    {
      && (tokens > 0 ==> slots > 0) && |stages| == STAGES && |layers| == LAYERS
      && forall l | 0 <= l < LAYERS :: layers[l].stageId == StageOf(l)
    }

    /** init_stage_map, on the fields that the plan is about. */
    constructor (tokens: u64, slots: u64, plannedPerGpu: u64)
      requires tokens > 0 ==> slots > 0
      ensures Valid() && this.tokens == tokens && this.slots == slots
      ensures forall i | 0 <= i < STAGES :: stages[i] == Stage(plannedPerGpu, NO_ARENA, NO_SUMS)
      ensures forall l | 0 <= l < LAYERS :: layers[l].budget == Budget(0, 0, 0, 0, 0) && layers[l].view == NO_VIEW
    {
      this.tokens, this.slots := tokens, slots;
      stages := seq(STAGES, i => Stage(plannedPerGpu, NO_ARENA, NO_SUMS));
      layers := seq(LAYERS, l => Layer(StageOf(l), Budget(0, 0, 0, 0, 0), NO_VIEW));
    }

    ghost predicate Planned()
      reads this
      requires Valid()
    {
      && (forall i | 0 <= i < STAGES ::
            && Summed(stages[i].sums, i, LAYERS, tokens, slots)
            && ArenaPlanned(stages[i].arena, i, tokens, slots)
            && stages[i].planned == stages[i].arena.total)
      && (forall l | 0 <= l < LAYERS ::
            layers[l].budget == BudgetFor(l, tokens, slots) && ViewPlanned(layers[l].view, l, tokens, slots))
    }

    /** The first layer loop: budgets, and their sums per stage. */
    method SumBudgets()
      requires Valid() && tokens > 0
      modifies this
      ensures Valid() && forall l | 0 <= l < LAYERS :: layers[l].budget == BudgetFor(l, tokens, slots)
      ensures forall i | 0 <= i < STAGES :: Summed(stages[i].sums, i, LAYERS, tokens, slots)
    {
      stages := seq(STAGES, i => Stage(0, NO_ARENA, NO_SUMS));
      assert forall i | 0 <= i < STAGES :: Summed(stages[i].sums, i, 0, tokens, slots);
      hide BudgetFor, Need, Total, Summed, Sat;
      for layer := 0 to LAYERS
        invariant Valid()
        invariant forall l | 0 <= l < layer :: layers[l].budget == BudgetFor(l, tokens, slots)
        invariant forall i | 0 <= i < STAGES :: Summed(stages[i].sums, i, layer, tokens, slots)
      {
        var b := BudgetFor(layer, tokens, slots);
        BudgetExact(layer, tokens, slots);
        var id := layers[layer].stageId;
        layers := layers[layer := layers[layer].(budget := b)];
        var s := stages[id];
        ghost var before := s.sums;
        var sums := Sums(SatAdd(s.sums.raw, b.raw), SatAdd(s.sums.compressed, b.compressed),
                         SatAdd(s.sums.indexer, b.indexer), SatAdd(s.sums.state, b.state));
        SumStep(before, sums, b, layer, tokens, slots);
        stages := stages[id := s.(sums := sums, planned := SatAdd(s.planned, b.total))];
      }
    }

    /** The arena of every stage: four regions, each at the next multiple of 256. */
    method PlaceArenas()
      requires Valid()
      requires forall i | 0 <= i < STAGES :: Summed(stages[i].sums, i, LAYERS, tokens, slots)
      modifies this`stages
      ensures Valid()
      ensures forall i | 0 <= i < STAGES ::
                && stages[i].sums == old(stages[i].sums)
                && ArenaPlanned(stages[i].arena, i, tokens, slots) && stages[i].planned == stages[i].arena.total
    {
      ghost var before := stages;
      for i := 0 to STAGES
        invariant Valid() && forall j | 0 <= j < STAGES :: stages[j].sums == before[j].sums
        invariant forall j | 0 <= j < i ::
                    ArenaPlanned(stages[j].arena, j, tokens, slots) && stages[j].planned == stages[j].arena.total
      {
        var s := stages[i];
        var arena := PlaceArena(s.sums, i, tokens, slots);
        stages := stages[i := s.(arena := arena, planned := arena.total)];
      }
    }

    /** The second layer loop: a view for every layer, with one cursor per stage and region. */
    method PlaceViews()
      requires Valid() && tokens > 0
      requires forall i | 0 <= i < STAGES :: ArenaPlanned(stages[i].arena, i, tokens, slots)
      requires forall l | 0 <= l < LAYERS :: layers[l].budget == BudgetFor(l, tokens, slots)
      modifies this`layers
      ensures Valid()
      ensures forall l | 0 <= l < LAYERS ::
                layers[l].budget == BudgetFor(l, tokens, slots) && ViewPlanned(layers[l].view, l, tokens, slots)
    {
      hide ViewPlanned, ArenaPlanned, BudgetFor, Need, Start;
      var cursors := seq(STAGES, i => NO_SUMS);
      assert forall i | 0 <= i < STAGES :: Summed(cursors[i], i, 0, tokens, slots);
      hide Summed, Total;
      for layer := 0 to LAYERS
        invariant Valid() && |cursors| == STAGES
        invariant forall i | 0 <= i < STAGES :: Summed(cursors[i], i, layer, tokens, slots)
        invariant forall l | 0 <= l < LAYERS :: layers[l].budget == BudgetFor(l, tokens, slots)
        invariant forall l | 0 <= l < layer :: ViewPlanned(layers[l].view, l, tokens, slots)
      {
        var li := layers[layer];
        var view, cursor := PlaceView(stages[li.stageId].arena, li.budget, layer, cursors[li.stageId], tokens, slots);
        OtherStages(cursors, layer, tokens, slots);
        cursors := cursors[li.stageId := cursor];
        layers := layers[layer := li.(view := view)];
      }
    }

    /** apply_derived_kv_plan. */
    method ApplyDerivedKvPlan()
      requires Valid()
      modifies this
      ensures Valid()
      ensures if tokens == 0 then stages == old(stages) && layers == old(layers) else Planned()
      ensures tokens != 0 ==> forall l | 0 <= l < LAYERS ::
                var v := layers[l].view;
                StateDivided(l, v.attnKv.len, v.attnScore.len, v.indexerKv.len, v.indexerScore.len)
    {
      if tokens == 0 { return; }
      SumBudgets();
      PlaceArenas();
      PlaceViews();
      forall l | 0 <= l < LAYERS
        ensures var v := layers[l].view;
                StateDivided(l, v.attnKv.len, v.attnScore.len, v.indexerKv.len, v.indexerScore.len)
      {
        StatePieces(layers[l].view, l, tokens, slots);
      }
    }
  }

  /** ds4_context_open, as far as the plan goes: a context without slots, or with two sizes for its
      caches, is refused, and any other is planned when it has a context length. */
  method Open(tokens: u64, slots: u64, plannedPerGpu: u64) returns (ctx: Context?)
    ensures ctx == null <==> tokens != 0 && (slots == 0 || plannedPerGpu != 0)
    ensures ctx != null ==> ctx.Valid() && ctx.tokens == tokens && ctx.slots == slots
    ensures ctx != null && tokens != 0 ==> ctx.Planned()
    ensures ctx != null && tokens == 0 ==>
              && (forall i | 0 <= i < STAGES :: ctx.stages[i].planned == plannedPerGpu)
              && (forall l | 0 <= l < LAYERS :: ctx.layers[l].budget == Budget(0, 0, 0, 0, 0))
  {
    if tokens != 0 && slots == 0 { return null; }
    if tokens != 0 && plannedPerGpu != 0 { return null; }
    ctx := new Context(tokens, slots, plannedPerGpu);
    ctx.ApplyDerivedKvPlan();
  }

  lemma StatePieces(v: View, layer: nat, tokens: u64, slots: u64)
    requires layer < LAYERS && ViewPlanned(v, layer, tokens, slots)
    ensures StateDivided(layer, v.attnKv.len, v.attnScore.len, v.indexerKv.len, v.indexerScore.len)
  {
  }

  lemma OtherStages(s: seq<Sums>, layer: nat, tokens: u64, slots: u64)
    requires forall i | 0 <= i < |s| :: Summed(s[i], i, layer, tokens, slots)
    ensures forall i | 0 <= i < |s| && i != StageOf(layer) :: Summed(s[i], i, layer + 1, tokens, slots)
  {
  }

  lemma SumStep(s: Sums, s2: Sums, b: Budget, layer: nat, tokens: u64, slots: u64)
    requires layer < LAYERS && Summed(s, StageOf(layer), layer, tokens, slots)
    requires forall r :: Part(b, r) == Sat(Need(layer, r, tokens, slots)) && SumOf(s2, r) == SatAdd(SumOf(s, r), Part(b, r))
    ensures Summed(s2, StageOf(layer), layer + 1, tokens, slots)
  {
    forall r ensures SumOf(s2, r) == Sat(Total(StageOf(layer), layer + 1, r, tokens, slots)) {
      SatAddExact(Total(StageOf(layer), layer, r, tokens, slots), Need(layer, r, tokens, slots));
    }
  }

  /** The start of the next region. */
  method NextStart(off: u64, len: u64, ghost start: nat, ghost size: nat) returns (next: u64)
    requires off == Sat(start) && len == Sat(size)
    ensures next == Sat(Up(start + size))
  {
    next := AlignUp(SatAdd(off, len), ALIGN);
    SatAddExact(start, size);
    AlignUpExact(start + size);
  }

  /** What the arena is laid out from, in exact arithmetic. */
  lemma Layout(s: Sums, stage: int, tokens: u64, slots: u64)
    requires Summed(s, stage, LAYERS, tokens, slots)
    ensures s.raw == Sat(Size(stage, Raw, tokens, slots)) && s.compressed == Sat(Size(stage, Compressed, tokens, slots))
    ensures s.indexer == Sat(Size(stage, Indexer, tokens, slots)) && s.state == Sat(Size(stage, State, tokens, slots))
    ensures Sat(Start(stage, Raw, tokens, slots)) == 0
    ensures Start(stage, Compressed, tokens, slots) == Up(Start(stage, Raw, tokens, slots) + Size(stage, Raw, tokens, slots))
    ensures Start(stage, Indexer, tokens, slots) == Up(Start(stage, Compressed, tokens, slots) + Size(stage, Compressed, tokens, slots))
    ensures Start(stage, State, tokens, slots) == Up(Start(stage, Indexer, tokens, slots) + Size(stage, Indexer, tokens, slots))
    ensures End(stage, tokens, slots) == Up(Start(stage, State, tokens, slots) + Size(stage, State, tokens, slots))
  {
    hide Up, Total;
    assert s.raw == SumOf(s, Raw) && s.compressed == SumOf(s, Compressed);
    assert s.indexer == SumOf(s, Indexer) && s.state == SumOf(s, State);
  }

  method PlaceArena(s: Sums, ghost stage: int, ghost tokens: u64, ghost slots: u64) returns (a: Arena)
    requires Summed(s, stage, LAYERS, tokens, slots)
    ensures ArenaPlanned(a, stage, tokens, slots)
  {
    hide *;
    Layout(s, stage, tokens, slots);
    var off: u64 := 0;
    var raw := Span(off, s.raw);
    off := NextStart(off, raw.len, Start(stage, Raw, tokens, slots), Size(stage, Raw, tokens, slots));
    var compressed := Span(off, s.compressed);
    off := NextStart(off, compressed.len, Start(stage, Compressed, tokens, slots), Size(stage, Compressed, tokens, slots));
    var indexer := Span(off, s.indexer);
    off := NextStart(off, indexer.len, Start(stage, Indexer, tokens, slots), Size(stage, Indexer, tokens, slots));
    var state := Span(off, s.state);
    off := NextStart(off, state.len, Start(stage, State, tokens, slots), Size(stage, State, tokens, slots));
    a := Arena(raw, compressed, indexer, state, off);
    RegionsPlanned(a, stage, tokens, slots);
  }

  lemma RegionsPlanned(a: Arena, stage: int, tokens: u64, slots: u64)
    requires a.raw == Span(Sat(Start(stage, Raw, tokens, slots)), Sat(Size(stage, Raw, tokens, slots)))
    requires a.compressed == Span(Sat(Start(stage, Compressed, tokens, slots)), Sat(Size(stage, Compressed, tokens, slots)))
    requires a.indexer == Span(Sat(Start(stage, Indexer, tokens, slots)), Sat(Size(stage, Indexer, tokens, slots)))
    requires a.state == Span(Sat(Start(stage, State, tokens, slots)), Sat(Size(stage, State, tokens, slots)))
    requires a.total == Sat(End(stage, tokens, slots))
    ensures ArenaPlanned(a, stage, tokens, slots)
  {
  }

  /** One layer's view, and its stage's cursors moved past it. */
  method PlaceView(arena: Arena, b: Budget, layer: nat, cursor: Sums, tokens: u64, slots: u64) returns (view: View, next: Sums)
    requires layer < LAYERS && tokens > 0 && slots > 0 && b == BudgetFor(layer, tokens, slots)
    requires ArenaPlanned(arena, StageOf(layer), tokens, slots)
    requires Summed(cursor, StageOf(layer), layer, tokens, slots)
    ensures ViewPlanned(view, layer, tokens, slots)
    ensures Summed(next, StageOf(layer), layer + 1, tokens, slots)
  {
    ghost var stage := StageOf(layer);
    BudgetExact(layer, tokens, slots);
    var raw := PlacePart(arena, cursor, b, Raw, layer, tokens, slots);
    var compressed := PlacePart(arena, cursor, b, Compressed, layer, tokens, slots);
    var indexer := PlacePart(arena, cursor, b, Indexer, layer, tokens, slots);
    var attnKv, attnScore, indexerKv, indexerScore, at4 := PlaceState(arena, cursor, layer, tokens, slots);
    view := View(raw, compressed, indexer, attnKv, attnScore, indexerKv, indexerScore, b.total);
    next := Sums(SatAdd(cursor.raw, raw.len), SatAdd(cursor.compressed, compressed.len), SatAdd(cursor.indexer, indexer.len), at4);
    NextSums(cursor, next, b, layer, at4, tokens, slots);
  }

  method PlacePart(arena: Arena, cursor: Sums, b: Budget, r: Region, ghost layer: nat, ghost tokens: u64, ghost slots: u64)
    returns (s: Span)
    requires layer < LAYERS && ArenaPlanned(arena, StageOf(layer), tokens, slots)
    requires Summed(cursor, StageOf(layer), layer, tokens, slots)
    requires Part(b, r) == Sat(Need(layer, r, tokens, slots))
    ensures s == Placed(StageOf(layer), r, Total(StageOf(layer), layer, r, tokens, slots), Sat(Need(layer, r, tokens, slots)), tokens, slots)
    ensures s.len == Part(b, r)
  {
    s := Span(SatAdd(RegionOf(arena, r).off, SumOf(cursor, r)), Part(b, r));
    SatAddExact(Start(StageOf(layer), r, tokens, slots), Total(StageOf(layer), layer, r, tokens, slots));
  }

  /** One piece of the state, and the cursor moved past it. */
  method PlacePiece(base: u64, cursor: u64, len: u64, ghost start: nat, ghost before: nat) returns (s: Span, next: u64)
    requires base == Sat(start) && cursor == Sat(before)
    ensures s == Span(Sat(start + before), len) && next == Sat(before + len)
  {
    s := Span(SatAdd(base, cursor), len);
    next := SatAdd(cursor, s.len);
  }

  method PlaceState(arena: Arena, cursor: Sums, layer: nat, ghost tokens: u64, ghost slots: u64)
    returns (attnKv: Span, attnScore: Span, indexerKv: Span, indexerScore: Span, next: u64)
    requires layer < LAYERS && tokens > 0 && slots > 0 && ArenaPlanned(arena, StageOf(layer), tokens, slots)
    requires Summed(cursor, StageOf(layer), layer, tokens, slots)
    ensures var stage, (a, b, c, d) := StageOf(layer), StateSplit(layer);
            var base := Total(stage, layer, State, tokens, slots);
            && attnKv == Placed(stage, State, base, a, tokens, slots)
            && attnScore == Placed(stage, State, base + a, b, tokens, slots)
            && indexerKv == Placed(stage, State, base + a + b, c, tokens, slots)
            && indexerScore == Placed(stage, State, base + a + b + c, d, tokens, slots)
            && next == Sat(base + a + b + c + d)
  {
    hide Start, Total, Need, StateSplit, StageOf, ClassOf, Size, Sat;
    var (attn, score, idx, idxScore) := StateSplit(layer);
    ghost var start, before := Start(StageOf(layer), State, tokens, slots), Total(StageOf(layer), layer, State, tokens, slots);
    assert RegionOf(arena, State).off == Sat(start) && SumOf(cursor, State) == Sat(before);
    attnKv, next := PlacePiece(arena.state.off, cursor.state, attn, start, before);
    attnScore, next := PlacePiece(arena.state.off, next, score, start, before + attn);
    indexerKv, next := PlacePiece(arena.state.off, next, idx, start, before + attn + score);
    indexerScore, next := PlacePiece(arena.state.off, next, idxScore, start, before + attn + score + idx);
  }

  lemma NextSums(s: Sums, s2: Sums, b: Budget, layer: nat, at4: u64, tokens: u64, slots: u64)
    requires layer < LAYERS && Summed(s, StageOf(layer), layer, tokens, slots)
    requires forall r :: Part(b, r) == Sat(Need(layer, r, tokens, slots))
    requires s2 == Sums(SatAdd(s.raw, b.raw), SatAdd(s.compressed, b.compressed), SatAdd(s.indexer, b.indexer), at4)
    requires tokens > 0 && slots > 0 && b == BudgetFor(layer, tokens, slots)
    requires var (p, q, v, w) := StateSplit(layer); at4 == Sat(Total(StageOf(layer), layer, State, tokens, slots) + p + q + v + w)
    ensures Summed(s2, StageOf(layer), layer + 1, tokens, slots)
  {
    StateSplitSums(layer, tokens, slots);
    assert s.state == SumOf(s, State) == Sat(Total(StageOf(layer), layer, State, tokens, slots));
    forall r ensures SumOf(s2, r) == SatAdd(SumOf(s, r), Part(b, r)) {
      match r case Raw => case Compressed => case Indexer => case State =>
    }
    SumStep(s, s2, b, layer, tokens, slots);
  }

  // ------------------------------------------------------------------ what the plan promises

  function PiecesOf(v: View, r: Region): seq<Span> {
    match r
    case Raw => [v.raw]
    case Compressed => [v.compressed]
    case Indexer => [v.indexer]
    case State => [v.attnKv, v.attnScore, v.indexerKv, v.indexerScore]
  }

  /** The pieces of a region, of the layers below `n` on a stage, in layer order. */
  function Pieces(layers: seq<Layer>, stage: int, n: nat, r: Region): seq<Span>
    requires n <= |layers|
  {
    if n == 0 then []
    else Pieces(layers, stage, n - 1, r) + if StageOf(n - 1) == stage then PiecesOf(layers[n - 1].view, r) else []
  }

  /** One after the other, without gap or overlap, from `lo` to `hi`. */
  predicate Tiles(p: seq<Span>, lo: nat, hi: nat) {
    if p == [] then lo == hi else p[0].off == lo && Tiles(p[1..], lo + p[0].len, hi)
  }

  lemma {:induction false} TilesAppend(p: seq<Span>, q: seq<Span>, lo: nat, mid: nat, hi: nat)
    requires Tiles(p, lo, mid) && Tiles(q, mid, hi)
    ensures Tiles(p + q, lo, hi)
  {
    if p == [] {
      assert p + q == q;
    } else {
      TilesAppend(p[1..], q, lo + p[0].len, mid, hi);
      assert (p + q)[1..] == p[1..] + q;
    }
  }

  /** Tiles are in order. */
  lemma {:induction false} TilesOrder(p: seq<Span>, lo: nat, hi: nat)
    requires Tiles(p, lo, hi)
    ensures lo <= hi
    ensures forall i | 0 <= i < |p| :: lo <= p[i].off && p[i].off + p[i].len <= hi
    ensures forall i, j | 0 <= i < j < |p| :: p[i].off + p[i].len <= p[j].off
  {
    if p != [] {
      var rest, mid := p[1..], lo + p[0].len;
      TilesOrder(rest, mid, hi);
      assert forall i | 0 < i < |p| :: p[i] == rest[i - 1];
    }
  }

  /** Every byte between `lo` and `hi` is in a tile. */
  lemma {:induction false} TilesCover(p: seq<Span>, lo: nat, hi: nat, x: nat) returns (i: nat)
    requires Tiles(p, lo, hi) && lo <= x < hi
    ensures i < |p| && p[i].off <= x < p[i].off + p[i].len
  {
    if x < lo + p[0].len {
      i := 0;
    } else {
      i := TilesCover(p[1..], lo + p[0].len, hi, x);
      i := i + 1;
    }
  }

  lemma {:induction false} TotalGrows(stage: int, n: nat, m: nat, r: Region, tokens: nat, slots: nat)
    requires n <= m
    ensures Total(stage, n, r, tokens, slots) <= Total(stage, m, r, tokens, slots)
  {
    if n < m {
      TotalGrows(stage, n, m - 1, r, tokens, slots);
    }
  }

  lemma UpProps(x: nat)
    ensures x <= Up(x) && Up(x) % ALIGN == 0
  {
  }

  /** The regions come one after the other, at multiples of 256. */
  lemma RegionOrder(stage: int, tokens: nat, slots: nat)
    ensures Start(stage, Raw, tokens, slots) + Size(stage, Raw, tokens, slots) <= Start(stage, Compressed, tokens, slots)
    ensures Start(stage, Compressed, tokens, slots) + Size(stage, Compressed, tokens, slots) <= Start(stage, Indexer, tokens, slots)
    ensures Start(stage, Indexer, tokens, slots) + Size(stage, Indexer, tokens, slots) <= Start(stage, State, tokens, slots)
    ensures Used(stage, tokens, slots) <= End(stage, tokens, slots)
    ensures End(stage, tokens, slots) % ALIGN == 0 && forall r :: Start(stage, r, tokens, slots) % ALIGN == 0
  {
    UpProps(Size(stage, Raw, tokens, slots));
    UpProps(Start(stage, Compressed, tokens, slots) + Size(stage, Compressed, tokens, slots));
    UpProps(Start(stage, Indexer, tokens, slots) + Size(stage, Indexer, tokens, slots));
    UpProps(Start(stage, State, tokens, slots) + Size(stage, State, tokens, slots));
    forall r ensures Start(stage, r, tokens, slots) % ALIGN == 0 {
      match r case Raw => case Compressed => case Indexer => case State =>
    }
  }

  lemma RegionInside(stage: int, r: Region, tokens: nat, slots: nat)
    ensures Start(stage, r, tokens, slots) + Size(stage, r, tokens, slots) <= Used(stage, tokens, slots)
  {
    RegionOrder(stage, tokens, slots);
  }

  /** The pieces of one layer, when nothing saturates. */
  lemma LayerTiles(v: View, layer: nat, r: Region, tokens: u64, slots: u64)
    requires layer < LAYERS && tokens > 0 && slots > 0 && ViewPlanned(v, layer, tokens, slots)
    requires Start(StageOf(layer), r, tokens, slots) + Total(StageOf(layer), layer, r, tokens, slots) + Need(layer, r, tokens, slots) <= MAX
    ensures var lo := Start(StageOf(layer), r, tokens, slots) + Total(StageOf(layer), layer, r, tokens, slots);
            Tiles(PiecesOf(v, r), lo, lo + Need(layer, r, tokens, slots))
  {
    hide Need, Start, Total, BudgetFor;
    var lo := Start(StageOf(layer), r, tokens, slots) + Total(StageOf(layer), layer, r, tokens, slots);
    match r
    case Raw => TilesOne(v.raw, lo);
    case Compressed => TilesOne(v.compressed, lo);
    case Indexer => TilesOne(v.indexer, lo);
    case State =>
      StateSplitSums(layer, tokens, slots);
      TilesFour(v.attnKv, v.attnScore, v.indexerKv, v.indexerScore, lo);
  }

  lemma TilesOne(s: Span, lo: nat)
    requires s.off == lo
    ensures Tiles([s], lo, lo + s.len)
  {
  }

  lemma TilesFour(a: Span, b: Span, c: Span, d: Span, lo: nat)
    requires a.off == lo && b.off == lo + a.len && c.off == lo + a.len + b.len && d.off == lo + a.len + b.len + c.len
    ensures Tiles([a, b, c, d], lo, lo + (a.len + b.len + c.len + d.len))
  {
    TilesOne(a, lo);
    TilesOne(b, b.off);
    TilesOne(c, c.off);
    TilesOne(d, d.off);
    TilesAppend([a], [b], lo, b.off, c.off);
    TilesAppend([a] + [b], [c], lo, c.off, d.off);
    TilesAppend([a] + [b] + [c], [d], lo, d.off, d.off + d.len);
    assert [a, b, c, d] == [a] + [b] + [c] + [d];
  }

  lemma {:induction false} RegionTiled(layers: seq<Layer>, stage: int, n: nat, r: Region, tokens: u64, slots: u64)
    requires n <= LAYERS == |layers| && tokens > 0 && slots > 0 && Used(stage, tokens, slots) <= MAX
    requires forall l | 0 <= l < LAYERS :: ViewPlanned(layers[l].view, l, tokens, slots)
    ensures Tiles(Pieces(layers, stage, n, r), Start(stage, r, tokens, slots),
                  Start(stage, r, tokens, slots) + Total(stage, n, r, tokens, slots))
    decreases n, slots
  {
    hide Need, Start, ViewPlanned, BudgetFor;
    if n > 0 {
      hide Tiles, Used;
      var start := Start(stage, r, tokens, slots);
      RegionTiled(layers, stage, n - 1, r, tokens, slots);
      if StageOf(n - 1) == stage {
        TotalGrows(stage, n, LAYERS, r, tokens, slots);
        RegionInside(stage, r, tokens, slots);
        LayerTiles(layers[n - 1].view, n - 1, r, tokens, slots);
        TilesAppend(Pieces(layers, stage, n - 1, r), PiecesOf(layers[n - 1].view, r), start,
                    start + Total(stage, n - 1, r, tokens, slots), start + Total(stage, n, r, tokens, slots));
      } else {
        assert Pieces(layers, stage, n, r) == Pieces(layers, stage, n - 1, r);
      }
    }
  }

  function EndOf(s: Span): nat {
    s.off + s.len
  }

  /** The views of a stage are well laid out: the regions follow each other inside the arena, and the
      layers' pieces tile each of them. */
  ghost predicate LaidOut(layers: seq<Layer>, stage: int, a: Arena)
    requires |layers| == LAYERS
  {
    && a.raw.off == 0 && EndOf(a.raw) <= a.compressed.off && EndOf(a.compressed) <= a.indexer.off
    && EndOf(a.indexer) <= a.state.off && EndOf(a.state) <= a.total
    && forall r :: Tiles(Pieces(layers, stage, LAYERS, r), RegionOf(a, r).off, EndOf(RegionOf(a, r)))
  }

  /** A stage's views tile the four regions of its arena if and only if what the stage needs, in exact
      arithmetic, does not exceed the largest number: otherwise its state lies beyond the arena. */
  lemma PlanLaidOut(c: Context, stage: nat)
    requires c.Valid() && c.tokens > 0 && c.Planned() && stage < STAGES
    ensures LaidOut(c.layers, stage, c.stages[stage].arena) <==> Used(stage, c.tokens, c.slots) <= MAX
  {
    hide Need, Start, Total, Pieces, Tiles, ViewPlanned, BudgetFor, Up, Used;
    var a, tokens, slots := c.stages[stage].arena, c.tokens, c.slots;
    assert ArenaPlanned(a, stage, tokens, slots);
    if Used(stage, tokens, slots) <= MAX {
      forall r ensures RegionOf(a, r).off == Start(stage, r, tokens, slots) && RegionOf(a, r).len == Size(stage, r, tokens, slots) {
        RegionInside(stage, r, tokens, slots);
      }
      ExactRegions(a, stage, tokens, slots);
      forall r ensures Tiles(Pieces(c.layers, stage, LAYERS, r), RegionOf(a, r).off, EndOf(RegionOf(a, r))) {
        RegionTiled(c.layers, stage, LAYERS, r, tokens, slots);
      }
    } else {
      StateOutside(a, stage, tokens, slots);
    }
  }

  /** Region offsets are multiples of 256 in every plan that is laid out; the total is one exactly when
      it can still be rounded up. */
  lemma PlanAligned(c: Context, stage: nat)
    requires c.Valid() && c.tokens > 0 && c.Planned() && stage < STAGES
    ensures Used(stage, c.tokens, c.slots) <= MAX ==> forall r :: RegionOf(c.stages[stage].arena, r).off % ALIGN == 0
    ensures c.stages[stage].arena.total % ALIGN == 0 <==> End(stage, c.tokens, c.slots) <= MAX
    ensures End(stage, c.tokens, c.slots) <= MAX ==> c.stages[stage].planned == End(stage, c.tokens, c.slots)
  {
    hide Need, Start, Total, ViewPlanned, BudgetFor, Up, Used;
    var a, tokens, slots := c.stages[stage].arena, c.tokens, c.slots;
    assert ArenaPlanned(a, stage, tokens, slots);
    RegionOrder(stage, tokens, slots);
    assert MAX % ALIGN == 255;
    if Used(stage, tokens, slots) <= MAX {
      forall r ensures RegionOf(a, r).off % ALIGN == 0 {
        RegionInside(stage, r, tokens, slots);
      }
    }
  }

  /** Every stage has a layer with a state, and all states together are small. */
  lemma StateBounds(stage: nat, tokens: nat, slots: nat)
    requires stage < STAGES
    ensures 0 < Size(stage, State, tokens, slots) <= MAX
  {
    var layer := if stage <= 5 then 6 * stage + 2 else if stage == 6 then 36 else 40;
    if stage == 5 { layer := 30; }
    assert StageOf(layer) == stage && Need(layer, State, tokens, slots) == 81920;
    TotalGrows(stage, layer + 1, LAYERS, State, tokens, slots);
    StateSmall(stage, LAYERS, tokens, slots);
  }

  lemma {:induction false} StateSmall(stage: int, n: nat, tokens: nat, slots: nat)
    ensures Total(stage, n, State, tokens, slots) <= n * 524288
    decreases n
  {
    if n > 0 {
      StateSmall(stage, n - 1, tokens, slots);
    }
  }

  /** When a stage needs too much, its state region reaches beyond the arena. */
  lemma StateOutside(a: Arena, stage: nat, tokens: u64, slots: u64)
    requires stage < STAGES && ArenaPlanned(a, stage, tokens, slots) && Used(stage, tokens, slots) > MAX
    ensures EndOf(a.state) > MAX >= a.total
  {
    StateBounds(stage, tokens, slots);
    hide Need, Start, Total, Up;
    assert a.state == RegionOf(a, State);
  }

  /** Inputs for which that happens: the windows alone need 131072 bytes for every slot. */
  lemma TooManySlots(stage: nat, tokens: u64, slots: u64)
    requires stage < STAGES && slots > MAX / 131072
    ensures Used(stage, tokens, slots) > MAX
  {
    var layer := if stage <= 5 then 6 * stage else if stage == 6 then 36 else 40;
    if stage == 5 { layer := 30; }
    assert StageOf(layer) == stage && Need(layer, Raw, tokens, slots) == 131072 * slots;
    TotalGrows(stage, layer + 1, LAYERS, Raw, tokens, slots);
    hide Need, Start, Total, Up;
    RegionInside(stage, Raw, tokens, slots);
    assert Size(stage, Raw, tokens, slots) >= 131072 * slots > MAX;
  }

  lemma ExactRegions(a: Arena, stage: int, tokens: nat, slots: nat)
    requires forall r :: RegionOf(a, r).off == Start(stage, r, tokens, slots) && RegionOf(a, r).len == Size(stage, r, tokens, slots)
    requires a.total == Sat(End(stage, tokens, slots)) && Used(stage, tokens, slots) <= MAX
    ensures a.raw.off == 0 && EndOf(a.raw) <= a.compressed.off && EndOf(a.compressed) <= a.indexer.off
    ensures EndOf(a.indexer) <= a.state.off && EndOf(a.state) <= a.total
  {
    RegionOrder(stage, tokens, slots);
    assert a.raw == RegionOf(a, Raw) && a.compressed == RegionOf(a, Compressed);
    assert a.indexer == RegionOf(a, Indexer) && a.state == RegionOf(a, State);
  }

  /** All pieces of a stage, region by region. */
  function AllPieces(layers: seq<Layer>, stage: int): seq<Span>
    requires |layers| == LAYERS
  {
    Pieces(layers, stage, LAYERS, Raw) + Pieces(layers, stage, LAYERS, Compressed)
    + Pieces(layers, stage, LAYERS, Indexer) + Pieces(layers, stage, LAYERS, State)
  }

  ghost predicate InOrder(p: seq<Span>, lo: nat, hi: nat) {
    && lo <= hi
    && (forall i | 0 <= i < |p| :: lo <= p[i].off && EndOf(p[i]) <= hi)
    && (forall i, j | 0 <= i < j < |p| :: EndOf(p[i]) <= p[j].off)
  }

  lemma InOrderAppend(p: seq<Span>, q: seq<Span>, lo: nat, mid: nat, mid2: nat, hi: nat)
    requires InOrder(p, lo, mid) && InOrder(q, mid2, hi) && mid <= mid2
    ensures InOrder(p + q, lo, hi)
  {
  }

  /** The views of all layers on a stage are pairwise disjoint and inside the arena. */
  lemma ViewsDisjoint(layers: seq<Layer>, stage: int, a: Arena)
    requires |layers| == LAYERS && LaidOut(layers, stage, a)
    ensures InOrder(AllPieces(layers, stage), 0, a.total)
  {
    hide Tiles, Pieces;
    var raw, comp := Pieces(layers, stage, LAYERS, Raw), Pieces(layers, stage, LAYERS, Compressed);
    var idx, state := Pieces(layers, stage, LAYERS, Indexer), Pieces(layers, stage, LAYERS, State);
    assert RegionOf(a, Raw) == a.raw && RegionOf(a, Compressed) == a.compressed;
    assert RegionOf(a, Indexer) == a.indexer && RegionOf(a, State) == a.state;
    TilesOrder(raw, 0, EndOf(a.raw));
    TilesOrder(comp, a.compressed.off, EndOf(a.compressed));
    TilesOrder(idx, a.indexer.off, EndOf(a.indexer));
    TilesOrder(state, a.state.off, EndOf(a.state));
    InOrderAppend(raw, comp, 0, EndOf(a.raw), a.compressed.off, EndOf(a.compressed));
    InOrderAppend(raw + comp, idx, 0, EndOf(a.compressed), a.indexer.off, EndOf(a.indexer));
    InOrderAppend(raw + comp + idx, state, 0, EndOf(a.indexer), a.state.off, EndOf(a.state));
  }
}
