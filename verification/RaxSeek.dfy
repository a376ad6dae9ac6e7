/** raxSeek, raxNext and raxPrev, and the scans that clients write with them. */
module RaxSeek {
  import opened Keys
  import opened Seqs
  import opened RaxTree
  import opened RaxZipper
  import opened RaxHeap
  import opened RaxCore
  import opened RaxIter
  import RaxInsert
  import RaxRemove

  datatype Op = Gt | Ge | Lt | Le | Eq | First | Last

  /** The operator string; None is the syntax error. */
  function ParseOp(op: string): Option<Op> {
    if op == "" then None
    else if op[0] == '>' then Some(if |op| > 1 && op[1] == '=' then Ge else Gt)
    else if op[0] == '<' then Some(if |op| > 1 && op[1] == '=' then Le else Lt)
    else if op[0] == '=' then Some(Eq)
    else if op[0] == '^' then Some(First)
    else if op[0] == '$' then Some(Last)
    else None
  }

  ghost predicate Matches(op: Op, k: Key, ele: Key) {
    match op
    case Gt => Less(ele, k)
    case Ge => LessEq(ele, k)
    case Lt => Less(k, ele)
    case Le => LessEq(k, ele)
    case Eq => k == ele
    case First => true
    case Last => true
  }

  /** Of all matching keys, the one an operator asks for: the least, or for "<", "<=" and "$" the
      greatest. */
  ghost predicate Preferred(op: Op, k: Key, other: Key) {
    if op in {Lt, Le, Last} then LessEq(other, k) else LessEq(k, other)
  }

  /** What a seek promises: it ends on the preferred one of the matching keys, with its value, and at
      EOF exactly when no key matches. */
  ghost predicate Landed(it: RaxIterator, op: Op, ele: Key)
    reads it, it.rt
  {
    && (it.eof <==> forall k | k in it.rt.Content() :: !Matches(op, k, ele))
    && (!it.eof ==>
          && it.OnKey()
          && it.key in it.rt.Content() && it.rt.Content()[it.key] == it.data
          && Matches(op, it.key, ele)
          && forall k | k in it.rt.Content() && Matches(op, k, ele) :: Preferred(op, it.key, k))
  }

  // ------------------------------------------------------------------ entries around the sought string

  /** The entries of a tree, split into those below, at and above `ele`. */
  ghost predicate Around(es: seq<Entry>, ele: Key, lower: seq<Entry>, same: seq<Entry>, upper: seq<Entry>) {
    && es == lower + same + upper
    && AllLess(lower, ele)
    && (forall i | 0 <= i < |same| :: same[i].key == ele)
    && AllMore(upper, ele)
  }

  /** The entry an operator asks for, in terms of that split. */
  function Pick(op: Op, lower: seq<Entry>, same: seq<Entry>, upper: seq<Entry>): Option<Entry> {
    if op in {Ge, Le, Eq} && same != [] then Some(same[0])
    else if op in {Gt, Ge} && upper != [] then Some(upper[0])
    else if op in {Lt, Le} && lower != [] then Some(lower[|lower| - 1])
    else None
  }

  ghost predicate Outcome(it: RaxIterator, picked: Option<Entry>)
    reads it, it.rt
  {
    match picked
    case None => it.eof
    case Some(e) => !it.eof && it.OnKey() && it.key == e.key
  }

  lemma KeyIsEntry(it: RaxIterator)
    requires it.rt.Valid() && it.OnKey()
    ensures it.key in it.rt.Content() && it.rt.Content()[it.key] == it.data
  {
    PathPlug(it.ctx, it.kid);
    OnKeySplit(it);
    EntriesSorted(it.rt.tree, []);
    var i := |CtxBefore(it.ctx)|;
    assert All(it.rt)[i] == Entry(it.key, it.data);
    MapOfSorted(All(it.rt), i);
  }

  lemma EntryOfKey(es: seq<Entry>, ele: Key, lower: seq<Entry>, same: seq<Entry>, upper: seq<Entry>, k: Key)
    requires Around(es, ele, lower, same, upper) && k in MapOf(es)
    ensures (exists i :: 0 <= i < |lower| && lower[i].key == k)
         || (same != [] && k == ele)
         || (exists i :: 0 <= i < |upper| && upper[i].key == k)
  {
    MapOfKeys(es, k);
    var x :| 0 <= x < |es| && es[x].key == k;
    if x < |lower| {
      assert lower[x].key == k;
    } else if x < |lower| + |same| {
      assert same[x - |lower|].key == k;
    } else {
      assert upper[x - |lower| - |same|].key == k;
    }
  }

  /** Each key of the tree against the string: where it stands decides which operators match it. */
  lemma Place(es: seq<Entry>, ele: Key, lower: seq<Entry>, same: seq<Entry>, upper: seq<Entry>, k: Key)
    requires Around(es, ele, lower, same, upper) && Sorted(es) && k in MapOf(es)
    ensures same == [] ==> k != ele
    ensures Less(k, ele) ==> lower != [] && LessEq(k, lower[|lower| - 1].key)
    ensures Less(ele, k) ==> upper != [] && LessEq(upper[0].key, k)
    ensures k == ele || Less(k, ele) || Less(ele, k)
  {
    LessTotal(k, ele);
    EntryOfKey(es, ele, lower, same, upper, k);
    if exists i :: 0 <= i < |lower| && lower[i].key == k {
      var i :| 0 <= i < |lower| && lower[i].key == k;
      LessAsymmetric(k, ele);
      assert es[i] == lower[i] && es[|lower| - 1] == lower[|lower| - 1];
    } else if same != [] && k == ele {
      LessIrreflexive(ele);
    } else {
      var i :| 0 <= i < |upper| && upper[i].key == k;
      LessAsymmetric(ele, k);
      var b := |lower| + |same|;
      assert es[b + i] == upper[i] && es[b] == upper[0];
    }
  }

  /** The picked entry is a matching key of the tree. */
  lemma PickMatches(op: Op, es: seq<Entry>, ele: Key, lower: seq<Entry>, same: seq<Entry>, upper: seq<Entry>)
    requires Around(es, ele, lower, same, upper) && Pick(op, lower, same, upper).Some?
    ensures Matches(op, Pick(op, lower, same, upper).value.key, ele)
  {
  }

  /** No key of the tree suits the operator better than the picked one. */
  lemma PickIsBest(op: Op, es: seq<Entry>, ele: Key, lower: seq<Entry>, same: seq<Entry>, upper: seq<Entry>, k: Key)
    requires Around(es, ele, lower, same, upper) && Sorted(es) && k in MapOf(es) && op !in {First, Last}
    ensures Pick(op, lower, same, upper).None? ==> !Matches(op, k, ele)
    ensures Pick(op, lower, same, upper).Some? && Matches(op, k, ele) ==>
              Preferred(op, Pick(op, lower, same, upper).value.key, k)
  {
    Place(es, ele, lower, same, upper, k);
    if Less(ele, k) { LessAsymmetric(ele, k); }
    if Less(k, ele) { LessAsymmetric(k, ele); }
    LessIrreflexive(ele);
  }

  /** The outcome of the branches is what the operator means. */
  lemma Lands(it: RaxIterator, op: Op, ele: Key, lower: seq<Entry>, same: seq<Entry>, upper: seq<Entry>)
    requires it.rt.Valid() && Around(All(it.rt), ele, lower, same, upper)
    requires Outcome(it, Pick(op, lower, same, upper)) && op !in {First, Last}
    ensures Landed(it, op, ele)
  {
    var es := All(it.rt);
    EntriesSorted(it.rt.tree, []);
    forall k | k in it.rt.Content()
      ensures it.eof ==> !Matches(op, k, ele)
      ensures !it.eof && Matches(op, k, ele) ==> Preferred(op, it.key, k)
    {
      PickIsBest(op, es, ele, lower, same, upper, k);
    }
    if !it.eof {
      KeyIsEntry(it);
      PickMatches(op, es, ele, lower, same, upper);
    }
  }

  // ------------------------------------------------------------------ where the walk stopped

  /** The walk ended on an inline leaf. */
  lemma AroundLeaf(ctx: Ctx, kid: Kid, ele: Key, i: nat)
    requires CtxOk(ctx) && Fits(ctx, kid) && kid.Leaf? && i <= |ele| && ele[..i] == CtxKey(ctx)
    ensures var e := [Entry(CtxKey(ctx), kid.val)];
            Around(Entries(Plug(ctx, kid), []), ele,
                   CtxBefore(ctx) + (if i < |ele| then e else []), if i < |ele| then [] else e, CtxAfter(ctx))
  {
    PlugEntries(ctx, kid);
    assert CtxKey(ctx) <= ele;
    CtxOrder(ctx, ele);
    if i < |ele| {
      PrefixLess(CtxKey(ctx), ele);
      NothingBetween(CtxBefore(ctx) + [Entry(CtxKey(ctx), kid.val)], CtxAfter(ctx));
    } else {
      assert ele[..i] == ele;
      assert CtxBefore(ctx) + [] == CtxBefore(ctx);
    }
  }

  /** The walk consumed the whole string: on the node itself, or inside its compressed bytes. */
  lemma AroundNode(ctx: Ctx, t: Tree, ele: Key, j: nat)
    requires CtxOk(ctx) && WF(t) && Stopped(t, CtxKey(ctx), ele, |ele|, j)
    ensures var own := Own(t.key, CtxKey(ctx));
            Around(Entries(Plug(ctx, Sub(t)), []), ele,
                   CtxBefore(ctx) + (if j == 0 then [] else own), if j == 0 then own else [],
                   Below(t, CtxKey(ctx)) + CtxAfter(ctx))
  {
    hide Entries, Below, KidEntries, KidsEntries, CtxBefore, CtxAfter, Plug, Own, Less, WF;
    var pre := CtxKey(ctx);
    var before, own, rest := CtxBefore(ctx), Own(t.key, pre), Below(t, pre) + CtxAfter(ctx);
    StopKey(t, pre, ele, j);
    CtxOrder(ctx, ele);
    AboveAll(t, pre, ele, j);
    NodeEntries(ctx, t);
    OwnKey(t.key, pre);
    if j == 0 {
      assert before + [] == before && (before + own) + [] == before + own;
    }
  }

  lemma StopKey(t: Tree, pre: Key, ele: Key, j: nat)
    requires WF(t) && Stopped(t, pre, ele, |ele|, j)
    ensures pre <= ele && (if j == 0 then pre == ele else Less(pre, ele))
  {
    assert ele[..|ele|] == ele;
    assert t.compr ==> pre + t.edges[..0] == pre;
    if j > 0 {
      PrefixLess(pre, ele);
    }
  }

  lemma OwnKey(key: Option<Val>, pre: Key)
    ensures forall i | 0 <= i < |Own(key, pre)| :: Own(key, pre)[i].key == pre
  {
  }

  /** Everything below a node extends a string that ends at or inside the node. */
  lemma AboveAll(t: Tree, pre: Key, ele: Key, j: nat)
    requires WF(t) && Stopped(t, pre, ele, |ele|, j)
    ensures AllMore(Below(t, pre), ele)
  {
    assert ele[..|ele|] == ele;
    EntriesSorted(t, pre);
    if t.compr {
      KidEntriesUnder(t.kids[0], pre + t.edges);
      assert ele <= pre + t.edges && ele != pre + t.edges;
      forall x | 0 <= x < |Below(t, pre)| ensures Less(ele, Below(t, pre)[x].key) {
        PrefixTrans(ele, pre + t.edges, Below(t, pre)[x].key);
        PrefixLess(ele, Below(t, pre)[x].key);
      }
    }
  }

  /** A mismatch at a node that is not compressed: `px` edges are below the byte. */
  lemma AroundMismatch(ctx: Ctx, t: Tree, ele: Key, i: nat, px: nat)
    requires CtxOk(ctx) && WF(t) && !t.compr && i < |ele| && ele[..i] == CtxKey(ctx)
    requires CutBelow(t.edges, px, ele[i]) && Cut(t.edges, px, ele[i])
    ensures Around(Entries(Plug(ctx, Sub(t)), []), ele,
                   CtxBefore(ctx) + Own(t.key, CtxKey(ctx)) + LeftOf(t, px, CtxKey(ctx)), [],
                   RightOf(t, px, CtxKey(ctx)) + CtxAfter(ctx))
  {
    hide Entries, Below, KidEntries, KidsEntries, CtxBefore, CtxAfter, Plug, Own, Less, LeftOf, RightOf;
    var pre := CtxKey(ctx);
    assert pre <= ele;
    CtxOrder(ctx, ele);
    PrefixLess(pre, ele);
    OwnKey(t.key, pre);
    SidesOfByte(t, px, pre, ele);
    MismatchEntries(ctx, t, px);
    AllLessJoin(CtxBefore(ctx), Own(t.key, pre), LeftOf(t, px, pre), ele);
  }

  lemma MismatchEntries(ctx: Ctx, t: Tree, px: nat)
    requires CtxOk(ctx) && NodeOk(t) && !t.compr && px <= |t.kids|
    ensures Entries(Plug(ctx, Sub(t)), [])
         == (CtxBefore(ctx) + Own(t.key, CtxKey(ctx)) + LeftOf(t, px, CtxKey(ctx))) + []
          + (RightOf(t, px, CtxKey(ctx)) + CtxAfter(ctx))
  {
    var pre := CtxKey(ctx);
    PlugEntries(ctx, Sub(t));
    KidsEntriesSplit(t.edges, t.kids, px, pre);
    assert KidEntries(Sub(t), pre) == Entries(t, pre) == Own(t.key, pre) + (LeftOf(t, px, pre) + RightOf(t, px, pre));
    Regroup5(CtxBefore(ctx), Own(t.key, pre), LeftOf(t, px, pre), RightOf(t, px, pre), CtxAfter(ctx));
  }

  lemma AllLessJoin(a: seq<Entry>, b: seq<Entry>, c: seq<Entry>, k: Key)
    requires AllLess(a, k) && AllLess(b, k) && AllLess(c, k)
    ensures AllLess(a + b + c, k)
  {
  }

  lemma SidesOfByte(t: Tree, px: nat, pre: Key, ele: Key)
    requires NodeOk(t) && !t.compr && px <= |t.kids| && pre <= ele && |pre| < |ele|
    requires CutBelow(t.edges, px, ele[|pre|]) && Cut(t.edges, px, ele[|pre|])
    ensures AllLess(LeftOf(t, px, pre), ele) && AllMore(RightOf(t, px, pre), ele)
  {
    var left, right := LeftOf(t, px, pre), RightOf(t, px, pre);
    KidsEntriesUnder(t.edges[..px], t.kids[..px], pre);
    KidsEntriesUnder(t.edges[px..], t.kids[px..], pre);
    assert pre + [ele[|pre|]] <= ele;
    forall x | 0 <= x < |left| ensures Less(left[x].key, ele) {
      var y := left[x].key[|pre|];
      assert y in t.edges[..px] && pre + [y] <= left[x].key;
      DivergeLess(pre, y, left[x].key, ele[|pre|], ele);
    }
    forall x | 0 <= x < |right| ensures Less(ele, right[x].key) {
      var y := right[x].key[|pre|];
      assert y in t.edges[px..] && pre + [y] <= right[x].key;
      DivergeLess(pre, ele[|pre|], ele, y, right[x].key);
    }
  }

  /** The entries below a string that left a compressed node upward (`above`) or downward. */
  function CLower(ctx: Ctx, t: Tree, above: bool): seq<Entry>
    requires CtxOk(ctx)
  {
    CtxBefore(ctx) + if above then Own(t.key, CtxKey(ctx)) else Entries(t, CtxKey(ctx))
  }

  function CUpper(ctx: Ctx, t: Tree, above: bool): seq<Entry>
    requires CtxOk(ctx)
  {
    if above then Below(t, CtxKey(ctx)) + CtxAfter(ctx) else CtxAfter(ctx)
  }

  /** A mismatch inside a compressed node: all of its subtree lies on one side. */
  lemma AroundCompressed(ctx: Ctx, t: Tree, ele: Key, i: nat, j: nat)
    requires CtxOk(ctx) && WF(t) && t.compr && i < |ele| && Stopped(t, CtxKey(ctx), ele, i, j)
    ensures var above := t.edges[j] > ele[i];
            Around(Entries(Plug(ctx, Sub(t)), []), ele, CLower(ctx, t, above), [], CUpper(ctx, t, above))
  {
    hide Entries, Below, KidEntries, KidsEntries, CtxBefore, CtxAfter, Plug, Own, Less;
    var pre := CtxKey(ctx);
    assert pre <= ele[..i] <= ele;
    CtxOrder(ctx, ele);
    PrefixLess(pre, ele);
    OwnKey(t.key, pre);
    CompressedSide(t, pre, ele, i, j);
    NodeEntries(ctx, t);
    AllLessJoin(CtxBefore(ctx), Own(t.key, pre), if t.edges[j] > ele[i] then [] else Below(t, pre), ele);
    assert CtxBefore(ctx) + Own(t.key, pre) + [] == CtxBefore(ctx) + Own(t.key, pre);
  }

  lemma NodeEntries(ctx: Ctx, t: Tree)
    requires CtxOk(ctx)
    ensures var pre := CtxKey(ctx);
            && Entries(Plug(ctx, Sub(t)), []) == (CtxBefore(ctx) + Own(t.key, pre)) + [] + (Below(t, pre) + CtxAfter(ctx))
            && Entries(Plug(ctx, Sub(t)), []) == (CtxBefore(ctx) + Entries(t, pre)) + [] + CtxAfter(ctx)
            && CtxBefore(ctx) + Entries(t, pre) == CtxBefore(ctx) + Own(t.key, pre) + Below(t, pre)
  {
    var pre := CtxKey(ctx);
    PlugEntries(ctx, Sub(t));
    assert KidEntries(Sub(t), pre) == Entries(t, pre);
    Regroup3(CtxBefore(ctx), Own(t.key, pre), Below(t, pre), CtxAfter(ctx));
    Assoc(CtxBefore(ctx), Own(t.key, pre), Below(t, pre));
    NothingBetween(CtxBefore(ctx) + Own(t.key, pre), Below(t, pre) + CtxAfter(ctx));
    NothingBetween(CtxBefore(ctx) + Entries(t, pre), CtxAfter(ctx));
  }

  lemma CompressedSide(t: Tree, pre: Key, ele: Key, i: nat, j: nat)
    requires WF(t) && t.compr && i < |ele| && Stopped(t, pre, ele, i, j)
    ensures if t.edges[j] > ele[i] then AllMore(Below(t, pre), ele) else AllLess(Below(t, pre), ele)
  {
    var p := pre + t.edges[..j];
    KidEntriesUnder(t.kids[0], pre + t.edges);
    assert p + [t.edges[j]] <= pre + t.edges;
    assert p + [ele[i]] <= ele by { assert ele[..i] == p; }
    forall x | 0 <= x < |Below(t, pre)|
      ensures if t.edges[j] > ele[i] then Less(ele, Below(t, pre)[x].key) else Less(Below(t, pre)[x].key, ele)
    {
      var k := Below(t, pre)[x].key;
      PrefixTrans(p + [t.edges[j]], pre + t.edges, k);
      if t.edges[j] > ele[i] {
        DivergeLess(p, ele[i], ele, t.edges[j], k);
      } else {
        DivergeLess(p, t.edges[j], k, ele[i], ele);
      }
    }
  }

  // ------------------------------------------------------------------ the key at the stop node

  function CtxAt(ctx: Ctx, d: nat): Ctx {
    if ctx.Top? || |CtxStack(ctx)| == d then ctx else CtxAt(ctx.up, d)
  }

  /** Entry `d` of the parent stack, with the node itself pushed, is the node at depth `d`. */
  lemma {:induction false} Ancestor(h: Heap, head: Addr, ctx: Ctx, kid: Kid, d: nat) returns (k: Kid)
    requires Holds(h, head, ctx, kid) && Path(ctx, kid) && kid.Sub? && d <= |CtxStack(ctx)|
    ensures var c := CtxAt(ctx, d);
            && Holds(h, head, c, k) && Path(c, k) && k.Sub?
            && |CtxStack(c)| == d
            && (CtxStack(ctx) + [kid.node.addr])[d] == k.node.addr
            && (d > 0 ==> c.In? && c.up == CtxAt(ctx, d - 1) && c.node.addr == CtxStack(ctx)[d - 1])
    decreases ctx
  {
    if |CtxStack(ctx)| == d {
      k := kid;
      if d > 0 {
        assert CtxAt(ctx.up, d - 1) == ctx.up;
      }
    } else {
      UpPath(h, head, ctx, kid);
      k := Ancestor(h, head, ctx.up, Sub(ctx.node), d);
    }
  }

  /** A child's address occurs in one slot of its parent only. */
  lemma UniqueChild(h: Heap, head: Addr, ctx: Ctx, kid: Kid)
    requires Holds(h, head, ctx, kid) && ctx.In? && kid.Sub?
    ensures ctx.node.addr in h
    ensures var slots := h[ctx.node.addr].slots;
            && |slots| == |ctx.node.kids| && slots[ctx.idx] == Ptr(kid.node.addr)
            && forall j | 0 <= j < |slots| && j != ctx.idx :: slots[j] != Ptr(kid.node.addr)
  {
    var node := ctx.node;
    forall j | 0 <= j < |node.kids| && j != ctx.idx ensures h[node.addr].slots[j] != Ptr(kid.node.addr) {
      assert h[node.addr].slots[j] == SlotOf(node.kids[j]);
      if node.kids[j].Sub? {
        var a := node.kids[j].node.addr;
        assert KidBag(node.kids[j]) == Bag(node.kids[j].node) && a in Bag(node.kids[j].node);
        SiblingInCtxBag(ctx, j, a);
        assert a in CtxBag(ctx);
        assert KidBag(kid) == Bag(kid.node);
        OwnsOnce(h, CtxBag(ctx), KidBag(kid), a);
      }
    }
  }

  /** The labels on the way down the stack, one after the other, spell the key of the stop. */
  method RebuildKey(rt: Rax, stack: seq<Addr>, ghost ctx: Ctx, ghost kid: Kid) returns (key: Key)
    requires Holds(rt.heap, rt.head, ctx, kid) && Path(ctx, kid) && kid.Sub?
    requires stack == CtxStack(ctx) + [kid.node.addr]
    ensures CtxOk(ctx) && key == CtxKey(ctx)
  {
    key := [];
    ghost var k0 := Ancestor(rt.heap, rt.head, ctx, kid, 0);
    for j := 1 to |stack|
      invariant CtxOk(CtxAt(ctx, j - 1)) && key == CtxKey(CtxAt(ctx, j - 1))
    {
      ghost var c := CtxAt(ctx, j);
      ghost var k := Ancestor(rt.heap, rt.head, ctx, kid, j);
      PathPlug(c, k);
      UniqueChild(rt.heap, rt.head, c, k);
      var n := rt.heap[stack[j - 1]];
      if n.compr {
        key := key + n.edges;
      } else {
        var i := FindSlot(n.slots, stack[j], c.idx);
        key := key + [n.edges[i]];
      }
    }
    assert CtxAt(ctx, |stack| - 1) == ctx;
  }

  // ------------------------------------------------------------------ raxSeek

  /** A forward step inside raxSeek: the flag is cleared around it so that the step really moves. */
  method Forward(it: RaxIterator, noup: bool, ghost c: Ctx, ghost t: Tree, ghost nx: nat, ghost rest: seq<Entry>)
    requires !it.eof && Before(it, noup, c, t, nx, rest)
    modifies it
    ensures it.justSeeked
    ensures if rest == [] then it.eof else !it.eof && OnFirst(it, rest)
  {
    hide Holds, Path, Plug, CtxOk, WF;
    it.justSeeked := false;
    NextStep(it, noup, c, t, nx, rest);
    it.justSeeked := true;
  }

  method Backward(it: RaxIterator, noup: bool, ghost c: Ctx, ghost t: Tree, ghost px: nat, ghost upto: seq<Entry>)
    requires !it.eof && Behind(it, noup, c, t, px, upto)
    modifies it
    ensures it.justSeeked
    ensures if upto == [] then it.eof else !it.eof && OnLast(it, upto)
  {
    hide Holds, Path, Plug, CtxOk, WF;
    it.justSeeked := false;
    PrevStep(it, noup, c, t, px, upto);
    it.justSeeked := true;
  }

  lemma FirstIsPicked(it: RaxIterator, rest: seq<Entry>)
    requires OnFirst(it, rest)
    ensures it.key == rest[0].key
  {
  }

  lemma LastIsPicked(it: RaxIterator, upto: seq<Entry>)
    requires OnLast(it, upto)
    ensures it.key == upto[|upto| - 1].key
  {
  }

  /** raxSeek after the walk ended on an inline leaf. */
  method SeekFromLeaf(it: RaxIterator, op: Op, ele: Key, i: nat, idx: nat, ghost lower: seq<Entry>, ghost same: seq<Entry>, ghost upper: seq<Entry>)
    requires op in {Gt, Ge, Lt, Le, Eq} && it.justSeeked && !it.eof
    requires Holds(it.rt.heap, it.rt.head, it.ctx, it.kid) && Path(it.ctx, it.kid) && Plug(it.ctx, it.kid) == it.rt.tree
    requires it.kid.Leaf? && it.node == it.ctx.node.addr && idx == it.ctx.idx && it.stack == CtxStack(it.ctx.up)
    requires i <= |ele| && ele[..i] == CtxKey(it.ctx) && it.key == []
    requires var e := [Entry(CtxKey(it.ctx), it.kid.val)];
             && lower == CtxBefore(it.ctx) + (if i < |ele| then e else [])
             && same == (if i < |ele| then [] else e) && upper == CtxAfter(it.ctx)
    modifies it
    ensures it.justSeeked && Outcome(it, Pick(op, lower, same, upper))
  {
    hide Entries, MapOf, Bag, KidBag, KidsBag, CtxBag, Owns, Below, KidEntries, KidsEntries, Own, CtxBefore,
         CtxAfter, Plug, CtxKey, LeftOf, RightOf;
    PathPlug(it.ctx, it.kid);
    assert Rep(it.rt.heap, it.ctx.node) by {
      UpPath(it.rt.heap, it.rt.head, it.ctx, it.kid);
    }
    it.key := ele[..i];
    it.data := it.rt.heap[it.node].slots[idx].val;
    it.nodeChild := idx;
    it.inlineLeaf := true;
    assert it.OnKey();
    if op in {Ge, Le, Eq} && i == |ele| {
      assert ele[..i] == ele;
      return;
    }
    if op == Eq {
      it.eof := true;
      return;
    }
    if op in {Gt, Ge} {
      Forward(it, false, it.ctx, it.ctx.node, 0, upper);
      if !it.eof {
        FirstIsPicked(it, upper);
      }
    } else if i == |ele| {
      assert CtxBefore(it.ctx) + [] == CtxBefore(it.ctx);
      Backward(it, false, it.ctx, it.ctx.node, 0, lower);
      if !it.eof {
        LastIsPicked(it, lower);
      }
    }
  }

  /** raxSeek when the walk stopped on a mismatch in a node that is not compressed. */
  method SeekFromMismatch(it: RaxIterator, op: Op, ele: Key, i: nat, ghost c: Ctx, ghost t: Tree)
    requires op in {Gt, Ge, Lt, Le} && it.justSeeked && !it.eof && it.rt.Valid()
    requires OnNode(it, c, t) && CtxOk(c) && it.key == CtxKey(c) && it.nodeChild == -1
    requires !t.compr && Stopped(t, CtxKey(c), ele, i, 0) && i < |ele|
    modifies it
    ensures it.justSeeked && Landed(it, op, ele)
  {
    hide MapOf, Entries, Bag, KidBag, KidsBag, CtxBag, Owns, Below, KidEntries, KidsEntries, Own, CtxBefore,
         CtxAfter, Plug, CtxKey, LeftOf, RightOf;
    ghost var px := ByteCut(t.edges, ele[i]);
    AroundMismatch(c, t, ele, i, px);
    ghost var lower := CtxBefore(c) + Own(t.key, CtxKey(c)) + LeftOf(t, px, CtxKey(c));
    ghost var upper := RightOf(t, px, CtxKey(c)) + CtxAfter(c);
    it.key := it.key + [ele[i]];
    assert AboveKids(it, c, t);
    if op in {Gt, Ge} {
      Forward(it, true, c, t, px, upper);
      if !it.eof {
        FirstIsPicked(it, upper);
      }
    } else {
      Backward(it, true, c, t, px, lower);
      if !it.eof {
        LastIsPicked(it, lower);
      }
    }
    Lands(it, op, ele, lower, [], upper);
  }

  /** Where a byte that is no edge belongs. */
  lemma ByteCut(edges: seq<byte>, c: byte) returns (px: nat)
    requires Ascending(edges) && c !in edges
    ensures Cut(edges, px, c) && CutBelow(edges, px, c)
  {
    px := 0;
    while px < |edges| && edges[px] < c
      invariant px <= |edges| && forall x | 0 <= x < px :: edges[x] < c
    {
      px := px + 1;
    }
    assert px < |edges| ==> edges[px] in edges;
  }

  /** raxSeek when the walk stopped on a mismatch inside a compressed node, "gt" part. */
  method CompressedForward(it: RaxIterator, nodechar: byte, keychar: byte, ghost c: Ctx, ghost t: Tree, ghost upper: seq<Entry>)
    requires it.justSeeked && !it.eof
    requires OnNode(it, c, t) && CtxOk(c) && it.key == CtxKey(c) && it.nodeChild == -1
    requires it.ctx == c && it.kid == Sub(t) && t.compr
    requires upper == CUpper(c, t, nodechar > keychar)
    modifies it
    ensures it.justSeeked && if upper == [] then it.eof else !it.eof && it.OnKey() && it.key == upper[0].key
  {
    assert Rep(it.rt.heap, t);
    if nodechar > keychar {
      Forward(it, false, c, t, 0, upper);
    } else {
      it.key := it.key + it.rt.heap[it.node].edges;
      assert RightOf(t, 0, CtxKey(c)) + CtxAfter(c) == upper;
      Forward(it, true, c, t, 0, upper);
    }
    if !it.eof {
      FirstIsPicked(it, upper);
    }
  }

  /** The "lt" part. */
  method CompressedBackward(it: RaxIterator, nodechar: byte, keychar: byte, ghost c: Ctx, ghost t: Tree, ghost lower: seq<Entry>)
    requires it.justSeeked && !it.eof
    requires OnNode(it, c, t) && CtxOk(c) && it.key == CtxKey(c) && it.nodeChild == -1
    requires it.ctx == c && it.kid == Sub(t) && t.compr
    requires lower == CLower(c, t, !(nodechar < keychar))
    modifies it
    ensures it.justSeeked && if lower == [] then it.eof else !it.eof && it.OnKey() && it.key == lower[|lower| - 1].key
  {
    assert Rep(it.rt.heap, t);
    if nodechar < keychar {
      assert KidWF(Sub(t));
      LiveEntriesHere(t, CtxKey(c));
      SeekGreatestKey(it, lower);
    } else {
      it.key := it.key + it.rt.heap[it.node].edges;
      assert LeftOf(t, 0, CtxKey(c)) == [] && lower + [] == lower;
      Backward(it, true, c, t, 0, lower);
    }
    if !it.eof {
      LastIsPicked(it, lower);
    }
  }

  lemma LiveEntriesHere(t: Tree, pre: Key)
    requires WF(t) && Live(t)
    ensures Entries(t, pre) != []
  {
    RaxRemove.LiveEntries(Sub(t), pre);
    assert KidEntries(Sub(t), pre) == Entries(t, pre);
  }

  /** raxSeek when the walk stopped on a mismatch inside a compressed node. */
  method SeekFromCompressed(it: RaxIterator, op: Op, ele: Key, i: nat, splitpos: nat, ghost c: Ctx, ghost t: Tree)
    requires op in {Gt, Ge, Lt, Le} && it.justSeeked && !it.eof && it.rt.Valid()
    requires OnNode(it, c, t) && CtxOk(c) && it.key == CtxKey(c) && it.nodeChild == -1
    requires it.ctx == c && it.kid == Sub(t)
    requires t.compr && Stopped(t, CtxKey(c), ele, i, splitpos) && i < |ele|
    modifies it
    ensures it.justSeeked && Landed(it, op, ele)
  {
    hide Entries, KidEntries, MapOf, Bag, KidBag, KidsBag, CtxBag, Owns, Below, KidsEntries, Own, CtxBefore,
         CtxAfter, Plug, CtxKey, LeftOf, RightOf;
    AroundCompressed(c, t, ele, i, splitpos);
    assert Rep(it.rt.heap, t);
    var nodechar, keychar := it.rt.heap[it.node].edges[splitpos], ele[i];
    ghost var lower, upper := CLower(c, t, nodechar > keychar), CUpper(c, t, nodechar > keychar);
    assert nodechar != keychar;
    if op in {Gt, Ge} {
      CompressedForward(it, nodechar, keychar, c, t, upper);
    } else {
      CompressedBackward(it, nodechar, keychar, c, t, lower);
    }
    Lands(it, op, ele, lower, [], upper);
  }

  /** raxSeekGreatest and the load of the value. */
  method SeekGreatestKey(it: RaxIterator, ghost upto: seq<Entry>)
    requires it.At() && !it.inlineLeaf && CtxOk(it.ctx) && upto != []
    requires upto == CtxBefore(it.ctx) + KidEntries(it.kid, it.key)
    modifies it`key, it`data, it`node, it`nodeChild, it`stack, it`inlineLeaf, it`ctx, it`kid
    ensures OnLast(it, upto)
  {
    SeekGreatest(it, upto);
    if it.ctx.In? {
      GreatestIsKey(it, upto);
    } else {
      TopIsKey(it, upto);
    }
    var found := LoadKey(it);
  }

  lemma TopIsKey(it: RaxIterator, upto: seq<Entry>)
    requires it.At() && it.ctx.Top? && !it.inlineLeaf && it.kid.node.kids == [] && upto != []
    requires CtxOk(it.ctx) && upto == CtxBefore(it.ctx) + KidEntries(it.kid, it.key)
    ensures it.kid.node.key.Some? && upto == CtxBefore(it.ctx) + [Entry(it.key, it.kid.node.key.value)]
  {
    assert Entries(it.kid.node, it.key) == Own(it.kid.node.key, it.key) + Below(it.kid.node, it.key);
  }

  /** raxSeek when the walk consumed the whole string and the node itself is not the answer. */
  method SeekFromNode(it: RaxIterator, op: Op, ele: Key, splitpos: nat, ghost c: Ctx, ghost t: Tree)
    requires op in {Gt, Ge, Lt, Le} && it.justSeeked && !it.eof && it.rt.Valid()
    requires OnNode(it, c, t) && CtxOk(c) && it.key == CtxKey(c) && it.nodeChild == -1
    requires it.ctx == c && it.kid == Sub(t)
    requires Stopped(t, CtxKey(c), ele, |ele|, splitpos)
    requires op in {Gt, Lt} || splitpos != 0 || t.key.None?
    modifies it
    ensures it.justSeeked && Landed(it, op, ele)
  {
    hide CtxBefore, CtxAfter, Plug, CtxKey, LeftOf, RightOf, Own, Below, Landed;
    AroundNode(c, t, ele, splitpos);
    ghost var own := Own(t.key, CtxKey(c));
    ghost var lower := CtxBefore(c) + (if splitpos == 0 then [] else own);
    ghost var same := if splitpos == 0 then own else [];
    ghost var upper := Below(t, CtxKey(c)) + CtxAfter(c);
    LeaveNode(it, op, splitpos, c, t, lower, same, upper);
    Lands(it, op, ele, lower, same, upper);
  }

  /** The step from the node to the nearest key on the side that the operator asks for. */
  method LeaveNode(it: RaxIterator, op: Op, splitpos: nat, ghost c: Ctx, ghost t: Tree,
                   ghost lower: seq<Entry>, ghost same: seq<Entry>, ghost upper: seq<Entry>)
    requires op in {Gt, Ge, Lt, Le} && it.justSeeked && !it.eof && it.rt.Valid()
    requires OnNode(it, c, t) && CtxOk(c) && it.key == CtxKey(c) && it.nodeChild == -1
    requires it.ctx == c && it.kid == Sub(t) && (splitpos != 0 ==> t.compr)
    requires op in {Gt, Lt} || splitpos != 0 || t.key.None?
    requires lower == CtxBefore(c) + (if splitpos == 0 then [] else Own(t.key, CtxKey(c)))
    requires same == if splitpos == 0 then Own(t.key, CtxKey(c)) else []
    requires upper == Below(t, CtxKey(c)) + CtxAfter(c)
    modifies it
    ensures it.justSeeked && it.rt.Valid() && Outcome(it, Pick(op, lower, same, upper))
  {
    hide Bag, KidBag, KidsBag, CtxBag, Owns, KidEntries, KidsEntries, MapOf, CtxBefore, CtxAfter, Plug, CtxKey;
    assert Rep(it.rt.heap, t);
    var n := it.rt.heap[it.node];
    assert CtxBefore(c) + [] == CtxBefore(c);
    if n.compr && n.key.Some? && splitpos != 0 && op in {Lt, Le} {
      it.data := n.key.value;
      LastIsPicked(it, lower);
    } else if op in {Gt, Ge} {
      Forward(it, false, c, t, 0, upper);
      if !it.eof {
        FirstIsPicked(it, upper);
      }
    } else {
      Backward(it, false, c, t, 0, lower);
      if !it.eof {
        LastIsPicked(it, lower);
      }
    }
  }

  /** The operator "$": descend along last children from the head to the greatest key. */
  method SeekLast(it: RaxIterator)
    requires it.rt.Valid() && All(it.rt) != []
    requires it.justSeeked && !it.eof && !it.inlineLeaf && it.key == [] && it.nodeChild == -1 && it.stack == []
    modifies it
    ensures it.justSeeked && Landed(it, Last, [])
  {
    it.node := it.rt.head;
    it.ctx, it.kid := Top, Sub(it.rt.tree);
    ghost var es := All(it.rt);
    assert es == [] + KidEntries(it.kid, []);
    SeekGreatestKey(it, es);
    LastLands(it);
  }

  lemma LastLands(it: RaxIterator)
    requires it.rt.Valid() && !it.eof && OnLast(it, All(it.rt))
    ensures Landed(it, Last, [])
  {
    var es := All(it.rt);
    KeyIsEntry(it);
    EntriesSorted(it.rt.tree, []);
    LastIsPicked(it, es);
    forall k | k in it.rt.Content() ensures LessEq(k, it.key) {
      MapOfKeys(es, k);
    }
  }

  /** Seeking below the head for a string with one of the comparing operators. */
  method SeekString(it: RaxIterator, op: Op, ele: Key)
    requires it.rt.Valid() && op in {Gt, Ge, Lt, Le, Eq}
    requires it.justSeeked && !it.eof && !it.inlineLeaf && it.key == [] && it.nodeChild == -1
    modifies it
    ensures Landed(it, op, ele)
    ensures !it.eof ==> it.justSeeked
  {
    var i, h, link, splitpos, stack, inline, ctx, kid := LowWalk(it.rt, ele);
    it.node, it.stack := h, stack;
    it.ctx, it.kid := ctx, kid;
    if inline {
      FinishLeaf(it, op, ele, i, link.idx);
    } else {
      FinishNode(it, op, ele, i, splitpos);
    }
  }

  method FinishLeaf(it: RaxIterator, op: Op, ele: Key, i: nat, idx: nat)
    requires it.rt.Valid() && op in {Gt, Ge, Lt, Le, Eq} && it.justSeeked && !it.eof && it.key == []
    requires Holds(it.rt.heap, it.rt.head, it.ctx, it.kid) && Path(it.ctx, it.kid) && Plug(it.ctx, it.kid) == it.rt.tree
    requires it.kid.Leaf? && it.node == it.ctx.node.addr && idx == it.ctx.idx && it.stack == CtxStack(it.ctx.up)
    requires i <= |ele| && ele[..i] == CtxKey(it.ctx)
    modifies it
    ensures Landed(it, op, ele)
    ensures !it.eof ==> it.justSeeked
  {
    ghost var ctx, kid := it.ctx, it.kid;
    AroundLeaf(ctx, kid, ele, i);
    ghost var e := [Entry(CtxKey(ctx), kid.val)];
    ghost var lower := CtxBefore(ctx) + (if i < |ele| then e else []);
    ghost var same := if i < |ele| then [] else e;
    ghost var upper := CtxAfter(ctx);
    SeekFromLeaf(it, op, ele, i, idx, lower, same, upper);
    Lands(it, op, ele, lower, same, upper);
  }

  method FinishNode(it: RaxIterator, op: Op, ele: Key, i: nat, splitpos: nat)
    requires it.rt.Valid() && op in {Gt, Ge, Lt, Le, Eq}
    requires it.justSeeked && !it.eof && it.key == [] && it.nodeChild == -1
    requires it.kid.Sub? && OnNode(it, it.ctx, it.kid.node) && CtxOk(it.ctx)
    requires Stopped(it.kid.node, CtxKey(it.ctx), ele, i, splitpos)
    modifies it
    ensures Landed(it, op, ele)
    ensures !it.eof ==> it.justSeeked
  {
    hide CtxBag, Bag, Owns, KidBag, KidsBag, Entries, Below, KidEntries, KidsEntries, MapOf, Own, CtxBefore,
         CtxAfter, Plug, CtxKey, LeftOf, RightOf;
    ghost var ctx, t := it.ctx, it.kid.node;
    assert Rep(it.rt.heap, t);
    var n := it.rt.heap[it.node];
    if op in {Ge, Le, Eq} && i == |ele| && (!n.compr || splitpos == 0) && n.key.Some? {
      it.key := ele;
      it.data := n.key.value;
      HitNode(it, op, ele, splitpos);
    } else if op != Eq {
      it.key := RebuildKey(it.rt, it.stack + [it.node], ctx, it.kid);
      if i != |ele| && !n.compr {
        SeekFromMismatch(it, op, ele, i, ctx, t);
      } else if i != |ele| {
        SeekFromCompressed(it, op, ele, i, splitpos, ctx, t);
      } else {
        SeekFromNode(it, op, ele, splitpos, ctx, t);
      }
    } else {
      it.eof := true;
      MissedEq(it, ele, i, splitpos);
    }
  }

  lemma HitNode(it: RaxIterator, op: Op, ele: Key, splitpos: nat)
    requires it.rt.Valid() && op in {Ge, Le, Eq} && !it.eof
    requires CtxOk(it.ctx) && it.kid.Sub? && Stopped(it.kid.node, CtxKey(it.ctx), ele, |ele|, splitpos) && splitpos == 0
    requires Holds(it.rt.heap, it.rt.head, it.ctx, it.kid) && Path(it.ctx, it.kid) && Plug(it.ctx, it.kid) == it.rt.tree
    requires it.node == it.kid.node.addr && it.stack == CtxStack(it.ctx) && it.nodeChild == -1 && !it.inlineLeaf
    requires it.key == ele && it.kid.node.key == Some(it.data)
    ensures Landed(it, op, ele)
  {
    var t := it.kid.node;
    PathPlug(it.ctx, it.kid);
    AroundNode(it.ctx, t, ele, 0);
    assert ele[..|ele|] == ele && (t.compr ==> CtxKey(it.ctx) + t.edges[..0] == CtxKey(it.ctx));
    Lands(it, op, ele, CtxBefore(it.ctx) + [], Own(t.key, CtxKey(it.ctx)), Below(t, CtxKey(it.ctx)) + CtxAfter(it.ctx));
  }

  lemma MissedEq(it: RaxIterator, ele: Key, i: nat, j: nat)
    requires it.rt.Valid() && it.eof && CtxOk(it.ctx) && it.kid.Sub? && WF(it.kid.node)
    requires Plug(it.ctx, it.kid) == it.rt.tree && Stopped(it.kid.node, CtxKey(it.ctx), ele, i, j)
    requires !(i == |ele| && j == 0 && it.kid.node.key.Some?)
    ensures Landed(it, Eq, ele)
  {
    CtxKeyWithin(it.ctx, it.kid, ele, i, j, false);
    LookupAt(it.ctx, it.kid, ele);
    StoppedLookup(it.kid.node, CtxKey(it.ctx), ele, i, j);
    assert KidEntries(it.kid, CtxKey(it.ctx)) == Entries(it.kid.node, CtxKey(it.ctx));
  }

  /** raxSeek. */
  method Seek(it: RaxIterator, op: string, ele: Key) returns (ok: bool)
    requires it.rt.Valid()
    modifies it
    ensures ok <==> op != "" && op[0] in "><=^$"
    ensures ok && op[0] == '>' ==> Landed(it, if |op| > 1 && op[1] == '=' then Ge else Gt, ele)
    ensures ok && op[0] == '<' ==> Landed(it, if |op| > 1 && op[1] == '=' then Le else Lt, ele)
    ensures ok && op[0] == '=' ==> Landed(it, Eq, ele)
    ensures ok && op[0] == '^' ==> Landed(it, First, [])
    ensures ok && op[0] == '$' ==> Landed(it, Last, [])
    ensures ok && !it.eof ==> it.justSeeked
  {
    ok := SeekParsed(it, op, ele);
  }

  /** The work of raxSeek, for the operator that the string stands for. */
  method SeekParsed(it: RaxIterator, op: string, ele: Key) returns (ok: bool)
    requires it.rt.Valid()
    modifies it
    ensures ok <==> ParseOp(op).Some?
    ensures ok ==> Landed(it, ParseOp(op).value, if ParseOp(op).value in {First, Last} then [] else ele)
    ensures ok && !it.eof ==> it.justSeeked
  {
    it.stack := [];
    it.justSeeked, it.eof, it.inlineLeaf := true, false, false;
    it.key := [];
    it.nodeChild := -1;
    var parsed := ParseOp(op);
    if parsed.None? {
      return false;
    }
    ok := true;
    EntriesSorted(it.rt.tree, []);
    MapOfSize(All(it.rt));
    if it.rt.numele == 0 {
      it.eof := true;
      return;
    }
    match parsed.value
    case First =>
      SeekString(it, Ge, []);
      FirstIsGe(it);
    case Last =>
      SeekLast(it);
    case _ =>
      SeekString(it, parsed.value, ele);
  }

  /** No key is below the empty string, so the least key of all is the one that ">=" asks for. */
  lemma FirstIsGe(it: RaxIterator)
    requires Landed(it, Ge, [])
    ensures Landed(it, First, [])
  {
    forall k: Key ensures LessEq([], k) {}
  }
}
