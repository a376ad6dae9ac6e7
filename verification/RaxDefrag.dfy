/**
 The defragmentation iterator of rax.c: a preorder walk over the allocations of a tree and over
 its values, during which the caller may move the current node and the current value.
 */
module RaxDefrag {
  import opened Keys
  import opened Seqs
  import opened RaxTree
  import opened RaxZipper
  import opened RaxHeap
  import opened RaxCore
  import RaxEncode
  import RaxInsert
  import RaxIter
  import RaxPacked
  import RaxPackedRemove

  // ------------------------------------------------------------------ what the walk visits

  datatype Item = NodeAt(addr: Addr, key: Key) | DataAt(key: Key, val: Val)

  /** A value is visited unless it is NULL. */
  function Data(key: Option<Val>, pre: Key): seq<Item> {
    match key
    case None => []
    case Some(v) => if v == NULL then [] else [DataAt(pre, v)]
  }

  /** The preorder walk of a subtree. */
  function Walk(t: Tree, pre: Key): seq<Item>
    decreases t, 2
  {
    [NodeAt(t.addr, pre)] + (Data(t.key, pre) + WalkBelow(t, pre))
  }

  function WalkBelow(t: Tree, pre: Key): seq<Item>
    decreases t, 1
  {
    if t.kids == [] then []
    else if t.compr then WalkKid(t.kids[0], pre + t.edges)
    else WalkKids(t.edges, t.kids, pre)
  }

  function WalkKid(k: Kid, pre: Key): seq<Item>
    decreases k, 3
  {
    match k
    case Leaf(v) => Data(Some(v), pre)
    case Sub(s) => Walk(s, pre)
  }

  function WalkKids(edges: seq<byte>, kids: seq<Kid>, pre: Key): seq<Item>
    decreases kids, 0
  {
    if kids == [] || edges == [] then []
    else WalkKid(kids[0], pre + [edges[0]]) + WalkKids(edges[1..], kids[1..], pre)
  }

  function Nodes(items: seq<Item>): multiset<Addr> {
    if items == [] then multiset{}
    else (if items[0].NodeAt? then multiset{items[0].addr} else multiset{}) + Nodes(items[1..])
  }

  function Values(items: seq<Item>): seq<Entry> {
    if items == [] then []
    else (if items[0].DataAt? then [Entry(items[0].key, items[0].val)] else []) + Values(items[1..])
  }

  /** The entries whose value is not NULL. */
  function Stored(es: seq<Entry>): seq<Entry> {
    if es == [] then []
    else (if es[0].val != NULL then [es[0]] else []) + Stored(es[1..])
  }

  lemma ItemsAppend(a: seq<Item>, b: seq<Item>)
    ensures Nodes(a + b) == Nodes(a) + Nodes(b)
    ensures Values(a + b) == Values(a) + Values(b)
  {
    NodesAppend(a, b);
    ValuesAppend(a, b);
  }

  lemma {:induction false} NodesAppend(a: seq<Item>, b: seq<Item>)
    ensures Nodes(a + b) == Nodes(a) + Nodes(b)
  {
    if a == [] {
      assert a + b == b;
    } else {
      assert (a + b)[1..] == a[1..] + b;
      NodesAppend(a[1..], b);
    }
  }

  lemma {:induction false} ValuesAppend(a: seq<Item>, b: seq<Item>)
    ensures Values(a + b) == Values(a) + Values(b)
  {
    if a == [] {
      assert a + b == b;
    } else {
      assert (a + b)[1..] == a[1..] + b && (a + b)[0] == a[0];
      ValuesAppend(a[1..], b);
      Assoc(if a[0].DataAt? then [Entry(a[0].key, a[0].val)] else [], Values(a[1..]), Values(b));
    }
  }

  lemma {:induction false} StoredAppend(a: seq<Entry>, b: seq<Entry>)
    ensures Stored(a + b) == Stored(a) + Stored(b)
  {
    if a == [] {
      assert a + b == b;
    } else {
      assert (a + b)[1..] == a[1..] + b;
      StoredAppend(a[1..], b);
    }
  }

  lemma DataParts(key: Option<Val>, pre: Key)
    ensures Nodes(Data(key, pre)) == multiset{} && Values(Data(key, pre)) == Stored(Own(key, pre))
  {
  }

  /** The values come in key order, each with its full key. */
  lemma {:induction false} WalkValues(t: Tree, pre: Key)
    ensures Values(Walk(t, pre)) == Stored(Entries(t, pre))
    decreases t, 2
  {
    DataParts(t.key, pre);
    ItemsAppend([NodeAt(t.addr, pre)], Data(t.key, pre) + WalkBelow(t, pre));
    ItemsAppend(Data(t.key, pre), WalkBelow(t, pre));
    StoredAppend(Own(t.key, pre), Below(t, pre));
    if t.kids != [] {
      if t.compr {
        WalkKidValues(t.kids[0], pre + t.edges);
      } else {
        WalkKidsValues(t.edges, t.kids, pre);
      }
    }
  }

  lemma {:induction false} WalkKidValues(k: Kid, pre: Key)
    ensures Values(WalkKid(k, pre)) == Stored(KidEntries(k, pre))
    decreases k, 3
  {
    match k
    case Leaf(v) => DataParts(Some(v), pre);
    case Sub(s) => WalkValues(s, pre);
  }

  lemma {:induction false} WalkKidsValues(edges: seq<byte>, kids: seq<Kid>, pre: Key)
    ensures Values(WalkKids(edges, kids, pre)) == Stored(KidsEntries(edges, kids, pre))
    decreases kids, 0
  {
    if kids != [] && edges != [] {
      WalkKidValues(kids[0], pre + [edges[0]]);
      WalkKidsValues(edges[1..], kids[1..], pre);
      ItemsAppend(WalkKid(kids[0], pre + [edges[0]]), WalkKids(edges[1..], kids[1..], pre));
      StoredAppend(KidEntries(kids[0], pre + [edges[0]]), KidsEntries(edges[1..], kids[1..], pre));
    }
  }

  /** In key order, and a node before its own value. */
  ghost predicate InOrder(items: seq<Item>) {
    forall i, j | 0 <= i < j < |items| ::
      Less(items[i].key, items[j].key) || (items[i].key == items[j].key && items[i].NodeAt? && items[j].DataAt?)
  }

  ghost predicate ItemsUnder(items: seq<Item>, pre: Key) {
    forall i | 0 <= i < |items| :: pre <= items[i].key
  }

  /** The walk is a preorder: everything comes in key order, so each node before all that lies below
      it, and its value right behind it. */
  lemma {:induction false} WalkInOrder(t: Tree, pre: Key)
    requires WF(t)
    ensures InOrder(Walk(t, pre)) && ItemsUnder(Walk(t, pre), pre)
    decreases t, 2
  {
    var below := WalkBelow(t, pre);
    if t.kids != [] {
      assert KidWF(t.kids[0]);
      if t.compr {
        WalkKidInOrder(t.kids[0], pre + t.edges);
        forall i | 0 <= i < |below| ensures pre <= below[i].key && Less(pre, below[i].key) {
          PrefixTrans(pre, pre + t.edges, below[i].key);
          PrefixLess(pre, below[i].key);
        }
      } else {
        WalkKidsInOrder(t.edges, t.kids, pre);
        forall i | 0 <= i < |below| ensures Less(pre, below[i].key) {
          PrefixLess(pre, below[i].key);
        }
      }
    }
  }

  lemma {:induction false} WalkKidInOrder(k: Kid, pre: Key)
    requires KidWF(k)
    ensures InOrder(WalkKid(k, pre)) && ItemsUnder(WalkKid(k, pre), pre)
    decreases k, 3
  {
    match k
    case Leaf(v) =>
    case Sub(s) => WalkInOrder(s, pre);
  }

  lemma {:induction false} WalkKidsInOrder(edges: seq<byte>, kids: seq<Kid>, pre: Key)
    requires |edges| == |kids| && Ascending(edges) && KidsWF(kids)
    ensures var items := WalkKids(edges, kids, pre);
            && InOrder(items)
            && forall i | 0 <= i < |items| :: pre <= items[i].key && |pre| < |items[i].key| && items[i].key[|pre|] in edges
    decreases kids, 0
  {
    if kids != [] {
      assert KidWF(kids[0]);
      WalkKidInOrder(kids[0], pre + [edges[0]]);
      assert KidsWF(kids[1..]) by {
        forall i | 0 <= i < |kids[1..]| ensures KidWF(kids[1..][i]) { assert KidWF(kids[i + 1]); }
      }
      WalkKidsInOrder(edges[1..], kids[1..], pre);
      var a, b := WalkKid(kids[0], pre + [edges[0]]), WalkKids(edges[1..], kids[1..], pre);
      forall i | 0 <= i < |a| ensures pre <= a[i].key && |pre| < |a[i].key| && a[i].key[|pre|] == edges[0] {
        assert a[i].key[|pre|] == (pre + [edges[0]])[|pre|];
      }
      forall i, j | 0 <= i < |a| && 0 <= j < |b| ensures Less(a[i].key, b[j].key) {
        var y := b[j].key[|pre|];
        assert y in edges[1..];
        assert pre + [y] <= b[j].key;
        DivergeLess(pre, edges[0], a[i].key, y, b[j].key);
      }
      InOrderAppend(a, b);
    }
  }

  lemma InOrderAppend(a: seq<Item>, b: seq<Item>)
    requires InOrder(a) && InOrder(b)
    requires forall i, j | 0 <= i < |a| && 0 <= j < |b| :: Less(a[i].key, b[j].key)
    ensures InOrder(a + b)
  {
  }

  /** Every allocation of the tree is visited once. */
  lemma {:induction false} WalkNodes(t: Tree, pre: Key)
    requires WF(t)
    ensures Nodes(Walk(t, pre)) == Bag(t)
    decreases t, 2
  {
    DataParts(t.key, pre);
    ItemsAppend([NodeAt(t.addr, pre)], Data(t.key, pre) + WalkBelow(t, pre));
    ItemsAppend(Data(t.key, pre), WalkBelow(t, pre));
    if t.kids != [] {
      if t.compr {
        WalkKidNodes(t.kids[0], pre + t.edges);
        assert KidsBag(t.kids) == KidBag(t.kids[0]) + KidsBag(t.kids[1..]);
      } else {
        WalkKidsNodes(t.edges, t.kids, pre);
      }
    }
  }

  lemma {:induction false} WalkKidNodes(k: Kid, pre: Key)
    requires KidWF(k)
    ensures Nodes(WalkKid(k, pre)) == KidBag(k)
    decreases k, 3
  {
    match k
    case Leaf(v) => DataParts(Some(v), pre);
    case Sub(s) => WalkNodes(s, pre);
  }

  lemma {:induction false} WalkKidsNodes(edges: seq<byte>, kids: seq<Kid>, pre: Key)
    requires KidsWF(kids) && |edges| == |kids|
    ensures Nodes(WalkKids(edges, kids, pre)) == KidsBag(kids)
    decreases kids, 0
  {
    if kids != [] {
      assert KidWF(kids[0]);
      assert forall i | 0 <= i < |kids[1..]| :: kids[1..][i] == kids[i + 1];
      WalkKidNodes(kids[0], pre + [edges[0]]);
      WalkKidsNodes(edges[1..], kids[1..], pre);
      ItemsAppend(WalkKid(kids[0], pre + [edges[0]]), WalkKids(edges[1..], kids[1..], pre));
    }
  }

  // ------------------------------------------------------------------ the part still to be visited

  /** The walk of the children of `t` from `i` on. */
  function WalkFrom(t: Tree, i: nat, pre: Key): seq<Item>
    requires NodeOk(t) && i <= |t.kids|
  {
    if t.compr then (if i == 0 then WalkKid(t.kids[0], pre + t.edges) else [])
    else WalkKids(t.edges[i..], t.kids[i..], pre)
  }

  lemma WalkFromStep(t: Tree, i: nat, pre: Key)
    requires NodeOk(t) && i < |t.kids|
    ensures WalkFrom(t, i, pre) == WalkKid(t.kids[i], pre + Label(t, i)) + WalkFrom(t, i + 1, pre)
    ensures RaxIter.KidsWeight(t.kids[i..]) == RaxIter.KidWeight(t.kids[i]) + RaxIter.KidsWeight(t.kids[i + 1..])
  {
    assert t.kids[i..][1..] == t.kids[i + 1..];
    if !t.compr {
      assert t.edges[i..][1..] == t.edges[i + 1..];
    }
  }

  lemma WalkFromStart(t: Tree, pre: Key)
    requires NodeOk(t)
    ensures WalkFrom(t, 0, pre) == WalkBelow(t, pre)
  {
    assert t.edges[0..] == t.edges && t.kids[0..] == t.kids;
  }

  lemma WalkFromPut(t: Tree, i: nat, kid: Kid, pre: Key)
    requires NodeOk(t) && i < |t.kids| && NodeOk(Put(t, i, kid))
    ensures WalkFrom(Put(t, i, kid), i + 1, pre) == WalkFrom(t, i + 1, pre)
    ensures Put(t, i, kid).kids[i + 1..] == t.kids[i + 1..]
  {
    assert Put(t, i, kid).kids[i + 1..] == t.kids[i + 1..];
  }

  function WalkAfter(ctx: Ctx): seq<Item>
    requires CtxOk(ctx)
  {
    match ctx
    case Top => []
    case In(up, node, idx) => WalkFrom(node, idx + 1, CtxKey(up)) + WalkAfter(up)
  }

  // ------------------------------------------------------------------ one step of the walk

  datatype State = EmitNode | EmitData | Children

  datatype Frame = Frame(node: Addr, child: nat, parentChild: int, state: State)

  datatype Kind = NoKind | NodeKind | DataKind

  datatype Flags = Flags(root: bool, key: bool, compressed: bool, inlineData: bool)

  datatype Result = Replaced(prev: nat) | NoEntry | Invalid

  function ParentChild(ctx: Ctx): int {
    match ctx
    case Top => -1
    case In(_, _, idx) => idx
  }

  /** The frames of the parents, each past the child that was entered. */
  function FramesOf(ctx: Ctx): seq<Frame> {
    match ctx
    case Top => []
    case In(up, node, idx) => FramesOf(up) + [Frame(node.addr, idx + 1, ParentChild(up), Children)]
  }

  /** Where the walk stands: `t` at position `ctx` has been handled up to `state` and `child`. */
  datatype Spot = Spot(ctx: Ctx, t: Tree, state: State, child: nat) | End

  ghost predicate SpotOk(s: Spot) {
    s.Spot? ==> CtxOk(s.ctx) && WF(s.t) && s.child <= |s.t.kids| && (s.state != Children ==> s.child == 0)
  }

  /** What has not been returned yet. */
  function Rest(s: Spot): seq<Item>
    requires SpotOk(s)
  {
    match s
    case End => []
    case Spot(ctx, t, state, child) =>
      var pre := CtxKey(ctx);
      (match state
       case EmitNode => Walk(t, pre)
       case EmitData => Data(t.key, pre) + WalkFrom(t, child, pre)
       case Children => WalkFrom(t, child, pre))
      + WalkAfter(ctx)
  }

  /** The item that one step of the walk returns, if any. */
  function Emits(s: Spot): seq<Item>
    requires SpotOk(s)
  {
    match s
    case End => []
    case Spot(ctx, t, EmitNode, _) => [NodeAt(t.addr, CtxKey(ctx))]
    case Spot(ctx, t, EmitData, _) => Data(t.key, CtxKey(ctx))
    case Spot(ctx, t, Children, child) =>
      if child < |t.kids| && t.kids[child].Leaf? then Data(Some(t.kids[child].val), CtxKey(ctx) + Label(t, child)) else []
  }

  function Advance(s: Spot): Spot
    requires SpotOk(s)
  {
    match s
    case End => End
    case Spot(ctx, t, EmitNode, _) => s.(state := EmitData)
    case Spot(ctx, t, EmitData, _) => s.(state := Children)
    case Spot(ctx, t, Children, child) =>
      if child < |t.kids| then
        (match t.kids[child] case Leaf(_) => s.(child := child + 1) case Sub(n) => Spot(In(ctx, t, child), n, EmitNode, 0))
      else if ctx.In? then Spot(ctx.up, Put(ctx.node, ctx.idx, Sub(t)), Children, ctx.idx + 1)
      else End
  }

  /** How much the walk can still do. */
  function Load(s: Spot): nat
    requires SpotOk(s)
  {
    match s
    case End => 0
    case Spot(ctx, t, state, child) =>
      1 + RaxIter.UpWeight(ctx) + RaxIter.KidsWeight(t.kids[child..])
      + match state case EmitNode => 2 case EmitData => 1 case Children => 0
  }

  lemma AdvanceNode(s: Spot)
    requires SpotOk(s) && s.Spot? && s.state != Children
    ensures Rest(s) == Emits(s) + Rest(Advance(s)) && Load(Advance(s)) < Load(s)
  {
    hide CtxOk, CtxKey, WalkAfter, WalkKid, WalkKids, RaxIter.UpWeight, RaxIter.KidsWeight;
    var Spot(ctx, t, _, _) := s;
    var pre := CtxKey(ctx);
    if s.state == EmitNode {
      WalkFromStart(t, pre);
      Assoc([NodeAt(t.addr, pre)], Data(t.key, pre) + WalkBelow(t, pre), WalkAfter(ctx));
    } else {
      Assoc(Data(t.key, pre), WalkFrom(t, 0, pre), WalkAfter(ctx));
    }
  }

  lemma AdvanceUp(s: Spot)
    requires SpotOk(s) && SpotOk(Advance(s)) && s.Spot? && s.state == Children && s.child == |s.t.kids|
    ensures Rest(s) == Emits(s) + Rest(Advance(s)) && Load(Advance(s)) < Load(s)
  {
    var ctx := s.ctx;
    WalkFromEnd(s.t, CtxKey(ctx));
    if ctx.In? {
      WalkFromPut(ctx.node, ctx.idx, Sub(s.t), CtxKey(ctx.up));
    }
  }

  /** One step moves the item it returns from the rest to the caller, and the walk ends. */
  lemma AdvanceRest(s: Spot)
    requires SpotOk(s) && SpotOk(Advance(s)) && s.Spot?
    ensures Rest(s) == Emits(s) + Rest(Advance(s))
    ensures Load(Advance(s)) < Load(s)
  {
    hide Rest, Emits, Load;
    if s.state != Children {
      AdvanceNode(s);
    } else if s.child < |s.t.kids| {
      AdvanceChild(s);
    } else {
      AdvanceUp(s);
    }
  }

  lemma AdvanceChild(s: Spot)
    requires SpotOk(s) && SpotOk(Advance(s)) && s.Spot? && s.state == Children && s.child < |s.t.kids|
    ensures Rest(s) == Emits(s) + Rest(Advance(s))
    ensures Load(Advance(s)) < Load(s)
  {
    hide WalkBelow, WalkKids, Data, Walk;
    var Spot(ctx, t, _, child) := s;
    WalkFromStep(t, child, CtxKey(ctx));
    Assoc(WalkKid(t.kids[child], CtxKey(ctx) + Label(t, child)), WalkFrom(t, child + 1, CtxKey(ctx)), WalkAfter(ctx));
    if t.kids[child].Sub? {
      assert t.kids[child].node.kids[0..] == t.kids[child].node.kids;
    }
  }

  lemma WalkFromEnd(t: Tree, pre: Key)
    requires NodeOk(t)
    ensures WalkFrom(t, |t.kids|, pre) == []
    ensures t.kids[|t.kids|..] == []
  {
  }

  // ------------------------------------------------------------------ the position in the heap

  /** The heap stores the tree, and `t` is its node at `ctx`. */
  ghost predicate InTree(h: Heap, head: Addr, tree: Tree, ctx: Ctx, t: Tree) {
    && Holds(h, head, ctx, Sub(t))
    && WF(t) && (ctx.In? ==> Live(t))
    && tree == Plug(ctx, Sub(t))
  }

  lemma PopInTree(h: Heap, head: Addr, tree: Tree, ctx: Ctx, t: Tree)
    requires InTree(h, head, tree, ctx, t) && ctx.In?
    ensures InTree(h, head, tree, ctx.up, Put(ctx.node, ctx.idx, Sub(t)))
  {
    var p := Put(ctx.node, ctx.idx, Sub(t));
    Up(h, head, ctx, Sub(t));
    PutEntries(ctx.node, ctx.idx, Sub(t), []);
    forall j | 0 <= j < |p.kids| ensures KidWF(p.kids[j]) {}
  }

  lemma RootInTree(h: Heap, head: Addr, tree: Tree, ctx: Ctx, t: Tree)
    requires InTree(h, head, tree, ctx, t)
    ensures InTree(h, head, tree, Top, tree)
  {
    ToTop(h, head, ctx, Sub(t));
    PlugWF(ctx, Sub(t));
  }

  lemma PushInTree(h: Heap, head: Addr, tree: Tree, ctx: Ctx, t: Tree, i: nat)
    requires InTree(h, head, tree, ctx, t) && i < |t.kids| && t.kids[i].Sub?
    ensures InTree(h, head, tree, In(ctx, t, i), t.kids[i].node)
  {
    KidsOf(t);
    Down(h, head, ctx, t, i);
    assert KidWF(t.kids[i]);
  }

  lemma KidsOf(t: Tree)
    requires WF(t)
    ensures forall j | 0 <= j < |t.kids| :: KidWF(t.kids[j])
  {
  }

  /** The bytes that the allocation of a node holds. */
  function NodeSize(t: Tree): nat {
    RaxPacked.Length(t.compr, |t.edges|, t.key.Some? && t.key.value != NULL)
  }

  /** However a node is stored as bytes, with its null flag set for a NULL value: the size that the walk
      reports is the length of the node, and that many bytes decode to all of it. */
  lemma NodeSizeExact(t: Tree, iskey: bool, isnull: bool, compr: bool, bits: RaxPacked.Bitmap, size: nat, m: seq<byte>)
    requires RaxPacked.Length(compr, size, iskey && !isnull) <= |m|
    requires RaxPacked.DecodeOf(iskey, isnull, compr, bits, size, m) == NodeOf(t)
    requires t.key.Some? ==> (isnull <==> t.key.value == NULL)
    ensures NodeSize(t) == RaxPacked.Length(compr, size, iskey && !isnull)
    ensures RaxPacked.DecodeOf(iskey, isnull, compr, bits, size, m[..NodeSize(t)]) == NodeOf(t)
  {
    RaxPackedRemove.DecodeFirst(iskey, isnull, compr, bits, size, m);
  }

  /** The size in numbers: a header of four bytes, the edges, padding up to `p`, a word for each child and
      one for a value that is not NULL. Stored that way, the node takes exactly these bytes. */
  lemma NodeSizeStored(t: Tree, p: nat)
    requires NodeOk(t) && p % 8 == 0 && 4 + |t.edges| <= p < 12 + |t.edges|
    ensures NodeSize(t) == p + 8 * |t.kids| + (if t.key.Some? && t.key.value != 0 then 8 else 0)
    ensures RaxEncode.Storable(NodeOf(t)) ==> |RaxEncode.Encode(NodeOf(t))| == NodeSize(t)
  {
    hide RaxEncode.Storable, RaxEncode.Encode;
    RaxPacked.PaddingLeast(|t.edges|);
    if RaxEncode.Storable(NodeOf(t)) {
      StoredSize(t);
    }
  }

  lemma StoredSize(t: Tree)
    requires RaxEncode.Storable(NodeOf(t))
    ensures |RaxEncode.Encode(NodeOf(t))| == NodeSize(t)
  {
    hide RaxPacked.Length, RaxEncode.Storable, RaxEncode.Encode, RaxPacked.DecodeOf;
    RaxEncode.EncodeDecode(NodeOf(t));
  }

  /** The heap stores the tree and the stack spells out the spot. */
  ghost predicate At(h: Heap, head: Addr, tree: Tree, stack: seq<Frame>, s: Spot) {
    && SpotOk(s)
    && match s
       case End => InTree(h, head, tree, Top, tree)
       case Spot(ctx, t, state, child) =>
         && InTree(h, head, tree, ctx, t)
         && stack == FramesOf(ctx) + [Frame(t.addr, child, ParentChild(ctx), state)]
  }

  // ------------------------------------------------------------------ the iterator

  class DefragIterator {
    const rt: Rax
    var kind: Kind
    var flags: Flags
    var key: Key
    var size: nat
    var ptr: nat
    var node: Addr
    var nodeChild: int
    var stack: seq<Frame>
    var pendingToDel: nat
    var eof: bool
    ghost var spot: Spot

    /** `h`, the heap of the tree or that heap without an allocation the caller holds, stores the
        tree, and the stack describes a position in it. */
    ghost predicate Walks(h: Heap)
      reads this, rt
    {
      && rt.numele == |rt.Content()|
      && rt.numnodes == |h|
      && eof == spot.End?
      && At(h, rt.head, rt.tree, stack, spot)
    }

    /** The items that have not been returned yet. */
    ghost function Remaining(): seq<Item>
      reads this
      requires SpotOk(spot)
    {
      Rest(spot)
    }

    /** The public fields describe an item that was returned on the way to `s`. */
    ghost predicate OnItemAt(s: Spot)
      reads this
    {
      && SpotOk(s) && s.Spot? && node == s.t.addr
      && match kind
         case NoKind => false
         case NodeKind =>
           && s.state == EmitData && ptr == node && size == NodeSize(s.t)
           && nodeChild == (if s.ctx.In? then s.ctx.idx else -1)
           && flags == Flags(s.ctx.Top?, s.t.key.Some?, s.t.compr, false)
           && key == CtxKey(s.ctx) && pendingToDel == 0
         case DataKind =>
           && s.state == Children && size == 0
           && if flags.inlineData
              then
                && 0 <= nodeChild < |s.t.kids| && s.child == nodeChild + 1 && s.t.kids[nodeChild] == Leaf(ptr)
                && flags == Flags(false, true, s.t.compr, true)
                && key == CtxKey(s.ctx) + Label(s.t, nodeChild) && pendingToDel == |Label(s.t, nodeChild)|
              else
                && s.child == 0 && s.t.key == Some(ptr) && nodeChild == (if s.ctx.In? then s.ctx.idx else -1)
                && flags == Flags(s.ctx.Top?, true, s.t.compr, false)
                && key == CtxKey(s.ctx) && pendingToDel == 0
    }

    ghost predicate OnItem()
      reads this
    {
      OnItemAt(spot)
    }

    /** The key is that of the innermost node. */
    ghost predicate Settled()
      reads this
    {
      SpotOk(spot) && spot.Spot? && key == CtxKey(spot.ctx) && pendingToDel == 0
    }

    ghost predicate Ready()
      reads this
    {
      spot.End? || (kind == NoKind && Settled()) || OnItem()
    }

    ghost function Current(): Item
      reads this
    {
      if kind == NodeKind then NodeAt(ptr, key) else DataAt(key, ptr)
    }

    /** raxDefragStart. */
    constructor (rt: Rax)
      requires rt.Valid()
      ensures this.rt == rt && Walks(rt.heap) && Ready() && !eof
      ensures Remaining() == Walk(rt.tree, [])
    {
      this.rt := rt;
      kind, flags, key, size, ptr, node, nodeChild := NoKind, Flags(false, false, false, false), [], 0, NULL, 0, -1;
      pendingToDel, eof := 0, false;
      stack := [Frame(rt.head, 0, -1, EmitNode)];
      spot := Spot(Top, rt.tree, EmitNode, 0);
      new;
      assert Walk(rt.tree, []) + [] == Walk(rt.tree, []);
    }
  }

  /** At every moment of the walk the heap stores one well-formed tree. */
  lemma WalksTree(it: DefragIterator, h: Heap)
    requires it.Walks(h)
    ensures Holds(h, it.rt.head, Top, Sub(it.rt.tree)) && WF(it.rt.tree)
    ensures h == it.rt.heap ==> it.rt.Valid()
  {
    if it.spot.Spot? {
      RootInTree(h, it.rt.head, it.rt.tree, it.spot.ctx, it.spot.t);
    }
  }

  // ------------------------------------------------------------------ raxDefragNext

  /** raxDefragNodeFlags. */
  function NodeFlags(depth: nat, n: Node): Flags {
    Flags(depth == 1, n.key.Some?, n.compr, false)
  }

  lemma DepthOne(ctx: Ctx)
    ensures |FramesOf(ctx)| == 0 <==> ctx.Top?
  {
  }

  lemma KeyBack(a: Key, b: Key)
    ensures (a + b)[..|a + b| - |b|] == a
  {
  }

  /** The walk stands at `s`, in the middle of raxDefragNext. */
  ghost predicate Standing(it: DefragIterator, s: Spot)
    reads it, it.rt
  {
    && At(it.rt.heap, it.rt.head, it.rt.tree, it.stack, s)
    && s.Spot? && it.key == CtxKey(s.ctx)
  }

  /** The fields that the walk may have changed describe `items`, which were returned on the way to `s`. */
  ghost predicate Gave(it: DefragIterator, items: seq<Item>, s: Spot)
    reads it
  {
    && SpotOk(s) && s.Spot?
    && if items == []
       then it.key == CtxKey(s.ctx) && it.pendingToDel == 0
       else it.OnItemAt(s) && items == [it.Current()]
  }

  /** The innermost frame, and what it may be replaced with. */
  lemma Innermost(h: Heap, head: Addr, tree: Tree, stack: seq<Frame>, s: Spot)
    requires At(h, head, tree, stack, s) && s.Spot?
    ensures SpotOk(s) && stack != [] && s.t.addr in h && h[s.t.addr] == NodeOf(s.t)
    ensures stack[|stack| - 1] == Frame(s.t.addr, s.child, ParentChild(s.ctx), s.state)
    ensures |stack| == |FramesOf(s.ctx)| + 1
    ensures forall state, child | SpotOk(s.(state := state, child := child)) ::
              At(h, head, tree, stack[..|stack| - 1] + [Frame(s.t.addr, child, ParentChild(s.ctx), state)],
                 s.(state := state, child := child))
  {
    assert Rep(h, s.t);
  }

  method ReturnNode(it: DefragIterator, ghost s: Spot)
    requires Standing(it, s) && s.state == EmitNode && it.pendingToDel == 0
    modifies it`stack, it`kind, it`flags, it`ptr, it`node, it`nodeChild, it`size
    ensures At(it.rt.heap, it.rt.head, it.rt.tree, it.stack, Advance(s))
    ensures Gave(it, Emits(s), Advance(s))
  {
    hide At, InTree;
    Innermost(it.rt.heap, it.rt.head, it.rt.tree, it.stack, s);
    var f := it.stack[|it.stack| - 1];
    var n := it.rt.heap[f.node];
    DepthOne(s.ctx);
    it.stack := it.stack[..|it.stack| - 1] + [f.(state := EmitData)];
    it.kind, it.flags, it.ptr, it.node, it.nodeChild := NodeKind, NodeFlags(|it.stack|, n), f.node, f.node, f.parentChild;
    it.size := RaxPacked.Length(n.compr, |n.edges|, n.key.Some? && n.key.value != NULL);
  }

  /** The state that may return the value of the node itself. */
  method ReturnOwnData(it: DefragIterator, ghost s: Spot) returns (found: bool)
    requires Standing(it, s) && s.state == EmitData && it.pendingToDel == 0
    modifies it`stack, it`kind, it`flags, it`ptr, it`node, it`nodeChild, it`size
    ensures At(it.rt.heap, it.rt.head, it.rt.tree, it.stack, Advance(s))
    ensures Gave(it, Emits(s), Advance(s)) && (found <==> Emits(s) != [])
  {
    hide At, InTree;
    Innermost(it.rt.heap, it.rt.head, it.rt.tree, it.stack, s);
    var f := it.stack[|it.stack| - 1];
    var n := it.rt.heap[f.node];
    it.stack := it.stack[..|it.stack| - 1] + [f.(state := Children)];
    found := n.key.Some? && n.key.value != NULL;
    if found {
      it.kind, it.flags, it.size := DataKind, NodeFlags(|it.stack|, n), 0;
      it.ptr, it.node, it.nodeChild := n.key.value, f.node, f.parentChild;
    }
  }

  /** All children are done: back to the parent, or the end of the walk. */
  method PopFrame(it: DefragIterator, ghost s: Spot)
    requires Standing(it, s) && s.state == Children && s.child == |s.t.kids| && it.pendingToDel == 0 && !it.eof
    modifies it`stack, it`key, it`eof
    ensures At(it.rt.heap, it.rt.head, it.rt.tree, it.stack, Advance(s))
    ensures it.eof <==> s.ctx.Top?
    ensures !it.eof ==> Gave(it, [], Advance(s))
  {
    ghost var Spot(ctx, t, _, _) := s;
    DepthOne(ctx);
    it.stack := it.stack[..|it.stack| - 1];
    if it.stack == [] {
      it.eof := true;
      RootInTree(it.rt.heap, it.rt.head, it.rt.tree, ctx, t);
      return;
    }
    PopInTree(it.rt.heap, it.rt.head, it.rt.tree, ctx, t);
    assert it.stack == FramesOf(ctx);
    assert Rep(it.rt.heap, Put(ctx.node, ctx.idx, Sub(t)));
    var n := it.rt.heap[it.stack[|it.stack| - 1].node];
    it.key := it.key[..|it.key| - if n.compr then |n.edges| else 1];
    KeyBack(CtxKey(ctx.up), Label(ctx.node, ctx.idx));
  }

  /** The next child is an inline leaf. */
  method VisitLeaf(it: DefragIterator, ghost s: Spot) returns (found: bool)
    requires Standing(it, s) && s.state == Children && s.child < |s.t.kids| && s.t.kids[s.child].Leaf? && it.pendingToDel == 0
    modifies it`stack, it`kind, it`flags, it`ptr, it`node, it`nodeChild, it`size, it`key, it`pendingToDel
    ensures At(it.rt.heap, it.rt.head, it.rt.tree, it.stack, Advance(s))
    ensures Gave(it, Emits(s), Advance(s)) && (found <==> Emits(s) != [])
  {
    hide At, InTree, CtxOk, CtxKey, KidWF, KidsWF, Live, ParentChild, FramesOf, Rep, RepKid, CtxRep;
    Innermost(it.rt.heap, it.rt.head, it.rt.tree, it.stack, s);
    var f := it.stack[|it.stack| - 1];
    var n := it.rt.heap[f.node];
    assert n.slots[f.child] == SlotOf(s.t.kids[s.child]);
    it.stack := it.stack[..|it.stack| - 1] + [f.(child := f.child + 1)];
    var value := n.slots[f.child].val;
    found := value != NULL;
    if found {
      var part := if n.compr then n.edges else [n.edges[f.child]];
      it.key := it.key + part;
      it.pendingToDel := |part|;
      it.kind, it.flags, it.size := DataKind, Flags(false, true, n.compr, true), 0;
      it.ptr, it.node, it.nodeChild := value, f.node, f.child;
    }
  }

  /** The next child is a node: push a frame for it. */
  method PushFrame(it: DefragIterator, ghost s: Spot)
    requires Standing(it, s) && s.state == Children && s.child < |s.t.kids| && s.t.kids[s.child].Sub? && it.pendingToDel == 0
    modifies it`stack, it`key
    ensures At(it.rt.heap, it.rt.head, it.rt.tree, it.stack, Advance(s))
    ensures Gave(it, [], Advance(s))
  {
    hide Entries, Below, KidEntries, KidsEntries, MapOf, Own;
    var f := it.stack[|it.stack| - 1];
    assert Rep(it.rt.heap, s.t);
    var n := it.rt.heap[f.node];
    assert n.slots[f.child] == SlotOf(s.t.kids[s.child]);
    PushInTree(it.rt.heap, it.rt.head, it.rt.tree, s.ctx, s.t, s.child);
    var child := n.slots[f.child].addr;
    it.stack := it.stack[..|it.stack| - 1] + [f.(child := f.child + 1)] + [Frame(child, 0, f.child, EmitNode)];
    it.key := it.key + if n.compr then n.edges else [n.edges[f.child]];
  }

  /** Drop the bytes of an inline leaf that was returned before. */
  method DropPending(it: DefragIterator)
    requires SpotOk(it.spot) && it.Ready() && it.spot.Spot?
    modifies it`key, it`pendingToDel
    ensures it.Settled()
  {
    if it.pendingToDel != 0 {
      KeyBack(CtxKey(it.spot.ctx), Label(it.spot.t, it.nodeChild));
      it.key := it.key[..|it.key| - it.pendingToDel];
      it.pendingToDel := 0;
    }
  }

  /** One turn of the loop. */
  method Turn(it: DefragIterator, ghost s: Spot) returns (found: bool)
    requires Standing(it, s) && !it.eof && it.pendingToDel == 0
    modifies it`stack, it`kind, it`flags, it`ptr, it`node, it`nodeChild, it`size, it`key, it`pendingToDel, it`eof
    ensures At(it.rt.heap, it.rt.head, it.rt.tree, it.stack, Advance(s))
    ensures it.eof == Advance(s).End? && (found <==> Emits(s) != []) && (found ==> !it.eof)
    ensures !it.eof ==> Gave(it, Emits(s), Advance(s))
  {
    hide Bag, KidBag, KidsBag, CtxBag, Owns, Entries, Below, KidEntries, KidsEntries, MapOf, Own, CtxBefore,
         CtxAfter, Plug, CtxKey, LeftOf, RightOf;
    var f := it.stack[|it.stack| - 1];
    assert Rep(it.rt.heap, s.t);
    var n := it.rt.heap[f.node];
    var numchildren := if n.compr then 1 else |n.edges|;
    found := false;
    if f.state == EmitNode {
      ReturnNode(it, s);
      found := true;
    } else if f.state == EmitData {
      found := ReturnOwnData(it, s);
    } else if f.child == numchildren {
      PopFrame(it, s);
    } else if n.slots[f.child].Inline? {
      assert n.slots[f.child] == SlotOf(s.t.kids[f.child]);
      found := VisitLeaf(it, s);
    } else {
      assert n.slots[f.child] == SlotOf(s.t.kids[f.child]);
      PushFrame(it, s);
    }
  }

  lemma NoneLeft<T>(a: seq<T>, b: seq<T>)
    ensures a == [] ==> a + b == b
  {
  }

  method Arrive(it: DefragIterator, ghost s: Spot, ghost items: seq<Item>)
    requires Gave(it, items, s) && items != []
    modifies it`spot
    ensures it.spot == s && it.OnItem() && items == [it.Current()]
  {
    it.spot := s;
  }

  /** raxDefragNext: the next item of the walk, or the end. */
  method Next(it: DefragIterator) returns (found: bool)
    requires it.Walks(it.rt.heap) && it.Ready()
    modifies it
    ensures it.Walks(it.rt.heap) && it.Ready()
    ensures found <==> old(it.Remaining()) != []
    ensures found ==> it.OnItem() && old(it.Remaining()) == [it.Current()] + it.Remaining()
    ensures !found ==> it.eof
  {
    if it.eof { return false; }
    ghost var rest, s, items := it.Remaining(), it.spot, [];
    DropPending(it);
    found := false;
    while !found && !it.eof
      invariant At(it.rt.heap, it.rt.head, it.rt.tree, it.stack, s)
      invariant it.eof == s.End? && (found <==> items != []) && (found ==> !it.eof) && rest == items + Rest(s)
      invariant !it.eof ==> Gave(it, items, s)
      decreases Load(s)
    {
      ghost var s0 := s;
      found := Turn(it, s0);
      items, s := Emits(s0), Advance(s0);
      AdvanceRest(s0);
      NoneLeft([], Rest(s0));
    }
    if found {
      Arrive(it, s, items);
    } else {
      it.spot := s;
    }
  }

  // ------------------------------------------------------------------ moving the current node

  lemma KidsFrame(h: Heap, h2: Heap, t: Tree, t2: Tree)
    requires Rep(h, t) && t2.kids == t.kids && t2.addr in h2 && h2[t2.addr] == NodeOf(t2)
    requires forall a | a in KidsBag(t.kids) && a in h :: a in h2 && h2[a] == h[a]
    ensures Rep(h2, t2)
  {
    forall i | 0 <= i < |t.kids| ensures RepKid(h2, t.kids[i]) {
      forall a | a in KidBag(t.kids[i]) && a in h ensures a in h2 && h2[a] == h[a] {
        KidBagOfMember(t.kids, i, a);
      }
      RepFrame(h, h2, t.kids[i]);
    }
  }

  /** A copy of the node of a position takes its place; the original is no longer part of the tree. */
  lemma Relocated(h: Heap, head: Addr, ctx: Ctx, t: Tree, copy: Addr)
    requires copy in h && Holds(h - {copy}, head, ctx, Sub(t)) && t.addr in h && h[copy] == h[t.addr]
    ensures ctx.In? ==> ctx.node.addr in h && ctx.idx < |h[ctx.node.addr].slots|
    ensures Holds(LinkHeap(h, LinkOf(ctx), Ptr(copy)) - {t.addr}, if ctx.Top? then copy else head, ctx, Sub(t.(addr := copy)))
  {
    var h0, t2 := h - {copy}, t.(addr := copy);
    assert Rep(h0, t) && KidBag(Sub(t)) == Bag(t) && KidBag(Sub(t2)) == Bag(t2);
    assert h0[copy := h[copy]] == h;
    RaxInsert.OwnsAdd(h0, CtxBag(ctx) + Bag(t), copy, h[copy]);
    assert CtxBag(ctx) + Bag(t) + multiset{copy} == CtxBag(ctx) + Bag(t2) + multiset{t.addr};
    KidsFrame(h0, h, t, t2);
    RaxInsert.SwapIn(h0, head, ctx, t, h, t2);
  }

  lemma SizeWithout(h: Heap, a: Addr)
    requires a in h
    ensures |h - {a}| == |h| - 1
  {
    assert (h - {a}).Keys == h.Keys - {a};
  }

  /** Entries do not depend on where a node is stored. */
  lemma AddrIrrelevant(ctx: Ctx, t: Tree, a: Addr)
    requires CtxOk(ctx) && WF(t)
    ensures WF(t.(addr := a))
    ensures Entries(Plug(ctx, Sub(t.(addr := a))), []) == Entries(Plug(ctx, Sub(t)), [])
  {
    var t2 := t.(addr := a);
    PlugEntries(ctx, Sub(t));
    PlugEntries(ctx, Sub(t2));
    assert Below(t2, CtxKey(ctx)) == Below(t, CtxKey(ctx));
  }

  /** The link that the stack leads to. */
  method ParentLink(it: DefragIterator, ghost ctx: Ctx, ghost t: Tree) returns (link: Link)
    requires it.stack != [] && it.stack[..|it.stack| - 1] == FramesOf(ctx)
    requires it.stack[|it.stack| - 1].parentChild == ParentChild(ctx)
    ensures link == LinkOf(ctx)
  {
    DepthOne(ctx);
    if |it.stack| == 1 {
      link := HeadLink;
    } else {
      link := SlotLink(it.stack[|it.stack| - 2].node, it.stack[|it.stack| - 1].parentChild);
    }
  }

  /** The part of raxDefragReplaceNode that changes the tree. */
  method MoveNode(it: DefragIterator, ghost s: Spot, copy: Addr)
    requires it.spot == s && it.OnItem() && it.kind == NodeKind
    requires copy in it.rt.heap && it.Walks(it.rt.heap - {copy})
    requires it.node in it.rt.heap && it.rt.heap[copy] == it.rt.heap[it.node]
    modifies it`stack, it`spot, it.rt`heap, it.rt`head, it.rt`tree
    ensures it.spot == s.(t := s.t.(addr := copy))
    ensures old(it.node) in it.rt.heap && |it.rt.heap| == |old(it.rt.heap)| && it.rt.heap.Keys == old(it.rt.heap.Keys)
    ensures At(it.rt.heap - {old(it.node)}, it.rt.head, it.rt.tree, it.stack, it.spot)
    ensures Entries(it.rt.tree, []) == old(Entries(it.rt.tree, []))
  {
    ghost var Spot(ctx, t, _, _) := s;
    var f := it.stack[|it.stack| - 1];
    var link := ParentLink(it, ctx, t);
    Relocated(it.rt.heap, it.rt.head, ctx, t, copy);
    AddrIrrelevant(ctx, t, copy);
    WriteLink(it.rt, link, Ptr(copy));
    it.stack := it.stack[..|it.stack| - 1] + [f.(node := copy)];
    it.spot := s.(t := t.(addr := copy));
    it.rt.tree := Plug(ctx, Sub(t.(addr := copy)));
  }

  /** raxDefragReplaceNode, once its checks have passed. */
  method ReplaceCurrent(it: DefragIterator, copy: Addr) returns (prev: Addr)
    requires it.OnItem() && it.kind == NodeKind && it.node in it.rt.heap
    requires copy in it.rt.heap && it.Walks(it.rt.heap - {copy}) && it.rt.heap[copy] == it.rt.heap[it.node]
    modifies it`node, it`ptr, it`stack, it`spot, it.rt`heap, it.rt`head, it.rt`tree
    ensures prev == old(it.node) && prev in it.rt.heap && it.Walks(it.rt.heap - {prev})
    ensures it.OnItem() && it.Current() == NodeAt(copy, old(it.key)) && it.Remaining() == old(it.Remaining())
    ensures Entries(it.rt.tree, []) == old(Entries(it.rt.tree, [])) && it.rt.heap.Keys == old(it.rt.heap.Keys)
  {
    hide Bag, KidBag, KidsBag, CtxBag, Owns, Entries, Below, KidEntries, KidsEntries, MapOf, Own, CtxBefore,
         CtxAfter, Plug, CtxKey, LeftOf, RightOf;
    prev := it.node;
    ghost var s := it.spot;
    SizeWithout(it.rt.heap, copy);
    MoveNode(it, s, copy);
    SizeWithout(it.rt.heap, prev);
    it.node := copy;
    it.ptr := copy;
  }

  /** raxDefragReplaceNode. `newptr` is a copy that the caller has made, or None for NULL. On success
      the caller owns the previous allocation in its place; the entries and the rest of the walk are
      what they were. */
  method ReplaceNode(it: DefragIterator, newptr: Option<Addr>) returns (r: Result)
    requires it.Ready() && it.eof == it.spot.End?
    requires !it.eof && it.kind == NodeKind && newptr.Some? ==>
               && newptr.value in it.rt.heap && it.Walks(it.rt.heap - {newptr.value})
               && it.node in it.rt.heap && it.rt.heap[newptr.value] == it.rt.heap[it.node]
    modifies it, it.rt
    ensures r == if old(it.eof) then NoEntry else if old(it.kind) != NodeKind || newptr.None? then Invalid else Replaced(old(it.node))
    ensures !r.Replaced? ==> unchanged(it) && unchanged(it.rt)
    ensures r.Replaced? ==>
              && old(it.node) in it.rt.heap && it.Walks(it.rt.heap - {old(it.node)})
              && it.OnItem() && it.Current() == NodeAt(newptr.value, old(it.key))
              && it.Remaining() == old(it.Remaining())
              && Entries(it.rt.tree, []) == old(Entries(it.rt.tree, [])) && it.rt.numnodes == old(it.rt.numnodes)
              && it.rt.heap.Keys == old(it.rt.heap.Keys)
  {
    hide InTree, Entries, FramesOf, Rest;
    if it.eof { return NoEntry; }
    if it.kind != NodeKind || newptr.None? { return Invalid; }
    // The original also returns NoEntry when the innermost frame is not the current node.
    assert it.stack[|it.stack| - 1].node == it.node;
    var prev := ReplaceCurrent(it, newptr.value);
    return Replaced(prev);
  }

  // ------------------------------------------------------------------ replacing the current value

  lemma PutLeaf(h: Heap, head: Addr, tree: Tree, ctx: Ctx, t: Tree, i: nat, v: Val)
    requires InTree(h, head, tree, ctx, t) && i < |t.kids| && t.kids[i].Leaf?
    ensures t.addr in h && i < |h[t.addr].slots|
    ensures InTree(SetSlot(h, t.addr, i, Inline(v)), head, Plug(ctx, Sub(Put(t, i, Leaf(v)))), ctx, Put(t, i, Leaf(v)))
    ensures MapOf(Entries(Plug(ctx, Sub(Put(t, i, Leaf(v)))), [])) == MapOf(Entries(tree, []))[CtxKey(ctx) + Label(t, i) := v]
  {
    PutLeafHeap(h, head, ctx, t, i, v);
    PutLeafMap(ctx, t, i, v);
  }

  lemma PutLeafHeap(h: Heap, head: Addr, ctx: Ctx, t: Tree, i: nat, v: Val)
    requires Holds(h, head, ctx, Sub(t)) && WF(t) && i < |t.kids| && t.kids[i].Leaf?
    ensures t.addr in h && i < |h[t.addr].slots|
    ensures Holds(SetSlot(h, t.addr, i, Inline(v)), head, ctx, Sub(Put(t, i, Leaf(v))))
  {
    hide Bag, KidBag, KidsBag, CtxBag, Plug, CtxRep, Rep;
    var c := In(ctx, t, i);
    KidsOf(t);
    Down(h, head, ctx, t, i);
    assert KidBag(t.kids[i]) == KidBag(Leaf(v)) by { NoBagOfLeaf(t.kids[i]); NoBagOfLeaf(Leaf(v)); }
    Replace(h, head, c, t.kids[i], h, Leaf(v));
    Up(SetSlot(h, t.addr, i, Inline(v)), head, c, Leaf(v));
  }

  lemma NoBagOfLeaf(k: Kid)
    requires k.Leaf?
    ensures KidBag(k) == multiset{}
  {
  }

  lemma PutLeafMap(ctx: Ctx, t: Tree, i: nat, v: Val)
    requires CtxOk(ctx) && WF(t) && i < |t.kids| && t.kids[i].Leaf?
    ensures WF(Put(t, i, Leaf(v)))
    ensures MapOf(Entries(Plug(ctx, Sub(Put(t, i, Leaf(v)))), []))
         == MapOf(Entries(Plug(ctx, Sub(t)), []))[CtxKey(ctx) + Label(t, i) := v]
  {
    var c, leaf := In(ctx, t, i), t.kids[i];
    KidsOf(t);
    PutEntries(t, i, Leaf(v), []);
    forall j | 0 <= j < |t.kids| ensures KidWF(Put(t, i, Leaf(v)).kids[j]) {}
    assert Put(t, i, leaf) == t;
    hide Entries, KidEntries, MapOf, WF;
    LeafMap(CtxKey(c), leaf.val, v);
    UpdateAt(c, leaf, Leaf(v), CtxKey(c), v);
  }

  lemma LeafMap(k: Key, v: Val, v2: Val)
    ensures MapOf(KidEntries(Leaf(v2), k)) == MapOf(KidEntries(Leaf(v), k))[k := v2]
  {
    MapOfOne(Entry(k, v));
    MapOfOne(Entry(k, v2));
  }

  lemma MapOfOne(e: Entry)
    ensures MapOf([e]) == map[e.key := e.val]
  {
    assert [e][..0] == [];
  }

  lemma PutKey(h: Heap, head: Addr, tree: Tree, ctx: Ctx, t: Tree, v: Val)
    requires InTree(h, head, tree, ctx, t) && t.key.Some?
    ensures t.addr in h
    ensures InTree(h[t.addr := h[t.addr].(key := Some(v))], head, Plug(ctx, Sub(t.(key := Some(v)))), ctx, t.(key := Some(v)))
    ensures MapOf(Entries(Plug(ctx, Sub(t.(key := Some(v)))), [])) == MapOf(Entries(tree, []))[CtxKey(ctx) := v]
  {
    var t2 := t.(key := Some(v));
    assert Rep(h, t);
    var h2 := h[t.addr := h[t.addr].(key := Some(v))];
    assert h2 == (h - {t.addr})[t.addr := NodeOf(t2)];
    RaxInsert.Rewritten(h, head, ctx, t, h2, t2);
    RaxInsert.SameLink(h2, ctx, Ptr(t.addr), h);
    RaxInsert.SetKeyEntries(t, CtxKey(ctx), v);
    UpdateAt(ctx, Sub(t), Sub(t2), CtxKey(ctx), v);
  }

  lemma SameSize(m: map<Key, Val>, k: Key, v: Val)
    requires k in m
    ensures |m[k := v]| == |m|
  {
    assert m[k := v].Keys == m.Keys;
  }

  /** The current key is in the tree, with the current value. */
  lemma CurrentEntry(it: DefragIterator)
    requires it.Walks(it.rt.heap) && it.OnItem() && it.kind == DataKind
    ensures it.key in it.rt.Content() && it.rt.Content()[it.key] == it.ptr
  {
    hide CtxBefore, CtxAfter, Plug, CtxKey, LeftOf, RightOf;
    var Spot(ctx, t, _, _) := it.spot;
    PlugEntries(ctx, Sub(t));
    PlugWF(ctx, Sub(t));
    EntriesSorted(it.rt.tree, []);
    var es := Entries(it.rt.tree, []);
    var here := Entries(t, CtxKey(ctx));
    if it.flags.inlineData {
      BelowAt(t, it.nodeChild, CtxKey(ctx));
      assert Entry(it.key, it.ptr) in here;
    } else {
      assert here[0] == Entry(it.key, it.ptr);
    }
    assert Entry(it.key, it.ptr) in es;
    var i :| 0 <= i < |es| && es[i] == Entry(it.key, it.ptr);
    MapOfSorted(es, i);
  }

  method SetInline(it: DefragIterator, ghost s: Spot, v: Val)
    requires it.Walks(it.rt.heap) && it.OnItem() && it.kind == DataKind && it.flags.inlineData && it.spot == s
    modifies it`spot, it.rt`heap, it.rt`head, it.rt`tree
    ensures it.spot == s.(t := Put(s.t, it.nodeChild, Leaf(v))) && |it.rt.heap| == |old(it.rt.heap)| && it.rt.heap.Keys == old(it.rt.heap.Keys)
    ensures At(it.rt.heap, it.rt.head, it.rt.tree, it.stack, it.spot)
    ensures it.rt.Content() == old(it.rt.Content())[it.key := v]
    ensures Rest(it.spot) == Rest(s)
  {
    PutLeaf(it.rt.heap, it.rt.head, it.rt.tree, s.ctx, s.t, it.nodeChild, v);
    WalkFromPut(s.t, it.nodeChild, Leaf(v), CtxKey(s.ctx));
    ghost var h := it.rt.heap;
    WriteLink(it.rt, SlotLink(it.node, it.nodeChild), Inline(v));
    it.rt.tree := Plug(s.ctx, Sub(Put(s.t, it.nodeChild, Leaf(v))));
    it.spot := s.(t := Put(s.t, it.nodeChild, Leaf(v)));
  }

  method SetOwn(it: DefragIterator, ghost s: Spot, v: Val)
    requires it.Walks(it.rt.heap) && it.OnItem() && it.kind == DataKind && !it.flags.inlineData && it.spot == s
    modifies it`spot, it.rt`heap, it.rt`tree
    ensures it.spot == s.(t := s.t.(key := Some(v))) && |it.rt.heap| == |old(it.rt.heap)| && it.rt.heap.Keys == old(it.rt.heap.Keys)
    ensures At(it.rt.heap, it.rt.head, it.rt.tree, it.stack, it.spot)
    ensures it.rt.Content() == old(it.rt.Content())[it.key := v]
    ensures Rest(it.spot) == Rest(s)
  {
    PutKey(it.rt.heap, it.rt.head, it.rt.tree, s.ctx, s.t, v);
    Overwritten(it.rt.heap, it.node, it.rt.heap[it.node].(key := Some(v)));
    it.rt.heap := it.rt.heap[it.node := it.rt.heap[it.node].(key := Some(v))];
    it.rt.tree := Plug(s.ctx, Sub(s.t.(key := Some(v))));
    it.spot := s.(t := s.t.(key := Some(v)));
  }

  /** raxDefragReplaceData: the current key gets a new value; no other key, no node and no item that
      is still to come changes. */
  method ReplaceData(it: DefragIterator, newptr: Val) returns (r: Result)
    requires it.Ready() && it.eof == it.spot.End?
    requires !it.eof && it.kind == DataKind ==> it.Walks(it.rt.heap)
    modifies it, it.rt
    ensures r == if old(it.eof) then NoEntry else if old(it.kind) != DataKind then Invalid else Replaced(old(it.ptr))
    ensures !r.Replaced? ==> unchanged(it) && unchanged(it.rt)
    ensures r.Replaced? ==>
              && it.Walks(it.rt.heap) && it.OnItem() && it.Current() == DataAt(old(it.key), newptr)
              && it.Remaining() == old(it.Remaining())
              && old(it.key in it.rt.Content() && it.rt.Content()[it.key] == it.ptr)
              && it.rt.Content() == old(it.rt.Content())[old(it.key) := newptr] && it.rt.numnodes == old(it.rt.numnodes)
              && it.rt.heap.Keys == old(it.rt.heap.Keys)
  {
    hide InTree, At, Rest, SpotOk;
    if it.eof { return NoEntry; }
    if it.kind != DataKind { return Invalid; }
    CurrentEntry(it);
    SameSize(it.rt.Content(), it.key, newptr);
    r := Replaced(it.ptr);
    ghost var s := it.spot;
    if it.flags.inlineData {
      SetInline(it, s, newptr);
    } else {
      SetOwn(it, s, newptr);
    }
    it.ptr := newptr;
  }

  // ------------------------------------------------------------------ a whole run

  /** The map after the values of `es` were replaced one after the other. */
  function Moves(m: map<Key, Val>, es: seq<Entry>, f: (Key, Val) -> Val): map<Key, Val> {
    if es == [] then m
    else
      var last := es[|es| - 1];
      Moves(m, es[..|es| - 1], f)[last.key := f(last.key, last.val)]
  }

  lemma {:induction false} MovesAt(m: map<Key, Val>, es: seq<Entry>, f: (Key, Val) -> Val, k: Key)
    requires forall i | 0 <= i < |es| :: es[i].key in m && m[es[i].key] == es[i].val
    ensures Moves(m, es, f).Keys == m.Keys
    ensures k in m ==> Moves(m, es, f)[k] == if Entry(k, m[k]) in es then f(k, m[k]) else m[k]
  {
    if es != [] {
      MovesAt(m, es[..|es| - 1], f, k);
      assert es == es[..|es| - 1] + [es[|es| - 1]];
    }
  }

  lemma {:induction false} StoredIn(es: seq<Entry>, e: Entry)
    ensures e in Stored(es) <==> e in es && e.val != NULL
  {
    if es != [] {
      StoredIn(es[1..], e);
      assert es == [es[0]] + es[1..];
    }
  }

  /** Replacing every value once. */
  lemma MovesAll(es: seq<Entry>, f: (Key, Val) -> Val)
    requires Sorted(es)
    ensures Moves(MapOf(es), Stored(es), f)
         == map k | k in MapOf(es) :: if MapOf(es)[k] == NULL then NULL else f(k, MapOf(es)[k])
  {
    var m := MapOf(es);
    forall i | 0 <= i < |Stored(es)| ensures Stored(es)[i].key in m && m[Stored(es)[i].key] == Stored(es)[i].val {
      var e := Stored(es)[i];
      StoredIn(es, e);
      var j :| 0 <= j < |es| && es[j] == e;
      MapOfSorted(es, j);
    }
    MovesAt(m, Stored(es), f, []);
    forall k | k in m ensures Moves(m, Stored(es), f)[k] == if m[k] == NULL then NULL else f(k, m[k]) {
      MovesAt(m, Stored(es), f, k);
      MapOfKeys(es, k);
      var j :| 0 <= j < |es| && es[j].key == k;
      MapOfSorted(es, j);
      assert es[j] == Entry(k, m[k]);
      StoredIn(es, Entry(k, m[k]));
    }
  }

  lemma MallocKeeps(h: Heap, a: Addr, n: Node)
    requires a !in h
    ensures h[a := n] - {a} == h
  {
  }

  /** The caller's copy of the current node. */
  method CopyCurrent(it: DefragIterator) returns (copy: Addr)
    requires it.Walks(it.rt.heap) && it.OnItem()
    modifies it.rt`heap
    ensures copy in it.rt.heap && it.node in it.rt.heap && it.rt.heap[copy] == it.rt.heap[it.node]
    ensures it.Walks(it.rt.heap - {copy})
    ensures old(it.node in it.rt.heap) && copy !in old(it.rt.heap) && it.rt.heap.Keys == old(it.rt.heap.Keys) + {copy}
  {
    assert Rep(it.rt.heap, it.spot.t);
    var n := it.rt.heap[it.node];
    ghost var h := it.rt.heap;
    copy := Malloc(it.rt, n);
    MallocKeeps(h, copy, n);
  }

  method FreeOld(it: DefragIterator, a: Addr)
    requires a in it.rt.heap && it.Walks(it.rt.heap - {a})
    modifies it.rt`heap
    ensures it.Walks(it.rt.heap) && it.rt.heap.Keys == old(it.rt.heap.Keys) - {a}
  {
    Free(it.rt, a);
  }

  /** What the caller does with a node: allocate, copy, replace, free. */
  method MoveCurrentNode(it: DefragIterator)
    requires it.Walks(it.rt.heap) && it.OnItem() && it.kind == NodeKind
    modifies it, it.rt
    ensures it.Walks(it.rt.heap) && it.OnItem() && it.Current() == NodeAt(it.node, old(it.key))
    ensures it.Remaining() == old(it.Remaining())
    ensures Entries(it.rt.tree, []) == old(Entries(it.rt.tree, []))
    ensures it.rt.numnodes == old(it.rt.numnodes)
    ensures old(it.node in it.rt.heap) && it.node !in old(it.rt.heap)
    ensures it.rt.heap.Keys == old(it.rt.heap.Keys) - {old(it.node)} + {it.node}
  {
    hide At, InTree, Rest;
    var copy := CopyCurrent(it);
    var r := ReplaceNode(it, Some(copy));
    FreeOld(it, r.prev);
  }

  /** A node is at another address, and a value is the one that `move` makes of it. */
  ghost predicate Moved(item: Item, now: Item, move: (Key, Val) -> Val) {
    match item
    case NodeAt(addr, key) => now.NodeAt? && now.key == key && now.addr != addr
    case DataAt(key, val) => now == DataAt(key, move(key, val))
  }

  lemma KeysMoved(before: set<Addr>, after: set<Addr>, item: Item, now: Item)
    requires item.NodeAt? == now.NodeAt?
    requires if item.NodeAt? then item.addr in before && now.addr !in before && after == before - {item.addr} + {now.addr}
             else after == before
    ensures multiset(after) + Nodes([item]) == multiset(before) + Nodes([now])
  {
    assert [item][1..] == [] && [now][1..] == [];
  }

  /** The item has been dealt with. */
  method MoveItem(it: DefragIterator, move: (Key, Val) -> Val) returns (ghost item: Item, ghost now: Item)
    requires it.Walks(it.rt.heap) && it.OnItem()
    modifies it, it.rt
    ensures it.Walks(it.rt.heap) && it.OnItem()
    ensures it.Remaining() == old(it.Remaining()) && item == old(it.Current())
    ensures it.rt.numnodes == old(it.rt.numnodes)
    ensures it.rt.Content() == if item.NodeAt? then old(it.rt.Content()) else old(it.rt.Content())[item.key := move(item.key, item.val)]
    ensures now == it.Current() && Moved(item, now, move)
    ensures multiset(it.rt.heap.Keys) + Nodes([item]) == old(multiset(it.rt.heap.Keys)) + Nodes([now])
  {
    item := it.Current();
    if it.kind == NodeKind {
      MoveCurrentNode(it);
    } else {
      var r := ReplaceData(it, move(it.key, it.ptr));
    }
    now := it.Current();
    KeysMoved(old(it.rt.heap.Keys), it.rt.heap.Keys, item, now);
  }

  lemma MovesStep(m: map<Key, Val>, es: seq<Item>, item: Item, f: (Key, Val) -> Val)
    ensures Moves(m, Values(es + [item]), f)
         == if item.NodeAt? then Moves(m, Values(es), f) else Moves(m, Values(es), f)[item.key := f(item.key, item.val)]
  {
    ItemsAppend(es, [item]);
    assert [item][1..] == [];
    if item.DataAt? {
      assert Values([item]) == [Entry(item.key, item.val)];
      assert (Values(es) + [Entry(item.key, item.val)])[..|Values(es)|] == Values(es);
    } else {
      assert Values(es) + [] == Values(es);
    }
  }

  /** The visited items have been moved, and the addresses in use have changed accordingly. */
  ghost predicate Accounted(first: set<Addr>, last: set<Addr>, visited: seq<Item>, moved: seq<Item>, move: (Key, Val) -> Val) {
    && |moved| == |visited| && (forall i | 0 <= i < |visited| :: Moved(visited[i], moved[i], move))
    && multiset(last) + Nodes(visited) == multiset(first) + Nodes(moved)
  }

  lemma OneMoreMoved(first: set<Addr>, before: set<Addr>, after: set<Addr>, visited: seq<Item>, moved: seq<Item>,
                     item: Item, now: Item, move: (Key, Val) -> Val)
    requires Accounted(first, before, visited, moved, move) && Moved(item, now, move)
    requires multiset(after) + Nodes([item]) == multiset(before) + Nodes([now])
    ensures Accounted(first, after, visited + [item], moved + [now], move)
  {
    NodesAppend(visited, [item]);
    NodesAppend(moved, [now]);
    hide Nodes;
    var a, b, x, y := Nodes(visited), Nodes(moved), Nodes([item]), Nodes([now]);
    assert multiset(after) + (a + x) == (multiset(after) + x) + a;
    assert (multiset(before) + y) + a == (multiset(before) + a) + y;
    assert (multiset(first) + b) + y == multiset(first) + (b + y);
  }

  lemma AllMoved(first: set<Addr>, last: set<Addr>, visited: seq<Item>, moved: seq<Item>)
    requires Nodes(visited) == multiset(first) && multiset(last) + Nodes(visited) == multiset(first) + Nodes(moved)
    ensures multiset(last) == Nodes(moved)
  {
    hide Nodes;
    assert multiset(last) == multiset(last) + multiset(first) - multiset(first);
    assert Nodes(moved) == multiset(first) + Nodes(moved) - multiset(first);
  }

  /** Next, then deal with the item, until the end. */
  method Drive(it: DefragIterator, ghost walk: seq<Item>, ghost m: map<Key, Val>, move: (Key, Val) -> Val)
    returns (ghost visited: seq<Item>, ghost moved: seq<Item>)
    requires it.Walks(it.rt.heap) && it.Ready() && it.Remaining() == walk && it.rt.Content() == m
    modifies it, it.rt
    ensures it.Walks(it.rt.heap) && visited == walk
    ensures Accounted(old(it.rt.heap.Keys), it.rt.heap.Keys, visited, moved, move)
    ensures it.rt.Content() == Moves(m, Values(walk), move) && it.rt.numnodes == old(it.rt.numnodes)
  {
    visited, moved := [], [];
    assert Accounted(it.rt.heap.Keys, it.rt.heap.Keys, [], [], move);
    hide At, InTree, Accounted, Moved, Nodes;
    ghost var rest := walk;
    var found := Next(it);
    while found
      invariant it.Walks(it.rt.heap) && it.Ready()
      invariant found ==> it.OnItem() && rest == [it.Current()] + it.Remaining()
      invariant walk == visited + rest && (!found ==> rest == [])
      invariant it.rt.Content() == Moves(m, Values(visited), move) && it.rt.numnodes == old(it.rt.numnodes)
      invariant Accounted(old(it.rt.heap.Keys), it.rt.heap.Keys, visited, moved, move)
      decreases |rest|, found
    {
      ghost var before := it.rt.heap.Keys;
      ghost var item, now := MoveItem(it, move);
      MovesStep(m, visited, item, move);
      NextItem(visited, rest);
      OneMoreMoved(old(it.rt.heap.Keys), before, it.rt.heap.Keys, visited, moved, item, now, move);
      visited, moved, rest := visited + [item], moved + [now], it.Remaining();
      found := Next(it);
    }
    assert visited + [] == visited;
  }

  /** The loop that the iterator is made for: every allocation is moved once, every value is replaced
      once, what is allocated at the end is where the nodes were moved to, and the map is the old one
      with the new values. */
  method DefragAll(rt: Rax, move: (Key, Val) -> Val) returns (ghost visited: seq<Item>, ghost moved: seq<Item>)
    requires rt.Valid()
    modifies rt
    ensures rt.Valid()
    ensures Nodes(visited) == multiset(old(rt.heap.Keys)) && Values(visited) == Stored(old(Entries(rt.tree, [])))
    ensures rt.Content() == map k | k in old(rt.Content()) ::
                              if old(rt.Content())[k] == NULL then NULL else move(k, old(rt.Content())[k])
    ensures rt.numnodes == old(rt.numnodes)
    ensures |moved| == |visited| && forall i | 0 <= i < |visited| :: Moved(visited[i], moved[i], move)
    ensures multiset(rt.heap.Keys) == Nodes(moved)
  {
    ghost var tree := rt.tree;
    WalkNodes(tree, []);
    WalkValues(tree, []);
    EntriesSorted(tree, []);
    WholeBag(rt.heap, rt.head, tree);
    MovesAll(Entries(tree, []), move);
    var it := new DefragIterator(rt);
    visited, moved := Drive(it, Walk(tree, []), rt.Content(), move);
    AllMoved(old(rt.heap.Keys), rt.heap.Keys, visited, moved);
    WalksTree(it, rt.heap);
  }

  lemma NextItem(visited: seq<Item>, rest: seq<Item>)
    ensures rest != [] ==> visited + rest == (visited + [rest[0]]) + rest[1..]
  {
  }

  lemma WholeBag(h: Heap, head: Addr, tree: Tree)
    requires Holds(h, head, Top, Sub(tree))
    ensures Bag(tree) == multiset(h.Keys)
  {
    assert KidBag(Sub(tree)) == Bag(tree);
  }
}
