/** raxRemove: deleting a key, reclaiming useless nodes upward, and merging chains again. */
module RaxRemove {
  import opened Keys
  import opened Seqs
  import opened RaxTree
  import opened RaxZipper
  import opened RaxHeap
  import opened RaxCore
  import RaxInsert

  // ------------------------------------------------------------------ removing a child

  function Without<T>(s: seq<T>, i: nat): seq<T>
    requires i < |s|
  {
    s[..i] + s[i + 1..]
  }

  /** raxRemoveChildAtPtr on a tree: a compressed node turns into a node without children. */
  function RemoveKid(t: Tree, idx: nat): Tree
    requires idx < |t.kids| && (!t.compr ==> |t.kids| == |t.edges|)
  {
    if t.compr then t.(compr := false, edges := [], kids := [])
    else t.(edges := Without(t.edges, idx), kids := Without(t.kids, idx))
  }

  lemma RemoveKidEntries(t: Tree, idx: nat, pre: Key)
    requires NodeOk(t) && idx < |t.kids|
    ensures Entries(RemoveKid(t, idx), pre) == Own(t.key, pre) + LeftOf(t, idx, pre) + RightOf(t, idx + 1, pre)
  {
    var t2 := RemoveKid(t, idx);
    if !t.compr {
      KidsEntriesSplit(t2.edges, t2.kids, idx, pre);
      assert t2.edges[..idx] == t.edges[..idx] && t2.kids[..idx] == t.kids[..idx];
      assert t2.edges[idx..] == t.edges[idx + 1..] && t2.kids[idx..] == t.kids[idx + 1..];
    }
  }

  lemma RemoveKidOk(t: Tree, idx: nat)
    requires NodeOk(t) && idx < |t.kids|
    requires forall j | 0 <= j < |t.kids| && j != idx :: KidWF(t.kids[j])
    ensures WF(RemoveKid(t, idx))
  {
    var t2 := RemoveKid(t, idx);
    if !t.compr {
      forall j | 0 <= j < |t2.kids| ensures t2.kids[j] == t.kids[if j < idx then j else j + 1] {}
    }
  }

  /** The parent of a hole, without the hole. */
  lemma RemoveHole(h: Heap, head: Addr, ctx: Ctx, slot: Slot)
    requires ctx.In? && CtxOk(ctx) && CtxRep(h, ctx, slot) && Owns(h, CtxBag(ctx))
    requires head == HeadAddr(ctx.up, ctx.node.addr)
    ensures Holds(h[ctx.node.addr := NodeOf(RemoveKid(ctx.node, ctx.idx))], head, ctx.up, Sub(RemoveKid(ctx.node, ctx.idx)))
  {
    hide CtxBag, KidsBag, KidBag, Bag;
    var In(up, node, idx) := ctx;
    var t2 := RemoveKid(node, idx);
    var h2 := h[node.addr := NodeOf(t2)];
    RemovedBag(ctx);
    assert h2.Keys == h.Keys;
    HoleOnce(h, ctx);
    CtxRepFrame(h, h2, up, Ptr(node.addr));
    forall j | 0 <= j < |t2.kids| ensures RepKid(h2, t2.kids[j]) {
      HoleSibling(h, ctx, slot, if j < idx then j else j + 1, NodeOf(t2));
    }
    assert Rep(h2, t2);
  }

  lemma HoleOnce(h: Heap, ctx: Ctx)
    requires ctx.In? && CtxOk(ctx) && Owns(h, CtxBag(ctx))
    ensures ctx.node.addr !in CtxBag(ctx.up)
    ensures ctx.node.addr !in KidsBag(ctx.node.kids[..ctx.idx]) + KidsBag(ctx.node.kids[ctx.idx + 1..])
  {
    assert CtxBag(ctx)[ctx.node.addr] <= 1;
  }

  lemma HoleSibling(h: Heap, ctx: Ctx, slot: Slot, j: nat, n: Node)
    requires ctx.In? && CtxOk(ctx) && CtxRep(h, ctx, slot) && Owns(h, CtxBag(ctx))
    requires j < |ctx.node.kids| && j != ctx.idx
    ensures RepKid(h[ctx.node.addr := n], ctx.node.kids[j])
  {
    var h2 := h[ctx.node.addr := n];
    HoleOnce(h, ctx);
    forall a | a in KidBag(ctx.node.kids[j]) && a in h ensures a in h2 && h2[a] == h[a] {
      SiblingInCtxBag(ctx, j, a);
    }
    RepFrame(h, h2, ctx.node.kids[j]);
  }

  lemma RemovedBag(ctx: Ctx)
    requires ctx.In? && CtxOk(ctx)
    ensures CtxBag(ctx) == CtxBag(ctx.up) + KidBag(Sub(RemoveKid(ctx.node, ctx.idx)))
  {
    var In(up, node, idx) := ctx;
    var t2 := RemoveKid(node, idx);
    assert KidBag(Sub(t2)) == Bag(t2);
    if node.compr {
      assert node.kids[..idx] == [] && node.kids[idx + 1..] == [];
    } else {
      KidsBagAppend(node.kids[..idx], node.kids[idx + 1..]);
    }
  }

  /** raxRemoveChildAtPtr. */
  method RemoveChildAtPtr(rax: Rax, parent: Addr, idx: nat, ghost ctx: Ctx, ghost slot: Slot)
    requires ctx.In? && CtxOk(ctx) && CtxRep(rax.heap, ctx, slot) && Owns(rax.heap, CtxBag(ctx))
    requires rax.head == HeadAddr(ctx.up, ctx.node.addr)
    requires parent == ctx.node.addr && idx == ctx.idx
    modifies rax`heap
    ensures Holds(rax.heap, rax.head, ctx.up, Sub(RemoveKid(ctx.node, ctx.idx)))
    ensures |rax.heap| == |old(rax.heap)|
  {
    hide Bag, KidBag, KidsBag, CtxBag, Owns, Entries, Below, KidEntries, KidsEntries, MapOf, Own, CtxBefore,
         CtxAfter, Plug, CtxKey, LeftOf, RightOf;
    RemoveHole(rax.heap, rax.head, ctx, slot);
    var n := rax.heap[parent];
    var n2;
    if n.compr {
      n2 := n.(compr := false, edges := [], slots := []);
    } else {
      n2 := n.(edges := Without(n.edges, idx), slots := Without(n.slots, idx));
    }
    assert n2 == NodeOf(RemoveKid(ctx.node, idx)) by {
      assert SlotsOf(RemoveKid(ctx.node, idx).kids) == n2.slots;
    }
    ghost var keys := rax.heap.Keys;
    rax.heap := rax.heap[parent := n2];
    assert rax.heap.Keys == keys;
  }

  /** No sibling of a hole points to an address that is not in use. */
  lemma HoleUnique(h: Heap, ctx: Ctx, a: Addr)
    requires ctx.In? && CtxRep(h, ctx, Ptr(a)) && a !in h
    ensures h[ctx.node.addr].slots[ctx.idx] == Ptr(a)
    ensures forall j | 0 <= j < |ctx.node.kids| && j != ctx.idx :: h[ctx.node.addr].slots[j] != Ptr(a)
  {
    var node := ctx.node;
    forall j | 0 <= j < |node.kids| && j != ctx.idx ensures h[node.addr].slots[j] != Ptr(a) {
      assert node.kids[j].Sub? ==> Rep(h, node.kids[j].node);
      assert h[node.addr].slots[j] == SlotOf(node.kids[j]);
    }
  }

  // ------------------------------------------------------------------ raxRemoveCleanup

  /** A position whose node has been freed: the parent's slot dangles. */
  ghost predicate Hole(rax: Rax, ctx: Ctx, child: Addr)
    reads rax
  {
    && ctx.In? && CtxOk(ctx)
    && CtxRep(rax.heap, ctx, Ptr(child))
    && Owns(rax.heap, CtxBag(ctx))
    && rax.head == HeadAddr(ctx.up, ctx.node.addr)
    && child !in rax.heap
    && rax.numnodes == |rax.heap|
  }

  function Around(ctx: Ctx): seq<Entry>
    requires CtxOk(ctx)
  {
    CtxBefore(ctx) + CtxAfter(ctx)
  }

  lemma HeadOnly(h: Heap, ctx: Ctx)
    requires ctx.In? && CtxOk(ctx) && Owns(h, CtxBag(ctx)) && ctx.node.addr == HeadAddr(ctx.up, ctx.node.addr)
    ensures ctx.up.Top?
  {
    if ctx.up.In? {
      HeadInBag(ctx.up);
      HoleOnce(h, ctx);
    }
  }

  /** Freeing the node below a position leaves a hole. */
  method FreeLeaf(rax: Rax, h: Addr, ghost ctx: Ctx, ghost t: Tree)
    requires Holds(rax.heap, rax.head, ctx, Sub(t)) && ctx.In? && h == t.addr && t.kids == []
    requires rax.numnodes == |rax.heap|
    modifies rax`heap, rax`numnodes
    ensures Hole(rax, ctx, h)
  {
    ghost var h0 := rax.heap;
    assert Rep(h0, t);
    RaxInsert.LeafBag(h0, rax.head, ctx, t, 0);
    RaxInsert.OwnsRemove(h0, CtxBag(ctx), h);
    Free(rax, h);
    rax.numnodes := rax.numnodes - 1;
    CtxRepFrame(h0, rax.heap, ctx, Ptr(h));
  }

  /** A parent that has nothing but a hole is freed as well, which moves the hole up. */
  method FreeHoleParent(rax: Rax, h: Addr, ghost ctx: Ctx, ghost child: Addr)
    requires Hole(rax, ctx, child) && h == ctx.node.addr && ctx.up.In?
    requires |ctx.node.kids| == 1 && ctx.node.key.None?
    modifies rax`heap, rax`numnodes
    ensures Hole(rax, ctx.up, h)
    ensures Around(ctx.up) == Around(ctx)
  {
    ghost var h0 := rax.heap;
    LoneHole(ctx);
    hide CtxBag, CtxBefore, CtxAfter, Around, CtxKey;
    RaxInsert.OwnsRemove(h0, CtxBag(ctx.up), h);
    Free(rax, h);
    rax.numnodes := rax.numnodes - 1;
    CtxRepFrame(h0, rax.heap, ctx.up, Ptr(h));
  }

  /** A parent with nothing but a hole adds its own allocation and no entry to what is above it. */
  lemma LoneHole(ctx: Ctx)
    requires ctx.In? && CtxOk(ctx) && |ctx.node.kids| == 1 && ctx.node.key.None?
    ensures CtxBag(ctx) == CtxBag(ctx.up) + multiset{ctx.node.addr}
    ensures Around(ctx.up) == Around(ctx)
  {
    assert ctx.idx == 0 && ctx.node.kids[..0] == [] && ctx.node.kids[1..] == [];
    assert Own(ctx.node.key, CtxKey(ctx.up)) == [];
    assert LeftOf(ctx.node, 0, CtxKey(ctx.up)) == [] && RightOf(ctx.node, 1, CtxKey(ctx.up)) == [];
    assert CtxBefore(ctx) == CtxBefore(ctx.up) && CtxAfter(ctx) == CtxAfter(ctx.up);
  }

  /** The tree after a deletion: `t` sits at `ctx`, and `stack` is the path to it. */
  ghost predicate Settled(rax: Rax, h: Addr, stack: seq<Addr>, ctx: Ctx, t: Tree, es: seq<Entry>)
    reads rax
  {
    && Holds(rax.heap, rax.head, ctx, Sub(t))
    && h == t.addr && stack == CtxStack(ctx)
    && WF(t) && (ctx.In? ==> Live(t))
    && Entries(Plug(ctx, Sub(t)), []) == es
    && rax.numnodes == |rax.heap|
  }

  predicate Mergeable(t: Tree) {
    t.key.None? && |t.kids| == 1
  }

  lemma HoleEntries(ctx: Ctx)
    requires ctx.In? && CtxOk(ctx)
    ensures Entries(Plug(ctx.up, Sub(RemoveKid(ctx.node, ctx.idx))), []) == Around(ctx)
  {
    var In(up, node, idx) := ctx;
    var pre := CtxKey(up);
    PlugEntries(up, Sub(RemoveKid(node, idx)));
    RemoveKidEntries(node, idx, pre);
    Regroup6(CtxBefore(up), Own(node.key, pre), LeftOf(node, idx, pre), [], RightOf(node, idx + 1, pre), CtxAfter(up));
    NothingBetween(Own(node.key, pre) + LeftOf(node, idx, pre), RightOf(node, idx + 1, pre));
    NothingBetween(CtxBefore(ctx), CtxAfter(ctx));
  }

  /** Where cleanup stops on its way up: the first hole whose parent is the head, a key, or has other
      children. */
  function StopHole(ctx: Ctx): (hole: Ctx)
    requires ctx.In?
    ensures hole.In?
  {
    if ctx.up.In? && Mergeable(ctx.node) then StopHole(ctx.up) else ctx
  }

  lemma {:induction false} StopHoleOk(ctx: Ctx)
    requires ctx.In? && CtxOk(ctx)
    ensures CtxOk(StopHole(ctx))
  {
    if ctx.up.In? {
      StopHoleOk(ctx.up);
    }
  }

  /** The node that cleanup leaves behind, and where it hangs. Only a useless head stays as it is. */
  ghost function Cleaned(ctx: Ctx, t: Tree): (at: (Ctx, Tree))
    requires CtxOk(ctx)
    ensures CtxOk(at.0)
  {
    if ctx.Top? then (ctx, t)
    else
      StopHoleOk(ctx);
      var hole := StopHole(ctx);
      (hole.up, RemoveKid(hole.node, hole.idx))
  }

  /** raxRemoveCleanup: free the useless node and its useless ancestors, then unlink the last one
      freed from the first ancestor that stays. */
  method RemoveCleanup(rax: Rax, h0: Addr, stack0: seq<Addr>, ghost ctx0: Ctx, ghost t0: Tree)
    returns (h: Addr, stack: seq<Addr>, trycompress: bool, ghost ctx: Ctx, ghost t: Tree)
    requires Holds(rax.heap, rax.head, ctx0, Sub(t0)) && WF(t0)
    requires h0 == t0.addr && stack0 == CtxStack(ctx0)
    requires t0.kids == [] && t0.key.None?
    requires rax.numnodes == |rax.heap|
    modifies rax`heap, rax`numnodes
    ensures Settled(rax, h, stack, ctx, t, Around(ctx0))
    ensures (ctx, t) == Cleaned(ctx0, t0) && (trycompress <==> Mergeable(t)) && !t.compr
  {
    h, stack, trycompress := h0, stack0, false;
    if h == rax.head {
      HeadIsTop(rax.heap, rax.head, ctx0, t0);
      ctx, t := ctx0, t0;
      PlugEntries(ctx, Sub(t));
      RaxInsert.ChildlessEntries(t, CtxKey(ctx));
      NothingBetween(CtxBefore(ctx), CtxAfter(ctx));
      return;
    }
    ghost var hole := ctx0;
    var child := h;
    FreeLeaf(rax, h, hole, t0);
    h, stack := stack[|stack| - 1], stack[..|stack| - 1];
    while h != rax.head
      invariant Hole(rax, hole, child) && h == hole.node.addr && stack == CtxStack(hole.up)
      invariant Around(hole) == Around(ctx0) && StopHole(hole) == StopHole(ctx0)
      decreases hole
    {
      var n := rax.heap[h];
      if n.key.Some? || (!n.compr && |n.edges| != 1) {
        break;
      }
      FreeHoleParent(rax, h, hole, child);
      child, hole := h, hole.up;
      h, stack := stack[|stack| - 1], stack[..|stack| - 1];
    }
    if h == rax.head {
      HeadOnly(rax.heap, hole);
    }
    h, trycompress, ctx, t := UnlinkHole(rax, h, child, hole);
  }

  /** The end of raxRemoveCleanup: the dangling child is removed from the node that stays. */
  method UnlinkHole(rax: Rax, h0: Addr, child: Addr, ghost hole: Ctx)
    returns (h: Addr, trycompress: bool, ghost ctx: Ctx, ghost t: Tree)
    requires Hole(rax, hole, child) && h0 == hole.node.addr
    requires hole.up.In? ==> hole.node.key.Some? || |hole.node.kids| > 1
    modifies rax`heap
    ensures Settled(rax, h, CtxStack(hole.up), ctx, t, Around(hole))
    ensures ctx == hole.up && t == RemoveKid(hole.node, hole.idx) && (trycompress <==> Mergeable(t)) && !t.compr
  {
    h := h0;
    HoleUnique(rax.heap, hole, child);
    var idx := FindSlot(rax.heap[h].slots, child, hole.idx);
    ctx, t := hole.up, RemoveKid(hole.node, hole.idx);
    HoleEntries(hole);
    RemoveKidOk(hole.node, hole.idx);
    RemoveChildAtPtr(rax, h, idx, hole, Ptr(child));
    assert Rep(rax.heap, t);
    trycompress := |rax.heap[h].edges| == 1 && rax.heap[h].key.None?;
  }

  // ------------------------------------------------------------------ chains

  /** The bytes spelled by the run of mergeable nodes that starts at `t`. */
  function ChainBytes(t: Tree): seq<byte>
    requires Mergeable(t)
    decreases t
  {
    match t.kids[0]
    case Sub(s) => if Mergeable(s) then t.edges + ChainBytes(s) else t.edges
    case Leaf(_) => t.edges
  }

  /** What hangs below the last node of the run. */
  function ChainEnd(t: Tree): Kid
    requires Mergeable(t)
    decreases t
  {
    match t.kids[0]
    case Sub(s) => if Mergeable(s) then ChainEnd(s) else t.kids[0]
    case Leaf(_) => t.kids[0]
  }

  function ChainNodes(t: Tree): nat
    requires Mergeable(t)
    decreases t
  {
    match t.kids[0]
    case Sub(s) => if Mergeable(s) then 1 + ChainNodes(s) else 1
    case Leaf(_) => 1
  }

  /** A run of mergeable nodes contributes exactly the entries below its end. */
  lemma {:induction false} ChainEntries(t: Tree, pre: Key)
    requires WF(t) && Mergeable(t)
    ensures Entries(t, pre) == KidEntries(ChainEnd(t), pre + ChainBytes(t))
    ensures KidWF(ChainEnd(t))
    ensures 1 <= |t.edges| <= |ChainBytes(t)| && ChainNodes(t) <= |ChainBytes(t)|
    decreases t
  {
    assert KidWF(t.kids[0]);
    SingleKidEntries(t, pre);
    match t.kids[0]
    case Leaf(_) =>
    case Sub(s) =>
      if Mergeable(s) {
        ChainEntries(s, pre + t.edges);
        assert pre + t.edges + ChainBytes(s) == pre + (t.edges + ChainBytes(s));
      }
  }

  lemma SingleKidEntries(t: Tree, pre: Key)
    requires NodeOk(t) && Mergeable(t)
    ensures Entries(t, pre) == KidEntries(t.kids[0], pre + t.edges) && 1 <= |t.edges|
  {
    if !t.compr {
      assert t.edges == [t.edges[0]] && t.edges[1..] == [];
      assert KidsEntries(t.edges, t.kids, pre)
          == KidEntries(t.kids[0], pre + [t.edges[0]]) + KidsEntries(t.edges[1..], t.kids[1..], pre);
    }
  }

  /** The first scan of raxRemove as a function: the nodes and bytes it accepts below `t` before a
      node would push the total past the header's size field. */
  function FirstScan(t: Tree, size: nat, nodes: nat): (nat, nat)
    requires Mergeable(t)
    decreases t
  {
    match t.kids[0]
    case Leaf(_) => (nodes, size)
    case Sub(s) =>
      if !Mergeable(s) || size + |s.edges| > NODE_MAX_SIZE then (nodes, size)
      else FirstScan(s, size + |s.edges|, nodes + 1)
  }

  /** The two scans agree exactly on the chains whose bytes fit into one node: the second one does
      not look at the size, so on longer chains it copies more than was allocated. */
  lemma {:induction false} ScansAgree(t: Tree, size: nat, nodes: nat)
    requires WF(t) && Mergeable(t) && |t.edges| <= size <= NODE_MAX_SIZE
    ensures FirstScan(t, size, nodes) == (nodes + ChainNodes(t) - 1, size - |t.edges| + |ChainBytes(t)|)
        <==> size - |t.edges| + |ChainBytes(t)| <= NODE_MAX_SIZE
    ensures FirstScan(t, size, nodes).1 <= NODE_MAX_SIZE
    ensures nodes <= FirstScan(t, size, nodes).0 <= nodes + ChainNodes(t) - 1
    decreases t
  {
    assert KidWF(t.kids[0]);
    match t.kids[0]
    case Leaf(_) =>
    case Sub(s) =>
      if Mergeable(s) {
        ChainEntries(s, []);
        if size + |s.edges| <= NODE_MAX_SIZE {
          ScansAgree(s, size + |s.edges|, nodes + 1);
        }
      }
  }

  /** The copy of the second scan runs past a node that was sized by the first one: the first scan
      found something to merge and stopped short of the end of the chain. */
  predicate Overruns(t: Tree)
    requires Mergeable(t)
  {
    FirstScan(t, |t.edges|, 1).0 > 1 && |ChainBytes(t)| > NODE_MAX_SIZE
  }

  /** A well-formed live subtree holds at least one key, and every key below it extends the path. */
  lemma {:induction false} LiveEntries(k: Kid, pre: Key)
    requires KidWF(k)
    ensures KidEntries(k, pre) != []
    decreases k
  {
    if k.Sub? && k.node.key.None? {
      var t := k.node;
      assert WF(t) && Live(t) && KidsWF(t.kids);
      assert KidWF(t.kids[0]);
      if t.compr {
        LiveEntries(t.kids[0], pre + t.edges);
      } else {
        LiveEntries(t.kids[0], pre + [t.edges[0]]);
      }
      assert Below(t, pre) != [];
    }
  }

  /** A chain longer than a node can be implies a key longer than that. */
  lemma LongChainLongKey(ctx: Ctx, t: Tree)
    requires CtxOk(ctx) && WF(t) && Mergeable(t)
    ensures exists k :: k in MapOf(Entries(Plug(ctx, Sub(t)), [])) && |k| >= |ChainBytes(t)|
  {
    var pre := CtxKey(ctx);
    ChainEntries(t, pre);
    LiveEntries(ChainEnd(t), pre + ChainBytes(t));
    KidEntriesUnder(ChainEnd(t), pre + ChainBytes(t));
    var es := Entries(t, pre);
    var k := es[0].key;
    assert pre + ChainBytes(t) <= k;
    EntriesUnder(t, pre);
    MapOfKeys(es, k);
    LookupAt(ctx, Sub(t), k);
  }

  // ------------------------------------------------------------------ recompression

  /** The first node of the chain that goes through `t`, and where it hangs. */
  ghost function ChainTop(ctx: Ctx, t: Tree): (at: (Ctx, Tree))
    requires CtxOk(ctx) && Mergeable(t)
    ensures CtxOk(at.0) && Mergeable(at.1)
    decreases ctx
  {
    if ctx.In? && Mergeable(ctx.node) then ChainTop(ctx.up, Put(ctx.node, ctx.idx, Sub(t))) else (ctx, t)
  }

  /** The loop that climbs from the changed node to the first node of its chain. */
  method SeekStart(rax: Rax, h0: Addr, stack0: seq<Addr>, ghost ctx0: Ctx, ghost t0: Tree, ghost es: seq<Entry>)
    returns (h: Addr, parent: Option<Addr>, ghost ctx: Ctx, ghost t: Tree)
    requires Settled(rax, h0, stack0, ctx0, t0, es) && Mergeable(t0)
    ensures Settled(rax, h, CtxStack(ctx), ctx, t, es) && Mergeable(t)
    ensures (ctx, t) == ChainTop(ctx0, t0)
    ensures parent == if ctx.In? then Some(ctx.node.addr) else None
  {
    var stack := stack0;
    h, ctx, t := h0, ctx0, t0;
    while true
      invariant Settled(rax, h, stack, ctx, t, es) && Mergeable(t)
      invariant ChainTop(ctx, t) == ChainTop(ctx0, t0)
      decreases ctx
    {
      if stack == [] {
        return h, None, ctx, t;
      }
      var p := stack[|stack| - 1];
      stack := stack[..|stack| - 1];
      var n := rax.heap[p];
      if n.key.Some? || (!n.compr && |n.edges| != 1) {
        return h, Some(p), ctx, t;
      }
      var up := Put(ctx.node, ctx.idx, Sub(t));
      Up(rax.heap, rax.head, ctx, Sub(t));
      forall j | 0 <= j < |up.kids| ensures KidWF(up.kids[j]) {}
      ctx, t, h := ctx.up, up, p;
    }
  }

  /** The first scan. */
  method ScanChain(rax: Rax, start: Addr, ghost ctx: Ctx, ghost t: Tree) returns (nodes: nat, comprsize: nat)
    requires Holds(rax.heap, rax.head, ctx, Sub(t)) && WF(t) && Mergeable(t) && start == t.addr
    ensures (nodes, comprsize) == FirstScan(t, |t.edges|, 1)
  {
    assert Rep(rax.heap, t);
    var h := start;
    ghost var cur := t;
    comprsize, nodes := |rax.heap[h].edges|, 1;
    while rax.heap[h].edges != []
      invariant Rep(rax.heap, cur) && h == cur.addr && WF(cur) && Mergeable(cur)
      invariant FirstScan(t, |t.edges|, 1) == FirstScan(cur, comprsize, nodes)
      decreases cur
    {
      assert KidWF(cur.kids[0]) && RepKid(rax.heap, cur.kids[0]);
      match rax.heap[h].slots[0]
      case Inline(_) => return;
      case Ptr(a) =>
        ghost var s := cur.kids[0].node;
        assert Rep(rax.heap, s) && WF(s);
        var n := rax.heap[a];
        if n.key.Some? || (!n.compr && |n.edges| != 1) {
          return;
        }
        if comprsize + |n.edges| > NODE_MAX_SIZE {
          return;
        }
        h, cur := a, s;
        nodes, comprsize := nodes + 1, comprsize + |n.edges|;
    }
  }

  /** Freeing one node of a chain leaves its child stored and everything else in use. */
  lemma FreeChainNode(h: Heap, bag: multiset<Addr>, s: Tree)
    requires Rep(h, s) && |s.kids| == 1 && Owns(h, bag + KidBag(Sub(s)))
    ensures Owns(h - {s.addr}, bag + KidBag(s.kids[0])) && RepKid(h - {s.addr}, s.kids[0])
    ensures s.addr in h && s.addr !in bag
  {
    var kid := s.kids[0];
    assert KidBag(Sub(s)) == Bag(s) == multiset{s.addr} + KidsBag(s.kids);
    assert KidsBag(s.kids) == KidBag(kid) + KidsBag(s.kids[1..]);
    assert bag + KidBag(Sub(s)) == bag + KidBag(kid) + multiset{s.addr};
    RaxInsert.OwnsRemove(h, bag + KidBag(kid), s.addr);
    assert RepKid(h, kid);
    RepFrame(h, h - {s.addr}, kid);
  }

  ghost predicate Kept(h0: Heap, h: Heap, bag: multiset<Addr>) {
    forall a | a in bag :: a in h0 && a in h && h[a] == h0[a]
  }

  lemma KeptSelf(h: Heap, bag: multiset<Addr>, more: multiset<Addr>)
    requires Owns(h, bag + more)
    ensures Kept(h, h, bag)
  {
    forall a | a in bag ensures a in h { assert a in bag + more; }
  }

  lemma ChainStep(data: seq<byte>, s: Tree)
    requires Mergeable(s)
    ensures match s.kids[0]
            case Leaf(_) => data + ChainBytes(s) == data + s.edges && ChainEnd(s) == s.kids[0] && ChainNodes(s) == 1
            case Sub(k) =>
              if Mergeable(k)
              then data + ChainBytes(s) == data + s.edges + ChainBytes(k) && ChainEnd(s) == ChainEnd(k)
                   && ChainNodes(s) == 1 + ChainNodes(k)
              else data + ChainBytes(s) == data + s.edges && ChainEnd(s) == s.kids[0] && ChainNodes(s) == 1
  {
  }

  /** The second scan: copies the bytes of the chain and frees its nodes. `bag` is everything in use outside the chain. */
  method CollectChain(rax: Rax, start: Addr, ghost t: Tree, ghost bag: multiset<Addr>)
    returns (data: seq<byte>, slot: Slot)
    requires Rep(rax.heap, t) && WF(t) && Mergeable(t) && start == t.addr
    requires Owns(rax.heap, bag + KidBag(Sub(t)))
    requires rax.numnodes == |rax.heap|
    modifies rax`heap, rax`numnodes
    ensures data == ChainBytes(t) && slot == SlotOf(ChainEnd(t))
    ensures RepKid(rax.heap, ChainEnd(t)) && Owns(rax.heap, bag + KidBag(ChainEnd(t)))
    ensures Kept(old(rax.heap), rax.heap, bag)
    ensures start !in rax.heap
    ensures rax.numnodes == |rax.heap| == |old(rax.heap)| - ChainNodes(t)
  {
    var h := start;
    ghost var cur, h0 := t, rax.heap;
    data := [];
    slot := Ptr(start);
    KeptSelf(h0, bag, KidBag(Sub(t)));
    while rax.heap[h].edges != []
      invariant Rep(rax.heap, cur) && h == cur.addr && WF(cur) && Mergeable(cur)
      invariant Owns(rax.heap, bag + KidBag(Sub(cur)))
      invariant data + ChainBytes(cur) == ChainBytes(t) && ChainEnd(cur) == ChainEnd(t)
      invariant Kept(h0, rax.heap, bag)
      invariant cur == t || start !in rax.heap
      invariant rax.numnodes == |rax.heap| == |h0| - (ChainNodes(t) - ChainNodes(cur))
      decreases cur
    {
      var n := rax.heap[h];
      assert KidWF(cur.kids[0]);
      ChainStep(data, cur);
      data := data + n.edges;
      slot := n.slots[|n.slots| - 1];
      FreeChainNode(rax.heap, bag, cur);
      Free(rax, h);
      rax.numnodes := rax.numnodes - 1;
      match slot
      case Inline(_) => return;
      case Ptr(a) =>
        ghost var s := cur.kids[0].node;
        assert Rep(rax.heap, s) && WF(s);
        n := rax.heap[a];
        if n.key.Some? || (!n.compr && |n.edges| != 1) {
          return;
        }
        h, cur := a, s;
    }
  }

  /** The second half of recompression: one new node replaces the chain. The node was allocated for
      `comprsize` bytes. When the chain has more, the copy runs past the block, and the model stops
      there with `overrun`. */
  method MergeChain(rax: Rax, start: Addr, parent: Option<Addr>, comprsize: nat, ghost ctx: Ctx, ghost t: Tree)
    returns (overrun: bool, ghost t2: Tree)
    requires Holds(rax.heap, rax.head, ctx, Sub(t)) && WF(t) && Mergeable(t) && start == t.addr
    requires parent == if ctx.In? then Some(ctx.node.addr) else None
    requires ChainNodes(t) > 1 && comprsize <= NODE_MAX_SIZE
    requires rax.numnodes == |rax.heap|
    modifies rax`heap, rax`head, rax`numnodes
    ensures overrun <==> |ChainBytes(t)| > comprsize
    ensures !overrun ==> Holds(rax.heap, rax.head, ctx, Sub(t2)) && WF(t2) && Live(t2)
    ensures !overrun ==> t2 == RaxInsert.OneChild(t2.addr, None, ChainBytes(t), ChainEnd(t))
    ensures !overrun ==> Entries(Plug(ctx, Sub(t2)), []) == Entries(Plug(ctx, Sub(t)), [])
    ensures !overrun ==> rax.numnodes == |rax.heap| == old(rax.numnodes) - (ChainNodes(t) - 1)
  {
    ghost var h0 := rax.heap;
    ChainEntries(t, CtxKey(ctx));
    var node, data, slot := ReplaceChain(rax, start, ctx, t);
    t2 := RaxInsert.OneChild(node, None, data, ChainEnd(t));
    overrun := |data| > comprsize;
    if overrun {
      return;
    }
    RaxInsert.OneChildEntries(node, None, data, ChainEnd(t), CtxKey(ctx));
    RaxInsert.SameEntries(ctx, Sub(t), Sub(t2));
    match parent
    case Some(p) =>
      HoleUnique(rax.heap, ctx, start);
      var idx := FindSlot(rax.heap[p].slots, start, ctx.idx);
      WriteLink(rax, SlotLink(p, idx), Ptr(node));
    case None =>
      WriteLink(rax, HeadLink, Ptr(node));
  }

  /** The new node is filled from the chain, which is freed; the parent still points at its start. */
  method ReplaceChain(rax: Rax, start: Addr, ghost ctx: Ctx, ghost t: Tree) returns (node: Addr, data: seq<byte>, slot: Slot)
    requires Holds(rax.heap, rax.head, ctx, Sub(t)) && WF(t) && Mergeable(t) && start == t.addr
    requires |ChainBytes(t)| > 1
    requires rax.numnodes == |rax.heap|
    modifies rax`heap, rax`numnodes
    ensures data == ChainBytes(t)
    ensures CtxRep(rax.heap, ctx, Ptr(start)) && start !in rax.heap
    ensures ctx.In? ==> ctx.node.addr in rax.heap && ctx.idx < |rax.heap[ctx.node.addr].slots|
    ensures Holds(LinkHeap(rax.heap, LinkOf(ctx), Ptr(node)), if ctx.Top? then node else rax.head, ctx,
                  Sub(RaxInsert.OneChild(node, None, data, ChainEnd(t))))
    ensures rax.numnodes == |rax.heap| == old(rax.numnodes) - (ChainNodes(t) - 1)
  {
    hide SlotsOf, SlotOf;
    ghost var h0 := rax.heap;
    assert Rep(h0, t);
    node := Malloc(rax, Node(None, true, [], []));
    rax.numnodes := rax.numnodes + 1;
    ghost var bag := CtxBag(ctx) + multiset{node};
    NewBeside(h0, CtxBag(ctx), t, node, rax.heap[node]);
    ghost var h1 := rax.heap;
    data, slot := CollectChain(rax, start, t, bag);
    ghost var h2 := rax.heap;
    KeptAcross(h0, h1, h2, node, CtxBag(ctx));
    Filled(h2, CtxBag(ctx), KidBag(ChainEnd(t)), node, Node(None, true, data, [slot]));
    rax.heap := rax.heap[node := Node(None, true, data, [slot])];
    MergedHeap(h0, rax.head, ctx, t, h2, rax.heap, node, RaxInsert.OneChild(node, None, data, ChainEnd(t)));
  }

  lemma Filled(h: Heap, bag: multiset<Addr>, more: multiset<Addr>, node: Addr, n: Node)
    requires Owns(h, bag + multiset{node} + more)
    ensures node in h && h[node := n].Keys == h.Keys && |h[node := n]| == |h|
  {
    assert node in bag + multiset{node} + more;
  }

  lemma NewBeside(h: Heap, bag: multiset<Addr>, t: Tree, node: Addr, n: Node)
    requires Rep(h, t) && Owns(h, bag + KidBag(Sub(t))) && node !in h
    ensures Rep(h[node := n], t)
    ensures Owns(h[node := n], bag + multiset{node} + KidBag(Sub(t)))
  {
    RepFrame(h, h[node := n], Sub(t));
    RaxInsert.OwnsAdd(h, bag + KidBag(Sub(t)), node, n);
    assert bag + multiset{node} + KidBag(Sub(t)) == bag + KidBag(Sub(t)) + multiset{node};
  }

  lemma KeptAcross(h0: Heap, h1: Heap, h2: Heap, node: Addr, bag: multiset<Addr>)
    requires node !in h0 && (forall a | a in h0 :: a in h1 && h1[a] == h0[a])
    requires Kept(h1, h2, bag + multiset{node})
    ensures forall a | a in bag && a in h0 :: a in h2 && h2[a] == h0[a]
  {
    forall a | a in bag && a in h0 ensures a in h2 && h2[a] == h0[a] {
      assert a in bag + multiset{node};
    }
  }

  lemma MergedHeap(h0: Heap, head: Addr, ctx: Ctx, t: Tree, h1: Heap, h2: Heap, node: Addr, t2: Tree)
    requires Holds(h0, head, ctx, Sub(t)) && Mergeable(t) && |ChainBytes(t)| > 1
    requires t2 == RaxInsert.OneChild(node, None, ChainBytes(t), ChainEnd(t))
    requires h2 == h1[node := Node(None, true, ChainBytes(t), [SlotOf(ChainEnd(t))])]
    requires RepKid(h1, ChainEnd(t)) && Owns(h1, CtxBag(ctx) + multiset{node} + KidBag(ChainEnd(t)))
    requires forall a | a in CtxBag(ctx) && a in h0 :: a in h1 && h1[a] == h0[a]
    ensures CtxRep(h2, ctx, Ptr(t.addr))
    ensures ctx.In? ==> ctx.node.addr in h2 && ctx.idx < |h2[ctx.node.addr].slots|
    ensures Holds(LinkHeap(h2, LinkOf(ctx), Ptr(node)), if ctx.Top? then node else head, ctx, Sub(t2))
  {
    MergedBelow(h1, CtxBag(ctx), node, ChainBytes(t), ChainEnd(t));
    CtxRepFrame(h0, h2, ctx, Ptr(t.addr));
    Replace(h0, head, ctx, Sub(t), h2, Sub(t2));
  }

  lemma MergedBelow(h: Heap, bag: multiset<Addr>, node: Addr, data: seq<byte>, kid: Kid)
    requires RepKid(h, kid) && Owns(h, bag + multiset{node} + KidBag(kid)) && |data| > 1
    ensures var h2 := h[node := Node(None, true, data, [SlotOf(kid)])];
            var t2 := RaxInsert.OneChild(node, None, data, kid);
            RepKid(h2, Sub(t2)) && Owns(h2, bag + KidBag(Sub(t2)))
    ensures node in h && node !in bag
  {
    var h2 := h[node := Node(None, true, data, [SlotOf(kid)])];
    assert bag + multiset{node} + KidBag(kid) == bag + KidBag(kid) + multiset{node};
    RaxInsert.OwnsRemove(h, bag + KidBag(kid), node);
    assert h2.Keys == h.Keys;
    RepFrame(h, h2, kid);
    RaxInsert.OneChildRep(h2, node, None, data, kid);
    assert bag + KidBag(Sub(RaxInsert.OneChild(node, None, data, kid))) == bag + KidBag(kid) + multiset{node};
  }

  // ------------------------------------------------------------------ raxRemove

  lemma RemoveBetween(a: seq<Entry>, k: Key, v: Val, b: seq<Entry>)
    requires AllLess(a, k) && AllMore(b, k)
    ensures k in MapOf(a + [Entry(k, v)] + b) && MapOf(a + [Entry(k, v)] + b)[k] == v
    ensures MapOf(a + b) == MapOf(a + [Entry(k, v)] + b) - {k}
  {
    MapOfThree(a, [Entry(k, v)], b);
    assert [Entry(k, v)][..0] == [];
    MapOfAppend(a, b);
    AbsentIfOrdered(a, k);
    AbsentIfOrdered(b, k);
  }

  lemma SizeMinusOne(m: map<Key, Val>, k: Key)
    requires k in m
    ensures |m - {k}| == |m| - 1
  {
    assert (m - {k}).Keys == m.Keys - {k};
  }

  /** The node that changed when the key at a position was taken away, and where it hangs: a node
      that became useless is cleaned up first. */
  ghost function Unlinked(ctx: Ctx, kid: Kid): (at: (Ctx, Tree))
    requires CtxOk(ctx) && (kid.Leaf? ==> ctx.In?)
    ensures CtxOk(at.0)
  {
    var (up, t) := if kid.Leaf? then (ctx.up, RemoveKid(ctx.node, ctx.idx)) else (ctx, kid.node.(key := None));
    if t.kids == [] && t.key.None? then Cleaned(up, t) else (up, t)
  }

  /** The test for recompression: the changed node is no key and has a single edge byte. */
  predicate Tries(t: Tree) {
    Mergeable(t) && |t.edges| == 1
  }

  /** Removing an inline leaf. */
  method RemoveInline(rax: Rax, s: Key, h: Addr, link: Link, stack: seq<Addr>, ghost ctx: Ctx, ghost kid: Kid)
    returns (h2: Addr, stack2: seq<Addr>, trycompress: bool, ghost ctx2: Ctx, ghost t: Tree)
    requires Holds(rax.heap, rax.head, ctx, kid) && kid.Leaf? && link == LinkOf(ctx) && h == ctx.node.addr
    requires stack == CtxStack(ctx.up) && rax.numnodes == |rax.heap|
    modifies rax`heap, rax`numnodes
    ensures Settled(rax, h2, stack2, ctx2, t, Around(ctx))
    ensures (ctx2, t) == Unlinked(ctx, kid) && (trycompress <==> Tries(t))
  {
    assert CtxBag(ctx) + KidBag(kid) == CtxBag(ctx);
    RemoveChildAtPtr(rax, h, link.idx, ctx, SlotOf(kid));
    ctx2, t := ctx.up, RemoveKid(ctx.node, ctx.idx);
    HoleEntries(ctx);
    RemoveKidOk(ctx.node, ctx.idx);
    assert Rep(rax.heap, t);
    var n := rax.heap[h];
    h2, stack2, trycompress := h, stack, false;
    if n.edges == [] && n.key.None? {
      DeadEntries(ctx2, t);
      h2, stack2, trycompress, ctx2, t := RemoveCleanup(rax, h, stack, ctx2, t);
    } else if |n.edges| == 1 && n.key.None? {
      trycompress := true;
    }
  }

  /** A node without children that is no key contributes nothing. */
  lemma DeadEntries(ctx: Ctx, t: Tree)
    requires CtxOk(ctx) && t.kids == [] && t.key.None?
    ensures Entries(Plug(ctx, Sub(t)), []) == Around(ctx)
  {
    PlugEntries(ctx, Sub(t));
    RaxInsert.ChildlessEntries(t, CtxKey(ctx));
    NothingBetween(CtxBefore(ctx), CtxAfter(ctx));
  }

  /** Removing the key of a real node. */
  method RemoveKeyNode(rax: Rax, h: Addr, stack: seq<Addr>, ghost ctx: Ctx, ghost t: Tree)
    returns (h2: Addr, stack2: seq<Addr>, trycompress: bool, ghost ctx2: Ctx, ghost t2: Tree)
    requires Holds(rax.heap, rax.head, ctx, Sub(t)) && WF(t) && h == t.addr && t.key.Some?
    requires stack == CtxStack(ctx) && rax.numnodes == |rax.heap|
    modifies rax`heap, rax`numnodes
    ensures Settled(rax, h2, stack2, ctx2, t2, CtxBefore(ctx) + (Below(t, CtxKey(ctx)) + CtxAfter(ctx)))
    ensures (ctx2, t2) == Unlinked(ctx, Sub(t)) && (trycompress <==> Tries(t2))
  {
    hide Bag, KidBag, KidsBag, CtxBag, Owns, Entries, Below, KidEntries, KidsEntries, MapOf, Own, CtxBefore,
         CtxAfter, Plug, CtxKey, LeftOf, RightOf;
    ghost var h0 := rax.heap;
    assert Rep(h0, t);
    ctx2, t2 := ctx, t.(key := None);
    rax.heap := rax.heap[h := rax.heap[h].(key := None)];
    assert rax.heap == (h0 - {h})[h := NodeOf(t2)] && rax.heap.Keys == h0.Keys;
    RaxInsert.Rewritten(h0, rax.head, ctx, t, rax.heap, t2);
    KidsKeptLink(h0, rax.head, ctx, t, rax.heap);
    UnkeyedEntries(ctx, t);
    h2, stack2, trycompress := h, stack, false;
    assert Rep(rax.heap, t2);
    if rax.heap[h].edges == [] {
      DeadEntries(ctx, t2);
      h2, stack2, trycompress, ctx2, t2 := RemoveCleanup(rax, h, stack, ctx, t2);
    } else if |rax.heap[h].edges| == 1 {
      trycompress := true;
    }
  }

  lemma KidsKeptLink(h0: Heap, head: Addr, ctx: Ctx, t: Tree, h: Heap)
    requires Holds(h0, head, ctx, Sub(t))
    requires forall a | a in h0 && a != t.addr :: a in h && h[a] == h0[a]
    ensures ctx.In? ==> ctx.node.addr in h && ctx.idx < |h[ctx.node.addr].slots|
    ensures LinkHeap(h, LinkOf(ctx), Ptr(t.addr)) == h
  {
    RaxInsert.KidsKept(h0, head, ctx, t, h);
    if ctx.In? {
      assert ctx.node.addr in CtxBag(ctx);
    }
    RaxInsert.SameLink(h, ctx, Ptr(t.addr), h0);
  }

  lemma UnkeyedEntries(ctx: Ctx, t: Tree)
    requires CtxOk(ctx)
    ensures Entries(Plug(ctx, Sub(t.(key := None))), [])
         == CtxBefore(ctx) + (Below(t, CtxKey(ctx)) + CtxAfter(ctx))
  {
    var t2, pre := t.(key := None), CtxKey(ctx);
    PlugEntries(ctx, Sub(t2));
    assert Below(t2, pre) == Below(t, pre);
    assert Entries(t2, pre) == Below(t, pre);
    Assoc(CtxBefore(ctx), Below(t, pre), CtxAfter(ctx));
  }

  /** What recompression makes of the first node of a chain. */
  ghost predicate Merged(t: Tree, t2: Tree)
    requires Mergeable(t)
  {
    if FirstScan(t, |t.edges|, 1).0 == 1 then t2 == t
    else t2 == RaxInsert.OneChild(t2.addr, None, ChainBytes(t), ChainEnd(t))
  }

  /** The end of raxRemove: the chain through the changed node is merged, or the copy overruns. */
  method Recompress(rax: Rax, h: Addr, stack: seq<Addr>, ghost ctx0: Ctx, ghost t0: Tree, ghost es: seq<Entry>)
    returns (overrun: bool, ghost ctx: Ctx, ghost t: Tree)
    requires Settled(rax, h, stack, ctx0, t0, es) && Mergeable(t0)
    modifies rax`heap, rax`head, rax`numnodes
    ensures overrun <==> Overruns(ChainTop(ctx0, t0).1)
    ensures overrun ==> exists k :: k in MapOf(es) && |k| > NODE_MAX_SIZE
    ensures !overrun ==> Settled(rax, t.addr, CtxStack(ctx), ctx, t, es)
    ensures !overrun ==> ctx == ChainTop(ctx0, t0).0 && Merged(ChainTop(ctx0, t0).1, t)
  {
    var start, parent;
    start, parent, ctx, t := SeekStart(rax, h, stack, ctx0, t0, es);
    ChainEntries(t, CtxKey(ctx));
    ScansAgree(t, |t.edges|, 1);
    var nodes, comprsize := ScanChain(rax, start, ctx, t);
    LongChainLongKey(ctx, t);
    overrun := false;
    if nodes > 1 {
      overrun, t := MergeChain(rax, start, parent, comprsize, ctx, t);
    }
  }

  /** raxRemove up to recompression. When the key is found, `es` is what the tree holds
      without it. */
  method Unlink(rax: Rax, s: Key)
    returns (removed: bool, prev: Option<Val>, h: Addr, stack: seq<Addr>, trycompress: bool, ghost ctx: Ctx, ghost t: Tree, ghost es: seq<Entry>)
    requires rax.Valid()
    modifies rax`heap, rax`numnodes, rax`numele
    ensures removed <==> s in old(rax.Content())
    ensures prev == if removed then Some(old(rax.Content())[s]) else None
    ensures !removed ==> rax.Valid()
    ensures removed ==> Settled(rax, h, stack, ctx, t, es) && MapOf(es) == old(rax.Content()) - {s}
    ensures removed ==> rax.numele == old(rax.numele) - 1
    ensures removed ==> (ctx, t) == UnlinkedAt(old(rax.tree), s)
    ensures trycompress <==> removed && Tries(t)
  {
    var i, link, splitpos, inline;
    ghost var kid;
    i, h, link, splitpos, stack, inline, ctx, kid := LowWalk(rax, s);
    CtxKeyWithin(ctx, kid, s, i, splitpos, inline);
    LookupAt(ctx, kid, s);
    removed, prev, trycompress, t, es := false, None, false, rax.tree, [];
    if inline {
      LeafLookup(kid, CtxKey(ctx), s);
      if i != |s| {
        return;
      }
      assert s[..i] == s;
      LeafGone(ctx, kid, s);
      prev := Some(rax.heap[link.parent].slots[link.idx].val);
      es := Around(ctx);
      h, stack, trycompress, ctx, t := RemoveInline(rax, s, h, link, stack, ctx, kid);
    } else {
      t := kid.node;
      assert Rep(rax.heap, t);
      StoppedLookup(t, CtxKey(ctx), s, i, splitpos);
      if i != |s| || (rax.heap[h].compr && splitpos != 0) || rax.heap[h].key.None? {
        return;
      }
      prev := rax.heap[h].key;
      es := CtxBefore(ctx) + (Below(t, s) + CtxAfter(ctx));
      KeyNodeEntries(ctx, t, s);
      h, stack, trycompress, ctx, t := RemoveKeyNode(rax, h, stack, ctx, t);
    }
    removed := true;
    rax.numele := rax.numele - 1;
  }

  lemma LeafGone(ctx: Ctx, kid: Kid, s: Key)
    requires CtxOk(ctx) && Fits(ctx, kid) && kid.Leaf? && CtxKey(ctx) == s
    ensures MapOf(Around(ctx)) == MapOf(Entries(Plug(ctx, kid), [])) - {s}
  {
    PlugEntries(ctx, kid);
    CtxOrder(ctx, s);
    RemoveBetween(CtxBefore(ctx), s, kid.val, CtxAfter(ctx));
  }

  /** The node of a tree that changes when the key `s` is taken away. */
  ghost function UnlinkedAt(tree: Tree, s: Key): (at: (Ctx, Tree))
    requires WF(tree)
    ensures CtxOk(at.0)
  {
    var (ctx, kid) := Located(Top, Sub(tree), s);
    Unlinked(ctx, kid)
  }

  /** When removing the key `s` runs past the new node: recompression is tried at the changed node,
      and the first scan of its chain stops in the middle. */
  ghost predicate RemovalOverruns(tree: Tree, s: Key)
    requires WF(tree)
  {
    var (ctx, t) := UnlinkedAt(tree, s);
    Tries(t) && Overruns(ChainTop(ctx, t).1)
  }

  /** The tree after a removal that does not overrun. */
  ghost predicate RemovedTree(tree: Tree, s: Key, tree2: Tree)
    requires WF(tree)
  {
    var (ctx, t) := UnlinkedAt(tree, s);
    if !Tries(t) then tree2 == Plug(ctx, Sub(t))
    else
      var (ctx2, t2) := ChainTop(ctx, t);
      exists t3 :: Merged(t2, t3) && tree2 == Plug(ctx2, Sub(t3))
  }

  /** raxRemove. `overrun` reports that recompression ran past its new block. It does not happen
      unless some key is longer than one node can hold, and exactly when `RemovalOverruns` says so;
      otherwise the key is gone and nothing else has changed. */
  method Remove(rax: Rax, s: Key) returns (removed: bool, prev: Option<Val>, overrun: bool)
    requires rax.Valid()
    modifies rax
    ensures removed <==> s in old(rax.Content())
    ensures prev == if removed then Some(old(rax.Content())[s]) else None
    ensures !overrun ==> rax.Valid() && rax.Content() == old(rax.Content()) - {s}
    ensures overrun ==> exists k :: k in old(rax.Content()) && |k| > NODE_MAX_SIZE
    ensures overrun <==> removed && RemovalOverruns(old(rax.tree), s)
    ensures removed && !overrun ==> RemovedTree(old(rax.tree), s, rax.tree)
  {
    ghost var m := rax.Content();
    var h, stack, trycompress;
    ghost var ctx, t, es;
    removed, prev, h, stack, trycompress, ctx, t, es := Unlink(rax, s);
    overrun := false;
    if !removed {
      assert m - {s} == m;
      return;
    }
    SizeMinusOne(m, s);
    if trycompress {
      overrun, ctx, t := Recompress(rax, h, stack, ctx, t, es);
      if overrun {
        return;
      }
    }
    rax.tree := Plug(ctx, Sub(t));
    ToTop(rax.heap, rax.head, ctx, Sub(t));
    PlugWF(ctx, Sub(t));
  }

  lemma KeyNodeEntries(ctx: Ctx, t: Tree, s: Key)
    requires CtxOk(ctx) && WF(t) && t.key.Some? && s == CtxKey(ctx)
    ensures MapOf(CtxBefore(ctx) + (Below(t, s) + CtxAfter(ctx))) == MapOf(Entries(Plug(ctx, Sub(t)), [])) - {s}
  {
    var a, b := CtxBefore(ctx), Below(t, s) + CtxAfter(ctx);
    PlugEntries(ctx, Sub(t));
    EntriesSorted(t, s);
    CtxOrder(ctx, s);
    Regroup3(a, [Entry(s, t.key.value)], Below(t, s), CtxAfter(ctx));
    RemoveBetween(a, s, t.key.value, b);
  }
}
