/** The iterator of rax.c: single steps, seeking, and whole scans. */
module RaxIter {
  import opened Keys
  import opened Seqs
  import opened RaxTree
  import opened RaxZipper
  import opened RaxHeap
  import opened RaxCore

  class RaxIterator {
    const rt: Rax
    var justSeeked: bool  // RAX_ITER_JUST_SEEKED
    var eof: bool         // RAX_ITER_EOF
    var inlineLeaf: bool  // RAX_ITER_INLINE_LEAF
    var key: Key
    var data: Val
    var node: Addr        // the parent node when inlineLeaf is set
    var nodeChild: int    // -1 when unknown
    var stack: seq<Addr>
    /** The position that node, nodeChild and stack stand for. */
    ghost var ctx: Ctx
    ghost var kid: Kid

    /** raxStart. */
    constructor (rt: Rax)
      ensures this.rt == rt && eof
    {
      this.rt := rt;
      justSeeked, eof, inlineLeaf := false, true, false;
      key, data, node, nodeChild, stack := [], NULL, 0, -1, [];
      ctx := Top;
      kid := Leaf(NULL);
    }

    /** The fields agree with the position. */
    ghost predicate At()
      reads this, rt
    {
      && Holds(rt.heap, rt.head, ctx, kid)
      && Path(ctx, kid)
      && Plug(ctx, kid) == rt.tree
      && key == CtxKey(ctx)
      && (if inlineLeaf
          then kid.Leaf? && node == ctx.node.addr && stack == CtxStack(ctx.up) && data == kid.val
          else kid.Sub? && node == kid.node.addr && stack == CtxStack(ctx))
      && (nodeChild == -1 || (ctx.In? && nodeChild == ctx.idx))
    }

    /** The position is a key, and `data` is its value. */
    ghost predicate OnKey()
      reads this, rt
    {
      At() && (inlineLeaf || kid.node.key == Some(data))
    }

    /** The entries after the current key, in order. */
    ghost function After(): seq<Entry>
      reads this
      requires CtxOk(ctx)
    {
      (if kid.Leaf? then [] else Below(kid.node, CtxKey(ctx))) + CtxAfter(ctx)
    }
  }

  ghost function All(rt: Rax): seq<Entry>
    reads rt
  {
    Entries(rt.tree, [])
  }

  /** On a key, the entries of the tree are those before the position, the key, and those after. */
  lemma OnKeySplit(it: RaxIterator)
    requires it.OnKey()
    ensures All(it.rt) == CtxBefore(it.ctx) + [Entry(it.key, it.data)] + it.After()
  {
    PlugEntries(it.ctx, it.kid);
    if it.kid.Sub? {
      Regroup3(CtxBefore(it.ctx), [Entry(it.key, it.data)], Below(it.kid.node, it.key), CtxAfter(it.ctx));
    } else {
      assert [] + CtxAfter(it.ctx) == CtxAfter(it.ctx);
    }
  }

  // ------------------------------------------------------------------ measures

  function KidWeight(k: Kid): nat
    decreases k, 1
  {
    match k
    case Leaf(_) => 1
    case Sub(s) => 4 + KidsWeight(s.kids)
  }

  function KidsWeight(kids: seq<Kid>): nat
    decreases kids, 0
  {
    if kids == [] then 0 else KidWeight(kids[0]) + KidsWeight(kids[1..])
  }

  /** How much is left to visit to the right of a position. */
  function UpWeight(ctx: Ctx): nat {
    match ctx
    case Top => 0
    case In(up, node, idx) => 1 + (if idx < |node.kids| then KidsWeight(node.kids[idx + 1..]) else 0) + UpWeight(up)
  }

  // ------------------------------------------------------------------ entering a child

  /** What lies at and after child `i` of `t`. */
  lemma RightStep(t: Tree, i: nat, pre: Key)
    requires NodeOk(t) && i < |t.kids|
    ensures (if t.compr then Below(t, pre) else RightOf(t, i, pre))
         == KidEntries(t.kids[i], pre + Label(t, i)) + RightOf(t, i + 1, pre)
    ensures KidsWeight(t.kids[i..]) == KidWeight(t.kids[i]) + KidsWeight(t.kids[i + 1..])
  {
    assert t.kids[i..][1..] == t.kids[i + 1..];
    if !t.compr {
      assert t.edges[i..][1..] == t.edges[i + 1..];
    }
  }

  /** The iterator stands on node `t` at `c`, whatever its child index says. */
  ghost predicate OnNode(it: RaxIterator, c: Ctx, t: Tree)
    reads it, it.rt
  {
    && Holds(it.rt.heap, it.rt.head, c, Sub(t))
    && Path(c, Sub(t)) && WF(t)
    && Plug(c, Sub(t)) == it.rt.tree
    && it.node == t.addr
    && it.stack == CtxStack(c)
    && !it.inlineLeaf
  }

  /** raxIteratorEnterChild (without a node callback). */
  method EnterChild(it: RaxIterator, idx: nat, ghost c: Ctx, ghost t: Tree)
    requires OnNode(it, c, t) && it.key == CtxKey(c) && idx < |t.kids|
    modifies it`key, it`data, it`node, it`nodeChild, it`stack, it`inlineLeaf, it`ctx, it`kid
    ensures it.At() && it.ctx == In(c, t, idx) && it.kid == t.kids[idx]
    ensures !it.inlineLeaf && it.kid.node.key.Some? ==> it.data == it.kid.node.key.value
  {
    PathPlug(c, Sub(t));
    assert Rep(it.rt.heap, t);
    var n := it.rt.heap[it.node];
    it.key := it.key + if n.compr then n.edges else [n.edges[idx]];
    Down(it.rt.heap, it.rt.head, c, t, idx);
    it.ctx, it.kid := In(c, t, idx), t.kids[idx];
    match n.slots[idx]
    case Inline(v) =>
      it.data := v;
      it.nodeChild := idx;
      it.inlineLeaf := true;
    case Ptr(a) =>
      it.stack := it.stack + [it.node];
      it.node := a;
      it.nodeChild := idx;
      assert Rep(it.rt.heap, it.kid.node);
      var m := it.rt.heap[it.node];
      it.data := if m.key.Some? then m.key.value else NULL;
  }

  // ------------------------------------------------------------------ raxIteratorNextStep

  /** The edges below index `nx` are at most `c`, the others are larger. */
  ghost predicate Cut(edges: seq<byte>, nx: nat, c: byte) {
    && nx <= |edges|
    && (forall x | 0 <= x < nx :: edges[x] <= c)
    && (forall x | nx <= x < |edges| :: c < edges[x])
  }

  /** The child after the one left is `nx`, found by the cached index or else by the byte. */
  ghost predicate NextIs(t: Tree, childidx: int, c: byte, nx: nat) {
    !t.compr ==> (childidx == -1 && Cut(t.edges, nx, c)) || (childidx != -1 && childidx == nx - 1)
  }

  /** The iterator stands on `t`, its key still carrying the bytes of a child. */
  ghost predicate AboveKids(it: RaxIterator, c: Ctx, t: Tree)
    reads it, it.rt
  {
    && OnNode(it, c, t) && CtxOk(c)
    && |it.key| == |CtxKey(c)| + (if t.compr then |t.edges| else 1)
    && CtxKey(c) <= it.key
  }

  /** The state in which a step starts above the children of `t`: the key still carries the bytes of
      the child (or the mismatching byte) that was left, and `nx` is the first child after it. */
  ghost predicate Leaving(it: RaxIterator, c: Ctx, t: Tree, nx: nat)
    reads it, it.rt
  {
    && AboveKids(it, c, t)
    && nx <= |t.kids|
    && NextIs(t, it.nodeChild, it.key[|it.key| - 1], nx)
  }

  /** From an inline leaf the step starts at its parent; no key byte is lost. */
  lemma LeafLeaving(it: RaxIterator)
    requires it.At() && it.inlineLeaf
    ensures it.ctx.In? && CtxOk(it.ctx.up) && WF(it.ctx.node) && it.ctx.idx < |it.ctx.node.kids|
    ensures Holds(it.rt.heap, it.rt.head, it.ctx.up, Sub(it.ctx.node)) && Path(it.ctx.up, Sub(it.ctx.node))
    ensures Plug(it.ctx.up, Sub(it.ctx.node)) == it.rt.tree
    ensures it.key == CtxKey(it.ctx.up) + Label(it.ctx.node, it.ctx.idx)
    ensures NextIs(it.ctx.node, it.nodeChild, it.key[|it.key| - 1], it.ctx.idx + 1)
  {
    UpPath(it.rt.heap, it.rt.head, it.ctx, it.kid);
    PathPlug(it.ctx, it.kid);
    var node := it.ctx.node;
    if !node.compr {
      assert it.key[|it.key| - 1] == node.edges[it.ctx.idx];
    }
  }

  /** The first edge above byte `c`. */
  method ScanNext(edges: seq<byte>, c: byte) returns (i: nat)
    requires Ascending(edges)
    ensures Cut(edges, i, c)
  {
    i := 0;
    while i < |edges|
      invariant i <= |edges| && forall x | 0 <= x < i :: edges[x] <= c
    {
      if edges[i] > c {
        break;
      }
      i := i + 1;
    }
  }

  /** One round of the inner loop of raxIteratorNextStep after the parent has been reached: try the
      next child of `t`. */
  method TryNextChild(it: RaxIterator, prevchild: byte, prevchildidx: int, min: nat, ghost c: Ctx, ghost t: Tree, ghost nx: nat)
    returns (entered: bool)
    requires OnNode(it, c, t) && it.key == CtxKey(c) && nx <= |t.kids|
    requires NextIs(t, prevchildidx, prevchild, nx)
    requires !t.compr && nx < |t.kids| ==> |t.kids| > min
    modifies it`key, it`data, it`node, it`nodeChild, it`stack, it`inlineLeaf, it`ctx, it`kid
    ensures entered <==> !t.compr && nx < |t.kids|
    ensures entered ==> it.At() && it.ctx == In(c, t, nx) && it.kid == t.kids[nx]
    ensures entered && !it.inlineLeaf && it.kid.node.key.Some? ==> it.data == it.kid.node.key.value
    ensures !entered ==> OnNode(it, c, t) && it.key == CtxKey(c) && it.nodeChild == old(it.nodeChild)
  {
    assert Rep(it.rt.heap, t);
    PathPlug(c, Sub(t));
    var n := it.rt.heap[it.node];
    entered := false;
    if !n.compr && |n.edges| > min {
      var i: int;
      if prevchildidx != -1 {
        i := prevchildidx + 1;
      } else {
        i := ScanNext(n.edges, prevchild);
        NextPosUnique(n.edges, i, nx, prevchild);
      }
      if i != |n.edges| {
        EnterChild(it, i, c, t);
        entered := true;
      }
    }
  }

  lemma NextPosUnique(edges: seq<byte>, p: nat, q: nat, c: byte)
    requires Cut(edges, p, c) && Cut(edges, q, c)
    ensures p == q
  {
    assert p < |edges| ==> edges[p] in edges;
    assert q < |edges| ==> edges[q] in edges;
  }

  /** A position whose node is about to be left upward: its own index is the one to step from. */
  lemma AboutToLeave(it: RaxIterator)
    requires it.At() && !it.inlineLeaf && it.node != it.rt.head
    ensures it.ctx.In? && it.key != [] && CtxOk(it.ctx.up)
    ensures it.ctx.idx < |it.ctx.node.kids|
    ensures it.key == CtxKey(it.ctx.up) + Label(it.ctx.node, it.ctx.idx)
    ensures NextIs(it.ctx.node, it.nodeChild, it.key[|it.key| - 1], it.ctx.idx + 1)
    ensures |it.ctx.node.kids| > it.ctx.idx
  {
    PathPlug(it.ctx, it.kid);
    var node := it.ctx.node;
    if !node.compr {
      assert it.key[|it.key| - 1] == node.edges[it.ctx.idx];
    }
  }

  /** raxIteratorDelChars: what a climb removes from the key. */
  lemma DelChars(key: Key, pre: Key, n: nat)
    requires pre <= key && |key| == |pre| + n
    ensures key[..|key| - n] == pre
  {
  }

  /** The start of every climbing step: move to the parent unless the iterator is there already, and
      cut the key back to it. */
  method ToParent(it: RaxIterator, noup: bool, ghost c0: Ctx, ghost t0: Tree)
    returns (prevchild: byte, prevchildidx: int, ghost c: Ctx, ghost t: Tree)
    requires noup ==> AboveKids(it, c0, t0)
    requires !noup ==> it.At() && !it.inlineLeaf && it.node != it.rt.head
    modifies it`key, it`node, it`nodeChild, it`stack
    ensures OnNode(it, c, t) && CtxOk(c) && it.key == CtxKey(c)
    ensures old(it.key) != [] && prevchild == old(it.key[|it.key| - 1]) && prevchildidx == old(it.nodeChild)
    ensures if noup then c == c0 && t == t0 && it.nodeChild == old(it.nodeChild)
            else old(it.ctx).In? && c == old(it.ctx).up && t == old(it.ctx).node && it.nodeChild == -1
  {
    hide Holds, Path, Plug, CtxOk, CtxStack, WF;
    if noup {
      c, t := c0, t0;
    } else {
      ParentPosition(it);
      c, t := it.ctx.up, it.ctx.node;
    }
    NodeStored(it.rt.heap, it.rt.head, c, t);
    prevchild, prevchildidx := it.key[|it.key| - 1], it.nodeChild;
    if !noup {
      it.node := it.stack[|it.stack| - 1];
      it.stack := it.stack[..|it.stack| - 1];
      it.nodeChild := -1;
    }
    var n := it.rt.heap[it.node];
    var todel := if n.compr then |n.edges| else 1;
    DelChars(it.key, CtxKey(c), todel);
    it.key := it.key[..|it.key| - todel];
  }

  lemma NodeStored(h: Heap, head: Addr, c: Ctx, t: Tree)
    requires Holds(h, head, c, Sub(t)) && WF(t)
    ensures t.addr in h && h[t.addr] == NodeOf(t) && (t.compr ==> t.edges != [])
  {
    assert Rep(h, t);
  }

  lemma ParentPosition(it: RaxIterator)
    requires it.At() && !it.inlineLeaf && it.node != it.rt.head
    ensures it.ctx.In?
    ensures var c, t := it.ctx.up, it.ctx.node;
            && Holds(it.rt.heap, it.rt.head, c, Sub(t)) && Path(c, Sub(t)) && WF(t) && Plug(c, Sub(t)) == it.rt.tree && CtxOk(c)
            && it.stack == CtxStack(c) + [t.addr]
            && it.key != [] && CtxKey(c) <= it.key && |it.key| == |CtxKey(c)| + (if t.compr then |t.edges| else 1)
  {
    AboutToLeave(it);
    UpPath(it.rt.heap, it.rt.head, it.ctx, it.kid);
    PathPlug(it.ctx, it.kid);
  }

  /** No child was entered: the iterator stands on `t` with its child index forgotten. */
  method StandOn(it: RaxIterator, oldNoup: bool, ghost c: Ctx, ghost t: Tree)
    requires OnNode(it, c, t) && CtxOk(c) && it.key == CtxKey(c)
    requires !oldNoup ==> it.nodeChild == -1
    modifies it`nodeChild, it`ctx, it`kid
    ensures it.At() && it.ctx == c && it.kid == Sub(t) && it.nodeChild == -1
  {
    if oldNoup {
      it.nodeChild := -1;
    }
    it.ctx, it.kid := c, Sub(t);
  }

  /** The iterator is about to step right out of a subtree, and `rest` is what remains: either it
      stands above the children of `t`, to go on with child `nx`, or it stands on `t` itself, which is
      done. */
  ghost predicate SteppingRight(it: RaxIterator, noup: bool, c: Ctx, t: Tree, nx: nat, rest: seq<Entry>)
    reads it, it.rt
  {
    && (noup ==> Leaving(it, c, t, nx) && rest == RightOf(t, nx, CtxKey(c)) + CtxAfter(c))
    && (!noup ==> it.At() && !it.inlineLeaf && c == it.ctx && t == it.kid.node && rest == CtxAfter(c))
  }

  function RightWeight(noup: bool, c: Ctx, t: Tree, nx: nat): nat {
    (if noup && nx <= |t.kids| then 1 + KidsWeight(t.kids[nx..]) else 0) + UpWeight(c)
  }

  /** The iterator has just entered a child, and `rest` is what the child and all after it hold. */
  ghost predicate Entered(it: RaxIterator, rest: seq<Entry>)
    reads it, it.rt
  {
    && it.At() && CtxOk(it.ctx)
    && rest == KidEntries(it.kid, it.key) + CtxAfter(it.ctx)
    && (!it.inlineLeaf && it.kid.node.key.Some? ==> it.data == it.kid.node.key.value)
  }

  /** One round of the inner loop of raxIteratorNextStep. */
  method ClimbRound(it: RaxIterator, noup: bool, ghost c0: Ctx, ghost t0: Tree, ghost nx0: nat, ghost rest: seq<Entry>)
    returns (entered: bool)
    requires SteppingRight(it, noup, c0, t0, nx0, rest)
    requires !noup ==> it.node != it.rt.head
    modifies it`key, it`data, it`node, it`nodeChild, it`stack, it`inlineLeaf, it`ctx, it`kid
    ensures entered ==> Entered(it, rest)
    ensures entered ==> KidWeight(it.kid) + UpWeight(it.ctx) <= RightWeight(noup, c0, t0, nx0)
    ensures !entered ==> it.At() && !it.inlineLeaf && rest == CtxAfter(it.ctx)
    ensures !entered ==> it.ctx == if noup then c0 else old(it.ctx).up
    ensures !entered && !noup ==> old(it.ctx).In?
    ensures !entered ==> UpWeight(it.ctx) < RightWeight(noup, c0, t0, nx0)
  {
    ghost var nx := nx0;
    if !noup {
      AboutToLeave(it);
      nx := it.ctx.idx + 1;
    }
    ghost var c, t;
    var prevchild, prevchildidx;
    prevchild, prevchildidx, c, t := ToParent(it, noup, c0, t0);
    RestSplit(c, t, nx, rest);
    entered := TryNextChild(it, prevchild, prevchildidx, if noup then 0 else 1, c, t, nx);
    if !entered {
      StandOn(it, noup, c, t);
    }
  }

  /** The inner loop of raxIteratorNextStep: go up until a child to the right is found and entered.
      `noup` tells that the iterator already stands on the parent. Returns false when the head is
      reached. */
  method ClimbNext(it: RaxIterator, noup0: bool, ghost c0: Ctx, ghost t0: Tree, ghost nx0: nat, ghost rest: seq<Entry>)
    returns (entered: bool)
    requires SteppingRight(it, noup0, c0, t0, nx0, rest)
    modifies it`key, it`data, it`node, it`nodeChild, it`stack, it`inlineLeaf, it`ctx, it`kid
    ensures !entered ==> rest == []
    ensures entered ==> Entered(it, rest)
    ensures entered ==> KidWeight(it.kid) + UpWeight(it.ctx) <= RightWeight(noup0, c0, t0, nx0)
  {
    var noup := noup0;
    ghost var c, t: Tree, nx: nat := c0, t0, nx0;
    entered := false;
    while noup || it.node != it.rt.head
      invariant SteppingRight(it, noup, c, t, nx, rest)
      invariant RightWeight(noup, c, t, nx) <= RightWeight(noup0, c0, t0, nx0)
      decreases c, noup
    {
      entered := ClimbRound(it, noup, c, t, nx, rest);
      if entered {
        return;
      }
      noup := false;
      c, t := it.ctx, it.kid.node;
    }
    HeadIsTop(it.rt.heap, it.rt.head, it.ctx, it.kid.node);
  }

  /** What remains to the right is either the next child and what follows it, or lies above. */
  lemma RestSplit(c: Ctx, t: Tree, nx: nat, rest: seq<Entry>)
    requires CtxOk(c) && Path(c, Sub(t)) && WF(t) && nx <= |t.kids|
    requires rest == RightOf(t, nx, CtxKey(c)) + CtxAfter(c)
    ensures if !t.compr && nx < |t.kids|
            then var c2 := In(c, t, nx);
                 && CtxOk(c2)
                 && rest == KidEntries(t.kids[nx], CtxKey(c2)) + CtxAfter(c2)
                 && KidWeight(t.kids[nx]) + UpWeight(c2) <= 1 + KidsWeight(t.kids[nx..]) + UpWeight(c)
            else rest == CtxAfter(c)
  {
    if !t.compr && nx < |t.kids| {
      var c2 := In(c, t, nx);
      assert KidWF(t.kids[nx]);
      PathPlug(c2, t.kids[nx]);
      RightStep(t, nx, CtxKey(c));
      Assoc(KidEntries(t.kids[nx], CtxKey(c2)), RightOf(t, nx + 1, CtxKey(c)), CtxAfter(c));
    } else {
      assert RightOf(t, nx, CtxKey(c)) == [];
    }
  }

  /** `rest` is what a forward step has to choose from: the first entry is the next element. */
  ghost predicate Before(it: RaxIterator, noup: bool, c: Ctx, t: Tree, nx: nat, rest: seq<Entry>)
    reads it, it.rt
  {
    if it.inlineLeaf then it.At() && CtxOk(it.ctx) && rest == CtxAfter(it.ctx)
    else if noup then Leaving(it, c, t, nx) && rest == RightOf(t, nx, CtxKey(c)) + CtxAfter(c)
    else it.At() && CtxOk(it.ctx) && rest == Below(it.kid.node, it.key) + CtxAfter(it.ctx)
  }

  /** The iterator is on the first entry of `rest`. */
  ghost predicate OnFirst(it: RaxIterator, rest: seq<Entry>)
    reads it, it.rt
  {
    it.OnKey() && CtxOk(it.ctx) && rest == [Entry(it.key, it.data)] + it.After()
  }

  ghost predicate IsKey(it: RaxIterator)
    reads it
  {
    it.inlineLeaf || (it.kid.Sub? && it.kid.node.key.Some?)
  }

  lemma FirstOfEntered(it: RaxIterator, rest: seq<Entry>)
    requires Entered(it, rest)
    ensures IsKey(it) ==> OnFirst(it, rest)
    ensures !IsKey(it) ==> rest == Below(it.kid.node, it.key) + CtxAfter(it.ctx)
  {
    match it.kid
    case Leaf(_) => assert [] + CtxAfter(it.ctx) == CtxAfter(it.ctx);
    case Sub(s) =>
      assert KidEntries(it.kid, it.key) == Entries(s, it.key) == Own(s.key, it.key) + Below(s, it.key);
      Assoc(Own(s.key, it.key), Below(s, it.key), CtxAfter(it.ctx));
      assert [] + Below(s, it.key) == Below(s, it.key);
  }

  lemma AboutToEnterFirst(c: Ctx, t: Tree, rest: seq<Entry>)
    requires CtxOk(c) && Path(c, Sub(t)) && WF(t) && t.kids != []
    requires rest == Below(t, CtxKey(c)) + CtxAfter(c)
    ensures CtxOk(In(c, t, 0))
    ensures rest == KidEntries(t.kids[0], CtxKey(In(c, t, 0))) + CtxAfter(In(c, t, 0))
    ensures KidWeight(t.kids[0]) + UpWeight(In(c, t, 0)) <= 1 + KidsWeight(t.kids) + UpWeight(c)
  {
    var c2 := In(c, t, 0);
    assert KidWF(t.kids[0]);
    PathPlug(c2, t.kids[0]);
    RightStep(t, 0, CtxKey(c));
    assert t.kids[0..] == t.kids && t.edges[0..] == t.edges;
    Assoc(KidEntries(t.kids[0], CtxKey(c2)), RightOf(t, 1, CtxKey(c)), CtxAfter(c));
  }

  /** One round of the outer loop of raxIteratorNextStep: go deeper when that is possible, otherwise
      climb. */
  method NextRound(it: RaxIterator, noup: bool, ghost c: Ctx, ghost t: Tree, ghost nx: nat, ghost rest: seq<Entry>)
    returns (entered: bool)
    requires !it.inlineLeaf && Before(it, noup, c, t, nx, rest)
    modifies it`key, it`data, it`node, it`nodeChild, it`stack, it`inlineLeaf, it`ctx, it`kid
    ensures !entered ==> rest == []
    ensures entered ==> Entered(it, rest)
    ensures entered ==> KidWeight(it.kid) + UpWeight(it.ctx)
                        <= if noup then RightWeight(noup, c, t, nx) else old(1 + KidsWeight(it.kid.node.kids) + UpWeight(it.ctx))
  {
    ghost var here := if noup then t else it.kid.node;
    assert Rep(it.rt.heap, here);
    var n := it.rt.heap[it.node];
    if !noup && n.edges != [] {
      PathPlug(it.ctx, it.kid);
      AboutToEnterFirst(it.ctx, here, rest);
      EnterChild(it, 0, it.ctx, here);
      entered := true;
    } else if noup {
      entered := ClimbNext(it, true, c, t, nx, rest);
    } else {
      PathPlug(it.ctx, it.kid);
      assert [] + CtxAfter(it.ctx) == CtxAfter(it.ctx);
      entered := ClimbNext(it, false, it.ctx, here, 0, rest);
    }
  }

  /** The outer loop of raxIteratorNextStep. */
  method NextSearch(it: RaxIterator, noup0: bool, ghost c0: Ctx, ghost t0: Tree, ghost nx0: nat, ghost rest: seq<Entry>)
    returns (found: bool)
    requires !it.inlineLeaf && Before(it, noup0, c0, t0, nx0, rest)
    modifies it`key, it`data, it`node, it`nodeChild, it`stack, it`inlineLeaf, it`ctx, it`kid
    ensures found <==> rest != []
    ensures found ==> OnFirst(it, rest)
  {
    var noup := noup0;
    while true
      invariant !it.inlineLeaf && Before(it, noup, c0, t0, nx0, rest)
      decreases if noup then RightWeight(noup, c0, t0, nx0) else 1 + KidsWeight(it.kid.node.kids) + UpWeight(it.ctx)
    {
      found := NextRound(it, noup, c0, t0, nx0, rest);
      if !found {
        return;
      }
      FirstOfEntered(it, rest);
      assert it.kid.Sub? ==> Rep(it.rt.heap, it.kid.node);
      if it.inlineLeaf || it.rt.heap[it.node].key.Some? {
        return;
      }
      noup := false;
    }
  }

  /** What the step puts back when it finds nothing, and what seeking relies on not to change. */
  twostate predicate SamePlace(it: RaxIterator)
    reads it
  {
    && it.key == old(it.key) && it.data == old(it.data) && it.node == old(it.node) && it.nodeChild == old(it.nodeChild)
    && it.stack == old(it.stack) && it.inlineLeaf == old(it.inlineLeaf)
    && it.ctx == old(it.ctx) && it.kid == old(it.kid)
  }

  /** raxIteratorNextStep. The ghost arguments describe the starting point when `noup` is set. */
  method NextStep(it: RaxIterator, noup0: bool, ghost c0: Ctx, ghost t0: Tree, ghost nx0: nat, ghost rest: seq<Entry>)
    requires !it.eof && !it.justSeeked ==> Before(it, noup0, c0, t0, nx0, rest)
    modifies it
    ensures old(it.eof) ==> it.eof && it.justSeeked == old(it.justSeeked)
    ensures old(!it.eof && it.justSeeked) ==> !it.eof && !it.justSeeked
    ensures old(it.eof || it.justSeeked) || rest == [] ==> SamePlace(it)
    ensures old(!it.eof && !it.justSeeked) ==>
              !it.justSeeked && if rest == [] then it.eof else !it.eof && OnFirst(it, rest)
  {
    hide Holds, Path, CtxOk, WF, Entries, Below, KidEntries, KidsEntries, MapOf, Own;
    if it.eof {
      return;
    }
    if it.justSeeked {
      it.justSeeked := false;
      return;
    }
    var origKey, origStack, origNode, origInline := it.key, it.stack, it.node, it.inlineLeaf;
    var origData, origNodeChild := it.data, it.nodeChild;
    ghost var origCtx, origKid := it.ctx, it.kid;
    var noup := noup0;
    ghost var c, t: Tree, nx: nat := c0, t0, nx0;
    if it.inlineLeaf {
      c, t := LeaveLeaf(it);
      noup, nx := true, it.ctx.idx + 1;
    }
    var found := NextSearch(it, noup, c, t, nx, rest);
    if !found {
      it.eof := true;
      it.stack, it.key, it.node, it.inlineLeaf := origStack, origKey, origNode, origInline;
      it.data, it.nodeChild := origData, origNodeChild;
      it.ctx, it.kid := origCtx, origKid;
    }
  }

  /** A step from an inline leaf starts on its parent. */
  method LeaveLeaf(it: RaxIterator) returns (ghost c: Ctx, ghost t: Tree)
    requires it.At() && it.inlineLeaf
    modifies it`inlineLeaf
    ensures !it.inlineLeaf && AboveKids(it, c, t) && it.ctx.In? && c == it.ctx.up && t == it.ctx.node
    ensures it.ctx.idx < |t.kids|
    ensures NextIs(t, it.nodeChild, it.key[|it.key| - 1], it.ctx.idx + 1)
    ensures PrevIs(t, it.nodeChild, it.key[|it.key| - 1], it.ctx.idx)
  {
    LeafLeaving(it);
    LeftBehind(it);
    it.inlineLeaf := false;
    c, t := it.ctx.up, it.ctx.node;
  }

  // ------------------------------------------------------------------ raxSeekGreatest

  lemma LastChild(c: Ctx, t: Tree, i: nat)
    requires CtxOk(c) && Path(c, Sub(t)) && WF(t) && i < |t.kids|
    requires t.compr || i == |t.kids| - 1
    ensures CtxOk(In(c, t, i))
    ensures CtxBefore(In(c, t, i)) + KidEntries(t.kids[i], CtxKey(In(c, t, i))) == CtxBefore(c) + Entries(t, CtxKey(c))
  {
    var pre := CtxKey(c);
    assert KidWF(t.kids[i]);
    PathPlug(In(c, t, i), t.kids[i]);
    BelowAt(t, i, pre);
    assert RightOf(t, i + 1, pre) == [];
    Regroup4(CtxBefore(c), Own(t.key, pre), LeftOf(t, i, pre), KidEntries(t.kids[i], pre + Label(t, i)));
  }

  /** raxSeekGreatest: always the last child, down to an inline leaf or a node without children. */
  method SeekGreatest(it: RaxIterator, ghost upto: seq<Entry>)
    requires it.At() && !it.inlineLeaf && CtxOk(it.ctx)
    requires upto == CtxBefore(it.ctx) + KidEntries(it.kid, it.key)
    modifies it`key, it`data, it`node, it`nodeChild, it`stack, it`inlineLeaf, it`ctx, it`kid
    ensures it.At() && CtxOk(it.ctx) && upto == CtxBefore(it.ctx) + KidEntries(it.kid, it.key)
    ensures it.inlineLeaf || it.kid.node.kids == []
    ensures old(it.kid.node.kids) != [] || old(it.ctx).In? ==> it.ctx.In?
  {
    assert Rep(it.rt.heap, it.kid.node);
    while it.rt.heap[it.node].edges != []
      invariant it.At() && !it.inlineLeaf && CtxOk(it.ctx) && Rep(it.rt.heap, it.kid.node)
      invariant upto == CtxBefore(it.ctx) + KidEntries(it.kid, it.key)
      invariant it.ctx.In? || (it.kid == old(it.kid) && it.ctx == old(it.ctx))
      decreases it.kid
    {
      var n := it.rt.heap[it.node];
      var lastidx := if n.compr then 0 else |n.edges| - 1;
      PathPlug(it.ctx, it.kid);
      LastChild(it.ctx, it.kid.node, lastidx);
      EnterChild(it, lastidx, it.ctx, it.kid.node);
      if it.inlineLeaf {
        return;
      }
      assert Rep(it.rt.heap, it.kid.node);
    }
    PathPlug(it.ctx, it.kid);
  }

  // ------------------------------------------------------------------ raxIteratorPrevStep

  /** The edges below index `px` are smaller than `c`, the others are not. */
  ghost predicate CutBelow(edges: seq<byte>, px: nat, c: byte) {
    && px <= |edges|
    && (forall x | 0 <= x < px :: edges[x] < c)
    && (forall x | px <= x < |edges| :: c <= edges[x])
  }

  /** The children before the one left are those below `px`. */
  ghost predicate PrevIs(t: Tree, childidx: int, c: byte, px: nat) {
    !t.compr ==> (childidx == -1 && CutBelow(t.edges, px, c)) || (childidx != -1 && childidx == px)
  }

  lemma CutBelowUnique(edges: seq<byte>, p: nat, q: nat, c: byte)
    requires CutBelow(edges, p, c) && CutBelow(edges, q, c)
    ensures p == q
  {
    assert p < |edges| ==> edges[p] in edges;
    assert q < |edges| ==> edges[q] in edges;
  }

  /** The last edge below byte `c`, or -1. */
  method ScanPrev(edges: seq<byte>, c: byte) returns (i: int)
    requires Ascending(edges)
    ensures -1 <= i < |edges| && CutBelow(edges, i + 1, c)
  {
    i := |edges| - 1;
    while i >= 0
      invariant -1 <= i < |edges| && forall x | i < x < |edges| :: c <= edges[x]
    {
      if edges[i] < c {
        break;
      }
      i := i - 1;
    }
  }

  /** `upto` is what a backward step has to choose from: the last entry is the previous element. */
  ghost predicate Behind(it: RaxIterator, noup: bool, c: Ctx, t: Tree, px: nat, upto: seq<Entry>)
    reads it, it.rt
  {
    if it.inlineLeaf || !noup then it.At() && CtxOk(it.ctx) && upto == CtxBefore(it.ctx)
    else AboveKids(it, c, t) && px <= |t.kids| && PrevIs(t, it.nodeChild, it.key[|it.key| - 1], px)
         && upto == CtxBefore(c) + Own(t.key, CtxKey(c)) + LeftOf(t, px, CtxKey(c))
  }

  /** The iterator is on the last entry of `upto`. */
  ghost predicate OnLast(it: RaxIterator, upto: seq<Entry>)
    reads it, it.rt
  {
    it.OnKey() && CtxOk(it.ctx) && upto == CtxBefore(it.ctx) + [Entry(it.key, it.data)]
  }

  lemma LeftSplit(c: Ctx, t: Tree, px: nat, upto: seq<Entry>)
    requires CtxOk(c) && Path(c, Sub(t)) && WF(t) && px <= |t.kids|
    requires upto == CtxBefore(c) + Own(t.key, CtxKey(c)) + LeftOf(t, px, CtxKey(c))
    ensures if !t.compr && px > 0
            then var c2 := In(c, t, px - 1);
                 CtxOk(c2) && upto == CtxBefore(c2) + KidEntries(t.kids[px - 1], CtxKey(c2))
            else upto == CtxBefore(c) + Own(t.key, CtxKey(c))
  {
    var pre := CtxKey(c);
    if !t.compr && px > 0 {
      var c2 := In(c, t, px - 1);
      assert KidWF(t.kids[px - 1]);
      PathPlug(c2, t.kids[px - 1]);
      KidsEntriesAt(t.edges[..px], t.kids[..px], px - 1, pre);
      assert t.edges[..px][..px - 1] == t.edges[..px - 1] && t.kids[..px][..px - 1] == t.kids[..px - 1];
      assert LeftOf(t, px, pre) == LeftOf(t, px - 1, pre) + KidEntries(t.kids[px - 1], CtxKey(c2)) + [];
      Assoc(CtxBefore(c) + Own(t.key, pre), LeftOf(t, px - 1, pre), KidEntries(t.kids[px - 1], CtxKey(c2)));
    } else {
      assert LeftOf(t, px, pre) == [];
    }
  }

  /** The position just left, seen from its parent. */
  lemma LeftBehind(it: RaxIterator)
    requires it.At() && (it.inlineLeaf || it.node != it.rt.head)
    ensures it.ctx.In? && CtxOk(it.ctx.up) && it.key != [] && it.ctx.idx < |it.ctx.node.kids|
    ensures it.key == CtxKey(it.ctx.up) + Label(it.ctx.node, it.ctx.idx)
    ensures PrevIs(it.ctx.node, it.nodeChild, it.key[|it.key| - 1], it.ctx.idx)
    ensures CtxBefore(it.ctx) == CtxBefore(it.ctx.up) + Own(it.ctx.node.key, CtxKey(it.ctx.up))
                               + LeftOf(it.ctx.node, it.ctx.idx, CtxKey(it.ctx.up))
  {
    PathPlug(it.ctx, it.kid);
    var node := it.ctx.node;
    if !node.compr {
      assert it.key[|it.key| - 1] == node.edges[it.ctx.idx];
    }
  }

  /** Enter child `i` and go on to the greatest key below it. `direct` tells that the child itself is
      an inline leaf. */
  method EnterGreatest(it: RaxIterator, i: nat, ghost c: Ctx, ghost t: Tree, ghost upto: seq<Entry>)
    returns (direct: bool)
    requires OnNode(it, c, t) && CtxOk(c) && it.key == CtxKey(c) && i < |t.kids| && CtxOk(In(c, t, i))
    requires upto == CtxBefore(In(c, t, i)) + KidEntries(t.kids[i], CtxKey(In(c, t, i)))
    modifies it`key, it`data, it`node, it`nodeChild, it`stack, it`inlineLeaf, it`ctx, it`kid
    ensures AtGreatest(it, upto)
    ensures direct ==> it.inlineLeaf
  {
    EnterChild(it, i, c, t);
    direct := it.inlineLeaf;
    if !direct {
      SeekGreatest(it, upto);
    }
  }

  /** The iterator is at the end of a branch below the head, and `upto` ends there. */
  ghost predicate AtGreatest(it: RaxIterator, upto: seq<Entry>)
    reads it, it.rt
  {
    && it.At() && CtxOk(it.ctx) && (it.inlineLeaf || it.kid.node.kids == []) && it.ctx.In?
    && upto == CtxBefore(it.ctx) + KidEntries(it.kid, it.key)
  }

  /** The end of a branch is a key, and the only one there. */
  lemma GreatestIsKey(it: RaxIterator, upto: seq<Entry>)
    requires AtGreatest(it, upto)
    ensures IsKey(it)
    ensures upto == CtxBefore(it.ctx) + [Entry(it.key, if it.inlineLeaf then it.data else it.kid.node.key.value)]
  {
    PathPlug(it.ctx, it.kid);
    if it.kid.Sub? {
      assert Entries(it.kid.node, it.key) == Own(it.kid.node.key, it.key) + Below(it.kid.node, it.key);
    }
  }

  /** The part of a backward round in which a sibling subtree is searched for its greatest key. */
  method TryPrevChild(it: RaxIterator, prevchild: byte, prevchildidx: int, min: nat,
                      ghost c: Ctx, ghost t: Tree, ghost px: nat, ghost upto: seq<Entry>)
    returns (entered: bool, direct: bool)
    requires OnNode(it, c, t) && CtxOk(c) && it.key == CtxKey(c) && px <= |t.kids|
    requires PrevIs(t, prevchildidx, prevchild, px)
    requires upto == CtxBefore(c) + Own(t.key, CtxKey(c)) + LeftOf(t, px, CtxKey(c))
    requires !t.compr && px > 0 ==> |t.kids| > min
    modifies it`key, it`data, it`node, it`nodeChild, it`stack, it`inlineLeaf, it`ctx, it`kid
    ensures entered ==> AtGreatest(it, upto)
    ensures direct ==> entered && it.inlineLeaf
    ensures !entered ==> OnNode(it, c, t) && it.key == CtxKey(c) && it.nodeChild == old(it.nodeChild)
    ensures !entered ==> upto == CtxBefore(c) + Own(t.key, CtxKey(c))
  {
    assert Rep(it.rt.heap, t);
    LeftSplit(c, t, px, upto);
    var n := it.rt.heap[it.node];
    entered, direct := false, false;
    if !n.compr && |n.edges| > min {
      var i: int;
      if prevchildidx != -1 {
        i := prevchildidx - 1;
      } else {
        i := ScanPrev(n.edges, prevchild);
        CutBelowUnique(n.edges, i + 1, px, prevchild);
      }
      if i != -1 {
        direct := EnterGreatest(it, i, c, t, upto);
        entered := true;
      }
    }
  }

  /** One round of raxIteratorPrevStep. */
  method PrevRound(it: RaxIterator, noup: bool, ghost c0: Ctx, ghost t0: Tree, ghost px0: nat, ghost upto: seq<Entry>)
    returns (found: bool)
    requires !it.inlineLeaf && Behind(it, noup, c0, t0, px0, upto)
    requires !noup ==> it.node != it.rt.head
    modifies it`key, it`data, it`node, it`nodeChild, it`stack, it`inlineLeaf, it`ctx, it`kid
    ensures found ==> OnLast(it, upto)
    ensures !found ==> !it.inlineLeaf && Behind(it, false, c0, t0, px0, upto)
    ensures !found ==> if noup then it.ctx == c0 else old(it.ctx).In? && it.ctx == old(it.ctx).up
  {
    ghost var px := px0;
    if !noup {
      LeftBehind(it);
      px := it.ctx.idx;
    }
    ghost var c, t;
    var prevchild, prevchildidx;
    prevchild, prevchildidx, c, t := ToParent(it, noup, c0, t0);
    var entered, direct := TryPrevChild(it, prevchild, prevchildidx, if noup then 0 else 1, c, t, px, upto);
    if entered {
      SettleGreatest(it, noup, direct, upto);
      found := true;
    } else {
      found := SettleNode(it, noup, c, t, upto);
    }
  }

  /** There was no child to the left: the node itself is the element if it is a key. */
  method SettleNode(it: RaxIterator, noup: bool, ghost c: Ctx, ghost t: Tree, ghost upto: seq<Entry>) returns (found: bool)
    requires OnNode(it, c, t) && CtxOk(c) && it.key == CtxKey(c)
    requires !noup ==> it.nodeChild == -1
    requires upto == CtxBefore(c) + Own(t.key, CtxKey(c))
    modifies it`nodeChild, it`ctx, it`kid, it`data
    ensures !it.inlineLeaf && it.ctx == c
    ensures found ==> OnLast(it, upto)
    ensures !found ==> it.At() && upto == CtxBefore(c)
  {
    StandOn(it, noup, c, t);
    found := LoadKey(it);
    assert !found ==> upto == CtxBefore(c) + [];
  }

  /** A sibling subtree was searched: its greatest key is the element. */
  method SettleGreatest(it: RaxIterator, noup: bool, direct: bool, ghost upto: seq<Entry>)
    requires AtGreatest(it, upto) && (direct ==> it.inlineLeaf)
    modifies it`nodeChild, it`data
    ensures OnLast(it, upto)
  {
    GreatestIsKey(it, upto);
    if !direct && noup {
      it.nodeChild := -1;
    }
    if !it.inlineLeaf {
      var found := LoadKey(it);
    }
  }

  /** At a key, its value becomes the iterator's data; elsewhere the iterator stays as it is. */
  method LoadKey(it: RaxIterator) returns (found: bool)
    requires it.At()
    modifies it`data
    ensures it.At() && found == IsKey(it) && (found ==> it.OnKey())
    ensures it.inlineLeaf ==> it.data == old(it.data)
    ensures found && !it.inlineLeaf ==> it.data == it.kid.node.key.value
  {
    if it.inlineLeaf {
      return true;
    }
    assert Rep(it.rt.heap, it.kid.node);
    var n := it.rt.heap[it.node];
    found := n.key.Some?;
    if found {
      it.data := n.key.value;
    }
  }

  method PrevSearch(it: RaxIterator, noup0: bool, ghost c0: Ctx, ghost t0: Tree, ghost px0: nat, ghost upto: seq<Entry>)
    returns (found: bool)
    requires !it.inlineLeaf && Behind(it, noup0, c0, t0, px0, upto)
    modifies it`key, it`data, it`node, it`nodeChild, it`stack, it`inlineLeaf, it`ctx, it`kid
    ensures found <==> upto != []
    ensures found ==> OnLast(it, upto)
  {
    var noup := noup0;
    while noup || it.node != it.rt.head
      invariant !it.inlineLeaf && Behind(it, noup, c0, t0, px0, upto)
      decreases if noup then c0 else it.ctx, noup
    {
      found := PrevRound(it, noup, c0, t0, px0, upto);
      if found {
        return;
      }
      noup := false;
    }
    HeadIsTop(it.rt.heap, it.rt.head, it.ctx, it.kid.node);
    found := false;
  }

  /** raxIteratorPrevStep. The ghost arguments describe the starting point when `noup` is set. */
  method PrevStep(it: RaxIterator, noup0: bool, ghost c0: Ctx, ghost t0: Tree, ghost px0: nat, ghost upto: seq<Entry>)
    requires !it.eof && !it.justSeeked ==> Behind(it, noup0, c0, t0, px0, upto)
    modifies it
    ensures old(it.eof) ==> it.eof && it.justSeeked == old(it.justSeeked)
    ensures old(!it.eof && it.justSeeked) ==> !it.eof && !it.justSeeked
    ensures old(it.eof || it.justSeeked) || upto == [] ==> SamePlace(it)
    ensures old(!it.eof && !it.justSeeked) ==>
              !it.justSeeked && if upto == [] then it.eof else !it.eof && OnLast(it, upto)
  {
    hide Holds, Path, CtxOk, WF;
    if it.eof {
      return;
    }
    if it.justSeeked {
      it.justSeeked := false;
      return;
    }
    var origKey, origStack, origNode, origInline := it.key, it.stack, it.node, it.inlineLeaf;
    var origData, origNodeChild := it.data, it.nodeChild;
    ghost var origCtx, origKid := it.ctx, it.kid;
    var noup := noup0;
    ghost var c, t: Tree, px: nat := c0, t0, px0;
    if it.inlineLeaf {
      c, t := LeaveLeaf(it);
      noup, px := true, it.ctx.idx;
    }
    var found := PrevSearch(it, noup, c, t, px, upto);
    if !found {
      it.eof := true;
      it.stack, it.key, it.node, it.inlineLeaf := origStack, origKey, origNode, origInline;
      it.data, it.nodeChild := origData, origNodeChild;
      it.ctx, it.kid := origCtx, origKid;
    }
  }
}
