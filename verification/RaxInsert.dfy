/** raxGenericInsert: splitting compressed nodes, un-inlining leaves, and growing new branches. */
module RaxInsert {
  import opened Keys
  import opened Seqs
  import opened RaxTree
  import opened RaxZipper
  import opened RaxHeap
  import opened RaxCore

  // ------------------------------------------------------------------ tree-level pieces

  /** A node with a single child; it is compressed exactly when it carries more than one byte. */
  function OneChild(a: Addr, key: Option<Val>, edges: seq<byte>, kid: Kid): Tree {
    Tree(a, key, |edges| > 1, edges, [kid])
  }

  lemma OneChildEntries(a: Addr, key: Option<Val>, edges: seq<byte>, kid: Kid, pre: Key)
    requires 1 <= |edges| <= NODE_MAX_SIZE
    ensures NodeOk(OneChild(a, key, edges, kid))
    ensures Entries(OneChild(a, key, edges, kid), pre) == Own(key, pre) + KidEntries(kid, pre + edges)
  {
    if |edges| == 1 {
      assert edges == [edges[0]] && edges[1..] == [];
      assert KidsEntries(edges, [kid], pre) == KidEntries(kid, pre + edges) + KidsEntries([], [kid][1..], pre);
    }
  }

  function ValueNode(a: Addr, v: Val): Tree {
    Tree(a, Some(v), false, [], [])
  }

  function EmptyNode(a: Addr): Tree {
    Tree(a, None, false, [], [])
  }

  /** A node that gained an edge `c` to `kid` at index `pos`. */
  function AddKid(t: Tree, pos: nat, c: byte, kid: Kid): Tree
    requires pos <= |t.kids| == |t.edges|
  {
    t.(edges := t.edges[..pos] + [c] + t.edges[pos..], kids := t.kids[..pos] + [kid] + t.kids[pos..])
  }

  ghost predicate EdgePos(edges: seq<byte>, pos: nat, c: byte) {
    && pos <= |edges|
    && (forall x | 0 <= x < pos :: edges[x] < c)
    && (forall x | pos <= x < |edges| :: c < edges[x])
  }

  lemma AddKidEntries(t: Tree, pos: nat, c: byte, kid: Kid, pre: Key)
    requires !t.compr && |t.kids| == |t.edges| && pos <= |t.kids|
    ensures var t2 := AddKid(t, pos, c, kid);
            && LeftOf(t2, pos, pre) + RightOf(t2, pos + 1, pre) == Below(t, pre)
            && Label(t2, pos) == [c]
  {
    var t2 := AddKid(t, pos, c, kid);
    KidsEntriesSplit(t.edges, t.kids, pos, pre);
    assert t2.edges[..pos] == t.edges[..pos] && t2.kids[..pos] == t.kids[..pos];
    assert t2.edges[pos + 1..] == t.edges[pos..] && t2.kids[pos + 1..] == t.kids[pos..];
  }

  lemma AscendingBound(edges: seq<byte>)
    requires Ascending(edges)
    ensures |edges| <= 256
  {
    if edges != [] {
      AscendingStep(edges, |edges| - 1);
    }
  }

  lemma {:induction false} AscendingStep(edges: seq<byte>, i: nat)
    requires Ascending(edges) && i < |edges|
    ensures i <= edges[i]
  {
    if i > 0 {
      AscendingStep(edges, i - 1);
    }
  }

  /** Adding an edge keeps a node well formed provided an inline child 12 is spilled first. */
  lemma AddKidOk(t: Tree, pos: nat, c: byte, kid: Kid)
    requires NodeOk(t) && !t.compr && EdgePos(t.edges, pos, c)
    requires pos <= 12 && 12 < |t.kids| ==> t.kids[12].Sub?
    requires kid.Leaf? ==> pos < INLINE_SLOTS
    ensures NodeOk(AddKid(t, pos, c, kid))
    ensures pos < |AddKid(t, pos, c, kid).kids| && AddKid(t, pos, c, kid).kids[pos] == kid
    ensures KidsWF(t.kids) ==>
              forall j | 0 <= j < |AddKid(t, pos, c, kid).kids| && j != pos :: KidWF(AddKid(t, pos, c, kid).kids[j])
  {
    var t2 := AddKid(t, pos, c, kid);
    assert Ascending(t2.edges);
    AscendingBound(t2.edges);
    forall i | INLINE_SLOTS <= i < |t2.kids| ensures t2.kids[i].Sub? {
      if i > pos {
        assert t2.kids[i] == t.kids[i - 1];
      }
    }
    if KidsWF(t.kids) {
      forall j | 0 <= j < |t2.kids| && j != pos ensures KidWF(t2.kids[j]) {
        assert t2.kids[j] == if j < pos then t.kids[j] else t.kids[j - 1];
      }
    }
  }

  /** Inserting one entry where the order allows it updates the map. */
  lemma InsertBetween(a: seq<Entry>, k: Key, v: Val, b: seq<Entry>)
    requires AllMore(b, k)
    ensures MapOf(a + [Entry(k, v)] + b) == MapOf(a + b)[k := v]
  {
    MapOfThree(a, [Entry(k, v)], b);
    assert [Entry(k, v)][..0] == [];
    MapOfAppend(a, b);
    AbsentIfOrdered(b, k);
  }

  /** Making a node a key, or giving its key a new value. */
  lemma SetKeyEntries(t: Tree, pre: Key, v: Val)
    requires WF(t)
    ensures MapOf(Entries(t.(key := Some(v)), pre)) == MapOf(Entries(t, pre))[pre := v]
  {
    var b := Below(t, pre);
    assert Below(t.(key := Some(v)), pre) == b;
    NotBelowItself(t, pre);
    hide Below, MapOf, WF;
    MapOfAppend(Own(t.key, pre), b);
    MapOfAppend(Own(Some(v), pre), b);
    OwnMap(t.key, pre, v);
    assert MapOf(Own(t.key, pre))[pre := v] + MapOf(b) == (MapOf(Own(t.key, pre)) + MapOf(b))[pre := v];
  }

  lemma NotBelowItself(t: Tree, pre: Key)
    requires WF(t)
    ensures pre !in MapOf(Below(t, pre))
  {
    EntriesSorted(t, pre);
    AbsentIfOrdered(Below(t, pre), pre);
  }

  lemma OwnMap(key: Option<Val>, pre: Key, v: Val)
    ensures MapOf(Own(Some(v), pre)) == MapOf(Own(key, pre))[pre := v]
  {
    assert Own(Some(v), pre)[..0] == [];
    if key.Some? {
      assert Own(key, pre)[..0] == [];
    }
  }

  // ------------------------------------------------------------------ heap-level pieces

  lemma OwnsAdd(h: Heap, bag: multiset<Addr>, a: Addr, n: Node)
    requires Owns(h, bag) && a !in h
    ensures Owns(h[a := n], bag + multiset{a})
  {
    assert h[a := n].Keys == h.Keys + {a};
  }

  lemma OwnsRemove(h: Heap, bag: multiset<Addr>, a: Addr)
    requires Owns(h, bag + multiset{a})
    ensures a in h && a !in bag && Owns(h - {a}, bag)
  {
    assert a in bag + multiset{a};
    assert (bag + multiset{a})[a] == 1;
    assert (h - {a}).Keys == h.Keys - {a};
    forall x ensures bag[x] == multiset((h - {a}).Keys)[x] {
      assert (bag + multiset{a})[x] == multiset(h.Keys)[x];
    }
  }

  /** The children of a node survive a change that touches neither them nor anything else in use,
      except the node's own block. */
  lemma KidsKept(h: Heap, head: Addr, ctx: Ctx, t: Tree, h2: Heap)
    requires Holds(h, head, ctx, Sub(t))
    requires forall a | a in h && a != t.addr :: a in h2 && h2[a] == h[a]
    ensures forall j | 0 <= j < |t.kids| :: RepKid(h2, t.kids[j])
    ensures forall a | a in CtxBag(ctx) && a in h :: a in h2 && h2[a] == h[a]
    ensures Owns(h, CtxBag(ctx) + KidsBag(t.kids) + multiset{t.addr})
    ensures t.addr !in CtxBag(ctx) + KidsBag(t.kids)
  {
    assert Rep(h, t) && KidBag(Sub(t)) == Bag(t);
    assert CtxBag(ctx) + Bag(t) == CtxBag(ctx) + KidsBag(t.kids) + multiset{t.addr};
    OwnsRemove(h, CtxBag(ctx) + KidsBag(t.kids), t.addr);
    forall j | 0 <= j < |t.kids| ensures RepKid(h2, t.kids[j]) {
      forall a | a in KidBag(t.kids[j]) && a in h ensures a in h2 && h2[a] == h[a] {
        KidBagOfMember(t.kids, j, a);
      }
      RepFrame(h, h2, t.kids[j]);
    }
  }

  /** Writes to a slot and to a link in a different node commute. */
  lemma SlotLinkCommute(h: Heap, link: Link, slot: Slot, a: Addr, i: nat, slot2: Slot)
    requires a in h && i < |h[a].slots|
    requires link.SlotLink? ==> link.parent in h && link.parent != a && link.idx < |h[link.parent].slots|
    ensures SetSlot(LinkHeap(h, link, slot), a, i, slot2) == LinkHeap(SetSlot(h, a, i, slot2), link, slot)
  {
  }

  // ------------------------------------------------------------------ simple cases

  /** raxMaterializeInlineLeaf: the inline value moves into a node of its own. */
  method MaterializeInlineLeaf(rax: Rax, link: Link, ghost ctx: Ctx, ghost kid: Kid) returns (leaf: Addr)
    requires Holds(rax.heap, rax.head, ctx, kid) && kid.Leaf? && link == LinkOf(ctx)
    requires rax.numnodes == |rax.heap|
    modifies rax`heap, rax`head, rax`numnodes
    ensures Holds(rax.heap, rax.head, ctx, Sub(ValueNode(leaf, kid.val)))
    ensures rax.numnodes == |rax.heap|
  {
    hide Entries, Below, KidEntries, KidsEntries, MapOf, Own;
    var value := rax.heap[link.parent].slots[link.idx].val;
    assert SlotsOf([]) == [];
    leaf := Malloc(rax, Node(Some(value), false, [], []));
    ghost var t2 := ValueNode(leaf, value);
    assert CtxBag(ctx) + KidBag(kid) == CtxBag(ctx);
    OwnsAdd(old(rax.heap), CtxBag(ctx), leaf, NodeOf(t2));
    assert KidBag(Sub(t2)) == Bag(t2) == multiset{leaf};
    Replace(old(rax.heap), rax.head, ctx, kid, rax.heap, Sub(ValueNode(leaf, value)));
    WriteLink(rax, link, Ptr(leaf));
    rax.numnodes := rax.numnodes + 1;
  }

  /** raxReallocForData, and the store into the parent's link. */
  method ReallocNode(rax: Rax, h: Addr, link: Link, ghost ctx: Ctx, ghost t: Tree) returns (h2: Addr)
    requires Holds(rax.heap, rax.head, ctx, Sub(t)) && h == t.addr && link == LinkOf(ctx)
    modifies rax`heap, rax`head
    ensures Holds(rax.heap, rax.head, ctx, Sub(t.(addr := h2)))
    ensures |rax.heap| == |old(rax.heap)|
  {
    hide Bag, KidBag, KidsBag, CtxBag, Owns;
    assert Rep(rax.heap, t);
    h2 := Realloc(rax, h, rax.heap[h]);
    Rewritten(old(rax.heap), rax.head, ctx, t, rax.heap, t.(addr := h2));
    WriteLink(rax, link, Ptr(h2));
  }

  /** The node at the walk's end becomes a key, or its key gets a new value. */
  method SetNodeData(rax: Rax, h: Addr, link: Link, data: Val, grow: bool, ghost ctx: Ctx, ghost t: Tree)
    returns (h2: Addr)
    requires Holds(rax.heap, rax.head, ctx, Sub(t)) && h == t.addr && link == LinkOf(ctx)
    modifies rax`heap, rax`head
    ensures Holds(rax.heap, rax.head, ctx, Sub(t.(addr := h2, key := Some(data))))
    ensures |rax.heap| == |old(rax.heap)|
  {
    hide Bag, KidBag, KidsBag, CtxBag, Owns;
    h2 := h;
    if grow && data != NULL {
      h2 := ReallocNode(rax, h, link, ctx, t);
    }
    ghost var t2 := t.(addr := h2);
    assert Rep(rax.heap, t2);
    ghost var h0, t3 := rax.heap, t2.(key := Some(data));
    rax.heap := rax.heap[h2 := rax.heap[h2].(key := Some(data))];
    assert rax.heap == (h0 - {h2})[h2 := NodeOf(t3)];
    assert rax.heap.Keys == h0.Keys;
    Rewritten(h0, rax.head, ctx, t2, rax.heap, t3);
    SameLink(rax.heap, ctx, Ptr(h2), h0);
  }

  /** Rewriting one block, in place or moved, without touching its children. */
  lemma Rewritten(h: Heap, head: Addr, ctx: Ctx, t: Tree, h2: Heap, t2: Tree)
    requires Holds(h, head, ctx, Sub(t)) && t2.kids == t.kids
    requires t2.addr == t.addr || t2.addr !in h
    requires h2 == (h - {t.addr})[t2.addr := NodeOf(t2)]
    ensures ctx.In? ==> ctx.node.addr in h2 && ctx.idx < |h2[ctx.node.addr].slots|
    ensures Holds(LinkHeap(h2, LinkOf(ctx), Ptr(t2.addr)), if ctx.Top? then t2.addr else head, ctx, Sub(t2))
  {
    RewrittenBelow(h, head, ctx, t, h2, t2);
    Replace(h, head, ctx, Sub(t), h2, Sub(t2));
  }

  lemma RewrittenBelow(h: Heap, head: Addr, ctx: Ctx, t: Tree, h2: Heap, t2: Tree)
    requires Holds(h, head, ctx, Sub(t)) && t2.kids == t.kids
    requires t2.addr == t.addr || t2.addr !in h
    requires h2 == (h - {t.addr})[t2.addr := NodeOf(t2)]
    ensures RepKid(h2, Sub(t2)) && Owns(h2, CtxBag(ctx) + KidBag(Sub(t2)))
    ensures forall a | a in CtxBag(ctx) && a in h :: a in h2 && h2[a] == h[a]
  {
    KidsKept(h, head, ctx, t, h2);
    MoveOwns(h, CtxBag(ctx), t, t2);
    assert Rep(h2, t2);
  }

  lemma MoveOwns(h: Heap, bag: multiset<Addr>, t: Tree, t2: Tree)
    requires Owns(h, bag + KidsBag(t.kids) + multiset{t.addr}) && t2.kids == t.kids
    requires t2.addr == t.addr || t2.addr !in h
    ensures Owns((h - {t.addr})[t2.addr := NodeOf(t2)], bag + KidBag(Sub(t2)))
  {
    var rest := bag + KidsBag(t.kids);
    OwnsRemove(h, rest, t.addr);
    OwnsAdd(h - {t.addr}, rest, t2.addr, NodeOf(t2));
    assert KidBag(Sub(t2)) == Bag(t2) == multiset{t2.addr} + KidsBag(t.kids);
    assert rest + multiset{t2.addr} == bag + KidBag(Sub(t2));
  }

  /** Storing the word a link already holds changes nothing. */
  lemma SameLink(h: Heap, ctx: Ctx, slot: Slot, h0: Heap)
    requires CtxRep(h0, ctx, slot)
    requires ctx.In? ==> ctx.node.addr in h && h[ctx.node.addr] == h0[ctx.node.addr]
    ensures ctx.In? ==> ctx.idx < |h[ctx.node.addr].slots|
    ensures LinkHeap(h, LinkOf(ctx), slot) == h
  {
    if ctx.In? {
      var n := h[ctx.node.addr];
      assert n.slots[ctx.idx := slot] == n.slots;
    }
  }

  // ------------------------------------------------------------------ splitting a compressed node

  lemma OneChildRep(h: Heap, a: Addr, key: Option<Val>, edges: seq<byte>, kid: Kid)
    requires a in h && h[a] == Node(key, |edges| > 1, edges, [SlotOf(kid)]) && RepKid(h, kid)
    ensures RepKid(h, Sub(OneChild(a, key, edges, kid)))
    ensures KidBag(Sub(OneChild(a, key, edges, kid))) == KidBag(kid) + multiset{a}
  {
    var t := OneChild(a, key, edges, kid);
    assert SlotsOf(t.kids) == [SlotOf(kid)];
    assert Rep(h, t);
    assert KidBag(Sub(t)) == Bag(t) == multiset{a} + KidsBag([kid]);
    assert KidsBag([kid]) == KidBag(kid) + KidsBag([kid][1..]);
  }

  /** Allocate and fill a node with a single child that is already stored. `bag` is everything
      else in use. */
  method NewOneChild(rax: Rax, key: Option<Val>, edges: seq<byte>, slot: Slot, ghost kid: Kid, ghost bag: multiset<Addr>)
    returns (a: Addr)
    requires RepKid(rax.heap, kid) && slot == SlotOf(kid) && Owns(rax.heap, bag + KidBag(kid))
    modifies rax`heap
    ensures forall x | x in old(rax.heap) :: x in rax.heap && rax.heap[x] == old(rax.heap[x])
    ensures RepKid(rax.heap, Sub(OneChild(a, key, edges, kid)))
    ensures Owns(rax.heap, bag + KidBag(Sub(OneChild(a, key, edges, kid))))
    ensures |rax.heap| == |old(rax.heap)| + 1
  {
    ghost var h0 := rax.heap;
    a := Malloc(rax, Node(key, |edges| > 1, edges, [slot]));
    RepFrame(h0, rax.heap, kid);
    OneChildRep(rax.heap, a, key, edges, kid);
    OwnsAdd(h0, bag + KidBag(kid), a, rax.heap[a]);
    assert bag + KidBag(Sub(OneChild(a, key, edges, kid))) == bag + KidBag(kid) + multiset{a};
  }

  /** New nodes were built beside the tree; linking them in and freeing the node they replace
      gives the tree with the replacement. */
  lemma SwapIn(h: Heap, head: Addr, ctx: Ctx, t: Tree, h2: Heap, t2: Tree)
    requires Holds(h, head, ctx, Sub(t))
    requires forall a | a in h :: a in h2 && h2[a] == h[a]
    requires RepKid(h2, Sub(t2)) && Owns(h2, CtxBag(ctx) + KidBag(Sub(t2)) + multiset{t.addr})
    ensures ctx.In? ==> ctx.node.addr in h2 && ctx.idx < |h2[ctx.node.addr].slots|
    ensures t.addr in LinkHeap(h2, LinkOf(ctx), Ptr(t2.addr))
    ensures Holds(LinkHeap(h2, LinkOf(ctx), Ptr(t2.addr)) - {t.addr},
                  if ctx.Top? then t2.addr else head, ctx, Sub(t2))
  {
    hide Rep, RepKid, CtxRep;
    var bag := CtxBag(ctx) + KidBag(Sub(t2));
    OwnsRemove(h2, bag, t.addr);
    var h3 := h2 - {t.addr};
    RepFrame(h2, h3, Sub(t2));
    Replace(h, head, ctx, Sub(t), h3, Sub(t2));
    if ctx.In? {
      assert ctx.node.addr in CtxBag(ctx);
      LinkThenFree(h2, ctx.node.addr, ctx.idx, Ptr(t2.addr), t.addr);
    }
  }

  lemma LinkThenFree(h: Heap, p: Addr, i: nat, slot: Slot, a: Addr)
    requires p in h && p != a && i < |h[p].slots|
    ensures SetSlot(h, p, i, slot) - {a} == SetSlot(h - {a}, p, i, slot)
  {
  }

  /** Replacing a subtree by one with the same entries. */
  lemma SameEntries(ctx: Ctx, kid: Kid, kid2: Kid)
    requires CtxOk(ctx) && Fits(ctx, kid) && Fits(ctx, kid2)
    requires KidEntries(kid, CtxKey(ctx)) == KidEntries(kid2, CtxKey(ctx))
    ensures Entries(Plug(ctx, kid), []) == Entries(Plug(ctx, kid2), [])
  {
    PlugEntries(ctx, kid);
    PlugEntries(ctx, kid2);
  }

  /** What a compressed node is replaced by when the walk stopped inside it: its first `j` bytes,
      then `rest`, which hangs below those bytes. */
  function Trimmed(t: Tree, a: Addr, j: nat, rest: Tree): Tree
    requires j <= |t.edges|
  {
    if j == 0 then rest else OneChild(a, t.key, t.edges[..j], Sub(rest))
  }

  /** The split node of ALGO 1 with the old byte as its only edge; `post` is the postfix node. */
  function SplitNode(t: Tree, a: Addr, j: nat, post: Kid): Tree
    requires j < |t.edges|
  {
    OneChild(a, if j == 0 then t.key else None, [t.edges[j]], post)
  }

  function Postfix(t: Tree, a: Addr, j: nat): Kid
    requires j < |t.edges| && |t.kids| == 1
  {
    if j + 1 == |t.edges| then t.kids[0] else Sub(OneChild(a, None, t.edges[j + 1..], t.kids[0]))
  }

  lemma SplitNodeEntries(t: Tree, ap: Addr, a: Addr, at: Addr, j: nat, pre: Key)
    requires WF(t) && t.compr && j < |t.edges|
    ensures var sp := SplitNode(t, a, j, Postfix(t, ap, j));
            && WF(sp) && Live(sp) && WF(Trimmed(t, at, j, sp)) && Live(Trimmed(t, at, j, sp))
            && Entries(Trimmed(t, at, j, sp), pre) == Entries(t, pre)
  {
    var post := Postfix(t, ap, j);
    var sp := SplitNode(t, a, j, post);
    var pre1 := pre + t.edges[..j];
    var pre2 := pre1 + [t.edges[j]];
    assert KidWF(t.kids[0]);
    if j + 1 < |t.edges| {
      OneChildEntries(ap, None, t.edges[j + 1..], t.kids[0], pre2);
      assert WF(post.node);
    }
    assert pre2 + t.edges[j + 1..] == pre + t.edges;
    assert j + 1 == |t.edges| ==> pre2 == pre + t.edges;
    assert KidEntries(post, pre2) == KidEntries(t.kids[0], pre + t.edges);
    OneChildEntries(a, sp.key, [t.edges[j]], post, pre1);
    assert WF(sp);
    if j > 0 {
      OneChildEntries(at, t.key, t.edges[..j], Sub(sp), pre);
      assert WF(Trimmed(t, at, j, sp));
    } else {
      assert pre1 == pre;
    }
  }

  /** Steps 2 to 5 of ALGO 1: the replacement is built beside the tree. `at` is its topmost node
      and `h2` the split node. */
  method BuildSplit(rax: Rax, n: Node, j: nat, ghost t: Tree, ghost bag: multiset<Addr>)
    returns (at: Addr, h2: Addr, ghost ap: Addr)
    requires n == NodeOf(t) && NodeOk(t) && t.compr && j < |t.edges|
    requires RepKid(rax.heap, t.kids[0]) && Owns(rax.heap, bag + KidBag(t.kids[0]))
    requires rax.numnodes == |rax.heap|
    modifies rax`heap, rax`numnodes
    ensures forall x | x in old(rax.heap) :: x in rax.heap && rax.heap[x] == old(rax.heap[x])
    ensures var tt := Trimmed(t, at, j, SplitNode(t, h2, j, Postfix(t, ap, j)));
            at == tt.addr && RepKid(rax.heap, Sub(tt)) && Owns(rax.heap, bag + KidBag(Sub(tt)))
    ensures rax.numnodes == |rax.heap| - 1
  {
    ghost var kid := t.kids[0];
    var post := n.slots[0];
    ghost var tp := kid;
    ap := 0;
    if j + 1 < |n.edges| {
      var a := NewOneChild(rax, None, n.edges[j + 1..], post, kid, bag);
      ap := a;
      tp := Sub(OneChild(ap, None, n.edges[j + 1..], kid));
      post := Ptr(a);
      rax.numnodes := rax.numnodes + 1;
    }
    assert tp == Postfix(t, ap, j);
    h2 := NewOneChild(rax, if j == 0 then n.key else None, [n.edges[j]], post, tp, bag);
    at := h2;
    if j > 0 {
      at := NewOneChild(rax, n.key, n.edges[..j], Ptr(h2), Sub(SplitNode(t, h2, j, tp)), bag);
      rax.numnodes := rax.numnodes + 1;
    }
  }

  /** ALGO 1: a mismatch inside a compressed node. */
  method SplitOnMismatch(rax: Rax, h: Addr, j: nat, link: Link, ghost ctx: Ctx, ghost t: Tree)
    returns (h2: Addr, link2: Link, ghost ctx2: Ctx, ghost t2: Tree)
    requires Holds(rax.heap, rax.head, ctx, Sub(t)) && h == t.addr && link == LinkOf(ctx)
    requires WF(t) && t.compr && j < |t.edges|
    requires rax.numnodes == |rax.heap|
    modifies rax`heap, rax`head, rax`numnodes
    ensures Holds(rax.heap, rax.head, ctx2, Sub(t2)) && h2 == t2.addr && link2 == LinkOf(ctx2)
    ensures WF(t2) && !t2.compr && t2.edges == [t.edges[j]]
    ensures CtxKey(ctx2) == CtxKey(ctx) + t.edges[..j]
    ensures Entries(Plug(ctx2, Sub(t2)), []) == Entries(Plug(ctx, Sub(t)), [])
    ensures rax.numnodes == |rax.heap|
  {
    hide Bag, KidsBag;
    ghost var h0 := rax.heap;
    assert Rep(h0, t);
    SoleKid(h0, rax.head, ctx, t);
    var at, h', ap := BuildSplit(rax, rax.heap[h], j, t, CtxBag(ctx) + multiset{t.addr});
    h2 := h';
    t2 := SplitNode(t, h2, j, Postfix(t, ap, j));
    ghost var tt := Trimmed(t, at, j, t2);
    SwapBag(rax.heap, ctx, t, tt);
    SwapIn(h0, rax.head, ctx, t, rax.heap, tt);
    SplitNodeEntries(t, ap, h2, at, j, CtxKey(ctx));
    SameEntries(ctx, Sub(t), Sub(tt));
    WriteLink(rax, link, Ptr(at));
    Free(rax, h);
    ctx2, link2 := ctx, link;
    if j > 0 {
      Down(rax.heap, rax.head, ctx, tt, 0);
      ctx2, link2 := In(ctx, tt, 0), SlotLink(at, 0);
    }
  }

  /** What is in use around and below a node with a single child. */
  lemma SoleKid(h: Heap, head: Addr, ctx: Ctx, t: Tree)
    requires Holds(h, head, ctx, Sub(t)) && |t.kids| == 1
    ensures RepKid(h, t.kids[0])
    ensures Owns(h, CtxBag(ctx) + multiset{t.addr} + KidBag(t.kids[0]))
  {
    hide Entries, Below, KidEntries, KidsEntries, MapOf, Own;
    KidsKept(h, head, ctx, t, h);
    assert KidsBag(t.kids) == KidBag(t.kids[0]) + KidsBag(t.kids[1..]);
    assert CtxBag(ctx) + KidsBag(t.kids) + multiset{t.addr} == CtxBag(ctx) + multiset{t.addr} + KidBag(t.kids[0]);
  }

  lemma SwapBag(h: Heap, ctx: Ctx, t: Tree, t2: Tree)
    requires Owns(h, CtxBag(ctx) + multiset{t.addr} + KidBag(Sub(t2)))
    ensures Owns(h, CtxBag(ctx) + KidBag(Sub(t2)) + multiset{t.addr})
  {
    assert CtxBag(ctx) + multiset{t.addr} + KidBag(Sub(t2)) == CtxBag(ctx) + KidBag(Sub(t2)) + multiset{t.addr};
  }

  lemma PostfixNodeEntries(t: Tree, ap: Addr, at: Addr, j: nat, data: Val, pre: Key)
    requires WF(t) && t.compr && 0 < j < |t.edges|
    ensures var post := OneChild(ap, Some(data), t.edges[j..], t.kids[0]);
            && WF(Trimmed(t, at, j, post)) && Live(Trimmed(t, at, j, post))
            && MapOf(Entries(Trimmed(t, at, j, post), pre)) == MapOf(Entries(t, pre))[pre + t.edges[..j] := data]
  {
    var post := OneChild(ap, Some(data), t.edges[j..], t.kids[0]);
    var pre1 := pre + t.edges[..j];
    PostfixShape(t, ap, at, j, data, pre);
    PostfixOrder(t, j, pre);
    assert Entries(t, pre) == Own(t.key, pre) + Below(t, pre);
    hide MapOf, Below, Trimmed, Entries, Own, WF, Live;
    InsertBetween(Own(t.key, pre), pre1, data, Below(t, pre));
  }

  lemma PostfixShape(t: Tree, ap: Addr, at: Addr, j: nat, data: Val, pre: Key)
    requires WF(t) && t.compr && 0 < j < |t.edges|
    ensures var post := OneChild(ap, Some(data), t.edges[j..], t.kids[0]);
            && WF(Trimmed(t, at, j, post)) && Live(Trimmed(t, at, j, post))
            && Entries(Trimmed(t, at, j, post), pre) == Own(t.key, pre) + [Entry(pre + t.edges[..j], data)] + Below(t, pre)
  {
    hide MapOf;
    var post := OneChild(ap, Some(data), t.edges[j..], t.kids[0]);
    var pre1 := pre + t.edges[..j];
    assert KidWF(t.kids[0]);
    OneChildEntries(ap, Some(data), t.edges[j..], t.kids[0], pre1);
    OneChildEntries(at, t.key, t.edges[..j], Sub(post), pre);
    assert Live(post) && WF(post) && KidWF(Sub(post));
    assert Trimmed(t, at, j, post) == OneChild(at, t.key, t.edges[..j], Sub(post));
    assert pre1 + t.edges[j..] == pre + t.edges;
    assert KidEntries(Sub(post), pre1) == Entries(post, pre1) == [Entry(pre1, data)] + Below(t, pre);
    assert Own(t.key, pre) + ([Entry(pre1, data)] + Below(t, pre)) == Own(t.key, pre) + [Entry(pre1, data)] + Below(t, pre);
  }

  lemma PostfixOrder(t: Tree, j: nat, pre: Key)
    requires WF(t) && t.compr && 0 < j < |t.edges|
    ensures AllMore(Below(t, pre), pre + t.edges[..j])
  {
    var pre1 := pre + t.edges[..j];
    assert KidWF(t.kids[0]);
    KidEntriesUnder(t.kids[0], pre + t.edges);
    assert pre1 + t.edges[j..] == pre + t.edges;
    forall i | 0 <= i < |Below(t, pre)| ensures Less(pre1, Below(t, pre)[i].key) {
      PrefixTrans(pre1, pre + t.edges, Below(t, pre)[i].key);
      PrefixLess(pre1, Below(t, pre)[i].key);
    }
  }

  /** ALGO 2: the key ends inside a compressed node. */
  method SplitAtKey(rax: Rax, h: Addr, j: nat, link: Link, data: Val, ghost ctx: Ctx, ghost t: Tree)
    returns (ghost t2: Tree)
    requires Holds(rax.heap, rax.head, ctx, Sub(t)) && h == t.addr && link == LinkOf(ctx)
    requires WF(t) && t.compr && 0 < j < |t.edges|
    requires rax.numnodes == |rax.heap|
    modifies rax`heap, rax`head, rax`numnodes
    ensures Holds(rax.heap, rax.head, ctx, Sub(t2)) && WF(t2) && Live(t2)
    ensures MapOf(Entries(Plug(ctx, Sub(t2)), []))
         == MapOf(Entries(Plug(ctx, Sub(t)), []))[CtxKey(ctx) + t.edges[..j] := data]
    ensures rax.numnodes == |rax.heap|
  {
    ghost var h0 := rax.heap;
    assert Rep(h0, t);
    var n := rax.heap[h];
    ghost var bag := CtxBag(ctx) + multiset{t.addr};
    SoleKid(h0, rax.head, ctx, t);
    var ap := NewOneChild(rax, Some(data), n.edges[j..], n.slots[0], t.kids[0], bag);
    ghost var post := OneChild(ap, Some(data), t.edges[j..], t.kids[0]);
    rax.numnodes := rax.numnodes + 1;
    var at := NewOneChild(rax, n.key, n.edges[..j], Ptr(ap), Sub(post), bag);
    t2 := Trimmed(t, at, j, post);
    SwapBag(rax.heap, ctx, t, t2);
    SwapIn(h0, rax.head, ctx, t, rax.heap, t2);
    PostfixNodeEntries(t, ap, at, j, data, CtxKey(ctx));
    UpdateAt(ctx, Sub(t), Sub(t2), CtxKey(ctx) + t.edges[..j], data);
    WriteLink(rax, link, Ptr(at));
    Free(rax, h);
  }

  // ------------------------------------------------------------------ adding a child

  /** raxNodeFindChildPos: where the edge `c` belongs. */
  method FindChildPos(edges: seq<byte>, c: byte) returns (pos: nat)
    requires Ascending(edges) && c !in edges
    ensures EdgePos(edges, pos, c)
  {
    pos := 0;
    while pos < |edges|
      invariant pos <= |edges| && forall x | 0 <= x < pos :: edges[x] < c
    {
      if edges[pos] > c {
        break;
      }
      assert edges[pos] in edges;
      pos := pos + 1;
    }
  }

  /** The child slots after making room at `pos`; inline child 12 does not fit into slot 13 and
      arrives there as a node of its own at address `m`. */
  function SpillKids(kids: seq<Kid>, pos: nat, m: Addr): seq<Kid> {
    if Spills(kids, pos) then kids[12 := Sub(ValueNode(m, kids[12].val))] else kids
  }

  predicate Spills(kids: seq<Kid>, pos: nat) {
    pos <= 12 && 12 < |kids| && kids[12].Leaf?
  }

  lemma SpillOk(t: Tree, pos: nat, m: Addr, pre: Key)
    requires WF(t) && !t.compr
    ensures var t2 := t.(kids := SpillKids(t.kids, pos, m));
            && WF(t2)
            && Below(t2, pre) == Below(t, pre)
            && (Spills(t.kids, pos) ==> KidsBag(t2.kids) == KidsBag(t.kids) + multiset{m})
  {
    if Spills(t.kids, pos) {
      SpillBelow(t, m, pre);
      SpillBag(t.kids, m);
    }
  }

  lemma SpillBelow(t: Tree, m: Addr, pre: Key)
    requires WF(t) && !t.compr && |t.kids| > 12 && t.kids[12].Leaf?
    ensures var t2 := t.(kids := t.kids[12 := Sub(ValueNode(m, t.kids[12].val))]);
            WF(t2) && Below(t2, pre) == Below(t, pre)
  {
    var v := ValueNode(m, t.kids[12].val);
    var t2 := t.(kids := t.kids[12 := Sub(v)]);
    ValueNodeOk(m, t.kids[12].val, pre + [t.edges[12]]);
    assert KidsWF(t2.kids) by {
      hide WF, Live, Entries, Below;
      forall i | 0 <= i < |t2.kids| ensures KidWF(t2.kids[i]) {
        assert i != 12 ==> t2.kids[i] == t.kids[i];
      }
    }
    assert t2.kids[..12] == t.kids[..12] && t2.kids[13..] == t.kids[13..];
    hide Below, KidEntries, KidsEntries, KidsWF;
    BelowAt(t, 12, pre);
    BelowAt(t2, 12, pre);
  }

  lemma ValueNodeOk(m: Addr, v: Val, pre: Key)
    ensures KidWF(Sub(ValueNode(m, v)))
    ensures KidEntries(Sub(ValueNode(m, v)), pre) == KidEntries(Leaf(v), pre)
  {
    var n := ValueNode(m, v);
    assert KidsWF(n.kids) && NodeOk(n);
    assert WF(n) && Live(n);
    assert Below(n, pre) == [] && Own(n.key, pre) == [Entry(pre, v)];
    assert Entries(n, pre) == [Entry(pre, v)];
  }

  lemma SpillBag(kids: seq<Kid>, m: Addr)
    requires |kids| > 12 && kids[12].Leaf?
    ensures KidsBag(kids[12 := Sub(ValueNode(m, kids[12].val))]) == KidsBag(kids) + multiset{m}
  {
    var v := Sub(ValueNode(m, kids[12].val));
    var kids2 := kids[12 := v];
    assert KidBag(v) == Bag(v.node) == multiset{m} && KidBag(kids[12]) == multiset{};
    assert kids2[..12] == kids[..12] && kids2[13..] == kids[13..];
    hide Bag, KidBag, KidsBag;
    KidsBagAt(kids, 12);
    KidsBagAt(kids2, 12);
  }

  function Insert<T>(s: seq<T>, pos: nat, x: T): seq<T>
    requires pos <= |s|
  {
    s[..pos] + [x] + s[pos..]
  }

  /** Storing the spilled node in slot 13 after the shift is replacing child 12 before it. */
  lemma SpillSlots(kids: seq<Kid>, pos: nat, node: Addr, stale: Addr)
    requires Spills(kids, pos)
    ensures |Insert(SlotsOf(kids), pos, Ptr(stale))| > 13
    ensures Insert(SlotsOf(kids), pos, Ptr(stale))[13 := Ptr(node)] == Insert(SlotsOf(SpillKids(kids, pos, node)), pos, Ptr(stale))
  {
    assert SlotsOf(SpillKids(kids, pos, node)) == SlotsOf(kids)[12 := Ptr(node)];
  }

  /** raxAddChildNoAlloc: make room for an edge. The new slot holds stale bytes; the caller fills it. */
  method AddChildNoAlloc(rax: Rax, h: Addr, c: byte, ghost kids: seq<Kid>, ghost bag: multiset<Addr>)
    returns (h2: Addr, pos: nat, ghost m: Addr, ghost stale: Addr)
    requires h in rax.heap && Owns(rax.heap, bag + multiset{h})
    requires var n := rax.heap[h];
             !n.compr && Ascending(n.edges) && c !in n.edges && |n.edges| == |kids| && n.slots == SlotsOf(kids)
    requires rax.numnodes == |rax.heap|
    modifies rax`heap, rax`numnodes
    ensures EdgePos(old(rax.heap[h]).edges, pos, c) && h2 in rax.heap
    ensures h2 == h || h2 !in old(rax.heap)
    ensures forall x | x in old(rax.heap) && x != h :: x in rax.heap && rax.heap[x] == old(rax.heap[x])
    ensures rax.heap[h2] == Node(old(rax.heap[h]).key, false, Insert(old(rax.heap[h]).edges, pos, c),
                                 Insert(SlotsOf(SpillKids(kids, pos, m)), pos, Ptr(stale)))
    ensures Spills(kids, pos) ==> m != h2 && m in rax.heap && rax.heap[m] == NodeOf(ValueNode(m, kids[12].val))
    ensures Owns(rax.heap, if Spills(kids, pos) then bag + multiset{h2} + multiset{m} else bag + multiset{h2})
    ensures rax.numnodes == |rax.heap|
  {
    ghost var h0 := rax.heap;
    var n := rax.heap[h];
    OwnsRemove(h0, bag, h);
    h2 := Realloc(rax, h, n);
    OwnsAdd(h0 - {h}, bag, h2, n);
    pos := FindChildPos(n.edges, c);
    var slots := n.slots;
    m := 0;
    var garbage: Addr := *;
    stale := garbage;
    if pos <= 12 && 12 < |slots| && slots[12].Inline? {
      ghost var h1 := rax.heap;
      assert SlotsOf([]) == [];
      var node := Malloc(rax, Node(Some(slots[12].val), false, [], []));
      OwnsAdd(h1, bag + multiset{h2}, node, rax.heap[node]);
      slots := Insert(slots, pos, Ptr(garbage))[13 := Ptr(node)];
      rax.numnodes := rax.numnodes + 1;
      m := node;
      SpillSlots(kids, pos, node, stale);
    } else {
      slots := Insert(slots, pos, Ptr(garbage));
    }
    Overwritten(rax.heap, h2, Node(n.key, false, Insert(n.edges, pos, c), slots));
    rax.heap := rax.heap[h2 := Node(n.key, false, Insert(n.edges, pos, c), slots)];
  }

  lemma AddedBag(bag: multiset<Addr>, t2: Tree, kids: seq<Kid>, pos: nat, kid: Kid)
    requires pos <= |kids| && t2.kids == Insert(kids, pos, kid)
    ensures bag + KidBag(Sub(t2)) == bag + KidsBag(kids) + KidBag(kid) + multiset{t2.addr}
  {
    assert KidBag(Sub(t2)) == Bag(t2) == multiset{t2.addr} + KidsBag(t2.kids);
    assert t2.kids[..pos] == kids[..pos] && t2.kids[pos + 1..] == kids[pos..];
    assert kids == kids[..pos] + kids[pos..];
    hide Bag, KidBag, KidsBag, Insert;
    KidsBagAt(t2.kids, pos);
    KidsBagAppend(kids[..pos], kids[pos..]);
  }

  lemma AddedRep(h1: Heap, t2: Tree, kids: seq<Kid>, pos: nat, stale: Slot, kid: Kid)
    requires pos <= |kids| && t2.kids == Insert(kids, pos, kid)
    requires t2.addr in h1 && h1[t2.addr] == NodeOf(t2).(slots := Insert(SlotsOf(kids), pos, stale))
    requires RepKid(h1, kid) && forall i | 0 <= i < |kids| :: RepKid(h1, kids[i])
    requires t2.addr !in KidsBag(kids) + KidBag(kid)
    ensures RepKid(SetSlot(h1, t2.addr, pos, SlotOf(kid)), Sub(t2))
  {
    var hx := SetSlot(h1, t2.addr, pos, SlotOf(kid));
    FilledSlots(kids, pos, stale, kid);
    forall i | 0 <= i < |t2.kids| ensures RepKid(hx, t2.kids[i]) {
      hide SlotsOf, Bag, KidsBag, KidBag, RepKid, Rep;
      if i == pos {
        FilledKid(h1, t2.addr, pos, SlotOf(kid), kid);
      } else {
        var j := if i < pos then i else i - 1;
        assert t2.kids[i] == kids[j];
        if t2.addr in KidBag(kids[j]) { KidBagOfMember(kids, j, t2.addr); }
        FilledKid(h1, t2.addr, pos, SlotOf(kid), kids[j]);
      }
    }
    assert Rep(hx, t2);
  }

  lemma FilledSlots(kids: seq<Kid>, pos: nat, stale: Slot, kid: Kid)
    requires pos <= |kids|
    ensures SlotsOf(Insert(kids, pos, kid)) == Insert(SlotsOf(kids), pos, stale)[pos := SlotOf(kid)]
  {
  }

  lemma FilledKid(h: Heap, a: Addr, pos: nat, slot: Slot, k: Kid)
    requires a in h && pos < |h[a].slots| && RepKid(h, k) && a !in KidBag(k)
    ensures RepKid(SetSlot(h, a, pos, slot), k)
  {
    RepFrame(h, SetSlot(h, a, pos, slot), k);
  }

  /** What raxAddChildNoAlloc left behind: node `h2` with a stale slot at `pos`, possibly the
      spilled leaf `m`, and everything else as it was. */
  ghost predicate MadeRoom(h: Heap, t: Tree, h1: Heap, h2: Addr, pos: nat, c: byte, m: Addr, stale: Addr) {
    && WF(t) && !t.compr && pos <= |t.kids|
    && (forall x | x in h && x != t.addr :: x in h1 && h1[x] == h[x])
    && h2 in h1
    && h1[h2] == Node(t.key, false, Insert(t.edges, pos, c), Insert(SlotsOf(SpillKids(t.kids, pos, m)), pos, Ptr(stale)))
    && (Spills(t.kids, pos) ==> m != h2 && m in h1 && h1[m] == NodeOf(ValueNode(m, t.kids[12].val)))
  }

  function Grown(t: Tree, h2: Addr, pos: nat, c: byte, m: Addr, kid: Kid): Tree
    requires pos <= |t.kids| == |t.edges|
  {
    AddKid(t.(addr := h2, kids := SpillKids(t.kids, pos, m)), pos, c, kid)
  }

  /** Filling the slot that raxAddChildNoAlloc made room for, and pointing the parent at the node,
      completes the child. `h1` is the heap it left; `kid` is already stored there. */
  lemma AddedKid(h: Heap, head: Addr, ctx: Ctx, t: Tree, h1: Heap, h2: Addr, pos: nat, c: byte, m: Addr, stale: Addr, kid: Kid)
    requires Holds(h, head, ctx, Sub(t)) && MadeRoom(h, t, h1, h2, pos, c, m, stale)
    requires h2 == t.addr || h2 !in h
    requires RepKid(h1, kid)
    requires Owns(h1, CtxBag(ctx) + KidsBag(SpillKids(t.kids, pos, m)) + KidBag(kid) + multiset{h2})
    ensures ctx.In? ==> ctx.node.addr in h1 && ctx.node.addr != h2 && ctx.idx < |h1[ctx.node.addr].slots|
    ensures Holds(SetSlot(LinkHeap(h1, LinkOf(ctx), Ptr(h2)), h2, pos, SlotOf(kid)),
                  if ctx.Top? then h2 else head, ctx, Sub(Grown(t, h2, pos, c, m, kid)))
  {
    var kids := SpillKids(t.kids, pos, m);
    var t2 := Grown(t, h2, pos, c, m, kid);
    var hx := SetSlot(h1, h2, pos, SlotOf(kid));
    KidsKept(h, head, ctx, t, h1);
    OwnsRemove(h1, CtxBag(ctx) + KidsBag(kids) + KidBag(kid), h2);
    forall i | 0 <= i < |kids| ensures RepKid(h1, kids[i]) {
      AddedSibling(h1, t, pos, m, i);
    }
    AddedRep(h1, t2, kids, pos, Ptr(stale), kid);
    AddedBag(CtxBag(ctx), t2, kids, pos, kid);
    assert hx.Keys == h1.Keys;
    Replace(h, head, ctx, Sub(t), hx, Sub(t2));
    if ctx.In? {
      assert ctx.node.addr in CtxBag(ctx);
    }
    SlotLinkCommute(h1, LinkOf(ctx), Ptr(h2), h2, pos, SlotOf(kid));
  }

  lemma AddedSibling(h1: Heap, t: Tree, pos: nat, m: Addr, i: nat)
    requires i < |t.kids|
    requires RepKid(h1, t.kids[i])
    requires Spills(t.kids, pos) ==> m in h1 && h1[m] == NodeOf(ValueNode(m, t.kids[12].val))
    ensures RepKid(h1, SpillKids(t.kids, pos, m)[i])
  {
    if Spills(t.kids, pos) && i == 12 {
      assert Rep(h1, ValueNode(m, t.kids[12].val));
    }
  }

  // ------------------------------------------------------------------ the remaining characters

  /** The state of the loop that inserts what the walk did not find: the current node sits at the
      position spelled by the first `i` bytes and has no edge for the next one. A node created by
      the loop itself is still empty. */
  ghost predicate Growing(rax: Rax, s: Key, i: nat, h: Addr, link: Link, ctx: Ctx, t: Tree)
    reads rax
  {
    && Holds(rax.heap, rax.head, ctx, Sub(t))
    && h == t.addr && link == LinkOf(ctx)
    && rax.numnodes == |rax.heap|
    && WF(t) && !t.compr
    && i <= |s| && CtxKey(ctx) == s[..i]
    && (i < |s| ==> s[i] !in t.edges)
    && (i == |s| ==> t.kids == [] && t.key == None)
  }

  lemma EdgePosUnique(edges: seq<byte>, p: nat, q: nat, c: byte)
    requires EdgePos(edges, p, c) && EdgePos(edges, q, c)
    ensures p == q
  {
    assert p < |edges| ==> edges[p] in edges;
    assert q < |edges| ==> edges[q] in edges;
  }

  /** raxAddChildNoAlloc and the stores its callers make: the parent's link and the new slot.
      `h0` is the heap before the child `kid` was allocated. */
  method AddChild(rax: Rax, h: Addr, link: Link, c: byte, slot: Slot, ghost h0: Heap, ghost ctx: Ctx, ghost t: Tree, ghost kid: Kid)
    returns (h2: Addr, pos: nat, ghost m: Addr)
    requires Holds(h0, rax.head, ctx, Sub(t)) && h == t.addr && link == LinkOf(ctx)
    requires forall x | x in h0 :: x in rax.heap && rax.heap[x] == h0[x]
    requires RepKid(rax.heap, kid) && slot == SlotOf(kid)
    requires Owns(rax.heap, CtxBag(ctx) + KidsBag(t.kids) + KidBag(kid) + multiset{h})
    requires WF(t) && !t.compr && c !in t.edges
    requires rax.numnodes == |rax.heap|
    modifies rax`heap, rax`head, rax`numnodes
    ensures EdgePos(t.edges, pos, c)
    ensures Holds(rax.heap, rax.head, ctx, Sub(Grown(t, h2, pos, c, m, kid)))
    ensures rax.numnodes == |rax.heap|
  {
    hide KidsBag, CtxBag, Bag, KidBag, Owns;
    assert Rep(h0, t);
    ghost var h1 := rax.heap;
    ghost var bag := CtxBag(ctx) + KidsBag(t.kids) + KidBag(kid);
    ghost var stale;
    h2, pos, m, stale := AddChildNoAlloc(rax, h, c, t.kids, bag);
    assert MadeRoom(h1, t, rax.heap, h2, pos, c, m, stale);
    RoomFor(h0, rax.head, ctx, t, h1, rax.heap, h2, pos, c, m, stale, kid);
    WriteLink(rax, link, Ptr(h2));
    WriteLink(rax, SlotLink(h2, pos), slot);
  }

  /** Once the parent points at the grown node `h2` and its slot `pos` at the new child, the tree is stored. */
  ghost predicate ChildLinked(hx: Heap, head: Addr, ctx: Ctx, h2: Addr, pos: nat, kid: Kid, t2: Tree) {
    && (ctx.In? ==> ctx.node.addr in hx && ctx.node.addr != h2 && ctx.idx < |hx[ctx.node.addr].slots|)
    && h2 in hx && pos < |hx[h2].slots|
    && Holds(SetSlot(LinkHeap(hx, LinkOf(ctx), Ptr(h2)), h2, pos, SlotOf(kid)), if ctx.Top? then h2 else head, ctx, Sub(t2))
  }

  lemma RoomFor(h0: Heap, head: Addr, ctx: Ctx, t: Tree, h1: Heap, hx: Heap, h2: Addr, pos: nat, c: byte, m: Addr, stale: Addr, kid: Kid)
    requires Holds(h0, head, ctx, Sub(t)) && MadeRoom(h1, t, hx, h2, pos, c, m, stale)
    requires forall x | x in h0 :: x in h1 && h1[x] == h0[x]
    requires h2 == t.addr || h2 !in h1
    requires RepKid(h1, kid)
    requires Owns(h1, CtxBag(ctx) + KidsBag(t.kids) + KidBag(kid) + multiset{t.addr})
    requires var bag := CtxBag(ctx) + KidsBag(t.kids) + KidBag(kid);
             Owns(hx, if Spills(t.kids, pos) then bag + multiset{h2} + multiset{m} else bag + multiset{h2})
    ensures ChildLinked(hx, head, ctx, h2, pos, kid, Grown(t, h2, pos, c, m, kid))
  {
    RoomBag(h1, CtxBag(ctx), t, hx, h2, pos, c, m, stale, kid);
    AddedKid(h0, head, ctx, t, hx, h2, pos, c, m, stale, kid);
  }

  lemma RoomBag(h1: Heap, bag: multiset<Addr>, t: Tree, hx: Heap, h2: Addr, pos: nat, c: byte, m: Addr, stale: Addr, kid: Kid)
    requires MadeRoom(h1, t, hx, h2, pos, c, m, stale)
    requires RepKid(h1, kid)
    requires Owns(h1, bag + KidsBag(t.kids) + KidBag(kid) + multiset{t.addr})
    requires var b := bag + KidsBag(t.kids) + KidBag(kid);
             Owns(hx, if Spills(t.kids, pos) then b + multiset{h2} + multiset{m} else b + multiset{h2})
    ensures Owns(hx, bag + KidsBag(SpillKids(t.kids, pos, m)) + KidBag(kid) + multiset{h2})
    ensures RepKid(hx, kid)
  {
    var b := bag + KidsBag(t.kids) + KidBag(kid);
    SpillOk(t, pos, m, []);
    if Spills(t.kids, pos) {
      assert bag + (KidsBag(t.kids) + multiset{m}) + KidBag(kid) + multiset{h2} == b + multiset{h2} + multiset{m};
    }
    OwnsRemove(h1, b, t.addr);
    RepFrame(h1, hx, kid);
  }

  /** A new edge for the last byte of the key with the value inline. */
  method AddInlineChild(rax: Rax, s: Key, h: Addr, link: Link, data: Val, ghost ctx: Ctx, ghost t: Tree, ghost at: nat)
    returns (ghost t2: Tree)
    requires |s| > 0 && Growing(rax, s, |s| - 1, h, link, ctx, t)
    requires EdgePos(t.edges, at, s[|s| - 1]) && at < INLINE_SLOTS
    modifies rax`heap, rax`head, rax`numnodes
    ensures Holds(rax.heap, rax.head, ctx, Sub(t2)) && WF(t2) && Live(t2)
    ensures rax.numnodes == |rax.heap|
    ensures MapOf(Entries(Plug(ctx, Sub(t2)), [])) == MapOf(Entries(Plug(ctx, Sub(t)), []))[s := data]
  {
    hide Holds, MapOf, Entries, CtxBag, KidsBag, KidWF, Plug, CtxOk, Insert, Ascending, Bag, KidBag, Owns,
         Below, KidEntries, KidsEntries, Own, CtxBefore, CtxAfter, CtxKey, LeftOf, RightOf;
    ghost var h0 := rax.heap;
    var c := s[|s| - 1];
    ghost var kid := Leaf(data);
    GrowingNode(rax, s, |s| - 1, h, link, ctx, t);
    KidsKept(h0, rax.head, ctx, t, h0);
    NoLeafBag(CtxBag(ctx) + KidsBag(t.kids), data);
    var h2, pos, m := AddChild(rax, h, link, c, Inline(data), h0, ctx, t, kid);
    EdgePosUnique(t.edges, at, pos, c);
    t2 := Grown(t, h2, pos, c, m, kid);
    GrownOk(ctx, t, h2, pos, c, m, kid);
    assert s == s[..|s| - 1] + [c];
    GrownEntries(ctx, t, h2, pos, c, m, data, s);
    GrownLeafOk(t2, pos);
  }

  lemma NoLeafBag(bag: multiset<Addr>, data: Val)
    ensures bag + KidBag(Leaf(data)) == bag
  {
  }

  lemma GrownLeafOk(t2: Tree, pos: nat)
    requires NodeOk(t2) && pos < |t2.kids| && t2.kids[pos].Leaf?
    requires forall j | 0 <= j < |t2.kids| && j != pos :: KidWF(t2.kids[j])
    ensures WF(t2) && Live(t2)
  {
    forall j | 0 <= j < |t2.kids| ensures KidWF(t2.kids[j]) {}
  }

  lemma GrownOk(ctx: Ctx, t: Tree, h2: Addr, pos: nat, c: byte, m: Addr, kid: Kid)
    requires CtxOk(ctx) && WF(t) && !t.compr && EdgePos(t.edges, pos, c) && (kid.Leaf? ==> pos < INLINE_SLOTS)
    ensures var t2 := Grown(t, h2, pos, c, m, kid);
            && NodeOk(t2) && pos < |t2.kids| && t2.kids[pos] == kid
            && (forall j | 0 <= j < |t2.kids| && j != pos :: KidWF(t2.kids[j]))
            && CtxOk(In(ctx, t2, pos)) && CtxKey(In(ctx, t2, pos)) == CtxKey(ctx) + [c]
            && CtxBefore(In(ctx, t2, pos)) + CtxAfter(In(ctx, t2, pos))
               == CtxBefore(ctx) + Entries(t, CtxKey(ctx)) + CtxAfter(ctx)
  {
    hide KidsEntries, KidEntries, MapOf;
    var pre := CtxKey(ctx);
    SpillOk(t, pos, m, pre);
    var t1 := t.(addr := h2, kids := SpillKids(t.kids, pos, m));
    var t2 := Grown(t, h2, pos, c, m, kid);
    assert Below(t1, pre) == Below(t, pre);
    AddKidOk(t1, pos, c, kid);
    AddKidEntries(t1, pos, c, kid, pre);
    Regroup6(CtxBefore(ctx), Own(t.key, pre), LeftOf(t2, pos, pre), [], RightOf(t2, pos + 1, pre), CtxAfter(ctx));
    assert Own(t.key, pre) + LeftOf(t2, pos, pre) + [] + RightOf(t2, pos + 1, pre) == Entries(t, pre);
    assert CtxBefore(In(ctx, t2, pos)) + [] + CtxAfter(In(ctx, t2, pos))
        == CtxBefore(In(ctx, t2, pos)) + CtxAfter(In(ctx, t2, pos));
  }

  lemma GrownEntries(ctx: Ctx, t: Tree, h2: Addr, pos: nat, c: byte, m: Addr, data: Val, s: Key)
    requires CtxOk(ctx) && WF(t) && !t.compr && EdgePos(t.edges, pos, c) && pos < INLINE_SLOTS
    requires s == CtxKey(ctx) + [c]
    ensures var t2 := Grown(t, h2, pos, c, m, Leaf(data));
            MapOf(Entries(Plug(ctx, Sub(t2)), [])) == MapOf(Entries(Plug(ctx, Sub(t)), []))[s := data]
  {
    var kid := Leaf(data);
    GrownOk(ctx, t, h2, pos, c, m, kid);
    var t2 := Grown(t, h2, pos, c, m, kid);
    var ctx2 := In(ctx, t2, pos);
    PlugEntries(ctx2, kid);
    PlugEntries(ctx, Sub(t));
    assert Put(t2, pos, kid) == t2 by {
      assert t2.kids[pos := kid] == t2.kids;
    }
    CtxOrder(ctx2, s);
    InsertBetween(CtxBefore(ctx2), s, data, CtxAfter(ctx2));
  }

  /** raxNewNode(0,0). */
  method NewEmptyNode(rax: Rax, h: Addr, ghost bag: multiset<Addr>) returns (child: Addr)
    requires Owns(rax.heap, bag + multiset{h})
    modifies rax`heap
    ensures forall x | x in old(rax.heap) :: x in rax.heap && rax.heap[x] == old(rax.heap[x])
    ensures Owns(rax.heap, bag + KidBag(Sub(EmptyNode(child))) + multiset{h})
    ensures RepKid(rax.heap, Sub(EmptyNode(child)))
    ensures |rax.heap| == |old(rax.heap)| + 1
  {
    ghost var h0 := rax.heap;
    assert SlotsOf([]) == [];
    child := Malloc(rax, Node(None, false, [], []));
    EmptyBag(h0, bag, h, child, rax.heap[child]);
  }

  /** A new edge to a new empty node (raxAddChild). */
  method AddEmptyChild(rax: Rax, s: Key, i: nat, h: Addr, link: Link, ghost ctx: Ctx, ghost t: Tree)
    returns (child: Addr, link2: Link, ghost ctx2: Ctx)
    requires i < |s| && Growing(rax, s, i, h, link, ctx, t)
    modifies rax`heap, rax`head, rax`numnodes
    ensures Growing(rax, s, i + 1, child, link2, ctx2, EmptyNode(child))
    ensures Entries(Plug(ctx2, Sub(EmptyNode(child))), []) == Entries(Plug(ctx, Sub(t)), [])
  {
    hide KidsBag, CtxBag, Bag, KidBag, Owns;
    ghost var h0 := rax.heap;
    var c := s[i];
    KidsKept(h0, rax.head, ctx, t, h0);
    child := NewEmptyNode(rax, h, CtxBag(ctx) + KidsBag(t.kids));
    rax.numnodes := rax.numnodes + 1;
    ghost var kid := Sub(EmptyNode(child));
    var h2, pos, m := AddChild(rax, h, link, c, Ptr(child), h0, ctx, t, kid);
    ctx2, link2 := In(ctx, Grown(t, h2, pos, c, m, kid), pos), SlotLink(h2, pos);
    GrownDown(rax.heap, rax.head, ctx, t, h2, pos, c, m, child);
    TakeNext(s, i);
    assert WF(EmptyNode(child));
  }

  lemma TakeNext(s: Key, i: nat)
    requires i < |s|
    ensures s[..i] + [s[i]] == s[..i + 1]
  {
  }

  lemma GrownDown(h: Heap, head: Addr, ctx: Ctx, t: Tree, h2: Addr, pos: nat, c: byte, m: Addr, child: Addr)
    requires WF(t) && !t.compr && EdgePos(t.edges, pos, c)
    requires Holds(h, head, ctx, Sub(Grown(t, h2, pos, c, m, Sub(EmptyNode(child)))))
    ensures var t2 := Grown(t, h2, pos, c, m, Sub(EmptyNode(child)));
            var ctx2 := In(ctx, t2, pos);
            && Holds(h, head, ctx2, Sub(EmptyNode(child)))
            && CtxKey(ctx2) == CtxKey(ctx) + [c]
            && Entries(Plug(ctx2, Sub(EmptyNode(child))), []) == Entries(Plug(ctx, Sub(t)), [])
  {
    var kid := Sub(EmptyNode(child));
    var t2 := Grown(t, h2, pos, c, m, kid);
    GrownOk(ctx, t, h2, pos, c, m, kid);
    Down(h, head, ctx, t2, pos);
    EmptyKidEntries(ctx, t, In(ctx, t2, pos), child);
  }

  lemma EmptyKidEntries(ctx: Ctx, t: Tree, ctx2: Ctx, child: Addr)
    requires CtxOk(ctx) && CtxOk(ctx2)
    requires CtxBefore(ctx2) + CtxAfter(ctx2) == CtxBefore(ctx) + Entries(t, CtxKey(ctx)) + CtxAfter(ctx)
    ensures Entries(Plug(ctx2, Sub(EmptyNode(child))), []) == Entries(Plug(ctx, Sub(t)), [])
  {
    var kid := Sub(EmptyNode(child));
    PlugEntries(ctx2, kid);
    PlugEntries(ctx, Sub(t));
    EmptyEntries(child, CtxKey(ctx2));
    NothingBetween(CtxBefore(ctx2), CtxAfter(ctx2));
  }

  lemma EmptyEntries(child: Addr, pre: Key)
    ensures KidEntries(Sub(EmptyNode(child)), pre) == []
  {
    assert Entries(EmptyNode(child), pre) == [];
  }

  lemma EmptyBag(h: Heap, bag: multiset<Addr>, a: Addr, child: Addr, n: Node)
    requires Owns(h, bag + multiset{a}) && child !in h && n == NodeOf(EmptyNode(child))
    ensures Owns(h[child := n], bag + KidBag(Sub(EmptyNode(child))) + multiset{a})
    ensures RepKid(h[child := n], Sub(EmptyNode(child)))
  {
    OwnsAdd(h, bag + multiset{a}, child, n);
    assert KidBag(Sub(EmptyNode(child))) == Bag(EmptyNode(child)) == multiset{child};
    assert bag + multiset{a} + multiset{child} == bag + multiset{child} + multiset{a};
    assert Rep(h[child := n], EmptyNode(child));
  }

  /** raxCompressNode on a node without children, together with the stores into the parent's link
      and the only slot. */
  method CompressNode(rax: Rax, h: Addr, link: Link, bytes: seq<byte>, slot: Slot, ghost h0: Heap, ghost ctx: Ctx, ghost t: Tree, ghost kid: Kid)
    returns (h2: Addr)
    requires Holds(h0, rax.head, ctx, Sub(t)) && h == t.addr && link == LinkOf(ctx)
    requires forall x | x in h0 :: x in rax.heap && rax.heap[x] == h0[x]
    requires RepKid(rax.heap, kid) && slot == SlotOf(kid)
    requires Owns(rax.heap, CtxBag(ctx) + KidBag(kid) + multiset{h})
    requires t.kids == [] && |bytes| > 1
    requires rax.numnodes == |rax.heap|
    modifies rax`heap, rax`head, rax`numnodes
    ensures Holds(rax.heap, rax.head, ctx, Sub(OneChild(h2, t.key, bytes, kid)))
    ensures rax.numnodes == |rax.heap|
  {
    assert Rep(h0, t);
    ghost var h1 := rax.heap;
    var garbage: Addr := *;
    h2 := Realloc(rax, h, Node(rax.heap[h].key, true, bytes, [Ptr(garbage)]));
    Compressed(h0, rax.head, ctx, t, h1, rax.heap, h2, bytes, Ptr(garbage), kid);
    WriteLink(rax, link, Ptr(h2));
    WriteLink(rax, SlotLink(h2, 0), slot);
  }

  lemma Compressed(h0: Heap, head: Addr, ctx: Ctx, t: Tree, h1: Heap, hx: Heap, h2: Addr, bytes: seq<byte>, stale: Slot, kid: Kid)
    requires Holds(h0, head, ctx, Sub(t)) && t.kids == [] && |bytes| > 1
    requires forall x | x in h0 :: x in h1 && h1[x] == h0[x]
    requires RepKid(h1, kid) && Owns(h1, CtxBag(ctx) + KidBag(kid) + multiset{t.addr})
    requires h2 == t.addr || h2 !in h1
    requires hx == (h1 - {t.addr})[h2 := Node(t.key, true, bytes, [stale])]
    ensures ctx.In? ==> ctx.node.addr in hx && ctx.node.addr != h2 && ctx.idx < |hx[ctx.node.addr].slots|
    ensures Holds(SetSlot(LinkHeap(hx, LinkOf(ctx), Ptr(h2)), h2, 0, SlotOf(kid)),
                  if ctx.Top? then h2 else head, ctx, Sub(OneChild(h2, t.key, bytes, kid)))
  {
    var t2 := OneChild(h2, t.key, bytes, kid);
    var hy := SetSlot(hx, h2, 0, SlotOf(kid));
    CompressedBelow(CtxBag(ctx), t, h1, hx, h2, bytes, stale, kid);
    Replace(h0, head, ctx, Sub(t), hy, Sub(t2));
    if ctx.In? {
      assert ctx.node.addr in CtxBag(ctx);
    }
    SlotLinkCommute(hx, LinkOf(ctx), Ptr(h2), h2, 0, SlotOf(kid));
  }

  lemma CompressedBelow(bag: multiset<Addr>, t: Tree, h1: Heap, hx: Heap, h2: Addr, bytes: seq<byte>, stale: Slot, kid: Kid)
    requires |bytes| > 1
    requires RepKid(h1, kid) && Owns(h1, bag + KidBag(kid) + multiset{t.addr})
    requires h2 == t.addr || h2 !in h1
    requires hx == (h1 - {t.addr})[h2 := Node(t.key, true, bytes, [stale])]
    ensures var hy := SetSlot(hx, h2, 0, SlotOf(kid));
            && RepKid(hy, Sub(OneChild(h2, t.key, bytes, kid)))
            && Owns(hy, bag + KidBag(Sub(OneChild(h2, t.key, bytes, kid))))
    ensures forall a | a in bag :: a in h1 && a != h2 && a in hx && hx[a] == h1[a]
  {
    var hy := SetSlot(hx, h2, 0, SlotOf(kid));
    OwnsRemove(h1, bag + KidBag(kid), t.addr);
    OwnsAdd(h1 - {t.addr}, bag + KidBag(kid), h2, hx[h2]);
    assert hy.Keys == hx.Keys;
    RepFrame(h1, hy, kid);
    OneChildRep(hy, h2, t.key, bytes, kid);
    assert bag + KidBag(Sub(OneChild(h2, t.key, bytes, kid))) == bag + KidBag(kid) + multiset{h2};
    forall a | a in bag ensures a in h1 && a != h2 && a in hx && hx[a] == h1[a] {
      assert a in bag + KidBag(kid) + multiset{t.addr};
    }
  }

  lemma LeafBag(h: Heap, head: Addr, ctx: Ctx, t: Tree, data: Val)
    requires Holds(h, head, ctx, Sub(t)) && t.kids == []
    ensures Owns(h, CtxBag(ctx) + KidBag(Leaf(data)) + multiset{t.addr})
    ensures Owns(h, CtxBag(ctx) + multiset{t.addr})
  {
    KidsKept(h, head, ctx, t, h);
    assert CtxBag(ctx) + KidsBag(t.kids) + multiset{t.addr} == CtxBag(ctx) + multiset{t.addr};
    assert CtxBag(ctx) + KidBag(Leaf(data)) + multiset{t.addr} == CtxBag(ctx) + multiset{t.addr};
  }

  /** The whole rest of the key fits into one compressed node ending in an inline leaf. */
  method CompressToLeaf(rax: Rax, s: Key, i: nat, h: Addr, link: Link, data: Val, ghost ctx: Ctx, ghost t: Tree)
    returns (ghost t2: Tree)
    requires i + 1 < |s| <= i + NODE_MAX_SIZE && Growing(rax, s, i, h, link, ctx, t) && t.kids == []
    modifies rax`heap, rax`head, rax`numnodes
    ensures Holds(rax.heap, rax.head, ctx, Sub(t2)) && WF(t2) && Live(t2)
    ensures rax.numnodes == |rax.heap|
    ensures MapOf(Entries(Plug(ctx, Sub(t2)), [])) == MapOf(Entries(Plug(ctx, Sub(t)), []))[s := data]
  {
    ghost var kid := Leaf(data);
    LeafBag(rax.heap, rax.head, ctx, t, data);
    var h2 := CompressNode(rax, h, link, s[i..], Inline(data), rax.heap, ctx, t, kid);
    t2 := OneChild(h2, t.key, s[i..], kid);
    LeafChildEntries(ctx, t, h2, s, i, data);
  }

  lemma LeafChildEntries(ctx: Ctx, t: Tree, h2: Addr, s: Key, i: nat, data: Val)
    requires CtxOk(ctx) && i < |s| <= i + NODE_MAX_SIZE && CtxKey(ctx) == s[..i] && t.kids == []
    ensures var t2 := OneChild(h2, t.key, s[i..], Leaf(data));
            && WF(t2)
            && MapOf(Entries(Plug(ctx, Sub(t2)), [])) == MapOf(Entries(Plug(ctx, Sub(t)), []))[s := data]
  {
    var pre := CtxKey(ctx);
    var t2 := OneChild(h2, t.key, s[i..], Leaf(data));
    assert pre + s[i..] == s;
    OneChildEntries(h2, t.key, s[i..], Leaf(data), pre);
    ChildlessEntries(t, pre);
    AppendEntry(Own(t.key, pre), s, data);
    assert WF(t2);
    UpdateAt(ctx, Sub(t), Sub(t2), s, data);
  }

  lemma AppendEntry(es: seq<Entry>, k: Key, v: Val)
    ensures MapOf(es + [Entry(k, v)]) == MapOf(es)[k := v]
  {
    assert (es + [Entry(k, v)])[..|es|] == es;
  }

  lemma ChildlessEntries(t: Tree, pre: Key)
    requires t.kids == []
    ensures Entries(t, pre) == Own(t.key, pre)
  {
    assert Below(t, pre) == [];
  }

  /** A full compressed node, with more of the key still to come below it. */
  method CompressChunk(rax: Rax, s: Key, i: nat, h: Addr, link: Link, ghost ctx: Ctx, ghost t: Tree)
    returns (child: Addr, link2: Link, ghost ctx2: Ctx)
    requires i + NODE_MAX_SIZE < |s| && Growing(rax, s, i, h, link, ctx, t) && t.kids == []
    modifies rax`heap, rax`head, rax`numnodes
    ensures Growing(rax, s, i + NODE_MAX_SIZE, child, link2, ctx2, EmptyNode(child))
    ensures Entries(Plug(ctx2, Sub(EmptyNode(child))), []) == Entries(Plug(ctx, Sub(t)), [])
  {
    ghost var h0 := rax.heap;
    var bytes := s[i..i + NODE_MAX_SIZE];
    LeafBag(h0, rax.head, ctx, t, 0);
    child := NewEmptyNode(rax, h, CtxBag(ctx));
    rax.numnodes := rax.numnodes + 1;
    var h2 := CompressNode(rax, h, link, bytes, Ptr(child), h0, ctx, t, Sub(EmptyNode(child)));
    ctx2, link2 := In(ctx, OneChild(h2, t.key, bytes, Sub(EmptyNode(child))), 0), SlotLink(h2, 0);
    ChunkDown(rax.heap, rax.head, ctx, t, h2, bytes, child);
    assert s[..i] + bytes == s[..i + NODE_MAX_SIZE];
  }

  lemma ChunkDown(h: Heap, head: Addr, ctx: Ctx, t: Tree, h2: Addr, bytes: seq<byte>, child: Addr)
    requires t.kids == [] && 1 < |bytes| <= NODE_MAX_SIZE
    requires Holds(h, head, ctx, Sub(OneChild(h2, t.key, bytes, Sub(EmptyNode(child)))))
    ensures var t2 := OneChild(h2, t.key, bytes, Sub(EmptyNode(child)));
            var ctx2 := In(ctx, t2, 0);
            && Holds(h, head, ctx2, Sub(EmptyNode(child)))
            && CtxKey(ctx2) == CtxKey(ctx) + bytes
            && Entries(Plug(ctx2, Sub(EmptyNode(child))), []) == Entries(Plug(ctx, Sub(t)), [])
    ensures WF(EmptyNode(child))
  {
    var kid := Sub(EmptyNode(child));
    var t2 := OneChild(h2, t.key, bytes, kid);
    var pre := CtxKey(ctx);
    OneChildEntries(h2, t.key, bytes, kid, pre);
    EmptyEntries(child, pre + bytes);
    assert Entries(t, pre) == Own(t.key, pre) + [];
    SameEntries(ctx, Sub(t), Sub(t2));
    Down(h, head, ctx, t2, 0);
  }

  // ------------------------------------------------------------------ raxGenericInsert

  /** The end of an insertion: position `ctx` now holds `t`, and the object is valid again. */
  lemma Finished(rax: Rax, ctx: Ctx, t: Tree, m: map<Key, Val>)
    requires Holds(rax.heap, rax.head, ctx, Sub(t)) && WF(t) && Live(t)
    requires MapOf(Entries(Plug(ctx, Sub(t)), [])) == m
    requires rax.numnodes == |rax.heap| && rax.numele == |m|
    requires rax.tree == Plug(ctx, Sub(t))
    ensures rax.Valid() && rax.Content() == m
  {
    ToTop(rax.heap, rax.head, ctx, Sub(t));
    PlugWF(ctx, Sub(t));
  }

  /** The loop that inserts the characters the walk did not find. */
  method InsertRest(rax: Rax, s: Key, i0: nat, h0: Addr, link0: Link, data: Val, ghost ctx0: Ctx, ghost t0: Tree)
    returns (ghost ctx: Ctx, ghost t: Tree)
    requires i0 < |s| && Growing(rax, s, i0, h0, link0, ctx0, t0)
    modifies rax`heap, rax`head, rax`numnodes, rax`numele
    ensures Holds(rax.heap, rax.head, ctx, Sub(t)) && WF(t) && Live(t)
    ensures MapOf(Entries(Plug(ctx, Sub(t)), [])) == MapOf(Entries(Plug(ctx0, Sub(t0)), []))[s := data]
    ensures rax.numnodes == |rax.heap|
    ensures rax.numele == old(rax.numele) + 1
  {
    hide Growing, Holds, Entries, MapOf, Plug, CtxKey, LinkOf;
    var i, h, link := i0, h0, link0;
    ctx, t := ctx0, t0;
    GrowingNode(rax, s, i, h, link, ctx, t);
    while i < |s|
      invariant i <= |s| && Growing(rax, s, i, h, link, ctx, t) && CtxOk(ctx)
      invariant Entries(Plug(ctx, Sub(t)), []) == Entries(Plug(ctx0, Sub(t0)), [])
      invariant rax.numele == old(rax.numele)
      decreases |s| - i
    {
      GrowingNode(rax, s, i, h, link, ctx, t);
      var edges := rax.heap[h].edges;
      if edges == [] && |s| - i > 1 {
        if |s| - i <= NODE_MAX_SIZE {
          t := CompressToLeaf(rax, s, i, h, link, data, ctx, t);
          rax.numele := rax.numele + 1;
          return;
        }
        h, link, ctx := CompressChunk(rax, s, i, h, link, ctx, t);
        i := i + NODE_MAX_SIZE;
      } else {
        if |s| - i == 1 {
          var pos := FindChildPos(edges, s[i]);
          if pos < INLINE_SLOTS {
            t := AddInlineChild(rax, s, h, link, data, ctx, t, pos);
            rax.numele := rax.numele + 1;
            return;
          }
        }
        h, link, ctx := AddEmptyChild(rax, s, i, h, link, ctx, t);
        i := i + 1;
      }
      t := EmptyNode(h);
      GrowingNode(rax, s, i, h, link, ctx, t);
    }
    t := FinishKey(rax, s, h, link, data, ctx, t);
    rax.numele := rax.numele + 1;
  }

  lemma GrowingNode(rax: Rax, s: Key, i: nat, h: Addr, link: Link, ctx: Ctx, t: Tree)
    requires Growing(rax, s, i, h, link, ctx, t)
    ensures h == t.addr && h in rax.heap && rax.heap[h].edges == t.edges && i <= |s| && CtxOk(ctx) && Fits(ctx, Sub(t))
    ensures WF(t) && NodeOk(t) && !t.compr && (t.edges == [] ==> t.kids == []) && (i < |s| ==> s[i] !in t.edges)
  {
    assert Rep(rax.heap, t);
  }

  /** The whole key is spelled out: its node becomes a key. */
  method FinishKey(rax: Rax, s: Key, h: Addr, link: Link, data: Val, ghost ctx: Ctx, ghost t: Tree) returns (ghost t2: Tree)
    requires Growing(rax, s, |s|, h, link, ctx, t)
    modifies rax`heap, rax`head
    ensures Holds(rax.heap, rax.head, ctx, Sub(t2)) && WF(t2) && Live(t2)
    ensures MapOf(Entries(Plug(ctx, Sub(t2)), [])) == MapOf(Entries(Plug(ctx, Sub(t)), []))[s := data]
    ensures rax.numnodes == |rax.heap|
  {
    assert s[..|s|] == s;
    KeySet(ctx, t, s, data);
    var h2 := SetNodeData(rax, h, link, data, true, ctx, t);
    t2 := t.(addr := h2, key := Some(data));
  }

  /** The value of an existing inline leaf. */
  method UpdateInline(rax: Rax, s: Key, link: Link, data: Val, overwrite: bool, ghost ctx: Ctx, ghost kid: Kid)
    returns (prev: Option<Val>)
    requires rax.Valid() && Holds(rax.heap, rax.head, ctx, kid) && Plug(ctx, kid) == rax.tree
    requires kid.Leaf? && link == LinkOf(ctx) && CtxKey(ctx) == s
    modifies rax
    ensures rax.Valid()
    ensures s in old(rax.Content()) && prev == Some(old(rax.Content())[s])
    ensures rax.Content() == if overwrite then old(rax.Content())[s := data] else old(rax.Content())
  {
    hide Entries, Below, KidEntries, KidsEntries, MapOf, Own;
    LookupAt(ctx, kid, s);
    LeafLookup(kid, s, s);
    prev := Some(rax.heap[link.parent].slots[link.idx].val);
    if overwrite {
      ghost var m := rax.Content();
      LeafLookup(Leaf(data), s, s);
      UpdateAt(ctx, kid, Leaf(data), s, data);
      Replace(rax.heap, rax.head, ctx, kid, rax.heap, Leaf(data));
      WriteLink(rax, link, Inline(data));
      rax.tree := Plug(ctx, Leaf(data));
      ToTop(rax.heap, rax.head, ctx, Leaf(data));
      PlugWF(ctx, Leaf(data));
      assert m[s := data].Keys == m.Keys;
    }
  }

  /** A key that ends at a node is in the map exactly when the node is a key. */
  lemma KeyAtNode(ctx: Ctx, t: Tree, s: Key)
    requires CtxOk(ctx) && WF(t) && CtxKey(ctx) == s
    ensures var m := MapOf(Entries(Plug(ctx, Sub(t)), []));
            (s in m <==> t.key.Some?) && (s in m ==> t.key == Some(m[s]))
  {
    LookupAt(ctx, Sub(t), s);
    assert Stopped(t, s, s, |s|, 0) by { assert s + t.edges[..0] == s[..|s|]; }
    StoppedLookup(t, s, s, |s|, 0);
  }

  /** Making that node a key, wherever it is stored, is a map update. */
  lemma KeySet(ctx: Ctx, t: Tree, s: Key, data: Val)
    requires CtxOk(ctx) && WF(t) && CtxKey(ctx) == s
    ensures forall a: Addr :: var t2 := t.(addr := a, key := Some(data));
              && WF(t2) && Live(t2)
              && MapOf(Entries(Plug(ctx, Sub(t2)), [])) == MapOf(Entries(Plug(ctx, Sub(t)), []))[s := data]
  {
    SetKeyEntries(t, s, data);
    forall a: Addr
      ensures MapOf(Entries(Plug(ctx, Sub(t.(addr := a, key := Some(data)))), [])) == MapOf(Entries(Plug(ctx, Sub(t)), []))[s := data]
    {
      var t2 := t.(addr := a, key := Some(data));
      assert Below(t2, s) == Below(t.(key := Some(data)), s);
      UpdateAt(ctx, Sub(t), Sub(t2), s, data);
    }
  }

  /** The node for the key exists, as a key or as a mere branching point. */
  method UpdateNode(rax: Rax, s: Key, h: Addr, link: Link, data: Val, overwrite: bool, ghost ctx: Ctx, ghost t: Tree)
    returns (inserted: bool, prev: Option<Val>)
    requires rax.Valid() && Holds(rax.heap, rax.head, ctx, Sub(t)) && Plug(ctx, Sub(t)) == rax.tree
    requires h == t.addr && link == LinkOf(ctx) && CtxKey(ctx) == s
    requires WF(t) && (ctx.In? ==> Live(t))
    modifies rax
    ensures rax.Valid()
    ensures inserted <==> s !in old(rax.Content())
    ensures prev == if s in old(rax.Content()) then Some(old(rax.Content())[s]) else None
    ensures rax.Content() == if inserted || overwrite then old(rax.Content())[s := data] else old(rax.Content())
  {
    hide Entries, MapOf, KidEntries, Bag, CtxBag, KidBag, Owns;
    ghost var m := rax.Content();
    assert Rep(rax.heap, t);
    KeyAtNode(ctx, t, s);
    var key := rax.heap[h].key;
    inserted, prev := key.None?, key;
    if inserted || overwrite {
      KeySet(ctx, t, s, data);
      var h2 := SetNodeData(rax, h, link, data, key == None || key == Some(NULL), ctx, t);
      ghost var t2 := t.(addr := h2, key := Some(data));
      rax.tree := Plug(ctx, Sub(t2));
      if inserted {
        rax.numele := rax.numele + 1;
      } else {
        assert m[s := data].Keys == m.Keys;
      }
      Finished(rax, ctx, t2, m[s := data]);
    }
  }

  /** raxGenericInsert: `overwrite` tells raxInsert and raxTryInsert apart. `prev` is what the
      original stores through `old`, and None when it stores nothing. */
  method GenericInsert(rax: Rax, s: Key, data: Val, overwrite: bool) returns (inserted: bool, prev: Option<Val>)
    requires rax.Valid()
    modifies rax
    ensures rax.Valid()
    ensures inserted <==> s !in old(rax.Content())
    ensures prev == if s in old(rax.Content()) then Some(old(rax.Content())[s]) else None
    ensures rax.Content() == if inserted || overwrite then old(rax.Content())[s := data] else old(rax.Content())
  {
    hide Bag, CtxBag, KidBag, Owns;
    ghost var m := rax.Content();
    var i, h, link, j, stack, inline, ctx, kid := LowWalk(rax, s);
    CtxKeyWithin(ctx, kid, s, i, j, inline);
    if i == |s| && inline {
      assert s[..i] == s;
      prev := UpdateInline(rax, s, link, data, overwrite, ctx, kid);
      return false, prev;
    }
    LookupAt(ctx, kid, s);
    ghost var t;
    if inline {
      LeafLookup(kid, CtxKey(ctx), s);
      h := MaterializeInlineLeaf(rax, link, ctx, kid);
      t := ValueNode(h, kid.val);
      ValueNodeEntries(h, kid.val, CtxKey(ctx));
      SameEntries(ctx, kid, Sub(t));
    } else {
      t := kid.node;
      assert Rep(rax.heap, t);
      StoppedLookup(t, CtxKey(ctx), s, i, j);
      if i == |s| && (!rax.heap[h].compr || j == 0) {
        inserted, prev := UpdateNode(rax, s, h, link, data, overwrite, ctx, t);
        return;
      }
      if rax.heap[h].compr && i == |s| {
        assert s[..i] == s;
        t := SplitAtKey(rax, h, j, link, data, ctx, t);
        rax.numele := rax.numele + 1;
        rax.tree := Plug(ctx, Sub(t));
        Finished(rax, ctx, t, m[s := data]);
        return true, None;
      }
      if rax.heap[h].compr {
        h, link, ctx, t := SplitOnMismatch(rax, h, j, link, ctx, t);
      }
    }
    ctx, t := InsertRest(rax, s, i, h, link, data, ctx, t);
    rax.tree := Plug(ctx, Sub(t));
    Finished(rax, ctx, t, m[s := data]);
    return true, None;
  }

  lemma ValueNodeEntries(a: Addr, v: Val, pre: Key)
    ensures KidEntries(Sub(ValueNode(a, v)), pre) == KidEntries(Leaf(v), pre)
    ensures WF(ValueNode(a, v))
  {
    ChildlessEntries(ValueNode(a, v), pre);
  }
}
