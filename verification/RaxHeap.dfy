/**
 The heap that rax.c works on: one `raxNode` per live allocation, child slots that hold either
 the address of another allocation or an inline value, and links that can be overwritten.
 */
module RaxHeap {
  import opened Keys
  import opened RaxTree
  import opened RaxZipper

  /** One child slot together with its bit of `leafbitmap`. */
  datatype Slot = Inline(val: Val) | Ptr(addr: Addr)

  datatype Node = Node(key: Option<Val>, compr: bool, edges: seq<byte>, slots: seq<Slot>)

  type Heap = map<Addr, Node>

  /** A place that holds the address of a node: `&rax->head`, or a slot of a node. */
  datatype Link = HeadLink | SlotLink(parent: Addr, idx: nat)

  // ------------------------------------------------------------------ representation

  function SlotOf(k: Kid): Slot {
    match k
    case Leaf(v) => Inline(v)
    case Sub(s) => Ptr(s.addr)
  }

  function SlotsOf(kids: seq<Kid>): (slots: seq<Slot>)
    ensures |slots| == |kids|
  {
    seq(|kids|, i requires 0 <= i < |kids| => SlotOf(kids[i]))
  }

  function NodeOf(t: Tree): Node {
    Node(t.key, t.compr, t.edges, SlotsOf(t.kids))
  }

  /** Every node of `t` is stored in `h` at its address. */
  ghost predicate Rep(h: Heap, t: Tree)
    decreases t, 0
  {
    && t.addr in h
    && h[t.addr] == NodeOf(t)
    && forall i | 0 <= i < |t.kids| :: RepKid(h, t.kids[i])
  }

  ghost predicate RepKid(h: Heap, k: Kid)
    decreases k, 1
  {
    match k
    case Leaf(_) => true
    case Sub(s) => Rep(h, s)
  }

  /** The parents in `ctx` are stored in `h`, with `slot` in the hole. */
  ghost predicate CtxRep(h: Heap, ctx: Ctx, slot: Slot) {
    match ctx
    case Top => true
    case In(up, node, idx) =>
      && node.addr in h
      && idx < |node.kids|
      && h[node.addr] == NodeOf(node).(slots := SlotsOf(node.kids)[idx := slot])
      && (forall j | 0 <= j < |node.kids| && j != idx :: RepKid(h, node.kids[j]))
      && CtxRep(h, up, Ptr(node.addr))
  }

  function HeadAddr(ctx: Ctx, a: Addr): Addr {
    match ctx
    case Top => a
    case In(up, node, _) => HeadAddr(up, node.addr)
  }

  function LinkOf(ctx: Ctx): Link {
    match ctx
    case Top => HeadLink
    case In(_, node, idx) => SlotLink(node.addr, idx)
  }

  // ------------------------------------------------------------------ the allocations in use

  function Bag(t: Tree): multiset<Addr>
    decreases t, 0
  {
    multiset{t.addr} + KidsBag(t.kids)
  }

  function KidBag(k: Kid): multiset<Addr>
    decreases k, 1
  {
    match k
    case Leaf(_) => multiset{}
    case Sub(s) => Bag(s)
  }

  function KidsBag(kids: seq<Kid>): multiset<Addr>
    decreases kids, 0
  {
    if kids == [] then multiset{} else KidBag(kids[0]) + KidsBag(kids[1..])
  }

  function CtxBag(ctx: Ctx): multiset<Addr> {
    match ctx
    case Top => multiset{}
    case In(up, node, idx) =>
      CtxBag(up) + multiset{node.addr}
      + (if idx < |node.kids| then KidsBag(node.kids[..idx]) + KidsBag(node.kids[idx + 1..]) else multiset{})
  }

  /** No allocation is used twice and none has leaked. */
  ghost predicate Owns(h: Heap, bag: multiset<Addr>) {
    bag == multiset(h.Keys)
  }

  /** The heap stores exactly the tree obtained by putting `kid` at position `ctx`. */
  ghost predicate Holds(h: Heap, head: Addr, ctx: Ctx, kid: Kid) {
    && CtxOk(ctx)
    && Fits(ctx, kid)
    && CtxRep(h, ctx, SlotOf(kid))
    && RepKid(h, kid)
    && Owns(h, CtxBag(ctx) + KidBag(kid))
    && (ctx.Top? ==> head == kid.node.addr)
    && (ctx.In? ==> head == HeadAddr(ctx.up, ctx.node.addr))
  }

  lemma {:induction false} KidsBagAppend(a: seq<Kid>, b: seq<Kid>)
    ensures KidsBag(a + b) == KidsBag(a) + KidsBag(b)
  {
    if a == [] {
      assert a + b == b;
    } else {
      assert (a + b)[1..] == a[1..] + b;
      KidsBagAppend(a[1..], b);
    }
  }

  lemma KidsBagAt(kids: seq<Kid>, i: nat)
    requires i < |kids|
    ensures KidsBag(kids) == KidsBag(kids[..i]) + KidBag(kids[i]) + KidsBag(kids[i + 1..])
  {
    assert KidsBag([kids[i]]) == KidBag(kids[i]);
    hide KidsBag, KidBag;
    assert kids == kids[..i] + ([kids[i]] + kids[i + 1..]);
    KidsBagAppend(kids[..i], [kids[i]] + kids[i + 1..]);
    KidsBagAppend([kids[i]], kids[i + 1..]);
  }

  lemma PutBag(node: Tree, idx: nat, kid: Kid)
    requires idx < |node.kids|
    ensures Bag(Put(node, idx, kid))
         == multiset{node.addr} + KidsBag(node.kids[..idx]) + KidBag(kid) + KidsBag(node.kids[idx + 1..])
  {
    var t := Put(node, idx, kid);
    KidsBagAt(t.kids, idx);
    assert t.kids[..idx] == node.kids[..idx] && t.kids[idx + 1..] == node.kids[idx + 1..];
  }

  // ------------------------------------------------------------------ moving between positions

  lemma UpBag(ctx: Ctx, kid: Kid)
    requires ctx.In? && ctx.idx < |ctx.node.kids|
    ensures CtxBag(ctx) + KidBag(kid) == CtxBag(ctx.up) + KidBag(Sub(Put(ctx.node, ctx.idx, kid)))
  {
    PutBag(ctx.node, ctx.idx, kid);
    assert KidBag(Sub(Put(ctx.node, ctx.idx, kid))) == Bag(Put(ctx.node, ctx.idx, kid));
  }

  /** Going one level up: the parent with its hole filled, at the parent's own position. */
  lemma Up(h: Heap, head: Addr, ctx: Ctx, kid: Kid)
    requires Holds(h, head, ctx, kid) && ctx.In?
    ensures Holds(h, head, ctx.up, Sub(Put(ctx.node, ctx.idx, kid)))
    ensures Plug(ctx.up, Sub(Put(ctx.node, ctx.idx, kid))) == Plug(ctx, kid)
  {
    hide Bag, KidBag, KidsBag, CtxBag;
    var t := Put(ctx.node, ctx.idx, kid);
    UpBag(ctx, kid);
    assert SlotsOf(t.kids) == SlotsOf(ctx.node.kids)[ctx.idx := SlotOf(kid)];
    forall j | 0 <= j < |t.kids| ensures RepKid(h, t.kids[j]) {}
    assert Rep(h, t) && RepKid(h, Sub(t));
    assert HeadAddr(ctx.up, ctx.node.addr) == head;
  }

  lemma DownBag(ctx: Ctx, t: Tree, i: nat)
    requires i < |t.kids|
    ensures CtxBag(In(ctx, t, i)) + KidBag(t.kids[i]) == CtxBag(ctx) + KidBag(Sub(t))
  {
    assert KidBag(Sub(t)) == Bag(t);
    KidsBagAt(t.kids, i);
  }

  /** Going one level down: child `i` of the node at a position. */
  lemma Down(h: Heap, head: Addr, ctx: Ctx, t: Tree, i: nat)
    requires Holds(h, head, ctx, Sub(t)) && NodeOk(t) && i < |t.kids|
    requires forall j | 0 <= j < |t.kids| && j != i :: KidWF(t.kids[j])
    ensures Holds(h, head, In(ctx, t, i), t.kids[i])
    ensures Plug(In(ctx, t, i), t.kids[i]) == Plug(ctx, Sub(t))
  {
    hide Bag, KidBag, KidsBag, CtxBag;
    assert Rep(h, t);
    DownBag(ctx, t, i);
    assert t.kids[i := t.kids[i]] == t.kids;
    assert SlotsOf(t.kids)[i := SlotOf(t.kids[i])] == SlotsOf(t.kids);
  }

  /** Going up along the path that was walked down. */
  lemma UpPath(h: Heap, head: Addr, ctx: Ctx, kid: Kid)
    requires Holds(h, head, ctx, kid) && Path(ctx, kid) && ctx.In?
    ensures Path(ctx.up, Sub(ctx.node))
    ensures Holds(h, head, ctx.up, Sub(ctx.node)) && Plug(ctx.up, Sub(ctx.node)) == Plug(ctx, kid)
  {
    Up(h, head, ctx, kid);
    assert ctx.node.kids[ctx.idx := kid] == ctx.node.kids;
  }

  /** The whole tree is what the heap holds at the head link. */
  lemma {:induction false} ToTop(h: Heap, head: Addr, ctx: Ctx, kid: Kid)
    requires Holds(h, head, ctx, kid)
    ensures Holds(h, head, Top, Sub(Plug(ctx, kid)))
    decreases ctx
  {
    match ctx
    case Top =>
    case In(up, node, idx) =>
      Up(h, head, ctx, kid);
      ToTop(h, head, up, Sub(Put(node, idx, kid)));
  }

  // ------------------------------------------------------------------ frames

  lemma {:induction false} BagInRep(h: Heap, k: Kid, a: Addr)
    requires RepKid(h, k) && a in KidBag(k)
    ensures a in h
    decreases k, 1
  {
    if a != k.node.addr {
      KidsBagIn(h, k.node.kids, a);
    }
  }

  lemma {:induction false} KidsBagIn(h: Heap, kids: seq<Kid>, a: Addr)
    requires (forall i | 0 <= i < |kids| :: RepKid(h, kids[i])) && a in KidsBag(kids)
    ensures a in h
    decreases kids, 0
  {
    if a in KidBag(kids[0]) {
      BagInRep(h, kids[0], a);
    } else {
      forall i | 0 <= i < |kids[1..]| ensures RepKid(h, kids[1..][i]) { assert RepKid(h, kids[i + 1]); }
      KidsBagIn(h, kids[1..], a);
    }
  }

  lemma {:induction false} KidBagOfMember(kids: seq<Kid>, i: nat, a: Addr)
    requires i < |kids| && a in KidBag(kids[i])
    ensures a in KidsBag(kids)
  {
    KidsBagAt(kids, i);
  }

  /** A subtree is unaffected by changes to the heap outside its own allocations. */
  lemma {:induction false} RepFrame(h: Heap, h2: Heap, k: Kid)
    requires RepKid(h, k)
    requires forall a | a in KidBag(k) && a in h :: a in h2 && h2[a] == h[a]
    ensures RepKid(h2, k)
    decreases k
  {
    if k.Sub? {
      var t := k.node;
      assert Rep(h, t) && KidBag(k) == Bag(t);
      forall i | 0 <= i < |t.kids| ensures RepKid(h2, t.kids[i]) {
        forall a | a in KidBag(t.kids[i]) && a in h ensures a in h2 && h2[a] == h[a] {
          KidBagOfMember(t.kids, i, a);
          assert a in Bag(t);
        }
        RepFrame(h, h2, t.kids[i]);
      }
    }
  }

  lemma SiblingInCtxBag(ctx: Ctx, j: nat, a: Addr)
    requires ctx.In? && ctx.idx < |ctx.node.kids| && j < |ctx.node.kids| && j != ctx.idx
    requires a in KidBag(ctx.node.kids[j])
    ensures a in KidsBag(ctx.node.kids[..ctx.idx]) + KidsBag(ctx.node.kids[ctx.idx + 1..])
  {
    if j < ctx.idx {
      KidBagOfMember(ctx.node.kids[..ctx.idx], j, a);
    } else {
      KidBagOfMember(ctx.node.kids[ctx.idx + 1..], j - ctx.idx - 1, a);
    }
  }

  /** The parents and their other children are unaffected by changes outside their allocations. */
  lemma {:induction false} CtxRepFrame(h: Heap, h2: Heap, ctx: Ctx, slot: Slot)
    requires CtxRep(h, ctx, slot)
    requires forall a | a in CtxBag(ctx) && a in h :: a in h2 && h2[a] == h[a]
    ensures CtxRep(h2, ctx, slot)
  {
    match ctx
    case Top =>
    case In(up, node, idx) =>
      assert node.addr in CtxBag(ctx) && forall a | a in CtxBag(up) :: a in CtxBag(ctx);
      hide CtxBag, RepKid, SlotsOf;
      CtxRepFrame(h, h2, up, Ptr(node.addr));
      forall j | 0 <= j < |node.kids| && j != idx ensures RepKid(h2, node.kids[j]) {
        SiblingKept(h, h2, ctx, j);
      }
  }

  lemma SiblingKept(h: Heap, h2: Heap, ctx: Ctx, j: nat)
    requires ctx.In? && ctx.idx < |ctx.node.kids| && j < |ctx.node.kids| && j != ctx.idx
    requires RepKid(h, ctx.node.kids[j])
    requires forall a | a in CtxBag(ctx) && a in h :: a in h2 && h2[a] == h[a]
    ensures RepKid(h2, ctx.node.kids[j])
  {
    hide RepKid, KidBag, KidsBag, Bag;
    forall a | a in KidBag(ctx.node.kids[j]) && a in h ensures a in h2 && h2[a] == h[a] {
      SiblingInCtxBag(ctx, j, a);
    }
    RepFrame(h, h2, ctx.node.kids[j]);
  }

  // ------------------------------------------------------------------ overwriting a link

  function SetSlot(h: Heap, a: Addr, i: nat, slot: Slot): Heap
    requires a in h && i < |h[a].slots|
  {
    h[a := h[a].(slots := h[a].slots[i := slot])]
  }

  function LinkHeap(h: Heap, link: Link, slot: Slot): Heap
    requires link.SlotLink? ==> link.parent in h && link.idx < |h[link.parent].slots|
  {
    match link
    case HeadLink => h
    case SlotLink(p, i) => SetSlot(h, p, i, slot)
  }

  /** Storing a different slot word in the hole re-targets the position and nothing else. */
  lemma Relink(h: Heap, ctx: Ctx, slot: Slot, slot2: Slot)
    requires CtxRep(h, ctx, slot)
    requires ctx.In? ==> CtxBag(ctx)[ctx.node.addr] == 1
    ensures ctx.In? ==> ctx.node.addr in h && ctx.idx < |h[ctx.node.addr].slots|
    ensures CtxRep(LinkHeap(h, LinkOf(ctx), slot2), ctx, slot2)
  {
    if ctx.In? {
      var In(up, node, idx) := ctx;
      var h2 := LinkHeap(h, LinkOf(ctx), slot2);
      assert SlotsOf(node.kids)[idx := slot][idx := slot2] == SlotsOf(node.kids)[idx := slot2];
      CtxRepFrame(h, h2, up, Ptr(node.addr));
      forall j | 0 <= j < |node.kids| && j != idx ensures RepKid(h2, node.kids[j]) {
        LinkSibling(h, h2, ctx, j);
      }
    }
  }

  /** A sibling of a position whose node is stored only once is unaffected by a write to that node. */
  lemma LinkSibling(h: Heap, h2: Heap, ctx: Ctx, j: nat)
    requires ctx.In? && ctx.idx < |ctx.node.kids| && j < |ctx.node.kids| && j != ctx.idx
    requires RepKid(h, ctx.node.kids[j])
    requires CtxBag(ctx)[ctx.node.addr] == 1
    requires forall a | a in h && a != ctx.node.addr :: a in h2 && h2[a] == h[a]
    ensures RepKid(h2, ctx.node.kids[j])
  {
    hide RepKid, KidBag, KidsBag, Bag;
    forall a | a in KidBag(ctx.node.kids[j]) && a in h ensures a in h2 && h2[a] == h[a] {
      SiblingInCtxBag(ctx, j, a);
    }
    RepFrame(h, h2, ctx.node.kids[j]);
  }

  /** The one step all operations are made of. The heap changes from `h` to `h2` below a position
      only; then the new subtree is linked into the parent. */
  lemma Replace(h: Heap, head: Addr, ctx: Ctx, kid: Kid, h2: Heap, kid2: Kid)
    requires Holds(h, head, ctx, kid) && Fits(ctx, kid2)
    requires forall a | a in CtxBag(ctx) && a in h :: a in h2 && h2[a] == h[a]
    requires RepKid(h2, kid2) && Owns(h2, CtxBag(ctx) + KidBag(kid2))
    ensures ctx.In? ==> ctx.node.addr in h2 && ctx.idx < |h2[ctx.node.addr].slots|
    ensures Holds(LinkHeap(h2, LinkOf(ctx), SlotOf(kid2)), if ctx.Top? then kid2.node.addr else head, ctx, kid2)
  {
    hide CtxOk, Plug, WF, KidBag, KidsBag, Bag;
    CtxRepFrame(h, h2, ctx, SlotOf(kid));
    if ctx.In? {
      var p := ctx.node.addr;
      OwnsOnce(h2, CtxBag(ctx), KidBag(kid2), p);
      Relink(h2, ctx, SlotOf(kid), SlotOf(kid2));
      var h3 := LinkHeap(h2, LinkOf(ctx), SlotOf(kid2));
      RepFrame(h2, h3, kid2);
      assert h3.Keys == h2.Keys;
    }
  }

  lemma Overwritten(h: Heap, a: Addr, n: Node)
    requires a in h
    ensures h[a := n].Keys == h.Keys && |h[a := n]| == |h|
  {
    assert h[a := n].Keys == h.Keys;
  }

  lemma OwnsOnce(h: Heap, a: multiset<Addr>, b: multiset<Addr>, p: Addr)
    requires Owns(h, a + b) && p in a
    ensures a[p] == 1 && p !in b
  {
    assert (a + b)[p] <= 1;
  }

  lemma {:induction false} HeadInBag(ctx: Ctx)
    requires ctx.In?
    ensures HeadAddr(ctx.up, ctx.node.addr) in CtxBag(ctx)
  {
    if ctx.up.In? {
      HeadInBag(ctx.up);
    }
  }

  /** Only the top position holds the head node. */
  lemma HeadIsTop(h: Heap, head: Addr, ctx: Ctx, t: Tree)
    requires Holds(h, head, ctx, Sub(t)) && t.addr == head
    ensures ctx.Top?
  {
    if ctx.In? {
      HeadInBag(ctx);
      assert KidBag(Sub(t)) == Bag(t) && t.addr in Bag(t);
      OwnsOnce(h, CtxBag(ctx), KidBag(Sub(t)), head);
    }
  }
}
