/**
 When raxRemove leaves a chain of nodes unmerged, and when merging one runs past the new node:
 the exact conditions, and trees on which it happens.
 */
module RaxMerging {
  import opened Keys
  import opened RaxTree
  import opened RaxZipper
  import opened RaxHeap
  import opened RaxCore
  import RaxInsert
  import opened RaxRemove

  /** Recompression is tried at every changed node that could be part of a chain, except at a
      compressed node that was a key: its size is not 1. */
  lemma TriedExactly(tree: Tree, s: Key)
    requires WF(tree) && Mergeable(UnlinkedAt(tree, s).1)
    ensures var kid := Located(Top, Sub(tree), s).1;
            Tries(UnlinkedAt(tree, s).1) <==> !(kid.Sub? && kid.node.compr)
  {
    var (ctx, kid) := Located(Top, Sub(tree), s);
    var t := UnlinkedAt(tree, s).1;
    match kid
    case Leaf(_) =>
      RemoveKidOk(ctx.node, ctx.idx);
      CleanedPlain(ctx.up, RemoveKid(ctx.node, ctx.idx));
    case Sub(n) => CleanedPlain(ctx, n.(key := None));
  }

  lemma CleanedPlain(ctx: Ctx, t: Tree)
    requires CtxOk(ctx)
    ensures t.kids == [] && Mergeable(Cleaned(ctx, t).1) ==> !Cleaned(ctx, t).1.compr && NodeOk(Cleaned(ctx, t).1)
  {
    if ctx.In? {
      StopHoleOk(ctx);
      var hole := StopHole(ctx);
      RemoveKidOk(hole.node, hole.idx);
    }
  }

  lemma UnlinkedWF(tree: Tree, s: Key)
    requires WF(tree)
    ensures WF(UnlinkedAt(tree, s).1)
  {
    var (ctx, kid) := Located(Top, Sub(tree), s);
    match kid
    case Leaf(_) =>
      RemoveKidOk(ctx.node, ctx.idx);
      CleanedWF(ctx.up, RemoveKid(ctx.node, ctx.idx));
    case Sub(n) =>
      assert WF(n.(key := None)) by { assert KidsWF(n.kids); }
      CleanedWF(ctx, n.(key := None));
  }

  lemma CleanedWF(ctx: Ctx, t: Tree)
    requires CtxOk(ctx) && WF(t)
    ensures WF(Cleaned(ctx, t).1)
  {
    if ctx.In? {
      StopHoleOk(ctx);
      var hole := StopHole(ctx);
      RemoveKidOk(hole.node, hole.idx);
    }
  }

  /** Going up a chain does not change the tree, and ends where the chain begins. */
  lemma {:induction false} ChainTopPlug(ctx: Ctx, t: Tree)
    requires CtxOk(ctx) && Mergeable(t)
    ensures var (up, top) := ChainTop(ctx, t);
            && Plug(up, Sub(top)) == Plug(ctx, Sub(t))
            && (up.In? ==> !Mergeable(up.node))
    ensures KidWF(Sub(t)) ==> WF(ChainTop(ctx, t).1)
    decreases ctx
  {
    if ctx.In? && Mergeable(ctx.node) {
      var up := Put(ctx.node, ctx.idx, Sub(t));
      if KidWF(Sub(t)) {
        forall j | 0 <= j < |up.kids| ensures KidWF(up.kids[j]) {}
        assert WF(up) && KidWF(Sub(up));
      }
      ChainTopPlug(ctx.up, up);
    }
  }

  lemma {:induction false} EndOfChain(t: Tree, a: Addr)
    requires WF(t) && Mergeable(t)
    ensures var m := RaxInsert.OneChild(a, None, ChainBytes(t), ChainEnd(t)); Mergeable(m) && ChainNodes(m) == 1
    decreases t
  {
    assert KidWF(t.kids[0]);
    match t.kids[0]
    case Leaf(_) =>
    case Sub(s) => if Mergeable(s) { EndOfChain(s, a); }
  }

  /** After a removal that does not overrun, the chain through the changed node is one node if and
      only if it was one before recompression, or the changed node has size 1 and the bytes of the
      chain fit into one node. */
  lemma MergedExactly(tree: Tree, s: Key, tree2: Tree) returns (ctx2: Ctx, top: Tree)
    requires WF(tree) && RemovedTree(tree, s, tree2) && !RemovalOverruns(tree, s)
    requires Mergeable(UnlinkedAt(tree, s).1)
    ensures CtxOk(ctx2) && tree2 == Plug(ctx2, Sub(top)) && Mergeable(top) && (ctx2.In? ==> !Mergeable(ctx2.node))
    ensures var (ctx, t) := UnlinkedAt(tree, s);
            var chain := ChainTop(ctx, t).1;
            && (ChainNodes(top) == 1
                <==> (ChainNodes(chain) == 1 || (|t.edges| == 1 && |ChainBytes(chain)| <= NODE_MAX_SIZE)))
  {
    var (ctx, t) := UnlinkedAt(tree, s);
    UnlinkedWF(tree, s);
    ChainTopPlug(ctx, t);
    var (up, chain) := ChainTop(ctx, t);
    if Tries(t) {
      var t3 :| Merged(chain, t3) && tree2 == Plug(up, Sub(t3));
      ctx2, top := up, t3;
      ScansAgree(chain, |chain.edges|, 1);
      EndOfChain(chain, t3.addr);
    } else {
      ctx2, top := up, chain;
    }
  }

  // ------------------------------------------------------------------ "FOO" and "FOOBAR"

  const FOO: Key := [70, 79, 79]
  const BAR: Key := [66, 65, 82]

  /** What is in the tree after "FOO" and then "FOOBAR" were added. */
  function FooTree(): Tree {
    Tree(0, None, true, FOO, [Sub(Tree(1, Some(1), true, BAR, [Leaf(2)]))])
  }

  lemma FooEntries(t: Tree, key: Option<Val>)
    requires t == Tree(0, None, true, FOO, [Sub(Tree(1, key, true, BAR, [Leaf(2)]))])
    ensures WF(t) && Entries(t, []) == Own(key, FOO) + [Entry(FOO + BAR, 2)]
  {
    var sub := t.kids[0].node;
    assert KidWF(Leaf(2)) && WF(sub) && KidWF(t.kids[0]);
    assert [] + FOO == FOO;
    assert Below(sub, FOO) == KidEntries(Leaf(2), FOO + BAR);
    assert Below(t, []) == KidEntries(t.kids[0], [] + FOO) == Entries(sub, FOO);
  }

  lemma FooUnlinked()
    ensures WF(FooTree())
    ensures UnlinkedAt(FooTree(), FOO) == (In(Top, FooTree(), 0), FooTree().kids[0].node.(key := None))
  {
    var t := FooTree();
    FooEntries(t, Some(1));
    assert KidWF(t.kids[0]);
    assert FOO[|FOO|..] == [];
    LocatedStop(In(Top, t, 0), t.kids[0], []);
    assert Located(Top, Sub(t), FOO) == (In(Top, t, 0), t.kids[0]);
  }

  /** The example in the comment of raxRemove: removing "FOO" leaves a chain of two nodes whose six
      bytes would fit into one. */
  lemma FooStaysApart(tree2: Tree)
    requires WF(FooTree()) && RemovedTree(FooTree(), FOO, tree2)
    ensures Mergeable(tree2) && ChainNodes(tree2) == 2 && ChainBytes(tree2) == FOO + BAR
  {
    FooUnlinked();
    var sub := FooTree().kids[0].node.(key := None);
    assert tree2 == Tree(0, None, true, FOO, [Sub(sub)]);
    assert ChainNodes(sub) == 1 && ChainBytes(sub) == BAR;
  }

  /** A stored tree with "FOO" and "FOOBAR", on which raxRemove does just that. */
  method RemoveFoo() returns (rax: Rax)
    ensures fresh(rax) && rax.Valid() && rax.Content() == map[FOO + BAR := 2]
    ensures Mergeable(rax.tree) && ChainNodes(rax.tree) == 2
  {
    hide Holds, Entries, MapOf, WF, RemovedTree, FooTree, FooHeap, Mergeable, ChainNodes, FOO, BAR, RemovalOverruns, UnlinkedAt, Overruns;
    rax := new Rax();
    rax.heap := FooHeap();
    rax.head, rax.numele, rax.numnodes, rax.tree := 0, 2, 2, FooTree();
    FooStored();
    FooMap();
    var removed, prev, overrun := Remove(rax, FOO);
    FooKept();
    FooStaysApart(rax.tree);
  }

  lemma FooKept()
    ensures WF(FooTree()) && !RemovalOverruns(FooTree(), FOO)
    ensures map[FOO := 1, FOO + BAR := 2] - {FOO} == map[FOO + BAR := 2]
  {
    FooUnlinked();
    assert (FOO + BAR)[3] == 66;
  }

  function FooHeap(): Heap {
    map[0 := Node(None, true, FOO, [Ptr(1)]), 1 := Node(Some(1), true, BAR, [Inline(2)])]
  }

  lemma FooStored()
    ensures Holds(FooHeap(), 0, Top, Sub(FooTree())) && |FooHeap()| == 2
  {
    FooRep();
    FooBag();
    hide FooHeap, Bag, Rep;
    assert multiset{} + Bag(FooTree()) == Bag(FooTree());
  }

  lemma FooRep()
    ensures Rep(FooHeap(), FooTree())
  {
    var h, t := FooHeap(), FooTree();
    var sub := t.kids[0].node;
    assert SlotsOf(sub.kids) == [Inline(2)];
    assert Rep(h, sub);
    assert SlotsOf(t.kids) == [Ptr(1)];
  }

  lemma FooBag()
    ensures Owns(FooHeap(), Bag(FooTree())) && |FooHeap()| == 2
  {
    var h := FooHeap();
    var h0: Heap := map[];
    var h1 := h0[0 := h[0]];
    assert Bag(FooTree().kids[0].node) == multiset{1};
    assert Bag(FooTree()) == multiset{0, 1};
    assert h.Keys == {0, 1} && |h| == |h.Keys|;
    assert h == h1[1 := h[1]];
    hide FooHeap, FooTree, Bag;
    RaxInsert.OwnsAdd(h0, multiset{}, 0, h[0]);
    RaxInsert.OwnsAdd(h1, multiset{} + multiset{0}, 1, h[1]);
  }

  lemma FooMap()
    ensures WF(FooTree()) && MapOf(Entries(FooTree(), [])) == map[FOO := 1, FOO + BAR := 2]
    ensures |MapOf(Entries(FooTree(), []))| == 2
  {
    FooEntries(FooTree(), Some(1));
    var es := Entries(FooTree(), []);
    assert es[..1] == [Entry(FOO, 1)] && es[..1][..0] == [];
    assert MapOf(es[..1]) == map[FOO := 1];
    assert (FOO + BAR)[3] == 66;
    assert MapOf(es).Keys == {FOO, FOO + BAR};
  }

  // ------------------------------------------------------------------ a chain that does not fit

  const AAB: Key := [97, 97, 98]
  const AABX: Key := AAB + [120]

  /** As many bytes as one compressed node can hold. */
  function Full(): seq<byte> {
    seq(NODE_MAX_SIZE, _ => 99)
  }

  /** "aab" followed by 65536 times "c". */
  function LongKey(): Key {
    AAB + [99] + Full()
  }

  function LastNode(): Tree {
    Tree(2, None, true, Full(), [Leaf(7)])
  }

  function Branch(): Tree {
    Tree(1, None, false, [99, 120], [Sub(LastNode()), Leaf(8)])
  }

  /** What is in the tree after "aabx" and then the long key were added. */
  function LongTree(): Tree {
    Tree(0, None, true, AAB, [Sub(Branch())])
  }

  lemma LongEntries()
    ensures WF(LongTree()) && WF(Branch()) && WF(LastNode())
    ensures Entries(LongTree(), []) == [Entry(LongKey(), 7), Entry(AABX, 8)]
  {
    hide Full;
    FullSize();
    var t, mid, last := LongTree(), Branch(), LastNode();
    assert KidWF(Leaf(7)) && KidWF(Leaf(8)) && WF(last) && KidWF(Sub(last)) && WF(mid) && KidWF(Sub(mid));
    assert [] + AAB == AAB;
    assert Entries(last, AAB + [99]) == [Entry(LongKey(), 7)];
    assert mid.edges[1..] == [120] && mid.kids[1..] == [Leaf(8)];
    assert KidsEntries([120], [Leaf(8)], AAB) == [Entry(AABX, 8)] + KidsEntries([], [], AAB);
    assert Below(mid, AAB) == [Entry(LongKey(), 7)] + [Entry(AABX, 8)];
    assert Below(t, []) == Entries(mid, AAB);
  }

  lemma FullSize()
    ensures |Full()| == NODE_MAX_SIZE
  {
  }

  lemma LongLocated()
    ensures WF(LongTree()) && Located(Top, Sub(LongTree()), AABX) == (In(In(Top, LongTree(), 0), Branch(), 1), Leaf(8))
  {
    hide Full;
    LongEntries();
    var t, mid := LongTree(), Branch();
    assert KidWF(t.kids[0]) && KidWF(mid.kids[1]);
    LocatedStep(Top, t, AABX, 0, 3, 0, true);
    assert AABX[0..3] == AAB && AABX[3..4] == [mid.edges[1]] && AABX[0..] == AABX;
    LocatedStep(In(Top, t, 0), mid, AABX, 3, 4, 1, true);
    LocatedStop(In(In(Top, t, 0), mid, 1), Leaf(8), AABX[4..]);
  }

  /** Without "aabx" the chain "aab", "c" and the full node has 65539 bytes; the first scan stops
      after four of them, and the second one copies all. */
  lemma LongOverruns()
    ensures WF(LongTree()) && RemovalOverruns(LongTree(), AABX)
  {
    hide Full;
    FullSize();
    LongLocated();
    var mid, last := RemoveKid(Branch(), 1), LastNode();
    assert mid == Tree(1, None, false, [99], [Sub(last)]);
    assert UnlinkedAt(LongTree(), AABX) == (In(Top, LongTree(), 0), mid) && Tries(mid);
    var top := ChainTop(In(Top, LongTree(), 0), mid).1;
    assert top == Tree(0, None, true, AAB, [Sub(mid)]);
    assert ChainBytes(last) == Full();
    assert ChainBytes(mid) == [99] + Full();
    assert ChainBytes(top) == AAB + ([99] + Full());
    assert FirstScan(mid, 4, 2) == (2, 4);
  }

  /** The same on a stored tree: raxRemove overruns. */
  method RemoveLong() returns (rax: Rax, overrun: bool)
    ensures fresh(rax) && overrun
  {
    hide Full, Holds, Entries, MapOf, WF, RemovedTree, LongTree, LongHeap, RemovalOverruns, UnlinkedAt, AABX;
    rax := new Rax();
    rax.heap := LongHeap();
    rax.head, rax.numele, rax.numnodes, rax.tree := 0, 2, 3, LongTree();
    LongStored();
    LongMap();
    assert rax.Valid();
    var removed, prev;
    removed, prev, overrun := Remove(rax, AABX);
    LongOverruns();
  }

  function LongHeap(): Heap {
    map[0 := Node(None, true, AAB, [Ptr(1)]),
        1 := Node(None, false, [99, 120], [Ptr(2), Inline(8)]),
        2 := Node(None, true, Full(), [Inline(7)])]
  }

  lemma LongStored()
    ensures Holds(LongHeap(), 0, Top, Sub(LongTree())) && |LongHeap()| == 3
  {
    LongRep();
    LongBag();
    hide LongHeap, Bag, Rep;
    assert multiset{} + Bag(LongTree()) == Bag(LongTree());
  }

  lemma LongBag()
    ensures Owns(LongHeap(), Bag(LongTree())) && |LongHeap()| == 3
  {
    var h := LongHeap();
    var h0: Heap := map[];
    var h1 := h0[0 := h[0]];
    var h2 := h1[1 := h[1]];
    var mid, last := Branch(), LastNode();
    hide Full, AAB;
    assert Bag(last) == multiset{2};
    assert mid.kids[1..] == [Leaf(8)] && KidsBag([Leaf(8)]) == multiset{};
    assert Bag(mid) == multiset{1, 2};
    assert Bag(LongTree()) == multiset{0, 1, 2};
    assert h.Keys == {0, 1, 2} && |h| == |h.Keys|;
    assert h == h2[2 := h[2]];
    hide LongHeap, LongTree, Bag;
    RaxInsert.OwnsAdd(h0, multiset{}, 0, h[0]);
    RaxInsert.OwnsAdd(h1, multiset{} + multiset{0}, 1, h[1]);
    RaxInsert.OwnsAdd(h2, multiset{} + multiset{0} + multiset{1}, 2, h[2]);
  }

  lemma LongRep()
    ensures Rep(LongHeap(), LongTree())
  {
    hide Full;
    var h, t, mid, last := LongHeap(), LongTree(), Branch(), LastNode();
    assert SlotsOf(last.kids) == [Inline(7)];
    assert Rep(h, last);
    assert SlotsOf(mid.kids) == [Ptr(2), Inline(8)];
    assert Rep(h, mid);
    assert SlotsOf(t.kids) == [Ptr(1)];
  }

  lemma LongMap()
    ensures WF(LongTree()) && |MapOf(Entries(LongTree(), []))| == 2 && AABX in MapOf(Entries(LongTree(), []))
  {
    hide Full;
    LongEntries();
    var t := LongTree();
    EntriesSorted(t, []);
    MapOfSize(Entries(t, []));
    MapOfSorted(Entries(t, []), 1);
  }
}
