/** The `rax` object, its allocator, and the walk shared by lookup, insertion, removal and seek. */
module RaxCore {
  import opened Keys
  import opened RaxTree
  import opened RaxZipper
  import opened RaxHeap

  class Rax {
    var head: Addr
    var numele: int
    var numnodes: int
    var heap: Heap
    /** The tree that the heap stores. */
    ghost var tree: Tree

    /** The heap holds exactly one well-formed tree, and both counters are exact. */
    ghost predicate Valid()
      reads this
    {
      && Holds(heap, head, Top, Sub(tree))
      && WF(tree)
      && numele == |Content()|
      && numnodes == |heap|
    }

    ghost function Content(): map<Key, Val>
      reads this
    {
      MapOf(Entries(tree, []))
    }

    /** raxNew: an empty head node. */
    constructor ()
      ensures Valid() && Content() == map[]
    {
      var empty := Node(None, false, [], []);
      head := 0;
      heap := map[0 := empty];
      numele := 0;
      numnodes := 1;
      tree := Tree(0, None, false, [], []);
      new;
      assert SlotsOf([]) == [];
      assert heap.Keys == {0} && Bag(tree) == multiset{0};
      assert |heap.Keys| == 1;
    }
  }

  // ------------------------------------------------------------------ allocator

  lemma FreshAddr(s: set<Addr>)
    ensures exists a: Addr :: a !in s
  {
    if s != {} {
      var m := MaxAddr(s);
      assert m + 1 !in s;
    } else {
      assert 0 !in s;
    }
  }

  lemma MaxAddr(s: set<Addr>) returns (m: Addr)
    requires s != {}
    ensures forall x | x in s :: x <= m
  {
    m :| m in s;
    var rest := s - {m};
    if rest == {} {
      assert s == {m};
    } else {
      var m2 := MaxAddr(rest);
      var top := if m < m2 then m2 else m;
      forall x | x in s ensures x <= top {
        assert x == m || x in rest;
      }
      m := top;
    }
  }

  /** malloc: any address that is not in use. */
  method Malloc(rax: Rax, n: Node) returns (a: Addr)
    modifies rax`heap
    ensures a !in old(rax.heap)
    ensures rax.heap == old(rax.heap)[a := n]
    ensures |rax.heap| == |old(rax.heap)| + 1
  {
    FreshAddr(rax.heap.Keys);
    a :| a !in rax.heap;
    rax.heap := rax.heap[a := n];
  }

  method Free(rax: Rax, a: Addr)
    requires a in rax.heap
    modifies rax`heap
    ensures rax.heap == old(rax.heap) - {a}
    ensures |rax.heap| == |old(rax.heap)| - 1
  {
    ghost var keys := rax.heap.Keys;
    rax.heap := rax.heap - {a};
    assert rax.heap.Keys == keys - {a};
  }

  /** realloc followed by the writes that fill the block: it may stay where it is or move. */
  method Realloc(rax: Rax, a: Addr, n: Node) returns (b: Addr)
    requires a in rax.heap
    modifies rax`heap
    ensures b == a || b !in old(rax.heap)
    ensures rax.heap == (old(rax.heap) - {a})[b := n]
    ensures |rax.heap| == |old(rax.heap)|
  {
    ghost var keys := rax.heap.Keys;
    FreshAddr(rax.heap.Keys);
    b :| b == a || b !in rax.heap;
    rax.heap := (rax.heap - {a})[b := n];
    assert rax.heap.Keys == keys - {a} + {b};
  }

  method WriteLink(rax: Rax, link: Link, slot: Slot)
    requires link.HeadLink? ==> slot.Ptr?
    requires link.SlotLink? ==> link.parent in rax.heap && link.idx < |rax.heap[link.parent].slots|
    modifies rax`heap, rax`head
    ensures rax.heap == LinkHeap(old(rax.heap), link, slot)
    ensures |rax.heap| == |old(rax.heap)| && rax.heap.Keys == old(rax.heap.Keys)
    ensures rax.head == if link.HeadLink? then slot.addr else old(rax.head)
  {
    match link
    case HeadLink => rax.head := slot.addr;
    case SlotLink(p, i) =>
      ghost var keys := rax.heap.Keys;
      rax.heap := rax.heap[p := rax.heap[p].(slots := rax.heap[p].slots[i := slot])];
      assert rax.heap.Keys == keys;
  }

  // ------------------------------------------------------------------ raxLowWalk

  /** Index of the edge `c`, or the number of edges when there is none. */
  method ScanEdges(edges: seq<byte>, c: byte) returns (j: nat)
    ensures j <= |edges|
    ensures c !in edges[..j]
    ensures j < |edges| ==> edges[j] == c
  {
    j := 0;
    while j < |edges|
      invariant j <= |edges| && c !in edges[..j]
    {
      if edges[j] == c {
        break;
      }
      j := j + 1;
    }
  }

  /** The part of the walk inside one node: how many bytes of `s` from `i` on it consumes, and
      whether child `j` is to be followed. */
  method MatchNode(n: Node, s: Key, i: nat) returns (i2: nat, j: nat, go: bool)
    requires i < |s|
    ensures i <= i2 <= |s|
    ensures go ==> if n.compr then j == 0 && s[i..i2] == n.edges
                   else j < |n.edges| && s[i..i2] == [n.edges[j]]
    ensures !go ==> if n.compr
                    then j < |n.edges| && s[i..i2] == n.edges[..j] && (i2 < |s| ==> s[i2] != n.edges[j])
                    else i2 == i && j == 0 && s[i] !in n.edges
  {
    i2, j := i, 0;
    if n.compr {
      while j < |n.edges| && i2 < |s| && n.edges[j] == s[i2]
        invariant j <= |n.edges| && i2 == i + j <= |s| && s[i..i2] == n.edges[..j]
      {
        i2, j := i2 + 1, j + 1;
      }
      go := j == |n.edges|;
      if go {
        j := 0;
      }
    } else {
      j := ScanEdges(n.edges, s[i]);
      go := j < |n.edges|;
      if go {
        i2 := i + 1;
      } else {
        j := 0;
      }
    }
  }

  /** The walk for `s` ended at node `t`, whose key is `pre`, after `i` bytes: either all of `s` is
      consumed or no edge continues it. In a compressed node `j` bytes of the node are matched. */
  ghost predicate Stopped(t: Tree, pre: Key, s: Key, i: nat, j: nat) {
    && i <= |s|
    && if t.compr
       then j < |t.edges| && s[..i] == pre + t.edges[..j] && (i < |s| ==> s[i] != t.edges[j])
       else j == 0 && s[..i] == pre && (i < |s| ==> s[i] !in t.edges)
  }

  function EdgeIndex(edges: seq<byte>, c: byte): (j: nat)
    requires c in edges
    ensures j < |edges| && edges[j] == c && c !in edges[..j]
  {
    if edges[0] == c then 0 else 1 + EdgeIndex(edges[1..], c)
  }

  /** The position that the bytes `rest` lead to from a position: children are entered as long as
      their whole label is there. */
  ghost function Located(ctx: Ctx, kid: Kid, rest: Key): (at: (Ctx, Kid))
    requires CtxOk(ctx) && (kid.Sub? ==> WF(kid.node)) && (kid.Leaf? ==> ctx.In?)
    ensures CtxOk(at.0) && (at.1.Sub? ==> WF(at.1.node)) && (at.1.Leaf? ==> at.0.In?)
    decreases |rest|
  {
    if kid.Leaf? || kid.node.kids == [] || rest == [] then (ctx, kid)
    else
      var t := kid.node;
      assert KidsWF(t.kids);
      if t.compr then
        if t.edges <= rest then Located(In(ctx, t, 0), t.kids[0], rest[|t.edges|..]) else (ctx, kid)
      else if rest[0] in t.edges then
        var j := EdgeIndex(t.edges, rest[0]);
        Located(In(ctx, t, j), t.kids[j], rest[1..])
      else (ctx, kid)
  }

  /** What one node of the walk means for the position that is sought. */
  lemma LocatedStep(ctx: Ctx, t: Tree, s: Key, i: nat, i2: nat, j: nat, go: bool)
    requires CtxOk(ctx) && WF(t) && t.edges != [] && i < |s| && i <= i2 <= |s|
    requires go ==> if t.compr then j == 0 && s[i..i2] == t.edges
                    else j < |t.edges| && s[i..i2] == [t.edges[j]]
    requires !go ==> if t.compr
                     then j < |t.edges| && s[i..i2] == t.edges[..j] && (i2 < |s| ==> s[i2] != t.edges[j])
                     else s[i] !in t.edges
    ensures j < |t.kids| && go ==> CtxOk(In(ctx, t, j)) && (t.kids[j].Sub? ==> WF(t.kids[j].node))
    ensures go ==> j < |t.kids| && Located(ctx, Sub(t), s[i..]) == Located(In(ctx, t, j), t.kids[j], s[i2..])
    ensures !go ==> Located(ctx, Sub(t), s[i..]) == (ctx, Sub(t))
  {
    var rest := s[i..];
    assert forall j | 0 <= j < |t.kids| :: KidWF(t.kids[j]);
    assert rest[i2 - i..] == s[i2..] && rest[..i2 - i] == s[i..i2];
    if go {
      if !t.compr {
        assert rest[0] == s[i..i2][0] == t.edges[j];
        var k := EdgeIndex(t.edges, rest[0]);
        assert k == j;
      }
    } else if t.compr {
      assert |s[i..i2]| == j;
      assert i2 < |s| ==> rest[j] == s[i2];
    }
  }

  lemma LocatedStop(ctx: Ctx, kid: Kid, rest: Key)
    requires CtxOk(ctx) && (kid.Sub? ==> WF(kid.node)) && (kid.Leaf? ==> ctx.In?)
    requires kid.Leaf? || kid.node.edges == [] || rest == []
    ensures Located(ctx, kid, rest) == (ctx, kid)
  {
  }

  ghost predicate WalkEnd(rax: Rax, s: Key, i: nat, h: Addr, link: Link, splitpos: nat, stack: seq<Addr>,
                          inline: bool, ctx: Ctx, kid: Kid)
    reads rax
  {
    && Holds(rax.heap, rax.head, ctx, kid)
    && Plug(ctx, kid) == rax.tree
    && Path(ctx, kid)
    && link == LinkOf(ctx)
    && i <= |s|
    && (inline ==>
          && kid.Leaf?
          && h == ctx.node.addr
          && stack == CtxStack(ctx.up)
          && s[..i] == CtxKey(ctx))
    && (!inline ==>
          && kid.Sub?
          && h == kid.node.addr
          && stack == CtxStack(ctx)
          && WF(kid.node)
          && (ctx.In? ==> Live(kid.node))
          && Stopped(kid.node, CtxKey(ctx), s, i, splitpos))
  }

  /** raxLowWalk. The ghost results name the position where the walk ended: an inline leaf, or the
      stop node. */
  method LowWalk(rax: Rax, s: Key)
    returns (i: nat, h: Addr, link: Link, splitpos: nat, stack: seq<Addr>, inline: bool, ghost ctx: Ctx, ghost kid: Kid)
    requires rax.Valid()
    ensures WalkEnd(rax, s, i, h, link, splitpos, stack, inline, ctx, kid)
    ensures (ctx, kid) == Located(Top, Sub(rax.tree), s)
  {
    hide Bag, KidBag, KidsBag, CtxBag, Owns, Located;
    assert s[0..] == s;
    h, link, i, stack, inline := rax.head, HeadLink, 0, [], false;
    ctx, kid := Top, Sub(rax.tree);
    assert Rep(rax.heap, rax.tree);
    var j := 0;
    while rax.heap[h].edges != [] && i < |s|
      invariant Holds(rax.heap, rax.head, ctx, kid) && Plug(ctx, kid) == rax.tree && Path(ctx, kid)
      invariant kid.Sub? && h == kid.node.addr && h in rax.heap && rax.heap[h] == NodeOf(kid.node)
      invariant link == LinkOf(ctx) && stack == CtxStack(ctx)
      invariant WF(kid.node) && (ctx.In? ==> Live(kid.node))
      invariant j == 0 && !inline && i <= |s| && s[..i] == CtxKey(ctx)
      invariant Located(Top, Sub(rax.tree), s) == Located(ctx, kid, s[i..])
      decreases |s| - i
    {
      var n := rax.heap[h];
      var i2, k, go := MatchNode(n, s, i);
      assert s[..i2] == s[..i] + s[i..i2];
      LocatedStep(ctx, kid.node, s, i, i2, k, go);
      i, j := i2, k;
      if !go {
        break;
      }
      assert j < |n.slots| && n.slots[j] == SlotOf(kid.node.kids[j]);
      assert KidWF(kid.node.kids[j]);
      Down(rax.heap, rax.head, ctx, kid.node, j);
      ctx, kid := In(ctx, kid.node, j), kid.node.kids[j];
      link := SlotLink(h, j);
      match n.slots[j]
      case Inline(_) =>
        inline := true;
        break;
      case Ptr(a) =>
        stack := stack + [h];
        h := a;
        j := 0;
        assert Rep(rax.heap, kid.node);
    }
    if inline || rax.heap[h].edges == [] || i == |s| {
      LocatedStop(ctx, kid, s[i..]);
    }
    splitpos := if rax.heap[h].compr && !inline then j else 0;
  }

  /** raxFindParentLink, and the scans of raxRemoveChild and raxSeek: the slot that holds the address. */
  method FindSlot(slots: seq<Slot>, a: Addr, ghost at: nat) returns (i: nat)
    requires at < |slots| && slots[at] == Ptr(a)
    requires forall j | 0 <= j < |slots| && j != at :: slots[j] != Ptr(a)
    ensures i == at
  {
    i := 0;
    while slots[i] != Ptr(a)
      invariant i <= at
      decreases at - i
    {
      i := i + 1;
    }
  }

  // ------------------------------------------------------------------ raxFind

  /** The key of a node is found among the entries of its subtree exactly when the walk ended on
      the node itself, not inside its compressed bytes, and the node is a key. */
  lemma StoppedLookup(t: Tree, pre: Key, s: Key, i: nat, j: nat)
    requires WF(t) && Stopped(t, pre, s, i, j)
    ensures s in MapOf(Entries(t, pre)) <==> i == |s| && j == 0 && t.key.Some?
    ensures i == |s| && j == 0 ==> s == pre
    ensures s in MapOf(Entries(t, pre)) ==> MapOf(Entries(t, pre))[s] == t.key.value
  {
    var es := Entries(t, pre);
    EntriesSorted(t, pre);
    MapOfKeys(es, s);
    if i == |s| && j == 0 {
      assert s[..i] == s;
      if t.compr {
        assert pre + t.edges[..0] == pre;
      }
      if t.key.Some? {
        MapOfSorted(es, 0);
      } else if s in MapOf(es) {
        var x :| 0 <= x < |es| && es[x].key == s;
        LessIrreflexive(s);
      }
    } else if s in MapOf(es) {
      var x :| 0 <= x < |es| && es[x].key == s;
      NotBelow(t, pre, s, i, j);
      assert false;
    }
  }

  /** When the walk could not go on, nothing below the stop node has the key. */
  lemma NotBelow(t: Tree, pre: Key, s: Key, i: nat, j: nat)
    requires WF(t) && Stopped(t, pre, s, i, j)
    ensures forall x | 0 <= x < |Below(t, pre)| :: Below(t, pre)[x].key != s
  {
    forall x | 0 <= x < |Below(t, pre)| ensures Below(t, pre)[x].key != s {
      var k := Below(t, pre)[x].key;
      if t.compr {
        KidEntriesUnder(t.kids[0], pre + t.edges);
        assert k[|pre| + j] == (pre + t.edges)[|pre| + j];
      } else {
        assert Below(t, pre) == KidsEntries(t.edges, t.kids, pre);
        KidsEntriesUnder(t.edges, t.kids, pre);
      }
      assert |s[..i]| == i;
    }
  }

  /** raxFind: None is raxNotFound. */
  method Find(rax: Rax, s: Key) returns (r: Option<Val>)
    requires rax.Valid()
    ensures r == if s in rax.Content() then Some(rax.Content()[s]) else None
  {
    var i, h, link, splitpos, stack, inline, ctx, kid := LowWalk(rax, s);
    CtxKeyWithin(ctx, kid, s, i, splitpos, inline);
    LookupAt(ctx, kid, s);
    if inline {
      LeafLookup(kid, CtxKey(ctx), s);
      assert CtxKey(ctx) == s <==> i == |s|;
      if i == |s| {
        assert s[..i] == s;
        var val := rax.heap[link.parent].slots[link.idx].val;
        return Some(val);
      }
      return None;
    }
    StoppedLookup(kid.node, CtxKey(ctx), s, i, splitpos);
    assert Rep(rax.heap, kid.node);
    var n := rax.heap[h];
    if i != |s| || (n.compr && splitpos != 0) || n.key.None? {
      return None;
    }
    return n.key;
  }

  lemma CtxKeyWithin(ctx: Ctx, kid: Kid, s: Key, i: nat, j: nat, inline: bool)
    requires CtxOk(ctx) && i <= |s|
    requires inline ==> s[..i] == CtxKey(ctx)
    requires !inline ==> kid.Sub? && Stopped(kid.node, CtxKey(ctx), s, i, j)
    ensures CtxKey(ctx) <= s
  {
    assert CtxKey(ctx) <= s[..i] <= s;
  }

  lemma LeafLookup(kid: Kid, pre: Key, s: Key)
    requires kid.Leaf?
    ensures s in MapOf(KidEntries(kid, pre)) <==> s == pre
    ensures MapOf(KidEntries(kid, pre)) == map[pre := kid.val]
  {
    var es := KidEntries(kid, pre);
    assert es == [Entry(pre, kid.val)];
    assert MapOf(es[..0]) == map[];
  }
}
