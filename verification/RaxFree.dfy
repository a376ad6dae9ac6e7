/** raxFree, and whole lifetimes of a tree from raxNew to raxFree. */
module RaxFree {
  import opened Keys
  import opened Seqs
  import opened RaxTree
  import opened RaxZipper
  import opened RaxHeap
  import opened RaxCore
  import RaxInsert
  import RaxRemove

  // ------------------------------------------------------------------ raxRecursiveFree

  function NonNull(v: Val): seq<Val> {
    if v == NULL then [] else [v]
  }

  function OwnFree(key: Option<Val>): seq<Val> {
    match key
    case None => []
    case Some(v) => NonNull(v)
  }

  /** The values in the order in which the callback sees them: last child first, the node itself
      after its children. */
  function FreeOrder(t: Tree): seq<Val>
    decreases t, 0
  {
    KidsFree(t.kids) + OwnFree(t.key)
  }

  function KidFree(k: Kid): seq<Val>
    decreases k, 1
  {
    match k
    case Leaf(v) => NonNull(v)
    case Sub(s) => FreeOrder(s)
  }

  function KidsFree(kids: seq<Kid>): seq<Val>
    decreases kids, 0
  {
    if kids == [] then [] else KidFree(kids[|kids| - 1]) + KidsFree(kids[..|kids| - 1])
  }

  /** The values that are not NULL. */
  function Values(es: seq<Entry>): seq<Val> {
    if es == [] then [] else NonNull(es[0].val) + Values(es[1..])
  }

  /** Every value but NULL occurs as often as there are entries with it. */
  lemma {:induction false} ValuesAre(es: seq<Entry>, v: Val)
    ensures multiset(Values(es))[v] == if v == NULL then 0 else |Holding(es, v)|
  {
    if es == [] {
      assert Holding(es, v) == {};
    } else {
      var n := |es| - 1;
      ValuesAre(es[..n], v);
      ValuesSnoc(es[..n], es[n]);
      assert es[..n] + [es[n]] == es;
      HoldingSnoc(es, v);
    }
  }

  /** The entries with the value `v`. */
  function Holding(es: seq<Entry>, v: Val): set<nat> {
    set i: nat | i < |es| && es[i].val == v
  }

  lemma HoldingSnoc(es: seq<Entry>, v: Val)
    requires es != []
    ensures var n := |es| - 1;
            |Holding(es, v)| == |Holding(es[..n], v)| + if es[n].val == v then 1 else 0
  {
    var n := |es| - 1;
    var some := Holding(es[..n], v);
    assert Holding(es, v) == if es[n].val == v then some + {n} else some;
  }

  lemma ValuesSnoc(es: seq<Entry>, e: Entry)
    ensures Values(es + [e]) == Values(es) + if e.val == NULL then [] else [e.val]
  {
    ValuesAppend(es, [e]);
    assert [e][1..] == [];
  }

  lemma {:induction false} ValuesAppend(a: seq<Entry>, b: seq<Entry>)
    ensures Values(a + b) == Values(a) + Values(b)
  {
    if a == [] {
      assert a + b == b;
    } else {
      assert (a + b)[1..] == a[1..] + b;
      ValuesAppend(a[1..], b);
    }
  }

  /** The callback sees the stored values that are not NULL from the greatest key down to the least. */
  lemma {:induction false} FreeOrderIsValues(t: Tree, pre: Key)
    requires WF(t)
    ensures FreeOrder(t) == Reversed(Values(Entries(t, pre)))
    decreases t, 2
  {
    hide NonNull, Reversed;
    ValuesAppend(Own(t.key, pre), Below(t, pre));
    OwnValues(t.key, pre);
    ReversedConcat(OwnFree(t.key), Values(Below(t, pre)));
    NothingReversed<Val>();
    if t.kids == [] {
    } else if t.compr {
      assert KidWF(t.kids[0]);
      KidFreeIsValues(t.kids[0], pre + t.edges);
      assert t.kids[..0] == [];
      assert KidsFree(t.kids) == KidFree(t.kids[0]) + KidsFree(t.kids[..0]);
    } else {
      KidsFreeIsValues(t.edges, t.kids, pre);
    }
  }

  lemma NothingReversed<T>()
    ensures Reversed<T>([]) == []
  {
  }

  lemma OwnValues(key: Option<Val>, pre: Key)
    ensures Values(Own(key, pre)) == OwnFree(key) && Reversed(OwnFree(key)) == OwnFree(key)
  {
    ReversedAt(OwnFree(key));
    if key.Some? {
      assert Own(key, pre)[1..] == [];
    }
  }

  lemma {:induction false} KidFreeIsValues(k: Kid, pre: Key)
    requires KidWF(k)
    ensures KidFree(k) == Reversed(Values(KidEntries(k, pre)))
    decreases k, 3
  {
    match k
    case Leaf(v) =>
      assert KidEntries(k, pre)[1..] == [];
      ReversedAt(NonNull(v));
    case Sub(s) => FreeOrderIsValues(s, pre);
  }

  lemma {:induction false} KidsFreeIsValues(edges: seq<byte>, kids: seq<Kid>, pre: Key)
    requires |edges| == |kids| && KidsWF(kids)
    ensures KidsFree(kids) == Reversed(Values(KidsEntries(edges, kids, pre)))
    decreases kids, 0
  {
    hide Reversed;
    NothingReversed<Val>();
    if kids != [] {
      var n := |kids| - 1;
      var before, last := KidsEntries(edges[..n], kids[..n], pre), KidEntries(kids[n], pre + [edges[n]]);
      LastKidEntries(edges, kids, pre);
      ValuesAppend(before, last);
      ReversedConcat(Values(before), Values(last));
      assert KidWF(kids[n]);
      KidFreeIsValues(kids[n], pre + [edges[n]]);
      forall i | 0 <= i < |kids[..n]| ensures KidWF(kids[..n][i]) { assert KidWF(kids[i]); }
      KidsFreeIsValues(edges[..n], kids[..n], pre);
    }
  }

  lemma LastKidEntries(edges: seq<byte>, kids: seq<Kid>, pre: Key)
    requires |edges| == |kids| > 0
    ensures var n := |kids| - 1;
            KidsEntries(edges, kids, pre)
            == KidsEntries(edges[..n], kids[..n], pre) + KidEntries(kids[n], pre + [edges[n]])
  {
    var n := |kids| - 1;
    KidsEntriesAt(edges, kids, n, pre);
    assert KidsEntries(edges[n + 1..], kids[n + 1..], pre) == [];
  }

  /** raxRecursiveFree: `freed` is what the callback is called with. `bag` is everything in use that
      does not belong to the subtree. */
  method RecursiveFree(rax: Rax, n: Addr, ghost t: Tree, ghost bag: multiset<Addr>) returns (freed: seq<Val>)
    requires Rep(rax.heap, t) && n == t.addr && Owns(rax.heap, bag + KidBag(Sub(t)))
    modifies rax`heap, rax`numnodes
    ensures Owns(rax.heap, bag) && RaxRemove.Kept(old(rax.heap), rax.heap, bag)
    ensures rax.numnodes - |rax.heap| == old(rax.numnodes - |rax.heap|)
    ensures freed == FreeOrder(t)
    decreases t, |t.kids| + 1
  {
    ghost var h0 := rax.heap;
    ghost var rest := bag + multiset{n};
    var node := rax.heap[n];
    assert KidBag(Sub(t)) == Bag(t) && t.kids[..|t.kids|] == t.kids;
    assert rest + KidsBag(t.kids) == bag + KidBag(Sub(t));
    freed := FreeKids(rax, n, |node.slots|, t, bag);
    RaxInsert.OwnsRemove(rax.heap, bag, n);
    match node.key {
      case None =>
      case Some(v) => freed := freed + if v != NULL then [v] else [];
    }
    KeptLess(h0, rax.heap, bag, n);
    Free(rax, n);
    rax.numnodes := rax.numnodes - 1;
  }

  lemma KeptLess(h0: Heap, h: Heap, bag: multiset<Addr>, n: Addr)
    requires RaxRemove.Kept(h0, h, bag + multiset{n}) && n !in bag
    ensures RaxRemove.Kept(h0, h - {n}, bag)
  {
    forall a | a in bag ensures a in h0 && a in h - {n} && (h - {n})[a] == h0[a] {
      assert a in bag + multiset{n};
    }
  }

  /** The loop of raxRecursiveFree over the first `count` children, from the last one down. */
  method FreeKids(rax: Rax, n: Addr, count: nat, ghost t: Tree, ghost bag: multiset<Addr>) returns (freed: seq<Val>)
    requires n in rax.heap && rax.heap[n] == NodeOf(t) && count <= |t.kids|
    requires forall j | 0 <= j < count :: RepKid(rax.heap, t.kids[j])
    requires Owns(rax.heap, bag + multiset{n} + KidsBag(t.kids[..count]))
    modifies rax`heap, rax`numnodes
    ensures Owns(rax.heap, bag + multiset{n})
    ensures RaxRemove.Kept(old(rax.heap), rax.heap, bag + multiset{n})
    ensures rax.numnodes - |rax.heap| == old(rax.numnodes - |rax.heap|)
    ensures freed == KidsFree(t.kids[..count])
    decreases t, count
  {
    hide Owns, RepKid, Rep, Bag, KidBag, Entries;
    ghost var h0, rest := rax.heap, bag + multiset{n};
    RaxRemove.KeptSelf(h0, rest, KidsBag(t.kids[..count]));
    if count == 0 {
      assert rest + KidsBag(t.kids[..0]) == rest;
      return [];
    }
    var i := count - 1;
    ghost var kid, kids := t.kids[i], t.kids[..i];
    FreeSplit(t.kids, i, rest);
    freed := FreeKid(rax, n, i, t, rest);
    ghost var h1 := rax.heap;
    RestKept(h0, h1, kids, rest, n);
    assert forall j | 0 <= j < i :: kids[j] == t.kids[j];
    var more := FreeKids(rax, n, i, t, bag);
    KeptTwice(h0, h1, rax.heap, rest, KidsBag(kids));
    freed := freed + more;
    assert t.kids[..count][..i] == kids && t.kids[..count][i] == kid;
  }

  /** Child `i`: an inline value goes to the callback, a node is freed with everything below it. */
  method FreeKid(rax: Rax, n: Addr, i: nat, ghost t: Tree, ghost rest: multiset<Addr>) returns (freed: seq<Val>)
    requires n in rax.heap && rax.heap[n] == NodeOf(t) && i < |t.kids| && RepKid(rax.heap, t.kids[i])
    requires Owns(rax.heap, rest + KidsBag(t.kids[..i]) + KidBag(t.kids[i]))
    modifies rax`heap, rax`numnodes
    ensures Owns(rax.heap, rest + KidsBag(t.kids[..i]))
    ensures RaxRemove.Kept(old(rax.heap), rax.heap, rest + KidsBag(t.kids[..i]))
    ensures rax.numnodes - |rax.heap| == old(rax.numnodes - |rax.heap|)
    ensures freed == KidFree(t.kids[i])
    decreases t, i
  {
    ghost var all := rest + KidsBag(t.kids[..i]);
    assert rax.heap[n].slots[i] == SlotOf(t.kids[i]);
    match rax.heap[n].slots[i] {
      case Inline(v) =>
        freed := if v != NULL then [v] else [];
        assert all + KidBag(t.kids[i]) == all;
        RaxRemove.KeptSelf(rax.heap, all, multiset{});
      case Ptr(a) =>
        freed := RecursiveFree(rax, a, t.kids[i].node, all);
    }
  }

  lemma FreeSplit(kids: seq<Kid>, i: nat, rest: multiset<Addr>)
    requires i < |kids|
    ensures rest + KidsBag(kids[..i + 1]) == rest + KidsBag(kids[..i]) + KidBag(kids[i])
  {
    KidsBagSnoc(kids, i);
  }

  /** Freeing one child leaves the others, and their parent, as they were. */
  lemma RestKept(h0: Heap, h1: Heap, kids: seq<Kid>, rest: multiset<Addr>, n: Addr)
    requires RaxRemove.Kept(h0, h1, rest + KidsBag(kids)) && forall j | 0 <= j < |kids| :: RepKid(h0, kids[j])
    ensures forall j | 0 <= j < |kids| :: RepKid(h1, kids[j])
    ensures n in rest ==> n in h0 && n in h1 && h1[n] == h0[n]
    ensures forall a | a in rest :: a in h0
  {
    assert forall a | a in rest :: a in rest + KidsBag(kids);
    forall j | 0 <= j < |kids| ensures RepKid(h1, kids[j]) {
      forall x | x in KidBag(kids[j]) && x in h0 ensures x in h1 && h1[x] == h0[x] {
        KidBagOfMember(kids, j, x);
        assert x in rest + KidsBag(kids);
      }
      RepFrame(h0, h1, kids[j]);
    }
  }

  lemma KidsBagSnoc(kids: seq<Kid>, i: nat)
    requires i < |kids|
    ensures KidsBag(kids[..i + 1]) == KidsBag(kids[..i]) + KidBag(kids[i])
  {
    assert kids[..i + 1] == kids[..i] + [kids[i]];
    KidsBagAppend(kids[..i], [kids[i]]);
    assert KidsBag([kids[i]]) == KidBag(kids[i]) + KidsBag([kids[i]][1..]);
  }

  lemma KeptTwice(h0: Heap, h1: Heap, h2: Heap, bag: multiset<Addr>, more: multiset<Addr>)
    requires RaxRemove.Kept(h0, h1, bag + more) && RaxRemove.Kept(h1, h2, bag)
    ensures RaxRemove.Kept(h0, h2, bag)
  {
    forall a | a in bag ensures a in h0 && a in h2 && h2[a] == h0[a] {
      assert a in bag + more;
    }
  }

  lemma NothingOwned(h: Heap)
    requires Owns(h, multiset{})
    ensures h == map[] && |h| == 0
  {
    assert |multiset(h.Keys)| == |h.Keys|;
    assert |h.Keys| == 0;
  }

  /** raxFreeWithCallback: the assertion that no node is left holds, nothing stays allocated, and the
      callback has seen each non-NULL value once per key, from the greatest key down. */
  method FreeWithCallback(rax: Rax) returns (freed: seq<Val>)
    requires rax.Valid()
    modifies rax`heap, rax`numnodes
    ensures rax.numnodes == 0 && rax.heap == map[]
    ensures freed == Reversed(Values(Entries(old(rax.tree), [])))
  {
    ghost var t := rax.tree;
    assert CtxBag(Top) + KidBag(Sub(t)) == multiset{} + KidBag(Sub(t));
    freed := RecursiveFree(rax, rax.head, t, multiset{});
    NothingOwned(rax.heap);
    FreeOrderIsValues(t, []);
  }

  // ------------------------------------------------------------------ lifetimes

  datatype Op = Insert(k: Key, v: Val) | TryInsert(k: Key, v: Val) | Remove(k: Key)

  /** The plain map a tree stands for. */
  function Apply(m: map<Key, Val>, op: Op): map<Key, Val> {
    match op
    case Insert(k, v) => m[k := v]
    case TryInsert(k, v) => if k in m then m else m[k := v]
    case Remove(k) => m - {k}
  }

  /** What each operation does to a map: only the key named can change. An insertion stores the value,
      unless it is one that keeps a value already there; a removal leaves no value. */
  lemma ApplyIs(m: map<Key, Val>, op: Op, k: Key)
    ensures var after := Apply(m, op);
            && (k != op.k ==> (k in after <==> k in m) && (k in m ==> after[k] == m[k]))
            && (op.k in after <==> !op.Remove?)
            && (op.Insert? ==> after[op.k] == op.v)
            && (op.TryInsert? ==> after[op.k] == if op.k in m then m[op.k] else op.v)
  {
  }

  function ApplyAll(ops: seq<Op>): map<Key, Val> {
    if ops == [] then map[] else Apply(ApplyAll(ops[..|ops| - 1]), ops[|ops| - 1])
  }

  predicate Inserts(op: Op, k: Key) {
    !op.Remove? && op.k == k
  }

  lemma {:induction false} KeysWereInserted(ops: seq<Op>, k: Key)
    requires k in ApplyAll(ops)
    ensures exists i :: 0 <= i < |ops| && Inserts(ops[i], k)
  {
    var n := |ops| - 1;
    if !Inserts(ops[n], k) {
      KeysWereInserted(ops[..n], k);
      var i :| 0 <= i < n && Inserts(ops[..n][i], k);
      assert Inserts(ops[i], k);
    }
  }

  /** Any run of operations on a fresh tree: the tree follows the plain map through all of them,
      unless a removal meets a chain that only a key too long for one node can make. */
  method Run(ops: seq<Op>) returns (rax: Rax, overrun: bool)
    ensures !overrun ==> rax.Valid() && rax.Content() == ApplyAll(ops)
    ensures (forall i | 0 <= i < |ops| :: ops[i].Remove? || |ops[i].k| <= NODE_MAX_SIZE) ==> !overrun
    ensures fresh(rax)
  {
    hide Holds, Entries, WF, MapOf;
    rax := new Rax();
    overrun := false;
    for n := 0 to |ops|
      invariant rax.Valid() && rax.Content() == ApplyAll(ops[..n])
      invariant fresh(rax) && !overrun
    {
      ghost var m := rax.Content();
      assert ops[..n + 1][..n] == ops[..n];
      match ops[n]
      case Insert(k, v) =>
        var inserted, prev := RaxInsert.GenericInsert(rax, k, v, true);
      case TryInsert(k, v) =>
        var inserted, prev := RaxInsert.GenericInsert(rax, k, v, false);
      case Remove(k) =>
        var removed, prev;
        removed, prev, overrun := RaxRemove.Remove(rax, k);
        if overrun {
          ghost var long :| long in m && |long| > NODE_MAX_SIZE;
          KeysWereInserted(ops[..n], long);
          ghost var i :| 0 <= i < n && Inserts(ops[..n][i], long);
          assert ops[i] == ops[..n][i];
          return;
        }
    }
    assert ops[..|ops|] == ops;
  }
}
