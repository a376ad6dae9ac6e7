/**
 The radix tree of rax.c as a value. Every node carries the address of the allocation that
 holds it, so that the same value also describes the heap (see RaxHeap).
 */
module RaxTree {
  import opened Keys

  type Addr = nat
  type Val = nat  // a `void *`; 0 stands for NULL

  const NULL: Val := 0
  const NODE_MAX_SIZE := 65535
  const INLINE_SLOTS := 13

  datatype Option<+T> = None | Some(value: T)

  datatype Entry = Entry(key: Key, val: Val)

  /** What a child slot holds: an inline leaf value, or a real node. */
  datatype Kid = Leaf(val: Val) | Sub(node: Tree)

  /** `key` is the value of a node that represents a key (iskey), None otherwise. */
  datatype Tree = Tree(addr: Addr, key: Option<Val>, compr: bool, edges: seq<byte>, kids: seq<Kid>)

  // ------------------------------------------------------------------ contents

  function Own(key: Option<Val>, pre: Key): seq<Entry> {
    match key
    case None => []
    case Some(v) => [Entry(pre, v)]
  }

  /** All the keys of a subtree whose root spells `pre`, in iteration order. */
  function Entries(t: Tree, pre: Key): seq<Entry>
    decreases t, 2
  {
    Own(t.key, pre) + Below(t, pre)
  }

  /** The keys strictly below the root of `t`. */
  function Below(t: Tree, pre: Key): seq<Entry>
    decreases t, 1
  {
    if t.kids == [] then []
    else if t.compr then KidEntries(t.kids[0], pre + t.edges)
    else KidsEntries(t.edges, t.kids, pre)
  }

  function KidEntries(k: Kid, pre: Key): seq<Entry>
    decreases k, 3
  {
    match k
    case Leaf(v) => [Entry(pre, v)]
    case Sub(s) => Entries(s, pre)
  }

  function KidsEntries(edges: seq<byte>, kids: seq<Kid>, pre: Key): seq<Entry>
    decreases kids, 0
  {
    if kids == [] || edges == [] then []
    else KidEntries(kids[0], pre + [edges[0]]) + KidsEntries(edges[1..], kids[1..], pre)
  }

  function MapOf(es: seq<Entry>): map<Key, Val> {
    if es == [] then map[]
    else
      var last := es[|es| - 1];
      MapOf(es[..|es| - 1])[last.key := last.val]
  }

  ghost predicate Sorted(es: seq<Entry>) {
    forall i, j | 0 <= i < j < |es| :: Less(es[i].key, es[j].key)
  }

  ghost predicate Under(es: seq<Entry>, pre: Key) {
    forall i | 0 <= i < |es| :: pre <= es[i].key
  }

  ghost predicate AllLess(es: seq<Entry>, k: Key) {
    forall i | 0 <= i < |es| :: Less(es[i].key, k)
  }

  ghost predicate AllMore(es: seq<Entry>, k: Key) {
    forall i | 0 <= i < |es| :: Less(k, es[i].key)
  }

  // ------------------------------------------------------------------ shape

  ghost predicate Ascending(edges: seq<byte>) {
    forall i, j | 0 <= i < j < |edges| :: edges[i] < edges[j]
  }

  /** One node in isolation: its size fits the header, a compressed node has one child and at
      least two bytes, the edges of any other node are sorted, and inline leaves sit below slot 13. */
  ghost predicate NodeOk(t: Tree) {
    && |t.edges| <= NODE_MAX_SIZE
    && (t.compr ==> |t.kids| == 1 && 2 <= |t.edges|)
    && (!t.compr ==> |t.kids| == |t.edges| && Ascending(t.edges))
    && forall i | INLINE_SLOTS <= i < |t.kids| :: t.kids[i].Sub?
  }

  /** A node other than the head is never useless: it has children or it is a key. */
  predicate Live(t: Tree) {
    t.kids != [] || t.key.Some?
  }

  ghost predicate WF(t: Tree) {
    NodeOk(t) && KidsWF(t.kids)
  }

  ghost predicate KidWF(k: Kid) {
    k.Sub? ==> Live(k.node) && WF(k.node)
  }

  ghost predicate KidsWF(kids: seq<Kid>) {
    forall i | 0 <= i < |kids| :: KidWF(kids[i])
  }

  // ------------------------------------------------------------------ sequences of entries

  lemma {:induction false} MapOfAppend(a: seq<Entry>, b: seq<Entry>)
    ensures MapOf(a + b) == MapOf(a) + MapOf(b)
    decreases |b|
  {
    if b == [] {
      assert a + b == a;
    } else {
      assert (a + b)[..|a + b| - 1] == a + b[..|b| - 1];
      MapOfAppend(a, b[..|b| - 1]);
    }
  }

  lemma {:induction false} MapOfKeys(es: seq<Entry>, k: Key)
    ensures k in MapOf(es) <==> exists i :: 0 <= i < |es| && es[i].key == k
  {
    if es != [] {
      var n := |es| - 1;
      MapOfKeys(es[..n], k);
      if k in MapOf(es[..n]) {
        var i :| 0 <= i < n && es[..n][i].key == k;
        assert es[i].key == k;
      }
      if exists i :: 0 <= i < |es| && es[i].key == k {
        var i :| 0 <= i < |es| && es[i].key == k;
        assert i < n ==> es[..n][i].key == k;
      }
    }
  }

  /** In a sorted list each entry is the one its key maps to. */
  lemma {:induction false} MapOfSorted(es: seq<Entry>, i: nat)
    requires Sorted(es) && i < |es|
    ensures es[i].key in MapOf(es) && MapOf(es)[es[i].key] == es[i].val
  {
    var n := |es| - 1;
    if i < n {
      MapOfSorted(es[..n], i);
      LessAsymmetric(es[i].key, es[n].key);
      assert es[..n][i] == es[i];
    }
  }

  lemma {:induction false} MapOfSize(es: seq<Entry>)
    requires Sorted(es)
    ensures |MapOf(es)| == |es|
  {
    if es != [] {
      var n := |es| - 1;
      MapOfSize(es[..n]);
      MapOfKeys(es[..n], es[n].key);
      if es[n].key in MapOf(es[..n]) {
        var i :| 0 <= i < n && es[..n][i].key == es[n].key;
        LessAsymmetric(es[i].key, es[n].key);
        assert false;
      }
    }
  }

  lemma SortedAppend(a: seq<Entry>, b: seq<Entry>)
    requires Sorted(a) && Sorted(b)
    requires forall i, j | 0 <= i < |a| && 0 <= j < |b| :: Less(a[i].key, b[j].key)
    ensures Sorted(a + b)
  {
  }

  // ------------------------------------------------------------------ splitting the children

  lemma {:induction false} KidsEntriesSplit(edges: seq<byte>, kids: seq<Kid>, i: nat, pre: Key)
    requires |edges| == |kids| && i <= |kids|
    ensures KidsEntries(edges, kids, pre)
         == KidsEntries(edges[..i], kids[..i], pre) + KidsEntries(edges[i..], kids[i..], pre)
  {
    if i == 0 {
      assert edges[i..] == edges && kids[i..] == kids;
    } else {
      KidsEntriesSplit(edges[1..], kids[1..], i - 1, pre);
      assert edges[..i][1..] == edges[1..][..i - 1] && kids[..i][1..] == kids[1..][..i - 1];
      assert edges[1..][i - 1..] == edges[i..] && kids[1..][i - 1..] == kids[i..];
    }
  }

  lemma KidsEntriesAt(edges: seq<byte>, kids: seq<Kid>, i: nat, pre: Key)
    requires |edges| == |kids| && i < |kids|
    ensures KidsEntries(edges, kids, pre)
         == KidsEntries(edges[..i], kids[..i], pre) + KidEntries(kids[i], pre + [edges[i]])
          + KidsEntries(edges[i + 1..], kids[i + 1..], pre)
  {
    KidsEntriesSplit(edges, kids, i, pre);
    assert edges[i..][1..] == edges[i + 1..] && kids[i..][1..] == kids[i + 1..];
  }

  // ------------------------------------------------------------------ prefixes and order

  lemma PrefixTrans(a: Key, b: Key, c: Key)
    requires a <= b && b <= c
    ensures a <= c
  {
  }

  lemma {:induction false} EntriesUnder(t: Tree, pre: Key)
    ensures Under(Entries(t, pre), pre)
    decreases t, 2
  {
    if t.kids != [] {
      if t.compr {
        KidEntriesUnder(t.kids[0], pre + t.edges);
      } else {
        KidsEntriesUnder(t.edges, t.kids, pre);
      }
      forall i | 0 <= i < |Below(t, pre)| ensures pre <= Below(t, pre)[i].key {
        if t.compr {
          PrefixTrans(pre, pre + t.edges, Below(t, pre)[i].key);
        }
      }
    }
  }

  lemma {:induction false} KidEntriesUnder(k: Kid, pre: Key)
    ensures Under(KidEntries(k, pre), pre)
    decreases k, 3
  {
    if k.Sub? {
      EntriesUnder(k.node, pre);
    }
  }

  /** Every entry below a child continues with the byte of one of the edges. */
  lemma {:induction false} KidsEntriesUnder(edges: seq<byte>, kids: seq<Kid>, pre: Key)
    ensures forall i | 0 <= i < |KidsEntries(edges, kids, pre)| ::
              pre <= KidsEntries(edges, kids, pre)[i].key
              && |pre| < |KidsEntries(edges, kids, pre)[i].key|
              && KidsEntries(edges, kids, pre)[i].key[|pre|] in edges
    decreases kids, 0
  {
    if kids != [] && edges != [] {
      KidEntriesUnder(kids[0], pre + [edges[0]]);
      KidsEntriesUnder(edges[1..], kids[1..], pre);
      var first := KidEntries(kids[0], pre + [edges[0]]);
      forall i | 0 <= i < |first|
        ensures pre <= first[i].key && |pre| < |first[i].key| && first[i].key[|pre|] == edges[0]
      {
        assert pre + [edges[0]] <= first[i].key;
        assert first[i].key[|pre|] == (pre + [edges[0]])[|pre|];
      }
    }
  }

  lemma {:induction false} EntriesSorted(t: Tree, pre: Key)
    requires WF(t)
    ensures Sorted(Entries(t, pre)) && Sorted(Below(t, pre))
    ensures forall i | 0 <= i < |Below(t, pre)| :: pre <= Below(t, pre)[i].key && Less(pre, Below(t, pre)[i].key)
    decreases t, 2
  {
    if t.kids != [] {
      if t.compr {
        KidEntriesUnder(t.kids[0], pre + t.edges);
        KidEntriesSorted(t.kids[0], pre + t.edges);
      } else {
        KidsEntriesUnder(t.edges, t.kids, pre);
        KidsEntriesSorted(t.edges, t.kids, pre);
      }
      forall i | 0 <= i < |Below(t, pre)|
        ensures pre <= Below(t, pre)[i].key && Less(pre, Below(t, pre)[i].key)
      {
        PrefixLess(pre, Below(t, pre)[i].key);
      }
    }
    SortedAppend(Own(t.key, pre), Below(t, pre));
  }

  lemma {:induction false} KidEntriesSorted(k: Kid, pre: Key)
    requires KidWF(k)
    ensures Sorted(KidEntries(k, pre))
    decreases k, 3
  {
    if k.Sub? {
      EntriesSorted(k.node, pre);
    }
  }

  lemma {:induction false} KidsEntriesSorted(edges: seq<byte>, kids: seq<Kid>, pre: Key)
    requires |edges| == |kids| && Ascending(edges) && KidsWF(kids)
    ensures Sorted(KidsEntries(edges, kids, pre))
    decreases kids, 0
  {
    if kids != [] {
      assert KidWF(kids[0]);
      KidEntriesSorted(kids[0], pre + [edges[0]]);
      assert KidsWF(kids[1..]) by {
        forall i | 0 <= i < |kids[1..]| ensures KidWF(kids[1..][i]) { assert KidWF(kids[i + 1]); }
      }
      KidsEntriesSorted(edges[1..], kids[1..], pre);
      KidEntriesUnder(kids[0], pre + [edges[0]]);
      KidsEntriesUnder(edges[1..], kids[1..], pre);
      var a, b := KidEntries(kids[0], pre + [edges[0]]), KidsEntries(edges[1..], kids[1..], pre);
      forall i, j | 0 <= i < |a| && 0 <= j < |b| ensures Less(a[i].key, b[j].key) {
        var y := b[j].key[|pre|];
        assert y in edges[1..];
        assert pre + [y] <= b[j].key;
        DivergeLess(pre, edges[0], a[i].key, y, b[j].key);
      }
      SortedAppend(a, b);
    }
  }
}
