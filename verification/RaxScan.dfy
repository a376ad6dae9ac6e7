/** Whole iterations: raxNext and raxPrev from a seek to EOF. */
module RaxScan {
  import opened Keys
  import opened Seqs
  import opened RaxTree
  import opened RaxZipper
  import opened RaxHeap
  import opened RaxCore
  import opened RaxIter
  import opened RaxSeek

  /** raxNext. Right after a seek it returns the element the seek found. */
  method Next(it: RaxIterator) returns (more: bool)
    requires !it.eof ==> it.OnKey() && CtxOk(it.ctx)
    modifies it
    ensures more == !it.eof && (more ==> it.OnKey() && CtxOk(it.ctx) && !it.justSeeked)
    ensures old(it.eof) ==> it.eof
    ensures old(!it.eof && it.justSeeked) ==> more && SamePlace(it)
    ensures old(!it.eof && !it.justSeeked) ==>
              && (more <==> old(it.After()) != [])
              && if more then old(it.After()) == [Entry(it.key, it.data)] + it.After() else SamePlace(it)
  {
    if !it.eof {
      PathPlug(it.ctx, it.kid);
      assert [] + CtxAfter(it.ctx) == CtxAfter(it.ctx);
      NextStep(it, false, it.ctx, it.rt.tree, 0, it.After());
    } else {
      NextStep(it, false, it.ctx, it.rt.tree, 0, []);
    }
    more := !it.eof;
  }

  /** raxPrev. */
  method Prev(it: RaxIterator) returns (more: bool)
    requires !it.eof ==> it.OnKey() && CtxOk(it.ctx)
    modifies it
    ensures more == !it.eof && (more ==> it.OnKey() && CtxOk(it.ctx) && !it.justSeeked)
    ensures old(it.eof) ==> it.eof
    ensures old(!it.eof && it.justSeeked) ==> more && SamePlace(it)
    ensures old(!it.eof && !it.justSeeked) ==>
              && (more <==> old(CtxBefore(it.ctx)) != [])
              && if more then old(CtxBefore(it.ctx)) == CtxBefore(it.ctx) + [Entry(it.key, it.data)] else SamePlace(it)
  {
    if !it.eof {
      PathPlug(it.ctx, it.kid);
      PrevStep(it, false, it.ctx, it.rt.tree, 0, CtxBefore(it.ctx));
    } else {
      PrevStep(it, false, it.ctx, it.rt.tree, 0, []);
    }
    more := !it.eof;
  }

  /** "^" leaves nothing before the position, "$" nothing after it. */
  lemma FirstHasNoneBefore(it: RaxIterator)
    requires it.rt.Valid() && Landed(it, First, []) && !it.eof
    ensures CtxOk(it.ctx) && CtxBefore(it.ctx) == []
    ensures All(it.rt) == [Entry(it.key, it.data)] + it.After()
  {
    PathPlug(it.ctx, it.kid);
    OnKeySplit(it);
    EntriesSorted(it.rt.tree, []);
    var b := CtxBefore(it.ctx);
    if b != [] {
      assert All(it.rt)[0] == b[0] && All(it.rt)[|b|] == Entry(it.key, it.data);
      MapOfSorted(All(it.rt), 0);
      LessAsymmetric(b[0].key, it.key);
      assert false;
    }
  }

  lemma LastHasNoneAfter(it: RaxIterator)
    requires it.rt.Valid() && Landed(it, Last, []) && !it.eof
    ensures CtxOk(it.ctx) && it.After() == []
    ensures All(it.rt) == CtxBefore(it.ctx) + [Entry(it.key, it.data)]
  {
    PathPlug(it.ctx, it.kid);
    OnKeySplit(it);
    EntriesSorted(it.rt.tree, []);
    var b, a := CtxBefore(it.ctx), it.After();
    if a != [] {
      assert All(it.rt)[|b|] == Entry(it.key, it.data) && All(it.rt)[|b| + 1] == a[0];
      MapOfSorted(All(it.rt), |b| + 1);
      LessAsymmetric(it.key, a[0].key);
      assert false;
    }
  }

  lemma EmptyScan(rt: Rax)
    requires rt.Valid() && forall k | k in rt.Content() :: false
    ensures All(rt) == []
  {
    EntriesSorted(rt.tree, []);
    if All(rt) != [] {
      MapOfSorted(All(rt), 0);
      assert false;
    }
  }

  /** The list of a tree's entries is what its map says, in strictly increasing key order. */
  lemma ListIsMap(rt: Rax)
    requires rt.Valid()
    ensures Sorted(All(rt)) && MapOf(All(rt)) == rt.Content() && |All(rt)| == |rt.Content()|
  {
    EntriesSorted(rt.tree, []);
    MapOfSize(All(rt));
  }

  /** `while(raxNext(&it))` after a seek: collects everything from the element found to the end. */
  method DrainForward(it: RaxIterator, ghost es: seq<Entry>) returns (out: seq<Entry>)
    requires if it.eof then es == [] else it.OnKey() && CtxOk(it.ctx) && it.justSeeked && es == [Entry(it.key, it.data)] + it.After()
    modifies it
    ensures out == es && it.eof
  {
    out := [];
    ghost var rest := es;
    var more := Next(it);
    while more
      invariant more == !it.eof
      invariant more ==> it.OnKey() && CtxOk(it.ctx) && !it.justSeeked && rest == [Entry(it.key, it.data)] + it.After()
      invariant !more ==> rest == []
      invariant out + rest == es
      decreases |rest|
    {
      Assoc(out, [Entry(it.key, it.data)], it.After());
      out := out + [Entry(it.key, it.data)];
      rest := it.After();
      more := Next(it);
    }
    assert out + [] == out;
  }

  /** Seek to the first key and call raxNext until EOF: every key once, in increasing order. */
  method ScanForward(rt: Rax) returns (out: seq<Entry>)
    requires rt.Valid()
    ensures Sorted(out) && MapOf(out) == rt.Content() && |out| == |rt.Content()|
    ensures out == All(rt)
  {
    ListIsMap(rt);
    var it := new RaxIterator(rt);
    var ok := Seek(it, "^", []);
    if it.eof {
      assert forall k :: Matches(First, k, []);
      EmptyScan(rt);
    } else {
      FirstHasNoneBefore(it);
    }
    out := DrainForward(it, All(rt));
  }

  lemma ReversedStep<T>(out: seq<T>, rest: seq<T>, e: T)
    requires rest != [] && rest[|rest| - 1] == e
    ensures out + Reversed(rest) == (out + [e]) + Reversed(rest[..|rest| - 1])
  {
  }

  /** `while(raxPrev(&it))` after a seek. */
  method DrainBackward(it: RaxIterator, ghost es: seq<Entry>) returns (out: seq<Entry>)
    requires if it.eof then es == [] else it.OnKey() && CtxOk(it.ctx) && it.justSeeked && es == CtxBefore(it.ctx) + [Entry(it.key, it.data)]
    modifies it
    ensures out == Reversed(es) && it.eof
  {
    out := [];
    ghost var rest := es;
    var more := Prev(it);
    while more
      invariant more == !it.eof
      invariant more ==> it.OnKey() && CtxOk(it.ctx) && !it.justSeeked && rest == CtxBefore(it.ctx) + [Entry(it.key, it.data)]
      invariant !more ==> rest == []
      invariant out + Reversed(rest) == Reversed(es)
      decreases |rest|
    {
      ReversedStep(out, rest, Entry(it.key, it.data));
      out := out + [Entry(it.key, it.data)];
      rest := CtxBefore(it.ctx);
      more := Prev(it);
    }
    assert out + [] == out;
  }

  /** Seek to the last key and call raxPrev until EOF: the same list backwards. */
  method ScanBackward(rt: Rax) returns (out: seq<Entry>)
    requires rt.Valid()
    ensures Sorted(Reversed(out)) && MapOf(Reversed(out)) == rt.Content()
    ensures out == Reversed(All(rt))
  {
    ListIsMap(rt);
    var it := new RaxIterator(rt);
    var ok := Seek(it, "$", []);
    if it.eof {
      assert forall k :: Matches(Last, k, []);
      EmptyScan(rt);
    } else {
      LastHasNoneAfter(it);
    }
    out := DrainBackward(it, All(rt));
    ReversedTwice(All(rt));
  }
}
