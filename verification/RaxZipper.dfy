/**
 A position in a radix tree: a child slot together with the path of parents above it. This is
 what raxStack, the parent links and the iterator state of rax.c stand for.
 */
module RaxZipper {
  import opened Keys
  import opened Seqs
  import opened RaxTree

  /** `In(up, node, idx)` is slot `idx` of `node`; `up` is where `node` itself hangs. What
      `node.kids[idx]` holds is irrelevant: it is the hole. */
  datatype Ctx = Top | In(up: Ctx, node: Tree, idx: nat)

  function Label(node: Tree, idx: nat): Key
    requires idx < |node.edges|
  {
    if node.compr then node.edges else [node.edges[idx]]
  }

  ghost predicate CtxOk(ctx: Ctx) {
    match ctx
    case Top => true
    case In(up, node, idx) =>
      && NodeOk(node)
      && idx < |node.kids|
      && (forall j | 0 <= j < |node.kids| && j != idx :: KidWF(node.kids[j]))
      && CtxOk(up)
  }

  function CtxKey(ctx: Ctx): Key
    requires CtxOk(ctx)
  {
    match ctx
    case Top => []
    case In(up, node, idx) => CtxKey(up) + Label(node, idx)
  }

  /** The addresses on the parent stack, outermost first. */
  function CtxStack(ctx: Ctx): seq<Addr> {
    match ctx
    case Top => []
    case In(up, node, _) => CtxStack(up) + [node.addr]
  }

  /** A slot without a parent can only be the head link, which never holds an inline leaf. */
  ghost predicate Fits(ctx: Ctx, kid: Kid) {
    kid.Leaf? ==> ctx.In? && ctx.idx < INLINE_SLOTS
  }

  function Put(node: Tree, idx: nat, kid: Kid): Tree
    requires idx < |node.kids|
  {
    node.(kids := node.kids[idx := kid])
  }

  function Plug(ctx: Ctx, kid: Kid): Tree
    requires CtxOk(ctx) && Fits(ctx, kid)
  {
    match ctx
    case Top => kid.node
    case In(up, node, idx) => Plug(up, Sub(Put(node, idx, kid)))
  }

  // ------------------------------------------------------------------ entries around a position

  function LeftOf(node: Tree, idx: nat, pre: Key): seq<Entry>
    requires !node.compr ==> |node.edges| == |node.kids| && idx <= |node.kids|
  {
    if node.compr then [] else KidsEntries(node.edges[..idx], node.kids[..idx], pre)
  }

  /** The entries of the children from `idx` on; of a compressed node there is only child 0. */
  function RightOf(node: Tree, idx: nat, pre: Key): seq<Entry>
    requires !node.compr ==> |node.edges| == |node.kids| && idx <= |node.kids|
  {
    if node.compr then [] else KidsEntries(node.edges[idx..], node.kids[idx..], pre)
  }

  function CtxBefore(ctx: Ctx): seq<Entry>
    requires CtxOk(ctx)
  {
    match ctx
    case Top => []
    case In(up, node, idx) =>
      CtxBefore(up) + Own(node.key, CtxKey(up)) + LeftOf(node, idx, CtxKey(up))
  }

  function CtxAfter(ctx: Ctx): seq<Entry>
    requires CtxOk(ctx)
  {
    match ctx
    case Top => []
    case In(up, node, idx) => RightOf(node, idx + 1, CtxKey(up)) + CtxAfter(up)
  }

  lemma BelowAt(node: Tree, idx: nat, pre: Key)
    requires NodeOk(node) && idx < |node.kids|
    ensures Below(node, pre)
         == LeftOf(node, idx, pre) + KidEntries(node.kids[idx], pre + Label(node, idx)) + RightOf(node, idx + 1, pre)
  {
    if !node.compr {
      KidsEntriesAt(node.edges, node.kids, idx, pre);
    }
  }

  lemma PutEntries(node: Tree, idx: nat, kid: Kid, pre: Key)
    requires NodeOk(node) && idx < |node.kids| && (kid.Leaf? ==> idx < INLINE_SLOTS)
    ensures NodeOk(Put(node, idx, kid))
    ensures Entries(Put(node, idx, kid), pre)
         == Own(node.key, pre) + LeftOf(node, idx, pre) + KidEntries(kid, pre + Label(node, idx))
          + RightOf(node, idx + 1, pre)
  {
    var t := Put(node, idx, kid);
    BelowAt(t, idx, pre);
    assert t.kids[..idx] == node.kids[..idx] && t.kids[idx + 1..] == node.kids[idx + 1..];
  }

  lemma {:induction false} PlugEntries(ctx: Ctx, kid: Kid)
    requires CtxOk(ctx) && Fits(ctx, kid)
    ensures Entries(Plug(ctx, kid), []) == CtxBefore(ctx) + KidEntries(kid, CtxKey(ctx)) + CtxAfter(ctx)
  {
    match ctx
    case Top =>
    case In(up, node, idx) =>
      var pre := CtxKey(up);
      PutEntries(node, idx, kid, pre);
      PlugEntries(up, Sub(Put(node, idx, kid)));
      Regroup6(CtxBefore(up), Own(node.key, pre), LeftOf(node, idx, pre), KidEntries(kid, CtxKey(ctx)),
              RightOf(node, idx + 1, pre), CtxAfter(up));
  }

  lemma {:induction false} PlugWF(ctx: Ctx, kid: Kid)
    requires CtxOk(ctx) && Fits(ctx, kid)
    requires if ctx.Top? then WF(kid.node) else KidWF(kid)
    ensures WF(Plug(ctx, kid))
  {
    match ctx
    case Top =>
    case In(up, node, idx) =>
      var t := Put(node, idx, kid);
      forall j | 0 <= j < |t.kids| ensures KidWF(t.kids[j]) {}
      PlugWF(up, Sub(t));
  }

  /** Everything before a position is smaller, and everything after it larger, than any string
      that starts with the position's own key. */
  lemma {:induction false} CtxOrder(ctx: Ctx, k: Key)
    requires CtxOk(ctx) && CtxKey(ctx) <= k
    ensures AllLess(CtxBefore(ctx), k) && AllMore(CtxAfter(ctx), k)
  {
    match ctx
    case Top =>
    case In(up, node, idx) =>
      hide KidsEntries, Less, CtxBefore, CtxAfter;
      var pre := CtxKey(up);
      PrefixTrans(pre, CtxKey(ctx), k);
      CtxOrder(up, k);
      PrefixLess(pre, k);
      if !node.compr {
        SideOrder(node, idx, pre, k);
      }
      CtxSides(ctx);
  }

  lemma CtxSides(ctx: Ctx)
    requires CtxOk(ctx) && ctx.In?
    ensures var (up, node, idx, pre) := (ctx.up, ctx.node, ctx.idx, CtxKey(ctx.up));
            && CtxBefore(ctx) == CtxBefore(up) + Own(node.key, pre) + (if node.compr then [] else LeftOf(node, idx, pre))
            && CtxAfter(ctx) == (if node.compr then [] else RightOf(node, idx + 1, pre)) + CtxAfter(up)
  {
  }

  lemma SideOrder(node: Tree, idx: nat, pre: Key, k: Key)
    requires NodeOk(node) && !node.compr && idx < |node.kids| && pre + [node.edges[idx]] <= k
    ensures AllLess(LeftOf(node, idx, pre), k) && AllMore(RightOf(node, idx + 1, pre), k)
  {
    var left, right := LeftOf(node, idx, pre), RightOf(node, idx + 1, pre);
    KidsEntriesUnder(node.edges[..idx], node.kids[..idx], pre);
    KidsEntriesUnder(node.edges[idx + 1..], node.kids[idx + 1..], pre);
    forall i | 0 <= i < |left| ensures Less(left[i].key, k) {
      var y := left[i].key[|pre|];
      assert y in node.edges[..idx];
      assert pre + [y] <= left[i].key;
      DivergeLess(pre, y, left[i].key, node.edges[idx], k);
    }
    forall i | 0 <= i < |right| ensures Less(k, right[i].key) {
      var y := right[i].key[|pre|];
      assert y in node.edges[idx + 1..];
      assert pre + [y] <= right[i].key;
      DivergeLess(pre, node.edges[idx], k, y, right[i].key);
    }
  }

  /** A key that starts with the position's key is decided by the subtree at the position alone. */
  lemma LookupAt(ctx: Ctx, kid: Kid, k: Key)
    requires CtxOk(ctx) && Fits(ctx, kid) && CtxKey(ctx) <= k
    ensures k in MapOf(Entries(Plug(ctx, kid), [])) <==> k in MapOf(KidEntries(kid, CtxKey(ctx)))
    ensures k in MapOf(KidEntries(kid, CtxKey(ctx))) ==>
              MapOf(Entries(Plug(ctx, kid), []))[k] == MapOf(KidEntries(kid, CtxKey(ctx)))[k]
  {
    var a, m, b := CtxBefore(ctx), KidEntries(kid, CtxKey(ctx)), CtxAfter(ctx);
    PlugEntries(ctx, kid);
    MapOfThree(a, m, b);
    CtxOrder(ctx, k);
    AbsentIfOrdered(a, k);
    AbsentIfOrdered(b, k);
  }

  lemma AbsentIfOrdered(es: seq<Entry>, k: Key)
    requires AllLess(es, k) || AllMore(es, k)
    ensures k !in MapOf(es)
  {
    MapOfKeys(es, k);
    if k in MapOf(es) {
      var i :| 0 <= i < |es| && es[i].key == k;
      LessIrreflexive(k);
    }
  }

  lemma MapMiddle(a: map<Key, Val>, m: map<Key, Val>, b: map<Key, Val>, k: Key, v: Val)
    requires k !in b
    ensures a + m[k := v] + b == (a + m + b)[k := v]
  {
  }

  lemma MapOfThree(a: seq<Entry>, m: seq<Entry>, b: seq<Entry>)
    ensures MapOf(a + m + b) == MapOf(a) + MapOf(m) + MapOf(b)
  {
    MapOfAppend(a, m);
    MapOfAppend(a + m, b);
  }

  /** Changing what one position holds changes the map of the whole tree in the same way. */
  lemma UpdateAt(ctx: Ctx, kid: Kid, kid2: Kid, k: Key, v: Val)
    requires CtxOk(ctx) && Fits(ctx, kid) && Fits(ctx, kid2) && CtxKey(ctx) <= k
    requires MapOf(KidEntries(kid2, CtxKey(ctx))) == MapOf(KidEntries(kid, CtxKey(ctx)))[k := v]
    ensures MapOf(Entries(Plug(ctx, kid2), [])) == MapOf(Entries(Plug(ctx, kid), []))[k := v]
  {
    var a, b := CtxBefore(ctx), CtxAfter(ctx);
    var m, m2 := KidEntries(kid, CtxKey(ctx)), KidEntries(kid2, CtxKey(ctx));
    PlugEntries(ctx, kid);
    PlugEntries(ctx, kid2);
    MapOfThree(a, m, b);
    MapOfThree(a, m2, b);
    CtxOrder(ctx, k);
    AbsentIfOrdered(b, k);
    MapMiddle(MapOf(a), MapOf(m), MapOf(b), k, v);
  }

  // ------------------------------------------------------------------ positions reached from the head

  /** The holes of `ctx` still hold what was there when the path was walked down. */
  ghost predicate Path(ctx: Ctx, kid: Kid) {
    match ctx
    case Top => kid.Sub? && WF(kid.node)
    case In(up, node, idx) => WF(node) && idx < |node.kids| && node.kids[idx] == kid && Path(up, Sub(node))
  }

  lemma {:induction false} PathPlug(ctx: Ctx, kid: Kid)
    requires Path(ctx, kid)
    ensures CtxOk(ctx) && Fits(ctx, kid) && Plug(ctx, kid) == (if ctx.Top? then kid.node else Plug(ctx.up, Sub(ctx.node)))
    ensures ctx.In? ==> KidWF(kid) && CtxOk(ctx.up) && Path(ctx.up, Sub(ctx.node))
    ensures kid.Sub? ==> WF(kid.node) && (ctx.In? ==> Live(kid.node))
  {
    if ctx.In? {
      PathPlug(ctx.up, Sub(ctx.node));
      assert KidWF(kid);
      assert ctx.node.kids[ctx.idx := kid] == ctx.node.kids;
    }
  }
}
