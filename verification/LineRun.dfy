/**
 Runs of edits: what one key or paste does to the whole state of a line, and where hidden texts come
 from over any number of them.
 */
module LineRun {
  import opened Keys
  import opened LineFolds
  import opened LineEdit
  import opened LinePaste

  datatype Op =
    | Insert(text: Text) | Delete | Backspace | DeletePrevWord | Transpose | KillLine | KillToEnd
    | Left | Right | Home | End | Recall(entry: Text) | Paste(stream: Text)

  // ------------------------------------------------------------------ one edit

  datatype State = State(buf: Text, pos: nat, buflen: nat, folds: seq<Fold>) {
    ghost predicate Ok() {
      pos <= |buf| && FoldsOk(folds, |buf|)
    }

    ghost function Held(): seq<Text> {
      Texts(folds, buf)
    }
  }

  ghost function StateOf(l: Line): State
    reads l, l.folds, l.folds.start, l.folds.end
    requires l.folds.Valid()
  {
    State(l.buf, l.pos, l.buflen, l.folds.Contents())
  }

  /** `del` bytes at `p` make way for `ins`, and the folds that are left are those the edit leaves. */
  ghost predicate Spliced(s: State, s2: State, p: nat, del: nat, ins: Text) {
    p + del <= |s.buf| && s2.buf == Splice(s.buf, p, del, ins) && s2.folds == After(s.folds, p, del, |ins|)
  }

  /** A text of `n` bytes fits the buffer, or the size to which it may grow. */
  predicate Takes(max: nat, s: State, n: nat) {
    n <= s.buflen || (max != 0 && n <= max)
  }

  ghost predicate Does(l: Line, op: Op, s: State, s2: State) {
    match op
    case Insert(text) =>
      if Takes(l.buflenMax, s, |s.buf| + |text|)
      then Spliced(s, s2, s.pos, 0, text) && s2.pos == s.pos + |text| && Grown(l.buflenMax, s.buflen, |s.buf| + |text|, s2.buflen)
      else s2 == s
    case Delete =>
      s2.pos == s.pos && s2.buflen == s.buflen
      && if s.pos < |s.buf|
         then exists n: nat :: n > 0 && UnitAfter(s.folds, s.buf, l.mask, l.next, s.pos, n) && Spliced(s, s2, s.pos, n, [])
         else s2 == s
    case Backspace =>
      s2.buflen == s.buflen
      && if s.pos > 0
         then s2.pos < s.pos && UnitBefore(s.folds, s.buf, l.mask, l.prev, s.pos, s.pos - s2.pos)
              && Spliced(s, s2, s2.pos, s.pos - s2.pos, [])
         else s2 == s
    case DeletePrevWord =>
      s2.buflen == s.buflen && s2.pos <= s.pos && Spliced(s, s2, s2.pos, s.pos - s2.pos, [])
      && exists mid :: WordEnds(s.folds, s.buf, l.mask, l.prev, s.pos, mid, s2.pos)
    case Transpose =>
      s2.buflen == s.buflen && s2.folds == s.folds
      && if 0 < s.pos < |s.buf|
         then exists p: nat, c: nat :: UnitBefore(s.folds, s.buf, l.mask, l.prev, s.pos, p) && UnitAfter(s.folds, s.buf, l.mask, l.next, s.pos, c)
                          && Exchanged(s, s2, p, c)
         else s2 == s
    case KillLine => s2 == State([], 0, s.buflen, [])
    case KillToEnd => s2.buflen == s.buflen && s2.pos == s.pos <= |s.buf| && Spliced(s, s2, s.pos, |s.buf| - s.pos, [])
    case Left =>
      s2 == s.(pos := s2.pos)
      && if s.pos > 0 then s2.pos <= s.pos && UnitBefore(s.folds, s.buf, l.mask, l.prev, s.pos, s.pos - s2.pos) else s2.pos == 0
    case Right =>
      s2 == s.(pos := s2.pos)
      && if s.pos < |s.buf| then s.pos <= s2.pos && UnitAfter(s.folds, s.buf, l.mask, l.next, s.pos, s2.pos - s.pos) else s2.pos == s.pos
    case Home => s2 == s.(pos := 0)
    case End => s2 == s.(pos := |s.buf|)
    case Recall(entry) => Recalled(l, entry, s, s2)
    case Paste(stream) => exists n, text :: Pasted(stream, n, text) && TakesPaste(l, text, s, s2)
  }

  /** Units of `p` bytes before and `c` bytes after the cursor change places, if they are short and hide nothing. */
  ghost predicate Exchanged(s: State, s2: State, p: nat, c: nat) {
    && p <= s.pos && s.pos + c <= |s.buf|
    && if p <= 32 && c <= 32 && Clear(s.folds, s.pos - p, p + c)
       then s2.pos == s.pos + c && s2.buf == Swapped(s.buf, s.pos, p, c)
       else s2.pos == s.pos && s2.buf == s.buf
  }

  ghost predicate Recalled(l: Line, entry: Text, s: State, s2: State) {
    && s2.buf <= entry && s2.pos == |s2.buf| && s2.folds == HistoryFold(l.mask, l.next, l.prev, s2.buf)
    && if Takes(l.buflenMax, s, |entry|) then |s2.buf| == |entry| && Grown(l.buflenMax, s.buflen, |entry|, s2.buflen)
       else |s2.buf| == s.buflen == s2.buflen
  }

  ghost predicate TakesPaste(l: Line, text: Text, s: State, s2: State) {
    if text == [] || |s.folds| == 16 || |text| > 1048576
       || |s.buf| + |text| > (if l.buflenMax != 0 then l.buflenMax else s.buflen)
    then s2 == s
    else
      var t := Normalized(text);
      && s.pos <= |s.buf| && s2.buf == Splice(s.buf, s.pos, 0, t) && s2.pos == s.pos + |t|
      && Grown(l.buflenMax, s.buflen, |s.buf| + |t|, s2.buflen)
      && PasteShown(l.mask, s.folds, s2.folds, s.pos, t)
  }

  /** The edits that bring new text. */
  method Enter(l: Line, op: Op)
    requires l.Valid() && (op.Insert? || op.Recall? || op.Paste?)
    modifies l`buf, l`pos, l`buflen, l.folds`count, l.folds.start, l.folds.end
    ensures l.Valid() && Does(l, op, old(StateOf(l)), StateOf(l))
  {
    hide FoldsOk, After, Survivors, Texts, StepsOk, PasteShown, UnitBefore, UnitAfter, Splice, WordEnds, HistoryFold, Pasted;
    ghost var s := StateOf(l);
    match op
    case Insert(text) =>
      var ok := l.InsertNoRefresh(text);
    case Recall(entry) => l.Recall(entry);
    case Paste(stream) =>
      ghost var n, text := EditPaste(l, stream);
      assert TakesPaste(l, text, s, StateOf(l));
  }

  /** One key or paste. */
  method Apply(l: Line, op: Op)
    requires l.Valid()
    modifies l`buf, l`pos, l`buflen, l.folds`count, l.folds.start, l.folds.end
    ensures l.Valid() && Does(l, op, old(StateOf(l)), StateOf(l))
  {
    hide FoldsOk, After, Survivors, Texts, StepsOk, UnitBefore, UnitAfter, Splice, WordEnds, Recalled, TakesPaste;
    match op
    case Delete => l.Delete();
    case Backspace => l.Backspace();
    case DeletePrevWord => l.DeletePrevWord();
    case Transpose => l.Transpose();
    case KillLine => l.KillLine();
    case KillToEnd => l.KillToEnd();
    case Left => l.MoveLeft();
    case Right => l.MoveRight();
    case Home => l.MoveHome();
    case End => l.MoveEnd();
    case _ => Enter(l, op);
  }

  // ------------------------------------------------------------------ hidden texts

  /** The texts that an edit may newly hide: a paste hides itself, normalised, and a recalled entry
      the middle of as much of it as fits. No other edit hides anything. */
  ghost predicate Hides(mask: bool, next: Step, prev: Step, op: Op, t: Text) {
    match op
    case Paste(stream) =>
      !mask && ShouldFold(t) && exists n, text :: Pasted(stream, n, text) && t == Normalized(text)
    case Recall(entry) => exists k: nat :: k <= |entry| && FoldedMiddle(mask, next, prev, entry[..k], t)
    case _ => false
  }

  ghost predicate FoldedMiddle(mask: bool, next: Step, prev: Step, s: Text, t: Text) {
    var f := HistoryFold(mask, next, prev, s);
    f != [] && t == TextOf(f[0], s)
  }

  /** What one edit does to the hidden texts: some are forgotten, at most one is new, and those that
      stay are byte for byte what they were. */
  ghost predicate StepHeld(mask: bool, next: Step, prev: Step, op: Op, was: seq<Text>, now: seq<Text>) {
    || SubSeq(now, was)
    || exists j | 0 <= j < |now| :: Hides(mask, next, prev, op, now[j]) && SubSeq(now[..j] + now[j + 1..], was)
  }

  /** The texts hidden after an edit were hidden before it. */
  lemma EditedHeld(folds: seq<Fold>, buf: Text, pos: nat, del: nat, ins: Text)
    requires FoldsOk(folds, |buf|) && pos + del <= |buf|
    ensures SubSeq(Texts(After(folds, pos, del, |ins|), Splice(buf, pos, del, ins)), Texts(folds, buf))
  {
    AfterTexts(folds, buf, pos, del, ins);
    SurvivorTexts(folds, buf, pos, del);
  }

  lemma OneMoreHeld(folds: seq<Fold>, now: seq<Fold>, f: Fold, buf: Text)
    requires OneMore(folds, now, f)
    ensures exists j | 0 <= j < |Texts(now, buf)| ::
              Texts(now, buf)[j] == TextOf(f, buf) && Texts(now, buf)[..j] + Texts(now, buf)[j + 1..] == Texts(folds, buf)
  {
    var i :| 0 <= i <= |folds| && InsertedAt(folds, now, i, f);
    var a, b := Texts(folds[..i], buf), Texts(folds[i..], buf);
    assert folds == folds[..i] + folds[i..];
    TextsAppend(folds[..i], folds[i..], buf);
    TextsAppend(folds[..i], [f], buf);
    TextsAppend(folds[..i] + [f], folds[i..], buf);
    assert [f][..0] == [];
    MiddleOut(a, TextOf(f, buf), b);
  }

  lemma MiddleOut<T>(a: seq<T>, t: T, b: seq<T>)
    ensures (a + [t] + b)[|a|] == t && (a + [t] + b)[..|a|] + (a + [t] + b)[|a| + 1..] == a + b
  {
  }

  lemma PasteHeld(was: seq<Fold>, now: seq<Fold>, buf: Text, pos: nat, text: Text, mask: bool)
    requires FoldsOk(was, |buf|) && pos <= |buf| && PasteShown(mask, was, now, pos, text)
    ensures var held := Texts(now, Splice(buf, pos, 0, text));
            || SubSeq(held, Texts(was, buf))
            || (!mask && ShouldFold(text)
                && exists j | 0 <= j < |held| :: held[j] == text && SubSeq(held[..j] + held[j + 1..], Texts(was, buf)))
  {
    EditedHeld(was, buf, pos, 0, text);
    if !mask && ShouldFold(text) {
      var buf2 := Splice(buf, pos, 0, text);
      OneMoreHeld(After(was, pos, 0, |text|), now, Fold(pos, pos + |text|), buf2);
      assert buf2[pos..pos + |text|] == text;
    }
  }

  lemma RecallHeld(mask: bool, next: Step, prev: Step, entry: Text, buf: Text, was: seq<Text>)
    requires buf <= entry
    ensures StepHeld(mask, next, prev, Recall(entry), was, Texts(HistoryFold(mask, next, prev, buf), buf))
  {
    var f := HistoryFold(mask, next, prev, buf);
    HistoryFoldOne(mask, next, prev, buf);
    if f != [] {
      var now := Texts(f, buf);
      assert f[..0] == [] && Texts(f[..0], buf) == [];
      assert now == [TextOf(f[0], buf)];
      assert entry[..|buf|] == buf && FoldedMiddle(mask, next, prev, entry[..|buf|], now[0]);
      assert Hides(mask, next, prev, Recall(entry), now[0]) && now[..0] + now[1..] == [];
    }
  }

  /** An edit hides nothing but what it says it hides. */
  lemma StepHides(l: Line, op: Op, s: State, s2: State)
    requires s.Ok() && Does(l, op, s, s2)
    ensures StepHeld(l.mask, l.next, l.prev, op, s.Held(), s2.Held())
  {
    hide FoldsOk, After, Survivors, Texts, PasteShown, UnitBefore, UnitAfter, Splice, WordEnds, HistoryFold, Pasted;
    SubSeqSelf(s.Held());
    match op
    case Insert(text) => EditedHeld(s.folds, s.buf, s.pos, 0, text);
    case Delete =>
      if s.pos < |s.buf| {
        var n: nat :| n > 0 && UnitAfter(s.folds, s.buf, l.mask, l.next, s.pos, n) && Spliced(s, s2, s.pos, n, []);
        EditedHeld(s.folds, s.buf, s.pos, n, []);
      }
    case Backspace => if s.pos > 0 { EditedHeld(s.folds, s.buf, s2.pos, s.pos - s2.pos, []); }
    case DeletePrevWord => EditedHeld(s.folds, s.buf, s2.pos, s.pos - s2.pos, []);
    case Transpose => ExchangeHides(l, s, s2);
    case KillLine => NothingHeld(s.Held());
    case KillToEnd => EditedHeld(s.folds, s.buf, s.pos, |s.buf| - s.pos, []);
    case Recall(entry) => RecallHeld(l.mask, l.next, l.prev, entry, s2.buf, s.Held());
    case Paste(stream) =>
      var n, text :| Pasted(stream, n, text) && TakesPaste(l, text, s, s2);
      PasteHides(l, stream, n, text, s, s2);
    case _ =>
  }

  lemma NothingHeld(held: seq<Text>)
    ensures Texts([], []) == [] && SubSeq([], held)
  {
  }

  lemma ExchangeHides(l: Line, s: State, s2: State)
    requires s.Ok() && Does(l, Transpose, s, s2)
    ensures s2.Held() == s.Held()
  {
    hide FoldsOk, After, Survivors, Texts, UnitBefore, UnitAfter, Splice;
    if 0 < s.pos < |s.buf| {
      var p: nat, c: nat :| UnitBefore(s.folds, s.buf, l.mask, l.prev, s.pos, p) && UnitAfter(s.folds, s.buf, l.mask, l.next, s.pos, c)
               && Exchanged(s, s2, p, c);
      if p <= 32 && c <= 32 && Clear(s.folds, s.pos - p, p + c) {
        SwapForms(s.buf, s.pos, p, c);
        SwapKeeps(s.folds, s.buf, s.pos - p, p + c, s.buf[s.pos..s.pos + c] + s.buf[s.pos - p..s.pos]);
      }
    }
  }

  lemma PasteHides(l: Line, stream: Text, n: nat, text: Text, s: State, s2: State)
    requires s.Ok() && Pasted(stream, n, text) && TakesPaste(l, text, s, s2)
    ensures StepHeld(l.mask, l.next, l.prev, Paste(stream), s.Held(), s2.Held())
  {
    hide FoldsOk, After, Survivors, Texts, PasteShown, Splice, Pasted;
    SubSeqSelf(s.Held());
    if s2 != s {
      var t := Normalized(text);
      PasteHeld(s.folds, s2.folds, s.buf, s.pos, t, l.mask);
      if !SubSeq(s2.Held(), s.Held()) {
        var j :| 0 <= j < |s2.Held()| && s2.Held()[j] == t && SubSeq(s2.Held()[..j] + s2.Held()[j + 1..], s.Held());
        assert Hides(l.mask, l.next, l.prev, Paste(stream), s2.Held()[j]);
      }
    }
  }

  // ------------------------------------------------------------------ any number of edits

  /** `trace` lists the states before each edit and at the end. */
  ghost predicate Traced(l: Line, ops: seq<Op>, trace: seq<State>) {
    && |trace| == |ops| + 1 && trace[0].folds == []
    && forall i | 0 <= i < |ops| :: trace[i].Ok() && Does(l, ops[i], trace[i], trace[i + 1])
  }

  /** Edit `i` hid `t`, and `t` was hidden after every edit since. */
  ghost predicate HiddenSince(l: Line, ops: seq<Op>, trace: seq<State>, i: nat, n: nat, t: Text) {
    && i < n <= |ops| && n < |trace| && Hides(l.mask, l.next, l.prev, ops[i], t)
    && forall k | i < k <= n :: t in trace[k].Held()
  }

  /** Every text that is hidden after `n` edits goes back, unchanged, to the edit that hid it. */
  lemma {:induction false} Origin(l: Line, ops: seq<Op>, trace: seq<State>, n: nat, t: Text) returns (i: nat)
    requires Traced(l, ops, trace) && n <= |ops| && t in trace[n].Held()
    ensures HiddenSince(l, ops, trace, i, n, t)
  {
    hide Does, Hides, FoldsOk;
    var was, now := trace[n - 1].Held(), trace[n].Held();
    StepHides(l, ops[n - 1], trace[n - 1], trace[n]);
    if SubSeq(now, was) {
      SubSeqMember(now, was, t);
      i := Origin(l, ops, trace, n - 1, t);
    } else {
      var j :| 0 <= j < |now| && Hides(l.mask, l.next, l.prev, ops[n - 1], now[j]) && SubSeq(now[..j] + now[j + 1..], was);
      if t == now[j] {
        i := n - 1;
      } else {
        assert t in now[..j] + now[j + 1..];
        SubSeqMember(now[..j] + now[j + 1..], was, t);
        i := Origin(l, ops, trace, n - 1, t);
      }
    }
  }

  /** Over every sequence of edits each one does what it should to text, cursor and folds, the folds stay
      non-empty, sorted, disjoint and inside the text, and each of them covers exactly the bytes that the
      edit which created it hid. */
  method Run(l: Line, ops: seq<Op>) returns (ghost trace: seq<State>)
    requires l.Valid() && l.folds.Contents() == []
    modifies l`buf, l`pos, l`buflen, l.folds`count, l.folds.start, l.folds.end
    ensures l.Valid() && Traced(l, ops, trace) && trace[0] == old(StateOf(l)) && trace[|ops|] == StateOf(l)
    ensures forall t | t in l.Held() :: exists i :: HiddenSince(l, ops, trace, i, |ops|, t)
    ensures forall t | t in l.Held() :: exists i | 0 <= i < |ops| :: Hides(l.mask, l.next, l.prev, ops[i], t)
  {
    hide FoldsOk, StepsOk, Does, Texts, Hides;
    trace := [StateOf(l)];
    for i := 0 to |ops|
      invariant l.Valid() && |trace| == i + 1 && trace[0] == old(StateOf(l)) && trace[i] == StateOf(l)
      invariant forall k | 0 <= k < i :: trace[k].Ok() && Does(l, ops[k], trace[k], trace[k + 1])
    {
      Apply(l, ops[i]);
      trace := trace + [StateOf(l)];
    }
    forall t | t in l.Held()
      ensures exists i :: HiddenSince(l, ops, trace, i, |ops|, t)
      ensures exists i | 0 <= i < |ops| :: Hides(l.mask, l.next, l.prev, ops[i], t)
    {
      ghost var i := Origin(l, ops, trace, |ops|, t);
    }
  }
}
