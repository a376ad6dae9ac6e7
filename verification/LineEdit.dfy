/**
 The line editor of linenoise.c without the terminal: a text, a cursor, and fold ranges that every
 edit keeps in step with the text.
 */
module LineEdit {
  import opened Keys
  import opened LineFolds

  const SPACE := 32
  const FOLD_THRESHOLD := 200  // PASTE_FOLD_THRESHOLD
  const FOLD_CONTEXT := 8      // PASTE_FOLD_CONTEXT
  const SWAP_MAX := 32         // sizeof(tmp) in the ctrl-t case

  /** The length of the character before or after a position, as far as this model knows it. */
  type Step = (Text, nat) -> nat

  ghost predicate StepsOk(next: Step, prev: Step) {
    && (forall s: Text, p: nat | p < |s| :: 1 <= next(s, p) <= |s| - p)
    && (forall s: Text, p: nat | 0 < p <= |s| :: 1 <= prev(s, p) <= p)
  }

  /** linenoiseGetRenderFolds: the folds that are shown. */
  function RenderFolds(folds: seq<Fold>, n: nat, mask: bool): seq<Fold> {
    if n == 0 || mask then [] else Shown(folds, n)
  }

  function Shown(folds: seq<Fold>, n: nat): seq<Fold> {
    if folds == [] then []
    else if folds[0].start >= folds[0].end || folds[0].end > n then Shown(folds[1..], n)
    else [folds[0]] + Shown(folds[1..], n)
  }

  lemma {:induction false} ShownAll(folds: seq<Fold>, n: nat)
    requires forall i | 0 <= i < |folds| :: folds[i].start < folds[i].end <= n
    ensures Shown(folds, n) == folds
  {
    if folds != [] {
      ShownAll(folds[1..], n);
    }
  }

  lemma RenderAll(folds: seq<Fold>, n: nat, mask: bool)
    requires FoldsOk(folds, n)
    ensures RenderFolds(folds, n, mask) == if mask then [] else folds
    ensures forall f | f in folds :: f.start < f.end <= n
  {
    ShownAll(folds, n);
  }

  predicate ShouldFold(s: Text) {
    LF in s || |s| >= FOLD_THRESHOLD
  }

  /** Texts of several lines are folded, and those of 200 bytes and more. */
  lemma FoldedTexts(s: Text)
    ensures ShouldFold(s) <==> (exists i :: 0 <= i < |s| && s[i] == 10) || |s| >= 200
  {
    if LF in s {
      var i :| 0 <= i < |s| && s[i] == LF;
    }
  }

  // ------------------------------------------------------------------ units of movement

  /** The `n` bytes from `p` on are what the cursor steps over at once: a hidden range that starts
      there, or else one character. */
  ghost predicate UnitAfter(folds: seq<Fold>, buf: Text, mask: bool, next: Step, p: nat, n: nat) {
    if !mask && exists f :: f in folds && f.start == p then Fold(p, p + n) in folds else n == next(buf, p)
  }

  /** The same for the `n` bytes before `p`. */
  ghost predicate UnitBefore(folds: seq<Fold>, buf: Text, mask: bool, prev: Step, p: nat, n: nat) {
    if !mask && exists f :: f in folds && f.end == p then n <= p && Fold(p - n, p) in folds else n == prev(buf, p)
  }

  /** From position `from` back to `to` the cursor goes unit by unit, each ending with a space, or each
      ending with another byte. */
  ghost predicate Skipped(folds: seq<Fold>, buf: Text, mask: bool, prev: Step, from: nat, to: nat, spaces: bool)
    decreases from
  {
    to <= from <= |buf|
    && (from == to
        || exists m: nat :: to <= m < from && UnitBefore(folds, buf, mask, prev, from, from - m)
                         && (buf[from - 1] == 32 <==> spaces) && Skipped(folds, buf, mask, prev, m, to, spaces))
  }

  lemma SkippedNone(folds: seq<Fold>, buf: Text, mask: bool, prev: Step, at: nat, spaces: bool)
    requires at <= |buf|
    ensures Skipped(folds, buf, mask, prev, at, at, spaces)
  {
  }

  lemma {:induction false} SkippedOn(folds: seq<Fold>, buf: Text, mask: bool, prev: Step, from: nat, at: nat, to: nat, spaces: bool)
    requires Skipped(folds, buf, mask, prev, from, at, spaces)
    requires to < at && UnitBefore(folds, buf, mask, prev, at, at - to) && (buf[at - 1] == 32 <==> spaces)
    ensures Skipped(folds, buf, mask, prev, from, to, spaces)
    decreases from
  {
    hide UnitBefore;
    if from == at {
      assert Skipped(folds, buf, mask, prev, to, to, spaces);
    } else {
      var m: nat :| at <= m < from && UnitBefore(folds, buf, mask, prev, from, from - m)
                 && (buf[from - 1] == 32 <==> spaces) && Skipped(folds, buf, mask, prev, m, at, spaces);
      SkippedOn(folds, buf, mask, prev, m, at, to, spaces);
    }
  }

  /** The spaces before the cursor reach back to `mid`, and the word before them to `to`. */
  ghost predicate WordEnds(folds: seq<Fold>, buf: Text, mask: bool, prev: Step, from: nat, mid: nat, to: nat) {
    && Skipped(folds, buf, mask, prev, from, mid, true) && (mid == 0 || buf[mid - 1] != 32)
    && Skipped(folds, buf, mask, prev, mid, to, false) && (to == 0 || buf[to - 1] == 32)
  }

  /** Something is skipped unless the cursor is at the start. */
  lemma WordMoves(folds: seq<Fold>, buf: Text, mask: bool, prev: Step, from: nat, mid: nat, to: nat)
    requires WordEnds(folds, buf, mask, prev, from, mid, to)
    ensures to <= mid <= from && (from > 0 ==> to < from)
  {
  }

  /** Where every unit is a single byte, what is skipped is all spaces, or has none. */
  lemma {:induction false} SkippedBytes(folds: seq<Fold>, buf: Text, mask: bool, prev: Step, from: nat, to: nat, spaces: bool)
    requires Skipped(folds, buf, mask, prev, from, to, spaces)
    requires forall p: nat, n: nat | to < p <= from && UnitBefore(folds, buf, mask, prev, p, n) :: n == 1
    ensures forall k | to <= k < from :: buf[k] == 32 <==> spaces
    decreases from
  {
    if from != to {
      var m: nat :| to <= m < from && UnitBefore(folds, buf, mask, prev, from, from - m)
                 && (buf[from - 1] == 32 <==> spaces) && Skipped(folds, buf, mask, prev, m, to, spaces);
      hide UnitBefore, Skipped;
      SkippedBytes(folds, buf, mask, prev, m, to, spaces);
    }
  }

  /** At a fold's end points the unit is the fold, unless the text is masked; anywhere else it is one
      character. */
  lemma UnitOfFold(folds: seq<Fold>, buf: Text, mask: bool, next: Step, prev: Step, p: nat, n: nat)
    requires FoldsOk(folds, |buf|)
    ensures forall f | f in folds && !mask && f.start == p :: UnitAfter(folds, buf, mask, next, p, n) <==> n == f.end - p
    ensures forall f | f in folds && !mask && f.end == p :: UnitBefore(folds, buf, mask, prev, p, n) <==> n == p - f.start
    ensures mask || (forall f | f in folds :: f.start != p) ==> (UnitAfter(folds, buf, mask, next, p, n) <==> n == next(buf, p))
    ensures mask || (forall f | f in folds :: f.end != p) ==> (UnitBefore(folds, buf, mask, prev, p, n) <==> n == prev(buf, p))
  {
    forall f, g | f in folds && g in folds && (f.start == g.start || f.end == g.end) ensures f == g {
      FoldOnce(folds, |buf|, f, g);
    }
  }

  lemma FoldOnce(folds: seq<Fold>, n: nat, f: Fold, g: Fold)
    requires FoldsOk(folds, n) && f in folds && g in folds && (f.start == g.start || f.end == g.end)
    ensures f == g
  {
    var i :| 0 <= i < |folds| && folds[i] == f;
    var j :| 0 <= j < |folds| && folds[j] == g;
  }

  // ------------------------------------------------------------------ folding a recalled entry

  /** Where up to `n` characters from `p` on end, and whether one of them is a line feed. */
  function Ahead(next: Step, s: Text, p: nat, n: nat): (nat, bool)
    decreases n
  {
    if n == 0 || p >= |s| || next(s, p) == 0 || p + next(s, p) > |s| then (p, false)
    else
      var (q, lf) := Ahead(next, s, p + next(s, p), n - 1);
      (q, lf || s[p] == LF)
  }

  /** Where up to `n` characters before `p` begin, and whether one of them is a line feed. */
  function Back(prev: Step, s: Text, p: nat, n: nat): (nat, bool)
    requires p <= |s|
    decreases n
  {
    if n == 0 || p == 0 || prev(s, p) == 0 || prev(s, p) > p then (p, false)
    else
      var (q, lf) := Back(prev, s, p - prev(s, p), n - 1);
      (q, lf || s[p - prev(s, p)] == LF)
  }

  /** One character, and the end of the text. */
  lemma OneStep(next: Step, prev: Step, s: Text, p: nat, n: nat)
    requires StepsOk(next, prev) && p <= |s|
    ensures p < |s| ==> Ahead(next, s, p, 1) == (p + next(s, p), s[p] == 10)
    ensures p > 0 ==> p - prev(s, p) < |s| && Back(prev, s, p, 1) == (p - prev(s, p), s[p - prev(s, p)] == 10)
    ensures Ahead(next, s, |s|, n) == (|s|, false) && Back(prev, s, 0, n) == (0, false)
    ensures Ahead(next, s, p, 0) == Back(prev, s, p, 0) == (p, false)
  {
  }

  /** Several characters are one after the other. With OneStep this settles how far any number reaches. */
  lemma {:induction false} AheadSplit(next: Step, s: Text, p: nat, n: nat, m: nat)
    ensures var (q, lf) := Ahead(next, s, p, n);
            var (r, lf2) := Ahead(next, s, q, m);
            Ahead(next, s, p, n + m) == (r, lf || lf2)
    decreases n
  {
    if n != 0 && p < |s| && next(s, p) != 0 && p + next(s, p) <= |s| {
      AheadSplit(next, s, p + next(s, p), n - 1, m);
    }
  }

  lemma {:induction false} BackSplit(prev: Step, s: Text, p: nat, n: nat, m: nat)
    requires p <= |s|
    ensures var (q, lf) := Back(prev, s, p, n);
            q <= |s| && var (r, lf2) := Back(prev, s, q, m); Back(prev, s, p, n + m) == (r, lf || lf2)
    decreases n
  {
    if n != 0 && p > 0 && 0 < prev(s, p) <= p {
      BackSplit(prev, s, p - prev(s, p), n - 1, m);
    }
  }

  lemma {:induction false} AheadBytes(next: Step, s: Text, p: nat, n: nat)
    requires p + n <= |s| && forall q: nat | q < |s| :: next(s, q) == 1
    ensures Ahead(next, s, p, n) == (p + n, 10 in s[p..p + n])
    decreases n
  {
    if n > 0 {
      AheadBytes(next, s, p + 1, n - 1);
      assert s[p..p + n] == [s[p]] + s[p + 1..p + n];
    }
  }

  lemma {:induction false} BackBytes(prev: Step, s: Text, p: nat, n: nat)
    requires n <= p <= |s| && forall q: nat | 0 < q <= |s| :: prev(s, q) == 1
    ensures Back(prev, s, p, n) == (p - n, 10 in s[p - n..p])
    decreases n
  {
    if n > 0 {
      BackBytes(prev, s, p - 1, n - 1);
      assert s[p - n..p] == s[p - n..p - 1] + [s[p - 1]];
    }
  }

  /** The fold of a recalled text: eight characters stay visible at either end, unless there is a
      line feed among them or nothing would be left to hide. */
  function HistoryFold(mask: bool, next: Step, prev: Step, s: Text): seq<Fold> {
    if s == [] || mask || !ShouldFold(s) then []
    else
      var (a, lfA) := Ahead(next, s, 0, FOLD_CONTEXT);
      var (b, lfB) := Back(prev, s, |s|, FOLD_CONTEXT);
      var (start, end) := (if lfA then 0 else a, if lfB then |s| else b);
      [if |s| <= FOLD_CONTEXT * 2 || start >= end then Fold(0, |s|) else Fold(start, end)]
  }

  lemma {:induction false} BackInside(prev: Step, s: Text, p: nat, n: nat)
    requires p <= |s|
    ensures Back(prev, s, p, n).0 <= p
    decreases n
  {
    if n > 0 && 0 < prev(s, p) <= p {
      BackInside(prev, s, p - prev(s, p), n - 1);
    }
  }

  /** What stays visible of a folded text of single-byte characters: eight at either end, none at an end
      whose eight hold a line feed, and none at all of a text of at most sixteen or without a middle. */
  lemma HistoryContext(next: Step, prev: Step, s: Text)
    requires ShouldFold(s) && |s| > 16
    requires forall p: nat | p < |s| :: next(s, p) == 1
    requires forall p: nat | 0 < p <= |s| :: prev(s, p) == 1
    ensures HistoryFold(false, next, prev, s)
         == [Fold(if 10 in s[..8] then 0 else 8, if 10 in s[|s| - 8..] then |s| else |s| - 8)]
  {
    AheadBytes(next, s, 0, 8);
    BackBytes(prev, s, |s|, 8);
    assert s[0..8] == s[..8] && s[|s| - 8..|s|] == s[|s| - 8..];
  }

  /** Short texts are folded as a whole, and unfoldable or masked ones not at all. */
  lemma HistoryWhole(mask: bool, next: Step, prev: Step, s: Text)
    ensures s == [] || mask || !ShouldFold(s) ==> HistoryFold(mask, next, prev, s) == []
    ensures s != [] && !mask && ShouldFold(s) && |s| <= 16 ==> HistoryFold(mask, next, prev, s) == [Fold(0, |s|)]
  {
  }

  lemma HistoryFoldInside(mask: bool, next: Step, prev: Step, s: Text)
    ensures forall f | f in HistoryFold(mask, next, prev, s) :: f.start < f.end <= |s|
  {
    BackInside(prev, s, |s|, FOLD_CONTEXT);
  }

  // ------------------------------------------------------------------ the texts of the folds

  /** `a` is `b` with some elements left out. */
  ghost predicate SubSeq<T>(a: seq<T>, b: seq<T>) {
    a == [] || (b != [] && (|| (a[|a| - 1] == b[|b| - 1] && SubSeq(a[..|a| - 1], b[..|b| - 1]))
                            || SubSeq(a, b[..|b| - 1])))
  }

  lemma {:induction false} SubSeqSelf<T>(a: seq<T>)
    ensures SubSeq(a, a)
  {
    if a != [] {
      SubSeqSelf(a[..|a| - 1]);
    }
  }

  lemma {:induction false} SubSeqMember<T>(a: seq<T>, b: seq<T>, t: T)
    requires SubSeq(a, b) && t in a
    ensures t in b
  {
    var a1, b1 := a[..|a| - 1], b[..|b| - 1];
    if a[|a| - 1] == b[|b| - 1] && SubSeq(a1, b1) {
      if t != a[|a| - 1] {
        assert a == a1 + [a[|a| - 1]];
        SubSeqMember(a1, b1, t);
      }
    } else {
      SubSeqMember(a, b1, t);
    }
  }

  /** The texts of the folds that survive are the old ones with some left out. */
  lemma {:induction false} SurvivorTexts(folds: seq<Fold>, buf: Text, pos: nat, del: nat)
    ensures SubSeq(Texts(Survivors(folds, pos, del), buf), Texts(folds, buf))
  {
    if folds != [] {
      var m, f := |folds| - 1, folds[|folds| - 1];
      var kept, all := Texts(Survivors(folds[..m], pos, del), buf), Texts(folds[..m], buf);
      SurvivorTexts(folds[..m], buf, pos, del);
      assert (all + [TextOf(f, buf)])[..|all|] == all;
      if Survives(f, pos, del) {
        TextsAppend(Survivors(folds[..m], pos, del), [f], buf);
        assert [f][..0] == [];
        assert (kept + [TextOf(f, buf)])[..|kept|] == kept;
      } else {
        assert Survivors(folds[..m], pos, del) + [] == Survivors(folds[..m], pos, del);
      }
    }
  }

  lemma {:induction false} NothingTouched(folds: seq<Fold>, pos: nat, len: nat)
    requires forall f | f in folds :: f.start < f.end && Survives(f, pos, len)
    ensures After(folds, pos, len, len) == folds && Survivors(folds, pos, len) == folds
  {
    if folds != [] {
      var m := |folds| - 1;
      assert folds == folds[..m] + [folds[m]];
      NothingTouched(folds[..m], pos, len);
    }
  }

  /** The size of a buffer of `size` bytes that must hold `needed`: unchanged when they fit, and otherwise
      doubled until they do, or the maximum. */
  predicate Grown(max: nat, size: nat, needed: nat, now: nat) {
    && needed <= now && (needed <= size ==> now == size)
    && (now != size ==> (2 * size <= now || now == max) && (now < 2 * needed || now == 16) && (now <= max || now == 16))
  }

  class Line {
    const mask: bool
    const buflenMax: nat  // 0 when the caller's buffer cannot grow
    const next: Step
    const prev: Step
    const folds: FoldList
    var buf: Text
    var pos: nat
    var buflen: nat

    ghost predicate Valid()
      reads this, folds, folds.start, folds.end
    {
      && StepsOk(next, prev)
      && folds.Valid()
      && pos <= |buf| <= buflen
      && FoldsOk(folds.Contents(), |buf|)
    }

    /** The bytes hidden by the folds, in order. */
    ghost function Held(): seq<Text>
      reads this, folds, folds.start, folds.end
      requires folds.Valid()
    {
      Texts(folds.Contents(), buf)
    }

    /** linenoiseEditStart: an empty line. */
    constructor (mask: bool, buflen: nat, buflenMax: nat, next: Step, prev: Step)
      requires StepsOk(next, prev)
      ensures Valid() && buf == [] && pos == 0 && folds.Contents() == [] && Held() == []
      ensures fresh(folds) && fresh(folds.start) && fresh(folds.end)
      ensures this.mask == mask && this.buflen == buflen && this.buflenMax == buflenMax
    {
      this.mask, this.buflenMax, this.next, this.prev := mask, buflenMax, next, prev;
      this.buf, this.pos, this.buflen := [], 0, buflen;
      this.folds := new FoldList();
    }

    /** linenoiseEditGrow: succeeds exactly when the text fits the buffer or the configured maximum. */
    method Grow(needed: nat) returns (ok: bool)
      modifies this`buflen
      ensures ok <==> needed <= old(buflen) || (buflenMax != 0 && needed <= buflenMax)
      ensures if ok then Grown(buflenMax, old(buflen), needed, buflen) else buflen == old(buflen)
    {
      if needed <= buflen { return true; }
      if buflenMax == 0 || needed > buflenMax { return false; }
      var newlen := if buflen != 0 then buflen else 16;
      while newlen < needed
        invariant buflen <= newlen
        invariant newlen <= buflenMax || newlen == 16
        invariant newlen == buflen || newlen >= 2 * buflen
        invariant newlen == buflen || newlen == 16 || newlen < 2 * needed
        decreases needed - newlen
      {
        if newlen > buflenMax / 2 {
          newlen := buflenMax;
          break;
        }
        newlen := newlen * 2;
      }
      buflen := newlen;
      return true;
    }
  
    /** What an edit of the text at `p` leaves behind: the text is spliced, and the folds that are
        left are those the edit did not touch, each over the bytes it covered before. */
    twostate predicate Edited(p: nat, del: nat, ins: Text)
      requires old(folds.Valid()) && folds.Valid()
      reads this, folds, folds.start, folds.end
    {
      && p + del <= |old(buf)|
      && buf == Splice(old(buf), p, del, ins)
      && folds.Contents() == After(old(folds.Contents()), p, del, |ins|)
      && Held() == Texts(Survivors(old(folds.Contents()), p, del), old(buf))
    }

    /** linenoiseEditInsertNoRefresh. */
    method InsertNoRefresh(c: Text) returns (ok: bool)
      requires Valid()
      modifies this`buf, this`pos, this`buflen, folds`count, folds.start, folds.end
      ensures Valid()
      ensures ok <==> |old(buf)| + |c| <= old(buflen) || (buflenMax != 0 && |old(buf)| + |c| <= buflenMax)
      ensures ok ==> Edited(old(pos), 0, c) && pos == old(pos) + |c| && Grown(buflenMax, old(buflen), |old(buf)| + |c|, buflen)
      ensures !ok ==> buf == old(buf) && pos == old(pos) && buflen == old(buflen) && folds.Contents() == old(folds.Contents())
    {
      hide FoldsOk, After, Survivors, Texts, StepsOk;
      var at := pos;
      ok := Grow(|buf| + |c|);
      if !ok { return; }
      ghost var was, text := folds.Contents(), buf;
      if |buf| == pos {
        buf := buf + c;
      } else {
        buf := buf[..pos] + c + buf[pos..];
      }
      pos := pos + |c|;
      NonEmpty(was, |text|);
      folds.AdjustAfterInsert(at, |c|);
      AfterOk(was, |text|, at, 0, |c|);
      AfterTexts(was, text, at, 0, c);
      assert buf == Splice(text, at, 0, c);
    }

    /** The folds and the text of a deletion. */
    method Cut(p: nat, len: nat)
      requires Valid() && p + len <= |buf|
      modifies this`buf, this`pos, folds`count, folds.start, folds.end
      ensures Valid() && Edited(p, len, []) && pos == p
    {
      hide FoldsOk, After, Survivors, Texts, StepsOk;
      ghost var was, text := folds.Contents(), buf;
      NonEmpty(was, |text|);
      folds.AdjustAfterDelete(p, len);
      buf := buf[..p] + buf[p + len..];
      pos := p;
      AfterOk(was, |text|, p, len, 0);
      AfterTexts(was, text, p, len, []);
      assert buf == Splice(text, p, len, []);
    }

    /** linenoiseEditNextLen: a hidden range counts as one character. */
    method NextLen(p: nat) returns (n: nat)
      requires Valid() && p < |buf|
      ensures 1 <= n && p + n <= |buf| && UnitAfter(folds.Contents(), buf, mask, next, p, n)
    {
      RenderAll(folds.Contents(), |buf|, mask);
      assert 1 <= next(buf, p) <= |buf| - p;
      hide FoldsOk, StepsOk, RenderFolds;
      var fs := RenderFolds(folds.Contents(), |buf|, mask);
      for j := 0 to |fs|
        invariant forall i | 0 <= i < j :: fs[i].start != p
      {
        if p == fs[j].start {
          assert fs[j] in fs;
          return fs[j].end - fs[j].start;
        }
      }
      return next(buf, p);
    }

    /** linenoiseEditPrevLen. */
    method PrevLen(p: nat) returns (n: nat)
      requires Valid() && 0 < p <= |buf|
      ensures 1 <= n <= p && UnitBefore(folds.Contents(), buf, mask, prev, p, n)
    {
      RenderAll(folds.Contents(), |buf|, mask);
      assert 1 <= prev(buf, p) <= p;
      hide FoldsOk, StepsOk, RenderFolds;
      var fs := RenderFolds(folds.Contents(), |buf|, mask);
      for j := 0 to |fs|
        invariant forall i | 0 <= i < j :: fs[i].end != p
      {
        if p == fs[j].end {
          assert fs[j] in fs;
          return fs[j].end - fs[j].start;
        }
      }
      return prev(buf, p);
    }

    /** linenoiseEditDelete. */
    method Delete()
      requires Valid()
      modifies this`buf, this`pos, folds`count, folds.start, folds.end
      ensures Valid() && pos == old(pos)
      ensures if old(pos) < |old(buf)| then |buf| < |old(buf)| && Edited(pos, |old(buf)| - |buf|, [])
              else buf == old(buf) && folds.Contents() == old(folds.Contents())
      ensures old(pos) < |old(buf)| ==>
                UnitAfter(old(folds.Contents()), old(buf), mask, next, pos, |old(buf)| - |buf|)
    {
      hide FoldsOk, After, Survivors, Texts, StepsOk, UnitAfter;
      if |buf| > 0 && pos < |buf| {
        var n := NextLen(pos);
        Cut(pos, n);
      }
    }

    /** linenoiseEditBackspace. */
    method Backspace()
      requires Valid()
      modifies this`buf, this`pos, folds`count, folds.start, folds.end
      ensures Valid()
      ensures if old(pos) > 0 then pos < old(pos) && Edited(pos, old(pos) - pos, [])
              else pos == 0 && buf == old(buf) && folds.Contents() == old(folds.Contents())
      ensures old(pos) > 0 ==> UnitBefore(old(folds.Contents()), old(buf), mask, prev, old(pos), old(pos) - pos)
    {
      hide FoldsOk, After, Survivors, Texts, StepsOk, Splice, UnitBefore;
      if pos > 0 && |buf| > 0 {
        var n := PrevLen(pos);
        Cut(pos - n, n);
      }
    }

    /** Either loop of linenoiseEditDeletePrevWord: back over spaces, or over anything else. */
    method SkipBack(spaces: bool)
      requires Valid()
      modifies this`pos
      ensures Valid() && Skipped(folds.Contents(), buf, mask, prev, old(pos), pos, spaces)
      ensures pos <= old(pos) && (pos == 0 || (buf[pos - 1] == SPACE) != spaces)
    {
      hide FoldsOk, StepsOk, UnitBefore;
      ghost var fs := folds.Contents();
      SkippedNone(fs, buf, mask, prev, pos, spaces);
      hide Skipped;
      while pos > 0 && (buf[pos - 1] == SPACE) == spaces
        invariant Valid() && pos <= old(pos) && Skipped(fs, buf, mask, prev, old(pos), pos, spaces)
        decreases pos
      {
        var n := PrevLen(pos);
        SkippedOn(fs, buf, mask, prev, old(pos), pos, pos - n, spaces);
        pos := pos - n;
      }
    }

    /** linenoiseEditDeletePrevWord. */
    method DeletePrevWord()
      requires Valid()
      modifies this`buf, this`pos, folds`count, folds.start, folds.end
      ensures Valid() && pos <= old(pos) && Edited(pos, old(pos) - pos, [])
      ensures exists mid :: WordEnds(old(folds.Contents()), old(buf), mask, prev, old(pos), mid, pos)
      ensures old(pos) > 0 ==> pos < old(pos)
    {
      hide FoldsOk, After, Survivors, Texts, StepsOk, Skipped;
      var oldPos := pos;
      SkipBack(true);
      ghost var mid := pos;
      SkipBack(false);
      assert WordEnds(folds.Contents(), buf, mask, prev, oldPos, mid, pos);
      WordMoves(folds.Contents(), buf, mask, prev, oldPos, mid, pos);
      Cut(pos, oldPos - pos);
    }

    /** What ctrl-t does with the `p` bytes before the cursor and the `c` bytes after it. */
    twostate predicate Transposed(p: nat, c: nat)
      requires old(folds.Valid())
      reads this
    {
      && p <= old(pos) && old(pos) + c <= |old(buf)|
      && if p <= 32 && c <= 32 && Clear(old(folds.Contents()), old(pos) - p, p + c)
         then pos == old(pos) + c && buf == Swapped(old(buf), old(pos), p, c)
         else pos == old(pos) && buf == old(buf)
    }

    /** ctrl-t: the characters around the cursor change places, unless one of them is too long for
        the temporary buffer or a fold is touched. */
    method Transpose()
      requires Valid()
      modifies this`buf, this`pos
      ensures Valid() && folds.Contents() == old(folds.Contents()) && Held() == old(Held())
      ensures if 0 < old(pos) < |old(buf)|
              then exists p, c :: UnitBefore(old(folds.Contents()), old(buf), mask, prev, old(pos), p)
                               && UnitAfter(old(folds.Contents()), old(buf), mask, next, old(pos), c)
                               && Transposed(p, c)
              else pos == old(pos) && buf == old(buf)
    {
      hide FoldsOk, After, Survivors, Texts, StepsOk, Splice, UnitBefore, UnitAfter;
      if pos > 0 && pos < |buf| {
        ghost var text, was := buf, folds.Contents();
        var prevlen := PrevLen(pos);
        var currlen := NextLen(pos);
        var start := pos - prevlen;
        if prevlen > SWAP_MAX || currlen > SWAP_MAX {
          assert Transposed(prevlen, currlen);
          return;
        }
        var touched := folds.RangeOverlaps(start, prevlen + currlen);
        if touched {
          assert Transposed(prevlen, currlen);
          return;
        }
        var tmp := buf[pos..pos + currlen];
        buf := buf[..start] + tmp + buf[start..pos] + buf[pos + currlen..];
        if pos + currlen <= |buf| { pos := pos + currlen; }
        SwapKeeps(was, text, start, prevlen + currlen, tmp + text[start..start + prevlen]);
        SwapForms(text, old(pos), prevlen, currlen);
        assert Transposed(prevlen, currlen);
      }
    }

    /** ctrl-u. */
    method KillLine()
      requires Valid()
      modifies this`buf, this`pos, folds`count
      ensures Valid() && buf == [] && pos == 0 && folds.Contents() == [] && Held() == []
    {
      buf, pos := [], 0;
      folds.Clear();
    }

    /** ctrl-k. */
    method KillToEnd()
      requires Valid()
      modifies this`buf, this`pos, folds`count, folds.start, folds.end
      ensures Valid() && pos == old(pos) && Edited(pos, |old(buf)| - pos, [])
    {
      hide FoldsOk, After, Survivors, Texts, StepsOk, Splice;
      Cut(pos, |buf| - pos);
    }

    /** The cursor keys. */
    method MoveLeft()
      requires Valid()
      modifies this`pos
      ensures Valid() && pos <= old(pos)
      ensures if old(pos) > 0 then UnitBefore(folds.Contents(), buf, mask, prev, old(pos), old(pos) - pos) else pos == 0
    {
      if pos > 0 {
        var n := PrevLen(pos);
        pos := pos - n;
      }
    }

    method MoveRight()
      requires Valid()
      modifies this`pos
      ensures Valid() && pos >= old(pos)
      ensures if old(pos) < |buf| then UnitAfter(folds.Contents(), buf, mask, next, old(pos), pos - old(pos)) else pos == old(pos)
    {
      if pos != |buf| {
        var n := NextLen(pos);
        pos := pos + n;
      }
    }

    method MoveHome()
      requires Valid()
      modifies this`pos
      ensures Valid() && pos == 0
    {
      pos := 0;
    }

    method MoveEnd()
      requires Valid()
      modifies this`pos
      ensures Valid() && pos == |buf|
    {
      pos := |buf|;
    }

    /** The first loop of linenoiseBuildHistoryFold: the context at the start of the text. */
    method ContextAhead() returns (p: nat, nl: bool)
      ensures (p, nl) == Ahead(next, buf, 0, FOLD_CONTEXT)
    {
      var chars := 0;
      p, nl := 0, false;
      while p < |buf| && chars < FOLD_CONTEXT
        invariant p <= |buf| && chars <= FOLD_CONTEXT
        invariant var rest := Ahead(next, buf, p, FOLD_CONTEXT - chars);
                  Ahead(next, buf, 0, FOLD_CONTEXT) == (rest.0, nl || rest.1)
        decreases FOLD_CONTEXT - chars
      {
        var step := next(buf, p);
        if step == 0 || p + step > |buf| { break; }
        if buf[p] == LF { nl := true; }
        p := p + step;
        chars := chars + 1;
      }
    }

    /** The second loop: the context at its end. */
    method ContextBack() returns (p: nat, nl: bool)
      ensures (p, nl) == Back(prev, buf, |buf|, FOLD_CONTEXT)
    {
      var chars := 0;
      p, nl := |buf|, false;
      while p > 0 && chars < FOLD_CONTEXT
        invariant p <= |buf| && chars <= FOLD_CONTEXT
        invariant var rest := Back(prev, buf, p, FOLD_CONTEXT - chars);
                  Back(prev, buf, |buf|, FOLD_CONTEXT) == (rest.0, nl || rest.1)
        decreases FOLD_CONTEXT - chars
      {
        var step := prev(buf, p);
        if step == 0 || step > p { break; }
        p := p - step;
        if buf[p] == LF { nl := true; }
        chars := chars + 1;
      }
    }

    /** linenoiseBuildHistoryFold: one fold around the middle of a long text. */
    method BuildHistoryFold() returns (f: seq<Fold>)
      ensures f == HistoryFold(mask, next, prev, buf)
    {
      hide Ahead, Back;
      if |buf| == 0 || mask || !ShouldFold(buf) { return []; }
      var start, end := 0, |buf|;
      if |buf| > FOLD_CONTEXT * 2 {
        var p, nl := ContextAhead();
        start := if nl then 0 else p;
        p, nl := ContextBack();
        end := if nl then |buf| else p;
        if start >= end {
          start, end := 0, |buf|;
        }
      }
      return [Fold(start, end)];
    }

    /** linenoiseEditHistoryNext, once the entry `src` has been chosen: it is cut to the buffer when it
        does not fit, and folded as a whole when it should be. */
    method Recall(src: Text)
      requires Valid()
      modifies this`buf, this`pos, this`buflen, folds`count, folds.start, folds.end
      ensures Valid() && buf <= src && pos == |buf|
      ensures |buf| == if |src| <= old(buflen) || (buflenMax != 0 && |src| <= buflenMax) then |src| else old(buflen)
      ensures if |src| <= old(buflen) || (buflenMax != 0 && |src| <= buflenMax) then Grown(buflenMax, old(buflen), |src|, buflen)
              else buflen == old(buflen)
      ensures folds.Contents() == HistoryFold(mask, next, prev, buf)
    {
      hide StepsOk, HistoryFold;
      var ok := Grow(|src|);
      var len := if !ok && |src| > buflen then buflen else |src|;
      buf := src[..len];
      pos := len;
      folds.Clear();
      var f := BuildHistoryFold();
      HistoryFoldInside(mask, next, prev, buf);
      HistoryFoldOne(mask, next, prev, buf);
      if f != [] {
        assert f[0] in f;
        AddFold(f[0].start, f[0].end);
        OnlyFold(f[0], folds.Contents());
      }
    }

    /** A new fold that meets no other. */
    method AddFold(s: nat, e: nat)
      requires Valid() && s < e <= |buf| && folds.count < MAX_FOLDS
      requires forall f | f in folds.Contents() :: f.end <= s || e <= f.start
      modifies folds`count, folds.start, folds.end
      ensures Valid()
      ensures exists j | 0 <= j <= |old(folds.Contents())| :: InsertedAt(old(folds.Contents()), folds.Contents(), j, Fold(s, e))
    {
      ghost var was := folds.Contents();
      StartsSorted(was);
      assert forall i | 0 <= i < folds.count :: was[i].start == folds.start[i];
      folds.Add(s, e);
      ghost var j :| 0 <= j <= |was| && InsertedAt(was, folds.Contents(), j, Fold(s, e));
      InsertedOk(was, folds.Contents(), j, Fold(s, e), |buf|);
    }
  }

  lemma HistoryFoldOne(mask: bool, next: Step, prev: Step, s: Text)
    ensures |HistoryFold(mask, next, prev, s)| <= 1
  {
  }

  lemma OnlyFold(f: Fold, folds: seq<Fold>)
    requires exists j | 0 <= j <= 0 :: InsertedAt([], folds, j, f)
    ensures folds == [f]
  {
  }

  /** No fold meets the `len` bytes at `p`. */
  ghost predicate Clear(folds: seq<Fold>, p: nat, len: nat) {
    forall f | f in folds :: !(p + len > f.start && p < f.end)
  }

  /** None of the bytes belongs to a fold. */
  lemma ClearBytes(folds: seq<Fold>, p: nat, len: nat)
    requires len > 0 && forall f | f in folds :: f.start < f.end
    ensures Clear(folds, p, len) <==> forall f, k | f in folds && f.start <= k < f.end :: !Deletes(p, len, k)
  {
    if !Clear(folds, p, len) {
      var f :| f in folds && p + len > f.start && p < f.end;
      var k := if p <= f.start then f.start else p;
      assert f.start <= k < f.end && Deletes(p, len, k);
    }
  }

  function Swapped(buf: Text, pos: nat, p: nat, c: nat): Text
    requires p <= pos && pos + c <= |buf|
  {
    buf[..pos - p] + buf[pos..pos + c] + buf[pos - p..pos] + buf[pos + c..]
  }

  /** The unit before the cursor ends up behind the one after it, byte for byte, and nothing else moves. */
  lemma SwappedBytes(buf: Text, pos: nat, p: nat, c: nat, k: nat)
    requires p <= pos && pos + c <= |buf| && k < |buf|
    ensures |Swapped(buf, pos, p, c)| == |buf|
    ensures k < p ==> Swapped(buf, pos, p, c)[pos - p + c + k] == buf[pos - p + k]
    ensures k < c ==> Swapped(buf, pos, p, c)[pos - p + k] == buf[pos + k]
    ensures k < pos - p || pos + c <= k ==> Swapped(buf, pos, p, c)[k] == buf[k]
  {
  }

  lemma SwapForms(buf: Text, pos: nat, p: nat, c: nat)
    requires p <= pos && pos + c <= |buf|
    ensures Swapped(buf, pos, p, c) == Splice(buf, pos - p, p + c, buf[pos..pos + c] + buf[pos - p..pos])
  {
  }

  lemma SwapKeeps(folds: seq<Fold>, buf: Text, p: nat, len: nat, ins: Text)
    requires FoldsOk(folds, |buf|) && p + len <= |buf| && |ins| == len
    requires !exists f :: f in folds && p + len > f.start && p < f.end
    ensures FoldsOk(folds, |Splice(buf, p, len, ins)|) && Texts(folds, Splice(buf, p, len, ins)) == Texts(folds, buf)
  {
    NothingTouched(folds, p, len);
    AfterOk(folds, |buf|, p, len, len);
    AfterTexts(folds, buf, p, len, ins);
  }

  lemma StartsSorted(folds: seq<Fold>)
    requires forall i | 0 <= i < |folds| :: folds[i].start < folds[i].end
    requires forall i, j | 0 <= i < j < |folds| :: folds[i].end <= folds[j].start
    ensures forall i, j | 0 <= i < j < |folds| :: folds[i].start <= folds[j].start
  {
  }

  lemma InsertedOk(folds: seq<Fold>, folds2: seq<Fold>, j: nat, f: Fold, n: nat)
    requires FoldsOk(folds, n) && InsertedAt(folds, folds2, j, f) && f.start < f.end <= n
    requires forall g | g in folds :: g.end <= f.start || f.end <= g.start
    ensures FoldsOk(folds2, n)
  {
    forall i | 0 <= i < j ensures folds[i].end <= f.start {
      assert folds[i] in folds;
    }
    forall i | j <= i < |folds| ensures f.end <= folds[i].start {
      assert folds[i] in folds;
    }
    JoinOk(folds[..j], [f], n);
    JoinLater(folds[..j] + [f], folds[j..], n);
  }

  lemma JoinLater(a: seq<Fold>, b: seq<Fold>, n: nat)
    requires FoldsOk(a, n) && FoldsOk(b, n)
    requires forall i, k | 0 <= i < |a| && 0 <= k < |b| :: a[i].end <= b[k].start
    ensures FoldsOk(a + b, n)
  {
  }
}
