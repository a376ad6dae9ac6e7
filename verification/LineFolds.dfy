/**
 The remembered fold ranges of linenoise.c: two parallel arrays of offsets into the edit buffer,
 sorted, that every edit keeps in step with the text.
 */
module LineFolds {
  import opened Keys

  const MAX_FOLDS := 16

  datatype Fold = Fold(start: nat, end: nat)

  /** Non-empty, sorted, pairwise disjoint, and inside a text of `n` bytes. */
  ghost predicate FoldsOk(folds: seq<Fold>, n: nat) {
    && (forall i | 0 <= i < |folds| :: folds[i].start < folds[i].end <= n)
    && (forall i, j | 0 <= i < j < |folds| :: folds[i].end <= folds[j].start)
  }

  function TextOf(f: Fold, buf: Text): Text {
    if f.start <= f.end <= |buf| then buf[f.start..f.end] else []
  }

  /** The bytes that the folds hide. */
  function Texts(folds: seq<Fold>, buf: Text): seq<Text> {
    if folds == [] then [] else Texts(folds[..|folds| - 1], buf) + [TextOf(folds[|folds| - 1], buf)]
  }

  lemma {:induction false} TextsAt(folds: seq<Fold>, buf: Text, i: nat)
    requires i < |folds|
    ensures |Texts(folds, buf)| == |folds| && Texts(folds, buf)[i] == TextOf(folds[i], buf)
  {
    if i < |folds| - 1 {
      TextsAt(folds[..|folds| - 1], buf, i);
    } else if |folds| > 1 {
      TextsAt(folds[..|folds| - 1], buf, 0);
    }
  }

  lemma {:induction false} TextsAppend(a: seq<Fold>, b: seq<Fold>, buf: Text)
    ensures Texts(a + b, buf) == Texts(a, buf) + Texts(b, buf)
  {
    if b == [] {
      assert a + b == a;
    } else {
      var n := |b| - 1;
      assert (a + b)[..|a + b| - 1] == a + b[..n];
      TextsAppend(a, b[..n], buf);
    }
  }

  // ------------------------------------------------------------------ what an edit does to the folds

  /** The text after `del` bytes at `pos` were replaced by `ins`. */
  function Splice(buf: Text, pos: nat, del: nat, ins: Text): Text
    requires pos + del <= |buf|
  {
    buf[..pos] + ins + buf[pos + del..]
  }

  /** A fold survives an insertion unless it lands inside, and a deletion unless the two overlap. */
  predicate Survives(f: Fold, pos: nat, del: nat) {
    pos + del <= f.start || f.end <= pos
  }

  /** What survives is untouched: none of its bytes is deleted, and nothing goes in between two of them. */
  lemma SurvivesIf(f: Fold, pos: nat, del: nat)
    requires f.start < f.end
    ensures Survives(f, pos, del) <==>
              (forall k | f.start <= k < f.end :: !Deletes(pos, del, k)) && !(f.start < pos < f.end)
  {
    if !Survives(f, pos, del) && del > 0 {
      var k := if pos <= f.start then f.start else pos;
      assert f.start <= k < f.end && Deletes(pos, del, k);
    }
  }

  predicate Deletes(pos: nat, del: nat, k: nat) {
    pos <= k < pos + del
  }

  /** The survivors are exactly the untouched folds. */
  lemma {:induction false} SurvivorsAre(folds: seq<Fold>, pos: nat, del: nat, f: Fold)
    ensures f in Survivors(folds, pos, del) <==> f in folds && Survives(f, pos, del)
  {
    if folds != [] {
      var n := |folds| - 1;
      SurvivorsAre(folds[..n], pos, del, f);
      assert folds == folds[..n] + [folds[n]];
    }
  }

  /** Where a fold goes: nowhere, along with the text after the edit, or it stays. */
  function Moved(f: Fold, pos: nat, del: nat, ins: nat): seq<Fold> {
    if pos + del <= f.start <= f.end then [Fold(f.start - del + ins, f.end - del + ins)]
    else if f.end <= pos then [f]
    else []
  }

  function After(folds: seq<Fold>, pos: nat, del: nat, ins: nat): seq<Fold> {
    if folds == [] then []
    else After(folds[..|folds| - 1], pos, del, ins) + Moved(folds[|folds| - 1], pos, del, ins)
  }

  function Survivors(folds: seq<Fold>, pos: nat, del: nat): seq<Fold> {
    if folds == [] then []
    else
      var f := folds[|folds| - 1];
      Survivors(folds[..|folds| - 1], pos, del) + if Survives(f, pos, del) then [f] else []
  }

  lemma {:induction false} AfterFrom(folds: seq<Fold>, pos: nat, del: nat, ins: nat, k: nat) returns (i: nat)
    requires k < |After(folds, pos, del, ins)|
    ensures i < |folds| && Moved(folds[i], pos, del, ins) == [After(folds, pos, del, ins)[k]]
  {
    var n := |folds| - 1;
    if k < |After(folds[..n], pos, del, ins)| {
      i := AfterFrom(folds[..n], pos, del, ins, k);
    } else {
      i := n;
    }
  }

  /** An edit keeps the folds non-empty, sorted, disjoint and inside the text. */
  lemma {:induction false} AfterOk(folds: seq<Fold>, n: nat, pos: nat, del: nat, ins: nat)
    requires FoldsOk(folds, n) && pos + del <= n
    ensures FoldsOk(After(folds, pos, del, ins), n - del + ins)
    ensures |After(folds, pos, del, ins)| <= |folds|
  {
    if folds != [] {
      var m := |folds| - 1;
      var rest := After(folds[..m], pos, del, ins);
      AfterOk(folds[..m], n, pos, del, ins);
      var last := Moved(folds[m], pos, del, ins);
      forall k | 0 <= k < |rest| && last != [] ensures rest[k].end <= last[0].start {
        var i := AfterFrom(folds[..m], pos, del, ins, k);
        assert folds[i].end <= folds[m].start;
      }
      JoinOk(rest, last, n - del + ins);
    }
  }

  lemma JoinOk(a: seq<Fold>, b: seq<Fold>, n: nat)
    requires FoldsOk(a, n) && |b| <= 1
    requires b != [] ==> b[0].start < b[0].end <= n && forall k | 0 <= k < |a| :: a[k].end <= b[0].start
    ensures FoldsOk(a + b, n)
  {
  }

  lemma NonEmpty(folds: seq<Fold>, n: nat)
    requires FoldsOk(folds, n)
    ensures forall f | f in folds :: f.start < f.end <= n
  {
  }

  lemma MovedText(f: Fold, buf: Text, pos: nat, del: nat, ins: Text)
    requires f.start < f.end <= |buf| && pos + del <= |buf|
    ensures Survives(f, pos, del) <==> Moved(f, pos, del, |ins|) != []
    ensures Survives(f, pos, del) ==> TextOf(Moved(f, pos, del, |ins|)[0], Splice(buf, pos, del, ins)) == TextOf(f, buf)
  {
    if Survives(f, pos, del) {
      var g, b2 := Moved(f, pos, del, |ins|)[0], Splice(buf, pos, del, ins);
      assert forall k | 0 <= k < f.end - f.start :: b2[g.start..g.end][k] == buf[f.start..f.end][k];
    }
  }

  /** The folds that are left hide exactly the bytes that they hid before. */
  lemma {:induction false} AfterTexts(folds: seq<Fold>, buf: Text, pos: nat, del: nat, ins: Text)
    requires FoldsOk(folds, |buf|) && pos + del <= |buf|
    ensures Texts(After(folds, pos, del, |ins|), Splice(buf, pos, del, ins)) == Texts(Survivors(folds, pos, del), buf)
  {
    if folds != [] {
      var m := |folds| - 1;
      var b2, f := Splice(buf, pos, del, ins), folds[m];
      AfterTexts(folds[..m], buf, pos, del, ins);
      MovedText(f, buf, pos, del, ins);
      var last := Moved(f, pos, del, |ins|);
      TextsAppend(After(folds[..m], pos, del, |ins|), last, b2);
      if Survives(f, pos, del) {
        TextsAppend(Survivors(folds[..m], pos, del), [f], buf);
        assert Texts(last, b2) == [TextOf(f, buf)] by { assert last[..0] == [] && last == [last[0]]; }
        assert Texts([f], buf) == [TextOf(f, buf)] by { assert [f][..0] == []; }
      } else {
        assert After(folds[..m], pos, del, |ins|) + [] == After(folds[..m], pos, del, |ins|);
        assert Survivors(folds[..m], pos, del) + [] == Survivors(folds[..m], pos, del);
      }
    }
  }

  // ------------------------------------------------------------------ the arrays

  function Pairs(a: seq<nat>, b: seq<nat>): (folds: seq<Fold>)
    requires |a| == |b|
    ensures |folds| == |a|
  {
    seq(|a|, i requires 0 <= i < |a| => Fold(a[i], b[i]))
  }

  class FoldList {
    var start: array<nat>
    var end: array<nat>
    var count: nat

    ghost predicate Valid()
      reads this
    {
      start != end && start.Length == end.Length == MAX_FOLDS && count <= MAX_FOLDS
    }

    function Contents(): (folds: seq<Fold>)
      reads this, start, end
      requires count <= start.Length && count <= end.Length
      ensures |folds| == count
    {
      Pairs(start[..count], end[..count])
    }

    constructor ()
      ensures Valid() && fresh(start) && fresh(end) && Contents() == []
    {
      start := new nat[MAX_FOLDS](_ => 0);
      end := new nat[MAX_FOLDS](_ => 0);
      count := 0;
    }

    /** linenoiseFoldClear. */
    method Clear()
      requires Valid()
      modifies this`count
      ensures Valid() && Contents() == []
    {
      count := 0;
    }

    /** linenoiseFoldRemove: the two memmoves. */
    method Remove(j: nat)
      requires Valid() && j < count
      modifies this`count, start, end
      ensures Valid() && Contents() == old(Contents())[..j] + old(Contents())[j + 1..]
    {
      ghost var was := Contents();
      forall k | j <= k < count - 1 {
        start[k] := start[k + 1];
      }
      forall k | j <= k < count - 1 {
        end[k] := end[k + 1];
      }
      count := count - 1;
      assert forall k | 0 <= k < count :: Contents()[k] == (was[..j] + was[j + 1..])[k];
    }
  
    /** The loop of linenoiseFoldAdd. */
    method MakeRoom(s: nat) returns (j: nat)
      requires Valid() && count < MAX_FOLDS && (forall i, k | 0 <= i < k < count :: start[i] <= start[k])
      modifies start, end
      ensures j <= count && (j > 0 ==> old(start[j - 1]) <= s)
      ensures start[..] == Slid(old(start[..]), j, count) && end[..] == Slid(old(end[..]), j, count)
      ensures forall k | j <= k < count :: s < old(start[k])
    {
      hide Slid, After, After2, FoldsOk;
      ghost var s0, e0 := start[..], end[..];
      j := count;
      SlidNone(s0, count);
      SlidNone(e0, count);
      while j > 0 && s < start[j - 1]
        invariant j <= count
        invariant start[..] == Slid(s0, j, count) && end[..] == Slid(e0, j, count)
        invariant forall k | j <= k < count :: s < s0[k]
      {
        SlideOne(s0, j, count);
        SlideOne(e0, j, count);
        start[j] := start[j - 1];
        end[j] := end[j - 1];
        j := j - 1;
      }
      if j > 0 {
        SlideOne(s0, j, count);
      }
    }

    /** linenoiseFoldAdd: insertion sort by start offset. */
    method Add(s: nat, e: nat)
      requires Valid() && (forall i, k | 0 <= i < k < count :: start[i] <= start[k])
      modifies this`count, start, end
      ensures Valid()
      ensures if s >= e || old(count) == 16 then Contents() == old(Contents())
              else exists j | 0 <= j <= old(count) :: InsertedAt(old(Contents()), Contents(), j, Fold(s, e))
    {
      hide After, After2, FoldsOk;
      if s >= e || count == MAX_FOLDS { return; }
      ghost var was, s0, e0, n := Contents(), start[..], end[..], count;
      var j := MakeRoom(s);
      SlidSet(s0, j, n, s);
      SlidSet(e0, j, n, e);
      Opened(s0[..n], e0[..n], j, s, e);
      start[j] := s;
      end[j] := e;
      count := count + 1;
      assert start[..count] == Slid(s0, j, n)[j := s][..n + 1];
      assert end[..count] == Slid(e0, j, n)[j := e][..n + 1];
      assert InsertedAt(was, Contents(), j, Fold(s, e));
    }

    method ShiftAt(j: nat, del: nat, ins: nat)
      requires Valid() && j < count && del <= start[j] && del <= end[j]
      modifies start, end
      ensures Contents() == old(Contents())[j := Fold(old(start[j]) - del + ins, old(end[j]) - del + ins)]
    {
      start[j] := start[j] - del + ins;
      end[j] := end[j] - del + ins;
    }

    /** One turn of the loop of linenoiseAdjustFoldsAfterInsert. */
    method TurnInsert(j: nat, pos: nat, len: nat) returns (j2: nat)
      requires Valid() && j < count && start[j] < end[j]
      modifies this`count, start, end
      ensures Valid() && Contents() == Turned(old(Contents()), j, Moved(old(Contents())[j], pos, 0, len))
      ensures j2 == j + |Moved(old(Contents())[j], pos, 0, len)|
    {
      if pos <= start[j] {
        ShiftAt(j, 0, len);
        return j + 1;
      } else if pos < end[j] {
        Remove(j);
        return j;
      }
      return j + 1;
    }

    /** linenoiseAdjustFoldsAfterInsert. */
    method AdjustAfterInsert(pos: nat, len: nat)
      requires Valid() && (forall f | f in Contents() :: f.start < f.end)
      modifies this`count, start, end
      ensures Valid() && Contents() == After(old(Contents()), pos, 0, len)
    {
      hide After, After2, Moved, Turned;
      After2Is(old(Contents()), pos, 0, len);
      ghost var done, todo := [], Contents();
      var j := 0;
      while j < count
        invariant Valid() && |done| == j && Contents() == done + todo
        invariant done + After2(todo, pos, 0, len) == After2(old(Contents()), pos, 0, len)
        invariant forall f | f in todo :: f.start < f.end
        decreases |todo|
      {
        ghost var now := Contents();
        assert now[j] == todo[0] == Fold(start[j], end[j]);
        j := TurnInsert(j, pos, len);
        done, todo := StepOver(now, Contents(), done, todo, pos, 0, len);
      }
    }

    /** One turn of the loop of linenoiseAdjustFoldsAfterDelete. */
    method TurnDelete(j: nat, pos: nat, len: nat) returns (j2: nat)
      requires Valid() && j < count && start[j] < end[j]
      modifies this`count, start, end
      ensures Valid() && Contents() == Turned(old(Contents()), j, Moved(old(Contents())[j], pos, len, 0))
      ensures j2 == j + |Moved(old(Contents())[j], pos, len, 0)|
    {
      var last := pos + len;
      if last <= start[j] {
        ShiftAt(j, len, 0);
        return j + 1;
      } else if pos >= end[j] {
        return j + 1;
      }
      Remove(j);
      return j;
    }

    /** linenoiseAdjustFoldsAfterDelete. */
    method AdjustAfterDelete(pos: nat, len: nat)
      requires Valid() && (forall f | f in Contents() :: f.start < f.end)
      modifies this`count, start, end
      ensures Valid() && Contents() == After(old(Contents()), pos, len, 0)
    {
      hide After, After2, Moved, Turned;
      After2Is(old(Contents()), pos, len, 0);
      ghost var done, todo := [], Contents();
      var j := 0;
      while j < count
        invariant Valid() && |done| == j && Contents() == done + todo
        invariant done + After2(todo, pos, len, 0) == After2(old(Contents()), pos, len, 0)
        invariant forall f | f in todo :: f.start < f.end
        decreases |todo|
      {
        ghost var now := Contents();
        assert now[j] == todo[0] == Fold(start[j], end[j]);
        j := TurnDelete(j, pos, len);
        done, todo := StepOver(now, Contents(), done, todo, pos, len, 0);
      }
    }

    /** linenoiseRangeOverlapsFold. */
    method RangeOverlaps(pos: nat, len: nat) returns (b: bool)
      requires Valid()
      ensures b <==> exists f :: f in Contents() && pos + len > f.start && pos < f.end
    {
      for j := 0 to count
        invariant forall i | 0 <= i < j :: !(pos + len > start[i] && pos < end[i])
      {
        if pos + len > start[j] && pos < end[j] {
          assert Contents()[j] == Fold(start[j], end[j]);
          return true;
        }
      }
      assert forall i | 0 <= i < count :: Contents()[i] == Fold(start[i], end[i]);
      return false;
    }
  }

  /** A list after one fold of it has moved or was dropped. */
  function Turned(folds: seq<Fold>, j: nat, moved: seq<Fold>): seq<Fold>
    requires j < |folds|
  {
    if moved == [] then folds[..j] + folds[j + 1..] else folds[j := moved[0]]
  }

  /** After, from the front. */
  function After2(folds: seq<Fold>, pos: nat, del: nat, ins: nat): seq<Fold> {
    if folds == [] then [] else Moved(folds[0], pos, del, ins) + After2(folds[1..], pos, del, ins)
  }

  /** An array whose elements from `j` on were moved up by one, up to index `n`. */
  function Slid(s: seq<nat>, j: nat, n: nat): seq<nat>
    requires j <= n < |s|
  {
    s[..j] + [s[j]] + s[j..n] + s[n + 1..]
  }

  lemma SlidNone(s: seq<nat>, n: nat)
    requires n < |s|
    ensures Slid(s, n, n) == s
  {
  }

  lemma SlideOne(s: seq<nat>, j: nat, n: nat)
    requires 0 < j <= n < |s|
    ensures Slid(s, j, n)[j - 1] == s[j - 1] && |Slid(s, j, n)| == |s|
    ensures Slid(s, j - 1, n) == Slid(s, j, n)[j := s[j - 1]]
  {
  }

  lemma SlidSet(s: seq<nat>, j: nat, n: nat, x: nat)
    requires j <= n < |s|
    ensures Slid(s, j, n)[j := x][..n + 1] == s[..n][..j] + [x] + s[..n][j..]
  {
  }

  lemma Opened(a: seq<nat>, b: seq<nat>, j: nat, s: nat, e: nat)
    requires j <= |a| == |b|
    requires forall i, k | 0 <= i < k < |a| :: a[i] <= a[k]
    requires (j > 0 ==> a[j - 1] <= s) && forall k | j <= k < |a| :: s < a[k]
    ensures InsertedAt(Pairs(a, b), Pairs(a[..j] + [s] + a[j..], b[..j] + [e] + b[j..]), j, Fold(s, e))
  {
  }

  lemma {:induction false} AfterSplit(a: seq<Fold>, b: seq<Fold>, pos: nat, del: nat, ins: nat)
    ensures After(a + b, pos, del, ins) == After(a, pos, del, ins) + After(b, pos, del, ins)
  {
    if b == [] {
      assert a + b == a;
    } else {
      var n := |b| - 1;
      assert (a + b)[..|a + b| - 1] == a + b[..n];
      AfterSplit(a, b[..n], pos, del, ins);
    }
  }

  lemma {:induction false} After2Is(folds: seq<Fold>, pos: nat, del: nat, ins: nat)
    ensures After2(folds, pos, del, ins) == After(folds, pos, del, ins)
    ensures After2([], pos, del, ins) == []
  {
    if folds != [] {
      After2Is(folds[1..], pos, del, ins);
      AfterSplit([folds[0]], folds[1..], pos, del, ins);
      assert folds == [folds[0]] + folds[1..];
      assert [folds[0]][..0] == [];
    }
  }

  /** The loop has dealt with `todo[0]`. */
  lemma StepOver(was: seq<Fold>, now: seq<Fold>, done: seq<Fold>, todo: seq<Fold>, pos: nat, del: nat, ins: nat)
    returns (done2: seq<Fold>, todo2: seq<Fold>)
    requires todo != [] && was == done + todo && todo[0].start < todo[0].end
    requires now == Turned(was, |done|, Moved(todo[0], pos, del, ins))
    ensures now == done2 + todo2 && todo2 == todo[1..] && |done2| == |done| + |Moved(todo[0], pos, del, ins)|
    ensures done2 + After2(todo2, pos, del, ins) == done + After2(todo, pos, del, ins)
  {
    var moved := Moved(todo[0], pos, del, ins);
    done2, todo2 := done + moved, todo[1..];
    After2Head(todo, pos, del, ins);
    hide After2, Moved;
    Rearrange(was, now, done, todo, moved);
    assert done + moved + After2(todo2, pos, del, ins) == done + (moved + After2(todo2, pos, del, ins));
  }

  lemma After2Head(folds: seq<Fold>, pos: nat, del: nat, ins: nat)
    requires folds != []
    ensures After2(folds, pos, del, ins) == Moved(folds[0], pos, del, ins) + After2(folds[1..], pos, del, ins)
    ensures |Moved(folds[0], pos, del, ins)| <= 1
  {
  }

  lemma Rearrange(was: seq<Fold>, now: seq<Fold>, done: seq<Fold>, todo: seq<Fold>, moved: seq<Fold>)
    requires todo != [] && was == done + todo && |moved| <= 1
    requires now == Turned(was, |done|, moved)
    ensures now == done + moved + todo[1..]
  {
  }

  /** `f` was put at index `j`, after the folds that do not start later and before the others. */
  ghost predicate InsertedAt(folds: seq<Fold>, folds2: seq<Fold>, j: nat, f: Fold) {
    && j <= |folds| && folds2 == folds[..j] + [f] + folds[j..]
    && (j > 0 ==> folds[j - 1].start <= f.start)
    && (forall k | j <= k < |folds| :: f.start < folds[k].start)
  }
}
