/**
 What the user sees of an edited line in linenoise.c: the text with every fold replaced by a
 marker, and the cursor translated to it.
 */
module LineRender {
  import opened Keys
  import opened LineFolds
  import opened LineEdit

  // ------------------------------------------------------------------ markers

  function Ascii(s: string): Text
    requires forall i | 0 <= i < |s| :: s[i] as int < 256
  {
    seq(|s|, i requires 0 <= i < |s| => var b: byte := s[i] as int; b)
  }

  /** foldCountLines. */
  function Lines(s: Text): nat {
    if s == [] then 1 else Lines(s[..|s| - 1]) + if s[|s| - 1] == LF then 1 else 0
  }

  /** foldSetRenderedText. */
  function Marker(f: Fold, buf: Text): Text
    requires f.start <= f.end <= |buf|
  {
    var lines := Lines(buf[f.start..f.end]);
    if lines > 1 then Ascii("[... ") + Ascii(Decimal(lines)) + Ascii(" pasted lines ...]")
    else Ascii("[... ") + Ascii(Decimal(f.end - f.start)) + Ascii(" pasted chars ...]")
  }

  /** One line more than there are line feeds. */
  lemma {:induction false} LinesCount(s: Text)
    ensures Lines(s) == 1 + multiset(s)[10]
  {
    if s != [] {
      var n := |s| - 1;
      LinesCount(s[..n]);
      assert s == s[..n] + [s[n]];
    }
  }

  lemma AsciiAppend(a: string, b: string)
    requires forall i | 0 <= i < |a| :: a[i] as int < 256
    requires forall i | 0 <= i < |b| :: b[i] as int < 256
    ensures (forall i | 0 <= i < |a + b| :: (a + b)[i] as int < 256) && Ascii(a + b) == Ascii(a) + Ascii(b)
  {
  }

  /** A marker names the lines that are hidden, or the bytes of a single line. */
  lemma MarkerText(f: Fold, buf: Text)
    requires f.start <= f.end <= |buf|
    ensures var hidden := buf[f.start..f.end];
            var text := if 10 in hidden then "[... " + Decimal(1 + multiset(hidden)[10]) + " pasted lines ...]"
                        else "[... " + Decimal(|hidden|) + " pasted chars ...]";
            |text| == |Marker(f, buf)| && forall i | 0 <= i < |text| :: Marker(f, buf)[i] == text[i] as int
  {
    LinesCount(buf[f.start..f.end]);
    hide Lines;
  }

  // ------------------------------------------------------------------ the rendered text

  /** Folds in order from `src` on. */
  ghost predicate From(folds: seq<Fold>, src: nat, n: nat) {
    if folds == [] then src <= n
    else src <= folds[0].start < folds[0].end <= n && From(folds[1..], folds[0].end, n)
  }

  /** The text from `src` on, with markers in the place of folds. */
  function Rendered(buf: Text, folds: seq<Fold>, src: nat): Text
    requires From(folds, src, |buf|)
  {
    if folds == [] then buf[src..]
    else buf[src..folds[0].start] + (Marker(folds[0], buf) + Rendered(buf, folds[1..], folds[0].end))
  }

  /** Where the cursor `pos` is in the rendered text: where it was relative to the text around it, and
      behind the marker when it is inside a fold. */
  function Translate(buf: Text, folds: seq<Fold>, src: nat, pos: nat): nat
    requires From(folds, src, |buf|) && src <= pos <= |buf|
  {
    if folds == [] || pos <= folds[0].start then pos - src
    else
      var before := folds[0].start - src + |Marker(folds[0], buf)|;
      if pos <= folds[0].end then before else before + Translate(buf, folds[1..], folds[0].end, pos)
  }

  lemma {:induction false} OkFrom(folds: seq<Fold>, src: nat, n: nat)
    requires FoldsOk(folds, n) && src <= n && (folds != [] ==> src <= folds[0].start)
    ensures From(folds, src, n)
  {
    if folds != [] {
      OkFrom(folds[1..], folds[0].end, n);
    }
  }

  lemma {:induction false} TranslateBounds(buf: Text, folds: seq<Fold>, src: nat, pos: nat)
    requires From(folds, src, |buf|) && src <= pos <= |buf|
    ensures Translate(buf, folds, src, pos) <= |Rendered(buf, folds, src)|
    ensures pos == |buf| ==> Translate(buf, folds, src, pos) == |Rendered(buf, folds, src)|
  {
    if folds != [] && pos > folds[0].end {
      TranslateBounds(buf, folds[1..], folds[0].end, pos);
    }
  }

  lemma {:induction false} TranslateMonotone(buf: Text, folds: seq<Fold>, src: nat, p: nat, q: nat)
    requires From(folds, src, |buf|) && src <= p <= q <= |buf|
    ensures Translate(buf, folds, src, p) <= Translate(buf, folds, src, q)
  {
    if folds != [] && p > folds[0].end {
      TranslateMonotone(buf, folds[1..], folds[0].end, p, q);
    }
  }

  /** The folds that lie before `pos`. */
  function Before(folds: seq<Fold>, pos: nat): seq<Fold> {
    if folds == [] || pos < folds[0].end then [] else [folds[0]] + Before(folds[1..], pos)
  }

  ghost predicate Outside(folds: seq<Fold>, pos: nat) {
    forall f | f in folds :: pos <= f.start || f.end <= pos
  }

  lemma MarkerPrefix(f: Fold, buf: Text, pos: nat)
    requires f.start <= f.end <= pos <= |buf|
    ensures Marker(f, buf[..pos]) == Marker(f, buf)
  {
    assert buf[..pos][f.start..f.end] == buf[f.start..f.end];
  }

  /** Outside folds the translation is exact: what is displayed before the cursor is the rendering of
      the text before the cursor. */
  lemma {:induction false} TranslateExact(buf: Text, folds: seq<Fold>, src: nat, pos: nat)
    requires From(folds, src, |buf|) && src <= pos <= |buf| && Outside(folds, pos)
    ensures From(Before(folds, pos), src, pos)
    ensures Translate(buf, folds, src, pos) <= |Rendered(buf, folds, src)|
    ensures Rendered(buf, folds, src)[..Translate(buf, folds, src, pos)] == Rendered(buf[..pos], Before(folds, pos), src)
  {
    hide Marker;
    TranslateBounds(buf, folds, src, pos);
    if folds == [] {
      assert buf[src..][..pos - src] == buf[..pos][src..];
    } else {
      var f := folds[0];
      assert f in folds;
      if pos <= f.start {
        assert Rendered(buf, folds, src)[..pos - src] == buf[src..f.start][..pos - src] == buf[..pos][src..];
      } else {
        assert Outside(folds[1..], pos) by {
          forall g | g in folds[1..] ensures pos <= g.start || g.end <= pos { assert g in folds; }
        }
        TranslateExact(buf, folds[1..], f.end, pos);
        MarkerPrefix(f, buf, pos);
        TranslateStart(buf, folds[1..], f.end);
        assert Before(folds, pos)[1..] == Before(folds[1..], pos);
        assert buf[..pos][src..f.start] == buf[src..f.start];
        PrefixOf3(buf[src..f.start], Marker(f, buf), Rendered(buf, folds[1..], f.end), Translate(buf, folds[1..], f.end, pos));
      }
    }
  }

  lemma TranslateStart(buf: Text, folds: seq<Fold>, src: nat)
    requires From(folds, src, |buf|)
    ensures Translate(buf, folds, src, src) == 0
  {
  }

  lemma PrefixOf3<T>(a: seq<T>, b: seq<T>, c: seq<T>, k: nat)
    requires k <= |c|
    ensures (a + (b + c))[..|a| + |b| + k] == a + (b + c[..k])
  {
  }

  lemma {:induction false} FoldsLater(folds: seq<Fold>, src: nat, n: nat, k: nat)
    requires From(folds, src, n) && k < |folds|
    ensures src <= folds[k].start < folds[k].end <= n
  {
    if k > 0 {
      FoldsLater(folds[1..], folds[0].end, n, k - 1);
    }
  }

  /** A cursor inside a fold is shown behind the fold's marker, and the marker is what is displayed
      between the two ends of the fold. */
  lemma {:induction false} TranslateFold(buf: Text, folds: seq<Fold>, src: nat, k: nat, pos: nat)
    requires From(folds, src, |buf|) && k < |folds| && folds[k].start < pos <= folds[k].end
    ensures src <= folds[k].start < folds[k].end <= |buf|
    ensures var a, b := Translate(buf, folds, src, folds[k].start), Translate(buf, folds, src, pos);
            && b == Translate(buf, folds, src, folds[k].end) && a <= b <= |Rendered(buf, folds, src)|
            && Rendered(buf, folds, src)[a..b] == Marker(folds[k], buf)
  {
    hide Marker;
    FoldsLater(folds, src, |buf|, k);
    var f := folds[0];
    var gap, marker := buf[src..f.start], Marker(f, buf);
    if k == 0 {
      MiddleOf3(gap, marker, Rendered(buf, folds[1..], f.end));
    } else {
      var rest := Rendered(buf, folds[1..], f.end);
      FoldsLater(folds[1..], f.end, |buf|, k - 1);
      TranslateFold(buf, folds[1..], f.end, k - 1, pos);
      TranslateFrom(buf, folds, src, folds[k].start);
      LaterOf3(gap, marker, rest, Translate(buf, folds[1..], f.end, folds[k].start), Translate(buf, folds[1..], f.end, pos));
    }
  }

  /** Behind the first fold. */
  lemma TranslateFrom(buf: Text, folds: seq<Fold>, src: nat, pos: nat)
    requires From(folds, src, |buf|) && folds != [] && folds[0].end <= pos <= |buf|
    ensures Translate(buf, folds, src, pos)
         == folds[0].start - src + |Marker(folds[0], buf)| + Translate(buf, folds[1..], folds[0].end, pos)
  {
    TranslateStart(buf, folds[1..], folds[0].end);
  }

  lemma MiddleOf3<T>(a: seq<T>, b: seq<T>, c: seq<T>)
    ensures (a + (b + c))[|a|..|a| + |b|] == b
  {
  }

  lemma LaterOf3<T>(a: seq<T>, b: seq<T>, c: seq<T>, i: nat, j: nat)
    requires i <= j <= |c|
    ensures (a + (b + c))[|a| + |b| + i..|a| + |b| + j] == c[i..j]
  {
  }

  // ------------------------------------------------------------------ linenoiseRenderBuffer

  lemma RenderStep(buf: Text, folds: seq<Fold>, j: nat, src: nat)
    requires j < |folds| && From(folds[j..], src, |buf|)
    ensures src <= folds[j].start < folds[j].end <= |buf| && From(folds[j + 1..], folds[j].end, |buf|)
    ensures Rendered(buf, folds[j..], src)
         == buf[src..folds[j].start] + Marker(folds[j], buf) + Rendered(buf, folds[j + 1..], folds[j].end)
  {
    hide Marker;
    assert folds[j..][1..] == folds[j + 1..] && folds[j..][0] == folds[j];
    assert buf[src..folds[j].start] + (Marker(folds[j], buf) + Rendered(buf, folds[j + 1..], folds[j].end))
        == buf[src..folds[j].start] + Marker(folds[j], buf) + Rendered(buf, folds[j + 1..], folds[j].end);
  }

  /** The length computed up front. */
  method RenderedLength(buf: Text, fs: seq<Fold>) returns (len: nat)
    requires From(fs, 0, |buf|)
    ensures len == |Rendered(buf, fs, 0)|
  {
    hide Marker, Rendered, From;
    len := |buf|;
    assert fs[0..] == fs;
    ghost var src: nat, done: nat := 0, 0;
    FromBound(fs, 0, |buf|);
    for j := 0 to |fs|
      invariant src <= |buf| && From(fs[j..], src, |buf|) && len == done + (|buf| - src)
      invariant done + |Rendered(buf, fs[j..], src)| == |Rendered(buf, fs, 0)|
    {
      RenderStep(buf, fs, j, src);
      done := done + (fs[j].start - src) + |Marker(fs[j], buf)|;
      len := len - (fs[j].end - fs[j].start);
      len := len + |Marker(fs[j], buf)|;
      src := fs[j].end;
    }
    RenderEnd(buf, fs, src);
  }

  lemma RenderEnd(buf: Text, fs: seq<Fold>, src: nat)
    requires From(fs[|fs|..], src, |buf|)
    ensures Rendered(buf, fs[|fs|..], src) == buf[src..]
    ensures forall pos: nat | src <= pos <= |buf| :: Translate(buf, fs[|fs|..], src, pos) == pos - src
  {
  }

  lemma FromBound(folds: seq<Fold>, src: nat, n: nat)
    requires From(folds, src, n)
    ensures src <= n
  {
  }

  /** memcpy. */
  method Copy(r: array<byte>, dst: nat, s: Text)
    requires dst + |s| <= r.Length
    modifies r
    ensures r[..dst + |s|] == old(r[..dst]) + s
  {
    forall i | 0 <= i < |s| {
      r[dst + i] := s[i];
    }
  }

  /** linenoiseRenderBuffer. */
  method RenderBuffer(l: Line) returns (r: array<byte>, pos: nat)
    requires l.Valid()
    ensures fresh(r)
    ensures var fs := RenderFolds(l.folds.Contents(), |l.buf|, l.mask);
            From(fs, 0, |l.buf|) && r[..] == Rendered(l.buf, fs, 0) && pos == Translate(l.buf, fs, 0, l.pos)
  {
    var fs := RenderFolds(l.folds.Contents(), |l.buf|, l.mask);
    ShownAll(l.folds.Contents(), |l.buf|);
    OkFrom(fs, 0, |l.buf|);
    r, pos := Render(l.buf, fs, l.pos);
  }

  lemma TranslateStep(buf: Text, folds: seq<Fold>, j: nat, src: nat, pos: nat)
    requires j < |folds| && From(folds[j..], src, |buf|) && src <= pos <= |buf|
    ensures src <= folds[j].start < folds[j].end <= |buf| && From(folds[j + 1..], folds[j].end, |buf|)
    ensures Translate(buf, folds[j..], src, pos)
         == if pos <= folds[j].start then pos - src
            else if pos <= folds[j].end then folds[j].start - src + |Marker(folds[j], buf)|
            else folds[j].start - src + |Marker(folds[j], buf)| + Translate(buf, folds[j + 1..], folds[j].end, pos)
  {
    hide Marker;
    assert folds[j..][1..] == folds[j + 1..] && folds[j..][0] == folds[j];
  }

  /** Copy the text before a fold and the fold's marker; `pos` is set when the cursor is in that part. */
  method Part(r: array<byte>, buf: Text, gap: Text, marker: Text, src: nat, f: Fold, cursor: nat, dst: nat, posSet: bool, pos: nat)
    returns (dst2: nat, posSet2: bool, pos2: nat)
    requires src <= f.start < f.end <= |buf| && gap == buf[src..f.start] && dst + |gap| + |marker| <= r.Length
    requires !posSet ==> src <= cursor
    modifies r
    ensures dst2 == dst + |gap| + |marker| && r[..dst2] == old(r[..dst]) + gap + marker
    ensures posSet2 <==> posSet || cursor <= f.end
    ensures pos2 == if posSet || cursor > f.end then pos
                    else if cursor <= f.start then dst + (cursor - src) else dst + |gap| + |marker|
  {
    dst2, posSet2, pos2 := dst, posSet, pos;
    if !posSet2 && cursor <= f.start {
      pos2 := dst2 + (cursor - src);
      posSet2 := true;
    }
    Copy(r, dst2, gap);
    dst2 := dst2 + |gap|;
    if !posSet2 && cursor < f.end {
      pos2 := dst2 + |marker|;
      posSet2 := true;
    }
    Copy(r, dst2, marker);
    dst2 := dst2 + |marker|;
    if !posSet2 && cursor == f.end {
      pos2 := dst2;
      posSet2 := true;
    }
  }

  method Render(buf: Text, fs: seq<Fold>, cursor: nat) returns (r: array<byte>, pos: nat)
    requires From(fs, 0, |buf|) && cursor <= |buf|
    ensures fresh(r) && r[..] == Rendered(buf, fs, 0) && pos == Translate(buf, fs, 0, cursor)
  {
    if |fs| == 0 {
      r := new byte[|buf|](i requires 0 <= i < |buf| => buf[i]);
      return r, cursor;
    }
    var len := RenderedLength(buf, fs);
    r := new byte[len];
    pos := Fill(r, buf, fs, cursor);
  }

  /** The copying loop. */
  method Fill(r: array<byte>, buf: Text, fs: seq<Fold>, cursor: nat) returns (pos: nat)
    requires From(fs, 0, |buf|) && cursor <= |buf| && r.Length == |Rendered(buf, fs, 0)|
    modifies r
    ensures r[..] == Rendered(buf, fs, 0) && pos == Translate(buf, fs, 0, cursor)
  {
    hide Marker, Rendered, From, Translate;
    var src: nat, dst: nat, posSet := 0, 0, false;
    pos := 0;
    ghost var out: Text := [];
    assert fs[0..] == fs && out + Rendered(buf, fs, 0) == Rendered(buf, fs, 0);
    for j := 0 to |fs|
      invariant src <= |buf| && From(fs[j..], src, |buf|) && dst == |out| <= r.Length && r[..dst] == out
      invariant out + Rendered(buf, fs[j..], src) == Rendered(buf, fs, 0)
      invariant !posSet ==> src <= cursor
      invariant (if posSet then pos else dst + Translate(buf, fs[j..], src, cursor)) == Translate(buf, fs, 0, cursor)
    {
      var f := fs[j];
      var gap, marker := RenderPieces(buf, fs, j, src);
      if !posSet { TranslateStep(buf, fs, j, src, cursor); }
      ghost var rest := Rendered(buf, fs[j + 1..], f.end);
      Shuffle(out, gap, marker, rest);
      assert |out + gap + marker + rest| == r.Length;
      dst, posSet, pos := Part(r, buf, gap, marker, src, f, cursor, dst, posSet, pos);
      out, src := out + gap + marker, f.end;
    }
    RenderEnd(buf, fs, src);
    if !posSet { pos := dst + (cursor - src); }
    assert r.Length == |out| + |buf[src..]|;
    Copy(r, dst, buf[src..]);
    assert r[..] == r[..r.Length];
  }

  method RenderPieces(buf: Text, fs: seq<Fold>, j: nat, src: nat) returns (gap: Text, marker: Text)
    requires j < |fs| && From(fs[j..], src, |buf|)
    ensures src <= fs[j].start < fs[j].end <= |buf| && From(fs[j + 1..], fs[j].end, |buf|)
    ensures gap == buf[src..fs[j].start] && marker == Marker(fs[j], buf)
    ensures Rendered(buf, fs[j..], src) == gap + marker + Rendered(buf, fs[j + 1..], fs[j].end)
  {
    RenderStep(buf, fs, j, src);
    gap, marker := buf[src..fs[j].start], Marker(fs[j], buf);
  }

  lemma Shuffle<T>(a: seq<T>, b: seq<T>, c: seq<T>, d: seq<T>)
    ensures a + b + c + d == a + (b + c + d)
  {
  }
}
