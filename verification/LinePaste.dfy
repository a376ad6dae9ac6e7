/**
 Bracketed paste in linenoise.c: a streaming matcher for the terminator, normalisation of line ends,
 insertion as a fold, and runs of arbitrary edits.
 */
module LinePaste {
  import opened Keys
  import opened Seqs
  import opened LineFolds
  import opened LineEdit

  const ESC := 27
  const CR := 13
  const PASTE_MAX := 1048576  // PASTE_MAX_BYTES

  /** ESC[201~ */
  const END: Text := [27, 91, 50, 48, 49, 126]

  ghost predicate EndsAt(s: Text, k: nat) {
    k + 6 <= |s| && s[k..k + 6] == END
  }

  /** `k` bytes of the terminator have been seen at the end of `s`, and no more than that. */
  ghost predicate Pending(s: Text, k: nat) {
    && k < 6 && k <= |s| && s[|s| - k..] == END[..k]
    && forall j: nat | k < j <= 5 && j <= |s| :: s[|s| - j..] != END[..j]
  }

  ghost predicate NoEnd(s: Text) {
    forall k: nat | k + 6 <= |s| :: !EndsAt(s, k)
  }

  /** The terminator has no proper prefix that is also a suffix of another of its prefixes. */
  lemma NoBorder(s: Text, i: nat, k: nat)
    requires 0 < i < k <= 6 && k <= |s| && s[|s| - k..] == END[..k]
    ensures s[|s| - i..] != END[..i]
  {
    assert s[|s| - i..][0] == s[|s| - k..][k - i] == END[k - i];
  }

  lemma SuffixStep(s: Text, c: byte, j: nat)
    requires 0 < j <= 6 && j <= |s| + 1
    ensures (s + [c])[|s| + 1 - j..] == END[..j] <==> s[|s| - (j - 1)..] == END[..j - 1] && c == END[j - 1]
  {
    assert (s + [c])[|s| + 1 - j..] == s[|s| - (j - 1)..] + [c];
    assert END[..j] == END[..j - 1] + [END[j - 1]];
    if (s + [c])[|s| + 1 - j..] == END[..j] {
      assert (s + [c])[|s| + 1 - j..][..j - 1] == s[|s| - (j - 1)..];
      assert END[..j][..j - 1] == END[..j - 1];
      assert (s + [c])[|s| + 1 - j..][j - 1] == c;
    }
  }

  /** The matcher's next state. */
  function NextMatch(k: nat, c: byte): nat
    requires k < 6
  {
    if c == END[k] then k + 1 else if k > 0 && c == END[0] then 1 else 0
  }

  lemma NotLonger(s: Text, k: nat, c: byte, j: nat)
    requires Pending(s, k) && NextMatch(k, c) < j <= 6 && j <= |s| + 1
    ensures (s + [c])[|s| + 1 - j..] != END[..j]
  {
    SuffixStep(s, c, j);
    if 0 < j - 1 < k {
      NoBorder(s, j - 1, k);
    }
  }

  lemma OldEnds(s: Text, c: byte)
    requires NoEnd(s)
    ensures forall i: nat | i + 6 <= |s| :: !EndsAt(s + [c], i)
  {
    forall i: nat | i + 6 <= |s| ensures !EndsAt(s + [c], i) {
      assert (s + [c])[i..i + 6] == s[i..i + 6];
      assert !EndsAt(s, i);
    }
  }

  lemma StillPending(s: Text, k: nat, c: byte)
    requires Pending(s, k) && NextMatch(k, c) < 6
    ensures Pending(s + [c], NextMatch(k, c))
  {
    var k2, t := NextMatch(k, c), s + [c];
    if k2 > 0 {
      SuffixStep(s, c, k2);
      PrefixLength(s, k, k2);
    }
    forall j: nat | k2 < j <= 5 && j <= |t| ensures t[|t| - j..] != END[..j] {
      NotLonger(s, k, c, j);
    }
  }

  /** A match that goes on or starts anew continues what was pending before. */
  lemma PrefixLength(s: Text, k: nat, k2: nat)
    requires Pending(s, k) && (k2 == k + 1 || k2 == 1)
    ensures k2 <= |s| + 1 && s[|s| - (k2 - 1)..] == END[..k2 - 1]
  {
    assert s[|s|..] == [] == END[..0];
  }

  lemma NotComplete(s: Text, k: nat, c: byte)
    requires Pending(s, k) && NextMatch(k, c) < 6 && |s| >= 5
    ensures !EndsAt(s + [c], |s| - 5)
  {
    NotLonger(s, k, c, 6);
    var t := s + [c];
    assert END[..6] == END && t[|s| - 5..|s| + 1] == t[|t| - 6..];
  }

  lemma Complete(s: Text, k: nat, c: byte)
    requires Pending(s, k) && NextMatch(k, c) == 6
    ensures |s| >= 5 && EndsAt(s + [c], |s| - 5)
  {
    SuffixStep(s, c, 6);
    assert END[..6] == END && (s + [c])[|s| - 5..|s| + 1] == (s + [c])[|s| - 5..];
  }

  /** One more byte: the matcher still knows exactly how much of the terminator may have begun. */
  lemma PendingStep(s: Text, k: nat, c: byte)
    requires Pending(s, k) && NoEnd(s)
    ensures NextMatch(k, c) == 6 ==> |s| >= 5 && EndsAt(s + [c], |s| - 5)
    ensures NextMatch(k, c) < 6 ==> Pending(s + [c], NextMatch(k, c)) && NoEnd(s + [c])
    ensures forall i: nat | i + 6 <= |s| :: !EndsAt(s + [c], i)
  {
    assert k < 6;
    hide Pending, EndsAt, END;
    OldEnds(s, c);
    if NextMatch(k, c) < 6 {
      StillPending(s, k, c);
      if |s| >= 5 { NotComplete(s, k, c); }
      forall i: nat | i + 6 <= |s + [c]| ensures !EndsAt(s + [c], i) {
        assert i + 6 <= |s| || i == |s| - 5;
      }
    } else {
      Complete(s, k, c);
    }
  }

  // ------------------------------------------------------------------ collecting the paste

  /** The temporary buffer and what it may hold. */
  class PasteBuffer {
    const maxlen: nat
    var data: Text
    var overflowed: bool
    ghost var all: Text  // everything that was to be appended

    ghost predicate Valid()
      reads this
    {
      && (overflowed <==> |all| > maxlen)
      && (!overflowed ==> data == all)
    }

    constructor (maxlen: nat)
      ensures Valid() && all == [] && this.maxlen == maxlen
    {
      this.maxlen := maxlen;
      data, overflowed, all := [], false, [];
    }

    /** pasteBufferAppend, which is not called any more after an overflow. */
    method Append(s: Text)
      requires Valid()
      modifies this
      ensures Valid() && all == old(all) + s
    {
      if !overflowed {
        if |data| > maxlen || |s| > maxlen - |data| {
          overflowed := true;
        } else {
          data := data + s;
        }
      }
      all := all + s;
    }
  }

  /** `n` bytes of `stream` were consumed. When the stream holds the terminator, the collected text is
      what comes before its first occurrence; when the stream ends without one, the collected text is
      the stream without a terminator that had begun. */
  ghost predicate Pasted(stream: Text, n: nat, text: Text) {
    n <= |stream|
    && if NoEnd(stream) then n == |stream| && (exists k: nat :: Pending(stream, k) && text == stream[..|stream| - k])
       else n >= 6 && EndsAt(stream, n - 6) && text == stream[..n - 6] && forall k: nat | k < n - 6 :: !EndsAt(stream, k)
  }

  /** The reading loop of linenoiseEditPaste. */
  method Collect(stream: Text, b: PasteBuffer) returns (n: nat)
    requires b.Valid() && b.all == []
    modifies b
    ensures b.Valid() && Pasted(stream, n, b.all)
  {
    hide Pasted, NoEnd, Pending, EndsAt;
    var match_: nat := 0;
    n := 0;
    NothingYet(stream);
    while n < |stream|
      invariant b.Valid() && n <= |stream| && match_ < 6
      invariant Pending(stream[..n], match_) && NoEnd(stream[..n])
      invariant b.all + END[..match_] == stream[..n]
    {
      var c := stream[n];
      ghost var s := stream[..n];
      assert s + [c] == stream[..n + 1];
      PendingStep(s, match_, c);
      n := n + 1;
      if c == END[match_] {
        match_ := match_ + 1;
        if match_ == 6 {
          Found(stream, n, b.all, s, c);
          return;
        }
        assert b.all + END[..match_] == s + [c];
      } else {
        if match_ > 0 {
          b.Append(END[..match_]);
          match_ := 0;
          if c == END[0] {
            match_ := 1;
          }
        }
        if match_ == 0 {
          b.Append([c]);
        }
      }
    }
    RanOut(stream, match_, b.all);
  }

  lemma NothingYet(stream: Text)
    ensures Pending(stream[..0], 0) && NoEnd(stream[..0])
  {
  }

  lemma RanOut(stream: Text, k: nat, all: Text)
    requires Pending(stream[..|stream|], k) && NoEnd(stream[..|stream|]) && k < 6 && all + END[..k] == stream[..|stream|]
    ensures Pasted(stream, |stream|, all)
  {
    assert stream[..|stream|] == stream;
    assert all == stream[..|stream| - k];
  }

  lemma Found(stream: Text, n: nat, all: Text, s: Text, c: byte)
    requires 0 < n <= |stream| && s == stream[..n - 1] && s + [c] == stream[..n] && all + END[..5] == s
    requires |s| >= 5 && EndsAt(s + [c], |s| - 5) && forall i: nat | i + 6 <= |s| :: !EndsAt(s + [c], i)
    ensures Pasted(stream, n, all)
  {
    assert stream[n - 6..n] == stream[..n][n - 6..n];
    assert |all| == n - 6 && all == s[..n - 6];
    var at: nat := n - 6;
    assert EndsAt(stream, at) && at + 6 <= |stream|;
    forall k: nat | k < n - 6 ensures !EndsAt(stream, k) {
      assert stream[k..k + 6] == stream[..n][k..k + 6];
      assert !EndsAt(s + [c], k);
    }
  }

  // ------------------------------------------------------------------ line ends

  /** CRLF and lone CR become LF. */
  function Normalized(s: Text): Text {
    if s == [] then []
    else if s[0] == CR then [LF] + Normalized(if |s| > 1 && s[1] == LF then s[2..] else s[1..])
    else [s[0]] + Normalized(s[1..])
  }

  /** Nothing but line ends changes. */
  lemma {:induction false} NormalizedPlain(s: Text)
    requires CR !in s
    ensures Normalized(s) == s
  {
    if s != [] {
      NormalizedPlain(s[1..]);
    }
  }

  lemma {:induction false} NormalizedNoCR(s: Text)
    ensures CR !in Normalized(s) && |Normalized(s)| <= |s| && (s != [] ==> Normalized(s) != [])
  {
    if s != [] {
      NormalizedNoCR(if s[0] == CR && |s| > 1 && s[1] == LF then s[2..] else s[1..]);
    }
  }

  /** A CRLF becomes one LF, and so does a lone CR. With NormalizedPlain and NormalizedAppend this
      settles every text. */
  lemma NormalizedLineEnds(s: Text)
    ensures Normalized([13, 10] + s) == [10] + Normalized(s)
    ensures Normalized([13]) == [10]
    ensures s != [] && s[0] != 10 ==> Normalized([13] + s) == [10] + Normalized(s)
  {
    assert ([13, 10] + s)[2..] == s && ([13] + s)[1..] == s;
  }

  /** How many CRLFs a text has. */
  function CrLfs(s: Text): nat {
    if |s| < 2 then 0 else (if s[0] == 13 && s[1] == 10 then 1 else 0) + CrLfs(s[1..])
  }

  /** Exactly the CRs of the CRLFs are lost. */
  lemma {:induction false} NormalizedLength(s: Text)
    ensures |Normalized(s)| + CrLfs(s) == |s|
  {
    if s != [] {
      if s[0] == CR && |s| > 1 && s[1] == LF {
        NormalizedLength(s[2..]);
        assert s[1..][1..] == s[2..];
      } else {
        NormalizedLength(s[1..]);
      }
    }
  }

  /** How many bytes the first line end or byte takes. */
  function Head(s: Text): nat
    requires s != []
  {
    if s[0] == CR && |s| > 1 && s[1] == LF then 2 else 1
  }

  lemma NormalizedHead(s: Text)
    requires s != []
    ensures Normalized(s) == [if s[0] == CR then LF else s[0]] + Normalized(s[Head(s)..])
  {
  }

  /** Every line is normalised on its own: a text can be cut anywhere but inside a CRLF. */
  lemma {:induction false} NormalizedAppend(a: Text, b: Text)
    requires a != [] && b != [] ==> !(a[|a| - 1] == CR && b[0] == LF)
    ensures Normalized(a + b) == Normalized(a) + Normalized(b)
  {
    if a == [] {
      assert a + b == b;
    } else if b == [] {
      assert a + b == a;
    } else {
      var k := Head(a);
      assert Head(a + b) == k;
      NormalizedAppend(a[k..], b);
      AppendHead(a, b, k);
    }
  }

  lemma AppendHead(a: Text, b: Text, k: nat)
    requires a != [] && k == Head(a) == Head(a + b) && Normalized(a[k..] + b) == Normalized(a[k..]) + Normalized(b)
    ensures Normalized(a + b) == Normalized(a) + Normalized(b)
  {
    hide Normalized;
    NormalizedHead(a);
    NormalizedHead(a + b);
    assert (a + b)[k..] == a[k..] + b;
    var x := [if a[0] == CR then LF else a[0]];
    assert x + (Normalized(a[k..]) + Normalized(b)) == x + Normalized(a[k..]) + Normalized(b);
  }

  /** One turn of the pass: a byte is written for the byte or line end that was read. */
  method NormalizeOne(buf: array<byte>, r: nat, w: nat) returns (r2: nat)
    requires w <= r < buf.Length
    modifies buf
    ensures r2 == r + Head(old(buf[r..]))
    ensures buf[..w + 1] == old(buf[..w]) + [if old(buf[r]) == CR then LF else old(buf[r])]
    ensures forall k | r < k < buf.Length :: buf[k] == old(buf[k])
  {
    if buf[r] == CR {
      var step := if r + 1 < buf.Length && buf[r + 1] == LF then 2 else 1;
      buf[w] := LF;
      r2 := r + step;
    } else {
      buf[w] := buf[r];
      r2 := r + 1;
    }
  }

  /** The pass over the temporary buffer, with a reading and a writing index. */
  method Normalize(buf: array<byte>) returns (w: nat)
    modifies buf
    ensures w <= buf.Length && buf[..w] == Normalized(old(buf[..]))
    ensures w + CrLfs(old(buf[..])) == buf.Length
  {
    hide Normalized, Head;
    ghost var s := buf[..];
    var r: nat := 0;
    w := 0;
    assert s[0..] == s && buf[..0] + Normalized(s) == Normalized(s);
    while r < buf.Length
      invariant w <= r <= buf.Length
      invariant forall k | r <= k < buf.Length :: buf[k] == s[k]
      invariant buf[..w] + Normalized(s[r..]) == Normalized(s)
    {
      ghost var done, at := buf[..w], r;
      assert buf[r..] == s[r..];
      NormalizedFrom(s, r);
      r := NormalizeOne(buf, r, w);
      w := w + 1;
      Assoc(done, [if s[at] == CR then LF else s[at]], Normalized(s[r..]));
    }
    NothingLeft(s);
    NormalizedLength(s);
  }

  lemma NormalizedFrom(s: Text, r: nat)
    requires r < |s|
    ensures var k := Head(s[r..]);
            && r < r + k <= |s|
            && Normalized(s[r..]) == [if s[r] == CR then LF else s[r]] + Normalized(s[r + k..])
  {
    var k := Head(s[r..]);
    NormalizedHead(s[r..]);
    assert s[r..][k..] == s[r + k..];
  }

  lemma NothingLeft(s: Text)
    ensures Normalized(s[|s|..]) == [] && forall a: Text :: a + [] == a
  {
  }

  // ------------------------------------------------------------------ linenoiseEditPaste

  /** How many bytes a paste may have. */
  function Room(l: Line): nat
    reads l, l.folds
  {
    var max := if l.buflenMax != 0 then l.buflenMax else l.buflen;
    var room := if max > |l.buf| then max - |l.buf| else 0;
    if l.folds.count == MAX_FOLDS then 0 else if room > PASTE_MAX then PASTE_MAX else room
  }

  /** The text goes in at the cursor; it is folded when it is long or has several lines. */
  ghost predicate PasteShown(mask: bool, was: seq<Fold>, now: seq<Fold>, pos: nat, text: Text) {
    var after := After(was, pos, 0, |text|);
    if !mask && ShouldFold(text) then OneMore(after, now, Fold(pos, pos + |text|)) else now == after
  }

  ghost predicate OneMore(was: seq<Fold>, now: seq<Fold>, f: Fold) {
    exists j | 0 <= j <= |was| :: InsertedAt(was, now, j, f)
  }

  /** The second half of linenoiseEditPaste: `text` is not empty and fits. */
  method InsertPaste(l: Line, text: Text)
    requires l.Valid() && text != [] && l.folds.count < MAX_FOLDS
    requires |l.buf| + |text| <= (if l.buflenMax != 0 then l.buflenMax else l.buflen)
    modifies l`buf, l`pos, l`buflen, l.folds`count, l.folds.start, l.folds.end
    ensures l.Valid() && l.buf == Splice(old(l.buf), old(l.pos), 0, text) && l.pos == old(l.pos) + |text|
    ensures PasteShown(l.mask, old(l.folds.Contents()), l.folds.Contents(), old(l.pos), text)
    ensures Grown(l.buflenMax, old(l.buflen), |old(l.buf)| + |text|, l.buflen)
  {
    hide FoldsOk, StepsOk, After, Texts, Survivors, ShouldFold, Splice;
    if !l.mask && ShouldFold(text) {
      var start := l.pos;
      ghost var was, n := l.folds.Contents(), |l.buf|;
      var ok := l.InsertNoRefresh(text);
      AfterOk(was, n, start, 0, |text|);
      ClearOf(was, n, start, |text|);
      l.AddFold(start, start + |text|);
    } else {
      var ok := l.InsertNoRefresh(text);
    }
  }

  /** No fold that is left after an insertion meets the inserted range. */
  lemma ClearOf(folds: seq<Fold>, n: nat, pos: nat, len: nat)
    requires FoldsOk(folds, n) && pos <= n
    ensures forall f | f in After(folds, pos, 0, len) :: f.end <= pos || pos + len <= f.start
  {
    var after := After(folds, pos, 0, len);
    forall f | f in after ensures f.end <= pos || pos + len <= f.start {
      var k :| 0 <= k < |after| && after[k] == f;
      var i := AfterFrom(folds, pos, 0, len, k);
    }
  }

  /** linenoiseEditPaste on what the terminal delivers. A paste that does not fit, or that comes when
      all fold slots are in use, is consumed and dropped. */
  method EditPaste(l: Line, stream: Text) returns (n: nat, ghost text: Text)
    requires l.Valid()
    modifies l`buf, l`pos, l`buflen, l.folds`count, l.folds.start, l.folds.end
    ensures l.Valid() && Pasted(stream, n, text)
    ensures if text == [] || old(l.folds.count) == 16 || |text| > 1048576
               || |old(l.buf)| + |text| > (if l.buflenMax != 0 then l.buflenMax else old(l.buflen))
            then
              && l.buf == old(l.buf) && l.pos == old(l.pos) && l.buflen == old(l.buflen)
              && l.folds.Contents() == old(l.folds.Contents())
            else
              && l.buf == Splice(old(l.buf), old(l.pos), 0, Normalized(text)) && l.pos == old(l.pos) + |Normalized(text)|
              && PasteShown(l.mask, old(l.folds.Contents()), l.folds.Contents(), old(l.pos), Normalized(text))
              && Grown(l.buflenMax, old(l.buflen), |old(l.buf)| + |Normalized(text)|, l.buflen)
  {
    hide PasteShown, FoldsOk, StepsOk, Texts;
    var b := new PasteBuffer(Room(l));
    n := Collect(stream, b);
    text := b.all;
    if b.overflowed || |b.data| == 0 { return; }
    var buf := new byte[|b.data|](i requires 0 <= i < |b.data| reads b => b.data[i]);
    assert buf[..] == text;
    var w := Normalize(buf);
    NormalizedNoCR(text);
    InsertPaste(l, buf[..w]);
  }
}
