/**
 The streaming filter of ds4_cli.c: `<think>` and `</think>` are taken out of generated text and
 turned into colour changes, however the text is cut into pieces.
 */
module ThinkFilter {
  import opened Keys
  import opened Seqs

  const OPEN: Text := [60, 116, 104, 105, 110, 107, 62]       // <think>
  const CLOSE: Text := [60, 47, 116, 104, 105, 110, 107, 62]  // </think>
  const LT := 60
  const PENDING_MAX := 16                                     // sizeof(pending)
  const GREY: Text := [27, 91, 57, 48, 109]                   // ESC[90m
  const RESET: Text := [27, 91, 48, 109]                      // ESC[0m

  /** What has been written so far, and what decides about the next byte. */
  datatype Screen = Screen(inThink: bool, colorOpen: bool, newline: bool, out: Text)

  // ------------------------------------------------------------------ the filter as a function of the text

  function SetGrey(useColor: bool, s: Screen): Screen {
    if useColor && !s.colorOpen then s.(out := s.out + GREY, colorOpen := true) else s
  }

  function ResetColor(useColor: bool, s: Screen): Screen {
    if useColor && s.colorOpen then s.(out := s.out + RESET, colorOpen := false) else s
  }

  function WriteChar(useColor: bool, s: Screen, c: byte): Screen {
    var s2 := if s.inThink then SetGrey(useColor, s) else s;
    s2.(out := s2.out + [c], newline := c == LF)
  }

  function CloseThink(useColor: bool, s: Screen): Screen {
    var s2 := ResetColor(useColor, s.(inThink := false));
    if s2.newline then s2 else s2.(out := s2.out + [LF], newline := true)
  }

  /** The text could be the beginning of a tag. */
  predicate Partial(text: Text) {
    text != [] && text[0] == LT && (text < OPEN || text < CLOSE)
  }

  /** All of `text` is dealt with, except that a possible beginning of a tag at its end is held back
      unless this is the end of the stream. */
  function Filter(useColor: bool, s: Screen, text: Text, finish: bool): (Screen, Text)
    decreases |text|
  {
    if text == [] then (s, [])
    else if OPEN <= text then Filter(useColor, s.(inThink := true), text[7..], finish)
    else if CLOSE <= text then Filter(useColor, CloseThink(useColor, s), text[8..], finish)
    else if !finish && Partial(text) then (s, text)
    else Filter(useColor, WriteChar(useColor, s, text[0]), text[1..], finish)
  }

  /** What is held back is shorter than a tag, so it fits the 16-byte buffer. */
  lemma {:induction false} HeldBack(useColor: bool, s: Screen, text: Text, finish: bool)
    decreases |text|
    ensures var p := Filter(useColor, s, text, finish).1; (p == [] || (!finish && Partial(p))) && |p| < |CLOSE| < PENDING_MAX
  {
    if text == [] {
    } else if OPEN <= text {
      HeldBack(useColor, s.(inThink := true), text[7..], finish);
    } else if CLOSE <= text {
      HeldBack(useColor, CloseThink(useColor, s), text[8..], finish);
    } else if finish || !Partial(text) {
      HeldBack(useColor, WriteChar(useColor, s, text[0]), text[1..], finish);
    }
  }

  lemma PrefixOfSum(tag: Text, a: Text, b: Text)
    requires tag <= a + b && !(tag <= a)
    ensures a < tag
  {
    assert forall i | 0 <= i < |a| && i < |tag| :: a[i] == (a + b)[i] == tag[i];
  }

  /** A text that cannot be the beginning of a tag does not become one by going on. */
  lemma Decided(a: Text, b: Text)
    requires a != [] && !(OPEN <= a) && !(CLOSE <= a) && !Partial(a)
    ensures !(OPEN <= a + b) && !(CLOSE <= a + b) && !Partial(a + b)
  {
    assert a <= a + b;
    if OPEN <= a + b {
      PrefixOfSum(OPEN, a, b);
    }
    if CLOSE <= a + b {
      PrefixOfSum(CLOSE, a, b);
    }
  }

  /** Filtering in two steps is filtering at once. */
  lemma {:induction false} FilterSplit(useColor: bool, s: Screen, a: Text, b: Text, finish: bool)
    ensures Filter(useColor, s, a + b, finish)
         == var (s1, p) := Filter(useColor, s, a, false); Filter(useColor, s1, p + b, finish)
    decreases |a|
  {
    if a == [] {
      assert a + b == b && [] + b == b;
    } else if OPEN <= a {
      assert OPEN <= a + b && (a + b)[7..] == a[7..] + b;
      FilterSplit(useColor, s.(inThink := true), a[7..], b, finish);
    } else if CLOSE <= a {
      assert CLOSE <= a + b && (a + b)[8..] == a[8..] + b;
      assert !(OPEN <= a + b) by { assert (a + b)[1] == CLOSE[1]; }
      FilterSplit(useColor, CloseThink(useColor, s), a[8..], b, finish);
    } else if !Partial(a) {
      Decided(a, b);
      assert (a + b)[1..] == a[1..] + b && (a + b)[0] == a[0];
      FilterSplit(useColor, WriteChar(useColor, s, a[0]), a[1..], b, finish);
    }
  }

  // ------------------------------------------------------------------ the token printer

  class TokenPrinter {
    const formatThinking: bool
    const useColor: bool
    var inThink: bool
    var colorOpen: bool
    var newline: bool  // last_output_newline
    var out: Text      // what went to fp
    var pending: Text  // pending[..pending_len]

    ghost predicate Valid()
      reads this
    {
      |pending| < PENDING_MAX
    }

    function State(): Screen
      reads this
    {
      Screen(inThink, colorOpen, newline, out)
    }

    constructor (formatThinking: bool, useColor: bool, inThink: bool, newline: bool)
      ensures Valid() && State() == Screen(inThink, false, newline, []) && pending == []
      ensures this.formatThinking == formatThinking && this.useColor == useColor
    {
      this.formatThinking, this.useColor, this.inThink, this.newline := formatThinking, useColor, inThink, newline;
      colorOpen, out, pending := false, [], [];
    }

    method SetGreyColor()
      modifies this`out, this`colorOpen
      ensures State() == SetGrey(useColor, old(State()))
    {
      if useColor && !colorOpen {
        out := out + GREY;
        colorOpen := true;
      }
    }

    method ResetToPlain()
      modifies this`out, this`colorOpen
      ensures State() == ResetColor(useColor, old(State()))
    {
      if useColor && colorOpen {
        out := out + RESET;
        colorOpen := false;
      }
    }

    method Write(c: byte)
      modifies this`out, this`colorOpen, this`newline
      ensures State() == WriteChar(useColor, old(State()), c)
    {
      if inThink { SetGreyColor(); }
      out := out + [c];
      newline := c == LF;
    }

    /** token_printer_process. */
    method Process(text: Text, finish: bool)
      requires Valid()
      modifies this
      ensures Valid()
      ensures (State(), pending) == Filter(useColor, old(State()), old(pending) + text, finish)
    {
      var buf := pending + text;
      pending := [];
      ghost var s0 := State();
      HeldBack(useColor, s0, buf, finish);
      var i := 0;
      assert buf[0..] == buf;
      while i < |buf|
        invariant i <= |buf| && pending == []
        invariant Filter(useColor, State(), buf[i..], finish) == Filter(useColor, s0, buf, finish)
      {
        var cur := buf[i..];
        if OPEN <= cur {
          inThink := true;
          i := i + 7;
          assert cur[7..] == buf[i..];
          continue;
        }
        if CLOSE <= cur {
          inThink := false;
          ResetToPlain();
          if !newline {
            out := out + [LF];
            newline := true;
          }
          i := i + 8;
          assert cur[8..] == buf[i..];
          continue;
        }
        if !finish && cur[0] == LT && (cur < OPEN || cur < CLOSE) {
          if |cur| < PENDING_MAX {
            pending := cur;
          }
          return;
        }
        Write(cur[0]);
        i := i + 1;
        assert cur[1..] == buf[i..];
      }
    }

    /** token_printer_finish. */
    method Finish()
      requires Valid()
      modifies this
      ensures Valid()
      ensures if formatThinking
              then pending == [] && State() == ResetColor(useColor, Filter(useColor, old(State()), old(pending), true).0)
              else State() == old(State()) && pending == old(pending)
    {
      if formatThinking {
        assert pending + [] == pending;
        HeldBack(useColor, State(), pending, true);
        Process([], true);
        ResetToPlain();
      }
    }
  }

  /** A stream that arrives in pieces. Whatever the pieces are, everything that is written and the
      state at the end are those of one pass over the whole text. */
  method PrintChunks(p: TokenPrinter, chunks: seq<Text>)
    requires p.Valid() && p.pending == [] && p.formatThinking
    modifies p
    ensures p.Valid() && p.pending == []
    ensures p.State() == ResetColor(p.useColor, Filter(p.useColor, old(p.State()), Concat(chunks), true).0)
  {
    ghost var s0 := p.State();
    for i := 0 to |chunks|
      invariant p.Valid() && (p.State(), p.pending) == Filter(p.useColor, s0, Concat(chunks[..i]), false)
    {
      assert chunks[..i + 1][..i] == chunks[..i];
      FilterSplit(p.useColor, s0, Concat(chunks[..i]), chunks[i], false);
      p.Process(chunks[i], false);
    }
    assert chunks[..|chunks|] == chunks;
    FilterSplit(p.useColor, s0, Concat(chunks), [], true);
    assert Concat(chunks) + [] == Concat(chunks) && p.pending + [] == p.pending;
    p.Finish();
  }

  /** The filter called once for every piece. */
  function FilterChunks(useColor: bool, s: Screen, chunks: seq<Text>): (Screen, Text) {
    if chunks == [] then (s, [])
    else
      var (s1, p) := FilterChunks(useColor, s, chunks[..|chunks| - 1]);
      Filter(useColor, s1, p + chunks[|chunks| - 1], false)
  }

  lemma {:induction false} ChunksAtOnce(useColor: bool, s: Screen, chunks: seq<Text>, b: Text, finish: bool)
    ensures Filter(useColor, s, Concat(chunks) + b, finish)
         == var (s1, p) := FilterChunks(useColor, s, chunks); Filter(useColor, s1, p + b, finish)
    decreases |chunks|
  {
    if chunks != [] {
      var n := |chunks| - 1;
      var (s1, p) := FilterChunks(useColor, s, chunks[..n]);
      ChunksAtOnce(useColor, s, chunks[..n], chunks[n] + b, finish);
      assert Concat(chunks) + b == Concat(chunks[..n]) + (chunks[n] + b);
      assert p + (chunks[n] + b) == p + chunks[n] + b;
      FilterSplit(useColor, s1, p + chunks[n], b, finish);
    }
  }

  /** Any two ways of cutting a text give the same output and the same final state. */
  lemma ChunksIrrelevant(useColor: bool, s: Screen, chunks: seq<Text>, chunks2: seq<Text>)
    requires Concat(chunks) == Concat(chunks2)
    ensures var (s1, p1), (s2, p2) := FilterChunks(useColor, s, chunks), FilterChunks(useColor, s, chunks2);
            Filter(useColor, s1, p1, true) == Filter(useColor, s2, p2, true)
  {
    var (s1, p1) := FilterChunks(useColor, s, chunks);
    var (s2, p2) := FilterChunks(useColor, s, chunks2);
    ChunksAtOnce(useColor, s, chunks, [], true);
    ChunksAtOnce(useColor, s, chunks2, [], true);
    assert p1 + [] == p1 && p2 + [] == p2;
  }

  // ------------------------------------------------------------------ what is written

  /** The text without its tags, with a line end after a closing tag unless there is one before it. */
  function Plain(newline: bool, text: Text): Text
    decreases |text|
  {
    if text == [] then []
    else if OPEN <= text then Plain(newline, text[7..])
    else if CLOSE <= text then (if newline then [] else [LF]) + Plain(true, text[8..])
    else [text[0]] + Plain(text[0] == LF, text[1..])
  }

  /** Without colour the filter writes just that. */
  lemma {:induction false} WritesPlain(s: Screen, text: Text)
    ensures Filter(false, s, text, true).0.out == s.out + Plain(s.newline, text)
    decreases |text|
  {
    if text == [] {
    } else if OPEN <= text {
      WritesPlain(s.(inThink := true), text[7..]);
    } else if CLOSE <= text {
      WritesPlain(CloseThink(false, s), text[8..]);
      Assoc(s.out, if s.newline then [] else [LF], Plain(true, text[8..]));
    } else {
      WritesPlain(WriteChar(false, s, text[0]), text[1..]);
      Assoc(s.out, [text[0]], Plain(text[0] == LF, text[1..]));
    }
  }

  /** The tags disappear, and a closing one leaves a line end unless there is one. */
  lemma PlainTags(newline: bool, text: Text)
    ensures Plain(newline, [60, 116, 104, 105, 110, 107, 62] + text) == Plain(newline, text)
    ensures Plain(newline, [60, 47, 116, 104, 105, 110, 107, 62] + text) == (if newline then [] else [10]) + Plain(true, text)
  {
    var close := CLOSE + text;
    assert (OPEN + text)[7..] == text && close[8..] == text && close[1] == 47;
  }

  /** Nothing else changes. */
  lemma {:induction false} PlainUntagged(newline: bool, text: Text)
    requires 60 !in text
    ensures Plain(newline, text) == text
    decreases |text|
  {
    if text != [] {
      assert text[0] != 60;
      PlainUntagged(text[0] == LF, text[1..]);
    }
  }

  // ------------------------------------------------------------------ what a terminal shows

  /** The length of the escape sequence at the front: five for grey, four for plain. */
  function Escape(out: Text): nat {
    if [27, 91, 57, 48, 109] <= out then 5 else if [27, 91, 48, 109] <= out then 4 else 0
  }

  /** What a terminal makes of the output: its characters, each grey or not. */
  function Cells(out: Text, grey: bool): seq<(byte, bool)>
    decreases |out|
  {
    if out == [] then []
    else if Escape(out) == 0 then [(out[0], grey)] + Cells(out[1..], grey)
    else Cells(out[Escape(out)..], Escape(out) == 5)
  }

  /** Whether it ends up writing in grey. */
  function EndGrey(out: Text, grey: bool): bool
    decreases |out|
  {
    if out == [] then grey
    else if Escape(out) == 0 then EndGrey(out[1..], grey)
    else EndGrey(out[Escape(out)..], Escape(out) == 5)
  }

  /** Every escape byte belongs to one of the two sequences. */
  predicate Clean(out: Text)
    decreases |out|
  {
    if out == [] then true
    else if Escape(out) == 0 then out[0] != 27 && Clean(out[1..])
    else Clean(out[Escape(out)..])
  }

  lemma EscapeAppend(a: Text, b: Text)
    requires a != [] && (Escape(a) > 0 || a[0] != 27)
    ensures Escape(a + b) == Escape(a) <= |a|
  {
    assert (a + b)[0] == a[0];
    if Escape(a) > 0 {
      assert a <= a + b;
      assert Escape(a) == 4 ==> (a + b)[2] == a[2] == 48;
    }
  }

  lemma {:induction false} CellsAppend(a: Text, b: Text, grey: bool)
    requires Clean(a)
    ensures Cells(a + b, grey) == Cells(a, grey) + Cells(b, EndGrey(a, grey))
    ensures EndGrey(a + b, grey) == EndGrey(b, EndGrey(a, grey))
    ensures Clean(b) ==> Clean(a + b)
    decreases |a|
  {
    hide Escape;
    if a == [] {
      assert a + b == b;
    } else {
      EscapeAppend(a, b);
      var k := if Escape(a) == 0 then 1 else Escape(a);
      assert (a + b)[k..] == a[k..] + b && (a + b)[0] == a[0];
      CellsAppend(a[k..], b, if Escape(a) == 0 then grey else Escape(a) == 5);
    }
  }

  /** What the user is to see: the characters between the tags grey, and a line end that closes them. */
  function Marked(inThink: bool, newline: bool, text: Text): seq<(byte, bool)>
    decreases |text|
  {
    if text == [] then []
    else if OPEN <= text then Marked(true, newline, text[7..])
    else if CLOSE <= text then (if newline then [] else [(LF, false)]) + Marked(false, true, text[8..])
    else [(text[0], inThink)] + Marked(inThink, text[0] == LF, text[1..])
  }

  /** The tags switch between grey and plain. */
  lemma MarkedTags(inThink: bool, newline: bool, text: Text)
    ensures Marked(inThink, newline, [60, 116, 104, 105, 110, 107, 62] + text) == Marked(true, newline, text)
    ensures Marked(inThink, newline, [60, 47, 116, 104, 105, 110, 107, 62] + text)
         == (if newline then [] else [(10, false)]) + Marked(false, true, text)
  {
    var close := CLOSE + text;
    assert (OPEN + text)[7..] == text && close[8..] == text && close[1] == 47;
  }

  /** A text without tags is all grey or all plain. */
  lemma {:induction false} MarkedUntagged(inThink: bool, newline: bool, text: Text)
    requires 60 !in text
    ensures |Marked(inThink, newline, text)| == |text|
    ensures forall i | 0 <= i < |text| :: Marked(inThink, newline, text)[i] == (text[i], inThink)
    decreases |text|
  {
    if text != [] {
      assert text[0] != 60;
      MarkedUntagged(inThink, text[0] == LF, text[1..]);
    }
  }

  /** The output so far shows some cells, and the colour that is on is the one the filter remembers. */
  ghost predicate Shows(s: Screen, cells: seq<(byte, bool)>) {
    Clean(s.out) && Cells(s.out, false) == cells && EndGrey(s.out, false) == s.colorOpen && GreyInside(s)
  }

  lemma ShowsMore(s: Screen, s2: Screen, more: Text, cells: seq<(byte, bool)>)
    requires Shows(s, cells) && s2.out == s.out + more && Clean(more) && GreyInside(s2)
    requires EndGrey(more, s.colorOpen) == s2.colorOpen
    ensures Shows(s2, cells + Cells(more, s.colorOpen))
  {
    CellsAppend(s.out, more, false);
  }

  lemma OneCell(c: byte, grey: bool)
    requires c != 27
    ensures Clean([c]) && Cells([c], grey) == [(c, grey)] && EndGrey([c], grey) == grey
  {
    assert [c][1..] == [];
  }

  lemma WritesCell(s: Screen, c: byte, cells: seq<(byte, bool)>)
    requires Shows(s, cells) && c != 27
    ensures Shows(WriteChar(true, s, c), cells + [(c, s.inThink)])
  {
    var s1 := if s.inThink then SetGrey(true, s) else s;
    assert Shows(s1, cells) by {
      if s.inThink && !s.colorOpen {
        assert GREY[5..] == [];
        ShowsMore(s, s1, GREY, cells);
        assert cells + [] == cells;
      }
    }
    OneCell(c, s1.colorOpen);
    ShowsMore(s1, WriteChar(true, s, c), [c], cells);
  }

  lemma ClosesCell(s: Screen, cells: seq<(byte, bool)>)
    requires Shows(s, cells)
    ensures Shows(CloseThink(true, s), cells + if s.newline then [] else [(LF, false)])
    ensures Shows(ResetColor(true, s), cells)
  {
    var s1 := ResetColor(true, s.(inThink := false));
    assert RESET[4..] == [];
    assert cells + [] == cells;
    if s.colorOpen {
      ShowsMore(s, s1, RESET, cells);
      ShowsMore(s, ResetColor(true, s), RESET, cells);
    }
    if !s.newline {
      OneCell(LF, false);
      ShowsMore(s1, CloseThink(true, s), [LF], cells);
    }
  }

  /** With colour, a terminal shows the text without its tags, and grey are exactly the characters
      between them. */
  lemma {:induction false} ShowsMarked(s: Screen, text: Text, cells: seq<(byte, bool)>)
    requires Shows(s, cells) && 27 !in text
    ensures Shows(Filter(true, s, text, true).0, cells + Marked(s.inThink, s.newline, text))
    decreases |text|
  {
    hide Shows, Cells, Clean, EndGrey;
    if text == [] {
      assert cells + [] == cells;
    } else if OPEN <= text {
      OpensShown(s, cells);
      ShowsMarked(s.(inThink := true), text[7..], cells);
    } else if CLOSE <= text {
      ClosesCell(s, cells);
      var end := if s.newline then [] else [(LF, false)];
      ShowsMarked(CloseThink(true, s), text[8..], cells + end);
      Assoc(cells, end, Marked(false, true, text[8..]));
    } else {
      WritesCell(s, text[0], cells);
      ShowsMarked(WriteChar(true, s, text[0]), text[1..], cells + [(text[0], s.inThink)]);
      Assoc(cells, [(text[0], s.inThink)], Marked(s.inThink, text[0] == LF, text[1..]));
    }
  }

  lemma OpensShown(s: Screen, cells: seq<(byte, bool)>)
    requires Shows(s, cells)
    ensures Shows(s.(inThink := true), cells)
  {
  }

  /** Grey is on only inside a `<think>` block, at every moment. */
  ghost predicate GreyInside(s: Screen) {
    s.colorOpen ==> s.inThink
  }

  lemma {:induction false} GreyKept(useColor: bool, s: Screen, text: Text, finish: bool)
    requires GreyInside(s) && (s.colorOpen ==> useColor)
    ensures GreyInside(Filter(useColor, s, text, finish).0)
    decreases |text|
  {
    if text == [] {
    } else if OPEN <= text {
      GreyKept(useColor, s.(inThink := true), text[7..], finish);
    } else if CLOSE <= text {
      GreyKept(useColor, CloseThink(useColor, s), text[8..], finish);
    } else if finish || !Partial(text) {
      GreyKept(useColor, WriteChar(useColor, s, text[0]), text[1..], finish);
    }
  }
}
