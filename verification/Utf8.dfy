/**
 json_utf8_valid of ds4_cli.c against the grammar of UTF-8 in section 4 of RFC 3629.
 */
module Utf8 {
  import opened Keys
  import opened Seqs

  // ------------------------------------------------------------------ section 4 of RFC 3629

  predicate Within(b: byte, lo: nat, hi: nat) {
    lo <= b <= hi
  }

  /** UTF8-tail = %x80-BF */
  predicate Tail(b: byte) {
    Within(b, 0x80, 0xBF)
  }

  /** UTF8-1 */
  predicate One(s: Text) {
    |s| == 1 && Within(s[0], 0x00, 0x7F)
  }

  /** UTF8-2 */
  predicate Two(s: Text) {
    |s| == 2 && Within(s[0], 0xC2, 0xDF) && Tail(s[1])
  }

  /** UTF8-3 */
  predicate Three(s: Text) {
    && |s| == 3
    && (|| (s[0] == 0xE0 && Within(s[1], 0xA0, 0xBF) && Tail(s[2]))
        || (Within(s[0], 0xE1, 0xEC) && Tail(s[1]) && Tail(s[2]))
        || (s[0] == 0xED && Within(s[1], 0x80, 0x9F) && Tail(s[2]))
        || (Within(s[0], 0xEE, 0xEF) && Tail(s[1]) && Tail(s[2])))
  }

  /** UTF8-4 */
  predicate Four(s: Text) {
    && |s| == 4
    && (|| (s[0] == 0xF0 && Within(s[1], 0x90, 0xBF) && Tail(s[2]) && Tail(s[3]))
        || (Within(s[0], 0xF1, 0xF3) && Tail(s[1]) && Tail(s[2]) && Tail(s[3]))
        || (s[0] == 0xF4 && Within(s[1], 0x80, 0x8F) && Tail(s[2]) && Tail(s[3])))
  }

  /** UTF8-char */
  predicate Char(s: Text) {
    One(s) || Two(s) || Three(s) || Four(s)
  }

  /** UTF8-octets = *( UTF8-char ) */
  ghost predicate Octets(s: Text) {
    exists chars: seq<Text> :: (forall c | c in chars :: Char(c)) && Concat(chars) == s
  }

  lemma NoOctets()
    ensures Octets([])
  {
    var chars: seq<Text> := [];
    assert Concat(chars) == [];
  }

  /** A valid string goes on validly after its first character, and no other way of cutting off a first
      character exists. */
  lemma FirstChar(s: Text, n: nat)
    requires n <= |s| && Char(s[..n])
    ensures Octets(s) <==> Octets(s[n..])
  {
    if Octets(s) {
      var chars: seq<Text> :| (forall c | c in chars :: Char(c)) && Concat(chars) == s;
      assert chars != [];
      ConcatFront(chars);
      assert Char(chars[0]) && chars[0] == s[..|chars[0]|];
      SameLength(s, n, |chars[0]|);
      assert Concat(chars[1..]) == s[n..];
      assert forall c | c in chars[1..] :: c in chars;
    }
    if Octets(s[n..]) {
      var rest: seq<Text> :| (forall c | c in rest :: Char(c)) && Concat(rest) == s[n..];
      var chars := [s[..n]] + rest;
      ConcatFront(chars);
      assert chars[1..] == rest && Concat(chars) == s[..n] + s[n..] == s;
    }
  }

  lemma SameLength(s: Text, n: nat, m: nat)
    requires n <= |s| && m <= |s| && Char(s[..n]) && Char(s[..m])
    ensures n == m
  {
    assert n > 0 && m > 0 && s[..n][0] == s[..m][0] == s[0];
  }

  /** A valid string begins with a character. */
  lemma HasFirstChar(s: Text) returns (n: nat)
    requires s != [] && Octets(s)
    ensures 0 < n <= |s| && Char(s[..n])
  {
    var chars: seq<Text> :| (forall c | c in chars :: Char(c)) && Concat(chars) == s;
    assert chars != [];
    ConcatFront(chars);
    n := |chars[0]|;
    assert Char(chars[0]) && chars[0] == s[..n];
  }

  // ------------------------------------------------------------------ json_utf8_valid

  /** The number of continuation bytes that a lead byte asks for, or -1. */
  function Need(c: byte): int {
    if c < 0x80 then 0
    else if c >= 0xC2 && c <= 0xDF then 1
    else if c >= 0xE0 && c <= 0xEF then 2
    else if c >= 0xF0 && c <= 0xF4 then 3
    else -1
  }

  /** The ranges that are narrower after some lead bytes. */
  predicate SecondOk(c: byte, c1: byte) {
    && !(c == 0xE0 && c1 < 0xA0)
    && !(c == 0xED && c1 >= 0xA0)
    && !(c == 0xF0 && c1 < 0x90)
    && !(c == 0xF4 && c1 >= 0x90)
  }

  /** `(cc & 0xc0) == 0x80`: the two upper bits are 10. */
  predicate Continues(cc: byte) {
    cc / 64 == 2
  }

  /** What the code tests of one sequence is what the grammar says of it. */
  lemma CharByLead(s: Text)
    requires s != [] && |s| == Need(s[0]) + 1
    ensures Char(s) <==> Need(s[0]) == 0 || (SecondOk(s[0], s[1]) && forall j | 1 <= j < |s| :: Continues(s[j]))
  {
    if Need(s[0]) == 1 {
      assert s[1] == s[1];
    } else if Need(s[0]) == 2 {
      assert s[1] == s[1] && s[2] == s[2];
    } else if Need(s[0]) == 3 {
      assert s[1] == s[1] && s[2] == s[2] && s[3] == s[3];
    }
  }

  lemma CharNeed(s: Text)
    requires Char(s)
    ensures |s| == Need(s[0]) + 1
  {
  }

  lemma FirstCharLength(s: Text) returns (n: nat)
    requires s != [] && Octets(s)
    ensures n <= |s| && Char(s[..n]) && n == Need(s[0]) + 1
  {
    n := HasFirstChar(s);
    CharNeed(s[..n]);
    assert s[..n][0] == s[0];
  }

  /** A string that fails a test on its first sequence is not valid. */
  lemma Rejected(s: Text)
    requires s != [] && (Need(s[0]) < 0 || Need(s[0]) + 1 > |s| || !Char(s[..Need(s[0]) + 1]))
    ensures !Octets(s)
  {
    if Octets(s) {
      var n := FirstCharLength(s);
    }
  }

  method JsonUtf8Valid(s: Text) returns (valid: bool)
    ensures valid <==> Octets(s)
  {
    hide Octets, Char, Continues;
    var i := 0;
    NoOctets();
    assert s[0..] == s;
    while i < |s|
      invariant i <= |s|
      invariant Octets(s) <==> Octets(s[i..])
    {
      ghost var rest := s[i..];
      var c := s[i];
      i := i + 1;
      if c < 0x80 {
        CharByLead(rest[..1]);
        FirstChar(rest, 1);
        assert rest[1..] == s[i..];
        continue;
      }
      var need := 0;
      if c >= 0xC2 && c <= 0xDF {
        need := 1;
      } else if c >= 0xE0 && c <= 0xEF {
        need := 2;
      } else if c >= 0xF0 && c <= 0xF4 {
        need := 3;
      } else {
        Rejected(rest);
        return false;
      }
      if i + need > |s| {
        Rejected(rest);
        return false;
      }
      ghost var head := rest[..need + 1];
      CharByLead(head);
      var c1 := s[i];
      assert head[1] == c1;
      if (c == 0xE0 && c1 < 0xA0) || (c == 0xED && c1 >= 0xA0) || (c == 0xF0 && c1 < 0x90) || (c == 0xF4 && c1 >= 0x90) {
        Rejected(rest);
        return false;
      }
      for j := 0 to need
        invariant forall k | 1 <= k <= j :: Continues(head[k])
      {
        var cc := s[i + j];
        assert head[j + 1] == cc;
        if !Continues(cc) {
          Rejected(rest);
          return false;
        }
      }
      FirstChar(rest, need + 1);
      i := i + need;
      assert rest[need + 1..] == s[i..];
    }
    assert s[i..] == [];
    return true;
  }
}
