/** Bytes, texts, keys, and the lexicographic order that a radix tree iterates in. */
module Keys {

  type byte = b: int | 0 <= b < 256
  type Text = seq<byte>
  type Key = seq<byte>

  const LF := 10

  function Decimal(n: nat): (d: string)
    ensures d != [] && forall i | 0 <= i < |d| :: '0' <= d[i] <= '9'
  {
    if n < 10 then [('0' as int + n) as char] else Decimal(n / 10) + [('0' as int + n % 10) as char]
  }

  /** Strict lexicographic order: a proper prefix comes before its extensions. */
  predicate Less(a: Key, b: Key) {
    b != [] && (a == [] || a[0] < b[0] || (a[0] == b[0] && Less(a[1..], b[1..])))
  }

  predicate LessEq(a: Key, b: Key) {
    a == b || Less(a, b)
  }

  lemma {:induction false} LessTransitive(a: Key, b: Key, c: Key)
    requires Less(a, b) && Less(b, c)
    ensures Less(a, c)
  {
    if a != [] && a[0] == b[0] == c[0] {
      LessTransitive(a[1..], b[1..], c[1..]);
    }
  }

  lemma {:induction false} LessIrreflexive(a: Key)
    ensures !Less(a, a)
  {
    if a != [] {
      LessIrreflexive(a[1..]);
    }
  }

  lemma {:induction false} LessTotal(a: Key, b: Key)
    ensures a == b || Less(a, b) || Less(b, a)
  {
    if a != [] && b != [] && a[0] == b[0] {
      LessTotal(a[1..], b[1..]);
      assert a == [a[0]] + a[1..] && b == [b[0]] + b[1..];
    }
  }

  lemma LessAsymmetric(a: Key, b: Key)
    requires Less(a, b)
    ensures a != b && !Less(b, a)
  {
    LessIrreflexive(a);
    if Less(b, a) {
      LessTransitive(a, b, a);
    }
  }

  /** A common prefix does not influence the order. */
  lemma {:induction false} LessUnderPrefix(p: Key, a: Key, b: Key)
    ensures Less(p + a, p + b) <==> Less(a, b)
  {
    if p == [] {
      assert p + a == a && p + b == b;
    } else {
      assert (p + a)[1..] == p[1..] + a && (p + b)[1..] == p[1..] + b;
      LessUnderPrefix(p[1..], a, b);
    }
  }

  /** A proper prefix is smaller than the whole string. */
  lemma PrefixLess(p: Key, k: Key)
    requires p <= k && p != k
    ensures Less(p, k)
  {
    var rest := k[|p|..];
    assert k == p + rest && p == p + [];
    LessUnderPrefix(p, [], rest);
  }

  /** Two strings that share `p` and then differ are ordered by the first differing byte. */
  lemma DivergeLess(p: Key, x: byte, a: Key, y: byte, b: Key)
    requires p + [x] <= a && p + [y] <= b && x < y
    ensures Less(a, b)
  {
    var ra, rb := a[|p|..], b[|p|..];
    assert a[|p|] == (p + [x])[|p|] && b[|p|] == (p + [y])[|p|];
    assert a == p + ra && b == p + rb;
    LessUnderPrefix(p, ra, rb);
  }
}
