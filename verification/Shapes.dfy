/**
 Tensor shapes of engine/context.c: the parser of strings such as `[4096x2048x256]`, and the number
 of bytes that a tensor of some shape and type must have.
 */
module Shapes {
  import opened Keys
  import opened KvPlan

  const MAX_DIMS := 4  // DS4_V100_MAX_SHAPE_DIMS

  // ------------------------------------------------------------------ what a shape string says

  predicate Digit(c: char) {
    '0' <= c <= '9'
  }

  function DigitOf(c: char): nat
    requires Digit(c)
  {
    c as int - '0' as int
  }

  /** The length of the run of digits at the front. */
  function Run(s: string): nat
    ensures Run(s) <= |s|
  {
    if s == [] || !Digit(s[0]) then 0 else 1 + Run(s[1..])
  }

  lemma {:induction false} RunDigits(s: string)
    ensures forall i | 0 <= i < Run(s) :: Digit(s[i])
    ensures Run(s) < |s| ==> !Digit(s[Run(s)])
  {
    if s != [] && Digit(s[0]) {
      RunDigits(s[1..]);
      assert forall i | 1 <= i < |s| :: s[i] == s[1..][i - 1];
    }
  }

  /** A decimal number, of any size. */
  function Value(s: string): nat
    requires forall i | 0 <= i < |s| :: Digit(s[i])
  {
    if s == [] then 0 else 10 * Value(s[..|s| - 1]) + DigitOf(s[|s| - 1])
  }

  datatype Dims = Dims(list: seq<nat>) | Malformed

  /** What follows the opening bracket: numbers separated by `x`, up to a bracket at the very end. The
      program also takes an `x` before that bracket. */
  function Body(s: string): Dims
    decreases |s|
  {
    if s == [] then Malformed
    else if s[0] == ']' then (if |s| == 1 then Dims([]) else Malformed)
    else
      var k := Run(s);
      RunDigits(s);
      if k == 0 || k == |s| then Malformed
      else
        var rest := if s[k] == 'x' then Body(s[k + 1..]) else if s[k] == ']' then Body(s[k..]) else Malformed;
        if rest.Malformed? then Malformed else Dims([Value(s[..k])] + rest.list)
  }

  function Product(dims: seq<nat>): nat {
    if dims == [] then 1 else Product(dims[..|dims| - 1]) * dims[|dims| - 1]
  }

  /** What the parser accepts: a bracketed list of one to `cap` positive numbers whose product fits. */
  ghost predicate Accepts(s: string, cap: nat, dims: seq<nat>) {
    && s != [] && s[0] == '[' && Body(s[1..]) == Dims(dims) && dims != []
    && |dims| <= cap && (forall d | d in dims :: d > 0) && Product(dims) <= MAX
  }

  // ------------------------------------------------------------------ which strings these are

  /** Numbers separated by single `x`s, and a bracket at the end. */
  function StrictBody(s: string): Dims
    decreases |s|
  {
    var k := Run(s);
    if k == 0 || k == |s| then Malformed
    else
      RunDigits(s);
      if s[k] == ']' then (if k + 1 == |s| then Dims([Value(s[..k])]) else Malformed)
      else if s[k] != 'x' then Malformed
      else
        var rest := StrictBody(s[k + 1..]);
        if rest.Malformed? then Malformed else Dims([Value(s[..k])] + rest.list)
  }

  /** A well-formed shape: one to `cap` positive numbers whose product fits. */
  ghost predicate Strict(s: string, cap: nat, dims: seq<nat>) {
    && s != [] && s[0] == '[' && StrictBody(s[1..]) == Dims(dims)
    && |dims| <= cap && (forall d | d in dims :: d > 0) && Product(dims) <= MAX
  }

  /** The string without one `x` before its closing bracket. */
  function Untrailed(s: string): string {
    if |s| >= 2 && s[|s| - 2..] == "x]" then s[..|s| - 2] + "]" else s
  }

  lemma RunSame(s: string, u: string, k: nat)
    requires k < |s| && k < |u| && s[..k + 1] == u[..k + 1] && Run(s) == k
    ensures Run(u) == k && u[..k] == s[..k] && u[k] == s[k]
  {
    RunDigits(s);
    assert s[..k] == s[..k + 1][..k] && u[..k] == u[..k + 1][..k];
    assert u[k] == u[..k + 1][k] == s[..k + 1][k] == s[k];
    assert u == u[..k] + u[k..];
    RunOf(u[..k], u[k..]);
  }

  lemma StrictStep(s: string)
    ensures forall i | 0 <= i < Run(s) :: Digit(s[i])
    ensures var k := Run(s);
            StrictBody(s) == if k == 0 || k == |s| || (s[k] != 'x' && s[k] != ']') then Malformed
                             else if s[k] == ']' then (if k + 1 == |s| then Dims([Value(s[..k])]) else Malformed)
                             else
                               var rest := StrictBody(s[k + 1..]);
                               if rest.Malformed? then Malformed else Dims([Value(s[..k])] + rest.list)
  {
    RunDigits(s);
  }

  /** A body, unless it is empty. */
  function NonEmpty(d: Dims): Dims {
    if d.Dims? && d.list != [] then d else Malformed
  }

  /** The parser takes the well-formed bodies, and those with one `x` too many before the bracket. */
  lemma {:induction false} BodyIsStrict(s: string)
    ensures StrictBody(Untrailed(s)) == NonEmpty(Body(s))
    decreases |s|
  {
    hide Value, Run, Body, StrictBody, Untrailed;
    var k, u := Run(s), Untrailed(s);
    RunDigits(s);
    Untrail(s);
    if k == 0 || k == |s| {
      NoBody(s);
      RunDigits(u);
      StrictStep(u);
    } else {
      BodyStep(s);
      StrictStep(u);
      if s[k] == 'x' && s[k + 1..] == "]" {
        RunOf(s[..k], "]");
        assert u == s[..k] + "]" && u[..k] == s[..k];
        Bracket("]");
      } else {
        RunSame(s, u, k);
        if s[k] == 'x' {
          BodyIsStrict(s[k + 1..]);
          UntrailRest(s, k);
          NotBracket(s[k + 1..]);
        } else if s[k] == ']' {
          Bracket(s[k..]);
          assert k + 1 == |s| ==> u == s;
        }
      }
    }
  }

  lemma Untrail(s: string)
    ensures var u := Untrailed(s);
            if |s| >= 2 && s[|s| - 2] == 'x' && s[|s| - 1] == ']' then u == s[..|s| - 2] + "]" else u == s
  {
    assert |s| >= 2 ==> s[|s| - 2..] == [s[|s| - 2], s[|s| - 1]];
  }

  lemma UntrailRest(s: string, k: nat)
    requires k < |s| && s[k] == 'x' && s[k + 1..] != "]"
    ensures k < |Untrailed(s)| && Untrailed(s)[k + 1..] == Untrailed(s[k + 1..])
  {
    var r := s[k + 1..];
    Untrail(s);
    Untrail(r);
    assert |r| == 1 ==> r == [r[0]];
    assert |r| >= 2 ==> s[..|s| - 2][k + 1..] == r[..|r| - 2];
  }

  /** At the end of a list only a bracket may stand. */
  lemma Bracket(s: string)
    requires s != [] && s[0] == ']'
    ensures Body(s) == if |s| == 1 then Dims([]) else Malformed
  {
  }

  lemma NotBracket(s: string)
    requires s != "]"
    ensures NonEmpty(Body(s)) == Body(s)
  {
    assert |s| == 1 && s[0] == ']' ==> s == "]";
  }

  lemma NoBody(s: string)
    requires Run(s) == 0 || Run(s) == |s|
    ensures NonEmpty(Body(s)).Malformed?
    ensures StrictBody(Untrailed(s)).Malformed?
  {
    var k, u := Run(s), Untrailed(s);
    Untrail(s);
    RunDigits(s);
    if k == 0 {
      assert u == [] || !Digit(u[0]);
    } else {
      assert u == s;
    }
  }

  lemma AcceptsIsStrict(s: string, cap: nat, dims: seq<nat>)
    ensures Accepts(s, cap, dims) <==> Strict(Untrailed(s), cap, dims)
  {
    if |s| > 1 {
      BodyIsStrict(s[1..]);
      assert Untrailed(s)[1..] == Untrailed(s[1..]) || s == "x]";
    } else if s != [] {
      assert Untrailed(s) == s && s[1..] == "";
    }
  }

  // ------------------------------------------------------------------ printing and parsing

  function Joined(dims: seq<nat>): string
    requires dims != []
  {
    if |dims| == 1 then Decimal(dims[0]) + "]" else Decimal(dims[0]) + "x" + Joined(dims[1..])
  }

  function Printed(dims: seq<nat>): string
    requires dims != []
  {
    "[" + Joined(dims)
  }

  /** A number begins at `i` with a zero that is not all of it. */
  predicate SpareZero(s: string, i: nat) {
    i + 1 < |s| && s[i] == '0' && Digit(s[i + 1]) && (i == 0 || !Digit(s[i - 1]))
  }

  ghost predicate NoLeadingZero(s: string) {
    forall i: nat :: !SpareZero(s, i)
  }

  lemma {:induction false} DecimalValue(n: nat)
    ensures (forall i | 0 <= i < |Decimal(n)| :: Digit(Decimal(n)[i])) && Value(Decimal(n)) == n
    ensures n > 0 ==> Decimal(n)[0] != '0'
    ensures n == 0 ==> Decimal(n) == "0"
  {
    if n >= 10 {
      DecimalValue(n / 10);
      assert Decimal(n)[..|Decimal(n)| - 1] == Decimal(n / 10);
    } else {
      assert Decimal(n)[..0] == [];
    }
  }

  /** Digits that do not begin with a superfluous zero are how their value is printed. */
  lemma {:induction false} DecimalOf(d: string)
    requires d != [] && (forall i | 0 <= i < |d| :: Digit(d[i])) && (|d| > 1 ==> d[0] != '0')
    ensures Decimal(Value(d)) == d
    ensures d[0] != '0' ==> Value(d) > 0
  {
    var n := |d| - 1;
    assert d == d[..n] + [d[n]];
    if n > 0 {
      DecimalOf(d[..n]);
      assert Value(d) / 10 == Value(d[..n]) && Value(d) % 10 == DigitOf(d[n]);
    } else {
      assert d[..0] == [];
    }
  }

  lemma {:induction false} RunOf(d: string, rest: string)
    requires (forall i | 0 <= i < |d| :: Digit(d[i])) && (rest == [] || !Digit(rest[0]))
    ensures Run(d + rest) == |d|
  {
    if d == [] {
      assert d + rest == rest;
    } else {
      assert (d + rest)[1..] == d[1..] + rest;
      RunOf(d[1..], rest);
    }
  }

  /** A list is printed as a well-formed body without leading zeros. */
  lemma {:induction false} JoinedStrict(dims: seq<nat>)
    requires dims != []
    ensures StrictBody(Joined(dims)) == Dims(dims) && NoLeadingZero(Joined(dims))
  {
    hide Decimal, Value, Run, NoLeadingZero, StrictBody, Joined;
    var d := Decimal(dims[0]);
    DecimalValue(dims[0]);
    if |dims| == 1 {
      OneStrict(d, dims[0]);
      assert dims == [dims[0]] + [];
      JoinedCons(dims[0], []);
    } else {
      JoinedStrict(dims[1..]);
      ConsStrict(d, dims[0], Joined(dims[1..]));
      assert [dims[0]] + dims[1..] == dims;
      ZerosAfter(d, d + ("x" + Joined(dims[1..])), Joined(dims[1..]));
      JoinedCons(dims[0], dims[1..]);
    }
  }

  lemma OneStrict(d: string, n: nat)
    requires d != [] && (forall i | 0 <= i < |d| :: Digit(d[i])) && Value(d) == n && (d[0] == '0' ==> |d| == 1)
    ensures StrictBody(d + "]") == Dims([n]) && NoLeadingZero(d + "]")
  {
    hide Value, Run;
    RunOf(d, "]");
    assert (d + "]")[..|d|] == d && (d + "]")[|d|] == ']';
    forall i: nat ensures !SpareZero(d + "]", i) {
      assert 0 < i < |d| ==> Digit((d + "]")[i - 1]);
    }
  }

  lemma ConsStrict(d: string, n: nat, rest: string)
    requires d != [] && (forall i | 0 <= i < |d| :: Digit(d[i])) && Value(d) == n && StrictBody(rest).Dims?
    ensures StrictBody(d + ("x" + rest)) == Dims([n] + StrictBody(rest).list)
  {
    hide Value, Run, StrictBody;
    var s := d + ("x" + rest);
    StrictStep(s);
    RunOf(d, "x" + rest);
    assert s[..|d|] == d && s[|d|] == 'x' && s[|d| + 1..] == rest;
  }

  lemma ZerosAfter(d: string, s: string, rest: string)
    requires d != [] && s == d + ("x" + rest) && (forall i | 0 <= i < |d| :: Digit(d[i]))
    requires d[0] == '0' ==> |d| == 1
    ensures NoLeadingZero(s) <==> NoLeadingZero(rest)
  {
    hide SpareZero;
    forall i: nat ensures SpareZero(rest, i) <==> SpareZero(s, |d| + 1 + i) {
      ZeroBehind(d, s, rest, i);
    }
    forall i: nat | i <= |d| ensures !SpareZero(s, i) {
      NoZeroBefore(d, s, rest, i);
    }
    if !NoLeadingZero(rest) {
      var i: nat :| SpareZero(rest, i);
      assert SpareZero(s, |d| + 1 + i);
    }
    if !NoLeadingZero(s) {
      var i: nat :| SpareZero(s, i);
      assert SpareZero(rest, i - |d| - 1);
    }
  }

  lemma ZeroBehind(d: string, s: string, rest: string, i: nat)
    requires s == d + ("x" + rest)
    ensures SpareZero(rest, i) <==> SpareZero(s, |d| + 1 + i)
  {
    var t := "x" + rest;
    assert s[|d|..] == t;
    assert i < |rest| ==> s[|d| + 1 + i] == t[i + 1] == rest[i];
    assert i + 1 < |rest| ==> s[|d| + 1 + i + 1] == t[i + 2] == rest[i + 1];
    assert i < |t| ==> s[|d| + i] == t[i];
    assert 0 < i < |t| ==> t[i] == rest[i - 1];
    assert !Digit('x');
  }

  lemma NoZeroBefore(d: string, s: string, rest: string, i: nat)
    requires d != [] && s == d + ("x" + rest) && (forall i | 0 <= i < |d| :: Digit(d[i]))
    requires (d[0] == '0' ==> |d| == 1) && i <= |d|
    ensures !SpareZero(s, i)
  {
    assert s[|d|] == 'x' && forall i | 0 <= i < |d| :: s[i] == d[i];
  }

  /** A well-formed body without leading zeros is how its list is printed. */
  lemma {:induction false} StrictJoined(s: string)
    requires StrictBody(s).Dims? && NoLeadingZero(s)
    ensures StrictBody(s).list != [] && s == Joined(StrictBody(s).list)
    decreases |s|
  {
    hide Decimal, Value, Run, StrictBody, NoLeadingZero, Joined;
    var k := Run(s);
    RunDigits(s);
    StrictStep(s);
    var d := s[..k];
    FirstNumber(s, k);
    DecimalOf(d);
    if s[k] == 'x' {
      var rest := s[k + 1..];
      assert s == d + ("x" + rest);
      ZerosAfter(d, s, rest);
      StrictJoined(rest);
      JoinedCons(Value(d), StrictBody(rest).list);
    } else {
      assert s == d + "]" && [Value(d)] + [] == [Value(d)];
      JoinedCons(Value(d), []);
    }
  }

  lemma FirstNumber(s: string, k: nat)
    requires 0 < k <= |s| && NoLeadingZero(s) && forall i | 0 <= i < k :: Digit(s[i])
    ensures k > 1 ==> s[0] != '0'
  {
    assert !SpareZero(s, 0);
  }

  lemma JoinedCons(n: nat, rest: seq<nat>)
    ensures Joined([n] + rest) == if rest == [] then Decimal(n) + "]" else Decimal(n) + ("x" + Joined(rest))
  {
    assert ([n] + rest)[1..] == rest;
    if rest != [] {
      assert Decimal(n) + "x" + Joined(rest) == Decimal(n) + ("x" + Joined(rest));
    }
  }

  /** Exactly the well-formed strings without leading zeros are printed. */
  lemma PrintedExactly(s: string, dims: seq<nat>)
    ensures dims != [] && s == Printed(dims)
        <==> (s != [] && s[0] == '[' && StrictBody(s[1..]) == Dims(dims) && NoLeadingZero(s[1..]))
  {
    if dims != [] && s == Printed(dims) {
      JoinedStrict(dims);
      assert s[1..] == Joined(dims);
    }
    if s != [] && s[0] == '[' && StrictBody(s[1..]) == Dims(dims) && NoLeadingZero(s[1..]) {
      StrictJoined(s[1..]);
      assert s == ['['] + s[1..];
    }
  }

  /** Parsing a printed shape gives the dimensions back. */
  lemma RoundTrip(dims: seq<nat>, cap: nat)
    requires dims != [] && |dims| <= cap && (forall d | d in dims :: d > 0) && Product(dims) <= MAX
    ensures Accepts(Printed(dims), cap, dims) && Untrailed(Printed(dims)) == Printed(dims)
  {
    hide StrictBody, Joined, NoLeadingZero, Accepts;
    var s := Printed(dims);
    JoinedStrict(dims);
    assert s[1..] == Joined(dims);
    NoCrossAtEnd(Joined(dims));
    assert s[|s| - 2..][0] == s[|s| - 2] == Joined(dims)[|Joined(dims)| - 2];
    AcceptsIsStrict(s, cap, dims);
  }

  /** A string with an `x` before its bracket is never printed. */
  lemma {:induction false} NoCrossAtEnd(s: string)
    requires StrictBody(s).Dims?
    ensures |s| >= 2 && s[|s| - 2] != 'x'
    decreases |s|
  {
    var k := Run(s);
    RunDigits(s);
    if s[k] == 'x' {
      NoCrossAtEnd(s[k + 1..]);
    }
  }

  // ------------------------------------------------------------------ the parser

  lemma {:induction false} ProductAppend(a: seq<nat>, b: seq<nat>)
    ensures Product(a + b) == Product(a) * Product(b)
  {
    if b == [] {
      assert a + b == a;
    } else {
      var n := |b| - 1;
      assert (a + b)[..|a + b| - 1] == a + b[..n];
      ProductAppend(a, b[..n]);
      MulAssoc(Product(a), Product(b[..n]), b[n]);
    }
  }

  lemma MulAssoc(a: nat, b: nat, c: nat)
    ensures a * b * c == a * (b * c)
  {
  }

  lemma {:induction false} ProductPositive(a: seq<nat>)
    requires forall d | d in a :: d > 0
    ensures Product(a) > 0
  {
    if a != [] {
      var n := |a| - 1;
      assert forall d | d in a[..n] :: d in a;
      assert a[n] in a;
      ProductPositive(a[..n]);
      MulMono(Product(a[..n]), 1, a[n]);
    }
  }

  /** A product only grows with further positive factors. */
  lemma ProductGrows(a: seq<nat>, b: seq<nat>)
    requires forall d | d in a + b :: d > 0
    ensures Product(a) <= Product(a + b)
  {
    assert forall d | d in b :: d in a + b;
    assert forall d | d in a :: d in a + b;
    ProductPositive(a);
    ProductPositive(b);
    ProductAppend(a, b);
    MulMono(Product(a), 1, Product(b));
  }

  lemma ProductOne(a: seq<nat>, v: nat)
    ensures Product(a + [v]) == Product(a) * v
  {
    assert (a + [v])[..|a|] == a;
  }

  lemma {:induction false} ValueGrows(s: string, j: nat)
    requires (forall i | 0 <= i < |s| :: Digit(s[i])) && j <= |s|
    ensures Value(s[..j]) <= Value(s)
  {
    if j < |s| {
      ValueGrows(s[..|s| - 1], j);
      assert s[..|s| - 1][..j] == s[..j];
    } else {
      assert s[..j] == s;
    }
  }

  lemma ValueStep(s: string, j: nat)
    requires j < |s| && forall i | 0 <= i <= j :: Digit(s[i])
    ensures Value(s[..j + 1]) == 10 * Value(s[..j]) + DigitOf(s[j])
  {
    assert s[..j + 1][..j] == s[..j];
  }

  datatype Number = Number(value: u64, len: nat) | TooLarge

  /** The inner loop: the number at the front of `s`. */
  method ReadNumber(s: string) returns (r: Number)
    ensures forall i | 0 <= i < Run(s) :: Digit(s[i])
    ensures r == if Value(s[..Run(s)]) <= MAX then Number(Value(s[..Run(s)]), Run(s)) else TooLarge
  {
    RunDigits(s);
    var dim: u64 := 0;
    var p: nat := 0;
    while p < |s| && Digit(s[p])
      invariant p <= Run(s) && dim == Value(s[..p])
    {
      var d := DigitOf(s[p]);
      ValueStep(s, p);
      if dim > (MAX - d) / 10 {
        ValueGrows(s[..Run(s)], p + 1);
        assert s[..Run(s)][..p + 1] == s[..p + 1];
        return TooLarge;
      }
      dim := dim * 10 + d;
      p := p + 1;
    }
    return Number(dim, p);
  }

  datatype Parsed = Parsed(dims: seq<nat>, elements: u64) | Refused

  /** What has been read so far continues with what `rest` says. */
  ghost predicate Continues(whole: string, dims: seq<nat>, rest: string) {
    var w, r := Body(whole), Body(rest);
    if r.Malformed? then w.Malformed? else w == Dims(dims + r.list)
  }

  /** The body at a number. */
  lemma BodyStep(s: string)
    requires s != [] && s[0] != ']'
    ensures forall i | 0 <= i < Run(s) :: Digit(s[i])
    ensures var k := Run(s);
            Body(s) == if k == 0 || k == |s| || (s[k] != 'x' && s[k] != ']') then Malformed
                       else
                         var rest := Body(if s[k] == 'x' then s[k + 1..] else s[k..]);
                         if rest.Malformed? then Malformed else Dims([Value(s[..k])] + rest.list)
  {
    RunDigits(s);
  }

  lemma ContinuesStep(whole: string, dims: seq<nat>, s: string, v: nat, rest: string)
    requires Continues(whole, dims, s)
    requires Body(s) == if Body(rest).Malformed? then Malformed else Dims([v] + Body(rest).list)
    ensures Continues(whole, dims + [v], rest)
  {
    if Body(rest).Dims? {
      assert dims + ([v] + Body(rest).list) == dims + [v] + Body(rest).list;
    }
  }

  /** A list that begins with `dims` and `v` is refused when `v` is zero, there are too many dimensions
      or the product is too large. */
  lemma NotAccepted(s: string, cap: nat, dims: seq<nat>, v: nat, rest: string)
    requires s != [] && s[0] == '[' && Continues(s[1..], dims + [v], rest)
    requires v == 0 || |dims| >= cap || Product(dims) * v > MAX
    ensures forall all: seq<nat> :: !Accepts(s, cap, all)
  {
    forall all: seq<nat> ensures !Accepts(s, cap, all) {
      if Accepts(s, cap, all) {
        NotAcceptedOne(s, cap, dims, v, rest, all);
      }
    }
  }

  lemma NotAcceptedOne(s: string, cap: nat, dims: seq<nat>, v: nat, rest: string, all: seq<nat>)
    requires s != [] && s[0] == '[' && Continues(s[1..], dims + [v], rest)
    requires Accepts(s, cap, all)
    ensures v > 0 && |dims| < cap && Product(dims) * v <= MAX
  {
    var tail := Body(rest).list;
    assert all == dims + [v] + tail;
    assert v in all;
    ProductGrows(dims + [v], tail);
    ProductOne(dims, v);
  }

  lemma Hopeless(s: string, cap: nat)
    requires s == [] || s[0] != '[' || Body(s[1..]).Malformed?
    ensures forall all: seq<nat> :: !Accepts(s, cap, all)
  {
  }

  /** One turn of the loop: a number and what follows it. */
  method ReadDim(s: string, p: nat, cap: nat, ghost dims: seq<nat>, n: nat, product: u64) returns (v: u64, next: nat, product2: u64)
    requires 1 <= p < |s| && s[0] == '[' && s[p] != ']' && Continues(s[1..], dims, s[p..])
    requires n == |dims| <= cap && product == Product(dims) && (forall d | d in dims :: d > 0)
    ensures next == 0 ==> forall all: seq<nat> :: !Accepts(s, cap, all)
    ensures next != 0 ==>
              && p < next <= |s| && Continues(s[1..], dims + [v], s[next..])
              && v > 0 && |dims| < cap && product2 == Product(dims + [v])
  {
    hide Body, Run, Value, Accepts, Product;
    v, next, product2 := 0, 0, product;
    ghost var rest := s[p..];
    BodyStep(rest);
    if !Digit(s[p]) {
      NoRun(rest);
      Hopeless(s, cap);
      return;
    }
    var r := ReadNumber(s[p..]);
    ghost var value := Value(rest[..Run(rest)]);
    ghost var k := Run(rest);
    if k == |rest| || (rest[k] != 'x' && rest[k] != ']') {
      Hopeless(s, cap);
    } else {
      ghost var tail := if rest[k] == 'x' then rest[k + 1..] else rest[k..];
      ContinuesStep(s[1..], dims, rest, value, tail);
      ProductPositive(dims);
      if value > MAX { LargeFactor(dims, value); }
      if value == 0 || |dims| >= cap || Product(dims) * value > MAX {
        NotAccepted(s, cap, dims, value, tail);
      }
    }
    if r.TooLarge? { return; }
    v := r.value;
    var q := p + r.len;
    if v == 0 || product > MAX / v { DivFits(product, v); return; }
    DivFits(product, v);
    if n >= cap { return; }
    ProductOne(dims, v);
    product2 := product * v;
    if q < |s| && s[q] == 'x' {
      assert rest[k + 1..] == s[q + 1..];
      next := q + 1;
    } else if q < |s| && s[q] == ']' {
      assert rest[k..] == s[q..];
      next := q;
    }
  }

  lemma DivFits(a: nat, b: nat)
    ensures b != 0 ==> (a > MAX / b <==> a * b > MAX)
  {
    MulFits(b, a);
  }

  lemma NoRun(s: string)
    requires s == [] || !Digit(s[0])
    ensures Run(s) == 0
  {
  }

  lemma LargeFactor(dims: seq<nat>, v: nat)
    requires v > MAX && Product(dims) > 0
    ensures Product(dims) * v > MAX
  {
    MulMono(v, 1, Product(dims));
  }

  /** parse_shape_dims: well-formed shapes are taken, also with one `x` before the bracket. */
  method ParseShapeDims(s: string, cap: nat) returns (r: Parsed)
    ensures r.Parsed? <==> exists dims: seq<nat> :: Strict(Untrailed(s), cap, dims)
    ensures r.Parsed? ==> Strict(Untrailed(s), cap, r.dims) && r.elements == Product(r.dims)
  {
    r := ParseList(s, cap);
    hide Accepts, Strict;
    forall dims: seq<nat> ensures Accepts(s, cap, dims) <==> Strict(Untrailed(s), cap, dims) {
      AcceptsIsStrict(s, cap, dims);
    }
  }

  /** The loop of parse_shape_dims. */
  method ParseList(s: string, cap: nat) returns (r: Parsed)
    ensures r.Parsed? <==> exists dims: seq<nat> :: Accepts(s, cap, dims)
    ensures r.Parsed? ==> Accepts(s, cap, r.dims) && r.elements == Product(r.dims)
  {
    if s == [] || s[0] != '[' {
      Hopeless(s, cap);
      return Refused;
    }
    var p: nat := 1;
    var dims: seq<nat>, product: u64 := [], 1;
    NothingRead(s[1..]);
    while p < |s| && s[p] != ']'
      invariant 1 <= p <= |s| && Continues(s[1..], dims, s[p..])
      invariant |dims| <= cap && product == Product(dims) && (forall d | d in dims :: d > 0)
    {
      hide Body, Accepts, Product;
      var v, next, product2 := ReadDim(s, p, cap, dims, |dims|, product);
      if next == 0 { return Refused; }
      dims, p, product := dims + [v], next, product2;
    }
    Closing(s, p, cap, dims);
    if p == |s| || p + 1 != |s| || |dims| == 0 { return Refused; }
    return Parsed(dims, product);
  }

  lemma Closing(s: string, p: nat, cap: nat, dims: seq<nat>)
    requires s != [] && s[0] == '[' && 1 <= p <= |s| && (p < |s| ==> s[p] == ']') && Continues(s[1..], dims, s[p..])
    requires |dims| <= cap && (forall d | d in dims :: d > 0) && Product(dims) <= MAX
    ensures p + 1 == |s| && dims != [] ==> Accepts(s, cap, dims)
    ensures p + 1 != |s| || dims == [] ==> forall all: seq<nat> :: !Accepts(s, cap, all)
  {
    if p + 1 == |s| {
      assert s[p..] == "]" && Body("]") == Dims([]);
      assert dims + [] == dims;
    }
  }

  lemma NothingRead(s: string)
    ensures Continues(s, [], s)
  {
    if Body(s).Dims? {
      assert [] + Body(s).list == Body(s).list;
    }
  }
}
