/** The DQN action index: `decode_action`, `get_action` and the two responses of the server. */
module Action {
  import opened Text

  /** The settings one index stands for: `v`, and a weight of each kind per user. */
  datatype Settings = Settings(v: nat, wq: seq<nat>, wg: seq<nat>)

  function Power(b: nat, n: nat): (p: nat)
    ensures b > 0 ==> p > 0
  {
    if n == 0 then 1 else b * Power(b, n - 1)
  }

  /** The number that digits denote, most significant first. */
  function Number(digits: seq<nat>, b: nat): nat {
    if digits == [] then 0 else Number(digits[..|digits| - 1], b) * b + digits[|digits| - 1]
  }

  function Quotient(x: nat, b: nat): nat
    requires b > 0
  {
    x / b
  }

  function Remainder(x: nat, b: nat): (r: nat)
    requires b > 0
    ensures r < b
  {
    x % b
  }

  /** The `n` digits of `x`, most significant first. */
  function Digits(x: nat, b: nat, n: nat): (d: seq<nat>)
    requires b > 0
    ensures |d| == n
    decreases n
  {
    if n == 0 then [] else Digits(Quotient(x, b), b, n - 1) + [Remainder(x, b)]
  }

  predicate AllBelow(d: seq<nat>, b: nat) { forall i | 0 <= i < |d| :: d[i] < b }

  lemma {:induction false} DigitsBelow(x: nat, b: nat, n: nat)
    requires b > 0
    ensures AllBelow(Digits(x, b, n), b)
    decreases n
  {
    if n > 0 { DigitsBelow(Quotient(x, b), b, n - 1); }
  }

  function Zeros(n: nat): seq<nat> { seq(n, _ => 0) }

  function Decoded(index: nat, b: nat, n: nat): Settings
    requires b > 0
  {
    Settings(Quotient(index, Power(b, n)), Zeros(n), Digits(Remainder(index, Power(b, n)), b, n))
  }

  function Encoded(s: Settings, b: nat): nat { s.v * Power(b, |s.wg|) + Number(s.wg, b) }

  // ---- the loop ----

  function Reverse<T>(s: seq<T>): (r: seq<T>)
    ensures |r| == |s| && forall i | 0 <= i < |s| :: r[i] == s[|s| - 1 - i]
  {
    if s == [] then [] else Reverse(s[1..]) + [s[0]]
  }

  /** `decode_action`: digits come out least significant first and are turned round. */
  method DecodeAction(index: nat, b: nat, n: nat) returns (s: Settings)
    requires b > 0
    ensures s == Decoded(index, b, n)
  {
    var total := Power(b, n);
    var v, rest := Quotient(index, total), Remainder(index, total);
    ghost var whole := rest;
    var list: seq<nat> := [];
    for i := 0 to n
      invariant |list| == i && Digits(rest, b, n - i) + Reverse(list) == Digits(whole, b, n)
    {
      DigitOff(rest, b, n - i, list);
      list := list + [Remainder(rest, b)];
      rest := Quotient(rest, b);
    }
    assert [] + Reverse(list) == Reverse(list);
    s := Settings(v, Zeros(n), Reverse(list));
  }

  lemma DigitOff(x: nat, b: nat, n: nat, list: seq<nat>)
    requires b > 0 && n > 0
    ensures Digits(x, b, n) + Reverse(list) == Digits(Quotient(x, b), b, n - 1) + Reverse(list + [Remainder(x, b)])
  {
    Associative(Digits(Quotient(x, b), b, n - 1), [Remainder(x, b)], Reverse(list));
    ReverseMore(list, Remainder(x, b));
  }

  lemma ReverseMore<T>(s: seq<T>, x: T)
    ensures Reverse(s + [x]) == [x] + Reverse(s)
  {
    var t, u := Reverse(s + [x]), [x] + Reverse(s);
    assert forall i | 0 <= i < |t| :: t[i] == u[i];
  }

  // ---- the bijection ----

  lemma Scale(x: int, y: int, b: nat)
    ensures x <= y ==> x * b <= y * b
  {}

  lemma DivMod(x: nat, b: nat, q: nat, r: nat)
    requires b > 0 && x == q * b + r && r < b
    ensures Quotient(x, b) == q && Remainder(x, b) == r
  {
    assert x == Quotient(x, b) * b + Remainder(x, b);
    Scale(q + 1, Quotient(x, b), b);
    Scale(Quotient(x, b) + 1, q, b);
  }

  lemma QuotientBelow(x: nat, b: nat, p: nat)
    requires b > 0 && x < b * p
    ensures Quotient(x, b) < p && x == Quotient(x, b) * b + Remainder(x, b)
  {
    assert x == Quotient(x, b) * b + Remainder(x, b);
    Scale(p, Quotient(x, b), b);
  }

  /** Digits denote the number they came from. */
  lemma {:induction false} NumberOfDigits(x: nat, b: nat, n: nat)
    requires b > 0 && x < Power(b, n)
    ensures Number(Digits(x, b, n), b) == x
    decreases n
  {
    if n > 0 {
      QuotientBelow(x, b, Power(b, n - 1));
      NumberOfDigits(Quotient(x, b), b, n - 1);
      NumberMore(Digits(Quotient(x, b), b, n - 1), Remainder(x, b), b);
    }
  }

  lemma NumberMore(d: seq<nat>, x: nat, b: nat)
    ensures Number(d + [x], b) == Number(d, b) * b + x
  {
    assert (d + [x])[..|d|] == d;
  }

  /** And a number has only one list of so many digits. */
  lemma {:induction false} DigitsOfNumber(d: seq<nat>, b: nat)
    requires b > 0 && AllBelow(d, b)
    ensures Number(d, b) < Power(b, |d|) && Digits(Number(d, b), b, |d|) == d
    decreases |d|
  {
    if d != [] {
      var n := |d| - 1;
      DigitsOfNumber(d[..n], b);
      DivMod(Number(d, b), b, Number(d[..n], b), d[n]);
      Below(Number(d[..n], b), d[n], b, Power(b, n));
      assert d == d[..n] + [d[n]];
    }
  }

  lemma Below(x: nat, r: nat, b: nat, p: nat)
    requires x < p && r < b
    ensures x * b + r < b * p
  {
    assert (x + 1) * b <= p * b;
  }

  predicate Legal(s: Settings, values: nat, b: nat, n: nat) {
    s.v < values && |s.wg| == n && s.wq == Zeros(n) && AllBelow(s.wg, b)
  }

  /** Every index below values * b^n decodes to legal settings and encodes back. */
  lemma EncodeDecode(index: nat, values: nat, b: nat, n: nat)
    requires b > 0 && index < values * Power(b, n)
    ensures Legal(Decoded(index, b, n), values, b, n) && Encoded(Decoded(index, b, n), b) == index
  {
    var p := Power(b, n);
    assert values * p == p * values;
    QuotientBelow(index, p, values);
    NumberOfDigits(Remainder(index, p), b, n);
    DigitsBelow(Remainder(index, p), b, n);
  }

  /** Every legal setting is decoded from its encoding, which is in range: the decoding is one to one and onto. */
  lemma DecodeEncode(s: Settings, values: nat, b: nat, n: nat)
    requires b > 0 && Legal(s, values, b, n)
    ensures Encoded(s, b) < values * Power(b, n) && Decoded(Encoded(s, b), b, n) == s
  {
    var p := Power(b, n);
    DigitsOfNumber(s.wg, b);
    DivMod(Encoded(s, b), p, s.v, Number(s.wg, b));
    Below(s.v, Number(s.wg, b), p, values);
    assert p * values == values * p;
  }

  /** Lexicographic order, the first digit deciding first. */
  predicate Before(a: seq<nat>, b: seq<nat>)
    requires |a| == |b|
  {
    a != [] && (a[0] < b[0] || (a[0] == b[0] && Before(a[1..], b[1..])))
  }

  /** The settings in the order in which they are compared. */
  function Ranked(s: Settings): seq<nat> { [s.v] + s.wg }

  lemma {:induction false} NumberSplit(x: nat, d: seq<nat>, b: nat)
    ensures Number([x] + d, b) == x * Power(b, |d|) + Number(d, b)
    decreases |d|
  {
    var t := [x] + d;
    if d == [] {
      assert t[..0] == [];
    } else {
      var n := |d| - 1;
      assert t[..|t| - 1] == [x] + d[..n];
      NumberSplit(x, d[..n], b);
      assert x * Power(b, n) * b == x * (b * Power(b, n));
    }
  }

  lemma {:induction false} OrderKept(a: seq<nat>, c: seq<nat>, b: nat)
    requires b > 0 && |a| == |c|
    requires AllBelow(a, b) && AllBelow(c, b)
    ensures Number(a, b) < Number(c, b) <==> Before(a, c)
    decreases |a|
  {
    if a != [] {
      var n := |a| - 1;
      var p := Power(b, n);
      assert a == [a[0]] + a[1..] && c == [c[0]] + c[1..];
      NumberSplit(a[0], a[1..], b);
      NumberSplit(c[0], c[1..], b);
      DigitsOfNumber(a[1..], b);
      DigitsOfNumber(c[1..], b);
      OrderKept(a[1..], c[1..], b);
      FirstDecides(a[0], Number(a[1..], b), c[0], Number(c[1..], b), p);
    }
  }

  lemma FirstDecides(x: nat, r: nat, y: nat, t: nat, p: nat)
    requires r < p && t < p
    ensures x * p + r < y * p + t <==> x < y || (x == y && r < t)
  {
    Scale(x + 1, y, p);
    Scale(y + 1, x, p);
  }

  /** Smaller index, smaller settings: `v` first, then the weights from the first user on. */
  lemma OrderPreserved(i: nat, j: nat, values: nat, b: nat, n: nat)
    requires b > 0 && i < values * Power(b, n) && j < values * Power(b, n)
    ensures i < j <==> Before(Ranked(Decoded(i, b, n)), Ranked(Decoded(j, b, n)))
  {
    var s, t := Decoded(i, b, n), Decoded(j, b, n);
    EncodeDecode(i, values, b, n);
    EncodeDecode(j, values, b, n);
    DigitsOfNumber(s.wg, b);
    DigitsOfNumber(t.wg, b);
    OrderKept(s.wg, t.wg, b);
    FirstDecides(s.v, Number(s.wg, b), t.v, Number(t.wg, b), Power(b, n));
    assert Ranked(s)[1..] == s.wg && Ranked(t)[1..] == t.wg;
  }

  // ---- the two responses ----

  /** `get_action`: one array of v, then what it calls the second weights, then the first. */
  method GetAction(index: nat, b: nat, n: nat) returns (full: seq<nat>)
    requires b > 0
    ensures var s := Decoded(index, b, n); full == [s.v] + s.wq + s.wg
  {
    var s := DecodeAction(index, b, n);
    var v, wgList, wqList := s.v, s.wq, s.wg;
    full := [v];
    for i := 0 to n
      invariant full == [v] + wgList[..i]
    {
      full := full + [wgList[i]];
    }
    assert wgList[..n] == wgList;
    for i := 0 to n
      invariant full == [v] + wgList + wqList[..i]
    {
      full := full + [wqList[i]];
    }
    assert wqList[..n] == wqList;
  }

  /** The response while training: slices of the array. */
  method TrainingResponse(index: nat, b: nat, n: nat) returns (s: Settings)
    requires b > 0
    ensures s == Decoded(index, b, n)
  {
    var full := GetAction(index, b, n);
    ghost var d := Decoded(index, b, n);
    assert full[1..1 + n] == d.wq && full[1 + n..1 + 2 * n] == d.wg;
    s := Settings(full[0], full[1..1 + n], full[1 + n..1 + 2 * n]);
  }

  /** The response while predicting: the decoded action as it is. */
  method PredictResponse(index: nat, b: nat, n: nat) returns (s: Settings)
    requires b > 0
    ensures s == Decoded(index, b, n)
  {
    s := DecodeAction(index, b, n);
  }
}
