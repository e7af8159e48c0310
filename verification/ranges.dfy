/** Byte ranges of a request: `range_error` and `coalesce_ranges` (sections 14.1.2 and 14.2 of RFC 9110). */
module Ranges {

  const RANGE_MAX_COUNT := 1024

  /** First and last position; -1 where the request gives none. */
  type Range = (int, int)

  // ---- what a range asks for ----

  /** Section 14.1.2 of RFC 9110: a suffix is satisfiable when it is not empty, any other range when it is
      not reversed and starts inside the representation. A range without either position is not in its grammar. */
  predicate RfcSatisfiable(r: Range, len: nat) {
    if r.0 == -1 then r.1 > 0 else 0 <= r.0 < len && (r.1 == -1 || r.0 <= r.1)
  }

  /** The code's own rule: a suffix must not be longer than the representation, and the missing range is
      everything. */
  predicate Satisfiable(r: Range, len: nat) {
    if r.0 == -1 && r.1 == -1 then len > 0
    else if r.0 == -1 then 0 < r.1 <= len
    else if r.1 == -1 then 0 <= r.0 < len
    else 0 <= r.0 <= r.1 && r.0 < len
  }

  /** Byte `x` of the representation is asked for. */
  predicate Asks(r: Range, len: nat, x: int) {
    0 <= x < len &&
    if r.0 == -1 && r.1 == -1 then true
    else if r.0 == -1 then len - r.1 <= x
    else if r.1 == -1 then r.0 <= x
    else r.0 <= x <= r.1
  }

  // ---- normalisation ----

  function Normalise(r: Range, len: nat): Range {
    var (a, b) := if r.0 == -1 && r.1 == -1 then (0, len as int) else r;
    var (c, d) := if a == -1 then (len - b, len - 1) else (a, b);
    (c, if d == -1 || d >= len then len - 1 else d)
  }

  predicate Within(r: Range, len: nat) { 0 <= r.0 <= r.1 < len }

  predicate In(r: Range, x: int) { r.0 <= x <= r.1 }

  /** What the header parser can leave in a range: -1 or a position. */
  predicate Wellformed(r: Range) { r.0 >= -1 && r.1 >= -1 }

  /** Normalising keeps exactly the bytes asked for, and lands inside the representation exactly when
      the range can be met. */
  lemma NormaliseMeaning(r: Range, len: nat, x: int)
    requires Wellformed(r)
    ensures Within(Normalise(r, len), len) <==> Satisfiable(r, len)
    ensures Satisfiable(r, len) ==> (In(Normalise(r, len), x) <==> Asks(r, len, x))
  {}

  /** Of what the RFC calls satisfiable, the code refuses exactly the suffixes longer than the
      representation, for which the RFC sends all of it; beyond the RFC it takes only the range without
      positions. */
  lemma RefusedThoughSatisfiable(r: Range, len: nat)
    requires Wellformed(r)
    ensures RfcSatisfiable(r, len) && !Within(Normalise(r, len), len) <==> r.0 == -1 && r.1 > len
    ensures !RfcSatisfiable(r, len) && Within(Normalise(r, len), len) <==> r == (-1, -1) && len > 0
  {
    NormaliseMeaning(r, len, 0);
  }

  // ---- coverage ----

  predicate AllWithin(rs: seq<Range>, len: nat) { forall i | 0 <= i < |rs| :: Within(rs[i], len) }

  ghost predicate Covers(rs: seq<Range>, x: int) { exists i :: 0 <= i < |rs| && In(rs[i], x) }

  ghost predicate SameCover(a: seq<Range>, b: seq<Range>) { forall x :: Covers(a, x) <==> Covers(b, x) }

  predicate SortedFirst(rs: seq<Range>) { forall i, j | 0 <= i < j < |rs| :: rs[i].0 <= rs[j].0 }

  /** A possible outcome of sorting by first position. */
  ghost predicate Arranged(t: seq<Range>, rs: seq<Range>) { SortedFirst(t) && multiset(t) == multiset(rs) }

  /** Some range starts before `r` and reaches it. */
  predicate Reached(rs: seq<Range>, r: Range) { exists s | s in rs :: s.0 < r.0 <= s.1 + 1 }

  /** Every range that occurs twice is reached by one that starts earlier. */
  predicate NoLone(rs: seq<Range>) { forall r | r in rs :: multiset(rs)[r] >= 2 ==> Reached(rs, r) }

  /** At least one uncovered byte between consecutive ranges. */
  predicate Gapped(rs: seq<Range>) { forall i, j | 0 <= i < j < |rs| :: rs[i].1 + 1 < rs[j].0 }

  lemma CoversPrefix(rs: seq<Range>, r: Range, x: int)
    ensures Covers(rs + [r], x) <==> Covers(rs, x) || In(r, x)
  {
    var t := rs + [r];
    if Covers(rs, x) {
      var i :| 0 <= i < |rs| && In(rs[i], x);
      assert t[i] == rs[i];
    }
    if In(r, x) { assert t[|rs|] == r; }
    if Covers(t, x) {
      var i :| 0 <= i < |t| && In(t[i], x);
      assert i < |rs| ==> t[i] == rs[i];
    }
  }

  // ---- coalescing ----

  /** `r`, starting no earlier than the ranges taken so far, joined to the last of them or put behind it. */
  function Merge(acc: seq<Range>, r: Range): seq<Range> {
    if acc != [] && r.0 <= acc[|acc| - 1].1 + 1 && r != acc[|acc| - 1]
    then acc[..|acc| - 1] + [(acc[|acc| - 1].0, if acc[|acc| - 1].1 > r.1 then acc[|acc| - 1].1 else r.1)]
    else acc + [r]
  }

  function Coalesce(rs: seq<Range>): seq<Range> {
    if rs == [] then [] else Merge(Coalesce(rs[..|rs| - 1]), rs[|rs| - 1])
  }

  ghost predicate Ready(c: seq<Range>, r: Range, len: nat) {
    AllWithin(c, len) && SortedFirst(c) && Within(r, len) && (c != [] ==> c[|c| - 1].0 <= r.0)
  }

  lemma MergeShape(c: seq<Range>, r: Range, len: nat)
    requires Ready(c, r, len)
    ensures Merge(c, r) != [] && AllWithin(Merge(c, r), len) && SortedFirst(Merge(c, r))
    ensures Merge(c, r)[|Merge(c, r)| - 1].0 <= r.0
  {}

  lemma MergeCover(c: seq<Range>, r: Range, len: nat, x: int)
    requires Ready(c, r, len)
    ensures Covers(Merge(c, r), x) <==> Covers(c, x) || In(r, x)
  {
    var m := Merge(c, r);
    if m == c + [r] {
      CoversPrefix(c, r, x);
    } else {
      var init, last := c[..|c| - 1], c[|c| - 1];
      assert c == init + [last];
      CoversPrefix(init, last, x);
      CoversPrefix(init, m[|m| - 1], x);
    }
  }

  lemma PrefixShape(rs: seq<Range>, n: nat, len: nat)
    requires AllWithin(rs, len) && SortedFirst(rs) && n < |rs|
    ensures AllWithin(rs[..n], len) && SortedFirst(rs[..n])
    ensures n > 0 ==> rs[..n][|rs[..n]| - 1].0 <= rs[n].0
  {}

  lemma {:induction false} CoalesceShape(rs: seq<Range>, len: nat)
    requires AllWithin(rs, len) && SortedFirst(rs)
    ensures AllWithin(Coalesce(rs), len) && SortedFirst(Coalesce(rs))
    ensures rs != [] ==> Coalesce(rs) != [] && Coalesce(rs)[|Coalesce(rs)| - 1].0 <= rs[|rs| - 1].0
    decreases |rs|
  {
    if rs != [] {
      var n := |rs| - 1;
      var c, r := Coalesce(rs[..n]), rs[n];
      assert Ready(c, r, len) by {
        PrefixShape(rs, n, len);
        CoalesceShape(rs[..n], len);
      }
      MergeShape(c, r, len);
      assert Coalesce(rs) == Merge(c, r);
    }
  }

  /** Joining loses no byte and adds none. */
  lemma {:induction false} CoalesceCover(rs: seq<Range>, len: nat, x: int)
    requires AllWithin(rs, len) && SortedFirst(rs)
    ensures Covers(Coalesce(rs), x) <==> Covers(rs, x)
    decreases |rs|
  {
    if rs != [] {
      var n := |rs| - 1;
      CoalesceCover(rs[..n], len, x);
      CoalesceShape(rs[..n], len);
      assert n > 0 ==> rs[..n][n - 1] == rs[n - 1];
      MergeCover(Coalesce(rs[..n]), rs[n], len, x);
      assert rs == rs[..n] + [rs[n]];
      CoversPrefix(rs[..n], rs[n], x);
    }
  }

  /** When the last range kept starts where the last range taken did, it is one of those taken. */
  ghost predicate LastTaken(c: seq<Range>, rs: seq<Range>) {
    c != [] && rs != [] && c[|c| - 1].0 == rs[|rs| - 1].0 ==> c[|c| - 1] in rs
  }

  lemma MergeGapped(c: seq<Range>, r: Range, len: nat)
    requires Ready(c, r, len) && Gapped(c) && (c != [] ==> c[|c| - 1] != r)
    ensures Gapped(Merge(c, r))
  {}

  lemma MergeTaken(c: seq<Range>, prev: seq<Range>, r: Range, len: nat)
    requires Ready(c, r, len) && (c != [] ==> prev != [] && c[|c| - 1].0 <= prev[|prev| - 1].0 <= r.0)
    requires LastTaken(c, prev)
    ensures LastTaken(Merge(c, r), prev + [r])
  {}

  lemma {:induction false} CoalesceTaken(rs: seq<Range>, len: nat)
    requires AllWithin(rs, len) && SortedFirst(rs)
    ensures LastTaken(Coalesce(rs), rs)
    decreases |rs|
  {
    if rs != [] {
      var n := |rs| - 1;
      var prev, r := rs[..n], rs[n];
      assert rs == prev + [r];
      CoalesceTaken(prev, len);
      CoalesceShape(prev, len);
      assert n > 0 ==> prev[n - 1] == rs[n - 1];
      MergeTaken(Coalesce(prev), prev, r, len);
    }
  }

  /** Nothing taken starts before the last range kept and reaches it, if what is kept is apart. */
  lemma LastUnreached(rs: seq<Range>, len: nat, s: Range)
    requires AllWithin(rs, len) && SortedFirst(rs) && Gapped(Coalesce(rs))
    requires s in rs
    ensures Coalesce(rs) != [] && !(s.0 < Coalesce(rs)[|Coalesce(rs)| - 1].0 <= s.1 + 1)
  {
    CoalesceShape(rs, len);
    var c := Coalesce(rs);
    var x := c[|c| - 1].0 - 1;
    BeforeLast(c);
    CoalesceCover(rs, len, x);
    CoveredBy(rs, s, x);
  }

  lemma NoneReaches(rs: seq<Range>, len: nat)
    requires AllWithin(rs, len) && SortedFirst(rs) && Gapped(Coalesce(rs))
    ensures Coalesce(rs) != [] ==> !Reached(rs, Coalesce(rs)[|Coalesce(rs)| - 1])
  {
    forall s | s in rs ensures Coalesce(rs) != [] && !(s.0 < Coalesce(rs)[|Coalesce(rs)| - 1].0 <= s.1 + 1) {
      LastUnreached(rs, len, s);
    }
  }

  lemma BeforeLast(c: seq<Range>)
    requires c != [] && Gapped(c)
    ensures !Covers(c, c[|c| - 1].0 - 1)
  {
    forall i | 0 <= i < |c| ensures !In(c[i], c[|c| - 1].0 - 1) {
      assert i < |c| - 1 ==> c[i].1 + 1 < c[|c| - 1].0;
    }
  }

  lemma CoveredBy(rs: seq<Range>, s: Range, x: int)
    requires s in rs
    ensures In(s, x) ==> Covers(rs, x)
  {
    var k :| 0 <= k < |rs| && rs[k] == s;
    assert In(rs[k], x) ==> Covers(rs, x);
  }

  /** A range equal to the last one kept was taken before, and nothing reaches it. */
  lemma LastRepeated(prev: seq<Range>, r: Range, len: nat)
    requires AllWithin(prev + [r], len) && SortedFirst(prev + [r]) && Gapped(Coalesce(prev))
    ensures var c := Coalesce(prev); c != [] && c[|c| - 1] == r ==> r in prev && !Reached(prev, r)
  {
    PrefixShape(prev + [r], |prev|, len);
    assert (prev + [r])[..|prev|] == prev;
    CoalesceShape(prev, len);
    CoalesceTaken(prev, len);
    NoneReaches(prev, len);
  }

  /** If every repeated range is reached from before, no two of the ranges kept overlap or touch. */
  lemma {:induction false} CoalesceGapped(t: seq<Range>, n: nat, len: nat)
    requires AllWithin(t, len) && SortedFirst(t) && NoLone(t) && n <= |t|
    ensures Gapped(Coalesce(t[..n]))
  {
    if n > 0 {
      var prev, r := t[..n - 1], t[n - 1];
      assert t[..n] == prev + [r];
      CoalesceGapped(t, n - 1, len);
      if r in prev { RepeatedReached(t, n - 1); }
      UpToShape(t, n, len);
      GappedStep(prev, r, len);
    }
  }

  lemma UpToShape(t: seq<Range>, n: nat, len: nat)
    requires AllWithin(t, len) && SortedFirst(t) && n <= |t|
    ensures AllWithin(t[..n], len) && SortedFirst(t[..n])
  {}

  lemma GappedStep(prev: seq<Range>, r: Range, len: nat)
    requires AllWithin(prev + [r], len) && SortedFirst(prev + [r]) && Gapped(Coalesce(prev))
    requires r in prev ==> Reached(prev, r)
    ensures Gapped(Coalesce(prev + [r]))
  {
    LastRepeated(prev, r, len);
    ReadyNext(prev, r, len);
    MergeGapped(Coalesce(prev), r, len);
    CoalesceNext(prev, r);
  }

  lemma ReadyNext(prev: seq<Range>, r: Range, len: nat)
    requires AllWithin(prev + [r], len) && SortedFirst(prev + [r])
    ensures Ready(Coalesce(prev), r, len)
  {
    var t := prev + [r];
    assert t[|prev|] == r && forall i | 0 <= i < |prev| :: t[i] == prev[i];
    CoalesceShape(prev, len);
  }

  lemma RepeatedReached(t: seq<Range>, n: nat)
    requires SortedFirst(t) && NoLone(t) && n < |t| && t[n] in t[..n]
    ensures Reached(t[..n], t[n])
  {
    var i :| 0 <= i < n && t[i] == t[n];
    TwiceCount(t, i, n);
    var s :| s in t && s.0 < t[n].0 <= s.1 + 1;
    var k :| 0 <= k < |t| && t[k] == s;
    assert t[..n][k] == s;
  }

  // ---- and only then ----

  lemma MergeCrowded(c: seq<Range>, r: Range)
    ensures !Gapped(c) ==> !Gapped(Merge(c, r))
  {
    if !Gapped(c) {
      var m := Merge(c, r);
      var i, j :| 0 <= i < j < |c| && !(c[i].1 + 1 < c[j].0);
      assert m[i].1 >= c[i].1 && m[j].0 == c[j].0;
    }
  }

  lemma {:induction false} CoalesceCrowded(a: seq<Range>, b: seq<Range>)
    requires !Gapped(Coalesce(a))
    ensures !Gapped(Coalesce(a + b))
    decreases |b|
  {
    if b == [] {
      assert a + b == a;
    } else {
      var n := |b| - 1;
      CoalesceCrowded(a, b[..n]);
      assert (a + b)[..|a + b| - 1] == a + b[..n];
      MergeCrowded(Coalesce(a + b[..n]), b[n]);
    }
  }

  lemma AloneKept(rs: seq<Range>)
    requires |rs| <= 1
    ensures Coalesce(rs) == rs
  {
    if |rs| == 1 { assert rs[..0] == [] && [] + [rs[0]] == rs; }
  }

  /** A range nothing reaches is put behind what was kept, and so is its repetition. */
  lemma TwiceKept(a: seq<Range>, r: Range, len: nat)
    requires AllWithin(a, len) && SortedFirst(a) && r.0 <= r.1
    requires forall s | s in a :: s.1 + 1 < r.0
    ensures Coalesce(a + [r, r]) == Coalesce(a) + [r] + [r] && !Gapped(Coalesce(a + [r, r]))
  {
    var c := Coalesce(a);
    if c != [] { LastEnd(a, len, r.0); }
    CoalesceNext(a, r);
    CoalesceNext(a + [r], r);
    assert a + [r] + [r] == a + [r, r];
    PairCrowded(c, r);
  }

  lemma CoalesceNext(a: seq<Range>, r: Range)
    ensures Coalesce(a + [r]) == Merge(Coalesce(a), r)
  {
    assert (a + [r])[..|a|] == a;
  }

  lemma PairCrowded(c: seq<Range>, r: Range)
    requires r.0 <= r.1
    ensures !Gapped(c + [r] + [r])
  {
    var m := c + [r] + [r];
    assert m[|c|] == r && m[|c| + 1] == r;
  }

  lemma LastEnd(a: seq<Range>, len: nat, bound: int)
    requires AllWithin(a, len) && SortedFirst(a) && Coalesce(a) != []
    requires forall s | s in a :: s.1 + 1 < bound
    ensures Coalesce(a)[|Coalesce(a)| - 1].1 + 1 < bound
  {
    var c := Coalesce(a);
    CoalesceShape(a, len);
    var x := c[|c| - 1].1;
    CoalesceCover(a, len, x);
    assert Covers(c, x) by { assert In(c[|c| - 1], x); }
    var i :| 0 <= i < |a| && In(a[i], x);
    assert a[i] in a;
  }

  lemma Removed(rs: seq<Range>, r: Range) returns (rest: seq<Range>)
    requires r in rs
    ensures multiset(rest) + multiset{r} == multiset(rs)
  {
    var i :| 0 <= i < |rs| && rs[i] == r;
    rest := rs[..i] + rs[i + 1..];
    assert rs == rs[..i] + ([r] + rs[i + 1..]);
  }

  /** Where a range starting at `first` goes in front of all that start there. */
  lemma PlaceBefore(s: seq<Range>, first: int) returns (k: nat)
    requires SortedFirst(s)
    ensures k <= |s|
    ensures forall i | 0 <= i < k :: s[i].0 < first
    ensures forall i | k <= i < |s| :: first <= s[i].0
  {
    k := 0;
    while k < |s| && s[k].0 < first
      invariant k <= |s| && forall i | 0 <= i < k :: s[i].0 < first
    {
      k := k + 1;
    }
  }

  lemma {:induction false} SortExists(rs: seq<Range>) returns (t: seq<Range>)
    ensures SortedFirst(t) && multiset(t) == multiset(rs)
    decreases |rs|
  {
    if rs == [] {
      t := [];
    } else {
      var n := |rs| - 1;
      assert rs == rs[..n] + [rs[n]];
      t := SortExists(rs[..n]);
      var k := PlaceBefore(t, rs[n].0);
      InsertedCount(t, k, rs[n]);
      InsertedSorted(t, k, rs[n]);
      t := Inserted(t, k, rs[n]);
    }
  }

  /** An arrangement in which two occurrences of `r` come before every other range that starts there. */
  lemma PairInFront(rs: seq<Range>, r: Range) returns (a: seq<Range>, b: seq<Range>)
    requires multiset(rs)[r] >= 2
    ensures SortedFirst(a + [r, r] + b) && multiset(a + [r, r] + b) == multiset(rs)
    ensures forall s | s in a :: s.0 < r.0
  {
    var one := Removed(rs, r);
    assert r in multiset(one);
    var rest := Removed(one, r);
    var t := SortExists(rest);
    var k := PlaceBefore(t, r.0);
    a, b := t[..k], t[k..];
    assert t == a + b;
    PairSorted(a, r, b);
    PairCount(a, r, b);
  }

  lemma PairCount(a: seq<Range>, r: Range, b: seq<Range>)
    ensures multiset(a + [r, r] + b) == multiset(a + b) + multiset{r} + multiset{r}
  {}

  lemma PairSorted(a: seq<Range>, r: Range, b: seq<Range>)
    requires SortedFirst(a + b)
    requires forall i | 0 <= i < |a| :: a[i].0 < r.0
    requires forall i | 0 <= i < |b| :: r.0 <= b[i].0
    ensures SortedFirst(a + [r, r] + b)
  {
    var u, t := a + b, a + [r, r] + b;
    assert forall i | 0 <= i < |a| :: u[i] == a[i] && t[i] == a[i];
    assert forall i | 0 <= i < |b| :: u[|a| + i] == b[i];
    assert forall i | |a| + 2 <= i < |t| :: t[i] == b[i - |a| - 2];
    assert t[|a|] == r && t[|a| + 1] == r;
  }

  lemma LoneCrowds(rs: seq<Range>, len: nat, r: Range)
    requires AllWithin(rs, len) && multiset(rs)[r] >= 2 && !Reached(rs, r)
    ensures exists t :: Arranged(t, rs) && !Gapped(Coalesce(t))
  {
    var a, b := PairInFront(rs, r);
    PermutedFacts(rs, a + [r, r] + b, len);
    InFront(a, r, b, len);
    forall s | s in a ensures s.1 + 1 < r.0 { FromFront(a, [r, r], b, rs, s); }
    TwiceKept(a, r, len);
    CoalesceCrowded(a + [r, r], b);
    assert Arranged(a + [r, r] + b, rs);
  }

  lemma FromFront(a: seq<Range>, m: seq<Range>, b: seq<Range>, rs: seq<Range>, s: Range)
    requires multiset(a + m + b) == multiset(rs) && s in a
    ensures s in rs
  {
    assert s in multiset(a + m + b);
  }

  lemma InFront(a: seq<Range>, r: Range, b: seq<Range>, len: nat)
    requires AllWithin(a + [r, r] + b, len) && SortedFirst(a + [r, r] + b)
    ensures AllWithin(a, len) && SortedFirst(a) && Within(r, len)
  {
    var t := a + [r, r] + b;
    assert forall i | 0 <= i < |a| :: t[i] == a[i];
    assert t[|a|] == r;
  }

  /** Whatever the order among equal firsts, the ranges kept are apart, exactly when every range listed
      twice is reached by one that starts earlier. */
  lemma CanonicalIff(rs: seq<Range>, len: nat)
    requires AllWithin(rs, len)
    ensures (forall t | Arranged(t, rs) :: Gapped(Coalesce(t))) <==> NoLone(rs)
  {
    if NoLone(rs) {
      forall t | Arranged(t, rs) ensures Gapped(Coalesce(t)) {
        PermutedFacts(rs, t, len);
        CoalesceGapped(t, |t|, len);
        assert t[..|t|] == t;
      }
    } else {
      var r :| r in rs && multiset(rs)[r] >= 2 && !Reached(rs, r);
      LoneCrowds(rs, len, r);
    }
  }

  /** With a longer range from the same start, the order among them decides. */
  lemma OrderDecides(r: Range, q: Range)
    requires r.0 == q.0 && r.0 <= r.1 < q.1
    ensures Coalesce([r, r, q]) == [r, q] && !Gapped([r, q])
    ensures Coalesce([r, q, r]) == [q] && Gapped([q])
  {
    CoalesceThree(r, r, q);
    CoalesceThree(r, q, r);
    assert [r] + [r] == [r, r] && [r, r][..1] + [q] == [r, q];
    assert [r][..0] + [q] == [q] && [q][..0] + [q] == [q];
    assert [r, q][0].1 + 1 >= [r, q][1].0;
  }

  lemma CoalesceThree(x: Range, y: Range, z: Range)
    ensures Coalesce([x, y, z]) == Merge(Merge([x], y), z)
  {
    AloneKept([x]);
    CoalesceNext([x], y);
    assert [x] + [y] == [x, y];
    CoalesceNext([x, y], z);
    assert [x, y] + [z] == [x, y, z];
  }

  // ---- the canonical form is unique and shortest ----

  ghost predicate Canonical(c: seq<Range>, len: nat) { AllWithin(c, len) && Gapped(c) }

  lemma {:induction false} CanonicalUnique(a: seq<Range>, b: seq<Range>, len: nat)
    requires Canonical(a, len) && Canonical(b, len) && SameCover(a, b)
    ensures a == b
    decreases |a|
  {
    if a == [] {
      if b != [] { assert Covers(b, b[0].0) by { assert In(b[0], b[0].0); } }
    } else {
      FirstSame(a, b, len);
      TailsSame(a, b, len);
      CanonicalUnique(a[1..], b[1..], len);
      assert a == [a[0]] + a[1..] && b == [b[0]] + b[1..];
    }
  }

  lemma FirstSame(a: seq<Range>, b: seq<Range>, len: nat)
    requires Canonical(a, len) && Canonical(b, len) && SameCover(a, b) && a != []
    ensures b != [] && a[0] == b[0]
  {
    assert Covers(a, a[0].0) by { assert In(a[0], a[0].0); }
    FirstBound(b, len, a[0].0);
    assert Covers(b, b[0].0) by { assert In(b[0], b[0].0); }
    FirstBound(a, len, b[0].0);
    FirstReach(a, b, len);
    FirstReach(b, a, len);
  }

  lemma TailsSame(a: seq<Range>, b: seq<Range>, len: nat)
    requires Canonical(a, len) && Canonical(b, len) && SameCover(a, b)
    requires a != [] && b != [] && a[0] == b[0]
    ensures SameCover(a[1..], b[1..]) && Canonical(a[1..], len) && Canonical(b[1..], len)
  {
    forall x ensures Covers(a[1..], x) <==> Covers(b[1..], x) {
      TailCover(a, len, x);
      TailCover(b, len, x);
    }
  }

  lemma FirstBound(a: seq<Range>, len: nat, x: int)
    requires Canonical(a, len) && Covers(a, x)
    ensures a != [] && a[0].0 <= x
  {
    var i :| 0 <= i < |a| && In(a[i], x);
    assert i > 0 ==> a[0].1 + 1 < a[i].0;
  }

  lemma FirstReach(a: seq<Range>, b: seq<Range>, len: nat)
    requires Canonical(a, len) && Canonical(b, len) && SameCover(a, b)
    requires a != [] && b != [] && a[0].0 == b[0].0
    ensures a[0].1 <= b[0].1
  {
    var x := b[0].1 + 1;
    assert !Covers(b, x) by {
      forall i | 0 <= i < |b| ensures !In(b[i], x) { assert i > 0 ==> x < b[i].0; }
    }
    assert !In(a[0], x);
  }

  lemma TailCover(a: seq<Range>, len: nat, x: int)
    requires Canonical(a, len) && a != []
    ensures Covers(a[1..], x) <==> Covers(a, x) && x > a[0].1
  {
    if Covers(a[1..], x) {
      var i :| 0 <= i < |a[1..]| && In(a[1..][i], x);
      assert In(a[i + 1], x) && a[0].1 + 1 < a[i + 1].0;
    }
    if Covers(a, x) && x > a[0].1 {
      var i :| 0 <= i < |a| && In(a[i], x);
      assert a[1..][i - 1] == a[i];
    }
  }

  function Firsts(rs: seq<Range>): set<int> { set i | 0 <= i < |rs| :: rs[i].0 }

  lemma {:induction false} FirstsCount(rs: seq<Range>)
    ensures |Firsts(rs)| <= |rs|
    ensures (forall i, j | 0 <= i < j < |rs| :: rs[i].0 != rs[j].0) ==> |Firsts(rs)| == |rs|
  {
    if rs != [] {
      var n := |rs| - 1;
      FirstsCount(rs[..n]);
      assert Firsts(rs) == Firsts(rs[..n]) + {rs[n].0};
    }
  }

  /** No list of ranges covering the same bytes is shorter than the canonical one. */
  lemma CanonicalShortest(c: seq<Range>, other: seq<Range>, len: nat)
    requires Canonical(c, len) && SameCover(c, other)
    ensures |c| <= |other|
  {
    forall f | f in Firsts(c) ensures f in Firsts(other) {
      var i :| 0 <= i < |c| && c[i].0 == f;
      StartsRange(c, other, len, i);
    }
    FirstsCount(c);
    FirstsCount(other);
    assert Firsts(c) <= Firsts(other);
    SubsetSize(Firsts(c), Firsts(other));
  }

  lemma StartsRange(c: seq<Range>, other: seq<Range>, len: nat, i: nat)
    requires Canonical(c, len) && SameCover(c, other) && i < |c|
    ensures c[i].0 in Firsts(other)
  {
    var f := c[i].0;
    assert Covers(c, f) by { assert In(c[i], f); }
    assert !Covers(c, f - 1) by {
      forall k | 0 <= k < |c| ensures !In(c[k], f - 1) {
        if k < i { assert c[k].1 + 1 < c[i].0; }
        if k > i { assert c[i].1 + 1 < c[k].0; }
      }
    }
    var j :| 0 <= j < |other| && In(other[j], f);
    assert !In(other[j], f - 1);
    assert other[j].0 == f;
  }

  lemma {:induction false} SubsetSize<T>(a: set<T>, b: set<T>)
    requires a <= b
    ensures |a| <= |b|
    decreases |a|
  {
    if |a| > 0 {
      var x :| x in a;
      SubsetSize(a - {x}, b - {x});
    }
  }

  // ---- the imperative code ----

  /** `std::sort` by first position: some arrangement in that order, equal firsts in any order. */
  method SortByFirst(rs: seq<Range>) returns (t: seq<Range>)
    ensures SortedFirst(t) && multiset(t) == multiset(rs)
  {
    t := [];
    for i := 0 to |rs|
      invariant SortedFirst(t) && multiset(t) == multiset(rs[..i])
    {
      assert rs[..i + 1] == rs[..i] + [rs[i]];
      var k := PlaceFor(t, rs[i]);
      InsertedCount(t, k, rs[i]);
      InsertedSorted(t, k, rs[i]);
      t := Inserted(t, k, rs[i]);
    }
    assert rs[..|rs|] == rs;
  }

  method PlaceFor(s: seq<Range>, r: Range) returns (k: nat)
    requires SortedFirst(s)
    ensures k <= |s|
    ensures forall i | 0 <= i < k :: s[i].0 <= r.0
    ensures forall i | k <= i < |s| :: r.0 < s[i].0
  {
    k := |s|;
    while k > 0 && s[k - 1].0 > r.0
      invariant 0 <= k <= |s| && forall i | k <= i < |s| :: s[i].0 > r.0
    {
      k := k - 1;
    }
  }

  function Inserted(s: seq<Range>, k: nat, r: Range): seq<Range>
    requires k <= |s|
  {
    s[..k] + [r] + s[k..]
  }

  lemma InsertedSorted(s: seq<Range>, k: nat, r: Range)
    requires SortedFirst(s) && k <= |s|
    requires forall i | 0 <= i < k :: s[i].0 <= r.0
    requires forall i | k <= i < |s| :: r.0 <= s[i].0
    ensures SortedFirst(Inserted(s, k, r))
  {
    var t := Inserted(s, k, r);
    assert forall i | 0 <= i < |t| :: t[i] == if i < k then s[i] else if i == k then r else s[i - 1];
  }

  lemma InsertedCount(s: seq<Range>, k: nat, r: Range)
    requires k <= |s|
    ensures multiset(Inserted(s, k, r)) == multiset(s) + multiset{r}
  {
    assert s == s[..k] + s[k..];
  }

  lemma PermutedFacts(s: seq<Range>, t: seq<Range>, len: nat)
    requires multiset(s) == multiset(t)
    ensures AllWithin(s, len) ==> AllWithin(t, len)
    ensures SameCover(s, t)
    ensures NoLone(s) ==> NoLone(t)
  {
    forall r ensures r in s <==> r in t { assert r in multiset(s) <==> r in multiset(t); }
    if AllWithin(s, len) {
      forall i | 0 <= i < |t| ensures Within(t[i], len) { assert t[i] in s; }
    }
    forall x ensures Covers(s, x) <==> Covers(t, x) {
      CoversBySome(s, t, x);
      CoversBySome(t, s, x);
    }
  }

  lemma CoversBySome(s: seq<Range>, t: seq<Range>, x: int)
    requires forall r :: r in s ==> r in t
    ensures Covers(s, x) ==> Covers(t, x)
  {
    if Covers(s, x) {
      var i :| 0 <= i < |s| && In(s[i], x);
      CoversMember(t, s[i], x);
    }
  }

  lemma {:induction false} CoversMember(t: seq<Range>, r: Range, x: int)
    requires r in t && In(r, x)
    ensures Covers(t, x)
  {
    var n := |t| - 1;
    assert t == t[..n] + [t[n]];
    CoversPrefix(t[..n], t[n], x);
    if t[n] != r { CoversMember(t[..n], r, x); }
  }

  lemma TwiceCount(t: seq<Range>, i: nat, j: nat)
    requires i < j < |t|
    ensures t[i] == t[j] ==> multiset(t)[t[i]] >= 2
  {
    assert t == t[..j] + t[j..];
    assert t[..j][i] == t[i] && t[j..][0] == t[j];
    assert t[i] in multiset(t[..j]) && t[j] in multiset(t[j..]);
  }

  /** `coalesce_ranges`, on ranges already normalised. */
  method CoalesceRanges(ranges: seq<Range>, len: nat) returns (coalesced: seq<Range>)
    ensures AllWithin(coalesced, len) || coalesced == ranges
    ensures AllWithin(ranges, len) ==>
              && AllWithin(coalesced, len) && SortedFirst(coalesced) && SameCover(coalesced, ranges)
              && (exists t :: Arranged(t, ranges) && coalesced == Coalesce(t))
  {
    if |ranges| <= 1 {
      AloneKept(ranges);
      assert Arranged(ranges, ranges);
      return ranges;
    }
    var sorted := SortByFirst(ranges);
    assert Arranged(sorted, ranges);
    if AllWithin(ranges, len) { ArrangedFacts(sorted, ranges, len); }
    coalesced := MergeInOrder(sorted, len);
  }

  /** The loop of `coalesce_ranges`, which normalises once more and leaves out what is not inside. */
  method MergeInOrder(sorted: seq<Range>, len: nat) returns (coalesced: seq<Range>)
    ensures AllWithin(coalesced, len)
    ensures AllWithin(sorted, len) ==> coalesced == Coalesce(sorted)
  {
    coalesced := [];
    for i := 0 to |sorted|
      invariant AllWithin(coalesced, len)
      invariant AllWithin(sorted, len) ==> coalesced == Coalesce(sorted[..i])
    {
      var r := Normalise(sorted[i], len);
      NextMerged(sorted, i, r, coalesced, len);
      if Within(r, len) { coalesced := Merge(coalesced, r); }
    }
    assert sorted[..|sorted|] == sorted;
  }

  lemma MergeWithin(c: seq<Range>, r: Range, len: nat)
    requires AllWithin(c, len) && Within(r, len)
    ensures AllWithin(Merge(c, r), len)
  {}

  lemma NextMerged(sorted: seq<Range>, i: nat, r: Range, c: seq<Range>, len: nat)
    requires i < |sorted| && AllWithin(c, len) && r == Normalise(sorted[i], len)
    ensures Within(r, len) ==> AllWithin(Merge(c, r), len)
    ensures AllWithin(sorted, len) ==> Within(r, len)
    ensures AllWithin(sorted, len) && c == Coalesce(sorted[..i]) ==> Merge(c, r) == Coalesce(sorted[..i + 1])
  {
    if Within(r, len) { MergeWithin(c, r, len); }
    if AllWithin(sorted, len) {
      assert Within(sorted[i], len) && r == sorted[i];
      CoalesceNext(sorted[..i], r);
      assert sorted[..i + 1] == sorted[..i] + [r];
    }
  }

  lemma ArrangedFacts(t: seq<Range>, rs: seq<Range>, len: nat)
    requires AllWithin(rs, len) && Arranged(t, rs)
    ensures AllWithin(t, len)
    ensures AllWithin(Coalesce(t), len) && SortedFirst(Coalesce(t)) && SameCover(Coalesce(t), rs)
  {
    PermutedFacts(rs, t, len);
    CoalesceShape(t, len);
    forall x ensures Covers(Coalesce(t), x) <==> Covers(rs, x) { CoalesceCover(t, len, x); }
  }

  class Request {
    var ranges: seq<Range>

    constructor (ranges: seq<Range>)
      ensures this.ranges == ranges
    {
      this.ranges := ranges;
    }
  }

  predicate Overlap(a: Range, b: Range) { !(a.1 < b.0 || a.0 > b.1) }

  predicate OverlapsEarlier(rs: seq<Range>, i: nat)
    requires i < |rs|
  {
    exists j | 0 <= j < i :: Overlap(rs[i], rs[j])
  }

  /** How many of the first `n` ranges overlap an earlier one. */
  function OverlapCount(rs: seq<Range>, n: nat): nat
    requires n <= |rs|
  {
    if n == 0 then 0 else OverlapCount(rs, n - 1) + if OverlapsEarlier(rs, n - 1) then 1 else 0
  }

  function Normalised(rs: seq<Range>, len: nat): seq<Range> {
    seq(|rs|, i requires 0 <= i < |rs| => Normalise(rs[i], len))
  }

  lemma {:induction false} OverlapGrows(rs: seq<Range>, m: nat, n: nat)
    requires m <= n <= |rs|
    ensures OverlapCount(rs, m) <= OverlapCount(rs, n)
  {
    if m < n { OverlapGrows(rs, m, n - 1); }
  }

  predicate AllSatisfiable(rs: seq<Range>, len: nat) { forall i | 0 <= i < |rs| :: Satisfiable(rs[i], len) }

  predicate AllWellformed(rs: seq<Range>) { forall i | 0 <= i < |rs| :: Wellformed(rs[i]) }

  /** The ranges once the first `k` have been normalised in place. */
  function PartlyNormalised(rs: seq<Range>, k: nat, len: nat): seq<Range>
    requires k <= |rs|
  {
    Normalised(rs, len)[..k] + rs[k..]
  }

  /** The checking loop of `range_error`, which normalises the request's ranges where they are. */
  method NormaliseInPlace(req: Request, len: nat) returns (err: bool)
    requires AllWellformed(req.ranges)
    modifies req
    ensures err <==> || !AllSatisfiable(old(req.ranges), len)
                     || OverlapCount(Normalised(old(req.ranges), len), |old(req.ranges)|) > 2
    ensures exists k :: 0 <= k <= |old(req.ranges)| && req.ranges == PartlyNormalised(old(req.ranges), k, len)
                        && (!err ==> k == |old(req.ranges)|)
  {
    ghost var asked := req.ranges;
    ghost var norm := Normalised(asked, len);
    var processed: seq<Range>, overlapping := [], 0;
    assert req.ranges == PartlyNormalised(asked, 0, len);
    for i := 0 to |req.ranges|
      invariant |req.ranges| == |asked|
      invariant req.ranges == PartlyNormalised(asked, i, len)
      invariant processed == norm[..i]
      invariant AllSatisfiable(asked[..i], len)
      invariant overlapping == OverlapCount(norm, i) <= 2
    {
      NormaliseNext(asked, i, len);
      var r := Normalise(req.ranges[i], len);
      req.ranges := req.ranges[i := r];
      if !Within(r, len) { return true; }
      overlapping := CountOverlap(r, processed, overlapping, norm);
      if overlapping > 2 {
        OverlapGrows(norm, i + 1, |norm|);
        return true;
      }
      processed := processed + [r];
    }
    assert asked[..|asked|] == asked;
    err := false;
  }

  lemma NormaliseNext(asked: seq<Range>, i: nat, len: nat)
    requires i < |asked| && AllWellformed(asked)
    ensures PartlyNormalised(asked, i, len)[i] == asked[i]
    ensures PartlyNormalised(asked, i, len)[i := Normalise(asked[i], len)] == PartlyNormalised(asked, i + 1, len)
    ensures Normalised(asked, len)[..i] + [Normalise(asked[i], len)] == Normalised(asked, len)[..i + 1]
    ensures Within(Normalise(asked[i], len), len) ==> AllSatisfiable(asked[..i], len) ==> AllSatisfiable(asked[..i + 1], len)
    ensures !Within(Normalise(asked[i], len), len) ==> !AllSatisfiable(asked, len)
  {
    NormaliseMeaning(asked[i], len, 0);
    assert forall k | 0 <= k < i :: asked[..i][k] == asked[..i + 1][k];
  }

  /** Too many ranges, one that cannot be met, or more than two that overlap an earlier one. */
  predicate Unacceptable(asked: seq<Range>, len: nat) {
    || |asked| > RANGE_MAX_COUNT
    || !AllSatisfiable(asked, len)
    || OverlapCount(Normalised(asked, len), |asked|) > 2
  }

  // ---- when a request is refused ----

  lemma OverlapIsShared(a: Range, b: Range)
    requires a.0 <= a.1 && b.0 <= b.1
    ensures Overlap(a, b) <==> exists x :: In(a, x) && In(b, x)
  {
    if Overlap(a, b) {
      var x := if a.0 >= b.0 then a.0 else b.0;
      assert In(a, x) && In(b, x);
    }
  }

  /** Some byte is asked for twice. */
  ghost predicate Share(r: Range, s: Range, len: nat) { exists x :: Asks(r, len, x) && Asks(s, len, x) }

  ghost predicate SharesEarlier(asked: seq<Range>, len: nat, i: nat)
    requires i < |asked|
  {
    exists j :: 0 <= j < i && Share(asked[j], asked[i], len)
  }

  /** The ranges that ask again for a byte an earlier one asks for. */
  ghost function Repeating(asked: seq<Range>, len: nat, n: nat): set<nat>
    requires n <= |asked|
  {
    set i: nat | i < n && SharesEarlier(asked, len, i)
  }

  lemma RepeatingNext(asked: seq<Range>, len: nat, n: nat)
    requires n < |asked|
    ensures Repeating(asked, len, n + 1) == Repeating(asked, len, n) + if SharesEarlier(asked, len, n) then {n} else {}
    ensures |Repeating(asked, len, n + 1)| == |Repeating(asked, len, n)| + if SharesEarlier(asked, len, n) then 1 else 0
  {
    assert Repeating(asked, len, n + 1) == Repeating(asked, len, n) + if SharesEarlier(asked, len, n) then {n} else {};
    assert n !in Repeating(asked, len, n);
  }

  lemma OverlapMeaning(asked: seq<Range>, len: nat, j: nat, i: nat)
    requires AllWellformed(asked) && AllSatisfiable(asked, len) && j < |asked| && i < |asked|
    ensures Overlap(Normalise(asked[i], len), Normalise(asked[j], len)) <==> Share(asked[j], asked[i], len)
  {
    var a, b := Normalise(asked[i], len), Normalise(asked[j], len);
    NormaliseMeaning(asked[i], len, 0);
    NormaliseMeaning(asked[j], len, 0);
    OverlapIsShared(a, b);
    forall x ensures (In(a, x) <==> Asks(asked[i], len, x)) && (In(b, x) <==> Asks(asked[j], len, x)) {
      NormaliseMeaning(asked[i], len, x);
      NormaliseMeaning(asked[j], len, x);
    }
  }

  lemma EarlierMeaning(asked: seq<Range>, len: nat, i: nat)
    requires AllWellformed(asked) && AllSatisfiable(asked, len) && i < |asked|
    ensures OverlapsEarlier(Normalised(asked, len), i) <==> SharesEarlier(asked, len, i)
  {
    var norm := Normalised(asked, len);
    forall j: nat | j < i ensures Overlap(norm[i], norm[j]) <==> Share(asked[j], asked[i], len) { OverlapMeaning(asked, len, j, i); }
  }

  lemma {:induction false} CountIsSize(asked: seq<Range>, len: nat, n: nat)
    requires AllWellformed(asked) && AllSatisfiable(asked, len) && n <= |asked|
    ensures OverlapCount(Normalised(asked, len), n) == |Repeating(asked, len, n)|
  {
    if n == 0 {
      assert Repeating(asked, len, 0) == {};
    } else {
      CountIsSize(asked, len, n - 1);
      EarlierMeaning(asked, len, n - 1);
      RepeatingNext(asked, len, n - 1);
    }
  }

  /** A request is refused exactly when it has more than 1024 ranges, asks for one that cannot be met, or has
      more than two ranges that ask again for a byte an earlier one asks for. */
  lemma RefusedWhen(asked: seq<Range>, len: nat)
    requires AllWellformed(asked)
    ensures Unacceptable(asked, len) <==>
              |asked| > 1024 || (exists i :: 0 <= i < |asked| && !Satisfiable(asked[i], len)) || |Repeating(asked, len, |asked|)| > 2
  {
    if AllSatisfiable(asked, len) { CountIsSize(asked, len, |asked|); }
  }

  /** What an accepted request may be left with. */
  ghost predicate MayLeave(asked: seq<Range>, len: nat, c: seq<Range>) {
    exists t :: Arranged(t, Normalised(asked, len)) && c == Coalesce(t)
  }

  lemma NothingAsked(len: nat)
    ensures MayLeave([], len, [])
  {
    assert Arranged([], Normalised([], len));
    assert Coalesce([]) == [];
  }

  /** What `range_error` leaves is canonical, however the sort breaks ties, exactly when every range that
      two requested ranges come to is reached by one that starts earlier. */
  lemma LeavesCanonical(asked: seq<Range>, len: nat)
    requires AllWellformed(asked) && AllSatisfiable(asked, len)
    ensures (forall c | MayLeave(asked, len, c) :: Canonical(c, len)) <==> NoLone(Normalised(asked, len))
  {
    var norm := Normalised(asked, len);
    NormalisedWithin(asked, len);
    CanonicalIff(norm, len);
    if NoLone(norm) {
      forall c | MayLeave(asked, len, c) ensures Canonical(c, len) {
        var t :| Arranged(t, norm) && c == Coalesce(t);
        PermutedFacts(norm, t, len);
        CoalesceShape(t, len);
      }
    } else {
      var t :| Arranged(t, norm) && !Gapped(Coalesce(t));
      assert Arranged(t, norm);
      assert MayLeave(asked, len, Coalesce(t));
    }
  }

  /** `range_error`: refused exactly when unacceptable; otherwise the request is left with ranges inside the representation, in
      order, covering exactly the bytes asked for, and coalesced in some order by first position. For a
      status other than success nothing is checked, and the ranges are inside the content only if they
      happened to be. */
  method RangeError(req: Request, status: int, len: nat) returns (err: bool)
    requires AllWellformed(req.ranges)
    modifies req
    ensures !(200 <= status < 300) || old(req.ranges) == [] ==> !err && req.ranges == old(req.ranges)
    ensures 200 <= status < 300 && old(req.ranges) != [] ==>
              (err <==> Unacceptable(old(req.ranges), len))
    ensures 200 <= status < 300 && !err ==>
              && AllWithin(req.ranges, len) && SortedFirst(req.ranges)
              && (forall x :: Covers(req.ranges, x) <==> SomeAsks(old(req.ranges), len, x))
              && MayLeave(old(req.ranges), len, req.ranges)
    ensures !err ==> (AllWithin(req.ranges, len) <==> 200 <= status < 300 || AllWithin(old(req.ranges), len))
    ensures err ==> exists k :: 0 <= k <= |old(req.ranges)| && req.ranges == PartlyNormalised(old(req.ranges), k, len)
  {
    ghost var asked := req.ranges;
    if !(req.ranges != [] && 200 <= status < 300) {
      NothingAsked(len);
      return false;
    }
    if |req.ranges| > RANGE_MAX_COUNT {
      assert req.ranges == PartlyNormalised(asked, 0, len);
      return true;
    }
    err := NormaliseInPlace(req, len);
    if err { return; }
    assert req.ranges == Normalised(asked, len);
    forall x ensures Covers(req.ranges, x) <==> SomeAsks(asked, len, x) { AskedCover(asked, len, x); }
    NormalisedWithin(asked, len);
    req.ranges := CoalesceRanges(req.ranges, len);
  }

  /** The inner loop: counts the range once if it overlaps any processed before it. */
  method CountOverlap(r: Range, processed: seq<Range>, overlapping: nat, ghost norm: seq<Range>) returns (n: nat)
    requires processed + [r] <= norm
    requires overlapping == OverlapCount(norm, |processed|)
    ensures n == OverlapCount(norm, |processed| + 1)
  {
    assert r == norm[|processed|];
    for j := 0 to |processed|
      invariant forall k | 0 <= k < j :: !Overlap(r, norm[k])
    {
      if !(r.1 < processed[j].0 || r.0 > processed[j].1) {
        assert Overlap(r, norm[j]);
        return overlapping + 1;
      }
    }
    n := overlapping;
  }

  ghost predicate SomeAsks(asked: seq<Range>, len: nat, x: int) {
    exists i :: 0 <= i < |asked| && Asks(asked[i], len, x)
  }

  lemma AskedCover(asked: seq<Range>, len: nat, x: int)
    requires AllWellformed(asked) && AllSatisfiable(asked, len)
    ensures Covers(Normalised(asked, len), x) <==> SomeAsks(asked, len, x)
  {
    var norm := Normalised(asked, len);
    forall i | 0 <= i < |asked| ensures In(norm[i], x) <==> Asks(asked[i], len, x) {
      NormaliseMeaning(asked[i], len, x);
    }
  }

  lemma NormalisedWithin(asked: seq<Range>, len: nat)
    requires AllWellformed(asked) && AllSatisfiable(asked, len)
    ensures AllWithin(Normalised(asked, len), len)
  {
    forall i | 0 <= i < |asked| ensures Within(Normalise(asked[i], len), len) {
      NormaliseMeaning(asked[i], len, 0);
    }
  }

  /** The shortest request that is accepted and left crowded: the same single byte twice. */
  lemma CrowdedRequest(len: nat)
    requires len > 0
    ensures var asked := [(0, 0), (0, 0)];
            && AllWellformed(asked) && !Unacceptable(asked, len)
            && forall c | MayLeave(asked, len, c) :: c == asked && !Canonical(c, len)
  {
    var asked: seq<Range> := [(0, 0), (0, 0)];
    assert Normalised(asked, len) == asked;
    assert OverlapCount(asked, 2) <= OverlapCount(asked, 0) + 2;
    forall c | MayLeave(asked, len, c) ensures c == asked && !Gapped(c) { PairLeft((0, 0), len, c); }
  }

  lemma PairLeft(r: Range, len: nat, c: seq<Range>)
    requires Within(r, len) && MayLeave([r, r], len, c)
    ensures c == [r, r] && !Gapped(c)
  {
    CoalescedPair(r);
    assert Normalised([r, r], len) == [r, r];
    forall t: seq<Range> | multiset(t) == multiset([r, r]) ensures Coalesce(t) == [r, r] { PairOnly(t, r); }
  }

  lemma CoalescedPair(r: Range)
    requires r.0 <= r.1
    ensures Coalesce([r, r]) == [r, r] && !Gapped([r, r])
  {
    AloneKept([r]);
    CoalesceNext([r], r);
    assert [r] + [r] == [r, r];
    PairCrowded([], r);
    assert [] + [r] + [r] == [r, r];
  }

  lemma PairOnly(t: seq<Range>, r: Range)
    requires multiset(t) == multiset([r, r])
    ensures t == [r, r]
  {
    assert |t| == |multiset(t)| == |multiset([r, r])| == 2;
    forall i | 0 <= i < |t| ensures t[i] == r { assert t[i] in multiset(t); }
  }
}
