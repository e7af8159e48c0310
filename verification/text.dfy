/** Byte strings as the HTTP code handles them: searching, trimming, splitting.
    A `char` stands for one byte; members that depend on the byte range say so. */
module Text {

  const CRLF := "\r\n"

  predicate IsBytes(s: string) {
    forall i | 0 <= i < |s| :: s[i] as int < 256
  }

  function Min(a: int, b: int): int { if a <= b then a else b }

  function Max(a: int, b: int): int { if a <= b then b else a }

  // ---- searching ----

  predicate OccursAt(s: string, pat: string, i: int) {
    0 <= i && i + |pat| <= |s| && s[i..i + |pat|] == pat
  }

  ghost predicate Contains(s: string, pat: string) {
    exists i :: OccursAt(s, pat, i)
  }

  /** Position of the first occurrence at or after `from`; the length of `s` when there is none. */
  function FindFrom(s: string, pat: string, from: nat): (pos: nat)
    requires |pat| > 0 && from <= |s|
    ensures from <= pos <= |s|
    ensures pos < |s| ==> OccursAt(s, pat, pos)
    ensures forall i :: from <= i < pos ==> !OccursAt(s, pat, i)
    decreases |s| - from
  {
    if |s| - from < |pat| then |s|
    else if s[from..from + |pat|] == pat then from
    else FindFrom(s, pat, from + 1)
  }

  function Find(s: string, pat: string): (pos: nat)
    requires |pat| > 0
    ensures pos <= |s|
    ensures pos < |s| ==> OccursAt(s, pat, pos)
    ensures forall i :: 0 <= i < pos ==> !OccursAt(s, pat, i)
  {
    FindFrom(s, pat, 0)
  }

  lemma OccursAppend(s: string, b: string, pat: string, i: int)
    requires 0 <= i && i + |pat| <= |s|
    ensures OccursAt(s + b, pat, i) <==> OccursAt(s, pat, i)
  {
    assert (s + b)[i..i + |pat|] == s[i..i + |pat|];
  }

  /** Appending bytes never moves an occurrence that was found, and a later one overlaps the end. */
  lemma FindAppend(s: string, b: string, pat: string)
    requires |pat| > 0
    ensures Find(s, pat) < |s| ==> Find(s + b, pat) == Find(s, pat)
    ensures Find(s, pat) == |s| ==> Find(s + b, pat) > |s| - |pat|
  {
    forall i | 0 <= i <= |s| - |pat| ensures OccursAt(s + b, pat, i) <==> OccursAt(s, pat, i) {
      OccursAppend(s, b, pat, i);
    }
  }

  lemma OccursDrop(s: string, pat: string, k: nat, i: int)
    requires k <= |s| && 0 <= i
    ensures OccursAt(s[k..], pat, i) <==> OccursAt(s, pat, k + i)
  {
    if k + i + |pat| <= |s| {
      assert s[k..][i..i + |pat|] == s[k + i..k + i + |pat|];
    }
  }

  /** Dropping bytes before the first occurrence only shifts it. */
  lemma FindDrop(s: string, pat: string, k: nat)
    requires |pat| > 0 && k <= Find(s, pat)
    ensures Find(s[k..], pat) == Find(s, pat) - k
  {
    forall i | 0 <= i ensures OccursAt(s[k..], pat, i) <==> OccursAt(s, pat, k + i) {
      OccursDrop(s, pat, k, i);
    }
    if Find(s, pat) < |s| { assert OccursAt(s[k..], pat, Find(s, pat) - k); }
  }

  /** Where a delimiter whose first byte does not recur in it is first found after delimiter-free text. */
  lemma FindAfter(text: string, pat: string, rest: string)
    requires |pat| > 0 && pat[0] !in pat[1..]
    requires !Contains(text, pat)
    ensures Find(text + pat + rest, pat) == |text|
  {
    var s := text + pat + rest;
    assert OccursAt(s, pat, |text|);
    forall i | 0 <= i < |text| ensures !OccursAt(s, pat, i) {
      if i + |pat| <= |text| {
        assert s[i..i + |pat|] == text[i..i + |pat|];
        assert !OccursAt(text, pat, i);
      } else {
        var k := |text| - i;
        assert s[i..i + |pat|][k] == s[|text|] == pat[0];
        assert pat[k] == pat[1..][k - 1];
      }
    }
  }

  function IndexFrom(s: string, d: char, from: nat): (pos: nat)
    requires from <= |s|
    ensures from <= pos <= |s|
    ensures pos < |s| ==> s[pos] == d
    ensures forall i :: from <= i < pos ==> s[i] != d
    decreases |s| - from
  {
    if from == |s| || s[from] == d then from else IndexFrom(s, d, from + 1)
  }

  /** Position of the first `d`; the length of `s` when there is none. */
  function IndexOf(s: string, d: char): (pos: nat)
    ensures pos <= |s|
    ensures pos < |s| ==> s[pos] == d
    ensures forall i :: 0 <= i < pos ==> s[i] != d
  {
    IndexFrom(s, d, 0)
  }

  lemma IndexOfIs(a: string, d: char, b: string)
    requires d !in a
    ensures IndexOf(a + [d] + b, d) == |a|
    ensures IndexOf(a, d) == |a|
  {
    assert (a + [d] + b)[|a|] == d;
    assert forall i | 0 <= i < |a| :: (a + [d] + b)[i] == a[i];
  }

  // ---- trimming ----

  predicate IsSpaceOrTab(c: char) { c == ' ' || c == '\t' }

  function LeftEdge(s: string, i: nat): (l: nat)
    requires i <= |s|
    ensures i <= l <= |s|
    ensures l < |s| ==> !IsSpaceOrTab(s[l])
    ensures forall k :: i <= k < l ==> IsSpaceOrTab(s[k])
    decreases |s| - i
  {
    if i < |s| && IsSpaceOrTab(s[i]) then LeftEdge(s, i + 1) else i
  }

  function RightEdge(s: string, j: nat): (r: nat)
    requires j <= |s|
    ensures r <= j
    ensures r > 0 ==> !IsSpaceOrTab(s[r - 1])
    ensures forall k :: r <= k < j ==> IsSpaceOrTab(s[k])
  {
    if j > 0 && IsSpaceOrTab(s[j - 1]) then RightEdge(s, j - 1) else j
  }

  function TrimLeft(s: string): string { s[LeftEdge(s, 0)..] }

  function TrimRight(s: string): string { s[..RightEdge(s, |s|)] }

  /** Blanks and tabs cut off at both ends. */
  function Trim(s: string): string {
    var left, right := LeftEdge(s, 0), RightEdge(s, |s|);
    if left < right then s[left..right] else ""
  }

  predicate Trimmed(s: string) {
    s != "" ==> !IsSpaceOrTab(s[0]) && !IsSpaceOrTab(s[|s| - 1])
  }

  lemma TrimOfTrimmed(s: string)
    requires Trimmed(s)
    ensures Trim(s) == s && TrimLeft(s) == s && TrimRight(s) == s
  {}

  lemma TrimAfterBlank(t: string)
    requires Trimmed(t)
    ensures Trim(" " + t) == t && TrimLeft(" " + t) == t
  {
    var s := " " + t;
    assert forall i | 0 <= i < |t| :: s[i + 1] == t[i];
    if t != "" { assert s[|t|] == t[|t| - 1] && s[1] == t[0]; }
  }

  predicate AllBlank(s: string) { forall i | 0 <= i < |s| :: IsSpaceOrTab(s[i]) }

  lemma {:induction false} LeftEdgeIs(s: string, i: nat, l: nat)
    requires i <= l <= |s| && (forall k | i <= k < l :: IsSpaceOrTab(s[k])) && (l < |s| ==> !IsSpaceOrTab(s[l]))
    ensures LeftEdge(s, i) == l
    decreases l - i
  {
    if i < l { LeftEdgeIs(s, i + 1, l); }
  }

  lemma {:induction false} RightEdgeIs(s: string, j: nat, r: nat)
    requires r <= j <= |s| && (forall k | r <= k < j :: IsSpaceOrTab(s[k])) && (r > 0 ==> !IsSpaceOrTab(s[r - 1]))
    ensures RightEdge(s, j) == r
  {
    if r < j { RightEdgeIs(s, j - 1, r); }
  }

  /** What is trimmed is what stands between the blanks. */
  lemma TrimBetween(before: string, t: string, behind: string)
    requires AllBlank(before) && AllBlank(behind) && t != "" && Trimmed(t)
    ensures Trim(before + t + behind) == t
  {
    var s, l, r := before + t + behind, |before|, |before| + |t|;
    assert forall k | 0 <= k < l :: s[k] == before[k];
    assert forall k | r <= k < |s| :: s[k] == behind[k - r];
    assert s[l..r] == t && s[l] == t[0] && s[r - 1] == t[|t| - 1];
    LeftEdgeIs(s, 0, l);
    RightEdgeIs(s, |s|, r);
  }

  /** `trim` over the whole string: two cursors closing in from both ends. */
  method TrimCopy(s: string) returns (t: string)
    ensures t == Trim(s)
  {
    var left, right := 0, |s|;
    while left < |s| && IsSpaceOrTab(s[left])
      invariant 0 <= left <= |s|
      invariant LeftEdge(s, left) == LeftEdge(s, 0)
    {
      left := left + 1;
    }
    while right > 0 && IsSpaceOrTab(s[right - 1])
      invariant 0 <= right <= |s|
      invariant RightEdge(s, right) == RightEdge(s, |s|)
    {
      right := right - 1;
    }
    t := if left < right then s[left..right] else "";
  }

  function TrimDoubleQuotes(s: string): string {
    if |s| >= 2 && s[0] == '"' && s[|s| - 1] == '"' then s[1..|s| - 1] else s
  }

  // ---- splitting ----

  function Piece(s: string): seq<string> {
    if Trim(s) == "" then [] else [Trim(s)]
  }

  /** The non-empty trimmed fields between separators, in order. */
  function Split(s: string, d: char): seq<string>
    decreases |s|
  {
    var i := IndexOf(s, d);
    if i == |s| then Piece(s) else Piece(s[..i]) + Split(s[i + 1..], d)
  }

  lemma SplitCons(a: string, d: char, b: string)
    requires d !in a
    ensures Split(a + [d] + b, d) == Piece(a) + Split(b, d)
  {
    IndexOfIs(a, d, b);
    assert (a + [d] + b)[..|a|] == a;
    assert (a + [d] + b)[|a| + 1..] == b;
  }

  lemma SplitSingle(a: string, d: char)
    requires d !in a
    ensures Split(a, d) == Piece(a)
  {
    IndexOfIs(a, d, "");
  }

  lemma TrimKeepsOut(s: string, d: char)
    requires d !in s
    ensures d !in Trim(s)
  {
    forall c | c in Trim(s) ensures c in s {}
  }

  /** `s[i..j]` is all that stands between two separators, or between one and an end. */
  ghost predicate FieldAt(s: string, d: char, i: int, j: int) {
    0 <= i <= j <= |s| && d !in s[i..j] && (i == 0 || s[i - 1] == d) && (j == |s| || s[j] == d)
  }

  /** `p` is, trimmed, a field of `s` that is not blank. */
  ghost predicate IsField(s: string, d: char, p: string) {
    p != "" && exists i, j :: FieldAt(s, d, i, j) && Trim(s[i..j]) == p
  }

  lemma FirstField(s: string, d: char, j: int)
    ensures FieldAt(s, d, 0, j) <==> j == IndexOf(s, d)
  {
    var i := IndexOf(s, d);
    assert forall k | 0 <= k < i :: s[0..i][k] == s[k];
    if i < j <= |s| { assert s[0..j][i] == d; }
  }

  lemma LaterField(s: string, d: char, k: nat, i: int, j: int)
    requires k < |s| && s[k] == d && 0 <= i <= j < |s| - k
    ensures FieldAt(s[k + 1..], d, i, j) <==> FieldAt(s, d, k + 1 + i, k + 1 + j)
    ensures s[k + 1..][i..j] == s[k + 1 + i..k + 1 + j]
  {
    var rest := s[k + 1..];
    assert rest[i..j] == s[k + 1 + i..k + 1 + j];
    assert i > 0 ==> rest[i - 1] == s[k + i];
    assert j < |rest| ==> rest[j] == s[k + 1 + j];
  }

  /** A field is the first one, or one of what follows the first separator. */
  lemma FieldWhere(s: string, d: char, k: nat, i: int, j: int)
    requires k == IndexOf(s, d) && FieldAt(s, d, i, j)
    ensures i == 0 ==> s[i..j] == s[..k]
    ensures i > 0 ==> k < i && k < |s| && FieldAt(s[k + 1..], d, i - k - 1, j - k - 1)
    ensures i > 0 ==> s[k + 1..][i - k - 1..j - k - 1] == s[i..j]
  {
    FirstField(s, d, j);
    if i > 0 { LaterField(s, d, k, i - k - 1, j - k - 1); }
  }

  lemma FieldHead(s: string, d: char, p: string)
    requires p in Piece(s[..IndexOf(s, d)])
    ensures IsField(s, d, p)
  {
    var k := IndexOf(s, d);
    FirstField(s, d, k);
    assert s[0..k] == s[..k];
  }

  lemma FieldTail(s: string, d: char, k: nat, p: string)
    requires k < |s| && s[k] == d && IsField(s[k + 1..], d, p)
    ensures IsField(s, d, p)
  {
    var i, j :| FieldAt(s[k + 1..], d, i, j) && Trim(s[k + 1..][i..j]) == p;
    LaterField(s, d, k, i, j);
  }

  lemma FieldCut(s: string, d: char, k: nat, p: string)
    requires k == IndexOf(s, d) && IsField(s, d, p)
    ensures p in Piece(s[..k]) || (k < |s| && IsField(s[k + 1..], d, p))
  {
    var i, j :| FieldAt(s, d, i, j) && Trim(s[i..j]) == p;
    FieldWhere(s, d, k, i, j);
  }

  lemma FieldParts(s: string, d: char, k: nat, p: string)
    requires k == IndexOf(s, d)
    ensures IsField(s, d, p) <==> p in Piece(s[..k]) || (k < |s| && IsField(s[k + 1..], d, p))
  {
    if IsField(s, d, p) { FieldCut(s, d, k, p); }
    if p in Piece(s[..k]) { FieldHead(s, d, p); }
    if k < |s| && IsField(s[k + 1..], d, p) { FieldTail(s, d, k, p); }
  }

  lemma SplitParts(s: string, d: char, k: nat, p: string)
    requires k == IndexOf(s, d)
    ensures p in Split(s, d) <==> p in Piece(s[..k]) || (k < |s| && p in Split(s[k + 1..], d))
  {
    if k == |s| { assert s[..k] == s; }
  }

  /** The pieces of a split are the fields of the text. */
  lemma {:induction false} SplitIsFields(s: string, d: char, p: string)
    ensures p in Split(s, d) <==> IsField(s, d, p)
    decreases |s|
  {
    var k := IndexOf(s, d);
    FieldParts(s, d, k, p);
    SplitParts(s, d, k, p);
    if k < |s| { SplitIsFields(s[k + 1..], d, p); }
  }

  lemma SplitPieces(s: string, d: char, p: string)
    requires p in Split(s, d)
    ensures d !in p && p != ""
  {
    SplitIsFields(s, d, p);
    var i, j :| FieldAt(s, d, i, j) && Trim(s[i..j]) == p;
    TrimKeepsOut(s[i..j], d);
  }

  lemma Associative<T>(a: seq<T>, b: seq<T>, c: seq<T>)
    ensures a + (b + c) == a + b + c
  {}

  /** What stands behind the last separator is the last piece, if it is not blank. */
  lemma {:induction false} SplitSnoc(a: string, d: char, b: string)
    requires d !in b
    ensures Split(a + [d] + b, d) == Split(a, d) + Piece(b)
    decreases |a|
  {
    var k := IndexOf(a, d);
    if k < |a| {
      var head, more := a[..k], a[k + 1..];
      assert a == head + [d] + more;
      SplitSnoc(more, d, b);
      SplitCons(head, d, more);
      SplitCons(head, d, more + [d] + b);
      Nested(head, [d], more, b);
      Associative(Piece(head), Split(more, d), Piece(b));
    } else {
      assert d !in a;
      SplitCons(a, d, b);
      SplitSingle(a, d);
      SplitSingle(b, d);
    }
  }

  lemma Nested(a: string, d: string, b: string, c: string)
    ensures a + d + b + d + c == a + d + (b + d + c)
  {}

  lemma EmptyFirst<T>(s: seq<T>)
    ensures [] + s == s && s + [] == s
  {}

  function Mapped<T, U>(f: T -> U, s: seq<T>): seq<U> { seq(|s|, i requires 0 <= i < |s| => f(s[i])) }

  lemma MappedNext<T, U>(f: T -> U, s: seq<T>)
    requires s != []
    ensures Mapped(f, s) == [f(s[0])] + Mapped(f, s[1..])
  {}

  /** The fields still to come when the one being read began at `beg` and `i` is the next byte. */
  function SplitFrom(s: string, d: char, beg: nat, i: nat): seq<string>
    requires beg <= i <= |s|
    decreases |s| - i
  {
    if i == |s| then Piece(s[beg..i])
    else if s[i] == d then Piece(s[beg..i]) + SplitFrom(s, d, i + 1, i + 1)
    else SplitFrom(s, d, beg, i + 1)
  }

  lemma {:induction false} SplitFromIsSplit(s: string, d: char, beg: nat, i: nat)
    requires beg <= i <= |s| && forall j :: beg <= j < i ==> s[j] != d
    ensures SplitFrom(s, d, beg, i) == Split(s[beg..], d)
    decreases |s| - i
  {
    if i == |s| {
      var whole := s[beg..];
      assert whole == s[beg..i];
    } else if s[i] == d {
      SplitFromIsSplit(s, d, i + 1, i + 1);
      SplitHead(s, d, beg, i);
    } else {
      SplitFromIsSplit(s, d, beg, i + 1);
    }
  }

  lemma SplitHead(s: string, d: char, beg: nat, i: nat)
    requires beg <= i < |s| && s[i] == d && forall j :: beg <= j < i ==> s[j] != d
    ensures Split(s[beg..], d) == Piece(s[beg..i]) + Split(s[i + 1..], d)
  {
    var whole := s[beg..];
    assert IndexOf(whole, d) == i - beg;
    assert whole[..i - beg] == s[beg..i];
    assert whole[i - beg + 1..] == s[i + 1..];
  }

  /** `split`: one pass over the bytes, handing each trimmed non-empty field on as its separator is met. */
  method SplitFields(s: string, d: char) returns (fields: seq<string>)
    requires !IsSpaceOrTab(d)
    ensures fields == Split(s, d)
  {
    fields := [];
    var i, beg := 0, 0;
    while i < |s|
      invariant 0 <= beg <= i <= |s|
      invariant fields + SplitFrom(s, d, beg, i) == SplitFrom(s, d, 0, 0)
    {
      if s[i] == d {
        Associative(fields, Piece(s[beg..i]), SplitFrom(s, d, i + 1, i + 1));
        fields := AddField(fields, s[beg..i]);
        beg := i + 1;
      }
      i := i + 1;
    }
    fields := AddField(fields, s[beg..i]);
    SplitFromIsSplit(s, d, 0, 0);
    assert s[0..] == s;
  }

  method AddField(fields: seq<string>, field: string) returns (r: seq<string>)
    ensures r == fields + Piece(field)
  {
    var t := TrimCopy(field);
    r := if t == "" then fields else fields + [t];
  }

  // ---- letter case ----

  /** `case_ignore::to_lower`: the letters of ASCII and of the upper half of Latin-1. */
  function ToLower(c: char): char {
    if 'A' <= c <= 'Z' || (192 <= c as int <= 222 && c as int != 215) then (c as int + 32) as char else c
  }

  function Lower(s: string): (t: string)
    ensures |t| == |s| && forall i | 0 <= i < |s| :: t[i] == ToLower(s[i])
  {
    if s == "" then "" else [ToLower(s[0])] + Lower(s[1..])
  }

  predicate EqualIgnoreCase(a: string, b: string) { Lower(a) == Lower(b) }

  /** Two ASCII bytes count as equal exactly when they are, or are the two cases of a letter. */
  lemma SameLetter(a: char, b: char)
    requires a as int < 128 && b as int < 128
    ensures EqualIgnoreCase([a], [b]) <==>
              a == b || ('A' <= a <= 'Z' && b as int == a as int + 32) || ('A' <= b <= 'Z' && a as int == b as int + 32)
  {
    assert Lower([a])[0] == ToLower(a) && Lower([b])[0] == ToLower(b);
    if ToLower(a) == ToLower(b) { assert Lower([a]) == Lower([b]); }
  }

  predicate StartsWithIgnoreCase(a: string, b: string) {
    |b| <= |a| && forall i | 0 <= i < |b| :: ToLower(a[i]) == ToLower(b[i])
  }

  // ---- pieces of a stream ----

  function Concat(pieces: seq<string>): string {
    if pieces == [] then "" else pieces[0] + Concat(pieces[1..])
  }

  lemma {:induction false} ConcatAppend(a: seq<string>, b: seq<string>)
    ensures Concat(a + b) == Concat(a) + Concat(b)
  {
    if a == [] {
      assert a + b == b;
    } else {
      assert (a + b)[1..] == a[1..] + b;
      ConcatAppend(a[1..], b);
    }
  }
}
