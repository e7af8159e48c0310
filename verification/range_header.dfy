/** The Range request header: `make_range_header` and `parse_range_header` (section 14.1.2 of RFC 9110). */
module RangeHeader {
  import opened Wrappers
  import opened Text
  import opened Decimal
  import opened Ranges

  const MAX_POSITION := 0x7FFF_FFFF_FFFF_FFFF

  const PREFIX := "bytes="

  // ---- printing ----

  function Component(x: int): string
    requires x >= -1
  {
    if x == -1 then "" else ToDecimal(x)
  }

  function RangeText(r: Range): string
    requires Wellformed(r)
  {
    Component(r.0) + ['-'] + Component(r.1)
  }

  function Spaced(rs: seq<Range>, i: nat): string
    requires AllWellformed(rs) && i < |rs|
  {
    (if i == 0 then "" else " ") + RangeText(rs[i])
  }

  /** The ranges from the `i`th on, each but the first behind a comma and a blank. */
  function TextFrom(rs: seq<Range>, i: nat): string
    requires AllWellformed(rs) && i <= |rs|
    decreases |rs| - i
  {
    if i == |rs| then "" else (if i == 0 then "" else [',']) + (Spaced(rs, i) + TextFrom(rs, i + 1))
  }

  function HeaderText(rs: seq<Range>): string
    requires AllWellformed(rs)
  {
    PREFIX + TextFrom(rs, 0)
  }

  method MakeRangeHeader(ranges: seq<Range>) returns (field: string)
    requires AllWellformed(ranges)
    ensures field == HeaderText(ranges)
  {
    field := PREFIX;
    for i := 0 to |ranges|
      invariant field + TextFrom(ranges, i) == HeaderText(ranges)
    {
      field := AddRange(field, ranges, i);
    }
  }

  method AddRange(field: string, ranges: seq<Range>, i: nat) returns (longer: string)
    requires AllWellformed(ranges) && i < |ranges|
    ensures longer + TextFrom(ranges, i + 1) == field + TextFrom(ranges, i)
  {
    var r := ranges[i];
    longer := field;
    if i != 0 { longer := longer + ", "; }
    ghost var comma, blank: string := if i == 0 then "" else [','], if i == 0 then "" else " ";
    assert longer == field + comma + blank;
    if r.0 != -1 { longer := longer + ToDecimal(r.0); }
    assert longer == field + comma + blank + Component(r.0);
    longer := longer + ['-'];
    if r.1 != -1 { longer := longer + ToDecimal(r.1); }
    Regroup(field, comma, blank, Component(r.0), ['-'], Component(r.1), TextFrom(ranges, i + 1));
  }

  lemma Regroup(a: string, b: string, c: string, d: string, e: string, f: string, g: string)
    ensures a + b + c + d + e + f + g == a + (b + (c + (d + e + f) + g))
  {}

  // ---- parsing ----

  /** A position as `stoll` reads it: absent, a number that fits, or out of range. */
  function ReadPosition(s: string): Option<int>
    requires AllDigits(s)
  {
    var v: int := if s == "" then -1 else DecimalValue(s);
    if v > MAX_POSITION then None else Some(v)
  }

  predicate Admissible(first: int, last: int) {
    !(first == -1 && last == -1) && !(first != -1 && last != -1 && first > last)
  }

  function ParseItem(s: string): Option<Range> {
    var k := IndexOf(s, '-');
    if k == |s| || !AllDigits(s[..k]) || !AllDigits(s[k + 1..]) then None
    else
      match (ReadPosition(s[..k]), ReadPosition(s[k + 1..]))
      case (Some(first), Some(last)) => if Admissible(first, last) then Some((first, last)) else None
      case _ => None
  }

  /** The ranges read up to the first bad item, and whether there was none. */
  function ParseItems(items: seq<string>): (bool, seq<Range>) {
    if items == [] then (true, [])
    else
      match ParseItem(items[0])
      case None => (false, [])
      case Some(r) => var (ok, rs) := ParseItems(items[1..]); (ok, [r] + rs)
  }

  function ParseBody(body: string): (bool, seq<Range>) {
    var items := Split(body, ',');
    (ParseItems(items).0 && ParseItems(items).1 != [], ParseItems(items).1)
  }

  function ParseRanges(s: string): (bool, seq<Range>) {
    if |s| > 7 && PREFIX <= s then ParseBody(s[6..]) else (false, [])
  }

  method ParseRangeHeader(s: string) returns (ok: bool, ranges: seq<Range>)
    ensures (ok, ranges) == ParseRanges(s)
  {
    if |s| > 7 && PREFIX <= s {
      ok, ranges := ReadItems(s[6..]);
    } else {
      ok, ranges := false, [];
    }
  }

  method ReadItems(body: string) returns (ok: bool, ranges: seq<Range>)
    ensures ok == ParseBody(body).0 && ranges == ParseBody(body).1
  {
    ranges := [];
    var items := SplitFields(body, ',');
    ok := true;
    assert items[0..] == items;
    var i := 0;
    while i < |items|
      invariant 0 <= i <= |items|
      invariant ok ==> ParseItems(items).0 == ParseItems(items[i..]).0
      invariant ok ==> ParseItems(items).1 == ranges + ParseItems(items[i..]).1
      invariant !ok ==> !ParseItems(items).0 && ParseItems(items).1 == ranges
    {
      if ok {
        var item := ReadItem(items[i]);
        ParseItemsStep(items, i, ranges);
        if item.None? {
          ok := false;
        } else {
          ranges := ranges + [item.value];
        }
      }
      i := i + 1;
    }
    ok := ok && ranges != [];
  }

  lemma ParseItemsStep(items: seq<string>, i: nat, read: seq<Range>)
    requires i < |items|
    ensures ParseItem(items[i]).None? ==> ParseItems(items[i..]) == (false, [])
    ensures ParseItem(items[i]).Some? ==>
              && ParseItems(items[i..]).0 == ParseItems(items[i + 1..]).0
              && read + ParseItems(items[i..]).1 == read + [ParseItem(items[i]).value] + ParseItems(items[i + 1..]).1
  {
    assert items[i..][0] == items[i] && items[i..][1..] == items[i + 1..];
  }

  method ReadItem(s: string) returns (r: Option<Range>)
    ensures r == ParseItem(s)
  {
    var k := IndexOf(s, '-');
    if k == |s| { return None; }
    var lhs, rhs := s[..k], s[k + 1..];
    if !AllDigits(lhs) || !AllDigits(rhs) { return None; }
    var first, last := ReadPosition(lhs), ReadPosition(rhs);
    if first.None? || last.None? { return None; }
    if (first.value == -1 && last.value == -1) || (first.value != -1 && last.value != -1 && first.value > last.value) {
      return None;
    }
    r := Some((first.value, last.value));
  }

  // ---- what a header means ----

  /** Digits that fit, or nothing for no position. */
  predicate Denotes(t: string, v: int) {
    AllDigits(t) && v <= MAX_POSITION && if t == "" then v == -1 else v == DecimalValue(t)
  }

  /** Section 14.1.2 of RFC 9110: at least one position, and no last position before the first. */
  ghost predicate ItemMeans(s: string, r: Range) {
    && (r.0 != -1 || r.1 != -1) && (r.0 == -1 || r.1 == -1 || r.0 <= r.1)
    && exists first, last :: s == first + ['-'] + last && Denotes(first, r.0) && Denotes(last, r.1)
  }

  lemma ItemRead(s: string, first: string, last: string, r: Range)
    requires s == first + ['-'] + last && Denotes(first, r.0) && Denotes(last, r.1)
    ensures ParseItem(s) == if Admissible(r.0, r.1) then Some(r) else None
  {
    assert '-' !in first by { assert !IsDigit('-'); }
    IndexOfIs(first, '-', last);
    assert s[..|first|] == first && s[|first| + 1..] == last;
  }

  lemma ItemIs(s: string, r: Range)
    ensures ParseItem(s) == Some(r) <==> ItemMeans(s, r)
  {
    if ParseItem(s) == Some(r) {
      var k := IndexOf(s, '-');
      var first, last := s[..k], s[k + 1..];
      assert s == first + ['-'] + last && Denotes(first, r.0) && Denotes(last, r.1);
    }
    if ItemMeans(s, r) {
      var first, last :| s == first + ['-'] + last && Denotes(first, r.0) && Denotes(last, r.1);
      ItemRead(s, first, last, r);
    }
  }

  lemma {:induction false} ItemsAre(items: seq<string>, rs: seq<Range>)
    ensures ParseItems(items) == (true, rs) <==>
              |items| == |rs| && forall i | 0 <= i < |items| :: ParseItem(items[i]) == Some(rs[i])
  {
    if items != [] {
      if rs != [] {
        ItemsAre(items[1..], rs[1..]);
        assert rs == [rs[0]] + rs[1..];
      }
    }
  }

  /** What stands behind the unit is a list of items, each with its range. */
  ghost predicate BodyMeans(body: string, rs: seq<Range>) {
    var items := Split(body, ',');
    |items| == |rs| && forall i | 0 <= i < |items| :: ItemMeans(items[i], rs[i])
  }

  lemma BodyIs(body: string, rs: seq<Range>)
    ensures ParseItems(Split(body, ',')) == (true, rs) <==> BodyMeans(body, rs)
  {
    var items := Split(body, ',');
    ItemsAre(items, rs);
    if |items| == |rs| {
      forall i | 0 <= i < |items| ensures ParseItem(items[i]) == Some(rs[i]) <==> ItemMeans(items[i], rs[i]) { ItemIs(items[i], rs[i]); }
    }
  }

  /** A header is taken exactly when it is the unit, an equals sign, and a list of ranges that is not empty. */
  lemma HeaderIs(s: string, rs: seq<Range>)
    ensures ParseRanges(s) == (true, rs) <==> |s| > 7 && s[..6] == "bytes=" && rs != [] && BodyMeans(s[6..], rs)
  {
    if |s| > 7 && s[..6] == "bytes=" { BodyIs(s[6..], rs); }
    assert |PREFIX| == 6;
  }

  // ---- the round trip ----

  predicate Printable(r: Range) {
    -1 <= r.0 <= MAX_POSITION && -1 <= r.1 <= MAX_POSITION && Admissible(r.0, r.1)
  }

  predicate AllPrintable(rs: seq<Range>) { forall i | 0 <= i < |rs| :: Printable(rs[i]) }

  /** The texts of the ranges from the `i`th on. */
  function Texts(rs: seq<Range>, i: nat): seq<string>
    requires AllWellformed(rs) && i <= |rs|
  {
    seq(|rs| - i, k requires 0 <= k < |rs| - i => RangeText(rs[i + k]))
  }

  lemma TextsNext(rs: seq<Range>, i: nat)
    requires AllWellformed(rs) && i < |rs|
    ensures Texts(rs, i) == [RangeText(rs[i])] + Texts(rs, i + 1)
  {}

  lemma ReadComponent(x: int)
    requires x >= -1
    ensures AllDigits(Component(x)) && '-' !in Component(x)
    ensures ReadPosition(Component(x)) == if x <= MAX_POSITION then Some(x) else None
  {
    if x != -1 { DecimalRoundTrip(x); }
  }

  lemma ItemRoundTrip(r: Range)
    requires Wellformed(r)
    ensures ParseItem(RangeText(r)) == if Printable(r) then Some(r) else None
  {
    var a, b := Component(r.0), Component(r.1);
    var s := RangeText(r);
    ReadComponent(r.0);
    ReadComponent(r.1);
    IndexOfIs(a, '-', b);
    assert s[..|a|] == a && s[|a| + 1..] == b;
  }

  lemma TextClean(r: Range)
    requires Wellformed(r)
    ensures RangeText(r) != "" && Trimmed(RangeText(r)) && ',' !in RangeText(r)
  {}

  lemma SpacedPiece(rs: seq<Range>, i: nat)
    requires AllWellformed(rs) && i < |rs|
    ensures ',' !in Spaced(rs, i) && Piece(Spaced(rs, i)) == [RangeText(rs[i])]
  {
    TextClean(rs[i]);
    CleanPiece(RangeText(rs[i]));
  }

  lemma CleanPiece(t: string)
    requires t != "" && Trimmed(t) && ',' !in t
    ensures Piece("" + t) == [t] && Piece(" " + t) == [t]
    ensures ',' !in "" + t && ',' !in " " + t
  {
    TrimOfTrimmed(t);
    TrimAfterBlank(t);
    assert "" + t == t;
  }

  /** Splitting at commas finds the printed ranges again. */
  lemma {:induction false} SplitTexts(rs: seq<Range>, i: nat)
    requires AllWellformed(rs) && i < |rs|
    ensures Split(Spaced(rs, i) + TextFrom(rs, i + 1), ',') == Texts(rs, i)
    decreases |rs| - i
  {
    var head := Spaced(rs, i);
    SpacedPiece(rs, i);
    TextsNext(rs, i);
    if i + 1 == |rs| {
      assert head + "" == head;
      SplitSingle(head, ',');
    } else {
      var later := Spaced(rs, i + 1) + TextFrom(rs, i + 2);
      SplitTexts(rs, i + 1);
      SplitCons(head, ',', later);
      Associative(head, [','], later);
    }
  }

  lemma ParseItemsCons(item: string, rest: seq<string>)
    ensures ParseItem(item).None? ==> ParseItems([item] + rest) == (false, [])
    ensures ParseItem(item).Some? ==>
              ParseItems([item] + rest) == (ParseItems(rest).0, [ParseItem(item).value] + ParseItems(rest).1)
  {
    assert ([item] + rest)[1..] == rest;
  }

  /** Each text is read as its range if that is printable, and is refused otherwise. */
  predicate Prints(texts: seq<string>, rs: seq<Range>) {
    |texts| == |rs| && forall k | 0 <= k < |rs| :: ParseItem(texts[k]) == if Printable(rs[k]) then Some(rs[k]) else None
  }

  lemma {:induction false} ItemsRoundTrip(texts: seq<string>, rs: seq<Range>)
    requires Prints(texts, rs)
    ensures AllPrintable(rs) ==> ParseItems(texts) == (true, rs)
    ensures !AllPrintable(rs) ==> !ParseItems(texts).0
  {
    if rs != [] {
      var item, rest, r, tail := texts[0], texts[1..], rs[0], rs[1..];
      ItemsRoundTrip(rest, tail);
      ParseItemsCons(item, rest);
      assert texts == [item] + rest && rs == [r] + tail;
      PrintableCons(r, tail);
    }
  }

  lemma PrintableCons(r: Range, tail: seq<Range>)
    ensures AllPrintable([r] + tail) <==> Printable(r) && AllPrintable(tail)
  {
    var rs := [r] + tail;
    assert rs[0] == r && forall k | 0 <= k < |tail| :: rs[k + 1] == tail[k];
    assert forall k | 1 <= k < |rs| :: rs[k] == tail[k - 1];
  }

  lemma TextsPrint(rs: seq<Range>)
    requires AllWellformed(rs)
    ensures Prints(Texts(rs, 0), rs)
  {
    forall k | 0 <= k < |rs| ensures ParseItem(Texts(rs, 0)[k]) == if Printable(rs[k]) then Some(rs[k]) else None {
      ItemRoundTrip(rs[k]);
    }
  }

  /** A printed Range header is read back as the list it was printed from exactly when the list is
      non-empty, no position overflows, and every range gives a position and is not reversed; any other
      list is refused. */
  lemma RoundTrip(rs: seq<Range>)
    requires AllWellformed(rs)
    ensures rs != [] && AllPrintable(rs) ==> ParseRanges(HeaderText(rs)) == (true, rs)
    ensures rs == [] || !AllPrintable(rs) ==> !ParseRanges(HeaderText(rs)).0
  {
    if rs != [] {
      HeaderItems(rs);
      TextsPrint(rs);
      ItemsRoundTrip(Texts(rs, 0), rs);
    }
  }

  lemma HeaderItems(rs: seq<Range>)
    requires AllWellformed(rs) && rs != []
    ensures ParseRanges(HeaderText(rs)).0 ==> ParseItems(Texts(rs, 0)).0
    ensures Printable(rs[0]) ==>
              ParseRanges(HeaderText(rs)) == (ParseItems(Texts(rs, 0)).0 && ParseItems(Texts(rs, 0)).1 != [], ParseItems(Texts(rs, 0)).1)
  {
    var body := TextFrom(rs, 0);
    BodyTexts(rs);
    PrefixOff(body);
    if Printable(rs[0]) { LongEnough(rs); }
  }

  lemma BodyTexts(rs: seq<Range>)
    requires AllWellformed(rs) && rs != []
    ensures TextFrom(rs, 0) == Spaced(rs, 0) + TextFrom(rs, 1)
    ensures Split(TextFrom(rs, 0), ',') == Texts(rs, 0)
  {
    var body := Spaced(rs, 0) + TextFrom(rs, 1);
    NothingBefore(body);
    SplitTexts(rs, 0);
  }

  lemma NothingBefore(s: string)
    ensures "" + s == s
  {}

  lemma PrefixOff(body: string)
    ensures ParseRanges(PREFIX + body) == if |body| > 1 then ParseBody(body) else (false, [])
  {
    assert (PREFIX + body)[6..] == body;
  }

  lemma LongEnough(rs: seq<Range>)
    requires AllWellformed(rs) && rs != [] && Printable(rs[0])
    ensures |TextFrom(rs, 0)| >= 2
  {}
}
