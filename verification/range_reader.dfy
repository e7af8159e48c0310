/** A reader of what answers a range request: the Content-Range field (section 14.4 of RFC 9110) and the
    multipart/byteranges body (section 14.6 there). It knows nothing of how they were written. */
module RangeReader {
  import opened Wrappers
  import opened Text
  import opened Decimal
  import opened Ranges

  /** The digits a text begins with. */
  function Digits(s: string): (d: string)
    ensures AllDigits(d) && d <= s
  {
    if s != "" && IsDigit(s[0]) then [s[0]] + Digits(s[1..]) else ""
  }

  /** A number, and what follows it. */
  function ReadNumber(s: string): Option<(nat, string)> {
    if Digits(s) == "" then None else Some((DecimalValue(Digits(s)), s[|Digits(s)|..]))
  }

  /** What follows the fixed text `t`. */
  function ReadFixed(s: string, t: string): Option<string> { if t <= s then Some(s[|t|..]) else None }

  /** A number with the fixed text `t` behind it. */
  function ReadNumberThen(s: string, t: string): Option<(nat, string)> {
    match ReadNumber(s)
    case None => None
    case Some((n, more)) =>
      match ReadFixed(more, t)
      case None => None
      case Some(rest) => Some((n, rest))
  }

  /** Unit and blank, first position, dash, last position, slash, complete length. */
  function ReadRange(s: string): Option<(Range, nat, string)> {
    match ReadFixed(s, "bytes ")
    case None => None
    case Some(s1) =>
      match ReadNumberThen(s1, "-")
      case None => None
      case Some((first, s2)) =>
        match ReadNumberThen(s2, "/")
        case None => None
        case Some((last, s3)) =>
          match ReadNumber(s3)
          case None => None
          case Some((complete, rest)) => Some(((first, last), complete, rest))
  }

  /** A whole field value. */
  function ReadField(s: string): Option<(Range, nat)> {
    match ReadRange(s)
    case None => None
    case Some((r, complete, rest)) => if rest == "" then Some((r, complete)) else None
  }

  // ---- the multipart body ----

  datatype Part = Part(contentType: string, range: Range, complete: nat, data: string)

  const TYPE_FIELD := "Content-Type: "
  const RANGE_FIELD := "Content-Range: "

  /** The value of a type line, if there is one, and what follows it. */
  function ReadType(s: string): (string, string) {
    match ReadFixed(s, TYPE_FIELD)
    case None => ("", s)
    case Some(more) =>
      var e := Find(more, CRLF);
      if e == |more| then ("", s) else (more[..e], more[e + 2..])
  }

  /** The bytes a part announces by its range, and the line end behind them. */
  function ReadData(s: string, r: Range): Option<(string, string)> {
    var n := r.1 - r.0 + 1;
    if !(0 < n <= |s|) then None
    else match ReadFixed(s[n..], CRLF)
      case None => None
      case Some(rest) => Some((s[..n], rest))
  }

  /** A part behind its delimiter: type, range, blank line, data. */
  function ReadPart(s: string): Option<(Part, string)> {
    var (contentType, s1) := ReadType(s);
    match ReadFixed(s1, RANGE_FIELD)
    case None => None
    case Some(s2) =>
      match ReadRange(s2)
      case None => None
      case Some((r, complete, s3)) =>
        match ReadFixed(s3, CRLF + CRLF)
        case None => None
        case Some(s4) =>
          match ReadData(s4, r)
          case None => None
          case Some((data, rest)) => Some((Part(contentType, r, complete, data), rest))
  }

  /** Parts behind delimiters, up to the closing one at the end. */
  function ReadParts(s: string, boundary: string): Option<seq<Part>>
    decreases |s|
  {
    match ReadFixed(s, "--" + boundary)
    case None => None
    case Some(more) =>
      if more == "--" then Some([])
      else match ReadFixed(more, CRLF)
        case None => None
        case Some(inner) =>
          match ReadPart(inner)
          case None => None
          case Some((part, rest)) =>
            if |rest| >= |s| then None
            else match ReadParts(rest, boundary)
              case None => None
              case Some(parts) => Some([part] + parts)
  }

  // ---- reading what was put together ----

  lemma FixedRead(t: string, rest: string)
    ensures ReadFixed(t + rest, t) == Some(rest)
  {}

  predicate DigitBegins(s: string) { s != "" && IsDigit(s[0]) }

  lemma {:induction false} DigitsRead(d: string, rest: string)
    requires AllDigits(d) && !DigitBegins(rest)
    ensures Digits(d + rest) == d
  {
    if d == "" {
      assert d + rest == rest;
    } else {
      assert (d + rest)[1..] == d[1..] + rest;
      DigitsRead(d[1..], rest);
    }
  }

  /** A printed number is read back. */
  lemma NumberRead(n: nat, rest: string)
    requires !DigitBegins(rest)
    ensures ReadNumber(ToDecimal(n) + rest) == Some((n, rest))
  {
    DigitsRead(ToDecimal(n), rest);
    DecimalRoundTrip(n);
  }

  lemma NumberThenRead(n: nat, t: string, rest: string)
    requires t != "" && !IsDigit(t[0])
    ensures ReadNumberThen(ToDecimal(n) + (t + rest), t) == Some((n, rest))
  {
    NumberRead(n, t + rest);
    FixedRead(t, rest);
  }

  lemma RangeRead(r: Range, complete: nat, rest: string)
    requires 0 <= r.0 && 0 <= r.1 && !DigitBegins(rest)
    ensures ReadRange("bytes " + (ToDecimal(r.0) + ("-" + (ToDecimal(r.1) + ("/" + (ToDecimal(complete) + rest))))))
            == Some((r, complete, rest))
  {
    var s3 := ToDecimal(complete) + rest;
    var s2 := ToDecimal(r.1) + ("/" + s3);
    NumberRead(complete, rest);
    NumberThenRead(r.1, "/", s3);
    NumberThenRead(r.0, "-", s2);
    FixedRead("bytes ", ToDecimal(r.0) + ("-" + s2));
  }

  lemma TypeRead(contentType: string, rest: string)
    requires !Contains(contentType, CRLF)
    ensures ReadType(TYPE_FIELD + (contentType + CRLF + rest)) == (contentType, rest)
  {
    FixedRead(TYPE_FIELD, contentType + CRLF + rest);
    FindAfter(contentType, CRLF, rest);
    var s := contentType + CRLF + rest;
    assert s[..|contentType|] == contentType && s[|contentType| + 2..] == rest;
  }

  lemma NoTypeRead(rest: string)
    ensures ReadType(RANGE_FIELD + rest) == ("", RANGE_FIELD + rest)
  {
    assert TYPE_FIELD[8] != RANGE_FIELD[8];
  }

  lemma DataRead(data: string, r: Range, rest: string)
    requires 0 < |data| == r.1 - r.0 + 1
    ensures ReadData(data + (CRLF + rest), r) == Some((data, rest))
  {
    assert (data + (CRLF + rest))[|data|..] == CRLF + rest;
    FixedRead(CRLF, rest);
  }

  /** A part but for its delimiter and its type line, with `rest` behind it. */
  function RangeAndData(field: string, data: string, rest: string): string {
    RANGE_FIELD + (field + (CRLF + CRLF + (data + (CRLF + rest))))
  }

  lemma PiecesRead(kind: string, contentType: string, field: string, r: Range, complete: nat, data: string, rest: string)
    requires ReadType(kind + RangeAndData(field, data, rest)) == (contentType, RangeAndData(field, data, rest))
    requires var s4 := data + (CRLF + rest); ReadRange(field + (CRLF + CRLF + s4)) == Some((r, complete, CRLF + CRLF + s4))
    requires 0 < |data| == r.1 - r.0 + 1
    ensures ReadPart(kind + RangeAndData(field, data, rest)) == Some((Part(contentType, r, complete, data), rest))
  {
    var s4 := data + (CRLF + rest);
    DataRead(data, r, rest);
    PartRead(kind + RangeAndData(field, data, rest), contentType, r, complete, field + (CRLF + CRLF + s4), s4, data, rest);
  }

  /** A part behind its delimiter is read when its pieces are. */
  lemma PartRead(s: string, contentType: string, r: Range, complete: nat, s2: string, s4: string, data: string, rest: string)
    requires ReadType(s) == (contentType, RANGE_FIELD + s2)
    requires ReadRange(s2) == Some((r, complete, CRLF + CRLF + s4)) && ReadData(s4, r) == Some((data, rest))
    ensures ReadPart(s) == Some((Part(contentType, r, complete, data), rest))
  {
    FixedRead(RANGE_FIELD, s2);
    FixedRead(CRLF + CRLF, s4);
  }

  /** A whole body. */
  function ReadBody(s: string, boundary: string): Option<seq<Part>> { ReadParts(s, boundary) }

  /** The closing delimiter. */
  lemma ClosingRead(boundary: string)
    ensures ReadBody("--" + boundary + "--", boundary) == Some([])
  {
    FixedRead("--" + boundary, "--");
  }

  /** A delimiter, a part, and more. */
  lemma PartsRead(boundary: string, inner: string, part: Part, rest: string, parts: seq<Part>)
    requires ReadPart(inner) == Some((part, rest)) && |rest| < |inner|
    requires ReadBody(rest, boundary) == Some(parts)
    ensures ReadBody("--" + boundary + (CRLF + inner), boundary) == Some([part] + parts)
  {
    FixedRead("--" + boundary, CRLF + inner);
    FixedRead(CRLF, inner);
    assert (CRLF + inner)[0] == '\r' && "--"[0] != '\r';
  }
}
