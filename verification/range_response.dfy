/** Answering a range request: `process_multipart_ranges_data` and its three users, `apply_ranges` and
    `write_content_with_provider` (section 15.3.7 of RFC 9110). */
module RangeResponse {
  import opened Wrappers
  import opened Text
  import opened Decimal
  import opened Ranges
  import RangeHeader
  import RangeReader
  import opened Streams

  const OK := 200
  const PARTIAL_CONTENT := 206
  const RANGE_NOT_SATISFIABLE := 416

  // ---- what a multipart/byteranges body is ----

  function ContentRange(r: Range, len: nat): string
    requires Within(r, len)
  {
    "bytes " + ToDecimal(r.0) + "-" + ToDecimal(r.1) + "/" + ToDecimal(len)
  }

  function Slice(r: Range, rep: string): string
    requires Within(r, |rep|)
  {
    rep[r.0..r.1 + 1]
  }

  function PartType(contentType: string): string {
    if contentType == "" then "" else "Content-Type: " + contentType + CRLF
  }

  function Part(r: Range, boundary: string, contentType: string, rep: string): string
    requires Within(r, |rep|)
  {
    ("--" + boundary + CRLF) + PartType(contentType) + ("Content-Range: " + ContentRange(r, |rep|) + CRLF)
    + (CRLF + Slice(r, rep) + CRLF)
  }

  /** The parts for the ranges from the `i`th on, and the closing delimiter. */
  function Multipart(ranges: seq<Range>, i: nat, boundary: string, contentType: string, rep: string): string
    requires AllWithin(ranges, |rep|) && i <= |ranges|
    decreases |ranges| - i
  {
    if i == |ranges| then "--" + boundary + "--"
    else Part(ranges[i], boundary, contentType, rep) + Multipart(ranges, i + 1, boundary, contentType, rep)
  }

  // ---- a reader of it ----

  lemma SixPieces(a: string, b: string, c: string, d: string, e: string, f: string, g: string)
    ensures a + b + c + d + e + f + g == a + (b + (c + (d + (e + (f + g)))))
  {}

  /** The field gives back first and last position and the complete length. */
  lemma RangeReadsBack(r: Range, len: nat, rest: string)
    requires Within(r, len) && !RangeReader.DigitBegins(rest)
    ensures RangeReader.ReadRange(ContentRange(r, len) + rest) == Some((r, len, rest))
  {
    SixPieces("bytes ", ToDecimal(r.0), "-", ToDecimal(r.1), "/", ToDecimal(len), rest);
    RangeReader.RangeRead(r, len, rest);
  }

  lemma FieldReadsBack(r: Range, len: nat)
    requires Within(r, len)
    ensures RangeReader.ReadField(ContentRange(r, len)) == Some((r, len))
  {
    RangeReadsBack(r, len, "");
    assert ContentRange(r, len) + "" == ContentRange(r, len);
  }

  lemma PartRegrouped(open: string, kind: string, head: string, field: string, end: string, data: string, rest: string)
    ensures (open + end) + kind + (head + field + end) + (end + data + end) + rest
            == open + (end + (kind + (head + (field + (end + end + (data + (end + rest)))))))
  {}

  lemma PartIs(r: Range, boundary: string, contentType: string, rep: string, rest: string)
    requires Within(r, |rep|)
    ensures Part(r, boundary, contentType, rep) + rest
            == "--" + boundary + (CRLF + (PartType(contentType) + RangeReader.RangeAndData(ContentRange(r, |rep|), Slice(r, rep), rest)))
  {
    PartRegrouped("--" + boundary, PartType(contentType), "Content-Range: ", ContentRange(r, |rep|), CRLF, Slice(r, rep), rest);
  }

  lemma TypeReadsBack(contentType: string, more: string)
    requires !Contains(contentType, CRLF)
    ensures RangeReader.ReadType(PartType(contentType) + (RangeReader.RANGE_FIELD + more)) == (contentType, RangeReader.RANGE_FIELD + more)
  {
    var s1 := RangeReader.RANGE_FIELD + more;
    if contentType == "" {
      assert PartType(contentType) + s1 == s1;
      RangeReader.NoTypeRead(more);
    } else {
      assert PartType(contentType) + s1 == RangeReader.TYPE_FIELD + (contentType + CRLF + s1);
      RangeReader.TypeRead(contentType, s1);
    }
  }

  lemma PartReadsBack(r: Range, contentType: string, rep: string, rest: string, kind: string, field: string, data: string)
    requires Within(r, |rep|) && !Contains(contentType, CRLF)
    requires kind == PartType(contentType) && field == ContentRange(r, |rep|) && data == rep[r.0..r.1 + 1]
    ensures RangeReader.ReadPart(kind + RangeReader.RangeAndData(field, data, rest))
            == Some((RangeReader.Part(contentType, r, |rep|, data), rest))
  {
    var s3 := CRLF + CRLF + (data + (CRLF + rest));
    TypeReadsBack(contentType, field + s3);
    RangeReadsBack(r, |rep|, s3);
    RangeReader.PiecesRead(kind, contentType, field, r, |rep|, data, rest);
  }

  /** The parts are those asked for, from the `i`th range on: their ranges, the complete length, and the bytes
      they name. */
  ghost predicate PartsAre(parts: seq<RangeReader.Part>, ranges: seq<Range>, i: nat, contentType: string, rep: string)
    requires AllWithin(ranges, |rep|)
  {
    && |parts| + i == |ranges|
    && forall k | 0 <= k < |parts| ::
         var r := ranges[i + k];
         parts[k] == RangeReader.Part(contentType, r, |rep|, rep[r.0..r.1 + 1])
  }

  lemma InnerReads(r: Range, boundary: string, contentType: string, rep: string, rest: string)
    returns (inner: string, part: RangeReader.Part)
    requires Within(r, |rep|) && !Contains(contentType, CRLF)
    ensures Part(r, boundary, contentType, rep) + rest == "--" + boundary + (CRLF + inner) && |rest| < |inner|
    ensures part == RangeReader.Part(contentType, r, |rep|, rep[r.0..r.1 + 1])
    ensures RangeReader.ReadPart(inner) == Some((part, rest))
  {
    var kind, field, data := PartType(contentType), ContentRange(r, |rep|), Slice(r, rep);
    PartIs(r, boundary, contentType, rep, rest);
    PartReadsBack(r, contentType, rep, rest, kind, field, data);
    inner, part := kind + RangeReader.RangeAndData(field, data, rest), RangeReader.Part(contentType, r, |rep|, data);
  }

  lemma OnePartBack(r: Range, boundary: string, contentType: string, rep: string, rest: string, more: seq<RangeReader.Part>)
    returns (part: RangeReader.Part)
    requires Within(r, |rep|) && !Contains(contentType, CRLF) && RangeReader.ReadBody(rest, boundary) == Some(more)
    ensures part == RangeReader.Part(contentType, r, |rep|, rep[r.0..r.1 + 1])
    ensures RangeReader.ReadBody(Part(r, boundary, contentType, rep) + rest, boundary) == Some([part] + more)
  {
    var inner;
    inner, part := InnerReads(r, boundary, contentType, rep, rest);
    RangeReader.PartsRead(boundary, inner, part, rest, more);
  }

  /** Read, the body gives the parts asked for. */
  ghost predicate ReadsBack(parts: seq<RangeReader.Part>, ranges: seq<Range>, i: nat, boundary: string, contentType: string, rep: string)
    requires AllWithin(ranges, |rep|) && i <= |ranges|
  {
    && RangeReader.ReadBody(Multipart(ranges, i, boundary, contentType, rep), boundary) == Some(parts)
    && PartsAre(parts, ranges, i, contentType, rep)
  }

  lemma NoneReadBack(ranges: seq<Range>, boundary: string, contentType: string, rep: string)
    requires AllWithin(ranges, |rep|)
    ensures ReadsBack([], ranges, |ranges|, boundary, contentType, rep)
  {
    RangeReader.ClosingRead(boundary);
  }

  lemma OneReadBack(ranges: seq<Range>, i: nat, n: nat, boundary: string, contentType: string, rep: string, more: seq<RangeReader.Part>)
    returns (parts: seq<RangeReader.Part>)
    requires AllWithin(ranges, |rep|) && i < |ranges| && n == i + 1 && !Contains(contentType, CRLF)
    requires ReadsBack(more, ranges, n, boundary, contentType, rep)
    ensures ReadsBack(parts, ranges, i, boundary, contentType, rep)
  {
    var part := OnePartBack(ranges[i], boundary, contentType, rep, Multipart(ranges, n, boundary, contentType, rep), more);
    parts := PartsMore(ranges, i, n, contentType, rep, part, more);
  }

  /** Reading a multipart/byteranges body gives back what was asked for, whatever the boundary: the lengths
      come from the ranges. */
  lemma {:induction false} MultipartReadsBack(ranges: seq<Range>, i: nat, boundary: string, contentType: string, rep: string)
    returns (parts: seq<RangeReader.Part>)
    requires AllWithin(ranges, |rep|) && i <= |ranges| && !Contains(contentType, CRLF)
    ensures ReadsBack(parts, ranges, i, boundary, contentType, rep)
    decreases |ranges| - i
  {
    if i == |ranges| {
      NoneReadBack(ranges, boundary, contentType, rep);
      parts := [];
    } else {
      var n := i + 1;
      var more := MultipartReadsBack(ranges, n, boundary, contentType, rep);
      parts := OneReadBack(ranges, i, n, boundary, contentType, rep, more);
    }
  }

  lemma PartsMore(ranges: seq<Range>, i: nat, n: nat, contentType: string, rep: string, part: RangeReader.Part, more: seq<RangeReader.Part>)
    returns (parts: seq<RangeReader.Part>)
    requires AllWithin(ranges, |rep|) && i < |ranges| && n == i + 1 && PartsAre(more, ranges, n, contentType, rep)
    requires part == RangeReader.Part(contentType, ranges[i], |rep|, rep[ranges[i].0..ranges[i].1 + 1])
    ensures parts == [part] + more && PartsAre(parts, ranges, i, contentType, rep)
  {
    parts := [part] + more;
  }

  // ---- the calls the template makes on its three callbacks ----

  /** A call on a token or the content callback, or the failing assertion of `get_range_offset_and_length`. */
  datatype Step = Emit(text: string) | Copy(offset: nat, length: nat) | Fault

  predicate Fits(s: Step, len: nat) { s.Copy? ==> s.offset + s.length <= len }

  predicate AllFit(script: seq<Step>, len: nat) { forall i | 0 <= i < |script| :: Fits(script[i], len) }

  function StepText(s: Step, rep: string): string
    requires Fits(s, |rep|)
  {
    match s
    case Emit(text) => text
    case Copy(offset, length) => rep[offset..offset + length]
    case Fault => ""
  }

  function TextOf(script: seq<Step>, rep: string): string
    requires AllFit(script, |rep|)
  {
    if script == [] then "" else StepText(script[0], rep) + TextOf(script[1..], rep)
  }

  function StepLength(s: Step): nat {
    match s
    case Emit(text) => |text|
    case Copy(_, length) => length
    case Fault => 0
  }

  function LengthOf(script: seq<Step>): nat {
    if script == [] then 0 else StepLength(script[0]) + LengthOf(script[1..])
  }

  /** Counting the bytes and producing them agree. */
  lemma {:induction false} LengthIsLength(script: seq<Step>, rep: string)
    requires AllFit(script, |rep|)
    ensures |TextOf(script, rep)| == LengthOf(script)
  {
    if script != [] {
      LengthIsLength(script[1..], rep);
    }
  }

  lemma TextCons(x: Step, rest: seq<Step>, rep: string)
    requires Fits(x, |rep|) && AllFit(rest, |rep|)
    ensures AllFit([x] + rest, |rep|) && TextOf([x] + rest, rep) == StepText(x, rep) + TextOf(rest, rep)
  {
    assert ([x] + rest)[1..] == rest;
  }

  lemma {:induction false} TextAppend(a: seq<Step>, b: seq<Step>, rep: string)
    requires AllFit(a, |rep|) && AllFit(b, |rep|)
    ensures AllFit(a + b, |rep|) && TextOf(a + b, rep) == TextOf(a, rep) + TextOf(b, rep)
  {
    if a == [] {
      assert a + b == b;
    } else {
      var x, rest := a[0], a[1..];
      TextAppend(rest, b, rep);
      TextCons(x, rest, rep);
      TextCons(x, rest + b, rep);
      assert a == [x] + rest;
      Associative([x], rest, b);
      Associative(StepText(x, rep), TextOf(rest, rep), TextOf(b, rep));
    }
  }

  lemma TextOfThree(x: Step, y: Step, z: Step, rep: string)
    requires Fits(x, |rep|) && Fits(y, |rep|) && Fits(z, |rep|)
    ensures TextOf([x, y, z], rep) == StepText(x, rep) + StepText(y, rep) + StepText(z, rep)
  {
    TextCons(z, [], rep);
    TextCons(y, [z] + [], rep);
    TextCons(x, [y] + ([z] + []), rep);
    Triple(x, y, z);
    ThreeJoin(StepText(x, rep), StepText(y, rep), StepText(z, rep));
  }

  lemma Triple<T>(x: T, y: T, z: T)
    ensures [x] + ([y] + ([z] + [])) == [x, y, z]
  {}

  lemma ThreeJoin(a: string, b: string, c: string)
    ensures a + (b + (c + "")) == a + b + c
  {}

  function Delimiter(boundary: string): seq<Step> { [Emit("--"), Emit(boundary), Emit(CRLF)] }

  function TypeLine(contentType: string): seq<Step> {
    if contentType == "" then [] else [Emit("Content-Type: "), Emit(contentType), Emit(CRLF)]
  }

  function RangeLine(r: Range, len: nat): seq<Step>
    requires Within(r, len)
  {
    [Emit("Content-Range: "), Emit(ContentRange(r, len)), Emit(CRLF)]
  }

  function Content(r: Range): seq<Step>
    requires 0 <= r.0 <= r.1
  {
    [Emit(CRLF), Copy(r.0, r.1 - r.0 + 1), Emit(CRLF)]
  }

  function PartSteps(r: Range, boundary: string, contentType: string, len: nat): seq<Step>
    requires Within(r, len)
  {
    Delimiter(boundary) + TypeLine(contentType) + RangeLine(r, len) + Content(r)
  }

  /** The calls for the ranges from the `i`th on; they end at a range outside the content. */
  function Script(ranges: seq<Range>, i: nat, boundary: string, contentType: string, len: nat): seq<Step>
    requires i <= |ranges|
    decreases |ranges| - i
  {
    if i == |ranges| then [Emit("--"), Emit(boundary), Emit("--")]
    else if Within(ranges[i], len)
    then PartSteps(ranges[i], boundary, contentType, len) + Script(ranges, i + 1, boundary, contentType, len)
    else Delimiter(boundary) + TypeLine(contentType) + [Fault]
  }

  lemma PartFits(r: Range, boundary: string, contentType: string, len: nat)
    requires Within(r, len)
    ensures AllFit(PartSteps(r, boundary, contentType, len), len) && Fault !in PartSteps(r, boundary, contentType, len)
  {}

  lemma FitsAppend(a: seq<Step>, b: seq<Step>, len: nat)
    requires AllFit(a, len) && AllFit(b, len)
    ensures AllFit(a + b, len)
  {}

  /** The assertion fails in the course of the calls exactly when some range is not inside the content. */
  lemma {:induction false} FaultIff(ranges: seq<Range>, i: nat, boundary: string, contentType: string, len: nat)
    requires i <= |ranges|
    ensures Fault in Script(ranges, i, boundary, contentType, len) <==> exists k :: i <= k < |ranges| && !Within(ranges[k], len)
    decreases |ranges| - i
  {
    if i < |ranges| && Within(ranges[i], len) {
      var part, rest := PartSteps(ranges[i], boundary, contentType, len), Script(ranges, i + 1, boundary, contentType, len);
      PartFits(ranges[i], boundary, contentType, len);
      FaultIff(ranges, i + 1, boundary, contentType, len);
      assert Script(ranges, i, boundary, contentType, len) == part + rest;
    }
  }

  lemma {:induction false} ScriptFits(ranges: seq<Range>, i: nat, boundary: string, contentType: string, len: nat)
    requires i <= |ranges|
    ensures AllFit(Script(ranges, i, boundary, contentType, len), len)
    decreases |ranges| - i
  {
    if i < |ranges| && Within(ranges[i], len) {
      PartFits(ranges[i], boundary, contentType, len);
      ScriptFits(ranges, i + 1, boundary, contentType, len);
      FitsAppend(PartSteps(ranges[i], boundary, contentType, len), Script(ranges, i + 1, boundary, contentType, len), len);
    }
  }

  lemma TypeLineText(contentType: string, rep: string)
    ensures AllFit(TypeLine(contentType), |rep|) && TextOf(TypeLine(contentType), rep) == PartType(contentType)
  {
    if contentType != "" {
      EmitThree("Content-Type: ", contentType, CRLF, rep);
    }
  }

  lemma EmitThree(a: string, b: string, c: string, rep: string)
    ensures AllFit([Emit(a), Emit(b), Emit(c)], |rep|) && TextOf([Emit(a), Emit(b), Emit(c)], rep) == a + b + c
  {
    TextOfThree(Emit(a), Emit(b), Emit(c), rep);
  }

  lemma DelimiterText(boundary: string, rep: string)
    ensures AllFit(Delimiter(boundary), |rep|) && TextOf(Delimiter(boundary), rep) == "--" + boundary + CRLF
  {
    EmitThree("--", boundary, CRLF, rep);
  }

  lemma HeadText(boundary: string, contentType: string, rep: string)
    ensures AllFit(Delimiter(boundary) + TypeLine(contentType), |rep|)
    ensures TextOf(Delimiter(boundary) + TypeLine(contentType), rep) == ("--" + boundary + CRLF) + PartType(contentType)
  {
    DelimiterText(boundary, rep);
    TypeLineText(contentType, rep);
    TextAppend(Delimiter(boundary), TypeLine(contentType), rep);
  }

  lemma RangeLineText(r: Range, rep: string)
    requires Within(r, |rep|)
    ensures AllFit(RangeLine(r, |rep|), |rep|)
    ensures TextOf(RangeLine(r, |rep|), rep) == "Content-Range: " + ContentRange(r, |rep|) + CRLF
  {
    EmitThree("Content-Range: ", ContentRange(r, |rep|), CRLF, rep);
  }

  lemma ContentText(r: Range, rep: string)
    requires Within(r, |rep|)
    ensures AllFit(Content(r), |rep|) && TextOf(Content(r), rep) == CRLF + Slice(r, rep) + CRLF
  {
    TextOfThree(Emit(CRLF), Copy(r.0, r.1 - r.0 + 1), Emit(CRLF), rep);
  }

  lemma PartText(r: Range, boundary: string, contentType: string, rep: string)
    requires Within(r, |rep|)
    ensures AllFit(PartSteps(r, boundary, contentType, |rep|), |rep|)
    ensures TextOf(PartSteps(r, boundary, contentType, |rep|), rep) == Part(r, boundary, contentType, rep)
  {
    var head := Delimiter(boundary) + TypeLine(contentType);
    HeadText(boundary, contentType, rep);
    RangeLineText(r, rep);
    ContentText(r, rep);
    TextAppend(head, RangeLine(r, |rep|), rep);
    TextAppend(head + RangeLine(r, |rep|), Content(r), rep);
  }

  /** Whatever the callbacks do with them, the calls spell out the multipart body. */
  lemma {:induction false} ScriptText(ranges: seq<Range>, i: nat, boundary: string, contentType: string, rep: string)
    requires AllWithin(ranges, |rep|) && i <= |ranges|
    ensures AllFit(Script(ranges, i, boundary, contentType, |rep|), |rep|)
    ensures TextOf(Script(ranges, i, boundary, contentType, |rep|), rep) == Multipart(ranges, i, boundary, contentType, rep)
    decreases |ranges| - i
  {
    if i == |ranges| {
      EmitThree("--", boundary, "--", rep);
    } else {
      PartText(ranges[i], boundary, contentType, rep);
      ScriptText(ranges, i + 1, boundary, contentType, rep);
      TextAppend(PartSteps(ranges[i], boundary, contentType, |rep|), Script(ranges, i + 1, boundary, contentType, |rep|), rep);
    }
  }

  method GetRangeOffsetAndLength(r: Range, len: nat) returns (offset: nat, length: nat)
    requires Within(r, len)
    ensures offset == r.0 && length == r.1 - r.0 + 1 && offset + length <= len
  {
    offset, length := r.0, r.1 - r.0 + 1;
  }

  method MakeContentRange(offset: nat, length: nat, len: nat) returns (field: string)
    requires length > 0 && offset + length <= len
    ensures field == ContentRange((offset, offset + length - 1), len)
  {
    var st, ed := offset, offset + length - 1;
    field := "bytes ";
    field := field + ToDecimal(st);
    field := field + "-";
    field := field + ToDecimal(ed);
    field := field + "/";
    field := field + ToDecimal(len);
  }

  /** `process_multipart_ranges_data`: the calls on the callbacks, in order. */
  method ProcessMultipartRanges(ranges: seq<Range>, boundary: string, contentType: string, len: nat)
    returns (calls: seq<Step>)
    ensures calls == Script(ranges, 0, boundary, contentType, len)
  {
    calls := [];
    for i := 0 to |ranges|
      invariant calls + Script(ranges, i, boundary, contentType, len) == Script(ranges, 0, boundary, contentType, len)
    {
      var part := ProcessPart(ranges[i], boundary, contentType, len);
      if Fault in part { return calls + part; }
      Associative(calls, part, Script(ranges, i + 1, boundary, contentType, len));
      calls := calls + part;
    }
    calls := calls + [Emit("--"), Emit(boundary), Emit("--")];
  }

  /** One pass of the loop; the assertions of `get_range_offset_and_length` come behind the delimiter and the type. */
  method ProcessPart(r: Range, boundary: string, contentType: string, len: nat) returns (calls: seq<Step>)
    ensures Within(r, len) ==> calls == PartSteps(r, boundary, contentType, len) && Fault !in calls
    ensures !Within(r, len) ==> calls == Delimiter(boundary) + TypeLine(contentType) + [Fault]
  {
    calls := [Emit("--"), Emit(boundary), Emit(CRLF)];
    if contentType != "" {
      calls := calls + [Emit("Content-Type: "), Emit(contentType), Emit(CRLF)];
    }
    if !Within(r, len) { return calls + [Fault]; }
    PartFits(r, boundary, contentType, len);
    var offset, length := GetRangeOffsetAndLength(r, len);
    var field := MakeContentRange(offset, length, len);
    calls := calls + [Emit("Content-Range: "), Emit(field), Emit(CRLF)];
    calls := calls + [Emit(CRLF), Copy(offset, length), Emit(CRLF)];
  }

  lemma NextStep(script: seq<Step>, i: nat, rep: string)
    requires i < |script| && AllFit(script, |rep|)
    ensures AllFit(script[i..], |rep|) && AllFit(script[i + 1..], |rep|)
    ensures TextOf(script[i..], rep) == StepText(script[i], rep) + TextOf(script[i + 1..], rep)
  {
    assert script[i..][1..] == script[i + 1..];
  }

  /** `get_multipart_ranges_data_length`: the callbacks only count. */
  method MultipartLength(ranges: seq<Range>, boundary: string, contentType: string, len: nat, ghost rep: string)
    returns (length: nat)
    requires |rep| == len && AllWithin(ranges, len)
    ensures length == |Multipart(ranges, 0, boundary, contentType, rep)|
  {
    var calls := ProcessMultipartRanges(ranges, boundary, contentType, len);
    length := 0;
    assert calls[0..] == calls;
    for i := 0 to |calls|
      invariant length + LengthOf(calls[i..]) == LengthOf(calls)
    {
      assert calls[i..][1..] == calls[i + 1..];
      match calls[i] {
        case Emit(text) => length := length + |text|;
        case Copy(_, n) => length := length + n;
        case Fault =>
      }
    }
    ScriptText(ranges, 0, boundary, contentType, rep);
    LengthIsLength(calls, rep);
  }

  /** `make_multipart_ranges_data`: the callbacks append to a string. */
  method MultipartData(ranges: seq<Range>, boundary: string, contentType: string, body: string) returns (data: string)
    requires AllWithin(ranges, |body|)
    ensures data == Multipart(ranges, 0, boundary, contentType, body)
  {
    var calls := ProcessMultipartRanges(ranges, boundary, contentType, |body|);
    ScriptText(ranges, 0, boundary, contentType, body);
    data := "";
    assert calls[0..] == calls;
    for i := 0 to |calls|
      invariant AllFit(calls[i..], |body|) && data + TextOf(calls[i..], body) == TextOf(calls, body)
    {
      NextStep(calls, i, body);
      Associative(data, StepText(calls[i], body), TextOf(calls[i + 1..], body));
      data := AppendStep(data, calls[i], body);
    }
  }

  method AppendStep(data: string, call: Step, body: string) returns (longer: string)
    requires Fits(call, |body|)
    ensures longer == data + StepText(call, body)
  {
    match call
    case Emit(text) => longer := data + text;
    case Copy(offset, length) => longer := data + body[offset..offset + length];
    case Fault => longer := data + "";
  }

  // ---- writing to a stream from a content provider ----

  class Server {
    /** Once the listening socket is gone it stays gone. */
    var down: bool

    constructor ()
      ensures !down
    {
      down := false;
    }

    method IsShuttingDown() returns (b: bool)
      modifies this
      ensures b == down && (old(down) ==> down)
    {
      var stopping: bool := *;
      if stopping { down := true; }
      b := down;
    }
  }

  /** The sink handed to a provider: `offset` follows the bytes written. */
  class DataSink {
    const strm: OutStream
    var offset: nat
    var ok: bool

    constructor (strm: OutStream, offset: nat)
      ensures this.strm == strm && this.offset == offset && ok
    {
      this.strm, this.offset, ok := strm, offset, true;
    }

    method Write(d: string) returns (r: bool)
      modifies this, strm
      ensures r == ok && (!old(ok) ==> !ok)
      ensures strm.errors >= old(strm.errors)
      ensures old(ok) ==> ok == (strm.errors == old(strm.errors))
      ensures ok ==> offset == old(offset) + |d| && strm.out == old(strm.out) + d
    {
      if ok {
        ok := WriteData(strm, d);
        if ok { offset := offset + |d|; }
      }
      r := ok;
    }
  }

  /** A provider that serves `rep`: each call writes at least one and at most the bytes asked for, in any
      number of writes of any size, and may cancel. */
  class ContentProvider {
    const rep: string

    constructor (rep: string)
      ensures this.rep == rep
    {
      this.rep := rep;
    }

    method Provide(offset: nat, length: nat, sink: DataSink) returns (r: bool)
      requires length > 0 && offset + length <= |rep|
      requires sink.ok && sink.offset == offset
      modifies sink, sink.strm
      ensures sink.ok == (sink.strm.errors == old(sink.strm.errors))
      ensures sink.ok ==> offset < sink.offset <= offset + length
      ensures sink.ok ==> sink.strm.out == old(sink.strm.out) + rep[offset..sink.offset]
    {
      ghost var was := sink.strm.out;
      ghost var errors := sink.strm.errors;
      var pos, more := offset, true;
      while more
        invariant offset <= pos <= offset + length && (pos == offset ==> more) && (more ==> pos < offset + length)
        invariant sink.strm.errors >= errors && sink.ok == (sink.strm.errors == errors)
        invariant sink.ok ==> sink.offset == pos && sink.strm.out == was + rep[offset..pos]
        decreases offset + length - pos, more
      {
        var k: nat :| 1 <= k <= offset + length - pos;
        var taken := sink.Write(rep[pos..pos + k]);
        SlicesJoin(was, rep, offset, pos, pos + k);
        pos := pos + k;
        if pos == offset + length {
          more := false;
        } else {
          var again: bool := *;
          more := again;
        }
      }
      var agreed: bool := *;
      r := agreed;
    }
  }

  lemma SlicesJoin(was: string, rep: string, a: nat, b: nat, c: nat)
    requires a <= b <= c <= |rep|
    ensures was + rep[a..b] + rep[b..c] == was + rep[a..c]
  {
    assert rep[a..b] + rep[b..c] == rep[a..c];
    Associative(was, rep[a..b], rep[b..c]);
  }

  method WaitWritable() returns (b: bool)
  {
    var ready: bool := *;
    b := ready;
  }

  /** `write_content`: on success, and unless the server went down meanwhile, exactly the asked-for bytes
      of the representation are out, however the provider and the stream cut them. */
  method WriteContent(strm: OutStream, provider: ContentProvider, offset: nat, length: nat, server: Server)
    returns (ok: bool)
    requires offset + length <= |provider.rep|
    modifies strm, server
    ensures old(server.down) ==> server.down
    ensures ok && !server.down ==> strm.out == old(strm.out) + provider.rep[offset..offset + length]
  {
    ghost var was := strm.out;
    var end := offset + length;
    var sink := new DataSink(strm, offset);
    while sink.offset < end
      invariant sink.strm == strm && fresh(sink) && sink.ok && offset <= sink.offset <= end
      invariant strm.out == was + provider.rep[offset..sink.offset]
      invariant old(server.down) ==> server.down
      decreases end - sink.offset
    {
      var stopping := server.IsShuttingDown();
      if stopping { return true; }
      var ready := WaitWritable();
      if !ready { return false; }
      ghost var from := sink.offset;
      var provided := provider.Provide(sink.offset, end - sink.offset, sink);
      if !provided { return false; }
      if !sink.ok { return false; }
      SlicesJoin(was, provider.rep, offset, from, sink.offset);
    }
    ok := true;
  }

  /** One write whose result nobody looks at; `whole` says whether the stream took all of it. */
  method WriteToken(strm: OutStream, token: string) returns (ghost whole: bool)
    modifies strm
    ensures whole ==> strm.out == old(strm.out) + token
  {
    if token == "" { return true; }
    var n := strm.Write(token);
    whole := n == |token|;
    assert whole ==> token[..n] == token;
  }

  lemma OutStep(out: string, calls: seq<Step>, i: nat, rep: string)
    requires i < |calls| && AllFit(calls[i..], |rep|)
    ensures Fits(calls[i], |rep|) && AllFit(calls[i + 1..], |rep|)
    ensures out + StepText(calls[i], rep) + TextOf(calls[i + 1..], rep) == out + TextOf(calls[i..], rep)
  {
    var here := calls[i..];
    assert here[0] == calls[i] && here[1..] == calls[i + 1..];
    Associative(out, StepText(calls[i], rep), TextOf(here[1..], rep));
  }

  lemma FaultAnywhere(ranges: seq<Range>, boundary: string, contentType: string, len: nat)
    ensures AllFit(Script(ranges, 0, boundary, contentType, len), len)
    ensures Fault in Script(ranges, 0, boundary, contentType, len) <==> !AllWithin(ranges, len)
  {
    ScriptFits(ranges, 0, boundary, contentType, len);
    FaultIff(ranges, 0, boundary, contentType, len);
  }

  /** How a write of the body ends: by itself, because the stream or the provider refused, or in the failing
      assertion of `get_range_offset_and_length`. */
  datatype End = Done | Refused | Aborted

  /** `write_multipart_ranges_data`: the callbacks write, and a failing range ends the run. Nobody has checked
      the ranges if the status is not one of success; a run that is not refused meets the failing assertion
      exactly when some range is outside the content. */
  method WriteMultipart(strm: OutStream, ranges: seq<Range>, boundary: string, contentType: string,
                        provider: ContentProvider, server: Server)
    returns (end: End, ghost whole: bool)
    modifies strm, server
    ensures old(server.down) ==> server.down
    ensures end != Refused ==> (end == Aborted <==> !AllWithin(ranges, |provider.rep|))
    ensures end == Done && whole && !server.down ==>
              strm.out == old(strm.out) + Multipart(ranges, 0, boundary, contentType, provider.rep)
  {
    var rep := provider.rep;
    var calls := ProcessMultipartRanges(ranges, boundary, contentType, |rep|);
    FaultAnywhere(ranges, boundary, contentType, |rep|);
    end, whole := WriteCalls(strm, calls, provider, server);
    if AllWithin(ranges, |rep|) { ScriptText(ranges, 0, boundary, contentType, rep); }
  }

  method WriteCalls(strm: OutStream, calls: seq<Step>, provider: ContentProvider, server: Server)
    returns (end: End, ghost whole: bool)
    requires AllFit(calls, |provider.rep|)
    modifies strm, server
    ensures old(server.down) ==> server.down
    ensures end != Refused ==> (end == Aborted <==> Fault in calls)
    ensures end == Done && whole && !server.down ==> strm.out == old(strm.out) + TextOf(calls, provider.rep)
  {
    var rep := provider.rep;
    ghost var left := TextOf(calls, rep);
    assert calls[0..] == calls;
    whole := true;
    for i := 0 to |calls|
      invariant AllFit(calls[i..], |rep|) && forall k | 0 <= k < i :: calls[k] != Fault
      invariant old(server.down) ==> server.down
      invariant left == TextOf(calls[i..], rep)
      invariant whole && !server.down ==> strm.out + left == old(strm.out) + TextOf(calls, rep)
    {
      if calls[i].Fault? { return Aborted, whole; }
      OutStep(strm.out, calls, i, rep);
      ghost var all: bool;
      var ok: bool;
      ok, all := WriteStep(strm, calls[i], provider, server);
      left := TextOf(calls[i + 1..], rep);
      whole := whole && all;
      if !ok { return Refused, whole; }
    }
    end := Done;
  }

  method WriteStep(strm: OutStream, call: Step, provider: ContentProvider, server: Server)
    returns (ok: bool, ghost whole: bool)
    requires Fits(call, |provider.rep|) && call != Fault
    modifies strm, server
    ensures old(server.down) ==> server.down
    ensures ok && whole && !server.down ==> strm.out == old(strm.out) + StepText(call, provider.rep)
  {
    match call
    case Emit(text) =>
      whole := WriteToken(strm, text);
      ok := true;
    case Copy(offset, length) =>
      ok := WriteContent(strm, provider, offset, length, server);
      whole := true;
  }

  // ---- choosing the headers, and answering ----

  class Response {
    var status: int
    var body: string
    var contentLength: nat
    var contentType: Option<string>
    var contentRange: Option<string>
    /** The Content-Length header. */
    var advertised: Option<string>

    constructor (status: int, body: string, contentLength: nat, contentType: Option<string>)
      ensures this.status == status && this.body == body && this.contentLength == contentLength
      ensures this.contentType == contentType && contentRange == None && advertised == None
    {
      this.status, this.body, this.contentLength := status, body, contentLength;
      this.contentType, contentRange, advertised := contentType, None, None;
    }
  }

  function Otherwise(o: Option<string>, s: string): string { if o.Some? then o.value else s }

  /** What is to be sent of the representation `rep`. */
  function Selected(ranges: seq<Range>, boundary: string, contentType: string, rep: string): string
    requires AllWithin(ranges, |rep|)
  {
    if ranges == [] then rep
    else if |ranges| == 1 then Slice(ranges[0], rep)
    else Multipart(ranges, 0, boundary, contentType, rep)
  }

  /** What nobody checks for any other status. */
  predicate Checked(status: int, ranges: seq<Range>, len: nat) { status == PARTIAL_CONTENT ==> AllWithin(ranges, len) }

  /** The bytes a response with `status` should carry. */
  function Carried(status: int, ranges: seq<Range>, boundary: string, contentType: string, rep: string): string
    requires Checked(status, ranges, |rep|)
  {
    if status == PARTIAL_CONTENT then Selected(ranges, boundary, contentType, rep) else rep
  }

  function RangeField(status: int, ranges: seq<Range>, len: nat, was: Option<string>): Option<string>
    requires Checked(status, ranges, len)
  {
    if |ranges| == 1 && status == PARTIAL_CONTENT then Some(ContentRange(ranges[0], len)) else was
  }

  /** The half of `apply_ranges` for a provider of known length: only headers are set. */
  method ApplyToProvider(ranges: seq<Range>, res: Response, boundary: string, contentType: string, ghost rep: string)
    requires |rep| == res.contentLength && Checked(res.status, ranges, |rep|)
    modifies res`contentRange, res`advertised
    ensures res.contentRange == RangeField(res.status, ranges, |rep|, old(res.contentRange))
    ensures res.advertised == Some(ToDecimal(|Carried(res.status, ranges, boundary, contentType, rep)|))
  {
    var length: nat;
    if ranges == [] || res.status != PARTIAL_CONTENT {
      length := res.contentLength;
    } else if |ranges| == 1 {
      var offset, n := GetRangeOffsetAndLength(ranges[0], res.contentLength);
      length := n;
      var field := MakeContentRange(offset, n, res.contentLength);
      res.contentRange := Some(field);
    } else {
      length := MultipartLength(ranges, boundary, contentType, res.contentLength, rep);
    }
    res.advertised := Some(ToDecimal(length));
  }

  /** The half of `apply_ranges` for a body in memory, which is cut down to what was asked for. */
  method ApplyToBody(ranges: seq<Range>, res: Response, boundary: string, contentType: string)
    requires Checked(res.status, ranges, |res.body|)
    modifies res`body, res`contentRange, res`advertised
    ensures res.contentRange == RangeField(res.status, ranges, |old(res.body)|, old(res.contentRange))
    ensures res.body == Carried(res.status, ranges, boundary, contentType, old(res.body))
    ensures res.advertised == Some(ToDecimal(|res.body|))
  {
    if ranges == [] || res.status != PARTIAL_CONTENT {
    } else if |ranges| == 1 {
      var offset, n := GetRangeOffsetAndLength(ranges[0], |res.body|);
      var field := MakeContentRange(offset, n, |res.body|);
      res.contentRange := Some(field);
      res.body := res.body[offset..offset + n];
    } else {
      var data := MultipartData(ranges, boundary, contentType, res.body);
      res.body := data;
    }
    res.advertised := Some(ToDecimal(|res.body|));
  }

  predicate Represents(rep: string, body: string, contentLength: nat) {
    if body == "" then |rep| == contentLength else rep == body
  }

  /** Boundary and type of the parts: left empty unless there are several ranges and the status is 206. */
  function IfMulti(status: int, ranges: seq<Range>, s: string): string {
    if |ranges| > 1 && status == PARTIAL_CONTENT then s else ""
  }

  /** The Content-Range field names this range of a representation of this length. */
  predicate Names(field: Option<string>, r: Range, len: nat) {
    field.Some? && RangeReader.ReadField(field.value) == Some((r, len))
  }

  /** What a reader makes of an answer: the representation; one range of it, named by the Content-Range
      field; or, if the type declared has no line end in it, parts with the ranges asked for, the complete length and
      the bytes they name, under the boundary the Content-Type field announces. */
  ghost predicate AnswerReads(ranges: seq<Range>, field: Option<string>, typeField: Option<string>,
                              generated: string, declared: string, rep: string, sent: string)
    requires AllWithin(ranges, |rep|)
  {
    if ranges == [] then sent == rep
    else if |ranges| == 1 then Names(field, ranges[0], |rep|) && sent == rep[ranges[0].0..ranges[0].1 + 1]
    else
      && typeField == Some("multipart/byteranges; boundary=" + generated)
      && (!Contains(declared, CRLF) ==>
            exists parts :: RangeReader.ReadBody(sent, generated) == Some(parts) && PartsAre(parts, ranges, 0, declared, rep))
  }

  lemma SelectedReads(ranges: seq<Range>, field: Option<string>, typeField: Option<string>,
                      generated: string, declared: string, rep: string)
    requires AllWithin(ranges, |rep|)
    requires |ranges| == 1 ==> field == Some(ContentRange(ranges[0], |rep|))
    requires |ranges| > 1 ==> typeField == Some("multipart/byteranges; boundary=" + generated)
    ensures AnswerReads(ranges, field, typeField, generated, declared, rep, Selected(ranges, generated, declared, rep))
  {
    if |ranges| == 1 {
      FieldReadsBack(ranges[0], |rep|);
    } else if |ranges| > 1 && !Contains(declared, CRLF) {
      var parts := MultipartReadsBack(ranges, 0, generated, declared, rep);
    }
  }

  /** `apply_ranges`; `generated` is the random boundary. */
  method ApplyRanges(ranges: seq<Range>, res: Response, generated: string, ghost rep: string)
    returns (contentType: string, boundary: string)
    requires Represents(rep, res.body, res.contentLength) && Checked(res.status, ranges, |rep|)
    modifies res
    ensures res.status == old(res.status) && res.contentLength == old(res.contentLength)
    ensures boundary == IfMulti(res.status, ranges, generated)
    ensures contentType == IfMulti(res.status, ranges, Otherwise(old(res.contentType), ""))
    ensures res.contentType == if |ranges| > 1 && res.status == PARTIAL_CONTENT
                               then Some("multipart/byteranges; boundary=" + generated) else old(res.contentType)
    ensures res.contentRange == RangeField(res.status, ranges, |rep|, old(res.contentRange))
    ensures |ranges| == 1 && res.status == PARTIAL_CONTENT ==> Names(res.contentRange, ranges[0], |rep|)
    ensures var sent := Carried(res.status, ranges, boundary, contentType, rep);
            && res.advertised == (if rep == "" then old(res.advertised) else Some(ToDecimal(|sent|)))
            && res.body == if old(res.body) == "" then "" else sent
  {
    if |ranges| == 1 && res.status == PARTIAL_CONTENT { FieldReadsBack(ranges[0], |rep|); }
    contentType, boundary := "", "";
    if |ranges| > 1 && res.status == PARTIAL_CONTENT {
      if res.contentType.Some? { contentType := res.contentType.value; }
      boundary := generated;
      res.contentType := Some("multipart/byteranges; boundary=" + boundary);
    }
    if res.body == "" {
      if res.contentLength > 0 { ApplyToProvider(ranges, res, boundary, contentType, rep); }
    } else {
      ApplyToBody(ranges, res, boundary, contentType);
    }
  }

  /** `write_content_with_provider` for a provider of known length; it looks neither at the status nor at
      whether the ranges were checked. */
  method WriteContentWithProvider(strm: OutStream, ranges: seq<Range>, provider: ContentProvider,
                                  boundary: string, contentType: string, server: Server)
    returns (end: End, ghost whole: bool)
    requires provider.rep != ""
    modifies strm, server
    ensures old(server.down) ==> server.down
    ensures end != Refused ==> (end == Aborted <==> !AllWithin(ranges, |provider.rep|))
    ensures |ranges| == 1 && !Within(ranges[0], |provider.rep|) ==> end == Aborted && strm.out == old(strm.out)
    ensures end == Done && whole && !server.down ==>
              strm.out == old(strm.out) + Selected(ranges, boundary, contentType, provider.rep)
  {
    var rep := provider.rep;
    whole := true;
    if ranges == [] {
      var ok := WriteContent(strm, provider, 0, |rep|, server);
      assert rep[0..|rep|] == rep;
      end := if ok then Done else Refused;
    } else if |ranges| == 1 {
      if !Within(ranges[0], |rep|) { return Aborted, whole; }
      var offset, length := GetRangeOffsetAndLength(ranges[0], |rep|);
      var ok := WriteContent(strm, provider, offset, length, server);
      end := if ok then Done else Refused;
    } else {
      end, whole := WriteMultipart(strm, ranges, boundary, contentType, provider, server);
    }
  }

  /** The body half of `write_response_core`: the headers are chosen, then the body is written. What is
      advertised follows the status; a body in memory is what is advertised, a provider is asked for the
      ranges whatever the status. */
  method WriteBody(strm: OutStream, ranges: seq<Range>, res: Response, provider: ContentProvider, generated: string, server: Server)
    returns (end: End, ghost whole: bool)
    requires provider.rep != "" && Checked(res.status, ranges, |provider.rep|)
    requires Represents(provider.rep, res.body, res.contentLength)
    modifies strm, res, server
    ensures res.status == old(res.status)
    ensures res.contentRange == RangeField(old(res.status), ranges, |provider.rep|, old(res.contentRange))
    ensures |ranges| > 1 && old(res.status) == PARTIAL_CONTENT ==>
              res.contentType == Some("multipart/byteranges; boundary=" + generated)
    ensures var boundary := IfMulti(old(res.status), ranges, generated);
            var contentType := IfMulti(old(res.status), ranges, Otherwise(old(res.contentType), ""));
            var carried := Carried(old(res.status), ranges, boundary, contentType, provider.rep);
            && res.advertised == Some(ToDecimal(|carried|))
            && (end == Done && old(res.body) != "" ==> strm.out == old(strm.out) + carried)
            && (end == Done && old(res.body) == "" ==> AllWithin(ranges, |provider.rep|))
            && (end == Done && old(res.body) == "" && whole && !server.down ==>
                  strm.out == old(strm.out) + Selected(ranges, boundary, contentType, provider.rep))
    ensures end != Refused ==> (end == Aborted <==> old(res.body) == "" && !AllWithin(ranges, |provider.rep|))
  {
    var rep := provider.rep;
    var contentType, boundary := ApplyRanges(ranges, res, generated, rep);
    whole := true;
    if res.body != "" {
      var ok := WriteData(strm, res.body);
      end := if ok then Done else Refused;
    } else {
      end, whole := WriteContentWithProvider(strm, ranges, provider, boundary, contentType, server);
    }
  }

  /** The length advertised and the length sent from a provider, for ranges that can be sent: they agree
      exactly with status 206, without ranges, for one range that is everything, and for several whose
      multipart body happens to be as long as the representation. */
  lemma LengthsAgree(status: int, ranges: seq<Range>, generated: string, declared: string, rep: string)
    requires AllWithin(ranges, |rep|)
    ensures var boundary, contentType := IfMulti(status, ranges, generated), IfMulti(status, ranges, declared);
            ToDecimal(|Carried(status, ranges, boundary, contentType, rep)|)
            == ToDecimal(|Selected(ranges, boundary, contentType, rep)|)
            <==> || status == PARTIAL_CONTENT || ranges == []
                 || (|ranges| == 1 && ranges[0] == (0, |rep| - 1))
                 || (|ranges| > 1 && LengthOf(Script(ranges, 0, "", "", |rep|)) == |rep|)
  {
    var boundary, contentType := IfMulti(status, ranges, generated), IfMulti(status, ranges, declared);
    DecimalRoundTrip(|Carried(status, ranges, boundary, contentType, rep)|);
    DecimalRoundTrip(|Selected(ranges, boundary, contentType, rep)|);
    if |ranges| > 1 {
      ScriptText(ranges, 0, "", "", rep);
      LengthIsLength(Script(ranges, 0, "", "", |rep|), rep);
    }
  }

  /** A request answered with the wrong length: the first byte of two, with status 200. */
  lemma WrongLength(rep: string)
    requires |rep| == 2
    ensures RangeHeader.ParseRanges(RangeHeader.HeaderText([(0, 0)])) == (true, [(0, 0)])
    ensures ToDecimal(|Carried(200, [(0, 0)], "", "", rep)|) != ToDecimal(|Selected([(0, 0)], "", "", rep)|)
  {
    RangeHeader.RoundTrip([(0, 0)]);
    LengthsAgree(200, [(0, 0)], "", "", rep);
  }

  /** A request that runs into the failing assertion with every status but those of success: the last bytes
      are asked for, and stay as they were asked for. */
  lemma SuffixLeftRaw(last: nat, len: nat)
    requires last <= RangeHeader.MAX_POSITION
    ensures RangeHeader.ParseRanges(RangeHeader.HeaderText([(-1, last)])) == (true, [(-1, last)])
    ensures !AllWithin([(-1, last)], len)
  {
    RangeHeader.RoundTrip([(-1, last)]);
    assert !Within([(-1, last)][0], len);
  }

  /** The end of `process_request` for a routed request whose response has a body or a provider: the ranges
      are checked, and refused or answered. */
  method Respond(strm: OutStream, req: Request, res: Response, provider: ContentProvider, generated: string, server: Server)
    returns (end: End, ghost whole: bool)
    requires AllWellformed(req.ranges) && provider.rep != ""
    requires Represents(provider.rep, res.body, res.contentLength) && (res.body == "" || res.contentLength == 0)
    modifies strm, req, res, server
    ensures end != Refused ==>
              (end == Aborted <==> && old(res.body) == "" && old(res.status) != -1 && !(200 <= old(res.status) < 300)
                                   && !AllWithin(old(req.ranges), |provider.rep|))
    ensures old(res.status) in {-1, PARTIAL_CONTENT} && end == Done && whole && !server.down ==>
              if old(req.ranges) != [] && Unacceptable(old(req.ranges), |provider.rep|) then
                res.status == RANGE_NOT_SATISFIABLE && strm.out == old(strm.out) && req.ranges == [] && res.body == ""
              else
                && MayLeave(old(req.ranges), |provider.rep|, req.ranges)
                && AllWithin(req.ranges, |provider.rep|)
                && var sent := Selected(req.ranges, IfMulti(res.status, req.ranges, generated),
                                        IfMulti(res.status, req.ranges, Otherwise(old(res.contentType), "")), provider.rep);
                   && strm.out == old(strm.out) + sent && res.advertised == Some(ToDecimal(|sent|))
                   && AnswerReads(req.ranges, res.contentRange, res.contentType, generated,
                                  Otherwise(old(res.contentType), ""), provider.rep, sent)
  {
    if res.status == -1 { res.status := if req.ranges == [] then OK else PARTIAL_CONTENT; }
    var err := RangeError(req, res.status, if res.contentLength != 0 then res.contentLength else |res.body|);
    whole := true;
    if err {
      res.body, res.contentLength, res.status := "", 0, RANGE_NOT_SATISFIABLE;
      req.ranges := [];
      if res.advertised.None? { res.advertised := Some("0"); }
      return Done, whole;
    }
    if req.ranges == [] && res.status == OK { NothingAsked(|provider.rep|); }
    ghost var declared := Otherwise(res.contentType, "");
    end, whole := WriteBody(strm, req.ranges, res, provider, generated, server);
    if res.status == PARTIAL_CONTENT {
      SelectedReads(req.ranges, res.contentRange, res.contentType, generated, declared, provider.rep);
    }
  }
}
