/** A part with any header lines: what the parser reports of them. */
module FormHeaders {
  import opened Limits
  import opened Text
  import opened FormData
  import opened FormSplit
  import opened FormSegmentation
  import opened FormRoundTrip
  import Fields

  // ---- accepted lines ----

  lemma TokenChars(key: string)
    requires Fields.IsToken(key)
    ensures FieldChars(key)
  {
    forall i | 0 <= i < |key| ensures Fields.IsFieldChar(key[i]) { TokenChar(key[i]); }
  }

  lemma TokenChar(c: char)
    ensures Fields.IsTokenChar(c) ==> Fields.IsFieldChar(c)
  {}

  /** Every accepted header line holds field characters only. */
  lemma AcceptedChars(line: string)
    requires Fields.ParseHeader(line).Some?
    ensures FieldChars(line)
  {
    assert Fields.HeaderParts(line).Some?;
    var (key, val) := Fields.HeaderParts(line).value;
    var gap, behind := Fields.PartsCut(line);
    TokenChars(key);
    AllChars(key, gap, val, behind);
  }

  lemma AllChars(key: string, gap: string, val: string, behind: string)
    requires FieldChars(key) && FieldChars(val) && AllBlank(gap) && AllBlank(behind)
    ensures FieldChars(key + [':'] + gap + val + behind)
  {
    FieldCharsAppend(key, [':']);
    FieldCharsAppend(key + [':'], gap);
    FieldCharsAppend(key + [':'] + gap, val);
    FieldCharsAppend(key + [':'] + gap + val, behind);
  }

  /** The name and value a line carries. */
  function FieldOf(line: string): Fields.Header {
    match Fields.ParseHeader(line)
    case Some(h) => h
    case None => ("", "")
  }

  /** The type in force behind a line. */
  function TypeBehind(line: string, before: string): string {
    if StartsWithIgnoreCase(line, "Content-Type:") then Trim(line[13..]) else before
  }

  lemma DispositionAlike(file: FormFile, other: FormFile, rest: string)
    ensures var r := WithDisposition(file, rest);
            && r.ok == WithDisposition(other, rest).ok
            && r.file.headers == file.headers && r.file.contentType == file.contentType
  {}

  /** Whether a line is accepted does not depend on the lines before it; one that is adds its name and value. */
  lemma LineAlike(file: FormFile, line: string)
    ensures var r := HeaderLine(file, line);
            && r.ok == HeaderLine(NoFile, line).ok
            && (r.ok ==> Fields.ParseHeader(line).Some? && r.file.headers == file.headers + [FieldOf(line)]
                         && r.file.contentType == TypeBehind(line, file.contentType))
  {
    var h := Fields.ParseHeader(line);
    if h.Some? && !StartsWithIgnoreCase(line, "Content-Type:") && DispositionRest(line).Some? {
      DispositionAlike(file.(headers := file.headers + [h.value]), NoFile.(headers := NoFile.headers + [h.value]),
                       DispositionRest(line).value);
    }
  }

  predicate LineOk(line: string) { |line| < HEADER_MAX_LENGTH && HeaderLine(NoFile, line).ok }

  /** The file information behind the lines. */
  function Taken(file: FormFile, lines: seq<string>): FormFile
    decreases |lines|
  {
    if lines == [] then file else Taken(HeaderLine(file, lines[0]).file, lines[1..])
  }

  /** The type the last type line gives. */
  function LastType(before: string, lines: seq<string>): string
    decreases |lines|
  {
    if lines == [] then before else LastType(TypeBehind(lines[0], before), lines[1..])
  }

  /** The names and values of all the lines, in order. */
  function FieldsOf(lines: seq<string>): seq<Fields.Header> { Mapped(FieldOf, lines) }

  predicate AllOk(lines: seq<string>) { forall i | 0 <= i < |lines| :: LineOk(lines[i]) }

  lemma FirstOk(lines: seq<string>)
    requires lines != [] && AllOk(lines)
    ensures LineOk(lines[0]) && AllOk(lines[1..])
  {}

  /** The file information behind one line more. */
  lemma LineTaken(file: FormFile, line: string) returns (next: FormFile)
    requires LineOk(line)
    ensures next == HeaderLine(file, line).file && next.headers == file.headers + [FieldOf(line)]
    ensures next.contentType == TypeBehind(line, file.contentType)
  {
    LineAlike(file, line);
    next := HeaderLine(file, line).file;
  }

  lemma NoFields()
    ensures FieldsOf([]) == []
  {}

  lemma {:induction false} TakenFields(file: FormFile, lines: seq<string>)
    requires AllOk(lines)
    ensures Taken(file, lines).headers == file.headers + FieldsOf(lines)
    ensures Taken(file, lines).contentType == LastType(file.contentType, lines)
    decreases |lines|
  {
    if lines == [] {
      NoFields();
      EmptyFirst(file.headers);
    } else {
      FirstOk(lines);
      var next := LineTaken(file, lines[0]);
      TakenFields(next, lines[1..]);
      MappedNext(FieldOf, lines);
      Associative(file.headers, [FieldOf(lines[0])], FieldsOf(lines[1..]));
    }
  }

  // ---- the header block ----

  function Block(lines: seq<string>): string {
    if lines == [] then "" else lines[0] + CRLF + Block(lines[1..])
  }

  /** Behind accepted lines the parser goes on with what follows them. */
  ghost predicate LinesPassed(cb: Callbacks, p: Parser, file: FormFile, after: string, width: nat) {
    Headers(cb, p) == Headers(cb, p.(file := file, buf := after)).After([], width)
  }

  lemma {:induction false} BlockPassed(cb: Callbacks, p: Parser, lines: seq<string>, after: string) returns (width: nat)
    requires ReadsLines(cb) && p.phase == HeaderLines && p.buf == Block(lines) + after && AllOk(lines)
    ensures width < HEADER_MAX_LENGTH && LinesPassed(cb, p, Taken(p.file, lines), after, width)
    decreases |lines|
  {
    if lines == [] {
      EmptyFirst(after);
      width := NonePassed(cb, p);
    } else {
      FirstOk(lines);
      Regrouped(lines[0], CRLF, Block(lines[1..]), after);
      var next := OneLine(cb, p, lines[0], Block(lines[1..]) + after);
      var w := BlockPassed(cb, next, lines[1..], after);
      width := OnePassed(cb, p, next, lines[0], Taken(next.file, lines[1..]), after, w);
    }
  }

  lemma NonePassed(cb: Callbacks, p: Parser) returns (width: nat)
    ensures width == 0 && LinesPassed(cb, p, p.file, p.buf, width)
  {
    EmptyFirst(Headers(cb, p).events);
    width := 0;
  }

  lemma Regrouped(a: string, b: string, c: string, d: string)
    ensures a + b + c + d == a + b + (c + d)
  {}

  lemma OneLine(cb: Callbacks, p: Parser, line: string, after: string) returns (next: Parser)
    requires ReadsLines(cb) && p.phase == HeaderLines && LineOk(line)
    requires p.buf == line + CRLF + after
    ensures next == p.(file := HeaderLine(p.file, line).file, buf := after)
    ensures Headers(cb, p) == Headers(cb, next).After([], |line|)
  {
    var r := cb.line(p.file, line);
    assert r == HeaderLine(p.file, line);
    LineAlike(p.file, line);
    AcceptedChars(line);
    NotEmpty(line);
    LineRead(cb, p, line, r, after);
    next := p.(file := r.file, buf := after);
  }

  lemma NotEmpty(line: string)
    requires Fields.ParseHeader(line).Some?
    ensures line != ""
  {}

  lemma OnePassed(cb: Callbacks, p: Parser, next: Parser, line: string, file: FormFile, after: string, w: nat) returns (width: nat)
    requires |line| < HEADER_MAX_LENGTH && w < HEADER_MAX_LENGTH
    requires Headers(cb, p) == Headers(cb, next).After([], |line|) && LinesPassed(cb, next, file, after, w)
    requires next == p.(file := next.file, buf := next.buf)
    ensures width < HEADER_MAX_LENGTH && LinesPassed(cb, p, file, after, width)
  {
    var q := p.(file := file, buf := after);
    assert next.(file := file, buf := after) == q;
    width := Max(w, |line|);
    NestAfter(Headers(cb, q), [], w, |line|);
  }

  /** The whole header block: its file information is reported, and the body begins. */
  lemma BlockRead(cb: Callbacks, p: Parser, lines: seq<string>, rest: string) returns (width: nat)
    requires Accepts(cb) && p.phase == HeaderLines && p.buf == Block(lines) + (CRLF + rest) && AllOk(lines)
    ensures var file := Taken(p.file, lines);
            && width < HEADER_MAX_LENGTH
            && Headers(cb, p) == Run(cb, p.(phase := Body, file := file, buf := rest)).After([Header(file)], width)
  {
    var file := Taken(p.file, lines);
    var body := p.(phase := Body, file := file, buf := rest);
    width := BlockPassed(cb, p, lines, CRLF + rest);
    BlankRead(cb, p.(file := file, buf := CRLF + rest), rest);
    assert p.(file := file, buf := CRLF + rest).(phase := Body, buf := rest) == body;
    NestAfter(Run(cb, body), [Header(file)], 0, width);
  }

  /** A line that is refused ends the run before anything is reported. */
  lemma BlockRefused(cb: Callbacks, p: Parser, lines: seq<string>, line: string, after: string)
    requires ReadsLines(cb) && p.phase == HeaderLines && p.buf == Block(lines) + (line + CRLF + after) && AllOk(lines)
    requires 0 < |line| < HEADER_MAX_LENGTH && Find(line + CRLF + after, CRLF) == |line| && !HeaderLine(NoFile, line).ok
    ensures var r := Headers(cb, p); !r.ok && r.events == [] && r.widest < HEADER_MAX_LENGTH
  {
    var width := BlockPassed(cb, p, lines, line + CRLF + after);
    var q := p.(file := Taken(p.file, lines), buf := line + CRLF + after);
    var r := cb.line(q.file, line);
    assert r == HeaderLine(q.file, line);
    LineAlike(q.file, line);
    LineStepAt(cb, q, line, after, r);
  }

  // ---- a form of one part ----

  function PartText(lines: seq<string>, content: string, boundary: string): string {
    "--" + boundary + CRLF + (Block(lines) + (CRLF + AfterBlank(content, boundary)))
  }

  /** What stands behind the blank line. */
  function AfterBlank(content: string, boundary: string): string {
    content + (CRLF + ("--" + boundary)) + ("--" + CRLF)
  }

  lemma StartRead(cb: Callbacks, p: Parser, part: string)
    requires p.phase == Opening && p.buf == p.Opener() + part && part != ""
    ensures Run(cb, p) == Run(cb, p.(phase := HeaderLines, file := NoFile, buf := part))
  {
    var opener := p.Opener();
    assert p.buf[..|opener|] == opener && p.buf[|opener|..] == part;
    assert OccursAt(p.buf, opener, 0);
    var q := p.Drop(|opener|).(phase := NewEntry);
    assert q.(phase := HeaderLines, file := NoFile) == p.(phase := HeaderLines, file := NoFile, buf := part);
  }

  /** The first line is short, so state 2 is entered. */
  lemma FirstShort(cb: Callbacks, p: Parser, lines: seq<string>, line: string, after: string)
    requires p.phase == HeaderLines && p.buf == Block(lines) + (line + CRLF + after) && AllOk(lines)
    requires |line| < HEADER_MAX_LENGTH && Find(line + CRLF + after, CRLF) == |line|
    ensures Run(cb, p) == Headers(cb, p)
  {
    if lines == [] {
      EmptyFirst(line + CRLF + after);
    } else {
      FirstOk(lines);
      LineAlike(NoFile, lines[0]);
      AcceptedChars(lines[0]);
      Regrouped(lines[0], CRLF, Block(lines[1..]), line + CRLF + after);
      FieldLine(lines[0], Block(lines[1..]) + (line + CRLF + after));
    }
    ShortFirst(cb, p);
  }

  lemma BodyToEnd(cb: Callbacks, body: Parser, content: string, file: FormFile, width: nat)
    requires Accepts(cb) && ValidBoundary(body.boundary) && body.phase == Body && !body.valid && width < HEADER_MAX_LENGTH
    requires Find(content, CRLF + "--" + body.boundary) == |content| && body.buf == AfterBlank(content, body.boundary)
    ensures Reads(Run(cb, body).After([Header(file)], width), [Entry(file, content)])
  {
    var after := FormRoundTrip.Behind([], body.boundary);
    DelimiterIs(body);
    ContentRead(cb, body, content, after);
    var q := body.(phase := AfterBoundary, buf := after);
    BehindRead(cb, q, []);
    assert Entries([]) == [];
    ReadsNext(Run(cb, q), file, width, content, []);
    EmptyFirst([Entry(file, content)]);
  }

  lemma DelimiterIs(p: Parser)
    ensures p.Delimiter() == CRLF + ("--" + p.boundary)
  {}

  /** A form of one part, with any header lines that are accepted, is read as that part. */
  lemma PartWhole(cb: Callbacks, lines: seq<string>, content: string, boundary: string)
    requires Accepts(cb) && ValidBoundary(boundary) && AllOk(lines) && Find(content, CRLF + "--" + boundary) == |content|
    ensures Reads(Parse(cb, Init(boundary), PartText(lines, content, boundary)), [Entry(Taken(NoFile, lines), content)])
  {
    var p := Init(boundary).Feed(PartText(lines, content, boundary));
    var rest := AfterBlank(content, boundary);
    EmptyFirst(PartText(lines, content, boundary));
    StartRead(cb, p, Block(lines) + (CRLF + rest));
    var start := p.(phase := HeaderLines, file := NoFile, buf := Block(lines) + (CRLF + rest));
    EmptyFirst(CRLF);
    FieldLine("", rest);
    FirstShort(cb, start, lines, "", rest);
    var width := BlockRead(cb, start, lines, rest);
    BodyToEnd(cb, start.(phase := Body, file := Taken(NoFile, lines), buf := rest), content, Taken(NoFile, lines), width);
  }

  /** Whatever pieces it arrives in, such a form is reported as one part; its header fields are those of its
      lines, in order, and its type is that of the last type line. */
  lemma PartReported(cb: Callbacks, lines: seq<string>, content: string, boundary: string, pieces: seq<string>) returns (file: FormFile)
    requires Accepts(cb) && ValidBoundary(boundary) && AllOk(lines) && Find(content, CRLF + "--" + boundary) == |content|
    requires Concat(pieces) == PartText(lines, content, boundary)
    ensures var r := ParseAll(cb, Init(boundary), pieces);
            r.ok && r.parser.valid && Summarise(r.events) == Summary("", [Entry(file, content)])
    ensures file.headers == FieldsOf(lines) && file.contentType == LastType("", lines)
  {
    file := Taken(NoFile, lines);
    PartWhole(cb, lines, content, boundary);
    TakenFields(NoFile, lines);
    EmptyFirst(FieldsOf(lines));
    Delivered(cb, Init(boundary), [Entry(file, content)], pieces);
  }

  /** A line that is well formed and is no disposition is accepted. */
  lemma PlainLine(line: string)
    requires |line| < HEADER_MAX_LENGTH && Fields.ParseHeader(line).Some? && !StartsWithIgnoreCase(line, "Content-Disposition:")
    ensures LineOk(line)
  {}

  /** A form with a line that is refused is refused, and no part of it is reported, whatever comes behind the line
      and whatever pieces it arrives in. */
  lemma PartRefused(cb: Callbacks, lines: seq<string>, line: string, after: string, boundary: string, pieces: seq<string>)
    requires Accepts(cb) && AllOk(lines)
    requires 0 < |line| < HEADER_MAX_LENGTH && Find(line, CRLF) == |line| && line[|line| - 1] != '\r' && !HeaderLine(NoFile, line).ok
    requires Concat(pieces) == "--" + boundary + CRLF + (Block(lines) + (line + CRLF + after))
    ensures var r := ParseAll(cb, Init(boundary), pieces); !r.ok && Summarise(r.events) == Summary("", [])
  {
    var text := Block(lines) + (line + CRLF + after);
    var p := Init(boundary).Feed(Concat(pieces));
    EmptyFirst(Concat(pieces));
    StartRead(cb, p, text);
    var start := p.(phase := HeaderLines, file := NoFile, buf := text);
    LineEnd(line, after);
    FirstShort(cb, start, lines, line, after);
    BlockRefused(cb, start, lines, line, after);
    var k := Segmentation(cb, Init(boundary), pieces);
    assert pieces[..k] == pieces;
  }

  lemma LineEnd(line: string, after: string)
    requires line != "" && Find(line, CRLF) == |line| && line[|line| - 1] != '\r'
    ensures Find(line + CRLF + after, CRLF) == |line|
  {
    assert !Contains(line, CRLF);
    FindAfter(line, CRLF, after);
  }

  /** Which lines are refused: those that are no header field, and dispositions without a name or with a
      malformed extended file name. */
  lemma RefusedWhen(line: string)
    ensures HeaderLine(NoFile, line).ok <==>
              Fields.ParseHeader(line).Some? &&
              (StartsWithIgnoreCase(line, "Content-Type:") || DispositionRest(line).None? || DispositionOk(DispositionRest(line).value))
  {}

  predicate DispositionOk(rest: string) {
    var params := ParamsOf(Split(rest, ';'), {});
    var star := Lookup(params, "filename*");
    Lookup(params, "name").Some? && (star.Some? ==> StartsWithIgnoreCase(star.value, "UTF-8''") && |star.value| > 7)
  }
}
