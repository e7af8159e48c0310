/** The incremental multipart/form-data parser as a function of its state and the bytes fed to it. */
module FormData {
  import opened Wrappers
  import opened Limits
  import opened Text
  import Fields
  import Uri

  datatype FormFile = FormFile(name: string, filename: string, contentType: string, headers: seq<Fields.Header>)

  const NoFile := FormFile("", "", "", [])

  // ---- one header line ----

  /** Key and value of one `;`-separated disposition field; the last value wins. */
  function ParamOf(kv: string): Option<(string, string)> {
    var pieces := Split(kv, '=');
    if pieces == [] then None
    else Some((TrimDoubleQuotes(pieces[0]),
               TrimDoubleQuotes(if |pieces| == 1 then "" else pieces[|pieces| - 1])))
  }

  /** `parse_disposition_params`: a field whose text was seen before is skipped. */
  function ParamsOf(fields: seq<string>, seen: set<string>): seq<(string, string)> {
    if fields == [] then []
    else
      var rest := ParamsOf(fields[1..], seen + {fields[0]});
      if fields[0] in seen then rest
      else match ParamOf(fields[0])
        case None => rest
        case Some(kv) => [kv] + rest
  }

  function Lookup(params: seq<(string, string)>, key: string): Option<string> {
    if params == [] then None
    else if params[0].0 == key then Some(params[0].1)
    else Lookup(params[1..], key)
  }

  predicate IsRegexSpace(c: char) { c == ' ' || 9 <= c as int <= 13 }

  function SkipSpace(s: string): string {
    if s != "" && IsRegexSpace(s[0]) then SkipSpace(s[1..]) else s
  }

  /** What follows `Content-Disposition: form-data;`, in any letter case. */
  function DispositionRest(line: string): Option<string> {
    if !StartsWithIgnoreCase(line, "Content-Disposition:") then None
    else
      var rest := SkipSpace(line[20..]);
      if StartsWithIgnoreCase(rest, "form-data;") then Some(SkipSpace(rest[10..])) else None
  }

  datatype LineResult = LineResult(ok: bool, file: FormFile)

  function WithDisposition(file: FormFile, rest: string): LineResult {
    var params := ParamsOf(Split(rest, ';'), {});
    match Lookup(params, "name")
    case None => LineResult(false, file)
    case Some(name) =>
      var named := file.(name := name);
      var plain := match Lookup(params, "filename") case None => named case Some(f) => named.(filename := f);
      match Lookup(params, "filename*")
      case None => LineResult(true, plain)
      case Some(f) =>
        if StartsWithIgnoreCase(f, "UTF-8''") && |f| > 7
        then LineResult(true, plain.(filename := Uri.DecodePath(f[7..], false)))
        else LineResult(false, plain)
  }

  function HeaderLine(file: FormFile, line: string): LineResult {
    match Fields.ParseHeader(line)
    case None => LineResult(false, file)
    case Some(header) =>
      var kept := file.(headers := file.headers + [header]);
      if StartsWithIgnoreCase(line, "Content-Type:") then LineResult(true, kept.(contentType := Trim(line[13..])))
      else match DispositionRest(line)
        case None => LineResult(true, kept)
        case Some(rest) => WithDisposition(kept, rest)
  }

  // ---- the state machine ----

  /** The source's `state_` 0 to 4. */
  datatype Phase = Opening | NewEntry | HeaderLines | Body | AfterBoundary

  datatype Parser = Parser(boundary: string, phase: Phase, valid: bool, file: FormFile, buf: string) {
    function Opener(): string { "--" + boundary + CRLF }

    function Delimiter(): (d: string)
      ensures |d| >= 4 && d[0] == '\r'
    {
      CRLF + "--" + boundary
    }

    function Feed(data: string): Parser { this.(buf := buf + data) }

    function Drop(n: nat): Parser requires n <= |buf| { this.(buf := buf[n..]) }
  }

  function Init(boundary: string): Parser { Parser(boundary, Opening, false, NoFile, "") }

  /** The callbacks `parse` makes, in order. */
  datatype Event = Header(file: FormFile) | Content(data: string)

  /** The answers of the application's callbacks, and how a header line is read into the file information. */
  datatype Callbacks = Callbacks(header: FormFile -> bool, content: string -> bool,
                                 line: (FormFile, string) -> LineResult)

  /** Header lines are read as the source reads them. */
  ghost predicate ReadsLines(cb: Callbacks) {
    forall file, line {:trigger HeaderLine(file, line)} :: cb.line(file, line) == HeaderLine(file, line)
  }

  /** `ok` is what `parse` returns. `widest` is the length of the longest header line met, an unfinished one
      without its last byte, which may belong to its end; `epilogue` is what was thrown away behind the
      closing boundary. */
  datatype Result = Result(ok: bool, parser: Parser, events: seq<Event>, widest: nat, epilogue: string) {
    function After(before: seq<Event>, width: nat): Result {
      this.(events := before + events, widest := if width > widest then width else widest)
    }
  }

  function Wait(p: Parser, events: seq<Event>): Result { Result(true, p, events, 0, "") }

  function Stop(p: Parser, events: seq<Event>): Result { Result(false, p, events, 0, "") }

  /** The `while` loop of `parse` from a state with bytes in the buffer. */
  function Run(cb: Callbacks, p: Parser): Result
    decreases |p.buf|, if p.phase == NewEntry then 2 else 1
  {
    if p.buf == "" then Wait(p, [])
    else match p.phase
      case Opening =>
        var pos := Find(p.buf, p.Opener());
        if pos == |p.buf| then Wait(p, []) else Run(cb, p.Drop(pos + |p.Opener()|).(phase := NewEntry))
      case NewEntry => Run(cb, p.(phase := HeaderLines, file := NoFile))
      case HeaderLines =>
        var pos := Find(p.buf, CRLF);
        if pos > HEADER_MAX_LENGTH then Stop(p, []).After([], pos) else Headers(cb, p)
      case Body => BodyStep(cb, p)
      case AfterBoundary =>
        if |p.buf| < 2 then Wait(p, [])
        else if p.buf[..2] == CRLF then Run(cb, p.Drop(2).(phase := NewEntry))
        else if p.buf[..2] == "--" then Wait(p.(valid := true, buf := ""), []).(epilogue := p.buf[2..])
        else Wait(p, [])
  }

  /** The inner loop of state 2, one header line after another. */
  function Headers(cb: Callbacks, p: Parser): Result
    decreases |p.buf|, 0
  {
    var pos := Find(p.buf, CRLF);
    if pos == |p.buf| then Wait(p, []).After([], if pos == 0 then 0 else pos - 1)
    else if pos == 0 then
      if cb.header(p.file) then Run(cb, p.Drop(2).(phase := Body)).After([Header(p.file)], 0)
      else Stop(p.(valid := false), [Header(p.file)])
    else
      var r := cb.line(p.file, p.buf[..pos]);
      if r.ok then Headers(cb, p.Drop(pos + 2).(file := r.file)).After([], pos)
      else Stop(p.(valid := false, file := r.file), []).After([], pos)
  }

  /** State 3: everything before the delimiter is content; without one, a delimiter's length is held back. */
  function BodyStep(cb: Callbacks, p: Parser): Result
    requires p.buf != ""
    decreases |p.buf|, 0
  {
    var d := |p.Delimiter()|;
    var pos := Find(p.buf, p.Delimiter());
    if d > |p.buf| then Wait(p, [])
    else if pos < |p.buf| then
      var found := [Content(p.buf[..pos])];
      if cb.content(p.buf[..pos]) then Run(cb, p.Drop(pos + d).(phase := AfterBoundary)).After(found, 0)
      else Stop(p.(valid := false), found)
    else
      var len := |p.buf| - d;
      if len == 0 then Wait(p, [])
      else if cb.content(p.buf[..len]) then Wait(p.Drop(len), [Content(p.buf[..len])])
      else Stop(p.(valid := false), [Content(p.buf[..len])])
  }

  /** One call of `parse`. */
  function Parse(cb: Callbacks, p: Parser, data: string): Result { Run(cb, p.Feed(data)) }

  /** Successive calls of `parse`, up to the first that returns false. */
  function ParseAll(cb: Callbacks, p: Parser, pieces: seq<string>): Result
    decreases |pieces|
  {
    if pieces == [] then Wait(p, [])
    else
      var r := Parse(cb, p, pieces[0]);
      if r.ok then
        var rest := ParseAll(cb, r.parser, pieces[1..]);
        rest.After(r.events, r.widest).(epilogue := r.epilogue + rest.epilogue)
      else r
  }

  // ---- what the events amount to ----

  datatype Entry = Entry(file: FormFile, content: string)

  /** Content callbacks concatenated: `lead` before the first header callback, then one entry a header. */
  datatype Summary = Summary(lead: string, entries: seq<Entry>)

  function Summarise(events: seq<Event>): Summary {
    if events == [] then Summary("", [])
    else
      var s := Summarise(events[1..]);
      match events[0]
      case Header(file) => Summary("", [Entry(file, s.lead)] + s.entries)
      case Content(data) => Summary(data + s.lead, s.entries)
  }

  lemma {:induction false} SummarisePrefix(before: seq<Event>, a: seq<Event>, b: seq<Event>)
    requires Summarise(a) == Summarise(b)
    ensures Summarise(before + a) == Summarise(before + b)
  {
    if before == [] {
      assert before + a == a && before + b == b;
    } else {
      assert (before + a)[1..] == before[1..] + a;
      assert (before + b)[1..] == before[1..] + b;
      SummarisePrefix(before[1..], a, b);
    }
  }

  lemma {:induction false} SummariseJoin(a: seq<Event>, b: seq<Event>)
    ensures Summarise(a + b).lead == Summarise(a).lead + if Summarise(a).entries == [] then Summarise(b).lead else ""
    ensures Summarise(a).entries == [] ==> Summarise(a + b).entries == Summarise(b).entries
    ensures Summarise(a).entries != [] ==> Summarise(a + b).entries != []
  {
    if a == [] {
      assert a + b == b;
    } else {
      assert (a + b)[1..] == a[1..] + b;
      SummariseJoin(a[1..], b);
    }
  }

  lemma SummariseContent(data: string, rest: seq<Event>)
    ensures Summarise([Content(data)] + rest) == Summary(data + Summarise(rest).lead, Summarise(rest).entries)
  {
    assert ([Content(data)] + rest)[1..] == rest;
  }

  lemma SummariseHeader(file: FormFile, rest: seq<Event>)
    ensures Summarise([Header(file)] + rest) == Summary("", [Entry(file, Summarise(rest).lead)] + Summarise(rest).entries)
  {
    assert ([Header(file)] + rest)[1..] == rest;
  }
}
