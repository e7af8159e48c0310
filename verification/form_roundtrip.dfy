/** The multipart serializer, and the parser reading back what it wrote. */
module FormRoundTrip {
  import opened Wrappers
  import opened Limits
  import opened Text
  import opened FormData
  import opened FormSplit
  import opened FormSegmentation
  import Fields
  import Uri

  // ---- the serializer ----

  datatype Item = Item(name: string, content: string, filename: string, contentType: string)

  /** `is_multipart_boundary_chars_valid`. */
  predicate ValidBoundary(boundary: string) {
    forall i | 0 <= i < |boundary| :: Uri.IsAlnum(boundary[i]) || boundary[i] == '-' || boundary[i] == '_'
  }

  method IsMultipartBoundaryCharsValid(boundary: string) returns (valid: bool)
    ensures valid == ValidBoundary(boundary)
  {
    valid := true;
    for i := 0 to |boundary|
      invariant valid ==> forall j | 0 <= j < i :: Uri.IsAlnum(boundary[j]) || boundary[j] == '-' || boundary[j] == '_'
    {
      var c := boundary[i];
      if !Uri.IsAlnum(c) && c != '-' && c != '_' { return false; }
    }
  }

  const DISPOSITION := "Content-Disposition"
  const FORM := "form-data;"

  function Quoted(key: string, value: string): string { key + ['='] + ("\"" + value + "\"") }

  function DispositionParams(item: Item): string {
    if item.filename == "" then Quoted("name", item.name)
    else Quoted("name", item.name) + [';'] + (" " + Quoted("filename", item.filename))
  }

  function DispositionLine(item: Item): string { DISPOSITION + ": " + (FORM + (" " + DispositionParams(item))) }

  function TypeLine(item: Item): string { "Content-Type" + ": " + item.contentType }

  function TypePart(item: Item): string {
    if item.contentType == "" then CRLF else TypeLine(item) + CRLF + CRLF
  }

  function HeaderBlock(item: Item): string { DispositionLine(item) + CRLF + TypePart(item) }

  function Serialize(items: seq<Item>, boundary: string): string {
    if items == [] then "--" + boundary + "--" + CRLF
    else "--" + boundary + CRLF + HeaderBlock(items[0]) + items[0].content + CRLF + Serialize(items[1..], boundary)
  }

  method SerializeItemBegin(item: Item, boundary: string) returns (body: string)
    ensures body == "--" + boundary + CRLF + HeaderBlock(item)
  {
    var params := Quoted("name", item.name);
    if item.filename != "" {
      params := params + [';'] + (" " + Quoted("filename", item.filename));
    }
    var line := DISPOSITION + ": " + (FORM + (" " + params));
    assert line == DispositionLine(item);
    var last := "";
    if item.contentType != "" {
      last := "Content-Type" + ": " + item.contentType + CRLF;
    }
    body := "--" + boundary + CRLF + (line + CRLF + (last + CRLF));
    assert "" + CRLF == CRLF;
  }

  method SerializeMultipartFormdata(items: seq<Item>, boundary: string) returns (body: string)
    ensures body == Serialize(items, boundary)
  {
    body := "";
    assert items[0..] == items;
    for k := 0 to |items|
      invariant body + Serialize(items[k..], boundary) == Serialize(items, boundary)
    {
      var item := items[k];
      var begin := SerializeItemBegin(item, boundary);
      assert items[k..][1..] == items[k + 1..];
      var next := begin + item.content + CRLF;
      Associative(body, next, Serialize(items[k + 1..], boundary));
      body := body + next;
    }
    body := body + ("--" + boundary + "--" + CRLF);
  }

  // ---- the disposition line ----

  /** The bytes a name or file name may hold. */
  predicate NameOk(s: string) {
    forall i | 0 <= i < |s| :: Fields.IsFieldChar(s[i]) && s[i] != ';' && s[i] != '='
  }

  predicate Unquotable(s: string) {
    s != "" && Trimmed(s) && '=' !in s && ';' !in s && s[0] != '"'
  }

  lemma ParamOfQuoted(key: string, value: string)
    requires Unquotable(key) && '=' !in value
    ensures ParamOf(Quoted(key, value)) == Some((key, value))
  {
    SplitAtEquals(key, value);
    Unquoted(value);
  }

  lemma SplitAtEquals(key: string, value: string)
    requires Unquotable(key) && '=' !in value
    ensures Split(Quoted(key, value), '=') == [key, "\"" + value + "\""]
  {
    var q := "\"" + value + "\"";
    SplitCons(key, '=', q);
    SplitSingle(q, '=');
    TrimOfTrimmed(key);
    TrimOfTrimmed(q);
  }

  lemma Unquoted(value: string)
    ensures TrimDoubleQuotes("\"" + value + "\"") == value
  {
    var q := "\"" + value + "\"";
    assert q[1..|q| - 1] == value;
  }

  lemma SplitQuoted(key: string, value: string)
    requires Unquotable(key) && ';' !in value
    ensures ';' !in Quoted(key, value) && Trimmed(Quoted(key, value)) && Piece(Quoted(key, value)) == [Quoted(key, value)]
  {
    var q := "\"" + value + "\"";
    assert forall c | c in Quoted(key, value) :: c in key || c == '=' || c in q;
    assert forall c | c in q :: c == '"' || c in value;
    assert Quoted(key, value)[|Quoted(key, value)| - 1] == '"';
    TrimOfTrimmed(Quoted(key, value));
  }

  lemma ParamsOne(key: string, value: string)
    requires Unquotable(key) && '=' !in value && ';' !in value
    ensures ParamsOf(Split(Quoted(key, value), ';'), {}) == [(key, value)]
  {
    var q := Quoted(key, value);
    SplitQuoted(key, value);
    ParamOfQuoted(key, value);
    SplitSingle(q, ';');
    ParamsLast(q, {}, (key, value));
  }

  lemma ParamsLast(field: string, seen: set<string>, kv: (string, string))
    requires field !in seen && ParamOf(field) == Some(kv)
    ensures ParamsOf([field], seen) == [kv]
  {
    var one: seq<string> := [field];
    assert one[1..] == [];
    assert [kv] + [] == [kv];
  }

  lemma ParamsTwo(key: string, value: string, key2: string, value2: string)
    requires Unquotable(key) && '=' !in value && ';' !in value
    requires Unquotable(key2) && '=' !in value2 && ';' !in value2 && key[0] != key2[0]
    ensures ParamsOf(Split(Quoted(key, value) + [';'] + (" " + Quoted(key2, value2)), ';'), {}) == [(key, value), (key2, value2)]
  {
    var q, q2 := Quoted(key, value), Quoted(key2, value2);
    SplitQuoted(key, value);
    SplitCons(q, ';', " " + q2);
    SplitBlank(key2, value2);
    ParamOfQuoted(key, value);
    ParamOfQuoted(key2, value2);
    assert q[0] != q2[0];
    ParamsPair(q, q2, (key, value), (key2, value2));
  }

  lemma ParamsPair(field: string, field2: string, kv: (string, string), kv2: (string, string))
    requires field != field2 && ParamOf(field) == Some(kv) && ParamOf(field2) == Some(kv2)
    ensures ParamsOf([field] + [field2], {}) == [kv, kv2]
  {
    var fields: seq<string> := [field] + [field2];
    ParamsLast(field2, {} + {field}, kv2);
    assert fields[1..] == [field2];
  }

  lemma SplitBlank(key: string, value: string)
    requires Unquotable(key) && ';' !in value
    ensures Split(" " + Quoted(key, value), ';') == [Quoted(key, value)]
  {
    var q := Quoted(key, value);
    SplitQuoted(key, value);
    SplitSingle(" " + q, ';');
    TrimAfterBlank(q);
  }

  lemma StartsWithSelf(b: string, rest: string)
    ensures StartsWithIgnoreCase(b + rest, b) && (b + rest)[|b|..] == rest
  {}

  lemma DispositionIsToken()
    ensures Fields.IsToken(DISPOSITION) && ':' !in DISPOSITION
  {}

  lemma TypeIsToken()
    ensures Fields.IsToken("Content-Type") && ':' !in "Content-Type"
  {}

  /** What the disposition regular expression leaves of a written line. */
  lemma DispositionRestOf(params: string)
    requires params != "" && !IsRegexSpace(params[0])
    ensures var line := DISPOSITION + ": " + (FORM + (" " + params));
            !StartsWithIgnoreCase(line, "Content-Type:") && DispositionRest(line) == Some(params)
  {
    var tail := FORM + (" " + params);
    var line := DISPOSITION + ": " + tail;
    assert line == "Content-Disposition:" + (" " + tail);
    StartsWithSelf("Content-Disposition:", " " + tail);
    SkipBlank(tail);
    StartsWithSelf(FORM, " " + params);
    SkipBlank(params);
    assert ToLower(line[8]) != ToLower("Content-Type:"[8]);
  }

  lemma SkipBlank(s: string)
    requires s != "" && !IsRegexSpace(s[0])
    ensures SkipSpace(" " + s) == s
  {
    assert (" " + s)[1..] == s;
  }

  predicate FieldChars(s: string) { forall i | 0 <= i < |s| :: Fields.IsFieldChar(s[i]) }

  lemma FieldConcat(pre: string, s: string)
    requires pre != "" && FieldChars(pre) && Fields.IsFieldVchar(pre[0])
    requires s != "" && Fields.IsFieldVchar(s[|s| - 1])
    ensures Fields.IsFieldValue(pre + s) <==> FieldChars(s)
    ensures Trimmed(pre + s)
  {
    forall i | 0 <= i < |s| ensures (pre + s)[|pre| + i] == s[i] {}
  }

  /** The field a disposition line stands for. */
  function DispositionField(params: string): Fields.Header {
    (DISPOSITION, Fields.HeaderValue(DISPOSITION, FORM + (" " + params)))
  }

  lemma DispositionAccepted(params: string)
    requires params != "" && Fields.IsFieldVchar(params[|params| - 1])
    ensures var line := DISPOSITION + ": " + (FORM + (" " + params));
            Fields.ParseHeader(line) == if FieldChars(params) then Some(DispositionField(params)) else None
  {
    var val := FORM + (" " + params);
    BlankChars(params);
    FieldConcat(FORM, " " + params);
    DispositionIsToken();
    Fields.ParseWritten(DISPOSITION, val);
  }

  lemma BlankChars(s: string)
    ensures FieldChars(" " + s) == FieldChars(s)
  {
    forall i | 0 <= i < |s| ensures (" " + s)[1 + i] == s[i] {}
  }

  /** The parameters of an item's disposition line, read back. */
  lemma ParamsRead(item: Item)
    requires NameOk(item.name) && NameOk(item.filename)
    ensures var params := ParamsOf(Split(DispositionParams(item), ';'), {});
            && Lookup(params, "name") == Some(item.name) && Lookup(params, "filename*") == None
            && Lookup(params, "filename") == if item.filename == "" then None else Some(item.filename)
  {
    DistinctKeys();
    var first := ("name", item.name);
    if item.filename == "" {
      ParamsOne("name", item.name);
      LookupOne(first, "name");
      LookupOne(first, "filename");
      LookupOne(first, "filename*");
    } else {
      var second := ("filename", item.filename);
      ParamsTwo("name", item.name, "filename", item.filename);
      LookupTwo(first, second, "name");
      LookupTwo(first, second, "filename");
      LookupTwo(first, second, "filename*");
    }
  }

  lemma DistinctKeys()
    ensures "name" != "filename" && "name" != "filename*" && "filename" != "filename*"
    ensures Unquotable("name") && Unquotable("filename")
  {
    assert |"name"| == 4 && |"filename"| == 8 && |"filename*"| == 9;
  }

  lemma LookupOne(kv: (string, string), key: string)
    ensures Lookup([kv], key) == if kv.0 == key then Some(kv.1) else None
  {
    var one: seq<(string, string)> := [kv];
    assert one[1..] == [];
  }

  lemma LookupTwo(kv: (string, string), kv2: (string, string), key: string)
    ensures Lookup([kv, kv2], key) == if kv.0 == key then Some(kv.1) else if kv2.0 == key then Some(kv2.1) else None
  {
    LookupOne(kv2, key);
    assert [kv, kv2][1..] == [kv2];
  }

  lemma DispositionChars(item: Item)
    requires NameOk(item.name) && NameOk(item.filename)
    ensures FieldChars(DispositionLine(item))
  {
    ParamsShape(item);
    LineChars(DispositionParams(item));
  }

  lemma DispositionParsed(item: Item) returns (field: Fields.Header)
    requires NameOk(item.name) && NameOk(item.filename)
    ensures Fields.ParseHeader(DispositionLine(item)) == Some(field) && DispositionFields(item) == [field]
  {
    var params := DispositionParams(item);
    ParamsShape(item);
    DispositionAccepted(params);
    field := DispositionFields(item)[0];
  }

  lemma DispositionKind(item: Item)
    requires NameOk(item.name) && NameOk(item.filename)
    ensures !StartsWithIgnoreCase(DispositionLine(item), "Content-Type:")
    ensures DispositionRest(DispositionLine(item)) == Some(DispositionParams(item))
  {
    ParamsShape(item);
    DispositionRestOf(DispositionParams(item));
  }

  /** The parameters taken over. */
  lemma DispositionTaken(file: FormFile, item: Item, params: string)
    requires NameOk(item.name) && NameOk(item.filename) && params == DispositionParams(item)
    ensures WithDisposition(file, params)
            == LineResult(true, file.(name := item.name, filename := if item.filename == "" then file.filename else item.filename))
  {
    ParamsRead(item);
  }

  /** An accepted disposition line: its field is added, and its parameters are taken over. */
  lemma DispositionLineRead(file: FormFile, line: string, field: Fields.Header, params: string)
    requires Fields.ParseHeader(line) == Some(field) && !StartsWithIgnoreCase(line, "Content-Type:")
    requires DispositionRest(line) == Some(params)
    ensures HeaderLine(file, line) == WithDisposition(file.(headers := file.headers + [field]), params)
  {}

  /** A written disposition line gives back name and file name, and its field is recorded. */
  lemma DispositionRead(file: FormFile, item: Item) returns (r: LineResult)
    requires NameOk(item.name) && NameOk(item.filename)
    ensures r == HeaderLine(file, DispositionLine(item)) == DispositionResult(file, item)
  {
    var line, params := DispositionLine(item), DispositionParams(item);
    var field := DispositionParsed(item);
    DispositionKind(item);
    DispositionLineRead(file, line, field, params);
    DispositionTaken(file.(headers := file.headers + [field]), item, params);
    r := DispositionResult(file, item);
  }

  function DispositionResult(file: FormFile, item: Item): LineResult {
    LineResult(true, FormFile(item.name, if item.filename == "" then file.filename else item.filename,
                              file.contentType, file.headers + DispositionFields(item)))
  }

  lemma ParamsShape(item: Item)
    requires NameOk(item.name) && NameOk(item.filename)
    ensures var params := DispositionParams(item);
            FieldChars(params) && params != "" && params[0] == 'n' && params[|params| - 1] == '"'
  {
    ParamsChars(item);
  }

  lemma LineChars(params: string)
    requires FieldChars(params)
    ensures FieldChars(DISPOSITION + ": " + (FORM + (" " + params)))
  {
    assert FieldChars(FORM + (" " + params));
    assert FieldChars(DISPOSITION + ": ");
  }

  lemma QuotedChars(key: string, value: string)
    requires FieldChars(key)
    ensures FieldChars(Quoted(key, value)) == FieldChars(value)
  {
    var q := Quoted(key, value);
    forall i | 0 <= i < |value| ensures q[|key| + 2 + i] == value[i] {}
  }

  lemma FieldCharsAppend(a: string, b: string)
    ensures FieldChars(a + b) == (FieldChars(a) && FieldChars(b))
  {
    forall i | 0 <= i < |a| ensures (a + b)[i] == a[i] {}
    forall i | 0 <= i < |b| ensures (a + b)[|a| + i] == b[i] {}
  }

  lemma ParamsChars(item: Item)
    ensures var params := DispositionParams(item);
            && params != "" && params[0] == 'n' && params[|params| - 1] == '"'
            && FieldChars(params) == (FieldChars(item.name) && FieldChars(item.filename))
  {
    QuotedChars("name", item.name);
    if item.filename != "" {
      QuotedChars("filename", item.filename);
      FieldCharsAppend(Quoted("name", item.name), [';']);
      BlankChars(Quoted("filename", item.filename));
      FieldCharsAppend(Quoted("name", item.name) + [';'], " " + Quoted("filename", item.filename));
    }
  }

  // ---- the whole body ----

  predicate ItemOk(item: Item, boundary: string) {
    && NameOk(item.name) && NameOk(item.filename)
    && Fields.IsFieldValue(item.contentType)
    && Find(item.content, CRLF + "--" + boundary) == |item.content|
    && |DispositionLine(item)| < HEADER_MAX_LENGTH
    && |TypeLine(item)| < HEADER_MAX_LENGTH
  }

  ghost predicate Accepts(cb: Callbacks) { AcceptsContent(cb) && ReadsLines(cb) && forall f :: cb.header(f) }

  /** The file information of a part: both names, the type, and the header fields written for it. */
  function ItemFile(item: Item): FormFile {
    FormFile(item.name, item.filename, item.contentType, DispositionFields(item) + TypeFields(item))
  }

  /** The field of the disposition line. */
  function DispositionFields(item: Item): seq<Fields.Header> { seq(1, _ => DispositionField(DispositionParams(item))) }

  function TypeField(item: Item): Fields.Header { ("Content-Type", Fields.HeaderValue("Content-Type", item.contentType)) }

  /** The field of the type line, if there is one. */
  function TypeFields(item: Item): seq<Fields.Header> {
    seq(if item.contentType == "" then 0 else 1, _ => TypeField(item))
  }

  /** What is to be reported for an item. */
  function ItemEntry(item: Item): Entry { Entry(ItemFile(item), item.content) }

  function Entries(items: seq<Item>): seq<Entry> { Mapped(ItemEntry, items) }

  lemma EntriesNext(items: seq<Item>)
    requires items != []
    ensures Entries(items) == [Entry(ItemFile(items[0]), items[0].content)] + Entries(items[1..])
  {
    MappedNext(ItemEntry, items);
  }

  lemma FieldLine(line: string, rest: string)
    requires FieldChars(line)
    ensures Find(line + CRLF + rest, CRLF) == |line|
    ensures (line + CRLF + rest)[|line| + 2..] == rest && (line + CRLF + rest)[..|line|] == line
  {
    forall i ensures !OccursAt(line, CRLF, i) {
      if 0 <= i && i + 2 <= |line| { assert line[i..i + 2][0] == line[i]; }
    }
    FindAfter(line, CRLF, rest);
  }

  /** The type line read back. */
  lemma TypeRead(file: FormFile, item: Item)
    requires item.contentType != "" && Fields.IsFieldValue(item.contentType)
    ensures HeaderLine(file, TypeLine(item)) == TypeResult(file, item)
  {
    var rest := TypeBehindName(item, TypeLine(item));
    var line, field := TypeFieldRead(item);
    TypeTaken(file, item, line, rest, field);
  }

  function TypeResult(file: FormFile, item: Item): LineResult {
    LineResult(true, file.(contentType := item.contentType, headers := file.headers + TypeFields(item)))
  }

  /** An accepted type line: its field is added, and its value is the type. */
  lemma TypeTaken(file: FormFile, item: Item, line: string, rest: string, field: Fields.Header)
    requires Fields.ParseHeader(line) == Some(field) && line == "Content-Type:" + rest
    requires Trim(rest) == item.contentType && TypeFields(item) == [field]
    ensures HeaderLine(file, line) == TypeResult(file, item)
  {
    StartsWithSelf("Content-Type:", rest);
    assert |"Content-Type:"| == 13;
  }

  lemma TypeFieldRead(item: Item) returns (line: string, field: Fields.Header)
    requires item.contentType != "" && Fields.IsFieldValue(item.contentType)
    ensures line == TypeLine(item) && Fields.ParseHeader(line) == Some(field) && TypeFields(item) == [field]
  {
    TypeIsToken();
    Fields.ParseWritten("Content-Type", item.contentType);
    line, field := TypeLine(item), TypeFields(item)[0];
  }

  lemma TypeBehindName(item: Item, line: string) returns (rest: string)
    requires Fields.IsFieldValue(item.contentType) && line == TypeLine(item)
    ensures line == "Content-Type:" + rest && Trim(rest) == item.contentType
  {
    TypeLineCut(item);
    TrimAfterBlank(item.contentType);
    rest := " " + item.contentType;
  }

  lemma TypeLineCut(item: Item)
    ensures TypeLine(item) == "Content-Type:" + (" " + item.contentType)
  {}

  lemma TypeChars(t: string)
    requires FieldChars(t)
    ensures FieldChars("Content-Type" + ": " + t)
  {
    assert FieldChars("Content-Type" + ": ");
  }

  /** One legal line of the header block consumed. */
  lemma LineRead(cb: Callbacks, p: Parser, line: string, r: LineResult, rest: string)
    requires p.phase == HeaderLines && p.buf == line + CRLF + rest
    requires line != "" && FieldChars(line) && r == cb.line(p.file, line) && r.ok
    ensures Headers(cb, p) == Headers(cb, p.(file := r.file, buf := rest)).After([], |line|)
  {
    FieldLine(line, rest);
    LineStepAt(cb, p, line, rest, r);
  }

  lemma DispositionStep(cb: Callbacks, p: Parser, item: Item, rest: string) returns (file: FormFile)
    requires ReadsLines(cb)
    requires p.phase == HeaderLines && p.file == NoFile && p.buf == DispositionLine(item) + CRLF + rest
    requires NameOk(item.name) && NameOk(item.filename)
    ensures file == FormFile(item.name, item.filename, "", DispositionFields(item))
    ensures Headers(cb, p) == Headers(cb, p.(file := file, buf := rest)).After([], |DispositionLine(item)|)
  {
    var r := DispositionRead(NoFile, item);
    DispositionChars(item);
    file := FormFile(item.name, item.filename, "", DispositionFields(item));
    EmptyFirst(DispositionFields(item));
    assert cb.line(p.file, DispositionLine(item)) == HeaderLine(NoFile, DispositionLine(item));
    LineRead(cb, p, DispositionLine(item), r, rest);
  }

  lemma NoTypeFields(headers: seq<Fields.Header>, item: Item)
    requires item.contentType == ""
    ensures headers + TypeFields(item) == headers
  {}

  lemma TypeStep(cb: Callbacks, p: Parser, item: Item, rest: string) returns (file: FormFile)
    requires ReadsLines(cb)
    requires p.phase == HeaderLines && p.buf == TypePart(item) + rest
    requires Fields.IsFieldValue(item.contentType) && (item.contentType == "" ==> p.file.contentType == "")
    ensures file == p.file.(contentType := item.contentType, headers := p.file.headers + TypeFields(item))
    ensures var q := p.(file := file, buf := CRLF + rest);
            Headers(cb, p) == if item.contentType == "" then Headers(cb, q) else Headers(cb, q).After([], |TypeLine(item)|)
  {
    if item.contentType == "" {
      file := p.file;
      NoTypeFields(p.file.headers, item);
    } else {
      var r := TypeResult(p.file, item);
      TypeRead(p.file, item);
      TypeChars(item.contentType);
      assert cb.line(p.file, TypeLine(item)) == HeaderLine(p.file, TypeLine(item));
      Associative(TypeLine(item) + CRLF, CRLF, rest);
      LineRead(cb, p, TypeLine(item), r, CRLF + rest);
      file := r.file;
    }
  }

  /** The header block of one part: the parser ends in the body with the part's file information. */
  lemma HeadersRead(cb: Callbacks, p: Parser, item: Item, rest: string) returns (file: FormFile, width: nat)
    requires Accepts(cb) && ItemOk(item, p.boundary)
    requires p.phase == HeaderLines && p.file == NoFile && p.buf == HeaderBlock(item) + rest
    ensures width < HEADER_MAX_LENGTH && file == ItemFile(item)
    ensures Headers(cb, p) == Run(cb, p.(phase := Body, file := file, buf := rest)).After([Header(file)], width)
  {
    Associative(DispositionLine(item) + CRLF, TypePart(item), rest);
    var named := DispositionStep(cb, p, item, TypePart(item) + rest);
    file := TypeStep(cb, p.(file := named, buf := TypePart(item) + rest), item, rest);
    width := HeadersJoin(cb, p, item, named, file, rest);
  }

  /** Two lines and the blank one, put together. */
  lemma HeadersJoin(cb: Callbacks, p: Parser, item: Item, named: FormFile, file: FormFile, rest: string) returns (width: nat)
    requires Accepts(cb) && p.phase == HeaderLines && |DispositionLine(item)| < HEADER_MAX_LENGTH && |TypeLine(item)| < HEADER_MAX_LENGTH
    requires var q := p.(file := named, buf := TypePart(item) + rest);
             var last := p.(file := file, buf := CRLF + rest);
             && Headers(cb, p) == Headers(cb, q).After([], |DispositionLine(item)|)
             && Headers(cb, q) == if item.contentType == "" then Headers(cb, last) else Headers(cb, last).After([], |TypeLine(item)|)
    ensures width < HEADER_MAX_LENGTH
    ensures Headers(cb, p) == Run(cb, p.(phase := Body, file := file, buf := rest)).After([Header(file)], width)
  {
    var body := p.(phase := Body, file := file, buf := rest);
    BlankRead(cb, p.(file := file, buf := CRLF + rest), rest);
    assert p.(file := file, buf := CRLF + rest).(phase := Body, buf := rest) == body;
    var first, second := |DispositionLine(item)|, if item.contentType == "" then 0 else |TypeLine(item)|;
    NestAfter(Run(cb, body), [Header(file)], 0, second);
    NestAfter(Run(cb, body), [Header(file)], second, first);
    width := Max(second, first);
  }

  lemma NestAfter(r: Result, events: seq<Event>, a: nat, b: nat)
    ensures r.After(events, a).After([], b) == r.After(events, Max(a, b))
  {
    assert [] + (events + r.events) == events + r.events;
  }

  /** The blank line that ends a header block. */
  lemma BlankRead(cb: Callbacks, p: Parser, rest: string)
    requires (forall f :: cb.header(f)) && p.phase == HeaderLines && p.buf == CRLF + rest
    ensures Headers(cb, p) == Run(cb, p.(phase := Body, buf := rest)).After([Header(p.file)], 0)
  {
    FieldLine("", rest);
    assert "" + CRLF + rest == p.buf;
    assert p.Drop(2).(phase := Body) == p.(phase := Body, buf := rest);
  }

  /** The stream behind an occurrence of the boundary, when `items` are still to come. */
  function Behind(items: seq<Item>, boundary: string): string
    decreases |items|, 1
  {
    if items == [] then "--" + CRLF else CRLF + Part(items, boundary)
  }

  function Part(items: seq<Item>, boundary: string): string
    requires items != []
    decreases |items|, 0
  {
    HeaderBlock(items[0]) + (items[0].content + (CRLF + ("--" + boundary)) + Behind(items[1..], boundary))
  }

  lemma {:induction false} SerializeBehind(items: seq<Item>, boundary: string)
    ensures Serialize(items, boundary) == ("--" + boundary) + Behind(items, boundary)
  {
    var open := "--" + boundary;
    if items == [] {
      Associative(open, "--", CRLF);
    } else {
      SerializeBehind(items[1..], boundary);
      Regroup(open + CRLF, HeaderBlock(items[0]), items[0].content, CRLF, open, Behind(items[1..], boundary));
      Associative(open, CRLF, Part(items, boundary));
    }
  }

  lemma Regroup(a: string, b: string, c: string, d: string, e: string, f: string)
    ensures a + b + c + d + (e + f) == a + (b + (c + (d + e) + f))
  {}

  ghost predicate Reports(events: seq<Event>, entries: seq<Entry>) { Summarise(events) == Summary("", entries) }

  /** A run that ends right behind the closing boundary. */
  ghost predicate Reads(r: Result, entries: seq<Entry>) {
    && r.ok && r.parser.valid && r.parser.phase == AfterBoundary && r.parser.buf == ""
    && r.epilogue == CRLF && r.widest < HEADER_MAX_LENGTH
    && Reports(r.events, entries)
  }

  lemma ReadsNext(r: Result, file: FormFile, width: nat, content: string, entries: seq<Entry>)
    requires Reads(r, entries) && width < HEADER_MAX_LENGTH
    ensures Reads(r.After([Content(content)], 0).After([Header(file)], width), [Entry(file, content)] + entries)
  {
    var inner := r.After([Content(content)], 0);
    SummariseContent(content, r.events);
    assert content + "" == content;
    SummariseHeader(file, inner.events);
  }

  /** From the body of a part to what follows its delimiter. */
  lemma ContentRead(cb: Callbacks, p: Parser, content: string, after: string)
    requires AcceptsContent(cb) && p.phase == Body && ValidBoundary(p.boundary)
    requires Find(content, CRLF + "--" + p.boundary) == |content|
    requires p.buf == content + p.Delimiter() + after
    ensures Run(cb, p) == Run(cb, p.(phase := AfterBoundary, buf := after)).After([Content(content)], 0)
  {
    var d := p.Delimiter();
    assert '\r' !in d[1..] by { assert d[1..] == "\n--" + p.boundary; }
    assert forall i :: !OccursAt(content, d, i);
    FindAfter(content, d, after);
    BodyFound(cb, p, content, after);
  }

  lemma {:induction false} PartRead(cb: Callbacks, p: Parser, items: seq<Item>)
    requires Accepts(cb) && ValidBoundary(p.boundary) && items != [] && !p.valid
    requires forall item | item in items :: ItemOk(item, p.boundary)
    requires p.phase == NewEntry && p.buf == Part(items, p.boundary)
    ensures Reads(Run(cb, p), Entries(items))
    decreases |items|, 0
  {
    var item, after := items[0], Behind(items[1..], p.boundary);
    var rest := item.content + p.Delimiter() + after;
    var start := p.(phase := HeaderLines, file := NoFile);
    assert CRLF + "--" + p.boundary == CRLF + ("--" + p.boundary);
    var file, width := HeadersRead(cb, start, item, rest);
    HeadersAsRunFirst(cb, start, item, rest);
    ContentRead(cb, start.(phase := Body, file := file, buf := rest), item.content, after);
    var q := start.(phase := AfterBoundary, file := file, buf := after);
    BehindRead(cb, q, items[1..]);
    ReadsNext(Run(cb, q), file, width, item.content, Entries(items[1..]));
    EntriesNext(items);
  }

  /** The first header line is short, so state 2 is entered. */
  lemma HeadersAsRunFirst(cb: Callbacks, p: Parser, item: Item, rest: string)
    requires p.phase == HeaderLines && p.buf == HeaderBlock(item) + rest && ItemOk(item, p.boundary)
    ensures Run(cb, p) == Headers(cb, p)
  {
    DispositionChars(item);
    Associative(DispositionLine(item) + CRLF, TypePart(item), rest);
    FieldLine(DispositionLine(item), TypePart(item) + rest);
    ShortFirst(cb, p);
  }

  lemma ShortFirst(cb: Callbacks, p: Parser)
    requires p.phase == HeaderLines && Find(p.buf, CRLF) <= HEADER_MAX_LENGTH && p.buf != ""
    ensures Run(cb, p) == Headers(cb, p)
  {}

  lemma {:induction false} BehindRead(cb: Callbacks, q: Parser, items: seq<Item>)
    requires Accepts(cb) && ValidBoundary(q.boundary) && !q.valid
    requires forall item | item in items :: ItemOk(item, q.boundary)
    requires q.phase == AfterBoundary && q.buf == Behind(items, q.boundary)
    ensures Reads(Run(cb, q), Entries(items))
    decreases |items|, 1
  {
    if items == [] {
      assert q.buf[..2] == "--" && q.buf[2..] == CRLF;
      assert "--"[0] != CRLF[0];
    } else {
      var next := q.Drop(2).(phase := NewEntry);
      assert q.buf[..2] == CRLF && next.buf == Part(items, q.boundary);
      PartRead(cb, next, items);
    }
  }

  /** After the closing boundary the line end written behind it changes nothing, however it is cut. */
  lemma {:induction false} EpilogueIgnored(cb: Callbacks, p: Parser, pieces: seq<string>)
    requires p.valid
    requires (p.phase == AfterBoundary && p.buf + Concat(pieces) in ["", "\n", CRLF])
             || (p.phase == NewEntry && p.buf == "" && Concat(pieces) == "")
    requires p.phase == AfterBoundary ==> |p.buf| < 2
    ensures var r := ParseAll(cb, p, pieces); r.ok && r.parser.valid && r.events == []
    decreases |pieces|
  {
    if pieces != [] {
      var q, rest := p.Feed(pieces[0]), pieces[1..];
      Associative(p.buf, pieces[0], Concat(rest));
      if q.buf == CRLF {
        var next := q.Drop(2).(phase := NewEntry);
        assert |q.buf + Concat(rest)| == 2 + |Concat(rest)|;
        assert |Concat(pieces)| == |pieces[0]| + |Concat(rest)|;
        assert q.phase == AfterBoundary && q.buf[..2] == CRLF && next.buf == "";
        assert Run(cb, next) == Wait(next, []);
        assert Parse(cb, p, pieces[0]) == Wait(next, []);
        EpilogueIgnored(cb, next, rest);
      } else {
        assert Parse(cb, p, pieces[0]) == Wait(q, []);
        EpilogueIgnored(cb, q, rest);
      }
    }
  }

  /** The items of a serialized form come back, in order and complete, whatever pieces it arrives in;
      an empty form has no closing part the parser recognises. */
  lemma RoundTrip(cb: Callbacks, items: seq<Item>, boundary: string, pieces: seq<string>)
    requires Accepts(cb) && ValidBoundary(boundary)
    requires forall item | item in items :: ItemOk(item, boundary)
    requires Concat(pieces) == Serialize(items, boundary)
    ensures var r := ParseAll(cb, Init(boundary), pieces);
            r.ok && (r.parser.valid <==> items != []) && Summarise(r.events) == Summary("", Entries(items))
  {
    WholeRead(cb, items, boundary);
    Delivered(cb, Init(boundary), Entries(items), pieces);
  }

  /** From a whole run to one in pieces. */
  lemma Delivered(cb: Callbacks, p: Parser, entries: seq<Entry>, pieces: seq<string>)
    requires AcceptsContent(cb) && !p.valid && pieces != []
    requires var whole := Parse(cb, p, Concat(pieces));
             if entries == [] then whole.ok && !whole.parser.valid && whole.widest == 0 && Reports(whole.events, [])
             else Reads(whole, entries)
    ensures var r := ParseAll(cb, p, pieces);
            r.ok && (r.parser.valid <==> entries != []) && Reports(r.events, entries)
  {
    var k := Segmentation(cb, p, pieces);
    assert pieces == pieces[..k] + pieces[k..];
    if entries != [] {
      Closed(cb, p, pieces[..k], pieces[k..]);
    } else {
      assert pieces[..k] == pieces;
    }
  }

  /** Once the closing boundary was seen, the rest of the stream adds nothing. */
  lemma Closed(cb: Callbacks, p: Parser, a: seq<string>, b: seq<string>)
    requires var cut := ParseAll(cb, p, a);
             cut.ok && cut.parser.valid && cut.parser.phase == AfterBoundary && cut.parser.buf == ""
             && cut.epilogue + Concat(b) == CRLF
    ensures var all := ParseAll(cb, p, a + b); all.ok && all.parser.valid && all.events == ParseAll(cb, p, a).events
  {
    var cut := ParseAll(cb, p, a);
    EpilogueSuffix(cut.epilogue, Concat(b));
    EpilogueIgnored(cb, cut.parser, b);
    ParseAppend(cb, p, a, b);
    assert cut.events + [] == cut.events;
  }

  lemma EpilogueSuffix(a: string, b: string)
    requires a + b == CRLF
    ensures "" + b in ["", "\n", CRLF]
  {
    assert b == (a + b)[|a|..];
    if |a| == 0 { assert b == CRLF; } else if |a| == 1 { assert b == "\n"; } else { assert b == ""; }
    assert "" + b == b;
  }

  lemma {:induction false} ParseAppend(cb: Callbacks, p: Parser, a: seq<string>, b: seq<string>)
    requires ParseAll(cb, p, a).ok
    ensures var first := ParseAll(cb, p, a);
            var second := ParseAll(cb, first.parser, b);
            var all := ParseAll(cb, p, a + b);
            all.ok == second.ok && all.parser == second.parser && all.events == first.events + second.events
    decreases |a|
  {
    if a == [] {
      assert a + b == b;
      assert [] + ParseAll(cb, p, b).events == ParseAll(cb, p, b).events;
    } else {
      var r := Parse(cb, p, a[0]);
      assert (a + b)[1..] == a[1..] + b;
      ParseAppend(cb, r.parser, a[1..], b);
      Associative(r.events, ParseAll(cb, r.parser, a[1..]).events, ParseAll(cb, ParseAll(cb, p, a).parser, b).events);
    }
  }

  /** The same, fed whole. */
  lemma WholeRead(cb: Callbacks, items: seq<Item>, boundary: string)
    requires Accepts(cb) && ValidBoundary(boundary)
    requires forall item | item in items :: ItemOk(item, boundary)
    ensures var r := Parse(cb, Init(boundary), Serialize(items, boundary));
            if items == [] then r.ok && !r.parser.valid && r.widest == 0 && Reports(r.events, [])
            else Reads(r, Entries(items))
  {
    var p := Init(boundary).Feed(Serialize(items, boundary));
    assert p.buf == Serialize(items, boundary);
    if items == [] {
      EmptyForm(cb, p, Find(p.buf, p.Opener()));
    } else {
      FormRead(cb, p, items);
    }
  }

  lemma FormRead(cb: Callbacks, p: Parser, items: seq<Item>)
    requires Accepts(cb) && ValidBoundary(p.boundary) && items != [] && !p.valid
    requires forall item | item in items :: ItemOk(item, p.boundary)
    requires p.phase == Opening && p.buf == Serialize(items, p.boundary)
    ensures Reads(Run(cb, p), Entries(items))
  {
    var opener := p.Opener();
    SerializeBehind(items, p.boundary);
    Associative("--" + p.boundary, CRLF, Part(items, p.boundary));
    assert p.buf[..|opener|] == opener && p.buf[|opener|..] == Part(items, p.boundary);
    assert OccursAt(p.buf, opener, 0);
    PartRead(cb, p.Drop(|opener|).(phase := NewEntry), items);
  }

  /** With no items the opener can occur only at the very end, and only for a boundary made of dashes. */
  lemma EmptyForm(cb: Callbacks, p: Parser, pos: nat)
    requires p.phase == Opening && ValidBoundary(p.boundary) && p.buf == "--" + p.boundary + "--" + CRLF
    requires pos == Find(p.buf, p.Opener())
    ensures var r := Run(cb, p); r.ok && r.parser.valid == p.valid && r.widest == 0 && Reports(r.events, [])
  {
    var n := |p.boundary|;
    if pos < |p.buf| {
      assert p.Opener()[2 + n] == '\r';
      assert p.buf[pos..pos + |p.Opener()|][2 + n] == p.buf[pos + 2 + n];
      assert pos == 2;
      var next := p.Drop(pos + |p.Opener()|).(phase := NewEntry);
      assert next.buf == "";
      assert Run(cb, next) == Wait(next, []);
    }
  }
}
