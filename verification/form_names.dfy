/** Exactly which names and file names the parser reads back from a serialized form. */
module FormNames {
  import opened Wrappers
  import opened Limits
  import opened Text
  import opened FormData
  import opened FormSplit
  import opened FormCuts
  import opened FormRoundTrip
  import opened FormHeaders
  import Fields
  import Uri

  // ---- what can be read from a header line ----

  lemma {:induction false} ParamsClean(fields: seq<string>, seen: set<string>, d: char)
    requires forall f | f in fields :: d !in f
    ensures forall kv | kv in ParamsOf(fields, seen) :: d !in kv.1 && '=' !in kv.1
  {
    if fields != [] {
      ParamsClean(fields[1..], seen + {fields[0]}, d);
      ParamClean(fields[0], d);
    }
  }

  lemma ParamClean(kv: string, d: char)
    requires d !in kv
    ensures ParamOf(kv).Some? ==> d !in ParamOf(kv).value.1 && '=' !in ParamOf(kv).value.1
  {
    var pieces := Split(kv, '=');
    if |pieces| > 1 {
      var last := pieces[|pieces| - 1];
      SplitPieces(kv, '=', last);
      SplitKeepsOut(kv, '=', d, last);
    }
  }

  lemma {:induction false} SplitKeepsOut(s: string, sep: char, d: char, p: string)
    requires d !in s && p in Split(s, sep)
    ensures d !in p
    decreases |s|
  {
    if sep in s {
      var a, b := SplitCut(s, sep);
      TrimKeepsOut(a, d);
      if p !in Piece(a) { SplitKeepsOut(b, sep, d, p); }
    } else {
      SplitSingle(s, sep);
      TrimKeepsOut(s, d);
    }
  }

  lemma {:induction false} LookupIn(params: seq<(string, string)>, key: string)
    ensures Lookup(params, key).Some? ==> (key, Lookup(params, key).value) in params
  {
    if params != [] { LookupIn(params[1..], key); }
  }

  /** Where the name and the file name of an accepted disposition line come from. */
  ghost predicate NamesFrom(r: LineResult, params: seq<(string, string)>, was: string) {
    && Lookup(params, "name") == Some(r.file.name)
    && match Lookup(params, "filename*")
       case Some(f) => |f| > 7 && r.file.filename == Uri.DecodePath(f[7..], false)
       case None => r.file.filename == match Lookup(params, "filename") case Some(f) => f case None => was
  }

  lemma LineName(file: FormFile, line: string, rest: string)
    requires Fields.ParseHeader(line).Some? && !StartsWithIgnoreCase(line, "Content-Type:")
    requires DispositionRest(line) == Some(rest)
    ensures var r := HeaderLine(file, line); r.ok ==> NamesFrom(r, ParamsOf(Split(rest, ';'), {}), file.filename)
  {
    var header := Fields.ParseHeader(line).value;
    DispositionName(file.(headers := file.headers + [header]), rest);
  }

  lemma DispositionName(file: FormFile, rest: string)
    ensures var r := WithDisposition(file, rest); r.ok ==> NamesFrom(r, ParamsOf(Split(rest, ';'), {}), file.filename)
  {}

  lemma {:induction false} SkipSpaceRest(s: string)
    ensures |SkipSpace(s)| <= |s| && (FieldChars(s) ==> FieldChars(SkipSpace(s)))
  {
    if s != "" && IsRegexSpace(s[0]) { SkipSpaceRest(s[1..]); }
  }

  lemma RestOf(line: string)
    requires DispositionRest(line).Some? && FieldChars(line)
    ensures |DispositionRest(line).value| + 30 <= |line| && FieldChars(DispositionRest(line).value)
  {
    var rest := SkipSpace(line[20..]);
    SkipSpaceRest(line[20..]);
    SkipSpaceRest(rest[10..]);
    assert |"Content-Disposition:"| == 20 && |"form-data;"| == 10;
  }

  /** A parameter's value holds what the parameters hold, and neither `;` nor `=`. */
  lemma ValueOk(params: string, key: string)
    requires FieldChars(params)
    ensures var r := Lookup(ParamsOf(Split(params, ';'), {}), key); r.Some? ==> NameOk(r.value)
  {
    var r := Lookup(ParamsOf(Split(params, ';'), {}), key);
    if r.Some? {
      ValueWithout(params, key, ';');
      forall i | 0 <= i < |r.value| ensures Fields.IsFieldChar(r.value[i]) {
        if r.value[i] !in params { ValueWithout(params, key, r.value[i]); }
      }
    }
  }

  lemma ValueWithout(params: string, key: string, d: char)
    requires d == ';' || d !in params
    ensures var r := Lookup(ParamsOf(Split(params, ';'), {}), key); r.Some? ==> d !in r.value && '=' !in r.value
  {
    var fields := Split(params, ';');
    forall f | f in fields ensures d !in f {
      SplitPieces(params, ';', f);
      if d != ';' { SplitKeepsOut(params, ';', d, f); }
    }
    ParamsClean(fields, {}, d);
    LookupIn(ParamsOf(fields, {}), key);
  }

  lemma PieceLength(s: string)
    ensures |Piece(s)| <= 1
    ensures |Piece(s)| == 1 ==> |Piece(s)[0]| <= |s|
  {}

  lemma CutAt(s: string, d: char) returns (a: string, b: string)
    requires d in s
    ensures s == a + [d] + b && d !in a
  {
    var i := IndexOf(s, d);
    assert i < |s|;
    a, b := s[..i], s[i + 1..];
  }

  lemma SplitCut(s: string, d: char) returns (a: string, b: string)
    requires d in s
    ensures s == a + [d] + b && Split(s, d) == Piece(a) + Split(b, d)
  {
    a, b := CutAt(s, d);
    SplitCons(a, d, b);
  }

  lemma {:induction false} SplitLength(s: string, d: char, p: string)
    requires p in Split(s, d)
    ensures |p| <= |s|
    decreases |s|
  {
    if d in s {
      var a, b := SplitCut(s, d);
      PieceLength(a);
      if p !in Piece(a) { SplitLength(b, d, p); }
    } else {
      SplitSingle(s, d);
      PieceLength(s);
    }
  }

  /** Two pieces, and the separator between them, fit into the text. */
  lemma {:induction false} EndsLength(s: string, d: char)
    ensures EndsFit(Split(s, d), |s|)
    decreases |s|
  {
    if d in s {
      var a, b := SplitCut(s, d);
      var rest := Split(b, d);
      PieceLength(a);
      EndsLength(b, d);
      if rest != [] { SplitLength(b, d, rest[|rest| - 1]); }
      EndsJoin(Piece(a), rest, |a|, |b|);
    } else {
      SplitSingle(s, d);
      PieceLength(s);
    }
  }

  predicate EndsFit(pieces: seq<string>, n: nat) {
    |pieces| > 1 ==> |pieces[0]| + |pieces[|pieces| - 1]| < n
  }

  lemma EndsJoin(head: seq<string>, rest: seq<string>, m: nat, n: nat)
    requires |head| <= 1 && (|head| == 1 ==> |head[0]| <= m)
    requires EndsFit(rest, n) && (rest != [] ==> |rest[|rest| - 1]| <= n)
    ensures EndsFit(head + rest, m + 1 + n)
  {
    if head == [] { assert head + rest == rest; }
  }

  lemma ParamLength(field: string)
    ensures ParamOf(field).Some? ==> |ParamOf(field).value.0| + |ParamOf(field).value.1| <= |field|
  {
    var pieces := Split(field, '=');
    if |pieces| == 1 { SplitLength(field, '=', pieces[0]); }
    EndsLength(field, '=');
  }

  lemma {:induction false} ParamsFrom(fields: seq<string>, seen: set<string>, kv: (string, string))
    requires kv in ParamsOf(fields, seen)
    ensures exists f :: f in fields && ParamOf(f) == Some(kv)
  {
    if ParamOf(fields[0]) == Some(kv) {
      assert fields[0] in fields;
    } else {
      ParamsFrom(fields[1..], seen + {fields[0]}, kv);
    }
  }

  /** An extended file name is at least nine bytes shorter than its parameters, and shorter still decoded. */
  lemma StarLength(params: string)
    ensures var f := Lookup(ParamsOf(Split(params, ';'), {}), "filename*");
            f.Some? && |f.value| > 7 ==> |Uri.DecodePath(f.value[7..], false)| + 16 <= |params|
  {
    var fields := Split(params, ';');
    var f := Lookup(ParamsOf(fields, {}), "filename*");
    if f.Some? && |f.value| > 7 {
      var field := StarField(fields, f.value);
      ParamLength(field);
      SplitLength(params, ';', field);
      Uri.DecodeShrinks(f.value[7..], false);
      assert |"filename*"| == 9;
    }
  }

  lemma StarField(fields: seq<string>, value: string) returns (field: string)
    requires Lookup(ParamsOf(fields, {}), "filename*") == Some(value)
    ensures field in fields && ParamOf(field) == Some(("filename*", value))
  {
    LookupIn(ParamsOf(fields, {}), "filename*");
    ParamsFrom(fields, {}, ("filename*", value));
    field :| field in fields && ParamOf(field) == Some(("filename*", value));
  }

  // ---- what one line does to the names ----

  /** The file information after a line that is no disposition keeps both names. */
  lemma OtherLine(file: FormFile, line: string)
    ensures var r := HeaderLine(file, line);
            r.ok && (StartsWithIgnoreCase(line, "Content-Type:") || DispositionRest(line) == None) ==>
              r.file.name == file.name && r.file.filename == file.filename
  {}

  /** A name that was read is one that can be. */
  lemma LineNames(file: FormFile, line: string)
    requires HeaderLine(file, line).ok && NameOk(file.name)
    ensures NameOk(HeaderLine(file, line).file.name)
  {
    OtherLine(file, line);
    if !StartsWithIgnoreCase(line, "Content-Type:") && DispositionRest(line).Some? {
      var rest := DispositionRest(line).value;
      AcceptedChars(line);
      RestOf(line);
      LineName(file, line, rest);
      ValueOk(rest, "name");
    }
  }

  /** What a file name read from lines of at most `n` bytes can be; it starts out empty. */
  predicate Small(filename: string, n: nat) { NameOk(filename) || |filename| < n }

  lemma LineFilename(file: FormFile, line: string, n: nat)
    requires HeaderLine(file, line).ok && Small(file.filename, n) && |line| <= n + 1
    ensures Small(HeaderLine(file, line).file.filename, n)
  {
    OtherLine(file, line);
    if !StartsWithIgnoreCase(line, "Content-Type:") && DispositionRest(line).Some? {
      var rest := DispositionRest(line).value;
      AcceptedChars(line);
      RestOf(line);
      LineName(file, line, rest);
      ValueOk(rest, "filename");
      StarLength(rest);
    }
  }

  // ---- the line that carries the file name ----

  /** The disposition line up to the quote that opens the file name. */
  function Opening(name: string): string {
    DISPOSITION + ": " + (FORM + (" " + (Quoted("name", name) + [';'] + (" " + ("filename" + ['='] + "\"")))))
  }

  function ParamsUpTo(name: string, x: string): string {
    Quoted("name", name) + [';'] + (" filename=\"" + x)
  }

  lemma OpeningParams(name: string, x: string)
    ensures Opening(name) + x == DISPOSITION + ": " + (FORM + (" " + ParamsUpTo(name, x)))
  {
    assert "filename" + ['='] + "\"" == "filename=\"";
    assert " " + "filename=\"" == " filename=\"";
  }

  /** The parameters of such a line: an extended file name among them stands in `x`. */
  lemma StarInside(name: string, x: string)
    requires NameOk(name)
    ensures var f := Lookup(ParamsOf(Split(ParamsUpTo(name, x), ';'), {}), "filename*");
            f.Some? && |f.value| > 7 ==> |Uri.DecodePath(f.value[7..], false)| + 5 <= |x|
  {
    var fields := Split(ParamsUpTo(name, x), ';');
    var f := Lookup(ParamsOf(fields, {}), "filename*");
    if f.Some? && |f.value| > 7 {
      var field := StarField(fields, f.value);
      FieldBehind(name, x, field, f.value);
      ParamLength(field);
      Uri.DecodeShrinks(f.value[7..], false);
      assert |"filename*"| == 9;
    }
  }

  lemma FieldBehind(name: string, x: string, field: string, value: string)
    requires NameOk(name) && field in Split(ParamsUpTo(name, x), ';') && ParamOf(field) == Some(("filename*", value))
    ensures |field| <= 11 + |x|
  {
    var q, behind := Quoted("name", name), " filename=\"" + x;
    DistinctKeys();
    SplitQuoted("name", name);
    ParamOfQuoted("name", name);
    SplitCons(q, ';', behind);
    assert field != q;
    SplitLength(behind, ';', field);
  }

  lemma FirstLine(name: string, x: string)
    requires NameOk(name) && HeaderLine(NoFile, Opening(name) + x).ok
    ensures Small(HeaderLine(NoFile, Opening(name) + x).file.filename, Max(|x| - 1, 0))
  {
    var line, params := Opening(name) + x, ParamsUpTo(name, x);
    OpeningParams(name, x);
    AcceptedChars(line);
    DispositionRestOf(params);
    RestOf(line);
    LineName(NoFile, line, params);
    ValueOk(params, "filename");
    StarInside(name, x);
  }

  // ---- the first part a run reports ----

  ghost predicate FirstName(r: Result) {
    var entries := Summarise(r.events).entries;
    entries == [] || NameOk(entries[0].file.name)
  }

  ghost predicate FirstFilename(r: Result, n: nat) {
    var entries := Summarise(r.events).entries;
    entries == [] || Small(entries[0].file.filename, n)
  }

  /** The blank line reports the file information. */
  lemma BlankReports(cb: Callbacks, p: Parser, after: string)
    requires p.phase == HeaderLines && p.buf == CRLF + after && Find(p.buf, CRLF) == 0
    ensures var entries := Summarise(Headers(cb, p).events).entries; entries != [] && entries[0].file == p.file
  {
    BlankGo(cb, p, after);
    if cb.header(p.file) {
      SummariseHeader(p.file, Run(cb, p.(phase := Body, buf := after)).events);
    } else {
      SummariseHeader(p.file, []);
      assert [Header(p.file)] + [] == [Header(p.file)];
    }
  }

  lemma SilentLine(r: Result, width: nat)
    ensures Summarise(r.After([], width).events) == Summarise(r.events)
  {
    assert [] + r.events == r.events;
  }

  /** Whatever the bytes are, the first part reported has a name that can be read. */
  lemma {:induction false} HeadersName(cb: Callbacks, p: Parser)
    requires ReadsLines(cb) && p.phase == HeaderLines && NameOk(p.file.name)
    ensures FirstName(Headers(cb, p))
    decreases |p.buf|
  {
    if Find(p.buf, CRLF) < |p.buf| {
      var line, after := CutAtDelimiter(p.buf, CRLF);
      if line == "" {
        assert p.buf == CRLF + after;
        BlankReports(cb, p, after);
      } else {
        var r := cb.line(p.file, line);
        assert r == HeaderLine(p.file, line);
        LineStepAt(cb, p, line, after, r);
        if r.ok {
          LineNames(p.file, line);
          var next := p.(file := r.file, buf := after);
          HeadersName(cb, next);
          SilentLine(Headers(cb, next), |line|);
        }
      }
    }
  }

  /** The rest of a header block written by the serializer keeps the file name small. */
  lemma TypeTail(cb: Callbacks, p: Parser, item: Item, rest: string, n: nat)
    requires ReadsLines(cb) && p.phase == HeaderLines && p.buf == TypePart(item) + rest
    requires Fields.IsFieldValue(item.contentType) && Small(p.file.filename, n)
    ensures FirstFilename(Headers(cb, p), n)
  {
    if item.contentType == "" {
      BlankAt(cb, p, rest, n);
    } else {
      var r := TypeResult(p.file, item);
      TypeRead(p.file, item);
      TypeChars(item.contentType);
      assert cb.line(p.file, TypeLine(item)) == HeaderLine(p.file, TypeLine(item));
      Associative(TypeLine(item) + CRLF, CRLF, rest);
      LineRead(cb, p, TypeLine(item), r, CRLF + rest);
      var next := p.(file := r.file, buf := CRLF + rest);
      BlankAt(cb, next, rest, n);
      SilentLine(Headers(cb, next), |TypeLine(item)|);
    }
  }

  lemma BlankAt(cb: Callbacks, p: Parser, rest: string, n: nat)
    requires p.phase == HeaderLines && p.buf == CRLF + rest && Small(p.file.filename, n)
    ensures FirstFilename(Headers(cb, p), n)
  {
    assert OccursAt(p.buf, CRLF, 0) by { assert p.buf[..2] == CRLF; }
    BlankReports(cb, p, rest);
  }

  /** Where the first line of a text ends that is closed by a quote, and what follows it. */
  lemma CutQuoted(x: string, tail: string) returns (line: string, more: string)
    requires x != "" && x[|x| - 1] == '"'
    ensures Find(x + CRLF + tail, CRLF) == |line| <= |x|
    ensures |line| == |x| ==> line == x
    ensures |line| < |x| ==> x == line + CRLF + more && more != "" && more[|more| - 1] == '"'
    ensures |line| < |x| ==> x + CRLF + tail == line + CRLF + (more + CRLF + tail)
  {
    var s := x + CRLF + tail;
    var pos := Find(s, CRLF);
    EndsAt(x, tail);
    line, more := x[..pos], "";
    if pos < |x| {
      EndBytes(s, pos);
      assert s[pos] == x[pos] && pos + 2 < |x|;
      more := x[pos + 2..];
      assert x == line + CRLF + more;
      Regroup4(line, CRLF, more, tail);
    }
  }

  lemma EndBytes(s: string, pos: nat)
    requires OccursAt(s, CRLF, pos)
    ensures pos + 2 <= |s| && s[pos..pos + 2] == CRLF && s[pos] == '\r' && s[pos + 1] == '\n'
  {
    assert s[pos..pos + 2][0] == '\r' && s[pos..pos + 2][1] == '\n';
  }

  lemma EndsAt(x: string, tail: string)
    ensures Find(x + CRLF + tail, CRLF) <= |x|
  {
    var s := x + CRLF + tail;
    assert s[|x|..|x| + 2] == CRLF;
    assert OccursAt(s, CRLF, |x|);
  }

  lemma Regroup4(a: string, b: string, c: string, d: string)
    ensures a + b + c + b + d == a + b + (c + b + d)
  {}

  /** Lines that stand inside the file name keep the file name small. */
  lemma {:induction false} QuotedLines(cb: Callbacks, p: Parser, x: string, item: Item, rest: string, n: nat)
    requires ReadsLines(cb) && p.phase == HeaderLines && p.buf == x + CRLF + (TypePart(item) + rest)
    requires x != "" && x[|x| - 1] == '"' && |x| <= n + 1
    requires Fields.IsFieldValue(item.contentType) && Small(p.file.filename, n)
    ensures FirstFilename(Headers(cb, p), n)
    decreases |x|
  {
    var tail := TypePart(item) + rest;
    var line, more := CutQuoted(x, tail);
    if line == "" {
      assert p.buf == CRLF + (more + CRLF + tail);
      BlankReports(cb, p, more + CRLF + tail);
    } else {
      var after := if |line| < |x| then more + CRLF + tail else tail;
      var r := cb.line(p.file, line);
      assert r == HeaderLine(p.file, line);
      assert p.buf == line + CRLF + after;
      LineStepAt(cb, p, line, after, r);
      if r.ok {
        LineFilename(p.file, line, n);
        var next := p.(file := r.file, buf := after);
        if |line| < |x| { QuotedLines(cb, next, more, item, rest, n); } else { TypeTail(cb, next, item, rest, n); }
        SilentLine(Headers(cb, next), |line|);
      }
    }
  }

  lemma OpeningClean(name: string)
    requires NameOk(name)
    ensures '\r' !in Opening(name)
  {
    assert !Fields.IsFieldChar('\r');
    assert forall i | 0 <= i < |name| :: name[i] != '\r';
  }

  lemma FindBehind(a: string, s: string)
    requires '\r' !in a
    ensures Find(a + s, CRLF) == |a| + Find(s, CRLF)
  {
    forall i | 0 <= i < |a| ensures !OccursAt(a + s, CRLF, i) {
      if i + 2 <= |a + s| { assert (a + s)[i..i + 2][0] == a[i]; }
    }
    assert (a + s)[|a|..] == s;
    FindDrop(a + s, CRLF, |a|);
  }

  /** The header block of a part whose name can be read. */
  lemma HeadersFilename(cb: Callbacks, p: Parser, item: Item, rest: string)
    requires ReadsLines(cb) && p.phase == HeaderLines && p.file == NoFile
    requires p.buf == HeaderBlock(item) + rest && item.filename != ""
    requires NameOk(item.name) && Fields.IsFieldValue(item.contentType)
    ensures FirstFilename(Headers(cb, p), |item.filename|)
  {
    BlockIs(item, rest);
    FirstOfBlock(cb, p, item.filename + "\"", item, rest);
  }

  lemma FirstOfBlock(cb: Callbacks, p: Parser, x: string, item: Item, rest: string)
    requires ReadsLines(cb) && p.phase == HeaderLines && p.file == NoFile
    requires x == item.filename + "\"" && p.buf == Opening(item.name) + (x + CRLF + (TypePart(item) + rest))
    requires NameOk(item.name) && Fields.IsFieldValue(item.contentType)
    ensures FirstFilename(Headers(cb, p), |item.filename|)
  {
    var tail := TypePart(item) + rest;
    var line, more := CutQuoted(x, tail);
    var after := if |line| < |x| then more + CRLF + tail else tail;
    assert x + CRLF + tail == line + CRLF + after;
    var r := FirstRead(cb, p, item.name, line, after);
    if r.ok {
      var next := p.(file := r.file, buf := after);
      RestOfBlock(cb, next, x, line, more, item, rest);
      SilentLine(Headers(cb, next), |Opening(item.name) + line|);
    }
  }

  /** The first line of the block, read with `after` behind it. */
  lemma FirstRead(cb: Callbacks, p: Parser, name: string, line: string, after: string) returns (r: LineResult)
    requires ReadsLines(cb) && p.phase == HeaderLines && p.file == NoFile && NameOk(name)
    requires p.buf == Opening(name) + (line + CRLF + after) && Find(line + CRLF + after, CRLF) == |line|
    ensures r.ok ==> Small(r.file.filename, Max(|line| - 1, 0))
    ensures Headers(cb, p) == if r.ok then Headers(cb, p.(file := r.file, buf := after)).After([], |Opening(name) + line|)
                              else Stop(p.(valid := false, file := r.file), []).After([], |Opening(name) + line|)
  {
    FirstAt(cb, p, name, line, after);
    r := HeaderLine(NoFile, Opening(name) + line);
    if r.ok { FirstLine(name, line); }
  }

  /** Behind its first line: more lines of the file name, or the rest. */
  lemma RestOfBlock(cb: Callbacks, next: Parser, x: string, line: string, more: string, item: Item, rest: string)
    requires ReadsLines(cb) && next.phase == HeaderLines && Fields.IsFieldValue(item.contentType)
    requires |line| <= |x| == |item.filename| + 1
    requires |line| < |x| ==> x == line + CRLF + more && more != "" && more[|more| - 1] == '"'
    requires next.buf == if |line| < |x| then more + CRLF + (TypePart(item) + rest) else TypePart(item) + rest
    requires Small(next.file.filename, |item.filename|)
    ensures FirstFilename(Headers(cb, next), |item.filename|)
  {
    if |line| < |x| {
      QuotedLines(cb, next, more, item, rest, |item.filename|);
    } else {
      TypeTail(cb, next, item, rest, |item.filename|);
    }
  }

  /** The first line of the block, with `after` behind it. */
  lemma FirstAt(cb: Callbacks, p: Parser, name: string, line: string, after: string)
    requires ReadsLines(cb) && p.phase == HeaderLines && p.file == NoFile && NameOk(name)
    requires p.buf == Opening(name) + (line + CRLF + after) && Find(line + CRLF + after, CRLF) == |line|
    ensures var first := Opening(name) + line;
            var r := HeaderLine(NoFile, first);
            Headers(cb, p) == if r.ok then Headers(cb, p.(file := r.file, buf := after)).After([], |first|)
                              else Stop(p.(valid := false, file := r.file), []).After([], |first|)
  {
    var first := Opening(name) + line;
    OpeningClean(name);
    FindBehind(Opening(name), line + CRLF + after);
    Regroup3(Opening(name), line, CRLF, after);
    assert cb.line(NoFile, first) == HeaderLine(NoFile, first);
    LineStepAt(cb, p, first, after, cb.line(NoFile, first));
  }

  lemma Regroup3(a: string, b: string, c: string, d: string)
    ensures a + (b + c + d) == a + b + c + d
  {}

  /** What stands deepest may as well stand last. */
  lemma Push(a: string, b: string, c: string, inner: string, x: string)
    ensures a + (b + (c + (inner + x))) == a + (b + (c + inner)) + x
  {
    Associative(c, inner, x);
    Associative(b, c + inner, x);
    Associative(a, b + (c + inner), x);
  }

  lemma OpeningIs(item: Item)
    requires item.filename != ""
    ensures DispositionLine(item) == Opening(item.name) + (item.filename + "\"")
  {
    var x, named := item.filename + "\"", Quoted("name", item.name) + [';'];
    var key: string := "filename" + ['='];
    Associative("\"", item.filename, "\"");
    Push(named, " ", key, "\"", x);
    Push(DISPOSITION + ": ", FORM, " ", named + (" " + (key + "\"")), x);
  }

  lemma BlockIs(item: Item, rest: string)
    requires item.filename != ""
    ensures HeaderBlock(item) + rest == Opening(item.name) + (item.filename + "\"" + CRLF + (TypePart(item) + rest))
  {
    var x := item.filename + "\"";
    OpeningIs(item);
    Associative(DispositionLine(item) + CRLF, TypePart(item), rest);
    Regroup3(Opening(item.name), x, CRLF, TypePart(item) + rest);
  }

  // ---- the theorem ----

  /** A part but for its names. */
  predicate ContentOk(item: Item, boundary: string) {
    && Fields.IsFieldValue(item.contentType)
    && Find(item.content, CRLF + "--" + boundary) == |item.content|
    && |DispositionLine(item)| < HEADER_MAX_LENGTH && |TypeLine(item)| < HEADER_MAX_LENGTH
  }

  /** The parser on a form of one item, up to the first header line. */
  lemma FormStart(cb: Callbacks, item: Item, boundary: string) returns (p: Parser, rest: string)
    ensures p == Parser(boundary, HeaderLines, false, NoFile, HeaderBlock(item) + rest)
    ensures rest == item.content + (CRLF + ("--" + boundary)) + FormRoundTrip.Behind([], boundary)
    ensures Parse(cb, Init(boundary), Serialize([item], boundary)) == Run(cb, p)
  {
    var q := Init(boundary).Feed(Serialize([item], boundary));
    var part := Part([item], boundary);
    SerializeBehind([item], boundary);
    Associative("--" + boundary, CRLF, part);
    assert q.buf == "" + q.Opener() + part;
    assert OccursAt(q.buf, q.Opener(), 0) by { assert q.buf[..|q.Opener()|] == q.Opener(); }
    OpeningGo(cb, q, "", part);
    rest := item.content + (CRLF + ("--" + boundary)) + FormRoundTrip.Behind([item][1..], boundary);
    p := q.(phase := HeaderLines, file := NoFile, buf := part);
  }

  lemma RunOrRefused(cb: Callbacks, p: Parser)
    requires p.phase == HeaderLines && p.buf != ""
    ensures Run(cb, p) == Headers(cb, p) || Run(cb, p).events == []
  {}

  /** One part is reported, with the item's names, type and content. */
  ghost predicate ComesBack(events: seq<Event>, item: Item) {
    var report := Summarise(events);
    && report.lead == "" && |report.entries| == 1
    && var entry := report.entries[0];
       && entry.file.name == item.name && entry.file.filename == item.filename
       && entry.file.contentType == item.contentType && entry.content == item.content
  }

  lemma EntryOfOne(item: Item)
    ensures Entries([item]) == [Entry(ItemFile(item), item.content)]
  {
    EntriesNext([item]);
    assert Entries([item][1..]) == [];
  }

  /** A serialized item is read back by the parser, as one valid part with its names, exactly when name and
      file name hold field characters other than `;` and `=`; a quote inside them does no harm. Its header
      fields are then those that were written. */
  lemma NameSurvives(cb: Callbacks, item: Item, boundary: string)
    requires Accepts(cb) && ValidBoundary(boundary) && ContentOk(item, boundary)
    ensures var r := Parse(cb, Init(boundary), Serialize([item], boundary));
            && (r.ok && r.parser.valid && ComesBack(r.events, item) <==> NameOk(item.name) && NameOk(item.filename))
            && (NameOk(item.name) && NameOk(item.filename) ==>
                  Summarise(r.events) == Summary("", [Entry(ItemFile(item), item.content)]))
  {
    if NameOk(item.name) && NameOk(item.filename) {
      NameKept(cb, item, boundary);
    } else {
      NameLost(cb, item, boundary);
    }
  }

  lemma NameKept(cb: Callbacks, item: Item, boundary: string)
    requires Accepts(cb) && ValidBoundary(boundary) && ContentOk(item, boundary) && NameOk(item.name) && NameOk(item.filename)
    ensures var r := Parse(cb, Init(boundary), Serialize([item], boundary));
            r.ok && r.parser.valid && Summarise(r.events) == Summary("", [Entry(ItemFile(item), item.content)])
    ensures ComesBack(Parse(cb, Init(boundary), Serialize([item], boundary)).events, item)
  {
    WholeRead(cb, [item], boundary);
    EntryOfOne(item);
    EntryMatches(Parse(cb, Init(boundary), Serialize([item], boundary)).events, item);
  }

  lemma EntryMatches(events: seq<Event>, item: Item)
    requires Summarise(events) == Summary("", [Entry(ItemFile(item), item.content)])
    ensures ComesBack(events, item)
  {}

  lemma NameLost(cb: Callbacks, item: Item, boundary: string)
    requires ReadsLines(cb) && Fields.IsFieldValue(item.contentType) && !(NameOk(item.name) && NameOk(item.filename))
    ensures !ComesBack(Parse(cb, Init(boundary), Serialize([item], boundary)).events, item)
  {
    var p, rest := FormStart(cb, item, boundary);
    RunOrRefused(cb, p);
    if NameOk(item.name) {
      HeadersFilename(cb, p, item, rest);
    } else {
      HeadersName(cb, p);
    }
  }

  // ---- a name that writes a header of its own ----

  const EXTRA := "a: y\""

  /** A name that closes its quote and goes on in a line of its own; the serializer puts a quote behind it. */
  function InjectedName(name: string): string { name + "\"" + CRLF + "a: y" }

  const EXTRA_FIELD: Fields.Header := ("a", "y\"")

  lemma ExtraParsed()
    ensures Fields.ParseHeader(EXTRA) == Some(EXTRA_FIELD)
  {
    NameA();
    assert Trimmed("y\"") && Fields.IsFieldValue("y\"");
    WrittenPlain("a", "y\"", EXTRA);
  }

  lemma WrittenPlain(key: string, val: string, line: string)
    requires Fields.IsToken(key) && ':' !in key && |key| == 1 && Fields.IsFieldValue(val) && Trimmed(val) && val != "" && '%' !in val
    requires line == key + ": " + val
    ensures Fields.ParseHeader(line) == Some((key, val))
  {
    Fields.ParseWritten(key, val);
    Uri.DecodePlain(val, false);
    assert |Lower(key)| != |Lower("Location")| && |Lower(key)| != |Lower("Referer")|;
  }

  lemma ExtraRead(file: FormFile) returns (r: LineResult)
    ensures r == HeaderLine(file, EXTRA) == LineResult(true, file.(headers := file.headers + [EXTRA_FIELD]))
  {
    ExtraParsed();
    NotContent(EXTRA, "Content-Type:");
    NotContent(EXTRA, "Content-Disposition:");
    r := HeaderLine(file, EXTRA);
  }

  lemma InjectedLine(name: string, content: string)
    ensures DispositionLine(Item(InjectedName(name), content, "", "")) == DispositionLine(Item(name, content, "", "")) + CRLF + EXTRA
  {
    var key: string := "name" + ['='];
    InjectedQuote(name);
    Associative(key, "\"" + name + "\"", CRLF + EXTRA);
    Push(DISPOSITION + ": ", FORM, " ", Quoted("name", name), CRLF + EXTRA);
    Associative(DispositionLine(Item(name, content, "", "")), CRLF, EXTRA);
  }

  lemma InjectedQuote(name: string)
    ensures "\"" + InjectedName(name) + "\"" == "\"" + name + "\"" + (CRLF + EXTRA)
  {
    assert "a: y" + "\"" == EXTRA;
    QuoteMoves("\"", name, CRLF, "a: y");
  }

  lemma QuoteMoves(q: string, a: string, b: string, c: string)
    ensures q + (a + q + b + c) + q == q + a + q + (b + (c + q))
  {}

  lemma InjectedBlock(name: string, content: string, rest: string)
    ensures HeaderBlock(Item(InjectedName(name), content, "", "")) + rest
            == DispositionLine(Item(name, content, "", "")) + CRLF + (EXTRA + CRLF + (CRLF + rest))
  {
    InjectedLine(name, content);
    Regroup5(DispositionLine(Item(name, content, "", "")), CRLF, EXTRA, rest);
  }

  lemma Regroup5(a: string, b: string, c: string, d: string)
    ensures a + b + c + b + b + d == a + b + (c + b + (b + d))
  {}

  /** What an injected form is: a part with two lines. */
  lemma InjectedText(name: string, content: string, boundary: string) returns (lines: seq<string>)
    ensures lines == [DispositionLine(Item(name, content, "", "")), EXTRA]
    ensures Serialize([Item(InjectedName(name), content, "", "")], boundary) == PartText(lines, content, boundary)
  {
    var item := Item(InjectedName(name), content, "", "");
    var rest := AfterBlank(content, boundary);
    lines := [DispositionLine(Item(name, content, "", "")), EXTRA];
    SerializeBehind([item], boundary);
    assert FormRoundTrip.Behind([item][1..], boundary) == "--" + CRLF;
    InjectedBlock(name, content, rest);
    TwoLines(lines, CRLF + rest);
    Associative("--" + boundary, CRLF, HeaderBlock(item) + rest);
  }

  lemma TwoLines(lines: seq<string>, rest: string)
    requires |lines| == 2
    ensures Block(lines) + rest == lines[0] + CRLF + (lines[1] + CRLF + rest)
  {
    var more := lines[1..];
    assert more[1..] == [];
    assert Block(more) == lines[1] + CRLF + "";
    EmptyFirst(lines[1] + CRLF);
    Associative(lines[0] + CRLF, lines[1] + CRLF, rest);
  }

  lemma InjectedTaken(item: Item, first: string, lines: seq<string>)
    requires NameOk(item.name) && item.filename == "" && item.contentType == ""
    requires lines == [first, EXTRA] && first == DispositionLine(item) && |first| < HEADER_MAX_LENGTH
    ensures AllOk(lines)
    ensures Taken(NoFile, lines) == FormFile(item.name, "", "", DispositionFields(item) + [EXTRA_FIELD])
  {
    var named := InjectedFirst(item, first);
    var extra := ExtraRead(named);
    ExtraOk();
    PairOk(lines, first, EXTRA);
    TakenTwo(lines, first, EXTRA, named, extra.file);
  }

  lemma PairOk(lines: seq<string>, a: string, b: string)
    requires lines == [a, b] && LineOk(a) && LineOk(b)
    ensures AllOk(lines)
  {}

  lemma InjectedFirst(item: Item, line: string) returns (first: FormFile)
    requires NameOk(item.name) && item.filename == "" && line == DispositionLine(item) && |line| < HEADER_MAX_LENGTH
    ensures LineOk(line) && HeaderLine(NoFile, line).file == first
    ensures first == FormFile(item.name, "", "", DispositionFields(item))
  {
    var r := DispositionRead(NoFile, item);
    EmptyFirst(DispositionFields(item));
    first := r.file;
  }

  lemma ExtraOk()
    ensures LineOk(EXTRA)
  {
    var r := ExtraRead(NoFile);
    assert |EXTRA| == 5;
  }

  lemma TakenTwo(lines: seq<string>, a: string, b: string, first: FormFile, second: FormFile)
    requires lines == [a, b] && HeaderLine(NoFile, a).file == first && HeaderLine(first, b).file == second
    ensures Taken(NoFile, lines) == second
  {
    TakenNext(NoFile, lines);
    TakenNext(first, lines[1..]);
  }

  lemma TakenNext(file: FormFile, lines: seq<string>)
    requires lines != []
    ensures Taken(file, lines) == Taken(HeaderLine(file, lines[0]).file, lines[1..])
    ensures |lines| == 1 ==> Taken(file, lines) == HeaderLine(file, lines[0]).file
  {}

  /** Such an item is accepted, in whatever pieces it arrives, as one valid part with a shorter name and one
      more header field. */
  lemma InjectedHeader(cb: Callbacks, name: string, content: string, boundary: string, pieces: seq<string>)
    requires Accepts(cb) && ValidBoundary(boundary) && NameOk(name)
    requires ContentOk(Item(InjectedName(name), content, "", ""), boundary)
    requires Concat(pieces) == Serialize([Item(InjectedName(name), content, "", "")], boundary)
    ensures var r := ParseAll(cb, Init(boundary), pieces);
            var fields := DispositionFields(Item(name, content, "", "")) + [("a", "y\"")];
            r.ok && r.parser.valid && Summarise(r.events) == Summary("", [Entry(FormFile(name, "", "", fields), content)])
  {
    var lines := InjectedText(name, content, boundary);
    InjectedLine(name, content);
    InjectedTaken(Item(name, content, "", ""), lines[0], lines);
    PartWhole(cb, lines, content, boundary);
    Delivered(cb, Init(boundary), [Entry(Taken(NoFile, lines), content)], pieces);
  }
}
