/** Exactly when the way a form is cut into `parse` calls makes no difference. */
module FormCuts {
  import opened Limits
  import opened Text
  import Fields
  import opened FormData
  import opened FormSplit
  import opened FormSegmentation

  // ---- the header lines of a stream ----

  /** The header lines of the bytes `s`, the first of which the parser meets in `phase`. Of an unfinished line
      the last byte is left out: it may belong to the line's end. */
  function HeaderLinesIn(boundary: string, phase: Phase, s: string): seq<string>
    decreases |s|, if phase == NewEntry then 1 else 0
  {
    if s == "" then []
    else match phase
      case Opening =>
        var opener := Init(boundary).Opener();
        var pos := Find(s, opener);
        if pos == |s| then [] else HeaderLinesIn(boundary, NewEntry, s[pos + |opener|..])
      case NewEntry => HeaderLinesIn(boundary, HeaderLines, s)
      case HeaderLines =>
        var pos := Find(s, CRLF);
        if pos == |s| then [s[..pos - 1]]
        else if pos == 0 then HeaderLinesIn(boundary, Body, s[2..])
        else [s[..pos]] + HeaderLinesIn(boundary, HeaderLines, s[pos + 2..])
      case Body =>
        var delim := Init(boundary).Delimiter();
        var pos := Find(s, delim);
        if pos == |s| then [] else HeaderLinesIn(boundary, AfterBoundary, s[pos + |delim|..])
      case AfterBoundary =>
        if |s| >= 2 && s[..2] == CRLF then HeaderLinesIn(boundary, NewEntry, s[2..]) else []
  }

  function LinesOf(p: Parser): seq<string> { HeaderLinesIn(p.boundary, p.phase, p.buf) }

  predicate AllShort(lines: seq<string>) { forall i | 0 <= i < |lines| :: |lines[i]| < HEADER_MAX_LENGTH }

  lemma ShortCons(line: string, rest: seq<string>)
    ensures AllShort([line] + rest) <==> |line| < HEADER_MAX_LENGTH && AllShort(rest)
  {
    var all := [line] + rest;
    assert all[0] == line;
    assert forall i | 0 <= i < |rest| :: all[i + 1] == rest[i];
    assert forall i | 1 <= i < |all| :: all[i] == rest[i - 1];
  }

  /** The loop from any state; inside the header state without the limit tested on entry. */
  function Go(cb: Callbacks, p: Parser): Result { if p.phase == HeaderLines then Headers(cb, p) else Run(cb, p) }

  lemma EntryOk(cb: Callbacks, p: Parser)
    requires p.phase == HeaderLines && p.buf != "" && Run(cb, p).ok
    ensures Find(p.buf, CRLF) <= HEADER_MAX_LENGTH && Run(cb, p) == Headers(cb, p)
  {}

  // ---- one step over bytes that are complete ----

  lemma OpeningGo(cb: Callbacks, p: Parser, before: string, after: string)
    requires p.phase == Opening && p.buf == before + p.Opener() + after && Find(p.buf, p.Opener()) == |before|
    ensures var q := p.(phase := NewEntry, buf := after); Run(cb, p) == Run(cb, q) && LinesOf(p) == LinesOf(q)
  {
    OpeningStep(cb, p, before, after);
    assert p.buf[|before| + |p.Opener()|..] == after;
    assert Init(p.boundary).Opener() == p.Opener();
  }

  lemma BodyGo(cb: Callbacks, p: Parser, text: string, after: string)
    requires p.phase == Body && p.buf == text + p.Delimiter() + after && Find(p.buf, p.Delimiter()) == |text|
    ensures Run(cb, p) == if cb.content(text) then Run(cb, p.(phase := AfterBoundary, buf := after)).After([Content(text)], 0)
                          else Stop(p.(valid := false), [Content(text)])
  {
    var n := |text| + |p.Delimiter()|;
    assert p.buf[..|text|] == text && p.buf[n..] == after;
    assert p.Drop(n).(phase := AfterBoundary) == p.(phase := AfterBoundary, buf := after);
    assert Run(cb, p) == BodyStep(cb, p);
  }

  lemma BodyLines(p: Parser, text: string, after: string)
    requires p.phase == Body && p.buf == text + p.Delimiter() + after && Find(p.buf, p.Delimiter()) == |text|
    ensures LinesOf(p) == LinesOf(p.(phase := AfterBoundary, buf := after))
  {
    assert Init(p.boundary).Delimiter() == p.Delimiter();
    assert p.buf[|text| + |p.Delimiter()|..] == after;
  }

  lemma BlankGo(cb: Callbacks, p: Parser, after: string)
    requires p.phase == HeaderLines && p.buf == CRLF + after && Find(p.buf, CRLF) == 0
    ensures Headers(cb, p) == if cb.header(p.file) then Run(cb, p.(phase := Body, buf := after)).After([Header(p.file)], 0)
                              else Stop(p.(valid := false), [Header(p.file)])
  {
    assert p.buf[2..] == after;
    assert p.Drop(2).(phase := Body) == p.(phase := Body, buf := after);
  }

  lemma BlankLines(p: Parser, after: string)
    requires p.phase == HeaderLines && p.buf == CRLF + after && Find(p.buf, CRLF) == 0
    ensures LinesOf(p) == LinesOf(p.(phase := Body, buf := after))
  {
    assert p.buf[2..] == after;
  }

  lemma BoundaryGo(cb: Callbacks, p: Parser, after: string)
    requires p.phase == AfterBoundary && p.buf == CRLF + after
    ensures var q := p.(phase := NewEntry, buf := after); Run(cb, p) == Run(cb, q) && LinesOf(p) == LinesOf(q)
  {
    assert p.buf[..2] == CRLF && p.buf[2..] == after;
  }

  lemma LinesNext(p: Parser, line: string, after: string)
    requires p.phase == HeaderLines && p.buf == line + CRLF + after && 0 < Find(p.buf, CRLF) == |line|
    ensures LinesOf(p) == [line] + HeaderLinesIn(p.boundary, HeaderLines, after)
  {
    assert p.buf[..|line|] == line && p.buf[|line| + 2..] == after;
  }

  // ---- the lines met are the lines there ----

  /** In a run that is not refused, the header lines met are those of the stream. */
  lemma {:induction false} Widths(cb: Callbacks, p: Parser)
    requires Go(cb, p).ok
    ensures Go(cb, p).widest < HEADER_MAX_LENGTH <==> AllShort(LinesOf(p))
    decreases |p.buf|, if p.phase == NewEntry then 2 else 1
  {
    if p.buf != "" {
      match p.phase
      case Opening => OpeningWidths(cb, p);
      case NewEntry =>
        var q := p.(phase := HeaderLines, file := NoFile);
        EntryOk(cb, q);
        HeaderWidths(cb, q);
      case HeaderLines => HeaderWidths(cb, p);
      case Body => BodyWidths(cb, p);
      case AfterBoundary =>
        if |p.buf| >= 2 && p.buf[..2] == CRLF {
          assert p.buf == CRLF + p.buf[2..];
          BoundaryGo(cb, p, p.buf[2..]);
          Widths(cb, p.(phase := NewEntry, buf := p.buf[2..]));
        }
    }
  }

  lemma {:induction false} OpeningWidths(cb: Callbacks, p: Parser)
    requires p.phase == Opening && p.buf != "" && Run(cb, p).ok
    ensures Run(cb, p).widest < HEADER_MAX_LENGTH <==> AllShort(LinesOf(p))
    decreases |p.buf|, 0
  {
    if Find(p.buf, p.Opener()) < |p.buf| {
      var before, after := CutAtDelimiter(p.buf, p.Opener());
      OpeningGo(cb, p, before, after);
      Widths(cb, p.(phase := NewEntry, buf := after));
    }
  }

  lemma {:induction false} BodyWidths(cb: Callbacks, p: Parser)
    requires p.phase == Body && p.buf != "" && Run(cb, p).ok
    ensures Run(cb, p).widest < HEADER_MAX_LENGTH <==> AllShort(LinesOf(p))
    decreases |p.buf|, 0
  {
    if Find(p.buf, p.Delimiter()) < |p.buf| {
      var text, after := CutAtDelimiter(p.buf, p.Delimiter());
      BodyGo(cb, p, text, after);
      BodyLines(p, text, after);
      Widths(cb, p.(phase := AfterBoundary, buf := after));
    }
  }

  lemma {:induction false} HeaderWidths(cb: Callbacks, p: Parser)
    requires p.phase == HeaderLines && p.buf != "" && Headers(cb, p).ok
    ensures Headers(cb, p).widest < HEADER_MAX_LENGTH <==> AllShort(LinesOf(p))
    decreases |p.buf|, 0
  {
    var pos := Find(p.buf, CRLF);
    if pos == |p.buf| {
      ShortCons(p.buf[..pos - 1], []);
    } else {
      var line, after := CutAtDelimiter(p.buf, CRLF);
      if pos == 0 {
        assert p.buf == CRLF + after;
        BlankGo(cb, p, after);
        BlankLines(p, after);
        Widths(cb, p.(phase := Body, buf := after));
      } else {
        var r := cb.line(p.file, line);
        LineStepAt(cb, p, line, after, r);
        LinesNext(p, line, after);
        Widths(cb, p.(file := r.file, buf := after));
        ShortCons(line, HeaderLinesIn(p.boundary, HeaderLines, after));
      }
    }
  }

  // ---- calls up to the closing boundary ----

  /** Successive calls of `parse`, up to the first that returns false or sees the closing boundary; what
      comes behind it is put to the epilogue. */
  function ReadAll(cb: Callbacks, p: Parser, pieces: seq<string>): Result
    decreases |pieces|
  {
    if pieces == [] then Wait(p, [])
    else
      var r := Parse(cb, p, pieces[0]);
      if !r.ok then r
      else if r.parser.valid then r.(epilogue := r.epilogue + Concat(pieces[1..]))
      else ReadAll(cb, r.parser, pieces[1..]).After(r.events, r.widest)
  }

  /** The same answer, the same state, the same report. */
  predicate SameReading(c: Result, w: Result) {
    c.ok == w.ok && c.parser == w.parser && c.epilogue == w.epilogue && Summarise(c.events) == Summarise(w.events)
  }

  lemma {:induction false} ReadsSame(cb: Callbacks, p: Parser, pieces: seq<string>)
    requires AcceptsContent(cb) && !p.valid && pieces != []
    requires Parse(cb, p, Concat(pieces)).ok && Parse(cb, p, Concat(pieces)).widest < HEADER_MAX_LENGTH
    ensures SameReading(ReadAll(cb, p, pieces), Parse(cb, p, Concat(pieces)))
    decreases |pieces|
  {
    var a, rest := pieces[0], pieces[1..];
    var r := Parse(cb, p, a);
    if rest == [] {
      assert Concat(pieces) == a + Concat([]) == a;
      assert r.events + [] == r.events;
      assert r.epilogue + Concat([]) == r.epilogue;
      if !r.parser.valid { NoEpilogue(cb, p.Feed(a)); }
    } else {
      Associative(p.buf, a, Concat(rest));
      assert p.Feed(a).Feed(Concat(rest)) == p.Feed(Concat(pieces));
      RunSplit(cb, p.Feed(a), Concat(rest));
      if !r.parser.valid {
        ReadsSame(cb, r.parser, rest);
        SummarisePrefix(r.events, ReadAll(cb, r.parser, rest).events, Parse(cb, r.parser, Concat(rest)).events);
      }
    }
  }

  // ---- a long line can be cut so that it is refused ----

  /** A run that is not refused and meets a line that is not short: a cutting of the same bytes, fed to the
      same state, that is refused. Everything before the line goes piece by piece, its end in a piece of its own. */
  lemma {:induction false} LongCut(cb: Callbacks, p: Parser) returns (pieces: seq<string>)
    requires !p.valid && Go(cb, p).ok && !AllShort(LinesOf(p))
    ensures Refuses(cb, p, pieces)
    decreases |p.buf|, if p.phase == NewEntry then 3 else 2
  {
    match p.phase
    case Opening =>
      var before, after := CutAtDelimiter(p.buf, p.Opener());
      OpeningGo(cb, p, before, after);
      OpeningHead(cb, p, before, after);
      var rest := LongCut(cb, p.(phase := NewEntry, buf := after));
      pieces := Headed(cb, p, before + p.Opener(), p.(phase := NewEntry, buf := after), rest);
    case NewEntry =>
      var q := p.(phase := HeaderLines, file := NoFile);
      EntryOk(cb, q);
      pieces := LongCut(cb, q);
      EntryCut(cb, p, pieces);
    case HeaderLines => pieces := HeaderCut(cb, p);
    case Body =>
      var text, after := CutAtDelimiter(p.buf, p.Delimiter());
      BodyGo(cb, p, text, after);
      BodyLines(p, text, after);
      BodyHead(cb, p, text, after);
      var rest := LongCut(cb, p.(phase := AfterBoundary, buf := after));
      pieces := Headed(cb, p, text + p.Delimiter(), p.(phase := AfterBoundary, buf := after), rest);
    case AfterBoundary =>
      assert p.buf == CRLF + p.buf[2..];
      BoundaryGo(cb, p, p.buf[2..]);
      BoundaryHead(cb, p, p.buf[2..]);
      var rest := LongCut(cb, p.(phase := NewEntry, buf := p.buf[2..]));
      pieces := Headed(cb, p, CRLF, p.(phase := NewEntry, buf := p.buf[2..]), rest);
  }

  ghost predicate Refuses(cb: Callbacks, p: Parser, pieces: seq<string>) {
    pieces != [] && pieces[0] != "" && Concat(pieces) == p.buf && !ReadAll(cb, p.(buf := ""), pieces).ok
  }

  /** `head`, fed alone, takes `p` to where `q` stands with nothing in its buffer. */
  ghost predicate Heads(cb: Callbacks, p: Parser, head: string, q: Parser) {
    && head != "" && p.buf == head + q.buf
    && Parse(cb, p.(buf := ""), head).ok && Parse(cb, p.(buf := ""), head).parser == q.(buf := "")
  }

  lemma Headed(cb: Callbacks, p: Parser, head: string, q: Parser, rest: seq<string>) returns (pieces: seq<string>)
    requires Heads(cb, p, head, q) && !q.valid && Refuses(cb, q, rest)
    ensures Refuses(cb, p, pieces)
  {
    pieces := [head] + rest;
    assert pieces[1..] == rest;
  }

  lemma FedAlone(cb: Callbacks, p: Parser, head: string)
    ensures Parse(cb, p.(buf := ""), head) == Run(cb, p.(buf := head))
  {
    assert "" + head == head;
  }

  lemma FindEnds(text: string, pat: string, rest: string)
    requires pat != "" && Find(text + pat + rest, pat) == |text|
    ensures Find(text + pat, pat) == |text|
    ensures text + pat + "" == text + pat
  {
    FindAppend(text + pat, rest, pat);
    assert OccursAt(text + pat, pat, |text|);
  }

  lemma OpeningHead(cb: Callbacks, p: Parser, before: string, after: string)
    requires p.phase == Opening && p.buf == before + p.Opener() + after && Find(p.buf, p.Opener()) == |before|
    ensures Heads(cb, p, before + p.Opener(), p.(phase := NewEntry, buf := after))
  {
    var head := p.(buf := before + p.Opener());
    FindEnds(before, p.Opener(), after);
    OpeningGo(cb, head, before, "");
    FedAlone(cb, p, head.buf);
  }

  lemma EntryCut(cb: Callbacks, p: Parser, pieces: seq<string>)
    requires p.phase == NewEntry && Refuses(cb, p.(phase := HeaderLines, file := NoFile), pieces)
    ensures Refuses(cb, p, pieces)
  {
    FedAlone(cb, p, pieces[0]);
    FedAlone(cb, p.(phase := HeaderLines, file := NoFile), pieces[0]);
  }

  lemma BodyHead(cb: Callbacks, p: Parser, text: string, after: string)
    requires p.phase == Body && p.buf == text + p.Delimiter() + after && Find(p.buf, p.Delimiter()) == |text|
    requires cb.content(text)
    ensures Heads(cb, p, text + p.Delimiter(), p.(phase := AfterBoundary, buf := after))
  {
    var head := p.(buf := text + p.Delimiter());
    FindEnds(text, p.Delimiter(), after);
    assert head.Delimiter() == p.Delimiter();
    BodyGo(cb, head, text, "");
    FedAlone(cb, p, head.buf);
  }

  lemma BoundaryHead(cb: Callbacks, p: Parser, after: string)
    requires p.phase == AfterBoundary && p.buf == CRLF + after
    ensures Heads(cb, p, CRLF, p.(phase := NewEntry, buf := after))
  {
    assert CRLF + "" == CRLF;
    BoundaryGo(cb, p.(buf := CRLF), "");
    FedAlone(cb, p, CRLF);
  }

  lemma {:induction false} HeaderCut(cb: Callbacks, p: Parser) returns (pieces: seq<string>)
    requires p.phase == HeaderLines && !p.valid && Headers(cb, p).ok && !AllShort(LinesOf(p))
    ensures Refuses(cb, p, pieces)
    decreases |p.buf|, 1
  {
    var pos := Find(p.buf, CRLF);
    if pos > HEADER_MAX_LENGTH {
      pieces := OverLimit(cb, p);
    } else if pos == |p.buf| {
      UnfinishedShort(p);
      pieces := [];
    } else {
      var line, after := CutAtDelimiter(p.buf, CRLF);
      if pos == HEADER_MAX_LENGTH {
        pieces := EndApart(cb, p, line, after);
      } else {
        pieces := LineCut(cb, p, line, after);
      }
    }
  }

  /** A line over the limit is refused on entry. */
  lemma OverLimit(cb: Callbacks, p: Parser) returns (pieces: seq<string>)
    requires p.phase == HeaderLines && Find(p.buf, CRLF) > HEADER_MAX_LENGTH
    ensures Refuses(cb, p, pieces)
  {
    pieces := [p.buf];
    FedAlone(cb, p, p.buf);
    assert p.buf + "" == p.buf;
  }

  lemma UnfinishedShort(p: Parser)
    requires p.phase == HeaderLines && Find(p.buf, CRLF) == |p.buf| <= HEADER_MAX_LENGTH
    ensures AllShort(LinesOf(p))
  {
    if p.buf != "" { ShortCons(p.buf[..|p.buf| - 1], []); }
  }

  /** A complete line that is short, or blank: the long one comes behind it. */
  lemma {:induction false} LineCut(cb: Callbacks, p: Parser, line: string, after: string) returns (pieces: seq<string>)
    requires p.phase == HeaderLines && !p.valid && Headers(cb, p).ok && !AllShort(LinesOf(p))
    requires p.buf == line + CRLF + after && Find(p.buf, CRLF) == |line| < HEADER_MAX_LENGTH
    ensures Refuses(cb, p, pieces)
    decreases |p.buf|, 0
  {
    if line == "" {
      assert p.buf == CRLF + after;
      BlankGo(cb, p, after);
      BlankLines(p, after);
      BlankHead(cb, p, after);
      var rest := LongCut(cb, p.(phase := Body, buf := after));
      pieces := Headed(cb, p, CRLF, p.(phase := Body, buf := after), rest);
    } else {
      var q := p.(file := cb.line(p.file, line).file, buf := after);
      LineHead(cb, p, line, after);
      var rest := LongCut(cb, q);
      pieces := Headed(cb, p, line + CRLF, q, rest);
    }
  }

  lemma BlankHead(cb: Callbacks, p: Parser, after: string)
    requires p.phase == HeaderLines && p.buf == CRLF + after && Find(p.buf, CRLF) == 0 && cb.header(p.file)
    ensures Heads(cb, p, CRLF, p.(phase := Body, buf := after))
  {
    assert "" + CRLF + after == CRLF + after;
    FindEnds("", CRLF, after);
    assert "" + CRLF == CRLF && CRLF + "" == CRLF;
    BlankGo(cb, p.(buf := CRLF), "");
    FedAlone(cb, p, CRLF);
  }

  lemma LineHead(cb: Callbacks, p: Parser, line: string, after: string)
    requires p.phase == HeaderLines && p.buf == line + CRLF + after && Headers(cb, p).ok
    requires 0 < Find(p.buf, CRLF) == |line| < HEADER_MAX_LENGTH
    ensures var r := cb.line(p.file, line);
            var q := p.(file := r.file, buf := after);
            && r.ok && Headers(cb, q).ok && Heads(cb, p, line + CRLF, q)
            && (AllShort(LinesOf(q)) ==> AllShort(LinesOf(p)))
  {
    var r := cb.line(p.file, line);
    LineStepAt(cb, p, line, after, r);
    FindEnds(line, CRLF, after);
    LineStepAt(cb, p.(buf := line + CRLF), line, "", r);
    FedAlone(cb, p, line + CRLF);
    LinesNext(p, line, after);
    ShortCons(line, HeaderLinesIn(p.boundary, HeaderLines, after));
  }

  /** A line as long as the limit: with only half its end, it is over it. */
  lemma EndApart(cb: Callbacks, p: Parser, line: string, after: string) returns (pieces: seq<string>)
    requires p.phase == HeaderLines && p.buf == line + CRLF + after && Find(p.buf, CRLF) == |line| == HEADER_MAX_LENGTH
    ensures Refuses(cb, p, pieces)
  {
    var half := line + "\r";
    pieces := [half, "\n" + after];
    Pair(half, "\n" + after);
    assert p.buf == half + ("\n" + after);
    HalfEnd(line, after);
    FedAlone(cb, p, half);
  }

  lemma Pair(a: string, b: string)
    ensures Concat([a, b]) == a + b
  {
    assert [a, b][1..] == [b] && [b][1..] == [];
    assert Concat([b]) == b + Concat([]) == b;
  }

  lemma HalfEnd(line: string, after: string)
    requires Find(line + CRLF + after, CRLF) == |line|
    ensures Find(line + "\r", CRLF) == |line| + 1
  {
    var s, half := line + CRLF + after, line + "\r";
    assert s == half + ("\n" + after);
    FindAppend(half, "\n" + after, CRLF);
    var k := Find(half, CRLF);
    assert k < |half| ==> OccursAt(half, CRLF, k) && k == |line|;
    assert !OccursAt(half, CRLF, |line|);
  }

  // ---- the theorem ----

  lemma LongRefused(cb: Callbacks, p: Parser, s: string) returns (pieces: seq<string>)
    requires !p.valid && p.buf == "" && Parse(cb, p, s).ok && !AllShort(HeaderLinesIn(p.boundary, p.phase, s))
    ensures Concat(pieces) == s && !ReadAll(cb, p, pieces).ok
  {
    FedAlone(cb, p, s);
    assert p == p.(buf := "");
    GoFrom(cb, p.(buf := s));
    pieces := LongCut(cb, p.(buf := s));
  }

  lemma GoFrom(cb: Callbacks, p: Parser)
    requires Run(cb, p).ok
    ensures Go(cb, p) == Run(cb, p)
  {
    if p.phase == HeaderLines && p.buf != "" { EntryOk(cb, p); }
  }

  /** For a stream accepted in one piece, every cutting gives the same answer, the same state and the same
      report up to the closing boundary exactly when every header line in it is shorter than the limit. */
  lemma CutIndependence(cb: Callbacks, p: Parser, s: string)
    requires AcceptsContent(cb) && !p.valid && p.buf == "" && Parse(cb, p, s).ok
    ensures (forall pieces | Concat(pieces) == s :: SameReading(ReadAll(cb, p, pieces), Parse(cb, p, s)))
            <==> AllShort(HeaderLinesIn(p.boundary, p.phase, s))
  {
    if AllShort(HeaderLinesIn(p.boundary, p.phase, s)) {
      FedAlone(cb, p, s);
      assert p == p.(buf := "");
      GoFrom(cb, p.(buf := s));
      Widths(cb, p.(buf := s));
      forall pieces | Concat(pieces) == s ensures SameReading(ReadAll(cb, p, pieces), Parse(cb, p, s)) {
        if pieces != [] { ReadsSame(cb, p, pieces); }
      }
    } else {
      var pieces := LongRefused(cb, p, s);
      assert !SameReading(ReadAll(cb, p, pieces), Parse(cb, p, s));
    }
  }

  // ---- a line over which the answers differ ----

  lemma LineEnd(line: string, rest: string)
    requires '\r' !in line
    ensures Find(line + CRLF + rest, CRLF) == |line|
  {
    forall i ensures !OccursAt(line, CRLF, i) {
      if 0 <= i && i + 2 <= |line| { assert line[i..i + 2][0] == line[i]; }
    }
    assert CRLF[1..] == "\n";
    FindAfter(line, CRLF, rest);
  }

  predicate AllB(val: string) { val != "" && forall i | 0 <= i < |val| :: val[i] == 'b' }

  function LineA(val: string): string { "a: " + val }

  lemma LineAOk(file: FormFile, val: string)
    requires AllB(val)
    ensures HeaderLine(file, LineA(val)).ok
  {
    ParseA(val);
    PlainLine(file, LineA(val));
  }

  lemma LineAClean(val: string)
    requires AllB(val)
    ensures '\r' !in LineA(val)
  {}

  lemma ParseA(val: string)
    requires AllB(val)
    ensures Fields.ParseHeader(LineA(val)).Some?
  {
    NameA();
    ValueB(val);
    Fields.ParseWritten("a", val);
  }

  lemma NameA()
    ensures Fields.IsToken("a") && ':' !in "a"
  {}

  lemma ValueB(val: string)
    requires AllB(val)
    ensures Trimmed(val) && Fields.IsFieldValue(val) && "a" + ": " + val == LineA(val)
  {}

  lemma PlainLine(file: FormFile, line: string)
    requires line != "" && line[0] == 'a' && Fields.ParseHeader(line).Some?
    ensures HeaderLine(file, line).ok
  {
    NotContent(line, "Content-Type:");
    NotContent(line, "Content-Disposition:");
  }

  lemma NotContent(line: string, prefix: string)
    requires line != "" && line[0] == 'a' && prefix != "" && prefix[0] == 'C'
    ensures !StartsWithIgnoreCase(line, prefix)
  {
    if |line| >= |prefix| { assert Lower(line[..|prefix|])[0] == 'a' && Lower(prefix)[0] == 'c'; }
  }

  lemma LineAGo(cb: Callbacks, p: Parser, val: string, after: string)
    requires ReadsLines(cb) && AllB(val) && p.phase == HeaderLines && p.buf == LineA(val) + CRLF + after
    ensures var q := p.(file := cb.line(p.file, LineA(val)).file, buf := after);
            Headers(cb, p).ok == Headers(cb, q).ok && LinesOf(p) == [LineA(val)] + LinesOf(q)
    ensures Find(p.buf, CRLF) == |LineA(val)|
  {
    var line := LineA(val);
    LineAOk(p.file, val);
    LineAClean(val);
    LineEnd(line, after);
    assert cb.line(p.file, line) == HeaderLine(p.file, line);
    LineStepAt(cb, p, line, after, cb.line(p.file, line));
    LinesNext(p, line, after);
  }

  /** A form whose second header line is at the limit or over it, and which is accepted in one piece. */
  function LongForm(boundary: string, val: string): string {
    Init(boundary).Opener() + (LineA("b") + CRLF + (LineA(val) + CRLF))
  }

  lemma LongFormAccepted(cb: Callbacks, boundary: string, val: string)
    requires ReadsLines(cb) && AllB(val) && |LineA(val)| >= HEADER_MAX_LENGTH
    ensures Parse(cb, Init(boundary), LongForm(boundary, val)).ok
    ensures !AllShort(HeaderLinesIn(boundary, Opening, LongForm(boundary, val)))
  {
    var p := Init(boundary).(buf := LongForm(boundary, val));
    var lines := LineA("b") + CRLF + (LineA(val) + CRLF);
    FedAlone(cb, Init(boundary), p.buf);
    OpeningFirst(p, lines);
    OpeningGo(cb, p, "", lines);
    TwoLines(cb, p.(phase := HeaderLines, buf := lines), val);
  }

  lemma TwoLines(cb: Callbacks, q: Parser, val: string)
    requires ReadsLines(cb) && AllB(val) && |LineA(val)| >= HEADER_MAX_LENGTH
    requires q.phase == HeaderLines && q.buf == LineA("b") + CRLF + (LineA(val) + CRLF)
    ensures Run(cb, q).ok && !AllShort(LinesOf(q))
  {
    var r := q.(file := cb.line(q.file, LineA("b")).file, buf := LineA(val) + CRLF);
    LineAGo(cb, q, "b", r.buf);
    LastLine(cb, r, val);
    ShortCons(LineA("b"), LinesOf(r));
  }

  lemma LastLine(cb: Callbacks, r: Parser, val: string)
    requires ReadsLines(cb) && AllB(val) && |LineA(val)| >= HEADER_MAX_LENGTH
    requires r.phase == HeaderLines && r.buf == LineA(val) + CRLF
    ensures Headers(cb, r).ok && !AllShort(LinesOf(r))
  {
    assert LineA(val) + CRLF + "" == LineA(val) + CRLF;
    LineAGo(cb, r, val, "");
    ShortCons(LineA(val), []);
  }

  lemma OpeningFirst(p: Parser, after: string)
    requires p.buf == p.Opener() + after
    ensures p.buf == "" + p.Opener() + after && Find(p.buf, p.Opener()) == 0
  {
    assert p.buf[..|p.Opener()|] == p.Opener();
    assert OccursAt(p.buf, p.Opener(), 0);
  }

  /** Header lines the code itself accepts, at the limit or over it: accepted in one piece, refused in others. */
  lemma LongLineDependsOnCut(cb: Callbacks, boundary: string, val: string)
    requires ReadsLines(cb) && AllB(val) && |LineA(val)| >= HEADER_MAX_LENGTH
    ensures Parse(cb, Init(boundary), LongForm(boundary, val)).ok
    ensures exists pieces :: Concat(pieces) == LongForm(boundary, val) && !ReadAll(cb, Init(boundary), pieces).ok
                             && !ParseAll(cb, Init(boundary), pieces).ok
  {
    LongFormAccepted(cb, boundary, val);
    var pieces := LongRefused(cb, Init(boundary), LongForm(boundary, val));
    RefusedAnyway(cb, Init(boundary), pieces);
  }

  // ---- and with the bytes behind the closing boundary ----

  /** What stands behind the closing boundary of the bytes `s`. */
  function Behind(boundary: string, phase: Phase, s: string): string
    decreases |s|, if phase == NewEntry then 1 else 0
  {
    if s == "" then ""
    else match phase
      case Opening =>
        var opener := Init(boundary).Opener();
        var pos := Find(s, opener);
        if pos == |s| then "" else Behind(boundary, NewEntry, s[pos + |opener|..])
      case NewEntry => Behind(boundary, HeaderLines, s)
      case HeaderLines =>
        var pos := Find(s, CRLF);
        if pos == |s| then "" else Behind(boundary, if pos == 0 then Body else HeaderLines, s[pos + 2..])
      case Body =>
        var delim := Init(boundary).Delimiter();
        var pos := Find(s, delim);
        if pos == |s| then "" else Behind(boundary, AfterBoundary, s[pos + |delim|..])
      case AfterBoundary =>
        if |s| < 2 then "" else if s[..2] == CRLF then Behind(boundary, NewEntry, s[2..])
        else if s[..2] == "--" then s[2..] else ""
  }

  function BehindOf(p: Parser): string { Behind(p.boundary, p.phase, p.buf) }

  /** What the three states that search look for, and where they go on behind it. */
  function Sought(p: Parser): (pat: string)
    ensures pat != ""
  {
    match p.phase
    case Opening => p.Opener()
    case Body => p.Delimiter()
    case _ => CRLF
  }

  function Onward(phase: Phase, text: string): Phase {
    match phase
    case Opening => NewEntry
    case HeaderLines => if text == "" then Body else HeaderLines
    case _ => AfterBoundary
  }

  predicate Searches(p: Parser) { p.phase in {Opening, HeaderLines, Body} }

  lemma BehindNext(p: Parser, text: string, after: string)
    requires Searches(p) && p.buf == text + Sought(p) + after && Find(p.buf, Sought(p)) == |text|
    ensures BehindOf(p) == Behind(p.boundary, Onward(p.phase, text), after)
  {
    assert p.buf[|text| + |Sought(p)|..] == after;
    assert Init(p.boundary).Opener() == p.Opener() && Init(p.boundary).Delimiter() == p.Delimiter();
  }

  lemma NothingBehind(p: Parser)
    requires Searches(p) && Find(p.buf, Sought(p)) == |p.buf|
    ensures BehindOf(p) == ""
  {
    assert Init(p.boundary).Opener() == p.Opener() && Init(p.boundary).Delimiter() == p.Delimiter();
  }

  /** How a run that is not refused ends: it throws away what stands behind the closing boundary, and then
      nothing is left in the buffer. */
  ghost predicate EndsWith(r: Result, behind: string) {
    r.ok ==> r.epilogue == behind && (behind != "" ==> r.parser.valid)
             && (r.parser.valid ==> r.parser.phase == AfterBoundary && r.parser.buf == "")
  }

  lemma {:induction false} Ends(cb: Callbacks, p: Parser)
    requires !p.valid
    ensures EndsWith(Go(cb, p), BehindOf(p))
    decreases |p.buf|, if p.phase == NewEntry then 2 else 1
  {
    if p.buf != "" {
      match p.phase
      case Opening =>
        if Find(p.buf, p.Opener()) < |p.buf| {
          var before, after := CutAtDelimiter(p.buf, p.Opener());
          OpeningGo(cb, p, before, after);
          BehindNext(p, before, after);
          Ends(cb, p.(phase := NewEntry, buf := after));
        }
      case NewEntry =>
        var q := p.(phase := HeaderLines, file := NoFile);
        if Run(cb, q).ok { EntryOk(cb, q); }
        Ends(cb, q);
      case HeaderLines => HeaderEnds(cb, p);
      case Body => BodyEnds(cb, p);
      case AfterBoundary =>
        if |p.buf| >= 2 && p.buf[..2] == CRLF {
          assert p.buf == CRLF + p.buf[2..];
          BoundaryGo(cb, p, p.buf[2..]);
          Ends(cb, p.(phase := NewEntry, buf := p.buf[2..]));
        }
    }
  }

  lemma {:induction false} HeaderEnds(cb: Callbacks, p: Parser)
    requires !p.valid && p.phase == HeaderLines && p.buf != ""
    ensures EndsWith(Headers(cb, p), BehindOf(p))
    decreases |p.buf|, 0
  {
    if Find(p.buf, CRLF) < |p.buf| {
      var line, after := CutAtDelimiter(p.buf, CRLF);
      BehindNext(p, line, after);
      if line == "" {
        assert p.buf == CRLF + after;
        BlankGo(cb, p, after);
        Ends(cb, p.(phase := Body, buf := after));
      } else {
        var r := cb.line(p.file, line);
        LineStepAt(cb, p, line, after, r);
        Ends(cb, p.(file := r.file, buf := after));
      }
    }
  }

  lemma {:induction false} BodyEnds(cb: Callbacks, p: Parser)
    requires !p.valid && p.phase == Body && p.buf != ""
    ensures EndsWith(Run(cb, p), BehindOf(p))
    decreases |p.buf|, 0
  {
    if Find(p.buf, p.Delimiter()) < |p.buf| {
      var text, after := CutAtDelimiter(p.buf, p.Delimiter());
      BehindNext(p, text, after);
      BodyGo(cb, p, text, after);
      Ends(cb, p.(phase := AfterBoundary, buf := after));
    }
  }

  // ---- one byte less behind the closing boundary ----

  /** Without its last byte the buffer takes the parser to the same state. */
  ghost predicate SameWithout(cb: Callbacks, p: Parser, c: char) {
    Go(cb, p).ok && Go(cb, p).parser == Go(cb, p.Feed([c])).parser
  }

  lemma {:induction false} Truncated(cb: Callbacks, p: Parser, c: char)
    requires !p.valid && Go(cb, p.Feed([c])).ok && BehindOf(p.Feed([c])) != ""
    ensures SameWithout(cb, p, c)
    decreases |p.buf|, if p.phase == NewEntry then 2 else 1
  {
    match p.phase
    case Opening =>
      var before, after := CutShort(p, c);
      OpeningGo(cb, p.Feed([c]), before, after + [c]);
      OpeningGo(cb, p, before, after);
      Truncated(cb, p.(phase := NewEntry, buf := after), c);
    case NewEntry =>
      var q := p.(phase := HeaderLines, file := NoFile);
      EntryOk(cb, q.Feed([c]));
      Truncated(cb, q, c);
      SameEntry(cb, q, c);
    case HeaderLines => HeaderTruncated(cb, p, c);
    case Body =>
      var text, after := CutShort(p, c);
      assert p.Feed([c]).Delimiter() == p.Delimiter();
      BodyGo(cb, p.Feed([c]), text, after + [c]);
      BodyGo(cb, p, text, after);
      Truncated(cb, p.(phase := AfterBoundary, buf := after), c);
    case AfterBoundary => BoundaryTruncated(cb, p, c);
  }

  lemma SameEntry(cb: Callbacks, q: Parser, c: char)
    requires q.phase == HeaderLines && Find(q.Feed([c]).buf, CRLF) <= HEADER_MAX_LENGTH
    requires BehindOf(q.Feed([c])) != ""
    ensures q.buf != "" && Run(cb, q) == Headers(cb, q)
  {
    var line, after := CutShort(q, c);
  }

  lemma {:induction false} HeaderTruncated(cb: Callbacks, p: Parser, c: char)
    requires p.phase == HeaderLines && !p.valid && Headers(cb, p.Feed([c])).ok && BehindOf(p.Feed([c])) != ""
    ensures SameWithout(cb, p, c)
    decreases |p.buf|, 0
  {
    var line, after := CutShort(p, c);
    if line == "" {
      assert p.buf == CRLF + after && p.Feed([c]).buf == CRLF + (after + [c]);
      BlankGo(cb, p.Feed([c]), after + [c]);
      BlankGo(cb, p, after);
      Truncated(cb, p.(phase := Body, buf := after), c);
    } else {
      var r := cb.line(p.file, line);
      LineStepAt(cb, p.Feed([c]), line, after + [c], r);
      LineStepAt(cb, p, line, after, r);
      Truncated(cb, p.(file := r.file, buf := after), c);
    }
  }

  lemma BehindPair(boundary: string, s: string)
    ensures |s| <= 2 ==> Behind(boundary, AfterBoundary, s) == ""
  {
    if |s| == 2 {
      assert s[2..] == "";
      assert Behind(boundary, NewEntry, "") == "";
    }
  }

  lemma {:induction false} BoundaryTruncated(cb: Callbacks, p: Parser, c: char)
    requires p.phase == AfterBoundary && !p.valid && Run(cb, p.Feed([c])).ok && BehindOf(p.Feed([c])) != ""
    ensures SameWithout(cb, p, c)
    decreases |p.buf|, 0
  {
    BehindPair(p.boundary, p.buf + [c]);
    var after := p.buf[2..];
    assert p.buf == p.buf[..2] + after && (p.buf + [c])[..2] == p.buf[..2] && (p.buf + [c])[2..] == after + [c];
    if p.buf[..2] == CRLF {
      assert p.Feed([c]).buf == CRLF + (after + [c]);
      BoundaryGo(cb, p.Feed([c]), after + [c]);
      BoundaryGo(cb, p, after);
      Truncated(cb, p.(phase := NewEntry, buf := after), c);
    }
  }

  /** What is searched for is found in the shorter buffer as well. */
  lemma CutShort(p: Parser, c: char) returns (text: string, after: string)
    requires Searches(p) && BehindOf(p.Feed([c])) != ""
    ensures p.buf == text + Sought(p) + after && Find(p.buf, Sought(p)) == |text| == Find(p.buf + [c], Sought(p))
    ensures p.buf + [c] == text + Sought(p) + (after + [c])
    ensures Behind(p.boundary, Onward(p.phase, text), after + [c]) == BehindOf(p.Feed([c]))
  {
    var w, pat := p.Feed([c]), Sought(p);
    assert Sought(w) == pat;
    if Find(w.buf, pat) == |w.buf| { NothingBehind(w); }
    var behind: string;
    text, behind := CutAtDelimiter(w.buf, pat);
    BehindNext(w, text, behind);
    after := OffLast(text + pat, behind, p.buf, c);
    FindKept(text, pat, after, c);
    Associative(text + pat, after, [c]);
  }

  lemma OffLast(head: string, behind: string, buf: string, c: char) returns (after: string)
    requires buf + [c] == head + behind && behind != ""
    ensures behind == after + [c] && buf == head + after
  {
    var d := behind[|behind| - 1];
    after := behind[..|behind| - 1];
    assert behind == after + [d];
    Associative(head, after, [d]);
    SameLast(buf, c, head + after, d);
  }

  lemma SameLast(a: string, x: char, b: string, y: char)
    requires a + [x] == b + [y]
    ensures a == b && x == y
  {
    assert |a + [x]| == |b + [y]|;
    assert a == (a + [x])[..|a|] && b == (b + [y])[..|a|];
    assert (a + [x])[|a|] == x && (b + [y])[|a|] == y;
  }

  lemma FindKept(text: string, pat: string, after: string, c: char)
    requires pat != "" && Find(text + pat + (after + [c]), pat) == |text|
    ensures Find(text + pat + after, pat) == |text|
  {
    Associative(text + pat, after, [c]);
    FindAppend(text + pat + after, [c], pat);
    assert (text + pat + after)[|text|..|text| + |pat|] == pat;
    assert OccursAt(text + pat + after, pat, |text|);
  }

  // ---- the theorem, for every call of `parse` ----

  /** The same answer, the same state, the same report. */
  predicate SameEnd(c: Result, w: Result) {
    c.ok == w.ok && c.parser == w.parser && Summarise(c.events) == Summarise(w.events)
  }

  lemma {:induction false} RefusedAnyway(cb: Callbacks, p: Parser, pieces: seq<string>)
    requires !ReadAll(cb, p, pieces).ok
    ensures !ParseAll(cb, p, pieces).ok
    decreases |pieces|
  {
    if Parse(cb, p, pieces[0]).ok { RefusedAnyway(cb, Parse(cb, p, pieces[0]).parser, pieces[1..]); }
  }

  lemma {:induction false} NothingLeft(cb: Callbacks, p: Parser, pieces: seq<string>)
    requires p.buf == "" && Concat(pieces) == ""
    ensures ParseAll(cb, p, pieces) == Wait(p, [])
    decreases |pieces|
  {
    if pieces != [] {
      assert pieces[0] == "" && Concat(pieces[1..]) == "";
      assert p.Feed("") == p;
      NothingLeft(cb, p, pieces[1..]);
    }
  }

  /** With nothing behind the closing boundary, reading up to it is reading to the end. */
  lemma {:induction false} ReadToEnd(cb: Callbacks, p: Parser, pieces: seq<string>)
    requires !p.valid && ReadAll(cb, p, pieces).ok && ReadAll(cb, p, pieces).epilogue == ""
    ensures SameEnd(ParseAll(cb, p, pieces), ReadAll(cb, p, pieces))
    decreases |pieces|
  {
    if pieces != [] {
      var r, rest := Parse(cb, p, pieces[0]), pieces[1..];
      if r.parser.valid {
        EndsRun(cb, p.Feed(pieces[0]));
        NothingLeft(cb, r.parser, rest);
        assert r.events + [] == r.events;
      } else {
        ReadToEnd(cb, r.parser, rest);
        SummarisePrefix(r.events, ParseAll(cb, r.parser, rest).events, ReadAll(cb, r.parser, rest).events);
      }
    }
  }

  lemma EndsRun(cb: Callbacks, p: Parser)
    requires !p.valid && Run(cb, p).ok
    ensures EndsWith(Run(cb, p), BehindOf(p))
  {
    if p.phase == HeaderLines && p.buf != "" { EntryOk(cb, p); }
    Ends(cb, p);
  }

  /** A byte behind the closing boundary, in a piece of its own, stays in the buffer. */
  lemma LastApart(cb: Callbacks, p: Parser, s: string, c: char)
    requires !p.valid && p.buf == "" && Parse(cb, p, s + [c]).ok && Behind(p.boundary, p.phase, s + [c]) != ""
    ensures !SameEnd(ParseAll(cb, p, [s, [c]]), Parse(cb, p, s + [c]))
  {
    var q := p.(buf := s);
    assert p == p.(buf := "") && q.Feed([c]) == p.(buf := s + [c]);
    FedAlone(cb, p, s);
    FedAlone(cb, p, s + [c]);
    GoFrom(cb, q.Feed([c]));
    Truncated(cb, q, c);
    EndsRun(cb, q.Feed([c]));
    if p.phase == HeaderLines {
      EntryOk(cb, q.Feed([c]));
      SameEntry(cb, q, c);
    }
    StaysBuffered(cb, p, s, c);
  }

  lemma StaysBuffered(cb: Callbacks, p: Parser, s: string, c: char)
    requires var r := Parse(cb, p, s); r.ok && r.parser.phase == AfterBoundary && r.parser.buf == ""
    ensures ParseAll(cb, p, [s, [c]]).parser.buf == [c]
  {
    var t := Parse(cb, p, s).parser;
    assert [s, [c]][1..] == [[c]];
    ParseOne(cb, t, [c]);
    assert t.Feed([c]).buf == [c];
  }

  /** For a stream accepted in one piece, every cutting gives the same answer, the same state and the same
      report exactly when every header line in it is shorter than the limit and nothing stands behind the
      closing boundary. */
  lemma SameForEveryCut(cb: Callbacks, p: Parser, s: string)
    requires AcceptsContent(cb) && !p.valid && p.buf == "" && Parse(cb, p, s).ok
    ensures (forall pieces | Concat(pieces) == s :: SameEnd(ParseAll(cb, p, pieces), Parse(cb, p, s)))
            <==> AllShort(HeaderLinesIn(p.boundary, p.phase, s)) && Behind(p.boundary, p.phase, s) == ""
  {
    if Behind(p.boundary, p.phase, s) != "" {
      var k := |s| - 1;
      assert s == s[..k] + [s[k]];
      LastApart(cb, p, s[..k], s[k]);
      Pair(s[..k], [s[k]]);
    } else if AllShort(HeaderLinesIn(p.boundary, p.phase, s)) {
      forall pieces | Concat(pieces) == s ensures SameEnd(ParseAll(cb, p, pieces), Parse(cb, p, s)) {
        EveryCut(cb, p, pieces);
      }
    } else {
      var pieces := LongRefused(cb, p, s);
      RefusedAnyway(cb, p, pieces);
    }
  }

  lemma EveryCut(cb: Callbacks, p: Parser, pieces: seq<string>)
    requires AcceptsContent(cb) && !p.valid && p.buf == "" && Parse(cb, p, Concat(pieces)).ok
    requires AllShort(HeaderLinesIn(p.boundary, p.phase, Concat(pieces)))
    requires Behind(p.boundary, p.phase, Concat(pieces)) == ""
    ensures SameEnd(ParseAll(cb, p, pieces), Parse(cb, p, Concat(pieces)))
  {
    var s := Concat(pieces);
    CutIndependence(cb, p, s);
    assert SameReading(ReadAll(cb, p, pieces), Parse(cb, p, s));
    FedAlone(cb, p, s);
    assert p == p.(buf := "");
    EndsRun(cb, p.(buf := s));
    ReadToEnd(cb, p, pieces);
  }

  // ---- a stream refused in one piece ----

  /** Going on from the run on the buffer with `b` is refused, if the run itself is not. */
  ghost predicate RefusedOn(cb: Callbacks, r: Result, b: string) {
    r.ok ==> !r.parser.valid && !Parse(cb, r.parser, b).ok
  }

  lemma {:induction false} RefusedSplit(cb: Callbacks, p: Parser, b: string)
    requires AcceptsContent(cb) && !p.valid && !Parse(cb, p, b).ok
    ensures RefusedOn(cb, Run(cb, p), b)
    decreases |p.buf|, if p.phase == NewEntry then 3 else 2
  {
    if p.buf != "" {
      match p.phase
      case Opening => OpeningRefused(cb, p, b);
      case NewEntry =>
        assert p.Feed(b).(phase := HeaderLines, file := NoFile) == p.(phase := HeaderLines, file := NoFile).Feed(b);
        RefusedSplit(cb, p.(phase := HeaderLines, file := NoFile), b);
      case HeaderLines => EntryRefused(cb, p, b);
      case Body => BodyRefused(cb, p, b);
      case AfterBoundary => BoundaryRefused(cb, p, b);
    }
  }

  lemma {:induction false} OpeningRefused(cb: Callbacks, p: Parser, b: string)
    requires AcceptsContent(cb) && !p.valid && p.phase == Opening && p.buf != "" && !Parse(cb, p, b).ok
    ensures RefusedOn(cb, Run(cb, p), b)
    decreases |p.buf|, 0
  {
    if Find(p.buf, p.Opener()) < |p.buf| {
      var before, after := CutAtDelimiter(p.buf, p.Opener());
      FindAppend(p.buf, b, p.Opener());
      Associative(before + p.Opener(), after, b);
      OpeningStep(cb, p, before, after);
      OpeningStep(cb, p.Feed(b), before, after + b);
      RefusedSplit(cb, p.(phase := NewEntry, buf := after), b);
    }
  }

  lemma {:induction false} EntryRefused(cb: Callbacks, p: Parser, b: string)
    requires AcceptsContent(cb) && !p.valid && p.phase == HeaderLines && p.buf != "" && !Parse(cb, p, b).ok
    ensures RefusedOn(cb, Run(cb, p), b)
    decreases |p.buf|, 1
  {
    var pos := Find(p.buf, CRLF);
    FindAppend(p.buf, b, CRLF);
    if pos < |p.buf| && pos <= HEADER_MAX_LENGTH {
      ShortEntry(cb, p);
      ShortEntry(cb, p.Feed(b));
      HeadersRefused(cb, p, b);
    }
  }

  lemma ShortEntry(cb: Callbacks, p: Parser)
    requires p.phase == HeaderLines && p.buf != "" && Find(p.buf, CRLF) <= HEADER_MAX_LENGTH
    ensures Run(cb, p) == Headers(cb, p)
  {}

  lemma {:induction false} HeadersRefused(cb: Callbacks, p: Parser, b: string)
    requires AcceptsContent(cb) && !p.valid && p.phase == HeaderLines && !Headers(cb, p.Feed(b)).ok
    ensures RefusedOn(cb, Headers(cb, p), b)
    decreases |p.buf|, 0
  {
    if Find(p.buf, CRLF) < |p.buf| {
      var line, after := CutAtDelimiter(p.buf, CRLF);
      FindAppend(p.buf, b, CRLF);
      Associative(line + CRLF, after, b);
      if line == "" {
        assert p.buf == CRLF + after && p.Feed(b).buf == CRLF + (after + b);
        BlankGo(cb, p, after);
        BlankGo(cb, p.Feed(b), after + b);
        if cb.header(p.file) { RefusedSplit(cb, p.(phase := Body, buf := after), b); }
      } else {
        var r := cb.line(p.file, line);
        LineStepAt(cb, p, line, after, r);
        LineStepAt(cb, p.Feed(b), line, after + b, r);
        if r.ok { HeadersRefused(cb, p.(file := r.file, buf := after), b); }
      }
    }
  }

  lemma {:induction false} BodyRefused(cb: Callbacks, p: Parser, b: string)
    requires AcceptsContent(cb) && !p.valid && p.phase == Body && p.buf != "" && !Parse(cb, p, b).ok
    ensures RefusedOn(cb, Run(cb, p), b)
    decreases |p.buf|, 0
  {
    var delim := p.Delimiter();
    if Find(p.buf, delim) < |p.buf| {
      var text, after := CutAtDelimiter(p.buf, delim);
      FindAppend(p.buf, b, delim);
      Associative(text + delim, after, b);
      assert p.Feed(b).Delimiter() == delim;
      BodyGo(cb, p, text, after);
      BodyGo(cb, p.Feed(b), text, after + b);
      RefusedSplit(cb, p.(phase := AfterBoundary, buf := after), b);
    } else {
      BodyMissing(cb, p);
      if |p.buf| > |delim| { HeldBack(cb, p, b); }
    }
  }

  lemma {:induction false} BoundaryRefused(cb: Callbacks, p: Parser, b: string)
    requires AcceptsContent(cb) && !p.valid && p.phase == AfterBoundary && p.buf != "" && !Parse(cb, p, b).ok
    ensures RefusedOn(cb, Run(cb, p), b)
    decreases |p.buf|, 0
  {
    if |p.buf| >= 2 {
      var after := p.buf[2..];
      assert p.buf == p.buf[..2] + after && (p.buf + b)[..2] == p.buf[..2];
      if p.buf[..2] == CRLF {
        assert p.Feed(b).buf == CRLF + (after + b);
        BoundaryGo(cb, p, after);
        BoundaryGo(cb, p.Feed(b), after + b);
        RefusedSplit(cb, p.(phase := NewEntry, buf := after), b);
      }
    }
  }

  /** With a content callback that accepts, a stream refused in one piece is refused in every cutting,
      however long its header lines are. */
  lemma {:induction false} RefusedEveryCut(cb: Callbacks, p: Parser, pieces: seq<string>)
    requires AcceptsContent(cb) && !p.valid && pieces != [] && !Parse(cb, p, Concat(pieces)).ok
    ensures !ReadAll(cb, p, pieces).ok && !ParseAll(cb, p, pieces).ok
    decreases |pieces|
  {
    var a, rest := pieces[0], pieces[1..];
    if rest == [] {
      assert Concat(pieces) == a + Concat([]) == a;
    } else if Parse(cb, p, a).ok {
      Associative(p.buf, a, Concat(rest));
      assert p.Feed(a).Feed(Concat(rest)) == p.Feed(Concat(pieces));
      RefusedSplit(cb, p.Feed(a), Concat(rest));
      RefusedEveryCut(cb, Parse(cb, p, a).parser, rest);
    }
  }

  /** For any stream: every cutting gets the answer the whole gets exactly when the whole is refused or every
      header line in it is shorter than the limit. */
  lemma SameAnswer(cb: Callbacks, p: Parser, s: string)
    requires AcceptsContent(cb) && !p.valid && p.buf == ""
    ensures (forall pieces | Concat(pieces) == s :: ReadAll(cb, p, pieces).ok == Parse(cb, p, s).ok)
            <==> !Parse(cb, p, s).ok || AllShort(HeaderLinesIn(p.boundary, p.phase, s))
  {
    if !Parse(cb, p, s).ok {
      FedAlone(cb, p, s);
      assert p == p.(buf := "");
      forall pieces | Concat(pieces) == s ensures !ReadAll(cb, p, pieces).ok {
        assert s != "";
        RefusedEveryCut(cb, p, pieces);
      }
    } else if AllShort(HeaderLinesIn(p.boundary, p.phase, s)) {
      CutIndependence(cb, p, s);
      forall pieces | Concat(pieces) == s ensures ReadAll(cb, p, pieces).ok {
        assert SameReading(ReadAll(cb, p, pieces), Parse(cb, p, s));
      }
    } else {
      var pieces := LongRefused(cb, p, s);
    }
  }
}
