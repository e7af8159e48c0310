/** How the bytes are cut into `parse` calls makes no difference. */
module FormSplit {
  import opened Limits
  import opened Text
  import opened FormData

  ghost predicate AcceptsContent(cb: Callbacks) { forall d :: cb.content(d) }

  /** `r` is the run on the buffer alone, `w` the run with `b` already appended to it:
      going on from `r` with `b` amounts to `w`. */
  ghost predicate Agrees(cb: Callbacks, r: Result, w: Result, b: string) {
    if !r.ok then !w.ok && w.events == r.events
    else if r.parser.valid then
      w == r.(epilogue := r.epilogue + b, widest := w.widest)
    else
      var c := Parse(cb, r.parser, b);
      && c.ok == w.ok && c.parser == w.parser && c.epilogue == w.epilogue
      && c.widest <= w.widest
      && Summarise(r.events + c.events) == Summarise(w.events)
  }

  lemma AgreesAfter(cb: Callbacks, r: Result, w: Result, b: string, before: seq<Event>, k: nat, l: nat)
    requires Agrees(cb, r, w, b)
    ensures Agrees(cb, r.After(before, k), w.After(before, l), b)
  {
    if r.ok && !r.parser.valid {
      var c := Parse(cb, r.parser, b);
      SummarisePrefix(before, r.events + c.events, w.events);
      Associative(before, r.events, c.events);
    }
  }

  /** Waiting without having consumed or reported anything always agrees. */
  lemma AgreesWait(cb: Callbacks, p: Parser, b: string, width: nat)
    requires !p.valid
    ensures Agrees(cb, Wait(p, []).After([], width), Parse(cb, p, b), b)
  {
    var c := Parse(cb, p, b);
    assert [] + c.events == c.events;
  }

  lemma DropFeed(p: Parser, b: string, n: nat)
    requires n <= |p.buf|
    ensures p.Feed(b).Drop(n) == p.Drop(n).Feed(b)
  {
    assert (p.buf + b)[n..] == p.buf[n..] + b;
  }

  lemma {:induction false} RunSplit(cb: Callbacks, p: Parser, b: string)
    requires AcceptsContent(cb) && !p.valid
    requires Parse(cb, p, b).widest < HEADER_MAX_LENGTH
    ensures Agrees(cb, Run(cb, p), Parse(cb, p, b), b)
    decreases |p.buf|, if p.phase == NewEntry then 3 else 2
  {
    if p.buf == "" {
      AgreesWait(cb, p, b, 0);
    } else {
      match p.phase
      case Opening => OpeningSplit(cb, p, b);
      case NewEntry =>
        assert p.Feed(b).(phase := HeaderLines, file := NoFile) == p.(phase := HeaderLines, file := NoFile).Feed(b);
        RunSplit(cb, p.(phase := HeaderLines, file := NoFile), b);
      case HeaderLines =>
        FindAppend(p.buf, b, CRLF);
        HeadersSplit(cb, p, b);
      case Body => BodySplit(cb, p, b);
      case AfterBoundary => BoundarySplit(cb, p, b);
    }
  }

  lemma {:induction false} OpeningSplit(cb: Callbacks, p: Parser, b: string)
    requires AcceptsContent(cb) && !p.valid && p.phase == Opening && p.buf != ""
    requires Parse(cb, p, b).widest < HEADER_MAX_LENGTH
    ensures Agrees(cb, Run(cb, p), Parse(cb, p, b), b)
    decreases |p.buf|, 0
  {
    if Find(p.buf, p.Opener()) == |p.buf| {
      AgreesWait(cb, p, b, 0);
    } else {
      var before, after := CutAtDelimiter(p.buf, p.Opener());
      FindAppend(p.buf, b, p.Opener());
      Associative(before + p.Opener(), after, b);
      OpeningStep(cb, p, before, after);
      OpeningStep(cb, p.Feed(b), before, after + b);
      RunSplit(cb, p.(phase := NewEntry, buf := after), b);
    }
  }

  lemma OpeningStep(cb: Callbacks, p: Parser, before: string, after: string)
    requires p.phase == Opening && p.buf == before + p.Opener() + after && Find(p.buf, p.Opener()) == |before|
    ensures Run(cb, p) == Run(cb, p.(phase := NewEntry, buf := after))
  {
    assert p.buf[|before| + |p.Opener()|..] == after;
  }

  lemma {:induction false} BoundarySplit(cb: Callbacks, p: Parser, b: string)
    requires AcceptsContent(cb) && !p.valid && p.phase == AfterBoundary && p.buf != ""
    requires Parse(cb, p, b).widest < HEADER_MAX_LENGTH
    ensures Agrees(cb, Run(cb, p), Parse(cb, p, b), b)
    decreases |p.buf|, 0
  {
    if |p.buf| >= 2 {
      assert (p.buf + b)[..2] == p.buf[..2];
      DropFeed(p, b, 2);
    }
    if |p.buf| >= 2 && p.buf[..2] == CRLF {
      RunSplit(cb, p.Drop(2).(phase := NewEntry), b);
    } else if |p.buf| >= 2 && p.buf[..2] == "--" {
      assert (p.buf + b)[2..] == p.buf[2..] + b;
    } else {
      AgreesWait(cb, p, b, 0);
    }
  }

  lemma {:induction false} HeadersSplit(cb: Callbacks, p: Parser, b: string)
    requires AcceptsContent(cb) && !p.valid && p.phase == HeaderLines
    requires Headers(cb, p.Feed(b)).widest < HEADER_MAX_LENGTH
    ensures Agrees(cb, Headers(cb, p), Headers(cb, p.Feed(b)), b)
    decreases |p.buf|, 1
  {
    var pos := Find(p.buf, CRLF);
    if pos == |p.buf| {
      HeadersAsRun(cb, p.Feed(b));
      AgreesWait(cb, p, b, if pos == 0 then 0 else pos - 1);
    } else {
      FindAppend(p.buf, b, CRLF);
      if pos == 0 { BlankSplit(cb, p, b); } else { LineSplit(cb, p, b); }
    }
  }

  lemma {:induction false} BlankSplit(cb: Callbacks, p: Parser, b: string)
    requires AcceptsContent(cb) && !p.valid && p.phase == HeaderLines
    requires Find(p.buf, CRLF) == Find(p.buf + b, CRLF) == 0 < |p.buf|
    requires Headers(cb, p.Feed(b)).widest < HEADER_MAX_LENGTH
    ensures Agrees(cb, Headers(cb, p), Headers(cb, p.Feed(b)), b)
    decreases |p.buf|, 0
  {
    DropFeed(p, b, 2);
    if cb.header(p.file) {
      var next := p.Drop(2).(phase := Body);
      assert p.Feed(b).Drop(2).(phase := Body) == next.Feed(b);
      RunSplit(cb, next, b);
      AgreesAfter(cb, Run(cb, next), Run(cb, next.Feed(b)), b, [Header(p.file)], 0, 0);
    }
  }

  /** One header line done: the rest is another round of the inner loop, or a refusal. */
  lemma LineStep(cb: Callbacks, p: Parser, line: string, r: LineResult)
    requires p.phase == HeaderLines && 0 < |line| == Find(p.buf, CRLF) < |p.buf|
    requires line == p.buf[..|line|] && r == cb.line(p.file, line)
    ensures |line| + 2 <= |p.buf|
    ensures Headers(cb, p) == if r.ok then Headers(cb, p.Drop(|line| + 2).(file := r.file)).After([], |line|)
                              else Stop(p.(valid := false, file := r.file), []).After([], |line|)
  {
    assert OccursAt(p.buf, CRLF, |line|);
    if r.ok { LineAccepted(cb, p, |line|); } else { LineRefused(cb, p, |line|); }
  }

  lemma LineAccepted(cb: Callbacks, p: Parser, pos: nat)
    requires 0 < pos == Find(p.buf, CRLF) && pos + 2 <= |p.buf| && cb.line(p.file, p.buf[..pos]).ok
    ensures Headers(cb, p) == Headers(cb, p.Drop(pos + 2).(file := cb.line(p.file, p.buf[..pos]).file)).After([], pos)
  {}

  lemma LineRefused(cb: Callbacks, p: Parser, pos: nat)
    requires 0 < pos == Find(p.buf, CRLF) && pos + 2 <= |p.buf| && !cb.line(p.file, p.buf[..pos]).ok
    ensures Headers(cb, p) == Stop(p.(valid := false, file := cb.line(p.file, p.buf[..pos]).file), []).After([], pos)
  {}

  lemma {:induction false} LineSplit(cb: Callbacks, p: Parser, b: string)
    requires AcceptsContent(cb) && !p.valid && p.phase == HeaderLines
    requires 0 < Find(p.buf, CRLF) == Find(p.buf + b, CRLF) < |p.buf|
    requires Headers(cb, p.Feed(b)).widest < HEADER_MAX_LENGTH
    ensures Agrees(cb, Headers(cb, p), Headers(cb, p.Feed(b)), b)
    decreases |p.buf|, 0
  {
    var line, rest := CutAtDelimiter(p.buf, CRLF);
    var r := cb.line(p.file, line);
    Associative(line + CRLF, rest, b);
    LineStepAt(cb, p, line, rest, r);
    LineStepAt(cb, p.Feed(b), line, rest + b, r);
    if r.ok {
      var next := p.(file := r.file, buf := rest);
      HeadersSplit(cb, next, b);
      AgreesAfter(cb, Headers(cb, next), Headers(cb, next.Feed(b)), b, [], |line|, |line|);
    }
  }

  lemma LineStepAt(cb: Callbacks, p: Parser, line: string, rest: string, r: LineResult)
    requires p.phase == HeaderLines && p.buf == line + CRLF + rest && 0 < |line| == Find(p.buf, CRLF)
    requires r == cb.line(p.file, line)
    ensures Headers(cb, p) == if r.ok then Headers(cb, p.(file := r.file, buf := rest)).After([], |line|)
                              else Stop(p.(valid := false, file := r.file), []).After([], |line|)
  {
    assert p.buf[..|line|] == line && p.buf[|line| + 2..] == rest;
    LineStep(cb, p, line, r);
    assert p.Drop(|line| + 2).(file := r.file) == p.(file := r.file, buf := rest);
  }

  /** With short lines the limit that state 2 tests on entry changes nothing. */
  lemma HeadersAsRun(cb: Callbacks, q: Parser)
    requires q.phase == HeaderLines
    requires Headers(cb, q).widest < HEADER_MAX_LENGTH
    ensures Run(cb, q).(widest := 0) == Headers(cb, q).(widest := 0) && Run(cb, q).widest <= Headers(cb, q).widest
  {}

  /** The body state when the first delimiter in the buffer stands between `text` and `after`. */
  lemma BodyFound(cb: Callbacks, p: Parser, text: string, after: string)
    requires AcceptsContent(cb) && p.phase == Body
    requires p.buf == text + p.Delimiter() + after && Find(p.buf, p.Delimiter()) == |text|
    ensures Run(cb, p) == Run(cb, p.(phase := AfterBoundary, buf := after)).After([Content(text)], 0)
  {
    var n := |text| + |p.Delimiter()|;
    assert p.buf[..|text|] == text && p.buf[n..] == after;
    assert p.Drop(n).(phase := AfterBoundary) == p.(phase := AfterBoundary, buf := after);
    assert Run(cb, p) == BodyStep(cb, p);
  }

  lemma CutAtDelimiter(buf: string, delim: string) returns (text: string, after: string)
    requires |delim| > 0 && Find(buf, delim) < |buf|
    ensures buf == text + delim + after && |text| == Find(buf, delim)
  {
    var pos := Find(buf, delim);
    text, after := buf[..pos], buf[pos + |delim|..];
    assert buf[pos..pos + |delim|] == delim;
  }

  lemma BodyMissing(cb: Callbacks, p: Parser)
    requires AcceptsContent(cb) && p.phase == Body
    requires Find(p.buf, p.Delimiter()) == |p.buf|
    ensures var len := |p.buf| - |p.Delimiter()|;
            Run(cb, p) == if len <= 0 then Wait(p, []) else Wait(p.Drop(len), [Content(p.buf[..len])])
  {}

  lemma {:induction false} BodySplit(cb: Callbacks, p: Parser, b: string)
    requires AcceptsContent(cb) && !p.valid && p.phase == Body && p.buf != ""
    requires Parse(cb, p, b).widest < HEADER_MAX_LENGTH
    ensures Agrees(cb, Run(cb, p), Parse(cb, p, b), b)
    decreases |p.buf|, 1
  {
    var delim := p.Delimiter();
    if Find(p.buf, delim) < |p.buf| {
      var text, after := CutAtDelimiter(p.buf, delim);
      FoundSplit(cb, p, b, text, after);
    } else {
      BodyMissing(cb, p);
      if |p.buf| <= |delim| {
        AgreesWait(cb, p, b, 0);
      } else {
        HeldBack(cb, p, b);
      }
    }
  }

  lemma {:induction false} FoundSplit(cb: Callbacks, p: Parser, b: string, text: string, after: string)
    requires AcceptsContent(cb) && !p.valid && p.phase == Body
    requires p.buf == text + p.Delimiter() + after && Find(p.buf, p.Delimiter()) == |text|
    requires Parse(cb, p, b).widest < HEADER_MAX_LENGTH
    ensures Agrees(cb, Run(cb, p), Parse(cb, p, b), b)
    decreases |p.buf|, 0
  {
    var q, next := p.Feed(b), p.(phase := AfterBoundary, buf := after);
    FindAppend(p.buf, b, p.Delimiter());
    assert q.Delimiter() == p.Delimiter();
    Associative(text + p.Delimiter(), after, b);
    BodyFound(cb, p, text, after);
    BodyFound(cb, q, text, after + b);
    assert q.(phase := AfterBoundary, buf := after + b) == next.Feed(b);
    RunSplit(cb, next, b);
    AgreesAfter(cb, Run(cb, next), Run(cb, next.Feed(b)), b, [Content(text)], 0, 0);
  }

  /** Content handed on early, a delimiter's length held back: nothing is lost, nothing leaks. */
  lemma HeldBack(cb: Callbacks, p: Parser, b: string)
    requires AcceptsContent(cb) && !p.valid && p.phase == Body
    requires |p.buf| > |p.Delimiter()| && Find(p.buf, p.Delimiter()) == |p.buf|
    ensures Agrees(cb, Run(cb, p), Parse(cb, p, b), b)
  {
    var delim := p.Delimiter();
    var len := |p.buf| - |delim|;
    var early := p.buf[..len];
    var q, held := p.Feed(b), p.Drop(len);
    FindAppend(p.buf, b, delim);
    DropFeed(p, b, len);
    BodyMissing(cb, p);
    assert q.Delimiter() == delim && held.Feed(b).Delimiter() == delim;
    Later(cb, q, len);
    assert early == q.buf[..len];
  }

  /** The same body seen whole and seen after `len` content bytes were handed on. */
  lemma Later(cb: Callbacks, q: Parser, len: nat)
    requires AcceptsContent(cb) && q.phase == Body
    requires len <= |q.buf| - |q.Delimiter()| && len <= Find(q.buf, q.Delimiter())
    ensures SameLater(Run(cb, q.Drop(len)), Run(cb, q), q.buf[..len])
  {
    FindDrop(q.buf, q.Delimiter(), len);
    if Find(q.buf, q.Delimiter()) < |q.buf| {
      var late, after := CutFound(q.buf, q.Delimiter(), len);
      LaterFound(cb, q, q.Drop(len), q.buf[..len], late, after);
    } else {
      var late, held := CutMissing(q.buf, q.Delimiter(), len);
      LaterWait(cb, q, q.Drop(len), q.buf[..len], late, held);
    }
  }

  lemma CutFound(buf: string, delim: string, len: nat) returns (late: string, after: string)
    requires |delim| > 0 && len <= Find(buf, delim) < |buf|
    ensures buf == buf[..len] + late + delim + after && |late| == Find(buf, delim) - len
  {
    var text: string;
    text, after := CutAtDelimiter(buf, delim);
    late := text[len..];
    assert buf[..len] == text[..len] && text == text[..len] + late;
  }

  lemma CutMissing(buf: string, delim: string, len: nat) returns (late: string, held: string)
    requires len + |delim| <= |buf|
    ensures buf == buf[..len] + late + held && |held| == |delim|
  {
    var total := |buf| - |delim|;
    late, held := buf[len..total], buf[total..];
  }

  lemma BodyHeld(cb: Callbacks, p: Parser, text: string, held: string)
    requires AcceptsContent(cb) && p.phase == Body && |held| == |p.Delimiter()|
    requires p.buf == text + held && Find(p.buf, p.Delimiter()) == |p.buf|
    ensures Run(cb, p) == Wait(p.(buf := held), if text == "" then [] else [Content(text)])
  {
    BodyMissing(cb, p);
    assert p.buf[..|text|] == text && p.buf[|text|..] == held;
    assert text == "" ==> p.buf == held;
  }

  lemma LaterWait(cb: Callbacks, q: Parser, tail: Parser, early: string, late: string, held: string)
    requires AcceptsContent(cb) && q.phase == Body && |held| == |q.Delimiter()|
    requires q.buf == early + late + held && tail == q.Drop(|early|)
    requires Find(q.buf, q.Delimiter()) == |q.buf| && Find(tail.buf, q.Delimiter()) == |tail.buf|
    ensures SameLater(Run(cb, tail), Run(cb, q), early)
  {
    assert tail.Delimiter() == q.Delimiter();
    assert tail.buf == late + held;
    BodyHeld(cb, q, early + late, held);
    BodyHeld(cb, tail, late, held);
    LaterEvents(early, late);
  }

  lemma LaterEvents(early: string, late: string)
    ensures Summarise([Content(early)] + (if late == "" then [] else [Content(late)]))
            == Summarise(if early + late == "" then [] else [Content(early + late)])
  {
    Merged(early, late, []);
    SummariseContent(early, []);
    SummariseContent(early + late, []);
    assert [Content(late)] + [] == [Content(late)];
    assert [Content(early)] + [] == [Content(early)];
    assert [Content(early + late)] + [] == [Content(early + late)];
    assert late == "" ==> early + late == early;
  }

  ghost predicate SameLater(c: Result, w: Result, early: string) {
    c.(events := []) == w.(events := []) && Summarise([Content(early)] + c.events) == Summarise(w.events)
  }

  lemma LaterFound(cb: Callbacks, q: Parser, tail: Parser, early: string, late: string, after: string)
    requires AcceptsContent(cb) && q.phase == Body && |early| <= |q.buf| && tail == q.Drop(|early|)
    requires q.buf == early + late + q.Delimiter() + after && Find(q.buf, q.Delimiter()) == |early + late|
    requires Find(tail.buf, q.Delimiter()) == |late|
    ensures SameLater(Run(cb, tail), Run(cb, q), early)
  {
    assert tail.Delimiter() == q.Delimiter();
    assert tail.buf == late + q.Delimiter() + after;
    BodyFound(cb, q, early + late, after);
    BodyFound(cb, tail, late, after);
    var next := q.(phase := AfterBoundary, buf := after);
    assert tail.(phase := AfterBoundary, buf := after) == next;
    Merged(early, late, Run(cb, next).events);
  }

  lemma Merged(a: string, b: string, rest: seq<Event>)
    ensures Summarise([Content(a)] + ([Content(b)] + rest)) == Summarise([Content(a + b)] + rest)
  {
    SummariseContent(a, [Content(b)] + rest);
    SummariseContent(b, rest);
    SummariseContent(a + b, rest);
    Associative(a, b, Summarise(rest).lead);
  }
}
