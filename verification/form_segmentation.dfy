/** The parser reports the same whatever pieces the bytes arrive in. */
module FormSegmentation {
  import opened Limits
  import opened Text
  import opened FormData
  import opened FormSplit

  /** A stream fed in pieces against the same stream fed whole, with header lines under the limit:
      a refusal stays a refusal; otherwise after the first `k` pieces the parser is where the whole
      stream takes it and has reported the same, and only bytes behind the closing boundary are left. */
  lemma {:induction false} Segmentation(cb: Callbacks, p: Parser, pieces: seq<string>) returns (k: nat)
    requires AcceptsContent(cb) && !p.valid && pieces != []
    requires Parse(cb, p, Concat(pieces)).widest < HEADER_MAX_LENGTH
    ensures k <= |pieces|
    ensures var whole, cut := Parse(cb, p, Concat(pieces)), ParseAll(cb, p, pieces[..k]);
            && cut.ok == whole.ok
            && Summarise(cut.events) == Summarise(whole.events)
            && (whole.ok ==> cut.parser == whole.parser && cut.epilogue + Concat(pieces[k..]) == whole.epilogue)
            && (!whole.ok || !whole.parser.valid ==> k == |pieces|)
    decreases |pieces|
  {
    var a, rest := pieces[0], pieces[1..];
    var r, whole := Parse(cb, p, a), Parse(cb, p, Concat(pieces));
    ParseOne(cb, p, a);
    if rest == [] {
      assert Concat(pieces) == a + Concat([]) == a;
      assert pieces[..1] == [a] && pieces[1..] == [];
      return 1;
    }
    Associative(p.buf, a, Concat(rest));
    assert p.Feed(a).Feed(Concat(rest)) == p.Feed(Concat(pieces));
    RunSplit(cb, p.Feed(a), Concat(rest));
    if !r.ok {
      k := |pieces|;
      assert pieces[..k] == pieces;
    } else if r.parser.valid {
      k := 1;
      assert pieces[..1] == [a];
    } else {
      var j := Segmentation(cb, r.parser, rest);
      k := j + 1;
      assert pieces[k..] == rest[j..];
      assert pieces[..k] == [a] + rest[..j];
      NoEpilogue(cb, p.Feed(a));
      ParseCons(cb, p, a, rest[..j]);
      SummarisePrefix(r.events, ParseAll(cb, r.parser, rest[..j]).events, Parse(cb, r.parser, Concat(rest)).events);
    }
  }

  lemma ParseCons(cb: Callbacks, p: Parser, a: string, rest: seq<string>)
    requires Parse(cb, p, a).ok && Parse(cb, p, a).epilogue == ""
    ensures var r := Parse(cb, p, a);
            var more := ParseAll(cb, r.parser, rest);
            ParseAll(cb, p, [a] + rest) == more.After(r.events, r.widest)
  {
    assert ([a] + rest)[1..] == rest;
    var more := ParseAll(cb, Parse(cb, p, a).parser, rest);
    assert "" + more.epilogue == more.epilogue;
  }

  lemma ParseOne(cb: Callbacks, p: Parser, a: string)
    ensures var r := Parse(cb, p, a); ParseAll(cb, p, [a]) == r
  {
    var r := Parse(cb, p, a);
    assert r.events + [] == r.events && r.epilogue + "" == r.epilogue;
    assert [a][1..] == [];
  }

  /** Bytes are thrown away only behind the closing boundary. */
  lemma {:induction false} NoEpilogue(cb: Callbacks, p: Parser)
    requires !p.valid
    ensures var r := Run(cb, p); !r.parser.valid ==> r.epilogue == ""
    decreases |p.buf|, if p.phase == NewEntry then 2 else 1
  {
    if p.buf != "" {
      match p.phase
      case Opening =>
        var pos := Find(p.buf, p.Opener());
        if pos < |p.buf| { NoEpilogue(cb, p.Drop(pos + |p.Opener()|).(phase := NewEntry)); }
      case NewEntry => NoEpilogue(cb, p.(phase := HeaderLines, file := NoFile));
      case HeaderLines => NoEpilogueHeaders(cb, p);
      case Body => NoEpilogueBody(cb, p);
      case AfterBoundary =>
        if |p.buf| >= 2 && p.buf[..2] == CRLF { NoEpilogue(cb, p.Drop(2).(phase := NewEntry)); }
    }
  }

  lemma {:induction false} NoEpilogueBody(cb: Callbacks, p: Parser)
    requires !p.valid && p.phase == Body && p.buf != ""
    ensures var r := BodyStep(cb, p); !r.parser.valid ==> r.epilogue == ""
    decreases |p.buf|, 0
  {
    var pos := Find(p.buf, p.Delimiter());
    if pos < |p.buf| { NoEpilogue(cb, p.Drop(pos + |p.Delimiter()|).(phase := AfterBoundary)); }
  }

  lemma {:induction false} NoEpilogueHeaders(cb: Callbacks, p: Parser)
    requires !p.valid && p.phase == HeaderLines
    ensures var r := Headers(cb, p); !r.parser.valid ==> r.epilogue == ""
    decreases |p.buf|, 0
  {
    var pos := Find(p.buf, CRLF);
    if pos == |p.buf| {
    } else if pos == 0 {
      NoEpilogue(cb, p.Drop(2).(phase := Body));
    } else {
      var line := p.buf[..pos];
      var r := cb.line(p.file, line);
      LineStep(cb, p, line, r);
      if r.ok { NoEpilogueHeaders(cb, p.Drop(pos + 2).(file := r.file)); }
    }
  }

  // ---- the body state on arbitrary bytes ----

  /** Outside the body nothing is reported as content before the next header callback. */
  lemma {:induction false} NoLead(cb: Callbacks, p: Parser)
    requires p.phase != Body
    ensures var r := Run(cb, p); Leadless(r)
    decreases |p.buf|, if p.phase == NewEntry then 2 else 1
  {
    if p.buf != "" {
      match p.phase
      case Opening =>
        var pos := Find(p.buf, p.Opener());
        if pos < |p.buf| { NoLead(cb, p.Drop(pos + |p.Opener()|).(phase := NewEntry)); }
      case NewEntry => NoLead(cb, p.(phase := HeaderLines, file := NoFile));
      case HeaderLines => NoLeadHeaders(cb, p);
      case AfterBoundary =>
        if |p.buf| >= 2 && p.buf[..2] == CRLF { NoLead(cb, p.Drop(2).(phase := NewEntry)); }
    }
  }

  ghost predicate Leadless(r: Result) {
    Summarise(r.events).lead == "" && (r.parser.phase == Body ==> Summarise(r.events).entries != [])
  }

  lemma {:induction false} NoLeadHeaders(cb: Callbacks, p: Parser)
    requires p.phase == HeaderLines
    ensures var r := Headers(cb, p); Leadless(r)
    decreases |p.buf|, 0
  {
    var pos := Find(p.buf, CRLF);
    if pos == |p.buf| {
    } else if pos == 0 {
      if cb.header(p.file) { SummariseHeader(p.file, Run(cb, p.Drop(2).(phase := Body)).events); }
    } else {
      var line := p.buf[..pos];
      var r := cb.line(p.file, line);
      LineStep(cb, p, line, r);
      if r.ok {
        var next := p.Drop(pos + 2).(file := r.file);
        NoLeadHeaders(cb, next);
        assert [] + Headers(cb, next).events == Headers(cb, next).events;
      }
    }
  }

  lemma {:induction false} NoLeadAll(cb: Callbacks, p: Parser, pieces: seq<string>)
    requires p.phase != Body
    ensures Summarise(ParseAll(cb, p, pieces).events).lead == ""
    decreases |pieces|
  {
    if pieces != [] {
      var r := Parse(cb, p, pieces[0]);
      NoLead(cb, p.Feed(pieces[0]));
      if r.ok {
        SummariseJoin(r.events, ParseAll(cb, r.parser, pieces[1..]).events);
        if r.parser.phase != Body { NoLeadAll(cb, r.parser, pieces[1..]); }
      }
    }
  }

  /** The body state on arbitrary bytes, any boundary and any cutting. While no delimiter has arrived,
      content handed on and content still buffered make up what was received; once one has,
      the content handed on is exactly what preceded its first occurrence. */
  lemma {:induction false} BodyNeverLeaks(cb: Callbacks, p: Parser, pieces: seq<string>)
    requires AcceptsContent(cb) && p.phase == Body && !p.valid
    requires !Contains(p.buf, p.Delimiter())
    ensures var s, all := p.buf + Concat(pieces), ParseAll(cb, p, pieces);
            var lead := Summarise(all.events).lead;
            && (!Contains(s, p.Delimiter()) ==>
                  all.ok && all.parser.phase == Body && lead + all.parser.buf == s && Summarise(all.events).entries == [])
            && (Contains(s, p.Delimiter()) ==> lead == s[..Find(s, p.Delimiter())])
    decreases |pieces|, 0
  {
    var delim := p.Delimiter();
    if pieces == [] {
      assert p.buf + "" == p.buf;
    } else {
      var a, rest := pieces[0], pieces[1..];
      var q, s := p.Feed(a), p.buf + Concat(pieces);
      Associative(p.buf, a, Concat(rest));
      FindAppend(q.buf, Concat(rest), delim);
      assert q.Delimiter() == delim;
      if Find(q.buf, delim) < |q.buf| {
        BodyLeft(cb, q, rest);
        assert q.buf[..Find(q.buf, delim)] == s[..Find(q.buf, delim)];
        assert OccursAt(s, delim, Find(s, delim));
      } else {
        BodyMissing(cb, q);
        BodyStays(cb, q, rest);
      }
    }
  }

  /** The piece that brings the delimiter. */
  lemma BodyLeft(cb: Callbacks, q: Parser, rest: seq<string>)
    requires AcceptsContent(cb) && q.phase == Body
    requires Find(q.buf, q.Delimiter()) < |q.buf|
    ensures var r := Run(cb, q);
            Summarise(if r.ok then r.events + ParseAll(cb, r.parser, rest).events else r.events).lead
            == q.buf[..Find(q.buf, q.Delimiter())]
  {
    var text, after := CutAtDelimiter(q.buf, q.Delimiter());
    BodyFound(cb, q, text, after);
    assert q.buf[..|text|] == text;
    var next := q.(phase := AfterBoundary, buf := after);
    var r, inner := Run(cb, q), Run(cb, next);
    NoLead(cb, next);
    SummariseContent(text, inner.events);
    assert text + "" == text;
    if r.ok {
      SummariseJoin(r.events, ParseAll(cb, r.parser, rest).events);
      if r.parser.phase != Body { NoLeadAll(cb, r.parser, rest); }
    }
  }

  /** A piece that brings no delimiter: `early` is handed on, the rest is held back. */
  lemma {:induction false} BodyStays(cb: Callbacks, q: Parser, rest: seq<string>)
    requires AcceptsContent(cb) && q.phase == Body && !q.valid
    requires Find(q.buf, q.Delimiter()) == |q.buf|
    ensures var s, r, delim := q.buf + Concat(rest), Run(cb, q), q.Delimiter();
            var all := ParseAll(cb, r.parser, rest);
            var lead := Summarise(r.events + all.events).lead;
            && r.ok
            && (!Contains(s, delim) ==> all.ok && all.parser.phase == Body && lead + all.parser.buf == s
                                        && Summarise(r.events + all.events).entries == [])
            && (Contains(s, delim) ==> lead == s[..Find(s, delim)])
    decreases |rest|, 1
  {
    var r, delim := Run(cb, q), q.Delimiter();
    BodyMissing(cb, q);
    var len := if |q.buf| > |delim| then |q.buf| - |delim| else 0;
    var early, tail := q.buf[..len], q.buf[len..];
    assert q.buf[0..] == q.buf;
    assert r.parser.buf == tail && r.parser.Delimiter() == delim;
    HeldBackText(q.buf, len, delim, Concat(rest));
    BodyNeverLeaks(cb, r.parser, rest);
    var all := ParseAll(cb, r.parser, rest);
    SummariseJoin(r.events, all.events);
    SummariseContent(early, []);
    assert [Content(early)] + [] == [Content(early)] && early + "" == early;
    assert Summarise(r.events) == Summary(early, []);
    Associative(early, Summarise(all.events).lead, all.parser.buf);
  }

  lemma HeldBackText(buf: string, len: nat, delim: string, more: string)
    requires |delim| > 0 && Find(buf, delim) == |buf|
    requires len == 0 || len + |delim| <= |buf|
    ensures !Contains(buf[len..], delim)
    ensures var s, t := buf + more, buf[len..] + more;
            && buf[..len] + t == s
            && Contains(t, delim) == Contains(s, delim)
            && (Contains(s, delim) ==> buf[..len] + t[..Find(t, delim)] == s[..Find(s, delim)])
  {
    var s, t := buf + more, buf[len..] + more;
    FindAppend(buf, more, delim);
    FoundBehind(s, t, len, delim);
    ContainsDrop(buf, delim, len);
    assert buf[..len] == s[..len];
  }

  /** An occurrence found behind the first `len` bytes, seen from there. */
  lemma FoundBehind(s: string, t: string, len: nat, delim: string)
    requires |delim| > 0 && len <= Find(s, delim) && t == s[len..]
    ensures s[..len] + t == s && Contains(t, delim) == Contains(s, delim)
    ensures s[..len] + t[..Find(t, delim)] == s[..Find(s, delim)]
  {
    ContainsDrop(s, delim, len);
    FindDrop(s, delim, len);
  }

  lemma ContainsDrop(s: string, pat: string, k: nat)
    requires |pat| > 0 && k <= Find(s, pat)
    ensures Contains(s[k..], pat) == Contains(s, pat)
    ensures Contains(s, pat) == (Find(s, pat) < |s|)
  {
    FindDrop(s, pat, k);
    if Find(s, pat) < |s| { assert OccursAt(s[k..], pat, Find(s, pat) - k); }
  }

  // ---- the answers of the callbacks ----

  predicate Welcome(cb: Callbacks, e: Event) {
    match e
    case Header(file) => cb.header(file)
    case Content(data) => cb.content(data)
  }

  /** Only the last event may have been refused, and then the answer is no, and no part is valid. */
  ghost predicate Obeyed(cb: Callbacks, r: Result) {
    forall i | 0 <= i < |r.events| :: Welcome(cb, r.events[i]) || (i == |r.events| - 1 && !r.ok && !r.parser.valid)
  }

  lemma ObeyedAfter(cb: Callbacks, r: Result, e: Event)
    requires Obeyed(cb, r) && Welcome(cb, e)
    ensures Obeyed(cb, r.After([e], 0))
  {
    var all := r.After([e], 0);
    forall i | 0 <= i < |all.events|
      ensures Welcome(cb, all.events[i]) || (i == |all.events| - 1 && !all.ok && !all.parser.valid)
    {
      if i > 0 { assert all.events[i] == r.events[i - 1]; }
    }
  }

  lemma {:induction false} RunObeys(cb: Callbacks, p: Parser)
    ensures Obeyed(cb, Run(cb, p))
    decreases |p.buf|, if p.phase == NewEntry then 2 else 1
  {
    if p.buf != "" {
      match p.phase
      case Opening =>
        var pos := Find(p.buf, p.Opener());
        if pos < |p.buf| { RunObeys(cb, p.Drop(pos + |p.Opener()|).(phase := NewEntry)); }
      case NewEntry => RunObeys(cb, p.(phase := HeaderLines, file := NoFile));
      case HeaderLines => HeadersObey(cb, p);
      case Body => BodyObeys(cb, p);
      case AfterBoundary =>
        if |p.buf| >= 2 && p.buf[..2] == CRLF { RunObeys(cb, p.Drop(2).(phase := NewEntry)); }
    }
  }

  lemma {:induction false} BodyObeys(cb: Callbacks, p: Parser)
    requires p.phase == Body && p.buf != ""
    ensures Obeyed(cb, BodyStep(cb, p))
    decreases |p.buf|, 0
  {
    var pos := Find(p.buf, p.Delimiter());
    if pos < |p.buf| && cb.content(p.buf[..pos]) {
      var next := p.Drop(pos + |p.Delimiter()|).(phase := AfterBoundary);
      RunObeys(cb, next);
      ObeyedAfter(cb, Run(cb, next), Content(p.buf[..pos]));
    }
  }

  lemma {:induction false} HeadersObey(cb: Callbacks, p: Parser)
    requires p.phase == HeaderLines
    ensures Obeyed(cb, Headers(cb, p))
    decreases |p.buf|, 0
  {
    var pos := Find(p.buf, CRLF);
    if pos == |p.buf| {
    } else if pos == 0 {
      var next := p.Drop(2).(phase := Body);
      if cb.header(p.file) {
        RunObeys(cb, next);
        ObeyedAfter(cb, Run(cb, next), Header(p.file));
      }
    } else {
      var line := p.buf[..pos];
      var r := cb.line(p.file, line);
      LineStep(cb, p, line, r);
      if r.ok {
        var next := p.Drop(pos + 2).(file := r.file);
        HeadersObey(cb, next);
        EmptyFirst(Headers(cb, next).events);
      }
    }
  }

  /** Over any calls of `parse`: what an accepted run reports was welcome, and a callback that refuses is the
      last to be called. */
  lemma {:induction false} CallbacksObeyed(cb: Callbacks, p: Parser, pieces: seq<string>)
    ensures Obeyed(cb, ParseAll(cb, p, pieces))
    decreases |pieces|
  {
    if pieces != [] {
      var r := Parse(cb, p, pieces[0]);
      RunObeys(cb, p.Feed(pieces[0]));
      if r.ok {
        CallbacksObeyed(cb, r.parser, pieces[1..]);
        ObeyedJoin(cb, r, ParseAll(cb, r.parser, pieces[1..]), ParseAll(cb, p, pieces));
      }
    }
  }

  lemma ObeyedJoin(cb: Callbacks, first: Result, second: Result, all: Result)
    requires Obeyed(cb, first) && first.ok && Obeyed(cb, second)
    requires all.events == first.events + second.events && all.ok == second.ok && all.parser == second.parser
    ensures Obeyed(cb, all)
  {
    forall i | 0 <= i < |all.events|
      ensures Welcome(cb, all.events[i]) || (i == |all.events| - 1 && !all.ok && !all.parser.valid)
    {
      if i >= |first.events| { assert all.events[i] == second.events[i - |first.events|]; }
    }
  }

  // ---- what is held back, and what is never resolved ----

  /** A run that stops in the body keeps at most a delimiter's length. */
  ghost predicate Lean(r: Result) { r.ok && r.parser.phase == Body ==> |r.parser.buf| <= |r.parser.Delimiter()| }

  lemma {:induction false} BodyLean(cb: Callbacks, p: Parser)
    ensures Lean(Run(cb, p))
    decreases |p.buf|, if p.phase == NewEntry then 2 else 1
  {
    if p.buf != "" {
      match p.phase
      case Opening =>
        var pos := Find(p.buf, p.Opener());
        if pos < |p.buf| { BodyLean(cb, p.Drop(pos + |p.Opener()|).(phase := NewEntry)); }
      case NewEntry => BodyLean(cb, p.(phase := HeaderLines, file := NoFile));
      case HeaderLines => HeadersLean(cb, p);
      case Body => BodyStepLean(cb, p);
      case AfterBoundary =>
        if |p.buf| >= 2 && p.buf[..2] == CRLF { BodyLean(cb, p.Drop(2).(phase := NewEntry)); }
    }
  }

  lemma {:induction false} BodyStepLean(cb: Callbacks, p: Parser)
    requires p.phase == Body && p.buf != ""
    ensures Lean(BodyStep(cb, p))
    decreases |p.buf|, 0
  {
    var pos := Find(p.buf, p.Delimiter());
    if pos < |p.buf| {
      var next := p.Drop(pos + |p.Delimiter()|).(phase := AfterBoundary);
      BodyLean(cb, next);
      LeanAfter(Run(cb, next), [Content(p.buf[..pos])], 0);
    }
  }

  lemma LeanAfter(r: Result, events: seq<Event>, width: nat)
    requires Lean(r)
    ensures Lean(r.After(events, width))
  {}

  lemma {:induction false} HeadersLean(cb: Callbacks, p: Parser)
    requires p.phase == HeaderLines
    ensures Lean(Headers(cb, p))
    decreases |p.buf|, 0
  {
    var pos := Find(p.buf, CRLF);
    if pos == 0 && pos < |p.buf| {
      var next := p.Drop(2).(phase := Body);
      BodyLean(cb, next);
      LeanAfter(Run(cb, next), [Header(p.file)], 0);
    } else if pos < |p.buf| {
      assert OccursAt(p.buf, CRLF, pos);
      var r := cb.line(p.file, p.buf[..pos]);
      var next := p.Drop(pos + 2).(file := r.file);
      if r.ok {
        HeadersLean(cb, next);
        LineAccepted(cb, p, pos);
        LeanAfter(Headers(cb, next), [], pos);
      } else {
        LineRefused(cb, p, pos);
      }
    }
  }

  /** Bytes behind a boundary that neither end its line nor close the form are never resolved: whatever
      comes, `parse` goes on answering yes, and nothing more is reported. */
  lemma {:induction false} NeverResolved(cb: Callbacks, p: Parser, pieces: seq<string>)
    requires p.phase == AfterBoundary && |p.buf| >= 2 && p.buf[..2] != CRLF && p.buf[..2] != "--"
    ensures var r := ParseAll(cb, p, pieces); r.ok && r.parser.valid == p.valid && r.events == []
    decreases |pieces|
  {
    if pieces != [] {
      var q := p.Feed(pieces[0]);
      assert q.buf[..2] == p.buf[..2];
      assert Parse(cb, p, pieces[0]) == Wait(q, []);
      NeverResolved(cb, q, pieces[1..]);
      EmptyFirst(ParseAll(cb, q, pieces[1..]).events);
    }
  }
}
