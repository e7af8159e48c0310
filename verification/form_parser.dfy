/** `FormDataParser` over its in-place byte buffer, refining the function of the FormData module. */
module FormParser {
  import opened Wrappers
  import opened Limits
  import opened Text
  import opened FormData
  import FormSplit
  import Fields
  import Uri

  /** From `p` the loop goes on at `q` after reporting `events`. */
  ghost predicate Leads(cb: Callbacks, p: Parser, q: Parser, events: seq<Event>) {
    var r, t := Run(cb, p), Run(cb, q);
    r.ok == t.ok && r.parser == t.parser && r.events == events + t.events
  }

  /** From `p` the loop ends at `q` with answer `ok` after reporting `events`. */
  ghost predicate Ends(cb: Callbacks, p: Parser, ok: bool, q: Parser, events: seq<Event>) {
    var r := Run(cb, p);
    r.ok == ok && r.parser == q && r.events == events
  }

  lemma LeadsOn(cb: Callbacks, p: Parser, q: Parser, r: Parser, a: seq<Event>, b: seq<Event>)
    requires Leads(cb, p, q, a) && Leads(cb, q, r, b)
    ensures Leads(cb, p, r, a + b)
  {
    Associative(a, b, Run(cb, r).events);
  }

  /** The same for the inner loop of state 2. */
  ghost predicate HeadersLead(cb: Callbacks, p: Parser, q: Parser) {
    var r, t := Headers(cb, p), Headers(cb, q);
    r.ok == t.ok && r.parser == t.parser && r.events == t.events
  }

  ghost predicate HeadersEnd(cb: Callbacks, p: Parser, ok: bool, q: Parser, events: seq<Event>) {
    var r := Headers(cb, p);
    r.ok == ok && r.parser == q && r.events == events
  }

  ghost predicate BlankLeads(cb: Callbacks, p: Parser, q: Parser, events: seq<Event>) {
    var r, t := Headers(cb, p), Run(cb, q);
    r.ok == t.ok && r.parser == t.parser && r.events == events + t.events
  }

  lemma LineTaken(cb: Callbacks, p: Parser, q: Parser, line: string, ok: bool)
    requires p.phase == HeaderLines && 0 < |line| == Find(p.buf, CRLF) < |p.buf|
    requires line == p.buf[..|line|] && LineResult(ok, q.file) == cb.line(p.file, line)
    requires q == if ok then p.Drop(|line| + 2).(file := q.file) else p.(valid := false, file := q.file)
    ensures if ok then HeadersLead(cb, p, q) else HeadersEnd(cb, p, false, q, [])
  {
    FormSplit.LineStep(cb, p, line, LineResult(ok, q.file));
    if ok { assert [] + Headers(cb, q).events == Headers(cb, q).events; }
  }

  /** What one round of the loop does to the parser: whether it goes on, the answer if not, the new state, and
      the callbacks made. */
  datatype Move = Move(more: bool, ok: bool, parser: Parser, events: seq<Event>)

  function Waits(p: Parser): Move { Move(false, true, p, []) }

  function OpeningMove(p: Parser): Move {
    var pos := Find(p.buf, p.Opener());
    if pos == |p.buf| then Waits(p) else Move(true, true, p.Drop(pos + |p.Opener()|).(phase := NewEntry), [])
  }

  /** `content_callback` on the first `len` bytes; if it agrees, `erase` bytes are dropped. */
  function HandsOn(cb: Callbacks, p: Parser, len: nat, erase: nat, next: Phase, more: bool): Move
    requires len <= erase <= |p.buf|
  {
    if cb.content(p.buf[..len]) then Move(more, true, p.Drop(erase).(phase := next), [Content(p.buf[..len])])
    else Move(false, false, p.(valid := false), [Content(p.buf[..len])])
  }

  function BodyMove(cb: Callbacks, p: Parser): Move {
    var d, pos := |p.Delimiter()|, Find(p.buf, p.Delimiter());
    if d > |p.buf| then Waits(p)
    else if pos < |p.buf| then HandsOn(cb, p, pos, pos + d, AfterBoundary, true)
    else if d == |p.buf| then Waits(p)
    else HandsOn(cb, p, |p.buf| - d, |p.buf| - d, Body, false)
  }

  function BoundaryMove(p: Parser): Move {
    if OccursAt(p.buf, CRLF, 0) then Move(true, true, p.Drop(2).(phase := NewEntry), [])
    else if OccursAt(p.buf, "--", 0) then Move(true, true, p.(valid := true, buf := ""), [])
    else Waits(p)
  }

  /** The move is one of the function `Run`. */
  ghost predicate Follows(cb: Callbacks, p: Parser, m: Move) {
    && (m.more ==> || |m.parser.buf| < |p.buf|
                   || (|m.parser.buf| == |p.buf| && p.phase == NewEntry && m.parser.phase != NewEntry))
    && (m.more ==> Leads(cb, p, m.parser, m.events))
    && (!m.more ==> Ends(cb, p, m.ok, m.parser, m.events))
  }

  lemma OpeningFollows(cb: Callbacks, p: Parser)
    requires p.phase == Opening && p.buf != ""
    ensures Follows(cb, p, OpeningMove(p))
  {
    Silent(Run(cb, OpeningMove(p).parser));
  }

  lemma EntryFollows(cb: Callbacks, p: Parser)
    requires p.phase == NewEntry && p.buf != ""
    ensures Follows(cb, p, Move(true, true, p.(phase := HeaderLines, file := NoFile), []))
  {
    Silent(Run(cb, p.(phase := HeaderLines, file := NoFile)));
  }

  lemma BodyFollows(cb: Callbacks, p: Parser)
    requires p.phase == Body && p.buf != ""
    ensures Follows(cb, p, BodyMove(cb, p))
  {
    assert Run(cb, p) == BodyStep(cb, p);
  }

  lemma BoundaryFollows(cb: Callbacks, p: Parser)
    requires p.phase == AfterBoundary && p.buf != ""
    ensures Follows(cb, p, BoundaryMove(p))
  {
    if |p.buf| >= 2 {
      assert p.buf[0..2] == p.buf[..2];
      Silent(Run(cb, BoundaryMove(p).parser));
    }
  }

  lemma Silent(r: Result)
    ensures [] + r.events == r.events
  {}

  lemma TooLong(cb: Callbacks, p: Parser)
    requires p.phase == HeaderLines && p.buf != "" && Find(p.buf, CRLF) > HEADER_MAX_LENGTH
    ensures Follows(cb, p, Move(false, false, p, []))
  {}

  lemma LoopFollows(cb: Callbacks, p: Parser, m: Move)
    requires p.phase == HeaderLines && p.buf != "" && Find(p.buf, CRLF) <= HEADER_MAX_LENGTH
    requires m.more ==> |m.parser.buf| < |p.buf| && BlankLeads(cb, p, m.parser, m.events)
    requires !m.more ==> HeadersEnd(cb, p, m.ok, m.parser, m.events)
    ensures Follows(cb, p, m)
  {
    assert Run(cb, p) == Headers(cb, p);
  }

  /** An end reached from where `p` leads is an end of `p`. */
  lemma LeadsEnd(cb: Callbacks, p: Parser, q: Parser, ok: bool, r: Parser, a: seq<Event>, b: seq<Event>)
    requires Leads(cb, p, q, a) && Ends(cb, q, ok, r, b)
    ensures Ends(cb, p, ok, r, a + b)
  {}

  function PhaseOf(state: nat): Phase
    requires state <= 4
  {
    if state == 0 then Opening else if state == 1 then NewEntry else if state == 2 then HeaderLines
    else if state == 3 then Body else AfterBoundary
  }

  class FormDataParser {
    var boundary: string
    var dashBoundaryCrlf: string
    var crlfDashBoundary: string
    var state: nat
    var isValid: bool
    var file: FormFile
    var buf: array<char>
    var spos: nat
    var epos: nat

    ghost predicate Valid() reads this {
      && state <= 4 && spos <= epos <= buf.Length
      && dashBoundaryCrlf == "--" + boundary + CRLF
      && crlfDashBoundary == CRLF + "--" + boundary
    }

    ghost function View(): string
      requires Valid()
      reads this, buf
    {
      buf[spos..epos]
    }

    ghost function Abs(): Parser
      requires Valid()
      reads this, buf
    {
      Parser(boundary, PhaseOf(state), isValid, file, View())
    }

    constructor (boundary: string)
      ensures Valid() && fresh(buf) && Abs() == Init(boundary)
    {
      this.boundary := boundary;
      dashBoundaryCrlf := "--" + boundary + CRLF;
      crlfDashBoundary := CRLF + "--" + boundary;
      state, isValid, file := 0, false, NoFile;
      buf, spos, epos := new char[0], 0, 0;
    }

    // ---- the buffer ----

    method StartWith(at: nat, s: string) returns (b: bool)
      requires Valid() && spos <= at <= epos
      ensures b == OccursAt(View(), s, at - spos)
    {
      if epos - at < |s| { return false; }
      ghost var v := View();
      Subslice(buf, spos, epos, at, |s|);
      for i := 0 to |s|
        invariant buf[at..at + i] == s[..i]
      {
        if buf[at + i] != s[i] {
          assert buf[at..at + |s|][i] != s[i];
          return false;
        }
        assert buf[at..at + i + 1] == buf[at..at + i] + [buf[at + i]];
        assert s[..i + 1] == s[..i] + [s[i]];
      }
      assert s[..|s|] == s;
      b := true;
    }

    /** `buf_find`: skip to the next byte equal to the first of `s`, then compare. */
    method BufFind(s: string) returns (r: nat)
      requires Valid() && |s| > 0
      ensures r == Find(View(), s)
    {
      var c := s[0];
      var off := spos;
      while off < epos
        invariant spos <= off <= epos
        invariant forall i :: 0 <= i < off - spos ==> !OccursAt(View(), s, i)
      {
        var pos := off;
        while pos < epos && buf[pos] != c
          invariant off <= pos <= epos
          invariant forall i :: 0 <= i < pos - spos ==> !OccursAt(View(), s, i)
        {
          FirstByte(View(), s, pos - spos);
          pos := pos + 1;
        }
        if pos == epos || |s| > epos - pos { return epos - spos; }
        var here := StartWith(pos, s);
        if here { return pos - spos; }
        off := pos + 1;
      }
      r := epos - spos;
    }

    static lemma Subslice(a: array<char>, lo: nat, hi: nat, i: nat, n: nat)
      requires lo <= i && i + n <= hi <= a.Length
      ensures a[lo..hi][i - lo..i - lo + n] == a[i..i + n]
    {
      var l, r := a[lo..hi][i - lo..i - lo + n], a[i..i + n];
      forall k | 0 <= k < n ensures l[k] == r[k] { assert l[k] == a[lo..hi][i - lo + k]; }
    }

    static lemma FirstByte(v: string, s: string, i: nat)
      requires |s| > 0 && i < |v| && v[i] != s[0]
      ensures !OccursAt(v, s, i)
    {
      if i + |s| <= |v| { assert v[i..i + |s|][0] == v[i]; }
    }

    /** `buf_append`: compact the unread bytes to the front in place, grow if needed, copy the new ones in. */
    method BufAppend(data: string)
      requires Valid()
      modifies this`buf, this`spos, this`epos, buf
      ensures Valid() && (buf == old(buf) || fresh(buf))
      ensures View() == old(View()) + data
    {
      var remaining := epos - spos;
      Compact(remaining);
      spos, epos := 0, remaining;
      if remaining + |data| > buf.Length { Grow(remaining + |data|); }
      CopyIn(data);
    }

    method Compact(remaining: nat)
      requires Valid() && remaining == epos - spos
      modifies buf
      ensures buf[..remaining] == old(View())
    {
      ghost var was := buf[..];
      for i := 0 to remaining
        invariant forall k :: 0 <= k < i ==> buf[k] == was[spos + k]
        invariant forall k :: i <= k < buf.Length ==> buf[k] == was[k]
      {
        buf[i] := buf[spos + i];
      }
    }

    method Grow(size: nat)
      requires Valid() && spos == 0 && buf.Length <= size
      modifies this`buf
      ensures Valid() && fresh(buf) && buf.Length == size && View() == old(View())
    {
      var small, bigger := buf, new char[size];
      for i := 0 to small.Length
        invariant buf == small && epos <= small.Length
        invariant forall k :: 0 <= k < i ==> bigger[k] == small[k]
      {
        bigger[i] := small[i];
      }
      assert bigger[..epos] == small[..epos];
      buf := bigger;
    }

    method CopyIn(data: string)
      requires Valid() && spos == 0 && epos + |data| <= buf.Length
      modifies this`epos, buf
      ensures Valid() && View() == old(View()) + data
    {
      ghost var was := View();
      for i := 0 to |data|
        invariant epos == old(epos) && Valid()
        invariant buf[..epos] == was
        invariant forall k :: 0 <= k < i ==> buf[epos + k] == data[k]
      {
        buf[epos + i] := data[i];
      }
      epos := epos + |data|;
      assert buf[..epos] == was + data;
    }

    /** `buf_erase`. */
    method BufErase(size: nat)
      requires Valid() && size <= epos - spos
      modifies this`spos
      ensures Valid() && Abs() == old(Abs()).Drop(size)
    {
      spos := spos + size;
      assert buf[spos..epos] == old(View())[size..];
    }

    // ---- header lines ----

    static method ParseDispositionParams(s: string) returns (params: seq<(string, string)>)
      ensures params == ParamsOf(Split(s, ';'), {})
    {
      var fields := SplitFields(s, ';');
      var cache: set<string> := {};
      params := [];
      assert fields[0..] == fields;
      for i := 0 to |fields|
        invariant params + ParamsOf(fields[i..], cache) == ParamsOf(fields, {})
      {
        var kv := fields[i];
        var found := ParamOfField(kv, cache);
        ParamsStep(fields, i, cache);
        Associative(params, found, ParamsOf(fields[i + 1..], cache + {kv}));
        params := params + found;
        cache := cache + {kv};
      }
    }

    static lemma ParamsStep(fields: seq<string>, i: nat, cache: set<string>)
      requires i < |fields|
      ensures ParamsOf(fields[i..], cache)
              == OneParam(fields[i], cache) + ParamsOf(fields[i + 1..], cache + {fields[i]})
    {
      assert fields[i..][1..] == fields[i + 1..];
    }

    static ghost function OneParam(kv: string, cache: set<string>): seq<(string, string)> {
      if kv in cache || ParamOf(kv) == None then [] else [ParamOf(kv).value]
    }

    static method ParamOfField(kv: string, cache: set<string>) returns (params: seq<(string, string)>)
      ensures params == OneParam(kv, cache)
    {
      if kv in cache { return []; }
      var pieces := SplitFields(kv, '=');
      if pieces == [] { return []; }
      var val := if |pieces| == 1 then "" else pieces[|pieces| - 1];
      params := [(TrimDoubleQuotes(pieces[0]), TrimDoubleQuotes(val))];
    }

    /** The disposition parameters of the current line taken over into `file`. */
    method TakeDisposition(rest: string) returns (ok: bool)
      modifies this`file
      ensures LineResult(ok, file) == WithDisposition(old(file), rest)
    {
      var params := ParseDispositionParams(rest);
      var it := Lookup(params, "name");
      if it == None { return false; }
      file := file.(name := it.value);
      it := Lookup(params, "filename");
      if it.Some? { file := file.(filename := it.value); }
      it := Lookup(params, "filename*");
      if it.Some? {
        if !(StartsWithIgnoreCase(it.value, "UTF-8''") && |it.value| > 7) { return false; }
        var decoded := Uri.DecodePathText(it.value[7..], false);
        file := file.(filename := decoded);
      }
      ok := true;
    }

    method TakeHeader(cb: Callbacks, line: string) returns (ok: bool)
      requires ReadsLines(cb)
      modifies this`file
      ensures LineResult(ok, file) == cb.line(old(file), line)
    {
      ok := TakeHeaderLine(line);
      assert LineResult(ok, file) == HeaderLine(old(file), line);
    }

    method TakeHeaderLine(line: string) returns (ok: bool)
      modifies this`file
      ensures LineResult(ok, file) == HeaderLine(old(file), line)
    {
      var header := Fields.ParseHeaderLine(line);
      if header == None { return false; }
      file := file.(headers := file.headers + [header.value]);
      if StartsWithIgnoreCase(line, "Content-Type:") {
        var trimmed := TrimCopy(line[13..]);
        file := file.(contentType := trimmed);
        return true;
      }
      var rest := DispositionRest(line);
      if rest == None { return true; }
      ok := TakeDisposition(rest.value);
    }

    /** One header line of `pos` bytes. */
    method TakeLine(cb: Callbacks, pos: nat) returns (ok: bool)
      requires Valid() && ReadsLines(cb) && state == 2 && 0 < pos == Find(View(), CRLF) < |View()|
      modifies this`isValid, this`file, this`spos
      ensures Valid() && |View()| <= |old(View())|
      ensures ok ==> |View()| < |old(View())| && HeadersLead(cb, old(Abs()), Abs())
      ensures !ok ==> HeadersEnd(cb, old(Abs()), false, Abs(), [])
    {
      ghost var p := Abs();
      var line := buf[spos..spos + pos];
      assert line == p.buf[..pos];
      ok := TakeHeader(cb, line);
      if ok { BufErase(pos + 2); } else { isValid := false; }
      LineTaken(cb, p, Abs(), line, ok);
    }

    /** The blank line that ends a header block. */
    method TakeBlank(cb: Callbacks) returns (ok: bool)
      requires Valid() && state == 2 && 0 == Find(View(), CRLF) < |View()|
      modifies this`state, this`isValid, this`spos
      ensures Valid() && |View()| <= |old(View())|
      ensures ok ==> |View()| < |old(View())| && BlankLeads(cb, old(Abs()), Abs(), [Header(file)])
      ensures !ok ==> HeadersEnd(cb, old(Abs()), false, Abs(), [Header(file)])
    {
      ghost var p := Abs();
      ok := cb.header(file);
      if !ok {
        isValid := false;
        return;
      }
      BufErase(2);
      state := 3;
      assert Abs() == p.Drop(2).(phase := Body);
    }

    /** State 2: header lines until the blank one, or until no whole line is left. */
    method HeadersLoop(cb: Callbacks) returns (more: bool, ok: bool, events: seq<Event>)
      requires Valid() && ReadsLines(cb) && state == 2 && View() != ""
      modifies this`state, this`isValid, this`file, this`spos
      ensures Valid()
      ensures more ==> |View()| < |old(View())| && BlankLeads(cb, old(Abs()), Abs(), events)
      ensures !more ==> HeadersEnd(cb, old(Abs()), ok, Abs(), events)
    {
      ghost var p0 := Abs();
      var pos := BufFind(CRLF);
      while pos < epos - spos
        invariant Valid() && state == 2 && pos == Find(View(), CRLF) && |View()| <= |old(View())|
        invariant HeadersLead(cb, p0, Abs())
        modifies this`state, this`isValid, this`file, this`spos
        decreases |View()|
      {
        if pos == 0 {
          events := [Header(file)];
          more := TakeBlank(cb);
          return more, more, events;
        }
        var accepted := TakeLine(cb, pos);
        if !accepted { return false, false, []; }
        pos := BufFind(CRLF);
      }
      return false, true, [];
    }

    method HeadersState(cb: Callbacks) returns (more: bool, ok: bool, events: seq<Event>)
      requires Valid() && ReadsLines(cb) && state == 2 && View() != ""
      modifies this`state, this`isValid, this`file, this`spos
      ensures Valid() && Follows(cb, old(Abs()), Move(more, ok, Abs(), events))
    {
      ghost var p := Abs();
      var pos := BufFind(CRLF);
      if pos > HEADER_MAX_LENGTH {
        TooLong(cb, p);
        return false, false, [];
      }
      more, ok, events := HeadersLoop(cb);
      LoopFollows(cb, p, Move(more, ok, Abs(), events));
    }

    // ---- the other states ----

    method OpeningState() returns (more: bool)
      requires Valid() && state == 0 && View() != ""
      modifies this`state, this`spos
      ensures Valid() && Move(more, true, Abs(), []) == OpeningMove(old(Abs()))
    {
      var pos := BufFind(dashBoundaryCrlf);
      if pos == epos - spos { return false; }
      BufErase(pos + |dashBoundaryCrlf|);
      state := 1;
      more := true;
    }

    /** `content_callback` on the first `len` bytes, which `erase` then removes. */
    method HandOn(cb: Callbacks, len: nat, erase: nat, next: nat, onward: bool)
      returns (more: bool, ok: bool, events: seq<Event>)
      requires Valid() && len <= erase <= |View()| && next <= 4
      modifies this`state, this`isValid, this`spos
      ensures Valid() && Move(more, ok, Abs(), events) == HandsOn(cb, old(Abs()), len, erase, PhaseOf(next), onward)
    {
      var data := buf[spos..spos + len];
      assert data == View()[..len];
      events := [Content(data)];
      ok := cb.content(data);
      more := ok && onward;
      if ok {
        BufErase(erase);
        state := next;
      } else {
        isValid := false;
      }
    }

    method BodyState(cb: Callbacks) returns (more: bool, ok: bool, events: seq<Event>)
      requires Valid() && state == 3 && View() != ""
      modifies this`state, this`isValid, this`spos
      ensures Valid() && Move(more, ok, Abs(), events) == BodyMove(cb, old(Abs()))
    {
      ghost var m := BodyMove(cb, Abs());
      var d := |crlfDashBoundary|;
      if d > epos - spos { return false, true, []; }
      var pos := BufFind(crlfDashBoundary);
      var len := epos - spos - d;
      if pos < epos - spos {
        assert m == HandsOn(cb, Abs(), pos, pos + d, PhaseOf(4), true);
        more, ok, events := HandOn(cb, pos, pos + d, 4, true);
      } else if len > 0 {
        assert m == HandsOn(cb, Abs(), len, len, PhaseOf(3), false);
        more, ok, events := HandOn(cb, len, len, 3, false);
      } else {
        more, ok, events := false, true, [];
      }
    }

    method BoundaryState() returns (more: bool)
      requires Valid() && state == 4 && View() != ""
      modifies this`state, this`isValid, this`spos
      ensures Valid() && Move(more, true, Abs(), []) == BoundaryMove(old(Abs()))
    {
      if 2 > epos - spos { return false; }
      var crlf := StartWith(spos, CRLF);
      if crlf {
        BufErase(2);
        state := 1;
        return true;
      }
      var dashes := StartWith(spos, "--");
      if dashes {
        Close();
        return true;
      }
      more := false;
    }

    /** The closing boundary: the rest of the buffer is thrown away. */
    method Close()
      requires Valid() && |View()| >= 2
      modifies this`isValid, this`spos
      ensures Valid() && Abs() == old(Abs()).(valid := true, buf := "")
    {
      BufErase(2);
      isValid := true;
      BufErase(epos - spos);
      assert View() == "";
    }

    /** One round of the loop of `parse`. */
    method Round(cb: Callbacks) returns (more: bool, answer: bool, events: seq<Event>)
      requires Valid() && ReadsLines(cb) && View() != ""
      modifies this`state, this`isValid, this`file, this`spos
      ensures Valid() && Follows(cb, old(Abs()), Move(more, answer, Abs(), events))
    {
      ghost var p := Abs();
      more, answer, events := true, true, [];
      if state == 0 {
        more := OpeningState();
        OpeningFollows(cb, p);
      } else if state == 1 {
        file := NoFile;
        state := 2;
        EntryFollows(cb, p);
      } else if state == 2 {
        more, answer, events := HeadersState(cb);
      } else if state == 3 {
        more, answer, events := BodyState(cb);
        BodyFollows(cb, p);
      } else {
        more := BoundaryState();
        BoundaryFollows(cb, p);
      }
    }

    /** `parse`: answer, callbacks made and new state are those of the function `Parse`. */
    method ParseData(cb: Callbacks, data: string) returns (ok: bool, events: seq<Event>)
      requires Valid() && ReadsLines(cb)
      modifies this`state, this`isValid, this`file, this`buf, this`spos, this`epos, buf
      ensures Valid() && (buf == old(buf) || fresh(buf))
      ensures var r := Parse(cb, old(Abs()), data); ok == r.ok && Abs() == r.parser && events == r.events
    {
      ghost var p0 := Abs().Feed(data);
      BufAppend(data);
      events := [];
      Silent(Run(cb, p0));
      while epos - spos > 0
        invariant Valid() && (buf == old(buf) || fresh(buf))
        invariant Leads(cb, p0, Abs(), events)
        decreases |View()|, if state == 1 then 1 else 0
      {
        ghost var p := Abs();
        var more, answer, evs := Round(cb);
        if !more {
          LeadsEnd(cb, p0, p, answer, Abs(), events, evs);
          events := events + evs;
          return answer, events;
        }
        LeadsOn(cb, p0, p, Abs(), events, evs);
        events := events + evs;
      }
      assert events + [] == events;
      ok := true;
    }
  }
}
