/** What the chunked reader takes from a stream of any kind: which messages it accepts, and which trailers
    it keeps. */
module ChunkedGrammar {
  import opened Wrappers
  import opened Limits
  import opened Text
  import opened Streams
  import opened Chunked
  import Fields
  import Uri

  // ---- chunk sizes ----

  predicate AllSpace(s: string) { forall i | 0 <= i < |s| :: IsSpace(s[i]) }

  predicate AllHex(s: string) { forall i | 0 <= i < |s| :: Uri.IsHex(s[i]) }

  predicate HexBegins(s: string) { s != "" && Uri.IsHex(s[0]) }

  lemma {:induction false} SpacesEnd(s: string, i: nat, e: nat)
    requires i <= e <= |s| && (forall k | i <= k < e :: IsSpace(s[k])) && (e < |s| ==> !IsSpace(s[e]))
    ensures SpaceEnd(s, i) == e
    decreases e - i
  {
    if i < e { SpacesEnd(s, i + 1, e); }
  }

  lemma {:induction false} DigitsEnd(s: string, i: nat, e: nat)
    requires i <= e <= |s| && (forall k | i <= k < e :: Uri.IsHex(s[k])) && (e < |s| ==> !Uri.IsHex(s[e]))
    ensures HexEnd(s, i) == e
    decreases e - i
  {
    if i < e { DigitsEnd(s, i + 1, e); }
  }

  lemma DigitsAt(a: string, digits: string, rest: string)
    requires AllHex(digits) && !HexBegins(rest)
    ensures HexRun(a + (digits + rest), |a|) == digits
  {
    var s := a + (digits + rest);
    var e := |a| + |digits|;
    assert forall k | |a| <= k < e :: s[k] == digits[k - |a|];
    assert rest != "" ==> s[e] == rest[0];
    DigitsEnd(s, |a|, e);
    assert s[|a|..e] == digits;
  }

  predicate SignText(s: string) { s == "" || (|s| == 1 && IsSign(s[0])) }

  predicate PrefixText(s: string) { s == "" || (|s| == 2 && s[0] == '0' && (s[1] == 'x' || s[1] == 'X')) }

  /** What stands behind the blanks of a numeral, if there is no sign, is no blank and no sign. */
  predicate Solid(s: string) { s == "" || !(IsSpace(s[0]) || IsSign(s[0])) }

  lemma SignFound(spaces: string, sign: string, rest: string)
    requires AllSpace(spaces) && SignText(sign) && (sign == "" ==> Solid(rest))
    ensures var s, i := spaces + (sign + rest), |spaces|;
            && SpaceEnd(s, 0) == i && (Negative(s) <==> sign == "-")
            && (i < |s| && IsSign(s[i]) <==> sign != "")
  {
    var s, i := spaces + (sign + rest), |spaces|;
    assert forall k | 0 <= k < i :: s[k] == spaces[k];
    assert i < |s| ==> s[i] == (sign + rest)[0];
    SpacesEnd(s, 0, i);
  }

  lemma PrefixFound(a: string, prefix: string, rest: string)
    requires PrefixText(prefix) && (prefix == "" ==> !(rest != "" && rest[0] == '0' && PrefixAt(rest, 1)))
    requires prefix != "" ==> HexBegins(rest)
    ensures var s, j := a + (prefix + rest), |a|;
            j < |s| && s[j] == '0' && PrefixAt(s, j + 1) <==> prefix != ""
  {
    var s, t := a + (prefix + rest), prefix + rest;
    assert forall k | 0 <= k < |t| :: s[|a| + k] == t[k];
  }

  lemma BeginFound(spaces: string, sign: string, prefix: string, rest: string)
    requires AllSpace(spaces) && SignText(sign) && PrefixText(prefix)
    requires sign == "" ==> Solid(prefix + rest)
    requires prefix == "" ==> !(rest != "" && rest[0] == '0' && PrefixAt(rest, 1))
    requires prefix != "" ==> HexBegins(rest)
    ensures var s := spaces + (sign + (prefix + rest));
            DigitsBegin(s) == |spaces| + |sign| + |prefix| && (Negative(s) <==> sign == "-")
  {
    SignFound(spaces, sign, prefix + rest);
    PrefixFound(spaces + sign, prefix, rest);
    Associative(spaces, sign, prefix + rest);
  }

  /** The number a sign and digits stand for: one that does not fit is the largest, and a minus sign wraps around. */
  function Wrapped(v: nat, minus: bool): nat {
    if v > ULONG_MAX then ULONG_MAX else if minus then (ULONG_MAX + 1 - v) % (ULONG_MAX + 1) else v
  }

  lemma ValueIs(s: string, k: nat, digits: string, minus: bool)
    requires k <= |s| && AllHex(digits) && DigitsBegin(s) == k && HexRun(s, k) == digits != "" && Negative(s) == minus
    ensures StrToUl(s) == Some(Wrapped(Uri.HexNumber(digits), minus))
  {}

  lemma DigitsFound(prefix: string, digits: string, rest: string)
    requires PrefixText(prefix) && AllHex(digits) && digits != "" && !HexBegins(rest)
    requires prefix == "" && digits == "0" ==> !PrefixAt(rest, 0)
    ensures var t := digits + rest;
            HexBegins(t) && Solid(prefix + t) && (prefix == "" ==> !(t[0] == '0' && PrefixAt(t, 1)))
  {
    var t := digits + rest;
    assert t[0] == digits[0];
    if |digits| > 1 { assert t[1] == digits[1]; } else { assert t[1..] == rest; }
    assert (prefix + t)[0] == if prefix == "" then t[0] else '0';
  }

  /** A size is read behind blanks, a sign and a prefix, up to what is no digit. */
  lemma SizeIs(spaces: string, sign: string, prefix: string, digits: string, rest: string)
    requires AllSpace(spaces) && SignText(sign) && PrefixText(prefix) && AllHex(digits) && digits != "" && !HexBegins(rest)
    requires prefix == "" && digits == "0" ==> !PrefixAt(rest, 0)
    ensures StrToUl(spaces + (sign + (prefix + (digits + rest)))) == Some(Wrapped(Uri.HexNumber(digits), sign == "-"))
  {
    var lead := spaces + sign + prefix;
    var s := spaces + (sign + (prefix + (digits + rest)));
    DigitsFound(prefix, digits, rest);
    BeginFound(spaces, sign, prefix, digits + rest);
    Leading(spaces, sign, prefix, digits + rest);
    DigitsAt(lead, digits, rest);
    ValueIs(s, |lead|, digits, sign == "-");
  }

  lemma Leading(a: string, b: string, c: string, d: string)
    ensures a + (b + (c + d)) == a + b + c + d
  {}

  /** Without a digit there nothing is read. */
  lemma NoSize(spaces: string, sign: string, rest: string)
    requires AllSpace(spaces) && SignText(sign) && !HexBegins(rest) && (sign == "" ==> Solid(rest))
    ensures StrToUl(spaces + (sign + rest)) == None
  {
    assert "" + rest == rest;
    BeginFound(spaces, sign, "", rest);
    Associative(spaces, sign, rest);
    DigitsAt(spaces + sign, "", rest);
  }

  // ---- trailers ----

  predicate AllDeclared(headers: seq<Fields.Header>, declared: set<string>) {
    forall h | h in headers :: Lower(h.0) in declared
  }

  lemma DeclaredJoin(a: seq<Fields.Header>, b: seq<Fields.Header>, declared: set<string>)
    requires AllDeclared(a, declared) && AllDeclared(b, declared)
    ensures AllDeclared(a + b, declared)
  {}

  lemma {:induction false} TrailersDeclared(line: string, s: string, keep: Keep, count: nat, declared: set<string>)
    requires TrailersRead(keep, declared)
    ensures AllDeclared(DecodeTrailers(line, s, keep, count).trailers, declared)
    decreases |s|
  {
    assert keep(line) == TrailerOf(line, declared);
    OneDeclared(line, declared);
    if NextLine(s).Some? {
      var next := NextLine(s).value;
      TrailersDeclared(next, s[|next|..], keep, count + |keep(line)|, declared);
      DeclaredJoin(keep(line), DecodeTrailers(next, s[|next|..], keep, count + |keep(line)|).trailers, declared);
    }
  }

  lemma OneDeclared(line: string, declared: set<string>)
    ensures AllDeclared(TrailerOf(line, declared), declared)
  {}

  lemma EndDeclared(s: string, keep: Keep, declared: set<string>)
    requires TrailersRead(keep, declared)
    ensures AllDeclared(DecodeEnd(s, keep).trailers, declared)
  {
    if NextLine(s).Some? {
      TrailersDeclared(NextLine(s).value, s[|NextLine(s).value|..], keep, 0, declared);
    }
  }

  lemma {:induction false} ChunksDeclared(line: string, s: string, limit: nat, total: nat, sx: Syntax, declared: set<string>)
    requires forall t :: AllDeclared(sx.end(t).trailers, declared)
    ensures AllDeclared(DecodeChunks(line, s, limit, total, sx).trailers, declared)
    decreases |s|
  {
    var n := sx.size(line);
    if n.Some? && n.value > 0 {
      var c := sx.cut(s, n.value);
      if c.Whole? { ChunksDeclared(c.line, c.rest, limit, total + n.value, sx, declared); }
    }
  }

  lemma OnlyDeclared(s: string, limit: nat, declared: set<string>)
    ensures AllDeclared(DecodeChunked(s, limit, SyntaxFor(declared)).trailers, declared)
  {
    var sx, keep := SyntaxFor(declared), KeepDeclared(declared);
    SyntaxReads(declared);
    forall t ensures AllDeclared(sx.end(t).trailers, declared) {
      EndDeclared(t, keep, declared);
      assert sx.end(t) == DecodeEnd(t, keep);
    }
    if NextLine(s).Some? { ChunksDeclared(NextLine(s).value, s[|NextLine(s).value|..], limit, 0, sx, declared); }
  }

  /** Whatever arrives, a trailer is kept only if the `Trailer` header names it, in some letter case, and the
      name is not prohibited; without that header none is. */
  lemma TrailersKept(s: string, limit: nat, trailer: Option<string>, h: Fields.Header)
    requires h in DecodeChunked(s, limit, SyntaxFor(Declared(trailer, PROHIBITED))).trailers
    ensures trailer.Some? && Lower(h.0) !in PROHIBITED
    ensures exists p :: IsField(trailer.value, ',', p) && EqualIgnoreCase(p, h.0)
  {
    OnlyDeclared(s, limit, Declared(trailer, PROHIBITED));
    DeclaredIs(trailer, PROHIBITED, Lower(h.0));
    var p :| IsField(trailer.value, ',', p) && Lower(p) == Lower(h.0);
    assert EqualIgnoreCase(p, h.0);
  }

  /** Names that frame, route, authenticate or control a message can not be declared, in whatever letter case. */
  lemma NeverDeclared(trailer: Option<string>, name: string)
    requires Lower(name) in {
      "transfer-encoding", "content-length", "host", "authorization", "www-authenticate", "proxy-authenticate",
      "proxy-authorization", "cookie", "set-cookie", "cache-control", "expect", "max-forwards", "pragma", "range", "te",
      "age", "expires", "date", "location", "retry-after", "vary", "warning",
      "content-encoding", "content-type", "content-range", "trailer" }
    ensures Lower(name) !in Declared(trailer, PROHIBITED)
  {
    DeclaredIs(trailer, PROHIBITED, Lower(name));
  }

  // ---- accepted messages ----

  /** A chunk as it stands in a stream: its size line, extensions and line end included, and its data. */
  datatype RawChunk = RawChunk(size: string, data: string)

  /** Text that ends in its only CR LF. */
  predicate IsLine(l: string) { |l| >= 2 && Find(l, CRLF) == |l| - 2 }

  ghost predicate ChunkOk(c: RawChunk, sx: Syntax) {
    IsLine(c.size) && |c.size| <= MAX_LINE_LENGTH && 0 < |c.data| != ULONG_MAX && sx.size(c.size) == Some(|c.data|)
  }

  /** The chunks, each with the CR LF behind its data, and `tail`. */
  function Spell(chunks: seq<RawChunk>, tail: string): string {
    if chunks == [] then tail else chunks[0].size + (chunks[0].data + (CRLF + Spell(chunks[1..], tail)))
  }

  function Data(chunks: seq<RawChunk>): string {
    if chunks == [] then "" else chunks[0].data + Data(chunks[1..])
  }

  /** `line` is what `getline` yields when `s` stands behind it. */
  ghost predicate Starts(line: string, s: string) { NextLine(line + s) == Some(line) }

  lemma NextStarts(s: string)
    requires NextLine(s).Some?
    ensures var line := NextLine(s).value; s == line + s[|line|..] && Starts(line, s[|line|..])
  {
    var line := NextLine(s).value;
    assert s == line + s[|line|..];
  }

  lemma SizeIsLine(line: string, s: string)
    requires Starts(line, s) && s != ""
    ensures IsLine(line) && |line| <= MAX_LINE_LENGTH
  {
    NextLineCut(line + s, line, s);
  }

  lemma LineEndCut(s: string, n: nat)
    requires n <= |s| && NextLine(s[n..]) == Some(CRLF)
    ensures n + 2 <= |s| && s == s[..n] + (CRLF + s[n + 2..])
  {
    assert s[n..][..2] == CRLF;
    assert s == s[..n] + (s[n..][..2] + s[n + 2..]);
  }

  lemma CutSpelled(s: string, n: nat, data: string, next: string, rest: string)
    requires CutChunk(s, n) == Whole(data, next, rest)
    ensures s == data + (CRLF + (next + rest)) && |data| == n && Starts(next, rest)
  {
    LineEndCut(s, n);
    NextStarts(s[n + 2..]);
  }

  /** The chunks an accepted content is made of. */
  ghost predicate Made(line: string, s: string, d: Decoded, room: nat, sx: Syntax,
                       chunks: seq<RawChunk>, last: string, tail: string)
  {
    && line + s == Spell(chunks, last + tail)
    && (forall c | c in chunks :: ChunkOk(c, sx))
    && Starts(last, tail) && sx.size(last) == Some(0)
    && d == sx.end(tail).(body := Data(chunks) + sx.end(tail).body)
    && |Data(chunks)| <= room
  }

  lemma MadeNone(line: string, s: string, limit: nat, total: nat, sx: Syntax)
    requires sx.size(line) == Some(0) && total <= limit && Starts(line, s)
    ensures Made(line, s, DecodeChunks(line, s, limit, total, sx), limit - total, sx, [], line, s)
  {
    EmptyFirst(sx.end(s).body);
  }

  lemma MadeMore(line: string, s: string, d: Decoded, n: nat, data: string, next: string, rest: string, room: nat, sx: Syntax,
                 more: seq<RawChunk>, last: string, tail: string)
    requires ChunkOk(RawChunk(line, data), sx) && n == |data| <= room && s == data + (CRLF + (next + rest))
    requires Made(next, rest, d, room - n, sx, more, last, tail)
    ensures Made(line, s, d.(body := data + d.body), room, sx, [RawChunk(line, data)] + more, last, tail)
  {
    var chunks := [RawChunk(line, data)] + more;
    SpellMore(RawChunk(line, data), more, last + tail);
    Associative(data, Data(more), sx.end(tail).body);
  }

  lemma SpellMore(c: RawChunk, more: seq<RawChunk>, tail: string)
    ensures Spell([c] + more, tail) == c.size + (c.data + (CRLF + Spell(more, tail)))
    ensures Data([c] + more) == c.data + Data(more)
  {
    assert ([c] + more)[1..] == more;
  }

  /** A content that is accepted has a chunk behind a size line that announces one, and goes on behind it. */
  lemma ChunkOf(line: string, s: string, n: nat, limit: nat, total: nat, sx: Syntax) returns (data: string, next: string, rest: string)
    requires sx.size(line) == Some(n) && n > 0 && total <= limit
    requires DecodeChunks(line, s, limit, total, sx).result == Success
    ensures n != ULONG_MAX && total + n <= limit && sx.cut(s, n) == Whole(data, next, rest)
    ensures var d := DecodeChunks(next, rest, limit, total + n, sx);
            d.result == Success && DecodeChunks(line, s, limit, total, sx) == d.(body := data + d.body)
  {
    var c := sx.cut(s, n);
    data, next, rest := c.data, c.line, c.rest;
  }

  lemma ChunkStep(line: string, s: string, n: nat, limit: nat, total: nat, sx: Syntax)
    returns (data: string, next: string, rest: string, d: Decoded)
    requires ChunksCut(sx) && Starts(line, s) && total <= limit && sx.size(line) == Some(n) && n > 0
    requires DecodeChunks(line, s, limit, total, sx).result == Success
    ensures total + n <= limit && ChunkOk(RawChunk(line, data), sx) && |data| == n && |rest| < |s|
    ensures s == data + (CRLF + (next + rest)) && Starts(next, rest)
    ensures d == DecodeChunks(next, rest, limit, total + n, sx) && d.result == Success
    ensures DecodeChunks(line, s, limit, total, sx) == d.(body := data + d.body)
  {
    data, next, rest := ChunkOf(line, s, n, limit, total, sx);
    assert sx.cut(s, n) == CutChunk(s, n);
    CutSpelled(s, n, data, next, rest);
    SizeIsLine(line, s);
    d := DecodeChunks(next, rest, limit, total + n, sx);
  }

  lemma SizeKnown(line: string, s: string, limit: nat, total: nat, sx: Syntax) returns (n: nat)
    requires DecodeChunks(line, s, limit, total, sx).result == Success
    ensures sx.size(line) == Some(n)
  {
    n := sx.size(line).value;
  }

  lemma {:induction false} ChunksSpelled(line: string, s: string, limit: nat, total: nat, sx: Syntax)
    returns (chunks: seq<RawChunk>, last: string, tail: string)
    requires ChunksCut(sx) && total <= limit
    requires Starts(line, s) && DecodeChunks(line, s, limit, total, sx).result == Success
    ensures Made(line, s, DecodeChunks(line, s, limit, total, sx), limit - total, sx, chunks, last, tail)
    decreases |s|
  {
    var n := SizeKnown(line, s, limit, total, sx);
    if n == 0 {
      MadeNone(line, s, limit, total, sx);
      chunks, last, tail := [], line, s;
    } else {
      var data, next, rest, d := ChunkStep(line, s, n, limit, total, sx);
      var more: seq<RawChunk>;
      more, last, tail := ChunksSpelled(next, rest, limit, total + n, sx);
      MadeMore(line, s, d, n, data, next, rest, limit - total, sx, more, last, tail);
      chunks := [RawChunk(line, data)] + more;
    }
  }

  // ---- the trailer section ----

  /** The lines of an accepted trailer section, and the trailers they contribute, with room for so many. */
  ghost predicate Section(lines: seq<string>, keep: Keep, trailers: seq<Fields.Header>, room: int) {
    if lines == [] then trailers == []
    else
      && SectionLine(lines[0]) && room > 0 && keep(lines[0]) <= trailers
      && Section(lines[1..], keep, trailers[|keep(lines[0])|..], room - |keep(lines[0])|)
  }

  predicate SectionLine(line: string) { IsLine(line) && line != CRLF && |line| <= HEADER_MAX_LENGTH }

  /** What the source reads from a line of the section on. */
  ghost function SectionFrom(line: string, s: string, keep: Keep, count: nat): Decoded { DecodeTrailers(line, s, keep, count) }

  lemma LineOf(line: string, s: string, keep: Keep, count: nat, d: Decoded)
    returns (next: string, kept: seq<Fields.Header>, n: nat, rest: string, later: Decoded)
    requires line != CRLF && d == SectionFrom(line, s, keep, count) && d.result == Success
    ensures |line| <= HEADER_MAX_LENGTH && count < HEADER_MAX_COUNT && kept == keep(line) && n == count + |kept|
    ensures NextLine(s) == Some(next) && rest == s[|next|..]
    ensures later == SectionFrom(next, rest, keep, n) && later.result == Success
    ensures d == later.(trailers := kept + later.trailers)
  {
    next, kept := NextLine(s).value, keep(line);
    n, rest := count + |kept|, s[|next|..];
    later := DecodeTrailers(next, rest, keep, n);
  }

  /** An accepted section goes on behind a line that is not blank. */
  lemma LineStep(line: string, s: string, keep: Keep, count: nat, d: Decoded)
    returns (next: string, rest: string, kept: seq<Fields.Header>, n: nat, later: Decoded)
    requires Starts(line, s) && line != CRLF && d == SectionFrom(line, s, keep, count) && d.result == Success
    ensures SectionLine(line) && count < HEADER_MAX_COUNT && kept == keep(line) && n == count + |kept|
    ensures s == next + rest && Starts(next, rest) && |rest| < |s|
    ensures later == SectionFrom(next, rest, keep, n) && later.result == Success
    ensures d == later.(trailers := kept + later.trailers)
  {
    next, kept, n, rest, later := LineOf(line, s, keep, count, d);
    SizeIsLine(line, s);
    NextStarts(s);
  }

  lemma SectionNone(s: string, keep: Keep, count: nat)
    ensures Sectioned(CRLF, s, keep, count, SectionFrom(CRLF, s, keep, count), [])
  {
    EmptyFirst(CRLF + s);
  }

  /** The trailer section that starts with `line` consists of `lines`, a blank one, and what is left. */
  ghost predicate Sectioned(line: string, s: string, keep: Keep, count: nat, d: Decoded, lines: seq<string>) {
    line + s == Concat(lines) + (CRLF + d.rest) && Section(lines, keep, d.trailers, HEADER_MAX_COUNT - count)
  }

  lemma {:induction false} SectionSpelled(line: string, s: string, keep: Keep, count: nat, d: Decoded) returns (lines: seq<string>)
    requires Starts(line, s) && d == SectionFrom(line, s, keep, count) && d.result == Success
    ensures Sectioned(line, s, keep, count, d, lines)
    decreases |s|
  {
    if line == CRLF {
      SectionNone(s, keep, count);
      lines := [];
    } else {
      var next, rest, kept, n, later := LineStep(line, s, keep, count, d);
      var more := SectionSpelled(next, rest, keep, n, later);
      lines := SectionMore(line, s, next, rest, keep, count, kept, n, later, d, more);
    }
  }

  lemma SectionMore(line: string, s: string, next: string, rest: string, keep: Keep, count: nat, kept: seq<Fields.Header>,
                    n: nat, later: Decoded, d: Decoded, more: seq<string>) returns (lines: seq<string>)
    requires s == next + rest && SectionLine(line) && count < HEADER_MAX_COUNT && kept == keep(line)
    requires n == count + |kept| && Sectioned(next, rest, keep, n, later, more) && d == later.(trailers := kept + later.trailers)
    ensures Sectioned(line, s, keep, count, d, lines)
  {
    lines := [line] + more;
    assert lines[1..] == more;
    assert d.trailers[|kept|..] == later.trailers;
    Associative(line, Concat(more), CRLF + d.rest);
  }

  // ---- the whole message ----

  /** The `Trailer` header names this field, in some letter case, and it may be sent as a trailer. */
  ghost predicate Announced(trailer: Option<string>, name: string) {
    && trailer.Some? && Lower(name) !in PROHIBITED
    && exists p :: IsField(trailer.value, ',', p) && EqualIgnoreCase(p, name)
  }

  /** A well-formed line with an announced name contributes its name and value. */
  ghost function Contribution(line: string, trailer: Option<string>): seq<Fields.Header>
    requires |line| >= 2
  {
    match Fields.ParseHeader(line[..|line| - 2])
    case None => []
    case Some(h) => if Announced(trailer, h.0) then [h] else []
  }

  /** A section line is kept for what it contributes. */
  ghost function Announcing(trailer: Option<string>): Keep {
    line => if |line| >= 2 then Contribution(line, trailer) else []
  }

  lemma AnnouncedIs(trailer: Option<string>, name: string)
    ensures Announced(trailer, name) <==> Lower(name) in Declared(trailer, PROHIBITED)
  {
    DeclaredIs(trailer, PROHIBITED, Lower(name));
    if trailer.Some? {
      assert forall p :: EqualIgnoreCase(p, name) <==> Lower(p) == Lower(name);
    }
  }

  lemma ContributionIs(line: string, trailer: Option<string>)
    requires |line| >= 2
    ensures Contribution(line, trailer) == TrailerOf(line, Declared(trailer, PROHIBITED))
  {
    var h := Fields.ParseHeader(line[..|line| - 2]);
    if h.Some? { AnnouncedIs(trailer, h.value.0); }
  }

  ghost predicate SameRule(a: Keep, b: Keep) { forall line | |line| >= 2 :: a(line) == b(line) }

  /** A section read with the source's rule is one read with the other. */
  lemma {:induction false} SectionSame(lines: seq<string>, a: Keep, b: Keep, trailers: seq<Fields.Header>, room: int)
    requires SameRule(a, b)
    ensures Section(lines, a, trailers, room) <==> Section(lines, b, trailers, room)
  {
    if lines != [] && SectionLine(lines[0]) {
      var kept := a(lines[0]);
      assert b(lines[0]) == kept;
      if kept <= trailers { SectionSame(lines[1..], a, b, trailers[|kept|..], room - |kept|); }
    }
  }

  lemma RulesAgree(trailer: Option<string>, keep: Keep)
    requires TrailersRead(keep, Declared(trailer, PROHIBITED))
    ensures SameRule(keep, Announcing(trailer))
  {
    forall line | |line| >= 2 ensures keep(line) == Announcing(trailer)(line) {
      ContributionIs(line, trailer);
      assert keep(line) == TrailerOf(line, Declared(trailer, PROHIBITED));
    }
  }

  /** `s` begins with a message of these chunks and trailer lines; `body` and `trailers` are what it carries,
      `rest` is what is left behind it. At the end of the stream, or before a line too long to read, the
      trailer section with its blank line may be missing. */
  ghost predicate Message(s: string, limit: nat, trailer: Option<string>, body: string, trailers: seq<Fields.Header>, rest: string,
                          chunks: seq<RawChunk>, last: string, tail: string, lines: seq<string>)
  {
    && s == Spell(chunks, last + tail) && body == Data(chunks) && |body| <= limit
    && (forall c | c in chunks ::
          IsLine(c.size) && |c.size| <= MAX_LINE_LENGTH && 0 < |c.data| != ULONG_MAX && StrToUl(c.size) == Some(|c.data|))
    && Starts(last, tail) && StrToUl(last) == Some(0)
    && if NextLine(tail).None? then lines == [] && trailers == [] && rest == Unread(tail)
       else tail == Concat(lines) + (CRLF + rest) && Section(lines, Announcing(trailer), trailers, HEADER_MAX_COUNT)
  }

  /** What is accepted is a message. */
  lemma AcceptedIsMessage(s: string, limit: nat, trailer: Option<string>)
    returns (chunks: seq<RawChunk>, last: string, tail: string, lines: seq<string>)
    requires DecodeChunked(s, limit, SyntaxFor(Declared(trailer, PROHIBITED))).result == Success
    ensures var d := DecodeChunked(s, limit, SyntaxFor(Declared(trailer, PROHIBITED)));
            Message(s, limit, trailer, d.body, d.trailers, d.rest, chunks, last, tail, lines)
  {
    var names := Declared(trailer, PROHIBITED);
    var sx, keep := SyntaxFor(names), KeepDeclared(names);
    SyntaxReads(names);
    NextStarts(s);
    var line := NextLine(s).value;
    chunks, last, tail := ChunksSpelled(line, s[|line|..], limit, 0, sx);
    assert forall l {:trigger StrToUl(l)} :: sx.size(l) == StrToUl(l);
    assert sx.end(tail) == DecodeEnd(tail, keep);
    EndHasNoBody(tail, keep);
    assert Data(chunks) + "" == Data(chunks);
    lines := EndSpelled(tail, trailer, keep);
  }

  lemma EndSpelled(tail: string, trailer: Option<string>, keep: Keep) returns (lines: seq<string>)
    requires TrailersRead(keep, Declared(trailer, PROHIBITED)) && DecodeEnd(tail, keep).result == Success
    ensures var d := DecodeEnd(tail, keep);
            if NextLine(tail).None? then lines == [] && d.trailers == [] && d.rest == Unread(tail)
            else tail == Concat(lines) + (CRLF + d.rest) && Section(lines, Announcing(trailer), d.trailers, HEADER_MAX_COUNT)
  {
    lines := [];
    if NextLine(tail).Some? {
      var line := NextLine(tail).value;
      NextStarts(tail);
      lines := SectionSpelled(line, tail[|line|..], keep, 0, DecodeEnd(tail, keep));
      RulesAgree(trailer, keep);
      SectionSame(lines, keep, Announcing(trailer), DecodeEnd(tail, keep).trailers, HEADER_MAX_COUNT);
    }
  }

  // ---- every message is accepted ----

  lemma LineStarts(line: string, s: string)
    requires IsLine(line) && |line| <= MAX_LINE_LENGTH
    ensures Starts(line, s)
  {
    FindAppend(line, s, CRLF);
    assert (line + s)[..|line|] == line;
  }

  lemma StartsNext(line: string, s: string)
    requires Starts(line, s)
    ensures NextLine(line + s) == Some(line) && (line + s)[|line|..] == s
  {}

  lemma LineEndIsLine()
    ensures IsLine(CRLF)
  {
    assert OccursAt(CRLF, CRLF, 0);
  }

  lemma CutBack(data: string, next: string, rest: string)
    requires Starts(next, rest)
    ensures CutChunk(data + (CRLF + (next + rest)), |data|) == Whole(data, next, rest)
  {
    var behind := next + rest;
    var s := data + (CRLF + behind);
    LineEndIsLine();
    LineStarts(CRLF, behind);
    StartsNext(next, rest);
    assert s[..|data|] == data && s[|data|..] == CRLF + behind && s[|data| + 2..] == behind;
  }

  lemma ChunkDecoded(line: string, s: string, n: nat, data: string, next: string, rest: string, limit: nat, total: nat, sx: Syntax)
    requires sx.size(line) == Some(n) && 0 < n != ULONG_MAX && total + n <= limit && sx.cut(s, n) == Whole(data, next, rest)
    ensures var d := DecodeChunks(next, rest, limit, total + n, sx);
            DecodeChunks(line, s, limit, total, sx) == d.(body := data + d.body)
  {}

  lemma ChunkBack(c: RawChunk, next: string, rest: string, limit: nat, total: nat, sx: Syntax)
    requires ChunksCut(sx) && ChunkOk(c, sx) && Starts(next, rest) && total + |c.data| <= limit
    ensures Starts(c.size, c.data + (CRLF + (next + rest)))
    ensures var d := DecodeChunks(next, rest, limit, total + |c.data|, sx);
            DecodeChunks(c.size, c.data + (CRLF + (next + rest)), limit, total, sx) == d.(body := c.data + d.body)
  {
    var s := c.data + (CRLF + (next + rest));
    LineStarts(c.size, s);
    CutBack(c.data, next, rest);
    assert sx.cut(s, |c.data|) == CutChunk(s, |c.data|);
    ChunkDecoded(c.size, s, |c.data|, c.data, next, rest, limit, total, sx);
  }

  lemma {:induction false} ChunksBack(chunks: seq<RawChunk>, last: string, tail: string, limit: nat, total: nat, sx: Syntax)
    returns (line: string, rest: string)
    requires ChunksCut(sx) && forall i | 0 <= i < |chunks| :: ChunkOk(chunks[i], sx)
    requires Starts(last, tail) && sx.size(last) == Some(0) && total + |Data(chunks)| <= limit
    ensures Starts(line, rest) && Made(line, rest, DecodeChunks(line, rest, limit, total, sx), limit - total, sx, chunks, last, tail)
    decreases |chunks|
  {
    if chunks == [] {
      MadeNone(last, tail, limit, total, sx);
      line, rest := last, tail;
    } else {
      var c, more := chunks[0], chunks[1..];
      FirstData(chunks, c, more);
      var t: nat := total + |c.data|;
      var next, behind := ChunksBack(more, last, tail, limit, t, sx);
      line, rest := ChunkPutOn(c, next, behind, limit, total, t, sx, more, last, tail);
    }
  }

  lemma FirstData(chunks: seq<RawChunk>, c: RawChunk, more: seq<RawChunk>)
    requires chunks != [] && c == chunks[0] && more == chunks[1..]
    ensures chunks == [c] + more && |Data(chunks)| == |c.data| + |Data(more)|
  {}

  lemma ChunkPutOn(c: RawChunk, next: string, behind: string, limit: nat, total: nat, t: nat, sx: Syntax,
                   more: seq<RawChunk>, last: string, tail: string) returns (line: string, rest: string)
    requires ChunksCut(sx) && ChunkOk(c, sx) && Starts(next, behind) && t == total + |c.data| <= limit
    requires Made(next, behind, DecodeChunks(next, behind, limit, t, sx), limit - t, sx, more, last, tail)
    ensures Starts(line, rest)
    ensures Made(line, rest, DecodeChunks(line, rest, limit, total, sx), limit - total, sx, [c] + more, last, tail)
  {
    line, rest := c.size, c.data + (CRLF + (next + behind));
    ChunkBack(c, next, behind, limit, total, sx);
    MadeMore(line, rest, DecodeChunks(next, behind, limit, total + |c.data|, sx), |c.data|, c.data, next, behind,
             limit - total, sx, more, last, tail);
  }

  lemma LineDecoded(line: string, next: string, rest: string, keep: Keep, count: nat)
    requires line != CRLF && |line| <= HEADER_MAX_LENGTH && count < HEADER_MAX_COUNT && Starts(next, rest)
    ensures var d := DecodeTrailers(next, rest, keep, count + |keep(line)|);
            DecodeTrailers(line, next + rest, keep, count) == d.(trailers := keep(line) + d.trailers)
  {
    StartsNext(next, rest);
  }

  lemma BlankDecoded(s: string, keep: Keep, count: nat)
    ensures DecodeTrailers(CRLF, s, keep, count) == Decoded(Success, "", [], s)
  {}

  ghost predicate SectionRead(line: string, s: string, keep: Keep, count: nat, trailers: seq<Fields.Header>, rest: string) {
    Starts(line, s) && SectionFrom(line, s, keep, count) == Decoded(Success, "", trailers, rest)
  }

  lemma LinePutOn(line: string, next: string, behind: string, keep: Keep, count: nat, trailers: seq<Fields.Header>, rest: string)
    requires SectionLine(line) && count < HEADER_MAX_COUNT
    requires SectionRead(next, behind, keep, count + |keep(line)|, trailers, rest)
    ensures SectionRead(line, next + behind, keep, count, keep(line) + trailers, rest)
  {
    LineStarts(line, next + behind);
    LineDecoded(line, next, behind, keep, count);
  }

  lemma BlankPutOn(rest: string, keep: Keep, count: nat)
    ensures SectionRead(CRLF, rest, keep, count, [], rest)
  {
    LineEndIsLine();
    LineStarts(CRLF, rest);
    BlankDecoded(rest, keep, count);
  }

  lemma FirstOfSection(lines: seq<string>, keep: Keep, trailers: seq<Fields.Header>, room: int)
    returns (line: string, kept: seq<Fields.Header>, more: seq<string>, later: seq<Fields.Header>)
    requires lines != [] && Section(lines, keep, trailers, room)
    ensures line == lines[0] && more == lines[1..] && SectionLine(line) && room > 0
    ensures kept == keep(line) && trailers == kept + later && Section(more, keep, later, room - |kept|)
    ensures Concat(lines) == line + Concat(more)
  {
    line, kept, more := lines[0], keep(lines[0]), lines[1..];
    later := trailers[|kept|..];
  }

  /** The section of these lines, `line` its first. */
  ghost predicate SectionMade(line: string, s: string, keep: Keep, count: nat, lines: seq<string>,
                              trailers: seq<Fields.Header>, rest: string)
  {
    line + s == Concat(lines) + (CRLF + rest) && SectionRead(line, s, keep, count, trailers, rest)
  }

  lemma NoLines(lines: seq<string>, rest: string, keep: Keep, trailers: seq<Fields.Header>, count: nat)
    requires lines == [] && trailers == []
    ensures SectionMade(CRLF, rest, keep, count, lines, trailers, rest)
  {
    BlankPutOn(rest, keep, count);
    EmptyFirst(CRLF + rest);
  }

  lemma MoreLines(lines: seq<string>, line: string, more: seq<string>, kept: seq<Fields.Header>, later: seq<Fields.Header>,
                  trailers: seq<Fields.Header>, next: string, behind: string, rest: string, keep: Keep, count: nat, n: nat)
    returns (s: string)
    requires Concat(lines) == line + Concat(more) && SectionLine(line) && count < HEADER_MAX_COUNT && kept == keep(line)
    requires n == count + |kept| && SectionMade(next, behind, keep, n, more, later, rest) && trailers == kept + later
    ensures s == next + behind && SectionMade(line, s, keep, count, lines, trailers, rest)
  {
    LinePutOn(line, next, behind, keep, count, later, rest);
    Associative(line, Concat(more), CRLF + rest);
    s := next + behind;
  }

  lemma {:induction false} SectionBack(lines: seq<string>, rest: string, keep: Keep, trailers: seq<Fields.Header>, count: nat)
    returns (line: string, s: string)
    requires Section(lines, keep, trailers, HEADER_MAX_COUNT - count)
    ensures SectionMade(line, s, keep, count, lines, trailers, rest)
    decreases |lines|
  {
    if lines == [] {
      NoLines(lines, rest, keep, trailers, count);
      line, s := CRLF, rest;
    } else {
      var kept, more, later;
      line, kept, more, later := FirstOfSection(lines, keep, trailers, HEADER_MAX_COUNT - count);
      var n: nat := count + |kept|;
      var next, behind := SectionBack(more, rest, keep, later, n);
      s := MoreLines(lines, line, more, kept, later, trailers, next, behind, rest, keep, count, n);
    }
  }

  lemma EndBack(tail: string, trailer: Option<string>, keep: Keep, trailers: seq<Fields.Header>, rest: string, lines: seq<string>)
    requires TrailersRead(keep, Declared(trailer, PROHIBITED))
    requires if NextLine(tail).None? then trailers == [] && rest == Unread(tail)
             else tail == Concat(lines) + (CRLF + rest) && Section(lines, Announcing(trailer), trailers, HEADER_MAX_COUNT)
    ensures DecodeEnd(tail, keep) == Decoded(Success, "", trailers, rest)
  {
    if NextLine(tail).Some? {
      RulesAgree(trailer, keep);
      SectionSame(lines, keep, Announcing(trailer), trailers, HEADER_MAX_COUNT);
      var line, s := SectionBack(lines, rest, keep, trailers, 0);
      StartsNext(line, s);
    }
  }

  lemma AcceptedWith(s: string, limit: nat, trailer: Option<string>, body: string, trailers: seq<Fields.Header>, rest: string,
                     chunks: seq<RawChunk>, last: string, tail: string, lines: seq<string>, sx: Syntax, keep: Keep)
    requires ChunksCut(sx) && EndsRead(sx, keep) && TrailersRead(keep, Declared(trailer, PROHIBITED))
    requires forall i | 0 <= i < |chunks| :: ChunkOk(chunks[i], sx)
    requires Starts(last, tail) && sx.size(last) == Some(0)
    requires s == Spell(chunks, last + tail) && body == Data(chunks) && |body| <= limit
    requires if NextLine(tail).None? then trailers == [] && rest == Unread(tail)
             else tail == Concat(lines) + (CRLF + rest) && Section(lines, Announcing(trailer), trailers, HEADER_MAX_COUNT)
    ensures DecodeChunked(s, limit, sx) == Decoded(Success, body, trailers, rest)
  {
    EndBack(tail, trailer, keep, trailers, rest, lines);
    assert sx.end(tail) == DecodeEnd(tail, keep);
    var line, behind := ChunksBack(chunks, last, tail, limit, 0, sx);
    StartsNext(line, behind);
    assert body + "" == body;
  }

  /** Every message within the limits is accepted, with what it carries. */
  lemma MessageIsAccepted(s: string, limit: nat, trailer: Option<string>, body: string, trailers: seq<Fields.Header>, rest: string,
                          chunks: seq<RawChunk>, last: string, tail: string, lines: seq<string>)
    requires Message(s, limit, trailer, body, trailers, rest, chunks, last, tail, lines)
    ensures DecodeChunked(s, limit, SyntaxFor(Declared(trailer, PROHIBITED))) == Decoded(Success, body, trailers, rest)
  {
    var names := Declared(trailer, PROHIBITED);
    var sx, keep := SyntaxFor(names), KeepDeclared(names);
    SyntaxReads(names);
    forall i | 0 <= i < |chunks| ensures ChunkOk(chunks[i], sx) {
      assert chunks[i] in chunks;
      assert sx.size(chunks[i].size) == StrToUl(chunks[i].size);
    }
    assert sx.size(last) == StrToUl(last);
    AcceptedWith(s, limit, trailer, body, trailers, rest, chunks, last, tail, lines, sx, keep);
  }

  /** A stream is accepted exactly when it begins with a message, and what comes out is what that carries. */
  lemma AcceptsMessages(s: string, limit: nat, trailer: Option<string>, body: string, trailers: seq<Fields.Header>, rest: string)
    ensures DecodeChunked(s, limit, SyntaxFor(Declared(trailer, PROHIBITED))) == Decoded(Success, body, trailers, rest) <==>
              exists chunks, last, tail, lines :: Message(s, limit, trailer, body, trailers, rest, chunks, last, tail, lines)
  {
    if DecodeChunked(s, limit, SyntaxFor(Declared(trailer, PROHIBITED))) == Decoded(Success, body, trailers, rest) {
      var chunks, last, tail, lines := AcceptedIsMessage(s, limit, trailer);
    }
    forall chunks, last, tail, lines | Message(s, limit, trailer, body, trailers, rest, chunks, last, tail, lines)
      ensures DecodeChunked(s, limit, SyntaxFor(Declared(trailer, PROHIBITED))) == Decoded(Success, body, trailers, rest)
    {
      MessageIsAccepted(s, limit, trailer, body, trailers, rest, chunks, last, tail, lines);
    }
  }
}
