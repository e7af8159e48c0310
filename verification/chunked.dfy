/** Chunked transfer coding (sections 7.1 and 7.1.2 of RFC 9112): writer and reader. */
module Chunked {
  import opened Wrappers
  import opened Limits
  import opened Text
  import opened Streams
  import Fields
  import Uri

  const ULONG_MAX := 0xFFFF_FFFF_FFFF_FFFF

  // ---- strtoul in base 16 ----

  predicate IsSpace(c: char) { c == ' ' || 9 <= c as int <= 13 }

  function SpaceEnd(s: string, i: nat): (e: nat)
    requires i <= |s|
    ensures i <= e <= |s|
    decreases |s| - i
  {
    if i < |s| && IsSpace(s[i]) then SpaceEnd(s, i + 1) else i
  }

  function HexEnd(s: string, i: nat): (e: nat)
    requires i <= |s|
    ensures i <= e <= |s| && forall k | i <= k < e :: Uri.IsHex(s[k])
    decreases |s| - i
  {
    if i < |s| && Uri.IsHex(s[i]) then HexEnd(s, i + 1) else i
  }

  function HexRun(s: string, k: nat): (h: string)
    requires k <= |s|
    ensures |h| == HexEnd(s, k) - k && forall i | 0 <= i < |h| :: Uri.IsHex(h[i])
  {
    s[k..HexEnd(s, k)]
  }

  predicate IsSign(c: char) { c == '-' || c == '+' }

  /** `x` and a hexadecimal digit at `i`: with a `0` before them, a prefix. */
  predicate PrefixAt(s: string, i: nat) { i + 1 < |s| && (s[i] == 'x' || s[i] == 'X') && Uri.IsHex(s[i + 1]) }

  /** Behind blanks, a sign and a prefix. */
  function DigitsBegin(s: string): (k: nat)
    ensures k <= |s|
  {
    var i := SpaceEnd(s, 0);
    var j := if i < |s| && IsSign(s[i]) then i + 1 else i;
    if j < |s| && s[j] == '0' && PrefixAt(s, j + 1) then j + 2 else j
  }

  predicate Negative(s: string) { SpaceEnd(s, 0) < |s| && s[SpaceEnd(s, 0)] == '-' }

  /** `strtoul(s, &end, 16)`: None when nothing was converted, ULONG_MAX on overflow. */
  function StrToUl(s: string): Option<nat> {
    var digits := HexRun(s, DigitsBegin(s));
    if digits == "" then None
    else
      var v := Uri.HexNumber(digits);
      if v > ULONG_MAX then Some(ULONG_MAX)
      else if Negative(s) && v > 0 then Some(ULONG_MAX + 1 - v)
      else Some(v)
  }

  // ---- the reader ----

  datatype ReadContentResult = Success | PayloadTooLarge | Error

  /** Outcome, bytes delivered, trailers kept, and what is left of the stream. */
  datatype Decoded = Decoded(result: ReadContentResult, body: string, trailers: seq<Fields.Header>, rest: string)

  const PROHIBITED: set<string> := {
    "transfer-encoding", "content-length", "host", "authorization", "www-authenticate", "proxy-authenticate",
    "proxy-authorization", "cookie", "set-cookie", "cache-control", "expect", "max-forwards", "pragma", "range", "te",
    "age", "expires", "date", "location", "retry-after", "vary", "warning",
    "content-encoding", "content-type", "content-range", "trailer" }

  /** The lower-cased names a `Trailer` header declares, without the prohibited ones. */
  function Declared(trailer: Option<string>, prohibited: set<string>): set<string> {
    match trailer
    case None => {}
    case Some(value) => Permitted(Split(value, ','), prohibited)
  }

  function Permitted(keys: seq<string>, prohibited: set<string>): set<string> {
    if keys == [] then {}
    else
      var last := Lower(keys[|keys| - 1]);
      Permitted(keys[..|keys| - 1], prohibited) + if last in prohibited then {} else {last}
  }

  /** A name is declared exactly when it is a field of the `Trailer` value in some letter case, and is not
      prohibited. */
  lemma DeclaredIs(trailer: Option<string>, prohibited: set<string>, name: string)
    ensures name in Declared(trailer, prohibited) <==>
              trailer.Some? && name !in prohibited && exists p :: IsField(trailer.value, ',', p) && Lower(p) == name
  {
    if trailer.Some? {
      var keys := Split(trailer.value, ',');
      PermittedIs(keys, prohibited, name);
      forall p ensures p in keys <==> IsField(trailer.value, ',', p) { SplitIsFields(trailer.value, ',', p); }
    }
  }

  lemma {:induction false} PermittedIs(keys: seq<string>, prohibited: set<string>, name: string)
    ensures name in Permitted(keys, prohibited) <==> name !in prohibited && exists p :: p in keys && Lower(p) == name
  {
    if keys != [] {
      var n := |keys| - 1;
      PermittedIs(keys[..n], prohibited, name);
      assert keys == keys[..n] + [keys[n]];
      assert keys[n] in keys;
    }
  }

  function TrailerOf(line: string, declared: set<string>): seq<Fields.Header> {
    match Fields.ParseHeader(if |line| >= 2 then line[..|line| - 2] else "")
    case None => []
    case Some(header) => if Lower(header.0) in declared then [header] else []
  }

  /** Which trailer a line of the trailer section contributes, if any. */
  type Keep = string -> seq<Fields.Header>

  function KeepDeclared(declared: set<string>): Keep { line => TrailerOf(line, declared) }

  ghost predicate TrailersRead(keep: Keep, declared: set<string>) {
    forall line {:trigger TrailerOf(line, declared)} :: keep(line) == TrailerOf(line, declared)
  }

  /** The trailer section when `line` has just been read and `s` follows. */
  function DecodeTrailers(line: string, s: string, keep: Keep, count: nat): Decoded
    decreases |s|
  {
    if line == CRLF then Decoded(Success, "", [], s)
    else if |line| > HEADER_MAX_LENGTH || count >= HEADER_MAX_COUNT then Decoded(Error, "", [], s)
    else
      var kept := keep(line);
      match NextLine(s)
      case None => Decoded(Error, "", kept, s)
      case Some(next) =>
        var d := DecodeTrailers(next, s[|next|..], keep, count + |kept|);
        d.(trailers := kept + d.trailers)
  }

  /** What follows the last chunk; a missing or overlong line there counts as the end. */
  function DecodeEnd(s: string, keep: Keep): Decoded {
    match NextLine(s)
    case None => Decoded(Success, "", [], Unread(s))
    case Some(line) => DecodeTrailers(line, s[|line|..], keep, 0)
  }

  /** What stands behind a chunk-size line announcing `n` bytes: the data, its CR LF and the next size line. */
  datatype Chunk = Short | Broken(data: string) | Whole(data: string, line: string, rest: string)

  function CutChunk(s: string, n: nat): (c: Chunk)
    ensures c.Whole? ==> n + |c.rest| < |s| && |c.data| == n
  {
    if |s| < n then Short
    else if NextLine(s[n..]) != Some(CRLF) || NextLine(s[n + 2..]) == None then Broken(s[..n])
    else
      var line := NextLine(s[n + 2..]).value;
      Whole(s[..n], line, s[n + 2..][|line|..])
  }

  /** A way to cut a chunk off the stream; what is left is shorter. */
  type Cutter = cut: (string, nat) -> Chunk | forall s: string, n: nat :: cut(s, n).Whole? ==> |cut(s, n).rest| < |s|
    witness (s: string, n: nat) => Short

  /** How a chunk-size line is read, how the chunk behind it is cut off, and what becomes of the stream
      behind the last one. */
  datatype Syntax = Syntax(size: string -> Option<nat>, cut: Cutter, end: string -> Decoded)

  function SyntaxFor(declared: set<string>): Syntax {
    var keep := KeepDeclared(declared);
    Syntax(line => StrToUl(line), (s: string, n: nat) => CutChunk(s, n), s => DecodeEnd(s, keep))
  }

  ghost predicate SizesRead(sx: Syntax) {
    forall line {:trigger StrToUl(line)} :: sx.size(line) == StrToUl(line)
  }

  ghost predicate ChunksCut(sx: Syntax) {
    forall s: string, n: nat {:trigger CutChunk(s, n)} :: sx.cut(s, n) == CutChunk(s, n)
  }

  ghost predicate EndsRead(sx: Syntax, keep: Keep) {
    forall s {:trigger DecodeEnd(s, keep)} :: sx.end(s) == DecodeEnd(s, keep)
  }

  lemma SyntaxReads(declared: set<string>)
    ensures SizesRead(SyntaxFor(declared)) && ChunksCut(SyntaxFor(declared))
    ensures EndsRead(SyntaxFor(declared), KeepDeclared(declared))
    ensures TrailersRead(KeepDeclared(declared), declared)
  {}

  /** The rest of the content when the chunk-size line `line` has been read and `s` follows,
      `total` bytes of content having been announced before. */
  function DecodeChunks(line: string, s: string, limit: nat, total: nat, sx: Syntax): Decoded
    decreases |s|
  {
    match sx.size(line)
    case None => Decoded(Error, "", [], s)
    case Some(n) =>
      if n == ULONG_MAX then Decoded(Error, "", [], s)
      else if n == 0 then sx.end(s)
      else if total > limit || limit - total < n then Decoded(PayloadTooLarge, "", [], s)
      else match sx.cut(s, n)
        case Short => Decoded(Error, s, [], "")
        case Broken(data) => Decoded(Error, data, [], "")
        case Whole(data, next, rest) =>
          var d := DecodeChunks(next, rest, limit, total + n, sx);
          d.(body := data + d.body)
  }

  function DecodeChunked(s: string, limit: nat, sx: Syntax): Decoded {
    match NextLine(s)
    case None => Decoded(Error, "", [], s)
    case Some(line) => DecodeChunks(line, s[|line|..], limit, 0, sx)
  }

  lemma {:induction false} TrailersHaveNoBody(line: string, s: string, keep: Keep, count: nat)
    ensures DecodeTrailers(line, s, keep, count).body == ""
    decreases |s|
  {
    if NextLine(s).Some? {
      TrailersHaveNoBody(NextLine(s).value, s[|NextLine(s).value|..], keep, count + |keep(line)|);
    }
  }

  lemma EndHasNoBody(s: string, keep: Keep)
    ensures DecodeEnd(s, keep).body == ""
  {
    if NextLine(s).Some? {
      TrailersHaveNoBody(NextLine(s).value, s[|NextLine(s).value|..], keep, 0);
    }
  }

  /** A read failed or the receiver refused. */
  twostate predicate Disturbed(strm: SocketStream, out: Receiver)
    reads strm, out
  {
    strm.errors != old(strm.errors) || out.refusals != old(out.refusals)
  }

  method ReadTrailers(reader: StreamLineReader, declared: set<string>, ghost keep: Keep)
    returns (result: ReadContentResult, trailers: seq<Fields.Header>)
    requires reader.Valid()
    requires TrailersRead(keep, declared)
    modifies reader, reader.fixedBuffer, reader.strm, reader.strm.readBuff, reader.strm.sock
    ensures reader.Valid()
    ensures reader.strm.errors == old(reader.strm.errors) ==>
      var d := DecodeTrailers(old(reader.Line()), old(reader.strm.Pending()), keep, 0);
      result == d.result && trailers == d.trailers && (result == Success ==> reader.strm.Pending() == d.rest)
  {
    trailers := [];
    var strm := reader.strm;
    ghost var all := DecodeTrailers(reader.Line(), strm.Pending(), keep, 0);
    assert [] + all.trailers == all.trailers;
    while reader.Line() != CRLF
      invariant reader.Valid() && strm.errors == old(strm.errors)
      invariant Kept(all, trailers, DecodeTrailers(reader.Line(), strm.Pending(), keep, |trailers|))
      decreases |strm.Pending()|
    {
      ghost var line, s, before := reader.Line(), strm.Pending(), trailers;
      TrailerTaken(all, before, line, s, keep);
      if |reader.Line()| > HEADER_MAX_LENGTH || |trailers| >= HEADER_MAX_COUNT { return Error, trailers; }
      var kept := KeepTrailer(reader.Line(), declared, keep);
      trailers := trailers + kept;
      var more := reader.GetLine();
      if !more { return Error, trailers; }
      assert s[|reader.Line()|..] == strm.Pending();
    }
    assert trailers + [] == trailers;
    result := Success;
  }

  /** Reading on, with `sofar` kept, amounts to `all`. */
  ghost predicate Kept(all: Decoded, sofar: seq<Fields.Header>, d: Decoded) {
    all == d.(trailers := sofar + d.trailers)
  }

  lemma TrailerTaken(all: Decoded, sofar: seq<Fields.Header>, line: string, s: string, keep: Keep)
    requires line != CRLF && Kept(all, sofar, DecodeTrailers(line, s, keep, |sofar|))
    ensures |line| > HEADER_MAX_LENGTH || |sofar| >= HEADER_MAX_COUNT ==> all.result == Error && all.trailers == sofar
    ensures |line| <= HEADER_MAX_LENGTH && |sofar| < HEADER_MAX_COUNT ==>
              var more := sofar + keep(line);
              match NextLine(s)
              case None => all.result == Error && all.trailers == more
              case Some(next) => Kept(all, more, DecodeTrailers(next, s[|next|..], keep, |more|))
  {
    assert sofar + [] == sofar;
    if NextLine(s).Some? {
      var next, kept := NextLine(s).value, keep(line);
      Associative(sofar, kept, DecodeTrailers(next, s[|next|..], keep, |sofar + kept|).trailers);
    }
  }

  method KeepTrailer(line: string, declared: set<string>, ghost keep: Keep) returns (kept: seq<Fields.Header>)
    requires TrailersRead(keep, declared)
    ensures kept == keep(line)
  {
    var header := Fields.ParseHeaderLine(if |line| >= 2 then line[..|line| - 2] else "");
    assert keep(line) == TrailerOf(line, declared);
    kept := if header.Some? && Lower(header.value.0) in declared then [header.value] else [];
  }

  method ReadChunkData(reader: StreamLineReader, n: nat, out: Receiver, ghost sx: Syntax) returns (ok: bool)
    requires reader.Valid() && ChunksCut(sx)
    modifies reader, reader.fixedBuffer, reader.strm, reader.strm.readBuff, reader.strm.sock, out
    ensures reader.Valid()
    ensures Disturbed(reader.strm, out) ==> !ok
    ensures !Disturbed(reader.strm, out) ==>
      match sx.cut(old(reader.strm.Pending()), n)
      case Short => !ok && out.got == old(out.got) + old(reader.strm.Pending())
      case Broken(data) => !ok && out.got == old(out.got) + data
      case Whole(data, line, rest) => ok && out.got == old(out.got) + data && line == reader.Line() && rest == reader.strm.Pending()
  {
    ghost var s := reader.strm.Pending();
    assert sx.cut(s, n) == CutChunk(s, n);
    ok := ReadContentWithLength(reader.strm, n, out);
    if !ok { return; }
    ok := reader.GetLine();
    if !ok { return; }
    assert s[n..] == reader.Line() + reader.strm.Pending();
    if reader.Line() != CRLF { return false; }
    assert reader.strm.Pending() == s[n + 2..];
    ok := reader.GetLine();
    if ok { assert s[n + 2..][|reader.Line()|..] == reader.strm.Pending(); }
  }

  method ReadSize(line: string, ghost sx: Syntax) returns (n: Option<nat>)
    requires SizesRead(sx)
    ensures n == sx.size(line)
  {
    n := StrToUl(line);
  }

  /** The names the `Trailer` header declares, case folded as the source's set does. */
  method DeclaredNames(trailer: Option<string>, prohibited: set<string>) returns (names: set<string>)
    ensures names == Declared(trailer, prohibited)
  {
    names := {};
    if trailer == None { return; }
    var keys := SplitFields(trailer.value, ',');
    for i := 0 to |keys|
      invariant names == Permitted(keys[..i], prohibited)
    {
      assert keys[..i + 1][..i] == keys[..i];
      if Lower(keys[i]) !in prohibited { names := names + {Lower(keys[i])}; }
    }
    assert keys[..|keys|] == keys;
  }

  /** Decoding from here, with `sofar` delivered, amounts to `all` after `got`. */
  ghost predicate Ahead(all: Decoded, got: string, sofar: string, d: Decoded) {
    all.(body := "") == d.(body := "") && got + all.body == sofar + d.body
  }

  /** One round of the chunk loop on the plain stream. */
  lemma ChunkTaken(all: Decoded, got: string, sofar: string, line: string, s: string, n: nat, limit: nat, total: nat, sx: Syntax)
    requires sx.size(line) == Some(n) && 0 < n != ULONG_MAX && total + n <= limit
    requires Ahead(all, got, sofar, DecodeChunks(line, s, limit, total, sx))
    ensures match sx.cut(s, n)
            case Short => all.result == Error && all.trailers == [] && got + all.body == sofar + s
            case Broken(data) => all.result == Error && all.trailers == [] && got + all.body == sofar + data
            case Whole(data, next, rest) => Ahead(all, got, sofar + data, DecodeChunks(next, rest, limit, total + n, sx))
  {
    var c := sx.cut(s, n);
    if c.Whole? { Associative(sofar, c.data, DecodeChunks(c.line, c.rest, limit, total + n, sx).body); }
  }

  /** A size line that ends the content: the end of it, or a fault in it. */
  lemma LastLine(all: Decoded, got: string, sofar: string, line: string, s: string, limit: nat, total: nat, sx: Syntax)
    requires total <= limit && Ahead(all, got, sofar, DecodeChunks(line, s, limit, total, sx))
    ensures var n := sx.size(line);
            && (n == Some(0) ==> Ahead(all, got, sofar, sx.end(s)))
            && (n == None || n == Some(ULONG_MAX) ==> all.result == Error && all.trailers == [] && sofar == got + all.body)
            && (n.Some? && 0 < n.value != ULONG_MAX && limit - total < n.value ==>
                  all.result == PayloadTooLarge && all.trailers == [] && sofar == got + all.body)
  {
    assert sofar + "" == sofar;
  }

  /** The running total never passes the limit, whatever the outcome. */
  lemma {:induction false} WithinLimit(line: string, s: string, limit: nat, total: nat, sx: Syntax)
    requires total <= limit && ChunksCut(sx) && forall t :: sx.end(t).body == ""
    ensures total + |DecodeChunks(line, s, limit, total, sx).body| <= limit
    decreases |s|
  {
    var n := sx.size(line);
    if n.Some? && 0 < n.value != ULONG_MAX && total + n.value <= limit {
      var c := sx.cut(s, n.value);
      assert c == CutChunk(s, n.value);
      if c.Whole? { WithinLimit(c.line, c.rest, limit, total + n.value, sx); }
    }
  }

  /** Whatever arrives, and whether or not it is accepted, no more than the payload limit is delivered. */
  lemma ContentWithinLimit(s: string, declared: set<string>, limit: nat)
    ensures |DecodeChunked(s, limit, SyntaxFor(declared)).body| <= limit
  {
    var sx, keep := SyntaxFor(declared), KeepDeclared(declared);
    SyntaxReads(declared);
    forall t ensures sx.end(t).body == "" {
      EndHasNoBody(t, keep);
      assert sx.end(t) == DecodeEnd(t, keep);
    }
    match NextLine(s)
    case None =>
    case Some(line) => WithinLimit(line, s[|line|..], limit, 0, sx);
  }

  datatype ChunkStep = More(n: nat) | Last | Fail(result: ReadContentResult)

  /** What one round of the chunk loop has achieved. */
  ghost predicate StepDone(step: ChunkStep, all: Decoded, got: string, sofar: string, line: string, rest: string,
                           limit: nat, total: nat, sx: Syntax)
  {
    match step
    case More(n) => total + n <= limit && Ahead(all, got, sofar, DecodeChunks(line, rest, limit, total + n, sx))
    case Last => Ahead(all, got, sofar, sx.end(rest))
    case Fail(result) => all.result == result && result != Success && all.trailers == [] && sofar == got + all.body
  }

  method NextChunk(reader: StreamLineReader, limit: nat, total: nat, out: Receiver, ghost all: Decoded, ghost got: string, ghost sx: Syntax)
    returns (step: ChunkStep)
    requires reader.Valid() && SizesRead(sx) && ChunksCut(sx) && total <= limit
    requires Ahead(all, got, out.got, DecodeChunks(reader.Line(), reader.strm.Pending(), limit, total, sx))
    modifies reader, reader.fixedBuffer, reader.strm, reader.strm.readBuff, reader.strm.sock, out
    ensures reader.Valid()
    ensures Disturbed(reader.strm, out) ==> step == Fail(Error)
    ensures !Disturbed(reader.strm, out) ==>
              StepDone(step, all, got, out.got, reader.Line(), reader.strm.Pending(), limit, total, sx)
    ensures step.More? ==> |reader.strm.Pending()| < |old(reader.strm.Pending())|
  {
    ghost var line, rest, sofar := reader.Line(), reader.strm.Pending(), out.got;
    var n := ReadSize(reader.Line(), sx);
    LastLine(all, got, sofar, line, rest, limit, total, sx);
    if n == None || n == Some(ULONG_MAX) { return Fail(Error); }
    if n == Some(0) { return Last; }
    if total > limit || limit - total < n.value { return Fail(PayloadTooLarge); }
    step := TakeChunk(reader, n.value, limit, total, out, all, got, sx);
  }

  method TakeChunk(reader: StreamLineReader, n: nat, limit: nat, total: nat, out: Receiver,
                   ghost all: Decoded, ghost got: string, ghost sx: Syntax)
    returns (step: ChunkStep)
    requires reader.Valid() && ChunksCut(sx) && sx.size(reader.Line()) == Some(n) && 0 < n != ULONG_MAX && total + n <= limit
    requires Ahead(all, got, out.got, DecodeChunks(reader.Line(), reader.strm.Pending(), limit, total, sx))
    modifies reader, reader.fixedBuffer, reader.strm, reader.strm.readBuff, reader.strm.sock, out
    ensures reader.Valid()
    ensures Disturbed(reader.strm, out) ==> step == Fail(Error)
    ensures !Disturbed(reader.strm, out) ==>
              StepDone(step, all, got, out.got, reader.Line(), reader.strm.Pending(), limit, total, sx)
    ensures step.More? ==> |reader.strm.Pending()| < |old(reader.strm.Pending())|
  {
    ChunkTaken(all, got, out.got, reader.Line(), reader.strm.Pending(), n, limit, total, sx);
    var more := ReadChunkData(reader, n, out, sx);
    step := if more then More(n) else Fail(Error);
  }

  /** The chunk loop, from the first size line on. */
  method ReadChunks(reader: StreamLineReader, limit: nat, out: Receiver, ghost all: Decoded, ghost got: string, ghost sx: Syntax)
    returns (step: ChunkStep)
    requires reader.Valid() && SizesRead(sx) && ChunksCut(sx)
    requires Ahead(all, got, out.got, DecodeChunks(reader.Line(), reader.strm.Pending(), limit, 0, sx))
    modifies reader, reader.fixedBuffer, reader.strm, reader.strm.readBuff, reader.strm.sock, out
    ensures reader.Valid() && !step.More?
    ensures Disturbed(reader.strm, out) ==> step.Fail?
    ensures !Disturbed(reader.strm, out) ==>
              StepDone(step, all, got, out.got, reader.Line(), reader.strm.Pending(), limit, 0, sx)
  {
    var total: nat := 0;
    step := More(0);
    while step.More?
      invariant reader.Valid()
      invariant step.More? ==> total <= limit && !Disturbed(reader.strm, out)
      invariant step.More? ==> StepDone(More(0), all, got, out.got, reader.Line(), reader.strm.Pending(), limit, total, sx)
      invariant Disturbed(reader.strm, out) ==> step.Fail?
      invariant !step.More? && !Disturbed(reader.strm, out) ==>
                  StepDone(step, all, got, out.got, reader.Line(), reader.strm.Pending(), limit, 0, sx)
      decreases step.More?, |reader.strm.Pending()|
    {
      step := NextChunk(reader, limit, total, out, all, got, sx);
      if step.More? { total := total + step.n; }
    }
  }

  /** `read_content_chunked`: unless a read fails or the receiver refuses, result, content, trailers and
      the point where reading stops are those of the plain stream. */
  method ReadContentChunked(strm: SocketStream, trailer: Option<string>, limit: nat, out: Receiver)
    returns (result: ReadContentResult, trailers: seq<Fields.Header>)
    requires strm.Valid()
    modifies strm, strm.readBuff, strm.sock, out
    ensures strm.Valid()
    ensures !Disturbed(strm, out) ==>
      var d := DecodeChunked(old(strm.Pending()), limit, SyntaxFor(Declared(trailer, PROHIBITED)));
      && result == d.result && out.got == old(out.got) + d.body && trailers == d.trailers
      && (result == Success ==> strm.Pending() == d.rest)
  {
    var names := DeclaredNames(trailer, PROHIBITED);
    SyntaxReads(names);
    result, trailers := ReadDeclared(strm, names, limit, out, SyntaxFor(names), KeepDeclared(names));
  }

  method ReadDeclared(strm: SocketStream, names: set<string>, limit: nat, out: Receiver, ghost sx: Syntax, ghost keep: Keep)
    returns (result: ReadContentResult, trailers: seq<Fields.Header>)
    requires strm.Valid() && SizesRead(sx) && ChunksCut(sx) && EndsRead(sx, keep) && TrailersRead(keep, names)
    modifies strm, strm.readBuff, strm.sock, out
    ensures strm.Valid()
    ensures !Disturbed(strm, out) ==>
      var d := DecodeChunked(old(strm.Pending()), limit, sx);
      && result == d.result && out.got == old(out.got) + d.body && trailers == d.trailers
      && (result == Success ==> strm.Pending() == d.rest)
  {
    var buf := new char[16];
    var reader := new StreamLineReader(strm, buf);
    ghost var got := out.got;
    ghost var start := strm.Pending();
    ghost var all := DecodeChunked(start, limit, sx);
    var more := reader.GetLine();
    assert got + "" == got;
    if !more { return Error, []; }
    assert start[|reader.Line()|..] == strm.Pending();
    var step := ReadChunks(reader, limit, out, all, got, sx);
    if step.Fail? { return step.result, []; }
    ghost var end := strm.Pending();
    EndHasNoBody(end, keep);
    assert sx.end(end) == DecodeEnd(end, keep);
    assert out.got + "" == out.got;
    more := reader.GetLine();
    if !more { return Success, []; }
    assert end[|reader.Line()|..] == strm.Pending();
    result, trailers := ReadTrailers(reader, names, keep);
  }
}
