/** Byte streams over a socket: `SocketStream::read` with its read-ahead buffer, `stream_line_reader`,
    `read_content_with_length`, and `write_data` on the sending side. */
module Streams {
  import opened Wrappers
  import opened Text

  const READ_BUFF_SIZE := 4096
  const RECV_BUFSIZ := 16384
  const MAX_LINE_LENGTH := 32768
  const SSIZE_MAX := 0x7FFF_FFFF_FFFF_FFFF

  /** The receiving end of a connection: any number of the bytes still to come may arrive at a time,
      and any call may fail. */
  class Socket {
    var incoming: string

    constructor (incoming: string)
      ensures this.incoming == incoming
    {
      this.incoming := incoming;
    }

    method Recv(max: nat) returns (n: int, data: string)
      requires max > 0
      modifies this
      ensures n < 0 ==> incoming == old(incoming)
      ensures n >= 0 ==> |data| == n <= max && old(incoming) == data + incoming
      ensures n == 0 ==> old(incoming) == ""
    {
      var failing: bool := *;
      if failing { return -1, ""; }
      if incoming == "" { return 0, ""; }
      var k: nat :| 1 <= k <= |incoming| && k <= max;
      n, data := k, incoming[..k];
      incoming := incoming[k..];
    }
  }

  class SocketStream {
    const sock: Socket
    const readBuff: array<char>
    var off: nat
    var contentSize: nat
    /** How many reads have failed so far. */
    ghost var errors: nat

    ghost predicate Valid() reads this {
      readBuff.Length == READ_BUFF_SIZE && off <= contentSize <= READ_BUFF_SIZE
    }

    /** The plain stream still to be read: the unread part of the buffer, then what the socket holds. */
    ghost function Pending(): string
      requires Valid()
      reads this, readBuff, sock
    {
      readBuff[off..contentSize] + sock.incoming
    }

    ghost function Footprint(): set<object> { {this, readBuff, sock} }

    constructor (sock: Socket)
      ensures Valid() && fresh(readBuff) && this.sock == sock && errors == 0
      ensures Pending() == sock.incoming
    {
      this.sock := sock;
      readBuff := new char[READ_BUFF_SIZE];
      off, contentSize, errors := 0, 0, 0;
    }

    method WaitReadable() returns (b: bool) {
      b := *;
    }

    /** `SocketStream::read`: whatever is returned and whatever stays buffered is what the socket gave. */
    method Read(size0: nat) returns (n: int, data: string)
      requires Valid()
      modifies this, readBuff, sock
      ensures Valid()
      ensures n < 0 ==> errors == old(errors) + 1 && Pending() == old(Pending())
      ensures n >= 0 ==> errors == old(errors) && |data| == n <= size0 && old(Pending()) == data + Pending()
      ensures n == 0 && size0 > 0 ==> old(Pending()) == ""
    {
      var size := if size0 <= SSIZE_MAX then size0 else SSIZE_MAX;
      if off < contentSize {
        n, data := ReadBuffered(size);
        return;
      }
      assert Pending() == sock.incoming;
      var readable := WaitReadable();
      if !readable {
        errors := errors + 1;
        return -1, "";
      }
      off, contentSize := 0, 0;
      if size < READ_BUFF_SIZE {
        n, data := ReadAhead(size);
      } else {
        n, data := sock.Recv(size);
        if n < 0 { errors := errors + 1; }
      }
    }

    method ReadBuffered(size: nat) returns (n: int, data: string)
      requires Valid() && off < contentSize
      modifies this`off
      ensures Valid() && 0 <= n == |data| <= size && old(Pending()) == data + Pending()
      ensures n == 0 ==> size == 0
    {
      var remaining := contentSize - off;
      var count := if size <= remaining then size else remaining;
      data := readBuff[off..off + count];
      assert readBuff[off..contentSize] == data + readBuff[off + count..contentSize];
      off := off + count;
      n := count;
    }

    method ReadAhead(size: nat) returns (n: int, data: string)
      requires Valid() && off == contentSize == 0 && size < READ_BUFF_SIZE
      modifies this, readBuff, sock
      ensures Valid()
      ensures n < 0 ==> errors == old(errors) + 1 && Pending() == old(Pending())
      ensures n >= 0 ==> errors == old(errors) && |data| == n <= size && old(Pending()) == data + Pending()
      ensures n == 0 && size > 0 ==> old(Pending()) == ""
    {
      var got: string;
      n, got := sock.Recv(READ_BUFF_SIZE);
      if n < 0 {
        errors := errors + 1;
        return n, "";
      }
      if n == 0 { return n, ""; }
      for i := 0 to n
        modifies readBuff
        invariant readBuff[..i] == got[..i]
      {
        readBuff[i] := got[i];
        assert readBuff[..i + 1] == readBuff[..i] + [got[i]];
        assert got[..i + 1] == got[..i] + [got[i]];
      }
      assert readBuff[..n] == got[..n] == got;
      if n <= size { return n, got; }
      data := readBuff[..size];
      off, contentSize := size, n;
      assert got == data + readBuff[size..n];
      n := size;
    }
  }

  // ---- lines ----

  /** The next line of a plain stream: up to and including the first CR LF, or to the end of the stream;
      None at the end and for a line over the length limit. */
  function NextLine(s: string): (line: Option<string>)
    ensures line.Some? ==> line.value != "" && line.value <= s
    ensures line.Some? ==> |line.value| <= MAX_LINE_LENGTH
  {
    var e := Find(s, CRLF);
    if e < |s| then if e + 2 <= MAX_LINE_LENGTH then Some(s[..e + 2]) else None
    else if 0 < |s| < MAX_LINE_LENGTH then Some(s) else None
  }

  /** What is left of a stream that had no next line. */
  function Unread(s: string): string {
    if |s| < MAX_LINE_LENGTH then "" else s[MAX_LINE_LENGTH..]
  }

  /** Where there is no next line, as much is read as a line may hold, if there is as much. */
  lemma UnreadIs(s: string) returns (taken: string)
    ensures s == taken + Unread(s) && |taken| <= MAX_LINE_LENGTH
    ensures |taken| < MAX_LINE_LENGTH ==> Unread(s) == ""
  {
    taken := if |s| < MAX_LINE_LENGTH then s else s[..MAX_LINE_LENGTH];
  }

  /** Text without a CR LF, followed by one, is a line. */
  lemma NextLineIs(text: string, rest: string)
    requires '\r' !in text && |text| + 2 <= MAX_LINE_LENGTH
    ensures NextLine(text + CRLF + rest) == Some(text + CRLF)
    ensures (text + CRLF + rest)[|text + CRLF|..] == rest
  {
    forall i ensures !OccursAt(text, CRLF, i) {
      if 0 <= i && i + 2 <= |text| { assert text[i..i + 2][0] == text[i]; }
    }
    FindAfter(text, CRLF, rest);
  }

  class StreamLineReader {
    const strm: SocketStream
    const fixedBuffer: array<char>
    var fixedUsed: nat
    var growable: string

    ghost predicate Valid() reads this, fixedBuffer, strm {
      && strm.Valid() && fixedBuffer.Length >= 2 && fixedBuffer !in strm.Footprint()
      && fixedUsed < fixedBuffer.Length
      && (fixedUsed > 0 ==> fixedBuffer[fixedUsed] == '\0')
      && (growable != "" ==> fixedUsed == fixedBuffer.Length - 1)
    }

    /** What `ptr()` and `size()` show. */
    function Line(): string
      requires fixedUsed <= fixedBuffer.Length
      reads this, fixedBuffer
    {
      if growable == "" then fixedBuffer[..fixedUsed] else growable
    }

    constructor (strm: SocketStream, fixedBuffer: array<char>)
      requires strm.Valid() && fixedBuffer.Length >= 2 && fixedBuffer !in strm.Footprint()
      ensures Valid() && this.strm == strm && this.fixedBuffer == fixedBuffer
    {
      this.strm, this.fixedBuffer := strm, fixedBuffer;
      fixedUsed, growable := 0, "";
    }

    /** `append`: into the fixed buffer while it lasts, then into the growable one. */
    method Append(c: char)
      requires Valid()
      modifies this, fixedBuffer
      ensures Valid() && Line() == old(Line()) + [c]
    {
      if fixedUsed < fixedBuffer.Length - 1 {
        ghost var was := fixedBuffer[..fixedUsed];
        fixedBuffer[fixedUsed] := c;
        fixedUsed := fixedUsed + 1;
        fixedBuffer[fixedUsed] := '\0';
        assert fixedBuffer[..fixedUsed] == was + [c];
      } else {
        if growable == "" {
          assert fixedBuffer[fixedUsed] == '\0';
          growable := fixedBuffer[..fixedUsed];
        }
        growable := growable + [c];
      }
    }

    /** One byte from the stream to the line. */
    method Take() returns (n: int, byte: char)
      requires Valid()
      modifies this, fixedBuffer, strm, strm.readBuff, strm.sock
      ensures Valid()
      ensures n < 0 ==> strm.errors != old(strm.errors)
      ensures n >= 0 ==> strm.errors == old(strm.errors)
      ensures n == 0 ==> old(strm.Pending()) == "" == strm.Pending() && Line() == old(Line())
      ensures n > 0 ==> Line() == old(Line()) + [byte] && old(strm.Pending()) == [byte] + strm.Pending()
    {
      var data: string;
      byte := '\0';
      n, data := strm.Read(1);
      if n > 0 {
        byte := data[0];
        assert data == [byte];
        Append(byte);
      }
    }

    /** `getline`: unless a read fails, exactly the next line of the plain stream is taken. */
    method GetLine() returns (ok: bool)
      requires Valid()
      modifies this, fixedBuffer, strm, strm.readBuff, strm.sock
      ensures Valid()
      ensures strm.errors != old(strm.errors) ==> !ok
      ensures strm.errors == old(strm.errors) ==>
                ok == NextLine(old(strm.Pending())).Some?
      ensures ok ==> Some(Line()) == NextLine(old(strm.Pending())) && old(strm.Pending()) == Line() + strm.Pending()
      ensures !ok && strm.errors == old(strm.errors) ==> strm.Pending() == Unread(old(strm.Pending()))
    {
      ghost var s := strm.Pending();
      fixedUsed, growable := 0, "";
      var prev := '\0';
      var i := 0;
      ScanStart(s);
      while true
        invariant Valid() && strm.errors == old(strm.errors)
        invariant |Line()| == i <= MAX_LINE_LENGTH && prev == LastByte(Line())
        invariant Scanned(s, Line(), strm.Pending())
        decreases |strm.Pending()|
      {
        ghost var before := Line();
        if |Line()| >= MAX_LINE_LENGTH {
          ScanTooLong(s, before, strm.Pending());
          return false;
        }
        var n, byte := Take();
        if n < 0 { return false; }
        if n == 0 {
          ScanEnd(s, before);
          return i > 0;
        }
        ScanByte(s, before, byte, strm.Pending());
        if prev == '\r' && byte == '\n' { return true; }
        prev := byte;
        i := i + 1;
      }
    }
  }

  function LastByte(line: string): char { if line == "" then '\0' else line[|line| - 1] }

  /** Scanning `s` has got past `line` without meeting a CR LF, and `rest` is still to come. */
  ghost predicate Scanned(s: string, line: string, rest: string) {
    s == line + rest && Find(line, CRLF) == |line|
  }

  lemma ScanStart(s: string)
    ensures Scanned(s, "", s)
  {
    assert "" + s == s;
  }

  lemma ScanTooLong(s: string, line: string, rest: string)
    requires Scanned(s, line, rest) && |line| == MAX_LINE_LENGTH
    ensures NextLine(s) == None && Unread(s) == rest
  {
    FindAppend(line, rest, CRLF);
  }

  lemma ScanEnd(s: string, line: string)
    requires Scanned(s, line, "") && |line| < MAX_LINE_LENGTH
    ensures NextLine(s) == (if line == "" then None else Some(line)) && s == line
  {
    assert line + "" == line;
  }

  lemma ScanByte(s: string, line: string, byte: char, rest: string)
    requires Scanned(s, line, [byte] + rest) && |line| < MAX_LINE_LENGTH
    ensures s == (line + [byte]) + rest
    ensures if LastByte(line) == '\r' && byte == '\n' then NextLine(s) == Some(line + [byte])
            else Scanned(s, line + [byte], rest)
  {
    var next := line + [byte];
    assert s == next + rest;
    forall j | 0 <= j < |line| - 1 ensures !OccursAt(next, CRLF, j) {
      OccursAppend(line, [byte], CRLF, j);
      assert !OccursAt(line, CRLF, j);
    }
    if line != "" { assert next[|line| - 1..|line| + 1] == [LastByte(line), byte]; }
    if LastByte(line) == '\r' && byte == '\n' {
      assert OccursAt(next, CRLF, |line| - 1);
      FindAppend(next, rest, CRLF);
      assert s[..|line| + 1] == next;
    }
  }

  /** All the lines `getline` yields from a plain stream. */
  function Lines(s: string): seq<string>
    decreases |s|
  {
    match NextLine(s)
    case None => []
    case Some(line) => [line] + Lines(s[|line|..])
  }

  /** Put together, the lines are the stream up to where reading stops. */
  lemma {:induction false} LinesStop(s: string)
    ensures Concat(Lines(s)) <= s && NextLine(s[|Concat(Lines(s))|..]).None?
    decreases |s|
  {
    if NextLine(s).Some? {
      var line := NextLine(s).value;
      var rest := s[|line|..];
      LinesStop(rest);
      assert s == line + rest;
      assert Concat(Lines(s)) == line + Concat(Lines(rest));
      assert s[|Concat(Lines(s))|..] == rest[|Concat(Lines(rest))|..];
    } else {
      assert s[0..] == s;
    }
  }

  lemma NextLineCut(s: string, line: string, rest: string)
    requires s == line + rest && NextLine(s) == Some(line)
    ensures Find(line, CRLF) == |line| - 2 || (rest == "" && Find(line, CRLF) == |line|)
  {
    var e := Find(s, CRLF);
    if e < |s| {
      OccursAppend(line, rest, CRLF, e);
      FindAppend(line, rest, CRLF);
    } else {
      assert line == s;
    }
  }

  /** Lines cut the stream where its CR LFs are: put together they are the stream up to where reading
      stops, which is at the end or before a line over the limit; each ends in its only CR LF, and only
      what the stream ends with may lack one. */
  lemma {:induction false} LinesCut(s: string)
    ensures Concat(Lines(s)) <= s && NextLine(s[|Concat(Lines(s))|..]).None?
    ensures forall k | 0 <= k < |Lines(s)| :: Find(Lines(s)[k], CRLF) == |Lines(s)[k]| - 2
              || (k == |Lines(s)| - 1 && Concat(Lines(s)) == s && Find(Lines(s)[k], CRLF) == |Lines(s)[k]|)
    decreases |s|
  {
    LinesStop(s);
    if NextLine(s).Some? {
      var line := NextLine(s).value;
      var rest := s[|line|..];
      assert s == line + rest;
      NextLineCut(s, line, rest);
      LinesCut(rest);
      assert Lines(s) == [line] + Lines(rest);
      assert Concat(Lines(s)) == line + Concat(Lines(rest));
      forall k | 0 < k < |Lines(s)| ensures Lines(s)[k] == Lines(rest)[k - 1] {}
    }
  }

  /** Reading stops at the end, or before a line over the limit: one whose end lies beyond it, or an
      unfinished one that reaches it. */
  lemma StopsWhere(s: string)
    ensures NextLine(s).None? <==>
              s == "" || (Find(s, CRLF) == |s| >= MAX_LINE_LENGTH) || MAX_LINE_LENGTH < Find(s, CRLF) + 2 <= |s|
  {
    if Find(s, CRLF) < |s| { assert OccursAt(s, CRLF, Find(s, CRLF)); }
  }

  /** `getline` called until it returns false: however the socket's reads fall, the lines are those of the plain stream. */
  method ReadLines(reader: StreamLineReader) returns (lines: seq<string>)
    requires reader.Valid()
    modifies reader, reader.fixedBuffer, reader.strm, reader.strm.readBuff, reader.strm.sock
    ensures reader.Valid()
    ensures lines <= Lines(old(reader.strm.Pending()))
    ensures reader.strm.errors == old(reader.strm.errors) ==> lines == Lines(old(reader.strm.Pending()))
  {
    lines := [];
    var more := true;
    ghost var all := Lines(reader.strm.Pending());
    while more
      invariant reader.Valid()
      invariant more ==> lines + Lines(reader.strm.Pending()) == all && reader.strm.errors == old(reader.strm.errors)
      invariant !more ==> lines <= all && (reader.strm.errors == old(reader.strm.errors) ==> lines == all)
      decreases more, |reader.strm.Pending()|
    {
      ghost var s := reader.strm.Pending();
      more := reader.GetLine();
      if more {
        var line := reader.Line();
        assert s[|line|..] == reader.strm.Pending();
        Associative(lines, [line], Lines(reader.strm.Pending()));
        lines := lines + [line];
      }
    }
  }

  // ---- a body of known length ----

  /** The application's content receiver: it may refuse. */
  class Receiver {
    var got: string
    ghost var refusals: nat

    constructor ()
      ensures got == "" && refusals == 0
    {
      got, refusals := "", 0;
    }

    method Receive(data: string) returns (ok: bool)
      modifies this
      ensures got == old(got) + data
      ensures refusals == old(refusals) + if ok then 0 else 1
    {
      got := got + data;
      ok := *;
      if !ok { refusals := refusals + 1; }
    }
  }

  /** `read_content_with_length`: unless a read fails or the receiver refuses, the next `len` bytes
      are delivered if the stream holds so many, and all of it otherwise. */
  method ReadContentWithLength(strm: SocketStream, len: nat, out: Receiver) returns (ok: bool)
    requires strm.Valid()
    modifies strm, strm.readBuff, strm.sock, out
    ensures strm.Valid()
    ensures strm.errors != old(strm.errors) || out.refusals != old(out.refusals) ==> !ok
    ensures strm.errors == old(strm.errors) && out.refusals == old(out.refusals) ==>
              ok == (len <= |old(strm.Pending())|)
    ensures strm.errors == old(strm.errors) && out.refusals == old(out.refusals) && !ok ==>
              out.got == old(out.got) + old(strm.Pending()) && strm.Pending() == ""
    ensures ok ==> len <= |old(strm.Pending())| && out.got == old(out.got) + old(strm.Pending())[..len]
                   && strm.Pending() == old(strm.Pending())[len..]
  {
    ghost var s, got := strm.Pending(), out.got;
    var r := 0;
    assert s[..0] == "" && s[0..] == s;
    while r < len
      invariant strm.Valid() && strm.errors == old(strm.errors) && out.refusals == old(out.refusals)
      invariant r <= len && r <= |s| && out.got == got + s[..r] && strm.Pending() == s[r..]
      decreases len - r
    {
      var readLen := len - r;
      var n, data := strm.Read(if readLen < RECV_BUFSIZ then readLen else RECV_BUFSIZ);
      if n <= 0 {
        if n == 0 { assert s[..r] == s; }
        return false;
      }
      SliceOn(s, r, data, strm.Pending());
      Associative(got, s[..r], data);
      var accepted := out.Receive(data);
      if !accepted { return false; }
      r := r + n;
    }
    ok := true;
  }

  lemma SliceOn(s: string, r: nat, data: string, after: string)
    requires r <= |s| && s[r..] == data + after
    ensures r + |data| <= |s| && s[..r] + data == s[..r + |data|] && after == s[r + |data|..]
  {
    assert s == s[..r] + s[r..];
  }

  // ---- the sending side ----

  class OutStream {
    var out: string
    ghost var errors: nat

    constructor ()
      ensures out == "" && errors == 0
    {
      out, errors := "", 0;
    }

    /** Any non-empty part of the bytes may be taken, and any call may fail. */
    method Write(d: string) returns (n: int)
      requires d != ""
      modifies this
      ensures n < 0 ==> errors == old(errors) + 1 && out == old(out)
      ensures n >= 0 ==> errors == old(errors) && 1 <= n <= |d| && out == old(out) + d[..n]
    {
      var failing: bool := *;
      if failing {
        errors := errors + 1;
        return -1;
      }
      var k: nat :| 1 <= k <= |d|;
      out := out + d[..k];
      n := k;
    }
  }

  /** `write_data`: short writes are carried on until every byte is out. */
  method WriteData(strm: OutStream, d: string) returns (ok: bool)
    modifies strm
    ensures ok == (strm.errors == old(strm.errors)) && strm.errors >= old(strm.errors)
    ensures ok ==> strm.out == old(strm.out) + d
  {
    ghost var was := strm.out;
    var offset := 0;
    while offset < |d|
      invariant offset <= |d| && strm.errors == old(strm.errors) && strm.out == was + d[..offset]
    {
      var length := strm.Write(d[offset..]);
      if length < 0 { return false; }
      SliceOn(d, offset, d[offset..][..length], d[offset..][length..]);
      Associative(was, d[..offset], d[offset..][..length]);
      offset := offset + length;
    }
    assert d[..offset] == d;
    ok := true;
  }
}
