/** The chunked writer, and the reader giving back what was written. */
module ChunkedWriter {
  import opened Wrappers
  import opened Limits
  import opened Text
  import opened Streams
  import opened Chunked
  import ChunkedGrammar
  import Fields
  import Uri

  // ---- the writer ----

  /** What a content provider does with its sink: write bytes, or finish, with or without trailers. */
  datatype SinkAction = Write(data: string) | Done(trailers: seq<Fields.Header>)

  /** One round of the loop: whether the stream was writable when waited for, the sink actions of the content
      provider, and its answer. */
  datatype ProviderCall = ProviderCall(writable: bool, actions: seq<SinkAction>, ok: bool)

  /** The `error` of the loop; it returns true with `Finished` only. */
  datatype Answer = Finished | WriteFailed | Canceled

  function FieldLine(t: Fields.Header): string { t.0 + ": " + t.1 }

  /** Trailer lines, the blank line, and `rest` behind it. */
  function TrailerText(trailers: seq<Fields.Header>, rest: string): string {
    if trailers == [] then CRLF + rest else FieldLine(trailers[0]) + CRLF + TrailerText(trailers[1..], rest)
  }

  function Emitted(action: SinkAction): string {
    match action
    case Write(d) => if d == "" then "" else Uri.ToHex(|d|) + CRLF + d + CRLF
    case Done(trailers) => "0" + CRLF + TrailerText(trailers, "")
  }

  function EmittedAll(actions: seq<SinkAction>): string {
    if actions == [] then "" else EmittedAll(actions[..|actions| - 1]) + Emitted(actions[|actions| - 1])
  }

  /** Whether the provider is to be called again: the last action was not `done` nor an empty write. */
  function Available(actions: seq<SinkAction>, before: bool): bool {
    if actions == [] then before
    else
      var last := actions[|actions| - 1];
      last.Write? && last.data != ""
  }

  /** Bytes sent and answer given over successive rounds; the server shuts down behind the last. */
  function Sent(calls: seq<ProviderCall>, available: bool): (string, Answer) {
    if !available || calls == [] then ("", Finished)
    else
      var call := calls[0];
      if !call.writable then ("", WriteFailed)
      else if !call.ok then (EmittedAll(call.actions), Canceled)
      else
        var more := Sent(calls[1..], Available(call.actions, true));
        (EmittedAll(call.actions) + more.0, more.1)
  }

  method WriteDone(strm: OutStream, trailers: seq<Fields.Header>) returns (ok: bool)
    modifies strm
    ensures ok == (strm.errors == old(strm.errors)) && strm.errors >= old(strm.errors)
    ensures ok ==> strm.out == old(strm.out) + Emitted(Done(trailers))
  {
    ghost var was := strm.out;
    ok := WriteData(strm, "0" + CRLF);
    Associative(was, "0" + CRLF, TrailerText(trailers, ""));
    var rest := WriteTrailers(strm, trailers);
    ok := ok && rest;
  }

  /** The trailer lines and the blank line; a failed write does not keep the others from being tried. */
  method WriteTrailers(strm: OutStream, trailers: seq<Fields.Header>) returns (ok: bool)
    modifies strm
    ensures ok == (strm.errors == old(strm.errors)) && strm.errors >= old(strm.errors)
    ensures ok ==> strm.out == old(strm.out) + TrailerText(trailers, "")
  {
    ok := true;
    ghost var was := strm.out;
    assert trailers[0..] == trailers;
    for i := 0 to |trailers|
      invariant ok == (strm.errors == old(strm.errors)) && strm.errors >= old(strm.errors)
      invariant ok ==> strm.out + TrailerText(trailers[i..], "") == was + TrailerText(trailers, "")
    {
      ghost var here := strm.out;
      var sent := WriteData(strm, trailers[i].0 + ": " + trailers[i].1 + CRLF);
      ok := ok && sent;
      TrailerNext(here, trailers, i);
    }
    assert CRLF + "" == CRLF;
    var last := WriteData(strm, CRLF);
    ok := ok && last;
  }

  lemma TrailerNext(here: string, trailers: seq<Fields.Header>, i: nat)
    requires i < |trailers|
    ensures here + (trailers[i].0 + ": " + trailers[i].1 + CRLF) + TrailerText(trailers[i + 1..], "")
            == here + TrailerText(trailers[i..], "")
  {
    assert trailers[i..][1..] == trailers[i + 1..];
    Associative(here, FieldLine(trailers[i]) + CRLF, TrailerText(trailers[i + 1..], ""));
  }

  method SinkWrite(strm: OutStream, d: string) returns (ok: bool)
    modifies strm
    ensures ok == (strm.errors == old(strm.errors)) && strm.errors >= old(strm.errors)
    ensures ok ==> strm.out == old(strm.out) + Emitted(Write(d))
  {
    if d == "" {
      assert strm.out + "" == strm.out;
      return true;
    }
    var size := Uri.FromIntToHex(|d|);
    ok := WriteData(strm, size + CRLF + d + CRLF);
  }

  method RunProvider(strm: OutStream, actions: seq<SinkAction>, before: bool) returns (available: bool, ok: bool)
    modifies strm
    ensures ok == (strm.errors == old(strm.errors)) && strm.errors >= old(strm.errors)
    ensures ok ==> strm.out == old(strm.out) + EmittedAll(actions) && available == Available(actions, before)
  {
    available, ok := before, true;
    ghost var was := strm.out;
    assert was + "" == was;
    for i := 0 to |actions|
      invariant ok == (strm.errors == old(strm.errors)) && strm.errors >= old(strm.errors)
      invariant ok ==> strm.out == was + EmittedAll(actions[..i]) && available == Available(actions[..i], before)
    {
      if ok {
        assert actions[..i + 1][..i] == actions[..i];
        Associative(was, EmittedAll(actions[..i]), Emitted(actions[i]));
        match actions[i]
        case Write(d) =>
          available := d != "";
          ok := SinkWrite(strm, d);
        case Done(trailers) =>
          available := false;
          ok := WriteDone(strm, trailers);
      }
      if !ok { return; }
    }
    assert actions[..|actions|] == actions;
  }

  /** `write_content_chunked` without compression: true exactly when it is finished. */
  method WriteContentChunked(strm: OutStream, calls: seq<ProviderCall>) returns (ok: bool, error: Answer)
    modifies strm
    ensures ok <==> error == Finished
    ensures strm.errors != old(strm.errors) ==> !ok
    ensures strm.errors == old(strm.errors) ==> strm.out == old(strm.out) + Sent(calls, true).0 && error == Sent(calls, true).1
  {
    var available, i := true, 0;
    ghost var was, all := strm.out, Sent(calls, true);
    assert calls[0..] == calls;
    while available && i < |calls|
      invariant 0 <= i <= |calls| && strm.errors == old(strm.errors)
      invariant strm.out + Sent(calls[i..], available).0 == was + all.0 && Sent(calls[i..], available).1 == all.1
      decreases |calls| - i
    {
      ghost var here := strm.out;
      SentNext(here, calls, i);
      if !calls[i].writable { return false, WriteFailed; }
      var sent: bool;
      available, sent := RunProvider(strm, calls[i].actions, true);
      if !calls[i].ok { return false, Canceled; }
      if !sent { return false, WriteFailed; }
      i := i + 1;
    }
    assert strm.out + "" == strm.out;
    ok, error := true, Finished;
  }

  lemma SentNext(here: string, calls: seq<ProviderCall>, i: nat)
    requires i < |calls|
    ensures var call, all := calls[i], Sent(calls[i..], true);
            && (!call.writable ==> here + all.0 == here && all.1 == WriteFailed)
            && (call.writable && !call.ok ==> all == (EmittedAll(call.actions), Canceled))
            && (call.writable && call.ok ==>
                  var more := Sent(calls[i + 1..], Available(call.actions, true));
                  here + EmittedAll(call.actions) + more.0 == here + all.0 && more.1 == all.1)
  {
    assert calls[i..][0] == calls[i] && calls[i..][1..] == calls[i + 1..];
    assert here + "" == here;
    Associative(here, EmittedAll(calls[i].actions), Sent(calls[i + 1..], Available(calls[i].actions, true)).0);
  }

  // ---- what the writer sends ----

  function Actions(writes: seq<string>): seq<SinkAction> {
    seq(|writes|, i requires 0 <= i < |writes| => Write(writes[i]))
  }

  function AllActions(calls: seq<ProviderCall>): seq<SinkAction> {
    if calls == [] then [] else calls[0].actions + AllActions(calls[1..])
  }

  function Head(writes: seq<string>): string { if writes == [] then "0" else Uri.ToHex(|writes[0]|) }

  /** The coded content with `tail` behind the last-chunk line. */
  function Encode(writes: seq<string>, tail: string): string
    decreases |writes|, 1
  {
    Head(writes) + CRLF + Behind(writes, tail)
  }

  /** What follows the first size line. */
  function Behind(writes: seq<string>, tail: string): string
    decreases |writes|, 0
  {
    if writes == [] then tail else writes[0] + (CRLF + Encode(writes[1..], tail))
  }

  lemma {:induction false} EmittedAppend(a: seq<SinkAction>, b: seq<SinkAction>)
    ensures EmittedAll(a + b) == EmittedAll(a) + EmittedAll(b)
    decreases |b|
  {
    if b == [] {
      assert a + b == a;
      assert EmittedAll(a) + "" == EmittedAll(a);
    } else {
      var init, last := b[..|b| - 1], b[|b| - 1];
      EmittedAppend(a, init);
      assert b == init + [last];
      Associative(a, init, [last]);
      EmittedLast(init, last);
      EmittedLast(a + init, last);
      Associative(EmittedAll(a), EmittedAll(init), Emitted(last));
    }
  }

  lemma EmittedLast(a: seq<SinkAction>, x: SinkAction)
    ensures EmittedAll(a + [x]) == EmittedAll(a) + Emitted(x)
  {
    assert (a + [x])[..|a|] == a;
  }

  /** A provider that writes non-empty pieces and then finishes, over however many calls. */
  ghost predicate Provides(calls: seq<ProviderCall>, writes: seq<string>, trailers: seq<Fields.Header>) {
    && (forall i | 0 <= i < |calls| :: calls[i].writable && calls[i].ok)
    && (forall i | 0 <= i < |writes| :: writes[i] != "")
    && AllActions(calls) == Actions(writes) + [Done(trailers)]
  }

  /** All of its actions are carried out. */
  lemma {:induction false} SentAll(calls: seq<ProviderCall>, acts: seq<SinkAction>, trailers: seq<Fields.Header>)
    requires forall i | 0 <= i < |calls| :: calls[i].writable && calls[i].ok
    requires forall i | 0 <= i < |acts| :: acts[i].Write? && acts[i].data != ""
    requires AllActions(calls) == acts + [Done(trailers)]
    ensures Sent(calls, true) == (EmittedAll(acts + [Done(trailers)]), Finished)
    decreases |calls|, 1
  {
    var first, later := calls[0].actions, AllActions(calls[1..]);
    EmittedAppend(first, later);
    assert AllActions(calls) == first + later;
    if later == [] {
      assert first + later == first;
      LastCall(calls, trailers);
    } else {
      SentMore(calls, acts, trailers, first, later);
      SentStep(calls);
    }
  }

  lemma {:induction false} SentMore(calls: seq<ProviderCall>, acts: seq<SinkAction>, trailers: seq<Fields.Header>,
                                    first: seq<SinkAction>, later: seq<SinkAction>)
    requires calls != [] && forall i | 0 <= i < |calls| :: calls[i].writable && calls[i].ok
    requires forall i | 0 <= i < |acts| :: acts[i].Write? && acts[i].data != ""
    requires first == calls[0].actions && later == AllActions(calls[1..]) != []
    requires first + later == acts + [Done(trailers)]
    ensures Available(first, true) && Sent(calls[1..], true) == (EmittedAll(later), Finished)
    decreases |calls|, 0
  {
    FirstActions(first, later, acts, trailers);
    SentAll(calls[1..], acts[|first|..], trailers);
  }

  lemma SentStep(calls: seq<ProviderCall>)
    requires calls != [] && calls[0].writable && calls[0].ok
    ensures var more := Sent(calls[1..], Available(calls[0].actions, true));
            Sent(calls, true) == (EmittedAll(calls[0].actions) + more.0, more.1)
  {}

  /** The provider is called again unless its last action was to finish, or to write nothing. */
  lemma RoundDecides(calls: seq<ProviderCall>)
    requires calls != [] && calls[0].writable && calls[0].ok
    ensures var acts, more := calls[0].actions, Sent(calls[1..], true);
            Sent(calls, true) ==
              if acts != [] && (acts[|acts| - 1].Done? || acts[|acts| - 1] == Write("")) then (EmittedAll(acts), Finished)
              else (EmittedAll(acts) + more.0, more.1)
  {
    SentStep(calls);
    EmptyFirst(EmittedAll(calls[0].actions));
  }

  lemma LastCall(calls: seq<ProviderCall>, trailers: seq<Fields.Header>)
    requires calls != [] && calls[0].writable && calls[0].ok && calls[0].actions != []
    requires calls[0].actions[|calls[0].actions| - 1] == Done(trailers)
    ensures Sent(calls, true) == (EmittedAll(calls[0].actions), Finished)
  {
    SentStep(calls);
    assert EmittedAll(calls[0].actions) + "" == EmittedAll(calls[0].actions);
  }

  lemma FirstActions(first: seq<SinkAction>, later: seq<SinkAction>, acts: seq<SinkAction>, trailers: seq<Fields.Header>)
    requires first + later == acts + [Done(trailers)] && later != []
    requires forall i | 0 <= i < |acts| :: acts[i].Write? && acts[i].data != ""
    ensures |first| <= |acts| && later == acts[|first|..] + [Done(trailers)] && Available(first, true)
  {
    var all := acts + [Done(trailers)];
    assert later == all[|first|..];
    if first != [] {
      assert first[|first| - 1] == all[|first| - 1] == acts[|first| - 1];
    }
  }

  /** Those actions spell out the coded content. */
  lemma {:induction false} EmittedIsEncoded(writes: seq<string>, trailers: seq<Fields.Header>)
    requires forall i | 0 <= i < |writes| :: writes[i] != ""
    ensures EmittedAll(Actions(writes) + [Done(trailers)]) == Encode(writes, TrailerText(trailers, ""))
  {
    var end, tail := [Done(trailers)], TrailerText(trailers, "");
    if writes == [] {
      assert Actions(writes) + end == end && end[..0] == [];
      assert "" + Emitted(Done(trailers)) == Emitted(Done(trailers));
    } else {
      var w, more := writes[0], Actions(writes[1..]) + end;
      assert Actions(writes) + end == [Write(w)] + more;
      EmittedAppend([Write(w)], more);
      EmittedOne(w);
      EmittedIsEncoded(writes[1..], trailers);
      Regroup(Uri.ToHex(|w|) + CRLF, w, CRLF, Encode(writes[1..], tail));
    }
  }

  lemma EmittedOne(w: string)
    requires w != ""
    ensures EmittedAll([Write(w)]) == Emitted(Write(w)) == Uri.ToHex(|w|) + CRLF + w + CRLF
  {
    var none: seq<SinkAction> := [];
    EmittedLast(none, Write(w));
    assert none + [Write(w)] == [Write(w)];
    EmptyFirst(Emitted(Write(w)));
  }

  lemma Regroup(a: string, b: string, c: string, d: string)
    ensures a + b + c + d == a + (b + (c + d))
  {}

  // ---- reading it back ----

  function Pow16(k: nat): nat { if k == 0 then 1 else 16 * Pow16(k - 1) }

  lemma {:induction false} HexLength(n: nat, k: nat)
    requires k > 0 && n < Pow16(k)
    ensures |Uri.ToHex(n)| <= k
  {
    if n >= 16 {
      assert k > 1 by { assert Pow16(1) == 16 * Pow16(0) == 16; }
      HexLength(n / 16, k - 1);
    }
  }

  lemma LongIs16Digits()
    ensures Pow16(16) == ULONG_MAX + 1
  {
    assert Pow16(4) == 65536;
    assert Pow16(8) == 0x1_0000_0000;
    assert Pow16(12) == 0x1_0000_0000_0000;
  }

  /** A size line is read as the number printed on it. */
  lemma SizeRead(n: nat)
    requires n <= ULONG_MAX
    ensures StrToUl(Uri.ToHex(n) + CRLF) == Some(n)
  {
    var h := Uri.ToHex(n);
    Uri.HexRoundTrip(n);
    NumeralRead(h, h + CRLF);
  }

  lemma NumeralRead(h: string, s: string)
    requires h != "" && s == h + CRLF && forall i | 0 <= i < |h| :: Uri.IsHex(h[i])
    requires Uri.HexNumber(h) <= ULONG_MAX
    ensures StrToUl(s) == Some(Uri.HexNumber(h))
  {
    assert forall i | 0 <= i < |h| :: s[i] == h[i];
    assert s[|h|] == '\r' && s[|h| + 1] == '\n';
    ChunkedGrammar.DigitsEnd(s, 0, |h|);
    assert s[0..|h|] == h;
  }

  lemma ShortNumeral(n: nat)
    requires n <= ULONG_MAX
    ensures |Uri.ToHex(n)| <= 16 && '\r' !in Uri.ToHex(n)
  {
    LongIs16Digits();
    HexLength(n, 16);
  }

  lemma HeadLine(writes: seq<string>, rest: string)
    requires writes != [] ==> |writes[0]| < ULONG_MAX
    ensures NextLine(Head(writes) + CRLF + rest) == Some(Head(writes) + CRLF)
    ensures (Head(writes) + CRLF + rest)[|Head(writes) + CRLF|..] == rest
  {
    if writes != [] { ShortNumeral(|writes[0]|); }
    NextLineIs(Head(writes), rest);
  }

  /** A chunk is cut off where it was put on. */
  lemma CutWritten(w: string, writes: seq<string>, tail: string)
    requires writes != [] ==> |writes[0]| < ULONG_MAX
    ensures CutChunk(w + (CRLF + Encode(writes, tail)), |w|) == Whole(w, Head(writes) + CRLF, Behind(writes, tail))
  {
    var e := Encode(writes, tail);
    var s := w + (CRLF + e);
    assert s[..|w|] == w && s[|w|..] == CRLF + e && s[|w| + 2..] == e;
    NextLineIs("", e);
    assert "" + CRLF + e == CRLF + e;
    HeadLine(writes, Behind(writes, tail));
  }

  predicate AllFit(writes: seq<string>) {
    writes == [] || (0 < |writes[0]| < ULONG_MAX && AllFit(writes[1..]))
  }

  lemma {:induction false} FitAll(writes: seq<string>)
    requires forall i | 0 <= i < |writes| :: 0 < |writes[i]| < ULONG_MAX
    ensures AllFit(writes)
  {
    if writes != [] { FitAll(writes[1..]); }
  }

  /** Every write comes back, and reading goes on behind the last-chunk line. */
  ghost predicate ComesBack(writes: seq<string>, tail: string, limit: nat, total: nat, sx: Syntax) {
    var d := DecodeChunks(Head(writes) + CRLF, Behind(writes, tail), limit, total, sx);
    d == sx.end(tail).(body := Concat(writes) + sx.end(tail).body)
  }

  lemma {:induction false} ChunksRead(writes: seq<string>, tail: string, limit: nat, total: nat, sx: Syntax)
    requires SizesRead(sx) && ChunksCut(sx)
    requires AllFit(writes)
    requires total + |Concat(writes)| <= limit
    ensures ComesBack(writes, tail, limit, total, sx)
    decreases |writes|
  {
    if writes == [] {
      NoneBack(tail, limit, total, sx);
    } else {
      var w, more := writes[0], writes[1..];
      FirstWrite(writes, w, more, tail);
      ChunksRead(more, tail, limit, total + |w|, sx);
      OneBack(writes, w, more, tail, limit, total, sx);
    }
  }

  lemma NoneBack(tail: string, limit: nat, total: nat, sx: Syntax)
    requires SizesRead(sx)
    ensures ComesBack([], tail, limit, total, sx)
  {
    SizeOf([], sx);
    LastDecoded("0" + CRLF, tail, limit, total, sx);
  }

  lemma OneBack(writes: seq<string>, w: string, more: seq<string>, tail: string, limit: nat, total: nat, sx: Syntax)
    requires SizesRead(sx) && ChunksCut(sx) && AllFit(more)
    requires writes != [] && w == writes[0] && more == writes[1..] && 0 < |w| < ULONG_MAX && total + |w| <= limit
    requires ComesBack(more, tail, limit, total + |w|, sx)
    ensures ComesBack(writes, tail, limit, total, sx)
  {
    FirstWrite(writes, w, more, tail);
    ChunkRound(writes, w, more, tail, limit, total, sx);
    BodyJoin(sx.end(tail), w, Concat(more));
  }

  lemma FirstWrite(writes: seq<string>, w: string, more: seq<string>, tail: string)
    requires writes != [] && w == writes[0] && more == writes[1..]
    ensures Behind(writes, tail) == w + (CRLF + Encode(more, tail)) && Concat(writes) == w + Concat(more)
    ensures AllFit(writes) ==> AllFit(more) && 0 < |w| < ULONG_MAX
  {}

  lemma ChunkRound(writes: seq<string>, w: string, more: seq<string>, tail: string, limit: nat, total: nat, sx: Syntax)
    requires SizesRead(sx) && ChunksCut(sx) && AllFit(more)
    requires writes != [] && w == writes[0] && 0 < |w| < ULONG_MAX && total + |w| <= limit
    ensures var d := DecodeChunks(Head(more) + CRLF, Behind(more, tail), limit, total + |w|, sx);
            DecodeChunks(Head(writes) + CRLF, w + (CRLF + Encode(more, tail)), limit, total, sx) == d.(body := w + d.body)
  {
    SizeOf(writes, sx);
    CutOf(w, more, tail, sx);
    ChunkedGrammar.ChunkDecoded(Head(writes) + CRLF, w + (CRLF + Encode(more, tail)), |w|, w, Head(more) + CRLF, Behind(more, tail),
                                limit, total, sx);
  }

  lemma BodyJoin(d: Decoded, w: string, more: string)
    ensures d.(body := more + d.body).(body := w + (more + d.body)) == d.(body := w + more + d.body)
  {
    Associative(w, more, d.body);
  }

  lemma SizeOf(writes: seq<string>, sx: Syntax)
    requires SizesRead(sx) && (writes != [] ==> |writes[0]| < ULONG_MAX)
    ensures sx.size(Head(writes) + CRLF) == Some(if writes == [] then 0 else |writes[0]|)
  {
    var n := if writes == [] then 0 else |writes[0]|;
    SizeRead(n);
    assert Uri.ToHex(0) == "0";
    assert sx.size(Uri.ToHex(n) + CRLF) == StrToUl(Uri.ToHex(n) + CRLF);
  }

  lemma CutOf(w: string, writes: seq<string>, tail: string, sx: Syntax)
    requires ChunksCut(sx) && (writes != [] ==> |writes[0]| < ULONG_MAX)
    ensures sx.cut(w + (CRLF + Encode(writes, tail)), |w|) == Whole(w, Head(writes) + CRLF, Behind(writes, tail))
  {
    CutWritten(w, writes, tail);
    assert sx.cut(w + (CRLF + Encode(writes, tail)), |w|) == CutChunk(w + (CRLF + Encode(writes, tail)), |w|);
  }

  lemma LastDecoded(line: string, s: string, limit: nat, total: nat, sx: Syntax)
    requires sx.size(line) == Some(0)
    ensures DecodeChunks(line, s, limit, total, sx) == sx.end(s).(body := "" + sx.end(s).body)
  {
    assert "" + sx.end(s).body == sx.end(s).body;
  }

  predicate TrailerOk(t: Fields.Header, declared: set<string>) {
    && Fields.IsToken(t.0) && Fields.IsFieldValue(t.1) && '%' !in t.1
    && Lower(t.0) in declared && |FieldLine(t)| + 2 <= HEADER_MAX_LENGTH
  }

  lemma TrailerRead(t: Fields.Header, declared: set<string>)
    requires TrailerOk(t, declared)
    ensures TrailerOf(FieldLine(t) + CRLF, declared) == [t]
  {
    var line := FieldLine(t);
    assert (line + CRLF)[..|line + CRLF| - 2] == line;
    TrailerParsed(t);
  }

  lemma TrailerParsed(t: Fields.Header)
    requires Fields.IsToken(t.0) && Fields.IsFieldValue(t.1) && '%' !in t.1
    ensures Fields.ParseHeader(FieldLine(t)) == Some(t)
  {
    NoColon(t.0);
    if t.1 == "" {
      EmptyValueRead(t.0);
    } else {
      Uri.DecodePlain(t.1, false);
      Fields.ParseWritten(t.0, t.1);
    }
  }

  lemma NoColon(key: string)
    requires Fields.IsToken(key)
    ensures ':' !in key
  {
    assert !Fields.IsTokenChar(':');
  }

  lemma NoReturn(t: Fields.Header)
    requires Fields.IsToken(t.0) && Fields.IsFieldValue(t.1)
    ensures '\r' !in FieldLine(t)
  {
    assert !Fields.IsTokenChar('\r') && !Fields.IsFieldChar('\r');
    assert forall i | 0 <= i < |t.1| :: t.1[i] != '\r';
    assert forall i | 0 <= i < |t.0| :: t.0[i] != '\r';
  }

  lemma EmptyValueRead(key: string)
    requires Fields.IsToken(key) && ':' !in key
    ensures Fields.ParseHeader(key + ": " + "") == Some((key, ""))
  {
    var line := key + ": " + "";
    assert line[|key|] == ':' && line[|key| + 1] == ' ' && |line| == |key| + 2;
    assert RightEdge(line, |line|) == |key| + 1;
    var body := TrimRight(line);
    assert body == key + [':'] + "";
    IndexOfIs(key, ':', "");
    assert body[..|key|] == key;
  }

  function FirstTrailerLine(trailers: seq<Fields.Header>): string {
    if trailers == [] then CRLF else FieldLine(trailers[0]) + CRLF
  }

  function AfterFirst(trailers: seq<Fields.Header>, rest: string): string {
    if trailers == [] then rest else TrailerText(trailers[1..], rest)
  }

  /** A trailer whose line is short and read back as the trailer. */
  predicate ReadsBack(t: Fields.Header, keep: Keep) {
    keep(FieldLine(t) + CRLF) == [t] && '\r' !in FieldLine(t) && FieldLine(t) != "" && |FieldLine(t)| + 2 <= HEADER_MAX_LENGTH
  }

  lemma TrailerLine(trailers: seq<Fields.Header>, rest: string, keep: Keep)
    requires trailers != [] ==> ReadsBack(trailers[0], keep)
    ensures NextLine(TrailerText(trailers, rest)) == Some(FirstTrailerLine(trailers))
    ensures TrailerText(trailers, rest)[|FirstTrailerLine(trailers)|..] == AfterFirst(trailers, rest)
  {
    if trailers == [] {
      NextLineIs("", rest);
      assert "" + CRLF + rest == CRLF + rest;
      assert "" + CRLF == CRLF;
    } else {
      NextLineIs(FieldLine(trailers[0]), TrailerText(trailers[1..], rest));
    }
  }

  predicate AllReadBack(trailers: seq<Fields.Header>, keep: Keep) {
    trailers == [] || (ReadsBack(trailers[0], keep) && AllReadBack(trailers[1..], keep))
  }

  lemma {:induction false} AllOkReadBack(trailers: seq<Fields.Header>, declared: set<string>, keep: Keep)
    requires TrailersRead(keep, declared) && forall i | 0 <= i < |trailers| :: TrailerOk(trailers[i], declared)
    ensures AllReadBack(trailers, keep)
  {
    if trailers != [] {
      OkReadsBack(trailers[0], declared, keep);
      AllOkReadBack(trailers[1..], declared, keep);
    }
  }

  ghost predicate TrailersBack(trailers: seq<Fields.Header>, rest: string, keep: Keep, count: nat) {
    DecodeTrailers(FirstTrailerLine(trailers), AfterFirst(trailers, rest), keep, count) == Decoded(Success, "", trailers, rest)
  }

  /** Declared trailers come back in order, and reading stops behind the blank line. */
  lemma {:induction false} TrailersReadBack(trailers: seq<Fields.Header>, rest: string, keep: Keep, count: nat)
    requires count + |trailers| <= HEADER_MAX_COUNT
    requires AllReadBack(trailers, keep)
    ensures TrailersBack(trailers, rest, keep, count)
    decreases |trailers|
  {
    if trailers == [] {
      BlankRead(rest, keep, count);
    } else {
      TrailersReadBack(trailers[1..], rest, keep, count + 1);
      OneTrailerBack(trailers, trailers[0], trailers[1..], rest, keep, count);
    }
  }

  lemma OneTrailerBack(trailers: seq<Fields.Header>, t: Fields.Header, more: seq<Fields.Header>, rest: string, keep: Keep, count: nat)
    requires trailers != [] && t == trailers[0] && more == trailers[1..]
    requires count < HEADER_MAX_COUNT && ReadsBack(t, keep) && AllReadBack(more, keep)
    requires TrailersBack(more, rest, keep, count + 1)
    ensures TrailersBack(trailers, rest, keep, count)
  {
    TrailerRound(t, more, rest, keep, count);
    FirstOf(trailers, t, more, rest);
  }

  lemma BlankRead(rest: string, keep: Keep, count: nat)
    ensures DecodeTrailers(CRLF, rest, keep, count) == Decoded(Success, "", [], rest)
  {}

  lemma FirstOf(trailers: seq<Fields.Header>, t: Fields.Header, more: seq<Fields.Header>, rest: string)
    requires trailers != [] && t == trailers[0] && more == trailers[1..]
    ensures FirstTrailerLine(trailers) == FieldLine(t) + CRLF && AfterFirst(trailers, rest) == TrailerText(more, rest)
    ensures [t] + more == trailers
  {}

  lemma TrailerRound(t: Fields.Header, more: seq<Fields.Header>, rest: string, keep: Keep, count: nat)
    requires count < HEADER_MAX_COUNT && ReadsBack(t, keep) && AllReadBack(more, keep)
    ensures var d := DecodeTrailers(FirstTrailerLine(more), AfterFirst(more, rest), keep, count + 1);
            DecodeTrailers(FieldLine(t) + CRLF, TrailerText(more, rest), keep, count) == d.(trailers := [t] + d.trailers)
  {
    TrailerLine(more, rest, keep);
    TrailerDecoded(FieldLine(t) + CRLF, TrailerText(more, rest), t, FirstTrailerLine(more), keep, count);
  }

  lemma OkReadsBack(t: Fields.Header, declared: set<string>, keep: Keep)
    requires TrailersRead(keep, declared) && TrailerOk(t, declared)
    ensures ReadsBack(t, keep)
  {
    TrailerRead(t, declared);
    NoReturn(t);
    assert keep(FieldLine(t) + CRLF) == TrailerOf(FieldLine(t) + CRLF, declared);
  }

  lemma TrailerDecoded(line: string, s: string, t: Fields.Header, next: string, keep: Keep, count: nat)
    requires line != CRLF && |line| <= HEADER_MAX_LENGTH && count < HEADER_MAX_COUNT
    requires keep(line) == [t] && NextLine(s) == Some(next)
    ensures var d := DecodeTrailers(next, s[|next|..], keep, count + 1);
            DecodeTrailers(line, s, keep, count) == d.(trailers := [t] + d.trailers)
  {}

  lemma {:induction false} TrailerTextRest(trailers: seq<Fields.Header>, rest: string)
    ensures TrailerText(trailers, rest) == TrailerText(trailers, "") + rest
  {
    if trailers == [] {
      assert CRLF + "" + rest == CRLF + rest;
    } else {
      TrailerTextRest(trailers[1..], rest);
      Associative(FieldLine(trailers[0]) + CRLF, TrailerText(trailers[1..], ""), rest);
    }
  }

  lemma {:induction false} EncodeRest(writes: seq<string>, tail: string, rest: string)
    ensures Encode(writes, tail) + rest == Encode(writes, tail + rest)
    decreases |writes|
  {
    Associative(Head(writes) + CRLF, Behind(writes, tail), rest);
    if writes != [] {
      EncodeRest(writes[1..], tail, rest);
      Associative(writes[0], CRLF + Encode(writes[1..], tail), rest);
      Associative(CRLF, Encode(writes[1..], tail), rest);
    }
  }

  /** Whatever a provider writes comes back: content, trailers, and exactly the bytes behind the message left over. */
  lemma RoundTrip(calls: seq<ProviderCall>, writes: seq<string>, trailers: seq<Fields.Header>,
                  trailerHeader: Option<string>, limit: nat, rest: string)
    requires Provides(calls, writes, trailers)
    requires forall i | 0 <= i < |writes| :: |writes[i]| < ULONG_MAX
    requires |Concat(writes)| <= limit && |trailers| <= HEADER_MAX_COUNT
    requires var declared := Declared(trailerHeader, PROHIBITED);
             forall i | 0 <= i < |trailers| :: TrailerOk(trailers[i], declared)
    ensures Sent(calls, true).1 == Finished
    ensures DecodeChunked(Sent(calls, true).0 + rest, limit, SyntaxFor(Declared(trailerHeader, PROHIBITED)))
            == Decoded(Success, Concat(writes), trailers, rest)
  {
    SentAll(calls, Actions(writes), trailers);
    EmittedIsEncoded(writes, trailers);
    EncodeRest(writes, TrailerText(trailers, ""), rest);
    TrailerTextRest(trailers, rest);
    ReadBack(writes, trailers, Declared(trailerHeader, PROHIBITED), limit, rest);
  }

  lemma ReadBack(writes: seq<string>, trailers: seq<Fields.Header>, declared: set<string>, limit: nat, rest: string)
    requires forall i | 0 <= i < |writes| :: 0 < |writes[i]| < ULONG_MAX
    requires |Concat(writes)| <= limit && |trailers| <= HEADER_MAX_COUNT
    requires forall i | 0 <= i < |trailers| :: TrailerOk(trailers[i], declared)
    ensures DecodeChunked(Encode(writes, TrailerText(trailers, rest)), limit, SyntaxFor(declared))
            == Decoded(Success, Concat(writes), trailers, rest)
  {
    var sx, keep, tail := SyntaxFor(declared), KeepDeclared(declared), TrailerText(trailers, rest);
    SyntaxReads(declared);
    FitAll(writes);
    HeadLine(writes, Behind(writes, tail));
    ChunksRead(writes, tail, limit, 0, sx);
    AllOkReadBack(trailers, declared, keep);
    EndRead(trailers, rest, keep);
    assert sx.end(tail) == DecodeEnd(tail, keep);
    assert Concat(writes) + "" == Concat(writes);
  }

  lemma EndRead(trailers: seq<Fields.Header>, rest: string, keep: Keep)
    requires |trailers| <= HEADER_MAX_COUNT && AllReadBack(trailers, keep)
    ensures DecodeEnd(TrailerText(trailers, rest), keep) == Decoded(Success, "", trailers, rest)
  {
    TrailerLine(trailers, rest, keep);
    TrailersReadBack(trailers, rest, keep, 0);
  }
}
