# Verification of cpp-httplib and the scheduling bridge

A Dafny model of the hard parts of two programs in this repository, with proofs that hold for every
input, every run and every interleaving.

**The HTTP library** (`ns-3-dev/cpp-httplib/httplib.h`):

- `form_data.dfy` is the multipart parser as a function of its state and the bytes fed to it;
  `form_parser.dfy` is the class over its in-place buffer, proved to compute that function;
  `form_split.dfy` and `form_segmentation.dfy` show that the pieces a stream arrives in do not matter,
  `form_cuts.dfy` exactly when;
  `form_roundtrip.dfy` has the serializer, and the parser giving back what it wrote; `form_names.dfy` says
  exactly which names come back, `form_headers.dfy` what is reported of a part with any header lines,
  `form_params.dfy` which parameters of a disposition count.
- `streams.dfy` has the read-ahead buffer of a socket stream, the line reader and reads of known length,
  all against the plain byte stream; `chunked.dfy` and `chunked_writer.dfy` the chunked transfer coding, and
  `chunked_grammar.dfy` exactly which streams are accepted and which trailers are kept.
- `ranges.dfy` has range checking and coalescing, `range_header.dfy` the Range header,
  `range_response.dfy` the answer to a range request with its advertised length, `range_reader.dfy` a reader of
  that answer which knows nothing of how it was written.
- `base64.dfy`, `uri.dfy`, `query.dfy` and `route.dfy` have the encoders, query text and path parameters.
- `thread_pool.dfy` and `client_socket.dfy` are state machines over the steps of any number of threads.

**The scheduling bridge and its tools**: `rendezvous.dfy` (request handler and learner meeting over one
condition variable), `action.dfy` (the DQN action index), `dependencies.dfy` (layered module order) and
`welford.dfy` (one-pass mean and variance). `text.dfy`, `fields.dfy`, `decimal.dfy`,
`limits.dfy` and `wrappers.dfy` are shared.

Code that changes things step by step is a method or a class here, with a contract that ties it to a
function; the theorems are about the function, so they hold of the code.

## How the outside world is modelled

- A byte is a `char`; where the byte range matters, a predicate says so.
- Sockets deliver any part of what is coming and may fail at any call; failures and refusals by the
  application are counted in ghost fields, so that "unless a read fails" can be said exactly.
- Callbacks and the content callback's answers are parameters (`Callbacks`). A content provider is a method
  that writes any pieces of the representation it serves and may cancel.
- Threads are sequences of atomic steps, one for each section under a mutex. Python's `Condition` has no
  spurious wake-ups, C++'s has; the two models follow that.
- A failing `assert` is an outcome of its own (`Fault`, `Aborted`) where callers can run into it; elsewhere it
  is a precondition.
- An exception or error return is an `Option`, a Boolean or a result value.

## What turned out differently from the documentation

- A multipart header line of the limit or longer is refused or accepted depending on how the stream was cut
  (`FormCuts.LongLineDependsOnCut`); `FormCuts.CutIndependence` says exactly when the cut makes no difference.
  Bytes behind the closing boundary are looked at again if they come in a later piece (`FormCuts.SameForEveryCut`).
- Names and file names in a form are written unfiltered. They may contain quotes, but with `;`, `=` or a control
  character other than the tab they do not come back (`FormNames.NameSurvives`); with a line end in it a name can
  even be accepted as a shorter name with a header of its own making (`FormNames.InjectedHeader`). A form without
  items is serialized to text the parser never calls valid (`FormRoundTrip.RoundTrip`).
- Bytes behind a boundary that neither end its line nor close the form are never resolved: `parse` goes on
  answering yes (`FormSegmentation.NeverResolved`).
- A suffix range longer than the content is refused, where section 14.1.2 of RFC 9110 would send everything
  (`Ranges.RefusedThoughSatisfiable`). A range asked for twice is left twice, unless another starts before it
  and reaches it (`Ranges.LeavesCanonical`, `Ranges.CrowdedRequest`); with a longer one from the same start the
  outcome depends on how `std::sort` orders the two (`Ranges.OrderDecides`).
- The content provider path ignores the status: with ranges and a status other than 206 the whole length is
  advertised but the ranges are sent (`RangeResponse.LengthsAgree`, `RangeResponse.WrongLength`). With a status
  that is not one of success the ranges are not even checked, and an assertion fails for those outside the
  content (`RangeResponse.WriteContentWithProvider`, `RangeResponse.SuffixLeftRaw`, `RangeResponse.Respond`).
- Query keys are printed without encoding, and a repeated parameter is dropped: one key that does not read back
  as itself, among any others, and the list does not come back (`Query.RoundTrip`, `Query.KeySurvives`).
- A `stop` during a request is forgotten when the request is redirected afterwards
  (`ClientSocket.StopForgotten`, `ClientSocket.StopForgottenInRun`).
- A request sent while nobody is learning blocks for good, even if a learner begins afterwards, and nothing else
  does (`Rendezvous.StuckIff`, `Rendezvous.NeverAnswered`).

## Model

| member | source | states |
|---|---|---|
| Text.TrimCopy | ns-3-dev/cpp-httplib/httplib.h:2899-2913 | the string without the blanks and tabs at its two ends |
| Text.SplitFields | ns-3-dev/cpp-httplib/httplib.h:2943-2968 | the non-empty trimmed fields between separators, in order, as defined by cutting at the first separator again and again |
| Text.TrimBetween | ns-3-dev/cpp-httplib/httplib.h:2899-2913 | a text without blanks at its ends is what is left of it when any blanks are put around it |
| Text.SplitIsFields | ns-3-dev/cpp-httplib/httplib.h:2943-2968 | the pieces are exactly what stands between two separators, or one and an end, trimmed, where that is not blank |
| Text.SameLetter | ns-3-dev/cpp-httplib/httplib.h:401-430 | two ASCII bytes count as equal exactly when they are, or are the two cases of one letter |
| Uri.FromIntToHex | ns-3-dev/cpp-httplib/httplib.h:2692-2700 | the shortest lower-case hexadecimal numeral of the number |
| Uri.HexRoundTrip | ns-3-dev/cpp-httplib/httplib.h:2692-2700 | reading a printed hexadecimal numeral gives the number back, for every number |
| Uri.FromHexToInt | ns-3-dev/cpp-httplib/httplib.h:2675-2690 | the number of exactly so many hexadecimal digits, or nothing when one is missing or not a digit |
| Uri.DecodePathText | ns-3-dev/cpp-httplib/httplib.h:2853-2888 | percent decoding, with the four-digit form, malformed escapes kept as they are, and `+` as a blank on request |
| Uri.FourDigitEscape | ns-3-dev/cpp-httplib/httplib.h:2702-2725 | a four-digit escape of any digits decodes to bytes from which a strict UTF-8 reader gives back its number; a surrogate vanishes |
| Uri.BareEscape | ns-3-dev/cpp-httplib/httplib.h:2853-2888 | a percent sign without two hexadecimal digits, or `u` and four, behind it stands for itself |
| Uri.OtherByte | ns-3-dev/cpp-httplib/httplib.h:2853-2888 | any other byte stands for itself, a plus sign for a blank where it is to |
| Uri.EncodeUriComponent | ns-3-dev/cpp-httplib/httplib.h:6420-6439 | every byte outside the unreserved set becomes a percent sign and two upper-case digits |
| Uri.DecodeEncode | ns-3-dev/cpp-httplib/httplib.h:2853-2888 | decoding undoes encoding on every byte string, whether or not `+` stands for a blank |
| Uri.EncodedAlphabet | ns-3-dev/cpp-httplib/httplib.h:6420-6439 | encoded text holds no separator: only unreserved bytes and percent signs |
| Uri.DecodePlain | ns-3-dev/cpp-httplib/httplib.h:2853-2888 | text without percent signs (and `+`, where that is special) decodes to itself |
| Fields.ParseHeaderLine | ns-3-dev/cpp-httplib/httplib.h:4577-4621 | a header line is accepted exactly when it has a token name, a colon and a legal field value after trimming; the value comes back percent-decoded unless the header is Location or Referer |
| Fields.ParseWritten | ns-3-dev/cpp-httplib/httplib.h:4577-4621 | a line written as name, colon, blank, value is accepted exactly when name and value are legal, and gives them back |
| Fields.HeaderLineIs | ns-3-dev/cpp-httplib/httplib.h:4577-4621 | a line is accepted with a name and a value exactly when it is the name (a token), a colon, blanks, the value (legal) and blanks |
| Fields.EncodedValue | ns-3-dev/cpp-httplib/httplib.h:4610-4616 | a percent-encoded value comes back decoded, for every value; in Location and Referer it stays encoded |
| Fields.TokenCharIs | ns-3-dev/cpp-httplib/httplib.h:2600-2604 | a byte may stand in a token exactly when it is visible ASCII and none of the delimiters of section 5.6.2 of RFC 9110 |
| Decimal.DecimalRoundTrip | ns-3-dev/cpp-httplib/httplib.h:6518-6530 | reading a printed decimal numeral gives the number back, for every number |
| FormParser.FormDataParser.constructor | ns-3-dev/cpp-httplib/httplib.h:5501-5507 | a new parser is the initial state of the abstract machine, with an empty buffer |
| FormParser.FormDataParser.BufFind | ns-3-dev/cpp-httplib/httplib.h:5706-5727 | the first occurrence in the unread buffer, or its length when there is none |
| FormParser.FormDataParser.BufAppend | ns-3-dev/cpp-httplib/httplib.h:5729-5745 | the unread bytes moved to the front in place, with the new ones behind them; nothing lost or reordered |
| FormParser.FormDataParser.BufErase | ns-3-dev/cpp-httplib/httplib.h:5747 | the first bytes of the unread buffer are gone and nothing else changes |
| FormParser.FormDataParser.ParseDispositionParams | ns-3-dev/cpp-httplib/httplib.h:5307-5327 | the parameters of a disposition, a text that was seen before skipped |
| FormParams.FirstCounts | ns-3-dev/cpp-httplib/httplib.h:5307-5327 | skipping texts seen before changes nothing: the value found for a key is that in the first field with it |
| FormParams.ParamIs | ns-3-dev/cpp-httplib/httplib.h:5307-5327 | a field is its key and its value, both trimmed and unquoted |
| FormParams.ParamBare | ns-3-dev/cpp-httplib/httplib.h:5307-5327 | without a value the value is empty; a blank field is no parameter |
| FormParams.QuotesOff | ns-3-dev/cpp-httplib/httplib.h:2915-2920 | a pair of quotes around a text is taken off, and any other text stays as it is |
| FormParams.LastCounts | ns-3-dev/cpp-httplib/httplib.h:5316-5322 | of several values in one field the last counts |
| FormParams.DispositionIs | ns-3-dev/cpp-httplib/httplib.h:5569-5574 | field name and type of a disposition in any letter case, with any space behind each: the parameters are what follows |
| FormParams.ExtendedName | ns-3-dev/cpp-httplib/httplib.h:5589-5601 | any file name, whatever its bytes, written as `filename*` in UTF-8 form, is read back decoded, with the field recorded |
| FormParser.FormDataParser.TakeHeaderLine | ns-3-dev/cpp-httplib/httplib.h:5547-5604 | the effect of one header line on the file information, the header recorded first, including a refusal half-way |
| FormHeaders.PartReported | ns-3-dev/cpp-httplib/httplib.h:5547-5565 | a part of any accepted header lines, in whatever pieces: one entry with exactly the name and decoded value of each line, in order, the type of the last type line, and the whole content |
| FormHeaders.PartRefused | ns-3-dev/cpp-httplib/httplib.h:5547-5604 | with one line that is not accepted, behind any that are, the form is refused and nothing is reported, in whatever pieces |
| FormHeaders.RefusedWhen | ns-3-dev/cpp-httplib/httplib.h:5547-5604 | a line is accepted exactly when it is a header field and, if it is a disposition, has a name and no malformed extended file name |
| FormHeaders.PlainLine | ns-3-dev/cpp-httplib/httplib.h:5547-5604 | any header field that is no disposition is accepted |
| FormHeaders.LineAlike | ns-3-dev/cpp-httplib/httplib.h:5547-5604 | whether a line is accepted does not depend on the lines before it |
| FormParser.FormDataParser.HeadersState | ns-3-dev/cpp-httplib/httplib.h:5530-5610 | from the header state: where the loop goes on or ends, and with which callbacks |
| FormParser.FormDataParser.BodyState | ns-3-dev/cpp-httplib/httplib.h:5611-5633 | the move of the body state: content up to the delimiter, or all but a delimiter's length, or more input needed |
| FormParser.FormDataParser.BoundaryState | ns-3-dev/cpp-httplib/httplib.h:5634-5650 | the move behind a boundary: a new part, the end, or more input needed |
| FormParser.FormDataParser.Round | ns-3-dev/cpp-httplib/httplib.h:5516-5652 | one round of the loop, in any state, is a step of the function on plain strings |
| FormParser.FormDataParser.ParseData | ns-3-dev/cpp-httplib/httplib.h:5511-5655 | `parse` on the in-place buffer: answer, callbacks and new state are those of the function on plain strings |
| FormSplit.RunSplit | ns-3-dev/cpp-httplib/httplib.h:5511-5655 | one stream cut in two: the second call carries on to the same state, answer and reported entries as one call with everything |
| FormSegmentation.Segmentation | ns-3-dev/cpp-httplib/httplib.h:5511-5655 | any cutting of any stream, with header lines under the limit and a content callback that accepts: same answer, same final state, same summary of callbacks as feeding it whole; a refusal stays a refusal |
| FormSegmentation.CallbacksObeyed | ns-3-dev/cpp-httplib/httplib.h:5533-5633 | over any calls: a callback that refuses is the last to be called, the answer is then no, and every callback of an accepted run agreed |
| FormSegmentation.BodyLean | ns-3-dev/cpp-httplib/httplib.h:5611-5633 | a call that ends inside a part's content keeps at most a delimiter's length |
| FormSegmentation.NeverResolved | ns-3-dev/cpp-httplib/httplib.h:5634-5650 | bytes behind a boundary that neither end its line nor close the form: `parse` answers yes to everything that follows and reports nothing |
| FormCuts.Widths | ns-3-dev/cpp-httplib/httplib.h:5530-5610 | the header lines a run meets are those of the stream, found in its bytes without running anything |
| FormCuts.CutIndependence | ns-3-dev/cpp-httplib/httplib.h:5511-5655 | for a stream accepted in one piece: every cutting gives the same answer, state and report up to the closing boundary exactly when every header line is shorter than 8192 bytes (of an unfinished one, all but its last byte) |
| FormCuts.SameForEveryCut | ns-3-dev/cpp-httplib/httplib.h:5511-5655 | for a stream accepted in one piece: every cutting, with every call of `parse`, gives the same answer, final state and report exactly when every header line is shorter than 8192 bytes and nothing stands behind the closing boundary |
| FormCuts.RefusedEveryCut | ns-3-dev/cpp-httplib/httplib.h:5511-5655 | a stream refused in one piece is refused in every cutting, however long its header lines are |
| FormCuts.SameAnswer | ns-3-dev/cpp-httplib/httplib.h:5511-5655 | for any stream: every cutting gets the answer of the whole exactly when the whole is refused or every header line is shorter than 8192 bytes |
| FormSegmentation.BodyNeverLeaks | ns-3-dev/cpp-httplib/httplib.h:5611-5633 | body state, arbitrary bytes, boundary and cutting: handed on ++ buffered == received while no delimiter has come; then handed on == the bytes before its first occurrence in the whole stream |
| FormCuts.LongLineDependsOnCut | ns-3-dev/cpp-httplib/httplib.h:5530-5532 | header lines the code itself accepts: one of 8192 bytes or more behind a short one is accepted in one piece and refused in some other cutting |
| FormSegmentation.NoEpilogue | ns-3-dev/cpp-httplib/httplib.h:5634-5650 | bytes are thrown away only behind the closing boundary |
| FormRoundTrip.IsMultipartBoundaryCharsValid | ns-3-dev/cpp-httplib/httplib.h:5779-5790 | true exactly for letters, digits, `-` and `_` |
| FormRoundTrip.SerializeMultipartFormdata | ns-3-dev/cpp-httplib/httplib.h:5792-5834 | the serializer's output, part by part, then the closing boundary |
| FormNames.NameSurvives | ns-3-dev/cpp-httplib/httplib.h:5511-5655 | a form of one item, serialized and parsed: it is accepted, valid, and reports the item with its name and file name exactly when both hold field characters other than `;` and `=` (quotes may occur); its header fields are then those written |
| FormNames.HeadersName | ns-3-dev/cpp-httplib/httplib.h:5533-5607 | whatever bytes arrive, the first part reported has a name of that kind |
| FormNames.InjectedHeader | ns-3-dev/cpp-httplib/httplib.h:5792-5806 | a name that closes its quote and goes on in a line of its own: in whatever pieces, the part is accepted, valid, with the shorter name, and its header fields are the disposition and exactly the injected one |
| FormRoundTrip.WholeRead | ns-3-dev/cpp-httplib/httplib.h:5511-5655 | a serialized form fed whole is parsed to exactly its items, each with exactly the header fields written for it, and the form is valid |
| FormRoundTrip.EpilogueIgnored | ns-3-dev/cpp-httplib/httplib.h:5641-5644 | the line end written behind the closing boundary changes nothing, however it is cut |
| FormRoundTrip.RoundTrip | ns-3-dev/cpp-httplib/httplib.h:5779-5834 | a serialized form, cut into any pieces: the report is exactly the items, in order, with name, file name, type, the header fields written and complete content; the result is valid exactly when there was an item |
| Streams.SocketStream.Read | ns-3-dev/cpp-httplib/httplib.h:6864-6908 | returned ++ unread buffer ++ still in the socket == what was pending before, for every read size and every way the socket delivers; end of stream only at the end |
| Streams.SocketStream.ReadAhead | ns-3-dev/cpp-httplib/httplib.h:6888-6904 | the read-ahead case: what does not fit the request stays in the buffer, in order |
| Streams.StreamLineReader.Append | ns-3-dev/cpp-httplib/httplib.h:3036-3047 | one byte more in what `ptr` and `size` show, across the spill from the fixed to the growable buffer |
| Streams.StreamLineReader.GetLine | ns-3-dev/cpp-httplib/httplib.h:2996-3034 | unless a read fails, exactly the next line of the plain stream is taken, and nothing beyond it; false at the end and for a line over the limit |
| Streams.ReadLines | ns-3-dev/cpp-httplib/httplib.h:2996-3034 | `getline` again and again yields the lines of the plain stream; after a failed read, a prefix of them |
| Streams.LinesCut | ns-3-dev/cpp-httplib/httplib.h:2996-3034 | put together, the lines are the stream up to where reading stops; each ends in its only CR LF, and only what the stream ends with may lack one |
| Streams.StopsWhere | ns-3-dev/cpp-httplib/httplib.h:2996-3034 | reading stops exactly at the end, before an unfinished line that reaches the limit, or before a line whose end lies beyond it |
| Streams.UnreadIs | ns-3-dev/cpp-httplib/httplib.h:2996-3034 | where there is no next line, as much is gone as a line may hold, or all there is |
| Streams.ReadContentWithLength | ns-3-dev/cpp-httplib/httplib.h:4669-4689 | exactly the next bytes of the plain stream are delivered and consumed; too short a stream is delivered whole and refused |
| Streams.WriteData | ns-3-dev/cpp-httplib/httplib.h:5011-5019 | short writes are carried on until every byte is out, or an error is reported |
| Chunked.DeclaredNames | ns-3-dev/cpp-httplib/httplib.h:4815-4827 | the names a Trailer header declares, case folded, without the prohibited ones |
| Chunked.DeclaredIs | ns-3-dev/cpp-httplib/httplib.h:4815-4827 | a name is declared exactly when a field of the Trailer value folds to it and it is not prohibited |
| ChunkedGrammar.NeverDeclared | ns-3-dev/cpp-httplib/httplib.h:4793-4812 | names that frame, route, authenticate or control a message are declared by no Trailer header, in any letter case |
| Chunked.ReadTrailers | ns-3-dev/cpp-httplib/httplib.h:4829-4856 | the trailer section of the plain stream: the trailers whose names are declared, the limits, and the point where reading stops |
| ChunkedGrammar.TrailersKept | ns-3-dev/cpp-httplib/httplib.h:4829-4856 | whatever arrives: every trailer kept is named by a field of the Trailer header, in some letter case, and is not prohibited; without that header there is none |
| ChunkedGrammar.SizeIs | ns-3-dev/cpp-httplib/httplib.h:4747-4754 | a size is read behind blanks, sign and prefix up to what is no digit; too large a number is the largest, a minus sign wraps around |
| ChunkedGrammar.NoSize | ns-3-dev/cpp-httplib/httplib.h:4747-4754 | where no digit stands behind blanks and sign, nothing is read |
| ChunkedGrammar.AcceptedIsMessage | ns-3-dev/cpp-httplib/httplib.h:4733-4856 | what is accepted is a message: chunks whose size lines announce their data, each with its line end; a last-chunk line; bearable trailer lines up to a blank one, of which exactly the announced and well-formed are kept, in order |
| ChunkedGrammar.MessageIsAccepted | ns-3-dev/cpp-httplib/httplib.h:4733-4856 | every such message within the limits is accepted, with the data and trailers it carries |
| ChunkedGrammar.AcceptsMessages | ns-3-dev/cpp-httplib/httplib.h:4733-4856 | both together: result, content, trailers and rest of an accepted stream are those of a message it begins with, if and only if |
| Chunked.ReadContentChunked | ns-3-dev/cpp-httplib/httplib.h:4733-4856 | over any socket behaviour: result, content, trailers and stopping point are those of the decoding function on the plain stream |
| Chunked.WithinLimit | ns-3-dev/cpp-httplib/httplib.h:4744-4775 | whatever the outcome, what is delivered and what came before never pass the limit together |
| Chunked.ContentWithinLimit | ns-3-dev/cpp-httplib/httplib.h:4733-4856 | no message, accepted or refused, delivers more than the payload limit |
| ChunkedWriter.WriteContentChunked | ns-3-dev/cpp-httplib/httplib.h:5122-5219 | the bytes of all the provider's writes and of its end, up to a stream that is not writable, a cancelling provider or a failed write; true exactly with the error `Success` |
| ChunkedWriter.RoundDecides | ns-3-dev/cpp-httplib/httplib.h:5122-5219 | the provider is called again unless its last action was to finish or to write nothing |
| ChunkedWriter.SizeRead | ns-3-dev/cpp-httplib/httplib.h:4747-4754 | a chunk-size line is read as the number printed on it, up to the largest unsigned long |
| ChunkedWriter.SentAll | ns-3-dev/cpp-httplib/httplib.h:5122-5219 | however a provider spreads non-empty writes and its end over calls, all of them are sent |
| ChunkedWriter.TrailerParsed | ns-3-dev/cpp-httplib/httplib.h:5184-5193 | a written trailer line with a legal name and a legal value free of percent signs is parsed back |
| ChunkedWriter.TrailersReadBack | ns-3-dev/cpp-httplib/httplib.h:4829-4856 | declared trailers come back in order, and reading stops behind the blank line |
| ChunkedWriter.RoundTrip | ns-3-dev/cpp-httplib/httplib.h:4733-4856 | reading what was written: the concatenated writes, the trailers, success, and exactly the bytes behind the message left over |
| Ranges.NormaliseMeaning | ns-3-dev/cpp-httplib/httplib.h:5907-5938 | normalising keeps exactly the bytes asked for, and lands inside the representation exactly when the code's rule says the range can be met |
| Ranges.RefusedThoughSatisfiable | ns-3-dev/cpp-httplib/httplib.h:5907-5938 | of the ranges satisfiable by section 14.1.2 of RFC 9110 exactly the suffixes longer than the representation are refused; beyond them only the range without positions is taken |
| Ranges.CoalesceCover | ns-3-dev/cpp-httplib/httplib.h:5861-5887 | joining loses no byte and adds none |
| Ranges.CoalesceGapped | ns-3-dev/cpp-httplib/httplib.h:5871-5887 | for a sorted list in which every range occurring twice is reached by one that starts earlier, consecutive ranges kept are at least one byte apart |
| Ranges.CanonicalIff | ns-3-dev/cpp-httplib/httplib.h:5836-5890 | for ranges inside the representation: every order the sort may give to equal firsts leaves them apart exactly when each range occurring twice is reached by one that starts earlier |
| Ranges.OrderDecides | ns-3-dev/cpp-httplib/httplib.h:5840-5887 | two equal ranges and a longer one from the same start: sorted one way they are left overlapping, sorted another way they become one range |
| Ranges.CanonicalUnique | ns-3-dev/cpp-httplib/httplib.h:5836-5890 | two lists in that form covering the same bytes are the same list |
| Ranges.CanonicalShortest | ns-3-dev/cpp-httplib/httplib.h:5836-5890 | no list covering the same bytes is shorter |
| Ranges.LeavesCanonical | ns-3-dev/cpp-httplib/httplib.h:5892-5958 | all that `range_error` may leave of an accepted request is canonical exactly when, of the normalised ranges, each occurring twice is reached by one that starts earlier |
| Ranges.CrowdedRequest | ns-3-dev/cpp-httplib/httplib.h:5892-5958 | a request that fails: the first byte twice is accepted, for every non-empty representation, and left as two overlapping ranges, however it is sorted |
| Ranges.CoalesceRanges | ns-3-dev/cpp-httplib/httplib.h:5836-5890 | on normalised ranges: inside, in order, same bytes, and the coalescing of the ranges in some order by first position |
| Ranges.NormaliseInPlace | ns-3-dev/cpp-httplib/httplib.h:5907-5951 | the request's ranges normalised where they stand; refused exactly when one cannot be met or more than two overlap an earlier one |
| Ranges.RefusedWhen | ns-3-dev/cpp-httplib/httplib.h:5892-5951 | refused exactly with more than 1024 ranges, one that cannot be met, or more than two that ask again for a byte an earlier one asks for |
| Ranges.RangeError | ns-3-dev/cpp-httplib/httplib.h:5892-5958 | with a status of success, refused exactly for too many ranges, one that cannot be met or more than two overlaps, and otherwise left with ordered, coalesced ranges inside the representation covering exactly the bytes asked for; with any other status nothing changes, and the ranges are inside only if they were |
| RangeHeader.MakeRangeHeader | ns-3-dev/cpp-httplib/httplib.h:6518-6530 | the header value: ranges joined by comma and blank, an absent position left out |
| RangeHeader.ParseRangeHeader | ns-3-dev/cpp-httplib/httplib.h:5331-5380 | the ranges read up to the first bad item, and whether all of them, and at least one, were good |
| RangeHeader.HeaderIs | ns-3-dev/cpp-httplib/httplib.h:5331-5380 | a header is taken, with these ranges, exactly when it is the unit and a non-empty list of items, each two optional positions around a dash, at least one given, not reversed, none too large |
| RangeHeader.ItemRoundTrip | ns-3-dev/cpp-httplib/httplib.h:5344-5369 | one printed range is read back exactly when it is representable, gives a position and is not reversed |
| RangeHeader.RoundTrip | ns-3-dev/cpp-httplib/httplib.h:5331-5380 | a printed list is read back as itself when it is non-empty and every range qualifies; every other list is refused |
| RangeResponse.GetRangeOffsetAndLength | ns-3-dev/cpp-httplib/httplib.h:5960-5968 | offset and length of a normalised range stay inside the content |
| RangeResponse.MakeContentRange | ns-3-dev/cpp-httplib/httplib.h:5970-5982 | the Content-Range value of the range with that offset and length, and the complete length |
| RangeResponse.FieldReadsBack | ns-3-dev/cpp-httplib/httplib.h:5970-5982 | an independent reader of the field gives back exactly first position, last position and complete length, for every range inside |
| RangeResponse.MultipartReadsBack | ns-3-dev/cpp-httplib/httplib.h:5984-6035 | an independent reader of multipart/byteranges gives back, part by part, the type, the ranges asked for, the complete length and the bytes they name, whatever boundary and content |
| RangeResponse.ProcessMultipartRanges | ns-3-dev/cpp-httplib/httplib.h:5984-6019 | the calls on the three callbacks, in order, up to the first range outside the content, where an assertion fails |
| RangeResponse.FaultIff | ns-3-dev/cpp-httplib/httplib.h:5960-5968 | that assertion fails exactly when some range is not inside the content |
| RangeResponse.ScriptText | ns-3-dev/cpp-httplib/httplib.h:5984-6019 | those calls spell out the multipart/byteranges body: for each range its part with the bytes of the range, then the closing delimiter |
| RangeResponse.LengthIsLength | ns-3-dev/cpp-httplib/httplib.h:6037-6053 | counting the callbacks' bytes gives the length of what they spell |
| RangeResponse.MultipartLength | ns-3-dev/cpp-httplib/httplib.h:6037-6053 | the length computed is that of the multipart body of every representation of that size |
| RangeResponse.MultipartData | ns-3-dev/cpp-httplib/httplib.h:6021-6035 | the body built in memory is the multipart body |
| RangeResponse.ContentProvider.Provide | ns-3-dev/cpp-httplib/httplib.h:5021-5069 | a provider that makes progress and does not overshoot: the bytes written through the sink are those of the representation |
| RangeResponse.WriteContent | ns-3-dev/cpp-httplib/httplib.h:5021-5087 | on success, unless the server went down, exactly the asked-for bytes are out, however provider and stream cut them |
| RangeResponse.WriteMultipart | ns-3-dev/cpp-httplib/httplib.h:6055-6069 | for any ranges: a run the stream and the provider do not refuse meets the failing assertion exactly when some range is outside; done with whole token writes, exactly the multipart body is out |
| RangeResponse.ApplyRanges | ns-3-dev/cpp-httplib/httplib.h:7902-8008 | headers and body chosen for the ranges: content type, boundary, a Content-Range that reads back as the one range and the length of the representation, and a Content-Length that is the length of what is to be sent |
| RangeResponse.WriteContentWithProvider | ns-3-dev/cpp-httplib/httplib.h:7488-7511 | for any ranges, checked or not: unless refused, the assertion fails exactly when some range is outside; otherwise the whole, the one range, or the multipart body is sent, whatever the status |
| RangeResponse.WriteBody | ns-3-dev/cpp-httplib/httplib.h:7414-7482 | for every status: the Content-Length is that of what the status calls for; a body in memory is sent as such, a provider sends the selected ranges; the assertion fails exactly for a provider with a range outside |
| RangeResponse.LengthsAgree | ns-3-dev/cpp-httplib/httplib.h:7902-7939 | advertised and sent lengths agree exactly with status 206, without ranges, for one range that is everything, and for several whose multipart body happens to be as long as the representation |
| RangeResponse.WrongLength | ns-3-dev/cpp-httplib/httplib.h:7488-7511 | a request that fails: the first byte of two, with status 200 |
| RangeResponse.SuffixLeftRaw | ns-3-dev/cpp-httplib/httplib.h:7488-7511 | a Range header for the last bytes leaves, unless it is checked, a range on which the assertion fails for every length |
| RangeResponse.Respond | ns-3-dev/cpp-httplib/httplib.h:8181-8217 | a routed request: the assertion fails, unless the stream refuses, exactly for a provider, a status set by the handler that is not one of success, and a range outside; with the default status or 206, refused, or answered with a coalescing of the requested ranges and their exact length |
| Base64.Base64Encode | ns-3-dev/cpp-httplib/httplib.h:2736-2762 | for every accumulator keeping the low twelve bits, the output is the grouping of section 4 of RFC 4648 |
| Base64.ReadByte | ns-3-dev/cpp-httplib/httplib.h:2746-2753 | one byte: the characters released are those of its group, and the pending bits are the last ones read |
| Base64.WideEnough | ns-3-dev/cpp-httplib/httplib.h:2743-2747 | wrapping the accumulator to 32 bits, or not at all, keeps those bits |
| Base64.Encode32 | ns-3-dev/cpp-httplib/httplib.h:2736-2762 | the encoder as written, with a 32-bit accumulator, gives that grouping |
| Base64.EncodedLength | ns-3-dev/cpp-httplib/httplib.h:2736-2762 | four characters for every three bytes begun |
| Base64.DecodeEncode | ns-3-dev/cpp-httplib/httplib.h:2736-2762 | a strict decoder gives back every byte string from its encoding |
| Base64.EncodeDecode | ns-3-dev/cpp-httplib/httplib.h:2736-2762 | nothing but an encoding decodes: encoding what was decoded gives the text back |
| Query.ParamsToQueryStr | ns-3-dev/cpp-httplib/httplib.h:5257-5267 | the query text: key, equals sign and encoded value, joined by ampersands |
| Query.Divide | ns-3-dev/cpp-httplib/httplib.h:2922-2941 | the text before the first separator and the text behind it |
| Query.ParseQueryText | ns-3-dev/cpp-httplib/httplib.h:5269-5290 | pieces in order, repeated texts skipped, empty keys skipped, the rest decoded and inserted behind equal keys |
| Query.EntriesAre | ns-3-dev/cpp-httplib/httplib.h:5269-5290 | of any text: a key and a value are an entry exactly when they stand, encoded, around the first equals sign of a field between ampersands (or the key alone), and the key there is not empty |
| Query.EntryCount | ns-3-dev/cpp-httplib/httplib.h:5269-5290 | each distinct field with a key adds one entry, however often it stands there |
| Query.LessMeans | ns-3-dev/cpp-httplib/httplib.h:5269-5290 | the order of keys is the lexicographic one on bytes |
| Query.EmplaceOrdered | ns-3-dev/cpp-httplib/httplib.h:5286-5288 | insertion keeps the multimap in key order |
| Query.ParseOrdered | ns-3-dev/cpp-httplib/httplib.h:5269-5290 | parsing keeps the multimap in key order |
| Query.ReadBack | ns-3-dev/cpp-httplib/httplib.h:5257-5290 | parsing printed parameters gives them back without the repetitions the cache drops |
| Query.RoundTrip | ns-3-dev/cpp-httplib/httplib.h:5257-5290 | the multimap itself comes back, equal keys in order, exactly when every key is good and no entry occurs twice |
| Query.BadKeyLost | ns-3-dev/cpp-httplib/httplib.h:5257-5290 | one bad key among any others, and the multimap does not come back |
| Query.KeySurvives | ns-3-dev/cpp-httplib/httplib.h:5257-5290 | one parameter, any value: it comes back exactly when its key is non-empty, has no `&` or `=`, does not begin with a blank, and decodes to itself |
| Query.PlainKey | ns-3-dev/cpp-httplib/httplib.h:5257-5290 | keys without escapes, separators and surrounding blanks are of that kind |
| Route.Compile | ns-3-dev/cpp-httplib/httplib.h:6973-7020 | literal pieces and names of the pattern's only reading, or the exception for a name that occurs twice |
| Route.ShapeSpells | ns-3-dev/cpp-httplib/httplib.h:6985-7018 | reading a pattern into literals and names keeps all of it |
| Route.ShapeFindsAll | ns-3-dev/cpp-httplib/httplib.h:6988-7018 | in the reading of any pattern no literal piece contains a parameter's marker |
| Route.OnlyReading | ns-3-dev/cpp-httplib/httplib.h:6988-7018 | whatever splits a pattern into literals and slash-free names, joined at slashes, with no marker left in a literal, is that reading |
| Route.Match | ns-3-dev/cpp-httplib/httplib.h:7022-7063 | for a pattern without NUL and with distinct names: true exactly as the matching function says, with the captured values under their names |
| Route.MatchFragments | ns-3-dev/cpp-httplib/httplib.h:7022-7063 | the loop over fragments computes that function |
| Route.Compare | ns-3-dev/cpp-httplib/httplib.h:7030-7043 | `strncmp` against a fragment without NUL is equality at that place |
| Route.Sound | ns-3-dev/cpp-httplib/httplib.h:7022-7063 | a match exhibits slash-free values whose substitution in the pattern is the path |
| Route.Complete | ns-3-dev/cpp-httplib/httplib.h:7022-7063 | a path that is such a substitution is matched, with those values |
| Route.MatchesInstances | ns-3-dev/cpp-httplib/httplib.h:7022-7063 | for any reading of the pattern of that kind: accepted exactly when the path is it with slash-free values, up to one slash behind a final parameter; the values are unique |
| Route.CapturedAt | ns-3-dev/cpp-httplib/httplib.h:7050-7059 | each captured value is found under its own name |
| Route.CapturedOnly | ns-3-dev/cpp-httplib/httplib.h:7050-7059 | and nothing else is in the map |
| ThreadPool.Pool.Enqueue | ns-3-dev/cpp-httplib/httplib.h:879-890 | the locked part of enqueue: accepted exactly without a limit or below it, and then appended; otherwise nothing changes |
| ThreadPool.Pool.WorkerRound | ns-3-dev/cpp-httplib/httplib.h:911-928 | the locked part of a worker's round: oldest job, sleep, or exit |
| ThreadPool.Pool.Stop | ns-3-dev/cpp-httplib/httplib.h:892-897 | the locked part of shutdown |
| ThreadPool.NothingLostOrRepeated | ns-3-dev/cpp-httplib/httplib.h:866-948 | every interleaving: taken ++ queued == accepted in order, the limit holds, no job is finished more often than taken |
| ThreadPool.TurnedAwayAtLimit | ns-3-dev/cpp-httplib/httplib.h:879-890 | in every run a job is turned away exactly at the limit, and then nothing changes; any other is queued last and announced |
| ThreadPool.AllRunOnce | ns-3-dev/cpp-httplib/httplib.h:866-948 | with all workers gone, every job was run exactly as often as accepted, if and only if none was accepted after the last worker left |
| ThreadPool.NeverStuck | ns-3-dev/cpp-httplib/httplib.h:911-928 | no lost wake-up: while there is a job or a shutdown and a worker left, some worker or pending notification can move |
| ThreadPool.ShutdownProgress | ns-3-dev/cpp-httplib/httplib.h:892-928 | after shutdown every step of a worker or notification decreases a measure, so joining ends unless jobs keep coming |
| ClientSocket.ClientImpl.CloseSocket | ns-3-dev/cpp-httplib/httplib.h:8358-8388 | closing under its assertion |
| ClientSocket.ClientImpl.Enter | ns-3-dev/cpp-httplib/httplib.h:8436-8496 | the locked start of a request: a live socket kept, otherwise the one the system connects, and the request counted |
| ClientSocket.ClientImpl.Leave | ns-3-dev/cpp-httplib/httplib.h:8507-8522 | the locked end of a request |
| ClientSocket.ClientImpl.Stop | ns-3-dev/cpp-httplib/httplib.h:9920-9941 | stop: shut down and marked while requests are in flight, closed otherwise |
| ClientSocket.InvNext | ns-3-dev/cpp-httplib/httplib.h:8426-8533 | every step of every thread keeps: count in flight == active calls of the one thread holding the request mutex == recorded thread |
| ClientSocket.Discipline | ns-3-dev/cpp-httplib/httplib.h:8358-8388 | any number of threads, any interleaving with nested sends and stops: all assertions hold, and stop closes the socket exactly when it is not in use |
| ClientSocket.SocketOfEntry | ns-3-dev/cpp-httplib/httplib.h:8436-8496 | after any run: an entry that finds an open socket alive keeps it, whatever the system would connect; any other succeeds exactly if the system connects, and runs on what it connected |
| ClientSocket.OneSocket | ns-3-dev/cpp-httplib/httplib.h:8436-8533 | a run in which every entry finds the socket alive, every request succeeds and keeps the connection, and nobody closes it: all requests, nested and of all threads, use the first socket connected |
| ClientSocket.StopTakesEffect | ns-3-dev/cpp-httplib/httplib.h:9920-9941 | a stop during a request, with no later entry, has the socket closed when the count is back to zero |
| ClientSocket.StopForgotten | ns-3-dev/cpp-httplib/httplib.h:8437-8442 | from any state of the invariant with one request in flight: with a later nested entry the stop is lost, and the socket is open with nothing in flight |
| ClientSocket.StopForgottenInRun | ns-3-dev/cpp-httplib/httplib.h:8437-8442 | a run from the start, for any two threads, in which a stop meets a request in flight and is lost |
| ClientSocket.WhoStaysOpen | ns-3-dev/cpp-httplib/httplib.h:8507-8522 | at the end of a request an open socket stays open, and the same, exactly if the request succeeded, keeps the connection, and no stop came since the last entry |
| Rendezvous.CustomEnv.UpdateData | env.py:88-90 | state and reward are replaced together |
| Rendezvous.CustomEnv.StepUntilWait | env_DQN_Basic.py:177-191 | before its wait only the DQN step stores its action |
| Rendezvous.CustomEnv.StepAfterWait | env.py:107-119 | after its wait the PPO step stores its action, and the pair observed is the current one |
| Rendezvous.Safety | server.py:166-184 | every run, with any number of learners one after another: reports are consumed once, in order, at most one behind; the k-th response is the k-th action with PPO and the next one with DQN, behind a learner's last step possibly still its own |
| Rendezvous.NothingOverwritten | server.py:166-178 | when a request can be submitted, every earlier report has been consumed and answered, with DQN by the next action unless it was a learner's last |
| Rendezvous.StuckIff | server.py:166-184 | every run: nothing but a learner beginning can happen, and one request is left unanswered, exactly when a request was sent while nobody was learning |
| Rendezvous.NeverAnswered | server.py:414-416 | and a learner that begins then does not help: that request stays without an answer in every continuation |
| Rendezvous.NeverStuck | env_ISAC.py:109-121 | otherwise a side can move, also after a learner has quit or another has begun, and when only a request can come everything asked has been answered |
| Rendezvous.FirstRequestTooEarly | server.py:180-184 | a run with a request before the learner's first wait, after which both sides wait for ever |
| Rendezvous.RequestAfterQuit | env_DQN_ISAC.py:179-212 | whenever nobody is learning and a request can be sent, sending it and then beginning leaves both sides waiting for ever |
| Action.DecodeAction | env_DQN_Basic.py:86-127 | v and the digits of the index, most significant first, by the loop that produces them in reverse |
| Action.EncodeDecode | env_DQN_ISAC.py:88-129 | every index in range decodes to legal settings and encodes back |
| Action.DecodeEncode | env_DQN_Basic.py:86-127 | every legal setting is the decoding of its encoding, which is in range |
| Action.OrderPreserved | env_DQN_Basic.py:86-127 | a smaller index means lexicographically smaller settings |
| Action.GetAction | env_DQN_Basic.py:143-165 | the array is v, the first weights, the second weights, in spite of the swapped names |
| Action.TrainingResponse | server.py:613-627 | slicing that array gives the decoded settings |
| Action.PredictResponse | server.py:601-611 | and so does decoding directly: both responses agree for every index |
| Dependencies.Sorter.ModulesThatCanBeLoaded | ns-3-dev/bindings/python/ns__init__.py:443-454 | the pending modules all of whose dependencies are loaded, in order |
| Dependencies.Sorter.DependencyOrder | ns-3-dev/bindings/python/ns__init__.py:456-472 | the recursion on lists mutated in place adds the remaining layers, or meets an empty layer |
| Dependencies.EmptyLayerRepeats | ns-3-dev/bindings/python/ns__init__.py:463-472 | an empty layer leaves the lists as they were, so the call would repeat for ever |
| Dependencies.EndsIfAcyclic | ns-3-dev/bindings/python/ns__init__.py:456-472 | the recursion ends exactly when the map is closed under dependencies and has no cycle |
| Dependencies.Permutation | ns-3-dev/bindings/python/ns__init__.py:474-478 | the flattened result lists every module once, each after all its dependencies |
| Dependencies.LayerInOrder | ns-3-dev/bindings/python/ns__init__.py:443-454 | the modules of a layer stand in the order in which they were given |
| Dependencies.ChainBound | ns-3-dev/bindings/python/ns__init__.py:456-472 | no dependency chain from a module is longer than its layer |
| Dependencies.ChainExists | ns-3-dev/bindings/python/ns__init__.py:456-472 | and one is exactly as long |
| Welford.MeanStep | ns-3-dev/utils/bench-scheduler.cc:338-349 | the updated average is the arithmetic mean of the longer list |
| Welford.SpreadStep | ns-3-dev/utils/bench-scheduler.cc:338-349 | the updated second moment is its sum of squared deviations from that mean |
| Welford.Accumulate | ns-3-dev/utils/bench-scheduler.cc:338-349 | one field: the accumulators hold mean and squared deviations of the results so far, including the start from element 0 |
| Welford.Log | ns-3-dev/utils/bench-scheduler.cc:320-359 | all six fields after the loop, and nothing for fewer than two results |

## Left out

- Sockets, polling, DNS, timeouts, TLS and compression: abstract sources and sinks stand for them.
- Regular expressions: the disposition pattern is modelled as the prefix match it is; `RegexMatcher`, response lines and redirect URLs are not part of this model.
- `form_data.dfy` keeps the first value of a repeated disposition parameter, as a multimap lookup finds it; the order `std::multimap::find` promises among equal keys is taken from its implementations.
- The header fields of a part, and trailers, are lists in the order of their lines; the order of the multimap by name is not part of this model.
- RangeResponse.MultipartReadsBack: asks for a content type without a line end in it, which would end the type line of each part early.
- Upload progress callbacks are not part of this model.
- RangeResponse.WriteMultipart: speaks of runs in which the stream takes every token whole, because the code ignores the result of those writes; content writes may be short.
- FormSegmentation.Segmentation: asks for header lines under the limit and a content callback that accepts; `FormCuts.CutIndependence` shows that the limit is needed, and the callback is asked in pieces that depend on the cut.
- The Trailer header as a C string: a NUL byte in it, which the header parser refuses, would end it early.
- `is_shutting_down` in the chunked writer: the list of provider calls ends there.
- `std::sort` and the containers of the standard library: sorting is any arrangement in order, a multimap a key-ordered list.
- The NUL byte in route patterns: `strncmp` stops there, and `Route.Match` asks for patterns without it.
- Handlers after the route decision, HEAD requests, chunked responses and encodings in `apply_ranges`: only a body in memory or from a provider of known length is followed.
- RangeResponse.Respond: a handler that sets both a body and a content length is not part of this model, nor are error handlers that fill in a body for status 416.
- What a build without assertions does with a range outside the content: the model ends where the assertion fails.
- The threads' scheduling itself: fairness is not modelled, so `ThreadPool.NeverStuck` and `ThreadPool.ShutdownProgress` say that a step is possible and that steps run out, not when one is taken.
- TLS-specific closing in `ClientImpl`, and proxies: the socket discipline is that of the plain client.
- The learning algorithms, prediction, CSV logging, static tables, the disabled evaluation entry and the web layer of `server.py`; requests come one at a time, as the single event loop makes them.
- A new environment with its own condition, which `server.py` makes when the number of users changes: `Rendezvous` follows one environment, with any number of learners.
- Python's recursion limit: where `dependency_order` would recur for ever, the model says so instead of raising an exception.
- Rounding in the benchmark's averages: `Welford` is over the reals, and the square roots of the last lines are not taken.
- Accept headers, MIME tables, status messages, request overloads and setters: tables and thin wrappers.
