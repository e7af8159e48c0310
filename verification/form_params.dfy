/** What a disposition line means: which of its parameters count, however they are written. */
module FormParams {
  import opened Wrappers
  import opened Limits
  import opened Text
  import opened FormData
  import opened FormRoundTrip
  import Fields
  import Uri

  // ---- which field a parameter is taken from ----

  predicate Gives(field: string, key: string) { ParamOf(field).Some? && ParamOf(field).value.0 == key }

  /** The value in the first field with this key. */
  function FirstValue(fields: seq<string>, key: string): Option<string> {
    if fields == [] then None
    else if Gives(fields[0], key) then Some(ParamOf(fields[0]).value.1)
    else FirstValue(fields[1..], key)
  }

  /** Skipping fields seen before changes no parameter: the first field with a key gives its value. */
  lemma {:induction false} FirstCounts(fields: seq<string>, seen: set<string>, key: string)
    requires forall f | f in seen :: !Gives(f, key)
    ensures Lookup(ParamsOf(fields, seen), key) == FirstValue(fields, key)
    decreases |fields|
  {
    if fields != [] {
      if fields[0] in seen || !Gives(fields[0], key) { FirstCounts(fields[1..], seen + {fields[0]}, key); }
      OneField(fields, seen, key);
    }
  }

  lemma OneField(fields: seq<string>, seen: set<string>, key: string)
    requires fields != []
    ensures fields[0] !in seen && Gives(fields[0], key) ==>
              Lookup(ParamsOf(fields, seen), key) == Some(ParamOf(fields[0]).value.1)
    ensures fields[0] in seen || !Gives(fields[0], key) ==>
              Lookup(ParamsOf(fields, seen), key) == Lookup(ParamsOf(fields[1..], seen + {fields[0]}), key)
  {
    var rest := ParamsOf(fields[1..], seen + {fields[0]});
    var kv := ParamOf(fields[0]);
    if kv.Some? { assert ([kv.value] + rest)[1..] == rest; }
  }

  // ---- how a field is read ----

  /** Quotes around a text are taken off; other text stays as it is. */
  lemma QuotesOff(text: string)
    ensures TrimDoubleQuotes("\"" + text + "\"") == text
    ensures text == "" || text[0] != '"' || text[|text| - 1] != '"' ==> TrimDoubleQuotes(text) == text
  {
    Unquoted(text);
  }

  lemma PieceOf(s: string)
    ensures Trim(s) != "" ==> Piece(s) == [Trim(s)]
  {}

  lemma ParamOfPieces(field: string, first: string, between: seq<string>, last: string)
    requires Split(field, '=') == [first] + between + [last]
    ensures ParamOf(field) == Some((TrimDoubleQuotes(first), TrimDoubleQuotes(last)))
  {}

  /** Key and value of a field, trimmed and unquoted. */
  lemma ParamIs(key: string, val: string)
    requires '=' !in key && '=' !in val && Trim(key) != "" && Trim(val) != ""
    ensures ParamOf(key + ['='] + val) == Some((TrimDoubleQuotes(Trim(key)), TrimDoubleQuotes(Trim(val))))
  {
    SplitCons(key, '=', val);
    SplitSingle(val, '=');
    PieceOf(key);
    PieceOf(val);
    ParamOfPieces(key + ['='] + val, Trim(key), [], Trim(val));
  }

  /** Of several values the last counts. */
  lemma LastCounts(key: string, middle: string, val: string)
    requires '=' !in key && '=' !in val && Trim(key) != "" && Trim(val) != ""
    ensures ParamOf(key + ['='] + (middle + ['='] + val)) == Some((TrimDoubleQuotes(Trim(key)), TrimDoubleQuotes(Trim(val))))
  {
    SplitCons(key, '=', middle + ['='] + val);
    SplitSnoc(middle, '=', val);
    PieceOf(key);
    PieceOf(val);
    Associative([Trim(key)], Split(middle, '='), [Trim(val)]);
    ParamOfPieces(key + ['='] + (middle + ['='] + val), Trim(key), Split(middle, '='), Trim(val));
  }

  /** Without a value the value is empty; without a key there is no parameter. */
  lemma ParamBare(text: string)
    requires '=' !in text
    ensures ParamOf(text) == if Trim(text) == "" then None else Some((TrimDoubleQuotes(Trim(text)), ""))
  {
    SplitSingle(text, '=');
    assert TrimDoubleQuotes("") == "";
  }

  // ---- the start of the line ----

  predicate AllSpace(s: string) { forall i | 0 <= i < |s| :: IsRegexSpace(s[i]) }

  predicate SpaceFree(s: string) { s == "" || !IsRegexSpace(s[0]) }

  lemma {:induction false} SpaceSkipped(space: string, rest: string)
    requires AllSpace(space) && SpaceFree(rest)
    ensures SkipSpace(space + rest) == rest
  {
    if space == "" {
      assert space + rest == rest;
    } else {
      assert (space + rest)[1..] == space[1..] + rest;
      SpaceSkipped(space[1..], rest);
    }
  }

  lemma StartsAlike(a: string, b: string, rest: string)
    requires EqualIgnoreCase(a, b)
    ensures StartsWithIgnoreCase(a + rest, b) && (a + rest)[|b|..] == rest
  {
    assert |Lower(a)| == |Lower(b)|;
    forall i | 0 <= i < |b| ensures ToLower((a + rest)[i]) == ToLower(b[i]) { assert Lower(a)[i] == Lower(b)[i]; }
  }

  /** Field name and disposition type may be in any letter case, with any space behind them; the parameters are
      what follows. */
  lemma DispositionIs(name: string, space: string, form: string, more: string, params: string)
    requires EqualIgnoreCase(name, "Content-Disposition:") && EqualIgnoreCase(form, "form-data;")
    requires AllSpace(space) && AllSpace(more) && SpaceFree(params)
    ensures DispositionRest(name + (space + (form + (more + params)))) == Some(params)
  {
    var tail := form + (more + params);
    StartsAlike(name, "Content-Disposition:", space + tail);
    StartsAlike(form, "form-data;", more + params);
    assert |"Content-Disposition:"| == 20 && |"form-data;"| == 10;
    FormBegins(form, more + params);
    SpaceSkipped(space, tail);
    SpaceSkipped(more, params);
  }

  lemma FormBegins(form: string, rest: string)
    requires EqualIgnoreCase(form, "form-data;")
    ensures SpaceFree(form + rest)
  {
    assert |Lower(form)| == |Lower("form-data;")| == 10;
    assert ToLower(form[0]) == Lower(form)[0] == Lower("form-data;")[0] == 'f';
  }

  // ---- an extended file name ----

  /** `filename*` with the file name percent-encoded (section 3.2.1 of RFC 5987). */
  function StarField(filename: string): string
    requires IsBytes(filename)
  {
    "filename*" + ['='] + ("UTF-8''" + Uri.EncodeComponent(filename))
  }

  function StarParams(name: string, filename: string): string
    requires IsBytes(filename)
  {
    Quoted("name", name) + [';'] + (" " + StarField(filename))
  }

  function StarLine(name: string, filename: string): string
    requires IsBytes(filename)
  {
    DISPOSITION + ": " + (FORM + (" " + StarParams(name, filename)))
  }

  /** Bytes that neither blank, quote nor separate. */
  predicate Solid(s: string) { forall i | 0 <= i < |s| :: Uri.IsUnreserved(s[i]) || s[i] == '%' }

  lemma EncodedSolid(filename: string)
    requires IsBytes(filename) && filename != ""
    ensures var e := Uri.EncodeComponent(filename); e != "" && Solid(e)
  {
    Fields.EncodedIsValue(filename);
    Uri.EncodedAlphabet(filename);
    var e := Uri.EncodeComponent(filename);
    forall i | 0 <= i < |e| ensures Uri.IsUnreserved(e[i]) || e[i] == '%' { assert e[i] in e; }
  }

  /** The value of such a field. */
  predicate StarValue(value: string, coded: string) { value == "UTF-8''" + coded && coded != "" && Solid(coded) }

  lemma StarIsPlain(value: string, coded: string)
    requires StarValue(value, coded)
    ensures value != "" && Trimmed(value) && '=' !in value && ';' !in value && FieldChars(value)
    ensures value[0] == 'U' && Fields.IsFieldVchar(value[|value| - 1])
    ensures StartsWithIgnoreCase(value, "UTF-8''") && |value| > 7 && value[7..] == coded
  {
    assert |"UTF-8''"| == 7;
    assert forall i | 0 <= i < |coded| :: value[7 + i] == coded[i];
  }

  /** A field written without quotes. */
  lemma PlainField(key: string, value: string)
    requires Unquotable(key) && value != "" && Trimmed(value) && '=' !in value && value[0] != '"'
    ensures ParamOf(key + ['='] + value) == Some((key, value))
  {
    TrimOfTrimmed(key);
    TrimOfTrimmed(value);
    ParamIs(key, value);
    assert TrimDoubleQuotes(key) == key && TrimDoubleQuotes(value) == value;
  }

  lemma PlainPiece(field: string)
    requires field != "" && Trimmed(field) && ';' !in field
    ensures Split(" " + field, ';') == [field]
  {
    SplitSingle(" " + field, ';');
    TrimAfterBlank(field);
  }

  lemma FieldShape(key: string, value: string)
    requires Unquotable(key) && value != "" && Trimmed(value) && ';' !in value
    ensures var field := key + ['='] + value; field != "" && Trimmed(field) && ';' !in field
  {}

  /** The fields of a disposition with a quoted parameter and a plain one. */
  lemma TwoFields(key: string, value: string, key2: string, value2: string) returns (fields: seq<string>)
    requires Unquotable(key) && '=' !in value && ';' !in value
    requires Unquotable(key2) && value2 != "" && Trimmed(value2) && '=' !in value2 && ';' !in value2 && value2[0] != '"'
    ensures fields == Split(Quoted(key, value) + [';'] + (" " + (key2 + ['='] + value2)), ';') && |fields| == 2
    ensures ParamOf(fields[0]) == Some((key, value)) && ParamOf(fields[1]) == Some((key2, value2))
  {
    var q, field := Quoted(key, value), key2 + ['='] + value2;
    SplitQuoted(key, value);
    FieldShape(key2, value2);
    PlainPiece(field);
    SplitCons(q, ';', " " + field);
    ParamOfQuoted(key, value);
    PlainField(key2, value2);
    fields := [q, field];
  }

  lemma TwoValues(fields: seq<string>, kv: (string, string), kv2: (string, string), key: string)
    requires |fields| == 2 && ParamOf(fields[0]) == Some(kv) && ParamOf(fields[1]) == Some(kv2)
    ensures Lookup(ParamsOf(fields, {}), key) == if kv.0 == key then Some(kv.1) else if kv2.0 == key then Some(kv2.1) else None
  {
    FirstCounts(fields, {}, key);
    assert fields[1..][1..] == [];
    assert FirstValue(fields[1..], key) == if kv2.0 == key then Some(kv2.1) else None;
  }

  lemma StarKeys()
    ensures "name" != "filename" && "name" != "filename*" && "filename" != "filename*"
    ensures Unquotable("name") && Unquotable("filename*")
  {
    DistinctKeys();
  }

  lemma StarTaken(file: FormFile, name: string, value: string, coded: string, params: string)
    requires NameOk(name) && StarValue(value, coded)
    requires params == Quoted("name", name) + [';'] + (" " + ("filename*" + ['='] + value))
    ensures WithDisposition(file, params) == LineResult(true, file.(name := name, filename := Uri.DecodePath(coded, false)))
  {
    StarKeys();
    StarIsPlain(value, coded);
    var fields := TwoFields("name", name, "filename*", value);
    TwoValues(fields, ("name", name), ("filename*", value), "name");
    TwoValues(fields, ("name", name), ("filename*", value), "filename");
    TwoValues(fields, ("name", name), ("filename*", value), "filename*");
  }

  lemma StarChars(name: string, value: string, coded: string, params: string)
    requires NameOk(name) && StarValue(value, coded)
    requires params == Quoted("name", name) + [';'] + (" " + ("filename*" + ['='] + value))
    ensures FieldChars(params) && params != "" && params[0] == 'n' && Fields.IsFieldVchar(params[|params| - 1])
  {
    StarIsPlain(value, coded);
    var field := "filename*" + ['='] + value;
    assert FieldChars("filename*" + ['=']);
    FieldCharsAppend("filename*" + ['='], value);
    BlankChars(field);
    QuotedChars("name", name);
    FieldCharsAppend(Quoted("name", name), [';']);
    FieldCharsAppend(Quoted("name", name) + [';'], " " + field);
    assert params[|params| - 1] == value[|value| - 1];
  }

  /** Any file name, whatever bytes it is made of, can be sent in the extended form: it is read back, and it
      is the one that counts. */
  lemma ExtendedName(file: FormFile, name: string, filename: string) returns (field: Fields.Header)
    requires NameOk(name) && IsBytes(filename) && filename != ""
    ensures HeaderLine(file, StarLine(name, filename))
            == LineResult(true, FormFile(name, filename, file.contentType, file.headers + [field]))
  {
    var coded, params := Uri.EncodeComponent(filename), StarParams(name, filename);
    var value := "UTF-8''" + coded;
    EncodedSolid(filename);
    StarChars(name, value, coded, params);
    DispositionRestOf(params);
    DispositionAccepted(params);
    field := DispositionField(params);
    DispositionLineRead(file, StarLine(name, filename), field, params);
    StarTaken(file.(headers := file.headers + [field]), name, value, coded, params);
    Uri.DecodeEncode(filename, false);
  }
}
