/** Header lines: the token and field-value grammars of RFC 9110 section 5 as the code
    checks them, and `parse_header`. */
module Fields {
  import opened Wrappers
  import opened Text
  import Uri

  predicate IsTokenChar(c: char) {
    Uri.IsAlnum(c) || c in "!#$%&'*+-.^_`|~"
  }

  predicate IsToken(s: string) {
    s != "" && forall i | 0 <= i < |s| :: IsTokenChar(s[i])
  }

  /** Section 5.6.2 of RFC 9110: a visible ASCII character that is no delimiter. */
  lemma TokenCharIs(c: char)
    ensures IsTokenChar(c) <==> 33 <= c as int <= 126 && c !in "\"(),/:;<=>?@[\\]{}"
  {}

  /** A visible ASCII byte or a byte above 127. */
  predicate IsFieldVchar(c: char) {
    33 <= c as int <= 126 || 128 <= c as int
  }

  predicate IsFieldChar(c: char) { IsSpaceOrTab(c) || IsFieldVchar(c) }

  /** `is_field_content`; a two-byte value gets no special treatment beyond its ends. */
  predicate IsFieldValue(s: string) {
    s == "" || (IsFieldVchar(s[0]) && IsFieldVchar(s[|s| - 1]) && forall i | 0 <= i < |s| :: IsFieldChar(s[i]))
  }

  type Header = (string, string)

  function HeaderValue(key: string, val: string): string {
    if EqualIgnoreCase(key, "Location") || EqualIgnoreCase(key, "Referer") then val
    else Uri.DecodePath(val, false)
  }

  /** The name and the value as it stands in a header line, or None when the line is malformed. */
  function HeaderParts(line: string): Option<Header> {
    var body := TrimRight(line);
    var colon := IndexOf(body, ':');
    if colon == |body| || !IsToken(body[..colon]) then None
    else
      var val := body[LeftEdge(body, colon + 1)..];
      if IsFieldValue(val) then Some((body[..colon], val)) else None
  }

  /** The name and value a header line carries. */
  function ParseHeader(line: string): Option<Header> {
    match HeaderParts(line)
    case None => None
    case Some((key, val)) => Some((key, HeaderValue(key, val)))
  }

  method IsFieldName(s: string) returns (b: bool)
    ensures b == IsToken(s)
  {
    if s == "" { return false; }
    for i := 0 to |s|
      invariant forall j :: 0 <= j < i ==> IsTokenChar(s[j])
    {
      if !IsTokenChar(s[i]) { return false; }
    }
    b := true;
  }

  method IsFieldContent(s: string) returns (b: bool)
    ensures b == IsFieldValue(s)
  {
    if s == "" { return true; }
    if |s| == 1 { return IsFieldVchar(s[0]); }
    if |s| == 2 { return IsFieldVchar(s[0]) && IsFieldVchar(s[1]); }
    if !IsFieldVchar(s[0]) { return false; }
    var i := 1;
    while i < |s| - 1
      invariant 1 <= i <= |s| - 1
      invariant forall j :: 0 <= j < i ==> IsFieldChar(s[j])
    {
      var c := s[i];
      i := i + 1;
      if !(c == ' ' || c == '\t' || IsFieldVchar(c)) {
        assert !IsFieldChar(s[i - 1]);
        return false;
      }
    }
    b := IsFieldVchar(s[i]);
  }

  method SkipTrailing(line: string) returns (end: nat)
    ensures end == RightEdge(line, |line|)
  {
    end := |line|;
    while 0 < end && IsSpaceOrTab(line[end - 1])
      invariant 0 <= end <= |line|
      invariant RightEdge(line, end) == RightEdge(line, |line|)
    {
      end := end - 1;
    }
  }

  method SkipLeading(s: string, start: nat) returns (p: nat)
    requires start <= |s|
    ensures p == LeftEdge(s, start)
  {
    p := start;
    while p < |s| && IsSpaceOrTab(s[p])
      invariant start <= p <= |s|
      invariant LeftEdge(s, p) == LeftEdge(s, start)
    {
      p := p + 1;
    }
  }

  method FindColon(s: string) returns (p: nat)
    ensures p == IndexOf(s, ':')
  {
    p := 0;
    while p < |s| && s[p] != ':'
      invariant 0 <= p <= |s|
      invariant forall j :: 0 <= j < p ==> s[j] != ':'
    {
      p := p + 1;
    }
  }

  method ParseHeaderLine(line: string) returns (header: Option<Header>)
    ensures header == ParseHeader(line)
  {
    var end := SkipTrailing(line);
    var body := line[..end];
    var p := FindColon(body);
    var key := body[..p];
    var named := IsFieldName(key);
    if !named || p == end { return None; }
    p := SkipLeading(body, p + 1);
    var val := body[p..];
    var valid := IsFieldContent(val);
    if !valid { return None; }
    val := DecodeValue(key, val);
    header := Some((key, val));
  }

  /** The end of `parse_header`: two fields are left undecoded. */
  method DecodeValue(key: string, val: string) returns (v: string)
    ensures v == HeaderValue(key, val)
  {
    if EqualIgnoreCase(key, "Location") || EqualIgnoreCase(key, "Referer") { return val; }
    v := Uri.DecodePathText(val, false);
  }

  /** A line written as name, colon, blank, value is accepted exactly when name and value are legal. */
  lemma ParseWritten(key: string, val: string)
    requires ':' !in key && Trimmed(val) && val != ""
    ensures var line := key + ": " + val;
            ParseHeader(line) == if IsToken(key) && IsFieldValue(val) then Some((key, HeaderValue(key, val))) else None
  {
    var line := key + ": " + val;
    assert line[|line| - 1] == val[|val| - 1];
    assert TrimRight(line) == line;
    assert line == key + [':'] + (" " + val);
    IndexOfIs(key, ':', " " + val);
    assert line[..|key|] == key;
    assert line[|key| + 1] == ' ' && line[|key| + 2] == val[0];
    assert LeftEdge(line, |key| + 1) == |key| + 2;
    assert line[|key| + 2..] == val;
  }

  // ---- exactly which lines are header lines ----

  lemma BodyOf(key: string, gap: string, val: string, behind: string) returns (body: string)
    requires IsToken(key) && IsFieldValue(val) && AllBlank(gap) && AllBlank(behind)
    ensures body == TrimRight(key + [':'] + gap + val + behind)
    ensures body == key + [':'] + (if val == "" then "" else gap + val)
  {
    var line := key + [':'] + gap + val + behind;
    var r := if val == "" then |key| + 1 else |key| + 1 + |gap| + |val|;
    assert forall k | |key| + 1 + |gap| + |val| <= k < |line| :: line[k] == behind[k - |key| - 1 - |gap| - |val|];
    assert forall k | |key| + 1 <= k < |key| + 1 + |gap| :: line[k] == gap[k - |key| - 1];
    assert line[|key|] == ':' && (val != "" ==> line[r - 1] == val[|val| - 1]);
    RightEdgeIs(line, |line|, r);
    body := line[..r];
  }

  lemma TokenNoColon(key: string)
    requires IsToken(key)
    ensures ':' !in key
  {
    assert !IsTokenChar(':');
  }

  lemma ValueBegins(a: string, gap: string, val: string)
    requires AllBlank(gap) && val != "" && IsFieldVchar(val[0])
    ensures LeftEdge(a + (gap + val), |a|) == |a| + |gap| && (a + (gap + val))[|a| + |gap|..] == val
  {
    var body, l, t := a + (gap + val), |a| + |gap|, gap + val;
    forall k | |a| <= k < l ensures IsSpaceOrTab(body[k]) { assert body[k] == t[k - |a|] == gap[k - |a|]; }
    assert body[l] == t[|gap|] == val[0];
    assert body[l..] == t[|gap|..] == val;
    LeftEdgeIs(body, |a|, l);
  }

  /** Name, colon, blanks, value, blanks: whatever the blanks, name and value are read. */
  lemma PartsWritten(key: string, gap: string, val: string, behind: string)
    requires IsToken(key) && IsFieldValue(val) && AllBlank(gap) && AllBlank(behind)
    ensures HeaderParts(key + [':'] + gap + val + behind) == Some((key, val))
  {
    var body := BodyOf(key, gap, val, behind);
    TokenNoColon(key);
    IndexOfIs(key, ':', if val == "" then "" else gap + val);
    assert body[..|key|] == key;
    if val != "" {
      ValueBegins(key + [':'], gap, val);
    } else {
      assert |body| == |key| + 1 && body[LeftEdge(body, |key| + 1)..] == "";
    }
  }

  /** The parts of an accepted header line. */
  lemma PartsCut(line: string) returns (gap: string, behind: string)
    requires HeaderParts(line).Some?
    ensures var (key, val) := HeaderParts(line).value;
            line == key + [':'] + gap + val + behind && IsToken(key) && IsFieldValue(val) && AllBlank(gap) && AllBlank(behind)
  {
    var body := TrimRight(line);
    var colon := IndexOf(body, ':');
    gap := CutBody(body, colon);
    behind := BehindBody(line);
  }

  lemma CutBody(body: string, colon: nat) returns (gap: string)
    requires colon == IndexOf(body, ':') < |body|
    ensures body == body[..colon] + [':'] + gap + body[LeftEdge(body, colon + 1)..] && AllBlank(gap)
  {
    gap := body[colon + 1..LeftEdge(body, colon + 1)];
  }

  lemma BehindBody(line: string) returns (behind: string)
    ensures line == TrimRight(line) + behind && AllBlank(behind)
  {
    var r := RightEdge(line, |line|);
    behind := line[r..];
    assert line == line[..r] + line[r..];
  }

  /** A header line is a token, a colon and a legal field value, with blanks allowed on both sides of the
      value and nowhere else; these are its name and its value. */
  lemma HeaderLineIs(line: string, key: string, val: string)
    ensures HeaderParts(line) == Some((key, val)) <==>
              exists gap, behind ::
                line == key + [':'] + gap + val + behind && IsToken(key) && IsFieldValue(val) && AllBlank(gap) && AllBlank(behind)
  {
    if HeaderParts(line) == Some((key, val)) { var gap, behind := PartsCut(line); }
    forall gap, behind |
      line == key + [':'] + gap + val + behind && IsToken(key) && IsFieldValue(val) && AllBlank(gap) && AllBlank(behind)
      ensures HeaderParts(line) == Some((key, val))
    {
      PartsWritten(key, gap, val, behind);
    }
  }

  // ---- which values are decoded ----

  /** The two fields whose values are left as they stand. */
  predicate IsLink(key: string) { EqualIgnoreCase(key, "Location") || EqualIgnoreCase(key, "Referer") }

  lemma {:induction false} EncodedLonger(v: string)
    requires IsBytes(v)
    ensures |Uri.EncodeComponent(v)| >= |v|
  {
    if v != "" { EncodedLonger(v[1..]); }
  }

  lemma EncodedIsValue(v: string)
    requires IsBytes(v) && v != ""
    ensures var e := Uri.EncodeComponent(v); e != "" && IsFieldValue(e) && Trimmed(e)
  {
    var e := Uri.EncodeComponent(v);
    EncodedLonger(v);
    Uri.EncodedAlphabet(v);
    forall i | 0 <= i < |e| ensures IsFieldVchar(e[i]) { assert e[i] in e; }
  }

  /** A percent-encoded value comes back decoded, but for a link, which comes back as it was sent. */
  lemma EncodedValue(key: string, v: string)
    requires IsToken(key) && IsBytes(v) && v != ""
    ensures ParseHeader(key + ": " + Uri.EncodeComponent(v)) == Some((key, if IsLink(key) then Uri.EncodeComponent(v) else v))
  {
    TokenNoColon(key);
    EncodedIsValue(v);
    ParseWritten(key, Uri.EncodeComponent(v));
    Uri.DecodeEncode(v, false);
  }
}
