/** Query text: `params_to_query_str`, `divide` and `parse_query_text`. */
module Query {
  import opened Text
  import opened Uri

  type Param = (string, string)

  // ---- the multimap ----

  /** Byte-wise order of `std::string`. */
  predicate Less(a: string, b: string) {
    b != "" && (a == "" || a[0] < b[0] || (a[0] == b[0] && Less(a[1..], b[1..])))
  }

  /** One text is before another when it is a proper beginning of it, or smaller where they first differ. */
  lemma {:induction false} LessMeans(a: string, b: string)
    ensures Less(a, b) <==> a < b || exists k: nat :: k < |a| && k < |b| && a[..k] == b[..k] && a[k] < b[k]
    decreases |a|
  {
    if a != "" && b != "" && a[0] == b[0] {
      LessMeans(a[1..], b[1..]);
      LessShift(a, b);
    } else if a != "" && b != "" {
      assert a[..0] == b[..0];
      forall k: nat | 0 < k < |a| && k < |b| ensures a[..k] != b[..k] { assert a[..k][0] != b[..k][0]; }
    }
  }

  lemma LessShift(a: string, b: string)
    requires a != "" && b != "" && a[0] == b[0]
    ensures a < b <==> a[1..] < b[1..]
    ensures (exists k: nat :: k < |a| && k < |b| && a[..k] == b[..k] && a[k] < b[k]) <==>
            (exists k: nat :: k < |a[1..]| && k < |b[1..]| && a[1..][..k] == b[1..][..k] && a[1..][k] < b[1..][k])
  {
    var c, d := a[1..], b[1..];
    assert a == [a[0]] + c && b == [b[0]] + d;
    forall k: nat | k < |c| && k < |d| ensures c[..k] == d[..k] <==> a[..k + 1] == b[..k + 1] {
      assert a[..k + 1] == [a[0]] + c[..k] && b[..k + 1] == [b[0]] + d[..k];
      assert a[..k + 1][1..] == c[..k] && b[..k + 1][1..] == d[..k];
    }
    if k: nat :| k < |a| && k < |b| && a[..k] == b[..k] && a[k] < b[k] {
      assert c[..k - 1] == d[..k - 1] && c[k - 1] < d[k - 1];
    }
    if k: nat :| k < |c| && k < |d| && c[..k] == d[..k] && c[k] < d[k] {
      assert a[..k + 1] == b[..k + 1] && a[k + 1] < b[k + 1];
    }
  }

  /** A multimap is a list in key order, equal keys in the order they were inserted. */
  predicate Ordered(ps: seq<Param>) { forall i, j | 0 <= i < j < |ps| :: !Less(ps[j].0, ps[i].0) }

  /** `emplace`: behind every entry whose key is not greater. */
  function Emplace(ps: seq<Param>, p: Param): seq<Param> {
    if ps != [] && Less(p.0, ps[|ps| - 1].0) then Emplace(ps[..|ps| - 1], p) + [ps[|ps| - 1]] else ps + [p]
  }

  lemma {:induction false} NotLessTrans(a: string, b: string, c: string)
    requires !Less(b, a) && !Less(c, b)
    ensures !Less(c, a)
  {
    if a != "" && b != "" && c != "" && a[0] == b[0] == c[0] { NotLessTrans(a[1..], b[1..], c[1..]); }
  }

  lemma {:induction false} LessAsym(a: string, b: string)
    requires Less(a, b)
    ensures !Less(b, a)
  {
    if a != "" && a[0] == b[0] { LessAsym(a[1..], b[1..]); }
  }

  lemma {:induction false} EmplaceKeeps(ps: seq<Param>, p: Param, q: Param)
    ensures q in Emplace(ps, p) <==> q == p || q in ps
    ensures |Emplace(ps, p)| == |ps| + 1
  {
    if ps != [] && Less(p.0, ps[|ps| - 1].0) {
      EmplaceKeeps(ps[..|ps| - 1], p, q);
      assert ps == ps[..|ps| - 1] + [ps[|ps| - 1]];
    }
  }

  lemma AppendOrdered(ps: seq<Param>, p: Param)
    requires Ordered(ps) && forall q | q in ps :: !Less(p.0, q.0)
    ensures Ordered(ps + [p])
  {}

  /** Insertion keeps a multimap in key order. */
  lemma {:induction false} EmplaceOrdered(ps: seq<Param>, p: Param)
    requires Ordered(ps)
    ensures Ordered(Emplace(ps, p))
  {
    if ps == [] {
    } else {
      var n := |ps| - 1;
      if Less(p.0, ps[n].0) {
        EmplaceOrdered(ps[..n], p);
        LessAsym(p.0, ps[n].0);
        forall q | q in Emplace(ps[..n], p) ensures !Less(ps[n].0, q.0) { EmplaceKeeps(ps[..n], p, q); }
        AppendOrdered(Emplace(ps[..n], p), ps[n]);
      } else {
        forall q | q in ps ensures !Less(p.0, q.0) {
          var i :| 0 <= i < |ps| && ps[i] == q;
          if i < n { NotLessTrans(q.0, ps[n].0, p.0); }
        }
        AppendOrdered(ps, p);
      }
    }
  }

  // ---- printing ----

  predicate Encodable(ps: seq<Param>) { forall i | 0 <= i < |ps| :: IsBytes(ps[i].1) }

  function PairText(p: Param): string
    requires IsBytes(p.1)
  {
    p.0 + (['='] + EncodeComponent(p.1))
  }

  /** The parameters from the `i`th on, each but the first behind an ampersand. */
  function TextFrom(ps: seq<Param>, i: nat): string
    requires Encodable(ps) && i <= |ps|
    decreases |ps| - i, 1
  {
    if i == |ps| then "" else if i == 0 then Onward(ps, 0) else ['&'] + Onward(ps, i)
  }

  function Onward(ps: seq<Param>, i: nat): string
    requires Encodable(ps) && i < |ps|
    decreases |ps| - i, 0
  {
    PairText(ps[i]) + TextFrom(ps, i + 1)
  }

  function QueryText(ps: seq<Param>): string
    requires Encodable(ps)
  {
    TextFrom(ps, 0)
  }

  method ParamsToQueryStr(params: seq<Param>) returns (query: string)
    requires Encodable(params)
    ensures query == QueryText(params)
  {
    query := "";
    for i := 0 to |params|
      invariant query + TextFrom(params, i) == QueryText(params)
    {
      query := AddPair(query, params, i);
    }
  }

  method AddPair(query: string, params: seq<Param>, i: nat) returns (longer: string)
    requires Encodable(params) && i < |params|
    ensures longer + TextFrom(params, i + 1) == query + TextFrom(params, i)
  {
    ghost var amp: string := if i == 0 then "" else ['&'];
    longer := query;
    if i != 0 { longer := longer + "&"; }
    assert longer == query + amp;
    longer := longer + params[i].0;
    longer := longer + "=";
    var value := EncodeUriComponent(params[i].1);
    longer := longer + value;
    Regroup(query, amp, params[i].0, ['='], value, TextFrom(params, i + 1));
    if i == 0 { NothingBefore(Onward(params, 0)); }
  }

  lemma Regroup(a: string, b: string, c: string, d: string, e: string, f: string)
    ensures a + b + c + d + e + f == a + (b + ((c + (d + e)) + f))
  {}

  // ---- parsing ----

  function KeyPart(kv: string): string { kv[..IndexOf(kv, '=')] }

  function ValuePart(kv: string): string {
    if IndexOf(kv, '=') == |kv| then "" else kv[IndexOf(kv, '=') + 1..]
  }

  /** `divide`: what is before the first separator and what is behind it. */
  method Divide(data: string, d: char) returns (lhs: string, rhs: string)
    ensures IndexOf(data, d) == |lhs| && d !in lhs
    ensures data == lhs + (if |lhs| < |data| then [d] + rhs else rhs)
  {
    var i := 0;
    while i < |data| && data[i] != d
      invariant 0 <= i <= |data| && d !in data[..i]
    {
      i := i + 1;
    }
    var found := if i < |data| then 1 else 0;
    lhs, rhs := data[..i], data[i + found..];
    IndexOfIs(lhs, d, rhs);
    assert data == data[..i] + data[i..];
    assert i < |data| ==> data[i..] == [d] + rhs && data == lhs + [d] + rhs;
  }

  function Entry(kv: string): Param { (DecodePath(KeyPart(kv), true), DecodePath(ValuePart(kv), true)) }

  /** The multimap after the pieces have been taken in order, those met before left out. */
  function ParsePieces(pieces: seq<string>, cache: set<string>, params: seq<Param>): seq<Param> {
    if pieces == [] then params
    else if pieces[0] in cache then ParsePieces(pieces[1..], cache, params)
    else
      ParsePieces(pieces[1..], cache + {pieces[0]},
                  if KeyPart(pieces[0]) == "" then params else Emplace(params, Entry(pieces[0])))
  }

  function Parse(s: string, params: seq<Param>): seq<Param> { ParsePieces(Split(s, '&'), {}, params) }

  method ParseQueryText(s: string, params0: seq<Param>) returns (params: seq<Param>)
    ensures params == Parse(s, params0)
  {
    params := params0;
    var cache: set<string> := {};
    var pieces := SplitFields(s, '&');
    assert pieces[0..] == pieces;
    for i := 0 to |pieces|
      invariant ParsePieces(pieces[i..], cache, params) == ParsePieces(pieces, {}, params0)
    {
      assert pieces[i..][0] == pieces[i] && pieces[i..][1..] == pieces[i + 1..];
      var kv := pieces[i];
      if kv !in cache {
        cache := cache + {kv};
        var key, val := Divide(kv, '=');
        PartsAre(kv, key, val);
        if key != "" {
          var k := DecodePathText(key, true);
          var v := DecodePathText(val, true);
          params := Emplace(params, (k, v));
        }
      }
    }
  }

  lemma PartsAre(kv: string, key: string, val: string)
    requires IndexOf(kv, '=') == |key|
    requires kv == key + (if |key| < |kv| then ['='] + val else val)
    ensures KeyPart(kv) == key && ValuePart(kv) == val
  {}

  /** Parsing keeps a multimap in key order. */
  lemma {:induction false} ParseOrdered(pieces: seq<string>, cache: set<string>, params: seq<Param>)
    requires Ordered(params)
    ensures Ordered(ParsePieces(pieces, cache, params))
  {
    if pieces != [] {
      if pieces[0] in cache {
        ParseOrdered(pieces[1..], cache, params);
      } else {
        EmplaceOrdered(params, Entry(pieces[0]));
        ParseOrdered(pieces[1..], cache + {pieces[0]},
                     if KeyPart(pieces[0]) == "" then params else Emplace(params, Entry(pieces[0])));
      }
    }
  }

  // ---- what any text is read as ----

  /** Key and value as they stand in a field: around its first equals sign, or all of it and nothing. */
  predicate Stands(field: string, key: string, val: string) {
    '=' !in key && (field == key + ['='] + val || (field == key && val == ""))
  }

  lemma StandsIs(field: string, key: string, val: string)
    ensures Stands(field, key, val) <==> KeyPart(field) == key && ValuePart(field) == val
  {
    var k := IndexOf(field, '=');
    if Stands(field, key, val) { IndexOfIs(key, '=', val); }
    if k < |field| { assert field == field[..k] + ['='] + field[k + 1..]; }
  }

  /** The entry is written in one of these fields, under a key. */
  ghost predicate Written(fields: seq<string>, p: Param) {
    exists f :: f in fields && KeyPart(f) != "" && p == Entry(f)
  }

  lemma WrittenNext(pieces: seq<string>, p: Param)
    requires pieces != []
    ensures Written(pieces, p) <==> (KeyPart(pieces[0]) != "" && p == Entry(pieces[0])) || Written(pieces[1..], p)
  {
    assert pieces == [pieces[0]] + pieces[1..];
    assert pieces[0] in pieces;
  }

  lemma {:induction false} PiecesEntries(pieces: seq<string>, cache: set<string>, params: seq<Param>, p: Param)
    requires forall f | f in cache && KeyPart(f) != "" :: Entry(f) in params
    ensures p in ParsePieces(pieces, cache, params) <==> p in params || Written(pieces, p)
    decreases |pieces|
  {
    if pieces != [] {
      WrittenNext(pieces, p);
      var f, rest := pieces[0], pieces[1..];
      if f in cache {
        PiecesEntries(rest, cache, params, p);
      } else {
        var next := if KeyPart(f) == "" then params else Emplace(params, Entry(f));
        forall q ensures KeyPart(f) != "" ==> (q in next <==> q == Entry(f) || q in params) { EmplaceKeeps(params, Entry(f), q); }
        PiecesEntries(rest, cache + {f}, next, p);
      }
    }
  }

  /** What a text is read as: a key and a value, both decoded, are an entry exactly if they stand in a field between
      ampersands, and the key is not empty. */
  ghost predicate ReadsAs(s: string, p: Param) {
    exists f, key, val :: IsField(s, '&', f) && Stands(f, key, val) && key != "" && p == (DecodePath(key, true), DecodePath(val, true))
  }

  lemma EntriesAre(s: string, p: Param)
    ensures p in Parse(s, []) <==> ReadsAs(s, p)
  {
    PiecesEntries(Split(s, '&'), {}, [], p);
    if Written(Split(s, '&'), p) {
      var f :| f in Split(s, '&') && KeyPart(f) != "" && p == Entry(f);
      SplitIsFields(s, '&', f);
      StandsIs(f, KeyPart(f), ValuePart(f));
    }
    if ReadsAs(s, p) {
      var f, key, val :| IsField(s, '&', f) && Stands(f, key, val) && key != "" && p == (DecodePath(key, true), DecodePath(val, true));
      SplitIsFields(s, '&', f);
      StandsIs(f, key, val);
    }
  }

  /** The fields with a key that were not met before. */
  function Fresh(pieces: seq<string>, cache: set<string>): set<string> {
    set f | f in pieces && f !in cache && KeyPart(f) != ""
  }

  /** Each of them adds one entry, however often it stands there. */
  lemma {:induction false} EntryCount(pieces: seq<string>, cache: set<string>, params: seq<Param>)
    ensures |ParsePieces(pieces, cache, params)| == |params| + |Fresh(pieces, cache)|
    decreases |pieces|
  {
    if pieces == [] {
      assert Fresh(pieces, cache) == {};
    } else {
      var f, rest := pieces[0], pieces[1..];
      assert pieces == [f] + rest;
      if f in cache {
        EntryCount(rest, cache, params);
        assert Fresh(pieces, cache) == Fresh(rest, cache);
      } else {
        EmplaceKeeps(params, Entry(f), Entry(f));
        EntryCount(rest, cache + {f}, if KeyPart(f) == "" then params else Emplace(params, Entry(f)));
        FreshNext(pieces, cache);
      }
    }
  }

  lemma FreshNext(pieces: seq<string>, cache: set<string>)
    requires pieces != [] && pieces[0] !in cache
    ensures |Fresh(pieces, cache)| == |Fresh(pieces[1..], cache + {pieces[0]})| + if KeyPart(pieces[0]) == "" then 0 else 1
  {
    var f, rest := pieces[0], Fresh(pieces[1..], cache + {pieces[0]});
    assert pieces == [f] + pieces[1..];
    assert Fresh(pieces, cache) == rest + if KeyPart(f) == "" then {} else {f};
  }

  // ---- the round trip ----

  /** Keys are printed as they are, so they must read back as they are. */
  predicate GoodKey(key: string) {
    && key != "" && '&' !in key && '=' !in key && !IsSpaceOrTab(key[0])
    && DecodePath(key, true) == key
  }

  /** In particular those without escapes, separators and surrounding blanks. */
  lemma PlainKey(key: string)
    requires key != "" && Trimmed(key) && '&' !in key && '=' !in key && '%' !in key && '+' !in key
    ensures GoodKey(key)
  {
    DecodePlain(key, true);
  }

  predicate Good(p: Param) { GoodKey(p.0) && IsBytes(p.1) }

  predicate AllGood(ps: seq<Param>) { forall i | 0 <= i < |ps| :: Good(ps[i]) }

  /** The entries in order, each kept where it first occurs. */
  function Dedup(ps: seq<Param>): seq<Param> {
    if ps == [] then []
    else
      var n := |ps| - 1;
      if ps[n] in ps[..n] then Dedup(ps[..n]) else Dedup(ps[..n]) + [ps[n]]
  }

  predicate Distinct(ps: seq<Param>) { forall i, j | 0 <= i < j < |ps| :: ps[i] != ps[j] }

  lemma EncodedClean(v: string)
    requires IsBytes(v)
    ensures '&' !in EncodeComponent(v)
    ensures EncodeComponent(v) != "" ==> !IsSpaceOrTab(EncodeComponent(v)[|EncodeComponent(v)| - 1])
  {
    EncodedAlphabet(v);
  }

  lemma PairClean(p: Param)
    requires Good(p)
    ensures '&' !in PairText(p) && PairText(p) != "" && Trimmed(PairText(p))
  {
    var e := EncodeComponent(p.1);
    EncodedClean(p.1);
    CleanJoin(p.0, e);
  }

  lemma CleanJoin(key: string, e: string)
    requires key != "" && '&' !in key && !IsSpaceOrTab(key[0])
    requires '&' !in e && (e != "" ==> !IsSpaceOrTab(e[|e| - 1]))
    ensures '&' !in key + (['='] + e) && Trimmed(key + (['='] + e))
  {}

  lemma PairParts(key: string, e: string)
    requires '=' !in key
    ensures KeyPart(key + (['='] + e)) == key && ValuePart(key + (['='] + e)) == e
  {
    IndexOfIs(key, '=', e);
    Associative(key, ['='], e);
  }

  lemma PairReadBack(p: Param)
    requires Good(p)
    ensures KeyPart(PairText(p)) == p.0 && Entry(PairText(p)) == p
  {
    PairParts(p.0, EncodeComponent(p.1));
    DecodeEncode(p.1, true);
  }

  function Texts(ps: seq<Param>, i: nat): seq<string>
    requires Encodable(ps) && i <= |ps|
    decreases |ps| - i
  {
    if i == |ps| then [] else [PairText(ps[i])] + Texts(ps, i + 1)
  }

  lemma SplitLast(head: string)
    requires '&' !in head && head != "" && Trimmed(head)
    ensures Split(head + "", '&') == [head]
  {
    TrimOfTrimmed(head);
    assert head + "" == head;
    SplitSingle(head, '&');
  }

  lemma SplitMore(head: string, later: string)
    requires '&' !in head && head != "" && Trimmed(head)
    ensures Split(head + (['&'] + later), '&') == [head] + Split(later, '&')
  {
    TrimOfTrimmed(head);
    SplitCons(head, '&', later);
    Associative(head, ['&'], later);
  }

  /** Splitting at ampersands finds the printed parameters again. */
  lemma {:induction false} SplitTexts(ps: seq<Param>, i: nat)
    requires AllGood(ps) && i < |ps|
    ensures Split(Onward(ps, i), '&') == Texts(ps, i)
    decreases |ps| - i
  {
    PairClean(ps[i]);
    if i + 1 == |ps| {
      SplitLast(PairText(ps[i]));
    } else {
      SplitTexts(ps, i + 1);
      SplitMore(PairText(ps[i]), Onward(ps, i + 1));
    }
  }

  lemma NothingBefore(s: string)
    ensures "" + s == s
  {}

  lemma SplitQuery(ps: seq<Param>)
    requires AllGood(ps)
    ensures Split(QueryText(ps), '&') == Texts(ps, 0)
  {
    if ps == [] {
      SplitSingle("", '&');
    } else {
      SplitTexts(ps, 0);
    }
  }

  function Seen(ps: seq<Param>, i: nat): set<string>
    requires Encodable(ps) && i <= |ps|
  {
    if i == 0 then {} else Seen(ps, i - 1) + {PairText(ps[i - 1])}
  }

  lemma SameText(p: Param, q: Param)
    requires Good(p) && Good(q)
    ensures PairText(p) == PairText(q) <==> p == q
  {
    PairReadBack(p);
    PairReadBack(q);
  }

  lemma PrefixMember(ps: seq<Param>, i: nat, p: Param)
    requires 0 < i <= |ps|
    ensures p in ps[..i] <==> p in ps[..i - 1] || p == ps[i - 1]
  {
    assert ps[..i] == ps[..i - 1] + [ps[i - 1]];
  }

  /** The cache holds a text exactly when its parameter came before. */
  lemma {:induction false} SeenIs(ps: seq<Param>, i: nat, p: Param)
    requires AllGood(ps) && i <= |ps| && Good(p)
    ensures PairText(p) in Seen(ps, i) <==> p in ps[..i]
  {
    if i > 0 {
      SeenIs(ps, i - 1, p);
      SameText(p, ps[i - 1]);
      PrefixMember(ps, i, p);
    }
  }

  lemma {:induction false} DedupIn(ps: seq<Param>, p: Param)
    ensures p in Dedup(ps) <==> p in ps
  {
    if ps != [] {
      var n := |ps| - 1;
      DedupIn(ps[..n], p);
      assert ps == ps[..n] + [ps[n]];
    }
  }

  lemma LastStays(ps: seq<Param>, i: nat)
    requires Ordered(ps) && i < |ps|
    ensures Emplace(Dedup(ps[..i]), ps[i]) == Dedup(ps[..i]) + [ps[i]]
  {
    var d := Dedup(ps[..i]);
    if d != [] {
      DedupIn(ps[..i], d[|d| - 1]);
      var k :| 0 <= k < i && ps[..i][k] == d[|d| - 1];
      assert ps[k] == d[|d| - 1];
    }
  }

  lemma TakeText(text: string, p: Param, texts: seq<string>, seen: set<string>, d: seq<Param>, d1: seq<Param>)
    requires KeyPart(text) != "" && Entry(text) == p
    requires d1 == if text in seen then d else Emplace(d, p)
    ensures ParsePieces([text] + texts, seen, d) == ParsePieces(texts, seen + {text}, d1)
  {
    assert ([text] + texts)[1..] == texts;
    assert text in seen ==> seen + {text} == seen;
  }

  lemma DedupStep(ps: seq<Param>, i: nat)
    requires i < |ps|
    ensures Dedup(ps[..i + 1]) == if ps[i] in ps[..i] then Dedup(ps[..i]) else Dedup(ps[..i]) + [ps[i]]
  {
    assert ps[..i + 1][..i] == ps[..i];
  }

  lemma NextDedup(ps: seq<Param>, i: nat)
    requires AllGood(ps) && Ordered(ps) && i < |ps|
    ensures Dedup(ps[..i + 1]) == if PairText(ps[i]) in Seen(ps, i) then Dedup(ps[..i]) else Emplace(Dedup(ps[..i]), ps[i])
  {
    SeenIs(ps, i, ps[i]);
    DedupStep(ps, i);
    LastStays(ps, i);
  }

  lemma TakeParam(ps: seq<Param>, i: nat)
    requires AllGood(ps) && Ordered(ps) && i < |ps|
    ensures ParsePieces(Texts(ps, i), Seen(ps, i), Dedup(ps[..i]))
         == ParsePieces(Texts(ps, i + 1), Seen(ps, i + 1), Dedup(ps[..i + 1]))
  {
    NextDedup(ps, i);
    PairReadBack(ps[i]);
    TakeText(PairText(ps[i]), ps[i], Texts(ps, i + 1), Seen(ps, i), Dedup(ps[..i]), Dedup(ps[..i + 1]));
  }

  lemma {:induction false} PiecesReadBack(ps: seq<Param>, i: nat)
    requires AllGood(ps) && Ordered(ps) && i <= |ps|
    ensures ParsePieces(Texts(ps, i), Seen(ps, i), Dedup(ps[..i])) == Dedup(ps)
    decreases |ps| - i
  {
    if i == |ps| {
      assert ps[..i] == ps;
    } else {
      TakeParam(ps, i);
      PiecesReadBack(ps, i + 1);
    }
  }

  /** Parsing the printed text of a multimap gives it back, without the repetitions the cache drops. */
  lemma ReadBack(ps: seq<Param>)
    requires AllGood(ps) && Ordered(ps)
    ensures Parse(QueryText(ps), []) == Dedup(ps)
  {
    SplitQuery(ps);
    PiecesReadBack(ps, 0);
    assert ps[..0] == [];
  }

  lemma {:induction false} DedupSize(ps: seq<Param>)
    ensures |Dedup(ps)| <= |ps|
    ensures |Dedup(ps)| == |ps| <==> Distinct(ps)
    ensures Distinct(ps) ==> Dedup(ps) == ps
  {
    if ps != [] {
      var n := |ps| - 1;
      DedupSize(ps[..n]);
      assert ps == ps[..n] + [ps[n]];
      DistinctLast(ps);
    }
  }

  lemma DistinctLast(ps: seq<Param>)
    requires ps != []
    ensures Distinct(ps) <==> Distinct(ps[..|ps| - 1]) && ps[|ps| - 1] !in ps[..|ps| - 1]
  {
    var n := |ps| - 1;
    var init := ps[..n];
    assert forall i | 0 <= i < n :: init[i] == ps[i];
    if Distinct(init) && ps[n] !in init {
      forall i, j | 0 <= i < j < |ps| ensures ps[i] != ps[j] { assert ps[i] == init[i] && ps[i] in init; }
    }
  }

  // ---- which keys survive ----

  /** No piece of a printed parameter has a longer key part than its key, and it is shorter when the key
      has an ampersand, an equals sign or a leading blank. */
  lemma {:induction false} PieceKeys(key: string, e: string, piece: string)
    requires '&' !in e && piece in Split(key + (['='] + e), '&')
    ensures |KeyPart(piece)| <= |key|
    ensures key != "" && ('&' in key || '=' in key || IsSpaceOrTab(key[0])) ==> |KeyPart(piece)| < |key|
    decreases |key|
  {
    var i := IndexOf(key, '&');
    if i == |key| {
      assert '&' !in key;
      OnePiece(key, e, piece);
      TrimmedKey(key, e);
    } else {
      var b := key[i + 1..];
      FirstPiece(key, i, ['='] + e, piece);
      if piece in Split(b + (['='] + e), '&') { PieceKeys(b, e, piece); }
    }
  }

  lemma OnePiece(key: string, e: string, piece: string)
    requires '&' !in key && '&' !in e && piece in Split(key + (['='] + e), '&')
    ensures piece == Trim(key + (['='] + e))
  {
    SoleField(key + (['='] + e), piece);
  }

  lemma SoleField(s: string, piece: string)
    requires '&' !in s && piece in Split(s, '&')
    ensures piece == Trim(s)
  {
    SplitSingle(s, '&');
  }

  lemma FirstPiece(key: string, i: nat, rest: string, piece: string)
    requires i < |key| && i == IndexOf(key, '&') && piece in Split(key + rest, '&')
    ensures |piece| <= i || piece in Split(key[i + 1..] + rest, '&')
  {
    CutAt(key, i, rest);
    HeadPiece(key[..i], key[i + 1..] + rest, piece);
  }

  lemma CutAt(key: string, i: nat, rest: string)
    requires i < |key| && key[i] == '&'
    ensures key + rest == key[..i] + ['&'] + (key[i + 1..] + rest)
  {}

  lemma HeadPiece(a: string, tail: string, piece: string)
    requires '&' !in a && piece in Split(a + ['&'] + tail, '&')
    ensures |piece| <= |a| || piece in Split(tail, '&')
  {
    SplitCons(a, '&', tail);
  }

  lemma TrimmedKey(key: string, e: string)
    ensures |KeyPart(Trim(key + (['='] + e)))| <= |key|
    ensures key != "" && ('=' in key || IsSpaceOrTab(key[0])) ==> |KeyPart(Trim(key + (['='] + e)))| < |key|
  {
    var whole := key + (['='] + e);
    var k := IndexOf(whole, '=');
    assert whole[|key|] == '=';
    assert '=' in key ==> k < |key| by {
      if '=' in key {
        var j :| 0 <= j < |key| && key[j] == '=';
        assert whole[j] == '=';
      }
    }
    KeyOfTrim(whole);
    assert key != "" ==> whole[0] == key[0];
  }

  lemma KeyOfTrim(s: string)
    requires IndexOf(s, '=') < |s|
    ensures |KeyPart(Trim(s))| == IndexOf(s, '=') - LeftEdge(s, 0)
  {
    var k, l, r := IndexOf(s, '='), LeftEdge(s, 0), RightEdge(s, |s|);
    assert s[k] == '=';
    assert l <= k < r;
    var t := Trim(s);
    assert t == s[l..r];
    assert t[k - l] == '=';
    assert forall j | 0 <= j < k - l :: t[j] == s[l + j];
  }

  lemma {:induction false} ParsedFrom(pieces: seq<string>, cache: set<string>, params: seq<Param>, p: Param)
    requires p in ParsePieces(pieces, cache, params)
    ensures p in params || exists kv :: kv in pieces && KeyPart(kv) != "" && p == Entry(kv)
    decreases |pieces|
  {
    if pieces != [] {
      if pieces[0] in cache {
        ParsedFrom(pieces[1..], cache, params, p);
      } else {
        var next := if KeyPart(pieces[0]) == "" then params else Emplace(params, Entry(pieces[0]));
        ParsedFrom(pieces[1..], cache + {pieces[0]}, next, p);
        if p in next && KeyPart(pieces[0]) != "" { EmplaceKeeps(params, Entry(pieces[0]), p); }
      }
    }
  }

  lemma WholeKey(key: string, e: string)
    requires key != "" && '=' !in key && !IsSpaceOrTab(key[0])
    ensures KeyPart(Trim(key + (['='] + e))) == key
  {
    var whole := key + (['='] + e);
    PairParts(key, e);
    assert whole[|key|] == '=' && whole[0] == key[0];
    assert LeftEdge(whole, 0) == 0;
    KeyOfTrim(whole);
    assert Trim(whole) == whole[..RightEdge(whole, |whole|)];
    assert whole[..|key|] == key;
  }

  // ---- a bad key among others ----

  /** Where a separator stands, splitting splits. */
  lemma {:induction false} SplitJoin(a: string, d: char, b: string)
    ensures Split(a + [d] + b, d) == Split(a, d) + Split(b, d)
    decreases |a|
  {
    if d in a {
      var i := IndexOf(a, d);
      var x, y := a[..i], a[i + 1..];
      assert a == x + [d] + y;
      Regroup3(x, [d], y, [d], b);
      SplitCons(x, d, y);
      SplitCons(x, d, y + [d] + b);
      SplitJoin(y, d, b);
      Associative(Piece(x), Split(y, d), Split(b, d));
    } else {
      SplitSingle(a, d);
      SplitCons(a, d, b);
    }
  }

  lemma Regroup3(x: string, d: string, y: string, e: string, b: string)
    ensures x + d + y + e + b == x + d + (y + e + b)
  {}

  /** Every piece of the printed text comes from one parameter. */
  lemma {:induction false} PieceOfOne(ps: seq<Param>, i: nat, piece: string) returns (j: nat)
    requires Encodable(ps) && i < |ps| && piece in Split(Onward(ps, i), '&')
    ensures i <= j < |ps| && piece in Split(PairText(ps[j]), '&')
    decreases |ps| - i
  {
    if i + 1 == |ps| {
      assert Onward(ps, i) == PairText(ps[i]);
      j := i;
    } else {
      Associative(PairText(ps[i]), ['&'], Onward(ps, i + 1));
      SplitJoin(PairText(ps[i]), '&', Onward(ps, i + 1));
      if piece in Split(Onward(ps, i + 1), '&') { j := PieceOfOne(ps, i + 1, piece); } else { j := i; }
    }
  }

  /** The parameter a parsed entry was read from. */
  lemma SourceOf(ps: seq<Param>, p: Param) returns (q: Param, kv: string)
    requires Encodable(ps) && ps != [] && p in Parse(QueryText(ps), [])
    ensures q in ps && IsBytes(q.1) && kv in Split(PairText(q), '&') && KeyPart(kv) != "" && p == Entry(kv)
  {
    kv := PieceOf(Split(QueryText(ps), '&'), p);
    var j := PieceOfOne(ps, 0, kv);
    q := ps[j];
  }

  lemma PieceOf(pieces: seq<string>, p: Param) returns (kv: string)
    requires p in ParsePieces(pieces, {}, [])
    ensures kv in pieces && KeyPart(kv) != "" && p == Entry(kv)
  {
    ParsedFrom(pieces, {}, [], p);
    kv :| kv in pieces && KeyPart(kv) != "" && p == Entry(kv);
  }

  /** A decoded text as long as the original has no plus left, and without a plus nothing has changed. */
  lemma {:induction false} SameLength(s: string)
    requires |DecodePath(s, true)| == |s|
    ensures '+' !in DecodePath(s, true)
    ensures '+' !in s ==> DecodePath(s, true) == s
    decreases |s|
  {
    if s != "" {
      var (n, out) := DecodeStep(s, true);
      var rest := s[n..];
      DecodeShrinks(rest, true);
      SameStep(s);
      SameLength(rest);
      assert s == [s[0]] + rest;
    }
  }

  lemma SameStep(s: string)
    requires s != ""
    ensures var (n, out) := DecodeStep(s, true);
            && |out| <= n
            && (|out| == n ==> n == 1 && out == if s[0] == '+' then " " else [s[0]])
  {}

  /** A bad key is only read from a bad key, which is longer, or as long and loses its pluses. */
  lemma BadSource(p: Param, q: Param, kv: string)
    requires IsBytes(q.1) && kv in Split(PairText(q), '&') && KeyPart(kv) != "" && p == Entry(kv)
    requires !GoodKey(p.0)
    ensures !GoodKey(q.0) && |p.0| <= |q.0|
    ensures |p.0| == |q.0| ==> '+' in q.0 && '+' !in p.0
  {
    var e := EncodeComponent(q.1);
    EncodedClean(q.1);
    PieceKeys(q.0, e, kv);
    DecodeShrinks(KeyPart(kv), true);
    if q.0 != "" && '&' !in q.0 && '=' !in q.0 && !IsSpaceOrTab(q.0[0]) {
      OnePiece(q.0, e, kv);
      WholeKey(q.0, e);
      if |p.0| == |q.0| { SameLength(q.0); }
    }
  }

  function Weight(key: string): nat { 2 * |key| + if '+' in key then 1 else 0 }

  lemma {:induction false} Heaviest(ps: seq<Param>) returns (p: Param)
    requires exists q :: q in ps && !GoodKey(q.0)
    ensures p in ps && !GoodKey(p.0) && forall q | q in ps && !GoodKey(q.0) :: Weight(q.0) <= Weight(p.0)
  {
    var last, init := ps[|ps| - 1], ps[..|ps| - 1];
    assert ps == init + [last];
    if q :| q in init && !GoodKey(q.0) {
      p := Heaviest(init);
      if !GoodKey(last.0) && Weight(last.0) > Weight(p.0) { p := last; }
    } else {
      p := last;
    }
  }

  /** With a bad key in it, a list is not read back. */
  lemma BadKeyLost(ps: seq<Param>)
    requires Encodable(ps) && !AllGood(ps)
    ensures Parse(QueryText(ps), []) != ps
  {
    var i :| 0 <= i < |ps| && !Good(ps[i]);
    assert ps[i] in ps;
    var p := Heaviest(ps);
    if p in Parse(QueryText(ps), []) {
      var q, kv := SourceOf(ps, p);
      BadSource(p, q, kv);
    }
  }

  /** The multimap itself comes back, equal keys in order, exactly when every key is good and no entry
      occurs twice. */
  lemma RoundTrip(ps: seq<Param>)
    requires Encodable(ps) && Ordered(ps)
    ensures Parse(QueryText(ps), []) == ps <==> AllGood(ps) && Distinct(ps)
  {
    if AllGood(ps) {
      ReadBack(ps);
      DedupSize(ps);
    } else {
      BadKeyLost(ps);
    }
  }

  /** One parameter survives printing and parsing exactly when its key is good, whatever its value. */
  lemma KeySurvives(key: string, value: string)
    requires IsBytes(value)
    ensures Parse(QueryText([(key, value)]), []) == [(key, value)] <==> GoodKey(key)
  {
    var p := (key, value);
    RoundTrip([p]);
    assert [p][0] == p;
    assert AllGood([p]) <==> GoodKey(key);
  }
}
