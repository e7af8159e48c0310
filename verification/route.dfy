/** Routes with path parameters: `PathParamsMatcher`. */
module Route {
  import opened Wrappers
  import opened Text

  // ---- patterns ----

  /** A pattern: a literal up to a slash, a parameter's name, and what follows it; or a literal to the end. */
  datatype Shape = End(tail: string) | Param(head: string, name: string, rest: Shape)

  /** Where the next parameter's marker `/:` is; the length of the pattern when there is none. */
  function Marker(p: string, pos: nat): (k: nat)
    requires pos <= |p|
    ensures pos <= k <= |p|
    ensures k < |p| ==> k + 2 <= |p| && p[k] == '/' && p[k + 1] == ':'
    decreases |p| - pos
  {
    if |p| - pos < 2 then |p| else if p[pos] == '/' && p[pos + 1] == ':' then pos else Marker(p, pos + 1)
  }

  /** Where the name behind the marker at `k` ends: at a slash or at the end. */
  function NameEnd(p: string, k: nat): (e: nat)
    requires k + 2 <= |p|
    ensures k + 2 <= e <= |p| && (e < |p| ==> p[e] == '/')
  {
    IndexFrom(p, '/', k + 2)
  }

  function ShapeFrom(p: string, pos: nat): Shape
    requires pos <= |p|
    decreases |p| - pos
  {
    var k := Marker(p, pos);
    if k == |p| then End(p[pos..])
    else Param(p[pos..k + 1], p[k + 2..NameEnd(p, k)], ShapeFrom(p, NameEnd(p, k)))
  }

  function ShapeOf(pattern: string): Shape { ShapeFrom(pattern, 0) }

  /** The pattern a shape is read from. */
  function Spelled(s: Shape): string {
    match s
    case End(tail) => tail
    case Param(head, name, rest) => head + ([':'] + (name + Spelled(rest)))
  }

  function Names(s: Shape): seq<string> {
    if s.End? then [] else [s.name] + Names(s.rest)
  }

  predicate StartsWithSlash(t: string) { t == "" || t[0] == '/' }

  predicate EndsWithSlash(t: string) { t != "" && t[|t| - 1] == '/' }

  /** What holds of a shape read from a pattern, `after` a parameter or at the start. */
  predicate Proper(s: Shape, after: bool) {
    match s
    case End(tail) => after ==> StartsWithSlash(tail)
    case Param(head, name, rest) =>
      EndsWithSlash(head) && (after ==> head[0] == '/') && '/' !in name && Proper(rest, true)
  }

  lemma MarkerCut(p: string, pos: nat)
    requires pos <= |p| && Marker(p, pos) < |p|
    ensures var k, e := Marker(p, pos), NameEnd(p, Marker(p, pos));
            p[pos..] == p[pos..k + 1] + ([':'] + (p[k + 2..e] + p[e..]))
  {
    var k, e := Marker(p, pos), NameEnd(p, Marker(p, pos));
    Cut(p, pos, k + 1, e);
  }

  lemma Cut(p: string, pos: nat, c: nat, e: nat)
    requires pos <= c < e <= |p| && p[c] == ':'
    ensures p[pos..] == p[pos..c] + ([':'] + (p[c + 1..e] + p[e..]))
  {}

  /** Reading a pattern keeps all of it. */
  lemma {:induction false} ShapeSpells(p: string, pos: nat)
    requires pos <= |p|
    ensures Spelled(ShapeFrom(p, pos)) == p[pos..]
    decreases |p| - pos
  {
    if Marker(p, pos) < |p| {
      MarkerCut(p, pos);
      ShapeSpells(p, NameEnd(p, Marker(p, pos)));
    }
  }

  lemma HeadAndName(p: string, pos: nat)
    requires pos <= |p| && Marker(p, pos) < |p|
    ensures var k := Marker(p, pos);
            EndsWithSlash(p[pos..k + 1]) && p[pos..k + 1][0] == p[pos] && '/' !in p[k + 2..NameEnd(p, k)]
  {
    var k := Marker(p, pos);
    assert p[pos..k + 1][k - pos] == '/';
  }

  lemma {:induction false} ShapeProper(p: string, pos: nat, after: bool)
    requires pos <= |p| && (after && pos < |p| ==> p[pos] == '/')
    ensures Proper(ShapeFrom(p, pos), after)
    decreases |p| - pos
  {
    if Marker(p, pos) < |p| {
      HeadAndName(p, pos);
      ShapeProper(p, NameEnd(p, Marker(p, pos)), true);
    }
  }

  // ---- the reading of a pattern is the only one ----

  /** A parameter's marker `/:` stands at `i`. */
  predicate IsMarker(t: string, i: nat) { i + 1 < |t| && t[i] == '/' && t[i + 1] == ':' }

  predicate MarkerFree(t: string) { forall i: nat | i < |t| :: !IsMarker(t, i) }

  /** No parameter is hidden in the literal text. */
  predicate AllFound(s: Shape) {
    match s
    case End(tail) => MarkerFree(tail)
    case Param(head, _, rest) => MarkerFree(head) && AllFound(rest)
  }

  /** What makes `s` a reading of the pattern: it spells the pattern, its pieces meet at slashes, and every
      marker in it stands before a parameter. */
  predicate Reads(s: Shape, pattern: string) {
    Spelled(s) == pattern && Proper(s, false) && AllFound(s)
  }

  lemma {:induction false} MarkerIsFirst(p: string, pos: nat, i: nat)
    requires pos <= i < |p| && i < Marker(p, pos)
    ensures !IsMarker(p, i)
    decreases |p| - pos
  {
    if |p| - pos >= 2 && pos < i { MarkerIsFirst(p, pos + 1, i); }
  }

  lemma {:induction false} ShapeFindsAll(p: string, pos: nat)
    requires pos <= |p|
    ensures AllFound(ShapeFrom(p, pos))
    decreases |p| - pos
  {
    var k := Marker(p, pos);
    var head := if k == |p| then p[pos..] else p[pos..k + 1];
    forall i: nat | i < |head| ensures !IsMarker(head, i) {
      if pos + i < k { MarkerIsFirst(p, pos, pos + i); }
    }
    if k < |p| { ShapeFindsAll(p, NameEnd(p, k)); }
  }

  lemma {:induction false} MarkerIs(p: string, pos: nat, k: nat)
    requires pos <= k <= |p| && (k < |p| ==> IsMarker(p, k))
    requires forall i: nat | pos <= i < k :: !IsMarker(p, i)
    ensures Marker(p, pos) == k
    decreases |p| - pos
  {
    if pos < k {
      assert !IsMarker(p, pos);
      MarkerIs(p, pos + 1, k);
    }
  }

  lemma NoMarkerIn(p: string, pos: nat, t: string)
    requires pos <= |p| && p[pos..] == t && MarkerFree(t)
    ensures Marker(p, pos) == |p|
  {
    forall i: nat | pos <= i < |p| ensures !IsMarker(p, i) { assert !IsMarker(t, i - pos); }
    MarkerIs(p, pos, |p|);
  }

  lemma MarkerBehind(p: string, pos: nat, head: string, more: string)
    requires pos <= |p| && p[pos..] == head + ([':'] + more) && EndsWithSlash(head) && MarkerFree(head)
    ensures Marker(p, pos) == pos + |head| - 1 && pos + |head| < |p|
    ensures p[pos..pos + |head|] == head && p[pos + |head| + 1..] == more
  {
    var k := pos + |head| - 1;
    assert forall i | 0 <= i < |head| :: p[pos + i] == head[i];
    assert p[k + 1] == p[pos..][|head|] == ':';
    forall i: nat | pos <= i < k ensures !IsMarker(p, i) { assert !IsMarker(head, i - pos); }
    MarkerIs(p, pos, k);
  }

  lemma NameBehind(p: string, k: nat, name: string, more: string)
    requires k + 2 <= |p| && p[k + 2..] == name + more && '/' !in name && StartsWithSlash(more)
    ensures NameEnd(p, k) == k + 2 + |name| && p[k + 2..NameEnd(p, k)] == name && p[NameEnd(p, k)..] == more
  {
    var t := name + more;
    var e := k + 2 + |name|;
    assert forall i | k + 2 <= i < e :: p[i] == t[i - k - 2] == name[i - k - 2];
    assert more != "" ==> p[e] == t[|name|] == more[0];
    assert e == |p| <==> more == "";
  }

  lemma SpelledStart(s: Shape)
    requires Proper(s, true)
    ensures StartsWithSlash(Spelled(s))
  {}

  lemma ShapeAt(p: string, pos: nat, k: nat, e: nat)
    requires pos <= k && k + 2 <= |p| && Marker(p, pos) == k && NameEnd(p, k) == e
    ensures ShapeFrom(p, pos) == Param(p[pos..k + 1], p[k + 2..e], ShapeFrom(p, e))
  {}

  lemma ParamRead(p: string, pos: nat, head: string, name: string, more: string) returns (e: nat)
    requires pos <= |p| && p[pos..] == head + ([':'] + (name + more))
    requires EndsWithSlash(head) && MarkerFree(head) && '/' !in name && StartsWithSlash(more)
    ensures pos < e <= |p| && p[e..] == more
    ensures ShapeFrom(p, pos) == Param(head, name, ShapeFrom(p, e))
  {
    var k := pos + |head| - 1;
    MarkerBehind(p, pos, head, name + more);
    NameBehind(p, k, name, more);
    e := k + 2 + |name|;
    ShapeAt(p, pos, k, e);
  }

  lemma {:induction false} OnlyShapeFrom(p: string, pos: nat, s: Shape, after: bool)
    requires pos <= |p| && Spelled(s) == p[pos..] && Proper(s, after) && AllFound(s)
    ensures s == ShapeFrom(p, pos)
    decreases s
  {
    match s
    case End(tail) => NoMarkerIn(p, pos, tail);
    case Param(head, name, rest) =>
      SpelledStart(rest);
      var e := ParamRead(p, pos, head, name, Spelled(rest));
      OnlyShapeFrom(p, e, rest, true);
  }

  /** A pattern has one reading, the one the constructor finds. */
  lemma OnlyReading(pattern: string, s: Shape)
    ensures Reads(s, pattern) <==> s == ShapeOf(pattern)
  {
    ShapeSpells(pattern, 0);
    ShapeProper(pattern, 0, false);
    ShapeFindsAll(pattern, 0);
    assert pattern[0..] == pattern;
    if Reads(s, pattern) { OnlyShapeFrom(pattern, 0, s, false); }
  }

  /** A single slash behind a final parameter counts for nothing. */
  predicate OnlySlash(tail: string) { |tail| <= 1 }

  /** The pattern with `vals` in place of its parameters; a slash that only follows a final parameter is
      left out. */
  function Substitute(s: Shape, after: bool, vals: seq<string>): string
    requires |vals| == |Names(s)|
  {
    match s
    case End(tail) => if after && OnlySlash(tail) then "" else tail
    case Param(head, name, rest) => head + (vals[0] + Substitute(rest, true, vals[1..]))
  }

  /** The pattern ends in a parameter, or in a parameter and a slash. */
  predicate EndsInParameter(s: Shape, after: bool) {
    match s
    case End(tail) => after && OnlySlash(tail)
    case Param(_, _, rest) => EndsInParameter(rest, true)
  }

  predicate SlashFree(vals: seq<string>) { forall i | 0 <= i < |vals| :: '/' !in vals[i] }

  /** `path` is the pattern with `vals` substituted, give or take one slash behind a final parameter. */
  predicate Instance(s: Shape, after: bool, vals: seq<string>, path: string) {
    && |vals| == |Names(s)| && SlashFree(vals)
    && (|| path == Substitute(s, after, vals)
        || (EndsInParameter(s, after) && path == Substitute(s, after, vals) + ['/']))
  }

  // ---- matching ----

  /** Whether what is left of a path fits the shape, and the values met on the way. */
  function Run(s: Shape, after: bool, t: string): (bool, seq<string>) {
    match s
    case End(tail) => (if after && OnlySlash(tail) then |t| <= 1 else t == tail, [])
    case Param(head, _, rest) =>
      if head <= t then
        var u := t[|head|..];
        var b := IndexOf(u, '/');
        (Run(rest, true, u[b..]).0, [u[..b]] + Run(rest, true, u[b..]).1)
      else (false, [])
  }

  lemma SlashBehind(head: string, v: string, sub: string)
    ensures head + (v + (sub + ['/'])) == head + (v + sub) + ['/']
  {}

  lemma InstanceMore(s: Shape, after: bool, v: string, vals: seq<string>, rest: string)
    requires s.Param? && '/' !in v && Instance(s.rest, true, vals, rest)
    ensures Instance(s, after, [v] + vals, s.head + (v + rest))
  {
    var all := [v] + vals;
    assert all[1..] == vals;
    SlashBehind(s.head, v, Substitute(s.rest, true, vals));
  }

  lemma EndFits(s: Shape, after: bool, t: string)
    requires s.End? && (after ==> StartsWithSlash(t)) && Run(s, after, t).0
    ensures Instance(s, after, [], t)
  {
    if after && OnlySlash(s.tail) && t != "" { assert t == ['/']; }
  }

  /** Soundness: a match exhibits values whose substitution is the path. */
  lemma {:induction false} Sound(s: Shape, after: bool, t: string)
    requires (after ==> StartsWithSlash(t)) && Run(s, after, t).0
    ensures Instance(s, after, Run(s, after, t).1, t)
    decreases s
  {
    if s.End? {
      EndFits(s, after, t);
    } else {
      var u := t[|s.head|..];
      var b := IndexOf(u, '/');
      Sound(s.rest, true, u[b..]);
      InstanceMore(s, after, u[..b], Run(s.rest, true, u[b..]).1, u[b..]);
      assert u == u[..b] + u[b..] && t == s.head + u;
    }
  }

  /** An instance begins with the shape's first literal and a value, and what follows is an instance of
      the rest. */
  lemma InstanceCut(s: Shape, after: bool, vals: seq<string>, path: string) returns (rest: string)
    requires s.Param? && Instance(s, after, vals, path)
    ensures vals != [] && '/' !in vals[0] && path == s.head + (vals[0] + rest)
    ensures Instance(s.rest, true, vals[1..], rest)
  {
    var sub := Substitute(s.rest, true, vals[1..]);
    rest := if path == s.head + (vals[0] + sub) then sub else sub + ['/'];
    SlashBehind(s.head, vals[0], sub);
  }

  lemma InstanceStart(s: Shape, vals: seq<string>, path: string)
    requires Proper(s, true) && Instance(s, true, vals, path)
    ensures StartsWithSlash(path)
  {}

  lemma ValueEnd(v: string, rest: string)
    requires '/' !in v && StartsWithSlash(rest)
    ensures IndexOf(v + rest, '/') == |v| && (v + rest)[..|v|] == v && (v + rest)[|v|..] == rest
  {
    assert forall i | 0 <= i < |v| :: (v + rest)[i] == v[i];
    assert rest != "" ==> (v + rest)[|v|] == rest[0];
  }

  lemma RunParam(s: Shape, after: bool, v: string, rest: string)
    requires s.Param? && '/' !in v && StartsWithSlash(rest)
    ensures Run(s, after, s.head + (v + rest)).0 == Run(s.rest, true, rest).0
    ensures Run(s, after, s.head + (v + rest)).1 == [v] + Run(s.rest, true, rest).1
  {
    var u := v + rest;
    assert (s.head + u)[|s.head|..] == u;
    ValueEnd(v, rest);
  }

  lemma CompleteEnd(s: Shape, after: bool, vals: seq<string>, t: string)
    requires s.End? && Instance(s, after, vals, t)
    ensures Run(s, after, t) == (true, vals)
  {}

  /** Completeness, and the values are the only ones. */
  lemma {:induction false} Complete(s: Shape, after: bool, vals: seq<string>, t: string)
    requires Proper(s, after) && Instance(s, after, vals, t)
    ensures Run(s, after, t) == (true, vals)
    decreases s
  {
    if s.End? {
      CompleteEnd(s, after, vals, t);
    } else {
      var v, more, rest := InstanceParts(s, after, vals, t);
      Complete(s.rest, true, more, rest);
      CompleteParam(s, after, vals, t, v, more, rest);
    }
  }

  lemma InstanceParts(s: Shape, after: bool, vals: seq<string>, t: string) returns (v: string, more: seq<string>, rest: string)
    requires s.Param? && Proper(s, after) && Instance(s, after, vals, t)
    ensures vals == [v] + more && t == s.head + (v + rest) && '/' !in v && StartsWithSlash(rest)
    ensures Proper(s.rest, true) && Instance(s.rest, true, more, rest)
  {
    rest := InstanceCut(s, after, vals, t);
    v, more := vals[0], vals[1..];
    InstanceStart(s.rest, more, rest);
  }

  lemma CompleteParam(s: Shape, after: bool, vals: seq<string>, t: string, v: string, more: seq<string>, rest: string)
    requires s.Param? && '/' !in v && StartsWithSlash(rest) && Run(s.rest, true, rest) == (true, more)
    requires vals == [v] + more && t == s.head + (v + rest)
    ensures Run(s, after, t) == (true, vals)
  {
    RunParam(s, after, v, rest);
  }

  /** However the pattern is read, and there is one way: the matcher accepts a path exactly when it is an
      instance of it, and captures the one list of slash-free values that makes it so. */
  lemma MatchesInstances(pattern: string, s: Shape, path: string, vals: seq<string>)
    requires Reads(s, pattern)
    ensures Run(ShapeOf(pattern), false, path).0 <==> exists v :: Instance(s, false, v, path)
    ensures Instance(s, false, vals, path) ==> Run(ShapeOf(pattern), false, path).1 == vals
  {
    OnlyReading(pattern, s);
    if Run(s, false, path).0 { Sound(s, false, path); }
    forall v | Instance(s, false, v, path) ensures Run(s, false, path) == (true, v) {
      Complete(s, false, v, path);
    }
  }

  // ---- the matcher itself ----

  datatype Matcher = Matcher(staticFragments: seq<string>, paramNames: seq<string>)

  predicate Distinct(names: seq<string>) { forall i, j | 0 <= i < j < |names| :: names[i] != names[j] }

  /** The literal pieces; behind a parameter the slash that ended it belongs to none. */
  function Fragments(s: Shape, after: bool): seq<string> {
    match s
    case End(tail) => if (if after then |tail| <= 1 else tail == "") then [] else [if after then tail[1..] else tail]
    case Param(head, _, rest) => [if after && head != "" then head[1..] else head] + Fragments(rest, true)
  }

  /** The constructor; a name that occurs twice is an exception there. */
  method Compile(pattern: string) returns (m: Option<Matcher>)
    ensures var s := ShapeOf(pattern);
            m == if Distinct(Names(s)) then Some(Matcher(Fragments(s, false), Names(s))) else None
  {
    var lastParamEnd: nat := 0;
    var fragments: seq<string>, names: seq<string> := [], [];
    var nameSet: set<string> := {};
    ghost var whole, shape := ShapeOf(pattern), ShapeOf(pattern);
    ghost var pos: nat := 0;
    assert [] + Fragments(whole, false) == Fragments(whole, false) && [] + Names(whole) == Names(whole);
    while true
      invariant pos <= |pattern| && shape == ShapeFrom(pattern, pos) && lastParamEnd in {0, pos + 1}
      invariant lastParamEnd == 0 ==> pos == 0
      invariant Yielded(whole, shape, lastParamEnd > 0, fragments, names)
      invariant Distinct(names) && nameSet == AsSet(names)
      decreases shape
    {
      var found, fragment, name, e := FindParam(pattern, lastParamEnd, pos, shape);
      if !found { break; }
      NextParam(whole, shape, lastParamEnd > 0, fragments, names);
      NameMore(names, name, Names(shape.rest));
      fragments := fragments + [fragment];
      if name in nameSet { return None; }
      nameSet := nameSet + {name};
      names := names + [name];
      lastParamEnd := e + 1;
      shape, pos := shape.rest, e;
    }
    LastPart(shape, lastParamEnd > 0, fragments, names);
    if lastParamEnd < |pattern| {
      TailIs(pattern, pos, lastParamEnd, shape);
      fragments := fragments + [pattern[lastParamEnd..]];
    }
    m := Some(Matcher(fragments, names));
  }

  /** The next parameter's name, where it ends, and the literal before it, if there is another parameter. */
  method FindParam(pattern: string, last: nat, ghost pos: nat, ghost shape: Shape)
    returns (found: bool, fragment: string, name: string, e: nat)
    requires pos <= |pattern| && shape == ShapeFrom(pattern, pos) && last in {0, pos + 1} && (last == 0 ==> pos == 0)
    ensures found == shape.Param?
    ensures found ==> e <= |pattern| && shape.rest == ShapeFrom(pattern, e) && name == shape.name && shape.head != ""
    ensures found ==> fragment == if last > 0 then shape.head[1..] else shape.head
  {
    var k := Marker(pattern, if last == 0 then 0 else last - 1);
    if k == |pattern| { return false, "", "", 0; }
    e := NameEnd(pattern, k);
    HeadIs(pattern, pos, last, k + 1);
    found, fragment, name := true, pattern[last..k + 1], pattern[k + 2..e];
  }

  lemma HeadIs(pattern: string, pos: nat, last: nat, end: nat)
    requires last in {0, pos + 1} && (last == 0 ==> pos == 0) && pos < end <= |pattern|
    ensures last <= end
    ensures pattern[last..end] == if last > 0 then pattern[pos..end][1..] else pattern[pos..end]
  {}

  /** What has been collected, with what the rest of the pattern will add, is everything. */
  ghost predicate Yielded(whole: Shape, shape: Shape, after: bool, fragments: seq<string>, names: seq<string>) {
    fragments + Fragments(shape, after) == Fragments(whole, false) && names + Names(shape) == Names(whole)
  }

  function AsSet(names: seq<string>): set<string> {
    if names == [] then {} else AsSet(names[..|names| - 1]) + {names[|names| - 1]}
  }

  lemma {:induction false} AsSetIs(names: seq<string>, n: string)
    ensures n in AsSet(names) <==> n in names
  {
    if names != [] {
      AsSetIs(names[..|names| - 1], n);
      assert names == names[..|names| - 1] + [names[|names| - 1]];
    }
  }

  lemma NextParam(whole: Shape, shape: Shape, after: bool, fragments: seq<string>, names: seq<string>)
    requires shape.Param? && shape.head != "" && Yielded(whole, shape, after, fragments, names)
    ensures var fragment := if after then shape.head[1..] else shape.head;
            Yielded(whole, shape.rest, true, fragments + [fragment], names + [shape.name])
    ensures names + [shape.name] + Names(shape.rest) == Names(whole)
  {
    Associative(fragments, [if after then shape.head[1..] else shape.head], Fragments(shape.rest, true));
    Associative(names, [shape.name], Names(shape.rest));
  }

  lemma TailIs(pattern: string, pos: nat, last: nat, shape: Shape)
    requires pos <= |pattern| && shape == ShapeFrom(pattern, pos) && shape.End?
    requires last in {0, pos + 1} && (last == 0 ==> pos == 0) && last <= |pattern|
    ensures last > 0 ==> |shape.tail| > 0 && pattern[last..] == shape.tail[1..]
    ensures last == 0 ==> pattern[last..] == shape.tail
  {
    assert shape.tail == pattern[pos..];
    if last > 0 { assert pattern[pos..][1..] == pattern[pos + 1..]; }
  }

  lemma LastPart(shape: Shape, after: bool, fragments: seq<string>, names: seq<string>)
    requires shape.End?
    ensures names + Names(shape) == names
    ensures fragments + Fragments(shape, after) ==
              if (if after then |shape.tail| <= 1 else shape.tail == "") then fragments
              else fragments + [if after then shape.tail[1..] else shape.tail]
  {}

  lemma NameMore(names: seq<string>, name: string, rest: seq<string>)
    requires Distinct(names)
    ensures name in AsSet(names) ==> !Distinct(names + [name] + rest)
    ensures name !in AsSet(names) ==> Distinct(names + [name])
    ensures AsSet(names + [name]) == AsSet(names) + {name}
  {
    AsSetIs(names, name);
    assert (names + [name])[..|names|] == names;
    if name in names { Repeated(names, name, rest); } else { OneMoreDistinct(names, name); }
  }

  lemma Repeated(names: seq<string>, name: string, rest: seq<string>)
    requires name in names
    ensures !Distinct(names + [name] + rest)
  {
    var all := names + [name] + rest;
    var i :| 0 <= i < |names| && names[i] == name;
    assert all[i] == all[|names|];
  }

  lemma OneMoreDistinct(names: seq<string>, name: string)
    requires Distinct(names) && name !in names
    ensures Distinct(names + [name])
  {
    var all := names + [name];
    forall i, j | 0 <= i < j < |all| ensures all[i] != all[j] { assert all[i] == names[i]; }
  }

  class Request {
    var path: string
    var pathParams: map<string, string>

    constructor (path: string)
      ensures this.path == path && pathParams == map[]
    {
      this.path, pathParams := path, map[];
    }
  }

  /** `strncmp` says equal for the first `|b|` bytes: it stops at a NUL. */
  predicate StrnEqual(a: string, b: string)
    requires |a| == |b|
  {
    a == "" || (a[0] == b[0] && (a[0] == '\0' || StrnEqual(a[1..], b[1..])))
  }

  /** Against text without a NUL that is equality. */
  lemma {:induction false} StrnIsEquality(a: string, b: string)
    requires |a| == |b| && '\0' !in b
    ensures StrnEqual(a, b) <==> a == b
  {
    if a != "" {
      StrnIsEquality(a[1..], b[1..]);
      assert a == [a[0]] + a[1..] && b == [b[0]] + b[1..];
    }
  }

  /** `emplace`: an entry already there stays. */
  function Emplace(m: map<string, string>, k: string, v: string): map<string, string> {
    if k in m then m else m[k := v]
  }

  /** The map that gives the first names their values. */
  function Captured(names: seq<string>, vals: seq<string>): map<string, string>
    requires |vals| <= |names|
  {
    if vals == [] then map[]
    else Emplace(Captured(names, vals[..|vals| - 1]), names[|vals| - 1], vals[|vals| - 1])
  }

  /** With distinct names, the captured map holds each value under its own name. */
  lemma {:induction false} CapturedAt(names: seq<string>, vals: seq<string>, i: nat)
    requires Distinct(names) && i < |vals| <= |names|
    ensures names[i] in Captured(names, vals) && Captured(names, vals)[names[i]] == vals[i]
    decreases |vals|
  {
    var n := |vals| - 1;
    if names[n] in Captured(names, vals[..n]) { CapturedOnly(names, vals[..n], names[n]); }
    if i < n { CapturedAt(names, vals[..n], i); }
  }

  /** And it holds nothing else. */
  lemma {:induction false} CapturedOnly(names: seq<string>, vals: seq<string>, k: string)
    requires |vals| <= |names| && k in Captured(names, vals)
    ensures exists i :: 0 <= i < |vals| && names[i] == k
    decreases |vals|
  {
    var n := |vals| - 1;
    if k != names[n] { CapturedOnly(names, vals[..n], k); }
  }

  ghost predicate NulFree(fragments: seq<string>) { forall i | 0 <= i < |fragments| :: '\0' !in fragments[i] }

  lemma {:induction false} FragmentsNulFree(p: string, pos: nat, after: bool)
    requires pos <= |p| && '\0' !in p
    ensures NulFree(Fragments(ShapeFrom(p, pos), after))
    decreases |p| - pos
  {
    if Marker(p, pos) < |p| { FragmentsNulFree(p, NameEnd(p, Marker(p, pos)), true); }
  }

  predicate FitsAt(path: string, start: nat, fragment: string) {
    start + |fragment| <= |path| && path[start..start + |fragment|] == fragment
  }

  /** How far before the next byte to compare the rest of the path begins: behind a parameter, at the slash. */
  function Back(after: bool): nat { if after then 1 else 0 }

  /** A fragment fits exactly when the literal it was cut from begins the rest of the path. */
  lemma FragmentFits(path: string, at: nat, after: bool, head: string, fragment: string)
    requires at <= |path| && (!after ==> at == 0)
    requires after ==> StartsWithSlash(path[at..]) && head != "" && head[0] == '/'
    requires fragment == if after then head[1..] else head
    ensures FitsAt(path, at + Back(after), fragment) <==> head <= path[at..]
    ensures head <= path[at..] ==> path[at..][|head|..] == path[at + Back(after) + |fragment|..]
  {
    var t := path[at..];
    if after {
      assert head == ['/'] + fragment;
      if at < |path| { assert t[0] == '/' && t == ['/'] + path[at + 1..]; }
    }
    if at + Back(after) + |fragment| <= |path| {
      assert path[at + Back(after)..][..|fragment|] == path[at + Back(after)..at + Back(after) + |fragment|];
    }
  }

  /** One fragment compared as the code does it. */
  method Compare(path: string, start: nat, fragment: string) returns (fits: bool)
    requires '\0' !in fragment
    ensures fits == FitsAt(path, start, fragment)
  {
    if start + |fragment| > |path| { return false; }
    StrnIsEquality(path[start..start + |fragment|], fragment);
    fits := StrnEqual(path[start..start + |fragment|], fragment);
  }

  lemma {:induction false} RunCount(s: Shape, after: bool, t: string)
    ensures |Run(s, after, t).1| <= |Names(s)|
    decreases s
  {
    if s.Param? && s.head <= t { RunCount(s.rest, true, t[|s.head|..][IndexOf(t[|s.head|..], '/')..]); }
  }

  function Behind(vals: seq<string>, r: (bool, seq<string>)): (bool, seq<string>) { (r.0, vals + r.1) }

  /** The values met so far are `vals`, and `t` is what is left of the path for `shape`. */
  ghost predicate Matching(target: (bool, seq<string>), shape: Shape, after: bool, t: string, vals: seq<string>) {
    Proper(shape, after) && (after ==> StartsWithSlash(t)) && target == Behind(vals, Run(shape, after, t))
  }

  lemma MatchStep(target: (bool, seq<string>), shape: Shape, after: bool, t: string, vals: seq<string>, v: string, rest: string)
    requires shape.Param? && '/' !in v && StartsWithSlash(rest) && t == shape.head + (v + rest)
    requires Matching(target, shape, after, t, vals)
    ensures Matching(target, shape.rest, true, rest, vals + [v])
  {
    RunParam(shape, after, v, rest);
    Associative(vals, [v], Run(shape.rest, true, rest).1);
  }

  lemma MatchFails(target: (bool, seq<string>), shape: Shape, after: bool, t: string, vals: seq<string>)
    requires Matching(target, shape, after, t, vals) && !(if shape.Param? then shape.head <= t else shape.tail == t)
    requires shape.End? ==> Fragments(shape, after) != []
    ensures !target.0 && target.1 == vals
  {
    assert vals + [] == vals;
  }

  lemma MatchEnds(target: (bool, seq<string>), shape: Shape, after: bool, t: string, vals: seq<string>)
    requires Matching(target, shape, after, t, vals) && shape.End?
    ensures target.1 == vals
    ensures Fragments(shape, after) == [] ==> (target.0 <==> |t| <= if after then 1 else 0)
    ensures Fragments(shape, after) != [] ==> (target.0 <==> t == shape.tail)
  {
    assert vals + [] == vals;
  }

  /** Where a parameter's value ends in the path. */
  lemma CutValue(path: string, a: nat)
    requires a <= |path|
    ensures var sep := IndexFrom(path, '/', a);
            path[a..] == path[a..sep] + path[sep..] && '/' !in path[a..sep] && StartsWithSlash(path[sep..])
  {}

  /** The state of `match` before the fragment at `i`, with the rest of the path beginning at `at`. */
  ghost predicate AtFragment(m: Matcher, i: nat, after: bool, target: (bool, seq<string>), path: string, shape: Shape, at: nat, vals: seq<string>) {
    && i <= |m.staticFragments| && i <= |m.paramNames| && |vals| == i
    && m.staticFragments[i..] == Fragments(shape, after) && m.paramNames[i..] == Names(shape)
    && at <= |path| && (!after ==> at == 0) && after == (i > 0)
    && Matching(target, shape, after, path[at..], vals)
  }

  lemma SliceHead<T>(s: seq<T>, i: nat, x: T, rest: seq<T>)
    requires i <= |s| && s[i..] == [x] + rest
    ensures i < |s| && s[i] == x && s[i + 1..] == rest
  {
    assert s[i..][0] == x && s[i..][1..] == rest;
  }

  lemma ParamHere(m: Matcher, i: nat, after: bool, target: (bool, seq<string>), path: string, shape: Shape, at: nat, vals: seq<string>)
    requires AtFragment(m, i, after, target, path, shape, at, vals) && shape.Param?
    ensures i < |m.paramNames| && i < |m.staticFragments| && shape.head != ""
    ensures m.staticFragments[i] == if after then shape.head[1..] else shape.head
    ensures m.staticFragments[i + 1..] == Fragments(shape.rest, true) && m.paramNames[i + 1..] == Names(shape.rest)
  {
    SliceHead(m.staticFragments, i, if after then shape.head[1..] else shape.head, Fragments(shape.rest, true));
    SliceHead(m.paramNames, i, shape.name, Names(shape.rest));
  }

  lemma ParamMatched(target: (bool, seq<string>), path: string, shape: Shape, after: bool, t: string, vals: seq<string>, a: nat)
    requires Matching(target, shape, after, t, vals) && shape.Param?
    requires a <= |path| && t == shape.head + path[a..]
    ensures var sep := IndexFrom(path, '/', a);
            Matching(target, shape.rest, true, path[sep..], vals + [path[a..sep]])
  {
    var sep := IndexFrom(path, '/', a);
    CutValue(path, a);
    MatchStep(target, shape, after, t, vals, path[a..sep], path[sep..]);
  }

  lemma ParamDone(m: Matcher, i: nat, after: bool, target: (bool, seq<string>), path: string, shape: Shape, at: nat, vals: seq<string>, next: nat)
    requires AtFragment(m, i, after, target, path, shape, at, vals) && shape.Param? && i < |m.staticFragments|
    requires FitsAt(path, at + Back(after), m.staticFragments[i]) && next == at + Back(after) + |m.staticFragments[i]|
    ensures var sep := IndexFrom(path, '/', next);
            AtFragment(m, i + 1, true, target, path, shape.rest, sep, vals + [path[next..sep]])
  {
    ParamHere(m, i, after, target, path, shape, at, vals);
    FragmentFits(path, at, after, shape.head, m.staticFragments[i]);
    HeadOff(path[at..], shape.head, path[next..]);
    ParamMatched(target, path, shape, after, path[at..], vals, next);
  }

  lemma HeadOff(t: string, head: string, rest: string)
    requires head <= t && t[|head|..] == rest
    ensures t == head + rest
  {}

  lemma ParamFails(m: Matcher, i: nat, after: bool, target: (bool, seq<string>), path: string, shape: Shape, at: nat, vals: seq<string>)
    requires AtFragment(m, i, after, target, path, shape, at, vals) && shape.Param? && i < |m.staticFragments|
    requires !FitsAt(path, at + Back(after), m.staticFragments[i])
    ensures !target.0 && target.1 == vals
  {
    ParamHere(m, i, after, target, path, shape, at, vals);
    FragmentFits(path, at, after, shape.head, m.staticFragments[i]);
    MatchFails(target, shape, after, path[at..], vals);
  }

  lemma TailDone(m: Matcher, i: nat, after: bool, target: (bool, seq<string>), path: string, shape: Shape, at: nat, vals: seq<string>)
    requires AtFragment(m, i, after, target, path, shape, at, vals) && i == |m.paramNames| && i < |m.staticFragments|
    ensures i + 1 == |m.staticFragments| && target.1 == vals
    ensures target.0 <==>
              FitsAt(path, at + Back(after), m.staticFragments[i]) && at + Back(after) + |m.staticFragments[i]| >= |path|
  {
    TailHere(m, i, after, target, path, shape, at, vals);
    FragmentFits(path, at, after, shape.tail, m.staticFragments[i]);
    MatchEnds(target, shape, after, path[at..], vals);
    TailWhole(path[at..], shape.tail);
  }

  lemma TailWhole(t: string, tail: string)
    ensures t == tail <==> tail <= t && t[|tail|..] == ""
  {}

  lemma AtStart(pattern: string, m: Matcher, path: string)
    requires var s := ShapeOf(pattern); m == Matcher(Fragments(s, false), Names(s))
    ensures AtFragment(m, 0, false, Run(ShapeOf(pattern), false, path), path, ShapeOf(pattern), 0, [])
  {
    var s := ShapeOf(pattern);
    ShapeProper(pattern, 0, false);
    assert path[0..] == path && [] + Run(s, false, path).1 == Run(s, false, path).1;
  }

  /** `match`: whether the path is an instance of the pattern; the captured values are left in the request. */
  method Match(m: Matcher, request: Request, ghost pattern: string) returns (ok: bool)
    requires '\0' !in pattern && Distinct(Names(ShapeOf(pattern)))
    requires m == Matcher(Fragments(ShapeOf(pattern), false), Names(ShapeOf(pattern)))
    modifies request`pathParams
    ensures ok == Run(ShapeOf(pattern), false, request.path).0
    ensures |Run(ShapeOf(pattern), false, request.path).1| <= |m.paramNames|
    ensures request.pathParams == Captured(m.paramNames, Run(ShapeOf(pattern), false, request.path).1)
  {
    ghost var shape := ShapeOf(pattern);
    FragmentsNulFree(pattern, 0, false);
    RunCount(shape, false, request.path);
    AtStart(pattern, m, request.path);
    ok := MatchFragments(m, request, shape, Run(shape, false, request.path));
  }

  method MatchFragments(m: Matcher, request: Request, ghost shape0: Shape, ghost target: (bool, seq<string>)) returns (ok: bool)
    requires NulFree(m.staticFragments) && AtFragment(m, 0, false, target, request.path, shape0, 0, [])
    requires |target.1| <= |m.paramNames|
    modifies request`pathParams
    ensures ok == target.0
    ensures request.pathParams == Captured(m.paramNames, target.1)
  {
    ghost var shape := shape0;
    ghost var vals: seq<string> := [];
    ghost var at: nat, after := 0, false;
    var path := request.path;
    request.pathParams := map[];
    var start: nat, i: nat := 0, 0;
    while i < |m.staticFragments|
      invariant i <= |m.paramNames| ==> AtFragment(m, i, after, target, path, shape, at, vals) && start == at + Back(after)
      invariant i > |m.paramNames| ==> i == |m.staticFragments| && (target.0 <==> start >= |path|)
      invariant |vals| <= |m.paramNames| && request.pathParams == Captured(m.paramNames, vals)
      invariant i > |m.paramNames| ==> vals == target.1
    {
      var fits, next := MatchFragment(m, i, start, path, target, after, shape, at, vals);
      if !fits { return false; }
      start := next;
      i := i + 1;
      if i > |m.paramNames| { continue; }
      var sep := IndexFrom(path, '/', start);
      CapturedMore(m.paramNames, vals, path[start..sep]);
      request.pathParams := Emplace(request.pathParams, m.paramNames[i - 1], path[start..sep]);
      vals := vals + [path[start..sep]];
      start := sep + 1;
      shape, at, after := shape.rest, sep, true;
    }
    if i <= |m.paramNames| { NoneLeft(m, i, after, target, path, shape, at, vals); }
    ok := start >= |path|;
  }

  lemma CapturedMore(names: seq<string>, vals: seq<string>, v: string)
    requires |vals| < |names|
    ensures Captured(names, vals + [v]) == Emplace(Captured(names, vals), names[|vals|], v)
  {
    assert (vals + [v])[..|vals|] == vals;
  }

  lemma NoneLeft(m: Matcher, i: nat, after: bool, target: (bool, seq<string>), path: string, shape: Shape, at: nat, vals: seq<string>)
    requires AtFragment(m, i, after, target, path, shape, at, vals) && i == |m.staticFragments|
    ensures target.1 == vals && (target.0 <==> at + Back(after) >= |path|)
  {
    MatchEnds(target, shape, after, path[at..], vals);
  }

  /** One fragment of the loop: compared, and if it fits, stepped over. */
  method MatchFragment(m: Matcher, i: nat, start: nat, path: string,
                       ghost target: (bool, seq<string>), ghost after: bool, ghost shape: Shape, ghost at: nat, ghost vals: seq<string>)
    returns (fits: bool, next: nat)
    requires NulFree(m.staticFragments) && i < |m.staticFragments| && i <= |m.paramNames|
    requires AtFragment(m, i, after, target, path, shape, at, vals) && start == at + Back(after)
    ensures !fits ==> !target.0 && target.1 == vals
    ensures fits ==> next == start + |m.staticFragments[i]| <= |path|
    ensures fits && i < |m.paramNames| ==>
              var sep := IndexFrom(path, '/', next);
              shape.Param? && AtFragment(m, i + 1, true, target, path, shape.rest, sep, vals + [path[next..sep]])
    ensures fits && i == |m.paramNames| ==>
              && i + 1 == |m.staticFragments| && target.1 == vals
              && (target.0 <==> next >= |path|)
  {
    fits := Compare(path, start, m.staticFragments[i]);
    next := start + |m.staticFragments[i]|;
    if i == |m.paramNames| {
      TailDone(m, i, after, target, path, shape, at, vals);
    } else if fits {
      ParamDone(m, i, after, target, path, shape, at, vals, next);
    } else {
      ParamFails(m, i, after, target, path, shape, at, vals);
    }
  }

  lemma TailHere(m: Matcher, i: nat, after: bool, target: (bool, seq<string>), path: string, shape: Shape, at: nat, vals: seq<string>)
    requires AtFragment(m, i, after, target, path, shape, at, vals) && i == |m.paramNames| && i < |m.staticFragments|
    ensures shape.End? && shape.tail != "" && (after ==> shape.tail[0] == '/')
    ensures i + 1 == |m.staticFragments| && Fragments(shape, after) == [m.staticFragments[i]]
    ensures m.staticFragments[i] == if after then shape.tail[1..] else shape.tail
  {
    assert shape.End?;
    assert m.staticFragments[i..][0] == m.staticFragments[i];
  }
}
