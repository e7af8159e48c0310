/** `base64_encode`: a streaming encoder, against the grouping of section 4 of RFC 4648. */
module Base64 {
  import opened Wrappers
  import opened Text

  // ---- the alphabet ----

  function Lookup(v: nat): (c: char)
    requires v < 64
  {
    if v < 26 then ('A' as int + v) as char
    else if v < 52 then ('a' as int + v - 26) as char
    else if v < 62 then ('0' as int + v - 52) as char
    else if v == 62 then '+' else '/'
  }

  function Value(c: char): (v: int)
    ensures -1 <= v < 64
  {
    if 'A' <= c <= 'Z' then c as int - 'A' as int
    else if 'a' <= c <= 'z' then c as int - 'a' as int + 26
    else if '0' <= c <= '9' then c as int - '0' as int + 52
    else if c == '+' then 62 else if c == '/' then 63 else -1
  }

  lemma LookupValue(v: nat)
    requires v < 64
    ensures Value(Lookup(v)) == v && Lookup(v) != '='
  {}

  lemma ValueLookup(c: char)
    requires Value(c) >= 0
    ensures Lookup(Value(c)) == c && c != '='
  {}

  // ---- division by the constants of the encoding ----

  lemma D4(x: int, q: int, r: int)
    requires x == 4 * q + r && 0 <= r < 4
    ensures x / 4 == q && x % 4 == r
  {}

  lemma D16(x: int, q: int, r: int)
    requires x == 16 * q + r && 0 <= r < 16
    ensures x / 16 == q && x % 16 == r
  {}

  lemma D64(x: int, q: int, r: int)
    requires x == 64 * q + r && 0 <= r < 64
    ensures x / 64 == q && x % 64 == r
  {}

  lemma D4096(x: int, q: int, r: int)
    requires x == 4096 * q + r && 0 <= r < 4096
    ensures x / 4096 == q && x % 4096 == r
  {}

  lemma D3(x: int, q: int, r: int)
    requires x == 3 * q + r && 0 <= r < 3
    ensures x / 3 == q && x % 3 == r
  {}

  // ---- the encoding, three bytes at a time ----

  function Byte(s: string, i: nat): (b: nat)
    requires IsBytes(s)
    ensures b < 256
  {
    if i < |s| then s[i] as int else 0
  }

  /** The four characters for the group of bytes at `k`, of which there may be one, two or three. */
  function First(s: string, k: nat): char requires IsBytes(s) { Lookup(Byte(s, k) / 4) }

  function Second(s: string, k: nat): char
    requires IsBytes(s)
  {
    Lookup(Byte(s, k) % 4 * 16 + Byte(s, k + 1) / 16)
  }

  function Third(s: string, k: nat): char
    requires IsBytes(s)
  {
    if k + 1 < |s| then Lookup(Byte(s, k + 1) % 16 * 4 + Byte(s, k + 2) / 64) else '='
  }

  function Fourth(s: string, k: nat): char
    requires IsBytes(s)
  {
    if k + 2 < |s| then Lookup(Byte(s, k + 2) % 64) else '='
  }

  function Group(s: string, k: nat): (g: string)
    requires IsBytes(s) && k < |s|
    ensures |g| == 4
  {
    [First(s, k), Second(s, k), Third(s, k), Fourth(s, k)]
  }

  /** The encoding of the bytes from `k` on. */
  function EncodeFrom(s: string, k: nat): string
    requires IsBytes(s)
    decreases |s| - k
  {
    if k >= |s| then "" else Group(s, k) + EncodeFrom(s, k + 3)
  }

  function Encode(s: string): string
    requires IsBytes(s)
  {
    EncodeFrom(s, 0)
  }

  lemma {:induction false} LengthFrom(s: string, k: nat)
    requires IsBytes(s) && k <= |s|
    ensures |EncodeFrom(s, k)| == (|s| - k + 2) / 3 * 4
    decreases |s| - k
  {
    var n := |s| - k;
    if n >= 3 {
      LengthFrom(s, k + 3);
      D3(n + 2, (n - 1) / 3 + 1, (n - 1) % 3);
    } else if n > 0 {
      assert EncodeFrom(s, k + 3) == "";
      D3(n + 2, 1, n - 1);
    }
  }

  /** Four characters for every three bytes begun. */
  lemma EncodedLength(s: string)
    requires IsBytes(s)
    ensures |Encode(s)| == (|s| + 2) / 3 * 4
  {
    LengthFrom(s, 0);
  }

  // ---- a strict decoder, as section 4 of RFC 4648 describes it ----

  /** The bytes of one group of four characters; a group with padding must be the last, and its unused
      bits zero. */
  function DecodeGroup(g: string, last: bool): Option<string>
    requires |g| == 4
  {
    var a, b, c, d := Value(g[0]), Value(g[1]), Value(g[2]), Value(g[3]);
    if a < 0 || b < 0 then None
    else if c >= 0 && d >= 0 then
      Some([(a * 4 + b / 16) as char, (b % 16 * 16 + c / 4) as char, (c % 4 * 64 + d) as char])
    else if last && c >= 0 && g[3] == '=' && c % 4 == 0 then
      Some([(a * 4 + b / 16) as char, (b % 16 * 16 + c / 4) as char])
    else if last && g[2] == '=' && g[3] == '=' && b % 16 == 0 then
      Some([(a * 4 + b / 16) as char])
    else None
  }

  function Decode(t: string): Option<string> {
    if t == "" then Some("")
    else if |t| < 4 then None
    else
      match (DecodeGroup(t[..4], |t| == 4), Decode(t[4..]))
      case (Some(g), Some(rest)) => Some(g + rest)
      case _ => None
  }

  lemma Sixes(a: nat, b: nat, c: nat)
    requires a < 256 && b < 256 && c < 256
    ensures a / 4 * 4 + (a % 4 * 16 + b / 16) / 16 == a
    ensures (a % 4 * 16 + b / 16) % 16 * 16 + (b % 16 * 4 + c / 64) / 4 == b
    ensures (b % 16 * 4 + c / 64) % 4 * 64 + c % 64 == c
  {
    D16(a % 4 * 16 + b / 16, a % 4, b / 16);
    D4(b % 16 * 4 + c / 64, b % 16, c / 64);
  }

  lemma ThreeBytes(a: nat, b: nat, c: nat, last: bool)
    requires a < 256 && b < 256 && c < 256
    ensures DecodeGroup([Lookup(a / 4), Lookup(a % 4 * 16 + b / 16), Lookup(b % 16 * 4 + c / 64), Lookup(c % 64)], last)
         == Some([a as char, b as char, c as char])
  {
    LookupValue(a / 4);
    LookupValue(a % 4 * 16 + b / 16);
    LookupValue(b % 16 * 4 + c / 64);
    LookupValue(c % 64);
    Sixes(a, b, c);
  }

  lemma TwoBytes(a: nat, b: nat)
    requires a < 256 && b < 256
    ensures DecodeGroup([Lookup(a / 4), Lookup(a % 4 * 16 + b / 16), Lookup(b % 16 * 4), '='], true)
         == Some([a as char, b as char])
  {
    LookupValue(a / 4);
    LookupValue(a % 4 * 16 + b / 16);
    LookupValue(b % 16 * 4);
    Sixes(a, b, 0);
  }

  lemma OneByte(a: nat)
    requires a < 256
    ensures DecodeGroup([Lookup(a / 4), Lookup(a % 4 * 16), '=', '='], true) == Some([a as char])
  {
    LookupValue(a / 4);
    LookupValue(a % 4 * 16);
    Sixes(a, 0, 0);
  }

  lemma FullGroup(s: string, k: nat)
    requires IsBytes(s) && k + 2 < |s|
    ensures DecodeGroup(Group(s, k), k + 3 >= |s|) == Some([s[k], s[k + 1], s[k + 2]])
  {
    ThreeBytes(Byte(s, k), Byte(s, k + 1), Byte(s, k + 2), k + 3 >= |s|);
  }

  lemma PairGroup(s: string, k: nat)
    requires IsBytes(s) && k + 2 == |s|
    ensures DecodeGroup(Group(s, k), true) == Some([s[k], s[k + 1]])
  {
    PairIs(s, k);
    TwoBytes(Byte(s, k), Byte(s, k + 1));
  }

  lemma PairIs(s: string, k: nat)
    requires IsBytes(s) && k + 2 == |s|
    ensures Group(s, k) == [Lookup(Byte(s, k) / 4), Lookup(Byte(s, k) % 4 * 16 + Byte(s, k + 1) / 16),
                            Lookup(Byte(s, k + 1) % 16 * 4), '=']
  {}

  lemma SingleGroup(s: string, k: nat)
    requires IsBytes(s) && k + 1 == |s|
    ensures DecodeGroup(Group(s, k), true) == Some([s[k]])
  {
    OneByte(Byte(s, k));
  }

  lemma GroupRoundTrip(s: string, k: nat)
    requires IsBytes(s) && k < |s|
    ensures DecodeGroup(Group(s, k), k + 3 >= |s|) == Some(s[k..Min(|s|, k + 3)])
  {
    var g := s[k..Min(|s|, k + 3)];
    if k + 2 < |s| {
      FullGroup(s, k);
      assert g == [s[k], s[k + 1], s[k + 2]];
    } else if k + 1 < |s| {
      PairGroup(s, k);
      assert g == [s[k], s[k + 1]];
    } else {
      SingleGroup(s, k);
      assert g == [s[k]];
    }
  }

  lemma DecodeCons(g: string, rest: string, g8: string, rest8: string)
    requires |g| == 4 && DecodeGroup(g, rest == "") == Some(g8) && Decode(rest) == Some(rest8)
    ensures Decode(g + rest) == Some(g8 + rest8)
  {
    assert (g + rest)[..4] == g && (g + rest)[4..] == rest;
  }

  lemma EncodeStep(s: string, k: nat)
    requires IsBytes(s) && k < |s|
    ensures EncodeFrom(s, k) == Group(s, k) + EncodeFrom(s, Min(|s|, k + 3))
    ensures EncodeFrom(s, Min(|s|, k + 3)) == "" <==> k + 3 >= |s|
  {
    LengthFrom(s, Min(|s|, k + 3));
  }

  lemma Rejoin(s: string, k: nat, end: nat)
    requires k <= end <= |s|
    ensures s[k..end] + s[end..] == s[k..]
  {}

  lemma {:induction false} DecodeFrom(s: string, k: nat)
    requires IsBytes(s) && k <= |s|
    ensures Decode(EncodeFrom(s, k)) == Some(s[k..])
    decreases |s| - k
  {
    if k < |s| {
      var end := Min(|s|, k + 3);
      GroupRoundTrip(s, k);
      DecodeFrom(s, end);
      EncodeStep(s, k);
      var g, rest := s[k..end], s[end..];
      DecodeCons(Group(s, k), EncodeFrom(s, end), g, rest);
      Rejoin(s, k, end);
      assert Decode(EncodeFrom(s, k)) == Some(g + rest);
    } else {
      assert s[k..] == "";
    }
  }

  /** Decoding gives back the bytes that were encoded. */
  lemma DecodeEncode(s: string)
    requires IsBytes(s)
    ensures Decode(Encode(s)) == Some(s)
  {
    DecodeFrom(s, 0);
    assert s[0..] == s;
  }

  lemma Eights(a: nat, b: nat, c: nat, d: nat)
    requires a < 64 && b < 64 && c < 64 && d < 64
    ensures var x, y, z := a * 4 + b / 16, b % 16 * 16 + c / 4, c % 4 * 64 + d;
            && x < 256 && y < 256 && z < 256
            && x / 4 == a && x % 4 * 16 + y / 16 == b && y % 16 * 4 + z / 64 == c && z % 64 == d
  {
    var x, y, z := a * 4 + b / 16, b % 16 * 16 + c / 4, c % 4 * 64 + d;
    D4(x, a, b / 16);
    D16(y, b % 16, c / 4);
    D64(z, c % 4, d);
  }

  predicate Encodes(b: string, g: string, last: bool) {
    IsBytes(b) && 1 <= |b| <= 3 && (!last ==> |b| == 3) && Group(b, 0) == g
  }

  lemma GroupIsEncoding(g: string, last: bool)
    requires |g| == 4 && DecodeGroup(g, last).Some?
    ensures Encodes(DecodeGroup(g, last).value, g, last)
  {
    assert g == [g[0], g[1], g[2], g[3]];
    if Value(g[2]) >= 0 && Value(g[3]) >= 0 {
      FullDecoded(g[0], g[1], g[2], g[3], last);
    } else if Value(g[2]) >= 0 {
      PairDecoded(g[0], g[1], g[2]);
    } else {
      SingleDecoded(g[0], g[1]);
    }
  }

  lemma FullDecoded(p: char, q: char, r: char, t: char, last: bool)
    requires Value(p) >= 0 && Value(q) >= 0 && Value(r) >= 0 && Value(t) >= 0
    ensures var g := [p, q, r, t]; DecodeGroup(g, last).Some? && Encodes(DecodeGroup(g, last).value, g, last)
  {
    FullIsEncoding(p, q, r, t);
  }

  lemma PairDecoded(p: char, q: char, r: char)
    requires Value(p) >= 0 && Value(q) >= 0 && Value(r) >= 0 && Value(r) % 4 == 0
    ensures var g := [p, q, r, '=']; DecodeGroup(g, true).Some? && Encodes(DecodeGroup(g, true).value, g, true)
  {
    PairIsEncoding(p, q, r);
  }

  lemma SingleDecoded(p: char, q: char)
    requires Value(p) >= 0 && Value(q) >= 0 && Value(q) % 16 == 0
    ensures var g := [p, q, '=', '=']; DecodeGroup(g, true).Some? && Encodes(DecodeGroup(g, true).value, g, true)
  {
    SingleIsEncoding(p, q);
  }

  lemma FullIsEncoding(p: char, q: char, r: char, t: char)
    requires Value(p) >= 0 && Value(q) >= 0 && Value(r) >= 0 && Value(t) >= 0
    ensures var a, b, c, d := Value(p), Value(q), Value(r), Value(t);
            && a * 4 + b / 16 < 256 && b % 16 * 16 + c / 4 < 256 && c % 4 * 64 + d < 256
            && Encodes([(a * 4 + b / 16) as char, (b % 16 * 16 + c / 4) as char, (c % 4 * 64 + d) as char], [p, q, r, t], false)
  {
    ValueLookup(p);
    ValueLookup(q);
    ValueLookup(r);
    ValueLookup(t);
    Eights(Value(p), Value(q), Value(r), Value(t));
  }

  lemma PairIsEncoding(p: char, q: char, r: char)
    requires Value(p) >= 0 && Value(q) >= 0 && Value(r) >= 0 && Value(r) % 4 == 0
    ensures var a, b, c := Value(p), Value(q), Value(r);
            && a * 4 + b / 16 < 256 && b % 16 * 16 + c / 4 < 256
            && Encodes([(a * 4 + b / 16) as char, (b % 16 * 16 + c / 4) as char], [p, q, r, '='], true)
  {
    ValueLookup(p);
    ValueLookup(q);
    ValueLookup(r);
    Eights(Value(p), Value(q), Value(r), 0);
  }

  lemma SingleIsEncoding(p: char, q: char)
    requires Value(p) >= 0 && Value(q) >= 0 && Value(q) % 16 == 0
    ensures var a, b := Value(p), Value(q);
            a * 4 + b / 16 < 256 && Encodes([(a * 4 + b / 16) as char], [p, q, '=', '='], true)
  {
    ValueLookup(p);
    ValueLookup(q);
    Eights(Value(p), Value(q), 0, 0);
  }

  lemma ByteShift(g: string, rest: string, k: nat)
    requires |g| == 3 && IsBytes(g) && IsBytes(rest)
    ensures IsBytes(g + rest) && Byte(g + rest, k + 3) == Byte(rest, k)
  {}

  lemma GroupShift(g: string, rest: string, k: nat)
    requires |g| == 3 && IsBytes(g) && IsBytes(rest) && k < |rest|
    ensures IsBytes(g + rest) && Group(g + rest, k + 3) == Group(rest, k)
  {
    ByteShift(g, rest, k);
    ByteShift(g, rest, k + 1);
    ByteShift(g, rest, k + 2);
  }

  lemma {:induction false} ShiftFrom(g: string, rest: string, k: nat)
    requires |g| == 3 && IsBytes(g) && IsBytes(rest)
    ensures IsBytes(g + rest) && EncodeFrom(g + rest, k + 3) == EncodeFrom(rest, k)
    decreases |rest| - k
  {
    ByteShift(g, rest, k);
    if k < |rest| {
      ShiftFrom(g, rest, k + 3);
      GroupShift(g, rest, k);
    }
  }

  lemma EncodeLast(g: string)
    requires IsBytes(g) && 1 <= |g| <= 3
    ensures Encode(g) == Group(g, 0)
  {
    assert EncodeFrom(g, 3) == "";
    assert Group(g, 0) + "" == Group(g, 0);
  }

  lemma SameGroup(g: string, rest: string)
    requires |g| == 3 && IsBytes(g) && IsBytes(rest)
    ensures IsBytes(g + rest) && Group(g + rest, 0) == Group(g, 0)
  {}

  lemma EncodeCons(g: string, rest: string)
    requires IsBytes(g) && IsBytes(rest) && (|g| == 3 || (1 <= |g| < 3 && rest == ""))
    ensures IsBytes(g + rest) && Encode(g + rest) == Group(g, 0) + Encode(rest)
  {
    if rest == "" {
      EncodeLast(g);
      assert g + rest == g && Group(g, 0) + "" == Group(g, 0);
    } else {
      ShiftFrom(g, rest, 0);
      SameGroup(g, rest);
    }
  }

  /** Nothing but an encoding decodes: with `DecodeEncode`, the two are inverse to each other. */
  lemma {:induction false} EncodeDecode(t: string)
    requires Decode(t).Some?
    ensures IsBytes(Decode(t).value) && Encode(Decode(t).value) == t
  {
    if t != "" {
      var last := |t| == 4;
      var g, rest := DecodeGroup(t[..4], last).value, Decode(t[4..]).value;
      GroupIsEncoding(t[..4], last);
      EncodeDecode(t[4..]);
      assert t == t[..4] + t[4..];
      EncodeCons(g, rest);
    }
  }

  // ---- the streaming encoder ----

  /** Two's complement reduction to 32 bits. */
  function Wrap32(x: int): int { (x + 0x8000_0000) % 0x1_0000_0000 - 0x8000_0000 }

  function Unbounded(x: int): int { x }

  /** An accumulator that keeps at least the low twelve bits. */
  ghost predicate KeepsLowBits(narrow: int -> int) { forall x :: narrow(x) % 4096 == x % 4096 }

  /** 32 wrapped bits serve as well as unbounded integers. */
  lemma WideEnough()
    ensures KeepsLowBits(Wrap32) && KeepsLowBits(Unbounded)
  {
    forall x ensures Wrap32(x) % 4096 == x % 4096 {
      var y := x + 0x8000_0000;
      var w := y % 0x1_0000_0000;
      assert y == 0x1_0000_0000 * (y / 0x1_0000_0000) + w;
      D4096(w - 0x8000_0000, w / 4096 - 0x8_0000, w % 4096);
      D4096(x, 0x10_0000 * (y / 0x1_0000_0000) + w / 4096 - 0x8_0000, w % 4096);
    }
  }

  lemma Pushed(v: int, c: nat)
    requires c < 256
    ensures (v * 256 + c) % 4096 == v % 16 * 256 + c
  {
    D4096(v * 256 + c, v / 16, v % 16 * 256 + c);
  }

  lemma Kept(v: int, p: nat, c: nat)
    requires v % 4096 == p * 256 + c
    ensures v % 16 == c % 16
  {
    D16(v, 256 * (v / 4096) + 16 * p + c / 16, c % 16);
  }

  lemma HighDigit(v: int, p: nat, c: nat)
    requires v % 4096 == p * 256 + c && p < 16 && c < 256
    ensures v / 64 % 64 == p * 4 + c / 64
  {
    D64(v, 64 * (v / 4096) + p * 4 + c / 64, c % 64);
    D64(64 * (v / 4096) + p * 4 + c / 64, v / 4096, p * 4 + c / 64);
  }

  lemma MiddleDigit(v: int, p: nat, c: nat)
    requires v % 4096 == p * 256 + c && p < 16 && c < 256
    ensures v / 16 % 64 == p % 4 * 16 + c / 16
  {
    D16(v, 256 * (v / 4096) + p * 16 + c / 16, c % 16);
    D64(256 * (v / 4096) + p * 16 + c / 16, 4 * (v / 4096) + p / 4, p % 4 * 16 + c / 16);
  }

  lemma LowDigit(v: int, p: nat, c: nat)
    requires v % 4096 == p * 256 + c && p < 16 && c < 256
    ensures v / 4 % 64 == c / 4
  {
    D4(v, 1024 * (v / 4096) + p * 64 + c / 4, c % 4);
    D64(1024 * (v / 4096) + p * 64 + c / 4, 16 * (v / 4096) + p, c / 4);
  }

  lemma LastDigit(v: int, p: nat, c: nat)
    requires v % 4096 == p * 256 + c && p < 16 && c < 256
    ensures v % 64 == c % 64
  {
    D64(v, 64 * (v / 4096) + p * 4 + c / 64, c % 64);
  }

  lemma Nibble(b: nat)
    ensures b % 16 % 4 == b % 4
  {
    D4(b, 4 * (b / 16) + b % 16 / 4, b % 16 % 4);
  }

  function Phase(i: nat): int { if i % 3 == 0 then -6 else if i % 3 == 1 then -4 else -2 }

  /** After `i` bytes the accumulator ends in the bits not yet sent, which are among the last four read. */
  predicate Pending(s: string, i: nat, val: int, valb: int)
    requires IsBytes(s) && i <= |s|
  {
    valb == Phase(i) && (i > 0 ==> val % 16 == Byte(s, i - 1) % 16)
  }

  /** The characters still to come when `i` bytes have been read. */
  function Owed(s: string, i: nat): string
    requires IsBytes(s) && i <= |s|
  {
    if i % 3 == 0 then EncodeFrom(s, i)
    else if i % 3 == 1 then [Second(s, i - 1), Third(s, i - 1), Fourth(s, i - 1)] + EncodeFrom(s, i + 2)
    else [Third(s, i - 2), Fourth(s, i - 2)] + EncodeFrom(s, i + 1)
  }

  /** The characters one byte releases from the accumulator. */
  function Released(s: string, i: nat): string
    requires IsBytes(s) && i < |s|
  {
    if i % 3 == 0 then [First(s, i)]
    else if i % 3 == 1 then [Second(s, i - 1)]
    else [Third(s, i - 2), Fourth(s, i - 2)]
  }

  lemma OwedStep(s: string, i: nat)
    requires IsBytes(s) && i < |s|
    ensures Owed(s, i) == Released(s, i) + Owed(s, i + 1)
  {
    if i % 3 == 0 {
      D3(i + 1, i / 3, 1);
      FirstOwed(s, i);
    } else if i % 3 == 1 {
      D3(i + 1, i / 3, 2);
      SecondOwed(s, i);
    } else {
      D3(i + 1, i / 3 + 1, 0);
    }
  }

  lemma FirstOwed(s: string, i: nat)
    requires IsBytes(s) && i < |s| && i % 3 == 0 && (i + 1) % 3 == 1
    ensures Owed(s, i) == Released(s, i) + Owed(s, i + 1)
  {
    FourJoin(First(s, i), Second(s, i), Third(s, i), Fourth(s, i), EncodeFrom(s, i + 3));
  }

  lemma SecondOwed(s: string, i: nat)
    requires IsBytes(s) && i < |s| && i % 3 == 1 && (i + 1) % 3 == 2
    ensures Owed(s, i) == Released(s, i) + Owed(s, i + 1)
  {
    ThreeJoin(Second(s, i - 1), Third(s, i - 1), Fourth(s, i - 1), EncodeFrom(s, i + 2));
  }

  /** After the last byte only the last bits and the padding are owed. */
  lemma OwedAtEnd(s: string)
    requires IsBytes(s)
    ensures Owed(s, |s|) == if |s| % 3 == 0 then Padding(0)
                            else if |s| % 3 == 1 then [Second(s, |s| - 1)] + Padding(2)
                            else [Third(s, |s| - 2)] + Padding(1)
  {
    assert EncodeFrom(s, |s|) == EncodeFrom(s, |s| + 1) == EncodeFrom(s, |s| + 2) == "";
  }

  lemma FourJoin(a: char, b: char, c: char, d: char, rest: string)
    ensures [a, b, c, d] + rest == [a] + ([b, c, d] + rest)
  {}

  lemma ThreeJoin(b: char, c: char, d: char, rest: string)
    ensures [b, c, d] + rest == [b] + ([c, d] + rest)
  {}

  /** One pass of the outer loop. */
  method ReadByte(s: string, i: nat, val0: int, valb0: int, narrow: int -> int) returns (out: string, val: int, valb: int)
    requires IsBytes(s) && i < |s| && KeepsLowBits(narrow) && Pending(s, i, val0, valb0)
    ensures out == Released(s, i) && Pending(s, i + 1, val, valb)
  {
    var c := s[i] as int;
    val := narrow(val0 * 256 + c);
    Pushed(val0, c);
    Kept(val, val0 % 16, c);
    out, valb := Drain(val, valb0 + 8, val0 % 16, c);
    ReleasedNow(s, i, val0 % 16);
    PhaseNext(i);
  }

  /** What is released, from the pending bits `p` and the byte read. */
  lemma ReleasedNow(s: string, i: nat, p: nat)
    requires IsBytes(s) && i < |s| && (i > 0 ==> p == Byte(s, i - 1) % 16)
    ensures var c := s[i] as int;
            Released(s, i) == if i % 3 == 0 then [Lookup(c / 4)]
                              else if i % 3 == 1 then [Lookup(p % 4 * 16 + c / 16)]
                              else [Lookup(p * 4 + c / 64), Lookup(c % 64)]
  {
    assert Byte(s, i) == s[i] as int;
    if i % 3 == 1 { Nibble(Byte(s, i - 1)); }
  }

  lemma PhaseNext(i: nat)
    ensures Phase(i + 1) == if Phase(i) == -6 then -4 else if Phase(i) == -4 then -2 else -6
  {}

  function Shift(valb: nat): nat
    requires valb in {0, 2, 4, 6}
    ensures Shift(valb) > 0
  {
    if valb == 0 then 1 else if valb == 2 then 4 else if valb == 4 then 16 else 64
  }

  /** The inner loop: six bits at a time while there are six. */
  method Drain(val: int, valb0: int, ghost p: nat, ghost c: nat) returns (out: string, valb: int)
    requires valb0 in {2, 4, 6} && p < 16 && c < 256 && val % 4096 == p * 256 + c
    ensures valb0 == 2 ==> valb == -4 && out == [Lookup(c / 4)]
    ensures valb0 == 4 ==> valb == -2 && out == [Lookup(p % 4 * 16 + c / 16)]
    ensures valb0 == 6 ==> valb == -6 && out == [Lookup(p * 4 + c / 64), Lookup(c % 64)]
  {
    HighDigit(val, p, c);
    MiddleDigit(val, p, c);
    LowDigit(val, p, c);
    LastDigit(val, p, c);
    out, valb := "", valb0;
    while valb >= 0
      invariant valb in {valb0, valb0 - 6, valb0 - 12} && (valb == valb0 - 12 ==> valb0 == 6)
      invariant valb == valb0 ==> out == ""
      invariant valb == valb0 - 6 ==> out == [Lookup(val / Shift(valb0) % 64)]
      invariant valb == valb0 - 12 ==> out == [Lookup(val / Shift(valb0) % 64), Lookup(val % 64)]
    {
      out := out + [Lookup(val / Shift(valb) % 64)];
      valb := valb - 6;
    }
  }

  /** The encoder, on any accumulator wide enough. */
  method Base64Encode(s: string, narrow: int -> int) returns (out: string)
    requires IsBytes(s) && KeepsLowBits(narrow)
    ensures out == Encode(s)
  {
    out := "";
    var val, valb := 0, -6;
    for i := 0 to |s|
      invariant Pending(s, i, val, valb) && out + Owed(s, i) == Encode(s)
    {
      OwedStep(s, i);
      var more: string;
      more, val, valb := ReadByte(s, i, val, valb, narrow);
      Associative(out, more, Owed(s, i + 1));
      out := out + more;
    }
    OwedAtEnd(s);
    ghost var pad := if valb == -6 then 0 else if valb == -4 then 2 else 1;
    if valb > -6 {
      var digit := LastBits(s, val, valb, narrow);
      Associative(out, [digit], Padding(pad));
      out := out + [digit];
    }
    assert out + Padding(pad) == Encode(s);
    out := Pad(s, out);
  }

  method LastBits(s: string, val: int, valb: int, narrow: int -> int) returns (digit: char)
    requires IsBytes(s) && KeepsLowBits(narrow) && Pending(s, |s|, val, valb) && valb > -6
    ensures digit == if valb == -4 then Second(s, |s| - 1) else Third(s, |s| - 2)
  {
    var wide := narrow(val * 256);
    Pushed(val, 0);
    HighDigit(wide, val % 16, 0);
    MiddleDigit(wide, val % 16, 0);
    Nibble(Byte(s, |s| - 1));
    digit := Lookup(wide / Shift(valb + 8) % 64);
  }

  /** All characters are out but the padding. */
  ghost predicate AllSent(s: string, out: string)
    requires IsBytes(s)
  {
    exists pad: nat :: pad < 4 && out + Padding(pad) == Encode(s)
  }

  function Padding(n: nat): string { seq(n, _ => '=') }

  method Pad(s: string, out0: string) returns (out: string)
    requires IsBytes(s) && AllSent(s, out0)
    ensures out == Encode(s)
  {
    out := out0;
    EncodedLength(s);
    ghost var pad: nat :| pad < 4 && out + Padding(pad) == Encode(s);
    while |out| % 4 != 0
      invariant pad < 4 && out + Padding(pad) == Encode(s)
      decreases pad
    {
      assert Padding(pad) == "=" + Padding(pad - 1);
      Associative(out, "=", Padding(pad - 1));
      out := out + "=";
      pad := pad - 1;
    }
  }

  method Encode32(s: string) returns (out: string)
    requires IsBytes(s)
    ensures out == Encode(s)
  {
    WideEnough();
    out := Base64Encode(s, Wrap32);
  }
}
