/** Percent-encoding: `decode_path`, `encode_uri_component` and the hexadecimal helpers. */
module Uri {
  import opened Wrappers
  import opened Text

  // ---- hexadecimal ----

  predicate IsHex(c: char) {
    '0' <= c <= '9' || 'A' <= c <= 'F' || 'a' <= c <= 'f'
  }

  function HexValue(c: char): (v: nat)
    requires IsHex(c)
    ensures v < 16
  {
    if c <= '9' then c as int - '0' as int
    else if c <= 'F' then c as int - 'A' as int + 10
    else c as int - 'a' as int + 10
  }

  function UpperHex(v: nat): (c: char)
    requires v < 16
    ensures IsHex(c) && HexValue(c) == v && !('a' <= c <= 'z')
  {
    if v < 10 then ('0' as int + v) as char else ('A' as int + v - 10) as char
  }

  function LowerHex(v: nat): (c: char)
    requires v < 16
    ensures IsHex(c) && HexValue(c) == v
  {
    if v < 10 then ('0' as int + v) as char else ('a' as int + v - 10) as char
  }

  /** `from_i_to_hex`: the shortest lower-case hexadecimal numeral. */
  function ToHex(n: nat): (s: string)
    ensures s != "" && forall i | 0 <= i < |s| :: IsHex(s[i])
  {
    if n < 16 then [LowerHex(n)] else ToHex(n / 16) + [LowerHex(n % 16)]
  }

  /** The number a run of hexadecimal digits denotes, most significant first. */
  function HexNumber(s: string): nat
    requires forall i | 0 <= i < |s| :: IsHex(s[i])
  {
    if s == "" then 0 else HexNumber(s[..|s| - 1]) * 16 + HexValue(s[|s| - 1])
  }

  /** Printing then reading a number in hexadecimal gives it back. */
  lemma {:induction false} HexRoundTrip(n: nat)
    ensures HexNumber(ToHex(n)) == n
  {
    if n < 16 {
      assert HexNumber("") == 0;
    } else {
      HexRoundTrip(n / 16);
      assert ToHex(n)[..|ToHex(n)| - 1] == ToHex(n / 16);
    }
  }

  method FromIntToHex(n0: nat) returns (ret: string)
    ensures ret == ToHex(n0)
  {
    var n := n0;
    ret := [LowerHex(n % 16)];
    n := n / 16;
    while n > 0
      invariant ToHex(n0) == if n == 0 then ret else ToHex(n) + ret
    {
      var d := [LowerHex(n % 16)];
      if n >= 16 { Associative(ToHex(n / 16), d, ret); }
      ret := d + ret;
      n := n / 16;
    }
  }

  /** `from_hex_to_i` on the `count` bytes that start `s`. */
  function HexPrefix(s: string, count: nat): Option<nat> {
    if count <= |s| && forall i | 0 <= i < count :: IsHex(s[i]) then Some(HexNumber(s[..count])) else None
  }

  lemma HexPrefixPair(a: char, b: char, rest: string)
    requires IsHex(a) && IsHex(b)
    ensures HexPrefix([a, b] + rest, 2) == Some(HexValue(a) * 16 + HexValue(b))
  {
    var s := [a, b] + rest;
    assert s[..2] == [a, b];
    assert [a, b][..1] == [a];
    assert [a][..0] == "";
    assert HexNumber("") == 0;
    assert HexNumber([a]) == HexValue(a);
  }

  method FromHexToInt(s: string, start: nat, count: nat) returns (r: Option<nat>)
    requires start <= |s| && count > 0
    ensures r == HexPrefix(s[start..], count)
  {
    var val, k := 0, 0;
    var t := s[start..];
    while k < count
      invariant 0 <= k <= count && k <= |t|
      invariant forall i | 0 <= i < k :: IsHex(t[i])
      invariant val == HexNumber(t[..k])
    {
      if start + k == |s| { return None; }
      if !IsHex(s[start + k]) { assert !IsHex(t[k]); return None; }
      assert t[..k + 1][..k] == t[..k];
      val := val * 16 + HexValue(s[start + k]);
      k := k + 1;
    }
    r := Some(val);
  }

  // ---- UTF-8 of a four-digit escape ----

  function Byte(n: int): char requires 0 <= n < 256 { n as char }

  /** `to_utf8` for a code below 0x10000; the surrogate range has no encoding. */
  function ToUtf8(code: nat): string
    requires code < 0x10000
  {
    if code < 0x80 then [Byte(code)]
    else if code < 0x800 then [Byte(0xC0 + code / 64), Byte(0x80 + code % 64)]
    else if 0xD800 <= code < 0xE000 then ""
    else [Byte(0xE0 + code / 4096), Byte(0x80 + code / 64 % 64), Byte(0x80 + code % 64)]
  }

  lemma {:induction false} HexNumberBound(s: string, n: nat)
    requires forall i | 0 <= i < |s| :: IsHex(s[i])
    requires |s| == n <= 4
    ensures HexNumber(s) < if n == 0 then 1 else if n == 1 then 16 else if n == 2 then 256 else if n == 3 then 4096 else 65536
  {
    if n > 0 { HexNumberBound(s[..n - 1], n - 1); }
  }

  // ---- decode_path ----

  /** The bytes one decoding step consumes, and what it appends. */
  function DecodeStep(s: string, plus: bool): (r: (nat, string))
    requires s != ""
    ensures 1 <= r.0 <= |s|
  {
    if s[0] == '%' && 1 < |s| then
      if s[1] == 'u' then
        match HexPrefix(s[2..], 4)
        case Some(v) => HexNumberBound(s[2..][..4], 4); (6, ToUtf8(v))
        case None => (1, "%")
      else
        match HexPrefix(s[1..], 2)
        case Some(v) => HexNumberBound(s[1..][..2], 2); (3, [Byte(v)])
        case None => (1, "%")
    else if plus && s[0] == '+' then (1, " ")
    else (1, [s[0]])
  }

  function DecodePath(s: string, plus: bool): string
    decreases |s|
  {
    if s == "" then "" else
      var (n, out) := DecodeStep(s, plus);
      out + DecodePath(s[n..], plus)
  }

  /** Decoding never lengthens. */
  lemma {:induction false} DecodeShrinks(s: string, plus: bool)
    ensures |DecodePath(s, plus)| <= |s|
    decreases |s|
  {
    if s != "" { DecodeShrinks(s[DecodeStep(s, plus).0..], plus); }
  }

  method DecodePathText(s: string, plus: bool) returns (result: string)
    ensures result == DecodePath(s, plus)
  {
    result := "";
    var i := 0;
    assert s[0..] == s;
    while i < |s|
      invariant 0 <= i <= |s|
      invariant result + DecodePath(s[i..], plus) == DecodePath(s, plus)
    {
      result, i := DecodeRound(result, s, i, plus);
    }
  }

  /** One round of the loop. */
  method DecodeRound(result: string, s: string, i: nat, plus: bool) returns (longer: string, next: nat)
    requires i < |s|
    ensures i < next <= |s| && longer + DecodePath(s[next..], plus) == result + DecodePath(s[i..], plus)
  {
    var n, out := DecodeOne(s, i, plus);
    DecodeNext(result, s, i, n, out, plus);
    longer, next := result + out, i + n;
  }

  lemma DecodeNext(result: string, s: string, i: nat, n: nat, out: string, plus: bool)
    requires i < |s| && (n, out) == DecodeStep(s[i..], plus)
    ensures i + n <= |s|
    ensures result + out + DecodePath(s[i + n..], plus) == result + DecodePath(s[i..], plus)
  {
    assert s[i..][n..] == s[i + n..];
    Associative(result, out, DecodePath(s[i + n..], plus));
  }

  method DecodeOne(s: string, i: nat, plus: bool) returns (n: nat, out: string)
    requires i < |s|
    ensures (n, out) == DecodeStep(s[i..], plus)
  {
    var t := s[i..];
    if s[i] == '%' && i + 1 < |s| {
      if s[i + 1] == 'u' {
        assert t[2..] == s[i + 2..];
        var val := FromHexToInt(s, i + 2, 4);
        if val.Some? {
          HexNumberBound(t[2..][..4], 4);
          return 6, ToUtf8(val.value);
        }
        return 1, "%";
      }
      assert t[1..] == s[i + 1..];
      var val := FromHexToInt(s, i + 1, 2);
      if val.Some? {
        HexNumberBound(t[1..][..2], 2);
        return 3, [Byte(val.value)];
      }
      return 1, "%";
    }
    if plus && s[i] == '+' { return 1, " "; }
    return 1, [s[i]];
  }

  /** Text without escapes decodes to itself. */
  lemma {:induction false} DecodePlain(s: string, plus: bool)
    requires '%' !in s && (plus ==> '+' !in s)
    ensures DecodePath(s, plus) == s
  {
    if s != "" {
      DecodePlain(s[1..], plus);
      assert [s[0]] + s[1..] == s;
    }
  }

  // ---- what an escape means ----

  predicate Continues(c: char) { 0x80 <= c as int < 0xC0 }

  /** The code of the first character, read strictly (section 3 of RFC 3629): no continuation byte missing, no longer
      form than needed, no surrogate; None for anything else. Codes from 0x10000 on are not read. */
  function ReadUtf8(s: string): Option<(nat, string)> {
    if s == "" then None
    else
      var a := s[0] as int;
      if a < 0x80 then Some((a, s[1..]))
      else if 0xC0 <= a < 0xE0 then
        if |s| >= 2 && Continues(s[1]) && (a - 0xC0) * 64 + (s[1] as int - 0x80) >= 0x80
        then Some(((a - 0xC0) * 64 + (s[1] as int - 0x80), s[2..])) else None
      else if 0xE0 <= a < 0xF0 then
        if |s| >= 3 && Continues(s[1]) && Continues(s[2])
        then
          var code := (a - 0xE0) * 4096 + (s[1] as int - 0x80) * 64 + (s[2] as int - 0x80);
          if code >= 0x800 && !(0xD800 <= code < 0xE000) then Some((code, s[3..])) else None
        else None
      else None
  }

  lemma SixBits(code: nat)
    requires code < 0x10000
    ensures code / 64 * 64 + code % 64 == code
    ensures code / 4096 < 16 && code / 4096 * 4096 + code / 64 % 64 * 64 + code % 64 == code
  {}

  lemma ThreeBytes(a: char, b: char, c: char, rest: string, code: nat)
    requires 0xE0 <= a as int < 0xF0 && Continues(b) && Continues(c)
    requires code == (a as int - 0xE0) * 4096 + (b as int - 0x80) * 64 + (c as int - 0x80)
    requires code >= 0x800 && !(0xD800 <= code < 0xE000)
    ensures ReadUtf8([a, b, c] + rest) == Some((code, rest))
  {
    assert ([a, b, c] + rest)[3..] == rest;
  }

  /** A code outside the surrogates is read back; a surrogate is dropped. */
  lemma Utf8ReadBack(code: nat, rest: string)
    requires code < 0x10000
    ensures if 0xD800 <= code < 0xE000 then ToUtf8(code) == ""
            else ReadUtf8(ToUtf8(code) + rest) == Some((code, rest))
  {
    var u := ToUtf8(code);
    SixBits(code);
    if |u| == 3 {
      ThreeBytes(u[0], u[1], u[2], rest, code);
    } else {
      assert (u + rest)[|u|..] == rest;
    }
  }

  lemma HexMore(s: string, c: char)
    requires (forall i | 0 <= i < |s| :: IsHex(s[i])) && IsHex(c)
    ensures (forall i | 0 <= i < |s + [c]| :: IsHex((s + [c])[i])) && HexNumber(s + [c]) == HexNumber(s) * 16 + HexValue(c)
  {
    assert (s + [c])[..|s|] == s;
  }

  /** The number four hexadecimal digits stand for. */
  function FourDigits(a: char, b: char, c: char, d: char): (n: nat)
    requires IsHex(a) && IsHex(b) && IsHex(c) && IsHex(d)
    ensures n < 0x10000
  {
    HexValue(a) * 4096 + HexValue(b) * 256 + HexValue(c) * 16 + HexValue(d)
  }

  lemma HexFour(a: char, b: char, c: char, d: char)
    requires IsHex(a) && IsHex(b) && IsHex(c) && IsHex(d)
    ensures HexNumber([a, b, c, d]) == FourDigits(a, b, c, d)
  {
    HexMore("", a);
    HexMore([a], b);
    HexMore([a, b], c);
    HexMore([a, b, c], d);
    assert HexNumber("") == 0;
    assert "" + [a] == [a] && [a] + [b] == [a, b] && [a, b] + [c] == [a, b, c] && [a, b, c] + [d] == [a, b, c, d];
  }

  lemma FourDigitsRead(a: char, b: char, c: char, d: char, rest: string)
    requires IsHex(a) && IsHex(b) && IsHex(c) && IsHex(d)
    ensures HexPrefix([a, b, c, d] + rest, 4) == Some(FourDigits(a, b, c, d))
  {
    assert ([a, b, c, d] + rest)[..4] == [a, b, c, d];
    HexFour(a, b, c, d);
  }

  lemma FourDigitStep(code: nat, four: string, rest: string, plus: bool)
    requires |four| == 4 && HexPrefix(four + rest, 4) == Some(code) && code < 0x10000
    ensures DecodePath("%u" + (four + rest), plus) == ToUtf8(code) + DecodePath(rest, plus)
  {
    var s := "%u" + (four + rest);
    assert s[2..] == four + rest && s[6..] == rest;
  }

  /** A four-digit escape decodes to the character it names, which a strict reader gives back; a surrogate
      is dropped. */
  lemma FourDigitEscape(a: char, b: char, c: char, d: char, rest: string, plus: bool)
    requires IsHex(a) && IsHex(b) && IsHex(c) && IsHex(d)
    ensures var code, out := FourDigits(a, b, c, d), DecodePath("%u" + ([a, b, c, d] + rest), plus);
            if 0xD800 <= code < 0xE000 then out == DecodePath(rest, plus)
            else ReadUtf8(out) == Some((code, DecodePath(rest, plus)))
  {
    var code := FourDigits(a, b, c, d);
    FourDigitsRead(a, b, c, d, rest);
    FourDigitStep(code, [a, b, c, d], rest, plus);
    Utf8ReadBack(code, DecodePath(rest, plus));
    assert "" + DecodePath(rest, plus) == DecodePath(rest, plus);
  }

  /** An escape is complete: two hexadecimal digits, or `u` and four. */
  predicate EscapeFollows(s: string) {
    || (|s| >= 2 && IsHex(s[0]) && IsHex(s[1]))
    || (|s| >= 5 && s[0] == 'u' && IsHex(s[1]) && IsHex(s[2]) && IsHex(s[3]) && IsHex(s[4]))
  }

  /** A percent sign without a complete escape behind it stands for itself. */
  lemma BareEscape(rest: string, plus: bool)
    requires !EscapeFollows(rest)
    ensures DecodePath(['%'] + rest, plus) == ['%'] + DecodePath(rest, plus)
  {
    var s := ['%'] + rest;
    assert s[1..] == rest;
    assert |rest| >= 1 ==> s[2..] == rest[1..];
    assert !IsHex('u');
  }

  /** Any other byte stands for itself, except that a plus sign is a blank where it is to be one. */
  lemma OtherByte(c: char, rest: string, plus: bool)
    requires c != '%'
    ensures DecodePath([c] + rest, plus) == [if plus && c == '+' then ' ' else c] + DecodePath(rest, plus)
  {
    assert ([c] + rest)[1..] == rest;
  }

  // ---- encode_uri_component ----

  predicate IsAlnum(c: char) {
    '0' <= c <= '9' || 'A' <= c <= 'Z' || 'a' <= c <= 'z'
  }

  predicate IsUnreserved(c: char) {
    IsAlnum(c) || c in "-_.!~*'()"
  }

  function Escape(c: char): string
    requires c as int < 256
  {
    if IsUnreserved(c) then [c] else ['%', UpperHex(c as int / 16), UpperHex(c as int % 16)]
  }

  function EncodeComponent(s: string): string
    requires IsBytes(s)
  {
    if s == "" then "" else Escape(s[0]) + EncodeComponent(s[1..])
  }

  lemma {:induction false} EncodeAppend(a: string, b: string)
    requires IsBytes(a) && IsBytes(b)
    ensures IsBytes(a + b) && EncodeComponent(a + b) == EncodeComponent(a) + EncodeComponent(b)
  {
    if a == "" {
      assert a + b == b;
    } else {
      assert (a + b)[1..] == a[1..] + b;
      EncodeAppend(a[1..], b);
      Associative(Escape(a[0]), EncodeComponent(a[1..]), EncodeComponent(b));
    }
  }

  method EncodeUriComponent(value: string) returns (escaped: string)
    requires IsBytes(value)
    ensures escaped == EncodeComponent(value)
  {
    escaped := "";
    assert value[..0] == "";
    for i := 0 to |value|
      invariant escaped == EncodeComponent(value[..i])
    {
      assert value[..i + 1] == value[..i] + [value[i]];
      EncodeAppend(value[..i], [value[i]]);
      var c := value[i];
      if IsUnreserved(c) {
        escaped := escaped + [c];
      } else {
        escaped := escaped + ['%', UpperHex(c as int / 16), UpperHex(c as int % 16)];
      }
    }
    assert value[..|value|] == value;
  }

  lemma DecodeEscape(c: char, rest: string, plus: bool)
    requires c as int < 256
    ensures DecodePath(Escape(c) + rest, plus) == [c] + DecodePath(rest, plus)
  {
    var e := Escape(c);
    var s := e + rest;
    if IsUnreserved(c) {
      assert s[1..] == rest;
    } else {
      assert s[1..] == [e[1], e[2]] + rest;
      HexPrefixPair(e[1], e[2], rest);
      assert s[3..] == rest;
    }
  }

  /** Decoding undoes encoding on every byte string, whether or not `+` stands for a blank. */
  lemma {:induction false} DecodeEncode(s: string, plus: bool)
    requires IsBytes(s)
    ensures DecodePath(EncodeComponent(s), plus) == s
  {
    if s != "" {
      DecodeEscape(s[0], EncodeComponent(s[1..]), plus);
      DecodeEncode(s[1..], plus);
      assert [s[0]] + s[1..] == s;
    }
  }

  /** Encoded text holds unreserved bytes, `%` and hexadecimal digits only. */
  lemma {:induction false} EncodedAlphabet(s: string)
    requires IsBytes(s)
    ensures forall c | c in EncodeComponent(s) :: IsUnreserved(c) || c == '%'
  {
    if s != "" {
      EncodedAlphabet(s[1..]);
      assert forall c | c in Escape(s[0]) :: IsUnreserved(c) || c == '%';
    }
  }
}
