/**
 The text operations of Rust's `str` that the contract relies on: trimming, ASCII case folding,
 splitting, and decimal numerals.
 */
module Text {
  import opened Basics

  /** `char::is_whitespace`: the Unicode White_Space property. */
  predicate IsWhitespace(c: char) {
    '\U{9}' <= c <= '\U{D}' || c == ' ' || c == '\U{85}' || c == '\U{A0}' || c == '\U{1680}' ||
    '\U{2000}' <= c <= '\U{200A}' || c == '\U{2028}' || c == '\U{2029}' || c == '\U{202F}' ||
    c == '\U{205F}' || c == '\U{3000}'
  }

  /** The 25 characters with the property, by code point (PropList of the Unicode character database). */
  lemma WhitespaceExact(c: char)
    ensures IsWhitespace(c) <==>
            c as int in {0x09, 0x0A, 0x0B, 0x0C, 0x0D, 0x20, 0x85, 0xA0, 0x1680} +
                        {0x2000, 0x2001, 0x2002, 0x2003, 0x2004, 0x2005, 0x2006, 0x2007, 0x2008, 0x2009, 0x200A} +
                        {0x2028, 0x2029, 0x202F, 0x205F, 0x3000}
  {
  }

  function TrimStart(s: string): string {
    if s != "" && IsWhitespace(s[0]) then TrimStart(s[1..]) else s
  }

  function TrimEnd(s: string): string {
    if s != "" && IsWhitespace(s[|s| - 1]) then TrimEnd(s[..|s| - 1]) else s
  }

  function Trim(s: string): string {
    TrimEnd(TrimStart(s))
  }

  predicate Trimmed(s: string) {
    s != "" ==> !IsWhitespace(s[0]) && !IsWhitespace(s[|s| - 1])
  }

  lemma {:induction false} TrimStartSpec(s: string)
    ensures TrimStart(s) != "" ==> !IsWhitespace(TrimStart(s)[0])
  {
    if s != "" && IsWhitespace(s[0]) {
      TrimStartSpec(s[1..]);
    }
  }

  lemma {:induction false} TrimEndSpec(s: string)
    ensures TrimEnd(s) <= s
    ensures TrimEnd(s) != "" ==> !IsWhitespace(TrimEnd(s)[|TrimEnd(s)| - 1])
  {
    if s != "" && IsWhitespace(s[|s| - 1]) {
      TrimEndSpec(s[..|s| - 1]);
    }
  }

  /** Trimming always produces trimmed text, and does nothing to text that already is. */
  lemma TrimIsTrimmed(s: string)
    ensures Trimmed(Trim(s))
    ensures Trimmed(s) ==> Trim(s) == s
    ensures Trim(Trim(s)) == Trim(s)
  {
    TrimStartSpec(s);
    TrimEndSpec(TrimStart(s));
    var t := Trim(s);
    assert t != "" ==> t[0] == TrimStart(s)[0];
  }

  predicate Blank(s: string) {
    forall c :: c in s ==> IsWhitespace(c)
  }

  /** Trimming removes exactly the white space at both ends: what it leaves is trimmed, and nothing else is. */
  lemma TrimExact(s: string, t: string)
    ensures Trim(s) == t <==> Trimmed(t) && exists a, b :: Blank(a) && Blank(b) && s == a + t + b && (t == "" ==> b == "")
  {
    hide Trim;
    TrimIsTrimmed(s);
    var a, b := TrimParts(s);
    if Trim(s) == t && t == "" {
      assert s == a + b;
      forall c | c in s ensures IsWhitespace(c) {
        assert c in a || c in b;
      }
      assert Blank(s) && Blank("") && s == s + t + "";
    } else if Trim(s) == t {
      assert s == a + t + b;
    }
    forall x, y | Trimmed(t) && Blank(x) && Blank(y) && s == x + t + y && (t == "" ==> y == "")
      ensures Trim(s) == t
    {
      TrimOf(x, t, y);
    }
  }

  lemma TrimParts(s: string) returns (a: string, b: string)
    ensures Blank(a) && Blank(b) && s == a + Trim(s) + b
  {
    a := StartParts(s);
    b := EndParts(TrimStart(s));
  }

  lemma {:induction false} StartParts(s: string) returns (a: string)
    ensures Blank(a) && s == a + TrimStart(s)
  {
    if s != "" && IsWhitespace(s[0]) {
      var rest := StartParts(s[1..]);
      a := [s[0]] + rest;
    } else {
      a := "";
    }
  }

  lemma {:induction false} EndParts(s: string) returns (b: string)
    ensures Blank(b) && s == TrimEnd(s) + b
  {
    if s != "" && IsWhitespace(s[|s| - 1]) {
      var rest := EndParts(s[..|s| - 1]);
      b := rest + [s[|s| - 1]];
    } else {
      b := "";
    }
  }

  lemma TrimOf(a: string, t: string, b: string)
    requires Blank(a) && Blank(b) && Trimmed(t) && (t == "" ==> b == "")
    ensures Trim(a + t + b) == t
  {
    assert a + t + b == a + (t + b);
    StartOf(a, t + b);
    EndOf(t, b);
  }

  lemma {:induction false} StartOf(a: string, rest: string)
    requires Blank(a) && (rest != "" ==> !IsWhitespace(rest[0]))
    ensures TrimStart(a + rest) == rest
  {
    if a == "" {
      assert a + rest == rest;
    } else {
      assert a[0] in a && (a + rest)[1..] == a[1..] + rest;
      StartOf(a[1..], rest);
    }
  }

  lemma {:induction false} EndOf(t: string, b: string)
    requires Blank(b) && (t != "" ==> !IsWhitespace(t[|t| - 1]))
    ensures TrimEnd(t + b) == t
  {
    if b == "" {
      assert t + b == t;
    } else {
      assert b[|b| - 1] in b && (t + b)[..|t + b| - 1] == t + b[..|b| - 1];
      EndOf(t, b[..|b| - 1]);
    }
  }

  function AsciiLower(c: char): char {
    if 'A' <= c <= 'Z' then (c as int + 32) as char else c
  }

  /** `str::eq_ignore_ascii_case`. */
  predicate EqIgnoreAsciiCase(a: string, b: string) {
    |a| == |b| && forall i :: 0 <= i < |a| ==> AsciiLower(a[i]) == AsciiLower(b[i])
  }

  predicate StartsWith(s: string, prefix: string) {
    prefix <= s
  }

  function IndexOf(s: string, c: char): (i: nat)
    requires c in s
    ensures i < |s| && s[i] == c && c !in s[..i]
  {
    if s[0] == c then 0 else
      assert s == [s[0]] + s[1..];
      var i := IndexOf(s[1..], c);
      assert s[..i + 1] == [s[0]] + s[1..][..i];
      i + 1
  }

  /** `str::split` on one character: always at least one piece. */
  function Split(s: string, sep: char): (parts: seq<string>)
    ensures |parts| > 0
    decreases |s|
  {
    if sep in s then
      var i := IndexOf(s, sep);
      [s[..i]] + Split(s[i + 1..], sep)
    else [s]
  }

  /** The first separator is determined by the text around it. */
  lemma FirstSeparatorUnique(a: string, b: string, sep: char, x: string, y: string)
    requires sep !in a && sep !in x
    requires a + [sep] + b == x + [sep] + y
    ensures a == x && b == y
  {
    var s := a + [sep] + b;
    assert s[|a|] == sep && s[|x|] == sep;
    assert forall i :: 0 <= i < |a| ==> s[i] == a[i] && a[i] in a;
    assert forall i :: 0 <= i < |x| ==> s[i] == x[i] && x[i] in x;
    assert |a| == |x|;
    assert a == s[..|a|] && x == s[..|x|];
    assert b == s[|a| + 1..] && y == s[|x| + 1..];
  }

  lemma SplitOne(s: string, sep: char)
    requires sep !in s
    ensures Split(s, sep) == [s]
  {
  }

  lemma SplitFirst(a: string, b: string, sep: char)
    requires sep !in a
    ensures Split(a + [sep] + b, sep) == [a] + Split(b, sep)
  {
    var s := a + [sep] + b;
    assert s[|a|] == sep;
    var i := IndexOf(s, sep);
    assert s == s[..i] + [sep] + s[i + 1..];
    FirstSeparatorUnique(a, b, sep, s[..i], s[i + 1..]);
  }

  lemma SplitTwo(a: string, b: string, sep: char)
    requires sep !in a && sep !in b
    ensures Split(a + [sep] + b, sep) == [a, b]
  {
    SplitFirst(a, b, sep);
    SplitOne(b, sep);
  }

  /** A split into one piece has no separator; a split into two has exactly one. */
  lemma SplitInverse(s: string, sep: char)
    ensures |Split(s, sep)| == 1 ==> sep !in s && Split(s, sep) == [s]
    ensures |Split(s, sep)| == 2 ==>
              var parts := Split(s, sep);
              s == parts[0] + [sep] + parts[1] && sep !in parts[0] && sep !in parts[1]
  {
    if sep in s {
      var i := IndexOf(s, sep);
      assert s == s[..i] + [sep] + s[i + 1..];
    }
  }

  // Decimal numerals.

  predicate IsDigit(c: char) {
    '0' <= c <= '9'
  }

  predicate AllDigits(s: string) {
    forall i :: 0 <= i < |s| ==> IsDigit(s[i])
  }

  function DigitValue(c: char): nat
    requires IsDigit(c)
  {
    c as int - '0' as int
  }

  function DigitChar(d: nat): (c: char)
    requires d < 10
    ensures IsDigit(c) && DigitValue(c) == d
  {
    (d + '0' as int) as char
  }

  /** The number a digit string denotes, most significant digit first. */
  function Value(s: string): nat
    requires AllDigits(s)
  {
    if s == "" then 0 else 10 * Value(s[..|s| - 1]) + DigitValue(s[|s| - 1])
  }

  /** `to_string` of an unsigned integer. */
  function NatText(n: nat): (s: string)
    ensures s != "" && AllDigits(s)
  {
    if n < 10 then [DigitChar(n)] else NatText(n / 10) + [DigitChar(n % 10)]
  }

  /** `str::parse` of an unsigned integer below `limit`: an optional `+`, then digits. */
  function ParseUnsigned(s: string, limit: nat): Option<nat> {
    var digits := if StartsWith(s, "+") then s[1..] else s;
    if digits == "" || !AllDigits(digits) || Value(digits) >= limit then None
    else Some(Value(digits))
  }

  function Zeros(n: nat): (s: string)
    ensures |s| == n && AllDigits(s)
    ensures forall i :: 0 <= i < n ==> s[i] == '0'
  {
    seq(n, i => '0')
  }

  lemma {:induction false} ValueConcat(a: string, b: string)
    requires AllDigits(a) && AllDigits(b)
    ensures AllDigits(a + b)
    ensures Value(a + b) == Value(a) * Pow(10, |b|) + Value(b)
  {
    if b == "" {
      assert a + b == a;
    } else {
      var c := b[..|b| - 1];
      assert (a + b)[..|a + b| - 1] == a + c;
      ValueConcat(a, c);
      MulAssoc(Value(a), 10, Pow(10, |c|));
      MulAssoc(10, Value(a), Pow(10, |c|));
    }
  }

  lemma {:induction false} ValueZeros(n: nat)
    ensures Value(Zeros(n)) == 0
  {
    if n > 0 {
      assert Zeros(n)[..n - 1] == Zeros(n - 1);
      ValueZeros(n - 1);
    }
  }

  lemma {:induction false} ValueBound(s: string)
    requires AllDigits(s)
    ensures Value(s) < Pow(10, |s|)
  {
    if s != "" {
      ValueBound(s[..|s| - 1]);
    }
  }

  lemma {:induction false} NatTextValue(n: nat)
    ensures Value(NatText(n)) == n
  {
    if n >= 10 {
      NatTextValue(n / 10);
      assert NatText(n)[..|NatText(n)| - 1] == NatText(n / 10);
    }
  }

  /** A numeral without superfluous leading zeros. */
  predicate Canonical(s: string) {
    s != "" && AllDigits(s) && (|s| > 1 ==> s[0] != '0')
  }

  lemma {:induction false} NatTextCanonical(n: nat)
    ensures Canonical(NatText(n))
    ensures n > 0 ==> NatText(n)[0] != '0'
  {
    if n >= 10 {
      NatTextCanonical(n / 10);
    }
  }

  /** The canonical numeral of a number is unique. */
  lemma {:induction false} CanonicalIsNatText(s: string)
    requires Canonical(s)
    ensures NatText(Value(s)) == s
  {
    var front := s[..|s| - 1];
    if |s| > 1 {
      CanonicalIsNatText(front);
      NatTextCanonical(Value(front));
      assert NatText(0) == ['0'];
      assert Value(front) > 0;
      assert Value(s) / 10 == Value(front);
      assert s == front + [s[|s| - 1]];
    } else {
      assert front == "";
    }
  }

  /** A number below `10^width` prints in at most `width` digits. */
  lemma {:induction false} NatTextLength(n: nat, width: nat)
    requires width > 0 && n < Pow(10, width)
    ensures |NatText(n)| <= width
  {
    if n >= 10 {
      assert Pow(10, width) == 10 * Pow(10, width - 1);
      assert width > 1 by {
        assert Pow(10, 0) == 1;
      }
      NatTextLength(n / 10, width - 1);
    }
  }

  // Hexadecimal text.

  function HexDigit(c: char): Option<nat> {
    if '0' <= c <= '9' then Some(c as int - '0' as int)
    else if 'a' <= c <= 'f' then Some(c as int - 'a' as int + 10)
    else if 'A' <= c <= 'F' then Some(c as int - 'A' as int + 10)
    else None
  }

  /** `hex::decode`. */
  function HexDecode(text: string): (r: Option<bytes>)
    ensures r.Some? ==> 2 * |r.value| == |text|
  {
    if text == "" then Some([])
    else if |text| == 1 then None
    else
      var hi :- HexDigit(text[0]);
      var lo :- HexDigit(text[1]);
      var rest :- HexDecode(text[2..]);
      if hi < 16 && lo < 16 then Some([16 * hi + lo] + rest) else None
  }

  function HexChar(d: nat): char
    requires d < 16
  {
    if d < 10 then (d + '0' as int) as char else (d - 10 + 'a' as int) as char
  }

  /** `hex::encode`. */
  function HexText(data: bytes): string {
    if data == [] then "" else [HexChar(data[0] / 16), HexChar(data[0] % 16)] + HexText(data[1..])
  }

  /** Decoding hexadecimal text gives back the bytes it was written from. */
  lemma {:induction false} HexRoundTrip(data: bytes)
    ensures HexDecode(HexText(data)) == Some(data)
  {
    if data != [] {
      HexRoundTrip(data[1..]);
      assert HexText(data)[2..] == HexText(data[1..]);
      assert data == [data[0]] + data[1..];
    }
  }

  /** Hexadecimal text is read as these bytes exactly when it is their text, in either case. */
  lemma {:induction false} HexDecodeExact(text: string, data: bytes)
    ensures HexDecode(text) == Some(data) <==> EqIgnoreAsciiCase(text, HexText(data))
  {
    hide HexDigit, HexChar, EqIgnoreAsciiCase;
    HexTextPlain(data);
    SameLength(text, HexText(data));
    if |text| >= 2 && data != [] {
      HexDecodeExact(text[2..], data[1..]);
      HexPair(text, data);
      HexDigitBelow(text[0]);
      HexDigitBelow(text[1]);
      assert data == [data[0]] + data[1..];
    }
  }

  lemma SameLength(a: string, b: string)
    ensures EqIgnoreAsciiCase(a, b) ==> |a| == |b|
    ensures a == "" && b == "" ==> EqIgnoreAsciiCase(a, b)
  {
  }

  /** The first byte is read from the first two characters, and the rest from the rest. */
  lemma HexPair(text: string, data: bytes)
    requires |text| >= 2 && data != []
    ensures EqIgnoreAsciiCase(text, HexText(data)) <==>
            HexDigit(text[0]) == Some(data[0] / 16) && HexDigit(text[1]) == Some(data[0] % 16) &&
            EqIgnoreAsciiCase(text[2..], HexText(data[1..]))
  {
    hide HexDigit, HexChar;
    var h := HexText(data);
    assert h[2..] == HexText(data[1..]) && h[0] == HexChar(data[0] / 16) && h[1] == HexChar(data[0] % 16);
    HexCharExact(text[0], data[0] / 16);
    HexCharExact(text[1], data[0] % 16);
    EqCut(text, h, 2);
  }

  lemma HexDigitBelow(c: char)
    ensures HexDigit(c).Some? ==> HexDigit(c).value < 16
  {
  }

  lemma EqCut(a: string, b: string, k: nat)
    requires k <= |a| && k <= |b|
    ensures EqIgnoreAsciiCase(a, b) <==> EqIgnoreAsciiCase(a[..k], b[..k]) && EqIgnoreAsciiCase(a[k..], b[k..])
  {
    if EqIgnoreAsciiCase(a[..k], b[..k]) && EqIgnoreAsciiCase(a[k..], b[k..]) {
      forall i | 0 <= i < |a| ensures AsciiLower(a[i]) == AsciiLower(b[i]) {
        if i < k {
          assert a[i] == a[..k][i] && b[i] == b[..k][i];
        } else {
          assert a[i] == a[k..][i - k] && b[i] == b[k..][i - k];
        }
      }
    }
  }

  /** A hexadecimal digit is one of its sixteen values, written in either case. */
  lemma HexCharExact(c: char, d: nat)
    requires d < 16
    ensures HexChar(d) == "0123456789abcdef"[d]
    ensures HexDigit(c) == Some(d) <==> AsciiLower(c) == AsciiLower(HexChar(d))
  {
  }

  function StripHexPrefix(text: string): string {
    if StartsWith(text, "0x") then text[2..] else text
  }

  /** Hexadecimal text has two characters a byte, and no prefix to strip. */
  lemma {:induction false} HexTextPlain(data: bytes)
    ensures |HexText(data)| == 2 * |data|
    ensures StripHexPrefix(HexText(data)) == HexText(data)
  {
    if data != [] {
      HexTextPlain(data[1..]);
      assert HexText(data)[1] == HexChar(data[0] % 16);
    }
  }

  /** `parse_evm_address`: 40 hexadecimal digits, with or without the prefix. */
  function EvmAddress(text: string): (r: Option<bytes>)
    ensures r.Some? ==> |r.value| == 20
  {
    if |StripHexPrefix(text)| != 40 then None else HexDecode(StripHexPrefix(text))
  }
}
