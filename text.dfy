/** The string routines of Go's standard library that the core relies on,
    written out: `strings.TrimSpace`, ASCII lower-casing, the `ILIKE 'p%'`
    prefix test, `strconv.ParseUint` / `strconv.Atoi` in base 10, the UTF-8
    bytes of a string (section 3 of RFC 3629), and `url.QueryUnescape`, which
    percent-decodes bytes (section 2.1 of RFC 3986, with `+` read as a space
    as in `application/x-www-form-urlencoded`) and so yields the bytes of the
    decoded string. */
module Text {
  import opened Entity

  // ---------------------------------------------------------------------
  // Whitespace and case

  /** `unicode.IsSpace`: the Unicode White_Space characters. */
  predicate IsSpace(c: char)
  {
    c == ' ' || c == '\t' || c == '\n' || c == '\U{B}' || c == '\U{C}' || c == '\r'
    || c == '\U{85}' || c == '\U{A0}' || c == '\U{1680}'
    || ('\U{2000}' <= c <= '\U{200A}')
    || c == '\U{2028}' || c == '\U{2029}' || c == '\U{202F}' || c == '\U{205F}' || c == '\U{3000}'
  }

  function TrimLeft(s: string): (r: string)
    ensures |r| <= |s| && r == s[|s| - |r|..]
    ensures forall k :: 0 <= k < |s| - |r| ==> IsSpace(s[k])
    ensures r == [] || !IsSpace(r[0])
  {
    if s != [] && IsSpace(s[0]) then TrimLeft(s[1..]) else s
  }

  function TrimRight(s: string): (r: string)
    ensures |r| <= |s| && r == s[..|r|]
    ensures forall k :: |r| <= k < |s| ==> IsSpace(s[k])
    ensures r == [] || !IsSpace(r[|r| - 1])
  {
    if s != [] && IsSpace(s[|s| - 1]) then TrimRight(s[..|s| - 1]) else s
  }

  /** `strings.TrimSpace`: the longest infix of `s` that neither starts nor
      ends with white space, everything around it being white space. */
  function TrimSpace(s: string): (r: string)
    ensures r == [] || (!IsSpace(r[0]) && !IsSpace(r[|r| - 1]))
    ensures exists i, j ::
              && 0 <= i <= j <= |s| && r == s[i..j]
              && (forall k :: 0 <= k < i ==> IsSpace(s[k]))
              && (forall k :: j <= k < |s| ==> IsSpace(s[k]))
  {
    var l := TrimLeft(s);
    var r := TrimRight(l);
    var i := |s| - |l|;
    assert r == s[i..i + |r|];
    r
  }

  function LowerChar(c: char): (d: char)
    ensures !('A' <= d <= 'Z')
    ensures IsSpace(d) <==> IsSpace(c)
  {
    if 'A' <= c <= 'Z' then (c as int + 32) as char else c
  }

  /** `strings.ToLower` restricted to ASCII letters. */
  function Lower(s: string): (r: string)
    ensures |r| == |s|
    ensures forall i :: 0 <= i < |s| ==> r[i] == LowerChar(s[i])
  {
    seq(|s|, i requires 0 <= i < |s| => LowerChar(s[i]))
  }

  /** `username ILIKE prefix || '%'`: a case-insensitive prefix test (the
      pattern characters `%` and `_` inside `prefix` are read literally). */
  predicate HasPrefixFold(name: string, prefix: string)
  {
    |prefix| <= |name| && Lower(name[..|prefix|]) == Lower(prefix)
  }

  // ---------------------------------------------------------------------
  // Decimal numbers

  const MaxUint64: nat := 0xFFFF_FFFF_FFFF_FFFF
  const MaxInt64: int := 0x7FFF_FFFF_FFFF_FFFF
  const MinInt64: int := -0x8000_0000_0000_0000

  predicate IsDigit(c: char) { '0' <= c <= '9' }

  function DigitValue(c: char): nat
    requires IsDigit(c)
  {
    c as int - '0' as int
  }

  predicate AllDigits(s: string)
  {
    forall i :: 0 <= i < |s| ==> IsDigit(s[i])
  }

  /** The value of a string of decimal digits, by positional notation. */
  function DecimalValue(s: string): nat
    requires AllDigits(s)
  {
    if s == [] then 0 else DecimalValue(s[..|s| - 1]) * 10 + DigitValue(s[|s| - 1])
  }

  datatype UintScan = Syntax | Range | Value(n: nat)

  /** The digit loop of `strconv.ParseUint` in base 10: characters are read
      left to right; a non-digit is a syntax error, and a value that would
      pass `max` is a range error reported at once, before the remaining
      characters are looked at. */
  function Scan(s: string, acc: nat, max: nat): UintScan
  {
    if s == [] then Value(acc)
    else if !IsDigit(s[0]) then Syntax
    else if acc * 10 + DigitValue(s[0]) > max then Range
    else Scan(s[1..], acc * 10 + DigitValue(s[0]), max)
  }

  /** `strconv.ParseUint(s, 10, 64)`. */
  function ParseUint(s: string): UintScan
  {
    if s == [] then Syntax else Scan(s, 0, MaxUint64)
  }

  /** Reading one more character continues from where the scan of the
      shorter string stopped. */
  lemma {:induction false} ScanSnoc(p: string, c: char, acc: nat, max: nat)
    ensures Scan(p + [c], acc, max) ==
      match Scan(p, acc, max)
      case Value(n) => Scan([c], n, max)
      case other => other
  {
    if p != [] {
      assert (p + [c])[1..] == p[1..] + [c];
      if IsDigit(p[0]) && acc * 10 + DigitValue(p[0]) <= max {
        ScanSnoc(p[1..], c, acc * 10 + DigitValue(p[0]), max);
      }
    }
  }

  /** On a string of digits the scan computes the positional value, or
      reports a range error exactly when that value passes `max`. */
  lemma {:induction false} ScanAllDigits(s: string, max: nat)
    requires AllDigits(s)
    ensures Scan(s, 0, max) == if DecimalValue(s) <= max then Value(DecimalValue(s)) else Range
  {
    if s != [] {
      var p, c := s[..|s| - 1], s[|s| - 1];
      assert s == p + [c];
      ScanAllDigits(p, max);
      ScanSnoc(p, c, 0, max);
    }
  }

  /** A non-digit anywhere means the scan never yields a value. */
  lemma {:induction false} ScanNonDigit(s: string, acc: nat, max: nat)
    requires !AllDigits(s)
    ensures !Scan(s, acc, max).Value?
  {
    if IsDigit(s[0]) && acc * 10 + DigitValue(s[0]) <= max {
      assert !AllDigits(s[1..]) by {
        var k :| 0 <= k < |s| && !IsDigit(s[k]);
        assert s[1..][k - 1] == s[k];
      }
      ScanNonDigit(s[1..], acc * 10 + DigitValue(s[0]), max);
    }
  }

  /** `ParseUint` succeeds exactly on non-empty digit strings whose value fits
      in 64 bits, and then returns that value. */
  lemma ParseUintSpec(s: string)
    ensures ParseUint(s).Value? <==> s != [] && AllDigits(s) && DecimalValue(s) <= MaxUint64
    ensures ParseUint(s).Value? ==> ParseUint(s).n == DecimalValue(s)
    ensures s != [] && AllDigits(s) && DecimalValue(s) > MaxUint64 ==> ParseUint(s) == Range
  {
    if s != [] {
      if AllDigits(s) {
        ScanAllDigits(s, MaxUint64);
      } else {
        ScanNonDigit(s, 0, MaxUint64);
      }
    }
  }

  datatype IntParse = IntParse(value: int, ok: bool)

  /** `strconv.Atoi` on a 64-bit platform: an optional sign, then
      `ParseUint`; a syntax error yields 0, an out-of-range number yields the
      nearest 64-bit bound, and in both cases `ok` is false. */
  function Atoi(s: string): IntParse
  {
    if s == [] then IntParse(0, false)
    else
      var neg := s[0] == '-';
      var digits := if s[0] == '+' || s[0] == '-' then s[1..] else s;
      match ParseUint(digits)
      case Syntax => IntParse(0, false)
      case Range => IntParse(if neg then MinInt64 else MaxInt64, false)
      case Value(n) =>
        if !neg && n > MaxInt64 then IntParse(MaxInt64, false)
        else if neg && n > -MinInt64 then IntParse(MinInt64, false)
        else IntParse(if neg then -(n as int) else n, true)
  }

  /** With no `limit` query the handlers read their own default. */
  lemma AtoiTen()
    ensures Atoi("10") == IntParse(10, true)
  {
    assert "10"[1..] == "0";
    assert Scan("10", 0, MaxUint64) == Scan("0", 1, MaxUint64);
  }

  /** Reference reading of a signed decimal literal: an optional `+` or `-`
      followed by at least one digit. */
  function SignedDecimal(s: string): Option<int>
  {
    if s == [] then None
    else
      var digits := if s[0] == '+' || s[0] == '-' then s[1..] else s;
      if digits == [] || !AllDigits(digits) then None
      else Some(if s[0] == '-' then -(DecimalValue(digits) as int) else DecimalValue(digits))
  }

  /** `Atoi` succeeds exactly on signed decimal literals within the 64-bit
      range and then returns their value; whatever it returns lies in that
      range, and a string that is not a literal at all yields 0 or a bound. */
  lemma AtoiSpec(s: string)
    ensures MinInt64 <= Atoi(s).value <= MaxInt64
    ensures Atoi(s).ok <==> SignedDecimal(s).Some? && MinInt64 <= SignedDecimal(s).value <= MaxInt64
    ensures Atoi(s).ok ==> Atoi(s).value == SignedDecimal(s).value
    ensures SignedDecimal(s).Some? && SignedDecimal(s).value > MaxInt64 ==> Atoi(s) == IntParse(MaxInt64, false)
    ensures SignedDecimal(s).Some? && SignedDecimal(s).value < MinInt64 ==> Atoi(s) == IntParse(MinInt64, false)
  {
    if s != [] {
      var digits := if s[0] == '+' || s[0] == '-' then s[1..] else s;
      ParseUintSpec(digits);
    }
  }

  function Pow10(k: nat): (r: nat)
    ensures r >= 1
  {
    if k == 0 then 1 else 10 * Pow10(k - 1)
  }

  /** A scan that cannot reach `max` even if every remaining character were
      a 9 never reports a range error. */
  lemma {:induction false} ScanNoRange(s: string, acc: nat, max: nat)
    requires (acc + 1) * Pow10(|s|) <= max + 1
    ensures Scan(s, acc, max) != Range
  {
    if s != [] && IsDigit(s[0]) {
      var next := acc * 10 + DigitValue(s[0]);
      var p := Pow10(|s| - 1);
      assert Pow10(|s|) == 10 * p;
      MulLe(next + 1, (acc + 1) * 10, p);
      assert (acc + 1) * 10 * p == (acc + 1) * (10 * p);
      MulLe(1, p, next + 1);
      ScanNoRange(s[1..], next, max);
    }
  }

  lemma MulLe(a: nat, b: nat, c: nat)
    requires a <= b
    ensures a * c <= b * c
  {
  }

  /** A malformed query value of at most 19 characters is read as 0: its
      digits cannot overflow before the scan meets the bad character. */
  lemma AtoiShortMalformed(s: string)
    requires |s| <= 19 && SignedDecimal(s).None?
    ensures Atoi(s) == IntParse(0, false)
  {
    if s != [] {
      var digits := if s[0] == '+' || s[0] == '-' then s[1..] else s;
      ParseUintSpec(digits);
      if digits != [] {
        Pow10Nineteen();
        Pow10Monotone(|digits|, 19);
        ScanNoRange(digits, 0, MaxUint64);
      }
    }
  }

  lemma Pow10Nineteen()
    ensures Pow10(19) == 10_000_000_000_000_000_000
  {
    assert Pow10(4) == 10_000;
    assert Pow10(8) == 100_000_000;
    assert Pow10(12) == 1_000_000_000_000;
    assert Pow10(16) == 10_000_000_000_000_000;
  }

  lemma {:induction false} Pow10Monotone(j: nat, k: nat)
    requires j <= k
    ensures Pow10(j) <= Pow10(k)
  {
    if j < k {
      Pow10Monotone(j, k - 1);
    }
  }

  // ---------------------------------------------------------------------
  // UTF-8

  /** A byte of a Go string. */
  type Byte = b: int | 0 <= b < 0x100

  /** The UTF-8 encoding of one character (section 3 of RFC 3629): an ASCII
      character is its own single byte; any other character is two to four
      bytes, each at least 0x80. */
  function EncodeChar(c: char): (r: seq<Byte>)
    ensures 1 <= |r| <= 4
    ensures c as int < 0x80 ==> r == [c as int]
    ensures c as int >= 0x80 ==> forall k :: 0 <= k < |r| ==> r[k] >= 0x80
  {
    var n := c as int;
    if n < 0x80 then [n]
    else if n < 0x800 then [0xC0 + n / 0x40, 0x80 + n % 0x40]
    else if n < 0x1_0000 then [0xE0 + n / 0x1000, 0x80 + n / 0x40 % 0x40, 0x80 + n % 0x40]
    else [0xF0 + n / 0x4_0000, 0x80 + n / 0x1000 % 0x40, 0x80 + n / 0x40 % 0x40, 0x80 + n % 0x40]
  }

  /** The bytes of the Go string that holds `s`. */
  function Utf8(s: string): (r: seq<Byte>)
    ensures |r| >= |s|
  {
    if s == [] then [] else EncodeChar(s[0]) + Utf8(s[1..])
  }

  lemma {:induction false} Utf8Append(a: string, b: string)
    ensures Utf8(a + b) == Utf8(a) + Utf8(b)
  {
    if a == [] {
      assert a + b == b;
    } else {
      assert (a + b)[0] == a[0] && (a + b)[1..] == a[1..] + b;
      Utf8Append(a[1..], b);
      assert EncodeChar(a[0]) + (Utf8(a[1..]) + Utf8(b)) == (EncodeChar(a[0]) + Utf8(a[1..])) + Utf8(b);
    }
  }

  /** An ASCII string is byte for byte its own encoding. */
  lemma {:induction false} Utf8Ascii(s: string)
    requires forall i :: 0 <= i < |s| ==> s[i] as int < 0x80
    ensures |Utf8(s)| == |s|
    ensures forall i :: 0 <= i < |s| ==> Utf8(s)[i] == s[i] as int
  {
    if s != [] {
      Utf8Ascii(s[1..]);
    }
  }

  // ---------------------------------------------------------------------
  // Percent-decoding

  const Percent: Byte := 0x25
  const Plus: Byte := 0x2B
  const Space: Byte := 0x20

  predicate IsHex(b: Byte)
  {
    (0x30 <= b <= 0x39) || (0x61 <= b <= 0x66) || (0x41 <= b <= 0x46)
  }

  function UnHex(b: Byte): (v: nat)
    requires IsHex(b)
    ensures v < 16
  {
    if b <= 0x39 then b - 0x30
    else if b >= 0x61 then b - 0x61 + 10
    else b - 0x41 + 10
  }

  /** Position `i` holds a `%` that is not followed by two hex digits. */
  predicate BadEscapeAt(s: seq<Byte>, i: nat)
    requires i < |s|
  {
    s[i] == Percent && !(i + 2 < |s| && IsHex(s[i + 1]) && IsHex(s[i + 2]))
  }

  /** The byte loop of `url.QueryUnescape`: `%XY` becomes the byte 0xXY,
      `+` becomes a space, any other byte is copied; a malformed escape fails
      the whole decoding. */
  function Unescape(s: seq<Byte>): Option<seq<Byte>>
  {
    if s == [] then Some([])
    else if s[0] == Percent then
      if |s| < 3 || !IsHex(s[1]) || !IsHex(s[2]) then None
      else match Unescape(s[3..])
        case None => None
        case Some(t) => Some([UnHex(s[1]) * 16 + UnHex(s[2])] + t)
    else
      match Unescape(s[1..])
      case None => None
      case Some(t) => Some([if s[0] == Plus then Space else s[0]] + t)
  }

  /** `url.QueryUnescape` on a path segment: the decoding runs over the
      segment's bytes, and its result is the bytes of the decoded string
      (a multi-byte character arrives as several `%XY` escapes). */
  function QueryUnescape(s: string): Option<seq<Byte>>
  {
    Unescape(Utf8(s))
  }

  /** Decoding fails exactly when some `%` is not followed by two hex digits. */
  lemma {:induction false} UnescapeFails(s: seq<Byte>)
    ensures Unescape(s).None? <==> exists i: nat :: i < |s| && BadEscapeAt(s, i)
  {
    if s == [] {
    } else if s[0] == Percent && (|s| < 3 || !IsHex(s[1]) || !IsHex(s[2])) {
      assert BadEscapeAt(s, 0);
    } else {
      var k := if s[0] == Percent then 3 else 1;
      var t := s[k..];
      UnescapeFails(t);
      assert Unescape(s).None? <==> Unescape(t).None?;
      forall i: nat | i < |t|
        ensures BadEscapeAt(t, i) <==> BadEscapeAt(s, i + k)
      {
        assert t[i] == s[i + k];
        if i + 1 < |t| { assert t[i + 1] == s[i + k + 1]; }
        if i + 2 < |t| { assert t[i + 2] == s[i + k + 2]; }
      }
      forall i: nat | i < k
        ensures !BadEscapeAt(s, i)
      {
      }
      if exists i: nat :: i < |s| && BadEscapeAt(s, i) {
        var i: nat :| i < |s| && BadEscapeAt(s, i);
        assert BadEscapeAt(t, i - k);
      }
      if exists i: nat :: i < |t| && BadEscapeAt(t, i) {
        var i: nat :| i < |t| && BadEscapeAt(t, i);
        assert BadEscapeAt(s, i + k);
      }
    }
  }

  /** A title fails to decode exactly when its bytes hold a `%` without two
      hex digits after it. */
  lemma QueryUnescapeFails(s: string)
    ensures QueryUnescape(s).None? <==> exists i: nat :: i < |Utf8(s)| && BadEscapeAt(Utf8(s), i)
  {
    assert QueryUnescape(s) == Unescape(Utf8(s));
    UnescapeFails(Utf8(s));
  }

  /** Bytes other than `%` and `+` in front are copied through. */
  lemma {:induction false} UnescapePlainPrefix(p: seq<Byte>, q: seq<Byte>)
    requires forall k :: 0 <= k < |p| ==> p[k] != Percent && p[k] != Plus
    ensures Unescape(p + q) == match Unescape(q) case None => None case Some(t) => Some(p + t)
  {
    if p == [] {
      assert p + q == q;
      if Unescape(q).Some? {
        assert p + Unescape(q).value == Unescape(q).value;
      }
    } else {
      assert (p + q)[0] == p[0] && (p + q)[1..] == p[1..] + q;
      UnescapePlainPrefix(p[1..], q);
      if Unescape(q).Some? {
        assert [p[0]] + (p[1..] + Unescape(q).value) == p + Unescape(q).value;
      }
    }
  }

  /** A title without `%` and `+` decodes to its own bytes. */
  lemma {:induction false} QueryUnescapePlain(s: string)
    requires forall i :: 0 <= i < |s| ==> s[i] != '%' && s[i] != '+'
    ensures QueryUnescape(s) == Some(Utf8(s))
  {
    if s != [] {
      QueryUnescapePlain(s[1..]);
      UnescapePlainPrefix(EncodeChar(s[0]), Utf8(s[1..]));
    }
  }

  // The encoder that percent-decoding inverts (`url.QueryEscape`, byte by
  // byte).

  predicate Unreserved(b: Byte)
  {
    (0x61 <= b <= 0x7A) || (0x41 <= b <= 0x5A) || (0x30 <= b <= 0x39)
    || b == 0x2D || b == 0x5F || b == 0x2E || b == 0x7E
  }

  function HexDigit(n: nat): (c: char)
    requires n < 16
    ensures c as int < 0x80 && IsHex(c as int) && UnHex(c as int) == n
  {
    if n < 10 then ('0' as int + n) as char else ('A' as int + n - 10) as char
  }

  /** One byte as it appears in an escaped path segment: unreserved bytes
      as themselves, a space as `+`, anything else as `%XY`. */
  function EscapeByte(b: Byte): (r: string)
    ensures forall i :: 0 <= i < |r| ==> r[i] as int < 0x80
  {
    if Unreserved(b) then [b as char]
    else if b == Space then "+"
    else ['%', HexDigit(b / 16), HexDigit(b % 16)]
  }

  function QueryEscape(s: seq<Byte>): string
  {
    if s == [] then [] else EscapeByte(s[0]) + QueryEscape(s[1..])
  }

  /** Decoding undoes encoding for every byte sequence, so the bytes of any
      title, in any script, survive the trip through a URL path segment. */
  lemma {:induction false} QueryUnescapeEscape(s: seq<Byte>)
    ensures QueryUnescape(QueryEscape(s)) == Some(s)
  {
    if s != [] {
      var head, rest := EscapeByte(s[0]), QueryEscape(s[1..]);
      QueryUnescapeEscape(s[1..]);
      assert QueryEscape(s) == head + rest;
      Utf8Append(head, rest);
      Utf8Ascii(head);
      var e := Utf8(head) + Utf8(rest);
      assert [s[0]] + s[1..] == s;
      if Unreserved(s[0]) || s[0] == Space {
        assert e[1..] == Utf8(rest);
      } else {
        assert e[3..] == Utf8(rest);
        assert UnHex(e[1]) * 16 + UnHex(e[2]) == s[0];
      }
    }
  }

  /** The Turkish letter "ğ" (U+011F) sent as `%C4%9F`, its two UTF-8
      bytes escaped, decodes to the bytes of "ğ". */
  lemma EscapedTurkishLetter()
    ensures QueryUnescape("%C4%9F") == Some(Utf8("ğ"))
  {
    assert Utf8("ğ") == [0xC4, 0x9F];
    assert Utf8("F") == [0x46];
    assert Utf8("9F") == [0x39, 0x46];
    assert Utf8("%9F") == [0x25, 0x39, 0x46];
    assert Utf8("4%9F") == [0x34, 0x25, 0x39, 0x46];
    assert Utf8("C4%9F") == [0x43, 0x34, 0x25, 0x39, 0x46];
    var bytes: seq<Byte> := [0x25, 0x43, 0x34, 0x25, 0x39, 0x46];
    assert Utf8("%C4%9F") == bytes;
    var tail: seq<Byte> := [0x25, 0x39, 0x46];
    assert bytes[3..] == tail;
    assert tail[3..] == [];
    assert tail[0] == Percent && IsHex(tail[1]) && IsHex(tail[2]);
    assert UnHex(tail[1]) * 16 + UnHex(tail[2]) == 0x9F;
    assert Unescape(tail[3..]) == Some([]);
    var last: seq<Byte> := [0x9F];
    assert last + [] == last;
    assert Unescape(tail) == Some(last);
    assert bytes[0] == Percent && IsHex(bytes[1]) && IsHex(bytes[2]);
    assert UnHex(bytes[1]) * 16 + UnHex(bytes[2]) == 0xC4;
    var both: seq<Byte> := [0xC4, 0x9F];
    assert [0xC4 as Byte] + last == both;
    assert Unescape(bytes) == Some(both);
  }
}
