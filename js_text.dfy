/** The JavaScript string built-ins the todo backend relies on: template
    interpolation of a configuration value that may be unset,
    `String.prototype.split` with a one-character separator, and the global
    `parseInt` with no radix argument. */
module JsText {
  import opened Wrappers

  /** `${v}` (and `String(v)`) for a value read from the process environment:
      an unset variable is `undefined`, which converts to "undefined". */
  function Render(v: Option<string>): string
  {
    match v
    case Some(s) => s
    case None => "undefined"
  }

  /** Number of occurrences of `c` in `s`. */
  function Count(s: string, c: char): (n: nat)
    ensures n == 0 <==> c !in s
  {
    if |s| == 0 then 0 else (if s[0] == c then 1 else 0) + Count(s[1..], c)
  }

  /** `s.split(sep)` for a one-character separator: every occurrence of `sep`
      ends a piece, so pieces may be empty and there is always exactly one
      more piece than there are separators. */
  function Split(s: string, sep: char): (parts: seq<string>)
    ensures |parts| == Count(s, sep) + 1
    ensures forall i :: 0 <= i < |parts| ==> sep !in parts[i]
  {
    if |s| == 0 then [""]
    else
      var rest := Split(s[1..], sep);
      if s[0] == sep then [""] + rest
      else [[s[0]] + rest[0]] + rest[1..]
  }

  /** `parts.join(sep)`. */
  function Join(parts: seq<string>, sep: char): string
    requires |parts| >= 1
  {
    if |parts| == 1 then parts[0] else parts[0] + [sep] + Join(parts[1..], sep)
  }

  /** Joining the pieces of a split gives back the original string. */
  lemma {:induction false} JoinOfSplit(s: string, sep: char)
    ensures Join(Split(s, sep), sep) == s
  {
    if |s| > 0 {
      JoinOfSplit(s[1..], sep);
      var rest := Split(s[1..], sep);
      var parts := Split(s, sep);
      if s[0] == sep {
        assert parts == [""] + rest;
        JoinAfterEmpty(parts, rest, sep);
      } else {
        assert parts == [[s[0]] + rest[0]] + rest[1..];
        JoinAfterChar(parts, s[0], rest, sep);
      }
      assert s == [s[0]] + s[1..];
    }
  }

  lemma JoinAfterEmpty(parts: seq<string>, rest: seq<string>, sep: char)
    requires |rest| >= 1 && parts == [""] + rest
    ensures Join(parts, sep) == [sep] + Join(rest, sep)
  {
    assert parts[1..] == rest;
    assert parts[0] + [sep] == [sep];
  }

  lemma JoinAfterChar(parts: seq<string>, c: char, rest: seq<string>, sep: char)
    requires |rest| >= 1 && parts == [[c] + rest[0]] + rest[1..]
    ensures Join(parts, sep) == [c] + Join(rest, sep)
  {
    if |rest| > 1 {
      assert parts[1..] == rest[1..];
      assert Join(parts, sep) == [c] + rest[0] + [sep] + Join(rest[1..], sep);
    }
  }

  /** A string without the separator splits into itself alone. */
  lemma {:induction false} SplitWithoutSeparator(p: string, sep: char)
    requires sep !in p
    ensures Split(p, sep) == [p]
  {
    if |p| > 0 {
      SplitWithoutSeparator(p[1..], sep);
      assert [p[0]] + p[1..] == p;
    }
  }

  /** A leading piece free of the separator is split off exactly. */
  lemma {:induction false} SplitAfterPiece(p: string, rest: string, sep: char)
    requires sep !in p
    ensures Split(p + [sep] + rest, sep) == [p] + Split(rest, sep)
  {
    if |p| == 0 {
      assert p + [sep] + rest == [sep] + rest;
      assert ([sep] + rest)[1..] == rest;
    } else {
      var q := p[1..];
      var tail := q + [sep] + rest;
      SplitAfterPiece(q, rest, sep);
      assert Split(tail, sep)[0] == q;
      assert Split(tail, sep)[1..] == Split(rest, sep);
      assert [p[0]] + q == p;
      assert p + [sep] + rest == [p[0]] + tail;
      SplitCons(p + [sep] + rest, p[0], tail, sep);
    }
  }

  lemma SplitCons(s: string, c: char, t: string, sep: char)
    requires s == [c] + t && c != sep
    ensures Split(s, sep) == [[c] + Split(t, sep)[0]] + Split(t, sep)[1..]
  {
    assert s[1..] == t;
  }

  /** Splitting a join of separator-free pieces gives back the pieces. */
  lemma {:induction false} SplitOfJoin(parts: seq<string>, sep: char)
    requires |parts| >= 1
    requires forall i :: 0 <= i < |parts| ==> sep !in parts[i]
    ensures Split(Join(parts, sep), sep) == parts
  {
    if |parts| == 1 {
      SplitWithoutSeparator(parts[0], sep);
    } else {
      SplitOfJoin(parts[1..], sep);
      SplitAfterPiece(parts[0], Join(parts[1..], sep), sep);
      assert [parts[0]] + parts[1..] == parts;
    }
  }

  /** The result of `parseInt`: a number, or NaN when no digit was found. */
  datatype JsNumber = NaN | Int(value: int)

  /** ECMAScript WhiteSpace and LineTerminator code points, which `parseInt`
      skips before the number. */
  predicate IsWhiteSpace(c: char)
  {
    var n := c as int;
    n == 0x09 || n == 0x0A || n == 0x0B || n == 0x0C || n == 0x0D || n == 0x20
    || n == 0xA0 || n == 0x1680 || (0x2000 <= n <= 0x200A) || n == 0x2028
    || n == 0x2029 || n == 0x202F || n == 0x205F || n == 0x3000 || n == 0xFEFF
  }

  /** Removes the longest white-space prefix. */
  function TrimStart(s: string): (t: string)
    ensures |t| <= |s| && t == s[|s| - |t|..]
    ensures forall i :: 0 <= i < |s| - |t| ==> IsWhiteSpace(s[i])
    ensures |t| > 0 ==> !IsWhiteSpace(t[0])
  {
    if |s| > 0 && IsWhiteSpace(s[0]) then TrimStart(s[1..]) else s
  }

  /** The value of `c` as a digit in radices up to 36 ('0'-'9', then 'a'-'z'
      or 'A'-'Z'); 36 for a character that is a digit in no radix. */
  function DigitValue(c: char): (d: nat)
    ensures d <= 36
    ensures d < 10 <==> '0' <= c <= '9'
  {
    if '0' <= c <= '9' then c as int - '0' as int
    else if 'a' <= c <= 'z' then c as int - 'a' as int + 10
    else if 'A' <= c <= 'Z' then c as int - 'A' as int + 10
    else 36
  }

  /** The longest prefix of `s` made of digits of the given radix. */
  function DigitPrefix(s: string, radix: nat): (p: string)
    requires 2 <= radix <= 36
    ensures |p| <= |s| && p == s[..|p|]
    ensures forall i :: 0 <= i < |p| ==> DigitValue(p[i]) < radix
    ensures |p| < |s| ==> DigitValue(s[|p|]) >= radix
  {
    if |s| > 0 && DigitValue(s[0]) < radix then [s[0]] + DigitPrefix(s[1..], radix) else []
  }

  /** The number the digit string `p` denotes in the given radix. */
  function DigitsValue(p: string, radix: nat): nat
  {
    if |p| == 0 then 0 else DigitsValue(p[..|p| - 1], radix) * radix + DigitValue(p[|p| - 1])
  }

  /** The global `parseInt(s)` with no radix: skip leading white space, read
      an optional sign, then the magnitude; NaN when no digit follows. */
  function ParseInt(s: string): JsNumber
  {
    var t := TrimStart(s);
    if |t| > 0 && t[0] == '-' then Negate(ParseMagnitude(t[1..]))
    else if |t| > 0 && t[0] == '+' then ParseMagnitude(t[1..])
    else ParseMagnitude(t)
  }

  /** After the sign: a "0x"/"0X" prefix selects radix 16, otherwise radix
      10; the number is the longest digit prefix that follows. */
  function ParseMagnitude(s: string): JsNumber
  {
    if |s| >= 2 && s[0] == '0' && (s[1] == 'x' || s[1] == 'X') then DigitsNumber(s[2..], 16)
    else DigitsNumber(s, 10)
  }

  function DigitsNumber(s: string, radix: nat): JsNumber
    requires 2 <= radix <= 36
  {
    var z := DigitPrefix(s, radix);
    if |z| == 0 then NaN else Int(DigitsValue(z, radix))
  }

  function Negate(x: JsNumber): JsNumber
  {
    match x
    case NaN => NaN
    case Int(v) => Int(-v)
  }

  function DigitChar(d: nat): (c: char)
    requires d < 10
    ensures DigitValue(c) == d
  {
    ('0' as int + d) as char
  }

  /** The canonical decimal numeral of `n`, without leading zeros. */
  function Decimal(n: nat): (s: string)
    ensures |s| > 0
    ensures forall i :: 0 <= i < |s| ==> DigitValue(s[i]) < 10
    ensures s[0] == '0' ==> n == 0
  {
    if n < 10 then [DigitChar(n)] else Decimal(n / 10) + [DigitChar(n % 10)]
  }

  /** The decimal numeral of an integer, with '-' for negatives. */
  function SignedDecimal(n: int): string
  {
    if n < 0 then "-" + Decimal(-n) else Decimal(n)
  }

  /** A decimal numeral denotes the number it was made from. */
  lemma {:induction false} DecimalValue(n: nat)
    ensures DigitsValue(Decimal(n), 10) == n
  {
    if n >= 10 {
      DecimalValue(n / 10);
      var s := Decimal(n);
      assert s[..|s| - 1] == Decimal(n / 10);
    }
  }

  /** The digit prefix of a digit string followed by a non-digit is that
      digit string. */
  lemma {:induction false} DigitPrefixOfDigits(d: string, rest: string, radix: nat)
    requires 2 <= radix <= 36
    requires forall i :: 0 <= i < |d| ==> DigitValue(d[i]) < radix
    requires |rest| == 0 || DigitValue(rest[0]) >= radix
    ensures DigitPrefix(d + rest, radix) == d
  {
    if |d| > 0 {
      DigitPrefixOfDigits(d[1..], rest, radix);
      assert (d + rest)[1..] == d[1..] + rest;
      assert [d[0]] + d[1..] == d;
    } else {
      assert d + rest == rest;
    }
  }

  /** The magnitude of a decimal numeral followed by a non-digit is the
      number it denotes, unless the numeral is "0" and an 'x' or 'X' follows. */
  lemma MagnitudeOfDecimal(m: nat, rest: string)
    requires |rest| == 0 || DigitValue(rest[0]) >= 10
    requires m == 0 ==> |rest| == 0 || (rest[0] != 'x' && rest[0] != 'X')
    ensures ParseMagnitude(Decimal(m) + rest) == Int(m)
  {
    var digits := Decimal(m);
    var s := digits + rest;
    assert !(|s| >= 2 && s[0] == '0' && (s[1] == 'x' || s[1] == 'X')) by {
      if |s| >= 2 && s[0] == '0' {
        assert m == 0 && |digits| == 1 && s[1] == rest[0];
      }
    }
    DigitPrefixOfDigits(digits, rest, 10);
    DecimalValue(m);
  }

  /** `parseInt` reads back the decimal numeral of any integer, whatever
      follows it, provided the next character is not a decimal digit, and,
      for zero, not an 'x' or 'X' (which would turn "0" into a hexadecimal
      prefix). */
  lemma ParseIntOfDecimal(n: int, rest: string)
    requires |rest| == 0 || DigitValue(rest[0]) >= 10
    requires n == 0 ==> |rest| == 0 || (rest[0] != 'x' && rest[0] != 'X')
    ensures ParseInt(SignedDecimal(n) + rest) == Int(n)
  {
    if n < 0 {
      ParseIntOfNegative(n, rest);
    } else {
      ParseIntOfNatural(n, rest);
    }
  }

  lemma ParseIntOfNegative(n: int, rest: string)
    requires n < 0
    requires |rest| == 0 || DigitValue(rest[0]) >= 10
    ensures ParseInt(SignedDecimal(n) + rest) == Int(n)
  {
    var m: nat := -n;
    var tail := Decimal(m) + rest;
    NegativeNumeral(n, rest);
    MagnitudeOfDecimal(m, rest);
    ParseIntSigned(SignedDecimal(n) + rest, tail, m);
  }

  lemma ParseIntSigned(s: string, tail: string, m: int)
    requires s == ['-'] + tail
    requires ParseMagnitude(tail) == Int(m)
    ensures ParseInt(s) == Int(-m)
  {
    ParseIntNegative(tail);
  }

  lemma ParseIntOfNatural(m: nat, rest: string)
    requires |rest| == 0 || DigitValue(rest[0]) >= 10
    requires m == 0 ==> |rest| == 0 || (rest[0] != 'x' && rest[0] != 'X')
    ensures ParseInt(SignedDecimal(m) + rest) == Int(m)
  {
    var digits := Decimal(m);
    assert SignedDecimal(m) + rest == digits + rest;
    assert (digits + rest)[0] == digits[0];
    ParseIntUnsigned(digits + rest);
    MagnitudeOfDecimal(m, rest);
  }

  lemma NegativeNumeral(n: int, rest: string)
    requires n < 0
    ensures SignedDecimal(n) + rest == ['-'] + (Decimal(-n) + rest)
  {
  }

  lemma ParseIntNegative(tail: string)
    ensures ParseInt(['-'] + tail) == Negate(ParseMagnitude(tail))
  {
    var s := ['-'] + tail;
    NoTrimBefore(s);
    assert s[1..] == tail;
  }

  lemma ParseIntUnsigned(s: string)
    requires |s| > 0 && DigitValue(s[0]) < 10
    ensures ParseInt(s) == ParseMagnitude(s)
  {
    NoTrimBefore(s);
  }

  lemma NoTrimBefore(s: string)
    requires |s| > 0 && (s[0] == '-' || DigitValue(s[0]) < 10)
    ensures TrimStart(s) == s
  {
    assert !IsWhiteSpace(s[0]);
  }

  /** An unset expiry setting is read as `parseInt("undefined")`, which is
      NaN. */
  lemma UnsetIsNaN()
    ensures ParseInt(Render(None)) == NaN
  {
    assert TrimStart("undefined") == "undefined";
    assert DigitValue('u') >= 10;
  }
}
