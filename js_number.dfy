/** The number conversions the effect code relies on: `parseInt` with no
    radix, `Number.isNumeric` on strings (whether `Number(s)` is not NaN,
    after the StringNumericLiteral grammar of section 7.1.4.1.1 of
    ECMA-262), and the decimal text of an integer (`Number.prototype.toString`).
    JavaScript numbers are modelled as unbounded integers or NaN. */
module JsNumber {
  import opened Results
  import opened JsString

  /** An integral JavaScript number, or NaN. */
  datatype Num = Int(n: int) | NaN

  /** `x * k` on the model's numbers: NaN stays NaN. */
  function Scale(x: Num, k: int): (r: Num)
    ensures r.NaN? <==> x.NaN?
  {
    match x
    case NaN => NaN
    case Int(n) => Int(n * k)
  }

  predicate IsDecimalDigit(c: char)
  {
    '0' <= c <= '9'
  }

  predicate IsHexDigit(c: char)
  {
    IsDecimalDigit(c) || 'a' <= c <= 'f' || 'A' <= c <= 'F'
  }

  function DigitValue(c: char): (v: nat)
    requires IsHexDigit(c)
    ensures v < 16
    ensures IsDecimalDigit(c) <==> v < 10
  {
    if IsDecimalDigit(c) then c as int - '0' as int
    else if 'a' <= c <= 'f' then c as int - 'a' as int + 10
    else c as int - 'A' as int + 10
  }

  /** `c` is a digit in base `radix` (2, 8, 10 or 16). */
  predicate IsDigitOf(c: char, radix: nat)
  {
    IsHexDigit(c) && DigitValue(c) < radix
  }

  predicate AllDigitsOf(s: string, radix: nat)
  {
    forall k :: 0 <= k < |s| ==> IsDigitOf(s[k], radix)
  }

  /** The longest prefix of `s` made of digits of base `radix`. */
  function DigitPrefix(s: string, radix: nat): (p: string)
    ensures p <= s
    ensures AllDigitsOf(p, radix)
    ensures |p| < |s| ==> !IsDigitOf(s[|p|], radix)
    decreases |s|
  {
    if s != [] && IsDigitOf(s[0], radix) then [s[0]] + DigitPrefix(s[1..], radix) else []
  }

  /** The value of a digit string in base `radix`, most significant first. */
  function DigitsValue(d: string, radix: nat): nat
    requires AllDigitsOf(d, radix)
    decreases |d|
  {
    if d == [] then 0
    else DigitsValue(d[..|d| - 1], radix) * radix + DigitValue(d[|d| - 1])
  }

  /** The text after an optional leading sign. */
  function DropSign(t: string): (u: string)
    ensures |u| <= |t|
  {
    if |t| > 0 && (t[0] == '-' || t[0] == '+') then t[1..] else t
  }

  /** `u` starts with the `0x`/`0X` prefix of a hexadecimal number. */
  predicate HasHexPrefix(u: string)
  {
    |u| >= 2 && u[0] == '0' && (u[1] == 'x' || u[1] == 'X')
  }

  /** The unsigned value `parseInt` reads from the start of `u`: base 16
      after a `0x` prefix, base 10 otherwise, up to the first non-digit;
      None when there is no digit. */
  function ParseMagnitude(u: string): (r: Option<nat>)
    ensures u == [] ==> r.None?
    ensures HasHexPrefix(u) && |u| == 2 ==> r.None?
    ensures !HasHexPrefix(u) && u != [] && IsDecimalDigit(u[0]) ==> r.Some?
  {
    var radix := if HasHexPrefix(u) then 16 else 10;
    var d := DigitPrefix(if HasHexPrefix(u) then u[2..] else u, radix);
    if d == [] then None else Some(DigitsValue(d, radix))
  }

  /** `parseInt(s)`: skip leading white space, take an optional sign and
      read the magnitude; no digit at all gives NaN. */
  function ParseInt(s: string): (r: Num)
    ensures TrimStart(s) == [] ==> r.NaN?
    ensures r.Int? && r.n < 0 ==> '-' in s
  {
    ParseSigned(TrimStart(s))
  }

  /** What `parseInt` reads once leading white space is gone. */
  function ParseSigned(t: string): (r: Num)
    ensures t == [] ==> r.NaN?
    ensures r.Int? && r.n < 0 ==> t[0] == '-'
    ensures t != [] && IsDecimalDigit(t[0]) && !HasHexPrefix(t) ==> r.Int? && r.n >= 0
  {
    match ParseMagnitude(DropSign(t))
    case None => NaN
    case Some(v) => if |t| > 0 && t[0] == '-' then Int(-(v as int)) else Int(v)
  }

  /** Text that starts with a character that is neither white space, nor a
      digit, nor a sign has no number for `parseInt` to read. */
  lemma ParseIntOfNonDigit(s: string)
    requires s != [] && !IsJsWhitespace(s[0]) && !IsDecimalDigit(s[0])
    requires s[0] != '+' && s[0] != '-'
    ensures ParseInt(s) == NaN
  {
    assert TrimStart(s) == s;
    assert DropSign(s) == s;
    assert !HasHexPrefix(s);
    assert DigitPrefix(s, 10) == [];
  }

  function DigitChar(d: nat): (c: char)
    requires d < 10
    ensures IsDecimalDigit(c) && DigitValue(c) == d
  {
    ('0' as int + d) as char
  }

  /** The decimal digits of `n`, without leading zeros. */
  function NatToString(n: nat): (s: string)
    ensures |s| >= 1
    ensures AllDigitsOf(s, 10)
    ensures n > 0 ==> s[0] != '0'
    ensures n == 0 ==> s == "0"
    decreases n
  {
    if n < 10 then [DigitChar(n)] else NatToString(n / 10) + [DigitChar(n % 10)]
  }

  /** `String(n)` for an integral number. */
  function IntToString(n: int): (s: string)
    ensures |s| >= 1
    ensures s[0] == '-' <==> n < 0
    ensures n >= 0 ==> AllDigitsOf(s, 10)
  {
    if n < 0 then "-" + NatToString(-n) else NatToString(n)
  }

  /** The decimal text of `n` reads back as `n`. */
  lemma {:induction false} DigitsValueOfNatToString(n: nat)
    ensures DigitsValue(NatToString(n), 10) == n
    decreases n
  {
    if n >= 10 {
      DigitsValueOfNatToString(n / 10);
      var s := NatToString(n);
      assert s[..|s| - 1] == NatToString(n / 10);
    }
  }

  /** A digit run followed by a non-digit is exactly the longest digit prefix. */
  lemma {:induction false} DigitPrefixOfRun(d: string, t: string, radix: nat)
    requires AllDigitsOf(d, radix)
    requires t == [] || !IsDigitOf(t[0], radix)
    ensures DigitPrefix(d + t, radix) == d
    decreases |d|
  {
    if d == [] {
      assert d + t == t;
    } else {
      DigitPrefixOfRun(d[1..], t, radix);
      assert (d + t)[1..] == d[1..] + t;
      assert d == [d[0]] + d[1..];
    }
  }

  /** The magnitude of a digit run without leading zeros, followed by text
      that neither continues it nor makes a hexadecimal prefix of it. */
  lemma MagnitudeOfNatToString(m: nat, t: string)
    requires t == [] || (!IsDecimalDigit(t[0]) && t[0] != 'x' && t[0] != 'X')
    ensures ParseMagnitude(NatToString(m) + t) == Some(m)
  {
    var digits := NatToString(m);
    var u := digits + t;
    DigitsValueOfNatToString(m);
    DigitPrefixOfRun(digits, t, 10);
    assert !HasHexPrefix(u) by {
      if m == 0 {
        assert u == "0" + t;
      } else {
        assert u[0] == digits[0];
      }
    }
  }

  /** No decimal digit and no sign is white space. */
  lemma DigitOrSignIsNotBlank(c: char)
    requires IsDecimalDigit(c) || c == '-' || c == '+'
    ensures !IsJsWhitespace(c)
  {
  }

  /** `parseInt` on a signed digit run: the sign is applied to the magnitude. */
  lemma ParseSignedOfRun(sign: string, u: string, m: nat, s: string)
    requires sign == "" || sign == "-"
    requires u != [] && IsDecimalDigit(u[0])
    requires ParseMagnitude(u) == Some(m)
    requires s == sign + u
    ensures ParseInt(s) == Int(if sign == "-" then -(m as int) else m)
  {
    assert s[0] == (if sign == "-" then '-' else u[0]);
    DigitOrSignIsNotBlank(s[0]);
    TrimStartOfNonBlank(s);
    assert DropSign(s) == u by {
      if sign == "-" {
        assert s[1..] == u;
      } else {
        assert s == u;
      }
    }
  }

  /** A natural number's decimal text followed by text that does not
      continue it starts with a digit and reads back as that number. */
  lemma DigitRunOfNatToString(m: nat, t: string)
    requires t == [] || (!IsDecimalDigit(t[0]) && t[0] != 'x' && t[0] != 'X')
    ensures NatToString(m) + t != [] && IsDecimalDigit((NatToString(m) + t)[0])
    ensures ParseMagnitude(NatToString(m) + t) == Some(m)
  {
    var digits := NatToString(m);
    MagnitudeOfNatToString(m, t);
    assert (digits + t)[0] == digits[0];
    assert IsDigitOf(digits[0], 10);
  }

  /** `parseInt` reads an integer's decimal text back, whatever non-digit
      text follows it (`parseInt("3 rounds") == 3`, `parseInt("1.5") == 1`),
      unless an `x` right after a lone `0` turns it into a hexadecimal prefix. */
  lemma ParseIntOfIntToStringThen(n: int, t: string)
    requires t == [] || (!IsDecimalDigit(t[0]) && t[0] != 'x' && t[0] != 'X')
    ensures ParseInt(IntToString(n) + t) == Int(n)
  {
    var m: nat := if n < 0 then -n else n;
    var sign := if n < 0 then "-" else "";
    assert IntToString(n) == sign + NatToString(m);
    ParseSignedTextOfNat(sign, m, t);
  }

  /** Concatenating texts does not depend on grouping. */
  lemma ConcatAssociates(a: string, b: string, c: string)
    ensures a + b + c == a + (b + c)
  {
  }

  /** A sign and a natural number's decimal text, followed by text that does
      not continue it, read back as the signed number. */
  lemma ParseSignedTextOfNat(sign: string, m: nat, t: string)
    requires sign == "" || sign == "-"
    requires t == [] || (!IsDecimalDigit(t[0]) && t[0] != 'x' && t[0] != 'X')
    ensures ParseInt(sign + NatToString(m) + t) == Int(if sign == "-" then -(m as int) else m)
  {
    var u := NatToString(m) + t;
    DigitRunOfNatToString(m, t);
    ConcatAssociates(sign, NatToString(m), t);
    ParseSignedOfRun(sign, u, m, sign + NatToString(m) + t);
  }

  /** `parseInt(String(n)) == n`. */
  lemma ParseIntOfIntToString(n: int)
    ensures ParseInt(IntToString(n)) == Int(n)
  {
    ParseIntOfIntToStringThen(n, "");
    assert IntToString(n) + "" == IntToString(n);
  }

  /** Leading white space does not change what `parseInt` reads. */
  lemma ParseIntSkipsWhitespace(c: char, s: string)
    requires IsJsWhitespace(c)
    ensures ParseInt([c] + s) == ParseInt(s)
  {
    var t := [c] + s;
    var n := LeadingBlanks(s);
    TrimStartRemovesBlanks(s);
    assert forall k :: 1 <= k <= |s| ==> t[k] == s[k - 1];
    TrimStartAt(t, n + 1);
    assert t[n + 1..] == s[n..];
  }

  /** The index of the first exponent marker `e`/`E` in `u`, or `|u|`. */
  function ExponentMarker(u: string): (e: nat)
    ensures e <= |u|
    ensures e < |u| ==> u[e] == 'e' || u[e] == 'E'
    ensures forall k :: 0 <= k < e ==> u[k] != 'e' && u[k] != 'E'
    decreases |u|
  {
    if u == [] || u[0] == 'e' || u[0] == 'E' then 0 else 1 + ExponentMarker(u[1..])
  }

  /** DecimalDigits `.` DecimalDigits with at least one digit and either
      side possibly empty, or DecimalDigits alone. */
  predicate IsMantissa(m: string)
  {
    match IndexOf(m, ".")
    case None => m != [] && AllDigitsOf(m, 10)
    case Some(d) => |m| > 1 && AllDigitsOf(m[..d], 10) && AllDigitsOf(m[d + 1..], 10)
  }

  /** An optionally signed, non-empty run of decimal digits (the exponent). */
  predicate IsSignedInteger(x: string)
  {
    var y := if |x| > 0 && (x[0] == '+' || x[0] == '-') then x[1..] else x;
    y != [] && AllDigitsOf(y, 10)
  }

  /** StrUnsignedDecimalLiteral: `Infinity`, or a mantissa with an optional exponent. */
  predicate IsUnsignedDecimalLiteral(u: string)
  {
    u == "Infinity" ||
    var e := ExponentMarker(u);
    IsMantissa(u[..e]) && (e == |u| || IsSignedInteger(u[e + 1..]))
  }

  /** StrDecimalLiteral: an optional sign before an unsigned decimal literal. */
  predicate IsDecimalLiteral(t: string)
  {
    if |t| > 0 && (t[0] == '+' || t[0] == '-') then IsUnsignedDecimalLiteral(t[1..])
    else IsUnsignedDecimalLiteral(t)
  }

  /** The base announced by the letter after a leading `0`, or 0 for none. */
  function RadixOfMarker(c: char): nat
  {
    if c == 'x' || c == 'X' then 16
    else if c == 'o' || c == 'O' then 8
    else if c == 'b' || c == 'B' then 2
    else 0
  }

  /** NonDecimalIntegerLiteral: `0x…`, `0o…` or `0b…` with at least one digit. */
  predicate IsNonDecimalIntegerLiteral(t: string)
  {
    |t| > 2 && t[0] == '0' && RadixOfMarker(t[1]) > 0 && AllDigitsOf(t[2..], RadixOfMarker(t[1]))
  }

  /** `Number(s)` is not NaN: after trimming, `s` is empty or a StrNumericLiteral. */
  predicate NumberIsDefined(s: string)
  {
    var t := Trim(s);
    t == [] || IsNonDecimalIntegerLiteral(t) || IsDecimalLiteral(t)
  }

  /** `Number.isNumeric(s)` for a string `s`: Foundry tests `+s === +s`,
      that is, whether `Number(s)` is not NaN. The empty string converts to
      0 and so is numeric. */
  predicate IsNumericString(s: string)
  {
    NumberIsDefined(s)
  }

  /** A non-empty run of decimal digits is an unsigned decimal literal. */
  lemma DigitsAreDecimalLiteral(d: string)
    requires d != [] && AllDigitsOf(d, 10)
    ensures IsUnsignedDecimalLiteral(d)
  {
    assert ExponentMarker(d) == |d|;
    assert d[..|d|] == d;
    if IndexOf(d, ".").Some? {
      var i := IndexOf(d, ".").value;
      assert d[i..i + 1] == ".";
    }
  }

  /** The decimal text of an integer is numeric. */
  lemma IntToStringIsNumeric(n: int)
    ensures IsNumericString(IntToString(n))
  {
    var s := IntToString(n);
    var m: nat := if n < 0 then -n else n;
    var digits := NatToString(m);
    DigitsAreDecimalLiteral(digits);
    assert IsDigitOf(s[|s| - 1], 10);
    DigitOrSignIsNotBlank(s[0]);
    DigitOrSignIsNotBlank(s[|s| - 1]);
    TrimOfNonBlankEnds(s);
    if n < 0 {
      assert s[1..] == digits;
    } else {
      assert IsDecimalDigit(s[0]);
    }
    assert IsDecimalLiteral(s);
  }

  /** A string whose first character is not blank, not a digit and cannot
      start a number (`+`, `-`, `.`, `I` of `Infinity`) is not numeric:
      `Number.isNumeric("abc")` and `Number.isNumeric("@UUID[...]")` are false. */
  lemma NotNumericByFirstChar(s: string)
    requires s != []
    requires !IsJsWhitespace(s[0]) && !IsDecimalDigit(s[0])
    requires s[0] != '+' && s[0] != '-' && s[0] != '.' && s[0] != 'I'
    ensures !IsNumericString(s)
  {
    TrimKeepsFirst(s);
    var t := Trim(s);
    assert t[0] == s[0];
    assert t != "Infinity";
    var e := ExponentMarker(t);
    var m := t[..e];
    if e > 0 {
      assert m[0] == t[0];
      MantissaStart(m);
    }
    assert !IsUnsignedDecimalLiteral(t);
    assert !IsDecimalLiteral(t);
    assert !IsNonDecimalIntegerLiteral(t);
  }

  /** A mantissa that does not start with a digit or `.` is no mantissa. */
  lemma MantissaStart(m: string)
    requires m != [] && !IsDecimalDigit(m[0]) && m[0] != '.'
    ensures !IsMantissa(m)
  {
    if IndexOf(m, ".").Some? {
      var d := IndexOf(m, ".").value;
      assert m[d] == '.' by {
        assert m[d..d + 1][0] == m[d];
      }
      if d > 0 {
        assert m[..d][0] == m[0];
      }
    }
  }

  /** A string of white space only, the empty string included, is numeric
      (`Number("  ") == Number("") == 0`) although `parseInt` finds no digit
      in it: `Number.isNumeric` accepts it and `parseInt` then gives NaN. */
  lemma BlankIsNumericButParsesToNaN(s: string)
    requires forall k :: 0 <= k < |s| ==> IsJsWhitespace(s[k])
    ensures IsNumericString(s)
    ensures ParseInt(s) == NaN
  {
    TrimBlank(s);
    TrimStartAt(s, |s|);
  }
}
