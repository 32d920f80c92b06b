/**
 * The PHP string built-ins the file manager relies on (trim, rtrim, basename,
 * pathinfo, str_replace, strtolower, implode, empty, casts), written out over
 * `seq<char>`, plus the byte-wise order that ksort uses for file names.
 */
module PhpStrings {

  /** The characters `trim` strips when given no character list. */
  const Whitespace: set<char> := {' ', '\t', '\n', '\r', '\0', '\U{B}'}

  /** `rtrim($s, $chars)` */
  function TrimRight(s: string, chars: set<char>): (r: string)
    ensures r <= s
    ensures r == [] || r[|r| - 1] !in chars
    ensures forall i :: |r| <= i < |s| ==> s[i] in chars
    decreases |s|
  {
    if s != [] && s[|s| - 1] in chars then TrimRight(s[..|s| - 1], chars) else s
  }

  /** `ltrim($s, $chars)` */
  function TrimLeft(s: string, chars: set<char>): (r: string)
    ensures |r| <= |s| && r == s[|s| - |r|..]
    ensures r == [] || r[0] !in chars
    ensures forall i :: 0 <= i < |s| - |r| ==> s[i] in chars
    decreases |s|
  {
    if s != [] && s[0] in chars then TrimLeft(s[1..], chars) else s
  }

  /** `pattern` occurs in `s` starting at index `i`. */
  predicate OccursAt(s: string, pattern: string, i: int) {
    0 <= i && i + |pattern| <= |s| && s[i..i + |pattern|] == pattern
  }

  /** `trim($s, $chars)`: the infix left once both ends are stripped of `chars`. */
  function Trim(s: string, chars: set<char>): (r: string)
    ensures r == [] || (r[0] !in chars && r[|r| - 1] !in chars)
    ensures |r| <= |s|
  {
    TrimLeft(TrimRight(s, chars), chars)
  }

  /** `trim($s)` with the default character list. */
  function TrimSpace(s: string): (r: string)
    ensures r == [] || (r[0] !in Whitespace && r[|r| - 1] !in Whitespace)
  {
    Trim(s, Whitespace)
  }

  lemma {:induction false} TrimRightIdempotent(s: string, chars: set<char>)
    ensures TrimRight(TrimRight(s, chars), chars) == TrimRight(s, chars)
  {
    var r := TrimRight(s, chars);
    assert r == [] || r[|r| - 1] !in chars;
  }

  lemma TrimLeftOfClean(s: string, chars: set<char>)
    requires s == [] || s[0] !in chars
    ensures TrimLeft(s, chars) == s
  {
  }

  lemma TrimRightOfClean(s: string, chars: set<char>)
    requires s == [] || s[|s| - 1] !in chars
    ensures TrimRight(s, chars) == s
  {
  }

  /** `trim` leaves alone a string whose two ends are already clean. */
  lemma TrimOfClean(s: string, chars: set<char>)
    requires s == [] || (s[0] !in chars && s[|s| - 1] !in chars)
    ensures Trim(s, chars) == s
  {
    TrimRightOfClean(s, chars);
    TrimLeftOfClean(s, chars);
  }

  lemma TrimIdempotent(s: string, chars: set<char>)
    ensures Trim(Trim(s, chars), chars) == Trim(s, chars)
  {
    TrimOfClean(Trim(s, chars), chars);
  }

  /** `strncmp($s, $prefix, strlen($prefix)) === 0` */
  predicate StartsWith(s: string, prefix: string) {
    |prefix| <= |s| && s[..|prefix|] == prefix
  }

  /** `str_replace($search, $replace, $s)`: left to right, non-overlapping. An empty search string changes nothing. */
  function ReplaceAll(s: string, search: string, replace: string): (r: string)
    decreases |s|
  {
    if search == [] || |s| < |search| then s
    else if s[..|search|] == search then replace + ReplaceAll(s[|search|..], search, replace)
    else [s[0]] + ReplaceAll(s[1..], search, replace)
  }

  /** Replacing one character by a string without it removes every occurrence of that character. */
  lemma {:induction false} ReplaceCharRemovesIt(s: string, c: char, replace: string)
    requires c !in replace
    ensures c !in ReplaceAll(s, [c], replace)
    decreases |s|
  {
    if |s| >= 1 {
      ReplaceCharRemovesIt(s[1..], c, replace);
    }
  }

  /** Characters other than the replaced one survive, in order, and nothing new appears except the replacement's. */
  lemma {:induction false} ReplaceCharKeepsOthers(s: string, c: char, replace: string, d: char)
    requires d != c && d !in replace
    ensures d in ReplaceAll(s, [c], replace) <==> d in s
    decreases |s|
  {
    if |s| >= 1 {
      ReplaceCharKeepsOthers(s[1..], c, replace, d);
      assert s == [s[0]] + s[1..];
    }
  }

  /** Replacing one character by one character rewrites exactly its occurrences and keeps the length. */
  lemma {:induction false} ReplaceCharByChar(s: string, c: char, d: char)
    ensures |ReplaceAll(s, [c], [d])| == |s|
    ensures forall i :: 0 <= i < |s| ==> ReplaceAll(s, [c], [d])[i] == if s[i] == c then d else s[i]
    decreases |s|
  {
    if |s| >= 1 {
      ReplaceCharByChar(s[1..], c, d);
      assert s[..1] == [s[0]];
    }
  }

  /** A string that does not contain the search string is left unchanged. */
  lemma {:induction false} ReplaceAbsent(s: string, search: string, replace: string)
    requires search != []
    requires forall i :: !OccursAt(s, search, i)
    ensures ReplaceAll(s, search, replace) == s
    decreases |s|
  {
    if |s| >= |search| {
      assert !OccursAt(s, search, 0);
      forall i ensures !OccursAt(s[1..], search, i) {
        if OccursAt(s[1..], search, i) {
          assert s[1..][i..i + |search|] == s[i + 1..i + 1 + |search|];
          assert OccursAt(s, search, i + 1);
        }
      }
      ReplaceAbsent(s[1..], search, replace);
      assert s == [s[0]] + s[1..];
    }
  }

  /** ASCII `strtolower`. */
  function LowerChar(c: char): (r: char)
    ensures 'A' <= c <= 'Z' ==> 'a' <= r <= 'z'
    ensures !('A' <= c <= 'Z') ==> r == c
  {
    if 'A' <= c <= 'Z' then (c as int + 32) as char else c
  }

  function ToLower(s: string): (r: string)
    ensures |r| == |s|
    ensures forall i :: 0 <= i < |s| ==> r[i] == LowerChar(s[i])
  {
    seq(|s|, i requires 0 <= i < |s| => LowerChar(s[i]))
  }

  /** Index just past the last '/' in `s`, or 0 when there is none. */
  function AfterLastSlash(s: string): (k: nat)
    ensures k <= |s|
    ensures k > 0 ==> s[k - 1] == '/'
    ensures forall i :: k <= i < |s| ==> s[i] != '/'
    decreases |s|
  {
    if s == [] then 0
    else if s[|s| - 1] == '/' then |s|
    else AfterLastSlash(s[..|s| - 1])
  }

  /** `basename($path)`: the last component once trailing slashes are dropped. */
  function Basename(path: string): (r: string)
    ensures '/' !in r
    ensures exists k :: OccursAt(path, r, k)
  {
    var t := TrimRight(path, {'/'});
    var k := AfterLastSlash(t);
    assert OccursAt(path, t[k..], k);
    t[k..]
  }

  /** A name without slashes is its own basename, and it is the basename of anything ending in "/name". */
  lemma BasenameOfJoin(dir: string, name: string)
    requires name != [] && '/' !in name
    ensures Basename(dir + "/" + name) == name
    ensures Basename(name) == name
  {
    var p := dir + "/" + name;
    assert p[|p| - 1] == name[|name| - 1];
    TrimRightOfClean(p, {'/'});
    TrimRightOfClean(name, {'/'});
    assert p[|dir|] == '/';
    assert p[|dir| + 1..] == name;
  }

  /** `pathinfo($path, PATHINFO_EXTENSION)`: what follows the last dot of the basename. */
  function Extension(path: string): (r: string)
    ensures '.' !in r && '/' !in r
  {
    var b := Basename(path);
    ExtensionOfName(b)
  }

  function ExtensionOfName(name: string): (r: string)
    ensures '.' !in r
    ensures '/' !in name ==> '/' !in r
    ensures '.' in name ==> exists k :: 0 <= k < |name| && name[k] == '.' && r == name[k + 1..]
    ensures '.' !in name ==> r == []
    decreases |name|
  {
    if name == [] then []
    else if name[|name| - 1] == '.' then []
    else if '.' !in name then []
    else
      var r := ExtensionOfName(name[..|name| - 1]);
      assert '.' in name[..|name| - 1];
      r + [name[|name| - 1]]
  }

  /** `implode($glue, $xs)` */
  function Join(xs: seq<string>, glue: string): (r: string)
    ensures xs == [] ==> r == []
    ensures |xs| == 1 ==> r == xs[0]
  {
    if xs == [] then [] else if |xs| == 1 then xs[0] else xs[0] + glue + Join(xs[1..], glue)
  }

  /** PHP's `empty()` on a string: true for "" and for "0". */
  predicate PhpEmpty(s: string) {
    s == "" || s == "0"
  }

  function DigitChar(d: nat): (c: char)
    requires d < 10
    ensures IsDigit(c) && c as int - '0' as int == d
  {
    (d + '0' as int) as char
  }

  /** Decimal text of a natural number (`(string)$n`). */
  function NatToString(n: nat): (r: string)
    ensures r != []
    ensures forall c :: c in r ==> '0' <= c <= '9'
  {
    if n < 10 then [DigitChar(n)] else NatToString(n / 10) + [DigitChar(n % 10)]
  }

  function IntToString(i: int): (r: string)
    ensures r != []
  {
    if i < 0 then "-" + NatToString(-i) else NatToString(i)
  }

  predicate IsDigit(c: char) {
    '0' <= c <= '9'
  }

  /** Value of the leading run of decimal digits of `s`, after the digits `acc` stands for. */
  function DigitsValue(s: string, acc: nat): (r: nat)
    ensures r >= acc
    decreases |s|
  {
    if s != [] && IsDigit(s[0]) then DigitsValue(s[1..], acc * 10 + (s[0] as int - '0' as int)) else acc
  }

  /** Length of the leading run of decimal digits of `s`. */
  function DigitCount(s: string): (n: nat)
    ensures n <= |s|
    ensures forall i :: 0 <= i < n ==> IsDigit(s[i])
    ensures n == |s| || !IsDigit(s[n])
    decreases |s|
  {
    if s != [] && IsDigit(s[0]) then 1 + DigitCount(s[1..]) else 0
  }

  function Pow10(k: nat): (r: nat)
    ensures r >= 1
  {
    if k == 0 then 1 else 10 * Pow10(k - 1)
  }

  /** The bounds of PHP's 64-bit `int`. */
  const PhpIntMax: int := 0x7FFF_FFFF_FFFF_FFFF
  const PhpIntMin: int := -0x8000_0000_0000_0000

  /** The characters PHP skips before a numeric string. */
  const NumericSpace: set<char> := {' ', '\t', '\n', '\r', '\U{B}', '\U{C}'}

  /**
   * A decimal number as PHP reads it at the start of a string: its sign, all
   * its digits (integer part, then fraction) as one natural number, and the
   * power of ten they are scaled by.
   */
  datatype Numeral = Numeral(negative: bool, mantissa: nat, scale: int)

  /** The exponent `[eE][+-]?digits` at the start of `s`; 0 when no digit follows the 'e'. */
  function ExponentOf(s: string): int {
    if s != [] && (s[0] == 'e' || s[0] == 'E') then
      var v := s[1..];
      if v != [] && v[0] == '-' then 0 - DigitsValue(v[1..], 0)
      else if v != [] && v[0] == '+' then DigitsValue(v[1..], 0)
      else DigitsValue(v, 0)
    else 0
  }

  /**
   * The leading numeric part of `s`, trailing text allowed: whitespace, an
   * optional sign, then the unsigned number.
   */
  function NumericPrefix(s: string): Numeral {
    var t := TrimLeft(s, NumericSpace);
    if t != [] && t[0] == '-' then Unsigned(t[1..], true)
    else if t != [] && t[0] == '+' then Unsigned(t[1..], false)
    else Unsigned(t, false)
  }

  /**
   * Digits, optionally '.' and more digits, optionally an exponent; where
   * there is no digit at all the mantissa is 0.
   */
  function Unsigned(u: string, negative: bool): Numeral {
    var i := DigitCount(u);
    Scaled(negative, u[..i], u[i..])
  }

  /** The integer digits read, and what follows them: a fraction, or at once the exponent. */
  function Scaled(negative: bool, digits: string, rest: string): Numeral {
    if rest != [] && rest[0] == '.' then Fraction(negative, digits, rest[1..])
    else Numeral(negative, DigitsValue(digits, 0), ExponentOf(rest))
  }

  /** The fraction's digits join the mantissa and scale it down by their number. */
  function Fraction(negative: bool, digits: string, v: string): Numeral {
    var f := DigitCount(v);
    Numeral(negative, DigitsValue(digits + v[..f], 0), ExponentOf(v[f..]) - f)
  }

  /** The number `n` stands for, truncated toward zero. */
  function Truncated(n: Numeral): int {
    var m := if n.mantissa == 0 then 0 else if n.scale >= 0 then n.mantissa * Pow10(n.scale) else n.mantissa / Pow10(-n.scale);
    if n.negative then -m else m
  }

  /** A value beyond the range of `int` is clamped to the nearer bound, as `(int)` does with a numeric string. */
  function Saturate(i: int): (r: int)
    ensures PhpIntMin <= r <= PhpIntMax
    ensures PhpIntMin <= i <= PhpIntMax ==> r == i
    ensures i > PhpIntMax ==> r == PhpIntMax
    ensures i < PhpIntMin ==> r == PhpIntMin
  {
    if i > PhpIntMax then PhpIntMax else if i < PhpIntMin then PhpIntMin else i
  }

  /**
   * `(int)$s` in PHP 8: the leading numeric part of `s` (fraction and
   * exponent included) truncated toward zero and clamped to the range of
   * `int`; a string without one gives 0.
   */
  function ParseInt(s: string): (r: int)
    ensures PhpIntMin <= r <= PhpIntMax
    ensures s == [] ==> r == 0
  {
    NothingToRead();
    Saturate(Truncated(NumericPrefix(s)))
  }

  /** The empty string has no digit to read. */
  lemma NothingToRead()
    ensures NumericPrefix("").mantissa == 0
  {
    assert TrimLeft("", NumericSpace) == "";
    assert DigitCount("") == 0 && ""[0..] == "" && ""[..0] == "";
  }

  lemma {:induction false} DigitsValueSnoc(a: string, c: char, acc: nat)
    requires forall k :: 0 <= k < |a| ==> IsDigit(a[k])
    requires IsDigit(c)
    ensures DigitsValue(a + [c], acc) == DigitsValue(a, acc) * 10 + (c as int - '0' as int)
    decreases |a|
  {
    if a == [] {
      assert [] + [c] == [c] && [c][1..] == [];
    } else {
      assert (a + [c])[1..] == a[1..] + [c];
      DigitsValueSnoc(a[1..], c, acc * 10 + (a[0] as int - '0' as int));
    }
  }

  /** Reading back the decimal text of `n` gives `n`. */
  lemma {:induction false} NatToStringValue(n: nat)
    ensures DigitCount(NatToString(n)) == |NatToString(n)|
    ensures DigitsValue(NatToString(n), 0) == n
  {
    var s := NatToString(n);
    assert forall k :: 0 <= k < |s| ==> IsDigit(s[k]) by {
      forall k | 0 <= k < |s| ensures IsDigit(s[k]) {
        assert s[k] in s;
      }
    }
    DigitCountAll(s);
    if n >= 10 {
      NatToStringValue(n / 10);
      DigitsValueSnoc(NatToString(n / 10), DigitChar(n % 10), 0);
    } else {
      assert s[1..] == [];
    }
  }

  lemma {:induction false} DigitCountAll(s: string)
    requires forall k :: 0 <= k < |s| ==> IsDigit(s[k])
    ensures DigitCount(s) == |s|
    decreases |s|
  {
    if s != [] {
      DigitCountAll(s[1..]);
    }
  }

  lemma UnsignedOfDigits(u: string, negative: bool)
    requires DigitCount(u) == |u|
    ensures Unsigned(u, negative) == Numeral(negative, DigitsValue(u, 0), 0)
  {
    assert u[|u|..] == [] && u[..|u|] == u;
  }

  /** After no whitespace and no sign, the number starts at once. */
  lemma NumericPrefixUnsigned(u: string)
    requires u != [] && IsDigit(u[0])
    ensures NumericPrefix(u) == Unsigned(u, false)
  {
    NoLeadingSpace(u);
  }

  /** A leading '-' negates the number after it. */
  lemma NumericPrefixNegative(u: string)
    ensures NumericPrefix("-" + u) == Unsigned(u, true)
  {
    var s := "-" + u;
    assert s[0] == '-' && s[0] !in NumericSpace;
    var t := TrimLeft(s, NumericSpace);
    assert t == s;
    assert t[1..] == u;
  }

  /** `(int)(string)$i == $i`: the cast reads back every `int` from its decimal text. */
  lemma ParseIntOfIntToString(i: int)
    requires PhpIntMin <= i <= PhpIntMax
    ensures ParseInt(IntToString(i)) == i
  {
    var n: nat := if i < 0 then -i else i;
    NatToStringValue(n);
    UnsignedOfDigits(NatToString(n), i < 0);
    if i < 0 {
      NumericPrefixNegative(NatToString(n));
    } else {
      NumericPrefixUnsigned(NatToString(n));
    }
  }

  /** Nothing is skipped before a digit or a sign. */
  lemma NoLeadingSpace(s: string)
    requires s != [] && (IsDigit(s[0]) || s[0] == '-' || s[0] == '+')
    ensures TrimLeft(s, NumericSpace) == s
  {
    assert s[0] !in NumericSpace;
  }

  /** A run of digits followed by a non-digit is read up to that character. */
  lemma {:induction false} DigitsThen(d: string, rest: string, acc: nat)
    requires forall k :: 0 <= k < |d| ==> IsDigit(d[k])
    requires rest == [] || !IsDigit(rest[0])
    ensures DigitCount(d + rest) == |d|
    ensures DigitsValue(d + rest, acc) == DigitsValue(d, acc)
    decreases |d|
  {
    if d == [] {
      assert d + rest == rest;
    } else {
      assert (d + rest)[1..] == d[1..] + rest;
      DigitsThen(d[1..], rest, acc * 10 + (d[0] as int - '0' as int));
    }
  }

  /** The integer digits end where the first non-digit begins. */
  lemma UnsignedSplits(d: string, rest: string, negative: bool)
    requires forall k :: 0 <= k < |d| ==> IsDigit(d[k])
    requires rest == [] || !IsDigit(rest[0])
    ensures Unsigned(d + rest, negative) == Scaled(negative, d, rest)
  {
    DigitsThen(d, rest, 0);
    assert (d + rest)[..|d|] == d && (d + rest)[|d|..] == rest;
  }

  /** A '.' after the integer digits starts the fraction. */
  lemma ScaledFraction(negative: bool, d: string, v: string)
    ensures Scaled(negative, d, "." + v) == Fraction(negative, d, v)
  {
    assert ("." + v)[0] == '.' && ("." + v)[1..] == v;
  }

  /** All the digits form the mantissa, scaled down by the fraction's length. */
  lemma FractionRead(negative: bool, d: string, g: string, after: string)
    requires forall k :: 0 <= k < |g| ==> IsDigit(g[k])
    requires after == [] || !IsDigit(after[0])
    ensures Fraction(negative, d, g + after) == Numeral(negative, DigitsValue(d + g, 0), ExponentOf(after) - |g|)
  {
    DigitsThen(g, after, 0);
    assert (g + after)[..|g|] == g && (g + after)[|g|..] == after;
  }



  /** A digit string beyond the range of `int` is clamped to its largest value. */
  lemma ParseIntSaturates(u: string)
    requires u != [] && DigitCount(u) == |u| && DigitsValue(u, 0) > PhpIntMax
    ensures ParseInt(u) == PhpIntMax
  {
    UnsignedOfDigits(u, false);
    NumericPrefixUnsigned(u);
  }

  /** PHP 8 reads an exponent: `(int)"1e3"` is 1000. */
  lemma ParseIntExponent()
    ensures ParseInt("1e3") == 1000
  {
    var s := "1e3";
    assert s[0] == "1e3"[0];
    NoLeadingSpace(s);
    DigitsThen("1", "e3", 0);
    assert s == "1" + "e3" && s[..1] == "1" && s[1..] == "e3";
    DigitsThen("3", "", 0);
    assert "e3"[1..] == "3" + "";
    assert ExponentOf("e3") == 3;
    assert NumericPrefix(s) == Numeral(false, 1, 3);
    assert Pow10(3) == 1000;
  }



  /** A fraction without an exponent: all its digits join the mantissa, scaled down by their number. */
  lemma FractionWhole(negative: bool, d: string, g: string)
    requires DigitCount(g) == |g|
    ensures Fraction(negative, d, g) == Numeral(negative, DigitsValue(d + g, 0), 0 - |g|)
  {
    assert g[..|g|] == g && g[|g|..] == [];
  }

  /** "a.b" for digits a and b: the mantissa ab, scaled down once. */
  lemma UnsignedFraction(a: char, b: char, negative: bool)
    requires IsDigit(a) && IsDigit(b)
    ensures Unsigned([a] + ("." + [b]), negative)
         == Numeral(negative, (a as int - '0' as int) * 10 + (b as int - '0' as int), -1)
  {
    UnsignedSplits([a], "." + [b], negative);
    ScaledFraction(negative, [a], [b]);
    FractionWhole(negative, [a], [b]);
    assert [a][1..] == [] && DigitsValue([a], 0) == a as int - '0' as int;
    DigitsValueSnoc([a], b, 0);
  }

  /** "-a.b" for digits a and b reads as the negative of ab scaled down once. */
  lemma NegativeFraction(a: char, b: char)
    requires IsDigit(a) && IsDigit(b)
    ensures NumericPrefix("-" + ([a] + ("." + [b])))
         == Numeral(true, (a as int - '0' as int) * 10 + (b as int - '0' as int), -1)
  {
    NumericPrefixNegative([a] + ("." + [b]));
    UnsignedFraction(a, b, true);
  }

  /** A fraction is cut off toward zero: `(int)"-7.9"` is -7, and so for every pair of digits. */
  lemma ParseIntTruncatesFraction(a: char, b: char)
    requires IsDigit(a) && IsDigit(b)
    ensures ParseInt("-" + ([a] + ("." + [b]))) == 0 - (a as int - '0' as int)
  {
    NegativeFraction(a, b);
    var x, y := a as int - '0' as int, b as int - '0' as int;
    assert Pow10(1) == 10;
    assert (x * 10 + y) / 10 == x;
  }










  /** Trailing text is ignored: `(int)"42px"` is 42. */
  lemma ParseIntTrailingText()
    ensures ParseInt("42px") == 42
  {
    var s := "42px";
    assert s[0] == "42px"[0];
    NoLeadingSpace(s);
    assert Unsigned(s, false) == Numeral(false, 42, 0) by {
      DigitsThen("42", "px", 0);
      assert s == "42" + "px" && s[..2] == "42" && s[2..] == "px";
      assert "42"[1..] == "2" && "2"[1..] == [];
    }
  }



  /** Whitespace before the number is skipped. */
  lemma ParseIntSkipsSpace(c: char, s: string)
    requires c in NumericSpace
    ensures ParseInt([c] + s) == ParseInt(s)
  {
    assert NumericPrefix([c] + s) == NumericPrefix(s) by {
      assert ([c] + s)[1..] == s;
      assert TrimLeft([c] + s, NumericSpace) == TrimLeft(s, NumericSpace);
    }
  }


  /** Hexadecimal is not numeric: `(int)"0x1A"` reads only the "0". */
  lemma ParseIntHex()
    ensures ParseInt("0x1A") == 0
  {
    var s := "0x1A";
    assert s[0] == "0x1A"[0];
    NoLeadingSpace(s);
    DigitsThen("0", "x1A", 0);
    assert s == "0" + "x1A" && s[..1] == "0" && s[1..] == "x1A";
    assert NumericPrefix(s).mantissa == 0;
  }



  /**
   * Byte-wise strict order on strings (what PHP's `strcmp` and `ksort` use for
   * non-numeric keys): a proper prefix comes first, otherwise the first
   * differing character decides.
   */
  predicate Less(a: string, b: string)
    decreases |a|
  {
    if a == [] then b != []
    else if b == [] then false
    else if a[0] != b[0] then a[0] < b[0]
    else Less(a[1..], b[1..])
  }

  lemma {:induction false} LessIrreflexive(a: string)
    ensures !Less(a, a)
    decreases |a|
  {
    if a != [] {
      LessIrreflexive(a[1..]);
    }
  }

  lemma {:induction false} LessAsymmetric(a: string, b: string)
    requires Less(a, b)
    ensures !Less(b, a)
    decreases |a|
  {
    if a != [] && b != [] && a[0] == b[0] {
      LessAsymmetric(a[1..], b[1..]);
    }
  }

  lemma {:induction false} LessTransitive(a: string, b: string, c: string)
    requires Less(a, b) && Less(b, c)
    ensures Less(a, c)
    decreases |a|
  {
    if a != [] && b != [] && c != [] && a[0] == b[0] && b[0] == c[0] {
      LessTransitive(a[1..], b[1..], c[1..]);
    }
  }

  lemma {:induction false} LessTotal(a: string, b: string)
    requires a != b
    ensures Less(a, b) || Less(b, a)
    decreases |a|
  {
    if a != [] && b != [] && a[0] == b[0] {
      assert a == [a[0]] + a[1..] && b == [b[0]] + b[1..];
      LessTotal(a[1..], b[1..]);
    }
  }
}
