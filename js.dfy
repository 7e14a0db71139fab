/** The JavaScript built-ins the bot's command handling relies on, restated over
    `string`: truthiness, `parseInt`, `String.prototype.trim`, `split(' ')`,
    `Array.prototype.join(' ')`, `toLowerCase`, `includes` and the conversion of an
    integer to its decimal text in template literals. */
module Js {
  import opened Wrappers

  /** A number produced by `parseInt`: NaN or an integer. */
  datatype Num = NaN | Int(value: int)

  /** `parseInt(s)` (no radix: a `0x` prefix selects hexadecimal) or `parseInt(s, 10)`. */
  datatype Radix = Auto | Ten

  /** Truthiness of a string that may be `undefined`/`null`: only a non-empty string is truthy. */
  predicate Truthy(s: Option<string>) {
    s.Some? && s.value != ""
  }

  // ---------------------------------------------------------------------------
  // Whitespace and trim

  /** The WhiteSpace and LineTerminator code points of ECMAScript (section 12.2 and 12.3 of ECMA-262). */
  predicate IsWhiteSpace(c: char) {
    || c == '\t' || c == '\n' || c == '\U{000B}' || c == '\U{000C}' || c == '\r' || c == ' '
    || c == '\U{00A0}' || c == '\U{1680}' || ('\U{2000}' <= c <= '\U{200A}')
    || c == '\U{2028}' || c == '\U{2029}' || c == '\U{202F}' || c == '\U{205F}'
    || c == '\U{3000}' || c == '\U{FEFF}'
  }

  /** Drops leading whitespace: the result is a suffix of `s` that does not start with whitespace. */
  function TrimStart(s: string): (r: string)
    ensures |r| <= |s| && r == s[|s| - |r|..]
    ensures forall i :: 0 <= i < |s| - |r| ==> IsWhiteSpace(s[i])
    ensures r == [] || !IsWhiteSpace(r[0])
  {
    if |s| > 0 && IsWhiteSpace(s[0]) then TrimStart(s[1..]) else s
  }

  /** Drops trailing whitespace: the result is a prefix of `s` that does not end with whitespace. */
  function TrimEnd(s: string): (r: string)
    ensures |r| <= |s| && r == s[..|r|]
    ensures forall i :: |r| <= i < |s| ==> IsWhiteSpace(s[i])
    ensures r == [] || !IsWhiteSpace(r[|r| - 1])
  {
    if |s| > 0 && IsWhiteSpace(s[|s| - 1]) then TrimEnd(s[..|s| - 1]) else s
  }

  /** Every character of `w` is whitespace. */
  predicate AllWhiteSpace(w: string) {
    forall k :: 0 <= k < |w| ==> IsWhiteSpace(w[k])
  }

  /** `s.trim()`: `s` without its leading and trailing whitespace. `s` is the result with a run
      of whitespace before it and another after it; the result has no whitespace at either end,
      and it is empty exactly when `s` is all whitespace. */
  function Trim(s: string): (r: string)
    ensures |r| <= |s|
    ensures exists pre, post :: s == pre + r + post && AllWhiteSpace(pre) && AllWhiteSpace(post)
    ensures r == [] || (!IsWhiteSpace(r[0]) && !IsWhiteSpace(r[|r| - 1]))
    ensures r == [] <==> forall i :: 0 <= i < |s| ==> IsWhiteSpace(s[i])
  {
    var t := TrimStart(s);
    var r := TrimEnd(t);
    TrimPieces(s, t, r);
    r
  }

  /** `s` split around `r`, where `t` is `s` without leading whitespace and `r` is `t` without
      trailing whitespace: whitespace, `r`, whitespace. */
  lemma TrimPieces(s: string, t: string, r: string)
    requires |t| <= |s| && t == s[|s| - |t|..] && (forall i :: 0 <= i < |s| - |t| ==> IsWhiteSpace(s[i]))
    requires |r| <= |t| && r == t[..|r|] && (forall i :: |r| <= i < |t| ==> IsWhiteSpace(t[i]))
    ensures exists pre, post :: s == pre + r + post && AllWhiteSpace(pre) && AllWhiteSpace(post)
  {
    var pre, post := s[..|s| - |t|], t[|r|..];
    assert s == pre + t;
    assert t == r + post;
    assert forall k :: 0 <= k < |post| ==> IsWhiteSpace(post[k]) by {
      forall k | 0 <= k < |post| ensures IsWhiteSpace(post[k]) {
        assert post[k] == t[|r| + k];
      }
    }
    assert s == pre + r + post && AllWhiteSpace(pre) && AllWhiteSpace(post);
  }

  /** Trimming leaves a string alone exactly when it neither starts nor ends with whitespace. */
  lemma TrimIdentity(s: string)
    ensures Trim(s) == s <==> (s == [] || (!IsWhiteSpace(s[0]) && !IsWhiteSpace(s[|s| - 1])))
  {
    if s == [] {
    } else if IsWhiteSpace(s[0]) {
      assert |TrimStart(s)| < |s|;
    } else {
      assert TrimStart(s) == s;
      if IsWhiteSpace(s[|s| - 1]) {
        assert |TrimEnd(s)| < |s|;
      } else {
        assert TrimEnd(s) == s;
      }
    }
  }

  // ---------------------------------------------------------------------------
  // split(' ') and join(' ')

  /** `s.split(sep)` for a one-character separator: never empty, and no part holds the separator. */
  function Split(s: string, sep: char): (parts: seq<string>)
    ensures |parts| >= 1
    ensures forall i :: 0 <= i < |parts| ==> sep !in parts[i]
  {
    if s == [] then [[]]
    else
      var rest := Split(s[1..], sep);
      if s[0] == sep then [[]] + rest
      else [[s[0]] + rest[0]] + rest[1..]
  }

  /** `parts.join(sep)`; the empty array joins to the empty string. */
  function Join(parts: seq<string>, sep: char): (s: string)
    ensures parts != [] ==> parts[0] <= s
    ensures |parts| >= 2 ==> |s| > |parts[0]| && s[|parts[0]|] == sep
  {
    if |parts| == 0 then []
    else if |parts| == 1 then parts[0]
    else parts[0] + [sep] + Join(parts[1..], sep)
  }

  /** Three parts joined with a separator. */
  lemma JoinThree(a: string, b: string, c: string, sep: char)
    ensures Join([a, b, c], sep) == a + [sep] + b + [sep] + c
  {
    assert [a, b, c][1..] == [b, c];
    assert [b, c][1..] == [c];
    assert Join([b, c], sep) == b + [sep] + c;
    assert Join([a, b, c], sep) == a + [sep] + (b + [sep] + c);
  }

  /** A character other than the separator joins the first part. */
  lemma SplitCons(c: char, s: string, sep: char)
    requires c != sep
    ensures var parts := Split(s, sep);
      Split([c] + s, sep) == [[c] + parts[0]] + parts[1..]
  {
    assert ([c] + s)[1..] == s;
  }

  /** Joining the parts of a split gives back the original string. */
  lemma {:induction false} JoinSplit(s: string, sep: char)
    ensures Join(Split(s, sep), sep) == s
  {
    if s != [] {
      var rest := Split(s[1..], sep);
      JoinSplit(s[1..], sep);
      if s[0] == sep {
        assert Split(s, sep) == [[]] + rest;
        assert Join(Split(s, sep), sep) == [] + [sep] + Join(rest, sep);
      } else {
        var parts := Split(s, sep);
        assert parts == [[s[0]] + rest[0]] + rest[1..];
        if |rest| == 1 {
          assert Join(parts, sep) == [s[0]] + rest[0];
        } else {
          assert parts[1..] == rest[1..];
          assert Join(rest, sep) == rest[0] + [sep] + Join(rest[1..], sep);
          assert Join(parts, sep) == [s[0]] + rest[0] + [sep] + Join(rest[1..], sep);
        }
      }
    }
  }

  /** A string without the separator splits into itself alone. */
  lemma {:induction false} SplitNoSeparator(s: string, sep: char)
    requires sep !in s
    ensures Split(s, sep) == [s]
  {
    if s != [] {
      SplitNoSeparator(s[1..], sep);
      assert s == [s[0]] + s[1..];
    }
  }

  /** Splitting `a + sep + b`, where `a` holds no separator, yields `a` followed by the parts of `b`. */
  lemma {:induction false} SplitAfterPart(a: string, b: string, sep: char)
    requires sep !in a
    ensures Split(a + [sep] + b, sep) == [a] + Split(b, sep)
  {
    if a == [] {
      assert [sep] + b == a + [sep] + b;
      assert ([sep] + b)[1..] == b;
    } else {
      SplitAfterPart(a[1..], b, sep);
      assert (a + [sep] + b)[1..] == a[1..] + [sep] + b;
      assert [a[0]] + a[1..] == a;
    }
  }

  /** Splitting a join of separator-free parts gives back the parts. */
  lemma {:induction false} SplitJoin(parts: seq<string>, sep: char)
    requires |parts| >= 1
    requires forall i :: 0 <= i < |parts| ==> sep !in parts[i]
    ensures Split(Join(parts, sep), sep) == parts
  {
    if |parts| == 1 {
      SplitNoSeparator(parts[0], sep);
    } else {
      SplitJoin(parts[1..], sep);
      SplitAfterPart(parts[0], Join(parts[1..], sep), sep);
    }
  }

  // ---------------------------------------------------------------------------
  // toLowerCase and includes

  /** Lower-cases an ASCII capital; every other character is left as it is. */
  function LowerChar(c: char): (d: char)
  {
    if 'A' <= c <= 'Z' then (c as int - 'A' as int + 'a' as int) as char else c
  }

  /** `s.toLowerCase()`, restricted to the ASCII letters. */
  function Lower(s: string): (r: string)
    ensures |r| == |s|
    ensures forall i :: 0 <= i < |s| ==> r[i] == LowerChar(s[i])
  {
    seq(|s|, i requires 0 <= i < |s| => LowerChar(s[i]))
  }

  predicate IsUpperAscii(c: char) { 'A' <= c <= 'Z' }
  predicate IsLowerAscii(c: char) { 'a' <= c <= 'z' }

  /** A lower-cased string holds no ASCII capital, and its ASCII letters are lower case. */
  lemma LowerHasNoCapitals(s: string)
    ensures forall i :: 0 <= i < |s| ==> !IsUpperAscii(Lower(s)[i])
    ensures forall i :: 0 <= i < |s| && (IsUpperAscii(s[i]) || IsLowerAscii(s[i])) ==> IsLowerAscii(Lower(s)[i])
  {
  }

  /** `needle` sits in `hay` at position `i`. */
  predicate OccursAt(hay: string, needle: string, i: int) {
    0 <= i && i + |needle| <= |hay| && hay[i..i + |needle|] == needle
  }

  /** Search for `needle` in `hay` from position `k` on. */
  function IncludesFrom(hay: string, needle: string, k: nat): (b: bool)
    ensures b <==> exists i :: k <= i && OccursAt(hay, needle, i)
    decreases |hay| - k
  {
    if k + |needle| > |hay| then false
    else OccursAt(hay, needle, k) || IncludesFrom(hay, needle, k + 1)
  }

  /** `hay.includes(needle)`: true exactly when `needle` occurs somewhere in `hay`. */
  function Includes(hay: string, needle: string): (b: bool)
    ensures b <==> exists i :: OccursAt(hay, needle, i)
  {
    IncludesFrom(hay, needle, 0)
  }

  // ---------------------------------------------------------------------------
  // Decimal text of an integer (template literals) and parseInt

  predicate IsDecimalDigit(c: char) { '0' <= c <= '9' }

  /** The value of `c` as a digit of base up to 16, or 99 when it is none. */
  function DigitValue(c: char): (v: nat)
    ensures IsDecimalDigit(c) ==> v < 10
    ensures v < 10 ==> IsDecimalDigit(c)
  {
    if '0' <= c <= '9' then c as int - '0' as int
    else if 'a' <= c <= 'f' then c as int - 'a' as int + 10
    else if 'A' <= c <= 'F' then c as int - 'A' as int + 10
    else 99
  }

  function DigitChar(d: nat): (c: char)
    requires d < 10
    ensures IsDecimalDigit(c) && DigitValue(c) == d
  {
    ('0' as int + d) as char
  }

  /** The decimal text of a natural number, without leading zeros. */
  function NatToString(n: nat): (s: string)
    ensures |s| >= 1
    ensures forall i :: 0 <= i < |s| ==> IsDecimalDigit(s[i])
    ensures s[0] == '0' ==> n == 0
  {
    if n < 10 then [DigitChar(n)] else NatToString(n / 10) + [DigitChar(n % 10)]
  }

  /** `${i}` for an integer `i`. */
  function IntToString(i: int): (s: string)
    ensures |s| >= 1
    ensures '/' !in s && ' ' !in s
    ensures s[0] == '-' || IsDecimalDigit(s[0])
    ensures forall k :: 0 <= k < |s| ==> s[k] == '-' || IsDecimalDigit(s[k])
  {
    if i < 0 then "-" + NatToString(-i) else NatToString(i)
  }

  /** `${n}` for a result of `parseInt`. */
  function NumToString(n: Num): string
  {
    match n
    case NaN => "NaN"
    case Int(i) => IntToString(i)
  }

  /** The longest prefix of `s` made of digits of the given base. */
  function DigitPrefix(s: string, base: nat): (d: string)
    ensures d <= s
    ensures forall i :: 0 <= i < |d| ==> DigitValue(d[i]) < base
    ensures |d| == |s| || DigitValue(s[|d|]) >= base
  {
    if s != [] && DigitValue(s[0]) < base then [s[0]] + DigitPrefix(s[1..], base) else []
  }

  /** The value of a string of digits, most significant first. */
  function DigitsValue(d: string, base: nat): nat
    requires forall i :: 0 <= i < |d| ==> DigitValue(d[i]) < base
  {
    if d == [] then 0 else DigitsValue(d[..|d| - 1], base) * base + DigitValue(d[|d| - 1])
  }

  /** The number read from the longest run of digits at the start of `w`; NaN when there is none. */
  function DigitsNum(w: string, base: nat): Num
  {
    var d := DigitPrefix(w, base);
    if d == [] then NaN else Int(DigitsValue(d, base))
  }

  predicate HasHexPrefix(u: string) {
    |u| >= 2 && u[0] == '0' && (u[1] == 'x' || u[1] == 'X')
  }

  /** The unsigned part: with no radix a `0x`/`0X` prefix selects hexadecimal, otherwise decimal. */
  function ParseMagnitude(u: string, radix: Radix): Num
  {
    if radix == Auto && HasHexPrefix(u) then DigitsNum(u[2..], 16) else DigitsNum(u, 10)
  }

  function Negate(n: Num): Num
  {
    match n
    case NaN => NaN
    case Int(v) => Int(-v)
  }

  /** The unsigned part reads a number only when it starts with a decimal digit (the `0` of a
      hexadecimal prefix included). */
  lemma MagnitudeHasDigit(u: string, radix: Radix)
    ensures ParseMagnitude(u, radix).Int? ==> u != [] && IsDecimalDigit(u[0])
  {
    if radix == Auto && HasHexPrefix(u) {
    } else if DigitPrefix(u, 10) != [] {
      assert DigitPrefix(u, 10)[0] == u[0];
    }
  }

  /** `parseInt(s)` or `parseInt(s, 10)`, following section 19.2.5 of ECMA-262: skip leading
      whitespace, take one optional sign, with no radix take a `0x`/`0X` prefix as hexadecimal,
      then read the longest run of digits; no digits gives NaN. So a number comes back only when
      `s` holds a decimal digit. */
  function ParseInt(s: string, radix: Radix): (r: Num)
    ensures r.Int? ==> exists i :: 0 <= i < |s| && IsDecimalDigit(s[i])
  {
    var t := TrimStart(s);
    var k := |s| - |t|;
    if t != [] && t[0] == '-' then
      MagnitudeHasDigit(t[1..], radix);
      assert ParseMagnitude(t[1..], radix).Int? ==> IsDecimalDigit(s[k + 1]);
      Negate(ParseMagnitude(t[1..], radix))
    else if t != [] && t[0] == '+' then
      MagnitudeHasDigit(t[1..], radix);
      assert ParseMagnitude(t[1..], radix).Int? ==> IsDecimalDigit(s[k + 1]);
      ParseMagnitude(t[1..], radix)
    else
      MagnitudeHasDigit(t, radix);
      assert ParseMagnitude(t, radix).Int? ==> IsDecimalDigit(s[k]);
      ParseMagnitude(t, radix)
  }

  /** `parseInt(undefined)` reads the text "undefined", which holds no digit. */
  function ParseArg(arg: Option<string>, radix: Radix): Num
  {
    ParseInt(if arg.Some? then arg.value else "undefined", radix)
  }

  lemma {:induction false} NatToStringValue(n: nat)
    ensures DigitsValue(NatToString(n), 10) == n
    decreases n
  {
    if n >= 10 {
      var a := NatToString(n / 10);
      var s := NatToString(n);
      NatToStringValue(n / 10);
      assert s == a + [DigitChar(n % 10)];
      assert s[..|s| - 1] == a;
    }
  }

  lemma {:induction false} DigitPrefixAll(s: string, rest: string, base: nat)
    requires forall i :: 0 <= i < |s| ==> DigitValue(s[i]) < base
    requires rest == [] || DigitValue(rest[0]) >= base
    ensures DigitPrefix(s + rest, base) == s
  {
    if s != [] {
      DigitPrefixAll(s[1..], rest, base);
      assert (s + rest)[1..] == s[1..] + rest;
    } else {
      assert s + rest == rest;
    }
  }

  /** A run of decimal digits followed by a non-digit reads as the value of that run. */
  lemma DigitsNumOf(d: string, rest: string)
    requires d != [] && forall i :: 0 <= i < |d| ==> IsDecimalDigit(d[i])
    requires rest == [] || !IsDecimalDigit(rest[0])
    ensures DigitsNum(d + rest, 10) == Int(DigitsValue(d, 10))
  {
    DigitPrefixAll(d, rest, 10);
  }

  /** Reading a signed string whose first character is neither blank nor a sign. */
  lemma ParseIntUnsigned(s: string, radix: Radix)
    requires s != [] && (IsDecimalDigit(s[0]) || IsLowerAscii(s[0]) || IsUpperAscii(s[0]))
    ensures ParseInt(s, radix) == ParseMagnitude(s, radix)
  {
    assert !IsWhiteSpace(s[0]);
    assert TrimStart(s) == s;
  }

  /** The decimal text of an integer parses back to that integer, with or without radix 10. */
  lemma ParseIntToString(i: int, radix: Radix)
    ensures ParseInt(IntToString(i), radix) == Int(i)
  {
    var n: nat := if i < 0 then -i else i;
    var d := NatToString(n);
    NatToStringValue(n);
    DigitsNumOf(d, []);
    assert d + [] == d;
    assert !HasHexPrefix(d);
    assert ParseMagnitude(d, radix) == Int(n);
    if i < 0 {
      var s := IntToString(i);
      assert s == "-" + d;
      assert !IsWhiteSpace(s[0]);
      assert TrimStart(s) == s;
      assert s[1..] == d;
    } else {
      ParseIntUnsigned(d, radix);
    }
  }

  /** A leading run of decimal digits followed by something that is not a digit (nor the `x` of a
      hexadecimal prefix) parses to the value of that run: `parseInt("12abc")` is 12. */
  lemma ParseIntDigitPrefix(d: string, rest: string, radix: Radix)
    requires d != [] && forall i :: 0 <= i < |d| ==> IsDecimalDigit(d[i])
    requires rest == [] || (!IsDecimalDigit(rest[0]) && rest[0] != 'x' && rest[0] != 'X')
    ensures ParseInt(d + rest, radix) == Int(DigitsValue(d, 10))
  {
    DigitsNumOf(d, rest);
    var s := d + rest;
    assert s[0] == d[0];
    ParseIntUnsigned(s, radix);
    assert !HasHexPrefix(s) by {
      if |s| >= 2 && s[0] == '0' {
        assert s[1] == if |d| >= 2 then d[1] else rest[0];
      }
    }
  }

  /** A string whose first non-blank character is neither a sign nor a digit parses to NaN. */
  lemma ParseIntNoDigits(s: string, radix: Radix)
    requires TrimStart(s) == [] || (!IsDecimalDigit(TrimStart(s)[0]) && TrimStart(s)[0] != '-' && TrimStart(s)[0] != '+')
    ensures ParseInt(s, radix) == NaN
  {
    var t := TrimStart(s);
    assert !HasHexPrefix(t);
    assert t != [] ==> DigitValue(t[0]) >= 10;
    assert DigitPrefix(t, 10) == [];
  }
}
