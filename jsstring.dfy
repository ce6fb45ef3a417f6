/** The JavaScript built-ins that the page selector leans on: `String.prototype.trim`,
    `String.prototype.split` with a one-character separator, radix-less `parseInt`,
    and `String(n)` for a non-negative integer. */
module JsString {

  /** A JavaScript number as `parseInt` can produce it: NaN, or an integer. */
  datatype JsNumber = NaN | Num(value: int)

  /** ECMAScript's StrWhiteSpaceChar: the WhiteSpace and LineTerminator code points
      that both `trim` and `parseInt` skip. */
  predicate IsWhiteSpace(c: char) {
    c == '\t' || c == '\n' || c == '\U{B}' || c == '\U{C}' || c == '\r' || c == ' '
    || c == '\U{A0}' || c == '\U{1680}' || ('\U{2000}' <= c <= '\U{200A}')
    || c == '\U{2028}' || c == '\U{2029}' || c == '\U{202F}' || c == '\U{205F}'
    || c == '\U{3000}' || c == '\U{FEFF}'
  }

  predicate AllWhiteSpace(s: string) {
    forall i :: 0 <= i < |s| ==> IsWhiteSpace(s[i])
  }

  predicate IsDigit(c: char) {
    '0' <= c <= '9'
  }

  predicate AllDigits(s: string) {
    forall i :: 0 <= i < |s| ==> IsDigit(s[i])
  }

  predicate IsHexDigit(c: char) {
    IsDigit(c) || 'a' <= c <= 'f' || 'A' <= c <= 'F'
  }

  predicate AllHexDigits(s: string) {
    forall i :: 0 <= i < |s| ==> IsHexDigit(s[i])
  }

  function DigitValue(c: char): (d: nat)
    requires IsHexDigit(c)
    ensures d < 16
    ensures IsDigit(c) ==> d < 10
  {
    if IsDigit(c) then c as int - '0' as int
    else if 'a' <= c <= 'f' then c as int - 'a' as int + 10
    else c as int - 'A' as int + 10
  }

  function DigitChar(d: nat): (c: char)
    requires d < 10
    ensures IsDigit(c) && DigitValue(c) == d
  {
    ('0' as int + d) as char
  }

  // ---------------------------------------------------------------- trim

  /** The length of the run of white space at the start of `s`. */
  function LeadingWhiteSpace(s: string): (k: nat)
    ensures k <= |s|
    ensures forall i :: 0 <= i < k ==> IsWhiteSpace(s[i])
    ensures k == |s| || !IsWhiteSpace(s[k])
  {
    if s != [] && IsWhiteSpace(s[0]) then
      var k := LeadingWhiteSpace(s[1..]);
      assert forall i :: 0 < i <= k ==> s[i] == s[1..][i - 1];
      1 + k
    else 0
  }

  /** The length of the run of white space at the end of `s`. */
  function TrailingWhiteSpace(s: string): (k: nat)
    ensures k <= |s|
    ensures forall i :: |s| - k <= i < |s| ==> IsWhiteSpace(s[i])
    ensures k == |s| || !IsWhiteSpace(s[|s| - k - 1])
  {
    if s != [] && IsWhiteSpace(s[|s| - 1]) then 1 + TrailingWhiteSpace(s[..|s| - 1]) else 0
  }

  /** Drops the leading white space. */
  function TrimStart(s: string): string
  {
    s[LeadingWhiteSpace(s)..]
  }

  /** Drops the trailing white space. */
  function TrimEnd(s: string): string
  {
    s[..|s| - TrailingWhiteSpace(s)]
  }

  /** `r` sits in `s` at offset `a`, with only white space before and after it. */
  predicate TrimmedAt(s: string, a: nat, r: string) {
    && a + |r| <= |s|
    && (forall i :: 0 <= i < |r| ==> r[i] == s[a + i])
    && (forall i :: 0 <= i < a ==> IsWhiteSpace(s[i]))
    && (forall i :: a + |r| <= i < |s| ==> IsWhiteSpace(s[i]))
  }

  /** `String.prototype.trim`: the result is a slice of `s` that starts and ends with
      a non-white-space character, and everything cut away on either side is white space. */
  function Trim(s: string): (r: string)
    ensures r == [] || (!IsWhiteSpace(r[0]) && !IsWhiteSpace(r[|r| - 1]))
    ensures exists a: nat :: TrimmedAt(s, a, r)
  {
    var r := TrimEnd(TrimStart(s));
    assert TrimmedAt(s, LeadingWhiteSpace(s), r);
    r
  }

  // --------------------------------------------------------------- split

  /** Joins `parts` with `sep` between neighbours: the inverse of `Split`. */
  function Join(parts: seq<string>, sep: char): string
  {
    if parts == [] then []
    else if |parts| == 1 then parts[0]
    else parts[0] + [sep] + Join(parts[1..], sep)
  }

  /** `s.split(sep)` for a one-character separator: always at least one part (the
      empty string gives `[""]`), no part holds the separator, and joining the parts
      back with the separator gives `s` again. */
  function Split(s: string, sep: char): (parts: seq<string>)
    ensures |parts| >= 1
    ensures forall i :: 0 <= i < |parts| ==> sep !in parts[i]
    ensures Join(parts, sep) == s
  {
    if s == [] then [[]]
    else
      var rest := Split(s[1..], sep);
      if s[0] == sep then
        assert Join([[]] + rest, sep) == [sep] + Join(rest, sep);
        [[]] + rest
      else
        var parts := [[s[0]] + rest[0]] + rest[1..];
        assert parts[1..] == rest[1..];
        parts
  }

  /** Splitting a join of separator-free parts gives the parts back. */
  lemma {:induction false} SplitJoin(parts: seq<string>, sep: char)
    requires |parts| >= 1
    requires forall i :: 0 <= i < |parts| ==> sep !in parts[i]
    ensures Split(Join(parts, sep), sep) == parts
  {
    if |parts| == 1 {
      SplitNoSeparator(parts[0], sep);
    } else {
      SplitJoin(parts[1..], sep);
      SplitPrefix(parts[0], Join(parts[1..], sep), sep);
    }
  }

  lemma {:induction false} SplitNoSeparator(s: string, sep: char)
    requires sep !in s
    ensures Split(s, sep) == [s]
  {
    if s != [] {
      SplitNoSeparator(s[1..], sep);
    }
  }

  lemma {:induction false} SplitPrefix(p: string, t: string, sep: char)
    requires sep !in p
    ensures Split(p + [sep] + t, sep) == [p] + Split(t, sep)
  {
    if p == [] {
      assert ([sep] + t)[1..] == t;
    } else {
      assert (p + [sep] + t)[1..] == p[1..] + [sep] + t;
      SplitPrefix(p[1..], t, sep);
      assert [p[0]] + p[1..] == p;
    }
  }

  // ------------------------------------------------------------ parseInt

  /** The longest prefix of `s` made of decimal digits. */
  function DecimalPrefix(s: string): (d: string)
    ensures |d| <= |s| && d == s[..|d|] && AllDigits(d)
    ensures |d| == |s| || !IsDigit(s[|d|])
  {
    if s != [] && IsDigit(s[0]) then [s[0]] + DecimalPrefix(s[1..]) else []
  }

  /** The longest prefix of `s` made of hexadecimal digits. */
  function HexPrefix(s: string): (d: string)
    ensures |d| <= |s| && d == s[..|d|] && AllHexDigits(d)
    ensures |d| == |s| || !IsHexDigit(s[|d|])
  {
    if s != [] && IsHexDigit(s[0]) then [s[0]] + HexPrefix(s[1..]) else []
  }

  /** The value of a digit string read in base `radix`, most significant digit first. */
  function DigitsValue(d: string, radix: nat): nat
    requires AllHexDigits(d)
  {
    if d == [] then 0 else DigitsValue(d[..|d| - 1], radix) * radix + DigitValue(d[|d| - 1])
  }

  /** Radix-less `parseInt`: skip leading white space, take an optional sign, read
      hexadecimal after a `0x`/`0X` prefix and decimal otherwise, stop at the first
      character that is not a digit, and give NaN when no digit was read. */
  function ParseInt(s: string): JsNumber
  {
    var t := TrimStart(s);
    var negative := t != [] && t[0] == '-';
    var unsigned := if t != [] && (t[0] == '-' || t[0] == '+') then t[1..] else t;
    var hex := |unsigned| >= 2 && unsigned[0] == '0' && (unsigned[1] == 'x' || unsigned[1] == 'X');
    var digits := if hex then HexPrefix(unsigned[2..]) else DecimalPrefix(unsigned);
    if digits == [] then NaN
    else
      var magnitude: int := DigitsValue(digits, if hex then 16 else 10);
      Num(if negative then -magnitude else magnitude)
  }

  /** White space in front of a token that starts with something else is skipped
      exactly. */
  lemma {:induction false} LeadingWhiteSpaceOf(w: string, t: string)
    requires AllWhiteSpace(w) && t != [] && !IsWhiteSpace(t[0])
    ensures LeadingWhiteSpace(w + t) == |w|
  {
    if w != [] {
      assert (w + t)[1..] == w[1..] + t;
      LeadingWhiteSpaceOf(w[1..], t);
    }
  }

  /** The decimal digits in front of a non-digit are read in full and no further. */
  lemma {:induction false} DecimalPrefixOf(d: string, j: string)
    requires AllDigits(d) && (j == [] || !IsDigit(j[0]))
    ensures DecimalPrefix(d + j) == d
  {
    if d != [] {
      assert (d + j)[1..] == d[1..] + j;
      DecimalPrefixOf(d[1..], j);
    } else {
      assert d + j == j;
    }
  }

  /** The hexadecimal digits in front of a non-hex-digit are read in full and no
      further. */
  lemma {:induction false} HexPrefixOf(h: string, j: string)
    requires AllHexDigits(h) && (j == [] || !IsHexDigit(j[0]))
    ensures HexPrefix(h + j) == h
  {
    if h != [] {
      assert (h + j)[1..] == h[1..] + j;
      HexPrefixOf(h[1..], j);
    } else {
      assert h + j == j;
    }
  }

  /** Trimming the front of white space followed by a token leaves the token. */
  lemma {:induction false} TrimStartOf(w: string, t: string)
    requires AllWhiteSpace(w) && t != [] && !IsWhiteSpace(t[0])
    ensures TrimStart(w + t) == t
  {
    LeadingWhiteSpaceOf(w, t);
    assert (w + t)[|w|..] == t;
  }

  /** A decimal token other than a lone `0` before `x` or `X` does not start with the
      hexadecimal marker. */
  lemma {:induction false} NoHexMarker(d: string, j: string)
    requires d != [] && AllDigits(d) && (j == [] || !IsDigit(j[0]))
    requires !(d == "0" && j != [] && (j[0] == 'x' || j[0] == 'X'))
    ensures var u := d + j; !(|u| >= 2 && u[0] == '0' && (u[1] == 'x' || u[1] == 'X'))
  {
    var u := d + j;
    if |d| >= 2 {
      assert IsDigit(u[1]);
    } else if |u| >= 2 {
      assert u[1] == j[0];
    }
  }

  /** `parseInt` once the white space is gone: the optional sign is applied to the
      decimal digits in front of the first non-digit. */
  lemma {:induction false} ParseIntDecimalTrimmed(s: string, sign: string, d: string, j: string)
    requires TrimStart(s) == sign + (d + j)
    requires sign == "" || sign == "-" || sign == "+"
    requires d != [] && AllDigits(d) && (j == [] || !IsDigit(j[0]))
    requires !(d == "0" && j != [] && (j[0] == 'x' || j[0] == 'X'))
    ensures ParseInt(s) == if sign == "-" then Num(-(DigitsValue(d, 10) as int)) else Num(DigitsValue(d, 10))
  {
    var u := d + j;
    var t := TrimStart(s);
    assert IsDigit(u[0]);
    var unsigned := if t != [] && (t[0] == '-' || t[0] == '+') then t[1..] else t;
    assert unsigned == u by {
      if sign != "" {
        assert t[1..] == u;
      }
    }
    NoHexMarker(d, j);
    DecimalPrefixOf(d, j);
  }

  /** `parseInt` on any decimal token: leading white space is skipped, an optional
      sign is applied, the digits are read up to the first non-digit, and whatever
      follows is ignored. A lone `0` followed by `x` or `X` is the hexadecimal case
      instead. */
  lemma {:induction false} ParseIntDecimal(w: string, sign: string, d: string, j: string)
    requires AllWhiteSpace(w)
    requires sign == "" || sign == "-" || sign == "+"
    requires d != [] && AllDigits(d) && (j == [] || !IsDigit(j[0]))
    requires !(d == "0" && j != [] && (j[0] == 'x' || j[0] == 'X'))
    ensures ParseInt(w + sign + d + j) == if sign == "-" then Num(-(DigitsValue(d, 10) as int)) else Num(DigitsValue(d, 10))
  {
    var t := sign + (d + j);
    assert w + sign + d + j == w + t;
    assert IsDigit(d[0]) && t[0] == (if sign == "" then d[0] else sign[0]);
    TrimStartOf(w, t);
    ParseIntDecimalTrimmed(w + t, sign, d, j);
  }

  /** `parseInt` once the white space is gone: after the optional sign, `0x` or `0X`
      switches to base 16 and the hex digits are read up to the first character that
      is not one. */
  lemma {:induction false} ParseIntHexTrimmed(s: string, sign: string, x: char, h: string, j: string)
    requires TrimStart(s) == sign + (['0', x] + (h + j))
    requires sign == "" || sign == "-" || sign == "+"
    requires x == 'x' || x == 'X'
    requires h != [] && AllHexDigits(h) && (j == [] || !IsHexDigit(j[0]))
    ensures ParseInt(s) == if sign == "-" then Num(-(DigitsValue(h, 16) as int)) else Num(DigitsValue(h, 16))
  {
    var u := ['0', x] + (h + j);
    var t := TrimStart(s);
    var unsigned := if t != [] && (t[0] == '-' || t[0] == '+') then t[1..] else t;
    assert unsigned == u by {
      if sign != "" {
        assert t[1..] == u;
      }
    }
    assert u[2..] == h + j;
    HexPrefixOf(h, j);
  }

  /** `parseInt` on any hexadecimal token: after white space and an optional sign,
      `0x` or `0X` switches to base 16, and the hex digits are read up to the first
      character that is not one. */
  lemma {:induction false} ParseIntHex(w: string, sign: string, x: char, h: string, j: string)
    requires AllWhiteSpace(w)
    requires sign == "" || sign == "-" || sign == "+"
    requires x == 'x' || x == 'X'
    requires h != [] && AllHexDigits(h) && (j == [] || !IsHexDigit(j[0]))
    ensures ParseInt(w + sign + ['0', x] + h + j) == if sign == "-" then Num(-(DigitsValue(h, 16) as int)) else Num(DigitsValue(h, 16))
  {
    var t := sign + (['0', x] + (h + j));
    assert w + sign + ['0', x] + h + j == w + t;
    assert t[0] == (if sign == "" then '0' else sign[0]);
    TrimStartOf(w, t);
    ParseIntHexTrimmed(w + t, sign, x, h, j);
  }

  /** `parseInt` on a token with no digit where one is expected: after white space
      and an optional sign, nothing or a non-digit follows (with no sign, the token
      starts with neither white space nor a sign). The result is `NaN`. */
  lemma {:induction false} ParseIntNoDigits(w: string, sign: string, j: string)
    requires AllWhiteSpace(w)
    requires sign == "" || sign == "-" || sign == "+"
    requires j == [] || (!IsDigit(j[0]) && (sign == "" ==> !IsWhiteSpace(j[0]) && j[0] != '-' && j[0] != '+'))
    ensures ParseInt(w + sign + j) == NaN
  {
    var t := sign + j;
    assert w + sign + j == w + t;
    if t == [] {
      assert w + t == w;
      assert TrimStart(w) == [];
    } else {
      assert t[0] == (if sign == "" then j[0] else sign[0]);
      TrimStartOf(w, t);
      if sign != "" {
        assert t[1..] == j;
      }
      assert DecimalPrefix(j) == [];
    }
  }

  /** `parseInt` on `0x` or `0X` with no hex digit after it, following white space
      and an optional sign. The result is `NaN`. */
  lemma {:induction false} ParseIntNoHexDigits(w: string, sign: string, x: char, j: string)
    requires AllWhiteSpace(w)
    requires sign == "" || sign == "-" || sign == "+"
    requires x == 'x' || x == 'X'
    requires j == [] || !IsHexDigit(j[0])
    ensures ParseInt(w + sign + ['0', x] + j) == NaN
  {
    var u := ['0', x] + j;
    var t := sign + u;
    assert w + sign + ['0', x] + j == w + t;
    assert t[0] == (if sign == "" then '0' else sign[0]);
    TrimStartOf(w, t);
    if sign != "" {
      assert t[1..] == u;
    }
    assert u[2..] == j;
    assert HexPrefix(j) == [];
  }

  // ------------------------------------------------------------ String(n)

  /** `String(n)` for a non-negative integer. */
  function NatToString(n: nat): (s: string)
    ensures |s| >= 1
  {
    if n < 10 then [DigitChar(n)] else NatToString(n / 10) + [DigitChar(n % 10)]
  }

  /** `String(n)` writes the decimal digits of `n`, with no leading zero. */
  lemma {:induction false} NatToStringDigits(n: nat)
    ensures var s := NatToString(n);
            AllDigits(s) && (s[0] == '0' ==> n == 0) && DigitsValue(s, 10) == n
  {
    if n >= 10 {
      NatToStringDigits(n / 10);
      var s := NatToString(n);
      assert s[..|s| - 1] == NatToString(n / 10);
    }
  }

  /** `parseInt(String(n)) == n`: the round trip that lets a page id lead back to its page. */
  lemma {:induction false} ParseIntOfString(n: nat)
    ensures ParseInt(NatToString(n)) == Num(n)
  {
    var s := NatToString(n);
    NatToStringDigits(n);
    assert IsDigit(s[0]);
    assert TrimStart(s) == s;
    if n == 0 {
      assert s == ['0'];
    }
    assert !(|s| >= 2 && s[0] == '0');
    DecimalPrefixOfDigits(s);
  }

  lemma {:induction false} DecimalPrefixOfDigits(s: string)
    requires AllDigits(s)
    ensures DecimalPrefix(s) == s
  {
    if s != [] {
      DecimalPrefixOfDigits(s[1..]);
    }
  }

  /** A digit string has no white space to trim. */
  lemma {:induction false} TrimOfDigits(s: string)
    requires AllDigits(s)
    ensures Trim(s) == s
  {
    if s != [] {
      assert IsDigit(s[0]) && IsDigit(s[|s| - 1]);
      assert !IsWhiteSpace(s[0]) && !IsWhiteSpace(s[|s| - 1]);
      assert TrimStart(s) == s;
      assert TrimEnd(s) == s;
    }
  }

  /** Trimming a token padded with one space on each side gives back the token. */
  lemma {:induction false} TrimPadded(t: string)
    requires t != [] && !IsWhiteSpace(t[0]) && !IsWhiteSpace(t[|t| - 1])
    ensures Trim([' '] + t + [' ']) == t
  {
    var s := [' '] + t + [' '];
    assert s[1..] == t + [' '];
    assert LeadingWhiteSpace(s[1..]) == 0;
    assert TrimStart(s) == t + [' '];
    assert (t + [' '])[..|t|] == t;
    assert TrailingWhiteSpace(t) == 0;
  }

  /** Distinct numbers have distinct decimal strings. */
  lemma {:induction false} NatToStringInjective(m: nat, n: nat)
    requires m != n
    ensures NatToString(m) != NatToString(n)
  {
    ParseIntOfString(m);
    ParseIntOfString(n);
  }
}
