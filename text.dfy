/** The optional value the JavaScript code expresses with null, undefined or NaN. */
module Common {
  datatype Option<T> = None | Some(value: T)
}

/** The JavaScript string and number built-ins the core relies on: trim, includes,
    startsWith, replace of the first match, padStart, number-to-string, parseInt and
    parseFloat, written out on `seq<char>` and unbounded numbers. */
module Text {
  import opened Common

  /** The characters String.prototype.trim removes: ECMAScript WhiteSpace and
      LineTerminator. */
  predicate IsSpace(c: char) {
    c == '\t' || c == '\n' || c == '\U{B}' || c == '\U{C}' || c == '\r' || c == ' ' ||
    c == '\U{A0}' || c == '\U{1680}' || ('\U{2000}' <= c <= '\U{200A}') ||
    c == '\U{2028}' || c == '\U{2029}' || c == '\U{202F}' || c == '\U{205F}' ||
    c == '\U{3000}' || c == '\U{FEFF}'
  }

  /** The leading-whitespace strip that trim, parseInt and parseFloat share. */
  function TrimStart(s: string): (r: string)
    ensures |r| <= |s| && r == s[|s| - |r|..]
    ensures forall k :: 0 <= k < |s| - |r| ==> IsSpace(s[k])
    ensures r == [] || !IsSpace(r[0])
  {
    if s != [] && IsSpace(s[0]) then TrimStart(s[1..]) else s
  }

  function TrimEnd(s: string): (r: string)
    ensures |r| <= |s| && r == s[..|r|]
    ensures forall k :: |r| <= k < |s| ==> IsSpace(s[k])
    ensures r == [] || !IsSpace(r[|r| - 1])
  {
    if s != [] && IsSpace(s[|s| - 1]) then TrimEnd(s[..|s| - 1]) else s
  }

  /** String.prototype.trim. */
  function Trim(s: string): (r: string)
    ensures |r| <= |s|
    ensures r == [] || (!IsSpace(r[0]) && !IsSpace(r[|r| - 1]))
  {
    var t := TrimStart(s);
    var r := TrimEnd(t);
    assert r != [] ==> r[0] == t[0];
    r
  }

  /** Trimming an already trimmed string changes nothing. */
  lemma TrimIdempotent(s: string)
    ensures Trim(Trim(s)) == Trim(s)
  {
    var r := Trim(s);
    assert TrimStart(r) == r;
    assert TrimEnd(r) == r;
  }

  /** A string that neither starts nor ends with whitespace is its own trim. */
  lemma TrimNoSpaceEnds(s: string)
    requires s != [] && !IsSpace(s[0]) && !IsSpace(s[|s| - 1])
    ensures Trim(s) == s
  {
    assert TrimStart(s) == s;
    assert TrimEnd(s) == s;
  }

  /** String.prototype.includes: the text occurs at some position. */
  predicate Includes(s: string, sub: string) {
    exists i :: 0 <= i <= |s| - |sub| && OccursAt(s, sub, i)
  }

  predicate OccursAt(s: string, sub: string, i: int) {
    0 <= i <= |s| - |sub| && s[i..i + |sub|] == sub
  }

  /** String.prototype.startsWith. */
  predicate StartsWith(s: string, prefix: string) {
    |prefix| <= |s| && s[..|prefix|] == prefix
  }

  /** `s.replace(a, b)` with a one-character string pattern: only the first match. */
  function ReplaceFirst(s: string, a: char, b: char): (r: string)
    ensures |r| == |s|
    ensures forall k :: 0 <= k < |s| ==> r[k] == s[k] || (s[k] == a && r[k] == b)
  {
    if s == [] then []
    else if s[0] == a then [b] + s[1..]
    else [s[0]] + ReplaceFirst(s[1..], a, b)
  }

  /** Replacing the first `a` in a text whose first `a` follows the prefix p. */
  lemma {:induction false} ReplaceFirstAfter(p: string, a: char, b: char, q: string)
    requires a !in p
    ensures ReplaceFirst(p + [a] + q, a, b) == p + [b] + q
  {
    var s := p + [a] + q;
    if p == [] {
      assert s == [a] + q;
      assert s[1..] == q;
    } else {
      var t := p[1..] + [a] + q;
      assert s[0] == p[0] && p[0] != a;
      assert s[1..] == t;
      ReplaceFirstAfter(p[1..], a, b, q);
      assert ReplaceFirst(s, a, b) == [p[0]] + ReplaceFirst(t, a, b);
      assert [p[0]] + (p[1..] + [b] + q) == p + [b] + q;
    }
  }

  /** Without an `a` there is nothing to replace. */
  lemma {:induction false} ReplaceFirstNone(s: string, a: char, b: char)
    requires a !in s
    ensures ReplaceFirst(s, a, b) == s
  {
    if s != [] {
      ReplaceFirstNone(s[1..], a, b);
      assert [s[0]] + s[1..] == s;
    }
  }

  predicate IsDigit(c: char) { '0' <= c <= '9' }

  /** A string of digits contains no other character. */
  lemma DigitsExclude(d: string, c: char)
    requires forall k :: 0 <= k < |d| ==> IsDigit(d[k])
    requires !IsDigit(c)
    ensures c !in d
  {
    forall k | 0 <= k < |d| ensures d[k] != c { }
  }

  function DigitValue(c: char): nat
    requires IsDigit(c)
  {
    c as int - '0' as int
  }

  /** The value of a string of decimal digits, most significant first. */
  function DigitsValue(d: string): nat
    requires forall k :: 0 <= k < |d| ==> IsDigit(d[k])
  {
    if d == [] then 0 else DigitsValue(d[..|d| - 1]) * 10 + DigitValue(d[|d| - 1])
  }

  function Pow10(n: nat): (p: nat)
    ensures p >= 1
  {
    if n == 0 then 1 else 10 * Pow10(n - 1)
  }

  function DigitChar(d: nat): char
    requires d < 10
  {
    ('0' as int + d) as char
  }

  /** Number.prototype.toString for a non-negative integer. */
  function NatToString(n: nat): (r: string)
    ensures |r| > 0 && forall k :: 0 <= k < |r| ==> IsDigit(r[k])
    ensures |r| > 1 ==> r[0] != '0'
  {
    if n < 10 then [DigitChar(n)] else NatToString(n / 10) + [DigitChar(n % 10)]
  }

  /** Number.prototype.toString (template-literal interpolation) for an integer. */
  function IntToString(i: int): (r: string)
    ensures |r| > 0
  {
    if i < 0 then "-" + NatToString(-i) else NatToString(i)
  }

  /** Reading back the decimal digits of a non-negative integer gives the integer. */
  lemma {:induction false} NatToStringRoundTrip(n: nat)
    ensures DigitsValue(NatToString(n)) == n
  {
    if n >= 10 {
      NatToStringRoundTrip(n / 10);
      var r := NatToString(n);
      assert r[..|r| - 1] == NatToString(n / 10);
    }
  }

  /** A digit string that does not start with '0' has a positive value. */
  lemma {:induction false} LeadingDigitPositive(d: string)
    requires |d| > 0 && forall k :: 0 <= k < |d| ==> IsDigit(d[k])
    requires d[0] != '0'
    ensures DigitsValue(d) >= Pow10(|d| - 1)
  {
    if |d| > 1 {
      LeadingDigitPositive(d[..|d| - 1]);
    }
  }

  /** Printing the value of a digit string without a leading zero gives the string back. */
  lemma {:induction false} NatToStringOfDigits(d: string)
    requires |d| > 0 && forall k :: 0 <= k < |d| ==> IsDigit(d[k])
    requires |d| > 1 ==> d[0] != '0'
    ensures NatToString(DigitsValue(d)) == d
  {
    if |d| > 1 {
      var p := d[..|d| - 1];
      LeadingDigitPositive(p);
      NatToStringOfDigits(p);
      var n := DigitsValue(d);
      assert n / 10 == DigitsValue(p) && n % 10 == DigitValue(d[|d| - 1]);
      assert d == p + [d[|d| - 1]];
    }
  }

  /** Distinct integers print as distinct strings. */
  lemma IntToStringInjective(i: int, j: int)
    ensures i != j ==> IntToString(i) != IntToString(j)
  {
    if i < 0 && j < 0 {
      NatToStringRoundTrip(-i);
      NatToStringRoundTrip(-j);
      assert IntToString(i)[1..] == NatToString(-i);
      assert IntToString(j)[1..] == NatToString(-j);
    } else if i >= 0 && j >= 0 {
      NatToStringRoundTrip(i);
      NatToStringRoundTrip(j);
    } else {
      assert IntToString(i)[0] != IntToString(j)[0];
    }
  }

  /** `s.padStart(2, '0')`. */
  function PadStart2(s: string): (r: string)
    ensures |s| >= 2 ==> r == s
    ensures |s| < 2 ==> |r| == 2 && r[2 - |s|..] == s && forall k :: 0 <= k < 2 - |s| ==> r[k] == '0'
  {
    if |s| >= 2 then s else if |s| == 1 then "0" + s else "00"
  }

  /** The longest prefix of s whose characters satisfy the digit class of `radix`. */
  function DigitPrefix(s: string, hex: bool): (d: string)
    ensures |d| <= |s| && d == s[..|d|]
    ensures forall k :: 0 <= k < |d| ==> IsRadixDigit(d[k], hex)
    ensures |d| < |s| ==> !IsRadixDigit(s[|d|], hex)
  {
    if s != [] && IsRadixDigit(s[0], hex) then [s[0]] + DigitPrefix(s[1..], hex) else []
  }

  predicate IsHexLetter(c: char) { 'a' <= c <= 'f' || 'A' <= c <= 'F' }

  predicate IsRadixDigit(c: char, hex: bool) {
    IsDigit(c) || (hex && IsHexLetter(c))
  }

  function HexDigitValue(c: char): nat
    requires IsRadixDigit(c, true)
  {
    if IsDigit(c) then DigitValue(c)
    else if 'a' <= c <= 'f' then c as int - 'a' as int + 10
    else c as int - 'A' as int + 10
  }

  function RadixValue(d: string, hex: bool): nat
    requires forall k :: 0 <= k < |d| ==> IsRadixDigit(d[k], hex)
  {
    if d == [] then 0
    else
      assert IsRadixDigit(d[|d| - 1], hex);
      RadixValue(d[..|d| - 1], hex) * (if hex then 16 else 10) + HexDigitValue(d[|d| - 1])
  }

  /** Splits an optional leading sign off a string: the sign factor and the rest. */
  function SplitSign(s: string): (r: (int, string))
    ensures r.0 == 1 || r.0 == -1
    ensures |r.1| <= |s|
  {
    if s != [] && s[0] == '-' then (-1, s[1..])
    else if s != [] && s[0] == '+' then (1, s[1..])
    else (1, s)
  }

  /** parseInt(s) with no radix: leading whitespace, an optional sign, an optional 0x
      prefix choosing base 16, then the longest run of digits; NaN when the run is empty. */
  function ParseInt(s: string): Option<int> {
    var sign := SplitSign(TrimStart(s)).0;
    var u := SplitSign(TrimStart(s)).1;
    var hex := |u| >= 2 && u[0] == '0' && (u[1] == 'x' || u[1] == 'X');
    var body := if hex then u[2..] else u;
    var d := DigitPrefix(body, hex);
    if d == [] then None
    else if sign == 1 then Some(RadixValue(d, hex))
    else Some(-(RadixValue(d, hex) as int))
  }

  /** parseInt of a plain run of decimal digits is the value of the digits. */
  lemma ParseIntDigits(d: string)
    requires |d| > 0 && forall k :: 0 <= k < |d| ==> IsDigit(d[k])
    ensures ParseInt(d) == Some(DigitsValue(d))
  {
    assert |d| >= 2 ==> IsDigit(d[1]);
    assert !IsSpace(d[0]);
    assert TrimStart(d) == d;
    assert SplitSign(d) == (1, d);
    DigitPrefixAll(d);
    RadixValueDecimal(d);
  }

  lemma {:induction false} DigitPrefixAll(d: string)
    requires forall k :: 0 <= k < |d| ==> IsDigit(d[k])
    ensures DigitPrefix(d, false) == d
  {
    if d != [] { DigitPrefixAll(d[1..]); }
  }

  lemma {:induction false} RadixValueDecimal(d: string)
    requires forall k :: 0 <= k < |d| ==> IsDigit(d[k])
    ensures RadixValue(d, false) == DigitsValue(d)
  {
    if d != [] { RadixValueDecimal(d[..|d| - 1]); }
  }

  /** parseFloat(s), for decimal text: leading whitespace, an optional sign, digits with
      an optional '.' and fraction digits; NaN when no digit is present. */
  function ParseFloat(s: string): Option<real> {
    var u := SplitSign(TrimStart(s)).1;
    var ip := DigitPrefix(u, false);
    var rest := u[|ip|..];
    var fp := if rest != [] && rest[0] == '.' then DigitPrefix(rest[1..], false) else [];
    if |ip| + |fp| == 0 then None
    else if SplitSign(TrimStart(s)).0 == 1 then Some(DecimalValue(ip, fp))
    else Some(-DecimalValue(ip, fp))
  }

  /** The value of the decimal numeral `ip.fp`. */
  function DecimalValue(ip: string, fp: string): real
    requires forall k :: 0 <= k < |ip| ==> IsDigit(ip[k])
    requires forall k :: 0 <= k < |fp| ==> IsDigit(fp[k])
  {
    DigitsValue(ip) as real + DigitsValue(fp) as real / Pow10(|fp|) as real
  }

  /** parseFloat of a decimal text `ip.fp` in digits: the integer part plus the fraction. */
  lemma ParseFloatDecimal(ip: string, fp: string)
    requires |ip| > 0 && forall k :: 0 <= k < |ip| ==> IsDigit(ip[k])
    requires forall k :: 0 <= k < |fp| ==> IsDigit(fp[k])
    ensures ParseFloat(ip + "." + fp) == Some(DecimalValue(ip, fp))
  {
    var s := ip + "." + fp;
    DecimalParts(ip, fp);
    var u := SplitSign(TrimStart(s)).1;
    assert u == s;
    var rest := u[|ip|..];
    assert rest[1..] == fp;
  }

  lemma DecimalParts(ip: string, fp: string)
    requires |ip| > 0 && forall k :: 0 <= k < |ip| ==> IsDigit(ip[k])
    requires forall k :: 0 <= k < |fp| ==> IsDigit(fp[k])
    ensures SplitSign(TrimStart(ip + "." + fp)) == (1, ip + "." + fp)
    ensures DigitPrefix(ip + "." + fp, false) == ip
    ensures (ip + "." + fp)[|ip|..] == "." + fp
    ensures DigitPrefix(fp, false) == fp
  {
    var s := ip + "." + fp;
    assert s == ip + ("." + fp);
    assert SplitSign(TrimStart(s)) == (1, s) by {
      assert !IsSpace(s[0]) && s[0] != '-' && s[0] != '+';
      assert TrimStart(s) == s;
    }
    assert DigitPrefix(s, false) == ip by {
      DigitPrefixStops(ip, "." + fp);
      assert s == ip + ("." + fp);
    }
    DigitPrefixAll(fp);
  }

  /** The digit prefix stops at the first non-digit. */
  lemma {:induction false} DigitPrefixStops(d: string, rest: string)
    requires forall k :: 0 <= k < |d| ==> IsDigit(d[k])
    requires rest != [] && !IsDigit(rest[0])
    ensures DigitPrefix(d + rest, false) == d
  {
    if d == [] {
      assert (d + rest)[0] == rest[0];
    } else {
      DigitPrefixStops(d[1..], rest);
      assert (d + rest)[1..] == d[1..] + rest;
      assert [d[0]] + d[1..] == d;
    }
  }

  /** String.prototype.split with a one-character separator: the pieces between
      separators, so there is always one more piece than there are separators. */
  function Split(s: string, sep: char): (parts: seq<string>)
    ensures |parts| >= 1
  {
    if s == [] then [""]
    else if s[0] == sep then [""] + Split(s[1..], sep)
    else var t := Split(s[1..], sep); [[s[0]] + t[0]] + t[1..]
  }

  /** The pieces joined back with the separator. */
  function Join(parts: seq<string>, sep: char): string
    requires |parts| >= 1
  {
    if |parts| == 1 then parts[0] else parts[0] + [sep] + Join(parts[1..], sep)
  }

  function Occurrences(s: string, c: char): nat {
    if s == [] then 0 else (if s[0] == c then 1 else 0) + Occurrences(s[1..], c)
  }

  /** Splitting and joining with the same separator gives the string back; there is one
      piece more than separators, and no piece contains the separator. */
  lemma {:induction false} SplitJoin(s: string, sep: char)
    ensures Join(Split(s, sep), sep) == s
    ensures |Split(s, sep)| == Occurrences(s, sep) + 1
    ensures forall k :: 0 <= k < |Split(s, sep)| ==> sep !in Split(s, sep)[k]
  {
    if s != [] {
      SplitJoin(s[1..], sep);
      var t := Split(s[1..], sep);
      if s[0] == sep {
        assert Split(s, sep) == [""] + t;
        assert Split(s, sep)[1..] == t;
        assert s == [] + [sep] + s[1..];
      } else {
        var r := Split(s, sep);
        assert r == [[s[0]] + t[0]] + t[1..];
        if |t| == 1 {
          assert Join(r, sep) == [s[0]] + t[0];
        } else {
          assert r[1..] == t[1..];
          assert Join(r, sep) == [s[0]] + t[0] + [sep] + Join(t[1..], sep);
        }
        assert s == [s[0]] + s[1..];
        forall k | 0 <= k < |r| ensures sep !in r[k] {
          if k == 0 { assert sep !in t[0]; } else { assert r[k] == t[k]; }
        }
      }
    }
  }

  /** A string without the separator splits into itself alone. */
  lemma {:induction false} SplitNoSep(s: string, sep: char)
    requires sep !in s
    ensures Split(s, sep) == [s]
  {
    if s != [] {
      assert s[0] != sep;
      SplitNoSep(s[1..], sep);
      assert [s[0]] + s[1..] == s;
    }
  }

  /** Splitting `a + [sep] + b` when a holds no separator. */
  lemma {:induction false} SplitAfter(a: string, sep: char, b: string)
    requires sep !in a
    ensures Split(a + [sep] + b, sep) == [a] + Split(b, sep)
  {
    if a == [] {
      assert a + [sep] + b == [sep] + b;
      assert ([sep] + b)[1..] == b;
    } else {
      SplitAfter(a[1..], sep, b);
      var w := a + [sep] + b;
      assert w[0] == a[0] && a[0] != sep;
      assert w[1..] == a[1..] + [sep] + b;
      var t := Split(w[1..], sep);
      assert t == [a[1..]] + Split(b, sep);
      assert Split(w, sep) == [[a[0]] + t[0]] + t[1..];
      assert [a[0]] + a[1..] == a;
    }
  }
}
