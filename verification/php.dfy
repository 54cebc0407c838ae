/**
 * The few PHP runtime behaviours the synchronisation code relies on, written
 * out so that the rest of the model can state them exactly: `empty()` on a
 * string, `intval()` truncation toward zero, `strval()` of an integer,
 * `explode("@@", …)`, and the byte-wise string order `ksort` applies to
 * non-numeric string keys.
 */
module Php {

  datatype Option<+T> = None | Some(value: T) {

    /** `$x ?? $default` */
    function GetOr(default: T): T {
      match this
      case Some(v) => v
      case None => default
    }
  }

  /** `empty($s)` on a string: PHP treats both "" and "0" as empty. */
  predicate EmptyString(s: string) {
    s == "" || s == "0"
  }

  /** `empty($v)` on a value that is a string or null. */
  predicate EmptyValue(v: Option<string>) {
    v.None? || EmptyString(v.value)
  }

  /** `intval($x)` on a float: truncation toward zero. */
  function IntvalReal(x: real): (r: int)
    ensures 0.0 <= x ==> r as real <= x < r as real + 1.0
    ensures x < 0.0 ==> r as real - 1.0 < x <= r as real
  {
    if x >= 0.0 then x.Floor else -((-x).Floor)
  }

  /**
   * `intval($n / $d)` on integers: PHP's `/` yields the exact quotient and
   * `intval` truncates it toward zero, unlike Dafny's Euclidean division.
   */
  function IntvalQuotient(n: int, d: int): (q: int)
    requires d > 0
    ensures 0 <= n ==> 0 <= q && q * d <= n < q * d + d
    ensures n < 0 ==> q <= 0 && q * d - d < n <= q * d
  {
    if n >= 0 then n / d else -((-n) / d)
  }

  // ---------------------------------------------------------------------------
  // strval() of an integer, and reading it back

  predicate IsDigit(c: char) {
    '0' <= c <= '9'
  }

  predicate AllDigits(s: string) {
    forall i :: 0 <= i < |s| ==> IsDigit(s[i])
  }

  function DigitChar(d: nat): (c: char)
    requires d < 10
    ensures IsDigit(c)
  {
    ('0' as int + d) as char
  }

  function DigitValue(c: char): nat
    requires IsDigit(c)
  {
    c as int - '0' as int
  }

  /** The decimal digits of `n`, most significant first, without leading zeros. */
  function Digits(n: nat): (s: string)
    ensures 1 <= |s|
    ensures AllDigits(s)
    ensures n > 0 ==> s[0] != '0'
    decreases n
  {
    if n < 10 then [DigitChar(n)] else Digits(n / 10) + [DigitChar(n % 10)]
  }

  /** `strval($n)` on an integer. */
  function Strval(n: int): (s: string)
    ensures 1 <= |s|
  {
    if n < 0 then "-" + Digits(-n) else Digits(n)
  }

  function DigitsValue(s: string): nat
    requires AllDigits(s)
    decreases |s|
  {
    if |s| == 0 then 0 else DigitsValue(s[..|s| - 1]) * 10 + DigitValue(s[|s| - 1])
  }

  /** Reads a decimal integer string back, as a receiver of the reply would. */
  function ParseInt(s: string): Option<int> {
    if 2 <= |s| && s[0] == '-' && AllDigits(s[1..]) then Some(-(DigitsValue(s[1..]) as int))
    else if 1 <= |s| && AllDigits(s) then Some(DigitsValue(s))
    else None
  }

  lemma {:induction false} DigitsRoundTrip(n: nat)
    ensures DigitsValue(Digits(n)) == n
    decreases n
  {
    if n >= 10 {
      DigitsRoundTrip(n / 10);
      var s := Digits(n);
      assert s[..|s| - 1] == Digits(n / 10);
      assert DigitValue(s[|s| - 1]) == n % 10;
    }
  }

  /** The decimal text `strval` produces reads back as the same integer. */
  lemma StrvalRoundTrip(n: int)
    ensures ParseInt(Strval(n)) == Some(n)
  {
    var m := if n < 0 then -n else n;
    DigitsRoundTrip(m);
    ParseIntOfSigned(Strval(n), n < 0, Digits(m));
  }

  /** Digits, with a leading minus sign when `negative`, read back as their (negated) value. */
  lemma ParseIntOfSigned(s: string, negative: bool, d: string)
    requires 1 <= |d| && AllDigits(d)
    requires s == if negative then "-" + d else d
    ensures ParseInt(s) == Some(if negative then -(DigitsValue(d) as int) else DigitsValue(d) as int)
  {
    if negative {
      assert s[1..] == d;
    } else {
      assert IsDigit(s[0]);
    }
  }

  // ---------------------------------------------------------------------------
  // The (int) cast of a configuration value

  /** A scalar configuration value, as the config repository hands it back. */
  datatype Scalar = IntVal(i: int) | FloatVal(f: real) | StringVal(s: string) | BoolVal(b: bool) | NullVal

  /** The run of decimal digits `s` starts with. */
  function DigitPrefix(s: string): (p: string)
    ensures |p| <= |s| && p == s[..|p|] && AllDigits(p)
    ensures |p| < |s| ==> !IsDigit(s[|p|])
    decreases |s|
  {
    if |s| == 0 || !IsDigit(s[0]) then "" else [s[0]] + DigitPrefix(s[1..])
  }

  /** Digits followed by a non-digit (or nothing) are exactly the digit prefix. */
  lemma {:induction false} DigitPrefixOfDigits(d: string, rest: string)
    requires AllDigits(d)
    requires |rest| == 0 || !IsDigit(rest[0])
    ensures DigitPrefix(d + rest) == d
    decreases |d|
  {
    if |d| > 0 {
      assert (d + rest)[1..] == d[1..] + rest;
      DigitPrefixOfDigits(d[1..], rest);
      assert d == [d[0]] + d[1..];
    } else {
      assert d + rest == rest;
    }
  }

  /** A string of digits only is its own digit prefix. */
  lemma DigitPrefixWhole(s: string)
    ensures AllDigits(s) ==> DigitPrefix(s) == s
  {
    if AllDigits(s) {
      DigitPrefixOfDigits(s, "");
      assert s + "" == s;
    }
  }

  /**
   * `(int)$s` on a string: an optional sign and the leading decimal digits,
   * 0 when there are none. On a plain integer string it agrees with
   * reading the string back.
   */
  function IntvalString(s: string): (r: int)
    ensures ParseInt(s).Some? ==> r == ParseInt(s).value
    ensures |DigitPrefix(s)| == 0 && (|s| == 0 || (s[0] != '-' && s[0] != '+')) ==> r == 0
    ensures 1 <= |s| && s[0] == '+' && (|s| == 1 || (s[1] != '-' && s[1] != '+')) ==> r == IntvalString(s[1..])
    ensures 1 <= |s| && s[0] == '-' && (|s| == 1 || (s[1] != '-' && s[1] != '+')) ==> r == -IntvalString(s[1..])
  {
    if 1 <= |s| && s[0] == '-' then
      DigitPrefixWhole(s[1..]);
      -(DigitsValue(DigitPrefix(s[1..])) as int)
    else if 1 <= |s| && s[0] == '+' then DigitsValue(DigitPrefix(s[1..]))
    else
      DigitPrefixWhole(s);
      DigitsValue(DigitPrefix(s))
  }

  /**
   * The cast reads back what `strval` wrote, and stops at the first
   * character after the digits: `(int)"10"` is 10 and `(int)"2.5"` is 2.
   */
  lemma IntvalStringReadsStrval(n: int, rest: string)
    requires |rest| == 0 || !IsDigit(rest[0])
    ensures IntvalString(Strval(n) + rest) == n
  {
    var m := if n < 0 then -n else n;
    DigitsRoundTrip(m);
    StrvalThenRest(n, rest);
    IntvalStringOfSigned(Strval(n) + rest, n < 0, Digits(m), rest);
  }

  /** `strval($n)` followed by more text: a sign when negative, then the digits, then the text. */
  lemma StrvalThenRest(n: int, rest: string)
    ensures Strval(n) + rest == if n < 0 then "-" + (Digits(-n) + rest) else Digits(n) + rest
  {
  }

  /** Digits, after a minus sign when `negative`, and a non-digit tail are read as the (negated) digits. */
  lemma IntvalStringOfSigned(s: string, negative: bool, d: string, rest: string)
    requires 1 <= |d| && AllDigits(d)
    requires |rest| == 0 || !IsDigit(rest[0])
    requires s == if negative then "-" + (d + rest) else d + rest
    ensures IntvalString(s) == if negative then -(DigitsValue(d) as int) else DigitsValue(d) as int
  {
    DigitPrefixOfDigits(d, rest);
    if negative {
      assert s[0] == '-' && s[1..] == d + rest;
    } else {
      assert s[0] == d[0] && IsDigit(d[0]);
    }
  }

  /** `(int)$v` on a scalar configuration value. */
  function IntCast(v: Scalar): (r: int)
    ensures v.IntVal? ==> r == v.i
    ensures v.FloatVal? && 0.0 <= v.f ==> r as real <= v.f < r as real + 1.0
    ensures v.FloatVal? && v.f < 0.0 ==> r as real - 1.0 < v.f <= r as real
    ensures v.StringVal? && ParseInt(v.s).Some? ==> r == ParseInt(v.s).value
    ensures v == NullVal || v == BoolVal(false) ==> r == 0
    ensures v == BoolVal(true) ==> r == 1
  {
    match v
    case IntVal(i) => i
    case FloatVal(f) => IntvalReal(f)
    case StringVal(s) => IntvalString(s)
    case BoolVal(b) => if b then 1 else 0
    case NullVal => 0
  }

  // ---------------------------------------------------------------------------
  // explode("@@", $s)

  /** True when `s` contains the separator "@@". */
  predicate HasSeparator(s: string) {
    exists i :: 0 <= i < |s| - 1 && s[i] == '@' && s[i + 1] == '@'
  }

  /**
   * `explode("@@", $s)`: the pieces between the occurrences of "@@", found
   * left to right without overlap.
   */
  function Explode(s: string): (parts: seq<string>)
    ensures 1 <= |parts|
    ensures parts[0] <= s
    decreases |s|
  {
    if |s| < 2 then [s]
    else if s[0] == '@' && s[1] == '@' then [""] + Explode(s[2..])
    else
      var rest := Explode(s[1..]);
      [[s[0]] + rest[0]] + rest[1..]
  }

  /** `implode("@@", $parts)` */
  function Implode(parts: seq<string>): string
    requires 1 <= |parts|
    decreases |parts|
  {
    if |parts| == 1 then parts[0] else parts[0] + "@@" + Implode(parts[1..])
  }

  /** Prefixing a character to the first piece prefixes it to the joined string. */
  lemma ImplodeExtendFirst(c: char, parts: seq<string>)
    requires 1 <= |parts|
    ensures Implode([[c] + parts[0]] + parts[1..]) == [c] + Implode(parts)
  {
    var extended := [[c] + parts[0]] + parts[1..];
    if |parts| > 1 {
      assert extended[1..] == parts[1..];
      assert Implode(extended) == ([c] + parts[0]) + "@@" + Implode(parts[1..]);
    }
  }

  /** Joining the pieces of `explode` with the separator restores the string. */
  lemma {:induction false} ImplodeExplode(s: string)
    ensures Implode(Explode(s)) == s
    decreases |s|
  {
    if |s| < 2 {
    } else if s[0] == '@' && s[1] == '@' {
      ImplodeExplode(s[2..]);
      var parts := [""] + Explode(s[2..]);
      assert parts[1..] == Explode(s[2..]);
      assert s == "@@" + s[2..];
    } else {
      ImplodeExplode(s[1..]);
      ImplodeExtendFirst(s[0], Explode(s[1..]));
      assert s == [s[0]] + s[1..];
    }
  }

  /** No piece of `explode` contains the separator. */
  lemma {:induction false} ExplodePiecesHaveNoSeparator(s: string)
    ensures forall p :: p in Explode(s) ==> !HasSeparator(p)
    decreases |s|
  {
    if |s| < 2 {
    } else if s[0] == '@' && s[1] == '@' {
      ExplodePiecesHaveNoSeparator(s[2..]);
      assert !HasSeparator("");
    } else {
      ExplodePiecesHaveNoSeparator(s[1..]);
      var rest := Explode(s[1..]);
      var head := [s[0]] + rest[0];
      assert !HasSeparator(rest[0]);
      forall i | 0 <= i < |head| - 1
        ensures !(head[i] == '@' && head[i + 1] == '@')
      {
        if i == 0 {
          assert head[1] == rest[0][0] == s[1];
        } else {
          assert head[i] == rest[0][i - 1] && head[i + 1] == rest[0][i];
        }
      }
      assert Explode(s) == [head] + rest[1..];
    }
  }

  /** `explode` yields a single piece exactly when the separator is absent. */
  lemma ExplodeSinglePiece(s: string)
    ensures |Explode(s)| == 1 <==> !HasSeparator(s)
  {
    var parts := Explode(s);
    ImplodeExplode(s);
    ExplodePiecesHaveNoSeparator(s);
    if |parts| > 1 {
      var p := parts[0];
      assert s == p + "@@" + Implode(parts[1..]);
      assert s[|p|] == '@' && s[|p| + 1] == '@';
    }
  }

  // ---------------------------------------------------------------------------
  // The order `ksort` gives non-numeric string keys

  /** `a` sorts strictly before `b`, comparing characters by code. */
  predicate Below(a: string, b: string)
    decreases |a|
  {
    0 < |b| && (|a| == 0 || a[0] < b[0] || (a[0] == b[0] && Below(a[1..], b[1..])))
  }

  lemma {:induction false} BelowIrreflexive(a: string)
    ensures !Below(a, a)
    decreases |a|
  {
    if 0 < |a| {
      BelowIrreflexive(a[1..]);
    }
  }

  lemma {:induction false} BelowTransitive(a: string, b: string, c: string)
    requires Below(a, b) && Below(b, c)
    ensures Below(a, c)
    decreases |a|
  {
    if 0 < |a| && a[0] == b[0] == c[0] {
      BelowTransitive(a[1..], b[1..], c[1..]);
    }
  }

  lemma {:induction false} BelowTotal(a: string, b: string)
    ensures a == b || Below(a, b) || Below(b, a)
    decreases |a|
  {
    if 0 < |a| && 0 < |b| && a[0] == b[0] {
      BelowTotal(a[1..], b[1..]);
      if a[1..] == b[1..] {
        assert a == [a[0]] + a[1..] && b == [b[0]] + b[1..];
      }
    }
  }
}
