/** The pieces of Java's value semantics the model relies on: fixed-width
    integers with two's-complement narrowing, `String.trim`, ASCII
    `toLowerCase`, `startsWith`/`endsWith`/`contains`/`indexOf`, and decimal
    printing and parsing as done by `Integer.toString`, `Integer.parseInt`
    and `Long.parseLong`. */
module JavaLang {

  datatype Option<T> = None | Some(value: T) {
    /** The value, or `default` when there is none (`Map.getOrDefault`). */
    function GetOr(default: T): T {
      if Some? then value else default
    }
  }

  const TWO31: int := 0x8000_0000
  const TWO32: int := 0x1_0000_0000
  const TWO63: int := 0x8000_0000_0000_0000
  const TWO64: int := 0x1_0000_0000_0000_0000

  /** Java `byte`, `int` and `long`. */
  type Int8 = x: int | -0x80 <= x < 0x80
  type Int32 = x: int | -0x8000_0000 <= x < 0x8000_0000
  type Int64 = x: int | -0x8000_0000_0000_0000 <= x < 0x8000_0000_0000_0000

  /** One octet of native memory. */
  type Octet = x: int | 0 <= x < 0x100

  /** Java's narrowing cast `(int) x`: keep the low 32 bits, read them as two's complement. */
  function ToInt32(x: int): (r: Int32)
    ensures (x - r) % TWO32 == 0
    ensures -TWO31 <= x < TWO31 ==> r == x
  {
    var u := x % TWO32;
    if u < TWO31 then u else u - TWO32
  }

  /** Arithmetic on `long` wraps modulo 2^64. */
  function ToInt64(x: int): (r: Int64)
    ensures (x - r) % TWO64 == 0
    ensures -TWO63 <= x < TWO63 ==> r == x
  {
    var u := x % TWO64;
    if u < TWO63 then u else u - TWO64
  }

  /** A remainder already below the modulus is left alone. */
  lemma {:induction false} ModOfSmall(x: int, m: int)
    requires 0 <= x < m
    ensures x % m == x
  {
  }

  // ---------------------------------------------------------------------
  // Strings
  // ---------------------------------------------------------------------

  /** `String.trim` removes every character whose code is at most U+0020. */
  predicate IsTrimmed(c: char) {
    c <= ' '
  }

  predicate AllTrimmed(s: string) {
    forall i :: 0 <= i < |s| ==> IsTrimmed(s[i])
  }

  /** Drop the leading characters that `trim` removes. */
  function TrimStart(s: string): string {
    if s == [] || !IsTrimmed(s[0]) then s else TrimStart(s[1..])
  }

  /** Drop the trailing characters that `trim` removes. */
  function TrimEnd(s: string): string {
    if s == [] || !IsTrimmed(s[|s| - 1]) then s else TrimEnd(s[..|s| - 1])
  }

  /** `String.trim`. */
  function Trim(s: string): string {
    TrimEnd(TrimStart(s))
  }

  /** `TrimStart` removes a prefix of trimmed characters and leaves a
      string that does not start with one. */
  lemma {:induction false} TrimStartShape(s: string)
    ensures var r := TrimStart(s);
      |r| <= |s| && r == s[|s| - |r|..] && (r == [] || !IsTrimmed(r[0])) && AllTrimmed(s[..|s| - |r|])
    decreases |s|
  {
    if s != [] && IsTrimmed(s[0]) {
      TrimStartShape(s[1..]);
      var r := TrimStart(s[1..]);
      assert s[..|s| - |r|] == [s[0]] + s[1..][..|s| - 1 - |r|];
    }
  }

  /** `TrimEnd` removes a suffix of trimmed characters and leaves a string
      that does not end with one. */
  lemma {:induction false} TrimEndShape(s: string)
    ensures var r := TrimEnd(s);
      |r| <= |s| && r == s[..|r|] && (r == [] || !IsTrimmed(r[|r| - 1])) && AllTrimmed(s[|r|..])
    decreases |s|
  {
    if s != [] && IsTrimmed(s[|s| - 1]) {
      var t := s[..|s| - 1];
      TrimEndShape(t);
      var r := TrimEnd(t);
      assert s[|r|..] == t[|r|..] + [s[|s| - 1]];
    }
  }

  /** `trim` leaves the slice of `s` between a run of trimmed characters at
      each end, and that slice neither starts nor ends with one. */
  lemma {:induction false} TrimShape(s: string)
    ensures var r := Trim(s);
      r == [] || (!IsTrimmed(r[0]) && !IsTrimmed(r[|r| - 1]))
    ensures var r := Trim(s);
      exists i :: 0 <= i && i + |r| <= |s| && r == s[i..i + |r|] &&
        AllTrimmed(s[..i]) && AllTrimmed(s[i + |r|..])
  {
    var t := TrimStart(s);
    var r := TrimEnd(t);
    TrimStartShape(s);
    TrimEndShape(t);
    var i := |s| - |t|;
    assert r == s[i..i + |r|];
    assert t[|r|..] == s[i + |r|..];
  }

  /** `Character.toLowerCase` restricted to ASCII letters. */
  function LowerChar(c: char): (r: char)
    ensures IsTrimmed(r) <==> IsTrimmed(c)
  {
    if 'A' <= c <= 'Z' then (c as int + 32) as char else c
  }

  /** `String.toLowerCase`, ASCII letters only. */
  function Lower(s: string): (r: string)
    ensures |r| == |s|
    ensures forall i :: 0 <= i < |s| ==> r[i] == LowerChar(s[i])
  {
    if s == [] then [] else [LowerChar(s[0])] + Lower(s[1..])
  }

  predicate StartsWith(s: string, prefix: string) {
    |prefix| <= |s| && s[..|prefix|] == prefix
  }

  predicate EndsWith(s: string, suffix: string) {
    |suffix| <= |s| && s[|s| - |suffix|..] == suffix
  }

  predicate OccursAt(s: string, part: string, i: int) {
    0 <= i && i + |part| <= |s| && s[i..i + |part|] == part
  }

  predicate Contains(s: string, part: string) {
    exists i :: 0 <= i <= |s| && OccursAt(s, part, i)
  }

  /** `String.indexOf(char)`: the first position of `c`, or -1. */
  function IndexOf(s: string, c: char): (r: int)
    ensures -1 <= r < |s|
    ensures r == -1 <==> c !in s
    ensures r >= 0 ==> s[r] == c && c !in s[..r]
  {
    if s == [] then -1
    else if s[0] == c then 0
    else
      var r := IndexOf(s[1..], c);
      assert s == [s[0]] + s[1..];
      if r == -1 then -1
      else
        assert s[..r + 1] == [s[0]] + s[1..][..r];
        r + 1
  }

  // ---------------------------------------------------------------------
  // Decimal numerals
  // ---------------------------------------------------------------------

  predicate IsDigit(c: char) {
    '0' <= c <= '9'
  }

  predicate AllDigits(s: string) {
    forall i :: 0 <= i < |s| ==> IsDigit(s[i])
  }

  function DigitChar(d: int): (c: char)
    requires 0 <= d < 10
    ensures IsDigit(c) && c as int - '0' as int == d
  {
    ('0' as int + d) as char
  }

  /** The decimal digits of a natural number, most significant first, no leading zeros. */
  function Digits(n: nat): (s: string)
    ensures |s| > 0 && AllDigits(s)
    decreases n
  {
    if n < 10 then [DigitChar(n)] else Digits(n / 10) + [DigitChar(n % 10)]
  }

  /** The number a string of digits denotes. */
  function DigitsValue(s: string): nat
    requires AllDigits(s)
  {
    if s == [] then 0
    else DigitsValue(s[..|s| - 1]) * 10 + (s[|s| - 1] as int - '0' as int)
  }

  /** `Integer.toString(int)` and `Long.toString(long)` (also string concatenation of a number). */
  function DecimalString(n: int): (s: string)
    ensures |s| > 0 && ':' !in s
    ensures s[0] == '-' <==> n < 0
    ensures IsDigit(s[|s| - 1])
  {
    var s := if n < 0 then "-" + Digits(-n) else Digits(n);
    assert forall i :: 0 <= i < |s| ==> s[i] == '-' || IsDigit(s[i]);
    s
  }

  /** `Integer.parseInt` (range [-2^31, 2^31)) and `Long.parseLong` (range
      [-2^63, 2^63)) with bounds `lo`..`hi`: an optional sign followed by at
      least one digit, and a value within the bounds; `None` stands for the
      `NumberFormatException` they throw otherwise. */
  function ParseDecimal(s: string, lo: int, hi: int): (r: Option<int>)
    ensures r.Some? ==> lo <= r.value <= hi
    ensures s == [] ==> r.None?
  {
    if s == [] then None
    else if s[0] == '-' || s[0] == '+' then
      var digits := s[1..];
      if digits == [] || !AllDigits(digits) then None
      else
        var magnitude: int := DigitsValue(digits);
        var v := if s[0] == '-' then 0 - magnitude else magnitude;
        if lo <= v <= hi then Some(v) else None
    else if !AllDigits(s) then None
    else
      var v := DigitsValue(s);
      if lo <= v <= hi then Some(v) else None
  }

  /** The syntax both parsers accept: an optional sign and at least one digit. */
  predicate Numeral(s: string) {
    (s != [] && AllDigits(s)) || (|s| > 1 && (s[0] == '-' || s[0] == '+') && AllDigits(s[1..]))
  }

  function ParseInt(s: string): (r: Option<Int32>) {
    match ParseDecimal(s, -TWO31, TWO31 - 1)
    case None => None
    case Some(v) => Some(v)
  }

  function ParseLong(s: string): (r: Option<Int64>) {
    match ParseDecimal(s, -TWO63, TWO63 - 1)
    case None => None
    case Some(v) => Some(v)
  }

  /** Both parsers accept only numerals, and an `int` numeral parses as the
      same `long`. */
  lemma {:induction false} ParseSyntax(s: string)
    ensures ParseInt(s).Some? ==> Numeral(s)
    ensures ParseLong(s).Some? ==> Numeral(s)
    ensures ParseInt(s).Some? ==> ParseLong(s).Some? && ParseLong(s).value == ParseInt(s).value
  {
  }

  lemma {:induction false} DigitsValueOfDigits(n: nat)
    ensures DigitsValue(Digits(n)) == n
    decreases n
  {
    if n >= 10 {
      DigitsValueOfDigits(n / 10);
      var s := Digits(n);
      assert s[..|s| - 1] == Digits(n / 10);
    }
  }

  /** Parsing what `Integer.toString`/`Long.toString` printed gives the number back. */
  lemma {:induction false} ParseDecimalString(n: int, lo: int, hi: int)
    requires lo <= n <= hi
    ensures ParseDecimal(DecimalString(n), lo, hi) == Some(n)
  {
    var s := DecimalString(n);
    if n < 0 {
      DigitsValueOfDigits(-n);
      assert s[1..] == Digits(-n);
    } else {
      DigitsValueOfDigits(n);
      assert IsDigit(s[0]);
    }
  }

  lemma {:induction false} ParseIntOfDecimal(n: Int32)
    ensures ParseInt(DecimalString(n)) == Some(n)
  {
    ParseDecimalString(n, -TWO31, TWO31 - 1);
  }

  lemma {:induction false} ParseLongOfDecimal(n: Int64)
    ensures ParseLong(DecimalString(n)) == Some(n)
  {
    ParseDecimalString(n, -TWO63, TWO63 - 1);
  }

  // ---------------------------------------------------------------------
  // Facts about trimming and lower-casing
  // ---------------------------------------------------------------------

  lemma {:induction false} LowerIdempotent(s: string)
    ensures Lower(Lower(s)) == Lower(s)
  {
    var l := Lower(s);
    assert forall i :: 0 <= i < |s| ==> Lower(l)[i] == l[i];
  }

  lemma {:induction false} LowerAppend(a: string, b: string)
    ensures Lower(a + b) == Lower(a) + Lower(b)
  {
    assert forall i :: 0 <= i < |a + b| ==> Lower(a + b)[i] == (Lower(a) + Lower(b))[i];
  }

  lemma {:induction false} LowerSlice(s: string, i: int, j: int)
    requires 0 <= i <= j <= |s|
    ensures Lower(s[i..j]) == Lower(s)[i..j]
  {
  }

  lemma {:induction false} TrimStartSkips(w: string, s: string)
    requires AllTrimmed(w)
    ensures TrimStart(w + s) == TrimStart(s)
    decreases |w|
  {
    if w != [] {
      assert (w + s)[1..] == w[1..] + s;
      TrimStartSkips(w[1..], s);
    } else {
      assert w + s == s;
    }
  }

  lemma {:induction false} TrimEndSkips(s: string, w: string)
    requires AllTrimmed(w)
    ensures TrimEnd(s + w) == TrimEnd(s)
    decreases |w|
  {
    if w != [] {
      assert (s + w)[..|s + w| - 1] == s + w[..|w| - 1];
      TrimEndSkips(s, w[..|w| - 1]);
    } else {
      assert s + w == s;
    }
  }

  lemma {:induction false} TrimStartAppend(s: string, w: string)
    requires AllTrimmed(w)
    ensures TrimStart(s + w) == if AllTrimmed(s) then [] else TrimStart(s) + w
    decreases |s|
  {
    if s == [] {
      assert s + w == w + [];
      TrimStartSkips(w, []);
    } else if !IsTrimmed(s[0]) {
      assert (s + w)[0] == s[0];
    } else {
      assert (s + w)[1..] == s[1..] + w;
      TrimStartAppend(s[1..], w);
      assert AllTrimmed(s) <==> AllTrimmed(s[1..]) by {
        if AllTrimmed(s[1..]) {
          forall i | 0 <= i < |s| ensures IsTrimmed(s[i]) {
            if i > 0 { assert s[i] == s[1..][i - 1]; }
          }
        }
      }
    }
  }

  /** Surrounding a string with characters that `trim` removes does not change its trimmed form. */
  lemma {:induction false} TrimPadded(w1: string, s: string, w2: string)
    requires AllTrimmed(w1) && AllTrimmed(w2)
    ensures Trim(w1 + s + w2) == Trim(s)
  {
    assert w1 + s + w2 == w1 + (s + w2);
    TrimStartSkips(w1, s + w2);
    TrimStartAppend(s, w2);
    if !AllTrimmed(s) {
      TrimEndSkips(TrimStart(s), w2);
    } else {
      TrimStartAppend(s, []);
      assert s + [] == s;
    }
  }

  /** Lower-casing and trimming commute, since no ASCII letter is removed by `trim`. */
  lemma {:induction false} LowerTrimStart(s: string)
    ensures Lower(TrimStart(s)) == TrimStart(Lower(s))
    decreases |s|
  {
    if s != [] && IsTrimmed(s[0]) {
      LowerTrimStart(s[1..]);
      assert Lower(s)[1..] == Lower(s[1..]);
    }
  }

  lemma {:induction false} LowerTrimEnd(s: string)
    ensures Lower(TrimEnd(s)) == TrimEnd(Lower(s))
    decreases |s|
  {
    var l := Lower(s);
    if s != [] && IsTrimmed(s[|s| - 1]) {
      LowerTrimEnd(s[..|s| - 1]);
      LowerSlice(s, 0, |s| - 1);
      assert IsTrimmed(l[|l| - 1]);
      assert TrimEnd(l) == TrimEnd(l[..|l| - 1]);
    } else if s != [] {
      assert !IsTrimmed(l[|l| - 1]);
    }
  }

  lemma {:induction false} LowerTrim(s: string)
    ensures Lower(Trim(s)) == Trim(Lower(s))
  {
    LowerTrimStart(s);
    LowerTrimEnd(TrimStart(s));
  }
}
