/** Text helpers shared by the log formatters, the MM decoder and the channel
    file: decimal rendering and parsing of integers (as .NET's invariant-culture
    `ToString()` and `int.TryParse` do them), zero padding for the "00" custom
    format, substring search, trimming and ASCII case folding. */
module Text {

  datatype Option<T> = None | Some(value: T)

  const Int32Min: int := -0x8000_0000
  const Int32Max: int := 0x7FFF_FFFF

  /** `Environment.NewLine` of the Windows host. */
  const NewLine := "\r\n"

  predicate IsInt32(x: int) { Int32Min <= x <= Int32Max }

  predicate IsDigit(c: char) { '0' <= c <= '9' }

  predicate AllDigits(s: string) { forall i :: 0 <= i < |s| ==> IsDigit(s[i]) }

  function DigitChar(d: nat): (c: char)
    requires d < 10
    ensures IsDigit(c) && c as int - '0' as int == d
  {
    (d + '0' as int) as char
  }

  function DigitValue(c: char): nat
    requires IsDigit(c)
  {
    c as int - '0' as int
  }

  /** The value of a string of decimal digits, most significant first (leading zeros allowed). */
  function DigitsValue(s: string): nat
    requires AllDigits(s)
  {
    if s == [] then 0 else DigitsValue(s[..|s| - 1]) * 10 + DigitValue(s[|s| - 1])
  }

  /** Invariant-culture rendering of a non-negative integer: no sign, no leading zero. */
  function NatToString(n: nat): (s: string)
    ensures |s| >= 1 && AllDigits(s)
    ensures s[0] == '0' ==> n == 0
  {
    if n < 10 then [DigitChar(n)] else NatToString(n / 10) + [DigitChar(n % 10)]
  }

  lemma {:induction false} NatToStringValue(n: nat)
    ensures DigitsValue(NatToString(n)) == n
  {
    if n >= 10 {
      var s := NatToString(n);
      assert s[..|s| - 1] == NatToString(n / 10);
      NatToStringValue(n / 10);
    }
  }

  function Pow10(k: nat): (p: nat)
    ensures p >= 1
  {
    if k == 0 then 1 else 10 * Pow10(k - 1)
  }

  /** The number of characters of a rendered natural number is determined by its magnitude. */
  lemma {:induction false} NatToStringLength(n: nat, k: nat)
    ensures |NatToString(n)| <= k + 1 <==> n < Pow10(k + 1)
  {
    if n >= 10 && k > 0 {
      NatToStringLength(n / 10, k - 1);
    } else if n >= 10 {
      assert |NatToString(n)| == |NatToString(n / 10)| + 1;
    }
  }

  /** A natural number renders to exactly three characters iff it lies in 100..999. */
  lemma {:induction false} ThreeDigits(n: nat)
    ensures |NatToString(n)| == 3 <==> 100 <= n <= 999
    ensures |NatToString(n)| <= 3 <==> n <= 999
  {
    NatToStringLength(n, 1);
    NatToStringLength(n, 2);
  }

  /** Invariant-culture `int.ToString()`: a minus sign before the magnitude of a negative value. */
  function IntToString(x: int): (s: string)
    ensures |s| >= 1
    ensures x >= 0 ==> s == NatToString(x)
    ensures x < 0 ==> s[0] == '-' && s[1..] == NatToString(-x)
  {
    if x < 0 then "-" + NatToString(-x) else NatToString(x)
  }

  /** Rendering is injective: the text of a number determines the number. */
  lemma {:induction false} IntToStringInjective(a: int, b: int)
    requires IntToString(a) == IntToString(b)
    ensures a == b
  {
    NatToStringValue(if a < 0 then -a else a);
    NatToStringValue(if b < 0 then -b else b);
    if a < 0 && b < 0 {
      assert IntToString(a)[1..] == IntToString(b)[1..];
    }
  }

  /** The whitespace `int.TryParse` skips around a number (NumberStyles.Integer). */
  predicate IsNumberWhite(c: char) { c == ' ' || '\t' <= c <= '\r' }

  /** `char.IsWhiteSpace`, the set `string.Trim()` removes. */
  predicate IsWhiteSpace(c: char)
  {
    || IsNumberWhite(c) || c == '\U{85}' || c == '\U{A0}' || c == '\U{1680}'
    || ('\U{2000}' <= c <= '\U{200A}') || c == '\U{2028}' || c == '\U{2029}'
    || c == '\U{202F}' || c == '\U{205F}' || c == '\U{3000}'
  }

  /** The characters a trim removes: number whitespace only, or all of `char.IsWhiteSpace`. */
  predicate Trimmed(c: char, numberOnly: bool)
  {
    if numberOnly then IsNumberWhite(c) else IsWhiteSpace(c)
  }

  /** Drops trimmed characters from the front. */
  function TrimStart(s: string, numberOnly: bool): string
  {
    if s != [] && Trimmed(s[0], numberOnly) then TrimStart(s[1..], numberOnly) else s
  }

  /** Drops trimmed characters from the back. */
  function TrimEnd(s: string, numberOnly: bool): string
  {
    if s != [] && Trimmed(s[|s| - 1], numberOnly) then TrimEnd(s[..|s| - 1], numberOnly) else s
  }

  /** Removes the trimmed characters at both ends. */
  function TrimBoth(s: string, numberOnly: bool): string
  {
    TrimEnd(TrimStart(s, numberOnly), numberOnly)
  }

  /** `string.Trim()`: removes `char.IsWhiteSpace` characters at both ends. */
  function Trim(s: string): string
  {
    TrimBoth(s, false)
  }

  lemma {:induction false} TrimStartFirst(s: string, numberOnly: bool)
    ensures var r := TrimStart(s, numberOnly);
            |r| <= |s| && r == s[|s| - |r|..] && (r != [] ==> !Trimmed(r[0], numberOnly))
  {
    if s != [] && Trimmed(s[0], numberOnly) {
      TrimStartFirst(s[1..], numberOnly);
      var r := TrimStart(s, numberOnly);
      assert s[1..][|s| - 1 - |r|..] == s[|s| - |r|..];
    }
  }

  lemma {:induction false} TrimEndLast(s: string, numberOnly: bool)
    ensures var r := TrimEnd(s, numberOnly);
            (r != [] ==> !Trimmed(r[|r| - 1], numberOnly)) && |r| <= |s| && r == s[..|r|]
  {
    if s != [] && Trimmed(s[|s| - 1], numberOnly) {
      TrimEndLast(s[..|s| - 1], numberOnly);
      var r := TrimEnd(s, numberOnly);
      assert s[..|s| - 1][..|r|] == s[..|r|];
    }
  }

  /** No trimmed character is left at either end of the trim. */
  lemma TrimBothEnds(s: string, numberOnly: bool)
    ensures var r := TrimBoth(s, numberOnly);
            r != [] ==> !Trimmed(r[0], numberOnly) && !Trimmed(r[|r| - 1], numberOnly)
  {
    var t := TrimStart(s, numberOnly);
    TrimStartFirst(s, numberOnly);
    TrimEndLast(t, numberOnly);
    var r := TrimBoth(s, numberOnly);
    assert r != [] ==> r[0] == t[0];
  }

  /** A text with kept characters at both ends is its own trim. */
  lemma TrimNoop(s: string, numberOnly: bool)
    requires s != [] && !Trimmed(s[0], numberOnly) && !Trimmed(s[|s| - 1], numberOnly)
    ensures TrimBoth(s, numberOnly) == s
  {
  }

  lemma TrimUnchanged(s: string)
    requires s != [] && !IsWhiteSpace(s[0]) && !IsWhiteSpace(s[|s| - 1])
    ensures Trim(s) == s
  {
    TrimNoop(s, false);
  }

  /** The value of a digit string, or `None` when a character is not a digit. */
  function DigitsOpt(d: string): Option<nat>
  {
    if d == [] then Some(0)
    else if !IsDigit(d[|d| - 1]) then None
    else
      var m := DigitsOpt(d[..|d| - 1]);
      if m.None? then None else Some(m.value * 10 + DigitValue(d[|d| - 1]))
  }

  /** `DigitsOpt` reads exactly the digit strings, with their value. */
  lemma {:induction false} DigitsOptValue(d: string)
    ensures DigitsOpt(d).Some? <==> AllDigits(d)
    ensures AllDigits(d) ==> DigitsOpt(d) == Some(DigitsValue(d))
  {
    if d != [] {
      DigitsOptValue(d[..|d| - 1]);
      if IsDigit(d[|d| - 1]) && !AllDigits(d[..|d| - 1]) {
        var i :| 0 <= i < |d| - 1 && !IsDigit(d[..|d| - 1][i]);
        assert d[i] == d[..|d| - 1][i];
      }
    }
  }

  /** An optional sign and at least one digit, evaluated; `None` for anything else or a
      value outside 32 bits. */
  function ParseSigned(u: string): (r: Option<int>)
    ensures r.Some? ==> IsInt32(r.value)
  {
    var signed := u != [] && (u[0] == '-' || u[0] == '+');
    var digits := if signed then u[1..] else u;
    var m := DigitsOpt(digits);
    if digits == [] || m.None? then None
    else
      var v := if signed && u[0] == '-' then -(m.value as int) else m.value as int;
      if IsInt32(v) then Some(v) else None
  }

  /** `int.TryParse(s, out v)` with the invariant culture: surrounding number whitespace,
      an optional sign, decimal digits, and a value that fits in 32 bits. */
  function ParseInt(s: string): (r: Option<int>)
    ensures r.Some? ==> IsInt32(r.value)
  {
    ParseSigned(TrimBoth(s, true))
  }

  /** Parsing what `IntToString` renders gives the number back. */
  lemma {:induction false} ParseIntToString(x: int)
    requires IsInt32(x)
    ensures ParseInt(IntToString(x)) == Some(x)
  {
    var s := IntToString(x);
    var m: nat := if x < 0 then -x else x;
    var d := NatToString(m);
    NatToStringValue(m);
    DigitsOptValue(d);
    if x < 0 {
      assert s[1..] == d;
      assert s[|s| - 1] == d[|d| - 1];
    } else {
      assert s == d;
    }
    assert IsDigit(d[0]) && IsDigit(d[|d| - 1]);
    TrimNoop(s, true);
  }

  /** .NET's "00" custom numeric format: at least `width` digits, zero-padded on the left. */
  function ZeroPad(n: nat, width: nat): (s: string)
    ensures AllDigits(s) && |s| >= width
    ensures |NatToString(n)| <= width ==> |s| == width
  {
    Zeros(width - |NatToString(n)|) + NatToString(n)
  }

  /** `k` zero digits; none when `k` is not positive. */
  function Zeros(k: int): (z: string)
    ensures |z| == if k < 0 then 0 else k
    ensures AllDigits(z)
  {
    if k <= 0 then [] else "0" + Zeros(k - 1)
  }

  lemma {:induction false} DigitsValueZeros(k: int, s: string)
    requires AllDigits(s)
    ensures AllDigits(Zeros(k) + s) && DigitsValue(Zeros(k) + s) == DigitsValue(s)
  {
    if s == [] {
      ZerosValue(k);
      assert Zeros(k) + s == Zeros(k);
    } else {
      var t := Zeros(k) + s;
      assert t[..|t| - 1] == Zeros(k) + s[..|s| - 1];
      DigitsValueZeros(k, s[..|s| - 1]);
    }
  }

  lemma {:induction false} ZerosValue(k: int)
    ensures DigitsValue(Zeros(k)) == 0
  {
    if k > 0 {
      var z := Zeros(k);
      assert z[..k - 1] == Zeros(k - 1) by {
        assert z == Zeros(k - 1) + "0" by { ZerosSnoc(k); }
      }
      ZerosValue(k - 1);
    }
  }

  lemma {:induction false} ZerosSnoc(k: nat)
    requires k > 0
    ensures Zeros(k) == Zeros(k - 1) + "0"
  {
    if k > 1 { ZerosSnoc(k - 1); }
  }

  /** Zero padding does not change the value the digits denote. */
  lemma {:induction false} ZeroPadValue(n: nat, width: nat)
    ensures DigitsValue(ZeroPad(n, width)) == n
  {
    NatToStringValue(n);
    DigitsValueZeros(width - |NatToString(n)|, NatToString(n));
  }

  /** `haystack.Contains(needle)` with ordinal comparison. */
  predicate Contains(haystack: string, needle: string)
    decreases |haystack|
  {
    |needle| <= |haystack| && (haystack[..|needle|] == needle || Contains(haystack[1..], needle))
  }

  lemma ContainsSelf(t: string)
    ensures Contains(t, t)
  {
  }

  lemma {:induction false} ContainsPrefix(a: string, b: string, t: string)
    requires Contains(a, t)
    ensures Contains(a + b, t)
    decreases |a|
  {
    if a[..|t|] != t {
      assert (a + b)[1..] == a[1..] + b;
      ContainsPrefix(a[1..], b, t);
    } else {
      assert (a + b)[..|t|] == a[..|t|];
    }
  }

  lemma {:induction false} ContainsSuffix(a: string, b: string, t: string)
    requires Contains(b, t)
    ensures Contains(a + b, t)
    decreases |a|
  {
    if a != [] {
      assert (a + b)[1..] == a[1..] + b;
      ContainsSuffix(a[1..], b, t);
    } else {
      assert a + b == b;
    }
  }

  predicate StartsWith(s: string, prefix: string)
  {
    |prefix| <= |s| && s[..|prefix|] == prefix
  }

  lemma StartsWithAppend(x: string, y: string, p: string)
    requires StartsWith(x, p)
    ensures StartsWith(x + y, p)
  {
    assert (x + y)[..|p|] == x[..|p|];
  }

  /** Two prefixes that differ at some position cannot both start the same text. */
  lemma StartsWithDiffer(s: string, p: string, q: string, i: nat)
    requires StartsWith(s, p) && i < |p| && i < |q| && p[i] != q[i]
    ensures !StartsWith(s, q)
  {
    assert s[..|p|][i] == s[i];
  }

  lemma StartsWithBoth(x: string, t: string, q: string)
    requires StartsWith(t, q)
    ensures StartsWith(x + t, x + q)
  {
    assert (x + t)[..|x + q|] == x + t[..|q|];
  }

  lemma DropPrefix(a: string, b: string, c: string)
    ensures (a + b + c)[|a|..] == b + c
  {
  }

  predicate EndsWith(s: string, suffix: string)
  {
    |suffix| <= |s| && s[|s| - |suffix|..] == suffix
  }

  /** A text ends with its last two parts. */
  lemma EndsWithLast(a: string, b: string, c: string)
    ensures EndsWith(a + b + c, b + c)
  {
    assert a + b + c == a + (b + c);
  }

  /** Upper-casing of ASCII letters; other characters are left alone. */
  function ToUpperAscii(c: char): char
  {
    if 'a' <= c <= 'z' then (c as int - 32) as char else c
  }

  predicate EqualsIgnoreCase(a: char, b: char) { ToUpperAscii(a) == ToUpperAscii(b) }

  // ---- integer division ----

  /** A positive multiple of `n` is at least `n`. */
  lemma {:induction false} MulAtLeast(k: int, n: int)
    requires k >= 1 && n > 0
    ensures k * n >= n
  {
    if k > 1 {
      MulAtLeast(k - 1, n);
      assert k * n == (k - 1) * n + n;
    }
  }

  /** The Euclidean remainder is the one remainder in `[0, n)`. */
  lemma ModOf(a: int, n: int, q: int, r: int)
    requires n > 0 && 0 <= r < n && a == q * n + r
    ensures a % n == r
  {
    var q0, r0 := a / n, a % n;
    var k := q - q0;
    assert k * n == r0 - r by {
      assert a == q0 * n + r0;
      assert q * n - q0 * n == (q - q0) * n;
    }
    if k >= 1 {
      MulAtLeast(k, n);
    } else if k <= -1 {
      MulAtLeast(-k, n);
    }
  }

  /** Division with a known quotient and remainder. */
  lemma DivOf(a: int, n: int, q: int, r: int)
    requires n > 0 && 0 <= r < n && a == q * n + r
    ensures a / n == q && a % n == r
  {
    ModOf(a, n, q, r);
  }
}
