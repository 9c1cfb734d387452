/** The string built-ins the aggregator relies on: `String.prototype.split` with a
    one-character separator, the global `parseInt` with radix 10, and the zero-padded
    decimal rendering that `Date.prototype.toISOString` uses for its fields. */
module JsString {
  import opened Wrappers

  /** Number of occurrences of `c` in `s`. */
  function Count(s: string, c: char): nat
  {
    if s == [] then 0 else (if s[0] == c then 1 else 0) + Count(s[1..], c)
  }

  lemma {:induction false} CountAbsent(s: string, c: char)
    requires c !in s
    ensures Count(s, c) == 0
    decreases |s|
  {
    if s != [] {
      assert c !in s[1..] by {
        forall i | 0 <= i < |s[1..]| ensures s[1..][i] != c { assert s[1..][i] == s[i + 1]; }
      }
      CountAbsent(s[1..], c);
    }
  }

  // ---------------------------------------------------------------------------
  // split
  // ---------------------------------------------------------------------------

  /** The parts glued back together with the separator between them; inverse of Split. */
  function Join(parts: seq<string>, sep: char): string
    requires |parts| >= 1
    decreases |parts|
  {
    if |parts| == 1 then parts[0] else parts[0] + [sep] + Join(parts[1..], sep)
  }

  /** `s.split(sep)`: the maximal separator-free pieces of `s`, in order. There is one
      more piece than there are separators, and the empty string gives one empty piece. */
  function Split(s: string, sep: char): (parts: seq<string>)
    ensures |parts| == Count(s, sep) + 1
    ensures forall i :: 0 <= i < |parts| ==> sep !in parts[i]
    ensures Join(parts, sep) == s
    decreases |s|
  {
    if s == [] then [[]]
    else
      var rest := Split(s[1..], sep);
      if s[0] == sep then
        assert ([[]] + rest)[1..] == rest;
        [[]] + rest
      else
        var parts := [[s[0]] + rest[0]] + rest[1..];
        assert parts[1..] == rest[1..];
        assert |rest| > 1 ==> Join(rest, sep) == rest[0] + [sep] + Join(rest[1..], sep);
        assert s == [s[0]] + s[1..];
        parts
  }

  /** A separator-free string splits into itself alone. */
  lemma {:induction false} SplitWithoutSeparator(a: string, sep: char)
    requires sep !in a
    ensures Split(a, sep) == [a]
  {
    CountAbsent(a, sep);
  }

  /** Splitting stops at the first separator: what precedes it is the first piece. */
  lemma {:induction false} SplitAfterPart(a: string, sep: char, rest: string)
    requires sep !in a
    ensures Split(a + [sep] + rest, sep) == [a] + Split(rest, sep)
    decreases |a|
  {
    if a == [] {
      SplitLeadingSeparator(rest, sep);
    } else {
      var t := a[1..] + [sep] + rest;
      SeparatorFreeTail(a, sep);
      SplitAfterPart(a[1..], sep, rest);
      SplitOrdinary(a[0], t, sep, a[1..], Split(rest, sep));
      assert a + [sep] + rest == [a[0]] + t;
      assert [a[0]] + a[1..] == a;
    }
  }

  /** A leading separator closes an empty first part. */
  lemma {:induction false} SplitLeadingSeparator(rest: string, sep: char)
    ensures Split([] + [sep] + rest, sep) == [[]] + Split(rest, sep)
  {
    assert [] + [sep] + rest == [sep] + rest;
    assert ([sep] + rest)[1..] == rest;
  }

  lemma {:induction false} SeparatorFreeTail(a: string, sep: char)
    requires a != [] && sep !in a
    ensures sep !in a[1..]
  {
    forall i | 0 <= i < |a[1..]| ensures a[1..][i] != sep { assert a[1..][i] == a[i + 1]; }
  }

  /** A first character other than the separator joins the first part. */
  lemma {:induction false} SplitOrdinary(c: char, t: string, sep: char, first: string, others: seq<string>)
    requires c != sep && Split(t, sep) == [first] + others
    ensures Split([c] + t, sep) == [[c] + first] + others
  {
    assert ([c] + t)[1..] == t;
  }

  /** Three pieces without the separator, joined by it, split back into those pieces. */
  lemma {:induction false} SplitThree(a: string, b: string, c: string, sep: char)
    requires sep !in a && sep !in b && sep !in c
    ensures Split(a + [sep] + b + [sep] + c, sep) == [a, b, c]
  {
    SplitWithoutSeparator(c, sep);
    SplitAfterPart(b, sep, c);
    assert Split(b + [sep] + c, sep) == [b, c];
    SplitAfterPart(a, sep, b + [sep] + c);
    assert a + [sep] + b + [sep] + c == a + [sep] + (b + [sep] + c);
  }

  /** Round trip: splitting a join of separator-free parts gives the parts back. */
  lemma {:induction false} SplitJoin(parts: seq<string>, sep: char)
    requires |parts| >= 1
    requires forall i :: 0 <= i < |parts| ==> sep !in parts[i]
    ensures Split(Join(parts, sep), sep) == parts
    decreases |parts|
  {
    if |parts| == 1 {
      SplitWithoutSeparator(parts[0], sep);
    } else {
      SplitJoin(parts[1..], sep);
      SplitAfterPart(parts[0], sep, Join(parts[1..], sep));
      assert [parts[0]] + parts[1..] == parts;
    }
  }

  // ---------------------------------------------------------------------------
  // decimal digits
  // ---------------------------------------------------------------------------

  predicate IsDecimalDigit(c: char)
  {
    '0' <= c <= '9'
  }

  predicate AllDigits(s: string)
  {
    forall i :: 0 <= i < |s| ==> IsDecimalDigit(s[i])
  }

  function DigitChar(d: nat): (c: char)
    requires d < 10
    ensures IsDecimalDigit(c) && c as int - '0' as int == d
  {
    ('0' as int + d) as char
  }

  /** The number a run of decimal digits denotes, most significant digit first. */
  function DigitsValue(s: string): nat
    requires AllDigits(s)
    decreases |s|
  {
    if s == [] then 0 else DigitsValue(s[..|s| - 1]) * 10 + (s[|s| - 1] as int - '0' as int)
  }

  function Pow10(k: nat): (p: nat)
    ensures p >= 1
  {
    if k == 0 then 1 else 10 * Pow10(k - 1)
  }

  /** `ToString` of a non-negative integer: its shortest decimal representation. */
  function DecimalString(n: nat): (s: string)
    ensures |s| >= 1 && AllDigits(s) && DigitsValue(s) == n
    ensures |s| > 1 ==> s[0] != '0'
    decreases n
  {
    if n < 10 then [DigitChar(n)]
    else
      var s := DecimalString(n / 10) + [DigitChar(n % 10)];
      assert s[..|s| - 1] == DecimalString(n / 10);
      s
  }

  /** The decimal representation has at most k digits exactly when the number is below 10^k. */
  lemma {:induction false} DecimalStringLength(n: nat, k: nat)
    requires k >= 1
    ensures |DecimalString(n)| <= k <==> n < Pow10(k)
    decreases n
  {
    if n >= 10 {
      if k == 1 {
        assert Pow10(1) == 10;
        assert |DecimalString(n)| >= 2;
      } else {
        DecimalStringLength(n / 10, k - 1);
      }
    } else {
      assert Pow10(k) >= 10 by { PowMonotone(k); }
    }
  }

  lemma {:induction false} PowMonotone(k: nat)
    requires k >= 1
    ensures Pow10(k) >= 10
  {
    if k > 1 { PowMonotone(k - 1); }
  }

  /** A run of digits contains no other character. */
  lemma {:induction false} DigitsExclude(s: string, c: char)
    requires AllDigits(s) && !IsDecimalDigit(c)
    ensures c !in s
  {
    forall i | 0 <= i < |s| ensures s[i] != c {
      assert IsDecimalDigit(s[i]);
    }
  }

  function Zeros(k: nat): (z: string)
    ensures |z| == k && AllDigits(z)
    ensures forall i :: 0 <= i < k ==> z[i] == '0'
  {
    seq(k, _ => '0')
  }

  /** Leading zeros never change the value of a run of digits. */
  lemma {:induction false} LeadingZerosValue(k: nat, s: string)
    requires AllDigits(s)
    ensures AllDigits(Zeros(k) + s) && DigitsValue(Zeros(k) + s) == DigitsValue(s)
    decreases |s|
  {
    var z := Zeros(k) + s;
    if s == [] {
      assert z == Zeros(k);
      ZerosValue(k);
    } else {
      LeadingZerosValue(k, s[..|s| - 1]);
      assert z[..|z| - 1] == Zeros(k) + s[..|s| - 1];
    }
  }

  lemma {:induction false} ZerosValue(k: nat)
    ensures DigitsValue(Zeros(k)) == 0
    decreases k
  {
    if k > 0 {
      ZerosValue(k - 1);
      assert Zeros(k)[..k - 1] == Zeros(k - 1);
    }
  }

  /** `ToZeroPaddedDecimalString(n, width)`: the decimal representation of n, padded on
      the left with zeros to at least `width` characters. */
  function ZeroPad(n: nat, width: nat): (s: string)
    ensures AllDigits(s) && DigitsValue(s) == n
    ensures |s| >= width && |s| >= 1
    ensures width >= 1 && n < Pow10(width) ==> |s| == width
  {
    var d := DecimalString(n);
    LeadingZerosValue(if width > |d| then width - |d| else 0, d);
    assert width >= 1 ==> (|d| <= width <==> n < Pow10(width)) by {
      if width >= 1 { DecimalStringLength(n, width); }
    }
    Zeros(if width > |d| then width - |d| else 0) + d
  }

  // ---------------------------------------------------------------------------
  // parseInt(s, 10)
  // ---------------------------------------------------------------------------

  /** ECMAScript WhiteSpace and LineTerminator code points, the ones `parseInt` skips. */
  predicate IsWhiteSpace(c: char)
  {
    c == '\t' || c == '\n' || c == '\U{000B}' || c == '\U{000C}' || c == '\r' || c == ' '
    || c == '\U{00A0}' || c == '\U{1680}' || ('\U{2000}' <= c <= '\U{200A}')
    || c == '\U{2028}' || c == '\U{2029}' || c == '\U{202F}' || c == '\U{205F}'
    || c == '\U{3000}' || c == '\U{FEFF}'
  }

  /** `s` without its leading white space. */
  function TrimStart(s: string): (t: string)
    ensures |t| <= |s| && t == s[|s| - |t|..]
    ensures forall i :: 0 <= i < |s| - |t| ==> IsWhiteSpace(s[i])
    ensures t == [] || !IsWhiteSpace(t[0])
    decreases |s|
  {
    if s != [] && IsWhiteSpace(s[0]) then TrimStart(s[1..]) else s
  }

  /** The longest prefix of `s` made of decimal digits. */
  function LeadingDigits(s: string): (d: string)
    ensures d <= s && AllDigits(d)
    ensures |d| == |s| || !IsDecimalDigit(s[|d|])
    decreases |s|
  {
    if s != [] && IsDecimalDigit(s[0]) then [s[0]] + LeadingDigits(s[1..]) else []
  }

  /** `parseInt(s, 10)`: skip white space, read an optional sign, then the longest run of
      decimal digits; with no digit the result is NaN (`None`). Trailing characters are
      ignored. */
  function ParseInt(s: string): (r: Option<int>)
    ensures (forall i :: 0 <= i < |s| ==> !IsDecimalDigit(s[i])) ==> r.None?
    ensures r.Some? && r.value < 0 ==> '-' in s
    ensures s != [] && IsDecimalDigit(s[0]) ==> r == ParseSigned(s) && r.Some? && r.value >= 0
  {
    var t := TrimStart(s);
    assert forall i :: 0 <= i < |t| ==> t[i] == s[|s| - |t| + i];
    assert s != [] && IsDecimalDigit(s[0]) ==> !IsWhiteSpace(s[0]);
    ParseSigned(t)
  }

  /** What `parseInt` reads once the leading white space is gone: a string with no digit
      is NaN, only a leading minus sign makes the value negative, and a string that starts
      with a digit reads as a number of at least zero. */
  function ParseSigned(t: string): (r: Option<int>)
    ensures (forall i :: 0 <= i < |t| ==> !IsDecimalDigit(t[i])) ==> r.None?
    ensures r.Some? && r.value < 0 ==> t[0] == '-'
    ensures t != [] && IsDecimalDigit(t[0]) ==> r.Some? && r.value >= 0
  {
    var body := if |t| > 0 && (t[0] == '-' || t[0] == '+') then t[1..] else t;
    var digits := LeadingDigits(body);
    assert digits != [] ==> digits[0] == body[0] && IsDecimalDigit(body[0]);
    var magnitude: int := if digits == [] then 0 else DigitsValue(digits);
    if digits == [] then None
    else if t[0] == '-' then Some(-magnitude)
    else Some(magnitude)
  }

  /** A run of digits followed by something that is not a digit is read whole. */
  lemma {:induction false} LeadingDigitsOf(d: string, rest: string)
    requires AllDigits(d)
    requires rest == [] || !IsDecimalDigit(rest[0])
    ensures LeadingDigits(d + rest) == d
    decreases |d|
  {
    if d != [] {
      LeadingDigitsOf(d[1..], rest);
      assert (d + rest)[1..] == d[1..] + rest;
      assert [d[0]] + d[1..] == d;
    } else {
      assert d + rest == rest;
    }
  }

  /** Round trip: `parseInt` reads back a zero-padded decimal, whatever non-digit follows. */
  lemma {:induction false} ParseIntZeroPad(n: nat, width: nat, rest: string)
    requires rest == [] || !IsDecimalDigit(rest[0])
    ensures ParseInt(ZeroPad(n, width) + rest) == Some(n)
  {
    var d := ZeroPad(n, width);
    var s := d + rest;
    assert s[0] == d[0] && IsDecimalDigit(s[0]);
    TrimStartStops(s);
    ParseSignedDigits(d, rest);
  }

  /** parseInt reads a zero-padded field back. */
  lemma {:induction false} ParsePadded(n: nat, width: nat)
    ensures ParseInt(ZeroPad(n, width)) == Some(n)
  {
    ParseIntZeroPad(n, width, []);
    assert ZeroPad(n, width) + [] == ZeroPad(n, width);
  }

  /** A run of digits not preceded by a sign is read as a non-negative number. */
  lemma {:induction false} ParseSignedDigits(d: string, rest: string)
    requires d != [] && AllDigits(d)
    requires rest == [] || !IsDecimalDigit(rest[0])
    ensures ParseSigned(d + rest) == Some(DigitsValue(d))
  {
    var s := d + rest;
    assert s[0] == d[0];
    LeadingDigitsOf(d, rest);
  }

  /** A leading minus sign negates the number read. */
  lemma {:induction false} ParseIntNegative(n: nat, rest: string)
    requires rest == [] || !IsDecimalDigit(rest[0])
    ensures ParseInt("-" + DecimalString(n) + rest) == Some(-(n as int))
  {
    var s := "-" + DecimalString(n) + rest;
    assert s[0] == '-';
    TrimStartStops(s);
    ParseSignedMinus(DecimalString(n), rest);
  }

  /** After a minus sign, a run of digits is read and negated. */
  lemma {:induction false} ParseSignedMinus(d: string, rest: string)
    requires d != [] && AllDigits(d)
    requires rest == [] || !IsDecimalDigit(rest[0])
    ensures ParseSigned("-" + d + rest) == Some(-(DigitsValue(d) as int))
  {
    var s := "-" + d + rest;
    assert s[0] == '-';
    assert s[1..] == d + rest;
    LeadingDigitsOf(d, rest);
  }

  lemma {:induction false} TrimStartStops(s: string)
    requires s != [] && !IsWhiteSpace(s[0])
    ensures TrimStart(s) == s
  {
  }

  /** Without a digit after the white space and the optional sign, the result is NaN. */
  lemma {:induction false} ParseIntNaN(s: string)
    requires var t := TrimStart(s);
      t == [] || (!IsDecimalDigit(t[0]) && t[0] != '-' && t[0] != '+')
      || (|t| >= 2 && (t[0] == '-' || t[0] == '+') && !IsDecimalDigit(t[1]))
      || t == "-" || t == "+"
    ensures ParseInt(s) == None
  {
  }

  /** Leading white space does not change what `parseInt` reads. */
  lemma {:induction false} ParseIntSkipsWhiteSpace(c: char, s: string)
    requires IsWhiteSpace(c)
    ensures ParseInt([c] + s) == ParseInt(s)
  {
    var cs := [c] + s;
    assert cs[1..] == s;
    assert TrimStart(cs) == TrimStart(s);
  }
}
