/** Text rules the routes rely on: the JavaScript regular-expression class
    `\s`, the replacement of every run of whitespace by one underscore, the
    decimal form of a non-negative integer and `parseInt(text, 10)`. */
module Text {
  import opened Common

  /** The characters matched by `\s` in a JavaScript regular expression
      (WhiteSpace and LineTerminator of ECMAScript). */
  const Whitespace: set<char> := {
    '\t', '\n', '\U{B}', '\U{C}', '\r', ' ', '\U{A0}', '\U{1680}',
    '\U{2000}', '\U{2001}', '\U{2002}', '\U{2003}', '\U{2004}', '\U{2005}',
    '\U{2006}', '\U{2007}', '\U{2008}', '\U{2009}', '\U{200A}',
    '\U{2028}', '\U{2029}', '\U{202F}', '\U{205F}', '\U{3000}', '\U{FEFF}'
  }

  predicate IsWhitespace(c: char) {
    c in Whitespace
  }

  predicate NoWhitespace(s: string) {
    forall i :: 0 <= i < |s| ==> !IsWhitespace(s[i])
  }

  predicate AllWhitespace(s: string) {
    forall i :: 0 <= i < |s| ==> IsWhitespace(s[i])
  }

  /** Drops the leading run of whitespace. */
  function SkipWhitespace(s: string): (r: string)
    ensures |r| <= |s| && r == s[|s| - |r|..]
    ensures r == [] || !IsWhitespace(r[0])
  {
    if s != [] && IsWhitespace(s[0]) then SkipWhitespace(s[1..]) else s
  }

  /** A run made only of whitespace is skipped entirely. */
  lemma {:induction false} SkipAllWhitespace(w: string, b: string)
    requires AllWhitespace(w)
    ensures SkipWhitespace(w + b) == SkipWhitespace(b)
    decreases |w|
  {
    if w == [] {
      assert w + b == b;
    } else {
      assert (w + b)[0] == w[0];
      assert (w + b)[1..] == w[1..] + b;
      assert AllWhitespace(w[1..]) by {
        forall i | 0 <= i < |w[1..]| ensures IsWhitespace(w[1..][i]) { assert w[1..][i] == w[i + 1]; }
      }
      SkipAllWhitespace(w[1..], b);
    }
  }

  /** `name.replace(/\s+/g, "_")`: every maximal run of whitespace becomes
      a single underscore; every other character is kept in place. */
  function CollapseWhitespace(s: string): string
    decreases |s|
  {
    if s == [] then []
    else if IsWhitespace(s[0]) then "_" + CollapseWhitespace(SkipWhitespace(s[1..]))
    else [s[0]] + CollapseWhitespace(s[1..])
  }

  /** The replaced name holds no whitespace and is no longer than the
      original. */
  lemma {:induction false} CollapseRemovesWhitespace(s: string)
    ensures NoWhitespace(CollapseWhitespace(s))
    ensures |CollapseWhitespace(s)| <= |s|
    decreases |s|
  {
    if s != [] {
      if IsWhitespace(s[0]) {
        CollapseRemovesWhitespace(SkipWhitespace(s[1..]));
        assert !IsWhitespace('_');
      } else {
        CollapseRemovesWhitespace(s[1..]);
      }
    }
  }

  /** A name is left as it is exactly when it holds no whitespace. */
  lemma {:induction false} CollapseFixpoint(s: string)
    ensures CollapseWhitespace(s) == s <==> NoWhitespace(s)
    decreases |s|
  {
    CollapseRemovesWhitespace(s);
    if s != [] && NoWhitespace(s) {
      assert NoWhitespace(s[1..]) by {
        forall i | 0 <= i < |s[1..]| ensures !IsWhitespace(s[1..][i]) { assert s[1..][i] == s[i + 1]; }
      }
      CollapseFixpoint(s[1..]);
      assert s == [s[0]] + s[1..];
    }
  }

  /** Replacing twice gives the same name as replacing once. */
  lemma CollapseIdempotent(s: string)
    ensures CollapseWhitespace(CollapseWhitespace(s)) == CollapseWhitespace(s)
  {
    CollapseRemovesWhitespace(s);
    CollapseFixpoint(CollapseWhitespace(s));
  }

  /** A whitespace run followed by a non-whitespace character (or the end)
      turns into exactly one underscore. */
  lemma CollapseRun(w: string, b: string)
    requires |w| > 0 && AllWhitespace(w)
    requires b == [] || !IsWhitespace(b[0])
    ensures CollapseWhitespace(w + b) == "_" + CollapseWhitespace(b)
  {
    assert (w + b)[0] == w[0];
    assert (w + b)[1..] == w[1..] + b;
    assert AllWhitespace(w[1..]) by {
      forall i | 0 <= i < |w[1..]| ensures IsWhitespace(w[1..][i]) { assert w[1..][i] == w[i + 1]; }
    }
    SkipAllWhitespace(w[1..], b);
    assert SkipWhitespace(b) == b;
  }

  /** Skipping whitespace stops at the first non-whitespace character. */
  lemma {:induction false} SkipBefore(x: string, c: char, y: string)
    requires !IsWhitespace(c)
    ensures SkipWhitespace(x + [c] + y) == SkipWhitespace(x) + [c] + y
    decreases |x|
  {
    if x == [] {
      assert x + [c] + y == [c] + y;
    } else {
      assert (x + [c] + y)[0] == x[0];
      assert (x + [c] + y)[1..] == x[1..] + [c] + y;
      if IsWhitespace(x[0]) {
        SkipBefore(x[1..], c, y);
      }
    }
  }

  /** A non-whitespace character splits the replacement: what is before it
      and what is after it are replaced independently. */
  lemma {:induction false} CollapseSplit(a: string, c: char, b: string)
    requires !IsWhitespace(c)
    ensures CollapseWhitespace(a + [c] + b) == CollapseWhitespace(a) + [c] + CollapseWhitespace(b)
    decreases |a|, 1
  {
    var s := a + [c] + b;
    if a == [] {
      assert s == [c] + b && s[1..] == b;
    } else if IsWhitespace(a[0]) {
      CollapseSplitAfterRun(a, c, b);
    } else {
      assert s[0] == a[0] && s[1..] == a[1..] + [c] + b;
      calc {
        CollapseWhitespace(s);
        [a[0]] + CollapseWhitespace(a[1..] + [c] + b);
        { CollapseSplit(a[1..], c, b); }
        [a[0]] + (CollapseWhitespace(a[1..]) + [c] + CollapseWhitespace(b));
        CollapseWhitespace(a) + [c] + CollapseWhitespace(b);
      }
    }
  }

  /** The case of `CollapseSplit` where `a` starts with whitespace. */
  lemma {:induction false} CollapseSplitAfterRun(a: string, c: char, b: string)
    requires !IsWhitespace(c)
    requires a != [] && IsWhitespace(a[0])
    ensures CollapseWhitespace(a + [c] + b) == CollapseWhitespace(a) + [c] + CollapseWhitespace(b)
    decreases |a|, 0
  {
    var s := a + [c] + b;
    assert s[0] == a[0] && s[1..] == a[1..] + [c] + b;
    var t := SkipWhitespace(a[1..]);
    calc {
      CollapseWhitespace(s);
      "_" + CollapseWhitespace(SkipWhitespace(a[1..] + [c] + b));
      { SkipBefore(a[1..], c, b); }
      "_" + CollapseWhitespace(t + [c] + b);
      { CollapseSplit(t, c, b); }
      "_" + (CollapseWhitespace(t) + [c] + CollapseWhitespace(b));
      CollapseWhitespace(a) + [c] + CollapseWhitespace(b);
    }
  }

  predicate IsDigit(c: char) {
    '0' <= c <= '9'
  }

  predicate AllDigits(s: string) {
    forall i :: 0 <= i < |s| ==> IsDigit(s[i])
  }

  function DigitChar(d: nat): (c: char)
    requires d < 10
    ensures IsDigit(c) && c as int - '0' as int == d
  {
    ('0' as int + d) as char
  }

  /** The decimal numeral of `n` (JavaScript's `${n}` for a safe integer). */
  function Decimal(n: nat): (r: string)
    ensures |r| > 0 && AllDigits(r)
    ensures r[0] == '0' ==> r == "0"
  {
    if n < 10 then [DigitChar(n)] else Decimal(n / 10) + [DigitChar(n % 10)]
  }

  /** The value of a string of decimal digits. */
  function DigitsValue(s: string): nat
    requires AllDigits(s)
  {
    if s == [] then 0 else DigitsValue(s[..|s| - 1]) * 10 + (s[|s| - 1] as int - '0' as int)
  }

  lemma {:induction false} DecimalValue(n: nat)
    ensures DigitsValue(Decimal(n)) == n
  {
    if n >= 10 {
      var d := Decimal(n);
      assert d[..|d| - 1] == Decimal(n / 10);
      DecimalValue(n / 10);
    }
  }

  /** The length of the longest prefix made of digits. */
  function DigitSpan(s: string): (k: nat)
    ensures k <= |s| && AllDigits(s[..k])
    ensures k == |s| || !IsDigit(s[k])
  {
    if s != [] && IsDigit(s[0]) then
      var k := 1 + DigitSpan(s[1..]);
      assert s[..k] == [s[0]] + s[1..][..k - 1];
      k
    else
      0
  }

  lemma {:induction false} DigitSpanAppend(d: string, t: string)
    requires AllDigits(d)
    requires t == [] || !IsDigit(t[0])
    ensures DigitSpan(d + t) == |d| && (d + t)[..|d|] == d
    decreases |d|
  {
    if d == [] {
      assert d + t == t;
    } else {
      assert (d + t)[1..] == d[1..] + t;
      DigitSpanAppend(d[1..], t);
    }
  }

  /** The longest run of digits at the start of `u`, read as a number;
      `None` when `u` does not start with a digit. */
  function ParseDigits(u: string): (r: Option<nat>)
    ensures r.None? <==> u == [] || !IsDigit(u[0])
  {
    var k := DigitSpan(u);
    if k == 0 then None else Some(DigitsValue(u[..k]))
  }

  /** An optional sign followed by digits. */
  function ParseSigned(t: string): Option<int>
  {
    if t != [] && (t[0] == '-' || t[0] == '+') then
      match ParseDigits(t[1..])
      case None => None
      case Some(v) => Some(if t[0] == '-' then -(v as int) else v)
    else
      match ParseDigits(t)
      case None => None
      case Some(v) => Some(v)
  }

  /** `parseInt(s, 10)`: leading whitespace is skipped, one sign is read,
      then the longest run of digits; `None` stands for `NaN` (no digit). */
  function ParseInt(s: string): Option<int>
  {
    ParseSigned(SkipWhitespace(s))
  }

  lemma ParseDigitsDecimal(n: nat, tail: string)
    requires tail == [] || !IsDigit(tail[0])
    ensures ParseDigits(Decimal(n) + tail) == Some(n)
  {
    DigitSpanAppend(Decimal(n), tail);
    DecimalValue(n);
  }

  lemma DigitIsNotWhitespace(c: char)
    requires IsDigit(c)
    ensures !IsWhitespace(c)
  {
  }

  lemma SignIsNotWhitespace()
    ensures !IsWhitespace('-') && !IsWhitespace('+')
  {
  }

  /** Whitespace in front of a number does not change what `parseInt` reads. */
  lemma ParseIntSkips(w: string, t: string)
    requires AllWhitespace(w)
    requires t == [] || !IsWhitespace(t[0])
    ensures ParseInt(w + t) == ParseSigned(t)
  {
    SkipAllWhitespace(w, t);
  }

  /** The digits at the head of `d + tail` are exactly `d`. */
  lemma ParseDigitsOf(d: string, tail: string)
    requires d != [] && AllDigits(d)
    requires tail == [] || !IsDigit(tail[0])
    ensures ParseDigits(d + tail) == Some(DigitsValue(d))
  {
    DigitSpanAppend(d, tail);
  }

  /** `parseInt` reads any run of digits, leading zeros included, whatever
      non-digit text follows it. */
  lemma ParseIntDigits(d: string, tail: string)
    requires d != [] && AllDigits(d)
    requires tail == [] || !IsDigit(tail[0])
    ensures ParseInt(d + tail) == Some(DigitsValue(d) as int)
  {
    var u := d + tail;
    assert ParseDigits(u) == Some(DigitsValue(d)) by {
      ParseDigitsOf(d, tail);
    }
    assert u != [] && IsDigit(u[0]) by {
      assert u[0] == d[0];
    }
    assert ParseInt(u) == ParseSigned(u) by {
      DigitIsNotWhitespace(u[0]);
      ParseIntStarts(u);
    }
  }

  /** In particular `parseInt` reads back the numeral of any number. */
  lemma ParseIntDecimal(n: nat, tail: string)
    requires tail == [] || !IsDigit(tail[0])
    ensures ParseInt(Decimal(n) + tail) == Some(n)
  {
    ParseIntDigits(Decimal(n), tail);
    DecimalValue(n);
  }

  /** Skipping stops at once at a character that is not whitespace. */
  lemma SkipStops(t: string)
    requires t != [] && !IsWhitespace(t[0])
    ensures SkipWhitespace(t) == t
  {
  }

  /** `parseInt` of text that does not start with whitespace reads it
      from its first character. */
  lemma ParseIntStarts(t: string)
    requires t != [] && !IsWhitespace(t[0])
    ensures ParseInt(t) == ParseSigned(t)
  {
    SkipStops(t);
  }

  /** One sign, then the rest `u`: with no digit at the head of `u` the
      result is `NaN`; otherwise the value read is negated by `-` and kept
      by `+`. */
  lemma ParseIntSigned(sign: char, u: string)
    requires sign == '-' || sign == '+'
    ensures ParseDigits(u).None? ==> ParseInt([sign] + u) == None
    ensures ParseDigits(u).Some? ==>
      ParseInt([sign] + u) == Some(if sign == '-' then -(ParseDigits(u).value as int) else ParseDigits(u).value as int)
  {
    var t := [sign] + u;
    assert t[0] == sign && t[1..] == u;
    SignIsNotWhitespace();
    ParseIntStarts(t);
  }

  /** With a sign, `parseInt` reads back the numeral of any number,
      negated by `-`. */
  lemma ParseIntSignedDecimal(sign: char, n: nat, tail: string)
    requires sign == '-' || sign == '+'
    requires tail == [] || !IsDigit(tail[0])
    ensures ParseInt([sign] + (Decimal(n) + tail)) == Some(if sign == '-' then -(n as int) else n as int)
  {
    ParseDigitsDecimal(n, tail);
    ParseIntSignedRead(sign, Decimal(n) + tail, n);
  }

  lemma ParseIntSignedRead(sign: char, u: string, v: nat)
    requires sign == '-' || sign == '+'
    requires ParseDigits(u) == Some(v)
    ensures ParseInt([sign] + u) == Some(if sign == '-' then -(v as int) else v as int)
  {
    var t := [sign] + u;
    assert t[0] == sign && t[1..] == u;
    SignIsNotWhitespace();
    ParseIntStarts(t);
  }

  /** A sign that no digit follows parses to `NaN`. */
  lemma ParseIntLoneSign(sign: char, t: string)
    requires sign == '-' || sign == '+'
    requires t == [] || !IsDigit(t[0])
    ensures ParseInt([sign] + t) == None
  {
    ParseIntSigned(sign, t);
  }

  /** A string that does not start with a digit (after whitespace and a
      sign) parses to `NaN`. */
  lemma ParseIntNaN(s: string)
    requires s == [] || (!IsDigit(s[0]) && !IsWhitespace(s[0]) && s[0] != '-' && s[0] != '+')
    ensures ParseInt(s) == None
  {
  }
}
