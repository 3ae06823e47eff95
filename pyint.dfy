/**
 * Python's `int(text)` in base 10 and `str(n)` for integers, restricted to
 * ASCII: surrounding whitespace is ignored, one optional sign is allowed,
 * and single underscores may separate digits.
 */
module PyInt {
  import opened Wrappers

  /**
   * The ASCII characters `int()` skips as whitespace: tab, line feed,
   * vertical tab, form feed, carriage return and space. The separators
   * 0x1C-0x1F, which `str.isspace()` accepts, are not among them.
   */
  predicate IsSpace(c: char) {
    ('\t' <= c <= '\r') || c == ' '
  }

  predicate AllSpace(w: string) {
    forall i :: 0 <= i < |w| ==> IsSpace(w[i])
  }

  predicate IsDigit(c: char) {
    '0' <= c <= '9'
  }

  predicate AllDigits(s: string) {
    forall i :: 0 <= i < |s| ==> IsDigit(s[i])
  }

  function DigitValue(c: char): (d: nat)
    requires IsDigit(c)
    ensures d < 10
  {
    c as int - '0' as int
  }

  function DigitChar(d: nat): (c: char)
    requires d < 10
    ensures IsDigit(c) && DigitValue(c) == d
  {
    ('0' as int + d) as char
  }

  /** `s` without its leading whitespace. */
  function TrimStart(s: string): (r: string)
    ensures |r| <= |s| && r == s[|s| - |r|..]
    ensures |r| > 0 ==> !IsSpace(r[0])
  {
    if |s| > 0 && IsSpace(s[0]) then TrimStart(s[1..]) else s
  }

  /** `s` without its trailing whitespace. */
  function TrimEnd(s: string): (r: string)
    ensures |r| <= |s| && r == s[..|r|]
    ensures |r| > 0 ==> !IsSpace(r[|r| - 1])
  {
    if |s| > 0 && IsSpace(s[|s| - 1]) then TrimEnd(s[..|s| - 1]) else s
  }

  function Strip(s: string): string {
    TrimEnd(TrimStart(s))
  }

  /** A base-10 digit string as `int()` accepts it: digits, with single underscores strictly between digits. */
  predicate WellFormedDigits(b: string) {
    && |b| > 0
    && IsDigit(b[0])
    && IsDigit(b[|b| - 1])
    && (forall i :: 0 <= i < |b| ==> IsDigit(b[i]) || b[i] == '_')
    && (forall i :: 0 <= i < |b| - 1 ==> b[i] == '_' ==> b[i + 1] != '_')
  }

  /** The digits of `b` with the underscores taken out. */
  function DropUnderscores(b: string): (r: string)
    ensures |r| <= |b|
    ensures (forall i :: 0 <= i < |b| ==> IsDigit(b[i]) || b[i] == '_') ==> AllDigits(r)
  {
    if b == [] then []
    else if b[0] == '_' then DropUnderscores(b[1..])
    else [b[0]] + DropUnderscores(b[1..])
  }

  /** The number a string of decimal digits denotes (most significant first). */
  function DigitsValue(d: string): nat
    requires AllDigits(d)
  {
    if d == [] then 0 else DigitsValue(d[..|d| - 1]) * 10 + DigitValue(d[|d| - 1])
  }

  /** `int()` on text already stripped of whitespace: an optional sign, then well-formed digits. */
  function ParseSigned(t: string): Option<int> {
    if |t| > 0 && (t[0] == '+' || t[0] == '-') then
      var body := t[1..];
      if WellFormedDigits(body) then
        var v: int := DigitsValue(DropUnderscores(body));
        Some(if t[0] == '-' then -v else v)
      else None
    else if WellFormedDigits(t) then Some(DigitsValue(DropUnderscores(t)))
    else None
  }

  /** `int(s)`: `None` where Python raises `ValueError`. */
  function ParseInt(s: string): Option<int> {
    ParseSigned(Strip(s))
  }

  /** `str(n)` for `n >= 0`: decimal digits without leading zeros. */
  function FormatNat(n: nat): (r: string)
    ensures |r| > 0 && AllDigits(r)
    ensures r[0] != '0' || n == 0
  {
    if n < 10 then [DigitChar(n)] else FormatNat(n / 10) + [DigitChar(n % 10)]
  }

  /** `str(n)`. */
  function FormatInt(n: int): (r: string)
    ensures |r| > 0
  {
    if n < 0 then "-" + FormatNat(-n) else FormatNat(n)
  }

  // ---------------------------------------------------------------------
  // Properties of the model

  lemma {:induction false} FormatNatValue(n: nat)
    ensures DigitsValue(FormatNat(n)) == n
  {
    if n >= 10 {
      FormatNatValue(n / 10);
      var r := FormatNat(n);
      assert r[..|r| - 1] == FormatNat(n / 10);
    }
  }

  lemma {:induction false} DropUnderscoresOfDigits(d: string)
    requires AllDigits(d)
    ensures DropUnderscores(d) == d
  {
    if d != [] {
      DropUnderscoresOfDigits(d[1..]);
      assert [d[0]] + d[1..] == d;
    }
  }

  lemma DigitsWellFormed(d: string)
    requires |d| > 0 && AllDigits(d)
    ensures WellFormedDigits(d)
  {
  }

  lemma StripUnpadded(s: string)
    requires |s| > 0 && !IsSpace(s[0]) && !IsSpace(s[|s| - 1])
    ensures Strip(s) == s
  {
  }

  /** A non-empty digit string parses to the number it denotes. */
  lemma ParseDigits(d: string)
    requires |d| > 0 && AllDigits(d)
    ensures ParseInt(d) == Some(DigitsValue(d))
  {
    DropUnderscoresOfDigits(d);
    DigitsWellFormed(d);
    assert IsDigit(d[0]) && IsDigit(d[|d| - 1]);
    StripUnpadded(d);
  }

  /** A minus sign before a non-empty digit string negates the number. */
  lemma ParseNegatedDigits(s: string)
    requires |s| > 1 && s[0] == '-' && AllDigits(s[1..])
    ensures ParseInt(s) == Some(-(DigitsValue(s[1..]) as int))
  {
    assert s[|s| - 1] == s[1..][|s| - 2];
    StripUnpadded(s);
    ParseSignedMinus(s);
  }

  /** A minus sign followed by a non-empty digit string reads as the negated number. */
  lemma ParseSignedMinus(t: string)
    requires |t| > 1 && t[0] == '-' && AllDigits(t[1..])
    ensures ParseSigned(t) == Some(-(DigitsValue(t[1..]) as int))
  {
    var body := t[1..];
    DropUnderscoresOfDigits(body);
    DigitsWellFormed(body);
  }

  /** A plus sign followed by a non-empty digit string reads as the number the digits denote. */
  lemma ParseSignedPlus(t: string)
    requires |t| > 1 && t[0] == '+' && AllDigits(t[1..])
    ensures ParseSigned(t) == Some(DigitsValue(t[1..]))
  {
    var body := t[1..];
    DropUnderscoresOfDigits(body);
    DigitsWellFormed(body);
  }

  /** The decimal form of a natural number parses back to it, without or with a sign. */
  lemma ParseFormattedNat(m: nat)
    ensures ParseInt(FormatNat(m)) == Some(m)
    ensures ParseInt("-" + FormatNat(m)) == Some(-(m as int))
  {
    var d := FormatNat(m);
    FormatNatValue(m);
    ParseDigits(d);
    var s := "-" + d;
    assert s[1..] == d;
    ParseNegatedDigits(s);
  }

  /** The decimal form of an integer is made of digits and at most a leading minus sign. */
  lemma FormatIntChars(n: int)
    ensures forall k :: 0 <= k < |FormatInt(n)| ==> IsDigit(FormatInt(n)[k]) || (k == 0 && FormatInt(n)[k] == '-')
  {
    var d := FormatInt(n);
    forall k | 0 <= k < |d| ensures IsDigit(d[k]) || (k == 0 && d[k] == '-') {
      if n < 0 && k > 0 {
        assert d[k] == FormatNat(-n)[k - 1];
      }
    }
  }

  /** `int(str(n)) == n` for every integer. */
  lemma ParseFormatted(n: int)
    ensures ParseInt(FormatInt(n)) == Some(n)
  {
    ParseFormattedNat(if n < 0 then -n else n);
  }

  /** Formatting is injective: distinct integers have distinct decimal forms. */
  lemma FormatInjective(a: int, b: int)
    requires FormatInt(a) == FormatInt(b)
    ensures a == b
  {
    ParseFormatted(a);
    ParseFormatted(b);
  }

  // ---------------------------------------------------------------------
  // What `int()` accepts and rejects

  /** Everything `TrimStart` cuts off is whitespace. */
  lemma {:induction false} TrimStartCutsSpace(s: string)
    ensures forall i :: 0 <= i < |s| - |TrimStart(s)| ==> IsSpace(s[i])
  {
    if |s| > 0 && IsSpace(s[0]) {
      TrimStartCutsSpace(s[1..]);
      forall i | 0 < i < |s| - |TrimStart(s)| ensures IsSpace(s[i]) { assert s[i] == s[1..][i - 1]; }
    }
  }

  /** Everything `TrimEnd` cuts off is whitespace. */
  lemma {:induction false} TrimEndCutsSpace(s: string)
    ensures forall i :: |TrimEnd(s)| <= i < |s| ==> IsSpace(s[i])
  {
    if |s| > 0 && IsSpace(s[|s| - 1]) {
      TrimEndCutsSpace(s[..|s| - 1]);
      forall i | |TrimEnd(s)| <= i < |s| - 1 ensures IsSpace(s[i]) { assert s[i] == s[..|s| - 1][i]; }
    }
  }

  /** `Strip(s)` is a slice of `s` with only whitespace cut off on either side. */
  lemma StripSlice(s: string) returns (a: nat)
    ensures a + |Strip(s)| <= |s| && Strip(s) == s[a..a + |Strip(s)|]
    ensures forall i :: 0 <= i < a ==> IsSpace(s[i])
    ensures forall i :: a + |Strip(s)| <= i < |s| ==> IsSpace(s[i])
  {
    var u := TrimStart(s);
    var t := TrimEnd(u);
    a := |s| - |u|;
    assert t == Strip(s);
    assert u == s[a..] && t == u[..|t|];
    assert s[a..][..|t|] == s[a..a + |t|];
    TrimStartCutsSpace(s);
    TrimEndCutsSpace(u);
    forall i | a + |t| <= i < |s| ensures IsSpace(s[i]) {
      assert s[i] == u[i - a];
    }
  }

  /**
   * `int(s)` raises when `s` holds a character that is neither whitespace, a
   * digit, a sign nor an underscore.
   */
  lemma RejectsForeignChar(s: string, i: nat)
    requires i < |s| && !IsSpace(s[i]) && !IsDigit(s[i])
    requires s[i] != '+' && s[i] != '-' && s[i] != '_'
    ensures ParseInt(s) == None
  {
    var a := StripSlice(s);
    var t := Strip(s);
    assert a <= i < a + |t|;
    var j := i - a;
    assert t[j] == s[i];
    if |t| > 0 && (t[0] == '+' || t[0] == '-') {
      assert t[1..][j - 1] == t[j];
      assert !WellFormedDigits(t[1..]);
    } else {
      assert !WellFormedDigits(t);
    }
    assert ParseSigned(t) == None;
  }

  /** `int(s)` raises when `s` holds no digit at all. */
  lemma RejectsWithoutDigit(s: string)
    requires forall i :: 0 <= i < |s| ==> !IsDigit(s[i])
    ensures ParseInt(s) == None
  {
    var a := StripSlice(s);
    var t := Strip(s);
    if |t| > 1 {
      assert t[1] == s[a + 1];
    }
    if |t| > 0 {
      assert t[0] == s[a];
    }
  }

  lemma {:induction false} TrimStartSpaces(w: string, x: string)
    requires AllSpace(w)
    ensures TrimStart(w + x) == TrimStart(x)
  {
    if w != [] {
      assert (w + x)[0] == w[0] && IsSpace(w[0]);
      assert (w + x)[1..] == w[1..] + x;
      assert AllSpace(w[1..]) by {
        forall i | 0 <= i < |w| - 1 ensures IsSpace(w[1..][i]) { assert w[1..][i] == w[i + 1]; }
      }
      TrimStartSpaces(w[1..], x);
    } else {
      assert w + x == x;
    }
  }

  lemma {:induction false} TrimEndSpaces(x: string, w: string)
    requires AllSpace(w)
    ensures TrimEnd(x + w) == TrimEnd(x)
  {
    if w != [] {
      var w' := w[..|w| - 1];
      assert (x + w)[|x + w| - 1] == w[|w| - 1] && IsSpace(w[|w| - 1]);
      assert (x + w)[..|x + w| - 1] == x + w';
      assert AllSpace(w') by {
        forall i | 0 <= i < |w'| ensures IsSpace(w'[i]) { assert w'[i] == w[i]; }
      }
      TrimEndSpaces(x, w');
    } else {
      assert x + w == x;
    }
  }

  lemma {:induction false} StripTrailingSpaces(x: string, w: string)
    requires AllSpace(w)
    ensures TrimEnd(TrimStart(x + w)) == TrimEnd(TrimStart(x))
  {
    if x == [] {
      assert x + w == w + x;
      TrimStartSpaces(w, x);
    } else if IsSpace(x[0]) {
      assert (x + w)[1..] == x[1..] + w;
      StripTrailingSpaces(x[1..], w);
    } else {
      TrimEndSpaces(x, w);
    }
  }

  /** Whitespace around the text does not change what `int()` reads. */
  lemma ParseIgnoresPadding(w1: string, t: string, w2: string)
    requires AllSpace(w1) && AllSpace(w2)
    ensures ParseInt(w1 + t + w2) == ParseInt(t)
  {
    assert w1 + t + w2 == w1 + (t + w2);
    TrimStartSpaces(w1, t + w2);
    StripTrailingSpaces(t, w2);
  }

  /** A leading plus sign does not change the number a digit string denotes. */
  lemma ParsePlusDigits(s: string)
    requires |s| > 0 && s[0] == '+' && AllDigits(s[1..])
    ensures ParseInt(s) == ParseInt(s[1..])
  {
    var d := s[1..];
    if d != [] {
      assert s[|s| - 1] == d[|d| - 1];
      StripUnpadded(s);
      ParseSignedPlus(s);
      assert ParseInt(s) == Some(DigitsValue(d));
      ParseDigits(d);
    } else {
      StripUnpadded(s);
      assert ParseSigned(s) == None;
      assert Strip(d) == d;
    }
  }

  lemma {:induction false} DropUnderscoresAppend(x: string, y: string)
    ensures DropUnderscores(x + y) == DropUnderscores(x) + DropUnderscores(y)
  {
    if x != [] {
      assert (x + y)[0] == x[0];
      assert (x + y)[1..] == x[1..] + y;
      DropUnderscoresAppend(x[1..], y);
    } else {
      assert x + y == y;
    }
  }

  /** Two runs of digits joined by one underscore are well formed. */
  lemma UnderscoreWellFormed(a: string, b: string)
    requires |a| > 0 && |b| > 0 && AllDigits(a) && AllDigits(b)
    ensures WellFormedDigits(a + "_" + b)
  {
    var s := a + "_" + b;
    assert s[0] == a[0] && s[|s| - 1] == b[|b| - 1];
    assert forall i :: 0 <= i < |s| && i != |a| ==> IsDigit(s[i]) by {
      forall i | 0 <= i < |s| && i != |a| ensures IsDigit(s[i]) {
        if i < |a| { assert s[i] == a[i]; } else { assert s[i] == b[i - |a| - 1]; }
      }
    }
    assert s[|a|] == '_';
    assert forall i :: 0 <= i < |s| ==> IsDigit(s[i]) || s[i] == '_';
    assert forall i :: 0 <= i < |s| - 1 ==> s[i] == '_' ==> s[i + 1] != '_';
  }

  /** Dropping the underscore between two runs of digits joins them. */
  lemma DropUnderscoreBetween(a: string, b: string)
    requires AllDigits(a) && AllDigits(b)
    ensures DropUnderscores(a + "_" + b) == a + b
  {
    DropUnderscoresAppend(a + "_", b);
    DropUnderscoresAppend(a, "_");
    DropUnderscoresOfDigits(a);
    DropUnderscoresOfDigits(b);
    assert DropUnderscores("_") == "";
    assert a + "" == a;
  }

  /** Well-formed digits without a sign read as the number they denote once the underscores are dropped. */
  lemma ParseSignedWellFormed(t: string)
    requires WellFormedDigits(t)
    ensures AllDigits(DropUnderscores(t))
    ensures ParseSigned(t) == Some(DigitsValue(DropUnderscores(t)))
  {
  }

  lemma AppendDigits(a: string, b: string)
    requires AllDigits(a) && AllDigits(b)
    ensures AllDigits(a + b)
  {
    var ab := a + b;
    forall i | 0 <= i < |ab| ensures IsDigit(ab[i]) {
      if i < |a| { assert ab[i] == a[i]; } else { assert ab[i] == b[i - |a|]; }
    }
  }

  /** A single underscore between two runs of digits is ignored. */
  lemma ParseUnderscore(a: string, b: string)
    requires |a| > 0 && |b| > 0 && AllDigits(a) && AllDigits(b)
    ensures ParseInt(a + "_" + b) == ParseInt(a + b)
  {
    var s := a + "_" + b;
    assert s[0] == a[0] && s[|s| - 1] == b[|b| - 1];
    StripUnpadded(s);
    UnderscoreWellFormed(a, b);
    DropUnderscoreBetween(a, b);
    ParseSignedWellFormed(s);
    assert ParseInt(s) == Some(DigitsValue(a + b));
    AppendDigits(a, b);
    ParseDigits(a + b);
  }
}
