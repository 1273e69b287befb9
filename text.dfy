/**
 * The Python string operations the mnemonic file reader and writer rely on:
 * `str.isspace`, `str.split()`, `str.strip()`, `str.isdigit`, `int(s)` and
 * `str(n)`, on Dafny strings.
 */
module Text {
  import opened Encoding

  /** `c.isspace()`: Python's whitespace characters. */
  predicate IsSpace(c: char)
  {
    c in {' ', '\t', '\n', '\r', '\U{0B}', '\U{0C}', '\U{1C}', '\U{1D}', '\U{1E}', '\U{1F}',
          '\U{85}', '\U{A0}', '\U{1680}', '\U{2000}', '\U{2001}', '\U{2002}', '\U{2003}',
          '\U{2004}', '\U{2005}', '\U{2006}', '\U{2007}', '\U{2008}', '\U{2009}', '\U{200A}',
          '\U{2028}', '\U{2029}', '\U{202F}', '\U{205F}', '\U{3000}'}
  }

  predicate NoSpace(s: string)
  {
    forall k :: 0 <= k < |s| ==> !IsSpace(s[k])
  }

  /** Length of the run of non-whitespace characters that starts s. */
  function RunLength(s: string): (n: nat)
    ensures n <= |s| && NoSpace(s[..n])
    ensures n < |s| ==> IsSpace(s[n])
  {
    if s == [] || IsSpace(s[0]) then 0
    else
      var n := 1 + RunLength(s[1..]);
      assert s[..n] == [s[0]] + s[1..][..n - 1];
      n
  }

  /** `s.split()`: the maximal runs of non-whitespace characters, in order. */
  function Fields(s: string): (r: seq<string>)
    ensures forall k :: 0 <= k < |r| ==> r[k] != [] && NoSpace(r[k])
    decreases |s|
  {
    if s == [] then []
    else if IsSpace(s[0]) then Fields(s[1..])
    else
      var n := RunLength(s);
      [s[..n]] + Fields(s[n..])
  }

  function TrimStart(s: string): (r: string)
    ensures r == [] || !IsSpace(r[0])
    ensures |r| <= |s| && r == s[|s| - |r|..]
    ensures forall k :: 0 <= k < |s| - |r| ==> IsSpace(s[k])
  {
    if s != [] && IsSpace(s[0]) then TrimStart(s[1..]) else s
  }

  function TrimEnd(s: string): (r: string)
    ensures r == [] || !IsSpace(r[|r| - 1])
    ensures |r| <= |s| && r == s[..|r|]
    ensures forall k :: |r| <= k < |s| ==> IsSpace(s[k])
  {
    if s != [] && IsSpace(s[|s| - 1]) then TrimEnd(s[..|s| - 1]) else s
  }

  /** `s.strip()`: s without its leading and trailing whitespace. */
  function Strip(s: string): string
  {
    TrimEnd(TrimStart(s))
  }

  predicate IsDigit(c: char)
  {
    '0' <= c <= '9'
  }

  predicate AllDigits(s: string)
  {
    forall k :: 0 <= k < |s| ==> IsDigit(s[k])
  }

  /** `s.isdigit()`: non-empty and made of digits. */
  predicate IsDecimal(s: string)
  {
    s != [] && AllDigits(s)
  }

  function DigitValue(c: char): (d: nat)
    requires IsDigit(c)
    ensures d < 10
  {
    c as int - '0' as int
  }

  function DigitChar(d: nat): (c: char)
    requires d < 10
    ensures IsDigit(c) && DigitValue(c) == d
  {
    ('0' as int + d) as char
  }

  /** `int(s)` on a string of digits. */
  function DecimalValue(s: string): nat
    requires AllDigits(s)
  {
    if s == [] then 0 else 10 * DecimalValue(s[..|s| - 1]) + DigitValue(s[|s| - 1])
  }

  function Pow10(n: nat): (p: nat)
    ensures p >= 1
  {
    if n == 0 then 1 else 10 * Pow10(n - 1)
  }

  /** `str(n)` for n >= 0: the decimal numeral of n, without leading zeros. */
  function DecimalString(n: nat): (r: string)
    ensures IsDecimal(r) && DecimalValue(r) == n
    ensures |r| > 1 ==> r[0] != '0'
    decreases n
  {
    if n < 10 then [DigitChar(n)]
    else
      var r := DecimalString(n / 10) + [DigitChar(n % 10)];
      assert r[..|r| - 1] == DecimalString(n / 10);
      r
  }

  /* ---------------------------------------------------------------------- */
  /* Lemmas                                                                  */
  /* ---------------------------------------------------------------------- */

  lemma {:induction false} DecimalFits(n: nat, w: nat)
    requires w >= 1 && n < Pow10(w)
    ensures |DecimalString(n)| <= w
  {
    if n >= 10 {
      DecimalFits(n / 10, w - 1);
    }
  }

  lemma {:induction false} DecimalValueOfZeroPadded(k: nat, s: string)
    requires AllDigits(s)
    ensures AllDigits(seq(k, _ => '0') + s)
    ensures DecimalValue(seq(k, _ => '0') + s) == DecimalValue(s)
  {
    var z: string := seq(k, _ => '0');
    var p := z + s;
    if s == [] {
      assert p == z;
      if k > 0 {
        assert p[..k - 1] == seq(k - 1, _ => '0') + [];
        DecimalValueOfZeroPadded(k - 1, []);
      }
    } else {
      assert p[..|p| - 1] == z + s[..|s| - 1];
      DecimalValueOfZeroPadded(k, s[..|s| - 1]);
    }
  }

  /** `str(n).zfill(w)` is a numeral of n, and has exactly w digits when n has at most w digits. */
  lemma ZFillDecimal(n: nat, w: nat)
    ensures var r := ZFill(DecimalString(n), w, '0');
      IsDecimal(r) && DecimalValue(r) == n && (w >= 1 && n < Pow10(w) ==> |r| == w)
  {
    var s := DecimalString(n);
    if w >= 1 && n < Pow10(w) {
      DecimalFits(n, w);
    }
    if |s| < w {
      DecimalValueOfZeroPadded(w - |s|, s);
      assert ZFill(s, w, '0') == seq(w - |s|, _ => '0') + s;
    }
  }

  /** A field followed by a space: the run stops exactly at the space. */
  lemma {:induction false} RunLengthStopsAtSpace(a: string, c: char, rest: string)
    requires NoSpace(a) && IsSpace(c)
    ensures RunLength(a + [c] + rest) == |a|
  {
    if a != [] {
      assert (a + [c] + rest)[1..] == a[1..] + [c] + rest;
      RunLengthStopsAtSpace(a[1..], c, rest);
    }
  }

  lemma {:induction false} RunLengthOfField(a: string)
    requires NoSpace(a)
    ensures RunLength(a) == |a|
  {
    if a != [] {
      RunLengthOfField(a[1..]);
    }
  }

  /** Splitting "a rest" where a has no whitespace yields a, then the fields of rest. */
  lemma SplitFirstField(a: string, rest: string)
    requires a != [] && NoSpace(a)
    ensures Fields(a + " " + rest) == [a] + Fields(rest)
  {
    var s := a + " " + rest;
    RunLengthStopsAtSpace(a, ' ', rest);
    assert s[..|a|] == a;
    assert s[|a|..] == " " + rest;
    assert (" " + rest)[1..] == rest;
  }

  lemma SplitSingleField(a: string)
    requires a != [] && NoSpace(a)
    ensures Fields(a) == [a]
  {
    RunLengthOfField(a);
    assert a[..|a|] == a;
    assert a[|a|..] == [];
  }

  /** "a b c" with three whitespace-free fields strips to itself and splits into them. */
  lemma SplitThreeFields(a: string, b: string, c: string)
    requires a != [] && NoSpace(a) && b != [] && NoSpace(b) && c != [] && NoSpace(c)
    ensures Fields(Strip(a + " " + b + " " + c)) == [a, b, c]
  {
    var line := a + " " + b + " " + c;
    assert line == a + " " + (b + " " + c);
    FieldsOfStrip(line);
    SplitFirstField(a, b + " " + c);
    SplitFirstField(b, c);
    SplitSingleField(c);
  }

  /** A numeral contains no whitespace. */
  lemma DecimalHasNoSpace(s: string)
    requires IsDecimal(s)
    ensures s != [] && NoSpace(s)
  {
    forall k | 0 <= k < |s| ensures !IsSpace(s[k]) {
      assert IsDigit(s[k]);
    }
  }

  /** Trailing whitespace adds no field. */
  lemma {:induction false} FieldsIgnoreTrailingSpace(s: string, c: char)
    requires IsSpace(c)
    ensures Fields(s + [c]) == Fields(s)
    decreases |s|
  {
    var t := s + [c];
    if s == [] {
      assert Fields(t) == Fields(t[1..]);
      assert t[1..] == [];
    } else if IsSpace(s[0]) {
      assert t[1..] == s[1..] + [c];
      FieldsIgnoreTrailingSpace(s[1..], c);
    } else {
      var n := RunLength(s);
      RunLengthTrailingSpace(s, c);
      assert t[..n] == s[..n];
      assert t[n..] == s[n..] + [c];
      FieldsIgnoreTrailingSpace(s[n..], c);
    }
  }

  lemma {:induction false} RunLengthTrailingSpace(s: string, c: char)
    requires IsSpace(c)
    ensures RunLength(s + [c]) == RunLength(s)
  {
    if s != [] && !IsSpace(s[0]) {
      assert (s + [c])[1..] == s[1..] + [c];
      RunLengthTrailingSpace(s[1..], c);
    }
  }

  lemma {:induction false} FieldsOfTrimEnd(s: string)
    ensures Fields(TrimEnd(s)) == Fields(s)
    decreases |s|
  {
    if s != [] && IsSpace(s[|s| - 1]) {
      var p := s[..|s| - 1];
      FieldsOfTrimEnd(p);
      assert s == p + [s[|s| - 1]];
      FieldsIgnoreTrailingSpace(p, s[|s| - 1]);
    }
  }

  lemma {:induction false} FieldsOfTrimStart(s: string)
    ensures Fields(TrimStart(s)) == Fields(s)
    decreases |s|
  {
    if s != [] && IsSpace(s[0]) {
      FieldsOfTrimStart(s[1..]);
    }
  }

  /** `s.strip().split() == s.split()`: the strip before the split changes nothing. */
  lemma FieldsOfStrip(s: string)
    ensures Fields(Strip(s)) == Fields(s)
  {
    FieldsOfTrimEnd(TrimStart(s));
    FieldsOfTrimStart(s);
  }
}
