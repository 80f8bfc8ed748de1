/**
 * Python's `int(text)` in base 10, restricted to ASCII digits, and its
 * inverse `str(n)`.
 */
module PyInt {
  import opened Wrappers
  import PyStr

  predicate IsDigit(c: char) {
    '0' <= c <= '9'
  }

  function DigitValue(c: char): (d: nat)
    requires IsDigit(c)
    ensures d < 10
  {
    c as int - '0' as int
  }

  function DigitChar(d: nat): (c: char)
    requires d < 10
    ensures IsDigit(c) && DigitValue(c) == d
  {
    ('0' as int + d) as char
  }

  /** The digit part `int()` accepts: `digit (["_"] digit)*`, read from the
      right, so a single underscore may stand between two digits only. */
  predicate IsDigitPart(s: string)
    decreases |s|
  {
    if |s| == 0 then false
    else if |s| == 1 then IsDigit(s[0])
    else if s[|s| - 2] == '_' then
      IsDigit(s[|s| - 1]) && IsDigitPart(s[..|s| - 2])
    else
      IsDigit(s[|s| - 1]) && IsDigitPart(s[..|s| - 1])
  }

  /** The number a digit part denotes; underscores carry no value. */
  function DigitPartValue(s: string): nat
    requires IsDigitPart(s)
    decreases |s|
  {
    if |s| == 1 then DigitValue(s[0])
    else if s[|s| - 2] == '_' then
      10 * DigitPartValue(s[..|s| - 2]) + DigitValue(s[|s| - 1])
    else
      10 * DigitPartValue(s[..|s| - 1]) + DigitValue(s[|s| - 1])
  }

  /** `int(t)`: an optional `+` or `-`, then a digit part; anything else is
      the `ValueError` case, here `None`. */
  function ParseInt(t: string): (r: Option<int>)
    ensures r.Some? && |t| > 0 && t[0] == '-' ==> r.value <= 0
    ensures r.Some? && |t| > 0 && t[0] != '-' ==> r.value >= 0
    ensures r.Some? ==> |t| > 0 && IsDigit(t[|t| - 1])
  {
    if |t| > 0 && (t[0] == '-' || t[0] == '+') then
      var u := t[1..];
      if IsDigitPart(u) then
        var v: int := DigitPartValue(u);
        Some(if t[0] == '-' then -v else v)
      else
        None
    else if IsDigitPart(t) then
      Some(DigitPartValue(t))
    else
      None
  }

  /** Whether `int(t)` succeeds. */
  predicate IsIntLiteral(t: string) {
    ParseInt(t).Some?
  }

  /** Decimal digits of `n`, most significant first, no leading zero. */
  function NatToDigits(n: nat): (s: string)
    ensures |s| > 0
    ensures forall i :: 0 <= i < |s| ==> IsDigit(s[i])
    ensures |s| > 1 ==> s[0] != '0'
    decreases n
  {
    if n < 10 then [DigitChar(n)] else NatToDigits(n / 10) + [DigitChar(n % 10)]
  }

  /** `str(n)` for a Python `int`: a `-` exactly when `n` is negative, then
      decimal digits with no leading zero. */
  function ToDecimal(n: int): (s: string)
    ensures var k := if n < 0 then 1 else 0;
            && |s| > k
            && (n < 0 <==> s[0] == '-')
            && (forall i :: k <= i < |s| ==> IsDigit(s[i]))
            && (|s| > k + 1 ==> s[k] != '0')
  {
    if n < 0 then "-" + NatToDigits(-n) else NatToDigits(n)
  }

  // ---------------------------------------------------------------------------
  // Lemmas

  /** Canonical digits are a digit part denoting `n`. */
  lemma {:induction false} NatToDigitsValue(n: nat)
    ensures IsDigitPart(NatToDigits(n))
    ensures DigitPartValue(NatToDigits(n)) == n
    decreases n
  {
    if n >= 10 {
      var s := NatToDigits(n);
      NatToDigitsValue(n / 10);
      assert s[..|s| - 1] == NatToDigits(n / 10);
      assert s[|s| - 2] != '_' by { assert IsDigit(s[|s| - 2]); }
    }
  }

  /** Round trip: `int(str(n)) == n` for every integer `n`. */
  lemma ParseToDecimal(n: int)
    ensures ParseInt(ToDecimal(n)) == Some(n)
  {
    var d := NatToDigits(if n < 0 then -n else n);
    NatToDigitsValue(if n < 0 then -n else n);
    ParseDigitPart(d);
  }

  /** Unfolds `ParseInt` on an unsigned digit part and on the same part with
      a `-` in front. */
  lemma ParseDigitPart(u: string)
    requires IsDigitPart(u)
    ensures ParseInt(u) == Some(DigitPartValue(u) as int)
    ensures ParseInt("-" + u) == Some(-(DigitPartValue(u) as int))
  {
    DigitPartEnds(u);
    assert ("-" + u)[1..] == u;
  }

  /** Edge cases of `int()` in base 10: underscores only singly between
      digits, leading zeros and an explicit `+` allowed, a bare sign or a
      decimal point refused. */
  lemma ParseIntExamples()
    ensures ParseInt("1_000") == Some(1000)
    ensures ParseInt("-007") == Some(-7)
    ensures ParseInt("+5") == Some(5)
    ensures ParseInt("1__0") == None && ParseInt("_1") == None && ParseInt("1_") == None
    ensures ParseInt("") == None && ParseInt("-") == None && ParseInt("+-1") == None
    ensures ParseInt("1.5") == None
  {
    assert "1_000"[..4] == "1_00" && "1_00"[..3] == "1_0" && "1_0"[..1] == "1";
    assert DigitPartValue("1_0") == 10;
    assert DigitPartValue("1_00") == 100;
    assert "-007"[1..] == "007" && "007"[..2] == "00" && "00"[..1] == "0";
    assert "+5"[1..] == "5";
    assert "1__0"[..2] == "1_";
    assert "1.5"[..2] == "1.";
    assert "+-1"[1..] == "-1";
  }

  /** `str` is injective: distinct integers render differently. */
  lemma ToDecimalInjective(m: int, n: int)
    requires ToDecimal(m) == ToDecimal(n)
    ensures m == n
  {
    ParseToDecimal(m);
    ParseToDecimal(n);
  }

  /** A single underscore between two digit parts is transparent: the joined
      text is accepted and denotes the same number as the digits alone. */
  lemma {:induction false} UnderscoreTransparent(a: string, b: string)
    requires IsDigitPart(a) && IsDigitPart(b)
    ensures IsDigitPart(a + "_" + b) && IsDigitPart(a + b)
    ensures DigitPartValue(a + "_" + b) == DigitPartValue(a + b)
    decreases |b|
  {
    var c := b[|b| - 1];
    if |b| == 1 {
      assert a + "_" + b == a + ['_', c];
      assert a + b == a + [c];
      AppendDigit(a, c, false);
      AppendDigit(a, c, true);
    } else {
      var under := b[|b| - 2] == '_';
      var b' := if under then b[..|b| - 2] else b[..|b| - 1];
      var e := if under then ['_', c] else [c];
      assert b == b' + e;
      UnderscoreTransparent(a, b');
      PyStr.AppendAssoc(a + "_", b', e);
      PyStr.AppendAssoc(a + "", b', e);
      assert a + "" == a;
      AppendDigit(a + "_" + b', c, under);
      AppendDigit(a + b', c, under);
    }
  }

  /** Extending a digit part by one digit, optionally after an underscore,
      gives a digit part worth ten times as much plus that digit. */
  lemma AppendDigit(s: string, c: char, under: bool)
    requires IsDigitPart(s) && IsDigit(c)
    ensures var t := s + (if under then ['_', c] else [c]);
            IsDigitPart(t) && DigitPartValue(t) == 10 * DigitPartValue(s) + DigitValue(c)
  {
    var t := s + (if under then ['_', c] else [c]);
    if under {
      assert t[..|t| - 2] == s;
    } else {
      assert t[..|t| - 1] == s;
      DigitPartEnds(s);
      assert t[|t| - 2] == s[|s| - 1];
    }
  }

  /** A digit part starts and ends with a digit. */
  lemma {:induction false} DigitPartEnds(s: string)
    requires IsDigitPart(s)
    ensures IsDigit(s[0]) && IsDigit(s[|s| - 1])
    decreases |s|
  {
    if |s| > 1 {
      var k := if s[|s| - 2] == '_' then |s| - 2 else |s| - 1;
      DigitPartEnds(s[..k]);
    }
  }

  // ---------------------------------------------------------------------------
  // The digit part read left to right

  /** The digit part as a flat pattern: digits and underscores only, a digit
      at each end, and never two underscores in a row. */
  predicate IsDigitPartFlat(s: string) {
    && |s| > 0
    && IsDigit(s[0])
    && IsDigit(s[|s| - 1])
    && (forall i :: 0 <= i < |s| ==> IsDigit(s[i]) || s[i] == '_')
    && (forall i :: 0 <= i < |s| - 1 && s[i] == '_' ==> s[i + 1] != '_')
  }

  /** The right-to-left grammar and the flat pattern accept the same texts. */
  lemma {:induction false} DigitPartFlat(s: string)
    ensures IsDigitPart(s) <==> IsDigitPartFlat(s)
    decreases |s|
  {
    if |s| >= 2 {
      var c := s[|s| - 1];
      if s[|s| - 2] == '_' {
        var p := s[..|s| - 2];
        DigitPartFlat(p);
        assert s == p + ['_', c];
        if |s| == 2 {
          assert !IsDigit(s[0]);
        } else {
          FlatExtend(p, ['_', c]);
        }
      } else {
        var p := s[..|s| - 1];
        DigitPartFlat(p);
        assert s == p + [c];
        FlatExtend(p, [c]);
      }
    }
  }

  /** Extending a non-empty text by a digit, or by an underscore and a digit,
      keeps the flat pattern exactly when the text had it. */
  lemma FlatExtend(p: string, e: string)
    requires |p| > 0
    requires |e| == 1 || (|e| == 2 && e[0] == '_')
    requires |e| == 2 || p[|p| - 1] != '_'
    ensures IsDigitPartFlat(p + e) <==> IsDigitPartFlat(p) && IsDigit(e[|e| - 1])
  {
    var s := p + e;
    if IsDigitPartFlat(s) {
      assert s[0] == p[0];
      forall i | 0 <= i < |p| ensures IsDigit(p[i]) || p[i] == '_' {
        assert p[i] == s[i];
      }
      forall i | 0 <= i < |p| - 1 && p[i] == '_' ensures p[i + 1] != '_' {
        assert p[i] == s[i] && p[i + 1] == s[i + 1];
      }
      assert p[|p| - 1] == s[|p| - 1];
      if |e| == 2 {
        assert s[|p|] == '_';
      }
    }
    if IsDigitPartFlat(p) && IsDigit(e[|e| - 1]) {
      forall i | 0 <= i < |s| ensures IsDigit(s[i]) || s[i] == '_' {
        if i < |p| { assert s[i] == p[i]; }
      }
      forall i | 0 <= i < |s| - 1 && s[i] == '_' ensures s[i + 1] != '_' {
        if i + 1 < |p| {
          assert s[i] == p[i] && s[i + 1] == p[i + 1];
        }
      }
    }
  }

  /** `int(t)` succeeds exactly on an optional sign followed by the flat
      digit pattern. */
  lemma IntLiteralFlat(t: string)
    ensures IsIntLiteral(t) <==>
              || IsDigitPartFlat(t)
              || (|t| > 0 && (t[0] == '+' || t[0] == '-') && IsDigitPartFlat(t[1..]))
  {
    DigitPartFlat(t);
    if |t| > 0 {
      DigitPartFlat(t[1..]);
    }
  }

  // ---------------------------------------------------------------------------
  // From text to value and back

  predicate AllDigits(d: string) {
    forall i :: 0 <= i < |d| ==> IsDigit(d[i])
  }

  /** The number a string of plain decimal digits denotes. */
  function DigitsValue(d: string): nat
    requires AllDigits(d)
    decreases |d|
  {
    if |d| == 0 then 0 else 10 * DigitsValue(d[..|d| - 1]) + DigitValue(d[|d| - 1])
  }

  /** `s` with its underscores removed. */
  function DropUnderscores(s: string): string
    decreases |s|
  {
    if |s| == 0 then ""
    else DropUnderscores(s[..|s| - 1]) + (if s[|s| - 1] == '_' then "" else [s[|s| - 1]])
  }

  /** Plain digits with their leading zeros removed, keeping one digit. */
  function TrimZeros(d: string): string
    decreases |d|
  {
    if |d| > 1 && d[0] == '0' then TrimZeros(d[1..]) else d
  }

  /** The spelling `str(int(t))` gives an integer literal `t`: no `+`, no
      underscores, no leading zeros, and no `-` in front of zero. */
  function Canonical(t: string): string
    requires IsIntLiteral(t)
  {
    var u := if t[0] == '-' || t[0] == '+' then t[1..] else t;
    var d := TrimZeros(DropUnderscores(u));
    if t[0] == '-' && d != "0" then "-" + d else d
  }

  /** Text to value to text: the value `int()` reads from any literal prints
      as that literal's canonical spelling. Together with `ParseToDecimal`
      this pins down the value of every literal `int()` accepts. */
  lemma CanonicalRoundTrip(t: string)
    requires IsIntLiteral(t)
    ensures ToDecimal(ParseInt(t).value) == Canonical(t)
  {
    var u := if t[0] == '-' || t[0] == '+' then t[1..] else t;
    assert IsDigitPart(u);
    var v: int := DigitPartValue(u);
    assert ParseInt(t).value == if t[0] == '-' then -v else v;
    var d0 := DropUnderscores(u);
    DropUnderscoresValue(u);
    var d := TrimZeros(d0);
    TrimZerosValue(d0);
    CanonicalDigits(d);
    assert NatToDigits(v) == d;
    assert d == "0" <==> v == 0;
  }

  /** Removing the underscores from a digit part leaves plain digits with the
      same value. */
  lemma {:induction false} DropUnderscoresValue(s: string)
    requires IsDigitPart(s)
    ensures |DropUnderscores(s)| > 0 && AllDigits(DropUnderscores(s))
    ensures DigitsValue(DropUnderscores(s)) == DigitPartValue(s)
    decreases |s|
  {
    if |s| == 1 {
      assert s[..0] == "";
      assert DropUnderscores(s) == [s[0]];
      assert [s[0]][..0] == "";
    } else {
      var p, c := DigitPartStep(s);
      DropUnderscoresValue(p);
      DigitsSnoc(DropUnderscores(p), c);
    }
  }

  /** A digit part longer than one character is a shorter digit part `p`
      followed by a digit `c`, with or without an underscore between. */
  lemma DigitPartStep(s: string) returns (p: string, c: char)
    requires IsDigitPart(s) && |s| > 1
    ensures IsDigitPart(p) && IsDigit(c) && |p| < |s|
    ensures DigitPartValue(s) == 10 * DigitPartValue(p) + DigitValue(c)
    ensures DropUnderscores(s) == DropUnderscores(p) + [c]
  {
    c := s[|s| - 1];
    var q := s[..|s| - 1];
    p := if s[|s| - 2] == '_' then s[..|s| - 2] else q;
    assert DropUnderscores(s) == DropUnderscores(q) + [c];
    if s[|s| - 2] == '_' {
      assert q[..|q| - 1] == p && q[|q| - 1] == '_';
    }
  }

  /** Appending a digit to plain digits multiplies the value by ten and adds
      the digit. */
  lemma DigitsSnoc(d: string, c: char)
    requires AllDigits(d) && IsDigit(c)
    ensures AllDigits(d + [c])
    ensures DigitsValue(d + [c]) == 10 * DigitsValue(d) + DigitValue(c)
  {
    assert (d + [c])[..|d|] == d;
  }

  /** A leading zero adds nothing to the value of plain digits. */
  lemma {:induction false} LeadingZeroValue(d: string)
    requires AllDigits(d)
    ensures AllDigits("0" + d) && DigitsValue("0" + d) == DigitsValue(d)
    decreases |d|
  {
    var z := "0" + d;
    if |d| == 0 {
      assert z[..0] == "";
    } else {
      var p := d[..|d| - 1];
      LeadingZeroValue(p);
      assert z[..|z| - 1] == "0" + p;
    }
  }

  /** Trimming leading zeros keeps the value and leaves a canonical digit
      string: non-empty, and without a leading zero unless it is `0`. */
  lemma {:induction false} TrimZerosValue(d: string)
    requires |d| > 0 && AllDigits(d)
    ensures var r := TrimZeros(d);
            |r| > 0 && AllDigits(r) && (|r| == 1 || r[0] != '0')
            && DigitsValue(r) == DigitsValue(d)
    decreases |d|
  {
    if |d| > 1 && d[0] == '0' {
      TrimZerosValue(d[1..]);
      LeadingZeroValue(d[1..]);
      assert "0" + d[1..] == d;
    }
  }

  /** Plain digits with a non-zero first digit denote a positive number. */
  lemma {:induction false} LeadingDigitPositive(d: string)
    requires |d| > 0 && AllDigits(d) && d[0] != '0'
    ensures DigitsValue(d) >= 1
    decreases |d|
  {
    if |d| > 1 {
      LeadingDigitPositive(d[..|d| - 1]);
    }
  }

  /** A canonical digit string is exactly what `str` prints for its value:
      decimal representation without leading zeros is unique. */
  lemma {:induction false} CanonicalDigits(d: string)
    requires |d| > 0 && AllDigits(d) && (|d| == 1 || d[0] != '0')
    ensures NatToDigits(DigitsValue(d)) == d
    decreases |d|
  {
    var c := d[|d| - 1];
    if |d| == 1 {
      assert d[..0] == "";
      assert DigitChar(DigitValue(c)) == c;
    } else {
      var p := d[..|d| - 1];
      CanonicalDigits(p);
      LeadingDigitPositive(p);
      var n := DigitsValue(d);
      assert n / 10 == DigitsValue(p) && n % 10 == DigitValue(c);
      assert DigitChar(DigitValue(c)) == c;
      assert d == p + [c];
    }
  }

  /** Two literals denote the same integer exactly when they have the same
      canonical spelling. */
  lemma SameValueIff(t1: string, t2: string)
    requires IsIntLiteral(t1) && IsIntLiteral(t2)
    ensures ParseInt(t1) == ParseInt(t2) <==> Canonical(t1) == Canonical(t2)
  {
    CanonicalRoundTrip(t1);
    CanonicalRoundTrip(t2);
    if Canonical(t1) == Canonical(t2) {
      ToDecimalInjective(ParseInt(t1).value, ParseInt(t2).value);
    }
  }
}
