/**
 * Python's whitespace handling for `str`: `isspace`, no-argument `strip()`
 * and no-argument `split()`, on strings as sequences of Unicode scalar values.
 */
module PyStr {

  /** The characters for which Python's `str.isspace()` holds: the code
      points no-argument `strip()` removes and no-argument `split()` splits on. */
  const Whitespace: set<char> := {
    '\t', '\n', '\U{000B}', '\U{000C}', '\r',
    '\U{001C}', '\U{001D}', '\U{001E}', '\U{001F}', ' ',
    '\U{0085}', '\U{00A0}', '\U{1680}',
    '\U{2000}', '\U{2001}', '\U{2002}', '\U{2003}', '\U{2004}', '\U{2005}',
    '\U{2006}', '\U{2007}', '\U{2008}', '\U{2009}', '\U{200A}',
    '\U{2028}', '\U{2029}', '\U{202F}', '\U{205F}', '\U{3000}'
  }

  predicate IsSpace(c: char) {
    c in Whitespace
  }

  /** The character set and the code-point ranges agree. */
  lemma IsSpaceCodePoints(c: char)
    ensures IsSpace(c) <==> IsSpaceCode(c as int)
  {
  }

  /** The same set as code-point ranges, as the code points CPython's
      `Py_UNICODE_ISSPACE` accepts. */
  predicate IsSpaceCode(n: int) {
    || (0x09 <= n <= 0x0D)
    || (0x1C <= n <= 0x20)
    || n == 0x85
    || n == 0xA0
    || n == 0x1680
    || (0x2000 <= n <= 0x200A)
    || n == 0x2028
    || n == 0x2029
    || n == 0x202F
    || n == 0x205F
    || n == 0x3000
  }

  predicate AllSpace(s: string) {
    forall i :: 0 <= i < |s| ==> IsSpace(s[i])
  }

  predicate NoSpace(s: string) {
    forall i :: 0 <= i < |s| ==> !IsSpace(s[i])
  }

  lemma AllSpaceAppend(a: string, b: string)
    requires AllSpace(a) && AllSpace(b)
    ensures AllSpace(a + b)
  {
    forall i | 0 <= i < |a + b| ensures IsSpace((a + b)[i]) {
      if i >= |a| {
        assert (a + b)[i] == b[i - |a|];
      }
    }
  }

  /** A piece `split()` can return: non-empty and free of whitespace. */
  predicate IsToken(s: string) {
    |s| > 0 && NoSpace(s)
  }

  /** `s.lstrip()`: drops the leading whitespace run. */
  function StripLeft(s: string): (r: string)
    ensures |r| <= |s| && r == s[|s| - |r|..]
    ensures AllSpace(s[..|s| - |r|])
    ensures r == [] || !IsSpace(r[0])
  {
    if |s| > 0 && IsSpace(s[0]) then
      var t := s[1..];
      var r := StripLeft(t);
      assert s[..|s| - |r|] == [s[0]] + t[..|t| - |r|];
      AllSpaceAppend([s[0]], t[..|t| - |r|]);
      r
    else
      s
  }

  /** `s.rstrip()`: drops the trailing whitespace run. */
  function StripRight(s: string): (r: string)
    ensures |r| <= |s| && r == s[..|r|]
    ensures AllSpace(s[|r|..])
    ensures r == [] || !IsSpace(r[|r| - 1])
  {
    if |s| > 0 && IsSpace(s[|s| - 1]) then
      var t := s[..|s| - 1];
      var r := StripRight(t);
      assert s[|r|..] == t[|r|..] + [s[|s| - 1]];
      AllSpaceAppend(t[|r|..], [s[|s| - 1]]);
      r
    else
      s
  }

  /** `s.strip()`: the middle of `s` once the whitespace runs at both ends
      are gone; the result neither starts nor ends with whitespace. */
  function Strip(s: string): (r: string)
    ensures |r| <= |s|
    ensures r == [] || (!IsSpace(r[0]) && !IsSpace(r[|r| - 1]))
  {
    StripRight(StripLeft(s))
  }

  /** What `strip()` removed is whitespace: `s` is the result with a
      whitespace run `p` before it and another, `q`, after it. */
  lemma StripParts(s: string) returns (p: string, q: string)
    ensures s == p + (Strip(s) + q)
    ensures AllSpace(p) && AllSpace(q)
  {
    var l := StripLeft(s);
    var r := StripRight(l);
    p := s[..|s| - |l|];
    q := l[|r|..];
    Reassemble(s, l, r);
  }

  /** Cutting a suffix `l` off `s` and a prefix `r` off `l` leaves three
      pieces that concatenate back to `s`. */
  lemma Reassemble<T>(s: seq<T>, l: seq<T>, r: seq<T>)
    requires |l| <= |s| && l == s[|s| - |l|..]
    requires |r| <= |l| && r == l[..|r|]
    ensures s == s[..|s| - |l|] + (r + l[|r|..])
  {
    assert l == r + l[|r|..];
    assert s == s[..|s| - |l|] + l;
  }

  /** Length of the longest whitespace-free prefix of `s`. */
  function WordLen(s: string): (k: nat)
    ensures k <= |s|
    ensures NoSpace(s[..k])
    ensures k == |s| || IsSpace(s[k])
  {
    if |s| == 0 || IsSpace(s[0]) then 0 else 1 + WordLen(s[1..])
  }

  /** `s.split()`: the maximal whitespace-free runs of `s`, in order. */
  function Split(s: string): (r: seq<string>)
    ensures forall i :: 0 <= i < |r| ==> IsToken(r[i])
    decreases |s|
  {
    if |s| == 0 then []
    else if IsSpace(s[0]) then Split(s[1..])
    else
      var k := WordLen(s);
      [s[..k]] + Split(s[k..])
  }

  /** `" ".join(ts)`. */
  function Join(ts: seq<string>): string
  {
    if |ts| == 0 then ""
    else if |ts| == 1 then ts[0]
    else ts[0] + " " + Join(ts[1..])
  }

  /** `s` with every whitespace character removed. */
  function Squeeze(s: string): string
  {
    if |s| == 0 then ""
    else if IsSpace(s[0]) then Squeeze(s[1..])
    else [s[0]] + Squeeze(s[1..])
  }

  /** The pieces concatenated in order. */
  function Concat(ts: seq<string>): string
  {
    if |ts| == 0 then "" else ts[0] + Concat(ts[1..])
  }

  // ---------------------------------------------------------------------------
  // Lemmas about WordLen

  /** WordLen is pinned down by its contract. */
  lemma {:induction false} WordLenExact(s: string, k: nat)
    requires k <= |s| && NoSpace(s[..k]) && (k == |s| || IsSpace(s[k]))
    ensures WordLen(s) == k
    decreases |s|
  {
    if |s| > 0 && !IsSpace(s[0]) {
      assert k != 0;
      assert s[1..][..k - 1] == s[1..k];
      WordLenExact(s[1..], k - 1);
    }
  }

  /** A word that stops inside `a` is unaffected by what follows `a`; a word
      covering all of `a` runs on into `b`. */
  lemma WordLenAppend(a: string, b: string)
    ensures WordLen(a) < |a| ==> WordLen(a + b) == WordLen(a)
    ensures WordLen(a) == |a| ==> WordLen(a + b) == |a| + WordLen(b)
  {
    var k := WordLen(a);
    if k < |a| {
      assert (a + b)[..k] == a[..k];
      WordLenExact(a + b, k);
    } else {
      var m := WordLen(b);
      assert (a + b)[..|a| + m] == a + b[..m];
      WordLenExact(a + b, |a| + m);
    }
  }

  // ---------------------------------------------------------------------------
  // Lemmas about Split

  /** A whitespace-free non-empty string splits into itself. */
  lemma SplitToken(t: string)
    requires IsToken(t)
    ensures Split(t) == [t]
  {
    WordLenExact(t, |t|);
    assert t[..|t|] == t;
    assert t[|t|..] == [];
  }

  /** Leading whitespace never changes the split. */
  lemma {:induction false} SplitSpacePrefix(w: string, s: string)
    requires AllSpace(w)
    ensures Split(w + s) == Split(s)
    decreases |w|
  {
    if |w| > 0 {
      assert (w + s)[0] == w[0];
      assert IsSpace(w[0]);
      assert (w + s)[1..] == w[1..] + s;
      assert AllSpace(w[1..]) by {
        forall j | 0 <= j < |w[1..]| ensures IsSpace(w[1..][j]) {
          assert w[1..][j] == w[j + 1];
        }
      }
      SplitSpacePrefix(w[1..], s);
    } else {
      assert w + s == s;
    }
  }

  /** Trailing whitespace never changes the split. */
  lemma {:induction false} SplitSpaceSuffix(s: string, w: string)
    requires AllSpace(w)
    ensures Split(s + w) == Split(s)
    decreases |s|
  {
    if |s| == 0 {
      assert s + w == w + s;
      SplitSpacePrefix(w, s);
    } else if IsSpace(s[0]) {
      assert (s + w)[1..] == s[1..] + w;
      SplitSpaceSuffix(s[1..], w);
    } else {
      var k := WordLen(s);
      WordLenAppend(s, w);
      if k == |s| && |w| > 0 {
        assert IsSpace(w[0]);
      }
      assert WordLen(s + w) == k;
      assert (s + w)[..k] == s[..k];
      assert (s + w)[k..] == s[k..] + w;
      SplitSpaceSuffix(s[k..], w);
    }
  }

  /** A non-empty whitespace run separates: what lies on each side splits
      independently, whatever the run's length or characters. */
  lemma {:induction false} SplitSeparator(a: string, w: string, b: string)
    requires |w| > 0 && AllSpace(w)
    ensures Split(a + w + b) == Split(a) + Split(b)
    decreases |a|
  {
    if |a| == 0 {
      assert a + w + b == w + b;
      SplitSpacePrefix(w, b);
    } else if IsSpace(a[0]) {
      assert (a + w + b)[0] == a[0];
      assert (a + w + b)[1..] == a[1..] + w + b;
      SplitSeparator(a[1..], w, b);
    } else {
      var k := WordLen(a);
      WordLenAppend(a, w + b);
      assert a + w + b == a + (w + b);
      if k == |a| {
        WordLenAppend(w, b);
        assert WordLen(w) == 0 by { assert IsSpace(w[0]); }
        assert (w + b)[0] == w[0];
        assert WordLen(w + b) == 0;
        assert (a + w + b)[..k] == a;
        assert (a + w + b)[k..] == w + b;
        SplitSpacePrefix(w, b);
        assert a[..k] == a && a[k..] == [];
      } else {
        assert (a + w + b)[..k] == a[..k];
        assert (a + w + b)[k..] == a[k..] + w + b;
        SplitSeparator(a[k..], w, b);
      }
    }
  }

  /** `split()` absorbs the preceding `strip()`. */
  lemma SplitStrip(s: string)
    ensures Split(Strip(s)) == Split(s)
  {
    var r := Strip(s);
    var p, q := StripParts(s);
    SplitSpacePrefix(p, r + q);
    SplitSpaceSuffix(r, q);
  }

  /** Any run of whitespace between two parts acts like one space. */
  lemma {:induction false} SplitCollapse(a: string, w: string, b: string)
    requires |w| > 0 && AllSpace(w)
    ensures Split(a + w + b) == Split(a + " " + b)
  {
    SplitSeparator(a, w, b);
    SplitSeparator(a, " ", b);
  }

  /** Round trip: joining tokens with single spaces and splitting again gives
      the tokens back. */
  lemma {:induction false} SplitJoin(ts: seq<string>)
    requires forall i :: 0 <= i < |ts| ==> IsToken(ts[i])
    ensures Split(Join(ts)) == ts
  {
    if |ts| == 1 {
      SplitToken(ts[0]);
    } else if |ts| > 1 {
      SplitSeparator(ts[0], " ", Join(ts[1..]));
      SplitToken(ts[0]);
      SplitJoin(ts[1..]);
    }
  }

  /** Squeeze distributes over concatenation. */
  lemma {:induction false} SqueezeAppend(a: string, b: string)
    ensures Squeeze(a + b) == Squeeze(a) + Squeeze(b)
    decreases |a|
  {
    if |a| > 0 {
      assert (a + b)[0] == a[0];
      assert (a + b)[1..] == a[1..] + b;
      SqueezeAppend(a[1..], b);
      if IsSpace(a[0]) {
        assert Squeeze(a + b) == Squeeze(a[1..] + b);
      } else {
        assert Squeeze(a + b) == [a[0]] + Squeeze(a[1..] + b);
      }
    } else {
      assert a + b == b;
    }
  }

  lemma {:induction false} SqueezeNoSpace(s: string)
    requires NoSpace(s)
    ensures Squeeze(s) == s
    decreases |s|
  {
    if |s| > 0 {
      SqueezeNoSpace(s[1..]);
    }
  }

  /** Splitting loses nothing but whitespace: the tokens, concatenated, are
      exactly the non-whitespace characters of `s` in order. */
  lemma {:induction false} SplitKeepsContent(s: string)
    ensures Concat(Split(s)) == Squeeze(s)
    decreases |s|
  {
    if |s| > 0 {
      if IsSpace(s[0]) {
        SplitKeepsContent(s[1..]);
      } else {
        var k := WordLen(s);
        var rest := Split(s[k..]);
        assert Split(s) == [s[..k]] + rest;
        assert ([s[..k]] + rest)[1..] == rest;
        SplitKeepsContent(s[k..]);
        assert s == s[..k] + s[k..];
        SqueezeAppend(s[..k], s[k..]);
        SqueezeNoSpace(s[..k]);
      }
    }
  }

  // ---------------------------------------------------------------------------
  // The tokenising loop

  /** Splits `s` the way CPython's whitespace splitter does: a single left to
      right scan that skips whitespace and cuts out each maximal word. */
  method SplitWhitespace(s: string) returns (tokens: seq<string>)
    ensures tokens == Split(s)
  {
    tokens := [];
    var i := 0;
    while i < |s|
      invariant 0 <= i <= |s|
      invariant tokens + Split(s[i..]) == Split(s)
    {
      if IsSpace(s[i]) {
        SplitSkip(s, i);
        i := i + 1;
      } else {
        var j := i + 1;
        while j < |s| && !IsSpace(s[j])
          invariant i < j <= |s|
          invariant forall m :: i <= m < j ==> !IsSpace(s[m])
        {
          j := j + 1;
        }
        SplitWord(s, i, j);
        AppendAssoc(tokens, [s[i..j]], Split(s[j..]));
        tokens := tokens + [s[i..j]];
        i := j;
      }
    }
    assert s[|s|..] == [];
  }

  /** A whitespace character at `i` contributes nothing to the split of the
      rest of `s`. */
  lemma SplitSkip(s: string, i: nat)
    requires i < |s| && IsSpace(s[i])
    ensures Split(s[i..]) == Split(s[i + 1..])
  {
    assert s[i..][1..] == s[i + 1..];
  }

  /** A maximal word `s[i..j]` is the next token of the rest of `s`. */
  lemma SplitWord(s: string, i: nat, j: nat)
    requires i < j <= |s|
    requires forall m :: i <= m < j ==> !IsSpace(s[m])
    requires j == |s| || IsSpace(s[j])
    ensures Split(s[i..]) == [s[i..j]] + Split(s[j..])
  {
    var u := s[i..];
    assert u[..j - i] == s[i..j];
    WordLenExact(u, j - i);
    assert u[j - i..] == s[j..];
  }

  /** Concatenation is associative; the other modules regroup through this
      lemma too. */
  lemma AppendAssoc<T>(a: seq<T>, b: seq<T>, c: seq<T>)
    ensures a + b + c == a + (b + c)
  {
  }
}
