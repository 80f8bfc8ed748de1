/**
 * The `/add <a> <b>` command handler: tokenise the command text, check that
 * there are exactly two arguments, parse both as integers, reply with their sum.
 */
module AddCommand {
  import opened Wrappers
  import opened PyStr
  import opened PyInt

  /** The one reply the handler sends. */
  datatype Reply =
    | Usage          // wrong number of arguments
    | NotInteger     // two arguments, at least one not an integer literal
    | Sum(n: int)    // two integer arguments; their exact sum

  const UsageText: string := "用法：/add <a> <b>"
  const NotIntegerText: string := "参数必须是整数"
  const SumPrefix: string := "结果是："
  const SumSuffix: string := "。"

  /** The handler's decision on its argument tokens: arity first, then
      parsing, then the sum. */
  function Decide(args: seq<string>): (r: Reply)
    ensures r == Usage <==> |args| != 2
    ensures r == NotInteger <==>
              |args| == 2 && !(IsIntLiteral(args[0]) && IsIntLiteral(args[1]))
    ensures r.Sum? ==> r.n == ParseInt(args[0]).value + ParseInt(args[1]).value
  {
    if |args| != 2 then
      Usage
    else
      var a := ParseInt(args[0]);
      var b := ParseInt(args[1]);
      if a.None? || b.None? then NotInteger else Sum(a.value + b.value)
  }

  /** The handler's reply to the command text `message`: the text is
      stripped and split on whitespace, and the tokens decide. */
  function Add(message: string): (r: Reply)
    ensures r == Decide(Split(message))
  {
    SplitStrip(message);
    Decide(Split(Strip(message)))
  }

  /** The text of a reply; a sum is rendered as Python's `str` renders it.
      Only a sum's text starts with the sum prefix; it closes with the sum
      suffix, and the part between them is a literal in its canonical
      spelling that reads back as the sum. */
  function Text(r: Reply): (t: string)
    ensures r == Usage ==> t == UsageText
    ensures r == NotInteger ==> t == NotIntegerText
    ensures r.Sum? <==> |t| > |SumPrefix| + |SumSuffix| && t[..|SumPrefix|] == SumPrefix
    ensures r.Sum? ==> t[|t| - |SumSuffix|..] == SumSuffix
    ensures r.Sum? ==> ParseInt(t[|SumPrefix|..|t| - |SumSuffix|]) == Some(r.n)
    ensures r.Sum? ==> var m := t[|SumPrefix|..|t| - |SumSuffix|];
                       IsIntLiteral(m) && Canonical(m) == m
  {
    match r
    case Usage =>
      assert UsageText[0] != SumPrefix[0];
      UsageText
    case NotInteger =>
      assert NotIntegerText[0] != SumPrefix[0];
      NotIntegerText
    case Sum(n) =>
      var t := SumPrefix + ToDecimal(n) + SumSuffix;
      assert t[..|SumPrefix|] == SumPrefix;
      assert t[|SumPrefix|..|t| - |SumSuffix|] == ToDecimal(n);
      assert t[|t| - |SumSuffix|..] == SumSuffix;
      ParseToDecimal(n);
      CanonicalRoundTrip(ToDecimal(n));
      t
  }

  /** The handler as the generator it is: it yields replies into `replies`
      and returns straight after the usage and the integer error. */
  method GetSum(messageStr: string) returns (replies: seq<string>)
    ensures |replies| == 1
    ensures replies[0] == Text(Add(messageStr))
  {
    replies := [];
    var args := SplitWhitespace(Strip(messageStr));
    ghost var reply := Decide(args);
    assert Add(messageStr) == reply by { SplitStrip(messageStr); }
    if |args| != 2 {
      replies := replies + [UsageText];
      assert reply == Usage;
      return;
    }
    var a := ParseInt(args[0]);
    var b := ParseInt(args[1]);
    if a.None? || b.None? {
      replies := replies + [NotIntegerText];
      assert reply == NotInteger;
      return;
    }
    replies := replies + [SumPrefix + ToDecimal(a.value + b.value) + SumSuffix];
    assert IsIntLiteral(args[0]) && IsIntLiteral(args[1]);
    assert reply.Sum? && reply.n == a.value + b.value;
  }

  // ---------------------------------------------------------------------------
  // Lemmas

  /** The reply depends on the command text only through its tokens. This
      follows from `Add`'s contract; it is named because the padding and
      whitespace lemmas below reduce to it. */
  lemma {:induction false} AddDependsOnTokens(m1: string, m2: string)
    requires Split(m1) == Split(m2)
    ensures Add(m1) == Add(m2)
  {
    SplitStrip(m1);
    SplitStrip(m2);
  }

  /** Whitespace before and after the arguments never changes the reply. */
  lemma {:induction false} AddIgnoresPadding(p: string, m: string, q: string)
    requires AllSpace(p) && AllSpace(q)
    ensures Add(p + m + q) == Add(m)
  {
    SplitSpacePrefix(p, m + q);
    SplitSpaceSuffix(m, q);
    assert p + m + q == p + (m + q);
    AddDependsOnTokens(p + m + q, m);
  }

  /** Any run of whitespace between arguments acts like a single space. */
  lemma {:induction false} AddCollapsesWhitespace(a: string, w: string, b: string)
    requires |w| > 0 && AllSpace(w)
    ensures Add(a + w + b) == Add(a + " " + b)
  {
    SplitCollapse(a, w, b);
    AddDependsOnTokens(a + w + b, a + " " + b);
  }

  /** Two tokens separated by a space split into exactly those tokens. */
  lemma SplitPair(x: string, y: string)
    requires IsToken(x) && IsToken(y)
    ensures Split(x + " " + y) == [x, y]
  {
    SplitJoin([x, y]);
    assert Join([x, y]) == x + " " + y;
  }

  /** The arity check comes first: three tokens give the usage reply, even
      when none of them is a number. */
  lemma ArityBeforeParsing(x: string, y: string, z: string)
    requires IsToken(x) && IsToken(y) && IsToken(z)
    ensures Add(x + " " + y + " " + z) == Usage
  {
    SplitJoin([x, y, z]);
    assert [x, y, z][1..] == [y, z] && [y, z][1..] == [z];
    assert Join([z]) == z;
    assert Join([y, z]) == y + " " + z;
    assert Join([x, y, z]) == x + " " + (y + " " + z);
    assert x + " " + (y + " " + z) == x + " " + y + " " + z;
  }

  /** With two tokens, the integer error is sent exactly when one of them is
      not an integer literal. */
  lemma NotIntegerIff(x: string, y: string)
    requires IsToken(x) && IsToken(y)
    ensures Add(x + " " + y) == NotInteger <==> !IsIntLiteral(x) || !IsIntLiteral(y)
  {
    SplitPair(x, y);
  }

  /** With two integer literals, the reply is their exact sum. */
  lemma SumOfLiterals(x: string, y: string)
    requires IsToken(x) && IsToken(y) && IsIntLiteral(x) && IsIntLiteral(y)
    ensures Add(x + " " + y) == Sum(ParseInt(x).value + ParseInt(y).value)
  {
    SplitPair(x, y);
  }

  /** Every pair of integers, written as Python writes them and surrounded
      by any whitespace, yields their sum with no overflow. */
  lemma ExactSum(a: int, b: int, p: string, w: string, q: string)
    requires AllSpace(p) && AllSpace(q) && |w| > 0 && AllSpace(w)
    ensures Add(p + ToDecimal(a) + w + ToDecimal(b) + q) == Sum(a + b)
  {
    var x, y := ToDecimal(a), ToDecimal(b);
    var m := p + x + w + y + q;
    assert Split(m) == [x, y] by {
      DecimalIsToken(a);
      DecimalIsToken(b);
      SplitPadded(p, x, w, y, q);
    }
    assert Add(m) == Decide([x, y]);
    DecideDecimals(a, b);
  }

  /** The decimal renderings of two integers, as tokens, decide their sum. */
  lemma DecideDecimals(a: int, b: int)
    ensures Decide([ToDecimal(a), ToDecimal(b)]) == Sum(a + b)
  {
    ParseToDecimal(a);
    ParseToDecimal(b);
    DecideIntegers(ToDecimal(a), ToDecimal(b));
  }

  /** A text whose tokens are two integer literals gets the sum reply. */
  lemma AddOfIntegers(m: string, x: string, y: string)
    requires Split(m) == [x, y] && IsIntLiteral(x) && IsIntLiteral(y)
    ensures Add(m) == Sum(ParseInt(x).value + ParseInt(y).value)
  {
    assert Add(m) == Decide([x, y]);
    DecideIntegers(x, y);
  }

  /** Two integer literals as tokens decide the sum of their values. This is
      `Decide`'s contract on a two-element list; proving it apart keeps the
      callers' proofs small. */
  lemma DecideIntegers(x: string, y: string)
    requires IsIntLiteral(x) && IsIntLiteral(y)
    ensures Decide([x, y]) == Sum(ParseInt(x).value + ParseInt(y).value)
  {
    assert [x, y][0] == x && [x, y][1] == y;
  }

  /** Two tokens with whitespace around and between them split into exactly
      those two tokens. */
  lemma {:induction false} SplitPadded(p: string, x: string, w: string, y: string, q: string)
    requires AllSpace(p) && AllSpace(q) && |w| > 0 && AllSpace(w)
    requires IsToken(x) && IsToken(y)
    ensures Split(p + x + w + y + q) == [x, y]
  {
    var yq := y + q;
    var rest := x + w + yq;
    assert p + x + w + y + q == p + rest by {
      AppendAssoc(p + x + w, y, q);
      AppendAssoc(p + x, w, yq);
      AppendAssoc(p, x, w + yq);
      AppendAssoc(x, w, yq);
    }
    assert Split(p + rest) == Split(rest) by { SplitSpacePrefix(p, rest); }
    assert Split(rest) == Split(x) + Split(yq) by { SplitSeparator(x, w, yq); }
    assert Split(yq) == Split(y) by { SplitSpaceSuffix(y, q); }
    assert Split(x) == [x] by { SplitToken(x); }
    assert Split(y) == [y] by { SplitToken(y); }
  }

  /** `str(n)` is one token. */
  lemma DecimalIsToken(n: int)
    ensures IsToken(ToDecimal(n))
  {
    var d := NatToDigits(if n < 0 then -n else n);
    var s := ToDecimal(n);
    forall i | 0 <= i < |s| ensures !IsSpace(s[i]) {
      if n < 0 && i > 0 {
        assert s[i] == d[i - 1];
      }
    }
  }

  /** Swapping the two arguments never changes the reply. */
  lemma AddSymmetric(x: string, y: string)
    requires IsToken(x) && IsToken(y)
    ensures Add(x + " " + y) == Add(y + " " + x)
  {
    SplitPair(x, y);
    SplitPair(y, x);
  }

  /** If the text the host passes still holds the command word, the two
      numbers make three tokens and the usage reply follows. */
  lemma CommandWordCounts(word: string, a: int, b: int)
    requires IsToken(word)
    ensures Add(word + " " + ToDecimal(a) + " " + ToDecimal(b)) == Usage
  {
    DecimalIsToken(a);
    DecimalIsToken(b);
    ArityBeforeParsing(word, ToDecimal(a), ToDecimal(b));
  }

  /** Distinct replies have distinct texts, so the text tells which outcome
      occurred and, for a sum, its value. */
  lemma TextInjective(r1: Reply, r2: Reply)
    requires Text(r1) == Text(r2)
    ensures r1 == r2
  {
    var t := Text(r1);
    assert UsageText[0] == '用' && NotIntegerText[0] == '参' && SumPrefix[0] == '结';
    assert t[0] == Text(r2)[0];
    if r1.Sum? && r2.Sum? {
      var d1, d2 := ToDecimal(r1.n), ToDecimal(r2.n);
      assert d1 == t[|SumPrefix|..|t| - |SumSuffix|];
      assert d2 == t[|SumPrefix|..|t| - |SumSuffix|];
      ToDecimalInjective(r1.n, r2.n);
    }
  }
}
