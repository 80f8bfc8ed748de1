# The `/add` command of the Russian-roulette bot plugin

This project models the one piece of behaviour in `main.py` that can be stated
precisely: the `/add <a> <b>` command handler `GetSum`. The handler takes the
plain text of the command, strips it, splits it on whitespace runs and checks
that there are exactly two arguments. It then parses both arguments with
Python's `int()` and replies with exactly one message:

- the usage text `用法：/add <a> <b>` when the argument count is not two;
- the error text `参数必须是整数` when either argument is not an integer;
- `结果是：{a+b}。` otherwise, with the exact (unbounded) sum.

The model is purely functional and has four modules.

- `Wrappers` holds the `Option` datatype. `None` stands for the
  `ValueError` that `int()` raises.
- `PyStr` models Python's whitespace handling: `str.isspace()` as the set of
  29 code points it accepts, `strip()`, `split()` with no argument, and
  CPython's one-pass whitespace splitter as a loop.
- `PyInt` models `int(text)` in base 10 for ASCII text: an optional sign,
  then digits with single underscores allowed between them. It also models
  its inverse `str(n)`.
- `AddCommand` holds the reply datatype `Reply = Usage | NotInteger | Sum(n)`.
  It has the decision on the tokens (`Decide`), the decision on the raw text
  (`Add`), the reply texts (`Text`), and the handler as a generator that
  yields into a list and returns early (`GetSum`).

Tokens never contain whitespace, so the whitespace that `int()` itself
would strip around its argument cannot occur, and `PyInt` does not model it.

Integers are Dafny `int`, like Python's `int`, so the sum has no overflow or
wrap-around. The text the host framework passes as `message_str` is a plain
string parameter. The model makes no assumption about whether that text still
contains the command word. `AddCommand.CommandWordCounts` states what follows
if it does.

## Model

| member | source | states |
|---|---|---|
| PyStr.IsSpaceCodePoints | main.py:30 | the whitespace that `strip()` and `split()` remove is exactly the code points Python's `str.isspace()` accepts: U+0009 to U+000D, U+001C to U+0020, U+0085, U+00A0, U+1680, U+2000 to U+200A, U+2028, U+2029, U+202F, U+205F and U+3000 |
| PyStr.Strip | main.py:30 | `strip()` returns a string that neither starts nor ends with whitespace and is no longer than the input |
| PyStr.StripParts | main.py:30 | the input is the stripped text with a whitespace-only run before it and another after it, so `strip()` removes only whitespace, and only at the ends |
| PyStr.Split | main.py:30 | every piece `split()` returns is non-empty and contains no whitespace character |
| PyStr.SplitKeepsContent | main.py:30 | the pieces of `split()`, concatenated in order, are exactly the input's non-whitespace characters: splitting drops whitespace and nothing else |
| PyStr.SplitToken | main.py:30 | a non-empty whitespace-free string splits into itself alone |
| PyStr.SplitSpacePrefix | main.py:30 | leading whitespace of any length never changes the tokens |
| PyStr.SplitSpaceSuffix | main.py:30 | trailing whitespace of any length never changes the tokens |
| PyStr.SplitSeparator | main.py:30 | a non-empty whitespace run splits the text into two parts that tokenise independently: tokens(a + w + b) = tokens(a) + tokens(b) |
| PyStr.SplitCollapse | main.py:30 | any non-empty run of whitespace between two parts gives the same tokens as a single space |
| PyStr.SplitStrip | main.py:30 | `split()` absorbs the `strip()` before it: tokens(strip(s)) = tokens(s) for every s |
| PyStr.SplitJoin | main.py:30 | round trip: joining any list of tokens with single spaces and splitting again returns exactly that list |
| PyStr.SplitWhitespace | main.py:30 | the one-pass scanning loop that skips whitespace and cuts out maximal words returns exactly the tokens of the recursive definition |
| PyInt.ParseInt | main.py:37-38 | a successful parse comes from text ending in a digit; a leading `-` gives a value that is at most 0, and any other first character gives a value that is at least 0. The exact value of every accepted text is stated by `PyInt.CanonicalRoundTrip`, and the accepted texts by `PyInt.IntLiteralFlat` |
| PyInt.DigitPartFlat | main.py:37-38 | the digits `int()` accepts after the sign are exactly the non-empty texts of ASCII digits and underscores that start and end with a digit and never hold two underscores in a row |
| PyInt.IntLiteralFlat | main.py:37-38 | `int(t)` succeeds exactly when t is such a digit text, optionally preceded by one `+` or `-`; everything else is the `ValueError` case |
| PyInt.CanonicalRoundTrip | main.py:37-38 | the value `int(t)` returns prints as t's canonical spelling: the sign `+` dropped, underscores removed, leading zeros removed, and a `-` kept only for a non-zero value. So `+5` reads as 5, `007` and `+0_07` as 7, and `-0` as 0 |
| PyInt.SameValueIff | main.py:37-38 | two literals parse to the same integer if and only if their canonical spellings are equal |
| PyInt.DropUnderscoresValue | main.py:37-38 | removing the underscores of an accepted digit text leaves plain digits with the same value |
| PyInt.LeadingZeroValue | main.py:37-38 | a leading zero never changes the value of a digit string |
| PyInt.TrimZerosValue | main.py:37-38 | removing leading zeros keeps the value and leaves at least one digit, with no leading zero unless the text is `0` |
| PyInt.CanonicalDigits | main.py:43 | a digit string without a leading zero is exactly what `str` prints for its value, so decimal spelling without leading zeros is unique |
| PyInt.ParseIntExamples | main.py:36-41 | `1_000`, `-007` and `+5` parse to 1000, -7 and 5; `1__0`, `_1`, `1_`, the empty text, a bare `-`, `+-1` and `1.5` are refused |
| PyInt.UnderscoreTransparent | main.py:37-38 | a single underscore between two digit groups is accepted and does not change the value |
| PyInt.ToDecimal | main.py:43 | `str(n)` is a `-` exactly when n is negative, followed by at least one ASCII digit, with no leading zero unless the digits are the single `0` |
| PyInt.NatToDigitsValue | main.py:43 | the canonical decimal digits of n are a valid digit part that denotes n |
| PyInt.ParseToDecimal | main.py:43 | round trip: `int(str(n)) == n` for every integer n, negative ones included |
| PyInt.ToDecimalInjective | main.py:43 | distinct integers render as distinct decimal strings |
| AddCommand.Decide | main.py:32-43 | on the tokens, the reply is `Usage` exactly when there are not two; otherwise it is `NotInteger` exactly when either token is not an integer literal; otherwise it is the sum of the two parsed values |
| AddCommand.Add | main.py:30-43 | the reply to the raw text is the token decision applied to split(text): the `strip()` makes no difference |
| AddCommand.Text | main.py:33-43 | the usage and integer-error replies are exactly `用法：/add <a> <b>` and `参数必须是整数`; only the sum reply's text starts with `结果是：`, it ends with `。`, and between the two stands a literal in its canonical spelling (no `+`, no underscores, no leading zeros, no `-0`), as `str(a+b)` prints it, that `int()` reads back as exactly the sum |
| AddCommand.GetSum | main.py:28-43 | every invocation yields exactly one message, and that message is the text of the reply `Add` decides |
| AddCommand.AddDependsOnTokens | main.py:30 | two command texts with the same tokens get the same reply |
| AddCommand.AddIgnoresPadding | main.py:30 | whitespace before and after the arguments never changes the reply |
| AddCommand.AddCollapsesWhitespace | main.py:30 | any run of whitespace between the arguments acts like a single space |
| AddCommand.ArityBeforeParsing | main.py:32-41 | three tokens give the usage reply whatever they contain, even when none is a number: the count is checked before parsing |
| AddCommand.NotIntegerIff | main.py:36-41 | with two tokens, the integer error is sent if and only if at least one of them is not an integer literal |
| AddCommand.SumOfLiterals | main.py:37-43 | two integer literals get the sum reply carrying the sum of their values |
| AddCommand.AddOfIntegers | main.py:36-43 | any text whose tokens are two integer literals gets the sum of their values, whatever whitespace surrounds them |
| AddCommand.DecideIntegers | main.py:37-43 | two integer literals as the tokens decide the sum of their parsed values |
| AddCommand.DecideDecimals | main.py:37-43 | the decimal texts of any two integers, as the tokens, decide exactly their sum |
| AddCommand.SplitPadded | main.py:30 | two tokens with whitespace before, between and after them split into exactly those two tokens |
| AddCommand.ExactSum | main.py:37-43 | for all integers a and b, written in decimal with any whitespace around and between them, the reply is `Sum(a + b)`: every pair is reachable and the sum is exact, with no overflow |
| AddCommand.DecimalIsToken | main.py:43 | the decimal rendering of any integer is a single token |
| AddCommand.AddSymmetric | main.py:43 | swapping the two arguments never changes the reply |
| AddCommand.CommandWordCounts | main.py:30-34 | if the text still starts with a command word, two numbers after it make three tokens and the usage reply follows |
| AddCommand.TextInjective | main.py:33-43 | distinct replies have distinct texts, so the sent text tells which outcome occurred and, for a sum, its value |

## Left out

- The `helloworld` handler (main.py:19-26) only echoes the sender name and message text supplied by the framework and logs the message chain. It has no behaviour of its own.
- The `@register` metadata, `__init__`, `initialize` and `terminate` (main.py:5-16, 47-48) are framework boilerplate.
- `event.message_str` and `event.plain_result` are host-framework calls whose source is not part of this model. The command text is a string parameter, and a sent message is a string appended to the list `GetSum` returns.
- PyInt.ParseInt: accepts ASCII digits only. Python's `int()` also accepts other Unicode decimal digits (full-width `１２`, for example), so for such tokens the model gives the integer error where Python would sum. Modelling the Unicode digit tables is out of scope.
- PyInt.ParseInt: does not model the limit on integer/string conversion length that recent CPython releases apply (3.11 and later, and the 3.7.14, 3.8.14, 3.9.14 and 3.10.7 security releases; 4300 digits by default, configurable). Under that limit, a longer argument raises `ValueError` and gets the integer error.
- AddCommand.GetSum: promises one message for every input. Under the same conversion limit, a sum with more than 4300 digits raises while the reply is formatted (main.py:43, outside the `try`), and no message is sent. The limit depends on the interpreter version and its settings, so it is left out.
- Python strings may hold lone surrogate code points (`"\ud800"`, for example). A Dafny `char` is a Unicode scalar value and cannot, so such command texts are outside the model.
- AddCommand.GetSum: the asynchronous generator protocol (await and yield suspension) is not modelled. Only the sequence of yielded messages is.
