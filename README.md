# Tracker time-to-pay: the duration conversion and the price formula

The project prices work logged in an issue tracker. A hook takes the
issue's "time spent" and its hourly rate and writes back a price. The core
is `utils/math_time_price.py`, which has two functions:

- `convert_time` turns the tracker's duration text, such as `PT1H30M` or
  `P1DT1H1M`, into a number of minutes.
- `math_price` multiplies the hourly rate by the number of whole hours in
  those minutes.

`convert_time` does not parse the duration. It works on the text:

- it removes `PT`;
- it runs four guarded `str.replace` blocks in order: `W`, `DT`, `H`, `M`.
  Each block also deletes every `T` and every `P`;
- it drops one trailing `" + "`;
- it passes what remains to Python's `eval`.

This model follows that code step by step and proves what the code
actually computes.

Files:

- `wrappers.dfy` (`Wrappers`): `Option`. `None` stands for the exception
  `convert_time` raises.
- `py_str.dfy` (`PyStr`): Python string operations.
  - The code calls three of them: `in` as `Contains`, `endswith` as
    `EndsWith`, and `str.replace` as `Replace`. `Replace` finds
    non-overlapping matches, scanned left to right. An empty pattern
    matches at every position.
  - `StartsWith` is the building block of `Contains` and `Replace`.
  - `Split` and `Join` are not calls the program makes. They are how the
    model's `Eval` cuts its text at `+` and `*` (line 30).
- `py_eval.dfy` (`PyEval`): `eval` restricted to the only kind of text the
  rewriting can produce.
  - That kind of text is a sum (`+`) of products (`*`) of Python 3 decimal
    integer literals, with spaces or tabs between tokens.
  - Every other text fails. That covers a leftover letter, an empty text,
    and a zero-padded literal such as `05`.
  - `Sum` and `Product` describe such expressions. Every one of them,
    written out, evaluates to its value.
- `math_time_price.dfy` (`MathTimePrice`):
  - the constants, the guarded steps, `Rewrite` (the text handed to
    `eval`) and `Minutes` (what `convert_time` returns);
  - `ConvertTime`, a method that rebinds a local string statement by
    statement as the source does, proved equal to `Minutes`;
  - `MathPrice`, and the lemmas about both functions.

The model follows the code where it departs from what an ISO 8601 duration
means:

- An ISO 8601 week is 10080 minutes and a day is 1440. The code splices in
  the texts `40` and `8`, the hours in a working week and a working day.
  They are multiplied by the count and added unscaled to a sum that
  otherwise counts minutes. So `P2W` gives 80 and `P1DT1H1M` gives 69.
- `P1D` is a valid duration of one day, but the code leaves its `D` for
  `eval`, which raises. A bare `P` or `PT` raises as well.
- A duration that has both weeks and days, such as `PT1W1DT1H1M`, also
  raises. The week block deletes every `T`, so the `DT` block can no longer
  match.
- ISO 8601 allows a decimal fraction in the lowest-order component, as in
  `PT1.5H`. The code then hands `1.5 * 60` to `eval` and returns a float.
  The model has no floats and reports a failure instead (`FractionFails`).
- The price counts whole hours only: `math_price` floor-divides the
  minutes by 60 before multiplying by the rate.

## Model

| member | source | states |
|---|---|---|
| PyStr.ContainsIff | utils/math_time_price.py:8 | `key in text` holds exactly when `key` occurs at some position of the text, in both directions |
| PyStr.ContainsChar | utils/math_time_price.py:17 | a one-letter test such as `'H' in time` is membership of that character |
| PyStr.ContainsMiddle | utils/math_time_price.py:12 | every text that has the key inside it passes the guard |
| PyStr.ContainsNeedsChar | utils/math_time_price.py:12 | a text without some character of the key fails the guard, e.g. no `T` means no `DT` |
| PyStr.Contains | utils/math_time_price.py:8 | Python's `key in text`, as a left-to-right scan; `ContainsIff` proves it means an occurrence at some position |
| PyStr.EndsWith | utils/math_time_price.py:27 | Python's `text.endswith(suffix)`; `TrimDigitEnd` and `TrimKeeps` state what it lets the trim do |
| PyStr.Replace | utils/math_time_price.py:6-25 | Python's `str.replace`; its properties are `ReplaceRun`, `ReplaceOnce`, `ReplaceAbsent`, `ReplaceSkip`, `ReplaceNone`, `ReplaceChars`, `ReplaceKeeps` and `ReplaceRemoves` |
| PyStr.ReplaceRun | utils/math_time_price.py:6 | matches do not overlap: in a run of `2n + 1` equal characters a two-character pattern is replaced `n` times and one character is left |
| PyStr.ReplaceSkip | utils/math_time_price.py:6 | a prefix without the pattern's first character is copied unchanged |
| PyStr.ReplaceOnce | utils/math_time_price.py:9 | a single occurrence between texts lacking the pattern's first character is replaced in place: `a + pat + b` becomes `a + rep + b` |
| PyStr.ReplaceAbsent | utils/math_time_price.py:6 | a non-empty pattern that does not occur leaves the text unchanged |
| PyStr.ReplaceNone | utils/math_time_price.py:10 | text without the pattern's first character is unchanged |
| PyStr.ReplaceChars | utils/math_time_price.py:9-11 | every character of the result comes from the input or from the replacement |
| PyStr.ReplaceKeeps | utils/math_time_price.py:10-11 | a character of the input that is not in the pattern survives the replacement |
| PyStr.ReplaceRemoves | utils/math_time_price.py:10 | replacing a character by text without it leaves no occurrence of it |
| PyStr.SplitConcat | utils/math_time_price.py:30 | splitting `a + sep + b` gives the pieces of `a` followed by the pieces of `b` |
| PyStr.SplitNone | utils/math_time_price.py:30 | a text without the separator is a single piece |
| PyStr.SplitCovers | utils/math_time_price.py:30 | every character other than the separator lands in some piece |
| PyStr.SplitPiecesFree | utils/math_time_price.py:30 | no piece contains the separator |
| PyStr.JoinSplit | utils/math_time_price.py:30 | joining the pieces with the separator gives back the text |
| PyEval.Eval | utils/math_time_price.py:30 | Python's `eval` on sums of products of integer literals, `None` where it raises; any result is at least 0; `EvalRenderSum`, `EvalAlphabet`, `EvalRejectsChar` and `EvalDigits` state what it accepts and computes |
| PyEval.EvalFactorLiteral | utils/math_time_price.py:30 | a literal between blanks is one operand, worth the literal's decimal value |
| PyEval.EvalProductTimes | utils/math_time_price.py:30 | `a*b` evaluates to the product of its sides, and fails if either side fails |
| PyEval.EvalPlus | utils/math_time_price.py:30 | `a+b` evaluates to the sum of its sides, and fails if either side fails |
| PyEval.EvalRenderSum | utils/math_time_price.py:30 | every sum of products of literals, written with `" * "` and `" + "`, evaluates to its value |
| PyEval.EvalAlphabet | utils/math_time_price.py:30 | a text `eval` accepts holds only digits, blanks, `*` and `+` |
| PyEval.EvalRejectsChar | utils/math_time_price.py:30 | a text with any other character, such as a leftover letter, raises |
| PyEval.EvalDigits | utils/math_time_price.py:30 | a run of digits evaluates exactly when it is a Python literal, to its value; the empty text and `05` raise |
| MathTimePrice.HoursInOneWeek | utils/math_time_price.py:1 | the text `40`, spliced in after a week count; `WeeksOnly` states its effect |
| MathTimePrice.HoursInOneDay | utils/math_time_price.py:2 | the text `8`, spliced in after a day count; `DaysHoursMinutes` states its effect |
| MathTimePrice.GuardedStep | utils/math_time_price.py:8-25 | one `if key in time:` block: replace the key, then every `T` and every `P`; stated by `StepSkips`, `StepFires`, `StepFiresAfterP`, `StepKeeps`, `StepChars` and `StepRemoves` |
| MathTimePrice.WeekStep | utils/math_time_price.py:8-11 | the `W` block, replacing `W` by `" * 40 + "` |
| MathTimePrice.DayStep | utils/math_time_price.py:12-15 | the `DT` block, replacing `DT` by `" * 8 + "` |
| MathTimePrice.HourStep | utils/math_time_price.py:17-20 | the `H` block, replacing `H` by `" * 60 + "` |
| MathTimePrice.MinuteStep | utils/math_time_price.py:22-25 | the `M` block, deleting `M` |
| MathTimePrice.TrimPlus | utils/math_time_price.py:27-28 | drop one trailing `" + "`; stated by `TrimChars`, `TrimKeeps` and `TrimDigitEnd` |
| MathTimePrice.Rewrite | utils/math_time_price.py:6-28 | the text `convert_time` hands to `eval`; stated by the `Rewrite…` lemmas and `RewriteChars` |
| MathTimePrice.Minutes | utils/math_time_price.py:5-30 | what `convert_time` returns, `None` where it raises; any result is at least 0; its values are stated by `HoursAndMinutes`, `DaysHoursMinutes`, `WeeksOnly` and the failure lemmas |
| MathTimePrice.ConvertTime | utils/math_time_price.py:5-30 | the statement-by-statement rewriting followed by `eval` returns exactly `Minutes(time)` |
| MathTimePrice.StepSkips | utils/math_time_price.py:8-25 | a block whose key cannot occur leaves the text alone |
| MathTimePrice.StepFires | utils/math_time_price.py:17-25 | where the key occurs once and no `T` or `P` is around, a block replaces just that occurrence |
| MathTimePrice.StepFiresAfterP | utils/math_time_price.py:8-15 | the same after a leading `P`, which the block's last `replace` deletes |
| MathTimePrice.StepKeeps | utils/math_time_price.py:8-25 | a character other than `T`, `P` and the key's characters survives a block |
| MathTimePrice.StepChars | utils/math_time_price.py:8-25 | a block adds no character absent from its input and its replacement text |
| MathTimePrice.StepRemoves | utils/math_time_price.py:8-25 | after the `W`, `H` or `M` block no such letter is left |
| MathTimePrice.TrimChars | utils/math_time_price.py:27-28 | the trim adds no character |
| MathTimePrice.TrimKeeps | utils/math_time_price.py:27-28 | the trim drops only the characters of `" + "` |
| MathTimePrice.TrimDigitEnd | utils/math_time_price.py:27-28 | a text ending in a digit is not trimmed |
| MathTimePrice.DayLeftOver | utils/math_time_price.py:12-30 | a `D` with no `T` anywhere reaches `eval`, and the conversion raises |
| MathTimePrice.RewriteHoursMinutes | utils/math_time_price.py:6-28 | `PT<h>H<m>M` is rewritten to `<h> * 60 + <m>` |
| MathTimePrice.RewriteHours | utils/math_time_price.py:6-28 | `PT<h>H` is rewritten to `<h> * 60`: the `" + "` left by the hour block is trimmed once |
| MathTimePrice.RewriteMinutes | utils/math_time_price.py:6-28 | `PT<m>M` is rewritten to `<m>` |
| MathTimePrice.RewriteDaysHoursMinutes | utils/math_time_price.py:6-28 | `P<d>DT<h>H<m>M` is rewritten to `<d> * 8 + <h> * 60 + <m>` |
| MathTimePrice.RewriteWeeks | utils/math_time_price.py:6-28 | `P<w>W` is rewritten to `<w> * 40` |
| MathTimePrice.HoursAndMinutes | utils/math_time_price.py:6-30 | for literals h and m, `PT<h>H<m>M` converts to `h*60 + m` minutes |
| MathTimePrice.HoursOnly | utils/math_time_price.py:17-30 | for a literal h, `PT<h>H` converts to `h*60` |
| MathTimePrice.MinutesOnly | utils/math_time_price.py:22-30 | for a run of digits m, `PT<m>M` converts to m exactly when m is a literal and raises otherwise, e.g. `PT05M` |
| MathTimePrice.DaysHoursMinutes | utils/math_time_price.py:1-30 | `P<d>DT<h>H<m>M` converts to `d*8 + h*60 + m`: a day adds 8, unscaled |
| MathTimePrice.WeeksOnly | utils/math_time_price.py:1-30 | `P<w>W` converts to `w*40`: a week adds 40, unscaled |
| MathTimePrice.WeeksAndDaysFail | utils/math_time_price.py:8-15 | any duration that has both a `W` and a `D` raises |
| MathTimePrice.DaysWithoutTimeFail | utils/math_time_price.py:12-30 | any duration with a `D` and no `T` raises |
| MathTimePrice.DaysOnlyFail | utils/math_time_price.py:12-30 | `P<d>D` raises |
| MathTimePrice.MarkerOnlyFails | utils/math_time_price.py:6-30 | `PT` becomes the empty text and `P` stays a name; both raise |
| MathTimePrice.FractionFails | utils/math_time_price.py:6-30 | a duration with a `.` never converts: the `.` survives every step and the trim, and `eval` fails on it |
| MathTimePrice.RewriteChars | utils/math_time_price.py:6-28 | every character handed to `eval` comes from the input or a replacement text, and no `W`, `H` or `M` is left |
| MathTimePrice.ConvertNonNegative | utils/math_time_price.py:9-30 | on designator letters and digits, the text for `eval` holds only digits, blanks, `*`, `+`, `D`, `P` and `T`. This alphabet is what ties the model's `Eval` to Python's `eval` on such texts: the only characters outside the subset are letters, which make both raise. That any result is at least 0 already follows from `Eval` for every input. |
| MathTimePrice.MathPrice | utils/math_time_price.py:33-34 | `math_price`: the rate times the whole hours spent; stated by `PriceWholeHours`, `PriceUnderAnHour`, `PriceSameHour`, `PriceMonotone` and `PriceAtMostProRata` |
| MathTimePrice.PriceAtMostProRata | utils/math_time_price.py:34 | with a non-negative rate and time, the price is at least 0 and never more than the rate pro rata for the minutes |
| MathTimePrice.PriceWholeHours | utils/math_time_price.py:34 | the price is the rate times the whole hours spent, with the remainder dropped |
| MathTimePrice.PriceUnderAnHour | utils/math_time_price.py:34 | less than an hour costs nothing |
| MathTimePrice.PriceSameHour | utils/math_time_price.py:34 | two times in the same 60-minute bucket cost the same |
| MathTimePrice.PriceMonotone | utils/math_time_price.py:34 | with a non-negative rate, more time never costs less |
| MathTimePrice.ExampleHoursMinutes | utils/math_time_price.py:5-30 | `PT1H30M` converts to 90 |
| MathTimePrice.ExampleDaysHoursMinutes | utils/math_time_price.py:1-30 | `P1DT1H1M` converts to 69 |
| MathTimePrice.ExampleWeeks | utils/math_time_price.py:1-30 | `P2W` converts to 80 |
| MathTimePrice.ExampleWeeksAndDays | utils/math_time_price.py:8-30 | `PT1W1DT1H1M`, the tracker's own sample value, raises |
| MathTimePrice.ExampleDayOnly | utils/math_time_price.py:12-30 | `P1D` raises |
| MathTimePrice.ExampleLeadingZero | utils/math_time_price.py:22-30 | `PT05M` raises |
| MathTimePrice.ExamplePrice | utils/math_time_price.py:34 | `math_price(60, 90)` is 60 |

## Left out

- The `handler` in `index.py` is not part of this model. It reads the
  event's query string and the issue's fields through the tracker client
  and writes the price back, so it is I/O glue.
- MathPrice: the rate is an integer. A float rate, and the truncation
  `int(...)` applies to a float product, are not modelled.
- Eval: only sums of products of decimal integer literals are modelled. Any
  other Python expression fails in the model, including:
  - unary signs, parentheses and newlines;
  - literals with `_` separators.
  Python would accept some of these. The rewriting cannot produce such a
  text from a duration written with digits and designator letters.
- Eval: Python's limit on the number of digits in an integer literal is
  not modelled; literals of any length are accepted.
- ConvertTime: the different exception types raised (`SyntaxError`,
  `NameError`) collapse into a single `None`.
- Minutes: a fractional lowest-order component, such as `PT1.5H` or
  `PT0.5M`, makes the program return a float (here 90.0 and 0.5). The model
  has no floats and reports a failure (`FractionFails`).
- ConvertTime: for durations written with whole numbers the result is a
  Python `int`. Integers here are unbounded, as in Python, so nothing is
  lost.
