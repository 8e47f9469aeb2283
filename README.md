# Accounting bot ledger, modelled in Dafny

The bot keeps a per-chat cash ledger in one `history` table. A chat message
such as `+100`, `- 50` or `+12.75` is read as a signed decimal amount. The
digits are kept exactly, but a `-` amount passes through Python's unary
minus. That minus rounds to the 28 significant digits of the default decimal
context. It is credited to the author of the message it replies to, or else to its
sender, and becomes one new row. Two commands read the table:

- `/report` lists the ten newest rows of the chat, oldest first and numbered
  from 1, each with a link to the message it answers.
- `/sum` totals the amounts of the chat per user name, largest total first.

The project models the following, one module per file:

- `Options`: the option type.
- `Decimals`: exact decimals, written as an integer mantissa and a count of
  fraction digits. Their value is a real number. Addition and sums are exact.
  Python's unary minus (`ContextNeg`) rounds a coefficient of more than 28
  digits half to even; `Neg` is the exact negation.
- `Digits`: ASCII digit and whitespace classes, the value of a digit string,
  and its canonical rendering. Also Python's `str` of an integer.
- `AmountParser`: Python's `str.strip`, the regular expression
  `^([+-])\s*(\d+(?:\.\d+)?)$` taken apart into its groups, and the amount
  that `Decimal(num)` (negated for `-`) denotes. It also renders an amount
  back to text. `ParseAmount` is what the handler records. `ParseExact`
  negates without rounding; it is the corrected reading under "Findings".
- `Ledger`: the attribution rule, and the `history` table as a class whose
  `Insert` appends one row with the next SERIAL id. The message handler
  strips, parses, attributes and inserts.
- `Reports`: both views.
  - The `report` query (`WHERE chat_id … ORDER BY id DESC LIMIT 10`) is a
    function over the table. The output loop that numbers the reversed rows
    is a method, and the link rule is a string function.
  - The `sum_user` query (`GROUP BY user_name`, `SUM(amount)`,
    `ORDER BY SUM(amount) DESC`) is a function. Grouping keeps first-seen
    order, and an insertion sort orders the groups by total. Its output loop
    is a method.

Inputs outside the program become parameters:

- the Telegram message is a `Message` value;
- the insert time (`created_at`, the store's default) is `now`;
- the table is a `History` object.

`database.py`'s table definition has no `reply_message_id` or `created_at`
column. `main.py` writes and reads both; the model follows `main.py`.

## Model

| member | source | states |
|---|---|---|
| AmountParser.Strip | main.py:31 | the stripped text is a slice of the input; everything cut off on either side is whitespace, and the result neither starts nor ends with whitespace |
| AmountParser.Match | main.py:13 | a successful match takes the text apart into a sign, whitespace, integer digits and optional fraction digits that are written exactly as the text |
| AmountParser.MatchComplete | main.py:13 | every text of the accepted shape matches, and the groups are exactly the parts it was written from |
| AmountParser.ParseAmount | main.py:32-39 | an amount is produced only for a text starting with `+` or `-` and at least one more character, and a negative amount only for `-`, a positive one only for `+` (the accept rule itself is ParseAmountSpec) |
| AmountParser.ParseAmountSpec | main.py:31-34 | a stripped text yields an amount if and only if it is `+` or `-`, optional whitespace, one or more digits, optionally `.` and one or more digits; the amount is then the one those parts denote |
| AmountParser.AmountText.Denotation | main.py:36-39 | the recorded amount is negative only for `-` and positive only for `+`; its value is stated by DenotationValue |
| AmountParser.DenotationValue | main.py:36-39 | for `+`, and for `-` with digits standing for less than 10^28, the recorded amount is the exact one; a longer `-` amount stands for the negated magnitude rounded half to even to a multiple of 10^k, k the digits beyond 28 |
| AmountParser.ParseAgreesWithinPrecision | main.py:36-39 | the recorded and the exact parse agree on every `+` text and on every amount of less than 10^28 in absolute mantissa |
| AmountParser.AmountText.ExactDenotation | main.py:36-39 | the exact amount has one scale step per fraction digit written and is negative only for `-`, positive only for `+` |
| AmountParser.ExactDenotationValue | main.py:36-39 | the exact amount's scale is the number of fraction digits written, and its value is the integer digits plus the fraction digits over 10 to the power of their count, negated for `-` |
| AmountParser.ParseExact | main.py:32-39 | the exact parse accepts exactly the texts the handler accepts, and on a `+` text gives the same amount |
| AmountParser.DenotationSign | main.py:38-39 | the amount is negative exactly when the sign is `-` and some digit is non-zero, and positive exactly when the sign is `+` and some digit is non-zero |
| AmountParser.RenderRoundTrip | main.py:36-39 | rendering a decimal as sign and digits and parsing it back gives the same mantissa and scale, for every amount that is not negative with a mantissa of 10^28 or more |
| AmountParser.ExactRenderRoundTrip | main.py:37 | with exact negation, every decimal rendered and parsed back gives the same mantissa and scale |
| AmountParser.ToTextDenotes | main.py:37 | the rendered form of a decimal denotes that decimal exactly, digit for digit, and its magnitude is the absolute mantissa |
| AmountParser.LongPositiveExact | main.py:37 | `+1.`, k zeros and `1` is recorded exactly as 10^(k+1) + 1 at scale k + 1 |
| AmountParser.LongNegativeRounds | main.py:38-39 | `-1.`, k >= 27 zeros and `1` is recorded as -10^27 at scale 27, that is -1 |
| AmountParser.LongRounding | main.py:39 | unary minus on 10^(k+1) + 1 at scale k + 1, k >= 27, gives -10^27 at scale 27, which does not stand for the opposite number |
| AmountParser.LongNegativeExact | main.py:37-39 | the exact parse of that `-` text is the exact opposite of the `+` amount |
| Decimals.Neg | main.py:38-39 | exact negation keeps the scale and negates the value; unary minus agrees with it within 28 digits (ContextNegExact) |
| Decimals.ContextNeg | main.py:38-39 | Python's unary minus on a decimal gives a negative result exactly for a positive operand and a positive one exactly for a negative operand, so zero stays zero |
| Decimals.ContextNegExact | main.py:38-39 | unary minus on a decimal whose mantissa is below 10^28 in absolute value is the exact negation |
| Decimals.ContextNegValue | main.py:38-39 | beyond 28 digits, unary minus stands for the operand's magnitude rounded half to even to a multiple of 10^k, k the digits beyond 28, with the sign flipped |
| Decimals.RoundHalfEven | main.py:39 | the rounded quotient is within half a unit of n / 10^k, is even on an exact tie, and is never below the truncated quotient |
| Decimals.NumDigitsBounds | main.py:39 | a number of k digits is below 10^k and, for k > 1, at least 10^(k-1) |
| Decimals.SameValueMeansEqualValue | main.py:39 | two decimals have equal cross products of mantissa and power of ten exactly when they stand for the same number |
| Decimals.Add | main.py:103 | the sum of two decimals is exact: its value is the sum of the values and its scale is the larger scale |
| Decimals.Sum | main.py:103 | the sum of a list of decimals equals the real sum of their values, at the largest scale in the list |
| Decimals.RealSumAppend | main.py:103 | the total of two lists joined is the sum of their totals |
| Digits.IntToString | main.py:91 | Python's `str` of an integer: canonical digits of its value, after a `-` for a negative one |
| Digits.NatDigitsValue | main.py:91 | the decimal digits written for a natural number have that number as their value |
| Digits.CanonicalRoundTrip | main.py:91 | a digit string without leading zeros is exactly the rendering of its own value |
| Digits.DigitsValueAppend | main.py:37 | the value of two digit strings joined is the first shifted by the length of the second, plus the second |
| Ledger.Attribute | main.py:41-46 | a reply is credited to the replied-to author and keeps the replied-to message id; any other message is credited to its sender with no reply id, and a reply id is kept exactly when the message is a reply |
| Ledger.History.Insert | main.py:50-60 | one row is appended with the next id and the given fields, no earlier row changes, and the ids stay strictly increasing and below the next id |
| Ledger.HandleMessage | main.py:30-60 | text that does not parse records nothing and leaves the table unchanged; an amount appends exactly one row with the chat id, message id, attribution and parsed amount |
| Reports.ChatRows | main.py:76 | the selected rows are exactly the rows of that chat, in table order |
| Reports.ChatRowsIncreasing | main.py:77 | selecting one chat keeps the ids strictly increasing |
| Reports.ChatRowsAppend | main.py:50-60 | a row appended for one chat goes to the end of that chat's selection and leaves every other chat's selection unchanged |
| Reports.QueryLatest | main.py:73-79 | the report query returns at most 10 rows, all from the table and of that chat; its order and selection are stated by LatestAreNewest |
| Reports.LatestAreNewest | main.py:73-79 | the report query returns min(10, rows of the chat) rows, all of that chat, in strictly decreasing id order, and every chat row it leaves out has a smaller id than every row it returns |
| Reports.ReportShowsLastRows | main.py:89 | reversed for display, the report is exactly the chat's last rows in table order, so ids increase down the listing |
| Reports.LatestAfterAppend | main.py:73-79 | after a row is appended, it heads its chat's report query and every other chat's query is unchanged |
| Reports.Link | main.py:91 | a line's link is `-` or starts with the `https://t.me/c/` prefix; LinkDash and LinkForSupergroup state when and what follows |
| Reports.LinkDash | main.py:91 | the link is `-` exactly when the reply id is missing or zero |
| Reports.LinkForSupergroup | main.py:91 | for a chat id written `-100` followed by an internal id, the link is the `t.me/c/` prefix, that internal id, `/` and the reply id |
| Reports.SliceFrom | main.py:91 | Python's `s[4:]`: empty for a string of at most four characters, otherwise the characters from index four on |
| Reports.Report | main.py:70-92 | no data exactly when the chat has no rows; otherwise one line per fetched row, oldest first, numbered from 1, carrying the row's time, amount, name and link |
| Reports.NumberRows | main.py:89-92 | the output loop gives line k the number k+1 and the k-th row's fields and link |
| Reports.Names | main.py:103-106 | the group names are distinct, and a name is among them exactly when some row carries it |
| Reports.AmountsOfMembers | main.py:103-106 | an amount is among those summed for a name exactly when some row recorded under that name has it |
| Reports.AmountsOfCounts | main.py:103-106 | each amount occurs among those summed for a name exactly as often as there are rows recorded under that name with that amount |
| Reports.GroupTotals | main.py:103-106 | one group per distinct name, each named from the rows and valued at the exact sum of that name's amounts |
| Reports.GroupTotalsConserve | main.py:103-106 | grouping loses nothing: the per-user totals add up to the total of all amounts |
| Reports.InsertByTotal | main.py:107 | inserting a group into a list ordered by total keeps it ordered, adds exactly that group, and adds its total to the grand total |
| Reports.SortByTotal | main.py:107 | the groups come out in non-increasing order of total, as a permutation of the input with the same grand total |
| Reports.SortDistinct | main.py:106-107 | sorting keeps one group per name |
| Reports.SumQuery | main.py:102-107 | the sum query's groups are in non-increasing order of total and are a permutation of the per-name groups of the chat |
| Reports.SumQueryCorrect | main.py:102-119 | the sum query has one group per distinct name recorded in the chat and no other; each total is the exact sum of that name's amounts in the chat; totals are non-increasing; together they add up to the chat's total; it is empty exactly when the chat has no rows |
| Reports.SumQueryNone | main.py:113-115 | the sum query is empty exactly when no row belongs to the chat |
| Reports.SumByUser | main.py:102-119 | no data exactly when the chat has no rows; otherwise line k is numbered k+1 and shows the k-th group's name and total |
| Reports.NumberTotals | main.py:117-119 | the output loop gives line k the number k+1 and the k-th group's name and total |

## Left out

- Telegram transport is not modelled: handlers, command registration, polling and `reply_text` (main.py:18-25, 65, 126-135). A view's result is the list of lines it would print.
- Presentation text is not modelled: the Thai and emoji strings, the `strftime` format of `created_at` (main.py:90), and Python's `str` of a Decimal when an amount is printed. Lines carry the amount as a decimal and the time as an integer.
- The confirmation reply after an insert (main.py:65) is left out as output only.
- The database connection and the table definition in `database.py` are left out. So are the `admins` and `team_members` tables, which the handlers never read.
- AmountParser.Match accepts only ASCII digits and ASCII whitespace (space, 9 to 13, 28 to 31). Python's `\d`, `\s`, `strip` and `Decimal` also accept other Unicode digits and spaces.
- AmountParser.Render writes plain digits with a sign; it is not Python's `str(Decimal)`, which can use exponent notation. It only serves the round-trip property.
- AmountParser.DenotationSign: `-0` and `-0.00` are recorded as mantissa 0 at their own scale, the same as `+0` and `+0.00`. This is what the program stores too, since Python's unary minus on a zero gives a positive zero under the default rounding.
- Decimals.ContextNeg: the context's exponent limits (Emax 999999, Emin -999999) and the traps for them are not modelled. A message text is far too short to reach them.
- Decimals.ContextNeg: a rounded positive exponent is modelled as the NUMERIC value it is stored as (trailing zeros at scale 0). Python's own exponent form is not kept.
- Reports.SortByTotal: SQL leaves the order of equal sums unspecified. The model fixes one order (insertion order among equals), and its properties state only non-increasing totals.
- Ledger.History.Insert hands out consecutive ids. A SERIAL key can skip values on rolled-back inserts; the model keeps only "strictly increasing", which is all the views rely on.
- Ledger.HandleMessage assumes the message has text, and a reply has an author. Non-text updates are filtered out before the handler (main.py:133), and a reply whose author is missing would end the handler with an error.
- A failed database call and concurrent handlers are not modelled.

## Findings

| source | as written | input that shows it | evidently intended | confidence | as-written member | corrected member |
|---|---|---|---|---|---|---|
| main.py:37-39 | `amount = -amount` negates in Python's default decimal context, so a `-` amount is rounded to 28 significant digits, half to even; `Decimal(num)` on the `+` path keeps every digit | `-1.` followed by 27 zeros and `1` is recorded as -1 (mantissa -10^27, scale 27), while `+` with the same digits is recorded as 1 + 10^-28 | `-x` records exactly the opposite of `+x`, every digit kept | not executed | AmountParser.LongNegativeRounds | AmountParser.ExactRenderRoundTrip |

The ledger (`Ledger.HandleMessage`) records `ParseAmount`, as the program
does. The corrected reading is `ParseExact`, built on `ExactDenotation`.
For it, ExactDenotationValue, ExactRenderRoundTrip and LongNegativeExact
are proved. ParseAgreesWithinPrecision shows the two readings agree on
every `+` text and on every amount below 10^28 in absolute mantissa.
