# Partial take-profit calculator, modelled in Dafny

`partial-tp-calculator.py` is a Streamlit page. It reads a trading signal pasted as
free text and simulates selling the position in parts at each take-profit target. This
project models the two pieces of the page that hold logic.

1. **The signal parser, `parse_trading_signal`.** It runs six independent pattern
   searches over the text and fills a record with:
   - the symbol;
   - the entry price;
   - the volume rank;
   - the risk level;
   - the list of target rows and the list of stop-loss rows.

   A field that is not found stays absent. A captured number that `float()` refuses
   makes the whole parse fail.

2. **The scenario calculator.** It runs on an accepted signal, meaning one with a
   non-zero entry and at least one target. It computes:
   - the position size, from the modal (capital, in IDR) and the leverage;
   - how the position is split across the targets, under one of four policies:
     equal shares, a front-loaded table, a back-loaded table, or custom inputs where the
     last target absorbs the remainder;
   - one row per target with its sale value, profit and running profit;
   - one row per stop loss with its loss;
   - the summary figures: total profit, ROI, the TP1 + TP2 partial exit, and the
     risk/reward ratio against the first stop loss.

The modules follow that structure:

| Module | File | Contents |
|---|---|---|
| `Text` | text.dfy | character classes, greedy runs, `str.strip()`, and the decimal literals that `int()`/`float()` convert |
| `Patterns` | patterns.dfy | one matcher per regular expression, tried at a single position, plus the leftmost search (`re.search`) and the left-to-right non-overlapping list (`re.findall`) built on any matcher |
| `SignalParser` | parser.dfy | the parser, both as a function (`ParseSpec`) and as the method that fills the record field by field with its row-conversion loop; also the acceptance predicate |
| `Allocation` | allocation.dfy | the four distribution policies, including the custom-input loop |
| `Scenario` | scenario.dfy | position size, the results loop, the stop-loss loop, the aggregates, and the whole calculation |
| `Wrappers` | wrappers.dfy | `Option` and `Result` |

Failures are values, not exceptions:
- a `float()` error in the parser is `None`;
- a custom input whose allowed range is empty is `Err(BudgetExhausted)`;
- indexing past the end of a distribution table is `Err(ShareIndexOutOfRange)`;
- a division by a zero first stop loss is `Err(FirstStopLossAtEntry)`.

Prices are `real`.

## Model

| member | source | states |
|---|---|---|
| Text.Skip | partial-tp-calculator.py:65-95 | a greedy quantifier consumes the longest run of its class: every character up to the stop is in the class, and the one at the stop is not |
| Text.SkipExact | partial-tp-calculator.py:65-95 | a run that ends at the end of the text, or before a character outside the class, is exactly what the greedy quantifier consumes |
| Text.Strip | partial-tp-calculator.py:82 | `strip()` returns a contiguous slice with only white space cut on either side; the result neither starts nor ends with white space, and it is empty exactly when the input is all white space |
| Text.DecimalValue | partial-tp-calculator.py:72 | a float literal's value is never negative and is zero exactly when all its digits are zero |
| Text.DigitsValueAppend | partial-tp-calculator.py:89 | positional reading: the digits of `a + b` are worth `a`'s value times 10^\|b\| plus `b`'s value |
| Text.DecimalValueParts | partial-tp-calculator.py:72 | a literal's value is its digits before the dot plus its n digits after the dot read as an integer over 10^n; both parts are digits only |
| Text.DecimalValueExample | partial-tp-calculator.py:72 | the literal `0.0241` is accepted and read as exactly 0.0241 |
| Text.SignedValue | partial-tp-calculator.py:91 | a `+` literal gives a non-negative value and a `-` literal a non-positive one; the magnitude is the unsigned literal's value |
| Patterns.SymbolAt | partial-tp-calculator.py:65 | `CALL:\s*(\w+)` matches at p exactly when the label is there and a word run follows the white space; the symbol captured is that whole word run, the longest one after the longest white space run |
| Patterns.EntryAt | partial-tp-calculator.py:70 | `Entry:\s*([\d.]+)` matches at p exactly when the label is there and a run of digits and dots follows the white space; the capture is that whole run |
| Patterns.RankedAt | partial-tp-calculator.py:75 | the tail `Ranked:\s*(\d+)th/(\d+)` matches at j exactly when the label, white space, a digit run, `th/` and a second digit run follow each other; the two captures are those digit runs and the match ends after the second |
| Patterns.LastRanked | partial-tp-calculator.py:75 | the greedy `.*` backs off from the end of the line: the `Ranked:` tail chosen is the last position on the line where it matches, and there is none only when it matches nowhere |
| Patterns.SearchBack | partial-tp-calculator.py:75 | backtracking out of a greedy run: the position returned is the last one in range where the pattern matches, every later one fails, and there is none only when no position in range matches |
| Patterns.VolumeAt | partial-tp-calculator.py:75 | the volume pattern matches at p exactly when `Volume` is there and the `Ranked:` tail matches somewhere before the end of that line; its end and its two captures are those of the last such tail on the line |
| Patterns.LastNonNewline | partial-tp-calculator.py:80 | the backtracking point of `\s*` before `[^\n]+`: the last non-newline position in range, with only newlines after it |
| Patterns.RiskAt | partial-tp-calculator.py:80 | the risk pattern matches at p exactly when the label is there and a non-newline character lies between the label and the end of the white space run; the capture runs from the last such character to the end of its line, which is the first character after the white space whenever that run stops before the end of the text |
| Patterns.RowAt | partial-tp-calculator.py:85-95 | a row match starts at its keyword, captures a level, a price and a signed percentage, ends at `%`, and contains no letter after the keyword |
| Patterns.RowAtLiteral | partial-tp-calculator.py:85-95 | a row written out in the text (keyword, white space, level digits, white space, price digits and dots, white space, a sign with digits and dots, `%`) is matched at its keyword, and the three captures are exactly the level, the price and the signed percentage |
| Patterns.RowAtLaidOut | partial-tp-calculator.py:85-95 | conversely, every row match is such a row written out in the text, with those captures; with `RowAtLiteral`, the pattern matches exactly the rows laid out this way |
| Patterns.MatchAt | partial-tp-calculator.py:65-95 | each field's pattern, tried at one position, gives a non-empty match starting there with groups of that field's shape, and nothing past the end of the text |
| Patterns.Search | partial-tp-calculator.py:65-80 | `re.search` returns the match at the leftmost matching position, and nothing only when no position matches |
| Patterns.SearchNoneIff | partial-tp-calculator.py:65-82 | the search finds nothing exactly when the pattern matches at no position |
| Patterns.FindAll | partial-tp-calculator.py:86-96 | `re.findall` returns matches of the pattern, each at its own start, in text order and without overlaps |
| Patterns.FindAllCovers | partial-tp-calculator.py:86-96 | `re.findall` skips no match: every position where the pattern matches lies inside one of the returned matches |
| SignalParser.FirstMatch | partial-tp-calculator.py:65-80 | the search result for a field has that field's group shape |
| SignalParser.FirstMatchIsLeftmost | partial-tp-calculator.py:65-82 | a field's search result is the match at the leftmost matching position, and is absent exactly when the pattern matches nowhere |
| SignalParser.AllMatches | partial-tp-calculator.py:86-96 | the row matches have row-shaped groups and do not overlap |
| SignalParser.AllMatchesAreMatches | partial-tp-calculator.py:86-96 | every row match is the pattern's match at its start and lies inside the text |
| SignalParser.LevelOf | partial-tp-calculator.py:88-92 | a row record has a non-negative price, and a percentage whose sign is the captured sign |
| SignalParser.RankText | partial-tp-calculator.py:77 | the stored volume rank holds one slash, right after the first captured number; the text before it is the rank and the text after it the total |
| SignalParser.ParseSpec | partial-tp-calculator.py:52-107 | the parse (the six searches, assembled into a record) fails exactly when the first entry literal, or a price or percentage of some row, is not a literal `float()` accepts, or some row's level has more digits than `int()` converts (4300); a successful parse has one record per row match and a non-negative entry |
| SignalParser.ConvertRows | partial-tp-calculator.py:87-102 | the append loop succeeds exactly when every row's numbers convert, and then yields one record per match, in match order |
| SignalParser.ParseTradingSignal | partial-tp-calculator.py:52-107 | the field-by-field parse equals the parse function: `None` exactly when the entry literal or a row's numbers do not convert |
| SignalParser.RowAtDoesNotNest | partial-tp-calculator.py:85-95 | no row match starts strictly inside another row match of the same keyword |
| SignalParser.RowMatchesAreRowPositions | partial-tp-calculator.py:85-102 | the row matches start exactly at the positions where the row pattern matches, in strictly increasing order |
| SignalParser.FieldPresentIffPatternFound | partial-tp-calculator.py:55-82 | in a successful parse, each scalar field is present exactly when its own pattern matches somewhere in the text |
| SignalParser.ParsedRowsFollowText | partial-tp-calculator.py:85-102 | the target and stop-loss lists hold one record per row in the text, in text order, none skipped, each list from its own pattern |
| SignalParser.AcceptedIff | partial-tp-calculator.py:157 | `Accepted`, the check before a parse is kept: a parse is accepted exactly when it succeeded, an entry literal with a non-zero digit was found, and a target row matched; the accepted entry is then positive |
| SignalParser.EntryAtLiteral | partial-tp-calculator.py:70 | `Entry:`, white space and a maximal run of digits and dots give a match that captures exactly that run |
| SignalParser.FirstEntryAt | partial-tp-calculator.py:70 | with no earlier `Entry:` label, the search returns the entry match at the first label |
| SignalParser.EntryLiteralRecovered | partial-tp-calculator.py:70-72 | writing a float literal after the first `Entry:` label and parsing the text gives back exactly that literal's value when the parse succeeds (a row whose numbers do not convert makes the whole parse fail) |
| Allocation.EqualShares | partial-tp-calculator.py:212-213 | n equal shares that add up to exactly 100 |
| Allocation.FrontTable | partial-tp-calculator.py:214-221 | the front-loaded table adds up to 100 and strictly decreases; its length is n exactly when n is 2, 3 or 4 |
| Allocation.BackTable | partial-tp-calculator.py:222-229 | the back-loaded table is the front-loaded one reversed for every n; it adds up to 100, strictly increases, and has length n exactly when n is 2, 3 or 4 |
| Allocation.Clamp | partial-tp-calculator.py:241-247 | a bounded number input returns a value inside its bounds, and the requested value itself when that is in range |
| Allocation.CustomShares | partial-tp-calculator.py:230-249 | a successful custom distribution has one share per target and its last share is 100 minus the others; a failure always names an input before the last target |
| Allocation.CustomPrefix | partial-tp-calculator.py:234-248 | the custom shares before the last target are all at least 1 and add up to between 0 and 100; a failure names an input before k |
| Allocation.PrefixOfPrefix | partial-tp-calculator.py:234-248 | the shares of the first j inputs are a prefix of the shares of the first k |
| Allocation.PrefixErrorSticks | partial-tp-calculator.py:234-248 | once an input fails, every longer run of inputs fails with the same error |
| Allocation.CustomPrefixClamps | partial-tp-calculator.py:241-248 | each custom share is its input clamped into [1, remaining], with at least 1 remaining before it |
| Allocation.CustomExhausted | partial-tp-calculator.py:241-247 | a non-final custom input reached with no budget left fails the whole distribution |
| Allocation.CustomAllocation | partial-tp-calculator.py:230-249 | the custom loop gives the clamped inputs, then the remainder as the last share, or fails when an input's budget is spent |
| Allocation.CustomSharesAddUp | partial-tp-calculator.py:234-249 | custom shares: one per target, adding up to exactly 100; each non-final share in [1, remaining] and equal to its input when that is in range; the last share is the remainder and is never negative |
| Allocation.CustomPrefixFailsOnlyWhenSpent | partial-tp-calculator.py:241-247 | the custom inputs fail only after the shares before the failing input already add up to 100 |
| Allocation.CustomRemainderExample | partial-tp-calculator.py:237-248 | inputs 30, 30, 30 over three targets give shares 30, 30 and 40 |
| Allocation.Shares | partial-tp-calculator.py:211-249 | `tp_percentages`: only the custom policy can fail, and it fails exactly when its inputs do; the fixed policies add up to 100; equal and custom shares have one share per target |
| Allocation.Allocate | partial-tp-calculator.py:211-249 | the branch on the distribution type yields the shares of the chosen policy |
| Allocation.AllocationFitsIff | partial-tp-calculator.py:211-229 | every distribution adds up to 100; it has one share per target exactly for Equal, Custom, or 2 to 4 targets; it is too short exactly for the tables with 5 or more targets; a single target gets 40 (front-loaded) or 10 (back-loaded) |
| Scenario.LeverageFor | partial-tp-calculator.py:176-178 | the leverage is 1 in spot mode; in futures mode it is inside [1, 125] and equals the input when that is in range |
| Scenario.AcceptedSignalIsEligible | partial-tp-calculator.py:157 | every accepted parse has a positive entry and at least one target |
| Scenario.PositionSize | partial-tp-calculator.py:207-208 | the position size times the entry is the effective modal (modal times leverage), and is positive when that is |
| Scenario.EffectiveModalPositive | partial-tp-calculator.py:173-208 | with modal at least 100000 and leverage at least 1, the effective modal is at least the modal and the position size is positive |
| Scenario.RowForMeaning | partial-tp-calculator.py:256-260 | `RowFor`, one results row: a row sells its share of the position; its profit is those units times (price − entry); sale minus profit is the cost at entry; the running profit grows by the row's profit |
| Scenario.ComputeRows | partial-tp-calculator.py:252-271 | the results loop builds the table of rows, or fails at the first target with no share |
| Scenario.TableRowAt | partial-tp-calculator.py:255-260 | row i is built from the i-th target and the i-th share, by position and not by level number |
| Scenario.CumulativeIsRunningSum | partial-tp-calculator.py:253-270 | each row's cumulative profit is the sum of the profits of that row and all rows before it |
| Scenario.LastCumulativeIsTotal | partial-tp-calculator.py:260-295 | `TotalProfit`, the sum of the rows' profits, equals the last row's cumulative profit |
| Scenario.ProfitIsSalesMinusCost | partial-tp-calculator.py:256-295 | total profit is total sales minus position size × entry × (sum of the shares used) / 100 |
| Scenario.ComputeStopLosses | partial-tp-calculator.py:274-283 | the stop-loss loop yields one row per stop loss, in order, each with loss (price − entry) × position size |
| Scenario.StopLossSign | partial-tp-calculator.py:276-282 | `StopRowOf`, one stop-loss row: a loss is negative exactly when the stop is below entry and zero exactly when it is at entry; its percentage is taken against the modal |
| Scenario.StopLossPercentIsLeveraged | partial-tp-calculator.py:276-282 | the stop-loss percentage is the price move from entry, in per cent, times the leverage |
| Scenario.Roi | partial-tp-calculator.py:296 | ROI × modal = profit × 100 |
| Scenario.PartialIsSecondCumulative | partial-tp-calculator.py:301-303 | `PartialProfit`, the TP1 + TP2 exit: with two or more targets, the TP1 + TP2 profit is the second row's cumulative profit |
| Scenario.RiskReward | partial-tp-calculator.py:313-315 | the ratio is absent exactly when there are no stop losses and fails exactly when the first loss is zero; otherwise it is non-negative and ratio × \|first loss\| = \|total\| |
| Scenario.RiskRewardIgnoresLaterStops | partial-tp-calculator.py:314-315 | stop losses after the first never change the ratio |
| Scenario.Calculate | partial-tp-calculator.py:206-315 | the calculator block computes exactly the scenario of the signal and configuration |
| Scenario.ScenarioFailsIff | partial-tp-calculator.py:206-315 | `ScenarioOf`, the whole calculation, fails exactly when the custom budget is spent before the last target, when a table is used with 5 or more targets, or when the first stop loss sits at the entry |
| Scenario.ScenarioSummary | partial-tp-calculator.py:206-315 | a successful `ScenarioOf` has one row per target and per stop loss; total = last cumulative; partial = second cumulative (0 with one target); a ratio exactly when there is a stop loss; ROI × modal = total × 100 |
| Scenario.FullExitProfit | partial-tp-calculator.py:207-271 | when the shares cover every target, the whole position is sold: total profit = total sales − effective modal |
| Scenario.SingleTargetSellsPart | partial-tp-calculator.py:214-259 | with one target and a table policy, only 40% (front) or 10% (back) of the effective modal is sold |
| Scenario.SingleTargetExample | partial-tp-calculator.py:206-297 | entry 0.0241, modal 10,000,000 in spot mode with the equal distribution (the whole position sold at the one target at 0.0245): position 10^11/241 units, profit 4·10^7/241, no ratio |

## Left out

- The Streamlit page itself: page setup, styles, widgets, columns, session state, buttons and reruns. The configuration inputs become the parameters of `TradingConfig`. The bounds the widgets enforce are `ValidConfig`.
- Plotly charts, DataFrame display formatting, the CSV export, and the text report stamped with the current time. These are rendering and I/O.
- The report's use of `risk_reward` when there are no stop losses, which is an unbound name. That is in the report code.
- The error banners shown with `st.error`. An exception is a `None` or `Err` value.
- Python floats. Prices and amounts are exact `real` numbers, so rounding is not modelled. `float()` is modelled as "digits with at most one dot and at least one digit", read exactly. Exponents and the words `inf` and `nan` cannot be captured by the patterns, but float overflow is dropped with the rest: a captured run of more than about 309 digits becomes `inf` in Python (and then a zero position size or `nan`), while the model reads it exactly.
- CPython releases before 3.11, 3.10.7, 3.9.14, 3.8.14 and 3.7.14 have no digit limit in `int()`. The model follows the current default of 4300 digits (`SignalParser.IntMaxStrDigits`), so on those versions a longer level would be converted instead of failing the parse.
- Unicode digits and letters. `\d` and `\w` are modelled on the ASCII digits, the ASCII letters and `_`. Python's Unicode-aware classes also accept other scripts' digits and letters, and `int()`/`float()` convert those digits. White space (`\s` and `str.strip()`) is modelled on Python's full set, Unicode spaces included.
- The custom number inputs are modelled as clamping the typed value into `[1, remaining]`. An empty range (remaining below 1) is modelled as an error, since the widget cannot be built then.
- Idempotence of parsing and calculating is not stated. Both are functions of their inputs here, so it holds by construction.
- A full round-trip from a rendered signal text back to the parsed record is not proved. Only two pieces of it are: the entry literal comes back as its value when the parse succeeds (`SignalParser.EntryLiteralRecovered`), and a row written out in the text comes back as its three captures (`Patterns.RowAtLiteral`).
- SignalParser.Levels: its contract gives only the length. Each record's meaning is `SignalParser.LevelOf`, and the list's order is `SignalParser.ParsedRowsFollowText`.
