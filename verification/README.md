# Currency converter core, in Dafny

This project models the logic of a two-field currency converter written for
feature phones. It has four parts.

- **The masked currency input** (`CurrencyInput`, currency_input.dfy).
  - Text the user edits is normalized to a plain numeric string: the currency symbol and group separators are stripped, and one decimal point is marked and restored.
  - The split fraction segments are joined again and the fraction is cut to the currency's precision.
  - The result is parsed and stored, and the field is re-rendered from the stored value.
  - After the re-render, the caret goes back behind the same number of numeric characters it followed before.
  - The keydown filter lets keys through or suppresses them, and makes the arrow keys jump over non-numeric characters.
- **The USD-pivot conversion** `exchange` (`ExchangeApi`, exchange_api.dfy). It works over reals with a rate table that maps a currency code to its units per US dollar.
- **The reference helpers**:
  - `Currencies` (currencies.dfy): case-insensitive currency lookup, the rounding increment and fraction digits taken from the smallest denomination, the US-dollar fallback of `formatFromCode`, and the country part of a language tag.
  - `Language` (language.dfy): language code, right-to-left test and writing direction.
- **The two-field coordinator** (`Input`, input.dfy). It is an immutable record holding both currencies, both quantities, the focused and active field, and the optional rate table. Its operations are the partial slot update, the swap, the conversion into the unfocused field, the key filter and the key-up handler.

Shared pieces:
- `Strings` (strings.dfy) gives the JavaScript string operations the code relies on, over `seq<char>`: `replace` with a string pattern, `split`, `join`, `toLowerCase` and `toUpperCase` on ASCII, and `<=` on strings. `slice(0, n)` is `CurrencyInput.Take`.
- `Wrappers` (wrappers.dfy) holds `Option`.

Several things the code gets from outside are parameters:
- the locale formatter: `fmt: real -> string`, and `intl` for `formatNumber`;
- `Number`/`parseFloat`: `parse: string -> Option<real>`, where `None` stands for NaN;
- the currency table, which is read from JSON.

Where the widget's documented behaviour and its code differ, the model follows the code:
- `NON_DECIMAL` is a character class, so `:`, `D`, `E` and `C` survive normalization along with digits and `-`.
- Only the decimal separator is turned into the placeholder. A literal `.` is otherwise stripped.
- Only the first occurrence of the currency symbol is removed.
- When an edit does not parse, the field shows the formatted old value, not the raw text. The raw text is used only to count numeric characters for the caret.
- When no numeric character was left of the caret and the formatted text has no numeric characters, the caret goes to the end of the text, not the start.
- In a right-to-left field both arrow keys move the caret left.
- `updateUI` stores NaN in the other field when a rate is missing.

## Model

| member | source | states |
|---|---|---|
| CurrencyInput.StripSymbolAndGroups | src/currencyInput.ts:65-67 | no group separator remains, no character is introduced, and every character that is neither a group separator nor part of the symbol survives |
| CurrencyInput.StripSymbolAndGroupsContent | src/currencyInput.ts:65-67 | the stripped text, in order: the text before the first occurrence of the symbol followed by the text after it, each with its group separators removed; with no symbol, the whole text without group separators |
| CurrencyInput.ToNormalizedNumericString | src/currencyInput.ts:58-73 | the result has at most one `.`; every character is a digit, `-`, `:`, `D`, `E`, `C` or `.`; a group separator outside `.:DEC` never survives |
| CurrencyInput.NormalizedContent | src/currencyInput.ts:58-73 | for input without `:`, the exact result: the kept characters of the stripped text when it has no decimal separator, and otherwise the kept characters before its first decimal separator, a `.`, and the kept characters after it |
| CurrencyInput.DecimalSeparatorBecomesPoint | src/currencyInput.ts:68-71 | a decimal separator left after stripping always yields a `.` in the normalized text |
| CurrencyInput.NoPointWithoutDecimalSeparator | src/currencyInput.ts:68-71 | with no decimal separator (and no `:`), no `.` survives, so a literal `.` is dropped when it is not the separator |
| CurrencyInput.StripRemovesOnlyFirstSymbol | src/currencyInput.ts:66-67 | for text that starts with the symbol, only that leading symbol goes; a later copy of it stays, with groups removed |
| CurrencyInput.JoinFractions | src/currencyInput.ts:283-290 | the integer part, one `.`, then every later segment with its `.` removed; at most one `.` results; text without `.` is unchanged |
| CurrencyInput.JoinFractionsKeepsSinglePoint | src/currencyInput.ts:283-290 | on text that has at most one `.`, re-joining is the identity |
| CurrencyInput.Take | src/currencyInput.ts:296 | `slice(0, n)` gives the prefix of length min(n, length) |
| CurrencyInput.ClampPrecision | src/currencyInput.ts:292-297 | precision 0 gives a non-empty result without `.`, which is `"0"` exactly when the integer part is empty or `"0"` and otherwise is the integer part; otherwise the result is a prefix of the input whose fraction has at most `precision` characters, the whole input when it has no `.`, and, when it has exactly one `.`, the prefix of length min(length, integer part + 1 + precision) |
| CurrencyInput.ClampWithoutPoint | src/currencyInput.ts:292-297 | text without `.` is unchanged by the clamp, except that empty text becomes `"0"` at precision 0 |
| CurrencyInput.ClampAroundPoint | src/currencyInput.ts:292-297 | `left.right` clamps to `left` (or `"0"` when it is empty) at precision 0, and otherwise to `left`, `.` and the first `precision` characters of `right` |
| CurrencyInput.NormalizeEditIsClamp | src/currencyInput.ts:276-297 | since normalized text already has at most one `.`, the re-join step of the pipeline changes nothing and only the clamp acts |
| CurrencyInput.NormalizeEdit | src/currencyInput.ts:276-297 | the whole pipeline: at most one `.`, only kept characters and `.`, no `.` and non-empty at precision 0, fraction no longer than the precision |
| CurrencyInput.NormalizeEditContent | src/currencyInput.ts:276-297 | for input without `:`, the exact result: the kept characters before the first decimal separator (`"0"` when empty at precision 0), then, with a non-zero precision, `.` and the first `precision` kept characters after it; with no separator, the kept characters |
| CurrencyInput.CountNumericCharsLeft | src/currencyInput.ts:75-88 | the count of digits, separators and `.` in the clamped prefix before the caret; at most the caret and the text length |
| CurrencyInput.CountNumericCharsLeftMonotone | src/currencyInput.ts:75-88 | the count never decreases as the caret moves right |
| CurrencyInput.NumericPositionsInFormatted | src/currencyInput.ts:90-102 | exactly the numeric indices, strictly increasing, the k-th having k numeric characters before it |
| CurrencyInput.ReconciledUnique | src/currencyInput.ts:258-265 | the caret rule (min(k, n) numeric characters to the left; first numeric position for k = 0; right after the k-th for 0 < k < n; end for k >= n) fixes a single position |
| CurrencyInput.EndCaret | src/currencyInput.ts:237-244 | with no previous edit the caret is right after the last numeric character, or at the end when there is none |
| CurrencyInput.ReconcileCaret | src/currencyInput.ts:248-269 | the clamped caret lies within the formatted text and satisfies the caret rule for the count taken from the pre-edit text |
| CurrencyInput.Clamp | src/currencyInput.ts:268 | `Math.max(0, Math.min(len, x))`: 0 below the range, len above it, and the input when it is already in range |
| CurrencyInput.Render | src/currencyInput.ts:229-270 | display is the formatted value, the value is untouched, and the caret follows the end rule or the reconciliation rule |
| CurrencyInput.OnInput | src/currencyInput.ts:272-309 | unparseable text keeps the value and raises no event; parseable text replaces the value and raises exactly one input event; the caret is reconciled |
| CurrencyInput.SetValue | src/currencyInput.ts:192-199 | NaN changes nothing and raises nothing; a number is stored, rendered with the caret at the end, and announced once |
| CurrencyInput.OnBlur | src/currencyInput.ts:311-314 | re-render with the caret after the last numeric character, then one change event; the value, precision and profile are kept |
| CurrencyInput.SkipLeft | src/currencyInput.ts:331-339 | the left move stops right after a numeric character or at 0, having passed only non-numeric characters |
| CurrencyInput.SkipRight | src/currencyInput.ts:342-350 | the right move stops at a numeric character or the end, having passed only non-numeric characters |
| CurrencyInput.LeftStopUnique | src/currencyInput.ts:331-339 | the stopping rule for the left move fixes one position |
| CurrencyInput.RightStopUnique | src/currencyInput.ts:342-350 | the stopping rule for the right move fixes one position |
| CurrencyInput.OnKeyDown | src/currencyInput.ts:316-376 | modified keys pass; ArrowLeft, and ArrowRight in a right-to-left field (the `dir` attribute lower-cases to `rtl`, `IsRtlDirection`), move left; ArrowRight otherwise moves right; other keys pass exactly when they are always allowed, a single digit, or a decimal key while the precision is non-zero and no separator or `.` is present |
| Strings.IndexOfFrom | src/currencyInput.ts:66-68 | the first occurrence of the pattern at or after the start, or none anywhere after it |
| Strings.IndexOfFirstOccurrence | src/currencyInput.ts:66-71 | an occurrence with none before it is the one `indexOf` finds |
| Strings.IndexOfChar | src/currencyInput.ts:68 | for a one-character pattern, `indexOf` finds the first occurrence of the character, and none when it is absent |
| Strings.ReplaceFirst | src/currencyInput.ts:66-71 | without an occurrence the text is unchanged; otherwise the text before the first occurrence, the replacement, and the text after it, of the corresponding length |
| Strings.ReplaceFirstKeeps | src/currencyInput.ts:66 | a character that is not in the pattern survives the replacement |
| Strings.Filter | src/currencyInput.ts:70 | the result holds only accepted characters, no new ones, and every accepted character of the input |
| Strings.FilterConcat | src/currencyInput.ts:70 | filtering distributes over concatenation, so the kept characters keep their order and count |
| Strings.FilterKeepsAll | src/currencyInput.ts:70 | text made only of accepted characters is unchanged |
| Strings.FilterDropsAll | src/currencyInput.ts:70 | text with no accepted character filters to empty |
| Strings.RemoveAll | src/currencyInput.ts:67 | the removed character is gone, nothing is introduced, and every other character survives |
| Strings.RemoveAllConcat | src/currencyInput.ts:67 | removal distributes over concatenation, so the other characters keep their order |
| Strings.RemoveAllAbsent | src/currencyInput.ts:67 | removing a character that is absent changes nothing |
| Strings.Lower | src/language.ts:19-22 | `toLowerCase` maps each character to its lower-case form and keeps the length |
| Strings.Upper | src/data/currencies.ts:66 | `toUpperCase` maps each character to its upper-case form and keeps the length |
| Strings.Split | src/currencyInput.ts:283 | the first part is the text before the first separator; there are two or more parts exactly when the separator occurs; no part contains it |
| Strings.SplitJoin | src/currencyInput.ts:283-287 | joining the parts of a split with the same separator gives the text back |
| Strings.ConcatSplit | src/currencyInput.ts:286 | joining the parts with "" deletes every separator |
| ExchangeApi.Exchange | src/exchangeApi.ts:77-99 | a result exists exactly when the rates the taken branch reads are present (and a divisor is non-zero) |
| ExchangeApi.ExchangeToUsdValue | src/exchangeApi.ts:88-90 | to USD, USD itself included, divides by the source rate |
| ExchangeApi.ExchangeFromUsdValue | src/exchangeApi.ts:93-95 | from USD to another currency multiplies by the target rate |
| ExchangeApi.ExchangeCrossValue | src/exchangeApi.ts:97-98 | between two other currencies, divide by the source rate and multiply by the target rate |
| ExchangeApi.ExchangeIsUsdPivot | src/exchangeApi.ts:87-98 | apart from USD to USD, exchange is "to dollars, then from dollars"; USD to USD divides by the dollar's own rate |
| ExchangeApi.ToUsdAndBack | src/exchangeApi.ts:88-95 | a currency to USD and back returns the quantity |
| ExchangeApi.FromUsdAndBack | src/exchangeApi.ts:88-95 | USD to a currency and back returns the quantity |
| ExchangeApi.CrossAndBack | src/exchangeApi.ts:88-98 | between two non-USD currencies and back returns the quantity |
| ExchangeApi.ExchangeRoundTrip | src/exchangeApi.ts:88-98 | with non-zero rates (and a dollar rate of 1 for USD to USD), converting there and back returns the quantity |
| ExchangeApi.ExchangeLinear | src/exchangeApi.ts:88-98 | scaling the quantity scales the result by the same factor and keeps definedness |
| ExchangeApi.ExchangeUsdToUsd | src/exchangeApi.ts:88-90 | USD to USD is the identity on a non-zero quantity exactly when the dollar's own rate is 1 |
| Currencies.NatTextInjective | src/data/currencies.ts:45-52 | comparing increments by their decimal text is comparing them as numbers |
| Currencies.FindIndexFrom | src/data/currencies.ts:40-42 | the first table index with the code, or none |
| Currencies.FindCurrency | src/data/currencies.ts:36-43 | the entry found is in the table with the lower-cased code; none exactly when no entry has it |
| Currencies.FindCurrencyFirst | src/data/currencies.ts:36-43 | the first matching entry is the one returned |
| Currencies.FindCurrencyIgnoresCase | src/data/currencies.ts:39 | lookup of `lower(c)` equals lookup of `c` |
| Currencies.MatchIncrement | src/data/currencies.ts:47 | the first increment written as the denomination, or none exactly when no increment is |
| Currencies.RoundingIncrement | src/data/currencies.ts:45-52 | always an allowed increment; the denomination when it is one, otherwise 1 |
| Currencies.RoundingIncrementOfIncrement | src/data/currencies.ts:45-52 | a denomination equal to an allowed increment k gives exactly k |
| Currencies.FractionDigits | src/data/currencies.ts:54-59 | 0 without a `.`; otherwise the length of the text between the first and any second `.` |
| Currencies.FractionDigitsOfDecimal | src/data/currencies.ts:54-59 | a denomination `a.b` gives the length of `b` |
| Currencies.UsdRoundingIncrement | src/data/currencies.ts:45-52 | the dollar's denomination 0.01 is not an allowed increment, so it rounds by 1 |
| Currencies.UsdFractionDigits | src/data/currencies.ts:54-59 | the dollar shows two fraction digits |
| Currencies.UsdCode | src/data/currencies.ts:66 | the dollar's code upper-cases to "USD" |
| Currencies.UsdOptions | src/data/currencies.ts:61-69 | formatNumber asks for USD, increment 1, two fraction digits for the dollar |
| Currencies.OptionsFor | src/data/currencies.ts:62-69 | the formatter gets the upper-cased code, the currency's rounding increment (always an allowed one) and its fraction digits |
| Currencies.FormatFromCodeFallback | src/data/currencies.ts:61-82 | `formatFromCode` (through `formatNumber`, the formatter applied to `OptionsFor`) formats an unknown code as US dollars and a known one as the first matching entry, and the code's case does not matter |
| Currencies.CountryCode | src/data/currencies.ts:84-86 | a region exists exactly when the tag has a `-`; it is the text after the first `-` up to any next one |
| Currencies.CountryCodeOfTag | src/data/currencies.ts:84-86 | `language-region` gives `region` |
| Language.LanguageCode | src/language.ts:17-23 | the lower-cased text before the first `-`, with no `-` in it |
| Language.LanguageCodeIdempotent | src/language.ts:17-23 | applying it twice is applying it once |
| Language.LanguageCodeIgnoresRegion | src/language.ts:18-19 | everything from the first `-` on is ignored |
| Language.LanguageCodeIgnoresCase | src/language.ts:17-23 | lower-casing the tag first changes nothing |
| Language.IsRtlOfTag | src/language.ts:25-26 | isRTL (`Language.IsRtl`) ignores case and region and holds exactly when the lower-cased language is one of the twelve listed codes |
| Language.ArabicIsRtl | src/language.ts:2-26 | "AR-eg" reads right to left |
| Language.EnglishIsLtr | src/language.ts:2-26 | "en-US" reads left to right |
| Language.Direction | src/language.ts:30-31 | "rtl" exactly when isRTL holds, "ltr" exactly when it does not |
| Input.SetCurrencyState | src/input.ts:50-61 | only slot i changes; its currency only for a non-empty code, its quantity for any present value, NaN included |
| Input.SetCurrencyStateEmpty | src/input.ts:50-61 | an update with no quantity and an absent or empty code is the identity |
| Input.ReverseCurrencies | src/input.ts:151-153 | each slot takes the other's currency and quantity; focus, active field and rates stay |
| Input.ReverseCurrenciesTwice | src/input.ts:151-153 | swapping twice restores the state |
| Input.Converted | src/input.ts:68-73 | a number when the quantity is a number and exchange is defined, and then exchange's value; NaN otherwise |
| Input.UpdateUI | src/input.ts:63-77 | no-op without rates; otherwise only the unfocused quantity changes, to the converted focused quantity |
| Input.UpdateUIIdempotent | src/input.ts:63-77 | a second update changes nothing |
| Input.UpdateUIRoundTrip | src/input.ts:63-77 | converting across, focusing the other field and converting back restores the typed quantity (non-zero rates) |
| Input.InDigitRangeMeans | src/input.ts:118 | `"0" <= key <= "9"`, JavaScript string order modelled by `Strings.LexLe`, holds for "9" and for any key whose first character is 0 to 8 |
| Input.InDigitRangeSingle | src/input.ts:118 | on one-character keys the range is exactly the digits |
| Input.HandleKeyDown | src/input.ts:114-129 | control keys pass; `.` and `,` pass exactly when the value has neither; other one-character keys pass exactly when they are digits; longer keys pass exactly when control keys or starting with 0 to 8 |
| Input.ExtractNumber | src/input.ts:96 | character for character the filtered text, except that its first `,` becomes `.`; only digits, `.` and `,` remain; a single `,` leaves no `,` |
| Input.CommaReplaced | src/input.ts:96 | replacing the first `,` keeps the length and the character class, changes only the first `,` (to `.`), and removes the only `,` |
| Input.ExtractNumberOfDecimal | src/input.ts:96 | digits-and-points text passes through unchanged |
| Input.HandleInputChange | src/input.ts:79-103 | arrows and Enter leave the quantities alone (focus effect, or active field and dialog); any other key focuses the field and, when the number parses, stores it and puts its conversion into the other field (which is left alone without rates); an unparseable number changes no quantity |
| Input.HandleFocus | src/input.ts:105-106 | only the focused field changes |
| Input.SetCurrency | src/input.ts:207-211 | the slot takes a non-empty code, the focused quantity stays, and the other quantity is reconverted with the new currencies; focus, active field and rates are kept |
| Input.DollarsToRupees | src/input.ts:79-103 | typing 100 in the dollar field at 83 rupees per dollar puts 8300 in the rupee field |

## Left out

- Intl.NumberFormat, formatToParts and the separator defaults of `updateFormatter` (src/currencyInput.ts:25-56): locale formatting comes from a foreign library. It is the parameter `fmt` (and `intl`), and the separators and symbol are plain fields of `Profile`.
- `formatNumberToCurrency`'s rewrite of `-0` to `0`: the model works over reals, which have no negative zero.
- `Number`, `parseFloat` and `toString` of numbers: these are parameters, or the denomination is kept as its decimal text.
- `ExchangeApi.Exchange`: JavaScript yields NaN for a missing rate and an infinity (or NaN) when it divides by a zero rate; the model yields `None` in both cases.
- Floating-point rounding: the model works over reals, so the round-trip and linearity lemmas hold exactly, not up to rounding.
- Custom-element lifecycle, shadow DOM, `attributeChangedCallback`, the `currency` setter, `_updatePrecision`, `setAttribute` reflection and event dispatch: these are DOM plumbing. Dispatched events are returned as a list.
  - Reflection is left out on purpose. `setAttribute("value")` re-enters the value setter and can dispatch an extra input event.
- The caret and selection APIs: they become the `caret` field and the `MoveCaret` outcome.
- Code points vs code units: `countNumericCharsLeft` iterates code points while `slice` cuts code units. The model counts code units, which gives the same count, because no character outside the basic plane is numeric. Surrogate pairs are otherwise not modelled.
- CurrencyInput.StripSymbolAndGroups: the group separator is removed as a literal character. In JavaScript, `new RegExp("\\" + groupSeparator, "g")` (src/currencyInput.ts:67) matches the literal character only when the separator is not a letter or digit, since `\s`, `\d`, `\w`, `\b` or `\n` would be a class or an escape. Locale formatters do not produce such separators.
- Strings.Lower: lower- and upper-casing are modelled for ASCII only.
- `fetchWithFallback`, the rate cache and `fetchUSDExchangeRates` (src/exchangeApi.ts:15-74): network I/O.
- `exchangeFormatted`: this composes `exchange` with locale formatting.
- In the coordinator:
  - The text written into the fields (`handleBlur`, the display part of `updateUI` and `reverseCurrencies`) and the labels (`updateLabel`) are DOM output.
  - The placeholders (`updatePlaceholders`) use a random number.
  - `bindInputs`, `setup`, `onCurrencySelected`, `onCurrencyLabelClick` and the event dispatch are event wiring.
  - `openCurrencyDialog` appears only as the `OpenCurrencyDialog` effect, and the focus moves only as `Focus` effects.
- src/currencyList.ts, src/index.ts, src/events.ts and `getRandomInteger` in src/utils.ts: dialog DOM, bootstrap, type declarations and randomness.
