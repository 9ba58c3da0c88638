# Accounting helpers: combination finder and delimited-text converter

This project models two self-contained parts of the Mogball/accounting browser tools in Dafny and proves properties of each.

1. **The combination finder** (`tools/combos/combos.js`). It takes pasted amounts and finds the sets of entries whose cents add up exactly to a target.
   - `parseLinesToEntries` reads pasted lines into numbered entries.
   - `parseMoneyToCents` reads free-form amounts ("$1,234.56", "(12.00)", "-3") as integer cents.
   - `findCombinations` runs a capped depth-first backtracking search with its inner `dfs`.
   - `formatPlainDollars` and `formatCents` render cents as text.
   - `displayComboOutput` builds the tab-separated export of a combination.
2. **The delimited-text converter** (`app.js`).
   - `parseDelimited` is a quote-aware CSV/TSV state machine.
   - `escapeCsv` and `toCsv` serialise rows back.
   - `escapeHtml` escapes text for a preview.

The model follows the form of the code:
- Closure state that `dfs` mutates becomes the class `Combos.Searcher`. Its fields `results` and `current` are updated by the recursive method `Dfs` with push/pop backtracking.
- The source's loops stay loops, each proved against a specification function:
  - `ParseLinesToEntries`;
  - `ParseDelimited`, including its two-character step over `""`;
  - the negation pass in `FindCombinations`;
  - the line-building loop in `ComboOutput`.
- The pure expression chains are functions:
  - `ParseMoneyToCents`, `FormatPlainDollars` and `FormatCents`;
  - `EscapeCsv` and `ToCsv`;
  - `EscapeHtml`, kept as the source's five successive `replaceAll` passes.

Amounts are integers (unbounded). `Number(cleaned)` followed by `Math.round(num * 100)` is computed exactly on a decimal mantissa and scale. Strings are sequences of Dafny `char`, which are Unicode scalar values, while JavaScript strings are UTF-16 code units. A character outside the Basic Multilingual Plane is two code units in JavaScript but one `char` here, and a lone surrogate has no `char` at all. No modelled operation branches on such characters (they only ever match the "anything else" cases), so results agree on every string that has a `char` form.

Modules:
- `Wrappers` holds `Option`.
- `Text` holds JavaScript `trim`, `split`/`join`, and digit strings.
- `Money` and `MoneyProperties` cover parsing and formatting amounts.
- `Entries` reads pasted lines into entries.
- `Ordering` is the stable sort by a key.
- `Combos` holds the search.
- `Enumeration` covers what the search visits.
- `ComboProperties` states what the search returns.
- `SignedCombos` covers the sign correction; see Findings.
- `ComboExport` is the TSV export.
- `Delimited` and `DelimitedProperties` cover the CSV/TSV parser and serialiser.
- `Html` and `HtmlProperties` cover HTML escaping.

## Model

| member | source | states |
|---|---|---|
| Entries.ParseLinesToEntries | tools/combos/combos.js:56-67 | The loop over the split lines yields exactly `EntriesOf(text)`. Its invariant is that `out` is the numbered list of the kept lines seen so far. |
| Entries.EntriesSound | tools/combos/combos.js:56-67 | Entry `k` has index `k` (dense numbering). Its text is non-empty and already trimmed, it parses to its cents, and it is the trimmed form of some input line. |
| Entries.EntriesComplete | tools/combos/combos.js:56-67 | Every line whose trimmed text is non-empty and parses appears as an entry with that text and those cents. |
| Entries.EntriesInLineOrder | tools/combos/combos.js:56-67 | Entry `k` stands for line `js[k]`, with strictly increasing positions `js`. Its index is `k`, its text is that line trimmed, and its cents are what that text parses to. A line is among `js` iff its trimmed text is non-blank and parses, so entries are one per kept line, in line order. |
| Entries.KeptAtSpec | tools/combos/combos.js:59-65 | The positions of the kept lines are strictly increasing, one per kept pair, each pair being that line's amount. A line's position is included iff the line contributes. |
| Entries.KeptLinesSound | tools/combos/combos.js:59-65 | Every kept pair comes from some input line. |
| Entries.KeptLinesComplete | tools/combos/combos.js:59-65 | Every parseable line contributes its pair. |
| Text.TrimProperties | tools/combos/combos.js:60 | `trim()` yields a substring with no white space at either end and is idempotent. |
| Text.TrimStartSpec | tools/combos/combos.js:71 | Leading trim drops exactly a maximal white-space prefix. |
| Text.TrimEndSpec | tools/combos/combos.js:71 | Trailing trim drops exactly a maximal white-space suffix. |
| Text.SplitJoin | tools/combos/combos.js:189 | Splitting a `join` on a separator absent from the parts gives the parts back. |
| Text.NatToStringValue | tools/combos/combos.js:91 | The decimal rendering of a natural reads back as that natural. |
| Money.CleanIsNumericFilter | tools/combos/combos.js:75-78 | Dropping parentheses, keeping digits and dots, then trimming amounts to keeping the digits and dots of the text, in order. |
| Money.KeepNumericIgnoresParens | tools/combos/combos.js:76-77 | Removing parentheses first does not change which digits and dots are kept. |
| Money.RoundToCentsNearest | tools/combos/combos.js:82 | `Math.round(num * 100)` on an exact decimal is the nearest integer, halves up. |
| MoneyProperties.ParseDecimalFails | tools/combos/combos.js:80-81 | `Number` of a digits-and-dots text fails iff it has no digit or more than one dot. |
| MoneyProperties.ParseMoneyFails | tools/combos/combos.js:69-84 | The result is NaN (`None`) iff the trimmed text is blank, or its digits and dots contain no digit or more than one dot. |
| MoneyProperties.ParseMoneyExact | tools/combos/combos.js:69-84 | Text whose digits and dots are `whole[.frac]` with at most two fraction digits parses to exactly `whole*100 + frac` cents. The amount is negated iff the trimmed text starts with `-` or is wrapped in parentheses, so the result is negative iff that marker is present and the amount is non-zero. |
| MoneyProperties.ParsePlainRendering | tools/combos/combos.js:69-84 | `[-]w.ff` parses to the signed value `w*100 + ff`. |
| MoneyProperties.ParseDisplayRendering | tools/combos/combos.js:69-84 | `[-]$` followed by grouped `w`, then `.ff`, parses to the signed value `w*100 + ff`. The `$` and the commas are stripped. |
| Money.FormatPlainDollarsShape | tools/combos/combos.js:95-101 | The plain rendering has a leading `-` iff the amount is negative. It continues with the dollar digits (value `abs/100`), then `.`, then exactly two digits (value `abs%100`). |
| MoneyProperties.FormatPlainDollarsRoundTrip | tools/combos/combos.js:69-101 | `parseMoneyToCents(formatPlainDollars(c)) == c` for every integer `c`. |
| MoneyProperties.FormatCentsEnding | tools/combos/combos.js:86-93 | The display rendering always ends in `.` and two digits holding `abs%100`. It starts with `-` iff the amount is negative. |
| MoneyProperties.FormatCentsParts | tools/combos/combos.js:86-93 | The `remainder !== 0` branch makes no difference: the rendering is the sign, `$`, grouped dollars, `.` and the padded remainder. |
| MoneyProperties.FormatCentsRoundTrip | tools/combos/combos.js:69-93 | `parseMoneyToCents(formatCents(c)) == c` for every integer `c`. |
| MoneyProperties.KeepNumericOfGrouped | tools/combos/combos.js:92 | Stripping the thousands separators of grouped digits gives the digits back. |
| Money.GroupThousands | tools/combos/combos.js:92 | Grouped non-empty digits start and end with a digit. |
| Ordering.Sort | tools/combos/combos.js:195 | The sort is a permutation of its input. |
| Ordering.SortOrdered | tools/combos/combos.js:195 | The sort is stable: when ties are in index order, the result is strictly increasing by (key, index). |
| Ordering.StrictlyOrderedUnique | tools/combos/combos.js:221 | Two lists with the same elements, both strictly ordered by (key, index), are equal. This fixes the sort's result. |
| Ordering.SameMembersUnique | tools/combos/combos.js:221 | Two lists with the same members, both strictly ordered by (key, index), are equal. |
| Ordering.SortKeepsSum | tools/combos/combos.js:202 | Sorting keeps the total cents. |
| Ordering.SortDistinct | tools/combos/combos.js:202 | Sorting keeps indices distinct. |
| Ordering.SortOfOrdered | tools/combos/combos.js:221 | Sorting an already ordered list leaves it unchanged. |
| Combos.Searcher.Dfs | tools/combos/combos.js:199-212 | `dfs(start, sum)` restores `current` and appends to `results`. What it appends is the combos of `Enum(start, sum, current)` in visiting order, cut off once `results` holds `maxCount`. |
| Combos.FindCombinations | tools/combos/combos.js:193-225 | The method is proved equal to `Search`: it tags by input position, sorts, negates in place for a negative target, filters `0 < cents <= target`, sorts again, then runs `dfs(0, 0)`. `truncated` is `results.length >= maxCount`. |
| Combos.LoopStep | tools/combos/combos.js:206-211 | One turn of the `for` loop in `dfs` appends what the loop from `i` would append, capped. |
| Combos.CappedAppend | tools/combos/combos.js:200-210 | Capped appending of two result lists in turn equals capped appending of their concatenation. |
| Combos.Useful | tools/combos/combos.js:221 | The filter keeps exactly the items with `0 < cents <= target`. |
| Enumeration.EnumSound | tools/combos/combos.js:199-212 | Every recorded list extends the path by strictly increasing positions whose items bring the sum exactly to the target. |
| Enumeration.EnumComplete | tools/combos/combos.js:199-212 | With positive items, every such extension is recorded. |
| Enumeration.EnumLexSorted | tools/combos/combos.js:206-211 | The search records its lists in strictly increasing lexicographic order. |
| ComboProperties.CandidatesCharacterised | tools/combos/combos.js:195-221 | The candidates are exactly the input positions whose sign-normalised cents lie in `(0, abs(target)]`. They are strictly ordered by (cents, position) with distinct indices. |
| ComboProperties.CandidateMember | tools/combos/combos.js:195-221 | An item is a candidate iff it is an input position with normalised cents in `(0, abs(target)]`. |
| ComboProperties.CandidatesPositive | tools/combos/combos.js:221 | Every candidate has `0 < cents <= abs(target)`. |
| ComboProperties.ComboSumExact | tools/combos/combos.js:199-221 | Every returned combo records `sum == abs(target)`, its members' cents add up to `abs(target)`, and every member is a candidate. |
| ComboProperties.NegativeTarget | tools/combos/combos.js:202-219 | For a negative target the recorded sum is `-target`. Every member carries the negation of its entry's (negative) cents. |
| ComboProperties.NegativeSignLost | tools/combos/combos.js:214-219 | One entry of -5.00 with target -5.00 yields a single combo whose member and sum are +5.00. |
| ComboProperties.SignSymmetry | tools/combos/combos.js:214-221 | For `t > 0`, negating every entry and the target gives exactly the same result as the original search. |
| ComboProperties.NegCandidates | tools/combos/combos.js:214-221 | Negating every entry and the target leaves the candidate list unchanged. |
| ComboProperties.MembersOrdered | tools/combos/combos.js:202-208 | Members come from strictly increasing candidate positions and are listed by strictly increasing index. |
| ComboProperties.DistinctCombos | tools/combos/combos.js:202-209 | No two returned combos have the same set of member indices. |
| ComboProperties.CapRespected | tools/combos/combos.js:200-224 | At most `maxCount` combos are returned, and `truncated` iff `combos.length >= maxCount`. When not truncated, the result is every match the search visits. |
| ComboProperties.CompleteWhenNotTruncated | tools/combos/combos.js:199-224 | When not truncated, every increasing choice of candidates summing to `abs(target)` is returned exactly once. |
| ComboProperties.FoundFirst | tools/combos/combos.js:206-211 | The returned combos are in lexicographic order of candidate positions. A match left out by the cap comes after all of them. |
| ComboProperties.NoEntries | tools/combos/combos.js:223-224 | No entries give no combos and `truncated == false`. |
| ComboProperties.ZeroTarget | tools/combos/combos.js:201-203 | A zero target would record the single empty combo. |
| ComboProperties.TruncatedWhenExactlyFull | tools/combos/combos.js:224 | One match with `maxCount == 1` reports `truncated` although the search finished. |
| SignedCombos.SignedCombosExact | tools/combos/combos.js:214-219 | With the sign restored, every combo's sum and member total equal the target itself. Each member carries its entry's own cents. |
| SignedCombos.FindSignedCombinations | tools/combos/combos.js:193-225 | The search followed by mapping every result back with the sign equals `SearchSigned`. |
| SignedCombos.SignedAgreesWhenPositive | tools/combos/combos.js:214-216 | For a non-negative target the correction changes nothing. |
| ComboExport.ComboOutput | tools/combos/combos.js:182-191 | The line-building loop yields the header, one `index<TAB>amount` line per member by ascending index, and the sum line, joined with `\n`. |
| ComboExport.ExportReadsBack | tools/combos/combos.js:182-191 | Splitting the export on `\n` and each line on tab gives back the header, each member's index and plain amount in index order, and the sum. The sum's text parses back to the sum. |
| ComboExport.LinesSplitBack | tools/combos/combos.js:189 | Splitting the joined export on `\n` gives back its lines. |
| ComboExport.MemberFieldsReadBack | tools/combos/combos.js:186 | A member line's amount parses back to its cents, and its index field reads back as the index. |
| ComboExport.ExportKeepsOrder | tools/combos/combos.js:183 | Members already in index order are exported in their given order. |
| Delimited.ParseDelimited | app.js:28-76 | The imperative loop, including the skip over `""`, computes `Parsed(text, d)`: the state machine run over the text, then the final flush and the drop of a trailing `[""]` row. |
| DelimitedProperties.ParsedRowsNonEmpty | app.js:68-75 | Every returned row has at least one field. |
| DelimitedProperties.EmptyTextNoRows | app.js:68-75 | Empty input yields no rows. |
| DelimitedProperties.SingleField | app.js:50-75 | Text without special characters or the delimiter is one row with one field. |
| DelimitedProperties.ScanRaw | app.js:50-66 | Outside quotes, ordinary characters are appended to the field. |
| DelimitedProperties.ScanQuotedBody | app.js:39-49 | Inside quotes, a text with its quotes doubled, then a lone `"`, adds that text verbatim to the field and leaves quoted mode. The text may contain delimiters, `\n` and `\r`. |
| DelimitedProperties.ScanField | app.js:39-90 | Parsing an `escapeCsv`-ed field adds exactly that field's text. |
| DelimitedProperties.ScanLineEnd | app.js:56-62 | `\n` or `\r\n` outside quotes ends the row; the `\r` is dropped. |
| DelimitedProperties.ScanRow | app.js:28-81 | Parsing one serialised row yields its fields. |
| DelimitedProperties.RowsRoundTrip | app.js:28-90 | Rows serialised with a tab or comma delimiter and `\n` or `\r\n` line ends parse back to the same rows. This needs every row non-empty and the last row not `[""]`. |
| DelimitedProperties.ToCsvRoundTrip | app.js:28-90 | `parseDelimited(toCsv(rows, d, true), d) == rows` under the same conditions. |
| DelimitedProperties.ToCsvWithoutHeader | app.js:78-82 | With `includeHeader` false, exactly the first row is omitted. |
| DelimitedProperties.NoRows | app.js:79 | No rows serialise to `''`, which parses back to no rows. |
| DelimitedProperties.EscapeCsvUnchanged | app.js:84-90 | `escapeCsv` returns its input unchanged iff the input has none of `"`, `\n`, `\r`, `,` or tab. |
| DelimitedProperties.DoubleQuotesLength | app.js:87 | Doubling quotes never shortens the text. |
| HtmlProperties.EscapeHtmlIsEach | app.js:131-138 | The five passes equal escaping each character on its own, so no entity is escaped twice. |
| HtmlProperties.NoMarkupLeft | app.js:131-138 | The output contains no `<`, `>`, `"` or `'`. |
| HtmlProperties.PlainUnchanged | app.js:131-138 | Text without `&`, `<`, `>`, `"` or `'` is returned unchanged. |
| HtmlProperties.EscapeHtmlRoundTrip | app.js:131-138 | Decoding the five entities recovers the input. |
| HtmlProperties.EscapeHtmlAppend | app.js:131-138 | Escaping distributes over concatenation. |

## Left out

- Null and undefined inputs are not modelled: `parseMoneyToCents(null)` returning NaN, and `escapeCsv(null)` returning `''`. Every input is a string; `String(value)` of a non-string is not modelled.
- MoneyProperties.ParseMoneyExact: proved only for at most two fraction digits. With more digits, `Math.round(num * 100)` on a binary double can differ from the exact rounding the model computes (for example, 1.005). Amounts beyond 2^53 cents, and `Number` overflowing to `Infinity`, are not modelled either.
- Money.GroupThousands: `toLocaleString()` is modelled as en-US grouping (`,` every three digits). Other locales are not modelled.
- Callers' guards are not modelled. The `maxCount` clamp `Math.max(1, …)` and the non-zero target check belong to the click handler. `Search` is total and the lemmas say what happens for `maxCount <= 0` or a zero target.
- Entry objects are values. The search works on fresh copies, so mutating the caller's entries cannot happen in the model, and aliasing is not modelled.
- `Combos.Searcher.Dfs`: recursion depth and time are not bounded.
- The delimiter of `parseDelimited` is one character, compared with `===` to one code unit. A multi-character delimiter never matches in the source. `toCsv` joins with any string, and the round trip is stated for a one-character tab or comma.
- DelimitedProperties.RowsRoundTrip: needs each row non-empty and the last row not `[""]`. A zero-field row or a trailing `[""]` row does not survive. With a delimiter other than tab or comma, a field containing it is not quoted.
- DOM, event handlers, the clipboard and file download are not modelled: `renderEntries`, `renderCombos`, `highlightCombo`, `renderPreview`, `convert`, `colorFor`/`outlineFor` and the `comboOutputEl` assignment. `displayComboOutput` is modelled only up to the text it builds.
- `toJsonArray` and `toJsonObjects` rely on the library serialiser `JSON.stringify` and are not modelled.

## Findings

| source | as written | input that shows it | evidently intended | confidence | as-written member | corrected member |
|---|---|---|---|---|---|---|
| tools/combos/combos.js:214-219 | For a negative target, `sign` is computed and the items negated, but `sign` is never used again. Returned combos carry the negated cents and the positive sum. | One entry `-5.00`, target `-5.00`, `maxCount` 2: the single combo reads `{ items: [{ index: 0, cents: 500 }], sum: 500 }` | Each combo is mapped back with `sign`: members carry their entries' own cents and the sum equals the target | medium, not executed | ComboProperties.NegativeSignLost | SignedCombos.SignedCombosExact |
