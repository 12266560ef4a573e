# Winner picker: a Dafny model of the "Pick Winners" handler

The application takes pasted chat lines such as `alice 42` or `Ben Bcool 17,5`,
and a winning number. It picks the senders whose number is closest to the winning
number, or, in exact-match mode, the senders whose number equals it. This project
models, in Dafny, the handler behind the "Pick Winners" button in `src/App.jsx` and
the texts built from its result. It proves what that code promises.

The model follows the handler stage by stage:

- **Names** (`names.dfy`): `transformName`, the "message filter" that shortens a name
  to its first word and the first letter of its second word. Also the choice of the
  display name.
- **Parser** (`parser.dfy`, with `text.dfy`, `numbers.dfy` and `lists.dfy`): `parseRawData`.
  - Each trimmed, non-blank line is scanned for the leftmost match of
    `[-+]?[0-9]*[.,]?[0-9]+`.
  - The matched text, with its first `,` read as `.`, becomes the entry's number.
  - The line without that first occurrence, trimmed, becomes the entry's name.
  - The match is computed the way the regular-expression engine finds it: leftmost,
    then greedy with backtracking. It is proved to be the leftmost-longest number
    token, checked against a separate definition of the pattern's language.
  - `text.dfy` models the JavaScript string operations the handler relies on:
    `trim`, `split` on a character, `split(/\s+/)`, `indexOf`, `replace` with a
    string pattern (first occurrence only), and `join`.
  - `parseInt(…, 10)` is modelled exactly.
- **Duplicates** (`duplicates.dfy`): the whitelist split and the duplicate filter.
  - The `seen` object is a `map` plus the order in which its keys were added.
  - `FilterDuplicates` is the handler's two loops. It is proved equal to the
    reference definition `Dedup`, and the filter's promises are proved about `Dedup`.
- **Ranking** (`ranking.dfy`):
  - the exact-match filter;
  - the comparator of the closeness sort;
  - the slice to the winner count, and the loop that extends the last place by the
    entries tied with it (tie mode "all").
  - The sort is specified by its result: `Ranked` (an insertion sort used as the
    reference) is sorted, is a permutation of its input, and is the only sorted
    permutation, because line indices are unique.
- **Winners** (`winners.dfy`): the three validation checks with their `hasError` flag,
  and the handler as a method `HandleSubmit`. That method is proved equal to the
  function `Submit`, which describes the whole submission.
- **Output** (`output.dfy`): the winners text, the original-data text and the
  differences text.

How values from the source are represented:

- Numbers read by `parseFloat` are exact decimals (`real`).
- The winning number is a parameter of the form, `Option<real>`, where `None`
  stands for NaN.
- JavaScript's conversion of a number to text (`${w.number}`) and `toFixed(2)` are
  function parameters of the output functions.

Notes on what the code does, which the model follows:

- **Line index.** An entry's `index` counts blank lines, because the code numbers
  the lines of the raw text before it drops the blank ones (src/App.jsx:52-53).
  `ParsedIndices` and `ParseRawDataSound` state this.
- **Data with no number.** Data that is not blank but has no line with a digit is not
  an error: only blank data is rejected (src/App.jsx:72), and the submission goes on
  with no entries and ends with no winners (`NoNumbersNoWinners`).
- **Empty name with the filter on.** An empty name is displayed as `"No Name"` only
  when the message filter is off. With the filter on, it goes through the name
  transformation and is displayed as `""` (src/App.jsx:191, `DisplayNameOfEmpty`).
- **Whitelist separators.** The whitelist is split on commas only, so other
  separators stay inside a name (src/App.jsx:94).

## Model

| member | source | states |
|---|---|---|
| Text.Trim | src/App.jsx:52 | the trim is the slice of the string just after its leading whitespace; only whitespace follows it; it neither starts nor ends with whitespace |
| Text.BlankIffAllSpace | src/App.jsx:72 | `!rawData.trim()` holds exactly when every character of the text is whitespace |
| Text.TrimIdempotent | src/App.jsx:52 | trimming a trimmed line changes nothing |
| Text.TrimKeepsNonSpace | src/App.jsx:52 | a non-whitespace character occurs in the trimmed line exactly when it occurs in the line |
| Text.JoinSplit | src/App.jsx:51 | joining the pieces of `split("\n")` with `"\n"` gives back the text |
| Text.SplitJoin | src/App.jsx:194 | splitting a `"\n"`-join of pieces without line breaks gives back the pieces |
| Text.SplitSpacesConcat | src/App.jsx:8 | the words of `split(/\s+/)` concatenate to the string's non-whitespace characters, in order |
| Text.SplitSpacesOfTrimmed | src/App.jsx:8 | a non-empty trimmed string splits into non-empty words only |
| Text.IndexOf | src/App.jsx:58 | the result is -1 or a position where the pattern occurs, and the pattern occurs at no earlier position |
| Numbers.DecimalValueSign | src/App.jsx:57 | a leading `-` negates the value `parseFloat` reads; a leading `+` leaves it unchanged |
| Numbers.DecimalValueOfDigits | src/App.jsx:57 | a digit string reads as its integer value |
| Numbers.DecimalValueOfFraction | src/App.jsx:57 | a possibly empty run of digits, `.`, and at least one digit, read as the whole part plus the fraction digits over ten to the power of their count |
| Numbers.ParseIntNaN | src/App.jsx:82-83 | `parseInt` is NaN exactly when no digit follows the leading whitespace and an optional sign |
| Numbers.ParseIntNumeral | src/App.jsx:82 | `parseInt` reads back the numeral of every natural number, whatever non-digit text follows it |
| Lists.FilterPositions | src/App.jsx:53 | `filter` keeps exactly the elements that pass the test, in their original order, at increasing positions |
| Lists.FilterSubMultiset | src/App.jsx:122 | a filtered list is a sub-multiset of its input |
| Lists.FilterMapPositions | src/App.jsx:54-63 | mapping to an optional value and dropping the `null`s keeps exactly the present images, in order |
| Lists.FilterThenFilterMap | src/App.jsx:50-63 | filtering and then mapping-and-dropping keeps, at increasing positions of the input, exactly the elements that pass both steps |
| Parser.FindMatchIffDigit | src/App.jsx:55-56 | a line has a match exactly when it contains a digit |
| Parser.FindMatchIsLeftmostLongest | src/App.jsx:55 | the match is a number token; no longer token starts at its position; no token starts before it |
| Parser.NoMatchNoToken | src/App.jsx:55-61 | when there is no match, no number token occurs anywhere in the line |
| Parser.MatchLengthIsLongestToken | src/App.jsx:55 | the greedy length at a position is a token of the pattern, and no longer token starts there |
| Parser.MatchIsFirstOccurrence | src/App.jsx:55-58 | the matched text first occurs at the match, so `line.replace(match[0], "")` removes the match itself |
| Parser.ReplaceComma | src/App.jsx:57 | `replace(",", ".")` turns the first comma, and only that one, into a dot |
| Parser.NormalizedTokenIsDecimal | src/App.jsx:57 | every matched token, with its comma read as a dot, is a decimal text that `parseFloat` reads in full |
| Parser.LineEntry | src/App.jsx:54-61 | a trimmed line yields an entry exactly when it contains a digit; the entry keeps the line as its original and carries its index |
| Parser.LineEntryFields | src/App.jsx:55-59 | the entry's name is the line with the match cut out and trimmed; its number is the match's value |
| Parser.SignedEntryExample | src/App.jsx:55-59 | `"a-5"` is the entry named `a` with number -5: the sign belongs to the number |
| Parser.SeparatedEntryExample | src/App.jsx:55-59 | `"1.2.3"` is the entry named `.3` with number 1.2: only one separator is taken |
| Parser.HasDigitTrim | src/App.jsx:52-55 | trimming does not change whether a line holds a digit |
| Parser.ParsedIndices | src/App.jsx:49-63 | the entries come from increasing line positions; each entry's index is its line's position in the split text; every line holding a digit yields an entry |
| Parser.ParseRawDataSound | src/App.jsx:49-63 | every entry's index is a line of the raw text that holds a digit, and the entry is that trimmed line's entry |
| Parser.ParseRawDataComplete | src/App.jsx:49-63 | every line holding a digit has an entry with that line's index |
| Parser.ParseRawDataOrdered | src/App.jsx:52-63 | the entries are in input order with strictly increasing indices |
| Parser.ParsedOriginalIsOneLine | src/App.jsx:51-59 | no entry's original contains a line break |
| Parser.ParseRawDataNoDigits | src/App.jsx:49-63 | data none of whose lines holds a digit yields no entries |
| Names.TransformNameShape | src/App.jsx:7-17 | the result is the trimmed name up to its first whitespace, followed by a space and a letter exactly when the second word holds an ASCII letter; that letter is the word's first letter |
| Names.TransformNameIdempotent | src/App.jsx:7-17 | applying `transformName` to its own result changes nothing |
| Names.TransformNameOfWord | src/App.jsx:8-16 | a single word is kept as it is |
| Names.TransformNameOfInitial | src/App.jsx:8-16 | a word, a space and a letter are kept as they are |
| Names.TransformNameOfTwoWords | src/App.jsx:10-16 | two words give the first word plus the second word's first letter, or the first word alone when the second word has no letter |
| Names.TransformNameIgnoresLaterWords | src/App.jsx:10-11 | whatever text follows the second word (after a space, starting with a non-whitespace character) does not affect the result |
| Names.TransformNameKeepsInitial | src/App.jsx:13-16 | `"Ben Bcool98"` becomes `"Ben B"` |
| Names.TransformNameDropsDigits | src/App.jsx:13-16 | `"Ben 98"` becomes `"Ben"` |
| Names.TransformNameOfEmpty | src/App.jsx:8-16 | the empty name stays empty |
| Names.LettersOnlyFirst | src/App.jsx:13-14 | the letters-only string is empty exactly when the word has no ASCII letter; otherwise it starts with the word's first letter |
| Names.LettersOnlyKeepsLetters | src/App.jsx:13 | `replace(/[^a-zA-Z]/g, "")` keeps exactly the ASCII letters of the word |
| Names.DisplayName | src/App.jsx:191 | with the filter off, the display name is never empty and is the name itself when the name is not empty |
| Names.DisplayNameOfEmpty | src/App.jsx:191 | an empty name is displayed as `""` with the filter on and as `"No Name"` with it off |
| Duplicates.WhitelistArrayMembers | src/App.jsx:93-96 | a name is whitelisted exactly when it is non-empty and some comma-separated piece trims to it |
| Duplicates.WhitelistArrayTrimmed | src/App.jsx:93-96 | every whitelisted name is non-empty, has no whitespace at either end, and holds no comma |
| Duplicates.FilterDuplicates | src/App.jsx:99-116 | the two loops produce `Dedup`: the whitelisted entries in order, then the value kept under each key of `seen`, in key order |
| Duplicates.PushSeen | src/App.jsx:114-116 | the second loop appends the value of every key, in key order |
| Duplicates.KeysAreSeen | src/App.jsx:100-116 | the keys listed are exactly the keys of `seen` |
| Duplicates.KeysDistinct | src/App.jsx:105-106 | no key is listed twice |
| Duplicates.KeysInFirstOrder | src/App.jsx:105-106 | the keys are in the order in which their names first occur |
| Duplicates.SeenSpec | src/App.jsx:101-113 | `seen` has a key exactly for each name that occurs and is not whitelisted; it holds the first entry of that name, or the last one under mode "last" |
| Duplicates.SeenNamed | src/App.jsx:106-109 | every value in `seen` carries its key as its name |
| Duplicates.PassedSpec | src/App.jsx:102-103 | the entries passed straight through are exactly the whitelisted ones, in input order |
| Duplicates.DedupKeepsWhitelisted | src/App.jsx:102-116 | the output starts with every whitelisted entry in input order; no later entry is whitelisted |
| Duplicates.DedupOncePerName | src/App.jsx:99-116 | for each non-whitelisted name that occurs, the output holds its first entry (its last under "last") and no other entry of that name |
| Duplicates.DedupSubMultiset | src/App.jsx:99-116 | the output is a sub-multiset of the input: no entry is altered, invented or repeated |
| Ranking.ExactMatchesSpec | src/App.jsx:119-122 | the exact-match winners are exactly the entries whose number equals the target, in filtered order |
| Ranking.Dist | src/App.jsx:126-127 | the distance is non-negative and is the difference in one direction or the other |
| Ranking.CompareIsLexicographic | src/App.jsx:125-132 | the comparator orders by distance, then by index; it is zero only for equal distance and equal index; it is antisymmetric |
| Ranking.BeforeTotal | src/App.jsx:125-132 | any two entries are comparable |
| Ranking.BeforeTransitive | src/App.jsx:125-132 | the comparator's order is transitive |
| Ranking.RankedSorted | src/App.jsx:125-132 | the reference sort's result is sorted by the comparator |
| Ranking.SortedUnique | src/App.jsx:125-132 | two sorted permutations of index-keyed entries are equal |
| Ranking.RankedIsTheSortedPermutation | src/App.jsx:125-132 | the reference sort gives a sorted permutation, and every sorted permutation is that one |
| Ranking.RunEndSpec | src/App.jsx:140-146 | the tie scan stops at the first entry whose distance differs from the threshold; every entry before that has the threshold distance |
| Ranking.SelectWinners | src/App.jsx:133-148 | the slice and the tie-extension loop with its `break` compute `Selected` |
| Ranking.SelectedFirst | src/App.jsx:134-135 | under tie mode "first", the winners are the first `min(wCount, n)` sorted entries |
| Ranking.SelectedAll | src/App.jsx:136-147 | under "all", the winners are a sorted prefix holding the first `min(wCount, n)` entries; every extra winner is exactly as far as the last of those; the next entry is strictly farther |
| Winners.Validate | src/App.jsx:71-88 | the three checks set exactly the messages of `FormErrors`, and `hasError` is set exactly when the form is invalid |
| Winners.FormErrorsSpec | src/App.jsx:71-88 | each message is set exactly when its own check fails, whatever the others find; some message is set exactly when the form is invalid |
| Winners.HandleSubmit | src/App.jsx:67-153 | the handler, step by step, produces `Submit(form)` |
| Winners.SubmitRejectedIff | src/App.jsx:71-88 | a submission is rejected exactly when the data is blank, the winning number is NaN, or, outside exact-match mode, the count is NaN or below 1 |
| Winners.ExactIgnoresCountAndTies | src/App.jsx:81-88 | in exact-match mode the winner count and the tie mode do not affect the outcome |
| Winners.NoNumbersNoWinners | src/App.jsx:90-122 | a valid form whose data has no digit yields an empty winner list, not an error |
| Winners.SortIsDetermined | src/App.jsx:125-132 | any sorted arrangement of the filtered entries is the reference sort's result |
| Winners.WinnersAreEntries | src/App.jsx:99-148 | every winner is a parsed entry, unaltered, and no entry wins twice |
| Winners.SelectedPrefix | src/App.jsx:133-148 | the winners are a prefix of the sorted entries |
| Output.WinnerLineShape | src/App.jsx:192 | a winner line is `:W: `, the display name, and text ending in ` :W:` |
| Output.WinnersTextLines | src/App.jsx:189-194 | without line breaks in its lines, the winners text splits back into one line per winner, in order |
| Output.OriginalDataTextLines | src/App.jsx:196 | without line breaks in the originals, the original-data text splits back into them |
| Output.DifferencesTextLines | src/App.jsx:198-204 | without line breaks in its lines, the differences text splits back into one line per winner, in order |
| Output.PickedOriginalsLines | src/App.jsx:196 | the original-data text of a successful submission always splits back into the winners' original lines |

## Left out

- Floating point: numbers are exact decimals, and `Math.abs` differences are exact.
  IEEE rounding, infinities and `-0` are not modelled. `parseFloat` of the
  winning-number field is a parameter of the form: a `real`, or NaN.
- `show` (`${w.number}`) and `toFixed2` (`toFixed(2)`) are parameters. JavaScript's
  number-to-text algorithms are not modelled.
- The quirks of a plain JavaScript object used as `seen`, which the model treats as an
  ordinary map kept in insertion order:
  - Inherited names such as `"constructor"` and `"__proto__"` report as already
    present (src/App.jsx:105), so a non-whitelisted entry with such a name is
    dropped under mode "first".
  - Under mode "last", an entry named `"constructor"` (or another inherited name)
    is stored as an own key (src/App.jsx:109). An entry named `"__proto__"` is not:
    the assignment makes the entry the prototype of `seen` and adds no key, and
    `for…in` (src/App.jsx:114-116) then also enumerates the entry's fields `name`,
    `number`, `original` and `index`, pushing their values, which are not entries.
    The model stores such an entry as an ordinary key.
  - `for…in` enumerates integer-like keys such as `"7"` first, in ascending order.
    This order only matters for the order of the winners in exact-match mode,
    because the ranked mode re-sorts the entries.
- `Array.prototype.sort`: its algorithm and its in-place update are not modelled. The
  sort is specified by its result, which is unique because line indices are unique
  (`RankedIsTheSortedPermutation`).
- Strings are sequences of code points, not UTF-16 code units. `IsSpace` lists the
  whitespace characters that `trim` and `\s` remove.
- Numbers.ParseInt: values above 2^53 are exact integers here, not rounded.
- Names.TransformName: the `!words.length` branch cannot be taken, because `split`
  always returns at least one piece. It is kept in the function.
- Ranking.TieMode and Duplicates.DuplicateMode: only the two values the handler tells
  apart are modelled. Any tie mode other than "first" behaves as "all", and any
  duplicate mode other than "last" behaves as "first".
- React state:
  - On a rejected submission the previously shown winners stay on screen. The model
    returns only the errors (`Rejected`).
  - The timestamp (`new Date().toLocaleString()`) is left out.
  - The reset and preset buttons and the rendering are left out.
- The differences text reads the winning-number field at render time. The model takes
  that value as the `target` parameter of `DifferencesText`.
