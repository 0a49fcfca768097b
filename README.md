# Advent of Code solvers, modelled and verified in Dafny

This project models the puzzle solvers of a Rust Advent of Code repository:
- three days of the first collection (`src/days/`);
- five days of 2015;
- ten days of 2024.

Each solver turns a text input into a small structure and computes two answers.
The file-reading and printing wrappers are left out. Each day is one Dafny module in its own file, next to
`common.dfy`, which holds shared helpers:
- `Option`;
- Rust's `lines`, `split`, `trim`, `split_whitespace` and `parse`, over `seq<char>`;
- sums over sequences and sets;
- Rust's truncating division.

The files follow the form of the source:
- Pure Rust functions become Dafny functions, with lemmas about them.
- Loops become methods with invariants. Each such method is proved against a specification function whose own properties are proved as lemmas.
- A struct updated in place becomes a class. The day 12 `Region` is one.
- A buffer updated in place becomes an `array`. The 2015 day 6 light grid and the day 9 disk map are two.
- A panic (`unwrap` on a bad parse, an index out of range, a `usize` underflow) is the `None` case of an `Option`. Where the source's callers rule it out, it is a precondition instead.

| file | module | source |
|---|---|---|
| `days_day01.dfy` | `LocationLists` | `src/days/day01.rs` |
| `days_day02.dfy` | `Reports` | `src/days/day02.rs` |
| `days_day03.dfy` | `MulInstructions` | `src/days/day03.rs` |
| `y2015_day01.dfy` | `Floors` | `src/years/y2015/day01.rs` |
| `y2015_day02.dfy` | `GiftWrapping` | `src/years/y2015/day02.rs` |
| `y2015_day03.dfy` | `HouseVisits` | `src/years/y2015/day03.rs` |
| `y2015_day05.dfy` | `NiceStrings` | `src/years/y2015/day05.rs` |
| `y2015_day06.dfy` | `LightGrid` | `src/years/y2015/day06.rs` |
| `y2024_day04.dfy` | `WordSearch` | `src/years/y2024/day04.rs` |
| `y2024_day05.dfy` | `PageOrdering` | `src/years/y2024/day05.rs` |
| `y2024_day06.dfy` | `GuardPatrol` | `src/years/y2024/day06.rs` |
| `y2024_day07.dfy` | `Calibration` | `src/years/y2024/day07.rs` |
| `y2024_day08.dfy` | `Antinodes` | `src/years/y2024/day08.rs` |
| `y2024_day09.dfy` | `DiskCompaction` | `src/years/y2024/day09.rs` |
| `y2024_day10.dfy` | `HikingTrails` | `src/years/y2024/day10.rs` |
| `y2024_day11.dfy` | `Stones` | `src/years/y2024/day11.rs` |
| `y2024_day12.dfy` | `Garden` | `src/years/y2024/day12.rs` |
| `y2024_day13.dfy` | `ClawMachines` | `src/years/y2024/day13.rs` |

## Model

| member | source | states |
|---|---|---|
| Wrappers.AllSome | src/years/y2024/day10.rs:119-124 | collecting parses succeeds exactly when every parse does, keeping each value in place |
| Wrappers.MapAll | src/years/y2024/day13.rs:34-39 | mapping a fallible parse over a list succeeds exactly when it succeeds on every element, keeping each value in place |
| Text.ToDigit | src/years/y2024/day10.rs:122 | `to_digit(10)` succeeds exactly on '0'..'9', with a value below 10 |
| Text.DigitChar | src/years/y2024/day10.rs:122 | every digit value has a character that reads back as it |
| Text.IndexOf | src/years/y2015/day06.rs:74 | the index of the first occurrence of a character |
| Text.Split | src/years/y2015/day02.rs:22-23 | `split` on a character yields at least one piece and no piece holds the separator |
| Text.JoinSplit | src/years/y2015/day02.rs:22-23 | the pieces of a split rejoined with the separator give back the input |
| Text.SplitJoin | src/years/y2015/day02.rs:22-23 | splitting pieces joined with a separator they do not contain gives the pieces back |
| Text.IndexOfFirst | src/years/y2015/day06.rs:74 | the first occurrence is unique |
| Text.SplitOnce | src/years/y2015/day06.rs:74 | `split_once` on a character fails exactly when the character is absent, and otherwise splits at its first occurrence, the parts rejoining to the input |
| Text.FindFrom | src/years/y2024/day05.rs:113 | the search returns the first occurrence of a pattern at or after a position, and none only when there is none |
| Text.SplitOnceStr | src/years/y2024/day07.rs:100 | `split_once` on a string fails exactly when the pattern is absent, and otherwise splits at its first occurrence |
| Text.Lines | src/years/y2024/day06.rs:105 | `lines` yields no line holding a newline, and no lines exactly for empty input |
| Text.LinesIsSplit | src/years/y2024/day06.rs:105 | on input without a trailing newline or carriage returns, `lines` is `split('\n')` |
| Text.LeadingWhitespace | src/days/day01.rs:34 | the whitespace that `trim` removes at the front |
| Text.TrailingWhitespace | src/days/day01.rs:34 | the whitespace that `trim` removes at the back |
| Text.Trim | src/days/day01.rs:34 | `trim` returns a slice of the input that neither starts nor ends with whitespace, with only whitespace cut on either side |
| Text.SplitWhitespace | src/days/day02.rs:56 | `split_whitespace` yields only non-empty words free of whitespace |
| Text.SplitWhitespaceFirst | src/days/day02.rs:56 | after leading whitespace `split_whitespace` takes the word up to the next whitespace and goes on from there |
| Text.SplitWhitespaceLayout | src/days/day02.rs:56 | words laid out between any runs of whitespace (leading, separating, trailing) split back to exactly those words, in order: the words found are the maximal non-whitespace runs |
| Text.SeparatorsTail | src/days/day02.rs:56 | a layout without its first word is still a layout |
| Text.LeadingWhitespaceOf | src/days/day01.rs:34 | the leading whitespace of whitespace followed by a non-space is all of it |
| Text.WordLengthOf | src/days/day02.rs:56 | a word followed by whitespace or nothing has its own length |
| Text.StripAppend | src/days/day02.rs:56 | removing whitespace from joined text removes it from each part |
| Text.StripAllWhitespace | src/days/day02.rs:56 | whitespace alone leaves nothing |
| Text.StripWord | src/days/day02.rs:56 | a word has no whitespace to remove |
| Text.SplitWhitespaceConcat | src/days/day02.rs:56 | `split_whitespace` loses nothing but whitespace: its words joined together are the input with its whitespace removed |
| Text.WordLength | src/days/day02.rs:56 | a word runs up to the first whitespace |
| Text.SplitOnceWhitespace | src/days/day01.rs:37 | `split_once(char::is_whitespace)` fails exactly when the line holds no whitespace, and otherwise splits at the first whitespace character |
| Text.DigitOf | src/years/y2024/day09.rs:128 | the value of a digit character is below 10 |
| Text.ParseNat | src/days/day01.rs:38 | `parse::<usize>` accepts exactly a non-empty run of digits, optionally after one '+' |
| Text.ParseBounded | src/years/y2024/day05.rs:119 | `parse::<u8>` accepts exactly the numbers `parse::<usize>` accepts that fit below the bound |
| Text.ParseInt | src/years/y2024/day07.rs:101-106 | a signed parse is negative only after a leading '-'; after '-' it succeeds exactly on a non-empty run of digits, with the negated value; without '-' it agrees with the unsigned parse |
| Text.ParseMinusNatToString | src/years/y2024/day07.rs:101-106 | a '-' followed by the decimal rendering of a positive number parses to that number's negation |
| Text.ParseIntToString | src/years/y2024/day07.rs:101-106 | every integer, written with a '-' when negative, parses back to itself |
| Text.NatToString | src/years/y2024/day09.rs:133 | a number is written as digits without a leading zero |
| Text.DigitsValueOfNatToString | src/years/y2024/day09.rs:133 | the written digits have the number's value |
| Text.NatToStringHasNo | src/years/y2024/day09.rs:133 | a written number holds no separator |
| Text.ParseNatToString | src/years/y2024/day09.rs:133 | parsing a written number gives it back (`format!` then `parse`) |
| Text.ParseAllNats | src/days/day02.rs:56-57 | parsing a list of words succeeds only when each parses, one value per word, and fails only when some word does not |
| Text.ParseAllInts | src/years/y2024/day07.rs:104 | the same for signed numbers |
| Sums.SumAppend | src/days/day02.rs:29-34 | a sum over joined lists is the sum of the sums |
| Ints.TruncDiv | src/years/y2024/day13.rs:28 | integer division that truncates toward zero agrees with Euclidean division on non-negative operands |
| Ints.TruncRem | src/years/y2024/day13.rs:27 | the truncating remainder completes the truncating quotient, and agrees with Euclidean remainder on non-negative operands |
| Ints.TruncExact | src/years/y2024/day13.rs:27-28 | an exact multiple divides with no remainder, whatever the signs |
| SetSums.SetSumUnion | src/years/y2024/day12.rs:37-98 | a sum over disjoint sets is the sum of the sums |
| LocationLists.Insert | src/days/day01.rs:17-18 | inserting into a sorted list keeps it sorted and adds exactly the one element |
| LocationLists.ExampleOccurrencesThree | src/days/day01.rs:68-79 | 3 occurs three times in the example's right list |
| LocationLists.ExampleOccurrencesFour | src/days/day01.rs:68-79 | 4 occurs once |
| LocationLists.ExampleOccurrencesAbsent | src/days/day01.rs:68-79 | 0, 1 and 2 do not occur |
| Reports.ExampleValid | src/days/day02.rs:104-113 | the first and last example reports are valid |
| Reports.ExampleInvalid | src/days/day02.rs:104-113 | the other four are not |
| Reports.ExampleIntolerableRising | src/days/day02.rs:124-133 | the second example report is rejected by part 2 too |
| Reports.ExampleIntolerableFalling | src/days/day02.rs:124-133 | so is the third |
| Reports.ExampleTolerable | src/days/day02.rs:124-133 | the fourth and fifth are accepted once one level is removed |
| Reports.CountTolerableByFlags | src/days/day02.rs:36-51 | the part 2 count is the number of accepted reports |
| LocationLists.Sort | src/days/day01.rs:17-18 | the sorted list is in ascending order and holds the same numbers, counted with multiplicity, as the input |
| LocationLists.SortedUnique | src/days/day01.rs:17-18 | two ascending lists with the same numbers are equal, so the sorted order of a list is unique |
| LocationLists.SortOfSorted | src/days/day01.rs:17-18 | sorting a list that is already in order leaves it unchanged |
| LocationLists.TotalDistanceOrderFree | src/days/day01.rs:14-23 | the part 1 answer (sort both lists, pair them up, sum the absolute differences) depends only on which numbers each list holds, not on the order of the input lines |
| LocationLists.DistanceSymmetric | src/days/day01.rs:20-22 | swapping the two lists leaves the sum of absolute differences unchanged |
| LocationLists.DistanceSelf | src/days/day01.rs:20-22 | a list is at distance 0 from itself |
| LocationLists.SameNumbersNoDistance | src/days/day01.rs:14-23 | two lists holding the same numbers have total distance 0 |
| LocationLists.Occurrences | src/days/day01.rs:29 | counting the entries of list b equal to a gives the multiplicity of a in b |
| LocationLists.SimilarityAppend | src/days/day01.rs:28-30 | the similarity of a concatenation of left lists is the sum of their similarities |
| LocationLists.SimilarityOrderFree | src/days/day01.rs:25-31 | the part 2 similarity depends only on which numbers each list holds |
| LocationLists.SimilarityOtherList | src/days/day01.rs:29 | reordering the right list does not change the similarity |
| LocationLists.ParsePairs | src/days/day01.rs:36-39 | when every line parses, entry k of each list is the corresponding number on line k |
| LocationLists.SolvePart1 | src/days/day01.rs:14-23 | part 1 answers exactly when both lists parse, with their total distance after sorting |
| LocationLists.SolvePart2 | src/days/day01.rs:25-31 | part 2 answers exactly when both lists parse, with their similarity score |
| LocationLists.GetLists | src/days/day01.rs:33-41 | both lists get one entry per line of the trimmed input, so they have equal length |
| LocationLists.ExampleDistance | src/days/day01.rs:56-66 | the example lists, once sorted, are at distance 11 |
| LocationLists.ExampleSimilarity | src/days/day01.rs:68-79 | the example lists have similarity 31 |
| Reports.AscendingStrictlySorted | src/days/day02.rs:13-15 | in a report whose adjacent pairs all increase, every earlier level is below every later level |
| Reports.DescendingStrictlySorted | src/days/day02.rs:17-19 | in a report whose adjacent pairs all decrease, every earlier level is above every later level |
| Reports.ValidHasNoRepeats | src/days/day02.rs:25-27 | a valid report never repeats a level |
| Reports.ShortReportsValid | src/days/day02.rs:25-27 | a report of at most one level is valid, since it has no adjacent pairs |
| Reports.NotBothDirections | src/days/day02.rs:13-19 | a report of two or more levels cannot be both ascending and descending |
| Reports.ReverseSwapsDirections | src/days/day02.rs:13-19 | reversing a report turns ascending into descending and back |
| Reports.ReverseKeepsGaps | src/days/day02.rs:21-23 | reversing a report keeps it within the same gap bound, in both directions |
| Reports.ReverseKeepsValidity | src/days/day02.rs:25-27 | a report is valid exactly when its reverse is |
| Reports.RemoveAt | src/days/day02.rs:41-42 | removing index i keeps the levels before i and shifts the later ones down by one |
| Reports.CheckTolerable | src/days/day02.rs:39-49 | the loop over removal positions with early return answers true exactly when removing some single level leaves a valid report |
| Reports.ValidIsTolerable | src/days/day02.rs:39-49 | a nonempty valid report stays valid after removing its first level, so part 2 accepts it |
| Reports.EmptyReport | src/days/day02.rs:25-49 | the empty report is valid, but part 2 rejects it because the removal loop never runs |
| Reports.PairsAreTolerable | src/days/day02.rs:39-49 | every two-level report is accepted by part 2 |
| Reports.CountValid | src/days/day02.rs:29-34 | part 1 counts at most as many reports as there are |
| Reports.CountTolerable | src/days/day02.rs:36-51 | part 2 counts at most as many reports as there are |
| Reports.TolerantCountsMore | src/days/day02.rs:29-51 | when no report is empty, part 2 counts at least as many reports as part 1 |
| Reports.CountTolerableReports | src/days/day02.rs:36-51 | the filter-and-count loop returns the number of reports part 2 accepts |
| Reports.ParseReports | src/days/day02.rs:53-61 | parsing succeeds exactly when every word of every line is a number, and report k is then the numbers of line k |
| Reports.GetReports | src/days/day02.rs:53-61 | one report per line of the trimmed input |
| Reports.SolvePart1 | src/days/day02.rs:29-34 | part 1 answers exactly when the reports parse, with the number of valid reports |
| Reports.SolvePart2 | src/days/day02.rs:36-51 | fails exactly when parsing fails, and otherwise returns the number of reports part 2 accepts |
| Reports.AscendingExamples | src/days/day02.rs:69-76 | [1,1], [1,2,3,2] and [3,2,1] are not ascending, while [1,2] and [1,2,6,19] are |
| Reports.DescendingExamples | src/days/day02.rs:79-85 | [1,1] and [1,2,3,2] are not descending, while [2,1] and [10,8,6,4] are |
| Reports.TightExamples | src/days/day02.rs:88-94 | the gap-2 cases of the test give true, true, true, false, false |
| Reports.WideGapInvalid | src/days/day02.rs:21-27 | a report with an adjacent gap above 3 is invalid |
| Reports.ExampleCountValid | src/days/day02.rs:104-113 | two of the six example reports are valid |
| Reports.ExampleCountTolerable | src/days/day02.rs:124-133 | four of the six example reports are accepted by part 2 |
| Text.DigitRunLength | src/days/day03.rs:47-50 | the leading run of digits ends at the first non-digit |
| MulInstructions.Mult | src/days/day03.rs:46-53 | a product exists exactly when the text holds at least two digit runs; indexing `digits[1]` panics otherwise |
| Text.TakeRun | src/days/day03.rs:47-50 | a digit run followed by a non-digit is read as its decimal value, then the search goes on after it |
| MulInstructions.MultOfMatch | src/days/day03.rs:16-53 | on any text `mul(a,b)` the regex can match, `mult` returns a times b |
| MulInstructions.MultOfMul | src/days/day03.rs:46-53 | `mult` of the text of a multiplication instruction is its product |
| MulInstructions.NameOfInstruction | src/days/day03.rs:29 | the name before the first '(' of each matched instruction is "mul", "do" or "don't" |
| MulInstructions.Step | src/days/day03.rs:31-40 | `don't` disables and `do` enables, whatever the previous state; a disabled `mul` changes nothing; the sum changes only on an enabled `mul`; an unknown name panics |
| MulInstructions.SolvePart2 | src/days/day03.rs:22-44 | the accumulator loop, starting enabled with sum 0, fails exactly when the running specification fails, and otherwise returns its sum |
| MulInstructions.RunFailsAfter | src/days/day03.rs:39 | once an unknown instruction panics, the rest of the input does not matter |
| MulInstructions.StepOfText | src/days/day03.rs:31-40 | stepping on the text of an instruction never panics, and does what the instruction means |
| MulInstructions.Texts | src/days/day03.rs:23-24 | one matched text per instruction |
| MulInstructions.RunOfTexts | src/days/day03.rs:22-44 | running the loop over the texts of instructions gives the meaning of the instruction sequence |
| MulInstructions.Part1OfTexts | src/days/day03.rs:15-20 | part 1 sums the products of all multiplications |
| MulInstructions.Part2AtMostPart1 | src/days/day03.rs:15-44 | the enabled-only sum of part 2 never exceeds the sum of all products |
| MulInstructions.NoDontAgrees | src/days/day03.rs:22-44 | without a `don't`, part 2 stays enabled and equals part 1 |
| MulInstructions.EnabledByLastSwitch | src/days/day03.rs:37-38 | after the run, the flag is set by the last `do` or `don't` |
| MulInstructions.ExamplePart1 | src/days/day03.rs:68-72 | the matched multiplications of the part 1 example sum to 161 |
| MulInstructions.ExamplePart2 | src/days/day03.rs:82-86 | the matched instructions of the part 2 example give 48 |
| Floors.FloorCountsBrackets | src/years/y2015/day01.rs:13-15 | the final floor is the number of `(` minus the number of all other characters, each of which the fold counts as a step down |
| Floors.FloorStep | src/years/y2015/day01.rs:19-20 | the floor after reading character k is the floor before it plus that character's step |
| Floors.FirstBasement | src/years/y2015/day01.rs:17-26 | when the floor ever goes below 0, the loop returns the index at which it first reaches -1, with every earlier floor at least 0; when it never does, the loop returns 0 |
| Floors.FirstBasementIsLeast | src/years/y2015/day01.rs:17-26 | the returned index is the least at which the floor is below 0 |
| GiftWrapping.Min3 | src/years/y2015/day02.rs:44 | the minimum of three values is one of them and no larger than any |
| GiftWrapping.SmallestSide | src/years/y2015/day02.rs:43-45 | the smallest-face area is one of the three face areas and no larger than any |
| GiftWrapping.SmallestPerimeter | src/years/y2015/day02.rs:47-49 | the smallest perimeter is twice one of the three sums of two edges and no larger than any |
| GiftWrapping.Ribbon | src/years/y2015/day02.rs:51-53 | the ribbon is at least the volume of the box (the bow) |
| GiftWrapping.Ascending | src/years/y2015/day02.rs:43-49 | the three edges put in ascending order |
| GiftWrapping.AscendingPermutes | src/years/y2015/day02.rs:43-49 | the ascending order holds the same three edges |
| GiftWrapping.SmallestFaceIsTwoShortest | src/years/y2015/day02.rs:43-49 | the smallest face is spanned by the two shortest edges, and the smallest perimeter is twice their sum |
| GiftWrapping.RotationInvariant | src/years/y2015/day02.rs:39-53 | area, smallest face, smallest perimeter and ribbon do not change when the dimensions are rotated |
| GiftWrapping.ParseGiftBox | src/years/y2015/day02.rs:22-28 | a box is read exactly when every piece of the line split on 'x' is a number and there are at least three pieces (otherwise the source panics); its length, width and height are the first three pieces |
| GiftWrapping.ParseRender | src/years/y2015/day02.rs:22-28 | the line "LxWxH" of any box parses back to that box |
| GiftWrapping.ParseInput | src/years/y2015/day02.rs:21-30 | one box per '\n'-separated line |
| GiftWrapping.ParseLines | src/years/y2015/day02.rs:22-29 | parsing succeeds only when every line parses, and box k is then the box of line k |
| GiftWrapping.TotalPaper | src/years/y2015/day02.rs:13-15 | the part 1 fold equals the sum over all boxes of area plus smallest face |
| GiftWrapping.TotalRibbon | src/years/y2015/day02.rs:17-19 | the part 2 fold equals the sum over all boxes of their ribbon |
| GiftWrapping.TotalsAdd | src/years/y2015/day02.rs:13-19 | both totals over a concatenation of box lists are the sums of the totals over each |
| HouseVisits.FromChar | src/years/y2015/day03.rs:113-125 | a direction is read exactly from the four characters `^ > v <`, and each reads back as its own character; anything else panics |
| HouseVisits.FromToChar | src/years/y2015/day03.rs:113-125 | every direction's character parses back to that direction |
| HouseVisits.Value | src/years/y2015/day03.rs:102-111 | each direction moves one step along exactly one axis |
| HouseVisits.StepBack | src/years/y2015/day03.rs:102-111 | a step followed by the opposite step returns to the start, and the opposite is an involution with no fixed point |
| HouseVisits.ParseDirections | src/years/y2015/day03.rs:22-23 | parsing succeeds exactly when every character is a direction, and then gives direction k for character k |
| HouseVisits.ParseFailsAt | src/years/y2015/day03.rs:23 | one bad character anywhere makes the whole walk panic |
| HouseVisits.Trail | src/years/y2015/day03.rs:22-24 | one position per move, the last being where the walk ends |
| HouseVisits.TrailSnoc | src/years/y2015/day03.rs:24 | one more move appends the new position, one step from the previous end |
| HouseVisits.EndWithinReach | src/years/y2015/day03.rs:22-24 | after n moves the walker is at most n steps (Manhattan distance) from where it started |
| HouseVisits.DeliverAllKeys | src/years/y2015/day03.rs:26-33 | the houses in the map after a walk are the houses before and those on the trail |
| HouseVisits.DeliverAllCounts | src/years/y2015/day03.rs:26-33 | each house's count grows by the number of times the trail passes it |
| HouseVisits.Walk | src/years/y2015/day03.rs:22-34 | the present-delivering loop panics exactly when the input has a non-direction, and otherwise leaves the map holding one extra present per visit along the trail |
| HouseVisits.SolvePart1 | src/years/y2015/day03.rs:16-37 | panics exactly on a bad character, and otherwise returns the number of distinct houses visited, the origin included |
| HouseVisits.HousesBounds | src/years/y2015/day03.rs:16-37 | the part 1 answer is at least 1 (the origin) and at most one more than the number of moves |
| HouseVisits.DeliveriesCount | src/years/y2015/day03.rs:17-34 | the presents delivered are one at the origin and one per move, house by house, for `1 + n` in total |
| HouseVisits.Deal | src/years/y2015/day03.rs:45-46 | dealing panics exactly on an odd-length input, and otherwise gives Santa the even-indexed characters and Robo-Santa the odd-indexed ones |
| HouseVisits.InterleaveAt | src/years/y2015/day03.rs:46 | interleaving two hands puts hand a at even indices and hand b at odd indices |
| HouseVisits.DealInterleave | src/years/y2015/day03.rs:46 | interleaving the two dealt hands gives back the input, so dealing loses nothing |
| HouseVisits.HandsCoverInput | src/years/y2015/day03.rs:46 | every input character lands in exactly the hand its index parity says |
| HouseVisits.ParseDealt | src/years/y2015/day03.rs:46-66 | the input parses exactly when both hands parse |
| HouseVisits.SolvePart2 | src/years/y2015/day03.rs:39-79 | panics exactly on an odd length or a bad character, and otherwise returns the number of houses visited by either walker, both starting at the origin |
| HouseVisits.SharedHousesBounds | src/years/y2015/day03.rs:39-79 | the two walkers together visit at least as many houses as either alone, and at most one more than the total number of moves |
| NiceStrings.VowelCount | src/years/y2015/day05.rs:50-52 | the number of vowels is at most the length of the string |
| NiceStrings.VowelCountOccurrences | src/years/y2015/day05.rs:50-52 | the vowel count is the sum of the occurrences of a, e, i, o and u |
| NiceStrings.ContainsDuplicates | src/years/y2015/day05.rs:54-57 | the scan answers true exactly when some lower-case letter appears twice in a row, which is what a match of `([a-z])(\1)` is |
| NiceStrings.ContainsSandwich | src/years/y2015/day05.rs:40-43 | the scan answers true exactly when some lower-case letter repeats with one lower-case letter between, which is what a match of `([a-z])[a-z](\1)` is |
| NiceStrings.RepeatFrom | src/years/y2015/day05.rs:45-48 | looking onward from j over lower-case letters finds a second copy of the pair at i exactly when one exists |
| NiceStrings.PairsFrom | src/years/y2015/day05.rs:45-48 | trying every start from i finds a repeated pair exactly when one exists at or after i |
| NiceStrings.ContainsPairs | src/years/y2015/day05.rs:45-48 | true exactly when some two lower-case letters appear again later without overlap and with only lower-case letters between, which is what a match of `([a-z][a-z])[a-z]*(\1)` is |
| NiceStrings.PairsDoNotOverlap | src/years/y2015/day05.rs:46 | "aaa" has no repeated pair, because the two copies would overlap, while "aaaa" has one |
| NiceStrings.DoesNotContain | src/years/y2015/day05.rs:59-61 | true exactly when none of the patterns occurs in the string |
| NiceStrings.IsNice | src/years/y2015/day05.rs:36-38 | a string is nice exactly when every validator accepts it, so an empty list of validators accepts everything |
| NiceStrings.CountNice | src/years/y2015/day05.rs:22-25 | at most as many nice lines as lines |
| NiceStrings.CountNiceAppend | src/years/y2015/day05.rs:22-25 | the count over a concatenation of line lists is the sum of the counts |
| NiceStrings.CountNiceIsNiceLines | src/years/y2015/day05.rs:22-25 | the count is the number of indices whose line is nice, which is what the filter keeps |
| NiceStrings.NiceLengths | src/years/y2015/day05.rs:16-34 | a line nice by the part 1 rules has at least three characters, and one nice by the part 2 rules at least four |
| NiceStrings.ExampleNicePart1 | src/years/y2015/day05.rs:17-21 | "aaa" passes all three part 1 rules |
| NiceStrings.ExampleForbidden | src/years/y2015/day05.rs:20 | "haegwjzuvuyypxyu" is naughty because it contains "xy" |
| NiceStrings.ExampleNicePart2 | src/years/y2015/day05.rs:29 | "xxyxx" passes both part 2 rules |
| NiceStrings.SolvePart1 | src/years/y2015/day05.rs:16-26 | the answer is at most the number of lines |
| NiceStrings.SolvePart2 | src/years/y2015/day05.rs:28-34 | the answer is at most the number of lines |
| LightGrid.ToAction | src/years/y2015/day06.rs:55-71 | only "off", "on" and "toggle" name an action, and each names back its own word; any other word is unreachable in the source |
| LightGrid.Part1Switches | src/years/y2015/day06.rs:55-62 | under the part 1 operations every light stays 0 or 1, and toggling an on/off light twice leaves it unchanged |
| LightGrid.Part2Brightness | src/years/y2015/day06.rs:64-71 | in part 2, "off" undoes "on", never goes below 0 nor drops more than 1, and "toggle" is two "on"s |
| LightGrid.ToPoint | src/years/y2015/day06.rs:73-76 | a point is read only from text with a comma (`split_once` panics otherwise) |
| LightGrid.ToPointText | src/years/y2015/day06.rs:73-76 | the text "x,y" of any point reads back as that point and has no space |
| LightGrid.ParseCommandText | src/years/y2015/day06.rs:45-52 | the line written for any command ("turn on x,y through x,y", "toggle ...") parses back to that command |
| LightGrid.ParseWordsOf | src/years/y2015/day06.rs:47-50 | the words of a command, of either length 4 or 5, match back to the command |
| LightGrid.WordsHaveNoSpace | src/years/y2015/day06.rs:47 | no word of a command's line holds a space, so splitting on ' ' gives back the words |
| LightGrid.ParseInput | src/years/y2015/day06.rs:41-53 | the input parses exactly when every line parses, and command k is then that of line k |
| LightGrid.ParseLines | src/years/y2015/day06.rs:45-52 | parsing succeeds only when every line parses, and command k is then the command of line k |
| LightGrid.UncoveredStaysOff | src/years/y2015/day06.rs:8-14 | a light that no command's rectangle covers stays at its starting value 0 |
| LightGrid.Part1AtMostAll | src/years/y2015/day06.rs:16-17 | part 1 counts at most one per light of the h rows |
| LightGrid.RowAtMostAll | src/years/y2015/day06.rs:17 | one row contributes at most its width to part 1 |
| LightGrid.ApplyCommand | src/years/y2015/day06.rs:9-13 | the two nested loops apply the action to every light in the command's inclusive rectangle of the array and leave every other light as it was |
| LightGrid.RunCommands | src/years/y2015/day06.rs:8-14 | applying the commands in order to an all-off grid fails exactly when some command indexes outside the 1000 by 1000 grid, and otherwise leaves each light at the value the command sequence gives it |
| LightGrid.AddUp | src/years/y2015/day06.rs:16-34 | the row-by-row fold over the array returns the number of lights on (part 1) or the total brightness (part 2) |
| LightGrid.Solve | src/years/y2015/day06.rs:4-35 | fails exactly when the input does not parse or a command reaches outside the grid, and otherwise returns the total over the whole grid after every command |
| WordSearch.Add | src/years/y2024/day04.rs:25-35 | moving a position by a direction fails exactly when a coordinate would go negative (the `usize` conversion error), and otherwise adds the offsets |
| WordSearch.ToMatrix | src/years/y2024/day04.rs:71 | splitting on '\n' always gives at least one row |
| WordSearch.GetRow | src/years/y2024/day04.rs:50-55 | a row is found exactly when its index is in range, and it is that row |
| WordSearch.GetCell | src/years/y2024/day04.rs:42-48 | a cell is found exactly when its row exists and is long enough, and it is that character |
| WordSearch.XmasStartsOnX | src/years/y2024/day04.rs:78-80 | every spelling of XMAS starts on an 'X' cell of the matrix |
| WordSearch.MatchAlong | src/years/y2024/day04.rs:80-104 | the character loop, which gives up on the first failed move, missing cell or mismatch, counts a match exactly when all four cells along the direction exist and read X, M, A, S |
| WordSearch.DirectionsMatching | src/years/y2024/day04.rs:79-105 | at most one match per direction tried |
| WordSearch.SearchDirections | src/years/y2024/day04.rs:79-105 | the loop over the eight directions returns the number of directions that spell XMAS from the cell |
| WordSearch.SolvePart1 | src/years/y2024/day04.rs:74-110 | the nested loops over rows and cells return the number of (cell, direction) pairs that spell XMAS, searched from 'X' cells only |
| WordSearch.OnlyFromX | src/years/y2024/day04.rs:78 | no direction spells XMAS from a cell that is not 'X', so searching only from 'X' loses no match |
| WordSearch.CellsBound | src/years/y2024/day04.rs:76-108 | a row holds at most eight matches per 'X' in it |
| WordSearch.CountXmasBound | src/years/y2024/day04.rs:74-110 | part 1 counts at most eight matches per 'X' in the matrix |
| WordSearch.CrossesInRow | src/years/y2024/day04.rs:126-146 | a row's count of crossed MAS over cells 1 to n-1 is at most n |
| WordSearch.CrossesInRowNext | src/years/y2024/day04.rs:127-145 | one more cell adds one when it is an 'A' at the centre of a crossed MAS, and nothing otherwise |
| WordSearch.CellsFailAfter | src/years/y2024/day04.rs:134-135 | once a diagonal lookup panics, the whole row panics |
| WordSearch.RowsFailAfter | src/years/y2024/day04.rs:124-126 | once a row panics, the whole of part 2 panics |
| WordSearch.SolvePart2 | src/years/y2024/day04.rs:113-150 | the loops over interior rows and cells fail exactly where the source panics (an empty matrix or row underflows `len() - 1`, a diagonal lookup off the matrix unwraps an error), and otherwise count the crossed MAS |
| WordSearch.CountRowCrosses | src/years/y2024/day04.rs:126-146 | the loop over the interior cells of one row gives the row's count, or fails where a lookup panics |
| WordSearch.InteriorCrossing | src/years/y2024/day04.rs:127-144 | on an interior cell of a rectangular matrix nothing panics, and the cell counts exactly when each diagonal reads M and S, one at each end |
| WordSearch.RectangularRow | src/years/y2024/day04.rs:126-146 | an interior row of a rectangular matrix never panics |
| WordSearch.RectangularRows | src/years/y2024/day04.rs:124-147 | the interior rows of a rectangular matrix never panic |
| WordSearch.RectangularCountXMas | src/years/y2024/day04.rs:113-150 | part 2 never panics on a non-empty rectangular matrix |
| PageOrdering.BuildRulesMeaning | src/years/y2024/day05.rs:121-130 | the fold puts page b in the map exactly when some rule ends in b, and a in the set of b exactly when "a\|b" is a parsed rule; no set is empty |
| PageOrdering.IsValid | src/years/y2024/day05.rs:50-62 | the loop with early return answers true exactly when no page is followed later in the update by a page that one of its rules says must come before it |
| PageOrdering.Position | src/years/y2024/day05.rs:78 | `position` finds a page exactly when it is present, and then at its first occurrence |
| PageOrdering.PositionAt | src/years/y2024/day05.rs:78 | the first occurrence of a page is where `position` finds it |
| PageOrdering.IndexAfter | src/years/y2024/day05.rs:78-81 | the index just after a placed page, which is 0 exactly when the page is not placed |
| PageOrdering.MaxIndexUnique | src/years/y2024/day05.rs:75-84 | the maximum insertion index over a set of rule pages is unique |
| PageOrdering.MaxIndex | src/years/y2024/day05.rs:75-84 | `.max().unwrap()` over a non-empty set of rule pages: at least every page's index, reached by one of them, and within the result |
| PageOrdering.MaxInsertIndex | src/years/y2024/day05.rs:75-84 | the loop over the rule pages returns that maximum |
| PageOrdering.Insert | src/years/y2024/day05.rs:71-85 | `insert` puts the page at the index and keeps every other page, one longer |
| PageOrdering.MakeValid | src/years/y2024/day05.rs:64-89 | the reordered update holds exactly the pages of the update, with multiplicity |
| PageOrdering.MakeValidMethod | src/years/y2024/day05.rs:64-89 | the loop over the pages builds that reordering |
| PageOrdering.MakeValidStep | src/years/y2024/day05.rs:67-86 | placing one more page puts it at the front when it has no rules, and otherwise just after the last of its rule pages already placed |
| PageOrdering.InsertedAfterRulePages | src/years/y2024/day05.rs:75-85 | every already-placed page that must precede the inserted page stays in front of it |
| PageOrdering.Mid | src/years/y2024/day05.rs:38-42 | the middle page is a page of the update |
| PageOrdering.ValidUpdates | src/years/y2024/day05.rs:100-106 | the kept updates are valid updates of the input, no more of them than updates |
| PageOrdering.InvalidUpdates | src/years/y2024/day05.rs:92-98 | the kept updates are invalid updates of the input, and stay non-empty when the input's are |
| PageOrdering.FiltersPartition | src/years/y2024/day05.rs:92-106 | every update lands in exactly one of the two filters |
| PageOrdering.ParseRules | src/years/y2024/day05.rs:115-120 | one rule per line, or a failure where `split_once` or a `u8` parse panics |
| PageOrdering.ParsePages | src/years/y2024/day05.rs:136-138 | one page per comma-separated piece |
| PageOrdering.ParseUpdates | src/years/y2024/day05.rs:132-140 | one update per line, each with at least one page |
| PageOrdering.ParseModel | src/years/y2024/day05.rs:112-143 | a parsed model has no empty rule set and no empty update |
| PageOrdering.Reordered | src/years/y2024/day05.rs:26-30 | one reordered update per invalid update, with the same pages |
| PageOrdering.SumOfMidsCons | src/years/y2024/day05.rs:31 | the fold adds the middle page of each update in turn |
| PageOrdering.SolvePart1 | src/years/y2024/day05.rs:16-22 | part 1 answers exactly when the model parses, with the sum of the middle pages of the updates already in order |
| PageOrdering.SolvePart2 | src/years/y2024/day05.rs:24-32 | fails exactly when parsing panics, and otherwise returns the sum of the middle pages of the reordered invalid updates |
| PageOrdering.SumReordered | src/years/y2024/day05.rs:26-31 | the loop reorders each update and adds its middle page |
| GuardPatrol.Turn | src/years/y2024/day06.rs:85-92 | a right turn always changes the direction |
| GuardPatrol.FourTurns | src/years/y2024/day06.rs:85-92 | four right turns face the guard the way it started |
| GuardPatrol.Forward | src/years/y2024/day06.rs:94-101 | a step forward moves exactly one cell along one axis |
| GuardPatrol.ForwardAndBack | src/years/y2024/day06.rs:85-101 | a step forward is undone by a step after two right turns |
| GuardPatrol.WithObstacle | src/years/y2024/day06.rs:36-39 | the chosen cell becomes '#' (and is added if it was off the map), and every other cell keeps its character |
| GuardPatrol.Step | src/years/y2024/day06.rs:73-79 | the guard stays and turns right exactly when the cell ahead is an obstacle, and otherwise moves forward facing the same way |
| GuardPatrol.VisitedWithin | src/years/y2024/day06.rs:66-83 | the positions collected are cells of the map, and include the starting position exactly when it is on the map |
| GuardPatrol.FuelMonotone | src/years/y2024/day06.rs:71-80 | once the walk has left the map, more passes of the loop change nothing |
| GuardPatrol.CombineStep | src/years/y2024/day06.rs:71-80 | one pass of the loop body adds the current position and continues from the stepped state |
| GuardPatrol.GetVisitedPositions | src/years/y2024/day06.rs:66-83 | the while loop returns the set of positions the walk visits before leaving the map, or fails when the pass bound runs out first |
| GuardPatrol.AheadShrinks | src/years/y2024/day06.rs:59 | a step forward leaves fewer map cells ahead of the guard |
| GuardPatrol.TurnStateIn | src/years/y2024/day06.rs:56 | every (position, direction) pair `is_loop` records is one of finitely many |
| GuardPatrol.IsLoop | src/years/y2024/day06.rs:41-64 | the endless loop ends: each turn records a new pair and each step leaves fewer cells ahead; it answers false when the guard would step off the map, and true when it meets an obstacle from a pair it has already recorded |
| GuardPatrol.NoLoopLeavesMap | src/years/y2024/day06.rs:41-83 | when `is_loop` answers false, the patrol from the same state leaves the map, so `get_visited_positions` finishes |
| GuardPatrol.SolvePart1 | src/years/y2024/day06.rs:17-21 | the number of distinct positions the guard visits before leaving the map |
| GuardPatrol.SolvePart2 | src/years/y2024/day06.rs:23-34 | the number of visited positions where an added obstacle makes the guard loop |
| GuardPatrol.CountLoops | src/years/y2024/day06.rs:27-33 | the filter-and-count over the visited set, in any order, counts the candidates whose obstacle makes the guard loop |
| GuardPatrol.LoopObstaclesAdd | src/years/y2024/day06.rs:29-33 | one more candidate adds one exactly when its obstacle makes the guard loop |
| GuardPatrol.LoopObstaclesBound | src/years/y2024/day06.rs:23-34 | part 2 never counts more obstacles than part 1 counts positions |
| GuardPatrol.GetStartPosition | src/years/y2024/day06.rs:113-118 | returns a cell holding '^' when there is one, and panics exactly when there is none |
| GuardPatrol.ParseInput | src/years/y2024/day06.rs:103-111 | the map has a key (x, y) exactly for each character of each line, holding that character |
| Calibration.Multiplier | src/years/y2024/day07.rs:34-48 | the multiplier is a power of ten above every positive value (so 10 to its digit count), and 1 for a value that is not positive |
| Calibration.ComputeMultiplier | src/years/y2024/day07.rs:34-38 | the divide-by-ten loop computes that multiplier |
| Calibration.ShouldContinue | src/years/y2024/day07.rs:14-51 | the backward test panics only for `Divide` by a zero value (`a % 0`) |
| Calibration.IsSolvable | src/years/y2024/day07.rs:81-94 | an empty list panics on `len() - 1`, and a single value is solvable exactly when it is the target |
| Calibration.ResultsPositive | src/years/y2024/day07.rs:81-94 | every left-to-right evaluation of positive values is positive |
| Calibration.ApplyPositive | src/years/y2024/day07.rs:11-51 | `+`, `*` and concatenation of positive numbers are positive |
| Calibration.Inverse | src/years/y2024/day07.rs:10-52 | for positive numbers, each backward operation continues and lands on acc exactly when its forward operator takes acc and the last value to the target |
| Calibration.InverseScaled | src/years/y2024/day07.rs:21-50 | `acc * m + r` equals the target exactly when truncating division by m gives acc and leaves r |
| Calibration.ConcatenateRoundTrip | src/years/y2024/day07.rs:32-51 | concatenating b onto x and undoing it gives x back |
| Calibration.SolvableIffReachable | src/years/y2024/day07.rs:81-94 | on positive values the backward search never panics, and answers true exactly when some choice of operators, evaluated left to right, yields the target |
| Calibration.TryOpsIffFits | src/years/y2024/day07.rs:91-93 | the `any` over the operations answers true exactly when some remaining operation undoes into a reachable target |
| Calibration.ResultsGrow | src/years/y2024/day07.rs:64-79 | allowing more operators only adds reachable targets |
| Calibration.ParseEquationMeaning | src/years/y2024/day07.rs:99-108 | a line parses exactly when it has ": ", an integer before it and integers after it, one value per word |
| Calibration.SolvePart1 | src/years/y2024/day07.rs:64-70 | part 1 panics when a line does not parse, and otherwise is the sum of the targets solvable with `+` and `*` (panicking where `is_solveable` does) |
| Calibration.SolvePart2 | src/years/y2024/day07.rs:72-79 | part 2 is the same sum with `||` added; on positive values neither part panics and part 2 is at least part 1 |
| Calibration.ParseInput | src/years/y2024/day07.rs:96-110 | the input parses exactly when every line does, and equation k is then that of line k |
| Calibration.Part1AtMostPart2 | src/years/y2024/day07.rs:64-79 | on positive values neither part panics, and part 2's sum is at least part 1's |
| Calibration.ExampleProduct | src/years/y2024/day07.rs:120 | "190: 10 19" is solved by multiplication |
| Calibration.ExampleUnsolvable | src/years/y2024/day07.rs:122 | "83: 17 5" has no solution, even with concatenation |
| Calibration.ExampleConcatenation | src/years/y2024/day07.rs:123 | "156: 15 6" is unsolvable in part 1 and solved by concatenation in part 2 |
| Antinodes.Delta | src/years/y2024/day08.rs:78-83 | the delta is the step that takes the other antenna to this one |
| Antinodes.AntinodeReflects | src/years/y2024/day08.rs:73-76 | the antinode is the mirror image of the other antenna through this one, one more delta along the same line |
| Antinodes.ChangedAreFound | src/years/y2024/day08.rs:30-59 | the cells the marking has changed are exactly the eligible cells it has reached |
| Antinodes.Visit | src/years/y2024/day08.rs:30-59 | reaching a cell marks it '#' and counts it exactly when it is still eligible (not yet '#' in part 1, still '.' in part 2), so no cell is counted twice |
| Antinodes.RowAntinodesMeaning | src/years/y2024/day08.rs:24-34 | the inner loop for antenna a reaches exactly the antinodes of a with each other antenna of the prefix |
| Antinodes.PrefixAntinodesMeaning | src/years/y2024/day08.rs:23-35 | the outer loop over the first antennas reaches exactly the antinodes of their ordered pairs |
| Antinodes.PairAntinodesMeaning | src/years/y2024/day08.rs:23-35 | one frequency's antinodes are those of its ordered pairs of distinct antennas |
| Antinodes.MarkRow | src/years/y2024/day08.rs:24-34 | the `for b` loop marks the antinodes of antenna a and keeps the marking invariant |
| Antinodes.MarkPair | src/years/y2024/day08.rs:25-33 | one pair skips a == b and otherwise visits its antinode |
| Antinodes.MarkFrequency | src/years/y2024/day08.rs:23-35 | all pairs of one frequency are visited |
| Antinodes.AntinodesOfAdd | src/years/y2024/day08.rs:22 | one more frequency adds its pairs' antinodes |
| Antinodes.SolvePart1 | src/years/y2024/day08.rs:18-39 | in any order of the frequencies, part 1 counts the distinct grid cells, not already '#', that are the antinode of some pair of same-frequency antennas, and so at most the grid's size |
| Antinodes.StepMovesAlong | src/years/y2024/day08.rs:60 | each step of a non-zero delta moves strictly further along it |
| Antinodes.BeyondShrinks | src/years/y2024/day08.rs:55-61 | fewer grid cells lie ahead after each step, so the while loop ends for a non-zero delta |
| Antinodes.RayOnLine | src/years/y2024/day08.rs:53-61 | every cell of a ray is a grid cell a whole number of steps from its start |
| Antinodes.WalkRay | src/years/y2024/day08.rs:53-61 | the while loop marks every cell of the ray until it leaves the grid |
| Antinodes.RowLinesMeaning | src/years/y2024/day08.rs:48-62 | the inner loop for antenna a walks exactly the rays of a away from each other antenna of the prefix |
| Antinodes.PrefixLinesMeaning | src/years/y2024/day08.rs:46-63 | the outer loop walks exactly the rays of the ordered pairs from the first antennas |
| Antinodes.PairLinesMeaning | src/years/y2024/day08.rs:46-63 | one frequency's lines are the rays of its ordered pairs of distinct antennas |
| Antinodes.RowLinesNext | src/years/y2024/day08.rs:49-61 | one more antenna b adds its ray unless b is a |
| Antinodes.WalkRow | src/years/y2024/day08.rs:48-62 | the `for b` loop of part 2 walks the rays of antenna a |
| Antinodes.WalkPair | src/years/y2024/day08.rs:49-61 | one pair skips a == b and otherwise walks its ray |
| Antinodes.WalkFrequency | src/years/y2024/day08.rs:46-63 | all rays of one frequency are walked, and the count grows by one per antenna besides the marked cells |
| Antinodes.LinesOfAdd | src/years/y2024/day08.rs:45 | one more frequency adds its lines |
| Antinodes.DistinctElements | src/years/y2024/day08.rs:96-100 | a list of distinct antennas has as many cells as entries |
| Antinodes.CellsOfAdd | src/years/y2024/day08.rs:96-100 | one more frequency adds as many antenna cells as it has antennas |
| Antinodes.FrequencyStep | src/years/y2024/day08.rs:45-64 | one pass of the frequency loop adds the frequency's antennas and its lines |
| Antinodes.Part2Total | src/years/y2024/day08.rs:41-67 | after all frequencies, the count is the number of antennas plus the '.' cells on some line |
| Antinodes.AntennaCellsAndDots | src/years/y2024/day08.rs:41-67 | antennas and marked '.' cells together are at most the grid's size |
| Antinodes.SolvePart2 | src/years/y2024/day08.rs:41-67 | in any order of the frequencies, part 2 counts every antenna once plus the distinct '.' cells on a ray from an antenna away from another of its frequency, and so at most the grid's size |
| Antinodes.AntinodeStartsRay | src/years/y2024/day08.rs:52-55 | the part 1 antinode, when on the grid, is the first cell of part 2's ray, so every part 1 antinode on a '.' is counted in part 2 |
| Antinodes.RowMajorDistinct | src/years/y2024/day08.rs:89-104 | antennas listed in scan order are distinct |
| Antinodes.ParseInput | src/years/y2024/day08.rs:85-107 | the grid holds every character of the trimmed input at its (x, y), and the antenna lists hold, for each character other than '.', exactly its cells in scan order |
| Antinodes.ParseLine | src/years/y2024/day08.rs:90-103 | one line adds its cells to the grid and its antennas to the lists |
| Antinodes.AddCell | src/years/y2024/day08.rs:91-102 | one cell is inserted into the grid and, unless it is '.', appended to its frequency's list, keeping the lists in scan order |
| DiskCompaction.ToBlocks | src/years/y2024/day09.rs:123-139 | the disk map expands exactly when every character is a decimal digit (otherwise the source panics), into as many blocks as the digits add up to |
| DiskCompaction.Repeat | src/years/y2024/day09.rs:131-134 | a run of `d` copies of one block is `d` blocks long |
| DiskCompaction.RepeatCount | src/years/y2024/day09.rs:131-134 | a run of `d` copies of `x` holds `d` copies of `x` and nothing else |
| DiskCompaction.ToBlocksLast | src/years/y2024/day09.rs:123-137 | the blocks of a digit string are the blocks of all its digits but the last, followed by the run the last digit describes |
| DiskCompaction.ToBlocksFileSize | src/years/y2024/day09.rs:127-136 | file `k` occupies as many blocks as the digit at position `2k`, and a file id past the map occupies none |
| DiskCompaction.ChecksumsAgree | src/years/y2024/day09.rs:17-20 | on a disk with no free blocks the part 2 checksum (free blocks count 0) equals the part 1 checksum of its ids |
| DiskCompaction.AllFilesKeepLength | src/years/y2024/day09.rs:26-32 | a disk with no free blocks has one id per block |
| DiskCompaction.FileIdsAppend | src/years/y2024/day09.rs:26-32 | the ids of two joined disk pieces are the ids of each piece, in order |
| DiskCompaction.FreeHasNoIds | src/years/y2024/day09.rs:29 | a run of free blocks contributes no ids |
| DiskCompaction.SkipFree | src/years/y2024/day09.rs:47-49 | the backward skip over free blocks stops on the last file block at or before `j`, every block it passed is free, and it fails (the `j -= 1` underflow) only when blocks `0..=j` are all free |
| DiskCompaction.CompactAsWrittenDuplicates | src/years/y2024/day09.rs:40-57 | as written, `compact` keeps taking blocks from the right after the two cursors have crossed inside a free run, so "11111" compacts to ids 0 2 1 1 (checksum 7) instead of 0 2 1 (checksum 4) |
| DiskCompaction.ExpandOnes | src/years/y2024/day09.rs:123-139 | "11111" expands to file 0, free, file 1, free, file 2 |
| DiskCompaction.CompactAsWrittenUnderflows | src/years/y2024/day09.rs:46-51 | as written, a disk that ends in free blocks behind its only file makes `j` step below 0, while the corrected compaction returns the single id |
| DiskCompaction.Back | src/years/y2024/day09.rs:47-49 | the corrected backward skip never passes the left cursor: it lands on a file block, or on the left cursor itself, and every block it passed is free |
| DiskCompaction.IdsInSplit | src/years/y2024/day09.rs:40-57 | the ids of a block range are the ids of its two halves, in order |
| DiskCompaction.IdsInFree | src/years/y2024/day09.rs:46-49 | a free range holds no ids |
| DiskCompaction.IdsInAll | src/years/y2024/day09.rs:40-57 | the ids of the range `i..` are the ids of that suffix of the disk |
| DiskCompaction.LastFileIds | src/years/y2024/day09.rs:46-51 | the id taken from the right is the last id of the range between the cursors |
| DiskCompaction.CountIsMultiplicity | src/years/y2024/day09.rs:40-57 | counting occurrences agrees with multiset multiplicity |
| DiskCompaction.CompactFromPermutes | src/years/y2024/day09.rs:40-57 | each id occurs in the compacted range as often as among the blocks between the cursors |
| DiskCompaction.CompactFromLength | src/years/y2024/day09.rs:40-57 | compaction of a range yields at most one id per block |
| DiskCompaction.CompactFromKeepsFile | src/years/y2024/day09.rs:53 | a file block that compaction reaches from the left keeps its position |
| DiskCompaction.CompactIsRearrangement | src/years/y2024/day09.rs:35-60 | the compacted disk is a rearrangement of the disk's file ids (the same ids, each as often, no more and no fewer), and every file block the left cursor reaches stays in place |
| DiskCompaction.SkipBack | src/years/y2024/day09.rs:47-49 | the skip loop computes the corrected backward skip |
| DiskCompaction.CompactFromFile | src/years/y2024/day09.rs:53 | one step of the corrected loop at a file block: its id is pushed and the left cursor moves on |
| DiskCompaction.CompactFromFree | src/years/y2024/day09.rs:45-51 | one step of the corrected loop at a free block: the loop ends when the skip from the right reaches the left cursor, and otherwise the id of the file block the skip lands on is pushed and both cursors move |
| DiskCompaction.CompactBlocks | src/years/y2024/day09.rs:35-60 | the two-cursor loop with the cursor check the source lacks computes the corrected compaction, hence (with CompactIsRearrangement) a rearrangement of the file ids |
| DiskCompaction.CompactAsWrittenFromShape | src/years/y2024/day09.rs:40-57 | the loop as written pushes at most one id per step of the left cursor, each the id of a file block, and a file block the left cursor reaches is pushed at its own position |
| DiskCompaction.CompactAsWrittenShape | src/years/y2024/day09.rs:35-60 | `compact` as written panics on an empty disk (`blocks.len() - 1`); otherwise it yields at most one id per block, each a file id of the disk, with every file block the left cursor reaches in place |
| DiskCompaction.CompactWritten | src/years/y2024/day09.rs:35-60 | the two-cursor loop exactly as written, with its inner free skip and its `j -= 1` underflows as panics, computes `compact` as written |
| DiskCompaction.BackOfSkip | src/years/y2024/day09.rs:47-49 | the corrected skip is the skip as written, stopped at the left cursor |
| DiskCompaction.CompactAsWrittenFromPrefix | src/years/y2024/day09.rs:40-57 | the loop as written first pushes exactly the corrected compaction; it differs only by what it pushes after the cursors cross |
| DiskCompaction.CompactAsWrittenKeepsIds | src/years/y2024/day09.rs:35-60 | when `compact` as written does not panic, every file id of the disk is among its result, at least as often |
| DiskCompaction.PrefixMultiset | src/years/y2024/day09.rs:35-60 | the ids of a prefix occur in the whole result at least as often |
| DiskCompaction.CompactAsWrittenAgrees | src/years/y2024/day09.rs:35-60 | `compact` as written equals the corrected compaction exactly when it does not panic and pushes one id per file block |
| DiskCompaction.SolvePart1 | src/years/y2024/day09.rs:14-21 | part 1 answers exactly when the map is all digits and `compact` as written does not panic; its answer is the checksum of `compact` as written, which is the corrected checksum whenever one id per file block is pushed |
| DiskCompaction.SolvePart1Examples | src/years/y2024/day09.rs:14-21 | part 1 as written answers 7 on "11111" (the corrected compaction gives 4), and panics on the empty map and on "12" |
| DiskCompaction.ExpandOneTwo | src/years/y2024/day09.rs:123-139 | "12" expands to file 0 followed by two free blocks |
| DiskCompaction.FindFreeRun | src/years/y2024/day09.rs:88-111 | the slot search returns the leftmost run of free blocks before the file that is long enough for it, and reports none only when no such run exists |
| DiskCompaction.SwapRanges | src/years/y2024/day09.rs:104-106 | swapping two ranges keeps the disk's length |
| DiskCompaction.SwapRangesCounts | src/years/y2024/day09.rs:104-106 | swapping two ranges keeps the number of each block |
| DiskCompaction.SwapRangesPermutes | src/years/y2024/day09.rs:104-106 | swapping two ranges rearranges the disk |
| DiskCompaction.SwapRangesFrame | src/years/y2024/day09.rs:104-106 | blocks outside both ranges are left alone |
| DiskCompaction.SwapRangesTrade | src/years/y2024/day09.rs:104-106 | for disjoint ranges, the file lands in the free run and the free run where the file was |
| DiskCompaction.MoveFile | src/years/y2024/day09.rs:104-106 | the swap loop performs the range swap in place, rearranging the disk |
| DiskCompaction.Swap | src/years/y2024/day09.rs:105 | `swap` exchanges two blocks and changes nothing else |
| DiskCompaction.TryMove | src/years/y2024/day09.rs:88-111 | one move attempt rearranges the disk and leaves a file at block 0 in place |
| DiskCompaction.Compact2 | src/years/y2024/day09.rs:62-121 | whole-file compaction fails on an empty disk, succeeds when the disk starts with a file, yields a rearrangement of the disk of the same length, and tries each file id at most once |
| DiskCompaction.ToBlocksStartsWithFile | src/years/y2024/day09.rs:127-135 | a map whose first digit is not zero starts with a block of file 0 |
| DiskCompaction.RepeatElements | src/years/y2024/day09.rs:131-134 | every block of a run is the repeated block |
| DiskCompaction.SolvePart2 | src/years/y2024/day09.rs:23-33 | part 2 answers only on an all-digit map, always answers when the map is non-empty and does not start with '0', and its answer is the checksum of a rearrangement of the expanded disk |
| HikingTrails.ParseRow | src/years/y2024/day10.rs:122 | a line parses exactly when every character is a decimal digit, into one height 0..9 per character |
| HikingTrails.ParseRows | src/years/y2024/day10.rs:119-124 | the map parses exactly when every line does, one row per line |
| HikingTrails.ParseInput | src/years/y2024/day10.rs:119-124 | the map parses exactly when every line of the input does, one row per line |
| HikingTrails.ParsedHeights | src/years/y2024/day10.rs:119-124 | every height of a parsed map is at most 9 |
| HikingTrails.OutOfBoundsOnSquareMaps | src/years/y2024/day10.rs:24-27 | on a square map the source's bounds test is exactly "not on the map" |
| HikingTrails.OutOfBoundsAsWrittenSwapsAxes | src/years/y2024/day10.rs:24-27 | the source's bounds test compares `x` with the number of rows and `y` with the row length: on the one-row map [0, 1] it rejects the cell (1, 0) that is on the map and accepts (0, 1) that is not |
| HikingTrails.GetValue | src/years/y2024/day10.rs:16-18 | a height is read exactly at points on the map, and it is that cell's height |
| HikingTrails.AdjacentIsStep | src/years/y2024/day10.rs:51-52 | the four direction offsets reach exactly the orthogonal neighbours |
| HikingTrails.TrailCons | src/years/y2024/day10.rs:41-55 | a point one lower than the start of a trail and next to it extends the trail |
| HikingTrails.TrailTail | src/years/y2024/day10.rs:41-55 | the rest of a trail is a trail starting one higher |
| HikingTrails.NeighbourReachMember | src/years/y2024/day10.rs:51-55 | the neighbour recursion reaches exactly what some neighbour reaches |
| HikingTrails.ReachStep | src/years/y2024/day10.rs:35-55 | a point other than the start is reached only through a neighbour one step higher |
| HikingTrails.ReachEndsTrail | src/years/y2024/day10.rs:29-56 | every visited point ends a gradual trail from the start |
| HikingTrails.TrailEndReached | src/years/y2024/day10.rs:29-56 | the end of every gradual trail from the start is visited |
| HikingTrails.ReachIsTrailEnds | src/years/y2024/day10.rs:29-56 | the visited set is exactly the set of ends of gradual trails (each step one higher, orthogonal, on the map) from the start |
| HikingTrails.GetVisitedPoints | src/years/y2024/day10.rs:29-56 | the recursive walk, with the source's swapped bounds test, panics exactly when the walk as written does, and otherwise adds to `visited` exactly the cells the walk as written inserts |
| HikingTrails.UnionOpt | src/years/y2024/day10.rs:51-55 | two walks combine only when neither panicked, and then visit the cells of both |
| HikingTrails.NeighbourReachFails | src/years/y2024/day10.rs:51-55 | once one neighbour's walk panics, the walk over more neighbours panics too |
| HikingTrails.ReachAgreesOnSquareMaps | src/years/y2024/day10.rs:24-56 | on a square map the walk as written never panics and inserts exactly the ends of the gradual trails from the start |
| HikingTrails.NeighbourReachesAgree | src/years/y2024/day10.rs:51-55 | the same agreement over the neighbours already walked |
| HikingTrails.ScoreAgreesOnSquareMaps | src/years/y2024/day10.rs:89-96 | on a square map a trailhead's score as written never panics and is the number of 9s reachable from it |
| HikingTrails.PeaksUnion | src/years/y2024/day10.rs:92-95 | the 9s among two visited sets are the 9s of each, so their number is at most the sum |
| HikingTrails.ScoreAtMostRating | src/years/y2024/day10.rs:58-80 | the number of 9s reachable from a point (its score) never exceeds the number of distinct trails from it (its rating) |
| HikingTrails.NeighbourScoresAtMostRatings | src/years/y2024/day10.rs:73-79 | the same bound over the neighbours already folded |
| HikingTrails.RatingPositive | src/years/y2024/day10.rs:58-80 | a point has a positive rating exactly when some 9 is reachable from it |
| HikingTrails.NeighbourRatingsPositive | src/years/y2024/day10.rs:73-79 | a positive fold over the neighbours means some neighbour reaches a 9 |
| HikingTrails.HeadsBeforeMember | src/years/y2024/day10.rs:86-99 | the scan up to a cell lists exactly the 0 cells before it in row-major order |
| HikingTrails.TrailheadsAreZeros | src/years/y2024/day10.rs:86-99 | the trailheads are exactly the cells of height 0 |
| HikingTrails.HeadsNext | src/years/y2024/day10.rs:88 | one scan step appends the cell when it holds 0 and nothing otherwise |
| HikingTrails.ScoresSnoc | src/years/y2024/day10.rs:91-96 | one more trailhead pushes its score and rating |
| HikingTrails.ScoresAtMostRatings | src/years/y2024/day10.rs:82-117 | the part 1 total never exceeds the part 2 total |
| HikingTrails.TotalScore | src/years/y2024/day10.rs:84-101 | the scan loops add up, in row-major order, the score as written of every trailhead, and panic when any walk panics |
| HikingTrails.TotalRating | src/years/y2024/day10.rs:106-116 | the scan loops add up, in row-major order, the rating as written of every trailhead, and panic when any rating panics |
| HikingTrails.TrailheadScore | src/years/y2024/day10.rs:89-96 | a fresh walk from the trailhead, then the number of 9s in the visited set; it panics exactly when the walk as written does |
| HikingTrails.CombineTotals | src/years/y2024/day10.rs:101 | adding a non-panicking score to a non-panicking total adds the numbers |
| HikingTrails.ScoresLastSum | src/years/y2024/day10.rs:101 | the sum of the scores splits off the last trailhead |
| HikingTrails.RatingsLastSum | src/years/y2024/day10.rs:116 | the sum of the ratings splits off the last trailhead |
| HikingTrails.ScoreTotalOnSquareMaps | src/years/y2024/day10.rs:82-102 | on a square map the part 1 total as written never panics and is the sum of the trailheads' scores |
| HikingTrails.RatingTotalOnSquareMaps | src/years/y2024/day10.rs:104-117 | on a square map the part 2 total as written never panics and is the sum of the trailheads' ratings |
| HikingTrails.TotalsFail | src/years/y2024/day10.rs:82-117 | one trailhead whose walk or rating panics makes its part panic |
| HikingTrails.OneRowReachPanics | src/years/y2024/day10.rs:24-56 | on a one-row map of width at least 2 starting with 0, the walk as written from the corner panics on the missing cell below |
| HikingTrails.OneRampPartsPanic | src/years/y2024/day10.rs:82-117 | on the one-row map 0123456789 both parts as written panic, while the trailhead (0, 0) has one trail to a 9 |
| HikingTrails.SolvePart1 | src/years/y2024/day10.rs:82-102 | part 1 panics when a character is not a digit and otherwise is the total as written (panicking when any walk panics); on a square map it is the sum of the trailheads' scores |
| HikingTrails.SolvePart2 | src/years/y2024/day10.rs:104-117 | part 2 panics when a character is not a digit and otherwise is the total as written (panicking when any rating panics); on a square map it is the sum of the trailheads' ratings |
| HikingTrails.AddOpt | src/years/y2024/day10.rs:77-79 | a fold step fails when either side panicked and otherwise adds |
| HikingTrails.AsWrittenAgreesOnSquareMaps | src/years/y2024/day10.rs:58-80 | on square maps the rating with the source's bounds test never panics and equals the corrected rating |
| HikingTrails.NeighboursAgreeOnSquareMaps | src/years/y2024/day10.rs:73-79 | the same agreement over the neighbour fold |
| HikingTrails.NeighbourAgreesOnSquareMaps | src/years/y2024/day10.rs:76-78 | the same agreement for one filtered neighbour |
| HikingTrails.RatingOfFour | src/years/y2024/day10.rs:73-79 | the rating of a point that continues the trail is the sum of its four neighbours' ratings |
| HikingTrails.RatingZero | src/years/y2024/day10.rs:59-67 | a point off the map or at the wrong height contributes no trail |
| HikingTrails.OneRampRating | src/years/y2024/day10.rs:58-80 | on the one-row map 0..9 there is exactly one trail from every cell onwards |
| HikingTrails.RampNeighbours | src/years/y2024/day10.rs:73-79 | on that map only the right-hand neighbour continues the trail |
| HikingTrails.OffRowRatings | src/years/y2024/day10.rs:73-79 | on a one-row map the up and down neighbours contribute nothing |
| HikingTrails.OneRowAsWrittenPanics | src/years/y2024/day10.rs:24-27 | as written, any one-row map of width at least 2 starting with 0 panics on the row below, which the swapped test lets through |
| HikingTrails.MissingRowPanics | src/years/y2024/day10.rs:16-18 | the missing second row passes the swapped bounds test and its read panics |
| HikingTrails.OneRampAsWrittenPanics | src/years/y2024/day10.rs:58-80 | on the one-row map 0..9 the corrected rating is 1 while the source's rating panics |
| HikingTrails.OneRampExample | src/years/y2024/day10.rs:58-80 | the map 0 1 2 … 9 is such a one-row ramp |
| Stones.Pow10Add | src/years/y2024/day11.rs:52 | powers of ten multiply by adding exponents |
| Stones.Digits | src/years/y2024/day11.rs:40 | every number, 0 included, has at least one decimal digit |
| Stones.DigitsRange | src/years/y2024/day11.rs:40 | a positive number has `n` digits exactly when it lies in `[10^(n-1), 10^n)` |
| Stones.ILog10 | src/years/y2024/day11.rs:40 | `ilog10` is the exponent of the largest power of ten not above the number |
| Stones.DropKeepDivMod | src/years/y2024/day11.rs:51-54 | dropping or keeping the last `k` digits is division and remainder by `10^k` |
| Stones.SplitIsDivMod | src/years/y2024/day11.rs:51-54 | `split` divides by ten to the power of half the digit count, rounded down |
| Stones.SplitHalves | src/years/y2024/day11.rs:51-54 | a number with `2k` digits splits into a left half of exactly `k` digits and a right half below `10^k` that rejoin to the number |
| Stones.SplitAt | src/years/y2024/day11.rs:51-54 | for `2k` digits the split point is `10^k` |
| Stones.EvenRange | src/years/y2024/day11.rs:40 | a number has `2k` digits exactly when it lies in `[10^(2k-1), 10^(2k))` |
| Stones.JoinSplits | src/years/y2024/day11.rs:51-54 | joining a `k`-digit number and a number below `10^k` and splitting again gives both back (the round trip of `split`) |
| Stones.JoinRange | src/years/y2024/day11.rs:51-54 | such a join has exactly `2k` digits |
| Stones.Blink | src/years/y2024/day11.rs:37-47 | one stone becomes one or two stones |
| Stones.BlinkSplitsEvenDigits | src/years/y2024/day11.rs:38-46 | a stone splits in two exactly when it is positive with an even number of digits, and the halves have half the digits and rejoin to the stone |
| Stones.AddTo | src/years/y2024/day11.rs:19 | `*entry(k).or_default() += c` adds `c` to the count of `k`, creating the key, and changes no other count |
| Stones.TotalAddTo | src/years/y2024/day11.rs:19 | such an update adds `c` to the number of stones |
| Stones.CopiesIsProduct | src/years/y2024/day11.rs:39-45 | adding a count `n` times is multiplication |
| Stones.CopiesAdd | src/years/y2024/day11.rs:39-45 | repeated adding splits over a sum |
| Stones.OccurrencesOfMember | src/years/y2024/day11.rs:39-45 | a child occurs at least once exactly when it is among the children |
| Stones.AddEachOne | src/years/y2024/day11.rs:39 | a stone with one child adds its count to that child |
| Stones.AddEachTwo | src/years/y2024/day11.rs:42-43 | a split stone adds its count to both halves, in order |
| Stones.AddEachKeys | src/years/y2024/day11.rs:37-47 | the updated map knows exactly the old stones and the new children |
| Stones.AddEachGet | src/years/y2024/day11.rs:37-47 | each child gains the count once per time it occurs among the children |
| Stones.AddEachTotal | src/years/y2024/day11.rs:37-47 | the number of stones grows by the count times the number of children |
| Stones.AfterGet | src/years/y2024/day11.rs:34-50 | after processing a set of stone values, each value's count is the sum of what its parents passed on |
| Stones.AfterStep | src/years/y2024/day11.rs:37-47 | processing one more stone value is one more `AddEach` over its children, whatever the iteration order |
| Stones.AfterStepCount | src/years/y2024/day11.rs:37-47 | the same step, count by count |
| Stones.AfterKeys | src/years/y2024/day11.rs:34-50 | the result knows exactly the children of the processed stones |
| Stones.AfterStepKeys | src/years/y2024/day11.rs:37-47 | the same step, key by key |
| Stones.AfterNothing | src/years/y2024/day11.rs:35 | processing no stones gives the empty map |
| Stones.OffspringAdd | src/years/y2024/day11.rs:37-47 | the children of one more stone value are added |
| Stones.AfterStepGet | src/years/y2024/day11.rs:37-47 | one more stone value adds its count to each of its children |
| Stones.SameCounts | src/years/y2024/day11.rs:34-50 | two count maps with the same keys and counts are equal |
| Stones.AfterTotal | src/years/y2024/day11.rs:34-50 | the number of stones after processing is the sum over values of count times number of children |
| Stones.CopiesAtLeast | src/years/y2024/day11.rs:39-45 | a count added at least once contributes at least itself |
| Stones.BlinkNeverShrinks | src/years/y2024/day11.rs:34-50 | a blink never decreases the number of stones |
| Stones.ChildInheritsCount | src/years/y2024/day11.rs:37-47 | every child of a stone value has at least that value's count after the blink |
| Stones.ProcessStones | src/years/y2024/day11.rs:34-50 | the loop over the map computes the blink of every stone, independent of iteration order |
| Stones.RepeatNeverShrinks | src/years/y2024/day11.rs:25-28 | repeating a step that never shrinks a size never shrinks it |
| Stones.IterateNeverShrinks | src/years/y2024/day11.rs:25-28 | any number of blinks never decreases the number of stones |
| Stones.SumCounts | src/years/y2024/day11.rs:30-31 | summing the map's values counts the stones |
| Stones.Tally | src/years/y2024/day11.rs:18-21 | the fold into a count map records each number exactly as often as it occurs |
| Stones.TallyTotal | src/years/y2024/day11.rs:18-21 | the tally holds one stone per number |
| Stones.ParseNumbers | src/years/y2024/day11.rs:17 | the pieces parse exactly when each is a number, one value per piece |
| Stones.ParseInput | src/years/y2024/day11.rs:14-22 | the input parses exactly when every space-separated piece is a number (otherwise the source panics), into as many stones as pieces |
| Stones.Solve | src/years/y2024/day11.rs:24-32 | the answer exists exactly when the input parses, is the number of stones after the given number of blinks, and is at least the number of starting stones |
| ClawMachines.Solve | src/years/y2024/day13.rs:15-32 | a machine whose buttons are parallel (zero determinant) costs nothing |
| ClawMachines.SolveReaches | src/years/y2024/day13.rs:21-28 | when both of Cramer's numerators divide evenly, the quotients are press counts that land exactly on the (shifted) prize, and the cost is three per A press plus one per B press |
| ClawMachines.CramerX | src/years/y2024/day13.rs:21-23 | Cramer's rule solves the X equation |
| ClawMachines.CramerY | src/years/y2024/day13.rs:21-23 | Cramer's rule solves the Y equation |
| ClawMachines.Cancel | src/years/y2024/day13.rs:27-28 | a non-zero factor cancels |
| ClawMachines.SolutionCost | src/years/y2024/day13.rs:15-32 | whenever some press counts reach the prize of a machine with independent buttons, the cost is exactly three per A press plus one per B press for those counts (they are unique) |
| ClawMachines.Eliminate | src/years/y2024/day13.rs:21-23 | eliminating one unknown leaves the determinant times the other |
| ClawMachines.NoSolutionCostsNothing | src/years/y2024/day13.rs:25-31 | a prize that no press counts reach costs nothing |
| ClawMachines.Shift | src/years/y2024/day13.rs:18-19 | the offset moves the prize by the same amount on both axes and leaves the buttons alone |
| ClawMachines.SolveShift | src/years/y2024/day13.rs:15-19 | solving with an offset is solving the machine whose prize was moved |
| ClawMachines.TotalCostShift | src/years/y2024/day13.rs:8-13 | part 2 is part 1 on the machines with moved prizes |
| ClawMachines.ExampleMachines | src/years/y2024/day13.rs:84-122 | the four example machines cost 280, 0, 200 and 0 |
| Text.SkipNonDigits | src/years/y2024/day13.rs:68-71 | characters that are not digits produce no numbers |
| ClawMachines.DigitRunsNumber | src/years/y2024/day13.rs:68-71 | a number written out and followed by a non-digit is found as one number |
| Text.RunLengthOf | src/years/y2024/day13.rs:68-71 | a run of digits followed by a non-digit is read whole |
| ClawMachines.ParsePoint | src/years/y2024/day13.rs:67-77 | a point parses exactly when the text holds two runs of digits (otherwise the source panics), into those two numbers |
| ClawMachines.ParseFormatPoint | src/years/y2024/day13.rs:67-77 | a point written as "X+x, Y+y" or "X=x, Y=y" parses back to (x, y) |
| ClawMachines.NoDigits | src/years/y2024/day13.rs:67-77 | the labels of a point hold no digits |
| ClawMachines.SplitStr | src/years/y2024/day13.rs:36 | splitting yields at least one piece |
| ClawMachines.JoinSplitStr | src/years/y2024/day13.rs:36 | the chunks rejoined with the separator give back the input |
| ClawMachines.ParseMachine | src/years/y2024/day13.rs:53-63 | a machine parses exactly when the trimmed chunk has at least three lines and each of the first three has a ": " followed by a point; the buttons and the prize are those three points, and later lines are ignored |
| ClawMachines.ParseInput | src/years/y2024/day13.rs:34-39 | the input parses exactly when every "\n\n" chunk is a machine, and machine k is then that of chunk k |
| ClawMachines.Part1 | src/years/y2024/day13.rs:4-6 | part 1 answers exactly when every chunk parses, with the total cost of the machines |
| ClawMachines.Part2 | src/years/y2024/day13.rs:8-13 | part 2 answers exactly when every chunk parses, with the total cost after moving every prize by 10000000000000 |
| Garden.AddPoints | src/years/y2024/day12.rs:190-192 | the sum moves the first point by exactly the second |
| Garden.CellsInBounds | src/years/y2024/day12.rs:194-196 | the garden's cells are exactly the points the bounds test accepts |
| Garden.TakeSmallest | src/years/y2024/day12.rs:198-200 | the corner takes, on each axis, the smaller of the two coordinates |
| Garden.TakeLargest | src/years/y2024/day12.rs:202-204 | the corner takes, on each axis, the larger of the two coordinates |
| Garden.CountOthers | src/years/y2024/day12.rs:140-142 | at most one fence per neighbour holding another plant |
| Garden.CountOutside | src/years/y2024/day12.rs:138-139 | at most one fence per neighbour off the map |
| Garden.Neighbours | src/years/y2024/day12.rs:136-137 | a plot has exactly its four orthogonal neighbours, in the source's order |
| Garden.FencedCount | src/years/y2024/day12.rs:135-144 | at most one fence per neighbour |
| Garden.CountsAreFenced | src/years/y2024/day12.rs:135-144 | the two filters of `perimeter_for_plot` (off the map, other plant) together count the neighbours that need a fence, never one twice |
| Garden.PerimeterCountsFences | src/years/y2024/day12.rs:135-144 | a plot's perimeter is the number of its neighbours that need a fence, at most 4 |
| Garden.FencedFour | src/years/y2024/day12.rs:135-144 | the perimeter is the fenced count of the four sides, side by side |
| Garden.ExamplePerimeters | src/years/y2024/day12.rs:273-286 | in the first example garden the top row of A plots has perimeters 3, 2, 2 and 3 |
| Garden.ExamplePlot | src/years/y2024/day12.rs:273-286 | the same, one plot at a time |
| Garden.Region.constructor | src/years/y2024/day12.rs:156-164 | a new region starts empty, with zero area, perimeter and sides, and both corners at its seed |
| Garden.Region.Copy | src/years/y2024/day12.rs:174-182 | the copy keeps the region's name, corners, points, area and perimeter and takes the new side count |
| Garden.Region.Take | src/years/y2024/day12.rs:113-121 | adding a plot grows the area by one and the perimeter by that plot's fences, widens the corners to include it, and keeps the region's bookkeeping valid |
| Garden.AddPlot | src/years/y2024/day12.rs:113-121 | adding a plot keeps area == number of plots, perimeter == fences of the plots, and every plot inside the corners |
| Garden.FencesAdd | src/years/y2024/day12.rs:113-121 | the fences of a set grow by the new plot's perimeter |
| Garden.ClosedGrows | src/years/y2024/day12.rs:123-132 | the region stays closed under same-plant neighbours as the recursive calls add plots |
| Garden.ClosedSeed | src/years/y2024/day12.rs:123-132 | once all four neighbours are handled, the seed plot is closed too |
| Garden.NeighboursInStep | src/years/y2024/day12.rs:123-132 | one more neighbour handled |
| Garden.PointsGrow | src/years/y2024/day12.rs:107-133 | the region's plots are exactly the newly visited plots |
| Garden.Shrinks | src/years/y2024/day12.rs:107-133 | each recursive call leaves fewer unvisited cells, so the flood fill ends |
| Garden.BuildRegion | src/years/y2024/day12.rs:107-133 | the flood fill does nothing from a visited cell, a cell off the map or another plant, and otherwise adds that cell and everything newly visited to the region, keeping the bookkeeping valid |
| Garden.VisitNeighbours | src/years/y2024/day12.rs:123-132 | the four recursive calls leave the newly visited plots closed under same-plant neighbours |
| Garden.Opposite | src/years/y2024/day12.rs:123-132 | every direction has an opposite direction |
| Garden.NeighbourBack | src/years/y2024/day12.rs:123-132 | stepping in a direction and then in its opposite returns to the start |
| Garden.AllJoinGrows | src/years/y2024/day12.rs:123-132 | closure is kept when the visited set grows |
| Garden.NewRegionClosed | src/years/y2024/day12.rs:151-169 | a new region is closed under same-plant neighbours, so the visited plots stay a union of closed regions |
| Garden.AllCells | src/years/y2024/day12.rs:151-169 | visiting every (x, y) of the grid visits every cell |
| Garden.Assign | src/years/y2024/day12.rs:151-169 | the new part is owned by the new region and every other owner stays |
| Garden.PartitionAdd | src/years/y2024/day12.rs:151-169 | adding the newly visited plots as a new region keeps the regions a partition of the visited plots |
| Garden.PartsDisjoint | src/years/y2024/day12.rs:151-169 | no plot belongs to two regions |
| Garden.RegionsFoundAdd | src/years/y2024/day12.rs:151-169 | a closed, valid new region extends the list of found regions |
| Garden.NewRegion | src/years/y2024/day12.rs:158-165 | a region seeded at an unvisited cell is named after its plant, contains the cell, holds exactly the newly visited plots and is closed |
| Garden.Discover | src/years/y2024/day12.rs:155-166 | visiting an unvisited cell appends exactly one region and keeps the regions a partition |
| Garden.ScanRow | src/years/y2024/day12.rs:153-168 | after one row every cell of the row is visited and the regions still partition the visited plots |
| Garden.FindRegions | src/years/y2024/day12.rs:151-169 | the scan returns regions that partition the garden's cells, each valid and closed |
| Garden.LineSumIsSetSum | src/years/y2024/day12.rs:37-98 | summing along one line is summing over its set of points |
| Garden.ScanSumIsSetSum | src/years/y2024/day12.rs:37-98 | summing along lines is summing over the box |
| Garden.ScansCountSides | src/years/y2024/day12.rs:37-98 | the vertical and horizontal scans over the bounding box together count every side exactly once |
| Garden.CountSides | src/years/y2024/day12.rs:37-98 | `count_sides` returns the region's number of sides: the starts of runs of fence on each side |
| Garden.CountVerticalSides | src/years/y2024/day12.rs:39-67 | the column scan counts the left and right sides |
| Garden.ColumnSides | src/years/y2024/day12.rs:41-66 | one column's scan counts the sides that start in it |
| Garden.CountHorizontalSides | src/years/y2024/day12.rs:68-96 | the row scan counts the top and bottom sides |
| Garden.RowSides | src/years/y2024/day12.rs:70-95 | one row's scan counts the sides that start in it |
| Garden.PerimeterByDirection | src/years/y2024/day12.rs:100-105 | a plot's perimeter is its number of fenced directions as `is_side` tests them |
| Garden.SidesAtMostPerimeter | src/years/y2024/day12.rs:37-98 | a region never has more sides than fences |
| Garden.SidePriceAtMostFencePrice | src/years/y2024/day12.rs:37-98 | over any regions whose plots are on the map and carry the region's letter, the price by area times sides is at most the price by area times fences |
| Garden.LoneSides | src/years/y2024/day12.rs:37-105 | a region of one plot has as many sides as fences |
| Garden.ExampleLoneRegion | src/years/y2024/day12.rs:222-231 | the lone D plot of the first example has 4 sides |
| Garden.WithSides | src/years/y2024/day12.rs:171-185 | every region is copied with its number of sides filled in |
| Garden.PartitionCovers | src/years/y2024/day12.rs:151-169 | the regions are pairwise disjoint and together cover exactly the cells |
| Garden.ParseInput | src/years/y2024/day12.rs:146-186 | parsing yields the grid and regions that partition it, each closed under same-plant neighbours, with correct area, perimeter and sides |
| Garden.PriceStep | src/years/y2024/day12.rs:21-35 | one more region adds its area times its perimeter (part 1) or its sides (part 2) |
| Garden.FencingPrice | src/years/y2024/day12.rs:21-27 | the fold sums area times perimeter over the regions |
| Garden.DiscountPrice | src/years/y2024/day12.rs:29-35 | the fold sums area times sides over the regions |
| Garden.Part1 | src/years/y2024/day12.rs:21-27 | part 1 is the total price, area times perimeter, over a partition of the garden into regions |
| Garden.Part2 | src/years/y2024/day12.rs:29-35 | part 2 is the total price, area times sides, over the same partition, and never exceeds the part 1 price of those regions |

## Left out

- Every `solver()` and `runner()`: reading the puzzle file, printing, and the day and year dispatch. The text they would read is a parameter of each `Solve…`/`Part…` member. Their own quirks are not modelled. In `src/years/y2024/day10.rs:7` the solver reads the day 9 file. In `src/years/y2024/day11.rs:7` it prints "Day 10". In `src/years/y2024/day12.rs:6-13` the runner closures return 0.
- `src/years/y2015/day04.rs` is not part of this model. It is a brute-force search over an external MD5 implementation.
- `src/main.rs`, `src/util/runner.rs` and the `mod.rs` files are not part of this model. They hold command-line and dispatch plumbing.
- Machine integer widths are not modelled: `usize`, `u32`, `i32`, `i64` and `isize` are all unbounded `int`/`nat`. Where the source would overflow, the model keeps counting. This covers `stone * 2024` in `src/years/y2024/day11.rs:45`, the `u32` products of `src/years/y2024/day12.rs`, the `i64` calibration sums of `src/years/y2024/day07.rs` and the `isize` products of `src/years/y2024/day13.rs:21-23`. `usize` underflows that the source can actually reach are modelled as `None`.
- Regular expressions are not modelled. In `src/days/day03.rs` the token list that the regex produces is a parameter, given as strings or as `Instruction` values. In `src/years/y2024/day13.rs:67-77` the `\d+` scan is modelled by `Text.DigitRuns`, shared with day 3. Rust's `\d` also matches non-ASCII Unicode decimal digits, while `Text.DigitRuns` reads only the ASCII digits '0' to '9'. In `src/years/y2015/day05.rs` the validators are predicates over the string.
- Hash map and hash set iteration order is not modelled. Each loop over a `HashMap`/`HashSet` is proved correct for every order (`Stones.ProcessStones`, `GuardPatrol.CountLoops`, and `Antinodes.SolvePart1` and `Antinodes.SolvePart2` for the `antennas.iter()` loops of `src/years/y2024/day08.rs:22` and `:45`).
- `LocationLists.Sort`: `Vec::sort` is a pure insertion sort over `seq`, not an in-place sort. Its contract (sorted and a permutation) determines the result uniquely (`LocationLists.SortedUnique`).
- Regression values are not proved wherever they need the verifier to evaluate a whole puzzle example. This leaves out:
  - every test that reads a `.txt` file;
  - day 4 (18, 9), day 5 (143, 123), day 6 (41, 6) and day 8 (14, 34) of 2024;
  - day 9 (1928, 2858), day 10 (36, 81) and day 11 (22, 55312) of 2024;
  - day 12 of 2024 (140, 80, 236, 1206) and the part 1 and part 2 sums of day 7 (3749, 11387);
  - the full example lists of 2015 day 5.

  Smaller examples from those tests are proved instead: single machines, single equations, single plots, single strings and the day 1 to 3 examples.
- `GuardPatrol.GetVisitedPositions`: the source loop does not terminate when the guard is trapped, so the model takes a `fuel` bound and returns `None` when the bound runs out. `GuardPatrol.NoLoopLeavesMap` proves that some fuel suffices whenever `is_loop` says false. The converse is not proved: that a trapped guard never leaves the map.
- `GuardPatrol.ParseInput`: the map is built by a loop over the input lines. A map without '^' is modelled as `None` from `GuardPatrol.GetStartPosition`.
- `Garden.ParseInput`, `Garden.Part1`, `Garden.Part2` require a rectangular grid, as the puzzle input is. A ragged grid makes the source's `out_of_bounds` compare against row 0 only, and that case is not modelled. The model proves that the regions partition the grid and are closed under same-plant neighbours. It does not prove that each region is connected.
- `Garden.BuildRegion`: the shared `visited` set is passed in and returned as a set value rather than aliased through a mutable reference.
- `PageOrdering.MakeValidMethod` is proved to return a rearrangement of the update, placing each page after the placed pages it must follow. It is not proved that the result passes `is_valid`. No order can pass when the rules form a cycle, and for acyclic rules that proof is left out.
- `ClawMachines.Solve` computes with truncating division, as Rust's `/` and `%` do on `isize`. Press counts that come out negative are accepted, as in the source, and a machine with parallel buttons costs 0. `ClawMachines.ParseMachine` is stated in terms of its three lines and `ClawMachines.ParsePoint`; there is no round trip for the whole machine text.
- `DiskCompaction.Compact2` proves that whole-file compaction rearranges the disk, tries each file at most once, and moves a file only into the leftmost free run before it that is long enough (`DiskCompaction.FindFreeRun`). It does not state the final disk layout as a function of the input.
- `DiskCompaction.SolvePart2`: the answer is stated to be the checksum of some rearrangement of the expanded disk, not of a disk given by a closed-form function.
- `NiceStrings.SolvePart1` and `NiceStrings.SolvePart2` only bound the count. What the count means is stated by `NiceStrings.CountNiceIsNiceLines`.

## Findings

| source | as written | input that shows it | evidently intended | confidence | as-written member | corrected member |
|---|---|---|---|---|---|---|
| src/years/y2024/day09.rs:40-57 | after the left cursor reaches a free block, `compact` skips free blocks from the right and pushes a file id without checking that the right cursor is still at or after the left one, so an id already pushed is pushed again; when only free blocks remain to the right, `j -= 1` underflows | the disk map "11111" (file 0, free, file 1, free, file 2) compacts to ids 0 2 1 1, checksum 7; the disk file 0, free, free panics | stop when the cursors cross: ids 0 2 1, checksum 4, a rearrangement of the file ids | high (not executed) | DiskCompaction.CompactWritten, DiskCompaction.CompactAsWrittenDuplicates, DiskCompaction.CompactAsWrittenUnderflows, DiskCompaction.SolvePart1Examples | DiskCompaction.CompactIsRearrangement, DiskCompaction.CompactBlocks, DiskCompaction.CompactAsWrittenAgrees |
| src/years/y2024/day10.rs:24-27 | `out_of_bounds` compares `x` with the number of rows and `y` with the length of row 0 | the one-row map "0123456789": the cell (1, 0) is called out of bounds, and the cell (0, 1) below the map is let through and indexed, which panics | compare `x` with the row length and `y` with the number of rows; the map then has rating 1 from (0, 0) | high (not executed) | HikingTrails.OutOfBoundsAsWrittenSwapsAxes, HikingTrails.OneRowAsWrittenPanics, HikingTrails.OneRowReachPanics, HikingTrails.OneRampAsWrittenPanics, HikingTrails.OneRampPartsPanic, HikingTrails.SolvePart1, HikingTrails.SolvePart2 | HikingTrails.OneRampRating, HikingTrails.ReachIsTrailEnds, HikingTrails.AsWrittenAgreesOnSquareMaps, HikingTrails.ReachAgreesOnSquareMaps, HikingTrails.ScoreTotalOnSquareMaps, HikingTrails.RatingTotalOnSquareMaps |
