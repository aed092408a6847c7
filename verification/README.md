# Advent of Code 2023 puzzle cores, modelled in Dafny

This project models the pure logic of Christopher Chamberlain's Advent of Code
2023 solutions. Each script reads a puzzle file and prints an answer. The part
in between is modelled here, one Dafny module per puzzle:

- `Trebuchet` (day 1): digit and number-word calibration values.
- `Cubes` (day 2): per-colour maxima, possible games and powers.
- `GearRatios` (day 3): digit runs on the engine schematic, part numbers and gear ratios.
- `Scratchcards` (day 4): set-intersection scoring and copy propagation.
- `Almanac` (day 5 part 1): the first-match range lookup and the seven-table chain.
- `AlmanacRanges` (day 5 part 2): half-open ranges, `compute_mapping` and the range pipeline.
- `CamelCards` (day 7): hand typing with jokers, the hand comparison and rank-weighted winnings.
- `Wasteland` (day 8): cyclic left/right walks over the node map and the lcm fold.
- `Oasis` (day 9): difference tables and forward and backward extrapolation.
- Day 10 is split into three modules:
  - `Pipes`: the pipe table, grid parsing and start resolution.
  - `LoopPath` and `LoopDistance`: the part 2 depth-first walk and the part 1 breadth-first distance walk.
  - `SideClassifier`: Unknown marking, the perpendicular side rule and the flood fill.
- `Results` and `Text` are shared. They model Python's `Option`/exception behaviour and the string built-ins (`split`, `strip`, `join`, `int()`, `isdigit`).

Modelling conventions:

- A Python exception is an `Err` value. This covers a `KeyError`, an `IndexError`, a failed `assert`, a `ValueError` from `int()`, or the `ZeroDivisionError` of the lcm fold when both its operands are 0 (`Wasteland.LcmError.DivisionByZero`). Callers are not required to avoid it.
- Input lines are `seq<char>`. Integers are unbounded, as Python's are.
- Loops over queues and stacks are recursive functions or loop methods. Each has an explicit termination measure.
- Loops that need not terminate carry a fuel parameter. These are the day 8 walks.

Day 10 as the code does it, and as the model follows it:

- The loop is found with a stack-based walk over the pipes' open sides. A malformed loop is not reported as such. The recorded path ends with a second copy of the start's first-listed neighbour.
- The first part's answer is the largest breadth-first distance, not half the path length. The two agree on a valid loop (`LoopDistance.SolvePartOne`).
- Inside and Outside come from a local perpendicular rule at each path tile. No signed area is used, so the two labels may be swapped relative to the true inside.
- Cells left Unknown are counted; they are no error.
- Every frame `draw_pipes` draws reads the tile of each cell of the rectangle as wide as the first row, and each part always draws a frame: the first part after visiting the start, the second once its walk is over. A row shorter than the first therefore stops both parts with a `KeyError`; the model reports it as `ShortRow` (`Pipes.UndrawableIffShortRow`). Longer rows are accepted.
- Several start markers are accepted: the last one in reading order wins.

## Model

| member | source | states |
|---|---|---|
| Trebuchet.DigitsEmpty | 01/day_01_part1.py:18 | the kept digits are empty exactly when the line has no digit character |
| Trebuchet.DigitsHead | 01/day_01_part1.py:18 | the first kept digit is the line's first digit character |
| Trebuchet.DigitsTail | 01/day_01_part1.py:18 | the last kept digit is the line's last digit character |
| Trebuchet.Calibration | 01/day_01_part1.py:19 | joining first and last digit fails exactly on no digits, else reads 10·first + last |
| Trebuchet.SingleDigit | 01/day_01_part1.py:19 | a lone digit d counts as first and last: 11·d |
| Trebuchet.LineValueFails | 01/day_01_part1.py:18-19 | a line fails exactly when it has no digit character |
| Trebuchet.LineValueFirstLast | 01/day_01_part1.py:18-19 | the line value is 10 times the first digit character plus the last |
| Trebuchet.Total | 01/day_01_part1.py:16-19 | the sum succeeds exactly when every line's value does; an error comes from some line |
| Trebuchet.TotalAppend | 01/day_01_part1.py:16-19 | one more line adds its value to the sum |
| Trebuchet.WordDigit | 01/day_01_part2.py:13-23 | word n of the table spells the digit character with value n + 1 |
| Trebuchet.GroupMembers | 01/day_01_part2.py:26-28 | the first-letter group of c holds exactly the words starting with c |
| Trebuchet.AtMostOneWord | 01/day_01_part2.py:43-49 | no two different number words match at the same position |
| Trebuchet.WordAtIs | 01/day_01_part2.py:43-49 | a position where word n is spelled reads word n's digit |
| Trebuchet.WordAtNone | 01/day_01_part2.py:43-49 | a position reads no word exactly when none of the nine is spelled there |
| Trebuchet.GroupedLookupAgrees | 01/day_01_part2.py:26-49 | trying only the words of the line's letter finds what trying all nine in order finds |
| Trebuchet.WordNotDigit | 01/day_01_part2.py:43-53 | a position that reads a word holds no digit character, so it records one digit |
| Trebuchet.LineValueWordsFails | 01/day_01_part2.py:37-58 | the second part fails exactly when no position reads a word or a digit |
| Trebuchet.LineValueWordsFirstLast | 01/day_01_part2.py:37-58 | the value is 10·(digit read at the first reading position) + the digit read at the last |
| Trebuchet.ScanWithoutWords | 01/day_01_part2.py:37-58 | without number words the second part agrees with the first |
| Trebuchet.OverlappingWords | 01/day_01_part2.py:39-55 | because i advances by one, "eightwo" reads 8 then 2 and is worth 82 |
| Cubes.ParseColor | 02/day_02_part1.py:15-19 | the colour lookup finds the colour with that name, and fails exactly on other names |
| Cubes.Raise | 02/day_02_part1.py:31 | the colour's count becomes the larger of old and new; other colours are kept |
| Cubes.TallyIsMax | 02/day_02_part1.py:15-31 | each colour's count is the largest drawn count of it, or 0 when never drawn |
| Cubes.TallyOrderFree | 02/day_02_part1.py:27-31 | reordering the draws does not change the counts |
| Cubes.PossibleIff | 02/day_02_part1.py:34-35 | a game is possible exactly when no draw exceeds 12 red, 13 green or 14 blue |
| Cubes.AnswerOk | 02/day_02_part1.py:12-35 | lines that all read as games give the sum of the games' values |
| Cubes.AnswerError | 02/day_02_part1.py:12-30 | the first unreadable line decides the error |
| Cubes.PowerAbsent | 02/day_02_part2.py:37 | a colour never drawn makes the power 0 |
| Cubes.PowerMonotone | 02/day_02_part2.py:30-37 | more draws never lower the power, which is never negative |
| Cubes.ParseChoiceText | 02/day_02_part1.py:30-31 | a choice written as count and colour name reads back as that draw |
| Cubes.ParseChoiceWords | 02/day_02_part1.py:30-31 | a choice that splits into a number and a colour name reads as that draw |
| Cubes.ParseRoundText | 02/day_02_part1.py:28-31 | a subset's text reads back as its draws in order |
| Cubes.ParseGameParts | 02/day_02_part1.py:13-25 | a line whose header and body read reads as that game, the number after "Game " |
| Cubes.ParseGameText | 02/day_02_part1.py:13-31 | a game in the puzzle's layout reads back as its number and its draws |
| GearRatios.FirstSymbolTouches | 03/day_03_part1.py:45-52 | the neighbour search finds a symbol exactly when one of the 8 neighbours is a symbol, and finds one of them |
| GearRatios.ScanDigitsSpec | 03/day_03_part1.py:45-56 | the digit loop reads the whole digit run, stops at a non-digit, and records a symbol exactly when a digit touches one, the last such digit's first |
| GearRatios.ScanRowSound | 03/day_03_part1.py:39-62 | every run a line scan reports is a maximal digit run, read as its decimal value, with a symbol exactly when it touches one |
| GearRatios.ScanRowComplete | 03/day_03_part1.py:39-62 | every maximal run starting inside the scanned columns is reported |
| GearRatios.ScanRowOrdered | 03/day_03_part1.py:39-62 | runs come out left to right without overlap, so none is read twice |
| GearRatios.ScanFromSound | 03/day_03_part1.py:35-64 | every reported run of the grid is a faithful reading of a maximal run |
| GearRatios.ScanFromComplete | 03/day_03_part1.py:35-64 | every maximal run of the grid starting inside the width is reported |
| GearRatios.ScanFromOrdered | 03/day_03_part1.py:35-64 | runs come out in reading order |
| GearRatios.LoadWidthLast | 03/day_03_part1.py:15-19 | as written, when the last line is not empty, the width is the larger of the line count and the last line's length |
| GearRatios.WidthAsWrittenRectangular | 03/day_03_part1.py:15-19 | on a square or wide grid of equal lines the width as written is the line length |
| GearRatios.MaxWidth | 03/day_03_part1.py:18 | the corrected width is the length of the longest line |
| GearRatios.ScanMaxWidthComplete | 03/day_03_part1.py:35-64 | with the corrected width every maximal run of the grid is reported |
| GearRatios.PartSumTouches | 03/day_03_part1.py:59-60 | a run is added exactly when one of its digits touches a symbol |
| GearRatios.PartOneSpec | 03/day_03_part1.py:35-64 | the answer sums, once each and in reading order, the maximal runs that touch a symbol |
| GearRatios.WidthMissesNumber | 03/day_03_part1.py:18 | on a two-line grid whose first line is longer, the width as written misses a part number the corrected width finds |
| GearRatios.AttachmentsSpec | 03/day_03_part2.py:53-70 | a number is attached to a position exactly when its run recorded a '*' there |
| GearRatios.GearsSpec | 03/day_03_part2.py:69-70 | the gear table has a non-empty list exactly for attached positions, holding everything attached there in order |
| GearRatios.KeyOrderSpec | 03/day_03_part2.py:77 | the table's items are visited once each, covering every attached position |
| GearRatios.GearSumRatios | 03/day_03_part2.py:76-79 | the final loop adds the product of the two numbers at every position with exactly two |
| GearRatios.PartTwoSpec | 03/day_03_part2.py:41-79 | with the longest line as the width, every maximal digit run is scanned; the answer is the ratio sum over distinct star positions; every attached number is a run next to that '*' |
| GearRatios.WidthMissesGear | 03/day_03_part2.py:23 | on a two-line grid whose first line is longer, the width as written misses one number of a gear, so the answer is 0 instead of its ratio 12 |
| Scratchcards.NonEmptyMembers | 04/day_04_part1.py:16-17 | the kept tokens are exactly the non-empty pieces, so repeated blanks are skipped |
| Scratchcards.ElementsRepeat | 04/day_04_part1.py:16-17 | a number repeated in a list is one element of the set |
| Scratchcards.Matches | 04/day_04_part1.py:20 | the matches are at most either list's size |
| Scratchcards.MatchesMeaning | 04/day_04_part1.py:20 | no match exactly when none of our numbers wins; every one of ours matches exactly when all of them win; the count does not depend on the order of the intersection |
| Scratchcards.PointsDouble | 04/day_04_part1.py:23 | one match scores 1, and each further match doubles the score |
| Scratchcards.PointsAtLeast | 04/day_04_part1.py:23 | m matches score at least m |
| Scratchcards.PartOneOk | 04/day_04_part1.py:11-23 | cards that all read give the sum of their scores |
| Scratchcards.PartOneError | 04/day_04_part1.py:11-17 | the first unreadable line decides the error |
| Scratchcards.SumPointsBounds | 04/day_04_part1.py:11-23 | the sum is at least the number of cards with a match |
| Scratchcards.CountCards | 04/day_04_part2.py:35-45 | the queue loop succeeds exactly when no card wins past the last, and counts every copy won |
| Scratchcards.WonTotalAtLeast | 04/day_04_part2.py:35-45 | there are at least as many cards at the end as at the start |
| Scratchcards.PartTwo | 04/day_04_part2.py:20-45 | reading, scoring by match count and running the queue gives the copies won, at least one per card |
| Scratchcards.ParseNumbersText | 04/day_04_part1.py:16-17 | any text whose stripped, blank-split, non-empty tokens spell the numbers reads back as their set, however many blanks separate them |
| Scratchcards.ParseListText | 04/day_04_part1.py:16-17 | a list in the puzzle's padded layout (`83 86  6 31`, any number of extra blanks before each number and around the list) reads back as its set |
| Scratchcards.ParseCardParts | 04/day_04_part1.py:12-17 | a line whose two lists read as sets reads as that card |
| Scratchcards.ParseCardText | 04/day_04_part1.py:12-17 | a card in the puzzle's layout, its number and both lists padded with extra blanks (`Card   7:  5 48 | 83  6`), reads back as its two sets |
| Almanac.FindFirst | 05/day_05_part1.py:16-18 | find returns the item at the first accepted index |
| Almanac.FindNone | 05/day_05_part1.py:16-18 | find returns None exactly when no item is accepted |
| Almanac.FindRangeFirst | 05/day_05_part1.py:21-24 | the first entry with src ≤ v ≤ src + len in list order maps v to dst + (v − src) |
| Almanac.FindRangeKeeps | 05/day_05_part1.py:21-24 | a value no entry covers is kept |
| Almanac.InclusiveEndDiffers | 05/day_05_part1.py:23 | the value one past a source range is shifted as written and kept by the half-open lookup |
| Almanac.LookupFirst | 05/day_05_part1.py:21-24 | the corrected lookup maps v by the first entry with src ≤ v < src + len |
| Almanac.LookupKeeps | 05/day_05_part1.py:21-24 | the corrected lookup keeps a value no source range holds |
| Almanac.LookupAgrees | 05/day_05_part1.py:21-24 | away from source range ends both lookups agree |
| Almanac.LocationsAt | 05/day_05_part1.py:70-79 | each seed's location is the seven-table chain of find_range applied to it |
| Almanac.LowestIsMin | 05/day_05_part1.py:82-83 | the running minimum is one of the values and no value is lower; None only for no values |
| Almanac.PartOneLowest | 05/day_05_part1.py:67-83 | the answer is the location of some seed and no seed's location is lower |
| Almanac.ReadShowInts | 05/day_05_part1.py:63 | numbers joined by blanks split and read back as the numbers |
| Almanac.ParseEntryText | 05/day_05_part1.py:63-64 | a table line of three numbers reads back as its entry |
| Almanac.ParseSeedsText | 05/day_05_part1.py:52 | the seeds line reads back as its numbers |
| AlmanacRanges.IntersectPoints | 05/day_05_part2.py:32-38 | intersects is None exactly when max begin ≥ min end; otherwise a non-empty range inside both that holds exactly their common points |
| AlmanacRanges.IntersectSymmetric | 05/day_05_part2.py:32-33 | the order of the two ranges does not matter |
| AlmanacRanges.IntersectNonEmpty | 05/day_05_part2.py:32-38 | ranges that meet are both non-empty |
| AlmanacRanges.EntryRanges | 05/day_05_part2.py:48-54 | src and dst both have size len, and src holds what the half-open lookup accepts |
| AlmanacRanges.HitsMembers | 05/day_05_part2.py:62 | the filtered entries come from the table and meet the query |
| AlmanacRanges.OffsetNonNegative | 05/day_05_part2.py:87-91 | the offset into the source range is never negative, so the assertion holds |
| AlmanacRanges.MappingMisses | 05/day_05_part2.py:62-109 | a query no source range meets maps to exactly [query] |
| AlmanacRanges.LookupHits | 05/day_05_part2.py:62 | for a point of the query, the filtered entries give the same lookup as the whole table |
| AlmanacRanges.MapFromImage | 05/day_05_part2.py:67-105 | from the moving edge on, gap and shifted pieces hold exactly the lookup image of the rest of the query |
| AlmanacRanges.ComputeMappingImage | 05/day_05_part2.py:57-111 | on a sorted table without overlaps, the pieces hold exactly the points the lookup sends the query to |
| AlmanacRanges.ComputeMappingPieces | 05/day_05_part2.py:93-109 | on a sorted table without overlapping source ranges, piece sizes add up to the query's size; non-empty queries give non-empty pieces, always at least one |
| AlmanacRanges.StageImage | 05/day_05_part2.py:161-180 | on a sorted table without overlapping source ranges, one stage of the nested loops holds the image of the points it was given |
| AlmanacRanges.StagePieces | 05/day_05_part2.py:161-180 | on a sorted table without overlapping source ranges, a stage keeps pieces non-empty and gives some piece for every piece given |
| AlmanacRanges.ChainSetStep | 05/day_05_part2.py:161-180 | looking up through the tables is looking up the first table's image through the rest |
| AlmanacRanges.PipelineImage | 05/day_05_part2.py:161-180 | on sorted tables without overlapping source ranges, after all seven tables the pieces hold exactly the points the seeds are sent to |
| AlmanacRanges.PipelinePieces | 05/day_05_part2.py:161-182 | on sorted tables without overlapping source ranges, after all seven tables there is at least one piece, none empty |
| AlmanacRanges.LowestBegin | 05/day_05_part2.py:182-187 | the lowest piece beginning is the lowest point the pieces hold |
| AlmanacRanges.PartTwoLowest | 05/day_05_part2.py:158-187 | on sorted tables without overlapping source ranges and for seed ranges of positive length, the answer is the lowest location any seed in the ranges reaches |
| AlmanacRanges.EmptySeedLowers | 05/day_05_part2.py:108-109 | a seed range of length zero meets no source range, passes every table unchanged, and its beginning bounds the answer from above |
| AlmanacRanges.EmptySeedUnreached | 05/day_05_part2.py:185-187 | with only the seed range (5, 0) the answer is 5 although no seed exists to reach it |
| AlmanacRanges.OverlapUnreached | 05/day_05_part2.py:93-109 | with the overlapping source ranges [0, 10) and [5, 15), the seeds 0 up to 20 leave the reversed gap (10, 5), and the answer 10 is reached by no seed |
| AlmanacRanges.SeedRanges | 05/day_05_part2.py:139-140 | the seed numbers pair up into one range per pair, an odd last number dropped |
| AlmanacRanges.SeedRangesAt | 05/day_05_part2.py:139-140 | pair k is the range from number 2k of length number 2k + 1 |
| AlmanacRanges.SinglePoint | 05/day_05_part2.py:57-187 | on sorted tables without overlapping source ranges, a one-seed range maps to exactly the seed's location under the lookups |
| CamelCards.Compare | 07/day_07_part2.py:11-19 | compare is 0, −1 or +1 exactly when a = b, a < b or a > b |
| CamelCards.CompareSwap | 07/day_07_part2.py:11-19 | swapping the arguments negates the answer |
| CamelCards.CardIndexBijection | 07/day_07_part2.py:23-24 | the card table is a bijection from the 13 symbols onto 0..12, 'J' at 0 and 'A' at 12 |
| CamelCards.CountsSpec | 07/day_07_part2.py:49-51 | one count per distinct card, each at least 1 and its multiplicity, adding up to the hand size |
| CamelCards.NaturalTypeKind | 07/day_07_part2.py:44-65 | for five cards natural_type is the type the repeat counts describe |
| CamelCards.FavouriteSpec | 07/day_07_part2.py:77 | the substituted card is a card of the list, counted most, and the first such in hand order |
| CamelCards.SubstituteAt | 07/day_07_part2.py:78 | every 'J' becomes the favourite card and every other card stays |
| CamelCards.TypeAllJokers | 07/day_07_part2.py:72-74 | a hand of jokers only is five of a kind |
| CamelCards.TypeNoJokers | 07/day_07_part2.py:72-80 | without jokers the type is the natural type |
| CamelCards.TypeSubstitutes | 07/day_07_part2.py:72-80 | otherwise the type is the natural type of the hand with jokers replaced by the favourite card |
| CamelCards.HandCompareLex | 07/day_07_part2.py:82-101 | on valid hands of one length, compare is the lexicographic order of type, then card indices |
| CamelCards.HandCompareSwap | 07/day_07_part2.py:82-101 | compare answers −1, 0 or +1, is antisymmetric, and answers 0 exactly for equal cards |
| CamelCards.HandCompareTransitive | 07/day_07_part2.py:82-101 | compare is transitive, and strict when either step is |
| CamelCards.HandCompareFails | 07/day_07_part2.py:82-101 | compare fails only on tied types with an unknown card or a shorter second hand |
| CamelCards.RankInjective | 07/day_07_part2.py:28-35 | distinct hand types have distinct enumeration values |
| CamelCards.Score | 07/day_07_part2.py:123-126 | the scoring loop computes the sum of (position + 1)·bid |
| CamelCards.WinningsByRank | 07/day_07_part2.py:121-126 | for distinct ascending hands each bid is weighted by one more than the number of weaker hands |
| CamelCards.ParseHandText | 07/day_07_part2.py:116-118 | cards, a blank and a bid read back as that hand |
| Wasteland.WalkArrives | 08/day_08_part1.py:29-39 | the walk answers s exactly when move s is the first to reach the goal, within the fuel |
| Wasteland.WalkOutOfFuel | 08/day_08_part1.py:29-43 | running out of fuel means every position within the fuel exists and is not the goal |
| Wasteland.WalkMissing | 08/day_08_part1.py:33-34 | a missing node means the walk left the network before arriving |
| Wasteland.PartOne | 08/day_08_part1.py:25-43 | the queue loop from AAA is the walk to ZZZ with the instructions used cyclically, failing if AAA is missing |
| Wasteland.RotateBack | 08/day_08_part2.py:48-63 | popping the front and appending it rotates the instructions by one more |
| Wasteland.CountSteps | 08/day_08_part2.py:35-65 | count_steps is the walk to the first name ending in Z |
| Wasteland.StartsSpec | 08/day_08_part2.py:85 | the starting nodes are exactly the names in `keys` ending in A (the program passes the network's names) |
| Wasteland.LengthsArrive | 08/day_08_part2.py:88-90 | each path length is the first arrival of its start's walk at a name ending in Z |
| Wasteland.LcmStep | 08/day_08_part2.py:95 | one fold step divides exactly and gives the least positive common multiple |
| Wasteland.LcmLeast | 08/day_08_part2.py:95 | every common multiple of a and b is a multiple of a·b / gcd |
| Wasteland.FoldLcmSpec | 08/day_08_part2.py:93-95 | for positive lengths the fold gives a positive common multiple dividing every other |
| Wasteland.FoldLcmZeros | 08/day_08_part2.py:93-95 | zero lengths give 0, and two zeros divide by gcd(0, 0) and fail |
| Wasteland.PartTwoLcm | 08/day_08_part2.py:84-95 | when every walk arrives, the answer is the least common multiple of the arrival counts |
| Oasis.Derivative | 09/day_09_part1.py:6-12 | the difference row has one entry fewer, none for an empty row |
| Oasis.DerivativeAt | 09/day_09_part1.py:6-12 | entry i of the difference row is v[i + 1] − v[i] |
| Oasis.Table | 09/day_09_part1.py:17-21 | the table starts with the readings and has at most one more row than readings |
| Oasis.TableShape | 09/day_09_part1.py:17-21 | each row is the difference row of the one above; all rows but the last have a non-zero entry; the last has none |
| Oasis.BuildTable | 09/day_09_part1.py:17-21 | the while loop builds exactly that table |
| Oasis.ExtrapolateForward | 09/day_09_part1.py:15-27 | the forward fold fails exactly when the table ends in an empty row, else gives the table's forward prediction |
| Oasis.ExtrapolateBackward | 09/day_09_part2.py:18-34 | the C := row[0] − C fold fails exactly in the same case, else gives the backward prediction |
| Oasis.PartOne | 09/day_09_part1.py:34-39 | the answer sums the forward predictions, failing on any line that runs into an empty row |
| Oasis.PartTwo | 09/day_09_part2.py:41-46 | the answer sums the backward predictions, failing in the same case |
| Oasis.NextExtendsTable | 09/day_09_part1.py:23-27 | appending the prediction extends the difference row by its own prediction |
| Oasis.PrevExtendsTable | 09/day_09_part2.py:26-34 | prepending the backward prediction extends the difference row on the left |
| Oasis.ZeroRow | 09/day_09_part2.py:23-34 | an all-zero input is its own table and predicts 0 both ways |
| Oasis.LoneReadingFails | 09/day_09_part1.py:20-25 | a lone non-zero reading runs into an empty row |
| Oasis.ConstantRow | 09/day_09_part1.py:15-27 | a constant sequence predicts the same constant both ways |
| Oasis.ArithmeticRow | 09/day_09_part1.py:15-27 | a constant step d predicts last + d forwards and first − d backwards |
| Oasis.NextNegate | 09/day_09_part1.py:15-27 | negating the readings negates the forward prediction |
| Oasis.PrevIsReversedNext | 09/day_09_part2.py:18-34 | the backward prediction is the forward prediction of the reversed readings |
| Pipes.OppositeUndoesOffset | 10/day_10_part2.py:75-86 | stepping in a direction and back returns to the cell; the opposite of the opposite is the direction |
| Pipes.PipeOf | 10/day_10_part2.py:95-106 | the table lookup finds the tile with that symbol and fails exactly on unknown symbols |
| Pipes.ConnectionsMatchNeighbors | 10/day_10_part2.py:89-102 | connections toward d are non-empty exactly when d is open, and list exactly the tiles open back toward the tile |
| Pipes.EdgeNeighborsComplement | 10/day_10_part2.py:97-102 | each pipe has two open and two edge sides, and the edge sides are exactly the closed ones |
| Pipes.ParseGrid | 10/day_10_part2.py:158-163 | parsing succeeds exactly when every symbol is known; the grid holds one tile per character |
| Pipes.LastStartIn | 10/day_10_part2.py:159-167 | the scan keeps the last 'S' of the row, or none when there is none |
| Pipes.FindStart | 10/day_10_part2.py:158-169 | the start is the last 'S' in reading order, and is missing exactly when there is no 'S' |
| Pipes.Pick | 10/day_10_part2.py:181 | the tile taken from the surviving set is one of its members |
| Pipes.OpenTowardSingleton | 10/day_10_part1.py:147-153 | the tiles open toward every side in D are a single tile exactly when D has two sides, and it opens exactly D |
| Pipes.ResolveStart | 10/day_10_part2.py:171-178 | resolution succeeds exactly when two neighbours point back; the tile opens exactly toward them |
| Pipes.Resolved | 10/day_10_part2.py:171-181 | the start cell is replaced by its resolved tile and nothing else changes |
| Pipes.PrepareGrid | 10/day_10_part2.py:158-181 | parsing then resolving succeeds exactly when both steps do, giving the resolved grid and the start |
| Pipes.DrawFailsShortRow | 10/day_10_part1.py:107-116 | drawing a parsed grid over the first row's width fails exactly when some row is shorter than the first |
| Pipes.UndrawableIffShortRow | 10/day_10_part2.py:134-151 | the prepared grid cannot be drawn exactly when some row is shorter than the first |
| Pipes.AdjacencyOf | 10/day_10_part1.py:174-177 | each grid cell's neighbours are the cells through its open sides, in listed order |
| Pipes.ValidLoopRing | 10/day_10_part1.py:174-177 | on a valid loop each cell's neighbours are its two loop neighbours |
| Pipes.LoopStep | 10/day_10_part2.py:202-205 | on a valid loop each cell opens toward its predecessor and successor |
| Pipes.ReversedLoop | 10/day_10_part1.py:174-177 | a valid loop walked the other way round is a valid loop |
| LoopPath.TraceShaped | 10/day_10_part2.py:194-206 | the stack walk only adds Loop marks, for exactly the cells it visits |
| LoopPath.TraceLinked | 10/day_10_part2.py:194-206 | every visited cell is a seed or reached through an open side of an earlier one |
| LoopPath.WalkLoop | 10/day_10_part2.py:184-206 | the path starts at the start, and exactly its cells are marked Loop |
| LoopPath.WalkLoopLinked | 10/day_10_part2.py:189-206 | every later path cell is the start again or lies through an open side of an earlier one |
| LoopPath.WalkAlongLoop | 10/day_10_part2.py:189-206 | on a valid loop the path is the loop in order plus its last cell again, and exactly the loop is marked |
| LoopDistance.Enqueue | 10/day_10_part1.py:174-181 | unmarked neighbours are queued behind the old entries and marked −1 |
| LoopDistance.EnqueueFresh | 10/day_10_part1.py:177-181 | every appended entry is a newly marked neighbour at the next distance |
| LoopDistance.EnqueueDistinct | 10/day_10_part1.py:179-181 | appended entries are distinct and cover every newly marked cell, so each cell is queued once |
| LoopDistance.Spread | 10/day_10_part1.py:167-181 | the walk keeps every marked cell and gives a distance to every queued cell |
| LoopDistance.SpreadKeeps | 10/day_10_part1.py:167-181 | assigned distances stay, queued cells get their entry's distance, and no −1 mark survives |
| LoopDistance.Distances | 10/day_10_part1.py:159-187 | the start gets distance 0 and no distance is negative; a start off the grid fails |
| LoopDistance.Farthest | 10/day_10_part1.py:193 | the answer is a largest distance, failing on an empty dictionary |
| LoopDistance.DistancesOnLoop | 10/day_10_part1.py:163-187 | on a valid loop the distances are exactly the loop's cells, each at its shorter way round |
| LoopDistance.RingDistancesMax | 10/day_10_part1.py:193 | the largest ring distance is half the loop's length |
| LoopDistance.FarthestOnRing | 10/day_10_part1.py:193 | any largest ring distance is half the loop's length |
| LoopDistance.PartOneDistances | 10/day_10_part1.py:133-187 | a failed parse or resolution is the error; distances are never negative |
| LoopDistance.PartOneOnLoop | 10/day_10_part1.py:133-187 | when the start lies on a valid loop the distances are the loop's ring distances |
| LoopDistance.SolvePartOne | 10/day_10_part1.py:133-193 | a grid that cannot be drawn fails at the first frame; otherwise the answer is the largest distance, and half the loop's length when the start lies on a valid loop |
| SideClassifier.SubmitOne | 10/day_10_part2.py:252-254 | a present unknown neighbour is labelled and queued; nothing else changes |
| SideClassifier.Submit | 10/day_10_part2.py:251-254 | after the four submissions no present neighbour is unknown |
| SideClassifier.Flood | 10/day_10_part2.py:240-254 | the fill never creates an unknown cell |
| SideClassifier.FloodKeepsCells | 10/day_10_part2.py:240-254 | the fill writes only the seed and unknown cells, all with one label, and keeps every known cell |
| SideClassifier.FloodCloses | 10/day_10_part2.py:240-254 | no cell the fill started from or labelled keeps an unknown neighbour |
| SideClassifier.FloodReaches | 10/day_10_part2.py:240-254 | every unknown cell connected to the seed through unknown cells gets the label |
| SideClassifier.SideOf | 10/day_10_part2.py:260-261 | the label is Inside or Outside |
| SideClassifier.SideOfIsRightHand | 10/day_10_part2.py:229-261 | an edge side is Outside exactly when it is on the right of the entry and exit steps together, Inside exactly when on the left |
| SideClassifier.FloodEdgesCovers | 10/day_10_part2.py:257-261 | after a tile's edge loop no edge neighbour is unknown |
| SideClassifier.ClassifyLabels | 10/day_10_part2.py:225-261 | off the path, the classification only turns unknown cells into Inside or Outside |
| SideClassifier.ClassifyCloses | 10/day_10_part2.py:225-261 | no Inside or Outside cell ends next to an unknown cell |
| SideClassifier.ClassifyCovers | 10/day_10_part2.py:225-261 | no edge neighbour of a walked tile is left unknown |
| SideClassifier.MarkUnknownSound | 10/day_10_part2.py:215-220 | marking adds exactly the rectangle cells without a category, as Unknown, and keeps the rest |
| SideClassifier.CountPartition | 10/day_10_part2.py:270-271 | every cell is counted under exactly one category |
| SideClassifier.Classified | 10/day_10_part2.py:112-261 | an empty input or a failed parse or resolution is the error; a classification exists only for a grid that can be drawn |
| SideClassifier.PartTwo | 10/day_10_part2.py:270-271 | the answer is the count of Outside and of Inside cells |
| SideClassifier.SidesAfterWalk | 10/day_10_part2.py:214-261 | after marking and classification, path tiles are walked and every other cell is in the rectangle, unknown or labelled |
| SideClassifier.SidesCount | 10/day_10_part2.py:215-271 | outside, inside and unknown counts add up to the rectangle cells off the path |
| SideClassifier.PartTwoSound | 10/day_10_part2.py:112-271 | the whole second part: cells described as above, labels closed, edges covered, counts adding up |
| SideClassifier.PartTwoOnLoop | 10/day_10_part2.py:189-212 | when the start lies on a valid loop the walked path is the loop with its last tile repeated, unless the final frame cannot be drawn, which is the error |
| Text.JoinSplit | 02/day_02_part1.py:13 | joining the pieces of a split gives the string back |
| Text.SplitJoin | 02/day_02_part1.py:25-30 | splitting pieces joined by a separator they lack gives the pieces back |
| Text.StripIdempotent | 02/day_02_part1.py:25-30 | stripping twice is stripping once |
| Text.ParseShow | 02/day_02_part1.py:22 | int() reads back the decimal spelling of a number |

## Left out

- File reading, `splitlines`/`readlines` and every `print`: inputs are sequences of lines or parsed values, and answers are returned.
- The `Ansi` class and the text `draw_pipes` builds and prints: output only. The cells a frame reads are modelled (`Pipes.DrawFails`).
- The second part's frames drawn every `ANIM_STEPS` path tiles during the walk: when the walk also steps off the grid the model reports `OffGrid`, although a frame drawn earlier may raise first. Both are a `KeyError` in the code.
- AlmanacRanges.PartTwoLowest: stated for seed ranges of positive length only. A range of length zero is accepted by the code and its beginning enters the minimum although no seed reaches it; `AlmanacRanges.EmptySeedLowers` and `AlmanacRanges.EmptySeedUnreached` state this case.
- Day 6: its answers come from floating-point `math.sqrt` and `ceil` with an epsilon.
- The regular-expression parsing of day 8's node lines: the network is taken as a map.
- The `locals()` dispatch that fills day 5's tables: the seven tables are a sequence of entry lists.
- Python's `list.sort` (day 5 tables, day 7 hands): sortedness is a precondition (`AlmanacRanges.Sorted`, `CamelCards.Ascending`).
- Unicode digits: `isdigit` is the ten ASCII digits; `int()` reads surrounding white space, an optional sign and ASCII digits, but not underscores or other Unicode digits.
- Wasteland.PartOne: the walks carry fuel; running out of it is an error the source never reaches or reports.
- Wasteland.PartTwoLcm: proves the fold is the least common multiple of the first arrival counts. The claim that all walks first meet there rests on the puzzle input's cycles and is not modelled.
- Wasteland.CountSteps: the unused `path` list is not kept.
- Wasteland.PartTwo: the names to start from are a parameter, `keys`, in the order the dictionary iterates them. The model requires only that they lie in the network, not that they are exactly its names without repeats; the program passes `network.keys()`.
- AlmanacRanges.ComputeMappingImage, ComputeMappingPieces, StageImage, StagePieces, PipelineImage, PipelinePieces, PartTwoLowest, SinglePoint: each needs every table sorted by source start (the code sorts it; see the `list.sort` line above) and free of overlapping source ranges. The code does not check the second; it relies on the puzzle input having it. Without it the pieces can miss the lookup image: `OverlapUnreached` shows a reversed gap and an answer no seed reaches.
- Scratchcards.CountCards: copy counts are stated as the closed-form total of copies won, not as a per-step invariant of the queue.
- LoopDistance.DistancesOnLoop: assumes the start lies on a valid loop. Branching pipe networks are only covered by the general walk contracts.
- SideClassifier.ClassifyCovers: the repeated last path cell is a walked tile like the others. The claim that it starts no flood is not stated separately.
- GearRatios.PartTwoSpec: a run records only one symbol: the first in neighbour order next to its last touching digit. A number next to both '*' and another symbol can therefore miss the star. This symbol choice is modelled as the code has it. The width is not: `PartTwo` scans with the longest line, and the width the code computes is `PartTwoAsWritten` (see Findings).
- The day 3 grid dictionary is the text itself, read through a lookup that answers '.' outside it.
- SideClassifier.SideOfIsRightHand: states on which hand of the path each label lies. That Inside is the true interior is not claimed, because the code's own comment at 10/day_10_part2.py:222-224 does not promise it.

## Findings

| source | as written | input that shows it | evidently intended | confidence | as-written member | corrected member |
|---|---|---|---|---|---|---|
| 03/day_03_part1.py:18 | `width = max(height, x + 1)` takes the line count, not the running width, so the width ends as the larger of the line count and the last line's length | `["..1*", ".."]`: the width becomes 2 and the part number 1 in column 2 is never scanned; the answer is 0 | `width = max(width, x + 1)`, the longest line; the answer is 1 | not executed | GearRatios.WidthMissesNumber | GearRatios.ScanMaxWidthComplete |
| 03/day_03_part2.py:23 | the same `width = max(height, x + 1)` as in the first part | `["..3*4", "..."]`: the width becomes 3, so only the 3 is attached to the '*' and the answer is 0 | the longest line as the width; the 3 and the 4 form a gear and the answer is 12 | not executed | GearRatios.WidthMissesGear | GearRatios.PartTwoSpec |
| 05/day_05_part1.py:23 | `value <= range.src + range.len` also accepts the value one past the source range | entry (dst 50, src 98, len 2) and value 100: it maps to 52 | the half-open test `value < range.src + range.len`, as part 2's ranges use; 100 maps to itself | not executed | Almanac.InclusiveEndDiffers | Almanac.LookupFirst |
