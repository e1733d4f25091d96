# Advent of Code 2023 solutions in Dafny

This project models the puzzle logic of a Rust repository of Advent of Code
2023 solutions. Day 5's interval engine is at the centre of the model. It
maps seed ranges through a chain of almanac maps without enumerating the
seeds. The model also covers:

- the Camel Cards hand ordering (day 7);
- the spring-arrangement counter (day 12);
- the coordinate library shared by several days;
- the pipe maze (day 10);
- the mirror finder (day 13);
- days 1, 2, 3, 4, 6, 8, 9 and 11.

Each source file becomes one module, and day 5 is split into four:

- `Day5Ranges` holds the half-open range set operations.
- `Day5Mappings` holds one `destination source length` mapping line.
- `Day5Maps` holds a whole map, its range mapping and the union merge.
- `Day5Almanac` holds the seed chain.

Every operation is a pure function, or a method where the source runs a
loop with state. Most are stated against a partner: an inverse, an
invariant, or an independent reference definition. The larger ones are:

- day 9's loop against the difference-table recursion;
- day 12's pruned recursion against a brute-force count of completed rows;
- the day 5 range pipeline against the point-by-point seed mapping;
- day 8's LCM against a search for the least common multiple;
- day 1's parts against the digit list and the ascending token positions;
- day 4's match count against the set of winning indices;
- day 7's hand type against the five-of-a-kind condition, and the sort against stability.

Integers are unbounded. The source's fixed-width limits are written out
only where they choose a branch:

- `Coordinate::offset` uses a checked add against `usize`.
- `combine_races` rejects a value above `u64::MAX` when parsing.

Where the source would panic, the model either has a precondition or
returns `None`, as listed under "Left out".

## Model

| member | source | states |
|---|---|---|
| Day5Ranges.Union | src/bin/day5.rs:39-45 | The union exists exactly when the ranges overlap or touch, and then it contains both ranges. |
| Day5Ranges.Intersection | src/bin/day5.rs:47-53 | The intersection exists exactly when the ranges overlap, and then it lies inside both. |
| Day5Ranges.DisjointMeansNoSharedPoint | src/bin/day5.rs:22-24 | `disjoint` is symmetric. For non-empty ranges it holds exactly when no integer lies in both. |
| Day5Ranges.ContainedInIsInclusion | src/bin/day5.rs:26-28 | For a non-empty range, `contained_in` is set inclusion of the integer points. |
| Day5Ranges.OverlapCharacterized | src/bin/day5.rs:30-33 | `overlap` holds exactly when the ranges share a point and the first does not strictly enclose the second. |
| Day5Ranges.OverlapNotSymmetric | src/bin/day5.rs:30-33 | `overlap([5,6),[0,10))` holds but `overlap([0,10),[5,6))` does not, although the ranges share a point. |
| Day5Ranges.UnionPoints | src/bin/day5.rs:39-45 | A union of well-formed ranges contains exactly the points of the two inputs, and is no longer than the two together. |
| Day5Ranges.IntersectionPoints | src/bin/day5.rs:47-53 | The intersection contains exactly the points common to both ranges. |
| Day5Ranges.DropEmpty | src/bin/day5.rs:225-229 | Filtering out empty ranges keeps the same points and the same total length, and leaves none empty. |
| Day5Mappings.FromTriple | src/bin/day5.rs:97-104 | A `destination source length` line becomes a mapping whose source and destination start there and are `length` long. |
| Day5Mappings.MapPoint | src/bin/day5.rs:148-154 | A point is mapped exactly when it lies in the source. Its image lies in the destination, and translating the image back gives the point. |
| Day5Mappings.MapPointOnto | src/bin/day5.rs:148-154 | Every destination point is the image of some source point. |
| Day5Mappings.MapRange | src/bin/day5.rs:157-184 | The pieces are well formed, and their lengths add up to the input's length. The unmapped pieces hold the input's points outside the source, and the mapped piece holds the images of those inside. For an input disjoint from the source, the mapped piece is absent or empty and the input survives unchanged. |
| Day5Mappings.UnmappedCovered | src/bin/day5.rs:56-86 | The list of unmapped pieces covers exactly the points and length of its optional parts. |
| Day5Maps.FindMap | src/bin/day5.rs:193-198 | No mapping applies exactly when no source contains the point; otherwise the first matching mapping's image is used. |
| Day5Maps.MapThrough | src/bin/day5.rs:193-198 | An unmatched point passes through unchanged; a matched one goes to the first matching mapping's image. |
| Day5Maps.ApplyMappingPoints | src/bin/day5.rs:204-223 | One mapping over the working set: the leftover pieces are the working points outside its source, and the mapped pieces are the images of those inside. |
| Day5Maps.TranslateImage | src/bin/day5.rs:200-229 | The ranges that come out of the fold contain exactly the images, under first-match point mapping, of the input points. |
| Day5Maps.FindUnion | src/bin/day5.rs:230-247 | The merge search returns the first index whose range unites with the candidate, or reports that none does. |
| Day5Maps.MergeStep | src/bin/day5.rs:230-247 | Merging one range grows the list exactly when nothing unites with it, and keeps the covered points. |
| Day5Maps.Compact | src/bin/day5.rs:230-247 | The repeated merge never lengthens the list, keeps exactly the covered points and introduces no empty range. |
| Day5Maps.CompactLoop | src/bin/day5.rs:230-247 | The loop that repeats merge passes until the length stops falling computes the same list as the recursive definition. |
| Day5Maps.MapRanges | src/bin/day5.rs:200-249 | The result of mapping a range set has no empty and no inverted range. |
| Day5Maps.MapRangesImage | src/bin/day5.rs:200-249 | The mapped range set covers exactly the images of the input's points. |
| Day5Maps.CompactMayLeaveOverlap | src/bin/day5.rs:230-247 | Mapping `[100,101)` by `[100,101)->[5,6)` alongside `[0,10)` leaves `[5,6)` and `[0,10)` unmerged, although they share a point. |
| Day5Almanac.SeedRanges | src/bin/day5.rs:128 | The seed list read in pairs gives ranges that start at the first number and are as long as the second. |
| Day5Almanac.RangesThroughImage | src/bin/day5.rs:272-276 | Folding ranges through every map covers exactly the locations of the seeds they contain. |
| Day5Almanac.PointRangeConsistency | src/bin/day5.rs:260-276 | A one-seed range is sent to exactly that seed's location. |
| Day5Almanac.LowestLocation | src/bin/day5.rs:264-270 | There is no answer exactly when there are no seeds; otherwise the answer is some seed's location and no seed's location is lower. |
| Day5Almanac.AllOutputsImage | src/bin/day5.rs:278-285 | The outputs of all seed ranges cover exactly the locations of all seeds in those ranges. |
| Day5Almanac.LeastStartIsLeastPoint | src/bin/day5.rs:278-285 | For non-empty ranges, the least start is a covered point and no covered point is smaller. |
| Day5Almanac.LowestLocationRangesCorrect | src/bin/day5.rs:278-285 | The range answer is the location of some seed in the ranges and no such seed's location is lower. There is no answer exactly when the ranges hold no seed. |
| Day7.CardCmp | src/bin/day7.rs:33-45 | Two cards compare Equal exactly when they are the same card. Without jokers the order is the rank order; with jokers J is below every other card. |
| Day7.ParseCard | src/bin/day7.rs:51-68 | A parsed card prints back as the input text; a failure carries the input and no card has that label. |
| Day7.ParseLabel | src/bin/day7.rs:51-68 | Parsing a card's label gives back that card. |
| Day7.TieBreakIrrelevant | src/bin/day7.rs:99-101 | Which of two equally frequent labels is taken as the most common does not change the second-highest count. |
| Day7.FiveEqualCards | src/bin/day7.rs:103-111 | Five equal cards are five of a kind with and without jokers. |
| Day7.FiveJokers | src/bin/day7.rs:91-111 | Five jokers are five of a kind in joker mode. |
| Day7.PlainFiveOfAKind | src/bin/day7.rs:89-111 | Without jokers, a five-card hand is five of a kind exactly when all five cards are equal. |
| Day7.JokerFiveOfAKind | src/bin/day7.rs:89-111 | With jokers, a five-card hand is five of a kind exactly when its non-joker cards are all the same card. |
| Day7.CountAll | src/bin/day7.rs:90-93 | A card's tally equals the hand size exactly when every card of the hand is that card. |
| Day7.CountPair | src/bin/day7.rs:90-98 | The tallies of two different cards add up to at most the hand size, and to exactly the hand size when every card is one of the two. |
| Day7.CardsCmp | src/bin/day7.rs:117-124 | Card lists compare Equal exactly when they agree on every position both have. |
| Day7.CardsCmpDecidedAt | src/bin/day7.rs:117-124 | When the lists first differ at position `i`, the comparison of the cards at `i` decides. |
| Day7.HandCmp | src/bin/day7.rs:114-125 | A stronger hand type wins; equal types fall back to the card-by-card comparison. |
| Day7.HandCmpAntisymmetric | src/bin/day7.rs:114-125 | Swapping the hands reverses the comparison. |
| Day7.Sort | src/bin/day7.rs:134-141 | Sorting gives a permutation of the hands, ordered whenever the comparison is antisymmetric. |
| Day7.EqualToInsert | src/bin/day7.rs:134-141 | Inserting a hand puts it ahead of the hands already present that compare Equal with it. |
| Day7.SortStable | src/bin/day7.rs:134-141 | Sorting is stable: the hands of a class of mutually Equal hands come out in their input order. |
| Day7.HandCmpEqual | src/bin/day7.rs:114-125 | Between hands with equally many cards, the comparison is Equal exactly when the cards are the same. |
| Day7.WinningsStable | src/bin/day7.rs:134-141 | When all hands have the same number of cards, hands with the same cards are ranked in input order. |
| Day7.BidSumSort | src/bin/day7.rs:134-141 | Sorting does not change the sum of the bids. |
| Day7.RankedSumBounds | src/bin/day7.rs:134-141 | Paying bids by consecutive ranks yields between the lowest rank and the highest rank times the bid total. |
| Day7.Winnings | src/bin/day7.rs:134-141 | The winnings lie between the bid total and the number of hands times the bid total. |
| Day7.WinningsOrder | src/bin/day7.rs:134-141 | The hands are paid in ascending hand order, and every hand is paid exactly once. |
| Day12.CheckMatchesCompletions | src/bin/day12.rs:85-123 | From any prefix consistent with the groups, the pruned recursion counts exactly the completions whose damaged runs equal the groups. |
| Day12.CheckCountsArrangements | src/bin/day12.rs:85-123 | With positive group sizes, the recursion from the start counts exactly the arrangements of `?` that match the groups. |
| Day12.PrunedHasNoCompletions | src/bin/day12.rs:92-106 | A state the recursion cuts off has no matching completion. |
| Day12.EndOfRow | src/bin/day12.rs:92-96 | At the end of the row, the placed-count test succeeds exactly when the row's runs equal the groups. |
| Day12.ZeroGroupCounted | src/bin/day12.rs:85-123 | With groups `[1, 0]`, the row `#` counts one arrangement although no row has a run of length 0. |
| Day12.RepeatAndLeak | src/bin/day12.rs:125-138 | The unfolded row is the springs repeated `amount` times with a `?` between copies; the groups repeat `amount` times. |
| Day12.UnfoldedRowCounts | src/bin/day12.rs:140-147 | For positive groups, each unfolded row's count is the number of arrangements of the unfolded row. |
| Day12.NumArrangements | src/bin/day12.rs:140-147 | For positive groups, the total is the sum of the unfolded rows' arrangement counts. |
| Coordinates.Sub | src/lib/coordinates.rs:30-39 | The difference of two coordinates is the zero offset exactly when they are equal. |
| Coordinates.OffsetBy | src/lib/coordinates.rs:47-60 | Offsetting succeeds exactly when both components stay within `0..=usize::MAX`, and then it adds the offset. |
| Coordinates.OffsetOfDifference | src/lib/coordinates.rs:30-60 | Offsetting `b` by `a - b` gives `a`. |
| Coordinates.DifferenceOfOffset | src/lib/coordinates.rs:30-60 | Offsetting `c` by `o` and then subtracting `c` gives `o`. |
| Coordinates.Manhattan | src/lib/coordinates.rs:70-72 | The distance is zero exactly for equal coordinates and at least the gap on each axis. |
| Coordinates.ManhattanTriangle | src/lib/coordinates.rs:70-72 | The distance obeys the triangle inequality. |
| Coordinates.ManhattanSymmetric | src/lib/coordinates.rs:70-72 | The distance is symmetric. |
| Coordinates.NeighbourOffset | src/lib/coordinates.rs:84-107 | The eight neighbour offsets are unit steps, and the first four are the axis-aligned ones. |
| Coordinates.Next | src/lib/coordinates.rs:84-107 | The iterator's next item is the first in-bounds neighbour at or after the current index. When there is none, every remaining offset leaves the grid. |
| Coordinates.Neighbours | src/lib/coordinates.rs:62-107 | A coordinate's neighbours exclude itself. There are at most 4 (or 8 with diagonals), each at distance 1 (or 2 diagonally). |
| Coordinates.NeighboursInOrder | src/lib/coordinates.rs:84-107 | The iterator yields exactly the in-bounds offsets, in table order. |
| Coordinates.Get | src/lib/coordinates.rs:114-118 | A cell is returned exactly when the coordinate is inside its row and the grid. |
| Coordinates.Find | src/lib/coordinates.rs:122-128 | An item is found exactly when some row holds it. The result holds the item, and no earlier row and no earlier cell of its row holds it. |
| Day10.OppositeInvolution | src/bin/day10.rs:19-26 | The opposite of the opposite is the direction itself, and no direction is its own opposite. |
| Day10.FromOffset | src/bin/day10.rs:43-51 | An offset converts to a direction exactly when it is a unit step. |
| Day10.DirectionRoundTrip | src/bin/day10.rs:30-51 | Converting a direction to an offset and back gives the direction. |
| Day10.OffsetRoundTrip | src/bin/day10.rs:30-51 | Converting a unit offset to a direction and back gives the offset. |
| Day10.OppositeOffset | src/bin/day10.rs:19-37 | The opposite direction's offset is the negated offset. |
| Day10.Walk | src/bin/day10.rs:62-75 | A move through a node succeeds exactly when the node is a pipe entered through one of its ends, and it leaves through a pipe end. |
| Day10.WalkReversible | src/bin/day10.rs:62-75 | Walking back out the way one came in returns the reverse of the original direction. |
| Day10.WalkThrough | src/bin/day10.rs:62-75 | A pipe joining `x` and `y` turns an entry heading opposite to `x` into `y`, and the other way round; entries from any other direction fail. |
| Day10.ParseNode | src/bin/day10.rs:183-190 | A character parses exactly when it is one of `\|-LJ7F.S`, and every pipe joins two different directions. |
| Day10.ParseNodeInjective | src/bin/day10.rs:183-190 | Different characters give different nodes. |
| Day10.ParseNodeCovers | src/bin/day10.rs:183-190 | Every pair of distinct directions is, in one order or the other, some pipe character. |
| Day10.StartPoint | src/bin/day10.rs:108-110 | The start point is where the maze holds `S`; none is reported only when no cell holds it. |
| Day10.CountEnclosed | src/bin/day10.rs:136-163 | The row scan counts exactly the off-path cells with a non-zero winding number, and no more than the off-path cells. |
| Day10.NoCrossingNoneEnclosed | src/bin/day10.rs:136-163 | In a row with no south-going pipe end, no cell is enclosed. |
| Day13.Rotate | src/bin/day13.rs:60-66 | Rotation transposes the floor: cell `(i, j)` of the result is cell `(j, i)` of the input. |
| Day13.RotateTwice | src/bin/day13.rs:60-66 | Rotating a rectangular floor twice gives back the floor. |
| Day13.DiffZero | src/bin/day13.rs:75-100 | Two equal-length rows differ in no tile exactly when they are equal. |
| Day13.ExactMirrorPairs | src/bin/day13.rs:75-100 | At an exact mirror line, each row pair that mirrors across the line is equal. |
| Day13.ReflectsAt | src/bin/day13.rs:75-100 | The row-pair scan accepts a line exactly when the mirrored rows differ in no tile (exactly one tile when smudged). |
| Day13.HorizontalMirrorRows | src/bin/day13.rs:75-100 | The result is the first mirror line, or none when there is no mirror line. |
| Day13.MirrorValue | src/bin/day13.rs:68-73 | A horizontal mirror scores 100 per row above it; otherwise the rotated floor's mirror counts. There is no value exactly when neither orientation has a mirror. |
| Day2.DrawFrom | src/bin/day2.rs:21-31 | Red is the last red count listed, while green and blue are the totals of their counts. |
| Day2.RedOverwritten | src/bin/day2.rs:25 | `3 red, 4 red` records 4 red while `3 green, 4 green` records 7 green. |
| Day2.DrawFromTotals | src/bin/day2.rs:21-31 | Each colour is the total of its counts. |
| Day2.DrawFromAgrees | src/bin/day2.rs:21-31 | With at most one red entry, the draw as written equals the totals. |
| Day2.Power | src/bin/day2.rs:35-37 | The power is zero exactly when some colour is zero. |
| Day2.IsValid | src/bin/day2.rs:47-51 | A game is valid exactly when every draw is within the bound. |
| Day2.FewestPossible | src/bin/day2.rs:53-60 | The fewest cubes fit every draw. |
| Day2.ValidIffFewestFits | src/bin/day2.rs:47-60 | A game is valid under a bound exactly when its fewest cubes fit the bound. |
| Day4.Matches | src/bin/day4.rs:18-23 | The match count is the number of indices of played entries that are winning numbers, so a repeated entry counts each time; it is 0 exactly when no played number wins and full exactly when every one does. |
| Day4.CountInPlays | src/bin/day4.rs:18-23 | Filtering and counting the played entries from index `lo` on gives the size of the set of their winning indices. |
| Day4.Score | src/bin/day4.rs:25-32 | A card scores nothing exactly when it has no match, and scores 1 for a single match. |
| Day4.PointsDouble | src/bin/day4.rs:25-32 | Each further match doubles the score. |
| Day4.Scratchcards | src/bin/day4.rs:69-79 | The copy counts equal the recursive definition of cards won, and the total is their sum, at least one per card. |
| Day4.AddCopies | src/bin/day4.rs:72-76 | Processing card `i` settles its count and adds its copies to exactly the next `matches` cards. |
| Day6.DistanceTravelled | src/bin/day6.rs:24-29 | Holding the button for no time or the whole race travels nothing. |
| Day6.DistanceSymmetric | src/bin/day6.rs:24-29 | Holding for `h` and for `time - h` travel the same distance. |
| Day6.WinsBetween | src/bin/day6.rs:31-33 | A hold time between two winning hold times also wins. |
| Day6.FirstWin | src/bin/day6.rs:35-47 | The forward search finds the least winning hold time or reports none. |
| Day6.LastWin | src/bin/day6.rs:35-47 | The backward search finds the greatest winning hold time or reports none. |
| Day6.WinningMovesCount | src/bin/day6.rs:35-47 | The count equals the number of winning hold times strictly between 0 and the race time. |
| Day6.SpanCount | src/bin/day6.rs:35-47 | Given the first and last winning hold times, the count is `last - first + 1`, since every hold time between them wins. |
| Day6.DigitsRoundTrip | src/bin/day6.rs:54-71 | Reading back a number's decimal digits gives the number. |
| Day6.ParseConcatenated | src/bin/day6.rs:54-71 | Joining numbers' digits fails exactly on no numbers or a value above `u64::MAX`. |
| Day6.CombineRaces | src/bin/day6.rs:54-71 | Combining succeeds exactly when there is a race and both joined values fit `u64`, and gives the race of the joined times and distances. |
| Day9.RowDifference | src/bin/day9.rs:13-25 | The loop computes the next value defined by the difference table. |
| Day9.ExtendsTable | src/bin/day9.rs:13-25 | Appending the prediction to a row appends the differences' prediction to the differences. |
| Day9.ConstantRow | src/bin/day9.rs:13-25 | A constant row predicts its constant. |
| Day9.ArithmeticRow | src/bin/day9.rs:13-25 | An arithmetic progression predicts one more step. |
| Day9.NegatedRow | src/bin/day9.rs:13-25 | Negating a row negates its prediction. |
| Day9.PreviousUnfold | src/bin/day9.rs:37-40 | Extrapolating the reversed row gives the first value minus the backward extrapolation of the differences. |
| Day9.ArithmeticRowBackwards | src/bin/day9.rs:37-40 | An arithmetic progression extends one step backwards. |
| Day11.NumEmptyBetween | src/bin/day11.rs:12-19 | The count is zero exactly when no empty column or row lies in the spans, and is at most the Manhattan distance plus two. |
| Day11.NumEmptySymmetric | src/bin/day11.rs:12-19 | The count does not depend on the order of the two galaxies. |
| Day11.PairDistance | src/bin/day11.rs:25-28 | Expanded distance is at least the Manhattan distance, and equals it when the multiplier is 1. |
| Day11.ExpansionMonotone | src/bin/day11.rs:21-30 | A larger multiplier never decreases the sum of distances. |
| Day11.PairDistanceExpanded | src/bin/day11.rs:21-30 | For separated galaxies, the expanded distance is the Manhattan distance between the two galaxies once the universe is expanded. |
| Day11.SumIsExpandedManhattan | src/bin/day11.rs:21-30 | The sum equals the plain Manhattan pair sum over the expanded galaxy positions. |
| Day11.RowGalaxies | src/bin/day11.rs:38-44 | The galaxies of one row are exactly its `#` columns, left to right. |
| Day11.GalaxiesFrom | src/bin/day11.rs:34-46 | The galaxy list holds exactly the `#` positions. |
| Day11.GalaxiesInReadingOrder | src/bin/day11.rs:34-46 | The galaxies are listed row by row, and left to right within a row. |
| Day11.EmptyLines | src/bin/day11.rs:51-57 | The empty lines are exactly the indices below the bound that no galaxy uses, in increasing order. |
| Day11.WithEmptyLines | src/bin/day11.rs:48-63 | The empty columns and rows are exactly those up to the furthest galaxy that no galaxy uses. |
| Day11.Parse | src/bin/day11.rs:33-64 | There is no result exactly when the map has no `#`; otherwise it holds the galaxies with their empty lines. |
| Day1.CalibrationOne | src/bin/day1.rs:45-49 | A line has no value exactly when it has no digit; otherwise its value is ten times its first digit character plus its last, hence at most 99. |
| Day1.FirstOfDigits | src/bin/day1.rs:46 | Scanning forward for a digit finds the first element of the line's digit list, or nothing when the list is empty. |
| Day1.LastOfDigits | src/bin/day1.rs:47 | Scanning backward for a digit finds the last element of the line's digit list, or nothing when the list is empty. |
| Day1.SingleDigit | src/bin/day1.rs:45-49 | A line with one digit `d` has calibration value `11 * d`. |
| Day1.SumAll | src/bin/day1.rs:42-51 | The sum fails exactly when some line has no value. |
| Day1.PartOne | src/bin/day1.rs:42-51 | Part one fails exactly when some line has no digit. |
| Day1.PartOneBound | src/bin/day1.rs:42-51 | Part one is at most 99 per line. |
| Day1.TokenFrom | src/bin/day1.rs:13-30 | The token at a position is the smallest digit whose numeral or name starts there, or none when none does. |
| Day1.TokensAt | src/bin/day1.rs:13-39 | A digit is read from a line exactly when its numeral or name starts at some position. |
| Day1.ParseLine | src/bin/day1.rs:36-39 | Parsing fails exactly on the empty line; otherwise its k-th value is the digit spelled at the k-th position, in ascending order, where a numeral or name starts. |
| Day1.TokenStarts | src/bin/day1.rs:32-39 | The starting positions are ascending, each starts a numeral or name, and every position that starts one is listed. |
| Day1.TokensByPosition | src/bin/day1.rs:32-39 | Advancing one character at a time collects, in order, the digit spelled at each listed starting position. |
| Day1.CalibrationTwo | src/bin/day1.rs:53-65 | A line has no value exactly when no digit is read, and every value lies between 11 and 99. |
| Day1.CalibrationTwoEnds | src/bin/day1.rs:53-65 | When `i` is the least and `j` the greatest position where a numeral or name starts, the value is ten times the digit spelled at `i` plus the digit spelled at `j`. |
| Day1.PartTwoNone | src/bin/day1.rs:53-65 | Part two fails exactly when some line spells no digit. |
| Day1.Twone | src/bin/day1.rs:28-29 | `twone` reads as 2 then 1, because matching advances by one character. |
| Day1.PlainLineAgrees | src/bin/day1.rs:42-65 | On a line without spelled-out names both parts give the same value. |
| Day3.Flatten | src/bin/day3.rs:19-28 | The byte stream visits every cell of every line, row by row, with its row and column. |
| Day3.ScanNumbers | src/bin/day3.rs:29-48 | The scan records a number for exactly the starts of digit runs, each boxed and valued from its run. |
| Day3.ScanSymbolsSound | src/bin/day3.rs:29-57 | Every symbol the scan records comes from a byte that is neither `.` nor a digit, with that byte's position. |
| Day3.ScanSymbolsComplete | src/bin/day3.rs:29-57 | Every byte that is neither `.` nor a digit is recorded as a symbol. |
| Day3.RunCells | src/bin/day3.rs:36-47 | A digit run that stops at line ends occupies consecutive columns of one row. |
| Day3.ByLineBoxIsDigitNeighbourhood | src/bin/day3.rs:43-47 | For runs that stop at line ends, a number's box contains a symbol exactly when the symbol is next to one of its digits. |
| Day3.PartNumbers | src/bin/day3.rs:66-74 | The part numbers are exactly the numbers whose box contains a symbol. |
| Day3.PartSumMonotone | src/bin/day3.rs:66-74 | More symbols never reduce the part-number sum. |
| Day3.NoSymbolsNoParts | src/bin/day3.rs:66-74 | Without symbols the part-number sum is zero. |
| Day3.Adjacent | src/bin/day3.rs:81-84 | The numbers adjacent to a symbol are exactly the numbers whose box contains it. |
| Day3.GearRatio | src/bin/day3.rs:80-90 | A `*` with other than two adjacent numbers contributes nothing. |
| Day3.GearOfTwo | src/bin/day3.rs:80-90 | A `*` with exactly two adjacent numbers contributes their product. |
| Day3.NoStarNoGears | src/bin/day3.rs:77-91 | Without `*` symbols the gear sum is zero. |
| Day3Wrap.WrappedRun | src/bin/day3.rs:36-41 | On lines `1`, `2`, `*`, the scan reads one number 12 that spans both lines, and its box misses the `*` under the 2. |
| Day3Wrap.ByLineRun | src/bin/day3.rs:36-41 | Stopping runs at line ends, the same schematic reads 1 and 2, and 2 is a part number. |
| Day8.Turn | src/bin/day8.rs:63-68 | Left takes the node's left name and Right takes its right name. |
| Day8.CountSteps | src/bin/day8.rs:10-20 | No result when there are no directions or no `AAA`. A count `n` means the walk first lands on `ZZZ` after `n` moves; a failure means it reached an unknown name. |
| Day8.Explore | src/bin/day8.rs:31-38 | The visit list follows the walk from the start without repeats and ends where the walk returns to a visited name. |
| Day8.LoopReturns | src/bin/day8.rs:31-38 | The repeated name recurs exactly a loop length after its first visit. |
| Day8.LoopDistinct | src/bin/day8.rs:31-38 | No name repeats before the walk reaches the repeated name a second time. |
| Day8.Lcm | src/bin/day8.rs:39-44 | The least common multiple is positive and a multiple of both inputs. |
| Day8.LcmDividesCommonMultiple | src/bin/day8.rs:39-44 | The least common multiple divides every positive common multiple. |
| Day8.LcmAll | src/bin/day8.rs:46 | The reduction is absent exactly on an empty list and is otherwise a multiple of every value. |
| Day8.LcmAllLeast | src/bin/day8.rs:46 | The reduction divides every positive common multiple of the values. |
| Day8.LcmAllOrderFree | src/bin/day8.rs:39-46 | Reordering the values does not change the reduction, so the map's key order does not matter. |
| Day8.Starts | src/bin/day8.rs:25 | The starting names are exactly the names whose third character is `A`. |
| Day8.CountStepsMultiple | src/bin/day8.rs:22-47 | The result is absent exactly when no name is a start, and is otherwise a positive multiple of the direction count. |
| Day8.CountStepsMultipleLoops | src/bin/day8.rs:22-47 | Every start's loop length divides the result. |
| Day8.CountStepsMultipleLeast | src/bin/day8.rs:22-47 | The result divides every common multiple of the per-start values. |

## Left out

- Input handling is not modelled: reading the puzzle input, splitting lines, printing results and each day's `main`. The parser-combinator code (nom, winnow) is left out too. Each operation takes the parsed data it works on.
- `Display` implementations are left out because they only render for debugging.
- Parallel iteration with `rayon` (day 5 seed ranges, day 12 rows) is modelled as a sequential sum or minimum. The result does not depend on the schedule.
- The `memoize` cache on `recursive_check` is not modelled: it changes speed, not results. The `'static` leak in `repeat_and_leak` is modelled as building new sequences.
- Integer width is modelled only where it chooses a branch. Elsewhere arithmetic is unbounded, so overflow of `u64`, `u32`, `usize` or `i32` is not modelled. This covers the day 6 product, day 4's `1 << (count - 1)`, day 3's `i32` parse, the day 1 `u32` sum, day 9's `i64` differences and sums, and day 11's `usize` sums.
- Day5Almanac.LowestLocation: `unwrap` on an empty seed list is modelled as `None` rather than a panic. The same holds for `lowest_location_ranges`.
- Day5Almanac.SeedRanges: requires an even number of seeds. The source's `chunks(2)` would panic indexing an odd final chunk.
- Day13.MirrorValue: `expect` when neither orientation has a mirror is modelled as `None`.
- Day13.Rotate: requires a non-empty floor whose rows are at least as long as the first, as indexing in the source does.
- Day12.RepeatAndLeak: requires `amount >= 1`, as `amount - 1` would underflow in the source.
- Day11.PairDistance: the multiplier must be at least 1, because `multiplier - 1` underflows on 0 in the source.
- Day8.CountStepsMultiple: requires a closed graph (every target is a key), at least one direction, and names of at least three characters. Under these the source's `unwrap`s and `name.as_bytes()[2]` cannot panic. Closure is stronger than the source needs: only the nodes reachable from the starting names must be keys. Names are sequences of characters; for the ASCII names of the puzzle the third byte and the third character agree.
- Coordinates.Sub: requires both coordinates to be at most `isize::MAX`, because the source's `try_into().unwrap()` panics above it (src/lib/coordinates.rs:34-37).
- Coordinates.Step: follows a release build, where `isize::MIN.abs()` wraps to `isize::MIN`, fails the `usize` conversion and gives `None`. A debug build panics on that `abs` instead (src/lib/coordinates.rs:51 and 56).
- Day8.CountSteps: the source loop may run forever. The model carries a step budget and returns `Walking` when the budget runs out before `ZZZ`.
- Day8.Lcm: defined as the least common multiple found by search rather than the `num` crate's gcd formula. Both give the least common multiple.
- Hash map iteration order is abstracted. Day 7 counts labels over a fixed card list, and day 8 takes the key order as a parameter (LcmAllOrderFree shows it does not matter).
- Day 10's `find_length` (src/bin/day10.rs:112-134), which walks the loop from `S`, is not modelled. CountEnclosed takes the loop's coordinates and directions as given.
- Day7.Sort: the contract states a sorted permutation. Stability is stated separately by SortStable, for any class of mutually Equal hands.
- Day7.HandTypeOf: only the five-of-a-kind class is characterised independently (PlainFiveOfAKind, JokerFiveOfAKind). The claim that jokers never lower a hand's type is not proved.
- Day7.Winnings: the contract bounds the winnings by the bid total rather than giving the exact ranked sum. WinningsOrder states the ordering and permutation separately.
- Day12.CheckCountsArrangements: proved only for positive group sizes. ZeroGroupCounted shows a zero group is counted where no arrangement exists, but puzzle inputs never contain one.
- Day1.PartOne: on an empty input the sum is `Some(0)`, as in the source.
- Day5Ranges.OverlapCharacterized: `overlap` is not symmetric as written. A range strictly inside another overlaps it only in one direction, which is what the model follows.
- Day5Maps.Compact: merging stops at the first pass that does not shorten the list. Because of the asymmetric `overlap`, the result may still share points (CompactMayLeaveOverlap), so the model does not claim a disjoint result.
- Day5Mappings.MapRange: for an input that ends exactly where the source starts, the mapped piece is an empty range rather than absent. The contract says "absent or empty".

## Findings

| source | as written | input that shows it | evidently intended | confidence | as-written member | corrected member |
|---|---|---|---|---|---|---|
| src/bin/day2.rs:25 | `Red => draw.red = count` overwrites the red count, while green and blue add with `+=` | a draw listing `3 red, 4 red` | red is totalled like the other colours, giving 7 | medium, not executed (puzzle draws list each colour once, so answers are unaffected) | Day2.RedOverwritten | Day2.DrawFromTotals |
| src/bin/day3.rs:36-41 | the digit loop keeps taking digits across a line end, and the box is computed from the first digit's row and column | lines `1`, `2`, `*` | a number ends at the end of its line: 1 and 2, with 2 touching the `*` | high, not executed | Day3Wrap.WrappedRun | Day3Wrap.ByLineRun |
