# Advent of Code 2022 solvers, modelled in Dafny

This project models the puzzle solvers of the Rust repository
`rust-aoc-2022`: days 1 to 6, 8, and 10 to 15. There is one Dafny module per
source file (`Day01` … `Day15`, in `day01.dfy` … `day15.dfy`). A shared
module `Common` holds `Option`, sums and products, a descending insertion
sort with its "top k" lemma, and decimal digit reading and writing with their
round trips.

Each solver keeps the form of its source:

- Code that only computes becomes datatypes, functions and lemmas. This covers
  the calorie groups (day 1), rock-paper-scissors scoring (day 2), rucksack
  priorities (day 3), section ranges (day 4), marker windows (day 6), packet
  ordering and parsing (day 13) and sensor coverage (day 15).
- Code that updates state in place becomes methods with loops and invariants,
  each proved against a specification function:
  - the crate stacks (day 5), an `array` of stacks
  - the visibility and scenic-score grids (day 8), `array2`
  - the CPU trace and the CRT screen (day 10), with the screen an `array2`
  - the monkey simulation (day 11), `array`s of item lists and counters
  - the hill-climbing label-correcting search (day 12)
  - the falling sand (day 14)

Input files, `println!` output and line splitting are not modelled. Every
solver takes the already split lines, or the already parsed values, as
parameters. Where the program panics (an `unwrap` on `None`, an index out of
range), the model either states the condition as a `requires` or returns
`None`. Which one depends on whether the caller can know the condition in
advance.

Integers are unbounded. Overflow of the Rust integer types is not modelled,
except where the source's parser rejects a number. An i32 or u32 that does
not fit makes `parse` fail, and the model keeps that.

## Model

| member | source | states |
|---|---|---|
| Common.ParseI32 | src/day01.rs:12 | an i32 parse succeeds only with a value in the 32-bit signed range |
| Common.ParseI32OfIntToString | src/day10.rs:23-25 | every 32-bit value written in decimal parses back to itself |
| Common.ReadNatOfNatToString | src/day04.rs:5-10 | a decimal number followed by a non-digit is read back whole, the rest left untouched |
| Common.TopSumIsLargest | src/day11.rs:187-191 | any k values drawn from a bag sum to at most its k largest |
| Common.SortDesc | src/day11.rs:189 | the sort gives a descending permutation of its input |
| Day01.SumGroup | src/day01.rs:7-19 | its own contract: reading a group reports exhaustion exactly on empty input, and a group uses between one and all of the lines; the group's sum and the panic are stated by `Day01.SumGroupSpec` |
| Day01.FirstBlank | src/day01.rs:10 | a group runs to the first empty line: every line before it is nonempty |
| Day01.ParseAll | src/day01.rs:12 | reading the numbers fails exactly when some line is not an i32 |
| Day01.SumGroupSpec | src/day01.rs:7-19 | a group is the sum of the lines before the first empty one, and it consumes that empty line; a line that is not an i32 is a panic |
| Day01.Groups | src/day01.rs:25 | batching yields at most one group per line |
| Day01.Max | src/day01.rs:26 | the maximum is one of the totals and no total exceeds it |
| Day01.Part1 | src/day01.rs:21-28 | defined exactly when every group reads; 0 with no group; otherwise a group total that no other total exceeds |
| Day01.Part2 | src/day01.rs:30-39 | defined exactly when every group reads |
| Day01.TopSumIsBestChoice | src/day01.rs:31-38 | part 2 adds totals drawn from the groups, and no other choice of the same number of totals adds up to more |
| Day01.MaxIsFirstOfSorted | src/day01.rs:21-39 | the total part 1 reports is the first one part 2 adds |
| Day01.SortDescUnique | src/day01.rs:31 | any descending rearrangement of the totals is the sorted order |
| Day01.TopSumOfDescending | src/day01.rs:31-38 | part 2's sum can be read off any descending rearrangement |
| Day01.SumGroupOfLines | src/day01.rs:7-19 | one elf's numbers written one per line, then an empty line, read back as one group with their sum |
| Day01.GroupsOfFormat | src/day01.rs:21-27 | writing out the elves and reading them back gives each elf's total, in order |
| Day01.ExampleTotals | src/day01.rs:50-53 | the published example's five elves total 6000, 4000, 11000, 24000 and 10000 |
| Day01.ExampleLargest | src/day01.rs:50-53 | the largest of those totals is 24000 |
| Day01.Example | src/day01.rs:50-53 | the published example, written out, reads as those five totals |
| Day02.ShapeScore | src/day02.rs:26-30 | a shape scores 1 to 3 |
| Day02.WinLose | src/day02.rs:32-44 | an outcome scores 0, 3 or 6 |
| Day02.Beats | src/day02.rs:32-44 | the shape a shape beats differs from it, and the pair scores a win one way and a loss the other |
| Day02.WinLoseByRule | src/day02.rs:32-44 | the table is the rule: a win exactly against the beaten shape, a draw exactly against itself, a loss otherwise |
| Day02.WinLoseAntisymmetric | src/day02.rs:32-44 | swapping players swaps win and loss |
| Day02.BeatsExactlyOne | src/day02.rs:32-44 | every shape beats exactly one other shape |
| Day02.ResultScore | src/day02.rs:133-139 | a wanted result scores 0, 3 or 6 |
| Day02.MoveForResult | src/day02.rs:93-103 | playing the chosen shape against the opponent gets the wanted result; `Day02.MoveForResultAchieves` proves it is the only such shape |
| Day02.MoveForResultAchieves | src/day02.rs:93-103 | the chosen shape gets the wanted result, and it is the only shape that does |
| Day02.PlayScore | src/day02.rs:53-55 | a part 1 round scores 1 to 9: the shape score plus the outcome |
| Day02.StrategyScore | src/day02.rs:143-145 | a part 2 round scores 1 to 9 |
| Day02.StrategyIsAPlay | src/day02.rs:143-145 | a strategy scores the same as playing the shape it chooses |
| Day02.FindFrom | src/day02.rs:63-64 | the regex match is the leftmost position where the pattern matches |
| Day02.Captures | src/day02.rs:63-64 | there is no capture exactly when the pattern matches nowhere |
| Day02.ParsePlay | src/day02.rs:63-84 | no round exactly when the pattern matches nowhere in the line; `Day02.ParsePlayOfFormat` proves a written round reads back |
| Day02.ParseStrategy | src/day02.rs:108-129 | no strategy exactly when the pattern matches nowhere in the line; `Day02.ParseStrategyOfFormat` proves a written strategy reads back |
| Day02.ReadingsAgree | src/day02.rs:61-130 | both readings of a line succeed together, agree on the opponent, and read the same letter |
| Day02.ParsePlayOfFormat | src/day02.rs:61-85 | writing a round as its letters and reading it back gives it back |
| Day02.ParseStrategyOfFormat | src/day02.rs:106-130 | the same round trip for strategies |
| Day02.Part1 | src/day02.rs:148-155 | the total is the sum of the round scores of the lines, an empty line scoring 0, and lies between 0 and 9 per line; a panic exactly when a nonempty line does not match |
| Day02.Part2 | src/day02.rs:157-164 | the total is the sum of the strategy scores of the lines, an empty line scoring 0, and lies between 0 and 9 per line; a panic exactly when a nonempty line does not match |
| Day02.Example1 | src/day02.rs:177 | the published example totals 15 |
| Day02.Example2 | src/day02.rs:182 | the published example totals 12 when read as strategies |
| Day03.Priority | src/day03.rs:5-11 | lower-case letters score 1 to 26, upper-case 27 to 52 |
| Day03.PriorityInjective | src/day03.rs:5-11 | different characters get different priorities |
| Day03.PriorityInjective2 | src/day03.rs:5-11 | equal priorities mean equal characters |
| Day03.PrioritiesOfLetters | src/day03.rs:5-11 | every priority from 1 to 52 belongs to some letter |
| Day03.ItemPriorities | src/day03.rs:13-15 | the priorities line up with the characters, one for one |
| Day03.FirstCommon | src/day03.rs:22-25 | the first front value found in the back; none exactly when no value is shared |
| Day03.MisplacedItemPriority | src/day03.rs:17-26 | the answer occurs in both halves |
| Day03.MisplacedItemSpec | src/day03.rs:17-26 | a panic exactly when the halves share no character; otherwise the priority of the first shared character in front order |
| Day03.MisplacedAt | src/day03.rs:17-26 | equal priorities at the first match mean equal characters there, with none before |
| Day03.Filter | src/day03.rs:30-34 | the filter keeps exactly the values also in the second list |
| Day03.FilterThenFind | src/day03.rs:30-38 | filtering, then searching, finds the first value of the first list that is in both others |
| Day03.FirstInAllSpec | src/day03.rs:28-39 | a panic exactly when no value is in all three; otherwise the first such value |
| Day03.FirstInAll | src/day03.rs:28-39 | no contract of its own: `Day03.FirstInAllSpec` proves it gives the first value of the first list that is in the other two, and `Day03.FilterThenFind` that the source's filter-then-find computes it |
| Day03.BadgeForGroup | src/day03.rs:28-39 | the badge is the first item of the first rucksack that is in the other two |
| Day03.BadgeInAllThree | src/day03.rs:28-39 | the badge is in all three rucksacks, and nothing earlier is; none exactly when no item is shared |
| Day03.Part1 | src/day03.rs:41-47 | the total is the sum over the lines of the misplaced item's priority; a panic exactly when some line has none; at most 52 per line of letters |
| Day03.Group | src/day03.rs:53 | the k-th chunk is lines 3k to 3k+2 |
| Day03.GroupOfTail | src/day03.rs:53 | chunking the lines after the first three shifts the chunk index by one |
| Day03.Part2 | src/day03.rs:49-57 | the total is the sum of the badges of the groups of three lines; a line count that is not a multiple of three panics |
| Day03.Part2Defined | src/day03.rs:49-57 | part 2 is defined exactly when the line count is a multiple of three and every group has a badge |
| Day03.Part2HasBadges | src/day03.rs:49-57 | a defined part 2 means every group has a badge |
| Day03.BadgesMakePart2 | src/day03.rs:49-57 | every group having a badge makes part 2 defined |
| Day04.Sep | src/day04.rs:5 | a separator is consumed exactly as written |
| Day04.FindFrom | src/day04.rs:5-6 | the regex match is the leftmost position where the pattern matches |
| Day04.ParseRanges | src/day04.rs:4-12 | a parsed pair fits u32 and is read at a position where the pattern matches |
| Day04.ParseRangesNone | src/day04.rs:6 | with no match anywhere, parsing panics |
| Day04.NumThenOfFormat | src/day04.rs:7-10 | a number followed by its separator reads back |
| Day04.ParseOfFormat | src/day04.rs:4-12 | writing a pair as "a-b,c-d" and reading it back gives it back |
| Day04.ContainedSymmetric | src/day04.rs:14-16 | containment does not depend on the order of the pair |
| Day04.OverlapsSymmetric | src/day04.rs:18-20 | overlap does not depend on the order of the pair |
| Day04.Contained | src/day04.rs:14-16 | no contract of its own: `Day04.ContainedMeansSubset` proves it holds exactly when one range's sections are a subset of the other's |
| Day04.Overlaps | src/day04.rs:18-20 | no contract of its own: `Day04.OverlapsMeansShared` proves it holds exactly when the ranges share a section |
| Day04.InSections | src/day04.rs:14-20 | a range's sections are exactly the numbers between its ends |
| Day04.OverlapsMeansShared | src/day04.rs:18-20 | two ranges overlap exactly when they share a section |
| Day04.ContainedMeansSubset | src/day04.rs:14-16 | containment means one range's sections are a subset of the other's |
| Day04.ContainedOverlaps | src/day04.rs:14-20 | a contained pair overlaps |
| Day04.Collect | src/day04.rs:26 | collecting fails exactly when one line fails, else keeps every value in order |
| Day04.CollectAll | src/day04.rs:26 | when every line parses, collecting gives all the pairs in order |
| Day04.ParseAll | src/day04.rs:23-26 | a panic exactly when some line does not parse; otherwise the pairs line by line |
| Day04.CountOf | src/day04.rs:27-28 | the count never exceeds the number of pairs |
| Day04.CountOfCounts | src/day04.rs:27-28 | the count is the number of positions whose pair passes the filter |
| Day04.ContainedAtMostOverlapping | src/day04.rs:22-38 | no more pairs are contained than overlap |
| Day04.Part1AtMostPart2 | src/day04.rs:22-38 | both parts panic together, and part 1 never exceeds part 2 |
| Day04.Part1 | src/day04.rs:22-29 | no contract of its own: `Day04.CountOfCounts` proves the count is the number of contained pairs, and `Day04.Part1AtMostPart2` that it panics exactly with part 2 and never exceeds it |
| Day04.Part2 | src/day04.rs:31-38 | no contract of its own: `Day04.CountOfCounts` proves the count is the number of overlapping pairs |
| Day04.ParseAllFormatted | src/day04.rs:23-26 | written-out pairs read back |
| Day04.ExampleCounts | src/day04.rs:51-56 | the published example has 2 contained and 4 overlapping pairs |
| Day04.Example | src/day04.rs:51-56 | written out, the published example gives 2 and 4 |
| Day05.Chunk | src/day05.rs:8 | a chunk is 1 to 4 characters |
| Day05.FindCrateFrom | src/day05.rs:6-9 | the regex match is the leftmost crate pattern |
| Day05.FindCrate | src/day05.rs:9-12 | no crate exactly when the pattern matches nowhere in the chunk |
| Day05.LineCrates | src/day05.rs:8-14 | a line gives one cell per chunk |
| Day05.PushRow | src/day05.rs:5-15 | each crate of the row goes to the bottom of its stack; other stacks are unchanged |
| Day05.ParseStack | src/day05.rs:5-15 | the array of stacks becomes the row pushed onto the old stacks |
| Day05.PushRowStep | src/day05.rs:8-14 | one chunk more pushes at most one crate |
| Day05.StackLine | src/day05.rs:8 | a drawn row has 4 characters per stack, less the last space |
| Day05.CellCrate | src/day05.rs:9-12 | a drawn cell reads back as its crate |
| Day05.ChunkOfStackLine | src/day05.rs:8 | the chunks of a drawn row are its cells |
| Day05.LineCratesOfStackLine | src/day05.rs:5-15 | a drawn row reads back as the row |
| Day05.Literal | src/day05.rs:18 | a literal is consumed exactly when the text starts with it |
| Day05.FindMoveFrom | src/day05.rs:18-20 | the search stays within the line |
| Day05.FindMoveFromLeftmost | src/day05.rs:18-20 | the regex match is the leftmost position where a move matches |
| Day05.ParseMoveLeftmost | src/day05.rs:17-28 | no move exactly when nothing matches; otherwise the move read at the leftmost match |
| Day05.MatchMoveOfFormat | src/day05.rs:18-24 | the pattern matches a written-out move at its start and reads its three numbers back |
| Day05.MatchMove | src/day05.rs:18-24 | no contract of its own: `Day05.MatchMoveOfFormat` proves a written move matches and reads back with the stack numbers made 0-based |
| Day05.ParseMove | src/day05.rs:17-28 | no contract of its own: `Day05.ParseMoveLeftmost` proves it reads the move at the leftmost match, and `Day05.ParseMoveOfFormat` that a written move reads back |
| Day05.FieldOfFormat | src/day05.rs:21-23 | a literal and a number followed by a non-digit read back |
| Day05.ParseMoveOfFormat | src/day05.rs:17-28 | writing a move and reading it back gives it back, stack numbers shifted to 0-based |
| Day05.Reversed | src/day05.rs:51-54 | reversal puts each element at its mirrored position |
| Day05.Crane9000 | src/day05.rs:51-54 | moving crates one at a time changes only the two named stacks |
| Day05.Crane9001 | src/day05.rs:83-90 | moving crates as a block changes only the two named stacks |
| Day05.CanMove | src/day05.rs:51-53 | no contract of its own: the condition under which the `unwrap` of `pop_front` cannot panic; `Day05.Crane9000Undo` and `Day05.Crane9001Undo` prove a move it allows can be undone |
| Day05.MoveSingle | src/day05.rs:51-54 | the array after the move is the one-at-a-time move of the old stacks |
| Day05.MoveBlock | src/day05.rs:83-90 | the array after the move is the block move of the old stacks |
| Day05.PopBlock | src/day05.rs:83-87 | the popped crates come out reversed, and only the source stack shrinks |
| Day05.PushAll | src/day05.rs:88-90 | the held crates go on top in reverse, and only the target stack grows |
| Day05.ReversedTwice | src/day05.rs:83-90 | reversing twice is the identity, which is why the block keeps its order |
| Day05.AllCratesUpdate | src/day05.rs:51-90 | replacing one stack changes the bag of all crates by exactly that stack's difference |
| Day05.ReversedMultiset | src/day05.rs:51-54 | reversal keeps the same crates |
| Day05.MoveConserves | src/day05.rs:51-90 | taking crates off one stack and putting the same bag on another keeps all crates |
| Day05.Crane9000Conserves | src/day05.rs:51-54 | the one-at-a-time crane neither loses nor creates crates |
| Day05.Crane9001Conserves | src/day05.rs:83-90 | the block crane neither loses nor creates crates |
| Day05.Crane9001Undo | src/day05.rs:83-90 | moving the block back restores the stacks |
| Day05.Crane9000Undo | src/day05.rs:51-54 | moving the crates back one at a time restores the stacks |
| Day05.CranesAgreeOnOne | src/day05.rs:46-90 | for a single crate both cranes do the same |
| Day05.Tops | src/day05.rs:56-59 | the message is each stack's top crate, and it panics exactly when a stack is empty |
| Day05.HeaderEnd | src/day05.rs:39 | the drawing ends at the first line of at most one character |
| Day05.ReadDrawing | src/day05.rs:34-44 | no contract of its own: `Day05.ReadHeader` proves the in-place reading of the drawing ends in these stacks |
| Day05.ReadHeader | src/day05.rs:34-44 | reading the drawing fills the stacks as the drawing specification says and stops at its end |
| Day05.ApplyMoves | src/day05.rs:46-55 | applying the moves in place gives the stacks the move specification computes |
| Day05.TopCrates | src/day05.rs:56-59 | the message read in place is the tops of the stacks |
| Day05.Run | src/day05.rs:30-60 | the whole run gives the specified message |
| Day05.RunMoves | src/day05.rs:46-55 | no contract of its own: `Day05.ApplyMoves` proves the in-place moves end in these stacks |
| Day05.Solve | src/day05.rs:30-60 | no contract of its own: `Day05.Run`, `Day05.Part1` and `Day05.Part2` prove the in-place program returns this message |
| Day05.Part1 | src/day05.rs:30-60 | part 1 is the run with the one-at-a-time crane |
| Day05.Part2 | src/day05.rs:62-96 | part 2 is the run with the block crane |
| Day05.Example9000 | src/day05.rs:108-110 | the published example gives "CMZ" |
| Day05.Example9001 | src/day05.rs:113-115 | the published example gives "MCD" with the block crane |
| Day06.Elements | src/day06.rs:4-7 | the set holds exactly the characters of the window |
| Day06.DuplicateSnoc | src/day06.rs:5-7 | adding a character makes a repeat exactly when there was one or the character was already present |
| Day06.ElementsCount | src/day06.rs:8 | the set is as large as the window exactly when nothing repeats |
| Day06.NotUnique | src/day06.rs:3-9 | the check answers true exactly when some character repeats |
| Day06.LeadingRepeats | src/day06.rs:16-20 | the counted windows stay within the windows that exist |
| Day06.LeadingRepeatsSpec | src/day06.rs:16-20 | every counted window repeats a character, and the window after them does not |
| Day06.MarkerSpec | src/day06.rs:11-35 | the marker is at least k; the k characters before it are distinct; every earlier window repeats; without a distinct window it is one past the end (k for short input) |
| Day06.Marker | src/day06.rs:16-21 | no contract of its own: `Day06.MarkerSpec` proves it is the end of the first window of k distinct characters |
| Day06.Part1 | src/day06.rs:11-22 | no contract of its own: the marker for k = 4, characterised by `Day06.MarkerSpec` |
| Day06.Part2 | src/day06.rs:24-35 | no contract of its own: the marker for k = 14, characterised by `Day06.MarkerSpec`; `Day06.MessageAfterPacket` proves it is not before part 1 |
| Day06.DuplicateWidens | src/day06.rs:24-35 | a repeat within a window is a repeat of any longer window containing it |
| Day06.MessageAfterPacket | src/day06.rs:11-35 | a message marker within the input never comes before the packet marker |
| Day08.Digit | src/day08.rs:6-8 | a digit character gives a height from 0 to 9 |
| Day08.Column | src/day08.rs:28-44 | a column holds grid[y][x] for every row |
| Day08.AboveMaxBefore | src/day08.rs:15-18 | beating the running maximum is being taller than every earlier tree |
| Day08.MaxBeforeBound | src/day08.rs:11-18 | the running maximum is below h exactly when every earlier tree is |
| Day08.MaxFromBound | src/day08.rs:19-24 | the same from the other end |
| Day08.AboveMaxFrom | src/day08.rs:19-24 | beating the maximum from the far end is being taller than every later tree |
| Day08.BorderVisible | src/day08.rs:10-44 | every tree on the border is visible |
| Day08.CheckVisibleRow | src/day08.rs:10-26 | a row's marks become the old marks or visibility along that row |
| Day08.CheckVisibleCol | src/day08.rs:28-44 | a column's marks become the old marks or visibility along that column |
| Day08.MarkColumn | src/day08.rs:28-44 | the column pass over an extracted column marks exactly the visible cells |
| Day08.VisibleInRowAtLeastEnds | src/day08.rs:46-73 | each row has at least its end trees visible |
| Day08.Part1 | src/day08.rs:46-73 | the count is the number of trees visible from some side |
| Day08.VisibleCount | src/day08.rs:69-72 | no contract of its own: `Day08.Part1` and `Day08.CountVisible` prove the in-place marks count to it |
| Day08.CountVisible | src/day08.rs:69-72 | counting the marked cells gives the number of trees visible from some side |
| Day08.ViewBack | src/day08.rs:83-93 | the view back stops at the first tree at least as tall, or at the edge |
| Day08.ViewOn | src/day08.rs:83-93 | the view forward stops at the first tree at least as tall, or at the edge |
| Day08.EdgeSeesNothing | src/day08.rs:75-93 | a tree on the edge sees nothing beyond it |
| Day08.CountSetup | src/day08.rs:75-81 | every height starts at 0 |
| Day08.UpdateCounts | src/day08.rs:83-93 | after a tree of height t, heights up to t see 1, taller ones one more than before |
| Day08.StepBack | src/day08.rs:99-102 | the table keeps giving each height's view back after one more tree |
| Day08.StepOn | src/day08.rs:104-107 | the table keeps giving each height's view forward after one more tree |
| Day08.Advance | src/day08.rs:99-107 | both tables advance one tree together |
| Day08.AppliedDone | src/day08.rs:95-109 | after the pass each cell is multiplied by both of its line views |
| Day08.ScanStep | src/day08.rs:99-108 | one step of the pass multiplies the two cells it visits |
| Day08.CalcScenicCol | src/day08.rs:95-109 | row y's scores are multiplied by their views along the row; other rows are unchanged |
| Day08.ScanRow | src/day08.rs:95-109 | the row pass over an extracted row does the same |
| Day08.ScanRowCells | src/day08.rs:99-108 | the loop of the row pass keeps the applied products |
| Day08.CalcScenicRow | src/day08.rs:111-125 | column x's scores are multiplied by their views along the column; other columns are unchanged |
| Day08.ScanColumn | src/day08.rs:111-125 | the column pass over an extracted column does the same |
| Day08.ScanColCells | src/day08.rs:115-124 | the loop of the column pass keeps the applied products |
| Day08.Part2 | src/day08.rs:127-155 | the answer is the score of some tree and no tree scores more |
| Day08.BestScore | src/day08.rs:150-154 | the maximum is one of the cells and no cell exceeds it |
| Day08.Score | src/day08.rs:127-149 | no contract of its own: `Day08.Part2` proves the in-place passes return the largest score of any tree, and `Day08.BorderScoresZero` that border trees score 0 |
| Day08.BorderScoresZero | src/day08.rs:95-125 | a tree on the border scores 0 |
| Day10.Word | src/day10.rs:21 | the first word is the text up to the first space |
| Day10.AfterWord | src/day10.rs:21-23 | there is a second part exactly when the line has a space |
| Day10.ParseOfFormat | src/day10.rs:20-30 | an instruction written out reads back |
| Day10.ParseInstruction | src/day10.rs:20-30 | no contract of its own: `Day10.ParseOfFormat` proves a written instruction reads back, and `Day10.OtherLinesAreNoOps` that any other first word is a no-op |
| Day10.WordStops | src/day10.rs:21 | the first word stops at the space |
| Day10.WordAll | src/day10.rs:21 | a line without a space is one word |
| Day10.OtherLinesAreNoOps | src/day10.rs:27-29 | a line that does not start with "addx" reads as a no-op |
| Day10.ParseProgram | src/day10.rs:46-48 | reading fails exactly when a line fails; otherwise the instructions line by line |
| Day10.Steps | src/day10.rs:34-39 | a no-op takes one cycle adding 0; addx takes two, adding 0 and then its value |
| Day10.Trace | src/day10.rs:43-56 | the trace has one entry per cycle plus the end entry, each 1 plus the changes before it |
| Day10.TraceOf | src/day10.rs:43-56 | the trace has one entry per cycle plus the end entry |
| Day10.XAtStep | src/day10.rs:53-54 | each entry is the previous one plus the previous change |
| Day10.ChangesAppend | src/day10.rs:49 | the changes of two programs concatenate |
| Day10.Deltas | src/day10.rs:34-39 | the total change of each instruction |
| Day10.Changes | src/day10.rs:46-55 | no contract of its own: `Day10.ChangesAppend`, `Day10.CycleCount`, `Day10.SumOfChanges` and `Day10.InstructionTiming` prove its concatenation, length, sum and timing |
| Day10.CycleCount | src/day10.rs:34-49 | the cycle count is the number of instructions plus the number of addx |
| Day10.SumOfChanges | src/day10.rs:49-55 | the register's net change is the sum of the addx values |
| Day10.InstructionTiming | src/day10.rs:43-56 | during an addx the register keeps its value for two cycles and changes after them |
| Day10.SampledStep | src/day10.rs:58-64 | the sampled sum grows by cycle times value at a checkpoint |
| Day10.SampledBeforeAll | src/day10.rs:58-64 | nothing is sampled before the first cycle |
| Day10.CheckpointCycles | src/day10.rs:60-61 | among the first 221 cycles, the filter keeps exactly 20, 60, 100, 140, 180 and 220 |
| Day10.SignalIsSampled | src/day10.rs:58-64 | the filtered sum is the sum of cycle times value at the checkpoints |
| Day10.Signal | src/day10.rs:58-64 | no contract of its own: `Day10.SignalIsSampled` proves it is the sum of cycle times value at the checkpoints |
| Day10.SignalStrength | src/day10.rs:58-64 | no contract of its own: `Day10.Part1` proves it is the sampled sum over at most 221 trace entries |
| Day10.Part1 | src/day10.rs:42-65 | the signal strength is the sampled sum over the trace |
| Day10.Row | src/day10.rs:85-93 | a screen row is 40 pixels, lit where the sprite covers the column |
| Day10.JoinLength | src/day10.rs:95-98 | joined rows of 40 have 41 characters per row less one |
| Day10.JoinAt | src/day10.rs:95-98 | character 41y+x of the join is row y, column x |
| Day10.JoinNewline | src/day10.rs:95-98 | the rows are separated by newlines |
| Day10.ScreenLayout | src/day10.rs:83-98 | the screen is 245 characters, its pixels at 41y+x and newlines between rows |
| Day10.Pixel | src/day10.rs:87-91 | no contract of its own: `Day10.ScreenLayout` proves the screen shows it at 41y+x |
| Day10.Screen | src/day10.rs:83-98 | no contract of its own: `Day10.ScreenLayout` proves its layout and `Day10.Render` that the in-place drawing produces it |
| Day10.Render | src/day10.rs:83-98 | drawing into the 6 by 40 array and joining gives the specified screen |
| Day10.Part2 | src/day10.rs:67-99 | the output is the screen of the program's trace |
| Day11.Target | src/day11.rs:174-178 | the item goes to a monkey that exists |
| Day11.Throw | src/day11.rs:165-179 | throwing keeps the number of monkeys |
| Day11.ThrowAll | src/day11.rs:165-180 | throwing all items keeps the number of monkeys |
| Day11.Turn | src/day11.rs:159-181 | a turn keeps the shape of the state |
| Day11.Turns | src/day11.rs:159-181 | a sequence of turns keeps the shape |
| Day11.Round | src/day11.rs:158-186 | a round keeps the shape |
| Day11.Rounds | src/day11.rs:158-186 | repeated rounds keep the shape |
| Day11.Initial | src/day11.rs:152-156 | the starting state has each monkey's items and zero counts |
| Day11.Moduli | src/day11.rs:203 | the list of every monkey's divisor |
| Day11.TakeTurn | src/day11.rs:159-181 | the arrays after the turn are the specified turn of the old state |
| Day11.PlayRound | src/day11.rs:158-186 | the arrays after the round are the specified round |
| Day11.Simulate | src/day11.rs:152-186 | the counts after the loop are those of the specified rounds |
| Day11.Part1 | src/day11.rs:149-192 | the answer is the product of the two largest counts after 20 rounds with relief by 3 |
| Day11.Part2 | src/day11.rs:194-234 | reducing by the product of the divisors is valid, and it gives the same answer as 10000 rounds on exact values |
| Day11.ThrowAppends | src/day11.rs:166-179 | an item goes to the end of exactly one list, the one its test picks |
| Day11.TotalUpdate | src/day11.rs:179 | replacing a list changes the item total by the length difference |
| Day11.ThrowAllAdds | src/day11.rs:165-180 | throwing adds exactly the thrown items |
| Day11.TurnAccounts | src/day11.rs:160-180 | a turn counts every item it inspects, changes no other count, and loses no item |
| Day11.ThrowAllSkips | src/day11.rs:174-179 | a monkey that is not a target keeps its list |
| Day11.TurnEmpties | src/day11.rs:163 | a monkey that does not throw to itself ends its turn with no items |
| Day11.RoundsConserve | src/day11.rs:158-186 | rounds neither lose nor create items |
| Day11.TurnsConserve | src/day11.rs:159-181 | turns neither lose nor create items |
| Day11.ModAddMultiple | src/day11.rs:225 | adding multiples of m keeps the residue |
| Day11.MulAtLeast | src/day11.rs:203 | a product with a positive factor is at least the other factor |
| Day11.CongruentByMultiple | src/day11.rs:225 | values differing by a multiple of m are congruent mod m |
| Day11.CongruentDifference | src/day11.rs:225 | congruent values differ by a multiple of m |
| Day11.SumCongruent | src/day11.rs:214-215 | addition respects congruence |
| Day11.ProductCongruent | src/day11.rs:216-217 | multiplication respects congruence |
| Day11.EvaluateCongruent | src/day11.rs:213-219 | the operation respects congruence mod m |
| Day11.Evaluate | src/day11.rs:166-172 | no contract of its own: `Day11.EvaluateCongruent` proves it respects congruence, which makes part 2's reduction sound |
| Day11.DivisorTestAgrees | src/day11.rs:220-224 | congruent values mod a multiple of d pass the divisibility test by d alike |
| Day11.ModIdempotent | src/day11.rs:225 | reducing twice is reducing once |
| Day11.ProductFactor | src/day11.rs:203 | each divisor is a factor of the product |
| Day11.ProductOfModuliPositive | src/day11.rs:203 | the product of the divisors is positive |
| Day11.AppendCongruent | src/day11.rs:225 | pushing congruent values keeps the item lists congruent |
| Day11.ThrowCongruent | src/day11.rs:212-225 | reduced and exact items go to the same monkey, and the lists stay congruent |
| Day11.ThrowAllCongruent | src/day11.rs:212-226 | the same for a whole list of items |
| Day11.TurnCongruent | src/day11.rs:206-227 | a turn on reduced values gives the same counts as on exact ones, and congruent lists |
| Day11.TurnsCongruent | src/day11.rs:206-227 | the same for several turns |
| Day11.RoundsCongruent | src/day11.rs:205-228 | the same for any number of rounds |
| Day11.ReducedRoundsAgree | src/day11.rs:203-228 | reducing by the product of the divisors is valid and does not change any count |
| Day11.MonkeyBusinessTopTwo | src/day11.rs:187-191 | the answer is the product of the two largest counts |
| Day11.MonkeyBusiness | src/day11.rs:187-191 | no contract of its own: `Day11.MonkeyBusinessTopTwo` proves it is the product of the two largest counts |
| Day12.Altitude | src/day12.rs:8-14 | 'S' is level 0, 'E' level 26, any other character its offset from 'a' |
| Day12.ManhattanDistance | src/day12.rs:16-18 | the distance is zero exactly between equal cells |
| Day12.ManhattanDistanceSymmetric | src/day12.rs:16-18 | the distance is the same in both directions |
| Day12.Neighbours | src/day12.rs:54 | the four candidates are the cells one step left, right, up and down |
| Day12.AdjacentIsNeighbour | src/day12.rs:54 | the candidates are all the cells at distance one |
| Day12.SuffixIsPath | src/day12.rs:54-67 | a tail of a path is a path |
| Day12.CutAtLastZero | src/day12.rs:88-99 | a path can be cut to start at its last zero cell |
| Day12.AllZerosSeededIsShortestFrom | src/day12.rs:101-106 | when every zero cell is a seed, the answer is the shortest multi-source distance |
| Day12.MoreSourcesNoWorse | src/day12.rs:77-134 | adding sources never lengthens the answer |
| Day12.EndEnteredFromTop | src/day12.rs:61 | a path into 'E' enters it from a 'z' |
| Day12.StartCellsAmongLowest | src/day12.rs:91 | every 'S' is a part 2 start |
| Day12.Part2NoWorseThanPart1 | src/day12.rs:20-134 | part 2's answer never exceeds part 1's |
| Day12.Part1SingleStart | src/day12.rs:20-75 | with one 'S', part 1 is the shortest distance from it |
| Day12.Put | src/day12.rs:63 | writing a table entry changes only that entry |
| Day12.InAllCells | src/day12.rs:55-58 | an in-bounds cell is one of the grid's cells |
| Day12.DistinctPathBound | src/day12.rs:49-73 | a path without repeated cells is no longer than the grid has cells |
| Day12.DistinctCard | src/day12.rs:49-73 | a path without repeated cells has as many distinct cells as steps |
| Day12.SubsetCard | src/day12.rs:49-73 | a subset is no larger |
| Day12.RowPotentialUpdate | src/day12.rs:61-63 | lowering an entry lowers the row's potential by the same amount |
| Day12.TablePotentialUpdate | src/day12.rs:61-63 | lowering an entry lowers the table's potential by the same amount |
| Day12.ClosedIsOptimal | src/day12.rs:49-74 | with an empty queue and every cell settled, no search path beats the goal's count |
| Day12.ExtendWitness | src/day12.rs:61-66 | extending a cell's path by an improving move gives a path for the neighbour |
| Day12.KeepWitness | src/day12.rs:61-66 | a path stays valid when its own count is unchanged and no count grew |
| Day12.PutLowers | src/day12.rs:63 | lowering a cell that is not a zero cell keeps the zero cells and lowers the table |
| Day12.RelaxKeepsWitnessed | src/day12.rs:61-66 | an improving move keeps every count backed by a path |
| Day12.ClosedAfterLowering | src/day12.rs:61-66 | after an improvement, settled cells stay settled and the improved cell is queued |
| Day12.MeasureDrops | src/day12.rs:61-66 | every improvement lowers the termination measure |
| Day12.RelaxMove | src/day12.rs:55-67 | trying one neighbour keeps the search invariants and lowers the measure |
| Day12.Expand | src/day12.rs:53-70 | trying the four neighbours keeps the invariants and settles the cell |
| Day12.InitiallyWitnessed | src/day12.rs:23-47 | at the start only the zero cells are reached, each by itself |
| Day12.InitiallyClosed | src/day12.rs:44-47 | at the start the only cells off the queue are unreached or zero cells that are not queued |
| Day12.FinallyShortest | src/day12.rs:49-74 | once the queue is empty, the goal's count is the shortest search path |
| Day12.PopKeepsClosed | src/day12.rs:50 | removing a cell from the queue keeps the other cells settled |
| Day12.SettleExpanded | src/day12.rs:52-70 | a popped cell is settled once its moves are tried |
| Day12.SettlePruned | src/day12.rs:52 | a popped cell whose count is not below the goal's is settled |
| Day12.Search | src/day12.rs:49-74 | the search returns the length of a shortest search path to the goal, Unreached if there is none |
| Day12.LastBeforeIsLast | src/day12.rs:31-42 | the scan keeps the last matching cell in row-major order |
| Day12.MarkerCellIsLastMatch | src/day12.rs:28-42 | the marker is the last matching cell, or (0, 0) if there is none |
| Day12.MarkerCell | src/day12.rs:28-42 | no contract of its own: `Day12.MarkerCellIsLastMatch` proves it is the last matching cell in row-major order, or (0, 0) |
| Day12.ZeroCellsMembers | src/day12.rs:88-94 | the zero cells are exactly the cells whose character is a start character |
| Day12.ZeroCells | src/day12.rs:88-94 | no contract of its own: `Day12.ZeroCellsMembers` proves it holds exactly the start-character cells |
| Day12.ScanRow | src/day12.rs:33-41 | one row of the scan records its zero cells and markers |
| Day12.ScanGrid | src/day12.rs:23-42 | the table is 0 exactly on start characters, Unreached elsewhere, and the markers are the last matches |
| Day12.Part1 | src/day12.rs:20-75 | a panic exactly when a marker cell is outside the grid; otherwise the shortest search path from the last 'S' |
| Day12.Part2 | src/day12.rs:77-134 | a panic exactly when the 'E' marker is outside the grid; otherwise the shortest distance from any 'S' or 'a' |
| Day13.CmpReflexive | src/day13.rs:56-65 | every packet equals itself |
| Day13.CmpListReflexive | src/day13.rs:60 | every list equals itself |
| Day13.CmpAntisymmetric | src/day13.rs:56-65 | swapping the operands reverses the answer |
| Day13.CmpListAntisymmetric | src/day13.rs:60 | the same for lists |
| Day13.Cmp | src/day13.rs:56-65 | no contract of its own: `Day13.CmpReflexive`, `Day13.CmpAntisymmetric` and `Day13.CmpExamples` prove it reflexive, antisymmetric and right on the source's tests |
| Day13.CmpList | src/day13.rs:60 | no contract of its own: `Day13.CmpListReflexive` and `Day13.CmpListAntisymmetric` prove it reflexive and antisymmetric |
| Day13.AsList | src/day13.rs:56-65 | a number is compared as the one-element list holding it, which is no larger; a list's elements are smaller than the list |
| Day13.CmpAsList | src/day13.rs:56-65 | every comparison is the comparison of the two items as lists, a number promoted to a one-element list |
| Day13.CmpTransitive | src/day13.rs:56-65 | packet order is transitive: not-greater chains, equal chains and chains with one strict step compose |
| Day13.CmpListTransitive | src/day13.rs:60 | the same for the lexicographic order on lists |
| Day13.CmpExamples | src/day13.rs:130-139 | the comparisons the source's tests spell out |
| Day13.ParseItem | src/day13.rs:67-75 | a parsed item consumes at least one character |
| Day13.ParseElements | src/day13.rs:71 | the element list never grows the input |
| Day13.ParseMoreElements | src/day13.rs:71 | the comma-separated tail never grows the input |
| Day13.FormatMoreStart | src/day13.rs:71 | a formatted tail starts with ',' or ']' |
| Day13.ParseFormat | src/day13.rs:67-75 | an item written out reads back, when followed by ',', ']' or nothing |
| Day13.ParseFormatElements | src/day13.rs:71 | written-out elements read back |
| Day13.ParseFormatMore | src/day13.rs:71 | a written-out comma-separated tail reads back |
| Day13.ParseMoreStep | src/day13.rs:71 | one more comma-prefixed element is read and appended |
| Day13.TrailingCommaRejected | src/day13.rs:71 | "[1,]" is not an item |
| Day13.Swapped | src/day13.rs:84-92 | swapping each pair |
| Day13.Part1OfSwapped | src/day13.rs:84-92 | with no equal pairs, the index sums of the pairs and of their swaps add up to the sum of all indices |
| Day13.InOrderIndexSum | src/day13.rs:84-92 | no contract of its own: `Day13.Part1OfSwapped` proves the sums of the pairs and of their swaps are complementary |
| Day13.Part1 | src/day13.rs:84-92 | no contract of its own: the index sum from position 0, characterised by `Day13.Part1OfSwapped` |
| Day13.InsertionPoint | src/day13.rs:104 | the insertion point follows every element not greater than the item, and precedes a greater one |
| Day13.Insert | src/day13.rs:104 | insertion keeps the order and adds exactly the item |
| Day13.InsertKeepsOrder | src/day13.rs:104 | inserting at that point keeps adjacent elements in order |
| Day13.AdjacentOrderedIsOrdered | src/day13.rs:104 | by transitivity, neighbours in order put every pair in order |
| Day13.Sort | src/day13.rs:104 | the result is a permutation of the input in which every earlier packet is not greater than every later one |
| Day13.EqualToAppend | src/day13.rs:104 | the packets equal to x in a concatenation are those of each part, in order |
| Day13.NoneEqual | src/day13.rs:104 | with no packet equal to x, there are none to list |
| Day13.EqualToAround | src/day13.rs:104 | putting y between two runs adds y after the packets equal to x when y is one of them and none follows it |
| Day13.PastInsertionPointNotEqual | src/day13.rs:104 | nothing after the insertion point of y is equal to anything y is equal to |
| Day13.NoneEqualPastInsertionPoint | src/day13.rs:104 | hence the part after the insertion point holds no packet equal to such an x |
| Day13.InsertSplits | src/day13.rs:104 | the insertion puts y between the two parts of the input split at the insertion point |
| Day13.InsertStable | src/day13.rs:104 | inserting y keeps the packets equal to any x in order and puts y after them when y is equal to x |
| Day13.SortStable | src/day13.rs:104 | the sort is stable: for every x, the packets equal to x appear in the same order as in the input |
| Day13.Flatten | src/day13.rs:96-99 | the pairs are flattened in order, both halves of each |
| Day13.DividerPositions | src/day13.rs:110-114 | each 1-based position is greater than its start offset plus its index |
| Day13.DividerPositionsAreDividers | src/day13.rs:110-114 | every entry is the 1-based position of an element equal to a divider |
| Day13.DividersArePositions | src/day13.rs:110-114 | the 1-based position of every element equal to a divider is an entry |
| Day13.DividerPositionsIncrease | src/day13.rs:110-114 | the entries increase strictly, so they list the divider positions in order |
| Day13.DividerPositionsCount | src/day13.rs:110-114 | there is one position per copy of a divider |
| Day13.ProductAtLeastFactor | src/day13.rs:115 | a product of positive positions is at least each of them |
| Day13.Part2AtLeastTwo | src/day13.rs:94-116 | the decoder key is at least 2 |
| Day13.Part2 | src/day13.rs:94-116 | no contract of its own: it multiplies the divider positions of the sorted packets; `Day13.Sort` and `Day13.SortStable` state that sort as the stable ordered permutation, `Day13.DividerPositionsAreDividers`, `Day13.DividersArePositions` and `Day13.DividerPositionsIncrease` state the positions exactly, and `Day13.Part2AtLeastTwo` proves the key is at least 2 |
| Day14.Points | src/day14.rs:31-36 | a line's points are its cells from the low end to the high end |
| Day14.PointsAreOnLine | src/day14.rs:31-36 | a point is listed exactly when it lies on the line |
| Day14.PointsToLines | src/day14.rs:51-63 | one line per consecutive pair of points, joining them when they share a row or column |
| Day14.RockSet | src/day14.rs:72-75 | the rocks are exactly the points on some line of some path |
| Day14.SegmentsSet | src/day14.rs:72-75 | the points of one path are exactly those on its lines |
| Day14.Fall | src/day14.rs:90-100 | a grain stops exactly when the three cells below are taken; otherwise it moves down, down-left or down-right, in that order of preference |
| Day14.Settle | src/day14.rs:86-101 | the grain stays inside its cone, stops on a blocked cell or at the floor, and only an occupied start stays put |
| Day14.DropGrain | src/day14.rs:86-101 | the inner loop ends where the specification settles the grain |
| Day14.SettleInCone | src/day14.rs:86-101 | every grain comes to rest inside the cone below the start |
| Day14.FreeShrinks | src/day14.rs:105 | a new grain takes one free cell of the cone |
| Day14.MaxRow | src/day14.rs:77 | the lowest rock row is a rock's row, with no rock below it |
| Day14.PourPart1 | src/day14.rs:81-108 | the count is the specified pour, the set grows by one per grain, and the next grain falls to the floor |
| Day14.NextGrain1 | src/day14.rs:85-107 | one grain of part 1 settles, stops the pour at the floor, or loops forever on an occupied start |
| Day14.Pour1Step | src/day14.rs:85-107 | the pour is one grain plus the pour that follows, zero at the floor, or endless |
| Day14.Pour1 | src/day14.rs:85-107 | no contract of its own: `Day14.Pour1Step` proves its step equation, and `Day14.PourPart1` that the in-place pour counts it |
| Day14.PourPart2 | src/day14.rs:123-150 | the count is the specified pour, the set grows by one per grain, and the start ends up filled |
| Day14.Pour2 | src/day14.rs:123-150 | no contract of its own: `Day14.PourPart2` proves the in-place pour counts it |
| Day14.SegmentRowsNonNegative | src/day14.rs:51-63 | lines between points at non-negative rows stay at non-negative rows |
| Day14.RocksRowsNonNegative | src/day14.rs:72-75 | every rock is at a non-negative row |
| Day14.Floor | src/day14.rs:77 | the abyss row is one below the lowest rock |
| Day14.Part1 | src/day14.rs:69-109 | part 1 is the specified pour above the abyss row |
| Day14.Part2 | src/day14.rs:111-151 | part 2 is the specified pour on the floor until the start fills |
| Day15.Abs | src/day15.rs:45 | the absolute value is v or -v |
| Day15.Manhattan | src/day15.rs:44-46 | the distance is zero exactly between equal points |
| Day15.ManhattanSymmetric | src/day15.rs:44-46 | the distance is symmetric |
| Day15.HidesOwnBeacon | src/day15.rs:85-87 | a sensor covers its own beacon |
| Day15.Hides | src/day15.rs:85-88 | no contract of its own: `Day15.HidesOwnBeacon` and `Day15.CoveredAtIsHidden` prove it covers the beacon and agrees with the row intervals |
| Day15.CoveredAt | src/day15.rs:50-62 | none exactly when the row is out of reach; otherwise a half-open interval centred on the sensor, of width twice the remaining reach plus one |
| Day15.CoveredAtIsHidden | src/day15.rs:50-87 | a column is in the interval exactly when the sensor covers that cell |
| Day15.CoveredAtExamples | src/day15.rs:158-167 | the intervals of the source's test |
| Day15.JustNotCoveredIsRing | src/day15.rs:64-83 | corrected: the rim is exactly the cells one beyond the sensor's reach |
| Day15.JustNotCovered | src/day15.rs:64-83 | no contract of its own: corrected; `Day15.JustNotCoveredIsRing` proves it is exactly the cells one beyond reach |
| Day15.JustNotCoveredNotHidden | src/day15.rs:64-87 | the sensor does not cover its rim |
| Day15.AsWrittenOnDiagonal | src/day15.rs:75 | as written, the rim is right when the sensor lies on the diagonal x = y |
| Day15.AsWrittenOffRing | src/day15.rs:75 | as written, a sensor at (1, 0) gets a rim point (1, 3), which is not one beyond its reach |
| Day15.JustNotCoveredAsWritten | src/day15.rs:75 | no contract of its own: as written; `Day15.AsWrittenOffRing` proves it leaves the ring for a sensor off the diagonal |
| Day15.CornerInRim | src/day15.rs:71-82 | every generated corner belongs to the rim |
| Day15.DistanceTwoFromOrigin | src/day15.rs:169-184 | the points at distance 2 are the eight of the source's test |
| Day15.JustNotCoveredExample | src/day15.rs:169-184 | the corrected rim of the sensor in the source's test is the expected set |
| Day15.Interval | src/day15.rs:105 | the range holds exactly lo to hi-1 |
| Day15.CoveredSetIsHidden | src/day15.rs:102-106 | a column is covered exactly when some sensor covers that cell |
| Day15.Part1CountsBeaconFree | src/day15.rs:90-108 | the beacons on the row are among the covered columns, so the answer counts the covered columns without a beacon |
| Day15.Part1 | src/day15.rs:90-108 | no contract of its own: `Day15.Part1CountsBeaconFree` proves it counts the covered columns without a beacon |
| Day15.SubsetCardinality | src/day15.rs:107 | removing a subset subtracts its size |
| Day15.RimCountPositive | src/day15.rs:118-125 | a point is on some rim exactly when its tally is positive |
| Day15.RimCount | src/day15.rs:118-125 | no contract of its own: `Day15.RimCountPositive` proves it is positive exactly on some rim |
| Day15.Part2 | src/day15.rs:110-144 | a panic exactly when no candidate exists; otherwise the tuning frequency of a candidate |
| Day15.CandidateIsUncovered | src/day15.rs:127-143 | a candidate is inside the square, covered by no sensor, on at least two rims, with a non-negative frequency |
| Day15.TuningFrequency | src/day15.rs:143 | no contract of its own: x times 4000000 plus y, which `Day15.Part2` returns for a candidate |

## Left out

- Reading input files, `println!` and `main` are not modelled. The lines
  produced by `split("\r\n")` or by the end-of-line regex are parameters.
  For day 5, 8, 11, 13, 14 and 15 the parsed values are parameters.
- The `nom` parsers of days 11, 13 (pairs and line endings) and 14, and the
  regex line parsing of day 15, are not modelled. Day 13's item grammar is
  modelled.
- Test answers that depend on `data/*.txt` files cannot be checked, because
  those files are not part of this model. Where the puzzle's published
  example is small, it is stated as a lemma instead (days 1, 2, 4, 5).
- Day 1's part 2 result on the example (45000) is not stated. Sorting a
  concrete five-element list is out of the prover's reach here;
  `Day01.TopSumIsBestChoice` states the property for all inputs.
- Overflow of `i32`, `u32` and `usize` arithmetic is not modelled. This
  covers the sums of days 1, 3 and 4, worry values in day 11, and the frequency
  in day 15. The product in day 11 part 2 is a `usize` that may wrap in the
  program; the model treats it as exact.
- Day01.SumGroup: its own contract states only when reading stops and how many
  lines a group uses. The group's sum, the line it stops at and the panic on a
  line that is not an i32 are stated by `Day01.SumGroupSpec`.
- Day01.Groups: the contract only bounds the number of groups; what a group is
  is stated by `Day01.SumGroupSpec`.
- Day02.Part1 and Day02.Part2 skip empty lines, because the regex does not
  match an empty line and the `filter` before parsing removes it.
- Day03.Priority requires `c >= 'A'`. Below that the program's `u32`
  subtraction underflows, which panics in a debug build. `is_lowercase` is
  modelled for ASCII letters only, and `len()` counts characters, which
  equals bytes for ASCII.
- Day05.MatchMove: a stack number 0 makes the `usize` subtraction of
  `parse_move` underflow, which panics in a debug build. The model reads it as
  index -1, and `RunMoves` is then None for any move naming stack 0, whatever
  its crate count, as the panic would end the program.
- Day05: the `len = (contents[0].len() + 1) / 4` stack count and the
  `unwrap` panics on an empty stack become the preconditions of the methods.
  Day05.Part1 and Day05.Part2 require that the whole run is defined.
- Day08.Part2 requires a square grid. `part2` passes the row index where
  `calc_scenic_row` expects a column and the width where it expects the
  height, so any other grid indexes out of range.
- Day10: the step labels ("noop", "addx1", "addx2", "endstop") are not
  modelled, because only the indices and register values are used.
  Day10.Part2 requires a trace of at least 240 cycles, where the program
  would index out of range.
- Day11.ValidMonkeys: every operation must be one of the four supported forms,
  every divisor positive and every target an existing monkey. The program reads
  a monkey's operation, divisor and targets only while it inspects an item, so an
  invalid monkey panics or indexes out of range once it inspects one. The model
  also excludes invalid monkeys that never hold an item.
- Day11.Part2 states its equality with the unreduced run only for the
  moduli the program reads; the program's `usize` product is not bounded.
- Day12: the priority queue's order is not modelled. A pop takes any queued
  cell, so the result holds for every pop order the queue could use. The step
  table's `i32::MAX` sentinel is `Unreached`. `Altitude` follows the source
  ('E' is 26), so on a grid of letters a path can enter 'E' only from a 'z',
  as `Day12.EndEnteredFromTop` states.
- Day14: `Part1` can loop forever when a grain settles on an occupied start.
  The model returns `Forever` for that case. The cone bound that makes the
  pour finite is a ghost argument.
- Day15.Part2: the `HashMap` iteration order is not modelled. The answer is
  some candidate, which is what `result[0]` picks for a one-candidate input.
  The model uses the corrected rim.
- Days 7, 9, 16, 18 and 19 are not part of this model.
- Lemmas whose statement Dafny proves without a written proof are kept as
  statements of the source's promises; they are `Day02.WinLoseByRule`,
  `Day02.WinLoseAntisymmetric`, `Day02.BeatsExactlyOne`,
  `Day02.MoveForResultAchieves`, `Day02.ReadingsAgree`,
  `Day04.ContainedSymmetric`, `Day04.OverlapsSymmetric`,
  `Day10.OtherLinesAreNoOps`.

## Findings

| source | as written | input that shows it | evidently intended | confidence | as-written member | corrected member |
|---|---|---|---|---|---|---|
| src/day15.rs:75 | the first rim corner is `Point(sensor_x + dx, sensor_x + dy)`, using the sensor's x as its y | a sensor at (1, 0) with its beacon at (1, 1): the rim gets (1, 3), at distance 3 instead of 2 | `Point(sensor_x + dx, sensor_y + dy)`, so the rim is the cells at distance reach + 1 | high, not executed | Day15.AsWrittenOffRing | Day15.JustNotCoveredIsRing |
