# Advent of Code 2018 solutions, modelled in Dafny

The repository is a set of independent puzzle programs, one `main.rs` per day.
Each day's core -- everything except reading the input file and printing -- is
modelled here as one Dafny module (`Day01` ... `Day16`), with four shared helper
modules: `Wrappers` (the `Option` type and `collect` into a `Result`), `Text`
(the parts of Rust's `str` API the parsers use), `Sorting` (the stable
`sort_by_key` on tuple keys) and `Maxima` (`max_by_key` and `min_by_key`).

## Model

| member | source | states |
|---|---|---|
| Day01.Part1 | day1/src/main.rs:16 | the sum of all changes is the running total after one pass over the list |
| Day01.RunningTotalPeriodic | day1/src/main.rs:21-24 | each pass over the cycled list shifts the running total by the list's sum |
| Day01.Part2 | day1/src/main.rs:21-31 | the answer is the running total at the first step whose total equals a total at an earlier step (the start excluded); no answer when no step within the fuel repeats or the list is empty |
| Day01.StartNotRecorded | day1/src/main.rs:25-30 | for `+1, -1` the code answers 1 (step 3) where the puzzle's rule answers 0 (step 2) |
| Day01.Part2FromStart | day1/src/main.rs:21-31 | with the start recorded, the answer is the total at the first step equal to any earlier total including the start |
| Day02.FreqsMeans | day2/src/main.rs:14-17 | the frequency fold has a key for exactly the characters of the id, each mapped to its number of occurrences |
| Day02.Tally | day2/src/main.rs:19-20 | an id adds 1 to a count exactly when some character occurs in it exactly `n` times, and never more than 1 |
| Day02.CountsMeans | day2/src/main.rs:18-22 | the pair fold over the first `k` ids counts the ids having some letter exactly twice and those having one exactly three times |
| Day02.Part1 | day2/src/main.rs:10-24 | the checksum is the number of ids with a letter exactly twice times the number with a letter exactly three times |
| Day02.CommonLength | day2/src/main.rs:38-49 | up to the shorter id, every zipped position is either an edit or a kept character |
| Day02.NoEdit | day2/src/main.rs:38-49 | no edits iff the ids agree on every zipped position, and then the common part is the shorter prefix |
| Day02.EditAt | day2/src/main.rs:38-49 | when the ids differ at exactly position `k`, there is one edit and the common part is the id with position `k` cut out |
| Day02.EditFound | day2/src/main.rs:38-42 | one edit means there is a position where the ids differ and they agree everywhere else |
| Day02.EqualNoEdits | day2/src/main.rs:38-43 | an id has no edits against itself, so the `item1 != item2` filter drops nothing that could answer |
| Day02.PairSymmetric | day2/src/main.rs:33-49 | edits and the common part do not depend on the order of the pair |
| Day02.FindInRow | day2/src/main.rs:33-54 | the first partner `j' >= j` of id `i` that answers, with no answering partner before it, or none at all |
| Day02.FindPair | day2/src/main.rs:33-54 | `find_map` over the cartesian product gives the first answering pair in row-major order, or none when no pair answers |
| Day02.Part2 | day2/src/main.rs:28-57 | part 2: the common letters of the first answering pair, None where the `unwrap` panics; its meaning (an answer iff two unequal ids differ at exactly one zipped position) is proved in `Day02.Part2Means` |
| Day02.Part2Means | day2/src/main.rs:28-54 | there is an answer iff two unequal ids differ at exactly one zipped position; it is the first such pair's id with that position cut out, one shorter than the shorter id |
| Day03.ParseClaim | day3/src/main.rs:23-41 | a parsed claim has every field within `u16` |
| Day03.ParseFormat | day3/src/main.rs:23-41 | the line `#id @ x,y: wxh` of any claim with `u16` fields parses back to that claim |
| Day03.ShortLineFails | day3/src/main.rs:24-30 | a line with fewer than four words (an `unwrap` on a missing word) gives no claim |
| Day03.ProductCount | day3/src/main.rs:48-49 | the cartesian product of `x..x + w` and `y..y + h` lists every cell of the rectangle exactly once and no other cell |
| Day03.CellsCount | day3/src/main.rs:48-49 | a claim's cells list each covered cell exactly once and no other cell |
| Day03.AddCountsMeans | day3/src/main.rs:50-52 | adding a claim's cells raises each cell's count by the number of times it is listed, and the map gains exactly the listed cells |
| Day03.CoverageMeans | day3/src/main.rs:45-54 | after the fold, a cell's count is the number of claims covering it, and the map holds exactly the covered cells |
| Day03.Part1 | day3/src/main.rs:44-57 | the answer counts exactly the cells covered by two or more claims |
| Day03.AddIdsMeans | day3/src/main.rs:68-70 | adding a claim's cells adds its id to the set of exactly the listed cells |
| Day03.OwnersMeans | day3/src/main.rs:63-72 | after the fold, a cell's id set is the set of ids of the claims covering it |
| Day03.RepeatedMeans | day3/src/main.rs:63-77 | an id lands in `repeated` iff some claim with that id shares a cell with a claim of another id |
| Day03.Part2 | day3/src/main.rs:79-80 | the answer is an id of the input that is not repeated |
| Day03.Part2Means | day3/src/main.rs:62-80 | the answer's claims overlap no claim with a different id; there is no answer (the `unwrap` panics) iff every claim overlaps one with a different id |
| Day04.ParseAction | day4/src/main.rs:42-50 | `Guard` takes the next word, trims `#` and parses a `u16` id; `falls` and `wakes` are the other two actions; any other or missing word is None |
| Day04.ParseEvent | day4/src/main.rs:30-60 | a parsed event has every field within its Rust width |
| Day04.ParseFormat | day4/src/main.rs:30-60 | parsing a formatted log line gives back the event, for every event whose fields fit their types |
| Day04.FormatSplits | day4/src/main.rs:31 | a formatted line splits at whitespace into its date, time and action words |
| Day04.DateWordParses | day4/src/main.rs:33-36 | the `[Y-M-D` word trims, splits at `-` and parses back to year, month and day |
| Day04.TimeWordParses | day4/src/main.rs:38-40 | the `H:M]` word trims, splits at `:` and parses back to hour and minute |
| Day04.ActionWordsParse | day4/src/main.rs:42-50 | each action's words are whitespace-free and parse back to the action |
| Day04.GuardWordParses | day4/src/main.rs:44 | `#id` trims and parses back to the id |
| Day04.FoldTracks | day4/src/main.rs:122-132 | the fold's state holds the guard of the latest shift start, the minute of a sleep still open (0 after a shift start or a wake) and one interval per wake so far |
| Day04.SchedulePrefix | day4/src/main.rs:122-132 | the fold only appends: the intervals of a prefix of the events begin the intervals of all of them |
| Day04.ScheduleAt | day4/src/main.rs:125-130 | the wake at position k emits, at the index counting earlier wakes, the interval of the guard on duty from where its sleep began to the wake minute |
| Day04.ScheduleCount | day4/src/main.rs:122-132 | there is exactly one interval per wake event |
| Day04.TotalsDefined | day4/src/main.rs:64-70 | the per-guard sum succeeds iff no interval ends before it starts (the `u16` subtraction would underflow) |
| Day04.TotalsKeys | day4/src/main.rs:64-70 | the sum has an entry exactly for each guard with an interval |
| Day04.TotalsValues | day4/src/main.rs:64-70 | each guard's entry is the total length of its intervals |
| Day04.Part1Defined | day4/src/main.rs:63-92 | `part1` answers iff there is an interval and none is reversed |
| Day04.Part1 | day4/src/main.rs:63-92 | part 1: guard id times minute of the chosen pair; when it answers is proved in `Day04.Part1Defined`, and that the pair is a maximiser in `Day04.Part1Maximal` and `Day04.SleptMost` |
| Day04.Part1Maximal | day4/src/main.rs:63-92 | `part1` picks a guard with an interval who slept at least as long as any guard, and a minute of `0..60` in which that guard was asleep at least as often as in any other |
| Day04.SleptMost | day4/src/main.rs:64-72 | the chosen guard's total is at least every guard's total |
| Day04.OfGuardAbsent | day4/src/main.rs:74-77 | a guard without intervals filters to nothing |
| Day04.CoveringPositive | day4/src/main.rs:82-84 | a guard's count at a minute is positive iff one of its intervals contains that minute |
| Day04.AddMinuteCounts | day4/src/main.rs:96-102 | one minute's pass adds, to each (guard, minute) entry, the number of that guard's intervals containing the minute, and creates the entry exactly when that number is positive |
| Day04.PairCountsMeans | day4/src/main.rs:95-104 | after the fold over `0..60` each (guard, minute) entry counts the guard's intervals containing the minute, and entries exist exactly where that count is positive |
| Day04.Keys | day4/src/main.rs:104-105 | the walked keys are exactly the pairs of a guard and a minute below 60 with a positive count |
| Day04.Part2Defined | day4/src/main.rs:94-107 | `part2` answers iff some interval contains a minute of `0..60` |
| Day04.Part2 | day4/src/main.rs:94-107 | part 2: guard id times minute of the chosen pair; when it answers is proved in `Day04.Part2Defined`, and that the pair is a maximiser in `Day04.Part2Maximal` and `Day04.MaximalAt` |
| Day04.Part2Maximal | day4/src/main.rs:94-107 | `part2` picks a guard and minute in which that guard was asleep, and no guard was asleep in any minute more often |
| Day04.MaximalAt | day4/src/main.rs:104-107 | no (guard, minute) count exceeds the chosen one's |
| Day04.ParseAll | day4/src/main.rs:116-118 | every line parses, in order, or the result is None when any line fails |
| Day04.AnswersDefined | day4/src/main.rs:134-135 | both parts answer iff no interval is reversed and some interval contains a minute of the midnight hour |
| Day04.AnswersValue | day4/src/main.rs:90-110 | the answers are guard times minute of each part's choice |
| Day04.SolveMeans | day4/src/main.rs:113-138 | the program answers iff every line parses and both parts answer on the schedule of the events sorted by `(year, month, day, hour, minute)` |
| Day05.ToLower | day5/src/main.rs:15 | an uppercase ASCII letter becomes lowercase; every other character is unchanged |
| Day05.ToUpper | day5/src/main.rs:17 | a lowercase ASCII letter becomes uppercase; every other character is unchanged |
| Day05.ReactingLetter | day5/src/main.rs:13-19 | a letter reacts exactly with the same letter in the other case |
| Day05.ReactingOther | day5/src/main.rs:13-19 | a character that is not an ASCII letter reacts only with itself |
| Day05.ReactingSymmetric | day5/src/main.rs:13-19 | `a` reacts with `b` iff `b` reacts with `a` |
| Day05.ReactingFrom | day5/src/main.rs:25-28 | the first window at or after `i` whose units react, with no reacting window between `i` and it, or none when no later window reacts |
| Day05.FirstReacting | day5/src/main.rs:25-28 | `position` finds the leftmost reacting pair, and finds none iff no two adjacent units react |
| Day05.RemovePair | day5/src/main.rs:30-33 | `split_off`, two `pop_front`s and `append` leave the units before `p` and those after `p + 1`, in order |
| Day05.Reduce | day5/src/main.rs:25-34 | the fully reacted polymer has no reacting pair and is an even number of units shorter |
| Day05.ReduceInert | day5/src/main.rs:25-34 | a polymer with no reacting pair is left as it is |
| Day05.ReduceIdempotent | day5/src/main.rs:22-37 | reacting a fully reacted polymer again changes nothing |
| Day05.FullyReact | day5/src/main.rs:22-37 | the loop's length is the length of the fully reacted polymer (part 1's answer) |
| Day05.Strip | day5/src/main.rs:48-52 | the result is no longer than the input, holds only units of the input that are neither `c` nor lowercase to `c`, and holds every such unit; order and multiplicity are fixed by `Day05.StripUnit` and `Day05.StripConcat` |
| Day05.StripUnit | day5/src/main.rs:51 | one unit is kept exactly when it is neither `c` nor lowercases to `c` |
| Day05.StripConcat | day5/src/main.rs:48-52 | the filter works unit by unit: stripping a concatenation is the concatenation of the stripped parts, so the kept units keep their order and multiplicity |
| Day05.StripSnoc | day5/src/main.rs:48-52 | stripping one more unit appends it exactly when the filter keeps it |
| Day05.StripLetter | day5/src/main.rs:51 | for a lowercase letter, a unit survives iff it is neither that letter nor its uppercase |
| Day05.StrippedLengths | day5/src/main.rs:45-53 | one fully reacted length for each of the 26 letters `a` to `z`, in order |
| Day05.Part2 | day5/src/main.rs:44-55 | the answer is the least of the 26 stripped, fully reacted lengths, is reached by one of them, and is at most the input's length |
| Day06.DistanceIsMetric | day6/src/main.rs:14-17 | the distance is non-negative, symmetric, zero only between equal points, and obeys the triangle inequality |
| Day06.ParsePoint | day6/src/main.rs:23-29 | a parsed point's coordinates are `isize`s |
| Day06.ParseFormat | day6/src/main.rs:23-29 | the line `x, y` parses back to the point `(x, y)` for every pair of `isize`s |
| Day06.ParseInput | day6/src/main.rs:101-106 | the input parses iff every line does, and then to the lines' points in order |
| Day06.BoundsContain | day6/src/main.rs:33-41 | the box of no points is the fold seed `(MAX, MAX, MIN, MIN)`, and every input point lies inside the box |
| Day06.BoundsAttained | day6/src/main.rs:33-41 | each side of a non-empty input's box is a coordinate of some input point, so the box is the least and greatest coordinates |
| Day06.GridMeans | day6/src/main.rs:43-44 | the grid holds exactly the cells of the box, each once, `x` major and `y` minor |
| Day06.OwnerMeans | day6/src/main.rs:45-56 | a cell is owned by `p` iff `p` sits at a place of the input strictly nearer to the cell than every other place; a tie between the two nearest leaves it unowned |
| Day06.BestIsMax | day6/src/main.rs:65-75 | `max_by_key` picks a largest count among the candidates |
| Day06.AreasAreRegions | day6/src/main.rs:59-72 | the tally gives a point the number of cells of the box it owns, or nothing when it owns a cell on the edge of the box |
| Day06.Part1Means | day6/src/main.rs:32-78 | part 1 is the size of a largest region among the owners of no edge cell, and fails exactly when every owner owns an edge cell |
| Day06.Part1 | day6/src/main.rs:32-78 | part 1: None for fewer than two points or no owner away from the edge, otherwise the largest candidate area; its meaning is proved in `Day06.Part1Means` |
| Day06.TotalDistanceBounds | day6/src/main.rs:93 | the sum of the distances is non-negative and at least each single distance |
| Day06.CountNearIsSize | day6/src/main.rs:91-94 | over distinct cells, the `filter(...).count()` is the number of cells whose total distance is below 10000 |
| Day06.Part2Means | day6/src/main.rs:80-97 | part 2 is the number of distinct cells of the box whose distances to all input points sum to less than 10000 |
| Day06.Part2 | day6/src/main.rs:80-97 | part 2: the count of the box's cells whose total distance is below 10000; its meaning is proved in `Day06.CountNearIsSize` and `Day06.Part2Means` |
| Day07.CompletionTime | day7/src/main.rs:8-10 | a step takes its character code less 4 seconds, and the `usize` subtraction fails (None) exactly for characters below `@` |
| Day07.LetterTimes | day7/src/main.rs:8-10 | `A` takes 61 seconds, `Z` 86, and later letters take longer |
| Day07.ParseStepLine | day7/src/main.rs:12-18 | the puzzle's sentence "Step X must be finished before step Y can begin." parses back to `(X, Y)` for any two non-whitespace characters |
| Day07.BuildGraph | day7/src/main.rs:114-123 | `step_blocks` maps exactly the steps that block something to their blocks in input order, and `step_blocked_by` exactly the blocked steps to their prerequisites in input order |
| Day07.ChildrenInMeans | day7/src/main.rs:117-118 | `c` is listed under `s` iff the edge `(s, c)` is in the input |
| Day07.ParentsInMeans | day7/src/main.rs:119-122 | `s` is listed under `c` iff the edge `(s, c)` is in the input |
| Day07.BuiltConsistent | day7/src/main.rs:117-123 | the two maps record the same edges, one in each direction |
| Day07.BuiltUnique | day7/src/main.rs:114-123 | the maps are determined by the edges |
| Day07.RootsMeans | day7/src/main.rs:125-129 | the initial `ready` set is the steps that block something and are blocked by nothing |
| Day07.ReleaseChildren | day7/src/main.rs:38-46 | the children loop adds to `ready` exactly the children that have no prerequisite list or whose prerequisites are all completed |
| Day07.Least | day7/src/main.rs:29 | `ready.iter().min()` finds the alphabetically least ready step |
| Day07.ReadyInitially | day7/src/main.rs:125-129 | before anything is done, the steps whose prerequisites are complete are exactly the roots |
| Day07.ReadyAfter | day7/src/main.rs:29-46 | finishing a ready step leaves ready exactly the other ready steps and the children whose prerequisites are now all complete, and completed steps keep having their prerequisites completed |
| Day07.Part1 | day7/src/main.rs:20-49 | the answer takes, at every position, the alphabetically least step whose prerequisites are all earlier, and stops only when no step is ready |
| Day07.OrderDistinct | day7/src/main.rs:29-47 | no step appears twice in the answer |
| Day07.OrderRespects | day7/src/main.rs:29-47 | every prerequisite of a step appears before it |
| Day07.OrderUnique | day7/src/main.rs:29-47 | only one sequence meets that description, so the answer does not depend on hash order |
| Day07.WorkerStepKeeps | day7/src/main.rs:68-97 | one worker's turn keeps the schedule: completed steps had their prerequisites completed, and each step whose prerequisites are complete is ready or held by exactly one worker |
| Day07.TickKeeps | day7/src/main.rs:68-98 | a whole second of worker turns keeps the schedule |
| Day07.StartScheduled | day7/src/main.rs:57-59 | the schedule holds with five idle workers and the roots ready |
| Day07.AfterKeeps | day7/src/main.rs:67-104 | every state the simulation reaches keeps the schedule |
| Day07.TickWorkers | day7/src/main.rs:68-98 | the worker loop updates the array, `ready` and `completed` as the worker-by-worker specification of one second says, and fails exactly when it does |
| Day07.Part2 | day7/src/main.rs:52-105 | the loop answers as the specification of the whole simulation from five idle workers at second 0 |
| Day07.SimulateMeans | day7/src/main.rs:67-104 | the simulation answers `t + k` iff at the end of second `t + k` every step is complete and at the end of each earlier second some step was not, within the fuel |
| Day07.SimulateFrom | day7/src/main.rs:67-104 | the answer lies between the starting second and the last one the fuel allows |
| Day07.ParseAll | day7/src/main.rs:109-112 | every line parses, in order, or the result is None when any line fails |
| Day07.Solve | day7/src/main.rs:107-135 | the program answers iff every line parses, and then part 1 is the greedy order and part 2 the simulation on the maps of the edges and their roots |
| Day08.TotalConcat | day8/src/main.rs:12-13 | the sum of two lists put together is the sum of their sums |
| Day08.ParseAt | day8/src/main.rs:43-54 | a parsed node starts with its two counts and ends within the tokens |
| Day08.ParseChildren | day8/src/main.rs:46-48 | a parsed child list has exactly the requested number of children and ends within the tokens |
| Day08.ParseEncode | day8/src/main.rs:43-54 | parsing at the start of a node's encoding gives that node back and stops right after it, whatever follows |
| Day08.ParseEncodeAll | day8/src/main.rs:46-48 | parsing `k` children at the start of their encodings gives them back and stops right after them |
| Day08.ParseIsEncode | day8/src/main.rs:43-54 | what the parser reads from where it starts to where it stops is exactly the encoding of the node it returns |
| Day08.ParseChildrenIsEncode | day8/src/main.rs:46-48 | what the children's parse reads is exactly the encoding of the children it returns |
| Day08.ParseNone | day8/src/main.rs:43-54 | the parser gives up (`?` on a `None`) exactly when no node's encoding starts at the position |
| Day08.Parser.constructor | day8/src/main.rs:34-41 | a new parser holds the tokens and stands before the first |
| Day08.Parser.Next | day8/src/main.rs:44-45 | `next` yields the token at the position and moves past it, or None at the end without moving |
| Day08.Parser.ParseNode | day8/src/main.rs:43-54 | the method returns a node iff `ParseAt` does, and then the same node and the same end position |
| Day08.Parser.ParseChildrenNodes | day8/src/main.rs:46-48 | the `collect` into `Option<Vec<Node>>` returns children iff `ParseChildren` does, and then the same ones and the same end position |
| Day08.Parser.ReadMetadata | day8/src/main.rs:49-51 | reading `count` entries succeeds iff that many tokens are left, and returns exactly them |
| Day08.MetadataSumAll | day8/src/main.rs:11-15 | `metadata_sum` is the total of every metadata entry in the tree |
| Day08.Value | day8/src/main.rs:17-26 | a node without children is worth its metadata sum |
| Day08.ZeroEntryFails | day8/src/main.rs:23 | a node with children and a metadata entry of 0 has no value (the `i - 1` underflows) |
| Day08.ValueOutOfRange | day8/src/main.rs:21-24 | a node with children whose every entry points past its last child is worth 0 |
| Day08.ValueSingleEntry | day8/src/main.rs:21-24 | a node whose one entry is `i` is worth its child `i - 1` |
| Day08.Solve | day8/src/main.rs:76-80 | an answer exists iff a root node parses from the first token, and then it is that root's metadata sum and value |
| Day09.Turn | day9/src/main.rs:13-31 | a multiple of 23 shrinks the circle by one marble; any other marble grows it by one |
| Day09.TurnPlace | day9/src/main.rs:22-30 | a marble that is not a multiple of 23 becomes current, sits between the marbles one and two places clockwise of the old current one, and nobody scores |
| Day09.TurnKeep | day9/src/main.rs:14-21 | a multiple of 23 removes the marble seven places counter-clockwise, the one after it becomes current, and the player scores the marble plus the removed one |
| Day09.Player | day9/src/main.rs:12 | the player of every marble is one of `1..=players` |
| Day09.PlayerFirstRound | day9/src/main.rs:12 | the first `players` marbles go to players 1, 2, ... in order |
| Day09.PlayerPeriodic | day9/src/main.rs:12 | the player of marble `m + players` is the player of marble `m` |
| Day09.SizeClosedForm | day9/src/main.rs:13-31 | after marble `m` the circle holds `m + 1 - 2 * (m / 23)` marbles |
| Day09.SizeBeforeKeep | day9/src/main.rs:15 | the circle is never empty before a turn and holds at least seven marbles before a multiple of 23, so `split_off` never fails |
| Day09.RunFrom | day9/src/main.rs:8-35 | the game from any marble on ends with the circle size of the closed form |
| Day09.RunFromStep | day9/src/main.rs:12-32 | the game from marble `m` is one turn of `m`'s player followed by the game from `m + 1` |
| Day09.Run | day9/src/main.rs:8-35 | with no players nothing is played; otherwise the circle after the last marble has the closed-form size |
| Day09.Play | day9/src/main.rs:8-35 | the loop's scores are the scores of the game after marbles `1..=last` |
| Day09.PlayTurn | day9/src/main.rs:13-31 | one loop iteration's list operations give the circle, scores and removed marbles of one turn |
| Day09.PlacedUpToMeans | day9/src/main.rs:12 | the marbles placed up to `m` are exactly `0..=m`, each once |
| Day09.TurnAccounted | day9/src/main.rs:13-31 | one turn keeps every placed marble either in the circle or among the removed ones, exactly once |
| Day09.RunAccounted | day9/src/main.rs:8-35 | after the game the circle and the removed marbles together hold marbles `0..=last`, each once |
| Day09.RunHoldsPlaced | day9/src/main.rs:8-35 | after the game each marble `0..=last` is in the circle or removed exactly once, and no other marble appears |
| Day09.ScoreTotalAdd | day9/src/main.rs:20 | adding points to one player's score adds them to the total over all players |
| Day09.TurnScores | day9/src/main.rs:20 | one turn keeps the total score equal to the kept multiples of 23 plus the removed marbles, and only real players score |
| Day09.RunScores | day9/src/main.rs:8-35 | after the game the total score is the sum of the multiples of 23 up to `last` plus the removed marbles, and only players `1..=players` have scores |
| Day09.HighScore | day9/src/main.rs:39 | None exactly when nobody scored; otherwise a score some player has and no player beats |
| Day09.Part1 | day9/src/main.rs:37-41 | part 1: the high score of the game after marbles `1..=last`, None when nobody scored (`Day09.HighScore`, `Day09.NoScoreBefore23`) |
| Day09.Part2 | day9/src/main.rs:43-47 | part 2: the same for a last marble 100 times larger |
| Day09.NoScoreBefore23 | day9/src/main.rs:37-41 | with fewer than 23 marbles nobody scores and part 1 has no answer |
| Day10.Checked | day10/src/main.rs:98 | checked `isize` arithmetic gives the exact result, and None exactly when it leaves the 64-bit range |
| Day10.Tick | day10/src/main.rs:91-105 | `tick`: every particle moved by its velocity, None on an `isize` overflow; its meaning is proved in `Day10.TickMoves` and `Day10.TicksMove` |
| Day10.TickMoves | day10/src/main.rs:91-105 | a tick succeeds unless a coordinate overflows, keeps the count and order of the particles and their velocities, and adds each velocity to its position once |
| Day10.TicksMove | day10/src/main.rs:91-105 | after `n` ticks each particle has moved by `n` times its velocity |
| Day10.BoundsContain | day10/src/main.rs:57-70 | the box of no particles is the fold seed `(MAX, MAX, MIN, MIN)`, and every particle lies inside its list's box |
| Day10.BoundsAttained | day10/src/main.rs:57-70 | each side of a non-empty list's box is the coordinate of some particle, so the box is the least x, least y, greatest x and greatest y |
| Day10.ExtentEmpty | day10/src/main.rs:116-118 | without particles the width `MIN - MAX` overflows |
| Day10.ExtentSpread | day10/src/main.rs:116-118 | width and height are non-negative and bound the difference of any two particles' coordinates |
| Day10.CalmBeforeMeans | day10/src/main.rs:119-137 | the seconds before `t` were all accepted iff at each of them the next box was neither wider nor taller |
| Day10.FirstStopUnique | day10/src/main.rs:126-132 | only one second is the first at which the box grows |
| Day10.Shrinking | day10/src/main.rs:126-136 | up to the stop, the width and height at a later second are at most those at an earlier one |
| Day10.Message | day10/src/main.rs:107-139 | the loop reports the first second `t` at which the next box is wider or taller, with the particles after `t` ticks (the ones drawn), and reports nothing only when no such second exists within the fuel |
| Day11.HundredsOfNat | day11/src/main.rs:16-22 | for a non-negative power level the third digit from the right of its decimal string is its hundreds digit, 0 when the string is shorter |
| Day11.Hundreds | day11/src/main.rs:16-22 | the third character from the right of the level's string as a digit, 0 when shorter, None on the minus sign; proved to be the hundreds digit in `Day11.HundredsOfNat` and to fail in `Day11.HundredsOfSmallNegative` |
| Day11.PowerLevel | day11/src/main.rs:11-24 | `power_level`: the hundreds digit of `((x + 10) * y + INPUT) * (x + 10)` minus 5; on the grid it exists and lies in `-5..=4` (`Day11.PowerLevelOnGrid`) |
| Day11.HundredsOfSmallNegative | day11/src/main.rs:16-22 | for a negative level whose string has its minus sign third from the right, `c as u8 - 48` underflows: None |
| Day11.PowerLevelOnGrid | day11/src/main.rs:11-24 | on the grid the intermediate level is non-negative, so every power level exists and lies in `-5..=4` |
| Day11.Level | day11/src/main.rs:11-24 | the power level of a grid cell, always in `-5..=4` |
| Day11.Grid | day11/src/main.rs:79-85 | the grid map holds exactly the cells `1..=300` x `1..=300`, each with its power level |
| Day11.Score3Means | day11/src/main.rs:29-37 | a key is scored exactly when its whole 3 x 3 square is in the grid, and its score is the square's sum |
| Day11.ScoredKeys | day11/src/main.rs:27-38 | every scored entry is a key of the grid with the score of its 3 x 3 square |
| Day11.ScoredKeysHas | day11/src/main.rs:27-38 | every key whose square lies in the grid appears among the scored entries |
| Day11.Part1 | day11/src/main.rs:26-43 | part 1: the last best-scored key in iteration order, None when no square fits; its meaning is proved in `Day11.Part1Scores` and `Day11.Part1Best` |
| Day11.Part1Scores | day11/src/main.rs:26-40 | no answer exactly when no key is scored; otherwise a scored key whose score no other key's exceeds |
| Day11.Part1Best | day11/src/main.rs:26-40 | no answer exactly when no 3 x 3 square fits; otherwise the corner of a square in the grid with the greatest sum |
| Day11.CacheAfterAt | day11/src/main.rs:46-58 | after the fold reaches a point, the cache holds exactly the visited points, each with the sum of the grid from `(1, 1)` to it |
| Day11.CacheAfter | day11/src/main.rs:46-58 | the fold building the cache, point by point in `iproduct!` order; what it holds is proved in `Day11.CacheAfterAt` and `Day11.CacheIsSummedArea` |
| Day11.CacheIsSummedArea | day11/src/main.rs:46-58 | the finished cache is the summed-area table of the grid |
| Day11.SearchedFits | day11/src/main.rs:60-64 | the searched corners and offsets are exactly the squares that fit in the grid |
| Day11.KeyIsSquare | day11/src/main.rs:65-72 | the key computed by inclusion and exclusion on the cache is the sum of the candidate's square |
| Day11.SearchFromBest | day11/src/main.rs:60-73 | the fold of `max_by_key` ends on a candidate with the greatest key, after which every searched candidate has a smaller key |
| Day11.SearchFrom | day11/src/main.rs:60-73 | the fold of `max_by_key` over the candidates, a later equal key replacing the best; it ends on the last maximum (`Day11.SearchFromBest`) |
| Day11.Best | day11/src/main.rs:60-73 | the candidate the search returns has the greatest key and is the last one with it |
| Day11.Search | day11/src/main.rs:60-75 | the corner and side of the candidate the search ends on; a square with the greatest sum (`Day11.SearchBest`) |
| Day11.SearchBest | day11/src/main.rs:60-75 | over a summed-area table the search returns a square in the grid whose sum no other square in the grid exceeds |
| Day11.SquareAtMostBest | day11/src/main.rs:60-73 | every square in the grid sums to no more than the square the search returns |
| Day11.Part2 | day11/src/main.rs:45-75 | part 2: the search over the cache built from the grid; a square of any size with the greatest sum (`Day11.Part2Best`) |
| Day11.Part2Best | day11/src/main.rs:45-75 | part 2 answers a square in the grid with the greatest sum of any size |
| Day12.GenerationMeans | day12/src/main.rs:8-19 | the collected pots are exactly the pots of the range whose window's rule gives a plant, each marked `#` |
| Day12.Calculate | day12/src/main.rs:5-20 | `calculate` as written: the growing pots of `min - 1 ..= max + 1`, None for an empty state; see `Day12.CalculateRange`, `Day12.NarrowMissesPlant` and `Day12.CalculateAgrees` |
| Day12.CalculateFullIsStep | day12/src/main.rs:5-20 | looking two pots beyond each end, and with no plant from five empty pots, a generation has a plant at exactly the pots whose window's rule gives one |
| Day12.NarrowMissesPlant | day12/src/main.rs:6-8 | as written the range `min - 1 ..= max + 1` misses a plant that the rule `....# => #` grows two pots beyond the end |
| Day12.CalculateAgrees | day12/src/main.rs:5-20 | when no rule grows a plant two pots beyond the ends, `calculate` as written equals the two-pot version |
| Day12.CalculateRange | day12/src/main.rs:5-20 | one generation reaches at most one pot beyond each end of the state and keeps only plants |
| Day12.IterateRange | day12/src/main.rs:23-25 | after `n` generations every pot lies within `n` of the initial ends, and every pot holds a plant |
| Day12.Part1 | day12/src/main.rs:22-34 | part 1: the sum of the plant numbers after 20 generations, None when a generation fails |
| Day12.SetSumRemove | day12/src/main.rs:27-31 | the sum of the pot numbers is any one of them plus the sum of the rest |
| Day12.CalculateMoved | day12/src/main.rs:5-20 | a generation of a shifted state is the shifted generation |
| Day12.Glide | day12/src/main.rs:37-56 | a state whose next generation is itself shifted by `d` is shifted by `n * d` after `n` generations |
| Day12.SetSumMoved | day12/src/main.rs:42-46 | shifting every pot number by `k` adds `k` to the sum once per plant |
| Day12.PlantSumMoved | day12/src/main.rs:42-46 | a shifted state has as many plants, and its plant sum grows by the shift times the plant count |
| Day12.Stop | day12/src/main.rs:37-56 | the `try_fold` over generations, stopping at the first growth equal to the previous one, or None past the limit; see `Day12.Part2Means` |
| Day12.Part2 | day12/src/main.rs:36-62 | part 2: the stopping generation's sum plus its growth for each remaining generation; proved in `Day12.Part2Means`, `Day12.Part2At` and `Day12.Part2Exact` |
| Day12.Part2Means | day12/src/main.rs:36-59 | part 2 answers from the first generation whose growth equals the previous one (generation 1 compared with 0), as its sum plus its growth for each remaining generation; no answer when no generation up to the limit is such |
| Day12.StopAtStart | day12/src/main.rs:37-40 | the fold starts as if after a generation 0 with sum and growth 0, whatever the initial state |
| Day12.FirstSteadyUnique | day12/src/main.rs:49-53 | only one generation is the first whose growth repeats |
| Day12.Part2At | day12/src/main.rs:36-59 | whichever generation is the first steady one, part 2 answers from it |
| Day12.ExtrapolationExact | day12/src/main.rs:58-59 | when a generation's state next moves by a fixed shift, the plant sum after 50 000 000 000 generations is its sum plus its growth for each remaining generation |
| Day12.Part2Exact | day12/src/main.rs:36-59 | when the state at the first steady generation is the previous one shifted, part 2's answer is the plant sum after 50 000 000 000 generations |
| Day12.ParseInitialFormat | day12/src/main.rs:69-80 | the state line gives each character of the pattern at its index, `.` pots included |
| Day12.ParseRuleFormat | day12/src/main.rs:83-88 | a rule line gives back its window and its result character |
| Day12.RulesOfLastWins | day12/src/main.rs:82-89 | a window has a rule exactly when some line gives it one, and then the last such line decides it |
| Day13.TurnedLaws | day13/src/main.rs:22-37 | `turn` with `Straight` keeps the direction, a left and a right turn undo each other, four left turns come back, and a left or right turn always changes the direction |
| Day13.NextTurnCycles | day13/src/main.rs:48-54 | `next` cycles left, straight, right with period exactly 3 |
| Day13.NextPointMovesOne | day13/src/main.rs:61-81 | `Point::next` moves exactly one cell, along the column for up and down and along the row for left and right, with down and right increasing; it fails (a `usize` underflow) exactly off the top or left edge |
| Day13.CartNextEffects | day13/src/main.rs:93-151 | straight track leaves the cart alone; a curve changes only the direction, between vertical and horizontal, and the same curve twice restores it; an intersection turns by `next_turn` and advances it |
| Day13.ThreeIntersections | day13/src/main.rs:138-149 | three intersections from a fresh cart turn left, straight, right and restore the cart completely |
| Day13.ParseCell | day13/src/main.rs:233-284 | a cart character puts a cart on straight track; the characters outside blank, track and cart are exactly those that panic |
| Day13.ParseRow | day13/src/main.rs:231-285 | each row's track lies on that row and its carts are fresh, on straight track and on distinct cells |
| Day13.ParseLines | day13/src/main.rs:224-288 | the parsed map's carts are fresh, on straight track, and no two share a cell |
| Day13.SortCarts | day13/src/main.rs:158-161 | the carts sorted by `(y, x)` are in reading order and a permutation of the carts |
| Day13.FirstAt | day13/src/main.rs:198-200 | `position` finds the first cart on the cell, and None iff no cart is on it |
| Day13.Step1Effects | day13/src/main.rs:164-179 | a `part1` crash is at the cell the mover enters and some cart holds; a move changes only the mover, to the cell it heads for, which no cart held; the run panics exactly when the cart is off the map or leaves the top or left edge |
| Day13.Tick1KeepsApart | day13/src/main.rs:163-180 | moves that do not crash keep the carts on distinct cells |
| Day13.SortKeepsApart | day13/src/main.rs:158-161 | sorting keeps the carts on distinct cells |
| Day13.RoundKeepsApart | day13/src/main.rs:157-181 | a whole `part1` tick that does not crash keeps every cart on its own cell |
| Day13.Move1 | day13/src/main.rs:164-179 | the body of `part1`'s inner loop computes exactly the reference move of cart `i` |
| Day13.Tick1 | day13/src/main.rs:163-180 | `part1`'s `for` loop over the sorted carts returns the reference tick: the first crash, a panic, or the moved carts |
| Day13.Part1 | day13/src/main.rs:154-182 | the `loop` returns the first crash of the reference run within the fuel |
| Day13.Step2Effects | day13/src/main.rs:194-208 | a collision flags the mover and the first cart on the target cell, which is another cart, and leaves every other field of both and every other cart as it was; otherwise only the mover moves |
| Day13.Tick2KeepsFlags | day13/src/main.rs:193-209 | a tick never clears a `crashed` flag |
| Day13.UncrashedKeepsLive | day13/src/main.rs:211 | `retain` keeps exactly the carts that have not crashed |
| Day13.Move2 | day13/src/main.rs:194-208 | the body of `part2`'s inner loop computes exactly the reference move of cart `i` |
| Day13.Tick2 | day13/src/main.rs:193-209 | `part2`'s `for` loop returns the reference tick, or None on a panic |
| Day13.Part2 | day13/src/main.rs:184-220 | the `loop` returns the position of the only cart left after the first tick that leaves exactly one, as the reference run does within the fuel |
| Day13.FlaggedCartsKeepMoving | day13/src/main.rs:193-211 | four carts on a straight row: as written one tick leaves one cart, so its cell is reported, while with crashed carts removed at once two carts still run |
| Day13.FixedStep2RemovesPairs | day13/src/main.rs:193-211 | with crashed carts removed at once, a move removes no cart or exactly two running ones |
| Day13.FixedTickKeepsParity | day13/src/main.rs:193-211 | with crashed carts removed at once, a tick changes the number of running carts by an even amount |
| Day13.FixedLastCartNeedsOdd | day13/src/main.rs:184-220 | with crashed carts removed at once, a last cart can be reported only from an odd number of fresh carts |
| Day14.SumDigitsIsToString | day14/src/main.rs:11-12 | the digits appended for a sum of two scores are the sum's decimal string |
| Day14.Step | day14/src/main.rs:8-17 | one round keeps the board valid and appends one or two entries, leaving the old ones as they were |
| Day14.StepAppendsSum | day14/src/main.rs:9-12 | the appended entries read as a number are the sum of the two workers' scores |
| Day14.Move | day14/src/main.rs:14-15 | a worker's new position lies on the board |
| Day14.Advance | day14/src/main.rs:8-17 | one iteration of the loop body is one step of the board |
| Day14.GrowFrom | day14/src/main.rs:7-22 | growing the board reaches the target length, adds at least one recipe, and keeps the existing entries |
| Day14.GrowFromStops | day14/src/main.rs:19-21 | growing stops as soon as the target is reached, so it overshoots by at most one recipe |
| Day14.GrowFromPrefix | day14/src/main.rs:7-22 | the board grown to a smaller target is a prefix of the board grown to a larger one |
| Day14.Part1Answer | day14/src/main.rs:24 | the answer is ten digit characters |
| Day14.Part1 | day14/src/main.rs:3-26 | the loop answers the ten scores after the first `INPUT` recipes of the grown board |
| Day14.FindFromFirst | day14/src/main.rs:53 | searching from `i` answers the first occurrence at or after `i`, or None when there is none |
| Day14.FindFirst | day14/src/main.rs:53 | `find` answers the first occurrence, and None exactly when the pattern is absent |
| Day14.Tail | day14/src/main.rs:45-52 | the tail has `k` entries, or as many as the board when it is shorter |
| Day14.TailOccurs | day14/src/main.rs:54 | an occurrence at `i` in the tail is an occurrence at `len - tail.len() + i` on the board |
| Day14.OccursInTail | day14/src/main.rs:45-54 | after a step on a board without the pattern, every occurrence starts inside the last entries, as many as the pattern is long plus two |
| Day14.CheckFindsFirst | day14/src/main.rs:45-54 | so the check on the tail answers the first occurrence on the whole board |
| Day14.StepAgrees | day14/src/main.rs:33-54 | on a board without the pattern, the check after one step finds what a search of the whole new board finds |
| Day14.SearchFindsFirst | day14/src/main.rs:33-58 | when the pattern is absent at the start, the search stops at the first occurrence on its board, and gives up only having seen none |
| Day14.SearchExtends | day14/src/main.rs:33-58 | the search only appends to the board, and gives up only once the board holds `limit` recipes |
| Day14.Part2 | day14/src/main.rs:28-59 | the loop answers what the search of the board answers |
| Day14.Part2Input | day14/src/main.rs:28-59 | for the puzzle's input the answer is the first position where its digits occur on the board |
| Day15Units.CompareIsTotalOrder | day15/src/main.rs:10-17 | points compare equal only when equal, `Less` one way iff `Greater` the other, and reading order (row, then column) is a strict total order |
| Day15Units.AdjacentIsNeighbourhood | day15/src/main.rs:26-35 | `adjacent` lists four points, exactly those at Manhattan distance 1, in the order up, left, right, down (reading order) |
| Day15Units.AdjacentSymmetric | day15/src/main.rs:26-35 | `q` is a neighbour of `p` iff `p` is a neighbour of `q` |
| Day15Units.EnemyIsInvolution | day15/src/main.rs:54-59 | `enemy` is an involution with no fixed point |
| Day15Units.NewCharacter | day15/src/main.rs:78-86 | a new unit is alive with 200 hit points and attack power 3 at the given position |
| Day15Units.TakeHit | day15/src/main.rs:92-97 | hit points drop by exactly the attack; the unit is dead afterwards iff it was dead or the hit points are at most 0 (dead is never cleared); nothing else changes |
| Day15Units.SortByPosition | day15/src/main.rs:249-250 | the roster sorted by position is ordered by reading order and is a permutation of the roster; it is the shared stable sort `Sorting.SortBy` with the `(y, x)` key |
| Day15Units.ReadingKeyOrders | day15/src/main.rs:10-17 | comparing the `(y, x)` keys of two units is comparing their positions in reading order, the `Ord` of `Point` |
| Day15Roster.CompleteMeansNoEnemies | day15/src/main.rs:165-174 | when `is_complete` holds no living unit has a living enemy; with a living unit at index 0 and no living enemy of it, `is_complete` holds |
| Day15Roster.CompleteLooksAtIndexZero | day15/src/main.rs:165-174 | a dead elf at index 0 and a living goblin: no living unit has an enemy, yet `is_complete` is false, because the race compared is that of index 0 |
| Day15Roster.Living | day15/src/main.rs:176-178 | `retain(is_alive)` keeps exactly the living units and only those, never more than there were |
| Day15Roster.LivingAppend | day15/src/main.rs:176-178 | removing the dead keeps roster order: it distributes over concatenation |
| Day15Roster.LivingKeepsValid | day15/src/main.rs:176-178 | removing the dead keeps the roster on open floor with distinct cells |
| Day15Combat.Simulation.RemoveDead | day15/src/main.rs:176-178 | the loop leaves exactly the living units of the old roster, in order |
| Day15Roster.EnemyAt | day15/src/main.rs:181-188 | the position map of living enemies holds the last roster index of a living enemy on that cell, and nothing iff none stands there |
| Day15Roster.Weakest | day15/src/main.rs:190-195 | `min_by_key` over the neighbours returns an enemy standing on one of them that no enemy on another is weaker than, and nothing iff no neighbour holds one |
| Day15Roster.WeakerIsStrictOrder | day15/src/main.rs:194 | the key (hit points, position) is a strict total order on units on distinct cells |
| Day15Roster.EnemyToAttackIsWeakest | day15/src/main.rs:180-196 | the unit attacked is a living enemy on a neighbouring cell minimal by (hit points, position) among all such; None iff there is none |
| Day15Roster.TotalHealthOfLiving | day15/src/main.rs:240-246 | the total health counts only living units, so removing the dead keeps it |
| Day15Roster.TotalHealthBounds | day15/src/main.rs:240-246 | with living hit points in 1..=200 the total health lies between the number of living units and 200 times that |
| Day15Search.LayerIsDistance | day15/src/main.rs:214-235 | the k-th search layer holds exactly the cells whose shortest free walk from the unit has k steps |
| Day15Search.TargetFromSpec | day15/src/main.rs:215-226 | the search stops at the cell next to an enemy that is nearest by (walk length, reading order), or finds none iff no free walk reaches a cell next to an enemy |
| Day15Search.MoveIsTowardsNearest | day15/src/main.rs:198-238 | `find_move` returns None iff the unit is already next to an enemy or no cell next to an enemy is reachable; otherwise a free neighbour of the unit that is the second cell of a shortest walk to the nearest such cell |
| Day15Combat.Simulation.FindMove | day15/src/main.rs:198-238 | the heap loop over `came_from` returns exactly the move of the breadth-first reference definition |
| Day15Combat.Simulation.TakeTurn | day15/src/main.rs:261-270 | a living unit's turn is its move followed by its attack, and the roster stays valid |
| Day15Roster.MoverEffects | day15/src/main.rs:261-264 | a move changes only the position, either not at all or to a free open neighbour |
| Day15Roster.AttackEffects | day15/src/main.rs:266-270 | an attack changes at most one unit other than the attacker: a living enemy beside it takes exactly one hit |
| Day15Roster.TurnEffects | day15/src/main.rs:251-271 | a turn moves only the acting unit, to a free open neighbour or nowhere, and changes at most one other unit, a living enemy beside its new cell, by one hit |
| Day15Roster.TurnKeepsValid | day15/src/main.rs:251-271 | a turn keeps living units on open floor on distinct cells |
| Day15Roster.RoundKeepsValid | day15/src/main.rs:248-276 | a round keeps the roster valid and leaves only living units |
| Day15Combat.Simulation.Tick | day15/src/main.rs:248-276 | `tick` sorts once, skips the dead, stops with `true` after removing the dead before the first living unit to find the roster complete, and otherwise plays every turn and returns `false` after removing the dead; the result is exactly the reference round |
| Day15Combat.Simulation.PlayTurns | day15/src/main.rs:251-276 | the turn loop on the sorted roster: the flag and the roster it leaves (the dead removed) are exactly those of the reference turns from the first unit, and the roster stays valid |
| Day15Combat.Simulation.Play | day15/src/main.rs:282-288 | the `for t in 0..` loop returns the index and roster of the first round that reports the end, as the reference battle does |
| Day15Combat.Fight | day15/src/main.rs:279-288 | a fresh simulation played for at most `fuel` rounds is the reference battle |
| Day15Roster.BattleCountsRounds | day15/src/main.rs:282-286 | a battle that ends reports the index of the first round that reports the end; every earlier round returned `false` |
| Day15Combat.Part1 | day15/src/main.rs:279-289 | the answer is the number of rounds that returned `false` times the total health left |
| Day15Roster.WithElfAttack | day15/src/main.rs:295-307 | every elf gets the new attack power and every other unit is unchanged, in the same order |
| Day15Roster.WithElfAttackKeepsValid | day15/src/main.rs:292-307 | arming the elves changes neither validity nor the number of elves |
| Day15Roster.FirstSparingIsFirst | day15/src/main.rs:294-326 | an answer is the score of the battle at the first attack power tried that leaves every elf, and every lower power tried lost an elf |
| Day15Combat.Part2 | day15/src/main.rs:291-327 | the loop over attack powers from 4 returns the score of the first battle that keeps every elf, as the reference search does |
| Day16.AllOpcodesListed | day16/src/main.rs:61-78 | `ALL_OPCODES` lists all sixteen opcodes, each exactly once |
| Day16.BitSymmetry | day16/src/main.rs:39-42 | bitwise and and bitwise or are commutative |
| Day16.BitIdempotent | day16/src/main.rs:39-42 | the bitwise and and the bitwise or of `x` with itself are both `x` |
| Day16.BitSum | day16/src/main.rs:39-42 | `x & y` plus the bitwise or of `x` and `y` is `x + y`; the and is at most either operand and the or at least either |
| Day16.BitOrBelow | day16/src/main.rs:41-42 | or of two numbers below `2^k` is below `2^k`, so `borr` and `bori` never leave `usize` |
| Day16.ApplyFrame | day16/src/main.rs:32-58 | a successful `apply` returns registers of the same length that differ from the input at most in register `c`, which holds a `usize` |
| Day16.ValueInRange | day16/src/main.rs:39-54 | with `usize` operands the bitwise, set and comparison opcodes write a `usize`: only add and mul can overflow |
| Day16.ApplyFailsOnlyOutOfRange | day16/src/main.rs:32-58 | with `usize` registers and operands an opcode other than add and mul panics exactly when `c` or a register it reads is out of range |
| Day16.RegisterIsImmediate | day16/src/main.rs:35-42 | the register forms of add, mul, and and or are the immediate forms applied to the value of register `b` |
| Day16.SetIgnoresB | day16/src/main.rs:43-44 | `setr` copies register `a` and `seti` writes `a`, and neither depends on `b` |
| Day16.ComparisonsWriteBits | day16/src/main.rs:45-54 | each comparison writes 1 when its relation holds between the named operands and 0 otherwise, touching only register `c`; an immediate operand (`a` of gtir and eqir, `b` of gtri and eqri) may be any value, and only the operands read as registers must name one |
| Day16.BehavesFromMeans | day16/src/main.rs:95-99 | the filter over a list of opcodes keeps exactly the listed ones that turn `before` into `after`, and applying them panics iff some listed opcode fails on the sample |
| Day16.ConsistentMeans | day16/src/main.rs:95-99 | a sample's consistent set holds exactly the opcodes that behave like it; there is none iff some opcode panics on it |
| Day16.CountIsSetSize | day16/src/main.rs:95-99 | over a list without repeats `count()` of the matching opcodes is the size of their set |
| Day16.CountIsConsistentSize | day16/src/main.rs:95-100 | over `ALL_OPCODES` the count is the size of the consistent set |
| Day16.Part1 | day16/src/main.rs:87-107 | `part1` answers iff no sample makes an opcode panic |
| Day16.Part1Counts | day16/src/main.rs:87-107 | the answer is the number of samples that behave like three or more opcodes |
| Day16.Candidates | day16/src/main.rs:110-129 | the candidate map exists iff no sample makes an opcode panic |
| Day16.CandidatesKeys | day16/src/main.rs:110-129 | the candidate map has exactly the sampled codes as keys |
| Day16.CandidatesLastWins | day16/src/main.rs:110-129 | the last sample with a code decides its candidates, as `collect` into a `HashMap` keeps the last pair per key |
| Day16.TrueOpcodeIsCandidate | day16/src/main.rs:110-129 | an opcode every sample of a code behaves like is among that code's candidates |
| Day16.UnusedMeans | day16/src/main.rs:145-157 | the filtered opcodes are exactly the listed candidates not in use, without repeats when the list has none |
| Day16.UnusedSingleton | day16/src/main.rs:145-157 | when the unused candidates are `{op}` the filter keeps `op` alone |
| Day16.OneUnused | day16/src/main.rs:145-159 | the filter leaves exactly one opcode, `op`, iff the unused candidates are `{op}` |
| Day16.AssignMeans | day16/src/main.rs:141-159 | a pass maps a code to `op` iff `op` is the code's one unused candidate |
| Day16.AssignAgrees | day16/src/main.rs:141-161 | when the candidates contain the true opcodes of an injective assignment that the mapping agrees with, extending the mapping keeps it in agreement |
| Day16.EliminationIsSound | day16/src/main.rs:131-162 | elimination that ends agrees with every injective assignment consistent with the candidates, covers every candidate code and keeps every code mapped before |
| Day16.FoundOnlySampled | day16/src/main.rs:131-162 | elimination maps only codes that have candidates or were mapped before |
| Day16.DeductionIsSound | day16/src/main.rs:110-162 | if the samples agree with an injective assignment, the mapping found has exactly the sampled codes, each with its true opcode |
| Day16.Eliminate | day16/src/main.rs:131-162 | the `loop` returns exactly the reference elimination from the empty mapping |
| Day16.Decode | day16/src/main.rs:164-171 | a program line decodes iff it has four entries and its opcode number is mapped, to the mapped opcode and the three operands |
| Day16.RunAppend | day16/src/main.rs:173-176 | running two programs in a row is running their concatenation |
| Day16.RunDependsOnUsedCodes | day16/src/main.rs:164-176 | two mappings that agree on every opcode number the program uses run it alike |
| Day16.Run | day16/src/main.rs:173-178 | the reference run of the program under a mapping: the registers keep their count, None on a panic; see `Day16.RunAppend` and `Day16.RunProgram` |
| Day16.RunProgram | day16/src/main.rs:173-178 | the `for` loop from registers `[0, 0, 0, 0]` returns register 0 of the reference run, or None on a panic |
| Day16.Part2 | day16/src/main.rs:109-179 | `part2` is candidates, elimination and the run, as the reference does |
| Day16.Part2UsesTruth | day16/src/main.rs:109-179 | when the samples agree with an injective assignment and the program uses only sampled numbers, `part2` answers what the program gives under the true assignment |
| Wrappers.Collect | day4/src/main.rs:116-118 | collecting into a `Result` gives every value in order, or None when any is missing |
| Sorting.LexLessIsStrictOrder | day13/src/main.rs:158-161 | the comparison of `(y, x)` keys (Rust's tuple order) is irreflexive, asymmetric, transitive and total |
| Sorting.SortBy | day13/src/main.rs:158-161 | `sort_by_key` returns its input permuted (same multiset, same length) with no element after one of smaller key |
| Sorting.FirstLeast | day15/src/main.rs:249-250 | the index of the first element whose key no element undercuts; every earlier element has a strictly larger key |
| Sorting.SortByHead | day15/src/main.rs:249-250 | the sort is stable at the head: its first element is the first element of least key |
| Sorting.SortBySorted | day13/src/main.rs:158-161 | input already in key order is returned unchanged, so sorting is idempotent |
| Sorting.SortByStable | day4/src/main.rs:120 | the sort is stable: for every key, the elements with that key come out in the order they went in |
| Sorting.CountKeyPerm | day6/src/main.rs:46-50 | how many elements carry a key does not change when the list is permuted, so sorting keeps every count |
| Sorting.SortByTie | day6/src/main.rs:46-53 | the first two elements of the sorted list share a key exactly when some other element shares the least key with the first element of least key |
| Maxima.LastMax | day4/src/main.rs:71 | the index of the last element with the greatest key |

## Left out

- Day01.Part2: the unbounded `.cycle()` scan is cut off by a `fuel` bound; `i32` overflow is not modelled (integers are unbounded).
- Day02: reading the file is not modelled; the model starts from its lines.
- Day02: the `i32` counts and their product in part 1 are unbounded integers.
- Day02: part 2's `unwrap` on no answering pair panics; the model answers None.
- Day03: `main`'s reading and `collect` of the parsed lines is not modelled; the model starts from the parsed claims (`ParseClaim` models one line).
- Day03: the `u16` sums `x + width` and `y + height` are unbounded; an overflowing claim would panic in a debug build, and puzzle inputs stay far inside the range.
- Day03.Part2: the source takes the first id of a `HashSet` difference in hash order; the model takes the least one, so it states only that the answer is an intact id. Part 2's `unwrap` on an empty difference gives None.
- Day04: reading the file is not modelled; `ParseAll` starts from its lines.
- Day04: a missing word or field (`unwrap`), a failed `parse`, an unknown action word (`unimplemented!`), a reversed interval (`u16` subtraction underflow) and an empty map (`unwrap` of `max_by_key`) each stop the program; the model answers None for each.
- Day04: the in-place `sort_by_key` is modelled as the stable sort `Sorting.SortBy` of the event list; `sort_by_key` is stable too, so the two agree.
- Day04: the `HashMap`s are walked in an order of the model's choosing (guards by first interval, pairs minute by minute) where Rust walks them in hash order; among equal maxima the pick may differ, so the lemmas state only that the pick is a maximiser.
- Day04: the per-guard `u16` sum of minutes asleep is unbounded; puzzle inputs stay far inside the range.
- Day05: reading and trimming the file is not modelled; the model starts from the trimmed characters.
- Day05.FullyReact: the `LinkedList` with its `split_off`, `pop_front` and `append` is a sequence cut around the reacting pair.
- Day06: reading the file and printing are not modelled; `main`'s two calls are the two functions `Part1` and `Part2` on the parsed points.
- Day06: `distance` and the sum of part 2 are taken over unbounded integers; `isize` overflow, possible only for coordinates near the ends of the 64-bit range, is not modelled.
- Day06: a line without a comma (`unwrap`), fewer than two points (`closest[1]`) and no owner away from the edge (`max_by_key(...).unwrap()`) stop the program; the model answers None for each.
- Day06: the `HashMap` of cells and the `HashSet` of edge owners are modelled as the grid sequence and a set; part 1's answer is a count, which does not depend on which largest area `max_by_key` meets last.
- Day06.Part2Means: as the source does, only cells inside the bounding box are counted; the cells of the region outside the box, if any, are not.
- Day07: reading the file and printing are not modelled; `Solve` starts from the lines.
- Day07: a line with fewer than eight words (`unwrap`) and a step below `@` (`usize` underflow in `completion_time`) stop the program; the model answers None for each.
- Day07.Part2: the unbounded `for t in 0..` takes a `fuel` bound and answers None when no second within it completes every step (as written it never ends when the steps form a cycle).
- Day07: the `HashMap`s and `HashSet`s are sets and maps; only `min` of a set is taken from them, so their hash order does not matter.
- Day08: reading the file, the whitespace split and the `parse` of each number are not modelled; the model starts from the numbers.
- Day08: the `i - 1` of `value` on a metadata entry 0 underflows and panics in a debug build; the model answers None. The `usize` sums are unbounded.
- Day08: the `Parser` wraps an iterator; the model keeps the token sequence and a position in its place.
- Day09: `main`'s regex parsing of the player count and the last marble (day9/src/main.rs:49-59) is not modelled.
- Day09: the `LinkedList` circle is a sequence with the current marble at the front; `split_off`, `pop_front` and `append` become slices.
- Day09: with zero players `(1..=players).cycle()` is empty, so the zip ends at once and no marble is played; the model answers None for the high score, where the `unwrap` panics.
- Day09: the `usize` scores and `last * 100` are unbounded.
- Day10: the regex parser `from_str` (day10/src/main.rs:12-55) is a foreign library and is not modelled; the model starts from the parsed particles. `draw` only prints and is not modelled; `Message` returns the particles it would draw.
- Day10: `isize` is taken to be 64 bits wide; an overflowing addition or subtraction panics in a debug build, and the model answers None (so an empty input, whose width `MIN - MAX` overflows, answers None).
- Day10.Message: the unbounded `for t in 0..` takes a `fuel` bound and answers None when the box does not grow within it.
- Day11: `isize` is unbounded; the power levels and sums of a 300 x 300 grid stay far inside the 64-bit range.
- Day11.Part1: the `HashMap`'s key order is a parameter `keys`; among squares with an equal greatest sum the pick depends on it, so the lemmas state only that the pick is a maximiser.
- Day11: printing the answers is not modelled; `Part1` answers the corner and `Part2` the corner and side.
- Day12: reading the file is not modelled; `ParseInput` starts from its lines.
- Day12.Part2: the unbounded `(1..)` takes a generation `limit` and answers None when no generation up to it has the growth of the one before.
- Day12: an empty state makes `min().unwrap()` panic; the model's `Calculate` answers None. `isize` sums are unbounded.
- Day13: a cart off the track map (`grid[&cart.position]`) and a step off the top or left edge (`usize` underflow) panic; the model answers None for both.
- Day13.Part1, Day13.Part2: the unbounded `loop` takes a `fuel` bound on ticks and answers None when it runs out; printing the answer is not modelled.
- Day13: `main` reading the file is not modelled; `ParseLines` starts from its lines.
- Day14: printing is not modelled; `Part1` returns the ten digits and `Part2` the count of recipes before the pattern.
- Day14.Part2: the unbounded `loop` takes a board-size `limit` and answers None when the board reaches it first; `Part2Input` relies on the puzzle's digits being absent from the starting board `37`.
- Day14: `usize` positions and lengths are unbounded.
- Day15: reading the map (`main`) and the `Display` impls with the `endx`/`endy` fields they use are not modelled; the model starts from the wall map and the roster.
- Day15: the `BinaryHeap` is a set of `(distance, point)` entries popped at a minimum; ties cannot occur because a point enters the heap once.
- Day15: a lookup `self.grid[p]` that would panic on a missing key is excluded by the precondition `Walled` (every neighbour of open floor is on the map, as in a parsed puzzle); `ValidRoster` (living units on distinct open cells) is required of the starting roster and proved to be kept.
- Day15: `i16` hit points and attack powers are unbounded integers; the battles of puzzle inputs stay far inside the range.
- Day15Combat.Part1: the unbounded `for t in 0..` takes a `fuel` bound and answers None when no round within it ends the battle.
- Day15Combat.Part2: the unbounded `for attack in 4..` takes an `attackFuel` bound and each battle a `roundFuel` bound; when a battle runs out of rounds the model answers None.
- Day16: `main`'s regex parsing of the samples and of the program (day16/src/main.rs:181-244) is not modelled; the model starts from the parsed samples and program lines.
- Day16: a register index out of range, a short program line or an unmapped opcode number panics; so does a `usize` overflow of add or mul in a debug build. The model answers None for each.
- Day16.Eliminate: the unbounded `loop` takes a `fuel` bound on passes and answers None when it runs out (as written it never ends when a pass assigns nothing).
- Day16: the `u8` opcode numbers and the program's `u8` entries are unbounded naturals, and `as usize` is the identity on them.
- Day16.Assign: the filter walks `ALL_OPCODES` in order where the source walks the candidate `HashSet` in hash order; the two agree whenever exactly one opcode is left, the only case that is used.

## Findings

| source | as written | input that shows it | evidently intended | confidence | as-written member | corrected member |
|---|---|---|---|---|---|---|
| day1/src/main.rs:21-31 | `seen` starts empty, so the starting frequency 0 never counts as seen | changes `+1, -1`: totals 1, 0, 1, so the code answers 1 | the first frequency reached twice, counting the start (answer 0) | not executed; high | Day01.Part2 (with Day01.StartNotRecorded) | Day01.Part2FromStart |
| day12/src/main.rs:6-8 | the next generation is computed only for pots `min - 1 ..= max + 1` | rules `....# => #`, a single plant at pot 0: the plant that grows at pot -2 is never computed | compute pots `min - 2 ..= max + 2`, the farthest a window of five reaches a plant | not executed; medium (puzzle inputs map `.....` and the edge windows to `.`, where the two agree) | Day12.Calculate (with Day12.NarrowMissesPlant) | Day12.CalculateFull (with Day12.CalculateFullIsStep and Day12.CalculateAgrees) |
| day13/src/main.rs:193-211 | a crashed cart is only flagged and removed after the tick, so later in the same tick it still moves and can be hit again | four carts on a straight row at columns 0, 1 (both heading right), 3 (heading left) and 10 (heading right): two collisions flag three carts and the last is reported after one tick | a crashed cart leaves the track at once, so carts vanish in pairs and two carts are still running | not executed; medium | Day13.Part2 (with Day13.FlaggedCartsKeepMoving) | Day13.FixedLastCart (with Day13.FixedLastCartNeedsOdd) |
