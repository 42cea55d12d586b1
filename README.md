# Advent of Code 2024 solvers, modelled in Dafny

This project models fourteen independent Rust puzzle solvers (days 1 to 13
and 17 of Advent of Code 2024). Each solver reads a text input and computes
one or two summary numbers. The model keeps their logic and leaves out the
file reading, the command line, printing and threads. Every input is an
in-memory sequence of lines.

Shared modules:

- `Text` (`text.dfy`) holds the Rust standard-library behaviour the solvers
  lean on: `split`, `trim`, `parse` for `i32`/`i64`/`u32`/`u64`, the
  blank-line block splitter that days 5 and 13 share, and character grids.
- `Ints` (`ints.dfy`) holds Rust's fixed-width integer semantics: casts
  between `i64`, `u64`, `u32` and `usize`, division and remainder rounded
  toward zero, and `^` on `i64`.

One module per day, `Day1` to `Day13` and `Day17` (`day01.dfy` to
`day17.dfy`):

- Loops that update variables are `method`s. Each is proved against a pure
  function that states what the loop computes.
- The day 17 machine is a `class CPU` whose registers, program counter and
  output are fields that its instruction methods update.
- Where the source calls `unwrap` on a value that may be missing, or indexes
  out of range, the model returns `None` (or `Crashed`, or `Fault`). The
  program would abort there.
- A few solvers only work on well-formed input. Day 2 needs reports of two
  levels. Day 6 needs a rectangular grid with a non-empty first row, and
  day 10 a rectangular grid. Day 8 needs rows at least as long as the grid
  is tall. The model states each of these as a precondition, and each is
  listed under "Left out". Day 4 accepts any grid. Its `usize` underflow
  and out-of-range panics are modelled as `None`.
- Loops that need not terminate (the day 6 patrol, the day 17 machine) take
  a `fuel` bound.
- Iteration over a `HashSet` or `HashMap` picks elements in an unspecified
  order. Every specification is order-independent.

## Model

| member | source | states |
|---|---|---|
| Day1.ParseLineSpec | day1/src/main.rs:22 | a line yields a pair iff it has at least two space-separated words and every word parses as `i32`; the pair is its first two numbers |
| Day1.ReadColumns | day1/src/main.rs:20-29 | the reading loop succeeds iff every line parses; the two columns then hold each line's first and second number, position by position |
| Day1.Insert | day1/src/main.rs:32-33 | insertion keeps the elements and adds one |
| Day1.InsertSorted | day1/src/main.rs:32-33 | inserting into an ascending sequence keeps it ascending |
| Day1.Sort | day1/src/main.rs:32-33 | `Vec::sort` gives an ascending permutation of the column |
| Day1.SortedUnique | day1/src/main.rs:32-33 | two ascending arrangements of the same multiset are equal, so the sorted column does not depend on input order |
| Day1.HeadIsLeast | day1/src/main.rs:32-33 | the head of an ascending sequence is at most any of its elements |
| Day1.DistanceSnoc | day1/src/main.rs:34-45 | one more pair adds its absolute difference to the distance |
| Day1.TotalDistance | day1/src/main.rs:32-46 | the distance loops return the sum of `abs(a_i - b_i)` over the sorted columns |
| Day1.DistanceNonNegative | day1/src/main.rs:34-45 | the total distance is never negative |
| Day1.DistanceSymmetric | day1/src/main.rs:35-40 | both branches compute the same absolute difference, so the columns can be swapped |
| Day1.DistanceZeroIff | day1/src/main.rs:34-45 | the distance is 0 iff the paired columns are equal |
| Day1.DistanceOrderIndependent | day1/src/main.rs:32-46 | the answer depends only on the multisets of the two columns, not on the line order |
| Day1.DistanceColumnSwap | day1/src/main.rs:32-46 | swapping the columns of the input leaves the distance unchanged |
| Day1.SimilaritySnoc | day1/src/main.rs:51-58 | one more left id adds itself times its count on the right |
| Day1.CountOf | day1/src/main.rs:52 | the filter-count loop returns the number of occurrences of the id in the right column |
| Day1.TotalSimilarity | day1/src/main.rs:51-58 | the similarity loops return the sum over left ids of id times its count on the right |
| Day1.ScoreStep | day1/src/main.rs:56-58 | adding one `Similarity` score extends the running total by one left id |
| Day1.SimilaritySorted | day1/src/main.rs:32-33 | the similarity computed on the sorted columns equals the one on the columns as read |
| Day1.SimilarityAppend | day1/src/main.rs:51-58 | the similarity is additive over the left column |
| Day1.SimilarityPermutation | day1/src/main.rs:51-58 | reordering the left column leaves the similarity unchanged |
| Day1.SimilarityRightOrder | day1/src/main.rs:52 | the right column matters only through its counts |
| Day1.SimilarityAbsent | day1/src/main.rs:52-57 | a left id absent from the right column contributes 0 |
| Day2.ReportsLines | day2/src/main.rs:13-20 | the input is read iff every line's words parse as `i32`; report `x` is then line `x`'s numbers |
| Day2.ReadReports | day2/src/main.rs:13-20 | the reading loop builds exactly those reports |
| Day2.CheckReport | day2/src/main.rs:26-53 | a report of at least two levels is safe iff every step rises by 1 to 3 or every step falls by 1 to 3; the failing count is at most 1 and is 0 iff the report is safe |
| Day2.DirectionDecides | day2/src/main.rs:27-41 | judging each step by the direction of the first step is the same as requiring one direction throughout |
| Day2.EqualStartUnsafe | day2/src/main.rs:27 | equal first levels count as falling, and such a report is never safe |
| Day2.SafeCount | day2/src/main.rs:22-58 | the number of safe reports is at most the number of reports |
| Day2.CountSafeReports | day2/src/main.rs:22-58 | the outer loop counts the reports the inner check calls safe, at most one per report |
| Day2.SafeCountAppend | day2/src/main.rs:55-57 | appending a report adds one to the count exactly when it is safe |
| Day3.GetMultiplications | day3/src/main.rs:50-69 | the filter loop keeps the operands of exactly the `mul`s seen while the flag is on, in order; it fails iff a kept operand does not parse as `i32` |
| Day3.EnabledPrefix | day3/src/main.rs:50-69 | whether `mul` is on before a match depends only on the matches before it |
| Day3.KeptArgsSnoc | day3/src/main.rs:52-60 | one more match adds its operands iff it is a `mul` and the flag is on |
| Day3.KeptArgsPrefix | day3/src/main.rs:51-60 | what a prefix of the matches keeps is a prefix of what all of them keep, so token order is preserved |
| Day3.EnabledIff | day3/src/main.rs:50-69 | `mul` is on before a match iff no `don't()` precedes it, or some `do()` does with no `don't()` after it |
| Day3.KeptAllWithoutConditionals | day3/src/main.rs:40-44 | with only `mul` matches, every `mul` is kept, in order |
| Day3.DontSilences | day3/src/main.rs:65-68 | after a `don't()` with no later `do()`, nothing more is kept |
| Day3.DisabledAfter | day3/src/main.rs:61-68 | a `don't()` with no `do()` after it switches `mul` off for every later match |
| Day3.ProductAppend | day3/src/main.rs:78-81 | the product of concatenated operand lists is the product of the products |
| Day3.ComputeMultiplications | day3/src/main.rs:75-86 | one product per multiplication, in order, each the product of its operands (1 for none) |
| Day3.SumAppend | day3/src/main.rs:88-94 | the sum of concatenated lists is the sum of the sums |
| Day3.ComputeSum | day3/src/main.rs:88-94 | the total is the sum of the products, 0 for none |
| Day4.SubUsize | day4/src/main.rs:100 | a `usize` subtraction yields the difference exactly when it does not underflow |
| Day4.BelowDiff | day4/src/main.rs:114 | a guard `v < a - 3` underflows exactly when `a < 3`, and otherwise holds iff `v + 3 < a` |
| Day4.FitsIffInGrid | day4/src/main.rs:91-151 | on a rectangular grid each direction's guard, when it does not underflow, holds exactly when the three cells beyond the start lie inside the grid |
| Day4.RectangularSearch | day4/src/main.rs:91-155 | on a rectangular grid a direction finds the word exactly where the three cells read `MAS`, and with at least three rows and columns it never panics |
| Day4.RaggedDiagonalMissed | day4/src/main.rs:142-150 | on the ragged grid `X..`, `.M..`, `..A.`, `...S` the diagonal reads `MAS` but the guard uses the `X`'s short row, so nothing is found and nothing panics |
| Day4.OneRowPanics | day4/src/main.rs:113-114 | a one-row grid with an `X` panics at the downward guard |
| Day4.WordSpells | day4/src/main.rs:153 | three characters read beyond the start come from cells of the grid and equal `MAS` exactly when those cells read `MAS` |
| Day4.FindWord | day4/src/main.rs:90-155 | one direction's search panics exactly when its guard underflows or a cell it then reads lies outside its row, and otherwise reports the word iff the guard holds and the cells read `MAS` |
| Day4.RectangularNeverCrashes | day4/src/main.rs:58-68 | a rectangular grid of at least three rows and columns never panics |
| Day4.HitsAmongBound | day4/src/main.rs:153-155 | each direction adds at most one |
| Day4.RowCountBound | day4/src/main.rs:61-65 | a row adds at most eight per `X` cell |
| Day4.GridCountBound | day4/src/main.rs:60-66 | the rows together add at most eight per `X` cell |
| Day4.XmasCountBound | day4/src/main.rs:58-68 | the count is at most 8 times the number of `X` cells |
| Day4.NoXNoCount | day4/src/main.rs:60-66 | a grid without `X` adds nothing |
| Day4.NoXRows | day4/src/main.rs:60-66 | a grid without `X` has no `X` cells in any prefix of its rows |
| Day4.NoXRow | day4/src/main.rs:61-62 | a row without `X` has no `X` cells in any prefix |
| Day4.WordSearch.constructor | day4/src/main.rs:14 | the shared counter starts at 0 |
| Day4.WordSearch.SearchDirections | day4/src/main.rs:70-160 | the search from an `X` panics iff one of its eight directions does; otherwise it adds to the counter the number of directions that find the word |
| Day4.WordSearch.GetXmasCount | day4/src/main.rs:58-68 | the search panics iff the search from some `X` cell does; otherwise the counter grows by the number of (`X` cell, direction) pairs finding the word, and the result is the counter, never reset between calls |
| Day5.ParseLines | day5/src/main.rs:42-67 | a block is read iff every line splits on the separator into pieces that parse as `i32`; item `x` is line `x`'s numbers |
| Day5.ParseBlock | day5/src/main.rs:42-67 | the reading loop over a block computes exactly that |
| Day5.GetOrderingRules | day5/src/main.rs:42-52 | the rules are the `|`-separated lines parsed |
| Day5.GetUpdates | day5/src/main.rs:54-67 | the updates are the `,`-separated lines parsed |
| Day5.ListRoundTrip | day5/src/main.rs:42-67 | writing in-range numbers with a non-digit separator and parsing gives them back, so `"a|b"` is `[a, b]` |
| Day5.Position | day5/src/main.rs:77-78 | `position` finds the first index holding the page, and `None` exactly when the page is absent |
| Day5.JudgeFromSpec | day5/src/main.rs:76-89 | the rule loop aborts iff the update is non-empty and the loop gets to a rule with fewer than two pages, and calls the update good iff it gets past every rule with the flag set by some applicable one |
| Day5.JudgeWellFormed | day5/src/main.rs:75-89 | when every rule has two pages the loop never aborts, and it calls an update good iff some rule has both pages in it and no such rule sees its left page first after its right page |
| Day5.ViolationEndsLoop | day5/src/main.rs:84-87 | once a rule is violated the update is rejected, whatever rules follow, short ones included; they are never read |
| Day5.IsUpdateGood | day5/src/main.rs:75-89 | the inner loop computes the verdict `Judge`, aborting exactly where the `position` closures would index a short rule, which they do only on a non-empty update |
| Day5.EmptyUpdateRejected | day5/src/main.rs:75-89 | an empty update is rejected and never aborts, short rules included, since the `position` closures never run |
| Day5.GetValidUpdates | day5/src/main.rs:69-98 | the outer loop keeps exactly the updates judged good, unchanged and in input order (an empty update is dropped), and aborts when some judgement does |
| Day5.KeptUpdatesFails | day5/src/main.rs:74-93 | the filter aborts iff the rule loop of some update aborts, that is, some non-empty update reaches a rule with fewer than two pages |
| Day5.KeptUpdatesWellFormed | day5/src/main.rs:74-93 | with two pages in every rule the filter never aborts |
| Day5.KeptUpdatesAppend | day5/src/main.rs:74-93 | filtering distributes over concatenation, which keeps input order |
| Day5.KeptUpdatesGood | day5/src/main.rs:90-92 | every kept update is one of the inputs, is judged good, and is non-empty |
| Day5.NoApplicableRuleRejected | day5/src/main.rs:75-81 | an update to which no rule applies is never judged good |
| Day5.GetMiddlePages | day5/src/main.rs:100-107 | one middle page per update, `update[len / 2]`, which is one of its pages |
| Day5.SumMiddlePages | day5/src/main.rs:24-27 | the summing loop adds up the middle pages |
| Day5.Solve | day5/src/main.rs:14-29 | `main` succeeds iff there are two blocks that parse and no non-empty update's rule loop gets to a rule with fewer than two pages; it then returns the middle-page sum of the kept updates |
| Text.LeadingSpace | day1/src/main.rs:22 | the count of leading whitespace characters, up to the first other one |
| Text.TrailingSpace | day1/src/main.rs:22 | the count of trailing whitespace characters, back to the last other one |
| Text.Trim | day1/src/main.rs:22 | `trim` is the slice between the leading and the trailing whitespace, and starts and ends with non-whitespace |
| Text.BlankAt | day5/src/main.rs:36 | a line is blank iff each of its characters is whitespace |
| Text.TrimEmptyIffBlank | day5/src/main.rs:36 | the test `trim().len() > 0` is exactly "the line is not blank" |
| Text.ToDecimal | day11/src/main.rs:71-88 | `to_string` of a non-negative number is a non-empty digit string without a leading zero |
| Text.DecimalValue | day11/src/main.rs:71-88 | the digits of `to_string` have the number's value |
| Text.ParseInt | day1/src/main.rs:22 | `parse::<i32>()` (and `i64`, `u32`, `u64`) succeeds only on a non-empty string, with a value inside the type's range |
| Text.ParseDecimal | day5/src/main.rs:42-67 | parsing the decimal rendering of an in-range number gives it back |
| Text.ParseRejectsNonDigit | day5/src/main.rs:47 | a string with a character that is neither a digit nor a leading sign never parses |
| Text.Split | day5/src/main.rs:46 | `split` always yields at least one piece |
| Text.SplitJoin | day5/src/main.rs:46 | joining the pieces of `split` with the separator rebuilds the string |
| Text.SplitNoSeparator | day5/src/main.rs:46 | a string without the separator splits into itself alone |
| Text.SplitFirst | day5/src/main.rs:46 | a first piece that cannot start the separator splits off first |
| Text.SplitJoinInverse | day5/src/main.rs:46 | splitting undoes joining when no piece holds the separator character |
| Text.SplitAvoidsSeparator | day5/src/main.rs:46 | no piece of a split on one character contains that character |
| Text.JoinAvoids | day5/src/main.rs:46 | joining pieces and a separator that avoid a character gives a string that avoids it |
| Text.DecimalsSplitJoin | day5/src/main.rs:56-60 | numbers written with a non-digit separator split back into their renderings |
| Text.ParseAllDecimals | day5/src/main.rs:56-60 | parsing the renderings of in-range numbers gives the numbers back |
| Text.NonEmpty | day2/src/main.rs:16 | `filter(!is_empty)` keeps only non-empty pieces, each one of the originals |
| Text.WordsAreSpaceFree | day2/src/main.rs:14-16 | the words of a line are non-empty and contain no space |
| Text.ParseAll | day2/src/main.rs:17-18 | mapping `parse().unwrap()` succeeds iff every token parses, and gives each token's value in order |
| Text.BlockLength | day5/src/main.rs:36 | `take_while` stops at the first blank line, or at the end |
| Text.NonBlankRun | day5/src/main.rs:33-38 | the non-blank lines start with any leading run of non-blank lines |
| Text.BlocksHaveNoBlank | day5/src/main.rs:32-40 | no block contains a blank line |
| Text.BlocksFlatten | day5/src/main.rs:32-40 | the blocks, concatenated, are exactly the non-blank lines in their original order |
| Text.BlocksStep | day5/src/main.rs:35-38 | a leading run of non-blank lines ended by a blank line or by the end of input is the first block |
| Text.TakeBlock | day5/src/main.rs:36 | `take_while` returns the run of non-blank lines from the current position and the position of the line that ended it |
| Text.BlocksAdvance | day5/src/main.rs:35-38 | seen from any position, splitting yields the next run and resumes after the blank line that ended it |
| Text.GetBlocks | day5/src/main.rs:32-40 | the splitter loop returns exactly `Blocks` of the lines |
| Text.CharGrid | day4/src/main.rs:41-44 | one row per line, holding that line's characters |
| Text.EachLineParses | day2/src/main.rs:13-20 | a reading loop succeeds iff every line parses, and item `x` is what line `x` parses to |
| Text.EachLineStep | day2/src/main.rs:13-20 | one more line read extends the result by that line's value, or fails |
| Text.EachLineStaysNone | day2/src/main.rs:17 | once a line fails, every longer input fails |
| Ints.AsI64 | day17/src/main.rs:179 | a `u64` read as `i64` is in range and agrees with it modulo 2^64 |
| Ints.AsU64 | day17/src/main.rs:190 | an `i64` read as `u64` (or `usize`) is below 2^64 and agrees with it modulo 2^64 |
| Ints.CastsRoundTrip | day17/src/main.rs:179 | the two casts undo each other |
| Ints.WrapI64 | day17/src/main.rs:138 | a wrapping `i64` result is in range and agrees with the mathematical value modulo 2^64 |
| Ints.AsU32 | day17/src/main.rs:174 | `as u32` keeps the low 32 bits |
| Ints.TDivTruncates | day13/src/main.rs:96-97 | Rust's `/` leaves a remainder smaller than the divisor, with the sign of the dividend |
| Ints.TDivExact | day13/src/main.rs:96-97 | an exact multiple divides back to the original quotient |
| Ints.TModRange | day17/src/main.rs:184 | Rust's `%` result has the sign of the dividend and lies strictly within the divisor; for a non-negative dividend it is the ordinary remainder |
| Ints.TDivShrinks | day17/src/main.rs:174 | dividing by a positive number never moves away from zero or changes sign |
| Ints.Pow2Add | day17/src/main.rs:174 | powers of two multiply by adding exponents |
| Ints.Pow2Of64 | day17/src/main.rs:179 | 2^64 is the `u64` modulus |
| Ints.XorBitsFit | day17/src/main.rs:179 | exclusive or of `n` bits has at most `n` bits |
| Ints.XorBitsInvolutive | day17/src/main.rs:179 | xor-ing the same bits twice restores the original |
| Ints.Xor | day17/src/main.rs:179 | `^` on `i64` gives an `i64` |
| Ints.XorInvolutive | day17/src/main.rs:179 | `(x ^ y) ^ y == x` |
| Ints.XorBitsBelow | day17/src/main.rs:179 | exclusive or stays below any power of two both operands are below |
| Ints.XorNonNegative | day17/src/main.rs:179 | exclusive or of non-negative `i64`s is non-negative |
| Day17.Opcode | day17/src/main.rs:50-59 | each instruction's discriminant is below 8 and decodes back to the instruction |
| Day17.Decode | day17/src/main.rs:61-76 | a value decodes iff it lies in 0..8 |
| Day17.DecodeOpcode | day17/src/main.rs:61-76 | a decoded value's discriminant is the value itself |
| Day17.Combo | day17/src/main.rs:216-224 | a combo operand resolves iff it is in 0..=6; the value is an `i64`, and non-negative when the registers are |
| Day17.DivideAShrinks | day17/src/main.rs:173-176 | a successful `a / 2.pow(combo)` divides by a power of two below 2^63, never moves away from zero, and stays in [0, a] for non-negative `a` |
| Day17.ExecuteTargets | day17/src/main.rs:173-214 | every instruction but `jnz` advances `pc` by 2; `jnz` jumps to its operand iff `a != 0`; each instruction changes only its own target register or extends the output by one value |
| Day17.OutputDigit | day17/src/main.rs:201-204 | `out` appends the combo operand modulo 8, in (-8, 8), and in [0, 7] when the registers are non-negative |
| Day17.ExecuteFits | day17/src/main.rs:173-214 | every instruction keeps the registers within `i64` |
| Day17.ExecuteNonNegative | day17/src/main.rs:173-214 | with non-negative registers and operands the registers stay non-negative (`bxl`/`bxc` by xor, `bst` by `%`, the divisions by shrinking) |
| Day17.StepFits | day17/src/main.rs:114-127 | one trip round the loop of `run` keeps the machine within its types |
| Day17.RunForStep | day17/src/main.rs:113-129 | while `pc < len - 1` a run is one step followed by the rest of the run; a panicking step crashes it |
| Day17.RunHalts | day17/src/main.rs:114 | a run halts exactly when `pc >= len - 1`, and it halts immediately when it starts there |
| Day17.RunOutputGrows | day17/src/main.rs:113-129 | a run only ever appends to the output |
| Day17.RunMoreFuel | day17/src/main.rs:113-129 | a halting run has the same result under any larger fuel bound |
| Day17.RunOutputsOctal | day17/src/main.rs:201-204 | a 3-bit program started from non-negative registers outputs only 3-bit values |
| Day17.SingleOutOctal | day17/src/main.rs:153-163 | the first output of `run_single_out` on a 3-bit program is a 3-bit value |
| Day17.Candidate | day17/src/main.rs:138 | `(curr << 3) + i` is an `i64`, equal to `8 * curr + i` for `curr` below 2^60 |
| Day17.ShiftRoom | day17/src/main.rs:138 | after the wrapping shift there is room to add `i < 8` without overflow |
| Day17.QuinesShape | day17/src/main.rs:134-148 | every candidate surviving round `j` is `(curr << 3) + i` for a survivor `curr` of the previous round and outputs `program[j]` first |
| Day17.QuinesStayNone | day17/src/main.rs:134-148 | a round that panics aborts the whole search |
| Day17.SetMin | day17/src/main.rs:150 | the minimum of a non-empty set is an element no greater than any other |
| Day17.SetHasMin | day17/src/main.rs:150 | every finite non-empty set of integers has a least element |
| Day17.QuineOf | day17/src/main.rs:131-151 | an answer exists only when every run succeeded and some candidate survived; it is a `usize` below 2^64 |
| Day17.QuineReproducesFirst | day17/src/main.rs:149-150 | the answer is the least surviving candidate read as a `usize`, and its single run outputs `program[0]` |
| Day17.MinOf | day17/src/main.rs:150 | the loop finds an element of the set no greater than any other |
| Day17.GainedAdd | day17/src/main.rs:136-146 | handling one more candidate adds exactly its surviving extensions to the round's result |
| Day17.NoFaultAdd | day17/src/main.rs:136-146 | a candidate none of whose eight runs panics keeps the round panic-free |
| Day17.CPU.constructor | day17/src/main.rs:79-111 | `startup` leaves the registers and program as read, `pc` at 0 and the output empty |
| Day17.CPU.Adv | day17/src/main.rs:173-176 | the method succeeds iff the instruction does not panic and then leaves exactly the state the `adv` step defines; on a panic nothing changes |
| Day17.CPU.Bxl | day17/src/main.rs:178-181 | the new state is the `bxl` step of the old |
| Day17.CPU.Bst | day17/src/main.rs:183-186 | it succeeds iff the combo operand resolves, and the new state is the `bst` step of the old |
| Day17.CPU.Jnz | day17/src/main.rs:188-194 | the new state is the `jnz` step of the old |
| Day17.CPU.Bxc | day17/src/main.rs:196-199 | the new state is the `bxc` step of the old |
| Day17.CPU.Out | day17/src/main.rs:201-204 | it succeeds iff the combo operand resolves, and the new state is the `out` step of the old |
| Day17.CPU.Bdv | day17/src/main.rs:206-209 | it succeeds iff the division is defined, and the new state is the `bdv` step of the old |
| Day17.CPU.Cdv | day17/src/main.rs:211-214 | it succeeds iff the division is defined, and the new state is the `cdv` step of the old |
| Day17.CPU.Dispatch | day17/src/main.rs:116-127 | dispatching the opcode at `pc` succeeds iff the step is defined and leaves exactly that step's state |
| Day17.CPU.Run | day17/src/main.rs:113-129 | the loop's result is the specified run from the starting state, and a halted run leaves the object in the halting state |
| Day17.CPU.RunSingleOut | day17/src/main.rs:153-163 | the method returns the specified first output of a run from `a = initial_a`, `b = c = 0` |
| Day17.CPU.Extend | day17/src/main.rs:137-145 | the inner loop succeeds iff none of the eight runs panics and then yields exactly the candidates whose first output is the instruction |
| Day17.CPU.Round | day17/src/main.rs:135-147 | one pass over the candidate set yields the specified next set of survivors, or a panic |
| Day17.CPU.FindQuine | day17/src/main.rs:131-151 | the method returns the specified answer: the least final survivor as a `usize` |
| Day6.FromUsize | day6/src/main.rs:212-220 | `from_usize` succeeds iff the value is below the variant count, and yields the variant with that index |
| Day6.TurnCycle | day6/src/main.rs:111-112 | a right turn goes Up, Right, Down, Left; four turns come back and no turn is a no-op |
| Day6.AdjacentEdges | day6/src/main.rs:157-176 | Up is listed iff the row is 0, Down iff it is the last, Left iff the column is 0, Right iff it is the last of the first row |
| Day6.CanExitIsAdjacentEdge | day6/src/main.rs:139-155 | the exit test is membership of the facing direction among the adjacent edges |
| Day6.CanExitIff | day6/src/main.rs:139-155 | the guard can leave iff the step ahead leaves the grid |
| Day6.AheadInGrid | day6/src/main.rs:178-189 | when the guard cannot leave, the cell ahead is in the grid, so `move_direction` does not underflow and the lookup does not go out of bounds |
| Day6.CornersSuspicious | day6/src/main.rs:120-127 | the `0..=3` comparison loop reports suspicion iff the record has an even length above 4 and one of its first four corners differs from the one `len/2 - 1` later |
| Day6.Step | day6/src/main.rs:101-131 | the loop body continues on a cell of the grid, or finishes with a loop or with the visited cells including the current one |
| Day6.StartInRowSpec | day6/src/main.rs:193-197 | the inner scan finds the first `^` of the row, and finds none iff the row has none |
| Day6.StartSpec | day6/src/main.rs:191-200 | the scan finds the first `^` in row-major order, and none iff the grid has none |
| Day6.StartInGrid | day6/src/main.rs:191-200 | a found start is a `^` cell of the grid |
| Day6.GetStartingPosition | day6/src/main.rs:191-200 | the nested loops return exactly the first `^` in row-major order |
| Day6.StartInAfterRow | day6/src/main.rs:192-197 | once a `^` is found, later rows do not change the answer |
| Day6.StartInRowFound | day6/src/main.rs:193-196 | the first `^` of a row is the row scan's answer for any longer prefix |
| Day6.Advance | day6/src/main.rs:102-131 | the loop body computes exactly the specified step |
| Day6.TraverseMap | day6/src/main.rs:86-137 | the traversal returns the specified outcome: no start, a loop, or the visited set on exit |
| Day6.StepGood | day6/src/main.rs:101-131 | a step keeps the guard on a free cell of the grid and only adds to the visited set |
| Day6.WalkSound | day6/src/main.rs:101-137 | every cell a finished walk records is in the grid and not `#`, and the cells recorded before are kept |
| Day6.TraverseSound | day6/src/main.rs:86-137 | every recorded cell is in the grid and not `#`; the set is empty when the guard can leave from the start, and holds the start otherwise |
| Day6.StepExtends | day6/src/main.rs:113-126 | the corner record only grows, and a step that reports a loop left it in the suspicious shape |
| Day6.WalkLoopedOnlyOnSuspicion | day6/src/main.rs:120-126 | a walk reports a loop only when its corner record, an extension of the starting one, has the suspicious shape |
| Day6.PlaceObstacle | day6/src/main.rs:63-69 | the copy of the grid has its shape and differs only in the chosen cell, which holds `#` |
| Day6.PlaceObstacleKeepsStart | day6/src/main.rs:63-69 | overwriting a cell other than `^` leaves the start where it was |
| Day6.CountLoopingObstacles | day6/src/main.rs:56-84 | the nested loops count exactly the trial cells, visited and not `^`, whose walk reports a loop |
| Day6.NoVisitedNoObstacles | day6/src/main.rs:64-68 | with no visited cells no trial runs, so the count is 0 |
| Day6.NoVisitedRow | day6/src/main.rs:62-68 | with no visited cells, no trial in a row is counted |
| Day6.StartNeverTried | day6/src/main.rs:64 | the start cell never gets an obstacle |
| Day7.OperationsLines | day7/src/main.rs:125-138 | the input reads iff every line parses, one operation per line, each what its line reads as |
| Day7.GetOperations | day7/src/main.rs:125-138 | the reading loop yields exactly the operations of the lines, or aborts |
| Day7.ParseOperationRoundTrip | day7/src/main.rs:128-134 | a line written as `total: a b c` reads back as that total and those operands |
| Day7.ParsedOperandsNonEmpty | day7/src/main.rs:130-133 | a line that parses has at least one operand |
| Day7.AbsorbWord | day7/src/main.rs:109-112 | a token that is not a `u32` becomes the current operator |
| Day7.AbsorbNumber | day7/src/main.rs:114-120 | a number is added under `+`, multiplied under `*`, ignored otherwise, and aborts on `u32` overflow |
| Day7.OperatorTokens | day7/src/main.rs:109-120 | an operator token changes only the operator; under any other operator a number leaves the result alone |
| Day7.EvalStopsAtOverflow | day7/src/main.rs:114-117 | once the arithmetic overflows, the evaluation aborts whatever follows |
| Day7.EvalSnoc | day7/src/main.rs:107-121 | the state after one more token is that token absorbed into the state before it |
| Day7.EvaluateMathExpression | day7/src/main.rs:103-123 | the loop over the tokens computes exactly the specified value of the expression |
| Day7.EvalTokensFold | day7/src/main.rs:103-123 | the tokens of `n0 op1 n1 ...` evaluate iff the strict left fold stays within `u32`, and then to that fold |
| Day7.EvaluateWrittenExpression | day7/src/main.rs:103-123 | an expression written out with `+` and `*` evaluates to the left fold of its terms, with no precedence |
| Day7.NoPrecedence | day7/src/main.rs:103-123 | `2 + 3 * 4` evaluates to 20 |
| Day7.ChildrenBlock | day7/src/main.rs:92-100 | the two recursive calls of a node append the alternating `+*` block one level taller |
| Day7.AlternatingTwice | day7/src/main.rs:92-100 | two alternating blocks in a row make the next taller one |
| Day7.OperatorsForOperand | day7/src/main.rs:77-101 | at the target depth the operator is pushed; above it a root first pops, then the `2^(target - depth)` operators alternating `+`, `*` are appended |
| Day7.GenerateTestExpressions | day7/src/main.rs:57-75 | no expressions are returned; the operator vector built is `r` for one operand, and otherwise the alternating block of height `n - 1` (within `u32`) |
| Day7.MatchExpressions | day7/src/main.rs:47-52 | the inner loop pushes the operation once per expression that evaluates to its total |
| Day7.MatchingStopsAtOverflow | day7/src/main.rs:47-52 | an overflowing evaluation aborts the whole pass |
| Day7.MatchingCopies | day7/src/main.rs:47-52 | every pushed entry is the operation itself, at most once per expression |
| Day7.GetValidOperations | day7/src/main.rs:43-55 | as no expressions are generated, no operation is kept |
| Day7.TotalCalibrationResult | day7/src/main.rs:35-41 | the loop computes the sum of the totals |
| Day7.Solve | day7/src/main.rs:19-33 | the program produces an answer iff every line parses, and the answer is then 0 |
| Day8.AntinodePair | day8/src/main.rs:87-121 | whichever sign each delta has, the first point lies beyond tower `i` at `2 t_i - t_j`, and the second beyond `j` at `2 t_j - t_i` |
| Day8.GetAntinodesForFreq | day8/src/main.rs:83-127 | the double loop yields both points of every pair `i < j`, in order |
| Day8.PairsUpToLength | day8/src/main.rs:85-86 | the pairs of the first `m` towers contribute `m (2n - m - 1)` points |
| Day8.AntinodesLength | day8/src/main.rs:83-127 | `n` towers give `n (n - 1)` candidate points, none for a lone tower |
| Day8.PairsUpToMembers | day8/src/main.rs:85-123 | a point is among the candidates of the first `m` towers iff some pair `i < j` with `i < m` casts it |
| Day8.AntinodesMembers | day8/src/main.rs:83-127 | a point is a candidate iff it is `2 t_i - t_j` for two different positions `i`, `j` of the tower list |
| Day8.GetAllTowerLocations | day8/src/main.rs:141-154 | the row-major scan returns the specified tower list |
| Day8.TowersSpec | day8/src/main.rs:141-154 | the towers of a frequency are exactly its cells, each once, in row-major order |
| Day8.GetAllUniqueFrequencies | day8/src/main.rs:129-139 | the loops collect the specified set of frequencies |
| Day8.FrequenciesSpec | day8/src/main.rs:129-139 | a frequency is a character other than `.` in the first `len` rows within the first `len` columns |
| Day8.WideGridMissesColumns | day8/src/main.rs:132 | a character right of column `len - 1` is not collected: `.a` yields no frequency |
| Day8.KeepInBounds | day8/src/main.rs:64-70 | the filter keeps exactly the candidates inside `[0, len) x [0, len of row 0)` |
| Day8.UnionAdd | day8/src/main.rs:55-77 | handling one more frequency adds exactly its in-bounds antinodes |
| Day8.GetUniqueAntinodes | day8/src/main.rs:50-81 | the loop over the frequencies, in any order, builds the specified union of in-bounds antinodes |
| Day8.ContributionSpec | day8/src/main.rs:55-77 | the candidates of a frequency are `2p - q` for two different cells `p`, `q` holding it |
| Day8.TowerPair | day8/src/main.rs:141-154 | two positions of the tower list are two different cells of the frequency |
| Day8.UniqueAntinodesSpec | day8/src/main.rs:50-81 | on a square map, a point is counted iff it is in bounds and is `2p - q` for two different cells of one frequency |
| Day8.Solve | day8/src/main.rs:23-36 | the answer is the number of distinct antinodes of the map read from the lines |
| Day9.Repeat | day9/src/main.rs:44-53 | `n` copies of one cell |
| Day9.ExpandLine | day9/src/main.rs:40-57 | a line expands iff every character is a digit, into even digits' file ids and odd digits' free cells |
| Day9.GenerateLayouts | day9/src/main.rs:35-62 | the input expands iff every line is all digits, one layout per line, file ids restarting at 0 on each line |
| Day9.ExpansionLength | day9/src/main.rs:41-55 | a layout is as long as its digits add up to |
| Day9.ExpansionOrdered | day9/src/main.rs:43-49 | file ids are bounded by the number of even positions and read non-decreasing from left to right |
| Day9.FirstFreeChunk | day9/src/main.rs:124-145 | the scan returns the indices of the leftmost run of `size` free cells, nothing iff no such run exists, and nothing for size 0 |
| Day9.FirstFree | day9/src/main.rs:73 | `position` finds the leftmost free cell, and nothing iff there is none |
| Day9.SwapPreserves | day9/src/main.rs:78 | a swap permutes the cells |
| Day9.FragmentFromSpec | day9/src/main.rs:69-80 | from any state the loop admits, the scan aborts iff cells remain and the copy has no free cell, and otherwise ends in a compacted permutation of the layout |
| Day9.FragmentedSpec | day9/src/main.rs:67-81 | block-by-block compaction aborts iff a non-empty layout has no free cell; otherwise it permutes the cells and no file cell follows a free one |
| Day9.FragmentedKeepsPrefix | day9/src/main.rs:73-79 | the file cells before the first free cell are never moved |
| Day9.Fragment | day9/src/main.rs:67-81 | the loop computes `Fragmented`: from the right, each cell that held a file in the original layout is swapped with the leftmost free cell of the copy, the scan stopping once that cell is at or past it; hence the abort condition, the permutation and the compaction |
| Day9.FragmentDone | day9/src/main.rs:74-76 | the early exit happens only on a compacted layout |
| Day9.FragmentSwap | day9/src/main.rs:77-79 | swapping a file cell into the leftmost free cell keeps the loop invariant |
| Day9.FragmentSkip | day9/src/main.rs:71-79 | passing over a free cell keeps the loop invariant |
| Day9.GenerateFragmented | day9/src/main.rs:64-85 | every layout is `Fragmented`, a compacted permutation of it, or the whole pass aborts iff some non-empty layout has no free cell |
| Day9.MaxFileId | day9/src/main.rs:147-155 | the bound is at least every cell, and is 0 or a cell of the layout |
| Day9.GetMaxFileId | day9/src/main.rs:147-155 | the loop returns that bound |
| Day9.Occurrences | day9/src/main.rs:97-101 | the indices holding the id, every one of them, ascending |
| Day9.Relocated | day9/src/main.rs:114-116 | relocating keeps the layout's length |
| Day9.LeftmostRunUnique | day9/src/main.rs:124-145 | the leftmost free run of a length is unique |
| Day9.MoveFile | day9/src/main.rs:97-116 | one pass permutes the cells and is the specified move: when the file can move, it lands wholly in the leftmost free run of its length, left of its old cells, which become free; otherwise nothing changes |
| Day9.SwapFile | day9/src/main.rs:114-116 | the swaps `file[j] <-> freespace[j]` permute the cells and relocate the file |
| Day9.SwapStep | day9/src/main.rs:115 | one swap extends the relocated prefix |
| Day9.SwappedIsRelocated | day9/src/main.rs:114-116 | after all swaps the layout is the relocated one |
| Day9.MovedBelowStep | day9/src/main.rs:96 | the passes from file `i` down are the pass for `i` followed by the rest |
| Day9.CompactContiguous | day9/src/main.rs:93-118 | the loop over the file ids from the largest down applies exactly the specified passes and permutes the cells |
| Day9.GenerateContiguous | day9/src/main.rs:87-122 | every layout is compacted file by file, as a permutation of its cells |
| Day9.Checksum | day9/src/main.rs:177-184 | the loop computes the sum of `i * id` over the file cells |
| Day9.CalculateChecksums | day9/src/main.rs:174-189 | one checksum per layout |
| Day9.AllFreeChecksum | day9/src/main.rs:179-181 | an all-free layout scores 0 |
| Day9.FreeTailChecksum | day9/src/main.rs:179-181 | free cells at the end do not change the checksum |
| Day9.Solve | day9/src/main.rs:14-33 | the program produces checksums iff every line is all digits, one per line, each that of the line's layout compacted file by file |
| Day10.LinkSpec | day10/src/main.rs:185-206 | a link exists iff the neighbour in that direction is on the map, and then points to it |
| Day10.Climb | day10/src/main.rs:85-107 | a climb goes to a cell of the map exactly one higher |
| Day10.RowHeights | day10/src/main.rs:172-175 | each cell of an all-digit line holds that line's digit |
| Day10.Heights | day10/src/main.rs:164-182 | the map of an all-digit input has one row per line, each the line's digits |
| Day10.ReadHeights | day10/src/main.rs:161-182 | the map reads iff every character is a digit, and is then exactly the digits of the input |
| Day10.GenerateNodes | day10/src/main.rs:161-212 | the two passes give every cell a node with its height and its four links |
| Day10.Reach | day10/src/main.rs:112-159 | the reach of a cell contains it and lies on the map |
| Day10.HeightWeight | day10/src/main.rs:75-109 | the termination weight of a height is positive |
| Day10.ClimbWeight | day10/src/main.rs:86 | one climb weighs a fifth of the cell it leaves |
| Day10.PushClimb | day10/src/main.rs:85-90 | one `if let` pushes the climb in its direction, if any, to the front |
| Day10.ExpandedMembers | day10/src/main.rs:84-108 | an expansion keeps the queue and adds exactly the climbs out of the cell |
| Day10.PushFront | day10/src/main.rs:88 | pushing a cell adds its trails and its weight |
| Day10.PopFront | day10/src/main.rs:75 | popping the head removes its trails and its weight |
| Day10.ClimbPushed | day10/src/main.rs:85-107 | one push adds the trails through that climb and at most a fifth of the cell's weight |
| Day10.ExpandPaths | day10/src/main.rs:84-108 | expanding a cell below the target replaces its trails by those of its climbs and lowers the weight |
| Day10.AllPathsScore | day10/src/main.rs:69-111 | the worklist loop terminates and counts exactly the trails from the trailhead |
| Day10.ReachWithin | day10/src/main.rs:119-157 | a set closed under climbing holds the reach of each of its cells |
| Day10.ReachClosed | day10/src/main.rs:132-156 | climbing from a reached cell below the target stays in the reach |
| Day10.ReachClosedAll | day10/src/main.rs:132-156 | the reach is closed under climbing |
| Day10.ClosedDrop | day10/src/main.rs:120-122 | dropping an already visited head keeps the visited set closed |
| Day10.ClosedAddTarget | day10/src/main.rs:125-130 | visiting a target cell keeps the visited set closed |
| Day10.ClosedExpand | day10/src/main.rs:125-156 | visiting and expanding any other cell keeps the visited set closed |
| Day10.ExpandWithin | day10/src/main.rs:132-156 | expanding a cell of the reach queues only cells of the reach |
| Day10.VisitShrinks | day10/src/main.rs:125 | visiting a new cell leaves fewer unvisited cells |
| Day10.SearchDrop | day10/src/main.rs:120-122 | skipping a visited head keeps the traversal invariant |
| Day10.SearchTarget | day10/src/main.rs:125-130 | counting a new target keeps the traversal invariant |
| Day10.TargetCounted | day10/src/main.rs:127-129 | a new target cell adds one to the targets visited |
| Day10.SearchExpand | day10/src/main.rs:125-156 | expanding a new cell keeps the traversal invariant |
| Day10.UniqueScore | day10/src/main.rs:112-159 | the traversal with a visited set terminates and counts exactly the distinct target cells reachable from the trailhead |
| Day10.TargetStartScoresOne | day10/src/main.rs:77-80 | a trailhead already at the target scores 1 both ways (the same check is at lines 127-130) |
| Day10.UniqueAtMostPaths | day10/src/main.rs:69-159 | the distinct destinations never outnumber the trails |
| Day10.ClimbAtMostPaths | day10/src/main.rs:69-159 | the same bound through one climb |
| Day10.UniqueAtMostTargets | day10/src/main.rs:112-159 | the distinct destinations are at most all target cells of the map |
| Day10.ReachHeights | day10/src/main.rs:134-154 | from a cell no higher than the target, every reached cell lies between the two heights |
| Day10.ZeroRowSpec | day10/src/main.rs:41-45 | a row's height-0 cells, as collected, are exactly its zeros, in increasing column order |
| Day10.ZeroRowsSpec | day10/src/main.rs:41-45 | the height-0 cells of the first rows are exactly their zeros, in row-major order |
| Day10.ZeroCells | day10/src/main.rs:41-45 | every trailhead of the map lies on the map |
| Day10.RowMajorUnique | day10/src/main.rs:41-45 | two strictly row-major lists with the same cells are equal, so the trailheads are fixed by the map |
| Day10.Trailheads | day10/src/main.rs:41-45 | the trailheads are exactly the height-0 nodes, in row-major order |
| Day10.PartOne | day10/src/main.rs:50-58 | the loop adds up the unique-destination scores |
| Day10.PartTwo | day10/src/main.rs:59-67 | the loop adds up the trail counts |
| Day10.PartOneAtMostPartTwo | day10/src/main.rs:46-47 | summed over any trailheads, part one never exceeds part two |
| Day10.Solve | day10/src/main.rs:30-67 | both totals exist iff the map is all digits; they are then the unique-destination and all-trail scores for height 9 summed over the map's height-0 cells in row-major order, and part one's is at most part two's |
| Day11.Show | day11/src/main.rs:71-72 | `to_string` of an `i64` is never empty |
| Day11.DigitsSplit | day11/src/main.rs:73-76 | a digit string's value is its prefix's value shifted by the suffix length plus the suffix's value |
| Day11.DigitsBound | day11/src/main.rs:75-76 | `k` digits are worth less than `10^k` |
| Day11.ParseDigits | day11/src/main.rs:75-76 | digits worth at most `i64::MAX` parse to their value |
| Day11.HalvesValue | day11/src/main.rs:73-76 | the halves of a digit string are the whole divided by, and modulo, the power of ten of the right half's length |
| Day11.DigitHalves | day11/src/main.rs:74-76 | both halves of an `i64` engraving without a leading zero parse |
| Day11.SplitHalves | day11/src/main.rs:71-88 | a positive engraving of even length becomes `n / 10^h` and `n % 10^h`, `h` half its length |
| Day11.HalvesBounded | day11/src/main.rs:74-76 | the left half is between 1 and the whole, the right half below the whole |
| Day11.ParseNegative | day11/src/main.rs:75 | a minus sign before digits worth at most 2^63 parses as their negation |
| Day11.NegativeHalves | day11/src/main.rs:74-76 | both halves of a negative engraving of four or more characters parse |
| Day11.NegativeSplits | day11/src/main.rs:71-88 | a negative engraving of even length of at least four characters splits without aborting |
| Day11.BlinkFails | day11/src/main.rs:65-95 | a blink aborts iff the stone is -9 to -1 (its half `-` does not parse) or it neither is 0 nor splits and `n * 2024` overflows `i64` |
| Day11.BlinkSize | day11/src/main.rs:65-95 | a splitting stone becomes two stones, any other stone one |
| Day11.BlinkAllLength | day11/src/main.rs:64-96 | a blink of a row adds one stone per splitting stone |
| Day11.BlinkAllConcat | day11/src/main.rs:64-96 | a blink acts on each part of a row separately |
| Day11.BlinkAllPermutation | day11/src/main.rs:64-96 | a blink of the same stones in another order gives the same stones, so the order the map visits its keys does not matter |
| Day11.CountAllConcat | day11/src/main.rs:100-119 | the recursive counter is additive over the parts of a row |
| Day11.CountAllNoBlinks | day11/src/main.rs:102-105 | with no blinks left every stone counts one |
| Day11.CountAllStep | day11/src/main.rs:107-118 | counting after `k` blinks is counting the blinked row after `k - 1` |
| Day11.CountAllBlinks | day11/src/main.rs:100-119 | the recursive counter yields exactly the length of the row after `k` blinks, and aborts iff the blinks do |
| Day11.ApplyRulesCounts | day11/src/main.rs:100-119 | `apply_rules(n, k)` adds exactly the number of stones `n` becomes after `k` blinks |
| Day11.BlinksStayNone | day11/src/main.rs:49-53 | once a blink aborts, every later one does |
| Day11.RepeatCount | day11/src/main.rs:64 | a key standing for `c` stones stands for `c` copies of the key |
| Day11.StonesCount | day11/src/main.rs:44-57 | a count map stands for each key as many times as it counts |
| Day11.BumpAllCount | day11/src/main.rs:67-94 | the `get`-or-0 then `insert` updates add the key's count once per stone its blink yields, and add exactly those stones as keys |
| Day11.BumpAllPositive | day11/src/main.rs:67-94 | the updates keep every count positive |
| Day11.RepeatBlinks | day11/src/main.rs:64-96 | the blink of `c` copies of one stone holds `c` times each stone of that stone's blink |
| Day11.RewriteStep | day11/src/main.rs:64-96 | handling one more key keeps the rewrite loop's invariant |
| Day11.RewriteDone | day11/src/main.rs:96-97 | once every key is handled, the new map counts the blink of the old map's stones |
| Day11.RewriteKey | day11/src/main.rs:65-95 | one key's update aborts iff its blink does, and otherwise bumps each stone the blink yields by the key's count |
| Day11.ApplyRules2 | day11/src/main.rs:60-98 | the rewrite succeeds iff every key blinks; the new map then counts each stone as often as it occurs in the blink of the old map's stones, its keys are the stones the old keys become, and positive counts stay positive |
| Day11.ParseStones | day11/src/main.rs:124-127 | the words read iff each word parses as an `i64`, each stone its word's value |
| Day11.GatherFails | day11/src/main.rs:123-129 | the lines are gathered iff every line parses |
| Day11.ArrangementFails | day11/src/main.rs:121-131 | the input reads iff every line reads |
| Day11.LineRoundTrip | day11/src/main.rs:124-127 | numbers written with single spaces read back as themselves |
| Day11.InitialArrangement | day11/src/main.rs:121-131 | the loop appends each line's stones in turn, or aborts |
| Day11.StaysNone | day11/src/main.rs:123-129 | a line that fails makes the whole input fail |
| Day11.Distinct | day11/src/main.rs:44-47 | the distinct stones are exactly the stones of the row |
| Day11.DistinctCount | day11/src/main.rs:44-47 | each stone of the row occurs once among the distinct stones |
| Day11.InitialCounts | day11/src/main.rs:44-47 | the map has every input stone as a key, each with count 1, duplicates collapsing |
| Day11.SumStep | day11/src/main.rs:55-57 | adding one more key's count keeps the summing invariant |
| Day11.SumDone | day11/src/main.rs:55-57 | the finished sum is the number of stones the map stands for |
| Day11.TotalStones | day11/src/main.rs:54-57 | the summing loop yields the number of stones the map stands for |
| Day11.SameSize | day11/src/main.rs:54-57 | two rows of the same stones have the same length |
| Day11.Solve | day11/src/main.rs:31-59 | the program aborts when the input does not read, and otherwise yields the recursive counter's count for the distinct stones of the input after `depth` blinks, aborting exactly when that does |
| Day11.RoundFails | day11/src/main.rs:49-53 | a key whose blink aborts stands for a stone of the row, which then cannot blink |
| Day11.RoundStep | day11/src/main.rs:49-53 | a successful rewrite stands for the blink of the row |
| Day11.RoundTotal | day11/src/main.rs:49-57 | one rewrite adds one stone per splitting stone to the total |
| Day12.GetUniqueRegionNames | day12/src/main.rs:57-66 | the nested loops collect the specified set of names |
| Day12.RowNamesSpec | day12/src/main.rs:60-62 | a character is among a row's names iff it occurs in the row's scanned part |
| Day12.NamesUpToSpec | day12/src/main.rs:59-63 | a character is among the names of the first `m` rows iff it occurs in one of them |
| Day12.NamesSpec | day12/src/main.rs:57-66 | the region names are exactly the characters on the grid |
| Day12.RegionOf | day12/src/main.rs:41-53 | the nested scan for one name yields exactly that name's region |
| Day12.RowCellsSpec | day12/src/main.rs:43-51 | a row's scan yields exactly its cells holding the name, tagged with it, left to right |
| Day12.OrderedJoin | day12/src/main.rs:42-52 | appending a later row's cells keeps row-major order |
| Day12.CellsUpToSpec | day12/src/main.rs:42-52 | the scan of the first `m` rows yields exactly their cells holding the name, in row-major order |
| Day12.RegionSpec | day12/src/main.rs:35-56 | a region holds every cell marked with its name, tagged with it, each once, in row-major order |
| Day12.RegionsFor | day12/src/main.rs:35-56 | one region per name visited |
| Day12.RegionsForIndex | day12/src/main.rs:40-54 | the `i`-th region is the region of the `i`-th name visited |
| Day12.GetAllRegions | day12/src/main.rs:35-56 | the loop visits every name once, in the set's order, and yields the region of each in that order |
| Day12.EnumerationSize | day12/src/main.rs:40 | visiting every name of the set once visits as many names as the set holds |
| Day12.RegionsPartition | day12/src/main.rs:35-56 | for the grid's own names the regions are one per name, none empty, pairwise disjoint, and cover every cell |
| Day12.RegionNonEmpty | day12/src/main.rs:84-88 | a region of a name on the grid is not empty, so `region[0]` in the printer is in range |
| Day12.Solve | day12/src/main.rs:23-33 | the program reads the grid line by line, and yields one region per name of the grid |
| Day13.CramerSolves | day13/src/main.rs:96-97 | when some presses land exactly on the target, the truncating divisions compute exactly those presses |
| Day13.CramerNumerators | day13/src/main.rs:96-97 | for landing presses each numerator is the press count times its determinant |
| Day13.LandingUnique | day13/src/main.rs:96-97 | with a non-zero determinant the landing presses are unique |
| Day13.AsWrittenOutcome | day13/src/main.rs:77-114 | as written: a panic iff the determinant is 0; otherwise a prize iff at least ONE of the two equations holds and the limit is kept; every exact solution within the limit is found at its cost |
| Day13.MinTokenCostWins | day13/src/main.rs:77-114 | with the evidently intended check: a panic iff the determinant is 0, a prize iff some non-negative presses land on the target within the limit, at `3 na + nb` for those presses |
| Day13.MinTokenCostNonNegative | day13/src/main.rs:103-113 | with the intended check a won machine costs a non-negative number of tokens (the check as written can price a machine below 0, see `Day13.TotalsDiffer`) |
| Day13.HalfMatchAccepted | day13/src/main.rs:103-105 | A (2,1), B (1,2), prize (1,4): no presses reach the prize, yet the code as written yields a prize of 2 tokens |
| Day13.NegativePressesAccepted | day13/src/main.rs:103-113 | A (1,1), B (2,1), prize (0,1): the only solution presses B minus once, and the code as written yields a prize of 5 tokens |
| Day13.CostOf | day13/src/main.rs:77-114 | either check faults exactly when the determinant is 0 |
| Day13.TotalMinTokens | day13/src/main.rs:61-73 | the loop adds up the as-written costs of the machines, a machine without a prize adding 0, and aborts on a fault |
| Day13.TotalStaysNone | day13/src/main.rs:68-73 | a machine that panics aborts the whole total, under either check |
| Day13.TotalFaults | day13/src/main.rs:68-73 | under either check the total exists iff no machine has a zero determinant |
| Day13.TotalAppend | day13/src/main.rs:68-73 | under either check the total over two lists of machines is the sum of the two totals |
| Day13.TotalNonNegative | day13/src/main.rs:103-113 | with the intended check the total is never negative |
| Day13.TotalsDiffer | day13/src/main.rs:68-73 | the program's total can be negative (-1 for one machine) and differs from the intended total (5 against 0 for another) |
| Day13.DigitRun | day13/src/main.rs:120 | `[0-9]*` matches the longest run of digits |
| Day13.MatchAt | day13/src/main.rs:120 | a match at `i` ends after `i` and captures two digit strings |
| Day13.Captures | day13/src/main.rs:125 | every capture is a pair of digit strings |
| Day13.ParseOffsetFails | day13/src/main.rs:129-138 | a pair of captured groups parses iff neither is empty and both are within `i64`, and then as their values |
| Day13.Machines | day13/src/main.rs:122-141 | the blocks read iff each block reads, one machine per block |
| Day13.ReadCaptures | day13/src/main.rs:123-126 | the captures of a block are those of its lines, line after line |
| Day13.GetClawMachineConfigs | day13/src/main.rs:116-144 | the input's blocks read as the specified machines, or the program aborts |
| Day13.Solve | day13/src/main.rs:51-75 | the program aborts when the input does not read, and otherwise yields the as-written total over the machines it reads |
| Day13.CapturesSkip | day13/src/main.rs:125 | positions without an `X` start no match |
| Day13.DigitRunIs | day13/src/main.rs:120 | a run of digits followed by a non-digit is the longest run |
| Day13.WrittenLineShape | day13/src/main.rs:120 | a written input line has the regex's shape, position by position |
| Day13.MatchAtEnd | day13/src/main.rs:120 | a line with the regex's shape at `i` matches there, capturing its two digit runs |
| Day13.CapturesOfShape | day13/src/main.rs:125 | a line whose only `X` starts such a match has exactly that capture |
| Day13.WrittenLineCaptures | day13/src/main.rs:120-125 | a written line yields exactly the capture of its two numbers |
| Day13.BlockCapturesThree | day13/src/main.rs:123-126 | the captures of three lines are theirs in order |
| Day13.MachineRoundTrip | day13/src/main.rs:116-141 | a machine with non-negative `i64` offsets, written out as its three input lines, reads back as itself |

## Left out

- File reading, the command-line argument structs, panic hooks and every `println!`/`print!` (including `print_disk_layout`, `print_coordinates`, `print_region` and `print_output`) are I/O. The model reads an in-memory sequence of lines and returns the numbers the programs print.
- The threads of days 4 and 6 work on independent pieces. Their results are combined by addition, so the model runs the pieces one after the other. A panic in one of day 4's direction threads makes the whole search panic once the threads are joined. The model reports that as `None`.
- The global atomics (the obstacle, word, stone and button counters, the limit and the offset) become parameters and returned accumulators. Day 4's counter is the field `count` of `Day4.WordSearch`.
- The `regex` crate is foreign code. Day 3 works on the sequence of matches (`Day3.Instr`). Day 13's caption pattern is modelled by `Day13.MatchAt`, a hand-written matcher for the three caption shapes.
- The `day3/src/utils/cliargs.rs` flag is an atomic bool that picks the regex pattern (`day3/src/main.rs:39-44`). The model does not hold that flag. Its effect shows only in the match sequence: `Day3.Instr` values `Do` and `Dont` occur only when conditional parsing is on. The on/off state that `do()` and `don't()` switch is a separate flag, modelled by `Day3.Enabled`.
- Day6.Walk and Day17.RunFor (used by `Day17.CPU.Run`): a patrol or a program run need not terminate, so both take a `fuel` bound. Their `OutOfFuel` outcome exists only in the model and says nothing about the program.
- The day 10 node graph of `Rc<RefCell>` links becomes grid coordinates. The visited set keyed on node identity becomes a set of coordinates; each node sits at one cell, so the two are the same.
- Hash iteration order (day 8's union, day 11's map, day 12's names, day 17's candidate set) is not modelled. Loops pick elements in an arbitrary order, and every specification is stated so that the order does not matter.
- `calculate_area` (`day12/src/main.rs:98-105`) is left out. It is unfinished: it never updates `area`, and `collect::<usize>()` does not type-check.
- Day 17's input parsing (`day17/src/main.rs:79-111`) reads the registers and the program from a file. The model takes them as values.
- Day 2 takes reports of at least two levels as a precondition. The source indexes `report[1]` and panics on a shorter report.
- Day1.TotalDistance: the `i32` differences (`day1/src/main.rs:35` and 38) and the `i32` running total (`day1/src/main.rs:44`) are unbounded in the model. The overflow panic is not modelled.
- Day1.TotalSimilarity: the `i32` products and running total (`day1/src/main.rs:57`) are unbounded in the model, and so is the `count() as i32` cast (`day1/src/main.rs:51`). The overflow panic and the truncating cast are not modelled.
- Day2.CheckReport: the `i32` differences of neighbouring levels (`day2/src/main.rs:37` and 39) are unbounded in the model. The overflow panic is not modelled.
- Day3.ComputeMultiplications: the `i32` running product (`day3/src/main.rs:80`) is unbounded in the model. The overflow panic is not modelled.
- Day3.ComputeSum: the `i32` running total (`day3/src/main.rs:91`) is unbounded in the model. The overflow panic is not modelled.
- Day5.SumMiddlePages: the `i32` running total (`day5/src/main.rs:26`) is unbounded in the model. The overflow panic is not modelled.
- Day 6 (`Day6.Shaped`) takes as a precondition a rectangular grid with at least one row whose first row is non-empty. Its edge test compares the column with the first row's length (`day6/src/main.rs:171`). A rectangular grid with no rows or only empty rows holds no `^`. The source's start search then finds nothing and `current_pos.unwrap()` panics (`day6/src/main.rs:93`), and `main`'s `unwrap` (`day6/src/main.rs:48`) is never reached. For every other grid without `^` the model gives that panic as the `NoStart` outcome of `Day6.Traverse`.
- Day10.Solve takes a rectangular grid as a precondition, and so does `Day10.LinksInRange`. The link pass indexes the rows above and below at the same column (`day10/src/main.rs:186-195`). That stays in range only when neighbouring rows are equally long, so a ragged map panics there.
- Day8.Solve takes as a precondition that every row is at least as long as the grid is tall. The frequency scan bounds its column index by the number of rows (`day8/src/main.rs:132`), which indexes out of range on a taller grid. `Day8.WideGridMissesColumns` shows that on a wider grid the scan misses columns.
- Day 6's loop check (`day6/src/main.rs:113-127`) is a heuristic on the recorded corners. It is modelled exactly as written, and the model does not claim that its verdict matches a real loop.
- Day 7's `generate_test_expressions_operation` always returns an empty list. The model keeps that, so no equation is ever valid and the calibration total is 0. The evaluator and the operator enumerator are modelled and proved on their own.
- Day4.WordSearch.SearchDirections: the counter is an `AtomicU32` whose `fetch_add` (`day4/src/main.rs:24-25`) wraps modulo 2^32. The model's `count` is unbounded, so the wrap is not modelled.
- Day4.WordSearch.GetXmasCount: the result is the `AtomicU32` counter (`day4/src/main.rs:14-18`, 24-25), which wraps modulo 2^32. The model's count is unbounded, so the wrap is not modelled.
- Day6.CountLoopingObstacles: the obstacle counter is an `AtomicU32` whose `fetch_add` (`day6/src/main.rs:251-252`) wraps modulo 2^32. The model's count is unbounded, so the wrap is not modelled.
- Day7.TotalCalibrationResult: the total adds `u32` values (`day7/src/main.rs:35-41`). The model's sum is unbounded. The evaluator itself models the `u32` overflow panic.
- Day9.Cell: layout cells are `i32` file ids or -1. File ids are unbounded in the model, and so is the `u64` checksum (`day9/src/main.rs:174-189`).
- Day10.PartOne: the `u32` running total `bfs_sum` (`day10/src/main.rs:55`) is unbounded in the model. The overflow panic past 2^32 - 1 is not modelled.
- Day10.PartTwo: the `u32` running total `dfs_sum` (`day10/src/main.rs:64`) is unbounded in the model. The overflow panic past 2^32 - 1 is not modelled.
- Day10.Solve: its two totals are those of `Day10.PartOne` and `Day10.PartTwo`, unbounded in the model. The `u32` overflow panics at `day10/src/main.rs:55` and 64 are not modelled.
- Day11.Solve: the `i64` count sums (`day11/src/main.rs:70-94`) and the final `i64` sum (`day11/src/main.rs:54-57`) are unbounded in the model. The `key * 2024` overflow panic is modelled.
- Day13.TotalMinTokens: the `i64` running total `total_min_tokens += cost` (`day13/src/main.rs:72`) is unbounded in the model. The overflow panic is not modelled: two machines with A=(1,0), B=(0,1) and prize (2^61, 0) each cost 3·2^61, and their sum passes `i64::MAX`.
- Day13.Solve: it returns the unbounded total of `Day13.TotalMinTokens`. The `i64` overflow panic at `day13/src/main.rs:72` is not modelled.
- Day13.MinTokenCost: the `i64` products (`day13/src/main.rs:96-97`, 103 and 111) and the `+ offset` sums (`day13/src/main.rs:86-87`) are unbounded. Only the truncating division and the division by a zero determinant are modelled.
- Day17.QuineOf: it is stated as a function of the candidate rounds. The program printing itself in full is not claimed; it is proved only for the first output value.

## Findings

| source | as written | input that shows it | evidently intended | confidence | as-written member | corrected member |
|---|---|---|---|---|---|---|
| day13/src/main.rs:103-105 | the machine is refused only when both the x and the y equation miss (`&&`), so presses that satisfy one equation win | buttons A (2,1), B (1,2), prize (1,4), offset 0, no limit: a prize of 2 tokens | refuse when either equation misses (`\|\|`): no prize | not executed | Day13.HalfMatchAccepted | Day13.MinTokenCostWins |
| day13/src/main.rs:103-113 | negative press counts from the divisions are accepted and priced | buttons A (1,1), B (2,1), prize (0,1), offset 0, no limit: B pressed -1 times, a prize of 5 tokens | a button cannot be pressed a negative number of times: no prize | not executed | Day13.NegativePressesAccepted | Day13.MinTokenCostWins |
