# Advent of Code 2020 solutions, modelled in Dafny

This project is a verified model of the puzzle logic of a set of Rust
solutions to Advent of Code 2020. Each day's solution parses a puzzle input,
then computes the answers from it.

- **Day 17 (Conway cubes):** a sparse cellular automaton over
  `D`-dimensional integer positions.
- **Day 11 (seating system):** a seat-map automaton that runs until it
  reaches a fixed point.
- **Day 16 (ticket translation):** ticket validation, followed by a loop
  that narrows and eliminates rule candidates until each ticket field has
  one rule.
- **Day 14 (docking data):** 36-bit masks, including "floating" address
  bits, written into a memory map.
- **Day 8 (handheld halting):** a three-instruction boot-code machine that
  runs until it loops or ends, and the search for the one instruction swap
  that makes it end.
- **Day 7 (handy haversacks):** bag containment rules: which bags can
  eventually hold a given bag, and how many bags a bag holds.
- **Day 12 (rain risk):** ship navigation, moving either the ship or a
  waypoint.
- **Day 15 (rambunctious recitation):** the memory game, as an unbounded
  iterator with a two-turn memory per number.
- **Days 1–6, 9, 10 and 13:** boarding passes, passwords, passports,
  tree slopes, customs groups, adapter chains, the XMAS cipher, bus
  schedules with the Chinese remainder theorem, and expense reports.
- **Shared code:** the `Point` arithmetic of the common crate.

Each Rust source file is one Dafny module:

- Code that changes state in place is modelled as imperative Dafny.
  - A method is proved against a specification function.
  - A `class` models a struct whose fields the source mutates, for example
    `Day14Program.Memory`, `Day15.SpokenNumber`, `Day16Input.Input`, the
    day 8 `Machine`, the day 10 `Storage` and the day 12 ship positions.
- Code that is expression pipelines or recursion is modelled as functions
  and lemmas.

Further conventions:

- Parsers return `Result` values whose error datatypes follow the source's
  error enums.
- A `panic!`, `unwrap` or `assert!` the source relies on becomes a
  precondition, or `None` where the panic depends on the data.
- Rust `str` operations (`split`, `lines`, `strip_prefix`, `parse::<usize>`,
  `split_whitespace`) and collecting `Result`s are modelled once, in `Text`
  and `Wrappers`. `Seqs` and `Arith` hold shared facts about sequences and
  integer arithmetic.
- Hash maps and hash sets become Dafny `map`s and `set`s. The results never
  depend on iteration order.
- Integers are unbounded. `usize` never overflows in the model.
- Day 17's grid parser treats every character other than `#` as an inactive
  cell, as the code does; it raises no error for unknown characters.

## Model

| member | source | states |
|---|---|---|
| Points.FromTuple | common/src/point.rs:12-20 | the point built from `(x, y)` has exactly those coordinates |
| Points.Add | common/src/point.rs:23-32 | the sum minus the right operand gives the left operand, coordinate by coordinate |
| Points.Sub | common/src/point.rs:48-57 | the difference plus the right operand gives the left operand, coordinate by coordinate |
| Points.AddTuple | common/src/point.rs:59-65 | adding a tuple is adding the point made from it |
| Points.SubTuple | common/src/point.rs:67-73 | subtracting a tuple is subtracting the point made from it |
| Points.AddSigned | common/src/point.rs:75-84 | unsigned plus signed is the signed sum; it stays unsigned when the offset is unsigned |
| Points.SubSigned | common/src/point.rs:86-95 | unsigned minus signed is the signed difference; it is unsigned exactly when the offset is at most the point on both axes |
| Points.AddAssign | common/src/point.rs:34-39 | `+=` updating the coordinates one at a time ends at `p + q`, and subtracting `q` again gives `p` |
| Points.SubAssign | common/src/point.rs:41-46 | `-=` ends at `p - q`, and adding `q` again gives `p` |
| Points.AddSubInverse | common/src/point.rs:23-57 | subtraction undoes addition and addition undoes subtraction |
| Points.AddLaws | common/src/point.rs:23-32 | addition is commutative and associative, and the origin is neutral |
| Cube.Add | day17/src/cube.rs:180-190 | each coordinate of the sum is the sum of the coordinates, for every dimension |
| Cube.AddInjective | day17/src/cube.rs:180-190 | translating by a fixed position is injective, so the cells around a position are distinct |
| Cube.FromPair | day17/src/cube.rs:192-196 | a position made from `(x, y)` has `x` and `y` first and zero on every further axis |
| Cube.FromPairInjective | day17/src/cube.rs:192-196 | two positions made from pairs are equal exactly when the pairs are |
| Cube.CartesianMember | day17/src/cube.rs:41-44 | the product of `dim` copies of `-1..=1` holds exactly the vectors of length `dim` over {-1, 0, 1} |
| Cube.CartesianSize | day17/src/cube.rs:41-44 | the product has 3^dim vectors |
| Cube.CartesianDistinct | day17/src/cube.rs:41-44 | the product lists no vector twice |
| Cube.NeighbourOffsets | day17/src/cube.rs:41-46 | every neighbour offset has `dim` coordinates |
| Cube.NeighbourOffsetsMember | day17/src/cube.rs:41-46 | an offset is a non-zero vector over {-1, 0, 1}, and every such vector is an offset |
| Cube.NeighbourOffsetsSpec | day17/src/cube.rs:41-46 | the offsets are the non-zero unit-cube vectors, each once, 3^dim - 1 of them |
| Cube.NeighbourOffsetsDistinct | day17/src/cube.rs:41-46 | no offset is listed twice |
| Cube.NeighbourOffsetsCount | day17/src/cube.rs:41-46 | there are 3^dim - 1 offsets (26 in 3D, 80 in 4D) |
| Cube.NeighbourSymmetric | day17/src/cube.rs:53-56 | being neighbours is symmetric |
| Cube.Around | day17/src/cube.rs:54-56 | the i-th cell around `p` is `p` plus the i-th offset |
| Cube.AroundSound | day17/src/cube.rs:54-56 | every cell around `p` is a neighbour of `p` |
| Cube.AroundComplete | day17/src/cube.rs:54-56 | every neighbour of `p` is around `p` |
| Cube.AroundIsNeighbourhood | day17/src/cube.rs:54-56 | the cells around `p` are exactly its neighbours, each once |
| Cube.ActiveAmong | day17/src/cube.rs:56 | the active side of the partition holds exactly the listed cells that are active |
| Cube.InactiveAmong | day17/src/cube.rs:56-58 | the inactive side of the partition holds exactly the listed cells that are inactive |
| Cube.ActiveAmongDistinct | day17/src/cube.rs:56-59 | the active side of a list without repeats has no repeats, so its length is a count |
| Cube.CountAroundIsNeighbourCount | day17/src/cube.rs:53-59 | the number counted for a cell is its number of active neighbours |
| Cube.NextGenRule | day17/src/cube.rs:63-104 | a cell is active in the next generation iff it is active with 2 or 3 active neighbours or inactive with exactly 3 |
| Cube.NextGenNearActive | day17/src/cube.rs:53-104 | every cell of the next generation is active now or touches an active cell |
| Cube.NextGenWellFormed | day17/src/cube.rs:34-112 | a generation keeps the dimension of the positions |
| Cube.NextGenOfEmpty | day17/src/cube.rs:34-112 | with no active cell nothing becomes active |
| Cube.FrontierIsInactiveAround | day17/src/cube.rs:52-60 | the collected `neighbors_to_check` are the inactive neighbours of active cells |
| Cube.StepOutcome | day17/src/cube.rs:63-110 | keeping active cells counted 2 or 3 and collected cells counted 3 gives the next generation |
| Cube.CountAroundActive | day17/src/cube.rs:52-60 | the first loop maps each active cell to its number of active neighbours and collects its inactive neighbours |
| Cube.CountAroundInactive | day17/src/cube.rs:77-87 | the second loop maps each collected cell to its number of active neighbours |
| Cube.Step | day17/src/cube.rs:34-112 | one `step` yields exactly the next generation of the rule |
| Cube.MultiStep | day17/src/cube.rs:20-32 | `multi_step(count)` with `count` not zero is `count` generations |
| Cube.RowsSound | day17/src/cube.rs:119-149 | every parsed cell comes from a `#` at that column and line |
| Cube.RowsComplete | day17/src/cube.rs:119-149 | every `#` of the input gives a parsed cell |
| Cube.ParseCells | day17/src/cube.rs:119-149 | the parsed cells are exactly the `#` positions, with zero extra coordinates |
| Cube.ParseCount | day17/src/cube.rs:114-149 | `count_active` after parsing is the number of `#` characters |
| Day01.ChooseSound | day01/src/main.rs:35-42 | every listed combination is an increasing list of `len` distinct positions |
| Day01.ChooseComplete | day01/src/main.rs:35-42 | every increasing list of `len` positions is listed, as `combinations` promises |
| Day01.Pick | day01/src/main.rs:35-42 | a combination's values are the entries at its positions |
| Day01.Summing | day01/src/main.rs:35-42 | the kept combinations are exactly those whose sum is `x`, and no more than were offered |
| Day01.SummingFirst | day01/src/main.rs:44-46 | the head of the kept picks is the pick of the first listed combination that sums to `x`, every earlier one failing |
| Day01.Choices | day01/src/main.rs:35-42 | every combination over the whole list is an increasing choice of `len` positions |
| Day01.AllSummedToMember | day01/src/main.rs:35-42 | `get_all_summed_to_x` returns exactly the picks of `len` distinct positions, in increasing order, that sum to `x` |
| Day01.FirstSummedTo | day01/src/main.rs:44-46 | `get_first_summed_to_x` returns the values at the first combination, in the order `combinations` lists them, whose values sum to `x` (so `len` values summing to `x`); `None` iff no choice of `len` positions sums to `x` |
| Day01.ParsedLines | day01/src/main.rs:18-33 | `get_contents` gives no more values than lines; every value is a line's number and every line that parses gives its number |
| Day01.ParsedLinesInOrder | day01/src/main.rs:18-33 | one value per line that parses, in the order of those lines, with repeats kept; the lines that do not parse are dropped |
| Day02.CheckPart1 | day02/src/password.rs:23-36 | valid iff the letter occurs between `min` and `max` times |
| Day02.CheckPart2 | day02/src/password.rs:38-61 | invalid when the password is shorter than `max`; otherwise valid iff exactly one of positions `min` and `max` (1-based) holds the letter |
| Day02.ParseRequirement | day02/src/password.rs:74-131 | `MIN-MAX C` parses to those numbers and that single character; otherwise the first failing step gives its error: no single space, no single hyphen, `MinParseError`, `MaxParseError`, or a letter part that is not one character |
| Day02.ParseLine | day02/src/password.rs:172-220 | accepted iff the line splits into two at `": "` and the first part is a requirement; a missing split is malformed, a requirement error is passed on wrapped; the password is the second part as it stands |
| Day02.ParseShowRequirement | day02/src/password.rs:74-131 | a written requirement parses back to itself unless its letter is a space |
| Day02.ParseLineParts | day02/src/password.rs:172-220 | a requirement, `": "` and a password without `": "` parse to that requirement and that password |
| Day03.Moved | day03/src/main.rs:56-60 | `pos += (dx, dy)` moves the point by exactly `dx` and `dy` |
| Day03.Moves | day03/src/main.rs:33-53 | the number of moves times `dy` is the distance to the bottom row |
| Day03.TreesHit | day03/src/main.rs:33-53 | the trees hit in `k` moves are at most `k` |
| Day03.TraverseSlope | day03/src/main.rs:33-53 | the loop counts exactly the trees at the end of each move down to the bottom row, at most one per move |
| Day03Field.ParseState | day03/src/field.rs:94-104 | `#` is a tree, `.` open ground, any other character is an error naming it |
| Day03Field.ParseRow | day03/src/field.rs:47-54 | a line parses iff every character is known; the squares follow the characters; an error names an unknown character of the line |
| Day03Field.ParseRows | day03/src/field.rs:47-54 | the lines parse iff each line does; the rows are the lines' rows; an error comes from one of the lines |
| Day03Field.ReduceFromSpec | day03/src/field.rs:61-74 | while all lengths agree the `reduce` carries the latest index and the common length |
| Day03Field.NoneSticks | day03/src/field.rs:61-67 | once the fold holds `None` it keeps its index to the end |
| Day03Field.LengthCheckSpec | day03/src/field.rs:61-78 | the length check reports `(i, None)` iff some row is not as long as the first, `i` being the first row differing from the row before it |
| Day03Field.ParseFieldUnknown | day03/src/field.rs:44-81 | parsing reports an unknown character iff the input holds one, and the reported character occurs in the input |
| Day03Field.ParseFieldShape | day03/src/field.rs:44-81 | with only known characters the map is accepted iff it is rectangular, its trees are the `#`s, and a rejection names the first row whose length changes |
| Day03Field.ParseField | day03/src/field.rs:44-81 | `Field::from_str`: unknown characters are reported before unequal lengths; its meaning is stated by `ParseFieldUnknown` and `ParseFieldShape` |
| Day03Field.GetField | day03/src/field.rs:20-29 | within the row's width the square is the stored one |
| Day03Field.GetFieldPeriodic | day03/src/field.rs:20-29 | the map repeats to the right with the width of the row |
| Day04.Requirements | day04/src/main.rs:34-46 | seven distinct required kinds, none of them the country or unknown |
| Day04.ValidateYear | day04/src/main.rs:76-85 | an unsigned number within the inclusive bounds; stated on written numbers by `ValidateYearShow` |
| Day04.ValidateHeight | day04/src/main.rs:87-104 | a number with `cm` in 150..=193 or with `in` in 59..=76; stated by `ValidateHeightCm`, `ValidateHeightIn` and `ValidateHeightNeedsUnit` |
| Day04.ValidateYearShow | day04/src/main.rs:76-85 | a written number is a valid year iff it lies within the bounds, both included |
| Day04.ValidateHeightCm | day04/src/main.rs:87-104 | a height in `cm` is valid iff it lies in 150..=193 |
| Day04.ValidateHeightIn | day04/src/main.rs:87-104 | a height in `in` is valid iff it lies in 59..=76 |
| Day04.ValidateHeightNeedsUnit | day04/src/main.rs:87-104 | a height without `cm` or `in` is never valid |
| Day04.ValidateHairColor | day04/src/main.rs:106-119 | a valid colour starts with `#` and has at least seven characters; when everything after the first character is a hex digit (`0-9a-f`), valid iff it is `#` and exactly six of them |
| Day04.ValidateEyeColor | day04/src/main.rs:122-124 | valid iff the value is one of `amb`, `blu`, `brn`, `gry`, `grn`, `hzl`, `oth`, so three characters long |
| Day04.ValidatePassportId | day04/src/main.rs:127-133 | a valid id has at least nine characters; an id made only of digits is valid iff it has exactly nine |
| Day04.CountWhere | day04/src/main.rs:106-133 | the count of matching characters is at most the length |
| Day04.CountWhereAll | day04/src/main.rs:106-133 | a string of matching characters counts its length |
| Day04.CountWhereAppend | day04/src/main.rs:106-133 | counting distributes over concatenation |
| Day04.CountWhereNone | day04/src/main.rs:106-133 | a string without matching characters counts zero |
| Day04.CountingAcceptsExtras | day04/src/main.rs:106-133 | the colour and id checks count digits rather than match a pattern, so characters of other kinds mixed in are accepted |
| Day04.IgnoredFieldsDoNotMatter | day04/src/main.rs:48-57 | a field of a kind that is not required never changes whether a passport is valid |
| Day04.IsValidField | day04/src/main.rs:59-74 | the validator of the field's kind with the source's bounds; the country and unknown kinds are excluded as unreachable |
| Day04.IsValidPassport | day04/src/main.rs:48-57 | every field of a required kind is valid; other fields are ignored, as `IgnoredFieldsDoNotMatter` states |
| Day04.ValidPassports | day04/src/main.rs:22-27 | part two keeps exactly the passports of the batch that have every required field and whose required fields are valid, each as often as in the batch, in batch order |
| Day04Passport.KindOf | day04/src/passport.rs:95-110 | the eight known keys map to their kinds and every other key is `Unknown` carrying the key |
| Day04Passport.KindOfInjective | day04/src/passport.rs:95-110 | different keys give different kinds |
| Day04Passport.ParseToken | day04/src/passport.rs:56-69 | a token gives one field if it holds a `:` and none otherwise |
| Day04Passport.ParseTokensMember | day04/src/passport.rs:52-73 | the fields of a passport are exactly the `ID:VALUE` readings of its tokens that hold a `:` |
| Day04Passport.ParsePassport | day04/src/passport.rs:52-73 | a passport has at most one field per whitespace-separated token |
| Day04Passport.ParseBatch | day04/src/passport.rs:23-28 | one passport per blank-line-separated chunk, in order |
| Day04Passport.ContainFieldsSpec | day04/src/passport.rs:39-49 | with distinct requirements a passport passes iff it has every required kind; with a repeated requirement none passes |
| Day04Passport.SetOfSeqSmaller | day04/src/passport.rs:39-49 | a repeated kind makes the set of kinds smaller than the list |
| Day04Passport.PassportsContaining | day04/src/passport.rs:11-21 | `get_passports_containing_fields` keeps exactly the passports that contain the fields, each as often as in the batch, in batch order |
| Day05.Ids | day05/src/main.rs:29-36 | the i-th id is the id of the i-th seat |
| Day05.GetSeats | day05/src/main.rs:27-41 | the first malformed line's error is returned; otherwise the ids of all seats, sorted ascending, as a permutation of the parsed ids |
| Day05.HighestSeat | day05/src/main.rs:15-16 | part one is the largest seat id, or 0 with no seats |
| Seqs.Elements | day05/src/main.rs:51-52 | the set holds exactly the values of the list (the taken seat ids here, the adapters in day 10) |
| Day05.GapsFrom | day05/src/main.rs:54-63 | the gaps from `lo` on are exactly the missing ids of `first..last` whose two neighbours are taken, ascending |
| Day05.EmptySeats | day05/src/main.rs:43-63 | the candidates are exactly the ids of `first..last` that are missing while both neighbours are present |
| Day05.GetEmptySeat | day05/src/main.rs:43-68 | with exactly one candidate the result is an empty seat with both neighbours taken, and the only one |
| Day05BoardingPass.Id | day05/src/boarding_pass.rs:20-22 | `row * 8 + column`: below 1024 on the plane, and its remainder mod 8 is the column |
| Day05BoardingPass.IdInjective | day05/src/boarding_pass.rs:20-22 | two seats with columns in 0..=7 have the same id iff they are the same seat |
| Day05BoardingPass.Position | day05/src/boarding_pass.rs:78-105 | the value selected by `n` halvings lies in `0..2^n` |
| Day05BoardingPass.PositionOfDirectives | day05/src/boarding_pass.rs:78-105 | every value of `0..2^n` is selected by its own directives |
| Day05BoardingPass.DirectivesOfPosition | day05/src/boarding_pass.rs:78-105 | the directives are determined by the value they select |
| Day05BoardingPass.BinarySearch | day05/src/boarding_pass.rs:78-105 | halving `min..=max` once per directive ends on `min` plus the selected position, inside the range |
| Day05BoardingPass.ParseRowSelect | day05/src/boarding_pass.rs:108-121 | only `F` and `B` are row characters |
| Day05BoardingPass.ParseColumnSelect | day05/src/boarding_pass.rs:140-153 | only `L` and `R` are column characters |
| Day05BoardingPass.RowLower | day05/src/boarding_pass.rs:123-127 | `F` keeps the lower half and `B` the upper |
| Day05BoardingPass.ColumnLower | day05/src/boarding_pass.rs:155-159 | `L` keeps the lower half and `R` the upper |
| Day05BoardingPass.Decode | day05/src/boarding_pass.rs:28-75 | a decoded seat lies in row 0..=127 and column 0..=7; the length error occurs iff the code is not 10 characters |
| Day05BoardingPass.FromStr | day05/src/boarding_pass.rs:28-75 | the method with its two `binary_search` calls computes the decoding |
| Day05BoardingPass.DecodeErrors | day05/src/boarding_pass.rs:36-68 | a 10-character code fails iff some character is wrong for its part; row characters are checked first and the error names the offending character |
| Day05BoardingPass.Encode | day05/src/boarding_pass.rs:28-75 | the code of a seat has 10 characters |
| Day05BoardingPass.DecodeEncode | day05/src/boarding_pass.rs:28-75 | decoding the code of a seat gives the seat back |
| Day05BoardingPass.EncodeDecode | day05/src/boarding_pass.rs:28-75 | every code that decodes is the code of its seat, so the decoding is one-to-one |
| Day06.AnswerSet | day06/src/main.rs:22-38 | the set of a line holds exactly its characters |
| Day06.Groups | day06/src/main.rs:22-38 | one group per blank-line chunk, one answer set per line of the chunk, holding that line's characters |
| Day06.FoldUnion | day06/src/main.rs:40-43 | folding with union adds every answer set to the accumulator |
| Day06.FoldIntersection | day06/src/main.rs:45-48 | folding with intersection keeps the answers of the accumulator that every set holds |
| Day06.Fold | day06/src/main.rs:50-61 | `Iterator::fold` of the set operation; what it gives is stated by `FoldUnion` and `FoldIntersection` |
| Day06.OpOnSet | day06/src/main.rs:50-61 | the size of the fold from the first set, 0 for an empty group |
| Day06.CountUnion | day06/src/main.rs:40-43 | `op_on_set` with union; it counts the questions anyone answered, as `CountUnionIsAnyone` states |
| Day06.CountIntersection | day06/src/main.rs:45-48 | `op_on_set` with intersection; it counts the questions everyone answered, as `CountIntersectionIsEveryone` states |
| Day06.CountUnionIsAnyone | day06/src/main.rs:40-43 | part one counts the questions anyone in the group answered |
| Day06.CountIntersectionIsEveryone | day06/src/main.rs:45-61 | part two counts the questions everyone answered, and 0 for an empty group |
| Day06.IntersectionAtMostUnion | day06/src/main.rs:40-61 | part two never counts more than part one, and they agree for one person |
| Day07.Parents | day07/src/rules.rs:29-35 | the holders found in one scan are bags with a rule |
| Day07.Level | day07/src/rules.rs:24-44 | every bag found in a later generation has a rule |
| Day07.Upto | day07/src/rules.rs:24-44 | the bags collected so far include the latest generation |
| Day07.UptoWitness | day07/src/rules.rs:24-44 | a collected bag was found in some generation between 1 and `n` |
| Day07.UptoComplete | day07/src/rules.rs:24-44 | a bag found in any generation up to `n` is collected |
| Day07.LevelRank | day07/src/rules.rs:24-44 | when the bags that eventually hold the target are ranked below their holders, a bag `n` generations out ranks at least `n` above the target |
| Day07.RankedAcyclic | day07/src/rules.rs:24-44 | with the holders of the target ranked, the target never eventually holds itself |
| Day07.EmptyLevelStays | day07/src/rules.rs:37-43 | once a generation finds nothing, every later one finds nothing |
| Day07.EventuallyExtends | day07/src/rules.rs:29-35 | a bag whose rule lists the bag, or lists a holder of it, eventually holds it |
| Day07.HoldersOf | day07/src/rules.rs:26-35 | one scan over all rules finds exactly the bags listing some search target |
| Day07.CanContain | day07/src/rules.rs:14-47 | `can_contain` returns exactly the bags that eventually hold the bag; it needs only the holders of the bag to be free of cycles, so cycles elsewhere are allowed |
| Day07.CycleElsewhere | day07/src/rules.rs:14-47 | a rule set with a cycle away from the target still meets the precondition of `CanContain`, and its holders are found |
| Day07.UptoAll | day07/src/rules.rs:37-43 | when a generation finds nothing, the bags collected are exactly those that eventually hold the bag |
| Day07.ContentsCount | day07/src/rules.rs:49-67 | for a bag whose contents, reached downwards, are free of cycles: a bag without a rule holds nothing; a bag with one holds at least the bags it lists directly |
| Day07.BelowShift | day07/src/rules.rs:57-61 | what lies `n` steps below a listed sub-bag lies `n + 1` steps below its holder |
| Day07.BelowRankedStep | day07/src/rules.rs:57-61 | a ranking of what lies below a bag ranks what lies below each listed sub-bag, and the sub-bag below the bag |
| Day07.ContentsCountRankFree | day07/src/rules.rs:49-67 | the count does not depend on which ranking witnesses the absence of cycles |
| Day07.SumContentsRankFree | day07/src/rules.rs:57-61 | the sum over listed sub-bags does not depend on the ranking either |
| Day07.DirectCount | day07/src/rules.rs:57-61 | the sum of the listed counts; it bounds the contents from below in `ContentsCount` and `SumContents` |
| Day07.SumContents | day07/src/rules.rs:57-61 | each listed sub-bag contributes at least its own count |
| Day07.NoOtherBagsHoldsNothing | day07/src/rules.rs:49-67 | a bag whose rule is `no other bags` holds nothing |
| Day07.HoldingOnlyEmptyBags | day07/src/rules.rs:49-67 | a bag holding only bags without rules holds exactly the bags it lists |
| Day07.SumOfEmptyBags | day07/src/rules.rs:57-61 | sub-bags without rules contribute exactly their counts |
| Day07.BagInfoOfWords | day07/src/rules.rs:213-227 | the first word is the adjective and the second the colour; fewer than two words is the `unwrap` panic, an absent value |
| Day07.ParseBagInfoWords | day07/src/rules.rs:229-232 | a text starting with adjective and colour gives back that bag |
| Day07.ParseBagCount | day07/src/rules.rs:168-191 | a text containing `no other bags` gives the default count |
| Day07.ParseBagCountWords | day07/src/rules.rs:168-191 | a decimal count followed by a bag parses to that count and bag |
| Day07.ParseRule | day07/src/rules.rs:129-158 | a parsed rule's line ends in `.`, holds `contain `, and gives one count per `, `-separated piece |
| Day07.ToMap | day07/src/rules.rs:70-87 | `collect` into a `HashMap`; its keys and its last-line-wins values are stated by `ToMapKeys` and `LastRuleWins` |
| Day07.ToMapKeys | day07/src/rules.rs:70-87 | there is a rule for exactly the bags some line names |
| Day07.LastRuleWins | day07/src/rules.rs:70-87 | a bag named on several lines keeps the rule of the last one, as `collect` into a map does |
| Day07.ParseRules | day07/src/rules.rs:70-87 | the rules parse iff every line does |
| Day08.Swapped | day08/src/main.rs:56-60 | `jmp` and `nop` trade places keeping sign and value |
| Day08.SwappedInvolution | day08/src/main.rs:56-60 | swapping twice gives the instruction back |
| Day08.SwapAt | day08/src/main.rs:56-60 | only the chosen instruction changes, and it is swapped |
| Day08.TryChange | day08/src/main.rs:69-86 | `Some(idx)` exactly when swapping at `idx` makes a fresh run end past the program; `None` at an `acc` |
| Day08.RepairPositions | day08/src/main.rs:44-52 | the collected positions are exactly the repairing swaps, ascending |
| Day08.FixLoopedInstructions | day08/src/main.rs:40-67 | with exactly one repairing swap, the result is the program with that swap applied, and it runs to its end |
| Day08BootCode.SignedValue | day08/src/boot_code.rs:58-63 | the value is the magnitude with the sign applied |
| Day08BootCode.GetValue | day08/src/boot_code.rs:49-56 | `acc` gives its amount; `nop` and `jmp` give their magnitude, negative exactly when the sign is minus (for the parser's form) |
| Day08BootCode.Show | day08/src/boot_code.rs:99-103 | the printed instruction is the name and the signed value, split by one space; the second word reads back as the value |
| Day08BootCode.ParseInstruction | day08/src/boot_code.rs:65-97 | accepted iff there are at least two words, the second is a signed number and the first is `nop`, `acc` or `jmp`; fewer words are malformed, a bad number is a parse error, an unknown name is reported with the line; the value is the second word |
| Day08BootCode.ParseShow | day08/src/boot_code.rs:65-103 | a printed instruction parses back to itself |
| Day08BootCode.Numbered | day08/src/boot_code.rs:13 | each line is paired with its index |
| Day08BootCode.ParseInstructionList | day08/src/boot_code.rs:7-16 | the list parses iff every line does, one instruction per line in order |
| Day08BootCode.ParseInstructionListError_FirstLine | day08/src/boot_code.rs:7-16 | a failed list names the first bad line and that line's error |
| Day08BootCode.Step | day08/src/boot_code.rs:123-139 | `jmp` moves the counter by its value, others by one; only `acc` changes the accumulator |
| Day08BootCode.Range | day08/src/boot_code.rs:141-157 | the valid counters of a program are `0..n` |
| Day08BootCode.RunFrom | day08/src/boot_code.rs:141-157 | a run stopping at a repeat stops inside the program; one stopping at the end stops outside it |
| Day08BootCode.RunFromStops | day08/src/boot_code.rs:141-157 | the counters run by the time the run stops stay inside the program; a repeat is reported only on a counter that has run, and the end only on a counter past the program that has not; a counter past the end ends the run at once with the current accumulator |
| Day08BootCode.Machine.constructor | day08/src/boot_code.rs:116-120 | the default machine starts at counter 0 and accumulator 0 |
| Day08BootCode.Machine.RunInstruction | day08/src/boot_code.rs:123-139 | the machine's new counter and accumulator are the instruction's step |
| Day08BootCode.Machine.RunTillTerm | day08/src/boot_code.rs:141-157 | the method stops where the run does, with the reason and the final accumulator |
| Text.ParseNumberLines | day09/src/main.rs:22-24 | `parse_input` (the same in day 10): one number per line in order, an error iff some line is not a number |
| Day09.PairWith | day09/src/main.rs:54-58 | the inner scan finds a partner for `prev[a]` iff some later entry adds up with it to the target |
| Day09.AnyPairFrom | day09/src/main.rs:54-60 | the flattened pair scan from `a` on finds a pair iff one exists at distinct positions |
| Day09.AnyPairStep | day09/src/main.rs:54-60 | a pair from `a` on either starts at `a` or lies wholly after it |
| Day09.IsSumInPreviousX | day09/src/main.rs:43-61 | the pair scan over the `x` entries before `position`; `IsSumInPreviousXSpec` states what it decides |
| Day09.IsSumInPreviousXSpec | day09/src/main.rs:43-61 | true iff two entries at different positions among the `x` before `position` add up to the entry at `position` |
| Day09.WindowPairs | day09/src/main.rs:43-61 | a pair inside the window slice is a pair of the input before `position` |
| Day09.FirstWrongIndex | day09/src/main.rs:31-39 | the first index from the start on whose entry fails the check, every earlier index passing; `None` iff all pass |
| Day09.FindFirstWrongNumber | day09/src/main.rs:31-39 | the entry at the first failing index after the preamble, or `None` iff every entry after the preamble passes |
| Day09.FindSetAsWritten | day09/src/main.rs:71-85 | the loops as written: the first run of at least three entries, ending before the last entry, that adds up to `number`, or `0..0` |
| Day09.AsWrittenMissesPairs | day09/src/main.rs:76 | a run of two entries adding up to the number is never found |
| Day09.AsWrittenMissesLastEntry | day09/src/main.rs:76 | a run ending at the last entry is never found |
| Day09.FindSetForNumber | day09/src/main.rs:68-85 | the first run, in start-then-end order, of at least two entries adding up to `number`, or `0..0` iff there is none |
| Day09.AddLargestAndSmallest | day09/src/main.rs:88-96 | the smallest plus the largest entry |
| Day09.SolveEncryptionWeakness | day09/src/main.rs:64-67 | the corrected search: the smallest plus the largest entry of the first run, in start-then-end order, of at least two entries adding up to `number` |
| Day09.SolveEncryptionWeaknessAsWritten | day09/src/main.rs:64-85 | with the loops as written: the smallest plus the largest entry of the first run of at least three entries, ending before the last entry, adding up to `number` |
| Day10.PadJoltages | day10/src/main.rs:10-13 | the joltages plus the outlet 0 and the device 3 above the largest, sorted |
| Day10.GapCountsTotal | day10/src/main.rs:38-51 | when every gap is 1, 2 or 3 the three counts add up to the number of gaps |
| Day10.CountGaps | day10/src/main.rs:44-50 | slot `d - 1` of the array counts the neighbours exactly `d` apart |
| Day10.GetDifferences | day10/src/main.rs:38-51 | the gap counts of the sorted input |
| Day10.GetProductDifferences | day10/src/main.rs:33-36 | the number of 1-gaps times the number of 3-gaps |
| Day10.ReceivedNear | day10/src/main.rs:75-88 | on a falling list what a value has received from the processed values is what its neighbours 1 to 3 above it hand on |
| Day10.ReceivedStable | day10/src/main.rs:75-88 | values processed after a value are smaller and hand it nothing |
| Day10.ReceivedComplete | day10/src/main.rs:63-88 | once every larger value is processed the storage of a value holds its number of chains to the largest |
| Day10.AboveIsProcessed | day10/src/main.rs:63-73 | in a falling list the values above an entry are the ones before it |
| Day10.Reversed | day10/src/main.rs:67 | the list reversed |
| Day10.DescendingOrder | day10/src/main.rs:67 | sorting and reversing keeps the values, starts at the largest, ends at the smallest, and falls strictly when no value repeats |
| Day10.Storage.constructor | day10/src/main.rs:100-104 | a new storage is empty |
| Day10.Storage.Get | day10/src/main.rs:106-111 | a key never set reads 0; otherwise its stored count |
| Day10.Storage.Set | day10/src/main.rs:113-115 | one key is overwritten, the others keep their counts |
| Day10.Storage.Add | day10/src/main.rs:117-120 | one key is raised by `to_add`, the others keep their counts |
| Day10.MatchesStep | day10/src/main.rs:75-88 | handing on a value extends what every value has received by one more processed value |
| Day10.MatchesEnd | day10/src/main.rs:91-92 | after all values the smallest holds its number of chains |
| Day10.HandDown | day10/src/main.rs:76-87 | the inner pass adds the value's count to each entry 1 to 3 below it and leaves the value's own count alone |
| Day10.HandAllDown | day10/src/main.rs:76-88 | for distinct values listed largest first, each entry ends with its starting count plus the counts handed down by the values 1 to 3 above it |
| Day10.FindChains | day10/src/main.rs:53-93 | without repeated values the result is the number of chains from the smallest to the largest value with steps of 1 to 3 |
| Day10.FindChainsExample | day10/src/main.rs:128-131 | the example adapters chain in 8 ways |
| Day11.RoundsKeepShape | day11/src/cells.rs:29-121 | both rounds keep the map well formed |
| Day11.Iterate | day11/src/main.rs:31-44 | any number of rounds keeps the map well formed |
| Day11.RunTilNoChange | day11/src/main.rs:31-44 | the returned map is one the round leaves unchanged, reached after fewer than `fuel` rounds; a map that is already stable is returned as it is; `None` only when every round changed the map |
| Day11Cells.GetAt | day11/src/cells.rs:155-172 | off the map (negative or past the end) the cell is `Invalid`; on it, the stored cell |
| Day11Cells.GetAtInvalid | day11/src/cells.rs:155-172 | for a parsed map `Invalid` is answered exactly off the map |
| Day11Cells.SetAt | day11/src/cells.rs:174-179 | the map keeps its shape and only the one cell changes |
| Day11Cells.DirectionsComplete | day11/src/cells.rs:39-48 | the nested offset loops visit the eight non-zero offsets, each once |
| Day11Cells.DirectionIndex | day11/src/cells.rs:39-48 | the loops have visited at most eight offsets |
| Day11Cells.DirectionStep | day11/src/cells.rs:39-48 | visiting a non-zero offset moves one place along the offsets |
| Day11Cells.AdjacentOccupied | day11/src/cells.rs:38-50 | at most one count per offset |
| Day11Cells.CountAdjacent | day11/src/cells.rs:38-50 | the loops count the occupied cells among the eight around `(x, y)` |
| Day11Cells.Look | day11/src/cells.rs:135-153 | looking never answers `Invalid` |
| Day11Cells.RayShift | day11/src/cells.rs:135-153 | step `k + 1` along a ray is step `k` from the next cell |
| Day11Cells.LookFirstStop | day11/src/cells.rs:135-153 | the answer is the first cell along the ray that is not floor, with a position off the map read as `Floor` |
| Day11Cells.LookAt | day11/src/cells.rs:135-153 | the stepping loop answers what the ray definition does |
| Day11Cells.VisibleOccupied | day11/src/cells.rs:96-106 | at most one count per direction |
| Day11Cells.CountVisible | day11/src/cells.rs:96-106 | the loops count the directions whose first seat in sight is occupied |
| Day11Cells.Rule | day11/src/cells.rs:52-60 | floor and `Invalid` stay; a cell becomes occupied iff it is empty with no occupied neighbour or occupied with fewer than the threshold; it becomes empty iff occupied with at least the threshold or empty with some occupied neighbour |
| Day11Cells.SameCells | day11/src/cells.rs:10-15 | two maps of the same shape holding the same cells are equal |
| Day11Cells.Next1 | day11/src/cells.rs:29-65 | the part 1 round keeps the shape and sets every cell by the rule with adjacent counts and threshold 4 |
| Day11Cells.Next2 | day11/src/cells.rs:84-121 | the part 2 round keeps the shape and sets every cell by the rule with seats in sight and threshold 5 |
| Day11Cells.NextKeepsShape | day11/src/cells.rs:29-121 | a round keeps the shape and the floor and introduces no `Invalid` cell |
| Day11Cells.StepPart1 | day11/src/cells.rs:29-65 | `step_part_1`, writing into a copy while reading the old map, yields the part 1 round |
| Day11Cells.StepPart2 | day11/src/cells.rs:84-121 | `step_part_2` yields the part 2 round |
| Day11Cells.StableIff1 | day11/src/cells.rs:29-65 | a part 1 round changes nothing iff no empty seat lacks occupied neighbours and no occupied seat has four or more |
| Day11Cells.StableIff2 | day11/src/cells.rs:84-121 | a part 2 round changes nothing iff no empty seat sees no occupied seat and no occupied seat sees five or more |
| Day11Cells.CountInState | day11/src/cells.rs:123-130 | the count is zero iff no cell is in that state |
| Day11Cells.ParseCellState | day11/src/cells.rs:231-241 | `.`, `L` and `#` are floor, empty and occupied; any other character is an error naming it |
| Day11Cells.ParseShowCellState | day11/src/cells.rs:220-241 | every parseable cell reads back from its printed character |
| Day11Cells.ParseCellMap | day11/src/cells.rs:182-211 | height is the number of lines and width the first line's length; cells follow the characters; an error iff some character is unknown |
| Day12Ship.TurnsCancel | day12/src/ship.rs:16-52 | a left and a right turn of a direction undo each other |
| Day12Ship.HorDir.TurnLeft | day12/src/ship.rs:17-22 | east turns to north and west to south; `TurnsCancel` states that a right turn undoes it |
| Day12Ship.HorDir.TurnRight | day12/src/ship.rs:24-29 | east turns to south and west to north |
| Day12Ship.VerDir.TurnLeft | day12/src/ship.rs:39-44 | north turns to west and south to east |
| Day12Ship.VerDir.TurnRight | day12/src/ship.rs:46-51 | north turns to east and south to west |
| Day12Ship.HorTurnLeft | day12/src/ship.rs:66-72 | a left turn keeps the distance, and what was east becomes north |
| Day12Ship.HorTurnRight | day12/src/ship.rs:74-80 | a right turn keeps the distance, and what was east becomes south |
| Day12Ship.VerTurnLeft | day12/src/ship.rs:83-88 | a left turn keeps the distance, and what was north becomes west |
| Day12Ship.VerTurnRight | day12/src/ship.rs:90-95 | a right turn keeps the distance, and what was north becomes east |
| Day12Ship.PartTurnsCancel | day12/src/ship.rs:66-95 | four turns one way, or a left and a right turn, give the half back |
| Day12Ship.FaceLeft | day12/src/ship/part1.rs:79-93 | a quarter turn to the left changes the facing |
| Day12Ship.FaceRight | day12/src/ship/part1.rs:95-109 | a quarter turn to the right changes the facing |
| Day12Ship.FaceTurnsCancel | day12/src/ship/part1.rs:79-109 | left and right quarter turns undo each other; four left turns are none; one right turn is three left turns |
| Day12Ship.RotateLeftLast | day12/src/ship/part1.rs:79-93 | the last of several left turns can be taken at the end |
| Day12Ship.RotationsCancel | day12/src/ship/part1.rs:79-109 | `k` right turns undo `k` left turns |
| Day12Ship.RotationsPeriodic | day12/src/ship/part1.rs:79-109 | four more quarter turns either way change nothing |
| Day12Ship.ParseKind | day12/src/ship.rs:140-155 | exactly the letters `NSEWLRF` are kinds; any other is an error naming it |
| Day12Ship.ParseMovementDirection | day12/src/ship.rs:112-127 | a line parses iff its first letter is a kind and the rest a number; an unknown letter is reported first; the general input error never occurs |
| Day12Ship.ParseShowMovementDirection | day12/src/ship.rs:112-127 | a letter followed by a written number parses back to that instruction |
| Day12Ship.ParseMovementDirections | day12/src/main.rs:32-36 | the list parses iff every line does, one instruction per line |
| Day12Part1.NavigateShift | day12/src/ship/part1.rs:112-124 | starting further along shifts the end by the same amount and does not change the facing |
| Day12Part1.StepSeparates | day12/src/ship/part1.rs:18-28 | turns leave the place alone and moves leave the facing alone |
| Day12Part1.Example | day12/src/ship/part1.rs:112-124 | the puzzle's example ends 17 east and 8 south, facing south |
| Day12Part1.Part1Position.constructor | day12/src/ship/part1.rs:126-140 | the default position is the origin facing east |
| Day12Part1.Part1Position.ManhattanDistance | day12/src/ship/part1.rs:14-16 | the distance is the sum of the absolute east and north readings |
| Day12Part1.Part1Position.MoveHorizontal | day12/src/ship/part1.rs:30-40 | the signed east reading changes by `value` toward `to`; a half ending at zero keeps its direction; nothing else changes |
| Day12Part1.Part1Position.MoveVertical | day12/src/ship/part1.rs:50-60 | the signed north reading changes by `value` toward `to`; nothing else changes |
| Day12Part1.Part1Position.MoveForward | day12/src/ship/part1.rs:70-77 | the ship moves `value` the way it faces |
| Day12Part1.Part1Position.TurnLeft | day12/src/ship/part1.rs:79-93 | the facing turns left `value / 90` times and the place stays |
| Day12Part1.Part1Position.TurnRight | day12/src/ship/part1.rs:95-109 | the facing turns right `value / 90` times and the place stays |
| Day12Part1.Part1Position.MoveBy | day12/src/ship/part1.rs:18-28 | one instruction moves the reading as the navigation step says |
| Day12Part1.Part1Position.MoveAll | day12/src/ship/part1.rs:118-124 | `+=` over the instructions navigates through all of them in order |
| Day12Part1.Part1Distance | day12/src/main.rs:16-22 | part one is the grid distance of the end of the navigation from the default position |
| Day12Part2.RotationsKeepDistance | day12/src/ship/part2.rs:96-122 | rotating the waypoint keeps its grid distance, and two quarter turns either way are a half turn |
| Day12Part2.VecRotationsCancel | day12/src/ship/part2.rs:96-122 | `k` right turns of the waypoint undo `k` left turns |
| Day12Part2.VecLeftLast | day12/src/ship/part2.rs:96-108 | the last of several left turns can be taken at the end |
| Day12Part2.StepMovesShipOnlyForward | day12/src/ship/part2.rs:16-26 | only `F` moves the ship, only the other instructions move the waypoint, and turns keep its distance |
| Day12Part2.Example | day12/src/ship/part2.rs:131-137 | the puzzle's example ends 214 east and 72 south |
| Day12Part2.ForwardHorizontal | day12/src/ship/part2.rs:68-80 | one pass adds the waypoint's signed east offset to the ship's, across the sign change |
| Day12Part2.ForwardVertical | day12/src/ship/part2.rs:82-92 | one pass adds the waypoint's signed north offset to the ship's |
| Day12Part2.Part2Position.constructor | day12/src/ship/part2.rs:139-162 | the ship starts at the origin with the waypoint 10 east and 1 north |
| Day12Part2.Part2Position.ManhattanDistance | day12/src/ship/part2.rs:12-14 | the ship's grid distance from the origin |
| Day12Part2.Part2Position.MoveHorizontal | day12/src/ship/part2.rs:28-38 | the waypoint's signed east offset changes by `value` toward `to`; the ship stays |
| Day12Part2.Part2Position.MoveVertical | day12/src/ship/part2.rs:48-58 | the waypoint's signed north offset changes by `value` toward `to`; the ship stays |
| Day12Part2.Part2Position.MoveForward | day12/src/ship/part2.rs:68-94 | the ship moves `value` times by the waypoint's offset |
| Day12Part2.Part2Position.TurnLeft | day12/src/ship/part2.rs:96-108 | the waypoint rotates left about the ship `value / 90` times; the ship stays |
| Day12Part2.Part2Position.TurnRight | day12/src/ship/part2.rs:110-122 | the waypoint rotates right about the ship `value / 90` times; the ship stays |
| Day12Part2.Part2Position.MoveBy | day12/src/ship/part2.rs:16-26 | one instruction moves ship and waypoint as the navigation step says |
| Day12Part2.Part2Position.MoveAll | day12/src/ship/part2.rs:131-137 | `+=` over the instructions navigates through all of them in order |
| Day12Part2.Part2Distance | day12/src/main.rs:24-29 | part two is the ship's grid distance after navigating from the default position |
| Day13.NumericEntries | day13/src/main.rs:39-45 | the kept ids are entries that parse, no more than there are entries |
| Day13.IndexedBuses | day13/src/main.rs:74-83 | each kept pair is a position whose entry parses to the id, positions ascending |
| Day13.IndexedBusesComplete | day13/src/main.rs:74-83 | no numeric entry is skipped |
| Day13.Ids | day13/src/main.rs:74-83 | the ids of an indexed list, in order |
| Day13.SameBuses | day13/src/main.rs:32-83 | both parsers keep the same ids in the same order; part two only adds the positions |
| Day13.ParseInputPart1 | day13/src/main.rs:32-48 | the timestamp of the first line and the numeric ids of the second |
| Day13.ParseInputPart2 | day13/src/main.rs:74-83 | every numeric entry of the second line with its position, positions ascending |
| Day13.Wait | day13/src/main.rs:59 | `bus - timestamp % bus` lies in `1..=bus` |
| Day13.FirstLeastWait | day13/src/main.rs:57-61 | `min_by` picks a bus of least wait, the first one on ties |
| Day13.Part1 | day13/src/main.rs:56-69 | the result is a listed bus with the least wait, waiting between 1 and its id, leaving at timestamp plus wait |
| Day13.NextDeparture | day13/src/main.rs:59 | timestamp plus the wait as written is the first departure strictly after the timestamp |
| Day13.Part1Earliest | day13/src/main.rs:56-69 | the chosen bus departs at the earliest time and no bus departs strictly between the timestamp and then |
| Day13.WaitAtOrAfter | day13/src/main.rs:59 | the intended wait is below the id, zero iff the bus leaves at the timestamp, and otherwise the wait as written |
| Day13.NextDepartureAtOrAfter | day13/src/main.rs:59 | timestamp plus the intended wait is the first departure at or after the timestamp |
| Day13.FirstLeastWaitAtOrAfter | day13/src/main.rs:57-61 | the first bus of least intended wait |
| Day13.Part1AtOrAfter | day13/src/main.rs:56-69 | with the intended wait: a listed bus of least wait that departs at the reported time |
| Day13.Part1AtOrAfterEarliest | day13/src/main.rs:56-69 | no bus departs at or after the timestamp and before the intended earliest time |
| Day13.Part1SkipsDepartureAtTimestamp | day13/src/main.rs:59 | at timestamp 10 with buses 5 and 7, bus 5 leaves at once but part one as written answers bus 7 after 4 minutes |
| Day13.RustRem | day13/src/main.rs:87 | Rust's `%` agrees with the Euclidean remainder on non-negative dividends |
| Day13.Pow | day13/src/main.rs:85-88 | `x` to the power `n`, the value `MulFoldPow` relates the fold to |
| Day13.MulFold | day13/src/main.rs:85-88 | the `fold` of `inv_mod` with Rust's `%`; `MulFoldPow` states its value |
| Day13.MulFoldPow | day13/src/main.rs:85-88 | the fold over non-negative operands is the power reduced once |
| Day13.InvMod | day13/src/main.rs:85-88 | 1 when `p <= 2`, otherwise `x^(p-2) mod p` for non-negative `x` |
| Day13.Moduli | day13/src/main.rs:91 | the ids as integers |
| Day13.ProductFactor | day13/src/main.rs:91 | any id can be factored out of the product |
| Day13.Product | day13/src/main.rs:91 | `product` of the ids; `ProductFactor` and `ProductPositive` state its properties |
| Day13.Cofactor | day13/src/main.rs:96 | `prod / val` is the product of the other ids |
| Day13.CofactorMultiple | day13/src/main.rs:96 | every other id divides `prod / val` |
| Day13.Terms | day13/src/main.rs:93-97 | one summand `-pos * (prod / val) * inv_mod(prod / val, val)` per bus |
| Day13.Term | day13/src/main.rs:96 | one summand of `part_2`; `OtherTermVanishes` and `UnitFactor` state its residues |
| Day13.Part2 | day13/src/main.rs:90-99 | the result lies in `0..prod` |
| Day13.ProductPositive | day13/src/main.rs:91 | a product of positive ids is positive |
| Day13.SumMod | day13/src/main.rs:97-98 | a sum is congruent to its one summand that is not a multiple |
| Day13.OtherTermVanishes | day13/src/main.rs:96 | another bus's summand is a multiple of this bus's id |
| Day13.UnitFactor | day13/src/main.rs:96 | a factor whose product with its inverse is 1 drops out modulo the id |
| Day13.ReduceKeepsMod | day13/src/main.rs:98 | `rem_euclid(prod)` keeps the remainder modulo every id |
| Day13.Part2Departs | day13/src/main.rs:90-99 | when each cofactor's inverse is correct, bus `j` departs `pos` minutes after the result |
| Day14Bits.BinaryString | day14/src/program/instruction.rs:81 | the digits of the 36-bit text are binary and there are exactly `width` of them |
| Day14Bits.ParseBinary | day14/src/program/instruction.rs:93 | `from_str_radix(_, 2)` of `n` binary digits is below `2^n` |
| Day14Bits.ParseBinaryString | day14/src/program/instruction.rs:81-93 | reading back the low bits gives the value modulo `2^width` |
| Day14Bits.BinaryStringParse | day14/src/program/instruction.rs:81-93 | writing a binary text's value back at its width gives the text |
| Day14Bits.ParseBinaryStringSmall | day14/src/program/instruction.rs:81-93 | values below `2^width` survive the round trip unchanged |
| Day14Bits.BitLength | day14/src/program/instruction.rs:81 | `{:b}` writes at least one digit, enough to hold the value |
| Day14Bits.BitLengthBound | day14/src/program/instruction.rs:81 | a value below `2^n` needs at most `n` digits |
| Day14Bits.Format036b | day14/src/program/instruction.rs:81 | `{:036b}` writes at least 36 binary digits |
| Day14Bits.Format036bSmall | day14/src/program/instruction.rs:81 | below `2^36` it writes exactly the 36 low bits |
| Day14Floating.AppendAll | day14/src/program/instruction.rs:119-120 | each prefix with the piece appended, in order |
| Day14Floating.Branch | day14/src/program/instruction.rs:115-121 | one pass of the inner loop doubles the list of prefixes |
| Day14Floating.BranchIndex | day14/src/program/instruction.rs:118-121 | prefix `j / 2` sits at `j`, followed by `0` when `j` is even and by `1` when it is odd, then by the piece |
| Day14Floating.ExpandFixedTail | day14/src/program/instruction.rs:109-122 | a tail without `X` is copied onto every expansion |
| Day14Floating.BranchAppend | day14/src/program/instruction.rs:118-121 | appending the piece after branching is branching with the piece |
| Day14Floating.ExpandChunk | day14/src/program/instruction.rs:114-122 | one pass of the outer loop over a floating bit and the piece after it |
| Day14Floating.ExpandFixed | day14/src/program/instruction.rs:111-112 | the first piece, which has no `X`, stands for itself alone |
| Day14Floating.ExpandCount | day14/src/program/instruction.rs:109-122 | a pattern with `k` floating bits has `2^k` expansions |
| Day14Floating.ExpandSound | day14/src/program/instruction.rs:109-122 | every expansion fits the pattern |
| Day14Floating.ExpandComplete | day14/src/program/instruction.rs:109-122 | every text that fits the pattern is an expansion |
| Day14Floating.ExpandPairDistinct | day14/src/program/instruction.rs:114-122 | two positions of an expansion hold different texts when the prefixes were distinct |
| Day14Floating.ExpandDistinct | day14/src/program/instruction.rs:109-122 | no expansion is listed twice |
| Day14Instruction.DefaultMask | day14/src/program/instruction.rs:131-137 | every position of the default mask is `X` |
| Day14Instruction.ApplyV1 | day14/src/program/instruction.rs:80-94 | the result fits 36 bits; each bit is `0` or `1` where the mask says so and the value's bit where it says `X` |
| Day14Instruction.ApplyV1Fixed | day14/src/program/instruction.rs:80-94 | a 36-bit value whose bits already agree with every `0` and `1` of the mask is left unchanged |
| Day14Instruction.ApplyV1Idempotent | day14/src/program/instruction.rs:80-94 | masking twice is masking once |
| Day14Instruction.ApplyV1Default | day14/src/program/instruction.rs:80-94 | the default mask leaves a 36-bit value alone |
| Day14Instruction.FloatingPattern | day14/src/program/instruction.rs:97-107 | the pattern has 36 positions |
| Day14Instruction.Addresses | day14/src/program/instruction.rs:96-128 | one address per expansion of the pattern |
| Day14Instruction.CountFloating | day14/src/program/instruction.rs:102-106 | the pattern has an `X` wherever the mask has `DontCare` and nowhere else |
| Day14Instruction.AddressesCount | day14/src/program/instruction.rs:96-128 | a write reaches `2^k` addresses for `k` floating bits |
| Day14Instruction.AddressesDistinct | day14/src/program/instruction.rs:96-128 | no address is listed twice |
| Day14Instruction.AddressesSound | day14/src/program/instruction.rs:96-128 | every listed address agrees with the mask's `1` bits and the value's bits under `0` |
| Day14Instruction.AddressesComplete | day14/src/program/instruction.rs:96-128 | every address the mask allows is listed |
| Day14Instruction.AddressesSpec | day14/src/program/instruction.rs:96-128 | the listed addresses are exactly the allowed ones, each once, `2^k` of them |
| Day14Instruction.BranchAll | day14/src/program/instruction.rs:114-122 | every prefix is followed by `0` and the chunk, then by `1` and the chunk, in the prefixes' order |
| Day14Instruction.ExpandPattern | day14/src/program/instruction.rs:109-123 | the strings built are the expansion of the pattern: every way of writing `0` or `1` for each `X`, in order |
| Day14Instruction.ApplyV2 | day14/src/program/instruction.rs:96-128 | the loop over the pieces lists exactly the allowed addresses, each once, `2^k` of them |
| Day14Instruction.ParseMaskValue | day14/src/program/instruction.rs:184-195 | `0`, `1` and `X` are accepted and printed back as the same character; anything else is an error naming it |
| Day14Instruction.ParseMask | day14/src/program/instruction.rs:139-168 | malformed without ` = `; accepted iff the text after it is 36 mask characters, which the mask then holds; the first unknown character is reported; 36-character texts aside, known characters of another count give `MaskTooShort` with that count |
| Day14Instruction.Bracketed | day14/src/program/instruction.rs:53-56 | found iff the text starts with `mem[` and ends with `]`, and the text is rebuilt from what lies between |
| Day14Instruction.BracketedOf | day14/src/program/instruction.rs:53-56 | what was put between `mem[` and `]` is found again |
| Day14Instruction.ParseWrite | day14/src/program/instruction.rs:41-71 | malformed without brackets; a destination error before a missing value; a value that does not parse gives `ParseValueError`; accepted iff both numbers parse, and they are the address and the value |
| Day14Instruction.ParseInstruction | day14/src/program/instruction.rs:17-31 | `mask` lines go to the mask parser, `mem` lines to the write parser, anything else is malformed |
| Day14Instruction.ParseInstructionList | day14/src/program/instruction.rs:4-8 | accepted iff every line parses, one instruction per line in order |
| Day14Instruction.ParseShowMask | day14/src/program/instruction.rs:139-168 | a printed mask line parses back to the same mask |
| Day14Instruction.SplitShowWrite | day14/src/program/instruction.rs:48 | a printed write line splits into its destination and its value |
| Day14Instruction.ParseShowWrite | day14/src/program/instruction.rs:41-71 | a printed write line parses back to the same write |
| Day14Program.WriteAll | day14/src/program.rs:37-39 | the written addresses hold the value, other cells are kept, no other cell appears |
| Day14Program.WriteAllSnoc | day14/src/program.rs:37-39 | one more pass of the loop is one more insert |
| Day14Program.Step | day14/src/program.rs:24-42 | a mask replaces the mask; a version 1 write stores the masked value at the address; a version 2 write stores the value at every listed address |
| Day14Program.RunAppend | day14/src/program.rs:13-21 | running two lists one after the other is running their concatenation |
| Day14Program.Run | day14/src/program.rs:13-21 | `apply_list` as a function: the state after applying the list in order; `RunAppend` and `LastWriteWinsV1` state its behaviour |
| Day14Program.RunV1Elsewhere | day14/src/program.rs:24-31 | version 1 instructions that do not write to an address leave it alone |
| Day14Program.LastWriteWinsV1 | day14/src/program.rs:24-31 | the last version 1 write to an address decides its value, masked by the mask in force then |
| Day14Program.RunV1Values36 | day14/src/program.rs:24-31 | version 1 only ever stores 36-bit values |
| Day14Program.StepV2Write | day14/src/program.rs:33-42 | a version 2 write stores its value at exactly the allowed addresses and keeps every other cell |
| Day14Program.SumValuesRemove | day14/src/program.rs:44-46 | the sum does not depend on the order the cells are taken in |
| Day14Program.Memory.constructor | day14/src/program.rs:7-11 | `Memory::default`: the default mask and no cell written |
| Day14Program.Memory.ApplyV1 | day14/src/program.rs:24-31 | the new state is one version 1 step from the old |
| Day14Program.Memory.ApplyV2 | day14/src/program.rs:33-42 | the new state is one version 2 step from the old |
| Day14Program.Memory.Sum | day14/src/program.rs:44-46 | the sum of every stored value |
| Day14Program.ApplyList | day14/src/program.rs:13-21 | the memory ends where running the list from its old state ends |
| Day15.LastIndexOf | day15/src/spoken_number.rs:29-32 | the index of the last occurrence, or none exactly when the number never occurs |
| Day15.NextSaidBounds | day15/src/spoken_number.rs:29-32 | 0 for a number not said before, otherwise a positive distance smaller than the number of turns |
| Day15.Game | day15/src/spoken_number.rs:25-39 | `n` numbers, starting with the starting numbers |
| Day15.GameStep | day15/src/spoken_number.rs:25-39 | when the first `k` turns are known and the next number is the one the rule gives for the last number's previous turn, the first `k + 1` turns are known |
| Day15.GamePrefix | day15/src/spoken_number.rs:25-39 | a longer game extends a shorter one |
| Day15.Example | day15/src/spoken_number.rs:77-89 | the starting numbers 0, 3, 6 give 0, 3, 6, 0, 3, 3, 1, 0, 4, 0 |
| Day15.Take2 | day15/src/spoken_number.rs:55-57 | the loop leaves the first two turns of a longer list and leaves a shorter one alone |
| Day15.Recent | day15/src/spoken_number.rs:43-60 | at most two turns on which the number was said, newest first |
| Day15.RecentLast | day15/src/spoken_number.rs:29-32 | for the last number, the newest turn is the last one and a second turn is there exactly when it was said before |
| Day15.RecentFirst | day15/src/spoken_number.rs:48-60 | the newest remembered turn is the last occurrence |
| Day15.RecentAppend | day15/src/spoken_number.rs:48-60 | saying one more number changes only that number's remembered turns |
| Day15.SaidAfterStart | day15/src/spoken_number.rs:29-32 | after the starting numbers, the next one is the difference of the last number's two newest turns, or 0 |
| Day15.RemembersAppend | day15/src/spoken_number.rs:48-60 | `append` keeps the map remembering the game |
| Day15.InitialConsistent | day15/src/spoken_number.rs:12-19 | a new game agrees with the empty list of turns |
| Day15.Advance | day15/src/spoken_number.rs:25-39 | a turn keeps the state well formed |
| Day15.StepSaidStart | day15/src/spoken_number.rs:26-27 | while starting numbers remain, the next one is said |
| Day15.StepSaid | day15/src/spoken_number.rs:25-39 | the number a turn says is the game's next number: a starting one first, then by the rule |
| Day15.Said | day15/src/spoken_number.rs:25-39 | the number `next` says from a state; `StepSaid` ties it to the game |
| Day15.StepConsistent | day15/src/spoken_number.rs:25-39 | a turn keeps the state in step with the game |
| Day15.Memory.constructor | day15/src/spoken_number.rs:42-45 | `Memory::default` remembers nothing |
| Day15.Memory.Append | day15/src/spoken_number.rs:48-60 | the position becomes the newest turn of the key, the old newest becomes second, at most two are kept, and no other key changes |
| Day15.Memory.Get | day15/src/spoken_number.rs:62-69 | the remembered turns exactly when there are two of them |
| Day15.SpokenNumber.constructor | day15/src/spoken_number.rs:12-19 | the starting numbers, no turn taken, nothing remembered |
| Day15.SpokenNumber.Next | day15/src/spoken_number.rs:25-39 | the number said is the one the game rule gives and the new state is one turn on |
| Day15.RunConsistent | day15/src/spoken_number.rs:25-39 | after `n` turns the state remembers exactly the first `n` numbers of the game |
| Day15.RunSays | day15/src/spoken_number.rs:25-39 | turn `n` says the game's `n`-th number |
| Day16Ticket.InvalidValues | day16/src/ticket.rs:172-187 | no more invalid values than values |
| Day16Ticket.InvalidValuesMembers | day16/src/ticket.rs:172-187 | the invalid values are exactly the ticket's values that lie in no range of any rule |
| Day16Ticket.InvalidValuesCount | day16/src/ticket.rs:172-187 | an invalid value is kept as often as it occurs, a valid one never |
| Day16Ticket.ValidIffNoInvalidValues | day16/src/ticket.rs:164-187 | `is_valid` holds iff `get_general_invalid_values` is empty |
| Day16Ticket.IsValid | day16/src/ticket.rs:164-170 | every value lies in some range of some rule; `ValidIffNoInvalidValues` ties it to the invalid values |
| Day16Ticket.GetGeneralInvalidValues | day16/src/ticket.rs:172-187 | the loop collects the values no range contains, in ticket order, repetitions kept |
| Day16Ticket.ValidRuleSetNonEmpty | day16/src/ticket.rs:164-170 | some rule accepts a value iff the set of rules accepting it is not empty |
| Day16Ticket.GetValidRuleFor | day16/src/ticket.rs:189-202 | exactly the names of the rules with a range containing the value, all among the rule names |
| Day16Ticket.ValidTickets | day16/src/ticket.rs:23-26 | `retain` keeps no more tickets than there were |
| Day16Ticket.ValidTicketsMembers | day16/src/ticket.rs:23-26 | the kept tickets are exactly the valid ones |
| Day16Ticket.ValidTicketsCount | day16/src/ticket.rs:23-26 | a valid ticket is kept as often as it occurs, an invalid one never |
| Day16Ticket.ValidTicketsIdempotent | day16/src/ticket.rs:23-26 | cleaning up twice is cleaning up once |
| Day16Ticket.AllInvalidValuesMember | day16/src/ticket.rs:15-21 | a value is among all invalid values iff some ticket holds it and no rule accepts it |
| Day16Ticket.AllInvalidValues | day16/src/ticket.rs:15-21 | the invalid values of the tickets, ticket after ticket; `AllInvalidValuesMember` states its members |
| Day16Ticket.ErrorRate | day16/src/ticket.rs:85-89 | the sum of all invalid values; zero on valid tickets by `AllValidNoInvalid` |
| Day16Ticket.AllValidNoInvalid | day16/src/ticket.rs:85-89 | valid tickets have no invalid value and an error rate of zero |
| Day16Ticket.CleanupClearsErrorRate | day16/src/ticket.rs:23-26 | after the cleanup the error rate of `part_1_result` is zero |
| Day16Ticket.ParseRange | day16/src/ticket.rs:225-241 | exactly two pieces around `-`, both unsigned integers, which are the bounds; a wrong piece count is malformed |
| Day16Ticket.ParseShowRange | day16/src/ticket.rs:225-241 | a written range reads back as itself |
| Day16Ticket.ParseRuleLine | day16/src/ticket.rs:213-244 | accepted iff every range after `": "` parses; the name is the text before it and the ranges are the parsed ones, in order |
| Day16Ticket.ParseRuleLineWithoutColon | day16/src/ticket.rs:214-242 | a line without `": "` has an empty range text and is malformed |
| Day16Ticket.InsertAll | day16/src/ticket.rs:211-245 | the map has one key per line, each holding the ranges of its last line |
| Day16Ticket.ParseRules | day16/src/ticket.rs:205-249 | accepted iff every line parses, and the rule names are the lines' names |
| Day16Ticket.ParseRulesLastLine | day16/src/ticket.rs:213-245 | a name's rule holds the ranges of the last line naming it, since a later `insert` replaces an earlier one |
| Day16Ticket.ParseTicket | day16/src/ticket.rs:256-275 | accepted iff exactly 20 pieces all parse, and they are the values; pieces that all parse but are not 20 give `NotEnoughValues` with the count |
| Day16Ticket.ParseShowTicket | day16/src/ticket.rs:256-275 | a written ticket of 20 values reads back as itself |
| Day16Input.NarrowAll | day16/src/ticket.rs:31-36 | narrowing keeps one candidate set per position |
| Day16Input.Candidates | day16/src/ticket.rs:30-42 | 20 candidate sets |
| Day16Input.Unnarrowed | day16/src/ticket.rs:30 | 20 sets to begin with |
| Day16Input.NarrowAllMembers | day16/src/ticket.rs:31-36 | a rule stays a candidate of a position iff it accepts that position's value on every ticket |
| Day16Input.CandidatesMembers | day16/src/ticket.rs:30-42 | the candidates of a position are exactly the rules accepting its value on every nearby ticket and on my ticket |
| Day16Input.NarrowByTicket | day16/src/ticket.rs:32-35 | the loop meets each position with the rules accepting the ticket's value there |
| Day16Input.SinglesFixed | day16/src/ticket.rs:49-61 | the names collected are exactly those alone at some position |
| Day16Input.Prune | day16/src/ticket.rs:64-70 | only fixed names are removed, and only from sets with more than one candidate |
| Day16Input.SizeSumShrinks | day16/src/ticket.rs:44-76 | a round that removes something lowers the total number of candidates |
| Day16Input.Eliminate | day16/src/ticket.rs:44-76 | when the rounds end, every position has one candidate, taken from its candidates |
| Day16Input.RoundFixedPoint | day16/src/ticket.rs:44-76 | a round that removes nothing is followed by the same round |
| Day16Input.EliminateKeepsFixed | day16/src/ticket.rs:44-76 | a name alone at a position stays so to the end |
| Day16Input.EliminateRemovesOnlyFixed | day16/src/ticket.rs:44-76 | a name is removed only from a position with several candidates, and only one that ends up alone at some position |
| Day16Input.MarkSingles | day16/src/ticket.rs:49-61 | the loop adds every name alone at some position to the checked names |
| Day16Input.RemoveMarked | day16/src/ticket.rs:64-70 | the loop prunes the checked names |
| Day16Input.TakeSingles | day16/src/ticket.rs:79-82 | the one name of each set, in order |
| Day16Input.Input.constructor | day16/src/ticket.rs:7-12 | the rules, my ticket and the nearby tickets |
| Day16Input.Input.CleanupInvalidTickets | day16/src/ticket.rs:23-26 | the valid nearby tickets are kept in order; rules and my ticket are unchanged |
| Day16Input.Input.Part1Result | day16/src/ticket.rs:85-89 | `part_1_result`: the error rate of the nearby tickets |
| Day16Input.Input.TryDetermineField | day16/src/ticket.rs:28-83 | a name for each of the 20 positions, one of its candidates and the one the elimination leaves; none exactly when the source's loop would never end |
| Day16Input.ParseNearby | day16/src/ticket.rs:128-136 | accepted iff every non-empty line parses as a ticket; then one ticket per non-empty line, in order, each with 20 values; otherwise the error of the first line that fails |
| Day16Input.NearbyLines | day16/src/ticket.rs:133-134 | the non-empty lines, in order, repeats kept, the empty ones dropped |
| Day16Input.Blocks | day16/src/ticket.rs:114 | splitting gives at least one block |
| Day16Input.ParseInput | day16/src/ticket.rs:108-143 | accepted iff the rules parse, there are three blocks, both headings are present and both tickets parts parse; then rules, my ticket and the nearby tickets come from those blocks; a rules or ticket error is passed on, a missing block or heading is malformed |
| Text.Split | day14/src/program/instruction.rs:48 | `str::split` gives at least one piece |
| Text.SplitJoin | day14/src/program/instruction.rs:48 | joining the pieces with the separator gives the text back |
| Text.SplitPiecesFree | day14/src/program/instruction.rs:48 | no piece contains the separator |
| Text.StripPrefix | day14/src/program/instruction.rs:53 | found iff the text starts with the prefix, and the prefix and the rest give the text |
| Text.StripSuffix | day14/src/program/instruction.rs:55 | found iff the text ends with the suffix, and the rest and the suffix give the text |
| Text.ParseUsize | day14/src/program/instruction.rs:57 | `parse::<usize>` succeeds exactly on an optional `+` followed by decimal digits, giving their value |
| Text.SplitWhitespace | day04/src/passport.rs:55 | every token is non-empty and holds no whitespace; `SplitWhitespaceRuns` states that they are the text's runs |
| Text.SplitWhitespaceRuns | day04/src/passport.rs:55 | the text is the tokens in order with whitespace gaps around them and at least one whitespace character between two tokens, so the tokens are exactly its maximal non-whitespace runs |
| Wrappers.CollectAll | day14/src/program/instruction.rs:154 | collecting results succeeds iff every item parses, with the parsed items in order |
| Wrappers.CollectAllFirstError | day08/src/boot_code.rs:15 | a failed collection reports the error of the first item that fails |

## Left out

- Reading input files, command-line parsing (`simple_cli`, `cli.rs`), printing, and every `main` body. These are I/O. The models start from the input text, as a string.
- `Display` implementations and `thiserror` messages. Error variants are modelled as datatypes; their message text is not.
- day08/src/main.rs lines 86-136 (`fix_looped_instructions`, `check_replace_jump_back`). This is dead code that calls functions `Machine` does not have.
- day02/src/main.rs `parse` and `check_passwords`, and day16's `Input::part_2_result`. They only combine the modelled operations and print.
- Iteration order of `HashMap` and `HashSet`. The model uses Dafny maps and sets, and no result depends on the order. `Day14Program.Memory.Sum` is stated as an order-free sum.
- `usize`/`isize` overflow. Values are unbounded integers. The deliberate `wrapping_sub` in day10/src/main.rs:81 yields a huge difference when the other value is larger. The filter rejects it, just as it rejects the model's negative difference.
- itertools' `multi_cartesian_product` and `combinations` (days 1 and 17), and `format!("{:036b}")` / `usize::from_str_radix` (day 14). These are replaced by specification functions over sequences and bit strings in `Cube`, `Day01` and `Day14Bits`.
- The kind of a `ParseIntError` (empty, invalid digit, overflow). `Text.ParseIntError` has a single value.
- The per-dimension `Position3D/4D/5D` structs and the `Dim` trait. One position type, a sequence of `D` integers, replaces them.
- The 30,000,000-turn and 2020-turn tests of day 15 are performance cases and are not restated. `Day15.Example` proves the ten-number example. The `Iterator::nth` calls of the day 15 `main` are not modelled either.
- Day07.ParseRule: states only the shape of a successful parse (the trailing `.`, the `contain ` split and one count per `, ` piece). The words of the outer bag are stated through `Day07.BagInfoOfWords` and `Day07.ParseBagCount`. A panicking `unwrap` in the source is `None`.
- Day07.CanContain: requires a ranking (`HoldersRanked`) of the bags that eventually hold the target, each above the bags it lists on the way to the target. It witnesses that no holder of the target holds itself. On such a cycle the source's loop does not end. Cycles among other bags are allowed, as `Day07.CycleElsewhere` shows.
- Day07.ContentsCount: requires a ranking (`BelowRanked`) of the bags reached downwards from the start, each above the bags it lists. On a cycle below the start the source's recursion overflows the stack. Cycles elsewhere are allowed. The count does not depend on the ranking chosen (`Day07.ContentsCountRankFree`).
- Day10.FindChains: the count is tied to the number of chains only when no value repeats. With repeated adapters, the source's map overwrites are not characterised.
- Day11.RunTilNoChange: takes a `fuel` bound on the number of rounds. `None` reports that every round changed the map. The source loops without bound.
- Day16Input.Input.TryDetermineField: returns `None` when a round of elimination changes nothing while some position does not have exactly one candidate. That covers a position left with several candidates, and one whose candidate set is or becomes empty. The source's loop then repeats forever.
- Text.IsWhitespace: only the ASCII space, tab, newline, carriage return, vertical tab and form feed count as whitespace. Rust's `split_whitespace` (day 4) also splits on the other Unicode `White_Space` characters, such as a no-break space.
- Day16Ticket.ParseRules: does not restate which line's error a failed parse reports. That follows from `Wrappers.CollectAllFirstError`.
- Day02.CheckPart2: takes passwords as ASCII and counts characters for the length test. The source compares `pwd.len()`, a byte count, before reading characters with `chars().nth(..).unwrap()`. On a non-ASCII password whose byte length passes the test but whose character count is too short, the source panics, while the model answers invalid.
- Day03.TraverseSlope: requires `SlopeFits`: a step down of at least one row that divides the height minus one, or a single-row field. Otherwise the source's last move can pass the bottom row, and `get_field`'s assertion fails.
- Day04Passport.ParsePassport: its contract gives only the length bound. Field membership is stated by `Day04Passport.ParseTokensMember`.
- Day12Ship.ParseMovementDirection: requires a non-empty line. The source slices `s[0..1]`, which panics on an empty line, and also on a first character of more than one byte, which the character-level model does not see.
- Day 12, part one: when a coordinate ends exactly at zero, the source keeps the old direction. `MoveHorizontal` and `MoveVertical` state this. `Reading()`, and with it `MoveBy`, `MoveAll` and the navigation functions, reports only the signed value, so across a whole navigation the direction of a zero coordinate is not tracked. No result depends on it.
- Day13.Part2Departs: assumes that each cofactor times its `InvMod` is 1 modulo the bus id. That is what Fermat's little theorem gives for prime ids; the theorem itself is not proved here.
- Day15.SpokenNumber: the model keeps the remaining starting numbers as a sequence, not as a `VecDeque`, and `Next` returns the number itself, not `Some(number)`. The source's iterator never returns `None`.
- Cube.ParseCells: every character other than `#` is inactive, including characters that are neither `#` nor `.`. No parse error is raised, as in the code.

## Findings

| source | as written | input that shows it | evidently intended | confidence | as-written member | corrected member |
|---|---|---|---|---|---|---|
| day09/src/main.rs:76 | the inner loop runs `idy` over `idx + 3 .. len`, so a run must have at least three entries and can never include the last entry | entries 1, 2, 5, 7 with number 3 (the run 1, 2 is missed); entries 1, 1, 1 with number 3 (the whole list is missed) | runs of at least two entries, as the comment says, up to and including the last entry (`idy` over `idx + 2 ..= len`) | not executed | Day09.FindSetAsWritten, Day09.SolveEncryptionWeaknessAsWritten, Day09.AsWrittenMissesPairs, Day09.AsWrittenMissesLastEntry | Day09.FindSetForNumber, Day09.SolveEncryptionWeakness |
| day13/src/main.rs:59 | the wait is `bus - timestamp % bus`, which is `bus` instead of 0 when a bus leaves exactly at the timestamp | timestamp 10 with buses 5 and 7: bus 5 leaves at 10, but bus 7 with a wait of 4 is reported | the wait until the first departure at or after the timestamp, `(bus - timestamp % bus) % bus` | not executed | Day13.Part1, Day13.Part1SkipsDepartureAtTimestamp | Day13.Part1AtOrAfter, Day13.Part1AtOrAfterEarliest |
