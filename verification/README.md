# Verified models of PostgreSQL contrib modules

The project models the algorithmic core of four PostgreSQL 9.4.4 extension modules and proves what they
compute. `dafny verify dfyconfig.toml` checks all of it.

**fuzzystrmatch** (`EditDistance`, `Levenshtein`, `BoundedDistance`, `BandedLevenshtein`). Edit distance with
separate costs for insertion, deletion and substitution: the two-row programme, and the bounded variant that slides
a band over the matrix. The plain recurrence is proved to be the minimum over all edit sequences and both programmes
are proved against it, with the exact costs for which the bound can be trusted.

**intarray** (`BoolQuery`, `BoolLexer`, `BoolParser`, `BoolGrammar`, `BoolInput`, `BoolText`, `BoolOutput`,
`BoolMarks`, `IntArrays`, `IntGin`, `IntSignature`, `IntRange`, `IntRangeSize`, `IntSets`). Boolean queries over
integer sets: the scanner, the operator-stack parser to postfix, the pass that adds back links, the evaluator that
follows them and the printer; and the index code that answers queries on bit signatures, on lossily compressed arrays
and on GIN check arrays. Input is proved to accept exactly the texts of a grammar, output followed by input to keep the
meaning, and the index tests to prune no match, with the exact exceptions, and to test exactly the query without its
negated parts.

**hstore** (`Hstore`, `HstorePacked`, `HstoreMemory`, `HstoreBuild`, `HstoreOps`, `HstoreEdit`, `HstoreCompare`,
`HstoreUnique`, `HstoreSyntax`, `HstoreErrors`, `HstoreText`, `HstoreFormats`, `HstoreCompat`, `HstoreUpgrade`,
`HstoreLayouts`). A sorted map packed into one buffer. Every operator is proved against operations on finite maps, down
to the bytes of the buffer; the text parser against a grammar, with the error for every other text; output followed by
input to give back the identical bytes; and the values of each of the two older layouts whose pairs the upgrade keeps
are characterized exactly.

**ltree** (`Ltree`, `LtreeGist`). Label paths: their order, the longest common ancestor, and interval index keys
whose pruning tests are proved exact for everything that fits an index row.

`Int32`, `Orders`, `Sequences` and `Options` hold what these share.

## Where the code does not do what it should

These properties fail on some inputs. Each comes with its exact condition; a lemma named after the failure gives inputs.

- The bounded edit distance keeps its promise for all strings and bounds if and only if no cost is negative, or
  insertion and deletion both cost at most nothing, or they cancel out and substitution costs nothing or more, or
  they sum to nothing or more and substitution is free (`RightCostsExactly`). For other costs the early exit or one of
  the two sentinels misleads it (`ExitMisleads`, `SentinelAboveMisleads`, `SentinelLeftMisleads`).
- The back links of a Boolean query are 16 bits wide. They are right if and only if every right operand has at most
  32767 items (`StoredExact`); there are texts that input accepts for which they are not (`WideTextIsAccepted`).
- A compressed intarray key is read back if and only if it was small, or it does not hold INT_MAX, no two neighbours in
  it are 2^31 or more apart, and some hundred ranges over it hold at most 268435449 integers (`ReadBackExactly`). With
  INT_MAX the loop counter passes INT_MAX (`TopKeyOverflows`). The scan compares gaps after they wrapped to 32 bits, so
  that a gap of 2^31 or more counts as the narrowest and is merged first (`WideGapIsMerged`). With too many integers
  the allocation fails, or the 32-bit byte count wraps to a size that can be allocated and the loop writes behind the
  buffer (`Decompress`, `WideKeyOverruns`).
- A leaf array of 200 or more elements is stored with no more than a notice and expanded like a compressed key when it
  is read. With an even number of elements none is lost, but it comes back unchanged if and only if its elements pair
  up as neighbouring integers (`BigLeafExactly`). With an odd number the word behind the array is read as well, and
  decides whether the last element is lost and whether the buffer is too small (`OddLeafExactly`).
- The contained-by strategy of both intarray indexes asks inner nodes for a common element, so an index can lose an
  array that is contained in the query if and only if it is empty (`IntSets.ContainedByLosesEmpty`,
  `IntSignature.ContainedByLosesEmpty`).
- An hstore of more than 16777216 pairs can be printed but its text is not read: the array of pairs cannot double once
  more (`OutThenIn`).
- `hstoreUpgrade` keeps the pairs of an old value if and only if it is long or the length stored for its first value is
  below 32768 (`OldValuesKept`); otherwise it is not converted and a null is read as an empty string
  (`LongNullIsMisread`). It keeps the pairs of a prerelease value if and only if it is short or does not pass the test
  for old values (`PrereleaseValuesKept`); otherwise it is converted as an old one (`AmbiguousIsMisread`).
- `ltree_compare` scales the difference in depth; its sign is right if and only if that product does not overflow,
  which starts at 14654 levels (`Ltree.Compare`, `DeepIsWrong`). The index is not affected, because a row holds no path
  of 1024 levels (`RowIsShallow`, `SearchIsExact`).

## Conventions

- Bytes are `char` values, strings are sequences of them. A value in memory is a header and the bytes behind it.
  Words are little-endian and old hstore entries have the bit-field layout of i386.
- Arithmetic is on mathematical integers except where 32-bit or 16-bit results are part of the behaviour: the gap
  scan, the sizes and the expansion loop of intarray keys, the stored back links, and `ltree_compare`. PostgreSQL is
  compiled so that signed arithmetic wraps.
- `memcmp` is its sign. `qsort` is an insertion sort of which only order and permutation are used; where the sorted
  array is an argument, any sorted permutation is allowed. The hash of a set element is its value modulo the
  signature length.
- `Shows(view, pairs)` says that the reader macros find these pairs in a value; `ViewOf` proves it for every
  canonical value (`IsHStore`). Operators that only read take the view.
- `palloc` and `repalloc` fail exactly above 0x3fffffff bytes. An array header has 24 bytes, a `Pairs` element 40.
- Ambiguous hstore values are resolved as in `contrib/hstore` (`HSTORE_IS_HSTORE_NEW` is not set).

## Model

| member | source | states |
|---|---|---|
| EditDistance.DistIsMinimum | postgresql-9.4.4_wedflow/contrib/fuzzystrmatch/levenshtein.c:122-125 | the recurrence the two-row programme evaluates is the least total charge over every sequence of insertions, deletions and substitutions that leads from one string to the other: some sequence attains it, none is cheaper |
| EditDistance.DiagonalMonotone | postgresql-9.4.4_wedflow/contrib/fuzzystrmatch/levenshtein.c:336-395 | the distance never decreases along a diagonal of the matrix, the fact the pruning relies on |
| EditDistance.CapSubstitution | postgresql-9.4.4_wedflow/contrib/fuzzystrmatch/levenshtein.c:159-160 | when a deletion and an insertion are cheaper, lowering the substitution cost to their sum leaves every distance unchanged |
| EditDistance.DistUpperBound | postgresql-9.4.4_wedflow/contrib/fuzzystrmatch/levenshtein.c:153-163 | the distance is at most the cost of the length difference plus one substitution per shared position, so a bound that large can be ignored |
| EditDistance.DistLowerBound | postgresql-9.4.4_wedflow/contrib/fuzzystrmatch/levenshtein.c:155-158 | if a deletion and an insertion together, and a substitution, cost nothing or more, the cost of the length difference alone is a lower bound of the distance; the early exit relies on it |
| Levenshtein.FillRow | postgresql-9.4.4_wedflow/contrib/fuzzystrmatch/levenshtein.c:306-331 | the inner loop writes, into the columns from start to stop and nowhere else, the cheapest of the three ways into each cell |
| Levenshtein.LevenshteinInternal | postgresql-9.4.4_wedflow/contrib/fuzzystrmatch/levenshtein.c:71-403 | for costs of any sign: rejects arguments longer than 255, otherwise returns exactly the distance |
| BoundedDistance.Prepare | postgresql-9.4.4_wedflow/contrib/fuzzystrmatch/levenshtein.c:138-186 | stops at once exactly if the length difference alone exceeds the bound; otherwise the first row has between one and all columns, and all if the bound is dropped |
| BoundedDistance.SlideTest | postgresql-9.4.4_wedflow/contrib/fuzzystrmatch/levenshtein.c:358-389 | the test both sliding loops make, value plus remaining length difference against the bound, decides exactly whether a cell is over the bound |
| BoundedDistance.OverSpreads | postgresql-9.4.4_wedflow/contrib/fuzzystrmatch/levenshtein.c:336-395 | a cell whose three predecessors are over the bound is over the bound |
| BoundedDistance.OverDiagonal | postgresql-9.4.4_wedflow/contrib/fuzzystrmatch/levenshtein.c:336-395 | a cell over the bound stays over it one step down its diagonal |
| BoundedDistance.BandMovesDown | postgresql-9.4.4_wedflow/contrib/fuzzystrmatch/levenshtein.c:232-262 | if everything left and right of the band is over the bound, this holds in the next row with one more column on the right |
| BoundedDistance.FirstRowStop | postgresql-9.4.4_wedflow/contrib/fuzzystrmatch/levenshtein.c:165-186 | the columns of the first row left out by the division are all over the bound |
| BoundedDistance.SweepExact | postgresql-9.4.4_wedflow/contrib/fuzzystrmatch/levenshtein.c:222-402 | for non-negative costs, or without a bound, advancing and trimming the window row by row ends with the distance, or with the bound plus one if that is smaller |
| BoundedDistance.RightCostsSuffice | postgresql-9.4.4_wedflow/contrib/fuzzystrmatch/levenshtein.c:67-403 | for the right costs the answer is the smaller of the distance and the bound plus one |
| BoundedDistance.ExitMisleads | postgresql-9.4.4_wedflow/contrib/fuzzystrmatch/levenshtein.c:155-158 | whenever insertion or deletion costs something and a round trip or a substitution costs less than nothing, the early exit is wrong for some pair of strings of two and one characters and some bound |
| BoundedDistance.SentinelAboveMisleads | postgresql-9.4.4_wedflow/contrib/fuzzystrmatch/levenshtein.c:240-244 | whenever insertion has a negative cost, a round trip and a substitution a positive one, the sentinel in the row above makes the answer for "a", "b" and bound 0 wrong |
| BoundedDistance.SentinelLeftMisleads | postgresql-9.4.4_wedflow/contrib/fuzzystrmatch/levenshtein.c:370-389 | whenever deletion has a negative cost, a round trip and a substitution a positive one, the sentinel to the left makes the answer for "aa", "aa" and bound 0 wrong |
| BoundedDistance.RightCostsExactly | postgresql-9.4.4_wedflow/contrib/fuzzystrmatch/levenshtein.c:67-403 | the costs are the right ones if and only if the answer is the distance whenever that is within the bound, and above the bound otherwise, for all non-empty strings and all bounds from 0 on |
| BandedLevenshtein.NextRow | postgresql-9.4.4_wedflow/contrib/fuzzystrmatch/levenshtein.c:226-333 | one turn of the outer loop leaves in the two rows, with their sentinels, the window of the next row, for costs of any sign |
| BandedLevenshtein.SlideStop | postgresql-9.4.4_wedflow/contrib/fuzzystrmatch/levenshtein.c:358-367 | the loop that lowers the stop column trims the window from the right as far as the test says |
| BandedLevenshtein.SlideStart | postgresql-9.4.4_wedflow/contrib/fuzzystrmatch/levenshtein.c:370-389 | the loop that raises the start column trims the window from the left, moves the string pointer along and puts the sentinels back |
| BandedLevenshtein.RunBand | postgresql-9.4.4_wedflow/contrib/fuzzystrmatch/levenshtein.c:222-402 | the loop over both rows returns what the windows lead to, for costs of any sign |
| BandedLevenshtein.LevenshteinLessEqualInternal | postgresql-9.4.4_wedflow/contrib/fuzzystrmatch/levenshtein.c:67-403 | rejects arguments longer than 255; on an empty argument returns the distance whatever the bound; without a bound (a negative one) returns the distance for costs of any sign; with a bound and the right costs returns the distance if it is within the bound and the bound plus one otherwise; for other costs returns what early exit and windows lead to |
| BoolQuery.ExecuteIsHolds | postgresql-9.4.4_wedflow/contrib/intarray/_int_bool.c:267-295 | following the back links of the postfix array from its last item computes the standard truth value of the query on any set |
| BoolQuery.PruningIsSafe | postgresql-9.4.4_wedflow/contrib/intarray/_int_bool.c:257-320 | if a query holds on a set, evaluation without negation holds for every condition that accepts all elements of the set |
| BoolQuery.TestExactly | postgresql-9.4.4_wedflow/contrib/intarray/_int_bool.c:267-295 | evaluation without negation is the truth value of the query in which every outermost negated operand counts as true, and so of the query itself if it has no negation |
| NumberText.IntTextRoundTrip | postgresql-9.4.4_wedflow/contrib/intarray/_int_bool.c:94-113 | every 32-bit integer is read back by strtol with base 0 from its decimal text, which fits the token buffer |
| NumberText.MagnitudeExactly | postgresql-9.4.4_wedflow/contrib/intarray/_int_bool.c:94-113 | digits behind a leading zero have their octal value, place by place, up to the first that is not octal; others their decimal value |
| NumberText.OctalExample | postgresql-9.4.4_wedflow/contrib/intarray/_int_bool.c:94-113 | `010` is 8, `019` is 1 and `10` is 10 |
| BoolInput.WorkState.GetToken | postgresql-9.4.4_wedflow/contrib/intarray/_int_bool.c:49-131 | the scanner's loop reports the token, the new position, state and parenthesis count of the token specification, including every error case |
| BoolInput.WorkState.MakePolish | postgresql-9.4.4_wedflow/contrib/intarray/_int_bool.c:154-224 | the recursive operator-stack parser pushes exactly the items of its specification, with the same errors at nesting and stack limits |
| BoolGrammar.ParserComplete | postgresql-9.4.4_wedflow/contrib/intarray/_int_bool.c:154-224 | every grammatical query whose pending operators fit the 16-entry stack is parsed into its postfix form |
| BoolGrammar.ParserSound | postgresql-9.4.4_wedflow/contrib/intarray/_int_bool.c:154-224 | from inside any half-read level, acceptance means that the tokens read complete a grammatical query |
| BoolGrammar.ParserExact | postgresql-9.4.4_wedflow/contrib/intarray/_int_bool.c:154-224 | a text is accepted with a given output if and only if its tokens are those of a grammatical query that fits the stack and the output is that query's postfix form |
| BoolText.DenotesExactly | postgresql-9.4.4_wedflow/contrib/intarray/_int_bool.c:49-224 | at the level of characters: a text denotes a query if and only if the query is grammatical, fits the stack, and the text spells out its tokens, each behind any number of blanks: the marks, and numbers of at most 15 characters with a 32-bit value |
| BoolText.Precedence | postgresql-9.4.4_wedflow/contrib/intarray/_int_bool.c:154-224 | of three operands joined by two operators, conjunction binds tighter than disjunction on either side, and equal operators group to the left |
| BoolText.ErrorKinds | postgresql-9.4.4_wedflow/contrib/intarray/_int_bool.c:154-224 | a syntax error is reported only if the scanner meets a character out of place; a text without one is accepted or reported as too complex |
| BoolInput.FindOperand | postgresql-9.4.4_wedflow/contrib/intarray/_int_bool.c:441-471 | linking writes into every operator the distance to its left operand, cut to 16 bits, and touches nothing else |
| BoolInput.BqarrIn | postgresql-9.4.4_wedflow/contrib/intarray/_int_bool.c:478-543 | input succeeds if and only if the text denotes a query with few enough items, and returns its linked array; otherwise it reports the right error |
| BoolInput.DenotesOneMeaning | postgresql-9.4.4_wedflow/contrib/intarray/_int_bool.c:478-543 | a text denotes only one meaning: two readings have the same stored array and the same truth value on every set |
| BoolInput.StoredExact | postgresql-9.4.4_wedflow/contrib/intarray/_int_bool.c:441-471 | the stored 16-bit links are the true distances if and only if every right operand has at most 32767 items |
| BoolInput.StoredQueryMeans | postgresql-9.4.4_wedflow/contrib/intarray/_int_bool.c:267-295 | for such queries, evaluating the stored array is the standard truth value |
| BoolInput.StoredTestExactly | postgresql-9.4.4_wedflow/contrib/intarray/_int_bool.c:267-320 | for such queries, evaluating the stored array without negation is the truth value of the query in which every outermost negated operand counts as true |
| BoolInput.WideOperandBreaksLink | postgresql-9.4.4_wedflow/contrib/intarray/_int_bool.c:441-471 | a right operand of 32768 to 65534 items makes the link point past the end of the array |
| BoolOutput.WideTextIsAccepted | postgresql-9.4.4_wedflow/contrib/intarray/_int_bool.c:478-543 | for every number of alternatives from 16385 to 32767 there is a text that input accepts and for which every stored array has such a link |
| BoolOutput.Infix.Print | postgresql-9.4.4_wedflow/contrib/intarray/_int_bool.c:565-635 | the recursive printer appends the infix text of the operand it stands on and steps over it |
| BoolOutput.BqarrOut | postgresql-9.4.4_wedflow/contrib/intarray/_int_bool.c:639-657 | output of a stored query is the infix text of the query without the parentheses it was written with |
| BoolMarks.PrintedExactly | postgresql-9.4.4_wedflow/contrib/intarray/_int_bool.c:565-635 | that text has every operator once, a pair of parentheses for each disjunction that is an operand of a conjunction or disjunction and for each negated operator and no other, blanks on either side of the signs of conjunction and disjunction and inside parentheses, two in all for each, and none behind `!` |
| BoolMarks.PrintedExample | postgresql-9.4.4_wedflow/contrib/intarray/_int_bool.c:565-635 | two queries with a negated value, a negated disjunction and a disjunction as an operand |
| BoolOutput.PrintParseRoundTrip | postgresql-9.4.4_wedflow/contrib/intarray/_int_bool.c:565-657 | reading a printed query back always succeeds, and keeps the truth value on every set and the number of items |
| BoolOutput.ReprintedTextMeansTheSame | postgresql-9.4.4_wedflow/contrib/intarray/_int_bool.c:565-657 | any accepted text, printed after parsing, is accepted again with the same truth value on every set and the same number of items; if every right operand has at most 32767 items, both stored arrays also evaluate alike |
| IntGin.RequiredIsPresent | postgresql-9.4.4_wedflow/contrib/intarray/_int_bool.c:365-397 | if the array has required values and evaluation accepts a set, the set holds one of the array's values |
| IntGin.RequiredExactly | postgresql-9.4.4_wedflow/contrib/intarray/_int_bool.c:365-397 | there are required values if and only if evaluation without negation fails on the empty set |
| IntGin.RequiredMeans | postgresql-9.4.4_wedflow/contrib/intarray/_int_bool.c:365-397 | so there are if and only if the query, with every outermost negated operand taken as true, does not hold on the empty set |
| IntGin.QueryExtract | postgresql-9.4.4_wedflow/contrib/intarray/_int_gin.c:24-57 | the extracted entries are the array's values in order, and the default mode is chosen exactly if there are required values |
| IntGin.ExtractedConcat | postgresql-9.4.4_wedflow/contrib/intarray/_int_gin.c:39-57 | the values keep the order they have in the array |
| IntGin.DefaultSearchLosesNothing | postgresql-9.4.4_wedflow/contrib/intarray/_int_gin.c:39-57 | in default mode, every set that satisfies the query holds a value extracted from the stored array |
| IntGin.GinBoolConsistent | postgresql-9.4.4_wedflow/contrib/intarray/_int_bool.c:337-362 | evaluation on the check array equals direct evaluation on every set with these look-up results |
| IntSignature.HashExactly | postgresql-9.4.4_wedflow/contrib/intarray/_int.h:66 | two integers share a bit if and only if their unsigned 32-bit values differ by a multiple of 2016 |
| IntSignature.BitExactly | postgresql-9.4.4_wedflow/contrib/intarray/_int.h:61-65 | bit `k` of a byte is the one that a shift by `k` brings to the end |
| IntSignature.CompressLeaf | postgresql-9.4.4_wedflow/contrib/intarray/_intbig_gist.c:137-177 | the signature of an array has exactly the bits its elements hash to |
| IntSignature.CompressInner | postgresql-9.4.4_wedflow/contrib/intarray/_intbig_gist.c:178-204 | a full signature, and no other, becomes the flag; the positions it stands for stay the same |
| IntSignature.Union | postgresql-9.4.4_wedflow/contrib/intarray/_intbig_gist.c:256-298 | the union key stands for exactly the union of the positions of its entries, flags included |
| IntSignature.ConsistentCovers | postgresql-9.4.4_wedflow/contrib/intarray/_intbig_gist.c:492-515 | a key that covers a matching array is never rejected by the Boolean test on the stored query |
| IntSignature.ConsistentExactly | postgresql-9.4.4_wedflow/contrib/intarray/_intbig_gist.c:503-515 | a key that is not full is accepted if and only if the query, with every outermost negated operand taken as true, holds on the values whose bits are set |
| IntSignature.IndexNeverMisses | postgresql-9.4.4_wedflow/contrib/intarray/_intbig_gist.c:492-515 | through any number of unions, no node above an array that satisfies the query is pruned by the Boolean test |
| IntSignature.FindHash | postgresql-9.4.4_wedflow/contrib/intarray/_intbig_gist.c:68-102 | the loops of overlap and contains decide whether some hashed query value is in the signature, and whether some is not |
| IntSignature.SetConsistent | postgresql-9.4.4_wedflow/contrib/intarray/_intbig_gist.c:503-601 | the other strategies decide overlap, equality and the two inclusions of bit positions, at leaves and at inner nodes, and accept a full key |
| IntSignature.LeafKeepsMatches | postgresql-9.4.4_wedflow/contrib/intarray/_intbig_gist.c:519-597 | a leaf whose array matches is accepted for every strategy |
| IntSignature.SignatureKeepsMatches | postgresql-9.4.4_wedflow/contrib/intarray/_intbig_gist.c:519-597 | through any number of unions, no inner node above a matching array is rejected, unless the array is empty and asked to be contained |
| IntSignature.ContainedByLosesEmpty | postgresql-9.4.4_wedflow/contrib/intarray/_intbig_gist.c:562-595 | an array contained in the query is kept by every inner node that covers it and is not full if and only if it is not empty |
| IntSignature.UnionBuildsNode | postgresql-9.4.4_wedflow/contrib/intarray/_intbig_gist.c:269-298 | keys right for the children give a key right for the node |
| IntSignature.PickSeeds | postgresql-9.4.4_wedflow/contrib/intarray/_intbig_gist.c:359-385 | the seeds are the first pair, over all entries but the last, whose distance is largest, and the first two entries if there is no such pair |
| IntSignature.Distribute | postgresql-9.4.4_wedflow/contrib/intarray/_intbig_gist.c:424-480 | every offset goes to exactly one side, each seed to its own, and each side's key covers what it takes in, whatever the cost comparison says |
| IntSignature.PickSplit | postgresql-9.4.4_wedflow/contrib/intarray/_intbig_gist.c:328-489 | a page split conserves the entries, leaves no side empty, and gives each side exactly the union of its entries' positions |
| IntRange.SmallestGap | postgresql-9.4.4_wedflow/contrib/intarray/_int_gist.c:193-200 | the scan finds the first of the smallest gaps, with the 32-bit subtraction the code makes |
| IntRange.NarrowGap | postgresql-9.4.4_wedflow/contrib/intarray/_int_gist.c:193-200 | with four or more ranges some gap is below the initial minimum, so the scan always finds a candidate |
| IntRange.Double | postgresql-9.4.4_wedflow/contrib/intarray/_int_gist.c:187-188 | the in-place doubling, back to front, turns every element into a range of its own |
| IntRange.MergeOnce | postgresql-9.4.4_wedflow/contrib/intarray/_int_gist.c:191-203 | one merge keeps every element of the key within the ranges and merges no gap wider than one it keeps, where widths are compared after wrapping to 32 bits |
| IntRange.Compress | postgresql-9.4.4_wedflow/contrib/intarray/_int_gist.c:179-209 | a key of 200 or more elements becomes 100 ascending disjoint ranges from its first to its last element that lose none of its elements; a smaller key is unchanged |
| IntRange.InternalSize | postgresql-9.4.4_wedflow/contrib/intarray/_int_tool.c:278-290 | the size computed in advance is the number of integers in the ranges, wrapped to 32 bits |
| IntRange.WriteRange | postgresql-9.4.4_wedflow/contrib/intarray/_int_gist.c:265-268 | one range is appended to the output in full; writing behind the buffer and incrementing the counter past INT_MAX are reported |
| IntRange.Decompress | postgresql-9.4.4_wedflow/contrib/intarray/_int_gist.c:215-277 | the result is exactly the integers of the ranges if and only if they are at most 268435449 and end below INT_MAX; with an end at INT_MAX the counter overflows; with more integers the buffer is overrun if and only if the wrapped byte count can be allocated, and otherwise the allocation fails |
| IntRange.CompressionLosesNothing | postgresql-9.4.4_wedflow/contrib/intarray/_int_gist.c:179-268 | a key that is read back is increasing and has every element it had, and a small key is unchanged; it is read back if and only if it was small, or the ranges stored for it hold few enough integers and it does not hold INT_MAX |
| IntRangeSize.ExpandedSize | postgresql-9.4.4_wedflow/contrib/intarray/_int_gist.c:193-203 | over any key, a list of ranges stands for one integer per kept gap and all the integers of every merged one |
| IntRangeSize.FewestIntegers | postgresql-9.4.4_wedflow/contrib/intarray/_int_gist.c:193-203 | unless two neighbours are 2^31 or more apart, no other choice of as many ranges over the key holds fewer integers than the stored one |
| IntRangeSize.WideGapIsMerged | postgresql-9.4.4_wedflow/contrib/intarray/_int_gist.c:193-200 | neighbours 2^31 or more apart in a key of 200 or more elements always end up in one range, and the key is not read back |
| IntRangeSize.ReadBackExactly | postgresql-9.4.4_wedflow/contrib/intarray/_int_gist.c:179-268 | a key is read back if and only if it is small, or it does not hold INT_MAX, no neighbours are 2^31 or more apart, and some hundred ranges over it hold at most 268435449 integers |
| IntRange.LastIsTop | postgresql-9.4.4_wedflow/contrib/intarray/_int_gist.c:265-268 | a compressed key ends at INT_MAX if and only if the key held INT_MAX |
| IntRange.TopKeyOverflows | postgresql-9.4.4_wedflow/contrib/intarray/_int_gist.c:265-268 | every stored form of the key of the 200 largest integers makes the counter overflow |
| IntRange.WideKeyOverruns | postgresql-9.4.4_wedflow/contrib/intarray/_int_tool.c:219-225 | every stored form of the key of 200 integers from INT_MIN on, 10737418 apart, gets a buffer of 328 bytes for 1073741900 integers |
| IntRange.BigLeafExactly | postgresql-9.4.4_wedflow/contrib/intarray/_int_gist.c:148-164 | a leaf array of 200 or more elements, an even number, that is taken for ranges when it is read loses no element and is unchanged if and only if its elements pair up as neighbouring integers |
| IntRange.OddLeafExactly | postgresql-9.4.4_wedflow/contrib/intarray/_int_gist.c:258-268 | with an odd number of elements, whatever word lies behind the array: the array is unchanged if and only if the other elements pair up and that word repeats the last one, the last one is lost if and only if the word is smaller, and the size foretold is below what is written if and only if it is smaller by more than one |
| IntSets.CheckCondition | postgresql-9.4.4_wedflow/contrib/intarray/_int_bool.c:236-255 | the binary search finds exactly the elements of a sorted array |
| IntSets.InnerContains | postgresql-9.4.4_wedflow/contrib/intarray/_int_tool.c:13-44 | on increasing arrays the merge decides inclusion |
| IntSets.InnerOverlap | postgresql-9.4.4_wedflow/contrib/intarray/_int_tool.c:48-74 | on sorted arrays the merge decides whether there is a common element |
| IntSets.DedupExact | postgresql-9.4.4_wedflow/contrib/intarray/_int_tool.c:294-313 | dropping each repetition of a predecessor from a sorted list leaves an increasing list with the same elements |
| IntSets.Unique | postgresql-9.4.4_wedflow/contrib/intarray/_int_tool.c:294-313 | the in-place loop leaves that list at the start of the array |
| IntSets.Union | postgresql-9.4.4_wedflow/contrib/intarray/_int_gist.c:97-131 | the union key is increasing and holds exactly the elements of its entries |
| IntSets.KeyCovers | postgresql-9.4.4_wedflow/contrib/intarray/_int_gist.c:97-277 | a key that can be read back covers every array below it, through any number of unions with whatever the node held before and any number of lossy compressions |
| IntSets.ArrayIndexNeverMisses | postgresql-9.4.4_wedflow/contrib/intarray/_int_gist.c:46-54 | the Boolean test of the stored query at an inner node never rejects a match below it |
| IntSets.ArrayTestExactly | postgresql-9.4.4_wedflow/contrib/intarray/_int_gist.c:46-54 | the test is the truth value, on the elements of the key, of the query with every outermost negated operand taken as true |
| IntSets.SameArray | postgresql-9.4.4_wedflow/contrib/intarray/_int_gist.c:305-335 | equal if and only if the arrays are |
| IntSets.SameSet | postgresql-9.4.4_wedflow/contrib/intarray/_int_gist.c:66-71 | arrays sorted without repetition are equal if and only if they have the same elements |
| IntSets.Consistent | postgresql-9.4.4_wedflow/contrib/intarray/_int_gist.c:59-94 | the other strategies decide, at a leaf, overlap, equality and the two inclusions of the sets, and at an inner node the questions that stand in for them |
| IntSets.ArrayIndexKeepsMatches | postgresql-9.4.4_wedflow/contrib/intarray/_int_gist.c:59-94 | no inner node rejects a match below it, unless the matching array is empty and asked to be contained |
| IntSets.ContainedByLosesEmpty | postgresql-9.4.4_wedflow/contrib/intarray/_int_gist.c:80-88 | an array contained in the query is kept at the inner nodes of every index that holds it if and only if it is not empty |
| Orders.LexTotal | postgresql-9.4.4_wedflow/contrib/ltree/ltree_op.c:42-67 | the lexicographic extension of a total order is a total order |
| Orders.LexExactly | postgresql-9.4.4_wedflow/contrib/ltree/ltree_op.c:42-67 | one sequence comes first if and only if it is a proper prefix or has the smaller element at the first difference |
| Orders.TextTotal | postgresql-9.4.4_wedflow/contrib/ltree/ltree_op.c:50-54 | comparing common bytes first and lengths on a tie is a total order on strings |
| Orders.TextExactly | postgresql-9.4.4_wedflow/contrib/ltree/ltree_op.c:50-58 | it is the order of the dictionary: a string comes first if and only if it is a proper prefix or has the smaller byte at the first difference |
| Hstore.KeyOrder | postgresql-9.4.4_wedflow/contrib/hstore/hstore_op.c:53-57 | shorter keys first, equal lengths bytewise, is a strict total order |
| Hstore.KeyExactly | postgresql-9.4.4_wedflow/contrib/hstore/hstore_op.c:53-57 | a key comes first if and only if it is shorter, or equally long with the smaller byte at the first difference |
| Hstore.MapDetermines | postgresql-9.4.4_wedflow/contrib/hstore/hstore_io.c:282-303 | a strictly sorted list of pairs is determined by the map it stands for |
| Hstore.MergeIsUnion | postgresql-9.4.4_wedflow/contrib/hstore/hstore_op.c:516-560 | the merge of two sorted lists stands for the union of their maps in which the second wins |
| Hstore.MergeCanonical | postgresql-9.4.4_wedflow/contrib/hstore/hstore_op.c:516-560 | the merge is strictly sorted |
| Hstore.SelectIsRestriction | postgresql-9.4.4_wedflow/contrib/hstore/hstore_op.c:248-289 | copying the pairs that pass a test keeps the list sorted and restricts the map to exactly the entries that pass |
| HstorePacked.PackRoundTrip | postgresql-9.4.4_wedflow/contrib/hstore/hstore.h:29-34 | reading the entries and the string area gives back exactly the pairs they were written for |
| HstorePacked.PackUnique | postgresql-9.4.4_wedflow/contrib/hstore/hstore.h:29-34 | a buffer that satisfies what the readers rely on is the only packed form of its pairs |
| HstoreMemory.StoreRoundTrip | postgresql-9.4.4_wedflow/contrib/hstore/hstore.h:75-83 | the same down to the bytes: flag bits, 30-bit positions, little-endian words, string area behind the entries |
| HstoreLayouts.StoreExample | postgresql-9.4.4_wedflow/contrib/hstore/hstore.h:17-83 | the bytes of the value `a=>1, b=>NULL` |
| HstoreBuild.Builder.AddItem | postgresql-9.4.4_wedflow/contrib/hstore/hstore.h:112-126 | appends the pair's bytes and its two entries behind the pairs so far |
| HstoreBuild.Builder.CopyItem | postgresql-9.4.4_wedflow/contrib/hstore/hstore.h:99-106 | appends pair `i` of an existing value by copying its key and value in one piece |
| HstoreBuild.Builder.Finalize | postgresql-9.4.4_wedflow/contrib/hstore/hstore.h:129-140 | after flagging the first entry and moving the string area down, the block is the stored form of the pairs appended |
| HstoreBuild.HstorePairs | postgresql-9.4.4_wedflow/contrib/hstore/hstore_io.c:375-401 | packs any list of pairs into a block of exactly the announced size, giving its stored form, and fails exactly if that exceeds one allocation |
| HstoreOps.FindKey | postgresql-9.4.4_wedflow/contrib/hstore/hstore_op.c:37-71 | the search from a carried lower bound finds the key if and only if the whole value has it, and returns a bound valid for the next search |
| HstoreOps.CarryBound | postgresql-9.4.4_wedflow/contrib/hstore/hstore_op.c:37-71 | the returned bound is a valid start for every larger key, found or not |
| HstoreOps.ExistsAny | postgresql-9.4.4_wedflow/contrib/hstore/hstore_op.c:165-194 | true if and only if some given key is a key of the value |
| HstoreOps.ExistsAll | postgresql-9.4.4_wedflow/contrib/hstore/hstore_op.c:199-228 | true if and only if every given key is a key of the value |
| HstoreOps.Contains | postgresql-9.4.4_wedflow/contrib/hstore/hstore_op.c:966-1007 | true if and only if the template's map is a submap of the value's |
| HstoreEdit.Delete | postgresql-9.4.4_wedflow/contrib/hstore/hstore_op.c:248-289 | the result is a canonical value whose map is the argument's without the key |
| HstoreEdit.DeleteArray | postgresql-9.4.4_wedflow/contrib/hstore/hstore_op.c:294-368 | the result is a canonical value whose map is the argument's without the given keys |
| HstoreEdit.DeleteHstore | postgresql-9.4.4_wedflow/contrib/hstore/hstore_op.c:373-467 | the result is a canonical value whose map is the argument's without the entries equal in both |
| HstoreEdit.SliceToHstore | postgresql-9.4.4_wedflow/contrib/hstore/hstore_op.c:633-690 | the result is a canonical value whose map is the argument's restricted to the given keys |
| HstoreEdit.Concat | postgresql-9.4.4_wedflow/contrib/hstore/hstore_op.c:472-565 | fails exactly if the two sizes together exceed the largest allocation; otherwise the result is canonical and its map is the union in which the second argument wins |
| HstoreCompare.Compare | postgresql-9.4.4_wedflow/contrib/hstore/hstore_op.c:1084-1160 | computes the order by string area, count and first differing entry, including the shortcut for empty values |
| HstoreCompare.OrderTotal | postgresql-9.4.4_wedflow/contrib/hstore/hstore_op.c:1084-1160 | this order is total: the sign flips, it is transitive, and it is zero only on identical buffers |
| HstoreCompare.OrderExactly | postgresql-9.4.4_wedflow/contrib/hstore/hstore_op.c:1084-1160 | a value comes first if and only if its string area does in the dictionary, or with the same area it has fewer pairs, or with as many the first entry that differs ends earlier, or at the same place is not null where the other is |
| HstoreCompare.EqualIffSameMap | postgresql-9.4.4_wedflow/contrib/hstore/hstore_op.c:1084-1160 | canonical values compare equal if and only if their maps are equal, and if and only if they are the same bytes |
| HstoreUnique.UniquePairs | postgresql-9.4.4_wedflow/contrib/hstore/hstore_io.c:312-351 | leaves strictly increasing keys, every survivor an input pair, one for every input key, none after an input pair with its key in the sort order, and returns exactly the bytes needed |
| HstoreUnique.UniqueKeys | postgresql-9.4.4_wedflow/contrib/hstore/hstore_io.c:312-351 | the surviving keys are exactly the input keys |
| HstoreUnique.PrefersShared | postgresql-9.4.4_wedflow/contrib/hstore/hstore_io.c:292-299 | a pair that needs freeing survives only if every pair with its key needs freeing |
| HstoreUnique.ArrayToPairs | postgresql-9.4.4_wedflow/contrib/hstore/hstore_op.c:74-126 | more keys than one allocation holds are refused, and no others; otherwise the keys of the array without its nulls come out strictly sorted, each exactly once |
| HstoreText.HSParser.Push | postgresql-9.4.4_wedflow/contrib/hstore/hstore_io.c:42-51 | storing a character fails exactly if the word already has 536870911 of them, where the buffer cannot double once more |
| HstoreText.HSParser.Grow | postgresql-9.4.4_wedflow/contrib/hstore/hstore_io.c:200-204 | room for another pair fails exactly if there are 16777216 pairs already |
| HstoreText.HSParser.GetVal | postgresql-9.4.4_wedflow/contrib/hstore/hstore_io.c:61-173 | the scanner's loop computes what its state machine defines: word, quoting, position after it, or the error |
| HstoreText.HSParser.ParseHstore | postgresql-9.4.4_wedflow/contrib/hstore/hstore_io.c:183-279 | the outer loop computes what its state machine defines |
| HstoreSyntax.ReadDoc | postgresql-9.4.4_wedflow/contrib/hstore/hstore_io.c:61-279 | every text of the grammar is read as the grammar's meaning: any blanks, quoted or bare words, any letter escaped or not, unquoted null in any case, a trailing comma; with more than 16777216 pairs it is refused for want of memory |
| HstoreSyntax.FindDoc | postgresql-9.4.4_wedflow/contrib/hstore/hstore_io.c:61-279 | every accepted text is the text of a document of the grammar |
| HstoreSyntax.ReadExact | postgresql-9.4.4_wedflow/contrib/hstore/hstore_io.c:61-279 | a text is read as a list of pairs if and only if it is the text of a document with that meaning and there are at most 16777216 of them |
| HstoreSyntax.NullExactly | postgresql-9.4.4_wedflow/contrib/hstore/hstore_io.c:249-254 | a value is null if and only if it is not quoted and its letters are n, u, l, l, each in either case; otherwise it is the text of its letters |
| HstoreSyntax.BlankExactly | postgresql-9.4.4_wedflow/contrib/hstore/hstore_io.c:85-90 | blanks are the six characters of `isspace` in the C locale |
| HstoreErrors.ErrorsExactly | postgresql-9.4.4_wedflow/contrib/hstore/hstore_io.c:61-279 | of the texts that are neither accepted nor too much for memory, those are reported to end unexpectedly that some continuation would mend, and those as syntax errors that none would |
| HstoreSyntax.NeverTooLong | postgresql-9.4.4_wedflow/contrib/hstore/hstore_io.c:353-371 | the checks on the length of keys and values never reject a text, because the word buffer gives out first |
| HstoreText.HstoreIn | postgresql-9.4.4_wedflow/contrib/hstore/hstore_io.c:406-421 | malformed text gives the parser's error; otherwise the value is the stored form of sorted pairs with exactly the keys given, each with a value given for it, or an error if it is too large |
| HstoreText.PrintFits | postgresql-9.4.4_wedflow/contrib/hstore/hstore_io.c:1143-1151 | the text and its terminating zero byte fit the room computed in advance |
| HstoreText.Cpw | postgresql-9.4.4_wedflow/contrib/hstore/hstore_io.c:1105-1116 | copies with a backslash before every quote and backslash, inside the buffer |
| HstoreText.EscapeSize | postgresql-9.4.4_wedflow/contrib/hstore/hstore_io.c:1105-1116 | the copy is longer by exactly the number of quotes and backslashes |
| HstoreText.EscapePlain | postgresql-9.4.4_wedflow/contrib/hstore/hstore_io.c:1105-1116 | a string without them is copied as it is |
| HstoreText.PrintConcat | postgresql-9.4.4_wedflow/contrib/hstore/hstore_io.c:1153-1183 | the texts of two lists are joined by a comma and a blank |
| HstoreText.PrintSize | postgresql-9.4.4_wedflow/contrib/hstore/hstore_io.c:1153-1183 | the length of the text: for each pair its bytes, one more for each quote and backslash in them, four for the quotes and the arrow, and two quotes or four letters for the value; and two between pairs |
| HstoreText.PrintExample | postgresql-9.4.4_wedflow/contrib/hstore/hstore_io.c:1105-1183 | the texts of a pair with a null and of one whose value is a quote |
| HstoreText.RoomExactly | postgresql-9.4.4_wedflow/contrib/hstore/hstore_io.c:1143-1151 | the room computed in advance is twice the bytes of all strings, eight for each pair and two more for each null |
| HstoreText.HstoreOut | postgresql-9.4.4_wedflow/contrib/hstore/hstore_io.c:1120-1186 | writes exactly the printed text inside the buffer, and fails exactly if the computed room exceeds the largest allocation |
| HstoreText.PrintReads | postgresql-9.4.4_wedflow/contrib/hstore/hstore_io.c:61-279 | printed text of at most 16777216 pairs is read back as exactly the pairs printed: quotes, backslashes, blanks, the text NULL and true nulls included; longer text is refused |
| HstoreText.OutThenIn | postgresql-9.4.4_wedflow/contrib/hstore/hstore_io.c:406-421 | reading the output of any canonical value without zero bytes gives back the identical value, byte for byte, if and only if it has at most 16777216 pairs; the text of a larger one is refused |
| HstoreCompat.ValidOldFormat | postgresql-9.4.4_wedflow/contrib/hstore/hstore_compat.c:171-229 | the verdict is positive if and only if key lengths do not decrease, positions are contiguous from zero and the strings end inside the block, and tells exact from slack |
| HstoreCompat.ConvertEntries | postgresql-9.4.4_wedflow/contrib/hstore/hstore_compat.c:333-347 | the loop that overwrites each old entry with the two new ones computed from it leaves the entries of the same pairs |
| HstoreCompat.Convert | postgresql-9.4.4_wedflow/contrib/hstore/hstore_compat.c:320-356 | after the in-place conversion the block is the stored form of the pairs the old readers found: same order, keys, values and nulls |
| HstoreFormats.ValidNewFormat | postgresql-9.4.4_wedflow/contrib/hstore/hstore_compat.c:118-163 | the verdict on a value without version flag is positive if and only if it has no entries, or the first and only the first entry is flagged, positions and key lengths do not decrease, no later key is null and the strings end inside the block; it tells exact from slack |
| HstoreFormats.RelabelKeeps | postgresql-9.4.4_wedflow/contrib/hstore/hstore_compat.c:264-268 | setting the flag and cutting the block to the size its last entry implies changes no pair |
| HstoreUpgrade.Upgrade | postgresql-9.4.4_wedflow/contrib/hstore/hstore_compat.c:235-356 | values with the flag, without entries, or short with a flagged first entry are returned as they are; the others are converted if they pass the old test, taken as new if they pass only the other, and refused if they pass none |
| HstoreUpgrade.UpgradeFinds | postgresql-9.4.4_wedflow/contrib/hstore/hstore_compat.c:250-356 | a converted value has the pairs of the old readers, a relabelled one those of the new readers, and either is returned as it is when it comes again |
| HstoreUpgrade.AsIsExactly | postgresql-9.4.4_wedflow/contrib/hstore/hstore_compat.c:243-248 | a valid old value is returned unconverted if and only if it is shorter than 32768 bytes and the length stored for its first value is 32768 or more; that value is then a null and the new readers do not find the old pairs |
| HstoreUpgrade.OldValuesKept | postgresql-9.4.4_wedflow/contrib/hstore/hstore_compat.c:235-356 | the upgrade keeps the pairs of a valid old value if and only if it has 32768 bytes or more or the length stored for its first value is below 32768 |
| HstoreUpgrade.LongNullIsMisread | postgresql-9.4.4_wedflow/contrib/hstore/hstore_compat.c:243-248 | a value for which this happens: its null is read as an empty string |
| HstoreUpgrade.FormatsDisagree | postgresql-9.4.4_wedflow/contrib/hstore/hstore_compat.c:276-318 | on a value that passes both tests the old and the new readers find different pairs |
| HstoreUpgrade.PrereleaseValuesKept | postgresql-9.4.4_wedflow/contrib/hstore/hstore_compat.c:235-356 | the upgrade keeps the pairs of a valid prerelease value if and only if it is shorter than 32768 bytes or does not pass the old test |
| HstoreUpgrade.AmbiguousIsMisread | postgresql-9.4.4_wedflow/contrib/hstore/hstore_compat.c:299-318 | values of 65560 bytes that are exactly valid as prerelease values, are converted as old ones, and lose their pairs |
| HstoreLayouts.CanonicalInOrder | postgresql-9.4.4_wedflow/contrib/hstore/hstore_compat.c:171-229 | in pairs sorted as both layouts sort them no key is shorter than one before it |
| HstoreLayouts.OldRoundTrip | postgresql-9.4.4_wedflow/contrib/hstore/hstore_compat.c:92-106 | the old readers find in a block written in the old layout exactly the pairs it was written for |
| HstoreLayouts.OldTestExactly | postgresql-9.4.4_wedflow/contrib/hstore/hstore_compat.c:171-229 | the test for old values accepts such a block if and only if no key is shorter than one before it |
| HstoreLayouts.OldStoreIsKept | postgresql-9.4.4_wedflow/contrib/hstore/hstore_compat.c:235-356 | the upgrade of such a block gives back its pairs, whatever their lengths |
| HstoreLayouts.NewTestExactly | postgresql-9.4.4_wedflow/contrib/hstore/hstore_compat.c:118-163 | the test for prerelease values accepts a block in the present layout without the flag if and only if no key is shorter than one before it |
| HstoreLayouts.UnflaggedIsKept | postgresql-9.4.4_wedflow/contrib/hstore/hstore_compat.c:235-356 | the upgrade of such a block gives back its pairs if and only if it is shorter than 32768 bytes or does not pass the old test |
| Ltree.Compare | postgresql-9.4.4_wedflow/contrib/ltree/ltree_op.c:42-67 | the sign of the result is the lexicographic order of the paths if and only if the scaled depth difference does not overflow 32 bits; otherwise it is the sign of the wrapped product |
| Ltree.OrderTotal | postgresql-9.4.4_wedflow/contrib/ltree/ltree_op.c:42-67 | that order is total |
| Ltree.OrderExactly | postgresql-9.4.4_wedflow/contrib/ltree/ltree_op.c:42-67 | a path comes first if and only if it is a proper ancestor or has the label that comes first in the dictionary at the first level that differs |
| Ltree.ShallowIsRight | postgresql-9.4.4_wedflow/contrib/ltree/ltree_op.c:66 | depth differences below 14654 levels never overflow |
| Ltree.DeepIsWrong | postgresql-9.4.4_wedflow/contrib/ltree/ltree_op.c:66 | at 14654 levels the deeper path compares as smaller than its own ancestor, and the ancestor as smaller than it |
| Ltree.IsParent | postgresql-9.4.4_wedflow/contrib/ltree/ltree_op.c:136-157 | true if and only if the one path is a prefix of the other |
| Ltree.LcaInner | postgresql-9.4.4_wedflow/contrib/ltree/ltree_op.c:406-468 | null if and only if some path has no levels; otherwise a proper ancestor of every path, of which every other common proper ancestor is a prefix |
| LtreeGist.Union | postgresql-9.4.4_wedflow/contrib/ltree/ltree_gist.c:151-232 | for paths of any depth, folds the bounds outwards as the comparisons say |
| LtreeGist.UnionExact | postgresql-9.4.4_wedflow/contrib/ltree/ltree_gist.c:151-232 | of keys below 14654 levels, and so of all that fit an index row, the bounds are the least left and the greatest right bound, so the key covers what any entry covers |
| LtreeGist.PickSplit | postgresql-9.4.4_wedflow/contrib/ltree/ltree_gist.c:269-423 | for paths of any depth half of the entries, rounded down, go to the left side and all others to the right; below 14654 levels, and so in every index, no left bound on the left side exceeds one on the right, and each side's key covers what its entries cover |
| LtreeGist.GistIsParent | postgresql-9.4.4_wedflow/contrib/ltree/ltree_gist.c:426-443 | true if and only if some prefix of the query compares as lying between the bounds; the query's level count is restored |
| LtreeGist.ParentTestExact | postgresql-9.4.4_wedflow/contrib/ltree/ltree_gist.c:426-443 | for a query below 14654 levels that is so if and only if some ancestor of the query, or the query itself, lies between the bounds |
| LtreeGist.GistIsChild | postgresql-9.4.4_wedflow/contrib/ltree/ltree_gist.c:455-477 | true if and only if the query compares as lying between the bounds cut to its depth |
| LtreeGist.ChildTestExact | postgresql-9.4.4_wedflow/contrib/ltree/ltree_gist.c:455-477 | for a query below 14654 levels that is so if and only if some descendant of the query, or the query itself, lies between the bounds |
| LtreeGist.CutMonotone | postgresql-9.4.4_wedflow/contrib/ltree/ltree_gist.c:455-477 | truncating two paths to the same depth keeps their order |
| LtreeGist.RowIsShallow | postgresql-9.4.4_wedflow/src/backend/access/common/indextuple.c:166-174 | a key whose row fits the 8191 bytes of an index row, uncompressed, has paths of fewer than 1024 levels |
| LtreeGist.SearchIsExact | postgresql-9.4.4_wedflow/contrib/ltree/ltree_gist.c:658-669 | with these tests at inner nodes, searching an index whose keys cover their children and fit index rows reports exactly the stored ancestors, or descendants, of a query of any depth |

## Left out

- LevenshteinLessEqualInternal: for costs that are not the right ones, a band that has left the last column behind returns a cell it has not filled; the answer is then left open.
- LevenshteinInternal: costs and distances are unbounded integers; 32-bit overflow with very large costs is not modelled.
- PickSeeds: the distance of two signatures is a parameter.
- ValidNewFormat: the entry that the code reads behind a block too short for its entries is not modelled; such a block is refused whatever it reads.
- HstoreIn: which of several values given for one key survives is left open, as it is by `qsort`.
- Multibyte characters and locales: strings are bytes, lengths are byte counts, `isspace` and case folding are those of the C locale.
- Penalty functions and the comparison that balances a signature split: any choice is allowed.
- `g_int_picksplit`, `inner_int_union` and `inner_int_inter`: they repeat the arguments of the parts modelled.
- KeyCovers: leaf arrays of 200 or more elements, an odd number, are not covered, because what is read depends on the word behind them (`OddLeafExactly`).
- Memory growth of the query printer's buffer (`RESIZEBUF`), recursion depth checks, TOAST, memory contexts and freeing.
- hstore record, JSON, binary and set-returning functions, `hstore_hash`, and the signature index of hstore.
- lquery, ltxtquery, ltree arrays, the signature part of ltree keys and the comparison strategies of the ltree index.
- `btree_gist`, `cube`, `isn`, metaphone and soundex, `dblink` and the other contrib modules, and the WED-flow worker.
