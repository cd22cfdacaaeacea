# Verified model of the LARTS core algorithms

This project models four parts of the LARTS repository in Dafny and proves what they
promise, for all inputs and all runs.

1. **The LINPACK solver** (`testsuites/benchmarks/linpack/linpack-pc.c`), in exact real
   arithmetic. Files: `Vectors`, `Blas`, `Factorization`, `Elimination`, `Dgefa`, `Dgesl`,
   `DgeslTransposed`, `Dmxpy`, `Benchmark`, `Norma`. The flat column-major arrays are
   changed in place as in C. The central notion is `Factorization.Replay`: the recorded swaps and
   multipliers, applied one after the other to a vector. `dgefa` is proved to be a
   factorisation in this sense for every matrix, `dgefa` followed by `dgesl` to solve every
   nonsingular system, and a zero on the diagonal of U to be exactly singularity.
2. **TinyExpr** (`projectMigration/OS_LINUX/tinyexpr.c`), in both builds, with and without
   `TE_POW_FROM_RIGHT`. Files: `Combinatorics`, `Names`, `Lexer`, `Grammar`, `Grouping`,
   `ParserSpec`, `ParserProofs`, `Precedence`, `Spelling`, `SyntaxError`, `DocumentedGrammar`,
   `NodeHeap`, `PowerFromRight`, `Parser`, `Evaluator`, `Meaning`, `Compiler`. The parser is
   first given as pure functions that stop at the first error (`ParserSpec`) and proved
   sound, complete and unambiguous for the grammar (`ParserProofs`). The C code, which keeps
   parsing with a sticky `TOK_ERROR`, allocates nodes that may fail and frees them by hand, is
   then proved to compute those functions (`Parser`), with the whole heap accounted for on
   every path. What text, tokens, precedence, errors and values are is said independently of
   the parser and the evaluator: `Spelling` goes from characters to tokens, `Precedence` from
   tokens to trees by classes of operators, `SyntaxError` proves that an input is refused at
   the first token no derivation could go on with, and `Meaning` gives the value of an
   expression as it is written and the relation evaluation has to satisfy. `optimize` works in
   place and is proved to preserve meaning.
3. **The test configuration checker** (`testsuites/rtems-test-check.py`), exclude mode.
   Files: `IncludeGraph`, `LoadRun`, `TestCheck`. It is proved for which files loading ends,
   and what is printed whenever it does.
4. **The workspace sampler** (code in `memory_usage/README.md`). File: `Sampler`.

How C and Python are rendered:

- A pointer into an array is the array with an offset. `REAL` is `real`.
- The arrays passed to one LINPACK routine are distinct objects, as in every call of the
  benchmark; only the ranges inside one array may be shared (`daxpy` on columns of `a`).
- `malloc` is a method that may fail at any call and otherwise returns any address that is
  not live; `free` demands a live address, so a double free or a use after free cannot be
  written. `Heap.failures` counts the failed calls. A tree owns exactly the cells `HeapOf`
  gives for it, so ownership is an equation between heaps.
- A double is an opaque bit pattern. `strtod`, the functions an expression calls, the order
  in which the compiled C code evaluates the arguments of a call, regular expressions and
  the clock are parameters.
- The type codes of `tinyexpr.h` are a datatype (`Names.Kind`, `NodeHeap.Ty`).

Where the code does not do what its documentation says, the model follows the code:

- The comments of `dgesl` say that `info == 0` from `dgefa` rules out a division by zero.
  `info` is the index of the last zero pivot, and index 0 is also the normal value:
  `Elimination.InfoZeroStillSingular` gives an input, `Elimination.InfoZeroIsSafe` the exact
  condition.
- `dgesl` with `job != 0` leaves out the last step of the transposed solve.
  `DgeslTransposed.TransposedSolveFails` gives an input, and
  `DgeslTransposed.TransposedSolveRightIff` proves for which factors the result is right.
- The comment of `base` allows any number of empty pairs of parentheses after a function
  without arguments; the code takes one at most. `DocumentedGrammar.TwoPairsRefused` and
  `DocumentedGrammar.TwoPairsOnPi` give inputs, and
  `DocumentedGrammar.AcceptedIffNotRepeated` proves which documented inputs are accepted.
- With `TE_POW_FROM_RIGHT` the code treats `(-a)^b` like `-a^b`: `Grouping.NegativeBaseFails`
  is that input, and `Grouping.ParenthesisedBase` states, on the syntax of the base, exactly
  when it is raised as a whole.
- `rtems-test-check.py` need not end when files include each other in a cycle:
  `LoadRun.SelfInclude` gives inputs, and `LoadRun.EndsIff` proves exactly when it ends.

`matgen` takes the maximum for `norma` without absolute values and offers the variant with
`fabs` in a comment. The two agree exactly under the condition of
`Norma.NormaIsAbsoluteIff`; they differ for n = 1 (`Norma.NormaOfOneEntry`) and for every
n from 84 on (`Norma.NormaOfLargeMatrices`).

## Model

| member | source | states |
|---|---|---|
| `Vectors.ViewAfterColumnWrite` | testsuites/benchmarks/linpack/linpack-pc.c:596-597 | In the flat layout a write inside one column changes that column of the matrix and no other |
| `Vectors.CombinationIsMatVec` | testsuites/benchmarks/linpack/linpack-pc.c:1113-1132 | A matrix-vector product summed by rows equals the one summed by columns |
| `Blas.Idamax` | testsuites/benchmarks/linpack/linpack-pc.c:1025-1056 | Returns the first index of largest absolute value, -1 for an empty vector |
| `Blas.Dscal` | testsuites/benchmarks/linpack/linpack-pc.c:968-986 | Scales exactly the given range in place |
| `Blas.Daxpy` | testsuites/benchmarks/linpack/linpack-pc.c:838-866 | Adds a multiple of one range to another, also inside the same array, and changes nothing else |
| `Factorization.StepLinear` | testsuites/benchmarks/linpack/linpack-pc.c:683-691 | One swap-and-eliminate step is linear |
| `Factorization.StepInjective` | testsuites/benchmarks/linpack/linpack-pc.c:683-691 | One step can be undone |
| `Factorization.ReplayLinear` | testsuites/benchmarks/linpack/linpack-pc.c:779-787 | Replaying the recorded steps is linear |
| `Factorization.ReplayInjective` | testsuites/benchmarks/linpack/linpack-pc.c:779-787 | Replaying the recorded steps is injective |
| `Factorization.ReplayOfProduct` | testsuites/benchmarks/linpack/linpack-pc.c:618-622 | The factors multiply back: replaying A·x gives U·x, for every factored matrix and every x |
| `Factorization.SolvesOriginal` | testsuites/benchmarks/linpack/linpack-pc.c:733-740 | If U·x equals the replayed right hand side then A·x equals the right hand side |
| `Factorization.SolutionUnique` | testsuites/benchmarks/linpack/linpack-pc.c:733-740 | With no zero on U's diagonal a system has one solution at most |
| `Factorization.KernelVector` | testsuites/benchmarks/linpack/linpack-pc.c:742-749 | From the first zero on U's diagonal a nonzero vector is built that U sends to zero |
| `Factorization.SingularIffZeroDiagonal` | testsuites/benchmarks/linpack/linpack-pc.c:742-749 | A is nonsingular exactly when U has no zero on its diagonal |
| `Elimination.StepClearsPivotColumn` | testsuites/benchmarks/linpack/linpack-pc.c:670-679 | The stored multipliers clear the pivot column below the diagonal |
| `Elimination.SweepKeepsFactored` | testsuites/benchmarks/linpack/linpack-pc.c:655-692 | Elimination step k extends the factorisation by one column, although earlier multiplier columns are not swapped |
| `Elimination.ZeroPivotKeepsFactored` | testsuites/benchmarks/linpack/linpack-pc.c:663-695 | A zero pivot leaves a column that is already triangular and a recorded step that does nothing |
| `Elimination.SweepGrowth` | testsuites/benchmarks/linpack/linpack-pc.c:660-691 | With the largest pivot, multipliers are at most 1 in size and other entries at most double per step |
| `Elimination.ZeroPivotGrowth` | testsuites/benchmarks/linpack/linpack-pc.c:663-695 | A zero pivot keeps the growth bound |
| `Elimination.UpperTriangleBound` | testsuites/benchmarks/linpack/linpack-pc.c:655-696 | Row i of U is at most 2^i, and all of U at most 2^(n-1), times the largest entry of A |
| `Elimination.InfoZeroMeans` | testsuites/benchmarks/linpack/linpack-pc.c:627-633 | info is 0 exactly when no diagonal entry after the first is zero |
| `Elimination.InfoZeroStillSingular` | testsuites/benchmarks/linpack/linpack-pc.c:744-749 | For the 1-by-1 zero matrix every result of dgefa has info 0 and a zero on the diagonal, against the comment |
| `Elimination.InfoZeroIsSafe` | testsuites/benchmarks/linpack/linpack-pc.c:744-749 | No division by zero exactly when info is 0 and the first diagonal entry is not zero |
| `Dgefa.ScaleColumn` | testsuites/benchmarks/linpack/linpack-pc.c:668-679 | Turns column k into the pivot and its multipliers, in place |
| `Dgefa.ApplyStep` | testsuites/benchmarks/linpack/linpack-pc.c:684-690 | Performs one recorded step in place on any range: a matrix column in dgefa, the right hand side in dgesl |
| `Dgefa.EliminateColumn` | testsuites/benchmarks/linpack/linpack-pc.c:684-690 | Step k changes column j of the matrix into its eliminated form and no other column |
| `Dgefa.EliminateStep` | testsuites/benchmarks/linpack/linpack-pc.c:666-692 | Step k over the whole matrix, column by column |
| `Dgefa.Dgefa` | testsuites/benchmarks/linpack/linpack-pc.c:652-700 | For every matrix, singular or not: the stored factors replay each original column to U with zeros below, the growth bound holds, info is the last zero of U's diagonal |
| `Dgesl.SubstituteColumn` | testsuites/benchmarks/linpack/linpack-pc.c:792-797 | One column of back substitution keeps the invariant of the partly solved triangular system |
| `Dgesl.BackSubstitute` | testsuites/benchmarks/linpack/linpack-pc.c:790-797 | Column-oriented back substitution solves the triangular system in place |
| `Dgesl.ForwardReplay` | testsuites/benchmarks/linpack/linpack-pc.c:778-788 | The forward loop replays exactly the recorded steps on b |
| `Dgesl.Dgesl` | testsuites/benchmarks/linpack/linpack-pc.c:772-797 | job 0 leaves an x with U·x equal to the replayed b |
| `Dgesl.FactorAndSolve` | testsuites/benchmarks/linpack/linpack-pc.c:289-292 | For every nonsingular A and every b, dgefa then dgesl overwrite b by the one x with A·x = b |
| `DgeslTransposed.StepAdjoint` | testsuites/benchmarks/linpack/linpack-pc.c:812-821 | A round of the transposed loop is the transpose of an elimination step |
| `DgeslTransposed.ReplayAdjoint` | testsuites/benchmarks/linpack/linpack-pc.c:809-822 | The transposed rounds from last to first are the transpose of the replay |
| `DgeslTransposed.TransposedProduct` | testsuites/benchmarks/linpack/linpack-pc.c:801-822 | trans(A) applied to the full transposed replay of z is trans(U)·z |
| `DgeslTransposed.ForwardSolves` | testsuites/benchmarks/linpack/linpack-pc.c:804-807 | Forward substitution solves trans(U)·z = b |
| `DgeslTransposed.ForwardInverts` | testsuites/benchmarks/linpack/linpack-pc.c:804-807 | ... and has no other solution |
| `DgeslTransposed.SolutionIsOneStepAway` | testsuites/benchmarks/linpack/linpack-pc.c:801-822 | The one solution of trans(A)·y = b is the computed vector with step 0 still applied to it |
| `DgeslTransposed.TransposedSolveRightIff` | testsuites/benchmarks/linpack/linpack-pc.c:733-736 | job != 0 is right for every b exactly when the first elimination step neither swapped nor eliminated |
| `DgeslTransposed.TransposedSolveFails` | testsuites/benchmarks/linpack/linpack-pc.c:811-813 | A 2-by-2 system that job != 0 gets wrong with every factorisation of its matrix |
| `DgeslTransposed.Ddot` | testsuites/benchmarks/linpack/linpack-pc.c:904-934 | The dot product of two ranges |
| `DgeslTransposed.SolveTransposedUpper` | testsuites/benchmarks/linpack/linpack-pc.c:804-807 | The first transposed loop is forward substitution, in place |
| `DgeslTransposed.ApplyStepT` | testsuites/benchmarks/linpack/linpack-pc.c:813-820 | One round of the second transposed loop, in place |
| `DgeslTransposed.DgeslTransposed` | testsuites/benchmarks/linpack/linpack-pc.c:799-823 | What job != 0 computes, with the loop bounds as written |
| `Dmxpy.CleanupOne` | testsuites/benchmarks/linpack/linpack-pc.c:1140-1145 | The odd column is added when there is one |
| `Dmxpy.CleanupTwo` | testsuites/benchmarks/linpack/linpack-pc.c:1149-1155 | The group of two continues exactly where the odd column ended |
| `Dmxpy.CleanupFour` | testsuites/benchmarks/linpack/linpack-pc.c:1159-1167 | The group of four continues exactly where the group of two ended |
| `Dmxpy.CleanupEight` | testsuites/benchmarks/linpack/linpack-pc.c:1171-1180 | The group of eight continues exactly where the group of four ended |
| `Dmxpy.AddSixteen` | testsuites/benchmarks/linpack/linpack-pc.c:1186-1203 | A round of the main loop adds the next sixteen columns |
| `Dmxpy.Dmxpy` | testsuites/benchmarks/linpack/linpack-pc.c:1140-1205 | y + M·x for every n1 and n2: every column is added exactly once |
| `Benchmark.Generator` | testsuites/benchmarks/linpack/linpack-pc.c:568-572 | The generator state stays odd and in 1..65535 and its product in the range of a 32-bit int |
| `Benchmark.GeneratedAtMostTwo` | testsuites/benchmarks/linpack/linpack-pc.c:573 | Every generated entry is at most 2 in size |
| `Benchmark.Matgen` | testsuites/benchmarks/linpack/linpack-pc.c:566-588 | The array holds the generated matrix, b its row sums, norma its largest entry or 0 |
| `Norma.NormaIsAbsoluteIff` | testsuites/benchmarks/linpack/linpack-pc.c:575-579 | norma equals the value of the fabs variant exactly when every negative entry is matched by a positive one of at least its size |
| `Norma.NormaOfOneEntry` | testsuites/benchmarks/linpack/linpack-pc.c:568-579 | For n = 1 norma is 0 although the entry is not |
| `Norma.SmallestState` | testsuites/benchmarks/linpack/linpack-pc.c:568-572 | State 7013 of the generator is 1, the smallest one |
| `Norma.GeneratedClosedForm` | testsuites/benchmarks/linpack/linpack-pc.c:568-573 | Entry (i, j) is (1325·3125^(n·j+i+1) mod 65536 - 32768) / 16384 |
| `Norma.NormaOfLargeMatrices` | testsuites/benchmarks/linpack/linpack-pc.c:568-579 | For every n from 84 on the two variants of norma differ |
| `Benchmark.Run` | testsuites/benchmarks/linpack/linpack-pc.c:287-313 | In exact arithmetic the benchmark returns all ones with residual 0 and norm 1, for every n with a nonsingular generated matrix |
| `Combinatorics.Absorption` | projectMigration/OS_LINUX/tinyexpr.c:147-152 | k·C(n,k) = n·C(n-1,k-1), so each division in ncr is exact |
| `Combinatorics.BinomialSymmetric` | projectMigration/OS_LINUX/tinyexpr.c:146 | Replacing r by n-r does not change the coefficient |
| `Combinatorics.RoundProductGrows` | projectMigration/OS_LINUX/tinyexpr.c:148-149 | The intermediate products grow, so the last round decides about saturation |
| `Combinatorics.OverflowGuard` | projectMigration/OS_LINUX/tinyexpr.c:135 | result > max / d says exactly that the product would overflow |
| `Combinatorics.Fac` | projectMigration/OS_LINUX/tinyexpr.c:127-140 | NaN below 0, the exact factorial exactly when it fits in an unsigned long, infinity otherwise |
| `Combinatorics.NcrLoop` | projectMigration/OS_LINUX/tinyexpr.c:145-153 | The loop is exact exactly when C(n,r)·r fits, and saturates otherwise |
| `Combinatorics.Ncr` | projectMigration/OS_LINUX/tinyexpr.c:141-154 | NaN outside the domain, the exact binomial coefficient exactly when C(n,r)·min(r,n-r) fits, infinity otherwise |
| `Combinatorics.BinomialTimesFactorial` | projectMigration/OS_LINUX/tinyexpr.c:155 | C(n,r)·r! is the falling factorial |
| `Combinatorics.Npr` | projectMigration/OS_LINUX/tinyexpr.c:155 | The falling factorial whenever neither kernel saturates |
| `Names.CompareIsExact` | projectMigration/OS_LINUX/tinyexpr.c:202-203 | The length-limited comparison with its correction is the exact order, also for proper prefixes |
| `Names.FindBuiltin` | projectMigration/OS_LINUX/tinyexpr.c:195-214 | On any strictly sorted table the binary search finds exactly the entry of that name |
| `Names.PrefixTestIsEquality` | projectMigration/OS_LINUX/tinyexpr.c:222 | The test of find_lookup is equality of names |
| `Names.FindLookup` | projectMigration/OS_LINUX/tinyexpr.c:216-227 | The first user entry of that name |
| `Names.BuiltinsSorted` | projectMigration/OS_LINUX/tinyexpr.c:162-193 | The builtin table is in strict alphabetical order |
| `Names.BuiltinEntries` | projectMigration/OS_LINUX/tinyexpr.c:162-193 | Each builtin is pure, without context, of the arity of its function, and calls the function of its name, but for abs, ln, log and pow |
| `Lexer.IdentifierEnd` | projectMigration/OS_LINUX/tinyexpr.c:258 | The longest run of identifier characters |
| `Lexer.TokenFrom` | projectMigration/OS_LINUX/tinyexpr.c:239-303 | Lexing never moves back or past the end, and only a number may be empty |
| `Lexer.Advance` | projectMigration/OS_LINUX/tinyexpr.c:239-303 | The parser's measure falls whenever the token just left consumed input |
| `Lexer.NumberNeedNotConsume` | projectMigration/OS_LINUX/tinyexpr.c:250-252 | On a lone dot a number token may consume nothing |
| `Lexer.FindName` | projectMigration/OS_LINUX/tinyexpr.c:260-264 | User table first, then builtins, else an error |
| `Lexer.UserEntriesShadow` | projectMigration/OS_LINUX/tinyexpr.c:260-261 | A user entry shadows a builtin of the same name |
| `Lexer.State.NextToken` | projectMigration/OS_LINUX/tinyexpr.c:239-303 | The loop computes the token function and terminates on every input |
| `Spelling.LookupStandsFor` | projectMigration/OS_LINUX/tinyexpr.c:216-287 | A name stands for the first user entry of that name, with its address, type and context, else for the builtin, else for an error |
| `Spelling.ReadsSpelling` | projectMigration/OS_LINUX/tinyexpr.c:239-303 | Whatever tokens the input spells, with whatever white space between them, are read in that order and then the end; the characters of each token are given literally |
| `Spelling.EverythingIsSpelled` | projectMigration/OS_LINUX/tinyexpr.c:239-303 | Every input position has a spelled token or only white space after it |
| `Spelling.BinaryText` | projectMigration/OS_LINUX/tinyexpr.c:287-298 | x+y, x-y, x*y, x/y, x%y, x^y and x,y are accepted and stand for the operation of that sign on the two variables |
| `Grammar.ParityOfMinuses` | projectMigration/OS_LINUX/tinyexpr.c:424-428 | A sign prefix negates exactly for an odd number of minus signs |
| `Grammar.CallTokens` | projectMigration/OS_LINUX/tinyexpr.c:374-393 | The arguments of a call stand between parentheses with a comma between any two |
| `Grammar.DenotesWellFormed` | projectMigration/OS_LINUX/tinyexpr.c:310-589 | The tree of a derivation has no missing part and the right number of arguments everywhere |
| `Grouping.Unchain` | projectMigration/OS_LINUX/tinyexpr.c:503-589 | Every derivation of a factor, term, expr or list is a chain of lower operands joined by the operators of its level, in reading order |
| `Grouping.ChainGroupsToTheLeft` | projectMigration/OS_LINUX/tinyexpr.c:503-589 | A chain of any length and of any operators stands for the left fold of its operands |
| `Grouping.ChainGroupsToTheRight` | projectMigration/OS_LINUX/tinyexpr.c:448-501 | With TE_POW_FROM_RIGHT a chain of powers is p0^(p1^(...^pm)), a negation of p0 in front of it all |
| `Grouping.RepetitionGroups` | projectMigration/OS_LINUX/tinyexpr.c:448-589 | The tree of every factor, term, expr and list is the fold of its operands, in both builds |
| `Grouping.NegativeFrontNegates` | projectMigration/OS_LINUX/tinyexpr.c:455-460 | The trees factor takes a negation off are exactly those of expressions with an odd number of signs in front, seen through parentheses and powers |
| `Grouping.ParenthesisedBase` | projectMigration/OS_LINUX/tinyexpr.c:455-460 | A base in parentheses is raised as a whole exactly when it has no such front |
| `Grouping.NegativeBaseFails` | projectMigration/OS_LINUX/tinyexpr.c:455-460 | (-a)^b stands for -(a^b) with TE_POW_FROM_RIGHT, for a power of -a without |
| `ParserSpec.ParseLevel` | projectMigration/OS_LINUX/tinyexpr.c:310-589 | The mutually recursive parser terminates on every input and never climbs in the measure |
| `ParserProofs.LevelSound` | projectMigration/OS_LINUX/tinyexpr.c:310-589 | What a parsing function returns is a derivation of its symbol over exactly the tokens read |
| `ParserProofs.LevelComplete` | projectMigration/OS_LINUX/tinyexpr.c:310-589 | Every derivation that is not followed by a continuing token is found |
| `ParserProofs.AcceptsExactlyTheGrammar` | projectMigration/OS_LINUX/tinyexpr.c:671-690 | The whole input is accepted exactly when a derivation yields it, and that derivation is returned |
| `ParserProofs.DerivationUnique` | projectMigration/OS_LINUX/tinyexpr.c:310-589 | No input has two derivations |
| `Precedence.GrammarByClasses` | projectMigration/OS_LINUX/tinyexpr.c:422-589 | The grammar, said by the classes ^, then * / %, then + -, then the comma: no looser operator stands unparenthesised under a tighter one |
| `Precedence.TwoOperators` | projectMigration/OS_LINUX/tinyexpr.c:528-568 | Of two operators the second is applied first exactly when it is of a tighter class |
| `Precedence.ParsedByPrecedence` | projectMigration/OS_LINUX/tinyexpr.c:448-589 | Every input operand, operator, operand, ..., operand is accepted, and the last of its loosest operators is applied last, on both sides again so; in both builds |
| `SyntaxError.LevelViable` | projectMigration/OS_LINUX/tinyexpr.c:310-589 | What a parsing function has read before it fails begins a derivation |
| `SyntaxError.LevelPast` | projectMigration/OS_LINUX/tinyexpr.c:310-589 | As long as the tokens begin a derivation the parser goes on past them |
| `SyntaxError.FailsAtFirstOffending` | projectMigration/OS_LINUX/tinyexpr.c:677-684 | A refused input is refused at the first token with which no derivation, the end counted as a token, could go on |
| `SyntaxError.FirstOffendingUnique` | projectMigration/OS_LINUX/tinyexpr.c:677-684 | There is one such token |
| `DocumentedGrammar.DocumentedIsWider` | projectMigration/OS_LINUX/tinyexpr.c:311 | The grammar of the code is the documented one without repeated pairs of parentheses |
| `DocumentedGrammar.CloseOpenIffRepeats` | projectMigration/OS_LINUX/tinyexpr.c:311 | A closing parenthesis stands directly before an opening one exactly in the inputs with a repeated pair |
| `DocumentedGrammar.AcceptedIffNotRepeated` | projectMigration/OS_LINUX/tinyexpr.c:334-348 | A documented input is accepted exactly when no call without arguments has more than one pair, and then with that derivation |
| `DocumentedGrammar.TwoPairsRefused` | projectMigration/OS_LINUX/tinyexpr.c:334-348 | f()() is documented and refused for every function f without arguments |
| `DocumentedGrammar.TwoPairsOnPi` | projectMigration/OS_LINUX/tinyexpr.c:334-348 | pi()() is refused |
| `NodeHeap.Heap.Malloc` | projectMigration/OS_LINUX/tinyexpr.c:91-92 | Fails at any time with the heap unchanged, or gives a cell that was not live |
| `NodeHeap.Heap.NewExpr` | projectMigration/OS_LINUX/tinyexpr.c:87-101 | A zeroed node with its parameters and room for a closure's context |
| `NodeHeap.Heap.TeFreeParameters` | projectMigration/OS_LINUX/tinyexpr.c:104-115 | Frees exactly the nodes of the children; the context of a closure is not touched |
| `NodeHeap.Heap.TeFree` | projectMigration/OS_LINUX/tinyexpr.c:118-122 | Frees every node of a tree exactly once and nothing else |
| `NodeHeap.GrewBinary` | projectMigration/OS_LINUX/tinyexpr.c:514-518 | A new node over two trees accounts for everything allocated since |
| `NodeHeap.GrewArgument` | projectMigration/OS_LINUX/tinyexpr.c:379-382 | Filling in an argument of a partly built call keeps the account |
| `NodeHeap.ReplaceKid` | projectMigration/OS_LINUX/tinyexpr.c:649-650 | Optimising a child in place keeps the tree a tree |
| `PowerFromRight.InsertAtTail` | projectMigration/OS_LINUX/tinyexpr.c:468-478 | The in-place tail insertion keeps the chain a tree, loses no operand and appends the new one |
| `PowerFromRight.EraseSpine` | projectMigration/OS_LINUX/tinyexpr.c:468-490 | The chain built by insertion is the right-grouped power of its operands |
| `PowerFromRight.StripUnary` | projectMigration/OS_LINUX/tinyexpr.c:455-460 | Taking off a negation frees exactly one node |
| `Parser.Chain` | projectMigration/OS_LINUX/tinyexpr.c:503-589 | factor, term, expr and list compute the specification with left grouping; a null result leaves the heap as it was |
| `Parser.Power` | projectMigration/OS_LINUX/tinyexpr.c:422-445 | Signs by parity, one negation node at most, heap accounted for |
| `Parser.FactorRight` | projectMigration/OS_LINUX/tinyexpr.c:448-501 | factor with TE_POW_FROM_RIGHT computes the right-grouped tree, heap accounted for under every pattern of failures |
| `Parser.AppendPower` | projectMigration/OS_LINUX/tinyexpr.c:468-489 | One round of its loop, both branches |
| `Parser.Base` | projectMigration/OS_LINUX/tinyexpr.c:310-419 | All cases of base; an error leaves the state stuck on TOK_ERROR at the position of the specification |
| `Parser.OneArgument` | projectMigration/OS_LINUX/tinyexpr.c:350-360 | A function of one argument takes a power without parentheses |
| `Parser.NextArgument` | projectMigration/OS_LINUX/tinyexpr.c:379-382 | Reads and stores one argument; a failed allocation frees the whole call |
| `Parser.Arguments` | projectMigration/OS_LINUX/tinyexpr.c:374-393 | Exactly as many arguments as the arity, separated and closed, or an error |
| `Evaluator.FoldedValue` | projectMigration/OS_LINUX/tinyexpr.c:655-660 | A pure call on constants has the folded value in every world, without any effect |
| `Evaluator.OptimizePreservesMeaning` | projectMigration/OS_LINUX/tinyexpr.c:639-662 | Same value, same final world and the same impure calls in the same order, from every world and for every argument order |
| `Evaluator.OptimizeKeepsWellFormed` | projectMigration/OS_LINUX/tinyexpr.c:639-662 | The optimised tree has no missing part |
| `Evaluator.OptimizeIdempotent` | projectMigration/OS_LINUX/tinyexpr.c:639-662 | Optimising twice is optimising once |
| `Evaluator.ClosedFolds` | projectMigration/OS_LINUX/tinyexpr.c:644-661 | A tree folds to one constant exactly when it has no variable and no impure call |
| `Meaning.EvalIsRelation` | projectMigration/OS_LINUX/tinyexpr.c:596-634 | Evaluation is the one result allowed: a variable is what its address holds, a call gets the values of its arguments in their positions, the world passes from argument to argument, only impure calls are effects |
| `Meaning.EvalIsValue` | projectMigration/OS_LINUX/tinyexpr.c:596-634 | Without impure calls the value is the structural one over what the variables hold, and nothing changes |
| `Meaning.EffectsAreImpureCalls` | projectMigration/OS_LINUX/tinyexpr.c:596-634 | Evaluation makes exactly the impure calls written in the tree, each once, with its function and context |
| `Meaning.OptimizeFoldsClosedParts` | projectMigration/OS_LINUX/tinyexpr.c:639-662 | Below pure calls exactly the parts without variables and impure calls become constants, each with its value |
| `Meaning.TreeHasWorth` | projectMigration/OS_LINUX/tinyexpr.c:310-589 | The tree of an expression has the value of the expression as written: signs by parity, operands and arguments in order, closures with their context |
| `Meaning.CompiledWorth` | projectMigration/OS_LINUX/tinyexpr.c:596-690 | Compiling, optimising and evaluating gives the value of the expression at the time of evaluation |
| `Compiler.TeEval` | projectMigration/OS_LINUX/tinyexpr.c:596-634 | Evaluating the nodes in the heap gives the value, world and effects of the tree |
| `Compiler.Optimize` | projectMigration/OS_LINUX/tinyexpr.c:639-662 | Folds in place to the optimised tree, frees exactly the folded nodes, calls no impure function |
| `Compiler.Fold` | projectMigration/OS_LINUX/tinyexpr.c:655-660 | Turns a pure call on constants into a constant node and frees its parameters |
| `Compiler.TeCompile` | projectMigration/OS_LINUX/tinyexpr.c:665-690 | Without failures succeeds exactly on the grammar with the optimised tree of the one derivation owning all that is left on the heap; every failure restores the heap; a syntax error is reported just after the first offending token, or as 1, and never past the end |
| `Compiler.WithoutVariablesFoldsToConstant` | projectMigration/OS_LINUX/tinyexpr.c:693-694 | An expression over the builtins compiles to a single constant |
| `Compiler.TeInterp` | projectMigration/OS_LINUX/tinyexpr.c:693-704 | The value of the expression as written or NaN, and nothing stays on the heap |
| `IncludeGraph.IncludesDescend` | testsuites/rtems-test-check.py:167-173 | Away from cycles an included file has less below it |
| `IncludeGraph.ExpandingShrinks` | testsuites/rtems-test-check.py:140-173 | Replacing a file by its includes makes the worklist lighter, however often a file is queued |
| `IncludeGraph.ClosedHasReachable` | testsuites/rtems-test-check.py:140-173 | A set closed under includes has everything reachable |
| `IncludeGraph.ReachableExpanded` | testsuites/rtems-test-check.py:140-173 | Reading a file replaces it by its includes without changing what else can be reached |
| `IncludeGraph.IncludedBackwards` | testsuites/rtems-test-check.py:167-173 | The includes of a file stand in front of the worklist, the last one first |
| `LoadRun.WorkOff` | testsuites/rtems-test-check.py:140-199 | The files queued before the first one that leads to a cycle are worked off, or a rejected line below them ends the run |
| `LoadRun.EndsIff` | testsuites/rtems-test-check.py:140-199 | Loading ends exactly when no start file leads to a cycle or a rejected line stops it on its way into one, for which as many steps matter as there are files |
| `LoadRun.CleanEndsIff` | testsuites/rtems-test-check.py:140-199 | With no rejected line in reach, loading ends exactly when no start file leads to a cycle |
| `LoadRun.SelfInclude` | testsuites/rtems-test-check.py:167-173 | A file that includes itself is loaded without end unless one of its lines is rejected |
| `TestCheck.Loader.AddNames` | testsuites/rtems-test-check.py:190-195 | Names are appended to their section and no other |
| `TestCheck.Loader.ReadLines` | testsuites/rtems-test-check.py:153-199 | Fails exactly on a rejected line, otherwise queues the includes in front and appends the names in order |
| `TestCheck.NamedOnALine` | testsuites/rtems-test-check.py:190-195 | What is stored under a section are the names on the lines of that section |
| `TestCheck.Loader.Load` | testsuites/rtems-test-check.py:140-199 | Whenever the rounds end: the result is theirs, it fails exactly when a reachable file has a rejected line, otherwise it collects exactly what reachable files list |
| `TestCheck.Reinclude` | testsuites/rtems-test-check.py:227-237 | The inner loop over rinclude |
| `TestCheck.Decide` | testsuites/rtems-test-check.py:210-237 | Excluded by name, or matched by some rexclude and no rinclude; an error exactly when an invalid pattern is compiled |
| `TestCheck.SortedSet` | testsuites/rtems-test-check.py:258 | Strictly ascending with the same elements |
| `TestCheck.Filter` | testsuites/rtems-test-check.py:205-258 | Prints exactly the tests that are not left out, sorted, without duplicates |
| `TestCheck.DecisionFromFiles` | testsuites/rtems-test-check.py:205-242 | The decision depends on what reachable files list, not on the order of reading |
| `TestCheck.Check` | testsuites/rtems-test-check.py:140-258 | Exclude mode end to end whenever loading ends: the output and the exact conditions for INVALID-TEST-DATA in terms of the files |
| `Sampler.UsageRounds` | memory_usage/README.md:67-71 | With free <= total the usage is in 0..100000 and rounded to the nearest |
| `Sampler.WrappedDifference` | memory_usage/README.md:124-125 | The wrapped difference of two reads is the true one while that fits in 32 bits |
| `Sampler.DueTest` | memory_usage/README.md:131-133 | The comparison below 2^31 says exactly that the next sample is due |
| `Sampler.SampleRecords` | memory_usage/README.md:55-81 | A sample holds the reported sizes in their fields, used and free add up to total, the usage is the rounded share, and everything is 0 when there is no report |
| `Sampler.Recorder.TakeOneSample` | memory_usage/README.md:47-82 | Appends such a sample, or changes nothing when the buffer is full |
| `Sampler.Recorder.Record` | memory_usage/README.md:116-141 | Each sample is taken at the first read that is due and records the report of that moment with the true elapsed ticks, at most 80 in all so the buffer guard never fires; the loop ends with the first read 4000 ticks or more after the base |
| `Sampler.ElapsedAscends` | memory_usage/README.md:123-136 | Elapsed times ascend from sample to sample |
| `Sampler.SteadyClock` | memory_usage/README.md:26-32 | A clock read at every tick gives exactly the 80 samples at 0, 50, ..., 3950 |

## Left out

- Floating-point rounding, infinities and NaN in the LINPACK code: arithmetic is exact, so the residual and solution results are about the algorithm, not about its rounding error.
- `Blas.Idamax`: unit stride only, which is all dgefa uses.
- `Blas.Dscal`: unit stride only, which is all dgefa uses.
- `Blas.Daxpy`: unit stride and ranges that do not overlap only, as in all calls of dgefa and dgesl.
- `DgeslTransposed.Ddot`: unit stride only, which is all dgesl uses.
- The bodies selected by UNROLL, which use an undeclared variable.
- `epslon`, timing and the repetition loops of the benchmark's main.
- `Dgesl.Dgesl`: a zero on the diagonal of U is excluded, since the C code then divides by zero.
- `Benchmark.Run`: that the generated matrix is nonsingular for a given n is an assumption, not a result.
- The bit encoding of TinyExpr's type codes and the lookup of entries with illegal codes; a NaN argument of fac, ncr and npr, whose conversion C leaves undefined.
- `Combinatorics.Npr`: the product is stated before its conversion to double.
- `te_print`, the mathematical library functions, the arithmetic of the operators on doubles and the digit conversion of strtod; the build with TE_NAT_LOG, in which log is the natural logarithm.
- `Compiler.TeInterp`: with TE_POW_FROM_RIGHT the value is that of the tree `Grouping` describes; the value as written is stated for the default build.
- Calling te_compile with a null error pointer or a null table with a nonzero count.
- The other two copies of tinyexpr.c in the repository, which are the same code.
- Splitting and cleaning configuration lines, command-line handling, verbose output and the cflags mode of rtems-test-check.py; lines are taken as parsed, and lines with build flags are accepted and not stored.
- The `None` entry the script queues when its include paths hold no start file, which it skips; a start path that does not exist is modelled (it is not in the tree of files).
- `TestCheck.Loader.Load`: runs without end, which have no result; `LoadRun.EndsIff` says exactly which they are.
- `TestCheck.Check`: the same runs without end.
- `isalpha` in locales other than C: a letter is an ASCII letter.
- Printing of the samples, and clocks whose reads are 2^32 - 4000 ticks or more apart or do not advance over a sleep of one tick.
- File-system, library and Ada test suites, Dhrystone, Whetstone, JFFS2 support and the application main files: they drive a kernel that is not part of this model or would only add easy members.
