# SharesSkew join planning, modelled in Dafny

This project models the core of a MapReduce multiway-join system. The system
runs the Shares algorithm and its skew-aware variant, SharesSkew. The core
covers six steps:

- **Domination.** The relational schema is written as a binary matrix: one
  row per relation, one column per attribute. From it the system builds a
  domination matrix and infers which attributes dominate others. It then
  derives, for each relation, the attributes of its term in the
  communication-cost expression (skew/sharesJoin.py).
- **Descriptor files.** The planner reads the relations file, the sizes file
  and the heavy-hitter file. It lists every residual join as one choice per
  attribute: a wildcard or one heavy-hitter value. It rescales each relation's
  size for every residual join, and computes the "ordinary" fractions left
  after all heavy hitters are taken out (skew/premap.py).
- **Solver input.** The cost of each residual join becomes an objective text,
  and the product of the shares becomes a reducer-budget constraint text. Both
  are handed to an external MINLP solver (skew/minlpSolver.py). The model reads
  both texts back with a small evaluator and proves what they mean.
- **Map side.** Each input tuple is checked against its residual join, widened
  to the full attribute width, and sent to every reducer key it must reach
  (justshares.py).
- **Reduce side.** Each reducer decodes the tuples it receives and joins the
  three relations with a double hash join. It counts the results or emits
  them (justshares.py).
- **Report parsing.** The job report reads durations written as
  "50mins,20sec" (presentation/joinJob.py).

The Dafny modules follow those files:

| module | file | source |
|---|---|---|
| `Base` | base.dfy | error values (`ValueError`, `IndexError`, `KeyError`), sums and products, Python's negative indexing, Cartesian products |
| `Text` | text.dfy | Python 2's `str.split`, `str.join`, `int()`, `float()`, `str()` of an integer, whitespace stripping, `str.replace(pat, "")`, `str.translate(None, chars)`, and byte-string order for `sorted` |
| `SharesJoin` | shares_join.dfy | skew/sharesJoin.py |
| `Premap` | premap.dfy | skew/premap.py |
| `MinlpModel` | minlp_model.dfy | skew/minlpSolver.py |
| `Routing` | routing.dfy | the map side of justshares.py |
| `PartitionJoin` | partition_join.dfy | the reduce side of justshares.py |
| `JoinJob` | join_job.dfy | presentation/joinJob.py |

Python's exceptions on malformed data become `Err(ValueError)`,
`Err(IndexError)` or `Err(KeyError)`. Set-iteration order, which Python leaves
unspecified, is modelled as a set. Where the model needs a concrete order, it
takes the order as a parameter and proves that the result does not depend on
it. Floating-point values are idealised as `real`. The `%d` format truncates
toward zero, and the model does the same (`MinlpModel.Trunc`).

decideSingleResidual accepts an input wildcard where the residual join pins a
heavy-hitter value (justshares.py:50-53), and its comment calls that residual
correct; `Routing.WildcardMatchesPin` states it.

## Model

| member | source | states |
|---|---|---|
| SharesJoin.ConstructDominationMatrix | skew/sharesJoin.py:123-172 | the matrix is n×n with cells in {-1, 0, 1}; a cell is not -1 exactly when the two attributes occur together in some relation; a cell is 1 exactly when they occur together and some relation carries the first without the second; the result equals SharesJoin.DominationMatrixOf, the matrix that the domination lemmas are stated about |
| SharesJoin.MarkCoOccurrence | skew/sharesJoin.py:154-162 | after the first sweep a cell is 0 exactly when some relation carries both attributes and -1 otherwise |
| SharesJoin.MarkDomination | skew/sharesJoin.py:164-171 | starting from the first sweep's matrix, a cell ends as 1 exactly when the attributes co-occur and some relation carries the row attribute without the column attribute; other cells keep their value |
| SharesJoin.CellShape | skew/sharesJoin.py:154-171 | the matrix is -1 symmetric; the diagonal is never 1; an attribute that no relation carries has a -1 row and a -1 column |
| SharesJoin.CellOrderIndependent | skew/sharesJoin.py:157-171 | reordering the relations of the schema does not change any cell |
| SharesJoin.InferDominatingAttrs | skew/sharesJoin.py:175-219 | a is in the dominating set exactly when it dominates some b, and b is in the dominated set exactly when some a dominates it; a pair with 1 in both cells contributes nothing |
| SharesJoin.DominationRule | skew/sharesJoin.py:124-132 | on a 0/1 schema, i dominates j exactly when every relation that carries j also carries i, some relation carries j, and some relation carries i without j |
| SharesJoin.BothOnesIncomparable | skew/sharesJoin.py:202-205 | both cells are 1 exactly when the attributes co-occur and each escapes the other; neither then dominates the other |
| SharesJoin.TestSchemaMatrix | tests/premap_tests.py:20-35 | the matrix built from the test schema is the matrix the test expects |
| SharesJoin.TestMatrixInference | tests/premap_tests.py:38-49 | the test matrix infers dominating {2, 3} and dominated {1, 4, 5} |
| SharesJoin.DominationSetsMayOverlap | skew/sharesJoin.py:200-219 | on the schema [[0,1,0,0],[0,1,1,0],[0,1,1,1]], attribute 2 lands in both the dominating and the dominated output |
| SharesJoin.DominatingIntended | skew/sharesJoin.py:175-219 | the corrected dominating set is disjoint from the dominated set and covers the same attributes together with it; what its members are under the domination rule is stated by SharesJoin.DominatingIntendedRule |
| SharesJoin.DominatingIntendedRule | skew/sharesJoin.py:126-127 | for every 0/1 schema, an attribute is in the corrected dominating set exactly when, under the domination rule, it dominates some attribute and no attribute dominates it |
| SharesJoin.DominatingIntendedExamples | skew/sharesJoin.py:200-219 | on the overlapping schema attribute 2 is reported as dominating by the original inference but not by the corrected one |
| SharesJoin.DominatingIntendedOnTest | skew/sharesJoin.py:200-219 | on the test schema the corrected dominating set is still {2, 3}, the same as the original inference |
| SharesJoin.CostExprVars | skew/sharesJoin.py:108-120 | as written, the term of a relation holds exactly the attributes 1..n-1 it does not carry, plus the dominated ones it does carry |
| SharesJoin.CostTermsOnTestSchema | tests/premap_tests.py:52-63 | on the test schema the code as written gives [{1,3,4,5}, {1,4,5}, {1,2,4,5}], while the corrected terms are the expected [{3}, {}, {2}] |
| SharesJoin.IntendedIsWrittenWithoutDominated | skew/sharesJoin.py:93-107 | each corrected term is the written term minus the dominated attributes, so it holds only free, non-dominated attributes |
| Premap.MarkAll | skew/premap.py:45-47 | marking succeeds exactly when every listed index is valid under Python indexing, which allows negative indices; a position becomes 1 when it is listed and keeps its old value otherwise; on failure the error is IndexError |
| Premap.SchemaLine | skew/premap.py:40-48 | a parsed row has one 0/1 entry per attribute; a line without '(' raises IndexError; other failures are IndexError or ValueError |
| Premap.SchemaLineRoundTrip | skew/premap.py:40-48 | reading a rendered line "R(A1,A3,…)" marks exactly the rendered attribute indices in a zero row |
| Premap.SchemaRowOrderIndependent | skew/premap.py:45-47 | two attribute lists with the same members give the same row |
| Premap.TestRelationsFile | tests/premap_tests.py:9-17 | the three lines of the test relations file give the three rows of the test schema |
| Premap.SizeLineRoundTrip | skew/premap.py:65-71 | a line "name   size" is read back as that size |
| Premap.TestSizesFile | tests/premap_tests.py:66-69 | the test sizes file reads as [5000, 10000, 500] |
| Premap.HeavyLineRoundTrip | skew/premap.py:103-111 | a line "A<a>   <v>   R1:f1,R2:f2,…" is read back as attribute a, value v and the fractions, or fails with the error of the first bad fraction |
| Premap.PutValueUnique | skew/premap.py:112-116 | storing fractions for a value keeps the value list of an attribute free of duplicates |
| Premap.Put | skew/premap.py:112-116 | after storing, the attribute's value maps to the new fractions; other values and other attributes keep what they had |
| Premap.PutWellFormed | skew/premap.py:112-116 | storing keeps the catalogue free of duplicate attributes and of empty value lists |
| Premap.ReadParsed | skew/premap.py:99-117 | reading the heavy-hitter lines succeeds exactly when every line parses and names a valid slot; the result has one value list per attribute, each starting with the wildcard |
| Premap.ReadHeavyHittersLists | skew/premap.py:99-117 | slot i lists the wildcard followed by the values of the lines for that slot, in file order |
| Premap.ReadHeavyHittersCatalogue | skew/premap.py:112-116 | the catalogue holds, for each attribute and value, the fractions of the last line that gave them |
| Premap.CombinationsOfHeavyHitters | skew/premap.py:135-154 | there are as many residual joins as the product of the list lengths; the first is all wildcards; a tuple is a residual join exactly when it picks one entry per attribute from that attribute's list; with duplicate-free lists no residual join repeats |
| Premap.Multiplier | skew/premap.py:179-190 | a pinned value missing from the catalogue raises KeyError; otherwise position j has a rate exactly when the column is covered, and the rate is the pinned value's fraction or the ordinary remainder |
| Premap.ReplaceFrom | skew/premap.py:164-193 | rescaling succeeds exactly when every pinned value is priced, and raises KeyError otherwise; the result is never longer than the sizes |
| Premap.ReplaceFromCovers | skew/premap.py:191-192 | a rescaled size exists at position j exactly when every heavy attribute covers column j |
| Premap.ReplaceFromProduct | skew/premap.py:179-192 | each rescaled size is the original size times the rates of all heavy attributes at that position |
| Premap.ReplaceSizeUntouched | skew/premap.py:171-174 | attributes without heavy hitters leave the sizes unchanged |
| Premap.Pinned | skew/premap.py:204-209 | the pinned list holds exactly the attributes with a value in the residual join, in increasing order |
| Premap.SubtractAll | skew/premap.py:121-132 | position j survives exactly when every heavy value covers column j, and it is the starting value minus the sum of that column |
| Premap.RefinedIsOrdinaryMultiplier | skew/premap.py:121-132 | the refined fractions of an attribute are what rescaling uses for a wildcard |
| MinlpModel.Trunc | skew/minlpSolver.py:34 | `%d` truncates toward zero, for positive and for negative values |
| MinlpModel.ConstructObjective | skew/minlpSolver.py:14-42 | the objective text is empty exactly when there are no relations |
| MinlpModel.ObjectiveRoundTrip | skew/minlpSolver.py:33-41 | the objective text reads back as one summand per relation: the truncated size times the share variables of its term, or times 1 for an empty term |
| MinlpModel.ObjectiveMeaning | skew/minlpSolver.py:14-42 | for any share assignment, the objective text evaluates to the communication cost: the sum over relations of size times the product of the term's shares |
| MinlpModel.ObjectiveOfNoRelations | skew/minlpSolver.py:41 | with no relations the objective is the empty text, which the evaluator rejects |
| MinlpModel.ObjectiveExample | skew/minlpSolver.py:33-41 | a three-relation example with a fractional size and an empty term reads back as the expected summands |
| MinlpModel.UniqueVars | skew/minlpSolver.py:45-55 | the unique variables are exactly those occurring in some term |
| MinlpModel.ConstructConstraint | skew/minlpSolver.py:58-80 | the constraint text is "- k == 0" exactly when no term has a variable |
| MinlpModel.ConstraintRoundTrip | skew/minlpSolver.py:73-80 | the constraint text reads back as the product of the unique variables against the budget k |
| MinlpModel.ConstraintMeaning | skew/minlpSolver.py:58-80 | the constraint holds for a share assignment exactly when the product of the shares of the unique variables is k |
| MinlpModel.ConstraintOrderIndependent | skew/minlpSolver.py:55 | whichever order the set of unique variables is listed in, the constraint holds for the same assignments |
| MinlpModel.SharesPermutation | skew/minlpSolver.py:73-80 | the product of shares over two listings of the same distinct variables is the same |
| Routing.HasHh | justshares.py:14-19 | an attribute has heavy hitters exactly when some residual description pins it |
| Routing.AllValuesOfHh | justshares.py:22-29 | the values of an attribute are exactly those some description pins it to |
| Routing.Inverted | justshares.py:119-122 | the inverted index holds exactly the pinned (attribute, value) pairs |
| Routing.DecideSingleResidual | justshares.py:31-58 | the loop accepts exactly when every position admits the input value: a residual wildcard admits any value that is not a pinned heavy hitter of that attribute; a pinned value admits itself or an input wildcard |
| Routing.WildcardMatchesPin | justshares.py:50-53 | replacing an accepted input value by a wildcard at a pinned position keeps it accepted |
| Routing.ExtendTuple | justshares.py:65-72 | widening succeeds exactly when the relation carries no more attributes than the tuple has values, and raises IndexError otherwise; the result has the schema width, with '_' where the relation does not carry the attribute |
| Routing.ExtendTupleAt | justshares.py:65-72 | the i-th carried position holds the next unused tuple value |
| Routing.ProjectExtend | justshares.py:65-72 | projecting a widened tuple back onto the carried positions gives the tuple |
| Routing.CompleteShares | justshares.py:140-145 | the completed shares have the old keys, the pinned attributes and "1".."4"; pinned attributes get share 1; missing defaults get 1; other shares are kept |
| Routing.CompleteSharesIdempotent | justshares.py:140-145 | completing twice is the same as completing once |
| Routing.KeyCoordinates | justshares.py:146-155 | every reducer key lies in the share grid and fixes each carried attribute to its value modulo the share |
| Routing.KeysComplete | justshares.py:146-155 | every grid point that agrees with the tuple's carried values is a reducer key |
| Routing.KeysCount | justshares.py:146-155 | there are as many keys as the product of the free shares, and none repeats |
| Routing.KeysMeet | justshares.py:146-155 | two tuples that agree on every attribute both carry share at least one reducer key, so joining tuples meet |
| Routing.KeyTextInjective | justshares.py:150-155 | different keys of the same length render as different key texts |
| Routing.EmitDistinct | justshares.py:158-164 | distinct keys give distinct emitted key texts |
| Routing.EmitCovers | justshares.py:158-164 | the emitted key texts are exactly the texts of the keys |
| Routing.ReadTuple | justshares.py:131-136 | an input line is read as a relation number and a widened tuple; a bad relation number raises ValueError |
| Routing.ReadRenderedLine | justshares.py:131-136 | a rendered line "R<rel> v1 v2 …" reads back as that relation and its widened tuple |
| Routing.ListsKeysUnique | justshares.py:146 | only one strictly sorted listing of the share names exists |
| Routing.IdentityMap | justshares.py:130-164 | the mapper fails exactly when the line cannot be read; it emits nothing without a residual join; the emitted keys are distinct; every emitted value is the encoded tuple |
| Routing.IdentityMapRoutes | justshares.py:138-164 | the mapper emits the encoded tuple once per reducer key, and the number of pairs is the product of the free shares |
| PartitionJoin.BuildIndex | justshares.py:88-89 | the hash table maps each key to the tuples with that key, in input order |
| PartitionJoin.NestedMember | justshares.py:84-96 | a triple is in the join exactly when its parts come from the three tables and agree on both join columns |
| PartitionJoin.DoubleHashJoin | justshares.py:84-96 | the double hash join returns exactly the nested-loop join, in the same order |
| PartitionJoin.DecodeValueText | justshares.py:214-217 | an encoded "rel:v1+v2+…" value decodes to that relation and tuple |
| PartitionJoin.DecodeValue | justshares.py:214-217 | a bad relation number raises ValueError; a value without ':' raises IndexError |
| PartitionJoin.Table | justshares.py:218-227 | a relation's table holds exactly the decoded tuples of that relation |
| PartitionJoin.CountReducer | justshares.py:206-232 | the reducer succeeds exactly when every value decodes, and the count is the size of the join of the three tables |
| PartitionJoin.HashReducer | justshares.py:234-257 | the reducer succeeds exactly when every value decodes, and emits one rendered line per triple of the join, in join order |
| JoinJob.MatchSuffixSpec | presentation/joinJob.py:30-37 | `.*<suffix>$` matches exactly when the match can end somewhere; the group is the text up to that end; the end is unique |
| JoinJob.MinutesPiece | presentation/joinJob.py:31-34 | a piece "<n>mins", with blanks around n, adds 60·n seconds |
| JoinJob.SecondsPiece | presentation/joinJob.py:35-38 | a piece "<n>sec", with blanks around n, adds n seconds |
| JoinJob.SecsPieceIgnored | presentation/joinJob.py:35-38 | any piece ending in "secs" adds nothing |
| JoinJob.WordBeforeMinutes | presentation/joinJob.py:34 | a word where the number should be raises ValueError |
| JoinJob.NoPieceMatchesBoth | presentation/joinJob.py:30-38 | no piece is matched by both expressions |
| JoinJob.SumPieces | presentation/joinJob.py:29-39 | the total succeeds exactly when every piece does; an error is the error of some piece |
| JoinJob.SumTimeConcat | presentation/joinJob.py:28-39 | joining two durations with a comma adds their totals, and the result parses exactly when both parts do |
| JoinJob.DocExampleAsWritten | presentation/joinJob.py:26 | the documented example "50mins, 20 secs" comes to 3000 seconds |
| JoinJob.IntendedAgrees | presentation/joinJob.py:35-38 | the corrected parser agrees with the written one on every piece that does not end in "secs" |
| JoinJob.DocExampleIntended | presentation/joinJob.py:26 | under the corrected parser the documented example comes to 3020 seconds |
| Text.SplitJoin | skew/premap.py:42 | splitting a join on a separator that no piece contains gives the pieces back |
| Text.SplitConcat | presentation/joinJob.py:28 | splitting two texts joined by the separator gives the pieces of both, in order |
| Text.ParseInt | skew/premap.py:45 | `int()` succeeds exactly when the stripped text is an optional sign, optional blanks, then digits; it fails with ValueError |
| Text.ParseIntToString | justshares.py:132 | `int()` reads back every integer that `str()` writes |
| Text.ParseSignThenBlanks | skew/premap.py:106 | `int()` accepts blanks between the sign and the digits |
| Text.ParseDecimal | skew/premap.py:110 | `float()` succeeds exactly when the stripped text is an optional sign and a decimal with an optional exponent; it fails with ValueError |
| Text.ParseNegativeExponent | skew/premap.py:110 | a fraction written with a negative exponent, such as "5e-05", reads as its exact value |
| Text.SortedUnique | justshares.py:146 | two strictly sorted lists with the same members are equal, so `sorted` of the share names is determined |

## Left out

- SharesJoin.WellShaped: requires a non-empty schema whose rows are at least as wide as the first row. The source raises IndexError on an empty schema (skew/sharesJoin.py:155) and on a shorter row (skew/sharesJoin.py:159).
- Routing.Routable: requires every share to be at least 1. With a share of 0, the source raises ZeroDivisionError for a carried attribute and emits no key for a free one (justshares.py:147-153).
- PartitionJoin.CountReducer: requires `Joinable`, which rules out the IndexError the source raises when a decoded tuple is shorter than a join column (justshares.py:90-96).
- PartitionJoin.HashReducer: requires `Joinable`, for the same reason as CountReducer.
- PartitionJoin.DoubleHashJoin: requires the second join column in every relation-2 tuple. The source reads that column only for tuples that matched some relation-1 tuple (justshares.py:93-94), so this requirement is stronger than the source.
- MinlpModel.ConstructObjective: requires at least as many sizes as terms. The source raises IndexError otherwise (skew/minlpSolver.py:34).
- MinlpModel.Cost: requires at least as many sizes as terms, for the same reason.
- Premap.Multiplier: looks up a pinned value by its exact integer. The source looks it up as `float(value)` (skew/premap.py:187-190) in a dict keyed by `int(out[1])` (skew/premap.py:106, 114). That lookup agrees only up to 2^53: above it the float key can miss (KeyError) or hit a neighbouring heavy value and take its fractions, which the model does not reproduce.
- Premap.ReplaceFrom: inherits the exact-integer lookup of Premap.Multiplier, so its "succeeds exactly when every pinned value is priced" holds for the source only for values of magnitude at most 2^53.
- Premap.AddHeavyLine: stores the value as the parsed integer, where the source appends the raw text (skew/premap.py:117). So "02" and "2" become the same value.
- Routing.IdentityMapRoutes: fixes the emission order to the order of the Cartesian product. The source emits in the iteration order of a Python set (justshares.py:157-158); Routing.EmitCovers and Routing.EmitDistinct state what does not depend on that order.
- Text.ParseDecimal: does not accept "inf", "nan" or their spellings, which Python's `float()` accepts.
- JoinJob.SumTime: its own contract states only that an error is a ValueError. What it computes is stated by the lemmas about it (JoinJob.SumPieces, JoinJob.MinutesPiece, JoinJob.SecondsPiece, JoinJob.SecsPieceIgnored, JoinJob.SumTimeConcat).
- The `mapper` of justshares.py:167-195 is not modelled, because the job never runs it and it could not run as written. `steps()` installs `identityMapper` and leaves `mapper=self.mapper` commented out (justshares.py:398-399). `mapper` widens the tuple with extendTupleValue (justshares.py:172) and then calls decideSingleResidual with three arguments where the function takes four (justshares.py:176 against justshares.py:31), which raises TypeError on the first input line. The identity mapper, which is the one in use, is modelled by Routing.IdentityMap, and decideSingleResidual itself by Routing.DecideSingleResidual.
- decideFromAllResiduals (justshares.py:60-62) is not modelled. It only prints, and it makes the same three-argument call to decideSingleResidual, so it raises TypeError as written.
- calculateShares (skew/minlpSolver.py:83-123) and the MINLP solver it drives are outside Dafny. The model proves what the objective and constraint texts mean when evaluated.
- calculateResidualJoins (skew/premap.py:196-224) is modelled only through its pieces: Combinations, ReplaceSize and the pinned list. The file output is left out.
- File and stream I/O, the MRJob job plumbing, reporting such as fetchJobOverview, and the dataset generators are left out. Lines of input files are parameters.
- Floating-point arithmetic is idealised as exact `real` arithmetic, so rounding in the fraction products is not modelled.

## Findings

| source | as written | input that shows it | evidently intended | confidence | as-written member | corrected member |
|---|---|---|---|---|---|---|
| skew/sharesJoin.py:108-120 | the term of a relation keeps every attribute 1..n-1 except the non-dominated ones it carries, so dominated attributes stay in every term | the test schema with dominated {1, 4, 5} gives [[1,3,4,5], [1,4,5], [1,2,4,5]] | the free, non-dominated attributes, [[3], [], [2]], as tests/premap_tests.py:62 expects | medium, not executed | SharesJoin.CostTermsOnTestSchema | SharesJoin.IntendedIsWrittenWithoutDominated |
| presentation/joinJob.py:35-38 | `.*sec$` never matches a piece ending in "secs", so such a piece adds nothing | "50mins, 20 secs" gives 3000 | 3020, as the docstring at presentation/joinJob.py:26 says | high, not executed | JoinJob.DocExampleAsWritten | JoinJob.DocExampleIntended |
| skew/sharesJoin.py:200-219 | an attribute that dominates one attribute and is dominated by another is reported in both lists | the schema [[0,1,0,0], [0,1,1,0], [0,1,1,1]] puts attribute 2 in both lists | disjoint lists, as in the docstring example of skew/sharesJoin.py:103-104; only the dominated list is read later (skew/sharesJoin.py:115), so the overlap changes no computed result | low, not executed | SharesJoin.DominationSetsMayOverlap | SharesJoin.DominatingIntended |
