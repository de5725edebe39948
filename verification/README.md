# CUDD decision diagrams: a verified model

This project models the decision-diagram engine of CUDD 2.4.1.1 as NuSMV ships it: shared, reduced,
ordered binary decision diagrams with complement edges, the recursive algorithms over them, the lossy
computed table that speeds them up, the annealing reorderer, exact minterm counting, and the in-place
traversal and enumeration routines NuSMV added.

The model is imperative where the engine is. A `Manager` owns nodes, a unique table, the variable order
and a computed table; the operations are methods that allocate nodes, consult and overwrite the cache,
and return NULL when the unique table is full. Every node carries a ghost value, the diagram it unfolds
to, so that each operation is specified by the Boolean function its result denotes. Those specifications,
and the laws behind each recursive step, are in `Semantics.dfy`; no algorithm occurs there.

| file | contents |
|---|---|
| Diagrams.dfy | diagrams as values, their meaning, the canonical form and canonicity |
| Semantics.dfy | what each operation promises, and the laws of its recursive step |
| ComputedTable.dfy | the direct-mapped, overwriting, self-doubling cache |
| Manager.dfy | nodes, pointers, unique table, the invariant of the manager |
| BddIte.dfy, BddAbs.dfy, AndAbs.dfy | connectives, implication, quantification, relational product |
| Cuts.dfy, Clip.dfy | what a limited depth leaves exact; directed approximations |
| Compose.dfy | composition, permutation, the registered variable map |
| Essent.dfy | essential literals |
| Bridge.dfy | BDD to FALSE/TRUE ADD and back, ADD complement and if-then-else |
| BddOp.dfy | deepest variable by marking in place, cube difference |
| CubeGen.dfy, PickTerms.dfy | enumeration of cubes, expansion into terms |
| Orders.dfy, Anneal.dfy | variable orders; simulated annealing over them |
| Apa.dfy, ApaCount.dfy | multi-digit arithmetic, exact minterm counts |
| Runs.dfy | whole scripts of operations, independent of the cache |
| Check.dfy | the engine's own consistency check |

Three choices make the results stronger than one fixed execution. The comparison of two pointers by
address, and the reference-count tests that decide whether the cache is consulted, are arbitrary choices:
nothing may depend on them. The hash function is arbitrary. NULL is possible whenever the unique table is
full, and (apart from refused arguments) only then.

Where the code does something its text does not say, the model follows the code:

- `Cudd_DebugCheck` reports a corrupted permutation but still returns 0, although its header promises 0
  only when nothing is inconsistent. `Check.CorruptedPasses` is an input where it does so,
  `Check.VerdictCoversPermutation` says that the verdict vouches for the permutation exactly when nothing
  would be reported, and `Check.CorruptedHeap` shows that the report matters: two nodes of an accepted
  heap are the same function.
- `Cudd_ApaShortDivision` multiplies in an int. The product is defined for every dividend exactly when
  the divisor is at most 2^15 (`Apa.SafeDivisors`); beyond that the method's result is claimed only for
  dividends that do not overflow.
- `Cudd_FindEssential` returns the empty cube for the constant 0, although 0 implies every literal. The
  agreement with `Cudd_bddIsVarEssential` holds exactly for the other functions
  (`Essent.EssentialExactly`).
- The cache key of a clipping operation holds the direction but not the remaining depth, so a result may
  come from another depth. It is still on the right side, and still the conjunction itself when one
  implication test decides it. Otherwise a path that ends within the depth is not enough for an exact
  value: the recursion may meet a pair on that path earlier, with less depth left, and remember a wrong
  answer for it (`Cuts.SpoiledBySharing`). Starting with exact remembered answers, the value is exact on
  every path for which this does not happen (`Cuts.Unspoiled`), in particular on every path that ends when each pair is met at one depth only
  (`Cuts.OneDepthUnspoiled`), and everywhere when the depth is enough for all paths. A call that finds no
  remembered answer is exact on precisely the paths that end, and constant on the others (`Cuts.IsCut`).
- The stopping criterion of annealing compares the sizes after the last four rounds, and starts from four
  made-up sizes. Three rounds already suffice when they end 30 above the first size, because one of the
  made-up sizes is still compared then (`Orders.StopsAfterThree`). `Orders.StopsBefore` has this case; the
  criterion is never met before three rounds.
- The growth limit of an exchange is not asked after the last step, so only the growth factor of the steps
  before it matters (`Orders.FiresAt`).
- `Cudd_SetVarMap` flushes the cache only when it replaces a map; the first registration needs no flush
  because no entry was computed with a map before. `Compose.FlushNeeded` says that nothing less than the
  flush will do: some right memory for one map is wrong for every other map.

## Model

| member | source | states |
|---|---|---|
| Diagrams.CanonicalIff | cudd-2.4.1.1/cudd/cuddCheck.c:174-206 | two edges in the form the check demands denote the same function if and only if they are the same edge |
| Diagrams.RegularIffTrueAtOnes | cudd-2.4.1.1/cudd/cuddBddIte.c:738-755 | a canonical edge is regular if and only if its function is 1 where all variables are 1 |
| Diagrams.TopByIgnores | cudd-2.4.1.1/cudd/cuddBddIte.c:975-994 | a canonical edge whose function ignores every variable above a level starts at or below that level |
| Diagrams.NonConstant | cudd-2.4.1.1/cudd/cuddBddIte.c:564-570 | an edge is satisfiable if and only if it is not the 0 edge, and falsifiable if and only if it is not the 1 edge |
| Semantics.IteRegular | cudd-2.4.1.1/cudd/cuddBddIte.c:738-755 | with a regular condition and a regular then-operand the result of if-then-else is regular, so building the node needs no test |
| Semantics.LessEqTerminal | cudd-2.4.1.1/cudd/cuddBddIte.c:546-570 | the terminal answers of the implication test are right in both directions, including the 0 for a regular edge against a complemented one |
| Semantics.LessEqStep | cudd-2.4.1.1/cudd/cuddBddIte.c:580-606 | f implies g if and only if both cofactors do |
| Semantics.RelationalProduct | cudd-2.4.1.1/cudd/cuddAndAbs.c:196-367 | the edge of the one-pass relational product is the edge of the conjunction quantified afterwards |
| Semantics.AndExistsAbsorbed | cudd-2.4.1.1/cudd/cuddAndAbs.c:282-324 | when the then result equals the complement of an else operand, quantifying the other else operand alone gives the same disjunction |
| Semantics.AndExistsEarly | cudd-2.4.1.1/cudd/cuddAndAbs.c:282-296 | when the then result is 1 or equals an else operand, it is already the quantified product |
| Semantics.SkipVariable | cudd-2.4.1.1/cudd/cuddAndAbs.c:241-248 | dropping a cube variable above both operands leaves the quantified product unchanged |
| Semantics.ClippedJoin | cudd-2.4.1.1/cudd/cuddClip.c:516-531 | a disjunction taken as the complement of an approximate conjunction of complements in the opposite direction stays on the chosen side |
| Semantics.ApproximateJoin | cudd-2.4.1.1/cudd/cuddClip.c:516-531 | the same, and exact if the three approximations are |
| Semantics.BothSides | cudd-2.4.1.1/cudd/cuddClip.c:401-557 | only the relational product itself lies on both sides |
| Semantics.ClippedAtLimit | cudd-2.4.1.1/cudd/cuddClip.c:285-294 | the answers at the depth limit lie on the chosen side |
| Semantics.PositiveCubeIffProduct | cudd-2.4.1.1/cudd/cuddBddAbs.c:713-725 | the edges of the shape the engine looks for are exactly the products of positive literals |
| Semantics.SubstCutOff | cudd-2.4.1.1/cudd/cuddCompose.c:1664-1667 | below the deepest proper substitution a function is its own image |
| Semantics.ComposeIsVectorCompose | cudd-2.4.1.1/cudd/cuddCompose.c:800-835 | composing at v gives the same edge as the vector that is the identity except at v |
| Semantics.RenamingBack | cudd-2.4.1.1/cudd/cuddCompose.c:335-357 | renaming by a map and then by its inverse returns the original edge |
| Semantics.SwapTwice | cudd-2.4.1.1/cudd/cuddCompose.c:467-496 | swapping two disjoint duplicate-free lists of variables twice returns the original edge |
| ComputedTables.ComputedTable.constructor | cudd-2.4.1.1/cudd/cuddCache.c:132-199 | the table starts empty with no lookups, a power of two of slots of at most the wanted size, and the smaller of the two limits |
| ComputedTables.ComputedTable.Insert | cudd-2.4.1.1/cudd/cuddCache.c:214-244 | the contents gain the new entry and lose exactly the one that was in its slot |
| ComputedTables.ComputedTable.Lookup | cudd-2.4.1.1/cudd/cuddCache.c:468-506 | finds the data if and only if the contents hold the key; counts one lookup, and one hit if it finds it; the table tries to double exactly on a miss with room to grow and more hits than the hit rate times the misses, and gives up exactly when memory is refused then; contents do not change |
| ComputedTables.ComputedTable.Resize | cudd-2.4.1.1/cudd/cuddCache.c:903-1003 | with memory granted the slots double, the hit ratio starts afresh, and contents, lookups and hits stay; refused, nothing changes but that the table never tries again |
| ComputedTables.ComputedTable.Double | cudd-2.4.1.1/cudd/cuddCache.c:965-990 | the copied array holds the same contents at the new shift, and the moved entries are counted |
| ComputedTables.CopyEntry | cudd-2.4.1.1/cudd/cuddCache.c:974-990 | no two surviving entries collide: the slot an entry is copied to is still unused |
| ComputedTables.ComputedTable.Adopt | cudd-2.4.1.1/cudd/cuddCache.c:961-1003 | restarting the hit ratio keeps the number of lookups, the contents and the reported limit |
| ComputedTables.ComputedTable.Flush | cudd-2.4.1.1/cudd/cuddCache.c:1018-1034 | the table is empty and every entry it held is counted as deleted |
| ComputedTables.UsedIsContents | cudd-2.4.1.1/cudd/cuddCache.c:974-1002 | the number of valid slots is the number of remembered keys |
| ComputedTables.ComputeFloorLog2 | cudd-2.4.1.1/cudd/cuddCache.c:1050-1063 | the exponent of the largest power of two not above the value |
| Managers.Manager.UniqueInter | cudd-2.4.1.1/cudd/cuddTable.c:1069-1223 | the node with the given index and children, found or allocated; fails only when the table is full |
| Managers.Manager.Build | cudd-2.4.1.1/cudd/cuddBddIte.c:975-994 | the canonical edge for "if variable then t else e", with equal children shared and complements moved off the then-edge |
| Managers.Manager.PointerEquality | cudd-2.4.1.1/cudd/cuddBddIte.c:546-570 | pointers of a manager are equal if and only if the edges they stand for are |
| Managers.StoreNew | cudd-2.4.1.1/cudd/cuddTable.c:1069-1223 | allocating a node the unique table lacks keeps every diagram stored once |
| BddIte.BddAndRecur | cudd-2.4.1.1/cudd/cuddBddIte.c:890-1001 | the conjunction of the operands, whatever the cache held, for any pointer order |
| BddIte.BddXorRecur | cudd-2.4.1.1/cudd/cuddBddIte.c:1018-1118 | the exclusive or of the operands |
| BddIte.BddIteRecur | cudd-2.4.1.1/cudd/cuddBddIte.c:633-756 | if f then g else h under every assignment, in canonical form |
| BddIte.VarToCanonicalSimple | cudd-2.4.1.1/cudd/cuddBddIte.c:1288-1336 | the rewritten operands have a regular condition and a regular then-operand and mean the same, complemented as the flag says; their levels are handed back |
| BddIte.BddLeq | cudd-2.4.1.1/cudd/cuddBddIte.c:536-611 | 1 if and only if f implies g under every assignment |
| BddAbs.BddExistAbstractRecur | cudd-2.4.1.1/cudd/cuddBddAbs.c:356-447 | existential quantification over the variables of the cube |
| BddAbs.BddExistAbstract | cudd-2.4.1.1/cudd/cuddBddAbs.c:126-147 | the same, and NULL for anything that is not a positive cube |
| BddAbs.BddUnivAbstract | cudd-2.4.1.1/cudd/cuddBddAbs.c:207-229 | universal quantification, as the complement of existential quantification of the complement |
| BddAbs.CheckPositiveCube | cudd-2.4.1.1/cudd/cuddBddAbs.c:713-725 | 1 if and only if the edge has the shape of a positive cube, which by Semantics.PositiveCubeIffProduct means that it is a product of positive literals |
| BddAbs.BddBooleanDiffRecur | cudd-2.4.1.1/cudd/cuddBddAbs.c:641-695 | 1 exactly where flipping the variable flips f |
| AndAbs.BddAndAbstractRecur | cudd-2.4.1.1/cudd/cuddAndAbs.c:196-367 | exists-cube of the conjunction, for all operands and every positive cube, with all shortcuts |
| AndAbs.AndAbstractHere | cudd-2.4.1.1/cudd/cuddAndAbs.c:282-324 | the step at a cube variable: early exits and the replaced else recursion give the quantified product |
| Cuts.NeededAtMostLevels | cudd-2.4.1.1/cudd/cuddClip.c:265-382 | the branchings after which every joint path has met a pair decided by an implication test are at most the levels below the operands |
| Cuts.NeededFinishes | cudd-2.4.1.1/cudd/cuddClip.c:285-294 | with that depth, or none at all, every path ends |
| Cuts.FinishesNeeded | cudd-2.4.1.1/cudd/cuddClip.c:285-294 | with a smaller depth some path does not |
| Cuts.DecidedCofactors | cudd-2.4.1.1/cudd/cuddClip.c:285-294 | a pair decided by an implication test has decided cofactors, so it is answered exactly at every depth |
| Cuts.CutBranch | cudd-2.4.1.1/cudd/cuddClip.c:313-380 | building the node from the two cut cofactors cuts the conjunction one branching later |
| Cuts.UnspoiledKeeps | cudd-2.4.1.1/cudd/cuddClip.c:303-380 | the recursion keeps every unspoiled path: from each pair it meets with some depth left, the next pair on the path is decided or again on an unspoiled path with some depth left |
| Cuts.OneDepthUnspoiled | cudd-2.4.1.1/cudd/cuddClip.c:303-380 | when every pair is met at one depth only, a path is unspoiled if and only if it ends |
| Cuts.NeededUnspoiled | cudd-2.4.1.1/cudd/cuddClip.c:303-380 | with enough depth for every path, no path is spoiled |
| Cuts.SpoiledBySharing | cudd-2.4.1.1/cudd/cuddClip.c:303-380 | two operands, a depth and a path that ends within it on which the conjunction is 1, but whose pair is met before with too little depth: the answer remembered there is 0, and with it the whole answer |
| Cuts.LevelsSuffice | cudd-2.4.1.1/cudd/cuddClip.c:401-557 | as many branchings as levels below the operands and the cube bring every joint path of a relational product to its end |
| Cuts.CutProductUnique | cudd-2.4.1.1/cudd/cuddClip.c:401-557 | there is only one cut relational product for each depth and direction |
| Clip.BddClippingAnd | cudd-2.4.1.1/cudd/cuddClip.c:125-140 | at every depth the result is on the side of the direction, and is the conjunction if an operand implies the other or its complement; with only exact remembered answers it is exact on every unspoiled path, and the conjunction itself if the depth is enough for all paths, and then the memory stays exact; if no remembered answer is found, it is exact on the paths that end within the depth and constant on all others |
| Clip.BddClippingAndRecur | cudd-2.4.1.1/cudd/cuddClip.c:265-382 | the same for the recursive step, which also starts no higher than the operands |
| Clip.ClippingLimit | cudd-2.4.1.1/cudd/cuddClip.c:285-294 | at the depth limit, the conjunction if one implication test decides it, and otherwise the constant of the direction |
| Clip.BddClippingAndAbstract | cudd-2.4.1.1/cudd/cuddClip.c:159-175 | at every depth on the side of the direction; exact, with the memory kept exact, if every joint path of the operands and the cube ends within the depth and every disjunction has enough left; if no remembered answer is found, the one cut product of that depth |
| Clip.BddClipAndAbsRecur | cudd-2.4.1.1/cudd/cuddClip.c:401-557 | the same for the recursive step, which may use answers remembered at other depths |
| Compose.BddCompose | cudd-2.4.1.1/cudd/cuddCompose.c:170-188 | the value of f with variable v replaced by the value of g; NULL for a variable out of range |
| Compose.BddComposeRecur | cudd-2.4.1.1/cudd/cuddCompose.c:859-945 | the same for the recursion that descends f and g together; it terminates |
| Compose.BddVectorCompose | cudd-2.4.1.1/cudd/cuddCompose.c:800-835 | simultaneous substitution of all variables |
| Compose.Deepest | cudd-2.4.1.1/cudd/cuddCompose.c:817-822 | the deepest level whose variable is not mapped to itself, or -1 |
| Compose.BddVectorComposeRecur | cudd-2.4.1.1/cudd/cuddCompose.c:1652-1716 | simultaneous substitution although the recursion stops at the deepest level, with a local table whose entries expire |
| Compose.LocalTable.Lookup1 | cudd-2.4.1.1/cudd/cuddLCache.c:830-868 | returns what was stored for the node, or nothing if it was not stored; never adds or changes an entry's value |
| Compose.BddPermute | cudd-2.4.1.1/cudd/cuddCompose.c:335-357 | every variable i replaced by permut[i] |
| Compose.FillExchange | cudd-2.4.1.1/cudd/cuddCompose.c:467-490 | the filled array is the identity with each x and its y exchanged, later pairs last |
| Compose.BddSwapVariables | cudd-2.4.1.1/cudd/cuddCompose.c:467-496 | f with the listed variables exchanged |
| Compose.SetVarMap | cudd-2.4.1.1/cudd/cuddCompose.c:419-448 | the map is registered and every remembered answer is still right |
| Compose.FlushNeeded | cudd-2.4.1.1/cudd/cuddCompose.c:427-438 | every memory that is right for one map is right for another if and only if the maps are the same |
| Compose.BddVarMapRecur | cudd-2.4.1.1/cudd/cuddCompose.c:1241-1298 | f with its variables renamed by the registered map, also when the global cache answers |
| Essent.LiteralSetIntersectionRecur | cudd-2.4.1.1/cudd/cuddLiteral.c:149-258 | the cube of exactly the literals common to both cubes |
| Essent.FindEssentialRecur | cudd-2.4.1.1/cudd/cuddEssent.c:490-606 | for f other than 0, the cube of exactly the literals f implies; for 0, the empty cube |
| Essent.IsVarEssential | cudd-2.4.1.1/cudd/cuddEssent.c:235-252 | 1 if and only if f implies the literal |
| Essent.EssentialExactly | cudd-2.4.1.1/cudd/cuddEssent.c:490-606 | the essential cube and the single test agree on every literal if and only if f is not 0 |
| Essent.ImpliesStep | cudd-2.4.1.1/cudd/cuddEssent.c:510-600 | f implies a literal exactly when its cofactors do, or the literal is the top one and the opposite cofactor is 0 |
| Essent.CubeIffLiteralProduct | cudd-2.4.1.1/cudd/cuddLiteral.c:149-258 | the cubes are exactly the satisfiable products of literals |
| Bridge.AddCanonical | cudd-2.4.1.1/cudd/cuddAddIte.c:458-584 | two ADDs in canonical form with the same leaf under every assignment are the same ADD |
| Bridge.ToAddToBdd | cudd-2.4.1.1/cudd/cuddBridge.c:662-722 | converting a BDD to an ADD and back returns the same edge |
| Bridge.ToBddToAdd | cudd-2.4.1.1/cudd/cuddBridge.c:1042-1113 | converting an ADD with only TRUE and FALSE leaves to a BDD and back returns the same ADD |
| Bridge.BddToAddRecur | cudd-2.4.1.1/cudd/cuddBridge.c:1042-1113 | the ADD that is TRUE where the BDD is 1 and FALSE elsewhere, although nodes are built without testing for equal children |
| Bridge.AddBddBooleanMap | cudd-2.4.1.1/cudd/cuddBridge.c:662-722 | the BDD that is 1 where the ADD is TRUE; NULL if some leaf is neither TRUE nor FALSE |
| Bridge.AddCmplRecur | cudd-2.4.1.1/cudd/cuddAddIte.c:601-645 | TRUE where the ADD is FALSE and FALSE elsewhere |
| Bridge.AddIteRecur | cudd-2.4.1.1/cudd/cuddAddIte.c:458-584 | for a TRUE/FALSE condition, the leaf of g or of h under every assignment |
| BddOp.GetLowestVar | cudd-2.4.1.1/cudd/cuddBddOp.c:137-144 | the variable at the deepest level below a regular node, and every `next` field exactly as before |
| BddOp.GetLowestVarRecur | cudd-2.4.1.1/cudd/cuddBddOp.c:226-240 | each unmarked node below is marked once; the level returned is reached and bounds all marked nodes |
| BddOp.ClearFlag | cudd-2.4.1.1/cudd/cuddBddOp.c:441-456 | clears the marks below a node and touches nothing else |
| BddOp.AllMarked | cudd-2.4.1.1/cudd/cuddBddOp.c:226-240 | marks closed under children cover everything below a marked node |
| BddOp.AllClear | cudd-2.4.1.1/cudd/cuddBddOp.c:441-456 | stopping at clear nodes leaves no mark behind |
| BddOp.BddCubeDiffRecur | cudd-2.4.1.1/cudd/cuddBddOp.c:163-212 | the positive cube of the variables of f that g does not have |
| BddOp.BddCubeDiff | cudd-2.4.1.1/cudd/cuddBddOp.c:103-123 | the same, and NULL for anything that is not a positive cube |
| CubeGenerators.CubesPartition | cudd-2.4.1.1/cudd/cuddUtil.c:2192-2300 | every satisfying assignment lies in exactly one cube of the enumeration, every other in none |
| CubeGenerators.CubesFixSupport | cudd-2.4.1.1/cudd/cuddUtil.c:2192-2300 | a cube fixes only variables of the diagram, to 0 or 1 |
| CubeGenerators.CubeGenerator.First | cudd-2.4.1.1/cudd/cuddUtil.c:2192-2300 | the generator stands at the first path to 1, and what it has yet to produce is the whole enumeration |
| CubeGenerators.CubeGenerator.Next | cudd-2.4.1.1/cudd/cuddUtil.c:2319-2397 | drops exactly the current cube from what is yet to come |
| CubeGenerators.CubeGenerator.Backtrack | cudd-2.4.1.1/cudd/cuddUtil.c:2327-2348 | pops to the last branch not yet followed; detecting it by comparing pointers is sound because children differ |
| CubeGenerators.PathLength | cudd-2.4.1.1/cudd/cuddUtil.c:2241-2252 | a path never has more entries than the stack of one more than the number of variables |
| PickTerms.RowsOnce | cudd-2.4.1.1/cudd/cuddBddOp.c:324-362 | the rows of a cube list every compatible row of 0s and 1s once, and no other |
| PickTerms.RowAt | cudd-2.4.1.1/cudd/cuddBddOp.c:337-354 | the digit of row i at a don't care comes from bit number "don't cares before it" of i |
| PickTerms.FillAlternating | cudd-2.4.1.1/cudd/cuddBddOp.c:337-354 | the stride-doubling loops fill the column with that bit, and no other column |
| PickTerms.FillMatrix | cudd-2.4.1.1/cudd/cuddBddOp.c:288-361 | row i of the matrix is row i of the cube; a value other than 0, 1 and 2 is refused |
| PickTerms.EveryAssignmentOnce | cudd-2.4.1.1/cudd/cuddBddOp.c:288-417 | over variables that cover the support, the rows of all cubes list every satisfying assignment exactly once and no other |
| PickTerms.PickAllTerms | cudd-2.4.1.1/cudd/cuddBddOp.c:259-422 | on 0, the result array starts with the terms of those rows, in order; 1 only for a missing array or a full unique table |
| PickTerms.TermsPartition | cudd-2.4.1.1/cudd/cuddBddOp.c:363-405 | an assignment that satisfies the function satisfies exactly one term, any other none |
| PickTerms.TermsAreMinterms | cudd-2.4.1.1/cudd/cuddBddOp.c:363-405 | over distinct variables every term is satisfiable, implies the function and occurs once |
| Orders.UndoRestores | cudd-2.4.1.1/cudd/cuddAnneal.c:694-742 | replaying a whole move list backwards restores the order it started from |
| Orders.TrailOutside | cudd-2.4.1.1/cudd/cuddAnneal.c:575-617 | moves inside an interval leave every level outside it alone |
| Orders.StepTaken | cudd-2.4.1.1/cudd/cuddAnneal.c:375-447 | each step of an exchange, crossing or not, is the swaps the code makes and leads to the order described for the next step |
| Orders.StepEnds | cudd-2.4.1.1/cudd/cuddAnneal.c:368-466 | the steps lead from the given order to the one with the two variables exchanged |
| Orders.LimitFires | cudd-2.4.1.1/cudd/cuddAnneal.c:449-454 | comparing with the running least size says exactly whether this step is the first to outgrow an earlier one |
| Orders.FiresOnce | cudd-2.4.1.1/cudd/cuddAnneal.c:449-454 | there is only one such step |
| Orders.CriterionIsStop | cudd-2.4.1.1/cudd/cuddAnneal.c:305-320 | asked about the sizes after the last rounds, or the made-up ones, the criterion is met if and only if the round is cold and the sizes at the last four round ends are equal, with the exception after three rounds |
| Orders.StopsAfterThree | cudd-2.4.1.1/cudd/cuddAnneal.c:180-192 | three rounds that end 30 above the first size stop a cold run |
| Orders.RanOneMore | cudd-2.4.1.1/cudd/cuddAnneal.c:199-273 | a further round extends the run; what the criterion decided before stands |
| Anneal.OrderTable.SwapInPlace | cudd-2.4.1.1/cudd/cuddReorder.c:1230-1242 | swaps two adjacent levels in `perm` and `invperm`, which stay inverse; returns the new size, or 0 |
| Anneal.OrderTable.SiftBackwardProb | cudd-2.4.1.1/cudd/cuddAnneal.c:694-742 | keeps the order reached if nothing improved and the coin accepts; otherwise undoes the least number of newest moves after which the size is the best met |
| Anneal.OrderTable.Bubble | cudd-2.4.1.1/cudd/cuddAnneal.c:368-466 | if the size after some step but the last outgrows 1.2 times an earlier one, ends after the first such step and one trailing swap; otherwise exchanges exactly the two variables; the recorded moves are exactly the swaps made and lead back |
| Anneal.OrderTable.Exchange | cudd-2.4.1.1/cudd/cuddAnneal.c:355-487 | bubbling, with the limit as above, and then settling; levels outside are untouched |
| Anneal.OrderTable.JumpingUp | cudd-2.4.1.1/cudd/cuddAnneal.c:575-617 | the variable moves up by the number of moves made; the growth limit is exceeded at the newest move if at any, and unless it is, the variable has arrived |
| Anneal.OrderTable.JumpingDown | cudd-2.4.1.1/cudd/cuddAnneal.c:634-676 | the same downwards |
| Anneal.OrderTable.JumpingAux | cudd-2.4.1.1/cudd/cuddAnneal.c:504-558 | a jump from one end of the interval towards the other and then settling; anything else is refused |
| Anneal.OrderTable.CopyOrder | cudd-2.4.1.1/cudd/cuddAnneal.c:758-772 | the array holds the variables at the levels of the interval |
| Anneal.OrderTable.RestoreOrder | cudd-2.4.1.1/cudd/cuddAnneal.c:788-813 | the order is exactly the saved one |
| Anneal.OrderTable.OneMove | cudd-2.4.1.1/cudd/cuddAnneal.c:206-250 | the drawn exchange or jump between the two drawn positions |
| Anneal.OrderTable.Annealing | cudd-2.4.1.1/cudd/cuddAnneal.c:154-284 | on success the order is the first of least size among all checkpoints, each of which follows from the one before by the drawn move; `perm` and `invperm` are inverse and levels outside the interval are untouched; rounds stop at the first cold one before which the sizes at the last four round ends are equal, or three of them 30 above the first size after three rounds |
| Apa.NumberOfDigits | cudd-2.4.1.1/cudd/cuddApa.c:128-138 | the least number of 16-bit digits that hold so many bits |
| Apa.ApaAdd | cudd-2.4.1.1/cudd/cuddApa.c:202-217 | sum and carry together are the sum of the values, in place or not |
| Apa.ApaSubtract | cudd-2.4.1.1/cudd/cuddApa.c:234-249 | the difference modulo the base power, and the borrow digit the code leaves |
| Apa.ApaShortDivision | cudd-2.4.1.1/cudd/cuddApa.c:264-283 | dividend = quotient * divisor + remainder, in place or not, unless a partial product leaves the int range |
| Apa.SafeDivisors | cudd-2.4.1.1/cudd/cuddApa.c:264-283 | no partial product overflows for any dividend if and only if the divisor is at most 2^15 |
| Apa.ApaShiftRight | cudd-2.4.1.1/cudd/cuddApa.c:342-355 | twice the result plus the bit shifted out is the number with the incoming carry on top |
| Apa.ApaSetToLiteral | cudd-2.4.1.1/cudd/cuddApa.c:370-381 | the number has the value of the literal |
| Apa.ApaPowerOfTwo | cudd-2.4.1.1/cudd/cuddApa.c:398-413 | the number has the value 2^power |
| Apa.ApaCompare | cudd-2.4.1.1/cudd/cuddApa.c:430-452 | 1, 0 or -1 as the first value is larger, equal or smaller, whatever the lengths and leading zeros |
| Apa.ApaPrintDecimal | cudd-2.4.1.1/cudd/cuddApa.c:541-582 | the printed digits read back as the number, with no leading zero except for 0 |
| ApaCount.Halving | cudd-2.4.1.1/cudd/cuddApa.c:878-936 | the counts of the two children add up to twice the count of the node |
| ApaCount.CountComplement | cudd-2.4.1.1/cudd/cuddApa.c:878-936 | the counts of a function and its complement add up to 2^nvars |
| ApaCount.AverageInto | cudd-2.4.1.1/cudd/cuddApa.c:909-921 | adding and shifting right is exact: the carry out of the sum is the carry into the shift |
| ApaCount.CountMintermAux | cudd-2.4.1.1/cudd/cuddApa.c:878-936 | the digits are the number of satisfying assignments of the regular node, whatever the memo table holds |
| ApaCount.ApaCountMinterm | cudd-2.4.1.1/cudd/cuddApa.c:663-723 | exactly the number of satisfying assignments over nvars variables that contain the support |
| Runs.Run | cudd-2.4.1.1/cudd/cuddCache.c:214-286 | a script of operations on BDDs and FALSE/TRUE ADDs, approximations, flushes, resizes and map registrations goes through states described without any cache; it stops early only when the unique table is full |
| Runs.RunsAgree | cudd-2.4.1.1/cudd/cuddCache.c:468-506 | two runs of a script agree step by step, whatever the caches held, hashed, lost or how they grew |
| Runs.AnswerUnique | cudd-2.4.1.1/cudd/cuddCache.c:468-506 | what a command promises of a BDD determines the edge |
| Runs.AddAnswerUnique | cudd-2.4.1.1/cudd/cuddCache.c:468-506 | what a command promises of an ADD determines it |
| Runs.ForcedUnique | cudd-2.4.1.1/cudd/cuddEssent.c:490-606 | cubes of the same essential literals are the same edge |
| Runs.Canonicity | cudd-2.4.1.1/cudd/cuddCheck.c:174-206 | in every manager state two BDD pointers are equal if and only if their functions are |
| Check.DebugCheck | cudd-2.4.1.1/cudd/cuddCheck.c:138-250 | the verdict is 0 if and only if every subtable lists as many nodes as it says and every listed node has its level's index, lower children, a regular then-edge and different children; a report is made if and only if some level and its variable do not refer to each other |
| Check.UncorruptedIsInverse | cudd-2.4.1.1/cudd/cuddCheck.c:152-159 | nothing is reported if and only if `perm` and `invperm` are inverse permutations, although only one direction is tested |
| Check.CorruptedPasses | cudd-2.4.1.1/cudd/cuddCheck.c:152-159 | a corrupted permutation with verdict 0 |
| Check.VerdictCoversPermutation | cudd-2.4.1.1/cudd/cuddCheck.c:152-159 | the verdict 0 vouches for the permutation if and only if nothing would be reported |
| Check.CorruptedHeap | cudd-2.4.1.1/cudd/cuddCheck.c:152-206 | a heap with a corrupted permutation and verdict 0 in which two different nodes denote the same function |
| Check.PassingIsCanonical | cudd-2.4.1.1/cudd/cuddCheck.c:152-206 | on a heap that passes without a report and stores each node once, pointers are equal if and only if the functions are |
| Check.ManagerPasses | cudd-2.4.1.1/cudd/cuddCheck.c:152-206 | every reachable manager state passes the check, with nothing to report |

## Left out

- Reference counts, the death row, garbage collection and the death of nodes: nodes are never freed. The cache is never purged of dead entries because none exist.
- Dynamic reordering inside an operation and the retry loops of the exported wrappers: `perm` of a manager is constant, and the wrappers are modelled by their single pass.
- Managers.Manager.UniqueInter: collision chains, resizing of subtables and dead-node recovery are not modelled; it finds or allocates a node by its contents.
- Anneal.OrderTable.SwapInPlace: does not model moving nodes between subtables; the size after a swap is an arbitrary positive function of the order.
- Anneal.OrderTable.Annealing: the initial sifting is any given list of adjacent swaps inside the interval; the random draws, the acceptance coin and the temperature's fall below the stopping temperature are inputs. The loop that redraws equal positions, which never ends for a single variable, is left to those inputs.
- Clip.BddClippingAnd: where a remembered answer is found and the path is not unspoiled, only the side is promised; which answers are remembered is an arbitrary choice.
- Clip.BddClippingAndAbstract: where a remembered answer is found and the depth is not enough for every path, only the side is promised.
- Floating-point logarithms and ratios of the arithmetic: the number of decimal digits is any count that is large enough.
- ApaCount.ApaCountMinterm: the background is taken not to be the TRUE node.
- BddOp.GetLowestVar: takes a regular node; the clearing pass of the code reads the given pointer without making it regular.
- PickTerms.PickAllTerms: allocation failures of the matrix and the 31-bit limit of the number of rows are not modelled, nor is switching reordering off and on.
- CubeGenerators.CubeGenerator.First: models the enumeration for BDDs; the background of an ADD and the reported leaf value are not part of it.
- Check.DebugCheck: reference counts, dead nodes, the ZDD subtables and the constant table are not modelled; all listed nodes are live.
- Bridge.AddIteRecur: the type-error abort for a condition leaf other than TRUE and FALSE is a NULL result without further claim.
- Essent.IsVarEssential: takes the index of an existing variable; creating the missing ones on demand is not modelled.
- Compose.LocalTable.Lookup1: buckets, the size of the table and the saturation of the use counters are not modelled.
- Allocation failures, other than a full unique table and a failed doubling of the computed table: those of the initial cache, the variable map, multi-digit numbers, count buffers, generators and saved orders.
- ComputedTables.ComputedTable.Lookup: reclaiming a dead answer is not modelled, as nodes do not die.
- ComputedTables.ComputedTable.Resize: counters are unbounded integers rather than machine words.
- The hash constants and pointer tag bits: the hash is any function to 32 bits, and keys include the operation.
- Functions that start with `abort()` (two-literal clauses, approximation by subsetting, cofactor, intersection, constant if-then-else, exclusive-or abstraction, transfer between managers): they cannot run in this build.
- The arithmetic ADD operators, residues, ADD composition and permutation: leaf values are opaque in this build, and several of these routines do not do what their headers say.
- ZDDs, profiling, printing, file output, hooks, getters and setters.
