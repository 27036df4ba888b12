# LogicPuzzle in Dafny

A model of the constraint-propagation engine of LogicPuzzle, a solver for
grid ("zebra") logic puzzles, and of the token classifier of its rule
language.

A puzzle has categories (Name, Pet, House number, ...), each with the same
number of values. The engine keeps one cell per key `(A, a, B)`: the set of
values of category B that may still belong to the same entity as the value
`a` of category A. Clues and inference sweeps only ever remove values from
cells. The solver repeats them until the total number of candidates stops
changing, then reads the answer off the singleton cells.

The repository holds the engine twice, and both are modelled:

- `LogicPuzzle.py`, a class whose methods update the dictionary `self.sets`
  in place;
- `Logic.py`, module functions that update a dictionary passed to them;
  its sweeps and its `set_not_element` differ from the class's.

`Token.py` classifies a word of the rule language. A word is one of: an
operator, a number, an element `cat:num` or `value`, a list `[x,y,...]`,
or a pair `element,Category`.

Layout:

| file | module | contents |
|---|---|---|
| grid.dfy | Grid | keys, cells, categories; the cell store `SetStore` (`order` is the dictionary's insertion order, `cells` its contents); `generate_sets`; `get_total_length`; the shrink order and the size measure |
| clues.dfy | Clues | specification functions of the single-step clue operations: `set_element`, `set_not_element` (both versions), `is_one_of`, `greater_than` with and without offset, `return_exclusion` |
| multi.dfy | Multi | `multi_is_one_of` and its helpers `mutual_exclude`, `check_single_mapping`, `pair_categories`, `remove_pairs` |
| sweeps.dfy | Sweeps | the inference sweeps as left folds over the keys or the categories they loop over |
| steps.dfy | SweepSteps | what one sweep step does to the cells it visits |
| logic.dfy | Logic | store-updating methods for the clue operations, each proved equal to its specification function |
| passes.dfy | Passes | store-updating methods for the sweeps, proved equal to the folds |
| calls.dfy | Calls | clues as data, and one pass over them in either version |
| solver.dfy | Solver | `Logic.py`'s `is_solved`, `solve_clues`, `solve_puzzle` and the solutions it returns |
| puzzle.dfy | Puzzle | the `LogicPuzzle` class: its fields, clue methods, sweeps, `solve`, `set_solutions`, `is_solved`, `contains_null` |
| token.dfy | Tokens | `TokenType`, the lookups of `Token.py`, and the `Token` class |

Modelling choices:

- Values are `int`. A text label stands for a distinct integer code, and
  numeric categories keep their numbers, so `greater_than` can compare.
- A value's category is found by scanning (`Grid.Cat`). The operations
  on the cells take values that belong to some category; a clue call on a
  value that no category lists raises where the source builds a key from
  None, and `multi_is_one_of` models the lists for which it builds none.
  `WellFormed` requires the categories to have disjoint values, as the
  scan silently assumes.
- A Python exception (KeyError on a missing cell, ValueError from
  unpacking or `list.remove`, IndexError, `min`/`max` of an empty set) is
  `Outcome.Raised`. Raised is then propagated the way the exception
  propagates.
- The order in which Python iterates a set decides which element `for el
  in s` or `s.pop()` yields. Where the order matters only through a
  singleton, the model uses `Only`. Elsewhere it picks an arbitrary
  element (`Grid.Pick`).

## Model

| member | source | states |
|---|---|---|
| Grid.FindCategory | LogicPuzzle.py:68-71 | a found category is listed and holds the value; None means no category holds it |
| Grid.ParentCategory | LogicPuzzle.py:68-71 | get_parent_set_category returns a listed category that holds the value, and None exactly when no category holds it |
| Grid.ParentCategoryIs | Logic.py:236-239 | with disjoint categories, the scan returns exactly the category that holds the value |
| Grid.Cat | LogicPuzzle.py:68-71 | the category of a known value holds that value |
| Grid.Complement | LogicPuzzle.py:92-93 | the complement lies within the universe, is disjoint from the set, and together with it covers the universe |
| Grid.IsElement | LogicPuzzle.py:96-97 | the intersection with {e} is within both sets, and is {e} when e is present |
| Grid.ExcludeElement | LogicPuzzle.py:99-102 | e is removed and every other member kept (the Python version removes in place) |
| Grid.Only | LogicPuzzle.py:298-301 | the element read off a singleton set is its one member |
| Grid.Pick | Logic.py:372 | the element taken from a non-empty set is a member of it |
| Grid.ShrinksTransitive | LogicPuzzle.py:370-383 | one operation shrinking after another still shrinks: same keys, each cell a subset |
| Grid.ShrinksKeepsSane | LogicPuzzle.py:46-51 | shrinking keeps every cell within its target category |
| Grid.SubsetSize | LogicPuzzle.py:78-82 | a subset is no larger, and a subset of equal size is the whole set |
| Grid.SizeShrinks | LogicPuzzle.py:78-82 | shrinking never increases the total length, and leaves it equal only when no cell changed |
| Grid.UnchangedSizeIsFixpoint | LogicPuzzle.py:382-383 | a shrinking step that keeps the total length leaves the cells as they were, so an unchanged total means a fixed point |
| Grid.SetStore.constructor | LogicPuzzle.py:26 | a fresh store is empty |
| Grid.SetStore.Put | LogicPuzzle.py:51 | assignment to a key: a new key is appended to the insertion order, an existing one keeps its place; only that cell changes |
| Grid.SetStore.GenerateCells | LogicPuzzle.py:49-51 | the inner loop of generate_sets adds the keys (A, a, B) for every a of A, when A != B, each with the full value set of B |
| Grid.SetStore.GenerateRow | LogicPuzzle.py:48-51 | the middle loop adds every key of category A |
| Grid.SetStore.Generate | LogicPuzzle.py:46-51 | after generate_sets there is a cell exactly for every (A, a, B) with A != B and a in A, holding the full value set of B; older keys stay, in their order |
| Grid.SetStore.TotalLength | LogicPuzzle.py:78-82 | get_total_length is the sum of the cell sizes over the keys in order |
| Clues.Remove | Logic.py:66-73 | Logic.py's set_not_element removes b from a's cell on B, keeps every other candidate there, and touches no other cell |
| Clues.NotBoth | LogicPuzzle.py:128-138 | LogicPuzzle.py's set_not_element: a's cell on B becomes its old value minus b, b's cell on A its old value minus a; every other cell is unchanged |
| Clues.ExcludeOthers | LogicPuzzle.py:115-119 | every other value of A loses exactly b from its cell on B; all other cells are unchanged |
| Clues.BindOneWay | Logic.py:49-57 | the inner half of set_element: a's cell becomes its intersection with {b}, the other values of A lose b, and no cell outside (A, B) changes |
| Clues.Bind | LogicPuzzle.py:107-125 | set_element makes a's cell on B its old value intersected with {b} and b's cell on A its old value intersected with {a}; every other value of A loses exactly b and every other value of B loses exactly a; every other cell is unchanged |
| Clues.BindIdempotent | LogicPuzzle.py:107-125 | applying the same set_element twice is the same as applying it once |
| Clues.OneOf | LogicPuzzle.py:143-157 | is_one_of first excludes b and v from each other. It reports the clue used up exactly when a's cell has already lost b or lost v |
| Clues.OneOfCases | LogicPuzzle.py:143-157 | which branch is taken, read on a's cells before the exclusions: b already gone from a's cell on B binds a to v; otherwise v already gone from a's cell on C binds a to b; otherwise only the two exclusions happen and the clue is not used up. The bound cell keeps at most the chosen value |
| Clues.MinExists | LogicPuzzle.py:261 | a non-empty finite set of numbers has a least member, so min does not raise on it |
| Clues.MaxExists | LogicPuzzle.py:263 | a non-empty finite set of numbers has a greatest member, so max does not raise on it |
| Clues.Min | LogicPuzzle.py:262 | min is a member no greater than any member |
| Clues.Max | LogicPuzzle.py:263 | max is a member no smaller than any member |
| Clues.ShiftMembers | LogicPuzzle.py:265-266 | x is in the shifted set exactly when x - v is in the original |
| Clues.Narrow | LogicPuzzle.py:261-266 | the narrowed cells of greater_than are subsets of the old ones |
| Clues.NarrowContents | LogicPuzzle.py:261-266 | without an offset, a keeps its values above min of b's cell and b keeps its values below max of a's new cell; with offset v, a keeps x with x - v in b's cell, and b keeps y with y + v in a's new cell |
| Clues.NarrowRaises | LogicPuzzle.py:261-263 | the narrowing raises only without an offset: when exactly one cell is empty, or when no value of a's cell exceeds min of b's cell |
| Clues.NarrowKeepsSolutions | LogicPuzzle.py:249-275 | no pair of numbers that satisfies the clue is lost |
| Clues.NarrowSupported | LogicPuzzle.py:249-275 | every value left in either cell has a partner in the other cell that satisfies the clue |
| Clues.ExcludeEach | LogicPuzzle.py:290-292 | each listed value of C loses x from its cell on D; nothing else changes |
| Clues.ExcludeFromMissing | Logic.py:259-272 | every value of C missing from a's cell on C loses x on D; the only values removed are x, from such cells |
| Clues.ReturnExclusion | LogicPuzzle.py:288-292 | every value b that a's cell on B has lost loses a from its own cell on A, and nothing else is removed: only a, only from the A-cells of values of B missing from a's cell |
| Clues.ReturnExclusionTwice | LogicPuzzle.py:270-271 | the two return_exclusion calls after greater_than still only shrink |
| Clues.NarrowCells | LogicPuzzle.py:253-275 | greater_than's narrowing step only shrinks the store |
| Clues.NarrowCellsRaises | LogicPuzzle.py:253-263 | greater_than's narrowing raises exactly when one of the two cells is missing or the narrowing of their values raises |
| Clues.NarrowCellsContents | LogicPuzzle.py:253-275 | when both cells exist and the narrowing succeeds, the two cells take their narrowed values, nothing else changes, and the result is true exactly when either new cell is a singleton |
| Clues.GreaterThan | Logic.py:192-221 | greater_than (with the return_exclusion steps of the class version when asked) only shrinks cells |
| Multi.ExcludePair | LogicPuzzle.py:175-178 | excluding two values from each other only shrinks |
| Multi.ExcludeRow | LogicPuzzle.py:173-178 | the inner loop of mutual_exclude over the listed ys only shrinks; its exact cells are in ExcludeRowCells |
| Multi.ExcludeRowExcludes | LogicPuzzle.py:173-178 | x loses every y of another category from its cell on y's category |
| Multi.ExcludeRowCells | LogicPuzzle.py:173-178 | cell by cell: x's cell on each category loses exactly the listed values of that category, and no other cell changes |
| Multi.MutualExcludeExcludes | LogicPuzzle.py:170-179 | every x of the list loses every listed y of another category |
| Multi.MutualExcludeCells | LogicPuzzle.py:170-179 | cell by cell: the cell of each listed x on each other category loses exactly the listed values of that category, and every cell of an unlisted value is unchanged |
| Multi.NarrowTo | Logic.py:129-133 | raises exactly when some x has no cell on the category. Otherwise every x's cell is narrowed within the given set |
| Multi.NarrowToCells | Logic.py:129-133 | when the loop returns, each x's cell on the category is its old value intersected with the given set, and every other cell is unchanged |
| Multi.CheckSingleMapping | LogicPuzzle.py:182-190 | does nothing unless the targets share one category; then it raises exactly on a missing cell, else it narrows every x's cell on that category to within the targets |
| Multi.CheckSingleMappingCells | LogicPuzzle.py:182-190 | when the targets share one category and the call returns, each x's cell there keeps exactly its values among the targets, and every other cell is unchanged |
| Multi.CategoriesOf | LogicPuzzle.py:194 | the categories of the targets, each once, and no others |
| Multi.Seed | LogicPuzzle.py:202-208 | each cell of the other listed values, in x's target category, lies within the seed; SeedMembers states the converse |
| Multi.SeedMembers | LogicPuzzle.py:202-208 | every value of the seed comes from the cell, on the target category, of another listed value of a different category |
| Multi.Universal | LogicPuzzle.py:201 | the listed values that belong to the category |
| Multi.PairStep | Logic.py:143-162 | one (x, category) step of pair_categories shrinks and records at most one pair (x, y), with y among the targets |
| Multi.PairRow | Logic.py:141-162 | the steps for one x record only pairs of x with targets |
| Multi.PairAll | Logic.py:140-162 | all recorded pairs join a listed value with a target |
| Multi.PairCategories | LogicPuzzle.py:193-220 | pair_categories only shrinks and records pairs of listed values with targets |
| Multi.AliasedPairEmptiesCell | Logic.py:159-162 | as written, a recorded pair leaves x's cell empty, although its value was a candidate |
| Multi.AliasedPairExample | Logic.py:159-162 | on a 2 by 2 puzzle, the aliased step empties the cell that the copying step sets to {3} |
| Multi.CopiedPairBindsCell | LogicPuzzle.py:215-218 | with a copy, a recorded pair (x, y) leaves x's cell exactly {y}, and y was a candidate |
| Multi.RemoveFirst | LogicPuzzle.py:226-227 | list.remove succeeds exactly when the value is present, and takes one copy of it away |
| Multi.RemoveAll | LogicPuzzle.py:225-227 | removing the paired values shortens both lists by one per pair and keeps sub-multisets of them |
| Multi.RemoveAllContents | LogicPuzzle.py:225-227 | exactly the first values of the pairs leave xs and exactly the second values leave ys, as multisets |
| Multi.RemoveAllSucceeds | LogicPuzzle.py:225-227 | the removals raise exactly when some value is paired more often than its list holds it |
| Multi.RemoveAllStuck | LogicPuzzle.py:225-227 | once a removal has failed, removing further pairs fails too |
| Multi.RemovePairs | LogicPuzzle.py:224-239 | remove_pairs shrinks cells and returns sub-multisets of the lists. When it reports the clue used up, both lists are empty; otherwise the cells are unchanged |
| Multi.RemovePairsCases | LogicPuzzle.py:224-239 | a failed removal raises; with both lists emptied the clue is used up and the cells are unchanged; with one value left in each it raises or binds exactly as BindLast does and returns empty lists; otherwise the cells are unchanged and the lists are exactly what the removals leave |
| Multi.BindLast | LogicPuzzle.py:232-237 | with one value left in each list, x's cell on y's category becomes its old value intersected with {y}, and only that cell changes; a missing cell raises |
| Multi.MultiIsOneOfKnown | LogicPuzzle.py:160-167 | on values that all have a category, multi_is_one_of only shrinks cells and returns sub-multisets of the lists, which are empty when the clue is used up |
| Multi.UnknownMissesIff | LogicPuzzle.py:170-190 | with a value that no category lists, some step of multi_is_one_of builds a key from None exactly unless one list is empty and the other holds no value with a category |
| Multi.MultiIsOneOf | LogicPuzzle.py:160-167 | multi_is_one_of only shrinks cells and returns sub-multisets of the lists, empty when used up; with a value that no category lists it returns exactly when one list is empty and the other has no value with a category, and then leaves cells and lists as they were and answers False |
| Logic.ExcludeOthersPass | LogicPuzzle.py:113-116 | the loop over the other values of A computes ExcludeOthers |
| Logic.BindPass | Logic.py:49-57 | the inner half of set_element on the store is BindOneWay |
| Logic.SetElement | Logic.py:44-63 | set_element on the store binds both ways (one way when it is the inner call) and returns true |
| Logic.SetNotElement | Logic.py:66-73 | Logic.py's set_not_element removes b from a's cell only, and returns true |
| Logic.ExcludeBoth | LogicPuzzle.py:128-138 | the two removals of LogicPuzzle.py's set_not_element are NotBoth |
| Logic.IsOneOf | Logic.py:78-101 | is_one_of on the store computes OneOf, and returns its verdict |
| Logic.ExcludeRowPass | Logic.py:116-121 | the inner loop of mutual_exclude computes ExcludeRow |
| Logic.MutualExclude | Logic.py:113-122 | mutual_exclude on the store computes MutualExclude |
| Logic.NarrowToPass | Logic.py:129-133 | the narrowing loop raises exactly when NarrowTo does, and otherwise leaves its result |
| Logic.CheckSingleMapping | Logic.py:125-134 | check_single_mapping on the store raises exactly when the specification does and otherwise computes it |
| Logic.CategoriesB | Logic.py:138 | the target categories, in first-appearance order |
| Logic.SeedSet | Logic.py:146-152 | the loop that unions the other values' cells computes Seed |
| Logic.PairStepOnce | Logic.py:143-162 | one step of pair_categories on the store is PairStep |
| Logic.PairRowPass | Logic.py:141-162 | the steps for one x are PairRow |
| Logic.PairCategories | Logic.py:137-163 | pair_categories on the store computes PairCategories and returns its pairs |
| Logic.RemoveAllPass | Logic.py:168-170 | the removal loop computes RemoveAll |
| Logic.RemovePairs | Logic.py:167-182 | remove_pairs on the store raises exactly when the specification does and otherwise computes it |
| Logic.MultiIsOneOf | Logic.py:104-110 | multi_is_one_of on the store, for any lists, raises exactly when MultiIsOneOf does and otherwise computes it |
| Logic.NarrowPass | Logic.py:209-221 | the narrowing of greater_than on the store raises exactly when NarrowCells does (leaving the cells), and otherwise computes it |
| Logic.GreaterThan | Logic.py:192-221 | greater_than on the store, without return_exclusion, raises or computes as GreaterThan does |
| Sweeps.ChainPair | LogicPuzzle.py:315-317 | both cells on the third category become the intersection of their old values; no other cell changes |
| Sweeps.ChainRelationCats | LogicPuzzle.py:313-317 | the loop over third categories only shrinks |
| Sweeps.UnionOn | Logic.py:370-373 | the union, over the values y of B in a set, of y's cells on C |
| Sweeps.ChainThrough | Logic.py:372-377 | a's cell on C keeps just the values in that union; no other cell changes |
| Sweeps.ChainSetsCats | Logic.py:369-377 | the loop over third categories only shrinks |
| Sweeps.RemoveChainCats | Logic.py:266-272 | the loop over third categories only shrinks |
| Sweeps.KeyStep | LogicPuzzle.py:294-327 | every sweep step shrinks, except the overwriting symmetrize of Logic.py |
| Sweeps.KeyStepKeepsSane | Logic.py:277-287 | every sweep step, including the overwriting one, keeps cells within their categories |
| Sweeps.KeyFold | LogicPuzzle.py:295 | a sweep over the keys in order shrinks, except the overwriting symmetrize |
| Sweeps.KeyFoldKeepsSane | Logic.py:277-287 | every sweep over the keys keeps cells within their categories |
| Sweeps.OthersOn | Logic.py:324-327 | the union of the other values' cells on B: it contains each of them and nothing else |
| Sweeps.SolveSingleton | Logic.py:322-336 | solve_singleton only shrinks |
| Sweeps.CellStep | LogicPuzzle.py:279-286 | a per-cell step (return_exclusion or solve_singleton) only shrinks |
| Sweeps.OverTargets | LogicPuzzle.py:281-283 | the loop over target categories only shrinks |
| Sweeps.OverValues | LogicPuzzle.py:280-283 | the loop over a category's values only shrinks |
| Sweeps.OverCategories | Logic.py:310-317 | the outer loop over categories only shrinks |
| Sweeps.SameAs | LogicPuzzle.py:349-353 | the group starts with x and holds exactly the listed values whose cell equals x's cell |
| Sweeps.ExcludeSet | LogicPuzzle.py:361-362 | x loses the whole set on B, and (in the two-way version) each member of the set loses x; nothing else changes |
| Sweeps.ExcludeGroup | LogicPuzzle.py:358-362 | every value of A outside the group is left with no member of the shared set |
| Sweeps.ExcludeGroupKeeps | LogicPuzzle.py:358-362 | a cell already disjoint from the set stays disjoint from it |
| Sweeps.NOfNStep | LogicPuzzle.py:347-356 | one group check of n_of_n only shrinks |
| Sweeps.NOfNValues | LogicPuzzle.py:346-356 | the loop over the values of A only shrinks |
| Sweeps.NOfNTargets | LogicPuzzle.py:344-356 | the loop over the targets only shrinks |
| Sweeps.NOfN | LogicPuzzle.py:342-356 | n_of_n only shrinks |
| SweepSteps.SymmetrizeWritesMirror | Logic.py:277-287 | at a solved cell (A, a, B) = {b}, Logic.py's symmetrize overwrites b's cell on A with {a} and changes nothing else |
| SweepSteps.SymmetrizeBindsMirror | LogicPuzzle.py:294-305 | at a solved cell (A, a, B) = {b}, the class's symmetrize binds b to a: a's cell stays {b}, b's cell on A is intersected with {a}, the other values of B lose exactly a and those of A exactly b, and no cell outside A and B changes |
| SweepSteps.ExcludeSolvedStep | Logic.py:290-306 | at a solved cell (A, a, B) = {b}, every other value of A loses exactly b on B; other cells are untouched |
| SweepSteps.ChainRelationMeets | LogicPuzzle.py:307-327 | at a solved cell, a's and b's cells on every third category become the intersection of their old values; no other cell changes |
| SweepSteps.ChainSetsNarrows | Logic.py:363-377 | a's cell on every third category C becomes its old value intersected with the union of the cells on C of a's candidates on B; only a's cells change |
| SweepSteps.UnionOnUnchanged | Logic.py:370-373 | the union depends only on the cells it reads |
| SweepSteps.RemoveChainExcludes | Logic.py:259-272 | at a solved cell (A, a, B) = {b}, every value of a third category that a's cell lacks has lost b on B; any removed value is b, from the B-cell of a value of a third category of the list that a's cell on that category lacks, so nothing else is removed |
| SweepSteps.SolveSingletonBinds | Logic.py:322-336 | when b is the one candidate of a that no other value of A allows, solve_singleton binds a to b |
| SweepSteps.SolveSingletonIdle | Logic.py:322-336 | when every candidate of a is allowed to another value of A, solve_singleton changes nothing |
| SweepSteps.SolveSingletonCrowded | Logic.py:322-336 | when two or more candidates of a are allowed to no other value of A, solve_singleton changes nothing |
| Passes.ChainRelationPass | LogicPuzzle.py:313-317 | the loop over categories computes ChainRelationCats |
| Passes.UnionOnAdd | Logic.py:372-373 | adding one value to the union's index set adds that value's cell |
| Passes.UnionPass | Logic.py:370-373 | the union loop computes UnionOn |
| Passes.ChainSetsPass | Logic.py:366-377 | the loop of chain_sets for one key computes ChainSetsCats |
| Passes.ExcludeEachStep | Logic.py:271-272 | one more value in the loop removes x from that value's cell only |
| Passes.ExcludeMissingStep | Logic.py:271-272 | one iteration extends ExcludeEach by one value |
| Passes.ExcludeEachPass | LogicPuzzle.py:289-290 | the loop over the set computes ExcludeEach |
| Passes.ExcludeMissingPass | Logic.py:268-272 | the loop over a category's missing values computes ExcludeFromMissing |
| Passes.RemoveChainPass | Logic.py:261-272 | the loop of remove_chain_exclusion for one key computes RemoveChainCats |
| Passes.KeyStepPass | LogicPuzzle.py:296-305 | the body of every key sweep computes KeyStep |
| Passes.SweepKeysStep | LogicPuzzle.py:295 | one more key extends the fold by that key |
| Passes.SweepKeys | LogicPuzzle.py:294-327 | a sweep over the store's keys, in insertion order, computes KeyFold |
| Passes.OthersPass | Logic.py:324-327 | the loop collecting the other values' cells computes OthersOn |
| Passes.SolveSingletonPass | Logic.py:322-336 | solve_singleton on the store computes SolveSingleton |
| Passes.CellStepPass | LogicPuzzle.py:288-292 | a per-cell step on the store computes CellStep |
| Passes.OverTargetsStep | LogicPuzzle.py:281-283 | one more target category extends OverTargets |
| Passes.OverTargetsPass | LogicPuzzle.py:281-283 | the loop over target categories computes OverTargets |
| Passes.OverValuesStep | LogicPuzzle.py:280-283 | one more value extends OverValues |
| Passes.OverValuesPass | LogicPuzzle.py:280-283 | the loop over values computes OverValues |
| Passes.SweepCellsStep | LogicPuzzle.py:279-283 | one more category extends OverCategories |
| Passes.SweepCells | LogicPuzzle.py:279-286 | the whole per-cell sweep computes OverCategories |
| Passes.SameAsPass | LogicPuzzle.py:349-353 | the loop collecting equal cells computes SameAs |
| Passes.ExcludeSetStep | LogicPuzzle.py:361-362 | one more element extends ExcludeSet by that element |
| Passes.ExcludeSetStepPass | LogicPuzzle.py:361-362 | one iteration extends ExcludeSet |
| Passes.ExcludeSetPass | LogicPuzzle.py:361-362 | the loop over the shared set computes ExcludeSet |
| Passes.ExcludeGroupStep | LogicPuzzle.py:359-362 | one more value of A extends ExcludeGroup |
| Passes.ExcludeGroupPass | LogicPuzzle.py:358-362 | exclude_n_of_n on the store computes ExcludeGroup |
| Passes.NOfNStepPass | LogicPuzzle.py:347-356 | one group check on the store computes NOfNStep |
| Passes.NOfNValuesStep | LogicPuzzle.py:346 | one more value extends NOfNValues |
| Passes.NOfNValuesPass | LogicPuzzle.py:346-356 | the loop over values computes NOfNValues |
| Passes.NOfNTargetsStep | LogicPuzzle.py:344 | one more target extends NOfNTargets |
| Passes.NOfNTargetsPass | LogicPuzzle.py:344-356 | the loop over targets computes NOfNTargets |
| Passes.NOfNCategoryStep | LogicPuzzle.py:343 | one more category extends NOfN |
| Passes.NOfNPass | LogicPuzzle.py:342-356 | n_of_n on the store computes NOfN |
| Calls.Apply | LogicPuzzle.py:390-397 | a clue call only shrinks. Only multi_is_one_of rewrites its own arguments, and set_element and set_not_element always report the clue used up |
| Calls.CluePass | LogicPuzzle.py:390-397 | a pass over the clues only shrinks, keeps the number of clues, and leaves used-up clues as they were |
| Calls.ClueStep | LogicPuzzle.py:392-396 | one clue of the pass only shrinks, and a used-up clue is skipped with nothing changed |
| Calls.CluePassSolved | Logic.py:476-478 | a pass over clues that are all used up changes nothing |
| Calls.SetNotElementBoth | LogicPuzzle.py:128-138 | the class's set_not_element on the store is NotBoth, and returns true |
| Calls.ReturnExclusion | LogicPuzzle.py:288-292 | return_exclusion on the store computes ReturnExclusion |
| Calls.GreaterThanExcluding | LogicPuzzle.py:249-275 | the class's greater_than on the store, with return_exclusion, raises or computes as GreaterThan does |
| Calls.ApplyGreaterThan | LogicPuzzle.py:393-396 | a greater_than clue on known values and a third category raises exactly when GreaterThan does, and otherwise returns its cells and verdict with the clue unchanged |
| Calls.RunPairCall | LogicPuzzle.py:393-396 | a set_element, set_not_element or is_one_of clue on the store raises exactly when Apply does, and otherwise computes it |
| Calls.RunMultiIsOneOf | LogicPuzzle.py:393-396 | a multi_is_one_of clue on the store raises exactly when Apply does, and otherwise computes it, with its shortened lists |
| Calls.RunGreaterThan | LogicPuzzle.py:393-396 | a greater_than clue on the store raises exactly when Apply does, and otherwise computes it |
| Calls.RunCall | LogicPuzzle.py:393-396 | one call on the store raises exactly when Apply does, and otherwise computes it |
| Calls.CluePassSnoc | LogicPuzzle.py:391-396 | one more clue extends the pass by exactly that clue's step |
| Calls.RunCluesStep | LogicPuzzle.py:392-396 | one more clue extends the pass |
| Calls.RunClues | Logic.py:473-478 | a pass over the clues on the store raises exactly when CluePass does, and otherwise computes it |
| Calls.RaisedStays | Logic.py:473-478 | once a clue has raised, the whole pass raises |
| Solver.Symmetrize | Logic.py:277-287 | symmetrize on the store computes its fold |
| Solver.ExcludeSolved | Logic.py:290-306 | exclude_solved on the store computes its fold |
| Solver.ChainSets | Logic.py:363-377 | chain_sets on the store computes its fold |
| Solver.RemoveChainExclusion | Logic.py:259-272 | remove_chain_exclusion on the store computes its fold |
| Solver.SolveAllSingleton | Logic.py:310-320 | solve_all_singleton on the store computes its fold |
| Solver.NOfN | Logic.py:381-401 | Logic.py's n_of_n on the store, with one-way exclusion, computes NOfN |
| Solver.IsSolved | Logic.py:413-417 | is_solved holds exactly when the largest cell has size 1, so it fails on an empty store |
| Solver.CluesToFixpoint | Logic.py:471-481 | the passes of solve_clues only shrink and keep the number of clues |
| Solver.SolveCluesSpec | Logic.py:468-481 | solve_clues only shrinks and keeps the number of clues |
| Solver.CluesToFixpointEndsIdle | Logic.py:480-481 | solve_clues returns only after a pass that left every cell unchanged |
| Solver.SolveClues | Logic.py:468-481 | solve_clues on the store raises exactly when the specification does, and otherwise computes it |
| Solver.LogicRound | Logic.py:429-451 | one round keeps the number of clues |
| Solver.Rounds | Logic.py:426-453 | a settled run keeps the number of clues |
| Solver.SolvedHasCategories | Logic.py:455-456 | a solved store has a first category |
| Solver.PrimaryKeys | Logic.py:457-463 | every cell the solutions read exists |
| Solver.Row | Logic.py:461-463 | a row lists, per remaining category in order, the primary value's cell on it |
| Solver.RowsOf | Logic.py:458-463 | the rows are keyed by exactly the given values |
| Solver.Solutions | Logic.py:455-465 | the solutions are non-empty only when solved; then they are keyed by the values of the first category, each row listing that value's cells on the other categories in order |
| Solver.Round | Logic.py:430-451 | one round on the store raises exactly when LogicRound does, and otherwise computes it |
| Solver.EmptyRows | Logic.py:458-459 | every value of the first category starts with an empty row, and nothing else has one (also set_solutions, LogicPuzzle.py:403-404) |
| Solver.AppendColumn | Logic.py:462-463 | each row gets its cell on the next category appended |
| Solver.BuildRows | Logic.py:458-463 | the row-building loops compute RowsOf |
| Solver.CollectSolutions | Logic.py:455-465 | the solutions read off the store are Solutions |
| Solver.RoundStep | Logic.py:427-453 | one round on the store advances Rounds by one |
| Solver.RunRounds | Logic.py:426-453 | the loop on the store computes Rounds; when it settles, the store holds the settled cells |
| Solver.Unsolved | Logic.py:423 | one unsolved clue per call, in the order of the calls |
| Solver.SolvePuzzle | Logic.py:421-465 | solve_puzzle starts every clue unsolved and runs the rounds. When they settle it returns Solutions of the settled cells; otherwise it returns no solutions |
| Puzzle.IsSolvedVersions | LogicPuzzle.py:85-89 | the class's is_solved holds on an empty store, where Logic.py's fails; on a non-empty store the class's implies Logic.py's, and the converse holds when no cell is empty |
| Puzzle.PuzzleRound | LogicPuzzle.py:373-380 | a round of solve only shrinks and keeps the number of clues |
| Puzzle.PuzzleLoop | LogicPuzzle.py:370-383 | the loop of solve ends, because the total length strictly decreases until it stops changing; it only shrinks |
| Puzzle.PuzzleLoopEndsIdle | LogicPuzzle.py:382-383 | solve stops after a round that left every cell unchanged |
| Puzzle.ValueRow | LogicPuzzle.py:405-409 | a row has at most one entry per category |
| Puzzle.PuzzleSolutions | LogicPuzzle.py:399-409 | the solutions are keyed by exactly the values of the first category |
| Puzzle.ValueRowsOf | LogicPuzzle.py:405-409 | the rows are keyed by exactly the given values |
| Puzzle.ValueRowSkipsPrimary | LogicPuzzle.py:406 | the primary category contributes no column |
| Puzzle.RowsAgree | LogicPuzzle.py:405-409 | on a solved store, each entry of the class's row is the one member of the corresponding cell in Logic.py's row |
| Puzzle.SolutionsAgree | LogicPuzzle.py:399-409 | on a solved store, both versions key their solutions by the same values, rows have equal length, and each class entry is the member of Logic.py's singleton |
| Puzzle.RowAgrees | LogicPuzzle.py:405-409 | the row that starts at the primary category equals the one over the other categories |
| Puzzle.LogicPuzzle.constructor | LogicPuzzle.py:24-29 | a new puzzle has no categories, no cells, no clues and no solutions |
| Puzzle.LogicPuzzle.SetCategories | LogicPuzzle.py:34-36 | set_categories stores the categories and generates a full cell for every key; older keys stay |
| Puzzle.LogicPuzzle.SetClues | LogicPuzzle.py:53-54 | set_clues replaces the clues and nothing else |
| Puzzle.LogicPuzzle.GetTotalLength | LogicPuzzle.py:78-82 | get_total_length is the total size of the cells |
| Puzzle.LogicPuzzle.IsSolved | LogicPuzzle.py:85-89 | is_solved holds exactly when every cell is a singleton |
| Puzzle.LogicPuzzle.ContainsNull | LogicPuzzle.py:421-425 | contains_null holds exactly when some cell is empty |
| Puzzle.LogicPuzzle.SetElement | LogicPuzzle.py:107-125 | set_element computes Bind and returns true |
| Puzzle.LogicPuzzle.SetNotElement | LogicPuzzle.py:128-138 | set_not_element computes NotBoth and returns true |
| Puzzle.LogicPuzzle.IsOneOf | LogicPuzzle.py:143-157 | is_one_of computes OneOf and returns its verdict |
| Puzzle.LogicPuzzle.MultiIsOneOf | LogicPuzzle.py:160-167 | multi_is_one_of, for any lists, raises or computes as MultiIsOneOf does, with the copying pair_categories |
| Puzzle.LogicPuzzle.GreaterThan | LogicPuzzle.py:249-275 | greater_than raises or computes as GreaterThan does, with return_exclusion |
| Puzzle.LogicPuzzle.ReturnExclusion | LogicPuzzle.py:288-292 | return_exclusion computes ReturnExclusion |
| Puzzle.LogicPuzzle.ReturnExclusionAll | LogicPuzzle.py:279-286 | return_exclusion_all computes its fold over categories, values and targets |
| Puzzle.LogicPuzzle.Symmetrize | LogicPuzzle.py:294-305 | symmetrize computes its fold of set_element over the keys |
| Puzzle.LogicPuzzle.ChainRelation | LogicPuzzle.py:307-327 | chain_relation computes its fold over the keys |
| Puzzle.LogicPuzzle.NOfN | LogicPuzzle.py:342-356 | n_of_n computes NOfN with two-way exclusion |
| Puzzle.LogicPuzzle.ExcludeNOfN | LogicPuzzle.py:358-362 | exclude_n_of_n computes ExcludeGroup |
| Puzzle.LogicPuzzle.SolveClues | LogicPuzzle.py:390-397 | solve_clues raises exactly when the pass does, and otherwise stores its cells and clue flags |
| Puzzle.LogicPuzzle.SolveRound | LogicPuzzle.py:373-380 | one round raises exactly when PuzzleRound does, and otherwise computes it |
| Puzzle.LogicPuzzle.SolveLoop | LogicPuzzle.py:370-383 | the loop raises exactly when PuzzleLoop does, and otherwise computes it |
| Puzzle.LogicPuzzle.SetSolutions | LogicPuzzle.py:399-410 | on an unsolved store nothing changes. On a solved store without categories it raises before clearing the old solutions; otherwise the solutions become PuzzleSolutions |
| Puzzle.LogicPuzzle.Solve | LogicPuzzle.py:368-387 | solve runs the loop and, when every cell is a singleton, sets the solutions; otherwise they are unchanged; it raises exactly when the loop raises or when the loop ends on a solved store with no categories |
| Puzzle.CollectValueRows | LogicPuzzle.py:401-409 | the rows read off the store are PuzzleSolutions |
| Puzzle.BuildValueRows | LogicPuzzle.py:402-409 | the row-building loops compute ValueRowsOf |
| Puzzle.AppendValues | LogicPuzzle.py:407-409 | each row gets the member of its singleton cell on the next category appended |
| Tokens.AllTypes | Token.py:4-13 | the nine token types |
| Tokens.AllTypesComplete | Token.py:4-13 | every token type is listed |
| Tokens.TextInjective | Token.py:4-13 | distinct token types have distinct texts |
| Tokens.InflexibleTypes | Token.py:48-50 | a text is inflexible exactly when it is the text of EQUAL, NOT_EQUAL, GT or PLUS |
| Tokens.IndexOf | Token.py:68 | the first position of the separator |
| Tokens.Split | Token.py:68 | str.split gives one piece exactly when the separator is absent, and no piece contains the separator |
| Tokens.JoinSplit | Token.py:68 | joining the pieces with the separator gives back the text |
| Tokens.FirstCategory | Token.py:73-76 | the first category, in order, that lists the word; None exactly when none does |
| Tokens.GetElement | Token.py:62-76 | get_element raises exactly on a "cat:num" text that does not split into two pieces. A found pair is a listed (category, value); a plain word is found exactly when some category lists it, and is returned as itself |
| Tokens.NumericElementFound | Token.py:67-70 | "cat:num" with a known category and a listed number yields that pair |
| Tokens.ResolveAll | Token.py:99-104 | when every item resolves, the list holds their pairs in order; None names an item that does not resolve, Raised one that raises |
| Tokens.ListValue | Token.py:92-108 | an empty text raises; an unbracketed text leaves the token alone; a resolved list is the items' pairs |
| Tokens.PairValue | Token.py:115-124 | raises exactly when the text is not two comma-separated pieces or the element raises. A pair is (cat_A, el_A, cat_B) with cat_B a known category other than cat_A, and whenever el_A names an element and cat_B is another known category, that pair is the result |
| Tokens.ElementValue | Token.py:79-86 | resolves exactly when get_element does, to the element it found |
| Tokens.Classify | Token.py:23-36 | an operator keeps its text and gets its type; a number becomes NUMBER; whatever is recognised gets a type other than INVALID and a value of that type's shape |
| Tokens.ClassifyDispatch | Token.py:23-36 | past operators and numbers, a text with '[' is decided by the list validation and becomes LIST, else one with ',' by the pair validation and becomes PAIR, else by the element validation and becomes ELEMENT; it raises or stays INVALID exactly when that validation does |
| Tokens.ClassifyWord | Token.py:23-36 | a plain word becomes the element of the first category listing it, and stays INVALID exactly when none does |
| Tokens.Token.constructor | Token.py:17-20 | a new token is INVALID, not valid, and holds its raw text |
| Tokens.Token.IsInflexibleToken | Token.py:48-50 | the value is the text of one of EQUAL, NOT_EQUAL, GT and PLUS |
| Tokens.Token.GetInflexibleTokType | Token.py:54-58 | returns the type whose text is the value, or None exactly when no type's text is the value |
| Tokens.Token.ValidateElementToken | Token.py:79-86 | the token becomes the element get_element found; an unknown name leaves type, validity and value unchanged |
| Tokens.Token.ValidateListToken | Token.py:92-108 | the token becomes a LIST of the items' pairs when all resolve; otherwise it is unchanged |
| Tokens.Token.ValidatePairToken | Token.py:115-124 | the token becomes a PAIR when the element resolves and the category is another known one; otherwise it is unchanged |
| Tokens.Token.SetType | Token.py:23-36 | set_type leaves the fields as Classify says, or unchanged when it gives nothing |
| Tokens.ResolveItems | Token.py:98-104 | the loop over the items computes ResolveAll |
| Tokens.ResolveAllStep | Token.py:99-104 | resolving a list is resolving its head, then the rest |
| Tokens.PrependSnoc | Token.py:104 | appending pairs one at a time equals appending them together |

## Left out

- File and console I/O are not part of this model: `read_categories` (a CSV read through pandas), `read_clues`, `write_solutions`, `write` and `write2`, every `print`, the `test`/`test2` fixtures, `show_sets`, `solve_n_clues` and Logic.py's `test`. `Solve` stops where `write_solutions` would be called.
- RuleParser.py (reads a file and splits lines) and test.py are not part of this model.
- `get_full_parent_set`, `get_parent_set` and `unpack_key` are not modelled separately; they are inlined as category lookups and key fields.
- `chain_include` and `chain_exclude` (LogicPuzzle.py:329-340) are not modelled: chain_relation no longer calls them.
- Logic.py's module globals: the store and the categories are passed explicitly.
- `Token.is_numerical` and `float()` are a parameter `parse: string -> Option<real>`. Float semantics are not modelled.
- Token.py reads `puzzle.category_values`, which this LogicPuzzle.py does not define. The model takes it as a `Lexicon` holding the category names and their values as words or numbers.
- `Token()` with no text (`tok=None`) is not modelled: every token has a text.
- Python's hash-order iteration of sets is not modelled. `Grid.Pick` takes an arbitrary member, and the order in which `pair_categories` meets the target categories is first appearance.
- Solver.Rounds: a bound `rounds` on the number of rounds stands in for the unbounded loop of `solve_puzzle`. Logic.py's symmetrize overwrites a cell with `{a}` and can grow it, so no measure decreases; a run that does not settle within the bound ends `OutOfRounds`.
- Puzzle.LogicPuzzle.SetCategories: when a second call leaves keys of older categories, the model keeps them (as the dictionary does), and `Valid` is promised only when the old keys fit the new categories.
- Clues.GreaterThan: its own contract states only shrinking; the content of the narrowed cells is stated by `Clues.NarrowCellsContents` and `Clues.NarrowContents`, and the return_exclusion steps by `Clues.ReturnExclusion`.
- Multi.MultiIsOneOf and Multi.MultiIsOneOfKnown: the contract states shrinking and the shortened lists, not the exact cells; the exact cells of its mutual_exclude, check_single_mapping and remove_pairs steps are stated by `Multi.MutualExcludeCells`, `Multi.CheckSingleMappingCells`, `Multi.RemoveAllContents` with `Multi.RemovePairsCases`; for pair_categories only shrinking and the pairs recorded are stated (`Multi.PairCategories` and the aliasing lemmas).
- Sweeps.NOfN: only shrinking is stated for the whole sweep; what one group removes is `Sweeps.ExcludeGroup`.
- Solver.LogicRound and Solver.Rounds: shrinking is not stated, because Logic.py's symmetrize can grow a cell.
- Logic.MutualExclude, Logic.CheckSingleMapping, Logic.PairCategories, Logic.RemovePairs and their specifications in Multi take values that all have a category. A value that no category lists is handled once for the whole call (`Multi.UnknownMisses`, `Multi.MultiIsOneOf`), and the store changes the steps make before such a KeyError are not modelled, since the exception ends the solve.
- Grid.WellFormed: categories may not share a value. The source does not forbid it (two numeric categories both 1..5 read from the CSV), and its get_parent_set_category would then resolve a shared value to the first category listing it; puzzles with shared values are outside this model.
- Values are integers, and so is the offset of greater_than: non-integral numbers (pandas floats such as 2.5) cannot be category values or offsets in this model.
- Integer overflow does not arise: Python integers are unbounded, as are Dafny's.

## Findings

| source | as written | input that shows it | evidently intended | confidence | as-written member | corrected member |
|---|---|---|---|---|---|---|
| Logic.py:159-162 | pair_categories stores the set `res` in the cell, then takes the pair's value with `res.pop()`, which empties the very set just stored | categories P = [1, 2] and G = [3, 4], every cell full, clue multi_is_one_of([1], [3]) | the cell (P, 1, G) becomes {3}, as LogicPuzzle.py:216 does by storing `set(res)` | not executed | Multi.AliasedPairExample | Multi.CopiedPairBindsCell |

Logic.py's own path (`Solver`, and `Calls` with `Version.LogicModule`) keeps the code as written, so it keeps the aliasing. The class path uses the copy. `Multi.AliasedPairEmptiesCell` states the aliased behaviour for every input.

Two more differences between the description and the code are followed as the code has them:

- n_of_n compares the size of the group with the number of categories, not the number of values of A (LogicPuzzle.py:355).
- min and max of an empty cell in greater_than raise ValueError, modelled as `Outcome.Raised`.
