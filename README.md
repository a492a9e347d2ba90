# Sudoku as a constraint satisfaction problem

This project models the core of a Python Sudoku solver and proves properties of that model in Dafny. The solver treats a puzzle as a CSP:

- **Variables.** The 81 cells, named letter + digit (`A1` … `I9`).
- **Domains.** The digits each cell may still take. The source stores a domain as an integer whose decimal digits are the candidates in ascending order, for example `123456789` or `7`.
- **Constraints.** One `!=` constraint between every two peers, meaning two cells that share a letter, a digit or a 3×3 box.

`solve.py` solves a puzzle in four stages:

1. It builds the state: the variables, each cell's peer list and its three peer groups (same digit, same letter, same box), the stored constraints, and domains drawn from the givens.
2. It runs `inference`. This repeats AC-3, sole placement (`peer_consistency`) and a dead-group test (`valid_peer_set`) until nothing changes or the state is unsolvable.
3. If the state is not solved, `backtrack` branches on the most constrained cell. Each child is a fresh state built from the grid with one more given.
4. `get_sudoku` reads the final board out, or a grid of -1 when the state is unsolvable.

`AC3-test.py` is an earlier draft of the state and of AC-3. Its constraint list holds both directions of every pair, built with `alldiff`. The agenda starts as that list. Its `is_solved` only asks whether every domain is a single digit.

## How the model is built

- **Board (`board.dfy`).**
  - A cell is `Cell(letter, digit)`, with board order `9 * letter + digit`.
  - A grid is a 9×9 `seq<seq<int>>`, read `values[letter][digit]`, with 0 for a blank.
  - The module also defines the three peer groups and what a peer is.
- **Domains (`domains.dfy`).**
  - A domain is the set of its digits, a subset of 1..9.
  - `Number` turns a domain back into the source's decimal integer, so the numeric comparisons of the source stay visible: `< 10`, `<`, `> 9`, `== 0` and the printed board.
  - The module proves that `Number` is injective and that `<` on it orders by digit count.
- **Constraints and solutions (`csp.dfy`).**
  - Solutions are defined here. So are the two constraint lists: the one-directional list of `solve.py` and the symmetric list of the draft.
  - The module holds the facts that make each inference rule sound: a revision, a sole placement and an uncovered peer set each lose no solution.
- **State (`solver.dfy`).** The `Sudoku` class keeps the source's fields:
  - the givens;
  - the variable list;
  - the stored constraints;
  - the peer maps;
  - the domain map;
  - the `unsolvable` flag.

  Its constructor builds the shared structures when none are passed in (the root of a search) and reuses them when they are (its children).
- **Propagation (`propagation.dfy`).**
  - AC-3's worklist, `valid_peer_set`, `peer_consistency` and `inference`, written as methods with loops over the state's domain map.
  - Each method is proved to narrow domains only and to keep every solution. `inference` is proved to end at a fixed point unless it marks the state unsolvable: arc consistent, no sole placement left, and every peer set covering all nine digits.
- **Search (`search.dfy`).**
  - The most-constrained-variable choice, `backtrack`, and the work the benchmark driver does for one puzzle.
  - A returned answer is proved to be solved and to keep the givens.
  - A state marked unsolvable is proved to have no solution that matches its givens.
  - `backtrack` is proved to return the first child, in ascending digit order, whose search is not unsolvable. Every smaller digit is proved excluded by the givens.
  - `backtrack` raises `KeyError` when it finds no cell to branch on; the model returns `None` there. A state is `Searchable` when it is solved or has a cell with two or more candidates. At the root it must also be arc consistent, because the root's children are not inferred and rely on it. The search of a `Searchable` state is proved never to reach the `KeyError`. The driver only searches such states: after `inference` the root is arc consistent, so every digit written into a root child leaves no digit twice among peers.
- **Draft (`draft.dfy`).** The draft's class, its `alldiff` constraint builder and its AC-3. Because its constraint list is symmetric, the draft's AC-3 is proved to leave the state arc consistent whenever it does not empty a domain.

Two facts about the source shape the model:

- The stored constraints of `solve.py` hold one direction per pair. `AC3` seeds its agenda with both directions but re-queues only stored constraints whose second operand was narrowed. So a call that changes something may leave the state not arc consistent. The model proves arc consistency only for a call that changes nothing, which is the case `inference` stops on.
- `peer_consistency` reads each cell's domain once, before its loop. A later digit of that snapshot can overwrite a placement made earlier for the same cell. The model keeps this, and it is still sound: two sole placements for one cell mean no solution is left.

## Model

| member | source | states |
|---|---|---|
| Board.AllCells | solve.py:68-83 | the variable list has 81 cells, the cell at position `i` is the one with board index `i` (letter-major order) |
| Board.AllCellsDistinct | solve.py:76-81 | no cell is listed twice |
| Board.GridDomain | solve.py:101-111 | a blank (0) starts with all of 1..9, a given `v` with exactly {v}; never empty |
| Board.Assign | solve.py:436-437 | the copied grid has `v` at the branch cell and every other cell unchanged |
| Board.BlanksDecrease | solve.py:436-447 | filling a blank cell leaves strictly fewer blanks, which bounds the depth of backtrack |
| Board.DigitLine | solve.py:141-152 | the nine cells sharing a digit, in letter order, exactly those cells, no repeats |
| Board.LetterLine | solve.py:141-155 | the nine cells sharing a letter, in digit order, exactly those cells, no repeats |
| Board.BoxCells | solve.py:157-167 | the nine cells of the 3×3 box, in the order create_peers visits them, exactly the box, no repeats |
| Board.Without | solve.py:151-155 | dropping the cell itself from a list keeps every other member and one fewer entry when it was there |
| Board.GroupsSpec | solve.py:115-170 | three peer groups of 8 distinct cells each, none holding the cell; group 0 is its digit line, 1 its letter line, 2 its box; being a peer means being in one of them |
| Board.GroupIsUnit | solve.py:120-123 | a cell with any one of its peer groups makes a full row, column or box of 9 cells |
| Domains.NumberSmall | solve.py:404 | a domain read as a number is below 10 exactly when it has at most one digit, and 0 exactly when it is empty |
| Domains.NumberOrdersBySize | solve.py:407-409 | a domain with fewer digits is a smaller number, so the numeric minimum has the fewest candidates |
| Domains.NumberInjective | solve.py:60-63 | two domains are equal numbers exactly when they are equal sets |
| Domains.NumberSingleton | solve.py:357 | a single digit `v` read as a number is `v` |
| Domains.NumberBounds | solve.py:91-95 | a domain of `n` digits is a number of exactly `n` decimal digits |
| Domains.TotalSizeShrinks | solve.py:386-387 | removing digits lowers the total number of candidates, strictly when anything changed; the termination measure of inference |
| Domains.CreateDomains | solve.py:85-113 | every listed cell, and only those, gets the domain its given calls for |
| Domains.GivenGridReadsBack | solve.py:105-111 | for a grid without blanks, each fresh domain read back as a number is the given itself |
| Domains.GetSudoku | solve.py:189-210 | a 9×9 grid of -1 when unsolvable, otherwise each cell's domain as a number at `[letter][digit]` |
| Domains.ElementShouldBeRemoved | solve.py:212-227 | under `!=` a value is removed exactly when no digit of the other domain differs from it: that domain is {value}, or it is the empty string of an emptied domain (the draft's copy at AC3-test.py lines 119-124 is the same) |
| Csp.StoredOneDirection | solve.py:180-185 | the stored list never relates a cell to itself and holds exactly one of (x, y), (y, x) for peers and neither for non-peers |
| Csp.EmptiedHasNoSolution | solve.py:289-291 | once a revision empties a domain, no solution was within the domains it started from |
| Csp.RevisionKeepsSolutions | solve.py:273-293 | removing only digits that a peer's domain leaves no different partner for loses no solution |
| Csp.SolePlacement | solve.py:347-357 | if a group of a cell has no cell holding `v`, every solution within the domains puts `v` on that cell |
| Csp.AssignKeepsSolutions | solve.py:356-357 | assigning such a sole placement loses no solution |
| Csp.UnionOfHeld | solve.py:314-319 | the digits gathered from a group are exactly those some cell of it still holds |
| Csp.UnionOfGroupsHeld | solve.py:314-319 | the digits gathered from several groups are exactly those held in one of them |
| Csp.PeerUnionHeld | solve.py:310-319 | the list valid_peer_set builds for a cell holds a digit exactly when the cell or one of its groups still holds it |
| Csp.CoveredHoldsAll | solve.py:321-323 | the list has nine entries exactly when it is all of 1..9 |
| Csp.UncoveredHasNoSolution | solve.py:321-325 | a cell failing the test leaves no solution, so marking the state unsolvable is sound |
| Csp.UnplacedHasNoSolution | solve.py:303-304 | a digit held neither by a cell nor by its digit line has no place in that line |
| Solver.LinePeers | solve.py:141-155 | after the line loop the flat list holds exactly the cells sharing the digit or the letter, including the cell itself unless its letter and digit indices are equal, with no other cell twice; groups 0 and 1 are its digit line and letter line without it |
| Solver.AddBoxRow | solve.py:158-167 | one row of the box loop: adds box cells not yet listed and not the cell itself, and extends group 2 |
| Solver.AddBoxPeers | solve.py:157-167 | after the box loop the peer list holds every peer, and group 2 is the cell's box without it |
| Solver.AddPeerConstraints | solve.py:183-185 | after one variable's peers the list holds exactly the pairs of peers whose first cell is that variable or an earlier one, earlier cell first, without repeats |
| Solver.Sudoku.constructor | solve.py:13-43 | a fresh state: the shared structures are built, or reused when passed in; each domain comes from its given; not unsolvable |
| Solver.Sudoku.CreateVariables | solve.py:68-83 | returns all 81 cells once each in letter-major order |
| Solver.Sudoku.CreatePeers | solve.py:115-170 | writes this cell's peer list and three groups into the maps and leaves every other entry alone |
| Solver.Sudoku.CreateConstraints | solve.py:172-187 | the result relates exactly the pairs of peers, earlier cell first, no repeats; the peer maps are complete |
| Solver.Sudoku.IsSolved | solve.py:45-66 | true when unsolvable, otherwise exactly when no two peers have equal domains, even if some still have several digits |
| Solver.SolvedSingletonsAreSolution | solve.py:45-66 | a solved state whose domains are all single digits reads out a completed board within them |
| Propagation.Seed | solve.py:254-258 | the first agenda holds each stored constraint and its reverse, twice the list's length |
| Propagation.SeedHoldsEveryArc | solve.py:254-258 | that agenda holds an arc exactly when its two cells are peers |
| Propagation.AC3 | solve.py:229-295 | digits only leave domains and no solution is lost; an emptied domain sets unsolvable; otherwise the result says whether a domain changed, no change means arc consistent, and an arc-consistent state is left as it is |
| Propagation.ArcConsistency | solve.py:251-295 | the worklist over a domain map: digits only leave domains and no solution is lost; an emptied domain stops it and reports no change; otherwise it reports whether a domain changed, and no change means arc consistent; an arc-consistent map comes back as it is |
| Propagation.SeedPoppedStep | solve.py:260-275 | popping an arc that revision leaves alone keeps "every seed arc popped so far was consistent" |
| Propagation.ReviseLast | solve.py:260-293 | one loop pass: pops the last arc, removes what it must, requeues only stored constraints; a removal proves the state was not arc consistent and lowers the total size |
| Propagation.Revise | solve.py:271-279 | collects, in ascending order, exactly the digits of the first operand that the second leaves no different partner for, and requeues every stored constraint into the first operand once (the draft's loop at AC3-test.py lines 142-150 is the same) |
| Propagation.Requeue | solve.py:277-279 | appends every constraint with the given second operand that the agenda lacks, keeps the old agenda as a prefix, no repeats added |
| Propagation.KeptOnAgenda | solve.py:261-279 | after a pass the agenda still holds everything left after the pop and otherwise only constraints from the stored list |
| Propagation.TakeOut | solve.py:281-293 | the first operand loses exactly the removals, nothing else changes, no solution is lost; emptied exactly when that domain is empty |
| Propagation.RemoveDigits | solve.py:281-293 | the domain minus exactly the removals; emptied is reported exactly when a removal left it empty |
| Propagation.ValidPeerSet | solve.py:297-327 | returns whether every cell's peer union holds all nine digits, sets unsolvable exactly when not, never changes a domain |
| Propagation.AllCovered | solve.py:310-325 | the loop over the cells, stopping at the first uncovered one |
| Propagation.CellUnion | solve.py:311-319 | a cell's own digits together with those of all its groups |
| Propagation.AddDigits | solve.py:314-319 | adds every digit of every domain of a group |
| Propagation.Unique | solve.py:349-354 | true exactly when no cell of the group holds the digit |
| Propagation.PeerConsistency | solve.py:330-366 | only assigns a multi-digit domain one of its digits, loses no solution, never sets unsolvable; returns whether anything changed; no change means no sole placement is left |
| Propagation.SolePlacements | solve.py:338-366 | the loop over all cells, with the recursive restart after each placement: the same guarantees on a domain map |
| Propagation.VisitCell | solve.py:340-364 | a single-digit cell is skipped; a cell is changed exactly when it has a sole placement |
| Propagation.PlaceCell | solve.py:347-364 | tries each digit of the snapshot against each group; places exactly when some digit is missing from some group |
| Propagation.SoleGroup | solve.py:348-364 | the first group with no cell holding the digit, or none exactly when every group holds it |
| Propagation.Inference | solve.py:368-389 | narrows domains only and loses no solution; ends unsolvable only when no solution was within the starting domains, else at a fixed point; a fixed point is left unchanged |
| Search.MostConstrainedUnique | solve.py:401-411 | the chosen cell is unique: ties go to the first cell in order |
| Search.MostConstrainedHasFewest | solve.py:404-409 | the chosen cell has two or more candidates and no open cell has fewer |
| Search.SelectUnassignedVariable | solve.py:391-411 | None exactly when every cell has at most one candidate, otherwise the most constrained cell |
| Search.ChildKeepsSolution | solve.py:436-441 | a solution matching the givens and the branch digit lies within the child's fresh domains |
| Search.OpenCellIsBlank | solve.py:428-437 | the branch cell is blank in the grid, so the child has one more given |
| Search.NarrowedAtBranch | solve.py:453-454 | dropping one digit of the branch cell keeps the domains fitting the givens, and changes only that cell |
| Search.DroppedLast | solve.py:453-457 | the parent ends with its snapshot minus the largest digit tried |
| Search.EveryDigitExcluded | solve.py:456-457 | when every digit of the branch cell is ruled out, there is no solution within the domains |
| Search.FailAgain | solve.py:453-454 | each failed digit rewrites the domain from the snapshot, so only the last failure shows |
| Search.ArcConsistentBranchable | solve.py:423-428 | an arc consistent state that is not unsolvable is solved once every domain is a single digit, so select_unassigned_variable finds a cell whenever is_solved is false |
| Search.FreshBranchable | solve.py:436-441 | a child built from a grid with no digit twice among peers is solved once every domain is a single digit |
| Search.BranchKeepsGivensApart | solve.py:433-441 | writing a candidate of an arc consistent domain into the branch cell gives a grid with no digit twice among peers |
| Search.ChildrenKeepGivensApart | solve.py:433-441 | the same for every candidate of the branch cell |
| Search.FailuresNarrowOnlyAtBranch | solve.py:452-454 | the loop's rewrites keep the domains fitting the givens and change only the branch cell, by one digit |
| Search.EveryDigitFailed | solve.py:452-457 | when every digit up to the largest is ruled out, no solution lies within the domains and the largest digit is the one dropped |
| Search.Backtrack | solve.py:413-458 | returns a solved argument unchanged. Otherwise it returns the first child, in ascending digit order of the most constrained cell, whose search is not unsolvable: that digit is a candidate, every smaller candidate is excluded by the givens, and the answer is solved and extends the grid with the digit written in, with the argument's flag left as it was. An unsolvable result is the argument itself, newly marked only when no solution was within its domains, having then lost the largest digit tried. No other cell changes, and a `Searchable` argument never gives `None` |
| Search.Branch | solve.py:426-458 | the branching part of backtrack for an unsolved state: the same first-success result on the most constrained cell, the state itself exactly when it is marked unsolvable, and a result whenever the state is `Searchable` |
| Search.Expand | solve.py:427-458 | tries the branch cell's digits; fails only when none leads to a solution, and otherwise names the first digit that succeeded, every smaller one being excluded, with an answer extending the grid with that digit; a result always exists when the domains are arc consistent at the root |
| Search.TryDigits | solve.py:433-454 | the loop over the snapshot's digits in ascending order: it stops at the first digit that does not fail, every smaller digit having failed and being excluded and no larger one being tried, and the answer extends the grid with that digit; the parent's domain is the snapshot minus the last failed digit; failure only when every digit is ruled out |
| Search.TryDigit | solve.py:434-450 | one child: built from the grid plus the digit, inferred only below the root, searched; failure means no solution uses that digit; a success extends the grid with the digit, and exists unless at the root the child's givens clash |
| Search.GivenReadsBack | solve.py:105-111 | in a valid, solvable state every given reads back as itself |
| Search.DigitsReadOutSolution | solve.py:45-66 | a solved state whose every domain is one digit reads out a solution matching the givens |
| Search.AnswerBoard | solve.py:189-210 | the board read out of an answer keeps every given, and is a solution when all its entries are digits |
| Search.SolveState | solve.py:479-483 | a fresh state, inference, then search when unsolved; the search never raises KeyError here; an unsolvable result means no solution matches the puzzle, any other result is an answer |
| Search.Solve | solve.py:479-487 | the board, always produced: -1s only when no solution matches the puzzle; otherwise it keeps every given, no two peers hold the same entry, and it is a solution whenever its entries are digits |
| Draft.BoxByDigit | AC3-test.py:78-86 | the nine cells of a box in the order the draft lists them, exactly that box |
| Draft.Sudoku.constructor | AC3-test.py:7-21 | from the default empty lists: every cell once, one constraint per ordered pair of peers, domains from the givens, not unsolvable |
| Draft.Sudoku.IsSolved | AC3-test.py:23-31 | true when unsolvable, otherwise exactly when every domain is a single digit; the constraints are not consulted |
| Draft.Sudoku.CreateVariables | AC3-test.py:33-39 | keeps the old list as a prefix, adds each missing cell once, and from an empty list gives all 81 in letter-major order |
| Draft.Sudoku.CreateDomains | AC3-test.py:41-55 | every listed cell gets the full domain when blank, its given otherwise |
| Draft.Sudoku.CreateConstraints | AC3-test.py:57-86 | keeps the old list as a prefix; afterwards (a, b) is listed exactly when it was before or a and b are peers; no repeats added |
| Draft.Sudoku.Alldiff | AC3-test.py:88-92 | appends each ordered pair of different arguments not listed yet: no self-pair, no repeat, old list kept as a prefix |
| Draft.Sudoku.GetSudoku | AC3-test.py:94-108 | -1s when unsolvable, otherwise each domain as a number at `[letter][digit]` |
| Draft.SolvedIsSolution | AC3-test.py:23-31 | a state this is_solved accepts and AC3 left arc consistent reads out a completed board keeping every given |
| Draft.AC3 | AC3-test.py:126-163 | narrows domains only and loses no solution; on an emptied domain sets unsolvable, and then no solution was within the old domains; otherwise the state ends arc consistent; an arc-consistent state is left as it is |
| Draft.ArcConsistency | AC3-test.py:127-163 | the worklist over a domain map starting from the whole symmetric list: arc consistent at the end unless a domain emptied |
| Draft.ReviseArc | AC3-test.py:136-163 | one pass keeps "every listed arc off the agenda is consistent", and lowers the total size or the agenda length |
| Draft.SettledAfterPop | AC3-test.py:136-146 | popping an arc that revision leaves alone keeps every arc off the agenda consistent |
| Draft.SettledAfterRevision | AC3-test.py:142-163 | after a revision the popped arc is consistent, arcs out of the narrowed cell stay so, and every arc into it is back on the agenda |

## Left out

- `main` in both files: the data files, the timing, the printing and the comparison with stored solutions. `Search.Solve` models the per-puzzle body of `solve.py`'s driver without them.
- `eval`: only `!=` is ever built, so the comparison is a fixed inequality.
- numpy: `np.full((9, 9), -1)` is `Domains.MinusOnes`. `np.inf` is the "none yet" start of the minimum. `values.copy()` is a full copy of the grid.
- The switching between `int` and `str` domains. Each domain is one digit set. An emptied domain is the empty set, which behaves as the empty string wherever the source reads one.
- Draft.Sudoku.IsSolved: a blank cell that AC-3 never narrowed keeps the string `"123456789"`, and comparing it with 9 raises `TypeError` in Python 3. The model reads that domain as the number it denotes.
- Draft.Sudoku.GetSudoku: for the same reason, such a cell is read out as 123456789, not as a string.
- Mutable default arguments. Both constructors share their default lists across calls. The draft is modelled with fresh lists. The `CreateVariables` and `Alldiff` contracts hold for any prior contents, so a reused list gives the same result. `solve.py`'s shared structures are passed in explicitly.
- Solver.Sudoku.CreateConstraints: states which pairs are listed, in which direction and without repeats, not the order in which they are appended.
- Draft.Sudoku.CreateConstraints: states which pairs are listed and without repeats, not their order.
- Search.Backtrack: `None` stands for the `KeyError` that `solve.py:428` raises when the selection returns no cell. It is proved impossible for a `Searchable` state, and every state the driver searches is one.
- Search.Backtrack: `depth` only decides whether a child is inferred. Its value is not otherwise observed.
- `Node` and `backtrack` in `AC3-test.py` (lines 110-118 and 165-206) are not part of this model. They are a superseded draft of the search.
- Performance: the linear `not in` scans over lists are modelled as membership tests.
