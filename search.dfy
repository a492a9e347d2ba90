/**
 * The search on top of inference: the most-constrained-variable choice,
 * depth-first backtracking over fresh child states, and the solving of
 * one puzzle as the benchmark driver does it.
 */
module Search {
  import opened Optional
  import opened Board
  import opened Domains
  import opened Csp
  import opened Solver
  import opened Propagation

  // ---------------------------------------------------------------------
  // Choosing the cell to branch on
  // ---------------------------------------------------------------------

  /** The cell select_unassigned_variable picks: among the cells whose
      stored number has two digits or more, the one with the smallest
      number, the first in board order on a tie. */
  ghost predicate IsMostConstrained(d: DomainMap, c: Cell)
    requires Complete(d)
  {
    && Number(d[c]) >= 10
    && (forall x: Cell :: Number(d[x]) >= 10 ==> Number(d[c]) <= Number(d[x]))
    && (forall x: Cell :: Number(d[x]) >= 10 && Index(x) < Index(c) ==> Number(d[c]) < Number(d[x]))
  }

  /** At most one cell is the most constrained one. */
  lemma MostConstrainedUnique(d: DomainMap, a: Cell, b: Cell)
    requires Complete(d) && IsMostConstrained(d, a) && IsMostConstrained(d, b)
    ensures a == b
  {
    IndexInjective(a, b);
  }

  /** The chosen cell has two candidates or more and no open cell has
      fewer: comparing the stored numbers compares the candidate counts. */
  lemma MostConstrainedHasFewest(d: DomainMap, c: Cell)
    requires Complete(d) && IsMostConstrained(d, c)
    ensures |d[c]| >= 2
    ensures forall x: Cell :: |d[x]| >= 2 ==> |d[c]| <= |d[x]|
  {
    NumberSmall(d[c]);
    forall x: Cell | |d[x]| >= 2
      ensures |d[c]| <= |d[x]|
    {
      NumberSmall(d[x]);
      if |d[x]| < |d[c]| {
        NumberOrdersBySize(d[x], d[c]);
      }
    }
  }

  /** select_unassigned_variable: scans the variables in order, skipping
      cells whose number is below 10, and keeps the first one with the
      smallest number. None is the initial value, returned when every
      cell has at most one candidate. */
  method SelectUnassignedVariable(problem: Sudoku) returns (r: Option<Cell>)
    requires problem.Valid()
    ensures r == None <==> forall c: Cell :: |problem.domains[c]| <= 1
    ensures r.Some? ==> IsMostConstrained(problem.domains, r.value)
  {
    var d := problem.domains;
    var variables := problem.variables;
    r := None;
    var possibleValues: Option<nat> := None;
    for n := 0 to |variables|
      invariant r.Some? <==> possibleValues.Some?
      invariant r == None ==> forall x: Cell :: Index(x) < n ==> Number(d[x]) < 10
      invariant r.Some? ==> && Index(r.value) < n && possibleValues.value == Number(d[r.value])
                            && Number(d[r.value]) >= 10
                            && (forall x: Cell :: Index(x) < n && Number(d[x]) >= 10 ==> Number(d[r.value]) <= Number(d[x]))
                            && (forall x: Cell :: Index(x) < Index(r.value) && Number(d[x]) >= 10 ==> Number(d[r.value]) < Number(d[x]))
    {
      var variable := variables[n];
      assert Index(variable) == n;
      forall x: Cell | Index(x) == n
        ensures x == variable
      {
        IndexInjective(x, variable);
      }
      var domain := Number(d[variable]);
      if domain < 10 {
        continue;
      }
      if possibleValues == None || domain < possibleValues.value {
        possibleValues := Some(domain);
        r := Some(variable);
      }
    }
    forall x: Cell
      ensures Number(d[x]) < 10 <==> |d[x]| <= 1
      ensures Index(x) < |variables|
    {
      NumberSmall(d[x]);
    }
  }

  // ---------------------------------------------------------------------
  // Backtracking
  // ---------------------------------------------------------------------

  /** Every given of `g` is kept in `h`. */
  ghost predicate Extends(g: Grid, h: Grid)
    requires IsGrid(g) && IsGrid(h)
  {
    forall c: Cell :: Value(g, c) != 0 ==> Value(h, c) == Value(g, c)
  }

  /** A state backtrack may return as an answer for the grid `g`: valid,
      not unsolvable, solved, and keeping every given of `g`. */
  ghost predicate IsAnswer(g: Grid, r: Sudoku)
    requires IsGrid(g)
    reads r
  {
    r.Valid() && !r.unsolvable && r.Solved() && Extends(g, r.values)
  }

  /** Keeping the givens composes. */
  lemma ExtendsTransitive(f: Grid, g: Grid, h: Grid)
    requires IsGrid(f) && IsGrid(g) && IsGrid(h) && Extends(f, g) && Extends(g, h)
    ensures Extends(f, h)
  {
  }

  /** Every board that is a solution matching the givens of `g` puts some
      digit other than `v` on `c`. */
  ghost predicate Excluded(g: Grid, c: Cell, v: int)
    requires IsGrid(g)
  {
    forall s :: IsSolution(s) && MatchesGivens(s, g) ==> s[c] != v
  }

  /** A solution within domains drawn from the givens matches the givens. */
  lemma WithinMatchesGivens(values: Grid, d: DomainMap, s: map<Cell, int>)
    requires IsGrid(values) && DomainsFit(values, d, false) && IsSolution(s) && Within(s, d)
    ensures MatchesGivens(s, values)
  {
    forall c: Cell
      ensures Value(values, c) != 0 ==> s[c] == Value(values, c)
    {
      assert s[c] in GridDomain(values, c);
    }
  }

  /** A solution matching the givens that puts `v` on `c` lies within the
      fresh domains of the grid with `v` written into `c`. */
  lemma ChildKeepsSolution(values: Grid, c: Cell, v: int, e: DomainMap, s: map<Cell, int>)
    requires IsGrid(values) && 1 <= v <= 9
    requires forall x: Cell :: x in e && e[x] == GridDomain(Assign(values, c, v), x)
    requires IsSolution(s) && MatchesGivens(s, values) && s[c] == v
    ensures Within(s, e)
  {
    var child := Assign(values, c, v);
    forall x: Cell
      ensures s[x] in e[x]
    {
      if x != c {
        assert GridDomain(child, x) == GridDomain(values, x);
      }
    }
  }

  /** A cell with two candidates or more is empty in the grid. */
  lemma OpenCellIsBlank(values: Grid, d: DomainMap, c: Cell)
    requires IsGrid(values) && DomainsFit(values, d, false) && |d[c]| >= 2
    ensures Value(values, c) == 0
  {
    if Value(values, c) != 0 {
      SubsetSize(d[c], GridDomain(values, c));
    }
  }

  /** `e` is `d` with digits removed, and differs from it at most in the
      most constrained cell of `d`, which has lost one digit. */
  ghost predicate NarrowedOnlyAtBranch(d: DomainMap, e: DomainMap)
  {
    && Shrunk(d, e)
    && forall x: Cell :: e[x] != d[x] ==> IsMostConstrained(d, x) && |e[x]| == |d[x]| - 1
  }

  /** Dropping one digit of the most constrained cell keeps the domains
      fitting the givens, with no domain emptied. */
  lemma NarrowedAtBranch(values: Grid, d: DomainMap, c: Cell, v: int)
    requires IsGrid(values) && DomainsFit(values, d, false) && IsMostConstrained(d, c) && v in d[c]
    ensures DomainsFit(values, d[c := d[c] - {v}], false)
    ensures NarrowedOnlyAtBranch(d, d[c := d[c] - {v}])
  {
    NumberSmall(d[c]);
    SubsetSize(d[c] - {v}, d[c]);
    assert |d[c] - {v}| == |d[c]| - 1;
  }

  /** The state a failed branch leaves: `e` is `d` with the largest digit
      of `d`'s most constrained cell removed. */
  ghost predicate LastDigitDropped(d: DomainMap, e: DomainMap)
    requires Complete(d)
  {
    exists c: Cell, v :: && IsMostConstrained(d, c) && v in d[c] && (forall w :: w in d[c] ==> w <= v)
                         && e == d[c := d[c] - {v}]
  }

  lemma DroppedLast(d: DomainMap, c: Cell, v: int)
    requires Complete(d) && IsMostConstrained(d, c) && v in d[c] && forall w :: w in d[c] ==> w <= v
    ensures LastDigitDropped(d, d[c := d[c] - {v}])
  {
  }

  /** When every digit of a cell is excluded by the givens, no solution
      lies within domains drawn from those givens. */
  lemma EveryDigitExcluded(values: Grid, d: DomainMap, c: Cell)
    requires IsGrid(values) && DomainsFit(values, d, false)
    requires forall w :: w in d[c] ==> Excluded(values, c, w)
    ensures NoSolutionWithin(d)
  {
    forall s | IsSolution(s) && Within(s, d)
      ensures false
    {
      assert s[c] in d[c];
      WithinMatchesGivens(values, d, s);
    }
  }

  /** `v` is the first digit of `cands` whose branch on `c` succeeded: a
      candidate, and every smaller candidate is excluded by the givens. */
  ghost predicate FirstSuccess(g: Grid, c: Cell, cands: set<int>, v: int)
    requires IsGrid(g)
  {
    && v in cands && 1 <= v <= 9
    && forall w :: w in cands && w < v ==> Excluded(g, c, w)
  }

  /** No digit is given twice among peers. */
  ghost predicate GivensApart(g: Grid)
    requires IsGrid(g)
  {
    forall a, b :: Peer(a, b) && Value(g, a) != 0 ==> Value(g, a) != Value(g, b)
  }

  /** select_unassigned_variable finds a cell in every state that is not
      solved. */
  ghost predicate Branchable(p: Sudoku)
    requires p.Valid()
    reads p
  {
    (forall c: Cell :: |p.domains[c]| <= 1) ==> p.Solved()
  }

  /** What keeps backtrack clear of the KeyError: a cell to branch on
      unless solved and, at the root, whose children are not inferred, arc
      consistency. */
  ghost predicate Searchable(p: Sudoku, depth: nat)
    requires p.Valid()
    reads p
  {
    Branchable(p) && (depth == 0 && !p.unsolvable ==> ArcConsistent(p.domains))
  }

  /** A domain of at most one digit holding `u` is `{u}`. */
  lemma AtMostOne(s: set<int>, u: int)
    requires |s| <= 1 && u in s
    ensures s == {u}
  {
    SubsetSize({u}, s);
  }

  /** An arc consistent state is solved once every domain is a single
      digit: peers then hold different digits. */
  lemma ArcConsistentBranchable(p: Sudoku)
    requires p.Valid() && !p.unsolvable && ArcConsistent(p.domains)
    ensures Branchable(p)
  {
    var d := p.domains;
    if forall c: Cell :: |d[c]| <= 1 {
      forall a, b | Peer(a, b)
        ensures d[a] != d[b]
      {
        var u :| u in d[a];
        AtMostOne(d[a], u);
        assert ArcConsistentAt(d, a, b);
      }
    }
  }

  /** A fresh state whose givens are apart is solved once every domain is
      a single digit: every cell is then given. */
  lemma FreshBranchable(p: Sudoku)
    requires p.Valid() && !p.unsolvable && GivensApart(p.values)
    requires forall c: Cell :: p.domains[c] == GridDomain(p.values, c)
    ensures Branchable(p)
  {
    var d := p.domains;
    if forall c: Cell :: |d[c]| <= 1 {
      forall a, b | Peer(a, b)
        ensures d[a] != d[b]
      {
        assert |d[a]| <= 1 && |d[b]| <= 1;
        assert Value(p.values, a) != 0 && Value(p.values, b) != 0;
        assert Value(p.values, a) in d[a];
      }
    }
  }

  /** Writing a digit of an arc consistent domain into a blank keeps the
      givens apart: arc consistency separates given peers from each other
      and from every digit left to their peers. */
  lemma BranchKeepsGivensApart(values: Grid, d: DomainMap, c: Cell, v: int)
    requires IsGrid(values) && DomainsFit(values, d, false) && ArcConsistent(d)
    requires v in d[c] && 1 <= v <= 9
    ensures GivensApart(Assign(values, c, v))
  {
    var h := Assign(values, c, v);
    forall a, b | Peer(a, b) && Value(h, a) != 0
      ensures Value(h, a) != Value(h, b)
    {
      assert d[a] <= GridDomain(values, a) && d[b] <= GridDomain(values, b);
      if a == c {
        assert ArcConsistentAt(d, c, b);
      } else if b == c {
        assert ArcConsistentAt(d, c, a);
      } else {
        var u :| u in d[a];
        assert ArcConsistentAt(d, a, b);
      }
    }
  }

  /** Every child of an arc consistent state keeps the givens apart. */
  lemma ChildrenKeepGivensApart(values: Grid, d: DomainMap, c: Cell)
    requires IsGrid(values) && DomainsFit(values, d, false)
    ensures ArcConsistent(d) ==> forall w :: w in d[c] ==> 1 <= w <= 9 && GivensApart(Assign(values, c, w))
  {
    if ArcConsistent(d) {
      forall w | w in d[c]
        ensures 1 <= w <= 9 && GivensApart(Assign(values, c, w))
      {
        assert d[c] <= GridDomain(values, c);
        BranchKeepsGivensApart(values, d, c, w);
      }
    }
  }

  /** backtrack: returns the state itself when it is solved; otherwise picks
      the most constrained cell and tries its digits in ascending order,
      returning the first child result that is not unsolvable. After a
      failed digit the cell's domain is the snapshot taken before the loop
      minus that digit; when every digit fails the state is marked
      unsolvable. None stands for the KeyError raised when there is no cell
      to branch on, here or in a child; it never comes from a Searchable
      state. `cell` and `chosen` name the branch that succeeded. */
  method Backtrack(problem: Sudoku, depth: nat) returns (result: Option<Sudoku>, ghost cell: Cell, ghost chosen: int)
    requires problem.Valid()
    modifies problem`domains, problem`unsolvable
    decreases Blanks(problem.values), 4
    ensures problem.Valid()
    ensures NarrowedOnlyAtBranch(old(problem.domains), problem.domains)
    ensures old(Searchable(problem, depth)) ==> result.Some?
    ensures result.Some? ==> result.value == problem || fresh(result.value)
    ensures result.Some? && !result.value.unsolvable ==> IsAnswer(problem.values, result.value)
    ensures result.Some? && result.value.unsolvable ==> result.value == problem
    ensures old(problem.Solved()) ==>
              result == Some(problem) && problem.domains == old(problem.domains) && problem.unsolvable == old(problem.unsolvable)
    ensures result.Some? && result.value != problem ==>
              && !old(problem.Solved()) && IsMostConstrained(old(problem.domains), cell)
              && FirstSuccess(problem.values, cell, old(problem.domains)[cell], chosen)
              && Extends(Assign(problem.values, cell, chosen), result.value.values)
    ensures result.Some? && result.value == problem ==> problem.unsolvable || old(problem.Solved())
    ensures result.Some? && !result.value.unsolvable ==> problem.unsolvable == old(problem.unsolvable)
    ensures problem.unsolvable && !old(problem.unsolvable) ==> NoSolutionWithin(old(problem.domains))
    ensures problem.unsolvable && !old(problem.unsolvable) ==> LastDigitDropped(old(problem.domains), problem.domains)
  {
    var solved := problem.IsSolved();
    if solved {
      return Some(problem), Cell(0, 0), 0;
    }
    result, cell, chosen := Branch(problem, depth);
  }

  /** The body of backtrack for a state that is not solved: the choice of
      the cell to branch on and the loop over its digits, the state being
      marked unsolvable when every digit fails. */
  method Branch(problem: Sudoku, depth: nat) returns (result: Option<Sudoku>, ghost cell: Cell, ghost chosen: int)
    requires problem.Valid() && !problem.unsolvable
    modifies problem`domains, problem`unsolvable
    decreases Blanks(problem.values), 3
    ensures problem.Valid()
    ensures NarrowedOnlyAtBranch(old(problem.domains), problem.domains)
    ensures old(Searchable(problem, depth)) && !old(problem.Solved()) ==> result.Some?
    ensures result.Some? ==> result.value == problem || fresh(result.value)
    ensures result.Some? && !result.value.unsolvable ==> IsAnswer(problem.values, result.value)
    ensures result.Some? && result.value.unsolvable ==> result.value == problem
    ensures result.Some? && result.value != problem ==>
              && IsMostConstrained(old(problem.domains), cell)
              && FirstSuccess(problem.values, cell, old(problem.domains)[cell], chosen)
              && Extends(Assign(problem.values, cell, chosen), result.value.values)
    ensures problem.unsolvable ==> result == Some(problem)
    ensures result.Some? && result.value == problem ==> problem.unsolvable
    ensures problem.unsolvable ==> NoSolutionWithin(old(problem.domains))
    ensures problem.unsolvable ==> LastDigitDropped(old(problem.domains), problem.domains)
  {
    var selected := SelectUnassignedVariable(problem);
    if selected == None {
      return None, Cell(0, 0), 0;
    }
    var startingVariable := selected.value;
    cell := startingVariable;
    var failed;
    result, failed, chosen := Expand(problem, startingVariable, depth);
    if failed {
      problem.unsolvable := true;
      result := Some(problem);
    }
  }

  /** The loop over the digits of the chosen cell; `failed` says every
      digit failed, and otherwise `chosen` is the digit whose child
      succeeded. */
  method Expand(problem: Sudoku, startingVariable: Cell, depth: nat)
    returns (result: Option<Sudoku>, failed: bool, ghost chosen: int)
    requires problem.Valid() && !problem.unsolvable && IsMostConstrained(problem.domains, startingVariable)
    modifies problem`domains
    decreases Blanks(problem.values), 2
    ensures problem.Valid()
    ensures NarrowedOnlyAtBranch(old(problem.domains), problem.domains)
    ensures (depth == 0 ==> ArcConsistent(old(problem.domains))) ==> failed || result.Some?
    ensures !failed ==> FirstSuccess(problem.values, startingVariable, old(problem.domains)[startingVariable], chosen)
    ensures !failed && result.Some? ==> fresh(result.value) && IsAnswer(problem.values, result.value)
    ensures !failed && result.Some? ==> Extends(Assign(problem.values, startingVariable, chosen), result.value.values)
    ensures failed ==> NoSolutionWithin(old(problem.domains))
    ensures failed ==> LastDigitDropped(old(problem.domains), problem.domains)
  {
    ghost var d0 := problem.domains;
    NumberSmall(d0[startingVariable]);
    OpenCellIsBlank(problem.values, d0, startingVariable);
    var possibleValues := problem.domains[startingVariable];
    ChildrenKeepGivensApart(problem.values, d0, startingVariable);
    ghost var tried, largest;
    result, failed, tried, largest, chosen := TryDigits(problem, startingVariable, possibleValues, depth);
    FailuresNarrowOnlyAtBranch(problem.values, d0, startingVariable, tried, largest);
    EveryDigitFailed(problem.values, d0, startingVariable, largest);
  }

  /** The domains after backtrack's digit loop has rewritten `c`'s domain
      as `possible` minus the failed digit `last`, or before any failure. */
  function AfterFailures(d: DomainMap, c: Cell, possible: set<int>, tried: bool, last: int): (e: DomainMap)
    ensures tried ==> c in e && e[c] == possible - {last}
    ensures forall x :: x != c ==> (x in e <==> x in d) && (x in d ==> e[x] == d[x])
  {
    if tried then d[c := possible - {last}] else d
  }

  /** When every digit of the branch cell up to the largest, `last`, is
      ruled out, no solution lies within the domains, and dropping `last`
      is the state a failed branch leaves. */
  lemma EveryDigitFailed(values: Grid, d: DomainMap, c: Cell, last: int)
    requires IsGrid(values) && DomainsFit(values, d, false) && IsMostConstrained(d, c)
    ensures (last in d[c] && forall w :: w in d[c] ==> w <= last && Excluded(values, c, w)) ==>
              NoSolutionWithin(d) && LastDigitDropped(d, d[c := d[c] - {last}])
  {
    if last in d[c] && forall w :: w in d[c] ==> w <= last && Excluded(values, c, w) {
      EveryDigitExcluded(values, d, c);
      DroppedLast(d, c, last);
    }
  }

  /** The domains the digit loop leaves fit the givens and differ from
      the snapshot at most in the branch cell, by one digit. */
  lemma FailuresNarrowOnlyAtBranch(values: Grid, d: DomainMap, c: Cell, tried: bool, last: int)
    requires IsGrid(values) && DomainsFit(values, d, false) && IsMostConstrained(d, c)
    requires tried ==> last in d[c]
    ensures DomainsFit(values, AfterFailures(d, c, d[c], tried, last), false)
    ensures NarrowedOnlyAtBranch(d, AfterFailures(d, c, d[c], tried, last))
  {
    if tried {
      NarrowedAtBranch(values, d, c, last);
    }
  }

  /** Rewriting the cell again overrides the previous rewrite. */
  lemma FailAgain(d: DomainMap, c: Cell, possible: set<int>, tried: bool, last: int, v: int)
    requires c in d
    ensures AfterFailures(d, c, possible, tried, last)[c := possible - {v}] == AfterFailures(d, c, possible, true, v)
  {
  }

  /** backtrack's loop over the digits of `cell`, in ascending order. A
      failed digit leaves the cell's domain at `possibleValues` minus that
      digit; `failed` says every digit failed, `largest` being the last one.
      The loop stops at the first digit `chosen` that does not fail, every
      smaller digit having failed before it. */
  method TryDigits(problem: Sudoku, cell: Cell, possibleValues: Domain, depth: nat)
    returns (result: Option<Sudoku>, failed: bool, ghost tried: bool, ghost largest: int, ghost chosen: int)
    requires problem.Wired() && Value(problem.values, cell) == 0 && possibleValues != {}
    requires forall w :: w in possibleValues ==> 1 <= w <= 9
    requires cell in problem.domains
    modifies problem`domains
    decreases Blanks(problem.values), 1
    ensures problem.domains == AfterFailures(old(problem.domains), cell, possibleValues, tried, largest)
    ensures tried ==> largest in possibleValues
    ensures (depth == 0 ==> forall w :: w in possibleValues ==> GivensApart(Assign(problem.values, cell, w))) ==>
              failed || result.Some?
    ensures failed ==> result == None && tried && forall w :: w in possibleValues ==> w <= largest
    ensures failed ==> forall w :: w in possibleValues ==> Excluded(problem.values, cell, w)
    ensures !failed ==> FirstSuccess(problem.values, cell, possibleValues, chosen) && (tried ==> largest < chosen)
    ensures !failed ==> forall w :: w in possibleValues && w < chosen ==> tried && w <= largest
    ensures !failed && result.Some? ==> fresh(result.value) && IsAnswer(problem.values, result.value)
    ensures !failed && result.Some? ==> Extends(Assign(problem.values, cell, chosen), result.value.values)
  {
    ghost var d0, values := problem.domains, problem.values;
    tried, largest, chosen := false, 0, 0;
    for value := 0 to 10
      invariant problem.domains == AfterFailures(d0, cell, possibleValues, tried, largest)
      invariant tried ==> largest in possibleValues && largest < value
      invariant forall w :: w in possibleValues && w < value ==> tried && w <= largest
      invariant forall w :: w in possibleValues && w < value ==> Excluded(values, cell, w)
    {
      if value !in possibleValues {
        continue;
      }
      result, failed := TryDigit(problem, cell, value, depth);
      if !failed {
        chosen := value;
        return;
      }
      FailAgain(d0, cell, possibleValues, tried, largest, value);
      problem.domains := problem.domains[cell := possibleValues - {value}];
      tried, largest := true, value;
    }
    failed, result := true, None;
  }

  /** One pass of backtrack's digit loop: a fresh child state with `value`
      written into `cell`, inference on it below the root, and the search of
      the child when it is not found unsolvable. `failed` says the digit was
      ruled out: no solution matching the givens puts it on the cell. */
  method TryDigit(problem: Sudoku, cell: Cell, value: int, depth: nat) returns (result: Option<Sudoku>, failed: bool)
    requires problem.Wired() && Value(problem.values, cell) == 0 && 1 <= value <= 9
    decreases Blanks(problem.values), 0
    ensures (depth == 0 ==> GivensApart(Assign(problem.values, cell, value))) ==> failed || result.Some?
    ensures failed ==> result == None && Excluded(problem.values, cell, value)
    ensures !failed && result.Some? ==> fresh(result.value) && IsAnswer(problem.values, result.value)
    ensures !failed && result.Some? ==> Extends(Assign(problem.values, cell, value), result.value.values)
  {
    var newValues := Assign(problem.values, cell, value);
    var newSudoku := new Sudoku(newValues, problem.variables, problem.constraints, problem.peers, problem.peerGroups);
    ghost var e := newSudoku.domains;
    if depth != 0 {
      var inferred := Inference(newSudoku);
    }
    result, failed := None, true;
    if !newSudoku.unsolvable {
      BlanksDecrease(problem.values, cell, value);
      if depth != 0 {
        ArcConsistentBranchable(newSudoku);
      } else if GivensApart(newValues) {
        FreshBranchable(newSudoku);
      }
      ghost var e' := newSudoku.domains;
      var childResult, childCell, childChosen := Backtrack(newSudoku, depth + 1);
      if childResult == None || !childResult.value.unsolvable {
        result, failed := childResult, false;
        if result.Some? {
          ExtendsTransitive(problem.values, newValues, result.value.values);
        }
        return;
      }
      assert NoSolutionWithin(e');
    }
    assert NoSolutionWithin(e);
    forall s | IsSolution(s) && MatchesGivens(s, problem.values)
      ensures s[cell] != value
    {
      if s[cell] == value {
        ChildKeepsSolution(problem.values, cell, value, e, s);
      }
    }
  }

  // ---------------------------------------------------------------------
  // Solving one puzzle
  // ---------------------------------------------------------------------

  /** Every solution matching the givens lies within the fresh domains. */
  lemma GivensWithin(g: Grid, d: DomainMap, s: map<Cell, int>)
    requires IsGrid(g) && IsSolution(s) && MatchesGivens(s, g)
    requires forall c: Cell :: c in d && d[c] == GridDomain(g, c)
    ensures Within(s, d)
  {
  }

  /** A cell given in the grid reads out as its given in a state that is
      not unsolvable. */
  lemma GivenReadsBack(g: Grid, p: Sudoku, c: Cell)
    requires IsGrid(g) && p.Valid() && !p.unsolvable && Extends(g, p.values) && Value(g, c) != 0
    ensures Number(p.domains[c]) == Value(g, c)
  {
    var v := Value(g, c);
    assert p.domains[c] <= GridDomain(p.values, c);
    assert p.domains[c] == {v} by {
      var w :| w in p.domains[c];
    }
    NumberSingleton(v);
  }

  /** A solved state whose numbers are all single digits reads out as a
      solution that keeps the givens of `g`. */
  lemma DigitsReadOutSolution(g: Grid, p: Sudoku)
    requires IsGrid(g) && p.Valid() && !p.unsolvable && p.Solved() && Extends(g, p.values)
    requires forall c: Cell :: 1 <= Number(p.domains[c]) <= 9
    ensures IsSolution(Readout(p.domains)) && MatchesGivens(Readout(p.domains), g)
  {
    forall c: Cell
      ensures |p.domains[c]| == 1
    {
      NumberSmall(p.domains[c]);
    }
    SolvedSingletonsAreSolution(p);
    WithinMatchesGivens(p.values, p.domains, Readout(p.domains));
  }

  /** No completed board keeps every given of `g`. */
  ghost predicate NoSolutionMatching(g: Grid)
    requires IsGrid(g)
  {
    forall s :: IsSolution(s) ==> !MatchesGivens(s, g)
  }

  /** The board read out of an answer for `g` keeps every given, and reads
      as a solution matching the givens when all its entries are digits. */
  lemma AnswerBoard(g: Grid, p: Sudoku, board: seq<seq<int>>)
    requires IsGrid(g) && IsAnswer(g, p)
    requires |board| == 9 && forall l :: 0 <= l < 9 ==> |board[l]| == 9
    requires forall c: Cell :: board[c.letter][c.digit] == Number(p.domains[c])
    ensures forall c: Cell :: Value(g, c) != 0 ==> board[c.letter][c.digit] == Value(g, c)
    ensures (forall c: Cell :: 1 <= board[c.letter][c.digit] <= 9) ==>
              exists s :: IsSolution(s) && MatchesGivens(s, g) && forall c: Cell :: s[c] == board[c.letter][c.digit]
  {
    forall c: Cell | Value(g, c) != 0
      ensures board[c.letter][c.digit] == Value(g, c)
    {
      GivenReadsBack(g, p, c);
    }
    if forall c: Cell :: 1 <= board[c.letter][c.digit] <= 9 {
      DigitsReadOutSolution(g, p);
    }
  }

  /** When the domains a fresh state starts from admit no solution, no
      solution keeps the givens. */
  lemma NoSolutionFromGivens(g: Grid, d: DomainMap)
    requires IsGrid(g) && NoSolutionWithin(d)
    requires forall c: Cell :: c in d && d[c] == GridDomain(g, c)
    ensures NoSolutionMatching(g)
  {
    forall s | IsSolution(s) && MatchesGivens(s, g)
      ensures false
    {
      GivensWithin(g, d, s);
    }
  }

  /** The state-level part of solving one puzzle: a fresh state for the
      grid, inference, then the search when inference leaves the state
      unsolved. The search never raises KeyError here: after inference
      the state is arc consistent or unsolvable. */
  method SolveState(puzzle: Grid) returns (final: Sudoku)
    requires IsGrid(puzzle)
    ensures fresh(final) && final.Valid()
    ensures final.unsolvable ==> NoSolutionMatching(puzzle)
    ensures !final.unsolvable ==> IsAnswer(puzzle, final)
  {
    var problem := new Sudoku(puzzle, [], [], map[], map[]);
    ghost var d0 := problem.domains;
    var inferred := Inference(problem);
    var solved := problem.IsSolved();
    if solved {
      final := problem;
    } else {
      ghost var d1 := problem.domains;
      ArcConsistentBranchable(problem);
      assert Searchable(problem, 0);
      var result, cell, chosen := Backtrack(problem, 0);
      final := result.value;
      if final.unsolvable {
        assert NoSolutionWithin(d1);
        assert NoSolutionWithin(d0);
      }
    }
    if final.unsolvable {
      NoSolutionFromGivens(puzzle, d0);
    }
  }

  /** The work the benchmark driver does for one puzzle: the state-level
      solving followed by the board get_sudoku reads out. The grid of -1 is
      returned only when no solution matches the givens; any other board
      keeps every given, and reads as a solution matching the givens
      whenever all its entries are digits. */
  method Solve(puzzle: Grid) returns (board: seq<seq<int>>)
    requires IsGrid(puzzle)
    ensures |board| == 9 && forall l :: 0 <= l < 9 ==> |board[l]| == 9
    ensures board == MinusOnes() ==> NoSolutionMatching(puzzle)
    ensures board != MinusOnes() ==>
              forall c: Cell :: Value(puzzle, c) != 0 ==> board[c.letter][c.digit] == Value(puzzle, c)
    ensures board != MinusOnes() && (forall c: Cell :: 1 <= board[c.letter][c.digit] <= 9) ==>
              exists s :: && IsSolution(s) && MatchesGivens(s, puzzle)
                          && forall c: Cell :: s[c] == board[c.letter][c.digit]
    ensures board != MinusOnes() ==>
              forall a, b :: Peer(a, b) ==> board[a.letter][a.digit] != board[b.letter][b.digit]
  {
    var final := SolveState(puzzle);
    board := GetSudoku(final.domains, final.unsolvable);
    if !final.unsolvable {
      assert board[0][0] == Number(final.domains[Cell(0, 0)]) != MinusOnes()[0][0];
      AnswerBoard(puzzle, final, board);
      forall a, b | Peer(a, b)
        ensures board[a.letter][a.digit] != board[b.letter][b.digit]
      {
        NumberInjective(final.domains[a], final.domains[b]);
      }
    }
  }
}
