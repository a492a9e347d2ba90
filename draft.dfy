/**
 * The earlier draft of the solver state and its AC-3 (AC3-test.py). It
 * differs from solve.py in how the constraints are listed: `alldiff` stores
 * every ordered pair of distinct cells of a row, column or box, so the
 * list is symmetric and AC-3 starts from it as is. Its is_solved only asks
 * whether every domain is a single digit.
 */
module Draft {
  import opened Board
  import opened Domains
  import opened Csp
  import Solver
  import Propagation

  /** The cells of the box of `c` in the order the draft lists them: digits
      varying slowest (A1, B1, C1, A2, ..). */
  function BoxByDigit(c: Cell): (r: seq<Cell>)
    ensures |r| == 9
    ensures forall t :: 0 <= t < 9 ==> r[t] == Cell(3 * (c.letter / 3) + t % 3, 3 * (c.digit / 3) + t / 3)
    ensures forall x {:trigger x in r} :: x in r <==> SameBox(x, c)
  {
    var top, left := 3 * (c.letter / 3), 3 * (c.digit / 3);
    var r := seq(9, t requires 0 <= t < 9 => Cell(top + t % 3, left + t / 3));
    forall t | 0 <= t < 9
      ensures SameBox(r[t], c)
    {
      assert (top + t % 3) / 3 == c.letter / 3 && (left + t / 3) / 3 == c.digit / 3;
    }
    forall x | SameBox(x, c)
      ensures x in r
    {
      var t := 3 * (x.digit - left) + (x.letter - top);
      assert t % 3 == x.letter - top && t / 3 == x.digit - left;
      assert r[t] == x;
    }
    r
  }

  /** Every pair of constraints off the agenda is an arc that revision
      would leave alone. */
  ghost predicate Settled(d: DomainMap, cs: seq<Constraint>, agenda: seq<Constraint>)
    requires Complete(d)
  {
    forall x, y :: NotEqual(x, y) in cs && NotEqual(x, y) !in agenda ==> ArcConsistentAt(d, x, y)
  }

  class Sudoku {
    var values: Grid
    var variables: seq<Cell>
    var domains: DomainMap
    var constraints: seq<Constraint>
    var unsolvable: bool

    /** Built from a grid: every cell listed once, one constraint per
        ordered pair of peers, every domain drawn from its given, and only
        an unsolvable state has an empty domain. */
    ghost predicate Valid()
      reads this
    {
      && IsGrid(values)
      && variables == AllCells()
      && IsSymmetricConstraints(constraints)
      && Solver.DomainsFit(values, domains, unsolvable)
    }

    /** A state for a grid, built with the default (empty) variable,
        domain and constraint lists. */
    constructor (values: Grid)
      requires IsGrid(values)
      ensures Valid() && !unsolvable
      ensures this.values == values
      ensures forall c: Cell :: domains[c] == GridDomain(values, c)
    {
      this.values := values;
      this.variables := [];
      this.domains := map[];
      this.constraints := [];
      this.unsolvable := false;
      new;
      CreateVariables();
      assert variables == AllCells();
      CreateConstraints();
      assert IsSymmetricConstraints(constraints);
      CreateDomains();
      assert forall c: Cell :: c in domains && domains[c] == GridDomain(values, c);
    }

    /** is_solved: an unsolvable state counts as solved; otherwise solved
        exactly when no domain, read as a number, is above 9 or 0, that is
        when every domain is a single digit. */
    method IsSolved() returns (solved: bool)
      requires Valid()
      ensures solved <==> unsolvable || forall c: Cell :: |domains[c]| == 1
    {
      if unsolvable {
        return true;
      }
      for n := 0 to |variables|
        invariant forall m :: 0 <= m < n ==> |domains[variables[m]]| == 1
      {
        var domain := domains[variables[n]];
        NumberSmall(domain);
        if Number(domain) > 9 || Number(domain) == 0 {
          return false;
        }
      }
      forall c: Cell
        ensures |domains[c]| == 1
      {
        assert variables[Index(c)] == c;
      }
      return true;
    }

    /** create_variables: appends every cell, letter by letter, that the
        list does not hold yet. From the default empty list this is every
        cell once in letter-major order. */
    method CreateVariables()
      modifies this`variables
      ensures |old(variables)| <= |variables| && variables[..|old(variables)|] == old(variables)
      ensures forall c: Cell :: c in variables
      ensures Distinct(old(variables)) ==> Distinct(variables)
      ensures old(variables) == [] ==> variables == AllCells()
    {
      ghost var start := variables;
      for letter := 0 to 9
        invariant |start| <= |variables| && variables[..|start|] == start
        invariant forall c: Cell :: c.letter < letter ==> c in variables
        invariant Distinct(start) ==> Distinct(variables)
        invariant start == [] ==> variables == AllCells()[..9 * letter]
      {
        for number := 0 to 9
          invariant |start| <= |variables| && variables[..|start|] == start
          invariant forall c: Cell :: c.letter < letter || (c.letter == letter && c.digit < number) ==> c in variables
          invariant Distinct(start) ==> Distinct(variables)
          invariant start == [] ==> variables == AllCells()[..9 * letter + number]
        {
          var cellId := Cell(letter, number);
          if cellId !in variables {
            variables := variables + [cellId];
          }
          assert start == [] ==> cellId == AllCells()[9 * letter + number] && cellId !in AllCells()[..9 * letter + number];
        }
      }
    }

    /** create_domains: every cell's domain from its given. */
    method CreateDomains()
      requires IsGrid(values)
      modifies this`domains
      ensures forall c :: c in domains <==> c in variables
      ensures forall c :: c in domains ==> domains[c] == GridDomain(values, c)
    {
      domains := Domains.CreateDomains(values, variables);
    }

    /** create_constraints: alldiff over the nine letters, the nine digits
        and the nine boxes, in that order. Afterwards the list relates two
        cells exactly when it did before or they are peers. */
    method CreateConstraints()
      modifies this`constraints
      ensures |old(constraints)| <= |constraints| && constraints[..|old(constraints)|] == old(constraints)
      ensures forall a, b :: NotEqual(a, b) in constraints <==> NotEqual(a, b) in old(constraints) || Peer(a, b)
      ensures Distinct(old(constraints)) ==> Distinct(constraints)
    {
      ghost var start := constraints;
      for letter := 0 to 9
        invariant |start| <= |constraints| && constraints[..|start|] == start
        invariant forall a, b :: NotEqual(a, b) in constraints <==>
                    NotEqual(a, b) in start || (a != b && a.letter == b.letter && a.letter < letter)
        invariant Distinct(start) ==> Distinct(constraints)
      {
        Alldiff(LetterLine(Cell(letter, 0)));
      }
      for number := 0 to 9
        invariant |start| <= |constraints| && constraints[..|start|] == start
        invariant forall a, b :: NotEqual(a, b) in constraints <==>
                    NotEqual(a, b) in start || (a != b && a.letter == b.letter) || (a != b && a.digit == b.digit && a.digit < number)
        invariant Distinct(start) ==> Distinct(constraints)
      {
        Alldiff(DigitLine(Cell(0, number)));
      }
      for band := 0 to 3
        invariant |start| <= |constraints| && constraints[..|start|] == start
        invariant forall a, b :: NotEqual(a, b) in constraints <==>
                    NotEqual(a, b) in start || (a != b && (a.letter == b.letter || a.digit == b.digit))
                    || (a != b && SameBox(a, b) && a.letter / 3 < band)
        invariant Distinct(start) ==> Distinct(constraints)
      {
        for stack := 0 to 3
          invariant |start| <= |constraints| && constraints[..|start|] == start
          invariant forall a, b :: NotEqual(a, b) in constraints <==>
                      NotEqual(a, b) in start || (a != b && (a.letter == b.letter || a.digit == b.digit))
                      || (a != b && SameBox(a, b) && (a.letter / 3 < band || (a.letter / 3 == band && a.digit / 3 < stack)))
          invariant Distinct(start) ==> Distinct(constraints)
        {
          Alldiff(BoxByDigit(Cell(3 * band, 3 * stack)));
        }
      }
    }

    /** alldiff: appends [a, b, "!="] for every ordered pair of different
        arguments that is not listed yet. */
    method Alldiff(args: seq<Cell>)
      modifies this`constraints
      ensures |old(constraints)| <= |constraints| && constraints[..|old(constraints)|] == old(constraints)
      ensures forall a, b :: NotEqual(a, b) in constraints <==>
                NotEqual(a, b) in old(constraints) || (a in args && b in args && a != b)
      ensures Distinct(old(constraints)) ==> Distinct(constraints)
    {
      ghost var start := constraints;
      for i := 0 to |args|
        invariant |start| <= |constraints| && constraints[..|start|] == start
        invariant forall a, b :: NotEqual(a, b) in constraints <==>
                    NotEqual(a, b) in start || (a in args[..i] && b in args && a != b)
        invariant Distinct(start) ==> Distinct(constraints)
      {
        var arg1 := args[i];
        for j := 0 to |args|
          invariant |start| <= |constraints| && constraints[..|start|] == start
          invariant forall a, b :: NotEqual(a, b) in constraints <==>
                      NotEqual(a, b) in start || (a in args[..i] && b in args && a != b)
                      || (a == arg1 && b in args[..j] && a != b)
          invariant Distinct(start) ==> Distinct(constraints)
        {
          var arg2 := args[j];
          if arg1 != arg2 && NotEqual(arg1, arg2) !in constraints {
            constraints := constraints + [NotEqual(arg1, arg2)];
          }
          assert args[..j + 1] == args[..j] + [arg2];
        }
        assert args[..i + 1] == args[..i] + [arg1];
      }
      assert args[..|args|] == args;
    }

    /** get_sudoku: the grid of -1 when unsolvable, otherwise every cell's
        domain as a number. */
    method GetSudoku() returns (sudoku: seq<seq<int>>)
      requires Valid()
      ensures unsolvable ==> sudoku == MinusOnes()
      ensures !unsolvable ==> |sudoku| == 9 && forall l :: 0 <= l < 9 ==> |sudoku[l]| == 9
      ensures !unsolvable ==> forall c: Cell :: sudoku[c.letter][c.digit] == Number(domains[c])
    {
      sudoku := Domains.GetSudoku(domains, unsolvable);
    }
  }

  /** A state the draft's is_solved accepts and its AC3 left arc consistent
      is a completed board: every single digit read out differs from its
      peers', and it keeps every given. */
  lemma SolvedIsSolution(p: Sudoku)
    requires p.Valid() && !p.unsolvable && ArcConsistent(p.domains)
    requires forall c: Cell :: |p.domains[c]| == 1
    ensures IsSolution(Readout(p.domains)) && Within(Readout(p.domains), p.domains)
    ensures MatchesGivens(Readout(p.domains), p.values)
  {
    var d := p.domains;
    var s := Readout(d);
    forall c: Cell
      ensures s[c] in Digits() && s[c] in d[c]
      ensures Value(p.values, c) != 0 ==> s[c] == Value(p.values, c)
    {
      ReadoutSingleton(d, c);
      assert d[c] <= GridDomain(p.values, c);
    }
    forall a, b | Peer(a, b)
      ensures s[a] != s[b]
    {
      ReadoutSingleton(d, a);
      ReadoutSingleton(d, b);
      assert ArcConsistentAt(d, a, b);
    }
  }

  /** AC3 as the draft runs it: the worklist below on the state's domains;
      an emptied domain marks the state unsolvable. Unless that happens the
      state ends arc consistent. */
  method AC3(problem: Sudoku)
    requires problem.Valid()
    modifies problem`domains, problem`unsolvable
    ensures problem.Valid()
    ensures Shrunk(old(problem.domains), problem.domains)
    ensures KeepsSolutions(old(problem.domains), problem.domains)
    ensures old(problem.unsolvable) ==> problem.unsolvable
    ensures problem.unsolvable && !old(problem.unsolvable) ==>
              HasEmpty(problem.domains) && NoSolutionWithin(old(problem.domains))
    ensures !problem.unsolvable ==> ArcConsistent(problem.domains)
    ensures ArcConsistent(old(problem.domains)) ==>
              problem.domains == old(problem.domains) && problem.unsolvable == old(problem.unsolvable)
  {
    var domains, emptied := ArcConsistency(problem.domains, problem.constraints);
    Solver.FitNarrowed(problem.values, problem.domains, domains, problem.unsolvable || emptied);
    problem.domains := domains;
    if emptied {
      problem.unsolvable := true;
      var c :| domains[c] == {};
      EmptiedHasNoSolution(old(problem.domains), domains, c);
    }
  }

  /** The worklist of the draft's AC3 over domain map `d0`: the agenda
      starts as the constraint list; arcs are popped from its end and
      revised until it is empty or a domain runs empty. */
  method ArcConsistency(d0: DomainMap, constraints: seq<Constraint>) returns (d: DomainMap, emptied: bool)
    requires Complete(d0) && IsSymmetricConstraints(constraints)
    ensures Shrunk(d0, d) && KeepsSolutions(d0, d)
    ensures emptied ==> HasEmpty(d)
    ensures !emptied ==> ArcConsistent(d)
    ensures !emptied ==> forall c: Cell :: d0[c] != {} ==> d[c] != {}
    ensures ArcConsistent(d0) ==> !emptied && d == d0
  {
    var agenda: seq<Constraint> := [];
    for n := 0 to |constraints|
      invariant agenda == constraints[..n]
    {
      agenda := agenda + [constraints[n]];
    }
    assert agenda == constraints;

    d, emptied := d0, false;
    while |agenda| > 0
      invariant Shrunk(d0, d) && KeepsSolutions(d0, d)
      invariant forall c: Cell :: d0[c] != {} ==> d[c] != {}
      invariant forall k :: k in agenda ==> k in constraints
      invariant Settled(d, constraints, agenda)
      invariant ArcConsistent(d0) ==> d == d0
      decreases TotalSize(d), |agenda|
    {
      ghost var before := d;
      var removed, emptiedNow;
      d, agenda, removed, emptiedNow := ReviseArc(d, constraints, agenda);
      KeepsSolutionsTransitive(d0, before, d);
      if emptiedNow {
        return d, true;
      }
    }
    forall x, y | Peer(x, y)
      ensures ArcConsistentAt(d, x, y)
    {
      assert NotEqual(x, y) in constraints;
    }
  }

  /** One pass of the draft's AC3 loop: pops the last arc, revises it with
      the same revision as solve.py (requeueing the constraints whose
      second operand was narrowed) and takes the digits found out of the
      first operand's domain, stopping once it is empty. */
  method ReviseArc(d: DomainMap, constraints: seq<Constraint>, agenda: seq<Constraint>)
    returns (e: DomainMap, newAgenda: seq<Constraint>, removed: bool, emptied: bool)
    requires Complete(d) && IsSymmetricConstraints(constraints)
    requires |agenda| > 0 && forall k :: k in agenda ==> k in constraints
    requires Settled(d, constraints, agenda)
    ensures Shrunk(d, e) && KeepsSolutions(d, e)
    ensures emptied ==> removed && HasEmpty(e)
    ensures !emptied ==> forall c: Cell :: d[c] != {} ==> e[c] != {}
    ensures !emptied ==> Settled(e, constraints, newAgenda)
    ensures removed ==> !ArcConsistent(d)
    ensures removed && !emptied ==> TotalSize(e) < TotalSize(d)
    ensures !removed ==> e == d && |newAgenda| < |agenda|
    ensures forall k :: k in newAgenda ==> k in constraints
  {
    var constraint := agenda[|agenda| - 1];
    var cx, cy := constraint.x, constraint.y;
    assert constraint == NotEqual(cx, cy) && constraint in constraints;
    var popped := agenda[..|agenda| - 1];
    var removals;
    removals, newAgenda := Propagation.Revise(d, constraints, popped, constraint);
    Propagation.KeptOnAgenda(agenda, popped, newAgenda, constraints);
    if removals == [] {
      assert newAgenda == popped;
      SettledAfterPop(d, constraints, agenda);
      return d, newAgenda, false, false;
    }
    assert !ArcConsistentAt(d, cx, cy) by {
      assert removals[0] in removals;
    }
    removed := true;
    e, emptied := Propagation.TakeOut(d, constraint, removals);
    if !emptied {
      SettledAfterRevision(d, e, constraints, agenda, newAgenda, cx, cy);
    }
  }

  /** Popping an arc that revision leaves alone keeps the rest settled. */
  lemma SettledAfterPop(d: DomainMap, constraints: seq<Constraint>, agenda: seq<Constraint>)
    requires Complete(d) && |agenda| > 0 && Settled(d, constraints, agenda)
    requires ArcConsistentAt(d, agenda[|agenda| - 1].x, agenda[|agenda| - 1].y)
    ensures Settled(d, constraints, agenda[..|agenda| - 1])
  {
    var last, rest := agenda[|agenda| - 1], agenda[..|agenda| - 1];
    assert agenda == rest + [last];
    forall x, y | NotEqual(x, y) in constraints && NotEqual(x, y) !in rest
      ensures ArcConsistentAt(d, x, y)
    {
      if NotEqual(x, y) != last {
        assert NotEqual(x, y) !in agenda;
      }
    }
  }

  /** After the domain of `cx` lost every digit that peer `cy` left no
      partner for, the arc (cx, cy) is consistent; arcs out of `cx` stay
      consistent as its domain only shrank; and every constraint into `cx`
      is back on the agenda. */
  lemma SettledAfterRevision(d: DomainMap, e: DomainMap, constraints: seq<Constraint>,
                             agenda: seq<Constraint>, newAgenda: seq<Constraint>, cx: Cell, cy: Cell)
    requires Complete(d) && Complete(e) && Peer(cx, cy)
    requires |agenda| > 0 && agenda[|agenda| - 1] == NotEqual(cx, cy)
    requires Settled(d, constraints, agenda)
    requires forall c: Cell :: c != cx ==> e[c] == d[c]
    requires e[cx] != {} && e[cx] <= d[cx]
    requires forall v :: v in e[cx] ==> !(d[cy] <= {v})
    requires forall k :: k in agenda[..|agenda| - 1] ==> k in newAgenda
    requires forall k :: k in constraints && k.y == cx ==> k in newAgenda
    ensures Settled(e, constraints, newAgenda)
  {
    var rest := agenda[..|agenda| - 1];
    assert agenda == rest + [NotEqual(cx, cy)];
    forall x, y | NotEqual(x, y) in constraints && NotEqual(x, y) !in newAgenda
      ensures ArcConsistentAt(e, x, y)
    {
      if y != cx && NotEqual(x, y) != NotEqual(cx, cy) {
        assert NotEqual(x, y) !in rest;
        assert ArcConsistentAt(d, x, y);
      }
    }
  }
}
