/**
 * Inference on a solver state: the AC-3 worklist over the stored
 * constraints, the sole-placement rule, the dead-group check, and the
 * driver that runs them to a fixed point.
 */
module Propagation {
  import opened Board
  import opened Domains
  import opened Csp
  import opened Solver

  /** AC3's first agenda: every stored constraint followed by its reverse. */
  function Seed(cs: seq<Constraint>): (agenda: seq<Constraint>)
    ensures |agenda| == 2 * |cs|
    ensures forall k :: k in agenda <==> k in cs || Reverse(k) in cs
  {
    if cs == [] then []
    else
      var init, last := cs[..|cs| - 1], cs[|cs| - 1];
      assert cs == init + [last];
      assert forall k :: Reverse(k) == last <==> k == Reverse(last);
      Seed(init) + [last, Reverse(last)]
  }

  /** Over solve.py's constraints the first agenda holds every arc between peers. */
  lemma SeedHoldsEveryArc(cs: seq<Constraint>, x: Cell, y: Cell)
    requires IsStoredConstraints(cs)
    ensures NotEqual(x, y) in Seed(cs) <==> Peer(x, y)
  {
    StoredOneDirection(cs, x, y);
  }

  /** Since the agenda was seeded no domain changed: the agenda is still
      a prefix of the seed and every arc popped so far is consistent. */
  ghost predicate SeedPopped(d: DomainMap, seed: seq<Constraint>, agenda: seq<Constraint>)
    requires Complete(d)
  {
    && |agenda| <= |seed| && agenda == seed[..|agenda|]
    && forall n :: |agenda| <= n < |seed| ==> ArcConsistentAt(d, seed[n].x, seed[n].y)
  }

  /** Every arc of the first agenda joins two peers. */
  lemma SeedArcIsPeer(cs: seq<Constraint>, k: Constraint)
    requires IsStoredConstraints(cs) && k in Seed(cs)
    ensures Peer(k.x, k.y)
  {
    assert k == NotEqual(k.x, k.y);
    SeedHoldsEveryArc(cs, k.x, k.y);
  }

  /** AC3 as solve.py runs it on a solver state: the worklist below on the
      state's domains, stored back; an emptied domain marks the state
      unsolvable. Returns whether a digit was removed (false once a domain
      ran empty). */
  method AC3(problem: Sudoku) returns (changed: bool)
    requires problem.Valid()
    modifies problem`domains, problem`unsolvable
    ensures problem.Valid()
    ensures Shrunk(old(problem.domains), problem.domains)
    ensures KeepsSolutions(old(problem.domains), problem.domains)
    ensures old(problem.unsolvable) ==> problem.unsolvable
    ensures problem.unsolvable && !old(problem.unsolvable) ==> HasEmpty(problem.domains)
    ensures !problem.unsolvable ==> (changed <==> problem.domains != old(problem.domains))
    ensures !problem.unsolvable && !changed ==> ArcConsistent(problem.domains)
    ensures ArcConsistent(old(problem.domains)) ==>
              !changed && problem.domains == old(problem.domains) && problem.unsolvable == old(problem.unsolvable)
  {
    var domains, emptied;
    domains, changed, emptied := ArcConsistency(problem.domains, problem.constraints);
    FitNarrowed(problem.values, problem.domains, domains, problem.unsolvable || emptied);
    problem.domains := domains;
    if emptied {
      problem.unsolvable := true;
    }
  }

  /** The worklist of AC3 over domain map `d0`: seeds the agenda with every
      stored constraint and its reverse, then pops and revises arcs until
      the agenda is empty or a domain runs empty. */
  method ArcConsistency(d0: DomainMap, constraints: seq<Constraint>) returns (d: DomainMap, changed: bool, emptied: bool)
    requires Complete(d0) && IsStoredConstraints(constraints)
    ensures Shrunk(d0, d) && KeepsSolutions(d0, d)
    ensures emptied ==> !changed && HasEmpty(d)
    ensures !emptied ==> (changed <==> d != d0)
    ensures !emptied ==> forall c: Cell :: d0[c] != {} ==> d[c] != {}
    ensures !emptied && !changed ==> ArcConsistent(d)
    ensures ArcConsistent(d0) ==> !emptied && d == d0
  {
    changed, emptied := false, false;
    var agenda: seq<Constraint> := [];
    for n := 0 to |constraints|
      invariant agenda == Seed(constraints[..n])
    {
      var constraint := constraints[n];
      assert constraints[..n + 1] == constraints[..n] + [constraint];
      agenda := agenda + [constraint, Reverse(constraint)];
    }
    assert constraints[..|constraints|] == constraints;
    ghost var seed := agenda;

    d := d0;
    while |agenda| > 0
      invariant Shrunk(d0, d) && KeepsSolutions(d0, d)
      invariant forall c: Cell :: d0[c] != {} ==> d[c] != {}
      invariant forall k :: k in agenda ==> k in seed
      invariant changed <==> TotalSize(d) < TotalSize(d0)
      invariant !changed ==> d == d0 && SeedPopped(d, seed, agenda)
      invariant ArcConsistent(d0) ==> !changed
      decreases TotalSize(d), |agenda|
    {
      ghost var before, popped := d, agenda;
      var removed, emptiedNow;
      d, agenda, removed, emptiedNow := ReviseLast(d, constraints, agenda);
      KeepsSolutionsTransitive(d0, before, d);
      if emptiedNow {
        changed, emptied := false, true;
        return;
      }
      if removed {
        TotalSizeShrinks(d0, before);
        changed := true;
      } else if !changed {
        SeedPoppedStep(d, seed, popped);
      }
    }
    TotalSizeShrinks(d0, d);
    assert forall x, y :: Peer(x, y) ==> NotEqual(x, y) in seed by {
      forall x, y | Peer(x, y)
        ensures NotEqual(x, y) in seed
      {
        SeedHoldsEveryArc(constraints, x, y);
      }
    }
  }

  /** Popping an arc that is already consistent keeps the agenda a prefix
      of the seed with only consistent arcs popped. */
  lemma SeedPoppedStep(d: DomainMap, seed: seq<Constraint>, agenda: seq<Constraint>)
    requires Complete(d) && SeedPopped(d, seed, agenda) && |agenda| > 0
    requires ArcConsistentAt(d, agenda[|agenda| - 1].x, agenda[|agenda| - 1].y)
    ensures SeedPopped(d, seed, agenda[..|agenda| - 1])
  {
    var n := |agenda|;
    assert agenda[..n - 1] == seed[..n - 1];
    forall m | n - 1 <= m < |seed|
      ensures ArcConsistentAt(d, seed[m].x, seed[m].y)
    {
      if m == n - 1 {
        assert seed[m] == agenda[n - 1];
      }
    }
  }

  /** One pass of AC3's loop: pops the last arc of the agenda, revises it,
      and takes the digits found out of its first operand's domain. */
  method ReviseLast(d: DomainMap, constraints: seq<Constraint>, agenda: seq<Constraint>)
    returns (e: DomainMap, newAgenda: seq<Constraint>, removed: bool, emptied: bool)
    requires Complete(d) && IsStoredConstraints(constraints)
    requires |agenda| > 0 && agenda[|agenda| - 1] in Seed(constraints)
    ensures Shrunk(d, e) && KeepsSolutions(d, e)
    ensures emptied ==> removed && HasEmpty(e)
    ensures !emptied ==> forall c: Cell :: d[c] != {} ==> e[c] != {}
    ensures removed ==> !ArcConsistent(d)
    ensures removed && !emptied ==> TotalSize(e) < TotalSize(d)
    ensures !removed ==> e == d && newAgenda == agenda[..|agenda| - 1]
    ensures !removed ==> ArcConsistentAt(d, agenda[|agenda| - 1].x, agenda[|agenda| - 1].y)
    ensures forall k :: k in newAgenda ==> k in agenda || k in constraints
  {
    var constraint := agenda[|agenda| - 1];
    newAgenda := agenda[..|agenda| - 1];
    SeedArcIsPeer(constraints, constraint);
    var removals;
    ghost var popped := newAgenda;
    removals, newAgenda := Revise(d, constraints, newAgenda, constraint);
    KeptOnAgenda(agenda, popped, newAgenda, constraints);
    if removals == [] {
      return d, newAgenda, false, false;
    }
    assert !ArcConsistentAt(d, constraint.x, constraint.y) by {
      assert removals[0] in removals;
    }
    removed := true;
    e, emptied := TakeOut(d, constraint, removals);
  }

  /** The removal loop of AC3 with its result stored back: the first
      operand of `arc` loses the digits of `removals`, which are exactly
      those its peer `arc.y` leaves no different partner for. */
  method TakeOut(d: DomainMap, arc: Constraint, removals: seq<int>) returns (e: DomainMap, emptied: bool)
    requires Complete(d) && Peer(arc.x, arc.y) && removals != []
    requires forall v :: v in removals <==> v in d[arc.x] && d[arc.y] <= {v}
    requires forall i, j :: 0 <= i < j < |removals| ==> removals[i] < removals[j]
    ensures Shrunk(d, e) && KeepsSolutions(d, e)
    ensures forall c: Cell :: c != arc.x ==> e[c] == d[c]
    ensures forall v :: v in e[arc.x] ==> !(d[arc.y] <= {v})
    ensures emptied <==> e[arc.x] == {}
    ensures !emptied ==> TotalSize(e) < TotalSize(d)
  {
    var domain;
    domain, emptied := RemoveDigits(d[arc.x], removals);
    e := d[arc.x := domain];
    RevisionKeepsSolutions(d, e, arc.x, arc.y);
    if !emptied {
      assert removals[0] in removals;
      assert removals[0] in d[arc.x] && removals[0] !in e[arc.x];
      TotalSizeShrinks(d, e);
    }
  }

  /** After a revision the agenda holds what was left after the pop,
      followed by constraints pushed back on. */
  lemma KeptOnAgenda(agenda: seq<Constraint>, popped: seq<Constraint>, newAgenda: seq<Constraint>, constraints: seq<Constraint>)
    requires |agenda| > 0 && popped == agenda[..|agenda| - 1]
    requires |popped| <= |newAgenda| && newAgenda[..|popped|] == popped
    requires forall i :: |popped| <= i < |newAgenda| ==> newAgenda[i] in constraints
    ensures forall k :: k in newAgenda ==> k in agenda || k in constraints
    ensures forall k :: k in popped ==> k in newAgenda
  {
    forall k | k in newAgenda
      ensures k in agenda || k in constraints
    {
      var i :| 0 <= i < |newAgenda| && newAgenda[i] == k;
      if i < |popped| {
        assert newAgenda[..|popped|][i] == k && agenda[i] == k;
      }
    }
    forall k | k in popped
      ensures k in newAgenda
    {
      var i :| 0 <= i < |popped| && popped[i] == k;
      assert newAgenda[..|popped|][i] == k;
    }
  }

  /** The inner step of AC3: the digits of `arc.x`'s domain that no digit
      of `arc.y`'s differs from, in ascending order, and the
      agenda with every stored constraint whose second operand is `arc.x`
      pushed once more when one of them is found. */
  method Revise(domains: DomainMap, constraints: seq<Constraint>, agenda: seq<Constraint>, arc: Constraint)
    returns (removals: seq<int>, newAgenda: seq<Constraint>)
    requires Complete(domains)
    ensures forall v :: v in removals <==> v in domains[arc.x] && domains[arc.y] <= {v}
    ensures forall i, j :: 0 <= i < j < |removals| ==> removals[i] < removals[j]
    ensures removals == [] ==> newAgenda == agenda
    ensures removals != [] ==> |agenda| <= |newAgenda| && newAgenda[..|agenda|] == agenda
    ensures removals != [] ==> forall k :: k in constraints && k.y == arc.x ==> k in newAgenda
    ensures forall i :: |agenda| <= i < |newAgenda| ==>
              newAgenda[i] in constraints && newAgenda[i].y == arc.x && newAgenda[i] !in newAgenda[..i]
  {
    var domain1, domain2 := arc.x, arc.y;
    var domain, other := domains[domain1], domains[domain2];
    removals := [];
    newAgenda := agenda;
    for value := 1 to 10
      invariant forall v :: v in removals <==> v in domain && v < value && other <= {v}
      invariant forall i :: 0 <= i < |removals| ==> removals[i] < value
      invariant forall i, j :: 0 <= i < j < |removals| ==> removals[i] < removals[j]
      invariant removals == [] ==> newAgenda == agenda
      invariant |agenda| <= |newAgenda| && newAgenda[..|agenda|] == agenda
      invariant removals != [] ==> forall k :: k in constraints && k.y == domain1 ==> k in newAgenda
      invariant forall i :: |agenda| <= i < |newAgenda| ==>
                  newAgenda[i] in constraints && newAgenda[i].y == domain1 && newAgenda[i] !in newAgenda[..i]
    {
      if value in domain {
        var remove := ElementShouldBeRemoved(domains[domain2], value);
        if remove {
          ghost var before := removals;
          removals := removals + [value];
          assert forall v :: v in removals <==> v in before || v == value;
          newAgenda := Requeue(constraints, newAgenda, agenda, domain1);
        }
      }
    }
  }

  /** The loop over the stored constraints inside AC3's revision: appends
      every one whose second operand is `cell` and that the agenda lacks. */
  method Requeue(constraints: seq<Constraint>, agenda0: seq<Constraint>, base: seq<Constraint>, cell: Cell)
    returns (agenda: seq<Constraint>)
    requires |base| <= |agenda0| && agenda0[..|base|] == base
    requires forall i :: |base| <= i < |agenda0| ==>
               agenda0[i] in constraints && agenda0[i].y == cell && agenda0[i] !in agenda0[..i]
    ensures |agenda0| <= |agenda| && agenda[..|agenda0|] == agenda0
    ensures forall k :: k in constraints && k.y == cell ==> k in agenda
    ensures forall i :: |base| <= i < |agenda| ==>
              agenda[i] in constraints && agenda[i].y == cell && agenda[i] !in agenda[..i]
  {
    agenda := agenda0;
    for n := 0 to |constraints|
      invariant |agenda0| <= |agenda| && agenda[..|agenda0|] == agenda0
      invariant forall k :: k in constraints[..n] && k.y == cell ==> k in agenda
      invariant forall i :: |base| <= i < |agenda| ==>
                  agenda[i] in constraints && agenda[i].y == cell && agenda[i] !in agenda[..i]
    {
      var originalConstraint := constraints[n];
      if originalConstraint.y == cell && originalConstraint !in agenda {
        agenda := agenda + [originalConstraint];
      }
      assert constraints[..n + 1] == constraints[..n] + [originalConstraint];
    }
    assert constraints[..|constraints|] == constraints;
  }

  /** The removal loop of AC3: deletes each digit of `removals` from the
      domain string in turn and stops as soon as the string is empty. */
  method RemoveDigits(domain: Domain, removals: seq<int>) returns (rest: Domain, emptied: bool)
    requires forall v :: v in removals ==> v in domain
    requires forall i, j :: 0 <= i < j < |removals| ==> removals[i] < removals[j]
    ensures forall v :: v in rest <==> v in domain && v !in removals
    ensures emptied <==> removals != [] && rest == {}
  {
    rest := domain;
    for r := 0 to |removals|
      invariant forall v :: v in rest <==> v in domain && v !in removals[..r]
      invariant r > 0 ==> rest != {}
    {
      var value := removals[r];
      assert removals[..r + 1] == removals[..r] + [value];
      rest := rest - {value};
      if rest == {} {
        return rest, true;
      }
    }
    assert removals[..|removals|] == removals;
    emptied := false;
  }

  /** valid_peer_set: true when, for every cell, its own domain and the
      domains of all its peer groups together still hold all nine digits;
      otherwise marks the state unsolvable. */
  method ValidPeerSet(problem: Sudoku) returns (valid: bool)
    requires problem.Valid()
    modifies problem`unsolvable
    ensures problem.Valid()
    ensures valid <==> PeerSetsCovered(problem.domains)
    ensures problem.unsolvable == (old(problem.unsolvable) || !valid)
  {
    valid := AllCovered(problem.domains, problem.variables, problem.peerGroups);
    if !valid {
      problem.unsolvable := true;
    }
  }

  /** The loop of valid_peer_set, stopping at the first cell whose peer
      union misses a digit. */
  method AllCovered(domains: DomainMap, variables: seq<Cell>, peerGroups: map<Cell, seq<seq<Cell>>>)
    returns (valid: bool)
    requires Complete(domains) && variables == AllCells()
    requires forall c: Cell :: c in peerGroups
    requires forall c {:trigger peerGroups[c]} :: c in peerGroups ==> peerGroups[c] == Groups(c)
    ensures valid <==> PeerSetsCovered(domains)
  {
    for n := 0 to |variables|
      invariant forall c: Cell :: Index(c) < n ==> Covered(domains, c)
    {
      var variable := variables[n];
      var list := CellUnion(domains, variable, peerGroups[variable]);
      assert list == PeerUnion(domains, variable);
      if |list| != 9 {
        assert !Covered(domains, variable);
        return false;
      }
      forall c: Cell | Index(c) == n
        ensures c == variable
      {
        IndexInjective(c, variable);
      }
    }
    return true;
  }

  /** The character list valid_peer_set builds for one cell: its own
      domain followed by the domain of every cell of every peer group. */
  method CellUnion(domains: DomainMap, variable: Cell, group: seq<seq<Cell>>) returns (list: set<int>)
    requires Complete(domains)
    ensures list == domains[variable] + UnionOfGroups(domains, group)
  {
    list := domains[variable];
    for g := 0 to |group|
      invariant list == domains[variable] + UnionOfGroups(domains, group[..g])
    {
      ghost var next := group[..g + 1];
      assert next[..g] == group[..g] && next[g] == group[g];
      list := AddDigits(domains, list, group[g]);
    }
    assert group[..|group|] == group;
  }

  /** The innermost loops of valid_peer_set: appends to `list0` every
      digit of every domain in `compare` that it does not yet hold. */
  method AddDigits(domains: DomainMap, list0: set<int>, compare: seq<Cell>) returns (list: set<int>)
    requires forall x :: x in compare ==> x in domains
    ensures list == list0 + UnionOf(domains, compare)
  {
    list := list0;
    for m := 0 to |compare|
      invariant list == list0 + UnionOf(domains, compare[..m])
    {
      assert compare[..m + 1] == compare[..m] + [compare[m]];
      list := list + domains[compare[m]];
    }
    assert compare[..|compare|] == compare;
  }

  /** The `unique` test of peer_consistency: no cell of `group` still
      holds `value`. */
  method Unique(domains: DomainMap, group: seq<Cell>, value: int) returns (unique: bool)
    requires forall x :: x in group ==> x in domains
    ensures unique <==> !Held(domains, group, value)
  {
    unique := true;
    for n := 0 to |group|
      invariant forall m :: 0 <= m < n ==> value !in domains[group[m]]
    {
      if value in domains[group[n]] {
        unique := false;
        break;
      }
    }
  }

  /** peer_consistency on a solver state: the search below on the state's
      domains, stored back. */
  method PeerConsistency(problem: Sudoku) returns (changed: bool)
    requires problem.Valid()
    modifies problem`domains
    ensures problem.Valid()
    ensures AssignedOnly(old(problem.domains), problem.domains)
    ensures KeepsSolutions(old(problem.domains), problem.domains)
    ensures changed <==> problem.domains != old(problem.domains)
    ensures !changed ==> NoSolePlacement(problem.domains)
    ensures NoSolePlacement(old(problem.domains)) ==> !changed
  {
    var domains;
    domains, changed := SolePlacements(problem.domains, problem.variables, problem.peerGroups);
    FitNarrowed(problem.values, problem.domains, domains, problem.unsolvable);
    problem.domains := domains;
  }

  /** The loops of peer_consistency over domain map `d0`: visits every
      cell in turn, reading its domain afresh, and tries a sole placement
      on each whose domain string has two or more characters. */
  method SolePlacements(d0: DomainMap, variables: seq<Cell>, peerGroups: map<Cell, seq<seq<Cell>>>)
    returns (d: DomainMap, changed: bool)
    requires Complete(d0) && variables == AllCells()
    requires forall c: Cell :: c in peerGroups
    requires forall c {:trigger peerGroups[c]} :: c in peerGroups ==> peerGroups[c] == Groups(c)
    decreases TotalSize(d0), 2
    ensures AssignedOnly(d0, d) && KeepsSolutions(d0, d)
    ensures changed <==> d != d0
    ensures !changed ==> NoSolePlacement(d)
    ensures NoSolePlacement(d0) ==> !changed
  {
    d, changed := d0, false;
    for n := 0 to |variables|
      invariant AssignedOnly(d0, d) && KeepsSolutions(d0, d)
      invariant changed <==> TotalSize(d) < TotalSize(d0)
      invariant !changed ==> d == d0
      invariant !changed ==> forall c: Cell :: Index(c) < n ==> NoSolePlacementAt(d0, c)
      invariant NoSolePlacement(d0) ==> !changed
    {
      var variable := variables[n];
      ghost var before := d;
      var placed;
      d, placed := VisitCell(d, variable, variables, peerGroups);
      AssignedOnlyTransitive(d0, before, d);
      KeepsSolutionsTransitive(d0, before, d);
      TotalSizeShrinks(d0, before);
      if placed {
        changed := true;
      }
      forall c: Cell | Index(c) == n
        ensures c == variable
      {
        IndexInjective(c, variable);
      }
    }
    TotalSizeShrinks(d0, d);
  }

  /** One turn of peer_consistency's loop over the cells: a cell whose
      domain string has a single character is skipped; any other (an
      emptied one has no digit to offer) is offered a sole placement in one
      of its peer groups. */
  method VisitCell(d0: DomainMap, variable: Cell, variables: seq<Cell>, peerGroups: map<Cell, seq<seq<Cell>>>)
    returns (d: DomainMap, placed: bool)
    requires Complete(d0) && variables == AllCells()
    requires forall c: Cell :: c in peerGroups
    requires forall c {:trigger peerGroups[c]} :: c in peerGroups ==> peerGroups[c] == Groups(c)
    decreases TotalSize(d0), 1
    ensures AssignedOnly(d0, d) && KeepsSolutions(d0, d)
    ensures placed <==> TotalSize(d) < TotalSize(d0)
    ensures !placed ==> d == d0
    ensures placed <==> !NoSolePlacementAt(d0, variable)
  {
    var domain := d0[variable];
    if |domain| == 1 {
      return d0, false;
    }
    var groups := peerGroups[variable];
    forall k | 0 <= k < 3
      ensures IsUnit([variable] + groups[k])
    {
      GroupIsUnit(variable, k);
    }
    d, placed := PlaceCell(d0, variable, groups, variables, peerGroups);
  }

  /** Giving a cell of two or more digits one of them keeps the map an
      assignment-only narrowing of `d0` and shrinks it. */
  lemma PlaceStep(d0: DomainMap, d: DomainMap, c: Cell, v: int)
    requires AssignedOnly(d0, d) && |d0[c]| >= 2 && v in d0[c]
    ensures AssignedOnly(d0, d[c := {v}]) && TotalSize(d[c := {v}]) < TotalSize(d0)
  {
    var e := d[c := {v}];
    assert |e[c]| == 1 && e[c] != d0[c];
    TotalSizeShrinks(d0, e);
  }

  /** The body of peer_consistency for one cell not yet down to one digit:
      for each of those digits (as read before any change) and each of the
      cell's peer `groups`, a group where no cell holds the digit gives the
      cell that digit and restarts the whole search on the narrowed map. */
  method PlaceCell(d0: DomainMap, variable: Cell, groups: seq<seq<Cell>>,
                   variables: seq<Cell>, peerGroups: map<Cell, seq<seq<Cell>>>)
    returns (d: DomainMap, placed: bool)
    requires Complete(d0) && |d0[variable]| != 1
    requires |groups| == 3 && forall k :: 0 <= k < 3 ==> IsUnit([variable] + groups[k])
    requires variables == AllCells()
    requires forall c: Cell :: c in peerGroups
    requires forall c {:trigger peerGroups[c]} :: c in peerGroups ==> peerGroups[c] == Groups(c)
    decreases TotalSize(d0), 0
    ensures AssignedOnly(d0, d) && KeepsSolutions(d0, d)
    ensures placed <==> TotalSize(d) < TotalSize(d0)
    ensures !placed ==> d == d0
    ensures placed <==> !HeldInEveryGroup(d0, variable, groups)
  {
    d, placed := d0, false;
    var domain := d0[variable];
    for value := 1 to 10
      invariant AssignedOnly(d0, d) && KeepsSolutions(d0, d)
      invariant placed <==> TotalSize(d) < TotalSize(d0)
      invariant !placed ==> d == d0
      invariant !placed ==> forall v, k :: v in domain && v < value && 0 <= k < 3 ==> Held(d0, groups[k], v)
      invariant placed ==> !HeldInEveryGroup(d0, variable, groups)
    {
      if value in domain {
        var unique, k := SoleGroup(d, groups, value);
        if unique {
          if !placed {
            assert value in d0[variable] && !Held(d0, groups[k], value);
          }
          AssignKeepsSolutions(d, variable, groups[k], value);
          KeepsSolutionsTransitive(d0, d, d[variable := {value}]);
          PlaceStep(d0, d, variable, value);
          d := d[variable := {value}];
          ghost var narrowed := d;
          var again;
          d, again := SolePlacements(d, variables, peerGroups);
          KeepsSolutionsTransitive(d0, narrowed, d);
          AssignedOnlyTransitive(d0, narrowed, d);
          TotalSizeShrinks(narrowed, d);
          placed := true;
        }
      }
      if !placed {
        forall v, k | v in domain && v <= value && 0 <= k < 3
          ensures Held(d0, groups[k], v)
        {
          if v == value {
            assert v in domain;
          }
        }
      }
    }
  }

  /** The loop over a cell's peer groups in peer_consistency: the first
      group where no cell holds `value`, if there is one. */
  method SoleGroup(d: DomainMap, groups: seq<seq<Cell>>, value: int) returns (unique: bool, k: int)
    requires Complete(d)
    ensures unique ==> 0 <= k < |groups| && !Held(d, groups[k], value)
    ensures !unique <==> forall j :: 0 <= j < |groups| ==> Held(d, groups[j], value)
  {
    unique, k := false, 0;
    while k < |groups|
      invariant 0 <= k <= |groups|
      invariant forall j :: 0 <= j < k ==> Held(d, groups[j], value)
    {
      unique := Unique(d, groups[k], value);
      if unique {
        return;
      }
      k := k + 1;
    }
  }

  /** inference: AC3 and peer_consistency, then the dead-group check,
      repeated while either changed something. */
  method Inference(problem: Sudoku) returns (result: Sudoku)
    requires problem.Valid()
    modifies problem`domains, problem`unsolvable
    decreases TotalSize(problem.domains)
    ensures result == problem && problem.Valid()
    ensures Shrunk(old(problem.domains), problem.domains)
    ensures KeepsSolutions(old(problem.domains), problem.domains)
    ensures old(problem.unsolvable) ==> problem.unsolvable
    ensures problem.unsolvable ==> old(problem.unsolvable) || NoSolutionWithin(old(problem.domains))
    ensures !problem.unsolvable ==> FixedPoint(problem.domains)
    ensures !old(problem.unsolvable) && FixedPoint(old(problem.domains)) ==>
              !problem.unsolvable && problem.domains == old(problem.domains)
  {
    ghost var d0 := problem.domains;
    var arcsChanged := AC3(problem);
    ghost var d1 := problem.domains;
    var peersChanged := PeerConsistency(problem);
    KeepsSolutionsTransitive(d0, d1, problem.domains);
    TotalSizeShrinks(d0, d1);
    TotalSizeShrinks(d1, problem.domains);

    if problem.unsolvable {
      if !old(problem.unsolvable) {
        ghost var c: Cell :| d1[c] == {};
        EmptiedHasNoSolution(d0, d1, c);
      }
      return problem;
    }

    var valid := ValidPeerSet(problem);
    if !valid {
      ghost var c: Cell :| !Covered(problem.domains, c);
      UncoveredHasNoSolution(problem.domains, c);
      problem.unsolvable := true;
      return problem;
    }

    if peersChanged || arcsChanged {
      ghost var d2 := problem.domains;
      result := Inference(problem);
      KeepsSolutionsTransitive(d0, d2, problem.domains);
    } else {
      result := problem;
    }
  }
}
