/**
 * The Sudoku puzzle as a constraint satisfaction problem: inequality
 * constraints between peers, what a solution is, and the facts that make
 * the solver's inference rules sound.
 */
module Csp {
  import opened Board
  import opened Domains

  /** A stored constraint [x, y, "!="]: the digits of `x` and `y` differ.
      As an arc it means "revise the domain of `x` against `y`". */
  datatype Constraint = NotEqual(x: Cell, y: Cell)

  function Reverse(k: Constraint): Constraint
  {
    NotEqual(k.y, k.x)
  }

  /** The list solve.py builds: one entry per unordered pair of peers, the
      cell that comes first in letter-major order on the left, no repeats. */
  ghost predicate IsStoredConstraints(cs: seq<Constraint>)
  {
    && (forall x, y {:trigger NotEqual(x, y) in cs} :: NotEqual(x, y) in cs <==> Peer(x, y) && Index(x) < Index(y))
    && Distinct(cs)
  }

  /** The list the draft builds: every ordered pair of peers, no repeats. */
  ghost predicate IsSymmetricConstraints(cs: seq<Constraint>)
  {
    && (forall x, y {:trigger NotEqual(x, y) in cs} :: NotEqual(x, y) in cs <==> Peer(x, y))
    && Distinct(cs)
  }

  /** solve.py's list never relates a cell to itself and holds exactly one
      direction of every pair of peers. */
  lemma StoredOneDirection(cs: seq<Constraint>, x: Cell, y: Cell)
    requires IsStoredConstraints(cs)
    ensures NotEqual(x, x) !in cs
    ensures Peer(x, y) ==> (NotEqual(x, y) in cs <==> NotEqual(y, x) !in cs)
    ensures !Peer(x, y) ==> NotEqual(x, y) !in cs && NotEqual(y, x) !in cs
  {
  }

  // ---------------------------------------------------------------------
  // Solutions
  // ---------------------------------------------------------------------

  /** A completed board: every cell holds a digit and peers differ. */
  ghost predicate IsSolution(s: map<Cell, int>)
  {
    && (forall c: Cell :: c in s && s[c] in Digits())
    && (forall a, b :: Peer(a, b) ==> s[a] != s[b])
  }

  /** Every cell's digit in `s` is still a candidate in `d`. */
  ghost predicate Within(s: map<Cell, int>, d: DomainMap)
  {
    forall c: Cell :: c in s && c in d && s[c] in d[c]
  }

  ghost predicate NoSolutionWithin(d: DomainMap)
  {
    forall s :: IsSolution(s) ==> !Within(s, d)
  }

  /** Going from `d` to `e` loses no solution. */
  ghost predicate KeepsSolutions(d: DomainMap, e: DomainMap)
  {
    forall s :: IsSolution(s) && Within(s, d) ==> Within(s, e)
  }

  /** A completed board agrees with every given of grid `g`. */
  ghost predicate MatchesGivens(s: map<Cell, int>, g: Grid)
    requires IsGrid(g)
  {
    forall c: Cell :: c in s && (Value(g, c) != 0 ==> s[c] == Value(g, c))
  }

  lemma KeepsSolutionsTransitive(d: DomainMap, e: DomainMap, f: DomainMap)
    requires KeepsSolutions(d, e) && KeepsSolutions(e, f)
    ensures KeepsSolutions(d, f)
  {
  }

  /** A domain map with an empty domain admits no solution, nor does any
      map whose solutions it keeps. */
  lemma EmptiedHasNoSolution(d: DomainMap, e: DomainMap, c: Cell)
    requires KeepsSolutions(d, e) && c in e && e[c] == {}
    ensures NoSolutionWithin(d)
  {
  }

  /** Nine distinct values drawn from a set need nine members in it. */
  lemma {:induction false} DistinctWithin(ws: seq<int>, S: set<int>)
    requires Distinct(ws)
    requires forall i :: 0 <= i < |ws| ==> ws[i] in S
    ensures |ws| <= |S|
  {
    if ws != [] {
      DistinctWithin(ws[1..], S - {ws[0]});
    }
  }

  /** Pigeonhole: a solution puts every digit somewhere in every unit. */
  lemma UnitHoldsEveryDigit(s: map<Cell, int>, u: seq<Cell>, v: int)
    requires IsSolution(s) && IsUnit(u) && v in Digits()
    ensures exists i :: 0 <= i < 9 && s[u[i]] == v
  {
    var ws := seq(9, i requires 0 <= i < 9 => s[u[i]]);
    if forall i :: 0 <= i < 9 ==> s[u[i]] != v {
      DistinctWithin(ws, Digits() - {v});
    }
  }

  /** Some cell of `g` still has digit `v` as a candidate. */
  ghost predicate Held(d: DomainMap, g: seq<Cell>, v: int)
  {
    exists x :: x in g && x in d && v in d[x]
  }

  /** Sole placement is sound: when `c` and `g` form a unit and no cell of
      `g` can take `v`, every solution within `d` puts `v` on `c`. */
  lemma SolePlacement(s: map<Cell, int>, d: DomainMap, c: Cell, g: seq<Cell>, v: int)
    requires IsSolution(s) && Within(s, d)
    requires IsUnit([c] + g) && v in Digits()
    requires !Held(d, g, v)
    ensures s[c] == v
  {
    UnitHoldsEveryDigit(s, [c] + g, v);
    var i :| 0 <= i < 9 && s[([c] + g)[i]] == v;
  }

  /** Assigning a sole placement keeps every solution. */
  lemma AssignKeepsSolutions(d: DomainMap, c: Cell, g: seq<Cell>, v: int)
    requires Complete(d) && IsUnit([c] + g) && v in Digits()
    requires !Held(d, g, v)
    ensures KeepsSolutions(d, d[c := {v}])
  {
    forall s | IsSolution(s) && Within(s, d)
      ensures Within(s, d[c := {v}])
    {
      SolePlacement(s, d, c, g, v);
    }
  }

  /** The board get_sudoku reads out of a domain map: each cell's number. */
  function Readout(d: DomainMap): (s: map<Cell, int>)
    ensures forall c :: c in s <==> c in d
    ensures forall c :: c in d ==> s[c] == Number(d[c])
  {
    map c | c in d :: Number(d[c])
  }

  /** A single-digit domain reads out as that digit. */
  lemma ReadoutSingleton(d: DomainMap, c: Cell)
    requires Complete(d) && |d[c]| == 1
    ensures Readout(d)[c] in Digits() && d[c] == {Readout(d)[c]}
  {
    var v :| v in d[c];
    assert d[c] == {v} by {
      forall w | w in d[c]
        ensures w == v
      {
        if w != v {
          SubsetSize({v, w}, d[c]);
        }
      }
    }
    NumberSingleton(v);
  }

  /** Revising `a` against peer `b` only drops digits that `b` leaves no
      partner for, so every solution survives. */
  lemma RevisionKeepsSolutions(d: DomainMap, e: DomainMap, a: Cell, b: Cell)
    requires Complete(d) && Complete(e) && Peer(a, b)
    requires forall c: Cell :: c != a ==> e[c] == d[c]
    requires e[a] <= d[a]
    requires forall v :: v in d[a] && v !in e[a] ==> d[b] <= {v}
    ensures Shrunk(d, e) && KeepsSolutions(d, e)
  {
    forall s | IsSolution(s) && Within(s, d)
      ensures Within(s, e)
    {
      assert s[b] in d[b];
    }
  }

  // ---------------------------------------------------------------------
  // The union of domains over a cell and its peer groups
  // ---------------------------------------------------------------------

  /** The digits of the cells of `g`, collected in order. */
  function UnionOf(d: DomainMap, g: seq<Cell>): set<int>
    requires forall x :: x in g ==> x in d
  {
    if g == [] then {} else UnionOf(d, g[..|g| - 1]) + d[g[|g| - 1]]
  }

  lemma {:induction false} UnionOfHeld(d: DomainMap, g: seq<Cell>, v: int)
    requires forall x :: x in g ==> x in d
    ensures v in UnionOf(d, g) <==> Held(d, g, v)
  {
    if g != [] {
      var init, last := g[..|g| - 1], g[|g| - 1];
      assert g == init + [last];
      UnionOfHeld(d, init, v);
      if Held(d, g, v) && !Held(d, init, v) {
        var x :| x in g && x in d && v in d[x];
        assert x == last;
      }
    }
  }

  /** The digits of the cells of the groups in `gs`. */
  function UnionOfGroups(d: DomainMap, gs: seq<seq<Cell>>): set<int>
    requires forall k, x :: 0 <= k < |gs| && x in gs[k] ==> x in d
  {
    if gs == [] then {} else UnionOfGroups(d, gs[..|gs| - 1]) + UnionOf(d, gs[|gs| - 1])
  }

  lemma {:induction false} UnionOfGroupsHeld(d: DomainMap, gs: seq<seq<Cell>>, v: int)
    requires forall k, x :: 0 <= k < |gs| && x in gs[k] ==> x in d
    ensures v in UnionOfGroups(d, gs) <==> exists k :: 0 <= k < |gs| && Held(d, gs[k], v)
  {
    if gs != [] {
      UnionOfGroupsHeld(d, gs[..|gs| - 1], v);
      UnionOfHeld(d, gs[|gs| - 1], v);
      if v in UnionOf(d, gs[|gs| - 1]) {
        assert Held(d, gs[|gs| - 1], v);
      }
    }
  }

  /** The digits valid_peer_set gathers for `c`: those of its own domain
      and of every cell in its three peer groups. */
  ghost function PeerUnion(d: DomainMap, c: Cell): set<int>
    requires Complete(d)
  {
    d[c] + UnionOfGroups(d, Groups(c))
  }

  /** A digit is in the peer union of `c` exactly when `c` or a cell of one
      of its groups still holds it; the union only holds digits. */
  lemma PeerUnionHeld(d: DomainMap, c: Cell)
    requires Complete(d)
    ensures forall v :: v in PeerUnion(d, c) <==> v in d[c] || exists k :: 0 <= k < 3 && Held(d, Groups(c)[k], v)
    ensures PeerUnion(d, c) <= Digits()
  {
    GroupsSpec(c);
    forall v
      ensures v in PeerUnion(d, c) <==> v in d[c] || exists k :: 0 <= k < 3 && Held(d, Groups(c)[k], v)
    {
      UnionOfGroupsHeld(d, Groups(c), v);
    }
  }

  /** valid_peer_set's test: `c` and its peer groups hold nine different
      digits between them. */
  ghost predicate Covered(d: DomainMap, c: Cell)
    requires Complete(d)
  {
    |PeerUnion(d, c)| == 9
  }

  /** Nine different digits are all the digits: `c` and its peers still
      hold every digit between them. */
  lemma CoveredHoldsAll(d: DomainMap, c: Cell)
    requires Complete(d)
    ensures Covered(d, c) <==> PeerUnion(d, c) == Digits()
  {
    PeerUnionHeld(d, c);
    SubsetSize(PeerUnion(d, c), Digits());
  }

  /** A cell that fails the test rules out every solution within `d`:
      some digit is held neither by `c` nor by any of its peers and so has
      no place in c's digit line. */
  lemma UncoveredHasNoSolution(d: DomainMap, c: Cell)
    requires Complete(d)
    requires !Covered(d, c)
    ensures NoSolutionWithin(d)
  {
    PeerUnionHeld(d, c);
    var v := MissingDigit(PeerUnion(d, c));
    UnplacedHasNoSolution(d, c, v);
  }

  /** A digit that neither `c` nor any cell of its digit line still holds
      has no place in that line. */
  lemma UnplacedHasNoSolution(d: DomainMap, c: Cell, v: int)
    requires Complete(d) && v in Digits()
    requires v !in d[c] && !Held(d, Groups(c)[0], v)
    ensures NoSolutionWithin(d)
  {
    forall s | IsSolution(s)
      ensures !Within(s, d)
    {
      if Within(s, d) {
        GroupIsUnit(c, 0);
        SolePlacement(s, d, c, Groups(c)[0], v);
      }
    }
  }

  // ---------------------------------------------------------------------
  // Fixed points of inference
  // ---------------------------------------------------------------------

  /** Revising `x` against `y` would remove nothing: every digit of `x`'s
      domain has a different partner in `y`'s. */
  ghost predicate ArcConsistentAt(d: DomainMap, x: Cell, y: Cell)
    requires Complete(d)
  {
    forall v :: v in d[x] ==> !(d[y] <= {v})
  }

  /** No arc between peers can remove anything. */
  ghost predicate ArcConsistent(d: DomainMap)
    requires Complete(d)
  {
    forall x, y :: Peer(x, y) ==> ArcConsistentAt(d, x, y)
  }

  /** Every digit of `c` is still a candidate somewhere in each of `groups`. */
  ghost predicate HeldInEveryGroup(d: DomainMap, c: Cell, groups: seq<seq<Cell>>)
    requires Complete(d)
  {
    forall v, k :: v in d[c] && 0 <= k < |groups| ==> Held(d, groups[k], v)
  }

  /** An unassigned cell has no digit that one of its peer groups lacks. */
  ghost predicate NoSolePlacementAt(d: DomainMap, c: Cell)
    requires Complete(d)
  {
    |d[c]| != 1 ==> HeldInEveryGroup(d, c, Groups(c))
  }

  ghost predicate NoSolePlacement(d: DomainMap)
    requires Complete(d)
  {
    forall c: Cell :: NoSolePlacementAt(d, c)
  }

  ghost predicate PeerSetsCovered(d: DomainMap)
    requires Complete(d)
  {
    forall c: Cell :: Covered(d, c)
  }

  /** Where inference stops: arc consistent, no sole placement left and
      every peer set covering all nine digits. */
  ghost predicate FixedPoint(d: DomainMap)
    requires Complete(d)
  {
    ArcConsistent(d) && NoSolePlacement(d) && PeerSetsCovered(d)
  }

  /** Every domain is kept or, when it had two or more digits, cut down to
      one of them: what sole placement does to a domain map. */
  ghost predicate AssignedOnly(d: DomainMap, e: DomainMap)
  {
    Shrunk(d, e) && forall c: Cell :: e[c] == d[c] || (|d[c]| >= 2 && |e[c]| == 1)
  }

  lemma AssignedOnlyTransitive(d: DomainMap, e: DomainMap, f: DomainMap)
    requires AssignedOnly(d, e) && AssignedOnly(e, f)
    ensures AssignedOnly(d, f)
  {
  }

  /** Some domain has no digit left. */
  ghost predicate HasEmpty(d: DomainMap)
    requires Complete(d)
  {
    exists c: Cell :: d[c] == {}
  }
}
