/**
 * The solver's state object: the givens, the shared constraint graph
 * (variables, stored constraints, peer lists and peer groups) and the
 * domains that inference and search narrow in place.
 */
module Solver {
  import opened Board
  import opened Domains
  import opened Csp

  /** Whether `x` is on the line of `c`'s digit or of its letter with a
      line index below `k`; `c` itself is skipped on the diagonal. */
  ghost predicate OnLines(c: Cell, x: Cell, k: int)
  {
    && ((x.digit == c.digit && x.letter < k) || (x.letter == c.letter && x.digit < k))
    && !(x == c && c.letter == c.digit)
  }

  lemma AppendNoRepeats(ps: seq<Cell>, c: Cell, x: Cell)
    requires NoRepeatsBut(ps, c) && (x in ps ==> x == c)
    ensures NoRepeatsBut(ps + [x], c)
  {
  }

  /** The flat peer list after the line loop has passed index `k`. */
  ghost predicate LinePeersUpTo(c: Cell, ps: seq<Cell>, k: int)
  {
    (forall x :: x in ps <==> OnLines(c, x, k)) && NoRepeatsBut(ps, c)
  }

  lemma LineStep(c: Cell, ps: seq<Cell>, k: int)
    requires 0 <= k < 9 && LinePeersUpTo(c, ps, k)
    ensures k == c.letter && k == c.digit ==> LinePeersUpTo(c, ps, k + 1)
    ensures !(k == c.letter && k == c.digit) ==>
              LinePeersUpTo(c, ps + [Cell(k, c.digit)] + [Cell(c.letter, k)], k + 1)
  {
    if !(k == c.letter && k == c.digit) {
      var first, second := Cell(k, c.digit), Cell(c.letter, k);
      AppendNoRepeats(ps, c, first);
      AppendNoRepeats(ps + [first], c, second);
    }
  }

  /** The flat peer list after the box loop has visited `t` box cells. */
  ghost predicate BoxPeersUpTo(c: Cell, ps: seq<Cell>, t: int)
    requires 0 <= t <= 9
  {
    (forall x :: x in ps <==> OnLines(c, x, 9) || (x in BoxCells(c)[..t] && x != c)) && NoRepeatsBut(ps, c)
  }

  lemma BoxStep(c: Cell, ps: seq<Cell>, t: int)
    requires 0 <= t < 9 && BoxPeersUpTo(c, ps, t)
    ensures var sq := BoxCells(c)[t];
            BoxPeersUpTo(c, if sq !in ps && sq != c then ps + [sq] else ps, t + 1)
  {
    var sq := BoxCells(c)[t];
    assert BoxCells(c)[..t + 1] == BoxCells(c)[..t] + [sq];
    if sq !in ps && sq != c {
      AppendNoRepeats(ps, c, sq);
    }
  }

  lemma PeerListDone(c: Cell, ps: seq<Cell>)
    requires BoxPeersUpTo(c, ps, 9)
    ensures IsPeerList(c, ps)
  {
    assert BoxCells(c)[..9] == BoxCells(c);
  }

  /** Extending a prefix by one cell extends its filtered copy by that cell unless it is `c`. */
  lemma WithoutStep(xs: seq<Cell>, t: int, c: Cell)
    requires 0 <= t < |xs|
    ensures Without(xs[..t + 1], c) == Without(xs[..t], c) + (if xs[t] == c then [] else [xs[t]])
  {
    assert xs[..t + 1][..t] == xs[..t];
  }

  /** The constraints once the cells with an index below `i` are done. */
  ghost predicate StoredUpTo(cs: seq<Constraint>, i: int)
  {
    (forall x, y :: NotEqual(x, y) in cs <==> Peer(x, y) && Index(x) < Index(y) && Index(x) < i) && Distinct(cs)
  }

  /** The constraints while cell `v` (index `i`) walks its peer list `ps` up to `j`. */
  ghost predicate StoredWhile(cs: seq<Constraint>, v: Cell, ps: seq<Cell>, j: int)
    requires 0 <= j <= |ps|
  {
    && (forall x, y :: NotEqual(x, y) in cs <==>
          Peer(x, y) && Index(x) < Index(y) && (Index(x) < Index(v) || (x == v && y in ps[..j])))
    && Distinct(cs)
  }

  lemma StoredStep(cs: seq<Constraint>, v: Cell, ps: seq<Cell>, j: int)
    requires 0 <= j < |ps| && IsPeerList(v, ps) && StoredWhile(cs, v, ps, j)
    ensures var peer := ps[j];
            StoredWhile(if v != peer && NotEqual(peer, v) !in cs then cs + [NotEqual(v, peer)] else cs, v, ps, j + 1)
  {
    var peer := ps[j];
    assert ps[..j + 1] == ps[..j] + [peer];
    assert peer in ps;
    if v != peer && NotEqual(peer, v) !in cs {
      assert Peer(v, peer) && Index(v) < Index(peer);
      assert peer !in ps[..j];
      var cs' := cs + [NotEqual(v, peer)];
      forall x, y
        ensures NotEqual(x, y) in cs' <==>
                  Peer(x, y) && Index(x) < Index(y) && (Index(x) < Index(v) || (x == v && y in ps[..j + 1]))
      {
        assert NotEqual(x, y) in cs' <==> NotEqual(x, y) in cs || (x == v && y == peer);
      }
    }
  }

  lemma StoredNext(cs: seq<Constraint>, v: Cell, ps: seq<Cell>)
    requires IsPeerList(v, ps) && StoredWhile(cs, v, ps, |ps|)
    ensures StoredUpTo(cs, Index(v) + 1)
  {
    assert ps[..|ps|] == ps;
  }

  /** The inner loop of create_constraints: walks the peer list of `v`
      and appends [v, peer, "!="] unless `v` is the peer itself or the
      pair is already stored the other way round. */
  method AddPeerConstraints(cs0: seq<Constraint>, v: Cell, ps: seq<Cell>) returns (cs: seq<Constraint>)
    requires IsPeerList(v, ps) && StoredUpTo(cs0, Index(v))
    ensures StoredUpTo(cs, Index(v) + 1)
  {
    cs := cs0;
    for j := 0 to |ps|
      invariant StoredWhile(cs, v, ps, j)
    {
      var peer := ps[j];
      StoredStep(cs, v, ps, j);
      if v != peer && NotEqual(peer, v) !in cs {
        cs := cs + [NotEqual(v, peer)];
      }
    }
    StoredNext(cs, v, ps);
  }

  /** The peer maps once the cells with an index below `i` are done. */
  ghost predicate PeersUpTo(peers: map<Cell, seq<Cell>>, groups: map<Cell, seq<seq<Cell>>>, i: int)
  {
    forall c {:trigger c in peers} :: Index(c) < i ==> c in peers && IsPeerList(c, peers[c]) && c in groups && groups[c] == Groups(c)
  }

  /** Recording the peers of the cell at index `i` extends the peer maps
      to index `i + 1`. */
  lemma PeersStep(peers: map<Cell, seq<Cell>>, groups: map<Cell, seq<seq<Cell>>>,
                  peers': map<Cell, seq<Cell>>, groups': map<Cell, seq<seq<Cell>>>, v: Cell)
    requires PeersUpTo(peers, groups, Index(v))
    requires v in peers' && IsPeerList(v, peers'[v]) && peers' == peers[v := peers'[v]]
    requires groups' == groups[v := Groups(v)]
    ensures PeersUpTo(peers', groups', Index(v) + 1)
  {
    forall c | Index(c) < Index(v) + 1
      ensures c in peers' && IsPeerList(c, peers'[c]) && c in groups' && groups'[c] == Groups(c)
    {
      if c != v {
        assert Index(c) < Index(v);
      }
    }
  }

  /** The first loop of create_peers: walks index `k` over both lines of
      `variable`, adding the k-th cell of its digit line and of its letter
      line to the flat list, and each one that is not `variable` to its group. */
  method LinePeers(variable: Cell) returns (peerList: seq<Cell>, group0: seq<Cell>, group1: seq<Cell>)
    ensures LinePeersUpTo(variable, peerList, 9)
    ensures group0 == Groups(variable)[0] && group1 == Groups(variable)[1]
  {
    peerList, group0, group1 := [], [], [];
    var column, row := variable.letter, variable.digit;
    ghost var digitLine, letterLine := DigitLine(variable), LetterLine(variable);
    for peerColumn := 0 to 9
      invariant group0 == Without(digitLine[..peerColumn], variable)
      invariant group1 == Without(letterLine[..peerColumn], variable)
      invariant LinePeersUpTo(variable, peerList, peerColumn)
    {
      var peerRow := peerColumn;
      WithoutStep(digitLine, peerColumn, variable);
      WithoutStep(letterLine, peerColumn, variable);
      LineStep(variable, peerList, peerColumn);
      if peerColumn == column && peerRow == row {
        continue;
      }
      peerList := peerList + [Cell(peerColumn, row)];
      peerList := peerList + [Cell(column, peerRow)];
      if Cell(peerColumn, row) != variable {
        group0 := group0 + [Cell(peerColumn, row)];
      }
      if Cell(column, peerRow) != variable {
        group1 := group1 + [Cell(column, peerRow)];
      }
    }
    assert digitLine[..9] == digitLine && letterLine[..9] == letterLine;
  }

  /** The second loop of create_peers: walks the box of `variable` from
      its top-left cell, adding to the flat list each box cell not yet in it
      and to group 2 each box cell other than `variable`. */
  method AddBoxPeers(variable: Cell, lines: seq<Cell>) returns (peerList: seq<Cell>, group2: seq<Cell>)
    requires LinePeersUpTo(variable, lines, 9)
    ensures BoxPeersUpTo(variable, peerList, 9)
    ensures group2 == Groups(variable)[2]
  {
    peerList, group2 := lines, [];
    for i := 0 to 3
      invariant group2 == Without(BoxCells(variable)[..3 * i], variable)
      invariant BoxPeersUpTo(variable, peerList, 3 * i)
    {
      peerList, group2 := AddBoxRow(variable, i, peerList, group2);
    }
    assert BoxCells(variable)[..9] == BoxCells(variable);
  }

  /** One pass of the inner box loop: the three cells of row `i` of the box. */
  method AddBoxRow(variable: Cell, i: int, peerList0: seq<Cell>, group0: seq<Cell>)
    returns (peerList: seq<Cell>, group2: seq<Cell>)
    requires 0 <= i < 3
    requires group0 == Without(BoxCells(variable)[..3 * i], variable)
    requires BoxPeersUpTo(variable, peerList0, 3 * i)
    ensures group2 == Without(BoxCells(variable)[..3 * i + 3], variable)
    ensures BoxPeersUpTo(variable, peerList, 3 * i + 3)
  {
    peerList, group2 := peerList0, group0;
    for j := 0 to 3
      invariant group2 == Without(BoxCells(variable)[..3 * i + j], variable)
      invariant BoxPeersUpTo(variable, peerList, 3 * i + j)
    {
      var squareToAdd := BoxCell(variable, i, j);
      BoxCellAt(variable, i, j);
      WithoutStep(BoxCells(variable), 3 * i + j, variable);
      BoxStep(variable, peerList, 3 * i + j);
      if squareToAdd !in peerList && squareToAdd != variable {
        peerList := peerList + [squareToAdd];
      }
      if squareToAdd != variable {
        group2 := group2 + [squareToAdd];
      }
    }
  }

  /** Every cell has a domain drawn from its given, and only an unsolvable
      state has an empty domain. */
  ghost predicate DomainsFit(values: Grid, d: DomainMap, unsolvable: bool)
    requires IsGrid(values)
  {
    && Complete(d)
    && (forall c: Cell {:trigger GridDomain(values, c)} :: d[c] <= GridDomain(values, c))
    && (!unsolvable ==> forall c: Cell :: d[c] != {})
  }

  /** Narrowing domains keeps them fitting the givens. */
  lemma FitNarrowed(values: Grid, d: DomainMap, e: DomainMap, unsolvable: bool)
    requires IsGrid(values) && DomainsFit(values, d, unsolvable) && Shrunk(d, e)
    requires !unsolvable ==> forall c: Cell :: e[c] != {}
    ensures DomainsFit(values, e, unsolvable)
  {
  }

  class Sudoku {
    var values: Grid
    var variables: seq<Cell>
    var constraints: seq<Constraint>
    var peers: map<Cell, seq<Cell>>
    var peerGroups: map<Cell, seq<seq<Cell>>>
    var domains: DomainMap
    var unsolvable: bool

    /** The shared structures are built, every cell has a domain drawn
        from its given, and only an unsolvable state has an empty domain. */
    ghost predicate Valid()
      reads this
    {
      Wired() && DomainsFit(values, domains, unsolvable)
    }

    /** The structures shared by every state of one search: the givens,
        the variables, the stored constraints and the peer maps. */
    ghost predicate Wired()
      reads this`values, this`variables, this`constraints, this`peers, this`peerGroups
    {
      && IsGrid(values)
      && variables == AllCells()
      && IsStoredConstraints(constraints)
      && IsPeerMaps(peers, peerGroups)
    }

    /** A state is taken as solved when it is unsolvable or no two peers
        have equal domains. */
    ghost predicate Solved()
      requires Valid()
      reads this
    {
      unsolvable || forall a, b :: Peer(a, b) ==> domains[a] != domains[b]
    }

    /** A fresh state. The shared structures are built when not passed in
        (the root of a search) and reused when passed in (its children). */
    constructor (values: Grid, variables: seq<Cell>, constraints: seq<Constraint>,
                 peers: map<Cell, seq<Cell>>, peerGroups: map<Cell, seq<seq<Cell>>>)
      requires IsGrid(values)
      requires variables == [] || variables == AllCells()
      requires constraints != [] ==> IsStoredConstraints(constraints) && IsPeerMaps(peers, peerGroups)
      ensures Valid() && !unsolvable
      ensures this.values == values
      ensures forall c: Cell :: domains[c] == GridDomain(values, c)
      ensures constraints != [] ==>
                this.constraints == constraints && this.peers == peers && this.peerGroups == peerGroups
    {
      var vars := variables;
      if vars == [] {
        vars := CreateVariables();
      }
      this.values := values;
      this.peers := peers;
      this.peerGroups := peerGroups;
      this.variables := vars;
      this.constraints := constraints;
      this.domains := map[];
      this.unsolvable := false;
      new;
      if constraints == [] {
        this.constraints := CreateConstraints();
      } else {
        assert this.constraints == constraints && this.peers == peers && this.peerGroups == peerGroups;
      }
      assert Wired();
      this.domains := CreateDomains(values, this.variables);
      this.unsolvable := false;
      forall c: Cell
        ensures c in this.domains && this.domains[c] == GridDomain(values, c)
      {
        AllCellsHas(c);
      }
      assert Wired() && DomainsFit(values, this.domains, false);
    }

    /** Every cell once, in letter-major order. */
    static method CreateVariables() returns (vars: seq<Cell>)
      ensures vars == AllCells()
    {
      vars := [];
      for letter := 0 to 9
        invariant vars == AllCells()[..9 * letter]
      {
        for number := 0 to 9
          invariant vars == AllCells()[..9 * letter + number]
        {
          var cellId := Cell(letter, number);
          AllCellsHas(cellId);
          if cellId !in vars {
            vars := vars + [cellId];
          }
          assert AllCells()[..9 * letter + number + 1] == vars;
        }
      }
    }

    /** Records the flat peer list and the three peer groups of one cell. */
    method CreatePeers(variable: Cell)
      modifies this`peers, this`peerGroups
      ensures variable in peers && IsPeerList(variable, peers[variable])
      ensures peers == old(peers)[variable := peers[variable]]
      ensures peerGroups == old(peerGroups)[variable := Groups(variable)]
    {
      var peerList, group0, group1 := LinePeers(variable);
      var group2;
      peerList, group2 := AddBoxPeers(variable, peerList);
      PeerListDone(variable, peerList);
      peers := peers[variable := peerList];
      peerGroups := peerGroups[variable := [group0, group1, group2]];
    }

    /** One `!=` constraint per unordered pair of peers, in the order the
        cells and their peer lists are visited. */
    method CreateConstraints() returns (constraints: seq<Constraint>)
      requires variables == AllCells()
      modifies this`peers, this`peerGroups
      ensures IsStoredConstraints(constraints)
      ensures IsPeerMaps(peers, peerGroups)
    {
      constraints := [];
      for i := 0 to |variables|
        invariant PeersUpTo(peers, peerGroups, i)
        invariant StoredUpTo(constraints, i)
      {
        var variable := variables[i];
        assert Index(variable) == i;
        ghost var peers0, groups0 := peers, peerGroups;
        CreatePeers(variable);
        PeersStep(peers0, groups0, peers, peerGroups, variable);
        constraints := AddPeerConstraints(constraints, variable, peers[variable]);
      }
    }

    /** is_solved: compares the domains of every stored constraint numerically. */
    method IsSolved() returns (solved: bool)
      requires Valid()
      ensures solved == Solved()
    {
      if unsolvable {
        return true;
      }
      for n := 0 to |constraints|
        invariant forall m :: 0 <= m < n ==> domains[constraints[m].x] != domains[constraints[m].y]
      {
        var operand1, operand2 := constraints[n].x, constraints[n].y;
        if Number(domains[operand1]) == Number(domains[operand2]) {
          NumberInjective(domains[operand1], domains[operand2]);
          assert constraints[n] == NotEqual(operand1, operand2) && constraints[n] in constraints;
          return false;
        }
      }
      forall a, b | Peer(a, b)
        ensures domains[a] != domains[b]
      {
        StoredOneDirection(constraints, a, b);
        if NotEqual(a, b) in constraints {
          var m :| 0 <= m < |constraints| && constraints[m] == NotEqual(a, b);
        } else {
          var m :| 0 <= m < |constraints| && constraints[m] == NotEqual(b, a);
        }
      }
      return true;
    }
  }

  /** A solved state whose domains are all single digits reads out as a
      valid completed board that agrees with the domains. */
  lemma SolvedSingletonsAreSolution(p: Sudoku)
    requires p.Valid() && p.Solved() && !p.unsolvable
    requires forall c: Cell :: |p.domains[c]| == 1
    ensures IsSolution(Readout(p.domains)) && Within(Readout(p.domains), p.domains)
  {
    var d := p.domains;
    var s := Readout(d);
    forall c: Cell
      ensures s[c] in Digits() && s[c] in d[c]
    {
      ReadoutSingleton(d, c);
    }
    forall a, b | Peer(a, b)
      ensures s[a] != s[b]
    {
      ReadoutSingleton(d, a);
      ReadoutSingleton(d, b);
    }
  }
}
