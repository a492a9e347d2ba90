/**
 * Cell domains. The solver stores a domain as an integer whose decimal digits
 * are the candidate digits in ascending order (123456789 for an empty cell,
 * 7 for a cell holding 7). Here a domain is the set of those digits and
 * `Number` gives back the integer, so that the solver's numeric comparisons
 * and its grid output can be stated exactly.
 */
module Domains {
  import opened Board

  type Domain = set<int>

  /** The decimal number whose digits are the members of `d` among 1..n, ascending. */
  function NumberUpTo(d: Domain, n: nat): nat
    decreases n
  {
    if n == 0 then 0
    else if n in d then NumberUpTo(d, n - 1) * 10 + n
    else NumberUpTo(d, n - 1)
  }

  /** The integer the solver stores for domain `d`. */
  function Number(d: Domain): nat
  {
    NumberUpTo(d, 9)
  }

  /** How many of 1..n lie in `d`. */
  function CountUpTo(d: Domain, n: nat): nat
    decreases n
  {
    if n == 0 then 0 else CountUpTo(d, n - 1) + (if n in d then 1 else 0)
  }

  function Pow10(k: nat): nat
  {
    if k == 0 then 1 else 10 * Pow10(k - 1)
  }

  lemma {:induction false} Pow10Monotone(j: nat, k: nat)
    requires j <= k
    ensures Pow10(j) <= Pow10(k)
  {
    if j < k {
      Pow10Monotone(j, k - 1);
    }
  }

  /** A number with k digits lies in [10^(k-1), 10^k). */
  lemma {:induction false} NumberUpToBounds(d: Domain, n: nat)
    requires n <= 9
    ensures NumberUpTo(d, n) < Pow10(CountUpTo(d, n))
    ensures CountUpTo(d, n) > 0 ==> Pow10(CountUpTo(d, n) - 1) <= NumberUpTo(d, n)
  {
    if n > 0 {
      NumberUpToBounds(d, n - 1);
    }
  }

  /** The last decimal digit of NumberUpTo(d, n) is at most n. */
  lemma {:induction false} NumberUpToLastDigit(d: Domain, n: nat)
    requires n <= 9
    ensures NumberUpTo(d, n) % 10 <= n
  {
    if n > 0 {
      NumberUpToLastDigit(d, n - 1);
    }
  }

  /** The members of `d` among 1..n. */
  function Below(d: Domain, n: nat): set<int>
  {
    set v | v in d && 1 <= v <= n
  }

  lemma {:induction false} CountUpToIsSize(d: Domain, n: nat)
    ensures CountUpTo(d, n) == |Below(d, n)|
  {
    if n > 0 {
      CountUpToIsSize(d, n - 1);
      if n in d {
        assert Below(d, n) == Below(d, n - 1) + {n};
      } else {
        assert Below(d, n) == Below(d, n - 1);
      }
    }
  }

  /** The number of digits of Number(d) is the size of the domain. */
  lemma CountIsSize(d: Domain)
    requires d <= Digits()
    ensures CountUpTo(d, 9) == |d|
  {
    CountUpToIsSize(d, 9);
    assert Below(d, 9) == d;
  }

  /** A domain of k digits is stored as a number in [10^(k-1), 10^k). */
  lemma NumberBounds(d: Domain)
    requires d <= Digits()
    ensures Number(d) < Pow10(|d|)
    ensures |d| > 0 ==> Pow10(|d| - 1) <= Number(d)
  {
    CountIsSize(d);
    NumberUpToBounds(d, 9);
  }

  /** The number stored for a domain is below 10 exactly when the domain has
      at most one digit, and it is 0 exactly for the empty domain. */
  lemma NumberSmall(d: Domain)
    requires d <= Digits()
    ensures Number(d) < 10 <==> |d| <= 1
    ensures Number(d) == 0 <==> d == {}
  {
    NumberBounds(d);
    if |d| >= 2 {
      Pow10Monotone(1, |d| - 1);
    }
  }

  /** Numeric order puts a domain with fewer digits first. */
  lemma NumberOrdersBySize(a: Domain, b: Domain)
    requires a <= Digits() && b <= Digits()
    requires |a| < |b|
    ensures Number(a) < Number(b)
  {
    NumberBounds(a);
    NumberBounds(b);
    FewerDigitsSmaller(Number(a), Number(b), |a|, |b| - 1);
  }

  /** A number below 10^j is below any number at least 10^k, k >= j. */
  lemma FewerDigitsSmaller(x: nat, y: nat, j: nat, k: nat)
    requires x < Pow10(j) && j <= k && Pow10(k) <= y
    ensures x < y
  {
    Pow10Monotone(j, k);
  }

  lemma ModTen(q: nat, r: nat)
    requires r < 10
    ensures (q * 10 + r) % 10 == r
  {
  }

  lemma {:induction false} NumberUpToInjective(a: Domain, b: Domain, n: nat)
    requires n <= 9
    requires NumberUpTo(a, n) == NumberUpTo(b, n)
    ensures Below(a, n) == Below(b, n)
  {
    if n > 0 {
      var na, nb := NumberUpTo(a, n - 1), NumberUpTo(b, n - 1);
      NumberUpToLastDigit(a, n - 1);
      NumberUpToLastDigit(b, n - 1);
      if n in a {
        ModTen(na, n);
      }
      if n in b {
        ModTen(nb, n);
      }
      assert n in a <==> n in b;
      assert na == nb;
      NumberUpToInjective(a, b, n - 1);
      forall v
        ensures v in Below(a, n) <==> v in Below(b, n)
      {
        assert v in Below(a, n - 1) <==> v in Below(b, n - 1);
      }
    }
  }

  /** Two domains are numerically equal exactly when they hold the same digits. */
  lemma NumberInjective(a: Domain, b: Domain)
    requires a <= Digits() && b <= Digits()
    ensures Number(a) == Number(b) <==> a == b
  {
    if Number(a) == Number(b) {
      NumberUpToInjective(a, b, 9);
      assert Below(a, 9) == a && Below(b, 9) == b;
    }
  }

  lemma {:induction false} NumberUpToSingleton(v: int, n: nat)
    requires 1 <= v <= 9
    ensures NumberUpTo({v}, n) == if n < v then 0 else v
  {
    if n > 0 {
      NumberUpToSingleton(v, n - 1);
    }
  }

  /** An assigned cell is stored as its digit. */
  lemma NumberSingleton(v: int)
    requires 1 <= v <= 9
    ensures Number({v}) == v
  {
    NumberUpToSingleton(v, 9);
  }

  // ---------------------------------------------------------------------
  // Domain maps
  // ---------------------------------------------------------------------

  type DomainMap = map<Cell, Domain>

  /** Every cell has a domain drawn from 1..9. */
  ghost predicate Complete(d: DomainMap)
  {
    forall c: Cell :: c in d && d[c] <= Digits()
  }

  /** `e` is `d` with digits removed and none added. */
  ghost predicate Shrunk(d: DomainMap, e: DomainMap)
  {
    Complete(d) && Complete(e) && forall c: Cell :: e[c] <= d[c]
  }

  function Size(d: DomainMap, c: Cell): nat
  {
    if c in d then |d[c]| else 0
  }

  function SizeIn(d: DomainMap, cells: seq<Cell>): nat
  {
    if cells == [] then 0 else SizeIn(d, cells[..|cells| - 1]) + Size(d, cells[|cells| - 1])
  }

  /** The number of digits left across all domains. */
  function TotalSize(d: DomainMap): nat
  {
    SizeIn(d, AllCells())
  }

  lemma SubsetSize(a: set<int>, b: set<int>)
    requires a <= b
    ensures |a| <= |b|
    ensures a != b ==> |a| < |b|
  {
    assert b == a + (b - a);
    if a != b {
      assert b - a != {};
    }
  }

  /** A set of digits with fewer than nine members misses a digit. */
  lemma MissingDigit(u: set<int>) returns (v: int)
    requires u <= Digits() && |u| != 9
    ensures v in Digits() && v !in u
  {
    SubsetSize(u, Digits());
    var missing := Digits() - u;
    assert missing != {};
    v :| v in missing;
  }

  lemma {:induction false} SizeInShrinks(d: DomainMap, e: DomainMap, cells: seq<Cell>, c0: Cell)
    requires Shrunk(d, e)
    ensures SizeIn(e, cells) <= SizeIn(d, cells)
    ensures c0 in cells && e[c0] != d[c0] ==> SizeIn(e, cells) < SizeIn(d, cells)
  {
    if cells != [] {
      var init, last := cells[..|cells| - 1], cells[|cells| - 1];
      SizeInShrinks(d, e, init, c0);
      SubsetSize(e[last], d[last]);
      if c0 in cells && c0 != last {
        assert c0 in init by {
          var i :| 0 <= i < |cells| && cells[i] == c0;
          assert i < |cells| - 1;
        }
      }
    }
  }

  /** Removing digits never raises the total, and changing any domain lowers it. */
  lemma TotalSizeShrinks(d: DomainMap, e: DomainMap)
    requires Shrunk(d, e)
    ensures TotalSize(e) <= TotalSize(d)
    ensures e != d ==> TotalSize(e) < TotalSize(d)
  {
    if e != d {
      assert e.Keys == d.Keys;
      assert exists c: Cell :: e[c] != d[c];
      var c0: Cell :| e[c0] != d[c0];
      AllCellsHas(c0);
      SizeInShrinks(d, e, AllCells(), c0);
    } else {
      SizeInShrinks(d, e, AllCells(), Cell(0, 0));
    }
  }

  // ---------------------------------------------------------------------
  // Building domains from a grid, and reading a grid back
  // ---------------------------------------------------------------------

  /** create_domains: each listed cell gets every digit when its grid entry
      is 0 and its given value otherwise. */
  method CreateDomains(values: Grid, variables: seq<Cell>) returns (domains: DomainMap)
    requires IsGrid(values)
    ensures forall c :: c in domains <==> c in variables
    ensures forall c :: c in domains ==> domains[c] == GridDomain(values, c)
  {
    domains := map[];
    for i := 0 to |variables|
      invariant forall c :: c in domains <==> c in variables[..i]
      invariant forall c :: c in domains ==> domains[c] == GridDomain(values, c)
    {
      var variable := variables[i];
      var currentValue := values[variable.letter][variable.digit];
      if currentValue == 0 {
        domains := domains[variable := Digits()];
      } else {
        domains := domains[variable := {currentValue}];
      }
      assert variables[..i + 1] == variables[..i] + [variable];
    }
    assert variables[..|variables|] == variables;
  }

  /** A fresh state built from a grid without blanks reads back as that grid. */
  lemma GivenGridReadsBack(g: Grid)
    requires IsGrid(g)
    requires forall c :: Value(g, c) != 0
    ensures forall c :: Number(GridDomain(g, c)) == Value(g, c)
  {
    forall c | true
      ensures Number(GridDomain(g, c)) == Value(g, c)
    {
      NumberSingleton(Value(g, c));
    }
  }

  /** The 9x9 grid of -1 that stands for "unsolvable". */
  function MinusOnes(): (g: seq<seq<int>>)
    ensures |g| == 9 && forall l :: 0 <= l < 9 ==> g[l] == seq(9, _ => -1)
  {
    seq(9, _ => seq(9, _ => -1))
  }

  /** get_sudoku: the grid of -1 when unsolvable, otherwise the number
      stored for every cell, indexed by letter then digit. */
  method GetSudoku(domains: DomainMap, unsolvable: bool) returns (sudoku: seq<seq<int>>)
    requires forall c: Cell :: c in domains
    ensures unsolvable ==> sudoku == MinusOnes()
    ensures !unsolvable ==> |sudoku| == 9
    ensures !unsolvable ==> forall l :: 0 <= l < 9 ==> |sudoku[l]| == 9
    ensures !unsolvable ==> forall c: Cell :: sudoku[c.letter][c.digit] == Number(domains[c])
  {
    if unsolvable {
      return MinusOnes();
    }
    sudoku := [];
    for row := 0 to 9
      invariant |sudoku| == row
      invariant forall l :: 0 <= l < row ==> |sudoku[l]| == 9
      invariant forall c: Cell :: c.letter < row ==> sudoku[c.letter][c.digit] == Number(domains[c])
    {
      var newRow := [];
      for column := 0 to 9
        invariant |newRow| == column
        invariant forall k :: 0 <= k < column ==> newRow[k] == Number(domains[Cell(row, k)])
      {
        newRow := newRow + [Number(domains[Cell(row, column)])];
      }
      sudoku := sudoku + [newRow];
    }
  }

  // ---------------------------------------------------------------------
  // The inequality test used by arc consistency
  // ---------------------------------------------------------------------

  /** element_should_be_removed under "!=": no digit of `domain2`'s string
      differs from `valueA`. A nonempty `domain2` must then hold `valueA`
      alone; the empty string of an emptied domain passes for every value. */
  method ElementShouldBeRemoved(domain2: Domain, valueA: int) returns (remove: bool)
    requires domain2 <= Digits()
    ensures remove <==> domain2 <= {valueA}
    ensures domain2 != {} ==> (remove <==> domain2 == {valueA})
  {
    for valueB := 1 to 10
      invariant forall w :: w in domain2 && w < valueB ==> w == valueA
    {
      if valueB in domain2 && valueA != valueB {
        return false;
      }
    }
    return true;
  }
}
