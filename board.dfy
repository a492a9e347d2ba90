/**
 * The static topology of a 9x9 Sudoku board: the 81 cells, the value grid
 * that is handed to the solver, and the relation "shares a row, a column or a
 * 3x3 box" together with the three peer groups of every cell.
 *
 * A cell is named in the solver by a letter A..I followed by a digit 1..9
 * ("A1" .. "I9"). The grid is indexed `values[letter][digit]`; the solver
 * itself calls the letters "columns" and the digits "rows".
 */
module Board {

  /** A coordinate on one axis of the board, 0..8. */
  type Coord = i: int | 0 <= i < 9

  /** A cell: `letter` 0..8 stands for A..I and `digit` 0..8 for 1..9,
      so Cell(0, 0) is "A1" and Cell(8, 8) is "I9". */
  datatype Cell = Cell(letter: Coord, digit: Coord)

  /** Position of a cell in letter-major order (A1, A2, .., A9, B1, ..). */
  function Index(c: Cell): nat
  {
    9 * c.letter + c.digit
  }

  /** The cell at a position in letter-major order. */
  function CellAt(i: int): (c: Cell)
    requires 0 <= i < 81
    ensures Index(c) == i
  {
    Cell(i / 9, i % 9)
  }

  /** Different cells have different positions. */
  lemma IndexInjective(a: Cell, b: Cell)
    ensures Index(a) == Index(b) ==> a == b
  {
  }

  /** All 81 cells in letter-major order. */
  function AllCells(): (cells: seq<Cell>)
    ensures |cells| == 81
    ensures forall i :: 0 <= i < 81 ==> cells[i] == CellAt(i)
    ensures forall c :: Index(c) < 81 && cells[Index(c)] == c
  {
    seq(81, i requires 0 <= i < 81 => CellAt(i))
  }

  /** Every cell occurs in AllCells(), exactly at its letter-major index. */
  lemma AllCellsHas(c: Cell)
    ensures c in AllCells()
    ensures forall i :: 0 <= i < 81 && AllCells()[i] == c ==> i == Index(c)
  {
    var cells := AllCells();
    assert cells[Index(c)] == c;
  }

  predicate Distinct<T(==)>(xs: seq<T>)
  {
    forall i, j :: 0 <= i < j < |xs| ==> xs[i] != xs[j]
  }

  /** No cell occurs twice in letter-major order. */
  lemma AllCellsDistinct()
    ensures Distinct(AllCells())
  {
    var cells := AllCells();
    forall i, j | 0 <= i < j < 81
      ensures cells[i] != cells[j]
    {
      assert Index(cells[i]) == i && Index(cells[j]) == j;
    }
  }

  // ---------------------------------------------------------------------
  // Value grids and initial domains
  // ---------------------------------------------------------------------

  /** A 9x9 grid of givens: 0 for an empty cell, 1..9 for a given value. */
  type Grid = seq<seq<int>>

  predicate IsGrid(g: Grid)
  {
    |g| == 9 && forall l :: 0 <= l < 9 ==> |g[l]| == 9 && forall d :: 0 <= d < 9 ==> 0 <= g[l][d] <= 9
  }

  function Value(g: Grid, c: Cell): int
    requires IsGrid(g)
  {
    g[c.letter][c.digit]
  }

  /** The grid with one cell set to `v`, every other entry copied. */
  function Assign(g: Grid, c: Cell, v: int): (r: Grid)
    requires IsGrid(g) && 1 <= v <= 9
    ensures IsGrid(r)
    ensures Value(r, c) == v
    ensures forall x :: x != c ==> Value(r, x) == Value(g, x)
  {
    g[c.letter := g[c.letter][c.digit := v]]
  }

  /** The digits a cell may take. */
  function Digits(): (s: set<int>)
    ensures forall v :: v in s <==> 1 <= v <= 9
    ensures |s| == 9
  {
    {1, 2, 3, 4, 5, 6, 7, 8, 9}
  }

  /** The domain a fresh state gives a cell: every digit for an empty cell,
      the given value alone otherwise. */
  function GridDomain(g: Grid, c: Cell): (d: set<int>)
    requires IsGrid(g)
    ensures d <= Digits() && d != {}
    ensures Value(g, c) == 0 ==> d == Digits()
    ensures Value(g, c) != 0 ==> d == {Value(g, c)}
  {
    if Value(g, c) == 0 then Digits() else {Value(g, c)}
  }

  /** Number of empty cells among `cells`. */
  function BlanksIn(g: Grid, cells: seq<Cell>): nat
    requires IsGrid(g)
  {
    if cells == [] then 0
    else BlanksIn(g, cells[..|cells| - 1]) + (if Value(g, cells[|cells| - 1]) == 0 then 1 else 0)
  }

  function Blanks(g: Grid): nat
    requires IsGrid(g)
  {
    BlanksIn(g, AllCells())
  }

  /** Filling one empty cell, and nothing else, leaves strictly fewer blanks. */
  lemma {:induction false} BlanksInDecrease(g: Grid, h: Grid, c: Cell, cells: seq<Cell>)
    requires IsGrid(g) && IsGrid(h)
    requires forall x :: x != c ==> Value(h, x) == Value(g, x)
    requires Value(g, c) == 0 && Value(h, c) != 0
    ensures c in cells ==> BlanksIn(h, cells) < BlanksIn(g, cells)
    ensures BlanksIn(h, cells) <= BlanksIn(g, cells)
  {
    if cells != [] {
      BlanksInDecrease(g, h, c, cells[..|cells| - 1]);
      var last := cells[|cells| - 1];
      if c in cells && c != last {
        assert c in cells[..|cells| - 1] by {
          var i :| 0 <= i < |cells| && cells[i] == c;
          assert i < |cells| - 1;
        }
      }
    }
  }

  lemma BlanksDecrease(g: Grid, c: Cell, v: int)
    requires IsGrid(g) && 1 <= v <= 9 && Value(g, c) == 0
    ensures Blanks(Assign(g, c, v)) < Blanks(g)
  {
    AllCellsHas(c);
    BlanksInDecrease(g, Assign(g, c, v), c, AllCells());
  }

  // ---------------------------------------------------------------------
  // Peers and peer groups
  // ---------------------------------------------------------------------

  predicate SameBox(a: Cell, b: Cell)
  {
    a.letter / 3 == b.letter / 3 && a.digit / 3 == b.digit / 3
  }

  /** Two different cells that share a digit, a letter or a 3x3 box. */
  predicate Peer(a: Cell, b: Cell)
  {
    a != b && (a.digit == b.digit || a.letter == b.letter || SameBox(a, b))
  }

  /** The nine cells with the digit of `c` (group 0 in the source, its "row"). */
  function DigitLine(c: Cell): (r: seq<Cell>)
    ensures |r| == 9 && Distinct(r)
    ensures forall k :: 0 <= k < 9 ==> r[k] == Cell(k, c.digit)
    ensures forall x {:trigger x in r} :: x in r <==> x.digit == c.digit
  {
    var r := seq(9, k requires 0 <= k < 9 => Cell(k, c.digit));
    assert forall x: Cell :: x.digit == c.digit ==> r[x.letter] == x;
    r
  }

  /** The nine cells with the letter of `c` (group 1, its "column"). */
  function LetterLine(c: Cell): (r: seq<Cell>)
    ensures |r| == 9 && Distinct(r)
    ensures forall k :: 0 <= k < 9 ==> r[k] == Cell(c.letter, k)
    ensures forall x {:trigger x in r} :: x in r <==> x.letter == c.letter
  {
    var r := seq(9, k requires 0 <= k < 9 => Cell(c.letter, k));
    assert forall x: Cell :: x.letter == c.letter ==> r[x.digit] == x;
    r
  }

  /** The top-left corner of the box of `c`, shifted by `i` letters and `j` digits. */
  function BoxCell(c: Cell, i: int, j: int): Cell
    requires 0 <= i < 3 && 0 <= j < 3
  {
    Cell(3 * (c.letter / 3) + i, 3 * (c.digit / 3) + j)
  }

  /** The nine cells of the box of `c`, letters varying slowest (group 2, its "unit"). */
  function BoxCells(c: Cell): (r: seq<Cell>)
    ensures |r| == 9 && Distinct(r)
    ensures forall t :: 0 <= t < 9 ==> r[t] == BoxCell(c, t / 3, t % 3)
    ensures forall x {:trigger x in r} :: x in r <==> SameBox(x, c)
  {
    var r := seq(9, t requires 0 <= t < 9 => BoxCell(c, t / 3, t % 3));
    forall x | SameBox(x, c)
      ensures x in r
    {
      var t := 3 * (x.letter % 3) + x.digit % 3;
      assert r[t] == x;
    }
    r
  }

  /** Box cell (i, j) sits at position 3 * i + j of BoxCells(c). */
  lemma BoxCellAt(c: Cell, i: int, j: int)
    requires 0 <= i < 3 && 0 <= j < 3
    ensures BoxCells(c)[3 * i + j] == BoxCell(c, i, j)
  {
    var t := 3 * i + j;
    assert t / 3 == i && t % 3 == j;
  }

  /** `xs` with every occurrence of `c` dropped, order kept. */
  function Without(xs: seq<Cell>, c: Cell): (r: seq<Cell>)
    ensures forall x {:trigger x in r} :: x in r <==> x in xs && x != c
    ensures Distinct(xs) ==> Distinct(r)
    ensures Distinct(xs) && c in xs ==> |r| == |xs| - 1
    ensures c !in xs ==> r == xs
  {
    if xs == [] then []
    else
      var init, last := xs[..|xs| - 1], xs[|xs| - 1];
      assert xs == init + [last];
      var r := Without(init, c) + (if last == c then [] else [last]);
      assert Distinct(xs) ==> Distinct(init) && last !in init;
      assert last in Without(init, c) ==> last in init;
      r
  }

  /** The three peer groups of `c`: same digit, same letter, same box, each
      in the source's order and without `c` itself. */
  function Groups(c: Cell): seq<seq<Cell>>
  {
    [Without(DigitLine(c), c), Without(LetterLine(c), c), Without(BoxCells(c), c)]
  }

  /** Each group holds eight cells, exactly the peers of `c` along its line
      or box; together the three groups hold every peer of `c`. */
  lemma GroupsSpec(c: Cell)
    ensures |Groups(c)| == 3
    ensures forall k :: 0 <= k < 3 ==> |Groups(c)[k]| == 8 && Distinct(Groups(c)[k]) && c !in Groups(c)[k]
    ensures forall x {:trigger x in Groups(c)[0]} :: x in Groups(c)[0] <==> x != c && x.digit == c.digit
    ensures forall x {:trigger x in Groups(c)[1]} :: x in Groups(c)[1] <==> x != c && x.letter == c.letter
    ensures forall x {:trigger x in Groups(c)[2]} :: x in Groups(c)[2] <==> x != c && SameBox(x, c)
    ensures forall x :: Peer(c, x) <==> x in Groups(c)[0] || x in Groups(c)[1] || x in Groups(c)[2]
  {
    assert c in DigitLine(c) && c in LetterLine(c) && c in BoxCells(c);
  }

  /** Nine cells that pairwise share a row, column or box: a whole unit. */
  predicate IsUnit(u: seq<Cell>)
  {
    |u| == 9 && forall i, j :: 0 <= i < j < 9 ==> Peer(u[i], u[j])
  }

  /** A cell together with any one of its peer groups forms a unit. */
  lemma GroupIsUnit(c: Cell, k: int)
    requires 0 <= k < 3
    ensures IsUnit([c] + Groups(c)[k])
  {
    GroupsSpec(c);
    var g := Groups(c)[k];
    var u := [c] + g;
    forall i, j | 0 <= i < j < 9
      ensures Peer(u[i], u[j])
    {
      var y := g[j - 1];
      assert u[j] == y && y in g;
      if i > 0 {
        var x := g[i - 1];
        assert u[i] == x && x in g && x != y;
        SharedGroup(c, k, x, y);
      }
    }
  }

  /** Two different cells of one peer group of `c` are peers. */
  lemma SharedGroup(c: Cell, k: int, x: Cell, y: Cell)
    requires 0 <= k < 3 && x in Groups(c)[k] && y in Groups(c)[k] && x != y
    ensures Peer(x, y)
  {
    GroupsSpec(c);
  }

  /** No cell other than `c` occurs twice in `ps`. */
  ghost predicate NoRepeatsBut(ps: seq<Cell>, c: Cell)
  {
    forall i, j :: 0 <= i < j < |ps| && ps[i] == ps[j] ==> ps[i] == c
  }

  /** The flat peer list the source builds for `c`: all peers of `c`, no
      other cell twice, and `c` itself when its letter and digit indices
      differ (the skip in the first loop then never fires). */
  ghost predicate IsPeerList(c: Cell, ps: seq<Cell>)
  {
    && (forall x {:trigger x in ps} :: x in ps <==> Peer(c, x) || (x == c && c.letter != c.digit))
    && NoRepeatsBut(ps, c)
  }

  /** The `peers` and `peer_groups` dictionaries as create_peers leaves
      them once it has run for every cell. */
  ghost predicate IsPeerMaps(peers: map<Cell, seq<Cell>>, groups: map<Cell, seq<seq<Cell>>>)
  {
    && (forall c: Cell :: c in peers && c in groups)
    && (forall c {:trigger peers[c]} :: c in peers ==> IsPeerList(c, peers[c]))
    && (forall c {:trigger groups[c]} :: c in groups ==> groups[c] == Groups(c))
  }
}
