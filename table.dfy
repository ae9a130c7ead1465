// The score table of Additional/MatchOfTheCentury: the result of every match
// between n teams, stored once per unordered pair of teams in a triangular
// array of n(n-1)/2 cells. The pair of 0-based indices x < y lives in cell
// y(y-1)/2 + x; a cell holds the two scores in the order (lower-numbered
// team, higher-numbered team), and reading or writing with the teams the
// other way round swaps the scores.

module ScoreTable {

  /** The scores of one match */
  datatype Cell = Cell(team1: int, team2: int)

  /** The same scores seen from the other team */
  function Swap(c: Cell): (r: Cell)
    ensures r.team1 == c.team2 && r.team2 == c.team1
  {
    Cell(c.team2, c.team1)
  }

  // ---------------------------------------------------------------------------
  // Triangular numbers

  /** 0 + 1 + ... + (k - 1), the number of pairs x < y below k */
  function Tri(k: nat): nat {
    if k == 0 then 0 else Tri(k - 1) + (k - 1)
  }

  lemma {:induction false} TriClosed(k: nat)
    ensures k * (k - 1) == 2 * Tri(k)
  {
    if k > 0 {
      TriClosed(k - 1);
      assert k * (k - 1) == (k - 1) * (k - 2) + 2 * (k - 1);
    }
  }

  /** Row b starts after every cell of the rows before it. */
  lemma {:induction false} TriGrows(a: nat, b: nat)
    requires a < b
    ensures Tri(a) + a <= Tri(b)
  {
    if a + 1 < b {
      TriGrows(a, b - 1);
    }
  }

  // ---------------------------------------------------------------------------
  // get_cells_number and get_shift

  /** INT_MAX of the 32-bit int the table's arithmetic is done in */
  const IntMax: int := 0x7fff_ffff

  /** The most teams for which n * (n - 1) does not overflow int */
  const MaxTeams: int := 46341

  /** A team count allocate_table accepts and whose cell count is computed without overflow */
  predicate Teams(n: int) {
    1 < n <= MaxTeams
  }

  /** n * (n - 1) fits in int exactly up to MaxTeams teams. */
  lemma ProductFits(n: int)
    requires n > 1
    ensures n * (n - 1) <= IntMax <==> n <= MaxTeams
  {
    assert MaxTeams * (MaxTeams - 1) == 2147441940;
    assert (MaxTeams + 1) * MaxTeams == 2147534622;
    if n <= MaxTeams {
      MulMono(n, MaxTeams, n - 1);
      MulMono(n - 1, MaxTeams - 1, MaxTeams);
      assert MaxTeams * (n - 1) == (n - 1) * MaxTeams;
    } else {
      MulMono(MaxTeams + 1, n, n - 1);
      MulMono(MaxTeams, n - 1, MaxTeams + 1);
      assert (MaxTeams + 1) * (n - 1) == (n - 1) * (MaxTeams + 1);
    }
  }

  lemma MulMono(a: int, b: int, c: int)
    requires a <= b && c >= 0
    ensures a * c <= b * c
  {
    assert b * c - a * c == (b - a) * c;
  }

  /** get_cells_number: one cell per unordered pair of n teams */
  function CellsNumber(n: int): (r: int)
    requires Teams(n)
    ensures r == Tri(n) && r >= 1
    ensures n * (n - 1) <= IntMax
  {
    ProductFits(n);
    TriClosed(n);
    TriGrows(1, n);
    n * (n - 1) / 2
  }

  /** get_shift: the cell of the 0-based pair x < y */
  function Shift(n: int, x: int, y: int): (r: int)
    requires n > 0 && 0 <= x < n && 0 <= y < n && x < y && n <= MaxTeams
    ensures Tri(y) <= r < Tri(y) + y && r < Tri(n)
    ensures y * (y - 1) <= IntMax
  {
    ProductFits(n);
    assert y * (y - 1) <= n * (n - 1);
    TriClosed(y);
    TriGrows(y, n);
    y * (y - 1) / 2 + x
  }

  /** Different pairs get different cells. */
  lemma ShiftInjective(n: int, x: int, y: int, x': int, y': int)
    requires 0 < n <= MaxTeams && 0 <= x < y < n && 0 <= x' < y' < n
    ensures Shift(n, x, y) == Shift(n, x', y') <==> x == x' && y == y'
  {
    if y < y' {
      TriGrows(y, y');
    } else if y' < y {
      TriGrows(y', y);
    }
  }

  /** Every one of the n(n-1)/2 cells belongs to some pair. */
  lemma {:induction false} ShiftOnto(n: int, k: int)
    requires Teams(n) && 0 <= k < CellsNumber(n)
    ensures exists x, y :: 0 <= x < y < n && Shift(n, x, y) == k
  {
    if k < Tri(n - 1) {
      ShiftOnto(n - 1, k);
      var x, y :| 0 <= x < y < n - 1 && Shift(n - 1, x, y) == k;
      assert Shift(n, x, y) == k;
    } else {
      assert Shift(n, k - Tri(n - 1), n - 1) == k;
    }
  }

  // ---------------------------------------------------------------------------
  // put_to_table and get_from_table on the cells' contents

  /** Teams are numbered 1 .. n and a match is between two different teams. */
  predicate Match(n: int, team1: int, team2: int) {
    0 < team1 <= n && 0 < team2 <= n && team1 != team2
  }

  /** The cell of a match, whichever team is named first */
  function Slot(n: int, team1: int, team2: int): (r: int)
    requires Teams(n) && Match(n, team1, team2)
    ensures 0 <= r < CellsNumber(n)
  {
    if team1 < team2 then Shift(n, team1 - 1, team2 - 1) else Shift(n, team2 - 1, team1 - 1)
  }

  /** The scores as the cell holds them: the lower-numbered team first */
  function Stored(c: Cell, team1: int, team2: int): (r: Cell)
    ensures r.team1 == (if team1 < team2 then c.team1 else c.team2)
    ensures r.team2 == (if team1 < team2 then c.team2 else c.team1)
    ensures (if team1 < team2 then r else Swap(r)) == c
  {
    if team1 < team2 then c else Swap(c)
  }

  /** The cells after put_to_table */
  function Write(cells: seq<Cell>, n: int, c: Cell, team1: int, team2: int): (r: seq<Cell>)
    requires Teams(n) && |cells| == CellsNumber(n) && Match(n, team1, team2)
    ensures |r| == |cells|
  {
    cells[Slot(n, team1, team2) := Stored(c, team1, team2)]
  }

  /** What get_from_table returns */
  function Read(cells: seq<Cell>, n: int, team1: int, team2: int): (r: Cell)
    requires Teams(n) && |cells| == CellsNumber(n) && Match(n, team1, team2)
    ensures Stored(r, team1, team2) == cells[Slot(n, team1, team2)]
  {
    Stored(cells[Slot(n, team1, team2)], team1, team2)
  }

  /** Both orders of the same two teams share one cell; other pairs use other cells. */
  lemma SlotShared(n: int, a: int, b: int, a': int, b': int)
    requires Teams(n) && Match(n, a, b) && Match(n, a', b')
    ensures Slot(n, a, b) == Slot(n, a', b') <==> (a == a' && b == b') || (a == b' && b == a')
  {
    var (x, y) := if a < b then (a - 1, b - 1) else (b - 1, a - 1);
    var (x', y') := if a' < b' then (a' - 1, b' - 1) else (b' - 1, a' - 1);
    ShiftInjective(n, x, y, x', y');
  }

  /** get after put, with the teams in the same order, returns what was put. */
  lemma GetAfterPut(cells: seq<Cell>, n: int, c: Cell, team1: int, team2: int)
    requires Teams(n) && |cells| == CellsNumber(n) && Match(n, team1, team2)
    ensures Read(Write(cells, n, c, team1, team2), n, team1, team2) == c
  {
  }

  /** get with the teams the other way round returns the scores swapped. */
  lemma GetReversed(cells: seq<Cell>, n: int, team1: int, team2: int)
    requires Teams(n) && |cells| == CellsNumber(n) && Match(n, team1, team2)
    ensures Read(cells, n, team2, team1) == Swap(Read(cells, n, team1, team2))
  {
    SlotShared(n, team1, team2, team2, team1);
  }

  /** put changes the result of no other match. */
  lemma PutFrame(cells: seq<Cell>, n: int, c: Cell, team1: int, team2: int, a: int, b: int)
    requires Teams(n) && |cells| == CellsNumber(n) && Match(n, team1, team2) && Match(n, a, b)
    requires !(a == team1 && b == team2) && !(a == team2 && b == team1)
    ensures Read(Write(cells, n, c, team1, team2), n, a, b) == Read(cells, n, a, b)
  {
    SlotShared(n, team1, team2, a, b);
  }

  /** A new table reads 0 : 0 for every match. */
  lemma FreshReadsZero(n: int, team1: int, team2: int)
    requires Teams(n) && Match(n, team1, team2)
    ensures Read(seq(CellsNumber(n), _ => Cell(0, 0)), n, team1, team2) == Cell(0, 0)
  {
  }

  // ---------------------------------------------------------------------------
  // struct table

  class Table {
    const n: int
    const cells: array<Cell>

    ghost predicate Valid() {
      Teams(n) && cells.Length == CellsNumber(n)
    }

    /** allocate_table: n(n-1)/2 zeroed cells */
    constructor (n: int)
      requires Teams(n)
      ensures Valid() && this.n == n && fresh(cells)
      ensures cells[..] == seq(CellsNumber(n), _ => Cell(0, 0))
    {
      this.n := n;
      cells := new Cell[CellsNumber(n)](_ => Cell(0, 0));
    }

    /** put_to_table: the scores go into the match's cell, the lower-numbered team's first */
    method Put(c: Cell, team1: int, team2: int)
      requires Valid() && Match(n, team1, team2)
      modifies cells
      ensures cells[..] == Write(old(cells[..]), n, c, team1, team2)
    {
      if team1 < team2 {
        var k := Shift(n, team1 - 1, team2 - 1);
        cells[k] := cells[k].(team1 := c.team1);
        cells[k] := cells[k].(team2 := c.team2);
      } else {
        var k := Shift(n, team2 - 1, team1 - 1);
        cells[k] := cells[k].(team2 := c.team1);
        cells[k] := cells[k].(team1 := c.team2);
      }
    }

    /** get_from_table: the match's cell, swapped when the higher-numbered team is named first */
    method Get(team1: int, team2: int) returns (c: Cell)
      requires Valid() && Match(n, team1, team2)
      ensures c == Read(cells[..], n, team1, team2)
    {
      if team1 < team2 {
        var k := Shift(n, team1 - 1, team2 - 1);
        c := Cell(cells[k].team1, cells[k].team2);
      } else {
        var k := Shift(n, team2 - 1, team1 - 1);
        c := Cell(cells[k].team2, cells[k].team1);
      }
    }
  }
}
