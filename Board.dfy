/** Board geometry of the chain-reaction engine: the kind and capacity of a
    cell, its orthogonal neighbours, the empty board, and board-wide queries
    (molecule total, ownership, rest). */
module Board {
  import opened Models

  function Abs(n: int): nat {
    if n < 0 then -n else n
  }

  /** p and q are one step apart, horizontally or vertically. */
  predicate Orthogonal(p: Pos, q: Pos) {
    Abs(p.x - q.x) + Abs(p.y - q.y) == 1
  }

  /** Rank of p among the neighbours of (x, y) in the order up (y - 1), down,
      left (x - 1), right; 4 for a position that is not a neighbour. */
  function Direction(x: int, y: int, p: Pos): nat {
    if p == Pos(x, y - 1) then 0
    else if p == Pos(x, y + 1) then 1
    else if p == Pos(x - 1, y) then 2
    else if p == Pos(x + 1, y) then 3
    else 4
  }

  predicate OnXBorder(x: int, width: int) {
    x == 0 || x == width - 1
  }

  predicate OnYBorder(y: int, height: int) {
    y == 0 || y == height - 1
  }

  /** A corner lies on a border in both directions, an edge cell in exactly one. */
  function GetCellType(x: int, y: int, width: int, height: int): (t: CellType)
    ensures t == Corner <==> OnXBorder(x, width) && OnYBorder(y, height)
    ensures t == Edge <==> OnXBorder(x, width) != OnYBorder(y, height)
    ensures t == Inner <==> !OnXBorder(x, width) && !OnYBorder(y, height)
  {
    if (x == 0 || x == width - 1) && (y == 0 || y == height - 1) then Corner
    else if x == 0 || x == width - 1 || y == 0 || y == height - 1 then Edge
    else Inner
  }

  function CellCapacity(t: CellType): (c: nat)
    ensures 1 <= c <= 3
    ensures t == Inner <==> c == 3
  {
    match t
    case Corner => 1
    case Edge => 2
    case Inner => 3
  }

  /** The capacity of the cell at (x, y) of a width x height grid. */
  function CapacityAt(x: int, y: int, width: int, height: int): nat {
    CellCapacity(GetCellType(x, y, width, height))
  }

  /** The four orthogonal candidates of (x, y): up (y - 1), down, left (x - 1), right. */
  function Candidates(x: int, y: int): seq<Pos> {
    [Pos(x, y - 1), Pos(x, y + 1), Pos(x - 1, y), Pos(x + 1, y)]
  }

  /** The positions of s that lie on a width x height grid, in their order in s. */
  function WithinGrid(s: seq<Pos>, width: int, height: int): (r: seq<Pos>)
    ensures forall p :: p in r <==> p in s && InGrid(p.x, p.y, width, height)
    ensures |r| <= |s|
  {
    if s == [] then []
    else if InGrid(s[0].x, s[0].y, width, height) then [s[0]] + WithinGrid(s[1..], width, height)
    else WithinGrid(s[1..], width, height)
  }

  /** The in-bounds orthogonal neighbours of (x, y), listed up, down, left,
      right; AdjacentCellsExact states what the list holds. */
  function GetAdjacentCells(x: int, y: int, width: int, height: int): (r: seq<Pos>)
    ensures AllInGrid(r, width, height)
  {
    WithinGrid(Candidates(x, y), width, height)
  }

  /** The neighbour list holds exactly the positions of the grid one step
      away from (x, y), each once, in the order up, down, left, right, and
      never (x, y) itself. */
  lemma AdjacentCellsExact(x: int, y: int, width: int, height: int)
    ensures var r := GetAdjacentCells(x, y, width, height);
      && (forall p :: p in r <==> InGrid(p.x, p.y, width, height) && Orthogonal(p, Pos(x, y)))
      && (forall i, j :: 0 <= i < j < |r| ==> Direction(x, y, r[i]) < Direction(x, y, r[j]))
      && (forall i, j :: 0 <= i < j < |r| ==> r[i] != r[j])
      && Pos(x, y) !in r
  {
    var c := Candidates(x, y);
    forall p: Pos ensures p in c <==> Orthogonal(p, Pos(x, y)) {
      OrthogonalCases(p, x, y);
    }
    var key := (p: Pos) => Direction(x, y, p);
    assert Increasing(c, key);
    WithinGridKeepsOrder(c, key, width, height);
    var r := GetAdjacentCells(x, y, width, height);
    assert forall i, j :: 0 <= i < j < |r| ==> key(r[i]) < key(r[j]);
  }

  /** The four candidates are exactly the orthogonal positions. */
  lemma OrthogonalCases(p: Pos, x: int, y: int)
    ensures Orthogonal(p, Pos(x, y)) <==>
              p == Pos(x, y - 1) || p == Pos(x, y + 1) || p == Pos(x - 1, y) || p == Pos(x + 1, y)
  {
    if p.x == x {
      assert Orthogonal(p, Pos(x, y)) <==> Abs(p.y - y) == 1;
    } else if p.y == y {
      assert Orthogonal(p, Pos(x, y)) <==> Abs(p.x - x) == 1;
    } else {
      assert Abs(p.x - x) >= 1 && Abs(p.y - y) >= 1;
    }
  }

  /** key strictly increases along s. */
  ghost predicate Increasing(s: seq<Pos>, key: Pos -> int) {
    forall i, j :: 0 <= i < j < |s| ==> key(s[i]) < key(s[j])
  }

  /** Filtering keeps the order of what it keeps. */
  lemma {:induction false} WithinGridKeepsOrder(s: seq<Pos>, key: Pos -> int, width: int, height: int)
    requires Increasing(s, key)
    ensures Increasing(WithinGrid(s, width, height), key)
    decreases |s|
  {
    if s != [] {
      IncreasingSplit(s, key);
      WithinGridKeepsOrder(s[1..], key, width, height);
      if InGrid(s[0].x, s[0].y, width, height) {
        IncreasingCons(s[0], WithinGrid(s[1..], width, height), key);
      }
    }
  }

  lemma IncreasingSplit(s: seq<Pos>, key: Pos -> int)
    requires Increasing(s, key) && s != []
    ensures Increasing(s[1..], key)
    ensures forall q :: q in s[1..] ==> key(s[0]) < key(q)
  {
    forall i, j | 0 <= i < j < |s[1..]| ensures key(s[1..][i]) < key(s[1..][j]) {
      assert s[1..][i] == s[i + 1] && s[1..][j] == s[j + 1];
    }
    forall q | q in s[1..] ensures key(s[0]) < key(q) {
      var k :| 0 <= k < |s[1..]| && s[1..][k] == q;
      assert s[k + 1] == q;
    }
  }

  lemma IncreasingCons(a: Pos, t: seq<Pos>, key: Pos -> int)
    requires Increasing(t, key) && forall q :: q in t ==> key(a) < key(q)
    ensures Increasing([a] + t, key)
  {
    var r := [a] + t;
    forall i, j | 0 <= i < j < |r| ensures key(r[i]) < key(r[j]) {
      assert r[j] == t[j - 1];
      if i > 0 {
        assert r[i] == t[i - 1];
      }
    }
  }

  /** On a board at least 2 x 2 a cell has one neighbour more than its
      capacity, so it explodes exactly when its molecules reach its neighbour
      count. On a board one cell wide the capacity equals the neighbour count,
      and the single cell of a 1 x 1 board has capacity 1 and no neighbour. */
  lemma CapacityAndNeighbours(x: int, y: int, width: int, height: int)
    requires InGrid(x, y, width, height)
    ensures width >= 2 && height >= 2 ==>
              |GetAdjacentCells(x, y, width, height)| == CapacityAt(x, y, width, height) + 1
    ensures (width == 1) != (height == 1) ==>
              |GetAdjacentCells(x, y, width, height)| == CapacityAt(x, y, width, height)
    ensures width == 1 && height == 1 ==>
              |GetAdjacentCells(x, y, width, height)| == 0 && CapacityAt(x, y, width, height) == 1
  {
    var c := Candidates(x, y);
    assert c[1..] == [Pos(x, y + 1), Pos(x - 1, y), Pos(x + 1, y)];
    assert c[1..][1..] == [Pos(x - 1, y), Pos(x + 1, y)];
    assert c[1..][1..][1..] == [Pos(x + 1, y)];
    assert c[1..][1..][1..][1..] == [];
    var n3 := |WithinGrid(c[1..][1..][1..], width, height)|;
    assert n3 == if x < width - 1 then 1 else 0;
    var n2 := |WithinGrid(c[1..][1..], width, height)|;
    assert n2 == n3 + if x > 0 then 1 else 0;
    var n1 := |WithinGrid(c[1..], width, height)|;
    assert n1 == n2 + if y < height - 1 then 1 else 0;
    assert |GetAdjacentCells(x, y, width, height)| == n1 + if y > 0 then 1 else 0;
  }

  function EmptyCell(x: int, y: int): Cell {
    Cell(x, y, None, 0, false, None, 0)
  }

  /** height rows of width cells; cell [y][x] records (x, y), has no owner and no molecule. */
  function CreateInitialGrid(width: nat, height: nat): (g: Grid)
    ensures |g| == height
    ensures forall j :: 0 <= j < height ==> |g[j]| == width
    ensures forall j, i :: 0 <= j < height && 0 <= i < width ==>
              g[j][i].x == i && g[j][i].y == j && g[j][i].owner == None && g[j][i].molecules == 0
  {
    seq(height, y => seq(width, x => EmptyCell(x, y)))
  }

  function RowTotal(row: seq<Cell>): int {
    if row == [] then 0 else row[0].molecules + RowTotal(row[1..])
  }

  /** Total number of molecules on the board. */
  function Total(g: Grid): int {
    if g == [] then 0 else RowTotal(g[0]) + Total(g[1..])
  }

  /** Some cell of g belongs to p. */
  predicate Owns(g: Grid, p: Player) {
    exists j, i :: 0 <= j < |g| && 0 <= i < |g[j]| && g[j][i].owner == Some(p)
  }

  ghost function PositionsOwnedBy(g: Grid, p: Player): set<Pos> {
    set j, i | 0 <= j < |g| && 0 <= i < |g[j]| && g[j][i].owner == Some(p) :: Pos(i, j)
  }

  /** No cell holds more molecules than its capacity. */
  ghost predicate Stable(g: Grid)
    requires IsRect(g)
  {
    forall j, i :: 0 <= j < |g| && 0 <= i < |g[0]| ==>
      g[j][i].molecules <= CapacityAt(i, j, |g[0]|, |g|)
  }

  /** Every cell holds a non-negative number of molecules, and holds none
      exactly when it has no owner. */
  ghost predicate CellsWellFormed(g: Grid)
    requires IsRect(g)
  {
    forall j, i :: 0 <= j < |g| && 0 <= i < |g[0]| ==>
      g[j][i].molecules >= 0 && (g[j][i].owner.None? <==> g[j][i].molecules == 0)
  }

  lemma {:induction false} RowTotalUpdate(row: seq<Cell>, i: int, c: Cell)
    requires 0 <= i < |row|
    ensures RowTotal(row[i := c]) == RowTotal(row) - row[i].molecules + c.molecules
  {
    if i == 0 {
      assert row[i := c][1..] == row[1..];
    } else {
      RowTotalUpdate(row[1..], i - 1, c);
      assert row[i := c][1..] == row[1..][i - 1 := c];
    }
  }

  /** Replacing one cell changes the total by the difference of the two molecule counts. */
  lemma {:induction false} TotalUpdate(g: Grid, j: int, i: int, c: Cell)
    requires 0 <= j < |g| && 0 <= i < |g[j]|
    ensures Total(g[j := g[j][i := c]]) == Total(g) - g[j][i].molecules + c.molecules
  {
    if j == 0 {
      RowTotalUpdate(g[0], i, c);
      assert g[j := g[j][i := c]][1..] == g[1..];
    } else {
      TotalUpdate(g[1..], j - 1, i, c);
      assert g[j := g[j][i := c]][1..] == g[1..][j - 1 := g[j][i := c]];
    }
  }

  lemma {:induction false} RowTotalOfEmpty(row: seq<Cell>)
    requires forall i :: 0 <= i < |row| ==> row[i].molecules == 0
    ensures RowTotal(row) == 0
  {
    if row != [] {
      RowTotalOfEmpty(row[1..]);
    }
  }

  lemma {:induction false} TotalOfEmpty(g: Grid)
    requires forall j, i :: 0 <= j < |g| && 0 <= i < |g[j]| ==> g[j][i].molecules == 0
    ensures Total(g) == 0
  {
    if g != [] {
      RowTotalOfEmpty(g[0]);
      assert forall j, i :: 0 <= j < |g[1..]| && 0 <= i < |g[1..][j]| ==> g[1..][j][i] == g[j + 1][i];
      TotalOfEmpty(g[1..]);
    }
  }

  /** The empty board holds no molecule, belongs to nobody, is at rest and
      its cells are well formed. */
  lemma InitialGridAtRest(width: nat, height: nat)
    ensures Total(CreateInitialGrid(width, height)) == 0
    ensures forall p :: !Owns(CreateInitialGrid(width, height), p)
    ensures height > 0 ==> IsRect(CreateInitialGrid(width, height)) && Stable(CreateInitialGrid(width, height))
    ensures height > 0 ==> CellsWellFormed(CreateInitialGrid(width, height))
  {
    TotalOfEmpty(CreateInitialGrid(width, height));
  }
}
