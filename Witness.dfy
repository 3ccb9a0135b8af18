/** A concrete move whose cascade loses a molecule. On a 3 x 2 board at rest,
    placing on the top middle cell sets off four explosions; the top right
    corner receives a second molecule before its turn to explode, explodes
    holding 3 with two neighbours, and the board ends with the molecule total
    it had before the placement added one. */
module Witness {
  import opened Models
  import opened Board
  import opened Cascade
  import opened Placement

  /** A cell holding n molecules, owned by player 0 when it holds any. */
  function Mk(x: int, y: int, n: int): Cell {
    Cell(x, y, if n > 0 then Some(Player(0)) else None, n, false, None, 0)
  }

  /** Molecules per row: 0 2 1 over 0 2 1. Player 0 has played once and is to
      move; player 1 has not played yet. */
  function LossState(): GameState {
    GameState(
      [[Mk(0, 0, 0), Mk(1, 0, 2), Mk(2, 0, 1)],
       [Mk(0, 1, 0), Mk(1, 1, 2), Mk(2, 1, 1)]],
      [Player(0), Player(1)],
      0,
      false,
      None,
      map[0 := 1])
  }

  predicate Shape(g: Grid) {
    IsRect(g) && |g| == 2 && |g[0]| == 3
  }

  /** The molecule counts of a 3 x 2 board, row by row. */
  predicate Counts(g: Grid, a: int, b: int, c: int, d: int, e: int, f: int)
    requires Shape(g)
  {
    && g[0][0].molecules == a && g[0][1].molecules == b && g[0][2].molecules == c
    && g[1][0].molecules == d && g[1][1].molecules == e && g[1][2].molecules == f
  }

  /** The molecules of cell (i, j) after (x, y) explodes, from n before. */
  function After(n: int, i: int, j: int, x: int, y: int): int {
    if i == x && j == y then 0
    else if (i == x && (j == y - 1 || j == y + 1)) || (j == y && (i == x - 1 || i == x + 1)) then n + 1
    else n
  }

  /** The molecule counts after (x, y) explodes, given the counts before
      (a to f) and after (a2 to f2) as read off After. */
  lemma ExplodeCounts(g: Grid, x: int, y: int, level: int, a: int, b: int, c: int, d: int, e: int, f: int,
                      a2: int, b2: int, c2: int, d2: int, e2: int, f2: int)
    requires Shape(g) && InGrid(x, y, 3, 2) && Counts(g, a, b, c, d, e, f)
    requires a2 == After(a, 0, 0, x, y) && b2 == After(b, 1, 0, x, y) && c2 == After(c, 2, 0, x, y)
    requires d2 == After(d, 0, 1, x, y) && e2 == After(e, 1, 1, x, y) && f2 == After(f, 2, 1, x, y)
    ensures Shape(Explode(g, x, y, level)) && Counts(Explode(g, x, y, level), a2, b2, c2, d2, e2, f2)
  {
    ExplodedMolecules(g, x, y, level, 0, 0);
    ExplodedMolecules(g, x, y, level, 1, 0);
    ExplodedMolecules(g, x, y, level, 2, 0);
    ExplodedMolecules(g, x, y, level, 0, 1);
    ExplodedMolecules(g, x, y, level, 1, 1);
    ExplodedMolecules(g, x, y, level, 2, 1);
  }

  lemma ExplodedMolecules(g: Grid, x: int, y: int, level: int, i: int, j: int)
    requires IsRect(g) && InBounds(g, x, y) && InBounds(g, i, j)
    ensures Explode(g, x, y, level)[j][i].molecules == After(g[j][i].molecules, i, j, x, y)
  {
    var r: Grid := Explode(g, x, y, level);
    ExplodePointwise(g, x, y, level);
    assert r[j][i] == ExplodedCell(g, x, y, level, i, j);
  }

  lemma TotalOfCounts(g: Grid, a: int, b: int, c: int, d: int, e: int, f: int)
    requires Shape(g) && Counts(g, a, b, c, d, e, f)
    ensures Total(g) == a + b + c + d + e + f
  {
    RowTotalOfThree(g[0]);
    RowTotalOfThree(g[1]);
    assert g[1..][1..] == [];
    assert Total(g[1..]) == RowTotal(g[1]) + Total(g[1..][1..]);
  }

  lemma RowTotalOfThree(row: seq<Cell>)
    requires |row| == 3
    ensures RowTotal(row) == row[0].molecules + row[1].molecules + row[2].molecules
  {
    assert row[1..][1..][1..] == [];
    assert RowTotal(row[1..][1..]) == row[2].molecules + RowTotal(row[1..][1..][1..]);
  }

  /** The neighbour lists of the cells that explode, on a 3 x 2 board. */
  lemma NeighboursTopMiddle()
    ensures GetAdjacentCells(1, 0, 3, 2) == [Pos(1, 1), Pos(0, 0), Pos(2, 0)]
  {
    var c := [Pos(1, -1), Pos(1, 1), Pos(0, 0), Pos(2, 0)];
    assert c[1..][1..][1..][1..] == [];
    assert WithinGrid(c[1..][1..][1..], 3, 2) == [Pos(2, 0)];
    assert WithinGrid(c[1..][1..], 3, 2) == [Pos(0, 0), Pos(2, 0)];
  }

  lemma NeighboursBottomMiddle()
    ensures GetAdjacentCells(1, 1, 3, 2) == [Pos(1, 0), Pos(0, 1), Pos(2, 1)]
  {
    var c := [Pos(1, 0), Pos(1, 2), Pos(0, 1), Pos(2, 1)];
    assert c[1..][1..][1..][1..] == [];
    assert WithinGrid(c[1..][1..][1..], 3, 2) == [Pos(2, 1)];
    assert WithinGrid(c[1..][1..], 3, 2) == [Pos(0, 1), Pos(2, 1)];
    assert WithinGrid(c[1..], 3, 2) == [Pos(0, 1), Pos(2, 1)];
  }

  lemma NeighboursBottomRight()
    ensures GetAdjacentCells(2, 1, 3, 2) == [Pos(2, 0), Pos(1, 1)]
  {
    var c := [Pos(2, 0), Pos(2, 2), Pos(1, 1), Pos(3, 1)];
    assert c[1..][1..][1..][1..] == [];
    assert WithinGrid(c[1..][1..][1..], 3, 2) == [];
    assert WithinGrid(c[1..][1..], 3, 2) == [Pos(1, 1)];
    assert WithinGrid(c[1..], 3, 2) == [Pos(1, 1)];
  }

  lemma NeighboursTopRight()
    ensures GetAdjacentCells(2, 0, 3, 2) == [Pos(2, 1), Pos(1, 0)]
  {
    var c := [Pos(2, -1), Pos(2, 1), Pos(1, 0), Pos(3, 0)];
    assert c[1..][1..][1..][1..] == [];
    assert WithinGrid(c[1..][1..][1..], 3, 2) == [];
    assert WithinGrid(c[1..][1..], 3, 2) == [Pos(1, 0)];
  }

  /** A position of the list that is within capacity is passed over. */
  lemma PassOver(g: Grid, ns: seq<Pos>, k: nat, level: int, fuel: nat)
    requires IsRect(g) && k < |ns| && AllInGrid(ns, |g[0]|, |g|)
    requires ns[k] in ns && !Overfull(g, ns[k].x, ns[k].y)
    ensures ResolveAll(g, ns, k, level, fuel) == ResolveAll(g, ns, k + 1, level, fuel)
  {
  }

  /** A position of the list that is over capacity is resolved, and the rest
      of the list continues on the grid that resolution leaves. */
  lemma TakeOn(g: Grid, ns: seq<Pos>, k: nat, level: int, fuel: nat, h: Grid)
    requires IsRect(g) && k < |ns| && AllInGrid(ns, |g[0]|, |g|)
    requires ns[k] in ns && Overfull(g, ns[k].x, ns[k].y)
    requires Resolve(g, ns[k].x, ns[k].y, level, fuel) == Some(h)
    ensures SameLayout(g, h)
    ensures ResolveAll(g, ns, k, level, fuel) == ResolveAll(h, ns, k + 1, level, fuel)
  {
  }

  /** The four explosions of the cascade, each on the board the previous one left. */
  lemma ExplodeTopMiddle(g: Grid)
    requires Shape(g) && Counts(g, 0, 3, 1, 0, 2, 1)
    ensures Shape(Explode(g, 1, 0, 0)) && Counts(Explode(g, 1, 0, 0), 1, 0, 2, 0, 3, 1)
  {
    ExplodeCounts(g, 1, 0, 0, 0, 3, 1, 0, 2, 1,
                  1, 0, 2, 0, 3, 1);
  }

  lemma ExplodeBottomMiddle(g: Grid)
    requires Shape(g) && Counts(g, 1, 0, 2, 0, 3, 1)
    ensures Shape(Explode(g, 1, 1, 1)) && Counts(Explode(g, 1, 1, 1), 1, 1, 2, 1, 0, 2)
  {
    ExplodeCounts(g, 1, 1, 1, 1, 0, 2, 0, 3, 1,
                  1, 1, 2, 1, 0, 2);
  }

  lemma ExplodeBottomRight(g: Grid)
    requires Shape(g) && Counts(g, 1, 1, 2, 1, 0, 2)
    ensures Shape(Explode(g, 2, 1, 2)) && Counts(Explode(g, 2, 1, 2), 1, 1, 3, 1, 1, 0)
  {
    ExplodeCounts(g, 2, 1, 2, 1, 1, 2, 1, 0, 2,
                  1, 1, 3, 1, 1, 0);
  }

  lemma ExplodeTopRight(g: Grid)
    requires Shape(g) && Counts(g, 1, 1, 3, 1, 1, 0)
    ensures Shape(Explode(g, 2, 0, 3)) && Counts(Explode(g, 2, 0, 3), 1, 2, 0, 1, 1, 1)
  {
    ExplodeCounts(g, 2, 0, 3, 1, 1, 3, 1, 1, 0,
                  1, 2, 0, 1, 1, 1);
  }

  /** The fourth explosion, at the top right corner holding 3, ends the cascade:
      neither of its neighbours is over capacity afterwards. */
  lemma LastExplosion(g2: Grid, g3: Grid)
    requires Shape(g2) && Counts(g2, 1, 1, 3, 1, 1, 0)
    requires g3 == Explode(g2, 2, 0, 3)
    ensures Resolve(g2, 2, 0, 3, 1) == Some(g3)
    ensures Shape(g3) && Counts(g3, 1, 2, 0, 1, 1, 1)
  {
    ExplodeTopRight(g2);
    var ns := Neighbours(g2, 2, 0);
    NeighboursTopRight();
    assert ns == [Pos(2, 1), Pos(1, 0)];
    ResolveStep(g2, 2, 0, 3, 1);
    PassOver(g3, ns, 0, 4, 0);
    PassOver(g3, ns, 1, 4, 0);
  }

  /** The third explosion, at the bottom right corner holding 2, sets off the
      top right corner, which a molecule of the first explosion has filled to 3. */
  lemma ThirdExplosion(g1: Grid, g3: Grid)
    requires Shape(g1) && Counts(g1, 1, 1, 2, 1, 0, 2)
    requires g3 == Explode(Explode(g1, 2, 1, 2), 2, 0, 3)
    ensures Resolve(g1, 2, 1, 2, 2) == Some(g3)
    ensures Shape(g3) && Counts(g3, 1, 2, 0, 1, 1, 1)
  {
    var g2 := Explode(g1, 2, 1, 2);
    ExplodeBottomRight(g1);
    LastExplosion(g2, g3);
    var ns := Neighbours(g1, 2, 1);
    NeighboursBottomRight();
    assert ns == [Pos(2, 0), Pos(1, 1)];
    ResolveStep(g1, 2, 1, 2, 2);
    TakeOn(g2, ns, 0, 3, 1, g3);
    PassOver(g3, ns, 1, 3, 1);
  }

  /** The second explosion, at the bottom middle cell holding 3. */
  lemma SecondExplosion(g0: Grid, g3: Grid)
    requires Shape(g0) && Counts(g0, 1, 0, 2, 0, 3, 1)
    requires g3 == Explode(Explode(Explode(g0, 1, 1, 1), 2, 1, 2), 2, 0, 3)
    ensures Resolve(g0, 1, 1, 1, 3) == Some(g3)
    ensures Shape(g3) && Counts(g3, 1, 2, 0, 1, 1, 1)
  {
    var g1 := Explode(g0, 1, 1, 1);
    ExplodeBottomMiddle(g0);
    ThirdExplosion(g1, g3);
    var ns := Neighbours(g0, 1, 1);
    NeighboursBottomMiddle();
    assert ns == [Pos(1, 0), Pos(0, 1), Pos(2, 1)];
    ResolveStep(g0, 1, 1, 1, 3);
    PassOver(g1, ns, 0, 2, 2);
    PassOver(g1, ns, 1, 2, 2);
    TakeOn(g1, ns, 2, 2, 2, g3);
  }

  /** The cascade of the placement at the top middle cell, now holding 3. */
  lemma FirstExplosion(g: Grid)
    requires Shape(g) && Counts(g, 0, 3, 1, 0, 2, 1)
    ensures var r := Resolve(g, 1, 0, 0, 4);
      && r.Some? && Shape(r.value) && Counts(r.value, 1, 2, 0, 1, 1, 1)
  {
    var g0 := Explode(g, 1, 0, 0);
    var g3 := Explode(Explode(Explode(g0, 1, 1, 1), 2, 1, 2), 2, 0, 3);
    ExplodeTopMiddle(g);
    SecondExplosion(g0, g3);
    var ns := Neighbours(g, 1, 0);
    NeighboursTopMiddle();
    assert ns == [Pos(1, 1), Pos(0, 0), Pos(2, 0)];
    ResolveStep(g, 1, 0, 0, 4);
    TakeOn(g0, ns, 0, 1, 3, g3);
    PassOver(g3, ns, 1, 1, 3);
    PassOver(g3, ns, 2, 1, 3);
  }

  /** From a consistent state holding 6 molecules, a legal move adds one and
      its cascade completes, yet the board ends holding 6: the molecule total
      of a move is not conserved. */
  lemma MoveLosesMolecule()
    ensures var s := LossState();
      && Consistent(s) && Placeable(s, 1, 0) && IsLegal(s, 1, 0)
      && Total(s.grid) == 6
      && Place(s, 1, 0, 4).Some?
      && Total(Place(s, 1, 0, 4).value.grid) == Total(s.grid) + 1 - 1
  {
    LossStart();
    TopMiddleLoses(LossState());
  }

  /** The starting state is at rest, holds 6 molecules, and player 0 may play
      on the top middle cell, which they own. */
  lemma LossStart()
    ensures var s := LossState();
      && Consistent(s) && Placeable(s, 1, 0) && IsLegal(s, 1, 0)
      && Shape(s.grid) && Counts(s.grid, 0, 2, 1, 0, 2, 1) && Total(s.grid) == 6
  {
    var s := LossState();
    LossStateConsistent();
    assert Counts(s.grid, 0, 2, 1, 0, 2, 1);
    TotalOfCounts(s.grid, 0, 2, 1, 0, 2, 1);
  }

  /** On any 3 x 2 board holding 0 2 1 over 0 2 1, a legal move on the top
      middle cell ends, after a completed cascade, on a board holding 6. */
  lemma TopMiddleLoses(s: GameState)
    requires Placeable(s, 1, 0) && IsLegal(s, 1, 0)
    requires Shape(s.grid) && Counts(s.grid, 0, 2, 1, 0, 2, 1)
    ensures Place(s, 1, 0, 4).Some? && Total(Place(s, 1, 0, 4).value.grid) == 6
  {
    var p := Placed(s, 1, 0);
    assert Shape(p.grid) && Counts(p.grid, 0, 3, 1, 0, 2, 1);
    FirstExplosion(p.grid);
    var r := Resolve(p.grid, 1, 0, 0, 4);
    TotalOfCounts(r.value, 1, 2, 0, 1, 1, 1);
    PlaceGrid(s, 1, 0, 4);
  }

  /** Every cell of the starting board is at its capacity and no further, and
      is owned exactly when it holds molecules. */
  lemma LossStateConsistent()
    ensures Consistent(LossState())
  {
    var g: Grid := LossState().grid;
    forall j: int, i: int | 0 <= j < |g| && 0 <= i < |g[0]|
      ensures g[j][i].molecules <= CapacityAt(i, j, |g[0]|, |g|)
      ensures g[j][i].molecules >= 0 && (g[j][i].owner.None? <==> g[j][i].molecules == 0)
    {
      assert j == 0 || j == 1;
      assert i == 0 || i == 1 || i == 2;
    }
  }

  /** A legal move whose cascade completes ends on the cascade's board. */
  lemma PlaceGrid(s: GameState, x: int, y: int, fuel: nat)
    requires Placeable(s, x, y) && IsLegal(s, x, y)
    requires Resolve(Placed(s, x, y).grid, x, y, 0, fuel).Some?
    ensures Place(s, x, y, fuel).Some?
    ensures Place(s, x, y, fuel).value.grid == Resolve(Placed(s, x, y).grid, x, y, 0, fuel).value
  {
  }
}
