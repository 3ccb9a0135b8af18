/** The cascade resolver: a cell holding more molecules than its capacity
    explodes, empties, and hands one molecule and its owner to each
    neighbour; every neighbour then over capacity is resolved in turn,
    depth first, in neighbour order. The recursion has no bound of its own,
    so the model carries a fuel bound on its depth and reports exhaustion
    as None. */
module Cascade {
  import opened Models
  import opened Board

  /** Neighbour c after receiving one molecule from an explosion of a cell
      owned by owner at cascade depth level: it takes that owner, and the
      capture flag and previous owner record a different owner it replaced. */
  function Capture(c: Cell, owner: Option<Player>, level: int): Cell {
    var isCaptured := c.owner.Some? && c.owner != owner;
    c.(owner := owner, molecules := c.molecules + 1, captureAnimation := isCaptured,
       previousOwner := if isCaptured then c.owner else None, explosionLevel := level + 1)
  }

  /** Applies Capture to the cells at ns, one after the other, in list order. */
  function Spread(g: Grid, ns: seq<Pos>, owner: Option<Player>, level: int): (r: Grid)
    requires IsRect(g)
    requires AllInGrid(ns, |g[0]|, |g|)
    ensures SameLayout(g, r)
    decreases |ns|
  {
    if ns == [] then g
    else
      var h := Spread(g, ns[..|ns| - 1], owner, level);
      var p := ns[|ns| - 1];
      assert p in ns;
      assert InBounds(g, p.x, p.y);
      h[p.y := h[p.y][p.x := Capture(h[p.y][p.x], owner, level)]]
  }

  /** The neighbours of (x, y) on grid g. */
  function Neighbours(g: Grid, x: int, y: int): seq<Pos>
    requires |g| > 0
  {
    GetAdjacentCells(x, y, |g[0]|, |g|)
  }

  /** g with the cell (x, y) emptied and unowned, its other fields kept. */
  function Cleared(g: Grid, x: int, y: int): (r: Grid)
    requires IsRect(g) && InBounds(g, x, y)
    ensures SameLayout(g, r)
  {
    g[y := g[y][x := g[y][x].(owner := None, molecules := 0)]]
  }

  /** One explosion step at (x, y) as the engine performs it: the exploding
      cell is emptied and unowned, then each neighbour in turn is captured by
      its owner. */
  function Explode(g: Grid, x: int, y: int, level: int): (r: Grid)
    requires IsRect(g) && InBounds(g, x, y)
    ensures SameLayout(g, r)
  {
    Spread(Cleared(g, x, y), Neighbours(g, x, y), g[y][x].owner, level)
  }

  /** Cell (i, j) after the explosion step at (x, y), read off the geometry:
      the exploder is cleared, each orthogonal neighbour captured by the
      exploder's owner, every other cell kept. */
  function ExplodedCell(g: Grid, x: int, y: int, level: int, i: int, j: int): Cell
    requires IsRect(g) && InBounds(g, x, y) && InBounds(g, i, j)
  {
    var c := g[y][x];
    if i == x && j == y then c.(owner := None, molecules := 0)
    else if Orthogonal(Pos(i, j), Pos(x, y)) then Capture(g[j][i], c.owner, level)
    else g[j][i]
  }

  /** Cell (x, y) of g holds more molecules than its capacity. */
  predicate Overfull(g: Grid, x: int, y: int)
    requires IsRect(g) && InBounds(g, x, y)
  {
    g[y][x].molecules > CapacityAt(x, y, |g[0]|, |g|)
  }

  /** Resolution of the cell (x, y) of grid g at cascade depth level with fuel
      explosion levels left: None when the cascade would go deeper than the
      fuel. The grid keeps its dimensions; a cell within capacity is left alone. */
  function Resolve(g: Grid, x: int, y: int, level: int, fuel: nat): (r: Option<Grid>)
    requires IsRect(g) && InBounds(g, x, y)
    ensures r.Some? ==> SameLayout(g, r.value)
    ensures !Overfull(g, x, y) ==> r == Some(g)
    decreases fuel, 0, 0
  {
    if !Overfull(g, x, y) then Some(g)
    else if fuel == 0 then None
    else ResolveAll(Explode(g, x, y, level), Neighbours(g, x, y), 0, level + 1, fuel - 1)
  }

  /** Resolves, in order, each position ns[k], ns[k + 1], ... that is over
      capacity in the grid left by the previous ones. */
  function ResolveAll(g: Grid, ns: seq<Pos>, k: nat, level: int, fuel: nat): (r: Option<Grid>)
    requires IsRect(g) && k <= |ns|
    requires AllInGrid(ns, |g[0]|, |g|)
    ensures r.Some? ==> SameLayout(g, r.value)
    decreases fuel, 1, |ns| - k
  {
    if k == |ns| then Some(g)
    else
      var n := ns[k];
      if Overfull(g, n.x, n.y) then
        var next := Resolve(g, n.x, n.y, level, fuel);
        if next.None? then None
        else
          ResolveAll(next.value, ns, k + 1, level, fuel)
      else ResolveAll(g, ns, k + 1, level, fuel)
  }

  /** The state s with its grid replaced by a resolved grid, or None. */
  function WithGrid(s: GameState, r: Option<Grid>): (t: Option<GameState>)
    ensures t.Some? <==> r.Some?
    ensures t.Some? ==> t.value.grid == r.value && t.value.(grid := s.grid) == s
  {
    if r.None? then None else Some(s.(grid := r.value))
  }

  /** Spreading over distinct positions gives each listed cell exactly one
      Capture and leaves every other cell as it was. */
  lemma {:induction false} SpreadCells(g: Grid, ns: seq<Pos>, owner: Option<Player>, level: int)
    requires IsRect(g)
    requires AllInGrid(ns, |g[0]|, |g|)
    requires forall a, b :: 0 <= a < b < |ns| ==> ns[a] != ns[b]
    ensures var r := Spread(g, ns, owner, level);
      forall j, i :: 0 <= j < |g| && 0 <= i < |g[0]| ==>
        r[j][i] == if Pos(i, j) in ns then Capture(g[j][i], owner, level) else g[j][i]
    decreases |ns|
  {
    if ns != [] {
      var init, last := ns[..|ns| - 1], ns[|ns| - 1];
      assert forall p :: p in init ==> p in ns;
      SpreadCells(g, init, owner, level);
      assert last !in init by {
        forall a | 0 <= a < |init| ensures init[a] != last {
          assert init[a] == ns[a];
        }
      }
      var h := Spread(g, init, owner, level);
      var r := Spread(g, ns, owner, level);
      forall j, i | 0 <= j < |g| && 0 <= i < |g[0]|
        ensures r[j][i] == if Pos(i, j) in ns then Capture(g[j][i], owner, level) else g[j][i]
      {
        assert Pos(i, j) in ns <==> Pos(i, j) in init || Pos(i, j) == last;
        if Pos(i, j) == last {
          assert r[j][i] == Capture(h[j][i], owner, level);
        } else {
          assert r[j][i] == h[j][i];
        }
      }
    }
  }

  /** Spreading over ns adds one molecule per listed position. */
  lemma {:induction false} SpreadTotal(g: Grid, ns: seq<Pos>, owner: Option<Player>, level: int)
    requires IsRect(g)
    requires AllInGrid(ns, |g[0]|, |g|)
    ensures Total(Spread(g, ns, owner, level)) == Total(g) + |ns|
    decreases |ns|
  {
    if ns != [] {
      var init, last := ns[..|ns| - 1], ns[|ns| - 1];
      assert forall p :: p in init ==> p in ns;
      assert last in ns;
      SpreadTotal(g, init, owner, level);
      var h := Spread(g, init, owner, level);
      TotalUpdate(h, last.y, last.x, Capture(h[last.y][last.x], owner, level));
    }
  }

  /** The explosion step cell by cell: the engine's clearing followed by its
      loop over the neighbours changes exactly the cells ExplodedCell says. */
  lemma ExplodePointwise(g: Grid, x: int, y: int, level: int)
    requires IsRect(g) && InBounds(g, x, y)
    ensures var r := Explode(g, x, y, level);
      forall j, i :: 0 <= j < |g| && 0 <= i < |g[0]| ==> r[j][i] == ExplodedCell(g, x, y, level, i, j)
  {
    var g1 := Cleared(g, x, y);
    var ns := Neighbours(g, x, y);
    var r: Grid := Explode(g, x, y, level);
    AdjacentCellsExact(x, y, |g[0]|, |g|);
    SpreadCells(g1, ns, g[y][x].owner, level);
    forall j, i | 0 <= j < |g| && 0 <= i < |g[0]| ensures r[j][i] == ExplodedCell(g, x, y, level, i, j) {
      if i == x && j == y {
        assert Pos(i, j) !in ns;
      } else {
        assert Pos(i, j) in ns <==> Orthogonal(Pos(i, j), Pos(x, y));
        assert g1[j][i] == g[j][i];
      }
    }
  }

  /** One explosion step at (x, y): the exploder is emptied and unowned (its
      transient flags kept); each neighbour gains one molecule and the
      exploder's owner, is flagged as captured, with the replaced owner
      recorded, exactly when a different existing owner was replaced, and
      is tagged with depth level + 1; every other cell, and every cell's
      coordinates, stay as they were. */
  lemma ExplodeCells(g: Grid, x: int, y: int, level: int)
    requires IsRect(g) && InBounds(g, x, y)
    ensures var r := Explode(g, x, y, level); var c := g[y][x];
      && r[y][x] == c.(owner := None, molecules := 0)
      && (forall p :: p in Neighbours(g, x, y) ==>
            var before, after := g[p.y][p.x], r[p.y][p.x];
            && after.x == before.x && after.y == before.y
            && after.molecules == before.molecules + 1
            && after.owner == c.owner
            && (after.captureAnimation <==> before.owner.Some? && before.owner != c.owner)
            && after.previousOwner == (if after.captureAnimation then before.owner else None)
            && after.explosionLevel == level + 1)
      && (forall j, i ::
            0 <= j < |g| && 0 <= i < |g[0]| && Pos(i, j) != Pos(x, y) && Pos(i, j) !in Neighbours(g, x, y) ==>
              r[j][i] == g[j][i])
      && KeepsCoordinates(g, r)
  {
    var r: Grid := Explode(g, x, y, level);
    var ns := Neighbours(g, x, y);
    AdjacentCellsExact(x, y, |g[0]|, |g|);
    ExplodePointwise(g, x, y, level);
    forall p | p in ns ensures r[p.y][p.x] == Capture(g[p.y][p.x], g[y][x].owner, level) {
      assert r[p.y][p.x] == ExplodedCell(g, x, y, level, p.x, p.y);
    }
    forall j, i | 0 <= j < |g| && 0 <= i < |g[0]| && Pos(i, j) != Pos(x, y) && Pos(i, j) !in ns
      ensures r[j][i] == g[j][i]
    {
      assert r[j][i] == ExplodedCell(g, x, y, level, i, j);
    }
    ExplodeKeepsCoordinates(g, x, y, level);
  }

  /** An explosion step changes the molecule total by the number of
      neighbours minus the exploder's molecules. */
  lemma ExplodeTotal(g: Grid, x: int, y: int, level: int)
    requires IsRect(g) && InBounds(g, x, y)
    ensures Total(Explode(g, x, y, level)) == Total(g) - g[y][x].molecules + |Neighbours(g, x, y)|
  {
    var c := g[y][x];
    TotalUpdate(g, y, x, c.(owner := None, molecules := 0));
    SpreadTotal(Cleared(g, x, y), Neighbours(g, x, y), c.owner, level);
  }

  /** On a board at least 2 x 2, a cell that explodes holding capacity + 1
      molecules conserves the molecule total. */
  lemma ExplodeConserves(g: Grid, x: int, y: int, level: int)
    requires IsRect(g) && InBounds(g, x, y) && |g| >= 2 && |g[0]| >= 2
    requires g[y][x].molecules == CapacityAt(x, y, |g[0]|, |g|) + 1
    ensures Total(Explode(g, x, y, level)) == Total(g)
  {
    ExplodeTotal(g, x, y, level);
    CapacityAndNeighbours(x, y, |g[0]|, |g|);
  }

  /** Every cell over capacity belongs to m. */
  ghost predicate OverfullOwnedBy(g: Grid, m: Player)
    requires IsRect(g)
  {
    forall j, i :: 0 <= j < |g| && 0 <= i < |g[0]| && g[j][i].molecules > CapacityAt(i, j, |g[0]|, |g|) ==>
      g[j][i].owner == Some(m)
  }

  /** Going from g to r, every cell either keeps its owner or becomes unowned or m's. */
  ghost predicate OwnershipFlowsTo(g: Grid, r: Grid, m: Player)
    requires SameLayout(g, r)
  {
    forall j, i :: 0 <= j < |g| && 0 <= i < |g[0]| ==>
      r[j][i].owner == g[j][i].owner || r[j][i].owner == None || r[j][i].owner == Some(m)
  }

  lemma FlowsTransitive(g1: Grid, g2: Grid, g3: Grid, m: Player)
    requires SameLayout(g1, g2) && SameLayout(g2, g3)
    requires OwnershipFlowsTo(g1, g2, m) && OwnershipFlowsTo(g2, g3, m)
    ensures SameLayout(g1, g3) && OwnershipFlowsTo(g1, g3, m)
  {
  }

  /** While only m owns overfull cells, others can only lose cells: the cells
      a player other than m owns afterwards were already theirs. */
  lemma FlowsShrinksOthers(g: Grid, r: Grid, m: Player)
    requires SameLayout(g, r) && OwnershipFlowsTo(g, r, m)
    ensures forall p :: p != m ==> PositionsOwnedBy(r, p) <= PositionsOwnedBy(g, p)
    ensures forall p :: p != m ==> |PositionsOwnedBy(r, p)| <= |PositionsOwnedBy(g, p)|
  {
    forall p | p != m ensures PositionsOwnedBy(r, p) <= PositionsOwnedBy(g, p) {
      forall q | q in PositionsOwnedBy(r, p) ensures q in PositionsOwnedBy(g, p) {
        var j, i :| 0 <= j < |r| && 0 <= i < |r[j]| && r[j][i].owner == Some(p) && q == Pos(i, j);
        assert g[j][i].owner == Some(p);
      }
    }
    forall p | p != m ensures |PositionsOwnedBy(r, p)| <= |PositionsOwnedBy(g, p)| {
      SubsetCard(PositionsOwnedBy(r, p), PositionsOwnedBy(g, p));
    }
  }

  lemma {:induction false} SubsetCard<T>(a: set<T>, b: set<T>)
    requires a <= b
    ensures |a| <= |b|
    decreases |b|
  {
    if a != {} {
      var e :| e in a;
      SubsetCard(a - {e}, b - {e});
    }
  }

  /** The invariant of a resolution driven by the mover m, from g to r: every
      overfull cell of r is m's, every owner change went to m or to no one,
      and m, owning a cell of g, still owns one (on any board but 1 x 1). */
  ghost predicate ByMover(g: Grid, r: Grid, m: Player)
    requires SameLayout(g, r)
  {
    && OverfullOwnedBy(r, m)
    && OwnershipFlowsTo(g, r, m)
    && (Owns(g, m) && !(|g| == 1 && |g[0]| == 1) ==> Owns(r, m))
  }

  lemma ByMoverRefl(g: Grid, m: Player)
    requires IsRect(g) && OverfullOwnedBy(g, m)
    ensures SameLayout(g, g) && ByMover(g, g, m)
  {
  }

  lemma ByMoverTransitive(g1: Grid, g2: Grid, g3: Grid, m: Player)
    requires SameLayout(g1, g2) && SameLayout(g2, g3)
    requires ByMover(g1, g2, m) && ByMover(g2, g3, m)
    ensures SameLayout(g1, g3) && ByMover(g1, g3, m)
  {
    FlowsTransitive(g1, g2, g3, m);
  }

  lemma KeepsTransitive(g1: Grid, g2: Grid, g3: Grid)
    requires SameLayout(g1, g2) && SameLayout(g2, g3)
    requires KeepsCoordinates(g1, g2) && KeepsCoordinates(g2, g3)
    ensures SameLayout(g1, g3) && KeepsCoordinates(g1, g3)
  {
  }

  /** Exploding a cell of m on a board where only m owns overfull cells keeps
      that so, moves ownership only to m, and leaves m owning a cell when the
      board is not 1 x 1. */
  lemma ExplodeByOwner(g: Grid, x: int, y: int, level: int, m: Player)
    requires IsRect(g) && InBounds(g, x, y) && g[y][x].owner == Some(m)
    requires OverfullOwnedBy(g, m)
    ensures var r := Explode(g, x, y, level);
      && ByMover(g, r, m)
      && (!(|g| == 1 && |g[0]| == 1) ==> Owns(r, m))
  {
    ExplodeKeepsOverfullOwned(g, x, y, level, m);
    ExplodeFlows(g, x, y, level, m);
    if !(|g| == 1 && |g[0]| == 1) {
      ExplodeKeepsOwner(g, x, y, level, m);
    }
  }

  /** Off a 1 x 1 board the exploder has a neighbour, which becomes its owner's. */
  lemma ExplodeKeepsOwner(g: Grid, x: int, y: int, level: int, m: Player)
    requires IsRect(g) && InBounds(g, x, y) && g[y][x].owner == Some(m)
    requires !(|g| == 1 && |g[0]| == 1)
    ensures Owns(Explode(g, x, y, level), m)
  {
    var r: Grid := Explode(g, x, y, level);
    var q :=
      if x + 1 < |g[0]| then Pos(x + 1, y)
      else if x > 0 then Pos(x - 1, y)
      else if y + 1 < |g| then Pos(x, y + 1)
      else Pos(x, y - 1);
    assert InBounds(g, q.x, q.y) && Orthogonal(q, Pos(x, y));
    ExplodePointwise(g, x, y, level);
    assert r[q.y][q.x] == Capture(g[q.y][q.x], Some(m), level);
  }

  lemma ExplodeKeepsOverfullOwned(g: Grid, x: int, y: int, level: int, m: Player)
    requires IsRect(g) && InBounds(g, x, y) && g[y][x].owner == Some(m)
    requires OverfullOwnedBy(g, m)
    ensures OverfullOwnedBy(Explode(g, x, y, level), m)
  {
    var r: Grid := Explode(g, x, y, level);
    ExplodePointwise(g, x, y, level);
    forall j: int, i: int | 0 <= j < |r| && 0 <= i < |r[0]| && r[j][i].molecules > CapacityAt(i, j, |r[0]|, |r|)
      ensures r[j][i].owner == Some(m)
    {
      assert r[j][i] == ExplodedCell(g, x, y, level, i, j);
    }
  }

  lemma ExplodeFlows(g: Grid, x: int, y: int, level: int, m: Player)
    requires IsRect(g) && InBounds(g, x, y) && g[y][x].owner == Some(m)
    ensures OwnershipFlowsTo(g, Explode(g, x, y, level), m)
  {
    var r: Grid := Explode(g, x, y, level);
    ExplodePointwise(g, x, y, level);
    forall j: int, i: int | 0 <= j < |g| && 0 <= i < |g[0]|
      ensures r[j][i].owner == g[j][i].owner || r[j][i].owner == None || r[j][i].owner == Some(m)
    {
      assert r[j][i] == ExplodedCell(g, x, y, level, i, j);
    }
  }

  lemma ExplodeKeepsCoordinates(g: Grid, x: int, y: int, level: int)
    requires IsRect(g) && InBounds(g, x, y)
    ensures KeepsCoordinates(g, Explode(g, x, y, level))
  {
    var r: Grid := Explode(g, x, y, level);
    ExplodePointwise(g, x, y, level);
    forall j: int, i: int | 0 <= j < |g| && 0 <= i < |g[0]|
      ensures r[j][i].x == g[j][i].x && r[j][i].y == g[j][i].y
    {
      assert r[j][i] == ExplodedCell(g, x, y, level, i, j);
    }
  }

  /** While only the mover m owns overfull cells, resolution keeps that so,
      moves ownership only to m, and leaves m owning a cell if it owned one
      (on any board but 1 x 1). */
  lemma {:induction false} ResolveByMover(g: Grid, x: int, y: int, level: int, fuel: nat, m: Player)
    requires IsRect(g) && InBounds(g, x, y) && OverfullOwnedBy(g, m)
    ensures var r := Resolve(g, x, y, level, fuel);
      r.Some? ==> ByMover(g, r.value, m)
    decreases fuel, 0, 0
  {
    if !Overfull(g, x, y) {
      ByMoverRefl(g, m);
    } else if fuel == 0 {
      ResolveOutOfFuel(g, x, y, level);
    } else {
      ResolveStep(g, x, y, level, fuel);
      ExplodeThenResolveByMover(g, x, y, level, fuel - 1, m);
    }
  }

  /** One step of Resolve at an overfull cell with fuel left, unfolded. */
  lemma ResolveStep(g: Grid, x: int, y: int, level: int, fuel: nat)
    requires IsRect(g) && InBounds(g, x, y) && Overfull(g, x, y) && fuel > 0
    ensures Resolve(g, x, y, level, fuel) ==
              ResolveAll(Explode(g, x, y, level), Neighbours(g, x, y), 0, level + 1, fuel - 1)
  {
  }

  /** An overfull cell with no fuel left exhausts the resolution. */
  lemma ResolveOutOfFuel(g: Grid, x: int, y: int, level: int)
    requires IsRect(g) && InBounds(g, x, y) && Overfull(g, x, y)
    ensures Resolve(g, x, y, level, 0) == None
  {
  }

  /** An explosion of an overfull cell of m's, followed by the pass over its neighbours. */
  lemma {:induction false} ExplodeThenResolveByMover(g: Grid, x: int, y: int, level: int, fuel: nat, m: Player)
    requires IsRect(g) && InBounds(g, x, y) && OverfullOwnedBy(g, m) && Overfull(g, x, y)
    ensures var r := ResolveAll(Explode(g, x, y, level), Neighbours(g, x, y), 0, level + 1, fuel);
      r.Some? ==> ByMover(g, r.value, m)
    decreases fuel, 2, 0
  {
    var g1 := Explode(g, x, y, level);
    var ns := Neighbours(g, x, y);
    ExplodeByOwner(g, x, y, level, m);
    ResolveAllByMover(g1, ns, 0, level + 1, fuel, m);
    var r := ResolveAll(g1, ns, 0, level + 1, fuel);
    if r.Some? {
      ByMoverTransitive(g, g1, r.value, m);
    }
  }

  lemma {:induction false} ResolveAllByMover(g: Grid, ns: seq<Pos>, k: nat, level: int, fuel: nat, m: Player)
    requires IsRect(g) && k <= |ns| && AllInGrid(ns, |g[0]|, |g|)
    requires OverfullOwnedBy(g, m)
    ensures var r := ResolveAll(g, ns, k, level, fuel);
      r.Some? ==> ByMover(g, r.value, m)
    decreases fuel, 1, |ns| - k
  {
    if k == |ns| {
      ByMoverRefl(g, m);
    } else {
      var n := ns[k];
      if Overfull(g, n.x, n.y) {
        ResolveByMover(g, n.x, n.y, level, fuel, m);
        var next := Resolve(g, n.x, n.y, level, fuel);
        if next.Some? {
          ResolveAllByMover(next.value, ns, k + 1, level, fuel, m);
          var r := ResolveAll(next.value, ns, k + 1, level, fuel);
          if r.Some? {
            ByMoverTransitive(g, next.value, r.value, m);
          }
        }
      } else {
        ResolveAllByMover(g, ns, k + 1, level, fuel, m);
      }
    }
  }

  /** No cell moves during resolution: every cell keeps its x and y fields. */
  lemma {:induction false} ResolveKeepsCoordinates(g: Grid, x: int, y: int, level: int, fuel: nat)
    requires IsRect(g) && InBounds(g, x, y)
    ensures var r := Resolve(g, x, y, level, fuel);
      r.Some? ==> KeepsCoordinates(g, r.value)
    decreases fuel, 0, 0
  {
    if !Overfull(g, x, y) {
    } else if fuel == 0 {
      ResolveOutOfFuel(g, x, y, level);
    } else {
      ResolveStep(g, x, y, level, fuel);
      ExplodeThenResolveKeepsCoordinates(g, x, y, level, fuel - 1);
    }
  }

  lemma {:induction false} ExplodeThenResolveKeepsCoordinates(g: Grid, x: int, y: int, level: int, fuel: nat)
    requires IsRect(g) && InBounds(g, x, y)
    ensures var r := ResolveAll(Explode(g, x, y, level), Neighbours(g, x, y), 0, level + 1, fuel);
      r.Some? ==> KeepsCoordinates(g, r.value)
    decreases fuel, 2, 0
  {
    var g1 := Explode(g, x, y, level);
    ExplodeKeepsCoordinates(g, x, y, level);
    ResolveAllKeepsCoordinates(g1, Neighbours(g, x, y), 0, level + 1, fuel);
    var r := ResolveAll(g1, Neighbours(g, x, y), 0, level + 1, fuel);
    if r.Some? {
      KeepsTransitive(g, g1, r.value);
    }
  }

  lemma {:induction false} ResolveAllKeepsCoordinates(g: Grid, ns: seq<Pos>, k: nat, level: int, fuel: nat)
    requires IsRect(g) && k <= |ns| && AllInGrid(ns, |g[0]|, |g|)
    ensures var r := ResolveAll(g, ns, k, level, fuel);
      r.Some? ==> KeepsCoordinates(g, r.value)
    decreases fuel, 1, |ns| - k
  {
    if k < |ns| {
      var n := ns[k];
      if Overfull(g, n.x, n.y) {
        ResolveKeepsCoordinates(g, n.x, n.y, level, fuel);
        var next := Resolve(g, n.x, n.y, level, fuel);
        if next.Some? {
          ResolveAllKeepsCoordinates(next.value, ns, k + 1, level, fuel);
          var r := ResolveAll(next.value, ns, k + 1, level, fuel);
          if r.Some? {
            KeepsTransitive(g, next.value, r.value);
          }
        }
      } else {
        ResolveAllKeepsCoordinates(g, ns, k + 1, level, fuel);
      }
    }
  }

  /** Exploding an overfull cell keeps every cell well formed: the exploder
      becomes unowned and empty, and each neighbour takes the exploder's
      owner, which exists because the exploder held molecules, together with
      one more molecule. */
  lemma ExplodeKeepsWellFormed(g: Grid, x: int, y: int, level: int)
    requires IsRect(g) && InBounds(g, x, y) && Overfull(g, x, y)
    requires CellsWellFormed(g)
    ensures CellsWellFormed(Explode(g, x, y, level))
  {
    var r: Grid := Explode(g, x, y, level);
    assert g[y][x].owner.Some?;
    ExplodePointwise(g, x, y, level);
    forall j: int, i: int | 0 <= j < |r| && 0 <= i < |r[0]|
      ensures r[j][i].molecules >= 0 && (r[j][i].owner.None? <==> r[j][i].molecules == 0)
    {
      assert r[j][i] == ExplodedCell(g, x, y, level, i, j);
    }
  }

  /** Resolution keeps every cell well formed: no count goes negative, and a
      cell holds molecules exactly when it has an owner. */
  lemma {:induction false} ResolveKeepsWellFormed(g: Grid, x: int, y: int, level: int, fuel: nat)
    requires IsRect(g) && InBounds(g, x, y) && CellsWellFormed(g)
    ensures var r := Resolve(g, x, y, level, fuel);
      r.Some? ==> CellsWellFormed(r.value)
    decreases fuel, 0, 0
  {
    if !Overfull(g, x, y) {
    } else if fuel == 0 {
      ResolveOutOfFuel(g, x, y, level);
    } else {
      ResolveStep(g, x, y, level, fuel);
      ExplodeKeepsWellFormed(g, x, y, level);
      ResolveAllKeepsWellFormed(Explode(g, x, y, level), Neighbours(g, x, y), 0, level + 1, fuel - 1);
    }
  }

  lemma {:induction false} ResolveAllKeepsWellFormed(g: Grid, ns: seq<Pos>, k: nat, level: int, fuel: nat)
    requires IsRect(g) && k <= |ns| && AllInGrid(ns, |g[0]|, |g|) && CellsWellFormed(g)
    ensures var r := ResolveAll(g, ns, k, level, fuel);
      r.Some? ==> CellsWellFormed(r.value)
    decreases fuel, 1, |ns| - k
  {
    if k < |ns| {
      var n := ns[k];
      if Overfull(g, n.x, n.y) {
        ResolveKeepsWellFormed(g, n.x, n.y, level, fuel);
        var next := Resolve(g, n.x, n.y, level, fuel);
        if next.Some? {
          ResolveAllKeepsWellFormed(next.value, ns, k + 1, level, fuel);
        }
      } else {
        ResolveAllKeepsWellFormed(g, ns, k + 1, level, fuel);
      }
    }
  }

  /** More fuel never changes a resolution that already completed. */
  lemma {:induction false} ResolveFuelMonotone(g: Grid, x: int, y: int, level: int, fuel: nat, more: nat)
    requires IsRect(g) && InBounds(g, x, y) && fuel <= more
    ensures Resolve(g, x, y, level, fuel).Some? ==> Resolve(g, x, y, level, more) == Resolve(g, x, y, level, fuel)
    decreases fuel, 0, 0
  {
    if !Overfull(g, x, y) {
    } else if fuel == 0 {
      ResolveOutOfFuel(g, x, y, level);
    } else {
      ResolveStep(g, x, y, level, fuel);
      ResolveStep(g, x, y, level, more);
      ExplodeThenResolveFuelMonotone(g, x, y, level, fuel - 1, more - 1);
    }
  }

  lemma {:induction false} ExplodeThenResolveFuelMonotone(g: Grid, x: int, y: int, level: int, fuel: nat, more: nat)
    requires IsRect(g) && InBounds(g, x, y) && fuel <= more
    ensures var ns := Neighbours(g, x, y); var g1 := Explode(g, x, y, level);
      ResolveAll(g1, ns, 0, level + 1, fuel).Some? ==>
        ResolveAll(g1, ns, 0, level + 1, more) == ResolveAll(g1, ns, 0, level + 1, fuel)
    decreases fuel, 2, 0
  {
    ResolveAllFuelMonotone(Explode(g, x, y, level), Neighbours(g, x, y), 0, level + 1, fuel, more);
  }

  lemma {:induction false} ResolveAllFuelMonotone(g: Grid, ns: seq<Pos>, k: nat, level: int, fuel: nat, more: nat)
    requires IsRect(g) && k <= |ns| && AllInGrid(ns, |g[0]|, |g|)
    requires fuel <= more
    ensures ResolveAll(g, ns, k, level, fuel).Some? ==>
              ResolveAll(g, ns, k, level, more) == ResolveAll(g, ns, k, level, fuel)
    decreases fuel, 1, |ns| - k
  {
    if k < |ns| {
      var n := ns[k];
      if Overfull(g, n.x, n.y) {
        ResolveFuelMonotone(g, n.x, n.y, level, fuel, more);
        var next := Resolve(g, n.x, n.y, level, fuel);
        if next.Some? {
          ResolveAllFuelMonotone(next.value, ns, k + 1, level, fuel, more);
        }
      } else {
        ResolveAllFuelMonotone(g, ns, k + 1, level, fuel, more);
      }
    }
  }

  /** Every cell of g over capacity lies in S. */
  ghost predicate OverfullWithin(g: Grid, S: set<Pos>)
    requires IsRect(g)
  {
    forall j, i {:trigger g[j][i]} :: 0 <= j < |g| && 0 <= i < |g[0]| && g[j][i].molecules > CapacityAt(i, j, |g[0]|, |g|) ==>
      Pos(i, j) in S
  }

  /** The positions ns[k..] still to be visited by a pass over neighbours. */
  ghost function Pending(ns: seq<Pos>, k: nat): set<Pos>
    requires k <= |ns|
  {
    set t | k <= t < |ns| :: ns[t]
  }

  lemma OverfullWithinDrop(g: Grid, S: set<Pos>, x: int, y: int)
    requires IsRect(g) && InBounds(g, x, y) && !Overfull(g, x, y)
    requires OverfullWithin(g, S + {Pos(x, y)})
    ensures OverfullWithin(g, S)
  {
  }

  /** Exploding (x, y) leaves it empty, so what may still be over capacity
      lies in S or among its neighbours. */
  lemma ExplodeSettles(g: Grid, x: int, y: int, level: int, S: set<Pos>)
    requires IsRect(g) && InBounds(g, x, y)
    requires OverfullWithin(g, S + {Pos(x, y)})
    ensures OverfullWithin(Explode(g, x, y, level), S + Pending(Neighbours(g, x, y), 0))
  {
    var r: Grid := Explode(g, x, y, level);
    ExplodePointwise(g, x, y, level);
    forall j: int, i: int | 0 <= j < |r| && 0 <= i < |r[0]| && r[j][i].molecules > CapacityAt(i, j, |r[0]|, |r|)
      ensures Pos(i, j) in S + Pending(Neighbours(g, x, y), 0)
    {
      assert r[j][i] == ExplodedCell(g, x, y, level, i, j);
      ExplodedCellSettles(g, x, y, level, i, j, S);
      if Orthogonal(Pos(i, j), Pos(x, y)) {
        NeighbourPending(g, x, y, i, j);
      }
    }
  }

  lemma ExplodedCellSettles(g: Grid, x: int, y: int, level: int, i: int, j: int, S: set<Pos>)
    requires IsRect(g) && InBounds(g, x, y) && InBounds(g, i, j)
    requires OverfullWithin(g, S + {Pos(x, y)})
    requires ExplodedCell(g, x, y, level, i, j).molecules > CapacityAt(i, j, |g[0]|, |g|)
    ensures Pos(i, j) in S || Orthogonal(Pos(i, j), Pos(x, y))
  {
    if !Orthogonal(Pos(i, j), Pos(x, y)) {
      assert g[j][i].molecules > CapacityAt(i, j, |g[0]|, |g|);
    }
  }

  lemma NeighbourPending(g: Grid, x: int, y: int, i: int, j: int)
    requires IsRect(g) && InBounds(g, i, j) && Orthogonal(Pos(i, j), Pos(x, y))
    ensures Pos(i, j) in Pending(Neighbours(g, x, y), 0)
  {
    var ns := Neighbours(g, x, y);
    AdjacentCellsExact(x, y, |g[0]|, |g|);
    var t :| 0 <= t < |ns| && ns[t] == Pos(i, j);
    assert ns[t] in Pending(ns, 0);
  }

  /** A resolution started where at most (x, y) and the cells of S are over
      capacity ends, when it completes, with only cells of S over capacity. */
  lemma {:induction false} ResolveSettles(g: Grid, x: int, y: int, level: int, fuel: nat, S: set<Pos>)
    requires IsRect(g) && InBounds(g, x, y)
    requires OverfullWithin(g, S + {Pos(x, y)})
    ensures var r := Resolve(g, x, y, level, fuel);
      r.Some? ==> OverfullWithin(r.value, S)
    decreases fuel, 0, 0
  {
    if !Overfull(g, x, y) {
      OverfullWithinDrop(g, S, x, y);
      assert Resolve(g, x, y, level, fuel) == Some(g);
    } else if fuel == 0 {
      ResolveOutOfFuel(g, x, y, level);
    } else {
      ResolveStep(g, x, y, level, fuel);
      ExplodeThenResolveSettles(g, x, y, level, fuel - 1, S);
    }
  }

  lemma {:induction false} ExplodeThenResolveSettles(g: Grid, x: int, y: int, level: int, fuel: nat, S: set<Pos>)
    requires IsRect(g) && InBounds(g, x, y)
    requires OverfullWithin(g, S + {Pos(x, y)})
    ensures var r := ResolveAll(Explode(g, x, y, level), Neighbours(g, x, y), 0, level + 1, fuel);
      r.Some? ==> OverfullWithin(r.value, S)
    decreases fuel, 2, 0
  {
    ExplodeSettles(g, x, y, level, S);
    ResolveAllSettles(Explode(g, x, y, level), Neighbours(g, x, y), 0, level + 1, fuel, S);
  }

  lemma {:induction false} ResolveAllSettles(g: Grid, ns: seq<Pos>, k: nat, level: int, fuel: nat, S: set<Pos>)
    requires IsRect(g) && k <= |ns| && AllInGrid(ns, |g[0]|, |g|)
    requires OverfullWithin(g, S + Pending(ns, k))
    ensures var r := ResolveAll(g, ns, k, level, fuel);
      r.Some? ==> OverfullWithin(r.value, S)
    decreases fuel, 1, |ns| - k
  {
    if k == |ns| {
      assert S + Pending(ns, k) == S;
    } else {
      var n := ns[k];
      var rest := S + Pending(ns, k + 1);
      assert S + Pending(ns, k) == rest + {n};
      if Overfull(g, n.x, n.y) {
        ResolveSettles(g, n.x, n.y, level, fuel, rest);
        var next := Resolve(g, n.x, n.y, level, fuel);
        if next.Some? {
          ResolveAllSettles(next.value, ns, k + 1, level, fuel, S);
        }
      } else {
        OverfullWithinDrop(g, rest, n.x, n.y);
        ResolveAllSettles(g, ns, k + 1, level, fuel, S);
      }
    }
  }

  /** A board at rest but for the cell (x, y) is at rest after a completed
      resolution of (x, y). */
  lemma ResolveRests(g: Grid, x: int, y: int, level: int, fuel: nat)
    requires IsRect(g) && InBounds(g, x, y)
    requires forall j, i :: 0 <= j < |g| && 0 <= i < |g[0]| && (i, j) != (x, y) ==>
               g[j][i].molecules <= CapacityAt(i, j, |g[0]|, |g|)
    ensures var r := Resolve(g, x, y, level, fuel);
      r.Some? ==> Stable(r.value)
  {
    assert {} + {Pos(x, y)} == {Pos(x, y)};
    ResolveSettles(g, x, y, level, fuel, {});
  }

  /** Spreading over one more position of ns captures that position last. */
  lemma SpreadSnoc(g: Grid, ns: seq<Pos>, k: int, owner: Option<Player>, level: int)
    requires IsRect(g) && AllInGrid(ns, |g[0]|, |g|) && 0 <= k < |ns|
    ensures var h := Spread(g, ns[..k], owner, level); var p := ns[k];
      && InBounds(h, p.x, p.y)
      && Spread(g, ns[..k + 1], owner, level) == h[p.y := h[p.y][p.x := Capture(h[p.y][p.x], owner, level)]]
  {
    assert ns[k] in ns;
    assert ns[..k + 1][..k] == ns[..k];
  }

  /** One explosion step as the engine performs it: the exploding cell is
      cleared in a copy of the grid, then a loop overwrites each neighbour. */
  method ExplodeCell(g: Grid, x: int, y: int, level: int) returns (updatedGrid: Grid)
    requires IsRect(g) && InBounds(g, x, y)
    ensures updatedGrid == Explode(g, x, y, level)
  {
    var cell := g[y][x];
    updatedGrid := g[y := g[y][x := cell.(owner := None, molecules := 0)]];
    ghost var cleared := Cleared(g, x, y);
    var owner := cell.owner;
    var adjacent := GetAdjacentCells(x, y, |g[0]|, |g|);
    var k := 0;
    while k < |adjacent|
      invariant 0 <= k <= |adjacent|
      invariant updatedGrid == Spread(cleared, adjacent[..k], owner, level)
    {
      var n := adjacent[k];
      SpreadSnoc(cleared, adjacent, k, owner, level);
      var adjCell := updatedGrid[n.y][n.x];
      updatedGrid := updatedGrid[n.y := updatedGrid[n.y][n.x := Capture(adjCell, owner, level)]];
      k := k + 1;
    }
    assert adjacent[..k] == adjacent;
  }

  /** The resolver as the engine runs it on a game state: a cell within its
      capacity leaves the state alone; otherwise it explodes and its
      neighbours are resolved. Only the grid of the state changes. */
  method ResolveExplosions(s: GameState, x: int, y: int, level: int, fuel: nat)
    returns (r: Option<GameState>)
    requires IsRect(s.grid) && InBounds(s.grid, x, y)
    ensures r == WithGrid(s, Resolve(s.grid, x, y, level, fuel))
    decreases fuel, 1
  {
    var cell := s.grid[y][x];
    var capacity := CellCapacity(GetCellType(x, y, |s.grid[0]|, |s.grid|));
    if cell.molecules <= capacity {
      return Some(s);
    }
    if fuel == 0 {
      return None;
    }
    r := ExplodeAndResolve(s, x, y, level, fuel);
  }

  /** The overfull cell (x, y) explodes, then each neighbour is resolved in
      the grid the explosion left. */
  method ExplodeAndResolve(s: GameState, x: int, y: int, level: int, fuel: nat)
    returns (r: Option<GameState>)
    requires IsRect(s.grid) && InBounds(s.grid, x, y) && Overfull(s.grid, x, y) && fuel > 0
    ensures r == WithGrid(s, Resolve(s.grid, x, y, level, fuel))
    decreases fuel, 0
  {
    var updatedGrid := ExplodeCell(s.grid, x, y, level);
    var adjacent := GetAdjacentCells(x, y, |s.grid[0]|, |s.grid|);
    r := ResolveNeighbours(s.(grid := updatedGrid), adjacent, level + 1, fuel - 1);
    WithGridOverride(s, updatedGrid, ResolveAll(updatedGrid, adjacent, 0, level + 1, fuel - 1));
  }

  /** Replacing the grid before a grid replacement makes no difference. */
  lemma WithGridOverride(s: GameState, u: Grid, r: Option<Grid>)
    ensures WithGrid(s.(grid := u), r) == WithGrid(s, r)
  {
  }

  /** The loop over the neighbours ns of the cell that just exploded: each one
      now over capacity is resolved, threading the state through. */
  method ResolveNeighbours(s: GameState, ns: seq<Pos>, level: int, fuel: nat)
    returns (r: Option<GameState>)
    requires IsRect(s.grid)
    requires AllInGrid(ns, |s.grid[0]|, |s.grid|)
    ensures r == WithGrid(s, ResolveAll(s.grid, ns, 0, level, fuel))
    decreases fuel, 2
  {
    var width := |s.grid[0]|;
    var height := |s.grid|;
    var newState := s;
    var k := 0;
    while k < |ns|
      invariant 0 <= k <= |ns|
      invariant SameLayout(s.grid, newState.grid) && newState == s.(grid := newState.grid)
      invariant ResolveAll(newState.grid, ns, k, level, fuel) == ResolveAll(s.grid, ns, 0, level, fuel)
    {
      var n := ns[k];
      var c := newState.grid[n.y][n.x];
      if c.molecules > CellCapacity(GetCellType(n.x, n.y, width, height)) {
        var next := ResolveExplosions(newState, n.x, n.y, level, fuel);
        if next.None? {
          return None;
        }
        newState := next.value;
      }
      k := k + 1;
    }
    return Some(newState);
  }

}
