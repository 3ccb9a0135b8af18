/** A move: placing one molecule, resolving the explosions it sets off, and
    deciding between a win and passing the turn; and the state a new game
    starts from. */
module Placement {
  import opened Models
  import opened Board
  import opened Cascade

  /** What a placement demands of its caller: a finished game is returned
      before anything is read; otherwise the target lies on the (rectangular)
      board and the turn index names a player. */
  predicate Placeable(s: GameState, x: int, y: int) {
    s.isGameOver || (IsRect(s.grid) && InBounds(s.grid, x, y) && 0 <= s.currentPlayerIndex < |s.players|)
  }

  /** The player whose turn it is. */
  function Mover(s: GameState): Player
    requires 0 <= s.currentPlayerIndex < |s.players|
  {
    s.players[s.currentPlayerIndex]
  }

  /** A placement is accepted while the game runs, on an empty cell or one of the mover's own. */
  predicate IsLegal(s: GameState, x: int, y: int)
    requires Placeable(s, x, y)
  {
    && !s.isGameOver
    && (s.grid[y][x].owner.None? || s.grid[y][x].owner == Some(Mover(s)))
  }

  /** The state after a legal placement and before resolution: the target cell
      gains a molecule and the mover as owner, and the mover's turn count rises. */
  function Placed(s: GameState, x: int, y: int): (t: GameState)
    requires Placeable(s, x, y) && IsLegal(s, x, y)
    ensures SameLayout(s.grid, t.grid) && InBounds(t.grid, x, y)
  {
    var m := Mover(s);
    var cell := s.grid[y][x];
    s.(grid := s.grid[y := s.grid[y][x := cell.(owner := Some(m), molecules := cell.molecules + 1)]],
       playerTurns := s.playerTurns[m.id := TurnsOf(s.playerTurns, m.id) + 1])
  }

  /** p has taken a turn and owns a cell. */
  predicate IsActive(g: Grid, turns: map<int, int>, p: Player) {
    TurnsOf(turns, p.id) > 0 && Owns(g, p)
  }

  /** The active players of ps, in list order. */
  function ActiveAmong(ps: seq<Player>, g: Grid, turns: map<int, int>): (r: seq<Player>)
    ensures |r| <= |ps|
  {
    if ps == [] then []
    else (if IsActive(g, turns, ps[0]) then [ps[0]] else []) + ActiveAmong(ps[1..], g, turns)
  }

  /** Every player of ps has taken at least one turn. */
  predicate AllPlayed(ps: seq<Player>, turns: map<int, int>) {
    forall i :: 0 <= i < |ps| ==> TurnsOf(turns, ps[i].id) > 0
  }

  /** The entry at index i of ps is the one and only active entry. */
  ghost predicate SoleActiveAt(ps: seq<Player>, g: Grid, turns: map<int, int>, i: int) {
    && 0 <= i < |ps|
    && IsActive(g, turns, ps[i])
    && forall j :: 0 <= j < |ps| && j != i ==> !IsActive(g, turns, ps[j])
  }

  /** The turn rule applied to the resolved state next of a move made in s:
      the single active player wins once everybody has played; otherwise the
      turn passes to the next index, whatever that player owns. */
  function Conclude(s: GameState, next: GameState): GameState
    requires |s.players| > 0
  {
    var active := ActiveAmong(next.players, next.grid, next.playerTurns);
    if AllPlayed(next.players, next.playerTurns) && |active| == 1 then
      next.(isGameOver := true, winner := Some(active[0]))
    else
      next.(currentPlayerIndex := (s.currentPlayerIndex + 1) % |s.players|)
  }

  /** The resolved state of a legal placement, or None when the fuel runs out. */
  function Settle(s: GameState, x: int, y: int, fuel: nat): Option<GameState>
    requires Placeable(s, x, y) && IsLegal(s, x, y)
  {
    var p := Placed(s, x, y);
    WithGrid(p, Resolve(p.grid, x, y, 0, fuel))
  }

  /** A whole move: an illegal one returns s itself; a legal one places,
      resolves from explosion level 0 and applies the turn rule. None only
      when the cascade runs out of fuel. */
  function Place(s: GameState, x: int, y: int, fuel: nat): Option<GameState>
    requires Placeable(s, x, y)
  {
    if !IsLegal(s, x, y) then Some(s)
    else
      var next := Settle(s, x, y, fuel);
      if next.None? then None else Some(Conclude(s, next.value))
  }

  method PlaceMolecule(s: GameState, x: int, y: int, fuel: nat) returns (r: Option<GameState>)
    requires Placeable(s, x, y)
    ensures r == Place(s, x, y, fuel)
  {
    if s.isGameOver {
      return Some(s);
    }
    var cell := s.grid[y][x];
    var currentPlayer := s.players[s.currentPlayerIndex];
    if cell.owner.Some? && cell.owner != Some(currentPlayer) {
      return Some(s);
    }
    var updatedGrid := s.grid[y := s.grid[y][x := cell.(owner := Some(currentPlayer), molecules := cell.molecules + 1)]];
    var updatedTurns := s.playerTurns[currentPlayer.id := TurnsOf(s.playerTurns, currentPlayer.id) + 1];
    var placed := s.(grid := updatedGrid, playerTurns := updatedTurns);
    assert placed == Placed(s, x, y);
    var resolved := ResolveExplosions(placed, x, y, 0, fuel);
    if resolved.None? {
      return None;
    }
    var nextState := resolved.value;
    var activePlayers := ActiveAmong(nextState.players, nextState.grid, nextState.playerTurns);
    var allPlayed := AllPlayed(nextState.players, nextState.playerTurns);
    if allPlayed && |activePlayers| == 1 {
      r := Some(nextState.(isGameOver := true, winner := Some(activePlayers[0])));
    } else {
      r := Some(nextState.(currentPlayerIndex := (s.currentPlayerIndex + 1) % |s.players|));
    }
  }

  /** Before resolution, a legal placement changes exactly the target cell (new
      owner the mover, one more molecule, nothing else) and the mover's turn
      count (one more); every other cell, every other count and the rest of
      the state stay as they were. */
  lemma PlacedCells(s: GameState, x: int, y: int)
    requires Placeable(s, x, y) && IsLegal(s, x, y)
    ensures var t := Placed(s, x, y); var m := Mover(s);
      && t.grid[y][x] == s.grid[y][x].(owner := Some(m), molecules := s.grid[y][x].molecules + 1)
      && (forall j, i :: 0 <= j < |s.grid| && 0 <= i < |s.grid[0]| && (i, j) != (x, y) ==> t.grid[j][i] == s.grid[j][i])
      && TurnsOf(t.playerTurns, m.id) == TurnsOf(s.playerTurns, m.id) + 1
      && (forall id :: id != m.id ==> TurnsOf(t.playerTurns, id) == TurnsOf(s.playerTurns, id))
      && t.players == s.players && t.currentPlayerIndex == s.currentPlayerIndex
      && t.isGameOver == s.isGameOver && t.winner == s.winner
  {
  }

  /** A move returns its input state exactly when it is illegal: a legal one
      always raises the mover's turn count, or runs out of fuel. */
  lemma PlaceUnchanged(s: GameState, x: int, y: int, fuel: nat)
    requires Placeable(s, x, y)
    ensures Place(s, x, y, fuel) == Some(s) <==> !IsLegal(s, x, y)
  {
  }

  /** Ownership only flows to the mover. On a board where only the mover owns
      cells over capacity (a board at rest, say), after a legal move with a
      completed cascade the mover owns a cell (on any board but 1 x 1), and
      every cell another player owns was already theirs, so no other player
      gains cells. */
  lemma PlaceOwnership(s: GameState, x: int, y: int, fuel: nat)
    requires Placeable(s, x, y) && IsLegal(s, x, y)
    requires OverfullOwnedBy(s.grid, Mover(s))
    ensures var r := Place(s, x, y, fuel); var m := Mover(s);
      r.Some? ==>
        && SameLayout(s.grid, r.value.grid)
        && (!(|s.grid| == 1 && |s.grid[0]| == 1) ==> Owns(r.value.grid, m))
        && (forall p :: p != m ==> PositionsOwnedBy(r.value.grid, p) <= PositionsOwnedBy(s.grid, p))
        && (forall p :: p != m ==> |PositionsOwnedBy(r.value.grid, p)| <= |PositionsOwnedBy(s.grid, p)|)
  {
    var m := Mover(s);
    var g := s.grid;
    var p := Placed(s, x, y);
    PlacedCells(s, x, y);
    assert OverfullOwnedBy(p.grid, m);
    assert OwnershipFlowsTo(g, p.grid, m);
    assert Owns(p.grid, m) by {
      assert p.grid[y][x].owner == Some(m);
    }
    ResolveByMover(p.grid, x, y, 0, fuel, m);
    var r := Resolve(p.grid, x, y, 0, fuel);
    if r.Some? {
      FlowsTransitive(g, p.grid, r.value, m);
      FlowsShrinksOthers(g, r.value, m);
    }
  }

  /** The outcome of a legal move whose cascade completes, over the resolved
      state next: the game ends exactly when every player has a positive turn
      count and exactly one entry of the player list is active, and then that
      player wins; otherwise the turn passes to index (old + 1) mod n with no
      player skipped. Grid, turn counts and players are those of next. */
  lemma PlaceOutcome(s: GameState, x: int, y: int, fuel: nat)
    requires Placeable(s, x, y) && IsLegal(s, x, y)
    requires Settle(s, x, y, fuel).Some?
    ensures var next := Settle(s, x, y, fuel).value; var t := Place(s, x, y, fuel).value;
      && t.grid == next.grid && t.playerTurns == next.playerTurns && t.players == s.players
      && (t.isGameOver <==>
            AllPlayed(s.players, next.playerTurns) && exists i :: SoleActiveAt(s.players, next.grid, next.playerTurns, i))
      && (forall i :: AllPlayed(s.players, next.playerTurns) && SoleActiveAt(s.players, next.grid, next.playerTurns, i) ==>
            t.winner == Some(s.players[i]))
      && (!t.isGameOver ==> t.currentPlayerIndex == (s.currentPlayerIndex + 1) % |s.players| && t.winner == s.winner)
  {
    var next := Settle(s, x, y, fuel).value;
    assert next.players == s.players && next.isGameOver == s.isGameOver && next.winner == s.winner;
    SoleActive(s.players, next.grid, next.playerTurns);
  }

  /** What every state of a game satisfies: a rectangular board at rest whose
      cells are well formed (no negative count, molecules exactly on owned
      cells) and a turn index that names a player. */
  ghost predicate Consistent(s: GameState) {
    IsRect(s.grid) && Stable(s.grid) && CellsWellFormed(s.grid) && 0 <= s.currentPlayerIndex < |s.players|
  }

  /** A legal placement keeps every cell well formed: the target gains the
      mover as owner together with a molecule. */
  lemma PlacedKeepsWellFormed(s: GameState, x: int, y: int)
    requires Placeable(s, x, y) && IsLegal(s, x, y) && CellsWellFormed(s.grid)
    ensures CellsWellFormed(Placed(s, x, y).grid)
  {
  }

  /** A move on a board cell of a consistent state can always be made, and once
      its cascade completes the new state is consistent again: the board is at
      rest, its cells are well formed, it keeps its dimensions and the players,
      and the turn index stays in range. */
  lemma PlaceKeepsConsistent(s: GameState, x: int, y: int, fuel: nat)
    requires Consistent(s) && InBounds(s.grid, x, y)
    ensures Placeable(s, x, y)
    ensures var r := Place(s, x, y, fuel);
      r.Some? ==> SameLayout(s.grid, r.value.grid) && r.value.players == s.players && Consistent(r.value)
  {
    if IsLegal(s, x, y) {
      var p := Placed(s, x, y);
      PlacedCells(s, x, y);
      ResolveRests(p.grid, x, y, 0, fuel);
      PlacedKeepsWellFormed(s, x, y);
      ResolveKeepsWellFormed(p.grid, x, y, 0, fuel);
    }
  }

  /** In a consistent state no cell is over capacity, so the ownership
      lemma's hypothesis holds for every mover: together with
      PlaceKeepsConsistent and InitialState, PlaceOwnership applies to every
      move of a game. */
  lemma ConsistentOverfullOwned(s: GameState, m: Player)
    requires Consistent(s)
    ensures OverfullOwnedBy(s.grid, m)
  {
  }

  lemma {:induction false} NoneActive(ps: seq<Player>, g: Grid, turns: map<int, int>)
    ensures |ActiveAmong(ps, g, turns)| == 0 <==> forall j :: 0 <= j < |ps| ==> !IsActive(g, turns, ps[j])
  {
    if ps != [] {
      NoneActive(ps[1..], g, turns);
      assert forall j :: 0 < j < |ps| ==> ps[j] == ps[1..][j - 1];
    }
  }

  /** Exactly one active entry in ps is exactly a filter result of length one,
      and the filter then yields that player. */
  lemma {:induction false} SoleActive(ps: seq<Player>, g: Grid, turns: map<int, int>)
    ensures |ActiveAmong(ps, g, turns)| == 1 <==> exists i :: SoleActiveAt(ps, g, turns, i)
    ensures forall i :: SoleActiveAt(ps, g, turns, i) ==> ActiveAmong(ps, g, turns) == [ps[i]]
  {
    if ps != [] {
      var t := ps[1..];
      SoleActive(t, g, turns);
      NoneActive(t, g, turns);
      assert forall j :: 0 < j < |ps| ==> ps[j] == t[j - 1];
      if IsActive(g, turns, ps[0]) {
        forall i | 0 < i < |ps| ensures !SoleActiveAt(ps, g, turns, i) {
          assert IsActive(g, turns, ps[0]);
        }
        if |ActiveAmong(t, g, turns)| == 0 {
          assert SoleActiveAt(ps, g, turns, 0);
        }
      } else {
        forall i | 0 < i < |ps| ensures SoleActiveAt(ps, g, turns, i) <==> SoleActiveAt(t, g, turns, i - 1) {
          if SoleActiveAt(t, g, turns, i - 1) {
            forall j | 0 <= j < |ps| && j != i ensures !IsActive(g, turns, ps[j]) {
              if j > 0 {
                assert ps[j] == t[j - 1];
              }
            }
          }
        }
        if exists i :: SoleActiveAt(t, g, turns, i) {
          var i :| SoleActiveAt(t, g, turns, i);
          assert SoleActiveAt(ps, g, turns, i + 1);
        }
      }
    }
  }

  /** The state a new game starts from: an empty board, players 0 .. n-1,
      player 0 to move, and every player's turn count at 0. */
  function CreateInitialState(width: nat, height: nat, playerCount: nat): GameState {
    var ids := seq(playerCount, i => i);
    GameState(
      CreateInitialGrid(width, height),
      seq(playerCount, i => Player(i)),
      0,
      false,
      None,
      map id | id in ids :: 0)
  }

  /** A new game is running, has nobody active and no winner, lets player 0 move
      first, and its board is at rest, so the first move satisfies the
      ownership lemma's hypothesis for any mover. */
  lemma InitialState(width: nat, height: nat, playerCount: nat)
    ensures var s := CreateInitialState(width, height, playerCount);
      && !s.isGameOver && s.winner == None && s.currentPlayerIndex == 0
      && |s.players| == playerCount
      && (forall i :: 0 <= i < playerCount ==> s.players[i].id == i && TurnsOf(s.playerTurns, i) == 0)
      && (forall p :: !IsActive(s.grid, s.playerTurns, p))
      && (height > 0 ==> IsRect(s.grid) && Stable(s.grid) && forall m :: OverfullOwnedBy(s.grid, m))
      && (height > 0 && playerCount > 0 ==> Consistent(s))
      && (height > 0 && width > 0 && playerCount > 0 ==> forall x, y :: InGrid(x, y, width, height) ==> Placeable(s, x, y) && IsLegal(s, x, y))
  {
    InitialGridAtRest(width, height);
  }
}
