/** The rules engine of the React version of the game. A fleet is a flat list of
    `[x, y]` cells, ships only run along increasing x, and each player's guesses are
    marks on a board of its own. */
module ReactGame {
  import opened Rules

  /** A board cell: `""` (not guessed yet), `"H"` or `"M"`. */
  datatype Mark = Blank | Hit | Miss

  type Board = seq<seq<Mark>>

  /** A `GRID_SIZE` by `GRID_SIZE` board. */
  ghost predicate WellFormed(b: Board) {
    |b| == GRID_SIZE && forall i :: 0 <= i < |b| ==> |b[i]| == GRID_SIZE
  }

  /** `createEmptyBoard`: every row a fresh list of `GRID_SIZE` empty marks. */
  function CreateEmptyBoard(): (b: Board)
    ensures WellFormed(b)
    ensures forall i, j :: 0 <= i < GRID_SIZE && 0 <= j < GRID_SIZE ==> b[i][j] == Blank
  {
    seq(GRID_SIZE, _ => seq(GRID_SIZE, _ => Blank))
  }

  /** The mark at cell `c` of a well-formed board. */
  function At(b: Board, c: Cell): Mark
    requires WellFormed(b) && InGrid(c)
  {
    b[c.0][c.1]
  }

  /** The board with one cell overwritten. */
  function SetMark(b: Board, c: Cell, m: Mark): (r: Board)
    requires WellFormed(b) && InGrid(c)
    ensures WellFormed(r)
    ensures At(r, c) == m
    ensures forall d :: InGrid(d) && d != c ==> At(r, d) == At(b, d)
  {
    b[c.0 := b[c.0][c.1 := m]]
  }

  /** A placement list: every cell on the grid, no cell twice. */
  ghost predicate PlacementValid(cells: seq<Cell>) {
    && (forall i :: 0 <= i < |cells| ==> InGrid(cells[i]))
    && (forall i, j :: 0 <= i < j < |cells| ==> cells[i] != cells[j])
  }

  /** The `i`-th cell of a ship dropped at `(x, y)`: ships run along increasing x. */
  function RunCell(x: int, y: int, i: int): Cell {
    (x + i, y)
  }

  /** The cells `(x, y), (x + 1, y), …, (x + n - 1, y)` of a ship of length `n` dropped at `(x, y)`. */
  function RunCells(x: int, y: int, n: nat): (r: seq<Cell>)
    ensures |r| == n
    ensures forall i :: 0 <= i < n ==> r[i] == RunCell(x, y, i)
  {
    if n == 0 then [] else RunCells(x, y, n - 1) + [RunCell(x, y, n - 1)]
  }

  /** `opponentShips.filter(([sx, sy]) => board[sx][sy] !== "H")`: the cells not hit yet. */
  function Remaining(b: Board, cells: seq<Cell>): (r: seq<Cell>)
    requires WellFormed(b)
    requires forall i :: 0 <= i < |cells| ==> InGrid(cells[i])
    ensures |r| <= |cells|
    ensures forall c :: c in r ==> c in cells && At(b, c) != Hit
    ensures forall c :: c in cells && At(b, c) != Hit ==> c in r
  {
    if cells == [] then []
    else
      var rest := Remaining(b, cells[1..]);
      if At(b, cells[0]) != Hit then [cells[0]] + rest else rest
  }

  /** No cell remains exactly when every cell of the list carries a hit mark. */
  lemma {:induction false} NoneRemainingIff(b: Board, cells: seq<Cell>)
    requires WellFormed(b)
    requires forall i :: 0 <= i < |cells| ==> InGrid(cells[i])
    ensures |Remaining(b, cells)| == 0 <==> forall c :: c in cells ==> At(b, c) == Hit
  {
    if cells != [] {
      NoneRemainingIff(b, cells[1..]);
      assert forall c :: c in cells <==> c == cells[0] || c in cells[1..];
    }
  }

  /** Marking a hit on a not yet hit cell of a duplicate-free list leaves exactly one
      cell fewer remaining. */
  lemma {:induction false} HitShrinksRemaining(b: Board, cells: seq<Cell>, c: Cell)
    requires WellFormed(b) && PlacementValid(cells)
    requires c in cells && At(b, c) != Hit
    ensures |Remaining(SetMark(b, c, Hit), cells)| == |Remaining(b, cells)| - 1
  {
    var tail := cells[1..];
    assert PlacementValid(tail) by {
      assert forall i :: 0 <= i < |tail| ==> tail[i] == cells[i + 1];
    }
    if cells[0] == c {
      assert c !in tail by {
        forall i | 0 <= i < |tail|
          ensures tail[i] != c
        {
          assert cells[0] != cells[i + 1];
        }
      }
      RemainingUnchanged(b, tail, c, Hit);
    } else {
      assert c in tail;
      HitShrinksRemaining(b, tail, c);
    }
  }

  /** Marking a cell outside the list, with any mark, changes nothing about what
      remains of it; in particular a miss leaves the opponent's remaining cells as they were. */
  lemma {:induction false} RemainingUnchanged(b: Board, cells: seq<Cell>, c: Cell, m: Mark)
    requires WellFormed(b) && InGrid(c)
    requires forall i :: 0 <= i < |cells| ==> InGrid(cells[i])
    requires c !in cells
    ensures Remaining(SetMark(b, c, m), cells) == Remaining(b, cells)
  {
    if cells != [] {
      RemainingUnchanged(b, cells[1..], c, m);
    }
  }

  /** The overlap test of `handleDrop`: some cell of the run is already placed. */
  ghost predicate Clashes(cells: seq<Cell>, x: int, y: int, length: nat) {
    exists i :: 0 <= i < length && RunCell(x, y, i) in cells
  }

  /** The loop that tests each cell of the run against the placed cells, stopping at
      the first one taken. */
  method FindClash(cells: seq<Cell>, x: int, y: int, length: nat) returns (clash: bool)
    ensures clash <==> Clashes(cells, x, y, length)
  {
    for i := 0 to length
      invariant forall j :: 0 <= j < i ==> RunCell(x, y, j) !in cells
    {
      if (x + i, y) in cells {
        assert RunCell(x, y, i) in cells;
        return true;
      }
    }
    return false;
  }

  /** Appending the run of a ship that fits and clashes with nothing keeps a placement list valid. */
  lemma DropKeepsPlacementValid(cells: seq<Cell>, x: int, y: int, length: nat)
    requires PlacementValid(cells) && InGrid((x, y))
    requires x + length <= GRID_SIZE && !Clashes(cells, x, y, length)
    ensures PlacementValid(cells + RunCells(x, y, length))
  {
    var run := RunCells(x, y, length);
    var r := cells + run;
    forall i, j | 0 <= i < j < |r|
      ensures r[i] != r[j]
    {
      if j >= |cells| {
        assert r[j] == RunCell(x, y, j - |cells|);
        if i >= |cells| {
          assert r[i] == RunCell(x, y, i - |cells|);
        } else {
          assert r[i] in cells;
        }
      }
    }
  }

  class Game {
    /** `playerBoards[p]` holds the marks of the guesses player `p` made. */
    var playerBoards: seq<Board>
    /** `shipPlacements[p]` is the flat list of cells of player `p`'s ships. */
    var shipPlacements: seq<seq<Cell>>
    var currentPlayer: Player
    var phase: Phase
    /** The length of the ship chosen with a size button, if any. */
    var activeShip: Option<nat>

    ghost predicate Valid()
      reads this
    {
      && |playerBoards| == 2 && WellFormed(playerBoards[0]) && WellFormed(playerBoards[1])
      && |shipPlacements| == 2 && PlacementValid(shipPlacements[0]) && PlacementValid(shipPlacements[1])
    }

    /** The state of a new game: what the `useState` initial values and `resetGame` set. */
    ghost predicate Initial()
      reads this
    {
      && playerBoards == [CreateEmptyBoard(), CreateEmptyBoard()]
      && shipPlacements == [[], []]
      && currentPlayer == 0 && phase == Placement && activeShip == None
    }

    constructor ()
      ensures Valid() && Initial()
    {
      playerBoards := [CreateEmptyBoard(), CreateEmptyBoard()];
      shipPlacements := [[], []];
      currentPlayer := 0;
      phase := Placement;
      activeShip := None;
    }

    /** A size button: the ship of that length becomes the active one. */
    method SelectShip(size: nat)
      requires Valid() && size in SHIP_SIZES
      modifies this
      ensures Valid()
      ensures activeShip == Some(size)
      ensures playerBoards == old(playerBoards) && shipPlacements == old(shipPlacements)
      ensures currentPlayer == old(currentPlayer) && phase == old(phase)
    {
      activeShip := Some(size);
    }

    /** A drop of the active ship with its first cell at `(x, y)`. */
    method HandleDrop(x: int, y: int)
      requires Valid() && InGrid((x, y))
      modifies this
      ensures Valid()
      ensures old(activeShip).None? ==> unchanged(this)
      ensures old(activeShip).Some? ==>
        var length := old(activeShip).value;
        var p := old(currentPlayer);
        // only the far end along x is checked against the grid, then every cell for overlap
        if x + length > GRID_SIZE || Clashes(old(shipPlacements[p]), x, y, length) then unchanged(this)
        else
          && shipPlacements == old(shipPlacements)[p := old(shipPlacements[p]) + RunCells(x, y, length)]
          && activeShip == None
          && playerBoards == old(playerBoards) && currentPlayer == p && phase == old(phase)
    {
      if activeShip.None? {
        return;
      }
      var length := activeShip.value;
      if x + length > GRID_SIZE {
        return;
      }
      var cells := shipPlacements[currentPlayer];
      var clash := FindClash(cells, x, y, length);
      if clash {
        return;
      }
      DropKeepsPlacementValid(cells, x, y, length);
      for i := 0 to length
        invariant cells == shipPlacements[currentPlayer] + RunCells(x, y, i)
      {
        cells := cells + [RunCell(x, y, i)];
      }
      shipPlacements := shipPlacements[currentPlayer := cells];
      activeShip := None;
    }

    /** The current player fires at cell `(x, y)`. The handler itself checks neither the
        phase nor the turn. */
    method HandleGuess(x: int, y: int)
      requires Valid() && InGrid((x, y))
      modifies this
      ensures Valid()
      ensures
        var p := old(currentPlayer);
        var opponent := Opponent(p);
        if At(old(playerBoards[p]), (x, y)) != Blank then unchanged(this)
        else
          var hit := (x, y) in shipPlacements[opponent];
          var board := SetMark(old(playerBoards[p]), (x, y), if hit then Hit else Miss);
          && playerBoards == old(playerBoards)[p := board]
          && shipPlacements == old(shipPlacements) && activeShip == old(activeShip)
          // a hit keeps the turn, a miss passes it
          && currentPlayer == (if hit then p else opponent)
          // a hit ends the game exactly when no opponent cell is left un-hit
          && (hit ==> phase == if forall c :: c in shipPlacements[opponent] ==> At(board, c) == Hit
                               then GameOver else old(phase))
          && (!hit ==> phase == old(phase))
    {
      var opponent := Opponent(currentPlayer);
      var opponentShips := shipPlacements[opponent];
      if playerBoards[currentPlayer][x][y] != Blank {
        return;
      }
      var isHit := (x, y) in opponentShips;
      var board := SetMark(playerBoards[currentPlayer], (x, y), if isHit then Hit else Miss);
      playerBoards := playerBoards[currentPlayer := board];
      if isHit {
        var remainingShips := Remaining(board, opponentShips);
        NoneRemainingIff(board, opponentShips);
        if |remainingShips| == 0 {
          phase := GameOver;
        }
      } else {
        currentPlayer := opponent;
      }
    }

    /** The Done button: only a player with all 17 cells placed can hand over. */
    method DonePlacing()
      requires Valid()
      modifies this
      ensures Valid()
      ensures |old(shipPlacements[currentPlayer])| != TotalShipCells() ==> unchanged(this)
      ensures |old(shipPlacements[currentPlayer])| == TotalShipCells() ==>
        && currentPlayer == Opponent(old(currentPlayer))
        && phase == (if old(currentPlayer) == 0 then old(phase) else Gameplay)
        && playerBoards == old(playerBoards) && shipPlacements == old(shipPlacements)
        && activeShip == old(activeShip)
    {
      if |shipPlacements[currentPlayer]| != TotalShipCells() {
        return;
      }
      if currentPlayer == 0 {
        currentPlayer := 1;
      } else {
        phase := Gameplay;
        currentPlayer := 0;
      }
    }

    /** The New Game button. */
    method ResetGame()
      modifies this
      ensures Valid() && Initial()
    {
      playerBoards := [CreateEmptyBoard(), CreateEmptyBoard()];
      shipPlacements := [[], []];
      currentPlayer := 0;
      phase := Placement;
      activeShip := None;
    }
  }
}
