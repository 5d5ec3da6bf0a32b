# Classroom Battleship — verified model of the rules engine

This project models the game rules of a two-player Battleship game on a 10×10 grid
with the fleet `[5, 4, 3, 3, 2]` (17 ship cells). The game exists in two versions,
and each is modelled on its own terms:

- `script.js`, the vanilla-JavaScript version (module `Classic`, file `classic.dfy`).
  Module-level variables hold the per-player lists `shipSelections`, `placedShips` and
  `guesses`, plus `currentPlayer`, `phase` and the drag state `draggingSize` /
  `draggingVertical`. They are the fields of the class `Classic.Game`, and every
  handler is a method that reassigns them. During placement a ship is dragged from the
  selection and dropped on the grid. It is accepted when it stays inside the grid and
  touches no ship of the same player, and its size then leaves the selection. Clicking
  a placed ship removes it and gives its size back. The Done button hands placement
  from player 1 to player 2, then starts the game, and after game over it restarts.
  A guess records whether it hit. A hit keeps the turn and a miss passes it. The game
  ends when the player holding the turn has at least 17 hits.
- `app.jsx`, the React version (module `ReactGame`, file `react_game.dfy`). A fleet is
  a flat list of cells, and ships only run along increasing x. Each player's guesses are
  `"H"`/`"M"` marks on a board of its own. `donePlacing` wants exactly 17 placed cells.
  A hit wins when no opponent cell is left without an `"H"` mark. The `useState`
  variables are the fields of `ReactGame.Game`.

`rules.dfy` (module `Rules`) holds what both versions share: the constants, players,
phases, and `Sum` with its permutation lemma.

What is proved, in the words of the game:

- The placement check of `placeShip` accepts a ship dropped on the grid exactly when it
  lies inside the grid and shares no cell with the player's ships. So every fleet stays
  inside the grid and free of overlaps (`Classic.FleetValid`, part of `Game.Valid`).
- For each player, the sizes of the placed ships plus the sizes still to place are
  exactly the fleet `[5, 4, 3, 3, 2]`, counted with multiplicity (`Classic.Accounted`).
  Reset establishes this, and placing or removing a ship preserves it.
- Guess logs never repeat a coordinate, and each recorded hit flag tells the truth
  about the opponent's fleet. After placement both fleets are complete, so the source's
  end test (`totalHits >= 17`, on whoever holds the turn after the guess) fires
  exactly when the guess hits the last unhit cell of the opponent's fleet
  (`Classic.WinIffSunk`, `Classic.Game.MakeGuess`).
- In the React version the win test (`remainingShips.length === 0`) is the same as
  "every opponent cell is marked H". Each new hit on an opponent cell lowers the number
  of remaining cells by exactly one. A drop keeps each placement list inside the grid
  and free of repeated cells.

## Model

Players are the indices 0 and 1 of the code. The rows below call them "player 1" (index 0)
and "player 2" (index 1), as the game's messages do.

| member | source | states |
|---|---|---|
| Rules.Opponent | script.js:223 | the opponent `(p + 1) % 2` is the other player, `1 - p` |
| Rules.TotalShipCells | script.js:252 | the sum of the ship sizes is 17 |
| Classic.CoversIff | script.js:138-141 | a ship covers exactly the cells `(x + i, y)` (vertical) or `(x, y + i)` (horizontal) for `0 <= i < size` |
| Classic.PlaceableIff | script.js:150-160 | for a ship dropped on a grid cell, the bounds test and the cell-by-cell overlap test accept it exactly when it lies inside the grid and is disjoint from every ship already placed |
| Classic.PlaceKeepsFleetValid | script.js:162-167 | appending a ship that passed the check keeps the fleet inside the grid and overlap-free |
| Classic.RemoveKeepsFleetValid | script.js:182 | filtering one ship out keeps the fleet inside the grid and overlap-free |
| Classic.IsOccupied | script.js:136-145 | the nested scan returns true exactly when some ship of the list covers `(x, y)` |
| Classic.FitsAt | script.js:150-160 | the vertical and horizontal branches reject exactly the ships that pass the far grid edge or hit an occupied cell; for a drop on the grid this means "inside the grid and disjoint from every placed ship" |
| Classic.IndexOf | script.js:170 | `indexOf` gives -1 exactly when the value is absent, and otherwise the first position holding it |
| Classic.RemoveFirst | script.js:170-171 | `indexOf` plus `splice(idx, 1)` removes one occurrence of the size from the selection (as multisets), and changes nothing when the size is absent |
| Classic.AccountedIff | script.js:18-19 | the per-size count invariant is the multiset equation "placed sizes + selection = `SHIP_SIZES`" |
| Classic.PlaceKeepsAccount | script.js:162-171 | placing a ship whose size comes from the selection, and removing that size from it, keeps the account |
| Classic.RemoveKeepsAccount | script.js:181-183 | removing a ship and pushing its size back onto the selection keeps the account |
| Classic.SelectionInFleet | script.js:128-133 | every size offered in the selection is one of the fleet's sizes |
| Classic.FleetCellsCount | script.js:252 | an overlap-free fleet covers exactly as many cells as its sizes add up to |
| Classic.HitCellsCount | script.js:251 | in a valid guess log, the number of guesses with `hit` set equals the number of distinct hit cells, and those cells all belong to the opponent's fleet |
| Classic.CompleteFleetCells | script.js:252 | a complete, overlap-free fleet covers exactly 17 cells |
| Classic.WinIffSunk | script.js:250-256 | against a complete fleet a guess log never exceeds 17 hits, and it reaches 17 exactly when every cell of the fleet has been hit |
| Classic.GuessLogAppend | script.js:221-239 | recording a new coordinate with its true hit flag keeps the log valid and adds one hit exactly when the guess hit |
| Classic.PlaceStep | script.js:147-173 | a successful placement keeps the game invariant |
| Classic.RemoveStep | script.js:181-183 | removing a ship keeps the game invariant |
| Classic.GuessStep | script.js:217-256 | a new guess in gameplay keeps the game invariant, and the end test fires exactly when the guess sinks the opponent's last unhit cell |
| Classic.Game.constructor | script.js:4-10 | the initial values followed by `resetGame()`: placement, player 1, full selections, no ships, no guesses, nothing dragged |
| Classic.Game.Reset | script.js:263-266 | selections full, no ships, no guesses, placement phase, player 1; the invariant holds |
| Classic.Game.StartDrag | script.js:109-111 | the dragged size and orientation are recorded and nothing else changes |
| Classic.Game.PlaceShip | script.js:147-173 | no drag or a failed check: nothing changes; otherwise exactly one ship `{x, y, size, vertical}` is appended to the current player's list, one occurrence of its size leaves the selection, the drag is cleared, and nothing else changes |
| Classic.Game.RemoveShip | script.js:181-183 | the chosen ship leaves the current player's list, its size is pushed back onto the selection, and nothing else changes |
| Classic.Game.Done | script.js:191-215 | after game over it resets; during placement player 1 hands over to player 2 and player 2 starts the game with player 1 to move; during gameplay nothing changes |
| Classic.Game.MakeGuess | script.js:217-261 | outside gameplay or on a repeated coordinate nothing changes; otherwise the guess is appended with `hit` true exactly when an opponent ship covers it, a hit keeps the turn and a miss passes it, and the phase becomes game over exactly when the new turn-holder has 17 hits, which is exactly when this guess sank the opponent's fleet |
| ReactGame.CreateEmptyBoard | app.jsx:20-24 | a 10×10 board of empty marks |
| ReactGame.SetMark | app.jsx:51 | writing a mark changes that one cell and no other |
| ReactGame.RunCells | app.jsx:36-38 | a ship of length `n` dropped at `(x, y)` occupies `(x + i, y)` for `i < n`, in order |
| ReactGame.Remaining | app.jsx:56-58 | the filter keeps exactly the opponent cells that are not marked H: every kept cell is an opponent cell without an H, and every opponent cell without an H is kept |
| ReactGame.NoneRemainingIff | app.jsx:56-59 | no cell remains exactly when every opponent cell is marked H |
| ReactGame.HitShrinksRemaining | app.jsx:50-58 | an H mark on a not yet hit cell of a duplicate-free fleet leaves exactly one cell fewer remaining |
| ReactGame.RemainingUnchanged | app.jsx:50-58 | marking a cell outside the fleet, with any mark (in the game an M, app.jsx:51), does not change what remains |
| ReactGame.FindClash | app.jsx:33-35 | the loop reports a clash exactly when some cell `(x + i, y)` of the run is already placed |
| ReactGame.DropKeepsPlacementValid | app.jsx:30-38 | a run that passes the x-bound test and clashes with nothing keeps the placement list inside the grid and free of repeated cells |
| ReactGame.Game.constructor | app.jsx:10-18 | two empty boards, no placements, player 1, placement phase, no active ship |
| ReactGame.Game.SelectShip | app.jsx:100 | the chosen size becomes the active ship and nothing else changes |
| ReactGame.Game.HandleDrop | app.jsx:26-41 | no active ship, `x + length > 10` or a clash: nothing changes; otherwise exactly the run's cells are appended to the current player's placements, the active ship is cleared, and nothing else changes |
| ReactGame.Game.HandleGuess | app.jsx:43-67 | an already marked cell: nothing changes; otherwise only that cell of the guesser's board changes, to H exactly when it is an opponent cell; a miss passes the turn, and a hit keeps it and ends the game exactly when every opponent cell is marked H |
| ReactGame.Game.DonePlacing | app.jsx:69-77 | unless the current player has exactly 17 cells nothing changes; player 1 hands over to player 2, and player 2 starts gameplay with player 1 to move |
| ReactGame.Game.ResetGame | app.jsx:79-86 | two empty boards, no placements, player 1, placement phase, no active ship |

## Left out

- DOM construction and rendering are not modelled: `buildBoard`, `createShipElement`,
  `renderShipSelection`, the text and style updates in `script.js`, and the JSX markup
  and messages of `app.jsx`. They only draw the state.
- The drag ghost image of `ondragstart` (`cloneNode` and a timer) is not modelled. It is browser I/O.
- The orientation toggle of a ship element is UI state. Its current value is the
  `vertical` parameter of `Classic.Game.StartDrag`.
- Classic.Game.Done: requires the current selection to be empty during placement. This is
  when the Done button is displayed (script.js:177-178, 187-188, 203). Without it, play
  could start with an incomplete fleet.
- Classic.Game.StartDrag: requires the placement phase and a size from the current
  selection. Ship elements are only rendered from that selection, and only during placement.
- Classic.Game.RemoveShip: the source filters the ship out by object identity. The model
  names the ship by its index in the current player's list, which is the same thing
  because each click handler holds one particular ship object.
- Classic.Game.PlaceShip and ReactGame.Game.HandleDrop: require the drop cell to be on
  the grid, since drops come only from grid cells.
- ReactGame.Game.HandleGuess: requires the cell to be on the grid, because calls come only
  from the grid's cell buttons (app.jsx:127-137). Off the grid the source does not stay
  within the board: an off-grid `x` throws at `newBoards[currentPlayer][x]`, and an
  off-grid `y` writes a mark past the end of row `x` and passes the turn.
- The React handlers copy only the outer array (`[...shipPlacements]`, `[...playerBoards]`)
  and then write into the shared inner arrays. The model reassigns whole values. With
  one handler running at a time the resulting state is the same, but the aliasing itself
  is not modelled.
- React's asynchronous batching of `useState` setters is not modelled. Each setter is an
  immediate field update, in program order.
- The `disabled` expressions and `onClick` wiring of the React buttons are not modelled.
  This includes the size-button arithmetic and the `currentPlayer === 0` conditions on the
  board cells (app.jsx:101-103, 134-143). As a result the model lets either player drop and guess.
- The `message` state of the React version is not modelled. It is display text.
