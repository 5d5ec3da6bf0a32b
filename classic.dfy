/** The rules engine of the vanilla-JavaScript version of the game.
    Ships are records `{x, y, size, vertical}`; each player owns a list of
    placed ships, a list of ship sizes still to place and a list of guesses. */
module Classic {
  import opened Rules

  datatype Ship = Ship(x: int, y: int, size: nat, vertical: bool)

  datatype Guess = Guess(x: int, y: int, hit: bool)

  // ---------------------------------------------------------------------------
  // Ship geometry

  /** The `i`-th cell of a ship: it grows along x when vertical, along y otherwise. */
  function ShipCell(s: Ship, i: int): Cell {
    if s.vertical then (s.x + i, s.y) else (s.x, s.y + i)
  }

  /** The ship covers the cell: the cell lies on the segment of `size` cells that starts
      at the ship's origin and runs along x when vertical, along y otherwise. */
  predicate Covers(s: Ship, c: Cell) {
    if s.vertical then c.1 == s.y && s.x <= c.0 < s.x + s.size
    else c.0 == s.x && s.y <= c.1 < s.y + s.size
  }

  /** Some ship of the list covers the cell. */
  ghost predicate Occupied(ships: seq<Ship>, c: Cell) {
    exists k :: 0 <= k < |ships| && Covers(ships[k], c)
  }

  /** The segment is exactly the cells the source enumerates, `i` running from 0 to `size - 1`. */
  lemma CoversIff(s: Ship, c: Cell)
    ensures Covers(s, c) <==> exists i :: 0 <= i < s.size && ShipCell(s, i) == c
  {
    if Covers(s, c) {
      var i := if s.vertical then c.0 - s.x else c.1 - s.y;
      assert ShipCell(s, i) == c;
    }
  }

  ghost predicate ShipInGrid(s: Ship) {
    forall i :: 0 <= i < s.size ==> InGrid(ShipCell(s, i))
  }

  ghost predicate Disjoint(a: Ship, b: Ship) {
    forall c :: Covers(a, c) ==> !Covers(b, c)
  }

  /** A fleet lies inside the grid and no two of its ships share a cell. */
  ghost predicate FleetValid(ships: seq<Ship>) {
    && (forall k :: 0 <= k < |ships| ==> ShipInGrid(ships[k]))
    && (forall j, k :: 0 <= j < k < |ships| ==> Disjoint(ships[j], ships[k]))
  }

  /** The test `placeShip` applies before accepting ship `s`: the far end must not
      pass the grid edge, and none of its cells may be taken by `ships`. */
  ghost predicate Placeable(ships: seq<Ship>, s: Ship) {
    && (if s.vertical then s.x + s.size <= GRID_SIZE else s.y + s.size <= GRID_SIZE)
    && (forall i :: 0 <= i < s.size ==> !Occupied(ships, ShipCell(s, i)))
  }

  /** For a ship dropped on a grid cell, the check is exact: it accepts precisely the
      ships that fit in the grid and share no cell with the fleet. */
  lemma PlaceableIff(ships: seq<Ship>, s: Ship)
    requires InGrid((s.x, s.y))
    ensures Placeable(ships, s) <==>
      ShipInGrid(s) && forall k :: 0 <= k < |ships| ==> Disjoint(ships[k], s)
  {
    if Placeable(ships, s) {
      forall k | 0 <= k < |ships|
        ensures Disjoint(ships[k], s)
      {
        forall c | Covers(ships[k], c)
          ensures !Covers(s, c)
        {
          assert Occupied(ships, c);
          var i := if s.vertical then c.0 - s.x else c.1 - s.y;
          if 0 <= i < s.size {
            assert ShipCell(s, i) != c;
          }
        }
      }
    }
    if ShipInGrid(s) && forall k :: 0 <= k < |ships| ==> Disjoint(ships[k], s) {
      if s.size > 0 {
        assert InGrid(ShipCell(s, s.size - 1));
      }
      forall i | 0 <= i < s.size
        ensures !Occupied(ships, ShipCell(s, i))
      {
        assert Covers(s, ShipCell(s, i));
      }
    }
  }

  /** Adding a ship that passed the placement check keeps a fleet valid. */
  lemma PlaceKeepsFleetValid(ships: seq<Ship>, s: Ship)
    requires FleetValid(ships) && InGrid((s.x, s.y)) && Placeable(ships, s)
    ensures FleetValid(ships + [s])
  {
    PlaceableIff(ships, s);
    var r := ships + [s];
    forall j, k | 0 <= j < k < |r|
      ensures Disjoint(r[j], r[k])
    {
      if k == |ships| {
        assert r[j] == ships[j] && r[k] == s;
      } else {
        assert r[j] == ships[j] && r[k] == ships[k];
      }
    }
  }

  /** Removing one ship keeps a fleet valid. */
  lemma RemoveKeepsFleetValid(ships: seq<Ship>, k: int)
    requires FleetValid(ships) && 0 <= k < |ships|
    ensures FleetValid(ships[..k] + ships[k + 1..])
  {
    var r := ships[..k] + ships[k + 1..];
    assert forall i :: 0 <= i < |r| ==> r[i] == ships[if i < k then i else i + 1];
  }

  // ---------------------------------------------------------------------------
  // Occupancy scan (isOccupied, and the hit scan of makeGuess)

  /** Scans every cell of every ship and stops at the first one equal to `(x, y)`. */
  method IsOccupied(ships: seq<Ship>, x: int, y: int) returns (found: bool)
    ensures found <==> Occupied(ships, (x, y))
  {
    for k := 0 to |ships|
      invariant forall j :: 0 <= j < k ==> !Covers(ships[j], (x, y))
    {
      var ship := ships[k];
      for i := 0 to ship.size
        invariant forall j :: 0 <= j < i ==> ShipCell(ship, j) != (x, y)
      {
        var sx := ship.x + (if ship.vertical then i else 0);
        var sy := ship.y + (if ship.vertical then 0 else i);
        if sx == x && sy == y {
          assert ShipCell(ship, i) == (x, y);
          CoversIff(ship, (x, y));
          return true;
        }
      }
      CoversIff(ship, (x, y));
    }
    return false;
  }

  /** The bounds test and the cell-by-cell overlap test of `placeShip`. */
  method FitsAt(ships: seq<Ship>, s: Ship) returns (ok: bool)
    ensures ok <==> Placeable(ships, s)
    ensures InGrid((s.x, s.y)) ==>
      (ok <==> ShipInGrid(s) && forall k :: 0 <= k < |ships| ==> Disjoint(ships[k], s))
  {
    if InGrid((s.x, s.y)) {
      PlaceableIff(ships, s);
    }
    if s.vertical {
      if s.x + s.size > GRID_SIZE {
        return false;
      }
      for i := 0 to s.size
        invariant forall j :: 0 <= j < i ==> !Occupied(ships, ShipCell(s, j))
      {
        assert ShipCell(s, i) == (s.x + i, s.y);
        var taken := IsOccupied(ships, s.x + i, s.y);
        if taken {
          return false;
        }
      }
    } else {
      if s.y + s.size > GRID_SIZE {
        return false;
      }
      for i := 0 to s.size
        invariant forall j :: 0 <= j < i ==> !Occupied(ships, ShipCell(s, j))
      {
        assert ShipCell(s, i) == (s.x, s.y + i);
        var taken := IsOccupied(ships, s.x, s.y + i);
        if taken {
          return false;
        }
      }
    }
    return true;
  }

  // ---------------------------------------------------------------------------
  // The selection of sizes still to place

  /** `indexOf`: the position of the first occurrence of `v`, or -1. */
  function IndexOf(s: seq<nat>, v: nat): (idx: int)
    ensures -1 <= idx < |s|
    ensures idx == -1 <==> v !in s
    ensures idx >= 0 ==> s[idx] == v && v !in s[..idx]
  {
    if s == [] then -1
    else if s[0] == v then 0
    else
      var r := IndexOf(s[1..], v);
      assert s[1..][..if r < 0 then 0 else r] == s[1..if r < 0 then 1 else r + 1];
      if r == -1 then -1 else r + 1
  }

  /** `indexOf` followed by `splice(idx, 1)` when found: one occurrence of `v` is removed. */
  function RemoveFirst(sel: seq<nat>, v: nat): (r: seq<nat>)
    ensures v in sel ==> multiset(r) == multiset(sel) - multiset{v}
    ensures v !in sel ==> r == sel
  {
    var idx := IndexOf(sel, v);
    if idx == -1 then sel
    else
      assert sel == sel[..idx] + [sel[idx]] + sel[idx + 1..];
      sel[..idx] + sel[idx + 1..]
  }

  /** The sizes of a list of ships, in order. */
  function Sizes(ships: seq<Ship>): seq<nat> {
    if ships == [] then [] else Sizes(ships[..|ships| - 1]) + [ships[|ships| - 1].size]
  }

  lemma {:induction false} SizesConcat(a: seq<Ship>, b: seq<Ship>)
    ensures Sizes(a + b) == Sizes(a) + Sizes(b)
  {
    if b == [] {
      assert a + b == a;
    } else {
      var n := |b| - 1;
      assert (a + b)[..|a + b| - 1] == a + b[..n];
      SizesConcat(a, b[..n]);
    }
  }

  /** The number of occurrences of `v` in `s`. */
  function Count(s: seq<nat>, v: nat): nat {
    if s == [] then 0 else Count(s[..|s| - 1], v) + (if s[|s| - 1] == v then 1 else 0)
  }

  lemma {:induction false} CountMultiplicity(s: seq<nat>, v: nat)
    ensures Count(s, v) == multiset(s)[v]
  {
    if s != [] {
      CountMultiplicity(s[..|s| - 1], v);
      assert s == s[..|s| - 1] + [s[|s| - 1]];
    }
  }

  /** The sizes of the placed ships and the sizes still to place make up the fleet:
      together they hold every size exactly as often as `SHIP_SIZES` does. */
  ghost predicate Accounted(ships: seq<Ship>, sel: seq<nat>) {
    forall v: nat :: Count(Sizes(ships), v) + Count(sel, v) == Count(SHIP_SIZES, v)
  }

  /** The account, stated with multisets. */
  lemma AccountedIff(ships: seq<Ship>, sel: seq<nat>)
    ensures Accounted(ships, sel) <==> multiset(Sizes(ships)) + multiset(sel) == multiset(SHIP_SIZES)
  {
    forall v: nat
      ensures Count(Sizes(ships), v) == multiset(Sizes(ships))[v]
      ensures Count(sel, v) == multiset(sel)[v]
      ensures Count(SHIP_SIZES, v) == multiset(SHIP_SIZES)[v]
    {
      CountMultiplicity(Sizes(ships), v);
      CountMultiplicity(sel, v);
      CountMultiplicity(SHIP_SIZES, v);
    }
  }

  lemma {:induction false} CountConcat(a: seq<nat>, b: seq<nat>, v: nat)
    ensures Count(a + b, v) == Count(a, v) + Count(b, v)
  {
    if b != [] {
      var n := |b| - 1;
      assert (a + b)[..|a + b| - 1] == a + b[..n];
      CountConcat(a, b[..n], v);
    } else {
      assert a + b == a;
    }
  }

  /** Placing a ship whose size is taken from the selection keeps the account. */
  lemma PlaceKeepsAccount(ships: seq<Ship>, sel: seq<nat>, s: Ship)
    requires Accounted(ships, sel) && s.size in sel
    ensures Accounted(ships + [s], RemoveFirst(sel, s.size))
  {
    assert (ships + [s])[..|ships|] == ships;
    forall v: nat
      ensures Count(Sizes(ships + [s]), v) + Count(RemoveFirst(sel, s.size), v) == Count(SHIP_SIZES, v)
    {
      CountMultiplicity(sel, v);
      CountMultiplicity(RemoveFirst(sel, s.size), v);
      assert Count(Sizes(ships), v) + Count(sel, v) == Count(SHIP_SIZES, v);
    }
  }

  /** Taking the `k`-th ship out of a list takes one copy of its size out of the sizes. */
  lemma RemoveSizeCount(ships: seq<Ship>, k: int, v: nat)
    requires 0 <= k < |ships|
    ensures Count(Sizes(ships[..k] + ships[k + 1..]), v) + Count([ships[k].size], v) == Count(Sizes(ships), v)
  {
    assert ships == ships[..k] + [ships[k]] + ships[k + 1..];
    SizesConcat(ships[..k], ships[k + 1..]);
    SizesConcat(ships[..k] + [ships[k]], ships[k + 1..]);
    SizesConcat(ships[..k], [ships[k]]);
    assert Sizes([ships[k]]) == [ships[k].size];
    CountConcat(Sizes(ships[..k]), Sizes(ships[k + 1..]), v);
    CountConcat(Sizes(ships[..k]) + [ships[k].size], Sizes(ships[k + 1..]), v);
    CountConcat(Sizes(ships[..k]), [ships[k].size], v);
  }

  /** Removing a placed ship and giving its size back to the selection keeps the account. */
  lemma RemoveKeepsAccount(ships: seq<Ship>, sel: seq<nat>, k: int)
    requires Accounted(ships, sel) && 0 <= k < |ships|
    ensures Accounted(ships[..k] + ships[k + 1..], sel + [ships[k].size])
  {
    forall v: nat
      ensures Count(Sizes(ships[..k] + ships[k + 1..]), v) + Count(sel + [ships[k].size], v)
           == Count(SHIP_SIZES, v)
    {
      RemoveSizeCount(ships, k, v);
      CountConcat(sel, [ships[k].size], v);
      assert Count(Sizes(ships), v) + Count(sel, v) == Count(SHIP_SIZES, v);
    }
  }

  /** Every size in the selection belongs to the fleet. */
  lemma SelectionInFleet(ships: seq<Ship>, sel: seq<nat>, v: nat)
    requires Accounted(ships, sel) && v in sel
    ensures v in SHIP_SIZES
  {
    CountMultiplicity(sel, v);
    CountMultiplicity(SHIP_SIZES, v);
    assert Count(Sizes(ships), v) + Count(sel, v) == Count(SHIP_SIZES, v);
  }

  // ---------------------------------------------------------------------------
  // Guesses and winning

  /** `guesses.some(g => g.x === x && g.y === y)`. */
  predicate Guessed(gs: seq<Guess>, x: int, y: int) {
    exists i :: 0 <= i < |gs| && gs[i].x == x && gs[i].y == y
  }

  /** `guesses.filter(g => g.hit).length`. */
  function HitCount(gs: seq<Guess>): nat {
    if gs == [] then 0 else HitCount(gs[..|gs| - 1]) + (if gs[|gs| - 1].hit then 1 else 0)
  }

  /** A guess log: no coordinate twice, and each recorded hit flag is the truth
      about the opponent's fleet. */
  ghost predicate GuessLogValid(gs: seq<Guess>, opponentShips: seq<Ship>) {
    && (forall i, j :: 0 <= i < j < |gs| ==> (gs[i].x, gs[i].y) != (gs[j].x, gs[j].y))
    && (forall i :: 0 <= i < |gs| ==> gs[i].hit == Occupied(opponentShips, (gs[i].x, gs[i].y)))
  }

  /** The cells recorded as hits in a guess log. */
  ghost function HitCells(gs: seq<Guess>): set<Cell> {
    if gs == [] then {}
    else
      var g := gs[|gs| - 1];
      HitCells(gs[..|gs| - 1]) + (if g.hit then {(g.x, g.y)} else {})
  }

  /** Every cell of the fleet has been hit. */
  ghost predicate Sunk(gs: seq<Guess>, ships: seq<Ship>) {
    forall c :: Occupied(ships, c) ==> c in HitCells(gs)
  }

  ghost function ShipCells(s: Ship): set<Cell> {
    set i | 0 <= i < s.size :: ShipCell(s, i)
  }

  lemma ShipCellsIff(s: Ship, c: Cell)
    ensures c in ShipCells(s) <==> Covers(s, c)
  {
    CoversIff(s, c);
  }

  ghost function FleetCells(ships: seq<Ship>): set<Cell> {
    if ships == [] then {} else FleetCells(ships[..|ships| - 1]) + ShipCells(ships[|ships| - 1])
  }

  lemma {:induction false} CellsBelowCount(s: Ship, n: nat)
    requires n <= s.size
    ensures |set i | 0 <= i < n :: ShipCell(s, i)| == n
  {
    if n > 0 {
      CellsBelowCount(s, n - 1);
      var below := set i | 0 <= i < n - 1 :: ShipCell(s, i);
      assert (set i | 0 <= i < n :: ShipCell(s, i)) == below + {ShipCell(s, n - 1)};
      assert ShipCell(s, n - 1) !in below;
    }
  }

  lemma {:induction false} FleetCellsMembers(ships: seq<Ship>, c: Cell)
    ensures c in FleetCells(ships) <==> Occupied(ships, c)
  {
    if ships != [] {
      var init := ships[..|ships| - 1];
      FleetCellsMembers(init, c);
      ShipCellsIff(ships[|ships| - 1], c);
      if Occupied(ships, c) {
        var k :| 0 <= k < |ships| && Covers(ships[k], c);
        if k < |init| {
          assert init[k] == ships[k];
        }
      }
      if Occupied(init, c) {
        var k :| 0 <= k < |init| && Covers(init[k], c);
        assert ships[k] == init[k];
      }
    }
  }

  /** A fleet without overlaps covers exactly as many cells as its sizes add up to. */
  lemma {:induction false} FleetCellsCount(ships: seq<Ship>)
    requires FleetValid(ships)
    ensures |FleetCells(ships)| == Sum(Sizes(ships))
  {
    if ships != [] {
      var n := |ships| - 1;
      var init := ships[..n];
      var last := ships[n];
      assert FleetValid(init) by {
        assert forall k :: 0 <= k < n ==> init[k] == ships[k];
      }
      FleetCellsCount(init);
      CellsBelowCount(last, last.size);
      forall c | c in FleetCells(init)
        ensures c !in ShipCells(last)
      {
        FleetCellsMembers(init, c);
        var k :| 0 <= k < |init| && Covers(init[k], c);
        assert init[k] == ships[k];
        ShipCellsIff(last, c);
        assert Disjoint(ships[k], last);
      }
      SumConcat(Sizes(init), [last.size]);
    }
  }

  lemma {:induction false} HitCellsCount(gs: seq<Guess>, ships: seq<Ship>)
    requires GuessLogValid(gs, ships)
    ensures |HitCells(gs)| == HitCount(gs)
    ensures HitCells(gs) <= FleetCells(ships)
  {
    if gs != [] {
      var n := |gs| - 1;
      var init := gs[..n];
      var g := gs[n];
      assert GuessLogValid(init, ships) by {
        assert forall i :: 0 <= i < n ==> init[i] == gs[i];
      }
      HitCellsCount(init, ships);
      if g.hit {
        HitCellsMembers(init, (g.x, g.y));
        FleetCellsMembers(ships, (g.x, g.y));
      }
    }
  }

  lemma {:induction false} HitCellsMembers(gs: seq<Guess>, c: Cell)
    ensures c in HitCells(gs) <==> exists i :: 0 <= i < |gs| && gs[i].hit && (gs[i].x, gs[i].y) == c
  {
    if gs != [] {
      var n := |gs| - 1;
      var init := gs[..n];
      HitCellsMembers(init, c);
      if exists i :: 0 <= i < |gs| && gs[i].hit && (gs[i].x, gs[i].y) == c {
        var i :| 0 <= i < |gs| && gs[i].hit && (gs[i].x, gs[i].y) == c;
        if i < n {
          assert init[i] == gs[i];
        }
      }
      if exists i :: 0 <= i < |init| && init[i].hit && (init[i].x, init[i].y) == c {
        var i :| 0 <= i < |init| && init[i].hit && (init[i].x, init[i].y) == c;
        assert gs[i] == init[i];
      }
    }
  }

  /** A complete fleet without overlaps covers exactly the total number of ship cells. */
  lemma CompleteFleetCells(ships: seq<Ship>)
    requires Accounted(ships, []) && FleetValid(ships)
    ensures |FleetCells(ships)| == TotalShipCells()
  {
    AccountedIff(ships, []);
    assert multiset(Sizes(ships)) == multiset(SHIP_SIZES);
    SumPermutation(Sizes(ships), SHIP_SIZES);
    FleetCellsCount(ships);
  }

  /** Against a complete, overlap-free fleet, reaching the total number of ship cells in
      hits is the same as having hit every cell of that fleet. */
  lemma WinIffSunk(gs: seq<Guess>, ships: seq<Ship>)
    requires Accounted(ships, [])
    requires FleetValid(ships)
    requires GuessLogValid(gs, ships)
    ensures HitCount(gs) <= TotalShipCells()
    ensures HitCount(gs) >= TotalShipCells() <==> Sunk(gs, ships)
  {
    CompleteFleetCells(ships);
    HitCellsCount(gs, ships);
    var hits, cells := HitCells(gs), FleetCells(ships);
    assert |cells - hits| == |cells| - |hits|;
    if HitCount(gs) >= TotalShipCells() {
      assert cells - hits == {};
      forall c | Occupied(ships, c)
        ensures c in hits
      {
        FleetCellsMembers(ships, c);
      }
    }
    if Sunk(gs, ships) {
      forall c | c in cells
        ensures c in hits
      {
        FleetCellsMembers(ships, c);
      }
      assert cells == hits;
    }
  }

  /** Recording a fresh guess with its true outcome keeps a guess log valid, and counts
      one more hit exactly when the guess hit. */
  lemma GuessLogAppend(gs: seq<Guess>, ships: seq<Ship>, x: int, y: int, hit: bool)
    requires GuessLogValid(gs, ships)
    requires !Guessed(gs, x, y) && hit == Occupied(ships, (x, y))
    ensures GuessLogValid(gs + [Guess(x, y, hit)], ships)
    ensures HitCount(gs + [Guess(x, y, hit)]) == HitCount(gs) + (if hit then 1 else 0)
  {
    var after := gs + [Guess(x, y, hit)];
    assert after[..|gs|] == gs;
    forall i | 0 <= i < |gs|
      ensures (after[i].x, after[i].y) != (x, y)
    {
      assert after[i] == gs[i];
    }
  }

  /** Everything one player owns, as the game's invariant requires it. */
  ghost predicate SideValid(ships: seq<Ship>, sel: seq<nat>, gs: seq<Guess>, opponentShips: seq<Ship>) {
    Accounted(ships, sel) && FleetValid(ships) && GuessLogValid(gs, opponentShips)
  }

  /** The invariant of a game, over the values of its state variables. */
  ghost predicate StateValid(sel: seq<seq<nat>>, placed: seq<seq<Ship>>, gs: seq<seq<Guess>>,
                             cur: Player, phase: Phase, dragging: Option<nat>)
  {
    && |sel| == 2 && |placed| == 2 && |gs| == 2
    && SideValid(placed[0], sel[0], gs[0], placed[1])
    && SideValid(placed[1], sel[1], gs[1], placed[0])
    // a ship is dragged only during placement, and it comes from the selection
    && (dragging.Some? ==> phase == Placement && dragging.value in sel[cur])
    && (phase == Placement ==> gs[0] == [] && gs[1] == [] && (cur == 1 ==> sel[0] == []))
    // once placement is over both fleets are complete
    && (phase != Placement ==> sel[0] == [] && sel[1] == [])
    && (phase == Gameplay ==> HitCount(gs[0]) < TotalShipCells() && HitCount(gs[1]) < TotalShipCells())
    // the game ends with the winner still holding the turn
    && (phase == GameOver ==> HitCount(gs[cur]) >= TotalShipCells())
  }

  /** A successful placement keeps the invariant. */
  lemma PlaceStep(sel: seq<seq<nat>>, placed: seq<seq<Ship>>, gs: seq<seq<Guess>>,
                  cur: Player, phase: Phase, s: Ship)
    requires StateValid(sel, placed, gs, cur, phase, Some(s.size))
    requires InGrid((s.x, s.y)) && Placeable(placed[cur], s)
    ensures StateValid(sel[cur := RemoveFirst(sel[cur], s.size)], placed[cur := placed[cur] + [s]],
                       gs, cur, phase, None)
  {
    PlaceKeepsFleetValid(placed[cur], s);
    PlaceKeepsAccount(placed[cur], sel[cur], s);
    assert gs[0] == [] && gs[1] == [];
  }

  /** Removing a ship keeps the invariant. */
  lemma RemoveStep(sel: seq<seq<nat>>, placed: seq<seq<Ship>>, gs: seq<seq<Guess>>,
                   cur: Player, dragging: Option<nat>, k: int)
    requires StateValid(sel, placed, gs, cur, Placement, dragging)
    requires 0 <= k < |placed[cur]|
    ensures StateValid(sel[cur := sel[cur] + [placed[cur][k].size]],
                       placed[cur := placed[cur][..k] + placed[cur][k + 1..]],
                       gs, cur, Placement, dragging)
  {
    RemoveKeepsFleetValid(placed[cur], k);
    RemoveKeepsAccount(placed[cur], sel[cur], k);
    assert gs[0] == [] && gs[1] == [];
  }

  /** A new guess during gameplay keeps the invariant, and the source's end-of-game
      test fires exactly when the guess sinks the opponent's fleet. */
  lemma GuessStep(sel: seq<seq<nat>>, placed: seq<seq<Ship>>, gs: seq<seq<Guess>>,
                  cur: Player, dragging: Option<nat>, x: int, y: int, hit: bool)
    requires StateValid(sel, placed, gs, cur, Gameplay, dragging)
    requires !Guessed(gs[cur], x, y) && hit == Occupied(placed[Opponent(cur)], (x, y))
    ensures
      var gs' := gs[cur := gs[cur] + [Guess(x, y, hit)]];
      var cur' := if hit then cur else Opponent(cur);
      var over := HitCount(gs'[cur']) >= TotalShipCells();
      && StateValid(sel, placed, gs', cur', if over then GameOver else Gameplay, dragging)
      && (over <==> hit && Sunk(gs'[cur], placed[Opponent(cur)]))
  {
    var opponent := Opponent(cur);
    var ships := placed[opponent];
    var after := gs[cur] + [Guess(x, y, hit)];
    GuessLogAppend(gs[cur], ships, x, y, hit);
    assert sel[opponent] == [];
    WinIffSunk(after, ships);
    var gs' := gs[cur := after];
    assert SideValid(placed[0], sel[0], gs'[0], placed[1]);
    assert SideValid(placed[1], sel[1], gs'[1], placed[0]);
  }

  // ---------------------------------------------------------------------------
  // The game state

  class Game {
    var shipSelections: seq<seq<nat>>
    var placedShips: seq<seq<Ship>>
    var guesses: seq<seq<Guess>>
    var currentPlayer: Player
    var phase: Phase
    var draggingSize: Option<nat>
    var draggingVertical: bool

    ghost predicate Valid()
      reads this
    {
      StateValid(shipSelections, placedShips, guesses, currentPlayer, phase, draggingSize)
    }

    /** The state `resetGame` produces. */
    ghost predicate Initial()
      reads this
    {
      && phase == Placement && currentPlayer == 0
      && shipSelections == [SHIP_SIZES, SHIP_SIZES]
      && placedShips == [[], []] && guesses == [[], []]
    }

    /** The module-level initial values followed by the `resetGame()` call at load. */
    constructor ()
      ensures Valid() && Initial()
      ensures draggingSize == None && !draggingVertical
    {
      shipSelections := [SHIP_SIZES, SHIP_SIZES];
      placedShips := [[], []];
      guesses := [[], []];
      currentPlayer := 0;
      phase := Placement;
      draggingSize := None;
      draggingVertical := false;
    }

    /** `resetShipSelections` followed by the phase and turn assignments of `resetGame`. */
    method Reset()
      requires Valid()
      modifies this
      ensures Valid() && Initial()
      ensures draggingSize == old(draggingSize) && draggingVertical == old(draggingVertical)
    {
      if draggingSize.Some? {
        SelectionInFleet(placedShips[currentPlayer], shipSelections[currentPlayer], draggingSize.value);
      }
      shipSelections := [SHIP_SIZES, SHIP_SIZES];
      placedShips := [[], []];
      guesses := [[], []];
      phase := Placement;
      currentPlayer := 0;
    }

    /** The state part of a ship element's drag start: the ship of that size, in the
        orientation the element currently shows, is being dragged. */
    method StartDrag(size: nat, vertical: bool)
      requires Valid()
      requires phase == Placement && size in shipSelections[currentPlayer]
      modifies this
      ensures Valid()
      ensures draggingSize == Some(size) && draggingVertical == vertical
      ensures shipSelections == old(shipSelections) && placedShips == old(placedShips)
      ensures guesses == old(guesses) && currentPlayer == old(currentPlayer) && phase == old(phase)
    {
      draggingSize := Some(size);
      draggingVertical := vertical;
    }

    /** Drop of the dragged ship with its origin at grid cell `(x, y)`. */
    method PlaceShip(x: int, y: int)
      requires Valid()
      requires InGrid((x, y))
      modifies this
      ensures Valid()
      ensures old(draggingSize).None? ==> unchanged(this)
      ensures old(draggingSize).Some? ==>
        var s := Ship(x, y, old(draggingSize).value, old(draggingVertical));
        var p := old(currentPlayer);
        if !Placeable(old(placedShips[p]), s) then unchanged(this)
        else
          && placedShips == old(placedShips)[p := old(placedShips[p]) + [s]]
          && shipSelections == old(shipSelections)[p := RemoveFirst(old(shipSelections[p]), s.size)]
          && draggingSize == None && draggingVertical == old(draggingVertical)
          && guesses == old(guesses) && currentPlayer == p && phase == old(phase)
    {
      if draggingSize.None? {
        return;
      }
      var size := draggingSize.value;
      var ship := Ship(x, y, size, draggingVertical);
      var ok := FitsAt(placedShips[currentPlayer], ship);
      if !ok {
        return;
      }
      PlaceStep(shipSelections, placedShips, guesses, currentPlayer, phase, ship);

      placedShips := placedShips[currentPlayer := placedShips[currentPlayer] + [ship]];

      var selection := shipSelections[currentPlayer];
      var idx := IndexOf(selection, size);
      if idx != -1 {
        selection := selection[..idx] + selection[idx + 1..];
      }
      assert selection == RemoveFirst(shipSelections[currentPlayer], size);
      shipSelections := shipSelections[currentPlayer := selection];

      draggingSize := None;
    }

    /** Click on a placed ship of the current player (the `k`-th of its list): the ship
        is taken off the grid and its size goes back to the selection. */
    method RemoveShip(k: int)
      requires Valid()
      requires phase == Placement && 0 <= k < |placedShips[currentPlayer]|
      modifies this
      ensures Valid()
      ensures
        var p := old(currentPlayer);
        var fleet := old(placedShips[p]);
        && placedShips == old(placedShips)[p := fleet[..k] + fleet[k + 1..]]
        && shipSelections == old(shipSelections)[p := old(shipSelections[p]) + [fleet[k].size]]
        && guesses == old(guesses) && currentPlayer == p && phase == old(phase)
        && draggingSize == old(draggingSize) && draggingVertical == old(draggingVertical)
    {
      var fleet := placedShips[currentPlayer];
      var ship := fleet[k];
      RemoveStep(shipSelections, placedShips, guesses, currentPlayer, draggingSize, k);
      placedShips := placedShips[currentPlayer := fleet[..k] + fleet[k + 1..]];
      shipSelections := shipSelections[currentPlayer := shipSelections[currentPlayer] + [ship.size]];
    }

    /** The Done / Restart button. */
    method Done()
      requires Valid()
      requires phase == Placement ==> shipSelections[currentPlayer] == []
      modifies this
      ensures Valid()
      ensures old(phase) == GameOver ==>
        Initial() && draggingSize == old(draggingSize) && draggingVertical == old(draggingVertical)
      ensures old(phase) == Placement ==>
        && phase == (if old(currentPlayer) == 0 then Placement else Gameplay)
        && currentPlayer == Opponent(old(currentPlayer))
        && placedShips == old(placedShips) && shipSelections == old(shipSelections)
        && guesses == old(guesses)
        && draggingSize == old(draggingSize) && draggingVertical == old(draggingVertical)
      ensures old(phase) == Gameplay ==> unchanged(this)
    {
      if phase == GameOver {
        Reset();
        return;
      }
      if phase == Placement {
        if currentPlayer == 0 {
          currentPlayer := 1;
        } else {
          phase := Gameplay;
          currentPlayer := 0;
        }
      }
    }

    /** The current player fires at cell `(x, y)` of the opponent's grid. */
    method MakeGuess(x: int, y: int)
      requires Valid()
      modifies this
      ensures Valid()
      ensures old(phase) != Gameplay ==> unchanged(this)
      ensures old(phase) == Gameplay ==>
        var p := old(currentPlayer);
        var opponent := Opponent(p);
        if Guessed(old(guesses[p]), x, y) then unchanged(this)
        else
          var hit := Occupied(placedShips[opponent], (x, y));
          && guesses == old(guesses)[p := old(guesses[p]) + [Guess(x, y, hit)]]
          // a hit keeps the turn, a miss passes it
          && currentPlayer == (if hit then p else opponent)
          // the source's test, on the player who holds the turn after the guess ...
          && (phase == GameOver <==> HitCount(guesses[currentPlayer]) >= TotalShipCells())
          // ... ends the game exactly when this guess hits the opponent's last unhit cell
          && (phase == GameOver <==> hit && Sunk(guesses[p], placedShips[opponent]))
          && (phase != GameOver ==> phase == Gameplay)
          && placedShips == old(placedShips) && shipSelections == old(shipSelections)
          && draggingSize == old(draggingSize) && draggingVertical == old(draggingVertical)
    {
      if phase != Gameplay {
        return;
      }
      if Guessed(guesses[currentPlayer], x, y) {
        return;
      }
      var opponent := Opponent(currentPlayer);
      var ships := placedShips[opponent];
      var hit := IsOccupied(ships, x, y);
      GuessStep(shipSelections, placedShips, guesses, currentPlayer, draggingSize, x, y, hit);

      guesses := guesses[currentPlayer := guesses[currentPlayer] + [Guess(x, y, hit)]];
      if !hit {
        currentPlayer := opponent;
      }
      var totalHits := HitCount(guesses[currentPlayer]);
      if totalHits >= TotalShipCells() {
        phase := GameOver;
      }
    }
  }
}
