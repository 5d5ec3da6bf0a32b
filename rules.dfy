/** Configuration and vocabulary shared by both versions of the game:
    the grid size, the fleet, the two players and the three phases. */
module Rules {

  /** Side length of the square grid. */
  const GRID_SIZE: nat := 10

  /** Lengths of the ships every player must place. */
  const SHIP_SIZES: seq<nat> := [5, 4, 3, 3, 2]

  /** A player index: 0 is "Player 1", 1 is "Player 2". */
  type Player = p: int | 0 <= p < 2

  /** A grid coordinate `(x, y)`: `x` is the row, `y` the column. */
  type Cell = (int, int)

  datatype Phase = Placement | Gameplay | GameOver

  /** JavaScript's `null` / "no value yet". */
  datatype Option<T> = None | Some(value: T)

  /** The other player, computed as `(p + 1) % 2`. */
  function Opponent(p: Player): (q: Player)
    ensures q != p && q == 1 - p
  {
    (p + 1) % 2
  }

  predicate InGrid(c: Cell) {
    0 <= c.0 < GRID_SIZE && 0 <= c.1 < GRID_SIZE
  }

  /** `reduce((a, b) => a + b)` over a list of numbers. */
  function Sum(s: seq<int>): int {
    if s == [] then 0 else s[0] + Sum(s[1..])
  }

  /** Number of ship cells in a complete fleet; a player must hit this many cells to win. */
  function TotalShipCells(): (n: nat)
    ensures n == 17
  {
    Sum(SHIP_SIZES)
  }

  lemma {:induction false} SumConcat(a: seq<int>, b: seq<int>)
    ensures Sum(a + b) == Sum(a) + Sum(b)
  {
    if a == [] {
      assert a + b == b;
    } else {
      assert (a + b)[1..] == a[1..] + b;
      SumConcat(a[1..], b);
    }
  }

  /** Taking one element out of a list lowers its sum by that element. */
  lemma SumSplice(b: seq<int>, j: int)
    requires 0 <= j < |b|
    ensures Sum(b) == b[j] + Sum(b[..j] + b[j + 1..])
  {
    calc {
      Sum(b);
      { assert b == b[..j] + [b[j]] + b[j + 1..]; }
      Sum(b[..j] + [b[j]] + b[j + 1..]);
      { SumConcat(b[..j] + [b[j]], b[j + 1..]); }
      Sum(b[..j] + [b[j]]) + Sum(b[j + 1..]);
      { SumConcat(b[..j], [b[j]]); assert Sum([b[j]]) == b[j]; }
      Sum(b[..j]) + b[j] + Sum(b[j + 1..]);
      { SumConcat(b[..j], b[j + 1..]); }
      b[j] + Sum(b[..j] + b[j + 1..]);
    }
  }

  /** Taking one element out of a list takes one copy of it out of its multiset. */
  lemma MultisetSplice(b: seq<int>, j: int)
    requires 0 <= j < |b|
    ensures multiset(b[..j] + b[j + 1..]) == multiset(b) - multiset{b[j]}
  {
    assert b == b[..j] + [b[j]] + b[j + 1..];
  }

  /** When two lists hold the same elements, the first element of one occurs in the
      other at some `j`, and the rests still hold the same elements. */
  lemma MatchFirst(a: seq<int>, b: seq<int>) returns (j: int)
    requires multiset(a) == multiset(b) && a != []
    ensures 0 <= j < |b| && b[j] == a[0]
    ensures multiset(a[1..]) == multiset(b[..j] + b[j + 1..])
  {
    assert a[0] in multiset(b);
    j :| 0 <= j < |b| && b[j] == a[0];
    calc {
      multiset(a[1..]);
      { assert a[..0] + a[1..] == a[1..]; MultisetSplice(a, 0); }
      multiset(a) - multiset{a[0]};
      multiset(b) - multiset{b[j]};
      { MultisetSplice(b, j); }
      multiset(b[..j] + b[j + 1..]);
    }
  }

  /** The sum of a list depends only on its elements, not on their order. */
  lemma {:induction false} SumPermutation(a: seq<int>, b: seq<int>)
    requires multiset(a) == multiset(b)
    ensures Sum(a) == Sum(b)
  {
    if a == [] {
      assert |b| == |multiset(b)| == 0;
    } else {
      var j := MatchFirst(a, b);
      SumPermutation(a[1..], b[..j] + b[j + 1..]);
      SumSplice(b, j);
    }
  }
}
