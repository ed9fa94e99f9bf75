/** The 8-puzzle: nine cells on a 3×3 board holding the tiles 1..8 and
    the blank 0.  A click on a tile next to the blank slides it; the game
    is won when the board reads 1, 2, ..., 8 with the blank last. */
module SlidingPuzzle {
  import opened Common
  import opened Tiles
  import Inversions

  datatype State = State(tiles: seq<int>, won: bool)

  /** The tiles 0..8 in order (`generateTiles`). */
  function GenerateTiles(): (t: seq<int>)
    ensures |t| == 9 && IsPerm(t, 9)
    ensures forall i :: 0 <= i < 9 ==> t[i] == i
  {
    Range(9)
  }

  /** The board the game opens with: tiles in order, not won. */
  function Initial(): State {
    State(GenerateTiles(), false)
  }

  /** The winning arrangement: 1..8 with the blank in the last cell. */
  function Goal(): (g: seq<int>)
    ensures |g| == 9
    ensures forall i :: 0 <= i < 9 ==> g[i] == if i == 8 then 0 else i + 1
  {
    Range(9)[1..] + [0]
  }

  /** The source's win test: cell `i` holds `i + 1`, except the last cell,
      which holds the blank. */
  predicate Solved(t: seq<int>) {
    forall i :: 0 <= i < |t| ==> t[i] == (if i == 8 then 0 else i + 1)
  }

  lemma SolvedIsGoal(t: seq<int>)
    requires |t| == 9
    ensures Solved(t) <==> t == Goal()
  {
    if Solved(t) {
      assert forall i :: 0 <= i < 9 ==> t[i] == Goal()[i];
    }
  }

  /** Cells `index` and `empty` are one step apart in Manhattan distance. */
  predicate IsAdjacent(index: int, empty: int) {
    Abs(index / 3 - empty / 3) + Abs(index % 3 - empty % 3) == 1
  }

  /** `shuffle`: a `sort` with a random comparator leaves the tiles in some
      order `shuffled`, any rearrangement of 0..8; the win flag is cleared. */
  function Shuffle(s: State, shuffled: seq<int>): (r: State)
    requires multiset(shuffled) == multiset(GenerateTiles())
    ensures IsPerm(r.tiles, 9) && |r.tiles| == 9
    ensures !r.won
  {
    PermFacts(shuffled, 9);
    State(shuffled, false)
  }

  /** `moveTile`: a click on cell `index`.  Only a cell at Manhattan
      distance one from the blank moves; the flag `won` is raised when the
      move completes the goal and is never lowered by a move. */
  function MoveTile(s: State, index: int): (r: State)
    requires IsPerm(s.tiles, 9) && 0 <= index < 9
    ensures IsPerm(r.tiles, 9) && |r.tiles| == 9
    ensures var e := Blank(s.tiles, 3);
      if IsAdjacent(index, e) then
        && r.tiles[index] == 0
        && r.tiles[e] == s.tiles[index]
        && (forall k :: 0 <= k < 9 && k != index && k != e ==> r.tiles[k] == s.tiles[k])
        && r.won == (s.won || r.tiles == Goal())
      else r == s
    ensures index == Blank(s.tiles, 3) ==> r == s
  {
    PermFacts(s.tiles, 9);
    var e := IndexOf(s.tiles, 0);
    if IsAdjacent(index, e) then
      var t := Swap(s.tiles, index, e);
      SolvedIsGoal(t);
      State(t, if Solved(t) then true else s.won)
    else
      s
  }

  /** A click on the 8-puzzle is the shared slide on a 3-wide board. */
  lemma MoveTileIsSlide(s: State, index: int)
    requires IsPerm(s.tiles, 9) && 0 <= index < 9
    ensures MoveTile(s, index).tiles == Slide(s.tiles, 3, index)
  {
    ManhattanIsAdjacent(index, Blank(s.tiles, 3), 3);
  }

  /** The state after a sequence of clicks. */
  function Clicks(s: State, clicks: seq<int>): (r: State)
    requires IsPerm(s.tiles, 9) && InGrid(clicks, 3)
    ensures IsPerm(r.tiles, 9)
    decreases |clicks|
  {
    if clicks == [] then s else Clicks(MoveTile(s, clicks[0]), clicks[1..])
  }

  /** Clicking through the game follows the shared click model. */
  lemma {:induction false} ClicksArePlay(s: State, clicks: seq<int>)
    requires IsPerm(s.tiles, 9) && InGrid(clicks, 3)
    ensures Clicks(s, clicks).tiles == Play(s.tiles, 3, clicks)
    decreases |clicks|
  {
    if clicks != [] {
      MoveTileIsSlide(s, clicks[0]);
      ClicksArePlay(MoveTile(s, clicks[0]), clicks[1..]);
    }
  }

  /** From a board of the wrong parity no sequence of clicks ever raises
      the win flag. */
  lemma {:induction false} WrongParityNeverWins(s: State, clicks: seq<int>)
    requires IsPerm(s.tiles, 9) && InGrid(clicks, 3) && !s.won
    requires Inversions.Parity(s.tiles) != Inversions.Parity(Goal())
    ensures !Clicks(s, clicks).won
    decreases |clicks|
  {
    if clicks != [] {
      var s1 := MoveTile(s, clicks[0]);
      MoveTileIsSlide(s, clicks[0]);
      Inversions.SlideKeepsParity(s.tiles, 3, clicks[0]);
      assert s1.tiles != Goal();
      WrongParityNeverWins(s1, clicks[1..]);
    }
  }

  /** A rearrangement `shuffle` can produce: tiles 1 and 2 exchanged. */
  function SwappedPair(): (t: seq<int>)
    ensures |t| == 9 && t[0] == 2 && t[1] == 1
    ensures forall i :: 2 <= i < 9 ==> t[i] == Goal()[i]
  {
    Swap(Goal(), 0, 1)
  }

  lemma RotatedRangeIsPerm(n: nat)
    requires n > 0
    ensures IsPerm(Range(n)[1..] + [0], n)
  {
    var r := Range(n);
    assert r == [0] + r[1..];
  }

  lemma GoalIsPerm()
    ensures IsPerm(Goal(), 9)
  {
    RotatedRangeIsPerm(9);
  }

  lemma SwappedPairIsPerm()
    ensures IsPerm(SwappedPair(), 9)
  {
    GoalIsPerm();
    SwapKeepsPerm(Goal(), 9, 0, 1);
  }

  /** Tiles in increasing order followed by the blank: no inversion. */
  lemma {:induction false} RotatedRangeParity(n: nat)
    requires n > 0
    ensures Inversions.Parity(Range(n)[1..] + [0]) == 0
  {
    var u := Range(n)[1..];
    Inversions.NonZeroConcat(u, [0]);
    assert Inversions.NonZero([0]) == [];
    Inversions.NonZeroOfNonZero(u);
    assert Inversions.NonZero(u + [0]) == u;
    Inversions.IncreasingHasNoInversions(u);
  }

  /** Two tiles exchanged in front of an increasing run, then the blank:
      exactly one inversion. */
  lemma {:induction false} FrontSwapParity(a: int, b: int, rest: seq<int>)
    requires 0 < b < a
    requires forall k :: 0 <= k < |rest| ==> a < rest[k]
    requires forall i, j :: 0 <= i < j < |rest| ==> rest[i] < rest[j]
    ensures Inversions.Parity([a, b] + rest + [0]) == 1
  {
    var m := [a, b] + rest;
    Inversions.NonZeroConcat(m, [0]);
    assert Inversions.NonZero([0]) == [];
    Inversions.NonZeroOfNonZero(m);
    assert Inversions.NonZero(m + [0]) == m;
    var t := [b] + rest;
    assert m[1..] == t && t[1..] == rest;
    Inversions.NoneLess(rest, a);
    Inversions.NoneLess(rest, b);
    Inversions.IncreasingHasNoInversions(rest);
    assert Inversions.CountLess(t, a) == 1;
    assert Inversions.Inv(t) == 0;
    assert Inversions.Inv(m) == 1;
  }

  lemma GoalParity()
    ensures Inversions.Parity(Goal()) == 0
  {
    RotatedRangeParity(9);
  }

  /** With 1 and 2 exchanged there is exactly one inversion: 2 before 1. */
  lemma SwappedPairParity()
    ensures Inversions.Parity(SwappedPair()) == 1
  {
    var rest := Range(9)[3..];
    assert SwappedPair() == [2, 1] + rest + [0];
    FrontSwapParity(2, 1, rest);
  }

  /** As written, `shuffle` may deal a board that can never be won: the
      random `sort` can leave tiles 1 and 2 exchanged, a board of odd
      inversion parity, and no clicks lead from it to the goal. */
  lemma RandomShuffleCanBeUnwinnable(s: State)
    ensures multiset(SwappedPair()) == multiset(GenerateTiles())
    ensures var r := Shuffle(s, SwappedPair());
      !Solvable(r.tiles, 3, Goal()) &&
      forall clicks :: InGrid(clicks, 3) ==> !Clicks(r, clicks).won
  {
    SwappedPairIsPerm();
    var r := Shuffle(s, SwappedPair());
    GoalParity();
    SwappedPairParity();
    Inversions.ParityBlocksSolving(r.tiles, 3, Goal());
    forall clicks | InGrid(clicks, 3)
      ensures !Clicks(r, clicks).won
    {
      WrongParityNeverWins(r, clicks);
    }
  }

  /** A shuffle that always deals a winnable board: start from the goal
      and move the blank `moves` times to a neighbouring cell, as the image
      puzzle does (`choices` stands for the random picks). */
  method ShuffleByMoves(s: State, moves: nat, choices: seq<nat>) returns (r: State)
    requires |choices| == moves
    ensures IsPerm(r.tiles, 9) && !r.won
    ensures Solvable(r.tiles, 3, Goal())
  {
    GoalIsPerm();
    var tiles, _ := Tiles.ShuffleByMoves(Goal(), 3, moves, choices);
    r := State(tiles, false);
  }

  /** On a board dealt by `ShuffleByMoves` some sequence of clicks reaches
      the goal. */
  lemma SolvableHasWinningClicks(s: State)
    requires IsPerm(s.tiles, 9) && Solvable(s.tiles, 3, Goal())
    ensures exists clicks :: InGrid(clicks, 3) && Clicks(s, clicks).tiles == Goal()
  {
    var clicks :| InGrid(clicks, 3) && Play(s.tiles, 3, clicks) == Goal();
    ClicksArePlay(s, clicks);
  }
}
