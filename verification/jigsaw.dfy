/** The image puzzle: the player picks a category and an image, the image
    is cut into a `GridSize(level)`-wide grid of tiles with tile 0 as the
    hole, the tiles are shuffled by legal moves of the hole, and a click
    on a tile next to the hole slides it.  The puzzle is won when every
    tile is back in its own cell. */
module Jigsaw {
  import opened Common
  import opened Tiles

  /** The screen the game shows (`gameState`). */
  datatype Phase = Selection | ImageSelection | Playing | Won

  /** Categories and images are kept as indices into the fixed catalogue. */
  datatype State = State(
    level: nat,
    category: Option<nat>,
    image: Option<nat>,
    tiles: seq<int>,
    phase: Phase)

  /** The first screen: level 1, nothing chosen, no tiles. */
  function Initial(): (s: State)
    ensures Valid(s) && s.level == 1 && s.phase == Selection
  {
    State(1, None, None, [], Selection)
  }

  /** `gridSize`: two more than the level, capped at five. */
  function GridSize(level: nat): (n: nat)
    ensures 2 <= n <= 5
    ensures level >= 1 ==> 3 <= n
    ensures level <= 3 ==> n == level + 2
    ensures level >= 3 ==> n == 5
  {
    2 + Min(level, 3)
  }

  /** How many moves of the hole the shuffle makes (`shuffleMoves`). */
  function ShuffleMoves(level: nat): nat {
    100 + level * 50
  }

  /** The tiles every one of which is in its own cell. */
  predicate InPlace(t: seq<int>) {
    forall i :: 0 <= i < |t| ==> t[i] == i
  }

  lemma InPlaceIsRange(t: seq<int>)
    ensures InPlace(t) <==> t == Range(|t|)
  {
  }

  /** What holds on every screen: the level is at least one; while the
      puzzle is on screen the tiles are an arrangement of the grid's
      cells, and a won puzzle has every tile in place. */
  predicate Valid(s: State) {
    && s.level >= 1
    && (s.phase == Playing || s.phase == Won ==>
          IsPerm(s.tiles, GridSize(s.level) * GridSize(s.level)))
    && (s.phase == Won ==> InPlace(s.tiles))
  }

  /** A category card: remember it and move to the image screen. */
  function ChooseCategory(s: State, category: nat): (r: State)
    requires Valid(s)
    ensures Valid(r)
    ensures r.phase == ImageSelection && r.category == Some(category)
    ensures r.level == s.level && r.image == s.image && r.tiles == s.tiles
  {
    s.(category := Some(category), phase := ImageSelection)
  }

  /** The back buttons: return to the category screen, keeping the level. */
  function BackToSelection(s: State): (r: State)
    requires Valid(s)
    ensures Valid(r)
    ensures r.phase == Selection
    ensures r.level == s.level && r.category == s.category && r.tiles == s.tiles
  {
    s.(phase := Selection)
  }

  /** `initGame`: start from the solved grid and make `ShuffleMoves(level)`
      random legal moves of the hole; `choices` stands for the random
      picks.  The dealt puzzle can always be clicked back to the picture. */
  method InitGame(s: State, image: nat, choices: seq<nat>) returns (r: State)
    requires Valid(s)
    requires |choices| == ShuffleMoves(s.level)
    ensures Valid(r) && r.phase == Playing
    ensures r.level == s.level && r.category == s.category && r.image == Some(image)
    ensures var n := GridSize(r.level);
      |r.tiles| == n * n && Solvable(r.tiles, n, Range(n * n))
  {
    var n := GridSize(s.level);
    assert IsPerm(Range(n * n), n * n);
    var tiles, _ := ShuffleByMoves(Range(n * n), n, ShuffleMoves(s.level), choices);
    PermFacts(tiles, n * n);
    r := s.(image := Some(image), tiles := tiles, phase := Playing);
  }

  /** `swapTiles`: outside the playing screen a click does nothing; on it,
      a tile orthogonally next to the hole trades places with the hole,
      and the game is won when that move puts every tile in place. */
  function SwapTiles(s: State, index: int): (r: State)
    requires Valid(s)
    requires s.phase == Playing ==> 0 <= index < |s.tiles|
    ensures Valid(r)
    ensures r.level == s.level && r.category == s.category && r.image == s.image
    ensures s.phase != Playing ==> r == s
    ensures s.phase == Playing ==>
      var n := GridSize(s.level);
      var e := Blank(s.tiles, n);
      if Adjacent(index, e, n) then
        && |r.tiles| == |s.tiles|
        && r.tiles[index] == 0
        && r.tiles[e] == s.tiles[index]
        && (forall k :: 0 <= k < |s.tiles| && k != index && k != e ==> r.tiles[k] == s.tiles[k])
        && (r.phase == Won <==> r.tiles == Range(n * n))
        && (r.phase != Won ==> r.phase == Playing)
      else r == s
  {
    if s.phase != Playing then s
    else
      var n := GridSize(s.level);
      PermFacts(s.tiles, n * n);
      var e := IndexOf(s.tiles, 0);
      if Adjacent(index, e, n) then
        var t := Swap(s.tiles, index, e);
        SwapKeepsPerm(s.tiles, n * n, index, e);
        PermFacts(t, n * n);
        InPlaceIsRange(t);
        s.(tiles := t, phase := if InPlace(t) then Won else Playing)
      else s
  }

  /** "Next level" on the winning screen: the level goes up by exactly one
      and the game returns to the category screen. */
  function NextLevel(s: State): (r: State)
    requires Valid(s)
    ensures Valid(r)
    ensures r.level == s.level + 1 && r.phase == Selection
    ensures GridSize(r.level) == Min(GridSize(s.level) + 1, 5)
  {
    s.(level := s.level + 1, phase := Selection)
  }

  /** On the playing screen a click is the shared slide on the grid. */
  lemma SwapTilesIsSlide(s: State, index: int)
    requires Valid(s) && s.phase == Playing && 0 <= index < |s.tiles|
    ensures var n := GridSize(s.level);
      SwapTiles(s, index).tiles == Slide(s.tiles, n, index)
  {
    PermFacts(s.tiles, GridSize(s.level) * GridSize(s.level));
  }

  /** The state after a sequence of clicks on the grid. */
  function Clicks(s: State, clicks: seq<int>): (r: State)
    requires Valid(s) && InGrid(clicks, GridSize(s.level))
    requires s.phase == Playing || s.phase == Won
    ensures Valid(r) && r.level == s.level && (r.phase == Playing || r.phase == Won)
    decreases |clicks|
  {
    PermFacts(s.tiles, GridSize(s.level) * GridSize(s.level));
    if clicks == [] then s else Clicks(SwapTiles(s, clicks[0]), clicks[1..])
  }

  /** Once won, clicks change nothing. */
  lemma {:induction false} WonIsFinal(s: State, clicks: seq<int>)
    requires Valid(s) && s.phase == Won && InGrid(clicks, GridSize(s.level))
    ensures Clicks(s, clicks) == s
    decreases |clicks|
  {
    if clicks != [] {
      WonIsFinal(SwapTiles(s, clicks[0]), clicks[1..]);
    }
  }

  /** Clicks that lead the board to the picture win the game, provided the
      board did not already show it: the first click that completes the
      picture is a real move, and it raises the win. */
  lemma {:induction false} ReachingPictureWins(s: State, clicks: seq<int>)
    requires Valid(s) && s.phase == Playing
    requires InGrid(clicks, GridSize(s.level))
    requires var n := GridSize(s.level); Play(s.tiles, n, clicks) == Range(n * n)
    requires s.tiles != Range(GridSize(s.level) * GridSize(s.level))
    ensures Clicks(s, clicks).phase == Won
    decreases |clicks|
  {
    var n := GridSize(s.level);
    PermFacts(s.tiles, n * n);
    if clicks != [] {
      var s1 := SwapTiles(s, clicks[0]);
      SwapTilesIsSlide(s, clicks[0]);
      if s1.phase == Won {
        WonIsFinal(s1, clicks[1..]);
      } else {
        PermFacts(s1.tiles, n * n);
        ReachingPictureWins(s1, clicks[1..]);
      }
    }
  }

  /** A dealt puzzle not already showing the picture can be won. */
  lemma DealtPuzzleCanBeWon(s: State)
    requires Valid(s) && s.phase == Playing
    requires var n := GridSize(s.level); Solvable(s.tiles, n, Range(n * n))
    requires s.tiles != Range(GridSize(s.level) * GridSize(s.level))
    ensures exists clicks :: InGrid(clicks, GridSize(s.level)) && Clicks(s, clicks).phase == Won
  {
    var n := GridSize(s.level);
    var clicks :| InGrid(clicks, n) && Play(s.tiles, n, clicks) == Range(n * n);
    ReachingPictureWins(s, clicks);
  }
}
