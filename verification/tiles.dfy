/** Tile boards shared by the 8-puzzle and the image puzzle: a board of
    width `w` is a sequence of `w * w` tile numbers, a permutation of
    0 .. w*w-1, read row by row; tile 0 is the blank.  A click on a cell
    next to the blank slides that tile into the blank. */
module Tiles {
  import opened Common

  /** The numbers 0 .. n-1 in order (`Array.from({ length: n }, (_, i) => i)`). */
  function Range(n: nat): (r: seq<int>)
    ensures |r| == n
    ensures forall i :: 0 <= i < n ==> r[i] == i
  {
    seq(n, i => i)
  }

  /** `s` is a rearrangement of 0 .. n-1. */
  predicate IsPerm(s: seq<int>, n: nat) {
    multiset(s) == multiset(Range(n))
  }

  /** Every click index lies on a `w`-wide board. */
  predicate InGrid(clicks: seq<int>, w: nat) {
    forall k :: 0 <= k < |clicks| ==> 0 <= clicks[k] < w * w
  }

  lemma {:induction false} RangeCount(n: nat, v: int)
    ensures multiset(Range(n))[v] == if 0 <= v < n then 1 else 0
  {
    if n > 0 {
      assert Range(n) == Range(n - 1) + [n - 1];
      RangeCount(n - 1, v);
    }
  }

  /** A permutation of 0 .. n-1 has length n, holds only values in range
      and holds each of them. */
  lemma PermFacts(s: seq<int>, n: nat)
    requires IsPerm(s, n)
    ensures |s| == n
    ensures forall i :: 0 <= i < |s| ==> 0 <= s[i] < n
    ensures forall v :: 0 <= v < n ==> v in s
  {
    assert |s| == |multiset(s)| == |multiset(Range(n))| == n;
    forall i | 0 <= i < |s|
      ensures 0 <= s[i] < n
    {
      assert s[i] in multiset(s);
      RangeCount(n, s[i]);
    }
    forall v | 0 <= v < n
      ensures v in s
    {
      RangeCount(n, v);
      assert v in multiset(s);
    }
  }

  /** No value occurs twice in a permutation. */
  lemma PermDistinct(s: seq<int>, n: nat, a: int, b: int)
    requires IsPerm(s, n)
    requires 0 <= a < |s| && 0 <= b < |s| && s[a] == s[b]
    ensures a == b
  {
    if a != b {
      PermFacts(s, n);
      var v := s[a];
      var t := s[a := -1];
      assert multiset(t) == multiset(s) - multiset{v} + multiset{-1};
      assert t[b] == v;
      assert v in multiset(t);
      RangeCount(n, v);
      assert false;
    }
  }

  /** Exchanges the tiles in cells `i` and `j` (the source's
      destructuring swap `[t[i], t[j]] = [t[j], t[i]]`). */
  function Swap(s: seq<int>, i: int, j: int): (r: seq<int>)
    requires 0 <= i < |s| && 0 <= j < |s|
    ensures |r| == |s|
    ensures r[i] == s[j] && r[j] == s[i]
    ensures forall k :: 0 <= k < |s| && k != i && k != j ==> r[k] == s[k]
    ensures multiset(r) == multiset(s)
  {
    s[i := s[j]][j := s[i]]
  }

  /** First position holding `v` (`Array.prototype.indexOf`). */
  function IndexOf(s: seq<int>, v: int): (k: nat)
    requires v in s
    ensures k < |s| && s[k] == v
    ensures forall j :: 0 <= j < k ==> s[j] != v
  {
    if s[0] == v then 0 else 1 + IndexOf(s[1..], v)
  }

  /** The cell holding the blank tile 0. */
  function Blank(s: seq<int>, w: nat): (e: nat)
    requires IsPerm(s, w * w) && w > 0
    ensures e < |s| && e < w * w && s[e] == 0
  {
    PermFacts(s, w * w);
    IndexOf(s, 0)
  }

  /** The blank is wherever a 0 is: a permutation holds exactly one. */
  lemma BlankAt(s: seq<int>, w: nat, e: int)
    requires IsPerm(s, w * w) && w > 0
    requires 0 <= e < |s| && s[e] == 0
    ensures Blank(s, w) == e
  {
    PermDistinct(s, w * w, e, Blank(s, w));
  }

  /** Cells `i` and `j` are orthogonal neighbours on a `w`-wide board: the
      image puzzle's test, rows differ by one in the same column or
      columns differ by one in the same row. */
  predicate Adjacent(i: int, j: int, w: nat)
    requires w > 0
  {
    (Abs(i / w - j / w) == 1 && i % w == j % w) ||
    (Abs(i % w - j % w) == 1 && i / w == j / w)
  }

  /** The 8-puzzle's test, Manhattan distance exactly one, is the same
      relation. */
  lemma ManhattanIsAdjacent(i: int, j: int, w: nat)
    requires w > 0
    ensures Abs(i / w - j / w) + Abs(i % w - j % w) == 1 <==> Adjacent(i, j, w)
  {
  }

  /** Multiplying by a non-negative width keeps a strict order apart by
      at least the width. */
  lemma MulStep(a: int, b: int, w: nat)
    requires a < b
    ensures a * w + w <= b * w
  {
    var d := b - a - 1;
    assert d >= 0;
    assert d * w >= 0;
    assert b * w == a * w + w + d * w;
  }

  /** Division by `w` is determined by quotient and remainder. */
  lemma DivMod(x: int, w: nat, q: int, r: int)
    requires w > 0 && 0 <= r < w && x == q * w + r
    ensures x / w == q && x % w == r
  {
    var q', r' := x / w, x % w;
    assert x == q' * w + r';
    if q' > q {
      MulStep(q, q', w);
    } else if q' < q {
      MulStep(q', q, w);
    }
  }

  /** A neighbour differs from its cell by one row (±w) or one column (±1). */
  lemma AdjacentOffsets(e: int, m: int, w: nat)
    requires w > 0 && 0 <= e && 0 <= m && Adjacent(e, m, w)
    ensures m == e - w || m == e + w || m == e - 1 || m == e + 1
  {
    var re, ce, rm, cm := e / w, e % w, m / w, m % w;
    assert e == re * w + ce;
    assert m == rm * w + cm;
    if rm == re + 1 {
      assert rm * w == re * w + w;
    } else if rm == re - 1 {
      assert rm * w == re * w - w;
    }
  }

  /** Row and column arithmetic for the cell above `e`. */
  lemma UpArith(e: int, w: nat)
    requires w > 0 && 0 <= e
    ensures e / w > 0 ==> (e - w) / w == e / w - 1 && (e - w) % w == e % w
  {
    var row, col := e / w, e % w;
    if row > 0 {
      DivParts(e, w);
      MulShift(row - 1, row, w);
      DivMod(e - w, w, row - 1, col);
    }
  }

  /** Row and column arithmetic for the cell below `e`. */
  lemma DownArith(e: int, w: nat)
    requires w > 0 && 0 <= e
    ensures e / w < w - 1 ==> e + w < w * w && (e + w) / w == e / w + 1 && (e + w) % w == e % w
  {
    var row, col := e / w, e % w;
    if row < w - 1 {
      DivParts(e, w);
      MulShift(row, row + 1, w);
      DivMod(e + w, w, row + 1, col);
      MulStep(row + 1, w, w);
    }
  }

  /** Row and column arithmetic for the cells left and right of `e`. */
  lemma SideArith(e: int, w: nat)
    requires w > 0 && 0 <= e
    ensures e % w > 0 ==> (e - 1) / w == e / w && (e - 1) % w == e % w - 1
    ensures e % w < w - 1 ==> (e + 1) / w == e / w && (e + 1) % w == e % w + 1
  {
    var row, col := e / w, e % w;
    DivParts(e, w);
    if col > 0 {
      DivMod(e - 1, w, row, col - 1);
    }
    if col < w - 1 {
      DivMod(e + 1, w, row, col + 1);
    }
  }

  /** The cells orthogonally next to `e`, in the order the image puzzle's
      shuffle lists them: above, below, left, right. */
  function Neighbours(e: int, w: nat): (ns: seq<int>)
    requires w > 0 && 0 <= e < w * w
    ensures forall k :: 0 <= k < |ns| ==> 0 <= ns[k] < w * w && Adjacent(e, ns[k], w)
    ensures forall m :: 0 <= m < w * w && Adjacent(e, m, w) ==> m in ns
    ensures w >= 2 ==> |ns| >= 2
  {
    var row, col := e / w, e % w;
    var up := if row > 0 then [e - w] else [];
    var down := if row < w - 1 then [e + w] else [];
    var left := if col > 0 then [e - 1] else [];
    var right := if col < w - 1 then [e + 1] else [];
    NeighboursCorrect(e, w, up, down, left, right);
    up + down + left + right
  }

  lemma NeighboursCorrect(e: int, w: nat, up: seq<int>, down: seq<int>, left: seq<int>, right: seq<int>)
    requires w > 0 && 0 <= e < w * w
    requires up == (if e / w > 0 then [e - w] else [])
    requires down == (if e / w < w - 1 then [e + w] else [])
    requires left == (if e % w > 0 then [e - 1] else [])
    requires right == (if e % w < w - 1 then [e + 1] else [])
    ensures var ns := up + down + left + right;
      (forall k :: 0 <= k < |ns| ==> 0 <= ns[k] < w * w && Adjacent(e, ns[k], w)) &&
      (forall m :: 0 <= m < w * w && Adjacent(e, m, w) ==> m in ns) &&
      (w >= 2 ==> |ns| >= 2)
  {
    CandidatesAdjacent(e, w);
    var ns := up + down + left + right;
    forall m | 0 <= m < w * w && Adjacent(e, m, w)
      ensures m in ns
    {
      NeighbourComplete(e, m, w);
    }
  }

  /** Each guarded candidate is on the board and next to `e`. */
  lemma CandidatesAdjacent(e: int, w: nat)
    requires w > 0 && 0 <= e < w * w
    ensures e / w > 0 ==> 0 <= e - w < w * w && Adjacent(e, e - w, w)
    ensures e / w < w - 1 ==> 0 <= e + w < w * w && Adjacent(e, e + w, w)
    ensures e % w > 0 ==> 0 <= e - 1 < w * w && Adjacent(e, e - 1, w)
    ensures e % w < w - 1 ==> 0 <= e + 1 < w * w && Adjacent(e, e + 1, w)
    ensures w >= 2 ==> (e / w > 0 || e / w < w - 1) && (e % w > 0 || e % w < w - 1)
  {
    DivParts(e, w);
    CandidateUp(e, w);
    CandidateDown(e, w);
    CandidateSides(e, w);
    LastCell(e, w);
  }

  /** Only the last cell of the board has no cell after it, and it ends
      a row. */
  lemma LastCell(e: int, w: nat)
    requires w > 0 && 0 <= e < w * w
    ensures e % w < w - 1 ==> e + 1 < w * w
  {
    if e + 1 >= w * w {
      MulShift(w - 1, w, w);
      DivMod(e, w, w - 1, w - 1);
    }
  }

  lemma CandidateUp(e: int, w: nat)
    requires w > 0 && 0 <= e < w * w
    ensures e / w > 0 ==> 0 <= e - w < w * w && Adjacent(e, e - w, w)
  {
    DivParts(e, w);
    UpArith(e, w);
  }

  lemma CandidateDown(e: int, w: nat)
    requires w > 0 && 0 <= e
    ensures e / w < w - 1 ==> 0 <= e + w < w * w && Adjacent(e, e + w, w)
  {
    DownArith(e, w);
  }

  lemma CandidateSides(e: int, w: nat)
    requires w > 0 && 0 <= e
    ensures e % w > 0 ==> 0 <= e - 1 && Adjacent(e, e - 1, w)
    ensures e % w < w - 1 ==> Adjacent(e, e + 1, w)
  {
    DivParts(e, w);
    SideArith(e, w);
  }

  /** Any neighbour of `e` is one of the four candidates, and its guard holds. */
  lemma NeighbourComplete(e: int, m: int, w: nat)
    requires w > 0 && 0 <= e < w * w && 0 <= m < w * w && Adjacent(e, m, w)
    ensures (m == e - w && e / w > 0) || (m == e + w && e / w < w - 1)
         || (m == e - 1 && e % w > 0) || (m == e + 1 && e % w < w - 1)
  {
    var re, ce, rm, cm := e / w, e % w, m / w, m % w;
    DivParts(e, w);
    DivParts(m, w);
    DivBound(m, w);
    MulShift(re, rm, w);
    MulShift(rm, re, w);
    NeighbourCases(e, m, w, re, ce, rm, cm, re * w, rm * w);
  }

  /** Quotient and remainder of a non-negative number. */
  lemma DivParts(x: int, w: nat)
    requires w > 0 && 0 <= x
    ensures x == (x / w) * w + x % w && 0 <= x % w < w && 0 <= x / w
  {
  }

  /** The next multiple of `w`. */
  lemma MulShift(a: int, b: int, w: int)
    ensures b == a + 1 ==> b * w == a * w + w
  {
    if b == a + 1 {
      MulSucc(a, w);
    }
  }

  /** The case split of `NeighbourComplete` with the products named, so
      that only linear arithmetic is left. */
  lemma NeighbourCases(e: int, m: int, w: int, re: int, ce: int, rm: int, cm: int, pe: int, pm: int)
    requires 0 <= ce < w && 0 <= cm < w && 0 <= rm < w && 0 <= re
    requires e == pe + ce && m == pm + cm
    requires rm == re + 1 ==> pm == pe + w
    requires re == rm + 1 ==> pe == pm + w
    requires re == rm ==> pe == pm
    requires (Abs(re - rm) == 1 && ce == cm) || (Abs(ce - cm) == 1 && re == rm)
    ensures (m == e - w && re > 0) || (m == e + w && re < w - 1)
         || (m == e - 1 && ce > 0) || (m == e + 1 && ce < w - 1)
  {
  }

  lemma MulSucc(a: int, w: int)
    ensures (a + 1) * w == a * w + w
  {
  }

  lemma DivBound(x: int, w: nat)
    requires w > 0 && 0 <= x < w * w
    ensures x / w < w
  {
    var q := x / w;
    assert x == q * w + x % w;
    if q >= w {
      MulStep(w - 1, q, w);
    }
  }

  /** A click on cell `i`: when `i` is next to the blank the two cells
      trade places, otherwise nothing changes. */
  function Slide(s: seq<int>, w: nat, i: int): (r: seq<int>)
    requires w > 0 && IsPerm(s, w * w) && 0 <= i < w * w
    ensures IsPerm(r, w * w)
    ensures |r| == |s|
  {
    PermFacts(s, w * w);
    var e := Blank(s, w);
    if Adjacent(i, e, w) then Swap(s, i, e) else s
  }

  /** The board after the clicks in order. */
  function Play(s: seq<int>, w: nat, clicks: seq<int>): (r: seq<int>)
    requires w > 0 && IsPerm(s, w * w) && InGrid(clicks, w)
    ensures IsPerm(r, w * w)
    decreases |clicks|
  {
    if clicks == [] then s else Play(Slide(s, w, clicks[0]), w, clicks[1..])
  }

  /** Every click lands next to the blank of the board it is made on. */
  predicate Legal(s: seq<int>, w: nat, clicks: seq<int>)
    requires w > 0 && IsPerm(s, w * w) && InGrid(clicks, w)
    decreases |clicks|
  {
    clicks == [] ||
    (Adjacent(clicks[0], Blank(s, w), w) && Legal(Slide(s, w, clicks[0]), w, clicks[1..]))
  }

  /** Some sequence of clicks takes `s` to `goal`. */
  ghost predicate Solvable(s: seq<int>, w: nat, goal: seq<int>)
    requires w > 0 && IsPerm(s, w * w)
  {
    exists clicks :: InGrid(clicks, w) && Play(s, w, clicks) == goal
  }

  lemma {:induction false} PlayAppend(s: seq<int>, w: nat, clicks: seq<int>, c: int)
    requires w > 0 && IsPerm(s, w * w) && InGrid(clicks, w) && 0 <= c < w * w
    ensures InGrid(clicks + [c], w)
    ensures Play(s, w, clicks + [c]) == Slide(Play(s, w, clicks), w, c)
    decreases |clicks|
  {
    if clicks != [] {
      assert (clicks + [c])[1..] == clicks[1..] + [c];
      PlayAppend(Slide(s, w, clicks[0]), w, clicks[1..], c);
    }
  }

  lemma {:induction false} LegalAppend(s: seq<int>, w: nat, clicks: seq<int>, c: int)
    requires w > 0 && IsPerm(s, w * w) && InGrid(clicks, w) && 0 <= c < w * w
    requires Legal(s, w, clicks) && Adjacent(c, Blank(Play(s, w, clicks), w), w)
    ensures InGrid(clicks + [c], w)
    ensures Legal(s, w, clicks + [c])
    decreases |clicks|
  {
    if clicks == [] {
      assert clicks + [c] == [c];
      assert Play(s, w, clicks) == s;
      assert [c][1..] == [];
    } else {
      assert (clicks + [c])[1..] == clicks[1..] + [c];
      LegalAppend(Slide(s, w, clicks[0]), w, clicks[1..], c);
    }
  }

  /** Clicking the cell the blank just left slides the tile back. */
  lemma SlideBack(s: seq<int>, w: nat, i: int)
    requires w > 0 && IsPerm(s, w * w) && 0 <= i < w * w
    requires Adjacent(i, Blank(s, w), w)
    ensures Adjacent(Blank(s, w), Blank(Slide(s, w, i), w), w)
    ensures Slide(Slide(s, w, i), w, Blank(s, w)) == s
  {
    PermFacts(s, w * w);
    var e := Blank(s, w);
    var t := Slide(s, w, i);
    assert t == Swap(s, i, e);
    BlankAt(t, w, i);
    assert Slide(t, w, e) == Swap(t, e, i);
  }

  /** The clicks that retrace a legal sequence backwards. */
  function Undo(s: seq<int>, w: nat, clicks: seq<int>): (u: seq<int>)
    requires w > 0 && IsPerm(s, w * w) && InGrid(clicks, w)
    ensures |u| == |clicks| && InGrid(u, w)
    decreases |clicks|
  {
    if clicks == [] then []
    else Undo(Slide(s, w, clicks[0]), w, clicks[1..]) + [Blank(s, w)]
  }

  /** Every board reached by legal clicks can be clicked back to where it
      started: shuffling by legal moves only ever yields solvable boards. */
  lemma {:induction false} UndoPlay(s: seq<int>, w: nat, clicks: seq<int>)
    requires w > 0 && IsPerm(s, w * w) && InGrid(clicks, w)
    requires Legal(s, w, clicks)
    ensures Play(Play(s, w, clicks), w, Undo(s, w, clicks)) == s
    decreases |clicks|
  {
    if clicks != [] {
      var s1 := Slide(s, w, clicks[0]);
      UndoPlay(s1, w, clicks[1..]);
      var u1 := Undo(s1, w, clicks[1..]);
      PlayAppend(Play(s1, w, clicks[1..]), w, u1, Blank(s, w));
      SlideBack(s, w, clicks[0]);
    }
  }

  lemma LegalIsSolvable(s: seq<int>, w: nat, clicks: seq<int>)
    requires w > 0 && IsPerm(s, w * w) && InGrid(clicks, w)
    requires Legal(s, w, clicks)
    ensures Solvable(Play(s, w, clicks), w, s)
  {
    UndoPlay(s, w, clicks);
    var u := Undo(s, w, clicks);
    assert InGrid(u, w) && Play(Play(s, w, clicks), w, u) == s;
  }

  /** Swapping the blank with a cell keeps a permutation. */
  lemma SwapKeepsPerm(s: seq<int>, n: nat, i: int, j: int)
    requires IsPerm(s, n) && 0 <= i < |s| && 0 <= j < |s|
    ensures IsPerm(Swap(s, i, j), n)
  {
  }

  /** Adjacency does not depend on which cell is named first. */
  lemma AdjacentSymmetric(i: int, j: int, w: nat)
    requires w > 0
    ensures Adjacent(i, j, w) == Adjacent(j, i, w)
  {
  }

  /** One shuffle step moves the blank to a neighbour: the path grows by a
      legal click and the board follows it. */
  lemma ShuffleStep(start: seq<int>, w: nat, path: seq<int>, tiles: seq<int>, empty: int, move: int)
    requires w > 0 && IsPerm(start, w * w) && InGrid(path, w) && Legal(start, w, path)
    requires tiles == Play(start, w, path) && |tiles| == w * w
    requires 0 <= empty < w * w && tiles[empty] == 0
    requires 0 <= move < w * w && Adjacent(empty, move, w)
    ensures InGrid(path + [move], w) && Legal(start, w, path + [move])
    ensures Swap(tiles, empty, move) == Play(start, w, path + [move])
    ensures IsPerm(Swap(tiles, empty, move), w * w)
  {
    BlankAt(tiles, w, empty);
    AdjacentSymmetric(move, empty, w);
    LegalAppend(start, w, path, move);
    PlayAppend(start, w, path, move);
    assert Slide(tiles, w, move) == Swap(tiles, move, empty);
    assert Swap(tiles, move, empty) == Swap(tiles, empty, move);
  }

  /** The image puzzle's shuffle: from `start`, move the blank `moves`
      times, each time to one of its orthogonal neighbours; `choices[k]`
      stands for the random pick of step `k` (any value selects one of
      the neighbours).  Because every step is a legal move, the result
      can always be clicked back to `start`. */
  method ShuffleByMoves(start: seq<int>, w: nat, moves: nat, choices: seq<nat>)
    returns (tiles: seq<int>, empty: nat)
    requires w >= 2 && IsPerm(start, w * w) && |choices| == moves
    ensures IsPerm(tiles, w * w)
    ensures empty < |tiles| && tiles[empty] == 0
    ensures Solvable(tiles, w, start)
  {
    PermFacts(start, w * w);
    tiles := start;
    empty := Blank(start, w);
    ghost var path: seq<int> := [];
    var i := 0;
    while i < moves
      invariant 0 <= i <= moves
      invariant IsPerm(tiles, w * w) && |tiles| == w * w
      invariant empty < w * w && tiles[empty] == 0
      invariant InGrid(path, w) && Legal(start, w, path) && tiles == Play(start, w, path)
    {
      var ns := Neighbours(empty, w);
      var move := ns[choices[i] % |ns|];
      ShuffleStep(start, w, path, tiles, empty, move);
      tiles := Swap(tiles, empty, move);
      path := path + [move];
      empty := move;
      i := i + 1;
    }
    LegalIsSolvable(start, w, path);
  }
}
