/** Checkers on an 8×8 board.  Player One (the light pieces) starts on
    rows 5..7 and moves up the board, player Two on rows 0..2 and moves
    down.  A turn is a diagonal step or a single jump over an opposing
    piece; there are no forced captures and no chained jumps.  A piece
    reaching the far row is crowned, and a player left with no pieces
    loses. */
module Checkers {
  import opened Common

  /** A board square's content.  `Man` is an ordinary piece (crowned or
      not).  `Phantom` is the object the source builds when it moves a
      piece out of an empty square (a spread of `null`): it belongs to
      nobody, but it blocks squares and can be jumped over. */
  datatype Piece = Man(player: Player, king: bool) | Phantom(king: bool)

  type Square = Option<Piece>
  type Board = seq<seq<Square>>

  datatype Pos = Pos(r: int, c: int)

  datatype State = State(
    board: Board,
    current: Player,
    selected: Option<Pos>,
    winner: Option<Player>)

  predicate OnBoard(r: int, c: int) {
    0 <= r < 8 && 0 <= c < 8
  }

  predicate ValidBoard(b: Board) {
    |b| == 8 && forall i :: 0 <= i < 8 ==> |b[i]| == 8
  }

  /** The board is 8×8 and the selection, if any, is a square of it. */
  predicate Valid(s: State) {
    && ValidBoard(s.board)
    && (s.selected.Some? ==> OnBoard(s.selected.value.r, s.selected.value.c))
  }

  /** The square holds a piece of player `p`. */
  predicate IsMan(q: Square, p: Player) {
    q.Some? && q.value.Man? && q.value.player == p
  }

  /** `b` with square (r, c) replaced by `v`. */
  function Set(b: Board, r: int, c: int, v: Square): (b': Board)
    requires ValidBoard(b) && OnBoard(r, c)
    ensures ValidBoard(b')
    ensures b'[r][c] == v
    ensures forall i, j :: OnBoard(i, j) && (i != r || j != c) ==> b'[i][j] == b[i][j]
  {
    b[r := b[r][c := v]]
  }

  // ---------------------------------------------------------------- setup

  /** The square (r, c) of the opening position. */
  function InitialSquare(r: int, c: int): Square {
    if (r + c) % 2 == 1 && r < 3 then Some(Man(Two, false))
    else if (r + c) % 2 == 1 && r >= 5 then Some(Man(One, false))
    else None
  }

  /** `initializeBoard`. */
  function InitialBoard(): (b: Board)
    ensures ValidBoard(b)
    ensures forall r, c :: OnBoard(r, c) && b[r][c].Some? ==>
      && (r + c) % 2 == 1
      && b[r][c].value.Man? && !b[r][c].value.king
      && (b[r][c].value.player == Two <==> r <= 2)
      && (b[r][c].value.player == One <==> r >= 5)
    ensures forall r, c :: OnBoard(r, c) ==>
      (b[r][c].Some? <==> (r + c) % 2 == 1 && (r <= 2 || r >= 5))
  {
    seq(8, r => seq(8, c => InitialSquare(r, c)))
  }

  // --------------------------------------------------------------- counts

  /** Pieces of player `p` in `row` from column `j` on. */
  function RowCount(row: seq<Square>, p: Player, j: nat): nat
    decreases |row| - j
  {
    if j >= |row| then 0 else (if IsMan(row[j], p) then 1 else 0) + RowCount(row, p, j + 1)
  }

  /** Pieces of player `p` on the board from row `i` on. */
  function BoardCount(b: Board, p: Player, i: nat): nat
    decreases |b| - i
  {
    if i >= |b| then 0 else RowCount(b[i], p, 0) + BoardCount(b, p, i + 1)
  }

  /** The source's `b.flat().filter(p => p?.player === ...).length`. */
  function Count(b: Board, p: Player): nat {
    BoardCount(b, p, 0)
  }

  lemma {:induction false} RowCountZero(row: seq<Square>, p: Player, j: nat)
    ensures RowCount(row, p, j) == 0 <==> forall k :: j <= k < |row| ==> !IsMan(row[k], p)
    decreases |row| - j
  {
    if j < |row| {
      RowCountZero(row, p, j + 1);
    }
  }

  lemma {:induction false} BoardCountZero(b: Board, p: Player, i: nat)
    ensures BoardCount(b, p, i) == 0 <==>
      forall k, c :: i <= k < |b| && 0 <= c < |b[k]| ==> !IsMan(b[k][c], p)
    decreases |b| - i
  {
    if i < |b| {
      RowCountZero(b[i], p, 0);
      BoardCountZero(b, p, i + 1);
    }
  }

  /** A player's count is zero exactly when none of their pieces is left. */
  lemma CountZeroIffNone(b: Board, p: Player)
    requires ValidBoard(b)
    ensures Count(b, p) == 0 <==> forall r, c :: OnBoard(r, c) ==> !IsMan(b[r][c], p)
  {
    BoardCountZero(b, p, 0);
  }

  lemma {:induction false} RowCountUpdate(row: seq<Square>, p: Player, j: nat, c: int, v: Square)
    requires 0 <= c < |row|
    ensures RowCount(row[c := v], p, j) ==
      RowCount(row, p, j)
      - (if j <= c && IsMan(row[c], p) then 1 else 0)
      + (if j <= c && IsMan(v, p) then 1 else 0)
    decreases |row| - j
  {
    if j < |row| {
      RowCountUpdate(row, p, j + 1, c, v);
    }
  }

  lemma {:induction false} BoardCountUpdate(b: Board, p: Player, i: nat, r: int, row: seq<Square>)
    requires 0 <= r < |b|
    ensures BoardCount(b[r := row], p, i) ==
      BoardCount(b, p, i)
      - (if i <= r then RowCount(b[r], p, 0) else 0)
      + (if i <= r then RowCount(row, p, 0) else 0)
    decreases |b| - i
  {
    if i < |b| {
      BoardCountUpdate(b, p, i + 1, r, row);
    }
  }

  /** Replacing one square changes a player's count by what left and
      what arrived. */
  lemma CountSet(b: Board, r: int, c: int, v: Square, p: Player)
    requires ValidBoard(b) && OnBoard(r, c)
    ensures Count(Set(b, r, c, v), p) ==
      Count(b, p) - (if IsMan(b[r][c], p) then 1 else 0) + (if IsMan(v, p) then 1 else 0)
  {
    RowCountUpdate(b[r], p, 0, c, v);
    BoardCountUpdate(b, p, 0, r, b[r][c := v]);
  }

  /** A row of the opening position alternates between its first two
      squares. */
  lemma InitialRow(r: int)
    requires 0 <= r < 8
    ensures var a, x := InitialSquare(r, 0), InitialSquare(r, 1);
      InitialBoard()[r] == [a, x, a, x, a, x, a, x]
  {
    var a, x := InitialSquare(r, 0), InitialSquare(r, 1);
    var row := InitialBoard()[r];
    forall c | 0 <= c < 8
      ensures row[c] == (if c % 2 == 0 then a else x)
    {
      assert (r + c) % 2 == (if c % 2 == 0 then r % 2 else (r + 1) % 2);
    }
    assert row == [a, x, a, x, a, x, a, x];
  }

  function Ind(b: bool): nat {
    if b then 1 else 0
  }

  lemma AlternatingCount(a: Square, x: Square, p: Player)
    ensures RowCount([a, x, a, x, a, x, a, x], p, 0) == 4 * (Ind(IsMan(a, p)) + Ind(IsMan(x, p)))
  {
    var row := [a, x, a, x, a, x, a, x];
    assert RowCount(row, p, 8) == 0;
    assert RowCount(row, p, 6) == Ind(IsMan(a, p)) + Ind(IsMan(x, p));
    assert RowCount(row, p, 4) == 2 * (Ind(IsMan(a, p)) + Ind(IsMan(x, p)));
    assert RowCount(row, p, 2) == 3 * (Ind(IsMan(a, p)) + Ind(IsMan(x, p)));
  }

  lemma InitialRowCount(r: int, p: Player)
    requires 0 <= r < 8
    ensures RowCount(InitialBoard()[r], p, 0) ==
      (if (p == Two && r <= 2) || (p == One && r >= 5) then 4 else 0)
  {
    InitialRow(r);
    AlternatingCount(InitialSquare(r, 0), InitialSquare(r, 1), p);
  }

  /** Each player opens with twelve pieces. */
  lemma InitialCounts()
    ensures Count(InitialBoard(), One) == 12
    ensures Count(InitialBoard(), Two) == 12
  {
    var b := InitialBoard();
    forall r, p | 0 <= r < 8
      ensures RowCount(b[r], p, 0) == (if (p == Two && r <= 2) || (p == One && r >= 5) then 4 else 0)
    {
      InitialRowCount(r, p);
    }
    assert BoardCount(b, One, 8) == 0;
    assert BoardCount(b, Two, 8) == 0;
  }

  // ---------------------------------------------------------------- moves

  /** A piece of the player to move stands on (r, c). */
  predicate OwnPiece(s: State, r: int, c: int)
    requires Valid(s) && OnBoard(r, c)
  {
    IsMan(s.board[r][c], s.current)
  }

  /** The direction a non-crowned piece of `p` may step: up for One, down
      for Two. */
  predicate Forward(p: Player, dr: int) {
    (p == One && dr < 0) || (p == Two && dr > 0)
  }

  /** The source's `board[sr][sc]?.isKing`. */
  predicate KingAt(b: Board, r: int, c: int)
    requires ValidBoard(b) && OnBoard(r, c)
  {
    b[r][c].Some? && b[r][c].value.king
  }

  /** The piece that may be jumped: anything on the square that is not a
      piece of the player to move (`midPiece.player !== currentPlayer`). */
  predicate Jumpable(q: Square, p: Player) {
    q.Some? && !IsMan(q, p)
  }

  /** The piece `movePiece` puts down: a copy of whatever stood on the
      source (a phantom if it was empty), crowned on the far row. */
  function Moved(q: Square, p: Player, row: int): (m: Piece)
    ensures q.Some? && q.value.Man? ==> m.Man? && m.player == q.value.player
    ensures q.None? ==> m.Phantom?
    ensures m.king <==> (q.Some? && q.value.king) || (p == One && row == 0) || (p == Two && row == 7)
  {
    var m := if q.Some? then q.value else Phantom(false);
    if (p == One && row == 0) || (p == Two && row == 7) then m.(king := true) else m
  }

  /** `checkWinner`: Two wins when One has no piece left, otherwise One
      wins when Two has none; otherwise the winner stays as it was. */
  function CheckWinner(b: Board, prior: Option<Player>): (w: Option<Player>)
    requires ValidBoard(b)
    ensures w == Some(Two) <==> (forall r, c :: OnBoard(r, c) ==> !IsMan(b[r][c], One)) || (prior == Some(Two) && Count(b, Two) > 0)
    ensures w == Some(One) <==> (exists r, c :: OnBoard(r, c) && IsMan(b[r][c], One)) &&
                                 ((forall r, c :: OnBoard(r, c) ==> !IsMan(b[r][c], Two)) || prior == Some(One))
  {
    CountZeroIffNone(b, One);
    CountZeroIffNone(b, Two);
    if Count(b, One) == 0 then Some(Two)
    else if Count(b, Two) == 0 then Some(One)
    else prior
  }

  /** `movePiece`: the piece from (sr, sc) lands on (dr, dc), the source
      and the captured square (if any) are emptied, the turn passes, the
      selection is cleared and the winner is checked. */
  function MovePiece(s: State, sr: int, sc: int, dr: int, dc: int, capture: Option<Pos>): (t: State)
    requires Valid(s) && OnBoard(sr, sc) && OnBoard(dr, dc) && (sr != dr || sc != dc)
    requires capture.Some? ==> OnBoard(capture.value.r, capture.value.c)
    requires capture.Some? ==> capture.value != Pos(sr, sc) && capture.value != Pos(dr, dc)
    ensures Valid(t)
    ensures t.board[dr][dc] == Some(Moved(s.board[sr][sc], s.current, dr))
    ensures t.board[sr][sc] == None
    ensures capture.Some? ==> t.board[capture.value.r][capture.value.c] == None
    ensures forall i, j ::
      (OnBoard(i, j) && Pos(i, j) != Pos(sr, sc) && Pos(i, j) != Pos(dr, dc) &&
       (capture.None? || Pos(i, j) != capture.value)) ==> t.board[i][j] == s.board[i][j]
    ensures t.current == s.current.Other() && t.selected == None
    ensures t.winner == CheckWinner(t.board, s.winner)
  {
    var piece := Moved(s.board[sr][sc], s.current, dr);
    var b1 := Set(s.board, dr, dc, Some(piece));
    var b2 := Set(b1, sr, sc, None);
    var b3 := if capture.Some? then Set(b2, capture.value.r, capture.value.c, None) else b2;
    State(b3, s.current.Other(), None, CheckWinner(b3, s.winner))
  }

  /** (r, c) is one square diagonally from the selection, forward unless
      the selected piece is crowned: the source's simple move. */
  predicate StepTarget(s: State, r: int, c: int)
    requires Valid(s) && s.selected.Some?
  {
    var sr, sc := s.selected.value.r, s.selected.value.c;
    Abs(r - sr) == 1 && Abs(c - sc) == 1 && (Forward(s.current, r - sr) || KingAt(s.board, sr, sc))
  }

  /** The square a jump from `from` to (r, c) passes over. */
  function Midpoint(from: Pos, r: int, c: int): (m: Pos)
    requires OnBoard(from.r, from.c) && OnBoard(r, c)
    requires Abs(r - from.r) == 2 && Abs(c - from.c) == 2
    ensures OnBoard(m.r, m.c) && m != from && m != Pos(r, c)
    ensures Abs(m.r - from.r) == 1 && Abs(m.c - from.c) == 1 && Abs(r - m.r) == 1 && Abs(c - m.c) == 1
  {
    Pos((from.r + r) / 2, (from.c + c) / 2)
  }

  /** (r, c) is two squares diagonally from the selection, over a square
      `Jumpable` holds: the source's jump. */
  predicate JumpTarget(s: State, r: int, c: int)
    requires Valid(s) && s.selected.Some? && OnBoard(r, c)
  {
    var from := s.selected.value;
    && Abs(r - from.r) == 2 && Abs(c - from.c) == 2
    && var m := Midpoint(from, r, c);
       Jumpable(s.board[m.r][m.c], s.current)
  }

  /** `handleSquareClick` on (r, c). */
  function Click(s: State, r: int, c: int): (t: State)
    requires Valid(s) && OnBoard(r, c)
    ensures Valid(t)
    ensures s.winner.Some? ==> t == s
    ensures s.winner.None? && OwnPiece(s, r, c) ==> t == s.(selected := Some(Pos(r, c)))
    ensures t.board != s.board ==>
      s.winner.None? && s.selected.Some? && s.board[r][c].None? && (StepTarget(s, r, c) || JumpTarget(s, r, c))
    ensures t.board != s.board ==> t.current == s.current.Other() && t.selected == None
    ensures t.board == s.board ==> t.current == s.current && t.winner == s.winner
    ensures s.winner.None? && !OwnPiece(s, r, c) && s.selected.Some? && s.board[r][c].None? ==>
      var from := s.selected.value;
      && (StepTarget(s, r, c) ==> t == MovePiece(s, from.r, from.c, r, c, None))
      && (JumpTarget(s, r, c) ==> t == MovePiece(s, from.r, from.c, r, c, Some(Midpoint(from, r, c))))
    ensures (s.winner.None? && !OwnPiece(s, r, c) &&
             !(s.selected.Some? && s.board[r][c].None? && (StepTarget(s, r, c) || JumpTarget(s, r, c)))) ==>
      t == s
  {
    if s.winner.Some? then s
    else if OwnPiece(s, r, c) then s.(selected := Some(Pos(r, c)))
    else if s.selected.None? || s.board[r][c].Some? then s
    else
      var from := s.selected.value;
      if StepTarget(s, r, c) then MovePiece(s, from.r, from.c, r, c, None)
      else if JumpTarget(s, r, c) then MovePiece(s, from.r, from.c, r, c, Some(Midpoint(from, r, c)))
      else s
  }

  // ----------------------------------------------------------- invariants

  predicate NoPhantom(b: Board)
    requires ValidBoard(b)
  {
    forall r, c :: 0 <= r < 8 && 0 <= c < 8 && b[r][c].Some? ==> b[r][c].value.Man?
  }

  /** What ordinary play keeps: no phantom on the board, and a selected
      square holds a piece of the player to move. */
  predicate Inv(s: State) {
    && Valid(s)
    && NoPhantom(s.board)
    && (s.selected.Some? ==> OwnPiece(s, s.selected.value.r, s.selected.value.c))
  }

  lemma ClickKeepsInv(s: State, r: int, c: int)
    requires Inv(s) && OnBoard(r, c)
    ensures Inv(Click(s, r, c))
  {
  }

  /** A step moves one piece: nobody's count changes. */
  lemma StepKeepsCounts(s: State, r: int, c: int, p: Player)
    requires Inv(s) && OnBoard(r, c) && s.selected.Some?
    requires var sr, sc := s.selected.value.r, s.selected.value.c;
      Abs(r - sr) == 1 && Abs(c - sc) == 1
    ensures Count(Click(s, r, c).board, p) == Count(s.board, p)
  {
    var t := Click(s, r, c);
    if t.board != s.board {
      var sr, sc := s.selected.value.r, s.selected.value.c;
      var piece := Some(Moved(s.board[sr][sc], s.current, r));
      var b1 := Set(s.board, r, c, piece);
      CountSet(s.board, r, c, piece, p);
      CountSet(b1, sr, sc, None, p);
      assert t.board == Set(b1, sr, sc, None);
    }
  }

  /** A jump removes exactly one opposing piece and none of the mover's. */
  lemma JumpCapturesOne(s: State, r: int, c: int)
    requires Inv(s) && OnBoard(r, c) && s.selected.Some?
    requires var sr, sc := s.selected.value.r, s.selected.value.c;
      Abs(r - sr) == 2 && Abs(c - sc) == 2
    requires Click(s, r, c).board != s.board
    ensures Count(Click(s, r, c).board, s.current.Other()) == Count(s.board, s.current.Other()) - 1
    ensures Count(Click(s, r, c).board, s.current) == Count(s.board, s.current)
  {
    var t := Click(s, r, c);
    var sr, sc := s.selected.value.r, s.selected.value.c;
    var mr, mc := (sr + r) / 2, (sc + c) / 2;
    var piece := Some(Moved(s.board[sr][sc], s.current, r));
    var b1 := Set(s.board, r, c, piece);
    var b2 := Set(b1, sr, sc, None);
    assert t.board == Set(b2, mr, mc, None);
    forall p
      ensures Count(t.board, p) == Count(s.board, p) - (if IsMan(s.board[mr][mc], p) then 1 else 0)
    {
      CountSet(s.board, r, c, piece, p);
      CountSet(b1, sr, sc, None, p);
      CountSet(b2, mr, mc, None, p);
    }
  }

  // ----------------------------------------------------------------- reset

  /** The reset button and the game-over "play again" button as written:
      only the board is replaced; the player to move, the selection and
      the winner are kept. */
  function Reset(s: State): (t: State)
    requires Valid(s)
    ensures Valid(t) && t.board == InitialBoard()
    ensures t.current == s.current && t.selected == s.selected && t.winner == s.winner
  {
    s.(board := InitialBoard())
  }

  /** After a win, "play again" leaves the game frozen: the winner stays
      set, so every click on the fresh board is ignored. */
  lemma RestartAfterWinIsFrozen(s: State, r: int, c: int)
    requires Valid(s) && s.winner.Some? && OnBoard(r, c)
    ensures Click(Reset(s), r, c) == Reset(s)
  {
  }

  /** A selection kept across a reset points at a square of the fresh
      board that may be empty; the next click then moves "the piece" from
      that empty square and a phantom appears.  Concretely: player One has
      selected a piece on (4, 1), resets, and clicks (3, 0). */
  lemma ResetLeavesPhantom(s: State)
    requires Valid(s) && s.winner.None?
    requires s.current == One && s.selected == Some(Pos(4, 1))
    ensures !Inv(Reset(s))
    ensures Click(Reset(s), 3, 0).board[3][0] == Some(Phantom(false))
  {
    var t := Reset(s);
    assert t.board[4][1] == None;
    assert t.board[3][0] == None;
  }

  /** The intended new game: fresh board, player One to move, nothing
      selected, no winner. */
  function NewGame(): (t: State)
    ensures Inv(t) && t.winner.None? && t.selected.None? && t.current == One
    ensures Count(t.board, One) == 12 && Count(t.board, Two) == 12
  {
    InitialCounts();
    State(InitialBoard(), One, None, None)
  }

  /** Every state reached from a new game by clicks keeps the invariant,
      so no phantom ever appears. */
  function Clicks(s: State, clicks: seq<Pos>): (t: State)
    requires Inv(s)
    requires forall k :: 0 <= k < |clicks| ==> OnBoard(clicks[k].r, clicks[k].c)
    ensures Inv(t) && NoPhantom(t.board)
    decreases |clicks|
  {
    if clicks == [] then s
    else
      ClickKeepsInv(s, clicks[0].r, clicks[0].c);
      Clicks(Click(s, clicks[0].r, clicks[0].c), clicks[1..])
  }
}
