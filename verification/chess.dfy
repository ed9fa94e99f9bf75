/** Chess with pseudo-legal moves only: each piece type generates its
    squares (pawn pushes and captures, knight and king jumps, bishop, rook
    and queen rays), and a click either selects a piece of the side to
    move, plays one of the selected piece's moves, or drops the selection.
    There is no check, mate, castling, en passant or promotion. */
module Chess {
  import opened Common

  datatype Side = White | Black {
    function Other(): (o: Side)
      ensures o != this
    {
      if this == White then Black else White
    }
  }

  /** Squares hold a one-letter piece name ("P", "n", ...) or "". */
  type Board = seq<seq<string>>

  datatype Pos = Pos(r: int, c: int)

  /** A move or direction as (row change, column change). */
  datatype Offset = Offset(dr: int, dc: int)

  datatype State = State(board: Board, selected: Option<Pos>, turn: Side)

  predicate OnBoard(r: int, c: int) {
    0 <= r < 8 && 0 <= c < 8
  }

  predicate ValidBoard(b: Board) {
    |b| == 8 && forall i :: 0 <= i < 8 ==> |b[i]| == 8
  }

  predicate Valid(s: State) {
    && ValidBoard(s.board)
    && (s.selected.Some? ==> OnBoard(s.selected.value.r, s.selected.value.c))
  }

  // ------------------------------------------------------------ letters

  predicate IsLower(ch: char) {
    'a' <= ch <= 'z'
  }

  /** ASCII upper-casing of one character. */
  function UpperChar(ch: char): (u: char)
    ensures IsLower(ch) ==> u != ch && !IsLower(u)
    ensures !IsLower(ch) ==> u == ch
  {
    if IsLower(ch) then (ch as int - 32) as char else ch
  }

  /** ASCII lower-casing of one character. */
  function LowerChar(ch: char): (l: char)
    ensures 'A' <= ch <= 'Z' ==> IsLower(l) && l != ch
    ensures !('A' <= ch <= 'Z') ==> l == ch
  {
    if 'A' <= ch <= 'Z' then (ch as int + 32) as char else ch
  }

  function ToUpper(s: string): (u: string)
    ensures |u| == |s|
    ensures forall i :: 0 <= i < |s| ==> u[i] == UpperChar(s[i])
  {
    seq(|s|, i requires 0 <= i < |s| => UpperChar(s[i]))
  }

  function ToLower(s: string): (l: string)
    ensures |l| == |s|
    ensures forall i :: 0 <= i < |s| ==> l[i] == LowerChar(s[i])
  {
    seq(|s|, i requires 0 <= i < |s| => LowerChar(s[i]))
  }

  /** `getPieceColor`: nothing for the empty square, white when the name
      is unchanged by upper-casing, black otherwise. */
  function Color(p: string): (col: Option<Side>)
    ensures col.None? <==> p == ""
    ensures col == Some(White) <==> p != "" && forall i :: 0 <= i < |p| ==> !IsLower(p[i])
    ensures col == Some(Black) <==> exists i :: 0 <= i < |p| && IsLower(p[i])
  {
    if p == "" then None
    else if p == ToUpper(p) then Some(White)
    else
      assert exists i :: 0 <= i < |p| && p[i] != ToUpper(p)[i];
      Some(Black)
  }

  /** A one-letter piece name is white when the letter is upper-case and
      black when it is lower-case; lower-casing a white name gives the
      black piece of the same kind. */
  lemma ColorOfLetters()
    ensures forall ch :: 'A' <= ch <= 'Z' ==> Color([ch]) == Some(White)
    ensures forall ch :: 'a' <= ch <= 'z' ==> Color([ch]) == Some(Black)
    ensures forall ch :: 'A' <= ch <= 'Z' ==> Color(ToLower([ch])) == Some(Black)
  {
    forall ch | 'A' <= ch <= 'Z'
      ensures Color([ch]) == Some(White) && Color(ToLower([ch])) == Some(Black)
    {
      assert ToLower([ch])[0] == LowerChar(ch);
    }
    forall ch | 'a' <= ch <= 'z'
      ensures Color([ch]) == Some(Black)
    {
      assert [ch][0] == ch;
    }
  }

  // -------------------------------------------------------------- board

  /** `initialBoard`: black on rows 0 and 1, white on rows 6 and 7. */
  function InitialBoard(): (b: Board)
    ensures ValidBoard(b)
  {
    [ ["r", "n", "b", "q", "k", "b", "n", "r"],
      ["p", "p", "p", "p", "p", "p", "p", "p"],
      ["", "", "", "", "", "", "", ""],
      ["", "", "", "", "", "", "", ""],
      ["", "", "", "", "", "", "", ""],
      ["", "", "", "", "", "", "", ""],
      ["P", "P", "P", "P", "P", "P", "P", "P"],
      ["R", "N", "B", "Q", "K", "B", "N", "R"] ]
  }

  /** A one-letter upper-case name is a white piece, and its lower-cased
      name a black one. */
  lemma LetterSides(p: string)
    requires |p| == 1 && 'A' <= p[0] <= 'Z'
    ensures Color(p) == Some(White) && Color(ToLower(p)) == Some(Black)
  {
    ColorOfLetters();
    assert p == [p[0]];
  }

  /** Each black piece of the back rank faces the white piece of the same
      kind. */
  lemma BackRanksMirror()
    ensures forall j :: 0 <= j < 8 ==>
      |InitialBoard()[7][j]| == 1 && 'A' <= InitialBoard()[7][j][0] <= 'Z' &&
      InitialBoard()[0][j] == ToLower(InitialBoard()[7][j])
  {
    var b := InitialBoard();
    forall j | 0 <= j < 8
      ensures |b[7][j]| == 1 && 'A' <= b[7][j][0] <= 'Z' && b[0][j] == ToLower(b[7][j])
    {
      var w := b[7][j][0];
      assert b[7][j] == [w];
      assert b[0][j] == [LowerChar(w)];
    }
  }

  /** The opening position: black pieces fill rows 0 and 1 and white
      pieces rows 6 and 7, with rows 2 to 5 empty; the pawns stand on rows
      1 and 6, each black piece faces the white piece of the same kind,
      and the white queen and king stand on columns 3 and 4. */
  lemma InitialPosition()
    ensures var b := InitialBoard();
      && (forall j :: 0 <= j < 8 ==> Color(b[0][j]) == Some(Black) && Color(b[1][j]) == Some(Black))
      && (forall j :: 0 <= j < 8 ==> Color(b[6][j]) == Some(White) && Color(b[7][j]) == Some(White))
      && (forall i, j :: 2 <= i < 6 && 0 <= j < 8 ==> b[i][j] == "")
      && (forall j :: 0 <= j < 8 ==> b[1][j] == "p" && b[6][j] == "P")
      && (forall j :: 0 <= j < 8 ==> b[0][j] == ToLower(b[7][j]))
      && b[7][3] == "Q" && b[7][4] == "K"
  {
    var b := InitialBoard();
    BackRanksMirror();
    LetterSides("P");
    assert ToLower("P") == "p";
    forall j | 0 <= j < 8
      ensures Color(b[0][j]) == Some(Black) && Color(b[7][j]) == Some(White)
    {
      LetterSides(b[7][j]);
    }
  }

  predicate Empty(b: Board, r: int, c: int)
    requires ValidBoard(b)
  {
    OnBoard(r, c) && b[r][c] == ""
  }

  /** A piece of `color` may end on (r, c): the square is on the board and
      empty or held by the other side (the source's `addMove` test). */
  predicate CanLand(b: Board, color: Side, r: int, c: int)
    requires ValidBoard(b)
  {
    OnBoard(r, c) && (b[r][c] == "" || Color(b[r][c]) != Some(color))
  }

  /** The other side holds (r, c). */
  predicate Enemy(b: Board, color: Side, r: int, c: int)
    requires ValidBoard(b)
  {
    OnBoard(r, c) && b[r][c] != "" && Color(b[r][c]) != Some(color)
  }

  // -------------------------------------------------------------- jumps

  function KnightOffsets(): seq<Offset> {
    [Offset(2, 1), Offset(2, -1), Offset(-2, 1), Offset(-2, -1),
     Offset(1, 2), Offset(1, -2), Offset(-1, 2), Offset(-1, -2)]
  }

  function KingOffsets(): seq<Offset> {
    [Offset(1, 1), Offset(1, -1), Offset(-1, 1), Offset(-1, -1),
     Offset(1, 0), Offset(-1, 0), Offset(0, 1), Offset(0, -1)]
  }

  /** The knight's and king's moves: each offset whose square the piece
      may land on, in the order of the list. */
  function Jumps(b: Board, color: Side, r: int, c: int, offs: seq<Offset>): (ms: seq<Pos>)
    requires ValidBoard(b)
    ensures |ms| <= |offs|
    ensures forall m :: m in ms <==>
      (CanLand(b, color, m.r, m.c) && Offset(m.r - r, m.c - c) in offs)
    decreases |offs|
  {
    if offs == [] then []
    else
      var x, y := r + offs[0].dr, c + offs[0].dc;
      assert Offset(x - r, y - c) == offs[0];
      assert forall o :: o in offs <==> o == offs[0] || o in offs[1..];
      (if CanLand(b, color, x, y) then [Pos(x, y)] else []) + Jumps(b, color, r, c, offs[1..])
  }

  // --------------------------------------------------------------- rays

  /** The coordinate `k` steps from `x` in direction `d` (-1, 0 or 1). */
  function Along(x: int, d: int, k: nat): int
    requires -1 <= d <= 1
  {
    if d == 0 then x else if d > 0 then x + k else x - k
  }

  predicate Direction(o: Offset) {
    -1 <= o.dr <= 1 && -1 <= o.dc <= 1 && o != Offset(0, 0)
  }

  /** The slider's squares from step `k` on: empty squares are taken and
      the ray continues; the first occupied square is taken only when it
      holds an enemy, and ends the ray (the `while (addMove(...))` loop). */
  function RayFrom(b: Board, color: Side, r: int, c: int, d: Offset, k: nat): (ms: seq<Pos>)
    requires ValidBoard(b) && OnBoard(r, c) && Direction(d) && k >= 1
    ensures forall m :: m in ms ==> CanLand(b, color, m.r, m.c)
    decreases 9 - k
  {
    var x, y := Along(r, d.dr, k), Along(c, d.dc, k);
    if !OnBoard(x, y) then []
    else if b[x][y] == "" then
      assert k <= 8;
      [Pos(x, y)] + RayFrom(b, color, r, c, d, k + 1)
    else if Color(b[x][y]) != Some(color) then [Pos(x, y)]
    else []
  }

  /** Square `m` is `k` steps along `d` from (r, c), the squares from step
      `k0` up to it are empty, and the piece may land on it. */
  ghost predicate Reaches(b: Board, color: Side, r: int, c: int, d: Offset, k0: nat, k: nat, m: Pos)
    requires ValidBoard(b) && Direction(d)
  {
    && k >= k0
    && m == Pos(Along(r, d.dr, k), Along(c, d.dc, k))
    && CanLand(b, color, m.r, m.c)
    && forall j :: k0 <= j < k ==> Empty(b, Along(r, d.dr, j), Along(c, d.dc, j))
  }

  /** A ray holds exactly the squares reached across empty squares. */
  lemma {:induction false} RayFromExact(b: Board, color: Side, r: int, c: int, d: Offset, k0: nat, m: Pos)
    requires ValidBoard(b) && OnBoard(r, c) && Direction(d) && k0 >= 1
    ensures m in RayFrom(b, color, r, c, d, k0) <==> exists k :: Reaches(b, color, r, c, d, k0, k, m)
    decreases 9 - k0
  {
    var x, y := Along(r, d.dr, k0), Along(c, d.dc, k0);
    if !OnBoard(x, y) {
      forall k: nat
        ensures !Reaches(b, color, r, c, d, k0, k, m)
      {
        assert !Empty(b, Along(r, d.dr, k0), Along(c, d.dc, k0));
      }
    } else if b[x][y] == "" {
      RayFromExact(b, color, r, c, d, k0 + 1, m);
      if m in RayFrom(b, color, r, c, d, k0) && m != Pos(x, y) {
        var k: nat :| Reaches(b, color, r, c, d, k0 + 1, k, m);
        assert Reaches(b, color, r, c, d, k0, k, m);
      }
      if m == Pos(x, y) {
        assert Reaches(b, color, r, c, d, k0, k0, m);
      }
      if exists k :: Reaches(b, color, r, c, d, k0, k, m) {
        var k: nat :| Reaches(b, color, r, c, d, k0, k, m);
        if k > k0 {
          assert Reaches(b, color, r, c, d, k0 + 1, k, m);
        }
      }
    } else {
      if m in RayFrom(b, color, r, c, d, k0) {
        assert Reaches(b, color, r, c, d, k0, k0, m);
      }
      forall k: nat | Reaches(b, color, r, c, d, k0, k, m)
        ensures k == k0
      {
        assert !Empty(b, Along(r, d.dr, k0), Along(c, d.dc, k0));
      }
    }
  }

  /** The rays of a slider, one direction after another. */
  function Rays(b: Board, color: Side, r: int, c: int, dirs: seq<Offset>): (ms: seq<Pos>)
    requires ValidBoard(b) && OnBoard(r, c)
    requires forall i :: 0 <= i < |dirs| ==> Direction(dirs[i])
    ensures forall m :: m in ms ==> CanLand(b, color, m.r, m.c)
    ensures forall m :: m in ms <==> exists i :: 0 <= i < |dirs| && m in RayFrom(b, color, r, c, dirs[i], 1)
    decreases |dirs|
  {
    if dirs == [] then []
    else RayFrom(b, color, r, c, dirs[0], 1) + Rays(b, color, r, c, dirs[1..])
  }

  function BishopDirs(): seq<Offset> {
    [Offset(1, 1), Offset(1, -1), Offset(-1, 1), Offset(-1, -1)]
  }

  function RookDirs(): seq<Offset> {
    [Offset(1, 0), Offset(-1, 0), Offset(0, 1), Offset(0, -1)]
  }

  /** The sliders' direction lists hold directions only. */
  lemma SliderDirs()
    ensures forall i :: 0 <= i < |BishopDirs()| ==> Direction(BishopDirs()[i])
    ensures forall i :: 0 <= i < |RookDirs()| ==> Direction(RookDirs()[i])
    ensures forall i :: 0 <= i < |BishopDirs() + RookDirs()| ==> Direction((BishopDirs() + RookDirs())[i])
    ensures |KnightOffsets()| == 8 && |KingOffsets()| == 8
  {
  }

  // -------------------------------------------------------------- pawns

  /** The row a pawn of `color` moves towards, and the row it starts on. */
  function Forward(color: Side): int {
    if color == White then -1 else 1
  }

  function StartRank(color: Side): int {
    if color == White then 6 else 1
  }

  /** A pawn's pushes: one square forward onto an empty square, and two
      from its starting rank when both squares are empty. */
  function PawnPushes(b: Board, color: Side, r: int, c: int): (ms: seq<Pos>)
    requires ValidBoard(b) && OnBoard(r, c)
    ensures var dir := Forward(color);
      forall m :: m in ms <==>
        || (m == Pos(r + dir, c) && Empty(b, r + dir, c))
        || (r == StartRank(color) && m == Pos(r + 2 * dir, c) && Empty(b, r + dir, c) && Empty(b, r + 2 * dir, c))
  {
    var dir := Forward(color);
    if Empty(b, r + dir, c) then
      [Pos(r + dir, c)] + (if r == StartRank(color) && Empty(b, r + 2 * dir, c) then [Pos(r + 2 * dir, c)] else [])
    else []
  }

  /** A pawn's captures: one square diagonally forward onto an enemy. */
  function PawnCaptures(b: Board, color: Side, r: int, c: int): (ms: seq<Pos>)
    requires ValidBoard(b)
    ensures forall m :: m in ms <==>
      m.r == r + Forward(color) && (m.c == c + 1 || m.c == c - 1) && Enemy(b, color, m.r, m.c)
  {
    var dir := Forward(color);
    (if Enemy(b, color, r + dir, c + 1) then [Pos(r + dir, c + 1)] else [])
    + (if Enemy(b, color, r + dir, c - 1) then [Pos(r + dir, c - 1)] else [])
  }

  /** A pawn's moves: one square forward onto an empty square, two from
      its starting rank when both squares are empty, and one square
      diagonally forward onto an enemy. */
  function PawnMoves(b: Board, color: Side, r: int, c: int): (ms: seq<Pos>)
    requires ValidBoard(b) && OnBoard(r, c)
    ensures var dir, start := Forward(color), StartRank(color);
      forall m :: m in ms <==>
        || (m == Pos(r + dir, c) && Empty(b, r + dir, c))
        || (r == start && m == Pos(r + 2 * dir, c) && Empty(b, r + dir, c) && Empty(b, r + 2 * dir, c))
        || (m.r == r + dir && (m.c == c + 1 || m.c == c - 1) && Enemy(b, color, m.r, m.c))
    ensures forall m :: m in ms ==> CanLand(b, color, m.r, m.c)
  {
    PawnPushes(b, color, r, c) + PawnCaptures(b, color, r, c)
  }

  // -------------------------------------------------------------- moves

  /** `getPseudoLegalMoves` for the piece on (r, c). */
  function Moves(b: Board, r: int, c: int): (ms: seq<Pos>)
    requires ValidBoard(b) && OnBoard(r, c)
    ensures b[r][c] == "" ==> ms == []
    ensures b[r][c] != "" ==> forall m :: m in ms ==>
      OnBoard(m.r, m.c) && Color(b[m.r][m.c]) != Color(b[r][c])
    ensures ToLower(b[r][c]) in {"n", "k"} ==> |ms| <= 8
  {
    var piece := b[r][c];
    if piece == "" then []
    else
      var ms := KindMoves(b, Color(piece).value, ToLower(piece), r, c);
      assert forall m :: m in ms ==> CanLand(b, Color(piece).value, m.r, m.c);
      ms
  }

  /** The moves of a piece of `color` and lower-case name `kind` standing
      on (r, c); an unknown name has none. */
  function KindMoves(b: Board, color: Side, kind: string, r: int, c: int): (ms: seq<Pos>)
    requires ValidBoard(b) && OnBoard(r, c)
    ensures forall m :: m in ms ==> CanLand(b, color, m.r, m.c)
    ensures kind in {"n", "k"} ==> |ms| <= 8
  {
    SliderDirs();
    if kind == "p" then PawnMoves(b, color, r, c)
    else if kind == "n" then Jumps(b, color, r, c, KnightOffsets())
    else if kind == "b" then Rays(b, color, r, c, BishopDirs())
    else if kind == "r" then Rays(b, color, r, c, RookDirs())
    else if kind == "q" then Rays(b, color, r, c, BishopDirs() + RookDirs())
    else if kind == "k" then Jumps(b, color, r, c, KingOffsets())
    else []
  }

  /** A slider's move is a square along one of its directions, reached
      over empty squares, and empty or enemy. */
  lemma SliderMoves(b: Board, r: int, c: int, dirs: seq<Offset>, m: Pos)
    requires ValidBoard(b) && OnBoard(r, c) && b[r][c] != ""
    requires forall i :: 0 <= i < |dirs| ==> Direction(dirs[i])
    ensures var color := Color(b[r][c]).value;
      m in Rays(b, color, r, c, dirs) <==>
      exists i, k :: 0 <= i < |dirs| && Reaches(b, color, r, c, dirs[i], 1, k, m)
  {
    var color := Color(b[r][c]).value;
    forall i | 0 <= i < |dirs|
      ensures m in RayFrom(b, color, r, c, dirs[i], 1) <==> exists k :: Reaches(b, color, r, c, dirs[i], 1, k, m)
    {
      RayFromExact(b, color, r, c, dirs[i], 1, m);
    }
  }

  // -------------------------------------------------------------- clicks

  /** `b` with the piece on `from` moved to `to`. */
  function Apply(b: Board, from: Pos, to: Pos): (b': Board)
    requires ValidBoard(b) && OnBoard(from.r, from.c) && OnBoard(to.r, to.c) && from != to
    ensures ValidBoard(b')
    ensures b'[to.r][to.c] == b[from.r][from.c] && b'[from.r][from.c] == ""
    ensures forall i, j :: OnBoard(i, j) && Pos(i, j) != from && Pos(i, j) != to ==> b'[i][j] == b[i][j]
  {
    var b1 := b[to.r := b[to.r][to.c := b[from.r][from.c]]];
    b1[from.r := b1[from.r][from.c := ""]]
  }

  /** `handleSquareClick` on (r, c). */
  function Click(s: State, r: int, c: int): (t: State)
    requires Valid(s) && OnBoard(r, c)
    ensures Valid(t)
    ensures Color(s.board[r][c]) == Some(s.turn) ==>
      t == s.(selected := Some(Pos(r, c)))
    ensures Color(s.board[r][c]) != Some(s.turn) && s.selected.Some? ==> t.selected.None?
    ensures t.board != s.board ==>
      && s.selected.Some?
      && var from := s.selected.value;
         && Pos(r, c) in Moves(s.board, from.r, from.c)
         && t.board[r][c] == s.board[from.r][from.c] && t.board[from.r][from.c] == ""
         && (forall i, j :: OnBoard(i, j) && Pos(i, j) != from && Pos(i, j) != Pos(r, c) ==>
               t.board[i][j] == s.board[i][j])
         && t.turn == s.turn.Other()
    ensures (s.selected.Some? && Color(s.board[r][c]) != Some(s.turn) &&
             Pos(r, c) !in Moves(s.board, s.selected.value.r, s.selected.value.c)) ==>
      t == s.(selected := None)
    ensures (s.selected.Some? && Color(s.board[r][c]) != Some(s.turn) &&
             Pos(r, c) in Moves(s.board, s.selected.value.r, s.selected.value.c)) ==>
      t == State(Apply(s.board, s.selected.value, Pos(r, c)), None, s.turn.Other())
    ensures s.selected.None? && Color(s.board[r][c]) != Some(s.turn) ==> t == s
  {
    if Color(s.board[r][c]) == Some(s.turn) then s.(selected := Some(Pos(r, c)))
    else if s.selected.None? then s
    else
      var from := s.selected.value;
      var ms := Moves(s.board, from.r, from.c);
      if Pos(r, c) in ms then
        assert Color(s.board[r][c]) != Color(s.board[from.r][from.c]);
        State(Apply(s.board, from, Pos(r, c)), None, s.turn.Other())
      else s.(selected := None)
  }

  /** What ordinary play keeps: a selected square holds a piece of the
      side to move. */
  predicate Inv(s: State) {
    Valid(s) && (s.selected.Some? ==> Color(s.board[s.selected.value.r][s.selected.value.c]) == Some(s.turn))
  }

  /** Under the invariant, the piece that moves belongs to the side that
      was to move, and a captured piece belongs to the other side. */
  lemma MoverOwnsPiece(s: State, r: int, c: int)
    requires Inv(s) && OnBoard(r, c)
    ensures Inv(Click(s, r, c))
    ensures var t := Click(s, r, c);
      t.board != s.board ==>
        Color(t.board[r][c]) == Some(s.turn) && Color(s.board[r][c]) != Some(s.turn)
  {
  }

  // -------------------------------------------------------------- reset

  /** The reset button as written: only the board is replaced. */
  function Reset(s: State): (t: State)
    requires Valid(s)
    ensures Valid(t) && t.board == InitialBoard()
    ensures t.selected == s.selected && t.turn == s.turn
  {
    s.(board := InitialBoard())
  }

  /** A selection kept across the reset can land on a piece of the other
      side, which the player to move may then play: White had a piece
      selected on (1, 0); after the reset that square holds a black pawn,
      and a click on (2, 0) pushes it and passes the turn to Black. */
  lemma ResetLetsWhiteMoveBlack(s: State)
    requires Valid(s) && s.turn == White && s.selected == Some(Pos(1, 0))
    ensures !Inv(Reset(s))
    ensures var t := Click(Reset(s), 2, 0);
      t.board[2][0] == "p" && t.board[1][0] == "" && t.turn == Black
  {
    var b := InitialBoard();
    ColorOfLetters();
    assert Color(b[2][0]) == None;
    assert ToLower("p") == "p";
    assert Pos(2, 0) in PawnMoves(b, Black, 1, 0);
  }

  /** The intended new game: fresh board, nothing selected, White to
      move. */
  function NewGame(): (t: State)
    ensures Inv(t) && t.selected.None? && t.turn == White
  {
    State(InitialBoard(), None, White)
  }
}
