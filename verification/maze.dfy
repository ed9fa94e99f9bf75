/** The maze: a 17×17 grid of walls (1) and open cells (0).  The rooms are
    the cells with two odd coordinates inside the border; a randomized
    depth-first walk over the rooms, starting at (1, 1), knocks down the
    wall between each room and the next, and the player then walks from
    (1, 1) to the exit (15, 15). */
module Maze {
  import opened Common

  /** `mazeSize`. */
  const Size: int := 17

  /** A cell: column `x`, row `y`; the grid is indexed `g[y][x]`. */
  datatype Cell = Cell(x: int, y: int)

  type Grid = seq<seq<int>>

  function Start(): Cell { Cell(1, 1) }

  /** The flag cell, one in from the bottom-right corner. */
  function Exit(): Cell { Cell(Size - 2, Size - 2) }

  predicate InGrid(c: Cell) {
    0 <= c.x < Size && 0 <= c.y < Size
  }

  predicate Interior(c: Cell) {
    0 < c.x < Size - 1 && 0 < c.y < Size - 1
  }

  /** A cell the carve can visit: both coordinates odd, inside the border. */
  predicate Room(c: Cell) {
    Interior(c) && c.x % 2 == 1 && c.y % 2 == 1
  }

  /** A `mazeSize` × `mazeSize` grid of zeros and ones. */
  predicate WellFormed(g: Grid) {
    && |g| == Size
    && (forall y :: 0 <= y < Size ==> |g[y]| == Size)
    && (forall y, x :: 0 <= y < Size && 0 <= x < Size ==> g[y][x] == 0 || g[y][x] == 1)
  }

  predicate Open(g: Grid, c: Cell) {
    0 <= c.y < |g| && 0 <= c.x < |g[c.y]| && g[c.y][c.x] == 0
  }

  predicate Wall(g: Grid, c: Cell) {
    0 <= c.y < |g| && 0 <= c.x < |g[c.y]| && g[c.y][c.x] == 1
  }

  /** Every cell of the outer ring is a wall. */
  ghost predicate BorderIntact(g: Grid) {
    forall c :: InGrid(c) && !Interior(c) ==> Wall(g, c)
  }

  /** The grid with cell `c` set to `v`. */
  function Set(g: Grid, c: Cell, v: int): (g': Grid)
    requires WellFormed(g) && InGrid(c) && (v == 0 || v == 1)
    ensures WellFormed(g')
    ensures forall d :: InGrid(d) ==> g'[d.y][d.x] == if d == c then v else g[d.y][d.x]
  {
    g[c.y := g[c.y][c.x := v]]
  }

  /** The grid the carve starts from: walls everywhere. */
  function AllWalls(): (g: Grid)
    ensures WellFormed(g)
    ensures forall c :: InGrid(c) ==> Wall(g, c)
  {
    seq(Size, _ => seq(Size, _ => 1))
  }

  /** Two rooms one wall apart: two cells along a row or a column. */
  predicate Apart(a: Cell, b: Cell) {
    (Abs(a.x - b.x) == 2 && a.y == b.y) || (a.x == b.x && Abs(a.y - b.y) == 2)
  }

  /** The offsets `directions` in the order the source lists them. */
  function Directions(): seq<Cell> {
    [Cell(0, 2), Cell(0, -2), Cell(2, 0), Cell(-2, 0)]
  }

  function Plus(c: Cell, d: Cell): Cell {
    Cell(c.x + d.x, c.y + d.y)
  }

  /** The offset that leads from `a` to `b`. */
  function Offset(a: Cell, b: Cell): Cell {
    Cell(b.x - a.x, b.y - a.y)
  }

  /** The cells `cur + d` for `d` in `ds`, in order, that are inside the
      border and still walls. */
  function Candidates(g: Grid, cur: Cell, ds: seq<Cell>): (ns: seq<Cell>)
    ensures |ns| <= |ds|
    ensures forall n :: n in ns <==> Offset(cur, n) in ds && Interior(n) && Wall(g, n)
    decreases |ds|
  {
    if ds == [] then []
    else
      var n := Plus(cur, ds[0]);
      var rest := Candidates(g, cur, ds[1..]);
      assert forall m :: Offset(cur, m) in ds <==> Offset(cur, m) == ds[0] || Offset(cur, m) in ds[1..];
      if Interior(n) && Wall(g, n) then [n] + rest else rest
  }

  /** `neighbors`: the rooms one wall away from `cur` that are still walls. */
  function Neighbours(g: Grid, cur: Cell): (ns: seq<Cell>)
    ensures |ns| <= 4
    ensures forall n :: n in ns <==> Apart(cur, n) && Interior(n) && Wall(g, n)
  {
    assert forall n :: Offset(cur, n) in Directions() <==> Apart(cur, n);
    Candidates(g, cur, Directions())
  }

  /** The cell halfway between `cur` and `next`. */
  function Mid(cur: Cell, next: Cell): Cell {
    Cell(cur.x + (next.x - cur.x) / 2, cur.y + (next.y - cur.y) / 2)
  }

  /** One step of the carve: the wall between `cur` and `next` and the
      room `next` are opened, and no other cell changes. */
  function Carve(g: Grid, cur: Cell, next: Cell): (g': Grid)
    requires WellFormed(g) && Room(cur) && Interior(next) && Apart(cur, next)
    ensures WellFormed(g')
    ensures Open(g', Mid(cur, next)) && Open(g', next)
    ensures forall c :: InGrid(c) && c != Mid(cur, next) && c != next ==> g'[c.y][c.x] == g[c.y][c.x]
    ensures Interior(Mid(cur, next)) && !Room(Mid(cur, next)) && Room(next)
  {
    Set(Set(g, Mid(cur, next), 0), next, 0)
  }

  /** A walk from the start through open cells, one orthogonal step at a
      time. */
  predicate Path(g: Grid, p: seq<Cell>) {
    && |p| > 0
    && p[0] == Start()
    && (forall i :: 0 <= i < |p| ==> Open(g, p[i]))
    && (forall i :: 0 <= i < |p| - 1 ==> Abs(p[i].x - p[i + 1].x) + Abs(p[i].y - p[i + 1].y) == 1)
  }

  ghost predicate Reachable(g: Grid, c: Cell) {
    exists p :: Path(g, p) && p[|p| - 1] == c
  }

  /** Every open cell can be walked to from the start. */
  ghost predicate Connected(g: Grid) {
    forall c :: Open(g, c) ==> Reachable(g, c)
  }

  /** A room none of whose neighbouring rooms is still a wall: the carve
      has finished with it. */
  ghost predicate Settled(g: Grid, c: Cell) {
    forall n :: Apart(c, n) && Interior(n) ==> !Wall(g, n)
  }

  /** The rooms still walled in. */
  function WalledRooms(g: Grid): set<Cell> {
    set x, y | 0 <= x < Size && 0 <= y < Size && Room(Cell(x, y)) && Wall(g, Cell(x, y)) :: Cell(x, y)
  }

  /** A walk survives the opening of more cells. */
  lemma PathWidens(g: Grid, g': Grid, p: seq<Cell>)
    requires Path(g, p)
    requires forall c :: Open(g, c) ==> Open(g', c)
    ensures Path(g', p)
  {
  }

  /** Carving only opens cells. */
  lemma CarveWidens(g: Grid, cur: Cell, next: Cell)
    requires WellFormed(g) && Room(cur) && Interior(next) && Apart(cur, next)
    ensures forall c :: Open(g, c) ==> Open(Carve(g, cur, next), c)
  {
    var g' := Carve(g, cur, next);
    forall c | Open(g, c)
      ensures Open(g', c)
    {
      assert InGrid(c);
    }
  }

  /** A walk extended by one step onto an open cell. */
  lemma PathExtends(g: Grid, p: seq<Cell>, c: Cell)
    requires Path(g, p) && Open(g, c)
    requires Abs(p[|p| - 1].x - c.x) + Abs(p[|p| - 1].y - c.y) == 1
    ensures Path(g, p + [c])
  {
  }

  /** Carving from a reachable room keeps every open cell reachable. */
  lemma CarveKeepsConnected(g: Grid, cur: Cell, next: Cell)
    requires WellFormed(g) && Room(cur) && Interior(next) && Apart(cur, next)
    requires Connected(g) && Open(g, cur)
    ensures Connected(Carve(g, cur, next))
  {
    var g' := Carve(g, cur, next);
    var m := Mid(cur, next);
    CarveWidens(g, cur, next);
    assert Reachable(g, cur);
    var pc :| Path(g, pc) && pc[|pc| - 1] == cur;
    PathWidens(g, g', pc);
    PathExtends(g', pc, m);
    var pm := pc + [m];
    PathExtends(g', pm, next);
    var pn := pm + [next];
    forall c | Open(g', c)
      ensures Reachable(g', c)
    {
      if c == m {
        assert pm[|pm| - 1] == c;
      } else if c == next {
        assert pn[|pn| - 1] == c;
      } else {
        assert InGrid(c) && Open(g, c);
        assert Reachable(g, c);
        var p :| Path(g, p) && p[|p| - 1] == c;
        PathWidens(g, g', p);
      }
    }
  }

  /** Carving a walled room takes it off the walled set. */
  lemma CarveShrinksWalled(g: Grid, cur: Cell, next: Cell)
    requires WellFormed(g) && Room(cur) && Interior(next) && Apart(cur, next) && Wall(g, next)
    ensures WalledRooms(Carve(g, cur, next)) < WalledRooms(g)
  {
    var g' := Carve(g, cur, next);
    assert next in WalledRooms(g) && next !in WalledRooms(g');
  }

  /** When every open room is settled and the start is open, every room
      is open: the rooms form one grid, each a wall away from the next. */
  lemma {:induction false} RoomOpen(g: Grid, c: Cell)
    requires WellFormed(g) && Open(g, Start())
    requires forall r :: Room(r) && Open(g, r) ==> Settled(g, r)
    requires Room(c)
    ensures Open(g, c)
    decreases c.x + c.y
  {
    if c != Start() {
      var prev := if c.x > 1 then Cell(c.x - 2, c.y) else Cell(c.x, c.y - 2);
      RoomOpen(g, prev);
      assert Apart(prev, c);
    }
  }

  /** What holds at the head of the carving loop: the border is intact,
      every room on the stack is open, every open room is on the stack or
      settled, and every open cell is reachable from the start. */
  ghost predicate Carving(g: Grid, stack: seq<Cell>) {
    && WellFormed(g) && BorderIntact(g) && Open(g, Start())
    && (forall i :: 0 <= i < |stack| ==> Room(stack[i]) && Open(g, stack[i]))
    && (forall c :: Room(c) && Open(g, c) ==> c in stack || Settled(g, c))
    && Connected(g)
  }

  /** The loop starts with only the start room open, and on the stack. */
  lemma CarvingStarts(walls: Grid)
    requires WellFormed(walls) && forall c :: InGrid(c) ==> Wall(walls, c)
    ensures Carving(Set(walls, Start(), 0), [Start()])
  {
    var g := Set(walls, Start(), 0);
    assert Path(g, [Start()]);
    forall c | Open(g, c)
      ensures c == Start()
    {
      assert InGrid(c);
    }
    forall c | Open(g, c)
      ensures Reachable(g, c)
    {
      assert [Start()][0] == c;
    }
    forall c | InGrid(c) && !Interior(c)
      ensures Wall(g, c)
    {
      assert c != Start();
    }
  }

  /** Carving leaves the border alone. */
  lemma CarveKeepsBorder(g: Grid, cur: Cell, next: Cell)
    requires WellFormed(g) && BorderIntact(g) && Room(cur) && Interior(next) && Apart(cur, next)
    ensures BorderIntact(Carve(g, cur, next))
  {
    var g' := Carve(g, cur, next);
    forall c | InGrid(c) && !Interior(c)
      ensures Wall(g', c)
    {
      assert Wall(g, c);
    }
  }

  /** Carving keeps a settled room settled. */
  lemma CarveKeepsSettled(g: Grid, cur: Cell, next: Cell, c: Cell)
    requires WellFormed(g) && Room(cur) && Interior(next) && Apart(cur, next)
    requires Settled(g, c)
    ensures Settled(Carve(g, cur, next), c)
  {
    var g' := Carve(g, cur, next);
    forall n | Apart(c, n) && Interior(n)
      ensures !Wall(g', n)
    {
      assert !Wall(g, n);
    }
  }

  /** After a carving step every open room is on the stack or settled. */
  lemma CarvePushSettles(g: Grid, stack: seq<Cell>, cur: Cell, next: Cell)
    requires WellFormed(g) && Room(cur) && Interior(next) && Apart(cur, next)
    requires forall c :: Room(c) && Open(g, c) ==> c in stack || Settled(g, c)
    ensures var g' := Carve(g, cur, next);
      forall c :: Room(c) && Open(g', c) ==> c in stack + [next] || Settled(g', c)
  {
    var g' := Carve(g, cur, next);
    forall c | Room(c) && Open(g', c)
      ensures c in stack + [next] || Settled(g', c)
    {
      if c != next {
        assert InGrid(c) && c != Mid(cur, next);
        assert Open(g, c);
        if c !in stack {
          CarveKeepsSettled(g, cur, next, c);
        }
      }
    }
  }

  /** A carving step keeps the loop's invariant. */
  lemma CarvingPush(g: Grid, stack: seq<Cell>, next: Cell)
    requires Carving(g, stack) && |stack| > 0
    requires next in Neighbours(g, stack[|stack| - 1])
    ensures Carving(Carve(g, stack[|stack| - 1], next), stack + [next])
  {
    var cur := stack[|stack| - 1];
    var g' := Carve(g, cur, next);
    var stack' := stack + [next];
    CarveKeepsConnected(g, cur, next);
    CarveKeepsBorder(g, cur, next);
    CarveWidens(g, cur, next);
    CarvePushSettles(g, stack, cur, next);
    forall i | 0 <= i < |stack'|
      ensures Room(stack'[i]) && Open(g', stack'[i])
    {
      if i < |stack| {
        assert stack'[i] == stack[i];
      }
    }
  }

  /** Backing out of a room none of whose neighbours is walled keeps the
      loop's invariant. */
  lemma CarvingPop(g: Grid, stack: seq<Cell>)
    requires Carving(g, stack) && |stack| > 0
    requires Neighbours(g, stack[|stack| - 1]) == []
    ensures Carving(g, stack[..|stack| - 1])
  {
    var top, rest := stack[|stack| - 1], stack[..|stack| - 1];
    assert Settled(g, top);
    assert stack == rest + [top];
    forall c | Room(c) && Open(g, c)
      ensures c in rest || Settled(g, c)
    {
    }
  }

  /** When the stack is empty every room has been carved open. */
  lemma CarvingEnds(g: Grid)
    requires Carving(g, [])
    ensures forall c :: Room(c) ==> Open(g, c)
  {
    forall c | Room(c)
      ensures Open(g, c)
    {
      RoomOpen(g, c);
    }
  }

  /** Opening a cell that is already open changes nothing. */
  lemma SetOpenIsSame(g: Grid, c: Cell)
    requires WellFormed(g) && InGrid(c) && Open(g, c)
    ensures Set(g, c, 0) == g
  {
    assert g[c.y][c.x := 0] == g[c.y];
  }

  /** `generateMaze`.  `pick(i)` stands for the random choice at step
      `i`: the neighbour taken is `pick(i)` modulo the number of
      candidates.  Whatever the choices, the border stays walls, every
      room is carved open, the exit is open, and every open cell can be
      walked to from the start. */
  method GenerateMaze(pick: nat -> nat) returns (g: Grid)
    ensures WellFormed(g) && BorderIntact(g)
    ensures forall c :: Room(c) ==> Open(g, c)
    ensures Open(g, Exit()) && Connected(g)
  {
    g := Set(AllWalls(), Start(), 0);
    var stack := [Start()];
    CarvingStarts(AllWalls());
    var step := 0;
    while |stack| > 0
      invariant Carving(g, stack)
      decreases WalledRooms(g), |stack|
    {
      var cur := stack[|stack| - 1];
      var ns := Neighbours(g, cur);
      if |ns| > 0 {
        var next := ns[pick(step) % |ns|];
        CarveShrinksWalled(g, cur, next);
        CarvingPush(g, stack, next);
        g := Carve(g, cur, next);
        stack := stack + [next];
      } else {
        CarvingPop(g, stack);
        stack := stack[..|stack| - 1];
      }
      step := step + 1;
    }
    CarvingEnds(g);
    assert Room(Exit());
    SetOpenIsSame(g, Exit());
    g := Set(g, Exit(), 0);
  }

  /** The player's side: the maze on screen, the ball's cell and the win
      flag. */
  datatype Game = Game(maze: Grid, pos: Cell, won: bool)

  /** What holds throughout play: a carved maze, the ball on an open cell,
      and the game won exactly when the ball is on the exit. */
  ghost predicate Playing(s: Game) {
    && WellFormed(s.maze) && BorderIntact(s.maze) && Connected(s.maze)
    && Open(s.maze, s.pos)
    && (s.won <==> s.pos == Exit())
  }

  /** The restart button: a fresh maze, the ball back at the start. */
  method NewGame(pick: nat -> nat) returns (s: Game)
    ensures Playing(s) && s.pos == Start() && !s.won
    ensures Open(s.maze, Exit())
  {
    var g := GenerateMaze(pick);
    assert Room(Start());
    s := Game(g, Start(), false);
  }

  /** `move`: once won nothing moves; otherwise the ball goes to the
      neighbouring cell only when it is inside the grid, past the top and
      left border, and open, and reaching the exit wins. */
  function Move(s: Game, dx: int, dy: int): (r: Game)
    requires WellFormed(s.maze)
    ensures r.maze == s.maze
    ensures s.won ==> r == s
    ensures var n := Plus(s.pos, Cell(dx, dy));
      !s.won && 0 < n.x && 0 < n.y && Open(s.maze, n) ==> r.pos == n && (r.won <==> n == Exit())
    ensures var n := Plus(s.pos, Cell(dx, dy));
      !(0 < n.x && 0 < n.y && Open(s.maze, n)) ==> r == s
  {
    if s.won then s
    else
      var n := Plus(s.pos, Cell(dx, dy));
      if 0 < n.x < Size && 0 < n.y < Size && s.maze[n.y][n.x] == 0 then
        s.(pos := n, won := n == Exit())
      else s
  }

  /** A move of one cell keeps the game in play: the ball never enters a
      wall, and the flag tracks the exit. */
  lemma MoveKeepsPlaying(s: Game, dx: int, dy: int)
    requires Playing(s)
    ensures Playing(Move(s, dx, dy))
  {
  }

  /** An open cell next to the ball can always be stepped onto. */
  lemma MoveOntoOpen(s: Game, n: Cell)
    requires Playing(s) && !s.won && Open(s.maze, n)
    ensures Move(s, n.x - s.pos.x, n.y - s.pos.y).pos == n
  {
    assert InGrid(n) && !Wall(s.maze, n);
  }

  /** The game after a sequence of moves. */
  function Walk(s: Game, moves: seq<Cell>): (r: Game)
    requires WellFormed(s.maze)
    ensures r.maze == s.maze
    ensures s.won ==> r == s
    decreases |moves|
  {
    if moves == [] then s else Walk(Move(s, moves[0].x, moves[0].y), moves[1..])
  }

  /** The moves that follow a walk cell by cell. */
  function StepsOf(p: seq<Cell>): (moves: seq<Cell>)
    requires |p| > 0
    ensures |moves| == |p| - 1
    ensures forall i :: 0 <= i < |moves| ==> moves[i] == Offset(p[i], p[i + 1])
    decreases |p|
  {
    if |p| == 1 then [] else [Offset(p[0], p[1])] + StepsOf(p[1..])
  }

  /** Following a walk of open cells that ends on the exit wins. */
  lemma {:induction false} FollowingWalkWins(s: Game, p: seq<Cell>)
    requires Playing(s) && |p| > 0 && p[0] == s.pos && p[|p| - 1] == Exit()
    requires forall i :: 0 <= i < |p| ==> Open(s.maze, p[i])
    requires forall i :: 0 <= i < |p| - 1 ==> Abs(p[i].x - p[i + 1].x) + Abs(p[i].y - p[i + 1].y) == 1
    ensures Walk(s, StepsOf(p)).won
    decreases |p|
  {
    if |p| > 1 && !s.won {
      var d := Offset(p[0], p[1]);
      MoveOntoOpen(s, p[1]);
      MoveKeepsPlaying(s, d.x, d.y);
      var s1 := Move(s, d.x, d.y);
      assert StepsOf(p)[1..] == StepsOf(p[1..]);
      FollowingWalkWins(s1, p[1..]);
    }
  }

  /** Every maze the carve produces can be won from the start. */
  lemma EveryMazeCanBeWon(s: Game)
    requires Playing(s) && s.pos == Start() && Open(s.maze, Exit())
    ensures exists moves :: Walk(s, moves).won
  {
    assert Reachable(s.maze, Exit());
    var p :| Path(s.maze, p) && p[|p| - 1] == Exit();
    FollowingWalkWins(s, p);
  }
}
