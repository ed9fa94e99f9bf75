# Verified rule engines of a browser mini-game collection

The repository is a set of independent browser mini-games, each a React
component with its own local state. Eight of them have a small turn-based or
step-based rule engine buried in the component. This project models each
engine in Dafny as a state datatype with pure transition functions, and proves
properties about them:

- `Checkers`: the 8×8 board, steps, jumps, crowning, the winner test, the
  reset button.
- `Chess`: `getPieceColor`, pseudo-legal moves of all six piece kinds, and the
  click handler that selects and moves.
- `Uno`: the 100-card deck, the deal, plays that match the top card, draws,
  and conservation of the cards.
- `SlidingPuzzle` (the 8-puzzle) and `Jigsaw` (the image puzzle): the
  slide of a tile into the hole, the win tests, the shuffles, the level rule.
  They share `Tiles` (arrangements of `0..n-1` on a square grid and slides
  of the hole) and `Inversions` (the inversion-parity invariant of the
  3×3 board).
- `Maze`: the randomized depth-first carve of a 17×17 grid, and the
  player's moves.
- `Ludo`: the race to square 30, with its two-phase roll (click, then result).
- `SlotMachine`: the spin's cost, its walk round the ring, and its payout.
- `CarRacing`: the garage purchase, the race reward, the per-frame
  speed and lateral-position update, and the frame loop that runs a race,
  over the `CAR_MODELS` table.
- `Common` holds `Option`, the two seats `One`/`Two`, `Abs` and `Min`.

Randomness is a parameter everywhere: a shuffle is any rearrangement
(multiset equality) or a sequence of picks, a die is any value in 1..6, and a
random choice among `n` candidates is a supplied number taken modulo `n`.

## Model

| member | source | states |
|---|---|---|
| Checkers.InitialBoard | components/games/Checkers.tsx:20-29 | the opening board is 8×8; every piece is uncrowned and stands on a square with odd `r + c`; player Two holds rows 0–2 and player One rows 5–7 |
| Checkers.InitialCounts | components/games/Checkers.tsx:20-29 | each player opens with exactly twelve pieces |
| Checkers.CountZeroIffNone | components/games/Checkers.tsx:82-84 | a player's flat filter count is zero exactly when none of their pieces is on the board |
| Checkers.CountSet | components/games/Checkers.tsx:82-84 | replacing one square changes a player's count by what left minus what arrived |
| Checkers.Moved | components/games/Checkers.tsx:68-69 | the piece put down is a copy of the source square's content, crowned when player One lands on row 0 or player Two on row 7 |
| Checkers.CheckWinner | components/games/Checkers.tsx:82-86 | Two wins when One has no piece left, otherwise One wins when Two has none, otherwise the winner is unchanged |
| Checkers.MovePiece | components/games/Checkers.tsx:66-80 | the source is emptied, the destination holds the moved piece, a captured square is emptied, no other square changes, the turn passes, the selection clears and the winner is re-checked |
| Checkers.Click | components/games/Checkers.tsx:36-64 | with a winner a click is a no-op; clicking an own piece only selects it; a legal diagonal step onto an empty square (forward unless crowned) or a jump of two over a non-own piece onto an empty square moves the selected piece (`MovePiece`, the jumped square emptied); every other click (nothing selected, an occupied target, neither a step nor a jump) changes nothing; the turn flips exactly when the board changes |
| Checkers.ClickKeepsInv | components/games/Checkers.tsx:36-80 | in ordinary play no phantom piece appears and a selection always holds a piece of the player to move |
| Checkers.StepKeepsCounts | components/games/Checkers.tsx:51-54 | a simple step changes nobody's piece count |
| Checkers.JumpCapturesOne | components/games/Checkers.tsx:55-61 | a jump removes exactly one opposing piece and none of the mover's |
| Checkers.Reset | components/games/Checkers.tsx:95 | the reset button replaces the board only; turn, selection and winner are kept |
| Checkers.RestartAfterWinIsFrozen | components/games/Checkers.tsx:139 | after a win, "play again" leaves the winner set, so every click on the fresh board is ignored |
| Checkers.ResetLeavesPhantom | components/games/Checkers.tsx:68 | a selection kept across a reset can make the next click move "a piece" out of an empty square, leaving an ownerless object on the board |
| Checkers.NewGame | components/games/Checkers.tsx:20-34 | the intended restart: fresh board, player One to move, no selection, no winner, twelve pieces each |
| Checkers.Clicks | components/games/Checkers.tsx:36-80 | every state reached from a new game by clicks keeps the invariant, so no phantom ever appears |
| Chess.Color | components/games/Chess.tsx:36 | no colour exactly for the empty name; white exactly when the name has no lower-case letter; black exactly when it has one |
| Chess.ColorOfLetters | components/games/Chess.tsx:36 | every one-letter upper-case name is white, every one-letter lower-case name black, and lower-casing a white name gives a black one |
| Chess.InitialPosition | components/games/Chess.tsx:15-24 | black pieces fill rows 0 and 1 and white pieces rows 6 and 7, rows 2 to 5 are empty, pawns stand on rows 1 and 6, each black back-rank piece faces the white piece of the same kind, and the white queen and king stand on columns 3 and 4 |
| Chess.Jumps | components/games/Chess.tsx:45-56 | a knight or king move is one of its offsets onto an on-board square not held by its own side, and there are at most as many moves as offsets |
| Chess.RayFromExact | components/games/Chess.tsx:47-55 | a slider's ray holds exactly the squares reached across empty squares, ending at the first occupied square, which is included only when it holds an enemy |
| Chess.Rays | components/games/Chess.tsx:71-76 | a slider's moves are the union of its rays, each onto a square it may land on |
| Chess.PawnMoves | components/games/Chess.tsx:58-68 | a pawn steps one forward only onto an empty square, two only from its start rank over two empty squares, and diagonally forward only onto an enemy |
| Chess.Moves | components/games/Chess.tsx:38-81 | an empty square has no moves; every move lies on the board and does not target the mover's own side; knights and kings have at most eight |
| Chess.SliderMoves | components/games/Chess.tsx:71-76 | a bishop, rook or queen move is a square along one of its directions reached across empty squares |
| Chess.Apply | components/games/Chess.tsx:96-100 | the moving piece lands on the target, the source empties, and no other square changes |
| Chess.Click | components/games/Chess.tsx:83-106 | clicking a piece of the side to move selects it; with nothing selected any other click changes nothing; otherwise a target among the selected piece's moves moves that piece there, clears the selection and flips the turn, an invalid one only clears the selection, and the board changes only by such a move |
| Chess.MoverOwnsPiece | components/games/Chess.tsx:83-106 | in ordinary play the piece that moves belongs to the side to move |
| Chess.Reset | components/games/Chess.tsx:115 | the reset button replaces the board only; selection and turn are kept |
| Chess.ResetLetsWhiteMoveBlack | components/games/Chess.tsx:115 | a selection kept across the reset lets White move a black pawn, after which it is Black's turn |
| Chess.NewGame | components/games/Chess.tsx:31-33 | the intended restart: the opening board, nothing selected, White to move |
| Uno.DeckCounts | components/games/UnoGame.tsx:18-30 | the deck holds one "0" and two of each other value in each of the four colours, and nothing else |
| Uno.DeckSize | components/games/UnoGame.tsx:21-30 | the deck holds 100 cards |
| Uno.NoWildCard | components/games/UnoGame.tsx:18-30 | no wild card is created |
| Uno.ShuffledSize | components/games/UnoGame.tsx:29 | any shuffle of the deck has 100 cards |
| Uno.Deal | components/games/UnoGame.tsx:43-46 | seven cards to each hand, one face up, the rest left in the deck, and no card lost or added |
| Uno.StartNewGame | components/games/UnoGame.tsx:41-55 | after the deal the hands hold seven cards each, the discard one, the deck 85; all 100 cards are still in play; player One starts with no winner |
| Uno.RemoveAt | components/games/UnoGame.tsx:67-68 | the hand loses exactly the played card and keeps the others in order |
| Uno.PlayCard | components/games/UnoGame.tsx:58-80 | a play by the other player or of a card matching neither colour nor value of the top card is a no-op; a legal play moves exactly that card from the hand to the top of the discard; emptying the hand wins and stops the game, otherwise the turn passes |
| Uno.DrawCard | components/games/UnoGame.tsx:83-94 | a draw from an empty deck is a no-op; otherwise the deck's last card goes to the player to move, the other hand and the discard pile are kept, the game stays running with no winner change, and the turn passes |
| Uno.PlayConserves | components/games/UnoGame.tsx:66-70 | plays keep every card in the game |
| Uno.DrawConserves | components/games/UnoGame.tsx:85-92 | draws keep every card in the game |
| Uno.CardsAreConserved | components/games/UnoGame.tsx:41-94 | from a new game, any sequence of plays and draws keeps the same 100 cards across deck, hands and discard |
| SlidingPuzzle.GenerateTiles | components/games/SlidingPuzzle.tsx:11 | the opening tiles are 0..8 in order |
| SlidingPuzzle.SolvedIsGoal | components/games/SlidingPuzzle.tsx:35 | the win test holds exactly for 1, 2, ..., 8 followed by the blank |
| SlidingPuzzle.Shuffle | components/games/SlidingPuzzle.tsx:16-22 | a shuffle leaves an arrangement of 0..8 and clears the win flag |
| SlidingPuzzle.MoveTile | components/games/SlidingPuzzle.tsx:25-40 | a click at Manhattan distance one from the blank swaps exactly those two cells; any other click, the blank itself included, changes nothing; the win flag is raised exactly when the result is the goal |
| SlidingPuzzle.MoveTileIsSlide | components/games/SlidingPuzzle.tsx:27-33 | the 8-puzzle's click is the shared slide of the hole on a 3-wide grid |
| SlidingPuzzle.ClicksArePlay | components/games/SlidingPuzzle.tsx:25-40 | a sequence of clicks follows the shared slide model |
| SlidingPuzzle.WrongParityNeverWins | components/games/SlidingPuzzle.tsx:25-40 | from a board whose inversion parity differs from the goal's, no clicks ever raise the win flag |
| SlidingPuzzle.RandomShuffleCanBeUnwinnable | components/games/SlidingPuzzle.tsx:18 | the random sort can deal tiles 1 and 2 exchanged, a board from which no clicks reach the goal |
| SlidingPuzzle.ShuffleByMoves | components/games/SlidingPuzzle.tsx:16-22 | a shuffle by legal moves of the blank from the goal always deals a board from which the goal can be reached |
| SlidingPuzzle.SolvableHasWinningClicks | components/games/SlidingPuzzle.tsx:25-40 | on such a board some sequence of clicks reaches the goal |
| Inversions.SlideKeepsParity | components/games/SlidingPuzzle.tsx:30-33 | on a grid of odd width a slide keeps the inversion parity of the tiles |
| Inversions.ParityBlocksSolving | components/games/SlidingPuzzle.tsx:35-38 | a board whose parity differs from the goal's cannot be slid to the goal |
| Tiles.ManhattanIsAdjacent | components/games/SlidingPuzzle.tsx:28 | the 8-puzzle's Manhattan test is the image puzzle's row-or-column adjacency |
| Tiles.NeighboursCorrect | components/games/JigsawPuzzle.tsx:87-94 | every neighbour the shuffle may pick is inside the grid and orthogonally next to the hole, and every such cell is offered |
| Tiles.SwapKeepsPerm | components/games/JigsawPuzzle.tsx:97 | swapping two cells keeps an arrangement of 0..n-1 |
| Tiles.ShuffleByMoves | components/games/JigsawPuzzle.tsx:77-104 | the shuffle loop keeps the tiles an arrangement of 0..n²-1 with the hole at `emptyIdx`, and the result can be slid back to where it started |
| Tiles.UndoPlay | components/games/JigsawPuzzle.tsx:95-98 | every sequence of legal hole moves can be undone by moves of the hole, so the board it reaches can be slid back |
| Jigsaw.GridSize | components/games/JigsawPuzzle.tsx:75 | the grid width is the level plus two up to level 3 and 5 from then on, so between 3 and 5 from level 1 on |
| Jigsaw.InitGame | components/games/JigsawPuzzle.tsx:77-104 | the dealt tiles are an arrangement of the grid's cells that can be slid back to the picture |
| Jigsaw.SwapTiles | components/games/JigsawPuzzle.tsx:106-130 | outside the playing screen a click does nothing; a tile orthogonally next to the hole trades places with it and nothing else changes; the game is won exactly when every tile is in its own cell |
| Jigsaw.SwapTilesIsSlide | components/games/JigsawPuzzle.tsx:109-121 | the image puzzle's click is the shared slide of the hole |
| Jigsaw.NextLevel | components/games/JigsawPuzzle.tsx:241 | the level goes up by exactly one, the grid grows by one up to width 5, and the game returns to the category screen |
| Jigsaw.ChooseCategory | components/games/JigsawPuzzle.tsx:158 | choosing a category records it and opens the image screen |
| Jigsaw.BackToSelection | components/games/JigsawPuzzle.tsx:175 | the back button returns to the category screen and keeps the level |
| Jigsaw.WonIsFinal | components/games/JigsawPuzzle.tsx:107 | once won, clicks change nothing |
| Jigsaw.ReachingPictureWins | components/games/JigsawPuzzle.tsx:124-126 | clicks that bring the tiles back to the picture win the game |
| Jigsaw.DealtPuzzleCanBeWon | components/games/JigsawPuzzle.tsx:77-130 | a dealt puzzle that does not already show the picture can always be won by clicks |
| Maze.AllWalls | components/games/MazeGame.tsx:17 | the carve starts from a 17×17 grid of walls |
| Maze.Neighbours | components/games/MazeGame.tsx:24-29 | the candidates are exactly the cells two steps along a row or column, inside the border, that are still walls |
| Maze.Carve | components/games/MazeGame.tsx:33-34 | a carving step opens the chosen room and the wall between it and the current room, and no other cell |
| Maze.CarveShrinksWalled | components/games/MazeGame.tsx:33-35 | each push opens a room that was walled, so the set of walled rooms shrinks |
| Maze.CarveKeepsConnected | components/games/MazeGame.tsx:33-35 | carving from a reachable room keeps every open cell reachable from (1, 1) |
| Maze.CarvingPush | components/games/MazeGame.tsx:31-35 | a push keeps the loop invariant: border intact, stack rooms open, every open room on the stack or with no walled neighbour, all open cells reachable |
| Maze.CarvingPop | components/games/MazeGame.tsx:36 | a pop, which happens only when the top has no walled neighbour, keeps the loop invariant |
| Maze.RoomOpen | components/games/MazeGame.tsx:22-37 | once every open room has no walled neighbour, every room of the grid is open |
| Maze.GenerateMaze | components/games/MazeGame.tsx:16-40 | whatever the random picks, the loop terminates, the border stays walls, every room is carved, the exit is open, and every open cell can be walked to from (1, 1) |
| Maze.Move | components/games/MazeGame.tsx:44-56 | once won nothing moves; the ball moves only onto an in-range open cell, and reaching the exit wins; any other move changes nothing |
| Maze.MoveKeepsPlaying | components/games/MazeGame.tsx:44-56 | the ball never stands on a wall, and the game is won exactly when the ball is on the exit |
| Maze.FollowingWalkWins | components/games/MazeGame.tsx:44-56 | following a walk of open cells that ends on the exit wins |
| Maze.EveryMazeCanBeWon | components/games/MazeGame.tsx:38 | every maze the carve produces can be won from the start |
| Maze.NewGame | components/games/MazeGame.tsx:69 | restart gives a fresh maze with the ball at (1, 1) and no win |
| Ludo.ClickRoll | components/games/LudoGame.tsx:24-29 | a roll is ignored while the die spins or once there is a winner; otherwise the result is scheduled with the turn and positions on screen |
| Ludo.Settle | components/games/LudoGame.tsx:30-45 | the player of the roll moves by the die value but not past 30, and wins on reaching it; the other position is unchanged; the turn passes |
| Ludo.Reset | components/games/LudoGame.tsx:53 | restart sets both positions to 0 and clears the winner, and leaves a roll in flight alone |
| Ludo.StepKeepsValid | components/games/LudoGame.tsx:24-53 | every click, result and restart keeps the positions within 30, the winner on 30, and a pending roll tied to the player to move |
| Ludo.RunKeepsValid | components/games/LudoGame.tsx:24-53 | however clicks, results and restarts interleave, no position passes 30 |
| Ludo.RollMovesMover | components/games/LudoGame.tsx:35-44 | an undisturbed roll moves only the player to move, forward, by the die value up to 30, flips the turn, and wins exactly on reaching 30 |
| Ludo.RestartDuringRollIsUndone | components/games/LudoGame.tsx:30-45 | a restart pressed while the die spins is overwritten when the result arrives: player One, on 29 before the restart, wins the restarted game |
| Ludo.NewGame | components/games/LudoGame.tsx:53 | a restart that also drops the roll in flight; no later result changes it |
| SlotMachine.Payout | components/games/SlotMachine.tsx:9-22 | every payout is one of 0, 10, 20, 50, 100, 200 |
| SlotMachine.StartSpin | components/games/SlotMachine.tsx:32-67 | a spin is refused while one runs or below a balance of 5; otherwise the highlight ends `40 + extra` flags round the ring, modulo 12, and the balance changes by that flag's payout less 5 |
| SlotMachine.SpinKeepsValid | components/games/SlotMachine.tsx:34-57 | the balance never goes negative and a spin changes it by one of -5, 5, 15, 45, 95, 195 or not at all |
| SlotMachine.EveryFlagCanWin | components/games/SlotMachine.tsx:42-45 | from any flag, each of the twelve flags can be where a spin stops |
| CarRacing.CarTable | components/games/CarRacing.tsx:37-48 | each car's id is its place in the table and car 0 costs nothing |
| CarRacing.InitialGarage | components/games/CarRacing.tsx:55-57 | a first visit starts with no coins, car 0 owned and in use |
| CarRacing.BuyCar | components/games/CarRacing.tsx:171-178 | a car is bought only when the coins cover its price and it is not owned; the price is paid, the car is added and put in use; otherwise nothing changes |
| CarRacing.BuyCarKeepsValid | components/games/CarRacing.tsx:171-178 | purchases never take the coins below zero, never buy a car twice, and keep coins plus the price of owned cars constant |
| CarRacing.BuyCarIdempotent | components/games/CarRacing.tsx:172 | buying the same car twice is buying it once |
| CarRacing.SelectCar | components/games/CarRacing.tsx:218 | only an owned car can be put in use |
| CarRacing.EndRace | components/games/CarRacing.tsx:161-169 | the distance is the offset in hundreds rounded down; a finished race pays 2500, a crash half the distance rounded down; the coins grow by exactly the reward |
| CarRacing.Tick | components/games/CarRacing.tsx:109-118 | after every frame x is between 90 and 310; above half a unit of speed the left key alone moves the car 6 left and the right key alone 6 right, clamped to the road, and both or neither keep it; at or below that speed it does not steer; the up key adds the acceleration up to the top speed, the down key brakes by four times the acceleration and no key by a tenth, never below 0; the track advances by the new speed |
| CarRacing.DriveStaysOnRoad | components/games/CarRacing.tsx:102-118 | over any run of frames the car stays on the road and within its top speed, and the track advances at most the top speed per frame |
| CarRacing.Loop | components/games/CarRacing.tsx:102-145 | a frame loop only pays when the race ends, and then pays exactly the reward shown; while the race runs the garage is untouched, and a run of frames none of which ends the race leaves the race on screen |
| CarRacing.StartRace | components/games/CarRacing.tsx:79-99 | as written the start button's race, whose first frame cannot end it, leaves the garage unchanged and the race screen up |
| CarRacing.Race | components/games/CarRacing.tsx:93-99 | with the loop reading the live screen, frames that do not end the race drive the car through every one of them and pay nothing |
| CarRacing.StaleLoopStopsAfterOneFrame | components/games/CarRacing.tsx:79-99 | as written the loop started from the menu runs one frame and stops: the garage is unchanged, the race screen stays up, and a run whose time is up in its second frame pays nothing where the live loop pays 2500 |
| CarRacing.RaceEnds | components/games/CarRacing.tsx:102-145 | a loop reading the live screen drives the car through every frame up to the first that ends the race and pays out on the offset reached; with no ending frame nothing is paid |
| CarRacing.RacePays | components/games/CarRacing.tsx:119-129 | a race that ends shows its result; running out of time pays 2500 and a crash at frame `k` no more than `k + 1` frames at top speed are worth |
| CarRacing.CrashRewardBounded | components/games/CarRacing.tsx:163-164 | a crash after `n` frames pays at most what `n` frames at top speed are worth |

## Left out

- The football game: floating-point physics, a per-frame canvas loop and keyboard state.
- The racing frame loop's clock, enemy spawning, collisions, weather and countdown: whether a frame ends the race, and how, is the `end` field of `CarRacing.Frame`, supplied with the frame.
- Timers and pacing: the Ludo 600 ms delay (modelled as the separate `Ludo.Settle` event), the slot machine's step delays, the race countdown.
- Sound effects, ripple effects, confetti and rendering.
- `localStorage`. The garage starts from empty storage: no coins, car 0 owned and selected.
- The actual random distributions. Each random outcome is a parameter.
- The chess `status` guard: nothing ever sets `status`, so the mate/draw test never fires.
- Check, mate, castling and en passant in chess, forced captures and multi-jumps in checkers: the source has none.
- Non-ASCII case mapping: chess upper- and lower-casing are modelled on ASCII letters only, and piece names are ASCII.
- CarRacing.Tick: speeds, accelerations and the track offset are exact hundredths; the source's floating-point rounding as the offset accumulates is not modelled.
- CarRacing.Loop: a frame that ends the race calls `EndRace` once. As written, the `return` in the crash test leaves only the `forEach` callback, so every further car overlapping the player in the same frame calls `endRace(false)` again and adds the reward again; the model pays one reward per race, the one the result screen reports.
- Uno: after the deal the deck holds 85 cards (100 − 7 − 7 − 1), as the code computes.
- Uno.PlayCard: requires a game in progress and an in-range card. The hands are only clickable then, and `Uno.Apply` ignores any other click.
- Maze.Move: requires a 17×17 grid. Before the first maze is generated the grid is empty, and the source would index into it.
- Maze.GenerateMaze: that the carve yields a tree (a perfect maze) is not proved; connectivity and full coverage are.
- The jigsaw's category and image catalogue: categories and images are indices.
- The slot machine's flag emoji: each symbol keeps its value and name.

## Findings

| source | as written | input that shows it | evidently intended | confidence | as-written member | corrected member |
|---|---|---|---|---|---|---|
| components/games/SlidingPuzzle.tsx:18 | `shuffle` sorts the tiles with a random comparator, so any arrangement can be dealt | tiles 2, 1, 3, 4, 5, 6, 7, 8, blank: odd inversion parity, so no clicks reach the goal | deal only winnable boards, e.g. by legal moves of the blank from the goal as the image puzzle does | not executed; high | SlidingPuzzle.RandomShuffleCanBeUnwinnable | SlidingPuzzle.ShuffleByMoves |
| components/games/Checkers.tsx:139 | "play again" after a win replaces the board but keeps `winner` | any won game, then "play again", then any click | a restart also clears the winner, selection and turn | not executed; high | Checkers.RestartAfterWinIsFrozen | Checkers.NewGame |
| components/games/Checkers.tsx:95 | the reset button keeps `selected`, and `movePiece` copies whatever is on it | player One selects (4, 1), resets, clicks (3, 0): an ownerless object appears on (3, 0) | a reset clears the selection | not executed; high | Checkers.ResetLeavesPhantom | Checkers.NewGame |
| components/games/Chess.tsx:115 | the reset button keeps `selected` and `turn` | White has a piece selected on (1, 0), resets, clicks (2, 0): the black pawn moves and it is Black's turn | a reset clears the selection and gives White the move | not executed; high | Chess.ResetLetsWhiteMoveBlack | Chess.NewGame |
| components/games/LudoGame.tsx:30-45 | the roll's result is applied to the positions and turn captured at the click, even after a restart | player One on 29 rolls, restart is pressed while the die spins, the die shows 1: One is on 30 and wins the restarted game | a restart cancels the roll in flight | not executed; medium | Ludo.RestartDuringRollIsUndone | Ludo.NewGame |
| components/games/CarRacing.tsx:144 | the loop asks for its next frame only if `gameState` is `'playing'`, but it reads the value captured when the start button was rendered, on the menu | start a race from the menu: after one frame the loop stops, `endRace` is never called, and no reward is ever paid | the loop reads the live screen (e.g. through a ref), so it runs until time is up or a crash, which pays one reward | not executed; high | CarRacing.StaleLoopStopsAfterOneFrame | CarRacing.RacePays |
