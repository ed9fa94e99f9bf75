/** The Ludo race: two players take turns rolling a die and moving along a
    30-square track; the first to reach square 30 wins.  A roll happens in
    two phases: the click starts the die spinning and schedules the result,
    and when the result arrives it is applied to the positions and turn
    that were on screen at the click. */
module Ludo {
  import opened Common

  /** The length of the track. */
  const Finish: nat := 30

  /** The values a scheduled roll closed over when the die was clicked. */
  datatype Roll = Roll(turn: Player, pos1: nat, pos2: nat)

  /** `pending` is the roll whose result is still to come, if any. */
  datatype State = State(
    pos1: nat,
    pos2: nat,
    dice: nat,
    turn: Player,
    rolling: bool,
    winner: Option<Player>,
    pending: Option<Roll>)

  function Pos(s: State, p: Player): nat {
    if p == One then s.pos1 else s.pos2
  }

  function RollPos(roll: Roll, p: Player): nat {
    if p == One then roll.pos1 else roll.pos2
  }

  /** The opening screen: both players at the start, player One to move. */
  function Initial(): (s: State)
    ensures Valid(s) && s.winner.None? && !s.rolling
  {
    State(0, 0, 1, One, false, None, None)
  }

  /** What holds at every moment of a game: no one is past the finish;
      a winner is on the finish and a game without one has both players
      short of it; a roll is pending exactly while the die spins, and it
      was made by the player whose turn it still is, in a game without a
      winner, from positions short of the finish. */
  predicate Valid(s: State) {
    && s.pos1 <= Finish && s.pos2 <= Finish
    && 1 <= s.dice <= 6
    && (s.winner.Some? ==> Pos(s, s.winner.value) == Finish)
    && (s.winner.None? ==> s.pos1 < Finish && s.pos2 < Finish)
    && (s.rolling <==> s.pending.Some?)
    && (s.pending.Some? ==>
          && s.pending.value.turn == s.turn
          && s.winner.None?
          && s.pending.value.pos1 < Finish && s.pending.value.pos2 < Finish)
  }

  /** `rollDice`, first phase: ignored while the die spins or once there
      is a winner; otherwise the die starts spinning and the result is
      scheduled with the current turn and positions. */
  function ClickRoll(s: State): (r: State)
    ensures s.rolling || s.winner.Some? ==> r == s
    ensures !s.rolling && s.winner.None? ==>
      && r.rolling && r.pending == Some(Roll(s.turn, s.pos1, s.pos2))
      && r.pos1 == s.pos1 && r.pos2 == s.pos2 && r.turn == s.turn && r.winner == s.winner
  {
    if s.rolling || s.winner.Some? then s
    else s.(rolling := true, pending := Some(Roll(s.turn, s.pos1, s.pos2)))
  }

  /** `rollDice`, second phase: the die shows `val`; the player who
      clicked moves `val` squares from where they were at the click, but
      no further than the finish, and wins on reaching it; the turn passes
      to the other player of the click.  Without a pending roll nothing
      happens. */
  function Settle(s: State, val: int): (r: State)
    requires 1 <= val <= 6
    ensures s.pending.None? ==> r == s
    ensures s.pending.Some? ==>
      var roll := s.pending.value;
      var p := roll.turn;
      && Pos(r, p) == Min(RollPos(roll, p) + val, Finish)
      && Pos(r, p.Other()) == Pos(s, p.Other())
      && (RollPos(roll, p) + val >= Finish ==> r.winner == Some(p))
      && (RollPos(roll, p) + val < Finish ==> r.winner == s.winner)
      && r.turn == p.Other() && r.dice == val
      && !r.rolling && r.pending.None?
  {
    match s.pending
    case None => s
    case Some(roll) =>
      var next := RollPos(roll, roll.turn) + val;
      var landed := if next >= Finish then Finish else next;
      var won := if next >= Finish then Some(roll.turn) else s.winner;
      var s1 := s.(dice := val, rolling := false, pending := None, turn := roll.turn.Other(), winner := won);
      if roll.turn == One then s1.(pos1 := landed) else s1.(pos2 := landed)
  }

  /** The restart button: both players back to the start and no winner.
      The turn, the die and a roll in flight are left as they are. */
  function Reset(s: State): (r: State)
    ensures r.pos1 == 0 && r.pos2 == 0 && r.winner.None?
    ensures r.turn == s.turn && r.rolling == s.rolling && r.pending == s.pending && r.dice == s.dice
  {
    s.(pos1 := 0, pos2 := 0, winner := None)
  }

  /** What can happen on screen: a click on the die, the result of a roll
      arriving, a click on restart. */
  datatype Event = Click | Result(val: int) | Restart

  predicate Possible(e: Event) {
    e.Result? ==> 1 <= e.val <= 6
  }

  function Step(s: State, e: Event): State
    requires Possible(e)
  {
    match e
    case Click => ClickRoll(s)
    case Result(val) => Settle(s, val)
    case Restart => Reset(s)
  }

  function Run(s: State, events: seq<Event>): State
    requires forall i :: 0 <= i < |events| ==> Possible(events[i])
    decreases |events|
  {
    if events == [] then s else Run(Step(s, events[0]), events[1..])
  }

  /** Every event keeps the game valid. */
  lemma StepKeepsValid(s: State, e: Event)
    requires Valid(s) && Possible(e)
    ensures Valid(Step(s, e))
  {
  }

  /** However clicks, results and restarts interleave, no one passes the
      finish, a winner stands on it, and a game without one has both
      players short of it. */
  lemma {:induction false} RunKeepsValid(s: State, events: seq<Event>)
    requires Valid(s)
    requires forall i :: 0 <= i < |events| ==> Possible(events[i])
    ensures Valid(Run(s, events))
    ensures Run(s, events).pos1 <= Finish && Run(s, events).pos2 <= Finish
    decreases |events|
  {
    if events != [] {
      StepKeepsValid(s, events[0]);
      RunKeepsValid(Step(s, events[0]), events[1..]);
    }
  }

  /** A roll left to complete moves only the player to move, by the die
      value up to the finish, and passes the turn. */
  lemma RollMovesMover(s: State, val: int)
    requires Valid(s) && !s.rolling && s.winner.None? && 1 <= val <= 6
    ensures var r := Settle(ClickRoll(s), val);
      && Pos(r, s.turn) == Min(Pos(s, s.turn) + val, Finish)
      && Pos(r, s.turn) > Pos(s, s.turn)
      && Pos(r, s.turn.Other()) == Pos(s, s.turn.Other())
      && r.turn == s.turn.Other()
      && (r.winner == Some(s.turn) <==> Pos(s, s.turn) + val >= Finish)
      && Valid(r)
  {
  }

  /** A game one roll from the end: player One on square 29, to move. */
  function NearlyWon(): State {
    State(29, 0, 1, One, false, None, None)
  }

  /** As written, a restart pressed while the die spins is undone: the
      result that arrives afterwards is applied to the positions of the
      click, so player One, on square 29 before the restart, lands on the
      finish and wins a game that was just restarted. */
  lemma RestartDuringRollIsUndone()
    ensures Valid(NearlyWon())
    ensures var r := Reset(ClickRoll(NearlyWon()));
      r.pos1 == 0 && r.pos2 == 0 && r.winner.None? &&
      Settle(r, 1).pos1 == Finish && Settle(r, 1).winner == Some(One)
  {
  }

  /** A restart that also drops the roll in flight, so a result arriving
      afterwards finds nothing to apply. */
  function NewGame(s: State): (r: State)
    requires Valid(s)
    ensures Valid(r) && r.pos1 == 0 && r.pos2 == 0 && r.winner.None?
    ensures !r.rolling && r.turn == s.turn && r.dice == s.dice
    ensures forall val :: 1 <= val <= 6 ==> Settle(r, val) == r
  {
    s.(pos1 := 0, pos2 := 0, winner := None, rolling := false, pending := None)
  }
}
