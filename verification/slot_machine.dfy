/** The slot machine: a ring of twelve flags, each with a payout.  A spin
    costs 5, the highlight then runs around the ring for 40 to 69 steps,
    and the payout of the flag it stops on is credited. */
module SlotMachine {
  import opened Common

  /** A flag of the ring and what landing on it pays. */
  datatype Symbol = Symbol(value: nat, name: string)

  /** `SYMBOL_DATA`, in ring order. */
  function SymbolData(): (ring: seq<Symbol>)
    ensures |ring| == 12
  {
    [ Symbol(200, "Brasil"), Symbol(100, "EUA"), Symbol(100, "Japão"),
      Symbol(50, "Alemanha"), Symbol(50, "China"), Symbol(20, "Reino Unido"),
      Symbol(20, "França"), Symbol(10, "Itália"), Symbol(10, "Argentina"),
      Symbol(0, "Espanha"), Symbol(0, "Canadá"), Symbol(0, "Coreia do Sul") ]
  }

  /** The price of one spin. */
  const Cost: int := 5

  /** The fewest steps a spin takes; a random 0..29 more are added. */
  const MinSteps: nat := 40

  datatype State = State(activeIndex: nat, spinning: bool, balance: int, lastWin: Option<nat>)

  /** The machine at rest: the highlight on a flag of the ring and a
      balance that is not negative. */
  predicate Valid(s: State) {
    s.activeIndex < 12 && !s.spinning && s.balance >= 0
  }

  /** The opening screen: the first flag lit and a balance of 500. */
  function Initial(): (s: State)
    ensures Valid(s) && s.balance == 500
  {
    State(0, false, 500, None)
  }

  /** What the flag at `i` pays. */
  function Payout(i: nat): (v: nat)
    requires i < 12
    ensures v in {0, 10, 20, 50, 100, 200}
  {
    SymbolData()[i].value
  }

  /** The flag a spin of `MinSteps + extra` steps from `start` rests on. */
  function Landing(start: nat, extra: nat): nat {
    (start + MinSteps + extra) % 12
  }

  /** One step further round the ring, from `k` steps past `start`. */
  lemma RingStep(start: nat, k: nat)
    ensures ((start + k) % 12 + 1) % 12 == (start + k + 1) % 12
  {
  }

  /** `startSpin`.  `extra` stands for the random `0..29` added to the
      step count.  A spin is refused while one runs or when the balance
      is below the cost; otherwise the cost is paid, the highlight moves
      one flag per step, and when the steps run out the flag it rests on
      pays out. */
  method StartSpin(s: State, extra: nat) returns (r: State)
    requires extra < 30
    ensures s.spinning || s.balance < Cost ==> r == s
    ensures !s.spinning && s.balance >= Cost ==>
      && r.activeIndex == Landing(s.activeIndex, extra)
      && r.balance == s.balance - Cost + Payout(r.activeIndex)
      && r.lastWin == Some(Payout(r.activeIndex))
      && !r.spinning
  {
    if s.spinning || s.balance < Cost {
      return s;
    }
    var cur := s.(balance := s.balance - Cost, spinning := true, lastWin := None);
    var idx := s.activeIndex;
    var steps: int := MinSteps + extra;
    while steps > 0
      invariant 0 <= steps <= MinSteps + extra
      invariant idx == if steps == MinSteps + extra then s.activeIndex
                       else (s.activeIndex + (MinSteps + extra - steps)) % 12
      invariant cur.balance == s.balance - Cost && cur.spinning && cur.lastWin.None?
      decreases steps
    {
      if steps < MinSteps + extra {
        RingStep(s.activeIndex, MinSteps + extra - steps);
      }
      idx := (idx + 1) % 12;
      cur := cur.(activeIndex := idx);
      steps := steps - 1;
    }
    var won := SymbolData()[idx].value;
    r := cur.(activeIndex := idx, spinning := false, lastWin := Some(won), balance := cur.balance + won);
  }

  /** A spin from a machine at rest leaves it at rest: the balance never
      goes negative, and it changes by the payout less the cost. */
  method SpinKeepsValid(s: State, extra: nat) returns (r: State)
    requires Valid(s) && extra < 30
    ensures Valid(r)
    ensures r.balance - s.balance in {0, -5, 5, 15, 45, 95, 195}
    ensures s.balance < Cost ==> r == s
  {
    r := StartSpin(s, extra);
  }

  /** Whatever flag the highlight starts on, every flag can be the one a
      spin stops on. */
  lemma EveryFlagCanWin(start: nat, target: nat)
    requires start < 12 && target < 12
    ensures exists extra :: 0 <= extra < 30 && Landing(start, extra) == target
  {
    var extra := (target - start - MinSteps) % 12;
    assert Landing(start, extra) == target;
  }
}
