/** The racing game's rules: the garage (coins, owned cars, the car in
    use), the reward at the end of a race, and the player car's per-frame
    update of speed and lateral position.  Speeds, accelerations and the
    track offset are counted in hundredths of the source's units, so the
    source's decimal constants are exact integers here. */
module CarRacing {
  import opened Common

  datatype CarType = Compact | Van | F1 | Sport | Classic

  /** `CarModel`; `maxSpeed` and `accel` in hundredths. */
  datatype CarModel = CarModel(
    id: nat,
    name: string,
    color: string,
    price: nat,
    maxSpeed: nat,
    accel: nat,
    kind: CarType)

  /** `CAR_MODELS`. */
  function CarModels(): (cars: seq<CarModel>)
    ensures |cars| == 10
  {
    [ CarModel(0, "Fusca Amarelo", "#fbbf24", 0, 1000, 12, Compact),
      CarModel(1, "Kombi Vermelha", "#dc2626", 300, 900, 8, Van),
      CarModel(2, "Chevette Azul", "#2563eb", 800, 1300, 15, Classic),
      CarModel(3, "Golf Preto", "#171717", 2000, 1600, 20, Compact),
      CarModel(4, "Turbo Azul", "#0ea5e9", 5000, 2000, 28, Sport),
      CarModel(5, "F1 Vermelho", "#ff0000", 15000, 3000, 55, F1),
      CarModel(6, "Sport Silver", "#94a3b8", 7500, 2200, 32, Sport),
      CarModel(7, "Hyper Green", "#22c55e", 10000, 2400, 38, Sport),
      CarModel(8, "Classic White", "#f8fafc", 1200, 1200, 14, Classic),
      CarModel(9, "Concept Orange", "#f97316", 25000, 3200, 65, F1) ]
  }

  /** Every car's id is its place in the table, and the first car is free. */
  lemma CarTable()
    ensures forall i :: 0 <= i < 10 ==> CarModels()[i].id == i
    ensures CarModels()[0].price == 0
    ensures forall i :: 0 <= i < 10 ==> CarModels()[i].maxSpeed > 0 && CarModels()[i].accel > 0
  {
  }

  function Price(id: nat): nat
    requires id < 10
  {
    CarModels()[id].price
  }

  /** The garage: the coin balance, the ids of the owned cars in order of
      purchase, and the car in use. */
  datatype Garage = Garage(coins: int, owned: seq<nat>, selected: nat)

  /** The garage of a first visit: no coins, the free car owned and in use. */
  function InitialGarage(): (g: Garage)
    ensures Valid(g) && g.owned == [0] && g.selected == 0 && g.coins == 0
  {
    Garage(0, [0], 0)
  }

  /** The garage as the game keeps it: coins not negative, the free car
      owned, every owned id a car of the table, owned once, and the car in
      use among them. */
  predicate Valid(g: Garage) {
    && g.coins >= 0
    && 0 in g.owned
    && (forall k :: 0 <= k < |g.owned| ==> g.owned[k] < 10)
    && (forall i, j :: 0 <= i < j < |g.owned| ==> g.owned[i] != g.owned[j])
    && g.selected in g.owned
  }

  /** `buyCar`: a car is bought only when the coins cover its price and it
      is not owned yet; the price is paid, the car joins the garage and is
      put in use.  Otherwise nothing changes. */
  function BuyCar(g: Garage, id: nat): (r: Garage)
    requires id < 10
    ensures g.coins >= Price(id) && id !in g.owned ==>
      r == Garage(g.coins - Price(id), g.owned + [id], id)
    ensures !(g.coins >= Price(id) && id !in g.owned) ==> r == g
  {
    var car := CarModels()[id];
    CarTable();
    if g.coins >= car.price && car.id !in g.owned then
      Garage(g.coins - car.price, g.owned + [car.id], car.id)
    else g
  }

  /** The "use" button, shown only on owned cars. */
  function SelectCar(g: Garage, id: nat): (r: Garage)
    ensures r.coins == g.coins && r.owned == g.owned
    ensures r.selected == if id in g.owned then id else g.selected
  {
    if id in g.owned then g.(selected := id) else g
  }

  /** What the owned cars cost. */
  function Spent(owned: seq<nat>): nat
    requires forall k :: 0 <= k < |owned| ==> owned[k] < 10
    decreases |owned|
  {
    if owned == [] then 0 else Spent(owned[..|owned| - 1]) + Price(owned[|owned| - 1])
  }

  /** Purchases keep the garage valid, never take the coins below zero,
      and only turn coins into cars: coins plus the price of what is owned
      stay the same. */
  lemma BuyCarKeepsValid(g: Garage, id: nat)
    requires Valid(g) && id < 10
    ensures Valid(BuyCar(g, id))
    ensures BuyCar(g, id).coins + Spent(BuyCar(g, id).owned) == g.coins + Spent(g.owned)
  {
    var r := BuyCar(g, id);
    if r != g {
      assert r.owned[..|r.owned| - 1] == g.owned;
    }
  }

  /** Buying the same car twice is buying it once. */
  lemma BuyCarIdempotent(g: Garage, id: nat)
    requires id < 10
    ensures BuyCar(BuyCar(g, id), id) == BuyCar(g, id)
  {
  }

  lemma SelectCarKeepsValid(g: Garage, id: nat)
    requires Valid(g)
    ensures Valid(SelectCar(g, id))
  {
  }

  /** What the result screen shows. */
  datatype RaceResult = RaceResult(win: bool, reward: nat, distance: nat)

  /** `endRace`: the distance is the track offset in hundreds of units,
      rounded down; a finished race pays 2500 and a crash half the
      distance, rounded down.  `offset` is in hundredths of a unit. */
  function EndRace(g: Garage, finished: bool, offset: nat): (res: (Garage, RaceResult))
    ensures res.1.win == finished
    ensures res.1.distance * 10000 <= offset < (res.1.distance + 1) * 10000
    ensures finished ==> res.1.reward == 2500
    ensures !finished ==> res.1.reward * 2 <= res.1.distance < res.1.reward * 2 + 2
    ensures res.0 == g.(coins := g.coins + res.1.reward)
  {
    var dist := offset / 10000;
    var reward := if finished then 2500 else dist / 2;
    (g.(coins := g.coins + reward), RaceResult(finished, reward, dist))
  }

  lemma EndRaceKeepsValid(g: Garage, finished: bool, offset: nat)
    requires Valid(g)
    ensures Valid(EndRace(g, finished, offset).0)
    ensures EndRace(g, finished, offset).0.coins >= g.coins
  {
  }

  /** The player car during a race: lateral position, speed in hundredths,
      and the track offset run so far, in hundredths. */
  datatype Racer = Racer(x: int, speed: nat, offset: nat)

  /** The keys held down during a frame. */
  datatype Keys = Keys(left: bool, right: bool, up: bool, down: bool)

  /** The car at the start line. */
  function StartLine(): Racer {
    Racer(200, 0, 0)
  }

  /** The road's edges: the car's x stays between them. */
  const RoadLeft: int := 90
  const RoadRight: int := 310

  function Clamp(lo: int, hi: int, v: int): (c: int)
    requires lo <= hi
    ensures lo <= c <= hi
    ensures lo <= v <= hi ==> c == v
    ensures v < lo ==> c == lo
    ensures v > hi ==> c == hi
  {
    if v < lo then lo else if v > hi then hi else v
  }

  /** One frame of the player car: steering only above half a unit of
      speed, six pixels per held key; the up key accelerates up to the
      car's top speed, the down key brakes four times as hard, and with
      neither the car coasts down by a tenth; x is kept on the road and
      the track moves by the new speed. */
  function Tick(p: Racer, car: CarModel, keys: Keys): (q: Racer)
    ensures RoadLeft <= q.x <= RoadRight
    ensures keys.up ==> q.speed <= car.maxSpeed && (q.speed == p.speed + car.accel || q.speed == car.maxSpeed)
    ensures keys.up && p.speed <= car.maxSpeed ==> q.speed >= p.speed
    ensures !keys.up ==> q.speed <= p.speed
    ensures !keys.up && keys.down ==>
      (q.speed == p.speed - 4 * car.accel || (q.speed == 0 && p.speed <= 4 * car.accel))
    ensures !keys.up && !keys.down ==> (q.speed == p.speed - 10 || (q.speed == 0 && p.speed <= 10))
    ensures q.offset == p.offset + q.speed
    ensures p.speed <= 50 && RoadLeft <= p.x <= RoadRight ==> q.x == p.x
    ensures keys.up ==> q.speed <= p.speed + car.accel
    ensures p.speed > 50 && RoadLeft <= p.x <= RoadRight ==>
      && (keys.left && !keys.right ==> q.x == if p.x - 6 < RoadLeft then RoadLeft else p.x - 6)
      && (keys.right && !keys.left ==> q.x == if p.x + 6 > RoadRight then RoadRight else p.x + 6)
      && (keys.left == keys.right ==> q.x == p.x)
  {
    var steer := if p.speed > 50 then (if keys.left then -6 else 0) + (if keys.right then 6 else 0) else 0;
    var speed: nat :=
      if keys.up then Min(p.speed + car.accel, car.maxSpeed)
      else if keys.down then (if p.speed >= 4 * car.accel then p.speed - 4 * car.accel else 0)
      else (if p.speed >= 10 then p.speed - 10 else 0);
    Racer(Clamp(RoadLeft, RoadRight, p.x + steer), speed, p.offset + speed)
  }

  /** The car as it is during a race: on the road and no faster than its
      top speed. */
  predicate OnRoad(p: Racer, car: CarModel) {
    RoadLeft <= p.x <= RoadRight && p.speed <= car.maxSpeed
  }

  /** The player car after a run of frames. */
  function Drive(p: Racer, car: CarModel, frames: seq<Keys>): Racer
    decreases |frames|
  {
    if frames == [] then p else Drive(Tick(p, car, frames[0]), car, frames[1..])
  }

  /** Over any run of frames the car stays on the road and within its top
      speed, and the track advances by at most the top speed per frame. */
  lemma {:induction false} DriveStaysOnRoad(p: Racer, car: CarModel, frames: seq<Keys>)
    requires OnRoad(p, car)
    ensures OnRoad(Drive(p, car, frames), car)
    ensures p.offset <= Drive(p, car, frames).offset <= p.offset + |frames| * car.maxSpeed
    decreases |frames|
  {
    if frames != [] {
      var q := Tick(p, car, frames[0]);
      DriveStaysOnRoad(q, car, frames[1..]);
      assert |frames| * car.maxSpeed == car.maxSpeed + (|frames| - 1) * car.maxSpeed;
    }
  }

  /** The screens the race passes through. */
  datatype Screen = Menu | Countdown | Racing | Results(result: RaceResult)

  /** One animation frame: the keys held, and whether the race ends in it,
      after the car has moved: `Some(true)` when the three minutes are up,
      `Some(false)` when the car hits another one, `None` otherwise. */
  datatype Frame = Frame(keys: Keys, end: Option<bool>)

  function KeysOf(frames: seq<Frame>): (ks: seq<Keys>)
    ensures |ks| == |frames| && forall i :: 0 <= i < |frames| ==> ks[i] == frames[i].keys
  {
    seq(|frames|, i requires 0 <= i < |frames| => frames[i].keys)
  }

  /** `gameLoop` over the frames the browser delivers, from garage `g` and
      player car `p`.  `seen` is the screen the loop reads when it decides
      whether to ask for the next frame.  Each frame moves the car; a frame
      that ends the race pays out through `EndRace` and shows the results.
      The answer is the garage, the screen and the car after the last frame
      the loop ran. */
  function Loop(seen: Screen, g: Garage, p: Racer, car: CarModel, frames: seq<Frame>): (res: (Garage, Screen, Racer))
    ensures res.1 == Racing || res.1.Results?
    ensures res.1 == Racing ==> res.0 == g
    ensures res.1.Results? ==> res.0 == g.(coins := g.coins + res.1.result.reward)
    ensures (forall i :: 0 <= i < |frames| ==> frames[i].end.None?) ==> res.1 == Racing
    decreases |frames|
  {
    if frames == [] then (g, Racing, p)
    else
      var q := Tick(p, car, frames[0].keys);
      match frames[0].end
      case Some(finished) =>
        var res := EndRace(g, finished, q.offset);
        (res.0, Results(res.1), q)
      case None =>
        if seen == Racing then Loop(seen, g, q, car, frames[1..]) else (g, Racing, q)
  }

  /** The start button as written: it is drawn on the menu, and the
      countdown, `startRace` and the loop it starts all close over that
      render, where the screen is still the menu. */
  function StartRace(g: Garage, car: CarModel, frames: seq<Frame>): (r: (Garage, Screen, Racer))
    ensures frames != [] && frames[0].end.None? ==> r.0 == g && r.1 == Racing
  {
    Loop(Menu, g, StartLine(), car, frames)
  }

  /** As written, a race runs a single frame: the loop reads the menu
      screen, asks for no further frame, and `endRace` is never reached.
      The first frame cannot end the race (no time has passed and no car is
      near), so the race stays on screen, the car stops after one frame, and
      no reward is ever paid; a run whose time runs out in its second frame
      would have paid 2500. */
  lemma StaleLoopStopsAfterOneFrame(g: Garage, car: CarModel, frames: seq<Frame>)
    requires frames != [] && frames[0].end.None?
    ensures StartRace(g, car, frames) == (g, Racing, Tick(StartLine(), car, frames[0].keys))
    ensures var two := [Frame(Keys(false, false, true, false), None), Frame(Keys(false, false, true, false), Some(true))];
      StartRace(g, car, two).0 == g &&
      Loop(Racing, g, StartLine(), car, two).0.coins == g.coins + 2500
  {
  }

  /** The race loop as intended, reading the screen as it is (`Racing`):
      the car is driven through every frame up to the first one that ends
      the race, which pays out on the offset reached; if no frame ends it,
      the car has been driven through all of them and nothing is paid. */
  lemma {:induction false} RaceEnds(g: Garage, p: Racer, car: CarModel, frames: seq<Frame>, k: int)
    requires 0 <= k <= |frames|
    requires forall i :: 0 <= i < k ==> frames[i].end.None?
    requires k < |frames| ==> frames[k].end.Some?
    ensures k == |frames| ==> Loop(Racing, g, p, car, frames) == (g, Racing, Drive(p, car, KeysOf(frames)))
    ensures k < |frames| ==>
      var q := Drive(p, car, KeysOf(frames[..k + 1]));
      var res := EndRace(g, frames[k].end.value, q.offset);
      Loop(Racing, g, p, car, frames) == (res.0, Results(res.1), q)
    decreases |frames|
  {
    if frames != [] {
      var q := Tick(p, car, frames[0].keys);
      assert KeysOf(frames)[1..] == KeysOf(frames[1..]);
      if k == 0 {
        assert KeysOf(frames[..1])[1..] == [];
      } else {
        RaceEnds(g, q, car, frames[1..], k - 1);
        if k < |frames| {
          assert KeysOf(frames[..k + 1])[1..] == KeysOf(frames[1..][..k]);
        }
      }
    }
  }

  /** The start button as intended: the loop reads the screen as it is,
      which is `Racing` while the race runs. */
  function Race(g: Garage, car: CarModel, frames: seq<Frame>): (r: (Garage, Screen, Racer))
    ensures (forall i :: 0 <= i < |frames| ==> frames[i].end.None?) ==>
      r == (g, Racing, Drive(StartLine(), car, KeysOf(frames)))
  {
    if forall i :: 0 <= i < |frames| ==> frames[i].end.None? then
      RaceEnds(g, StartLine(), car, frames, |frames|);
      Loop(Racing, g, StartLine(), car, frames)
    else Loop(Racing, g, StartLine(), car, frames)
  }

  /** A race that ends in frame `k` shows its result and pays: 2500 when
      the time ran out, and for a crash no more than what `k + 1` frames
      at top speed are worth. */
  lemma RacePays(g: Garage, car: CarModel, frames: seq<Frame>, k: int)
    requires 0 <= k < |frames|
    requires forall i :: 0 <= i < k ==> frames[i].end.None?
    requires frames[k].end.Some?
    ensures var r := Race(g, car, frames);
      && r.1.Results? && r.1.result.win == frames[k].end.value
      && (frames[k].end.value ==> r.0.coins == g.coins + 2500)
      && (!frames[k].end.value ==> g.coins <= r.0.coins && (r.0.coins - g.coins) * 20000 <= (k + 1) * car.maxSpeed)
  {
    RaceEnds(g, StartLine(), car, frames, k);
    DriveStaysOnRoad(StartLine(), car, KeysOf(frames[..k + 1]));
  }

  /** A crash after `n` frames pays at most what `n` frames at top speed
      are worth. */
  lemma CrashRewardBounded(g: Garage, car: CarModel, frames: seq<Keys>)
    ensures var res := EndRace(g, false, Drive(StartLine(), car, frames).offset);
      res.1.reward * 20000 <= |frames| * car.maxSpeed
  {
    DriveStaysOnRoad(StartLine(), car, frames);
  }
}
