/**
 * Riders and drivers of the marketplace, as values, with the price floors and the
 * patience rule fixed when an agent is created.
 */
module Agents {

  /** A grid cell (row, column). */
  type Cell = (int, int)

  const GRID_SIZE: int := 5
  const MAX_WAIT: int := 7
  const MIN_BID: real := 0.3
  const MIN_ASK: real := 0.2
  /** Offset added to the driver count in the pressure ratio. */
  const EPS: real := 1.0

  predicate InGrid(c: Cell)
  {
    0 <= c.0 < GRID_SIZE && 0 <= c.1 < GRID_SIZE
  }

  function Abs(x: int): nat
  {
    if x < 0 then -x else x
  }

  /** Manhattan distance between two cells. */
  function Manhattan(a: Cell, b: Cell): (d: nat)
    ensures d == 0 <==> a == b
    ensures d >= Abs(a.0 - b.0) && d >= Abs(a.1 - b.1)
  {
    Abs(a.0 - b.0) + Abs(a.1 - b.1)
  }

  /**
   * The floating-point pricing formulas, left uninterpreted. `rawBid(ref, p, noise)`
   * stands for ref * p ** -KB * (1 + noise), the rider bid before its floor;
   * `rawAsk(ref, p, noise)` for ref * p ** -KA * (1 + noise); `driverRateFactor(p)`
   * for p ** -KD.
   */
  datatype PriceCurve = PriceCurve(
    rawBid: (real, real, real) -> real,
    rawAsk: (real, real, real) -> real,
    driverRateFactor: real -> real)

  /**
   * A rider. `activeRequests` holds the ids of the drivers it has sent a request to.
   */
  datatype Rider = Rider(
    id: nat,
    loc: Cell,
    spawnTime: int,
    wait: nat,
    matched: bool,
    activeRequests: set<nat>,
    bid: real)

  /**
   * A pending request in a driver's inbox. The inbox of the original keeps a reference
   * to the rider; the only parts of the rider it ever reads are its id and its bid,
   * and the bid is fixed at construction, so the entry keeps those two.
   */
  datatype Request = Request(riderId: nat, bid: real)

  datatype Driver = Driver(
    id: nat,
    loc: Cell,
    spawnTime: int,
    wait: nat,
    matched: bool,
    inbox: seq<Request>,
    inboxAge: nat,
    patience: int,
    ask: real)

  /** Local supply/demand pressure: (drivers + EPS) / (riders + 1). */
  function Pressure(riders: int, drivers: int): (p: real)
    requires riders >= 0 && drivers >= 0
    ensures p > 0.0
  {
    (drivers as real + EPS) / (riders as real + 1.0)
  }

  /**
   * Pressure is the ratio of driver supply to rider demand: it scales the rider count
   * plus one back to the driver count plus EPS, and it exceeds 1 exactly when there are
   * more drivers than riders.
   */
  lemma PressureRatio(riders: int, drivers: int)
    requires riders >= 0 && drivers >= 0
    ensures Pressure(riders, drivers) * (riders as real + 1.0) == drivers as real + EPS
    ensures drivers <= riders <==> Pressure(riders, drivers) <= 1.0
  {
  }

  /** `raw` floored at `floor`. */
  function Floored(raw: real, floor: real): (r: real)
    ensures r >= floor && r >= raw
    ensures r == raw || r == floor
  {
    if raw > floor then raw else floor
  }

  /** A newly spawned rider; its bid is the noisy reference price floored at MIN_BID. */
  function NewRider(id: nat, t: int, loc: Cell, refPrice: real, pressure: real,
                    noise: real, curve: PriceCurve): (r: Rider)
    ensures r.id == id && r.loc == loc && r.spawnTime == t
    ensures r.wait == 0 && !r.matched && r.activeRequests == {}
    ensures r.bid >= MIN_BID
    ensures r.bid >= curve.rawBid(refPrice, pressure, noise)
    ensures r.bid == MIN_BID || r.bid == curve.rawBid(refPrice, pressure, noise)
  {
    Rider(id, loc, t, 0, false, {}, Floored(curve.rawBid(refPrice, pressure, noise), MIN_BID))
  }

  /** int(MAX_WAIT / (1 + pressure)): Python's int() truncates toward zero. */
  function Patience(pressure: real): (k: int)
    requires 1.0 + pressure != 0.0
    ensures pressure > 0.0 ==> 0 <= k < MAX_WAIT
  {
    var q := (MAX_WAIT as real) / (1.0 + pressure);
    if q >= 0.0 then q.Floor else -((-q).Floor)
  }

  /** For a pressure above -1 the patience is MAX_WAIT / (1 + pressure) rounded down. */
  lemma PatienceTruncates(pressure: real)
    requires pressure > -1.0
    ensures Patience(pressure) as real <= (MAX_WAIT as real) / (1.0 + pressure) < Patience(pressure) as real + 1.0
  {
  }

  /** A newly spawned driver; its ask is floored at MIN_ASK and its patience set from the pressure. */
  function NewDriver(id: nat, t: int, loc: Cell, refPrice: real, pressure: real,
                     noise: real, curve: PriceCurve): (d: Driver)
    requires 1.0 + pressure != 0.0
    ensures d.id == id && d.loc == loc && d.spawnTime == t
    ensures d.wait == 0 && !d.matched && d.inbox == [] && d.inboxAge == 0
    ensures d.ask >= MIN_ASK
    ensures d.ask >= curve.rawAsk(refPrice, pressure, noise)
    ensures d.ask == MIN_ASK || d.ask == curve.rawAsk(refPrice, pressure, noise)
    ensures pressure > 0.0 ==> 0 <= d.patience < MAX_WAIT
  {
    Driver(id, loc, t, 0, false, [], 0, Patience(pressure),
           Floored(curve.rawAsk(refPrice, pressure, noise), MIN_ASK))
  }

  /** An agent has expired once its wait reaches MAX_WAIT. */
  predicate Expired(wait: nat)
  {
    wait >= MAX_WAIT
  }
}
