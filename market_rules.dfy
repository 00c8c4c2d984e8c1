/**
 * The rules of the market that do not depend on the simulation's mutable state:
 * the tick's arrival rates, admission to a cell, which drivers a rider requests,
 * the inbox ageing rule, and the invariants of the agent registries.
 */
module MarketRules {
  import opened Agents
  import opened MarketMemory
  import opened Ranking
  import opened Grid
  import opened Registry

  const SIM_MINUTES: nat := 500
  const MAX_RIDERS_PER_CELL: int := 10
  const MAX_DRIVERS_PER_CELL: int := 10
  const BASE_LAM: real := 0.05
  /** Inclusive tick windows during which rider arrivals surge. */
  const SURGES: seq<(int, int)> := [(50, 100), (200, 230), (350, 380)]
  const SURGE_LAM: real := 0.5
  /** Radius of the price-averaging neighbourhood: GRID_SIZE // 3. */
  const PRICE_RADIUS: int := GRID_SIZE / 3
  /** Radius of the pressure neighbourhood. */
  const PRESSURE_RADIUS: int := 1
  /** Number of requests a rider broadcasts per tick. */
  const FANOUT: nat := 3
  /** Cap on the driver Poisson mean. */
  const MAX_DRIVER_LAM: real := 5.0

  /**
   * The random draws of one tick. `riderArrivals(lam, c)` is the Poisson count drawn
   * with mean `lam` for cell `c`; `riderNoise(id)` the Gaussian noise drawn for the
   * agent with that id; likewise for drivers.
   */
  datatype Draws = Draws(
    riderArrivals: (real, Cell) -> nat,
    driverArrivals: (real, Cell) -> nat,
    riderNoise: nat -> real,
    driverNoise: nat -> real)

  /** Which side of the market memory a price average reads. */
  datatype Side = BidSide | AskSide

  /** The per-tick series the simulation records. */
  datatype Metrics = Metrics(
    riderCounts: seq<int>,
    driverCounts: seq<int>,
    avgRates: seq<real>,
    droppedRiders: seq<int>,
    droppedDrivers: seq<int>,
    ridersSpawned: seq<int>,
    driversSpawned: seq<int>,
    pressureList: seq<real>)

  /**
   * `m` holds `t` entries in every series, plus `spawned` more in the three series written
   * while agents arrive and `dropped` more in the two written when agents leave.
   */
  ghost predicate Counted(m: Metrics, t: int, spawned: nat, dropped: nat)
  {
    && t >= 0
    && |m.riderCounts| == t && |m.driverCounts| == t && |m.avgRates| == t
    && |m.ridersSpawned| == t + spawned && |m.driversSpawned| == t + spawned
    && |m.pressureList| == t + spawned
    && |m.droppedRiders| == t + dropped && |m.droppedDrivers| == t + dropped
  }

  /** The price floor of each side. */
  function Floor(side: Side): real
  {
    if side == BidSide then MIN_BID else MIN_ASK
  }

  /** Number of surge windows [s.0, s.1] that contain tick t. */
  function SurgeCount(t: int, windows: seq<(int, int)>): nat
  {
    if windows == [] then 0
    else SurgeCount(t, windows[..|windows| - 1])
         + (if windows[|windows| - 1].0 <= t <= windows[|windows| - 1].1 then 1 else 0)
  }

  /** Rider Poisson mean at tick t. */
  function RiderRate(t: int): real
  {
    BASE_LAM + SURGE_LAM * (SurgeCount(t, SURGES) as real)
  }

  /** The configured surge windows do not overlap, so the rate takes one of two values. */
  lemma RiderRateValues(t: int)
    ensures RiderRate(t) == if (50 <= t <= 100) || (200 <= t <= 230) || (350 <= t <= 380)
                            then BASE_LAM + SURGE_LAM else BASE_LAM
  {
    var w := SURGES;
    assert w[..|w| - 1] == [w[0], w[1]];
    assert [w[0], w[1]][..1] == [w[0]];
    assert [w[0]][..0] == [];
    var c1 := if 50 <= t <= 100 then 1 else 0;
    var c2 := if 200 <= t <= 230 then 1 else 0;
    var c3 := if 350 <= t <= 380 then 1 else 0;
    assert SurgeCount(t, [w[0]]) == c1;
    assert SurgeCount(t, [w[0], w[1]]) == c1 + c2;
    assert SurgeCount(t, w) == c1 + c2 + c3;
  }

  /**
   * Lambda for rider arrivals at tick t: BASE_LAM, plus SURGE_LAM once per surge window
   * containing t.
   */
  method RiderArrivalRate(t: int) returns (lam: real)
    ensures lam == RiderRate(t)
  {
    lam := BASE_LAM;
    for s := 0 to |SURGES|
      invariant lam == BASE_LAM + SURGE_LAM * (SurgeCount(t, SURGES[..s]) as real)
    {
      assert SURGES[..s + 1][..s] == SURGES[..s];
      if SURGES[s].0 <= t <= SURGES[s].1 {
        lam := lam + SURGE_LAM;
      }
    }
    assert SURGES[..|SURGES|] == SURGES;
  }

  /** Driver Poisson mean: 0.2 * pressure ** -KD, capped at MAX_DRIVER_LAM. */
  function DriverRate(pressure: real, curve: PriceCurve): (lam: real)
    ensures lam <= MAX_DRIVER_LAM
    ensures lam == MAX_DRIVER_LAM || lam == 0.2 * curve.driverRateFactor(pressure)
    ensures 0.2 * curve.driverRateFactor(pressure) <= MAX_DRIVER_LAM ==> lam == 0.2 * curve.driverRateFactor(pressure)
  {
    var lam := 0.2 * curve.driverRateFactor(pressure);
    if lam < MAX_DRIVER_LAM then lam else MAX_DRIVER_LAM
  }

  /**
   * How many arrivals a cell holding `count` agents admits when `n` were drawn: none
   * when it is full, otherwise at most the remaining capacity.
   */
  function Admitted(count: int, cap: int, n: nat): (k: int)
    ensures k >= 0
    ensures count <= cap ==> count + k <= cap
    ensures count >= cap ==> k == 0
    ensures count < cap ==> k == Min(n, cap - count) && (k == n || count + k == cap)
  {
    if count >= cap then 0 else Min(n, cap - count)
  }

  /** Riders admitted to cell c, holding `count` riders, at tick t. */
  function RiderQuota(draws: Draws, t: int, count: int, c: Cell): int
  {
    Admitted(count, MAX_RIDERS_PER_CELL, draws.riderArrivals(RiderRate(t), c))
  }

  /** Counters `g` after the first |a| of them were raised by the amounts in `a`. */
  function AddFirst(g: seq<int>, a: seq<int>): (r: seq<int>)
    requires |a| <= |g|
    ensures |r| == |g|
  {
    seq(|g|, p requires 0 <= p < |g| => if p < |a| then g[p] + a[p] else g[p])
  }

  /** Raising one more counter is a single update of the previous counters. */
  lemma AddFirstStep(g: seq<int>, a: seq<int>, x: int)
    requires |a| < |g|
    ensures AddFirst(g, a)[|a|] == g[|a|]
    ensures AddFirst(g, a + [x]) == Raise(AddFirst(g, a), |a|, x)
  {
  }

  /** The counters past the first |a| are not raised. */
  lemma AddFirstRest(g: seq<int>, a: seq<int>)
    requires |a| <= |g|
    ensures AddFirst(g, a)[|a|..] == g[|a|..]
  {
  }

  lemma AddFirstAll(g: seq<int>, a: seq<int>)
    requires |a| == |g|
    ensures forall p :: 0 <= p < |g| ==> AddFirst(g, a)[p] == g[p] + a[p]
  {
  }

  /** Counters `g` with counter p raised by d. */
  function Raise(g: seq<int>, p: int, d: int): (r: seq<int>)
    requires 0 <= p < |g|
    ensures |r| == |g| && r[p] == g[p] + d
  {
    g[p := g[p] + d]
  }

  lemma RaiseNone(g: seq<int>, p: int)
    requires 0 <= p < |g|
    ensures Raise(g, p, 0) == g
  {
  }

  /** Raising a counter by a and then by b raises it by a + b. */
  lemma RaiseTwice(g: seq<int>, p: int, a: int, b: int)
    requires 0 <= p < |g|
    ensures Raise(Raise(g, p, a), p, b) == Raise(g, p, a + b)
  {
  }

  /**
   * Part way through a rider arrival round at tick t that started from counters `g0`,
   * registry `r0` and next id `id0`: the first |adds| cells have admitted their quota,
   * `adds`, the counters `grid` show it, and the registry has only grown.
   */
  ghost predicate RiderRoundState(g0: seq<int>, adds: seq<int>, r0: map<nat, Rider>, id0: nat, draws: Draws, t: int,
                                  riders: map<nat, Rider>, next: nat, grid: seq<int>)
  {
    var ok := |g0| == CELLS && |adds| <= CELLS
      && (forall p :: 0 <= p < |adds| ==> adds[p] == RiderQuota(draws, t, g0[p], CellOf(p)))
      && grid == AddFirst(g0, adds)
      && Grows(r0, id0, riders, next);
    ok
  }

  /** Admitting the quota of the next cell and growing the registry advances the round by one cell. */
  lemma RiderRoundStep(g0: seq<int>, adds: seq<int>, r0: map<nat, Rider>, id0: nat, draws: Draws, t: int,
                       m: map<nat, Rider>, id: nat, g: seq<int>, riders: map<nat, Rider>, next: nat, grid: seq<int>)
    requires RiderRoundState(g0, adds, r0, id0, draws, t, m, id, g) && |adds| < CELLS
    requires Grows(m, id, riders, next)
    requires grid == Raise(g, |adds|, RiderQuota(draws, t, g[|adds|], CellOf(|adds|)))
    ensures RiderRoundState(g0, adds + [RiderQuota(draws, t, g0[|adds|], CellOf(|adds|))], r0, id0, draws, t, riders, next, grid)
  {
    AddFirstStep(g0, adds, RiderQuota(draws, t, g0[|adds|], CellOf(|adds|)));
    GrowsTrans(r0, id0, m, id, riders, next);
  }

  /**
   * Part way through a driver arrival round that started from counters `g0`, registry `d0`
   * and next id `id0`: the first |adds| cells have admitted `adds`, each the clamped draw at
   * the rate for the pressure seen there, the counters `grid` show it, and the registry
   * has only grown.
   */
  ghost predicate DriverRoundState(g0: seq<int>, adds: seq<int>, pressures: seq<real>, lams: seq<real>,
                                   d0: map<nat, Driver>, id0: nat, draws: Draws, curve: PriceCurve,
                                   drivers: map<nat, Driver>, next: nat, grid: seq<int>)
  {
    var ok := |g0| == CELLS && |adds| <= CELLS && |pressures| == |adds| && |lams| == |adds|
      && (forall p :: 0 <= p < |adds| ==>
            && pressures[p] > 0.0 && lams[p] == DriverRate(pressures[p], curve)
            && adds[p] == Admitted(g0[p], MAX_DRIVERS_PER_CELL, draws.driverArrivals(lams[p], CellOf(p))))
      && grid == AddFirst(g0, adds)
      && Grows(d0, id0, drivers, next);
    ok
  }

  /** Admitting the arrivals of the next cell and growing the registry advances the round by one cell. */
  lemma DriverRoundStep(g0: seq<int>, adds: seq<int>, pressures: seq<real>, lams: seq<real>,
                        d0: map<nat, Driver>, id0: nat, draws: Draws, curve: PriceCurve,
                        m: map<nat, Driver>, id: nat, g: seq<int>, pressure: real, lam: real,
                        drivers: map<nat, Driver>, next: nat, grid: seq<int>)
    requires DriverRoundState(g0, adds, pressures, lams, d0, id0, draws, curve, m, id, g) && |adds| < CELLS
    requires Grows(m, id, drivers, next) && pressure > 0.0 && lam == DriverRate(pressure, curve)
    requires grid == Raise(g, |adds|, Admitted(g[|adds|], MAX_DRIVERS_PER_CELL, draws.driverArrivals(lam, CellOf(|adds|))))
    ensures DriverRoundState(g0, adds + [Admitted(g0[|adds|], MAX_DRIVERS_PER_CELL, draws.driverArrivals(lam, CellOf(|adds|)))],
                             pressures + [pressure], lams + [lam], d0, id0, draws, curve, drivers, next, grid)
  {
    AddFirstStep(g0, adds, Admitted(g0[|adds|], MAX_DRIVERS_PER_CELL, draws.driverArrivals(lam, CellOf(|adds|))));
    GrowsTrans(d0, id0, m, id, drivers, next);
  }

  /** The cell at row-major position q. */
  function CellOf(q: int): (c: Cell)
    requires 0 <= q < CELLS
    ensures InBounds(c.0, c.1) && Idx(c.0, c.1) == q
  {
    (q / GRID_SIZE, q % GRID_SIZE)
  }

  /** Pressure seen from in-grid cell (x, y): radius-1 sums of the two counters. */
  function CellPressure(rg: seq<int>, dg: seq<int>, x: int, y: int): (p: real)
    requires |rg| == CELLS && |dg| == CELLS && NonNeg(rg) && NonNeg(dg)
    ensures p > 0.0
  {
    WindowSumNonNeg(rg, x, y, PRESSURE_RADIUS, PRESSURE_RADIUS + 1);
    WindowSumNonNeg(dg, x, y, PRESSURE_RADIUS, PRESSURE_RADIUS + 1);
    Pressure(SquareSum(rg, x, y, PRESSURE_RADIUS), SquareSum(dg, x, y, PRESSURE_RADIUS))
  }

  // ---------------------------------------------------------------------------------------
  // Who arrives, where, and at what price

  /** Every rider filed under lo <= k < hi stands in a grid cell. */
  ghost predicate RidersPlaced(m: map<nat, Rider>, lo: nat, hi: nat)
  {
    forall k :: lo <= k < hi ==> k in m && InBounds(m[k].loc.0, m[k].loc.1)
  }

  /**
   * Rider counters `g0` with one more rider counted in the cell of each rider filed under
   * lo <= j < k: the counters as they stand when rider k arrives.
   */
  ghost function Tally(g0: seq<int>, m: map<nat, Rider>, lo: nat, k: nat): (g: seq<int>)
    requires |g0| == CELLS && RidersPlaced(m, lo, k)
    ensures |g| == CELLS && (NonNeg(g0) ==> NonNeg(g))
    decreases k
  {
    if k <= lo then g0
    else Raise(Tally(g0, m, lo, k - 1), Idx(m[k - 1].loc.0, m[k - 1].loc.1), 1)
  }

  /** The tally reads only the riders it counts. */
  lemma {:induction false} TallyFrame(g0: seq<int>, m: map<nat, Rider>, m': map<nat, Rider>, lo: nat, k: nat)
    requires |g0| == CELLS && RidersPlaced(m, lo, k)
    requires forall j :: lo <= j < k ==> j in m' && m'[j] == m[j]
    ensures RidersPlaced(m', lo, k) && Tally(g0, m', lo, k) == Tally(g0, m, lo, k)
    decreases k
  {
    if k > lo {
      TallyFrame(g0, m, m', lo, k - 1);
    }
  }

  /** Tallying the riders lo <= j < mid and then mid <= j < k tallies lo <= j < k. */
  lemma {:induction false} TallyJoin(g0: seq<int>, m: map<nat, Rider>, lo: nat, mid: nat, k: nat)
    requires lo <= mid <= k && |g0| == CELLS && RidersPlaced(m, lo, k)
    ensures Tally(Tally(g0, m, lo, mid), m, mid, k) == Tally(g0, m, lo, k)
    decreases k
  {
    if k > mid {
      TallyJoin(g0, m, lo, mid, k - 1);
    }
  }

  /** The riders filed under lo <= k < hi arrived in row-major order of their cells. */
  ghost predicate RidersInCellOrder(m: map<nat, Rider>, lo: nat, hi: nat)
    requires RidersPlaced(m, lo, hi)
  {
    forall j, k :: lo <= j < k < hi ==> Idx(m[j].loc.0, m[j].loc.1) <= Idx(m[k].loc.0, m[k].loc.1)
  }

  /**
   * Each rider filed under lo <= k < hi is NewRider at tick t priced from its cell's bid
   * average in `refs` and from the pressure of the counters as they stood when it arrived,
   * counted from rider counters `g0` and driver counters `dg`, with its own noise draw.
   */
  ghost predicate RidersPriced(m: map<nat, Rider>, lo: nat, hi: nat, t: int, g0: seq<int>, dg: seq<int>,
                               refs: seq<real>, draws: Draws, curve: PriceCurve)
    requires |g0| == CELLS && |dg| == CELLS && |refs| == CELLS && NonNeg(g0) && NonNeg(dg)
    requires RidersPlaced(m, lo, hi)
  {
    forall k {:trigger draws.riderNoise(k)} :: lo <= k < hi ==>
      m[k] == NewRider(k, t, m[k].loc, refs[Idx(m[k].loc.0, m[k].loc.1)],
                       CellPressure(Tally(g0, m, lo, k), dg, m[k].loc.0, m[k].loc.1), draws.riderNoise(k), curve)
  }

  /**
   * The riders filed under lo <= k < hi are the arrivals of a round that started from rider
   * counters `g0` and driver counters `dg` at tick t: they arrived in row-major order of
   * their cells, and each is priced as `RidersPriced` says.
   */
  ghost predicate RidersBorn(m: map<nat, Rider>, lo: nat, hi: nat, t: int, g0: seq<int>, dg: seq<int>,
                             refs: seq<real>, draws: Draws, curve: PriceCurve)
  {
    var ok := |g0| == CELLS && |dg| == CELLS && |refs| == CELLS && NonNeg(g0) && NonNeg(dg)
      && RidersPlaced(m, lo, hi) && RidersInCellOrder(m, lo, hi)
      && RidersPriced(m, lo, hi, t, g0, dg, refs, draws, curve);
    ok
  }

  /** Riders filed under lo <= k < hi keep their prices in a registry that agrees with `m` on them. */
  lemma RidersPricedFrame(m: map<nat, Rider>, m': map<nat, Rider>, lo: nat, hi: nat, t: int, g0: seq<int>,
                          dg: seq<int>, refs: seq<real>, draws: Draws, curve: PriceCurve)
    requires |g0| == CELLS && |dg| == CELLS && |refs| == CELLS && NonNeg(g0) && NonNeg(dg)
    requires RidersPlaced(m, lo, hi) && RidersPriced(m, lo, hi, t, g0, dg, refs, draws, curve)
    requires forall k :: lo <= k < hi ==> k in m' && m'[k] == m[k]
    ensures RidersPlaced(m', lo, hi) && RidersPriced(m', lo, hi, t, g0, dg, refs, draws, curve)
  {
    assert RidersPlaced(m', lo, hi);
    forall k | lo <= k < hi
      ensures m'[k] == NewRider(k, t, m'[k].loc, refs[Idx(m'[k].loc.0, m'[k].loc.1)],
                                CellPressure(Tally(g0, m', lo, k), dg, m'[k].loc.0, m'[k].loc.1), draws.riderNoise(k), curve)
    {
      TallyFrame(g0, m, m', lo, k);
    }
  }

  /** A rider filed under the next id and priced from the counters as they stand is priced right. */
  lemma RidersPricedAdd(m: map<nat, Rider>, lo: nat, hi: nat, t: int, g0: seq<int>, dg: seq<int>,
                        refs: seq<real>, draws: Draws, curve: PriceCurve, r: Rider)
    requires |g0| == CELLS && |dg| == CELLS && |refs| == CELLS && NonNeg(g0) && NonNeg(dg)
    requires lo <= hi && hi !in m && RidersPlaced(m, lo, hi) && InBounds(r.loc.0, r.loc.1)
    requires RidersPriced(m, lo, hi, t, g0, dg, refs, draws, curve)
    requires r == NewRider(hi, t, r.loc, refs[Idx(r.loc.0, r.loc.1)],
                           CellPressure(Tally(g0, m, lo, hi), dg, r.loc.0, r.loc.1), draws.riderNoise(hi), curve)
    ensures RidersPlaced(m[hi := r], lo, hi + 1) && RidersPriced(m[hi := r], lo, hi + 1, t, g0, dg, refs, draws, curve)
  {
    var m' := m[hi := r];
    var g := Tally(g0, m, lo, hi);
    TallyFrame(g0, m, m', lo, hi);
    RidersPricedFrame(m, m', lo, hi, t, g0, dg, refs, draws, curve);
    assert Tally(g, m', hi, hi) == g;
    assert RidersPriced(m', hi, hi + 1, t, g, dg, refs, draws, curve);
    RidersPricedJoin(m', lo, hi, hi + 1, t, g0, dg, refs, draws, curve);
  }

  /**
   * Filing one more rider under the next id `hi`, in a cell no earlier than the others and
   * priced from the counters as they stand, extends the arrivals by one and counts it.
   */
  lemma RidersBornAdd(m: map<nat, Rider>, lo: nat, hi: nat, t: int, g0: seq<int>, dg: seq<int>,
                      refs: seq<real>, draws: Draws, curve: PriceCurve, p: int, r: Rider)
    requires RidersBorn(m, lo, hi, t, g0, dg, refs, draws, curve) && lo <= hi && hi !in m && 0 <= p < CELLS
    requires forall k :: lo <= k < hi ==> Idx(m[k].loc.0, m[k].loc.1) <= p
    requires r == NewRider(hi, t, CellOf(p), refs[p], CellPressure(Tally(g0, m, lo, hi), dg, CellOf(p).0, CellOf(p).1),
                           draws.riderNoise(hi), curve)
    ensures RidersBorn(m[hi := r], lo, hi + 1, t, g0, dg, refs, draws, curve)
    ensures Tally(g0, m[hi := r], lo, hi + 1) == Raise(Tally(g0, m, lo, hi), p, 1)
  {
    var m' := m[hi := r];
    var g := Tally(g0, m, lo, hi);
    assert RidersPlaced(m', lo, hi + 1);
    assert Tally(g0, m', lo, hi) == g by {
      TallyFrame(g0, m, m', lo, hi);
    }
    assert RidersInCellOrder(m', lo, hi + 1) by {
      assert RidersInCellOrder(m, lo, hi);
    }
    RidersPricedAdd(m, lo, hi, t, g0, dg, refs, draws, curve, r);
    assert Tally(g0, m', lo, hi + 1) == Raise(Tally(g0, m', lo, hi), Idx(CellOf(p).0, CellOf(p).1), 1);
  }

  /**
   * The arrivals of one more cell, q, appended to those of the cells before it: the round
   * started at `g0` extends to them, and its tally counts them.
   */
  lemma RidersBornJoin(m: map<nat, Rider>, m': map<nat, Rider>, lo: nat, mid: nat, hi: nat, t: int,
                       g0: seq<int>, dg: seq<int>, refs: seq<real>, draws: Draws, curve: PriceCurve, q: int)
    requires RidersBorn(m, lo, mid, t, g0, dg, refs, draws, curve) && lo <= mid <= hi && 0 <= q < CELLS
    requires forall k :: lo <= k < mid ==> Idx(m[k].loc.0, m[k].loc.1) < q
    requires forall k :: lo <= k < mid ==> k in m' && m'[k] == m[k]
    requires RidersBorn(m', mid, hi, t, Tally(g0, m, lo, mid), dg, refs, draws, curve)
    requires forall k :: mid <= k < hi ==> m'[k].loc == CellOf(q)
    ensures RidersBorn(m', lo, hi, t, g0, dg, refs, draws, curve)
    ensures Tally(Tally(g0, m, lo, mid), m', mid, hi) == Tally(g0, m', lo, hi)
    ensures forall k :: lo <= k < hi ==> Idx(m'[k].loc.0, m'[k].loc.1) <= q
  {
    RidersPricedFrame(m, m', lo, mid, t, g0, dg, refs, draws, curve);
    TallyFrame(g0, m, m', lo, mid);
    assert RidersPlaced(m', lo, hi);
    assert RidersInCellOrder(m', lo, hi) by {
      assert RidersInCellOrder(m, lo, mid);
    }
    RidersPricedJoin(m', lo, mid, hi, t, g0, dg, refs, draws, curve);
    TallyJoin(g0, m', lo, mid, hi);
  }

  /** Prices counted from the round's start for lo <= k < mid and from `mid` on for the rest join up. */
  lemma RidersPricedJoin(m: map<nat, Rider>, lo: nat, mid: nat, hi: nat, t: int, g0: seq<int>, dg: seq<int>,
                         refs: seq<real>, draws: Draws, curve: PriceCurve)
    requires |g0| == CELLS && |dg| == CELLS && |refs| == CELLS && NonNeg(g0) && NonNeg(dg)
    requires lo <= mid <= hi && RidersPlaced(m, lo, hi)
    requires RidersPriced(m, lo, mid, t, g0, dg, refs, draws, curve)
    requires RidersPriced(m, mid, hi, t, Tally(g0, m, lo, mid), dg, refs, draws, curve)
    ensures RidersPriced(m, lo, hi, t, g0, dg, refs, draws, curve)
  {
    forall k | mid <= k < hi
      ensures m[k] == NewRider(k, t, m[k].loc, refs[Idx(m[k].loc.0, m[k].loc.1)],
                               CellPressure(Tally(g0, m, lo, k), dg, m[k].loc.0, m[k].loc.1), draws.riderNoise(k), curve)
    {
      TallyJoin(g0, m, lo, mid, k);
    }
  }

  /**
   * Part way through a rider arrival round at tick t: the riders filed under id0 <= k < next
   * are the arrivals of the cells before `cellsDone`, in order and priced as they arrived,
   * and the counters `grid` count each of them.
   */
  ghost predicate RoundBorn(g0: seq<int>, cellsDone: int, id0: nat, t: int, dg: seq<int>, refs: seq<real>,
                            draws: Draws, curve: PriceCurve, m: map<nat, Rider>, next: nat, grid: seq<int>)
  {
    var ok := id0 <= next && RidersBorn(m, id0, next, t, g0, dg, refs, draws, curve)
      && (forall k :: id0 <= k < next ==> Idx(m[k].loc.0, m[k].loc.1) < cellsDone)
      && grid == Tally(g0, m, id0, next);
    ok
  }

  /** The arrivals of cell q, counted from the counters the cells before it left, advance the round by one cell. */
  lemma RoundBornStep(g0: seq<int>, q: int, id0: nat, t: int, dg: seq<int>, refs: seq<real>,
                      draws: Draws, curve: PriceCurve, m: map<nat, Rider>, id: nat, g: seq<int>,
                      m': map<nat, Rider>, next: nat, grid: seq<int>)
    requires RoundBorn(g0, q, id0, t, dg, refs, draws, curve, m, id, g) && 0 <= q < CELLS
    requires Grows(m, id, m', next)
    requires RidersBorn(m', id, next, t, g, dg, refs, draws, curve)
    requires forall k :: id <= k < next ==> m'[k].loc == CellOf(q)
    requires grid == Tally(g, m', id, next)
    ensures RoundBorn(g0, q + 1, id0, t, dg, refs, draws, curve, m', next, grid)
  {
    assert forall k :: id0 <= k < id ==> k in m' && m'[k] == m[k];
    RidersBornJoin(m, m', id0, id, next, t, g0, dg, refs, draws, curve, q);
  }

  /**
   * Part way through the arrivals of one cell p at tick t, which started from rider counters
   * `g0`, registry `m0` and next id `id0`: every rider filed since is in cell p and priced
   * as it arrived, and the counters `grid` count each of them.
   */
  ghost predicate CellArrivals(g0: seq<int>, m0: map<nat, Rider>, id0: nat, p: int, t: int, dg: seq<int>,
                               refs: seq<real>, draws: Draws, curve: PriceCurve,
                               m: map<nat, Rider>, next: nat, grid: seq<int>)
  {
    var ok := 0 <= p < CELLS && Grows(m0, id0, m, next)
      && RidersBorn(m, id0, next, t, g0, dg, refs, draws, curve)
      && (forall k :: id0 <= k < next ==> m[k].loc == CellOf(p))
      && grid == Raise(g0, p, next - id0) && grid == Tally(g0, m, id0, next);
    ok
  }

  /** Filing the next rider of cell p, priced from the counters as they stand, advances the cell's arrivals. */
  lemma CellArrivalsStep(g0: seq<int>, m0: map<nat, Rider>, id0: nat, p: int, t: int, dg: seq<int>,
                         refs: seq<real>, draws: Draws, curve: PriceCurve,
                         m: map<nat, Rider>, next: nat, grid: seq<int>, r: Rider)
    requires CellArrivals(g0, m0, id0, p, t, dg, refs, draws, curve, m, next, grid) && next !in m
    requires r == NewRider(next, t, CellOf(p), refs[p], CellPressure(grid, dg, CellOf(p).0, CellOf(p).1),
                           draws.riderNoise(next), curve)
    ensures CellArrivals(g0, m0, id0, p, t, dg, refs, draws, curve, m[next := r], next + 1, Raise(grid, p, 1))
  {
    GrowsAdd(m0, id0, m, next, r);
    RaiseTwice(g0, p, next - id0, 1);
    RidersBornAdd(m, id0, next, t, g0, dg, refs, draws, curve, p, r);
  }

  /**
   * The drivers filed under lo <= k < hi are the arrivals of a round at tick t: they arrived
   * in row-major order of their cells, each cell among the first |pressures|, and each is
   * NewDriver priced from its cell's ask average in `refs` and the one pressure its cell saw,
   * with its own noise draw.
   */
  ghost predicate DriversBorn(m: map<nat, Driver>, lo: nat, hi: nat, t: int, refs: seq<real>, pressures: seq<real>,
                              draws: Draws, curve: PriceCurve)
  {
    var ok := |refs| == CELLS
      && (forall k :: lo <= k < hi ==>
            k in m && InBounds(m[k].loc.0, m[k].loc.1) && Idx(m[k].loc.0, m[k].loc.1) < |pressures|)
      && (forall j, k :: lo <= j < k < hi ==> Idx(m[j].loc.0, m[j].loc.1) <= Idx(m[k].loc.0, m[k].loc.1))
      && (forall k :: lo <= k < hi ==>
            && pressures[Idx(m[k].loc.0, m[k].loc.1)] > 0.0
            && m[k] == NewDriver(k, t, m[k].loc, refs[Idx(m[k].loc.0, m[k].loc.1)],
                                 pressures[Idx(m[k].loc.0, m[k].loc.1)], draws.driverNoise(k), curve));
    ok
  }

  /** The arrivals of the next cell, all at its one pressure, appended to those before it. */
  lemma DriversBornJoin(m: map<nat, Driver>, m': map<nat, Driver>, lo: nat, mid: nat, hi: nat, t: int,
                        refs: seq<real>, pressures: seq<real>, pressure: real, draws: Draws, curve: PriceCurve)
    requires DriversBorn(m, lo, mid, t, refs, pressures, draws, curve) && lo <= mid <= hi
    requires |pressures| < CELLS && pressure > 0.0
    requires forall k :: lo <= k < mid ==> k in m' && m'[k] == m[k]
    requires forall k :: mid <= k < hi ==>
               k in m' && m'[k] == NewDriver(k, t, CellOf(|pressures|), refs[|pressures|], pressure,
                                             draws.driverNoise(k), curve)
    ensures DriversBorn(m', lo, hi, t, refs, pressures + [pressure], draws, curve)
  {
  }

  /**
   * The pressure each of the first |pressures| cells saw in a driver round: from rider
   * counters `rg` and the driver counters as they stood when the round reached the cell,
   * which are `g1` for the cells before it and `g0` from it on.
   */
  ghost predicate DriverPressures(pressures: seq<real>, rg: seq<int>, g0: seq<int>, g1: seq<int>)
  {
    var ok := |rg| == CELLS && |g0| == CELLS && |g1| == CELLS && NonNeg(rg) && NonNeg(g0) && NonNeg(g1)
      && |pressures| <= CELLS
      && (forall q :: 0 <= q < |pressures| ==>
            NonNeg(g1[..q] + g0[q..])
            && pressures[q] == CellPressure(rg, g1[..q] + g0[q..], CellOf(q).0, CellOf(q).1));
    ok
  }

  /**
   * Raising the counter of the next cell after recording the pressure it saw, from the
   * counters as they stand, extends the record by one cell.
   */
  lemma DriverPressuresStep(pressures: seq<real>, rg: seq<int>, g0: seq<int>, g: seq<int>, a: int)
    requires DriverPressures(pressures, rg, g0, g) && |pressures| < CELLS && a >= 0
    requires g[|pressures|..] == g0[|pressures|..]
    ensures DriverPressures(pressures + [CellPressure(rg, g, CellOf(|pressures|).0, CellOf(|pressures|).1)],
                            rg, g0, Raise(g, |pressures|, a))
  {
    var q := |pressures|;
    var g' := Raise(g, q, a);
    assert g'[..q] + g0[q..] == g by {
      assert g[..q] + g[q..] == g;
    }
    forall p | 0 <= p < q
      ensures g'[..p] == g[..p]
    {
    }
  }

  /**
   * The driver arrivals of cell p at tick t, from rider counters `rg`, driver counters `g`
   * and registry (m, id), at ask average `ref`: the cell saw `pressure` and drew at rate `lam`,
   * admitted what the draw and its capacity allow, and every new driver is NewDriver in cell p
   * at that average and that one pressure, with its own noise draw.
   */
  ghost predicate CellDriversArrived(p: int, t: int, rg: seq<int>, g: seq<int>, m: map<nat, Driver>, id: nat,
                                     ref: real, draws: Draws, curve: PriceCurve, pressure: real, lam: real,
                                     drivers: map<nat, Driver>, next: nat, grid: seq<int>)
  {
    var ok := 0 <= p < CELLS && |rg| == CELLS && |g| == CELLS && NonNeg(rg) && NonNeg(g)
      && pressure == CellPressure(rg, g, CellOf(p).0, CellOf(p).1) && lam == DriverRate(pressure, curve)
      && grid == Raise(g, p, Admitted(g[p], MAX_DRIVERS_PER_CELL, draws.driverArrivals(lam, CellOf(p))))
      && Grows(m, id, drivers, next)
      && (forall k :: id <= k < next ==> drivers[k] == NewDriver(k, t, CellOf(p), ref, pressure, draws.driverNoise(k), curve));
    ok
  }

  /** A cell with room that admits the clamped draw at the rate for its pressure has its arrivals. */
  lemma CellDriversArrive(p: int, t: int, rg: seq<int>, g: seq<int>, m: map<nat, Driver>, id: nat,
                          ref: real, draws: Draws, curve: PriceCurve, pressure: real, n: int,
                          drivers: map<nat, Driver>, next: nat, grid: seq<int>)
    requires 0 <= p < CELLS && |rg| == CELLS && |g| == CELLS && NonNeg(rg) && NonNeg(g) && g[p] < MAX_DRIVERS_PER_CELL
    requires pressure == CellPressure(rg, g, CellOf(p).0, CellOf(p).1)
    requires n == Min(draws.driverArrivals(DriverRate(pressure, curve), CellOf(p)), MAX_DRIVERS_PER_CELL - g[p])
    requires grid == Raise(g, p, n) && Grows(m, id, drivers, next)
    requires forall k :: id <= k < next ==> drivers[k] == NewDriver(k, t, CellOf(p), ref, pressure, draws.driverNoise(k), curve)
    ensures CellDriversArrived(p, t, rg, g, m, id, ref, draws, curve, pressure, DriverRate(pressure, curve), drivers, next, grid)
  {
  }

  /**
   * Part way through a driver arrival round at tick t with rider counters `rg` and ask
   * averages `refs`: the cells before |adds| have admitted `adds`, as `DriverRoundState`
   * says, the drivers filed since are their arrivals, as `DriversBorn` says, and each cell
   * saw the pressure `DriverPressures` gives.
   */
  ghost predicate DriverRoundBorn(g0: seq<int>, adds: seq<int>, pressures: seq<real>, lams: seq<real>,
                                  d0: map<nat, Driver>, id0: nat, refs: seq<real>, rg: seq<int>,
                                  draws: Draws, curve: PriceCurve, t: int,
                                  drivers: map<nat, Driver>, next: nat, grid: seq<int>)
  {
    var ok := DriverRoundState(g0, adds, pressures, lams, d0, id0, draws, curve, drivers, next, grid)
      && DriversBorn(drivers, id0, next, t, refs, pressures, draws, curve)
      && DriverPressures(pressures, rg, g0, grid);
    ok
  }

  /**
   * The arrivals of the next cell, all priced at the pressure the counters showed when the
   * round reached it and at the cell's ask average, advance the round by one cell.
   */
  lemma DriverRoundBornStep(g0: seq<int>, adds: seq<int>, pressures: seq<real>, lams: seq<real>,
                            d0: map<nat, Driver>, id0: nat, refs: seq<real>, rg: seq<int>,
                            draws: Draws, curve: PriceCurve, t: int,
                            m: map<nat, Driver>, id: nat, g: seq<int>, pressure: real, lam: real,
                            drivers: map<nat, Driver>, next: nat, grid: seq<int>)
    requires DriverRoundBorn(g0, adds, pressures, lams, d0, id0, refs, rg, draws, curve, t, m, id, g) && |adds| < CELLS
    requires CellDriversArrived(|adds|, t, rg, g, m, id, refs[|adds|], draws, curve, pressure, lam, drivers, next, grid)
    ensures DriverRoundBorn(g0, adds + [Admitted(g0[|adds|], MAX_DRIVERS_PER_CELL, draws.driverArrivals(lam, CellOf(|adds|)))],
                            pressures + [pressure], lams + [lam], d0, id0, refs, rg, draws, curve, t, drivers, next, grid)
  {
    var q := |adds|;
    assert DriverRoundState(g0, adds, pressures, lams, d0, id0, draws, curve, m, id, g);
    assert CellDriversArrived(q, t, rg, g, m, id, refs[q], draws, curve, pressure, lam, drivers, next, grid);
    assert DriversBorn(m, id0, id, t, refs, pressures, draws, curve);
    assert DriverPressures(pressures, rg, g0, g);
    DriverRoundStep(g0, adds, pressures, lams, d0, id0, draws, curve, m, id, g, pressure, lam, drivers, next, grid);
    AddFirstRest(g0, adds);
    assert forall k :: id0 <= k < id ==> k in drivers && drivers[k] == m[k];
    DriversBornJoin(m, drivers, id0, id, next, t, refs, pressures, pressure, draws, curve);
    DriverPressuresStep(pressures, rg, g0, g, Admitted(g[q], MAX_DRIVERS_PER_CELL, draws.driverArrivals(lam, CellOf(q))));
  }

  /** Driver counters `g1` are `g0` with each cell's arrivals drawn at the rate for the pressure it saw. */
  ghost predicate DriversRefilled(draws: Draws, curve: PriceCurve, pressures: seq<real>, g0: seq<int>, g1: seq<int>)
  {
    && |pressures| == CELLS && |g0| == CELLS && |g1| == CELLS
    && forall q :: 0 <= q < CELLS ==>
         g1[q] == g0[q] + Admitted(g0[q], MAX_DRIVERS_PER_CELL, draws.driverArrivals(DriverRate(pressures[q], curve), CellOf(q)))
  }

  /** Sum of the cell pressures of row x, columns 0 <= y < n. */
  function PressureRow(rg: seq<int>, dg: seq<int>, x: int, n: int): (s: real)
    requires |rg| == CELLS && |dg| == CELLS && NonNeg(rg) && NonNeg(dg)
    ensures n >= 1 ==> s > 0.0
    ensures n <= 0 ==> s == 0.0
  {
    if n <= 0 then 0.0 else PressureRow(rg, dg, x, n - 1) + CellPressure(rg, dg, x, n - 1)
  }

  /** Sum of the cell pressures of rows 0 <= x < n. */
  function PressureRows(rg: seq<int>, dg: seq<int>, n: int): (s: real)
    requires |rg| == CELLS && |dg| == CELLS && NonNeg(rg) && NonNeg(dg)
    ensures n >= 1 ==> s > 0.0
    ensures n <= 0 ==> s == 0.0
  {
    if n <= 0 then 0.0 else PressureRows(rg, dg, n - 1) + PressureRow(rg, dg, n - 1, GRID_SIZE)
  }

  /** The drivers a rider sends requests to: the FANOUT nearest eligible ones. */
  function Targets(order: seq<nat>, drivers: map<nat, Driver>, r: Rider): set<nat>
  {
    Ids(TopK(Eligible(order, drivers, r.bid, r.loc), FANOUT))
  }

  /**
   * At most FANOUT targets, and exactly min(FANOUT, eligible) when the registry lists each
   * driver once; each target is registered, unmatched and asks no more than the bid; an
   * eligible driver that is not a target is no nearer than any target, and one exactly as
   * near comes later in the registry.
   */
  lemma TargetsNearest(order: seq<nat>, drivers: map<nat, Driver>, r: Rider)
    ensures |Targets(order, drivers, r)| <= FANOUT
    ensures Distinct(order) ==>
              |Targets(order, drivers, r)| == Min(FANOUT, |EligibleIds(order, drivers, r.bid)|)
    ensures forall k :: k in Targets(order, drivers, r) ==>
              k in order && k in drivers && !drivers[k].matched && drivers[k].ask <= r.bid
    ensures forall k, u :: k in Targets(order, drivers, r) && u in order && u in drivers
              && !drivers[u].matched && drivers[u].ask <= r.bid && u !in Targets(order, drivers, r)
              ==> Manhattan(drivers[k].loc, r.loc) <= Manhattan(drivers[u].loc, r.loc)
    ensures forall k, u :: k in Targets(order, drivers, r) && k in drivers
              && u in order && u in drivers && !drivers[u].matched && drivers[u].ask <= r.bid
              && u !in Targets(order, drivers, r) && Manhattan(drivers[k].loc, r.loc) == Manhattan(drivers[u].loc, r.loc)
              ==> Before(order, k, u)
  {
    var cands := Eligible(order, drivers, r.bid, r.loc);
    var top := TopK(cands, FANOUT);
    EligibleMembers(order, drivers, r.bid, r.loc);
    TopKNearest(cands, FANOUT);
    IdsCardinality(top);
    TargetsCount(order, drivers, r);
    TargetsTieOrder(order, drivers, r);
    forall k | k in Ids(top)
      ensures k in order && k in drivers && !drivers[k].matched && drivers[k].ask <= r.bid
    {
      var e :| e in top && e.id == k;
      assert e in multiset(top);
      assert e in cands;
    }
    forall k, u | k in Ids(top) && u in order && u in drivers && !drivers[u].matched
                  && drivers[u].ask <= r.bid && u !in Ids(top)
      ensures Manhattan(drivers[k].loc, r.loc) <= Manhattan(drivers[u].loc, r.loc)
    {
      var e :| e in top && e.id == k;
      assert e in multiset(top);
      assert e in cands;
      var f := Keyed(u, Manhattan(drivers[u].loc, r.loc) as real);
      assert f in cands;
      assert f !in top;
      assert f in multiset(cands) - multiset(top);
    }
  }

  /** With each driver listed once, a rider reaches FANOUT drivers, or every eligible one if fewer. */
  lemma TargetsCount(order: seq<nat>, drivers: map<nat, Driver>, r: Rider)
    ensures Distinct(order) ==>
              |Targets(order, drivers, r)| == Min(FANOUT, |EligibleIds(order, drivers, r.bid)|)
  {
    if Distinct(order) {
      var cands := Eligible(order, drivers, r.bid, r.loc);
      var top := TopK(cands, FANOUT);
      TopKNearest(cands, FANOUT);
      EligibleDistinct(order, drivers, r.bid, r.loc);
      DistinctIdsCount(cands);
      TopKDistinct(cands, FANOUT);
      DistinctIdsCount(top);
    }
  }

  /** Between two eligible drivers equally near the rider, the earlier in the registry is chosen first. */
  lemma TargetsTieOrder(order: seq<nat>, drivers: map<nat, Driver>, r: Rider)
    ensures forall k, u :: k in Targets(order, drivers, r) && k in drivers
              && u in order && u in drivers && !drivers[u].matched && drivers[u].ask <= r.bid
              && u !in Targets(order, drivers, r) && Manhattan(drivers[k].loc, r.loc) == Manhattan(drivers[u].loc, r.loc)
              ==> Before(order, k, u)
  {
    var cands := Eligible(order, drivers, r.bid, r.loc);
    var top := TopK(cands, FANOUT);
    EligibleMembers(order, drivers, r.bid, r.loc);
    TopKNearest(cands, FANOUT);
    forall k, u | k in Ids(top) && k in drivers && u in order && u in drivers && !drivers[u].matched
                  && drivers[u].ask <= r.bid && u !in Ids(top)
                  && Manhattan(drivers[k].loc, r.loc) == Manhattan(drivers[u].loc, r.loc)
      ensures Before(order, k, u)
    {
      var e :| e in top && e.id == k;
      assert e in multiset(top);
      assert e in cands;
      var f := Keyed(u, Manhattan(drivers[u].loc, r.loc) as real);
      assert f in cands;
      assert f !in top;
      TopKTieOrder(cands, FANOUT, e, f);
      EligibleBefore(order, drivers, r.bid, r.loc, e, f);
    }
  }

  lemma {:induction false} IdsCardinality(s: seq<Keyed>)
    ensures |Ids(s)| <= |s|
  {
    if s != [] {
      IdsCardinality(s[1..]);
      assert Ids(s) == {s[0].id} + Ids(s[1..]) by {
        assert forall e :: e in s <==> e == s[0] || e in s[1..];
      }
    }
  }

  /** Eligibility reads only the registry order and the drivers' match flag, ask and location. */
  lemma {:induction false} EligibleFrame(order: seq<nat>, a: map<nat, Driver>, b: map<nat, Driver>, bid: real, loc: Cell)
    requires a.Keys == b.Keys
    requires forall k :: k in a ==> a[k].matched == b[k].matched && a[k].ask == b[k].ask && a[k].loc == b[k].loc
    ensures Eligible(order, a, bid, loc) == Eligible(order, b, bid, loc)
  {
    if order != [] {
      EligibleFrame(order[..|order| - 1], a, b, bid, loc);
    }
  }

  /** The driver once it has filed `req` in its inbox. */
  function Filed(d: Driver, req: Request): (o: Driver)
    ensures o.inbox == InboxPut(d.inbox, req) && o == d.(inbox := o.inbox)
  {
    d.(inbox := InboxPut(d.inbox, req))
  }

  /** The driver once it has filed each request of `reqs` in turn. */
  function FiledAll(d: Driver, reqs: seq<Request>): (o: Driver)
    ensures o.inbox == PutAll(d.inbox, reqs) && o == d.(inbox := o.inbox)
  {
    d.(inbox := PutAll(d.inbox, reqs))
  }

  /** The rider once it has also noted the drivers of `targets` as requested. */
  function Noted(r: Rider, targets: set<nat>): (o: Rider)
    ensures o.activeRequests == r.activeRequests + targets && o == r.(activeRequests := o.activeRequests)
  {
    r.(activeRequests := r.activeRequests + targets)
  }

  /** Every driver of `targets` files `req` (at most once); the other drivers are left as they were. */
  function Broadcast(drivers: map<nat, Driver>, targets: set<nat>, req: Request): (r: map<nat, Driver>)
    ensures r.Keys == drivers.Keys
  {
    map k | k in drivers :: if k in targets then Filed(drivers[k], req) else drivers[k]
  }

  /** Sending to one more target files the request with that target, once. */
  lemma BroadcastStep(drivers: map<nat, Driver>, targets: set<nat>, req: Request, k: nat)
    requires k in drivers
    ensures var b := Broadcast(drivers, targets, req);
            Broadcast(drivers, targets + {k}, req) == b[k := Filed(b[k], req)]
  {
    var b := Broadcast(drivers, targets, req);
    if k in targets {
      assert InboxHas(b[k].inbox, req.riderId);
    }
  }

  /**
   * A request carrying the bid recorded for its rider, sent only to drivers whose ask it
   * covers, keeps the registries, the inboxes and the driver counters consistent.
   */
  lemma BroadcastOk(riders: map<nat, Rider>, riderOrder: seq<nat>, bids: seq<real>,
                    drivers: map<nat, Driver>, driverOrder: seq<nat>, next: nat, g: seq<int>,
                    targets: set<nat>, req: Request)
    requires RegistryOk(riders, riderOrder, bids, drivers, driverOrder, next) && DriverCountsOk(g, drivers)
    requires req.riderId < |bids| && bids[req.riderId] == req.bid
    requires forall k :: k in targets && k in drivers ==> drivers[k].ask <= req.bid
    ensures RegistryOk(riders, riderOrder, bids, Broadcast(drivers, targets, req), driverOrder, next)
    ensures DriverCountsOk(g, Broadcast(drivers, targets, req))
  {
    BroadcastKeepsDrivers(drivers, driverOrder, next, targets, req);
    BroadcastInboxesOk(drivers, bids, targets, req);
    BroadcastKeepsCells(drivers, targets, req);
  }

  /** Filing requests changes no driver's id, place, status, ask or patience. */
  lemma BroadcastKeepsDrivers(drivers: map<nat, Driver>, order: seq<nat>, next: nat, targets: set<nat>, req: Request)
    requires DriversOk(drivers, order, next)
    ensures DriversOk(Broadcast(drivers, targets, req), order, next)
  {
  }

  lemma BroadcastInboxesOk(drivers: map<nat, Driver>, bids: seq<real>, targets: set<nat>, req: Request)
    requires InboxesOk(drivers, bids)
    requires req.riderId < |bids| && bids[req.riderId] == req.bid
    requires forall k :: k in targets && k in drivers ==> drivers[k].ask <= req.bid
    ensures InboxesOk(Broadcast(drivers, targets, req), bids)
  {
    var b := Broadcast(drivers, targets, req);
    forall k | k in drivers && k in targets
      ensures InboxOk(b[k].inbox, b[k].ask, bids)
    {
      InboxPutOk(drivers[k].inbox, drivers[k].ask, bids, req);
    }
  }

  lemma BroadcastKeepsCells(drivers: map<nat, Driver>, targets: set<nat>, req: Request)
    ensures forall c :: DriversAt(Broadcast(drivers, targets, req), c) == DriversAt(drivers, c)
  {
    var b := Broadcast(drivers, targets, req);
    forall c: Cell
      ensures DriversAt(b, c) == DriversAt(drivers, c)
    {
    }
  }

  /** `inbox` after putting each request of `reqs` in turn. */
  function PutAll(inbox: seq<Request>, reqs: seq<Request>): seq<Request>
  {
    if reqs == [] then inbox else InboxPut(PutAll(inbox, reqs[..|reqs| - 1]), reqs[|reqs| - 1])
  }

  /** After the broadcast a driver holds a request exactly from the riders it held or was sent. */
  lemma {:induction false} PutAllHas(inbox: seq<Request>, reqs: seq<Request>, id: nat)
    ensures InboxHas(PutAll(inbox, reqs), id) <==>
              InboxHas(inbox, id) || exists p :: 0 <= p < |reqs| && reqs[p].riderId == id
  {
    if reqs != [] {
      var init := reqs[..|reqs| - 1];
      PutAllHas(inbox, init, id);
      var last := reqs[|reqs| - 1];
      if exists p :: 0 <= p < |init| && init[p].riderId == id {
        var p :| 0 <= p < |init| && init[p].riderId == id;
        assert reqs[p].riderId == id;
      }
      if exists p :: 0 <= p < |reqs| && reqs[p].riderId == id {
        var p :| 0 <= p < |reqs| && reqs[p].riderId == id;
        if p < |init| {
          assert init[p].riderId == id;
        }
      }
      var before := PutAll(inbox, init);
      if InboxHas(before, id) && !InboxHas(before, last.riderId) {
        var q :| 0 <= q < |before| && before[q].riderId == id;
        assert (before + [last])[q].riderId == id;
      }
    }
  }

  /** The requests the riders of `order` send to driver `k`, in rider-registry order. */
  function RequestsTo(k: nat, order: seq<nat>, riders: map<nat, Rider>,
                      driverOrder: seq<nat>, drivers: map<nat, Driver>): seq<Request>
  {
    if order == [] then []
    else
      var rid := order[|order| - 1];
      RequestsTo(k, order[..|order| - 1], riders, driverOrder, drivers)
      + (if rid in riders && !riders[rid].matched && k in Targets(driverOrder, drivers, riders[rid])
         then [Request(rid, riders[rid].bid)] else [])
  }

  /** The drivers after every unmatched rider of `order` has broadcast, in that order. */
  function AfterBroadcasts(drivers: map<nat, Driver>, riders: map<nat, Rider>, order: seq<nat>,
                           driverOrder: seq<nat>): (r: map<nat, Driver>)
    ensures r.Keys == drivers.Keys
  {
    map k | k in drivers :: FiledAll(drivers[k], RequestsTo(k, order, riders, driverOrder, drivers))
  }

  /** The riders after every unmatched rider of `order` has noted the drivers it requested. */
  function AfterNotes(riders: map<nat, Rider>, order: seq<nat>, driverOrder: seq<nat>,
                      drivers: map<nat, Driver>): (r: map<nat, Rider>)
    ensures r.Keys == riders.Keys
  {
    map q | q in riders ::
      if q in order && !riders[q].matched
      then Noted(riders[q], Targets(driverOrder, drivers, riders[q]))
      else riders[q]
  }

  /**
   * The broadcast of one more rider, computed on the drivers as they stand after the earlier
   * broadcasts, adds that rider's request to the inboxes of its targets: the earlier
   * broadcasts changed only inboxes, so they do not change whom it targets.
   */
  lemma BroadcastsStep(drivers: map<nat, Driver>, riders: map<nat, Rider>, order: seq<nat>,
                       driverOrder: seq<nat>, rid: nat)
    requires rid in riders && !riders[rid].matched
    ensures var now := AfterBroadcasts(drivers, riders, order, driverOrder);
            Broadcast(now, Targets(driverOrder, now, riders[rid]), Request(rid, riders[rid].bid))
            == AfterBroadcasts(drivers, riders, order + [rid], driverOrder)
  {
    var now := AfterBroadcasts(drivers, riders, order, driverOrder);
    var r := riders[rid];
    EligibleFrame(driverOrder, now, drivers, r.bid, r.loc);
    var req := Request(rid, r.bid);
    var next := AfterBroadcasts(drivers, riders, order + [rid], driverOrder);
    var b := Broadcast(now, Targets(driverOrder, drivers, r), req);
    forall k | k in drivers
      ensures b[k] == next[k]
    {
      RequestsToSnoc(k, order, riders, driverOrder, drivers, rid);
      var before := RequestsTo(k, order, riders, driverOrder, drivers);
      if k in Targets(driverOrder, drivers, r) {
        PutAllSnoc(drivers[k].inbox, before, req);
      } else {
        assert before + [] == before;
      }
    }
  }

  lemma RequestsToSnoc(k: nat, order: seq<nat>, riders: map<nat, Rider>, driverOrder: seq<nat>,
                       drivers: map<nat, Driver>, rid: nat)
    requires rid in riders && !riders[rid].matched
    ensures RequestsTo(k, order + [rid], riders, driverOrder, drivers)
            == RequestsTo(k, order, riders, driverOrder, drivers)
               + (if k in Targets(driverOrder, drivers, riders[rid]) then [Request(rid, riders[rid].bid)] else [])
  {
    assert (order + [rid])[..|order|] == order;
  }

  lemma PutAllSnoc(inbox: seq<Request>, reqs: seq<Request>, req: Request)
    ensures PutAll(inbox, reqs + [req]) == InboxPut(PutAll(inbox, reqs), req)
  {
    assert (reqs + [req])[..|reqs|] == reqs;
  }

  /** Likewise the rider side: one more rider notes its targets, the others keep their notes. */
  lemma NotesStep(riders: map<nat, Rider>, order: seq<nat>, driverOrder: seq<nat>,
                  drivers: map<nat, Driver>, now: map<nat, Driver>, rid: nat)
    requires rid in riders && !riders[rid].matched && rid !in order
    requires now.Keys == drivers.Keys
    requires forall k :: k in drivers ==>
               now[k].matched == drivers[k].matched && now[k].ask == drivers[k].ask && now[k].loc == drivers[k].loc
    ensures var before := AfterNotes(riders, order, driverOrder, drivers);
            before[rid] == riders[rid]
            && before[rid := Noted(before[rid], Targets(driverOrder, now, before[rid]))]
               == AfterNotes(riders, order + [rid], driverOrder, drivers)
  {
    var r := riders[rid];
    EligibleFrame(driverOrder, now, drivers, r.bid, r.loc);
  }

  /**
   * One turn of the matching pass on values: from the state after the riders of `order`
   * have broadcast, rider rid broadcasting to its targets and noting them gives the state
   * after `order + [rid]`.
   */
  lemma MatchStep(d0: map<nat, Driver>, r0: map<nat, Rider>, order: seq<nat>, driverOrder: seq<nat>,
                  rid: nat, drivers: map<nat, Driver>, riders: map<nat, Rider>)
    requires drivers == AfterBroadcasts(d0, r0, order, driverOrder)
    requires riders == AfterNotes(r0, order, driverOrder, d0)
    requires rid in r0 && rid !in order && !r0[rid].matched
    ensures rid in riders && riders[rid] == r0[rid]
    ensures Broadcast(drivers, Targets(driverOrder, drivers, riders[rid]), Request(rid, riders[rid].bid))
            == AfterBroadcasts(d0, r0, order + [rid], driverOrder)
    ensures riders[rid := Noted(riders[rid], Targets(driverOrder, drivers, riders[rid]))]
            == AfterNotes(r0, order + [rid], driverOrder, d0)
  {
    BroadcastsStep(d0, r0, order, driverOrder, rid);
    NotesStep(r0, order, driverOrder, d0, drivers, rid);
  }

  /** A driver's inbox gains its age only while it is non-empty. */
  function Aged(d: Driver): Driver
  {
    d.(inboxAge := d.inboxAge + (if d.inbox == [] then 0 else 1))
  }

  /** The drivers a choice round may take out: a non-empty inbox whose age reaches the patience. */
  predicate Triggered(d: Driver)
  {
    d.inbox != [] && d.inboxAge + 1 >= d.patience
  }

  /** `lo` added up `n` times: the product lo * n, written so that each step is linear. */
  function Times(lo: real, n: nat): real
  {
    if n == 0 then 0.0 else Times(lo, n - 1) + lo
  }

  lemma {:induction false} TimesIsProduct(lo: real, n: nat)
    ensures Times(lo, n) == lo * (n as real)
  {
    if n > 0 {
      TimesIsProduct(lo, n - 1);
      assert lo * (n as real) == lo * ((n - 1) as real) + lo;
    }
  }

  lemma {:induction false} TimesAdd(lo: real, a: nat, b: nat)
    ensures Times(lo, a) + Times(lo, b) == Times(lo, a + b)
    decreases b
  {
    if b > 0 {
      TimesAdd(lo, a, b - 1);
    }
  }

  /** A total of `count` terms each at least `lo`, divided by `count`, is at least `lo`. */
  lemma DivideAtLeast(total: real, count: int, lo: real)
    requires count > 0 && total >= Times(lo, count)
    ensures total / (count as real) >= lo
  {
    TimesIsProduct(lo, count);
    assert (total / (count as real)) * (count as real) == total;
  }

  /** Every recorded bid and ask respects its floor. */
  ghost predicate PricesFloored(c: MarketCell)
    reads c
  {
    && (forall k :: 0 <= k < |c.bidHistory| ==> c.bidHistory[k] >= MIN_BID)
    && (forall k :: 0 <= k < |c.askHistory| ==> c.askHistory[k] >= MIN_ASK)
  }

  /**
   * The rider registry: its key order lists each key once; each rider is filed under its
   * own id, carries the bid recorded for that id in `bids`, sits in the grid, is unmatched,
   * has not expired, and bids at least the floor.
   */
  ghost predicate RidersOk(riders: map<nat, Rider>, order: seq<nat>, bids: seq<real>)
  {
    && Distinct(order)
    && (forall k :: k in riders <==> k in order)
    && (forall k :: k in riders ==>
          && riders[k].id == k && k < |bids| && riders[k].bid == bids[k] && InGrid(riders[k].loc)
          && !riders[k].matched && riders[k].wait < MAX_WAIT && riders[k].bid >= MIN_BID)
  }

  /** The driver registry, likewise; a driver's patience lies in [0, MAX_WAIT). */
  ghost predicate DriversOk(drivers: map<nat, Driver>, order: seq<nat>, next: nat)
  {
    && Distinct(order)
    && (forall k :: k in drivers <==> k in order)
    && (forall k :: k in drivers ==>
          && drivers[k].id == k && k < next && InGrid(drivers[k].loc)
          && !drivers[k].matched && drivers[k].wait < MAX_WAIT && drivers[k].ask >= MIN_ASK
          && 0 <= drivers[k].patience < MAX_WAIT)
  }

  /**
   * An inbox of a driver asking `ask`: each entry names a rider that was handed an id,
   * carries the bid of that rider, and bids at least the ask.
   */
  ghost predicate InboxOk(inbox: seq<Request>, ask: real, bids: seq<real>)
  {
    forall p :: 0 <= p < |inbox| ==>
      inbox[p].riderId < |bids| && bids[inbox[p].riderId] == inbox[p].bid && inbox[p].bid >= ask
  }

  ghost predicate InboxesOk(drivers: map<nat, Driver>, bids: seq<real>)
  {
    forall k :: k in drivers ==> InboxOk(drivers[k].inbox, drivers[k].ask, bids)
  }

  lemma InboxOkExtend(inbox: seq<Request>, ask: real, bids: seq<real>, b: real)
    requires InboxOk(inbox, ask, bids)
    ensures InboxOk(inbox, ask, bids + [b])
  {
    forall p | 0 <= p < |inbox|
      ensures (bids + [b])[inbox[p].riderId] == inbox[p].bid
    {
      assert inbox[p].riderId < |bids|;
    }
  }

  lemma InboxesOkExtend(drivers: map<nat, Driver>, bids: seq<real>, b: real)
    requires InboxesOk(drivers, bids)
    ensures InboxesOk(drivers, bids + [b])
  {
    forall k | k in drivers
      ensures InboxOk(drivers[k].inbox, drivers[k].ask, bids + [b])
    {
      InboxOkExtend(drivers[k].inbox, drivers[k].ask, bids, b);
    }
  }

  /** Putting a request that is consistent with `bids` and covers the ask keeps an inbox consistent. */
  lemma InboxPutOk(inbox: seq<Request>, ask: real, bids: seq<real>, req: Request)
    requires InboxOk(inbox, ask, bids)
    requires req.riderId < |bids| && bids[req.riderId] == req.bid && req.bid >= ask
    ensures InboxOk(InboxPut(inbox, req), ask, bids)
  {
  }

  lemma RidersOkAdd(riders: map<nat, Rider>, order: seq<nat>, bids: seq<real>, r: Rider)
    requires RidersOk(riders, order, bids)
    requires r.id == |bids| && InGrid(r.loc) && !r.matched && r.wait < MAX_WAIT && r.bid >= MIN_BID
    ensures RidersOk(riders[r.id := r], order + [r.id], bids + [r.bid])
  {
    assert r.id !in order;
  }

  lemma RidersOkRemove(riders: map<nat, Rider>, order: seq<nat>, bids: seq<real>, k: nat)
    requires RidersOk(riders, order, bids)
    ensures RidersOk(riders - {k}, Without(order, k), bids)
  {
  }

  lemma RidersOkReplace(riders: map<nat, Rider>, order: seq<nat>, bids: seq<real>, k: nat, r: Rider)
    requires RidersOk(riders, order, bids) && k in riders
    requires r.id == k && r.loc == riders[k].loc && r.bid == riders[k].bid && !r.matched && r.wait < MAX_WAIT
    ensures RidersOk(riders[k := r], order, bids)
  {
  }

  lemma DriversOkAdd(drivers: map<nat, Driver>, order: seq<nat>, next: nat, d: Driver)
    requires DriversOk(drivers, order, next)
    requires d.id == next && InGrid(d.loc) && !d.matched && d.wait < MAX_WAIT && d.ask >= MIN_ASK
    requires 0 <= d.patience < MAX_WAIT
    ensures DriversOk(drivers[d.id := d], order + [d.id], next + 1)
  {
    assert d.id !in order;
  }

  lemma DriversOkRemove(drivers: map<nat, Driver>, order: seq<nat>, next: nat, k: nat)
    requires DriversOk(drivers, order, next)
    ensures DriversOk(drivers - {k}, Without(order, k), next)
  {
  }

  lemma DriversOkReplace(drivers: map<nat, Driver>, order: seq<nat>, next: nat, k: nat, d: Driver)
    requires DriversOk(drivers, order, next) && k in drivers
    requires d.id == k && d.loc == drivers[k].loc && d.ask == drivers[k].ask
    requires d.patience == drivers[k].patience && !d.matched && d.wait < MAX_WAIT
    ensures DriversOk(drivers[k := d], order, next)
  {
  }

  /**
   * The two registries and the drivers' inboxes agree with each other and with `bids`.
   * (The conjunction is bound to a name so that the verifier treats it as one fact
   * wherever it is asserted; the lemmas below establish it.)
   */
  ghost predicate RegistryOk(riders: map<nat, Rider>, riderOrder: seq<nat>, bids: seq<real>,
                             drivers: map<nat, Driver>, driverOrder: seq<nat>, nextDriver: nat)
  {
    var ok := RidersOk(riders, riderOrder, bids) && DriversOk(drivers, driverOrder, nextDriver) && InboxesOk(drivers, bids);
    ok
  }

  /** Each rider counter holds the number of riders in its cell, within capacity. */
  ghost predicate RiderCountsOk(g: seq<int>, riders: map<nat, Rider>)
  {
    var ok := |g| == CELLS
      && forall x, y :: InBounds(x, y) ==> g[Idx(x, y)] == |RidersAt(riders, (x, y))| <= MAX_RIDERS_PER_CELL;
    ok
  }

  /** Each driver counter holds the number of drivers in its cell, within capacity. */
  ghost predicate DriverCountsOk(g: seq<int>, drivers: map<nat, Driver>)
  {
    var ok := |g| == CELLS
      && forall x, y :: InBounds(x, y) ==> g[Idx(x, y)] == |DriversAt(drivers, (x, y))| <= MAX_DRIVERS_PER_CELL;
    ok
  }

  /** Counters that count agents are never negative. */
  lemma CountsNonNeg(rg: seq<int>, riders: map<nat, Rider>, dg: seq<int>, drivers: map<nat, Driver>)
    requires RiderCountsOk(rg, riders) && DriverCountsOk(dg, drivers)
    ensures NonNeg(rg) && NonNeg(dg)
  {
    forall p | 0 <= p < CELLS
      ensures rg[p] >= 0 && dg[p] >= 0
    {
      var x, y := p / GRID_SIZE, p % GRID_SIZE;
      assert Idx(x, y) == p;
    }
  }

  lemma RiderCountsAdd(g: seq<int>, riders: map<nat, Rider>, r: Rider)
    requires RiderCountsOk(g, riders) && r.id !in riders && InGrid(r.loc)
    requires g[Idx(r.loc.0, r.loc.1)] < MAX_RIDERS_PER_CELL
    ensures RiderCountsOk(g[Idx(r.loc.0, r.loc.1) := g[Idx(r.loc.0, r.loc.1)] + 1], riders[r.id := r])
  {
    forall x, y | InBounds(x, y)
      ensures |RidersAt(riders[r.id := r], (x, y))| == |RidersAt(riders, (x, y))| + (if (x, y) == r.loc then 1 else 0)
    {
      RidersAtAdd(riders, r.id, r, (x, y));
      IdxInjective(x, y, r.loc.0, r.loc.1);
    }
  }

  lemma RiderCountsRemove(g: seq<int>, riders: map<nat, Rider>, k: nat)
    requires RiderCountsOk(g, riders) && k in riders && InGrid(riders[k].loc)
    ensures RiderCountsOk(g[Idx(riders[k].loc.0, riders[k].loc.1) := g[Idx(riders[k].loc.0, riders[k].loc.1)] - 1],
                          riders - {k})
  {
    forall x, y | InBounds(x, y)
      ensures |RidersAt(riders - {k}, (x, y))| == |RidersAt(riders, (x, y))| - (if (x, y) == riders[k].loc then 1 else 0)
    {
      RidersAtRemove(riders, k, (x, y));
      IdxInjective(x, y, riders[k].loc.0, riders[k].loc.1);
    }
  }

  lemma RiderCountsUpdate(g: seq<int>, riders: map<nat, Rider>, k: nat, r: Rider)
    requires RiderCountsOk(g, riders) && k in riders && riders[k].loc == r.loc
    ensures RiderCountsOk(g, riders[k := r])
  {
    forall x, y | InBounds(x, y)
      ensures RidersAt(riders[k := r], (x, y)) == RidersAt(riders, (x, y))
    {
      RidersAtUpdate(riders, k, r, (x, y));
    }
  }

  lemma DriverCountsAdd(g: seq<int>, drivers: map<nat, Driver>, d: Driver)
    requires DriverCountsOk(g, drivers) && d.id !in drivers && InGrid(d.loc)
    requires g[Idx(d.loc.0, d.loc.1)] < MAX_DRIVERS_PER_CELL
    ensures DriverCountsOk(g[Idx(d.loc.0, d.loc.1) := g[Idx(d.loc.0, d.loc.1)] + 1], drivers[d.id := d])
  {
    forall x, y | InBounds(x, y)
      ensures |DriversAt(drivers[d.id := d], (x, y))| == |DriversAt(drivers, (x, y))| + (if (x, y) == d.loc then 1 else 0)
    {
      DriversAtAdd(drivers, d.id, d, (x, y));
      IdxInjective(x, y, d.loc.0, d.loc.1);
    }
  }

  lemma DriverCountsRemove(g: seq<int>, drivers: map<nat, Driver>, k: nat)
    requires DriverCountsOk(g, drivers) && k in drivers && InGrid(drivers[k].loc)
    ensures DriverCountsOk(g[Idx(drivers[k].loc.0, drivers[k].loc.1) := g[Idx(drivers[k].loc.0, drivers[k].loc.1)] - 1],
                           drivers - {k})
  {
    forall x, y | InBounds(x, y)
      ensures |DriversAt(drivers - {k}, (x, y))| == |DriversAt(drivers, (x, y))| - (if (x, y) == drivers[k].loc then 1 else 0)
    {
      DriversAtRemove(drivers, k, (x, y));
      IdxInjective(x, y, drivers[k].loc.0, drivers[k].loc.1);
    }
  }

  lemma DriverCountsUpdate(g: seq<int>, drivers: map<nat, Driver>, k: nat, d: Driver)
    requires DriverCountsOk(g, drivers) && k in drivers && drivers[k].loc == d.loc
    ensures DriverCountsOk(g, drivers[k := d])
  {
    forall x, y | InBounds(x, y)
      ensures DriversAt(drivers[k := d], (x, y)) == DriversAt(drivers, (x, y))
    {
      DriversAtUpdate(drivers, k, d, (x, y));
    }
  }

  lemma RegistryAddRider(riders: map<nat, Rider>, riderOrder: seq<nat>, bids: seq<real>,
                         drivers: map<nat, Driver>, driverOrder: seq<nat>, next: nat, r: Rider)
    requires RegistryOk(riders, riderOrder, bids, drivers, driverOrder, next)
    requires r.id == |bids| && InGrid(r.loc) && !r.matched && r.wait < MAX_WAIT && r.bid >= MIN_BID
    ensures RegistryOk(riders[r.id := r], riderOrder + [r.id], bids + [r.bid], drivers, driverOrder, next)
  {
    RidersOkAdd(riders, riderOrder, bids, r);
    InboxesOkExtend(drivers, bids, r.bid);
  }

  lemma RegistryAddDriver(riders: map<nat, Rider>, riderOrder: seq<nat>, bids: seq<real>,
                          drivers: map<nat, Driver>, driverOrder: seq<nat>, next: nat, d: Driver)
    requires RegistryOk(riders, riderOrder, bids, drivers, driverOrder, next)
    requires d.id == next && InGrid(d.loc) && !d.matched && d.wait < MAX_WAIT && d.ask >= MIN_ASK
    requires 0 <= d.patience < MAX_WAIT && d.inbox == []
    ensures RegistryOk(riders, riderOrder, bids, drivers[d.id := d], driverOrder + [d.id], next + 1)
  {
    DriversOkAdd(drivers, driverOrder, next, d);
  }

  lemma RegistryRemoveRider(riders: map<nat, Rider>, riderOrder: seq<nat>, bids: seq<real>,
                            drivers: map<nat, Driver>, driverOrder: seq<nat>, next: nat, k: nat)
    requires RegistryOk(riders, riderOrder, bids, drivers, driverOrder, next)
    ensures RegistryOk(riders - {k}, Without(riderOrder, k), bids, drivers, driverOrder, next)
  {
    RidersOkRemove(riders, riderOrder, bids, k);
  }

  lemma RegistryRemoveDriver(riders: map<nat, Rider>, riderOrder: seq<nat>, bids: seq<real>,
                             drivers: map<nat, Driver>, driverOrder: seq<nat>, next: nat, k: nat)
    requires RegistryOk(riders, riderOrder, bids, drivers, driverOrder, next)
    ensures RegistryOk(riders, riderOrder, bids, drivers - {k}, Without(driverOrder, k), next)
  {
    DriversOkRemove(drivers, driverOrder, next, k);
  }

  lemma RegistryReplaceRider(riders: map<nat, Rider>, riderOrder: seq<nat>, bids: seq<real>,
                             drivers: map<nat, Driver>, driverOrder: seq<nat>, next: nat, k: nat, r: Rider)
    requires RegistryOk(riders, riderOrder, bids, drivers, driverOrder, next) && k in riders
    requires r.id == k && r.loc == riders[k].loc && r.bid == riders[k].bid && !r.matched && r.wait < MAX_WAIT
    ensures RegistryOk(riders[k := r], riderOrder, bids, drivers, driverOrder, next)
  {
    RidersOkReplace(riders, riderOrder, bids, k, r);
  }

  lemma RegistryReplaceDriver(riders: map<nat, Rider>, riderOrder: seq<nat>, bids: seq<real>,
                              drivers: map<nat, Driver>, driverOrder: seq<nat>, next: nat, k: nat, d: Driver)
    requires RegistryOk(riders, riderOrder, bids, drivers, driverOrder, next) && k in drivers
    requires d.id == k && d.loc == drivers[k].loc && d.ask == drivers[k].ask
    requires d.patience == drivers[k].patience && !d.matched && d.wait < MAX_WAIT
    requires InboxOk(d.inbox, d.ask, bids)
    ensures RegistryOk(riders, riderOrder, bids, drivers[k := d], driverOrder, next)
  {
    DriversOkReplace(drivers, driverOrder, next, k, d);
  }
  /**
   * The whole registry state of a simulation: one recorded bid per rider id handed out,
   * consistent registries and inboxes, and counters that count the agents of each cell.
   */
  ghost predicate StateOk(riders: map<nat, Rider>, riderOrder: seq<nat>, bids: seq<real>, nextRider: nat,
                          drivers: map<nat, Driver>, driverOrder: seq<nat>, nextDriver: nat,
                          rg: seq<int>, dg: seq<int>)
  {
    var ok := |bids| == nextRider
      && RegistryOk(riders, riderOrder, bids, drivers, driverOrder, nextDriver)
      && RiderCountsOk(rg, riders) && DriverCountsOk(dg, drivers);
    ok
  }

  lemma StateAddRider(riders: map<nat, Rider>, riderOrder: seq<nat>, bids: seq<real>, nextRider: nat,
                      drivers: map<nat, Driver>, driverOrder: seq<nat>, nextDriver: nat,
                      rg: seq<int>, dg: seq<int>, r: Rider)
    requires StateOk(riders, riderOrder, bids, nextRider, drivers, driverOrder, nextDriver, rg, dg)
    requires r.id == nextRider && InGrid(r.loc) && !r.matched && r.wait < MAX_WAIT && r.bid >= MIN_BID
    requires rg[Idx(r.loc.0, r.loc.1)] < MAX_RIDERS_PER_CELL
    ensures var p := Idx(r.loc.0, r.loc.1);
            StateOk(riders[r.id := r], riderOrder + [r.id], bids + [r.bid], nextRider + 1,
                    drivers, driverOrder, nextDriver, rg[p := rg[p] + 1], dg)
  {
    RegistryAddRider(riders, riderOrder, bids, drivers, driverOrder, nextDriver, r);
    RiderCountsAdd(rg, riders, r);
  }

  lemma StateAddDriver(riders: map<nat, Rider>, riderOrder: seq<nat>, bids: seq<real>, nextRider: nat,
                       drivers: map<nat, Driver>, driverOrder: seq<nat>, nextDriver: nat,
                       rg: seq<int>, dg: seq<int>, d: Driver)
    requires StateOk(riders, riderOrder, bids, nextRider, drivers, driverOrder, nextDriver, rg, dg)
    requires d.id == nextDriver && InGrid(d.loc) && !d.matched && d.wait < MAX_WAIT && d.ask >= MIN_ASK
    requires 0 <= d.patience < MAX_WAIT && d.inbox == []
    requires dg[Idx(d.loc.0, d.loc.1)] < MAX_DRIVERS_PER_CELL
    ensures var p := Idx(d.loc.0, d.loc.1);
            StateOk(riders, riderOrder, bids, nextRider,
                    drivers[d.id := d], driverOrder + [d.id], nextDriver + 1, rg, dg[p := dg[p] + 1])
  {
    RegistryAddDriver(riders, riderOrder, bids, drivers, driverOrder, nextDriver, d);
    DriverCountsAdd(dg, drivers, d);
  }

  lemma StateRemoveRider(riders: map<nat, Rider>, riderOrder: seq<nat>, bids: seq<real>, nextRider: nat,
                         drivers: map<nat, Driver>, driverOrder: seq<nat>, nextDriver: nat,
                         rg: seq<int>, dg: seq<int>, k: nat)
    requires StateOk(riders, riderOrder, bids, nextRider, drivers, driverOrder, nextDriver, rg, dg)
    requires k in riders
    ensures InGrid(riders[k].loc)
    ensures var p := Idx(riders[k].loc.0, riders[k].loc.1);
            StateOk(riders - {k}, Without(riderOrder, k), bids, nextRider,
                    drivers, driverOrder, nextDriver, rg[p := rg[p] - 1], dg)
  {
    RegistryRemoveRider(riders, riderOrder, bids, drivers, driverOrder, nextDriver, k);
    RiderCountsRemove(rg, riders, k);
  }

  lemma StateRemoveDriver(riders: map<nat, Rider>, riderOrder: seq<nat>, bids: seq<real>, nextRider: nat,
                          drivers: map<nat, Driver>, driverOrder: seq<nat>, nextDriver: nat,
                          rg: seq<int>, dg: seq<int>, k: nat)
    requires StateOk(riders, riderOrder, bids, nextRider, drivers, driverOrder, nextDriver, rg, dg)
    requires k in drivers
    ensures InGrid(drivers[k].loc)
    ensures var p := Idx(drivers[k].loc.0, drivers[k].loc.1);
            StateOk(riders, riderOrder, bids, nextRider,
                    drivers - {k}, Without(driverOrder, k), nextDriver, rg, dg[p := dg[p] - 1])
  {
    RegistryRemoveDriver(riders, riderOrder, bids, drivers, driverOrder, nextDriver, k);
    DriverCountsRemove(dg, drivers, k);
  }

  lemma StateReplaceRider(riders: map<nat, Rider>, riderOrder: seq<nat>, bids: seq<real>, nextRider: nat,
                          drivers: map<nat, Driver>, driverOrder: seq<nat>, nextDriver: nat,
                          rg: seq<int>, dg: seq<int>, k: nat, r: Rider)
    requires StateOk(riders, riderOrder, bids, nextRider, drivers, driverOrder, nextDriver, rg, dg)
    requires k in riders && r.id == k && r.loc == riders[k].loc && r.bid == riders[k].bid
    requires !r.matched && r.wait < MAX_WAIT
    ensures StateOk(riders[k := r], riderOrder, bids, nextRider, drivers, driverOrder, nextDriver, rg, dg)
  {
    RegistryReplaceRider(riders, riderOrder, bids, drivers, driverOrder, nextDriver, k, r);
    RiderCountsUpdate(rg, riders, k, r);
  }

  lemma StateReplaceDriver(riders: map<nat, Rider>, riderOrder: seq<nat>, bids: seq<real>, nextRider: nat,
                           drivers: map<nat, Driver>, driverOrder: seq<nat>, nextDriver: nat,
                           rg: seq<int>, dg: seq<int>, k: nat, d: Driver)
    requires StateOk(riders, riderOrder, bids, nextRider, drivers, driverOrder, nextDriver, rg, dg)
    requires k in drivers && d.id == k && d.loc == drivers[k].loc && d.ask == drivers[k].ask
    requires d.patience == drivers[k].patience && !d.matched && d.wait < MAX_WAIT
    requires InboxOk(d.inbox, d.ask, bids)
    ensures StateOk(riders, riderOrder, bids, nextRider, drivers[k := d], driverOrder, nextDriver, rg, dg)
  {
    RegistryReplaceDriver(riders, riderOrder, bids, drivers, driverOrder, nextDriver, k, d);
    DriverCountsUpdate(dg, drivers, k, d);
  }

  lemma StateBroadcast(riders: map<nat, Rider>, riderOrder: seq<nat>, bids: seq<real>, nextRider: nat,
                       drivers: map<nat, Driver>, driverOrder: seq<nat>, nextDriver: nat,
                       rg: seq<int>, dg: seq<int>, targets: set<nat>, req: Request)
    requires StateOk(riders, riderOrder, bids, nextRider, drivers, driverOrder, nextDriver, rg, dg)
    requires req.riderId < |bids| && bids[req.riderId] == req.bid
    requires forall k :: k in targets && k in drivers ==> drivers[k].ask <= req.bid
    ensures StateOk(riders, riderOrder, bids, nextRider, Broadcast(drivers, targets, req), driverOrder, nextDriver, rg, dg)
  {
    BroadcastOk(riders, riderOrder, bids, drivers, driverOrder, nextDriver, dg, targets, req);
  }

  /** In a consistent state each registry order lists exactly the registered keys. */
  lemma StateOrdersFiltered(riders: map<nat, Rider>, riderOrder: seq<nat>, bids: seq<real>, nextRider: nat,
                            drivers: map<nat, Driver>, driverOrder: seq<nat>, nextDriver: nat,
                            rg: seq<int>, dg: seq<int>)
    requires StateOk(riders, riderOrder, bids, nextRider, drivers, driverOrder, nextDriver, rg, dg)
    ensures FilterKeys(riderOrder, riders.Keys) == riderOrder
    ensures FilterKeys(driverOrder, drivers.Keys) == driverOrder
  {
    FilterKeysAll(riderOrder, riders.Keys);
    FilterKeysAll(driverOrder, drivers.Keys);
  }
}
