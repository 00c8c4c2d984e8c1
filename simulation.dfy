/**
 * The tick-driven rider/driver market on a GRID_SIZE x GRID_SIZE grid: occupancy
 * counters, per-cell market memory, spawning, request broadcast, driver acceptance,
 * match completion and expiry.
 */
module Market {
  import opened Agents
  import opened MarketMemory
  import opened Ranking
  import opened Grid
  import opened Registry
  import opened MarketRules
  import opened Choices
  import opened Expiry

  /** Mean over all cells of the radius-1 pressure that the counters `rg` and `dg` give. */
  ghost function MeanPressureOf(rg: seq<int>, dg: seq<int>): real
    requires |rg| == CELLS && |dg| == CELLS && NonNeg(rg) && NonNeg(dg)
  {
    PressureRows(rg, dg, GRID_SIZE) / (CELLS as real)
  }

  /** The rider round's metrics followed by the driver round's are the arrival phase's. */
  lemma SpawnMetrics(m0: Metrics, m1: Metrics, m2: Metrics, nr: int, nd: int, p: real)
    requires m1 == m0.(ridersSpawned := m0.ridersSpawned + [nr], pressureList := m0.pressureList + [p])
    requires m2 == m1.(driversSpawned := m1.driversSpawned + [nd])
    ensures m2 == m0.(ridersSpawned := m0.ridersSpawned + [nr], driversSpawned := m0.driversSpawned + [nd],
                      pressureList := m0.pressureList + [p])
  {
  }

  /** The series after a tick's expiry and closing statistics appended these values. */
  function Closed(m: Metrics, dr: int, dd: int, riderCount: int, driverCount: int, rate: real): Metrics
  {
    m.(droppedRiders := m.droppedRiders + [dr], droppedDrivers := m.droppedDrivers + [dd],
       riderCounts := m.riderCounts + [riderCount], driverCounts := m.driverCounts + [driverCount],
       avgRates := m.avgRates + [rate])
  }

  /** The series after one tick that appended these values, one to each series. */
  function Ticked(m: Metrics, newRiders: int, newDrivers: int, pressure: real, dr: int, dd: int,
                  riderCount: int, driverCount: int, rate: real): Metrics
  {
    Metrics(m.riderCounts + [riderCount], m.driverCounts + [driverCount], m.avgRates + [rate],
            m.droppedRiders + [dr], m.droppedDrivers + [dd], m.ridersSpawned + [newRiders],
            m.driversSpawned + [newDrivers], m.pressureList + [pressure])
  }

  /** Expiry's update of the series followed by the closing statistics' is `Closed`. */
  lemma CloseMetrics(m1: Metrics, m2: Metrics, m3: Metrics, dr: int, dd: int, rc: int, dc: int, rate: real)
    requires m2 == m1.(droppedRiders := m1.droppedRiders + [dr], droppedDrivers := m1.droppedDrivers + [dd])
    requires m3 == m2.(riderCounts := m2.riderCounts + [rc], driverCounts := m2.driverCounts + [dc],
                       avgRates := m2.avgRates + [rate])
    ensures m3 == Closed(m1, dr, dd, rc, dc, rate)
  {
  }

  /** The arrivals' update of the series followed by `Closed` appends one value to every series. */
  lemma TickMetrics(m0: Metrics, m1: Metrics, m3: Metrics, nr: int, nd: int, p: real,
                    dr: int, dd: int, rc: int, dc: int, rate: real)
    requires m1 == m0.(ridersSpawned := m0.ridersSpawned + [nr], driversSpawned := m0.driversSpawned + [nd],
                       pressureList := m0.pressureList + [p])
    requires m3 == Closed(m1, dr, dd, rc, dc, rate)
    ensures m3 == Ticked(m0, nr, nd, p, dr, dd, rc, dc, rate)
  {
  }

  /** Rider counters `g1` are `g0` with each cell's arrivals for minute `t` added. */
  ghost predicate Refilled(draws: Draws, t: int, g0: seq<int>, g1: seq<int>)
  {
    && |g0| == CELLS && |g1| == CELLS
    && forall q :: 0 <= q < CELLS ==> g1[q] == g0[q] + RiderQuota(draws, t, g0[q], CellOf(q))
  }

  /**
   * A whole rider arrival round at minute t, from registry (r0, id0) and rider counters g0 to
   * (r1, id1) and g1, with driver counters dg and bid averages refs: every cell admitted its
   * quota, and the riders filed under the new ids are the round's arrivals, in row-major
   * order of their cells, each priced as it arrived (`RidersBorn`) and counted in g1.
   */
  ghost predicate RidersArrived(t: int, draws: Draws, curve: PriceCurve, refs: seq<real>, dg: seq<int>,
                                r0: map<nat, Rider>, id0: nat, g0: seq<int>, r1: map<nat, Rider>, id1: nat, g1: seq<int>)
  {
    var ok := Grows(r0, id0, r1, id1) && Refilled(draws, t, g0, g1)
      && RidersBorn(r1, id0, id1, t, g0, dg, refs, draws, curve) && g1 == Tally(g0, r1, id0, id1);
    ok
  }

  /**
   * A whole driver arrival round at minute t, from registry (d0, id0) and driver counters g0
   * to (d1, id1) and g1, with rider counters rg and ask averages refs: each cell saw the
   * pressure in `pressures` (`DriverPressures`), admitted the draw at the rate for it
   * (`DriversRefilled`), and the drivers filed under the new ids are its arrivals (`DriversBorn`).
   */
  ghost predicate DriversArrived(t: int, draws: Draws, curve: PriceCurve, refs: seq<real>, rg: seq<int>,
                                 pressures: seq<real>, d0: map<nat, Driver>, id0: nat, g0: seq<int>,
                                 d1: map<nat, Driver>, id1: nat, g1: seq<int>)
  {
    var ok := Grows(d0, id0, d1, id1) && DriversRefilled(draws, curve, pressures, g0, g1)
      && DriversBorn(d1, id0, id1, t, refs, pressures, draws, curve) && DriverPressures(pressures, rg, g0, g1);
    ok
  }

  /** A rider round that has reached every cell is a whole rider arrival round. */
  lemma RiderRoundDone(g0: seq<int>, adds: seq<int>, r0: map<nat, Rider>, id0: nat, t: int, dg: seq<int>,
                       refs: seq<real>, draws: Draws, curve: PriceCurve, riders: map<nat, Rider>, next: nat, grid: seq<int>)
    requires RiderRoundState(g0, adds, r0, id0, draws, t, riders, next, grid) && |adds| == CELLS
    requires RoundBorn(g0, CELLS, id0, t, dg, refs, draws, curve, riders, next, grid)
    ensures RidersArrived(t, draws, curve, refs, dg, r0, id0, g0, riders, next, grid)
  {
    AddFirstAll(g0, adds);
  }

  /** A driver round that has reached every cell is a whole driver arrival round. */
  lemma DriverRoundDone(g0: seq<int>, adds: seq<int>, pressures: seq<real>, lams: seq<real>,
                        d0: map<nat, Driver>, id0: nat, refs: seq<real>, rg: seq<int>, draws: Draws, curve: PriceCurve,
                        t: int, drivers: map<nat, Driver>, next: nat, grid: seq<int>)
    requires DriverRoundBorn(g0, adds, pressures, lams, d0, id0, refs, rg, draws, curve, t, drivers, next, grid)
    requires |adds| == CELLS
    ensures |pressures| == CELLS && |lams| == CELLS
    ensures forall q :: 0 <= q < CELLS ==> pressures[q] > 0.0 && lams[q] == DriverRate(pressures[q], curve)
    ensures DriversArrived(t, draws, curve, refs, rg, pressures, d0, id0, g0, drivers, next, grid)
  {
    assert DriverRoundState(g0, adds, pressures, lams, d0, id0, draws, curve, drivers, next, grid);
    AddFirstAll(g0, adds);
  }

  /** The registries, the ids they hand out next and the two counter grids, at one moment. */
  datatype Roster = Roster(riders: map<nat, Rider>, nextRiderId: nat, riderGrid: seq<int>,
                           drivers: map<nat, Driver>, nextDriverId: nat, driverGrid: seq<int>)

  /**
   * A tick's arrivals at minute t, from roster a to roster b: the rider round of `RidersArrived`
   * against a's driver counters and the bid averages `bids`, then the driver round of
   * `DriversArrived` against b's rider counters, the ask averages `asks` and the pressure
   * each cell saw. Both registries only gain entries, under fresh ids.
   */
  ghost predicate Arrived(t: int, draws: Draws, curve: PriceCurve, bids: seq<real>, asks: seq<real>,
                          pressures: seq<real>, a: Roster, b: Roster)
  {
    var ok := RidersArrived(t, draws, curve, bids, a.driverGrid, a.riders, a.nextRiderId, a.riderGrid,
                            b.riders, b.nextRiderId, b.riderGrid)
      && DriversArrived(t, draws, curve, asks, b.riderGrid, pressures, a.drivers, a.nextDriverId, a.driverGrid,
                        b.drivers, b.nextDriverId, b.driverGrid);
    ok
  }

  /**
   * A tick's trading from registries (r0, d0) listed in orders `ro` and `dOrder`: each
   * unmatched rider of `ro` broadcasts to its targets, then the drivers take their turns in
   * ascending order of ask, ending at (r1, d1) with `trades` made.
   */
  ghost predicate Traded(r0: map<nat, Rider>, d0: map<nat, Driver>, ro: seq<nat>, dOrder: seq<nat>,
                         r1: map<nat, Rider>, d1: map<nat, Driver>, trades: seq<Trade>)
  {
    var sent := AfterBroadcasts(d0, r0, ro, dOrder);
    var noted := AfterNotes(r0, ro, dOrder, d0);
    var ok := (forall k :: k in dOrder ==> k in d0)
      && Round(r1, d1, trades) == ChooseAll(Turns(SortByKey(AskList(dOrder, sent))), Round(noted, sent, []));
    ok
  }

  /** Trade t was made in the grid cell at row-major position q. */
  predicate TradedAt(t: Trade, q: int)
  {
    InBounds(t.loc.0, t.loc.1) && Idx(t.loc.0, t.loc.1) == q
  }

  /** The bids of the trades made in cell q, in trade order. */
  function BidsAt(trades: seq<Trade>, q: int): (r: seq<real>)
    ensures |r| <= |trades|
  {
    if trades == [] then []
    else
      var t := trades[|trades| - 1];
      BidsAt(trades[..|trades| - 1], q) + (if TradedAt(t, q) then [t.bid] else [])
  }

  /** The asks of the trades made in cell q, in trade order. */
  function AsksAt(trades: seq<Trade>, q: int): (r: seq<real>)
    ensures |r| == |BidsAt(trades, q)|
  {
    if trades == [] then []
    else
      var t := trades[|trades| - 1];
      AsksAt(trades[..|trades| - 1], q) + (if TradedAt(t, q) then [t.ask] else [])
  }

  /** One more trade adds its prices to the cell it was made in, and to no other. */
  lemma PricesAtSnoc(trades: seq<Trade>, t: Trade, q: int)
    ensures BidsAt(trades + [t], q) == BidsAt(trades, q) + (if TradedAt(t, q) then [t.bid] else [])
    ensures AsksAt(trades + [t], q) == AsksAt(trades, q) + (if TradedAt(t, q) then [t.ask] else [])
  {
    assert (trades + [t])[..|trades|] == trades;
  }

  /** The prices made in a cell over two stretches of trading are those of the first, then the second. */
  lemma {:induction false} PricesAtJoin(a: seq<Trade>, b: seq<Trade>, q: int)
    ensures BidsAt(a + b, q) == BidsAt(a, q) + BidsAt(b, q)
    ensures AsksAt(a + b, q) == AsksAt(a, q) + AsksAt(b, q)
    decreases |b|
  {
    if b != [] {
      var init, t := b[..|b| - 1], b[|b| - 1];
      assert b == init + [t];
      assert a + b == (a + init) + [t];
      PricesAtJoin(a, init, q);
      PricesAtSnoc(a + init, t, q);
      PricesAtSnoc(init, t, q);
    } else {
      assert a + b == a;
    }
  }

  /** The prices of one side of the trades made in cell q, in trade order. */
  function PricesAt(side: Side, trades: seq<Trade>, q: int): seq<real>
  {
    if side == BidSide then BidsAt(trades, q) else AsksAt(trades, q)
  }

  /** The histories `h`, one per cell, each followed by that side's prices of the trades made in its cell. */
  function Logged(h: seq<seq<real>>, trades: seq<Trade>, side: Side): (r: seq<seq<real>>)
    ensures |r| == |h|
    ensures forall q :: 0 <= q < |h| ==> r[q] == h[q] + PricesAt(side, trades, q)
  {
    seq(|h|, q requires 0 <= q < |h| => h[q] + PricesAt(side, trades, q))
  }

  /** No trades leave the histories as they were. */
  lemma LoggedNone(h: seq<seq<real>>, side: Side)
    ensures Logged(h, [], side) == h
  {
    assert PricesAt(BidSide, [], 0) == [] && PricesAt(AskSide, [], 0) == [];
    forall q | 0 <= q < |h|
      ensures Logged(h, [], side)[q] == h[q]
    {
      assert PricesAt(side, [], q) == [];
    }
  }

  /** The price of one side of trade t. */
  function PriceOf(side: Side, t: Trade): real
  {
    if side == BidSide then t.bid else t.ask
  }

  /**
   * Histories `h` that are the record `Logged(h0, past, side)` except that the cell of trade
   * t has gained its price are the record of `past` and t.
   */
  lemma LoggedTrade(h0: seq<seq<real>>, past: seq<Trade>, t: Trade, side: Side, h: seq<seq<real>>)
    requires |h0| == CELLS && |h| == CELLS && InBounds(t.loc.0, t.loc.1)
    requires h[Idx(t.loc.0, t.loc.1)] == Logged(h0, past, side)[Idx(t.loc.0, t.loc.1)] + [PriceOf(side, t)]
    requires forall q :: 0 <= q < CELLS && q != Idx(t.loc.0, t.loc.1) ==> h[q] == Logged(h0, past, side)[q]
    ensures h == Logged(h0, past + [t], side)
  {
    forall q | 0 <= q < CELLS
      ensures h[q] == Logged(h0, past + [t], side)[q]
    {
      PricesAtSnoc(past, t, q);
      var before := PricesAt(side, past, q);
      if q == Idx(t.loc.0, t.loc.1) {
        assert PricesAt(side, past + [t], q) == before + [PriceOf(side, t)];
        assert h0[q] + (before + [PriceOf(side, t)]) == (h0[q] + before) + [PriceOf(side, t)];
      } else {
        assert PricesAt(side, past + [t], q) == before;
      }
    }
  }

  /** Histories that gained, cell by cell, the prices of the trades made there are `Logged`. */
  lemma LoggedFrom(h0: seq<seq<real>>, h1: seq<seq<real>>, trades: seq<Trade>, side: Side)
    requires |h0| == |h1|
    requires forall q :: 0 <= q < |h0| ==> h1[q] == h0[q] + PricesAt(side, trades, q)
    ensures h1 == Logged(h0, trades, side)
  {
  }

  /** A cell's prices pair up trade by trade, so trades made at a bid covering the ask leave them fair. */
  lemma {:induction false} PricesAtFair(trades: seq<Trade>, q: int)
    requires forall i :: 0 <= i < |trades| ==> trades[i].ask <= trades[i].bid
    ensures FairPairs(BidsAt(trades, q), AsksAt(trades, q))
  {
    if trades != [] {
      var t := trades[|trades| - 1];
      PricesAtFair(trades[..|trades| - 1], q);
      if TradedAt(t, q) {
        AppendFair(BidsAt(trades[..|trades| - 1], q), AsksAt(trades[..|trades| - 1], q), t.bid, t.ask);
      }
    }
  }

  /** A tick's expiry: every agent waits one more minute and those out of patience leave. */
  ghost predicate AllAged(r0: map<nat, Rider>, d0: map<nat, Driver>, r1: map<nat, Rider>, d1: map<nat, Driver>)
  {
    var ok := r1 == AgeRiders(r0, r0.Keys) && d1 == AgeDrivers(d0, d0.Keys);
    ok
  }

  class Simulation {
    var time: int
    var riders: map<nat, Rider>
    /** Insertion order of the rider registry (a Python dict iterates in insertion order). */
    var riderOrder: seq<nat>
    var drivers: map<nat, Driver>
    var driverOrder: seq<nat>
    /** The next identity each agent kind hands out. */
    var nextRiderId: nat
    var nextDriverId: nat
    var metrics: Metrics
    /** The bid of every rider ever created, indexed by id. */
    ghost var riderBids: seq<real>

    /** The market memory of each cell, row-major like the counters. */
    const market: array<MarketCell>
    /** Rider and driver head-counts per cell, row-major. */
    const riderGrid: array<int>
    const driverGrid: array<int>
    /** The MarketCell objects of `market`, and the position each one serves. */
    ghost const cells: set<MarketCell>
    ghost const cellAt: map<MarketCell, int>

    ghost predicate Shape()
    {
      && market.Length == CELLS
      && riderGrid.Length == CELLS && driverGrid.Length == CELLS
      && riderGrid != driverGrid
    }

    /**
     * `m` holds one MarketCell per grid cell, `at` names the position each one serves (so no
     * two cells share one), and every one is consistent with its recorded prices above the floors.
     */
    static ghost predicate LaidOut(m: array<MarketCell>, at: map<MarketCell, int>)
      reads m, at.Keys
    {
      && m.Length == CELLS
      && (forall p :: 0 <= p < CELLS ==> m[p] in at && at[m[p]] == p)
      && (forall c :: c in at ==> c.Valid() && PricesFloored(c))
    }

    ghost predicate CellsOk()
      reads market, cells
    {
      cells == cellAt.Keys && LaidOut(market, cellAt)
    }

    /** The market memory is well formed: one consistent cell per grid position, prices floored. */
    ghost predicate MarketOk()
      reads market, cells
    {
      Shape() && CellsOk()
    }

    /**
     * The price averages and the histories read only the market memory, so they survive any
     * change that leaves it alone.
     */
    twostate lemma MemoryKept()
      requires old(MarketOk()) && unchanged(market) && unchanged(cells)
      ensures MarketOk()
      ensures Averages(BidSide) == old(Averages(BidSide)) && Averages(AskSide) == old(Averages(AskSide))
      ensures Histories(BidSide) == old(Histories(BidSide)) && Histories(AskSide) == old(Histories(AskSide))
    {
    }

    /**
     * Cells that held histories `hb` and `ha` (the record of the trades `past`), of which only
     * the cell of trade t has since gained its prices, hold the record of `past` and t.
     */
    lemma RecordedTrade(bids0: seq<seq<real>>, asks0: seq<seq<real>>, past: seq<Trade>, t: Trade,
                        hb: seq<seq<real>>, ha: seq<seq<real>>)
      requires MarketOk() && InBounds(t.loc.0, t.loc.1)
      requires |bids0| == CELLS && |asks0| == CELLS
      requires hb == Logged(bids0, past, BidSide) && ha == Logged(asks0, past, AskSide)
      requires market[Idx(t.loc.0, t.loc.1)].bidHistory == hb[Idx(t.loc.0, t.loc.1)] + [t.bid]
      requires market[Idx(t.loc.0, t.loc.1)].askHistory == ha[Idx(t.loc.0, t.loc.1)] + [t.ask]
      requires forall q :: 0 <= q < CELLS && q != Idx(t.loc.0, t.loc.1) ==>
                 market[q].bidHistory == hb[q] && market[q].askHistory == ha[q]
      ensures Recorded(bids0, asks0, past + [t])
    {
      LoggedTrade(bids0, past, t, BidSide, Histories(BidSide));
      LoggedTrade(asks0, past, t, AskSide, Histories(AskSide));
    }

    /** The bid (or ask) history of every cell, row-major. */
    ghost function Histories(side: Side): (h: seq<seq<real>>)
      reads market, cells
      requires MarketOk()
      ensures |h| == CELLS
      ensures forall q :: 0 <= q < CELLS ==> h[q] == if side == BidSide then market[q].bidHistory else market[q].askHistory
    {
      seq(CELLS, q requires 0 <= q < CELLS && MarketOk() reads market, cells =>
        if side == BidSide then market[q].bidHistory else market[q].askHistory)
    }

    /**
     * Every cell's histories are its entries of `bids0` and `asks0` followed by the bids and
     * asks of the trades made in it, in trade order.
     */
    ghost predicate Recorded(bids0: seq<seq<real>>, asks0: seq<seq<real>>, trades: seq<Trade>)
      reads market, cells
      requires MarketOk()
    {
      Histories(BidSide) == Logged(bids0, trades, BidSide) && Histories(AskSide) == Logged(asks0, trades, AskSide)
    }

    /** The registries, their next ids and the counters as they stand. */
    ghost function Now(): Roster
      reads this, riderGrid, driverGrid
    {
      Roster(riders, nextRiderId, riderGrid[..], drivers, nextDriverId, driverGrid[..])
    }

    /** The registries, their inboxes and the occupancy counters agree. */
    ghost predicate Valid()
      reads this`riders, this`riderOrder, this`riderBids, this`nextRiderId
      reads this`drivers, this`driverOrder, this`nextDriverId, riderGrid, driverGrid
    {
      var ok := Shape()
        && StateOk(riders, riderOrder, riderBids, nextRiderId, drivers, driverOrder, nextDriverId,
                   riderGrid[..], driverGrid[..]);
      ok
    }

    /** Every trade recorded in any cell paired a bid with an ask no higher than it. */
    ghost predicate TradesFair()
      reads cells
    {
      forall c :: c in cells ==> c.Fair()
    }

    /** At a tick boundary every series holds one entry per tick simulated. */
    ghost predicate SeriesAligned()
      reads this`time, this`metrics
    {
      Counted(metrics, time, 0, 0)
    }

    /** No cell of `at` has recorded a trade yet. */
    static ghost predicate Blank(at: map<MarketCell, int>)
      reads at.Keys
    {
      forall c :: c in at ==> c.bidHistory == [] && c.askHistory == [] && c.recentBids == [] && c.recentAsks == []
    }

    /** One fresh, empty market cell per grid cell, all distinct. */
    static method NewMarket() returns (m: array<MarketCell>, ghost at: map<MarketCell, int>)
      ensures fresh(m) && m.Length == CELLS && Blank(at)
      ensures forall c :: c in at ==> fresh(c)
      ensures LaidOut(m, at)
    {
      var first := new MarketCell();
      m := new MarketCell[CELLS](p => first);
      at := map[];
      ghost var made: seq<MarketCell> := [];
      for p := 0 to CELLS
        invariant |made| == p && forall q :: 0 <= q < p ==> m[q] == made[q]
        invariant forall q :: 0 <= q < p ==> made[q] in at && at[made[q]] == q
        invariant forall c :: c in at ==> fresh(c)
        invariant Blank(at)
      {
        var c := new MarketCell();
        m[p] := c;
        at := at[c := p];
        made := made + [c];
      }
      assert made == m[..];
      forall c | c in at
        ensures c.Valid() && PricesFloored(c)
      {
      }
    }

    /** A zero-filled counter array with one counter per cell. */
    static method NewGrid() returns (a: array<int>)
      ensures fresh(a) && a.Length == CELLS && forall p :: 0 <= p < CELLS ==> a[p] == 0
    {
      a := new int[CELLS](p => 0);
    }

    constructor ()
      ensures Valid() && MarketOk() && SeriesAligned() && TradesFair()
      ensures time == 0 && riders == map[] && drivers == map[]
      ensures riderOrder == [] && driverOrder == [] && nextRiderId == 0 && nextDriverId == 0
      ensures forall p :: 0 <= p < CELLS ==> riderGrid[p] == 0 && driverGrid[p] == 0
    {
      var rg := NewGrid();
      var dg := NewGrid();
      riderGrid, driverGrid := rg, dg;
      var m, at := NewMarket();
      market := m;
      cells := at.Keys;
      cellAt := at;
      time := 0;
      riders, riderOrder, drivers, driverOrder := map[], [], map[], [];
      nextRiderId, nextDriverId := 0, 0;
      riderBids := [];
      metrics := Metrics([], [], [], [], [], [], [], []);
      new;
      assert AtStart();
      InitialOk();
    }

    /** The state a new simulation starts from: empty registries and series, zero counters, fresh cells. */
    ghost predicate AtStart()
      reads this, riderGrid, driverGrid, market, cells
    {
      var ok := Shape() && cells == cellAt.Keys && LaidOut(market, cellAt) && Blank(cellAt)
        && (forall p :: 0 <= p < CELLS ==> riderGrid[p] == 0 && driverGrid[p] == 0)
        && riders == map[] && drivers == map[] && riderOrder == [] && driverOrder == []
        && nextRiderId == 0 && nextDriverId == 0 && riderBids == [] && time == 0
        && metrics == Metrics([], [], [], [], [], [], [], []);
      ok
    }

    /** Empty registries, zero counters and fresh market cells make a valid, fair start. */
    lemma InitialOk()
      requires AtStart()
      ensures Valid() && MarketOk() && SeriesAligned() && TradesFair()
    {
      EmptyStateOk(riderGrid[..], driverGrid[..]);
    }

    /** Empty registries with zero counters satisfy every registry and counter invariant. */
    static lemma EmptyStateOk(rg: seq<int>, dg: seq<int>)
      requires |rg| == CELLS && |dg| == CELLS
      requires forall p :: 0 <= p < CELLS ==> rg[p] == 0 && dg[p] == 0
      ensures StateOk(map[], [], [], 0, map[], [], 0, rg, dg)
    {
      forall c: Cell
        ensures RidersAt(map[], c) == {} && DriversAt(map[], c) == {}
      {
      }
    }

    // -------------------------------------------------------------------------
    // Registry updates
    // -------------------------------------------------------------------------

    /** Moves counter p of `a` by `delta`, leaving the other counters as they were. */
    static method Bump(a: array<int>, p: int, delta: int)
      requires 0 <= p < a.Length
      modifies a
      ensures a[..] == old(a[..])[p := old(a[p]) + delta]
    {
      a[p] := a[p] + delta;
    }

    /** Registers a new rider under the next id and counts it in its cell. */
    method AddRider(r: Rider)
      requires Valid()
      requires r.id == nextRiderId && InGrid(r.loc) && !r.matched && r.wait < MAX_WAIT && r.bid >= MIN_BID
      requires riderGrid[Idx(r.loc.0, r.loc.1)] < MAX_RIDERS_PER_CELL
      modifies this`riders, this`riderOrder, this`riderBids, this`nextRiderId, riderGrid
      ensures Valid()
      ensures riders == old(riders)[r.id := r] && riderOrder == old(riderOrder) + [r.id]
      ensures nextRiderId == old(nextRiderId) + 1 && riderBids == old(riderBids) + [r.bid]
      ensures riderGrid[..] == old(riderGrid[..])[Idx(r.loc.0, r.loc.1) := old(riderGrid[Idx(r.loc.0, r.loc.1)]) + 1]
    {
      StateAddRider(riders, riderOrder, riderBids, nextRiderId, drivers, driverOrder, nextDriverId, riderGrid[..], driverGrid[..], r);
      EnrolRider(r, Idx(r.loc.0, r.loc.1));
    }

    /** Files rider r under its id at the end of the order, records its bid, and counts it in counter p. */
    method EnrolRider(r: Rider, p: int)
      requires Shape() && 0 <= p < CELLS
      modifies this`riders, this`riderOrder, this`riderBids, this`nextRiderId, riderGrid
      ensures riders == old(riders)[r.id := r] && riderOrder == old(riderOrder) + [r.id]
      ensures nextRiderId == old(nextRiderId) + 1 && riderBids == old(riderBids) + [r.bid]
      ensures riderGrid[..] == old(riderGrid[..])[p := old(riderGrid[p]) + 1] && driverGrid[..] == old(driverGrid[..])
    {
      Bump(riderGrid, p, 1);
      riders := riders[r.id := r];
      riderOrder := riderOrder + [r.id];
      riderBids := riderBids + [r.bid];
      nextRiderId := nextRiderId + 1;
    }

    /** Registers a new driver under the next id and counts it in its cell. */
    method AddDriver(d: Driver)
      requires Valid()
      requires d.id == nextDriverId && InGrid(d.loc) && !d.matched && d.wait < MAX_WAIT && d.ask >= MIN_ASK
      requires 0 <= d.patience < MAX_WAIT && d.inbox == []
      requires driverGrid[Idx(d.loc.0, d.loc.1)] < MAX_DRIVERS_PER_CELL
      modifies this`drivers, this`driverOrder, this`nextDriverId, driverGrid
      ensures Valid()
      ensures drivers == old(drivers)[d.id := d] && driverOrder == old(driverOrder) + [d.id]
      ensures nextDriverId == old(nextDriverId) + 1
      ensures driverGrid[..] == old(driverGrid[..])[Idx(d.loc.0, d.loc.1) := old(driverGrid[Idx(d.loc.0, d.loc.1)]) + 1]
    {
      StateAddDriver(riders, riderOrder, riderBids, nextRiderId, drivers, driverOrder, nextDriverId, riderGrid[..], driverGrid[..], d);
      EnrolDriver(d, Idx(d.loc.0, d.loc.1));
    }

    /** Files driver d under its id at the end of the order and counts it in counter p. */
    method EnrolDriver(d: Driver, p: int)
      requires Shape() && 0 <= p < CELLS
      modifies this`drivers, this`driverOrder, this`nextDriverId, driverGrid
      ensures drivers == old(drivers)[d.id := d] && driverOrder == old(driverOrder) + [d.id]
      ensures nextDriverId == old(nextDriverId) + 1
      ensures driverGrid[..] == old(driverGrid[..])[p := old(driverGrid[p]) + 1] && riderGrid[..] == old(riderGrid[..])
    {
      Bump(driverGrid, p, 1);
      drivers := drivers[d.id := d];
      driverOrder := driverOrder + [d.id];
      nextDriverId := nextDriverId + 1;
    }

    /** Deletes a rider from the registry and uncounts it from its cell. */
    method RemoveRider(k: nat)
      requires Valid() && k in riders
      modifies this`riders, this`riderOrder, riderGrid
      ensures Valid()
      ensures riders == old(riders) - {k} && riderOrder == Without(old(riderOrder), k)
      ensures var p := Idx(old(riders[k].loc.0), old(riders[k].loc.1));
              riderGrid[..] == old(riderGrid[..])[p := old(riderGrid[p]) - 1]
    {
      StateRemoveRider(riders, riderOrder, riderBids, nextRiderId, drivers, driverOrder, nextDriverId, riderGrid[..], driverGrid[..], k);
      UnenrolRider(k, Idx(riders[k].loc.0, riders[k].loc.1));
    }

    /** Deletes rider k from the registry and its order and uncounts it from counter p. */
    method UnenrolRider(k: nat, p: int)
      requires Shape() && 0 <= p < CELLS
      modifies this`riders, this`riderOrder, riderGrid
      ensures riders == old(riders) - {k} && riderOrder == Without(old(riderOrder), k)
      ensures riderGrid[..] == old(riderGrid[..])[p := old(riderGrid[p]) - 1] && driverGrid[..] == old(driverGrid[..])
    {
      Bump(riderGrid, p, -1);
      riders := riders - {k};
      riderOrder := Without(riderOrder, k);
    }

    /** Deletes a driver from the registry and uncounts it from its cell. */
    method RemoveDriver(k: nat)
      requires Valid() && k in drivers
      modifies this`drivers, this`driverOrder, driverGrid
      ensures Valid()
      ensures drivers == old(drivers) - {k} && driverOrder == Without(old(driverOrder), k)
      ensures var p := Idx(old(drivers[k].loc.0), old(drivers[k].loc.1));
              driverGrid[..] == old(driverGrid[..])[p := old(driverGrid[p]) - 1]
    {
      StateRemoveDriver(riders, riderOrder, riderBids, nextRiderId, drivers, driverOrder, nextDriverId, riderGrid[..], driverGrid[..], k);
      UnenrolDriver(k, Idx(drivers[k].loc.0, drivers[k].loc.1));
    }

    /** Deletes driver k from the registry and its order and uncounts it from counter p. */
    method UnenrolDriver(k: nat, p: int)
      requires Shape() && 0 <= p < CELLS
      modifies this`drivers, this`driverOrder, driverGrid
      ensures drivers == old(drivers) - {k} && driverOrder == Without(old(driverOrder), k)
      ensures driverGrid[..] == old(driverGrid[..])[p := old(driverGrid[p]) - 1] && riderGrid[..] == old(riderGrid[..])
    {
      Bump(driverGrid, p, -1);
      drivers := drivers - {k};
      driverOrder := Without(driverOrder, k);
    }

    /** Updates a registered rider in place; its location and bid stay as they were. */
    method ReplaceRider(k: nat, r: Rider)
      requires Valid() && k in riders
      requires r.id == k && r.loc == riders[k].loc && r.bid == riders[k].bid
      requires !r.matched && r.wait < MAX_WAIT
      modifies this`riders
      ensures Valid()
      ensures riders == old(riders)[k := r]
    {
      StateReplaceRider(riders, riderOrder, riderBids, nextRiderId, drivers, driverOrder, nextDriverId, riderGrid[..], driverGrid[..], k, r);
      riders := riders[k := r];
    }

    /** Updates a registered driver in place; its location, ask and patience stay as they were. */
    method ReplaceDriver(k: nat, d: Driver)
      requires Valid() && k in drivers
      requires d.id == k && d.loc == drivers[k].loc && d.ask == drivers[k].ask
      requires d.patience == drivers[k].patience && !d.matched && d.wait < MAX_WAIT
      requires InboxOk(d.inbox, d.ask, riderBids)
      modifies this`drivers
      ensures Valid()
      ensures drivers == old(drivers)[k := d]
    {
      StateReplaceDriver(riders, riderOrder, riderBids, nextRiderId, drivers, driverOrder, nextDriverId, riderGrid[..], driverGrid[..], k, d);
      drivers := drivers[k := d];
    }

    // -------------------------------------------------------------------------
    // Neighbourhood sums
    // -------------------------------------------------------------------------

    /**
     * Sums the rider and driver counters over the in-bounds cells of the square of
     * radius r around (i, j).
     */
    method LocalPressure(i: int, j: int, r: int) returns (riderSum: int, driverSum: int)
      requires Shape()
      ensures riderSum == SquareSum(riderGrid[..], i, j, r)
      ensures driverSum == SquareSum(driverGrid[..], i, j, r)
    {
      riderSum, driverSum := 0, 0;
      var di := -r;
      while di < r + 1
        invariant -r <= di && (di == -r || di <= r + 1)
        invariant riderSum == WindowSum(riderGrid[..], i, j, r, di)
        invariant driverSum == WindowSum(driverGrid[..], i, j, r, di)
      {
        var dj := -r;
        while dj < r + 1
          invariant -r <= dj <= r + 1
          invariant riderSum == WindowSum(riderGrid[..], i, j, r, di) + RowWindowSum(riderGrid[..], i + di, j, r, dj)
          invariant driverSum == WindowSum(driverGrid[..], i, j, r, di) + RowWindowSum(driverGrid[..], i + di, j, r, dj)
        {
          var ni, nj := i + di, j + dj;
          if 0 <= ni < GRID_SIZE && 0 <= nj < GRID_SIZE {
            riderSum := riderSum + riderGrid[Idx(ni, nj)];
            driverSum := driverSum + driverGrid[Idx(ni, nj)];
          }
          dj := dj + 1;
        }
        di := di + 1;
      }
    }

    /** The average price the market memory of in-grid cell (x, y) reports for one side. */
    ghost function CellPrice(side: Side, x: int, y: int): real
      reads market, cells
      requires MarketOk() && InBounds(x, y)
    {
      var c := market[Idx(x, y)];
      if side == BidSide then c.AvgBid() else c.AvgAsk()
    }

    /** Sum of the cell prices at (x, j + dj) over the in-bounds offsets -r <= dj < d. */
    ghost function PriceRowSum(side: Side, x: int, j: int, r: int, d: int): real
      reads market, cells
      requires MarketOk()
      decreases d + r
    {
      if d <= -r then 0.0
      else PriceRowSum(side, x, j, r, d - 1) + (if InBounds(x, j + d - 1) then CellPrice(side, x, j + d - 1) else 0.0)
    }

    /** Sum of the rows i + di, -r <= di < d, of the price window of radius r around column j. */
    ghost function PriceWindowSum(side: Side, i: int, j: int, r: int, d: int): real
      reads market, cells
      requires MarketOk()
      decreases d + r
    {
      if d <= -r then 0.0
      else PriceWindowSum(side, i, j, r, d - 1) + PriceRowSum(side, i + d - 1, j, r, r + 1)
    }

    /** Every cell reports a price at least the floor of its side. */
    lemma CellPriceAtLeast(side: Side, x: int, y: int)
      requires MarketOk() && InBounds(x, y)
      ensures CellPrice(side, x, y) >= Floor(side)
    {
      var c := market[Idx(x, y)];
      if side == BidSide {
        c.AvgBidAtLeast(MIN_BID);
      } else {
        c.AvgAskAtLeast(MIN_ASK);
      }
    }

    lemma {:induction false} PriceRowAtLeast(side: Side, x: int, j: int, r: int, d: int)
      requires MarketOk()
      ensures PriceRowSum(side, x, j, r, d) >= Times(Floor(side), RowWindowCount(x, j, r, d))
      decreases d + r
    {
      if d > -r {
        PriceRowAtLeast(side, x, j, r, d - 1);
        var n := RowWindowCount(x, j, r, d - 1);
        var rest := PriceRowSum(side, x, j, r, d - 1);
        if InBounds(x, j + d - 1) {
          CellPriceAtLeast(side, x, j + d - 1);
          assert RowWindowCount(x, j, r, d) == n + 1;
          assert Times(Floor(side), n + 1) == Times(Floor(side), n) + Floor(side);
          assert PriceRowSum(side, x, j, r, d) == rest + CellPrice(side, x, j + d - 1);
        } else {
          assert RowWindowCount(x, j, r, d) == n;
          assert PriceRowSum(side, x, j, r, d) == rest;
        }
      }
    }

    lemma {:induction false} PriceWindowAtLeast(side: Side, i: int, j: int, r: int, d: int)
      requires MarketOk()
      ensures PriceWindowSum(side, i, j, r, d) >= Times(Floor(side), WindowCount(i, j, r, d))
      decreases d + r
    {
      if d > -r {
        PriceWindowAtLeast(side, i, j, r, d - 1);
        PriceRowAtLeast(side, i + d - 1, j, r, r + 1);
        TimesAdd(Floor(side), WindowCount(i, j, r, d - 1), RowWindowCount(i + d - 1, j, r, r + 1));
      }
    }

    /** The inner loop of LocalPriceAvg: one side's prices summed along row x of the window, and their number. */
    method RowPrices(side: Side, x: int, j: int, r: int) returns (total: real, count: int)
      requires MarketOk()
      ensures total == PriceRowSum(side, x, j, r, r + 1) && count == RowWindowCount(x, j, r, r + 1)
    {
      total, count := 0.0, 0;
      var dj := -r;
      while dj < r + 1
        invariant -r <= dj && (dj == -r || dj <= r + 1)
        invariant total == PriceRowSum(side, x, j, r, dj)
        invariant count == RowWindowCount(x, j, r, dj)
      {
        var nj := dj + j;
        if 0 <= x < GRID_SIZE && 0 <= nj < GRID_SIZE {
          var c := market[Idx(x, nj)];
          var cellPrice := if side == BidSide then c.AvgBid() else c.AvgAsk();
          total := total + cellPrice;
          count := count + 1;
        }
        dj := dj + 1;
      }
    }

    /** The average price of one side over the in-grid cells within PRICE_RADIUS of (i, j). */
    ghost function PriceAverage(side: Side, i: int, j: int): real
      reads market, cells
      requires MarketOk()
    {
      PriceWindowSum(side, i, j, PRICE_RADIUS, PRICE_RADIUS + 1) / (Max(1, SquareCount(i, j, PRICE_RADIUS)) as real)
    }

    /** The price average of one side around every cell, row-major. */
    ghost function Averages(side: Side): (r: seq<real>)
      reads market, cells
      requires MarketOk()
      ensures |r| == CELLS
      ensures forall q :: 0 <= q < CELLS ==> r[q] == PriceAverage(side, CellOf(q).0, CellOf(q).1)
    {
      seq(CELLS, q requires 0 <= q < CELLS && MarketOk() reads market, cells => PriceAverage(side, CellOf(q).0, CellOf(q).1))
    }

    /**
     * The price averages and the trade record read only the market memory, so they survive
     * any change that leaves it alone.
     */
    twostate lemma AveragesKept(side: Side)
      requires old(MarketOk()) && unchanged(market) && unchanged(cells)
      ensures MarketOk() && Averages(side) == old(Averages(side))
      ensures forall i, j :: PriceAverage(side, i, j) == old(PriceAverage(side, i, j))
    {
    }

    /**
     * Averages one side's cell prices over the in-bounds cells of the square of radius r
     * around (i, j), dividing by the number of such cells floored at 1. Around an in-grid
     * cell the average is at least that side's price floor.
     */
    method LocalPriceAvg(i: int, j: int, side: Side, r: int) returns (avg: real)
      requires MarketOk()
      ensures avg == PriceWindowSum(side, i, j, r, r + 1) / (Max(1, SquareCount(i, j, r)) as real)
      ensures InBounds(i, j) && 0 <= r ==> avg >= Floor(side)
    {
      var total: real := 0.0;
      var count := 0;
      var di := -r;
      while di < r + 1
        invariant -r <= di && (di == -r || di <= r + 1)
        invariant total == PriceWindowSum(side, i, j, r, di)
        invariant count == WindowCount(i, j, r, di)
      {
        var rowTotal, rowCount := RowPrices(side, i + di, j, r);
        total := total + rowTotal;
        count := count + rowCount;
        di := di + 1;
      }
      avg := total / (Max(1, count) as real);
      if InBounds(i, j) && 0 <= r {
        SquareHoldsCentre(i, j, r);
        PriceWindowAtLeast(side, i, j, r, r + 1);
        DivideAtLeast(total, count, Floor(side));
      }
    }

    // -------------------------------------------------------------------------
    // Spawning
    // -------------------------------------------------------------------------

    /** The counters never go negative. */
    lemma CountersNonNeg()
      requires Valid()
      ensures NonNeg(riderGrid[..]) && NonNeg(driverGrid[..])
    {
      CountsNonNeg(riderGrid[..], riders, driverGrid[..], drivers);
    }

    /** The pressure around the cell at row-major position p, from the current counters. */
    ghost function PressureAt(p: int): real
      reads this`riders, this`riderOrder, this`riderBids, this`nextRiderId
      reads this`drivers, this`driverOrder, this`nextDriverId, riderGrid, driverGrid
      requires Valid() && 0 <= p < CELLS
    {
      CountersNonNeg();
      CellPressure(riderGrid[..], driverGrid[..], CellOf(p).0, CellOf(p).1)
    }

    /** Mean over all cells of the radius-1 pressure. */
    ghost function MeanPressure(): real
      reads this, riderGrid, driverGrid
      requires Shape() && NonNeg(riderGrid[..]) && NonNeg(driverGrid[..])
    {
      MeanPressureOf(riderGrid[..], driverGrid[..])
    }

    /** Radius-1 pressure at (i, j), which is always positive. */
    method CellPressureNow(i: int, j: int) returns (pressure: real)
      requires Shape() && NonNeg(riderGrid[..]) && NonNeg(driverGrid[..])
      ensures pressure > 0.0
      ensures pressure == CellPressure(riderGrid[..], driverGrid[..], i, j)
    {
      var r, d := LocalPressure(i, j, PRESSURE_RADIUS);
      WindowSumNonNeg(riderGrid[..], i, j, PRESSURE_RADIUS, PRESSURE_RADIUS + 1);
      WindowSumNonNeg(driverGrid[..], i, j, PRESSURE_RADIUS, PRESSURE_RADIUS + 1);
      pressure := Pressure(r, d);
    }

    /** Mean radius-1 pressure over all cells, the average over GRID_SIZE * GRID_SIZE cells. */
    method AveragePressure() returns (avg: real)
      requires Shape() && NonNeg(riderGrid[..]) && NonNeg(driverGrid[..])
      ensures avg == MeanPressure() && avg > 0.0
    {
      ghost var rg, dg := riderGrid[..], driverGrid[..];
      var total: real := 0.0;
      var cellsCounted := 0;
      for i := 0 to GRID_SIZE
        invariant total == PressureRows(rg, dg, i)
        invariant cellsCounted == i * GRID_SIZE
      {
        var rowTotal, rowCells := RowPressure(i);
        total, cellsCounted := total + rowTotal, cellsCounted + rowCells;
      }
      avg := total / (Max(1, cellsCounted) as real);
    }

    /** The inner loop of the mean pressure: the pressures of row i summed, and the cells counted. */
    method RowPressure(i: int) returns (total: real, cellsCounted: int)
      requires Shape() && NonNeg(riderGrid[..]) && NonNeg(driverGrid[..]) && 0 <= i < GRID_SIZE
      ensures total == PressureRow(riderGrid[..], driverGrid[..], i, GRID_SIZE) && cellsCounted == GRID_SIZE
    {
      ghost var rg, dg := riderGrid[..], driverGrid[..];
      total, cellsCounted := 0.0, 0;
      for j := 0 to GRID_SIZE
        invariant total == PressureRow(rg, dg, i, j)
        invariant cellsCounted == j
      {
        var r, d := LocalPressure(i, j, PRESSURE_RADIUS);
        WindowSumNonNeg(rg, i, j, PRESSURE_RADIUS, PRESSURE_RADIUS + 1);
        WindowSumNonNeg(dg, i, j, PRESSURE_RADIUS, PRESSURE_RADIUS + 1);
        if r + 1 > 0 {
          total := total + Pressure(r, d);
        }
        cellsCounted := cellsCounted + 1;
      }
    }

    /**
     * One rider arrival round: each cell that is not full draws a Poisson count at the
     * tick's rate, clamps it to the remaining capacity and registers that many riders,
     * each priced from the pressure and price average around it at the moment it spawns.
     * The count of new riders and the mean pressure afterwards are recorded.
     */
    method SpawnRiders(draws: Draws, curve: PriceCurve)
      requires Valid() && MarketOk()
      modifies this`riders, this`riderOrder, this`riderBids, this`nextRiderId, this`metrics, riderGrid
      ensures Valid() && MarketOk()
      ensures RidersArrived(time, draws, curve, old(Averages(BidSide)), driverGrid[..],
                            old(riders), old(nextRiderId), old(riderGrid[..]), riders, nextRiderId, riderGrid[..])
      ensures NonNeg(riderGrid[..]) && NonNeg(driverGrid[..])
      ensures Appended(riderOrder, old(riderOrder), old(nextRiderId), nextRiderId)
      ensures metrics == old(metrics).(ridersSpawned := old(metrics.ridersSpawned) + [nextRiderId - old(nextRiderId)],
                                       pressureList := old(metrics.pressureList) + [MeanPressure()])
    {
      var spawned := SpawnRiderRound(draws, curve);
      assert metrics == old(metrics) && spawned == nextRiderId - old(nextRiderId);
      RecordRiderSpawns(spawned);
    }

    /** Appends the number of riders spawned and the mean pressure to the metrics. */
    method RecordRiderSpawns(spawned: int)
      requires Valid()
      modifies this`metrics
      ensures NonNeg(riderGrid[..]) && NonNeg(driverGrid[..])
      ensures metrics == old(metrics).(ridersSpawned := old(metrics.ridersSpawned) + [spawned],
                                       pressureList := old(metrics.pressureList) + [MeanPressure()])
    {
      CountersNonNeg();
      var avgPressure := AveragePressure();
      metrics := metrics.(ridersSpawned := metrics.ridersSpawned + [spawned],
                          pressureList := metrics.pressureList + [avgPressure]);
    }

    /**
     * Part way through a rider arrival round, as `RiderRoundState` and `RoundBorn` say, in a valid
     * market whose bid averages are `refs`.
     */
    ghost predicate RiderRound(g0: seq<int>, adds: seq<int>, r0: map<nat, Rider>, id0: nat, refs: seq<real>,
                               draws: Draws, curve: PriceCurve)
      reads this, riderGrid, driverGrid, market, cells
    {
      var ok := Valid() && MarketOk()
        && RiderRoundState(g0, adds, r0, id0, draws, time, riders, nextRiderId, riderGrid[..])
        && refs == Averages(BidSide)
        && RoundBorn(g0, |adds|, id0, time, driverGrid[..], refs, draws, curve, riders, nextRiderId, riderGrid[..]);
      ok
    }

    /** The arrivals of every cell, in row-major order; returns how many riders were created. */
    method SpawnRiderRound(draws: Draws, curve: PriceCurve) returns (spawned: nat)
      requires Valid() && MarketOk()
      modifies this`riders, this`riderOrder, this`riderBids, this`nextRiderId, riderGrid
      ensures Valid() && MarketOk()
      ensures nextRiderId == old(nextRiderId) + spawned
      ensures Appended(riderOrder, old(riderOrder), old(nextRiderId), nextRiderId)
      ensures RidersArrived(time, draws, curve, old(Averages(BidSide)), driverGrid[..],
                            old(riders), old(nextRiderId), old(riderGrid[..]), riders, nextRiderId, riderGrid[..])
    {
      ghost var g0, r0, id0 := riderGrid[..], riders, nextRiderId;
      ghost var refs := Averages(BidSide);
      ghost var adds: seq<int> := [];
      spawned := 0;
      GrowsRefl(riders, nextRiderId);
      CountersNonNeg();
      for q := 0 to CELLS
        invariant |adds| == q && RiderRound(g0, adds, r0, id0, refs, draws, curve)
        invariant nextRiderId == id0 + spawned
        invariant Appended(riderOrder, old(riderOrder), id0, nextRiderId)
      {
        ghost var id, o1 := nextRiderId, riderOrder;
        var added := SpawnRiderTurn(q, draws, curve, g0, adds, r0, id0, refs);
        AppendedRuns(old(riderOrder), o1, riderOrder, id0, id, nextRiderId);
        adds := adds + [RiderQuota(draws, time, g0[q], CellOf(q))];
        spawned := spawned + added;
      }
      RiderRoundDone(g0, adds, r0, id0, time, driverGrid[..], refs, draws, curve, riders, nextRiderId, riderGrid[..]);
    }

    /** The arrivals of cell q, the next one of a rider arrival round. */
    method SpawnRiderTurn(q: int, draws: Draws, curve: PriceCurve,
                          ghost g0: seq<int>, ghost adds: seq<int>, ghost r0: map<nat, Rider>, ghost id0: nat,
                          ghost refs: seq<real>)
      returns (added: nat)
      requires q == |adds| < CELLS && RiderRound(g0, adds, r0, id0, refs, draws, curve)
      modifies this`riders, this`riderOrder, this`riderBids, this`nextRiderId, riderGrid
      ensures RiderRound(g0, adds + [RiderQuota(draws, time, g0[q], CellOf(q))], r0, id0, refs, draws, curve)
      ensures nextRiderId == old(nextRiderId) + added
      ensures Appended(riderOrder, old(riderOrder), old(nextRiderId), nextRiderId)
    {
      ghost var m, id, g := riders, nextRiderId, riderGrid[..];
      added := SpawnRidersAt(q, draws, curve);
      AveragesKept(BidSide);
      RiderRoundStep(g0, adds, r0, id0, draws, time, m, id, g, riders, nextRiderId, riderGrid[..]);
      RoundBornStep(g0, q, id0, time, driverGrid[..], refs, draws, curve, m, id, g, riders, nextRiderId, riderGrid[..]);
    }

    /** The arrivals of the cell at row-major position p, in a rider arrival round. */
    method SpawnRidersAt(p: int, draws: Draws, curve: PriceCurve) returns (added: nat)
      requires Valid() && MarketOk() && 0 <= p < CELLS
      modifies this`riders, this`riderOrder, this`riderBids, this`nextRiderId, riderGrid
      ensures Valid() && MarketOk()
      ensures riderGrid[..] == Raise(old(riderGrid[..]), p, RiderQuota(draws, time, old(riderGrid[..])[p], CellOf(p)))
      ensures Grows(old(riders), old(nextRiderId), riders, nextRiderId)
      ensures nextRiderId == old(nextRiderId) + added
      ensures Appended(riderOrder, old(riderOrder), old(nextRiderId), nextRiderId)
      ensures RidersBorn(riders, old(nextRiderId), nextRiderId, time, old(riderGrid[..]), driverGrid[..],
                         old(Averages(BidSide)), draws, curve)
      ensures forall k :: old(nextRiderId) <= k < nextRiderId ==> riders[k].loc == CellOf(p)
      ensures riderGrid[..] == Tally(old(riderGrid[..]), riders, old(nextRiderId), nextRiderId)
    {
      added := 0;
      var c := CellOf(p);
      if riderGrid[p] >= MAX_RIDERS_PER_CELL {
        GrowsRefl(riders, nextRiderId);
        RaiseNone(riderGrid[..], p);
        CountersNonNeg();
        AppendedNone(riderOrder, nextRiderId);
        return;
      }
      var lam := RiderArrivalRate(time);
      var n: int := draws.riderArrivals(lam, c);
      n := Min(n, MAX_RIDERS_PER_CELL - riderGrid[p]);
      SpawnRidersN(p, n, draws, curve);
      added := n;
    }

    /** `n` arrivals in the cell at row-major position p, one after the other. */
    method SpawnRidersN(p: int, n: nat, draws: Draws, curve: PriceCurve)
      requires Valid() && MarketOk() && 0 <= p < CELLS && riderGrid[p] + n <= MAX_RIDERS_PER_CELL
      modifies this`riders, this`riderOrder, this`riderBids, this`nextRiderId, riderGrid
      ensures Valid() && MarketOk()
      ensures riderGrid[..] == Raise(old(riderGrid[..]), p, n)
      ensures Grows(old(riders), old(nextRiderId), riders, nextRiderId)
      ensures nextRiderId == old(nextRiderId) + n
      ensures Appended(riderOrder, old(riderOrder), old(nextRiderId), nextRiderId)
      ensures RidersBorn(riders, old(nextRiderId), nextRiderId, time, old(riderGrid[..]), driverGrid[..],
                         old(Averages(BidSide)), draws, curve)
      ensures forall k :: old(nextRiderId) <= k < nextRiderId ==> riders[k].loc == CellOf(p)
      ensures riderGrid[..] == Tally(old(riderGrid[..]), riders, old(nextRiderId), nextRiderId)
    {
      ghost var g0, m0, id0 := riderGrid[..], riders, nextRiderId;
      ghost var refs := Averages(BidSide);
      GrowsRefl(m0, id0);
      RaiseNone(g0, p);
      CountersNonNeg();
      AppendedNone(riderOrder, id0);
      for k := 0 to n
        invariant ArrivingAt(p, g0, m0, id0, refs, draws, curve) && nextRiderId == id0 + k
        invariant riderGrid[p] + (n - k) <= MAX_RIDERS_PER_CELL
        invariant Appended(riderOrder, old(riderOrder), id0, nextRiderId)
      {
        ghost var id, o1 := nextRiderId, riderOrder;
        SpawnArrival(p, draws, curve, g0, m0, id0, refs);
        AppendedRuns(old(riderOrder), o1, riderOrder, id0, id, nextRiderId);
      }
    }

    /**
     * Part way through the arrivals of cell p that started from counters g0, registry m0 and
     * next id id0 with bid averages refs: the market is valid and the cell's bid average unchanged,
     * and the riders filed so far are that cell's arrivals.
     */
    ghost predicate ArrivingAt(p: int, g0: seq<int>, m0: map<nat, Rider>, id0: nat, refs: seq<real>,
                               draws: Draws, curve: PriceCurve)
      reads this, riderGrid, driverGrid, market, cells
    {
      var ok := Valid() && MarketOk() && 0 <= p < CELLS && |refs| == CELLS
        && refs[p] == PriceAverage(BidSide, CellOf(p).0, CellOf(p).1)
        && CellArrivals(g0, m0, id0, p, time, driverGrid[..], refs, draws, curve, riders, nextRiderId, riderGrid[..]);
      ok
    }

    /** The next arrival of cell p, which keeps the cell's arrivals in step. */
    method SpawnArrival(p: int, draws: Draws, curve: PriceCurve,
                        ghost g0: seq<int>, ghost m0: map<nat, Rider>, ghost id0: nat, ghost refs: seq<real>)
      requires ArrivingAt(p, g0, m0, id0, refs, draws, curve) && riderGrid[p] < MAX_RIDERS_PER_CELL
      modifies this`riders, this`riderOrder, this`riderBids, this`nextRiderId, riderGrid
      ensures ArrivingAt(p, g0, m0, id0, refs, draws, curve)
      ensures nextRiderId == old(nextRiderId) + 1 && riderGrid[p] == old(riderGrid[p]) + 1
      ensures Appended(riderOrder, old(riderOrder), old(nextRiderId), nextRiderId)
    {
      ghost var m, id, g := riders, nextRiderId, riderGrid[..];
      var r, _, _ := SpawnRider(p, draws, curve);
      AppendedOne(old(riderOrder), id);
      AveragesKept(BidSide);
      assert id !in m;
      CellArrivalsStep(g0, m0, id0, p, time, driverGrid[..], refs, draws, curve, m, id, g, r);
    }

    /**
     * Creates one rider in cell (i, j): its bid starts from the bid average around the cell
     * and the pressure there, and it is registered under the next id and counted.
     */
    method SpawnRider(p: int, draws: Draws, curve: PriceCurve)
      returns (r: Rider, ghost avgPrice: real, ghost pressure: real)
      requires Valid() && MarketOk() && 0 <= p < CELLS && riderGrid[p] < MAX_RIDERS_PER_CELL
      modifies this`riders, this`riderOrder, this`riderBids, this`nextRiderId, riderGrid
      ensures Valid()
      ensures avgPrice == PriceAverage(BidSide, CellOf(p).0, CellOf(p).1)
      ensures old(NonNeg(riderGrid[..])) && NonNeg(driverGrid[..])
      ensures pressure == CellPressure(old(riderGrid[..]), driverGrid[..], CellOf(p).0, CellOf(p).1)
      ensures r == NewRider(old(nextRiderId), time, CellOf(p), avgPrice, pressure,
                            draws.riderNoise(old(nextRiderId)), curve)
      ensures riderGrid[..] == Raise(old(riderGrid[..]), p, 1)
      ensures r.id == old(nextRiderId) && r.id !in old(riders) && riders == old(riders)[r.id := r]
      ensures riderOrder == old(riderOrder) + [r.id]
      ensures r.loc == CellOf(p) && r.spawnTime == time && r.wait == 0 && r.activeRequests == {}
      ensures nextRiderId == old(nextRiderId) + 1
    {
      CountersNonNeg();
      r, avgPrice, pressure := RiderFor(p, draws, curve);
      AddRider(r);
    }

    /**
     * The rider that would spawn next in the cell at row-major position p: priced from the
     * bid average and the pressure around the cell as they stand.
     */
    method RiderFor(p: int, draws: Draws, curve: PriceCurve)
      returns (r: Rider, ghost avgPrice: real, ghost pressure: real)
      requires Valid() && MarketOk() && 0 <= p < CELLS
      ensures avgPrice == PriceAverage(BidSide, CellOf(p).0, CellOf(p).1) && avgPrice >= MIN_BID
      ensures pressure == PressureAt(p) && pressure > 0.0
      ensures r == NewRider(nextRiderId, time, CellOf(p), avgPrice, pressure, draws.riderNoise(nextRiderId), curve)
    {
      CountersNonNeg();
      var c := CellOf(p);
      var pr := CellPressureNow(c.0, c.1);
      var avg := LocalPriceAvg(c.0, c.1, BidSide, PRICE_RADIUS);
      avgPrice, pressure := avg, pr;
      r := NewRider(nextRiderId, time, c, avg, pr, draws.riderNoise(nextRiderId), curve);
    }

    /**
     * One driver arrival round: each cell that is not full takes the pressure around it,
     * draws a Poisson count at the driver rate for that pressure, clamps it to the remaining
     * capacity and registers that many drivers, all priced with that one pressure. The
     * ghost `pressures` and `lams` give, per cell, the pressure seen and the mean drawn with.
     */
    method SpawnDrivers(draws: Draws, curve: PriceCurve) returns (ghost pressures: seq<real>, ghost lams: seq<real>)
      requires Valid() && MarketOk()
      modifies this`drivers, this`driverOrder, this`nextDriverId, this`metrics, driverGrid
      ensures Valid() && MarketOk()
      ensures |pressures| == CELLS && |lams| == CELLS
      ensures forall q :: 0 <= q < CELLS ==> pressures[q] > 0.0 && lams[q] == DriverRate(pressures[q], curve)
      ensures DriversArrived(time, draws, curve, old(Averages(AskSide)), riderGrid[..], pressures,
                             old(drivers), old(nextDriverId), old(driverGrid[..]), drivers, nextDriverId, driverGrid[..])
      ensures metrics == old(metrics).(driversSpawned := old(metrics.driversSpawned) + [nextDriverId - old(nextDriverId)])
      ensures Appended(driverOrder, old(driverOrder), old(nextDriverId), nextDriverId)
    {
      var spawned;
      spawned, pressures, lams := SpawnDriverRound(draws, curve);
      RecordDriverSpawns(spawned);
    }

    /** Appends the number of drivers spawned to the metrics. */
    method RecordDriverSpawns(spawned: int)
      modifies this`metrics
      ensures metrics == old(metrics).(driversSpawned := old(metrics.driversSpawned) + [spawned])
    {
      metrics := metrics.(driversSpawned := metrics.driversSpawned + [spawned]);
    }

    /**
     * Part way through a driver arrival round, as `DriverRoundBorn` says, in a valid market
     * whose ask averages are `refs`.
     */
    ghost predicate DriverRound(g0: seq<int>, adds: seq<int>, pressures: seq<real>, lams: seq<real>,
                                d0: map<nat, Driver>, id0: nat, refs: seq<real>, draws: Draws, curve: PriceCurve)
      reads this, riderGrid, driverGrid, market, cells
    {
      var ok := Valid() && MarketOk()
        && refs == Averages(AskSide)
        && DriverRoundBorn(g0, adds, pressures, lams, d0, id0, refs, riderGrid[..], draws, curve, time,
                           drivers, nextDriverId, driverGrid[..]);
      ok
    }

    /**
     * The driver arrivals of every cell, in row-major order; returns how many drivers were
     * created and, as ghost, the pressure seen and the mean drawn with in each cell.
     */
    method SpawnDriverRound(draws: Draws, curve: PriceCurve)
      returns (spawned: nat, ghost pressures: seq<real>, ghost lams: seq<real>)
      requires Valid() && MarketOk()
      modifies this`drivers, this`driverOrder, this`nextDriverId, driverGrid
      ensures Valid() && MarketOk()
      ensures |pressures| == CELLS && |lams| == CELLS
      ensures forall q :: 0 <= q < CELLS ==> pressures[q] > 0.0 && lams[q] == DriverRate(pressures[q], curve)
      ensures nextDriverId == old(nextDriverId) + spawned
      ensures Appended(driverOrder, old(driverOrder), old(nextDriverId), nextDriverId)
      ensures DriversArrived(time, draws, curve, old(Averages(AskSide)), riderGrid[..], pressures,
                             old(drivers), old(nextDriverId), old(driverGrid[..]), drivers, nextDriverId, driverGrid[..])
    {
      ghost var g0, d0, id0 := driverGrid[..], drivers, nextDriverId;
      ghost var refs := Averages(AskSide);
      ghost var adds: seq<int> := [];
      spawned := 0;
      pressures, lams := [], [];
      GrowsRefl(drivers, nextDriverId);
      CountersNonNeg();
      for q := 0 to CELLS
        invariant |adds| == q && DriverRound(g0, adds, pressures, lams, d0, id0, refs, draws, curve)
        invariant nextDriverId == id0 + spawned
        invariant Appended(driverOrder, old(driverOrder), id0, nextDriverId)
      {
        ghost var id, o1 := nextDriverId, driverOrder;
        var added, pressure, lam := SpawnDriverTurn(q, draws, curve, g0, adds, pressures, lams, d0, id0, refs);
        AppendedRuns(old(driverOrder), o1, driverOrder, id0, id, nextDriverId);
        adds := adds + [Admitted(g0[q], MAX_DRIVERS_PER_CELL, draws.driverArrivals(lam, CellOf(q)))];
        pressures, lams := pressures + [pressure], lams + [lam];
        spawned := spawned + added;
      }
      DriverRoundDone(g0, adds, pressures, lams, d0, id0, refs, riderGrid[..], draws, curve, time,
                      drivers, nextDriverId, driverGrid[..]);
    }

    /** The arrivals of cell q, the next one of a driver arrival round. */
    method SpawnDriverTurn(q: int, draws: Draws, curve: PriceCurve, ghost g0: seq<int>, ghost adds: seq<int>,
                           ghost pressures: seq<real>, ghost lams: seq<real>, ghost d0: map<nat, Driver>, ghost id0: nat,
                           ghost refs: seq<real>)
      returns (added: nat, ghost pressure: real, ghost lam: real)
      requires q == |adds| < CELLS && DriverRound(g0, adds, pressures, lams, d0, id0, refs, draws, curve)
      modifies this`drivers, this`driverOrder, this`nextDriverId, driverGrid
      ensures DriverRound(g0, adds + [Admitted(g0[q], MAX_DRIVERS_PER_CELL, draws.driverArrivals(lam, CellOf(q)))],
                          pressures + [pressure], lams + [lam], d0, id0, refs, draws, curve)
      ensures nextDriverId == old(nextDriverId) + added
      ensures Appended(driverOrder, old(driverOrder), old(nextDriverId), nextDriverId)
    {
      ghost var m, id, g := drivers, nextDriverId, driverGrid[..];
      assert refs[q] == PriceAverage(AskSide, CellOf(q).0, CellOf(q).1);
      added, pressure, lam := SpawnDriversAt(q, draws, curve);
      DriverRoundBornStep(g0, adds, pressures, lams, d0, id0, refs, riderGrid[..], draws, curve, time,
                          m, id, g, pressure, lam, drivers, nextDriverId, driverGrid[..]);
      AveragesKept(AskSide);
    }

    /** The arrivals of the cell at row-major position p, in a driver arrival round. */
    method SpawnDriversAt(p: int, draws: Draws, curve: PriceCurve)
      returns (added: nat, ghost pressure: real, ghost lam: real)
      requires Valid() && MarketOk() && 0 <= p < CELLS
      modifies this`drivers, this`driverOrder, this`nextDriverId, driverGrid
      ensures Valid() && MarketOk()
      ensures nextDriverId == old(nextDriverId) + added
      ensures Appended(driverOrder, old(driverOrder), old(nextDriverId), nextDriverId)
      ensures CellDriversArrived(p, time, riderGrid[..], old(driverGrid[..]), old(drivers), old(nextDriverId),
                                 old(PriceAverage(AskSide, CellOf(p).0, CellOf(p).1)), draws, curve, pressure, lam,
                                 drivers, nextDriverId, driverGrid[..])
    {
      added := 0;
      var c := CellOf(p);
      var i, j := c.0, c.1;
      CountersNonNeg();
      pressure := CellPressure(riderGrid[..], driverGrid[..], i, j);
      lam := DriverRate(pressure, curve);
      if driverGrid[p] >= MAX_DRIVERS_PER_CELL {
        GrowsRefl(drivers, nextDriverId);
        RaiseNone(driverGrid[..], p);
        AppendedNone(driverOrder, nextDriverId);
        return;
      }
      var seen := CellPressureNow(i, j);
      var rate := DriverRate(seen, curve);
      var n: int := draws.driverArrivals(rate, c);
      n := Min(n, MAX_DRIVERS_PER_CELL - driverGrid[p]);
      ghost var g, ref := driverGrid[..], PriceAverage(AskSide, i, j);
      SpawnDriversN(p, n, seen, draws, curve);
      added := n;
      DriversArrivedAt(p, seen, g, old(drivers), old(nextDriverId), ref, draws, curve, n);
    }

    /** `n` driver arrivals in cell (i, j), all priced with the pressure taken before the first. */
    method SpawnDriversN(p: int, n: nat, pressure: real, draws: Draws, curve: PriceCurve)
      requires Valid() && MarketOk() && 0 <= p < CELLS && driverGrid[p] + n <= MAX_DRIVERS_PER_CELL
      requires pressure > 0.0
      modifies this`drivers, this`driverOrder, this`nextDriverId, driverGrid
      ensures nextDriverId == old(nextDriverId) + n
      ensures Appended(driverOrder, old(driverOrder), old(nextDriverId), nextDriverId)
      ensures DriversArrivingAt(p, pressure, old(driverGrid[..]), old(drivers), old(nextDriverId),
                                old(PriceAverage(AskSide, CellOf(p).0, CellOf(p).1)), draws, curve)
    {
      ghost var g0, m0, id0 := driverGrid[..], drivers, nextDriverId;
      ghost var ref := PriceAverage(AskSide, CellOf(p).0, CellOf(p).1);
      GrowsRefl(m0, id0);
      RaiseNone(g0, p);
      AppendedNone(driverOrder, id0);
      for k := 0 to n
        invariant DriversArrivingAt(p, pressure, g0, m0, id0, ref, draws, curve) && nextDriverId == id0 + k
        invariant driverGrid[p] + (n - k) <= MAX_DRIVERS_PER_CELL
        invariant Appended(driverOrder, old(driverOrder), id0, nextDriverId)
      {
        ghost var id, o1 := nextDriverId, driverOrder;
        SpawnDriverArrival(p, pressure, draws, curve, g0, m0, id0, ref);
        AppendedRuns(old(driverOrder), o1, driverOrder, id0, id, nextDriverId);
      }
    }

    /**
     * Part way through the driver arrivals of cell p that started from counters g0, registry
     * m0 and next id id0: the market is valid and the cell's ask average still `ref`, and every
     * driver filed since is NewDriver in cell p at that average and the given pressure.
     */
    ghost predicate DriversArrivingAt(p: int, pressure: real, g0: seq<int>, m0: map<nat, Driver>, id0: nat, ref: real,
                                      draws: Draws, curve: PriceCurve)
      reads this, riderGrid, driverGrid, market, cells
    {
      var ok := Valid() && MarketOk() && 0 <= p < CELLS && |g0| == CELLS && pressure > 0.0
        && ref == PriceAverage(AskSide, CellOf(p).0, CellOf(p).1)
        && Grows(m0, id0, drivers, nextDriverId) && driverGrid[..] == Raise(g0, p, nextDriverId - id0)
        && (forall k :: id0 <= k < nextDriverId ==>
              drivers[k] == NewDriver(k, time, CellOf(p), ref, pressure, draws.driverNoise(k), curve));
      ok
    }

    /** A finished run of arrivals in cell p, as many as its clamped draw, is the cell's arrivals. */
    lemma DriversArrivedAt(p: int, pressure: real, g0: seq<int>, m0: map<nat, Driver>, id0: nat, ref: real,
                           draws: Draws, curve: PriceCurve, n: int)
      requires DriversArrivingAt(p, pressure, g0, m0, id0, ref, draws, curve) && nextDriverId == id0 + n
      requires NonNeg(riderGrid[..]) && NonNeg(g0) && g0[p] < MAX_DRIVERS_PER_CELL
      requires pressure == CellPressure(riderGrid[..], g0, CellOf(p).0, CellOf(p).1)
      requires n == Min(draws.driverArrivals(DriverRate(pressure, curve), CellOf(p)), MAX_DRIVERS_PER_CELL - g0[p])
      ensures CellDriversArrived(p, time, riderGrid[..], g0, m0, id0, ref, draws, curve, pressure,
                                 DriverRate(pressure, curve), drivers, nextDriverId, driverGrid[..])
    {
      CellDriversArrive(p, time, riderGrid[..], g0, m0, id0, ref, draws, curve, pressure, n,
                        drivers, nextDriverId, driverGrid[..]);
    }

    /** The next driver arrival of cell p, which keeps the cell's arrivals in step. */
    method SpawnDriverArrival(p: int, pressure: real, draws: Draws, curve: PriceCurve,
                              ghost g0: seq<int>, ghost m0: map<nat, Driver>, ghost id0: nat, ghost ref: real)
      requires DriversArrivingAt(p, pressure, g0, m0, id0, ref, draws, curve)
      requires driverGrid[p] < MAX_DRIVERS_PER_CELL && pressure > 0.0
      modifies this`drivers, this`driverOrder, this`nextDriverId, driverGrid
      ensures DriversArrivingAt(p, pressure, g0, m0, id0, ref, draws, curve)
      ensures nextDriverId == old(nextDriverId) + 1 && driverGrid[p] == old(driverGrid[p]) + 1
      ensures Appended(driverOrder, old(driverOrder), old(nextDriverId), nextDriverId)
    {
      ghost var m, id := drivers, nextDriverId;
      var d, _ := SpawnDriver(p, pressure, draws, curve);
      AppendedOne(old(driverOrder), id);
      AveragesKept(AskSide);
      GrowsOne(m, id, d);
      GrowsTrans(m0, id0, m, id, drivers, nextDriverId);
      RaiseTwice(g0, p, id - id0, 1);
    }

    /**
     * Creates one driver in cell (i, j): its ask starts from the ask average around the cell
     * and the given pressure, which also sets its patience; it is registered under the next
     * id and counted.
     */
    method SpawnDriver(p: int, pressure: real, draws: Draws, curve: PriceCurve)
      returns (d: Driver, ghost refPrice: real)
      requires Valid() && MarketOk() && 0 <= p < CELLS && driverGrid[p] < MAX_DRIVERS_PER_CELL
      requires pressure > 0.0
      modifies this`drivers, this`driverOrder, this`nextDriverId, driverGrid
      ensures Valid()
      ensures refPrice == old(PriceAverage(AskSide, CellOf(p).0, CellOf(p).1))
      ensures d == NewDriver(old(nextDriverId), time, CellOf(p), refPrice, pressure,
                             draws.driverNoise(old(nextDriverId)), curve)
      ensures driverGrid[..] == Raise(old(driverGrid[..]), p, 1)
      ensures d.id == old(nextDriverId) && d.id !in old(drivers) && drivers == old(drivers)[d.id := d]
      ensures driverOrder == old(driverOrder) + [d.id]
      ensures d.loc == CellOf(p) && d.spawnTime == time && d.wait == 0 && d.inbox == [] && 0 <= d.patience < MAX_WAIT
      ensures nextDriverId == old(nextDriverId) + 1
    {
      d, refPrice := DriverFor(p, pressure, draws, curve);
      AddDriver(d);
    }

    /**
     * The driver that would spawn next in the cell at row-major position p with the given
     * pressure: priced from the ask average around the cell as it stands.
     */
    method DriverFor(p: int, pressure: real, draws: Draws, curve: PriceCurve)
      returns (d: Driver, ghost refPrice: real)
      requires MarketOk() && 0 <= p < CELLS && pressure > 0.0
      ensures refPrice == PriceAverage(AskSide, CellOf(p).0, CellOf(p).1) && refPrice >= MIN_ASK
      ensures d == NewDriver(nextDriverId, time, CellOf(p), refPrice, pressure, draws.driverNoise(nextDriverId), curve)
    {
      var c := CellOf(p);
      var ref := LocalPriceAvg(c.0, c.1, AskSide, PRICE_RADIUS);
      refPrice := ref;
      d := NewDriver(nextDriverId, time, c, ref, pressure, draws.driverNoise(nextDriverId), curve);
    }

    // -------------------------------------------------------------------------
    // Requests
    // -------------------------------------------------------------------------

    /**
     * The drivers a rider with this bid and location may request, in registry order, each
     * keyed by its distance to the rider.
     */
    method Candidates(bid: real, loc: Cell) returns (cands: seq<Keyed>)
      requires Valid()
      ensures cands == Eligible(driverOrder, drivers, bid, loc)
    {
      cands := [];
      for t := 0 to |driverOrder|
        invariant cands == Eligible(driverOrder[..t], drivers, bid, loc)
      {
        assert driverOrder[..t + 1][..t] == driverOrder[..t];
        var d := drivers[driverOrder[t]];
        if d.matched || d.ask > bid {
          continue;
        }
        var dist := Manhattan(d.loc, loc);
        cands := cands + [Keyed(d.id, dist as real)];
      }
      assert driverOrder[..|driverOrder|] == driverOrder;
    }

    /**
     * The drivers rider r requests, nearest first: the eligible ones ranked by distance
     * (ties in registry order), cut to FANOUT.
     */
    method ChooseTargets(r: Rider) returns (top: seq<Keyed>)
      requires Valid()
      ensures Ids(top) == Targets(driverOrder, drivers, r)
      ensures forall p :: 0 <= p < |top| ==> top[p].id in drivers && drivers[top[p].id].ask <= r.bid
    {
      var cands := Candidates(r.bid, r.loc);
      var ranked := SortByKey(cands);
      top := if |ranked| <= FANOUT then ranked else ranked[..FANOUT];
      TargetsNearest(driverOrder, drivers, r);
      assert forall p :: 0 <= p < |top| ==> top[p].id in Ids(top);
    }

    /**
     * The loop of a broadcast over the chosen drivers `top`: each one files `req`, and the
     * ids of those reached are collected.
     */
    static method Deliver(ds0: map<nat, Driver>, top: seq<Keyed>, req: Request)
      returns (ds: map<nat, Driver>, reached: set<nat>)
      requires forall p :: 0 <= p < |top| ==> top[p].id in ds0
      ensures ds == Broadcast(ds0, Ids(top), req) && reached == Ids(top)
    {
      ds, reached := ds0, {};
      assert Ids(top[..0]) == {};
      assert Broadcast(ds0, {}, req) == ds0;
      for t := 0 to |top|
        invariant ds == Broadcast(ds0, reached, req)
        invariant reached == Ids(top[..t])
      {
        var k := top[t].id;
        IdsPrefix(top, t);
        BroadcastStep(ds0, reached, req, k);
        ds := ds[k := Filed(ds[k], req)];
        reached := reached + {k};
      }
      assert top[..|top|] == top;
    }

    /**
     * Rider rid broadcasts to its targets, the FANOUT nearest unmatched drivers whose ask its
     * bid covers: each target files the request (once, however often it is sent) and the
     * rider notes each target. Nothing else changes.
     */
    method SendRequests(rid: nat)
      requires Valid() && rid in riders
      modifies this`riders, this`drivers
      ensures Valid()
      ensures riders == old(riders)[rid := Noted(old(riders)[rid], Targets(driverOrder, old(drivers), old(riders)[rid]))]
      ensures drivers == Broadcast(old(drivers), Targets(driverOrder, old(drivers), old(riders)[rid]),
                                   Request(rid, old(riders)[rid].bid))
    {
      var r := riders[rid];
      var req := Request(rid, r.bid);
      var top := ChooseTargets(r);
      var ds, reached := Deliver(drivers, top, req);
      Install(ds, reached, req);
      ReplaceRider(rid, Noted(r, reached));
    }

    /** Puts in place the drivers `ds` left by the broadcast of `req` to `targets`. */
    method Install(ds: map<nat, Driver>, targets: set<nat>, req: Request)
      requires Valid() && req.riderId < |riderBids| && riderBids[req.riderId] == req.bid
      requires forall k :: k in targets && k in drivers ==> drivers[k].ask <= req.bid
      requires ds == Broadcast(drivers, targets, req)
      modifies this`drivers
      ensures Valid() && drivers == ds
    {
      StateBroadcast(riders, riderOrder, riderBids, nextRiderId, drivers, driverOrder, nextDriverId, riderGrid[..], driverGrid[..], targets, req);
      drivers := ds;
    }

    /**
     * Every unmatched rider, in registry order, broadcasts to its targets. Each driver's
     * inbox ends up holding, after what it held, the requests addressed to it in rider
     * order, each rider once; each rider notes its targets.
     */
    method Matching()
      requires Valid()
      modifies this`riders, this`drivers
      ensures Valid()
      ensures drivers == AfterBroadcasts(old(drivers), old(riders), riderOrder, driverOrder)
      ensures riders == AfterNotes(old(riders), riderOrder, driverOrder, old(drivers))
    {
      ghost var d0, r0 := drivers, riders;
      assert AfterBroadcasts(d0, r0, [], driverOrder) == d0;
      assert AfterNotes(r0, [], driverOrder, d0) == r0;
      ghost var done: seq<nat> := [];
      for t := 0 to |riderOrder|
        invariant done == riderOrder[..t]
        invariant Broadcasting(done, d0, r0)
      {
        FreshAt(riderOrder, t);
        MatchTurn(done, riderOrder[t], d0, r0);
        done := done + [riderOrder[t]];
      }
      assert done == riderOrder;
    }

    /**
     * Part of the matching pass is done: the riders of `done` have broadcast, starting from
     * drivers `d0` and riders `r0`.
     */
    ghost predicate Broadcasting(done: seq<nat>, d0: map<nat, Driver>, r0: map<nat, Rider>)
      reads this, riderGrid, driverGrid
    {
      var ok := Valid()
        && drivers == AfterBroadcasts(d0, r0, done, driverOrder)
        && riders == AfterNotes(r0, done, driverOrder, d0);
      ok
    }

    /** One more rider's turn of the matching pass: it broadcasts unless it is matched. */
    method MatchTurn(ghost done: seq<nat>, rid: nat, ghost d0: map<nat, Driver>, ghost r0: map<nat, Rider>)
      requires Broadcasting(done, d0, r0) && rid in r0 && rid !in done
      modifies this`riders, this`drivers
      ensures Broadcasting(done + [rid], d0, r0)
    {
      if !riders[rid].matched {
        MatchStep(d0, r0, done, driverOrder, rid, drivers, riders);
        SendRequests(rid);
      } else {
        // a registered rider is never matched
        assert false;
      }
    }

    // -------------------------------------------------------------------------
    // Driver choices
    // -------------------------------------------------------------------------

    /** Records a trade in the market memory of grid cell `loc`. */
    method RecordAt(loc: Cell, bid: real, ask: real)
      requires MarketOk() && InGrid(loc) && bid >= MIN_BID && ask >= MIN_ASK
      modifies market[Idx(loc.0, loc.1)]
      ensures MarketOk()
      ensures var q := Idx(loc.0, loc.1);
              && market[q].bidHistory == old(market[q].bidHistory) + [bid]
              && market[q].askHistory == old(market[q].askHistory) + [ask]
      ensures forall q :: 0 <= q < CELLS && q != Idx(loc.0, loc.1) ==>
                market[q].bidHistory == old(market[q].bidHistory) && market[q].askHistory == old(market[q].askHistory)
      ensures old(TradesFair()) && ask <= bid ==> TradesFair()
    {
      var c := market[Idx(loc.0, loc.1)];
      assert forall q :: 0 <= q < CELLS && q != Idx(loc.0, loc.1) ==> cellAt[market[q]] != cellAt[c];
      ghost var fair := TradesFair();
      c.RecordTrade(bid, ask);
      forall x | x in cellAt
        ensures x.Valid() && PricesFloored(x)
      {
        if x != c {
          assert old(x.Valid() && PricesFloored(x));
        }
      }
      if fair && ask <= bid {
        forall x | x in cells
          ensures x.Fair()
        {
          if x != c {
            assert old(x.Fair());
          }
        }
      }
    }

    /**
     * Driver dk takes rider rid: the pair trades at the rider's bid and the driver's ask in
     * the market memory of the driver's cell, and both leave their registries and counters.
     */
    method CompleteMatch(d: Driver, r: Rider)
      requires Valid() && MarketOk()
      requires d.id in drivers && drivers[d.id] == d && r.id in riders && riders[r.id] == r
      modifies this`riders, this`riderOrder, this`drivers, this`driverOrder, riderGrid, driverGrid
      modifies market[Idx(d.loc.0, d.loc.1)]
      ensures Valid() && MarketOk()
      ensures riders == old(riders) - {r.id} && riderOrder == Without(old(riderOrder), r.id)
      ensures drivers == old(drivers) - {d.id} && driverOrder == Without(old(driverOrder), d.id)
      ensures market[Idx(d.loc.0, d.loc.1)].bidHistory == old(market[Idx(d.loc.0, d.loc.1)].bidHistory) + [r.bid]
      ensures market[Idx(d.loc.0, d.loc.1)].askHistory == old(market[Idx(d.loc.0, d.loc.1)].askHistory) + [d.ask]
      ensures forall q :: 0 <= q < CELLS && q != Idx(d.loc.0, d.loc.1) ==>
                market[q].bidHistory == old(market[q].bidHistory) && market[q].askHistory == old(market[q].askHistory)
      ensures old(TradesFair()) && d.ask <= r.bid ==> TradesFair()
    {
      Unregister(d.id, r.id);
      RecordAt(d.loc, r.bid, d.ask);
    }

    /** Takes a matched driver and rider out of the registries and the counters. */
    method Unregister(dk: nat, rid: nat)
      requires Valid() && dk in drivers && rid in riders
      modifies this`riders, this`riderOrder, this`drivers, this`driverOrder, riderGrid, driverGrid
      ensures Valid()
      ensures riders == old(riders) - {rid} && riderOrder == Without(old(riderOrder), rid)
      ensures drivers == old(drivers) - {dk} && driverOrder == Without(old(driverOrder), dk)
    {
      RemoveDriver(dk);
      RemoveRider(rid);
    }

    /**
     * The trading outcome of a turn: driver k takes the best bidder in its inbox, and the
     * orders lose both.
     */
    method TakeBest(k: nat, ghost past: seq<Trade>, ghost bids0: seq<seq<real>>, ghost asks0: seq<seq<real>>)
      returns (ghost now: seq<Trade>)
      requires Valid() && MarketOk() && Recorded(bids0, asks0, past) && k in drivers && drivers[k].inbox != []
      requires Best(drivers[k]).riderId in riders
      modifies this`riders, this`riderOrder, this`drivers, this`driverOrder, riderGrid, driverGrid
      modifies market[Idx(drivers[k].loc.0, drivers[k].loc.1)]
      ensures Valid() && MarketOk()
      ensures var b := Best(old(drivers[k]));
              && riders == old(riders) - {b.riderId} && drivers == old(drivers) - {k}
              && now == past + [Trade(k, b.riderId, old(drivers[k].loc), b.bid, old(drivers[k].ask))]
      ensures riderOrder == FilterKeys(old(riderOrder), riders.Keys)
      ensures driverOrder == FilterKeys(old(driverOrder), drivers.Keys)
      ensures var d := old(drivers[k]);
              var p := Idx(d.loc.0, d.loc.1);
              && market[p].bidHistory == old(market[p].bidHistory) + [Best(d).bid]
              && market[p].askHistory == old(market[p].askHistory) + [d.ask]
              && forall q :: 0 <= q < CELLS && q != p ==>
                   market[q].bidHistory == old(market[q].bidHistory) && market[q].askHistory == old(market[q].askHistory)
      ensures Recorded(bids0, asks0, now)
      ensures old(TradesFair()) ==> TradesFair()
    {
      var d := drivers[k];
      var best := Best(d);
      WithoutIsFilter(riderOrder, riders.Keys, best.riderId);
      WithoutIsFilter(driverOrder, drivers.Keys, k);
      assert InboxOk(d.inbox, d.ask, riderBids);
      ghost var hb, ha := Histories(BidSide), Histories(AskSide);
      CompleteMatch(d, riders[best.riderId]);
      now := past + [Trade(k, best.riderId, d.loc, best.bid, d.ask)];
      RecordedTrade(bids0, asks0, past, now[|past|], hb, ha);
    }

    /**
     * Driver k's turn in a choice round, as `Choose` describes it. A trade it makes is
     * recorded in the driver's cell: when the cells held `bids0` and `asks0` followed by the
     * prices of the trades `past`, they now hold them followed by those of `now`.
     */
    method ChooseOne(k: nat, ghost past: seq<Trade>, ghost bids0: seq<seq<real>>, ghost asks0: seq<seq<real>>)
      returns (ghost now: seq<Trade>)
      requires Valid() && MarketOk() && Recorded(bids0, asks0, past)
      modifies this`riders, this`riderOrder, this`drivers, this`driverOrder, riderGrid, driverGrid, cells
      ensures Valid() && MarketOk() && Recorded(bids0, asks0, now)
      ensures Round(riders, drivers, now) == Choose(k, Round(old(riders), old(drivers), past))
      ensures riderOrder == FilterKeys(old(riderOrder), riders.Keys)
      ensures driverOrder == FilterKeys(old(driverOrder), drivers.Keys)
      ensures old(TradesFair()) ==> TradesFair()
    {
      now := past;
      if k in drivers && !drivers[k].matched && drivers[k].inbox != [] {
        var aged := Aged(drivers[k]);
        var best := Best(aged);
        if aged.inboxAge >= aged.patience && best.riderId in riders && !riders[best.riderId].matched {
          ChooseTakes(k, Round(riders, drivers, past));
          now := TakeBest(k, past, bids0, asks0);
        } else {
          ChooseWaits(k, Round(riders, drivers, past));
          AgeInbox(k);
        }
      } else {
        StateOrdersFiltered(riders, riderOrder, riderBids, nextRiderId, drivers, driverOrder, nextDriverId, riderGrid[..], driverGrid[..]);
      }
    }

    /** Driver k passes its turn: its inbox ages by one tick and nothing else changes. */
    method AgeInbox(k: nat)
      requires Valid() && MarketOk() && k in drivers && !drivers[k].matched && drivers[k].inbox != []
      modifies this`drivers
      ensures Valid() && drivers == old(drivers)[k := Aged(old(drivers[k]))]
      ensures riderOrder == FilterKeys(riderOrder, riders.Keys) && driverOrder == FilterKeys(driverOrder, drivers.Keys)
      ensures MarketOk() && Histories(BidSide) == old(Histories(BidSide)) && Histories(AskSide) == old(Histories(AskSide))
    {
      ReplaceDriver(k, Aged(drivers[k]));
      StateOrdersFiltered(riders, riderOrder, riderBids, nextRiderId, drivers, driverOrder, nextDriverId, riderGrid[..], driverGrid[..]);
      MemoryKept();
    }

    /**
     * The driver-choice round: drivers take their turns in ascending order of ask (ties in
     * registration order), each as `Choose` describes; the trades made are returned.
     */
    method DriverChoices() returns (ghost trades: seq<Trade>)
      requires Valid() && MarketOk()
      modifies this`riders, this`riderOrder, this`drivers, this`driverOrder, riderGrid, driverGrid, cells
      ensures Valid() && MarketOk()
      ensures Round(riders, drivers, trades)
           == ChooseAll(Turns(SortByKey(AskList(old(driverOrder), old(drivers)))), Round(old(riders), old(drivers), []))
      ensures riderOrder == FilterKeys(old(riderOrder), riders.Keys)
      ensures driverOrder == FilterKeys(old(driverOrder), drivers.Keys)
      ensures forall q :: 0 <= q < CELLS ==>
                && market[q].bidHistory == old(market[q].bidHistory) + BidsAt(trades, q)
                && market[q].askHistory == old(market[q].askHistory) + AsksAt(trades, q)
      ensures old(TradesFair()) ==> TradesFair()
    {
      var ids := Turns(SortByKey(AskList(driverOrder, drivers)));
      trades := ChooseTurns(ids);
    }

    /** The turns of the drivers `ids`, in that order, each as `Choose` describes. */
    method ChooseTurns(ids: seq<nat>) returns (ghost trades: seq<Trade>)
      requires Valid() && MarketOk()
      modifies this`riders, this`riderOrder, this`drivers, this`driverOrder, riderGrid, driverGrid, cells
      ensures Valid() && MarketOk()
      ensures Round(riders, drivers, trades) == ChooseAll(ids, Round(old(riders), old(drivers), []))
      ensures riderOrder == FilterKeys(old(riderOrder), riders.Keys)
      ensures driverOrder == FilterKeys(old(driverOrder), drivers.Keys)
      ensures forall q :: 0 <= q < CELLS ==>
                && market[q].bidHistory == old(market[q].bidHistory) + BidsAt(trades, q)
                && market[q].askHistory == old(market[q].askHistory) + AsksAt(trades, q)
      ensures old(TradesFair()) ==> TradesFair()
    {
      ghost var s0 := Round(riders, drivers, []);
      ghost var ro := riderOrder;
      ghost var dro := driverOrder;
      ghost var fair0 := TradesFair();
      ghost var bids0, asks0 := Histories(BidSide), Histories(AskSide);
      FilterKeysAll(riderOrder, riders.Keys);
      FilterKeysAll(driverOrder, drivers.Keys);
      LoggedNone(bids0, BidSide);
      LoggedNone(asks0, AskSide);
      assert Choosing([], s0, ro, dro, fair0, bids0, asks0, []);
      trades := ChoosePass(ids, s0, ro, dro, fair0, bids0, asks0);
    }

    /** The turns of a choice round, one per driver id of `ids`, in that order. */
    method ChoosePass(ids: seq<nat>, ghost s0: Round, ghost ro: seq<nat>, ghost dro: seq<nat>, ghost fair0: bool,
                      ghost bids0: seq<seq<real>>, ghost asks0: seq<seq<real>>)
      returns (ghost trades: seq<Trade>)
      requires Choosing([], s0, ro, dro, fair0, bids0, asks0, [])
      modifies this`riders, this`riderOrder, this`drivers, this`driverOrder, riderGrid, driverGrid, cells
      ensures Choosing(ids, s0, ro, dro, fair0, bids0, asks0, trades)
    {
      trades := [];
      ghost var done: seq<nat> := [];
      for t := 0 to |ids|
        invariant done == ids[..t]
        invariant Choosing(done, s0, ro, dro, fair0, bids0, asks0, trades)
      {
        trades := ChooseTurn(done, ids[t], s0, ro, dro, fair0, bids0, asks0, trades);
        done := done + [ids[t]];
      }
      assert done == ids;
    }

    /**
     * Part of a choice round is done: the state is what the turns of `done` make of `s0`,
     * the orders are `ro` and `dro` filtered down to the registries, the cells hold `bids0` and
     * `asks0` followed by the prices of the trades made, and the trades are fair if they were
     * at the start.
     */
    ghost predicate Choosing(done: seq<nat>, s0: Round, ro: seq<nat>, dro: seq<nat>, fair0: bool,
                             bids0: seq<seq<real>>, asks0: seq<seq<real>>, trades: seq<Trade>)
      reads this, riderGrid, driverGrid, market, cells
    {
      var ok := Valid() && MarketOk() && Recorded(bids0, asks0, trades)
        && Round(riders, drivers, trades) == ChooseAll(done, s0)
        && riderOrder == FilterKeys(ro, riders.Keys) && driverOrder == FilterKeys(dro, drivers.Keys)
        && (fair0 ==> TradesFair());
      ok
    }

    /** One more turn of a choice round. */
    method ChooseTurn(ghost done: seq<nat>, k: nat, ghost s0: Round, ghost ro: seq<nat>, ghost dro: seq<nat>,
                      ghost fair0: bool, ghost bids0: seq<seq<real>>, ghost asks0: seq<seq<real>>,
                      ghost past: seq<Trade>) returns (ghost now: seq<Trade>)
      requires Choosing(done, s0, ro, dro, fair0, bids0, asks0, past)
      modifies this`riders, this`riderOrder, this`drivers, this`driverOrder, riderGrid, driverGrid, cells
      ensures Choosing(done + [k], s0, ro, dro, fair0, bids0, asks0, now)
    {
      ghost var before := Round(riders, drivers, past);
      assert (done + [k])[..|done|] == done;
      now := ChooseOne(k, past, bids0, asks0);
      RoundRemains([k], before);
      FilterKeysTwice(ro, before.riders.Keys, riders.Keys);
      FilterKeysTwice(dro, before.drivers.Keys, drivers.Keys);
    }

    // -------------------------------------------------------------------------
    // Cleanup
    // -------------------------------------------------------------------------

    /**
     * The expiry pass: every rider and every driver waits one tick more, and those whose
     * wait reaches MAX_WAIT leave; the number dropped of each kind is logged.
     */
    method Cleanup() returns (dr: nat, dd: nat)
      requires Valid()
      modifies this`riders, this`riderOrder, this`drivers, this`driverOrder, this`metrics, riderGrid, driverGrid
      ensures Valid()
      ensures riders == AgeRiders(old(riders), old(riders).Keys) && riderOrder == FilterKeys(old(riderOrder), riders.Keys)
      ensures drivers == AgeDrivers(old(drivers), old(drivers).Keys) && driverOrder == FilterKeys(old(driverOrder), drivers.Keys)
      ensures dr == |old(riders)| - |riders| && dd == |old(drivers)| - |drivers|
      ensures metrics == old(metrics).(droppedRiders := old(metrics.droppedRiders) + [dr],
                                       droppedDrivers := old(metrics.droppedDrivers) + [dd])
    {
      dr := ExpireRiders();
      dd := ExpireDrivers();
      metrics := metrics.(droppedRiders := metrics.droppedRiders + [dr], droppedDrivers := metrics.droppedDrivers + [dd]);
    }

    /** Part of the rider expiry pass is done: the riders in `done` have had their turn. */
    ghost predicate ExpiringRiders(r0: map<nat, Rider>, ro: seq<nat>, done: set<nat>, dropped: nat)
      reads this, riderGrid, driverGrid
    {
      var ok := Valid()
        && riders == AgeRiders(r0, done) && riderOrder == FilterKeys(ro, riders.Keys)
        && dropped == |r0| - |riders|;
      ok
    }

    /** Rider k waits one tick more, and leaves if its wait has expired. */
    method ExpireRider(k: nat) returns (dropped: bool)
      requires Valid() && k in riders
      modifies this`riders, this`riderOrder, riderGrid
      ensures Valid()
      ensures dropped == Expired(old(riders[k].wait) + 1)
      ensures dropped ==> riders == old(riders) - {k} && riderOrder == Without(old(riderOrder), k)
      ensures !dropped ==> riders == old(riders)[k := RiderTick(old(riders[k]))] && riderOrder == old(riderOrder)
    {
      var r := riders[k];
      dropped := Expired(r.wait + 1);
      if dropped {
        RemoveRider(k);
      } else {
        ReplaceRider(k, RiderTick(r));
      }
    }

    /** One more turn of the rider expiry pass: the one of rider k. */
    method ExpireRiderTurn(k: nat, ghost r0: map<nat, Rider>, ghost ro: seq<nat>, ghost done: set<nat>, dropped: nat)
      returns (now: nat)
      requires ExpiringRiders(r0, ro, done, dropped) && k in r0 && k !in done
      modifies this`riders, this`riderOrder, riderGrid
      ensures ExpiringRiders(r0, ro, done + {k}, now)
    {
      AgeRidersStep(r0, done, k);
      ghost var before := riders;
      FilterKeysWithout(ro, riders.Keys, k);
      var gone := ExpireRider(k);
      RiderTurn(r0, done, k, before, riders, gone, dropped);
      now := if gone then dropped + 1 else dropped;
    }

    /** The rider half of the expiry pass, in registration order. */
    method ExpireRiders() returns (dropped: nat)
      requires Valid()
      modifies this`riders, this`riderOrder, riderGrid
      ensures Valid()
      ensures riders == AgeRiders(old(riders), old(riders).Keys) && riderOrder == FilterKeys(old(riderOrder), riders.Keys)
      ensures dropped == |old(riders)| - |riders|
    {
      var ids := riderOrder;
      ghost var r0 := riders;
      FilterKeysAll(ids, riders.Keys);
      AgeNone(r0, drivers);
      assert Members(ids) == r0.Keys;
      dropped := ExpireRiderPass(ids, r0);
    }

    /** The turns of the rider expiry pass, one per key of `ids`, in that order. */
    method ExpireRiderPass(ids: seq<nat>, ghost r0: map<nat, Rider>) returns (dropped: nat)
      requires ExpiringRiders(r0, ids, {}, 0) && Distinct(ids) && Members(ids) == r0.Keys
      modifies this`riders, this`riderOrder, riderGrid
      ensures ExpiringRiders(r0, ids, r0.Keys, dropped)
    {
      dropped := 0;
      ghost var done: set<nat> := {};
      for t := 0 to |ids|
        invariant done == Seen(ids, t)
        invariant ExpiringRiders(r0, ids, done, dropped)
      {
        PassStep(ids, t, r0, done);
        dropped := ExpireRiderTurn(ids[t], r0, ids, done, dropped);
        done := done + {ids[t]};
      }
      SeenAll(ids);
    }

    /** Part of the driver expiry pass is done: the drivers in `done` have had their turn. */
    ghost predicate ExpiringDrivers(d0: map<nat, Driver>, dro: seq<nat>, done: set<nat>, dropped: nat)
      reads this, riderGrid, driverGrid
    {
      var ok := Valid()
        && drivers == AgeDrivers(d0, done) && driverOrder == FilterKeys(dro, drivers.Keys)
        && dropped == |d0| - |drivers|;
      ok
    }

    /** Driver k waits one tick more, and leaves if its wait has expired. */
    method ExpireDriver(k: nat) returns (dropped: bool)
      requires Valid() && k in drivers
      modifies this`drivers, this`driverOrder, driverGrid
      ensures Valid()
      ensures dropped == Expired(old(drivers[k].wait) + 1)
      ensures dropped ==> drivers == old(drivers) - {k} && driverOrder == Without(old(driverOrder), k)
      ensures !dropped ==> drivers == old(drivers)[k := DriverTick(old(drivers[k]))] && driverOrder == old(driverOrder)
    {
      var d := drivers[k];
      dropped := Expired(d.wait + 1);
      if dropped {
        RemoveDriver(k);
      } else {
        ReplaceDriver(k, DriverTick(d));
      }
    }

    /** One more turn of the driver expiry pass: the one of driver k. */
    method ExpireDriverTurn(k: nat, ghost d0: map<nat, Driver>, ghost dro: seq<nat>, ghost done: set<nat>, dropped: nat)
      returns (now: nat)
      requires ExpiringDrivers(d0, dro, done, dropped) && k in d0 && k !in done
      modifies this`drivers, this`driverOrder, driverGrid
      ensures ExpiringDrivers(d0, dro, done + {k}, now)
    {
      AgeDriversStep(d0, done, k);
      ghost var before := drivers;
      FilterKeysWithout(dro, drivers.Keys, k);
      var gone := ExpireDriver(k);
      DriverTurn(d0, done, k, before, drivers, gone, dropped);
      now := if gone then dropped + 1 else dropped;
    }

    /** The driver half of the expiry pass, in registration order. */
    method ExpireDrivers() returns (dropped: nat)
      requires Valid()
      modifies this`drivers, this`driverOrder, driverGrid
      ensures Valid()
      ensures drivers == AgeDrivers(old(drivers), old(drivers).Keys) && driverOrder == FilterKeys(old(driverOrder), drivers.Keys)
      ensures dropped == |old(drivers)| - |drivers|
    {
      var ids := driverOrder;
      ghost var d0 := drivers;
      FilterKeysAll(ids, drivers.Keys);
      AgeNone(riders, d0);
      assert Members(ids) == d0.Keys;
      dropped := ExpireDriverPass(ids, d0);
    }

    /** The turns of the driver expiry pass, one per key of `ids`, in that order. */
    method ExpireDriverPass(ids: seq<nat>, ghost d0: map<nat, Driver>) returns (dropped: nat)
      requires ExpiringDrivers(d0, ids, {}, 0) && Distinct(ids) && Members(ids) == d0.Keys
      modifies this`drivers, this`driverOrder, driverGrid
      ensures ExpiringDrivers(d0, ids, d0.Keys, dropped)
    {
      dropped := 0;
      ghost var done: set<nat> := {};
      for t := 0 to |ids|
        invariant done == Seen(ids, t)
        invariant ExpiringDrivers(d0, ids, done, dropped)
      {
        PassStep(ids, t, d0, done);
        dropped := ExpireDriverTurn(ids[t], d0, ids, done, dropped);
        done := done + {ids[t]};
      }
      SeenAll(ids);
    }
  
    // -------------------------------------------------------------------------
    // One tick
    // -------------------------------------------------------------------------

    /** Sum of the mean recent bids of the first n cells, in row-major order. */
    ghost function BidSum(n: int): real
      reads market, cells
      requires MarketOk() && 0 <= n <= CELLS
    {
      if n == 0 then 0.0
      else
        var c := CellOf(n - 1);
        BidSum(n - 1) + CellPrice(BidSide, c.0, c.1)
    }

    /** The mean over all cells of their mean recent bid: the tick's average rate. */
    ghost function MeanRate(): real
      reads market, cells
      requires MarketOk()
    {
      BidSum(CELLS) / (CELLS as real)
    }

    lemma {:induction false} BidSumAtLeast(n: int)
      requires MarketOk() && 0 <= n <= CELLS
      ensures BidSum(n) >= Times(MIN_BID, n)
    {
      if n > 0 {
        BidSumAtLeast(n - 1);
        var c := CellOf(n - 1);
        CellPriceAtLeast(BidSide, c.0, c.1);
      }
    }

    /** The average rate of the tick: the mean recent bid of every cell, averaged; never below the bid floor. */
    method AverageRate() returns (rate: real)
      requires MarketOk()
      ensures rate == MeanRate() && rate >= MIN_BID
    {
      var total := 0.0;
      for q := 0 to CELLS
        invariant total == BidSum(q)
      {
        total := total + market[q].AvgBid();
      }
      BidSumAtLeast(CELLS);
      DivideAtLeast(total, CELLS, MIN_BID);
      rate := total / (CELLS as real);
    }

    /**
     * One simulated minute: rider arrivals, driver arrivals, the matching pass, the driver
     * choices and the expiry pass, in that order; then the registry sizes and the average
     * rate are logged and the clock advances. Every series stays one entry per tick.
     */
    /** Valid and MarketOk as one fact, which a whole tick carries from phase to phase. */
    ghost predicate Settled()
      reads this`riders, this`riderOrder, this`riderBids, this`nextRiderId
      reads this`drivers, this`driverOrder, this`nextDriverId, riderGrid, driverGrid, market, cells
    {
      var ok := Valid() && MarketOk();
      ok
    }

    /** A tick's arrivals: riders, then drivers, each cell in row-major order. */
    method SpawnPhase(draws: Draws, curve: PriceCurve)
      returns (ghost newRiders: int, ghost newDrivers: int, ghost pressure: real, ghost driverPressures: seq<real>)
      requires Settled() && Counted(metrics, time, 0, 0)
      modifies this`riders, this`riderOrder, this`riderBids, this`nextRiderId
      modifies this`drivers, this`driverOrder, this`nextDriverId, this`metrics
      modifies riderGrid, driverGrid
      ensures Settled() && Counted(metrics, time, 1, 0)
      ensures old(TradesFair()) ==> TradesFair()
      ensures Arrived(time, draws, curve, old(Averages(BidSide)), old(Averages(AskSide)), driverPressures, old(Now()), Now())
      ensures Shape() && NonNeg(riderGrid[..]) && old(NonNeg(driverGrid[..]))
      ensures Refilled(draws, time, old(riderGrid[..]), riderGrid[..])
      ensures pressure == MeanPressureOf(riderGrid[..], old(driverGrid[..]))
      ensures newRiders == nextRiderId - old(nextRiderId) && newDrivers == nextDriverId - old(nextDriverId)
      ensures Appended(riderOrder, old(riderOrder), old(nextRiderId), nextRiderId)
      ensures Appended(driverOrder, old(driverOrder), old(nextDriverId), nextDriverId)
      ensures metrics == old(metrics).(ridersSpawned := old(metrics.ridersSpawned) + [newRiders],
                                       driversSpawned := old(metrics.driversSpawned) + [newDrivers],
                                       pressureList := old(metrics.pressureList) + [pressure])
      ensures Histories(BidSide) == old(Histories(BidSide)) && Histories(AskSide) == old(Histories(AskSide))
    {
      ghost var rid0, did0, m0, dg0 := nextRiderId, nextDriverId, metrics, driverGrid[..];
      SpawnRiders(draws, curve);
      assert driverGrid[..] == dg0;
      ghost var rg1 := riderGrid[..];
      pressure := MeanPressure();
      newRiders := nextRiderId - rid0;
      ghost var m1 := metrics;
      assert m1 == m0.(ridersSpawned := m0.ridersSpawned + [newRiders], pressureList := m0.pressureList + [pressure]);
      MemoryKept();
      assert Refilled(draws, time, old(riderGrid[..]), riderGrid[..]);
      ghost var lams;
      label riders:
      driverPressures, lams := SpawnDrivers(draws, curve);
      MemoryKept@riders();
      assert riderGrid[..] == rg1;
      newDrivers := nextDriverId - did0;
      SpawnMetrics(m0, m1, metrics, newRiders, newDrivers, pressure);
    }

    /** A tick's trading: riders broadcast their requests, then the drivers choose. */
    method TradePhase() returns (ghost trades: seq<Trade>)
      requires Settled()
      modifies this`riders, this`riderOrder, this`drivers, this`driverOrder
      modifies riderGrid, driverGrid, cells
      ensures Settled()
      ensures Traded(old(riders), old(drivers), old(riderOrder), old(driverOrder), riders, drivers, trades)
      ensures riderOrder == FilterKeys(old(riderOrder), riders.Keys)
      ensures driverOrder == FilterKeys(old(driverOrder), drivers.Keys)
      ensures Histories(BidSide) == Logged(old(Histories(BidSide)), trades, BidSide)
      ensures Histories(AskSide) == Logged(old(Histories(AskSide)), trades, AskSide)
      ensures old(TradesFair()) ==> TradesFair()
    {
      Matching();
      MemoryKept();
      label chose:
      trades := DriverChoices();
      LoggedFrom(old@chose(Histories(BidSide)), Histories(BidSide), trades, BidSide);
      LoggedFrom(old@chose(Histories(AskSide)), Histories(AskSide), trades, AskSide);
    }

    /** A tick's expiry: every waiting agent ages, and those out of patience leave. */
    method ExpirePhase() returns (dr: nat, dd: nat)
      requires Settled() && Counted(metrics, time, 1, 0)
      modifies this`riders, this`riderOrder, this`drivers, this`driverOrder, this`metrics
      modifies riderGrid, driverGrid
      ensures Settled() && Counted(metrics, time, 1, 1)
      ensures old(TradesFair()) ==> TradesFair()
      ensures AllAged(old(riders), old(drivers), riders, drivers)
      ensures riderOrder == FilterKeys(old(riderOrder), riders.Keys)
      ensures driverOrder == FilterKeys(old(driverOrder), drivers.Keys)
      ensures dr == |old(riders)| - |riders| && dd == |old(drivers)| - |drivers|
      ensures metrics == old(metrics).(droppedRiders := old(metrics.droppedRiders) + [dr],
                                       droppedDrivers := old(metrics.droppedDrivers) + [dd])
      ensures Histories(BidSide) == old(Histories(BidSide)) && Histories(AskSide) == old(Histories(AskSide))
    {
      dr, dd := Cleanup();
      MemoryKept();
    }

    /** The end of a tick: the head-counts, the mean rate, and the clock. */
    method CloseTick() returns (rate: real)
      requires Settled() && Counted(metrics, time, 1, 1)
      modifies this`metrics, this`time
      ensures Settled() && Counted(metrics, time, 0, 0)
      ensures time == old(time) + 1
      ensures old(TradesFair()) ==> TradesFair()
      ensures rate == MeanRate()
      ensures metrics == old(metrics).(riderCounts := old(metrics.riderCounts) + [|riders|],
                                       driverCounts := old(metrics.driverCounts) + [|drivers|],
                                       avgRates := old(metrics.avgRates) + [rate])
      ensures Histories(BidSide) == old(Histories(BidSide)) && Histories(AskSide) == old(Histories(AskSide))
    {
      rate := AverageRate();
      RecordTick(rate);
      MemoryKept();
    }

    /** Closes a tick: appends the head-counts and the mean rate, and advances the clock. */
    method RecordTick(rate: real)
      modifies this`metrics, this`time
      ensures metrics == old(metrics).(riderCounts := old(metrics.riderCounts) + [|riders|],
                                       driverCounts := old(metrics.driverCounts) + [|drivers|],
                                       avgRates := old(metrics.avgRates) + [rate])
      ensures time == old(time) + 1
    {
      metrics := metrics.(riderCounts := metrics.riderCounts + [|riders|],
                          driverCounts := metrics.driverCounts + [|drivers|],
                          avgRates := metrics.avgRates + [rate]);
      time := time + 1;
    }

    /** Each key order lists the keys of its registry, each once. */
    lemma OrdersList()
      requires Valid()
      ensures Lists(riderOrder, riders) && Lists(driverOrder, drivers)
    {
    }

    /** A tick's expiry followed by its closing statistics. */
    method EndTick() returns (ghost dr: int, ghost dd: int, ghost rate: real)
      requires Settled() && Counted(metrics, time, 1, 0)
      modifies this`riders, this`riderOrder, this`drivers, this`driverOrder, this`metrics, this`time
      modifies riderGrid, driverGrid
      ensures Settled() && Counted(metrics, time, 0, 0)
      ensures time == old(time) + 1
      ensures old(TradesFair()) ==> TradesFair()
      ensures AllAged(old(riders), old(drivers), riders, drivers)
      ensures riderOrder == FilterKeys(old(riderOrder), riders.Keys)
      ensures driverOrder == FilterKeys(old(driverOrder), drivers.Keys)
      ensures dr == |old(riders)| - |riders| && dd == |old(drivers)| - |drivers|
      ensures rate == MeanRate()
      ensures metrics == Closed(old(metrics), dr, dd, |riders|, |drivers|, rate)
      ensures Histories(BidSide) == old(Histories(BidSide)) && Histories(AskSide) == old(Histories(AskSide))
    {
      var droppedRiders, droppedDrivers := ExpirePhase();
      dr, dd := droppedRiders, droppedDrivers;
      ghost var m2 := metrics;
      var r := CloseTick();
      rate := r;
      CloseMetrics(old(metrics), m2, metrics, dr, dd, |riders|, |drivers|, rate);
    }

    /**
     * The second half of a tick: trading, expiry and the closing statistics. The ghost results
     * are the registries and trades after trading and the numbers appended to the series.
     */
    method Settle()
      returns (ghost tradedRiders: map<nat, Rider>, ghost tradedDrivers: map<nat, Driver>,
               ghost trades: seq<Trade>, ghost dr: int, ghost dd: int, ghost rate: real)
      requires Settled() && Counted(metrics, time, 1, 0)
      modifies this`riders, this`riderOrder, this`drivers, this`driverOrder, this`metrics, this`time
      modifies riderGrid, driverGrid, cells
      ensures Settled() && Counted(metrics, time, 0, 0)
      ensures time == old(time) + 1
      ensures old(TradesFair()) ==> TradesFair()
      ensures Traded(old(riders), old(drivers), old(riderOrder), old(driverOrder), tradedRiders, tradedDrivers, trades)
      ensures Histories(BidSide) == Logged(old(Histories(BidSide)), trades, BidSide)
      ensures Histories(AskSide) == Logged(old(Histories(AskSide)), trades, AskSide)
      ensures AllAged(tradedRiders, tradedDrivers, riders, drivers)
      ensures Thinned(riderOrder, old(riderOrder), riders.Keys) && Thinned(driverOrder, old(driverOrder), drivers.Keys)
      ensures dr == |tradedRiders| - |riders| && dd == |tradedDrivers| - |drivers|
      ensures rate == MeanRate()
      ensures metrics == Closed(old(metrics), dr, dd, |riders|, |drivers|, rate)
    {
      trades := TradePhase();
      tradedRiders, tradedDrivers := riders, drivers;
      ghost var ro, dro := riderOrder, driverOrder;
      dr, dd, rate := EndTick();
      ThinnedTwice(old(riderOrder), tradedRiders.Keys, ro, riders.Keys, riderOrder);
      ThinnedTwice(old(driverOrder), tradedDrivers.Keys, dro, drivers.Keys, driverOrder);
    }

    /**
     * One simulated minute: arrivals, trading, expiry, then the tick's statistics. The ghost
     * results are the states between the phases: the roster once the arrivals are in and its
     * key orders, the registries and trades after trading, and the numbers each phase appends
     * to the series. Every cell's histories gain the prices of the tick's trades made there.
     */
    method Step(draws: Draws, curve: PriceCurve)
      returns (ghost arrived: Roster, ghost riderList: seq<nat>, ghost driverList: seq<nat>,
               ghost driverPressures: seq<real>,
               ghost tradedRiders: map<nat, Rider>, ghost tradedDrivers: map<nat, Driver>,
               ghost trades: seq<Trade>, ghost newRiders: int, ghost newDrivers: int, ghost pressure: real,
               ghost dr: int, ghost dd: int, ghost rate: real)
      requires Settled() && SeriesAligned()
      modifies this`riders, this`riderOrder, this`riderBids, this`nextRiderId
      modifies this`drivers, this`driverOrder, this`nextDriverId, this`metrics, this`time
      modifies riderGrid, driverGrid, cells
      ensures Settled() && SeriesAligned()
      ensures time == old(time) + 1
      ensures old(TradesFair()) ==> TradesFair()
      ensures Arrived(old(time), draws, curve, old(Averages(BidSide)), old(Averages(AskSide)), driverPressures, old(Now()), arrived)
      ensures arrived.nextRiderId == nextRiderId && arrived.nextDriverId == nextDriverId
      ensures Shape() && |arrived.riderGrid| == CELLS && NonNeg(arrived.riderGrid) && old(NonNeg(driverGrid[..]))
      ensures Refilled(draws, old(time), old(riderGrid[..]), arrived.riderGrid)
      ensures pressure == MeanPressureOf(arrived.riderGrid, old(driverGrid[..]))
      ensures Lists(riderList, arrived.riders) && Lists(driverList, arrived.drivers)
      ensures Appended(riderList, old(riderOrder), old(nextRiderId), nextRiderId)
      ensures Appended(driverList, old(driverOrder), old(nextDriverId), nextDriverId)
      ensures Thinned(riderOrder, riderList, riders.Keys) && Thinned(driverOrder, driverList, drivers.Keys)
      ensures Traded(arrived.riders, arrived.drivers, riderList, driverList, tradedRiders, tradedDrivers, trades)
      ensures Histories(BidSide) == Logged(old(Histories(BidSide)), trades, BidSide)
      ensures Histories(AskSide) == Logged(old(Histories(AskSide)), trades, AskSide)
      ensures AllAged(tradedRiders, tradedDrivers, riders, drivers)
      ensures newRiders == nextRiderId - old(nextRiderId) && newDrivers == nextDriverId - old(nextDriverId)
      ensures dr == |tradedRiders| - |riders| && dd == |tradedDrivers| - |drivers|
      ensures rate == MeanRate()
      ensures metrics == Ticked(old(metrics), newRiders, newDrivers, pressure, dr, dd, |riders|, |drivers|, rate)
    {
      newRiders, newDrivers, pressure, driverPressures := SpawnPhase(draws, curve);
      arrived, riderList, driverList := Now(), riderOrder, driverOrder;
      OrdersList();
      ghost var m1 := metrics;
      tradedRiders, tradedDrivers, trades, dr, dd, rate := Settle();
      TickMetrics(old(metrics), m1, metrics, newRiders, newDrivers, pressure, dr, dd, |riders|, |drivers|, rate);
    }
  }
}
