# Ride-hailing market and road routing, modelled in Dafny

The repository has two parts, and this project models the core of both.

**The market simulation (`sim.py`).** The city is a 5×5 grid of cells. Each simulated minute
runs the same steps:

- Riders arrive by a Poisson draw. The rate is higher inside surge windows, and each cell
  holds at most 10 riders.
- Drivers arrive by a Poisson draw whose rate falls as local driver pressure rises, capped
  at 5. Each cell holds at most 10 drivers.
- Every rider prices a bid from the recent average bid of the cells around it and the local
  pressure. Every driver prices an ask the same way from asks, and also gets a patience.
- Every unmatched rider sends a request to the three nearest drivers whose ask it covers.
- Drivers, cheapest ask first, age their inbox. Once a driver's patience is reached, it takes
  the highest bid in its inbox if that rider is still waiting. The trade is recorded in the
  driver's cell, which keeps the last ten bids and asks.
- Every agent waits one more minute, and those who have waited 7 minutes leave.
- Eight time series record the minute.

**The routing engine (`routing/`).**

- `GraphBuilder` turns OpenStreetMap ways into a directed graph. Way ends and nodes shared by
  several ways become routing nodes. Each way is cut into segments between routing nodes, and
  each segment becomes one or two edges weighted by travel time.
- The graph is then cut down to its first largest component.
- `AStar::shortest_path` finds a path and its cost.
- The `RoutingEngine` snaps query points to the nearest node or edge, answers route queries,
  and changes edge weights.

The market is modelled as a `Simulation` class. It has its registries, its occupancy grids as
arrays, and an array of `MarketCell` objects, and its methods change them in place. Each
method is proved against pure functions of the old state:

- arrivals: `Grows`, `Raise`, `Admitted`, `RiderQuota`, and `RidersBorn`/`DriversBorn`, which give
  the exact rider or driver filed under each new id;
- requests: `AfterBroadcasts`, `AfterNotes`, `Targets`;
- driver choices: `ChooseAll` over `Round` values;
- expiry: `AgeRiders`, `AgeDrivers`.

Lemmas about those functions carry the market's promises:

- nobody trades twice;
- every trade pays at least the ask;
- requests go to the nearest affordable drivers;
- prices never fall below their floors;
- the occupancy counters equal the number of agents in each cell;
- every series grows by one entry per minute.

The routing side is modelled the same way:

- `Graph` is a class whose nodes list the positions of their outgoing edges.
- The builder, the component filter, A* and the router are methods proved against predicates
  on the node and edge sequences.

Random draws, the power-law price and rate curves, and the geographic distances enter as
function parameters. Every `double` is a `real`.

## Model

| member | source | states |
|---|---|---|
| Agents.Manhattan | sim.py:32-33 | the grid distance is zero exactly for equal cells and at least the gap on either axis |
| Agents.Pressure | sim.py:191 | the local pressure (drivers + EPS) / (riders + 1) is always positive |
| Agents.PressureRatio | sim.py:191 | pressure times (riders + 1) gives back drivers + EPS, and pressure is at most 1 exactly when drivers do not outnumber riders (the case where bids rise and driver arrivals speed up) |
| Agents.Floored | sim.py:50 | the result is the raw price or the floor, whichever is larger |
| Agents.NewRider | sim.py:38-50 | a new rider has the given id, cell and spawn time, has not waited, is unmatched, has no requests, and its bid is the curve's raw bid raised to the 0.3 floor |
| Agents.Patience | sim.py:71 | for positive pressure, the patience int(MAX_WAIT / (1 + pressure)) lies in 0..MAX_WAIT-1 |
| Agents.PatienceTruncates | sim.py:71 | the patience is MAX_WAIT / (1 + pressure) truncated toward zero: it is no larger than the quotient and within one of it |
| Agents.NewDriver | sim.py:55-71 | a new driver has the given id, cell and spawn time, an empty inbox of age 0, its ask is the raw ask raised to the 0.2 floor, and its patience lies in 0..MAX_WAIT-1 |
| MarketMemory.LastN | sim.py:92-95 | the window keeps the last n entries of the history, in order |
| MarketMemory.LastNAppend | sim.py:88-95 | appending and then dropping the oldest entry beyond ten gives the window of the longer history |
| MarketMemory.MeanOr | sim.py:100-104 | an empty window averages to BASE_RATE |
| MarketMemory.MeanTimesLength | sim.py:100-101 | a non-empty window's average times its length is its sum |
| MarketMemory.MeanAtLeast | sim.py:100-104 | if every entry is at least a bound no larger than BASE_RATE, so is the average |
| MarketMemory.AppendFair | sim.py:86-95 | recording a trade whose ask does not exceed its bid keeps every recorded pair fair |
| MarketMemory.MarketCell.constructor | sim.py:80-83 | a new cell has empty histories and windows, is consistent, and is fair |
| MarketMemory.MarketCell.RecordTrade | sim.py:86-95 | the bid and ask are appended to the history, the windows keep at most ten entries and end with them, and a fair cell stays fair when ask ≤ bid |
| MarketMemory.MarketCell.AvgBid | sim.py:100-101 | an empty bid window averages to BASE_RATE |
| MarketMemory.MarketCell.AvgAsk | sim.py:103-104 | an empty ask window averages to BASE_RATE |
| MarketMemory.MarketCell.AvgBidAtLeast | sim.py:100-101 | if every bid ever recorded is at least a bound no larger than BASE_RATE, so is the average bid |
| MarketMemory.MarketCell.AvgAskAtLeast | sim.py:103-104 | the same bound for the average ask |
| MarketMemory.MarketCell.AvgBidCoversAvgAsk | sim.py:86-104 | in a cell where every trade paid at least its ask, the average recent bid is at least the average recent ask |
| Grid.Idx | sim.py:116-120 | a cell's row-major position lies in 0..24 |
| Grid.IdxInjective | sim.py:116-120 | two cells share a position exactly when they are the same cell |
| Grid.SquareHoldsCentre | sim.py:145-160 | the square around an in-grid cell holds at least that cell, so the divisor max(1, count) is the count |
| Grid.WindowSumNonNeg | sim.py:135-143 | summing non-negative counters over a window gives a non-negative total |
| Grid.SquareSumBump | sim.py:135-143 | adding one rider to a cell raises the local-pressure sum of a square by one exactly when that cell lies within the square's radius |
| Ranking.SortByKeySortsAndPermutes | sim.py:258 | the sort by key returns a permutation of its input in ascending key order |
| Ranking.SortByKeyStable | sim.py:258 | the sort is stable: entries with equal keys keep their input order |
| Ranking.TopKNearest | sim.py:258-259 | the first k after sorting are min(k, n) entries of the input, ascending, and none has a larger key than any entry left out |
| Ranking.TopKStable | sim.py:258-259 | among equal keys, the chosen entries are the earliest ones of the input |
| Ranking.TopKTieOrder | sim.py:258-259 | an entry chosen over an equal-key entry that was left out comes before it in the input |
| Ranking.TopKDistinct | sim.py:259 | choosing from distinct drivers gives distinct drivers |
| Ranking.SortByKeyIds | sim.py:275 | sorting keeps the set of ids and their distinctness |
| Registry.Without | sim.py:300-301 | deleting a key from an insertion-ordered registry keeps the other keys in their order, each once |
| Registry.FilterKeys | sim.py:311-323 | filtering the key order keeps exactly the surviving keys in their order |
| Registry.FilterKeysTwice | sim.py:311-323 | filtering twice is filtering once by the smaller set |
| Registry.InboxPut | sim.py:260 | filing a request into an inbox that already holds that rider leaves the inbox unchanged, and otherwise appends it |
| Registry.BestRequest | sim.py:281 | the chosen request has the highest bid in the inbox and is the first with that bid |
| Registry.EligibleMembers | sim.py:250-256 | the candidates are exactly the unmatched drivers whose ask is at most the bid, keyed by their distance to the rider |
| Registry.EligibleDistinct | sim.py:250-256 | the candidates are distinct drivers, and they are exactly the eligible ones |
| Registry.EligibleBefore | sim.py:251 | candidates keep the registry's insertion order |
| Registry.AskList | sim.py:275 | the list pairs each driver, in registry order, with its ask |
| Registry.AskRanking | sim.py:275 | sorting drivers by ask lists every driver once, in ascending ask order |
| Registry.Range | sim.py:41 | the ids handed out while the counter runs from a to b: b - a of them, the p-th being a + p |
| Registry.AppendedIsRange | sim.py:194 | a key order stated entry by entry as `Appended` is exactly the old order followed by `Range(a, b)`, and conversely |
| Registry.AppendedNone | sim.py:194 | with no new ids the key order is unchanged |
| Registry.AppendedOne | sim.py:194 | filing one new id at the end of the order appends the run of that id |
| Registry.AppendedRuns | sim.py:194 | two runs of filings, one after the other, append the ids of both runs in increasing order |
| Registry.ThinnedIsFilter | sim.py:300-321 | `Thinned`, which keeps the entries of `keep` in their old order, says exactly that the order equals `FilterKeys` |
| Registry.ThinnedTwice | sim.py:300-321 | two deletion phases, the second deleting from what the first left, thin the first order down to the keys left at the end |
| Registry.GrowsTrans | sim.py:194-230 | two stretches of registrations under fresh consecutive ids compose into one |
| Choices.Best | sim.py:281 | the request taken is in the inbox and no request there has a higher bid |
| Choices.ChooseWaits | sim.py:276-282 | a driver whose patience is not reached, or whose best rider is gone or matched, only ages its inbox |
| Choices.ChooseTakes | sim.py:279-301 | a driver whose patience is reached and whose best rider still waits trades with that rider; both leave the registries and the trade records the bid and the ask |
| Choices.TurnTrades | sim.py:274-285 | a turn trades exactly when the driver is present, unmatched, has reached its patience and its best rider still waits; otherwise no rider changes and no driver leaves |
| Choices.TurnOrderCheapestFirst | sim.py:275 | the drivers take their turns in ascending order of ask, each present driver exactly once |
| Choices.TurnsMembers | sim.py:275 | the turns visit exactly the drivers of the registry |
| Choices.TurnsDistinct | sim.py:275 | no driver gets two turns |
| Choices.TurnsByAsk | sim.py:275 | the turns are in ascending order of ask |
| Choices.RemainsTrans | sim.py:274-285 | the "nothing added and only ageing or removal" relation between rounds composes |
| Choices.RoundRemains | sim.py:274-285 | a round of choices adds no agents and changes a remaining driver only by ageing its inbox |
| Choices.RoundTrades | sim.py:290-301 | every trade of a round removes its rider and driver, and only traded agents leave |
| Choices.RoundCounts | sim.py:290-301 | the number of riders and the number of drivers who leave both equal the number of trades made |
| Choices.PartnersDistinct | sim.py:294-301 | no rider and no driver appears in two trades of a round |
| Choices.RoundFair | sim.py:252-298 | when every inbox holds only bids covering its driver's ask, every trade of the round pays at least the ask |
| Choices.TradesBelow | sim.py:275-283 | if every driver's ask is at most a bound, so is every traded ask |
| Choices.TradesAscending | sim.py:275-283 | when drivers go cheapest first, the trades come in ascending order of ask |
| Choices.TurnsFindDrivers | sim.py:275 | the order is taken before the round, so every later driver in it is still present when its turn comes |
| Choices.StuckDriver | sim.py:279-285 | a driver whose best request names a rider who is gone stays put, keeps that best request and ages again every minute, because the inbox is never cleared |
| Expiry.RiderTick | sim.py:312 | a rider's wait grows by one and nothing else changes |
| Expiry.DriverTick | sim.py:319 | a driver's wait grows by one and nothing else changes |
| Expiry.AgeNone | sim.py:308-323 | ageing nobody changes nothing |
| Expiry.RiderSurvivors | sim.py:311-316 | after cleanup, the riders left are exactly those whose wait plus one is below MAX_WAIT, each waited one minute more |
| Expiry.DriverSurvivors | sim.py:318-323 | after cleanup, the drivers left are exactly those whose wait plus one is below MAX_WAIT, each waited one minute more |
| Expiry.AgeRidersStep | sim.py:311-316 | cleanup treats each rider on its own: an expiring rider is removed and any other one gets older |
| Expiry.AgeDriversStep | sim.py:318-323 | cleanup treats each driver on its own in the same way |
| Expiry.RiderLifetime | sim.py:311-316 | an unmatched rider survives exactly MAX_WAIT - 1 cleanups, and after n of them has waited n minutes |
| MarketRules.RiderRateValues | sim.py:13-15 | the rider arrival mean is BASE_LAM + SURGE_LAM inside the surge windows [50,100], [200,230], [350,380] and BASE_LAM outside them |
| MarketRules.RiderArrivalRate | sim.py:177-182 | the loop over the surge windows computes that mean |
| MarketRules.DriverRate | sim.py:223-224 | the driver arrival mean is 0.2 times the curve factor, capped at 5.0 |
| MarketRules.Admitted | sim.py:186 | the number admitted is never negative, never fills a cell past its cap, and is the whole draw when that fits and otherwise what fills the cell |
| MarketRules.CellOf | sim.py:171-172 | row-major position q names the in-grid cell whose position is q |
| MarketRules.CellPressure | sim.py:190-191 | a cell's pressure over its 3×3 square is positive |
| MarketRules.Tally | sim.py:190-195 | the counters as they stand when a rider arrives are the starting counters raised once for each rider filed before it; they keep the counters' size and stay non-negative |
| MarketRules.TallyFrame | sim.py:190-195 | the counts depend only on the riders counted |
| MarketRules.TallyJoin | sim.py:171-196 | counting the riders of a round in two stretches counts them all |
| MarketRules.RidersPricedFrame | sim.py:190-194 | riders keep their prices in any registry that holds them unchanged |
| MarketRules.RidersPricedAdd | sim.py:190-195 | a rider filed under the next id and priced from the counters as they stand extends the priced arrivals by one |
| MarketRules.RidersPricedJoin | sim.py:171-196 | prices counted from the round's start and prices counted from part way join up |
| MarketRules.RidersBornAdd | sim.py:189-195 | one more rider in a cell no earlier than the others extends the arrivals and raises its cell's count by one |
| MarketRules.RidersBornJoin | sim.py:171-196 | the arrivals of the next cell appended to those of the cells before it are the arrivals of the round so far |
| MarketRules.RoundBornStep | sim.py:171-196 | the arrivals of cell q advance the rider round by one cell |
| MarketRules.CellArrivalsStep | sim.py:189-195 | the next rider of a cell, priced from the counters as they stand, advances the cell's arrivals and its counter |
| MarketRules.DriversBornJoin | sim.py:216-232 | the next cell's drivers, all at its one pressure, appended to those before it, are the driver arrivals so far |
| MarketRules.DriverPressuresStep | sim.py:216-222 | the next cell's pressure, from the counters as the pass reaches it, extends the record of pressures by one cell |
| MarketRules.CellDriversArrive | sim.py:218-232 | a cell with room that admits its clamped draw, priced at its one pressure, has its arrivals |
| MarketRules.DriverRoundBornStep | sim.py:216-232 | the next cell's arrivals advance the driver round by one cell |
| Market.RiderRoundDone | sim.py:169-196 | a rider round that has reached every cell is a whole arrival round |
| Market.DriverRoundDone | sim.py:214-232 | a driver round that has reached every cell is a whole driver round, with a positive pressure and its rate for every cell |
| MarketRules.PressureRows | sim.py:199-207 | the sum of all cells' pressures is positive once there are cells |
| MarketRules.TargetsNearest | sim.py:249-261 | a rider's targets are eligible drivers and there are min(3, eligible) of them; none is farther than an eligible driver left out, and a tie at equal distance goes to the driver registered earlier |
| MarketRules.TargetsCount | sim.py:258-259 | the number of targets is min(3, number of eligible drivers) |
| MarketRules.TargetsTieOrder | sim.py:258-259 | a target chosen over an equally distant driver left out was registered before it |
| MarketRules.Filed | sim.py:260 | filing a request changes only the driver's inbox, as InboxPut does |
| MarketRules.Noted | sim.py:261 | noting targets changes only the rider's request set, which gains them |
| MarketRules.BroadcastStep | sim.py:259-260 | broadcasting to one more driver files the request in that driver's inbox too |
| MarketRules.BroadcastKeepsCells | sim.py:259-260 | broadcasting moves no driver between cells |
| MarketRules.PutAllHas | sim.py:260 | after filing a list of requests, an inbox holds a rider exactly when it did before or the rider was filed |
| MarketRules.BroadcastsStep | sim.py:266-269 | matching one more rider broadcasts its request to its targets in the drivers' state left by the riders before it |
| MarketRules.MatchStep | sim.py:266-269 | each rider's turn of matching moves both registries one step along the specification of the whole pass |
| MarketRules.CountsNonNeg | sim.py:119-120 | occupancy counters that match the registries are never negative |
| MarketRules.StateAddRider | sim.py:194-195 | registering a new rider and raising its cell's counter keeps registries, inboxes and counters consistent |
| MarketRules.StateAddDriver | sim.py:230-231 | registering a new driver and raising its cell's counter keeps the state consistent |
| MarketRules.StateRemoveRider | sim.py:301-303 | deleting a rider and lowering its cell's counter keeps the state consistent |
| MarketRules.StateRemoveDriver | sim.py:300-302 | deleting a driver and lowering its cell's counter keeps the state consistent |
| MarketRules.StateBroadcast | sim.py:259-260 | filing an affordable request in drivers' inboxes keeps the state consistent |
| MarketRules.DivideAtLeast | sim.py:160 | dividing a total of at least count × bound by a positive count gives at least the bound |
| Market.SpawnMetrics | sim.py:197-233 | the two spawning phases together append one entry to ridersSpawned, driversSpawned and pressureList |
| Market.CloseMetrics | sim.py:325-340 | cleanup and the end of the minute together append one entry to each of the other five series |
| Market.TickMetrics | sim.py:331-341 | a whole minute appends exactly one entry to each of the eight series |
| Market.BidsAt | sim.py:297-298 | a cell receives at most one bid per trade |
| Market.AsksAt | sim.py:297-298 | a cell receives exactly one ask for each bid it receives |
| Market.PricesAtSnoc | sim.py:297-298 | one more trade adds its bid and ask to the cell it was made in and to no other cell |
| Market.PricesAtJoin | sim.py:274-285 | the prices a cell receives over two stretches of trading are those of the first stretch, then those of the second |
| Market.PricesAtFair | sim.py:86-95 | when every trade's ask is at most its bid, every cell's received bids and asks pair up fairly |
| Market.Logged | sim.py:86-95 | the record keeps one history per cell, each the old history followed by that side's prices of the trades made in that cell |
| Market.LoggedNone | sim.py:274-285 | a round with no trades leaves every history as it was |
| Market.LoggedTrade | sim.py:297-298 | histories that are the record of the earlier trades, except that the new trade's cell gained its price, are the record of the earlier trades and the new one |
| Market.LoggedFrom | sim.py:86-95 | histories in which each cell gained exactly the prices of the trades made in it are the record `Logged` |
| Market.Simulation.constructor | sim.py:111-130 | a new simulation is at time 0 with empty registries, zero counters, empty series and blank cells, and is consistent and fair |
| Market.Simulation.InitialOk | sim.py:111-130 | the starting state is consistent, aligned and fair |
| Market.Simulation.Bump | sim.py:195 | only the given counter changes, by the given amount |
| Market.Simulation.AddRider | sim.py:194-195 | the rider joins the registry at the end of its order, its bid is remembered, the next id advances, and its cell's counter rises by one |
| Market.Simulation.AddDriver | sim.py:230-231 | the driver joins at the end of its order, the next id advances, and its cell's counter rises by one |
| Market.Simulation.RemoveRider | sim.py:301-303 | the rider leaves the registry and its order, and its cell's counter drops by one |
| Market.Simulation.RemoveDriver | sim.py:300-302 | the driver leaves the registry and its order, and its cell's counter drops by one |
| Market.Simulation.ReplaceRider | sim.py:261 | only that rider's entry changes |
| Market.Simulation.ReplaceDriver | sim.py:260 | only that driver's entry changes |
| Market.Simulation.CountersNonNeg | sim.py:119-120 | the occupancy counters are never negative |
| Market.Simulation.OrdersList | sim.py:113-114 | each registry order lists its registry's keys, each once |
| Market.Simulation.LocalPressure | sim.py:135-143 | the rider and driver totals are the counter sums over the in-grid cells of the square of radius r |
| Market.Simulation.CellPriceAtLeast | sim.py:100-104 | every cell's average bid is at least 0.3 and its average ask at least 0.2 |
| Market.Simulation.Averages | sim.py:145-160 | one price average per cell, in row-major order, each the window average around that cell |
| Market.Simulation.AveragesKept | sim.py:145-160 | a change that leaves the market memory alone leaves every cell's price average of that side as it was; the averages the riders and drivers are priced with are those at the start of the phase |
| Market.Simulation.MemoryKept | sim.py:86-95 | a change that leaves the market memory alone keeps both sides' averages and every cell's bid and ask histories as they were |
| Market.Simulation.PriceWindowAtLeast | sim.py:145-158 | a window's price total is at least the floor times the number of in-grid cells in it |
| Market.Simulation.RowPrices | sim.py:148-158 | one row of the window adds that row's in-grid cell prices and counts them |
| Market.Simulation.LocalPriceAvg | sim.py:145-160 | the result is the window's price total divided by max(1, cell count), and never below the side's floor |
| Market.Simulation.CellPressureNow | sim.py:203-205 | the cell's current pressure, which is positive |
| Market.Simulation.AveragePressure | sim.py:199-207 | the mean pressure over all 25 cells, which is positive |
| Market.Simulation.RowPressure | sim.py:201-206 | one row's pressures summed and its cells counted |
| Market.Simulation.SpawnRiders | sim.py:169-208 | the rider counters are refilled by each cell's quota, and the riders filed under the new consecutive ids are exactly the arrivals: in row-major cell order, each NewRider at this minute in its cell, at its cell's bid average and at the pressure of the counters as they stood when it arrived, with its own noise draw (`RidersArrived`); ridersSpawned and pressureList gain the count and the mean pressure; the key order is the old one followed by the new ids in increasing order (`Appended`) |
| Market.Simulation.RecordRiderSpawns | sim.py:197-208 | ridersSpawned gains the count and pressureList the mean pressure after arrivals |
| Market.Simulation.SpawnRiderRound | sim.py:170-196 | one pass over the cells is the whole arrival round `RidersArrived` describes, and it reports how many riders arrived; the key order is the old one followed by the new ids in increasing order (`Appended`) |
| Market.Simulation.SpawnRidersAt | sim.py:173-196 | one cell's counter rises by its quota, zero for a full cell and otherwise the draw capped by the room left; the new riders all stand in that cell, each priced as it arrived (`RidersBorn`), and the counters count each of them; the key order is the old one followed by the new ids in increasing order (`Appended`) |
| Market.Simulation.SpawnRidersN | sim.py:189-196 | n riders arrive in one cell under fresh consecutive ids, the k-th of them priced from the counters raised by the k-1 before it (`RidersBorn`, `Tally`); the key order is the old one followed by the new ids in increasing order (`Appended`) |
| Market.Simulation.SpawnRider | sim.py:190-196 | the new rider is NewRider at the cell's current pressure and local average bid with its own noise draw, and it is registered and counted, at the end of the key order |
| Market.Simulation.SpawnArrival | sim.py:189-196 | one more arrival in cell p keeps the cell's arrivals in step (`CellArrivals`): the new rider is priced from the counters as they stand and counted; the key order is the old one followed by the new ids in increasing order (`Appended`) |
| Market.Simulation.RiderFor | sim.py:190-193 | the rider that would arrive now: its price inputs are the local average bid (at least the floor) and the positive pressure |
| Market.Simulation.SpawnDrivers | sim.py:214-233 | each cell saw the pressure of the rider counters and of the driver counters as the pass reached it (`DriverPressures`), its counter rises by the draw at the capped rate for that pressure, admitted up to the cap (`DriversRefilled`), and every driver filed under a new id is NewDriver in its cell at that pressure and the cell's ask average, in row-major cell order (`DriversBorn`); driversSpawned gains the count; the driver key order is the old one followed by the new ids in increasing order (`Appended`) |
| Market.Simulation.SpawnDriverRound | sim.py:215-232 | one pass over the cells is the whole driver round `DriversArrived` describes, with each cell's pressure and rate reported, and it reports how many drivers arrived; the driver key order is the old one followed by the new ids in increasing order (`Appended`) |
| Market.Simulation.RecordDriverSpawns | sim.py:233 | driversSpawned gains the count and nothing else in the series changes |
| Market.Simulation.SpawnDriversAt | sim.py:218-232 | one cell sees the pressure of the counters as they stand, draws at the capped rate for it, admits what fits, and every new driver is NewDriver in that cell at that one pressure and the cell's ask average (`CellDriversArrived`); the driver key order is the old one followed by the new ids in increasing order (`Appended`) |
| Market.Simulation.SpawnDriversN | sim.py:227-232 | n drivers arrive in one cell under fresh consecutive ids, each NewDriver at the given pressure and the cell's ask average with its own noise draw (`DriversArrivingAt`); the driver key order is the old one followed by the new ids in increasing order (`Appended`) |
| Market.Simulation.SpawnDriver | sim.py:228-232 | the new driver is NewDriver at the given pressure and local average ask, and it is registered and counted, at the end of the key order |
| Market.Simulation.SpawnDriverArrival | sim.py:227-232 | one more arrival in cell p keeps every driver filed since the cell began at the cell's one pressure and ask average; the driver key order is the old one followed by the new ids in increasing order (`Appended`) |
| Market.Simulation.DriversArrivedAt | sim.py:218-232 | a finished run of as many arrivals as the cell's clamped draw is the cell's arrivals of `CellDriversArrived` |
| Market.Simulation.DriverFor | sim.py:228-229 | the driver that would arrive now, priced from the local average ask (at least the floor) |
| Market.Simulation.Candidates | sim.py:250-256 | the candidate list is the eligible drivers in registry order, keyed by distance |
| Market.Simulation.ChooseTargets | sim.py:258-259 | the chosen drivers are exactly the rider's targets, and each can be afforded |
| Market.Simulation.Deliver | sim.py:259-260 | the request is filed with each chosen driver |
| Market.Simulation.SendRequests | sim.py:249-261 | the request is filed in each target's inbox and the rider notes those targets; nothing else changes |
| Market.Simulation.Install | sim.py:259-260 | the drivers' registry becomes the broadcast result and stays consistent |
| Market.Simulation.Matching | sim.py:266-269 | after matching, both registries are the result of every unmatched rider, in registry order, broadcasting to its targets |
| Market.Simulation.RecordAt | sim.py:297-298 | the bid and ask are appended to that cell's histories, every other cell's histories are unchanged, and fairness survives when ask ≤ bid |
| Market.Simulation.CompleteMatch | sim.py:290-303 | both agents leave their registries and orders, the driver's cell gains the rider's bid and the driver's ask, every other cell's histories are unchanged, and fairness survives when ask ≤ bid |
| Market.Simulation.RecordedTrade | sim.py:297-298 | histories that were the record of the earlier trades, of which only the new trade's cell gained its bid and ask, are the record of the earlier trades and the new one |
| Market.Simulation.Unregister | sim.py:300-303 | both agents leave their registries, orders and counters |
| Market.Simulation.TakeBest | sim.py:281-283 | the driver trades with its best request's rider, both leave, the trade log gains that trade, the driver's cell gains exactly its bid and ask and no other cell changes, so the histories stay the record of the log |
| Market.Simulation.ChooseOne | sim.py:276-283 | one driver's turn moves the state exactly as the pure Choose does, keeps the orders filtered, keeps every trade fair, and leaves every cell's histories the starting ones followed by the prices of the trades made there so far |
| Market.Simulation.AgeInbox | sim.py:279 | a driver that passes its turn only has its inbox aged; the market histories are unchanged |
| Market.Simulation.DriverChoices | sim.py:274-285 | the whole pass is ChooseAll over the drivers sorted by ask at the start, every trade stays fair, and every cell's bid and ask histories are the old ones followed by the bids and asks of the trades made in it, in trade order; each key order is the old one with only the surviving keys left, in their old order |
| Market.Simulation.ChooseTurns | sim.py:275-285 | the turns in any given order move the state as ChooseAll does, and every cell's histories gain exactly the prices of the trades made in it, in trade order; each key order is the old one with only the surviving keys left, in their old order |
| Market.Simulation.Cleanup | sim.py:308-326 | every agent waits one more minute, those reaching MAX_WAIT leave, the counts dropped are the registry shrinkage, and both dropped series gain them |
| Market.Simulation.ExpireRider | sim.py:312-316 | a rider is dropped exactly when its new wait reaches MAX_WAIT, and otherwise only ages |
| Market.Simulation.ExpireRiders | sim.py:311-316 | the rider registry becomes AgeRiders of the old one, and the count dropped is its shrinkage |
| Market.Simulation.ExpireDriver | sim.py:319-323 | a driver is dropped exactly when its new wait reaches MAX_WAIT, and otherwise only ages |
| Market.Simulation.ExpireDrivers | sim.py:318-323 | the driver registry becomes AgeDrivers of the old one, and the count dropped is its shrinkage |
| Market.Simulation.BidSumAtLeast | sim.py:340 | the sum of the cells' average bids is at least 0.3 per cell |
| Market.Simulation.AverageRate | sim.py:340 | the mean of the 25 cells' average bids, which is at least the 0.3 floor |
| Market.Simulation.SpawnPhase | sim.py:332-333 | the riders, then the drivers, arrive as `Arrived` says: the rider round against the old driver counters, then the driver round against the refilled rider counters, each new id holding its exact NewRider or NewDriver; the three arrival series gain the counts and the mean pressure; the market histories are unchanged; each key order is the old one followed by the new ids in increasing order (`Appended`) |
| Market.Simulation.TradePhase | sim.py:334-335 | the registries move as matching followed by cheapest-first driver choices, every trade stays fair, and every cell's bid and ask histories gain exactly the prices of the trades made in it (`Logged`); each key order is the old one with only the surviving keys left, in their old order |
| Market.Simulation.ExpirePhase | sim.py:336 | every agent ages and the expired ones leave, the dropped series gain the counts, and the market histories are unchanged; each key order is the old one with only the surviving keys left, in their old order |
| Market.Simulation.CloseTick | sim.py:338-341 | the counts and the mean average bid are appended, time advances by one, and the market histories are unchanged |
| Market.Simulation.RecordTick | sim.py:338-341 | the three end-of-minute series gain the registry sizes and the rate, and time advances |
| Market.Simulation.EndTick | sim.py:336-341 | cleanup and the close of the minute together: agents age, five series gain their values, and the market histories are unchanged; each key order is the old one with only the surviving keys left, in their old order |
| Market.Simulation.Settle | sim.py:334-341 | trading, cleanup and the close of the minute, composed from their specifications; every cell's histories gain exactly the prices of the trades made in it; each key order is the old one thinned to the keys left at the end (`Thinned`) |
| Market.Simulation.Step | sim.py:331-341 | one minute: the arrivals of `Arrived`, with every new rider and driver given exactly, then the trades of matching and choices, then ageing; every cell's bid and ask histories gain exactly the prices of that minute's trades made in it (`Logged`); each of the eight series gains exactly its value; time advances; fairness and consistency are kept; the key orders after arrivals are the old ones followed by the new ids in increasing order (`Appended`), and the final orders are those thinned to the surviving keys (`Thinned`) |
| Graphs.OutFromExact | routing/src/graph.cpp:31 | a node's adjacency list holds exactly the positions of the edges leaving it, each once |
| Graphs.OutFromAscending | routing/src/graph.cpp:31 | a node's adjacency list holds edge positions in ascending order, the order the edges were added |
| Graphs.Pairs | routing/include/graph.h:43-45 | a neighbour list pairs each outgoing edge's target with its weight |
| Graphs.FirstWithId | routing/src/graph.cpp:36-41 | the first edge carrying the id, or none when no edge does |
| Graphs.ReweighedKeeps | routing/src/graph.cpp:27-39 | reweighing changes only the weight of the first edge with that id, and every adjacency list sees the new weight through the shared edge |
| Graphs.Graph.constructor | routing/include/graph.h:26 | a new graph has no nodes and no edges |
| Graphs.Graph.AddNode | routing/src/graph.cpp:6-15 | one node with no edges is appended and the edges are unchanged |
| Graphs.Graph.AddEdge | routing/src/graph.cpp:17-32 | the edge is appended, its source node lists it last, and every other node is unchanged |
| Graphs.Graph.UpdateEdgeWeight | routing/src/graph.cpp:34-43 | the first edge with the id gets the new weight; with no such edge, nothing changes |
| Graphs.Graph.Neighbors | routing/include/graph.h:41-47 | the pairs of target and weight of exactly the edges leaving the node, in insertion order |
| GraphBuilder.SpeedMps | routing/src/graphbuilder.cpp:87-88 | the speed limit in m/s, with 30 km/h for a way without one; always positive |
| GraphBuilder.UsageMentioned | routing/src/graphbuilder.cpp:13-16 | a node is used by some way exactly when some way mentions it |
| GraphBuilder.FindIntersections | routing/src/graphbuilder.cpp:11-20 | the table holds exactly the mentioned nodes, each with the number of times the ways mention it |
| GraphBuilder.RoutingExact | routing/src/graphbuilder.cpp:60-71 | a node is a routing node exactly when it starts or ends a non-empty way or is used more than once |
| GraphBuilder.RoutingNodes | routing/src/graphbuilder.cpp:60-71 | the routing set is computed from the usage table, with a listing of its members |
| GraphBuilder.AssignIndices | routing/src/graphbuilder.cpp:74-81 | the k-th routing node becomes graph node k with its coordinates, and the index maps it to k |
| GraphBuilder.NumberedInOrder | routing/src/graphbuilder.cpp:74-81 | that numbering covers every routing node and places each at its coordinates |
| GraphBuilder.RoutingKnown | routing/src/graphbuilder.cpp:77-99 | every routing node and every way's ends are known nodes |
| GraphBuilder.ScanChain | routing/src/graphbuilder.cpp:93-125 | the walk from a routing node emits one segment per later routing node, each joining it to the routing node before |
| GraphBuilder.SegmentsCoverWay | routing/src/graphbuilder.cpp:93-125 | with the walk starting at the way's first node, the segment lengths add up to the whole way's length |
| GraphBuilder.AsWrittenDropsFirst | routing/src/graphbuilder.cpp:90-104 | the walk as written, starting from no routing node, emits the intended segments except the first |
| GraphBuilder.TwoNodeWay | routing/src/graphbuilder.cpp:90-104 | on a way of two routing nodes, the walk as written emits nothing, where the intended walk emits one segment |
| GraphBuilder.SegmentEdges | routing/src/graphbuilder.cpp:105-119 | a segment of a forward way gives one edge forward, of a backward way one edge backward, and of a two-way way both, each weighted length / speed |
| GraphBuilder.EmitSegment | routing/src/graphbuilder.cpp:105-119 | the segment's edges are appended and no node moves |
| GraphBuilder.WalkStep | routing/src/graphbuilder.cpp:94-125 | one step of the walk adds the hop's length and emits a segment exactly at a routing node |
| GraphBuilder.AddWayEdges | routing/src/graphbuilder.cpp:84-127 | a way adds exactly the edges of its segments, walked from its first node (see Findings) |
| GraphBuilder.AddAllWays | routing/src/graphbuilder.cpp:84-127 | the edges are those of every way, in way order, each way walked from its first node (the corrected walk, see Findings) |
| GraphBuilder.BuildRaw | routing/src/graphbuilder.cpp:53-127 | the graph before filtering numbers the routing nodes and holds the edges of every way, from the corrected walk (see Findings) |
| GraphBuilder.BuildGraph | routing/src/graphbuilder.cpp:53-132 | the result is the raw graph, with edges from the corrected walk (see Findings), restricted to its first largest component, where each component is exactly the nodes its seed reaches that no earlier component holds |
| GraphFilter.Enqueue | routing/src/graphbuilder.cpp:152-157 | the queue grows by exactly the targets not yet visited, each once, in adjacency order (`Fresh`); exactly the targets become visited; every queued node is reachable from the seed; earlier owners are kept |
| GraphFilter.FreshExact | routing/src/graphbuilder.cpp:152-157 | the nodes the scan queues are exactly the scanned targets that were not visited, and none is queued twice |
| GraphFilter.Expand | routing/src/graphbuilder.cpp:148-158 | the head node's unvisited targets are queued in adjacency order and marked, every queued node stays reachable from the seed, and the breadth-first order `Bfs` from the new state is the one from the old state |
| GraphFilter.Drain | routing/src/graphbuilder.cpp:148-159 | the nodes taken from the queue are exactly the breadth-first order `Bfs` from the starting queue, still headed by the seed, each reachable from it |
| GraphFilter.Search | routing/src/graphbuilder.cpp:141-161 | one search from an unvisited seed adds the component `Bfs` from the seed over the nodes not yet visited: it starts with the seed, every node of it is reachable from the seed, and only unowned nodes join it |
| GraphFilter.SearchFrom | routing/src/graphbuilder.cpp:140-162 | a visited node adds no component; an unvisited one adds the breadth-first order from it over the unvisited nodes; the components stay in search order |
| GraphFilter.FindComponents | routing/src/graphbuilder.cpp:139-162 | the components partition the nodes, each non-empty, in order of their seeds; no edge leads to a later component; every node before a seed belongs to an earlier component; each component is exactly the nodes its seed reaches that no earlier component holds, listed in breadth-first order from the seed |
| GraphFilter.DownstreamWalk | routing/src/graphbuilder.cpp:148-158 | a walk of any length never moves to a later component than the one it starts in |
| GraphFilter.Done | routing/src/graphbuilder.cpp:139-162 | once every node is visited, the components partition the nodes and each is exactly the nodes its seed reaches that no earlier component holds |
| GraphFilter.EdgelessSingletons | routing/src/graphbuilder.cpp:139-162 | in a graph without edges every component is its seed alone |
| GraphFilter.Largest | routing/src/graphbuilder.cpp:164-174 | the index is the first component of largest size, or -1 when every component is empty |
| GraphFilter.AddRenumberedNodes | routing/src/graphbuilder.cpp:180-192 | the k-th node of the component becomes node k at its original coordinates |
| GraphFilter.KeepIfInside | routing/src/graphbuilder.cpp:199-205 | an edge is kept exactly when its target is in the component |
| GraphFilter.AddNodeEdges | routing/src/graphbuilder.cpp:196-206 | a node's internal edges are kept, renumbered |
| GraphFilter.RenumbersInverse | routing/src/graphbuilder.cpp:184-185 | the renumbering maps each kept node back to its position in the component |
| GraphFilter.AddInternalEdges | routing/src/graphbuilder.cpp:194-207 | exactly the edges with both ends in the component are kept, each once, with the new end numbers, their weight and ids 0, 1, 2, … |
| GraphFilter.Restrict | routing/src/graphbuilder.cpp:179-207 | the component's graph: its nodes renumbered in order at their coordinates, then its internal edges |
| GraphFilter.FilterLargestComponent | routing/src/graphbuilder.cpp:134-210 | the graph restricted to its first largest component, where each component is exactly the nodes its seed reaches that no earlier component holds, in breadth-first order; the empty graph when the input has no nodes |
| AStar.MinIndex | routing/src/astar.cpp:46-54 | the entry taken from the open list has the least f-cost |
| AStar.Reverse | routing/src/astar.cpp:90 | the path reversed, element by element |
| AStar.WalkStaysInside | routing/src/astar.cpp:61-73 | a walk that starts in a set closed under edges stays in it |
| AStar.NoWalk | routing/src/astar.cpp:78-81 | no walk from the start reaches the goal when the goal lies outside a set closed under edges that holds the start |
| AStar.Initial | routing/src/astar.cpp:41-50 | the starting state (g infinite except 0 at the start, no parents, nothing closed, the start queued) satisfies the search invariant |
| AStar.PopClosed | routing/src/astar.cpp:56 | discarding an entry for a closed node keeps the invariant |
| AStar.PopOpen | routing/src/astar.cpp:53-59 | closing the popped node keeps the invariant and records it in the closing order |
| AStar.RelaxEdge | routing/src/astar.cpp:62-72 | relaxing one edge keeps the invariant; a closed target, or one not strictly cheaper through the current node, leaves costs, parents and the open list unchanged; otherwise the target's cost becomes the cost through the current node, its parent becomes the current node, and one entry is queued after all the others with that node, that cost, that cost plus the heuristic, and the current node as parent |
| AStar.Expand | routing/src/astar.cpp:61-73 | relaxing all edges of the current node keeps the invariant; no cost rises, every changed cost is strictly lower, and every closed node keeps its cost and parent |
| AStar.Explore | routing/src/astar.cpp:52-74 | the main loop ends with the goal closed or the open list empty, keeping the invariant; no cost rises, every changed cost is strictly lower, and a node closed at the start stays closed with its cost and parent |
| AStar.Outcome | routing/src/astar.cpp:76-82 | at the end, the goal has a finite cost exactly when it was closed, and an infinite cost means the open list ran dry |
| AStar.Exhausted | routing/src/astar.cpp:78-81 | when the goal's cost is infinite, the nodes reached contain the start, not the goal, and are closed under edges |
| AStar.TraceStart | routing/src/astar.cpp:85-87 | reconstruction starts from the closed goal |
| AStar.TraceStep | routing/src/astar.cpp:86-88 | following a parent link goes to a node closed earlier along a real edge |
| AStar.TraceEnd | routing/src/astar.cpp:86-92 | the parent chain ends at the start, and the goal's cost is the cost of the traced edges |
| AStar.TracePath | routing/src/astar.cpp:84-90 | the reconstructed path runs from start to goal along edges, and the goal's cost is its cost |
| AStar.ShortestPath | routing/src/astar.cpp:37-94 | the cost is infinite exactly when the path is empty, and then no walk reaches the goal; otherwise the path runs from start to goal along edges and the cost is its length |
| Router.NodeDistances | routing/src/router.cpp:77-79 | one distance per node, in node order |
| Router.EdgeDistances | routing/src/router.cpp:95-97 | one distance per edge, in edge order |
| Router.NearestUnique | routing/src/router.cpp:73-86 | the nearest position, as defined, is unique |
| Router.FirstBetween | routing/src/router.cpp:144-145 | the first edge from `from` to `to`, or none when there is no such edge |
| Router.ReweighPosition | routing/src/router.cpp:127 | when ids are positions, reweighing the id of an edge's position changes exactly that edge |
| Router.KeptIdsArePositions | routing/src/graphbuilder.cpp:194-204 | in a graph from the component filter, every edge's id is its position |
| Router.RoutingEngine.constructor | routing/src/router.cpp:70-71 | the engine holds the graph it is given |
| Router.RoutingEngine.FindNearestNode | routing/src/router.cpp:73-86 | the first node at the least distance below DBL_MAX, or -1 when there is none |
| Router.RoutingEngine.FindNearestEdge | routing/src/router.cpp:89-106 | the first edge at the least segment distance below DBL_MAX, or -1 when there is none |
| Router.RoutingEngine.Route | routing/src/router.cpp:108-120 | -1.0 when either end snaps to no node; otherwise the A* result between the two nearest nodes: a walk of that cost, or infinity with no walk possible |
| Router.RoutingEngine.UpdateEdgeNear | routing/src/router.cpp:122-129 | with no nearest edge nothing changes; otherwise the nearest edge's position is passed as an id to the weight update, which is that edge itself when ids are positions |
| Router.RoutingEngine.UpdateEdgeById | routing/src/router.cpp:131-139 | an id outside 0..edges-1 changes nothing; otherwise the first edge with that id is reweighed |
| Router.RoutingEngine.UpdateEdgeBetween | routing/src/router.cpp:141-151 | the first edge from `from` to `to` has its id reweighed, and nothing changes when there is none |

## Left out

- Floating point: every `double` and Python float is a `real`. Rounding, overflow and NaN are not modelled. The `DBL_MAX` starting distance of the router is its exact value.
- Randomness: `np.random.poisson` and `np.random.normal` are the functions of a `Draws` parameter. They take the mean and the cell, or the agent's id.
- Powers: `pressure ** -KB`, `pressure ** -KA` and `pressure ** -KD` are the functions of a `PriceCurve` parameter. The bid, the ask and the driver rate are stated in terms of them.
- Distances: the haversine distance, `point_to_segment_distance` and the A* heuristic are function parameters. Their formulas, including `to_xy`, are not modelled.
- Ranking: requests are ranked by ascending Manhattan distance, not by descending `exp(-DIST_DECAY * dist)`. The two orders agree because the exponential is decreasing.
- `avg_rate` and `recent` (sim.py:81, 97-98): never filled or read by the simulation, so not modelled.
- Not modelled: `run`, the plotting code and the console output of `update_edge`.
- Not part of this model: the OSM parser, `matching.cpp`, `main.cpp`, `router_api.cpp` and the Python test.
- `is_endpoint` (graphbuilder.cpp:46-48) is never called and is not modelled.
- The `Direction` overloads declared in router.h have no definition in router.cpp and are not modelled.
- Hash containers: the iteration order of `unordered_map` and `unordered_set` is unspecified.
  - Routing nodes get any enumeration order of the set.
  - The usage table is a `map` with a listing of its keys.
- Throwing lookups: calls of `at()` that would throw are excluded by preconditions. The nodes of every way must be known.
- AStar.ShortestPath: the priority queue's tie order is modelled as the first entry of least f-cost. `std::priority_queue` leaves ties unspecified.
- AStar.ShortestPath: states a walk of the returned cost, or that no walk exists. It does not claim the path is shortest. That would need an admissible heuristic, and the heuristic is a parameter here.
- Router.RoutingEngine.constructor: the engine holds a reference to the graph, where the source moves the graph into the engine.
- Shared edges: nodes hold positions into the edge list instead of shared pointers. Weight changes are seen through both views, as the shared pointers make them.
- Router.RoutingEngine.UpdateEdgeNear: keeps the source's behaviour of passing an edge position where an id is expected. It is proved equivalent only for graphs whose edge ids are positions. `KeptIdsArePositions` shows the component filter produces such graphs.
- GraphBuilder.AddAllWays: walks each way with the corrected walk of Findings. The walk as written, which drops each way's first segment, is stated only by `AsWrittenDropsFirst` and `TwoNodeWay`.
- GraphBuilder.BuildRaw: its edges come from the corrected walk, as for `AddAllWays`.
- GraphBuilder.BuildRaw: keeps each way id unchanged as the edge id. The source reads way ids as 64-bit values (routing/include/osm_parser.h:25) and passes them to `add_edge`, whose id is an `int` (routing/include/graph.h:28), so ids above 2^31 - 1 are narrowed. The raw ids do not reach the final graph, since `FilterLargestComponent` renumbers the kept edges.
- GraphBuilder.SegmentEdges: keeps the way id unchanged, as for `BuildRaw`.
- GraphBuilder.EmitSegment: keeps the way id unchanged, as for `BuildRaw`.
- GraphBuilder.BuildGraph: its edges come from the corrected walk, as for `AddAllWays`.
- GraphFilter.FilterLargestComponent: states which edges are kept, each once, with ids 0, 1, 2, … in keeping order. It does not state that they are kept in order of their source node.
- Market.Simulation.Step: the states between the phases are ghost outputs, not fields. The roster after arrivals is stated through `Arrived`. Its key orders are stated through `Appended`. The registries and trades after trading are stated through `Traded`, and the final ones through `AllAged` and `Thinned`.

## Findings

| source | as written | input that shows it | evidently intended | confidence | as-written member | corrected member |
|---|---|---|---|---|---|---|
| routing/src/graphbuilder.cpp:90 | `prev_routing_node` starts at -1, and line 104 emits a segment only once it is set. The first node of a way is never taken as the previous routing node, so the segment from it to the next routing node is dropped. | A way [a, b] with a and b both routing nodes and `oneway` No: the walk adds no edges. | The walk starts at the way's first node, which is always a routing node, so [a, b] gives the two edges a→b and b→a, and every way's segments cover its whole length. | not executed | GraphBuilder.TwoNodeWay, GraphBuilder.AsWrittenDropsFirst | GraphBuilder.AddWayEdges, GraphBuilder.SegmentsCoverWay |
