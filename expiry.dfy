/**
 * End-of-tick expiry: every waiting agent waits one tick more, and an agent whose wait
 * reaches MAX_WAIT leaves its registry.
 */
module Expiry {
  import opened Agents

  /** A rider one tick further into its wait. */
  function RiderTick(r: Rider): (o: Rider)
    ensures o.wait == r.wait + 1 && o == r.(wait := o.wait)
  {
    r.(wait := r.wait + 1)
  }

  /** A driver one tick further into its wait. */
  function DriverTick(d: Driver): (o: Driver)
    ensures o.wait == d.wait + 1 && o == d.(wait := o.wait)
  {
    d.(wait := d.wait + 1)
  }

  /**
   * The riders once the agents in `done` have had their turn: those whose new wait has
   * expired are gone, the others wait one tick more; riders not in `done` are as they were.
   */
  function AgeRiders(riders: map<nat, Rider>, done: set<nat>): (r: map<nat, Rider>)
    ensures r.Keys <= riders.Keys
  {
    map k | k in riders && (k in done ==> !Expired(riders[k].wait + 1)) ::
      if k in done then RiderTick(riders[k]) else riders[k]
  }

  /** The drivers once the agents in `done` have had their turn, likewise. */
  function AgeDrivers(drivers: map<nat, Driver>, done: set<nat>): (r: map<nat, Driver>)
    ensures r.Keys <= drivers.Keys
  {
    map k | k in drivers && (k in done ==> !Expired(drivers[k].wait + 1)) ::
      if k in done then DriverTick(drivers[k]) else drivers[k]
  }

  /** Before anyone's turn, the registries are as they were. */
  lemma AgeNone(riders: map<nat, Rider>, drivers: map<nat, Driver>)
    ensures AgeRiders(riders, {}) == riders && AgeDrivers(drivers, {}) == drivers
  {
  }

  /** The riders a whole expiry pass keeps: exactly those whose wait, one tick on, is below MAX_WAIT. */
  lemma RiderSurvivors(riders: map<nat, Rider>)
    ensures forall k :: k in AgeRiders(riders, riders.Keys) <==> k in riders && riders[k].wait + 1 < MAX_WAIT
    ensures forall k :: k in AgeRiders(riders, riders.Keys) ==>
              AgeRiders(riders, riders.Keys)[k] == RiderTick(riders[k])
    ensures forall k :: k in AgeRiders(riders, riders.Keys) ==> AgeRiders(riders, riders.Keys)[k].wait < MAX_WAIT
  {
  }

  /** The drivers a whole expiry pass keeps, likewise. */
  lemma DriverSurvivors(drivers: map<nat, Driver>)
    ensures forall k :: k in AgeDrivers(drivers, drivers.Keys) <==> k in drivers && drivers[k].wait + 1 < MAX_WAIT
    ensures forall k :: k in AgeDrivers(drivers, drivers.Keys) ==>
              AgeDrivers(drivers, drivers.Keys)[k] == DriverTick(drivers[k])
    ensures forall k :: k in AgeDrivers(drivers, drivers.Keys) ==> AgeDrivers(drivers, drivers.Keys)[k].wait < MAX_WAIT
  {
  }

  /** One more rider's turn: it is dropped if its wait expires, and aged otherwise. */
  lemma AgeRidersStep(riders: map<nat, Rider>, done: set<nat>, k: nat)
    requires k in riders && k !in done
    ensures k in AgeRiders(riders, done) && AgeRiders(riders, done)[k] == riders[k]
    ensures AgeRiders(riders, done + {k})
         == if Expired(riders[k].wait + 1) then AgeRiders(riders, done) - {k}
            else AgeRiders(riders, done)[k := RiderTick(riders[k])]
  {
  }

  /** One more driver's turn, likewise. */
  lemma AgeDriversStep(drivers: map<nat, Driver>, done: set<nat>, k: nat)
    requires k in drivers && k !in done
    ensures k in AgeDrivers(drivers, done) && AgeDrivers(drivers, done)[k] == drivers[k]
    ensures AgeDrivers(drivers, done + {k})
         == if Expired(drivers[k].wait + 1) then AgeDrivers(drivers, done) - {k}
            else AgeDrivers(drivers, done)[k := DriverTick(drivers[k])]
  {
  }

  /**
   * One rider's turn, seen on the registry: dropping an expired rider or ageing a live one
   * takes the registry from the state after `done` to the state after `done + {k}`, and
   * counts one more drop exactly when the rider left.
   */
  lemma RiderTurn(r0: map<nat, Rider>, done: set<nat>, k: nat, before: map<nat, Rider>,
                  after: map<nat, Rider>, gone: bool, dropped: int)
    requires before == AgeRiders(r0, done) && dropped == |r0| - |before|
    requires k in r0 && k !in done && k in before
    requires gone == Expired(before[k].wait + 1)
    requires gone ==> after == before - {k}
    requires !gone ==> after == before[k := RiderTick(before[k])]
    ensures after == AgeRiders(r0, done + {k})
    ensures after.Keys == if gone then before.Keys - {k} else before.Keys
    ensures |r0| - |after| == if gone then dropped + 1 else dropped
  {
    AgeRidersStep(r0, done, k);
    if gone {
      assert |before - {k}| == |before| - 1;
    } else {
      assert after.Keys == before.Keys;
    }
  }

  /** One driver's turn, seen on the registry, likewise. */
  lemma DriverTurn(d0: map<nat, Driver>, done: set<nat>, k: nat, before: map<nat, Driver>,
                   after: map<nat, Driver>, gone: bool, dropped: int)
    requires before == AgeDrivers(d0, done) && dropped == |d0| - |before|
    requires k in d0 && k !in done && k in before
    requires gone == Expired(before[k].wait + 1)
    requires gone ==> after == before - {k}
    requires !gone ==> after == before[k := DriverTick(before[k])]
    ensures after == AgeDrivers(d0, done + {k})
    ensures after.Keys == if gone then before.Keys - {k} else before.Keys
    ensures |d0| - |after| == if gone then dropped + 1 else dropped
  {
    AgeDriversStep(d0, done, k);
    if gone {
      assert |before - {k}| == |before| - 1;
    } else {
      assert after.Keys == before.Keys;
    }
  }

  /**
   * An agent admitted with wait 0 and aged by `n` expiry passes is still registered only
   * while n < MAX_WAIT: nobody waits MAX_WAIT ticks.
   */
  lemma {:induction false} RiderLifetime(r: Rider, n: nat)
    requires r.wait == 0
    ensures (r.id in Passes(map[r.id := r], n)) <==> n < MAX_WAIT
    ensures r.id in Passes(map[r.id := r], n) ==> Passes(map[r.id := r], n)[r.id].wait == n
  {
    if n > 0 {
      RiderLifetime(r, n - 1);
      var m := Passes(map[r.id := r], n - 1);
      assert m.Keys <= {r.id};
      assert AgeRiders(m, m.Keys) == Passes(map[r.id := r], n);
    }
  }

  /** `n` successive expiry passes over a rider registry. */
  function Passes(riders: map<nat, Rider>, n: nat): (r: map<nat, Rider>)
    ensures r.Keys <= riders.Keys
  {
    if n == 0 then riders else var m := Passes(riders, n - 1); AgeRiders(m, m.Keys)
  }
}
