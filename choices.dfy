/**
 * The driver-choice round as a function on values: drivers take their turn in a fixed
 * order; a driver whose inbox is non-empty ages it by one tick and, once the age reaches
 * its patience, takes the highest bid in the inbox if that rider is still waiting.
 */
module Choices {
  import opened Agents
  import opened Registry
  import opened MarketRules
  import opened Ranking

  /** A completed match: who traded, in which cell, at what prices. */
  datatype Trade = Trade(driverId: nat, riderId: nat, loc: Cell, bid: real, ask: real)

  /** The state a choice round works on: both registries and the trades made so far. */
  datatype Round = Round(riders: map<nat, Rider>, drivers: map<nat, Driver>, trades: seq<Trade>)

  /** The request a driver would take: the first highest bid in its inbox. */
  function Best(d: Driver): (r: Request)
    requires d.inbox != []
    ensures r in d.inbox
    ensures forall p :: 0 <= p < |d.inbox| ==> d.inbox[p].bid <= r.bid
  {
    d.inbox[BestRequest(d.inbox)]
  }

  /** Driver k's turn. */
  function Choose(k: nat, s: Round): Round
  {
    if k !in s.drivers || s.drivers[k].matched || s.drivers[k].inbox == [] then s
    else
      var d := Aged(s.drivers[k]);
      var best := Best(d);
      if d.inboxAge >= d.patience && best.riderId in s.riders && !s.riders[best.riderId].matched then
        Round(s.riders - {best.riderId}, s.drivers - {k},
              s.trades + [Trade(k, best.riderId, d.loc, best.bid, d.ask)])
      else
        Round(s.riders, s.drivers[k := d], s.trades)
  }

  /** A driver with requests that does not take one only ages its inbox. */
  lemma ChooseWaits(k: nat, s: Round)
    requires k in s.drivers && !s.drivers[k].matched && s.drivers[k].inbox != []
    requires var d := Aged(s.drivers[k]);
             !(d.inboxAge >= d.patience && Best(d).riderId in s.riders && !s.riders[Best(d).riderId].matched)
    ensures Choose(k, s) == Round(s.riders, s.drivers[k := Aged(s.drivers[k])], s.trades)
  {
  }

  /** A driver whose patience ran out takes its best request: both leave and the trade is logged. */
  lemma ChooseTakes(k: nat, s: Round)
    requires k in s.drivers && !s.drivers[k].matched && s.drivers[k].inbox != []
    requires var d := Aged(s.drivers[k]);
             d.inboxAge >= d.patience && Best(d).riderId in s.riders && !s.riders[Best(d).riderId].matched
    ensures var d := s.drivers[k];
            var b := Best(d);
            Choose(k, s) == Round(s.riders - {b.riderId}, s.drivers - {k}, s.trades + [Trade(k, b.riderId, d.loc, b.bid, d.ask)])
  {
    assert Best(Aged(s.drivers[k])) == Best(s.drivers[k]);
  }

  /** The driver ids of a ranking, in ranking order. */
  function Turns(ranked: seq<Keyed>): (ids: seq<nat>)
    ensures |ids| == |ranked|
    ensures forall p :: 0 <= p < |ranked| ==> ids[p] == ranked[p].id
  {
    if ranked == [] then [] else [ranked[0].id] + Turns(ranked[1..])
  }

  /** `ids` lists every registered driver once, in ascending order of ask. */
  ghost predicate CheapestFirst(ids: seq<nat>, drivers: map<nat, Driver>)
  {
    && Distinct(ids)
    && (forall k :: k in ids <==> k in drivers)
    && (forall p, q :: 0 <= p < q < |ids| ==> drivers[ids[p]].ask <= drivers[ids[q]].ask)
  }

  /**
   * Ranking the drivers of a registry by ask (ties in registration order) gives every
   * driver one turn, cheapest first.
   */
  lemma TurnOrderCheapestFirst(order: seq<nat>, drivers: map<nat, Driver>)
    requires Distinct(order) && forall k :: k in order <==> k in drivers
    ensures CheapestFirst(Turns(SortByKey(AskList(order, drivers))), drivers)
  {
    var ranked := SortByKey(AskList(order, drivers));
    AskRanking(order, drivers);
    TurnsMembers(ranked, drivers);
    TurnsDistinct(ranked);
    TurnsByAsk(ranked, drivers);
  }

  /** The turns of a ranking whose ids are the registry's keys list exactly those keys. */
  lemma TurnsMembers(ranked: seq<Keyed>, drivers: map<nat, Driver>)
    requires Ids(ranked) == drivers.Keys
    ensures forall k :: k in Turns(ranked) <==> k in drivers
  {
    var ids := Turns(ranked);
    forall k
      ensures k in ids <==> k in drivers
    {
      if k in drivers {
        assert k in Ids(ranked);
        var e :| e in ranked && e.id == k;
        var p :| 0 <= p < |ranked| && ranked[p] == e;
        assert ids[p] == k;
      }
      if k in ids {
        var p :| 0 <= p < |ids| && ids[p] == k;
        assert ranked[p] in ranked;
      }
    }
  }

  /** A ranking without repeated ids takes no driver's turn twice. */
  lemma TurnsDistinct(ranked: seq<Keyed>)
    requires DistinctIds(ranked)
    ensures Distinct(Turns(ranked))
  {
  }

  /** A ranking ascending by ask gives turns in ascending order of ask. */
  lemma TurnsByAsk(ranked: seq<Keyed>, drivers: map<nat, Driver>)
    requires Ascending(ranked) && forall e :: e in ranked ==> e.id in drivers && e.key == drivers[e.id].ask
    ensures forall p, q :: 0 <= p < q < |Turns(ranked)| ==>
              drivers[Turns(ranked)[p]].ask <= drivers[Turns(ranked)[q]].ask
  {
    var ids := Turns(ranked);
    forall p, q | 0 <= p < q < |ids|
      ensures drivers[ids[p]].ask <= drivers[ids[q]].ask
    {
      assert ranked[p] in ranked && ranked[q] in ranked;
    }
  }

  /** The turns of ids[0], ids[1], ... in that order. */
  function ChooseAll(ids: seq<nat>, s: Round): Round
    decreases |ids|
  {
    if ids == [] then s else Choose(ids[|ids| - 1], ChooseAll(ids[..|ids| - 1], s))
  }

  /** Every request in every inbox bids at least its driver's ask. */
  ghost predicate OffersCover(drivers: map<nat, Driver>)
  {
    forall k, p :: k in drivers && 0 <= p < |drivers[k].inbox| ==> drivers[k].inbox[p].bid >= drivers[k].ask
  }

  /** Trades i and beyond were made at a bid that covers the ask. */
  ghost predicate FairFrom(trades: seq<Trade>, i: nat)
  {
    forall j :: i <= j < |trades| ==> trades[j].ask <= trades[j].bid
  }

  /**
   * Trades `s.trades` onwards of `r` each took a rider who was waiting in `s` and a driver
   * registered in `s`, at that driver's ask, and neither is registered in `r`.
   */
  ghost predicate TradesLeft(s: Round, r: Round)
  {
    forall i :: |s.trades| <= i < |r.trades| ==>
      && r.trades[i].riderId in s.riders && r.trades[i].riderId !in r.riders
      && r.trades[i].driverId in s.drivers && r.trades[i].driverId !in r.drivers
      && r.trades[i].ask == s.drivers[r.trades[i].driverId].ask
  }

  /** Trades i and beyond involve each rider and each driver at most once. */
  ghost predicate PartnersOnce(trades: seq<Trade>, i: nat)
  {
    forall j, l :: i <= j < l < |trades| ==>
      trades[j].riderId != trades[l].riderId && trades[j].driverId != trades[l].driverId
  }

  /** Trades i and beyond were made at an ask of at most `top`. */
  ghost predicate AsksBelow(trades: seq<Trade>, i: nat, top: real)
  {
    forall j :: i <= j < |trades| ==> trades[j].ask <= top
  }

  /** Trades i and beyond come in order of ask. */
  ghost predicate AsksAscending(trades: seq<Trade>, i: nat)
  {
    forall j, l :: i <= j < l < |trades| ==> trades[j].ask <= trades[l].ask
  }

  /**
   * What remains after some turns: earlier trades are kept, the registries only lose agents,
   * and a remaining agent is unchanged except for a driver's inbox age.
   */
  ghost predicate Remains(s: Round, r: Round)
  {
    && s.trades <= r.trades
    && r.riders.Keys <= s.riders.Keys && r.drivers.Keys <= s.drivers.Keys
    && (forall k :: k in r.riders ==> r.riders[k] == s.riders[k])
    && (forall k :: k in r.drivers ==> r.drivers[k] == s.drivers[k].(inboxAge := r.drivers[k].inboxAge))
  }

  /**
   * A turn trades exactly when the driver is triggered (non-empty inbox whose age reaches its
   * patience once aged) and its best bidder is still waiting; the trade is with that bidder,
   * at its bid and the driver's ask, and takes both out of the registries. Otherwise the
   * riders and the trades stay as they were.
   */
  lemma TurnTrades(k: nat, s: Round)
    ensures var r := Choose(k, s);
            r.trades != s.trades <==>
              && k in s.drivers && !s.drivers[k].matched && Triggered(s.drivers[k])
              && Best(s.drivers[k]).riderId in s.riders && !s.riders[Best(s.drivers[k]).riderId].matched
    ensures var r := Choose(k, s);
            r.trades != s.trades ==>
              var b := Best(s.drivers[k]);
              r == Round(s.riders - {b.riderId}, s.drivers - {k},
                         s.trades + [Trade(k, b.riderId, s.drivers[k].loc, b.bid, s.drivers[k].ask)])
    ensures var r := Choose(k, s);
            r.trades == s.trades ==> r.riders == s.riders && r.drivers.Keys == s.drivers.Keys
    ensures Remains(s, Choose(k, s))
  {
    var r := Choose(k, s);
    if k in s.drivers && !s.drivers[k].matched && s.drivers[k].inbox != [] {
      assert Aged(s.drivers[k]).inbox == s.drivers[k].inbox;
      if r.trades != s.trades {
        assert |r.trades| == |s.trades| + 1;
      } else {
        assert r.drivers == s.drivers[k := Aged(s.drivers[k])];
      }
    }
  }

  /** Remains composes over successive stretches of turns. */
  lemma RemainsTrans(s: Round, m: Round, r: Round)
    requires Remains(s, m) && Remains(m, r)
    ensures Remains(s, r)
  {
    forall k | k in r.drivers
      ensures r.drivers[k] == s.drivers[k].(inboxAge := r.drivers[k].inboxAge)
    {
      assert m.drivers[k] == s.drivers[k].(inboxAge := m.drivers[k].inboxAge);
    }
  }

  /** A round only removes agents and ages inboxes, and keeps the trades made before it. */
  lemma {:induction false} RoundRemains(ids: seq<nat>, s: Round)
    ensures Remains(s, ChooseAll(ids, s))
    decreases |ids|
  {
    if ids != [] {
      var m := ChooseAll(ids[..|ids| - 1], s);
      RoundRemains(ids[..|ids| - 1], s);
      TurnTrades(ids[|ids| - 1], m);
      RemainsTrans(s, m, ChooseAll(ids, s));
    }
  }

  /**
   * Every trade of a round took a rider who was waiting and a driver who was registered at
   * the start, at that driver's ask, and neither is registered at the end.
   */
  lemma {:induction false} RoundTrades(ids: seq<nat>, s: Round)
    ensures TradesLeft(s, ChooseAll(ids, s))
    decreases |ids|
  {
    if ids != [] {
      var k := ids[|ids| - 1];
      var m := ChooseAll(ids[..|ids| - 1], s);
      var r := ChooseAll(ids, s);
      RoundTrades(ids[..|ids| - 1], s);
      RoundRemains(ids[..|ids| - 1], s);
      TurnTrades(k, m);
      assert forall i :: |s.trades| <= i < |m.trades| ==> r.trades[i] == m.trades[i];
    }
  }

  /** Each trade of a round takes out exactly one rider and one driver. */
  lemma {:induction false} RoundCounts(ids: seq<nat>, s: Round)
    ensures var r := ChooseAll(ids, s);
            |s.riders| - |r.riders| == |r.trades| - |s.trades| == |s.drivers| - |r.drivers|
    decreases |ids|
  {
    if ids != [] {
      var k := ids[|ids| - 1];
      var m := ChooseAll(ids[..|ids| - 1], s);
      RoundCounts(ids[..|ids| - 1], s);
      TurnTrades(k, m);
      var r := ChooseAll(ids, s);
      if r.trades != m.trades {
        var b := Best(m.drivers[k]);
        assert r.riders.Keys == m.riders.Keys - {b.riderId};
        assert |r.riders.Keys| == |m.riders.Keys| - 1;
        assert r.drivers.Keys == m.drivers.Keys - {k};
        assert |r.drivers.Keys| == |m.drivers.Keys| - 1;
      } else {
        assert |r.drivers.Keys| == |m.drivers.Keys|;
      }
    }
  }

  /** No rider and no driver takes part in two trades of one round. */
  lemma {:induction false} PartnersDistinct(ids: seq<nat>, s: Round)
    ensures PartnersOnce(ChooseAll(ids, s).trades, |s.trades|)
    decreases |ids|
  {
    if ids != [] {
      var m := ChooseAll(ids[..|ids| - 1], s);
      var r := ChooseAll(ids, s);
      PartnersDistinct(ids[..|ids| - 1], s);
      RoundTrades(ids[..|ids| - 1], s);
      TurnTrades(ids[|ids| - 1], m);
      if r.trades != m.trades {
        forall i, j | |s.trades| <= i < j < |r.trades|
          ensures r.trades[i].riderId != r.trades[j].riderId && r.trades[i].driverId != r.trades[j].driverId
        {
          assert r.trades[i] == m.trades[i];
          if j < |m.trades| {
            assert r.trades[j] == m.trades[j];
          }
        }
      }
    }
  }

  /** When every offer covers its driver's ask, every trade of the round is fair. */
  lemma {:induction false} RoundFair(ids: seq<nat>, s: Round)
    requires OffersCover(s.drivers)
    ensures OffersCover(ChooseAll(ids, s).drivers)
    ensures FairFrom(ChooseAll(ids, s).trades, |s.trades|)
    decreases |ids|
  {
    if ids != [] {
      var k := ids[|ids| - 1];
      var m := ChooseAll(ids[..|ids| - 1], s);
      var r := ChooseAll(ids, s);
      RoundFair(ids[..|ids| - 1], s);
      TurnTrades(k, m);
      if r.trades != m.trades {
        assert Best(m.drivers[k]).bid >= m.drivers[k].ask;
        assert forall j :: |s.trades| <= j < |m.trades| ==> r.trades[j] == m.trades[j];
      } else {
        assert forall j, p :: j in r.drivers && 0 <= p < |r.drivers[j].inbox| ==>
          r.drivers[j].inbox[p] == m.drivers[j].inbox[p] && r.drivers[j].ask == m.drivers[j].ask;
      }
    }
  }

  /** A round over drivers whose asks are at most `top` trades at no ask above `top`. */
  lemma {:induction false} TradesBelow(ids: seq<nat>, s: Round, top: real)
    requires forall p :: 0 <= p < |ids| && ids[p] in s.drivers ==> s.drivers[ids[p]].ask <= top
    ensures AsksBelow(ChooseAll(ids, s).trades, |s.trades|, top)
    decreases |ids|
  {
    if ids != [] {
      var k := ids[|ids| - 1];
      var m := ChooseAll(ids[..|ids| - 1], s);
      var r := ChooseAll(ids, s);
      TradesBelow(ids[..|ids| - 1], s, top);
      RoundRemains(ids[..|ids| - 1], s);
      TurnTrades(k, m);
      if r.trades != m.trades {
        assert r.trades[|m.trades|].ask == m.drivers[k].ask == s.drivers[k].ask;
        assert forall j :: |s.trades| <= j < |m.trades| ==> r.trades[j] == m.trades[j];
      }
    }
  }

  /**
   * Drivers take their turns cheapest first, so the trades of a round come out in order of
   * ask.
   */
  lemma {:induction false} TradesAscending(ids: seq<nat>, s: Round)
    requires forall p, q :: 0 <= p < q < |ids| && ids[p] in s.drivers && ids[q] in s.drivers ==>
               s.drivers[ids[p]].ask <= s.drivers[ids[q]].ask
    ensures AsksAscending(ChooseAll(ids, s).trades, |s.trades|)
    decreases |ids|
  {
    if ids != [] {
      var k := ids[|ids| - 1];
      var init := ids[..|ids| - 1];
      var m := ChooseAll(init, s);
      var r := ChooseAll(ids, s);
      TradesAscending(init, s);
      RoundRemains(init, s);
      TurnTrades(k, m);
      if r.trades != m.trades {
        var top := s.drivers[k].ask;
        forall p | 0 <= p < |init| && init[p] in s.drivers
          ensures s.drivers[init[p]].ask <= top
        {
          assert ids[p] == init[p];
        }
        TradesBelow(init, s, top);
        assert r.trades[|m.trades|].ask == top;
        assert forall j :: |s.trades| <= j < |m.trades| ==> r.trades[j] == m.trades[j];
      }
    }
  }

  /**
   * In a round over distinct registered drivers, each driver is still registered when its
   * turn comes (and at every turn before): only the driver on turn can leave during a turn.
   */
  lemma {:induction false} TurnsFindDrivers(ids: seq<nat>, s: Round, t: nat, u: nat)
    requires Distinct(ids) && t <= u < |ids|
    requires forall p :: 0 <= p < |ids| ==> ids[p] in s.drivers
    ensures ids[u] in ChooseAll(ids[..t], s).drivers
    decreases t
  {
    if t == 0 {
      assert ids[..0] == [];
    } else {
      var init := ids[..t - 1];
      assert ids[..t][..t - 1] == init;
      TurnsFindDrivers(ids, s, t - 1, u);
      TurnTrades(ids[t - 1], ChooseAll(init, s));
      assert ids[t - 1] != ids[u];
    }
  }

  /**
   * A triggered driver whose best bidder is no longer waiting keeps its inbox and only ages
   * it: the driver never falls back to another request in the inbox.
   */
  lemma StuckDriver(k: nat, s: Round)
    requires k in s.drivers && !s.drivers[k].matched && Triggered(s.drivers[k])
    requires Best(s.drivers[k]).riderId !in s.riders
    ensures var r := Choose(k, s);
            && r.riders == s.riders && r.trades == s.trades
            && r.drivers == s.drivers[k := s.drivers[k].(inboxAge := s.drivers[k].inboxAge + 1)]
            && Triggered(r.drivers[k]) && Best(r.drivers[k]) == Best(s.drivers[k])
  {
  }
}
