/** Per-cell market memory: a rolling window over the most recent trades of one grid cell. */
module MarketMemory {

  /** Price reported by a cell that has seen no trade yet. */
  const BASE_RATE: real := 1.5
  /** Number of trades each history list keeps. */
  const HISTORY_CAP: nat := 10

  /** The last `n` entries of `s`, in order (all of `s` when it is shorter). */
  function LastN(s: seq<real>, n: nat): (r: seq<real>)
    ensures |r| == if |s| <= n then |s| else n
    ensures forall k :: 0 <= k < |r| ==> r[k] == s[|s| - |r| + k]
  {
    if |s| <= n then s else s[|s| - n..]
  }

  /** Appending one entry to the full list moves its window by at most one place. */
  lemma LastNAppend(s: seq<real>, x: real, n: nat)
    requires n > 0
    ensures var w := LastN(s, n) + [x];
      LastN(s + [x], n) == if |w| > n then w[1..] else w
  {
    var w := LastN(s, n) + [x];
    var t := s + [x];
    if |t| <= n {
      assert w == t;
    } else if |s| <= n {
      assert w == t;
    } else {
      assert w[1..] == t[|t| - n..];
    }
  }

  function Sum(s: seq<real>): real
  {
    if s == [] then 0.0 else Sum(s[..|s| - 1]) + s[|s| - 1]
  }

  /** Mean of the entries, or BASE_RATE for an empty list. */
  function MeanOr(s: seq<real>): (m: real)
    ensures s == [] ==> m == BASE_RATE
  {
    if s == [] then BASE_RATE else Sum(s) / (|s| as real)
  }

  /** The mean of a non-empty list times its length is its sum. */
  lemma MeanTimesLength(s: seq<real>)
    requires s != []
    ensures MeanOr(s) * (|s| as real) == Sum(s)
  {
  }

  lemma {:induction false} SumAtLeast(s: seq<real>, lo: real)
    requires forall k :: 0 <= k < |s| ==> s[k] >= lo
    ensures Sum(s) >= lo * (|s| as real)
  {
    if s != [] {
      SumAtLeast(s[..|s| - 1], lo);
    }
  }

  /** The mean of entries that are all at least `lo` is at least `lo`. */
  lemma MeanAtLeast(s: seq<real>, lo: real)
    requires forall k :: 0 <= k < |s| ==> s[k] >= lo
    requires lo <= BASE_RATE
    ensures MeanOr(s) >= lo
  {
    if s != [] {
      SumAtLeast(s, lo);
      MeanTimesLength(s);
    }
  }

  /** Entry-wise domination of two equally long lists carries over to their sums. */
  lemma {:induction false} SumDominates(a: seq<real>, b: seq<real>)
    requires |a| == |b|
    requires forall k :: 0 <= k < |a| ==> a[k] >= b[k]
    ensures Sum(a) >= Sum(b)
  {
    if a != [] {
      SumDominates(a[..|a| - 1], b[..|b| - 1]);
    }
  }

  lemma DivideMonotone(x: real, y: real, m: real)
    requires m > 0.0 && x >= y
    ensures x / m >= y / m
  {
    assert x / m - y / m == (x - y) / m;
  }

  /** The two lists pair up entry by entry, each bid at least its ask. */
  predicate FairPairs(bids: seq<real>, asks: seq<real>)
  {
    |bids| == |asks| && forall k :: 0 <= k < |bids| ==> bids[k] >= asks[k]
  }

  /** Appending one fair pair keeps two histories fair. */
  lemma AppendFair(bids: seq<real>, asks: seq<real>, bid: real, ask: real)
    requires FairPairs(bids, asks)
    requires ask <= bid
    ensures FairPairs(bids + [bid], asks + [ask])
  {
    forall k | 0 <= k < |bids + [bid]|
      ensures (bids + [bid])[k] >= (asks + [ask])[k]
    {
      if k < |bids| {
        assert (bids + [bid])[k] == bids[k] && (asks + [ask])[k] == asks[k];
      }
    }
  }

  class MarketCell {
    var recentBids: seq<real>
    var recentAsks: seq<real>
    /** Every bid and ask ever recorded in this cell, oldest first. */
    ghost var bidHistory: seq<real>
    ghost var askHistory: seq<real>

    ghost predicate Valid()
      reads this
    {
      && recentBids == LastN(bidHistory, HISTORY_CAP)
      && recentAsks == LastN(askHistory, HISTORY_CAP)
    }

    /** Every trade recorded here paired a bid with an ask no higher than it. */
    ghost predicate Fair()
      reads this
    {
      FairPairs(bidHistory, askHistory)
    }

    constructor ()
      ensures Valid() && Fair()
      ensures bidHistory == [] && askHistory == [] && recentBids == [] && recentAsks == []
    {
      recentBids, recentAsks := [], [];
      bidHistory, askHistory := [], [];
    }

    /** Appends one trade; each list then drops its oldest entry if it holds more than HISTORY_CAP. */
    method RecordTrade(bid: real, ask: real)
      requires Valid()
      modifies this
      ensures Valid()
      ensures bidHistory == old(bidHistory) + [bid]
      ensures askHistory == old(askHistory) + [ask]
      ensures |recentBids| <= HISTORY_CAP && |recentAsks| <= HISTORY_CAP
      ensures recentBids[|recentBids| - 1] == bid && recentAsks[|recentAsks| - 1] == ask
      ensures old(Fair()) && ask <= bid ==> Fair()
    {
      LastNAppend(bidHistory, bid, HISTORY_CAP);
      LastNAppend(askHistory, ask, HISTORY_CAP);
      if Fair() && ask <= bid {
        AppendFair(bidHistory, askHistory, bid, ask);
      }
      recentBids := recentBids + [bid];
      recentAsks := recentAsks + [ask];
      if |recentAsks| > HISTORY_CAP {
        recentAsks := recentAsks[1..];
      }
      if |recentBids| > HISTORY_CAP {
        recentBids := recentBids[1..];
      }
      bidHistory := bidHistory + [bid];
      askHistory := askHistory + [ask];
    }

    /** Mean of the recent bids, BASE_RATE when none. */
    function AvgBid(): (r: real)
      reads this
      ensures recentBids == [] ==> r == BASE_RATE
    {
      MeanOr(recentBids)
    }

    /** Mean of the recent asks, BASE_RATE when none. */
    function AvgAsk(): (r: real)
      reads this
      ensures recentAsks == [] ==> r == BASE_RATE
    {
      MeanOr(recentAsks)
    }
  
    /** With bids and asks floored at `lo`, the mean bid is at least `lo`. */
    lemma AvgBidAtLeast(lo: real)
      requires Valid()
      requires forall k :: 0 <= k < |bidHistory| ==> bidHistory[k] >= lo
      requires lo <= BASE_RATE
      ensures AvgBid() >= lo
    {
      var n := |bidHistory| - |recentBids|;
      forall k | 0 <= k < |recentBids|
        ensures recentBids[k] >= lo
      {
        assert recentBids[k] == bidHistory[n + k];
      }
      MeanAtLeast(recentBids, lo);
    }

    lemma AvgAskAtLeast(lo: real)
      requires Valid()
      requires forall k :: 0 <= k < |askHistory| ==> askHistory[k] >= lo
      requires lo <= BASE_RATE
      ensures AvgAsk() >= lo
    {
      var n := |askHistory| - |recentAsks|;
      forall k | 0 <= k < |recentAsks|
        ensures recentAsks[k] >= lo
      {
        assert recentAsks[k] == askHistory[n + k];
      }
      MeanAtLeast(recentAsks, lo);
    }

    /** When every trade paired a bid with a lower ask, the mean recent bid is at least the mean recent ask. */
    lemma AvgBidCoversAvgAsk()
      requires Valid() && Fair()
      ensures AvgBid() >= AvgAsk()
    {
      var n := |bidHistory| - |recentBids|;
      assert |recentAsks| == |recentBids|;
      forall k | 0 <= k < |recentBids|
        ensures recentBids[k] >= recentAsks[k]
      {
        assert recentBids[k] == bidHistory[n + k];
        assert recentAsks[k] == askHistory[n + k];
      }
      if recentBids != [] {
        SumDominates(recentBids, recentAsks);
        var m := |recentBids| as real;
        assert AvgBid() == Sum(recentBids) / m;
        assert AvgAsk() == Sum(recentAsks) / m;
        DivideMonotone(Sum(recentBids), Sum(recentAsks), m);
      }
    }
  }
}
