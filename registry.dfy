/**
 * The registries of the market: insertion-ordered dictionaries of riders and drivers,
 * modelled as a map plus the order of its keys, and the per-driver inbox of requests.
 */
module Registry {
  import opened Agents
  import opened Ranking

  predicate Distinct(s: seq<nat>)
  {
    forall p, q :: 0 <= p < q < |s| ==> s[p] != s[q]
  }

  /** `order` lists the keys of `m`, each once. */
  ghost predicate Lists<V>(order: seq<nat>, m: map<nat, V>)
  {
    Distinct(order) && forall k :: k in order <==> k in m
  }

  /** `s` without the key `k`: deleting a key from an insertion-ordered dict. */
  function Without(s: seq<nat>, k: nat): (r: seq<nat>)
    ensures forall x :: x in r <==> x in s && x != k
    ensures Distinct(s) ==> Distinct(r)
    ensures k !in s ==> r == s
  {
    if s == [] then []
    else if s[0] == k then Without(s[1..], k)
    else
      var t := Without(s[1..], k);
      assert Distinct(s) ==> s[0] !in s[1..] && Distinct(s[1..]);
      [s[0]] + t
  }

  /** The keys of `s` that are in `keep`, in their order in `s`. */
  function FilterKeys(s: seq<nat>, keep: set<nat>): (r: seq<nat>)
    ensures forall x :: x in r <==> x in s && x in keep
    ensures Distinct(s) ==> Distinct(r)
  {
    if s == [] then []
    else
      var t := FilterKeys(s[1..], keep);
      assert Distinct(s) ==> s[0] !in s[1..] && Distinct(s[1..]);
      (if s[0] in keep then [s[0]] else []) + t
  }

  /**
   * `order` is `order0` with only the keys in `keep` left, in their order in `order0`;
   * `ThinnedIsFilter` shows it is `FilterKeys(order0, keep)`.
   */
  ghost predicate Thinned(order: seq<nat>, order0: seq<nat>, keep: set<nat>)
    decreases |order0|
  {
    if |order0| == 0 then |order| == 0
    else if order0[0] in keep then |order| > 0 && order[0] == order0[0] && Thinned(order[1..], order0[1..], keep)
    else Thinned(order, order0[1..], keep)
  }

  /** Thinning is filtering: the two say the same of every pair of orders. */
  lemma {:induction false} ThinnedIsFilter(order: seq<nat>, order0: seq<nat>, keep: set<nat>)
    ensures Thinned(order, order0, keep) <==> order == FilterKeys(order0, keep)
    decreases |order0|
  {
    if |order0| > 0 {
      var t := FilterKeys(order0[1..], keep);
      if order0[0] in keep {
        if |order| > 0 {
          ThinnedIsFilter(order[1..], order0[1..], keep);
          assert ([order0[0]] + t)[1..] == t;
          assert order == [order[0]] + order[1..];
        }
      } else {
        ThinnedIsFilter(order, order0[1..], keep);
        assert [] + t == t;
      }
    }
  }

  /**
   * Filtering an order by `keep1` and then by a smaller `keep` thins the first order
   * down to `keep`.
   */
  lemma ThinnedTwice(order0: seq<nat>, keep1: set<nat>, order1: seq<nat>, keep: set<nat>, order: seq<nat>)
    requires order1 == FilterKeys(order0, keep1) && order == FilterKeys(order1, keep) && keep <= keep1
    ensures Thinned(order, order0, keep)
  {
    FilterKeysTwice(order0, keep1, keep);
    ThinnedIsFilter(order, order0, keep);
  }

  /** Deleting keys one at a time from a filtered order is filtering by the smaller key set. */
  lemma {:induction false} FilterKeysWithout(s: seq<nat>, keep: set<nat>, k: nat)
    ensures Without(FilterKeys(s, keep), k) == FilterKeys(s, keep - {k})
  {
    if s != [] {
      FilterKeysWithout(s[1..], keep, k);
      var t := FilterKeys(s[1..], keep);
      if s[0] in keep && s[0] != k {
        assert ([s[0]] + t)[1..] == t;
      } else if s[0] in keep {
        assert ([s[0]] + t)[1..] == t;
      } else {
        assert [] + t == t;
        assert [] + FilterKeys(s[1..], keep - {k}) == FilterKeys(s[1..], keep - {k});
      }
    }
  }

  lemma {:induction false} FilterKeysAll(s: seq<nat>, keep: set<nat>)
    requires forall x :: x in s ==> x in keep
    ensures FilterKeys(s, keep) == s
  {
    if s != [] {
      FilterKeysAll(s[1..], keep);
      assert s == [s[0]] + s[1..];
    }
  }

  /** The keys an order lists. */
  function Members(s: seq<nat>): (r: set<nat>)
    ensures forall x :: x in r <==> x in s
  {
    set x | x in s
  }

  /** The keys among the first `t` entries of an order. */
  function Seen(s: seq<nat>, t: nat): (r: set<nat>)
    requires t <= |s|
    ensures forall x :: x in r ==> x in s
  {
    if t == 0 then {} else Seen(s, t - 1) + {s[t - 1]}
  }

  /** In an order without repeats, the key at position t is not among the first t. */
  lemma {:induction false} SeenFresh(s: seq<nat>, t: nat, u: nat)
    requires Distinct(s) && u <= t < |s|
    ensures s[t] !in Seen(s, u)
  {
    if u > 0 {
      SeenFresh(s, t, u - 1);
    }
  }

  /**
   * One step of a pass over an order without repeats that lists exactly the keys of `m`:
   * the next key is a key of `m` not yet seen, and seeing it extends the seen set by it.
   */
  lemma PassStep<V>(s: seq<nat>, t: nat, m: map<nat, V>, done: set<nat>)
    requires Distinct(s) && Members(s) == m.Keys && t < |s| && done == Seen(s, t)
    ensures s[t] in m && s[t] !in done && done + {s[t]} == Seen(s, t + 1)
  {
    SeenFresh(s, t, t);
  }

  /** The keys among the first `t` entries are those listed at a position below `t`. */
  lemma {:induction false} SeenUpTo(s: seq<nat>, t: nat)
    requires t <= |s|
    ensures forall x :: x in Seen(s, t) <==> exists q :: 0 <= q < t && s[q] == x
  {
    if t > 0 {
      SeenUpTo(s, t - 1);
    }
  }

  /** The whole order seen is every key it lists. */
  lemma SeenAll(s: seq<nat>)
    ensures Seen(s, |s|) == Members(s)
  {
    SeenUpTo(s, |s|);
  }

  /** In an order without repeats, no key occurs before its own position. */
  lemma FreshAt(s: seq<nat>, t: nat)
    requires Distinct(s) && t < |s|
    ensures s[t] !in s[..t]
  {
  }

  /** Deleting a key from an order that holds only kept keys is filtering by one key fewer. */
  lemma WithoutIsFilter(s: seq<nat>, keep: set<nat>, k: nat)
    requires forall x :: x in s ==> x in keep
    ensures Without(s, k) == FilterKeys(s, keep - {k})
  {
    FilterKeysAll(s, keep);
    FilterKeysWithout(s, keep, k);
  }

  /** Filtering an order twice is filtering it once by the smaller key set. */
  lemma {:induction false} FilterKeysTwice(s: seq<nat>, keep: set<nat>, fewer: set<nat>)
    requires fewer <= keep
    ensures FilterKeys(FilterKeys(s, keep), fewer) == FilterKeys(s, fewer)
  {
    if s != [] {
      FilterKeysTwice(s[1..], keep, fewer);
      var t := FilterKeys(s[1..], keep);
      if s[0] in keep {
        assert ([s[0]] + t)[1..] == t;
      } else {
        assert [] + t == t;
      }
    }
  }

  /**
   * Registry `m` with next id `id` extends registry `m0` with next id `id0`: every entry
   * of `m0` is kept as it was, and the only keys added are the ids handed out in between.
   */
  ghost predicate Grows<V>(m0: map<nat, V>, id0: nat, m: map<nat, V>, id: nat)
  {
    var ok := id0 <= id
      && (forall k :: k in m0 ==> k in m && m[k] == m0[k])
      && (forall k :: k in m <==> k in m0 || id0 <= k < id);
    ok
  }

  lemma GrowsRefl<V>(m: map<nat, V>, id: nat)
    ensures Grows(m, id, m, id)
  {
  }

  /** Filing a new entry under the next id extends the registry. */
  lemma GrowsAdd<V>(m0: map<nat, V>, id0: nat, m: map<nat, V>, id: nat, v: V)
    requires Grows(m0, id0, m, id) && id !in m
    ensures Grows(m0, id0, m[id := v], id + 1)
  {
    assert id !in m0;
  }

  lemma GrowsOne<V>(m: map<nat, V>, id: nat, v: V)
    requires id !in m
    ensures Grows(m, id, m[id := v], id + 1)
  {
  }

  lemma GrowsTrans<V>(m0: map<nat, V>, id0: nat, m1: map<nat, V>, id1: nat, m: map<nat, V>, id: nat)
    requires Grows(m0, id0, m1, id1) && Grows(m1, id1, m, id)
    ensures Grows(m0, id0, m, id)
  {
  }

  /** The ids a <= k < b in increasing order: the ids handed out by a run of spawns. */
  function Range(a: nat, b: nat): (r: seq<nat>)
    ensures |r| == if a <= b then b - a else 0
    ensures forall p :: 0 <= p < |r| ==> r[p] == a + p
    decreases b - a
  {
    if b <= a then [] else Range(a, b - 1) + [b - 1]
  }

  /**
   * Key order `order` is `order0` followed by the ids a <= k < b in increasing order: the
   * order of a registry that had order `order0` and has since filed the ids a to b - 1.
   * Stated entry by entry; `AppendedIsRange` gives it as `order0 + Range(a, b)`.
   */
  ghost predicate Appended(order: seq<nat>, order0: seq<nat>, a: nat, b: nat)
  {
    && a <= b && |order| == |order0| + (b - a)
    && (forall p :: 0 <= p < |order0| ==> order[p] == order0[p])
    && (forall p :: |order0| <= p < |order| ==> order[p] == a + (p - |order0|))
  }

  /** The entry-by-entry statement is the old order followed by the range of new ids. */
  lemma AppendedIsRange(order: seq<nat>, order0: seq<nat>, a: nat, b: nat)
    ensures Appended(order, order0, a, b) <==> a <= b && order == order0 + Range(a, b)
  {
    if a <= b && order == order0 + Range(a, b) {
      assert forall p :: |order0| <= p < |order| ==> order[p] == Range(a, b)[p - |order0|];
    }
  }

  /** Before any spawn, nothing has been appended. */
  lemma AppendedNone(order: seq<nat>, a: nat)
    ensures Appended(order, order, a, a)
  {
  }

  /** Filing id a at the end of an order appends the run of that one id. */
  lemma AppendedOne(order: seq<nat>, a: nat)
    ensures Appended(order + [a], order, a, a + 1)
  {
  }

  /** Two runs of spawns, one after the other, append the ids of one run. */
  lemma AppendedRuns(order0: seq<nat>, order1: seq<nat>, order: seq<nat>, a: nat, b: nat, c: nat)
    requires Appended(order1, order0, a, b) && Appended(order, order1, b, c)
    ensures Appended(order, order0, a, c)
  {
  }

  /** Keys of the riders located in cell c. */
  function RidersAt(m: map<nat, Rider>, c: Cell): set<nat>
  {
    set k | k in m && m[k].loc == c
  }

  function DriversAt(m: map<nat, Driver>, c: Cell): set<nat>
  {
    set k | k in m && m[k].loc == c
  }

  lemma RidersAtAdd(m: map<nat, Rider>, k: nat, r: Rider, c: Cell)
    requires k !in m
    ensures RidersAt(m[k := r], c) == if r.loc == c then RidersAt(m, c) + {k} else RidersAt(m, c)
  {
  }

  lemma RidersAtRemove(m: map<nat, Rider>, k: nat, c: Cell)
    requires k in m
    ensures RidersAt(m - {k}, c) == if m[k].loc == c then RidersAt(m, c) - {k} else RidersAt(m, c)
  {
  }

  lemma RidersAtUpdate(m: map<nat, Rider>, k: nat, r: Rider, c: Cell)
    requires k in m && m[k].loc == r.loc
    ensures RidersAt(m[k := r], c) == RidersAt(m, c)
  {
  }

  lemma DriversAtAdd(m: map<nat, Driver>, k: nat, d: Driver, c: Cell)
    requires k !in m
    ensures DriversAt(m[k := d], c) == if d.loc == c then DriversAt(m, c) + {k} else DriversAt(m, c)
  {
  }

  lemma DriversAtRemove(m: map<nat, Driver>, k: nat, c: Cell)
    requires k in m
    ensures DriversAt(m - {k}, c) == if m[k].loc == c then DriversAt(m, c) - {k} else DriversAt(m, c)
  {
  }

  lemma DriversAtUpdate(m: map<nat, Driver>, k: nat, d: Driver, c: Cell)
    requires k in m && m[k].loc == d.loc
    ensures DriversAt(m[k := d], c) == DriversAt(m, c)
  {
  }

  /** Whether the inbox holds a request from the rider with this id. */
  predicate InboxHas(inbox: seq<Request>, id: nat)
  {
    exists p :: 0 <= p < |inbox| && inbox[p].riderId == id
  }

  /**
   * `inbox[id] = rider` on an insertion-ordered dict: a new key goes last, an existing
   * key keeps its place (and, the bid being fixed, its value).
   */
  function InboxPut(inbox: seq<Request>, req: Request): (r: seq<Request>)
    ensures InboxHas(r, req.riderId)
    ensures InboxHas(inbox, req.riderId) ==> r == inbox
    ensures !InboxHas(inbox, req.riderId) ==> r == inbox + [req]
  {
    if InboxHas(inbox, req.riderId) then inbox
    else
      var r := inbox + [req];
      assert r[|inbox|].riderId == req.riderId;
      r
  }

  /**
   * Index of the request `max(inbox.values(), key=bid)` returns: a highest bid, and the
   * first such in insertion order.
   */
  function BestRequest(inbox: seq<Request>): (k: nat)
    requires inbox != []
    ensures k < |inbox|
    ensures forall q :: 0 <= q < |inbox| ==> inbox[q].bid <= inbox[k].bid
    ensures forall q :: 0 <= q < k ==> inbox[q].bid < inbox[k].bid
  {
    if |inbox| == 1 then 0
    else
      var k := BestRequest(inbox[..|inbox| - 1]);
      if inbox[|inbox| - 1].bid > inbox[k].bid then |inbox| - 1 else k
  }

  /**
   * The drivers a rider with this bid and location may request, in registry order:
   * unmatched and asking at most the bid, each keyed by its Manhattan distance to the rider.
   */
  function Eligible(order: seq<nat>, drivers: map<nat, Driver>, bid: real, loc: Cell): seq<Keyed>
  {
    if order == [] then []
    else
      var k := order[|order| - 1];
      Eligible(order[..|order| - 1], drivers, bid, loc)
      + (if k in drivers && !drivers[k].matched && drivers[k].ask <= bid
         then [Keyed(k, Manhattan(drivers[k].loc, loc) as real)] else [])
  }

  /** A candidate is exactly a registered, unmatched driver whose ask the bid covers, keyed by distance. */
  lemma {:induction false} EligibleMembers(order: seq<nat>, drivers: map<nat, Driver>, bid: real, loc: Cell)
    ensures forall e :: e in Eligible(order, drivers, bid, loc) <==>
      && e.id in order && e.id in drivers && !drivers[e.id].matched && drivers[e.id].ask <= bid
      && e.key == Manhattan(drivers[e.id].loc, loc) as real
  {
    if order != [] {
      EligibleMembers(order[..|order| - 1], drivers, bid, loc);
      assert order == order[..|order| - 1] + [order[|order| - 1]];
    }
  }

  /** The ids of the registered, unmatched drivers whose ask the bid covers. */
  ghost function EligibleIds(order: seq<nat>, drivers: map<nat, Driver>, bid: real): set<nat>
  {
    set k | k in order && k in drivers && !drivers[k].matched && drivers[k].ask <= bid
  }

  /** A registry that lists each driver once yields one candidate per eligible driver. */
  lemma {:induction false} EligibleDistinct(order: seq<nat>, drivers: map<nat, Driver>, bid: real, loc: Cell)
    requires Distinct(order)
    ensures DistinctIds(Eligible(order, drivers, bid, loc))
    ensures Ids(Eligible(order, drivers, bid, loc)) == EligibleIds(order, drivers, bid)
  {
    EligibleMembers(order, drivers, bid, loc);
    var e := Eligible(order, drivers, bid, loc);
    forall k | k in EligibleIds(order, drivers, bid)
      ensures k in Ids(e)
    {
      assert Keyed(k, Manhattan(drivers[k].loc, loc) as real) in e;
    }
    if order != [] {
      var init := order[..|order| - 1];
      assert Distinct(init);
      EligibleDistinct(init, drivers, bid, loc);
      EligibleMembers(init, drivers, bid, loc);
      var last := order[|order| - 1];
      assert last !in init by {
        forall q | 0 <= q < |init|
          ensures init[q] != last
        {
          assert init[q] == order[q];
        }
      }
    }
  }

  /** Candidates appear in registry order. */
  lemma {:induction false} EligibleBefore(order: seq<nat>, drivers: map<nat, Driver>, bid: real, loc: Cell,
                                          x: Keyed, y: Keyed)
    requires Before(Eligible(order, drivers, bid, loc), x, y)
    ensures Before(order, x.id, y.id)
  {
    var e := Eligible(order, drivers, bid, loc);
    var i, j :| 0 <= i < j < |e| && e[i] == x && e[j] == y;
    var init := order[..|order| - 1];
    var ei := Eligible(init, drivers, bid, loc);
    if j < |ei| {
      assert ei[i] == x && ei[j] == y;
      EligibleBefore(init, drivers, bid, loc, x, y);
      var a, b :| 0 <= a < b < |init| && init[a] == x.id && init[b] == y.id;
      assert order[a] == x.id && order[b] == y.id;
    } else {
      assert y.id == order[|order| - 1];
      assert x in ei by { assert ei[i] == x; }
      EligibleMembers(init, drivers, bid, loc);
      var a :| 0 <= a < |init| && init[a] == x.id;
      assert order[a] == x.id;
    }
  }

  /** The (id, ask) pairs of the registered drivers, in registry order. */
  function AskList(order: seq<nat>, drivers: map<nat, Driver>): (r: seq<Keyed>)
    requires forall k :: k in order ==> k in drivers
    ensures |r| == |order|
    ensures forall p :: 0 <= p < |order| ==> r[p] == Keyed(order[p], drivers[order[p]].ask)
  {
    if order == [] then [] else [Keyed(order[0], drivers[order[0]].ask)] + AskList(order[1..], drivers)
  }

  lemma AskListIds(order: seq<nat>, drivers: map<nat, Driver>)
    requires Distinct(order)
    requires forall k :: k in order <==> k in drivers
    ensures Ids(AskList(order, drivers)) == drivers.Keys
    ensures DistinctIds(AskList(order, drivers))
  {
    var a := AskList(order, drivers);
    forall k | k in drivers
      ensures k in Ids(a)
    {
      var p :| 0 <= p < |order| && order[p] == k;
      assert a[p] in a;
    }
    forall p, q | 0 <= p < q < |a|
      ensures a[p].id != a[q].id
    {
      assert a[p].id == order[p] && a[q].id == order[q];
    }
  }

  /** The drivers ranked by ask: every registered driver exactly once, asks ascending. */
  lemma AskRanking(order: seq<nat>, drivers: map<nat, Driver>)
    requires Distinct(order)
    requires forall k :: k in order <==> k in drivers
    ensures Ids(SortByKey(AskList(order, drivers))) == drivers.Keys
    ensures DistinctIds(SortByKey(AskList(order, drivers)))
    ensures Ascending(SortByKey(AskList(order, drivers)))
    ensures forall e :: e in SortByKey(AskList(order, drivers)) ==> e.key == drivers[e.id].ask
  {
    var a := AskList(order, drivers);
    AskListIds(order, drivers);
    SortByKeyIds(a);
    SortByKeySortsAndPermutes(a);
    var r := SortByKey(a);
    forall e | e in r
      ensures e.key == drivers[e.id].ask
    {
      assert e in multiset(r);
      assert e in a;
      var p :| 0 <= p < |a| && a[p] == e;
    }
  }
}
