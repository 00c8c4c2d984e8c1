/**
 * Stable ranking by a numeric key, as Python's list.sort and sorted() do it, and the
 * "first k of the ranking" selection built on it.
 */
module Ranking {

  /** An agent id with the key it is ranked by. */
  datatype Keyed = Keyed(id: nat, key: real)

  ghost predicate Ascending(s: seq<Keyed>)
  {
    forall i, j :: 0 <= i < j < |s| ==> s[i].key <= s[j].key
  }

  /** The entries of `s` whose key is `k`, in their order in `s`. */
  function WithKey(s: seq<Keyed>, k: real): seq<Keyed>
  {
    if s == [] then [] else (if s[0].key == k then [s[0]] else []) + WithKey(s[1..], k)
  }

  /** Puts `x` in front of the first entry whose key is at least `x.key`. */
  function Insert(x: Keyed, s: seq<Keyed>): seq<Keyed>
  {
    if s == [] || x.key <= s[0].key then [x] + s else [s[0]] + Insert(x, s[1..])
  }

  /**
   * Ascending sort by key that keeps the input order of entries with equal keys
   * (insertion from the back, each entry going before its equals).
   */
  function SortByKey(s: seq<Keyed>): seq<Keyed>
  {
    if s == [] then [] else Insert(s[0], SortByKey(s[1..]))
  }

  lemma {:induction false} InsertFacts(x: Keyed, s: seq<Keyed>)
    requires Ascending(s)
    ensures Ascending(Insert(x, s))
    ensures multiset(Insert(x, s)) == multiset(s) + multiset{x}
  {
    InsertPermutes(x, s);
    if s == [] || x.key <= s[0].key {
    } else {
      InsertFacts(x, s[1..]);
      var t := Insert(x, s[1..]);
      forall j | 0 <= j < |t|
        ensures s[0].key <= t[j].key
      {
        assert t[j] in multiset(s[1..]) + multiset{x};
        if t[j] != x {
          var q :| 0 <= q < |s[1..]| && s[1..][q] == t[j];
          assert s[q + 1] == t[j];
        }
      }
      ConsAscending(s[0], t);
    }
  }

  /** Inserting adds exactly one occurrence of the entry. */
  lemma {:induction false} InsertPermutes(x: Keyed, s: seq<Keyed>)
    ensures multiset(Insert(x, s)) == multiset(s) + multiset{x}
  {
    if s != [] && x.key > s[0].key {
      InsertPermutes(x, s[1..]);
      assert s == [s[0]] + s[1..];
    }
  }

  /** An entry put in front of an ascending sequence whose keys are all at least its own. */
  lemma ConsAscending(h: Keyed, t: seq<Keyed>)
    requires Ascending(t) && forall j :: 0 <= j < |t| ==> h.key <= t[j].key
    ensures Ascending([h] + t)
  {
    forall i, j | 0 <= i < j < |[h] + t|
      ensures ([h] + t)[i].key <= ([h] + t)[j].key
    {
      if i > 0 {
        assert ([h] + t)[i] == t[i - 1];
      }
      assert ([h] + t)[j] == t[j - 1];
    }
  }

  lemma {:induction false} InsertWithKey(x: Keyed, s: seq<Keyed>, k: real)
    ensures WithKey(Insert(x, s), k) == (if x.key == k then [x] else []) + WithKey(s, k)
  {
    if s == [] || x.key <= s[0].key {
    } else {
      InsertWithKey(x, s[1..], k);
      assert ([s[0]] + Insert(x, s[1..]))[1..] == Insert(x, s[1..]);
    }
  }

  /** The ranking is ascending and a permutation of its input. */
  lemma {:induction false} SortByKeySortsAndPermutes(s: seq<Keyed>)
    ensures Ascending(SortByKey(s))
    ensures multiset(SortByKey(s)) == multiset(s)
    ensures |SortByKey(s)| == |s|
  {
    if s != [] {
      SortByKeySortsAndPermutes(s[1..]);
      InsertFacts(s[0], SortByKey(s[1..]));
      assert s == [s[0]] + s[1..];
      assert |multiset(SortByKey(s))| == |multiset(s)|;
    }
  }

  /** Stability: entries with equal keys keep their relative input order. */
  lemma {:induction false} SortByKeyStable(s: seq<Keyed>, k: real)
    ensures WithKey(SortByKey(s), k) == WithKey(s, k)
  {
    if s != [] {
      SortByKeyStable(s[1..], k);
      InsertWithKey(s[0], SortByKey(s[1..]), k);
    }
  }

  /** The first `k` entries of the stable ranking (fewer when there are fewer entries). */
  function TopK(s: seq<Keyed>, k: nat): seq<Keyed>
  {
    var ranked := SortByKey(s);
    if |ranked| <= k then ranked else ranked[..k]
  }

  predicate IsPrefix(a: seq<Keyed>, b: seq<Keyed>)
  {
    |a| <= |b| && a == b[..|a|]
  }

  /**
   * TopK picks min(k, |s|) entries of `s`, in ascending key order, and no entry left out
   * has a smaller key than an entry picked.
   */
  lemma TopKNearest(s: seq<Keyed>, k: nat)
    ensures |TopK(s, k)| == if |s| <= k then |s| else k
    ensures Ascending(TopK(s, k))
    ensures multiset(TopK(s, k)) <= multiset(s)
    ensures forall c, u :: c in TopK(s, k) && u in multiset(s) - multiset(TopK(s, k)) ==> c.key <= u.key
  {
    var ranked := SortByKey(s);
    SortByKeySortsAndPermutes(s);
    var top := TopK(s, k);
    var rest := ranked[|top|..];
    assert ranked == top + rest;
    assert multiset(s) - multiset(top) == multiset(rest);
    AscendingSplit(top, rest);
  }

  /** Both parts of an ascending sequence ascend, and every key of the first part is at most every key of the second. */
  lemma AscendingSplit(a: seq<Keyed>, b: seq<Keyed>)
    requires Ascending(a + b)
    ensures Ascending(a)
    ensures forall c, u :: c in a && u in b ==> c.key <= u.key
  {
    forall i, j | 0 <= i < j < |a|
      ensures a[i].key <= a[j].key
    {
      assert (a + b)[i] == a[i] && (a + b)[j] == a[j];
    }
    forall c, u | c in a && u in b
      ensures c.key <= u.key
    {
      var i :| 0 <= i < |a| && a[i] == c;
      var j :| 0 <= j < |b| && b[j] == u;
      assert (a + b)[i] == c && (a + b)[|a| + j] == u;
    }
  }

  /** Among entries of equal key, TopK picks the earliest ones of the input first. */
  lemma TopKStable(s: seq<Keyed>, k: nat, key: real)
    ensures IsPrefix(WithKey(TopK(s, k), key), WithKey(s, key))
  {
    var ranked := SortByKey(s);
    SortByKeySortsAndPermutes(s);
    SortByKeyStable(s, key);
    var top := TopK(s, k);
    var rest := ranked[|top|..];
    assert ranked == top + rest;
    WithKeyAppend(top, rest, key);
  }

  lemma {:induction false} WithKeyAppend(a: seq<Keyed>, b: seq<Keyed>, k: real)
    ensures WithKey(a + b, k) == WithKey(a, k) + WithKey(b, k)
  {
    if a == [] {
      assert a + b == b;
    } else {
      WithKeyAppend(a[1..], b, k);
      assert a == [a[0]] + a[1..] && a + b == [a[0]] + (a[1..] + b);
      WithKeyCons(a[0], a[1..], k);
      WithKeyCons(a[0], a[1..] + b, k);
    }
  }

  /** The entries of key k of a sequence with a new first entry. */
  lemma WithKeyCons(x: Keyed, s: seq<Keyed>, k: real)
    ensures WithKey([x] + s, k) == (if x.key == k then [x] else []) + WithKey(s, k)
  {
    assert ([x] + s)[1..] == s;
  }

  /** The ids carried by the entries of `s`. */
  function Ids(s: seq<Keyed>): set<nat>
  {
    set e | e in s :: e.id
  }

  /** Extending a prefix by one entry adds that entry's id. */
  lemma IdsPrefix(s: seq<Keyed>, t: nat)
    requires t < |s|
    ensures Ids(s[..t + 1]) == Ids(s[..t]) + {s[t].id}
  {
    assert s[..t + 1] == s[..t] + [s[t]];
    assert forall e :: e in s[..t + 1] <==> e in s[..t] || e == s[t];
  }

  predicate DistinctIds(s: seq<Keyed>)
  {
    forall p, q :: 0 <= p < q < |s| ==> s[p].id != s[q].id
  }

  lemma {:induction false} InsertIds(x: Keyed, s: seq<Keyed>)
    ensures Ids(Insert(x, s)) == Ids(s) + {x.id}
    ensures DistinctIds(s) && x.id !in Ids(s) ==> DistinctIds(Insert(x, s))
  {
    if s == [] || x.key <= s[0].key {
      assert Ids([x] + s) == Ids(s) + {x.id} by {
        assert forall e :: e in [x] + s <==> e == x || e in s;
      }
      if DistinctIds(s) && x.id !in Ids(s) {
        forall p, q | 0 <= p < q < |[x] + s|
          ensures ([x] + s)[p].id != ([x] + s)[q].id
        {
          if p == 0 {
            assert ([x] + s)[q] in s;
          }
        }
      }
    } else {
      InsertIds(x, s[1..]);
      var t := Insert(x, s[1..]);
      assert s == [s[0]] + s[1..];
      assert Ids([s[0]] + t) == {s[0].id} + Ids(t) by {
        assert forall e :: e in [s[0]] + t <==> e == s[0] || e in t;
      }
      assert Ids(s) == {s[0].id} + Ids(s[1..]) by {
        assert forall e :: e in s <==> e == s[0] || e in s[1..];
      }
      if DistinctIds(s) && x.id !in Ids(s) {
        assert DistinctIds(s[1..]);
        assert s[0].id !in Ids(s[1..]) by {
          forall e | e in s[1..]
            ensures e.id != s[0].id
          {
            var q :| 0 <= q < |s[1..]| && s[1..][q] == e;
            assert s[q + 1] == e;
          }
        }
        forall p, q | 0 <= p < q < |[s[0]] + t|
          ensures ([s[0]] + t)[p].id != ([s[0]] + t)[q].id
        {
          if p == 0 {
            assert ([s[0]] + t)[q] in t;
          }
        }
      }
    }
  }

  /** Ranking neither loses nor repeats an id. */
  lemma {:induction false} SortByKeyIds(s: seq<Keyed>)
    ensures Ids(SortByKey(s)) == Ids(s)
    ensures DistinctIds(s) ==> DistinctIds(SortByKey(s))
  {
    if s != [] {
      SortByKeyIds(s[1..]);
      InsertIds(s[0], SortByKey(s[1..]));
      assert s == [s[0]] + s[1..];
      assert Ids(s) == {s[0].id} + Ids(s[1..]) by {
        assert forall e :: e in s <==> e == s[0] || e in s[1..];
      }
      if DistinctIds(s) {
        assert DistinctIds(s[1..]);
        assert s[0].id !in Ids(s[1..]) by {
          forall e | e in s[1..]
            ensures e.id != s[0].id
          {
            var q :| 0 <= q < |s[1..]| && s[1..][q] == e;
            assert s[q + 1] == e;
          }
        }
      }
    }
  }

  /** With distinct ids, a sequence carries exactly one id per entry. */
  lemma DistinctIdsCount(s: seq<Keyed>)
    requires DistinctIds(s)
    ensures |Ids(s)| == |s|
  {
    DistinctIdsPrefix(s, |s|);
    assert s[..|s|] == s;
  }

  lemma {:induction false} DistinctIdsPrefix(s: seq<Keyed>, t: nat)
    requires DistinctIds(s) && t <= |s|
    ensures |Ids(s[..t])| == t
  {
    if t == 0 {
      assert Ids(s[..0]) == {} by {
        forall e | e in s[..0]
          ensures false
        {
        }
      }
    } else {
      DistinctIdsPrefix(s, t - 1);
      IdsPrefix(s, t - 1);
      FreshId(s, t - 1);
      var before := Ids(s[..t - 1]);
      assert |before + {s[t - 1].id}| == |before| + 1;
    }
  }

  /** With distinct ids, no entry's id occurs before it. */
  lemma FreshId(s: seq<Keyed>, t: nat)
    requires DistinctIds(s) && t < |s|
    ensures s[t].id !in Ids(s[..t])
  {
    forall e | e in s[..t]
      ensures e.id != s[t].id
    {
      var q :| 0 <= q < t && s[..t][q] == e;
      assert s[q] == e;
    }
  }

  /** `x` occurs in `s` somewhere before `y`. */
  ghost predicate Before<T>(s: seq<T>, x: T, y: T)
  {
    exists i, j :: 0 <= i < j < |s| && s[i] == x && s[j] == y
  }

  /** The entries of key k are those entries of `s` whose key is k. */
  lemma {:induction false} WithKeyMembers(s: seq<Keyed>, k: real)
    ensures forall e :: e in WithKey(s, k) <==> e in s && e.key == k
  {
    if s != [] {
      WithKeyMembers(s[1..], k);
      assert forall e :: e in s <==> e == s[0] || e in s[1..];
    }
  }

  /** Picking the entries of one key keeps their order in `s`. */
  lemma {:induction false} WithKeyBefore(s: seq<Keyed>, k: real, x: Keyed, y: Keyed)
    requires Before(WithKey(s, k), x, y)
    ensures Before(s, x, y)
  {
    var w := WithKey(s, k);
    var i, j :| 0 <= i < j < |w| && w[i] == x && w[j] == y;
    var rest := WithKey(s[1..], k);
    if s[0].key == k {
      assert w == [s[0]] + rest;
      if i == 0 {
        assert y in rest by { assert rest[j - 1] == y; }
        WithKeyMembers(s[1..], k);
        var m :| 0 <= m < |s[1..]| && s[1..][m] == y;
        assert s[0] == x && s[m + 1] == y;
      } else {
        assert rest[i - 1] == x && rest[j - 1] == y;
        WithKeyBefore(s[1..], k, x, y);
        var a, b :| 0 <= a < b < |s[1..]| && s[1..][a] == x && s[1..][b] == y;
        assert s[a + 1] == x && s[b + 1] == y;
      }
    } else {
      assert w == rest;
      WithKeyBefore(s[1..], k, x, y);
      var a, b :| 0 <= a < b < |s[1..]| && s[1..][a] == x && s[1..][b] == y;
      assert s[a + 1] == x && s[b + 1] == y;
    }
  }

  /**
   * Ties are broken by input order: an entry TopK picks comes before every entry of the same
   * key that it leaves out.
   */
  lemma TopKTieOrder(s: seq<Keyed>, k: nat, x: Keyed, y: Keyed)
    requires x in TopK(s, k) && y in s && y !in TopK(s, k) && x.key == y.key
    ensures Before(s, x, y)
  {
    var top := TopK(s, k);
    TopKStable(s, k, x.key);
    var p := WithKey(top, x.key);
    var w := WithKey(s, x.key);
    WithKeyMembers(top, x.key);
    WithKeyMembers(s, x.key);
    var a :| 0 <= a < |p| && p[a] == x;
    var b :| 0 <= b < |w| && w[b] == y;
    if b < |p| {
      assert false;
    }
    assert w[a] == x;
    WithKeyBefore(s, x.key, x, y);
  }

  /** TopK of entries with distinct ids has distinct ids. */
  lemma TopKDistinct(s: seq<Keyed>, k: nat)
    requires DistinctIds(s)
    ensures DistinctIds(TopK(s, k))
  {
    SortByKeyIds(s);
  }
}
