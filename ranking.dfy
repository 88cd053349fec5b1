/** Ordering of search results in lib/search.ts: the stable sort by descending score
    that both `topK` and the reranker use, and `topK` itself. Scores are abstract
    ordered values, written as reals; the cosine similarity that produces them is not
    modelled. */
module Ranking {
  import opened Js

  /** `EmbeddingItem` of lib/search.ts. */
  datatype EmbeddingItem = EmbeddingItem(id: string, file: string, text: string, embedding: seq<real>)

  // ---------------------------------------------------------------- stable order

  /** Position `p` goes before position `q`: a higher key first, equal keys in input
      order. This is what a stable sort with the comparator `b.score - a.score` does. */
  predicate Before(key: seq<real>, p: nat, q: nat)
  {
    p < |key| && q < |key| && (key[p] > key[q] || (key[p] == key[q] && p < q))
  }

  ghost predicate SortedBy(key: seq<real>, ps: seq<nat>)
  {
    forall i, j :: 0 <= i < j < |ps| ==> Before(key, ps[i], ps[j])
  }

  /** Inserts position `p` in front of the first position it goes before. */
  function Insert(key: seq<real>, p: nat, ps: seq<nat>): (r: seq<nat>)
    ensures |r| == |ps| + 1
  {
    if ps == [] then [p]
    else if Before(key, p, ps[0]) then [p] + ps
    else [ps[0]] + Insert(key, p, ps[1..])
  }

  function Sort(key: seq<real>, ps: seq<nat>): (r: seq<nat>)
    ensures |r| == |ps|
  {
    if ps == [] then [] else Insert(key, ps[0], Sort(key, ps[1..]))
  }

  function Positions(n: nat): (r: seq<nat>)
    ensures |r| == n
  {
    if n == 0 then [] else Positions(n - 1) + [n - 1]
  }

  /** The positions of `key` in stable descending order. */
  function Order(key: seq<real>): (r: seq<nat>)
    ensures |r| == |key|
    ensures forall i :: 0 <= i < |r| ==> r[i] < |key|
  {
    PositionsDistinct(|key|);
    SortCorrect(key, Positions(|key|));
    Sort(key, Positions(|key|))
  }

  lemma {:induction false} InsertPerm(key: seq<real>, p: nat, ps: seq<nat>)
    ensures multiset(Insert(key, p, ps)) == multiset(ps) + multiset{p}
  {
    if ps != [] && !Before(key, p, ps[0]) {
      InsertPerm(key, p, ps[1..]);
      assert ps == [ps[0]] + ps[1..];
    }
  }

  lemma {:induction false} InsertSorted(key: seq<real>, p: nat, ps: seq<nat>)
    requires SortedBy(key, ps) && p < |key| && p !in ps
    requires forall i :: 0 <= i < |ps| ==> ps[i] < |key|
    ensures SortedBy(key, Insert(key, p, ps))
  {
    if ps != [] && !Before(key, p, ps[0]) {
      var rest := Insert(key, p, ps[1..]);
      assert ps[0] != p;
      InsertSorted(key, p, ps[1..]);
      InsertPerm(key, p, ps[1..]);
      var r := [ps[0]] + rest;
      forall j | 0 < j < |r| ensures Before(key, r[0], r[j]) {
        assert r[j] in multiset(rest);
        if r[j] != p {
          assert r[j] in ps[1..];
          var m :| 0 <= m < |ps[1..]| && ps[1..][m] == r[j];
          assert ps[m + 1] == r[j];
        }
      }
      forall i, j | 0 <= i < j < |r| ensures Before(key, r[i], r[j]) {
        if i > 0 { assert r[i] == rest[i - 1] && r[j] == rest[j - 1]; }
      }
    }
  }

  lemma HeadNotInTail(ps: seq<nat>)
    requires ps != []
    requires forall i, j :: 0 <= i < j < |ps| ==> ps[i] != ps[j]
    ensures ps[0] !in multiset(ps[1..])
  {
    forall m | 0 <= m < |ps[1..]| ensures ps[1..][m] != ps[0] {
      assert ps[1..][m] == ps[m + 1];
    }
  }

  lemma InsertBounded(key: seq<real>, p: nat, ps: seq<nat>)
    requires p < |key|
    requires forall i :: 0 <= i < |ps| ==> ps[i] < |key|
    ensures forall i :: 0 <= i < |Insert(key, p, ps)| ==> Insert(key, p, ps)[i] < |key|
  {
    var r := Insert(key, p, ps);
    InsertPerm(key, p, ps);
    forall i | 0 <= i < |r| ensures r[i] < |key| {
      assert r[i] in multiset(r);
      if r[i] != p {
        assert r[i] in multiset(ps);
        var m :| 0 <= m < |ps| && ps[m] == r[i];
      }
    }
  }

  /** Sorting distinct valid positions gives them all back, in stable descending order. */
  lemma {:induction false} SortCorrect(key: seq<real>, ps: seq<nat>)
    requires forall i :: 0 <= i < |ps| ==> ps[i] < |key|
    requires forall i, j :: 0 <= i < j < |ps| ==> ps[i] != ps[j]
    ensures multiset(Sort(key, ps)) == multiset(ps)
    ensures SortedBy(key, Sort(key, ps))
    ensures forall i :: 0 <= i < |Sort(key, ps)| ==> Sort(key, ps)[i] < |key|
  {
    if ps != [] {
      var rest := Sort(key, ps[1..]);
      SortCorrect(key, ps[1..]);
      assert ps == [ps[0]] + ps[1..];
      HeadNotInTail(ps);
      InsertSorted(key, ps[0], rest);
      InsertPerm(key, ps[0], rest);
      InsertBounded(key, ps[0], rest);
    }
  }

  lemma {:induction false} PositionsDistinct(n: nat)
    ensures forall i :: 0 <= i < n ==> Positions(n)[i] == i
  {
    if n > 0 {
      PositionsDistinct(n - 1);
    }
  }

  /** The order holds every position exactly once and is sorted by `Before`. */
  lemma OrderCorrect(key: seq<real>)
    ensures forall p :: 0 <= p < |key| ==> p in Order(key)
    ensures SortedBy(key, Order(key))
  {
    var ps := Positions(|key|);
    PositionsDistinct(|key|);
    SortCorrect(key, ps);
    var r := Order(key);
    assert |r| == |multiset(r)| == |multiset(ps)| == |key|;
    forall p | 0 <= p < |key| ensures p in r {
      assert ps[p] == p;
      assert p in multiset(ps);
    }
  }

  lemma SortedTail(key: seq<real>, a: seq<nat>)
    requires a != [] && SortedBy(key, a)
    ensures SortedBy(key, a[1..])
  {
    forall i, j | 0 <= i < j < |a[1..]| ensures Before(key, a[1..][i], a[1..][j]) {
      assert a[1..][i] == a[i + 1] && a[1..][j] == a[j + 1];
    }
  }

  /** Two sorted arrangements of the same positions start with the same one. */
  lemma SortedHeads(key: seq<real>, a: seq<nat>, b: seq<nat>)
    requires a != [] && SortedBy(key, a) && SortedBy(key, b) && multiset(a) == multiset(b)
    ensures b != [] && a[0] == b[0]
  {
    assert a[0] in multiset(b);
    var i :| 0 <= i < |b| && b[i] == a[0];
    assert b[0] in multiset(a);
    var j :| 0 <= j < |a| && a[j] == b[0];
  }

  /** Any arrangement of the same positions that is sorted by `Before` is the same
      sequence: so `Order` is what every stable descending sort returns. */
  lemma {:induction false} SortedUnique(key: seq<real>, a: seq<nat>, b: seq<nat>)
    requires SortedBy(key, a) && SortedBy(key, b) && multiset(a) == multiset(b)
    ensures a == b
    decreases |a|
  {
    if a != [] {
      SortedHeads(key, a, b);
      assert a == [a[0]] + a[1..] && b == [b[0]] + b[1..];
      assert multiset(a[1..]) == multiset(a) - multiset{a[0]};
      assert multiset(b[1..]) == multiset(b) - multiset{b[0]};
      SortedTail(key, a);
      SortedTail(key, b);
      SortedUnique(key, a[1..], b[1..]);
    } else {
      assert |b| == |multiset(b)| == 0;
    }
  }

  // ---------------------------------------------------------------- best k by key

  /** The items in the order of `order`. */
  function Arrange<T>(items: seq<T>, order: seq<nat>): (r: seq<T>)
    requires forall i :: 0 <= i < |order| ==> order[i] < |items|
    ensures |r| == |order|
  {
    seq(|order|, i requires 0 <= i < |order| => items[order[i]])
  }

  /** The items sorted by descending key, stably, then `slice(0, k)`. */
  function TopByKey<T>(items: seq<T>, key: seq<real>, k: int): seq<T>
    requires |key| == |items|
  {
    Slice0(Arrange(items, Order(key)), k)
  }

  lemma ArrangeCons<T>(items: seq<T>, p: nat, ps: seq<nat>)
    requires p < |items| && forall i :: 0 <= i < |ps| ==> ps[i] < |items|
    ensures Arrange(items, [p] + ps) == [items[p]] + Arrange(items, ps)
  {
  }

  lemma {:induction false} InsertArrange<T>(items: seq<T>, key: seq<real>, p: nat, ps: seq<nat>)
    requires p < |items| && forall i :: 0 <= i < |ps| ==> ps[i] < |items|
    ensures forall i :: 0 <= i < |Insert(key, p, ps)| ==> Insert(key, p, ps)[i] < |items|
    ensures multiset(Arrange(items, Insert(key, p, ps))) == multiset(Arrange(items, ps)) + multiset{items[p]}
  {
    if ps == [] {
    } else if Before(key, p, ps[0]) {
      ArrangeCons(items, p, ps);
    } else {
      InsertArrange(items, key, p, ps[1..]);
      ArrangeCons(items, ps[0], Insert(key, p, ps[1..]));
      ArrangeCons(items, ps[0], ps[1..]);
      assert ps == [ps[0]] + ps[1..];
    }
  }

  lemma {:induction false} SortArrange<T>(items: seq<T>, key: seq<real>, ps: seq<nat>)
    requires forall i :: 0 <= i < |ps| ==> ps[i] < |items|
    ensures forall i :: 0 <= i < |Sort(key, ps)| ==> Sort(key, ps)[i] < |items|
    ensures multiset(Arrange(items, Sort(key, ps))) == multiset(Arrange(items, ps))
  {
    if ps != [] {
      SortArrange(items, key, ps[1..]);
      InsertArrange(items, key, ps[0], Sort(key, ps[1..]));
      ArrangeCons(items, ps[0], ps[1..]);
      assert ps == [ps[0]] + ps[1..];
    }
  }

  /** Sorting moves the items around and loses or adds none. */
  lemma ArrangeOrderPerm<T>(items: seq<T>, key: seq<real>)
    requires |key| == |items|
    ensures multiset(Arrange(items, Order(key))) == multiset(items)
  {
    PositionsDistinct(|key|);
    SortArrange(items, key, Positions(|key|));
    assert Arrange(items, Positions(|key|)) == items;
  }

  lemma PrefixSubBag<T>(s: seq<T>, m: nat)
    requires m <= |s|
    ensures multiset(s[..m]) <= multiset(s)
  {
    assert s == s[..m] + s[m..];
  }

  /** For a non-negative `k`: `min(k, n)` items, taken from the input without repetition
      (as a multiset they are part of it), each the item at the position the order puts
      there, keys non-increasing and equal keys in input order. */
  lemma TopByKeyShape<T>(items: seq<T>, key: seq<real>, k: int)
    requires |key| == |items| && k >= 0
    ensures var r := TopByKey(items, key, k); var o := Order(key);
      && |r| == (if k < |items| then k else |items|)
      && multiset(r) <= multiset(items)
      && (forall i :: 0 <= i < |r| ==> r[i] == items[o[i]])
      && (forall i, j :: 0 <= i < j < |r| ==> key[o[i]] > key[o[j]] || (key[o[i]] == key[o[j]] && o[i] < o[j]))
  {
    OrderCorrect(key);
    var o := Order(key);
    var r := TopByKey(items, key, k);
    ArrangeOrderPerm(items, key);
    PrefixSubBag(Arrange(items, o), |r|);
    forall i, j | 0 <= i < j < |r|
      ensures key[o[i]] > key[o[j]] || (key[o[i]] == key[o[j]] && o[i] < o[j])
    {
      assert Before(key, o[i], o[j]);
    }
  }

  /** A true top-k: a position left out never has a higher key than one returned, and on
      a tie the returned one comes earlier in the input. */
  lemma TopByKeyIsTop(key: seq<real>, k: int, p: nat)
    requires 0 <= k && p < |key|
    requires p !in Order(key)[..(if k < |key| then k else |key|)]
    ensures var m := if k < |key| then k else |key|;
      forall i :: 0 <= i < m ==>
        key[p] < key[Order(key)[i]] || (key[p] == key[Order(key)[i]] && Order(key)[i] < p)
  {
    OrderCorrect(key);
    var o := Order(key);
    var m := if k < |key| then k else |key|;
    assert p in o;
    var j :| 0 <= j < |o| && o[j] == p;
    forall i | 0 <= i < m
      ensures key[p] < key[o[i]] || (key[p] == key[o[i]] && o[i] < p)
    {
      assert Before(key, o[i], o[j]);
    }
  }

  /** When every key is the same, the stable sort keeps the input order, so the best `k`
      are simply the first `k`. */
  lemma EqualKeysKeepOrder<T>(items: seq<T>, key: seq<real>, k: int)
    requires |key| == |items|
    requires forall i :: 0 <= i < |key| ==> key[i] == key[0]
    ensures TopByKey(items, key, k) == Slice0(items, k)
  {
    var n := |key|;
    var ps := Positions(n);
    PositionsDistinct(n);
    SortCorrect(key, ps);
    forall i, j | 0 <= i < j < n ensures Before(key, ps[i], ps[j]) {
      assert ps[i] == i && ps[j] == j;
    }
    SortedUnique(key, Order(key), ps);
    assert Arrange(items, Order(key)) == items;
  }

  // ---------------------------------------------------------------- topK

  function Scores<T>(items: seq<T>, score: T -> real): (key: seq<real>)
    ensures |key| == |items|
  {
    seq(|items|, i requires 0 <= i < |items| => score(items[i]))
  }

  /** `topK`: the items by descending score (stable), then `slice(0, k)`. */
  function TopK<T>(items: seq<T>, score: T -> real, k: int): seq<T>
  {
    TopByKey(items, Scores(items, score), k)
  }

  /** `topK` returns `min(k, n)` items for a non-negative `k`, all drawn from the input
      without repetition, in non-increasing score order. */
  lemma TopKShape<T>(items: seq<T>, score: T -> real, k: int)
    requires k >= 0
    ensures var r := TopK(items, score, k);
      && |r| == (if k < |items| then k else |items|)
      && multiset(r) <= multiset(items)
      && (forall i, j :: 0 <= i < j < |r| ==> score(r[i]) >= score(r[j]))
  {
    var key := Scores(items, score);
    TopByKeyShape(items, key, k);
    var o := Order(key);
    var r := TopK(items, score, k);
    forall i, j | 0 <= i < j < |r| ensures score(r[i]) >= score(r[j]) {
      assert r[i] == items[o[i]] && r[j] == items[o[j]];
      assert key[o[i]] == score(items[o[i]]) && key[o[j]] == score(items[o[j]]);
    }
  }

  /** `topK` is a true top-k: an item left out never scores above one returned, and on a
      tie the returned one comes earlier in the input. */
  lemma TopKIsTop<T>(items: seq<T>, score: T -> real, k: int, p: nat)
    requires 0 <= k && p < |items|
    requires p !in Order(Scores(items, score))[..(if k < |items| then k else |items|)]
    ensures var o := Order(Scores(items, score)); var m := if k < |items| then k else |items|;
      forall i :: 0 <= i < m ==>
        score(items[p]) < score(items[o[i]])
        || (score(items[p]) == score(items[o[i]]) && o[i] < p)
  {
    var key := Scores(items, score);
    TopByKeyIsTop(key, k, p);
  }
}
