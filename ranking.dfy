/** Ranking a list of (key, count) entries the way
    `entries.sort(([,a], [,b]) => b - a).slice(0, n)` does: the array sort of
    JavaScript is stable, so entries are ordered by count, largest first, and
    entries with equal counts keep their relative order. */
module Ranking {

  predicate SortedByCountDesc(t: seq<(string, nat)>)
  {
    forall i, j :: 0 <= i < j < |t| ==> t[i].1 >= t[j].1
  }

  predicate UniqueKeys(t: seq<(string, nat)>)
  {
    forall i, j :: 0 <= i < j < |t| ==> t[i].0 != t[j].0
  }

  /** Puts e in front of the first entry whose count is not larger than e's. */
  function Insert(e: (string, nat), t: seq<(string, nat)>): seq<(string, nat)>
  {
    if t == [] then [e]
    else if e.1 >= t[0].1 then [e] + t
    else [t[0]] + Insert(e, t[1..])
  }

  /** Stable sort by descending count. */
  function SortByCount(t: seq<(string, nat)>): seq<(string, nat)>
  {
    if t == [] then [] else Insert(t[0], SortByCount(t[1..]))
  }

  /** `slice(0, n)`: the first n entries, or all of them when there are fewer. */
  function Top(t: seq<(string, nat)>, n: nat): (r: seq<(string, nat)>)
    ensures |r| <= n && |r| <= |t|
    ensures |r| == n || r == t
    ensures forall i :: 0 <= i < |r| ==> r[i] == t[i]
  {
    if |t| <= n then t else t[..n]
  }

  /** The entries of t with count c, in their order in t. */
  function WithCount(t: seq<(string, nat)>, c: nat): seq<(string, nat)>
  {
    if t == [] then []
    else (if t[0].1 == c then [t[0]] else []) + WithCount(t[1..], c)
  }

  lemma {:induction false} InsertPermutes(e: (string, nat), t: seq<(string, nat)>)
    ensures multiset(Insert(e, t)) == multiset(t) + multiset{e}
  {
    if t != [] && e.1 < t[0].1 {
      InsertPermutes(e, t[1..]);
      assert t == [t[0]] + t[1..];
    }
  }

  lemma {:induction false} InsertSorted(e: (string, nat), t: seq<(string, nat)>)
    requires SortedByCountDesc(t)
    ensures SortedByCountDesc(Insert(e, t))
  {
    if t != [] && e.1 < t[0].1 {
      var rest := Insert(e, t[1..]);
      InsertSorted(e, t[1..]);
      InsertPermutes(e, t[1..]);
      forall x | x in rest
        ensures x.1 <= t[0].1
      {
        assert x in multiset(rest);
        assert x == e || x in t[1..];
      }
    }
  }

  lemma {:induction false} InsertUniqueKeys(e: (string, nat), t: seq<(string, nat)>)
    requires UniqueKeys(t)
    requires forall x :: x in t ==> x.0 != e.0
    ensures UniqueKeys(Insert(e, t))
  {
    if t != [] && e.1 < t[0].1 {
      var rest := Insert(e, t[1..]);
      InsertUniqueKeys(e, t[1..]);
      InsertPermutes(e, t[1..]);
      forall x | x in rest
        ensures x.0 != t[0].0
      {
        assert x in multiset(rest);
        assert x == e || x in t[1..];
      }
    }
  }

  lemma WithCountCons(x: (string, nat), t: seq<(string, nat)>, c: nat)
    ensures WithCount([x] + t, c) == (if x.1 == c then [x] else []) + WithCount(t, c)
  {
    assert ([x] + t)[1..] == t;
  }

  lemma {:induction false} InsertStable(e: (string, nat), t: seq<(string, nat)>, c: nat)
    ensures WithCount(Insert(e, t), c) == WithCount([e], c) + WithCount(t, c)
  {
    WithCountCons(e, [], c);
    assert [e] + [] == [e];
    if t == [] {
    } else if e.1 >= t[0].1 {
      WithCountCons(e, t, c);
    } else {
      var rest := Insert(e, t[1..]);
      InsertStable(e, t[1..], c);
      WithCountCons(t[0], rest, c);
      WithCountCons(t[0], t[1..], c);
      assert [t[0]] + t[1..] == t;
    }
  }

  lemma {:induction false} SortByCountPermutes(t: seq<(string, nat)>)
    ensures multiset(SortByCount(t)) == multiset(t)
    ensures |SortByCount(t)| == |t|
  {
    if t != [] {
      SortByCountPermutes(t[1..]);
      InsertPermutes(t[0], SortByCount(t[1..]));
      assert t == [t[0]] + t[1..];
    }
  }

  /** The result is ordered by count, largest first. */
  lemma {:induction false} SortByCountSorted(t: seq<(string, nat)>)
    ensures SortedByCountDesc(SortByCount(t))
  {
    if t != [] {
      SortByCountSorted(t[1..]);
      InsertSorted(t[0], SortByCount(t[1..]));
    }
  }

  /** Sorting is stable: for every count, the entries with that count come
      out in the order they went in. */
  lemma {:induction false} SortByCountStable(t: seq<(string, nat)>, c: nat)
    ensures WithCount(SortByCount(t), c) == WithCount(t, c)
  {
    if t != [] {
      SortByCountStable(t[1..], c);
      InsertStable(t[0], SortByCount(t[1..]), c);
    }
  }

  /** Sorting keeps keys unique. */
  lemma {:induction false} SortByCountUniqueKeys(t: seq<(string, nat)>)
    requires UniqueKeys(t)
    ensures UniqueKeys(SortByCount(t))
  {
    if t != [] {
      SortByCountUniqueKeys(t[1..]);
      SortByCountPermutes(t[1..]);
      forall x | x in SortByCount(t[1..])
        ensures x.0 != t[0].0
      {
        assert x in multiset(SortByCount(t[1..]));
        assert x in t[1..];
      }
      InsertUniqueKeys(t[0], SortByCount(t[1..]));
    }
  }

  /** An entry of a sorted list that did not make the first n has a count no
      larger than every entry that did, and the cut kept exactly n. */
  lemma TopDominates(t: seq<(string, nat)>, n: nat, j: nat)
    requires SortedByCountDesc(t)
    requires j < |t|
    ensures j < n || (|Top(t, n)| == n && forall i :: 0 <= i < n ==> Top(t, n)[i].1 >= t[j].1)
  {
  }

  lemma {:induction false} WithCountMembers(t: seq<(string, nat)>, c: nat)
    ensures forall x :: x in WithCount(t, c) <==> x in t && x.1 == c
  {
    if t != [] {
      WithCountMembers(t[1..], c);
      assert t == [t[0]] + t[1..];
    }
  }

  /** Two entries with count c appear in WithCount(t, c) in their order in t. */
  lemma {:induction false} WithCountKeepsOrder(t: seq<(string, nat)>, c: nat, i: nat, j: nat)
    requires i < j < |t| && t[i].1 == c && t[j].1 == c
    ensures exists p, q :: 0 <= p < q < |WithCount(t, c)| && WithCount(t, c)[p] == t[i] && WithCount(t, c)[q] == t[j]
  {
    var w, w' := WithCount(t, c), WithCount(t[1..], c);
    assert [t[0]] + t[1..] == t;
    WithCountCons(t[0], t[1..], c);
    if i == 0 {
      WithCountMembers(t[1..], c);
      assert t[j] in w';
      var q :| 0 <= q < |w'| && w'[q] == t[j];
      assert w[0] == t[i] && w[q + 1] == t[j];
    } else {
      WithCountKeepsOrder(t[1..], c, i - 1, j - 1);
      var p, q :| 0 <= p < q < |w'| && w'[p] == t[i] && w'[q] == t[j];
      if t[0].1 == c {
        assert w[p + 1] == t[i] && w[q + 1] == t[j];
      } else {
        assert w[p] == t[i] && w[q] == t[j];
      }
    }
  }

  lemma {:induction false} WithCountFromOrder(t: seq<(string, nat)>, c: nat, p: nat, q: nat)
    requires p < q < |WithCount(t, c)|
    ensures exists a, b :: 0 <= a < b < |t| && t[a] == WithCount(t, c)[p] && t[b] == WithCount(t, c)[q]
  {
    var w, w' := WithCount(t, c), WithCount(t[1..], c);
    if t[0].1 == c {
      assert w == [t[0]] + w';
      if p == 0 {
        WithCountMembers(t[1..], c);
        assert w'[q - 1] in t[1..];
        var b :| 0 <= b < |t[1..]| && t[1..][b] == w'[q - 1];
        assert t[0] == w[p] && t[b + 1] == w[q];
      } else {
        WithCountFromOrder(t[1..], c, p - 1, q - 1);
        var a, b :| 0 <= a < b < |t[1..]| && t[1..][a] == w'[p - 1] && t[1..][b] == w'[q - 1];
        assert t[a + 1] == w[p] && t[b + 1] == w[q];
      }
    } else {
      assert w == w';
      WithCountFromOrder(t[1..], c, p, q);
      var a, b :| 0 <= a < b < |t[1..]| && t[1..][a] == w'[p] && t[1..][b] == w'[q];
      assert t[a + 1] == w[p] && t[b + 1] == w[q];
    }
  }

  /** Two entries with equal counts come out of the sort in the order in
      which they went in. */
  lemma SortByCountKeepsTieOrder(t: seq<(string, nat)>, i: nat, j: nat)
    requires i < j < |SortByCount(t)| && SortByCount(t)[i].1 == SortByCount(t)[j].1
    ensures exists a, b :: 0 <= a < b < |t| && t[a] == SortByCount(t)[i] && t[b] == SortByCount(t)[j]
  {
    var sorted, c := SortByCount(t), SortByCount(t)[i].1;
    WithCountKeepsOrder(sorted, c, i, j);
    var p, q :| 0 <= p < q < |WithCount(sorted, c)| &&
      WithCount(sorted, c)[p] == sorted[i] && WithCount(sorted, c)[q] == sorted[j];
    SortByCountStable(t, c);
    WithCountFromOrder(t, c, p, q);
  }
}
