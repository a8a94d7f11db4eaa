/** Counting by key, the way a JavaScript object filled by
    `obj[k] = (obj[k] || 0) + 1` counts: one entry per distinct key, in the
    order the keys were first seen. Sequences are consumed from their end so
    that the definitions follow a loop over a growing prefix. */
module Counting {

  /** How many times k occurs in s. */
  function Occurrences(s: seq<string>, k: string): nat
  {
    if s == [] then 0
    else Occurrences(s[..|s| - 1], k) + (if s[|s| - 1] == k then 1 else 0)
  }

  /** The distinct elements of s in the order of their first occurrence:
      the key order of an object whose keys are assigned in the order of s. */
  function Distinct(s: seq<string>): seq<string>
  {
    if s == [] then []
    else
      var d := Distinct(s[..|s| - 1]);
      if s[|s| - 1] in d then d else d + [s[|s| - 1]]
  }

  predicate NoDuplicates(d: seq<string>)
  {
    forall i, j :: 0 <= i < j < |d| ==> d[i] != d[j]
  }

  /** The keys of d, each paired with its number of occurrences in s. */
  function CountsOver(d: seq<string>, s: seq<string>): (t: seq<(string, nat)>)
    ensures |t| == |d|
  {
    if d == [] then [] else [(d[0], Occurrences(s, d[0]))] + CountsOver(d[1..], s)
  }

  /** The entries of the counting object built from s. */
  function Tally(s: seq<string>): seq<(string, nat)>
  {
    CountsOver(Distinct(s), s)
  }

  /** The sum of the counts of a list of entries. */
  function Total(t: seq<(string, nat)>): nat
  {
    if t == [] then 0 else t[0].1 + Total(t[1..])
  }

  /** `obj[k] || 0`: the count of the first entry with key k, or 0. */
  function Lookup(t: seq<(string, nat)>, k: string): nat
  {
    if t == [] then 0 else if t[0].0 == k then t[0].1 else Lookup(t[1..], k)
  }

  /** `Object.entries` of an object whose keys, in insertion order, are
      `order` and whose values are given by m. */
  function Entries<V>(order: seq<string>, m: map<string, V>): (t: seq<(string, V)>)
    requires forall k :: k in order ==> k in m
    ensures |t| == |order|
  {
    if order == [] then [] else [(order[0], m[order[0]])] + Entries(order[1..], m)
  }

  lemma OccurrencesSnoc(s: seq<string>, x: string, k: string)
    ensures Occurrences(s + [x], k) == Occurrences(s, k) + (if x == k then 1 else 0)
  {
    assert (s + [x])[..|s|] == s;
  }

  lemma DistinctSnoc(s: seq<string>, x: string)
    ensures Distinct(s + [x]) == if x in Distinct(s) then Distinct(s) else Distinct(s) + [x]
  {
    assert (s + [x])[..|s|] == s;
  }

  /** A key occurs in s exactly when its count is positive. */
  lemma {:induction false} OccurrencesPositive(s: seq<string>, k: string)
    ensures k in s <==> Occurrences(s, k) > 0
  {
    if s != [] {
      var init := s[..|s| - 1];
      OccurrencesPositive(init, k);
      assert s == init + [s[|s| - 1]];
    }
  }

  /** Distinct(s) lists every element of s, and nothing else, once. */
  lemma {:induction false} DistinctFacts(s: seq<string>)
    ensures NoDuplicates(Distinct(s))
    ensures forall x :: x in Distinct(s) <==> x in s
  {
    if s != [] {
      var init := s[..|s| - 1];
      DistinctFacts(init);
      assert s == init + [s[|s| - 1]];
    }
  }

  /** Distinct(s) is in first-seen order: wherever a later key occurs in s,
      every earlier key has already occurred before it. */
  lemma {:induction false} DistinctInFirstSeenOrder(s: seq<string>)
    ensures forall i, j, b :: 0 <= i < j < |Distinct(s)| && 0 <= b < |s| && s[b] == Distinct(s)[j] ==>
      Distinct(s)[i] in s[..b]
  {
    if s != [] {
      var init, x := s[..|s| - 1], s[|s| - 1];
      assert s == init + [x];
      DistinctInFirstSeenOrder(init);
      DistinctFacts(init);
      DistinctFacts(s);
      var d, d' := Distinct(init), Distinct(s);
      forall i, j, b | 0 <= i < j < |d'| && 0 <= b < |s| && s[b] == d'[j]
        ensures d'[i] in s[..b]
      {
        if b < |init| {
          assert s[b] == init[b] && s[..b] == init[..b];
          assert d'[j] in d;
          assert j < |d| && d'[j] == d[j] && d'[i] == d[i];
        } else {
          assert s[..b] == init;
          assert d'[i] in d;
        }
      }
    }
  }

  lemma {:induction false} CountsOverAt(d: seq<string>, s: seq<string>, i: nat)
    requires i < |d|
    ensures CountsOver(d, s)[i] == (d[i], Occurrences(s, d[i]))
  {
    if i > 0 {
      CountsOverAt(d[1..], s, i - 1);
    }
  }

  /** The entries of Tally(s): one per distinct element of s, in first-seen
      order, each with its exact number of occurrences, which is at least 1. */
  lemma TallyEntries(s: seq<string>)
    ensures |Tally(s)| == |Distinct(s)|
    ensures forall i :: 0 <= i < |Tally(s)| ==>
      Tally(s)[i].0 == Distinct(s)[i] && Tally(s)[i].1 == Occurrences(s, Tally(s)[i].0) >= 1
    ensures forall k :: k in s <==> exists i :: 0 <= i < |Tally(s)| && Tally(s)[i].0 == k
    ensures forall i, j :: 0 <= i < j < |Tally(s)| ==> Tally(s)[i].0 != Tally(s)[j].0
  {
    var d := Distinct(s);
    DistinctFacts(s);
    forall i | 0 <= i < |d|
      ensures Tally(s)[i].0 == d[i] && Tally(s)[i].1 == Occurrences(s, d[i]) >= 1
    {
      CountsOverAt(d, s, i);
      OccurrencesPositive(s, d[i]);
    }
    forall k | k in s
      ensures exists i :: 0 <= i < |Tally(s)| && Tally(s)[i].0 == k
    {
      var i :| 0 <= i < |d| && d[i] == k;
      assert Tally(s)[i].0 == k;
    }
  }

  lemma {:induction false} TotalOfEmpty(d: seq<string>)
    ensures Total(CountsOver(d, [])) == 0
  {
    if d != [] {
      TotalOfEmpty(d[1..]);
    }
  }

  lemma {:induction false} TotalSnoc(d: seq<string>, s: seq<string>, x: string)
    requires NoDuplicates(d)
    ensures Total(CountsOver(d, s + [x])) == Total(CountsOver(d, s)) + (if x in d then 1 else 0)
  {
    if d != [] {
      OccurrencesSnoc(s, x, d[0]);
      assert NoDuplicates(d[1..]);
      TotalSnoc(d[1..], s, x);
      assert d == [d[0]] + d[1..];
    }
  }

  /** Counting the elements of s under keys that cover s, each key once,
      accounts for every element of s exactly once. */
  lemma {:induction false} TotalCountsOver(d: seq<string>, s: seq<string>)
    requires NoDuplicates(d)
    requires forall x :: x in s ==> x in d
    ensures Total(CountsOver(d, s)) == |s|
  {
    if s == [] {
      TotalOfEmpty(d);
    } else {
      var init, x := s[..|s| - 1], s[|s| - 1];
      assert s == init + [x];
      TotalCountsOver(d, init);
      TotalSnoc(d, init, x);
    }
  }

  /** The counts of a tally add up to the length of what was counted. */
  lemma TallyTotal(s: seq<string>)
    ensures Total(Tally(s)) == |s|
  {
    DistinctFacts(s);
    TotalCountsOver(Distinct(s), s);
  }

  lemma {:induction false} LookupCountsOver(d: seq<string>, s: seq<string>, k: string)
    ensures Lookup(CountsOver(d, s), k) == if k in d then Occurrences(s, k) else 0
  {
    if d != [] {
      LookupCountsOver(d[1..], s, k);
      assert d == [d[0]] + d[1..];
    }
  }

  /** Looking a key up in a tally gives its number of occurrences, and 0
      for a key that never occurred. */
  lemma LookupTally(s: seq<string>, k: string)
    ensures Lookup(Tally(s), k) == Occurrences(s, k)
  {
    DistinctFacts(s);
    LookupCountsOver(Distinct(s), s, k);
    OccurrencesPositive(s, k);
  }

  /** The entries of a counting object whose values are the counts of s. */
  lemma {:induction false} EntriesCounts(order: seq<string>, m: map<string, nat>, s: seq<string>)
    requires forall k :: k in order ==> k in m && m[k] == Occurrences(s, k)
    ensures Entries(order, m) == CountsOver(order, s)
  {
    if order != [] {
      EntriesCounts(order[1..], m, s);
    }
  }

  /** The state of a counting loop that has seen `seen`: the object's keys
      in insertion order are `order`, and each key maps to its count. */
  ghost predicate Counted(order: seq<string>, counts: map<string, nat>, seen: seq<string>)
  {
    && order == Distinct(seen)
    && (forall k :: k in counts <==> k in order)
    && (forall k :: k in counts ==> counts[k] == Occurrences(seen, k))
  }

  /** One step of a counting loop, `obj[key] = (obj[key] || 0) + 1`: a new
      key goes to the end of the key order, and only key's count changes. */
  lemma CountStep(seen: seq<string>, key: string, order: seq<string>, counts: map<string, nat>)
    requires Counted(order, counts, seen)
    ensures Counted(if key in counts then order else order + [key],
                    counts[key := (if key in counts then counts[key] else 0) + 1],
                    seen + [key])
  {
    DistinctFacts(seen);
    DistinctSnoc(seen, key);
    OccurrencesPositive(seen, key);
    forall k
      ensures Occurrences(seen + [key], k) == Occurrences(seen, k) + (if key == k then 1 else 0)
    {
      OccurrencesSnoc(seen, key, k);
    }
  }
}
