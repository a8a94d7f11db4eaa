/** What the four PSC queries promise, alone and against each other. */
module PscProperties {

  import opened PscRecords
  import opened Counting
  import opened Ranking
  import opened Criticality
  import opened PscAnalysis

  // ---------------------------------------------------------------------
  // getCommonDeficiencies

  /** The texts the count loop sees are exactly the non-empty deficiency
      texts of the records. */
  lemma {:induction false} NaturesMembers(data: seq<PscRecord>)
    ensures forall x :: x in Natures(data) ==> x != ""
    ensures forall k :: k in Natures(data) <==>
      exists i :: 0 <= i < |data| && HasNature(data[i]) && data[i].nature.value == k
  {
    if data != [] {
      var init, last := data[..|data| - 1], data[|data| - 1];
      assert data == init + [last];
      NaturesMembers(init);
      NaturesSnoc(init, last);
      forall k | exists i :: 0 <= i < |data| && HasNature(data[i]) && data[i].nature.value == k
        ensures k in Natures(data)
      {
        var i :| 0 <= i < |data| && HasNature(data[i]) && data[i].nature.value == k;
        if i < |init| {
          assert data[i] == init[i];
        }
      }
    }
  }

  /** getCommonDeficiencies returns at most 10 entries, ordered by count,
      largest first, with distinct non-empty texts, each carrying its number
      of occurrences over the WHOLE data set (so at least 1). */
  lemma CommonDeficienciesFacts(data: seq<PscRecord>)
    ensures |CommonDeficiencies(data)| <= TopLimit
    ensures SortedByCountDesc(CommonDeficiencies(data))
    ensures UniqueKeys(CommonDeficiencies(data))
    ensures forall i :: 0 <= i < |CommonDeficiencies(data)| ==>
      var (text, count) := CommonDeficiencies(data)[i];
      text != "" && text in Natures(data) && count == Occurrences(Natures(data), text) && count >= 1
  {
    var natures := Natures(data);
    var full := Tally(natures);
    var sorted := SortByCount(full);
    var r := CommonDeficiencies(data);
    TallyEntries(natures);
    NaturesMembers(data);
    SortByCountPermutes(full);
    SortByCountSorted(full);
    SortByCountUniqueKeys(full);
    forall i | 0 <= i < |r|
      ensures r[i].0 != "" && r[i].0 in natures && r[i].1 == Occurrences(natures, r[i].0) && r[i].1 >= 1
    {
      assert r[i] == sorted[i];
      assert sorted[i] in multiset(sorted);
      assert sorted[i] in full;
      var j :| 0 <= j < |full| && full[j] == sorted[i];
      OccurrencesPositive(natures, full[j].0);
    }
  }

  /** The cut comes after the count: a text that is not among the returned
      entries only misses out because 10 entries with counts at least as
      large were returned. */
  lemma CommonDeficienciesComplete(data: seq<PscRecord>, text: string)
    requires text in Natures(data)
    ensures var r := CommonDeficiencies(data);
            var count := Occurrences(Natures(data), text);
            || (exists i :: 0 <= i < |r| && r[i] == (text, count))
            || (|r| == TopLimit && forall i :: 0 <= i < |r| ==> r[i].1 >= count)
  {
    var natures := Natures(data);
    var full := Tally(natures);
    var sorted := SortByCount(full);
    TallyEntries(natures);
    var j :| 0 <= j < |full| && full[j].0 == text;
    SortByCountPermutes(full);
    SortByCountSorted(full);
    assert full[j] in multiset(sorted);
    var m :| 0 <= m < |sorted| && sorted[m] == full[j];
    TopDominates(sorted, TopLimit, m);
    if m < TopLimit {
      assert CommonDeficiencies(data)[m] == (text, Occurrences(natures, text));
    }
  }

  /** Ties keep first-seen order: of two returned texts with the same
      count, the earlier one occurs in the data before any occurrence of the
      later one. */
  lemma CommonDeficienciesTies(data: seq<PscRecord>, i: nat, j: nat)
    requires i < j < |CommonDeficiencies(data)|
    requires CommonDeficiencies(data)[i].1 == CommonDeficiencies(data)[j].1
    ensures forall b :: 0 <= b < |Natures(data)| && Natures(data)[b] == CommonDeficiencies(data)[j].0 ==>
      CommonDeficiencies(data)[i].0 in Natures(data)[..b]
  {
    var natures := Natures(data);
    var full := Tally(natures);
    var sorted := SortByCount(full);
    assert CommonDeficiencies(data)[i] == sorted[i] && CommonDeficiencies(data)[j] == sorted[j];
    SortByCountKeepsTieOrder(full, i, j);
    var a, b :| 0 <= a < b < |full| && full[a] == sorted[i] && full[b] == sorted[j];
    TallyEntries(natures);
    DistinctInFirstSeenOrder(natures);
    assert full[a].0 == Distinct(natures)[a] && full[b].0 == Distinct(natures)[b];
  }

  // ---------------------------------------------------------------------
  // getDeficienciesByCriticality

  /** Every record lands in exactly one bucket: the buckets are the four
      tiers and "Unknown", each holds the number of records of that tier,
      and the counts add up to the number of records. */
  lemma CriticalityCountsFacts(data: seq<PscRecord>)
    ensures forall i :: 0 <= i < |CriticalityCounts(data)| ==>
      CriticalityCounts(data)[i].0 in Tiers || CriticalityCounts(data)[i].0 == Unknown
    ensures forall i, j :: 0 <= i < j < |CriticalityCounts(data)| ==>
      CriticalityCounts(data)[i].0 != CriticalityCounts(data)[j].0
    ensures Total(CriticalityCounts(data)) == |data|
    ensures forall tier :: Lookup(CriticalityCounts(data), tier) == Occurrences(Criticalities(data), tier)
  {
    var tiers := Criticalities(data);
    TallyEntries(tiers);
    TallyTotal(tiers);
    forall i | 0 <= i < |CriticalityCounts(data)|
      ensures CriticalityCounts(data)[i].0 in Tiers || CriticalityCounts(data)[i].0 == Unknown
    {
      assert CriticalityCounts(data)[i].0 in tiers;
    }
    forall tier
      ensures Lookup(CriticalityCounts(data), tier) == Occurrences(tiers, tier)
    {
      LookupTally(tiers, tier);
    }
  }

  /** A code the table does not list is counted under "Unknown", not dropped. */
  lemma UnknownCodesCounted(data: seq<PscRecord>, i: nat)
    requires i < |data|
    requires data[i].code.None? || data[i].code.value !in CriticalityMapping
    ensures Lookup(CriticalityCounts(data), Unknown) >= 1
  {
    LookupTally(Criticalities(data), Unknown);
    assert Criticalities(data)[i] == Unknown;
    OccurrencesPositive(Criticalities(data), Unknown);
  }

  /** The table's tiers: only code "30" is critical. */
  lemma MappingTiers(code: string)
    requires code in CriticalityMapping
    ensures CriticalityMapping[code] in Tiers
    ensures CriticalityMapping[code] == "Critical" <==> code == DetentionCode
  {
    assert Classify(Some(code)) == CriticalityMapping[code];
  }

  // ---------------------------------------------------------------------
  // getDetentionAnalysis

  lemma {:induction false} DetainedAt(data: seq<PscRecord>)
    ensures |Detained(data)| == |DetentionIndices(data)|
    ensures forall j :: 0 <= j < |DetentionIndices(data)| ==>
      DetentionIndices(data)[j] < |data| && Detained(data)[j] == data[DetentionIndices(data)[j]]
    ensures forall j, k :: 0 <= j < k < |DetentionIndices(data)| ==>
      DetentionIndices(data)[j] < DetentionIndices(data)[k]
    ensures forall i :: 0 <= i < |data| && IsDetention(data[i]) ==> i in DetentionIndices(data)
    ensures forall j :: 0 <= j < |DetentionIndices(data)| ==> IsDetention(data[DetentionIndices(data)[j]])
  {
    if data != [] {
      var init, last := data[..|data| - 1], data[|data| - 1];
      assert data == init + [last];
      DetainedAt(init);
      DetainedSnoc(init, last);
      var idx0, idx := DetentionIndices(init), DetentionIndices(data);
      assert forall i :: 0 <= i < |init| ==> data[i] == init[i];
      if IsDetention(last) {
        assert idx == idx0 + [|init|];
        assert Detained(data) == Detained(init) + [last];
      } else {
        assert idx == idx0;
        assert Detained(data) == Detained(init);
      }
      forall i | 0 <= i < |data| && IsDetention(data[i])
        ensures i in idx
      {
        if i < |init| {
          assert i in idx0;
        }
      }
    }
  }

  /** getDetentionAnalysis lists exactly the records with code "30", in
      record order, each projected without change: entry j comes from record
      idx[j], the positions idx ascend, and every detention record is among
      them. */
  lemma DetentionAnalysisExact(data: seq<PscRecord>)
    ensures var r, idx := GetDetentionAnalysis(data), DetentionIndices(data);
            && |r| == |idx|
            && (forall j, k :: 0 <= j < k < |idx| ==> idx[j] < idx[k])
            && (forall i :: 0 <= i < |data| && IsDetention(data[i]) ==> i in idx)
            && (forall j :: 0 <= j < |idx| ==>
                  && idx[j] < |data|
                  && data[idx[j]].code == Some(DetentionCode)
                  && r[j].port == data[idx[j]].port
                  && r[j].country == data[idx[j]].country
                  && r[j].date == data[idx[j]].date
                  && r[j].deficiency == data[idx[j]].nature)
  {
    DetainedAt(data);
  }

  lemma {:induction false} CriticalCountIsDetentions(data: seq<PscRecord>)
    ensures Occurrences(Criticalities(data), "Critical") == |Detained(data)|
  {
    if data != [] {
      var init, last := data[..|data| - 1], data[|data| - 1];
      assert data == init + [last];
      CriticalCountIsDetentions(init);
      DetainedSnoc(init, last);
      CriticalitiesPrefix(data, |data| - 1);
      assert data[..|data|] == data;
      OccurrencesSnoc(Criticalities(init), Classify(last.code), "Critical");
    }
  }

  /** The detention list is as long as the "Critical" bucket (0 when the
      bucket is absent). */
  lemma DetentionsMatchCritical(data: seq<PscRecord>)
    ensures |GetDetentionAnalysis(data)| == Lookup(CriticalityCounts(data), "Critical")
  {
    LookupTally(Criticalities(data), "Critical");
    CriticalCountIsDetentions(data);
  }

  // ---------------------------------------------------------------------
  // getDeficienciesByPort

  function CountTotal(t: seq<(string, PortSummary)>): nat
  {
    if t == [] then 0 else t[0].1.count + CountTotal(t[1..])
  }

  function DetentionTotal(t: seq<(string, PortSummary)>): nat
  {
    if t == [] then 0 else t[0].1.detentions + DetentionTotal(t[1..])
  }

  lemma {:induction false} SummariesOverAt(d: seq<string>, data: seq<PscRecord>, i: nat)
    requires i < |d|
    ensures SummariesOver(d, data)[i] == (d[i], Summary(data, d[i]))
  {
    if i > 0 {
      SummariesOverAt(d[1..], data, i - 1);
    }
  }

  lemma {:induction false} TotalsOver(d: seq<string>, data: seq<PscRecord>)
    ensures CountTotal(SummariesOver(d, data)) == Total(CountsOver(d, PortKeys(data)))
    ensures DetentionTotal(SummariesOver(d, data)) == Total(CountsOver(d, PortKeys(Detained(data))))
  {
    if d != [] {
      TotalsOver(d[1..], data);
    }
  }

  /** A port never has more detentions than records. */
  lemma {:induction false} DetentionsAtMostCount(data: seq<PscRecord>, p: string)
    ensures Occurrences(PortKeys(Detained(data)), p) <= Occurrences(PortKeys(data), p)
  {
    if data != [] {
      var init, last := data[..|data| - 1], data[|data| - 1];
      assert data == init + [last];
      DetentionsAtMostCount(init, p);
      DetainedSnoc(init, last);
      PortKeysSnoc(init, last);
      OccurrencesSnoc(PortKeys(init), KeyOf(last.port), p);
      if IsDetention(last) {
        PortKeysSnoc(Detained(init), last);
        OccurrencesSnoc(PortKeys(Detained(init)), KeyOf(last.port), p);
      } else {
        assert Detained(data) == Detained(init);
      }
    }
  }

  /** getDeficienciesByPort has one entry per port key, in first-seen
      order; every entry has 1 <= count and 0 <= detentions <= count; the
      counts add up to the number of records and the detentions to the
      length of the detention list. */
  lemma PortTableFacts(data: seq<PscRecord>)
    ensures forall i :: 0 <= i < |PortTable(data)| ==>
      PortTable(data)[i].0 == Distinct(PortKeys(data))[i] &&
      1 <= PortTable(data)[i].1.count &&
      PortTable(data)[i].1.detentions <= PortTable(data)[i].1.count
    ensures forall i, j :: 0 <= i < j < |PortTable(data)| ==> PortTable(data)[i].0 != PortTable(data)[j].0
    ensures forall p :: p in PortKeys(data) <==> exists i :: 0 <= i < |PortTable(data)| && PortTable(data)[i].0 == p
    ensures CountTotal(PortTable(data)) == |data|
    ensures DetentionTotal(PortTable(data)) == |GetDetentionAnalysis(data)|
  {
    var keys := PortKeys(data);
    var d := Distinct(keys);
    var t := PortTable(data);
    DistinctFacts(keys);
    forall i | 0 <= i < |t|
      ensures t[i].0 == d[i] && 1 <= t[i].1.count && t[i].1.detentions <= t[i].1.count
    {
      SummariesOverAt(d, data, i);
      OccurrencesPositive(keys, d[i]);
      DetentionsAtMostCount(data, d[i]);
    }
    forall p | p in keys
      ensures exists i :: 0 <= i < |t| && t[i].0 == p
    {
      var i :| 0 <= i < |d| && d[i] == p;
      assert t[i].0 == p;
    }
    TotalsOver(d, data);
    TotalCountsOver(d, keys);
    DetainedPortsIn(data);
    TotalCountsOver(d, PortKeys(Detained(data)));
  }

  /** The country of a port is that of the first record with the port key. */
  lemma {:induction false} FirstCountryIsFirst(data: seq<PscRecord>, p: string)
    requires p in PortKeys(data)
    ensures exists j :: (0 <= j < |data| && KeyOf(data[j].port) == p &&
      (forall m :: 0 <= m < j ==> KeyOf(data[m].port) != p) &&
      FirstCountry(data, p) == data[j].country)
  {
    var init, last := data[..|data| - 1], data[|data| - 1];
    assert data == init + [last];
    PortKeysSnoc(init, last);
    if p in PortKeys(init) {
      FirstCountryIsFirst(init, p);
      var j :| 0 <= j < |init| && KeyOf(init[j].port) == p &&
        (forall m :: 0 <= m < j ==> KeyOf(init[m].port) != p) &&
        FirstCountry(init, p) == init[j].country;
      assert data[j] == init[j];
      assert forall m :: 0 <= m < j ==> data[m] == init[m];
    } else {
      assert forall m :: 0 <= m < |init| ==> KeyOf(data[m].port) == PortKeys(init)[m];
    }
  }

  /** The port table's country for a port is the Country of the first
      record with that port. */
  lemma PortCountryIsFirstSeen(data: seq<PscRecord>, i: nat)
    requires i < |PortTable(data)|
    ensures exists j :: (0 <= j < |data| && KeyOf(data[j].port) == PortTable(data)[i].0 &&
      (forall m :: 0 <= m < j ==> KeyOf(data[m].port) != PortTable(data)[i].0) &&
      PortTable(data)[i].1.country == data[j].country)
  {
    var d := Distinct(PortKeys(data));
    DistinctFacts(PortKeys(data));
    SummariesOverAt(d, data, i);
    FirstCountryIsFirst(data, d[i]);
  }

  /** Later records never overwrite a port's country. */
  lemma {:induction false} PortCountryNotOverwritten(data: seq<PscRecord>, more: seq<PscRecord>, p: string)
    requires p in PortKeys(data)
    ensures FirstCountry(data + more, p) == FirstCountry(data, p)
  {
    if more == [] {
      assert data + more == data;
    } else {
      var init, last := more[..|more| - 1], more[|more| - 1];
      assert data + more == (data + init) + [last];
      assert (data + more)[..|data + init|] == data + init;
      PortCountryNotOverwritten(data, init, p);
      var k :| 0 <= k < |data| && PortKeys(data)[k] == p;
      assert PortKeys(data + init)[k] == p;
      assert p in PortKeys(data + init);
      assert FirstCountry(data + more, p) == FirstCountry(data + init, p);
    }
  }
}
