/** The four queries that `analyzePSCData` returns over a fixed array of
    inspection records. Each query that fills a local object inside a
    `forEach` loop is a method with that loop, proved equal to a function
    that states the query's result; the detention query, a `filter`
    followed by a `map`, is a function. */
module PscAnalysis {

  import opened PscRecords
  import opened Counting
  import opened Criticality
  import opened Ranking

  /** getCommonDeficiencies keeps this many entries. */
  const TopLimit: nat := 10

  // ---------------------------------------------------------------------
  // getCommonDeficiencies

  /** The deficiency texts the count loop sees: those that pass the
      truthiness test, in record order. */
  function Natures(data: seq<PscRecord>): seq<string>
  {
    if data == [] then []
    else
      var last := data[|data| - 1];
      Natures(data[..|data| - 1]) + (if HasNature(last) then [last.nature.value] else [])
  }

  /** Counted over the whole data set, then sorted by count and cut. */
  function CommonDeficiencies(data: seq<PscRecord>): seq<(string, nat)>
  {
    Top(SortByCount(Tally(Natures(data))), TopLimit)
  }

  lemma NaturesSnoc(data: seq<PscRecord>, r: PscRecord)
    ensures Natures(data + [r]) == Natures(data) + (if HasNature(r) then [r.nature.value] else [])
  {
    assert (data + [r])[..|data|] == data;
  }

  method GetCommonDeficiencies(pscData: seq<PscRecord>) returns (top: seq<(string, nat)>)
    ensures top == CommonDeficiencies(pscData)
  {
    var deficiencies: map<string, nat> := map[];
    var order: seq<string> := [];
    for i := 0 to |pscData|
      invariant Counted(order, deficiencies, Natures(pscData[..i]))
    {
      var record := pscData[i];
      assert pscData[..i + 1] == pscData[..i] + [record];
      NaturesSnoc(pscData[..i], record);
      if HasNature(record) {
        var key := record.nature.value;
        CountStep(Natures(pscData[..i]), key, order, deficiencies);
        if key !in deficiencies {
          order := order + [key];
        }
        deficiencies := deficiencies[key := (if key in deficiencies then deficiencies[key] else 0) + 1];
      } else {
        assert Natures(pscData[..i + 1]) == Natures(pscData[..i]);
      }
    }
    assert pscData[..|pscData|] == pscData;
    EntriesCounts(order, deficiencies, Natures(pscData));
    top := Top(SortByCount(Entries(order, deficiencies)), TopLimit);
  }

  // ---------------------------------------------------------------------
  // getDeficienciesByCriticality

  /** The tier of every record, in record order. */
  function Criticalities(data: seq<PscRecord>): seq<string>
  {
    seq(|data|, i requires 0 <= i < |data| => Classify(data[i].code))
  }

  lemma CriticalitiesPrefix(data: seq<PscRecord>, i: nat)
    requires i < |data|
    ensures Criticalities(data[..i + 1]) == Criticalities(data[..i]) + [Classify(data[i].code)]
  {
  }

  function CriticalityCounts(data: seq<PscRecord>): seq<(string, nat)>
  {
    Tally(Criticalities(data))
  }

  method GetDeficienciesByCriticality(pscData: seq<PscRecord>) returns (criticalities: seq<(string, nat)>)
    ensures criticalities == CriticalityCounts(pscData)
  {
    var counts: map<string, nat> := map[];
    var order: seq<string> := [];
    for i := 0 to |pscData|
      invariant Counted(order, counts, Criticalities(pscData[..i]))
    {
      var criticality := Classify(pscData[i].code);
      CriticalitiesPrefix(pscData, i);
      CountStep(Criticalities(pscData[..i]), criticality, order, counts);
      if criticality !in counts {
        order := order + [criticality];
      }
      counts := counts[criticality := (if criticality in counts then counts[criticality] else 0) + 1];
    }
    assert pscData[..|pscData|] == pscData;
    EntriesCounts(order, counts, Criticalities(pscData));
    criticalities := Entries(order, counts);
  }

  // ---------------------------------------------------------------------
  // getDetentionAnalysis

  datatype Detention = Detention(
    port: Option<string>,
    country: Option<string>,
    date: Option<string>,
    deficiency: Option<string>)

  /** The records that pass the detention test, in record order. */
  function Detained(data: seq<PscRecord>): (kept: seq<PscRecord>)
    ensures |kept| <= |data|
    ensures forall r :: r in kept ==> r in data && IsDetention(r)
  {
    if data == [] then []
    else
      var last := data[|data| - 1];
      Detained(data[..|data| - 1]) + (if IsDetention(last) then [last] else [])
  }

  function Project(r: PscRecord): Detention
  {
    Detention(r.port, r.country, r.date, r.nature)
  }

  function GetDetentionAnalysis(pscData: seq<PscRecord>): (detentions: seq<Detention>)
    ensures |detentions| <= |pscData|
    ensures forall d :: d in detentions ==>
      exists r :: r in pscData && IsDetention(r) && d == Project(r)
  {
    var kept := Detained(pscData);
    seq(|kept|, i requires 0 <= i < |kept| => Project(kept[i]))
  }

  /** The positions of the detention records, ascending. */
  function DetentionIndices(data: seq<PscRecord>): seq<nat>
  {
    if data == [] then []
    else
      DetentionIndices(data[..|data| - 1]) + (if IsDetention(data[|data| - 1]) then [|data| - 1] else [])
  }

  lemma DetainedSnoc(data: seq<PscRecord>, r: PscRecord)
    ensures Detained(data + [r]) == Detained(data) + (if IsDetention(r) then [r] else [])
  {
    assert (data + [r])[..|data|] == data;
  }

  // ---------------------------------------------------------------------
  // getDeficienciesByPort

  datatype PortSummary = PortSummary(count: nat, country: Option<string>, detentions: nat)

  /** The object key of every record's port, in record order. */
  function PortKeys(data: seq<PscRecord>): seq<string>
  {
    seq(|data|, i requires 0 <= i < |data| => KeyOf(data[i].port))
  }

  /** The country of the first record at port p; None when there is none. */
  function FirstCountry(data: seq<PscRecord>, p: string): Option<string>
  {
    if data == [] then None
    else
      var init, last := data[..|data| - 1], data[|data| - 1];
      if p in PortKeys(init) then FirstCountry(init, p)
      else if KeyOf(last.port) == p then last.country
      else None
  }

  /** What the port table holds for port p. */
  function Summary(data: seq<PscRecord>, p: string): PortSummary
  {
    PortSummary(
      Occurrences(PortKeys(data), p),
      FirstCountry(data, p),
      Occurrences(PortKeys(Detained(data)), p))
  }

  function SummariesOver(d: seq<string>, data: seq<PscRecord>): (t: seq<(string, PortSummary)>)
    ensures |t| == |d|
  {
    if d == [] then [] else [(d[0], Summary(data, d[0]))] + SummariesOver(d[1..], data)
  }

  /** The entries of the port object: one per port key, in first-seen order. */
  function PortTable(data: seq<PscRecord>): seq<(string, PortSummary)>
  {
    SummariesOver(Distinct(PortKeys(data)), data)
  }

  lemma PortKeysSnoc(data: seq<PscRecord>, r: PscRecord)
    ensures PortKeys(data + [r]) == PortKeys(data) + [KeyOf(r.port)]
  {
  }

  /** Every detained record's port is one of the ports of the data. */
  lemma {:induction false} DetainedPortsIn(data: seq<PscRecord>)
    ensures forall x :: x in PortKeys(Detained(data)) ==> x in PortKeys(data)
  {
    if data != [] {
      var init, last := data[..|data| - 1], data[|data| - 1];
      assert data == init + [last];
      DetainedPortsIn(init);
      DetainedSnoc(init, last);
      PortKeysSnoc(init, last);
      if IsDetention(last) {
        PortKeysSnoc(Detained(init), last);
        assert PortKeys(Detained(data)) == PortKeys(Detained(init)) + [KeyOf(last.port)];
      } else {
        assert Detained(data) == Detained(init);
      }
    }
  }

  /** One step of the port loop for a port already in the table: it gains
      one to its count (and to its detentions for a detention record) when
      the record is at that port, and keeps its country. */
  lemma SummaryOfSeenPort(data: seq<PscRecord>, r: PscRecord, p: string)
    requires p in PortKeys(data)
    ensures Summary(data + [r], p) == PortSummary(
      Summary(data, p).count + (if KeyOf(r.port) == p then 1 else 0),
      Summary(data, p).country,
      Summary(data, p).detentions + (if KeyOf(r.port) == p && IsDetention(r) then 1 else 0))
  {
    assert (data + [r])[..|data|] == data;
    PortKeysSnoc(data, r);
    OccurrencesSnoc(PortKeys(data), KeyOf(r.port), p);
    DetainedSnoc(data, r);
    if IsDetention(r) {
      PortKeysSnoc(Detained(data), r);
      OccurrencesSnoc(PortKeys(Detained(data)), KeyOf(r.port), p);
    } else {
      assert Detained(data + [r]) == Detained(data);
    }
  }

  /** One step of the port loop for a new port: it starts with this
      record's country, a count of 1 and one detention if the record is one. */
  lemma SummaryOfNewPort(data: seq<PscRecord>, r: PscRecord)
    requires KeyOf(r.port) !in PortKeys(data)
    ensures Summary(data + [r], KeyOf(r.port)) == PortSummary(1, r.country, if IsDetention(r) then 1 else 0)
  {
    var p := KeyOf(r.port);
    assert (data + [r])[..|data|] == data;
    PortKeysSnoc(data, r);
    OccurrencesSnoc(PortKeys(data), p, p);
    OccurrencesPositive(PortKeys(data), p);
    DetainedPortsIn(data);
    OccurrencesPositive(PortKeys(Detained(data)), p);
    DetainedSnoc(data, r);
    if IsDetention(r) {
      PortKeysSnoc(Detained(data), r);
      OccurrencesSnoc(PortKeys(Detained(data)), p, p);
    } else {
      assert Detained(data + [r]) == Detained(data);
    }
  }

  lemma {:induction false} EntriesSummaries(order: seq<string>, m: map<string, PortSummary>, data: seq<PscRecord>)
    requires forall k :: k in order ==> k in m && m[k] == Summary(data, k)
    ensures Entries(order, m) == SummariesOver(order, data)
  {
    if order != [] {
      EntriesSummaries(order[1..], m, data);
    }
  }

  /** The state of the port loop after the records `seen`. */
  ghost predicate Tabled(order: seq<string>, portData: map<string, PortSummary>, seen: seq<PscRecord>)
  {
    && order == Distinct(PortKeys(seen))
    && (forall k :: k in portData <==> k in order)
    && (forall k :: k in portData ==> portData[k] == Summary(seen, k))
  }

  /** One pass of the port loop's body over `record`: the entry for the
      record's port is created if missing (with this record's country), its
      count goes up by one, and so do its detentions for a detention record;
      no other entry changes. */
  lemma PortStep(seen: seq<PscRecord>, record: PscRecord, order: seq<string>, portData: map<string, PortSummary>,
                 order': seq<string>, portData': map<string, PortSummary>)
    requires Tabled(order, portData, seen)
    requires order' == if KeyOf(record.port) in portData then order else order + [KeyOf(record.port)]
    requires forall k :: k in portData' <==> k in portData || k == KeyOf(record.port)
    requires forall k :: k in portData && k != KeyOf(record.port) ==> portData'[k] == portData[k]
    requires var key := KeyOf(record.port);
             var entry := if key in portData then portData[key] else PortSummary(0, record.country, 0);
             portData'[key] == entry.(count := entry.count + 1,
                                      detentions := entry.detentions + if IsDetention(record) then 1 else 0)
    ensures Tabled(order', portData', seen + [record])
  {
    var key := KeyOf(record.port);
    PortKeysSnoc(seen, record);
    DistinctFacts(PortKeys(seen));
    DistinctSnoc(PortKeys(seen), key);
    assert key in portData <==> key in PortKeys(seen);
    assert order' == Distinct(PortKeys(seen + [record]));
    forall k | k in portData'
      ensures portData'[k] == Summary(seen + [record], k)
    {
      if k != key {
        SummaryOfSeenPort(seen, record, k);
      } else if key in portData {
        SummaryOfSeenPort(seen, record, key);
      } else {
        SummaryOfNewPort(seen, record);
      }
    }
  }

  method GetDeficienciesByPort(pscData: seq<PscRecord>) returns (ports: seq<(string, PortSummary)>)
    ensures ports == PortTable(pscData)
  {
    var portData: map<string, PortSummary> := map[];
    var order: seq<string> := [];
    for i := 0 to |pscData|
      invariant Tabled(order, portData, pscData[..i])
    {
      var record := pscData[i];
      var key := KeyOf(record.port);
      ghost var (order0, portData0) := (order, portData);
      if key !in portData {
        portData := portData[key := PortSummary(0, record.country, 0)];
        order := order + [key];
      }
      var entry := portData[key];
      entry := entry.(count := entry.count + 1);
      if IsDetention(record) {
        entry := entry.(detentions := entry.detentions + 1);
      }
      portData := portData[key := entry];
      PortStep(pscData[..i], record, order0, portData0, order, portData);
      assert pscData[..i + 1] == pscData[..i] + [record];
    }
    assert pscData[..|pscData|] == pscData;
    EntriesSummaries(order, portData, pscData);
    ports := Entries(order, portData);
  }
}
