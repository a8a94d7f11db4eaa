/** The four queries on a three-record data set: two "Fire doors"
    deficiencies at Rotterdam, the second of them a detention, and one
    "Charts" deficiency at Singapore. */
module PscExample {

  import opened PscRecords
  import opened Counting
  import opened Ranking
  import opened Criticality
  import opened PscAnalysis

  const FireDoors := PscRecord(Some("Fire doors"), Some("45"), Some("Rotterdam"), Some("NL"), None)
  const Detained30 := PscRecord(Some("Fire doors"), Some("30"), Some("Rotterdam"), Some("NL"), None)
  const Charts := PscRecord(Some("Charts"), Some("10"), Some("Singapore"), Some("SG"), None)

  function Sample(): seq<PscRecord>
  {
    [FireDoors, Detained30, Charts]
  }

  /** Counting a key twice and then another key once. */
  lemma CountTwiceThenOnce(a: string, b: string)
    requires a != b
    ensures Distinct([a, a, b]) == [a, b]
    ensures Occurrences([a, a, b], a) == 2 && Occurrences([a, a, b], b) == 1
    ensures Tally([a, a, b]) == [(a, 2), (b, 1)]
  {
    var s1: seq<string> := [a];
    var s2 := s1 + [a];
    var s := s2 + [b];
    assert [a, a, b] == s;
    assert [] + [a] == s1;
    DistinctSnoc([], a);
    OccurrencesSnoc([], a, a);
    OccurrencesSnoc([], a, b);
    DistinctSnoc(s1, a);
    OccurrencesSnoc(s1, a, a);
    OccurrencesSnoc(s1, a, b);
    DistinctSnoc(s2, b);
    OccurrencesSnoc(s2, b, a);
    OccurrencesSnoc(s2, b, b);
    assert Distinct(s) == [a, b];
    CountsOverAt([a, b], s, 0);
    CountsOverAt([a, b], s, 1);
  }

  /** Three different keys are listed in the order they come. */
  lemma ThreeDistinct(a: string, b: string, c: string)
    requires a != b && b != c && a != c
    ensures Distinct([a, b, c]) == [a, b, c]
  {
    var s1: seq<string> := [a];
    var s2 := s1 + [b];
    assert [] + [a] == s1;
    assert s2 + [c] == [a, b, c];
    DistinctSnoc([], a);
    DistinctSnoc(s1, b);
    DistinctSnoc(s2, c);
  }

  /** Each of three different keys occurs once. */
  lemma ThreeOnce(a: string, b: string, c: string, k: string)
    requires a != b && b != c && a != c
    requires k == a || k == b || k == c
    ensures Occurrences([a, b, c], k) == 1
  {
    var s1: seq<string> := [a];
    var s2 := s1 + [b];
    assert [] + [a] == s1;
    assert s2 + [c] == [a, b, c];
    OccurrencesSnoc([], a, k);
    OccurrencesSnoc(s1, b, k);
    OccurrencesSnoc(s2, c, k);
  }

  /** Counting three different keys once each. */
  lemma CountThreeOnce(a: string, b: string, c: string)
    requires a != b && b != c && a != c
    ensures Tally([a, b, c]) == [(a, 1), (b, 1), (c, 1)]
  {
    var s := [a, b, c];
    ThreeDistinct(a, b, c);
    ThreeOnce(a, b, c, a);
    ThreeOnce(a, b, c, b);
    ThreeOnce(a, b, c, c);
    CountsOverAt(s, s, 0);
    CountsOverAt(s, s, 1);
    CountsOverAt(s, s, 2);
  }

  lemma SampleDetained()
    ensures Detained(Sample()) == [Detained30]
  {
    var r1: seq<PscRecord> := [FireDoors];
    var r2 := r1 + [Detained30];
    assert Sample() == r2 + [Charts];
    DetainedSnoc([], FireDoors);
    assert [] + [FireDoors] == r1;
    DetainedSnoc(r1, Detained30);
    DetainedSnoc(r2, Charts);
  }

  lemma SampleNatures()
    ensures Natures(Sample()) == ["Fire doors", "Fire doors", "Charts"]
  {
    var r1: seq<PscRecord> := [FireDoors];
    var r2 := r1 + [Detained30];
    assert Sample() == r2 + [Charts];
    NaturesSnoc([], FireDoors);
    assert [] + [FireDoors] == r1;
    NaturesSnoc(r1, Detained30);
    NaturesSnoc(r2, Charts);
  }

  /** getCommonDeficiencies: "Fire doors" twice, then "Charts" once. */
  lemma SampleCommonDeficiencies()
    ensures CommonDeficiencies(Sample()) == [("Fire doors", 2), ("Charts", 1)]
  {
    SampleNatures();
    CountTwiceThenOnce("Fire doors", "Charts");
    var t: seq<(string, nat)> := [("Fire doors", 2), ("Charts", 1)];
    assert t[1..] == [("Charts", 1)] && t[1..][1..] == [];
    assert SortByCount(t[1..]) == [("Charts", 1)];
    assert SortByCount(t) == t;
  }

  /** getDeficienciesByCriticality: one record in each of three tiers, in
      the order the tiers were first seen. */
  lemma SampleCriticality()
    ensures CriticalityCounts(Sample()) == [("High", 1), ("Critical", 1), ("Low", 1)]
  {
    assert Classify(FireDoors.code) == "High";
    assert Classify(Detained30.code) == "Critical";
    assert Classify(Charts.code) == "Low";
    assert Criticalities(Sample()) == ["High", "Critical", "Low"];
    CountThreeOnce("High", "Critical", "Low");
  }

  /** getDetentionAnalysis: the one detention, projected. */
  lemma SampleDetentions()
    ensures GetDetentionAnalysis(Sample()) == [Detention(Some("Rotterdam"), Some("NL"), None, Some("Fire doors"))]
  {
    SampleDetained();
  }

  /** getDeficienciesByPort: Rotterdam with two records, one a detention,
      then Singapore with one. */
  lemma SamplePorts()
    ensures PortTable(Sample()) ==
      [("Rotterdam", PortSummary(2, Some("NL"), 1)), ("Singapore", PortSummary(1, Some("SG"), 0))]
  {
    var s := Sample();
    assert PortKeys(s) == ["Rotterdam", "Rotterdam", "Singapore"];
    CountTwiceThenOnce("Rotterdam", "Singapore");
    SampleDetained();
    assert PortKeys(Detained(s)) == ["Rotterdam"];
    assert Occurrences(["Rotterdam"], "Rotterdam") == 1 && Occurrences(["Rotterdam"], "Singapore") == 0;
    assert s[..2] == [FireDoors, Detained30] && s[..2][..1] == [FireDoors];
    assert PortKeys(s[..2]) == ["Rotterdam", "Rotterdam"] && PortKeys([FireDoors]) == ["Rotterdam"];
    assert FirstCountry(s, "Rotterdam") == Some("NL");
    assert FirstCountry(s, "Singapore") == Some("SG");
    var d := ["Rotterdam", "Singapore"];
    assert SummariesOver(d, s)[0] == ("Rotterdam", Summary(s, "Rotterdam"));
    assert d[1..] == ["Singapore"];
    assert SummariesOver(d, s)[1] == ("Singapore", Summary(s, "Singapore"));
  }
}
