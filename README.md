# Port State Control deficiency analysis

This project models `analyzePSCData` from `src/utils/pscAnalysis.js` and
proves properties about it. `analyzePSCData` takes the array of Port State
Control (PSC) inspection records of the defects-log application. It returns
four queries that close over that array:

- **getCommonDeficiencies** counts each non-empty "Nature of deficiency" text.
  It sorts the counts from most to least frequent and keeps at most the first
  ten.
- **getDeficienciesByCriticality** maps each record's "Reference Code1" to a
  criticality tier through `CRITICALITY_MAPPING`. A missing or unlisted code
  gives `Unknown`. It counts the records per tier.
- **getDetentionAnalysis** keeps the records whose code is exactly `"30"`
  (a detention). It projects each one to its port, country, inspection date
  and deficiency.
- **getDeficienciesByPort** groups the records by "Port Name". For each port it
  keeps the record count, the country of the first record seen for that port,
  and the number of detentions.

How the JavaScript is represented:

- A record is a `PscRecord`. Each of its five columns is an `Option<string>`,
  so a missing column is `None`.
- A JavaScript object used as a dictionary becomes two things inside a
  method: a `map` from key to value, and the sequence of keys in insertion
  order.
- The object is returned as its entry list (`seq<(string, V)>`), in the order
  `Object.entries` would give.
- A missing port or code used as an object key becomes the string
  `"undefined"`, as JavaScript's key coercion does (`KeyOf`).

The three counting queries are methods with the source's `forEach` loop. Each
is proved equal to a function of the whole data set. The detention query is a
`filter` followed by a `map`, so it is a function. The properties are lemmas
about those functions.

Module layout:

| module | file | contents |
|---|---|---|
| `PscRecords` | `records.dfy` | the record, the detention code, the nature test, key coercion |
| `Counting` | `counting.dfy` | occurrence counts, first-seen key order, tallies and their loop step |
| `Ranking` | `ranking.dfy` | the stable count-descending sort and the cut to the first n entries |
| `Criticality` | `criticality.dfy` | `CRITICALITY_MAPPING` and the code-to-tier lookup |
| `PscAnalysis` | `analysis.dfy` | the four queries |
| `PscProperties` | `properties.dfy` | what the queries promise, and how they relate |
| `PscExample` | `example.dfy` | the four queries worked out on a three-record data set |

JavaScript's `Array.prototype.sort` has been stable since ES2019. The sort
is therefore modelled as a stable insertion sort (`Ranking.SortByCount`).
Lemmas pin it down completely by four properties:

- it sorts by count, in descending order;
- its output is a permutation of its input;
- for each count, the entries with that count keep their input order;
- the keys stay unique.

## Model

| member | source | states |
|---|---|---|
| `PscRecords.KeyOf` | src/utils/pscAnalysis.js:63 | a column used as an object key (here and at lines 29 and 42): the key is `"undefined"` exactly when the column is absent or is that very text (what the lookup then gives is proved in `Classify` and `PortTableFacts`) |
| `PscRecords.SameKey` | src/utils/pscAnalysis.js:63-72 | two columns share an object key exactly when they are equal or one is absent and the other is `"undefined"`, so such records are grouped together |
| `Criticality.Classify` | src/utils/pscAnalysis.js:42 | the tier is one of Low/Medium/High/Critical, or Unknown; it is Unknown exactly when the code is missing or not in the mapping; it is Critical exactly when the code is `"30"`; a mapped code gets the mapping's tier |
| `PscProperties.MappingTiers` | src/utils/pscAnalysis.js:3-20 | every entry of the mapping is one of the four tiers, and `"30"` is the only code mapped to Critical |
| `Counting.OccurrencesPositive` | src/utils/pscAnalysis.js:29-30 | a key has a positive count exactly when it occurs |
| `Counting.DistinctFacts` | src/utils/pscAnalysis.js:29-30 | the object's keys are duplicate-free, and they are exactly the keys that occur |
| `Counting.DistinctInFirstSeenOrder` | src/utils/pscAnalysis.js:27-31 | the object's keys are in first-insertion order: a key listed earlier was already seen when a later key first occurs |
| `Counting.TallyEntries` | src/utils/pscAnalysis.js:27-31 | the entry list holds one entry per distinct key, in first-seen order, with the key's number of occurrences (at least 1); a key is listed exactly when it occurs; keys are unique |
| `Counting.TallyTotal` | src/utils/pscAnalysis.js:41-44 | the counts of the entry list add up to the number of keys counted |
| `Counting.LookupTally` | src/utils/pscAnalysis.js:43 | reading a key in the entry list (0 when absent) gives its number of occurrences |
| `Counting.CountStep` | src/utils/pscAnalysis.js:29-30 | one `(obj[k] \|\| 0) + 1` step keeps the object equal to the tally of the keys seen so far, and appends a new key at the end of the key order |
| `Ranking.InsertSorted` | src/utils/pscAnalysis.js:34 | inserting into a count-descending list keeps it count-descending |
| `Ranking.InsertPermutes` | src/utils/pscAnalysis.js:34 | inserting adds exactly the one entry |
| `Ranking.InsertStable` | src/utils/pscAnalysis.js:34 | an inserted entry goes before the entries of equal count |
| `Ranking.SortByCountSorted` | src/utils/pscAnalysis.js:34 | the comparator `b - a` orders by count, largest first |
| `Ranking.SortByCountPermutes` | src/utils/pscAnalysis.js:34 | the sort is a permutation of the entries |
| `Ranking.SortByCountStable` | src/utils/pscAnalysis.js:34 | for every count, the entries with that count are in the same order before and after the sort |
| `Ranking.SortByCountUniqueKeys` | src/utils/pscAnalysis.js:33-34 | sorting entries with unique keys keeps the keys unique |
| `Ranking.SortByCountKeepsTieOrder` | src/utils/pscAnalysis.js:34 | two output entries with equal counts appear in the input in the same relative order |
| `Ranking.Top` | src/utils/pscAnalysis.js:35 | `slice(0, n)` keeps the first `min(n, length)` entries unchanged: all of them when there are at most n |
| `Ranking.TopDominates` | src/utils/pscAnalysis.js:34-35 | an entry of a sorted list that the cut drops has a count no larger than every kept entry, and then exactly n are kept |
| `PscAnalysis.GetCommonDeficiencies` | src/utils/pscAnalysis.js:25-36 | the `forEach` count loop followed by entries, sort and slice returns `CommonDeficiencies`: at most the first ten of the stably sorted tally of non-empty deficiency texts |
| `PscProperties.NaturesMembers` | src/utils/pscAnalysis.js:28 | the texts counted are non-empty, and a text is counted exactly when some record has it as a non-empty deficiency |
| `PscProperties.CommonDeficienciesFacts` | src/utils/pscAnalysis.js:25-36 | at most ten entries; sorted by count, descending; unique texts; each entry is a non-empty deficiency text with its exact number of occurrences, at least 1 |
| `PscProperties.CommonDeficienciesComplete` | src/utils/pscAnalysis.js:33-35 | every deficiency text is either listed with its exact count or was cut off: ten entries are listed and each has a count at least as large |
| `PscProperties.CommonDeficienciesTies` | src/utils/pscAnalysis.js:29-34 | of two listed texts with the same count, the earlier one occurred in the data before the later one first did |
| `PscAnalysis.GetDeficienciesByCriticality` | src/utils/pscAnalysis.js:39-46 | the `forEach` loop returns the tally of the records' tiers, in first-seen tier order |
| `PscProperties.CriticalityCountsFacts` | src/utils/pscAnalysis.js:39-46 | every key is a tier or Unknown; keys are unique; the counts add up to the number of records; each tier's count is its number of records |
| `PscProperties.UnknownCodesCounted` | src/utils/pscAnalysis.js:42-43 | a record with a missing or unmapped code makes the Unknown count at least 1 |
| `PscProperties.DetainedAt` | src/utils/pscAnalysis.js:50 | the filter keeps exactly the records with code `"30"`, in ascending record order |
| `PscAnalysis.GetDetentionAnalysis` | src/utils/pscAnalysis.js:49-57 | the list is no longer than the data, and every entry is the projection of some record whose code is `"30"` (exact order and completeness in `DetentionAnalysisExact`) |
| `PscProperties.DetentionAnalysisExact` | src/utils/pscAnalysis.js:49-57 | the detention list has one entry per detention record, in record order, carrying that record's port, country, inspection date and deficiency |
| `PscProperties.CriticalCountIsDetentions` | src/utils/pscAnalysis.js:42-50 | the number of records classified Critical is the number of detention records |
| `PscProperties.DetentionsMatchCritical` | src/utils/pscAnalysis.js:39-57 | the length of the detention analysis equals the Critical count of the criticality query |
| `PscAnalysis.PortStep` | src/utils/pscAnalysis.js:63-73 | one loop step (create the entry if the port is new, increment count, increment detentions for code `"30"`) keeps the port object equal to the per-port summary of the records seen so far |
| `PscAnalysis.GetDeficienciesByPort` | src/utils/pscAnalysis.js:60-76 | the `forEach` loop returns `PortTable`: one entry per distinct port key in first-seen order, with that port's record count, first-seen country and detention count |
| `PscProperties.DetentionsAtMostCount` | src/utils/pscAnalysis.js:70-73 | a port's detentions never exceed its record count |
| `PscProperties.PortTableFacts` | src/utils/pscAnalysis.js:60-76 | ports are listed in first-seen order with unique keys; a port is listed exactly when some record has it; every count is at least 1 and at least the detentions; the counts add up to the number of records and the detentions to the length of the detention analysis |
| `PscProperties.FirstCountryIsFirst` | src/utils/pscAnalysis.js:63-68 | the country kept for a port is that of the first record with that port |
| `PscProperties.PortCountryIsFirstSeen` | src/utils/pscAnalysis.js:63-68 | each listed port carries the country of its first record |
| `PscProperties.PortCountryNotOverwritten` | src/utils/pscAnalysis.js:63-68 | later records never change a port's country once the port is present |
| `PscExample.SampleCommonDeficiencies` | src/utils/pscAnalysis.js:25-36 | on two "Fire doors" records and one "Charts" record the result is `[("Fire doors", 2), ("Charts", 1)]` |
| `PscExample.SampleCriticality` | src/utils/pscAnalysis.js:39-46 | codes 45, 30 and 10 give High, Critical and Low once each, in that order |
| `PscExample.SampleDetentions` | src/utils/pscAnalysis.js:49-57 | only the code-30 record is listed, projected to Rotterdam/NL |
| `PscExample.SamplePorts` | src/utils/pscAnalysis.js:60-76 | Rotterdam has 2 records (NL, 1 detention), then Singapore has 1 (SG, no detention) |

## Left out

- JavaScript lists integer-like object keys (such as `"123"`) first, in
  ascending numeric order, before the other keys, which keep insertion order.
  The model always uses insertion order. When a deficiency text or port name is
  a canonical array index, this changes the order of equal-count deficiency
  texts and of ports. Because `slice(0, 10)` (src/utils/pscAnalysis.js:35)
  keeps a prefix of that order, it also changes which tied texts survive the
  cut. Example: eleven texts seen once each, the last of them `"1"`.
  JavaScript keeps `"1"` and drops the tenth of the others; the model drops
  `"1"`. Tier names are never integer-like, so the criticality result is exact.
- Keys that collide with `Object.prototype` members (`"__proto__"`,
  `"constructor"`, `"toString"`, …) are not modelled. In JavaScript, such a
  code, port name or deficiency text reads an inherited value instead of
  `undefined`. For a deficiency text such as `"constructor"` or `"toString"`,
  `(deficiencies[k] || 0) + 1` then stores a string rather than a count. For
  `"__proto__"` the assignment goes through the prototype setter and stores
  nothing, so that text is lost from the result.
- The loading of the CSV (`src/services/pscService.js`) is outside this model:
  the fetch, the parsing, and the filter that drops rows with at most one
  column. The model takes the parsed records as its input sequence.
- The React UI (`src/App.js`, `src/components/ChatBot/ChatBot.jsx`,
  `src/components/Header.jsx`) is not part of this model. Of these, only
  `ChatBot.jsx` calls the queries.
- The closures capture `pscData`. The model passes it as an explicit
  parameter of each query.
- Each field is modelled either as a string or as missing. Non-string
  parsed values, such as numbers from dynamic typing, are not modelled.
- `src/components/ChatBot/ChatBot.jsx:138` calls `searchDeficiencies`, and
  line 113 reads `d.vesselType` from a detention entry. `analyzePSCData`
  (src/utils/pscAnalysis.js:22-78) defines neither: the first call throws and
  the second reads `undefined`. Neither is modelled. The model's tiers are the
  labels the table holds (Low/Medium/High/Critical), and getCommonDeficiencies
  keeps at most ten entries, with no limit argument.
