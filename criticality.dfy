/** The static table that grades each PSC action code into a severity tier. */
module Criticality {

  import opened PscRecords

  /** Action code to severity tier. The table is a constant: it has no
      mutation path, so every lookup of a code gives the same tier. */
  const CriticalityMapping: map<string, string> := map[
    "10" := "Low",       // deficiency rectified
    "40" := "Medium",    // next port informed
    "18" := "Medium",    // rectify within 3 months
    "15" := "Medium",    // rectify at next port
    "16" := "Medium",    // rectify within 14 days
    "55" := "Medium",    // flag state consulted
    "70" := "Medium",    // recognized organization informed
    "50" := "Medium",    // flag state or consul informed
    "17" := "High",      // rectify before departure
    "99" := "Medium",    // other
    "26" := "Medium",    // security authority informed
    "21" := "High",      // ISM system correction required
    "45" := "High",      // rectify detainable deficiency
    "19" := "High",      // safety management audit required
    "85" := "High",      // MARPOL violation investigation
    "30" := "Critical"   // detention
  ]

  /** The four tiers the table uses. */
  const Tiers: set<string> := {"Low", "Medium", "High", "Critical"}

  /** The bucket of every code the table does not list. */
  const Unknown: string := "Unknown"

  /** `CRITICALITY_MAPPING[code] || 'Unknown'`. An absent code is looked up
      under the key "undefined", which the table does not have. */
  function Classify(code: Option<string>): (tier: string)
    ensures tier in Tiers || tier == Unknown
    ensures tier == Unknown <==> code.None? || code.value !in CriticalityMapping
    ensures tier == "Critical" <==> code == Some(DetentionCode)
    ensures code.Some? && code.value in CriticalityMapping ==> tier == CriticalityMapping[code.value]
  {
    var key := KeyOf(code);
    if key in CriticalityMapping then CriticalityMapping[key] else Unknown
  }
}
