/** The inspection records the PSC analyzer reads: one parsed row of the
    consolidated Port State Control table, reduced to the five columns the
    analyzer looks at. */
module PscRecords {

  /** A column of a parsed row: None when the row has no such property
      (JavaScript's `undefined`), otherwise its text, which may be empty. */
  datatype Option<+T> = None | Some(value: T)

  datatype PscRecord = PscRecord(
    nature: Option<string>,   // 'Nature of deficiency'
    code: Option<string>,     // 'Reference Code1'
    port: Option<string>,     // 'Port Name'
    country: Option<string>,  // 'Country'
    date: Option<string>)     // 'Inspection - From Date'

  /** The action code of a detention. */
  const DetentionCode: string := "30"

  /** The detention test used by every query: the code is exactly "30". */
  predicate IsDetention(r: PscRecord)
  {
    r.code == Some(DetentionCode)
  }

  /** The truthiness test on the deficiency text: present and not empty. */
  predicate HasNature(r: PscRecord)
  {
    r.nature.Some? && r.nature.value != ""
  }

  /** The property name an optional column becomes when it is used as an
      object key: an absent column is coerced to the string "undefined". */
  function KeyOf(v: Option<string>): (key: string)
    ensures key == "undefined" <==> v == None || v == Some("undefined")
  {
    match v
    case Some(s) => s
    case None => "undefined"
  }

  /** Two columns land on the same object key exactly when they are equal,
      or when one is absent and the other is the text "undefined". */
  lemma SameKey(v: Option<string>, w: Option<string>)
    ensures KeyOf(v) == KeyOf(w) <==>
      v == w || (v == None && w == Some("undefined")) || (v == Some("undefined") && w == None)
  {
  }
}
