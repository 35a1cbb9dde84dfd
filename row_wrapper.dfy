/** The closure-based row accessor: `loadMappings(mappings)(row)(key)`.
    The mapping is captured by value when the outer closure is built, so an
    accessor depends on nothing but the mapping and the row it was given. */
module RowWrapper {
  import opened PhpValues

  /** Canonical field name to column position. */
  type Mappings = map<string, nat>

  /** A raw spreadsheet row: its cells in column order. */
  type Row = seq<string>

  /** Field name, then column index, then cell; `null` when a step fails. */
  function Lookup(mappings: Mappings, row: Row, key: string): (cell: Option<string>)
    ensures cell.Some? <==> key in mappings && mappings[key] < |row|
    ensures cell.Some? ==> cell.value == row[mappings[key]]
  {
    if key !in mappings then None
    else if mappings[key] < |row| then Some(row[mappings[key]])
    else None
  }

  /** `RowWrapper::loadMappings`: a curried accessor over a captured mapping. */
  function LoadMappings(mappings: Mappings): (accessor: seq<string> -> string -> Option<string>)
    ensures forall row: Row, key: string :: accessor(row)(key).Some? <==> key in mappings && mappings[key] < |row|
    ensures forall row: Row, key: string :: accessor(row)(key).Some? ==> accessor(row)(key).value == row[mappings[key]]
  {
    row => key => Lookup(mappings, row, key)
  }

  /** What the curried accessor returns, for every row and key. */
  lemma AccessorLookup(mappings: Mappings, row: Row, key: string)
    ensures key !in mappings ==> LoadMappings(mappings)(row)(key) == None
    ensures key in mappings && mappings[key] >= |row| ==> LoadMappings(mappings)(row)(key) == None
    ensures key in mappings && mappings[key] < |row| ==> LoadMappings(mappings)(row)(key) == Some(row[mappings[key]])
  {
  }

  /** The accessor reads nothing of the row but the cell its key maps to:
      rows that agree on that cell (or both lack it) give the same answer. */
  lemma AccessorReadsOnlyMappedCell(mappings: Mappings, row1: Row, row2: Row, key: string)
    requires key in mappings ==>
      (mappings[key] < |row1| <==> mappings[key] < |row2|) &&
      (mappings[key] < |row1| ==> row1[mappings[key]] == row2[mappings[key]])
    ensures LoadMappings(mappings)(row1)(key) == LoadMappings(mappings)(row2)(key)
  {
  }
}
