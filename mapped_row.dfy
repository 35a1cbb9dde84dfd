/** `MappedRow`: a row wrapper whose mapping lives in one class-level
    (static) field. `MappingTable` is that static field: every row loaded
    against a table reads the table's current mapping, so reloading the
    mappings changes what rows loaded earlier return. */
module MappedRows {
  import opened PhpValues
  import opened RowWrapper

  /** The static `$mappings` property of `MappedRow`. */
  class MappingTable {
    var mappings: Mappings

    /** The property starts as the empty array. */
    constructor ()
      ensures mappings == map[]
    {
      mappings := map[];
    }

    /** `MappedRow::loadMappings`: replaces the whole shared mapping. */
    method LoadMappings(newMappings: Mappings)
      modifies this
      ensures mappings == newMappings
    {
      mappings := newMappings;
    }
  }

  class MappedRow {
    var row: Row
    const table: MappingTable

    /** `MappedRow::loadRow`: wraps the row unchanged. */
    constructor LoadRow(table: MappingTable, row: Row)
      ensures this.table == table && this.row == row
    {
      this.table := table;
      this.row := row;
    }

    /** `get($key)`: through the mapping currently in the shared table. It
        answers exactly as the closure accessor built from that mapping. */
    function Get(key: string): (cell: Option<string>)
      reads this, table
      ensures cell == RowWrapper.LoadMappings(table.mappings)(row)(key)
      ensures cell.None? <==> key !in table.mappings || table.mappings[key] >= |row|
      ensures cell.Some? ==> cell.value == row[table.mappings[key]]
    {
      if key !in table.mappings then None
      else if table.mappings[key] < |row| then Some(row[table.mappings[key]])
      else None
    }
  }

  /** A row loaded under one mapping reads through whatever mapping is loaded
      later, whereas a closure accessor keeps the mapping it captured. */
  method ReloadingMappings(first: Mappings, second: Mappings, row: Row, key: string)
    returns (before: Option<string>, after: Option<string>, captured: Option<string>)
    ensures before == Lookup(first, row, key)
    ensures after == Lookup(second, row, key)
    ensures captured == Lookup(first, row, key)
  {
    var table := new MappingTable();
    table.LoadMappings(first);
    var mapped := new MappedRow.LoadRow(table, row);
    var accessor := RowWrapper.LoadMappings(first)(row);
    before := mapped.Get(key);
    table.LoadMappings(second);
    after := mapped.Get(key);
    captured := accessor(key);
  }
}
