/** The two tables of the store and the statements that create them: a
    records table whose row holds a record with its photo list, and a
    photos table of image blobs keyed by uri. */
module Schema {
  import opened Models

  datatype Table = RecordsTable | PhotosTable

  type Bytes = seq<bv8>

  /** A row of the records table. The photos column is never null: a record
      stored without photos holds the empty list. */
  datatype Row = Row(
    id: int,
    kind: AlgaeType,
    name: Option<string>,
    organization: Option<string>,
    date: string,
    latitude: real,
    longitude: real,
    size: AlgaeSize,
    color: AlgaeColor,
    tubeId: Option<string>,
    locationDescription: Option<string>,
    notes: Option<string>,
    photos: seq<PhotoEntry>)

  /** The row an INSERT of record r writes; absent photos are written as []. */
  function RowOf(r: Record): Row {
    Row(r.id, r.kind, r.name, r.organization, r.date, r.latitude, r.longitude, r.size, r.color,
        r.tubeId, r.locationDescription, r.notes, if r.photos.Some? then r.photos.value else [])
  }

  /** Every row is stored under its own id (the INTEGER PRIMARY KEY). */
  predicate KeyedById(records: map<int, Row>) {
    forall k | k in records :: records[k].id == k
  }

  /** What a database file can hold: a table that does not exist has no rows. */
  predicate Consistent(tables: set<Table>, records: map<int, Row>, photos: map<string, Bytes>) {
    && (RecordsTable !in tables ==> records == map[])
    && (PhotosTable !in tables ==> photos == map[])
    && KeyedById(records)
  }

  /** The tables that exist after running the statements
      CREATE TABLE IF NOT EXISTS t, in order. */
  function SchemaAfter(tables: set<Table>, statements: seq<Table>): set<Table> {
    if statements == [] then tables
    else SchemaAfter(tables, statements[..|statements| - 1]) + {statements[|statements| - 1]}
  }

  /** Running the statements adds exactly the tables they name. */
  lemma {:induction false} SchemaAfterAdds(tables: set<Table>, statements: seq<Table>)
    ensures SchemaAfter(tables, statements) == tables + set t | t in statements
  {
    if statements != [] {
      var init := statements[..|statements| - 1];
      SchemaAfterAdds(tables, init);
      assert statements == init + [statements[|statements| - 1]];
    }
  }

  /** Setting up twice is setting up once. */
  lemma SetupIdempotent(tables: set<Table>, statements: seq<Table>)
    ensures SchemaAfter(SchemaAfter(tables, statements), statements) == SchemaAfter(tables, statements)
  {
    SchemaAfterAdds(tables, statements);
    SchemaAfterAdds(SchemaAfter(tables, statements), statements);
  }
}
