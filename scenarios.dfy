/** Properties that span several calls on one database. */
module Scenarios {
  import opened Models
  import opened SqlText
  import opened Schema
  import opened Query
  import opened Store

  /** Two creates in a row on a table that already has rows get
      consecutive ids. */
  method ConsecutiveIds(db: Database, a: Record, b: Record) returns (ra: Result<Record>, rb: Result<Record>)
    requires db.Valid() && RecordsTable in db.tables && db.records != map[]
    modifies db
    ensures ra.Ok? && rb.Ok? && rb.value.id == ra.value.id + 1
  {
    ra := db.CreateRecord(a);
    ghost var between := db.records;
    assert ra.value.id in between;
    rb := db.CreateRecord(b);
    assert rb.value.id - 1 in between;
  }

  /** After a photo is attached, the blob under its new uri is exactly the
      uploaded bytes. */
  method AttachThenFetch(db: Database, recordId: int, data: Bytes, decode: Decoder)
    returns (o: Outcome, got: Result<Bytes>)
    requires db.Valid()
    modifies db
    ensures o.Pass? ==> got == Ok(data)
    ensures o.Fail? ==> got.Err?
  {
    var uri := NextUri(db.photos);
    o := db.AddPhoto(recordId, data, decode);
    if o.Pass? {
      got := db.GetPhoto(uri.value);
    } else {
      got := Err(o.failure);
    }
  }

  /** A record just created and dated before `before` makes the listing
      non-empty, and the row listed first is dated no earlier than it. */
  method CreateThenList(db: Database, record: Record, before: string, limit: nat)
    returns (created: Result<Record>, listed: Result<seq<Row>>)
    requires db.Valid() && RecordsTable in db.tables && db.records != map[]
    requires LexLess(record.date, before) && limit > 0
    modifies db
    ensures created.Ok? && listed.Ok?
    ensures |listed.value| > 0 && !LexLess(listed.value[0].date, record.date)
  {
    created := db.CreateRecord(record);
    listed := db.GetRecords(before, limit);
    var k := created.value.id;
    assert db.records[k].date == record.date;
    assert k in Matching(db.records, before);
    var rs := listed.value;
    if j :| 0 <= j < |rs| && rs[j].id == k {
      assert rs[j] == db.records[k];
      if j > 0 {
        assert !LexLess(rs[0].date, rs[j].date);
      } else {
        LexIrreflexive(record.date);
      }
    } else {
      assert !LexLess(rs[0].date, db.records[k].date);
    }
  }

  /** Attaching to a record that already holds four photos succeeds and
      leaves it with five: the bound of a Record is not checked again. */
  method AttachToFullRecord(db: Database, recordId: int, data: Bytes, decode: Decoder)
    returns (o: Outcome)
    requires db.Valid() && db.EntriesValid()
    requires RecordsTable in db.tables && PhotosTable in db.tables && db.photos != map[]
    requires recordId in db.records && |db.records[recordId].photos| == MaxPhotos
    requires decode(data).Some?
    modifies db
    ensures o.Pass? && recordId in db.records
    ensures |db.records[recordId].photos| == MaxPhotos + 1
  {
    o := db.AddPhoto(recordId, data, decode);
  }
}
