/** The record and photo store behind the API: one database holding the
    records table and the photos table, on which records are created and
    listed, photos attached to a record and photo blobs read back. Every
    write is one transaction: it commits entirely or, on any failure, rolls
    back and reports a storage error (an HTTP 500); an unknown photo is
    NotFound (an HTTP 404). */
module Store {
  import opened Models
  import opened SqlText
  import opened Schema
  import opened Query

  /** Why an operation failed and rolled back. */
  datatype Fault =
    | NoSuchTable(table: Table)   // the statement names a table that was never created
    | NullMaximum                 // MAX over no rows is NULL, and NULL + 1 raises
    | NoSuchRecord                // fetchone() found no row, and None[0] raises
    | InvalidStoredPhoto          // a stored photo object fails PhotoEntry validation
    | UndecodableImage            // the uploaded bytes are not an image

  datatype Failure = StorageError(fault: Fault) | NotFound

  datatype Result<+T> = Ok(value: T) | Err(failure: Failure)

  datatype Outcome = Pass | Fail(failure: Failure)

  /** The pixel size an image decoder reports. */
  datatype Dimensions = Dimensions(width: nat, height: nat)

  /** Opening the bytes as an image: its size, or None when they are not one. */
  type Decoder = Bytes -> Option<Dimensions>

  const DefaultLimit: nat := 20

  /* ---------------- create_record's rules ---------------- */

  predicate AllSizesAbsent(photos: seq<PhotoEntry>) {
    forall i | 0 <= i < |photos| :: photos[i].size.None?
  }

  /** The cached-photo rule: a photo list in which no entry has a size (an
      empty list included) is dropped; any other value is kept as it is. */
  function KeepPhotos(photos: Option<seq<PhotoEntry>>): (r: Option<seq<PhotoEntry>>)
    ensures r.None? <==> photos.None? || AllSizesAbsent(photos.value)
    ensures r.Some? ==> r == photos
  {
    if photos.Some? && AllSizesAbsent(photos.value) then None else photos
  }

  /** The photos column create_record writes: [] when the list is absent
      or no entry has a size, otherwise the list unchanged and in order. */
  lemma StoredPhotosRule(record: Record, id: int)
    ensures var row := RowOf(record.(id := id, photos := KeepPhotos(record.photos)));
      && row.id == id
      && (record.photos.None? || AllSizesAbsent(record.photos.value) ==> row.photos == [])
      && (record.photos.Some? && !AllSizesAbsent(record.photos.value) ==> row.photos == record.photos.value)
  {
  }

  /** MAX(id) + 1, or None where MAX is NULL: one more than the largest id. */
  function NextId(records: map<int, Row>): (r: Option<int>)
    ensures r.None? <==> records == map[]
    ensures r.Some? ==> r.value - 1 in records && forall k | k in records :: k < r.value
  {
    var m := MaxOf(records.Keys);
    if m.None? then None else Some(m.value + 1)
  }

  /** CAST(uri AS INT) of every stored photo. */
  function UriNumbers(photos: map<string, Bytes>): set<int> {
    set u | u in photos :: CastToInt(u)
  }

  /** str(MAX(CAST(uri AS INT)) + 1), or None where MAX is NULL: a uri not
      yet used, whose number is one more than the largest one. */
  function NextUri(photos: map<string, Bytes>): (r: Option<string>)
    ensures r.None? <==> photos == map[]
    ensures r.Some? ==> r.value !in photos
    ensures r.Some? ==> CastToInt(r.value) - 1 in UriNumbers(photos)
    ensures r.Some? ==> forall u | u in photos :: CastToInt(u) < CastToInt(r.value)
    ensures r.Some? ==> r.value == Decimal(CastToInt(r.value))
  {
    UriNumbersCover(photos);
    var m := MaxOf(UriNumbers(photos));
    if m.None? then None
    else
      CastDecimal(m.value + 1);
      Some(Decimal(m.value + 1))
  }

  lemma UriNumbersCover(photos: map<string, Bytes>)
    ensures forall u | u in photos :: CastToInt(u) in UriNumbers(photos)
    ensures UriNumbers(photos) == {} ==> photos == map[]
  {
  }

  /** The entry for a newly stored photo: its uri, the decoded size, and
      width * height as its size. */
  function NewPhotoEntry(uri: string, d: Dimensions): (e: PhotoEntry) {
    PhotoEntry(uri, d.width, d.height, Some(d.width * d.height))
  }

  /** The photo list with the uploaded image appended, or None when the
      bytes are not an image. The new entry is a valid PhotoEntry. */
  function AddCurrentPhotoUri(recordPhotos: seq<PhotoEntry>, photo: Bytes, uri: string, decode: Decoder)
    : (r: Option<seq<PhotoEntry>>)
    ensures r.Some? <==> decode(photo).Some?
    ensures r.Some? ==> r.value == recordPhotos + [NewPhotoEntry(uri, decode(photo).value)]
    ensures r.Some? ==> ValidPhotoEntry(r.value[|recordPhotos|])
  {
    var dims := decode(photo);
    if dims.None? then None
    else
      var d := dims.value;
      var entry := MakePhotoEntry(uri, d.width, d.height, Some(d.width * d.height));
      Some(recordPhotos + [entry.value])
  }

  /** Attaching does not check the four-photo bound: appending an image to
      a list that already holds four photos succeeds, and the list it gives
      is no longer a valid Record photo list. */
  lemma AttachExceedsPhotoBound(record: Record, photo: Bytes, uri: string, decode: Decoder)
    requires ValidRecord(record) && record.photos.Some? && |record.photos.value| == MaxPhotos
    requires decode(photo).Some?
    ensures var added := AddCurrentPhotoUri(record.photos.value, photo, uri, decode);
      && added.Some?
      && |added.value| == MaxPhotos + 1
      && ValidPhotos(added.value)
      && !ValidRecord(record.(photos := added))
  {
    var added := AddCurrentPhotoUri(record.photos.value, photo, uri, decode);
    forall i | 0 <= i < |added.value| ensures ValidPhotoEntry(added.value[i]) {
      if i < MaxPhotos {
        assert added.value[i] == record.photos.value[i];
      }
    }
  }

  /* ---------------- the database ---------------- */

  class Database {
    var tables: set<Table>
    var records: map<int, Row>
    var photos: map<string, Bytes>

    ghost predicate Valid()
      reads this
    {
      Consistent(tables, records, photos)
    }

    /** Every stored photo entry passes PhotoEntry validation. */
    ghost predicate EntriesValid()
      reads this
    {
      forall k | k in records :: ValidPhotos(records[k].photos)
    }

    /** Connects to a database file holding the given tables and rows. */
    constructor Connect(tables0: set<Table>, records0: map<int, Row>, photos0: map<string, Bytes>)
      requires Consistent(tables0, records0, photos0)
      ensures Valid()
      ensures tables == tables0 && records == records0 && photos == photos0
    {
      tables, records, photos := tables0, records0, photos0;
    }

    /** Runs each CREATE TABLE IF NOT EXISTS statement in turn: tables that
        exist keep their rows, the others are created empty. */
    method SetupTables(statements: seq<Table>)
      requires Valid()
      modifies this
      ensures Valid()
      ensures tables == SchemaAfter(old(tables), statements)
      ensures tables == old(tables) + set t | t in statements
      ensures records == old(records) && photos == old(photos)
    {
      for i := 0 to |statements|
        invariant Valid()
        invariant tables == SchemaAfter(old(tables), statements[..i])
        invariant records == old(records) && photos == old(photos)
      {
        assert statements[..i + 1][..i] == statements[..i];
        tables := tables + {statements[i]};
      }
      assert statements[..|statements|] == statements;
      SchemaAfterAdds(old(tables), statements);
    }

    /** create_record: the record is stored under id MAX(id) + 1 whatever id
        it came with, its photo list dropped when it holds only cached
        photos, and returned as stored. With no records table, or no rows
        in it, nothing is written and the call fails. */
    method CreateRecord(record: Record) returns (r: Result<Record>)
      requires Valid()
      modifies this
      ensures Valid()
      ensures tables == old(tables) && photos == old(photos)
      ensures RecordsTable !in tables ==> r == Err(StorageError(NoSuchTable(RecordsTable)))
      ensures RecordsTable in tables && old(records) == map[] ==> r == Err(StorageError(NullMaximum))
      ensures r.Err? ==> records == old(records)
      ensures r.Ok? <==> RecordsTable in tables && old(records) != map[]
      ensures r.Ok? ==>
        && r.value == record.(id := r.value.id, photos := KeepPhotos(record.photos))
        && r.value.id - 1 in old(records)
        && (forall k | k in old(records) :: k < r.value.id)
        && records == old(records)[r.value.id := RowOf(r.value)]
      ensures r.Ok? && ValidRecord(record) && old(EntriesValid()) ==> EntriesValid()
    {
      if RecordsTable !in tables {
        return Err(StorageError(NoSuchTable(RecordsTable)));
      }
      var next := NextId(records);
      if next.None? {
        return Err(StorageError(NullMaximum));
      }
      var stored := record.(id := next.value, photos := KeepPhotos(record.photos));
      records := records[stored.id := RowOf(stored)];
      return Ok(stored);
    }

    /** get_records: the rows dated strictly before `before`, latest first,
        at most `limit` of them, each with its stored photo list. */
    method GetRecords(before: string, limit: nat := DefaultLimit) returns (r: Result<seq<Row>>)
      requires Valid()
      ensures RecordsTable !in tables <==> r == Err(StorageError(NoSuchTable(RecordsTable)))
      ensures r.Ok? <==> RecordsTable in tables
      ensures r.Ok? ==> |r.value| == Min(limit, |Matching(records, before)|)
      ensures r.Ok? ==> forall i | 0 <= i < |r.value| ::
        r.value[i].id in records && records[r.value[i].id] == r.value[i] && LexLess(r.value[i].date, before)
      ensures r.Ok? ==> forall i, j | 0 <= i < j < |r.value| ::
        r.value[i].id != r.value[j].id && !LexLess(r.value[i].date, r.value[j].date)
      ensures r.Ok? ==> forall k, i | k in Matching(records, before) && 0 <= i < |r.value| ::
        (forall j | 0 <= j < |r.value| :: r.value[j].id != k) ==> !LexLess(r.value[i].date, records[k].date)
    {
      if RecordsTable !in tables {
        return Err(StorageError(NoSuchTable(RecordsTable)));
      }
      ListingSpec(records, before, limit);
      return Ok(Listing(records, before, limit));
    }

    /** get_record_photo_uris: the record's photo list, each entry checked
        again as a PhotoEntry. */
    method GetRecordPhotoUris(recordId: int) returns (r: Result<seq<PhotoEntry>>)
      requires Valid()
      ensures RecordsTable !in tables ==> r == Err(StorageError(NoSuchTable(RecordsTable)))
      ensures RecordsTable in tables && recordId !in records ==> r == Err(StorageError(NoSuchRecord))
      ensures RecordsTable in tables && recordId in records ==>
        if ValidPhotos(records[recordId].photos) then r == Ok(records[recordId].photos)
        else r == Err(StorageError(InvalidStoredPhoto))
    {
      if RecordsTable !in tables {
        return Err(StorageError(NoSuchTable(RecordsTable)));
      }
      if recordId !in records {
        return Err(StorageError(NoSuchRecord));
      }
      var stored := records[recordId].photos;
      var entries: seq<PhotoEntry> := [];
      for i := 0 to |stored|
        invariant entries == stored[..i]
        invariant ValidPhotos(entries)
      {
        var p := stored[i];
        var e := MakePhotoEntry(p.uri, p.width, p.height, p.size);
        if e.None? {
          assert !ValidPhotoEntry(stored[i]);
          return Err(StorageError(InvalidStoredPhoto));
        }
        entries := entries + [e.value];
      }
      assert stored[..|stored|] == stored;
      return Ok(entries);
    }

    /** add_photo: appends an entry for the uploaded image to the record's
        photo list and stores the bytes under the new uri
        str(MAX(CAST(uri AS INT)) + 1), both in one transaction. Each
        failure, in the order the steps run, leaves both tables as they were. */
    method AddPhoto(recordId: int, data: Bytes, decode: Decoder) returns (r: Outcome)
      requires Valid()
      modifies this
      ensures Valid() && tables == old(tables)
      ensures r.Fail? ==> records == old(records) && photos == old(photos)
      ensures RecordsTable !in tables ==> r == Fail(StorageError(NoSuchTable(RecordsTable)))
      ensures RecordsTable in tables && recordId !in old(records) ==> r == Fail(StorageError(NoSuchRecord))
      ensures RecordsTable in tables && recordId in old(records) ==>
        if !ValidPhotos(old(records)[recordId].photos) then r == Fail(StorageError(InvalidStoredPhoto))
        else if PhotosTable !in tables then r == Fail(StorageError(NoSuchTable(PhotosTable)))
        else if old(photos) == map[] then r == Fail(StorageError(NullMaximum))
        else if decode(data).None? then r == Fail(StorageError(UndecodableImage))
        else r == Pass
      ensures r.Pass? ==>
        var uri := NextUri(old(photos)).value;
        var row := old(records)[recordId];
        && uri !in old(photos)
        && photos == old(photos)[uri := data]
        && records == old(records)[recordId := row.(photos := row.photos + [NewPhotoEntry(uri, decode(data).value)])]
      ensures old(EntriesValid()) ==> EntriesValid()
    {
      var current := GetRecordPhotoUris(recordId);
      if current.Err? {
        return Fail(current.failure);
      }
      if PhotosTable !in tables {
        return Fail(StorageError(NoSuchTable(PhotosTable)));
      }
      var uri := NextUri(photos);
      if uri.None? {
        return Fail(StorageError(NullMaximum));
      }
      var updated := AddCurrentPhotoUri(current.value, data, uri.value, decode);
      if updated.None? {
        return Fail(StorageError(UndecodableImage));
      }
      // UPDATE records ...; INSERT INTO photos ...; commit
      records := records[recordId := records[recordId].(photos := updated.value)];
      photos := photos[uri.value := data];
      return Pass;
    }

    /** get_photo: the bytes stored under the uri, or NotFound. */
    method GetPhoto(photoId: string) returns (r: Result<Bytes>)
      requires Valid()
      ensures PhotosTable !in tables ==> r == Err(StorageError(NoSuchTable(PhotosTable)))
      ensures PhotosTable in tables ==> (photoId in photos <==> r.Ok?)
      ensures PhotosTable in tables && photoId in photos ==> r == Ok(photos[photoId])
      ensures PhotosTable in tables && photoId !in photos ==> r == Err(NotFound)
    {
      if PhotosTable !in tables {
        return Err(StorageError(NoSuchTable(PhotosTable)));
      }
      if photoId !in photos {
        return Err(NotFound);
      }
      return Ok(photos[photoId]);
    }
  }

  /** Start-up: connect to the database file and create both tables if
      they do not exist yet, keeping every row already stored. */
  method Launch(tables0: set<Table>, records0: map<int, Row>, photos0: map<string, Bytes>)
    returns (db: Database)
    requires Consistent(tables0, records0, photos0)
    ensures fresh(db) && db.Valid()
    ensures db.tables == tables0 + {RecordsTable, PhotosTable}
    ensures db.records == records0 && db.photos == photos0
  {
    db := new Database.Connect(tables0, records0, photos0);
    db.SetupTables([RecordsTable, PhotosTable]);
    assert (set t | t in [RecordsTable, PhotosTable]) == {RecordsTable, PhotosTable};
  }
}
