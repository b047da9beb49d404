/** The shapes a client sends to the API: the literal vocabularies of
    AlgaeType, AlgaeSize and AlgaeColor, a photo entry and a record, and the
    field constraints the request model enforces before a record reaches the
    store (non-negative integers, required and optional fields, at most four
    photos). */
module Models {

  datatype Option<+T> = None | Some(value: T)

  /* ---------------- literal vocabularies ---------------- */

  datatype AlgaeType = Sample | Sighting | Undefined

  function TypeName(t: AlgaeType): string {
    match t
    case Sample => "Sample"
    case Sighting => "Sighting"
    case Undefined => "Undefined"
  }

  /** Accepts exactly the three literals of AlgaeType. */
  function ParseType(s: string): (r: Option<AlgaeType>)
    ensures r.Some? <==> s in {"Sample", "Sighting", "Undefined"}
    ensures r.Some? ==> TypeName(r.value) == s
  {
    if s == "Sample" then Some(Sample)
    else if s == "Sighting" then Some(Sighting)
    else if s == "Undefined" then Some(Undefined)
    else None
  }

  datatype AlgaeSize = Fist | ShoeBox | CoffeeTable | Car | Bus | Playground | SportsField | Other

  function SizeName(z: AlgaeSize): string {
    match z
    case Fist => "Fist"
    case ShoeBox => "Shoe Box"
    case CoffeeTable => "Coffee Table"
    case Car => "Car"
    case Bus => "Bus"
    case Playground => "Playground"
    case SportsField => "Sports Field"
    case Other => "Other"
  }

  /** Accepts exactly the eight literals of AlgaeSize. */
  function ParseSize(s: string): (r: Option<AlgaeSize>)
    ensures r.Some? <==> s in {"Fist", "Shoe Box", "Coffee Table", "Car", "Bus",
                               "Playground", "Sports Field", "Other"}
    ensures r.Some? ==> SizeName(r.value) == s
  {
    if s == "Fist" then Some(Fist)
    else if s == "Shoe Box" then Some(ShoeBox)
    else if s == "Coffee Table" then Some(CoffeeTable)
    else if s == "Car" then Some(Car)
    else if s == "Bus" then Some(Bus)
    else if s == "Playground" then Some(Playground)
    else if s == "Sports Field" then Some(SportsField)
    else if s == "Other" then Some(AlgaeSize.Other)
    else None
  }

  datatype AlgaeColor = Other | Red | Pink | Grey | Green | Orange | Yellow

  function ColorName(c: AlgaeColor): string {
    match c
    case Other => "Other"
    case Red => "Red"
    case Pink => "Pink"
    case Grey => "Grey"
    case Green => "Green"
    case Orange => "Orange"
    case Yellow => "Yellow"
  }

  /** Accepts exactly the seven literals of AlgaeColor. */
  function ParseColor(s: string): (r: Option<AlgaeColor>)
    ensures r.Some? <==> s in {"Other", "Red", "Pink", "Grey", "Green", "Orange", "Yellow"}
    ensures r.Some? ==> ColorName(r.value) == s
  {
    if s == "Other" then Some(AlgaeColor.Other)
    else if s == "Red" then Some(Red)
    else if s == "Pink" then Some(Pink)
    else if s == "Grey" then Some(Grey)
    else if s == "Green" then Some(Green)
    else if s == "Orange" then Some(Orange)
    else if s == "Yellow" then Some(Yellow)
    else None
  }

  /** Each literal parses back to the value that printed it. */
  lemma NamesParse(t: AlgaeType, z: AlgaeSize, c: AlgaeColor)
    ensures ParseType(TypeName(t)) == Some(t)
    ensures ParseSize(SizeName(z)) == Some(z)
    ensures ParseColor(ColorName(c)) == Some(c)
  {
  }

  /* ---------------- photo entries ---------------- */

  /** Metadata of one photo; `size` is absent for photos the client only has cached. */
  datatype PhotoEntry = PhotoEntry(uri: string, width: int, height: int, size: Option<int>)

  predicate ValidPhotoEntry(p: PhotoEntry) {
    p.width >= 0 && p.height >= 0 && (p.size.Some? ==> p.size.value >= 0)
  }

  predicate ValidPhotos(ps: seq<PhotoEntry>) {
    forall i | 0 <= i < |ps| :: ValidPhotoEntry(ps[i])
  }

  /** Building a PhotoEntry from its four fields: rejected (a validation
      error) exactly when a width, height or present size is negative. */
  function MakePhotoEntry(uri: string, width: int, height: int, size: Option<int>): (r: Option<PhotoEntry>)
    ensures r.Some? <==> width >= 0 && height >= 0 && (size.Some? ==> size.value >= 0)
    ensures r.Some? ==> r.value == PhotoEntry(uri, width, height, size) && ValidPhotoEntry(r.value)
  {
    if width < 0 || height < 0 || (size.Some? && size.value < 0) then None
    else Some(PhotoEntry(uri, width, height, size))
  }

  /* ---------------- records ---------------- */

  const MaxPhotos := 4

  /** A record as the request model holds it. The field `type` of the
      request is called `kind` here. */
  datatype Record = Record(
    id: int,
    kind: AlgaeType,
    name: Option<string>,
    organization: Option<string>,
    date: string,
    longitude: real,
    latitude: real,
    size: AlgaeSize,
    color: AlgaeColor,
    tubeId: Option<string>,
    locationDescription: Option<string>,
    notes: Option<string>,
    photos: Option<seq<PhotoEntry>>)

  predicate ValidRecord(r: Record) {
    && r.id >= 0
    && (r.photos.Some? ==> |r.photos.value| <= MaxPhotos && ValidPhotos(r.photos.value))
  }

  /* ---------------- the request body before validation ---------------- */

  /** A photo object of a request body; None is a missing key or a null. */
  datatype RawPhoto = RawPhoto(uri: Option<string>, width: Option<int>, height: Option<int>, size: Option<int>)

  /** A record object of a request body, with the literals still as strings;
      None is a missing key or a null. */
  datatype RawRecord = RawRecord(
    id: Option<int>,
    kind: Option<string>,
    name: Option<string>,
    organization: Option<string>,
    date: Option<string>,
    longitude: Option<real>,
    latitude: Option<real>,
    size: Option<string>,
    color: Option<string>,
    tubeId: Option<string>,
    locationDescription: Option<string>,
    notes: Option<string>,
    photos: Option<seq<RawPhoto>>)

  function PhotoToRaw(p: PhotoEntry): RawPhoto {
    RawPhoto(Some(p.uri), Some(p.width), Some(p.height), p.size)
  }

  function PhotosToRaw(ps: seq<PhotoEntry>): (raws: seq<RawPhoto>)
    ensures |raws| == |ps| && forall i | 0 <= i < |ps| :: raws[i] == PhotoToRaw(ps[i])
  {
    seq(|ps|, i requires 0 <= i < |ps| => PhotoToRaw(ps[i]))
  }

  /** The body a client sends for a record: every field it holds, the
      literals by name. */
  function ToRaw(r: Record): RawRecord {
    RawRecord(Some(r.id), Some(TypeName(r.kind)), r.name, r.organization, Some(r.date),
              Some(r.longitude), Some(r.latitude), Some(SizeName(r.size)), Some(ColorName(r.color)),
              r.tubeId, r.locationDescription, r.notes,
              if r.photos.Some? then Some(PhotosToRaw(r.photos.value)) else None)
  }

  /** Validation of one photo object: uri, width and height are required. */
  function ParsePhoto(raw: RawPhoto): (r: Option<PhotoEntry>)
    ensures r.Some? ==> ValidPhotoEntry(r.value) && PhotoToRaw(r.value) == raw
  {
    if raw.uri.None? || raw.width.None? || raw.height.None? then None
    else MakePhotoEntry(raw.uri.value, raw.width.value, raw.height.value, raw.size)
  }

  /** Validation of a list of photo objects: fails if any item fails. */
  function ParsePhotos(raws: seq<RawPhoto>): (r: Option<seq<PhotoEntry>>)
    ensures r.Some? <==> forall i | 0 <= i < |raws| :: ParsePhoto(raws[i]).Some?
    ensures r.Some? ==> ValidPhotos(r.value) && PhotosToRaw(r.value) == raws
  {
    if raws == [] then Some([])
    else
      var head := ParsePhoto(raws[0]);
      var tail := ParsePhotos(raws[1..]);
      if head.None? || tail.None? then
        assert !ParsePhoto(raws[0]).Some? || exists i | 0 <= i < |raws[1..]| :: !ParsePhoto(raws[1..][i]).Some?;
        None
      else
        var ps := [head.value] + tail.value;
        assert forall i | 1 <= i < |raws| :: raws[i] == raws[1..][i - 1];
        assert PhotosToRaw(ps) == raws by {
          assert forall i | 1 <= i < |ps| :: ps[i] == tail.value[i - 1];
        }
        Some(ps)
  }

  /** Validation of a record body: id, type, date, longitude, latitude,
      size and color are required, id must be non-negative, the literals
      must belong to their vocabularies and photos, when present, are at
      most four valid photo objects. A result is a valid record that sends
      back exactly the body it came from. */
  function ParseRecord(raw: RawRecord): (r: Option<Record>)
    ensures r.Some? ==> ValidRecord(r.value) && ToRaw(r.value) == raw
  {
    if || raw.id.None? || raw.id.value < 0
       || raw.kind.None? || ParseType(raw.kind.value).None?
       || raw.date.None? || raw.longitude.None? || raw.latitude.None?
       || raw.size.None? || ParseSize(raw.size.value).None?
       || raw.color.None? || ParseColor(raw.color.value).None?
    then None
    else if raw.photos.Some? && |raw.photos.value| > MaxPhotos then None
    else
      var photos := if raw.photos.None? then Some(None) else
                      var ps := ParsePhotos(raw.photos.value);
                      if ps.None? then None else Some(Some(ps.value));
      if photos.None? then None
      else Some(Record(raw.id.value, ParseType(raw.kind.value).value, raw.name, raw.organization,
                       raw.date.value, raw.longitude.value, raw.latitude.value,
                       ParseSize(raw.size.value).value, ParseColor(raw.color.value).value,
                       raw.tubeId, raw.locationDescription, raw.notes, photos.value))
  }

  /** Every valid record is accepted back from the body it sends: with the
      ensures of ParseRecord, ParseRecord(raw) == Some(r) holds exactly
      when r is valid and raw is its body. */
  lemma {:induction false} ParseToRaw(r: Record)
    requires ValidRecord(r)
    ensures ParseRecord(ToRaw(r)) == Some(r)
  {
    NamesParse(r.kind, r.size, r.color);
    if r.photos.Some? {
      ParsePhotosToRaw(r.photos.value);
    }
  }

  lemma {:induction false} ParsePhotosToRaw(ps: seq<PhotoEntry>)
    requires ValidPhotos(ps)
    ensures ParsePhotos(PhotosToRaw(ps)) == Some(ps)
  {
    if ps != [] {
      assert PhotosToRaw(ps)[1..] == PhotosToRaw(ps[1..]);
      ParsePhotosToRaw(ps[1..]);
      assert [ps[0]] + ps[1..] == ps;
    }
  }
}
