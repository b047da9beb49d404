/** The answer of
      SELECT ... FROM records WHERE date < before ORDER BY date DESC LIMIT limit
    over a records table. Rows with equal dates may come in any order in
    SQLite; this model puts them in ascending id order (PrecedesAt), which
    First and OrderedKeys state, while ListingSpec speaks only of dates and
    so holds for any tie order. */
module Query {
  import opened Models
  import opened SqlText
  import opened Schema

  function Min(a: nat, b: nat): nat { if a <= b then a else b }

  /** The ids of the rows that pass WHERE date < before. */
  function Matching(records: map<int, Row>, before: string): (ids: set<int>)
    ensures ids <= records.Keys
  {
    set k | k in records && LexLess(records[k].date, before)
  }

  /** Row i is listed before row j: a later date first, equal dates by id. */
  predicate PrecedesAt(records: map<int, Row>, i: int, j: int)
    requires i in records && j in records
  {
    LexLess(records[j].date, records[i].date) || (records[i].date == records[j].date && i < j)
  }

  lemma PrecedesAsymmetric(records: map<int, Row>, i: int, j: int)
    requires i in records && j in records
    ensures !(PrecedesAt(records, i, j) && PrecedesAt(records, j, i))
  {
    LexAsymmetric(records[i].date, records[j].date);
    LexIrreflexive(records[i].date);
  }

  lemma PrecedesTotal(records: map<int, Row>, i: int, j: int)
    requires i in records && j in records && i != j
    ensures PrecedesAt(records, i, j) || PrecedesAt(records, j, i)
  {
    if records[i].date != records[j].date {
      LexTotal(records[i].date, records[j].date);
    }
  }

  lemma PrecedesTransitive(records: map<int, Row>, i: int, j: int, k: int)
    requires i in records && j in records && k in records
    requires PrecedesAt(records, i, j) && PrecedesAt(records, j, k)
    ensures PrecedesAt(records, i, k)
  {
    var a, b, c := records[i].date, records[j].date, records[k].date;
    if LexLess(b, a) && LexLess(c, b) {
      LexTransitive(c, b, a);
    }
  }

  /** A row listed before another has a date no earlier than the other's. */
  lemma PrecedesDate(records: map<int, Row>, i: int, j: int)
    requires i in records && j in records && PrecedesAt(records, i, j)
    ensures !LexLess(records[i].date, records[j].date)
  {
    LexAsymmetric(records[i].date, records[j].date);
    LexIrreflexive(records[i].date);
  }

  /** Row k of ids comes before every other row of ids. */
  predicate IsFirst(records: map<int, Row>, ids: set<int>, k: int)
    requires ids <= records.Keys
  {
    k in ids && forall j | j in ids && j != k :: PrecedesAt(records, k, j)
  }

  lemma FirstStays(records: map<int, Row>, ids: set<int>, k: int, y: int)
    requires ids <= records.Keys && y in records
    requires IsFirst(records, ids - {y}, k) && PrecedesAt(records, k, y) && y in ids
    ensures IsFirst(records, ids, k)
  {
  }

  lemma FirstMoves(records: map<int, Row>, ids: set<int>, k: int, y: int)
    requires ids <= records.Keys && y in records
    requires IsFirst(records, ids - {y}, k) && PrecedesAt(records, y, k) && y in ids
    ensures IsFirst(records, ids, y)
  {
    forall j | j in ids && j != y ensures PrecedesAt(records, y, j) {
      if j != k {
        assert j in ids - {y};
        PrecedesTransitive(records, y, k, j);
      }
    }
  }

  /** Every non-empty set of rows has a row that comes first. */
  lemma {:induction false} FirstExists(records: map<int, Row>, ids: set<int>)
    requires ids != {} && ids <= records.Keys
    ensures exists k :: IsFirst(records, ids, k)
  {
    HasMember(ids);
    var y :| y in ids;
    if ids == {y} {
      assert IsFirst(records, ids, y);
    } else {
      FirstExists(records, ids - {y});
      var k :| IsFirst(records, ids - {y}, k);
      PrecedesTotal(records, k, y);
      if PrecedesAt(records, k, y) {
        FirstStays(records, ids, k, y);
      } else {
        FirstMoves(records, ids, k, y);
      }
    }
  }

  /** The row of ids that the query lists first. */
  function First(records: map<int, Row>, ids: set<int>): (k: int)
    requires ids != {} && ids <= records.Keys
    ensures k in ids && forall j | j in ids && j != k :: PrecedesAt(records, k, j)
  {
    FirstExists(records, ids);
    forall i, j | i in records && j in records
      ensures !(PrecedesAt(records, i, j) && PrecedesAt(records, j, i))
    {
      PrecedesAsymmetric(records, i, j);
    }
    var k :| IsFirst(records, ids, k);
    k
  }

  /** The ids of ids in listing order, cut after limit of them: in order,
      without repeats, and no id left out comes before one listed. */
  function OrderedKeys(records: map<int, Row>, ids: set<int>, limit: nat): (ks: seq<int>)
    requires ids <= records.Keys
    ensures |ks| == Min(limit, |ids|)
    ensures forall i | 0 <= i < |ks| :: ks[i] in ids
    ensures forall i, j | 0 <= i < j < |ks| :: ks[i] != ks[j] && PrecedesAt(records, ks[i], ks[j])
    ensures forall k, i | k in ids && k !in ks && 0 <= i < |ks| :: PrecedesAt(records, ks[i], k)
    decreases limit
  {
    if limit == 0 || ids == {} then []
    else
      var k := First(records, ids);
      var rest := OrderedKeys(records, ids - {k}, limit - 1);
      [k] + rest
  }

  /** The rows under the given keys, in the same order. */
  function RowsAt(records: map<int, Row>, ks: seq<int>): (rs: seq<Row>)
    requires forall i | 0 <= i < |ks| :: ks[i] in records
    ensures |rs| == |ks| && forall i | 0 <= i < |ks| :: rs[i] == records[ks[i]]
  {
    seq(|ks|, i requires 0 <= i < |ks| => records[ks[i]])
  }

  /** The rows the query returns. */
  function Listing(records: map<int, Row>, before: string, limit: nat): seq<Row> {
    RowsAt(records, OrderedKeys(records, Matching(records, before), limit))
  }

  /** What the query promises: only stored rows dated strictly before
      `before`, no row twice, latest date first, min(limit, #matching) of
      them, and no matching row left out is later than one returned. */
  lemma ListingSpec(records: map<int, Row>, before: string, limit: nat)
    requires KeyedById(records)
    ensures var rs := Listing(records, before, limit);
      && |rs| == Min(limit, |Matching(records, before)|)
      && (forall i | 0 <= i < |rs| ::
            rs[i].id in records && records[rs[i].id] == rs[i] && LexLess(rs[i].date, before))
      && (forall i, j | 0 <= i < j < |rs| :: rs[i].id != rs[j].id && !LexLess(rs[i].date, rs[j].date))
      && (forall k, i | k in Matching(records, before) && 0 <= i < |rs| ::
            (forall j | 0 <= j < |rs| :: rs[j].id != k) ==> !LexLess(rs[i].date, records[k].date))
  {
    var ids := Matching(records, before);
    var ks := OrderedKeys(records, ids, limit);
    var rs := RowsAt(records, ks);
    assert forall i | 0 <= i < |rs| :: rs[i].id == ks[i];
    forall i, j | 0 <= i < j < |rs| ensures !LexLess(rs[i].date, rs[j].date) {
      PrecedesDate(records, ks[i], ks[j]);
    }
    forall k, i | k in ids && 0 <= i < |rs| && (forall j | 0 <= j < |rs| :: rs[j].id != k)
      ensures !LexLess(rs[i].date, records[k].date)
    {
      assert k !in ks;
      PrecedesDate(records, ks[i], k);
    }
  }
}
