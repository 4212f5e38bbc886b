/** The records read from the car catalog and the row-collection loop that
    every read operation shares: run the query, scan each row of the cursor
    into a record, then check the cursor's final status. */
module Catalog {
  import opened Wrappers
  import opened Utf8

  datatype Brand = Brand(id: int, name: string)

  datatype Model = Model(id: int, brandId: int, name: string)

  /** A search result: a car joined with its model's and brand's names. */
  datatype Car = Car(id: int, brandName: string, modelName: string, year: int, price: int)

  /** What scanning one row into a record gives: the record, or the driver's
      error when the row does not fit the record's fields. */
  datatype Scan<R> = Scanned(record: R) | ScanError(cause: string)

  /** An open cursor, abstractly: the rows that its Next/Scan loop visits, in
      order, and the status its Err reports once Next returns false. */
  datatype Cursor<R> = Cursor(rows: seq<Scan<R>>, status: Option<string>)

  /** Running a query either fails outright or opens a cursor. */
  datatype Execution<R> = QueryFailed(cause: string) | Opened(cursor: Cursor<R>)

  /** The three ways a read fails. */
  datatype Failure =
    | QueryError(cause: string)
    | RowScanError(cause: string)
    | IterationError(cause: string)

  /** The database, as seen by one request: SQL text and positional
      arguments in, an execution out. */
  type Database<!R> = (string, seq<Bytes>) -> Execution<R>

  const BrandsQuery: string := "SELECT id, name FROM brands"
  const ModelsQuery: string := "SELECT id, brand_id, name FROM models"

  predicate AllScanned<R>(rows: seq<Scan<R>>) {
    forall i :: 0 <= i < |rows| ==> rows[i].Scanned?
  }

  /** The position of the first row that fails to scan, if any. */
  function FirstScanError<R>(rows: seq<Scan<R>>): (k: Option<nat>)
    ensures k.None? <==> AllScanned(rows)
    ensures k.Some? ==> k.value < |rows| && rows[k.value].ScanError?
                        && AllScanned(rows[..k.value])
  {
    if rows == [] then None
    else if rows[0].ScanError? then Some(0)
    else match FirstScanError(rows[1..])
      case None => None
      case Some(k) =>
        assert rows[..k + 1] == [rows[0]] + rows[1..][..k];
        Some(k + 1)
  }

  /** Specification of the row-collection loop: on success, the records of
      all rows in cursor order; a scan failure stops at that row; otherwise the
      cursor's final error is reported. */
  function Collect<R>(c: Cursor<R>): Result<seq<R>, Failure>
    decreases |c.rows|
  {
    if c.rows == [] then
      (if c.status.Some? then Failure(IterationError(c.status.value)) else Success([]))
    else
      match c.rows[0]
      case ScanError(e) => Failure(RowScanError(e))
      case Scanned(x) => Prepend([x], Collect(Cursor(c.rows[1..], c.status)))
  }

  function Prepend<R>(xs: seq<R>, r: Result<seq<R>, Failure>): Result<seq<R>, Failure> {
    match r
    case Success(ys) => Success(xs + ys)
    case Failure(e) => Failure(e)
  }

  /** The whole read: a query failure comes before any row is looked at. */
  function Read<R>(e: Execution<R>): Result<seq<R>, Failure> {
    match e
    case QueryFailed(cause) => Failure(QueryError(cause))
    case Opened(c) => Collect(c)
  }

  /** A collection succeeds exactly when every row scans and the cursor ends cleanly. */
  lemma {:induction false} CollectSucceeds<R>(c: Cursor<R>)
    ensures Collect(c).Success? <==> AllScanned(c.rows) && c.status.None?
    decreases |c.rows|
  {
    if c.rows != [] {
      CollectSucceeds(Cursor(c.rows[1..], c.status));
      if c.rows[0].Scanned? {
        assert AllScanned(c.rows) <==> AllScanned(c.rows[1..]) by {
          forall i | 1 <= i < |c.rows| ensures c.rows[i] == c.rows[1..][i - 1] { }
        }
      }
    }
  }

  /** A successful collection holds one record per row, in cursor order. */
  lemma {:induction false} CollectRecords<R>(c: Cursor<R>)
    requires Collect(c).Success?
    ensures |Collect(c).value| == |c.rows|
    ensures forall i :: 0 <= i < |c.rows| ==>
              c.rows[i].Scanned? && Collect(c).value[i] == c.rows[i].record
    decreases |c.rows|
  {
    if c.rows != [] {
      var tail := Cursor(c.rows[1..], c.status);
      CollectRecords(tail);
      forall i | 1 <= i < |c.rows|
        ensures c.rows[i].Scanned? && Collect(c).value[i] == c.rows[i].record
      {
        assert c.rows[i] == tail.rows[i - 1];
      }
    }
  }

  /** A failed collection reports the first row that failed to scan, or,
      when every row scanned, the cursor's final error. */
  lemma {:induction false} CollectFailure<R>(c: Cursor<R>)
    requires Collect(c).Failure?
    ensures match FirstScanError(c.rows)
            case Some(k) => Collect(c).error == RowScanError(c.rows[k].cause)
            case None => c.status.Some? && Collect(c).error == IterationError(c.status.value)
    decreases |c.rows|
  {
    if c.rows != [] && c.rows[0].Scanned? {
      var tail := Cursor(c.rows[1..], c.status);
      CollectFailure(tail);
      match FirstScanError(tail.rows)
      case Some(k) => assert c.rows[k + 1] == tail.rows[k];
      case None =>
    }
  }

  /** The row-collection loop over an open cursor. */
  method CollectRows<R>(c: Cursor<R>) returns (r: Result<seq<R>, Failure>)
    ensures r == Collect(c)
  {
    var records: seq<R> := [];
    var i := 0;
    assert c.rows[i..] == c.rows;
    match Collect(c) {
      case Success(ys) => assert records + ys == ys;
      case Failure(_) =>
    }
    while i < |c.rows|
      invariant 0 <= i <= |c.rows|
      invariant Collect(c) == Prepend(records, Collect(Cursor(c.rows[i..], c.status)))
    {
      assert c.rows[i..][1..] == c.rows[i + 1..];
      match c.rows[i] {
        case ScanError(e) =>
          return Failure(RowScanError(e));
        case Scanned(x) =>
          match Collect(Cursor(c.rows[i + 1..], c.status)) {
            case Success(ys) => assert records + ([x] + ys) == (records + [x]) + ys;
            case Failure(_) =>
          }
          records := records + [x];
      }
      i := i + 1;
    }
    assert c.rows[i..] == [];
    if c.status.Some? {
      return Failure(IterationError(c.status.value));
    }
    assert records + [] == records;
    return Success(records);
  }

  /** Runs a query and collects its rows; a failed query reads no row. */
  method Fetch<R>(e: Execution<R>) returns (r: Result<seq<R>, Failure>)
    ensures r == Read(e)
  {
    match e
    case QueryFailed(cause) =>
      return Failure(QueryError(cause));
    case Opened(c) =>
      r := CollectRows(c);
  }

  /** Every brand, in the order the table scan yields them. */
  method GetBrands(db: Database<Brand>) returns (r: Result<seq<Brand>, Failure>)
    ensures r == Read(db(BrandsQuery, []))
  {
    r := Fetch(db(BrandsQuery, []));
  }

  /** Every model, in the order the table scan yields them. */
  method GetModels(db: Database<Model>) returns (r: Result<seq<Model>, Failure>)
    ensures r == Read(db(ModelsQuery, []))
  {
    r := Fetch(db(ModelsQuery, []));
  }
}
