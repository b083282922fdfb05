/**
 * The whole normalisation step of the calendar upload: choose the sheet, find
 * the header row, map the columns, classify and fold the data rows, and reject
 * the upload when there is no sheet, no header or no surviving row.
 */
module Upload {
  import opened Civil
  import opened Cells
  import opened Layout
  import opened Rows
  import opened Survival

  /** One worksheet as the spreadsheet reader returns it: its name and its
      non-blank rows, each a list of cells. */
  datatype Sheet = Sheet(name: string, rows: seq<seq<Cell>>)

  /** Why an upload is turned away: the handler's two 400 answers. */
  datatype Failure = HeaderNotFound | NoValidRows

  /** The normalised calendar: the records in input order, the largest cycle
      number and the calendar year taken from the first record. */
  datatype Calendar = Calendar(records: seq<Record>, maxCycle: nat, year: int)

  datatype Result = Ok(calendar: Calendar) | Err(failure: Failure)

  /** What every accepted upload satisfies: at least one record, every record
      well formed, no two records on the same UTC day, the maximum cycle is the
      records' largest cycle number, and the year is the first record's year. */
  ghost predicate Sound(c: Calendar) {
    && |c.records| > 0
    && (forall k | 0 <= k < |c.records| :: WellFormed(c.records[k]))
    && DistinctDays(c.records)
    && c.maxCycle == MaxCycle(c.records)
    && c.year == UtcDate(c.records[0].mcpDate).year
  }

  function Names(wb: seq<Sheet>): (names: seq<string>)
    ensures |names| == |wb|
    ensures forall i | 0 <= i < |wb| :: names[i] == wb[i].name
  {
    seq(|wb|, i requires 0 <= i < |wb| => wb[i].name)
  }

  /** The outcome of each row below the header, read through the columns the
      header names. */
  function DataOutcomes(rows: seq<seq<Cell>>, hi: nat, host: Host): seq<Outcome>
    requires hi < |rows|
  {
    Outcomes(rows[hi + 1..], ResolveColumns(ColumnMap(rows[hi], host)), host)
  }

  /** One outcome per row below the header, each that row's classification
      through the columns the header names. */
  lemma DataOutcomesMeans(rows: seq<seq<Cell>>, hi: nat, host: Host)
    requires hi < |rows|
    ensures var os := DataOutcomes(rows, hi, host);
            && |os| == |rows| - hi - 1
            && forall i | 0 <= i < |os| ::
                 os[i] == Classify(rows[hi + 1 + i], ResolveColumns(ColumnMap(rows[hi], host)), host)
  {
    var data := rows[hi + 1..];
    forall i | 0 <= i < |data| ensures data[i] == rows[hi + 1 + i] {
    }
  }

  /** Every record an accepted row carries is well formed. */
  lemma AcceptedWellFormed(os: seq<Outcome>, rows: seq<seq<Cell>>, hi: nat, host: Host)
    requires hi < |rows| && os == DataOutcomes(rows, hi, host)
    ensures forall i | 0 <= i < |os| && os[i].Accept? :: WellFormed(os[i].record)
  {
    var data := rows[hi + 1..];
    var cols := ResolveColumns(ColumnMap(rows[hi], host));
    forall i | 0 <= i < |os| && os[i].Accept? ensures WellFormed(os[i].record) {
      assert os[i] == Classify(data[i], cols, host);
    }
  }

  /** The calendar built from the folded rows, or the rejection for an empty result. */
  function Finish(os: seq<Outcome>): (r: Result)
    requires forall i | 0 <= i < |os| && os[i].Accept? :: WellFormed(os[i].record)
    ensures r.Err? <==> forall i | 0 <= i < |os| :: os[i].Reject?
    ensures r.Err? ==> r.failure == NoValidRows
    ensures r.Ok? ==> r.calendar.records == Fold(os).out
    ensures r.Ok? ==> Sound(r.calendar)
  {
    var acc := Fold(os);
    FoldConsistent(os);
    FoldEmptyIffNoneAccepted(os);
    FoldRecordsWellFormed(os);
    if acc.out == [] then Err(NoValidRows)
    else Ok(Calendar(acc.out, acc.maxCycle, UtcDate(acc.out[0].mcpDate).year))
  }

  /** The rows below header row hi, classified and folded. */
  function FromHeader(rows: seq<seq<Cell>>, hi: nat, host: Host): (r: Result)
    requires hi < |rows|
    ensures r.Err? <==> forall i | 0 <= i < |DataOutcomes(rows, hi, host)| :: DataOutcomes(rows, hi, host)[i].Reject?
    ensures r.Err? ==> r.failure == NoValidRows
    ensures r.Ok? ==> Sound(r.calendar)
  {
    var os := DataOutcomes(rows, hi, host);
    AcceptedWellFormed(os, rows, hi, host);
    Finish(os)
  }

  /** The handler's work on the rows of the chosen sheet. */
  function NormaliseRows(rows: seq<seq<Cell>>, host: Host): (r: Result)
    ensures r == Err(HeaderNotFound) <==> FindHeader(rows, host).None?
    ensures r.Ok? ==> Sound(r.calendar)
  {
    match FindHeader(rows, host)
    case None => Err(HeaderNotFound)
    case Some(hi) => FromHeader(rows, hi, host)
  }

  /** The upload handler from reading the workbook up to the database writes.
      In a workbook without sheets the chosen sheet is undefined, which the
      reader turns into no rows, so the header is not found. */
  function Normalise(wb: seq<Sheet>, host: Host): (r: Result)
    ensures |wb| == 0 ==> r == Err(HeaderNotFound)
    ensures r == Err(HeaderNotFound) <==>
              |wb| == 0 || FindHeader(wb[SelectSheet(Names(wb)).value].rows, host).None?
    ensures r.Ok? ==> Sound(r.calendar)
  {
    match SelectSheet(Names(wb))
    case None => NormaliseRows([], host)
    case Some(s) => NormaliseRows(wb[s].rows, host)
  }

  /** Once a header is found, the upload succeeds exactly when some data row is
      accepted, and its records are the first accepted row of each UTC day, in
      input order. */
  lemma NormaliseKeepsFirstOfEachDay(wb: seq<Sheet>, host: Host, s: nat, hi: nat)
    requires SelectSheet(Names(wb)) == Some(s)
    requires FindHeader(wb[s].rows, host) == Some(hi)
    ensures var os := DataOutcomes(wb[s].rows, hi, host);
            && (Normalise(wb, host).Ok? <==> exists i | 0 <= i < |os| :: os[i].Accept?)
            && (Normalise(wb, host).Ok? ==> Normalise(wb, host).calendar.records == Picked(os, KeptRows(os)))
  {
    var os := DataOutcomes(wb[s].rows, hi, host);
    AcceptedWellFormed(os, wb[s].rows, hi, host);
    FoldKeepsFirstOfEachDay(os);
  }
}
