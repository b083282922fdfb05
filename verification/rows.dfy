/**
 * The row loop of the upload handler. Each data row is classified on its own:
 * accepted with a normalised record, or skipped with a reason. A left fold over
 * the rows then drops every accepted row whose UTC day was already taken by an
 * earlier one, and keeps the running maximum of the cycle numbers.
 */
module Rows {
  import opened JsText
  import opened Civil
  import opened Cells
  import opened Layout

  // ---------------------------------------------------------------------------
  // Dates
  // ---------------------------------------------------------------------------

  /** Serial number of 1970-01-01 in the spreadsheet 1900 date system, whose
      serial 0 is 1899-12-30 (ECMA-376 Part 1, section 18.17.4). */
  const UnixEpochSerial: int := 25569

  /** `excelDateToJSDate` on an integer serial: midnight UTC of the serial's day. */
  function SerialToTime(serial: int): (ms: int)
    ensures UtcDayNumber(ms) == serial - UnixEpochSerial
    ensures ms % MsPerDay == 0
  {
    (serial - UnixEpochSerial) * MsPerDay
  }

  /** How the date cell of a row reads. */
  datatype DateRead = NoDate | BadDate | At(time: int)

  /** The date coercion: a missing cell is no date; a Date is taken as it is, a
      number is a serial, a non-blank string goes to the host's parser, and
      anything else (a boolean, a blank string) leaves no date object. The
      result must be a valid time value (`isNaN(dateObj.getTime())` fails). */
  function ReadDate(c: Cell, host: Host): (d: DateRead)
    ensures d.At? ==> ValidTime(d.time)
    ensures d.NoDate? <==> c.Empty?
    ensures c.Bool? || (c.Text? && Trim(c.text) == "") ==> d.BadDate?
    ensures c.DateCell? && ValidTime(c.time) ==> d == At(c.time)
    ensures c.Num? && d.At? ==> UtcDayNumber(d.time) == c.num - UnixEpochSerial
    ensures c.Num? ==> (d.At? <==> ValidTime(SerialToTime(c.num)))
    ensures c.Text? && d.At? ==> host.parseDate(c.text) == Some(d.time)
    ensures (c.Text? && Trim(c.text) != "" && host.parseDate(c.text).Some? && ValidTime(host.parseDate(c.text).value))
              ==> d == At(host.parseDate(c.text).value)
    ensures c.Num? && d.At? ==> d.time == SerialToTime(c.num)
    ensures c.DateCell? && !ValidTime(c.time) ==> d == BadDate
  {
    match c
    case Empty => NoDate
    case Bool(_) => BadDate
    case DateCell(t) => if ValidTime(t) then At(t) else BadDate
    case Num(n) =>
      var t := SerialToTime(n);
      if ValidTime(t) then At(t) else BadDate
    case Text(s) =>
      if Trim(s) == "" then BadDate
      else match host.parseDate(s)
        case None => BadDate
        case Some(t) => if ValidTime(t) then At(t) else BadDate
  }

  // ---------------------------------------------------------------------------
  // Records
  // ---------------------------------------------------------------------------

  /** Route, weekend or holiday: the letters R, W and H of the type column. */
  datatype Kind = Route | Weekend | Holiday

  function KindLetter(k: Kind): string {
    match k
    case Route => "R"
    case Weekend => "W"
    case Holiday => "H"
  }

  /** The type test `['R', 'W', 'H'].includes(typeStr)`. */
  function ParseKind(s: string): (r: Option<Kind>)
    ensures r.Some? <==> s == "R" || s == "W" || s == "H"
    ensures r.Some? ==> KindLetter(r.value) == s
  {
    if s == "R" then Some(Route)
    else if s == "W" then Some(Weekend)
    else if s == "H" then Some(Holiday)
    else None
  }

  /** One normalised calendar row; `mcpDate` is the instant in milliseconds. */
  datatype Record = Record(cycleNumber: nat, zone: nat, mcpDate: int, kind: Kind, plotFlag: nat, version: nat)

  /** The deduplication key: the UTC calendar day, of which the ISO date string is a
      one-to-one rendering. */
  function DayOf(r: Record): int {
    UtcDayNumber(r.mcpDate)
  }

  /** What every emitted record satisfies. */
  ghost predicate WellFormed(r: Record) {
    && ValidTime(r.mcpDate)
    && 1 <= r.cycleNumber
    && 1 <= r.zone
    && (r.plotFlag == 1 <==> r.kind == Route)
    && r.plotFlag <= 1
    && r.version == 1
  }

  datatype Skip = MissingDate | InvalidDate | UnknownType

  /** A row either yields a record or is skipped for a reason. */
  datatype Outcome = Accept(record: Record) | Reject(reason: Skip)

  /** `typeStr`: the type cell trimmed and upper-cased. */
  function TypeText(row: seq<Cell>, cols: Columns, host: Host): string {
    Upper(Trim(CellText(CellAt(row, cols.kind), host)))
  }

  /** `typeStr` is trimmed and upper-cased: no space at either end and no ASCII
      small letter. */
  lemma TypeTextForm(row: seq<Cell>, cols: Columns, host: Host)
    ensures var t := TypeText(row, cols, host);
            && (t == [] || (!IsSpace(t[0]) && !IsSpace(t[|t| - 1])))
            && (forall k | 0 <= k < |t| :: !('a' <= t[k] <= 'z'))
  {
    UpperTrimmed(CellText(CellAt(row, cols.kind), host));
  }

  /** `cleanNum(rawCycle)`. */
  function CleanCycle(row: seq<Cell>, cols: Columns, host: Host): nat {
    CleanNum(CellText(CellAt(row, cols.cycle), host))
  }

  /** `cleanNum(rawZone)`. */
  function CleanZone(row: seq<Cell>, cols: Columns, host: Host): nat {
    CleanNum(CellText(CellAt(row, cols.zone), host))
  }

  /** The record of an accepted row: a cleaned cycle or zone of 0 is replaced by
      the UTC month (1..12) or the UTC day of the month (1..31) of the date. */
  function MakeRecord(t: int, kind: Kind, cycle: nat, zone: nat): (r: Record)
    requires ValidTime(t)
    ensures WellFormed(r)
    ensures r.mcpDate == t && r.kind == kind
    ensures cycle != 0 ==> r.cycleNumber == cycle
    ensures cycle == 0 ==> r.cycleNumber == UtcDate(t).month && r.cycleNumber <= 12
    ensures zone != 0 ==> r.zone == zone
    ensures zone == 0 ==> r.zone == UtcDate(t).day && r.zone <= 31
  {
    var date := UtcDate(t);
    Record(
      if cycle == 0 then date.month else cycle,
      if zone == 0 then date.day else zone,
      t,
      kind,
      if kind == Route then 1 else 0,
      1)
  }

  /** One pass of the loop body up to the duplicate check: read the date, check
      the type, clean cycle and zone, and fill a zero from the UTC month and day. */
  function Classify(row: seq<Cell>, cols: Columns, host: Host): (o: Outcome)
    ensures o.Accept? <==> ReadDate(CellAt(row, cols.date), host).At? && ParseKind(TypeText(row, cols, host)).Some?
    ensures o.Reject? ==> (o.reason == UnknownType <==> ReadDate(CellAt(row, cols.date), host).At?)
    ensures o == Reject(MissingDate) <==> CellAt(row, cols.date).Empty?
    ensures o.Accept? ==> WellFormed(o.record)
    ensures o.Accept? ==> ReadDate(CellAt(row, cols.date), host) == At(o.record.mcpDate)
    ensures o.Accept? ==> KindLetter(o.record.kind) == TypeText(row, cols, host)
    ensures o.Accept? && CleanCycle(row, cols, host) != 0 ==> o.record.cycleNumber == CleanCycle(row, cols, host)
    ensures o.Accept? && CleanCycle(row, cols, host) == 0 ==>
              o.record.cycleNumber == UtcDate(o.record.mcpDate).month && o.record.cycleNumber <= 12
    ensures o.Accept? && CleanZone(row, cols, host) != 0 ==> o.record.zone == CleanZone(row, cols, host)
    ensures o.Accept? && CleanZone(row, cols, host) == 0 ==>
              o.record.zone == UtcDate(o.record.mcpDate).day && o.record.zone <= 31
  {
    var d := ReadDate(CellAt(row, cols.date), host);
    if d.NoDate? then Reject(MissingDate)
    else if d.BadDate? then Reject(InvalidDate)
    else
      var k := ParseKind(TypeText(row, cols, host));
      if k.None? then Reject(UnknownType)
      else Accept(MakeRecord(d.time, k.value, CleanCycle(row, cols, host), CleanZone(row, cols, host)))
  }

  /** The outcome of every data row, in order. */
  function Outcomes(rows: seq<seq<Cell>>, cols: Columns, host: Host): (os: seq<Outcome>)
    ensures |os| == |rows|
    ensures forall i | 0 <= i < |rows| :: os[i] == Classify(rows[i], cols, host)
  {
    seq(|rows|, i requires 0 <= i < |rows| => Classify(rows[i], cols, host))
  }

  // ---------------------------------------------------------------------------
  // The fold
  // ---------------------------------------------------------------------------

  /** The loop state: `seenDates`, `maxCycle` and `validRows`. */
  datatype Acc = Acc(seen: set<int>, maxCycle: nat, out: seq<Record>)

  /** The largest cycle number of the records, 0 when there are none. */
  function MaxCycle(recs: seq<Record>): (m: nat)
    ensures forall k | 0 <= k < |recs| :: recs[k].cycleNumber <= m
    ensures |recs| == 0 ==> m == 0
    ensures 0 < |recs| ==> exists k | 0 <= k < |recs| :: recs[k].cycleNumber == m
  {
    if recs == [] then 0
    else
      var m := MaxCycle(recs[..|recs| - 1]);
      var last := recs[|recs| - 1].cycleNumber;
      assert forall k | 0 <= k < |recs| - 1 :: recs[..|recs| - 1][k] == recs[k];
      if m < last then last else m
  }

  /** `seen` holds exactly the days of the records. */
  ghost predicate SeenIsDays(seen: set<int>, out: seq<Record>) {
    forall d :: d in seen <==> exists k | 0 <= k < |out| :: DayOf(out[k]) == d
  }

  /** No two records share a day. */
  predicate DistinctDays(out: seq<Record>) {
    forall a, b | 0 <= a < b < |out| :: DayOf(out[a]) != DayOf(out[b])
  }

  /** The state the loop keeps consistent: `seen` holds exactly the days of the
      records so far, no day twice, and `maxCycle` is their largest cycle. */
  ghost predicate Consistent(acc: Acc) {
    && SeenIsDays(acc.seen, acc.out)
    && DistinctDays(acc.out)
    && acc.maxCycle == MaxCycle(acc.out)
  }

  /** One iteration: a skipped row or a row of an already-seen day leaves the state
      alone; otherwise the day is marked, the maximum updated, the record appended. */
  function Step(acc: Acc, o: Outcome): (r: Acc)
    ensures r.seen == acc.seen + (if o.Accept? then {DayOf(o.record)} else {})
    ensures acc.out <= r.out && |r.out| <= |acc.out| + 1
    ensures acc.maxCycle <= r.maxCycle
  {
    match o
    case Reject(_) => acc
    case Accept(rec) =>
      if DayOf(rec) in acc.seen then acc
      else Acc(acc.seen + {DayOf(rec)},
               if acc.maxCycle < rec.cycleNumber then rec.cycleNumber else acc.maxCycle,
               acc.out + [rec])
  }

  lemma AppendSeen(seen: set<int>, out: seq<Record>, rec: Record)
    requires SeenIsDays(seen, out)
    ensures SeenIsDays(seen + {DayOf(rec)}, out + [rec])
  {
    var out' := out + [rec];
    forall d
      ensures d in seen + {DayOf(rec)} <==> exists k | 0 <= k < |out'| :: DayOf(out'[k]) == d
    {
      if d in seen {
        var k :| 0 <= k < |out| && DayOf(out[k]) == d;
        assert out'[k] == out[k];
      }
      if d == DayOf(rec) {
        assert out'[|out|] == rec;
      }
      if exists k | 0 <= k < |out'| :: DayOf(out'[k]) == d {
        var k :| 0 <= k < |out'| && DayOf(out'[k]) == d;
        if k < |out| {
          assert out'[k] == out[k];
        }
      }
    }
  }

  lemma AppendDistinct(seen: set<int>, out: seq<Record>, rec: Record)
    requires SeenIsDays(seen, out) && DistinctDays(out) && DayOf(rec) !in seen
    ensures DistinctDays(out + [rec])
  {
    var out' := out + [rec];
    forall a, b | 0 <= a < b < |out'| ensures DayOf(out'[a]) != DayOf(out'[b]) {
      assert out'[a] == out[a];
      if b < |out| {
        assert out'[b] == out[b];
      } else {
        assert out'[b] == rec;
      }
    }
  }

  lemma AppendMax(out: seq<Record>, rec: Record)
    ensures MaxCycle(out + [rec])
         == if MaxCycle(out) < rec.cycleNumber then rec.cycleNumber else MaxCycle(out)
  {
    assert (out + [rec])[..|out|] == out;
  }

  lemma StepConsistent(acc: Acc, o: Outcome)
    requires Consistent(acc)
    ensures Consistent(Step(acc, o))
  {
    if o.Accept? && DayOf(o.record) !in acc.seen {
      AppendSeen(acc.seen, acc.out, o.record);
      AppendDistinct(acc.seen, acc.out, o.record);
      AppendMax(acc.out, o.record);
    }
  }

  /** The loop over the row outcomes, from the first to the last. */
  function Fold(os: seq<Outcome>): (r: Acc)
    ensures |r.out| <= |os|
  {
    if os == [] then Acc({}, 0, [])
    else Step(Fold(os[..|os| - 1]), os[|os| - 1])
  }

  /** The fold keeps its state consistent: `seen` is exactly the set of days of
      the records, no day is recorded twice, and `maxCycle` is their maximum. */
  lemma {:induction false} FoldConsistent(os: seq<Outcome>)
    ensures Consistent(Fold(os))
  {
    if os != [] {
      FoldConsistent(os[..|os| - 1]);
      StepConsistent(Fold(os[..|os| - 1]), os[|os| - 1]);
    }
  }

  // ---------------------------------------------------------------------------
  // Which rows survive, stated without the fold
  // ---------------------------------------------------------------------------

  /** The row was accepted and its record falls on the given UTC day. */
  predicate AcceptedOn(o: Outcome, day: int) {
    o.Accept? && DayOf(o.record) == day
  }

  /** Row i was accepted and no earlier row was accepted on the same UTC day. */
  predicate FirstOfDay(os: seq<Outcome>, i: nat)
    requires i < |os|
  {
    os[i].Accept? && forall j | 0 <= j < i :: !AcceptedOn(os[j], DayOf(os[i].record))
  }

  lemma FirstOfDayPrefix(os: seq<Outcome>, n: nat, i: nat)
    requires i < n <= |os|
    ensures FirstOfDay(os[..n], i) == FirstOfDay(os, i)
  {
    assert forall j | 0 <= j <= i :: os[..n][j] == os[j];
  }

  /** Independent of the fold: the indices of the rows that are first of their
      day, in increasing order. */
  function KeptRows(os: seq<Outcome>): (idx: seq<nat>)
    ensures forall k | 0 <= k < |idx| :: idx[k] < |os| && FirstOfDay(os, idx[k])
    ensures forall a, b | 0 <= a < b < |idx| :: idx[a] < idx[b]
    ensures forall i | 0 <= i < |os| && FirstOfDay(os, i) :: i in idx
  {
    if os == [] then []
    else
      var n := |os| - 1;
      var prev := KeptRows(os[..n]);
      forall i | 0 <= i < n
        ensures FirstOfDay(os[..n], i) == FirstOfDay(os, i)
      {
        FirstOfDayPrefix(os, n, i);
      }
      prev + (if FirstOfDay(os, n) then [n] else [])
  }

  /** The records picked by a list of row indices. */
  function Picked(os: seq<Outcome>, idx: seq<nat>): (recs: seq<Record>)
    requires forall k | 0 <= k < |idx| :: idx[k] < |os| && os[idx[k]].Accept?
    ensures |recs| == |idx|
    ensures forall k | 0 <= k < |idx| :: recs[k] == os[idx[k]].record
  {
    seq(|idx|, k requires 0 <= k < |idx| => os[idx[k]].record)
  }
}
