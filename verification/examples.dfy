/**
 * Worked instances of the upload rules: the serial-date offset, the derivation
 * of a missing cycle and zone, the type filter, and a whole upload in which two
 * rows share a date.
 */
module Examples {
  import opened JsText
  import opened Civil
  import opened Cells
  import opened Layout
  import opened Rows
  import opened Survival
  import opened Upload

  /** The instant of midnight UTC starting a valid date. */
  function Midnight(d: Date): int
    requires Valid(d)
  {
    SerialToTime(DaysFromCivil(d) + UnixEpochSerial)
  }

  lemma MidnightDate(d: Date)
    requires Valid(d)
    ensures UtcDate(Midnight(d)) == d
  {
    CivilRoundTrip(d);
  }

  /** Serial 25569 is 1970-01-01 and serial 0 is 1899-12-30. */
  lemma SerialEpochs()
    ensures UtcDate(SerialToTime(25569)) == Date(1970, 1, 1)
    ensures UtcDate(SerialToTime(0)) == Date(1899, 12, 30)
  {
    assert DaysFromCivil(Date(1970, 1, 1)) == 0;
    CivilRoundTrip(Date(1970, 1, 1));
    assert DaysFromCivil(Date(1899, 12, 30)) == -25569;
    CivilRoundTrip(Date(1899, 12, 30));
  }

  /** A numeric date cell of 45000 reads as 2023-03-15. */
  lemma SerialExample(host: Host)
    ensures ReadDate(Num(45000), host).At?
    ensures UtcDate(ReadDate(Num(45000), host).time) == Date(2023, 3, 15)
  {
    assert DaysFromCivil(Date(2023, 3, 15)) == 19431;
    CivilRoundTrip(Date(2023, 3, 15));
  }

  /** A data row in the fixed layout whose cycle and zone cells read "0". */
  function ZeroCells(t: int, l: string): seq<Cell> {
    [Text("0"), Text("0"), Empty, DateCell(t), Text(l)]
  }

  lemma ZeroNumbers(t: int, l: string, host: Host)
    ensures CleanCycle(ZeroCells(t, l), FixedLayout, host) == 0
    ensures CleanZone(ZeroCells(t, l), FixedLayout, host) == 0
  {
    assert CellAt(ZeroCells(t, l), FixedLayout.cycle) == Text("0");
    assert CellAt(ZeroCells(t, l), FixedLayout.zone) == Text("0");
    assert CleanNum("0") == 0;
  }

  /** Zero cycle and zone give way to the month and the day of the date. */
  lemma RecordDerived(t: int, k: Kind)
    requires ValidTime(t)
    ensures MakeRecord(t, k, 0, 0) == Record(UtcDate(t).month, UtcDate(t).day, t, k, if k == Route then 1 else 0, 1)
  {
  }

  /** A row of zeros with a valid date cell and a type letter takes its cycle and
      zone from the date's month and day. */
  lemma ZeroRow(t: int, l: string, host: Host, k: Kind)
    requires ValidTime(t) && Upper(Trim(l)) == KindLetter(k)
    ensures Classify(ZeroCells(t, l), FixedLayout, host)
         == Accept(Record(UtcDate(t).month, UtcDate(t).day, t, k, if k == Route then 1 else 0, 1))
  {
    var row := ZeroCells(t, l);
    assert CellAt(row, FixedLayout.date) == DateCell(t);
    assert CellAt(row, FixedLayout.kind) == Text(l);
    ZeroNumbers(t, l, host);
    Accepts(row, FixedLayout, host, t, k);
    RecordDerived(t, k);
  }

  /** Cycle and zone cells reading "0", a date of 2024-03-15 and a type of " r ":
      the row is a route day of cycle 3, zone 15. */
  lemma DerivationExample(host: Host)
    ensures var t := Midnight(Date(2024, 3, 15));
            (Classify([Text("0"), Text("0"), Empty, DateCell(t), Text(" r ")], FixedLayout, host)
             == Accept(Record(3, 15, t, Route, 1, 1)))
  {
    var d := Date(2024, 3, 15);
    assert DaysFromCivil(d) == 19797;
    MidnightDate(d);
    SpacedLetter();
    ZeroRow(Midnight(d), " r ", host, Route);
  }

  /** " r " reads as the type letter R. */
  lemma SpacedLetter()
    ensures Upper(Trim(" r ")) == "R"
  {
    assert LeadingSpaces(" r ") == 1;
    assert Trim(" r ") == "r";
  }

  /** A row whose date reads but whose type is not R, W or H is dropped for its type. */
  lemma TypeRejected(row: seq<Cell>, cols: Columns, host: Host)
    requires ReadDate(CellAt(row, cols.date), host).At?
    requires ParseKind(TypeText(row, cols, host)).None?
    ensures Classify(row, cols, host) == Reject(UnknownType)
  {
  }

  /** The type cell of a fixed-layout row that reads "X". */
  lemma LetterX(row: seq<Cell>, host: Host)
    requires |row| == 5 && row[4] == Text("X")
    ensures TypeText(row, FixedLayout, host) == "X"
  {
    assert CellAt(row, FixedLayout.kind) == Text("X");
    TrimUnspaced("X");
  }

  /** A type cell of "X" drops the row, whatever its date. */
  lemma TypeFilterExample(host: Host, t: int)
    requires ValidTime(t)
    ensures Classify([Num(1), Num(2), Empty, DateCell(t), Text("X")], FixedLayout, host) == Reject(UnknownType)
  {
    var row := [Num(1), Num(2), Empty, DateCell(t), Text("X")];
    assert CellAt(row, FixedLayout.date) == DateCell(t);
    LetterX(row, host);
    TypeRejected(row, FixedLayout, host);
  }

  // ---------------------------------------------------------------------------
  // A whole upload: three title rows, the header, two rows for the same date
  // ---------------------------------------------------------------------------

  /** A text cell without spaces at its ends is compared in lower case. */
  lemma NormOfText(s: string, host: Host)
    requires s != [] && !IsSpace(s[0]) && !IsSpace(s[|s| - 1])
    ensures Norm(Text(s), host) == Lower(s)
  {
    TrimUnspaced(s);
  }

  function Day(): Date {
    Date(2024, 1, 5)
  }

  function Header(): seq<Cell> {
    [Text("Cycle"), Text("Zone"), Empty, Text("Date"), Text("Type")]
  }

  /** A data row in the fixed layout: cycle, zone, an empty column, date, type. */
  function PlainCells(c: int, z: int, s: string, l: string): seq<Cell> {
    [Num(c), Num(z), Empty, Text(s), Text(l)]
  }

  function Sample(): seq<seq<Cell>> {
    [ [Text("Cycle Calendar")],
      [Text("Client: Acme")],
      [Text("Year 2024")],
      Header(),
      PlainCells(1, 2, "2024-01-05", "R"),
      PlainCells(1, 2, "2024-01-05", "W") ]
  }

  /** A host whose date parser reads "2024-01-05" as midnight UTC of that day. */
  predicate ParsesDay(host: Host) {
    host.parseDate("2024-01-05") == Some(Midnight(Day()))
  }

  lemma LowerAppend(a: string, b: string)
    ensures Lower(a + b) == Lower(a) + Lower(b)
  {
  }

  /** A word capitalised at most in its first letter. */
  lemma LowerWord(w: string)
    requires w != [] && forall k | 1 <= k < |w| :: !('A' <= w[k] <= 'Z')
    ensures Lower(w) == [LowerChar(w[0])] + w[1..]
  {
  }

  /** A capitalised word reads as its lower-case form. */
  lemma NormWord(w: string, host: Host)
    requires w != [] && !IsSpace(w[0]) && !IsSpace(w[|w| - 1])
    requires forall k | 1 <= k < |w| :: !('A' <= w[k] <= 'Z')
    ensures Norm(Text(w), host) == [LowerChar(w[0])] + w[1..]
  {
    NormOfText(w, host);
    LowerWord(w);
  }

  lemma NormCycle(host: Host)
    ensures Norm(Text("Cycle"), host) == "cycle"
  {
    NormWord("Cycle", host);
  }

  lemma NormZone(host: Host)
    ensures Norm(Text("Zone"), host) == "zone"
  {
    NormWord("Zone", host);
  }

  lemma NormType(host: Host)
    ensures Norm(Text("Type"), host) == "type"
  {
    NormWord("Type", host);
  }

  lemma NormDate(host: Host)
    ensures Norm(Text("Date"), host) == "date"
  {
    NormWord("Date", host);
  }

  /** How each header cell compares. */
  lemma HeaderNorms(host: Host)
    ensures Norm(Header()[0], host) == "cycle"
    ensures Norm(Header()[1], host) == "zone"
    ensures Norm(Header()[2], host) == ""
    ensures Norm(Header()[3], host) == "date"
    ensures Norm(Header()[4], host) == "type"
  {
    NormCycle(host);
    NormZone(host);
    NormType(host);
    NormDate(host);
  }

  /** A one-cell row is never the header: its one cell cannot read as both
      "cycle" and "type". */
  lemma TitleRowNotHeader(c: Cell, host: Host)
    ensures !IsHeaderRow([c], host)
  {
    var row := [c];
    assert row[1..] == [];
    assert HasLabel(row, host, "cycle") <==> Norm(row[0], host) == "cycle";
    assert HasLabel(row, host, "type") <==> Norm(row[0], host) == "type";
    assert "cycle" != "type" by {
      assert |"cycle"| != |"type"|;
    }
  }

  /** The header row carries all three labels. */
  lemma HeaderQualifies(host: Host)
    ensures IsHeaderRow(Header(), host)
  {
    var h := Header();
    HeaderNorms(host);
    HasLabelMeans(h, host, "cycle");
    HasLabelMeans(h, host, "date");
    HasLabelMeans(h, host, "type");
    assert h[0] in h && h[3] in h && h[4] in h;
  }

  /** The first qualifying row within the scanned window is the one found. */
  lemma HeaderAt(rows: seq<seq<Cell>>, host: Host, i: nat)
    requires i < |rows| && i < HeaderScanLimit && IsHeaderRow(rows[i], host)
    requires forall j | 0 <= j < i :: !IsHeaderRow(rows[j], host)
    ensures FindHeader(rows, host) == Some(i)
  {
    var r := FindHeader(rows, host);
    assert r.Some?;
  }

  /** The first row carrying all three labels is row 3. */
  lemma SampleHeader(host: Host)
    ensures FindHeader(Sample(), host) == Some(3)
  {
    var rows := Sample();
    assert rows[0] == [Text("Cycle Calendar")] && rows[1] == [Text("Client: Acme")];
    assert rows[2] == [Text("Year 2024")] && rows[3] == Header();
    TitleRowNotHeader(Text("Cycle Calendar"), host);
    TitleRowNotHeader(Text("Client: Acme"), host);
    TitleRowNotHeader(Text("Year 2024"), host);
    HeaderQualifies(host);
    forall j | 0 <= j < 3 ensures !IsHeaderRow(rows[j], host) {
      assert j == 0 || j == 1 || j == 2;
    }
    HeaderAt(rows, host, 3);
  }

  /** A label first seen in column i (one of the mapped columns) is filed under i. */
  lemma KeyAt(h: seq<Cell>, host: Host, k: string, i: nat)
    requires i < |h| && i < MappedColumns && k != "" && Norm(h[i], host) == k
    requires forall j | 0 <= j < i :: Norm(h[j], host) != k
    ensures k in ColumnMap(h, host) && ColumnMap(h, host)[k] == i
  {
    var m := ColumnMap(h, host);
    assert Norm(h[i], host) in m;
  }

  /** The compared labels of a five-column header: cycle, zone, nothing, date, type. */
  predicate FixedLabelRow(h: seq<Cell>, host: Host) {
    && |h| == 5
    && Norm(h[0], host) == "cycle" && Norm(h[1], host) == "zone" && Norm(h[2], host) == ""
    && Norm(h[3], host) == "date" && Norm(h[4], host) == "type"
  }

  lemma FixedCycleZone(h: seq<Cell>, host: Host)
    requires FixedLabelRow(h, host)
    ensures "cycle" in ColumnMap(h, host) && ColumnMap(h, host)["cycle"] == 0
    ensures "zone" in ColumnMap(h, host) && ColumnMap(h, host)["zone"] == 1
  {
    assert |"cycle"| == 5 && |"zone"| == 4;
    KeyAt(h, host, "cycle", 0);
    forall j | 0 <= j < 1 ensures Norm(h[j], host) != "zone" {
      assert j == 0;
    }
    KeyAt(h, host, "zone", 1);
  }

  /** A label no cell carries is not a key of the column map. */
  lemma NoKey(h: seq<Cell>, host: Host, k: string)
    requires forall j | 0 <= j < |h| :: Norm(h[j], host) != k
    ensures k !in ColumnMap(h, host)
  {
  }

  lemma FixedDateType(h: seq<Cell>, host: Host)
    requires FixedLabelRow(h, host)
    ensures "cycle date" !in ColumnMap(h, host)
    ensures "date" in ColumnMap(h, host) && ColumnMap(h, host)["date"] == 3
    ensures "type" in ColumnMap(h, host) && ColumnMap(h, host)["type"] == 4
  {
    assert |"cycle"| == 5 && |"zone"| == 4 && |"date"| == 4 && |"type"| == 4 && |"cycle date"| == 10;
    assert "zone"[0] != "date"[0] && "zone"[0] != "type"[0] && "date"[0] != "type"[0];
    forall j | 0 <= j < 5 ensures Norm(h[j], host) != "cycle date" {
      assert j == 0 || j == 1 || j == 2 || j == 3 || j == 4;
    }
    NoKey(h, host, "cycle date");
    forall j | 0 <= j < 3 ensures Norm(h[j], host) != "date" {
      assert j == 0 || j == 1 || j == 2;
    }
    KeyAt(h, host, "date", 3);
    forall j | 0 <= j < 4 ensures Norm(h[j], host) != "type" {
      assert j == 0 || j == 1 || j == 2 || j == 3;
    }
    KeyAt(h, host, "type", 4);
  }

  /** A five-column header labelled cycle, zone, nothing, date and type
      names the fixed layout's own columns. */
  lemma FixedLabels(h: seq<Cell>, host: Host)
    requires FixedLabelRow(h, host)
    ensures ResolveColumns(ColumnMap(h, host)) == FixedLayout
  {
    FixedCycleZone(h, host);
    FixedDateType(h, host);
  }

  /** The labels of the sample name the fixed layout's own columns. */
  lemma SampleColumns(host: Host)
    ensures ResolveColumns(ColumnMap(Header(), host)) == FixedLayout
  {
    HeaderNorms(host);
    FixedLabels(Header(), host);
  }

  lemma PlainDate(c: int, z: int, s: string, l: string, host: Host, t: int)
    requires Trim(s) != "" && host.parseDate(s) == Some(t) && ValidTime(t)
    ensures ReadDate(CellAt(PlainCells(c, z, s, l), FixedLayout.date), host) == At(t)
  {
    assert CellAt(PlainCells(c, z, s, l), FixedLayout.date) == Text(s);
  }

  lemma PlainNumbers(c: int, z: int, s: string, l: string, host: Host)
    requires 0 < c && 0 < z
    ensures CleanCycle(PlainCells(c, z, s, l), FixedLayout, host) == c
    ensures CleanZone(PlainCells(c, z, s, l), FixedLayout, host) == z
  {
    assert CellAt(PlainCells(c, z, s, l), FixedLayout.cycle) == Num(c);
    assert CellAt(PlainCells(c, z, s, l), FixedLayout.zone) == Num(z);
  }

  lemma PlainKind(c: int, z: int, s: string, l: string, host: Host, k: Kind)
    requires Upper(Trim(l)) == KindLetter(k)
    ensures ParseKind(TypeText(PlainCells(c, z, s, l), FixedLayout, host)) == Some(k)
  {
    assert CellAt(PlainCells(c, z, s, l), FixedLayout.kind) == Text(l);
  }

  /** A row with a readable date and a known type letter is accepted with the
      record built from them. */
  lemma Accepts(row: seq<Cell>, cols: Columns, host: Host, t: int, k: Kind)
    requires ReadDate(CellAt(row, cols.date), host) == At(t)
    requires ParseKind(TypeText(row, cols, host)) == Some(k)
    ensures ValidTime(t)
    ensures Classify(row, cols, host) == Accept(MakeRecord(t, k, CleanCycle(row, cols, host), CleanZone(row, cols, host)))
  {
  }

  /** With cycle and zone given, the record carries them and the flag follows the type. */
  lemma RecordGiven(t: int, k: Kind, c: nat, z: nat)
    requires ValidTime(t) && 0 < c && 0 < z
    ensures MakeRecord(t, k, c, z) == Record(c, z, t, k, if k == Route then 1 else 0, 1)
  {
  }

  /** A data row in the fixed layout with positive cycle and zone, a date text
      the host parses and a type letter is accepted as exactly that record. */
  lemma PlainRow(c: int, z: int, s: string, l: string, host: Host, t: int, k: Kind)
    requires 0 < c && 0 < z && Trim(s) != "" && host.parseDate(s) == Some(t) && ValidTime(t)
    requires Upper(Trim(l)) == KindLetter(k)
    ensures Classify(PlainCells(c, z, s, l), FixedLayout, host)
         == Accept(Record(c, z, t, k, if k == Route then 1 else 0, 1))
  {
    PlainDate(c, z, s, l, host, t);
    PlainNumbers(c, z, s, l, host);
    PlainKind(c, z, s, l, host, k);
    Accepts(PlainCells(c, z, s, l), FixedLayout, host, t, k);
    RecordGiven(t, k, c, z);
  }

  /** The sample's date is a valid instant on 2024-01-05. */
  lemma SampleDay()
    ensures ValidTime(Midnight(Day()))
    ensures UtcDate(Midnight(Day())) == Day()
  {
    assert DaysFromCivil(Day()) == 19727;
    MidnightDate(Day());
  }

  /** The sample's date and type texts need no trimming. */
  lemma SampleTexts()
    ensures Trim("2024-01-05") != ""
    ensures Upper(Trim("R")) == KindLetter(Route)
    ensures Upper(Trim("W")) == KindLetter(Weekend)
  {
    TrimUnspaced("2024-01-05");
    TrimUnspaced("R");
    TrimUnspaced("W");
  }

  lemma SampleDataRows(host: Host)
    requires ParsesDay(host)
    ensures Classify(Sample()[4], FixedLayout, host) == Accept(Record(1, 2, Midnight(Day()), Route, 1, 1))
    ensures Classify(Sample()[5], FixedLayout, host) == Accept(Record(1, 2, Midnight(Day()), Weekend, 0, 1))
  {
    SampleDay();
    SampleTexts();
    PlainRow(1, 2, "2024-01-05", "R", host, Midnight(Day()), Route);
    PlainRow(1, 2, "2024-01-05", "W", host, Midnight(Day()), Weekend);
  }

  function RouteDay(): Record {
    Record(1, 2, Midnight(Day()), Route, 1, 1)
  }

  function WeekendDay(): Record {
    Record(1, 2, Midnight(Day()), Weekend, 0, 1)
  }

  lemma OutcomesPair(rows: seq<seq<Cell>>, cols: Columns, host: Host)
    requires |rows| == 2
    ensures Outcomes(rows, cols, host) == [Classify(rows[0], cols, host), Classify(rows[1], cols, host)]
  {
  }

  /** Both data rows of the sample are accepted. */
  lemma SampleOutcomes(host: Host)
    requires ParsesDay(host)
    ensures DataOutcomes(Sample(), 3, host) == [Accept(RouteDay()), Accept(WeekendDay())]
  {
    var rows := Sample();
    assert rows[3] == Header();
    SampleColumns(host);
    var data := rows[4..];
    assert DataOutcomes(rows, 3, host) == Outcomes(data, FixedLayout, host);
    assert data == [rows[4], rows[5]];
    OutcomesPair(data, FixedLayout, host);
    SampleDataRows(host);
  }

  /** Of two accepted rows on the same day only the first is kept. */
  lemma SameDayPair(a: Record, b: Record)
    requires DayOf(a) == DayOf(b)
    ensures Fold([Accept(a), Accept(b)]) == Acc({DayOf(a)}, a.cycleNumber, [a])
  {
    var os := [Accept(a), Accept(b)];
    assert os[..1] == [Accept(a)];
    assert [Accept(a)][..0] == [];
    assert Fold([Accept(a)]) == Step(Acc({}, 0, []), Accept(a));
    assert [] + [a] == [a];
    assert {} + {DayOf(a)} == {DayOf(a)};
    assert Fold(os) == Step(Fold([Accept(a)]), Accept(b));
  }

  /** Two well-formed accepted rows on the same day make a calendar of the first alone. */
  lemma FinishSameDay(a: Record, b: Record)
    requires DayOf(a) == DayOf(b) && WellFormed(a) && WellFormed(b)
    ensures var os := [Accept(a), Accept(b)];
            (forall i | 0 <= i < |os| && os[i].Accept? :: WellFormed(os[i].record))
            && Finish(os) == Ok(Calendar([a], a.cycleNumber, UtcDate(a.mcpDate).year))
  {
    var os := [Accept(a), Accept(b)];
    assert forall i | 0 <= i < |os| :: os[i] == Accept(a) || os[i] == Accept(b);
    SameDayPair(a, b);
  }

  /** The rows of the sample sheet make a calendar of one route day. */
  lemma SampleRows(host: Host)
    requires ParsesDay(host)
    ensures NormaliseRows(Sample(), host) == Ok(Calendar([RouteDay()], 1, 2024))
  {
    SampleHeader(host);
    SampleOutcomes(host);
    SampleDay();
    FinishSameDay(RouteDay(), WeekendDay());
    assert NormaliseRows(Sample(), host) == FromHeader(Sample(), 3, host);
  }

  /** The whole upload of the sample: one record for 2024-01-05, a route day,
      taken from the first of the two rows; the cycle count is 1 and the year 2024. */
  lemma SampleUpload(host: Host)
    requires ParsesDay(host)
    ensures Normalise([Sheet("Cycle Calendar", Sample())], host) == Ok(Calendar([RouteDay()], 1, 2024))
  {
    var wb := [Sheet("Cycle Calendar", Sample())];
    assert "Cycle" <= "Cycle Calendar"[0..];
    assert "Calendar" <= "Cycle Calendar"[6..];
    assert IsCalendarName(Names(wb)[0]);
    assert SelectSheet(Names(wb)) == Some(0);
    SampleRows(host);
  }
}
