/**
 * Finding the data in an uploaded workbook: which sheet to read, which row
 * holds the column labels, and which column each field is read from.
 */
module Layout {
  import opened JsText
  import opened Cells

  // ---------------------------------------------------------------------------
  // Sheet selection
  // ---------------------------------------------------------------------------

  /** A sheet name that mentions both "Cycle" and "Calendar" (case-sensitive). */
  predicate IsCalendarName(name: string) {
    Contains(name, "Cycle") && Contains(name, "Calendar")
  }

  /** `names.find(IsCalendarName)`, searching from position `from`. */
  function FirstCalendarName(names: seq<string>, from: nat): (r: Option<nat>)
    requires from <= |names|
    ensures r.Some? ==> from <= r.value < |names| && IsCalendarName(names[r.value])
    ensures r.Some? ==> forall j | from <= j < r.value :: !IsCalendarName(names[j])
    ensures r.None? ==> forall j | from <= j < |names| :: !IsCalendarName(names[j])
    decreases |names| - from
  {
    if from == |names| then None
    else if IsCalendarName(names[from]) then Some(from)
    else FirstCalendarName(names, from + 1)
  }

  /** The sheet the upload reads: the first calendar-named sheet, else the first
      sheet; None for a workbook without sheets. */
  function SelectSheet(names: seq<string>): (r: Option<nat>)
    ensures r.None? <==> |names| == 0
    ensures r.Some? ==> r.value < |names|
    ensures forall j | 0 <= j < |names| && IsCalendarName(names[j]) ::
              r.Some? && r.value <= j && IsCalendarName(names[r.value])
    ensures (forall j | 0 <= j < |names| :: !IsCalendarName(names[j])) && 0 < |names| ==> r == Some(0)
  {
    match FirstCalendarName(names, 0)
    case Some(i) => Some(i)
    case None => if |names| == 0 then None else Some(0)
  }

  // ---------------------------------------------------------------------------
  // Header row
  // ---------------------------------------------------------------------------

  /** Only this many leading rows are searched for the labels. */
  const HeaderScanLimit: nat := 20

  /** Some cell of the row reads as the given label (`rowClean.some(c => c === name)`). */
  predicate HasLabel(row: seq<Cell>, host: Host, name: string) {
    if row == [] then false
    else Norm(row[0], host) == name || HasLabel(row[1..], host, name)
  }

  lemma {:induction false} HasLabelMeans(row: seq<Cell>, host: Host, name: string)
    ensures HasLabel(row, host, name) <==> exists c | c in row :: Norm(c, host) == name
  {
    if row != [] {
      HasLabelMeans(row[1..], host, name);
      assert forall c | c in row :: c == row[0] || c in row[1..];
    }
  }

  /** A row carrying a "cycle" label, a "cycle date" or "date" label and a "type" label. */
  predicate IsHeaderRow(row: seq<Cell>, host: Host) {
    && HasLabel(row, host, "cycle")
    && (HasLabel(row, host, "cycle date") || HasLabel(row, host, "date"))
    && HasLabel(row, host, "type")
  }

  /** The three label tests, each stated as the existence of a matching cell. */
  lemma IsHeaderRowMeans(row: seq<Cell>, host: Host)
    ensures IsHeaderRow(row, host) <==>
              && (exists c | c in row :: Norm(c, host) == "cycle")
              && (exists c | c in row :: Norm(c, host) == "cycle date" || Norm(c, host) == "date")
              && (exists c | c in row :: Norm(c, host) == "type")
  {
    HasLabelMeans(row, host, "cycle");
    HasLabelMeans(row, host, "cycle date");
    HasLabelMeans(row, host, "date");
    HasLabelMeans(row, host, "type");
  }

  function ScanEnd(rows: seq<seq<Cell>>): nat {
    if |rows| < HeaderScanLimit then |rows| else HeaderScanLimit
  }

  function FindHeaderFrom(rows: seq<seq<Cell>>, host: Host, i: nat): (r: Option<nat>)
    requires i <= ScanEnd(rows)
    ensures r.Some? ==> i <= r.value < ScanEnd(rows) && IsHeaderRow(rows[r.value], host)
    ensures r.Some? ==> forall j | i <= j < r.value :: !IsHeaderRow(rows[j], host)
    ensures r.None? ==> forall j | i <= j < ScanEnd(rows) :: !IsHeaderRow(rows[j], host)
    decreases ScanEnd(rows) - i
  {
    if i == ScanEnd(rows) then None
    else if IsHeaderRow(rows[i], host) then Some(i)
    else
      var r := FindHeaderFrom(rows, host, i + 1);
      assert r.Some? ==> forall j | i + 1 <= j < r.value :: !IsHeaderRow(rows[j], host);
      r
  }

  /** The index of the header row: the first qualifying row among the first 20. */
  function FindHeader(rows: seq<seq<Cell>>, host: Host): (r: Option<nat>)
    ensures r.Some? ==> r.value < HeaderScanLimit && r.value < |rows| && IsHeaderRow(rows[r.value], host)
    ensures r.Some? ==> forall j | 0 <= j < r.value :: !IsHeaderRow(rows[j], host)
    ensures r.None? <==> forall j | 0 <= j < |rows| && j < HeaderScanLimit :: !IsHeaderRow(rows[j], host)
  {
    FindHeaderFrom(rows, host, 0)
  }

  // ---------------------------------------------------------------------------
  // Column map
  // ---------------------------------------------------------------------------

  /** Only labels in this many leading columns are mapped. */
  const MappedColumns: nat := 7

  /** A header label as detected: `String(c || '').trim()`. */
  function HeaderLabel(c: Cell, host: Host): string {
    Trim(CellText(c, host))
  }

  /** The key a label is filed under: `String(h).toLowerCase().trim()`. */
  function LabelKey(h: string): string {
    Trim(Lower(h))
  }

  /** Filing a detected label gives the same string the header test compares. */
  lemma LabelKeyIsNorm(c: Cell, host: Host)
    ensures LabelKey(HeaderLabel(c, host)) == Norm(c, host)
    ensures HeaderLabel(c, host) == "" <==> Norm(c, host) == ""
  {
    TrimLowerTrim(CellText(c, host));
  }

  /** The compared form of every header cell. */
  function HeaderKeys(header: seq<Cell>, host: Host): (ks: seq<string>)
    ensures |ks| == |header|
    ensures forall j | 0 <= j < |header| :: ks[j] == Norm(header[j], host)
  {
    seq(|header|, j requires 0 <= j < |header| => Norm(header[j], host))
  }

  /** What a map built from the first n keys holds: each key maps to a column
      carrying it, that column is the first to carry it, and every non-empty key
      of those columns is present. */
  ghost predicate MapsKeys(ks: seq<string>, n: nat, m: map<string, nat>)
    requires n <= |ks|
  {
    && (forall k | k in m :: m[k] < n && k != "" && ks[m[k]] == k)
    && (forall k | k in m :: forall j | 0 <= j < m[k] :: ks[j] != k)
    && (forall j | 0 <= j < n && ks[j] != "" :: ks[j] in m)
  }

  /** Filing column n - 1 under its key, unless the key is empty or taken,
      extends a map of the first n - 1 columns to one of the first n. */
  lemma FileColumn(ks: seq<string>, n: nat, m: map<string, nat>)
    requires 0 < n <= |ks| && MapsKeys(ks, n - 1, m)
    ensures MapsKeys(ks, n, if ks[n - 1] == "" || ks[n - 1] in m then m else m[ks[n - 1] := n - 1])
  {
  }

  /** The map built from the labels of the first n columns, left to right. */
  function MapColumns(header: seq<Cell>, host: Host, n: nat): (m: map<string, nat>)
    requires n <= |header|
    ensures MapsKeys(HeaderKeys(header, host), n, m)
  {
    if n == 0 then map[]
    else
      var m := MapColumns(header, host, n - 1);
      var h := HeaderLabel(header[n - 1], host);
      LabelKeyIsNorm(header[n - 1], host);
      FileColumn(HeaderKeys(header, host), n, m);
      if h == "" then m
      else
        var key := LabelKey(h);
        if key in m then m else m[key := n - 1]
  }

  /** `colMap`: each non-empty label among the first 7 columns, filed under its
      lower-cased trimmed form, pointing at the first column that carries it. */
  function ColumnMap(header: seq<Cell>, host: Host): (m: map<string, nat>)
    ensures forall k | k in m ::
              m[k] < MappedColumns && m[k] < |header| && k != "" && Norm(header[m[k]], host) == k
    ensures forall k | k in m :: forall j | 0 <= j < m[k] :: Norm(header[j], host) != k
    ensures forall j | 0 <= j < |header| && j < MappedColumns && Norm(header[j], host) != "" ::
              Norm(header[j], host) in m
  {
    MapColumns(header, host, if |header| < MappedColumns then |header| else MappedColumns)
  }

  // ---------------------------------------------------------------------------
  // Column resolution
  // ---------------------------------------------------------------------------

  /** The keyword list has no known key before position i. */
  predicate NoneKnownBefore(m: map<string, nat>, keywords: seq<string>, i: nat)
    requires i <= |keywords|
  {
    forall j | 0 <= j < i :: LabelKey(keywords[j]) !in m
  }

  /** `getVal`'s index: the column of the first keyword the map knows, else the fallback. */
  function Resolve(m: map<string, nat>, keywords: seq<string>, fallback: nat): (r: nat)
    ensures NoneKnownBefore(m, keywords, |keywords|) ==> r == fallback
    ensures forall i | 0 <= i < |keywords| && LabelKey(keywords[i]) in m && NoneKnownBefore(m, keywords, i) ::
              r == m[LabelKey(keywords[i])]
  {
    if |keywords| == 0 then fallback
    else if LabelKey(keywords[0]) in m then m[LabelKey(keywords[0])]
    else
      var r := Resolve(m, keywords[1..], fallback);
      ResolveShift(m, keywords);
      r
  }

  /** Past an unknown first keyword, the search in the tail sees the same prefixes. */
  lemma ResolveShift(m: map<string, nat>, keywords: seq<string>)
    requires 0 < |keywords| && LabelKey(keywords[0]) !in m
    ensures forall i | 1 <= i <= |keywords| ::
              NoneKnownBefore(m, keywords, i) == NoneKnownBefore(m, keywords[1..], i - 1)
    ensures forall i | 1 <= i < |keywords| :: keywords[1..][i - 1] == keywords[i]
  {
    forall i | 1 <= i <= |keywords|
      ensures NoneKnownBefore(m, keywords, i) == NoneKnownBefore(m, keywords[1..], i - 1)
    {
      if NoneKnownBefore(m, keywords[1..], i - 1) {
        forall j | 0 <= j < i ensures LabelKey(keywords[j]) !in m {
          if 0 < j {
            assert keywords[1..][j - 1] == keywords[j];
          }
        }
      }
    }
  }

  /** A lower-case keyword with no space at its ends is its own key. */
  lemma KeywordIsKey(k: string)
    requires k != [] && !IsSpace(k[0]) && !IsSpace(k[|k| - 1])
    requires forall i | 0 <= i < |k| :: !('A' <= k[i] <= 'Z')
    ensures LabelKey(k) == k
  {
    assert Lower(k) == k;
    TrimUnspaced(k);
  }

  /** The column each field is read from. */
  datatype Columns = Columns(cycle: nat, zone: nat, date: nat, kind: nat)

  /** The fixed layout older calendars use, and the fallback for a missing label. */
  const FixedLayout: Columns := Columns(0, 1, 3, 4)

  /** Resolving a two-keyword list: the first keyword's column, else the second's, else the fallback. */
  lemma ResolvePair(m: map<string, nat>, a: string, b: string, fallback: nat)
    requires LabelKey(a) == a && LabelKey(b) == b
    ensures Resolve(m, [a, b], fallback) == (if a in m then m[a] else if b in m then m[b] else fallback)
  {
    var ks := [a, b];
    assert ks[0] == a && ks[1] == b;
  }

  /** Resolving a one-keyword list: the keyword's column, else the fallback. */
  lemma ResolveSingle(m: map<string, nat>, a: string, fallback: nat)
    requires LabelKey(a) == a
    ensures Resolve(m, [a], fallback) == (if a in m then m[a] else fallback)
  {
    var ks := [a];
    assert ks[0] == a;
  }

  lemma CycleLookup(m: map<string, nat>)
    ensures Resolve(m, ["cycle", "cycle #"], 0)
         == (if "cycle" in m then m["cycle"] else if "cycle #" in m then m["cycle #"] else 0)
  {
    KeywordIsKey("cycle");
    KeywordIsKey("cycle #");
    ResolvePair(m, "cycle", "cycle #", 0);
  }

  lemma ZoneLookup(m: map<string, nat>)
    ensures Resolve(m, ["zone"], 1) == (if "zone" in m then m["zone"] else 1)
  {
    KeywordIsKey("zone");
    ResolveSingle(m, "zone", 1);
  }

  lemma DateLookup(m: map<string, nat>)
    ensures Resolve(m, ["cycle date", "date"], 3)
         == (if "cycle date" in m then m["cycle date"] else if "date" in m then m["date"] else 3)
  {
    KeywordIsKey("cycle date");
    KeywordIsKey("date");
    ResolvePair(m, "cycle date", "date", 3);
  }

  lemma TypeLookup(m: map<string, nat>)
    ensures Resolve(m, ["type"], 4) == (if "type" in m then m["type"] else 4)
  {
    KeywordIsKey("type");
    ResolveSingle(m, "type", 4);
  }

  /** The four lookups of the row loop, each naming its own label or keeping the
      fixed layout's column when no label of its own is present. */
  function ResolveColumns(m: map<string, nat>): (cols: Columns)
    ensures cols.cycle == (if "cycle" in m then m["cycle"] else if "cycle #" in m then m["cycle #"] else FixedLayout.cycle)
    ensures cols.zone == (if "zone" in m then m["zone"] else FixedLayout.zone)
    ensures cols.date == (if "cycle date" in m then m["cycle date"] else if "date" in m then m["date"] else FixedLayout.date)
    ensures cols.kind == (if "type" in m then m["type"] else FixedLayout.kind)
  {
    CycleLookup(m);
    ZoneLookup(m);
    DateLookup(m);
    TypeLookup(m);
    Columns(
      Resolve(m, ["cycle", "cycle #"], 0),
      Resolve(m, ["zone"], 1),
      Resolve(m, ["cycle date", "date"], 3),
      Resolve(m, ["type"], 4))
  }
}
