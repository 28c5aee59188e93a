/**
  Cleaning of the raw ridership table (src/preprocess/clean_subway_data.py):
  the column check and renaming, the coercion of the date and count
  columns, the null filter and de-duplication, and the weekday columns.
 */
module CleanSubwayData {
  import opened Wrappers
  import opened Digits
  import opened Calendar
  import opened Frames

  /** `COLUMN_RENAME_MAP`: the six columns of the service's rows and their short names. */
  const ColumnRenameMap: map<string, string> := map[
    "USE_YMD" := "date",
    "SBWY_ROUT_LN_NM" := "line",
    "SBWY_STNS_NM" := "station",
    "GTON_TNOPE" := "ride",
    "GTOFF_TNOPE" := "getoff",
    "REG_YMD" := "registered_at"
  ]

  /** The `ValueError` raised when source columns are missing; it names them. */
  datatype LoadError = MissingColumns(missing: set<string>)

  function LabelSet(columns: seq<string>): set<string>
  {
    set c | c in columns
  }

  // ---------------------------------------------------------------------
  // Column check and renaming

  /** `expected - actual`, the source columns the raw table lacks. */
  function MissingSourceColumns(columns: seq<string>): set<string>
  {
    ColumnRenameMap.Keys - LabelSet(columns)
  }

  /** `rename(columns=COLUMN_RENAME_MAP)` for one label. */
  function RenameLabel(c: string): string
  {
    if c in ColumnRenameMap then ColumnRenameMap[c] else c
  }

  /** The renamed table: labels change in place, cells do not. */
  function Renamed(t: Table): (u: Table)
    ensures |u.columns| == |t.columns| && u.rows == t.rows
    ensures forall i :: 0 <= i < |t.columns| ==> u.columns[i] == RenameLabel(t.columns[i])
  {
    Table(seq(|t.columns|, i requires 0 <= i < |t.columns| => RenameLabel(t.columns[i])), t.rows)
  }

  lemma SourcesPresent(columns: seq<string>)
    requires MissingSourceColumns(columns) == {}
    ensures forall c :: c in ColumnRenameMap ==> c in columns
  {
    forall c | c in ColumnRenameMap ensures c in columns {
      assert c !in MissingSourceColumns(columns);
    }
  }

  /** A source column reappears under its short name, holding the same cells. */
  lemma RenamedColumn(t: Table, c: string)
    requires WellFormed(t) && Distinct(Renamed(t).columns)
    requires c in ColumnRenameMap && c in t.columns
    ensures ColumnRenameMap[c] in Renamed(t).columns
    ensures ColumnOf(Renamed(t), ColumnRenameMap[c]) == ColumnOf(t, c)
  {
    var u := Renamed(t);
    var i := IndexOf(t.columns, c);
    assert u.columns[i] == ColumnRenameMap[c];
    assert IndexOf(u.columns, ColumnRenameMap[c]) == i;
  }

  /**
    Renaming keeps the order of the columns and every label outside the
    map; once every source column is present, each of them reappears
    under its short name holding the same cells.
   */
  lemma RenamedColumns(t: Table)
    requires WellFormed(t)
    requires MissingSourceColumns(t.columns) == {} ==> Distinct(Renamed(t).columns)
    ensures forall i :: 0 <= i < |t.columns| && t.columns[i] !in ColumnRenameMap ==>
              Renamed(t).columns[i] == t.columns[i]
    ensures MissingSourceColumns(t.columns) == {} ==>
              && WellFormed(Renamed(t))
              && forall c :: c in ColumnRenameMap ==>
                   c in t.columns && ColumnRenameMap[c] in Renamed(t).columns
                   && ColumnOf(Renamed(t), ColumnRenameMap[c]) == ColumnOf(t, c)
  {
    if MissingSourceColumns(t.columns) == {} {
      SourcesPresent(t.columns);
      forall c | c in ColumnRenameMap
        ensures ColumnRenameMap[c] in Renamed(t).columns && ColumnOf(Renamed(t), ColumnRenameMap[c]) == ColumnOf(t, c)
      {
        RenamedColumn(t, c);
      }
    }
  }

  lemma RenameMapValues()
    ensures ColumnRenameMap["USE_YMD"] == "date" && ColumnRenameMap["SBWY_ROUT_LN_NM"] == "line"
    ensures ColumnRenameMap["SBWY_STNS_NM"] == "station" && ColumnRenameMap["GTON_TNOPE"] == "ride"
    ensures ColumnRenameMap["GTOFF_TNOPE"] == "getoff" && ColumnRenameMap["REG_YMD"] == "registered_at"
  {
  }

  lemma RenamedWellFormed(t: Table)
    requires WellFormed(t) && Distinct(Renamed(t).columns)
    ensures WellFormed(Renamed(t))
  {
  }

  /** After the check, the six short names are all columns of the renamed table. */
  lemma RenamedTargets(t: Table)
    requires WellFormed(t) && MissingSourceColumns(t.columns) == {} && Distinct(Renamed(t).columns)
    ensures WellFormed(Renamed(t))
    ensures "date" in Renamed(t).columns && "line" in Renamed(t).columns
    ensures "station" in Renamed(t).columns && "ride" in Renamed(t).columns
    ensures "getoff" in Renamed(t).columns && "registered_at" in Renamed(t).columns
  {
    RenamedWellFormed(t);
    SourcesPresent(t.columns);
    RenameMapValues();
    RenamedColumn(t, "USE_YMD");
    RenamedColumn(t, "SBWY_ROUT_LN_NM");
    RenamedColumn(t, "SBWY_STNS_NM");
    RenamedColumn(t, "GTON_TNOPE");
    RenamedColumn(t, "GTOFF_TNOPE");
    RenamedColumn(t, "REG_YMD");
  }

  // ---------------------------------------------------------------------
  // Coercions

  /** The first and last days a pandas timestamp can hold at midnight. */
  const TimestampMin := Date(1677, 9, 22)
  const TimestampMax := Date(2262, 4, 11)

  predicate InTimestampRange(d: Date)
  {
    !Before(d, TimestampMin) && !Before(TimestampMax, d)
  }

  /** `to_datetime(..., format='%Y%m%d', errors='coerce')` on one cell. */
  function CoerceDate(c: Cell): Cell
  {
    match c
    case Text(s) =>
      (match ParseCompact(s)
       case Some(d) => if InTimestampRange(d) then Day(d) else Null
       case None => Null)
    case _ => Null
  }

  /** `to_numeric(..., errors='coerce')` on one cell, for integer texts. */
  function CoerceNumber(c: Cell): Cell
  {
    match c
    case Text(s) =>
      (match ParseInteger(s)
       case Some(n) => Num(n)
       case None => Null)
    case _ => Null
  }

  /**
    A cell becomes a day exactly when it is the eight-digit text of that
    day and the day lies in the timestamp range; anything else becomes null.
   */
  lemma CoerceDateExact(c: Cell, d: Date)
    ensures CoerceDate(c) == Day(d) <==> IsValid(d) && InTimestampRange(d) && c == Text(Format(d))
    ensures CoerceDate(c).Day? || CoerceDate(c) == Null
  {
    if c.Text? && ParseCompact(c.text).Some? {
      FormatParseCompact(c.text);
    }
    if IsValid(d) {
      ParseCompactFormat(d);
    }
  }

  /** A count becomes a number exactly when it is an integer text; every integer's text comes back as itself. */
  lemma CoerceNumberExact(c: Cell, n: int)
    ensures CoerceNumber(Text(IntText(n))) == Num(n)
    ensures CoerceNumber(c).Num? <==> c.Text? && ParseInteger(c.text).Some?
    ensures CoerceNumber(c).Num? || CoerceNumber(c) == Null
  {
    ParseIntText(n);
  }

  // ---------------------------------------------------------------------
  // load_raw_data

  /** How loading changes a cell, by the (renamed) label of its column. */
  function CoerceFor(name: string, c: Cell): Cell
  {
    if name == "date" || name == "registered_at" then CoerceDate(c)
    else if name == "ride" || name == "getoff" then CoerceNumber(c)
    else c
  }

  function CoerceColumn(name: string, values: seq<Cell>): (r: seq<Cell>)
    ensures |r| == |values| && forall k :: 0 <= k < |values| ==> r[k] == CoerceFor(name, values[k])
  {
    seq(|values|, k requires 0 <= k < |values| => CoerceFor(name, values[k]))
  }

  /** `df[name] = <coercion>(df[name])`. */
  function Coerced(t: Table, name: string): Table
    requires name in t.columns
  {
    WithColumn(t, name, CoerceColumn(name, ColumnOf(t, name)))
  }

  /** `t` is `base` with the columns `done` coerced and every other column as it was. */
  predicate CoercedFrom(t: Table, base: Table, done: set<string>)
  {
    && WellFormed(t)
    && t.columns == base.columns && |t.rows| == |base.rows|
    && forall c :: c in t.columns ==>
         forall k :: 0 <= k < |t.rows| ==>
           ColumnOf(t, c)[k] == (if c in done then CoerceFor(c, ColumnOf(base, c)[k]) else ColumnOf(base, c)[k])
  }

  lemma CoercedStep(t: Table, base: Table, done: set<string>, name: string)
    requires CoercedFrom(t, base, done) && name in t.columns && name !in done
    ensures CoercedFrom(Coerced(t, name), base, done + {name})
  {
    WithColumnSpec(t, name, CoerceColumn(name, ColumnOf(t, name)));
  }

  lemma CoercedShape(t: Table, name: string)
    requires WellFormed(t) && name in t.columns
    ensures WellFormed(Coerced(t, name)) && Coerced(t, name).columns == t.columns
  {
    WithColumnSpec(t, name, CoerceColumn(name, ColumnOf(t, name)));
  }

  lemma CoercedNothing(t: Table)
    requires WellFormed(t)
    ensures CoercedFrom(t, t, {})
  {
  }

  /** The frame `load_raw_data` returns, for a raw table it read. */
  function Loaded(raw: Table): Result<Table, LoadError>
    requires WellFormed(raw)
    requires MissingSourceColumns(raw.columns) == {} ==> Distinct(Renamed(raw).columns)
  {
    var missing := MissingSourceColumns(raw.columns);
    if missing != {} then Failure(MissingColumns(missing))
    else
      RenamedTargets(raw);
      var t0 := Renamed(raw);
      var t1 := Coerced(t0, "date");
      CoercedShape(t0, "date");
      var t2 := Coerced(t1, "registered_at");
      CoercedShape(t1, "registered_at");
      var t3 := Coerced(t2, "ride");
      CoercedShape(t2, "ride");
      Success(Coerced(t3, "getoff"))
  }

  /** `load_raw_data` fails exactly when source columns are missing, and names exactly those. */
  lemma LoadedFails(raw: Table)
    requires WellFormed(raw)
    requires MissingSourceColumns(raw.columns) == {} ==> Distinct(Renamed(raw).columns)
    ensures Loaded(raw).Failure? <==> !(ColumnRenameMap.Keys <= LabelSet(raw.columns))
    ensures Loaded(raw).Failure? ==> Loaded(raw).error.missing == ColumnRenameMap.Keys - LabelSet(raw.columns)
  {
    if !(ColumnRenameMap.Keys <= LabelSet(raw.columns)) {
      var c :| c in ColumnRenameMap.Keys && c !in LabelSet(raw.columns);
      assert c in MissingSourceColumns(raw.columns);
    }
  }

  /**
    On success the columns are the renamed labels in their order, the rows
    are as many as were read, and every column holds its cells put through
    the coercion its label calls for (dates, counts, or none).
   */
  lemma LoadedColumns(raw: Table)
    requires WellFormed(raw)
    requires MissingSourceColumns(raw.columns) == {} ==> Distinct(Renamed(raw).columns)
    ensures Loaded(raw).Success? ==>
              var t := Loaded(raw).value;
              && WellFormed(t)
              && t.columns == Renamed(raw).columns
              && |t.rows| == |raw.rows|
              && forall c :: c in t.columns ==>
                   forall k :: 0 <= k < |t.rows| ==> ColumnOf(t, c)[k] == CoerceFor(c, ColumnOf(Renamed(raw), c)[k])
  {
    if MissingSourceColumns(raw.columns) == {} {
      LoadedCoerced(raw);
      var t0 := Renamed(raw);
      var t := Loaded(raw).value;
      forall c | c in t.columns
        ensures forall k :: 0 <= k < |t.rows| ==> ColumnOf(t, c)[k] == CoerceFor(c, ColumnOf(t0, c)[k])
      {
        CoerceForOthers(c);
      }
    }
  }

  /** The two date columns are coerced first. */
  lemma LoadedDates(t0: Table)
    requires WellFormed(t0) && "date" in t0.columns && "registered_at" in t0.columns
    ensures CoercedFrom(Coerced(Coerced(t0, "date"), "registered_at"), t0, {"date", "registered_at"})
  {
    CoercedNothing(t0);
    CoercedStep(t0, t0, {}, "date");
    assert {} + {"date"} == {"date"};
    CoercedStep(Coerced(t0, "date"), t0, {"date"}, "registered_at");
  }

  /** Then the two count columns. */
  lemma LoadedCounts(t2: Table, t0: Table)
    requires CoercedFrom(t2, t0, {"date", "registered_at"}) && "ride" in t2.columns && "getoff" in t2.columns
    ensures CoercedFrom(Coerced(Coerced(t2, "ride"), "getoff"), t0, {"date", "registered_at", "ride", "getoff"})
  {
    CoercedStep(t2, t0, {"date", "registered_at"}, "ride");
    assert {"date", "registered_at"} + {"ride"} == {"date", "registered_at", "ride"};
    CoercedStep(Coerced(t2, "ride"), t0, {"date", "registered_at", "ride"}, "getoff");
  }

  lemma CoerceForOthers(c: string)
    ensures c !in {"date", "registered_at", "ride", "getoff"} ==> forall x :: CoerceFor(c, x) == x
  {
  }

  lemma LoadedCoerced(raw: Table)
    requires WellFormed(raw) && MissingSourceColumns(raw.columns) == {} && Distinct(Renamed(raw).columns)
    ensures Loaded(raw).Success?
    ensures CoercedFrom(Loaded(raw).value, Renamed(raw), {"date", "registered_at", "ride", "getoff"})
  {
    RenamedTargets(raw);
    var t0 := Renamed(raw);
    LoadedDates(t0);
    var t2 := Coerced(Coerced(t0, "date"), "registered_at");
    LoadedCounts(t2, t0);
  }

  /** `load_raw_data` after `read_csv`: the frame is built and its four columns are assigned in place. */
  method LoadRawData(raw: Table) returns (r: Result<Frame, LoadError>)
    requires WellFormed(raw)
    requires MissingSourceColumns(raw.columns) == {} ==> Distinct(Renamed(raw).columns)
    ensures r.Failure? <==> Loaded(raw).Failure?
    ensures r.Failure? ==> r.error == Loaded(raw).error
    ensures r.Success? ==> fresh(r.value) && r.value.Valid() && r.value.Snapshot() == Loaded(raw).value
  {
    var missing := MissingSourceColumns(raw.columns);
    if missing != {} {
      return Failure(MissingColumns(missing));
    }
    RenamedTargets(raw);
    ghost var t0 := Renamed(raw);
    CoercedShape(t0, "date");
    ghost var t1 := Coerced(t0, "date");
    CoercedShape(t1, "registered_at");
    ghost var t2 := Coerced(t1, "registered_at");
    CoercedShape(t2, "ride");
    ghost var t3 := Coerced(t2, "ride");
    assert Loaded(raw) == Success(Coerced(t3, "getoff"));
    var df := new Frame(Renamed(raw));
    var dates := df.Column("date");
    df.AssignColumn("date", CoerceColumn("date", dates));
    assert df.Snapshot() == t1;
    var registered := df.Column("registered_at");
    df.AssignColumn("registered_at", CoerceColumn("registered_at", registered));
    assert df.Snapshot() == t2;
    var rides := df.Column("ride");
    df.AssignColumn("ride", CoerceColumn("ride", rides));
    assert df.Snapshot() == t3;
    var getoffs := df.Column("getoff");
    df.AssignColumn("getoff", CoerceColumn("getoff", getoffs));
    r := Success(df);
  }

  // ---------------------------------------------------------------------
  // clean_data

  /** The fields a kept row must have: `dropna(subset=[...])`. */
  const NaSubset := ["date", "line", "station", "ride", "getoff"]

  /** The fields that identify a record: `drop_duplicates(subset=[...])`. */
  const DupSubset := ["date", "line", "station"]

  /** `clean_data`: drop incomplete rows, then later rows repeating a key. */
  function CleanData(t: Table): Result<Table, FrameError>
  {
    var missing := MissingLabels(t.columns, NaSubset);
    if |missing| > 0 then Failure(KeyError(missing))
    else
      var complete := DropNaRows(t.rows, Positions(t.columns, NaSubset));
      Success(Table(t.columns, DedupRows(complete, Positions(t.columns, DupSubset))))
  }

  /** `clean_data` raises exactly when a subset column is missing, and names those. */
  lemma CleanDataFails(t: Table)
    ensures CleanData(t).Failure? <==> exists c :: c in NaSubset && c !in t.columns
    ensures CleanData(t).Failure? ==>
              forall c :: c in CleanData(t).error.missing <==> c in NaSubset && c !in t.columns
  {
    var missing := MissingLabels(t.columns, NaSubset);
    if |missing| > 0 {
      assert missing[0] in missing;
    }
    if exists c :: c in NaSubset && c !in t.columns {
      var c :| c in NaSubset && c !in t.columns;
      assert c in missing;
    }
  }

  lemma SubsetPresent(t: Table)
    requires CleanData(t).Success?
    ensures forall c :: c in NaSubset ==> c in t.columns
    ensures forall c :: c in DupSubset ==> c in t.columns
  {
    var missing := MissingLabels(t.columns, NaSubset);
    assert forall c :: c in NaSubset ==> c !in missing;
  }

  /** The columns are those of the input, and the rows are input rows in their order, so never more of them. */
  lemma CleanDataSubseq(t: Table)
    requires CleanData(t).Success?
    ensures CleanData(t).value.columns == t.columns
    ensures IsSubseq(CleanData(t).value.rows, t.rows) && |CleanData(t).value.rows| <= |t.rows|
  {
    SubsetPresent(t);
    var naIdx := Positions(t.columns, NaSubset);
    var complete := DropNaRows(t.rows, naIdx);
    DropNaSpec(t.rows, naIdx);
    DedupSubseq(complete, Positions(t.columns, DupSubset));
    SubseqTrans(CleanData(t).value.rows, complete, t.rows);
    SubseqSize(CleanData(t).value.rows, t.rows);
  }

  /** A row that passes the null filter has every subset field present. */
  lemma CompleteFields(t: Table, r: Row)
    requires forall c :: c in NaSubset ==> c in t.columns
    requires Complete(r, Positions(t.columns, NaSubset))
    ensures forall c :: c in NaSubset ==> Field(t, r, c) != Null
  {
    var naIdx := Positions(t.columns, NaSubset);
    forall c | c in NaSubset ensures Field(t, r, c) != Null {
      var p :| 0 <= p < |NaSubset| && NaSubset[p] == c;
      assert Key(r, naIdx)[p] == Field(t, r, c);
    }
  }

  /** Every row `clean_data` returns has its date, line, station, ride and getoff present. */
  lemma CleanDataComplete(t: Table)
    requires CleanData(t).Success?
    ensures var u := CleanData(t).value;
      forall k, c :: 0 <= k < |u.rows| && c in NaSubset ==> Field(u, u.rows[k], c) != Null
  {
    SubsetPresent(t);
    var u := CleanData(t).value;
    var naIdx := Positions(t.columns, NaSubset);
    var complete := DropNaRows(t.rows, naIdx);
    DropNaSpec(t.rows, naIdx);
    DedupSubseq(complete, Positions(t.columns, DupSubset));
    SubseqSize(u.rows, complete);
    forall k | 0 <= k < |u.rows| ensures forall c :: c in NaSubset ==> Field(u, u.rows[k], c) != Null {
      assert u.rows[k] in complete;
      CompleteFields(t, u.rows[k]);
    }
  }

  /** Rows with different keys differ in one of the key fields. */
  lemma KeyFields(t: Table, r1: Row, r2: Row)
    requires forall c :: c in DupSubset ==> c in t.columns
    requires Key(r1, Positions(t.columns, DupSubset)) != Key(r2, Positions(t.columns, DupSubset))
    ensures KeyDiffers(t, r1, r2)
  {
    var dupIdx := Positions(t.columns, DupSubset);
    var p :| 0 <= p < 3 && Key(r1, dupIdx)[p] != Key(r2, dupIdx)[p];
    assert Field(t, r1, DupSubset[p]) == Key(r1, dupIdx)[p];
  }

  /** No two rows share a (date, line, station): some key field tells them apart. */
  predicate UniqueKeys(u: Table)
    requires forall c :: c in DupSubset ==> c in u.columns
  {
    forall i, j :: 0 <= i < j < |u.rows| ==> KeyDiffers(u, u.rows[i], u.rows[j])
  }

  /** Some key field tells two rows apart. */
  predicate KeyDiffers(t: Table, r1: Row, r2: Row)
    requires forall c :: c in DupSubset ==> c in t.columns
  {
    exists c :: c in DupSubset && Field(t, r1, c) != Field(t, r2, c)
  }

  /** No two rows `clean_data` returns share a (date, line, station). */
  lemma CleanDataUnique(t: Table)
    requires CleanData(t).Success?
    ensures forall c :: c in DupSubset ==> c in CleanData(t).value.columns
    ensures UniqueKeys(CleanData(t).value)
  {
    SubsetPresent(t);
    var u := CleanData(t).value;
    var dupIdx := Positions(t.columns, DupSubset);
    var complete := DropNaRows(t.rows, Positions(t.columns, NaSubset));
    assert u.rows == DedupRows(complete, dupIdx) && u.columns == t.columns;
    DedupDistinct(complete, dupIdx);
    var ks := Keys(u.rows, dupIdx);
    forall i, j | 0 <= i < j < |u.rows| ensures KeyDiffers(u, u.rows[i], u.rows[j]) {
      assert ks[i] != ks[j];
      KeyFields(u, u.rows[i], u.rows[j]);
    }
    assert UniqueKeys(u);
  }

  /**
    For every (date, line, station) among the complete input rows,
    `clean_data` keeps exactly one row: the first complete input row with
    that key. By position: the output is the input at increasing positions
    `p`, and `p` holds exactly the complete rows no earlier complete row
    shares the key with, so the output is determined row for row.
   */
  lemma CleanDataKeepsFirst(t: Table)
    requires CleanData(t).Success?
    ensures var u := CleanData(t).value;
      var naIdx, dupIdx := Positions(t.columns, NaSubset), Positions(t.columns, DupSubset);
      var complete := DropNaRows(t.rows, naIdx);
      var p := KeptIndices(t.rows, naIdx, dupIdx);
      && (forall key :: key in Keys(u.rows, dupIdx) <==> key in Keys(complete, dupIdx))
      && (forall j :: 0 <= j < |u.rows| ==> FirstWithKey(complete, dupIdx, Key(u.rows[j], dupIdx)) == Some(u.rows[j]))
      && |p| == |u.rows| && Increasing(p, |t.rows|)
      && (forall j :: 0 <= j < |p| ==> u.rows[j] == t.rows[p[j]])
      && (forall i :: 0 <= i < |t.rows| ==> (i in p <==> IsFirstComplete(t.rows, naIdx, dupIdx, i)))
  {
    var naIdx, dupIdx := Positions(t.columns, NaSubset), Positions(t.columns, DupSubset);
    var complete := DropNaRows(t.rows, naIdx);
    assert CleanData(t).value.rows == DedupRows(complete, dupIdx);
    DedupKeys(complete, dupIdx);
    DedupKeepsFirst(complete, dupIdx);
    DropDedupPositions(t.rows, naIdx, dupIdx);
  }

  /** The rows `clean_data` returns pass the null filter. */
  lemma CleanedRowsComplete(t: Table)
    requires CleanData(t).Success?
    ensures AllComplete(CleanData(t).value.rows, Positions(t.columns, NaSubset))
  {
    var naIdx := Positions(t.columns, NaSubset);
    var rows := DedupRows(DropNaRows(t.rows, naIdx), Positions(t.columns, DupSubset));
    assert CleanData(t).value.rows == rows;
    DedupOfComplete(t.rows, naIdx, Positions(t.columns, DupSubset));
  }

  /** Cleaning a cleaned table changes nothing. */
  lemma CleanDataIdempotent(t: Table)
    requires CleanData(t).Success?
    ensures CleanData(CleanData(t).value) == CleanData(t)
  {
    var u := CleanData(t).value;
    var naIdx := Positions(t.columns, NaSubset);
    var dupIdx := Positions(t.columns, DupSubset);
    var complete := DropNaRows(t.rows, naIdx);
    assert u == Table(t.columns, DedupRows(complete, dupIdx));
    DedupDistinct(complete, dupIdx);
    CleanedRowsComplete(t);
    DropNaKeepsComplete(u.rows, naIdx);
    DedupKeepsDistinct(u.rows, dupIdx);
  }

  // ---------------------------------------------------------------------
  // add_derived_columns

  /** `dt.weekday` on one cell: Monday is 0; a missing date stays missing. */
  function WeekdayCell(c: Cell): Cell
  {
    match c
    case Day(d) => if IsValid(d) then Num(Weekday(d)) else Null
    case _ => Null
  }

  /** The `weekpart` label of a weekday cell (a missing weekday compares false with 5). */
  function WeekpartCell(c: Cell): Cell
  {
    if c.Num? && c.num < 5 then Text("weekday") else Text("weekend")
  }

  /** The date column supports `.dt`: it holds only days and missing values. */
  predicate DateLike(values: seq<Cell>)
  {
    forall k :: 0 <= k < |values| ==> values[k].Day? || values[k] == Null
  }

  /** The frame after `add_derived_columns`. */
  function Derived(t: Table): Table
    requires WellFormed(t) && "date" in t.columns
  {
    var t1 := WithColumn(t, "weekday", WeekdayValues(t));
    WithColumnSpec(t, "weekday", WeekdayValues(t));
    WithColumn(t1, "weekpart", seq(|t1.rows|, k requires 0 <= k < |t1.rows| => WeekpartCell(ColumnOf(t1, "weekday")[k])))
  }

  /** The weekday column of `add_derived_columns`, before it is assigned. */
  function WeekdayValues(t: Table): (w: seq<Cell>)
    requires WellFormed(t) && "date" in t.columns
    ensures |w| == |t.rows|
  {
    seq(|t.rows|, k requires 0 <= k < |t.rows| => WeekdayCell(ColumnOf(t, "date")[k]))
  }

  /**
    `add_derived_columns` keeps the row count and every other column, and
    adds the two labels.
   */
  lemma DerivedShape(t: Table)
    requires WellFormed(t) && "date" in t.columns
    ensures var u := Derived(t);
      && WellFormed(u)
      && |u.rows| == |t.rows|
      && "weekday" in u.columns && "weekpart" in u.columns
      && (forall c :: c in t.columns && c != "weekday" && c != "weekpart" ==>
            c in u.columns && ColumnOf(u, c) == ColumnOf(t, c))
  {
    var w := WeekdayValues(t);
    WithColumnSpec(t, "weekday", w);
    var t1 := WithColumn(t, "weekday", w);
    var p := seq(|t1.rows|, k requires 0 <= k < |t1.rows| => WeekpartCell(ColumnOf(t1, "weekday")[k]));
    WithColumnSpec(t1, "weekpart", p);
    assert Derived(t) == WithColumn(t1, "weekpart", p);
  }

  /** A weekday cell is the weekday, 0 to 6 with Monday 0, of a valid day, and null otherwise. */
  lemma WeekdayCellSpec(date: Cell)
    ensures date.Day? && IsValid(date.day) ==> WeekdayCell(date) == Num(Weekday(date.day)) && 0 <= WeekdayCell(date).num < 7
    ensures !(date.Day? && IsValid(date.day)) ==> WeekdayCell(date) == Null
  {
  }

  /**
    `add_derived_columns`: `weekday` is the date's weekday, or null for a
    missing date; `weekpart` is "weekday" exactly when the weekday is
    below 5, and "weekend" otherwise, a missing date included.
   */
  lemma DerivedSpec(t: Table)
    requires WellFormed(t) && "date" in t.columns
    ensures var u := Derived(t);
      && "weekday" in u.columns && "weekpart" in u.columns && |u.rows| == |t.rows|
      && forall k :: 0 <= k < |t.rows| ==>
           var date := ColumnOf(t, "date")[k];
           var weekday := ColumnOf(u, "weekday")[k];
           && (date.Day? && IsValid(date.day) ==> weekday == Num(Weekday(date.day)) && 0 <= weekday.num < 7)
           && (!(date.Day? && IsValid(date.day)) ==> weekday == Null)
           && (ColumnOf(u, "weekpart")[k] == Text("weekday") <==> weekday.Num? && weekday.num < 5)
           && (ColumnOf(u, "weekpart")[k] != Text("weekday") ==> ColumnOf(u, "weekpart")[k] == Text("weekend"))
  {
    var w := WeekdayValues(t);
    WithColumnSpec(t, "weekday", w);
    var t1 := WithColumn(t, "weekday", w);
    var p := seq(|t1.rows|, k requires 0 <= k < |t1.rows| => WeekpartCell(ColumnOf(t1, "weekday")[k]));
    WithColumnSpec(t1, "weekpart", p);
    var u := WithColumn(t1, "weekpart", p);
    assert Derived(t) == u;
    assert ColumnOf(u, "weekday") == w;
    forall k | 0 <= k < |t.rows|
      ensures ColumnOf(u, "weekday")[k] == WeekdayCell(ColumnOf(t, "date")[k])
      ensures ColumnOf(u, "weekpart")[k] == WeekpartCell(ColumnOf(u, "weekday")[k])
    {
      WeekdayCellSpec(ColumnOf(t, "date")[k]);
    }
  }

  /** Day 2024-01-01 was a Monday, and the weekday moves on by one each day, wrapping after Sunday. */
  lemma WeekdayCellMonday(d: Date)
    requires IsValid(d) && Ordinal(d) < MaxOrdinal
    ensures WeekdayCell(Day(Date(2024, 1, 1))) == Num(0)
    ensures WeekdayCell(Day(NextDay(d))).Num? && WeekdayCell(Day(d)).Num?
    ensures WeekdayCell(Day(NextDay(d))).num == (WeekdayCell(Day(d)).num + 1) % 7
  {
    KnownMonday();
    WeekdayNext(d);
    NextDayStep(d);
  }

  /** `add_derived_columns(df)`, which adds the two columns to the caller's frame. */
  method AddDerivedColumns(df: Frame) returns (error: Option<FrameError>)
    requires df.Valid()
    modifies df
    ensures df.Valid()
    ensures "date" !in old(df.columns) ==> error == Some(KeyError(["date"])) && df.Snapshot() == old(df.Snapshot())
    ensures "date" in old(df.columns) && !DateLike(ColumnOf(old(df.Snapshot()), "date")) ==>
              error == Some(NotDatetime) && df.Snapshot() == old(df.Snapshot())
    ensures "date" in old(df.columns) && DateLike(ColumnOf(old(df.Snapshot()), "date")) ==>
              error == None && df.Snapshot() == Derived(old(df.Snapshot()))
  {
    if "date" !in df.columns {
      return Some(KeyError(["date"]));
    }
    var dates := df.Column("date");
    if !DateLike(dates) {
      return Some(NotDatetime);
    }
    ghost var t := df.Snapshot();
    var weekdays := seq(|dates|, k requires 0 <= k < |dates| => WeekdayCell(dates[k]));
    assert weekdays == WeekdayValues(t);
    df.AssignColumn("weekday", weekdays);
    WithColumnSpec(t, "weekday", weekdays);
    ghost var t1 := df.Snapshot();
    var stored := df.Column("weekday");
    var parts := seq(|stored|, k requires 0 <= k < |stored| => WeekpartCell(stored[k]));
    assert parts == seq(|t1.rows|, k requires 0 <= k < |t1.rows| => WeekpartCell(ColumnOf(t1, "weekday")[k]));
    df.AssignColumn("weekpart", parts);
    assert df.Snapshot() == Derived(t);
    error := None;
  }
}
