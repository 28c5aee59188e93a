/**
  The busiest record of every station (src/analyze/peak_station_analysis.py):
  `total = ride + getoff` is added to the caller's frame, the rows are
  sorted by station and by total from high to low, grouped by station, and
  each group's first present value of every column is taken.
 */
module PeakStationAnalysis {
  import opened Wrappers
  import opened Calendar
  import opened Frames

  // ---------------------------------------------------------------------
  // The order of station keys

  /** Python's `<` on `str`: code point by code point, a proper prefix first. */
  predicate StrLess(a: string, b: string)
  {
    if |a| == 0 then |b| > 0
    else if |b| == 0 then false
    else if a[0] != b[0] then a[0] < b[0]
    else StrLess(a[1..], b[1..])
  }

  lemma {:induction false} StrLessIrreflexive(a: string)
    ensures !StrLess(a, a)
  {
    if |a| > 0 {
      StrLessIrreflexive(a[1..]);
    }
  }

  lemma {:induction false} StrLessTransitive(a: string, b: string, c: string)
    requires StrLess(a, b) && StrLess(b, c)
    ensures StrLess(a, c)
  {
    if |a| > 0 && |b| > 0 && |c| > 0 && a[0] == b[0] && b[0] == c[0] {
      StrLessTransitive(a[1..], b[1..], c[1..]);
    }
  }

  lemma {:induction false} StrLessTotal(a: string, b: string)
    requires a != b
    ensures StrLess(a, b) || StrLess(b, a)
  {
    if |a| > 0 && |b| > 0 && a[0] == b[0] {
      assert a == [a[0]] + a[1..] && b == [b[0]] + b[1..];
      StrLessTotal(a[1..], b[1..]);
    }
  }

  function KindRank(c: Cell): nat
  {
    match c
    case Null => 0
    case Num(_) => 1
    case Text(_) => 2
    case Day(_) => 3
  }

  /** The order of group keys: numbers, texts and days each in their own order. */
  predicate CellLess(a: Cell, b: Cell)
  {
    if KindRank(a) != KindRank(b) then KindRank(a) < KindRank(b)
    else
      match (a, b)
      case (Num(x), Num(y)) => x < y
      case (Text(x), Text(y)) => StrLess(x, y)
      case (Day(x), Day(y)) => Before(x, y)
      case _ => false
  }

  lemma CellLessIrreflexive(a: Cell)
    ensures !CellLess(a, a)
  {
    if a.Text? { StrLessIrreflexive(a.text); }
  }

  lemma CellLessTransitive(a: Cell, b: Cell, c: Cell)
    requires CellLess(a, b) && CellLess(b, c)
    ensures CellLess(a, c)
  {
    if a.Text? && b.Text? && c.Text? { StrLessTransitive(a.text, b.text, c.text); }
  }

  lemma CellLessTotal(a: Cell, b: Cell)
    requires a != b && a != Null && b != Null
    ensures CellLess(a, b) || CellLess(b, a)
  {
    if a.Text? && b.Text? { StrLessTotal(a.text, b.text); }
  }

  predicate Ascending(s: seq<Cell>)
  {
    forall i, j :: 0 <= i < j < |s| ==> CellLess(s[i], s[j])
  }

  /** Adds a key to an ascending list of keys, unless it is already there. */
  function Insert(sorted: seq<Cell>, c: Cell): seq<Cell>
  {
    if |sorted| == 0 then [c]
    else if c == sorted[0] then sorted
    else if CellLess(c, sorted[0]) then [c] + sorted
    else [sorted[0]] + Insert(sorted[1..], c)
  }

  lemma {:induction false} InsertSpec(sorted: seq<Cell>, c: Cell)
    requires Ascending(sorted) && c != Null && Null !in sorted
    ensures Ascending(Insert(sorted, c)) && Null !in Insert(sorted, c)
    ensures forall x :: x in Insert(sorted, c) <==> x in sorted || x == c
  {
    if |sorted| > 0 && c != sorted[0] {
      var head, rest := sorted[0], sorted[1..];
      if CellLess(c, head) {
        forall j | 0 < j < |sorted| + 1 ensures CellLess(c, ([c] + sorted)[j]) {
          if j > 1 { CellLessTransitive(c, head, sorted[j - 1]); }
        }
      } else {
        CellLessTotal(c, head);
        InsertSpec(rest, c);
        var ins := Insert(rest, c);
        forall j | 0 <= j < |ins| ensures CellLess(head, ins[j]) {
          if ins[j] != c {
            assert ins[j] in rest;
            var m :| 0 <= m < |rest| && rest[m] == ins[j];
            assert sorted[m + 1] == ins[j];
          }
        }
        assert sorted == [head] + rest;
      }
    }
  }

  // ---------------------------------------------------------------------
  // Groups

  /** The cells of one column, top to bottom. */
  function Cells(rows: seq<Row>, col: nat): (cells: seq<Cell>)
    ensures |cells| == |rows| && forall k :: 0 <= k < |rows| ==> cells[k] == At(rows[k], col)
  {
    seq(|rows|, k requires 0 <= k < |rows| => At(rows[k], col))
  }

  /** The group keys of `groupby(station)`: the present station values, ascending, each once. */
  function Stations(rows: seq<Row>, si: nat): seq<Cell>
  {
    if |rows| == 0 then []
    else
      var s := At(rows[|rows| - 1], si);
      var prev := Stations(rows[..|rows| - 1], si);
      if s == Null then prev else Insert(prev, s)
  }

  lemma {:induction false} StationsSpec(rows: seq<Row>, si: nat)
    ensures Ascending(Stations(rows, si)) && Null !in Stations(rows, si)
    ensures forall c :: c in Stations(rows, si) <==> c != Null && c in Cells(rows, si)
  {
    if |rows| > 0 {
      var init := rows[..|rows| - 1];
      StationsSpec(init, si);
      var s := At(rows[|rows| - 1], si);
      assert Cells(rows, si) == Cells(init, si) + [s];
      if s != Null {
        InsertSpec(Stations(init, si), s);
      }
    }
  }

  /**
    The order `sort_values(['station', 'total'], ascending=[True, False])`
    gives to totals within a station: a larger number first, a missing
    total after every number.
   */
  predicate Outranks(x: Cell, y: Cell)
  {
    x.Num? && (!y.Num? || x.num > y.num)
  }

  /** A row of station `s` with a value in column `col`. */
  predicate Eligible(r: Row, si: nat, s: Cell, col: nat)
  {
    At(r, si) == s && At(r, col) != Null
  }

  /**
    The row `first()` takes column `col` of group `s` from: the first row
    of the group, in sorted order, whose `col` is present. Sorted order puts
    higher totals first and keeps input order among equal totals, so that
    is the earliest eligible row whose total no other eligible row beats.
   */
  function Best(rows: seq<Row>, si: nat, s: Cell, col: nat, ti: nat): (b: Option<nat>)
    ensures b.Some? ==> b.value < |rows| && Eligible(rows[b.value], si, s, col)
  {
    if |rows| == 0 then None
    else
      var n := |rows| - 1;
      var b := Best(rows[..n], si, s, col, ti);
      if Eligible(rows[n], si, s, col) && (b.None? || Outranks(At(rows[n], ti), At(rows[b.value], ti))) then Some(n)
      else b
  }

  /**
    There is a chosen row exactly when the group has a present `col`; no
    eligible row has a higher total than the chosen one, and every eligible
    row before it has a lower total.
   */
  lemma {:induction false} BestSpec(rows: seq<Row>, si: nat, s: Cell, col: nat, ti: nat)
    ensures Best(rows, si, s, col, ti).None? <==> forall k :: 0 <= k < |rows| ==> !Eligible(rows[k], si, s, col)
    ensures Best(rows, si, s, col, ti).Some? ==>
              var b := Best(rows, si, s, col, ti).value;
              forall k :: 0 <= k < |rows| && Eligible(rows[k], si, s, col) ==>
                && !Outranks(At(rows[k], ti), At(rows[b], ti))
                && (k < b ==> Outranks(At(rows[b], ti), At(rows[k], ti)))
  {
    if |rows| > 0 {
      var n := |rows| - 1;
      var init := rows[..n];
      BestSpec(init, si, s, col, ti);
      assert forall k :: 0 <= k < n ==> init[k] == rows[k];
    }
  }

  /** When two columns are present in the same rows of a group, both are taken from the same row. */
  lemma {:induction false} BestSameRow(rows: seq<Row>, si: nat, s: Cell, c1: nat, c2: nat, ti: nat)
    requires forall k :: 0 <= k < |rows| ==> (Eligible(rows[k], si, s, c1) <==> Eligible(rows[k], si, s, c2))
    ensures Best(rows, si, s, c1, ti) == Best(rows, si, s, c2, ti)
  {
    if |rows| > 0 {
      var n := |rows| - 1;
      assert forall k :: 0 <= k < n ==> rows[..n][k] == rows[k];
      BestSameRow(rows[..n], si, s, c1, c2, ti);
    }
  }

  /** `first()` of column `col` in group `s`; missing when the group has no present value there. */
  function Pick(rows: seq<Row>, si: nat, s: Cell, col: nat, ti: nat): Cell
  {
    match Best(rows, si, s, col, ti)
    case None => Null
    case Some(i) => At(rows[i], col)
  }

  // ---------------------------------------------------------------------
  // find_peak_per_station

  /** `ride + getoff` for one row: missing when either is missing. */
  function TotalCell(ride: Cell, getoff: Cell): Cell
  {
    if ride.Num? && getoff.Num? then Num(ride.num + getoff.num) else Null
  }

  function Totals(rides: seq<Cell>, getoffs: seq<Cell>): (r: seq<Cell>)
    requires |rides| == |getoffs|
    ensures |r| == |rides| && forall k :: 0 <= k < |rides| ==> r[k] == TotalCell(rides[k], getoffs[k])
  {
    seq(|rides|, k requires 0 <= k < |rides| => TotalCell(rides[k], getoffs[k]))
  }

  /** The caller's frame after `df['total'] = df['ride'] + df['getoff']`. */
  function WithTotal(t: Table): Table
    requires "ride" in t.columns && "getoff" in t.columns
  {
    WithColumn(t, "total", Totals(ColumnOf(t, "ride"), ColumnOf(t, "getoff")))
  }

  /**
    Every row gets `total = ride + getoff`, missing when either count is
    missing; no other column changes and no row is added or removed.
   */
  lemma WithTotalSpec(t: Table)
    requires WellFormed(t) && "ride" in t.columns && "getoff" in t.columns
    ensures var u := WithTotal(t);
      && WellFormed(u) && "total" in u.columns && |u.rows| == |t.rows|
      && (forall c :: c in t.columns && c != "total" ==> c in u.columns && ColumnOf(u, c) == ColumnOf(t, c))
      && forall k :: 0 <= k < |t.rows| ==>
           var ride, getoff := ColumnOf(t, "ride")[k], ColumnOf(t, "getoff")[k];
           && (ride.Num? && getoff.Num? ==> ColumnOf(u, "total")[k] == Num(ride.num + getoff.num))
           && (!(ride.Num? && getoff.Num?) ==> ColumnOf(u, "total")[k] == Null)
  {
    WithColumnSpec(t, "total", Totals(ColumnOf(t, "ride"), ColumnOf(t, "getoff")));
  }

  const PeakColumns := ["station", "line", "date", "total"]

  /** The output row of group `s`: the key, then the first present line, date and total. */
  function PeakRow(rows: seq<Row>, si: nat, li: nat, di: nat, ti: nat, s: Cell): Row
  {
    [s, Pick(rows, si, s, li, ti), Pick(rows, si, s, di, ti), Pick(rows, si, s, ti, ti)]
  }

  /** Lines 9-15 on a frame that has all four columns. */
  function PeakTable(t: Table): Table
    requires forall c :: c in PeakColumns ==> c in t.columns
  {
    var si, li := IndexOf(t.columns, "station"), IndexOf(t.columns, "line");
    var di, ti := IndexOf(t.columns, "date"), IndexOf(t.columns, "total");
    var keys := Stations(t.rows, si);
    Table(PeakColumns, seq(|keys|, k requires 0 <= k < |keys| => PeakRow(t.rows, si, li, di, ti, keys[k])))
  }

  /**
    Lines 9-15: `sort_values` needs `station` (and the `total` just added);
    the final column selection needs `line` and `date` and names the
    missing ones.
   */
  function Peaks(t: Table): Result<Table, FrameError>
  {
    if "station" !in t.columns then Failure(KeyError(["station"]))
    else if "total" !in t.columns then Failure(KeyError(["total"]))
    else
      var missing := MissingLabels(t.columns, PeakColumns);
      if |missing| > 0 then Failure(KeyError(missing))
      else Success(PeakTable(t))
  }

  /**
    The result has exactly the columns station, line, date, total, in that
    order, and one row per present station value, the stations ascending.
   */
  lemma PeakStations(t: Table)
    requires forall c :: c in PeakColumns ==> c in t.columns
    ensures var u := PeakTable(t);
      && u.columns == PeakColumns
      && WellFormed(u)
      && (forall i, j :: 0 <= i < j < |u.rows| ==> CellLess(u.rows[i][0], u.rows[j][0]))
      && (forall s :: (exists k :: 0 <= k < |u.rows| && u.rows[k][0] == s) <==> s != Null && s in ColumnOf(t, "station"))
  {
    var u := PeakTable(t);
    var si := IndexOf(t.columns, "station");
    var keys := Stations(t.rows, si);
    StationsSpec(t.rows, si);
    assert Cells(t.rows, si) == ColumnOf(t, "station");
    forall s | s != Null && s in ColumnOf(t, "station") ensures exists k :: 0 <= k < |u.rows| && u.rows[k][0] == s {
      var k :| 0 <= k < |keys| && keys[k] == s;
      assert u.rows[k][0] == s;
    }
    forall k | 0 <= k < |u.rows| ensures u.rows[k][0] != Null && u.rows[k][0] in ColumnOf(t, "station") {
      assert keys[k] in keys;
    }
  }

  /** Every total is a number or missing, as after `ride + getoff`. */
  predicate NumericTotals(t: Table)
    requires "total" in t.columns
  {
    forall k :: 0 <= k < |t.rows| ==> ColumnOf(t, "total")[k].Num? || ColumnOf(t, "total")[k] == Null
  }

  /**
    The total of a station's row is the largest total among that station's
    input rows, and missing exactly when none of them has a total.
   */
  lemma PeakTotal(t: Table, k: nat)
    requires (forall c :: c in PeakColumns ==> c in t.columns) && NumericTotals(t)
    requires k < |PeakTable(t).rows|
    ensures var s, total := PeakTable(t).rows[k][0], PeakTable(t).rows[k][3];
      && (total == Null <==> forall j :: 0 <= j < |t.rows| && Field(t, t.rows[j], "station") == s ==>
                                           Field(t, t.rows[j], "total") == Null)
      && (total != Null ==>
            && total.Num?
            && (exists j :: 0 <= j < |t.rows| && Field(t, t.rows[j], "station") == s && Field(t, t.rows[j], "total") == total)
            && forall j :: 0 <= j < |t.rows| && Field(t, t.rows[j], "station") == s && Field(t, t.rows[j], "total").Num? ==>
                 Field(t, t.rows[j], "total").num <= total.num)
  {
    var si, ti := IndexOf(t.columns, "station"), IndexOf(t.columns, "total");
    var s := Stations(t.rows, si)[k];
    BestSpec(t.rows, si, s, ti, ti);
    assert forall j :: 0 <= j < |t.rows| ==> Field(t, t.rows[j], "total") == ColumnOf(t, "total")[j];
  }

  /**
    The line and the date of a station's row are each the first present
    value in sorted order: missing exactly when no row of the station has
    one, and otherwise taken from a row of the station whose total no other
    such row beats, and which beats every such row before it.
   */
  lemma PeakPick(t: Table, k: nat, name: string)
    requires forall c :: c in PeakColumns ==> c in t.columns
    requires k < |PeakTable(t).rows| && (name == "line" || name == "date")
    ensures var s := PeakTable(t).rows[k][0];
      var v := PeakTable(t).rows[k][if name == "line" then 1 else 2];
      && (v == Null <==> forall j :: 0 <= j < |t.rows| && Field(t, t.rows[j], "station") == s ==>
                                       Field(t, t.rows[j], name) == Null)
      && (v != Null ==>
            exists i :: 0 <= i < |t.rows|
              && Field(t, t.rows[i], "station") == s && Field(t, t.rows[i], name) == v
              && forall j :: 0 <= j < |t.rows| && Field(t, t.rows[j], "station") == s && Field(t, t.rows[j], name) != Null ==>
                   && !Outranks(Field(t, t.rows[j], "total"), Field(t, t.rows[i], "total"))
                   && (j < i ==> Outranks(Field(t, t.rows[i], "total"), Field(t, t.rows[j], "total"))))
  {
    var si, ci, ti := IndexOf(t.columns, "station"), IndexOf(t.columns, name), IndexOf(t.columns, "total");
    var s := Stations(t.rows, si)[k];
    BestSpec(t.rows, si, s, ci, ti);
  }

  /**
    When every row of a station has its line and date, both are taken from
    one input row of that station, and no row of the station has a higher
    total than that row; with every total present as well, that row's
    total is the station's total.
   */
  lemma PeakSameRow(t: Table, k: nat)
    requires forall c :: c in PeakColumns ==> c in t.columns
    requires k < |PeakTable(t).rows|
    requires var s := PeakTable(t).rows[k][0];
      forall j :: 0 <= j < |t.rows| && Field(t, t.rows[j], "station") == s ==>
        Field(t, t.rows[j], "line") != Null && Field(t, t.rows[j], "date") != Null
    ensures var row := PeakTable(t).rows[k];
      exists i :: 0 <= i < |t.rows|
        && Field(t, t.rows[i], "station") == row[0]
        && Field(t, t.rows[i], "line") == row[1] && Field(t, t.rows[i], "date") == row[2]
        && (forall j :: 0 <= j < |t.rows| && Field(t, t.rows[j], "station") == row[0] ==>
              !Outranks(Field(t, t.rows[j], "total"), Field(t, t.rows[i], "total")))
        && ((forall j :: 0 <= j < |t.rows| && Field(t, t.rows[j], "station") == row[0] ==>
               Field(t, t.rows[j], "total") != Null) ==> Field(t, t.rows[i], "total") == row[3])
  {
    var si, li := IndexOf(t.columns, "station"), IndexOf(t.columns, "line");
    var di, ti := IndexOf(t.columns, "date"), IndexOf(t.columns, "total");
    var s := Stations(t.rows, si)[k];
    StationsSpec(t.rows, si);
    assert s in Stations(t.rows, si);
    assert s in Cells(t.rows, si);
    var j0 :| 0 <= j0 < |t.rows| && At(t.rows[j0], si) == s;
    var row := PeakTable(t).rows[k];
    assert row == PeakRow(t.rows, si, li, di, ti, s);
    var i := GroupRow(t.rows, si, li, di, ti, s, j0);
    assert Field(t, t.rows[i], "line") == row[1] && Field(t, t.rows[i], "date") == row[2];
    assert forall j :: 0 <= j < |t.rows| ==>
      Field(t, t.rows[j], "station") == At(t.rows[j], si) && Field(t, t.rows[j], "total") == At(t.rows[j], ti);
  }

  /**
    Within one group whose rows all have both columns `li` and `di`, the
    two picks come from one row that no row of the group outranks, and the
    total pick comes from it too when every total of the group is present.
   */
  lemma GroupRow(rows: seq<Row>, si: nat, li: nat, di: nat, ti: nat, s: Cell, j0: nat) returns (i: nat)
    requires j0 < |rows| && At(rows[j0], si) == s
    requires forall j :: 0 <= j < |rows| && At(rows[j], si) == s ==> At(rows[j], li) != Null && At(rows[j], di) != Null
    ensures i < |rows| && At(rows[i], si) == s
    ensures At(rows[i], li) == Pick(rows, si, s, li, ti) && At(rows[i], di) == Pick(rows, si, s, di, ti)
    ensures forall j :: 0 <= j < |rows| && At(rows[j], si) == s ==> !Outranks(At(rows[j], ti), At(rows[i], ti))
    ensures (forall j :: 0 <= j < |rows| && At(rows[j], si) == s ==> At(rows[j], ti) != Null) ==>
              At(rows[i], ti) == Pick(rows, si, s, ti, ti)
  {
    BestSameRow(rows, si, s, li, di, ti);
    BestSpec(rows, si, s, li, ti);
    assert Eligible(rows[j0], si, s, li);
    i := Best(rows, si, s, li, ti).value;
    if forall j :: 0 <= j < |rows| && At(rows[j], si) == s ==> At(rows[j], ti) != Null {
      BestSameRow(rows, si, s, li, ti, ti);
    }
  }

  /**
    `find_peak_per_station(df)`: a missing `ride` or `getoff` raises before
    anything changes; otherwise `total` is added to the caller's frame, and
    the result is computed from the frame as it now is.
   */
  method FindPeakPerStation(df: Frame) returns (r: Result<Table, FrameError>)
    requires df.Valid()
    modifies df
    ensures df.Valid()
    ensures "ride" !in old(df.columns) ==> r == Failure(KeyError(["ride"])) && df.Snapshot() == old(df.Snapshot())
    ensures "ride" in old(df.columns) && "getoff" !in old(df.columns) ==>
              r == Failure(KeyError(["getoff"])) && df.Snapshot() == old(df.Snapshot())
    ensures "ride" in old(df.columns) && "getoff" in old(df.columns) ==>
              && df.Snapshot() == WithTotal(old(df.Snapshot()))
              && r == Peaks(df.Snapshot())
  {
    if "ride" !in df.columns {
      return Failure(KeyError(["ride"]));
    }
    if "getoff" !in df.columns {
      return Failure(KeyError(["getoff"]));
    }
    var rides := df.Column("ride");
    var getoffs := df.Column("getoff");
    df.AssignColumn("total", Totals(rides, getoffs));
    r := Peaks(df.Snapshot());
  }

  /** After the total is added, only a missing `station`, `line` or `date` can make the analysis fail, and the totals are numbers or missing. */
  lemma PeaksAfterTotal(t: Table)
    requires WellFormed(t) && "ride" in t.columns && "getoff" in t.columns
    ensures var u := WithTotal(t);
      && "total" in u.columns && NumericTotals(u)
      && (Peaks(u).Failure? <==> "station" !in t.columns || "line" !in t.columns || "date" !in t.columns)
      && (Peaks(u).Success? ==> Peaks(u).value == PeakTable(u))
  {
    WithTotalSpec(t);
    var u := WithTotal(t);
    var missing := MissingLabels(u.columns, PeakColumns);
    if |missing| > 0 {
      assert missing[0] in missing;
    }
  }
}
