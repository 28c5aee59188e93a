/**
  The part of a pandas DataFrame the pipeline relies on: labelled columns
  over positional rows, column lookup and in-place column assignment, and
  the two row filters `dropna(subset=...)` and `drop_duplicates(subset=...)`.
 */
module Frames {
  import opened Wrappers
  import opened Calendar

  /** One cell: a missing value (NaN, NaT or None), a text, an integer or a day. */
  datatype Cell = Null | Text(text: string) | Num(num: int) | Day(day: Date)

  type Row = seq<Cell>

  /** A frame's contents: the column labels in order, and rows listing their cells in that order. */
  datatype Table = Table(columns: seq<string>, rows: seq<Row>)

  /** What a pandas lookup or accessor raises. */
  datatype FrameError =
    | KeyError(missing: seq<string>)   // labels not among the columns
    | NotDatetime                      // `.dt` on a column that does not hold dates

  predicate Distinct<T(==)>(s: seq<T>)
  {
    forall i, j :: 0 <= i < j < |s| ==> s[i] != s[j]
  }

  /** Labels are unique and every row has one cell per column. */
  predicate WellFormed(t: Table)
  {
    Distinct(t.columns) && forall k :: 0 <= k < |t.rows| ==> |t.rows[k]| == |t.columns|
  }

  /** The cell at position `i` of a row; `Null` past its end. */
  function At(r: Row, i: nat): Cell
  {
    if i < |r| then r[i] else Null
  }

  /** Position of a label among the columns. */
  function IndexOf(columns: seq<string>, name: string): (i: nat)
    requires name in columns
    ensures i < |columns| && columns[i] == name
    ensures forall j :: 0 <= j < i ==> columns[j] != name
  {
    if columns[0] == name then 0 else 1 + IndexOf(columns[1..], name)
  }

  /** A row's cell under a label. */
  function Field(t: Table, r: Row, name: string): Cell
    requires name in t.columns
  {
    At(r, IndexOf(t.columns, name))
  }

  /** The labels of `wanted`, in order, that are not columns of `columns`. */
  function MissingLabels(columns: seq<string>, wanted: seq<string>): (m: seq<string>)
    ensures forall x :: x in m <==> x in wanted && x !in columns
  {
    if |wanted| == 0 then []
    else
      var rest := MissingLabels(columns, wanted[..|wanted| - 1]);
      var x := wanted[|wanted| - 1];
      if x in columns then rest else rest + [x]
  }

  /** The positions of the labels of `wanted`, all of which are columns. */
  function Positions(columns: seq<string>, wanted: seq<string>): (idx: seq<nat>)
    requires forall x :: x in wanted ==> x in columns
    ensures |idx| == |wanted|
    ensures forall k :: 0 <= k < |wanted| ==> idx[k] < |columns| && columns[idx[k]] == wanted[k]
  {
    seq(|wanted|, k requires 0 <= k < |wanted| => IndexOf(columns, wanted[k]))
  }

  /** `df[name]`: the cells of one column, top to bottom. */
  function ColumnOf(t: Table, name: string): (values: seq<Cell>)
    requires name in t.columns
    ensures |values| == |t.rows|
  {
    var i := IndexOf(t.columns, name);
    seq(|t.rows|, k requires 0 <= k < |t.rows| => At(t.rows[k], i))
  }

  /**
    `df[name] = values`: a new label is appended as the last column; an
    existing one has its cells replaced where it stands.
   */
  function WithColumn(t: Table, name: string, values: seq<Cell>): Table
    requires |values| == |t.rows|
  {
    if name in t.columns then
      var i := IndexOf(t.columns, name);
      Table(t.columns, seq(|t.rows|, k requires 0 <= k < |t.rows| =>
        if i < |t.rows[k]| then t.rows[k][i := values[k]] else t.rows[k]))
    else
      Table(t.columns + [name], seq(|t.rows|, k requires 0 <= k < |t.rows| => t.rows[k] + [values[k]]))
  }

  /**
    Assigning a column keeps the frame well formed and its row count; the
    column then holds `values`; every other column keeps its place and its
    cells; the label list grows by `name` exactly when it was not there.
   */
  lemma WithColumnSpec(t: Table, name: string, values: seq<Cell>)
    requires WellFormed(t) && |values| == |t.rows|
    ensures var u := WithColumn(t, name, values);
      && WellFormed(u)
      && |u.rows| == |t.rows|
      && u.columns == (if name in t.columns then t.columns else t.columns + [name])
      && name in u.columns && ColumnOf(u, name) == values
      && forall c :: c in t.columns && c != name ==> c in u.columns && ColumnOf(u, c) == ColumnOf(t, c)
  {
    var u := WithColumn(t, name, values);
    if name in t.columns {
      WithColumnReplaced(t, name, values);
    } else {
      WithColumnAppended(t, name, values);
    }
    forall c | c in t.columns && c != name ensures ColumnOf(u, c) == ColumnOf(t, c) {
      WithColumnOther(t, name, values, c);
    }
  }

  /** Replacing an existing column: the labels stay, the column holds `values`. */
  lemma WithColumnReplaced(t: Table, name: string, values: seq<Cell>)
    requires WellFormed(t) && |values| == |t.rows| && name in t.columns
    ensures var u := WithColumn(t, name, values);
      WellFormed(u) && u.columns == t.columns && |u.rows| == |t.rows| && ColumnOf(u, name) == values
  {
  }

  /** Adding a new column: it goes last and holds `values`. */
  lemma WithColumnAppended(t: Table, name: string, values: seq<Cell>)
    requires WellFormed(t) && |values| == |t.rows| && name !in t.columns
    ensures var u := WithColumn(t, name, values);
      && WellFormed(u) && u.columns == t.columns + [name] && |u.rows| == |t.rows|
      && ColumnOf(u, name) == values
  {
    var u := WithColumn(t, name, values);
    forall i, j | 0 <= i < j < |u.columns| ensures u.columns[i] != u.columns[j] {
      if j == |t.columns| { assert u.columns[i] in t.columns; }
    }
    assert IndexOf(u.columns, name) == |t.columns|;
  }

  /** Any other column keeps its cells. */
  lemma WithColumnOther(t: Table, name: string, values: seq<Cell>, c: string)
    requires WellFormed(t) && |values| == |t.rows| && c in t.columns && c != name
    ensures c in WithColumn(t, name, values).columns
    ensures ColumnOf(WithColumn(t, name, values), c) == ColumnOf(t, c)
  {
    var u := WithColumn(t, name, values);
    var i := IndexOf(t.columns, c);
    assert u.columns[i] == c;
    assert IndexOf(u.columns, c) == i;
  }

  /**
    A DataFrame that is updated in place: `df[name] = values` changes the
    caller's object, which the loading step, the derived columns and the
    peak analysis rely on.
   */
  class Frame {
    var columns: seq<string>
    var rows: seq<Row>

    predicate Valid()
      reads this
    {
      WellFormed(Table(columns, rows))
    }

    function Snapshot(): Table
      reads this
    {
      Table(columns, rows)
    }

    constructor (t: Table)
      requires WellFormed(t)
      ensures Valid() && Snapshot() == t
    {
      columns := t.columns;
      rows := t.rows;
    }

    /** `df[name]`. */
    method Column(name: string) returns (values: seq<Cell>)
      requires name in columns
      ensures values == ColumnOf(Snapshot(), name)
    {
      values := ColumnOf(Table(columns, rows), name);
    }

    /** `df[name] = values`. */
    method AssignColumn(name: string, values: seq<Cell>)
      requires Valid() && |values| == |rows|
      modifies this
      ensures Valid() && Snapshot() == WithColumn(old(Snapshot()), name, values)
    {
      WithColumnSpec(Snapshot(), name, values);
      var u := WithColumn(Table(columns, rows), name, values);
      columns, rows := u.columns, u.rows;
    }
  }

  // ---------------------------------------------------------------------
  // Subsequences

  /** `a` is `b` with some rows removed and the rest in their order. */
  predicate IsSubseq<T(==)>(a: seq<T>, b: seq<T>)
    decreases |b|
  {
    |a| == 0
    || (|b| > 0
        && ((a[|a| - 1] == b[|b| - 1] && IsSubseq(a[..|a| - 1], b[..|b| - 1]))
            || IsSubseq(a, b[..|b| - 1])))
  }

  lemma {:induction false} SubseqSize<T>(a: seq<T>, b: seq<T>)
    requires IsSubseq(a, b)
    ensures |a| <= |b|
    ensures forall x :: x in a ==> x in b
    decreases |b|
  {
    if |a| > 0 {
      var b' := b[..|b| - 1];
      if a[|a| - 1] == b[|b| - 1] && IsSubseq(a[..|a| - 1], b') {
        SubseqSize(a[..|a| - 1], b');
        assert a == a[..|a| - 1] + [b[|b| - 1]];
        assert b == b' + [b[|b| - 1]];
      } else {
        SubseqSize(a, b');
        assert b == b' + [b[|b| - 1]];
      }
    }
  }

  lemma {:induction false} SubseqRefl<T>(a: seq<T>)
    ensures IsSubseq(a, a)
  {
    if |a| > 0 {
      SubseqRefl(a[..|a| - 1]);
    }
  }

  /** Keeping the last element, or not, preserves the relation to a longer sequence. */
  lemma SubseqExtend<T>(a: seq<T>, b: seq<T>, x: T)
    requires IsSubseq(a, b)
    ensures IsSubseq(a, b + [x]) && IsSubseq(a + [x], b + [x])
  {
    assert (b + [x])[..|b|] == b;
    assert (a + [x])[..|a|] == a;
  }

  lemma {:induction false} SubseqTrans<T>(a: seq<T>, b: seq<T>, c: seq<T>)
    requires IsSubseq(a, b) && IsSubseq(b, c)
    ensures IsSubseq(a, c)
    decreases |c|
  {
    if |a| > 0 {
      SubseqSize(b, c);
      var a', b', c' := a[..|a| - 1], b[..|b| - 1], c[..|c| - 1];
      if b[|b| - 1] == c[|c| - 1] && IsSubseq(b', c') {
        if a[|a| - 1] == b[|b| - 1] && IsSubseq(a', b') {
          SubseqTrans(a', b', c');
        } else {
          SubseqTrans(a, b', c');
        }
      } else {
        SubseqTrans(a, b, c');
      }
    }
  }

  // ---------------------------------------------------------------------
  // Row filters

  /** The cells of a row at the given positions: the row's key for a subset of columns. */
  function Key(r: Row, idx: seq<nat>): (k: seq<Cell>)
    ensures |k| == |idx|
  {
    seq(|idx|, j requires 0 <= j < |idx| => At(r, idx[j]))
  }

  function Keys(rows: seq<Row>, idx: seq<nat>): (ks: seq<seq<Cell>>)
    ensures |ks| == |rows|
    ensures forall j :: 0 <= j < |rows| ==> ks[j] == Key(rows[j], idx)
  {
    seq(|rows|, j requires 0 <= j < |rows| => Key(rows[j], idx))
  }

  /** No cell of the subset is missing. */
  predicate Complete(r: Row, idx: seq<nat>)
  {
    Null !in Key(r, idx)
  }

  /** `dropna(subset=...)`: the rows whose subset cells are all present, in order. */
  function DropNaRows(rows: seq<Row>, idx: seq<nat>): seq<Row>
  {
    if |rows| == 0 then []
    else
      var last := rows[|rows| - 1];
      DropNaRows(rows[..|rows| - 1], idx) + (if Complete(last, idx) then [last] else [])
  }

  /** `drop_duplicates(subset=...)`: each row whose key an earlier row already had is dropped. */
  function DedupRows(rows: seq<Row>, idx: seq<nat>): seq<Row>
  {
    if |rows| == 0 then []
    else
      var init := rows[..|rows| - 1];
      var last := rows[|rows| - 1];
      DedupRows(init, idx) + (if Key(last, idx) in Keys(init, idx) then [] else [last])
  }

  /** The first row, top to bottom, whose key is `key`. */
  function FirstWithKey(rows: seq<Row>, idx: seq<nat>, key: seq<Cell>): Option<Row>
  {
    if |rows| == 0 then None
    else
      var init := rows[..|rows| - 1];
      match FirstWithKey(init, idx, key)
      case Some(r) => Some(r)
      case None => if Key(rows[|rows| - 1], idx) == key then Some(rows[|rows| - 1]) else None
  }

  lemma {:induction false} FirstWithKeyFound(rows: seq<Row>, idx: seq<nat>, key: seq<Cell>)
    ensures FirstWithKey(rows, idx, key).Some? <==> key in Keys(rows, idx)
    ensures FirstWithKey(rows, idx, key).Some? ==>
              FirstWithKey(rows, idx, key).value in rows && Key(FirstWithKey(rows, idx, key).value, idx) == key
  {
    if |rows| > 0 {
      var init := rows[..|rows| - 1];
      FirstWithKeyFound(init, idx, key);
      assert rows == init + [rows[|rows| - 1]];
      assert Keys(rows, idx) == Keys(init, idx) + [Key(rows[|rows| - 1], idx)];
    }
  }

  /**
    The rows `dropna` keeps are exactly the complete rows, in their order:
    every one of them is complete, it is a subsequence of the input, and
    every complete row keeps as many copies as it had.
   */
  lemma DropNaSpec(rows: seq<Row>, idx: seq<nat>)
    ensures var out := DropNaRows(rows, idx);
      && IsSubseq(out, rows)
      && (forall j :: 0 <= j < |out| ==> Complete(out[j], idx))
      && (forall r :: r in rows && Complete(r, idx) ==> r in out)
      && (forall r :: multiset(out)[r] == if Complete(r, idx) then multiset(rows)[r] else 0)
  {
    DropNaOrder(rows, idx);
    DropNaCounts(rows, idx);
  }

  /** `dropna` keeps a subsequence of complete rows and loses no complete row. */
  lemma {:induction false} DropNaOrder(rows: seq<Row>, idx: seq<nat>)
    ensures var out := DropNaRows(rows, idx);
      && IsSubseq(out, rows)
      && (forall j :: 0 <= j < |out| ==> Complete(out[j], idx))
      && (forall r :: r in rows && Complete(r, idx) ==> r in out)
  {
    if |rows| > 0 {
      var init, last := rows[..|rows| - 1], rows[|rows| - 1];
      DropNaOrder(init, idx);
      var prev := DropNaRows(init, idx);
      SubseqExtend(prev, init, last);
      assert rows == init + [last];
      if !Complete(last, idx) {
        assert DropNaRows(rows, idx) == prev;
      }
    }
  }

  /** Each complete row keeps all its copies, and no other row keeps any. */
  lemma {:induction false} DropNaCounts(rows: seq<Row>, idx: seq<nat>)
    ensures forall r :: multiset(DropNaRows(rows, idx))[r] == if Complete(r, idx) then multiset(rows)[r] else 0
  {
    if |rows| > 0 {
      var init, last := rows[..|rows| - 1], rows[|rows| - 1];
      DropNaCounts(init, idx);
      var prev := DropNaRows(init, idx);
      assert rows == init + [last];
      assert multiset(rows) == multiset(init) + multiset{last};
      if Complete(last, idx) {
        assert multiset(DropNaRows(rows, idx)) == multiset(prev) + multiset{last};
      } else {
        assert DropNaRows(rows, idx) == prev;
      }
    }
  }

  /** Rows that are all complete pass `dropna` unchanged. */
  lemma {:induction false} DropNaKeepsComplete(rows: seq<Row>, idx: seq<nat>)
    requires forall j :: 0 <= j < |rows| ==> Complete(rows[j], idx)
    ensures DropNaRows(rows, idx) == rows
  {
    if |rows| > 0 {
      DropNaKeepsComplete(rows[..|rows| - 1], idx);
      assert rows == rows[..|rows| - 1] + [rows[|rows| - 1]];
    }
  }

  /** `drop_duplicates` keeps rows in their order and only rows of the input. */
  lemma {:induction false} DedupSubseq(rows: seq<Row>, idx: seq<nat>)
    ensures IsSubseq(DedupRows(rows, idx), rows)
  {
    if |rows| > 0 {
      var init, last := rows[..|rows| - 1], rows[|rows| - 1];
      DedupSubseq(init, idx);
      var prev := DedupRows(init, idx);
      SubseqExtend(prev, init, last);
      assert rows == init + [last];
      if Key(last, idx) in Keys(init, idx) {
        assert DedupRows(rows, idx) == prev;
      }
    }
  }

  /** Every key of the input has a row in the output, and the output has no other key. */
  lemma {:induction false} DedupKeys(rows: seq<Row>, idx: seq<nat>)
    ensures forall key :: key in Keys(DedupRows(rows, idx), idx) <==> key in Keys(rows, idx)
  {
    if |rows| > 0 {
      var init, last := rows[..|rows| - 1], rows[|rows| - 1];
      DedupKeys(init, idx);
      var prev := DedupRows(init, idx);
      assert Keys(rows, idx) == Keys(init, idx) + [Key(last, idx)];
      if Key(last, idx) in Keys(init, idx) {
        assert DedupRows(rows, idx) == prev;
      } else {
        assert Keys(prev + [last], idx) == Keys(prev, idx) + [Key(last, idx)];
      }
    }
  }

  /** No two rows of the output share a key. */
  lemma {:induction false} DedupDistinct(rows: seq<Row>, idx: seq<nat>)
    ensures Distinct(Keys(DedupRows(rows, idx), idx))
  {
    if |rows| > 0 {
      var init, last := rows[..|rows| - 1], rows[|rows| - 1];
      DedupDistinct(init, idx);
      DedupKeys(init, idx);
      var prev := DedupRows(init, idx);
      if Key(last, idx) !in Keys(init, idx) {
        var out := prev + [last];
        assert Keys(out, idx) == Keys(prev, idx) + [Key(last, idx)];
        forall i, j | 0 <= i < j < |out| ensures Keys(out, idx)[i] != Keys(out, idx)[j] {
          if j == |prev| { assert Keys(out, idx)[i] == Keys(prev, idx)[i]; }
        }
      } else {
        assert DedupRows(rows, idx) == prev;
      }
    }
  }

  /** For each key, the row kept is the first input row that has it. */
  lemma {:induction false} DedupKeepsFirst(rows: seq<Row>, idx: seq<nat>)
    ensures forall j :: 0 <= j < |DedupRows(rows, idx)| ==>
              FirstWithKey(rows, idx, Key(DedupRows(rows, idx)[j], idx)) == Some(DedupRows(rows, idx)[j])
  {
    if |rows| > 0 {
      var init, last := rows[..|rows| - 1], rows[|rows| - 1];
      DedupKeepsFirst(init, idx);
      var prev := DedupRows(init, idx);
      var out := DedupRows(rows, idx);
      if Key(last, idx) !in Keys(init, idx) {
        FirstWithKeyFound(init, idx, Key(last, idx));
        assert out == prev + [last];
      } else {
        assert out == prev;
      }
      forall j | 0 <= j < |out|
        ensures FirstWithKey(rows, idx, Key(out[j], idx)) == Some(out[j])
      {
        if j < |prev| {
          assert out[j] == prev[j];
        }
      }
    }
  }

  /** `p` lists positions of `rows` in strictly increasing order. */
  predicate Increasing(p: seq<nat>, n: nat)
  {
    (forall j :: 0 <= j < |p| ==> p[j] < n) && (forall i, j :: 0 <= i < j < |p| ==> p[i] < p[j])
  }

  /** Row `i` is the first one, top to bottom, with its key. */
  predicate IsFirstOfKey(rows: seq<Row>, idx: seq<nat>, i: nat)
  {
    i < |rows| && forall k :: 0 <= k < i ==> Key(rows[k], idx) != Key(rows[i], idx)
  }

  /** The positions `dropna` keeps. */
  function CompleteIndices(rows: seq<Row>, idx: seq<nat>): seq<nat>
  {
    if |rows| == 0 then []
    else
      var n := |rows| - 1;
      CompleteIndices(rows[..n], idx) + (if Complete(rows[n], idx) then [n] else [])
  }

  /** The positions `drop_duplicates` keeps. */
  function FirstIndices(rows: seq<Row>, idx: seq<nat>): seq<nat>
  {
    if |rows| == 0 then []
    else
      var n := |rows| - 1;
      FirstIndices(rows[..n], idx) + (if Key(rows[n], idx) in Keys(rows[..n], idx) then [] else [n])
  }

  /**
    `dropna` by position: the output is the input at increasing positions
    `p`, and `p` holds exactly the positions of the complete rows.
   */
  lemma {:induction false} DropNaPositions(rows: seq<Row>, idx: seq<nat>)
    ensures var out, p := DropNaRows(rows, idx), CompleteIndices(rows, idx);
      && |p| == |out| && Increasing(p, |rows|)
      && (forall j :: 0 <= j < |p| ==> out[j] == rows[p[j]])
      && (forall i :: 0 <= i < |rows| ==> (i in p <==> Complete(rows[i], idx)))
  {
    if |rows| > 0 {
      var n := |rows| - 1;
      var init := rows[..n];
      DropNaPositions(init, idx);
      var prev, q := DropNaRows(init, idx), CompleteIndices(init, idx);
      var out, p := DropNaRows(rows, idx), CompleteIndices(rows, idx);
      assert rows == init + [rows[n]];
      forall j | 0 <= j < |p| ensures out[j] == rows[p[j]] {
        if j < |q| {
          assert out[j] == prev[j] && p[j] == q[j];
        }
      }
      forall i | 0 <= i < |rows| ensures i in p <==> Complete(rows[i], idx) {
        if i < n {
          assert rows[i] == init[i];
          assert n !in q;
        }
      }
    }
  }

  /**
    `drop_duplicates` by position: the output is the input at increasing
    positions `p`, and `p` holds exactly the positions of the rows no
    earlier row shares a key with, so pandas' first-occurrence result is
    determined row for row.
   */
  lemma {:induction false} DedupPositions(rows: seq<Row>, idx: seq<nat>)
    ensures var out, p := DedupRows(rows, idx), FirstIndices(rows, idx);
      && |p| == |out| && Increasing(p, |rows|)
      && (forall j :: 0 <= j < |p| ==> out[j] == rows[p[j]])
      && (forall i :: 0 <= i < |rows| ==> (i in p <==> IsFirstOfKey(rows, idx, i)))
  {
    if |rows| > 0 {
      var n := |rows| - 1;
      var init := rows[..n];
      DedupPositions(init, idx);
      var prev, q := DedupRows(init, idx), FirstIndices(init, idx);
      var out, p := DedupRows(rows, idx), FirstIndices(rows, idx);
      assert rows == init + [rows[n]];
      forall j | 0 <= j < |p| ensures out[j] == rows[p[j]] {
        if j < |q| {
          assert out[j] == prev[j] && p[j] == q[j];
        }
      }
      forall i | 0 <= i < |rows| ensures i in p <==> IsFirstOfKey(rows, idx, i) {
        if i < n {
          assert n !in q;
          assert IsFirstOfKey(rows, idx, i) <==> IsFirstOfKey(init, idx, i);
        } else {
          FirstKeyAbsent(init, idx, rows[n]);
        }
      }
    }
  }

  /** A row's key is missing from the keys before it exactly when no earlier row shares it. */
  lemma FirstKeyAbsent(init: seq<Row>, idx: seq<nat>, last: Row)
    ensures Key(last, idx) !in Keys(init, idx) <==> IsFirstOfKey(init + [last], idx, |init|)
  {
    var rows := init + [last];
    if Key(last, idx) in Keys(init, idx) {
      var k :| 0 <= k < |init| && Keys(init, idx)[k] == Key(last, idx);
      assert rows[k] == init[k];
    } else {
      forall k | 0 <= k < |init| ensures Key(rows[k], idx) != Key(rows[|init|], idx) {
        assert rows[k] == init[k];
        assert Keys(init, idx)[k] == Key(init[k], idx);
      }
    }
  }

  /** Row `i` is complete and no earlier complete row shares its key. */
  predicate IsFirstComplete(rows: seq<Row>, naIdx: seq<nat>, dupIdx: seq<nat>, i: nat)
  {
    i < |rows| && Complete(rows[i], naIdx)
    && forall k :: 0 <= k < i && Complete(rows[k], naIdx) ==> Key(rows[k], dupIdx) != Key(rows[i], dupIdx)
  }

  /** The positions `dropna` then `drop_duplicates` keep: the kept complete rows' positions. */
  function KeptIndices(rows: seq<Row>, naIdx: seq<nat>, dupIdx: seq<nat>): seq<nat>
  {
    var q := CompleteIndices(rows, naIdx);
    var pd := FirstIndices(DropNaRows(rows, naIdx), dupIdx);
    seq(|pd|, j requires 0 <= j < |pd| => if pd[j] < |q| then q[pd[j]] else 0)
  }

  /**
    `dropna` followed by `drop_duplicates`, by position: the output is the
    input at increasing positions, and those are exactly the complete rows
    that no earlier complete row shares a key with.
   */
  lemma DropDedupPositions(rows: seq<Row>, naIdx: seq<nat>, dupIdx: seq<nat>)
    ensures var out, p := DedupRows(DropNaRows(rows, naIdx), dupIdx), KeptIndices(rows, naIdx, dupIdx);
      && |p| == |out| && Increasing(p, |rows|)
      && (forall j :: 0 <= j < |p| ==> out[j] == rows[p[j]])
      && (forall i :: 0 <= i < |rows| ==> (i in p <==> IsFirstComplete(rows, naIdx, dupIdx, i)))
  {
    KeptSelects(rows, naIdx, dupIdx);
    var p := KeptIndices(rows, naIdx, dupIdx);
    forall i | 0 <= i < |rows| ensures i in p <==> IsFirstComplete(rows, naIdx, dupIdx, i) {
      KeptIff(rows, naIdx, dupIdx, i);
    }
  }

  /** The kept positions index the output, in increasing order. */
  lemma KeptSelects(rows: seq<Row>, naIdx: seq<nat>, dupIdx: seq<nat>)
    ensures var out, p := DedupRows(DropNaRows(rows, naIdx), dupIdx), KeptIndices(rows, naIdx, dupIdx);
      && |p| == |out| && Increasing(p, |rows|)
      && (forall j :: 0 <= j < |p| ==> out[j] == rows[p[j]])
  {
    var c, q := DropNaRows(rows, naIdx), CompleteIndices(rows, naIdx);
    var pd := FirstIndices(c, dupIdx);
    DropNaPositions(rows, naIdx);
    DedupPositions(c, dupIdx);
    var p := KeptIndices(rows, naIdx, dupIdx);
    assert forall j :: 0 <= j < |p| ==> p[j] == q[pd[j]];
  }

  lemma KeptIff(rows: seq<Row>, naIdx: seq<nat>, dupIdx: seq<nat>, i: nat)
    requires i < |rows|
    ensures i in KeptIndices(rows, naIdx, dupIdx) <==> IsFirstComplete(rows, naIdx, dupIdx, i)
  {
    var c, q := DropNaRows(rows, naIdx), CompleteIndices(rows, naIdx);
    var pd := FirstIndices(c, dupIdx);
    DropNaPositions(rows, naIdx);
    DedupPositions(c, dupIdx);
    var p := KeptIndices(rows, naIdx, dupIdx);
    if i in p {
      var j :| 0 <= j < |p| && p[j] == i;
      assert p[j] == q[pd[j]];
      KeptIsFirst(rows, naIdx, dupIdx, pd[j]);
    }
    if IsFirstComplete(rows, naIdx, dupIdx, i) {
      assert i in q;
      var m :| 0 <= m < |q| && q[m] == i;
      FirstIsKept(rows, naIdx, dupIdx, m);
      var j :| 0 <= j < |pd| && pd[j] == m;
      assert p[j] == i;
    }
  }

  lemma KeptIsFirst(rows: seq<Row>, naIdx: seq<nat>, dupIdx: seq<nat>, m: nat)
    requires var c, q := DropNaRows(rows, naIdx), CompleteIndices(rows, naIdx);
      && |q| == |c| && Increasing(q, |rows|)
      && (forall j :: 0 <= j < |q| ==> c[j] == rows[q[j]])
      && (forall i :: 0 <= i < |rows| ==> (i in q <==> Complete(rows[i], naIdx)))
      && IsFirstOfKey(c, dupIdx, m)
    ensures IsFirstComplete(rows, naIdx, dupIdx, CompleteIndices(rows, naIdx)[m])
  {
    var c, q := DropNaRows(rows, naIdx), CompleteIndices(rows, naIdx);
    var i := q[m];
    assert i in q;
    forall k | 0 <= k < i && Complete(rows[k], naIdx) ensures Key(rows[k], dupIdx) != Key(rows[i], dupIdx) {
      assert k in q;
      var m' :| 0 <= m' < |q| && q[m'] == k;
      assert c[m'] == rows[k];
    }
  }

  lemma FirstIsKept(rows: seq<Row>, naIdx: seq<nat>, dupIdx: seq<nat>, m: nat)
    requires var c, q := DropNaRows(rows, naIdx), CompleteIndices(rows, naIdx);
      && |q| == |c| && Increasing(q, |rows|) && m < |q|
      && (forall j :: 0 <= j < |q| ==> c[j] == rows[q[j]])
      && (forall i :: 0 <= i < |rows| ==> (i in q <==> Complete(rows[i], naIdx)))
      && IsFirstComplete(rows, naIdx, dupIdx, q[m])
    ensures IsFirstOfKey(DropNaRows(rows, naIdx), dupIdx, m)
  {
    var c, q := DropNaRows(rows, naIdx), CompleteIndices(rows, naIdx);
    forall k | 0 <= k < m ensures Key(c[k], dupIdx) != Key(c[m], dupIdx) {
      assert q[k] in q;
      assert q[k] < q[m];
    }
  }

  predicate AllComplete(rows: seq<Row>, idx: seq<nat>)
  {
    forall k :: 0 <= k < |rows| ==> Complete(rows[k], idx)
  }

  /** De-duplicating the complete rows leaves only complete rows. */
  lemma DedupOfComplete(rows: seq<Row>, naIdx: seq<nat>, dupIdx: seq<nat>)
    ensures AllComplete(DedupRows(DropNaRows(rows, naIdx), dupIdx), naIdx)
  {
    var complete := DropNaRows(rows, naIdx);
    var out := DedupRows(complete, dupIdx);
    DropNaSpec(rows, naIdx);
    DedupSubseq(complete, dupIdx);
    SubseqSize(out, complete);
    forall k | 0 <= k < |out| ensures Complete(out[k], naIdx) {
      assert out[k] in complete;
    }
    assert AllComplete(out, naIdx);
  }

  /** When no two rows share a key, `drop_duplicates` removes nothing. */
  lemma {:induction false} DedupKeepsDistinct(rows: seq<Row>, idx: seq<nat>)
    requires Distinct(Keys(rows, idx))
    ensures DedupRows(rows, idx) == rows
  {
    if |rows| > 0 {
      var init, last := rows[..|rows| - 1], rows[|rows| - 1];
      assert Keys(init, idx) == Keys(rows, idx)[..|rows| - 1];
      DedupKeepsDistinct(init, idx);
      assert rows == init + [last];
    }
  }
}
