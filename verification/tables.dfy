/**
 An abstract pandas DataFrame and the three column operations the pipeline
 uses on it: `pd.concat` (outer union of columns, missing cells null),
 `drop(columns=...)` and `rename(columns=...)`.
 */
module Tables {
  import opened Values

  /** One record: a value for every column of its table. */
  type Row = map<Label, Value>

  /** A frame: ordered column labels and rows in order. */
  datatype Table = Table(columns: seq<Label>, rows: seq<Row>)

  /** Labels are unique and every row has a cell for exactly the table's columns. */
  predicate WellFormed(t: Table) {
    && Distinct(t.columns)
    && forall k :: 0 <= k < |t.rows| ==> t.rows[k].Keys == Elems(t.columns)
  }

  // ---------------------------------------------------------------------------
  // pd.concat: the union of the columns in order of first appearance
  // ---------------------------------------------------------------------------

  /** Every label of every table. */
  function AllColumns(ts: seq<Table>): set<Label> {
    if |ts| == 0 then {} else Elems(ts[0].columns) + AllColumns(ts[1..])
  }

  function Gather(acc: seq<Label>, ts: seq<Table>): (r: seq<Label>)
    requires Distinct(acc)
    ensures Distinct(r)
    ensures Elems(r) == Elems(acc) + AllColumns(ts)
    ensures |acc| <= |r| && r[..|acc|] == acc
    decreases |ts|
  {
    if |ts| == 0 then acc
    else
      var a := AppendNew(acc, ts[0].columns);
      var r := Gather(a, ts[1..]);
      assert r[..|acc|] == r[..|a|][..|acc|];
      r
  }

  /**
   The columns `pd.concat` produces: each label once, every label of every
   input table, and the first table's columns first, in their own order.
   */
  function UnionColumns(ts: seq<Table>): (cols: seq<Label>)
    ensures Distinct(cols)
    ensures Elems(cols) == AllColumns(ts)
    ensures |ts| > 0 && Distinct(ts[0].columns) ==>
              |ts[0].columns| <= |cols| && cols[..|ts[0].columns|] == ts[0].columns
  {
    if |ts| == 0 then []
    else
      var first := AppendNew([], ts[0].columns);
      AppendNewToEmpty(ts[0].columns);
      Gather(first, ts[1..])
  }

  /** A row widened to `cols`, with null where the row has no such column. */
  function Pad(row: Row, cols: seq<Label>): Row {
    map c | c in cols :: if c in row then row[c] else Null
  }

  function TotalRows(ts: seq<Table>): nat {
    if |ts| == 0 then 0 else |ts[0].rows| + TotalRows(ts[1..])
  }

  /** The position of table `i`'s first row in the concatenation. */
  function Offset(ts: seq<Table>, i: nat): nat
    requires i <= |ts|
  {
    if i == 0 then 0 else |ts[0].rows| + Offset(ts[1..], i - 1)
  }

  function StackRows(ts: seq<Table>, cols: seq<Label>): (rows: seq<Row>)
    ensures |rows| == TotalRows(ts)
  {
    if |ts| == 0 then []
    else seq(|ts[0].rows|, k requires 0 <= k < |ts[0].rows| => Pad(ts[0].rows[k], cols))
         + StackRows(ts[1..], cols)
  }

  /** Row `k` of table `i` lands at `Offset(ts, i) + k`, widened to the union columns. */
  lemma {:induction false} StackRowsAt(ts: seq<Table>, cols: seq<Label>, i: nat, k: nat)
    requires i < |ts| && k < |ts[i].rows|
    ensures Offset(ts, i) + k < TotalRows(ts)
    ensures StackRows(ts, cols)[Offset(ts, i) + k] == Pad(ts[i].rows[k], cols)
  {
    var rest := StackRows(ts[1..], cols);
    var n := |ts[0].rows|;
    assert |StackRows(ts, cols)| == n + |rest|;
    if i > 0 {
      StackRowsAt(ts[1..], cols, i - 1, k);
      assert ts[1..][i - 1] == ts[i];
      assert StackRows(ts, cols)[n + Offset(ts[1..], i - 1) + k] == rest[Offset(ts[1..], i - 1) + k];
    }
  }

  function AllWellFormed(ts: seq<Table>): bool {
    forall i :: 0 <= i < |ts| ==> WellFormed(ts[i])
  }

  /**
   `pd.concat(ts, ignore_index=True)`. pandas refuses an empty list, and
   every caller passes at least one table.
   */
  function Concat(ts: seq<Table>): (r: Table)
    requires |ts| > 0
    ensures AllWellFormed(ts) ==> WellFormed(r)
    ensures Elems(r.columns) == AllColumns(ts)
    ensures |r.rows| == TotalRows(ts)
  {
    var cols := UnionColumns(ts);
    var r := Table(cols, StackRows(ts, cols));
    forall k | 0 <= k < |r.rows| ensures r.rows[k].Keys == Elems(cols) {
      StackRowsOrigin(ts, cols, k);
    }
    r
  }

  /** Every stacked row is some input row widened to `cols`. */
  lemma {:induction false} StackRowsOrigin(ts: seq<Table>, cols: seq<Label>, k: nat)
    requires k < TotalRows(ts)
    ensures exists i, j :: 0 <= i < |ts| && 0 <= j < |ts[i].rows| &&
                           StackRows(ts, cols)[k] == Pad(ts[i].rows[j], cols)
  {
    if k < |ts[0].rows| {
      assert StackRows(ts, cols)[k] == Pad(ts[0].rows[k], cols);
    } else {
      StackRowsOrigin(ts[1..], cols, k - |ts[0].rows|);
      var i, j :| 0 <= i < |ts[1..]| && 0 <= j < |ts[1..][i].rows| &&
                  StackRows(ts[1..], cols)[k - |ts[0].rows|] == Pad(ts[1..][i].rows[j], cols);
      assert ts[1..][i] == ts[i + 1];
    }
  }

  /**
   A cell of the concatenation: the source row's value where its table has
   the column, null where it does not.
   */
  lemma ConcatCell(ts: seq<Table>, i: nat, k: nat, c: Label)
    requires i < |ts| && k < |ts[i].rows|
    requires c in AllColumns(ts)
    ensures Offset(ts, i) + k < |Concat(ts).rows|
    ensures c in Concat(ts).rows[Offset(ts, i) + k]
    ensures Concat(ts).rows[Offset(ts, i) + k][c] ==
              if c in ts[i].rows[k] then ts[i].rows[k][c] else Null
  {
    StackRowsAt(ts, UnionColumns(ts), i, k);
  }

  // ---------------------------------------------------------------------------
  // drop(columns=...): only labels that are strings named in the list
  // ---------------------------------------------------------------------------

  predicate Removed(remove: seq<string>, c: Label) {
    c.Str? && c.s in remove
  }

  /** The labels of `cols` that are not removed, in order. */
  function KeepColumns(cols: seq<Label>, remove: seq<string>): (r: seq<Label>)
    ensures forall c :: c in r <==> c in cols && !Removed(remove, c)
    ensures Distinct(cols) ==> Distinct(r)
  {
    if |cols| == 0 then []
    else
      var rest := KeepColumns(cols[1..], remove);
      if Removed(remove, cols[0]) then rest
      else
        assert Distinct(cols) ==> cols[0] !in cols[1..];
        [cols[0]] + rest
  }

  /** Removing names that label no column keeps every column, in order. */
  lemma {:induction false} KeepColumnsNone(cols: seq<Label>, remove: seq<string>)
    requires forall c :: c in cols ==> !Removed(remove, c)
    ensures KeepColumns(cols, remove) == cols
  {
    if |cols| > 0 {
      KeepColumnsNone(cols[1..], remove);
    }
  }

  /**
   `df.drop(columns=[c for c in remove if c in df.columns])`: the named
   columns disappear from the labels and from every row; nothing else changes.
   */
  function DropColumns(t: Table, remove: seq<string>): (r: Table)
    requires WellFormed(t)
    ensures WellFormed(r)
    ensures forall c :: c in r.columns <==> c in t.columns && !Removed(remove, c)
    ensures |r.rows| == |t.rows|
    ensures forall k, c :: 0 <= k < |r.rows| && c in t.rows[k] && !Removed(remove, c) ==>
              c in r.rows[k] && r.rows[k][c] == t.rows[k][c]
  {
    var cols := KeepColumns(t.columns, remove);
    Table(cols, seq(|t.rows|, k requires 0 <= k < |t.rows| => map c | c in cols :: t.rows[k][c]))
  }

  /** Names in the drop list that label no column are ignored without error. */
  lemma DropAbsentIsIdentity(t: Table, remove: seq<string>)
    requires WellFormed(t)
    requires forall c :: c in t.columns ==> !Removed(remove, c)
    ensures DropColumns(t, remove) == t
  {
    KeepColumnsNone(t.columns, remove);
    var r := DropColumns(t, remove);
    forall k | 0 <= k < |t.rows| ensures r.rows[k] == t.rows[k] {
      assert r.rows[k].Keys == t.rows[k].Keys;
    }
  }

  // ---------------------------------------------------------------------------
  // rename(columns=m): only labels that are strings and keys of the map
  // ---------------------------------------------------------------------------

  function RenameLabel(m: map<string, string>, c: Label): Label {
    if c.Str? && c.s in m then Str(m[c.s]) else c
  }

  /** Renaming sends no two of `labels` to the same label. */
  predicate InjectiveOn(m: map<string, string>, labels: set<Label>) {
    forall a, b :: a in labels && b in labels && a != b ==> RenameLabel(m, a) != RenameLabel(m, b)
  }

  function RenameRow(m: map<string, string>, row: Row): (r: Row)
    requires InjectiveOn(m, row.Keys)
    ensures forall c :: c in row ==> RenameLabel(m, c) in r && r[RenameLabel(m, c)] == row[c]
    ensures forall d :: d in r ==> exists c :: c in row && d == RenameLabel(m, c)
  {
    map c | c in row :: RenameLabel(m, c) := row[c]
  }

  function RenameAll(m: map<string, string>, cols: seq<Label>): (r: seq<Label>)
    ensures |r| == |cols|
    ensures forall i :: 0 <= i < |cols| ==> r[i] == RenameLabel(m, cols[i])
  {
    seq(|cols|, i requires 0 <= i < |cols| => RenameLabel(m, cols[i]))
  }

  /**
   `df.rename(columns=m)`: each label that is a key of `m` is replaced by its
   image, in place; every cell moves with its label. pandas would create
   duplicate labels if two columns met under one name, so the map must keep
   the present labels apart.
   */
  function RenameColumns(t: Table, m: map<string, string>): (r: Table)
    requires WellFormed(t) && InjectiveOn(m, Elems(t.columns))
    ensures WellFormed(r)
    ensures |r.columns| == |t.columns|
    ensures forall i :: 0 <= i < |t.columns| ==> r.columns[i] == RenameLabel(m, t.columns[i])
    ensures |r.rows| == |t.rows|
    ensures forall k, c :: 0 <= k < |t.rows| && c in t.rows[k] ==>
              RenameLabel(m, c) in r.rows[k] && r.rows[k][RenameLabel(m, c)] == t.rows[k][c]
  {
    var cols := RenameAll(m, t.columns);
    RenameAllDistinct(m, t.columns);
    var rows := seq(|t.rows|, k requires 0 <= k < |t.rows| => RenameRow(m, t.rows[k]));
    forall k | 0 <= k < |rows| ensures rows[k].Keys == Elems(cols) {
      RenameRowKeys(m, t.rows[k], t.columns);
    }
    Table(cols, rows)
  }

  lemma RenameAllDistinct(m: map<string, string>, cols: seq<Label>)
    requires Distinct(cols) && InjectiveOn(m, Elems(cols))
    ensures Distinct(RenameAll(m, cols))
  {
    var r := RenameAll(m, cols);
    forall i, j | 0 <= i < j < |r| ensures r[i] != r[j] {
      assert cols[i] in Elems(cols) && cols[j] in Elems(cols);
    }
  }

  lemma RenameRowKeys(m: map<string, string>, row: Row, cols: seq<Label>)
    requires row.Keys == Elems(cols) && InjectiveOn(m, row.Keys)
    ensures RenameRow(m, row).Keys == Elems(RenameAll(m, cols))
  {
    var r := RenameRow(m, row);
    var rc := RenameAll(m, cols);
    forall d | d in r ensures d in rc {
      var c :| c in row && d == RenameLabel(m, c);
      var i :| 0 <= i < |cols| && cols[i] == c;
      assert rc[i] == d;
    }
    forall d | d in rc ensures d in r {
      var i :| 0 <= i < |rc| && rc[i] == d;
      assert cols[i] in row;
    }
  }

  /** A map that renames none of the columns leaves the table as it is. */
  lemma RenameUntouchedIsIdentity(t: Table, m: map<string, string>)
    requires WellFormed(t)
    requires forall c :: c in t.columns ==> RenameLabel(m, c) == c
    ensures InjectiveOn(m, Elems(t.columns))
    ensures RenameColumns(t, m) == t
  {
    var r := RenameColumns(t, m);
    assert r.columns == t.columns;
    forall k | 0 <= k < |t.rows| ensures r.rows[k] == t.rows[k] {
      RenameRowUntouched(m, t.rows[k]);
    }
  }

  lemma RenameRowUntouched(m: map<string, string>, row: Row)
    requires forall c :: c in row ==> RenameLabel(m, c) == c
    ensures InjectiveOn(m, row.Keys)
    ensures RenameRow(m, row) == row
  {
    var r := RenameRow(m, row);
    assert r.Keys == row.Keys;
  }
}
