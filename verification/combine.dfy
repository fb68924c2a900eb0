/**
 `combine_dataframes` (functions.py): stack the frames of one workbook,
 drop the configured raw columns, then rename what is left.
 */
module Combine {
  import opened Values
  import opened Tables
  import opened Workbooks

  /** A data row keyed by the header labels. */
  function RowOf(header: seq<Label>, cells: seq<Value>): (row: Row)
    requires Distinct(header) && |cells| == |header|
    ensures row.Keys == Elems(header)
    ensures forall j :: 0 <= j < |header| ==> row[header[j]] == cells[j]
  {
    map j | 0 <= j < |header| :: header[j] := cells[j]
  }

  /** The frame as a table: the header gives the columns, each data row one record. */
  function FrameToTable(f: Frame): (t: Table)
    requires FrameOk(f)
    ensures WellFormed(t)
    ensures t.columns == f.header && |t.rows| == |f.data|
    ensures forall k, j :: 0 <= k < |f.data| && 0 <= j < |f.header| ==>
              f.header[j] in t.rows[k] && t.rows[k][f.header[j]] == f.data[k][j]
  {
    Table(f.header, seq(|f.data|, k requires 0 <= k < |f.data| => RowOf(f.header, f.data[k])))
  }

  predicate AllFramesOk(frames: seq<Frame>) {
    forall i :: 0 <= i < |frames| ==> FrameOk(frames[i])
  }

  function AsTables(frames: seq<Frame>): (ts: seq<Table>)
    requires AllFramesOk(frames)
    ensures |ts| == |frames| && AllWellFormed(ts)
  {
    seq(|frames|, i requires 0 <= i < |frames| => FrameToTable(frames[i]))
  }

  /** Every header label of every frame. */
  function RawLabels(frames: seq<Frame>): set<Label> {
    set i, j | 0 <= i < |frames| && 0 <= j < |frames[i].header| :: frames[i].header[j]
  }

  /** The raw labels that survive the drop. */
  function Surviving(frames: seq<Frame>, remove: seq<string>): set<Label> {
    set c | c in RawLabels(frames) && !Removed(remove, c)
  }

  function DataRows(frames: seq<Frame>): nat {
    if |frames| == 0 then 0 else |frames[0].data| + DataRows(frames[1..])
  }

  /** Data rows of the frames before frame `i`. */
  function RowsBefore(frames: seq<Frame>, i: nat): nat
    requires i <= |frames|
  {
    if i == 0 then 0 else |frames[0].data| + RowsBefore(frames[1..], i - 1)
  }

  lemma {:induction false} AsTablesFacts(frames: seq<Frame>)
    requires AllFramesOk(frames)
    ensures AllColumns(AsTables(frames)) == RawLabels(frames)
    ensures TotalRows(AsTables(frames)) == DataRows(frames)
    ensures forall i :: 0 <= i <= |frames| ==> Offset(AsTables(frames), i) == RowsBefore(frames, i)
  {
    var ts := AsTables(frames);
    if |frames| > 0 {
      assert AsTables(frames[1..]) == ts[1..];
      AsTablesFacts(frames[1..]);
      assert RawLabels(frames) == Elems(frames[0].header) + RawLabels(frames[1..]) by {
        forall c | c in RawLabels(frames)
          ensures c in Elems(frames[0].header) + RawLabels(frames[1..])
        {
          var i, j :| 0 <= i < |frames| && 0 <= j < |frames[i].header| && frames[i].header[j] == c;
          if i > 0 {
            assert frames[1..][i - 1] == frames[i];
          }
        }
        forall c | c in RawLabels(frames[1..]) ensures c in RawLabels(frames) {
          var i, j :| 0 <= i < |frames[1..]| && 0 <= j < |frames[1..][i].header| && frames[1..][i].header[j] == c;
          assert frames[1..][i] == frames[i + 1];
        }
      }
      forall i | 0 < i <= |frames| ensures Offset(ts, i) == RowsBefore(frames, i) {
        assert Offset(ts[1..], i - 1) == RowsBefore(frames[1..], i - 1);
      }
    }
  }

  /** Renaming keeps the surviving raw labels apart. */
  predicate RenameSafe(frames: seq<Frame>, remove: seq<string>, rename: map<string, string>) {
    InjectiveOn(rename, Surviving(frames, remove))
  }

  datatype CombineError = NoObjectsToConcatenate

  /**
   `combine_dataframes(dfs, columns_to_remove, rename_map)`: every data row
   of every frame, in order; the columns are the union of the headers minus
   the dropped names, then renamed. `pd.concat` of no frames is an error.
   */
  function CombineDataframes(frames: seq<Frame>, remove: seq<string>, rename: map<string, string>)
    : (r: Result<Table, CombineError>)
    requires AllFramesOk(frames)
    requires RenameSafe(frames, remove, rename)
    ensures r.Err? <==> |frames| == 0
    ensures r.Ok? ==> WellFormed(r.value)
    ensures r.Ok? ==> |r.value.rows| == DataRows(frames)
    ensures r.Ok? ==> forall d :: d in r.value.columns <==>
                        exists c :: c in Surviving(frames, remove) && d == RenameLabel(rename, c)
  {
    if |frames| == 0 then Err(NoObjectsToConcatenate)
    else
      var ts := AsTables(frames);
      AsTablesFacts(frames);
      var dropped := DropColumns(Concat(ts), remove);
      assert Elems(dropped.columns) == Surviving(frames, remove);
      var renamed := RenameColumns(dropped, rename);
      forall d ensures d in renamed.columns <==>
                         exists c :: c in Surviving(frames, remove) && d == RenameLabel(rename, c)
      {
        if d in renamed.columns {
          var i :| 0 <= i < |renamed.columns| && renamed.columns[i] == d;
          assert dropped.columns[i] in Surviving(frames, remove);
        }
        if exists c :: c in Surviving(frames, remove) && d == RenameLabel(rename, c) {
          var c :| c in Surviving(frames, remove) && d == RenameLabel(rename, c);
          var i :| 0 <= i < |dropped.columns| && dropped.columns[i] == c;
          assert renamed.columns[i] == d;
        }
      }
      Ok(renamed)
  }

  /**
   One cell of the combined table. Data row `k` of frame `i` is output row
   `RowsBefore(frames, i) + k`; under the renamed label of each surviving
   raw label it holds the frame's cell, or null where the frame lacked it.
   */
  lemma CombineCell(frames: seq<Frame>, remove: seq<string>, rename: map<string, string>,
                    i: nat, k: nat, c: Label)
    requires AllFramesOk(frames)
    requires RenameSafe(frames, remove, rename)
    requires i < |frames| && k < |frames[i].data|
    requires c in Surviving(frames, remove)
    ensures CombineDataframes(frames, remove, rename).Ok?
    ensures var t := CombineDataframes(frames, remove, rename).value;
            var n := RowsBefore(frames, i) + k;
            n < |t.rows| && RenameLabel(rename, c) in t.rows[n] &&
            t.rows[n][RenameLabel(rename, c)] ==
              (if c in frames[i].header then frames[i].data[k][IndexOf(frames[i].header, c)] else Null)
  {
    ConcatFrameCell(frames, i, k, c);
    var cat := Concat(AsTables(frames));
    var n := RowsBefore(frames, i) + k;
    var dropped := DropColumns(cat, remove);
    DroppedColumns(frames, remove);
    DropRenameCell(cat, remove, rename, n, c);
  }

  lemma DroppedColumns(frames: seq<Frame>, remove: seq<string>)
    requires AllFramesOk(frames) && |frames| > 0
    ensures Elems(DropColumns(Concat(AsTables(frames)), remove).columns) == Surviving(frames, remove)
  {
    AsTablesFacts(frames);
  }

  /** Row `k` of frame `i` in the stacked (not yet dropped or renamed) table. */
  lemma ConcatFrameCell(frames: seq<Frame>, i: nat, k: nat, c: Label)
    requires AllFramesOk(frames)
    requires i < |frames| && k < |frames[i].data|
    requires c in RawLabels(frames)
    ensures var cat := Concat(AsTables(frames));
            var n := RowsBefore(frames, i) + k;
            n < |cat.rows| && c in cat.rows[n] &&
            cat.rows[n][c] ==
              (if c in frames[i].header then frames[i].data[k][IndexOf(frames[i].header, c)] else Null)
  {
    ConcatFrameCellAt(frames, i, k, c);
    OffsetIsRowsBefore(frames, i);
  }

  /** The same cell, located by the offset of frame `i` in the stacked table. */
  lemma ConcatFrameCellAt(frames: seq<Frame>, i: nat, k: nat, c: Label)
    requires AllFramesOk(frames)
    requires i < |frames| && k < |frames[i].data|
    requires c in RawLabels(frames)
    ensures var cat := Concat(AsTables(frames));
            var n := Offset(AsTables(frames), i) + k;
            n < |cat.rows| && c in cat.rows[n] &&
            cat.rows[n][c] ==
              (if c in frames[i].header then frames[i].data[k][IndexOf(frames[i].header, c)] else Null)
  {
    var ts := AsTables(frames);
    RawLabelsAreColumns(frames);
    ConcatCell(ts, i, k, c);
    assert ts[i] == FrameToTable(frames[i]);
    FrameCell(frames[i], k, c);
  }

  lemma OffsetIsRowsBefore(frames: seq<Frame>, i: nat)
    requires AllFramesOk(frames) && i <= |frames|
    ensures Offset(AsTables(frames), i) == RowsBefore(frames, i)
  {
    AsTablesFacts(frames);
  }

  lemma RawLabelsAreColumns(frames: seq<Frame>)
    requires AllFramesOk(frames)
    ensures AllColumns(AsTables(frames)) == RawLabels(frames)
  {
    AsTablesFacts(frames);
  }


  lemma FrameCell(f: Frame, k: nat, c: Label)
    requires FrameOk(f) && k < |f.data|
    ensures c in FrameToTable(f).rows[k] <==> c in f.header
    ensures c in f.header ==> FrameToTable(f).rows[k][c] == f.data[k][IndexOf(f.header, c)]
  {
    if c in f.header {
      var j := IndexOf(f.header, c);
      assert FrameToTable(f).rows[k][f.header[j]] == f.data[k][j];
    }
  }

  lemma DropRenameCell(t: Table, remove: seq<string>, rename: map<string, string>, n: nat, c: Label)
    requires WellFormed(t) && n < |t.rows| && c in t.rows[n] && !Removed(remove, c)
    requires InjectiveOn(rename, Elems(DropColumns(t, remove).columns))
    ensures var r := RenameColumns(DropColumns(t, remove), rename);
            n < |r.rows| && RenameLabel(rename, c) in r.rows[n] &&
            r.rows[n][RenameLabel(rename, c)] == t.rows[n][c]
  {
    var dropped := DropColumns(t, remove);
    assert c in dropped.rows[n] && dropped.rows[n][c] == t.rows[n][c];
  }

  /** The position of a label in a header. */
  function IndexOf(header: seq<Label>, c: Label): (j: nat)
    requires c in header
    ensures j < |header| && header[j] == c
  {
    if header[0] == c then 0 else 1 + IndexOf(header[1..], c)
  }
}
