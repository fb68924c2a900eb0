/**
 Reading named tables out of a workbook (`load_named_table` and
 `load_all_tables_from_file` in functions.py).

 Parsing the .xlsx container is not modelled: a workbook is already a
 sequence of sheets, each holding its named tables in order, and each table
 is the rectangle of cell values its reference covers. A file that cannot be
 opened is `None`.
 */
module Workbooks {
  import opened Values

  /** A named table of a worksheet: its name and the rows of cells it covers. */
  datatype NamedRange = NamedRange(name: string, cells: seq<seq<Value>>)

  datatype Sheet = Sheet(ranges: seq<NamedRange>)

  datatype Workbook = Workbook(sheets: seq<Sheet>)

  /**
   `pd.DataFrame(values, columns=headers)` as built by the loaders: the
   header row and the data rows, still positional.
   */
  datatype Frame = Frame(header: seq<Label>, data: seq<seq<Value>>)

  datatype Cause =
    | Unreadable
    | TableNotFound(name: string)
    | NoHeaderRow(name: string)

  /** Both loaders catch every exception and re-raise it as a RuntimeError. */
  datatype LoadError = RuntimeError(cause: Cause)

  /** The ranges of all sheets, sheet by sheet, each sheet's in its own order. */
  function Flatten(sheets: seq<Sheet>): seq<NamedRange> {
    if |sheets| == 0 then [] else Flatten(sheets[..|sheets| - 1]) + sheets[|sheets| - 1].ranges
  }

  function AllRanges(wb: Workbook): seq<NamedRange> {
    Flatten(wb.sheets)
  }

  predicate NoneNamed(rs: seq<NamedRange>, name: string) {
    forall i :: 0 <= i < |rs| ==> rs[i].name != name
  }

  /** The position of the first range called `name`. */
  function FirstNamed(rs: seq<NamedRange>, name: string): (r: Option<nat>)
    ensures r.None? <==> NoneNamed(rs, name)
    ensures r.Some? ==> r.value < |rs| && rs[r.value].name == name && NoneNamed(rs[..r.value], name)
  {
    if |rs| == 0 then None
    else if rs[0].name == name then Some(0)
    else
      match FirstNamed(rs[1..], name)
      case None => None
      case Some(i) =>
        assert rs[..i + 1] == [rs[0]] + rs[1..][..i];
        Some(i + 1)
  }

  /** A range's first row is the header, the rest are data; a range without rows fails. */
  function SplitRange(rg: NamedRange): Result<Frame, LoadError> {
    if |rg.cells| == 0 then Err(RuntimeError(NoHeaderRow(rg.name)))
    else Ok(Frame(rg.cells[0], rg.cells[1..]))
  }

  /**
   `load_named_table`: the first range called `name`, searching the sheets
   in order and each sheet's ranges in order, split into header and data.
   */
  function NamedTable(source: Option<Workbook>, name: string): (r: Result<Frame, LoadError>)
    ensures source.None? ==> r == Err(RuntimeError(Unreadable))
    ensures source.Some? && NoneNamed(AllRanges(source.value), name) ==>
              r == Err(RuntimeError(TableNotFound(name)))
    ensures source.Some? && !NoneNamed(AllRanges(source.value), name) ==>
              var rs := AllRanges(source.value);
              exists i :: 0 <= i < |rs| && rs[i].name == name && NoneNamed(rs[..i], name) &&
                          (r.Ok? <==> |rs[i].cells| > 0) &&
                          (r.Ok? ==> r.value.header == rs[i].cells[0] && r.value.data == rs[i].cells[1..])
  {
    match source
    case None => Err(RuntimeError(Unreadable))
    case Some(wb) =>
      match FirstNamed(AllRanges(wb), name)
      case None => Err(RuntimeError(TableNotFound(name)))
      case Some(i) => SplitRange(AllRanges(wb)[i])
  }

  /** The ranges of sheet `s` sit between those of the sheets before and after it. */
  lemma {:induction false} FlattenSplit(sheets: seq<Sheet>, s: nat)
    requires s < |sheets|
    ensures Flatten(sheets) == Flatten(sheets[..s]) + sheets[s].ranges + Flatten(sheets[s + 1..])
    decreases |sheets|
  {
    var n := |sheets| - 1;
    var init := sheets[..n];
    assert init[..s] == sheets[..s];
    if s == n {
      assert sheets[s + 1..] == [];
    } else {
      FlattenSplit(init, s);
      var post := sheets[s + 1..];
      assert post[..|post| - 1] == init[s + 1..];
      assert post[|post| - 1] == sheets[n];
    }
  }

  /** A range with the name and none before it is the one the search finds. */
  lemma FirstNamedIs(rs: seq<NamedRange>, p: nat, name: string)
    requires p < |rs| && rs[p].name == name && NoneNamed(rs[..p], name)
    ensures FirstNamed(rs, name) == Some(p)
  {
    assert !NoneNamed(rs, name);
  }

  /** The range found at sheet `s`, position `t`, is the first of its name overall. */
  lemma FoundFirst(sheets: seq<Sheet>, s: nat, t: nat, name: string)
    requires s < |sheets| && t < |sheets[s].ranges|
    requires NoneNamed(Flatten(sheets[..s]) + sheets[s].ranges[..t], name)
    requires sheets[s].ranges[t].name == name
    ensures FirstNamed(Flatten(sheets), name) == Some(|Flatten(sheets[..s])| + t)
    ensures Flatten(sheets)[|Flatten(sheets[..s])| + t] == sheets[s].ranges[t]
  {
    var pre := Flatten(sheets[..s]);
    var ranges := sheets[s].ranges;
    FlattenSplit(sheets, s);
    var rs := Flatten(sheets);
    var p := |pre| + t;
    assert rs[p] == ranges[t];
    assert rs[..p] == pre + ranges[..t];
    FirstNamedIs(rs, p, name);
  }

  /**
   The loop of `load_named_table`, sheet by sheet and range by range; it
   computes exactly the first-match search over all ranges.
   */
  method LoadNamedTable(source: Option<Workbook>, name: string) returns (r: Result<Frame, LoadError>)
    ensures r == NamedTable(source, name)
  {
    if source.None? {
      return Err(RuntimeError(Unreadable));
    }
    var sheets := source.value.sheets;
    var s := 0;
    while s < |sheets|
      invariant 0 <= s <= |sheets|
      invariant NoneNamed(Flatten(sheets[..s]), name)
    {
      var ranges := sheets[s].ranges;
      var t := 0;
      while t < |ranges|
        invariant 0 <= t <= |ranges|
        invariant NoneNamed(Flatten(sheets[..s]) + ranges[..t], name)
      {
        if ranges[t].name == name {
          FoundFirst(sheets, s, t, name);
          return SplitRange(ranges[t]);
        }
        assert Flatten(sheets[..s]) + ranges[..t + 1] == Flatten(sheets[..s]) + ranges[..t] + [ranges[t]];
        t := t + 1;
      }
      assert sheets[..s + 1][..s] == sheets[..s];
      assert ranges[..t] == ranges;
      s := s + 1;
    }
    assert sheets[..s] == sheets;
    return Err(RuntimeError(TableNotFound(name)));
  }

  /** `frames` is `rs` split range by range into header and data. */
  predicate SplitOf(frames: seq<Frame>, rs: seq<NamedRange>) {
    && |frames| == |rs|
    && forall i :: 0 <= i < |rs| ==>
         |rs[i].cells| > 0 && frames[i] == Frame(rs[i].cells[0], rs[i].cells[1..])
  }

  predicate AllHaveRows(rs: seq<NamedRange>) {
    forall i :: 0 <= i < |rs| ==> |rs[i].cells| > 0
  }

  /**
   `load_all_tables_from_file`: one frame per range of the workbook, in
   sheet-major order; any range without a header row makes the whole call fail.
   */
  method LoadAllTables(source: Option<Workbook>) returns (r: Result<seq<Frame>, LoadError>)
    ensures source.None? ==> r == Err(RuntimeError(Unreadable))
    ensures source.Some? ==> (r.Ok? <==> AllHaveRows(AllRanges(source.value)))
    ensures r.Ok? ==> source.Some? && SplitOf(r.value, AllRanges(source.value))
    ensures r.Err? && source.Some? ==>
              exists i :: 0 <= i < |AllRanges(source.value)| &&
                          r.error == RuntimeError(NoHeaderRow(AllRanges(source.value)[i].name))
  {
    if source.None? {
      return Err(RuntimeError(Unreadable));
    }
    var sheets := source.value.sheets;
    var tables: seq<Frame> := [];
    var s := 0;
    while s < |sheets|
      invariant 0 <= s <= |sheets|
      invariant SplitOf(tables, Flatten(sheets[..s]))
    {
      var ranges := sheets[s].ranges;
      var t := 0;
      while t < |ranges|
        invariant 0 <= t <= |ranges|
        invariant SplitOf(tables, Flatten(sheets[..s]) + ranges[..t])
      {
        if |ranges[t].cells| == 0 {
          EmptyRangeIsListed(sheets, s, t);
          return Err(RuntimeError(NoHeaderRow(ranges[t].name)));
        }
        tables := tables + [Frame(ranges[t].cells[0], ranges[t].cells[1..])];
        assert Flatten(sheets[..s]) + ranges[..t + 1] == Flatten(sheets[..s]) + ranges[..t] + [ranges[t]];
        t := t + 1;
      }
      assert sheets[..s + 1][..s] == sheets[..s];
      assert ranges[..t] == ranges;
      s := s + 1;
    }
    assert sheets[..s] == sheets;
    return Ok(tables);
  }

  /** A range of sheet `s` is one of the workbook's ranges. */
  lemma EmptyRangeIsListed(sheets: seq<Sheet>, s: nat, t: nat)
    requires s < |sheets| && t < |sheets[s].ranges|
    requires |sheets[s].ranges[t].cells| == 0
    ensures !AllHaveRows(Flatten(sheets))
    ensures exists i :: 0 <= i < |Flatten(sheets)| && Flatten(sheets)[i] == sheets[s].ranges[t]
  {
    var pre := Flatten(sheets[..s]);
    FlattenSplit(sheets, s);
    assert Flatten(sheets)[|pre| + t] == sheets[s].ranges[t];
  }

  /** pandas needs a header cell per data cell, and an Excel table's headers are unique. */
  predicate FrameOk(f: Frame) {
    && Distinct(f.header)
    && forall k :: 0 <= k < |f.data| ==> |f.data[k]| == |f.header|
  }

  /** Every range is a rectangle whose first row holds unique labels, as Excel tables are. */
  predicate WellFormedWorkbook(wb: Workbook) {
    forall i :: 0 <= i < |AllRanges(wb)| ==> RangeOk(AllRanges(wb)[i])
  }

  predicate RangeOk(rg: NamedRange) {
    |rg.cells| > 0 ==>
      && Distinct(rg.cells[0])
      && forall k :: 0 < k < |rg.cells| ==> |rg.cells[k]| == |rg.cells[0]|
  }

  /** A table loaded from a well-formed workbook is a well-formed frame. */
  lemma NamedTableOk(source: Option<Workbook>, name: string)
    requires source.Some? ==> WellFormedWorkbook(source.value)
    ensures NamedTable(source, name).Ok? ==> FrameOk(NamedTable(source, name).value)
  {
    if source.Some? {
      var rs := AllRanges(source.value);
      match FirstNamed(rs, name)
      case None =>
      case Some(i) =>
        assert RangeOk(rs[i]);
    }
  }
}
