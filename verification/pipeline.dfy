/**
 The batch run of main.py: pick the workbooks of the input folder that
 belong to a configured module, load and combine each one's tables, stack
 all of them, merge the records of each person, then apply the value
 replacements.

 The folder listing is a parameter (its order is whatever the file system
 gives), each listed file carries its parsed contents or `None` when it
 cannot be opened, and the configuration document is an immutable value.
 Writing the snapshots is not modelled; the tables that would be written
 are part of the result.
 */
module Pipeline {
  import opened Values
  import opened Tables
  import opened Workbooks
  import opened Combine
  import opened Merge
  import opened Replace

  /** `MODULES[key]`: the tables to read from a matching file and the raw columns to drop. */
  datatype ModuleConfig = ModuleConfig(tableNames: seq<string>, columnsToRemove: seq<string>)

  /** `RENAME_MAP`, `REPLACE_ENERGYMAIN` and `MODULES`, the latter in document order. */
  datatype Config = Config(renameMap: map<string, string>, replacements: ReplaceDict,
                           modules: seq<(string, ModuleConfig)>)

  /** A file of the input folder: its name and its contents, `None` when it cannot be opened. */
  datatype InputFile = InputFile(name: string, contents: Option<Workbook>)

  /** Why a file contributes nothing; each case is only reported. */
  datatype SkipReason =
    | NotWorkbook     // the name does not end in ".xlsx"
    | Excluded        // a lock file, a log, or an earlier output
    | NoModule        // no configured key occurs in the name
    | NoTables        // the module lists no tables

  /** The per-module result of one file: the table written as its snapshot. */
  datatype Contribution = Contribution(key: string, table: Table)

  datatype FileOutcome = Skipped(reason: SkipReason) | Contributed(c: Contribution)

  /** Conditions that end the run; none of them is caught by the script. */
  datatype RunError =
    | LoadFailed(file: string, error: LoadError)
    | CombineCollision(file: string)      // renaming would give two columns one label
    | MergeCollision                      // the same, at the rename inside the merge
    | MergeFailed(keyError: MergeError)

  datatype RunOutput =
    | NoData                              // "nothing to combine": the script exits
    | Done(snapshots: seq<Contribution>, premerge: Table, final: Table)

  // ---------------------------------------------------------------------------
  // Choosing the files
  // ---------------------------------------------------------------------------

  predicate EndsWith(s: string, suffix: string) {
    |suffix| <= |s| && s[|s| - |suffix|..] == suffix
  }

  /** `part` occurs in `s` starting at position `i`. */
  predicate OccursAt(s: string, part: string, i: int) {
    0 <= i && i + |part| <= |s| && s[i..i + |part|] == part
  }

  /** Python's `part in s` for strings. */
  predicate Contains(s: string, part: string) {
    exists i :: 0 <= i <= |s| && OccursAt(s, part, i)
  }

  /** The name filter of the main loop: an .xlsx file that is no lock file, log or output. */
  predicate Considered(name: string) {
    && EndsWith(name, ".xlsx")
    && !Contains(name, "~$")
    && !Contains(name, "log")
    && !Contains(name, "Обработано")
  }

  /** `next(key for key in MODULES if key in filename)`: the first key occurring in the name. */
  function FindModule(modules: seq<(string, ModuleConfig)>, name: string): (r: Option<nat>)
    ensures r.None? <==> forall i :: 0 <= i < |modules| ==> !Contains(name, modules[i].0)
    ensures r.Some? ==> r.value < |modules| && Contains(name, modules[r.value].0) &&
                        forall j :: 0 <= j < r.value ==> !Contains(name, modules[j].0)
  {
    if |modules| == 0 then None
    else if Contains(name, modules[0].0) then Some(0)
    else
      assert forall j :: 1 <= j < |modules| ==> modules[j] == modules[1..][j - 1];
      match FindModule(modules[1..], name)
      case None => None
      case Some(i) => Some(i + 1)
  }

  /** The empty string occurs in every name. */
  lemma EmptyKeyMatchesAll(name: string)
    ensures Contains(name, "")
  {
    assert OccursAt(name, "", 0);
  }

  /**
   The module a considered file belongs to: `if not module_key` skips both a
   missing key and an empty one, so a file whose first matching key is ""
   is skipped even when a later key would match.
   */
  function ModuleOf(cfg: Config, name: string): (r: Option<(string, ModuleConfig)>)
    ensures var i := FindModule(cfg.modules, name);
            r.Some? <==> i.Some? && cfg.modules[i.value].0 != ""
    ensures var i := FindModule(cfg.modules, name);
            r.Some? ==> r.value == cfg.modules[i.value]
    ensures r.Some? ==> r.value.0 != "" && Contains(name, r.value.0) && r.value in cfg.modules
  {
    match FindModule(cfg.modules, name)
    case None => None
    case Some(i) => if cfg.modules[i].0 == "" then None else Some(cfg.modules[i])
  }

  // ---------------------------------------------------------------------------
  // One file
  // ---------------------------------------------------------------------------

  /** All the values, or the first error, of a list of load results. */
  function AllLoaded(rs: seq<Result<Frame, LoadError>>): (r: Result<seq<Frame>, LoadError>)
    ensures r.Ok? <==> forall i :: 0 <= i < |rs| ==> rs[i].Ok?
    ensures r.Ok? ==> |r.value| == |rs| && forall i :: 0 <= i < |rs| ==> rs[i] == Ok(r.value[i])
    ensures r.Err? ==> exists i :: 0 <= i < |rs| && rs[i] == Err(r.error) &&
                                   forall j :: 0 <= j < i ==> rs[j].Ok?
  {
    if |rs| == 0 then Ok([])
    else
      assert forall j :: 1 <= j < |rs| ==> rs[j] == rs[1..][j - 1];
      match rs[0]
      case Err(e) => Err(e)
      case Ok(f) =>
        match AllLoaded(rs[1..])
        case Err(e) => Err(e)
        case Ok(fs) => Ok([f] + fs)
  }

  /**
   The inner loop over `table_names`: every table is loaded in order, and
   the first failure (an unreadable file, a missing table) ends everything.
   Loading has no side effects, so this is the first error among the
   results of loading every name.
   */
  function LoadTables(source: Option<Workbook>, names: seq<string>): (r: Result<seq<Frame>, LoadError>)
    ensures r.Ok? <==> forall i :: 0 <= i < |names| ==> NamedTable(source, names[i]).Ok?
    ensures r.Ok? ==> |r.value| == |names| &&
                      forall i :: 0 <= i < |names| ==> NamedTable(source, names[i]) == Ok(r.value[i])
    ensures r.Err? ==> exists i :: 0 <= i < |names| && NamedTable(source, names[i]) == Err(r.error) &&
                                   forall j :: 0 <= j < i ==> NamedTable(source, names[j]).Ok?
  {
    var rs := seq(|names|, i requires 0 <= i < |names| => NamedTable(source, names[i]));
    assert |rs| == |names| && forall i :: 0 <= i < |names| ==> rs[i] == NamedTable(source, names[i]);
    AllLoaded(rs)
  }

  /** Tables loaded from a well-formed workbook are well-formed frames. */
  lemma LoadedFramesOk(source: Option<Workbook>, names: seq<string>)
    requires source.Some? ==> WellFormedWorkbook(source.value)
    ensures LoadTables(source, names).Ok? ==> AllFramesOk(LoadTables(source, names).value)
  {
    var r := LoadTables(source, names);
    if r.Ok? {
      forall i | 0 <= i < |r.value| ensures FrameOk(r.value[i]) {
        NamedTableOk(source, names[i]);
      }
    }
  }

  /** Excel keeps a table's header cells unique and its rows rectangular. */
  predicate FileOk(f: InputFile) {
    f.contents.Some? ==> WellFormedWorkbook(f.contents.value)
  }

  /** One pass of the main loop. */
  function ProcessFile(cfg: Config, f: InputFile): (r: Result<FileOutcome, RunError>)
    requires FileOk(f)
    ensures !Considered(f.name) ==> r.Ok? && r.value.Skipped?
    ensures Considered(f.name) && ModuleOf(cfg, f.name).None? ==> r == Ok(Skipped(NoModule))
    ensures r.Ok? && r.value.Contributed? ==>
              && Considered(f.name)
              && ModuleOf(cfg, f.name).Some?
              && r.value.c.key == ModuleOf(cfg, f.name).value.0
              && |ModuleOf(cfg, f.name).value.1.tableNames| > 0
              && WellFormed(r.value.c.table)
    ensures r.Err? && r.error.LoadFailed? ==>
              r.error.file == f.name &&
              exists name :: name in ModuleOf(cfg, f.name).value.1.tableNames &&
                             NamedTable(f.contents, name) == Err(r.error.error)
  {
    if !EndsWith(f.name, ".xlsx") then Ok(Skipped(NotWorkbook))
    else if Contains(f.name, "~$") || Contains(f.name, "log") || Contains(f.name, "Обработано") then
      Ok(Skipped(Excluded))
    else
      match ModuleOf(cfg, f.name)
      case None => Ok(Skipped(NoModule))
      case Some((key, mc)) =>
        LoadedFramesOk(f.contents, mc.tableNames);
        match LoadTables(f.contents, mc.tableNames)
        case Err(e) => Err(LoadFailed(f.name, e))
        case Ok(frames) =>
          if |frames| == 0 then Ok(Skipped(NoTables))
          else if !RenameSafe(frames, mc.columnsToRemove, cfg.renameMap) then Err(CombineCollision(f.name))
          else Ok(Contributed(Contribution(key, CombineDataframes(frames, mc.columnsToRemove, cfg.renameMap).value)))
  }

  /**
   What a module file yields: a contributed table is `combine_dataframes` of
   the module's tables loaded in order, and a failed load fails the file
   with the first failing table's error.
   */
  lemma ProcessedTable(cfg: Config, f: InputFile)
    requires FileOk(f) && Considered(f.name) && ModuleOf(cfg, f.name).Some?
    ensures var r := ProcessFile(cfg, f);
            var mc := ModuleOf(cfg, f.name).value.1;
            var loaded := LoadTables(f.contents, mc.tableNames);
            && (loaded.Err? ==> r == Err(LoadFailed(f.name, loaded.error)))
            && (r.Ok? && r.value.Contributed? ==>
                  && loaded.Ok? && AllFramesOk(loaded.value)
                  && RenameSafe(loaded.value, mc.columnsToRemove, cfg.renameMap)
                  && CombineDataframes(loaded.value, mc.columnsToRemove, cfg.renameMap) == Ok(r.value.c.table))
  {
    var mc := ModuleOf(cfg, f.name).value.1;
    LoadedFramesOk(f.contents, mc.tableNames);
  }

  // ---------------------------------------------------------------------------
  // The whole folder
  // ---------------------------------------------------------------------------

  predicate AllFilesOk(files: seq<InputFile>) {
    forall i :: 0 <= i < |files| ==> FileOk(files[i])
  }

  predicate SkippedFile(cfg: Config, f: InputFile)
    requires FileOk(f)
  {
    ProcessFile(cfg, f).Ok? && ProcessFile(cfg, f).value.Skipped?
  }

  function TablesOf(cs: seq<Contribution>): (ts: seq<Table>)
    ensures |ts| == |cs| && forall i :: 0 <= i < |cs| ==> ts[i] == cs[i].table
  {
    seq(|cs|, i requires 0 <= i < |cs| => cs[i].table)
  }

  /** The main loop: the contributions in folder order; the first error ends the run. */
  function CollectTables(cfg: Config, files: seq<InputFile>): (r: Result<seq<Contribution>, RunError>)
    requires AllFilesOk(files)
    ensures r.Ok? ==> |r.value| <= |files|
  {
    if |files| == 0 then Ok([])
    else
      match ProcessFile(cfg, files[0])
      case Err(e) => Err(e)
      case Ok(Skipped(_)) => CollectTables(cfg, files[1..])
      case Ok(Contributed(c)) =>
        match CollectTables(cfg, files[1..])
        case Err(e) => Err(e)
        case Ok(cs) => Ok([c] + cs)
  }

  /** What the loop does with each file, in listing order. */
  function Outcomes(cfg: Config, files: seq<InputFile>): (outs: seq<Result<FileOutcome, RunError>>)
    requires AllFilesOk(files)
    ensures |outs| == |files|
    ensures forall i :: 0 <= i < |files| ==> outs[i] == ProcessFile(cfg, files[i])
  {
    seq(|files|, i requires 0 <= i < |files| => ProcessFile(cfg, files[i]))
  }

  /** The loop over given outcomes: contributions in order, the first error ends it. */
  function Gather(outs: seq<Result<FileOutcome, RunError>>): Result<seq<Contribution>, RunError> {
    if |outs| == 0 then Ok([])
    else
      match outs[0]
      case Err(e) => Err(e)
      case Ok(Skipped(_)) => Gather(outs[1..])
      case Ok(Contributed(c)) =>
        match Gather(outs[1..])
        case Err(e) => Err(e)
        case Ok(cs) => Ok([c] + cs)
  }

  /** The folder loop is the loop over the files' outcomes. */
  lemma {:induction false} CollectIsGather(cfg: Config, files: seq<InputFile>)
    requires AllFilesOk(files)
    ensures CollectTables(cfg, files) == Gather(Outcomes(cfg, files))
  {
    if |files| > 0 {
      var tail := files[1..];
      assert AllFilesOk(tail);
      CollectIsGather(cfg, tail);
      assert Outcomes(cfg, files)[1..] == Outcomes(cfg, tail);
    }
  }

  predicate IsContribution(o: Result<FileOutcome, RunError>) {
    o.Ok? && o.value.Contributed?
  }

  /** How many of the first `i` outcomes are contributions. */
  function ContributedBefore(outs: seq<Result<FileOutcome, RunError>>, i: nat): nat
    requires i <= |outs|
  {
    if i == 0 then 0
    else (if IsContribution(outs[0]) then 1 else 0) + ContributedBefore(outs[1..], i - 1)
  }

  /** One contribution per contributing outcome. */
  lemma {:induction false} GatherCount(outs: seq<Result<FileOutcome, RunError>>)
    requires Gather(outs).Ok?
    ensures |Gather(outs).value| == ContributedBefore(outs, |outs|)
  {
    if |outs| > 0 {
      GatherCount(outs[1..]);
    }
  }

  /** A contribution sits after those of the outcomes before it. */
  lemma {:induction false} GatherPosition(outs: seq<Result<FileOutcome, RunError>>, i: nat)
    requires Gather(outs).Ok? && i < |outs| && IsContribution(outs[i])
    ensures ContributedBefore(outs, i) < |Gather(outs).value|
    ensures Gather(outs).value[ContributedBefore(outs, i)] == outs[i].value.c
  {
    if i > 0 {
      assert outs[i] == outs[1..][i - 1];
      GatherPosition(outs[1..], i - 1);
    }
  }

  /**
   The collected contributions are those of the contributing files, in
   listing order: one per contributing file, and the contribution of a file
   comes right after those of the contributing files listed before it.
   */
  lemma CollectOrder(cfg: Config, files: seq<InputFile>)
    requires AllFilesOk(files) && CollectTables(cfg, files).Ok?
    ensures var cs := CollectTables(cfg, files).value;
            var outs := Outcomes(cfg, files);
            && |cs| == ContributedBefore(outs, |files|)
            && forall i :: 0 <= i < |files| && IsContribution(ProcessFile(cfg, files[i])) ==>
                 ContributedBefore(outs, i) < |cs| &&
                 cs[ContributedBefore(outs, i)] == ProcessFile(cfg, files[i]).value.c
  {
    var outs := Outcomes(cfg, files);
    CollectIsGather(cfg, files);
    GatherCount(outs);
    forall i | 0 <= i < |files| && IsContribution(ProcessFile(cfg, files[i]))
      ensures ContributedBefore(outs, i) < |Gather(outs).value| &&
              Gather(outs).value[ContributedBefore(outs, i)] == ProcessFile(cfg, files[i]).value.c
    {
      GatherPosition(outs, i);
    }
  }

  /** Every collected table is well-formed. */
  lemma CollectWellFormed(cfg: Config, files: seq<InputFile>)
    requires AllFilesOk(files) && CollectTables(cfg, files).Ok?
    ensures AllWellFormed(TablesOf(CollectTables(cfg, files).value))
  {
    var outs := Outcomes(cfg, files);
    CollectIsGather(cfg, files);
    GatherWellFormed(outs);
  }

  lemma {:induction false} GatherWellFormed(outs: seq<Result<FileOutcome, RunError>>)
    requires forall i :: 0 <= i < |outs| && IsContribution(outs[i]) ==> WellFormed(outs[i].value.c.table)
    ensures Gather(outs).Ok? ==> AllWellFormed(TablesOf(Gather(outs).value))
  {
    if |outs| > 0 {
      var tail := outs[1..];
      assert forall j :: 1 <= j < |outs| ==> outs[j] == tail[j - 1];
      GatherWellFormed(tail);
    }
  }

  /** The run fails exactly when some file fails, and then with the first file's error. */
  lemma CollectErrors(cfg: Config, files: seq<InputFile>)
    requires AllFilesOk(files)
    ensures var r := CollectTables(cfg, files);
            && (r.Ok? <==> forall i :: 0 <= i < |files| ==> ProcessFile(cfg, files[i]).Ok?)
            && (r.Err? ==> exists i :: 0 <= i < |files| && ProcessFile(cfg, files[i]) == Err(r.error) &&
                                       forall j :: 0 <= j < i ==> ProcessFile(cfg, files[j]).Ok?)
  {
    var outs := Outcomes(cfg, files);
    CollectIsGather(cfg, files);
    GatherErrors(outs);
  }

  lemma {:induction false} GatherErrors(outs: seq<Result<FileOutcome, RunError>>)
    ensures var r := Gather(outs);
            && (r.Ok? <==> forall i :: 0 <= i < |outs| ==> outs[i].Ok?)
            && (r.Err? ==> exists i :: 0 <= i < |outs| && outs[i] == Err(r.error) &&
                                       forall j :: 0 <= j < i ==> outs[j].Ok?)
  {
    if |outs| > 0 {
      var tail := outs[1..];
      assert forall j :: 1 <= j < |outs| ==> outs[j] == tail[j - 1];
      GatherErrors(tail);
    }
  }

  /** Nothing is collected exactly when every file is skipped. */
  lemma CollectNothing(cfg: Config, files: seq<InputFile>)
    requires AllFilesOk(files)
    ensures CollectTables(cfg, files) == Ok([]) <==> forall i :: 0 <= i < |files| ==> SkippedFile(cfg, files[i])
  {
    var outs := Outcomes(cfg, files);
    CollectIsGather(cfg, files);
    GatherNothing(outs);
  }

  lemma {:induction false} GatherNothing(outs: seq<Result<FileOutcome, RunError>>)
    ensures Gather(outs) == Ok([]) <==> forall i :: 0 <= i < |outs| ==> outs[i].Ok? && outs[i].value.Skipped?
  {
    if |outs| > 0 {
      var tail := outs[1..];
      assert forall j :: 1 <= j < |outs| ==> outs[j] == tail[j - 1];
      GatherNothing(tail);
    }
  }

  /**
   The run: stack every contribution (`pd.concat`), merge with the rename
   map, then apply the replacements to the merged table.
   */
  function Run(cfg: Config, files: seq<InputFile>): (r: Result<RunOutput, RunError>)
    requires AllFilesOk(files)
    ensures r == Ok(NoData) <==> CollectTables(cfg, files) == Ok([])
    ensures r.Err? ==> CollectTables(cfg, files).Err? || r.error.MergeCollision? || r.error.MergeFailed?
    ensures r.Ok? && r.value.Done? ==>
              && |r.value.snapshots| > 0
              && WellFormed(r.value.premerge)
              && CollectTables(cfg, files) == Ok(r.value.snapshots)
              && r.value.premerge == Concat(TablesOf(r.value.snapshots))
              && |r.value.premerge.rows| == TotalRows(TablesOf(r.value.snapshots))
              && InjectiveOn(cfg.renameMap, Elems(r.value.premerge.columns))
              && SmartMerge(r.value.premerge, cfg.renameMap).Ok?
              && r.value.final == ApplyReplacements(SmartMerge(r.value.premerge, cfg.renameMap).value, cfg.replacements)
              && WellFormed(r.value.final)
              && |r.value.final.columns| >= 2 && r.value.final.columns[..2] == [FullName, Account]
  {
    match CollectTables(cfg, files)
    case Err(e) => Err(e)
    case Ok(cs) =>
      CollectWellFormed(cfg, files);
      if cs == [] then Ok(NoData)
      else
        var premerge := Concat(TablesOf(cs));
        if !InjectiveOn(cfg.renameMap, Elems(premerge.columns)) then Err(MergeCollision)
        else
          match SmartMerge(premerge, cfg.renameMap)
          case Err(e) => Err(MergeFailed(e))
          case Ok(merged) => Ok(Done(cs, premerge, ApplyReplacements(merged, cfg.replacements)))
  }

  // ---------------------------------------------------------------------------
  // Properties of the run
  // ---------------------------------------------------------------------------

  /** A skipped file can be taken out of the folder without changing anything the run collects. */
  lemma {:induction false} SkippedFileIsInert(cfg: Config, files: seq<InputFile>, i: nat)
    requires AllFilesOk(files) && i < |files| && SkippedFile(cfg, files[i])
    ensures AllFilesOk(files[..i] + files[i + 1..])
    ensures CollectTables(cfg, files) == CollectTables(cfg, files[..i] + files[i + 1..])
    decreases i
  {
    var rest := files[..i] + files[i + 1..];
    if i == 0 {
      assert rest == files[1..];
    } else {
      var tail := files[1..];
      assert tail[..i - 1] + tail[i..] == rest[1..];
      assert rest[0] == files[0];
      SkippedFileIsInert(cfg, tail, i - 1);
    }
  }

  /**
   End to end: each field of the final roster other than the key is the first
   present value of that field among the records of the person, in stacking
   order, then run through the replacements for its column.
   */
  lemma FinalField(cfg: Config, files: seq<InputFile>, i: nat, c: Label)
    requires AllFilesOk(files)
    requires Run(cfg, files).Ok? && Run(cfg, files).value.Done?
    requires i < |Run(cfg, files).value.final.rows|
    ensures var out := Run(cfg, files).value;
            var u := RenameColumns(out.premerge, cfg.renameMap);
            c in u.columns && c != FullName && c != Account ==>
              && AllHaveKeys(u.rows)
              && var key := KeyOf(MergeRows(u).rows[i]);
                 HasColumn(Group(u.rows, key), c) &&
                 out.final.rows[i][c] ==
                   ReplaceValue(FirstPresent(Column(Group(u.rows, key), c)), PairsFor(cfg.replacements, c))
  {
    var out := Run(cfg, files).value;
    var u := RenameColumns(out.premerge, cfg.renameMap);
    if c in u.columns && c != FullName && c != Account {
      var merged := MergeRows(u);
      FirstPresentWins(u, i, c);
      ReplacementCell(merged, cfg.replacements, i, c);
    }
  }

  /**
   Group coverage of the run: the final roster has one record per distinct
   identity key of the stacked, renamed records (replacements change values,
   never the number of records).
   */
  lemma FinalCoverage(cfg: Config, files: seq<InputFile>)
    requires AllFilesOk(files)
    requires Run(cfg, files).Ok? && Run(cfg, files).value.Done?
    ensures var out := Run(cfg, files).value;
            var u := RenameColumns(out.premerge, cfg.renameMap);
            AllHaveKeys(u.rows) && |out.final.rows| == |IdentityKeys(u.rows)|
  {
    var out := Run(cfg, files).value;
    var u := RenameColumns(out.premerge, cfg.renameMap);
    MergeCoverage(u);
  }

  /**
   A file that fails (a missing table, an unreadable workbook, a rename
   collision) ends the whole run: `load_named_table` raises instead of
   returning `None`, so no later file is looked at and nothing is merged.
   */
  lemma RunAborts(cfg: Config, files: seq<InputFile>, i: nat)
    requires AllFilesOk(files) && i < |files| && ProcessFile(cfg, files[i]).Err?
    ensures Run(cfg, files).Err?
  {
    CollectErrors(cfg, files);
  }

  /** The run stops with nothing to combine exactly when every file of the folder is skipped. */
  lemma RunNoData(cfg: Config, files: seq<InputFile>)
    requires AllFilesOk(files)
    ensures Run(cfg, files) == Ok(NoData) <==> forall i :: 0 <= i < |files| ==> SkippedFile(cfg, files[i])
  {
    CollectNothing(cfg, files);
  }

  /** The personnel-number column of the example. */
  const Number: Label := Str("Табельный номер")

  /** Two people who differ only in the full name, as merge output. */
  function TwoPeople(): Table {
    Table([FullName, Account, Number], [map[FullName := Str("A"), Account := Null, Number := Num(1)],
                                        map[FullName := Str("B"), Account := Null, Number := Num(2)]])
  }

  /** Replace the full name `B` by `A`. */
  function RenameBToA(): ReplaceDict {
    [("ФИО", [("B", Str("A"))])]
  }

  /**
   Replacing after the merge can bring two records back to one key: two
   people merged apart, then the replacement of `B` by `A` in the full-name
   column leaves two records for `(A, null)`. Replacing before the merge
   would have produced one.
   */
  lemma ReplacementAfterMergeExample()
    ensures WellFormed(TwoPeople()) && SmartMerge(TwoPeople(), map[]) == Ok(TwoPeople())
    ensures var out := ApplyReplacements(TwoPeople(), RenameBToA());
            && |out.rows| == 2 && AllHaveKeys(out.rows)
            && KeyOf(out.rows[0]) == KeyOf(out.rows[1])
            && |MergeRows(out).rows| == 1
  {
    TwoPeopleMerged();
    TwoPeopleReplaced();
    MergeOfReplaced();
  }

  /** The replaced table merges into a single record. */
  lemma MergeOfReplaced()
    requires var out := ApplyReplacements(TwoPeople(), RenameBToA());
             && WellFormed(out) && out.columns == TwoPeople().columns && |out.rows| == 2
             && forall k :: 0 <= k < 2 ==> out.rows[k][FullName] == Str("A") && out.rows[k][Account] == Null
    ensures |MergeRows(ApplyReplacements(TwoPeople(), RenameBToA())).rows| == 1
  {
    var out := ApplyReplacements(TwoPeople(), RenameBToA());
    MergeCoverage(out);
    OneKey(out.rows);
  }

  lemma TwoPeopleMerged()
    ensures WellFormed(TwoPeople()) && SmartMerge(TwoPeople(), map[]) == Ok(TwoPeople())
  {
    var r := TwoPeople();
    TwoPeopleShape();
    MergeOfMergedRows(r);
    RenameUntouchedIsIdentity(r, map[]);
    assert Identified(r.rows[0]);
  }

  lemma TwoPeopleShape()
    ensures MergedShape(TwoPeople())
  {
    TwoPeopleWellFormed();
    TwoPeopleKeys();
    TwoPeopleFields();
  }

  lemma TwoPeopleWellFormed()
    ensures WellFormed(TwoPeople())
    ensures TwoPeople().columns[..2] == [FullName, Account] && TwoPeople().columns[2..] == [Number]
    ensures FullName !in TwoPeople().columns[2..] && Account !in TwoPeople().columns[2..]
  {
    var r := TwoPeople();
    assert FullName != Account && FullName != Number && Account != Number;
    assert Elems(r.columns) == {FullName, Account, Number};
  }

  lemma TwoPeopleKeys()
    ensures AllHaveKeys(TwoPeople().rows)
    ensures forall i :: 0 <= i < |TwoPeople().rows| ==> Identified(TwoPeople().rows[i])
    ensures Distinct(KeySeq(TwoPeople().rows))
  {
    var r := TwoPeople();
    assert KeySeq(r.rows) == [(Str("A"), Null), (Str("B"), Null)];
  }

  lemma TwoPeopleFields()
    ensures forall i, c :: 0 <= i < |TwoPeople().rows| && c in TwoPeople().columns[2..] ==>
              c in TwoPeople().rows[i] && TwoPeople().rows[i][c].Num?
  {
    var r := TwoPeople();
    assert r.columns[2..] == [Number];
  }

  lemma TwoPeopleReplaced()
    ensures var out := ApplyReplacements(TwoPeople(), RenameBToA());
            && WellFormed(out) && out.columns == TwoPeople().columns && |out.rows| == 2
            && forall k :: 0 <= k < 2 ==> out.rows[k][FullName] == Str("A") && out.rows[k][Account] == Null
  {
    RenameBToAPairs();
    TwoPeopleRowReplaced(0);
    TwoPeopleRowReplaced(1);
  }

  lemma RenameBToAPairs()
    ensures PairsFor(RenameBToA(), FullName) == [("B", Str("A"))]
    ensures PairsFor(RenameBToA(), Account) == []
  {
    assert FullName != Account;
  }

  lemma TwoPeopleRowReplaced(k: nat)
    requires k < 2
    requires PairsFor(RenameBToA(), FullName) == [("B", Str("A"))]
    requires PairsFor(RenameBToA(), Account) == []
    ensures ApplyReplacements(TwoPeople(), RenameBToA()).rows[k][FullName] == Str("A")
    ensures ApplyReplacements(TwoPeople(), RenameBToA()).rows[k][Account] == Null
  {
    var r := TwoPeople();
    var d := RenameBToA();
    ReplacementCell(r, d, k, FullName);
    ReplacementCell(r, d, k, Account);
  }

  lemma OneKey(rows: seq<Row>)
    requires |rows| == 2 && AllHaveKeys(rows)
    requires forall k :: 0 <= k < 2 ==> rows[k][FullName] == Str("A") && rows[k][Account] == Null
    ensures IdentityKeys(rows) == {(Str("A"), Null)}
  {
    assert Identified(rows[0]);
  }
}
