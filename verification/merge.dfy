/**
 `smart_merge` (functions.py): collapse the records of one person into one.

 Rows whose full name (`ФИО`) and account (`УЗ`) are both null are dropped;
 the rest are grouped by the exact pair, a null counting as an ordinary key
 value; within a group every other field takes the first value, in row
 order, that is present (not null and not whitespace-only).
 */
module Merge {
  import opened Values
  import opened Tables

  /** The full-name field of the identity key. */
  const FullName: Label := Str("ФИО")

  /** The account field of the identity key. */
  const Account: Label := Str("УЗ")

  /** The names `dropna` and `groupby` are given, in order. */
  const KeyNames: seq<string> := ["ФИО", "УЗ"]

  type Key = (Value, Value)

  predicate HasKeyColumns(row: Row) {
    FullName in row && Account in row
  }

  predicate AllHaveKeys(rows: seq<Row>) {
    forall k :: 0 <= k < |rows| ==> HasKeyColumns(rows[k])
  }

  function KeyOf(row: Row): Key
    requires HasKeyColumns(row)
  {
    (row[FullName], row[Account])
  }

  /** The pair `dropna(how='all')` keeps: at least one identity field is not null. */
  predicate Identified(row: Row) {
    HasKeyColumns(row) && !(row[FullName] == Null && row[Account] == Null)
  }

  // ---------------------------------------------------------------------------
  // Row selection
  // ---------------------------------------------------------------------------

  /** The rows that have at least one identity field, in their order. */
  function DropUnidentified(rows: seq<Row>): (r: seq<Row>)
    ensures forall k :: 0 <= k < |r| ==> Identified(r[k])
    ensures |r| <= |rows|
  {
    if |rows| == 0 then []
    else if Identified(rows[0]) then [rows[0]] + DropUnidentified(rows[1..])
    else DropUnidentified(rows[1..])
  }

  /** `dropna(subset=[ФИО, УЗ], how='all')` keeps exactly the identified rows. */
  lemma {:induction false} DropUnidentifiedMembers(rows: seq<Row>)
    ensures forall row :: row in DropUnidentified(rows) <==> row in rows && Identified(row)
  {
    if |rows| > 0 {
      DropUnidentifiedMembers(rows[1..]);
    }
  }

  /** The rows carrying identity `key`, in their order. */
  function Group(rows: seq<Row>, key: Key): (g: seq<Row>)
    requires AllHaveKeys(rows)
    ensures AllHaveKeys(g)
    ensures forall k :: 0 <= k < |g| ==> KeyOf(g[k]) == key
  {
    if |rows| == 0 then []
    else if KeyOf(rows[0]) == key then [rows[0]] + Group(rows[1..], key)
    else Group(rows[1..], key)
  }

  lemma {:induction false} GroupMembers(rows: seq<Row>, key: Key)
    requires AllHaveKeys(rows)
    ensures forall row :: row in Group(rows, key) <==> row in rows && KeyOf(row) == key
  {
    if |rows| > 0 {
      GroupMembers(rows[1..], key);
    }
  }

  /**
   Dropping the unidentified rows does not change the group of an identity
   that has a non-null field: the group keeps all its rows and their order.
   */
  lemma {:induction false} GroupOfIdentified(rows: seq<Row>, key: Key)
    requires AllHaveKeys(rows)
    requires !(key.0 == Null && key.1 == Null)
    ensures Group(DropUnidentified(rows), key) == Group(rows, key)
  {
    if |rows| > 0 {
      GroupOfIdentified(rows[1..], key);
    }
  }

  /** The identity keys of the identified rows. */
  function IdentityKeys(rows: seq<Row>): set<Key>
    requires AllHaveKeys(rows)
  {
    set k | 0 <= k < |rows| && Identified(rows[k]) :: KeyOf(rows[k])
  }

  function KeySeq(rows: seq<Row>): (ks: seq<Key>)
    requires AllHaveKeys(rows)
    ensures |ks| == |rows|
    ensures forall k :: 0 <= k < |rows| ==> ks[k] == KeyOf(rows[k])
  {
    seq(|rows|, k requires 0 <= k < |rows| => KeyOf(rows[k]))
  }

  /** Each key of `rows` once, in order of first appearance. */
  function DistinctKeys(rows: seq<Row>): (ks: seq<Key>)
    requires AllHaveKeys(rows)
    ensures Distinct(ks)
    ensures forall key :: key in ks <==> exists k :: 0 <= k < |rows| && KeyOf(rows[k]) == key
  {
    DistinctKeysMembers(rows);
    AppendNew([], KeySeq(rows))
  }

  lemma DistinctKeysMembers(rows: seq<Row>)
    requires AllHaveKeys(rows)
    ensures forall key :: key in AppendNew([], KeySeq(rows)) <==>
                          exists k :: 0 <= k < |rows| && KeyOf(rows[k]) == key
  {
    var keys := KeySeq(rows);
    var ks := AppendNew([], keys);
    forall key ensures key in ks <==> exists k :: 0 <= k < |rows| && KeyOf(rows[k]) == key {
      assert key in ks <==> key in Elems(ks);
      assert key in Elems(keys) <==> key in keys;
      if key in keys {
        var k :| 0 <= k < |keys| && keys[k] == key;
        assert KeyOf(rows[k]) == key;
      }
      if exists k :: 0 <= k < |rows| && KeyOf(rows[k]) == key {
        var k :| 0 <= k < |rows| && KeyOf(rows[k]) == key;
        assert keys[k] == key;
      }
    }
  }

  // ---------------------------------------------------------------------------
  // Field filling
  // ---------------------------------------------------------------------------

  /** `merge_group`: the first present value, or null when there is none. */
  function FirstPresent(vs: seq<Value>): (v: Value)
    ensures Present(v) || v == Null
    ensures v == Null <==> forall i :: 0 <= i < |vs| ==> !Present(vs[i])
    ensures Present(v) ==> exists i :: 0 <= i < |vs| && vs[i] == v &&
                                       forall j :: 0 <= j < i ==> !Present(vs[j])
  {
    if |vs| == 0 then Null
    else if Present(vs[0]) then vs[0]
    else
      assert forall j :: 1 <= j < |vs| ==> vs[j] == vs[1..][j - 1];
      FirstPresent(vs[1..])
  }

  /** The values of field `c` down a list of rows. */
  predicate HasColumn(rows: seq<Row>, c: Label) {
    forall k :: 0 <= k < |rows| ==> c in rows[k]
  }

  function Column(rows: seq<Row>, c: Label): (vs: seq<Value>)
    requires HasColumn(rows, c)
    ensures |vs| == |rows| && forall k :: 0 <= k < |rows| ==> vs[k] == rows[k][c]
  {
    seq(|rows|, k requires 0 <= k < |rows| => rows[k][c])
  }

  predicate HasFields(rows: seq<Row>, cols: seq<Label>) {
    forall k, c :: 0 <= k < |rows| && c in cols ==> c in rows[k]
  }

  /** The merged record of one group: its key, and the first present value of every other field. */
  function MergedRow(key: Key, others: seq<Label>, group: seq<Row>): (row: Row)
    requires HasFields(group, others)
    requires FullName !in others && Account !in others
    ensures row.Keys == {FullName, Account} + Elems(others)
    ensures row[FullName] == key.0 && row[Account] == key.1
    ensures forall c :: c in others ==> row[c] == FirstPresent(Column(group, c))
  {
    (map c | c in others :: FirstPresent(Column(group, c)))[FullName := key.0][Account := key.1]
  }

  /** The non-key columns, in order. */
  function Others(cols: seq<Label>): (r: seq<Label>)
    ensures forall c :: c in r <==> c in cols && c != FullName && c != Account
    ensures Distinct(cols) ==> Distinct(r)
  {
    KeepColumns(cols, KeyNames)
  }

  // ---------------------------------------------------------------------------
  // smart_merge
  // ---------------------------------------------------------------------------

  /**
   Why `smart_merge` raises. `dropna` names the subset labels the frame
   lacks. With no identified record left there are no groups: pandas then
   aggregates the whole frame, key columns included, and `reset_index`
   cannot insert `ФИО` a second time.
   */
  datatype MergeError = KeyError(missing: seq<Label>) | NoGroups

  function MissingKeys(cols: seq<Label>): (r: seq<Label>)
    ensures forall c :: c in r <==> (c == FullName || c == Account) && c !in cols
  {
    (if FullName in cols then [] else [FullName]) + (if Account in cols then [] else [Account])
  }

  /** The merge proper, on a frame that has both key columns. */
  function MergeRows(u: Table): (r: Table)
    requires WellFormed(u) && FullName in u.columns && Account in u.columns
    ensures WellFormed(r)
    ensures r.columns == [FullName, Account] + Others(u.columns)
    ensures AllHaveKeys(r.rows)
    ensures KeySeq(r.rows) == DistinctKeys(DropUnidentified(u.rows))
  {
    assert FullName != Account;
    AllRowsHaveKeys(u);
    var kept := DropUnidentified(u.rows);
    var keys := DistinctKeys(kept);
    var others := Others(u.columns);
    DropHasFields(u.rows, others);
    GroupsHaveFields(kept, others);
    var rows := seq(|keys|, i requires 0 <= i < |keys| => MergedRow(keys[i], others, Group(kept, keys[i])));
    assert Elems([FullName, Account] + others) == {FullName, Account} + Elems(others);
    Table([FullName, Account] + others, rows)
  }

  lemma GroupsHaveFields(rows: seq<Row>, cols: seq<Label>)
    requires AllHaveKeys(rows) && HasFields(rows, cols)
    ensures forall key :: HasFields(Group(rows, key), cols)
  {
    forall key ensures HasFields(Group(rows, key), cols) {
      GroupHasFields(rows, cols, key);
    }
  }

  lemma {:induction false} GroupHasFields(rows: seq<Row>, cols: seq<Label>, key: Key)
    requires AllHaveKeys(rows) && HasFields(rows, cols)
    ensures HasFields(Group(rows, key), cols)
  {
    if |rows| > 0 {
      GroupHasFields(rows[1..], cols, key);
    }
  }

  lemma {:induction false} DropHasFields(rows: seq<Row>, cols: seq<Label>)
    requires HasFields(rows, cols)
    ensures HasFields(DropUnidentified(rows), cols)
  {
    if |rows| > 0 {
      DropHasFields(rows[1..], cols);
    }
  }


  lemma AllRowsHaveKeys(u: Table)
    requires WellFormed(u) && FullName in u.columns && Account in u.columns
    ensures AllHaveKeys(u.rows)
    ensures forall c :: c in Others(u.columns) ==> forall k :: 0 <= k < |u.rows| ==> c in u.rows[k]
  {
  }

  /**
   `smart_merge(df, rename_map)`: rename again with the same map, fail if a
   key column is missing, otherwise one record per identity key.
   */
  function SmartMerge(t: Table, m: map<string, string>): (r: Result<Table, MergeError>)
    requires WellFormed(t) && InjectiveOn(m, Elems(t.columns))
    ensures var u := RenameColumns(t, m);
            r.Err? <==> || FullName !in u.columns || Account !in u.columns
                        || forall k :: 0 <= k < |u.rows| ==> !Identified(u.rows[k])
    ensures var u := RenameColumns(t, m);
            r.Err? ==> (r.error.KeyError? <==> FullName !in u.columns || Account !in u.columns)
    ensures var u := RenameColumns(t, m);
            r.Err? && r.error.KeyError? ==>
              forall c :: c in r.error.missing <==> (c == FullName || c == Account) && c !in u.columns
    ensures r.Ok? ==> WellFormed(r.value) && |r.value.columns| >= 2 && r.value.columns[..2] == [FullName, Account]
  {
    var u := RenameColumns(t, m);
    if FullName !in u.columns || Account !in u.columns then Err(KeyError(MissingKeys(u.columns)))
    else
      NothingIdentified(u.rows);
      if DropUnidentified(u.rows) == [] then Err(NoGroups)
      else Ok(MergeRows(u))
  }

  /** `dropna` leaves nothing exactly when no record has an identity field. */
  lemma {:induction false} NothingIdentified(rows: seq<Row>)
    ensures DropUnidentified(rows) == [] <==> forall k :: 0 <= k < |rows| ==> !Identified(rows[k])
  {
    if |rows| > 0 {
      NothingIdentified(rows[1..]);
      assert forall k :: 1 <= k < |rows| ==> rows[k] == rows[1..][k - 1];
    }
  }

  // ---------------------------------------------------------------------------
  // Properties of the merge
  // ---------------------------------------------------------------------------

  /** Every row of `rows` with an identified key, and only those, keeps its key. */
  lemma {:induction false} KeptKeys(rows: seq<Row>)
    requires AllHaveKeys(rows)
    ensures Elems(DistinctKeys(DropUnidentified(rows))) == IdentityKeys(rows)
  {
    var kept := DropUnidentified(rows);
    var ks := DistinctKeys(kept);
    DropUnidentifiedMembers(rows);
    forall key | key in ks ensures key in IdentityKeys(rows) {
      var k :| 0 <= k < |kept| && KeyOf(kept[k]) == key;
      assert kept[k] in rows;
      var j :| 0 <= j < |rows| && rows[j] == kept[k];
    }
    forall key | key in IdentityKeys(rows) ensures key in ks {
      var j :| 0 <= j < |rows| && Identified(rows[j]) && KeyOf(rows[j]) == key;
      assert rows[j] in kept;
      var k :| 0 <= k < |kept| && kept[k] == rows[j];
    }
  }

  /**
   Group coverage: the merge emits exactly one record per distinct identity
   key of the identified rows; each record carries its group's key, no
   record has two null key fields, and no key is emitted twice.
   */
  lemma MergeCoverage(u: Table)
    requires WellFormed(u) && FullName in u.columns && Account in u.columns
    ensures AllHaveKeys(u.rows)
    ensures var r := MergeRows(u);
            && |r.rows| == |IdentityKeys(u.rows)|
            && (forall i :: 0 <= i < |r.rows| ==> KeyOf(r.rows[i]) in IdentityKeys(u.rows))
            && (forall key :: key in IdentityKeys(u.rows) ==>
                  exists i :: 0 <= i < |r.rows| && KeyOf(r.rows[i]) == key)
            && (forall i :: 0 <= i < |r.rows| ==> Identified(r.rows[i]))
            && (forall i, j :: 0 <= i < j < |r.rows| ==> KeyOf(r.rows[i]) != KeyOf(r.rows[j]))
  {
    AllRowsHaveKeys(u);
    var r := MergeRows(u);
    KeyCoverage(u.rows, r.rows);
  }

  lemma {:induction false} KeyCoverage(rows: seq<Row>, out: seq<Row>)
    requires AllHaveKeys(rows) && AllHaveKeys(out)
    requires KeySeq(out) == DistinctKeys(DropUnidentified(rows))
    ensures |out| == |IdentityKeys(rows)|
    ensures forall i :: 0 <= i < |out| ==> KeyOf(out[i]) in IdentityKeys(rows)
    ensures forall key :: key in IdentityKeys(rows) ==> exists i :: 0 <= i < |out| && KeyOf(out[i]) == key
    ensures forall i :: 0 <= i < |out| ==> Identified(out[i])
    ensures forall i, j :: 0 <= i < j < |out| ==> KeyOf(out[i]) != KeyOf(out[j])
  {
    var ks := KeySeq(out);
    KeptKeys(rows);
    DistinctCardinality(ks);
    KeysInSet(out, IdentityKeys(rows));
    IdentityKeysIdentified(rows);
  }

  /** Keys listed by `out` are exactly the set `s`. */
  lemma KeysInSet(out: seq<Row>, s: set<Key>)
    requires AllHaveKeys(out) && Elems(KeySeq(out)) == s
    ensures forall i :: 0 <= i < |out| ==> KeyOf(out[i]) in s
    ensures forall key :: key in s ==> exists i :: 0 <= i < |out| && KeyOf(out[i]) == key
  {
    var ks := KeySeq(out);
    forall i | 0 <= i < |out| ensures KeyOf(out[i]) in s {
      assert ks[i] in Elems(ks);
    }
    forall key | key in s ensures exists i :: 0 <= i < |out| && KeyOf(out[i]) == key {
      var i :| 0 <= i < |ks| && ks[i] == key;
    }
  }

  /** An identity key has a non-null field. */
  lemma IdentityKeysIdentified(rows: seq<Row>)
    requires AllHaveKeys(rows)
    ensures forall key :: key in IdentityKeys(rows) ==> !(key.0 == Null && key.1 == Null)
  {
  }


  /**
   First present wins: in the record of identity `key`, every non-key field
   holds the first present value of that field among the rows with that
   key, in original row order, and null when there is none.
   */
  lemma FirstPresentWins(u: Table, i: nat, c: Label)
    requires WellFormed(u) && FullName in u.columns && Account in u.columns
    requires i < |MergeRows(u).rows|
    requires c in u.columns && c != FullName && c != Account
    ensures AllHaveKeys(u.rows)
    ensures var row := MergeRows(u).rows[i];
            HasColumn(Group(u.rows, KeyOf(row)), c) &&
            c in row && row[c] == FirstPresent(Column(Group(u.rows, KeyOf(row)), c))
  {
    MergeRowsAt(u, i);
    var kept := DropUnidentified(u.rows);
    var key := DistinctKeys(kept)[i];
    DistinctKeyIdentified(kept, i);
    GroupOfIdentified(u.rows, key);
  }

  /**
   Values are never invented: a merged non-key field is null or the value
   some row of the same identity holds in that field.
   */
  lemma MergedValueComesFromGroup(u: Table, i: nat, c: Label)
    requires WellFormed(u) && FullName in u.columns && Account in u.columns
    requires i < |MergeRows(u).rows|
    requires c in u.columns && c != FullName && c != Account
    ensures AllHaveKeys(u.rows)
    ensures var row := MergeRows(u).rows[i];
            row[c] == Null ||
            exists k :: 0 <= k < |u.rows| && KeyOf(u.rows[k]) == KeyOf(row) && u.rows[k][c] == row[c]
  {
    FirstPresentWins(u, i, c);
    var row := MergeRows(u).rows[i];
    ValueFromGroup(u.rows, KeyOf(row), c, row[c]);
  }

  /** Every distinct key of identified rows has a non-null field. */
  lemma DistinctKeyIdentified(rows: seq<Row>, i: nat)
    requires AllHaveKeys(rows) && forall k :: 0 <= k < |rows| ==> Identified(rows[k])
    requires i < |DistinctKeys(rows)|
    ensures !(DistinctKeys(rows)[i].0 == Null && DistinctKeys(rows)[i].1 == Null)
  {
    var key := DistinctKeys(rows)[i];
    assert key in DistinctKeys(rows);
    var k :| 0 <= k < |rows| && KeyOf(rows[k]) == key;
    assert Identified(rows[k]);
  }

  lemma ValueFromGroup(rows: seq<Row>, key: Key, c: Label, v: Value)
    requires AllHaveKeys(rows) && HasColumn(Group(rows, key), c)
    requires v == FirstPresent(Column(Group(rows, key), c))
    ensures v == Null || exists k :: 0 <= k < |rows| && KeyOf(rows[k]) == key && c in rows[k] && rows[k][c] == v
  {
    var g := Group(rows, key);
    if v != Null {
      var j :| 0 <= j < |g| && Column(g, c)[j] == v && forall j' :: 0 <= j' < j ==> !Present(Column(g, c)[j']);
      GroupMembers(rows, key);
      assert g[j] in rows;
      var k :| 0 <= k < |rows| && rows[k] == g[j];
    }
  }


  /** A value that stands alone keeps itself when it is already merge output. */
  lemma FirstPresentSingleton(v: Value)
    requires Present(v) || v == Null
    ensures FirstPresent([v]) == v
  {
  }

  /**
   Merging is idempotent: merging a merged table again, with a map that
   renames none of its columns, gives back the same table.
   */
  lemma MergeIdempotent(t: Table, m: map<string, string>, m2: map<string, string>)
    requires WellFormed(t) && InjectiveOn(m, Elems(t.columns))
    requires SmartMerge(t, m).Ok?
    requires forall c :: c in SmartMerge(t, m).value.columns ==> RenameLabel(m2, c) == c
    ensures var r := SmartMerge(t, m).value;
            InjectiveOn(m2, Elems(r.columns)) && SmartMerge(r, m2) == Ok(r)
  {
    var r := SmartMerge(t, m).value;
    RenameUntouchedIsIdentity(r, m2);
    assert RenameColumns(r, m2) == r;
    assert FullName in r.columns && Account in r.columns;
    var u := RenameColumns(t, m);
    MergeRowsShape(u);
    MergeOfMergedRows(r);
    // The first merge had an identified record, so the result has one too.
    var k :| 0 <= k < |u.rows| && Identified(u.rows[k]);
    MergeCoverage(u);
    assert KeyOf(u.rows[k]) in IdentityKeys(u.rows);
    assert Identified(r.rows[0]);
  }

  /** The shape of merge output: key columns first, one identified record per key, no blank fields. */
  predicate MergedShape(r: Table) {
    && WellFormed(r)
    && |r.columns| >= 2 && r.columns[..2] == [FullName, Account]
    && FullName !in r.columns[2..] && Account !in r.columns[2..]
    && AllHaveKeys(r.rows)
    && (forall i :: 0 <= i < |r.rows| ==> Identified(r.rows[i]))
    && Distinct(KeySeq(r.rows))
    && (forall i, c :: 0 <= i < |r.rows| && c in r.columns[2..] ==> Present(r.rows[i][c]) || r.rows[i][c] == Null)
  }

  /** Record `i` of the merge is the merged row of the `i`-th distinct identified key. */
  lemma MergeRowsAt(u: Table, i: nat)
    requires WellFormed(u) && FullName in u.columns && Account in u.columns
    requires i < |MergeRows(u).rows|
    ensures AllHaveKeys(u.rows)
    ensures var kept := DropUnidentified(u.rows);
            var keys := DistinctKeys(kept);
            GroupsHaveFieldsAt(kept, Others(u.columns), keys[i]) &&
            MergeRows(u).rows[i] == MergedRow(keys[i], Others(u.columns), Group(kept, keys[i]))
  {
    AllRowsHaveKeys(u);
    DropHasFields(u.rows, Others(u.columns));
    GroupsHaveFields(DropUnidentified(u.rows), Others(u.columns));
  }

  predicate GroupsHaveFieldsAt(rows: seq<Row>, cols: seq<Label>, key: Key)
    requires AllHaveKeys(rows)
  {
    HasFields(Group(rows, key), cols) && FullName !in cols && Account !in cols
  }

  /** Merge output has the merged shape. */
  lemma MergeRowsShape(u: Table)
    requires WellFormed(u) && FullName in u.columns && Account in u.columns
    ensures MergedShape(MergeRows(u))
  {
    var r := MergeRows(u);
    MergeCoverage(u);
    assert r.columns[2..] == Others(u.columns);
  }

  /** The heart of idempotence: regrouping a merged table gives every record back. */
  lemma MergeOfMergedRows(r: Table)
    requires MergedShape(r)
    ensures FullName in r.columns && Account in r.columns
    ensures MergeRows(r) == r
  {
    assert r.columns == [FullName, Account] + r.columns[2..];
    var r2 := MergeRows(r);
    // Every merged row is identified, so nothing is dropped.
    DropAllIdentified(r.rows);
    // The keys are already distinct and in order.
    var ks := KeySeq(r.rows);
    AppendNewToEmpty(ks);
    assert DistinctKeys(r.rows) == ks;
    // The non-key columns are the same, in the same order.
    var others := r.columns[2..];
    OthersOfMerged(others);
    assert r2.columns == r.columns;
    assert |r2.rows| == |r.rows|;
    forall i | 0 <= i < |r.rows| ensures r2.rows[i] == r.rows[i] {
      RemergeRow(r, i);
    }
  }

  lemma RemergeRow(r: Table, i: nat)
    requires MergedShape(r) && i < |r.rows|
    requires FullName in r.columns && Account in r.columns
    requires DropUnidentified(r.rows) == r.rows
    requires DistinctKeys(r.rows) == KeySeq(r.rows)
    requires Others(r.columns) == r.columns[2..]
    ensures |MergeRows(r).rows| == |r.rows|
    ensures MergeRows(r).rows[i] == r.rows[i]
  {
    var row := r.rows[i];
    MergeRowsAtMerged(r, i);
    GroupOfDistinct(r.rows, i);
    MergedRowFields(r, i);
    MergedRowOfSingleton(row, r.columns[2..]);
  }

  /** On merge output, record `i` of the regrouping is rebuilt from record `i`'s own group. */
  lemma MergeRowsAtMerged(r: Table, i: nat)
    requires WellFormed(r) && i < |r.rows| && AllHaveKeys(r.rows)
    requires FullName in r.columns && Account in r.columns
    requires DropUnidentified(r.rows) == r.rows
    requires DistinctKeys(r.rows) == KeySeq(r.rows)
    requires Others(r.columns) == r.columns[2..]
    ensures |MergeRows(r).rows| == |r.rows|
    ensures HasFields(Group(r.rows, KeyOf(r.rows[i])), r.columns[2..])
    ensures MergeRows(r).rows[i] == MergedRow(KeyOf(r.rows[i]), r.columns[2..], Group(r.rows, KeyOf(r.rows[i])))
  {
    MergeRowsAt(r, i);
  }

  /** The fields of record `i` of merge output: the two keys and the others, each present or null. */
  lemma MergedRowFields(r: Table, i: nat)
    requires MergedShape(r) && i < |r.rows|
    ensures var others := r.columns[2..];
            && HasKeyColumns(r.rows[i]) && FullName !in others && Account !in others
            && r.rows[i].Keys == {FullName, Account} + Elems(others)
            && forall c :: c in others ==> Present(r.rows[i][c]) || r.rows[i][c] == Null
  {
    assert r.columns == [FullName, Account] + r.columns[2..];
  }

  /** A lone record whose fields are present or null merges into itself. */
  lemma MergedRowOfSingleton(row: Row, others: seq<Label>)
    requires HasKeyColumns(row) && FullName !in others && Account !in others
    requires row.Keys == {FullName, Account} + Elems(others)
    requires forall c :: c in others ==> Present(row[c]) || row[c] == Null
    ensures HasFields([row], others)
    ensures MergedRow(KeyOf(row), others, [row]) == row
  {
    var m := MergedRow(KeyOf(row), others, [row]);
    forall c | c in others ensures m[c] == row[c] {
      SingletonColumn(row, c);
    }
    assert m.Keys == row.Keys;
  }

  lemma SingletonColumn(row: Row, c: Label)
    requires c in row && (Present(row[c]) || row[c] == Null)
    ensures HasColumn([row], c) && FirstPresent(Column([row], c)) == row[c]
  {
    assert Column([row], c) == [row[c]];
    FirstPresentSingleton(row[c]);
  }

  lemma {:induction false} DropAllIdentified(rows: seq<Row>)
    requires forall k :: 0 <= k < |rows| ==> Identified(rows[k])
    ensures DropUnidentified(rows) == rows
  {
    if |rows| > 0 {
      DropAllIdentified(rows[1..]);
      assert [rows[0]] + rows[1..] == rows;
    }
  }

  /** With pairwise distinct keys, the group of row `i`'s key is that row alone. */
  lemma {:induction false} GroupOfDistinct(rows: seq<Row>, i: nat)
    requires AllHaveKeys(rows) && Distinct(KeySeq(rows)) && i < |rows|
    ensures Group(rows, KeyOf(rows[i])) == [rows[i]]
  {
    var key := KeyOf(rows[i]);
    if i == 0 {
      NoGroup(rows[1..], key);
    } else {
      assert KeySeq(rows[1..]) == KeySeq(rows)[1..];
      GroupOfDistinct(rows[1..], i - 1);
    }
  }

  lemma {:induction false} NoGroup(rows: seq<Row>, key: Key)
    requires AllHaveKeys(rows)
    requires forall k :: 0 <= k < |rows| ==> KeyOf(rows[k]) != key
    ensures Group(rows, key) == []
  {
    if |rows| > 0 {
      NoGroup(rows[1..], key);
    }
  }

  /** The merged columns have the same non-key columns, in the same order. */
  lemma OthersOfMerged(others: seq<Label>)
    requires FullName !in others && Account !in others
    ensures Others([FullName, Account] + others) == others
  {
    var cols := [FullName, Account] + others;
    assert Removed(KeyNames, FullName) && Removed(KeyNames, Account);
    assert cols[1..] == [Account] + others;
    assert KeepColumns(cols, KeyNames) == KeepColumns(cols[1..], KeyNames);
    assert cols[1..][1..] == others;
    assert KeepColumns(cols[1..], KeyNames) == KeepColumns(others, KeyNames);
    forall c | c in others ensures !Removed(KeyNames, c) {
      assert c != FullName && c != Account;
    }
    KeepColumnsNone(others, KeyNames);
  }
}
