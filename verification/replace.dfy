/**
 `apply_replacements` (functions.py): per-column value substitution.

 The replacement table maps a column name to an ordered list of
 (old value, new value) pairs. The names and old values are JSON object
 keys, hence strings; a new value may be any cell value. For each named
 column that exists, the pairs are applied one after another to the whole
 column, so a value produced by one pair can be matched by a later pair of
 the same column. A string key never equals a number or a null cell.
 */
module Replace {
  import opened Values
  import opened Tables

  /** The (old value, new value) pairs of one column, in dictionary order. */
  type Pairs = seq<(string, Value)>

  /** The replacement table: column name and its pairs, in dictionary order. */
  type ReplaceDict = seq<(string, Pairs)>

  /** `df[column] == old_value` for one cell. */
  predicate Matches(v: Value, key: string) {
    v == Str(key)
  }

  /** One cell after the pairs have been applied in order, each to the current value. */
  function ReplaceValue(v: Value, ps: Pairs): Value
    decreases |ps|
  {
    if |ps| == 0 then v
    else ReplaceValue(if Matches(v, ps[0].0) then ps[0].1 else v, ps[1..])
  }

  /** Applying two lists of pairs one after the other is applying their concatenation. */
  lemma {:induction false} ReplaceCompose(v: Value, p1: Pairs, p2: Pairs)
    ensures ReplaceValue(ReplaceValue(v, p1), p2) == ReplaceValue(v, p1 + p2)
    decreases |p1|
  {
    if |p1| > 0 {
      assert (p1 + p2)[1..] == p1[1..] + p2;
      ReplaceCompose(if Matches(v, p1[0].0) then p1[0].1 else v, p1[1..], p2);
    } else {
      assert p1 + p2 == p2;
    }
  }

  /** A value that matches no old value is left alone. */
  lemma {:induction false} ReplaceNoMatch(v: Value, ps: Pairs)
    requires forall i :: 0 <= i < |ps| ==> !Matches(v, ps[i].0)
    ensures ReplaceValue(v, ps) == v
    decreases |ps|
  {
    if |ps| > 0 {
      assert forall i :: 0 <= i < |ps| - 1 ==> ps[1..][i] == ps[i + 1];
      ReplaceNoMatch(v, ps[1..]);
    }
  }

  /** Nulls and numbers are never replaced. */
  lemma {:induction false} NonStringsKept(v: Value, ps: Pairs)
    requires !v.Str?
    ensures ReplaceValue(v, ps) == v
  {
    ReplaceNoMatch(v, ps);
  }

  /** Dictionary lookup: the new value of the first pair whose old value is `s`. */
  function Lookup(ps: Pairs, s: string): (r: Option<Value>)
    ensures r.None? <==> forall i :: 0 <= i < |ps| ==> ps[i].0 != s
    ensures r.Some? ==> exists i :: 0 <= i < |ps| && ps[i].0 == s && r.value == ps[i].1 &&
                                    forall j :: 0 <= j < i ==> ps[j].0 != s
  {
    if |ps| == 0 then None
    else if ps[0].0 == s then Some(ps[0].1)
    else
      assert forall j :: 1 <= j < |ps| ==> ps[j] == ps[1..][j - 1];
      Lookup(ps[1..], s)
  }

  /** No new value is the old value of a later pair, so nothing can be replaced twice. */
  predicate NoChain(ps: Pairs) {
    forall i, j :: 0 <= i < j < |ps| ==> !Matches(ps[i].1, ps[j].0)
  }

  /**
   Without chains, replacing is a plain dictionary lookup: a string with an
   entry becomes that entry's new value, every other value stays.
   */
  lemma {:induction false} ReplaceIsLookup(v: Value, ps: Pairs)
    requires NoChain(ps)
    ensures ReplaceValue(v, ps) == if v.Str? && Lookup(ps, v.s).Some? then Lookup(ps, v.s).value else v
    decreases |ps|
  {
    if |ps| > 0 {
      var rest := ps[1..];
      assert NoChain(rest) by {
        assert forall i :: 0 <= i < |rest| ==> rest[i] == ps[i + 1];
      }
      if Matches(v, ps[0].0) {
        forall i | 0 <= i < |rest| ensures !Matches(ps[0].1, rest[i].0) {
          assert rest[i] == ps[i + 1];
        }
        ReplaceNoMatch(ps[0].1, rest);
      } else {
        ReplaceIsLookup(v, rest);
      }
    }
  }

  /**
   With a chain the pairs cascade: `a` goes to `b` and the same pass takes
   `b` on to `c`, where a lookup would stop at `b`.
   */
  lemma CascadeExample()
    ensures var ps: Pairs := [("a", Str("b")), ("b", Str("c"))];
            ReplaceValue(Str("a"), ps) == Str("c") && Lookup(ps, "a") == Some(Str("b"))
  {
    var ps: Pairs := [("a", Str("b")), ("b", Str("c"))];
    assert ps[1..][1..] == [];
  }

  /** All pairs listed for the column labelled `c`, in the order they are applied. */
  function PairsFor(d: ReplaceDict, c: Label): Pairs
    decreases |d|
  {
    if |d| == 0 then []
    else (if Str(d[0].0) == c then d[0].1 else []) + PairsFor(d[1..], c)
  }

  /** One entry of the table: replace down column `name` if the frame has it, else nothing. */
  function ReplaceColumn(t: Table, name: string, ps: Pairs): (r: Table)
    requires WellFormed(t)
    ensures WellFormed(r) && r.columns == t.columns && |r.rows| == |t.rows|
    ensures forall k, c :: 0 <= k < |t.rows| && c in t.rows[k] ==>
              c in r.rows[k] &&
              r.rows[k][c] == ReplaceValue(t.rows[k][c], if c == Str(name) then ps else [])
  {
    var c := Str(name);
    if c !in t.columns then t
    else
      Table(t.columns, seq(|t.rows|, k requires 0 <= k < |t.rows| =>
                             t.rows[k][c := ReplaceValue(t.rows[k][c], ps)]))
  }

  /**
   `apply_replacements(df, replace_dict)`: the entries in dictionary order;
   an entry whose column the frame lacks changes nothing (it is only logged).
   */
  function ApplyReplacements(t: Table, d: ReplaceDict): (r: Table)
    requires WellFormed(t)
    ensures WellFormed(r) && r.columns == t.columns && |r.rows| == |t.rows|
    decreases |d|
  {
    if |d| == 0 then t
    else ApplyReplacements(ReplaceColumn(t, d[0].0, d[0].1), d[1..])
  }

  /**
   Every cell ends up as its original value run through all the pairs listed
   for its column, in table order; the row keeps its fields.
   */
  lemma {:induction false} ReplacementCell(t: Table, d: ReplaceDict, k: nat, c: Label)
    requires WellFormed(t) && k < |t.rows| && c in t.rows[k]
    ensures var r := ApplyReplacements(t, d);
            c in r.rows[k] && r.rows[k][c] == ReplaceValue(t.rows[k][c], PairsFor(d, c))
    decreases |d|
  {
    if |d| > 0 {
      var t1 := ReplaceColumn(t, d[0].0, d[0].1);
      var first: Pairs := if Str(d[0].0) == c then d[0].1 else [];
      ReplacementCell(t1, d[1..], k, c);
      ReplaceCompose(t.rows[k][c], first, PairsFor(d[1..], c));
    }
  }

  /** Replacement independence: a column the table does not name is left exactly as it was. */
  lemma {:induction false} ReplacementIndependence(t: Table, d: ReplaceDict, c: Label)
    requires WellFormed(t)
    requires forall i :: 0 <= i < |d| ==> Str(d[i].0) != c
    ensures forall k :: 0 <= k < |t.rows| ==>
              c in t.rows[k] ==> ApplyReplacements(t, d).rows[k][c] == t.rows[k][c]
  {
    NoPairsFor(d, c);
    forall k | 0 <= k < |t.rows| && c in t.rows[k]
      ensures ApplyReplacements(t, d).rows[k][c] == t.rows[k][c]
    {
      ReplacementCell(t, d, k, c);
    }
  }

  lemma {:induction false} NoPairsFor(d: ReplaceDict, c: Label)
    requires forall i :: 0 <= i < |d| ==> Str(d[i].0) != c
    ensures PairsFor(d, c) == []
    decreases |d|
  {
    if |d| > 0 {
      assert forall i :: 0 <= i < |d| - 1 ==> d[1..][i] == d[i + 1];
      NoPairsFor(d[1..], c);
    }
  }

  /** A table none of whose columns the frame has leaves the frame unchanged. */
  lemma {:induction false} AbsentColumnsIgnored(t: Table, d: ReplaceDict)
    requires WellFormed(t)
    requires forall i :: 0 <= i < |d| ==> Str(d[i].0) !in t.columns
    ensures ApplyReplacements(t, d) == t
    decreases |d|
  {
    if |d| > 0 {
      assert forall i :: 0 <= i < |d| - 1 ==> d[1..][i] == d[i + 1];
      AbsentColumnsIgnored(t, d[1..]);
    }
  }
}
