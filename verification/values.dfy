/**
 Cell values and the two small wrapper types shared by the whole model.

 The pipeline reads spreadsheet cells into pandas frames; a cell holds a
 string, a number or nothing. pandas' NaN and Python's None are both the
 single value `Null` here.
 */
module Values {

  /** A spreadsheet cell as seen by pandas. */
  datatype Value = Null | Str(s: string) | Num(n: int)

  /** Column labels come from the header row of a range, so they are cell values too. */
  type Label = Value

  datatype Option<T> = None | Some(value: T)

  datatype Result<T, E> = Ok(value: T) | Err(error: E)

  /** No element occurs twice. */
  predicate Distinct<T(==)>(s: seq<T>) {
    forall i, j :: 0 <= i < j < |s| ==> s[i] != s[j]
  }

  /** The elements of a sequence. */
  function Elems<T>(s: seq<T>): set<T> {
    set x | x in s
  }

  /** A sequence without repetitions has as many elements as its set. */
  lemma {:induction false} DistinctCardinality<T>(s: seq<T>)
    requires Distinct(s)
    ensures |Elems(s)| == |s|
  {
    if |s| > 0 {
      DistinctCardinality(s[1..]);
      assert Elems(s) == {s[0]} + Elems(s[1..]);
      assert s[0] !in Elems(s[1..]);
    }
  }

  /** Appends to `acc` each element of `cs` not seen yet, in the order of `cs`. */
  function AppendNew<T(==)>(acc: seq<T>, cs: seq<T>): (r: seq<T>)
    requires Distinct(acc)
    ensures Distinct(r)
    ensures Elems(r) == Elems(acc) + Elems(cs)
    ensures |acc| <= |r| && r[..|acc|] == acc
    decreases |cs|
  {
    if |cs| == 0 then acc
    else
      assert Elems(cs) == {cs[0]} + Elems(cs[1..]);
      if cs[0] in acc then AppendNew(acc, cs[1..])
      else
        var r := AppendNew(acc + [cs[0]], cs[1..]);
        assert r[..|acc|] == r[..|acc| + 1][..|acc|];
        r
  }

  /** Appending elements that are already unique and new keeps them all, in order. */
  lemma {:induction false} AppendNewFresh<T>(acc: seq<T>, cs: seq<T>)
    requires Distinct(acc) && Distinct(cs)
    requires forall c :: c in cs ==> c !in acc
    ensures AppendNew(acc, cs) == acc + cs
    decreases |cs|
  {
    if |cs| > 0 {
      assert cs[0] in cs;
      assert Distinct(acc + [cs[0]]);
      AppendNewFresh(acc + [cs[0]], cs[1..]);
      assert acc + [cs[0]] + cs[1..] == acc + cs;
    }
  }

  lemma AppendNewToEmpty<T>(cs: seq<T>)
    ensures Distinct(cs) ==> AppendNew([], cs) == cs
  {
    if Distinct(cs) {
      AppendNewFresh([], cs);
      assert [] + cs == cs;
    }
  }

  /** The characters Python's `str.isspace()` accepts, i.e. what `str.strip()` removes. */
  predicate IsSpace(c: char) {
    || ('\U{0009}' <= c <= '\U{000D}')
    || ('\U{001C}' <= c <= '\U{0020}')
    || c == '\U{0085}' || c == '\U{00A0}' || c == '\U{1680}'
    || ('\U{2000}' <= c <= '\U{200A}')
    || c == '\U{2028}' || c == '\U{2029}' || c == '\U{202F}' || c == '\U{205F}' || c == '\U{3000}'
  }

  /** Every character is whitespace (the empty string included). */
  predicate Blank(s: string) {
    forall i :: 0 <= i < |s| ==> IsSpace(s[i])
  }

  /** Python's `s.lstrip()`: `s` without its leading whitespace. */
  function TrimLeft(s: string): string {
    if |s| > 0 && IsSpace(s[0]) then TrimLeft(s[1..]) else s
  }

  /** Python's `s.rstrip()`: `s` without its trailing whitespace. */
  function TrimRight(s: string): string {
    if |s| > 0 && IsSpace(s[|s| - 1]) then TrimRight(s[..|s| - 1]) else s
  }

  /** Python's `s.strip()`. */
  function Strip(s: string): string {
    TrimRight(TrimLeft(s))
  }

  /** `lstrip` removes a whitespace prefix and stops at the first other character. */
  lemma {:induction false} TrimLeftSpec(s: string)
    ensures var r := TrimLeft(s);
            |r| <= |s| && r == s[|s| - |r|..] && Blank(s[..|s| - |r|]) &&
            (|r| > 0 ==> !IsSpace(r[0]))
  {
    if |s| > 0 && IsSpace(s[0]) {
      TrimLeftSpec(s[1..]);
      var r := TrimLeft(s[1..]);
      assert s[1..][..|s[1..]| - |r|] == s[1..|s| - |r|];
    }
  }

  /** `rstrip` removes a whitespace suffix and stops at the last other character. */
  lemma {:induction false} TrimRightSpec(s: string)
    ensures var r := TrimRight(s);
            |r| <= |s| && r == s[..|r|] && Blank(s[|r|..]) &&
            (|r| > 0 ==> !IsSpace(r[|r| - 1]))
  {
    if |s| > 0 && IsSpace(s[|s| - 1]) {
      TrimRightSpec(s[..|s| - 1]);
      var r := TrimRight(s[..|s| - 1]);
      assert s[..|s| - 1][|r|..] == s[|r|..|s| - 1];
    }
  }

  /** Stripping leaves nothing exactly when the string is all whitespace. */
  lemma StripEmptyIffBlank(s: string)
    ensures Strip(s) == "" <==> Blank(s)
  {
    var l := TrimLeft(s);
    TrimLeftSpec(s);
    TrimRightSpec(l);
    if Strip(s) == "" {
      assert Blank(l[0..]);
      assert |l| == 0;
      assert s[..|s|] == s;
    } else {
      var r := Strip(s);
      assert r[0] == l[0];
      assert l[0] == s[|s| - |l|];
    }
  }

  /**
   The merge's notion of a value that fills a field: `pd.notna(x)` and
   `str(x).strip() != ''`. A number always prints as digits, so every
   number is present, zero included.
   */
  predicate Present(v: Value) {
    match v
    case Null => false
    case Str(s) => Strip(s) != ""
    case Num(_) => true
  }

  /** A string fills a field exactly when it has a non-whitespace character. */
  lemma PresentStrIff(s: string)
    ensures Present(Str(s)) <==> exists i :: 0 <= i < |s| && !IsSpace(s[i])
  {
    StripEmptyIffBlank(s);
  }
}
