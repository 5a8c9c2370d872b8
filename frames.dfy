/**
 * The data frame handled by the cleaning stage: a sequence of distinct column
 * names and a sequence of rows, each row holding one cell per column. A cell is
 * missing (pandas' NaN/None, what `isnull()` reports), a number or a text.
 */
module Frames {

  datatype Cell = Missing | Num(value: real) | Text(text: string)

  datatype Table = Table(columns: seq<string>, rows: seq<seq<Cell>>)

  /** The outcome of an operation that the source lets raise an exception. */
  datatype Result<T, E> = Ok(value: T) | Err(error: E)

  predicate Distinct<T(==)>(s: seq<T>) {
    forall a, b :: 0 <= a < b < |s| ==> s[a] != s[b]
  }

  /** What a `pd.DataFrame` guarantees in this model: no column name twice,
      and every row as wide as the header. */
  predicate WellFormed(t: Table) {
    && Distinct(t.columns)
    && forall i :: 0 <= i < |t.rows| ==> |t.rows[i]| == |t.columns|
  }

  type Frame = t: Table | WellFormed(t) witness Table([], [])

  /** The position of a column name (the first one; with distinct names, the only one). */
  function IndexOf(cols: seq<string>, name: string): (k: nat)
    requires name in cols
    ensures k < |cols| && cols[k] == name
    ensures forall j :: 0 <= j < k ==> cols[j] != name
  {
    if cols[0] == name then 0 else 1 + IndexOf(cols[1..], name)
  }

  lemma IndexOfDistinct(cols: seq<string>, j: nat)
    requires Distinct(cols) && j < |cols|
    ensures IndexOf(cols, cols[j]) == j
  {
  }

  /** The cell of row `i` in the column called `name`. */
  function At(t: Frame, i: nat, name: string): Cell
    requires i < |t.rows| && name in t.columns
  {
    t.rows[i][IndexOf(t.columns, name)]
  }

  /** The number of positions holding `true`, as pandas' `.sum()` of a boolean series. */
  function CountTrue(bs: seq<bool>): (n: nat)
    ensures n == |set i | 0 <= i < |bs| && bs[i]|
    ensures n <= |bs|
  {
    if bs == [] then 0
    else
      var m := |bs| - 1;
      var front := bs[..m];
      var n := CountTrue(front) + (if bs[m] then 1 else 0);
      assert (set i | 0 <= i < |bs| && bs[i])
          == (set i | 0 <= i < |front| && front[i]) + (if bs[m] then {m} else {});
      n
  }

  /** Sum of a sequence of counts. */
  function Sum(s: seq<nat>): nat {
    if s == [] then 0 else Sum(s[..|s| - 1]) + s[|s| - 1]
  }

  /** Sum of the values of a labelled series (a pandas Series of counts). */
  function SumCounts<K>(s: seq<(K, nat)>): nat {
    if s == [] then 0 else SumCounts(s[..|s| - 1]) + s[|s| - 1].1
  }

  lemma SubsetCardinality<T>(a: set<T>, b: set<T>)
    requires a <= b
    ensures |a| <= |b|
  {
    assert b == a + (b - a);
    assert a * (b - a) == {};
  }
}
