/**
 * RemovendoColunas: pruning of the columns that the exploratory analysis found
 * redundant or highly correlated. The pruner keeps no state beyond the frame it
 * was given and the fixed list of names, so it is modelled by functions of the frame.
 */
module RedundantColumns {
  import opened Frames

  /** The removal list fixed on construction (the leading and trailing blanks
      are part of the dataset's column names). */
  const RedundantNames: seq<string> :=
    [" thinness 5-9 years", "percentage expenditure", "under-five deaths ",
     "Diphtheria ", "Income composition of resources"]

  /** The names of `names` that are columns, in the order of `names`. */
  function Present(names: seq<string>, cols: seq<string>): (p: seq<string>)
    ensures forall c :: c in p <==> c in names && c in cols
    ensures |p| <= |names|
  {
    if names == [] then []
    else
      var rest := Present(names[1..], cols);
      if names[0] in cols then [names[0]] + rest else rest
  }

  /** The positions of the columns that survive dropping `drop`, in increasing order. */
  function KeptIndices(cols: seq<string>, drop: set<string>): (ks: seq<nat>)
    ensures forall j :: 0 <= j < |ks| ==> ks[j] < |cols| && cols[ks[j]] !in drop
    ensures forall a, b :: 0 <= a < b < |ks| ==> ks[a] < ks[b]
    ensures forall i :: 0 <= i < |cols| && cols[i] !in drop ==> i in ks
  {
    if cols == [] then []
    else
      var m := |cols| - 1;
      var front := KeptIndices(cols[..m], drop);
      if cols[m] !in drop then front + [m] else front
  }

  /** KeptIndices looks only at whether each column is dropped. */
  lemma {:induction false} KeptIndicesAgree(cols: seq<string>, d1: set<string>, d2: set<string>)
    requires forall c :: c in cols ==> (c in d1 <==> c in d2)
    ensures KeptIndices(cols, d1) == KeptIndices(cols, d2)
  {
    if cols != [] {
      KeptIndicesAgree(cols[..|cols| - 1], d1, d2);
    }
  }

  /** When nothing is dropped, every position is kept. */
  lemma {:induction false} KeptIndicesAll(cols: seq<string>, drop: set<string>)
    requires forall c :: c in cols ==> c !in drop
    ensures KeptIndices(cols, drop) == seq(|cols|, j => j)
  {
    if cols != [] {
      var m := |cols| - 1;
      KeptIndicesAll(cols[..m], drop);
      assert seq(|cols|, j => j) == seq(m, j => j) + [m];
    }
  }

  predicate Increasing(ks: seq<nat>, n: nat) {
    && (forall j :: 0 <= j < |ks| ==> ks[j] < n)
    && (forall a, b :: 0 <= a < b < |ks| ==> ks[a] < ks[b])
  }

  /** The frame made of the columns at positions `ks`, in that order. */
  function Select(t: Frame, ks: seq<nat>): (r: Frame)
    requires Increasing(ks, |t.columns|)
    ensures |r.columns| == |ks| && |r.rows| == |t.rows|
    ensures forall j :: 0 <= j < |ks| ==> r.columns[j] == t.columns[ks[j]]
    ensures forall i, j :: 0 <= i < |t.rows| && 0 <= j < |ks| ==> r.rows[i][j] == t.rows[i][ks[j]]
  {
    var cols := seq(|ks|, j requires 0 <= j < |ks| => t.columns[ks[j]]);
    var rows := seq(|t.rows|, i requires 0 <= i < |t.rows| =>
                      seq(|ks|, j requires 0 <= j < |ks| => t.rows[i][ks[j]]));
    assert Distinct(cols) by {
      forall a, b | 0 <= a < b < |cols| ensures cols[a] != cols[b] {
        assert ks[a] < ks[b];
      }
    }
    Table(cols, rows)
  }

  /** A column of the selection sits at its selection position and keeps its cells. */
  lemma SelectAt(t: Frame, ks: seq<nat>, j: nat)
    requires Increasing(ks, |t.columns|) && j < |ks|
    ensures IndexOf(Select(t, ks).columns, t.columns[ks[j]]) == j
    ensures IndexOf(t.columns, t.columns[ks[j]]) == ks[j]
    ensures forall i :: 0 <= i < |t.rows| ==> At(Select(t, ks), i, t.columns[ks[j]]) == At(t, i, t.columns[ks[j]])
  {
    var r := Select(t, ks);
    IndexOfDistinct(r.columns, j);
    IndexOfDistinct(t.columns, ks[j]);
  }

  /** `DataFrame.drop(names, axis=1)`: a new frame without the named columns.
      Names that are not columns are ignored, as with `errors='ignore'`; pandas'
      default would raise `KeyError` for them, but `remover_colunas` only ever
      passes names that are present. */
  function Drop(t: Frame, drop: set<string>): (r: Frame)
    ensures forall c :: c in r.columns <==> c in t.columns && c !in drop
    ensures forall a, b :: a in r.columns && b in r.columns ==>
              (IndexOf(r.columns, a) < IndexOf(r.columns, b) <==> IndexOf(t.columns, a) < IndexOf(t.columns, b))
    ensures |r.rows| == |t.rows|
    ensures forall i, c :: 0 <= i < |r.rows| && c in r.columns ==> At(r, i, c) == At(t, i, c)
  {
    var ks := KeptIndices(t.columns, drop);
    var r := Select(t, ks);
    DropFacts(t, drop, ks, r);
    r
  }

  lemma DropFacts(t: Frame, drop: set<string>, ks: seq<nat>, r: Frame)
    requires ks == KeptIndices(t.columns, drop) && r == Select(t, ks)
    ensures forall c :: c in r.columns <==> c in t.columns && c !in drop
    ensures forall a, b :: a in r.columns && b in r.columns ==>
              (IndexOf(r.columns, a) < IndexOf(r.columns, b) <==> IndexOf(t.columns, a) < IndexOf(t.columns, b))
    ensures forall i, c :: 0 <= i < |r.rows| && c in r.columns ==> At(r, i, c) == At(t, i, c)
  {
    DropMembers(t, drop, ks, r);
    forall a, b | a in r.columns && b in r.columns
      ensures IndexOf(r.columns, a) < IndexOf(r.columns, b) <==> IndexOf(t.columns, a) < IndexOf(t.columns, b)
    {
      SelectOrder(t, ks, a, b);
    }
    forall i, c | 0 <= i < |r.rows| && c in r.columns ensures At(r, i, c) == At(t, i, c) {
      SelectCell(t, ks, i, c);
    }
  }

  lemma SelectOrder(t: Frame, ks: seq<nat>, a: string, b: string)
    requires Increasing(ks, |t.columns|)
    requires a in Select(t, ks).columns && b in Select(t, ks).columns
    ensures IndexOf(Select(t, ks).columns, a) < IndexOf(Select(t, ks).columns, b)
        <==> IndexOf(t.columns, a) < IndexOf(t.columns, b)
  {
    var r := Select(t, ks);
    var ja, jb := IndexOf(r.columns, a), IndexOf(r.columns, b);
    assert a == t.columns[ks[ja]] && b == t.columns[ks[jb]];
    SelectAt(t, ks, ja);
    SelectAt(t, ks, jb);
    assert ja < jb <==> ks[ja] < ks[jb];
  }

  lemma SelectCell(t: Frame, ks: seq<nat>, i: nat, c: string)
    requires Increasing(ks, |t.columns|)
    requires i < |t.rows| && c in Select(t, ks).columns
    ensures c in t.columns && At(Select(t, ks), i, c) == At(t, i, c)
  {
    var r := Select(t, ks);
    var j := IndexOf(r.columns, c);
    assert c == t.columns[ks[j]];
    SelectAt(t, ks, j);
  }

  lemma DropMembers(t: Frame, drop: set<string>, ks: seq<nat>, r: Frame)
    requires ks == KeptIndices(t.columns, drop) && r == Select(t, ks)
    ensures forall c :: c in r.columns <==> c in t.columns && c !in drop
  {
    forall c | c in t.columns && c !in drop ensures c in r.columns {
      var i := IndexOf(t.columns, c);
      assert i in ks;
      var j :| 0 <= j < |ks| && ks[j] == i;
      assert r.columns[j] == c;
    }
    forall c | c in r.columns ensures c in t.columns && c !in drop {
      var j := IndexOf(r.columns, c);
      assert c == t.columns[ks[j]];
    }
  }

  /** A frame none of whose columns is dropped comes back unchanged. */
  lemma DropNothing(t: Frame, drop: set<string>)
    requires forall c :: c in t.columns ==> c !in drop
    ensures Drop(t, drop) == t
  {
    KeptIndicesAll(t.columns, drop);
    var r := Drop(t, drop);
    assert r.columns == t.columns;
    forall i | 0 <= i < |t.rows| ensures r.rows[i] == t.rows[i] {
    }
    assert r.rows == t.rows;
  }

  /** `remover_colunas`: drop the listed names that are columns; if there are
      none, hand back the frame as it is. */
  function RemoveRedundant(t: Frame): (r: Frame)
    ensures forall c :: c in RedundantNames ==> c !in r.columns
    ensures forall c :: c in r.columns <==> c in t.columns && c !in RedundantNames
    ensures forall a, b :: a in r.columns && b in r.columns ==>
              (IndexOf(r.columns, a) < IndexOf(r.columns, b) <==> IndexOf(t.columns, a) < IndexOf(t.columns, b))
    ensures |r.rows| == |t.rows|
    ensures forall i, c :: 0 <= i < |r.rows| && c in r.columns ==> At(r, i, c) == At(t, i, c)
    ensures (forall c :: c in RedundantNames ==> c !in t.columns) ==> r == t
  {
    var present := Present(RedundantNames, t.columns);
    if present == [] then t
    else
      assert present[0] in RedundantNames && present[0] in t.columns;
      Drop(t, set c | c in present)
  }

  /** `executar_remover_colunas` hands back what `remover_colunas` computes. */
  function ExecuteRemoveRedundant(t: Frame): (r: Frame)
    ensures r == RemoveRedundant(t)
    ensures forall c :: c in RedundantNames ==> c !in r.columns
  {
    RemoveRedundant(t)
  }

  /** Listed names that are not columns are skipped without error: pruning is
      the same as dropping the whole list with absent names ignored. */
  lemma {:induction false} AbsentNamesIgnored(t: Frame)
    ensures RemoveRedundant(t) == Drop(t, set c | c in RedundantNames)
  {
    var present := Present(RedundantNames, t.columns);
    var all := set c | c in RedundantNames;
    if present == [] {
      DropNothing(t, all);
    } else {
      KeptIndicesAgree(t.columns, (set c | c in present), all);
    }
  }

  /** Pruning twice is pruning once. */
  lemma RemoveRedundantIdempotent(t: Frame)
    ensures RemoveRedundant(RemoveRedundant(t)) == RemoveRedundant(t)
  {
  }
}
