/**
 * Duplicatas: counting the rows that repeat an earlier row on a chosen list of
 * columns, as `DataFrame.duplicated(subset=...)` with its default `keep='first'`
 * followed by `.sum()`. Missing cells compare equal to each other.
 */
module Duplicates {
  import opened Frames

  /** The `ValueError` raised when `subset` names something that is not a column. */
  datatype SubsetError = InvalidSubset

  predicate ValidSubset(t: Frame, subset: seq<string>) {
    forall k :: 0 <= k < |subset| ==> subset[k] in t.columns
  }

  /** Rows `i` and `j` hold equal cells in every column of `subset`. */
  predicate AgreeOn(t: Frame, subset: seq<string>, i: nat, j: nat)
    requires ValidSubset(t, subset) && i < |t.rows| && j < |t.rows|
  {
    forall k :: 0 <= k < |subset| ==> At(t, i, subset[k]) == At(t, j, subset[k])
  }

  /** Row `i` repeats some earlier row on `subset`. */
  predicate IsRepeat(t: Frame, subset: seq<string>, i: nat)
    requires ValidSubset(t, subset) && i < |t.rows|
  {
    exists j :: 0 <= j < i && AgreeOn(t, subset, i, j)
  }

  /** The cells of row `i` in the columns of `subset`, in subset order. */
  function Project(t: Frame, subset: seq<string>, i: nat): (p: seq<Cell>)
    requires ValidSubset(t, subset) && i < |t.rows|
  {
    seq(|subset|, k requires 0 <= k < |subset| => At(t, i, subset[k]))
  }

  lemma ProjectEq(t: Frame, subset: seq<string>, i: nat, j: nat)
    requires ValidSubset(t, subset) && i < |t.rows| && j < |t.rows|
    ensures Project(t, subset, i) == Project(t, subset, j) <==> AgreeOn(t, subset, i, j)
  {
    var pi, pj := Project(t, subset, i), Project(t, subset, j);
    if AgreeOn(t, subset, i, j) {
      assert forall k :: 0 <= k < |subset| ==> pi[k] == pj[k];
    }
    if pi == pj {
      forall k | 0 <= k < |subset| ensures At(t, i, subset[k]) == At(t, j, subset[k]) {
        assert pi[k] == pj[k];
      }
    }
  }

  function Projections(t: Frame, subset: seq<string>): (ps: seq<seq<Cell>>)
    requires ValidSubset(t, subset)
    ensures |ps| == |t.rows|
    ensures forall i :: 0 <= i < |t.rows| ==> ps[i] == Project(t, subset, i)
  {
    seq(|t.rows|, i requires 0 <= i < |t.rows| => Project(t, subset, i))
  }

  /** `duplicated(keep='first')` on a sequence: an element is marked when an
      equal one comes before it. */
  function RepeatMask<T(==)>(s: seq<T>): (m: seq<bool>)
    ensures |m| == |s|
    ensures forall i :: 0 <= i < |s| ==> (m[i] <==> exists j :: 0 <= j < i && s[j] == s[i])
  {
    seq(|s|, i requires 0 <= i < |s| => s[i] in s[..i])
  }

  /** The mask of all but the last element is the mask of the shorter sequence. */
  lemma RepeatMaskPrefix<T>(s: seq<T>)
    requires s != []
    ensures RepeatMask(s)[..|s| - 1] == RepeatMask(s[..|s| - 1])
  {
    var m := |s| - 1;
    forall i | 0 <= i < m ensures RepeatMask(s)[i] == RepeatMask(s[..m])[i] {
      assert s[..m][..i] == s[..i];
    }
  }

  /** The distinct values of a sequence. */
  function Values<T>(s: seq<T>): (v: set<T>)
    ensures forall i :: 0 <= i < |s| ==> s[i] in v
    ensures forall x :: x in v ==> x in s
  {
    set x | x in s
  }

  /** The marked elements are exactly those beyond the distinct ones. */
  lemma {:induction false} RepeatsPlusDistinct<T>(s: seq<T>)
    ensures CountTrue(RepeatMask(s)) + |Values(s)| == |s|
  {
    if s != [] {
      var m := |s| - 1;
      RepeatsPlusDistinct(s[..m]);
      RepeatMaskPrefix(s);
      DistinctSnoc(s);
    }
  }

  /** The last element adds a distinct value exactly when it is not a repeat. */
  lemma DistinctSnoc<T>(s: seq<T>)
    requires s != []
    ensures |Values(s)| == |Values(s[..|s| - 1])| + (if RepeatMask(s)[|s| - 1] then 0 else 1)
  {
    var m := |s| - 1;
    var front := s[..m];
    var all, before := Values(s), Values(front);
    assert s == front + [s[m]];
    assert all == before + {s[m]};
    assert RepeatMask(s)[m] == (s[m] in before);
  }

  /** `df.duplicated(subset=subset)`: row `i` is marked exactly when it repeats
      an earlier row on `subset`; first occurrences are never marked. */
  function Duplicated(t: Frame, subset: seq<string>): (m: seq<bool>)
    requires ValidSubset(t, subset)
    ensures |m| == |t.rows|
    ensures forall i :: 0 <= i < |t.rows| ==> (m[i] <==> IsRepeat(t, subset, i))
  {
    var ps := Projections(t, subset);
    var m := RepeatMask(ps);
    assert forall i :: 0 <= i < |t.rows| ==> (m[i] <==> IsRepeat(t, subset, i)) by {
      forall i | 0 <= i < |t.rows| ensures m[i] <==> IsRepeat(t, subset, i) {
        forall j | 0 <= j < i ensures ps[j] == ps[i] <==> AgreeOn(t, subset, i, j) {
          ProjectEq(t, subset, i, j);
        }
      }
    }
    m
  }

  /** `verificar_duplicatas(subset)`: an error when some name of `subset` is not a
      column, otherwise the number of rows that repeat an earlier row on `subset`.
      An empty `subset` passes the validation, but what `duplicated` then does is
      not part of this model. */
  function CountDuplicates(t: Frame, subset: seq<string>): (r: Result<nat, SubsetError>)
    requires subset != []
    ensures r.Err? <==> exists k :: 0 <= k < |subset| && subset[k] !in t.columns
    ensures r.Ok? ==> r.value == |set i | 0 <= i < |t.rows| && IsRepeat(t, subset, i)|
  {
    if !ValidSubset(t, subset) then Err(InvalidSubset)
    else
      var m := Duplicated(t, subset);
      assert (set i | 0 <= i < |m| && m[i]) == (set i | 0 <= i < |t.rows| && IsRepeat(t, subset, i));
      Ok(CountTrue(m))
  }

  /** The distinct projections of the rows onto `subset`. */
  function DistinctProjections(t: Frame, subset: seq<string>): set<seq<Cell>>
    requires ValidSubset(t, subset)
  {
    Values(Projections(t, subset))
  }

  /** The count is the number of rows minus the number of distinct projections;
      so it is 0 on an empty frame and leaves at least one row uncounted otherwise. */
  lemma CountIsRowsMinusDistinct(t: Frame, subset: seq<string>)
    requires subset != [] && ValidSubset(t, subset)
    ensures CountDuplicates(t, subset).Ok?
    ensures CountDuplicates(t, subset).value + |DistinctProjections(t, subset)| == |t.rows|
    ensures CountDuplicates(t, subset).value <= |t.rows|
    ensures |t.rows| == 0 ==> CountDuplicates(t, subset).value == 0
    ensures |t.rows| > 0 ==> CountDuplicates(t, subset).value <= |t.rows| - 1
  {
    var ps := Projections(t, subset);
    RepeatsPlusDistinct(ps);
    if |t.rows| > 0 {
      assert ps[0] in DistinctProjections(t, subset);
    }
  }

  /** Agreeing on every column of `b` means agreeing on every column of `a`. */
  lemma AgreeOnSubset(t: Frame, a: seq<string>, b: seq<string>, i: nat, j: nat)
    requires ValidSubset(t, b) && i < |t.rows| && j < |t.rows|
    requires forall k :: 0 <= k < |a| ==> a[k] in b
    requires AgreeOn(t, b, i, j)
    ensures ValidSubset(t, a) && AgreeOn(t, a, i, j)
  {
    forall k | 0 <= k < |a| ensures a[k] in t.columns && At(t, i, a[k]) == At(t, j, a[k]) {
      var kb := IndexOf(b, a[k]);
      assert At(t, i, b[kb]) == At(t, j, b[kb]);
    }
  }

  /** Comparing on more columns can only find fewer repeats. */
  lemma CountMonotone(t: Frame, a: seq<string>, b: seq<string>)
    requires a != [] && b != [] && ValidSubset(t, b)
    requires forall k :: 0 <= k < |a| ==> a[k] in b
    ensures CountDuplicates(t, a).Ok? && CountDuplicates(t, b).Ok?
    ensures CountDuplicates(t, b).value <= CountDuplicates(t, a).value
  {
    assert ValidSubset(t, a);
    var rb := set i | 0 <= i < |t.rows| && IsRepeat(t, b, i);
    var ra := set i | 0 <= i < |t.rows| && IsRepeat(t, a, i);
    forall i | i in rb ensures i in ra {
      var j :| 0 <= j < i && AgreeOn(t, b, i, j);
      AgreeOnSubset(t, a, b, i, j);
    }
    SubsetCardinality(rb, ra);
  }
}
