/**
 * AnaliseValoresAusentes: three read-only summaries of the missing cells of a
 * frame — the count per column, the countries that have a row with a missing
 * cell, and the total per country sorted from most to fewest.
 */
module MissingValues {
  import opened Frames

  const CountryColumn: string := "Country"

  /** The `KeyError` that `df['Country']` raises when there is no such column. */
  datatype ColumnError = NoCountryColumn

  predicate HasCountry(t: Frame) {
    CountryColumn in t.columns
  }

  // ---------------------------------------------------------------------------
  // Counting missing cells (`isnull()` and its sums)
  // ---------------------------------------------------------------------------

  /** `row.isnull()`. */
  function MissingMask(row: seq<Cell>): seq<bool> {
    seq(|row|, k requires 0 <= k < |row| => row[k].Missing?)
  }

  predicate RowHasMissing(row: seq<Cell>) {
    exists k :: 0 <= k < |row| && row[k].Missing?
  }

  /** The number of missing cells of a row. */
  function RowMissing(row: seq<Cell>): (n: nat)
    ensures n == |set k | 0 <= k < |row| && row[k].Missing?|
    ensures n <= |row|
    ensures n > 0 <==> RowHasMissing(row)
  {
    var mk := MissingMask(row);
    var s := set k | 0 <= k < |row| && row[k].Missing?;
    assert (set k | 0 <= k < |mk| && mk[k]) == s;
    assert RowHasMissing(row) ==> s != {} by {
      if RowHasMissing(row) {
        var k :| 0 <= k < |row| && row[k].Missing?;
        assert k in s;
      }
    }
    CountTrue(mk)
  }

  predicate Rectangular(rows: seq<seq<Cell>>, width: nat) {
    forall i :: 0 <= i < |rows| ==> |rows[i]| == width
  }

  /** `df[c].isnull()` for the column at position `k`. */
  function ColumnMask(rows: seq<seq<Cell>>, k: nat): (m: seq<bool>)
    requires forall i :: 0 <= i < |rows| ==> k < |rows[i]|
    ensures |m| == |rows|
  {
    seq(|rows|, i requires 0 <= i < |rows| => rows[i][k].Missing?)
  }

  /** The number of missing cells in the column at position `k`. */
  function ColumnMissing(rows: seq<seq<Cell>>, k: nat): (n: nat)
    requires forall i :: 0 <= i < |rows| ==> k < |rows[i]|
    ensures n == |set i | 0 <= i < |rows| && rows[i][k].Missing?|
    ensures n <= |rows|
  {
    var mk := ColumnMask(rows, k);
    assert (set i | 0 <= i < |mk| && mk[i]) == (set i | 0 <= i < |rows| && rows[i][k].Missing?);
    CountTrue(mk)
  }

  lemma ColumnMissingSnoc(rows: seq<seq<Cell>>, k: nat)
    requires rows != [] && forall i :: 0 <= i < |rows| ==> k < |rows[i]|
    ensures ColumnMissing(rows, k)
         == ColumnMissing(rows[..|rows| - 1], k) + (if rows[|rows| - 1][k].Missing? then 1 else 0)
  {
    var m := |rows| - 1;
    assert ColumnMask(rows, k)[..m] == ColumnMask(rows[..m], k);
  }

  function PerColumn(cols: seq<string>, rows: seq<seq<Cell>>): (r: seq<(string, nat)>)
    requires Rectangular(rows, |cols|)
    ensures |r| == |cols|
  {
    seq(|cols|, k requires 0 <= k < |cols| => (cols[k], ColumnMissing(rows, k)))
  }

  /** `contar_valores_ausentes`: one entry per column, in column order, holding
      that column's number of missing cells (zero included). */
  function MissingPerColumn(t: Frame): (r: seq<(string, nat)>)
    ensures |r| == |t.columns|
    ensures forall k :: 0 <= k < |r| ==> r[k].0 == t.columns[k]
    ensures forall k :: 0 <= k < |r| ==> r[k].1 == |set i | 0 <= i < |t.rows| && t.rows[i][k].Missing?|
    ensures forall k :: 0 <= k < |r| ==> r[k].1 <= |t.rows|
  {
    PerColumn(t.columns, t.rows)
  }

  // ---------------------------------------------------------------------------
  // Distinct keys in order of first appearance (`unique()`)
  // ---------------------------------------------------------------------------

  /** Some selected position of `keys` holds `x`. */
  predicate Selected<T(==)>(keys: seq<T>, sel: seq<bool>, x: T)
    requires |keys| == |sel|
  {
    exists i :: 0 <= i < |keys| && sel[i] && keys[i] == x
  }

  lemma SelectedPrefix<T>(keys: seq<T>, sel: seq<bool>, j: nat, x: T)
    requires |keys| == |sel| && j <= |keys|
    ensures Selected(keys[..j], sel[..j], x) <==> exists i :: 0 <= i < j && sel[i] && keys[i] == x
  {
    if Selected(keys[..j], sel[..j], x) {
      var i :| 0 <= i < j && sel[..j][i] && keys[..j][i] == x;
      assert sel[i] && keys[i] == x;
    }
    if exists i :: 0 <= i < j && sel[i] && keys[i] == x {
      var i :| 0 <= i < j && sel[i] && keys[i] == x;
      assert sel[..j][i] && keys[..j][i] == x;
    }
  }

  /** The distinct `keys[i]` with `sel[i]`, in the order in which each first
      appears among the selected positions. */
  function FirstOccurrences<T(==)>(keys: seq<T>, sel: seq<bool>): (r: seq<T>)
    requires |keys| == |sel|
    ensures Distinct(r)
    ensures forall k :: 0 <= k < |r| ==> Selected(keys, sel, r[k])
    ensures forall i :: 0 <= i < |keys| && sel[i] ==> keys[i] in r
    ensures forall a, b, j :: 0 <= a < b < |r| && 0 <= j < |keys| && sel[j] && keys[j] == r[b] ==>
              Selected(keys[..j], sel[..j], r[a])
  {
    if keys == [] then []
    else
      var m := |keys| - 1;
      var u := FirstOccurrences(keys[..m], sel[..m]);
      var r := if sel[m] && keys[m] !in u then u + [keys[m]] else u;
      FirstOccurrencesPrefix(keys, sel, keys[..m], sel[..m], u);
      FirstOccurrencesStep(keys, sel, u, r);
      r
  }

  /** The contract of the first occurrences of a prefix, restated over the whole input. */
  lemma FirstOccurrencesPrefix<T>(keys: seq<T>, sel: seq<bool>, kp: seq<T>, sp: seq<bool>, u: seq<T>)
    requires |keys| == |sel| && keys != []
    requires kp == keys[..|keys| - 1] && sp == sel[..|keys| - 1]
    requires forall i :: 0 <= i < |kp| && sp[i] ==> kp[i] in u
    requires forall a, b, j :: 0 <= a < b < |u| && 0 <= j < |kp| && sp[j] && kp[j] == u[b] ==>
               Selected(kp[..j], sp[..j], u[a])
    ensures forall i :: 0 <= i < |keys| - 1 && sel[i] ==> keys[i] in u
    ensures forall a, b, j :: 0 <= a < b < |u| && 0 <= j < |keys| - 1 && sel[j] && keys[j] == u[b] ==>
              Selected(keys[..j], sel[..j], u[a])
  {
    forall i | 0 <= i < |keys| - 1 && sel[i] ensures keys[i] in u {
      assert sp[i] && kp[i] == keys[i];
    }
    forall a, b, j | 0 <= a < b < |u| && 0 <= j < |keys| - 1 && sel[j] && keys[j] == u[b]
      ensures Selected(keys[..j], sel[..j], u[a])
    {
      assert sp[j] && kp[j] == u[b];
      assert kp[..j] == keys[..j] && sp[..j] == sel[..j];
    }
  }

  lemma FirstOccurrencesStep<T>(keys: seq<T>, sel: seq<bool>, u: seq<T>, r: seq<T>)
    requires |keys| == |sel| && keys != [] && Distinct(u)
    requires forall k :: 0 <= k < |u| ==> Selected(keys[..|keys| - 1], sel[..|keys| - 1], u[k])
    requires forall i :: 0 <= i < |keys| - 1 && sel[i] ==> keys[i] in u
    requires forall a, b, j :: 0 <= a < b < |u| && 0 <= j < |keys| - 1 && sel[j] && keys[j] == u[b] ==>
               Selected(keys[..j], sel[..j], u[a])
    requires r == if sel[|keys| - 1] && keys[|keys| - 1] !in u then u + [keys[|keys| - 1]] else u
    ensures Distinct(r)
    ensures forall k :: 0 <= k < |r| ==> Selected(keys, sel, r[k])
    ensures forall i :: 0 <= i < |keys| && sel[i] ==> keys[i] in r
    ensures forall a, b, j :: 0 <= a < b < |r| && 0 <= j < |keys| && sel[j] && keys[j] == r[b] ==>
              Selected(keys[..j], sel[..j], r[a])
  {
    var m := |keys| - 1;
    forall k | 0 <= k < |r| ensures Selected(keys, sel, r[k]) {
      if k < |u| {
        SelectedFromPrefix(keys, sel, m, u[k]);
      } else {
        assert sel[m] && keys[m] == r[k];
      }
    }
    forall a, b, j | 0 <= a < b < |r| && 0 <= j < |keys| && sel[j] && keys[j] == r[b]
      ensures Selected(keys[..j], sel[..j], r[a])
    {
      assert a < |u| && r[a] == u[a];
      if j == m {
        assert keys[..j] == keys[..m] && sel[..j] == sel[..m];
      }
    }
  }

  lemma SelectedFromPrefix<T>(keys: seq<T>, sel: seq<bool>, j: nat, x: T)
    requires |keys| == |sel| && j <= |keys| && Selected(keys[..j], sel[..j], x)
    ensures Selected(keys, sel, x)
  {
    var i :| 0 <= i < j && sel[..j][i] && keys[..j][i] == x;
    assert sel[i] && keys[i] == x;
  }

  /** `df['Country']`. */
  function Countries(t: Frame): (cs: seq<Cell>)
    requires HasCountry(t)
    ensures |cs| == |t.rows|
    ensures forall i :: 0 <= i < |t.rows| ==> cs[i] == At(t, i, CountryColumn)
  {
    seq(|t.rows|, i requires 0 <= i < |t.rows| => At(t, i, CountryColumn))
  }

  /** `df.isnull().any(axis=1)`. */
  function MissingRows(t: Frame): (sel: seq<bool>)
    ensures |sel| == |t.rows|
    ensures forall i :: 0 <= i < |t.rows| ==> (sel[i] <==> RowHasMissing(t.rows[i]))
  {
    seq(|t.rows|, i requires 0 <= i < |t.rows| => RowHasMissing(t.rows[i]))
  }

  /** Some row before row `j` has a missing cell and `c` as its `Country`. */
  predicate MissingRowBefore(t: Frame, c: Cell, j: nat)
    requires HasCountry(t) && j <= |t.rows|
  {
    exists i :: 0 <= i < j && RowHasMissing(t.rows[i]) && At(t, i, CountryColumn) == c
  }

  /** `paises_com_valores_ausentes`: the `Country` values of the rows holding a
      missing cell, each once, in the order in which they first appear. A row
      whose `Country` itself is missing contributes the missing marker, as
      `unique()` keeps NaN. */
  function CountriesWithMissing(t: Frame): (r: Result<seq<Cell>, ColumnError>)
    ensures r.Err? <==> !HasCountry(t)
    ensures r.Ok? ==> Distinct(r.value)
    ensures r.Ok? ==> forall c :: c in r.value <==> MissingRowBefore(t, c, |t.rows|)
    ensures r.Ok? ==> forall a, b, j ::
              (0 <= a < b < |r.value| && 0 <= j < |t.rows| && RowHasMissing(t.rows[j])
               && At(t, j, CountryColumn) == r.value[b])
              ==> MissingRowBefore(t, r.value[a], j)
  {
    if !HasCountry(t) then Err(NoCountryColumn)
    else
      var ks, sel := Countries(t), MissingRows(t);
      var u := FirstOccurrences(ks, sel);
      forall j, c | 0 <= j <= |t.rows| ensures Selected(ks[..j], sel[..j], c) <==> MissingRowBefore(t, c, j) {
        SelectedPrefix(ks, sel, j, c);
      }
      assert ks[..|t.rows|] == ks && sel[..|t.rows|] == sel;
      forall c | MissingRowBefore(t, c, |t.rows|) ensures c in u {
        var i :| 0 <= i < |t.rows| && RowHasMissing(t.rows[i]) && At(t, i, CountryColumn) == c;
        assert sel[i] && ks[i] == c;
      }
      Ok(u)
  }

  /** Some row has `c` as its `Country`. */
  predicate IsCountry(t: Frame, c: Cell)
    requires HasCountry(t)
  {
    exists i :: 0 <= i < |t.rows| && At(t, i, CountryColumn) == c
  }

  /** The groups of `groupby(df['Country'])`: the present `Country` values, each
      once (rows with a missing `Country` form no group). */
  function Groups(t: Frame): (g: seq<Cell>)
    requires HasCountry(t)
    ensures Distinct(g)
    ensures forall c :: c in g <==> !c.Missing? && IsCountry(t, c)
  {
    var ks := Countries(t);
    var sel := seq(|t.rows|, i requires 0 <= i < |t.rows| => !ks[i].Missing?);
    var g := FirstOccurrences(ks, sel);
    forall c ensures c in g <==> !c.Missing? && IsCountry(t, c) {
      SelectedPrefix(ks, sel, |t.rows|, c);
      assert ks[..|t.rows|] == ks && sel[..|t.rows|] == sel;
      if !c.Missing? && IsCountry(t, c) {
        var i :| 0 <= i < |t.rows| && At(t, i, CountryColumn) == c;
        assert sel[i] && ks[i] == c;
      }
    }
    g
  }

  // ---------------------------------------------------------------------------
  // Totals per country (`groupby(...).sum().sum(axis=1)`)
  // ---------------------------------------------------------------------------

  /** The weights of the positions whose key is `c`, and 0 at every other position. */
  function KeyWeights<T(==)>(keys: seq<T>, ws: seq<nat>, c: T): (r: seq<nat>)
    requires |keys| == |ws|
    ensures |r| == |keys|
  {
    seq(|keys|, i requires 0 <= i < |keys| => if keys[i] == c then ws[i] else 0)
  }

  /** The sum of the weights at the positions whose key is `c`. */
  function GroupSum<T(==)>(keys: seq<T>, ws: seq<nat>, c: T): (n: nat)
    requires |keys| == |ws|
    ensures n == Sum(KeyWeights(keys, ws, c))
    ensures n > 0 <==> exists i :: 0 <= i < |keys| && keys[i] == c && ws[i] > 0
  {
    if keys == [] then 0
    else
      var m := |keys| - 1;
      assert KeyWeights(keys, ws, c)[..m] == KeyWeights(keys[..m], ws[..m], c);
      GroupSum(keys[..m], ws[..m], c) + (if keys[m] == c then ws[m] else 0)
  }

  /** The missing cells of each row. */
  function RowsMissing(rows: seq<seq<Cell>>): (ws: seq<nat>)
    ensures |ws| == |rows|
    ensures forall i :: 0 <= i < |rows| ==> ws[i] == RowMissing(rows[i])
  {
    seq(|rows|, i requires 0 <= i < |rows| => RowMissing(rows[i]))
  }

  /** Row by row, the missing cells of the rows whose `Country` is `c` (0 for other rows). */
  function CountryRowsMissing(t: Frame, c: Cell): (r: seq<nat>)
    requires HasCountry(t)
    ensures |r| == |t.rows|
  {
    seq(|t.rows|, i requires 0 <= i < |t.rows| =>
          if At(t, i, CountryColumn) == c then RowMissing(t.rows[i]) else 0)
  }

  /** The number of missing cells, over all columns, in the rows of country `c`;
      positive exactly when one of those rows has a missing cell. */
  function CountryTotal(t: Frame, c: Cell): (n: nat)
    requires HasCountry(t)
    ensures n == Sum(CountryRowsMissing(t, c))
    ensures n > 0 <==> exists i :: 0 <= i < |t.rows| && At(t, i, CountryColumn) == c && RowHasMissing(t.rows[i])
  {
    var ks, ws := Countries(t), RowsMissing(t.rows);
    assert KeyWeights(ks, ws, c) == CountryRowsMissing(t, c);
    assert forall i :: 0 <= i < |t.rows| ==> (ws[i] > 0 <==> RowHasMissing(t.rows[i]));
    GroupSum(ks, ws, c)
  }

  function GroupTotals<T(==)>(keys: seq<T>, ws: seq<nat>, g: seq<T>): (r: seq<(T, nat)>)
    requires |keys| == |ws|
    ensures |r| == |g|
    ensures forall k :: 0 <= k < |g| ==> r[k] == (g[k], GroupSum(keys, ws, g[k]))
  {
    seq(|g|, k requires 0 <= k < |g| => (g[k], GroupSum(keys, ws, g[k])))
  }

  // ---------------------------------------------------------------------------
  // Sorting a labelled series in descending order (`sort_values(ascending=False)`)
  // ---------------------------------------------------------------------------

  predicate SortedDesc<K>(s: seq<(K, nat)>) {
    forall a, b :: 0 <= a < b < |s| ==> s[a].1 >= s[b].1
  }

  predicate DistinctKeys<K(==)>(s: seq<(K, nat)>) {
    forall a, b :: 0 <= a < b < |s| ==> s[a].0 != s[b].0
  }

  function InsertDesc<K(==)>(s: seq<(K, nat)>, x: (K, nat)): (r: seq<(K, nat)>)
    requires SortedDesc(s)
    ensures SortedDesc(r)
    ensures multiset(r) == multiset(s) + multiset{x}
    ensures forall k :: 0 <= k < |r| ==> r[k] == x || r[k] in s
    ensures SumCounts(r) == SumCounts(s) + x.1
    ensures DistinctKeys(s) && (forall k :: 0 <= k < |s| ==> s[k].0 != x.0) ==> DistinctKeys(r)
  {
    if s == [] || s[|s| - 1].1 >= x.1 then
      InsertDescLast(s, x);
      s + [x]
    else
      var m := |s| - 1;
      var front, last := s[..m], s[m];
      assert s == front + [last];
      SortedSplit(front, last);
      var inner := InsertDesc(front, x);
      InsertDescStep(front, last, x, inner);
      inner + [last]
  }

  lemma InsertDescLast<K>(s: seq<(K, nat)>, x: (K, nat))
    requires SortedDesc(s) && (s == [] || s[|s| - 1].1 >= x.1)
    ensures var r := s + [x];
      && SortedDesc(r)
      && multiset(r) == multiset(s) + multiset{x}
      && (forall k :: 0 <= k < |r| ==> r[k] == x || r[k] in s)
      && SumCounts(r) == SumCounts(s) + x.1
      && (DistinctKeys(s) && (forall k :: 0 <= k < |s| ==> s[k].0 != x.0) ==> DistinctKeys(r))
  {
    var r := s + [x];
    assert r[..|s|] == s;
    forall a, b | 0 <= a < b < |r| ensures r[a].1 >= r[b].1 {
      if b == |s| {
        assert r[a].1 >= s[|s| - 1].1;
      }
    }
  }

  lemma InsertDescStep<K>(front: seq<(K, nat)>, last: (K, nat), x: (K, nat), inner: seq<(K, nat)>)
    requires SortedDesc(front + [last]) && last.1 < x.1
    requires SortedDesc(inner)
    requires multiset(inner) == multiset(front) + multiset{x}
    requires forall k :: 0 <= k < |inner| ==> inner[k] == x || inner[k] in front
    requires SumCounts(inner) == SumCounts(front) + x.1
    requires DistinctKeys(front) && (forall k :: 0 <= k < |front| ==> front[k].0 != x.0) ==> DistinctKeys(inner)
    ensures SortedDesc(inner + [last])
    ensures multiset(inner + [last]) == multiset(front + [last]) + multiset{x}
    ensures forall k :: 0 <= k < |inner| + 1 ==> (inner + [last])[k] == x || (inner + [last])[k] in front + [last]
    ensures SumCounts(inner + [last]) == SumCounts(front + [last]) + x.1
    ensures (DistinctKeys(front + [last]) && forall k :: 0 <= k < |front| + 1 ==> (front + [last])[k].0 != x.0)
              ==> DistinctKeys(inner + [last])
  {
    SortedSplit(front, last);
    InsertDescSorted(front, last, x, inner);
    InsertDescSum(inner, last);
    InsertDescSum(front, last);
    InsertDescMembers(front, last, x, inner);
    InsertDescMultiset(front, last, x, inner);
    if DistinctKeys(front + [last]) && (forall k :: 0 <= k < |front| + 1 ==> (front + [last])[k].0 != x.0) {
      KeysSplit(front, last, x);
      InsertDescKeys(front, last, x, inner);
    }
  }

  lemma SortedSplit<K>(front: seq<(K, nat)>, last: (K, nat))
    requires SortedDesc(front + [last])
    ensures SortedDesc(front)
    ensures forall k :: 0 <= k < |front| ==> front[k].1 >= last.1
  {
    assert forall k :: 0 <= k < |front| ==> (front + [last])[k] == front[k];
    assert (front + [last])[|front|] == last;
  }

  lemma KeysSplit<K>(front: seq<(K, nat)>, last: (K, nat), x: (K, nat))
    requires DistinctKeys(front + [last])
    requires forall k :: 0 <= k < |front| + 1 ==> (front + [last])[k].0 != x.0
    ensures DistinctKeys(front) && last.0 != x.0
    ensures forall k :: 0 <= k < |front| ==> front[k].0 != x.0 && front[k].0 != last.0
  {
    assert forall k :: 0 <= k < |front| ==> (front + [last])[k] == front[k];
    assert (front + [last])[|front|] == last;
  }

  lemma InsertDescSum<K>(inner: seq<(K, nat)>, last: (K, nat))
    ensures SumCounts(inner + [last]) == SumCounts(inner) + last.1
  {
    assert (inner + [last])[..|inner|] == inner;
  }

  lemma InsertDescSorted<K>(front: seq<(K, nat)>, last: (K, nat), x: (K, nat), inner: seq<(K, nat)>)
    requires SortedDesc(inner) && last.1 < x.1
    requires forall k :: 0 <= k < |front| ==> front[k].1 >= last.1
    requires forall k :: 0 <= k < |inner| ==> inner[k] == x || inner[k] in front
    ensures SortedDesc(inner + [last])
  {
    forall k | 0 <= k < |inner| ensures inner[k].1 >= last.1 {
      if inner[k] != x {
        var j :| 0 <= j < |front| && front[j] == inner[k];
      }
    }
  }

  lemma InsertDescMembers<K>(front: seq<(K, nat)>, last: (K, nat), x: (K, nat), inner: seq<(K, nat)>)
    requires forall k :: 0 <= k < |inner| ==> inner[k] == x || inner[k] in front
    ensures forall k :: 0 <= k < |inner| + 1 ==> (inner + [last])[k] == x || (inner + [last])[k] in front + [last]
  {
  }

  lemma InsertDescMultiset<K>(front: seq<(K, nat)>, last: (K, nat), x: (K, nat), inner: seq<(K, nat)>)
    requires multiset(inner) == multiset(front) + multiset{x}
    ensures multiset(inner + [last]) == multiset(front + [last]) + multiset{x}
  {
  }

  lemma InsertDescKeys<K>(front: seq<(K, nat)>, last: (K, nat), x: (K, nat), inner: seq<(K, nat)>)
    requires DistinctKeys(inner) && last.0 != x.0
    requires forall k :: 0 <= k < |front| ==> front[k].0 != last.0
    requires forall k :: 0 <= k < |inner| ==> inner[k] == x || inner[k] in front
    ensures DistinctKeys(inner + [last])
  {
    forall k | 0 <= k < |inner| ensures inner[k].0 != last.0 {
      if inner[k] != x {
        var j :| 0 <= j < |front| && front[j] == inner[k];
      }
    }
  }

  /** A stable insertion sort from most to fewest. */
  function SortDesc<K(==)>(s: seq<(K, nat)>): (r: seq<(K, nat)>)
    ensures SortedDesc(r)
    ensures multiset(r) == multiset(s)
    ensures forall k :: 0 <= k < |r| ==> r[k] in s
    ensures SumCounts(r) == SumCounts(s)
    ensures DistinctKeys(s) ==> DistinctKeys(r)
  {
    if s == [] then []
    else
      var m := |s| - 1;
      var front := SortDesc(s[..m]);
      MultisetSnoc(s);
      PrefixMembers(s, front);
      if DistinctKeys(s) then
        SortDescKeys(s, front);
        InsertDesc(front, s[m])
      else
        InsertDesc(front, s[m])
  }

  lemma MultisetSnoc<T>(s: seq<T>)
    requires s != []
    ensures multiset(s) == multiset(s[..|s| - 1]) + multiset{s[|s| - 1]}
  {
    assert s == s[..|s| - 1] + [s[|s| - 1]];
  }

  lemma PrefixMembers<T>(s: seq<T>, front: seq<T>)
    requires s != []
    requires forall k :: 0 <= k < |front| ==> front[k] in s[..|s| - 1]
    ensures forall k :: 0 <= k < |front| ==> front[k] in s
  {
    forall k | 0 <= k < |front| ensures front[k] in s {
      var j :| 0 <= j < |s| - 1 && s[..|s| - 1][j] == front[k];
      assert s[j] == front[k];
    }
  }

  lemma SortDescKeys<K>(s: seq<(K, nat)>, front: seq<(K, nat)>)
    requires s != [] && DistinctKeys(s)
    requires forall k :: 0 <= k < |front| ==> front[k] in s[..|s| - 1]
    requires DistinctKeys(s[..|s| - 1]) ==> DistinctKeys(front)
    ensures DistinctKeys(front)
    ensures forall k :: 0 <= k < |front| ==> front[k].0 != s[|s| - 1].0
  {
    var m := |s| - 1;
    assert DistinctKeys(s[..m]);
    forall k | 0 <= k < |front| ensures front[k].0 != s[m].0 {
      var j :| 0 <= j < m && s[..m][j] == front[k];
      assert s[j] == front[k];
    }
  }

  /** Some entry of the series is labelled `c`. */
  predicate HasKey<K(==)>(s: seq<(K, nat)>, c: K) {
    exists k :: 0 <= k < |s| && s[k].0 == c
  }

  /** `valores_ausentes_por_pais`: one entry per present country, holding the
      number of missing cells in its rows, from most to fewest. The order among
      equal totals is not promised. */
  function MissingPerCountry(t: Frame): (r: Result<seq<(Cell, nat)>, ColumnError>)
    ensures r.Err? <==> !HasCountry(t)
    ensures r.Ok? ==> DistinctKeys(r.value)
    ensures r.Ok? ==> forall c :: HasKey(r.value, c) <==> !c.Missing? && IsCountry(t, c)
    ensures r.Ok? ==> forall k :: 0 <= k < |r.value| ==> r.value[k].1 == CountryTotal(t, r.value[k].0)
    ensures r.Ok? ==> SortedDesc(r.value)
    ensures r.Ok? ==> SumCounts(r.value) == Sum(GroupedRowsMissing(t))
  {
    if !HasCountry(t) then Err(NoCountryColumn)
    else
      var g := Groups(t);
      var gt := GroupTotals(Countries(t), RowsMissing(t.rows), g);
      var r := SortDesc(gt);
      MissingPerCountryFacts(t, g, gt, r);
      GroupedTotalsSum(t, g, gt);
      Ok(r)
  }

  /** Row by row, the missing cells of the rows that have a `Country`, and 0 for
      the rows that have none (they fall into no group). */
  function GroupedRowsMissing(t: Frame): (r: seq<nat>)
    requires HasCountry(t)
    ensures |r| == |t.rows|
  {
    seq(|t.rows|, i requires 0 <= i < |t.rows| =>
          if At(t, i, CountryColumn).Missing? then 0 else RowMissing(t.rows[i]))
  }

  lemma GroupedTotalsSum(t: Frame, g: seq<Cell>, gt: seq<(Cell, nat)>)
    requires HasCountry(t) && g == Groups(t)
    requires gt == GroupTotals(Countries(t), RowsMissing(t.rows), g)
    ensures SumCounts(gt) == Sum(GroupedRowsMissing(t))
  {
    var ks, ws := Countries(t), RowsMissing(t.rows);
    GroupTotalsSum(ks, ws, g);
    forall i | 0 <= i < |ks| ensures InGroups(ks, ws, g)[i] == GroupedRowsMissing(t)[i] {
      assert IsCountry(t, ks[i]);
    }
    assert InGroups(ks, ws, g) == GroupedRowsMissing(t);
  }

  lemma MissingPerCountryFacts(t: Frame, g: seq<Cell>, gt: seq<(Cell, nat)>, r: seq<(Cell, nat)>)
    requires HasCountry(t) && g == Groups(t)
    requires gt == GroupTotals(Countries(t), RowsMissing(t.rows), g)
    requires multiset(r) == multiset(gt)
    ensures DistinctKeys(gt)
    ensures forall c :: HasKey(r, c) <==> c in g
    ensures forall k :: 0 <= k < |r| ==> r[k].1 == CountryTotal(t, r[k].0)
  {
    forall k | 0 <= k < |r| ensures r[k] in gt {
      assert r[k] in multiset(r);
    }
    forall c | c in g ensures HasKey(r, c) {
      var j :| 0 <= j < |g| && g[j] == c;
      assert gt[j] in multiset(r);
      var k :| 0 <= k < |r| && r[k] == gt[j];
    }
  }

  // ---------------------------------------------------------------------------
  // How the three summaries relate
  // ---------------------------------------------------------------------------

  /** A present country has a positive total exactly when `paises_com_valores_ausentes`
      lists it. (The listing may also hold the missing marker, which forms no group.) */
  lemma PositiveTotalsAreCountriesWithMissing(t: Frame, c: Cell)
    requires HasCountry(t) && !c.Missing?
    ensures MissingPerCountry(t).Ok? && CountriesWithMissing(t).Ok?
    ensures var r := MissingPerCountry(t).value;
            (exists k :: 0 <= k < |r| && r[k].0 == c && r[k].1 > 0) <==> c in CountriesWithMissing(t).value
  {
    var r := MissingPerCountry(t).value;
    if c in CountriesWithMissing(t).value {
      ListedHasPositiveTotal(t, c);
    }
    if exists k :: 0 <= k < |r| && r[k].0 == c && r[k].1 > 0 {
      var k :| 0 <= k < |r| && r[k].0 == c && r[k].1 > 0;
      PositiveTotalIsListed(t, k);
    }
  }

  /** The country listing holds the missing marker exactly when some row has no
      `Country`: such a row has a missing cell, its `Country` one. */
  lemma MissingCountryListed(t: Frame)
    requires HasCountry(t)
    ensures CountriesWithMissing(t).Ok?
    ensures Missing in CountriesWithMissing(t).value
        <==> exists i :: 0 <= i < |t.rows| && At(t, i, CountryColumn).Missing?
  {
    if exists i :: 0 <= i < |t.rows| && At(t, i, CountryColumn).Missing? {
      var i :| 0 <= i < |t.rows| && At(t, i, CountryColumn).Missing?;
      var k := IndexOf(t.columns, CountryColumn);
      assert t.rows[i][k].Missing?;
      assert RowHasMissing(t.rows[i]);
      assert MissingRowBefore(t, Missing, |t.rows|);
    }
  }

  lemma ListedHasPositiveTotal(t: Frame, c: Cell)
    requires HasCountry(t) && !c.Missing?
    requires c in CountriesWithMissing(t).value
    ensures var r := MissingPerCountry(t).value;
            exists k :: 0 <= k < |r| && r[k].0 == c && r[k].1 > 0
  {
    var r := MissingPerCountry(t).value;
    assert MissingRowBefore(t, c, |t.rows|);
    var i :| 0 <= i < |t.rows| && RowHasMissing(t.rows[i]) && At(t, i, CountryColumn) == c;
    assert IsCountry(t, c);
    assert HasKey(r, c);
    var k :| 0 <= k < |r| && r[k].0 == c;
    assert CountryTotal(t, c) > 0;
  }

  lemma PositiveTotalIsListed(t: Frame, k: nat)
    requires HasCountry(t)
    requires k < |MissingPerCountry(t).value| && MissingPerCountry(t).value[k].1 > 0
    ensures MissingPerCountry(t).value[k].0 in CountriesWithMissing(t).value
  {
    var c := MissingPerCountry(t).value[k].0;
    assert CountryTotal(t, c) > 0;
    var i :| 0 <= i < |t.rows| && At(t, i, CountryColumn) == c && RowHasMissing(t.rows[i]);
    assert MissingRowBefore(t, c, |t.rows|);
  }

  lemma GroupSumSnoc<T>(keys: seq<T>, ws: seq<nat>, k: T, w: nat, c: T)
    requires |keys| == |ws|
    ensures GroupSum(keys + [k], ws + [w], c) == GroupSum(keys, ws, c) + (if k == c then w else 0)
  {
    assert (keys + [k])[..|keys|] == keys;
    assert (ws + [w])[..|ws|] == ws;
  }

  /** Adding a row adds its weight to the total of its group, if it has one. */
  lemma {:induction false} GroupTotalsSnoc<T>(keys: seq<T>, ws: seq<nat>, g: seq<T>, k: T, w: nat)
    requires |keys| == |ws| && Distinct(g)
    ensures SumCounts(GroupTotals(keys + [k], ws + [w], g))
         == SumCounts(GroupTotals(keys, ws, g)) + (if k in g then w else 0)
  {
    if g != [] {
      var m := |g| - 1;
      var front := g[..m];
      GroupTotalsSnoc(keys, ws, front, k, w);
      assert GroupTotals(keys + [k], ws + [w], g)[..m] == GroupTotals(keys + [k], ws + [w], front);
      assert GroupTotals(keys, ws, g)[..m] == GroupTotals(keys, ws, front);
      GroupSumSnoc(keys, ws, k, w, g[m]);
      assert g == front + [g[m]];
      assert k in g <==> k in front || k == g[m];
      assert !(k in front && k == g[m]);
    }
  }

  /** The weights of the positions whose key has a group, and 0 at the others. */
  function InGroups<T(==)>(keys: seq<T>, ws: seq<nat>, g: seq<T>): (r: seq<nat>)
    requires |keys| == |ws|
    ensures |r| == |keys|
  {
    seq(|keys|, i requires 0 <= i < |keys| => if keys[i] in g then ws[i] else 0)
  }

  /** The group totals add up to the weights of the positions whose key has a group. */
  lemma {:induction false} GroupTotalsSum<T>(keys: seq<T>, ws: seq<nat>, g: seq<T>)
    requires |keys| == |ws| && Distinct(g)
    ensures SumCounts(GroupTotals(keys, ws, g)) == Sum(InGroups(keys, ws, g))
  {
    if keys == [] {
      assert forall k :: 0 <= k < |g| ==> GroupTotals(keys, ws, g)[k].1 == 0;
      ZeroSumCounts(GroupTotals(keys, ws, g));
    } else {
      var m := |keys| - 1;
      GroupTotalsSum(keys[..m], ws[..m], g);
      assert keys == keys[..m] + [keys[m]] && ws == ws[..m] + [ws[m]];
      GroupTotalsSnoc(keys[..m], ws[..m], g, keys[m], ws[m]);
      assert InGroups(keys, ws, g)[..m] == InGroups(keys[..m], ws[..m], g);
    }
  }

  lemma {:induction false} ZeroSumCounts<K>(s: seq<(K, nat)>)
    requires forall k :: 0 <= k < |s| ==> s[k].1 == 0
    ensures SumCounts(s) == 0
  {
    if s != [] {
      ZeroSumCounts(s[..|s| - 1]);
    }
  }

  /** Two series whose values differ position by position by a 0/1 mask. */
  lemma {:induction false} SumCountsPlusMask<K>(ps: seq<(K, nat)>, qs: seq<(K, nat)>, b: seq<bool>)
    requires |ps| == |qs| == |b|
    requires forall k :: 0 <= k < |ps| ==> ps[k].1 == qs[k].1 + (if b[k] then 1 else 0)
    ensures SumCounts(ps) == SumCounts(qs) + CountTrue(b)
  {
    if ps != [] {
      var m := |ps| - 1;
      SumCountsPlusMask(ps[..m], qs[..m], b[..m]);
    }
  }

  /** Adding a row adds its missing cells to each column's count. */
  lemma PerColumnSnoc(cols: seq<string>, rows: seq<seq<Cell>>)
    requires rows != [] && Rectangular(rows, |cols|)
    ensures forall k :: 0 <= k < |cols| ==>
              PerColumn(cols, rows)[k].1
              == PerColumn(cols, rows[..|rows| - 1])[k].1 + (if MissingMask(rows[|rows| - 1])[k] then 1 else 0)
  {
    forall k | 0 <= k < |cols|
      ensures PerColumn(cols, rows)[k].1
              == PerColumn(cols, rows[..|rows| - 1])[k].1 + (if MissingMask(rows[|rows| - 1])[k] then 1 else 0)
    {
      ColumnMissingSnoc(rows, k);
    }
  }

  /** Counting missing cells column by column or row by row gives the same total. */
  lemma {:induction false} ColumnsSumToRows(cols: seq<string>, rows: seq<seq<Cell>>)
    requires Rectangular(rows, |cols|)
    ensures SumCounts(PerColumn(cols, rows)) == Sum(RowsMissing(rows))
  {
    if rows == [] {
      ZeroSumCounts(PerColumn(cols, rows));
    } else {
      var m := |rows| - 1;
      var front := rows[..m];
      ColumnsSumToRows(cols, front);
      PerColumnSnoc(cols, rows);
      SumCountsPlusMask(PerColumn(cols, rows), PerColumn(cols, front), MissingMask(rows[m]));
      assert RowsMissing(rows)[..m] == RowsMissing(front);
    }
  }

  /** When every row has a `Country`, the per-country totals add up to the same
      number as the per-column counts: every missing cell is counted once. */
  lemma TotalsAgree(t: Frame)
    requires HasCountry(t)
    requires forall i :: 0 <= i < |t.rows| ==> !At(t, i, CountryColumn).Missing?
    ensures MissingPerCountry(t).Ok?
    ensures SumCounts(MissingPerCountry(t).value) == SumCounts(MissingPerColumn(t))
  {
    assert GroupedRowsMissing(t) == RowsMissing(t.rows);
    ColumnsSumToRows(t.columns, t.rows);
  }
}
