/** The `/grafico_dados` route of `app.py`: the expense sums per category,
    built into an insertion-ordered dictionary, with the fixed costs added as
    one more slice, and split into the chart's labels and values. The two
    queries are parameters: their results, or the exception one raised. */
module Chart {
  import opened Wrappers

  /** One `(categoria, sum)` pair, as a row of the GROUP BY query or an item
      of the dictionary. */
  type Entry = (string, real)

  /** A Python dict keeps its keys in insertion order: it is modelled as the
      sequence of its items in that order. */
  type Dict = seq<Entry>

  const FixedCosts: string := "Despesas Fixas"
  const NoExpenses: string := "Nenhum gasto"

  function Keys(d: Dict): (ks: seq<string>)
    ensures |ks| == |d| && forall i :: 0 <= i < |d| ==> ks[i] == d[i].0
  {
    seq(|d|, i requires 0 <= i < |d| => d[i].0)
  }

  function Values(d: Dict): (vs: seq<real>)
    ensures |vs| == |d| && forall i :: 0 <= i < |d| ==> vs[i] == d[i].1
  {
    seq(|d|, i requires 0 <= i < |d| => d[i].1)
  }

  lemma KeysCons(e: Entry, d: Dict)
    ensures Keys([e] + d) == [e.0] + Keys(d)
  {
    var l := Keys([e] + d);
    var r := [e.0] + Keys(d);
    assert |l| == |r|;
    forall i | 0 <= i < |l| ensures l[i] == r[i] {
      if i > 0 {
        assert ([e] + d)[i] == d[i - 1];
      }
    }
  }

  /** `d.get(k)`. */
  function Get(d: Dict, k: string): (r: Option<real>)
    ensures r.Some? <==> k in Keys(d)
  {
    if |d| == 0 then None
    else
      KeysCons(d[0], d[1..]);
      assert [d[0]] + d[1..] == d;
      if d[0].0 == k then Some(d[0].1)
      else Get(d[1..], k)
  }

  /** In a dictionary each key reads the value stored with it. */
  lemma {:induction false} GetAt(d: Dict, i: int)
    requires DistinctKeys(d) && 0 <= i < |d|
    ensures Get(d, d[i].0) == Some(d[i].1)
  {
    if i > 0 {
      assert d[0].0 != d[i].0;
      assert d[1..][i - 1] == d[i];
      GetAt(d[1..], i - 1);
    }
  }

  /** `d[k] = v`: an existing key keeps its place; a new key goes at the
      end. */
  function Set(d: Dict, k: string, v: real): (r: Dict)
    ensures Keys(r) == if k in Keys(d) then Keys(d) else Keys(d) + [k]
  {
    if |d| == 0 then [(k, v)]
    else if d[0].0 == k then
      var r := [(k, v)] + d[1..];
      KeysCons((k, v), d[1..]);
      KeysCons(d[0], d[1..]);
      assert [d[0]] + d[1..] == d;
      r
    else
      var rest := Set(d[1..], k, v);
      var r := [d[0]] + rest;
      KeysCons(d[0], rest);
      KeysCons(d[0], d[1..]);
      assert [d[0]] + d[1..] == d;
      r
  }

  /** `d[k] = v` for a key not yet in `d` appends the item. */
  lemma {:induction false} SetNew(d: Dict, k: string, v: real)
    requires k !in Keys(d)
    ensures Set(d, k, v) == d + [(k, v)]
  {
    if |d| > 0 {
      KeysCons(d[0], d[1..]);
      assert [d[0]] + d[1..] == d;
      assert Keys(d)[0] == d[0].0;
      SetNew(d[1..], k, v);
      assert [d[0]] + (d[1..] + [(k, v)]) == d + [(k, v)];
    }
  }

  /** After `d[k] = v`, `k` reads `v` and every other key reads what it read
      before. */
  lemma {:induction false} SetGet(d: Dict, k: string, v: real)
    ensures Get(Set(d, k, v), k) == Some(v)
    ensures forall k' :: k' != k ==> Get(Set(d, k, v), k') == Get(d, k')
  {
    if |d| > 0 && d[0].0 != k {
      SetGet(d[1..], k, v);
      var r := Set(d, k, v);
      assert r[1..] == Set(d[1..], k, v);
    } else if |d| > 0 {
      assert Set(d, k, v)[1..] == d[1..];
    }
  }

  /** Setting a key keeps the keys of a dictionary distinct. */
  lemma SetUnique(d: Dict, k: string, v: real)
    requires DistinctKeys(d)
    ensures DistinctKeys(Set(d, k, v))
  {
    var r := Set(d, k, v);
    forall i, j | 0 <= i < j < |r| ensures r[i].0 != r[j].0 {
      assert Keys(r)[i] == r[i].0 && Keys(r)[j] == r[j].0;
      if j == |d| {
        assert Keys(d)[i] == r[i].0;
      } else {
        assert Keys(d)[i] == r[i].0 && Keys(d)[j] == r[j].0;
      }
    }
  }

  /** The value the last row with key `k` carries, if any. */
  function LastValue(rows: seq<Entry>, k: string): Option<real> {
    if |rows| == 0 then None
    else if rows[|rows| - 1].0 == k then Some(rows[|rows| - 1].1)
    else LastValue(rows[..|rows| - 1], k)
  }

  /** `dict(rows)`: the rows set in order, so a repeated key keeps its first
      place and its last value. */
  function FromPairs(rows: seq<Entry>): (d: Dict)
    ensures DistinctKeys(d)
    ensures forall k :: Get(d, k) == LastValue(rows, k)
    ensures |d| <= |rows| && (|d| == 0 <==> |rows| == 0)
  {
    if |rows| == 0 then []
    else
      var last := rows[|rows| - 1];
      var prev := FromPairs(rows[..|rows| - 1]);
      var d := Set(prev, last.0, last.1);
      SetUnique(prev, last.0, last.1);
      SetGet(prev, last.0, last.1);
      assert |Keys(d)| > 0;
      d
  }

  /** Building the dictionary one row further sets that row's key. */
  lemma FromPairsStep(rows: seq<Entry>, i: int)
    requires 0 <= i < |rows|
    ensures FromPairs(rows[..i + 1]) == Set(FromPairs(rows[..i]), rows[i].0, rows[i].1)
  {
    assert rows[..i + 1][..i] == rows[..i];
  }

  /** The keys of `ks` in the order each first occurs. */
  function FirstOccurrences(ks: seq<string>): seq<string> {
    if |ks| == 0 then []
    else
      var seen := FirstOccurrences(ks[..|ks| - 1]);
      if ks[|ks| - 1] in seen then seen else seen + [ks[|ks| - 1]]
  }

  /** `dict(rows)` lists each key where the rows first name it. */
  lemma {:induction false} FromPairsOrder(rows: seq<Entry>)
    ensures Keys(FromPairs(rows)) == FirstOccurrences(Keys(rows))
  {
    if |rows| > 0 {
      var prefix, last := rows[..|rows| - 1], rows[|rows| - 1];
      var ks := Keys(rows);
      FromPairsOrder(prefix);
      assert Keys(prefix) == ks[..|ks| - 1];
      assert ks[|ks| - 1] == last.0;
      assert FromPairs(rows) == Set(FromPairs(prefix), last.0, last.1);
      assert FirstOccurrences(ks) ==
        if last.0 in Keys(FromPairs(prefix)) then Keys(FromPairs(prefix))
        else Keys(FromPairs(prefix)) + [last.0];
    }
  }

  /** Distinct keys stay distinct without the last row, whose key the
      others do not have. */
  lemma UniqueLast(rows: seq<Entry>)
    requires DistinctKeys(rows) && |rows| > 0
    ensures DistinctKeys(rows[..|rows| - 1])
    ensures rows[|rows| - 1].0 !in Keys(rows[..|rows| - 1])
  {
    var prefix := rows[..|rows| - 1];
    forall i | 0 <= i < |prefix| ensures Keys(prefix)[i] != rows[|rows| - 1].0 {
      assert prefix[i] == rows[i];
    }
  }

  /** Rows whose keys are distinct, as a GROUP BY returns them, make a
      dictionary with exactly those items in that order. */
  lemma {:induction false} FromPairsDistinct(rows: seq<Entry>)
    requires DistinctKeys(rows)
    ensures FromPairs(rows) == rows
  {
    if |rows| > 0 {
      var prefix := rows[..|rows| - 1];
      var last := rows[|rows| - 1];
      UniqueLast(rows);
      FromPairsDistinct(prefix);
      SetNew(prefix, last.0, last.1);
      assert prefix + [last] == rows;
    }
  }

  /** The dictionary `/grafico_dados` ends with: the categories, then the
      fixed costs if positive (overwriting a category of that name in place),
      and a zero placeholder if that leaves nothing. */
  function ChartMap(rows: seq<Entry>, totalFixas: real): Dict {
    var d := FromPairs(rows);
    var d2 := if totalFixas > 0.0 then Set(d, FixedCosts, totalFixas) else d;
    if |d2| == 0 then [(NoExpenses, 0.0)] else d2
  }

  /** `dict(rows)`, one row at a time. */
  method DictFromRows(rows: seq<Entry>) returns (d: Dict)
    ensures d == FromPairs(rows)
  {
    d := [];
    var i := 0;
    while i < |rows|
      invariant 0 <= i <= |rows|
      invariant d == FromPairs(rows[..i])
    {
      FromPairsStep(rows, i);
      d := Set(d, rows[i].0, rows[i].1);
      i := i + 1;
    }
    assert rows[..i] == rows;
  }

  /** `/grafico_dados`: labels and values of the chart; on an exception, the
      single "Erro" slice with status 500. */
  method GraficoDados(rows: Outcome<seq<Entry>>, totalFixas: Outcome<real>)
    returns (labels: seq<string>, valores: seq<real>, status: int)
    ensures rows.Raised? || totalFixas.Raised? ==> labels == ["Erro"] && valores == [1.0] && status == 500
    ensures rows.Returned? && totalFixas.Returned? ==>
      var c := ChartMap(rows.value, totalFixas.value);
      labels == Keys(c) && valores == Values(c) && status == 200
  {
    if rows.Raised? {
      return ["Erro"], [1.0], 500;
    }
    var gastos := DictFromRows(rows.value);
    if totalFixas.Raised? {
      return ["Erro"], [1.0], 500;
    }
    if totalFixas.value > 0.0 {
      gastos := Set(gastos, FixedCosts, totalFixas.value);
    }
    if |gastos| == 0 {
      gastos := [(NoExpenses, 0.0)];
    }
    assert gastos == ChartMap(rows.value, totalFixas.value);
    labels := Keys(gastos);
    valores := Values(gastos);
    status := 200;
  }

  /** The chart is never empty, names each label once, and gives every label
      the value at the same index. */
  lemma ChartAligned(rows: seq<Entry>, totalFixas: real)
    ensures var c := ChartMap(rows, totalFixas);
      && |Keys(c)| == |Values(c)| >= 1
      && DistinctKeys(c)
      && forall i :: 0 <= i < |c| ==> Get(c, Keys(c)[i]) == Some(Values(c)[i])
  {
    var c := ChartMap(rows, totalFixas);
    if totalFixas > 0.0 {
      SetUnique(FromPairs(rows), FixedCosts, totalFixas);
    }
    assert DistinctKeys(c);
    forall i | 0 <= i < |c| ensures Get(c, Keys(c)[i]) == Some(Values(c)[i]) {
      GetAt(c, i);
    }
  }

  /** The fixed-costs slice carries the fixed costs exactly when they are
      positive; otherwise it is whatever the query returned under that name. */
  lemma ChartFixedCosts(rows: seq<Entry>, totalFixas: real)
    ensures totalFixas > 0.0 ==> Get(ChartMap(rows, totalFixas), FixedCosts) == Some(totalFixas)
    ensures totalFixas <= 0.0 ==> Get(ChartMap(rows, totalFixas), FixedCosts) == LastValue(rows, FixedCosts)
  {
    SetGet(FromPairs(rows), FixedCosts, totalFixas);
  }

  /** Every other category carries the sum of its last row; the placeholder
      appears exactly when there are no rows and no positive fixed costs. */
  lemma ChartCategories(rows: seq<Entry>, totalFixas: real, k: string)
    requires k != FixedCosts
    ensures var placeholder := rows == [] && totalFixas <= 0.0;
      && (placeholder <==> ChartMap(rows, totalFixas) == [(NoExpenses, 0.0)] && LastValue(rows, NoExpenses) != Some(0.0))
      && Get(ChartMap(rows, totalFixas), k) == if placeholder && k == NoExpenses then Some(0.0) else LastValue(rows, k)
  {
    var c := ChartMap(rows, totalFixas);
    if totalFixas > 0.0 {
      SetUnique(FromPairs(rows), FixedCosts, totalFixas);
      SetGet(FromPairs(rows), FixedCosts, totalFixas);
    }
  }

  /** The labels are the categories in the order the query first returned
      them, then "Despesas Fixas" when it is positive and not already one of
      them. */
  lemma ChartOrder(rows: seq<Entry>, totalFixas: real)
    requires rows != [] || totalFixas > 0.0
    ensures var cats := FirstOccurrences(Keys(rows));
      Keys(ChartMap(rows, totalFixas)) ==
        if totalFixas > 0.0 && FixedCosts !in cats then cats + [FixedCosts] else cats
  {
    FromPairsOrder(rows);
  }

  /** For GROUP BY rows the labels are the categories in the order the query
      returned them, then "Despesas Fixas" when it is positive and not
      already one of them. */
  lemma ChartLabels(rows: seq<Entry>, totalFixas: real)
    requires DistinctKeys(rows) && (rows != [] || totalFixas > 0.0)
    ensures Keys(ChartMap(rows, totalFixas)) ==
      if totalFixas > 0.0 && FixedCosts !in Keys(rows) then Keys(rows) + [FixedCosts] else Keys(rows)
  {
    FromPairsDistinct(rows);
    ChartOrder(rows, totalFixas);
  }
}
