/** Python dictionaries as the script uses them: insertion-ordered, a new key
    goes to the end, and assigning to a key already present replaces its value
    where it stands. The tables of the analysis are dictionaries of inner
    dictionaries: the read table maps a read to its labels per row key ("exp"
    or a setting), the abundance table maps a taxon to its counts per row key. */
module Dicts {
  import opened Common

  type Dict<V> = seq<(string, V)>

  function Keys<V>(d: Dict<V>): (ks: seq<string>)
    ensures |ks| == |d|
    ensures forall i :: 0 <= i < |d| ==> ks[i] == d[i].0
  {
    seq(|d|, i requires 0 <= i < |d| => d[i].0)
  }

  predicate Distinct(ks: seq<string>) {
    forall i, j :: 0 <= i < j < |ks| ==> ks[i] != ks[j]
  }

  /** `d.get(k)`: the value of the first entry for k. */
  function Get<V>(d: Dict<V>, k: string): Option<V> {
    if d == [] then None
    else if d[0].0 == k then Some(d[0].1)
    else Get(d[1..], k)
  }

  /** A key has a value exactly when it is one of the keys, and that value
      is the one of an entry for the key. */
  lemma {:induction false} GetFacts<V>(d: Dict<V>, k: string)
    ensures Get(d, k).None? <==> k !in Keys(d)
    ensures Get(d, k).Some? ==> exists i :: 0 <= i < |d| && d[i] == (k, Get(d, k).value)
  {
    if d != [] && d[0].0 == k {
      assert Keys(d)[0] == k;
      assert d[0] == (k, Get(d, k).value);
    } else if d != [] {
      GetFacts(d[1..], k);
      if k in Keys(d) {
        var i :| 0 <= i < |d| && Keys(d)[i] == k;
        assert Keys(d[1..])[i - 1] == k;
      }
      if k in Keys(d[1..]) {
        var i :| 0 <= i < |d| - 1 && Keys(d[1..])[i] == k;
        assert Keys(d)[i + 1] == k;
      }
      var r := Get(d, k);
      if r.Some? {
        var v := r.value;
        var i :| 0 <= i < |d[1..]| && d[1..][i] == (k, v);
        assert d[i + 1] == (k, v);
      }
    }
  }

  /** `d[k] = v`. */
  function Put<V>(d: Dict<V>, k: string, v: V): Dict<V> {
    if d == [] then [(k, v)]
    else if d[0].0 == k then [(k, v)] + d[1..]
    else [d[0]] + Put(d[1..], k, v)
  }

  /** After `d[k] = v` the keys are those of d, with k appended when it is
      new; k holds v and every other key keeps its value. */
  lemma PutFacts<V>(d: Dict<V>, k: string, v: V)
    ensures Keys(Put(d, k, v)) == if k in Keys(d) then Keys(d) else Keys(d) + [k]
    ensures Get(Put(d, k, v), k) == Some(v)
    ensures forall k' :: k' != k ==> Get(Put(d, k, v), k') == Get(d, k')
  {
    PutKeys(d, k, v);
    PutGetSame(d, k, v);
    forall k' | k' != k ensures Get(Put(d, k, v), k') == Get(d, k') {
      PutGetOther(d, k, v, k');
    }
  }

  lemma {:induction false} PutKeys<V>(d: Dict<V>, k: string, v: V)
    ensures Keys(Put(d, k, v)) == if k in Keys(d) then Keys(d) else Keys(d) + [k]
  {
    var r := Put(d, k, v);
    if d == [] {
    } else if d[0].0 == k {
      assert Keys(d)[0] == k;
      assert |Keys(r)| == |Keys(d)|;
      forall i | 0 <= i < |r| ensures Keys(r)[i] == Keys(d)[i] {
        if i > 0 {
          assert r[i] == d[i];
        }
      }
    } else {
      var rest := Put(d[1..], k, v);
      PutKeys(d[1..], k, v);
      assert r == [d[0]] + rest;
      PutKeysStep(d, k, rest);
    }
  }

  lemma {:induction false} PutGetSame<V>(d: Dict<V>, k: string, v: V)
    ensures Get(Put(d, k, v), k) == Some(v)
  {
    if d != [] && d[0].0 != k {
      PutGetSame(d[1..], k, v);
      assert Put(d, k, v)[1..] == Put(d[1..], k, v);
    }
  }

  lemma {:induction false} PutGetOther<V>(d: Dict<V>, k: string, v: V, k': string)
    requires k' != k
    ensures Get(Put(d, k, v), k') == Get(d, k')
  {
    if d == [] {
    } else if d[0].0 == k {
      assert Put(d, k, v)[1..] == d[1..];
    } else if d[0].0 != k' {
      PutGetOther(d[1..], k, v, k');
      assert Put(d, k, v)[1..] == Put(d[1..], k, v);
    }
  }

  /** The keys of `[d[0]] + rest`, when `rest` is `d[1..]` with k assigned and d[0] is not k. */
  lemma PutKeysStep<V>(d: Dict<V>, k: string, rest: Dict<V>)
    requires d != [] && d[0].0 != k
    requires Keys(rest) == if k in Keys(d[1..]) then Keys(d[1..]) else Keys(d[1..]) + [k]
    ensures Keys([d[0]] + rest) == if k in Keys(d) then Keys(d) else Keys(d) + [k]
  {
    var r := [d[0]] + rest;
    assert k in Keys(d) <==> k in Keys(d[1..]) by {
      if k in Keys(d) {
        var i :| 0 <= i < |d| && Keys(d)[i] == k;
        assert Keys(d[1..])[i - 1] == k;
      }
      if k in Keys(d[1..]) {
        var i :| 0 <= i < |d| - 1 && Keys(d[1..])[i] == k;
        assert Keys(d)[i + 1] == k;
      }
    }
    var target := if k in Keys(d) then Keys(d) else Keys(d) + [k];
    assert |Keys(r)| == |target|;
    forall i | 0 <= i < |r| ensures Keys(r)[i] == target[i] {
      if i > 0 {
        assert r[i] == rest[i - 1];
        assert Keys(rest)[i - 1] == rest[i - 1].0;
      }
    }
  }

  lemma PutKeepsDistinct<V>(d: Dict<V>, k: string, v: V)
    requires Distinct(Keys(d))
    ensures Distinct(Keys(Put(d, k, v)))
  {
    PutKeys(d, k, v);
  }

  /** The cell of column `col` (a read or a taxon) in row `row` ("exp" or a
      setting), when that cell exists. */
  function Cell<V>(d: Dict<map<string, V>>, col: string, row: string): Option<V> {
    match Get(d, col)
    case None => None
    case Some(m) => if row in m then Some(m[row]) else None
  }

  /** After `d[k] = m` the cells of column k are those of m and no other column changes. */
  lemma PutCells<V>(d: Dict<map<string, V>>, k: string, m: map<string, V>)
    ensures forall row :: Cell(Put(d, k, m), k, row) == if row in m then Some(m[row]) else None
    ensures forall col, row :: col != k ==> Cell(Put(d, k, m), col, row) == Cell(d, col, row)
  {
    PutFacts(d, k, m);
  }

  /** `m.get(key, 0)`. */
  function CountOr0(m: map<string, int>, key: string): int {
    if key in m then m[key] else 0
  }

  /** The sum of one row of a count table over all its columns, with 0 in
      every cell that does not exist. */
  function RowSum(d: Dict<map<string, int>>, row: string): int {
    if d == [] then 0 else CountOr0(d[0].1, row) + RowSum(d[1..], row)
  }

  /** Replacing one column's inner dictionary changes a row's sum by exactly
      the difference in that column. */
  lemma {:induction false} RowSumPut(d: Dict<map<string, int>>, k: string, m: map<string, int>, row: string)
    ensures RowSum(Put(d, k, m), row) ==
            RowSum(d, row) - (if Get(d, k).Some? then CountOr0(Get(d, k).value, row) else 0) + CountOr0(m, row)
  {
    if d == [] {
    } else if d[0].0 == k {
      assert Put(d, k, m)[1..] == d[1..];
    } else {
      RowSumPut(d[1..], k, m, row);
      assert Put(d, k, m)[1..] == Put(d[1..], k, m);
    }
  }

  /** The row keys that some column holds a cell in: the rows pandas creates. */
  function Rows<V>(d: Dict<map<string, V>>): set<string> {
    if d == [] then {} else d[0].1.Keys + Rows(d[1..])
  }

  /** A row exists exactly when some column holds a cell in it. */
  lemma {:induction false} RowsHold<V>(d: Dict<map<string, V>>, row: string)
    ensures row in Rows(d) <==> exists i :: 0 <= i < |d| && row in d[i].1
  {
    if d != [] {
      RowsHold(d[1..], row);
      if row in Rows(d[1..]) {
        var i :| 0 <= i < |d[1..]| && row in d[1..][i].1;
        assert d[i + 1] == d[1..][i];
      }
      forall i | 1 <= i < |d| && row in d[i].1 ensures row in Rows(d[1..]) {
        assert d[1..][i - 1] == d[i];
      }
    }
  }

  /** Replacing a column by one holding at least its rows adds exactly that column's rows. */
  lemma {:induction false} RowsPut<V>(d: Dict<map<string, V>>, k: string, m: map<string, V>)
    requires Get(d, k).Some? ==> Get(d, k).value.Keys <= m.Keys
    ensures Rows(Put(d, k, m)) == Rows(d) + m.Keys
  {
    if d == [] {
    } else if d[0].0 == k {
      assert Put(d, k, m) == [(k, m)] + d[1..];
      assert Get(d, k) == Some(d[0].1);
    } else {
      assert Get(d[1..], k) == Get(d, k);
      RowsPut(d[1..], k, m);
      assert Put(d, k, m) == [d[0]] + Put(d[1..], k, m);
    }
  }

  /** The rows of any one column are rows of the table. */
  lemma {:induction false} GetRows<V>(d: Dict<map<string, V>>, k: string)
    ensures Get(d, k).Some? ==> Get(d, k).value.Keys <= Rows(d)
  {
    if d != [] && d[0].0 != k {
      GetRows(d[1..], k);
    }
  }

  /** A row that no column holds sums to zero. */
  lemma {:induction false} RowSumAbsent(d: Dict<map<string, int>>, row: string)
    requires row !in Rows(d)
    ensures RowSum(d, row) == 0
  {
    if d != [] {
      RowSumAbsent(d[1..], row);
    }
  }
}
