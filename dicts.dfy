/** Python dictionaries from names to amounts, kept as ordered association
    lists so that the insertion order the source iterates in is visible. */
module Dicts {

  type Dict = seq<(string, real)>

  /** `sum(d.values())`; the empty dictionary sums to 0. */
  function SumValues(d: Dict): real
  {
    if d == [] then 0.0 else SumValues(d[..|d| - 1]) + d[|d| - 1].1
  }

  lemma {:induction false} SumValuesAppend(d: Dict, e: Dict)
    ensures SumValues(d + e) == SumValues(d) + SumValues(e)
    decreases |e|
  {
    if e == [] {
      assert d + e == d;
    } else {
      var e' := e[..|e| - 1];
      assert (d + e)[..|d + e| - 1] == d + e';
      SumValuesAppend(d, e');
    }
  }

  /** `d.get(key, default)`: the value stored under `key`, or `default`. */
  function Get(d: Dict, key: string, default: real): (v: real)
    ensures (forall i :: 0 <= i < |d| ==> d[i].0 != key) ==> v == default
    ensures (exists i :: 0 <= i < |d| && d[i].0 == key) ==>
              exists i :: 0 <= i < |d| && d[i] == (key, v)
  {
    if d == [] then default
    else if d[0].0 == key then d[0].1
    else
      var v := Get(d[1..], key, default);
      assert forall i :: 0 <= i < |d| - 1 ==> d[1..][i] == d[i + 1];
      v
  }
}
