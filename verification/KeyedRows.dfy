/** Rows told apart by a key: what a `seen` set collected in a loop says about the rows before it. */
module KeyedRows {

  function KeysBefore<T, K(==)>(rows: seq<T>, n: nat, key: T -> K): set<K>
    requires n <= |rows|
  {
    if n == 0 then {} else KeysBefore(rows, n - 1, key) + {key(rows[n - 1])}
  }

  predicate KeysDistinct<T, K(==)>(rows: seq<T>, n: nat, key: T -> K)
    requires n <= |rows|
  {
    forall i, j :: 0 <= i < j < n ==> key(rows[i]) != key(rows[j])
  }

  lemma {:induction false} KeysBeforeAreTheKeys<T, K>(rows: seq<T>, n: nat, key: T -> K, k: K)
    requires n <= |rows|
    ensures k in KeysBefore(rows, n, key) <==> exists i :: 0 <= i < n && key(rows[i]) == k
  {
    if n > 0 {
      KeysBeforeAreTheKeys(rows, n - 1, key, k);
    }
  }

  /** Looking each key up among those before it is looking for two equal keys. */
  lemma {:induction false} DistinctSoFar<T, K>(rows: seq<T>, n: nat, key: T -> K)
    requires 0 < n <= |rows|
    ensures KeysDistinct(rows, n, key) <==> KeysDistinct(rows, n - 1, key) && key(rows[n - 1]) !in KeysBefore(rows, n - 1, key)
  {
    KeysBeforeAreTheKeys(rows, n - 1, key, key(rows[n - 1]));
  }
}
