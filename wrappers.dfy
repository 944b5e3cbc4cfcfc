/** Option, Outcome and Result: the absent results ("null pointer") and
    the reported capacity errors of the model; and the one map operation
    the source relies on everywhere. */
module Wrappers {

  datatype Option<+T> = None | Some(value: T)

  /** Pass, or Fail with the reason an operation refused to act. */
  datatype Outcome<+E> = Pass | Fail(error: E)

  datatype Result<+R, +E> = Success(value: R) | Failure(error: E)

  /** `std::unordered_map::insert({k, v})`: adds the entry only when the
      key is new; an existing entry keeps its value, so inserting the same
      key again never changes the map. */
  function MapInsert<K, W>(m: map<K, W>, k: K, v: W): (r: map<K, W>)
    ensures k in r && r.Keys == m.Keys + {k}
    ensures k in m ==> r == m
    ensures k !in m ==> r == m[k := v]
    ensures forall j :: j in m ==> r[j] == m[j]
  {
    if k in m then m else m[k := v]
  }
}
