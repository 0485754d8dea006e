/** Option and Result, used for absent values and for the exceptions the Python code raises, and one fact about maps. */
module Wrappers {
  datatype Option<+T> = None | Some(value: T)

  datatype Result<+T, +E> = Ok(value: T) | Err(error: E)

  lemma MinusTwice<K, V>(m: map<K, V>, done: set<K>, k: K)
    ensures m - done - {k} == m - (done + {k})
  {}
}
