module Wrappers {
  datatype Option<T> = None | Some(value: T)

  ghost predicate NoRepeats<T>(s: seq<T>) {
    forall i, j :: 0 <= i < j < |s| ==> s[i] != s[j]
  }

  lemma {:induction false} Overwrite<K, V>(f: map<K, V>, k: K, v: V, w: V)
    ensures f[k := v][k := w] == f[k := w]
  {
  }

  lemma {:induction false} Unwritten<K, V>(f: map<K, V>, k: K)
    requires k in f
    ensures f[k := f[k]] == f
  {
  }
}
