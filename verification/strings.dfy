/** C string helpers shared by the proxy and the backend: the first-occurrence
    search that `strstr` performs. Strings are the bytes `strlen` sees. */
module Strings {

  datatype Option<T> = None | Some(value: T)

  /** `key` occurs in `line` starting at position `p`. */
  predicate OccursAt(line: string, key: string, p: int)
  {
    0 <= p && p + |key| <= |line| && line[p..p + |key|] == key
  }

  /** First occurrence of `key` in `line` at or after `from`. */
  function FindFrom(line: string, key: string, from: nat): (r: Option<nat>)
    ensures r.Some? ==> from <= r.value && OccursAt(line, key, r.value)
    ensures r.Some? ==> forall q :: from <= q < r.value ==> !OccursAt(line, key, q)
    ensures r.None? ==> forall q :: from <= q ==> !OccursAt(line, key, q)
    decreases |line| + 1 - from
  {
    if from + |key| > |line| then None
    else if line[from..from + |key|] == key then Some(from)
    else FindFrom(line, key, from + 1)
  }

  /** `strstr(line, key)` as an offset: the first position where `key`
      occurs, or None when it does not occur at all. An empty key occurs at 0. */
  function FindFirst(line: string, key: string): (r: Option<nat>)
    ensures r.Some? <==> exists q :: OccursAt(line, key, q)
    ensures r.Some? ==> OccursAt(line, key, r.value)
    ensures r.Some? ==> forall q :: 0 <= q < r.value ==> !OccursAt(line, key, q)
  {
    FindFrom(line, key, 0)
  }
}
