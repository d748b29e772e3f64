/** Shared result types and sentinel values (common.h). */
module Common {

  datatype Option<+T> = None | Some(value: T)

  /** How a call can fail: the program throws in each of these cases. */
  datatype Error = KeyNotFound | StashOverflow

  datatype Result<+T> = Ok(value: T) | Err(error: Error)

  const INVALID_KEY: int := -1
  const INVALID_LEAF: int := -1

  /** An arbitrary element. Hash maps and hash sets are iterated in an unspecified order. */
  method Pick<T>(s: set<T>) returns (x: T)
    requires s != {}
    ensures x in s
  {
    x :| x in s;
  }

  /** The map after a run of lookups and updates. */
  function AfterAll<V>(m: map<int, V>, requests: seq<(int, Option<V>)>): map<int, V> {
    if requests == [] then m
    else
      var n := |requests| - 1;
      var before, (key, value) := AfterAll(m, requests[..n]), requests[n];
      if value.Some? && key in before then before[key := value.value] else before
  }
}
