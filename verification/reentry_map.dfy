/** `DefaultReentryConcurrentMap`: the process-wide table of reentry
    depths, keyed by `resource + owner`. Its backing map is a static field,
    so every instance (including the fresh one `RedisOperator.reentryMap()`
    hands out on each call) reads and writes one shared table; the model
    therefore keeps exactly one such table inside the lock state. The
    `AtomicInteger` cells are represented by their current value. */
module ReentryMap {
  import opened Wrappers
  import opened JavaLang

  type Table = map<string, Int32>

  /** `get`: the cell for `key`, or null. */
  function Get(m: Table, key: string): (r: Option<Int32>)
    ensures r.Some? <==> key in m
    ensures r.Some? ==> r.value == m[key]
  {
    if key in m then Some(m[key]) else None
  }

  /** `getOrDefault`: the stored cell when `key` is present, `default`
      otherwise. The default is returned, never inserted. */
  function GetOrDefault(m: Table, key: string, default: Int32): (r: Int32)
    ensures Get(m, key).Some? ==> r == Get(m, key).value
    ensures Get(m, key).None? ==> r == default
  {
    if key in m then m[key] else default
  }

  /** `put`: a later `get(key)` sees `value`; every other key is untouched. */
  function Put(m: Table, key: string, value: Int32): (r: Table)
    ensures Get(r, key) == Some(value)
    ensures forall k :: k != key ==> Get(r, k) == Get(m, k)
    ensures r.Keys == m.Keys + {key}
  {
    m[key := value]
  }

  /** `remove`: a later `get(key)` sees null; every other key is untouched. */
  function Remove(m: Table, key: string): (r: Table)
    ensures Get(r, key) == None
    ensures forall k :: k != key ==> Get(r, k) == Get(m, k)
    ensures r.Keys == m.Keys - {key}
  {
    m - {key}
  }
}
