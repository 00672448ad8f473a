/** The key-value store behind `RedisOperator`: a map from key to value on
    which `setNx` sets only an absent key, plus the things that happen to
    it between two of our calls (expiry of a record, another process
    taking a lock). Time-to-live values are not tracked: expiry is an
    environment step. */
module RedisStore {
  import opened Wrappers

  type Store = map<string, string>

  datatype SetNxResult = SetNxResult(won: bool, store: Store)

  /** `RedisOperator.setNx`: atomic set-if-absent. */
  function SetNx(st: Store, key: string, value: string): (r: SetNxResult)
    ensures r.won <==> key !in st
    ensures r.won ==> key in r.store && r.store[key] == value
    ensures forall k :: k != key ==> (k in r.store <==> k in st)
    ensures forall k :: k in st ==> k in r.store && r.store[k] == st[k]
  {
    if key in st then SetNxResult(false, st) else SetNxResult(true, st[key := value])
  }

  /** `RedisOperator.get`: the stored value, or null. */
  function Get(st: Store, key: string): (r: Option<string>)
    ensures r.Some? <==> key in st
    ensures r.Some? ==> r.value == st[key]
  {
    if key in st then Some(st[key]) else None
  }

  /** `RedisOperator.del`. */
  function Del(st: Store, key: string): (r: Store)
    ensures key !in r
    ensures forall k :: k != key ==> (k in r <==> k in st)
    ensures forall k :: k in r ==> r[k] == st[k]
  {
    st - {key}
  }

  /** What the rest of the world may do to the store between two of our
      calls: a record expires (or another process releases it), or another
      process performs its own set-if-absent. */
  datatype EnvStep = Expire(key: string) | Claim(key: string, owner: string)

  function Apply(st: Store, e: EnvStep): Store
  {
    match e
    case Expire(k) => Del(st, k)
    case Claim(k, v) => SetNx(st, k, v).store
  }

  function ApplyAll(st: Store, es: seq<EnvStep>): Store
    decreases |es|
  {
    if |es| == 0 then st else ApplyAll(Apply(st, es[0]), es[1..])
  }
}
