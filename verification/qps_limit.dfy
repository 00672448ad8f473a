/** `QpsLimitUtil`: a per-second admission counter. Each call adds its
    weight to the counter of the bucket named by the key and the current
    second, and is rejected when that counter goes above the limit. The
    cache is a plain map and the current time is a parameter. */
module QpsLimit {
  import opened Wrappers
  import opened JavaLang

  type Buckets = map<string, Int32>

  /** `LimitException` (the limit was exceeded, with the count reached),
      or the `NullPointerException` `key.concat` throws on a null key. */
  datatype LimitError = Limited(count: Int32) | NullKey

  datatype Admission = Admission(result: Result<(), LimitError>, buckets: Buckets)

  /** `System.currentTimeMillis() / 1000` in Java: division truncating towards zero. */
  function Second(nowMillis: Int64): (r: int)
    ensures nowMillis >= 0 ==> 1000 * r <= nowMillis < 1000 * r + 1000
    ensures nowMillis < 0 ==> 1000 * r - 1000 < nowMillis <= 1000 * r
  {
    var n: int := nowMillis;
    if n >= 0 then n / 1000 else -((-n) / 1000)
  }

  /** `key.concat(String.valueOf(time))`: no separator. */
  function BucketKey(key: string, nowMillis: Int64): (r: string)
    ensures |r| > |key| && r[..|key|] == key
    ensures IsDecimalText(r[|key|..]) && ParseDecimal(r[|key|..]) == Second(nowMillis)
  {
    var text := DecimalString(Second(nowMillis));
    DecimalRoundTrip(Second(nowMillis));
    assert (key + text)[|key|..] == text;
    key + text
  }

  /** The counter a bucket holds, zero when it has none yet. */
  function Count(buckets: Buckets, bucket: string): Int32
  {
    if bucket in buckets then buckets[bucket] else 0
  }

  /** `limit(key, num, limit)`. */
  function Limit(buckets: Buckets, key: Option<string>, num: Int32, limit: Int32, nowMillis: Int64): (r: Admission)
    ensures key.None? ==> r == Admission(Err(NullKey), buckets)
    ensures key.Some? ==>
              var bucket := BucketKey(key.value, nowMillis);
              && r.buckets.Keys == buckets.Keys + {bucket}
              && r.buckets[bucket] == AddAndGet(Count(buckets, bucket), num)
              && (forall b :: b in buckets && b != bucket ==> r.buckets[b] == buckets[b])
              && (r.result.Err? <==> r.buckets[bucket] > limit)
              && (r.result.Err? ==> r.result.error == Limited(r.buckets[bucket]))
  {
    if key.None? then Admission(Err(NullKey), buckets)
    else
      var bucket := BucketKey(key.value, nowMillis);
      var count := AddAndGet(Count(buckets, bucket), num);
      var updated := buckets[bucket := count];
      if count > limit then Admission(Err(Limited(count)), updated) else Admission(Ok(()), updated)
  }

  /** `limit(key, limit)`: a call of weight one. */
  function LimitOne(buckets: Buckets, key: Option<string>, limit: Int32, nowMillis: Int64): (r: Admission)
    ensures r == Limit(buckets, key, 1, limit, nowMillis)
  {
    Limit(buckets, key, 1, limit, nowMillis)
  }

  /** Without a separator, two different keys in two different seconds
      can share one bucket. */
  lemma BucketsCanCollide()
    ensures BucketKey("a1", 23_000) == BucketKey("a", 123_000)
  {
    assert DecimalString(23) == "23";
    assert DecimalString(123) == "123";
  }

  /** Buckets do not collide while the seconds have the same number of
      digits (as every second from 2001 to 2286 has): equal bucket keys
      then mean the same key and the same second. */
  lemma BucketKeyInjectiveSameWidth(key1: string, t1: Int64, key2: string, t2: Int64)
    requires |DecimalString(Second(t1))| == |DecimalString(Second(t2))|
    requires BucketKey(key1, t1) == BucketKey(key2, t2)
    ensures key1 == key2 && Second(t1) == Second(t2)
  {
    var d1, d2 := DecimalString(Second(t1)), DecimalString(Second(t2));
    var b := BucketKey(key1, t1);
    assert |key1| == |key2|;
    assert key1 == b[..|key1|] == key2;
    assert d1 == b[|key1|..] == d2;
    DecimalInjective(Second(t1), Second(t2));
  }

  /** One key in two different seconds always uses two buckets. */
  lemma SameKeyNewSecondNewBucket(key: string, t1: Int64, t2: Int64)
    requires Second(t1) != Second(t2)
    ensures BucketKey(key, t1) != BucketKey(key, t2)
  {
  }

  /** A run of `limit(key, limit)` calls: which were admitted, and the buckets after. */
  datatype Run = Run(admitted: seq<bool>, buckets: Buckets)

  function Burst(buckets: Buckets, key: string, limit: Int32, times: seq<Int64>): (r: Run)
    ensures |r.admitted| == |times|
    decreases |times|
  {
    if |times| == 0 then Run([], buckets)
    else
      var a := LimitOne(buckets, Some(key), limit, times[0]);
      var rest := Burst(a.buckets, key, limit, times[1..]);
      Run([a.result.Ok?] + rest.admitted, rest.buckets)
  }

  /** Calls of weight one within one second, starting from a count of
      `start`: the i-th is admitted exactly when `start + i + 1` is within
      the limit, and rejected calls count as well. */
  lemma {:induction false} BurstFrom(buckets: Buckets, key: string, limit: Int32, times: seq<Int64>, start: nat)
    requires |times| > 0
    requires forall i :: 0 <= i < |times| ==> Second(times[i]) == Second(times[0])
    requires Count(buckets, BucketKey(key, times[0])) == start
    requires start + |times| <= IntMax
    ensures var r := Burst(buckets, key, limit, times);
            && BucketKey(key, times[0]) in r.buckets
            && r.buckets[BucketKey(key, times[0])] == start + |times|
            && forall i :: 0 <= i < |times| ==> (r.admitted[i] <==> start + i + 1 <= limit)
    decreases |times|
  {
    var bucket := BucketKey(key, times[0]);
    var a := LimitOne(buckets, Some(key), limit, times[0]);
    assert a.buckets[bucket] == start + 1;
    var r := Burst(buckets, key, limit, times);
    if |times| > 1 {
      var rest := times[1..];
      assert BucketKey(key, rest[0]) == bucket;
      assert forall i :: 0 <= i < |rest| ==> Second(rest[i]) == Second(rest[0]) by {
        forall i | 0 <= i < |rest| ensures Second(rest[i]) == Second(rest[0]) {
          assert rest[i] == times[i + 1];
        }
      }
      BurstFrom(a.buckets, key, limit, rest, start + 1);
      var rr := Burst(a.buckets, key, limit, rest);
      assert r.admitted == [a.result.Ok?] + rr.admitted;
      forall i | 0 <= i < |times| ensures r.admitted[i] <==> start + i + 1 <= limit {
        if i > 0 {
          assert r.admitted[i] == rr.admitted[i - 1];
        }
      }
    }
  }

  /** From an empty bucket, `n` calls of `limit(key, limit)` in one second
      admit exactly the first `limit` of them. */
  lemma BurstAdmitsUpToLimit(buckets: Buckets, key: string, limit: Int32, times: seq<Int64>)
    requires |times| > 0
    requires forall i :: 0 <= i < |times| ==> Second(times[i]) == Second(times[0])
    requires BucketKey(key, times[0]) !in buckets
    requires |times| <= IntMax
    ensures var r := Burst(buckets, key, limit, times);
            forall i :: 0 <= i < |times| ==> (r.admitted[i] <==> i < limit)
  {
    BurstFrom(buckets, key, limit, times, 0);
  }
}
