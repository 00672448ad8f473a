/** Three places where `RedisLock` as written does not do what its
    messages, comments and structure say it means to do. For each, a
    lemma exhibits the behaviour of the code as written, and a corrected
    definition carries the intended property. */
module LockFindings {
  import opened Wrappers
  import opened JavaLang
  import opened RedisStore
  import ReentryMap
  import opened RedisLock

  // ---------------------------------------------------------------- 1. tryLock's expiry check

  /** As written, `tryLock` rejects a positive expiry time and proceeds
      with a missing one. */
  lemma TryLockRejectsPositiveExpiry(s: LockState)
    ensures TryLock(s, Some("order"), Some("worker-1"), Some(30000)) == Step(Err(InvalidParam), s)
    ensures TryLock(s, Some("order"), Some("worker-1"), None).result.Ok?
  {
    assert !IsWhitespace("order"[0]);
  }

  /** `tryLock` with the check its exception message describes: the
      resource must not be blank and the expiry time must be positive. */
  function TryLockIntended(s: LockState, resource: Option<string>, threadId: Option<string>, expireTime: Option<Int64>): (r: Step)
    ensures r.result == Err(InvalidParam) <==> IsBlank(resource) || LessOrEqualZero(expireTime)
    ensures r.result.Err? ==> r.state == s
    ensures r.result.Ok? ==> expireTime.Some? && expireTime.value > 0
    ensures r.result.Ok? ==> resource.Some? && (r.result.value <==> resource.value !in s.store)
    ensures r.result == Ok(true) ==> r.state.store == s.store[resource.value := BuildThreadId(threadId)]
    ensures r.result == Ok(false) ==> r.state.store == s.store
    ensures r.state.reentry == s.reentry && r.state.defaultZero == s.defaultZero
  {
    if IsBlank(resource) || LessOrEqualZero(expireTime) then Step(Err(InvalidParam), s)
    else
      var put := SetNx(s.store, resource.value, BuildThreadId(threadId));
      Step(Ok(put.won), s.(store := put.store))
  }

  /** For a non-blank resource the two checks disagree on every expiry
      time: the code as written proceeds exactly when the intended check
      rejects; when it does proceed, both would make the same store call. */
  lemma TryLockCheckIsInverted(s: LockState, resource: Option<string>, threadId: Option<string>, expireTime: Option<Int64>)
    requires !IsBlank(resource)
    ensures TryLock(s, resource, threadId, expireTime).result.Ok?
        <==> !TryLockIntended(s, resource, threadId, expireTime).result.Ok?
  {
  }

  // ---------------------------------------------------------------- 2. the shared DEFAULT_ZERO

  /** As written, once the shared `DEFAULT_ZERO` is at least one (that
      is, after the very first probe of the process), the deprecated
      `reentryLock` of an owner without a recorded depth returns true
      without calling `setNx`; at zero it does so on the second probe, one
      loop iteration later. Either way the store is never written and no
      depth is recorded. */
  lemma DeprecatedLockSkipsStore(s: LockState, resource: Option<string>, threadId: Option<string>,
                                 waitTime: Option<Int64>, expireTime: Option<Int64>, clock: seq<Tick>)
    requires ClockCovers(clock, waitTime)
    requires !InvalidLockArgs(resource, waitTime, expireTime)
    requires ReentryKey(resource.value, BuildThreadId(threadId)) !in s.reentry
    requires 0 <= s.defaultZero < IntMax - 1
    ensures var r := ReentryLockDeprecated(s, resource, threadId, waitTime, expireTime, clock);
            && r.state.store == s.store
            && r.state.reentry == s.reentry
            && (s.defaultZero >= 1 ==> r.result == Ok(true))
            && (s.defaultZero == 0 && clock[0].now < Deadline(clock[0].now, waitTime.value) ==> r.result == Ok(true))
  {
  }

  /** A concrete case: "worker-2" holds "order" in the store, yet the
      deprecated `reentryLock` by "worker-1" reports success. */
  lemma DeprecatedLockIgnoresHolder()
    ensures var s := LockState(map["order" := "worker-2"], map[], 1);
            var r := ReentryLockDeprecated(s, Some("order"), Some("worker-1"), Some(100), Some(100), [Tick(0, []), Tick(100, [])]);
            r.result == Ok(true) && r.state.store["order"] == "worker-2"
  {
    var s := LockState(map["order" := "worker-2"], map[], 1);
    assert !IsWhitespace("order"[0]);
    assert !IsWhitespace("worker-1"[0]);
    assert "order" + "worker-1" !in s.reentry;
    DeprecatedLockSkipsStore(s, Some("order"), Some("worker-1"), Some(100), Some(100), [Tick(0, []), Tick(100, [])]);
  }

  /** The probe with a fresh zero cell as its default (what `DEFAULT_ZERO`
      evidently stands for): a recorded depth goes up by one, and an owner
      without one sees depth one and changes nothing. */
  function ProbeIntended(s: LockState, resource: string, owner: string): (r: Counted)
    ensures ReentryKey(resource, owner) !in s.reentry ==> r == Counted(1, s)
    ensures ReentryKey(resource, owner) in s.reentry ==>
              && r.depth == IncrementAndGet(s.reentry[ReentryKey(resource, owner)])
              && r.state == s.(reentry := ReentryMap.Put(s.reentry, ReentryKey(resource, owner), r.depth))
  {
    var key := ReentryKey(resource, owner);
    var depth := IncrementAndGet(ReentryMap.GetOrDefault(s.reentry, key, 0));
    if key in s.reentry then Counted(depth, s.(reentry := s.reentry[key := depth])) else Counted(depth, s)
  }

  function ReentryAttemptIntended(s: LockState, resource: string, owner: string, tick: Tick): Attempt
  {
    var p := ProbeIntended(s, resource, owner);
    if p.depth > 1 then Done(Step(Ok(true), p.state))
    else
      var put := SetNx(ApplyAll(p.state.store, tick.env), resource, owner);
      if put.won then
        Done(Step(Ok(true), p.state.(store := put.store,
                                     reentry := ReentryMap.Put(p.state.reentry, ReentryKey(resource, owner), 1))))
      else Retry(p.state.(store := put.store))
  }

  function ReentryPollIntended(s: LockState, resource: string, owner: string, deadline: Int64, clock: seq<Tick>): (r: Step)
    requires Reaches(clock, deadline)
    ensures r.result == Ok(true) || r.result == Err(Timeout)
    ensures r.state.defaultZero == s.defaultZero
    decreases |clock|
  {
    if clock[0].now >= deadline then Step(Err(Timeout), s)
    else
      match ReentryAttemptIntended(s, resource, owner, clock[0])
      case Done(step) => step
      case Retry(s1) => ReentryPollIntended(s1, resource, owner, deadline, clock[1..])
  }

  /** The deprecated `reentryLock` with the corrected probe. */
  function ReentryLockIntended(s: LockState, resource: Option<string>, threadId: Option<string>,
                               waitTime: Option<Int64>, expireTime: Option<Int64>, clock: seq<Tick>): (r: Step)
    requires ClockCovers(clock, waitTime)
    ensures r.result == Err(InvalidParam) <==> InvalidLockArgs(resource, waitTime, expireTime)
    ensures r.result == Err(InvalidParam) ==> r.state == s
    ensures r.result == Ok(true) || r.result == Err(InvalidParam) || r.result == Err(Timeout)
    ensures r.state.defaultZero == s.defaultZero
  {
    if InvalidLockArgs(resource, waitTime, expireTime) then Step(Err(InvalidParam), s)
    else
      var owner := BuildThreadId(threadId);
      var p := ProbeIntended(s, resource.value, owner);
      if p.depth > 1 then Step(Ok(true), p.state)
      else ReentryPollIntended(p.state, resource.value, owner, Deadline(clock[0].now, waitTime.value), clock)
  }

  /** For an owner without a recorded depth the corrected loop is exactly
      the plain poll of `lock`, plus recording depth one on success. */
  lemma {:induction false} ReentryPollIntendedIsPoll(s: LockState, resource: string, owner: string,
                                                    deadline: Int64, clock: seq<Tick>)
    requires Reaches(clock, deadline)
    requires ReentryKey(resource, owner) !in s.reentry
    ensures var r := ReentryPollIntended(s, resource, owner, deadline, clock);
            var p := Poll(s.store, resource, owner, deadline, clock);
            && r.state.store == p.store
            && (r.result == Ok(true) <==> p.acquired)
            && r.state.reentry == (if p.acquired then s.reentry[ReentryKey(resource, owner) := 1] else s.reentry)
    decreases |clock|
  {
    if clock[0].now < deadline {
      var put := SetNx(ApplyAll(s.store, clock[0].env), resource, owner);
      if !put.won {
        ReentryPollIntendedIsPoll(s.(store := put.store), resource, owner, deadline, clock[1..]);
      }
    }
  }

  /** The corrected call is safe and leak-free: it succeeds only for an
      owner that already had a recorded depth, or after its own `setNx`
      (with depth one recorded); a timeout leaves the reentry table and
      the store record of the resource's holder as the environment left them. */
  lemma ReentryLockIntendedIsExclusive(s: LockState, resource: Option<string>, threadId: Option<string>,
                                       waitTime: Option<Int64>, expireTime: Option<Int64>, clock: seq<Tick>)
    requires ClockCovers(clock, waitTime)
    requires !InvalidLockArgs(resource, waitTime, expireTime)
    ensures var key := ReentryKey(resource.value, BuildThreadId(threadId));
            var r := ReentryLockIntended(s, resource, threadId, waitTime, expireTime, clock);
            && (r.result == Ok(true) && key !in s.reentry ==>
                  && resource.value in r.state.store && r.state.store[resource.value] == BuildThreadId(threadId)
                  && r.state.reentry == s.reentry[key := 1])
            && (r.result == Err(Timeout) && key !in s.reentry ==> r.state.reentry == s.reentry)
  {
    var owner := BuildThreadId(threadId);
    if ReentryKey(resource.value, owner) !in s.reentry {
      ReentryPollIntendedIsPoll(s, resource.value, owner, Deadline(clock[0].now, waitTime.value), clock);
    }
  }

  /** With the corrected probe, lock, lock, unlock, unlock by one owner
      on a free resource all succeed; the first unlock keeps the store
      record, and the second gives back the starting state. */
  lemma IntendedReentrancyRoundTrip(s: LockState, resource: Option<string>, threadId: Option<string>,
                                    waitTime: Option<Int64>, expireTime: Option<Int64>, clock: seq<Tick>)
    requires ClockCovers(clock, waitTime)
    requires !InvalidLockArgs(resource, waitTime, expireTime)
    requires resource.value !in s.store
    requires ReentryKey(resource.value, BuildThreadId(threadId)) !in s.reentry
    requires clock[0].now < Deadline(clock[0].now, waitTime.value) && clock[0].env == []
    ensures var l1 := ReentryLockIntended(s, resource, threadId, waitTime, expireTime, clock);
            var l2 := ReentryLockIntended(l1.state, resource, threadId, waitTime, expireTime, clock);
            var u1 := Unlock(l2.state, resource, threadId, []);
            var u2 := Unlock(u1.state, resource, threadId, []);
            && l1.result == Ok(true) && l2.result == Ok(true) && u1.result == Ok(true)
            && u1.state == l1.state
            && u2 == Step(Ok(true), s)
  {
    var owner := BuildThreadId(threadId);
    var key := ReentryKey(resource.value, owner);
    var l1 := ReentryLockIntended(s, resource, threadId, waitTime, expireTime, clock);
    assert l1.state == s.(store := s.store[resource.value := owner], reentry := s.reentry[key := 1]);
    var l2 := ReentryLockIntended(l1.state, resource, threadId, waitTime, expireTime, clock);
    assert l2 == Step(Ok(true), l1.state.(reentry := s.reentry[key := 2]));
    var u1 := Unlock(l2.state, resource, threadId, []);
    assert u1.state.reentry == s.reentry[key := 1];
    var u2 := Unlock(u1.state, resource, threadId, []);
    assert u2.state.reentry == s.reentry[key := 1] - {key};
    assert s.reentry[key := 1] - {key} == s.reentry;
    assert u2.state.store == s.store[resource.value := owner] - {resource.value};
    assert s.store[resource.value := owner] - {resource.value} == s.store;
  }

  // ---------------------------------------------------------------- 3. the deadline overflows

  /** As written, a wait time of `Long.MAX_VALUE` ("wait as long as it
      takes") overflows the deadline, and `lock` times out without a single
      `setNx`, although the resource is free. */
  lemma LockWithLongestWaitGivesUp()
    ensures var s := LockState(map[], map[], 0);
            Lock(s, Some("order"), Some("worker-1"), Some(LongMax), Some(1000), [Tick(1, [])]) == Step(Err(Timeout), s)
  {
    assert !IsWhitespace("order"[0]);
  }

  /** `currentTime + waitTime`, clamped to the largest `long`. */
  function SaturatingDeadline(start: Int64, waitTime: Int64): (r: Int64)
    requires waitTime > 0
    ensures r <= start + waitTime
    ensures r == start + waitTime || r == LongMax
    ensures start < LongMax ==> start < r
  {
    if start + waitTime > LongMax then LongMax else start + waitTime
  }

  predicate ClockCoversSaturating(clock: seq<Tick>, waitTime: Option<Int64>)
  {
    |clock| > 0 && (!LessOrEqualZero(waitTime) ==> Reaches(clock, SaturatingDeadline(clock[0].now, waitTime.value)))
  }

  /** `lock` with a deadline that cannot overflow. */
  function LockSaturating(s: LockState, resource: Option<string>, threadId: Option<string>,
                          waitTime: Option<Int64>, expireTime: Option<Int64>, clock: seq<Tick>): (r: Step)
    requires ClockCoversSaturating(clock, waitTime)
    ensures r.result == Err(InvalidParam) <==> InvalidLockArgs(resource, waitTime, expireTime)
    ensures r.result == Err(InvalidParam) ==> r.state == s
    ensures r.result == Ok(true) || r.result == Err(InvalidParam) || r.result == Err(Timeout)
    ensures r.result == Ok(true) ==> resource.Some? && resource.value in r.state.store
                                     && r.state.store[resource.value] == BuildThreadId(threadId)
    ensures r.state.reentry == s.reentry && r.state.defaultZero == s.defaultZero
  {
    if InvalidLockArgs(resource, waitTime, expireTime) then Step(Err(InvalidParam), s)
    else
      var p := Poll(s.store, resource.value, BuildThreadId(threadId), SaturatingDeadline(clock[0].now, waitTime.value), clock);
      Step(if p.acquired then Ok(true) else Err(Timeout), s.(store := p.store))
  }

  /** With the clamped deadline every valid call makes at least one
      attempt (short of the last representable millisecond), so a free
      resource is always acquired. */
  lemma LockSaturatingTriesFirst(s: LockState, resource: Option<string>, threadId: Option<string>,
                                 waitTime: Option<Int64>, expireTime: Option<Int64>, clock: seq<Tick>)
    requires ClockCoversSaturating(clock, waitTime)
    requires !InvalidLockArgs(resource, waitTime, expireTime)
    requires clock[0].now < LongMax
    requires resource.value !in ApplyAll(s.store, clock[0].env)
    ensures LockSaturating(s, resource, threadId, waitTime, expireTime, clock).result == Ok(true)
  {
  }
}
