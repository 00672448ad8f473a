/** `RedisLock`, modelled as written: a functional state machine whose
    state is the shared store, the process-wide reentry table and the
    shared `DEFAULT_ZERO` counter. Each public operation is a transition
    that returns either a value or a `LockException` together with the
    state it leaves behind (exceptions do not roll back earlier effects).

    Busy-wait loops read an abstract clock: a sequence of ticks, each a
    reading of `System.currentTimeMillis` plus whatever the environment
    does to the store before the `setNx` attempt that follows it. */
module RedisLock {
  import opened Wrappers
  import opened JavaLang
  import opened RedisStore
  import ReentryMap

  /** The owner used when the caller passes a blank thread id. */
  const NoOwner: string := "NONE"

  datatype LockState = LockState(store: Store, reentry: ReentryMap.Table, defaultZero: Int32)

  /** The distinct reasons `RedisLock` throws `LockException`. */
  datatype LockError = InvalidParam | Timeout | NotOwner

  datatype Step = Step(result: Result<bool, LockError>, state: LockState)

  /** One clock reading, and the environment steps that reach the store
      between that reading and the next store call. */
  datatype Tick = Tick(now: Int64, env: seq<EnvStep>)

  /** The value a reentry probe or `reentryUnlock` returns, with the state after it. */
  datatype Counted = Counted(depth: Int32, state: LockState)

  /** Every depth the reentry table holds is at least one. */
  ghost predicate DepthsPositive(m: ReentryMap.Table)
  {
    forall k :: k in m ==> m[k] >= 1
  }

  // ---------------------------------------------------------------- helpers

  /** `buildThreadId`: a blank owner becomes the sentinel `"NONE"`. */
  function BuildThreadId(threadId: Option<string>): (r: string)
    ensures !IsBlank(Some(r))
    ensures IsBlank(threadId) ==> r == NoOwner
    ensures !IsBlank(threadId) ==> threadId == Some(r)
  {
    if IsBlank(threadId) then assert !IsWhitespace(NoOwner[0]); NoOwner else threadId.value
  }

  /** Normalising an already normalised owner changes nothing. */
  lemma BuildThreadIdIdempotent(threadId: Option<string>)
    ensures BuildThreadId(Some(BuildThreadId(threadId))) == BuildThreadId(threadId)
  {
  }

  /** `numberLessAndEqualsThanZero`: null or not positive. */
  function LessOrEqualZero(n: Option<Int64>): (r: bool)
    ensures !r <==> n.Some? && n.value > 0
  {
    n.None? || n.value <= 0
  }

  /** The composite key of the reentry table. */
  function ReentryKey(resource: string, owner: string): (r: string)
    ensures |r| == |resource| + |owner|
    ensures r[..|resource|] == resource && r[|resource|..] == owner
  {
    resource + owner
  }

  /** Without a separator, two (resource, owner) pairs can share one
      reentry cell: owner "2" on "order1" and owner "12" on "order". */
  lemma ReentryKeysCanCollide()
    ensures ReentryKey("order1", "2") == ReentryKey("order", "12")
  {
  }

  /** `outTime = currentTime + waitTime`, with Java's `long` overflow. */
  function Deadline(start: Int64, waitTime: Int64): Int64
  {
    AddLong(start, waitTime)
  }

  /** The clock eventually reads at least `deadline`. */
  predicate Reaches(clock: seq<Tick>, deadline: int)
  {
    |clock| > 0 && clock[|clock| - 1].now >= deadline
  }

  /** A clock good for a blocking call: it has a first reading, and when
      the wait time is positive it runs up to the computed deadline. */
  predicate ClockCovers(clock: seq<Tick>, waitTime: Option<Int64>)
  {
    |clock| > 0 && (!LessOrEqualZero(waitTime) ==> Reaches(clock, Deadline(clock[0].now, waitTime.value)))
  }

  /** The argument check shared by `lock` and `reentryLock`. */
  predicate InvalidLockArgs(resource: Option<string>, waitTime: Option<Int64>, expireTime: Option<Int64>)
  {
    IsBlank(resource) || LessOrEqualZero(waitTime) || LessOrEqualZero(expireTime)
  }

  /** The store replayed through the environment steps of the given ticks,
      as seen when none of our own `setNx` calls has written anything. */
  function Replay(st: Store, ticks: seq<Tick>): Store
    decreases |ticks|
  {
    if |ticks| == 0 then st else Replay(ApplyAll(st, ticks[0].env), ticks[1..])
  }

  /** Attempt `i` of a poll loop is made (every reading up to it is before
      the deadline) and finds the resource free. */
  ghost predicate OpenAt(st: Store, resource: string, deadline: int, clock: seq<Tick>, i: int)
    requires 0 <= i < |clock|
  {
    && (forall j :: 0 <= j <= i ==> clock[j].now < deadline)
    && resource !in Replay(st, clock[..i + 1])
  }

  // ---------------------------------------------------------------- tryLock

  /** `tryLock`, as written: the expiry check is negated, so the call is
      rejected when `expireTime` is positive and proceeds only when it is
      null or not positive. Otherwise one `setNx` decides the result. */
  function TryLock(s: LockState, resource: Option<string>, threadId: Option<string>, expireTime: Option<Int64>): (r: Step)
    ensures r.result == Err(InvalidParam) <==> IsBlank(resource) || !LessOrEqualZero(expireTime)
    ensures r.result.Err? ==> r.result.error == InvalidParam && r.state == s
    ensures r.result.Ok? ==> resource.Some? && (r.result.value <==> resource.value !in s.store)
    ensures r.result == Ok(true) ==> r.state.store == s.store[resource.value := BuildThreadId(threadId)]
    ensures r.result == Ok(false) ==> r.state.store == s.store
    ensures r.state.reentry == s.reentry && r.state.defaultZero == s.defaultZero
  {
    if IsBlank(resource) || !LessOrEqualZero(expireTime) then Step(Err(InvalidParam), s)
    else
      var put := SetNx(s.store, resource.value, BuildThreadId(threadId));
      Step(Ok(put.won), s.(store := put.store))
  }

  // ---------------------------------------------------------------- lock

  datatype PollOutcome = PollOutcome(acquired: bool, store: Store)

  /** The busy-wait loop of `lock`: while the current reading is before
      the deadline, let the environment act, then try `setNx`. */
  function Poll(st: Store, resource: string, owner: string, deadline: Int64, clock: seq<Tick>): (r: PollOutcome)
    requires Reaches(clock, deadline)
    ensures r.acquired ==> resource in r.store && r.store[resource] == owner
    ensures !r.acquired && clock[0].now < deadline ==> resource in r.store
    decreases |clock|
  {
    if clock[0].now >= deadline then PollOutcome(false, st)
    else
      var put := SetNx(ApplyAll(st, clock[0].env), resource, owner);
      if put.won then PollOutcome(true, put.store)
      else Poll(put.store, resource, owner, deadline, clock[1..])
  }

  lemma ReplayStep(st: Store, clock: seq<Tick>, i: nat)
    requires i + 1 < |clock|
    ensures Replay(st, clock[..i + 2]) == Replay(ApplyAll(st, clock[0].env), clock[1..][..i + 1])
  {
    assert clock[..i + 2][1..] == clock[1..][..i + 1];
  }

  /** The poll acquires exactly when some attempt it makes finds the
      resource free. */
  lemma {:induction false} PollAcquiredIff(st: Store, resource: string, owner: string, deadline: Int64, clock: seq<Tick>)
    requires Reaches(clock, deadline)
    ensures Poll(st, resource, owner, deadline, clock).acquired
        <==> exists i :: 0 <= i < |clock| && OpenAt(st, resource, deadline, clock, i)
    decreases |clock|
  {
    var r := Poll(st, resource, owner, deadline, clock);
    assert clock[..1] == [clock[0]];
    assert Replay(st, clock[..1]) == ApplyAll(st, clock[0].env);
    if clock[0].now >= deadline {
      forall i | 0 <= i < |clock|
        ensures !OpenAt(st, resource, deadline, clock, i)
      {
        assert 0 <= 0 <= i;
      }
    } else {
      var st1 := ApplyAll(st, clock[0].env);
      if resource !in st1 {
        assert OpenAt(st, resource, deadline, clock, 0);
      } else {
        var rest := clock[1..];
        PollAcquiredIff(st1, resource, owner, deadline, rest);
        if r.acquired {
          var i :| 0 <= i < |rest| && OpenAt(st1, resource, deadline, rest, i);
          ReplayStep(st, clock, i);
          assert forall j :: 0 <= j <= i + 1 ==> clock[j].now < deadline by {
            forall j | 0 <= j <= i + 1 ensures clock[j].now < deadline {
              if j > 0 { assert clock[j] == rest[j - 1]; }
            }
          }
          assert OpenAt(st, resource, deadline, clock, i + 1);
        } else {
          if exists i :: 0 <= i < |clock| && OpenAt(st, resource, deadline, clock, i) {
            var i :| 0 <= i < |clock| && OpenAt(st, resource, deadline, clock, i);
            assert i != 0;
            ReplayStep(st, clock, i - 1);
            assert forall j :: 0 <= j <= i - 1 ==> rest[j].now < deadline by {
              forall j | 0 <= j <= i - 1 ensures rest[j].now < deadline {
                assert rest[j] == clock[j + 1];
              }
            }
            assert OpenAt(st1, resource, deadline, rest, i - 1);
            assert false;
          }
        }
      }
    }
  }

  /** `lock`, as written: no reentrancy. The arguments are checked, then
      `setNx` is retried until it succeeds or the clock reaches the
      deadline. The reentry table and `DEFAULT_ZERO` are never touched. */
  function Lock(s: LockState, resource: Option<string>, threadId: Option<string>,
                waitTime: Option<Int64>, expireTime: Option<Int64>, clock: seq<Tick>): (r: Step)
    requires ClockCovers(clock, waitTime)
    ensures r.result == Err(InvalidParam) <==> InvalidLockArgs(resource, waitTime, expireTime)
    ensures r.result == Err(InvalidParam) ==> r.state == s
    ensures r.result == Ok(true) || r.result == Err(InvalidParam) || r.result == Err(Timeout)
    ensures r.result == Ok(true) ==> resource.Some? && resource.value in r.state.store
                                     && r.state.store[resource.value] == BuildThreadId(threadId)
    ensures r.state.reentry == s.reentry && r.state.defaultZero == s.defaultZero
  {
    if InvalidLockArgs(resource, waitTime, expireTime) then Step(Err(InvalidParam), s)
    else
      var p := Poll(s.store, resource.value, BuildThreadId(threadId), Deadline(clock[0].now, waitTime.value), clock);
      Step(if p.acquired then Ok(true) else Err(Timeout), s.(store := p.store))
  }

  /** With valid arguments `lock` succeeds exactly when some attempt made
      before the deadline finds the resource free, and times out otherwise. */
  lemma LockSucceedsIff(s: LockState, resource: Option<string>, threadId: Option<string>,
                        waitTime: Option<Int64>, expireTime: Option<Int64>, clock: seq<Tick>)
    requires ClockCovers(clock, waitTime)
    requires !InvalidLockArgs(resource, waitTime, expireTime)
    ensures Lock(s, resource, threadId, waitTime, expireTime, clock).result == Ok(true)
        <==> exists i :: 0 <= i < |clock| && OpenAt(s.store, resource.value, Deadline(clock[0].now, waitTime.value), clock, i)
    ensures Lock(s, resource, threadId, waitTime, expireTime, clock).result != Ok(true)
        ==> Lock(s, resource, threadId, waitTime, expireTime, clock).result == Err(Timeout)
  {
    PollAcquiredIff(s.store, resource.value, BuildThreadId(threadId), Deadline(clock[0].now, waitTime.value), clock);
  }

  lemma {:induction false} ReplayQuiet(st: Store, ticks: seq<Tick>)
    requires forall i :: 0 <= i < |ticks| ==> ticks[i].env == []
    ensures Replay(st, ticks) == st
    decreases |ticks|
  {
    if |ticks| > 0 {
      ReplayQuiet(st, ticks[1..]);
    }
  }

  /** `lock` is not reentrant: an owner that already holds the record
      times out on a second `lock` while nobody else touches the store. */
  lemma LockIsNotReentrant(s: LockState, resource: Option<string>, threadId: Option<string>,
                           waitTime: Option<Int64>, expireTime: Option<Int64>, clock: seq<Tick>)
    requires ClockCovers(clock, waitTime)
    requires !InvalidLockArgs(resource, waitTime, expireTime)
    requires resource.value in s.store && s.store[resource.value] == BuildThreadId(threadId)
    requires forall i :: 0 <= i < |clock| ==> clock[i].env == []
    ensures Lock(s, resource, threadId, waitTime, expireTime, clock).result == Err(Timeout)
  {
    LockSucceedsIff(s, resource, threadId, waitTime, expireTime, clock);
    if exists i :: 0 <= i < |clock| && OpenAt(s.store, resource.value, Deadline(clock[0].now, waitTime.value), clock, i) {
      var i :| 0 <= i < |clock| && OpenAt(s.store, resource.value, Deadline(clock[0].now, waitTime.value), clock, i);
      ReplayQuiet(s.store, clock[..i + 1]);
      assert false;
    }
  }

  // ---------------------------------------------------------------- reentry probe

  /** The private `reentryLock(resource, threadId)` probe: increment the
      cell `getOrDefault(resource + owner, DEFAULT_ZERO)` returns. When the
      key is present that is the table's own cell; when it is absent it is
      the shared `DEFAULT_ZERO`, and nothing is inserted. */
  function ProbeReentry(s: LockState, resource: string, owner: string): (r: Counted)
    ensures r.state.store == s.store
    ensures ReentryKey(resource, owner) in s.reentry ==>
              && r.depth == IncrementAndGet(s.reentry[ReentryKey(resource, owner)])
              && r.state.reentry == ReentryMap.Put(s.reentry, ReentryKey(resource, owner), r.depth)
              && r.state.defaultZero == s.defaultZero
    ensures ReentryKey(resource, owner) !in s.reentry ==>
              && r.depth == IncrementAndGet(s.defaultZero)
              && r.state.reentry == s.reentry
              && r.state.defaultZero == r.depth
  {
    var key := ReentryKey(resource, owner);
    var depth := IncrementAndGet(ReentryMap.GetOrDefault(s.reentry, key, s.defaultZero));
    if key in s.reentry then Counted(depth, s.(reentry := s.reentry[key := depth]))
    else Counted(depth, s.(defaultZero := depth))
  }

  // ---------------------------------------------------------------- deprecated reentryLock

  /** What one iteration of the deprecated loop ends in. */
  datatype Attempt = Done(step: Step) | Retry(state: LockState)

  /** One iteration of the deprecated `reentryLock` loop: probe; on a
      depth above one succeed without calling `setNx`; otherwise try
      `setNx` and on success record the depth as exactly one. */
  function ReentryAttempt(s: LockState, resource: string, owner: string, tick: Tick): (r: Attempt)
    ensures ProbeReentry(s, resource, owner).depth > 1 ==>
              r == Done(Step(Ok(true), ProbeReentry(s, resource, owner).state))
    ensures ProbeReentry(s, resource, owner).depth <= 1 && resource !in ApplyAll(s.store, tick.env) ==>
              && r.Done? && r.step.result == Ok(true)
              && r.step.state.store == ApplyAll(s.store, tick.env)[resource := owner]
              && ReentryMap.Get(r.step.state.reentry, ReentryKey(resource, owner)) == Some(1)
              && r.step.state.reentry == s.reentry[ReentryKey(resource, owner) := 1]
              && r.step.state.defaultZero == ProbeReentry(s, resource, owner).state.defaultZero
    ensures ProbeReentry(s, resource, owner).depth <= 1 && resource in ApplyAll(s.store, tick.env) ==>
              r == Retry(ProbeReentry(s, resource, owner).state.(store := ApplyAll(s.store, tick.env)))
  {
    var p := ProbeReentry(s, resource, owner);
    if p.depth > 1 then Done(Step(Ok(true), p.state))
    else
      var put := SetNx(ApplyAll(p.state.store, tick.env), resource, owner);
      if put.won then
        Done(Step(Ok(true), p.state.(store := put.store,
                                     reentry := ReentryMap.Put(p.state.reentry, ReentryKey(resource, owner), 1))))
      else Retry(p.state.(store := put.store))
  }

  /** The deprecated loop: iterate until an attempt is done or the clock
      reaches the deadline. */
  function ReentryPoll(s: LockState, resource: string, owner: string, deadline: Int64, clock: seq<Tick>): (r: Step)
    requires Reaches(clock, deadline)
    ensures r.result == Ok(true) || r.result == Err(Timeout)
    decreases |clock|
  {
    if clock[0].now >= deadline then Step(Err(Timeout), s)
    else
      match ReentryAttempt(s, resource, owner, clock[0])
      case Done(step) => step
      case Retry(s1) => ReentryPoll(s1, resource, owner, deadline, clock[1..])
  }

  /** The public, deprecated `reentryLock`, as written: probe once before
      reading the clock, then poll, probing again on every iteration. A
      timeout does not undo any probe. */
  function ReentryLockDeprecated(s: LockState, resource: Option<string>, threadId: Option<string>,
                                 waitTime: Option<Int64>, expireTime: Option<Int64>, clock: seq<Tick>): (r: Step)
    requires ClockCovers(clock, waitTime)
    ensures r.result == Err(InvalidParam) <==> InvalidLockArgs(resource, waitTime, expireTime)
    ensures r.result == Err(InvalidParam) ==> r.state == s
    ensures r.result == Ok(true) || r.result == Err(InvalidParam) || r.result == Err(Timeout)
  {
    if InvalidLockArgs(resource, waitTime, expireTime) then Step(Err(InvalidParam), s)
    else
      var owner := BuildThreadId(threadId);
      var p := ProbeReentry(s, resource.value, owner);
      if p.depth > 1 then Step(Ok(true), p.state)
      else ReentryPoll(p.state, resource.value, owner, Deadline(clock[0].now, waitTime.value), clock)
  }

  /** A nested call by an owner with a recorded depth succeeds at once:
      the depth goes up by one and the store is not called. */
  lemma DeprecatedReentersHeldLock(s: LockState, resource: Option<string>, threadId: Option<string>,
                                   waitTime: Option<Int64>, expireTime: Option<Int64>, clock: seq<Tick>)
    requires ClockCovers(clock, waitTime)
    requires !InvalidLockArgs(resource, waitTime, expireTime)
    requires ReentryKey(resource.value, BuildThreadId(threadId)) in s.reentry
    requires 1 <= s.reentry[ReentryKey(resource.value, BuildThreadId(threadId))] < IntMax
    ensures var key := ReentryKey(resource.value, BuildThreadId(threadId));
            ReentryLockDeprecated(s, resource, threadId, waitTime, expireTime, clock)
              == Step(Ok(true), s.(reentry := s.reentry[key := s.reentry[key] + 1]))
  {
  }

  /** A timeout of the deprecated loop, for an owner without a recorded
      depth, leaves the table as it was and rolls nothing back:
      `DEFAULT_ZERO` ends no lower than it started. Every iteration that
      does not return has seen a probe of at most one, so the counter
      also ends at most one. */
  lemma {:induction false} ReentryPollTimeoutKeepsProbes(s: LockState, resource: string, owner: string,
                                                        deadline: Int64, clock: seq<Tick>)
    requires Reaches(clock, deadline)
    requires ReentryKey(resource, owner) !in s.reentry
    requires s.defaultZero <= 1
    ensures var r := ReentryPoll(s, resource, owner, deadline, clock);
            r.result == Err(Timeout) ==>
              && r.state.reentry == s.reentry
              && s.defaultZero <= r.state.defaultZero <= 1
    decreases |clock|
  {
    if clock[0].now < deadline {
      var a := ReentryAttempt(s, resource, owner, clock[0]);
      if a.Retry? {
        assert a.state.defaultZero == s.defaultZero + 1;
        ReentryPollTimeoutKeepsProbes(a.state, resource, owner, deadline, clock[1..]);
      }
    }
  }

  /** A timeout of the deprecated call, for an owner without a recorded
      depth, leaves the table as it was and does not roll back the probes:
      `DEFAULT_ZERO` ends strictly above where it started (and at most one). */
  lemma DeprecatedTimeoutKeepsProbes(s: LockState, resource: Option<string>, threadId: Option<string>,
                                     waitTime: Option<Int64>, expireTime: Option<Int64>, clock: seq<Tick>)
    requires ClockCovers(clock, waitTime)
    requires !InvalidLockArgs(resource, waitTime, expireTime)
    requires ReentryKey(resource.value, BuildThreadId(threadId)) !in s.reentry
    requires s.defaultZero < IntMax
    ensures var r := ReentryLockDeprecated(s, resource, threadId, waitTime, expireTime, clock);
            r.result == Err(Timeout) ==>
              && r.state.reentry == s.reentry
              && s.defaultZero < r.state.defaultZero <= 1
  {
    var owner := BuildThreadId(threadId);
    var p := ProbeReentry(s, resource.value, owner);
    if p.depth <= 1 {
      ReentryPollTimeoutKeepsProbes(p.state, resource.value, owner, Deadline(clock[0].now, waitTime.value), clock);
    }
  }

  /** The deprecated call keeps every recorded depth at least one, as long
      as the caller's own depth is not at the top of the `int` range. */
  lemma {:induction false} ReentryPollKeepsDepthsPositive(s: LockState, resource: string, owner: string,
                                                         deadline: Int64, clock: seq<Tick>)
    requires Reaches(clock, deadline)
    requires DepthsPositive(s.reentry)
    requires ReentryKey(resource, owner) in s.reentry ==> s.reentry[ReentryKey(resource, owner)] < IntMax
    ensures DepthsPositive(ReentryPoll(s, resource, owner, deadline, clock).state.reentry)
    decreases |clock|
  {
    if clock[0].now < deadline {
      var a := ReentryAttempt(s, resource, owner, clock[0]);
      if a.Retry? {
        ReentryPollKeepsDepthsPositive(a.state, resource, owner, deadline, clock[1..]);
      }
    }
  }

  lemma DeprecatedKeepsDepthsPositive(s: LockState, resource: Option<string>, threadId: Option<string>,
                                      waitTime: Option<Int64>, expireTime: Option<Int64>, clock: seq<Tick>)
    requires ClockCovers(clock, waitTime)
    requires DepthsPositive(s.reentry)
    requires !IsBlank(resource) && ReentryKey(resource.value, BuildThreadId(threadId)) in s.reentry
             ==> s.reentry[ReentryKey(resource.value, BuildThreadId(threadId))] < IntMax
    ensures DepthsPositive(ReentryLockDeprecated(s, resource, threadId, waitTime, expireTime, clock).state.reentry)
  {
    if !InvalidLockArgs(resource, waitTime, expireTime) {
      var owner := BuildThreadId(threadId);
      var p := ProbeReentry(s, resource.value, owner);
      if p.depth <= 1 {
        ReentryPollKeepsDepthsPositive(p.state, resource.value, owner, Deadline(clock[0].now, waitTime.value), clock);
      }
    }
  }

  // ---------------------------------------------------------------- unlock

  /** `reentryUnlock`: -1 when there is no cell; otherwise decrement it,
      and remove it when it reaches zero. */
  function ReentryUnlock(s: LockState, resource: string, owner: string): (r: Counted)
    ensures r.state.store == s.store && r.state.defaultZero == s.defaultZero
    ensures ReentryKey(resource, owner) !in s.reentry ==> r.depth == -1 && r.state.reentry == s.reentry
    ensures ReentryKey(resource, owner) in s.reentry ==>
              r.depth == DecrementAndGet(s.reentry[ReentryKey(resource, owner)])
    ensures ReentryKey(resource, owner) in s.reentry && r.depth == 0 ==>
              r.state.reentry == ReentryMap.Remove(s.reentry, ReentryKey(resource, owner))
    ensures ReentryKey(resource, owner) in s.reentry && r.depth != 0 ==>
              r.state.reentry == ReentryMap.Put(s.reentry, ReentryKey(resource, owner), r.depth)
  {
    var key := ReentryKey(resource, owner);
    match ReentryMap.Get(s.reentry, key)
    case None => Counted(-1, s)
    case Some(cell) =>
      var depth := DecrementAndGet(cell);
      if depth == 0 then Counted(depth, s.(reentry := ReentryMap.Remove(s.reentry, key)))
      else Counted(depth, s.(reentry := s.reentry[key := depth]))
  }

  /** `reentryUnlock` keeps every recorded depth at least one, and on a
      recorded owner returns a depth that is not negative. */
  lemma ReentryUnlockKeepsDepthsPositive(s: LockState, resource: string, owner: string)
    requires DepthsPositive(s.reentry)
    ensures DepthsPositive(ReentryUnlock(s, resource, owner).state.reentry)
    ensures ReentryKey(resource, owner) in s.reentry ==> ReentryUnlock(s, resource, owner).depth >= 0
  {
  }

  /** A probe undone by `reentryUnlock`: a recorded depth comes back to
      where it was, but for an owner without one the `DEFAULT_ZERO`
      increment is not undone and `reentryUnlock` reports no cell. */
  lemma ProbeThenReentryUnlock(s: LockState, resource: string, owner: string)
    ensures var key := ReentryKey(resource, owner);
            key in s.reentry && 1 <= s.reentry[key] < IntMax ==>
              ReentryUnlock(ProbeReentry(s, resource, owner).state, resource, owner) == Counted(s.reentry[key], s)
    ensures ReentryKey(resource, owner) !in s.reentry ==>
              ReentryUnlock(ProbeReentry(s, resource, owner).state, resource, owner)
                == Counted(-1, s.(defaultZero := IncrementAndGet(s.defaultZero)))
  {
    var key := ReentryKey(resource, owner);
    if key in s.reentry && 1 <= s.reentry[key] < IntMax {
      assert s.reentry[key := s.reentry[key] + 1][key := s.reentry[key]] == s.reentry;
    }
  }

  datatype Release = Release(result: Result<bool, LockError>, store: Store)

  /** The store phase of `unlock`: read the record; a blank record counts
      as released; the owner's record is deleted (after whatever the
      environment does between the read and the delete); anyone else's
      record is an error. */
  function ReleaseRecord(st: Store, resource: string, owner: string, between: seq<EnvStep>): (r: Release)
    ensures IsBlank(Get(st, resource)) ==> r == Release(Ok(true), st)
    ensures !IsBlank(Get(st, resource)) && st[resource] == owner ==>
              r.result == Ok(true) && r.store == Del(ApplyAll(st, between), resource)
    ensures !IsBlank(Get(st, resource)) && st[resource] != owner ==> r == Release(Err(NotOwner), st)
  {
    var value := Get(st, resource);
    if IsBlank(value) then Release(Ok(true), st)
    else if owner == value.value then Release(Ok(true), Del(ApplyAll(st, between), resource))
    else Release(Err(NotOwner), st)
  }

  /** `unlock`: nested releases only lower the recorded depth; the last
      one (or one with no recorded depth) releases the store record. */
  function Unlock(s: LockState, resource: Option<string>, threadId: Option<string>, between: seq<EnvStep>): (r: Step)
    ensures IsBlank(resource) ==> r == Step(Err(InvalidParam), s)
    ensures r.result == Ok(true) || r.result == Err(InvalidParam) || r.result == Err(NotOwner)
    ensures r.state.defaultZero == s.defaultZero
    ensures !IsBlank(resource) ==>
              var u := ReentryUnlock(s, resource.value, BuildThreadId(threadId));
              && r.state.reentry == u.state.reentry
              && (u.depth > 0 ==> r.result == Ok(true) && r.state.store == s.store)
              && (u.depth <= 0 && IsBlank(Get(s.store, resource.value)) ==>
                    r.result == Ok(true) && r.state.store == s.store)
              && (u.depth <= 0 && !IsBlank(Get(s.store, resource.value))
                  && s.store[resource.value] == BuildThreadId(threadId) ==>
                    r.result == Ok(true) && r.state.store == Del(ApplyAll(s.store, between), resource.value))
              && (u.depth <= 0 && !IsBlank(Get(s.store, resource.value))
                  && s.store[resource.value] != BuildThreadId(threadId) ==>
                    r.result == Err(NotOwner) && r.state.store == s.store)
  {
    if IsBlank(resource) then Step(Err(InvalidParam), s)
    else
      var owner := BuildThreadId(threadId);
      var u := ReentryUnlock(s, resource.value, owner);
      if u.depth > 0 then Step(Ok(true), u.state)
      else
        var rel := ReleaseRecord(u.state.store, resource.value, owner, between);
        Step(rel.result, u.state.(store := rel.store))
  }

  /** `unlock` keeps every recorded depth at least one. */
  lemma UnlockKeepsDepthsPositive(s: LockState, resource: Option<string>, threadId: Option<string>, between: seq<EnvStep>)
    requires DepthsPositive(s.reentry)
    ensures DepthsPositive(Unlock(s, resource, threadId, between).state.reentry)
  {
    if !IsBlank(resource) {
      ReentryUnlockKeepsDepthsPositive(s, resource.value, BuildThreadId(threadId));
    }
  }

  /** The documented read-then-delete race: if the owner's record expires
      and another process takes the lock between `get` and `del`, the
      owner's `unlock` still reports success and deletes the other
      process's record. */
  lemma UnlockCanDeleteForeignRecord(s: LockState, resource: string, threadId: Option<string>, other: string)
    requires !IsBlank(Some(resource))
    requires ReentryKey(resource, BuildThreadId(threadId)) !in s.reentry
    requires resource in s.store && s.store[resource] == BuildThreadId(threadId)
    ensures var seen := ApplyAll(s.store, [Expire(resource), Claim(resource, other)]);
            resource in seen && seen[resource] == other
    ensures var r := Unlock(s, Some(resource), threadId, [Expire(resource), Claim(resource, other)]);
            r.result == Ok(true) && resource !in r.state.store
  {
    var es := [Expire(resource), Claim(resource, other)];
    var freed := Del(s.store, resource);
    assert es[1..] == [Claim(resource, other)];
    assert ApplyAll(s.store, es) == ApplyAll(freed, [Claim(resource, other)]);
    assert ApplyAll(freed, [Claim(resource, other)]) == ApplyAll(freed[resource := other], []);
  }

  /** A successful `lock` followed by `unlock` with nothing happening in
      between gives back the state the lock started from. */
  lemma LockThenUnlock(s: LockState, resource: Option<string>, threadId: Option<string>,
                       waitTime: Option<Int64>, expireTime: Option<Int64>, clock: seq<Tick>)
    requires ClockCovers(clock, waitTime)
    requires !InvalidLockArgs(resource, waitTime, expireTime)
    requires resource.value !in s.store
    requires ReentryKey(resource.value, BuildThreadId(threadId)) !in s.reentry
    requires clock[0].now < Deadline(clock[0].now, waitTime.value) && clock[0].env == []
    ensures var l := Lock(s, resource, threadId, waitTime, expireTime, clock);
            && l.result == Ok(true)
            && Unlock(l.state, resource, threadId, []) == Step(Ok(true), s)
  {
    var l := Lock(s, resource, threadId, waitTime, expireTime, clock);
    assert l.state.store == s.store[resource.value := BuildThreadId(threadId)];
    assert l.state.store - {resource.value} == s.store;
  }

  /** Environment transition between two calls: only the store changes. */
  function Environment(s: LockState, steps: seq<EnvStep>): (r: LockState)
    ensures r.reentry == s.reentry && r.defaultZero == s.defaultZero
  {
    s.(store := ApplyAll(s.store, steps))
  }
}
