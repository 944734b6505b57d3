/** The connector manager (ConnectorManager.cs): a capped registry of
    running requests with their cancellation sources, and a cache of named
    locks with last-access times. Both are immutable maps updated by pure
    transitions; the clock is an explicit `now` in ticks, and the
    background sweeper threads become the two sweep transitions. */
module ConnectorManager {
  import opened Wrappers
  import opened Faults
  import Commands

  /** Ticks of 100 nanoseconds, the platform's TimeSpan unit. */
  const TicksPerMinute: nat := 600_000_000

  /** DateTimeOffset.MinValue, the earliest time: tick 0. */
  const MinTime: nat := 0

  /** The manager's options and their defaults. */
  datatype Options = Options(
    maximumItems: int,
    tokenLifeTime: nat,
    lockLifeTime: nat,
    pollingInterval: nat)

  const DefaultMaximumItems := 10000

  const DefaultOptions := Options(DefaultMaximumItems, 30 * TicksPerMinute, 10 * TicksPerMinute, 5 * TicksPerMinute)

  /** The copy of a request the manager keeps: its id, the verb set
      before the connector ran, and the arguments, which an abort reads
      again. */
  datatype RequestCommand = RequestCommand(reqId: string, cmd: Option<string>, args: Commands.Args)

  /** A cancellation source is identified by a number; cancelling it puts
      the number into the registry's cancelled set. */
  type Source = nat

  datatype TokenEntry = TokenEntry(cmd: RequestCommand, source: Source, created: nat)

  datatype Registry = Registry(tokens: map<string, TokenEntry>, cancelled: set<Source>)

  const EmptyRegistry := Registry(map[], {})

  /** A cached lock: the time of its last access and what the owner keeps
      in it. */
  datatype Lock<P> = Lock(lastAccess: nat, payload: P)

  type Locks<P> = map<string, Lock<P>>

  // The request registry

  /** Register a running request. A full registry ignores the request,
      even one whose id is already registered; otherwise a registered id
      is an invalid-operation fault. */
  function AddCancellationTokenSource(reg: Registry, opts: Options, cmd: RequestCommand, source: Source, now: nat): (r: Result<Registry, Fault>)
    ensures r.Failure? <==> |reg.tokens| < opts.maximumItems && cmd.reqId in reg.tokens
    ensures r.Failure? ==> r.error == InvalidOperation
    ensures r.Success? ==> r.value.cancelled == reg.cancelled
    ensures r.Success? ==> forall k :: k in reg.tokens ==> k in r.value.tokens && r.value.tokens[k] == reg.tokens[k]
    ensures r.Success? && |reg.tokens| < opts.maximumItems ==>
      (cmd.reqId in r.value.tokens
       && r.value.tokens[cmd.reqId] == TokenEntry(cmd, source, now)
       && r.value.tokens.Keys == reg.tokens.Keys + {cmd.reqId})
    ensures r.Success? && |reg.tokens| >= opts.maximumItems ==> r.value == reg
  {
    if |reg.tokens| >= opts.maximumItems then Success(reg)
    else if cmd.reqId in reg.tokens then Failure(InvalidOperation)
    else Success(reg.(tokens := reg.tokens[cmd.reqId := TokenEntry(cmd, source, now)]))
  }

  /** Abort a request: remove it and cancel its source. The answer says
      whether the id was registered and, if so, carries its command. */
  function Abort(reg: Registry, reqId: string): (r: (bool, Option<RequestCommand>, Registry))
    ensures r.0 <==> reqId in reg.tokens
    ensures r.0 ==>
      (r.1 == Some(reg.tokens[reqId].cmd)
       && r.2.tokens == reg.tokens - {reqId}
       && r.2.cancelled == reg.cancelled + {reg.tokens[reqId].source})
    ensures !r.0 ==> r.1.None? && r.2 == reg
  {
    if reqId in reg.tokens then
      var entry := reg.tokens[reqId];
      (true, Some(entry.cmd), Registry(reg.tokens - {reqId}, reg.cancelled + {entry.source}))
    else (false, None, reg)
  }

  /** Forget a finished request without cancelling it. */
  function ReleaseRequest(reg: Registry, reqId: string): (r: (bool, Registry))
    ensures r.0 <==> reqId in reg.tokens
    ensures r.1.tokens.Keys == reg.tokens.Keys - {reqId}
    ensures forall k :: k in r.1.tokens ==> r.1.tokens[k] == reg.tokens[k]
    ensures r.1.cancelled == reg.cancelled
  {
    (reqId in reg.tokens, reg.(tokens := reg.tokens - {reqId}))
  }

  /** A registered request has outlived the token lifetime. */
  predicate TokenExpired(e: TokenEntry, opts: Options, now: nat) {
    now - e.created >= opts.tokenLifeTime
  }

  /** One pass of the request cleaner: every expired request is removed
      and its source cancelled; the others stay as they are. */
  function SweepRequests(reg: Registry, opts: Options, now: nat): (r: Registry)
    ensures forall k :: k in r.tokens <==> k in reg.tokens && !TokenExpired(reg.tokens[k], opts, now)
    ensures forall k :: k in r.tokens ==> r.tokens[k] == reg.tokens[k]
    ensures forall k :: k in reg.tokens && TokenExpired(reg.tokens[k], opts, now) ==> reg.tokens[k].source in r.cancelled
    ensures forall s :: s in r.cancelled ==>
      (s in reg.cancelled
       || exists k :: k in reg.tokens && TokenExpired(reg.tokens[k], opts, now) && reg.tokens[k].source == s)
  {
    var live := map k | k in reg.tokens && !TokenExpired(reg.tokens[k], opts, now) :: reg.tokens[k];
    var dropped := set k | k in reg.tokens && TokenExpired(reg.tokens[k], opts, now) :: reg.tokens[k].source;
    Registry(live, reg.cancelled + dropped)
  }

  // The lock cache

  /** Fetch the lock of `key`, creating it with `create` when there is
      none, and mark it accessed now. */
  function GetOrCreateLock<P>(locks: Locks<P>, key: string, create: string -> P, now: nat): (r: (Lock<P>, Locks<P>))
    ensures r.1.Keys == locks.Keys + {key}
    ensures key in r.1 && r.1[key] == r.0 && r.0.lastAccess == now
    ensures r.0.payload == if key in locks then locks[key].payload else create(key)
    ensures forall k :: k in locks && k != key ==> r.1[k] == locks[k]
  {
    var payload := if key in locks then locks[key].payload else create(key);
    var lock := Lock(now, payload);
    (lock, locks[key := lock])
  }

  /** Fetch the lock of `key` if there is one, marking it accessed now;
      never creates one. */
  function GetLock<P>(locks: Locks<P>, key: string, now: nat): (r: (Option<Lock<P>>, Locks<P>))
    ensures r.0.Some? <==> key in locks
    ensures r.1.Keys == locks.Keys
    ensures key in locks ==> r.0.value == r.1[key] && r.0.value == Lock(now, locks[key].payload)
    ensures forall k :: k in locks && k != key ==> r.1[k] == locks[k]
  {
    if key in locks then
      var lock := Lock(now, locks[key].payload);
      (Some(lock), locks[key := lock])
    else (None, locks)
  }

  /** Drop the lock of `key`; the answer says whether there was one. */
  function ReleaseLockCache<P>(locks: Locks<P>, key: string): (r: (bool, Locks<P>))
    ensures r.0 <==> key in locks
    ensures r.1.Keys == locks.Keys - {key}
    ensures forall k :: k in r.1 ==> r.1[k] == locks[k]
  {
    (key in locks, locks - {key})
  }

  /** A lock has been idle for the lock lifetime. */
  predicate LockIdle<P>(l: Lock<P>, opts: Options, now: nat) {
    now - l.lastAccess >= opts.lockLifeTime
  }

  /** One pass of the lock cleaner: every idle lock is removed. */
  function SweepLocks<P>(locks: Locks<P>, opts: Options, now: nat): (r: Locks<P>)
    ensures forall k :: k in r <==> k in locks && !LockIdle(locks[k], opts, now)
    ensures forall k :: k in r ==> r[k] == locks[k]
  {
    map k | k in locks && !LockIdle(locks[k], opts, now) :: locks[k]
  }

  /** ConnectorLock.Deactivate: date the last access back to the earliest
      time, so that the next sweep evicts the lock. */
  function Deactivate<P>(l: Lock<P>): (r: Lock<P>)
    ensures r.payload == l.payload
    ensures forall opts: Options, now: nat :: now >= opts.lockLifeTime ==> LockIdle(r, opts, now)
  {
    l.(lastAccess := MinTime)
  }

  // Properties

  /** A registry that starts within its cap stays within it. */
  lemma AddKeepsCap(reg: Registry, opts: Options, cmd: RequestCommand, source: Source, now: nat)
    requires |reg.tokens| <= opts.maximumItems
    ensures var r := AddCancellationTokenSource(reg, opts, cmd, source, now);
      r.Success? ==> |r.value.tokens| <= opts.maximumItems
  {
    var r := AddCancellationTokenSource(reg, opts, cmd, source, now);
    if r.Success? && |reg.tokens| < opts.maximumItems {
      assert r.value.tokens.Keys == reg.tokens.Keys + {cmd.reqId};
      assert |r.value.tokens.Keys| == |reg.tokens.Keys| + 1;
    }
  }

  /** A duplicate registration leaves the first one in place: the
      registry, which is not replaced, still maps the id to the first
      command. */
  lemma DuplicateKeepsFirst(reg: Registry, opts: Options, c1: RequestCommand, s1: Source, c2: RequestCommand, s2: Source, t1: nat, t2: nat)
    requires |reg.tokens| + 1 < opts.maximumItems && c1.reqId !in reg.tokens && c2.reqId == c1.reqId
    ensures var r1 := AddCancellationTokenSource(reg, opts, c1, s1, t1);
      r1.Success? && AddCancellationTokenSource(r1.value, opts, c2, s2, t2) == Failure(InvalidOperation)
      && r1.value.tokens[c1.reqId].cmd == c1
  {
    var r1 := AddCancellationTokenSource(reg, opts, c1, s1, t1);
    assert |r1.value.tokens.Keys| == |reg.tokens.Keys| + 1;
  }

  /** Registering and then releasing a request gives the registry back. */
  lemma AddThenRelease(reg: Registry, opts: Options, cmd: RequestCommand, source: Source, now: nat)
    requires cmd.reqId !in reg.tokens
    ensures var r := AddCancellationTokenSource(reg, opts, cmd, source, now);
      r.Success? && ReleaseRequest(r.value, cmd.reqId).1 == reg
        && ReleaseRequest(r.value, cmd.reqId).0 == (|reg.tokens| < opts.maximumItems)
  {
    var r := AddCancellationTokenSource(reg, opts, cmd, source, now);
    assert r.value.tokens - {cmd.reqId} == reg.tokens;
  }

  /** Registering and then aborting a request hands back its command,
      cancels its source and leaves the other requests alone. */
  lemma AddThenAbort(reg: Registry, opts: Options, cmd: RequestCommand, source: Source, now: nat)
    requires cmd.reqId !in reg.tokens && |reg.tokens| < opts.maximumItems
    ensures var r := AddCancellationTokenSource(reg, opts, cmd, source, now);
      var a := Abort(r.value, cmd.reqId);
      r.Success? && a.0 && a.1 == Some(cmd) && a.2 == Registry(reg.tokens, reg.cancelled + {source})
  {
    var r := AddCancellationTokenSource(reg, opts, cmd, source, now);
    assert r.value.tokens - {cmd.reqId} == reg.tokens;
  }

  /** A second sweep at the same time finds nothing more to remove. */
  lemma SweepRequestsIdempotent(reg: Registry, opts: Options, now: nat)
    ensures SweepRequests(SweepRequests(reg, opts, now), opts, now) == SweepRequests(reg, opts, now)
  {
    var r1 := SweepRequests(reg, opts, now);
    var r2 := SweepRequests(r1, opts, now);
    assert r2.tokens == r1.tokens;
    assert r2.cancelled == r1.cancelled;
  }

  /** A request registered now survives a sweep now when the lifetime is
      positive. */
  lemma FreshRequestSurvives(reg: Registry, opts: Options, cmd: RequestCommand, source: Source, now: nat)
    requires opts.tokenLifeTime > 0 && cmd.reqId !in reg.tokens && |reg.tokens| < opts.maximumItems
    ensures var r := AddCancellationTokenSource(reg, opts, cmd, source, now);
      r.Success? && cmd.reqId in SweepRequests(r.value, opts, now).tokens
  {
  }

  /** After get-or-create, the plain lookup finds the same lock. */
  lemma CreateThenGet<P>(locks: Locks<P>, key: string, create: string -> P, t1: nat, t2: nat)
    ensures var c := GetOrCreateLock(locks, key, create, t1);
      var g := GetLock(c.1, key, t2);
      g.0 == Some(Lock(t2, c.0.payload)) && g.0.value.payload == c.0.payload
  {
  }

  /** Get-or-create never replaces an existing payload. */
  lemma CreateKeepsExisting<P>(locks: Locks<P>, key: string, create: string -> P, now: nat)
    requires key in locks
    ensures GetOrCreateLock(locks, key, create, now).0 == Lock(now, locks[key].payload)
  {
  }

  /** A deactivated lock is gone after the next sweep, once the clock has
      passed one lifetime; the other locks fare as they would have. */
  lemma DeactivateEvicts<P>(locks: Locks<P>, key: string, opts: Options, now: nat)
    requires key in locks && now >= opts.lockLifeTime
    ensures var swept := SweepLocks(locks[key := Deactivate(locks[key])], opts, now);
      key !in swept && swept == SweepLocks(locks, opts, now) - {key}
  {
    var l := Deactivate(locks[key]);
    assert LockIdle(l, opts, now);
  }

  /** A lock accessed now survives a sweep now when the lifetime is
      positive. */
  lemma FreshLockSurvives<P>(locks: Locks<P>, key: string, create: string -> P, opts: Options, now: nat)
    requires opts.lockLifeTime > 0
    ensures key in SweepLocks(GetOrCreateLock(locks, key, create, now).1, opts, now)
  {
  }
}
