/** The two single-flight caches: `_account_probes`, which publishes its result in one lock section
    and reads the clock inside the lock, and `_cached_sample`, which stores, settles and clears in
    three steps and reads the clock before it takes the lock. Both run as interleaved steps. */
module SingleFlight {
  import opened Wrappers

  type Key = nat
  type Thread = nat
  type FutureId = nat

  /** What a loader came back with. `cacheable` is the account service's suitable-candidate test. */
  datatype Outcome = Loaded(value: nat, cacheable: bool) | Raised(error: nat)

  /** `loaded` is what the leader's loader came back with, `result` what the future was settled with. */
  datatype Future = Future(key: Key, leader: Thread, loaded: Option<Outcome>, result: Option<Outcome>)

  /** A cache entry, with the future whose leader loaded it. */
  datatype Entry = Entry(at: int, value: nat, source: FutureId)

  /** Where a thread is in the lookup of a key. */
  datatype Pc =
    | Clocked(key: Key, now: int)
    | Loading(key: Key, future: FutureId)
    | Returned(key: Key, future: FutureId, outcome: Outcome)
    | Stored(key: Key, future: FutureId, outcome: Outcome)
    | Settled(key: Key, future: FutureId, outcome: Outcome)
    | Waiting(key: Key, future: FutureId)
    | Hit(key: Key, entry: Entry, now: int, seenAt: int)
    | Led(key: Key, future: FutureId, outcome: Outcome)
    | Followed(key: Key, future: FutureId, outcome: Outcome)

  datatype State = State(
    ttl: int, clock: int, cache: map<Key, Entry>, inflight: map<Key, FutureId>,
    futures: seq<Future>, pc: map<Thread, Pc>)

  function Initial(ttl: int): State {
    State(ttl, 0, map[], map[], [], map[])
  }

  datatype Action =
    | Tick(by_: nat)
    // account service
    | EnterAccount(t: Thread, k: Key)
    | Publish(t: Thread)
    // block lookup
    | ReadClock(t: Thread, k: Key)
    | EnterSample(t: Thread)
    | Store(t: Thread)
    | Settle(t: Thread)
    | Clear(t: Thread)
    // both
    | LoaderReturns(t: Thread, o: Outcome)
    | Join(t: Thread)

  predicate Outside(s: State, t: Thread) {
    t !in s.pc || s.pc[t].Hit? || s.pc[t].Led? || s.pc[t].Followed?
  }

  predicate Enabled(s: State, a: Action) {
    match a
    case Tick(_) => true
    case EnterAccount(t, _) => Outside(s, t)
    case ReadClock(t, _) => Outside(s, t)
    case EnterSample(t) => t in s.pc && s.pc[t].Clocked?
    case LoaderReturns(t, _) => t in s.pc && s.pc[t].Loading?
    case Publish(t) => t in s.pc && s.pc[t].Returned?
    case Store(t) => t in s.pc && s.pc[t].Returned? && s.pc[t].outcome.Loaded?
    case Settle(t) => t in s.pc && (s.pc[t].Stored? || (s.pc[t].Returned? && s.pc[t].outcome.Raised?))
    case Clear(t) => t in s.pc && s.pc[t].Settled?
    case Join(t) =>
      t in s.pc && s.pc[t].Waiting? && s.pc[t].future < |s.futures| && s.futures[s.pc[t].future].result.Some?
  }

  /** The account service drops every expired entry before it looks. */
  function Unexpired(s: State): map<Key, Entry> {
    map k | k in s.cache && s.clock - s.cache[k].at < s.ttl :: s.cache[k]
  }

  /** The lock section that hits, joins or leads, with the clock reading `now`. */
  function Enter(s: State, t: Thread, k: Key, now: int): State {
    if k in s.cache && now - s.cache[k].at < s.ttl then
      s.(pc := s.pc[t := Hit(k, s.cache[k], now, s.clock)])
    else if k in s.inflight then
      s.(pc := s.pc[t := Waiting(k, s.inflight[k])])
    else
      var f := |s.futures|;
      s.(futures := s.futures + [Future(k, t, None, None)], inflight := s.inflight[k := f],
         pc := s.pc[t := Loading(k, f)])
  }

  function Record(futures: seq<Future>, f: FutureId, o: Outcome): seq<Future> {
    if f < |futures| then futures[f := futures[f].(loaded := Some(o))] else futures
  }

  function Resolve(futures: seq<Future>, f: FutureId, o: Outcome): seq<Future> {
    if f < |futures| then futures[f := futures[f].(result := Some(o))] else futures
  }

  function Step(s: State, a: Action): State
    requires Enabled(s, a)
  {
    match a
    case Tick(by_) => s.(clock := s.clock + by_)
    case EnterAccount(t, k) => Enter(s.(cache := Unexpired(s)), t, k, s.clock)
    case ReadClock(t, k) => s.(pc := s.pc[t := Clocked(k, s.clock)])
    case EnterSample(t) => Enter(s, t, s.pc[t].key, s.pc[t].now)
    case LoaderReturns(t, o) =>
      var Loading(k, f) := s.pc[t];
      s.(futures := Record(s.futures, f, o), pc := s.pc[t := Returned(k, f, o)])
    case Publish(t) =>
      var Returned(k, f, o) := s.pc[t];
      var cache :=
        if o.Raised? then s.cache
        else if o.cacheable then s.cache[k := Entry(s.clock, o.value, f)]
        else s.cache - {k};
      s.(cache := cache, inflight := s.inflight - {k}, futures := Resolve(s.futures, f, o),
         pc := s.pc[t := Led(k, f, o)])
    case Store(t) =>
      var Returned(k, f, o) := s.pc[t];
      s.(cache := s.cache[k := Entry(s.clock, o.value, f)], pc := s.pc[t := Stored(k, f, o)])
    case Settle(t) =>
      var p := s.pc[t];
      s.(futures := Resolve(s.futures, p.future, p.outcome), pc := s.pc[t := Settled(p.key, p.future, p.outcome)])
    case Clear(t) =>
      var Settled(k, f, o) := s.pc[t];
      s.(inflight := s.inflight - {k}, pc := s.pc[t := Led(k, f, o)])
    case Join(t) =>
      var Waiting(k, f) := s.pc[t];
      s.(pc := s.pc[t := Followed(k, f, s.futures[f].result.value)])
  }

  function Run(ttl: int, schedule: seq<Action>): State {
    if schedule == [] then Initial(ttl)
    else
      var s := Run(ttl, schedule[..|schedule| - 1]);
      var a := schedule[|schedule| - 1];
      if Enabled(s, a) then Step(s, a) else s
  }

  // ----- the invariant -----

  /** The thread has work to do before its future is settled. */
  predicate Unsettled(p: Pc) { p.Loading? || p.Returned? || p.Stored? }

  predicate Leads(p: Pc) { Unsettled(p) || p.Settled? }

  /** Every key in flight has a live leader. */
  ghost predicate InflightLed(inflight: map<Key, FutureId>, futures: seq<Future>, pc: map<Thread, Pc>) {
    forall k :: k in inflight ==>
      && inflight[k] < |futures|
      && var t := futures[inflight[k]].leader;
         t in pc && Leads(pc[t]) && pc[t].key == k && pc[t].future == inflight[k]
  }

  /** Every leader's key is in flight, with its own future, which knows how far the leader is. */
  ghost predicate LeadersInflight(inflight: map<Key, FutureId>, futures: seq<Future>, pc: map<Thread, Pc>) {
    forall t :: t in pc && Leads(pc[t]) ==>
      && pc[t].key in inflight && inflight[pc[t].key] == pc[t].future
      && pc[t].future < |futures|
      && futures[pc[t].future] == Future(pc[t].key, t,
           if pc[t].Loading? then None else Some(pc[t].outcome),
           if pc[t].Settled? then Some(pc[t].outcome) else None)
  }

  /** An unsettled future has a leader that is still going to settle it. */
  ghost predicate FuturesLed(futures: seq<Future>, pc: map<Thread, Pc>) {
    forall f :: 0 <= f < |futures| && futures[f].result.None? ==>
      futures[f].leader in pc && Unsettled(pc[futures[f].leader]) && pc[futures[f].leader].future == f
  }

  ghost predicate Leadership(inflight: map<Key, FutureId>, futures: seq<Future>, pc: map<Thread, Pc>) {
    InflightLed(inflight, futures, pc) && LeadersInflight(inflight, futures, pc) && FuturesLed(futures, pc)
  }

  /** Followers wait on futures of their key, and whoever is done has its future's result. */
  ghost predicate Attached(futures: seq<Future>, pc: map<Thread, Pc>) {
    && (forall t :: t in pc && pc[t].Waiting? ==> pc[t].future < |futures| && futures[pc[t].future].key == pc[t].key)
    && (forall t :: t in pc && (pc[t].Led? || pc[t].Followed?) ==>
          pc[t].future < |futures| && futures[pc[t].future].key == pc[t].key
          && futures[pc[t].future].result == Some(pc[t].outcome))
  }

  /** A future is settled with what its leader's loader came back with. */
  ghost predicate SettledAsLoaded(futures: seq<Future>) {
    forall f :: 0 <= f < |futures| && futures[f].result.Some? ==> futures[f].loaded == futures[f].result
  }

  /** The entry is what the leader of its future loaded for this key. */
  predicate Sourced(k: Key, e: Entry, futures: seq<Future>) {
    && e.source < |futures| && futures[e.source].key == k
    && futures[e.source].loaded.Some? && futures[e.source].loaded.value.Loaded?
    && futures[e.source].loaded.value.value == e.value
  }

  ghost predicate CacheSourced(clock: int, cache: map<Key, Entry>, futures: seq<Future>) {
    forall k :: k in cache ==> cache[k].at <= clock && Sourced(k, cache[k], futures)
  }

  /** A hit was younger than the lifetime by the clock reading it used. */
  ghost predicate HitsSourced(ttl: int, clock: int, futures: seq<Future>, pc: map<Thread, Pc>) {
    && (forall t :: t in pc && pc[t].Clocked? ==> pc[t].now <= clock)
    && (forall t :: t in pc && pc[t].Hit? ==>
          && Sourced(pc[t].key, pc[t].entry, futures)
          && pc[t].now - pc[t].entry.at < ttl && pc[t].now <= pc[t].seenAt <= clock && pc[t].entry.at <= pc[t].seenAt)
  }

  ghost predicate Invariant(s: State) {
    && Leadership(s.inflight, s.futures, s.pc)
    && Attached(s.futures, s.pc)
    && SettledAsLoaded(s.futures)
    && CacheSourced(s.clock, s.cache, s.futures)
    && HitsSourced(s.ttl, s.clock, s.futures, s.pc)
  }

  // ----- the futures only grow and only gain results -----

  ghost predicate Grows(a: seq<Future>, b: seq<Future>) {
    && |a| <= |b|
    && forall f :: 0 <= f < |a| ==>
         && b[f].key == a[f].key && b[f].leader == a[f].leader
         && (a[f].loaded.Some? ==> b[f].loaded == a[f].loaded)
         && (a[f].result.Some? ==> b[f].result == a[f].result)
  }

  lemma GrowthKeepsCache(clock: int, cache: map<Key, Entry>, a: seq<Future>, b: seq<Future>)
    requires CacheSourced(clock, cache, a) && Grows(a, b)
    ensures CacheSourced(clock, cache, b)
  {
  }

  /** A thread may move to any place that is consistent by itself. */
  lemma GrowthKeepsResults(ttl: int, clock: int, a: seq<Future>, b: seq<Future>, pc: map<Thread, Pc>, t: Thread,
                           p: Pc)
    requires Attached(a, pc) && HitsSourced(ttl, clock, a, pc) && Grows(a, b)
    requires Attached(b, map[t := p]) && HitsSourced(ttl, clock, b, map[t := p])
    ensures Attached(b, pc[t := p]) && HitsSourced(ttl, clock, b, pc[t := p])
  {
    var q := map[t := p];
    assert t in q && q[t] == p;
  }

  // ----- leadership, step by step -----

  lemma NewLeader(inflight: map<Key, FutureId>, futures: seq<Future>, pc: map<Thread, Pc>, t: Thread, k: Key)
    requires Leadership(inflight, futures, pc) && k !in inflight && (t in pc ==> !Leads(pc[t]))
    ensures Leadership(inflight[k := |futures|], futures + [Future(k, t, None, None)], pc[t := Loading(k, |futures|)])
  {
  }

  lemma Bystander(inflight: map<Key, FutureId>, futures: seq<Future>, pc: map<Thread, Pc>, t: Thread, p: Pc)
    requires Leadership(inflight, futures, pc) && (t in pc ==> !Leads(pc[t])) && !Leads(p)
    ensures Leadership(inflight, futures, pc[t := p])
  {
  }

  /** A leader goes one step on. */
  lemma Advance(inflight: map<Key, FutureId>, futures: seq<Future>, pc: map<Thread, Pc>, t: Thread, p: Pc,
                fut: Future)
    requires Leadership(inflight, futures, pc) && t in pc && Unsettled(pc[t]) && Leads(p)
    requires p.key == pc[t].key && p.future == pc[t].future
    requires fut == Future(p.key, t, if p.Loading? then None else Some(p.outcome),
                           if p.Settled? then Some(p.outcome) else None)
    ensures Leadership(inflight, futures[p.future := fut], pc[t := p])
  {
  }

  lemma Retire(inflight: map<Key, FutureId>, futures: seq<Future>, pc: map<Thread, Pc>, t: Thread, p: Pc)
    requires Leadership(inflight, futures, pc) && t in pc && pc[t].Settled? && !Leads(p)
    ensures Leadership(inflight - {pc[t].key}, futures, pc[t := p])
  {
  }

  // ----- every step keeps the invariant -----

  lemma InflightFuture(inflight: map<Key, FutureId>, futures: seq<Future>, pc: map<Thread, Pc>, k: Key)
    requires Leadership(inflight, futures, pc) && k in inflight
    ensures inflight[k] < |futures| && futures[inflight[k]].key == k
  {
  }

  predicate Hits(s: State, k: Key, now: int) { k in s.cache && now - s.cache[k].at < s.ttl }

  lemma EnterHitKeeps(s: State, t: Thread, k: Key, now: int)
    requires Invariant(s) && (Outside(s, t) || s.pc[t].Clocked?) && now <= s.clock && Hits(s, k, now)
    ensures Invariant(Enter(s, t, k, now))
  {
    hide InflightLed, LeadersInflight, FuturesLed, SettledAsLoaded;
    var p := Hit(k, s.cache[k], now, s.clock);
    Bystander(s.inflight, s.futures, s.pc, t, p);
    GrowthKeepsResults(s.ttl, s.clock, s.futures, s.futures, s.pc, t, p);
  }

  lemma EnterJoinKeeps(s: State, t: Thread, k: Key, now: int)
    requires Invariant(s) && (Outside(s, t) || s.pc[t].Clocked?) && !Hits(s, k, now) && k in s.inflight
    ensures Invariant(Enter(s, t, k, now))
  {
    hide InflightLed, LeadersInflight, FuturesLed, SettledAsLoaded, CacheSourced;
    var p := Waiting(k, s.inflight[k]);
    InflightFuture(s.inflight, s.futures, s.pc, k);
    Bystander(s.inflight, s.futures, s.pc, t, p);
    GrowthKeepsResults(s.ttl, s.clock, s.futures, s.futures, s.pc, t, p);
  }

  lemma EnterLeadKeeps(s: State, t: Thread, k: Key, now: int)
    requires Invariant(s) && (Outside(s, t) || s.pc[t].Clocked?) && !Hits(s, k, now) && k !in s.inflight
    ensures Invariant(Enter(s, t, k, now))
  {
    hide InflightLed, LeadersInflight, FuturesLed, CacheSourced;
    var p := Loading(k, |s.futures|);
    var more := s.futures + [Future(k, t, None, None)];
    NewLeader(s.inflight, s.futures, s.pc, t, k);
    GrowthKeepsCache(s.clock, s.cache, s.futures, more);
    GrowthKeepsResults(s.ttl, s.clock, s.futures, more, s.pc, t, p);
  }

  lemma EnterKeeps(s: State, t: Thread, k: Key, now: int)
    requires Invariant(s) && (Outside(s, t) || s.pc[t].Clocked?) && now <= s.clock
    ensures Invariant(Enter(s, t, k, now))
  {
    hide Invariant, Enter;
    if Hits(s, k, now) {
      EnterHitKeeps(s, t, k, now);
    } else if k in s.inflight {
      EnterJoinKeeps(s, t, k, now);
    } else {
      EnterLeadKeeps(s, t, k, now);
    }
  }

  lemma LoaderReturnsKeeps(s: State, t: Thread, o: Outcome)
    requires Invariant(s) && Enabled(s, LoaderReturns(t, o))
    ensures Invariant(Step(s, LoaderReturns(t, o)))
  {
    hide InflightLed, FuturesLed;
    var e := Step(s, LoaderReturns(t, o));
    var p := e.pc[t];
    Advance(s.inflight, s.futures, s.pc, t, p, Future(p.key, t, Some(o), None));
    GrowthKeepsCache(s.clock, s.cache, s.futures, e.futures);
    GrowthKeepsResults(s.ttl, s.clock, s.futures, e.futures, s.pc, t, p);
  }

  lemma SettleKeeps(s: State, t: Thread)
    requires Invariant(s) && Enabled(s, Settle(t))
    ensures Invariant(Step(s, Settle(t)))
  {
    hide InflightLed, FuturesLed;
    var e := Step(s, Settle(t));
    var p := e.pc[t];
    Advance(s.inflight, s.futures, s.pc, t, p, Future(p.key, t, Some(p.outcome), Some(p.outcome)));
    GrowthKeepsCache(s.clock, s.cache, s.futures, e.futures);
    GrowthKeepsResults(s.ttl, s.clock, s.futures, e.futures, s.pc, t, p);
  }

  lemma ClearKeeps(s: State, t: Thread)
    requires Invariant(s) && Enabled(s, Clear(t))
    ensures Invariant(Step(s, Clear(t)))
  {
    hide InflightLed, FuturesLed;
    var e := Step(s, Clear(t));
    Retire(s.inflight, s.futures, s.pc, t, e.pc[t]);
    GrowthKeepsResults(s.ttl, s.clock, s.futures, s.futures, s.pc, t, e.pc[t]);
  }

  lemma StoreKeeps(s: State, t: Thread)
    requires Invariant(s) && Enabled(s, Store(t))
    ensures Invariant(Step(s, Store(t)))
  {
    hide InflightLed, FuturesLed;
    var e := Step(s, Store(t));
    var p := e.pc[t];
    Advance(s.inflight, s.futures, s.pc, t, p, s.futures[p.future]);
    assert s.futures[p.future := s.futures[p.future]] == s.futures;
    GrowthKeepsResults(s.ttl, s.clock, s.futures, s.futures, s.pc, t, p);
  }

  /** Publishing is storing, settling and clearing at once; when the result is not cacheable
      the entry goes instead. */
  lemma PublishKeeps(s: State, t: Thread)
    requires Invariant(s) && Enabled(s, Publish(t))
    ensures Invariant(Step(s, Publish(t)))
  {
    hide InflightLed, FuturesLed;
    var e := Step(s, Publish(t));
    var Returned(k, f, o) := s.pc[t];
    var settled := Settled(k, f, o);
    Advance(s.inflight, s.futures, s.pc, t, settled, Future(k, t, Some(o), Some(o)));
    Retire(s.inflight, e.futures, s.pc[t := settled], t, e.pc[t]);
    assert s.pc[t := settled][t := e.pc[t]] == e.pc;
    GrowthKeepsCache(s.clock, s.cache, s.futures, e.futures);
    GrowthKeepsResults(s.ttl, s.clock, s.futures, e.futures, s.pc, t, e.pc[t]);
  }

  lemma TickKeeps(s: State, by_: nat)
    requires Invariant(s)
    ensures Invariant(Step(s, Tick(by_)))
  {
    hide Leadership, SettledAsLoaded, Sourced;
  }

  lemma OutsideKeeps(s: State, a: Action)
    requires Invariant(s) && Enabled(s, a) && (a.ReadClock? || a.Join?)
    ensures Invariant(Step(s, a))
  {
    hide InflightLed, LeadersInflight, FuturesLed, SettledAsLoaded;
    var e := Step(s, a);
    OutsideLeads(s, a);
    GrowthKeepsResults(s.ttl, s.clock, s.futures, s.futures, s.pc, a.t, e.pc[a.t]);
  }

  lemma OutsideLeads(s: State, a: Action)
    requires Invariant(s) && Enabled(s, a) && (a.ReadClock? || a.Join?)
    ensures var e := Step(s, a); Leadership(e.inflight, e.futures, e.pc)
  {
    var e := Step(s, a);
    Bystander(s.inflight, s.futures, s.pc, a.t, e.pc[a.t]);
  }

  lemma StepKeepsInvariant(s: State, a: Action)
    requires Invariant(s) && Enabled(s, a)
    ensures Invariant(Step(s, a))
  {
    match a
    case EnterAccount(t, k) => EnterKeeps(s.(cache := Unexpired(s)), t, k, s.clock);
    case EnterSample(t) => EnterKeeps(s, t, s.pc[t].key, s.pc[t].now);
    case LoaderReturns(t, o) => LoaderReturnsKeeps(s, t, o);
    case Publish(t) => PublishKeeps(s, t);
    case Store(t) => StoreKeeps(s, t);
    case Settle(t) => SettleKeeps(s, t);
    case Clear(t) => ClearKeeps(s, t);
    case Tick(by_) => TickKeeps(s, by_);
    case _ => OutsideKeeps(s, a);
  }

  lemma {:induction false} RunKeepsInvariant(ttl: int, schedule: seq<Action>)
    ensures Invariant(Run(ttl, schedule)) && Run(ttl, schedule).ttl == ttl
  {
    if schedule != [] {
      var n := |schedule| - 1;
      RunKeepsInvariant(ttl, schedule[..n]);
      if Enabled(Run(ttl, schedule[..n]), schedule[n]) {
        StepKeepsInvariant(Run(ttl, schedule[..n]), schedule[n]);
      }
    }
  }

  // ----- what it means -----

  /** At most one loader for a key is in progress. */
  lemma OneLoaderPerKey(ttl: int, schedule: seq<Action>, t: Thread, u: Thread)
    requires var pc := Run(ttl, schedule).pc;
             t in pc && u in pc && Leads(pc[t]) && Leads(pc[u]) && pc[t].key == pc[u].key
    ensures t == u
  {
    RunKeepsInvariant(ttl, schedule);
  }

  /** Nobody waits on a future that nobody will settle. */
  lemma NoOrphanedFollower(ttl: int, schedule: seq<Action>, t: Thread)
    requires t in Run(ttl, schedule).pc && Run(ttl, schedule).pc[t].Waiting?
    ensures var s := Run(ttl, schedule);
            var f := s.pc[t].future;
            && f < |s.futures| && s.futures[f].key == s.pc[t].key
            && (s.futures[f].result.Some?
                || (s.futures[f].leader in s.pc && Unsettled(s.pc[s.futures[f].leader])
                    && s.pc[s.futures[f].leader].future == f))
  {
    RunKeepsInvariant(ttl, schedule);
  }

  lemma StepLoads(s: State, a: Action, f: FutureId)
    requires Invariant(s) && Enabled(s, a) && f < |Step(s, a).futures| && Step(s, a).futures[f].loaded.Some?
    ensures f < |s.futures| && Step(s, a).futures[f].leader == s.futures[f].leader
    ensures Step(s, a).futures[f].loaded == s.futures[f].loaded
      || a == LoaderReturns(s.futures[f].leader, Step(s, a).futures[f].loaded.value)
  {
    hide InflightLed, FuturesLed, Attached, CacheSourced, HitsSourced, SettledAsLoaded;
  }

  /** What a future was loaded with is what the loader of its leader came back with. */
  lemma {:induction false} LoadedByLeader(ttl: int, schedule: seq<Action>, f: FutureId)
    requires f < |Run(ttl, schedule).futures| && Run(ttl, schedule).futures[f].loaded.Some?
    ensures LoaderReturns(Run(ttl, schedule).futures[f].leader, Run(ttl, schedule).futures[f].loaded.value) in schedule
  {
    if schedule != [] {
      hide Invariant, Step, Enabled;
      var n := |schedule| - 1;
      var before := Run(ttl, schedule[..n]);
      RunKeepsInvariant(ttl, schedule[..n]);
      if Enabled(before, schedule[n]) { StepLoads(before, schedule[n], f); }
      if f < |before.futures| && before.futures[f].loaded == Run(ttl, schedule).futures[f].loaded {
        LoadedByLeader(ttl, schedule[..n], f);
      }
    }
  }

  /** Whoever led or joined a future ends with its result, value or exception: what the loader of its
      leader came back with, for the key that was asked for. So all who share a future share that. */
  lemma SharedResult(ttl: int, schedule: seq<Action>, t: Thread)
    requires t in Run(ttl, schedule).pc && (Run(ttl, schedule).pc[t].Followed? || Run(ttl, schedule).pc[t].Led?)
    ensures var s := Run(ttl, schedule);
            var p := s.pc[t];
            && p.future < |s.futures| && s.futures[p.future].key == p.key
            && s.futures[p.future].result == Some(p.outcome) && s.futures[p.future].loaded == Some(p.outcome)
            && LoaderReturns(s.futures[p.future].leader, p.outcome) in schedule
  {
    RunKeepsInvariant(ttl, schedule);
    LoadedByLeader(ttl, schedule, Run(ttl, schedule).pc[t].future);
  }

  /** The entry had not outlived its lifetime when it was returned. */
  // ----- what is looked up and stored -----

  /** A lookup hits exactly if the key has an entry that is younger than the lifetime; otherwise it joins the
      load in flight, or starts one. The account service forgets expired entries first. */
  lemma LookupIs(s: State, t: Thread, k: Key)
    requires Outside(s, t)
    ensures var p, later := Step(s, EnterAccount(t, k)).pc[t], Step(s, EnterAccount(t, k));
            && (p.Hit? <==> k in s.cache && s.clock - s.cache[k].at < s.ttl)
            && (p.Hit? ==> p == Hit(k, s.cache[k], s.clock, s.clock))
            && (!p.Hit? && k in s.inflight ==> p == Waiting(k, s.inflight[k]))
            && (!p.Hit? && k !in s.inflight ==>
                  && p == Loading(k, |s.futures|) && later.inflight == s.inflight[k := |s.futures|]
                  && later.futures == s.futures + [Future(k, t, None, None)])
            && (forall x :: x in later.cache <==> x in s.cache && s.clock - s.cache[x].at < s.ttl)
            && (forall x :: x in later.cache ==> later.cache[x] == s.cache[x])
  {
  }

  /** The block lookup compares the entry with the clock reading it took before. */
  lemma SampleLookupIs(s: State, t: Thread)
    requires t in s.pc && s.pc[t].Clocked?
    ensures var k, now, later := s.pc[t].key, s.pc[t].now, Step(s, EnterSample(t));
            var p := later.pc[t];
            && (p.Hit? <==> k in s.cache && now - s.cache[k].at < s.ttl)
            && (p.Hit? ==> p == Hit(k, s.cache[k], now, s.clock))
            && (!p.Hit? && k in s.inflight ==> p == Waiting(k, s.inflight[k]))
            && (!p.Hit? && k !in s.inflight ==>
                  && p == Loading(k, |s.futures|) && later.inflight == s.inflight[k := |s.futures|]
                  && later.futures == s.futures + [Future(k, t, None, None)])
            && later.cache == s.cache
  {
  }

  /** A published result is stored under the clock of that moment if it may be cached, and otherwise the key
      is forgotten; an exception leaves the cache alone. Either way the future is settled with it. */
  lemma PublishedIs(s: State, t: Thread)
    requires Invariant(s) && t in s.pc && s.pc[t].Returned?
    ensures var p, later := s.pc[t], Step(s, Publish(t));
            && later.cache == (match p.outcome
                               case Raised(_) => s.cache
                               case Loaded(v, cacheable) =>
                                 if cacheable then s.cache[p.key := Entry(s.clock, v, p.future)]
                                 else map x | x in s.cache && x != p.key :: s.cache[x])
            && p.key !in later.inflight && later.futures[p.future].result == Some(p.outcome)
  {
  }

  /** The block lookup stores every value, under the clock of that moment. */
  lemma StoredIs(s: State, t: Thread)
    requires t in s.pc && s.pc[t].Returned? && s.pc[t].outcome.Loaded?
    ensures var p, later := s.pc[t], Step(s, Store(t));
            later.cache == s.cache[p.key := Entry(s.clock, p.outcome.value, p.future)] && later.inflight == s.inflight
  {
  }

  /** The account service looks up under one lock and publishes in another. */
  predicate PublishesOnly(schedule: seq<Action>) {
    forall i :: 0 <= i < |schedule| ==> !schedule[i].ReadClock? && !schedule[i].EnterSample? && !schedule[i].Store?
  }

  /** In runs of the account service alone every entry was loaded with a suitable candidate. */
  lemma {:induction false} AccountCachesSuitable(ttl: int, schedule: seq<Action>, k: Key)
    requires PublishesOnly(schedule) && k in Run(ttl, schedule).cache
    ensures var s := Run(ttl, schedule);
            var e := s.cache[k];
            e.source < |s.futures| && s.futures[e.source].loaded == Some(Loaded(e.value, true))
  {
    var n := |schedule| - 1;
    var before, a := Run(ttl, schedule[..n]), schedule[n];
    RunKeepsInvariant(ttl, schedule[..n]);
    assert PublishesOnly(schedule[..n]);
    assert !a.ReadClock? && !a.EnterSample? && !a.Store?;
    hide Invariant, Step, PublishesOnly;
    if k in before.cache { AccountCachesSuitable(ttl, schedule[..n], k); }
    if Enabled(before, a) { StepKeepsSuitable(before, a, k); }
  }

  /** The entry's future was loaded with a value that may be cached. */
  predicate Suitable(s: State, k: Key) {
    k in s.cache ==>
      s.cache[k].source < |s.futures| && s.futures[s.cache[k].source].loaded == Some(Loaded(s.cache[k].value, true))
  }

  lemma StepKeepsSuitable(s: State, a: Action, k: Key)
    requires Invariant(s) && Enabled(s, a) && Suitable(s, k) && !a.Store? && !a.ReadClock? && !a.EnterSample?
    ensures Suitable(Step(s, a), k)
  {
  }

  predicate Fresh(ttl: int, p: Pc) { p.Hit? && p.seenAt - p.entry.at < ttl }

  /** A hit returns what some leader loaded for that key, and by the clock reading it compared with, the
      entry was younger than the lifetime. It was so too when it was returned if and only if less time
      passed in between than it had left. */
  lemma HitIsFresh(ttl: int, schedule: seq<Action>, t: Thread)
    requires t in Run(ttl, schedule).pc && Run(ttl, schedule).pc[t].Hit?
    ensures var s := Run(ttl, schedule);
            var p := s.pc[t];
            && Sourced(p.key, p.entry, s.futures)
            && p.now - p.entry.at < ttl && p.now <= p.seenAt && p.entry.at <= p.seenAt
            && (Fresh(ttl, p) <==> p.seenAt - p.now < ttl - (p.now - p.entry.at))
  {
    RunKeepsInvariant(ttl, schedule);
  }

  /** The steps of the account service alone. */
  predicate AccountOnly(schedule: seq<Action>) {
    forall i :: 0 <= i < |schedule| ==> !schedule[i].ReadClock?
  }

  /** A hit was younger than the lifetime when it was returned. */
  ghost predicate HitsFresh(s: State) {
    forall t :: t in s.pc ==>
      && !s.pc[t].Clocked?
      && (s.pc[t].Hit? ==> 0 <= s.pc[t].seenAt - s.pc[t].entry.at < s.ttl)
  }

  lemma StepKeepsHitsFresh(s: State, a: Action)
    requires Invariant(s) && HitsFresh(s) && Enabled(s, a) && !a.ReadClock?
    ensures HitsFresh(Step(s, a))
  {
  }

  /** The account service reads the clock inside the lock, so its hits are fresh when they are returned. */
  lemma {:induction false} AccountHitsAreFresh(ttl: int, schedule: seq<Action>)
    requires AccountOnly(schedule)
    ensures HitsFresh(Run(ttl, schedule))
  {
    if schedule != [] {
      var n := |schedule| - 1;
      AccountHitsAreFresh(ttl, schedule[..n]);
      RunKeepsInvariant(ttl, schedule[..n]);
      if Enabled(Run(ttl, schedule[..n]), schedule[n]) {
        StepKeepsHitsFresh(Run(ttl, schedule[..n]), schedule[n]);
      }
    }
  }

  lemma RunOne(ttl: int, schedule: seq<Action>, a: Action)
    requires Enabled(Run(ttl, schedule), a)
    ensures Run(ttl, schedule + [a]) == Step(Run(ttl, schedule), a)
  {
    assert (schedule + [a])[..|schedule|] == schedule;
  }

  // ----- when the hits of the block lookup are fresh -----

  /** A thread that has read the clock and now takes the lock is given a fresh entry if and only if
      less time has passed since the reading than the entry had left to live then. */
  lemma SampleHitFreshIff(ttl: int, schedule: seq<Action>, t: Thread)
    requires t in Run(ttl, schedule).pc && Run(ttl, schedule).pc[t].Clocked?
    requires Hits(Run(ttl, schedule), Run(ttl, schedule).pc[t].key, Run(ttl, schedule).pc[t].now)
    ensures var s, after := Run(ttl, schedule), Run(ttl, schedule + [EnterSample(t)]);
            var entry, now := s.cache[s.pc[t].key], s.pc[t].now;
            && t in after.pc && after.pc[t] == Hit(s.pc[t].key, entry, now, s.clock)
            && (Fresh(ttl, after.pc[t]) <==> s.clock - now < ttl - (now - entry.at))
  {
    RunKeepsInvariant(ttl, schedule);
    RunOne(ttl, schedule, EnterSample(t));
  }

  /** The thread was given an entry `delay` after its clock reading. */
  predicate DelayedHit(ttl: int, schedule: seq<Action>, t: Thread, delay: int) {
    var pc := Run(ttl, schedule).pc;
    t in pc && pc[t].Hit? && pc[t].seenAt - pc[t].now == delay
  }

  /** One thread fills the cache; another reads the clock at the last moment of the entry's lifetime
      and takes the lock `delay` later. */
  function DelayedSchedule(ttl: int, delay: nat): seq<Action> {
    [ReadClock(0, 5), EnterSample(0), LoaderReturns(0, Loaded(7, true)), Store(0),
     Tick(if ttl >= 1 then ttl - 1 else 0), ReadClock(1, 5), Tick(delay), EnterSample(1)]
  }

  lemma Filling(ttl: int)
    ensures Run(ttl, [ReadClock(0, 5), EnterSample(0)])
         == State(ttl, 0, map[], map[5 := 0], [Future(5, 0, None, None)], map[0 := Loading(5, 0)])
  {
    assert Run(ttl, []) == Initial(ttl);
    RunOne(ttl, [], ReadClock(0, 5));
    assert [] + [ReadClock(0, 5)] == [ReadClock(0, 5)];
    assert Run(ttl, [ReadClock(0, 5)]) == State(ttl, 0, map[], map[], [], map[0 := Clocked(5, 0)]);
    RunOne(ttl, [ReadClock(0, 5)], EnterSample(0));
    assert [ReadClock(0, 5)] + [EnterSample(0)] == [ReadClock(0, 5), EnterSample(0)];
  }

  lemma Filled(ttl: int, prefix: seq<Action>)
    requires prefix == [ReadClock(0, 5), EnterSample(0), LoaderReturns(0, Loaded(7, true)), Store(0)]
    ensures var s := Run(ttl, prefix);
            s.ttl == ttl && s.clock == 0 && s.cache == map[5 := Entry(0, 7, 0)] && s.pc.Keys == {0}
  {
    Filling(ttl);
    hide Run;
    assert prefix[..2] == [ReadClock(0, 5), EnterSample(0)];
    RunOne(ttl, prefix[..2], prefix[2]);
    assert prefix[..2] + [prefix[2]] == prefix[..3];
    RunOne(ttl, prefix[..3], prefix[3]);
    assert prefix[..3] + [prefix[3]] == prefix;
  }

  /** For every lifetime and every delay there is a hit whose entry is exactly as much too old. */
  lemma DelayedHitExists(ttl: int, delay: nat)
    requires ttl >= 1
    ensures DelayedHit(ttl, DelayedSchedule(ttl, delay), 1, delay)
    ensures var p := Run(ttl, DelayedSchedule(ttl, delay)).pc[1]; p.seenAt - p.entry.at == ttl - 1 + delay
  {
    var all := DelayedSchedule(ttl, delay);
    Filled(ttl, all[..4]);
    RunOne(ttl, all[..4], all[4]);
    assert all[..4] + [all[4]] == all[..5];
    RunOne(ttl, all[..5], all[5]);
    assert all[..5] + [all[5]] == all[..6];
    RunOne(ttl, all[..6], all[6]);
    assert all[..6] + [all[6]] == all[..7];
    RunOne(ttl, all[..7], all[7]);
    assert all[..7] + [all[7]] == all;
  }

  /** Entries that are returned some delay after the clock reading are fresh in every schedule if and
      only if that delay is nothing: reading the clock inside the lock is what makes hits fresh. */
  lemma HitsFreshIffUndelayed(ttl: int, delay: nat)
    requires ttl >= 1
    ensures (forall schedule, t :: DelayedHit(ttl, schedule, t, delay) ==> Fresh(ttl, Run(ttl, schedule).pc[t]))
      <==> delay == 0
  {
    hide Run, DelayedSchedule;
    DelayedHitExists(ttl, delay);
    forall schedule, t | DelayedHit(ttl, schedule, t, delay) && delay == 0
      ensures Fresh(ttl, Run(ttl, schedule).pc[t])
    {
      HitIsFresh(ttl, schedule, t);
    }
  }

  /** With the lifetime of the block lookup: a thread that is held up for a second between reading the
      clock and taking the lock is given an entry that has outlived its lifetime. */
  lemma SampleHitCanBeStale()
    ensures var p := Run(300, DelayedSchedule(300, 1)).pc;
            1 in p && p[1].Hit? && p[1].seenAt - p[1].entry.at == 300
  {
    hide Run, DelayedSchedule;
    DelayedHitExists(300, 1);
  }
}
