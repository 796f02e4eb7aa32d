/** The pooled HTTP sessions of `GnoRpcClient`: the three lock-protected sections, and every
    interleaving of threads that check sessions out, wait, return them and close the client. */
module SessionPool {
  import opened Wrappers

  const MAX_SIZE: nat := 12

  type Session = nat
  type Thread = nat

  // ----- the lock-protected sections -----

  datatype CheckoutResult = ClientClosed | Got(session: Session) | Opened(session: Session) | MustWait

  /** The client's own fields. `idle` is the LIFO queue, its newest entry last. */
  datatype Pool = Pool(idle: seq<Session>, count: int, closed: bool)

  function CheckoutSection(p: Pool, newcomer: Session): (Pool, CheckoutResult) {
    if p.closed then (p, ClientClosed)
    else if p.idle != [] then
      (p.(idle := p.idle[..|p.idle| - 1]), Got(p.idle[|p.idle| - 1]))
    else if p.count < MAX_SIZE then (p.(count := p.count + 1), Opened(newcomer))
    else (p, MustWait)
  }

  /** A checkout takes the newest idle session, opens one only if none is idle and fewer than twelve are counted,
      waits only if none is idle and twelve are, and is refused exactly when the client is closed. */
  lemma CheckoutIs(p: Pool, newcomer: Session)
    ensures var (q, r) := CheckoutSection(p, newcomer);
            match r
            case ClientClosed => p.closed && q == p
            case Got(s) => !p.closed && p.idle == q.idle + [s] && q.count == p.count && !q.closed
            case Opened(s) => !p.closed && p.idle == [] == q.idle && p.count < 12 && q.count == p.count + 1
                              && s == newcomer && !q.closed
            case MustWait => !p.closed && p.idle == [] && p.count >= 12 && q == p
  {
  }

  /** A session is put back as the newest, or leaves the count and is the caller's to close. */
  lemma ReturnIs(p: Pool, s: Session)
    ensures var (q, close) := ReturnSection(p, s);
            && close == p.closed == q.closed && (!p.closed ==> |q.idle| == |p.idle| + 1)
            && (p.closed ==> q.count == p.count - 1 && q.idle == p.idle)
            && (!p.closed ==> q.count == p.count && q.idle[..|q.idle| - 1] == p.idle && q.idle[|q.idle| - 1] == s)
  {
  }

  /** The second component says that the caller has to close the session itself. */
  function ReturnSection(p: Pool, s: Session): (Pool, bool) {
    if p.closed then (p.(count := p.count - 1), true)
    else (p.(idle := p.idle + [s]), false)
  }

  function Reversed(s: seq<Session>): (r: seq<Session>)
    ensures |r| == |s|
  {
    seq(|s|, i requires 0 <= i < |s| => s[|s| - 1 - i])
  }

  /** `close`: the queue is drained, newest first, and its sessions are no longer counted. */
  function CloseSection(p: Pool): (Pool, seq<Session>) {
    if p.closed then (p, []) else (Pool([], p.count - |p.idle|, true), Reversed(p.idle))
  }

  class GnoRpcClient {
    var idleSessions: seq<Session>
    var sessionCount: int
    var closed: bool

    constructor ()
      ensures View() == Pool([], 0, false)
    {
      idleSessions, sessionCount, closed := [], 0, false;
    }

    function View(): Pool
      reads this
    {
      Pool(idleSessions, sessionCount, closed)
    }

    method CheckoutUnderLock(newcomer: Session) returns (r: CheckoutResult)
      modifies this
      ensures (View(), r) == CheckoutSection(old(View()), newcomer)
    {
      if closed {
        return ClientClosed;
      }
      if idleSessions != [] {
        r := Got(idleSessions[|idleSessions| - 1]);
        idleSessions := idleSessions[..|idleSessions| - 1];
        return;
      }
      if sessionCount < MAX_SIZE {
        sessionCount := sessionCount + 1;
        return Opened(newcomer);
      }
      return MustWait;
    }

    method ReturnUnderLock(s: Session) returns (shouldClose: bool)
      modifies this
      ensures (View(), shouldClose) == ReturnSection(old(View()), s)
    {
      if closed {
        sessionCount := sessionCount - 1;
        shouldClose := true;
      } else {
        shouldClose := false;
        idleSessions := idleSessions + [s];
      }
    }

    /** `close`, when no waiting thread takes a session while the queue is drained. */
    method CloseUnderLock() returns (drained: seq<Session>)
      modifies this
      ensures (View(), drained) == CloseSection(old(View()))
    {
      drained := [];
      if closed {
        return;
      }
      closed := true;
      while idleSessions != []
        invariant closed && sessionCount == old(sessionCount)
        invariant |idleSessions| <= |old(idleSessions)| && idleSessions == old(idleSessions)[..|idleSessions|]
        invariant drained == Reversed(old(idleSessions))[..|old(idleSessions)| - |idleSessions|]
        decreases |idleSessions|
      {
        var n := |idleSessions| - 1;
        drained := drained + [idleSessions[n]];
        idleSessions := idleSessions[..n];
      }
      assert Reversed(old(idleSessions))[..|old(idleSessions)|] == Reversed(old(idleSessions));
      sessionCount := sessionCount - |drained|;
    }
  }

  // ----- all interleavings -----

  /** Where a session that was opened is now: at a position of the queue, with a thread, at a position
      of the list a `close` has drained, or out of the pool and waiting for its `close()` call. */
  datatype Place = Idle(index: nat) | Held(holder: Thread) | Drained(index: nat) | Retired | Shut

  /** `draining` is the list that a `close` in progress has collected while it holds the lock. */
  datatype State = State(
    pool: Pool,
    waiting: set<Thread>,
    held: map<Thread, Session>,
    draining: Option<seq<Session>>,
    place: seq<Place>,
    overflowed: bool)

  const INITIAL := State(Pool([], 0, false), {}, map[], None, [], false)

  /** One atomic step. Only `Receive`, `TimeOut` and `Finish` run without the client's lock. */
  datatype Action =
    | Checkout(t: Thread)
    | Receive(t: Thread)
    | TimeOut(t: Thread)
    | Return(t: Thread)
    | ReturnUnclean(t: Thread)
    | CloseBegin
    | CloseTake
    | CloseEnd
    | Finish(s: Session)

  function Fresh(s: State): Session { |s.place| }

  predicate Enabled(s: State, a: Action) {
    match a
    case Checkout(t) => s.draining.None? && t !in s.held && t !in s.waiting
    case Receive(t) => t in s.waiting && s.pool.idle != []
    case TimeOut(t) => t in s.waiting
    case Return(t) => s.draining.None? && t in s.held
    case ReturnUnclean(t) => s.draining.None? && t in s.held
    case CloseBegin => s.draining.None? && !s.pool.closed
    case CloseTake => s.draining.Some? && s.pool.idle != []
    case CloseEnd => s.draining.Some? && s.pool.idle == []
    case Finish(x) => x < |s.place| && s.place[x] == Retired
  }

  /** A new client is open and has no session. */
  lemma StartIs()
    ensures INITIAL.pool.idle == [] && INITIAL.pool.count == 0 && !INITIAL.pool.closed
    ensures INITIAL.waiting == {} && INITIAL.held == map[] && INITIAL.draining.None? && INITIAL.place == []
    ensures !INITIAL.overflowed
  {
  }

  /** A step that needs the lock waits exactly while a close holds it; a waiting thread needs none. */
  lemma EnabledIs(s: State, t: Thread, x: Session)
    ensures Enabled(s, Checkout(t)) <==> s.draining == None && !(t in s.held) && !(t in s.waiting)
    ensures Enabled(s, Return(t)) <==> s.draining == None && t in s.held
    ensures Enabled(s, ReturnUnclean(t)) <==> s.draining == None && t in s.held
    ensures Enabled(s, Receive(t)) <==> t in s.waiting && |s.pool.idle| > 0
    ensures Enabled(s, TimeOut(t)) <==> t in s.waiting
    ensures Enabled(s, CloseBegin) <==> s.draining == None && s.pool.closed == false
    ensures Enabled(s, CloseTake) <==> s.draining != None && |s.pool.idle| > 0
    ensures Enabled(s, CloseEnd) <==> s.draining != None && |s.pool.idle| == 0
    ensures Enabled(s, Finish(x)) <==> x < |s.place| && s.place[x] == Retired
  {
  }

  /** The steps of a checkout and of a return are the lock sections of the client. */
  lemma StepsAreSections(s: State, t: Thread)
    ensures Enabled(s, Checkout(t)) ==>
      var (p, r), u := CheckoutSection(s.pool, |s.place|), Step(s, Checkout(t));
      && u.pool == p && (u.waiting == if r.MustWait? then s.waiting + {t} else s.waiting)
      && (r.Got? || r.Opened? ==> t in u.held && u.held[t] == r.session)
      && (r.ClientClosed? || r.MustWait? ==> u.held == s.held)
      && (r.Opened? <==> |u.place| == |s.place| + 1)
    ensures Enabled(s, Return(t)) ==>
      var (p, close), u := ReturnSection(s.pool, s.held[t]), Step(s, Return(t));
      && u.pool == p && t !in u.held && u.waiting == s.waiting
      && (s.held[t] < |s.place| ==> (close <==> u.place[s.held[t]] == Retired))
    ensures Enabled(s, Receive(t)) ==>
      var u := Step(s, Receive(t));
      && t in u.held && s.pool.idle == u.pool.idle + [u.held[t]] && u.pool.count == s.pool.count && t !in u.waiting
    ensures Enabled(s, ReturnUnclean(t)) ==>
      var u := Step(s, ReturnUnclean(t));
      t !in u.held && u.pool.idle == s.pool.idle && u.pool.count == s.pool.count - 1
    ensures Enabled(s, TimeOut(t)) ==> Step(s, TimeOut(t)) == s.(waiting := s.waiting - {t})
  {
  }

  function RetireDrained(place: seq<Place>): (r: seq<Place>)
    ensures |r| == |place| && forall x :: 0 <= x < |place| ==> r[x] == if place[x].Drained? then Retired else place[x]
  {
    seq(|place|, x requires 0 <= x < |place| => if place[x].Drained? then Retired else place[x])
  }

  function Put(place: seq<Place>, x: Session, to: Place): seq<Place> {
    if x < |place| then place[x := to] else place
  }

  function Step(s: State, a: Action): State
    requires Enabled(s, a)
  {
    match a
    case Checkout(t) =>
      var (p, r) := CheckoutSection(s.pool, Fresh(s));
      (match r
       case ClientClosed => s
       case MustWait => s.(waiting := s.waiting + {t})
       case Got(x) => s.(pool := p, held := s.held[t := x], place := Put(s.place, x, Held(t)))
       case Opened(x) => s.(pool := p, held := s.held[t := x], place := s.place + [Held(t)]))
    case Receive(t) =>
      var n := |s.pool.idle| - 1;
      var x := s.pool.idle[n];
      s.(pool := s.pool.(idle := s.pool.idle[..n]), waiting := s.waiting - {t},
         held := s.held[t := x], place := Put(s.place, x, Held(t)))
    case TimeOut(t) => s.(waiting := s.waiting - {t})
    case Return(t) =>
      var x := s.held[t];
      var (p, shouldClose) := ReturnSection(s.pool, x);
      s.(pool := p, held := s.held - {t},
         place := Put(s.place, x, if shouldClose then Retired else Idle(|s.pool.idle|)),
         overflowed := s.overflowed || |p.idle| > MAX_SIZE)
    case ReturnUnclean(t) =>
      s.(pool := s.pool.(count := s.pool.count - 1), held := s.held - {t}, place := Put(s.place, s.held[t], Retired))
    case CloseBegin => s.(pool := s.pool.(closed := true), draining := Some([]))
    case CloseTake =>
      var n := |s.pool.idle| - 1;
      var x := s.pool.idle[n];
      s.(pool := s.pool.(idle := s.pool.idle[..n]), draining := Some(s.draining.value + [x]),
         place := Put(s.place, x, Drained(|s.draining.value|)))
    case CloseEnd =>
      s.(pool := s.pool.(count := s.pool.count - |s.draining.value|), draining := None,
         place := RetireDrained(s.place))
    case Finish(x) => s.(place := Put(s.place, x, Shut))
  }

  /** The state after a schedule; a step that is not enabled does not happen. */
  function Run(schedule: seq<Action>): State {
    if schedule == [] then INITIAL
    else
      var s := Run(schedule[..|schedule| - 1]);
      var a := schedule[|schedule| - 1];
      if Enabled(s, a) then Step(s, a) else s
  }

  // ----- the invariant -----

  function Collected(s: State): seq<Session> {
    if s.draining.Some? then s.draining.value else []
  }

  ghost predicate IdleMatches(place: seq<Place>, idle: seq<Session>) {
    && (forall i :: 0 <= i < |idle| ==> idle[i] < |place| && place[idle[i]] == Idle(i))
    && (forall x :: 0 <= x < |place| && place[x].Idle? ==> place[x].index < |idle| && idle[place[x].index] == x)
  }

  ghost predicate DrainedMatches(place: seq<Place>, drained: seq<Session>) {
    && (forall i :: 0 <= i < |drained| ==> drained[i] < |place| && place[drained[i]] == Drained(i))
    && (forall x :: 0 <= x < |place| && place[x].Drained? ==>
          place[x].index < |drained| && drained[place[x].index] == x)
  }

  ghost predicate HeldMatches(place: seq<Place>, held: map<Thread, Session>) {
    && (forall t :: t in held ==> held[t] < |place| && place[held[t]] == Held(t))
    && (forall x :: 0 <= x < |place| && place[x].Held? ==> place[x].holder in held && held[place[x].holder] == x)
  }

  /** Each opened session is where `place` says, and nowhere else. */
  ghost predicate Located(place: seq<Place>, idle: seq<Session>, held: map<Thread, Session>, drained: seq<Session>) {
    IdleMatches(place, idle) && HeldMatches(place, held) && DrainedMatches(place, drained)
  }

  ghost predicate Invariant(s: State) {
    && Located(s.place, s.pool.idle, s.held, Collected(s))
    && s.pool.count == |s.pool.idle| + |s.held| + |Collected(s)| <= MAX_SIZE
    && !s.overflowed
    && (s.pool.closed && s.draining.None? ==> s.pool.idle == [])
    && (s.draining.Some? ==> s.pool.closed)
    && s.waiting !! s.held.Keys
  }

  lemma HandOver(place: seq<Place>, idle: seq<Session>, held: map<Thread, Session>, drained: seq<Session>, t: Thread)
    requires Located(place, idle, held, drained) && idle != [] && t !in held
    ensures var x := idle[|idle| - 1];
            Located(Put(place, x, Held(t)), idle[..|idle| - 1], held[t := x], drained)
  {
  }

  lemma OpenNew(place: seq<Place>, idle: seq<Session>, held: map<Thread, Session>, drained: seq<Session>, t: Thread)
    requires Located(place, idle, held, drained) && t !in held
    ensures Located(place + [Held(t)], idle, held[t := |place|], drained)
  {
  }

  lemma Release(place: seq<Place>, idle: seq<Session>, held: map<Thread, Session>, drained: seq<Session>, t: Thread)
    requires Located(place, idle, held, drained) && t in held
    ensures Located(Put(place, held[t], Retired), idle, held - {t}, drained)
    ensures |held - {t}| == |held| - 1
  {
    assert (held - {t}).Keys == held.Keys - {t};
  }

  lemma PutBack(place: seq<Place>, idle: seq<Session>, held: map<Thread, Session>, drained: seq<Session>, t: Thread)
    requires Located(place, idle, held, drained) && t in held
    ensures Located(Put(place, held[t], Idle(|idle|)), idle + [held[t]], held - {t}, drained)
  {
  }

  lemma DrainOne(place: seq<Place>, idle: seq<Session>, held: map<Thread, Session>, drained: seq<Session>)
    requires Located(place, idle, held, drained) && idle != []
    ensures var x := idle[|idle| - 1];
            Located(Put(place, x, Drained(|drained|)), idle[..|idle| - 1], held, drained + [x])
  {
  }

  lemma DrainAll(place: seq<Place>, idle: seq<Session>, held: map<Thread, Session>, drained: seq<Session>)
    requires Located(place, idle, held, drained)
    ensures Located(RetireDrained(place), idle, held, [])
  {
  }

  lemma ShutOne(place: seq<Place>, idle: seq<Session>, held: map<Thread, Session>, drained: seq<Session>, x: Session)
    requires Located(place, idle, held, drained) && x < |place| && place[x] == Retired
    ensures Located(Put(place, x, Shut), idle, held, drained)
  {
  }

  lemma CheckoutIdleKeeps(s: State, t: Thread)
    requires Invariant(s) && Enabled(s, Checkout(t)) && !s.pool.closed && s.pool.idle != []
    ensures Invariant(Step(s, Checkout(t)))
  {
    HandOver(s.place, s.pool.idle, s.held, Collected(s), t);
  }

  lemma CheckoutOpensKeeps(s: State, t: Thread)
    requires Invariant(s) && Enabled(s, Checkout(t)) && !s.pool.closed && s.pool.idle == [] && s.pool.count < MAX_SIZE
    ensures Invariant(Step(s, Checkout(t)))
  {
    OpenNew(s.place, s.pool.idle, s.held, Collected(s), t);
  }

  lemma CheckoutKeeps(s: State, t: Thread)
    requires Invariant(s) && Enabled(s, Checkout(t))
    ensures Invariant(Step(s, Checkout(t)))
  {
    if !s.pool.closed && s.pool.idle != [] {
      CheckoutIdleKeeps(s, t);
    } else if !s.pool.closed && s.pool.count < MAX_SIZE {
      CheckoutOpensKeeps(s, t);
    } else if s.pool.closed {
      assert Step(s, Checkout(t)) == s;
    } else {
      assert Step(s, Checkout(t)) == s.(waiting := s.waiting + {t});
    }
  }

  lemma ReceiveKeeps(s: State, t: Thread)
    requires Invariant(s) && Enabled(s, Receive(t))
    ensures Invariant(Step(s, Receive(t)))
  {
    HandOver(s.place, s.pool.idle, s.held, Collected(s), t);
  }

  lemma ReturnKeeps(s: State, t: Thread)
    requires Invariant(s) && Enabled(s, Return(t))
    ensures Invariant(Step(s, Return(t)))
  {
    Release(s.place, s.pool.idle, s.held, Collected(s), t);
    if !s.pool.closed {
      PutBack(s.place, s.pool.idle, s.held, Collected(s), t);
    }
  }

  lemma ReturnUncleanKeeps(s: State, t: Thread)
    requires Invariant(s) && Enabled(s, ReturnUnclean(t))
    ensures Invariant(Step(s, ReturnUnclean(t)))
  {
    Release(s.place, s.pool.idle, s.held, Collected(s), t);
  }

  lemma CloseKeeps(s: State, a: Action)
    requires Invariant(s) && Enabled(s, a) && (a.CloseBegin? || a.CloseTake? || a.CloseEnd?)
    ensures Invariant(Step(s, a))
  {
    if a.CloseTake? { DrainOne(s.place, s.pool.idle, s.held, Collected(s)); }
    if a.CloseEnd? { DrainAll(s.place, s.pool.idle, s.held, Collected(s)); }
  }

  lemma FinishKeeps(s: State, x: Session)
    requires Invariant(s) && Enabled(s, Finish(x))
    ensures Invariant(Step(s, Finish(x)))
  {
    ShutOne(s.place, s.pool.idle, s.held, Collected(s), x);
  }

  /** Every step of every thread keeps the invariant. */
  lemma StepKeepsInvariant(s: State, a: Action)
    requires Invariant(s) && Enabled(s, a)
    ensures Invariant(Step(s, a))
  {
    match a
    case Checkout(t) => CheckoutKeeps(s, t);
    case Receive(t) => ReceiveKeeps(s, t);
    case TimeOut(t) => TimeOutKeeps(s, t);
    case Return(t) => ReturnKeeps(s, t);
    case ReturnUnclean(t) => ReturnUncleanKeeps(s, t);
    case Finish(x) => FinishKeeps(s, x);
    case _ => CloseKeeps(s, a);
  }

  lemma TimeOutKeeps(s: State, t: Thread)
    requires Invariant(s) && Enabled(s, TimeOut(t))
    ensures Invariant(Step(s, TimeOut(t)))
  {
  }

  lemma InitialInvariant()
    ensures Invariant(INITIAL)
  {
    var s := INITIAL;
    assert |s.place| == 0 && |s.held| == 0;
  }

  lemma {:induction false} RunKeepsInvariant(schedule: seq<Action>)
    ensures Invariant(Run(schedule))
  {
    if schedule == [] {
      InitialInvariant();
    } else {
      var n := |schedule| - 1;
      RunKeepsInvariant(schedule[..n]);
      if Enabled(Run(schedule[..n]), schedule[n]) {
        StepKeepsInvariant(Run(schedule[..n]), schedule[n]);
      }
    }
  }

  // ----- what the invariant means -----

  /** At most twelve sessions are open in the pool or with a thread, `put_nowait` never finds
      the queue full, and a closed client keeps no idle session. */
  lemma PoolIsConserved(schedule: seq<Action>)
    ensures var s := Run(schedule);
            && s.pool.count == |s.pool.idle| + |s.held| + |Collected(s)| <= MAX_SIZE
            && !s.overflowed
            && (s.pool.closed && s.draining.None? ==> s.pool.idle == [])
  {
    RunKeepsInvariant(schedule);
  }

  /** No session is ever with two threads, or idle while a thread holds it. */
  lemma SessionsAreExclusive(schedule: seq<Action>, t: Thread, u: Thread)
    requires t in Run(schedule).held && u in Run(schedule).held && t != u
    ensures Run(schedule).held[t] != Run(schedule).held[u]
    ensures Run(schedule).held[t] !in Run(schedule).pool.idle
  {
    RunKeepsInvariant(schedule);
  }

  /** Once a closed client has all its sessions back, it counts none and every session ever
      opened has been closed or is just about to be. */
  lemma ClosedClientLeaksNothing(schedule: seq<Action>, x: Session)
    requires var s := Run(schedule); s.pool.closed && s.draining.None? && s.held == map[]
    ensures Run(schedule).pool.count == 0
    ensures x < |Run(schedule).place| ==> Run(schedule).place[x] == Retired || Run(schedule).place[x] == Shut
  {
    RunKeepsInvariant(schedule);
  }

  /** The steps of a `close` that no waiting thread interrupts. */
  function CloseSteps(n: nat): seq<Action> { [CloseBegin] + Takes(n) + [CloseEnd] }

  function Takes(n: nat): seq<Action> { seq(n, i requires 0 <= i < n => CloseTake) }

  lemma TakeOne(s: State, idle: seq<Session>, k: nat)
    requires 1 <= k <= |idle| && s.draining == Some(Reversed(idle)[..k - 1]) && s.pool.idle == idle[..|idle| - (k - 1)]
    ensures Enabled(s, CloseTake) && Step(s, CloseTake).pool == s.pool.(idle := idle[..|idle| - k])
    ensures Step(s, CloseTake).draining == Some(Reversed(idle)[..k])
  {
    assert Reversed(idle)[..k] == Reversed(idle)[..k - 1] + [idle[|idle| - k]];
  }

  lemma {:induction false} TakesDrain(schedule: seq<Action>, k: nat)
    requires Enabled(Run(schedule), CloseBegin) && k <= |Run(schedule).pool.idle|
    ensures var p, u := Run(schedule).pool, Run(schedule + [CloseBegin] + Takes(k));
            u.pool == Pool(p.idle[..|p.idle| - k], p.count, true) && u.draining == Some(Reversed(p.idle)[..k])
  {
    var begun := schedule + [CloseBegin];
    if k == 0 {
      assert begun[..|begun| - 1] == schedule && begun + Takes(0) == begun;
    } else {
      TakesDrain(schedule, k - 1);
      var steps, idle := begun + Takes(k), Run(schedule).pool.idle;
      assert steps[..|steps| - 1] == begun + Takes(k - 1) && steps[|steps| - 1] == CloseTake;
      LastStep(steps);
      hide Run, Step, Enabled, Reversed, Takes;
      TakeOne(Run(begun + Takes(k - 1)), idle, k);
    }
  }

  lemma LastStep(schedule: seq<Action>)
    requires schedule != []
    ensures var s, a := Run(schedule[..|schedule| - 1]), schedule[|schedule| - 1];
            Run(schedule) == if Enabled(s, a) then Step(s, a) else s
  {
  }

  /** Such a `close` does what `CloseSection` says, and it is left with just the drained sessions to close. */
  lemma CloseStepsAreSection(schedule: seq<Action>)
    requires Enabled(Run(schedule), CloseBegin)
    ensures var (p, drained) := CloseSection(Run(schedule).pool);
            var u := Run(schedule + CloseSteps(|Run(schedule).pool.idle|));
            u.pool == p && u.draining.None? && forall x :: x in drained ==> x < |u.place| && u.place[x] == Retired
  {
    var n := |Run(schedule).pool.idle|;
    var taken, all := schedule + [CloseBegin] + Takes(n), schedule + CloseSteps(n);
    assert all[..|all| - 1] == taken && all[|all| - 1] == CloseEnd;
    RunKeepsInvariant(taken);
    LastStep(all);
    hide Run, Step, Invariant;
    TakesDrain(schedule, n);
    CloseEnds(Run(taken));
    assert Reversed(Run(schedule).pool.idle)[..n] == Reversed(Run(schedule).pool.idle);
  }

  lemma CloseEnds(s: State)
    requires Invariant(s) && s.draining.Some? && s.pool.idle == []
    ensures Enabled(s, CloseEnd)
    ensures var u := Step(s, CloseEnd);
            && u.pool == s.pool.(count := s.pool.count - |s.draining.value|) && u.draining.None?
            && forall x :: x in s.draining.value ==> x < |u.place| && u.place[x] == Retired
  {
  }
}
