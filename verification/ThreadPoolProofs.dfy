/** What every interleaving of the reactor, the workers and `stop` keeps, and when `stop` returns. */
module ThreadPoolProofs {
  import opened Text
  import opened ThreadPool

  // ----- sums over the workers and the queue -----

  function Sum<T>(f: T -> nat, s: seq<T>): nat {
    if s == [] then 0 else f(s[0]) + Sum(f, s[1..])
  }

  lemma {:induction false} SumUpdate<T>(f: T -> nat, s: seq<T>, i: nat, x: T)
    requires i < |s|
    ensures Sum(f, s[i := x]) + f(s[i]) == Sum(f, s) + f(x)
  {
    if i > 0 {
      assert s[i := x][1..] == s[1..][i - 1 := x];
      SumUpdate(f, s[1..], i - 1, x);
    } else {
      assert s[i := x][1..] == s[1..];
    }
  }

  lemma {:induction false} SumSnoc<T>(f: T -> nat, s: seq<T>, x: T)
    ensures Sum(f, s + [x]) == Sum(f, s) + f(x)
  {
    if s != [] {
      assert (s + [x])[1..] == s[1..] + [x];
      SumSnoc(f, s[1..], x);
    }
  }

  lemma {:induction false} SumPositive<T>(f: T -> nat, s: seq<T>) returns (i: nat)
    requires Sum(f, s) > 0
    ensures i < |s| && f(s[i]) > 0
  {
    if f(s[0]) > 0 {
      i := 0;
    } else {
      i := SumPositive(f, s[1..]);
      i := i + 1;
    }
  }

  lemma {:induction false} SumAt<T>(f: T -> nat, s: seq<T>, i: nat)
    requires i < |s|
    ensures f(s[i]) <= Sum(f, s)
  {
    if i > 0 {
      SumAt(f, s[1..], i - 1);
    }
  }

  lemma {:induction false} SumTwo<T>(f: T -> nat, s: seq<T>, i: nat, j: nat)
    requires i < j < |s|
    ensures f(s[i]) + f(s[j]) <= Sum(f, s)
  {
    if i > 0 {
      SumTwo(f, s[1..], i - 1, j - 1);
    } else {
      SumAt(f, s[1..], j - 1);
    }
  }

  lemma {:induction false} SumStarting(f: Worker -> nat, size: nat)
    requires f(Starting) == 0
    ensures Sum(f, seq(size, _ => Starting)) == 0
  {
    if size > 0 {
      assert seq(size, _ => Starting)[1..] == seq(size - 1, _ => Starting);
      SumStarting(f, size - 1);
    }
  }

  /** Inside the counter guard. */
  function Inside(w: Worker): nat {
    if w.Starting? || w.Gone? then 0 else 1
  }

  function IsLeaving(w: Worker): nat {
    if w.Leaving? then 1 else 0
  }

  function IsSentinel(job: Job): nat {
    if job.Sentinel? then 1 else 0
  }

  /** The worker has handler `h` in its hands. */
  predicate Has(w: Worker, h: Id) {
    w == Working(h) || w == Closing(h)
  }

  function Having(h: Id): Worker -> nat {
    w => if Has(w, h) then 1 else 0
  }

  function Carrying(h: Id): Job -> nat {
    job => if job == Handler(h) then 1 else 0
  }

  // ----- ownership -----

  /** In how many places handler `h` is. */
  function Places(s: State, h: Id): nat {
    (if h in s.registered then 1 else 0)
    + (if s.hand == Some(h) then 1 else 0)
    + Sum(Carrying(h), s.queue)
    + Sum(Having(h), s.workers)
    + (if h in s.destroyed then 1 else 0)
  }

  /** An accepted handler is in exactly one place, any other in none. */
  ghost predicate Owned(s: State) {
    forall h :: Places(s, h) == if h in s.accepted then 1 else 0
  }

  lemma OwnedReactor(s: State, g: Id, h: Id)
    requires Places(s, h) == if h in s.accepted then 1 else 0
    requires ReactorStep(s, g).Some?
    ensures Places(ReactorStep(s, g).value, h) == Places(s, h)
  {
    if s.hand.Some? {
      SumSnoc(Carrying(h), s.queue, Handler(s.hand.value));
    }
  }

  lemma OwnedGet(s: State, w: nat, h: Id)
    requires w < |s.workers| && s.workers[w].Idle? && s.queue != []
    ensures Places(SvcStep(s, w, true).value, h) == Places(s, h)
  {
    SumUpdate(Having(h), s.workers, w, SvcStep(s, w, true).value.workers[w]);
  }

  lemma OwnedRelease(s: State, w: nat, keep: bool, h: Id)
    requires w < |s.workers| && (s.workers[w].Working? || s.workers[w].Closing?)
    requires Places(s, h) <= 1
    ensures Places(SvcStep(s, w, keep).value, h) == Places(s, h)
  {
    SumUpdate(Having(h), s.workers, w, SvcStep(s, w, keep).value.workers[w]);
    SumAt(Having(h), s.workers, w);
  }

  lemma OwnedPass(s: State, w: nat, keep: bool, h: Id)
    requires w < |s.workers|
    requires s.workers[w].Starting? || s.workers[w].Finishing? || s.workers[w].Leaving?
    ensures Places(SvcStep(s, w, keep).value, h) == Places(s, h)
  {
    SumUpdate(Having(h), s.workers, w, SvcStep(s, w, keep).value.workers[w]);
  }

  lemma OwnedSvc(s: State, w: nat, keep: bool, h: Id)
    requires Places(s, h) <= 1 && SvcStep(s, w, keep).Some?
    ensures Places(SvcStep(s, w, keep).value, h) == Places(s, h)
  {
    if s.workers[w].Idle? {
      OwnedGet(s, w, h);
    } else if s.workers[w].Working? || s.workers[w].Closing? {
      OwnedRelease(s, w, keep, h);
    } else {
      OwnedPass(s, w, keep, h);
    }
  }

  lemma {:induction false} OwnedAccept(s: State, g: Id, h: Id)
    requires Places(s, h) == (if h in s.accepted then 1 else 0) && AcceptStep(s, g).Some?
    ensures Places(AcceptStep(s, g).value, h) == if h in s.accepted || h == g then 1 else 0
  {
  }

  lemma {:induction false} OwnedStop(s: State, h: Id)
    requires StopStep(s).Some?
    ensures Places(StopStep(s).value, h) == Places(s, h)
  {
    SumSnoc(Carrying(h), s.queue, Sentinel);
  }

  lemma {:induction false} OwnedAfter(s: State, e: Event, h: Id)
    requires Step(s, e).Some? && Places(s, h) == if h in s.accepted then 1 else 0
    ensures var t := Step(s, e).value;
            Places(t, h) == if h in t.accepted then 1 else 0
  {
    match e
    case Accept(g) => OwnedAccept(s, g, h);
    case Reactor(g) => OwnedReactor(s, g, h);
    case Svc(w, keep) => OwnedSvc(s, w, keep, h);
    case Stopper => OwnedStop(s, h);
  }

  lemma {:induction false} OwnedStep(s: State, e: Event)
    requires Owned(s) && Step(s, e).Some?
    ensures Owned(Step(s, e).value)
  {
    forall h ensures Places(Step(s, e).value, h) == if h in Step(s, e).value.accepted then 1 else 0 {
      assert Places(s, h) == if h in s.accepted then 1 else 0;
      OwnedAfter(s, e, h);
    }
  }

  // ----- the counter and the sentinels -----

  function Owed(s: State): int {
    if s.stop.Pushing? then s.stop.owed else 0
  }

  /** Sentinels owed, sentinels queued, workers leaving with one, and late workers. */
  function Shut(s: State): int {
    Owed(s) + Sum(IsSentinel, s.queue) + Sum(IsLeaving, s.workers) + s.late
  }

  /** The counter is the number of workers inside the guard, and `Shut` accounts for all of it once
      `stop` has read it. */
  ghost predicate Balanced(s: State) {
    && s.active == Sum(Inside, s.workers)
    && Owed(s) >= 0
    && Shut(s) == (if s.stop.NotCalled? then 0 else s.active)
    && (s.stop.Returned? ==> Shut(s) == s.late)
  }

  /** What one worker moving on does to the sums over the workers. */
  lemma SumsMoved(s: State, w: nat, next: Worker)
    requires w < |s.workers|
    ensures var t := Moved(s, w, next);
            && Sum(Inside, t.workers) == Sum(Inside, s.workers) + Inside(next) - Inside(s.workers[w])
            && Sum(IsLeaving, t.workers) == Sum(IsLeaving, s.workers) + IsLeaving(next) - IsLeaving(s.workers[w])
  {
    SumUpdate(Inside, s.workers, w, next);
    SumUpdate(IsLeaving, s.workers, w, next);
  }

  lemma BalancedGet(s: State, w: nat)
    requires Balanced(s) && w < |s.workers| && s.workers[w].Idle? && s.queue != []
    ensures Balanced(SvcStep(s, w, true).value)
  {
    SumsMoved(s, w, SvcStep(s, w, true).value.workers[w]);
  }

  lemma {:induction false} BalancedEnter(s: State, w: nat)
    requires Balanced(s) && w < |s.workers| && s.workers[w].Starting?
    ensures Balanced(SvcStep(s, w, true).value)
  {
    SumsMoved(s, w, Idle);
  }

  lemma {:induction false} BalancedLeave(s: State, w: nat)
    requires Balanced(s) && w < |s.workers| && s.workers[w].Leaving?
    ensures Balanced(SvcStep(s, w, true).value)
  {
    SumAt(IsLeaving, s.workers, w);
    SumsMoved(s, w, Gone);
  }

  lemma {:induction false} BalancedWork(s: State, w: nat, keep: bool)
    requires Balanced(s) && w < |s.workers|
    requires s.workers[w].Working? || s.workers[w].Closing? || s.workers[w].Finishing?
    ensures Balanced(SvcStep(s, w, keep).value)
  {
    SumsMoved(s, w, SvcStep(s, w, keep).value.workers[w]);
  }

  lemma {:induction false} BalancedSvc(s: State, w: nat, keep: bool)
    requires Balanced(s) && SvcStep(s, w, keep).Some?
    ensures Balanced(SvcStep(s, w, keep).value)
  {
    match s.workers[w]
    case Starting => BalancedEnter(s, w);
    case Idle => BalancedGet(s, w);
    case Leaving => BalancedLeave(s, w);
    case _ => BalancedWork(s, w, keep);
  }

  lemma BalancedStep(s: State, e: Event)
    requires Balanced(s) && Step(s, e).Some?
    ensures Balanced(Step(s, e).value)
  {
    match e
    case Accept(h) =>
    case Reactor(h) =>
      if s.hand.Some? {
        SumSnoc(IsSentinel, s.queue, Handler(s.hand.value));
      }
    case Svc(w, keep) => BalancedSvc(s, w, keep);
    case Stopper => SumSnoc(IsSentinel, s.queue, Sentinel);
  }

  // ----- invariants of every run -----

  ghost predicate Invariant(s: State) {
    && Owned(s)
    && Balanced(s)
    && s.entered == s.taken + s.queue
  }

  lemma QueueStep(s: State, e: Event)
    requires s.entered == s.taken + s.queue && Step(s, e).Some?
    ensures var t := Step(s, e).value;
            t.entered == t.taken + t.queue
  {
  }

  lemma StepKeeps(s: State, e: Event)
    requires Invariant(s) && Step(s, e).Some?
    ensures Invariant(Step(s, e).value)
  {
    OwnedStep(s, e);
    BalancedStep(s, e);
    QueueStep(s, e);
  }

  lemma {:induction false} RunKeeps(s: State, events: seq<Event>)
    requires Invariant(s) && Run(s, events).Some?
    ensures Invariant(Run(s, events).value)
    decreases |events|
  {
    if events != [] {
      StepKeeps(s, events[0]);
      RunKeeps(Step(s, events[0]).value, events[1..]);
    }
  }

  ghost predicate Reachable(s: State) {
    exists size: nat, events :: Run(Started(size), events) == Some(s)
  }

  lemma ReachableInvariant(s: State)
    requires Reachable(s)
    ensures Invariant(s)
  {
    var size: nat, events :| Run(Started(size), events) == Some(s);
    SumStarting(Inside, size);
    SumStarting(IsLeaving, size);
    forall h ensures Places(Started(size), h) == 0 {
      SumStarting(Having(h), size);
    }
    RunKeeps(Started(size), events);
  }

  /** In every interleaving: no two workers have the same handler, and a handler that a worker has is
      not registered, not on its way to the queue, not queued and not destroyed. */
  lemma OneWorkerEach(s: State, i: nat, j: nat, h: Id)
    requires Reachable(s)
    requires i < |s.workers| && Has(s.workers[i], h)
    ensures j < |s.workers| && Has(s.workers[j], h) ==> j == i
    ensures h in s.accepted && h !in s.registered && s.hand != Some(h) && h !in s.destroyed
    ensures Handler(h) !in s.queue
  {
    ReachableInvariant(s);
    assert Places(s, h) <= 1;
    SumAt(Having(h), s.workers, i);
    if j < |s.workers| && j != i {
      SumTwo(Having(h), s.workers, if i < j then i else j, if i < j then j else i);
    }
    if k :| 0 <= k < |s.queue| && s.queue[k] == Handler(h) {
      SumAt(Carrying(h), s.queue, k);
    }
  }

  /** The handlers whose methods a step calls. */
  function Touches(s: State, e: Event): set<Id> {
    match e
    case Accept(h) => {h}
    case Reactor(h) => if s.hand.Some? then {s.hand.value} else {h}
    case Svc(w, _) =>
      if w >= |s.workers| then {}
      else if s.workers[w].Working? || s.workers[w].Closing? then {s.workers[w].h} else {}
    case Stopper => {}
  }

  /** Nobody touches a destroyed handler. */
  lemma DestroyedUntouched(s: State, e: Event, h: Id)
    requires Reachable(s) && Step(s, e).Some? && h in Touches(s, e)
    ensures h !in s.destroyed
  {
    ReachableInvariant(s);
    assert Places(s, h) <= 1;
    if e.Svc? {
      SumAt(Having(h), s.workers, e.w);
    }
  }

  // ----- termination -----

  /** Steps a worker can take without taking another job. */
  function StepsLeft(w: Worker): nat {
    match w
    case Working(_) => 3
    case Closing(_) => 2
    case Starting => 1
    case Finishing => 1
    case Leaving => 1
    case _ => 0
  }

  function StopLeft(s: State): int {
    match s.stop
    case NotCalled => 5 * |s.workers| + 3
    case Pushing(owed) => 5 * owed + 2
    case Polling => 1
    case Returned => 0
  }

  function Rank(s: State): int {
    4 * |s.queue| + Sum(StepsLeft, s.workers) + StopLeft(s)
  }

  lemma {:induction false} SumInside(workers: seq<Worker>)
    ensures Sum(Inside, workers) <= |workers|
  {
    if workers != [] {
      SumInside(workers[1..]);
    }
  }

  predicate PoolEvent(e: Event) {
    e.Svc? || e.Stopper?
  }

  lemma {:induction false} RankGet(s: State, w: nat)
    requires w < |s.workers| && s.workers[w].Idle? && s.queue != []
    ensures Rank(SvcStep(s, w, true).value) < Rank(s)
  {
    SumUpdate(StepsLeft, s.workers, w, SvcStep(s, w, true).value.workers[w]);
  }

  /** A worker that goes on without the queue. */
  lemma {:induction false} RankMoved(s: State, t: State, w: nat, next: Worker)
    requires w < |s.workers| && t.workers == s.workers[w := next] && StepsLeft(next) < StepsLeft(s.workers[w])
    requires t.queue == s.queue && t.stop == s.stop
    ensures Rank(t) < Rank(s)
  {
    SumUpdate(StepsLeft, s.workers, w, next);
  }

  lemma {:induction false} RankSvc(s: State, w: nat, keep: bool)
    requires SvcStep(s, w, keep).Some?
    ensures Rank(SvcStep(s, w, keep).value) < Rank(s)
  {
    if s.workers[w].Idle? {
      RankGet(s, w);
    } else {
      var t := SvcStep(s, w, keep).value;
      RankMoved(s, t, w, t.workers[w]);
    }
  }

  lemma RankStop(s: State)
    requires Balanced(s) && StopStep(s).Some?
    ensures Rank(StopStep(s).value) < Rank(s)
  {
    SumInside(s.workers);
  }

  /** Every step of a worker or of `stop` uses up rank; only the reactor's steps add some. */
  lemma RankStep(s: State, e: Event)
    requires Balanced(s) && Step(s, e).Some?
    ensures Rank(Step(s, e).value) <= Rank(s) + if PoolEvent(e) then -1 else if e.Reactor? then 4 else 0
  {
    match e
    case Accept(h) =>
    case Reactor(h) =>
    case Svc(w, keep) => RankSvc(s, w, keep);
    case Stopper => RankStop(s);
  }

  function PoolSteps(events: seq<Event>): nat {
    if events == [] then 0 else (if PoolEvent(events[0]) then 1 else 0) + PoolSteps(events[1..])
  }

  function ReactorSteps(events: seq<Event>): nat {
    if events == [] then 0 else (if events[0].Reactor? then 1 else 0) + ReactorSteps(events[1..])
  }

  /** However the threads interleave, the pool's steps are bounded by what it starts with and what the
      reactor brings. */
  lemma {:induction false} PoolStepsBounded(s: State, events: seq<Event>)
    requires Invariant(s) && Run(s, events).Some?
    ensures PoolSteps(events) <= Rank(s) + 4 * ReactorSteps(events)
    ensures PoolSteps(events) + Rank(Run(s, events).value) <= Rank(s) + 4 * ReactorSteps(events)
    decreases |events|
  {
    if events != [] {
      RankStep(s, events[0]);
      StepKeeps(s, events[0]);
      PoolStepsBounded(Step(s, events[0]).value, events[1..]);
    }
  }

  predicate Stopping(s: State) {
    s.stop.Pushing? || s.stop.Polling?
  }

  /** Without a late worker a pool that is stopping is never stuck. */
  lemma NeverStuck(s: State) returns (e: Event)
    requires Invariant(s) && Stopping(s) && s.late == 0
    ensures PoolEvent(e) && Step(s, e).Some? && Step(s, e).value.late == 0
  {
    if s.stop.Pushing? || s.active == 0 {
      e := Stopper;
    } else if Sum(IsLeaving, s.workers) > 0 {
      var w := SumPositive(IsLeaving, s.workers);
      e := Svc(w, true);
    } else {
      var w := SumPositive(Inside, s.workers);
      e := Svc(w, true);
    }
  }

  lemma {:induction false} ReturnsFrom(s: State) returns (events: seq<Event>)
    requires Invariant(s) && s.late == 0 && (Stopping(s) || s.stop.Returned?)
    ensures (forall i :: 0 <= i < |events| ==> PoolEvent(events[i]))
    ensures Run(s, events).Some? && Run(s, events).value.stop.Returned?
    decreases Rank(s)
  {
    if s.stop.Returned? {
      return [];
    }
    var e := NeverStuck(s);
    RankStep(s, e);
    StepKeeps(s, e);
    var rest := ReturnsFrom(Step(s, e).value);
    events := [e] + rest;
    assert events[1..] == rest;
  }

  lemma {:induction false} LateStays(s: State, events: seq<Event>)
    requires Invariant(s) && s.late > 0 && !s.stop.Returned? && Run(s, events).Some?
    ensures !Run(s, events).value.stop.Returned?
    decreases |events|
  {
    if events != [] {
      StepKeeps(s, events[0]);
      LateStays(Step(s, events[0]).value, events[1..]);
    }
  }

  /** Some interleaving from here on lets `stop` return. */
  ghost predicate CanReturn(s: State) {
    exists events :: Run(s, events).Some? && Run(s, events).value.stop.Returned?
  }

  /** Once `stop` has read the counter it can return exactly when no worker has entered since. */
  lemma StopReturnsExactly(s: State)
    requires Reachable(s) && Stopping(s)
    ensures s.late == 0 <==> CanReturn(s)
  {
    ReachableInvariant(s);
    if s.late == 0 {
      var events := ReturnsFrom(s);
    } else {
      LateNeverReturns(s);
    }
  }

  lemma LateNeverReturns(s: State)
    requires Invariant(s) && s.late > 0 && !s.stop.Returned?
    ensures !CanReturn(s)
  {
    forall events | Run(s, events).Some? ensures !Run(s, events).value.stop.Returned? {
      LateStays(s, events);
    }
  }

  // ----- when it is safe to call stop -----

  /** Every worker thread has reached the counter guard. */
  ghost predicate AllEntered(s: State) {
    forall w :: 0 <= w < |s.workers| ==> !s.workers[w].Starting?
  }

  /** Nobody is late before `stop` is called. */
  lemma NobodyLateBefore(s: State)
    requires Balanced(s) && s.stop.NotCalled?
    ensures s.late == 0
  {
  }

  lemma EnteredStep(s: State, e: Event)
    requires AllEntered(s) && Step(s, e).Some?
    ensures AllEntered(Step(s, e).value) && Step(s, e).value.late == s.late
  {
  }

  lemma {:induction false} EnteredRun(s: State, events: seq<Event>)
    requires AllEntered(s) && Run(s, events).Some?
    ensures AllEntered(Run(s, events).value) && Run(s, events).value.late == s.late
    decreases |events|
  {
    if events != [] {
      EnteredStep(s, events[0]);
      EnteredRun(Step(s, events[0]).value, events[1..]);
    }
  }

  /** With nobody late `stop` can return, also when it has not been called yet. */
  lemma ReturnsUnlessLate(s: State)
    requires Invariant(s) && s.late == 0
    ensures CanReturn(s)
  {
    if s.stop.NotCalled? {
      var called := Step(s, Stopper).value;
      StepKeeps(s, Stopper);
      var rest := ReturnsFrom(called);
      var events := [Stopper] + rest;
      assert events[1..] == rest;
      assert Run(s, events) == Run(called, rest);
    } else {
      var events := ReturnsFrom(s);
    }
  }

  /** A worker that enters right after `stop` has read the counter leaves no way to return. */
  lemma LateEntry(s: State, w: nat) returns (events: seq<Event>)
    requires Invariant(s) && s.stop.NotCalled? && w < |s.workers| && s.workers[w].Starting?
    ensures Run(s, events).Some? && !CanReturn(Run(s, events).value)
  {
    var called := Step(s, Stopper).value;
    var late := Step(called, Svc(w, true)).value;
    NobodyLateBefore(s);
    StepKeeps(s, Stopper);
    StepKeeps(called, Svc(w, true));
    LateNeverReturns(late);
    events := [Stopper, Svc(w, true)];
    assert events[1..] == [Svc(w, true)] && [Svc(w, true)][1..] == [];
    assert Run(called, [Svc(w, true)]) == Run(late, []);
  }

  /** Before the call: however the threads then interleave, `stop` can still return, exactly when every
      worker has already entered the guard. */
  lemma {:induction false} SafeToStopExactly(s: State)
    requires Reachable(s) && s.stop.NotCalled?
    ensures AllEntered(s) <==> forall events :: Run(s, events).Some? ==> CanReturn(Run(s, events).value)
  {
    ReachableInvariant(s);
    NobodyLateBefore(s);
    if AllEntered(s) {
      forall events | Run(s, events).Some? ensures CanReturn(Run(s, events).value) {
        RunKeeps(s, events);
        EnteredRun(s, events);
        ReturnsUnlessLate(Run(s, events).value);
      }
    } else {
      var w :| 0 <= w < |s.workers| && s.workers[w].Starting?;
      var events := LateEntry(s, w);
    }
  }

  /** No worker and no step of `stop` can go on. */
  ghost predicate Quiet(s: State) {
    forall e :: PoolEvent(e) ==> Step(s, e).None?
  }

  /** And then it does return: once every worker has entered, every run after which neither a worker nor
      `stop` can go on has returned, and no run has more of their steps than the rank and the reactor's
      steps allow. */
  lemma {:induction false} StopReturnsInEveryRun(s: State, events: seq<Event>)
    requires Reachable(s) && s.stop.NotCalled? && AllEntered(s) && Run(s, events).Some?
    ensures Quiet(Run(s, events).value) ==> Run(s, events).value.stop.Returned?
    ensures PoolSteps(events) <= Rank(s) + 4 * ReactorSteps(events)
  {
    var t := Run(s, events).value;
    ReachableInvariant(s);
    NobodyLateBefore(s);
    RunKeeps(s, events);
    EnteredRun(s, events);
    PoolStepsBounded(s, events);
    if t.stop.NotCalled? {
      assert PoolEvent(Stopper) && Step(t, Stopper).Some?;
    } else if Stopping(t) {
      var e := NeverStuck(t);
    }
  }

  /** The race is real: a worker that enters after the counter was read keeps `stop` polling for ever,
      or, when `stop` has already returned, stays behind waiting at the queue. */
  lemma LateWorker()
    ensures var s := Run(Started(1), [Stopper, Svc(0, true)]);
            s.Some? && Stopping(s.value) && s.value.late == 1
    ensures var s := Run(Started(1), [Stopper, Stopper, Stopper, Svc(0, true)]);
            s.Some? && s.value.stop.Returned? && s.value.workers == [Idle]
  {
    var s0 := Started(1);
    var s1 := Step(s0, Stopper).value;
    var s2 := Step(s1, Svc(0, true)).value;
    assert Run(s1, [Svc(0, true)]) == Run(s2, []);
    assert [Stopper, Svc(0, true)][1..] == [Svc(0, true)];
    var t2 := Step(s1, Stopper).value;
    var t3 := Step(t2, Stopper).value;
    var t4 := Step(t3, Svc(0, true)).value;
    assert Run(t3, [Svc(0, true)]) == Run(t4, []);
    assert [Stopper, Svc(0, true)][1..] == [Svc(0, true)];
    assert [Stopper, Stopper, Svc(0, true)][1..] == [Stopper, Svc(0, true)];
    assert [Stopper, Stopper, Stopper, Svc(0, true)][1..] == [Stopper, Stopper, Svc(0, true)];
    assert t4.workers == [Idle];
  }

  // ----- what shutdown leaves -----

  /** When `stop` has returned and no worker was late: everything ahead of a sentinel has been taken from
      the queue, in order and once each, no worker has a handler any more, and what is left in the queue
      are handlers that came behind the sentinels. */
  lemma AfterReturn(s: State)
    requires Reachable(s) && s.stop.Returned? && s.late == 0
    ensures s.entered == s.taken + s.queue
    ensures forall k :: 0 <= k < |s.entered| && s.entered[k].Sentinel? ==> k < |s.taken|
    ensures forall w :: 0 <= w < |s.workers| ==> s.workers[w].Starting? || s.workers[w].Gone?
    ensures forall h :: h in s.accepted ==>
      (h in s.registered || s.hand == Some(h) || Handler(h) in s.queue || h in s.destroyed)
  {
    ReachableInvariant(s);
    forall k | 0 <= k < |s.entered| && s.entered[k].Sentinel? ensures k < |s.taken| {
      if k >= |s.taken| {
        SumAt(IsSentinel, s.queue, k - |s.taken|);
      }
    }
    forall w | 0 <= w < |s.workers| ensures s.workers[w].Starting? || s.workers[w].Gone? {
      SumAt(Inside, s.workers, w);
    }
    forall h | h in s.accepted
      ensures h in s.registered || s.hand == Some(h) || Handler(h) in s.queue || h in s.destroyed
    {
      assert Places(s, h) == 1;
      if Sum(Carrying(h), s.queue) > 0 {
        var k := SumPositive(Carrying(h), s.queue);
      } else if Sum(Having(h), s.workers) > 0 {
        var w := SumPositive(Having(h), s.workers);
      }
    }
  }

  /** And those handlers stay there: no run without a late worker takes anything from the queue again. */
  lemma {:induction false} StrandedForEver(s: State, events: seq<Event>)
    requires Invariant(s) && s.stop.Returned? && Run(s, events).Some? && Run(s, events).value.late == 0
    ensures s.queue <= Run(s, events).value.queue && s.destroyed == Run(s, events).value.destroyed
    decreases |events|
  {
    if events != [] {
      var t := Step(s, events[0]).value;
      StepKeeps(s, events[0]);
      LateGrows(t, events[1..]);
      StrandedStep(s, events[0]);
      StrandedForEver(t, events[1..]);
    }
  }

  /** After the return nobody is inside, so only the acceptor and the reactor still move. */
  lemma {:induction false} StrandedStep(s: State, e: Event)
    requires Balanced(s) && s.stop.Returned? && Step(s, e).Some? && Step(s, e).value.late == 0
    ensures var t := Step(s, e).value;
            t.stop.Returned? && s.queue <= t.queue && t.destroyed == s.destroyed
  {
    if e.Svc? {
      SumAt(Inside, s.workers, e.w);
    }
  }

  lemma {:induction false} LateGrows(s: State, events: seq<Event>)
    requires Run(s, events).Some?
    ensures s.late <= Run(s, events).value.late
    decreases |events|
  {
    if events != [] {
      LateGrows(Step(s, events[0]).value, events[1..]);
    }
  }

  // ----- what process decides -----

  lemma {:induction false} RunSnoc(s: State, events: seq<Event>, e: Event)
    ensures Run(s, events + [e])
         == match Run(s, events) case None => None case Some(t) => Step(t, e)
    decreases |events|
  {
    if events == [] {
      assert [] + [e] == [e] && [e][1..] == [];
    } else {
      assert (events + [e])[1..] == events[1..] + [e];
      if Step(s, events[0]).Some? {
        RunSnoc(Step(s, events[0]).value, events[1..], e);
      }
    }
  }

  /** The state in which the i-th event is taken. */
  ghost function At(size: nat, events: seq<Event>, i: nat): State
    requires i <= |events|
  {
    if Run(Started(size), events[..i]).Some? then Run(Started(size), events[..i]).value else Started(size)
  }

  lemma {:induction false} AtSnoc(size: nat, events: seq<Event>, e: Event, i: nat)
    requires i <= |events|
    ensures At(size, events + [e], i) == At(size, events, i)
  {
    assert (events + [e])[..i] == events[..i];
  }

  predicate Moves(e: Event, w: nat) {
    e.Svc? && e.w == w
  }

  /** At the i-th event the worker's `process` on the handler returned: keeping the connection, or not. */
  ghost predicate Processed(size: nat, events: seq<Event>, i: nat, w: nat, h: Id, keep: bool)
    requires i < |events|
  {
    var s := At(size, events, i);
    Moves(events[i], w) && events[i].keep == keep && w < |s.workers| && s.workers[w] == Working(h)
  }

  /** `process` gave the connection up, and the worker has not moved since. */
  ghost predicate ClosePending(size: nat, events: seq<Event>, w: nat, h: Id) {
    exists i :: 0 <= i < |events| && Processed(size, events, i, w, h, false)
      && forall j :: i < j < |events| ==> !Moves(events[j], w)
  }

  /** `process` gave the connection up, and the worker's next step was the j-th event. */
  ghost predicate ClosedAt(size: nat, events: seq<Event>, w: nat, h: Id, j: nat)
    requires j < |events|
  {
    Moves(events[j], w) && ClosePending(size, events[..j], w, h)
  }

  ghost predicate GivenUp(size: nat, events: seq<Event>, h: Id) {
    exists w, j :: 0 <= j < |events| && ClosedAt(size, events, w, h, j)
  }

  lemma {:induction false} ProcessedSnoc(size: nat, events: seq<Event>, e: Event, i: nat, w: nat, h: Id, keep: bool)
    requires i < |events|
    ensures Processed(size, events + [e], i, w, h, keep) <==> Processed(size, events, i, w, h, keep)
  {
    AtSnoc(size, events, e, i);
    assert (events + [e])[i] == events[i];
  }

  lemma {:induction false} ProcessedLast(size: nat, events: seq<Event>, e: Event, w: nat, h: Id, keep: bool)
    requires Run(Started(size), events).Some?
    ensures var s := Run(Started(size), events).value;
            Processed(size, events + [e], |events|, w, h, keep)
            <==> (Moves(e, w) && e.keep == keep && w < |s.workers| && s.workers[w] == Working(h))
  {
    assert (events + [e])[..|events|] == events && (events + [e])[|events|] == e;
  }

  lemma {:induction false} ClosePendingSnoc(size: nat, events: seq<Event>, e: Event, w: nat, h: Id)
    requires Run(Started(size), events).Some?
    ensures var s := Run(Started(size), events).value;
            ClosePending(size, events + [e], w, h)
            <==> if Moves(e, w) then !e.keep && w < |s.workers| && s.workers[w] == Working(h)
                 else ClosePending(size, events, w, h)
  {
    var t := events + [e];
    ProcessedLast(size, events, e, w, h, false);
    assert t[|events|] == e && forall j :: 0 <= j < |events| ==> t[j] == events[j];
    if ClosePending(size, t, w, h) {
      var i :| 0 <= i < |t| && Processed(size, t, i, w, h, false) && forall j :: i < j < |t| ==> !Moves(t[j], w);
      if i < |events| {
        ProcessedSnoc(size, events, e, i, w, h, false);
        assert !Moves(t[|events|], w);
        assert forall j :: i < j < |events| ==> !Moves(events[j], w);
      }
    }
    if ClosePending(size, events, w, h) && !Moves(e, w) {
      var i :| 0 <= i < |events| && Processed(size, events, i, w, h, false)
        && forall j :: i < j < |events| ==> !Moves(events[j], w);
      ProcessedSnoc(size, events, e, i, w, h, false);
      assert forall j :: i < j < |t| ==> !Moves(t[j], w);
    }
  }

  lemma {:induction false} GivenUpSnoc(size: nat, events: seq<Event>, e: Event, h: Id)
    ensures GivenUp(size, events + [e], h)
       <==> GivenUp(size, events, h) || exists w :: Moves(e, w) && ClosePending(size, events, w, h)
  {
    var t := events + [e];
    assert t[|events|] == e && t[..|events|] == events;
    assert forall j :: 0 <= j < |events| ==> t[j] == events[j] && t[..j] == events[..j];
    if GivenUp(size, t, h) {
      var w, j :| 0 <= j < |t| && ClosedAt(size, t, w, h, j);
      if j < |events| {
        assert ClosedAt(size, events, w, h, j);
      }
    }
    if GivenUp(size, events, h) {
      var w, j :| 0 <= j < |events| && ClosedAt(size, events, w, h, j);
      assert ClosedAt(size, t, w, h, j);
    }
    if w :| Moves(e, w) && ClosePending(size, events, w, h) {
      assert ClosedAt(size, t, w, h, |events|);
    }
  }

  lemma {:induction false} ClosingStep(s: State, e: Event, w: nat, h: Id)
    requires Step(s, e).Some?
    ensures var t := Step(s, e).value;
            (w < |t.workers| && t.workers[w] == Closing(h))
            <==> if Moves(e, w) then !e.keep && w < |s.workers| && s.workers[w] == Working(h)
                 else w < |s.workers| && s.workers[w] == Closing(h)
  {
  }

  lemma {:induction false} DestroyedStep(s: State, e: Event, h: Id)
    requires Step(s, e).Some?
    ensures h in Step(s, e).value.destroyed
       <==> h in s.destroyed || (e.Svc? && e.w < |s.workers| && s.workers[e.w] == Closing(h))
  {
  }

  /** A worker stands before `handle_close` exactly when its last step was a `process` that gave up. */
  lemma {:induction false} WorkersExplained(size: nat, events: seq<Event>, w: nat, h: Id)
    requires Run(Started(size), events).Some?
    ensures var s := Run(Started(size), events).value;
            (w < |s.workers| && s.workers[w] == Closing(h)) <==> ClosePending(size, events, w, h)
    decreases |events|
  {
    if events != [] {
      var init, e := events[..|events| - 1], events[|events| - 1];
      assert events == init + [e];
      RunSnoc(Started(size), init, e);
      WorkersExplained(size, init, w, h);
      ClosePendingSnoc(size, init, e, w, h);
      ClosingStep(Run(Started(size), init).value, e, w, h);
    }
  }

  /** Over every run a handler is destroyed exactly when some `process` gave its connection up and that
      worker has taken its next step since. */
  lemma {:induction false} DestroyedExactly(size: nat, events: seq<Event>, h: Id)
    requires Run(Started(size), events).Some?
    ensures h in Run(Started(size), events).value.destroyed <==> GivenUp(size, events, h)
    decreases |events|
  {
    if events != [] {
      var init, e := events[..|events| - 1], events[|events| - 1];
      assert events == init + [e];
      RunSnoc(Started(size), init, e);
      DestroyedExactly(size, init, h);
      GivenUpSnoc(size, init, e, h);
      DestroyedStep(Run(Started(size), init).value, e, h);
      if e.Svc? {
        WorkersExplained(size, init, e.w, h);
        assert Moves(e, e.w);
      }
    }
  }

  // ----- registration -----

  /** At the i-th event the handler is registered: its connection was accepted, or `process` kept it. */
  ghost predicate RegisteredAt(size: nat, events: seq<Event>, i: nat, h: Id)
    requires i < |events|
  {
    events[i] == Accept(h) || (events[i].Svc? && Processed(size, events, i, events[i].w, h, true))
  }

  /** At the i-th event the reactor removes the handler. */
  ghost predicate RemovedAt(size: nat, events: seq<Event>, i: nat, h: Id)
    requires i < |events|
  {
    events[i] == Reactor(h) && At(size, events, i).hand.None?
  }

  ghost predicate Registered(size: nat, events: seq<Event>, h: Id) {
    exists i :: 0 <= i < |events| && RegisteredAt(size, events, i, h)
      && forall j :: i < j < |events| ==> !RemovedAt(size, events, j, h)
  }

  lemma {:induction false} RegistrationSnoc(size: nat, events: seq<Event>, e: Event, i: nat, h: Id)
    requires i < |events|
    ensures RegisteredAt(size, events + [e], i, h) <==> RegisteredAt(size, events, i, h)
    ensures RemovedAt(size, events + [e], i, h) <==> RemovedAt(size, events, i, h)
  {
    AtSnoc(size, events, e, i);
    assert (events + [e])[i] == events[i];
  }

  lemma {:induction false} RegistrationLast(size: nat, events: seq<Event>, e: Event, h: Id)
    requires Run(Started(size), events).Some?
    ensures var s := Run(Started(size), events).value;
            && (RegisteredAt(size, events + [e], |events|, h)
                <==> e == Accept(h) || (e.Svc? && e.keep && e.w < |s.workers| && s.workers[e.w] == Working(h)))
            && (RemovedAt(size, events + [e], |events|, h) <==> e == Reactor(h) && s.hand.None?)
  {
    assert (events + [e])[..|events|] == events && (events + [e])[|events|] == e;
  }

  lemma {:induction false} RegisteredSnoc(size: nat, events: seq<Event>, e: Event, h: Id)
    ensures var t, n := events + [e], |events|;
            Registered(size, t, h)
            <==> RegisteredAt(size, t, n, h) || (Registered(size, events, h) && !RemovedAt(size, t, n, h))
  {
    var t, n := events + [e], |events|;
    forall i | 0 <= i < n
      ensures RegisteredAt(size, t, i, h) <==> RegisteredAt(size, events, i, h)
      ensures RemovedAt(size, t, i, h) <==> RemovedAt(size, events, i, h)
    {
      RegistrationSnoc(size, events, e, i, h);
    }
    if Registered(size, t, h) {
      var i :| 0 <= i < |t| && RegisteredAt(size, t, i, h) && forall j :: i < j < |t| ==> !RemovedAt(size, t, j, h);
      if i < n {
        assert !RemovedAt(size, t, n, h);
        assert forall j :: i < j < n ==> !RemovedAt(size, events, j, h);
      }
    }
    if Registered(size, events, h) && !RemovedAt(size, t, n, h) {
      var i :| 0 <= i < n && RegisteredAt(size, events, i, h)
        && forall j :: i < j < n ==> !RemovedAt(size, events, j, h);
      assert forall j :: i < j < |t| ==> !RemovedAt(size, t, j, h);
    }
  }

  lemma {:induction false} RegisteredStep(s: State, e: Event, h: Id)
    requires Step(s, e).Some?
    ensures h in Step(s, e).value.registered
       <==> || e == Accept(h)
            || (e.Svc? && e.keep && e.w < |s.workers| && s.workers[e.w] == Working(h))
            || (h in s.registered && !(e == Reactor(h) && s.hand.None?))
  {
  }

  /** Over every run a handler is registered with the reactor exactly when it was accepted or kept by a
      `process`, and the reactor has not removed it since. */
  lemma {:induction false} RegisteredExactly(size: nat, events: seq<Event>, h: Id)
    requires Run(Started(size), events).Some?
    ensures h in Run(Started(size), events).value.registered <==> Registered(size, events, h)
    decreases |events|
  {
    if events != [] {
      var init, e := events[..|events| - 1], events[|events| - 1];
      assert events == init + [e];
      RunSnoc(Started(size), init, e);
      RegisteredExactly(size, init, h);
      RegisteredSnoc(size, init, e, h);
      RegistrationLast(size, init, e, h);
      RegisteredStep(Run(Started(size), init).value, e, h);
    }
  }

  // ----- runs that keep every connection -----

  /** No `process` of the run gave a connection up. */
  ghost predicate KeepsAll(size: nat, events: seq<Event>) {
    forall i, w, h :: 0 <= i < |events| && 0 <= w ==> !Processed(size, events, i, w, h, false)
  }

  lemma {:induction false} GivenUpProcessed(size: nat, events: seq<Event>, h: Id) returns (i: nat, w: nat)
    requires GivenUp(size, events, h)
    ensures i < |events| && Processed(size, events, i, w, h, false)
  {
    var v: nat, j: nat :| j < |events| && ClosedAt(size, events, v, h, j);
    var front := events[..j];
    i :| 0 <= i < |front| && Processed(size, front, i, v, h, false)
      && forall k :: i < k < |front| ==> !Moves(front[k], v);
    w := v;
    assert front[..i] == events[..i] && front[i] == events[i];
  }

  /** Then nothing is ever destroyed, and a handler just processed is registered again. */
  lemma {:induction false} KeptIsRegistered(size: nat, events: seq<Event>, w: nat, h: Id)
    requires Run(Started(size), events).Some? && KeepsAll(size, events)
    ensures Run(Started(size), events).value.destroyed == {}
    ensures events != [] && Processed(size, events, |events| - 1, w, h, true)
        ==> h in Run(Started(size), events).value.registered
  {
    forall g ensures g !in Run(Started(size), events).value.destroyed {
      DestroyedExactly(size, events, g);
      if GivenUp(size, events, g) {
        var i, v := GivenUpProcessed(size, events, g);
        assert false;
      }
    }
    RegisteredExactly(size, events, h);
    if events != [] && Processed(size, events, |events| - 1, w, h, true) {
      assert RegisteredAt(size, events, |events| - 1, h);
    }
  }

  /** The pool has the workers it was started with, all of them at the guard at first, for ever. */
  lemma {:induction false} WorkersStay(size: nat, events: seq<Event>)
    requires Run(Started(size), events).Some?
    ensures |Started(size).workers| == size && forall w :: 0 <= w < size ==> Started(size).workers[w] == Starting
    ensures |Run(Started(size), events).value.workers| == size
    decreases |events|
  {
    if events != [] {
      var init, e := events[..|events| - 1], events[|events| - 1];
      assert events == init + [e];
      RunSnoc(Started(size), init, e);
      WorkersStay(size, init);
    }
  }
}
