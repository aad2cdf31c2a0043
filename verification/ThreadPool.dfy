/** Connections handed from the reactor thread to a pool of workers, and the pool's shutdown by one
    sentinel per worker, as a system of atomic steps that interleave freely. */
module ThreadPool {
  import opened Text

  type Id = nat

  datatype Job = Handler(h: Id) | Sentinel

  /** Where a worker thread stands in `svc`: before the counter guard, at `getq`, inside `process`,
      before `handle_close`, releasing the block, returning after a sentinel, gone. */
  datatype Worker = Starting | Idle | Working(h: Id) | Closing(h: Id) | Finishing | Leaving | Gone

  /** Where `stop` stands: not called, enqueueing the sentinels still owed, polling the counter, done. */
  datatype Stop = NotCalled | Pushing(owed: int) | Polling | Returned

  /** `hand` is the handler that the reactor thread has removed and not yet enqueued. `late` counts the
      workers that entered after `stop` read the counter; `entered` and `taken` record the queue's traffic. */
  datatype State = State(
    accepted: set<Id>, registered: set<Id>, hand: Option<Id>, queue: seq<Job>, workers: seq<Worker>,
    destroyed: set<Id>, active: int, stop: Stop, late: nat, entered: seq<Job>, taken: seq<Job>)

  function Started(size: nat): State {
    State({}, {}, None, [], seq(size, _ => Starting), {}, 0, NotCalled, 0, [], [])
  }

  /** One step of the acceptor, of the reactor thread, of a worker (whose `process` keeps the connection
      or gives it up) or of the thread in `stop`. */
  datatype Event = Accept(h: Id) | Reactor(h: Id) | Svc(w: nat, keep: bool) | Stopper

  function Put(s: State, job: Job): State {
    s.(queue := s.queue + [job], entered := s.entered + [job])
  }

  function AcceptStep(s: State, h: Id): Option<State> {
    if h in s.accepted then None
    else Some(s.(accepted := s.accepted + {h}, registered := s.registered + {h}))
  }

  /** `handle_input` on the reactor thread: remove the handler, then enqueue it. */
  function ReactorStep(s: State, h: Id): Option<State> {
    match s.hand
    case Some(g) => Some(Put(s, Handler(g)).(hand := None))
    case None =>
      if h !in s.registered then None
      else Some(s.(registered := s.registered - {h}, hand := Some(h)))
  }

  function Moved(s: State, w: nat, next: Worker): State
    requires w < |s.workers|
  {
    s.(workers := s.workers[w := next])
  }

  function SvcStep(s: State, w: nat, keep: bool): Option<State> {
    if w >= |s.workers| then None
    else match s.workers[w]
      case Starting =>
        Some(Moved(s, w, Idle).(active := s.active + 1, late := if s.stop.NotCalled? then s.late else s.late + 1))
      case Idle =>
        if s.queue == [] then None
        else
          var next := if s.queue[0].Handler? then Working(s.queue[0].h) else Leaving;
          Some(Moved(s, w, next).(queue := s.queue[1..], taken := s.taken + [s.queue[0]]))
      case Working(h) =>
        if keep then Some(Moved(s, w, Finishing).(registered := s.registered + {h}))
        else Some(Moved(s, w, Closing(h)))
      case Closing(h) => Some(Moved(s, w, Finishing).(destroyed := s.destroyed + {h}))
      case Finishing => Some(Moved(s, w, Idle))
      case Leaving => Some(Moved(s, w, Gone).(active := s.active - 1))
      case Gone => None
  }

  function StopStep(s: State): Option<State> {
    match s.stop
    case NotCalled => Some(s.(stop := Pushing(s.active)))
    case Pushing(owed) =>
      if owed == 0 then Some(s.(stop := Polling))
      else Some(Put(s, Sentinel).(stop := Pushing(owed - 1)))
    case Polling => if s.active == 0 then Some(s.(stop := Returned)) else None
    case Returned => None
  }

  function Step(s: State, e: Event): Option<State> {
    match e
    case Accept(h) => AcceptStep(s, h)
    case Reactor(h) => ReactorStep(s, h)
    case Svc(w, keep) => SvcStep(s, w, keep)
    case Stopper => StopStep(s)
  }

  /** The state after a sequence of steps, if each of them is possible when its turn comes. */
  function Run(s: State, events: seq<Event>): Option<State>
    decreases |events|
  {
    if events == [] then Some(s)
    else match Step(s, events[0])
      case None => None
      case Some(t) => Run(t, events[1..])
  }

  // ----- the same steps on the shared fields -----

  class Pool {
    var accepted: set<Id>
    var registered: set<Id>
    var hand: Option<Id>
    var queue: seq<Job>
    var workers: seq<Worker>
    var destroyed: set<Id>
    var active: int
    var stop: Stop
    ghost var late: nat
    ghost var entered: seq<Job>
    ghost var taken: seq<Job>

    ghost function Now(): State
      reads this
    {
      State(
        accepted, registered, hand, queue, workers, destroyed, active, stop, late, entered, taken)
    }

    constructor (size: nat)
      ensures Now() == Started(size)
    {
      accepted, registered, hand, queue := {}, {}, None, [];
      workers := seq(size, _ => Starting);
      destroyed, active, stop := {}, 0, NotCalled;
      late, entered, taken := 0, [], [];
    }

    method Enqueue(job: Job)
      modifies this
      ensures Now() == Put(old(Now()), job)
    {
      queue := queue + [job];
      entered := entered + [job];
    }

    /** Opening a connection registers its handler. */
    method Open(h: Id)
      requires AcceptStep(Now(), h).Some?
      modifies this
      ensures Now() == AcceptStep(old(Now()), h).value
    {
      accepted := accepted + {h};
      registered := registered + {h};
    }

    method HandleInputOnReactor(h: Id)
      requires ReactorStep(Now(), h).Some?
      modifies this
      ensures Now() == ReactorStep(old(Now()), h).value
    {
      if hand.Some? {
        Enqueue(Handler(hand.value));
        hand := None;
      } else {
        registered := registered - {h};
        hand := Some(h);
      }
    }

    method GetQ() returns (job: Job)
      requires queue != []
      modifies this
      ensures job == old(queue)[0]
      ensures Now() == old(Now()).(queue := old(queue)[1..], taken := old(taken) + [job])
    {
      job := queue[0];
      taken := taken + [job];
      queue := queue[1..];
    }

    method AdvanceSvc(w: nat, keep: bool)
      requires SvcStep(Now(), w, keep).Some?
      modifies this
      ensures Now() == SvcStep(old(Now()), w, keep).value
    {
      var next := Idle;
      match workers[w] {
        case Starting =>
          active := active + 1;
          if !stop.NotCalled? {
            late := late + 1;
          }
        case Idle =>
          var job := GetQ();
          next := if job.Handler? then Working(job.h) else Leaving;
        case Working(h) =>
          if keep {
            registered := registered + {h};
            next := Finishing;
          } else {
            next := Closing(h);
          }
        case Closing(h) =>
          destroyed := destroyed + {h};
          next := Finishing;
        case Finishing =>
        case Leaving =>
          active := active - 1;
          next := Gone;
      }
      workers := workers[w := next];
    }

    method AdvanceStop()
      requires StopStep(Now()).Some?
      modifies this
      ensures Now() == StopStep(old(Now())).value
    {
      match stop
      case NotCalled =>
        stop := Pushing(active);
      case Pushing(owed) =>
        if owed == 0 {
          stop := Polling;
        } else {
          Enqueue(Sentinel);
          stop := Pushing(owed - 1);
        }
      case Polling =>
        stop := Returned;
    }

    /** Any interleaving of the threads, performed on the fields, is a run of the step system. */
    method Perform(events: seq<Event>)
      requires Run(Now(), events).Some?
      modifies this
      ensures Now() == Run(old(Now()), events).value
    {
      for i := 0 to |events|
        invariant Run(Now(), events[i..]) == Run(old(Now()), events)
      {
        assert events[i..][1..] == events[i + 1..];
        match events[i]
        case Accept(h) => Open(h);
        case Reactor(h) => HandleInputOnReactor(h);
        case Svc(w, keep) => AdvanceSvc(w, keep);
        case Stopper => AdvanceStop();
      }
    }
  }
}
