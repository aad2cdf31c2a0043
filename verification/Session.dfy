/** The session state machine of one connection: which commands reach the mailbox manager, what they do
    to the connection state, and what is replied. */
module Session {
  import opened Text

  datatype Flag = Authenticated | Selected

  datatype Verb =
    | Login | Logout | Capability | Noop | Check | Starttls
    | Create | Delete | Rename | Subscribe | Unsubscribe | List | Lsub | Status | Append
    | Select | Examine | Close | Expunge | Search | Fetch | Store | Copy

  /** What the manager does when it is asked. It does not throw for LOGIN, LOGOUT and CAPABILITY. */
  datatype Outcome = True | False | Throw

  /** A packet as the parser leaves it. `Uid` has no inner command unless it is FETCH or SEARCH;
      `Blank` is a packet of two characters, `Interrupt` one with ctrl-c or ctrl-z in it. */
  datatype Packet =
    | Command(verb: Verb, outcome: Outcome)
    | Uid(inner: Option<Verb>, outcome: Outcome)
    | Malformed
    | Blank
    | Interrupt

  /** A tagged response: OK, NO, or the NO that reports a packet error. */
  datatype Reply = Ok | No | Refused

  datatype State = State(flags: set<Flag>, diverted: bool, closed: bool)

  const FRESH := State({}, false, false)

  predicate WellFormed(p: Packet) {
    p.Uid? && p.inner.Some? ==> p.inner.value.Fetch? || p.inner.value.Search?
  }

  predicate Open(s: State) {
    !s.diverted && !s.closed
  }

  /** The guard in front of each command. */
  predicate Admits(flags: set<Flag>, verb: Verb) {
    match verb
    case Login => Authenticated !in flags
    case Logout => true
    case Capability => true
    case Status => true
    case Append => true
    case Check => false
    case Starttls => false
    case Noop => Authenticated in flags && Selected in flags
    case Close => Authenticated in flags && Selected in flags
    case Expunge => Authenticated in flags && Selected in flags
    case Fetch => Authenticated in flags && Selected in flags
    case Store => Authenticated in flags && Selected in flags
    case Copy => Authenticated in flags && Selected in flags
    case _ => Authenticated in flags
  }

  /** The manager operation that a packet reaches. */
  function Reached(s: State, p: Packet): Option<Verb> {
    if !Open(s) then None
    else match p
      case Command(verb, _) => if Admits(s.flags, verb) then Some(verb) else None
      case Uid(Some(verb), _) => if Admits(s.flags, verb) then Some(verb) else None
      case _ => None
  }

  function FlagsAfter(flags: set<Flag>, verb: Verb, outcome: Outcome): set<Flag> {
    if !Admits(flags, verb) then flags
    else match verb
      case Login => if outcome.True? then flags + {Authenticated} else flags
      case Select => if outcome.True? then flags + {Selected} else flags
      case Examine => if outcome.True? then flags + {Selected} else flags
      case Close => if outcome.Throw? then flags else flags - {Selected}
      case _ => flags
  }

  function Next(s: State, p: Packet): State {
    if p.Interrupt? && !s.closed then s.(closed := true)
    else if !Open(s) || !p.Command? then s
    else s.(flags := FlagsAfter(s.flags, p.verb, p.outcome),
            diverted := p.verb.Append?,
            closed := p.verb.Logout?)
  }

  function Answer(outcome: Outcome): seq<Reply> {
    if outcome.True? then [Ok] else [No]
  }

  function CommandReplies(flags: set<Flag>, verb: Verb, outcome: Outcome): seq<Reply> {
    if verb.Check? || verb.Starttls? then []
    else if verb.Noop? then (if Admits(flags, verb) && !outcome.Throw? then [Ok] else [])
    else if !Admits(flags, verb) then [Refused]
    else if verb.Capability? || verb.Append? then
      (if outcome.True? then (if verb.Append? then [] else [Ok])
       else if verb.Append? then [No] else [])
    else Answer(outcome)
  }

  function Replies(s: State, p: Packet): seq<Reply> {
    if !Open(s) then []
    else match p
      case Command(verb, outcome) => CommandReplies(s.flags, verb, outcome)
      case Uid(None, _) => [Ok]
      case Uid(Some(verb), outcome) =>
        if !Admits(s.flags, verb) then [Ok, Refused]
        else if outcome.True? then [Ok]
        else [No, Ok]
      case Malformed => [Refused]
      case _ => []
  }

  // ----- runs -----

  type Trace = seq<Packet>

  function After(trace: Trace): State {
    if trace == [] then FRESH else Next(After(trace[..|trace| - 1]), trace[|trace| - 1])
  }

  /** All tagged responses of a run. */
  function Sent(trace: Trace): seq<Reply> {
    if trace == [] then []
    else
      var init := trace[..|trace| - 1];
      Sent(init) + Replies(After(init), trace[|trace| - 1])
  }

  /** All operations that a run asks of the manager. */
  function Called(trace: Trace): seq<Verb> {
    if trace == [] then []
    else
      var init := trace[..|trace| - 1];
      Called(init) + Calls(After(init), trace[|trace| - 1])
  }

  function Calls(s: State, p: Packet): seq<Verb> {
    match Reached(s, p)
    case Some(verb) => [verb]
    case None => []
  }

  /** A closed connection does nothing more. */
  lemma {:induction false} ClosedStays(trace: Trace, n: nat)
    requires n <= |trace| && After(trace[..n]).closed
    ensures After(trace) == After(trace[..n]) && Sent(trace) == Sent(trace[..n]) && Called(trace) == Called(trace[..n])
    decreases |trace|
  {
    if n == |trace| {
      assert trace[..n] == trace;
    } else {
      var init := trace[..|trace| - 1];
      assert init[..n] == trace[..n];
      ClosedStays(init, n);
    }
  }

  // ----- the handler -----

  /** The command last dispatched; `Failed` after a packet error was reported. */
  datatype Current = Nothing | Running(verb: Verb) | Failed

  class Handler {
    var currentState: set<Flag>
    var command: Current
    var error: bool
    var uid: bool
    var closed: bool
    var replies: seq<Reply>
    ghost var calls: seq<Verb>

    ghost function Now(): State
      reads this
    {
      State(currentState, command == Running(Append), closed)
    }

    constructor ()
      ensures Now() == FRESH && replies == [] && calls == []
    {
      currentState, command, error, uid, closed := {}, Nothing, false, false, false;
      replies, calls := [], [];
    }

    /** What dispatching a command does; `silent` suppresses the OK of a FETCH or SEARCH under UID. */
    ghost predicate Dispatched(
        before: set<Flag>, calledBefore: seq<Verb>, repliedBefore: seq<Reply>,
        verb: Verb, outcome: Outcome, silent: bool)
      reads this
    {
      && currentState == FlagsAfter(before, verb, outcome)
      && calls == calledBefore + (if Admits(before, verb) then [verb] else [])
      && (error <==> CommandReplies(before, verb, outcome) == [Refused])
      && replies == repliedBefore +
           (if error || (silent && outcome.True?) then [] else CommandReplies(before, verb, outcome))
    }

    method Call(verb: Verb)
      modifies this`calls
      ensures calls == old(calls) + [verb]
    {
      calls := calls + [verb];
    }

    method Reply(outcome: Outcome)
      modifies this`replies
      ensures replies == old(replies) + Answer(outcome)
    {
      replies := replies + if outcome.True? then [Ok] else [No];
    }

    method OnLogin(outcome: Outcome)
      requires !error
      modifies this
      ensures Dispatched(old(currentState), old(calls), old(replies), Login, outcome, false)
      ensures command == Running(Login) && closed == old(closed)
    {
      command := Running(Login);
      if Authenticated in currentState {
        error := true;
        return;
      }
      Call(Login);
      if outcome.True? {
        currentState := currentState + {Authenticated};
      }
      Reply(outcome);
    }

    method OnLogout(outcome: Outcome)
      requires !error
      modifies this
      ensures Dispatched(old(currentState), old(calls), old(replies), Logout, outcome, false)
      ensures command == Running(Logout) && closed == old(closed)
    {
      command := Running(Logout);
      Call(Logout);
      Reply(outcome);
    }

    method OnCapability(outcome: Outcome)
      requires !error
      modifies this
      ensures Dispatched(old(currentState), old(calls), old(replies), Capability, outcome, false)
      ensures command == Running(Capability) && closed == old(closed)
    {
      command := Running(Capability);
      Call(Capability);
      if outcome.True? {
        Reply(outcome);
      }
    }

    method OnNoop(outcome: Outcome)
      requires !error
      modifies this
      ensures Dispatched(old(currentState), old(calls), old(replies), Noop, outcome, false)
      ensures command == Running(Noop) && closed == old(closed)
    {
      command := Running(Noop);
      if Authenticated !in currentState || Selected !in currentState {
        return;
      }
      Call(Noop);
      if !outcome.Throw? {
        Reply(True);
      }
    }

    method OnAppend(outcome: Outcome)
      requires !error
      modifies this
      ensures Dispatched(old(currentState), old(calls), old(replies), Append, outcome, false)
      ensures command == Running(Append) && closed == old(closed)
    {
      command := Running(Append);
      Call(Append);
      if !outcome.True? {
        Reply(outcome);
      }
    }

    /** SELECT and EXAMINE. */
    method OnSelect(verb: Verb, outcome: Outcome)
      requires !error && (verb.Select? || verb.Examine?)
      modifies this
      ensures Dispatched(old(currentState), old(calls), old(replies), verb, outcome, false)
      ensures command == Running(verb) && closed == old(closed)
    {
      command := Running(verb);
      if Authenticated !in currentState {
        error := true;
        return;
      }
      Call(verb);
      Reply(outcome);
      if outcome.True? {
        currentState := currentState + {Selected};
      }
    }

    method OnClose(outcome: Outcome)
      requires !error
      modifies this
      ensures Dispatched(old(currentState), old(calls), old(replies), Close, outcome, false)
      ensures command == Running(Close) && closed == old(closed)
    {
      command := Running(Close);
      if Authenticated !in currentState || Selected !in currentState {
        error := true;
        return;
      }
      Call(Close);
      Reply(outcome);
      if !outcome.Throw? {
        currentState := currentState - {Selected};
      }
    }

    /** CREATE, DELETE, SUBSCRIBE and UNSUBSCRIBE: the guard comes before the command is recorded. */
    method OnHierarchy(verb: Verb, outcome: Outcome)
      requires !error && (verb.Create? || verb.Delete? || verb.Subscribe? || verb.Unsubscribe?)
      modifies this
      ensures Dispatched(old(currentState), old(calls), old(replies), verb, outcome, false)
      ensures command == (if Authenticated in old(currentState) then Running(verb) else old(command))
      ensures closed == old(closed)
    {
      if Authenticated !in currentState {
        error := true;
        return;
      }
      command := Running(verb);
      Call(verb);
      Reply(outcome);
    }

    /** RENAME, LIST, LSUB and SEARCH need a login, FETCH, STORE, COPY and EXPUNGE a mailbox as well,
        STATUS nothing. The OK of FETCH and SEARCH is left to UID when that called them. */
    method OnMailbox(verb: Verb, outcome: Outcome)
      requires !error
      requires verb.Rename? || verb.List? || verb.Lsub? || verb.Search? || verb.Fetch? || verb.Store?
        || verb.Copy? || verb.Expunge? || verb.Status?
      modifies this
      ensures Dispatched(old(currentState), old(calls), old(replies), verb, outcome,
                         old(uid) && (verb.Fetch? || verb.Search?))
      ensures command == Running(verb) && closed == old(closed)
    {
      command := Running(verb);
      var needsMailbox := verb.Fetch? || verb.Store? || verb.Copy? || verb.Expunge?;
      if !verb.Status? && (Authenticated !in currentState || (needsMailbox && Selected !in currentState)) {
        error := true;
        return;
      }
      Call(verb);
      if outcome.True? && uid && (verb.Fetch? || verb.Search?) {
        return;
      }
      Reply(outcome);
    }

    /** The OK comes whatever became of the inner command. */
    method OnUid(inner: Option<Verb>, outcome: Outcome)
      requires !error && WellFormed(Uid(inner, outcome)) && command != Running(Append) && command != Running(Logout)
      modifies this
      ensures currentState == old(currentState) && closed == old(closed)
      ensures command != Running(Append) && command != Running(Logout)
      ensures calls == old(calls) +
        (if inner.Some? && Admits(old(currentState), inner.value) then [inner.value] else [])
      ensures error <==> inner.Some? && !Admits(old(currentState), inner.value)
      ensures replies == old(replies) +
        (if inner.Some? && Admits(old(currentState), inner.value) && !outcome.True? then [No, Ok] else [Ok])
    {
      uid := true;
      if inner.Some? {
        OnMailbox(inner.value, outcome);
      }
      Reply(True);
    }

    /** The command map. */
    method Dispatch(verb: Verb, outcome: Outcome)
      requires !error && !uid && command != Running(Append) && command != Running(Logout)
      modifies this
      ensures Dispatched(old(currentState), old(calls), old(replies), verb, outcome, false)
      ensures closed == old(closed)
      ensures command == Running(Append) <==> verb.Append?
      ensures command == Running(Logout) <==> verb.Logout?
    {
      match verb
      case Login => OnLogin(outcome);
      case Logout => OnLogout(outcome);
      case Capability => OnCapability(outcome);
      case Noop => OnNoop(outcome);
      case Check =>
      case Starttls =>
      case Append => OnAppend(outcome);
      case Select => OnSelect(verb, outcome);
      case Examine => OnSelect(verb, outcome);
      case Close => OnClose(outcome);
      case Create => OnHierarchy(verb, outcome);
      case Delete => OnHierarchy(verb, outcome);
      case Subscribe => OnHierarchy(verb, outcome);
      case Unsubscribe => OnHierarchy(verb, outcome);
      case _ => OnMailbox(verb, outcome);
    }

    method Perform(p: Packet)
      requires !error && WellFormed(p) && Open(Now()) && command != Running(Logout) && !p.Interrupt?
      modifies this
      ensures closed == old(closed) && currentState == Next(old(Now()), p).flags
      ensures calls == old(calls) + Calls(old(Now()), p)
      ensures command == Running(Append) <==> p.Command? && p.verb.Append?
      ensures command == Running(Logout) <==> p.Command? && p.verb.Logout?
      ensures p.Blank? || replies + (if error then [Refused] else []) == old(replies) + Replies(old(Now()), p)
      ensures p.Blank? ==> replies == old(replies)
      ensures p.Command? && (p.verb.Logout? || p.verb.Append?) ==> !error
    {
      if p.Malformed? || p.Blank? {
        error := true;
        return;
      }
      uid := false;
      if p.Uid? {
        OnUid(p.inner, p.outcome);
      } else {
        Dispatch(p.verb, p.outcome);
      }
    }

    /** One packet: the new state, the manager's call and the replies are those of the specification. */
    method Process(p: Packet)
      requires WellFormed(p) && !closed && command != Running(Logout)
      modifies this
      ensures Now() == Next(old(Now()), p)
      ensures calls == old(calls) + Calls(old(Now()), p)
      ensures replies == old(replies) + Replies(old(Now()), p)
      ensures closed || command != Running(Logout)
    {
      error := false;
      if p.Interrupt? {
        closed := true;
        return;
      }
      if command == Running(Append) {
        return;
      }
      Perform(p);
      if p.Blank? {
        return;
      }
      if command == Running(Logout) {
        closed := true;
        return;
      }
      if error {
        command := Failed;
        replies := replies + [Refused];
      }
    }

    /** Serves packets until the connection closes: state, calls and responses are those of the run. */
    method Serve(trace: Trace)
      requires forall i :: 0 <= i < |trace| ==> WellFormed(trace[i])
      requires Now() == FRESH && replies == [] && calls == [] && command != Running(Logout)
      modifies this
      ensures Now() == After(trace) && replies == Sent(trace) && calls == Called(trace)
    {
      var i := 0;
      while i < |trace| && !closed
        invariant 0 <= i <= |trace| && (closed || command != Running(Logout))
        invariant Now() == After(trace[..i]) && replies == Sent(trace[..i]) && calls == Called(trace[..i])
      {
        var next := trace[..i + 1];
        assert next[..|next| - 1] == trace[..i] && next[|next| - 1] == trace[i];
        Process(trace[i]);
        i := i + 1;
      }
      if closed {
        ClosedStays(trace, i);
      }
      assert i == |trace| ==> trace[..i] == trace;
    }
  }
}
