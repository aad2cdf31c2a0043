/** Packets and cache together: the cache runs are those that the packets of a session bring about. */
module ServerRuns {
  import opened Text
  import opened MailboxCache
  import opened Session
  import SessionProofs
  import MailboxRuns

  /** A packet with what its operation does to the cache if it is reached, or a change that others make to
      the database. */
  datatype Input = Client(packet: Packet, effect: Option<MailboxRuns.Event>) | Others(db: Db)

  /** SELECT and EXAMINE refill the cache exactly when they succeed, CLOSE always leaves its mark; the other
      operations do what their name says, or nothing when they fail on the way. */
  predicate Fits(verb: Verb, outcome: Outcome, effect: Option<MailboxRuns.Event>) {
    match verb
    case Select => if outcome.True? then effect.Some? && effect.value.Select? && !effect.value.examine else effect.None?
    case Examine => if outcome.True? then effect.Some? && effect.value.Select? && effect.value.examine else effect.None?
    case Close => effect == Some(MailboxRuns.Close)
    case Status => Does(effect, outcome, (e: MailboxRuns.Event) => e.Status?)
    case Fetch => Does(effect, outcome, (e: MailboxRuns.Event) => e.Fetch?)
    case Noop => Does(effect, outcome, (e: MailboxRuns.Event) => e.Noop?)
    case Store => Does(effect, outcome, (e: MailboxRuns.Event) => e.Store?)
    case Expunge => Does(effect, outcome, (e: MailboxRuns.Event) => e.Expunge?)
    case _ => effect.None?
  }

  predicate Does(effect: Option<MailboxRuns.Event>, outcome: Outcome, kind: MailboxRuns.Event -> bool) {
    if effect.Some? then kind(effect.value) else !outcome.True?
  }

  predicate Sensible(input: Input) {
    match input
    case Client(Command(verb, outcome), effect) => Fits(verb, outcome, effect)
    case Client(Uid(Some(verb), outcome), effect) => (verb.Fetch? || verb.Search?) && Fits(verb, outcome, effect)
    case Client(_, effect) => effect.None?
    case Others(_) => true
  }

  /** The packets of a run. */
  function Packets(inputs: seq<Input>): Trace {
    if inputs == [] then []
    else
      var before, last := Packets(inputs[..|inputs| - 1]), inputs[|inputs| - 1];
      if last.Client? then before + [last.packet] else before
  }

  /** What an input does to the cache, after the packets before it. */
  function Effect(trace: Trace, input: Input): seq<MailboxRuns.Event> {
    match input
    case Others(db) => [MailboxRuns.Elsewhere(db)]
    case Client(packet, effect) =>
      if Reached(Session.After(trace), packet).Some? && effect.Some? then [effect.value] else []
  }

  /** The events of a run: those that its packets reach. */
  function Events(inputs: seq<Input>): seq<MailboxRuns.Event> {
    if inputs == [] then []
    else
      var init := inputs[..|inputs| - 1];
      Events(init) + Effect(Packets(init), inputs[|inputs| - 1])
  }

  function World(db: Db, inputs: seq<Input>): MailboxRuns.World {
    MailboxRuns.After(db, Events(inputs))
  }

  // ----- the folder of the last successful SELECT or EXAMINE -----

  /** The input is a SELECT or EXAMINE that succeeds, after the packets before it. */
  ghost predicate SelectsAfter(trace: Trace, input: Input) {
    && input.Client? && input.effect.Some? && input.effect.value.Select?
    && (SessionProofs.Succeeds(input.packet, Select) || SessionProofs.Succeeds(input.packet, Examine))
    && SessionProofs.LoggedIn(trace) && SessionProofs.Undisturbed(trace)
  }

  /** By the packets alone. */
  ghost function LastSelected(inputs: seq<Input>): Option<string> {
    if inputs == [] then None
    else
      var init, last := inputs[..|inputs| - 1], inputs[|inputs| - 1];
      if SelectsAfter(Packets(init), last) then Some(last.effect.value.folder) else LastSelected(init)
  }

  /** Since the last SELECT or EXAMINE the flag query has returned a row for its folder, and no EXPUNGE has
      met the mark of an earlier CLOSE. */
  ghost predicate Steady(db: Db, inputs: seq<Input>) {
    if inputs == [] then true
    else
      var init, last, now := inputs[..|inputs| - 1], inputs[|inputs| - 1], World(db, inputs);
      && (LastSelected(inputs).Some? ==> LastSelected(inputs).value in now.db.described)
      && (SelectsAfter(Packets(init), last)
          || (Steady(db, init)
              && (Effect(Packets(init), last) == [MailboxRuns.Expunge] ==>
                    !MailboxRuns.ClosePending(Events(init)))))
  }

  lemma {:induction false} WorldStep(db: Db, inputs: seq<Input>, input: Input)
    ensures var effect := Effect(Packets(inputs), input);
            World(db, inputs + [input])
            == if effect == [] then World(db, inputs) else MailboxRuns.Step(World(db, inputs), effect[0])
  {
    var t, effect := inputs + [input], Effect(Packets(inputs), input);
    assert t[..|t| - 1] == inputs && t[|t| - 1] == input;
    if effect == [] {
      assert Events(inputs) + [] == Events(inputs);
    } else {
      MailboxRuns.AfterSnoc(db, Events(inputs), effect[0]);
      assert effect == [effect[0]];
    }
  }

  /** A reached SELECT or EXAMINE is one that the history allows, and no other input selects. */
  lemma {:induction false} SelectReached(trace: Trace, input: Input)
    requires Sensible(input)
    ensures SelectsAfter(trace, input) <==> (Effect(trace, input) != [] && Effect(trace, input)[0].Select?)
  {
    if input.Client? {
      SessionProofs.ReachesManager(trace, input.packet);
    }
  }

  lemma {:induction false} NameAfter(w: MailboxRuns.World, e: MailboxRuns.Event, folder: string)
    requires folder in MailboxRuns.Step(w, e).db.described
    requires if e.Select? then e.folder == folder else w.cache.name == folder && (e.Expunge? ==> !w.cache.closeExpunge)
    ensures MailboxRuns.Step(w, e).cache.name == folder
  {
  }

  /** If the run is steady, the manager works on the folder selected last. */
  ghost predicate Named(db: Db, inputs: seq<Input>) {
    Steady(db, inputs) && LastSelected(inputs).Some? ==> World(db, inputs).cache.name == LastSelected(inputs).value
  }

  lemma {:induction false} NameStep(db: Db, inputs: seq<Input>, init: seq<Input>, last: Input)
    requires inputs == init + [last] && Sensible(last) && Named(db, init)
    ensures Named(db, inputs)
  {
    var w, effect := World(db, init), Effect(Packets(init), last);
    assert inputs[..|inputs| - 1] == init && inputs[|inputs| - 1] == last;
    WorldStep(db, init, last);
    SelectReached(Packets(init), last);
    MailboxRuns.PendingCloseExactly(db, Events(init));
    if Steady(db, inputs) && LastSelected(inputs).Some? && effect != [] {
      assert effect == [effect[0]];
      NameAfter(w, effect[0], LastSelected(inputs).value);
    }
  }

  lemma {:induction false} NamedAlways(db: Db, inputs: seq<Input>)
    requires forall i :: 0 <= i < |inputs| ==> Sensible(inputs[i])
    ensures Named(db, inputs)
  {
    if inputs != [] {
      var init, last := inputs[..|inputs| - 1], inputs[|inputs| - 1];
      NamedAlways(db, init);
      NameStep(db, inputs, init, last);
    }
  }

  /** In every steady run the manager works on the folder of the last SELECT or EXAMINE that succeeded. */
  lemma {:induction false} NameIsLastSelected(db: Db, inputs: seq<Input>)
    requires (forall i :: 0 <= i < |inputs| ==> Sensible(inputs[i])) && Steady(db, inputs)
    ensures LastSelected(inputs).Some? ==> World(db, inputs).cache.name == LastSelected(inputs).value
  {
    NamedAlways(db, inputs);
  }

  // ----- what a FETCH sees -----

  lemma {:induction false} SelectedNamed(inputs: seq<Input>)
    requires forall i :: 0 <= i < |inputs| ==> Sensible(inputs[i])
    requires SessionProofs.SelectedSince(Packets(inputs)) && SessionProofs.Undisturbed(Packets(inputs))
    ensures LastSelected(inputs).Some?
  {
    var init, last := inputs[..|inputs| - 1], inputs[|inputs| - 1];
    if last.Client? {
      SessionProofs.SelectedSinceSnoc(Packets(init), last.packet);
      SessionProofs.UndisturbedSnoc(Packets(init), last.packet);
    }
    if !SelectsAfter(Packets(init), last) {
      SelectedNamed(init);
    }
  }

  /** A FETCH that reaches the manager, in any run of packets and changes by others, works on the folder of
      the last SELECT or EXAMINE that succeeded in the packet history, and in a steady run expands over that
      folder's current listing. */
  lemma {:induction false} FetchSeesLastSelected(db: Db, inputs: seq<Input>, packet: Packet, uid: bool)
    requires forall i :: 0 <= i < |inputs| ==> Sensible(inputs[i])
    requires Reached(Session.After(Packets(inputs)), packet) == Some(Fetch)
    ensures LastSelected(inputs).Some?
    ensures Steady(db, inputs) ==>
      MailboxRuns.Step(World(db, inputs), MailboxRuns.Fetch(uid)).cache.rows
        == Rows(World(db, inputs).db, LastSelected(inputs).value)
  {
    SessionProofs.ReachesManager(Packets(inputs), packet);
    SelectedNamed(inputs);
    if Steady(db, inputs) {
      NameIsLastSelected(db, inputs);
    }
  }
}
