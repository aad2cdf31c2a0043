/** Whole-run properties of a session, stated over the packets received so far and not over the state. */
module SessionProofs {
  import opened Text
  import opened Session

  // ----- history -----

  /** No LOGOUT, APPEND or interrupt so far. */
  ghost predicate Undisturbed(trace: Trace) {
    forall i :: 0 <= i < |trace| ==>
      !trace[i].Interrupt? && (trace[i].Command? ==> !trace[i].verb.Logout? && !trace[i].verb.Append?)
  }

  /** A LOGIN succeeded. */
  ghost predicate LoggedIn(trace: Trace) {
    exists i :: 0 <= i < |trace| && Succeeds(trace[i], Login)
  }

  predicate Succeeds(p: Packet, verb: Verb) {
    p == Command(verb, True)
  }

  /** A CLOSE that, when it reaches the manager, comes back without an exception. */
  predicate Closes(p: Packet) {
    p.Command? && p.verb.Close? && !p.outcome.Throw?
  }

  /** A SELECT or EXAMINE succeeded after a LOGIN had, and no CLOSE has come back since. */
  ghost predicate SelectedSince(trace: Trace) {
    exists i :: 0 <= i < |trace| && SelectsAt(trace, i)
      && forall j :: i < j < |trace| ==> !Closes(trace[j])
  }

  ghost predicate SelectsAt(trace: Trace, i: nat)
    requires i < |trace|
  {
    (Succeeds(trace[i], Select) || Succeeds(trace[i], Examine)) && LoggedIn(trace[..i])
  }

  lemma LoggedInSnoc(trace: Trace, p: Packet)
    ensures LoggedIn(trace + [p]) <==> LoggedIn(trace) || Succeeds(p, Login)
  {
    var t := trace + [p];
    assert t[|trace|] == p;
    if LoggedIn(trace) {
      var i :| 0 <= i < |trace| && Succeeds(trace[i], Login);
      assert t[i] == trace[i];
    }
    if LoggedIn(t) {
      var i :| 0 <= i < |t| && Succeeds(t[i], Login);
      assert i < |trace| ==> trace[i] == t[i];
    }
  }

  lemma SelectedSinceSnoc(trace: Trace, p: Packet)
    ensures SelectedSince(trace + [p])
       <==> ((Succeeds(p, Select) || Succeeds(p, Examine)) && LoggedIn(trace)) || (SelectedSince(trace) && !Closes(p))
  {
    var t := trace + [p];
    assert t[..|trace|] == trace && t[|trace|] == p;
    assert forall i :: 0 <= i < |trace| ==> t[i] == trace[i] && t[..i] == trace[..i];
    if SelectedSince(trace) && !Closes(p) {
      var i :| 0 <= i < |trace| && SelectsAt(trace, i) && forall j :: i < j < |trace| ==> !Closes(trace[j]);
      assert SelectsAt(t, i);
    }
    if (Succeeds(p, Select) || Succeeds(p, Examine)) && LoggedIn(trace) {
      assert SelectsAt(t, |trace|);
    }
    if SelectedSince(t) {
      var i :| 0 <= i < |t| && SelectsAt(t, i) && forall j :: i < j < |t| ==> !Closes(t[j]);
      if i < |trace| {
        assert SelectsAt(trace, i);
        assert forall j :: i < j < |trace| ==> trace[j] == t[j];
      }
    }
  }

  lemma UndisturbedSnoc(trace: Trace, p: Packet)
    ensures Undisturbed(trace + [p])
       <==> Undisturbed(trace) && !p.Interrupt? && (p.Command? ==> !p.verb.Logout? && !p.verb.Append?)
  {
    var t := trace + [p];
    assert t[|trace|] == p;
    assert forall i :: 0 <= i < |trace| ==> t[i] == trace[i];
  }

  /** The state in terms of the history alone. */
  ghost predicate Explained(trace: Trace) {
    var s := After(trace);
    && (Open(s) <==> Undisturbed(trace))
    && (Authenticated in s.flags ==> LoggedIn(trace))
    && (Selected in s.flags ==> Authenticated in s.flags)
    && (Open(s) ==> (Authenticated in s.flags <==> LoggedIn(trace)) && (Selected in s.flags <==> SelectedSince(trace)))
  }

  lemma ExplainedSnoc(trace: Trace, p: Packet)
    requires Explained(trace)
    ensures Explained(trace + [p])
  {
    var t := trace + [p];
    assert t[..|t| - 1] == trace && t[|t| - 1] == p;
    LoggedInSnoc(trace, p);
    SelectedSinceSnoc(trace, p);
    UndisturbedSnoc(trace, p);
    assert SelectedSince(trace) ==> LoggedIn(trace) by {
      if SelectedSince(trace) {
        SelectedNeedsLogin(trace);
      }
    }
  }

  lemma SelectedNeedsLogin(trace: Trace)
    requires SelectedSince(trace)
    ensures LoggedIn(trace)
  {
    var i :| 0 <= i < |trace| && SelectsAt(trace, i) && forall j :: i < j < |trace| ==> !Closes(trace[j]);
    var k :| 0 <= k < |trace[..i]| && Succeeds(trace[..i][k], Login);
    assert Succeeds(trace[k], Login);
  }

  lemma {:induction false} StateIsHistory(trace: Trace)
    ensures Explained(trace)
  {
    if trace != [] {
      var init := trace[..|trace| - 1];
      StateIsHistory(init);
      ExplainedSnoc(init, trace[|trace| - 1]);
      assert trace == init + [trace[|trace| - 1]];
    }
  }

  // ----- the theorems -----

  /** What the guard of a command asks of the history. */
  ghost predicate Allowed(trace: Trace, verb: Verb) {
    match verb
    case Login => !LoggedIn(trace)
    case Logout => true
    case Capability => true
    case Status => true
    case Append => true
    case Check => false
    case Starttls => false
    case Noop => SelectedSince(trace)
    case Close => SelectedSince(trace)
    case Expunge => SelectedSince(trace)
    case Fetch => SelectedSince(trace)
    case Store => SelectedSince(trace)
    case Copy => SelectedSince(trace)
    case _ => LoggedIn(trace)
  }

  /** The operation a packet asks for. */
  function Asked(p: Packet): Option<Verb> {
    match p
    case Command(verb, _) => Some(verb)
    case Uid(inner, _) => inner
    case _ => None
  }

  /** In every run a packet reaches the manager exactly when no LOGOUT, APPEND or interrupt came before it
      and the history allows what it asks for. For FETCH, STORE, COPY, EXPUNGE and CLOSE that is: a LOGIN
      succeeded, then a SELECT or EXAMINE did, and no CLOSE has come back since. */
  lemma {:induction false} ReachesManager(trace: Trace, p: Packet)
    ensures Reached(After(trace), p)
         == if Undisturbed(trace) && Asked(p).Some? && Allowed(trace, Asked(p).value) then Asked(p) else None
  {
    StateIsHistory(trace);
    if SelectedSince(trace) {
      SelectedNeedsLogin(trace);
    }
  }

  lemma {:induction false} SelectedImpliesAuthenticated(trace: Trace)
    ensures Selected in After(trace).flags ==> Authenticated in After(trace).flags
  {
    StateIsHistory(trace);
  }

  /** Being authenticated never reverts, not even when the connection ends. */
  lemma {:induction false} AuthenticatedStays(trace: Trace, more: Trace)
    requires Authenticated in After(trace).flags
    ensures Authenticated in After(trace + more).flags
  {
    if more == [] {
      assert trace + more == trace;
    } else {
      var init := more[..|more| - 1];
      AuthenticatedStays(trace, init);
      assert (trace + more)[..|trace + more| - 1] == trace + init;
    }
  }

  /** The selection changes in two ways only: an admitted SELECT or EXAMINE that succeeds sets it, an
      admitted CLOSE that comes back clears it. In particular a SELECT that fails leaves the old mailbox
      selected, where section 6.3.1 of RFC 3501 has it deselected. */
  lemma SelectionChanges(s: State, p: Packet)
    ensures Selected in Next(s, p).flags && Selected !in s.flags
       <==> Open(s) && Authenticated in s.flags && Selected !in s.flags
            && (Succeeds(p, Select) || Succeeds(p, Examine))
    ensures Selected !in Next(s, p).flags && Selected in s.flags
       <==> Open(s) && Authenticated in s.flags && Selected in s.flags && Closes(p)
  {
  }

  /** No SELECT or EXAMINE that succeeds and no CLOSE that comes back. */
  predicate LeavesSelection(p: Packet) {
    !Succeeds(p, Select) && !Succeeds(p, Examine) && !Closes(p)
  }

  /** Whatever else happens, failed SELECTs included, the selection lasts. */
  lemma {:induction false} SelectionLasts(trace: Trace, more: Trace)
    requires forall i :: 0 <= i < |more| ==> LeavesSelection(more[i])
    ensures Selected in After(trace + more).flags <==> Selected in After(trace).flags
  {
    if more == [] {
      assert trace + more == trace;
    } else {
      var init, t := more[..|more| - 1], trace + more;
      SelectionLasts(trace, init);
      assert t[..|t| - 1] == trace + init && t[|t| - 1] == more[|more| - 1];
      SelectionChanges(After(trace + init), more[|more| - 1]);
    }
  }

  predicate FailedSelect(p: Packet) {
    p.Command? && (p.verb.Select? || p.verb.Examine?) && !p.outcome.True?
  }

  /** Any number of SELECTs and EXAMINEs that fail leave the whole state as it was. */
  lemma {:induction false} FailedSelectKeeps(trace: Trace, more: Trace)
    requires forall i :: 0 <= i < |more| ==> FailedSelect(more[i])
    ensures After(trace + more) == After(trace)
  {
    if more == [] {
      assert trace + more == trace;
    } else {
      var init, t := more[..|more| - 1], trace + more;
      FailedSelectKeeps(trace, init);
      assert t[..|t| - 1] == trace + init && t[|t| - 1] == more[|more| - 1];
    }
  }

  /** One APPEND, refused or not, and the connection is deaf: every later packet up to an interrupt is
      added to the literal, none reaches the manager, none is answered, and not even LOGOUT ends it. */
  lemma {:induction false} DeafAfterAppend(trace: Trace, outcome: Outcome, more: Trace)
    requires Undisturbed(trace)
    requires forall i :: 0 <= i < |more| ==> !more[i].Interrupt?
    ensures var s := After(trace + [Command(Append, outcome)] + more);
            && s.diverted && !s.closed
            && forall p :: Reached(s, p) == None && Replies(s, p) == []
  {
    var t := trace + [Command(Append, outcome)];
    if more == [] {
      StateIsHistory(trace);
      assert t + more == t;
      assert t[..|t| - 1] == trace && t[|t| - 1] == Command(Append, outcome);
    } else {
      var init := more[..|more| - 1];
      DeafAfterAppend(trace, outcome, init);
      assert (t + more)[..|t + more| - 1] == t + init;
      assert (t + more)[|t + more| - 1] == more[|more| - 1];
    }
  }

  // ----- one tagged response per command -----

  /** By the history, a packet that gets no tagged response: CHECK and STARTTLS, a NOOP without a mailbox
      or with an exception, an accepted APPEND, a failed CAPABILITY, and what is no command. */
  ghost predicate Unanswered(trace: Trace, p: Packet) {
    match p
    case Blank => true
    case Interrupt => true
    case Command(verb, outcome) =>
      || verb.Check? || verb.Starttls?
      || (verb.Noop? && (!SelectedSince(trace) || outcome.Throw?))
      || (verb.Append? && outcome.True?)
      || (verb.Capability? && !outcome.True?)
    case _ => false
  }

  /** A UID command whose inner command the history forbids, or whose operation fails: the response of the
      inner command and UID's own OK. */
  ghost predicate AnsweredTwice(trace: Trace, p: Packet) {
    p.Uid? && p.inner.Some? && (!Allowed(trace, p.inner.value) || !p.outcome.True?)
  }

  /** Tagged responses to a packet that comes after `trace`. */
  ghost function Due(trace: Trace, p: Packet): nat {
    if !Undisturbed(trace) || Unanswered(trace, p) then 0
    else if AnsweredTwice(trace, p) then 2
    else 1
  }

  ghost function AllDue(trace: Trace): nat {
    if trace == [] then 0
    else
      var init := trace[..|trace| - 1];
      AllDue(init) + Due(init, trace[|trace| - 1])
  }

  lemma OneReplyEach(s: State, p: Packet)
    requires Open(s)
    ensures |Replies(s, p)| == 0
       <==> p.Blank? || p.Interrupt?
            || (p.Command? && (p.verb.Check? || p.verb.Starttls?))
            || (p.Command? && p.verb.Noop? && (Reached(s, p) == None || p.outcome.Throw?))
            || (p.Command? && p.verb.Append? && p.outcome.True?)
            || (p.Command? && p.verb.Capability? && !p.outcome.True?)
    ensures |Replies(s, p)| == 2
       <==> p.Uid? && p.inner.Some? && (Reached(s, p) == None || !p.outcome.True?)
    ensures |Replies(s, p)| <= 2
  {
  }

  lemma {:induction false} DueReplies(trace: Trace, p: Packet)
    ensures |Replies(After(trace), p)| == Due(trace, p)
  {
    StateIsHistory(trace);
    ReachesManager(trace, p);
    if Undisturbed(trace) {
      OneReplyEach(After(trace), p);
    }
  }

  /** In every run the number of tagged responses sent is the number due by the history. */
  lemma {:induction false} RepliesOfRun(trace: Trace)
    ensures |Sent(trace)| == AllDue(trace)
  {
    if trace != [] {
      var init := trace[..|trace| - 1];
      RepliesOfRun(init);
      DueReplies(init, trace[|trace| - 1]);
    }
  }

  /** The packets received before any LOGOUT, APPEND or interrupt has taken effect. */
  ghost function Served(trace: Trace): nat {
    if trace == [] then 0
    else
      var init := trace[..|trace| - 1];
      Served(init) + if Undisturbed(init) then 1 else 0
  }

  ghost predicate RuleKept(trace: Trace) {
    forall n :: 0 <= n <= |trace| ==> |Sent(trace[..n])| == Served(trace[..n])
  }

  ghost predicate Deviates(trace: Trace, p: Packet) {
    Undisturbed(trace) && (Unanswered(trace, p) || AnsweredTwice(trace, p))
  }

  ghost predicate NoneDeviates(trace: Trace) {
    forall k :: 0 <= k < |trace| ==> !Deviates(trace[..k], trace[k])
  }

  lemma {:induction false} RuleKeptSnoc(trace: Trace, p: Packet)
    ensures RuleKept(trace + [p]) <==> RuleKept(trace) && |Sent(trace + [p])| == Served(trace + [p])
  {
    var t := trace + [p];
    assert t[..|t|] == t;
    assert forall n :: 0 <= n <= |trace| ==> t[..n] == trace[..n];
  }

  lemma NoneDeviatesSnoc(trace: Trace, p: Packet)
    ensures NoneDeviates(trace + [p]) <==> NoneDeviates(trace) && !Deviates(trace, p)
  {
    var t := trace + [p];
    assert t[..|trace|] == trace && t[|trace|] == p;
    assert forall k :: 0 <= k < |trace| ==> t[..k] == trace[..k] && t[k] == trace[k];
  }

  lemma {:induction false} DeviationCounts(trace: Trace, p: Packet)
    requires |Sent(trace)| == Served(trace)
    ensures |Sent(trace + [p])| == Served(trace + [p]) <==> !Deviates(trace, p)
  {
    var t := trace + [p];
    assert t[..|t| - 1] == trace && t[|t| - 1] == p;
    DueReplies(trace, p);
  }

  lemma {:induction false} RuleKeptNow(trace: Trace)
    requires RuleKept(trace)
    ensures |Sent(trace)| == Served(trace)
  {
    assert trace[..|trace|] == trace;
  }

  lemma {:induction false} OneReplyStep(run: Trace, trace: Trace, p: Packet)
    requires run == trace + [p] && (RuleKept(trace) <==> NoneDeviates(trace))
    ensures RuleKept(run) <==> NoneDeviates(run)
  {
    RuleKeptSnoc(trace, p);
    NoneDeviatesSnoc(trace, p);
    if RuleKept(trace) {
      RuleKeptNow(trace);
      DeviationCounts(trace, p);
    }
  }

  /** At every moment of a run there has been exactly one tagged response per packet served, if and only if
      no packet of the run deviates. */
  lemma {:induction false} OneReplyExactly(trace: Trace)
    ensures RuleKept(trace) <==> NoneDeviates(trace)
  {
    if trace == [] {
      assert trace[..0] == trace;
    } else {
      var init, p := trace[..|trace| - 1], trace[|trace| - 1];
      assert trace == init + [p];
      OneReplyExactly(init);
      OneReplyStep(trace, init, p);
    }
  }

  // ----- which response is sent -----

  /** The response to a command that the history allows or forbids, and whose operation comes out so. */
  predicate Verdict(replies: seq<Reply>, allowed: bool, outcome: Outcome) {
    && (replies == [Ok] <==> allowed && outcome.True?)
    && (replies == [No] <==> allowed && !outcome.True?)
    && (replies == [Refused] <==> !allowed)
  }

  /** The commands with exactly one response. */
  predicate AnswersOnce(verb: Verb) {
    !verb.Check? && !verb.Starttls? && !verb.Noop? && !verb.Capability? && !verb.Append?
  }

  /** For every history and command, which response is sent: OK when the history allows the command and the
      operation returns true, NO when it is allowed and does not, the packet error when it is forbidden. */
  lemma {:induction false} CommandAnswered(trace: Trace, verb: Verb, outcome: Outcome)
    requires Undisturbed(trace)
    ensures AnswersOnce(verb) ==>
      Verdict(Replies(After(trace), Command(verb, outcome)), Allowed(trace, verb), outcome)
    ensures verb.Check? || verb.Starttls? ==> Replies(After(trace), Command(verb, outcome)) == []
    ensures verb.Noop? ==>
      Replies(After(trace), Command(verb, outcome))
        == if SelectedSince(trace) && !outcome.Throw? then [Ok] else []
    ensures verb.Capability? ==>
      Replies(After(trace), Command(verb, outcome)) == if outcome.True? then [Ok] else []
    ensures verb.Append? ==>
      Replies(After(trace), Command(verb, outcome)) == if outcome.True? then [] else [No]
  {
    ReachesManager(trace, Command(verb, outcome));
    StateIsHistory(trace);
  }

  /** UID answers OK whatever becomes of the command inside: behind a NO that this one answers, and in front
      of the packet error when it is forbidden. */
  lemma {:induction false} UidAnswered(trace: Trace, inner: Option<Verb>, outcome: Outcome)
    requires Undisturbed(trace)
    ensures Replies(After(trace), Uid(inner, outcome))
         == if inner.None? then [Ok]
            else if !Allowed(trace, inner.value) then [Ok, Refused]
            else if outcome.True? then [Ok]
            else [No, Ok]
  {
    ReachesManager(trace, Uid(inner, outcome));
    StateIsHistory(trace);
  }

  /** What is no command gets the packet error, or nothing; and nothing is sent once the run is disturbed. */
  lemma {:induction false} OthersAnswered(trace: Trace, p: Packet)
    ensures Undisturbed(trace) ==> Replies(After(trace), Malformed) == [Refused]
    ensures p.Blank? || p.Interrupt? || !Undisturbed(trace) ==> Replies(After(trace), p) == []
  {
    StateIsHistory(trace);
  }

  /** The first failed LOGIN of a run is answered NO and leaves the connection unauthenticated. */
  lemma {:induction false} FailedLogin(trace: Trace, outcome: Outcome)
    requires Undisturbed(trace) && !LoggedIn(trace) && !outcome.True?
    ensures Replies(After(trace), Command(Login, outcome)) == [No]
    ensures Authenticated !in After(trace + [Command(Login, outcome)]).flags
  {
    CommandAnswered(trace, Login, outcome);
    LoggedInSnoc(trace, Command(Login, outcome));
    StateIsHistory(trace + [Command(Login, outcome)]);
  }

  // ----- how a connection ends -----

  /** A LOGOUT or APPEND that was dispatched. */
  ghost predicate Dispatched(trace: Trace, i: nat, verb: Verb)
    requires i < |trace|
  {
    trace[i].Command? && trace[i].verb == verb && Undisturbed(trace[..i])
  }

  ghost predicate Ended(trace: Trace) {
    exists i :: 0 <= i < |trace| && (trace[i].Interrupt? || Dispatched(trace, i, Logout))
  }

  ghost predicate Diverted(trace: Trace) {
    exists i :: 0 <= i < |trace| && Dispatched(trace, i, Append)
  }

  lemma {:induction false} EndedSnoc(trace: Trace, p: Packet)
    ensures Ended(trace + [p])
       <==> Ended(trace) || p.Interrupt? || (p.Command? && p.verb.Logout? && Undisturbed(trace))
    ensures Diverted(trace + [p])
       <==> Diverted(trace) || (p.Command? && p.verb.Append? && Undisturbed(trace))
  {
    var t := trace + [p];
    assert t[|trace|] == p && t[..|trace|] == trace;
    assert forall i :: 0 <= i < |trace| ==> t[i] == trace[i] && t[..i] == trace[..i];
    assert forall i, verb :: 0 <= i < |trace| ==> (Dispatched(t, i, verb) <==> Dispatched(trace, i, verb));
    assert forall verb :: Dispatched(t, |trace|, verb) <==> p.Command? && p.verb == verb && Undisturbed(trace);
    if Ended(trace) {
      var i :| 0 <= i < |trace| && (trace[i].Interrupt? || Dispatched(trace, i, Logout));
      assert t[i].Interrupt? || Dispatched(t, i, Logout);
    }
    if Diverted(trace) {
      var i :| 0 <= i < |trace| && Dispatched(trace, i, Append);
      assert Dispatched(t, i, Append);
    }
    if p.Interrupt? {
      assert t[|trace|].Interrupt?;
    }
    if p.Command? && Undisturbed(trace) {
      assert Dispatched(t, |trace|, p.verb);
    }
  }

  lemma {:induction false} EndStep(s: State, p: Packet)
    ensures Next(s, p).closed <==> s.closed || p.Interrupt? || (p.Command? && p.verb.Logout? && Open(s))
    ensures Next(s, p).diverted <==> s.diverted || (p.Command? && p.verb.Append? && Open(s))
  {
  }

  /** A connection has ended exactly when an interrupt came or a LOGOUT was dispatched, and takes packets for
      a literal exactly when an APPEND was dispatched. */
  lemma {:induction false} EndedExactly(trace: Trace)
    ensures After(trace).closed <==> Ended(trace)
    ensures After(trace).diverted <==> Diverted(trace)
  {
    if trace != [] {
      var init, p := trace[..|trace| - 1], trace[|trace| - 1];
      assert trace == init + [p];
      EndedExactly(init);
      StateIsHistory(init);
      EndedSnoc(init, p);
      EndStep(After(init), p);
    }
  }
}
