/** Agreement of the cache with the database over whole runs of commands. */
module MailboxRuns {
  import opened Text
  import opened Vectors
  import MessageSets
  import opened MailboxCache
  import MailboxCommands

  /** The commands that use the cache, each reaching its database calls, and `Elsewhere`: anything other
      sessions, deliveries, COPY or APPEND do to the database. */
  datatype Event =
    | Select(folder: string, examine: bool)
    | Status(folder: string)
    | Fetch(uid: bool)
    | Noop(news: bool)
    | Store(text: string, flags: set<MailFlag>, how: Method)
    | Expunge
    | Close
    | Elsewhere(db: Db)

  datatype World = World(db: Db, cache: Cache)

  lemma RequestedInIds(c: Cache, expanded: seq<int>)
    ensures forall i :: 0 <= i < |Requested(c, expanded)| ==> Requested(c, expanded)[i] in Ids(c)
  {
    SortSorts(Ids(c));
    forall i | 0 <= i < |Requested(c, expanded)| ensures Requested(c, expanded)[i] in Ids(c) {
      AmongMembers(Sort(Ids(c)), expanded, Requested(c, expanded)[i]);
    }
  }

  function StoreStep(w: World, text: string, flags: set<MailFlag>, how: Method): World {
    if w.cache.readOnly then w
    else
      var v := Requested(w.cache, MessageSets.Expand(text, |w.cache.rows|));
      RequestedInIds(w.cache, MessageSets.Expand(text, |w.cache.rows|));
      World(StoreEach(w.db, w.cache, v, flags, how), w.cache)
  }

  function Step(w: World, e: Event): World {
    var plain := w.(cache := w.cache.(uids := false));
    match e
    case Select(folder, examine) => World(w.db, Refreshed(plain.cache, w.db, folder, examine))
    case Status(folder) => World(w.db, Filled(plain.cache, Rows(w.db, folder)))
    case Fetch(uid) => World(w.db, Refreshed(w.cache.(uids := uid), w.db, w.cache.name, false))
    case Noop(news) => World(w.db, Nooped(plain.cache, w.db, news))
    case Store(text, flags, how) => StoreStep(plain, text, flags, how)
    case Expunge => World(Expunged(w.db, w.cache.name), AfterExpunge(plain.cache, w.db))
    case Close => plain.(cache := plain.cache.(closeExpunge := true))
    case Elsewhere(db) => w.(db := db)
  }

  const FRESH := Cache([], 0, "", false, false, false)

  function After(db: Db, trace: seq<Event>): World {
    if trace == [] then World(db, FRESH)
    else Step(After(db, trace[..|trace| - 1]), trace[|trace| - 1])
  }

  lemma {:induction false} AfterSnoc(db: Db, trace: seq<Event>, e: Event)
    ensures After(db, trace + [e]) == Step(After(db, trace), e)
  {
    var t := trace + [e];
    assert t[..|t| - 1] == trace && t[|t| - 1] == e;
  }

  /** The state before and after the i-th event. */
  function Before(db: Db, trace: seq<Event>, i: nat): World
    requires i <= |trace|
  {
    After(db, trace[..i])
  }

  lemma BeforeNext(db: Db, trace: seq<Event>, i: nat)
    requires i < |trace|
    ensures Before(db, trace, i + 1) == Step(Before(db, trace, i), trace[i])
  {
    assert trace[..i + 1] == trace[..i] + [trace[i]];
    AfterSnoc(db, trace[..i], trace[i]);
  }

  // ----- the same runs on the manager -----

  /** One event, performed by the manager's own methods. FETCH reads some message set; which one does not
      matter to the cache. */
  method Perform(manager: Manager, db: Db, e: Event) returns (r: Db)
    requires manager.Valid() && WellFormed(db) && (e.Elsewhere? ==> WellFormed(e.db))
    modifies manager
    ensures manager.Valid() && WellFormed(r)
    ensures World(r, manager.Now()) == Step(World(db, old(manager.Now())), e)
  {
    r := db;
    match e {
      case Select(folder, examine) =>
        manager.uids := false;
        manager.OnSelect(db, folder, examine);
      case Status(folder) =>
        manager.uids := false;
        manager.OnStatus(db, folder);
      case Fetch(uid) =>
        manager.uids := uid;
        var v := manager.OnFetch(db, "1:*");
      case Noop(news) =>
        manager.uids := false;
        var reported := manager.OnNoop(db, if news then 1 else 0);
      case Store(text, flags, how) =>
        r := PerformStore(manager, db, text, flags, how);
      case Expunge =>
        manager.uids := false;
        ExpungedWellFormed(db, manager.name);
        var reported;
        r, reported := manager.OnExpunge(db);
      case Close =>
        manager.uids := false;
        manager.OnClose();
      case Elsewhere(other) =>
        r := other;
    }
  }

  method PerformStore(manager: Manager, db: Db, text: string, flags: set<MailFlag>, how: Method) returns (r: Db)
    requires manager.Valid() && WellFormed(db)
    modifies manager
    ensures manager.Valid() && WellFormed(r)
    ensures World(r, manager.Now()) == Step(World(db, old(manager.Now())), Store(text, flags, how))
  {
    manager.uids := false;
    var refused;
    refused, r := manager.OnStore(db, text, flags, how);
    if !refused {
      MailboxCommands.StoreEachWellFormed(
        db, manager.Now(), Requested(manager.Now(), MessageSets.Expand(text, |manager.rows|)), flags, how);
    }
  }

  /** A run on a fresh manager. */
  method PerformAll(manager: Manager, db: Db, trace: seq<Event>) returns (r: Db)
    requires manager.Valid() && manager.Now() == FRESH && WellFormed(db)
    requires forall i :: 0 <= i < |trace| && trace[i].Elsewhere? ==> WellFormed(trace[i].db)
    modifies manager
    ensures manager.Valid() && World(r, manager.Now()) == After(db, trace)
  {
    r := db;
    for i := 0 to |trace|
      invariant manager.Valid() && WellFormed(r)
      invariant World(r, manager.Now()) == Before(db, trace, i)
    {
      BeforeNext(db, trace, i);
      r := Perform(manager, r, trace[i]);
    }
    assert trace[..|trace|] == trace;
  }

  // ----- the message map -----

  /** A NOOP for which the database reports new messages. */
  predicate News(e: Event) {
    e.Noop? && e.news
  }

  /** The event changes which listing the map numbers. */
  predicate ChangesMap(e: Event) {
    e.Select? || e.Status? || e.Fetch? || News(e) || e.Expunge?
  }

  /** The folder an event fills the map from, if it does. */
  function FilledFrom(w: World, e: Event): Option<string> {
    match e
    case Select(folder, _) => Some(folder)
    case Status(folder) => Some(folder)
    case Fetch(_) => Some(w.cache.name)
    case Noop(news) => if news then Some(w.cache.name) else None
    case Expunge => if w.cache.closeExpunge then None else Some(w.cache.name)
    case _ => None
  }

  lemma MapStep(w: World, e: Event)
    ensures !ChangesMap(e) ==> Step(w, e).cache.rows == w.cache.rows
    ensures FilledFrom(w, e).Some? ==> Step(w, e).cache.rows == Rows(Step(w, e).db, FilledFrom(w, e).value)
    ensures e.Expunge? && w.cache.closeExpunge ==> Step(w, e).cache.rows == []
  {
  }

  lemma {:induction false} MapStaysOnce(db: Db, trace: seq<Event>, n: nat)
    requires n < |trace| && !ChangesMap(trace[n])
    ensures Before(db, trace, n + 1).cache.rows == Before(db, trace, n).cache.rows
  {
    BeforeNext(db, trace, n);
    MapStep(Before(db, trace, n), trace[n]);
  }

  lemma {:induction false} Constant<T>(s: seq<T>, i: nat, n: nat)
    requires i <= n < |s| && forall j :: i <= j < n ==> s[j + 1] == s[j]
    ensures s[n] == s[i]
    decreases n
  {
    if i < n {
      Constant(s, i, n - 1);
      assert s[n - 1 + 1] == s[n - 1];
    }
  }

  lemma {:induction false} MapStays(db: Db, trace: seq<Event>, i: nat, n: nat)
    requires i < n <= |trace|
    requires forall j :: i < j < n ==> !ChangesMap(trace[j])
    ensures Before(db, trace, n).cache.rows == Before(db, trace, i + 1).cache.rows
  {
    var maps := seq(|trace| + 1, k requires 0 <= k <= |trace| => Before(db, trace, k).cache.rows);
    forall j | i < j < n ensures maps[j + 1] == maps[j] {
      MapStaysOnce(db, trace, j);
    }
    Constant(maps, i + 1, n);
  }

  /** In every run the map is the numbering of a listing as it was at the last command that refilled it:
      the listing of the folder named by that SELECT, EXAMINE or STATUS, or of the folder whose name the
      mailbox information had at that FETCH, EXPUNGE or NOOP with news. STORE changes the table and not the map. */
  lemma {:induction false} MapIsLastListing(db: Db, trace: seq<Event>, i: nat)
    requires i < |trace| && FilledFrom(Before(db, trace, i), trace[i]).Some?
    requires forall j :: i < j < |trace| ==> !ChangesMap(trace[j])
    ensures Numbered(After(db, trace).cache.rows)
         == Numbered(Rows(Before(db, trace, i + 1).db, FilledFrom(Before(db, trace, i), trace[i]).value))
  {
    MapStays(db, trace, i, |trace|);
    BeforeNext(db, trace, i);
    MapStep(Before(db, trace, i), trace[i]);
    assert trace[..|trace|] == trace;
  }

  // ----- CLOSE -----

  /** A CLOSE since the last EXPUNGE. */
  ghost predicate ClosePending(trace: seq<Event>) {
    exists i :: 0 <= i < |trace| && trace[i].Close? && forall j :: i < j < |trace| ==> !trace[j].Expunge?
  }

  lemma ClosePendingSnoc(trace: seq<Event>, e: Event)
    ensures ClosePending(trace + [e]) <==> e.Close? || (ClosePending(trace) && !e.Expunge?)
  {
    var t := trace + [e];
    assert t[|trace|] == e && forall i :: 0 <= i < |trace| ==> t[i] == trace[i];
    if ClosePending(trace) && !e.Expunge? {
      var i :| 0 <= i < |trace| && trace[i].Close? && forall j :: i < j < |trace| ==> !trace[j].Expunge?;
      assert t[i].Close? && forall j :: i < j < |t| ==> !t[j].Expunge?;
    }
    if ClosePending(t) {
      var i :| 0 <= i < |t| && t[i].Close? && forall j :: i < j < |t| ==> !t[j].Expunge?;
      if i < |trace| {
        assert trace[i].Close? && forall j :: i < j < |trace| ==> !trace[j].Expunge?;
        assert !t[|trace|].Expunge?;
      }
    }
  }

  lemma CloseStep(w: World, e: Event)
    ensures Step(w, e).cache.closeExpunge <==> e.Close? || (w.cache.closeExpunge && !e.Expunge?)
  {
  }

  /** The mark that CLOSE leaves lasts until the next EXPUNGE, across any SELECT. */
  lemma {:induction false} PendingCloseExactly(db: Db, trace: seq<Event>)
    ensures After(db, trace).cache.closeExpunge <==> ClosePending(trace)
  {
    if trace != [] {
      var init, e := trace[..|trace| - 1], trace[|trace| - 1];
      assert trace == init + [e];
      PendingCloseExactly(db, init);
      ClosePendingSnoc(init, e);
      CloseStep(After(db, init), e);
    }
  }

  /** With that mark an EXPUNGE deletes in the folder selected now, and leaves no messages and no folder
      name behind; `OnExpunge` reports nothing then. */
  lemma {:induction false} PendingCloseClears(db: Db, trace: seq<Event>)
    requires ClosePending(trace)
    ensures var w := After(db, trace);
            && Step(w, Expunge).db == Expunged(w.db, w.cache.name)
            && Step(w, Expunge).cache.rows == [] && Step(w, Expunge).cache.name == ""
  {
    PendingCloseExactly(db, trace);
  }

  // ----- the name of the selected folder -----

  /** From the i-th event, a SELECT or EXAMINE, on: no other one, no EXPUNGE while a CLOSE is pending, and
      the flag query returns a row for the folder at every refresh. */
  ghost predicate StaysSelected(db: Db, trace: seq<Event>, i: nat)
    requires i < |trace|
  {
    && trace[i].Select?
    && (forall j :: i < j < |trace| ==> !trace[j].Select?)
    && (forall j :: i <= j <= |trace| ==> trace[i].folder in Before(db, trace, j).db.described)
    && (forall j :: i < j < |trace| && trace[j].Expunge? ==> !ClosePending(trace[..j]))
  }

  lemma NameStep(w: World, e: Event)
    requires !e.Select? && (e.Expunge? ==> !w.cache.closeExpunge) && w.cache.name in Step(w, e).db.described
    ensures Step(w, e).cache.name == w.cache.name
  {
  }

  lemma {:induction false} NameUpTo(db: Db, trace: seq<Event>, i: nat, n: nat)
    requires i < n <= |trace| && StaysSelected(db, trace, i)
    ensures Before(db, trace, n).cache.name == trace[i].folder
    decreases n
  {
    BeforeNext(db, trace, n - 1);
    if i + 1 < n {
      NameUpTo(db, trace, i, n - 1);
      PendingCloseExactly(db, trace[..n - 1]);
      NameStep(Before(db, trace, n - 1), trace[n - 1]);
    }
  }

  /** So long as the folder stays selected, a FETCH expands its set over exactly the numbering of the
      current listing of the selected folder. */
  lemma {:induction false} FetchSeesCurrentListing(db: Db, trace: seq<Event>, i: nat, uid: bool)
    requires i < |trace| && StaysSelected(db, trace, i)
    ensures var w := After(db, trace);
            Step(w, Fetch(uid)).cache.rows == Rows(w.db, trace[i].folder)
  {
    NameUpTo(db, trace, i, |trace|);
    assert trace[..|trace|] == trace;
  }

  /** And without a STATUS since the last refresh in the selected folder, STORE, COPY and EXPUNGE see the
      selected folder's listing as it was at that refresh. */
  lemma {:induction false} OthersSeeLastRefresh(db: Db, trace: seq<Event>, i: nat, k: nat)
    requires i <= k < |trace| && StaysSelected(db, trace, i)
    requires ChangesMap(trace[k]) && !trace[k].Status?
    requires forall j :: k < j < |trace| ==> !ChangesMap(trace[j])
    ensures After(db, trace).cache.rows == Rows(Before(db, trace, k + 1).db, trace[i].folder)
  {
    if i < k {
      NameUpTo(db, trace, i, k);
      PendingCloseExactly(db, trace[..k]);
    }
    assert FilledFrom(Before(db, trace, k), trace[k]) == Some(trace[i].folder);
    MapIsLastListing(db, trace, k);
    NumberedInjective(After(db, trace).cache.rows, Rows(Before(db, trace, k + 1).db, trace[i].folder));
  }

  /** When the last of them is a STATUS they see the listing of the folder it asked about, under the
      selected folder's name. */
  lemma {:induction false} StatusReplacesListing(db: Db, trace: seq<Event>, i: nat, k: nat)
    requires i < k < |trace| && StaysSelected(db, trace, i)
    requires trace[k].Status? && forall j :: k < j < |trace| ==> !ChangesMap(trace[j])
    ensures After(db, trace).cache.rows == Rows(Before(db, trace, k + 1).db, trace[k].folder)
    ensures After(db, trace).cache.name == trace[i].folder
  {
    MapIsLastListing(db, trace, k);
    NumberedInjective(After(db, trace).cache.rows, Rows(Before(db, trace, k + 1).db, trace[k].folder));
    NameUpTo(db, trace, i, |trace|);
    assert trace[..|trace|] == trace;
  }

  /** So what STORE, COPY and EXPUNGE see is the selected folder's listing as of the last refill, exactly when
      that refill was no STATUS, or the folder it asked about had the same listing. */
  lemma {:induction false} SelectedSeenExactly(db: Db, trace: seq<Event>, i: nat, k: nat)
    requires i <= k < |trace| && StaysSelected(db, trace, i)
    requires ChangesMap(trace[k]) && forall j :: k < j < |trace| ==> !ChangesMap(trace[j])
    ensures var atRefill := Before(db, trace, k + 1).db;
            After(db, trace).cache.rows == Rows(atRefill, trace[i].folder)
            <==> (!trace[k].Status? || Rows(atRefill, trace[k].folder) == Rows(atRefill, trace[i].folder))
  {
    if trace[k].Status? {
      StatusReplacesListing(db, trace, i, k);
    } else {
      OthersSeeLastRefresh(db, trace, i, k);
    }
  }

  // ----- read-only -----

  predicate RefreshesInfo(e: Event) {
    e.Select? || e.Fetch? || News(e) || e.Expunge?
  }

  /** The most recent refresh of the mailbox information was EXAMINE's. */
  ghost predicate LastRefreshWasExamine(trace: seq<Event>) {
    exists i :: 0 <= i < |trace| && trace[i].Select? && trace[i].examine
      && forall j :: i < j < |trace| ==> !RefreshesInfo(trace[j])
  }

  lemma LastRefreshSnoc(trace: seq<Event>, e: Event)
    ensures LastRefreshWasExamine(trace + [e])
       <==> (e.Select? && e.examine) || (LastRefreshWasExamine(trace) && !RefreshesInfo(e))
  {
    var t := trace + [e];
    assert t[|trace|] == e && forall i :: 0 <= i < |trace| ==> t[i] == trace[i];
    if LastRefreshWasExamine(trace) && !RefreshesInfo(e) {
      var i :| 0 <= i < |trace| && trace[i].Select? && trace[i].examine
        && forall j :: i < j < |trace| ==> !RefreshesInfo(trace[j]);
      assert t[i].Select? && t[i].examine && forall j :: i < j < |t| ==> !RefreshesInfo(t[j]);
    }
    if LastRefreshWasExamine(t) {
      var i :| 0 <= i < |t| && t[i].Select? && t[i].examine && forall j :: i < j < |t| ==> !RefreshesInfo(t[j]);
      if i < |trace| {
        assert trace[i].Select? && trace[i].examine && forall j :: i < j < |trace| ==> !RefreshesInfo(trace[j]);
        assert !RefreshesInfo(t[|trace|]);
      }
    }
  }

  ghost predicate SelectsDescribed(db: Db, trace: seq<Event>) {
    forall i :: 0 <= i < |trace| && trace[i].Select? ==> trace[i].folder in Before(db, trace, i).db.described
  }

  lemma ReadOnlyStep(w: World, e: Event)
    requires e.Select? ==> e.folder in w.db.described
    ensures Step(w, e).cache.readOnly <==> (e.Select? && e.examine) || (w.cache.readOnly && !RefreshesInfo(e))
  {
  }

  /** When refreshes return a flag row, STORE is refused as read-only exactly when the most recent refresh
      was EXAMINE's. */
  lemma {:induction false} ReadOnlyExactly(db: Db, trace: seq<Event>)
    requires SelectsDescribed(db, trace)
    ensures After(db, trace).cache.readOnly <==> LastRefreshWasExamine(trace)
  {
    if trace != [] {
      var init, e := trace[..|trace| - 1], trace[|trace| - 1];
      assert trace == init + [e];
      forall i | 0 <= i < |init| && init[i].Select? ensures init[i].folder in Before(db, init, i).db.described {
        assert init[..i] == trace[..i] && init[i] == trace[i];
      }
      ReadOnlyExactly(db, init);
      LastRefreshSnoc(init, e);
      assert trace[..|init|] == init;
      assert e.Select? ==> e.folder in Before(db, trace, |init|).db.described;
      ReadOnlyStep(After(db, init), e);
    }
  }

  /** An examined mailbox is writable after any later refresh, be it by FETCH, by EXPUNGE, or by a NOOP
      that finds new mail, until the next EXAMINE. */
  lemma {:induction false} RefreshClearsReadOnly(db: Db, trace: seq<Event>, k: nat)
    requires k < |trace| && RefreshesInfo(trace[k]) && !trace[k].Select?
    requires forall j :: k < j < |trace| ==> !trace[j].Select?
    ensures !After(db, trace).cache.readOnly
  {
    WritableUpTo(db, trace, k, |trace|);
    assert trace[..|trace|] == trace;
  }

  lemma {:induction false} WritableUpTo(db: Db, trace: seq<Event>, k: nat, n: nat)
    requires k < n <= |trace| && RefreshesInfo(trace[k])
    requires forall j :: k <= j < n ==> !trace[j].Select?
    ensures !Before(db, trace, n).cache.readOnly
    decreases n
  {
    BeforeNext(db, trace, n - 1);
    if k + 1 < n {
      WritableUpTo(db, trace, k, n - 1);
    }
    WritableStep(Before(db, trace, n - 1), trace[n - 1]);
  }

  lemma WritableStep(w: World, e: Event)
    requires !e.Select? && (RefreshesInfo(e) || !w.cache.readOnly)
    ensures !Step(w, e).cache.readOnly
  {
  }

  /** So a STORE that EXAMINE had refused is carried out once a NOOP has found new mail. */
  lemma {:induction false} NoopMakesWritable(db: Db, trace: seq<Event>, folder: string)
    ensures var examined := trace + [Select(folder, true)];
            (folder in After(db, trace).db.described ==> After(db, examined).cache.readOnly)
            && !After(db, examined + [Noop(true)]).cache.readOnly
  {
    var examined := trace + [Select(folder, true)];
    AfterSnoc(db, trace, Select(folder, true));
    RefreshClearsReadOnly(db, examined + [Noop(true)], |trace| + 1);
  }
}
