/** The manager's cached message map, keyed by decimal message numbers, the operations on it, and the
    database it is filled from. */
module MailboxCache {
  import opened Text
  import opened Vectors
  import Intersection
  import MessageSets

  // ----- messages and the database -----

  datatype MailFlag = Answered | Deleted | Draft | Flagged | Recent | Seen

  datatype Message = Message(uid: int, url: string, flags: set<MailFlag>)

  /** The listing of each folder, in the order of the query, and the folders for which the flag query
      returns a row. */
  datatype Db = Db(folders: map<string, seq<Message>>, described: set<string>)

  function Rows(db: Db, folder: string): seq<Message> {
    if folder in db.folders then db.folders[folder] else []
  }

  /** UIDs and URLs are keys within a folder. */
  ghost predicate Keyed(rows: seq<Message>) {
    forall i, j :: 0 <= i < j < |rows| ==> rows[i].uid != rows[j].uid && rows[i].url != rows[j].url
  }

  ghost predicate WellFormed(db: Db) {
    forall folder :: folder in db.folders ==> Keyed(db.folders[folder])
  }

  function Relabelled(rows: seq<Message>, url: string, flags: set<MailFlag>): (r: seq<Message>)
    ensures |r| == |rows|
    ensures forall i :: 0 <= i < |r| ==> r[i] == if rows[i].url == url then rows[i].(flags := flags) else rows[i]
  {
    seq(|rows|, i requires 0 <= i < |rows| => if rows[i].url == url then rows[i].(flags := flags) else rows[i])
  }

  /** The flag update is by URL, in every folder. */
  function SetFlags(db: Db, url: string, flags: set<MailFlag>): (r: Db)
    ensures forall folder :: Rows(r, folder) == Relabelled(Rows(db, folder), url, flags)
    ensures r.described == db.described
  {
    db.(folders := map folder | folder in db.folders :: Relabelled(db.folders[folder], url, flags))
  }

  function Kept(rows: seq<Message>): seq<Message> {
    if rows == [] then []
    else if Deleted in rows[0].flags then Kept(rows[1..])
    else [rows[0]] + Kept(rows[1..])
  }

  function Expunged(db: Db, folder: string): Db {
    if folder in db.folders then db.(folders := db.folders[folder := Kept(db.folders[folder])]) else db
  }

  lemma {:induction false} KeptMembers(rows: seq<Message>, m: Message)
    ensures m in Kept(rows) <==> m in rows && Deleted !in m.flags
  {
    if rows != [] {
      KeptMembers(rows[1..], m);
      assert m in rows <==> m == rows[0] || m in rows[1..];
    }
  }

  /** The folder loses exactly its messages marked deleted, every other folder loses nothing. */
  lemma {:induction false} ExpungedExactly(db: Db, folder: string, other: string, m: Message)
    ensures m in Rows(Expunged(db, folder), folder) <==> m in Rows(db, folder) && Deleted !in m.flags
    ensures other != folder ==> Rows(Expunged(db, folder), other) == Rows(db, other)
    ensures Expunged(db, folder).described == db.described
  {
    KeptMembers(Rows(db, folder), m);
  }

  // ----- numbering -----

  /** Rows under the decimal keys 1, 2, 3 and so on. */
  function Numbered(rows: seq<Message>): map<string, Message> {
    if rows == [] then map[] else Numbered(rows[..|rows| - 1])[Print(|rows|) := rows[|rows| - 1]]
  }

  lemma {:induction false} NumberedAt(rows: seq<Message>, n: nat)
    requires 1 <= n
    ensures Print(n) in Numbered(rows) <==> n <= |rows|
    ensures n <= |rows| ==> Numbered(rows)[Print(n)] == rows[n - 1]
  {
    if rows != [] {
      PrintInjective(n, |rows|);
      NumberedAt(rows[..|rows| - 1], n);
    }
  }

  lemma {:induction false} NumberedKey(rows: seq<Message>, key: string)
    requires key in Numbered(rows)
    ensures 1 <= Atoi(key) <= |rows| && key == Print(Atoi(key)) && Numbered(rows)[key] == rows[Atoi(key) - 1]
  {
    PrintInjective(|rows|, |rows|);
    if key != Print(|rows|) {
      NumberedKey(rows[..|rows| - 1], key);
    }
  }

  lemma {:induction false} NumberedSize(rows: seq<Message>)
    ensures |Numbered(rows)| == |rows|
  {
    if rows != [] {
      var init := rows[..|rows| - 1];
      NumberedSize(init);
      NumberedAt(init, |rows|);
      assert Numbered(rows).Keys == Numbered(init).Keys + {Print(|rows|)};
    }
  }

  /** The listing behind a numbered map is unique. */
  lemma {:induction false} NumberedInjective(rows: seq<Message>, other: seq<Message>)
    requires Numbered(rows) == Numbered(other)
    ensures rows == other
  {
    NumberedSize(rows);
    NumberedSize(other);
    forall i | 0 <= i < |rows| ensures rows[i] == other[i] {
      NumberedAt(rows, i + 1);
      NumberedAt(other, i + 1);
    }
  }

  // ----- the abstract cache -----

  datatype Cache = Cache(
    rows: seq<Message>, maxUid: int, name: string, readOnly: bool, closeExpunge: bool, uids: bool)

  /** The largest-UID field after filling: it follows the last row, not the largest, and keeps its old
      value when there is none. */
  function LastUid(rows: seq<Message>, before: int): int {
    if rows == [] then before
    else if rows[|rows| - 1].uid > 0 then rows[|rows| - 1].uid
    else LastUid(rows[..|rows| - 1], before)
  }

  lemma {:induction false} LastUidSettles(rows: seq<Message>, before: int)
    ensures LastUid(rows, LastUid(rows, before)) == LastUid(rows, before)
  {
    if rows != [] && rows[|rows| - 1].uid <= 0 {
      LastUidSettles(rows[..|rows| - 1], before);
    }
  }

  lemma {:induction false} NextRow(rows: seq<Message>, n: nat, before: int)
    requires 1 <= n <= |rows|
    ensures Numbered(rows[..n]) == Numbered(rows[..n - 1])[Print(n) := rows[n - 1]]
    ensures LastUid(rows[..n], before)
         == if rows[n - 1].uid > 0 then rows[n - 1].uid else LastUid(rows[..n - 1], before)
  {
    assert rows[..n][..n - 1] == rows[..n - 1];
  }

  function Filled(c: Cache, rows: seq<Message>): Cache {
    c.(rows := rows, maxUid := LastUid(rows, c.maxUid))
  }

  /** Without a flag row the mailbox information stays cleared. */
  function Refreshed(c: Cache, db: Db, folder: string, readOnly: bool): Cache {
    Filled(c, Rows(db, folder)).(
      name := if folder in db.described then folder else "",
      readOnly := folder in db.described && readOnly)
  }

  /** NOOP: a refresh as FETCH does it, but only on news. */
  function Nooped(c: Cache, db: Db, news: bool): Cache {
    if news then Refreshed(c, db, c.name, false) else c
  }

  function Uids(rows: seq<Message>): (r: seq<int>)
    ensures |r| == |rows| && forall i :: 0 <= i < |r| ==> r[i] == rows[i].uid
  {
    seq(|rows|, i requires 0 <= i < |rows| => rows[i].uid)
  }

  /** What the numbers of a message set stand for: positions, or UIDs under UID. */
  function Ids(c: Cache): seq<int> {
    if c.uids then Uids(c.rows) else MessageSets.Range(1, |c.rows|)
  }

  function Among(ids: seq<int>, wanted: seq<int>): seq<int> {
    if ids == [] then []
    else if ids[0] != 0 && ids[0] in wanted then [ids[0]] + Among(ids[1..], wanted)
    else Among(ids[1..], wanted)
  }

  /** The request vector for an expanded message set. */
  function Requested(c: Cache, expanded: seq<int>): seq<int> {
    Among(Sort(Ids(c)), expanded)
  }

  lemma {:induction false} AmongMembers(ids: seq<int>, wanted: seq<int>, x: int)
    ensures x in Among(ids, wanted) <==> x in ids && x != 0 && x in wanted
  {
    if ids != [] {
      AmongMembers(ids[1..], wanted, x);
    }
  }

  lemma {:induction false} AmongStrict(ids: seq<int>, wanted: seq<int>)
    requires Strict(ids)
    ensures Strict(Among(ids, wanted))
  {
    if ids != [] {
      AmongStrict(ids[1..], wanted);
      var rest := Among(ids[1..], wanted);
      forall i | 0 <= i < |rest| ensures ids[0] < rest[i] {
        AmongMembers(ids[1..], wanted, rest[i]);
      }
    }
  }

  lemma IdsDupFree(c: Cache)
    requires Keyed(c.rows)
    ensures DupFree(Ids(c))
  {
  }

  lemma RequestedIsCommon(c: Cache, expanded: seq<int>)
    requires Keyed(c.rows)
    ensures Intersection.CommonAscending(Requested(c, expanded), expanded, Ids(c))
  {
    IdsDupFree(c);
    Intersection.DupFreeSort(Ids(c));
    SortSorts(Ids(c));
    AmongStrict(Sort(Ids(c)), expanded);
    forall x ensures x in Requested(c, expanded) <==> x != 0 && x in expanded && x in Ids(c) {
      AmongMembers(Sort(Ids(c)), expanded, x);
    }
  }

  /** The message that a number or UID of the request vector stands for. */
  function MessageOf(c: Cache, id: int): Message
    requires id in Ids(c)
  {
    if c.uids then RowOf(c.rows, id)
    else
      assert Ids(c)[id - 1] == id by { MessageSets.RangeMembers(1, |c.rows|); }
      c.rows[id - 1]
  }

  function RowOf(rows: seq<Message>, uid: int): (m: Message)
    requires uid in Uids(rows)
    ensures m in rows && m.uid == uid
  {
    if rows[0].uid == uid then rows[0]
    else
      assert uid in Uids(rows[1..]) by {
        var i :| 0 <= i < |rows| && Uids(rows)[i] == uid;
        assert Uids(rows[1..])[i - 1] == uid;
      }
      RowOf(rows[1..], uid)
  }

  lemma {:induction false} RowOfUid(rows: seq<Message>, i: nat)
    requires Keyed(rows) && i < |rows|
    ensures rows[i].uid in Uids(rows) && RowOf(rows, rows[i].uid) == rows[i]
  {
    assert Uids(rows)[i] == rows[i].uid;
    var m := RowOf(rows, rows[i].uid);
    var k :| 0 <= k < |rows| && rows[k] == m;
    assert k == i;
  }

  /** The i-th id stands for the i-th row. */
  lemma {:induction false} IdAt(c: Cache, i: nat)
    requires i < |c.rows|
    ensures |Ids(c)| == |c.rows| && Ids(c)[i] == if c.uids then c.rows[i].uid else i + 1
  {
  }

  lemma {:induction false} MessageOfPosition(c: Cache, i: nat)
    requires Keyed(c.rows) && i < |c.rows|
    ensures |Ids(c)| == |c.rows| && Ids(c)[i] in Ids(c) && MessageOf(c, Ids(c)[i]) == c.rows[i]
    ensures Ids(c)[i] == if c.uids then c.rows[i].uid else i + 1
  {
    IdAt(c, i);
    if c.uids {
      RowOfUid(c.rows, i);
    }
  }

  datatype Method = Add | Remove | Replace

  function Apply(before: set<MailFlag>, flags: set<MailFlag>, how: Method): set<MailFlag> {
    match how
    case Add => before + flags
    case Remove => before - flags
    case Replace => flags
  }

  /** Flag by flag. */
  lemma {:induction false} ApplyFlag(before: set<MailFlag>, flags: set<MailFlag>, how: Method)
    ensures forall flag ::
      (flag in Apply(before, flags, how)
       <==> match how
            case Add => flag in before || flag in flags
            case Remove => flag in before && flag !in flags
            case Replace => flag in flags)
  {
  }

  /** The flag update for one message, from its cached flags. */
  function Updated(db: Db, m: Message, flags: set<MailFlag>, how: Method): Db {
    SetFlags(db, m.url, Apply(m.flags, flags, how))
  }

  function StoreEach(db: Db, c: Cache, ids: seq<int>, flags: set<MailFlag>, how: Method): Db
    requires forall i :: 0 <= i < |ids| ==> ids[i] in Ids(c)
    decreases |ids|
  {
    if ids == [] then db
    else StoreEach(Updated(db, MessageOf(c, ids[0]), flags, how), c, ids[1..], flags, how)
  }

  lemma {:induction false} StoreEachStep(db: Db, c: Cache, ids: seq<int>, i: nat, flags: set<MailFlag>, how: Method)
    requires i < |ids| && forall k :: 0 <= k < |ids| ==> ids[k] in Ids(c)
    ensures StoreEach(db, c, ids[i..], flags, how)
         == StoreEach(Updated(db, MessageOf(c, ids[i]), flags, how), c, ids[i + 1..], flags, how)
  {
    assert ids[i..][1..] == ids[i + 1..];
  }

  /** Numbers of the cached messages marked deleted, in ascending order. */
  function DeletedFrom(rows: seq<Message>, n: int): seq<int> {
    if rows == [] then []
    else if Deleted in rows[0].flags then [n] + DeletedFrom(rows[1..], n + 1)
    else DeletedFrom(rows[1..], n + 1)
  }

  /** The numbers in the EXPUNGE responses: each lowered by the number of responses before it. */
  function Responses(v: seq<int>): (r: seq<int>)
    ensures |r| == |v| && forall k :: 0 <= k < |r| ==> r[k] == v[k] - k
  {
    seq(|v|, k requires 0 <= k < |v| => v[k] - k)
  }

  /** Closing an expunge clears everything and reports nothing. */
  function AfterExpunge(c: Cache, db: Db): Cache {
    if c.closeExpunge then c.(rows := [], name := "", readOnly := false, closeExpunge := false)
    else Refreshed(c, Expunged(db, c.name), c.name, false)
  }

  // ----- the manager -----

  class Manager {
    var messages: map<string, Message>
    var maxUid: int
    var name: string
    var readOnly: bool
    var closeExpunge: bool
    var uids: bool
    ghost var rows: seq<Message>

    ghost function Now(): Cache
      reads this
    {
      Cache(rows, maxUid, name, readOnly, closeExpunge, uids)
    }

    /** The map is the numbering of a listing whose UIDs and URLs are keys, and the UID limit is the one
        that listing left. */
    ghost predicate Valid()
      reads this
    {
      messages == Numbered(rows) && Keyed(rows) && maxUid == LastUid(rows, maxUid)
    }

    constructor ()
      ensures Valid() && Now() == Cache([], 0, "", false, false, false)
    {
      messages, maxUid, name, readOnly, closeExpunge, uids, rows := map[], 0, "", false, false, false, [];
    }

    method FillMessageListByDb(db: Db, folder: string)
      requires WellFormed(db)
      modifies this
      ensures Valid() && Now() == Filled(old(Now()), Rows(db, folder))
    {
      messages := map[];
      var listing := Rows(db, folder);
      var dwIdx, dwMax := 1, 0;
      while dwIdx <= |listing|
        invariant 1 <= dwIdx <= |listing| + 1
        invariant messages == Numbered(listing[..dwIdx - 1])
        invariant maxUid == LastUid(listing[..dwIdx - 1], old(maxUid))
        invariant name == old(name) && readOnly == old(readOnly)
        invariant closeExpunge == old(closeExpunge) && uids == old(uids)
      {
        var row := listing[dwIdx - 1];
        NextRow(listing, dwIdx, old(maxUid));
        if row.uid > dwMax {
          maxUid := row.uid;
        }
        messages := messages[Print(dwIdx) := row];
        dwIdx := dwIdx + 1;
      }
      assert listing[..|listing|] == listing;
      LastUidSettles(listing, old(maxUid));
      rows := listing;
    }

    method UpdateMailboxInfoByDb(db: Db, folder: string, bReadOnly: bool)
      requires WellFormed(db)
      modifies this
      ensures Valid() && Now() == Refreshed(old(Now()), db, folder, bReadOnly)
    {
      FillMessageListByDb(db, folder);
      name, readOnly := "", false;
      if folder in db.described {
        name := folder;
        readOnly := bReadOnly;
      }
    }

    ghost function IdOf(key: string): int
      reads this
      requires key in messages
    {
      if uids then messages[key].uid else Atoi(key)
    }

    lemma {:induction false} IdsDiffer(key: string, other: string)
      requires Valid() && key in messages && other in messages && IdOf(other) == IdOf(key)
      ensures other == key
    {
      NumberedKey(rows, key);
      NumberedKey(rows, other);
    }

    lemma {:induction false} IdOfKey(key: string)
      requires Valid() && key in messages
      ensures IdOf(key) in Ids(Now())
      ensures forall other :: other in messages && IdOf(other) == IdOf(key) ==> other == key
    {
      NumberedKey(rows, key);
      MessageOfPosition(Now(), Atoi(key) - 1);
      forall other | other in messages && IdOf(other) == IdOf(key) ensures other == key {
        IdsDiffer(key, other);
      }
    }

    lemma KeyOfId(i: nat) returns (key: string)
      requires Valid() && i < |Ids(Now())|
      ensures key in messages && IdOf(key) == Ids(Now())[i]
    {
      key := Print(i + 1);
      NumberedAt(rows, i + 1);
      PrintInjective(i + 1, i + 1);
    }

    /** Reads the numbers or UIDs out of the map, in whatever order the map has them. */
    method MessageNums() returns (v: seq<int>)
      requires Valid()
      ensures DupFree(v) && forall x :: x in v <==> x in Ids(Now())
    {
      v := [];
      var todo := messages.Keys;
      while todo != {}
        invariant todo <= messages.Keys
        invariant DupFree(v) && forall x :: x in v ==> x in Ids(Now())
        invariant forall key :: key in messages && key !in todo ==> IdOf(key) in v
        invariant forall key :: key in todo ==> IdOf(key) !in v
        decreases |todo|
      {
        var key :| key in todo;
        IdOfKey(key);
        var id := if uids then messages[key].uid else Atoi(key);
        v := v + [id];
        todo := todo - {key};
      }
      forall x | x in Ids(Now()) ensures x in v {
        var i :| 0 <= i < |Ids(Now())| && Ids(Now())[i] == x;
        var key := KeyOfId(i);
      }
    }

    /** Expands a message set and cuts it down to the messages there are. */
    method RequestSet(messageSet: string, dwMax: int) returns (vRequestSet: seq<int>)
      requires Valid()
      ensures vRequestSet == Requested(Now(), MessageSets.Expand(messageSet, dwMax))
    {
      var v := MessageSets.ExpandMessageSequence(messageSet, dwMax);
      var vMessageNums := MessageNums();
      var first := new int[|v|](i requires 0 <= i < |v| => v[i]);
      var second := new int[|vMessageNums|](i requires 0 <= i < |vMessageNums| => vMessageNums[i]);
      assert first[..] == v && second[..] == vMessageNums;
      vRequestSet := Intersection.AtomsIntersection(first, second);
      Intersection.OneDupFreeIsEnough(v, vMessageNums);
      RequestedIsCommon(Now(), v);
      StrictUnique(vRequestSet, Requested(Now(), v));
    }

    lemma {:induction false} KeyIsPosition(key: string)
      requires Valid() && key in messages
      ensures 1 <= Atoi(key) <= |rows| && messages[key] == rows[Atoi(key) - 1]
      ensures IdOf(key) == if uids then rows[Atoi(key) - 1].uid else Atoi(key)
    {
      NumberedKey(rows, key);
    }

    lemma {:induction false} MessageOfKey(key: string, id: int)
      requires Valid() && key in messages && IdOf(key) == id && id in Ids(Now())
      ensures MessageOf(Now(), id) == messages[key]
    {
      KeyIsPosition(key);
      MessageOfPosition(Now(), Atoi(key) - 1);
    }

    /** Finds the cached message by number or by UID. */
    method Find(msgId: int) returns (msg: Message)
      requires Valid() && msgId in Ids(Now())
      ensures msg == MessageOf(Now(), msgId)
    {
      ghost var i :| 0 <= i < |Ids(Now())| && Ids(Now())[i] == msgId;
      ghost var at := KeyOfId(i);
      MessageOfKey(at, msgId);
      if !uids {
        NumberedKey(rows, at);
        return messages[Print(msgId)];
      }
      var todo := messages.Keys;
      while todo != {}
        invariant todo <= messages.Keys && at in todo
        decreases |todo|
      {
        var key :| key in todo;
        if messages[key].uid == msgId {
          MessageOfKey(key, msgId);
          return messages[key];
        }
        todo := todo - {key};
      }
    }

    /** Flag by flag: adding switches on what is named, removing switches it off, replacing leaves just that. */
    method EditFlags(before: set<MailFlag>, flags: set<MailFlag>, how: Method) returns (localFlags: set<MailFlag>)
      ensures forall flag ::
        (flag in localFlags
         <==> match how
              case Add => flag in before || flag in flags
              case Remove => flag in before && flag !in flags
              case Replace => flag in flags)
    {
      if how.Replace? {
        return flags;
      }
      localFlags := before;
      var todo := flags;
      while todo != {}
        invariant todo <= flags
        invariant how.Add? ==> localFlags == before + (flags - todo)
        invariant how.Remove? ==> localFlags == before - (flags - todo)
      {
        var flag :| flag in todo;
        if how.Add? {
          localFlags := localFlags + {flag};
        } else {
          localFlags := localFlags - {flag};
        }
        todo := todo - {flag};
      }
    }

    /** Edits a copy of the cached flags and writes them to the database; the cache is left as it is. */
    method StoreFlags(db: Db, msgId: int, flags: set<MailFlag>, how: Method) returns (r: Db)
      requires Valid() && msgId in Ids(Now())
      ensures r == Updated(db, MessageOf(Now(), msgId), flags, how)
    {
      var msg := Find(msgId);
      var localFlags := EditFlags(msg.flags, flags, how);
      ApplyFlag(msg.flags, flags, how);
      assert localFlags == Apply(msg.flags, flags, how);
      r := SetFlags(db, msg.url, localFlags);
    }

    method OnStore(db: Db, messageSet: string, flags: set<MailFlag>, how: Method) returns (refused: bool, r: Db)
      requires Valid()
      ensures refused == readOnly
      ensures refused ==> r == db
      ensures !refused ==>
        var ids := Requested(Now(), MessageSets.Expand(messageSet, if uids then maxUid else |rows|));
        (forall i :: 0 <= i < |ids| ==> ids[i] in Ids(Now())) && r == StoreEach(db, Now(), ids, flags, how)
    {
      if readOnly {
        return true, db;
      }
      NumberedSize(rows);
      var dwMax := if uids then maxUid else |messages|;
      var v := RequestSet(messageSet, dwMax);
      RequestedIsCommon(Now(), MessageSets.Expand(messageSet, dwMax));
      assert forall i :: 0 <= i < |v| ==> v[i] in v;
      refused := false;
      r := StoreAll(db, v, flags, how);
    }

    method StoreAll(db: Db, v: seq<int>, flags: set<MailFlag>, how: Method) returns (r: Db)
      requires Valid() && forall i :: 0 <= i < |v| ==> v[i] in Ids(Now())
      ensures r == StoreEach(db, Now(), v, flags, how)
    {
      ghost var c := Now();
      r := db;
      assert v[0..] == v;
      for i := 0 to |v|
        invariant StoreEach(r, c, v[i..], flags, how) == StoreEach(db, c, v, flags, how)
      {
        StoreEachStep(r, c, v, i, flags, how);
        r := StoreFlags(r, v[i], flags, how);
      }
    }

    method OnFetch(db: Db, messageSet: string) returns (v: seq<int>)
      requires Valid() && WellFormed(db)
      modifies this
      ensures Valid() && Now() == Refreshed(old(Now()), db, old(name), false)
      ensures v == Requested(Now(), MessageSets.Expand(messageSet, if uids then maxUid else |rows|))
    {
      UpdateMailboxInfoByDb(db, name, false);
      NumberedSize(rows);
      var dwMax := if uids then maxUid else |messages|;
      v := RequestSet(messageSet, dwMax);
    }

    /** NOOP refreshes when the database reports new messages, and then tells how many there are. The
        query answers with one count. */
    method OnNoop(db: Db, msgCount: int) returns (reported: Option<int>)
      requires Valid() && WellFormed(db)
      modifies this
      ensures Valid() && Now() == Nooped(old(Now()), db, msgCount != 0)
      ensures reported == if msgCount != 0 then Some(|rows|) else None
    {
      reported := None;
      if msgCount != 0 {
        UpdateMailboxInfoByDb(db, name, false);
        NumberedSize(rows);
        reported := Some(|messages|);
      }
    }

    /** The UIDs of the messages to copy. The limit is the number of messages under UID too. */
    method OnCopy(messageSet: string) returns (copied: seq<int>)
      requires Valid()
      ensures var ids := Requested(Now(), MessageSets.Expand(messageSet, |rows|));
        && (forall i :: 0 <= i < |ids| ==> ids[i] in Ids(Now()))
        && |copied| == |ids|
        && forall i :: 0 <= i < |ids| ==> copied[i] == MessageOf(Now(), ids[i]).uid
    {
      NumberedSize(rows);
      var v := RequestSet(messageSet, |messages|);
      RequestedIsCommon(Now(), MessageSets.Expand(messageSet, |messages|));
      assert forall i :: 0 <= i < |v| ==> v[i] in v;
      copied := UidsToCopy(v);
    }

    method UidsToCopy(v: seq<int>) returns (copied: seq<int>)
      requires Valid() && forall i :: 0 <= i < |v| ==> v[i] in Ids(Now())
      ensures |copied| == |v| && forall i :: 0 <= i < |v| ==> copied[i] == MessageOf(Now(), v[i]).uid
    {
      ghost var c := Now();
      ghost var wanted := seq(|v|, i requires 0 <= i < |v| && v[i] in Ids(c) => MessageOf(c, v[i]).uid);
      copied := [];
      for i := 0 to |v|
        invariant |copied| == i && forall k :: 0 <= k < i ==> copied[k] == wanted[k]
      {
        var uid := UidToCopy(v[i]);
        copied := copied + [uid];
      }
    }

    method UidToCopy(id: int) returns (uid: int)
      requires Valid() && id in Ids(Now())
      ensures uid == MessageOf(Now(), id).uid
    {
      var m := Find(id);
      uid := if uids then id else m.uid;
    }

    /** Numbers of the cached messages marked deleted, collected in the order of the map and sorted. */
    method DeletedNumbers() returns (v: seq<int>)
      requires Valid()
      ensures v == DeletedFrom(rows, 1)
    {
      v := [];
      var todo := messages.Keys;
      while todo != {}
        invariant todo <= messages.Keys && DupFree(v)
        invariant forall x :: x in v ==> exists key :: key in messages && key !in todo && Atoi(key) == x
        invariant forall key :: key in messages && key !in todo ==>
          (Atoi(key) in v <==> Deleted in messages[key].flags)
        decreases |todo|
      {
        var key :| key in todo;
        assert Atoi(key) !in v by {
          KeysDiffer();
        }
        if Deleted in messages[key].flags {
          v := v + [Atoi(key)];
        }
        KeysDiffer();
        todo := todo - {key};
      }
      DeletedExactly(v);
      v := Sort(v);
    }

    lemma KeysDiffer()
      requires Valid()
      ensures forall k, l :: k in messages && l in messages && Atoi(k) == Atoi(l) ==> k == l
    {
      forall k, l | k in messages && l in messages && Atoi(k) == Atoi(l) ensures k == l {
        NumberedKey(rows, k);
        NumberedKey(rows, l);
      }
    }

    lemma {:induction false} DeletedExactly(v: seq<int>)
      requires Valid() && DupFree(v)
      requires forall x :: x in v ==> exists key :: key in messages && Atoi(key) == x
      requires forall key :: key in messages ==> (Atoi(key) in v <==> Deleted in messages[key].flags)
      ensures Sort(v) == DeletedFrom(rows, 1)
    {
      SortSorts(v);
      Intersection.DupFreeSort(v);
      DeletedFromStrict(rows, 1);
      forall x ensures x in Sort(v) <==> x in DeletedFrom(rows, 1) {
        DeletedFromMembers(rows, 1, x);
        if x in v {
          var key :| key in messages && Atoi(key) == x;
          NumberedKey(rows, key);
        }
        if 1 <= x <= |rows| {
          NumberedAt(rows, x);
          PrintInjective(x, x);
        }
      }
      StrictUnique(Sort(v), DeletedFrom(rows, 1));
    }

    /** The numbers reported are taken from the cache, the deletion itself is the database's. */
    method OnExpunge(db: Db) returns (r: Db, reported: seq<int>)
      requires Valid() && WellFormed(db)
      modifies this
      ensures Valid() && r == Expunged(db, old(name))
      ensures Now() == AfterExpunge(old(Now()), db)
      ensures reported == if old(closeExpunge) then [] else Responses(DeletedFrom(old(rows), 1))
    {
      r := Expunged(db, name);
      ExpungedWellFormed(db, name);
      var v := DeletedNumbers();
      reported := [];
      if !closeExpunge {
        var dw := 0;
        while dw < |v|
          invariant dw <= |v| && reported == Responses(v)[..dw]
        {
          reported := reported + [v[dw] - dw];
          dw := dw + 1;
        }
        assert Responses(v)[..|v|] == Responses(v);
        UpdateMailboxInfoByDb(r, name, false);
      } else {
        messages, rows := map[], [];
        name, readOnly := "", false;
        closeExpunge := false;
      }
    }

    method OnClose()
      modifies this
      ensures Now() == old(Now()).(closeExpunge := true) && messages == old(messages)
    {
      closeExpunge := true;
    }

    /** SELECT and EXAMINE of a folder that exists. */
    method OnSelect(db: Db, folder: string, examine: bool)
      requires WellFormed(db)
      modifies this
      ensures Valid() && Now() == Refreshed(old(Now()), db, folder, examine)
    {
      UpdateMailboxInfoByDb(db, folder, examine);
    }

    /** STATUS keeps its own mailbox information, but fills the shared map. */
    method OnStatus(db: Db, folder: string)
      requires WellFormed(db)
      modifies this
      ensures Valid() && Now() == Filled(old(Now()), Rows(db, folder))
    {
      FillMessageListByDb(db, folder);
    }
  }

  lemma {:induction false} DeletedFromMembers(rows: seq<Message>, n: int, x: int)
    ensures x in DeletedFrom(rows, n) <==> n <= x < n + |rows| && Deleted in rows[x - n].flags
  {
    if rows != [] {
      var rest := rows[1..];
      DeletedFromMembers(rest, n + 1, x);
      if x == n {
        assert rows[x - n] == rows[0];
      } else if n < x < n + |rows| {
        assert rest[x - (n + 1)] == rows[x - n];
      }
    }
  }

  lemma {:induction false} DeletedFromStrict(rows: seq<Message>, n: int)
    ensures Strict(DeletedFrom(rows, n))
  {
    if rows != [] {
      DeletedFromStrict(rows[1..], n + 1);
      var rest := DeletedFrom(rows[1..], n + 1);
      forall i | 0 <= i < |rest| ensures n < rest[i] {
        DeletedFromMembers(rows[1..], n + 1, rest[i]);
      }
    }
  }

  lemma {:induction false} KeptKeyed(rows: seq<Message>)
    requires Keyed(rows)
    ensures Keyed(Kept(rows))
  {
    if rows != [] {
      KeptKeyed(rows[1..]);
      var rest := Kept(rows[1..]);
      forall i | 0 <= i < |rest| ensures rows[0].uid != rest[i].uid && rows[0].url != rest[i].url {
        KeptMembers(rows[1..], rest[i]);
        var k :| 0 <= k < |rows[1..]| && rows[1..][k] == rest[i];
        assert rows[k + 1] == rest[i];
      }
      KeyedCons(rows[0], rest);
    }
  }

  lemma KeyedCons(m: Message, rest: seq<Message>)
    requires Keyed(rest) && forall i :: 0 <= i < |rest| ==> m.uid != rest[i].uid && m.url != rest[i].url
    ensures Keyed([m] + rest)
  {
  }

  lemma ExpungedWellFormed(db: Db, folder: string)
    requires WellFormed(db)
    ensures WellFormed(Expunged(db, folder))
  {
    if folder in db.folders {
      KeptKeyed(db.folders[folder]);
    }
  }
}
