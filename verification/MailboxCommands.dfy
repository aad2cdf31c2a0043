/** What FETCH, COPY, STORE and EXPUNGE do: the messages a set touches, the flags a STORE leaves in the
    table, and the client's list after the EXPUNGE responses. */
module MailboxCommands {
  import opened Text
  import opened Vectors
  import MessageSets
  import opened MailboxCache

  // ----- which messages a message set touches -----

  lemma RequestedStrict(c: Cache, expanded: seq<int>)
    requires Keyed(c.rows)
    ensures Strict(Requested(c, expanded))
    ensures forall x :: x in Requested(c, expanded) <==> x != 0 && x in expanded && x in Ids(c)
  {
    RequestedIsCommon(c, expanded);
  }

  /** FETCH, STORE and COPY by number: the strictly ascending list of exactly the numbers from 1 to N that
      some item touches. */
  lemma {:induction false} NumberRequests(c: Cache, items: seq<MessageSets.Item>, m: int)
    requires Keyed(c.rows) && !c.uids
    ensures var v := Requested(c, MessageSets.Expand(MessageSets.RenderAll(items), |c.rows|));
            Strict(v) && (m in v <==> 1 <= m <= |c.rows| && MessageSets.SomeItemTouches(items, m))
  {
    RequestedStrict(c, MessageSets.Expand(MessageSets.RenderAll(items), |c.rows|));
    MessageSets.RangeMembers(1, |c.rows|);
    if 1 <= m <= |c.rows| {
      MessageSets.ExpandDenotes(items, |c.rows|, m);
    }
  }

  /** And it is the RFC's list when every item is read alike. */
  lemma {:induction false} NumberRequestsRfc(c: Cache, items: seq<MessageSets.Item>, m: int)
    requires Keyed(c.rows) && !c.uids
    requires forall i :: 0 <= i < |items| ==> MessageSets.ReadAlike(items[i], |c.rows|)
    ensures m in Requested(c, MessageSets.Expand(MessageSets.RenderAll(items), |c.rows|))
       <==> 1 <= m <= |c.rows| && MessageSets.SomeItemDenotes(items, m, |c.rows|)
  {
    NumberRequests(c, items, m);
    if 1 <= m <= |c.rows| {
      MessageSets.ExpandDenotes(items, |c.rows|, m);
      MessageSets.ExpandAgreesWithRfc(items, |c.rows|, m);
    }
  }

  /** The last row, if there is one, has the largest UID, as it has when rows come in ascending order. */
  ghost predicate LastIsLargest(rows: seq<Message>) {
    forall i :: 0 <= i < |rows| ==> rows[i].uid <= rows[|rows| - 1].uid
  }

  ghost predicate PositiveUids(rows: seq<Message>) {
    forall i :: 0 <= i < |rows| ==> rows[i].uid > 0
  }

  lemma AscendingEndsLargest(rows: seq<Message>)
    requires Strict(Uids(rows))
    ensures LastIsLargest(rows)
  {
    assert forall i :: 0 <= i < |rows| - 1 ==> Uids(rows)[i] < Uids(rows)[|rows| - 1];
  }

  /** FETCH and STORE by UID, after a refill whose last row had the largest UID. */
  lemma {:induction false} UidRequests(before: Cache, rows: seq<Message>, items: seq<MessageSets.Item>, u: int)
    requires Keyed(rows) && PositiveUids(rows) && LastIsLargest(rows) && before.uids
    ensures var c := Filled(before, rows);
            var v := Requested(c, MessageSets.Expand(MessageSets.RenderAll(items), c.maxUid));
            Strict(v) && (u in v <==> u in Uids(rows) && MessageSets.SomeItemTouches(items, u))
  {
    var c := Filled(before, rows);
    RequestedStrict(c, MessageSets.Expand(MessageSets.RenderAll(items), c.maxUid));
    if u in Uids(rows) {
      var i :| 0 <= i < |rows| && Uids(rows)[i] == u;
      assert c.maxUid == rows[|rows| - 1].uid && rows[i].uid == u;
      MessageSets.ExpandDenotes(items, c.maxUid, u);
    }
  }

  /** When the code's reading of an item under UID agrees with the RFC's, given the UIDs in use. */
  ghost predicate ReadAlikeByUid(item: MessageSets.Item, rows: seq<Message>) {
    rows == [] ||
    match item
    case One(_) => true
    case Closed(a, b) => a <= b || forall i :: 0 <= i < |rows| ==> !(b <= rows[i].uid <= a)
    case From(a) => a <= rows[|rows| - 1].uid
    case Star => false
    case StarTo(b) => |rows| == 1 && b >= rows[0].uid
    case StarStar => |rows| == 1
  }

  /** An item means the same under both readings, among the UIDs in use. */
  ghost predicate AgreesOnUids(item: MessageSets.Item, rows: seq<Message>)
    requires rows != []
  {
    forall i :: 0 <= i < |rows| ==>
      (MessageSets.Touches(item, rows[i].uid)
       <==> MessageSets.RfcDenotes(item, rows[i].uid, rows[|rows| - 1].uid))
  }

  lemma ReadAlikeByUidExact(item: MessageSets.Item, rows: seq<Message>)
    requires rows != [] && Keyed(rows) && PositiveUids(rows) && LastIsLargest(rows)
    ensures ReadAlikeByUid(item, rows) <==> AgreesOnUids(item, rows)
  {
    var last := rows[|rows| - 1].uid;
    if |rows| > 1 {
      assert rows[0].uid < last;
    }
    if AgreesOnUids(item, rows) {
      assert MessageSets.Touches(item, last) <==> MessageSets.RfcDenotes(item, last, last);
      assert MessageSets.Touches(item, rows[0].uid) <==> MessageSets.RfcDenotes(item, rows[0].uid, last);
    }
  }

  /** And the RFC's UIDs when every item is read alike. */
  lemma {:induction false} UidRequestsRfc(before: Cache, rows: seq<Message>, items: seq<MessageSets.Item>, u: int)
    requires rows != [] && Keyed(rows) && PositiveUids(rows) && LastIsLargest(rows) && before.uids
    requires forall k :: 0 <= k < |items| ==> ReadAlikeByUid(items[k], rows)
    ensures var c := Filled(before, rows);
            var v := Requested(c, MessageSets.Expand(MessageSets.RenderAll(items), c.maxUid));
            u in v <==> u in Uids(rows) && MessageSets.SomeItemDenotes(items, u, rows[|rows| - 1].uid)
  {
    UidRequests(before, rows, items, u);
    if u in Uids(rows) {
      var i :| 0 <= i < |rows| && Uids(rows)[i] == u;
      forall k | 0 <= k < |items|
        ensures MessageSets.Touches(items[k], u) <==> MessageSets.RfcDenotes(items[k], u, rows[|rows| - 1].uid)
      {
        ReadAlikeByUidExact(items[k], rows);
        assert rows[i].uid == u;
      }
    }
  }

  ghost predicate TouchesAll(c: Cache, text: string) {
    forall i :: 0 <= i < |c.rows| ==> c.rows[i].uid in Requested(c, MessageSets.Expand(text, c.maxUid))
  }

  lemma AllByUidAt(c: Cache, i: nat)
    requires Keyed(c.rows) && c.uids && i < |c.rows| && c.rows[i].uid > 0 && c.maxUid > 0
    ensures c.rows[i].uid in
        Requested(c, MessageSets.Expand(MessageSets.RenderAll([MessageSets.From(1)]), c.maxUid))
       <==> c.rows[i].uid <= c.maxUid
  {
    var items, u := [MessageSets.From(1)], c.rows[i].uid;
    RequestedStrict(c, MessageSets.Expand(MessageSets.RenderAll(items), c.maxUid));
    assert Ids(c)[i] == u;
    if u <= c.maxUid {
      MessageSets.ExpandDenotes(items, c.maxUid, u);
      assert MessageSets.Touches(items[0], u);
    } else {
      AboveLimit(c.maxUid, u);
    }
  }

  /** The limit under UID is the last row's UID. `1:*` asks for every message exactly when that is the
      largest one. */
  lemma AllByUidExactly(before: Cache, rows: seq<Message>)
    requires Keyed(rows) && PositiveUids(rows) && before.uids && rows != []
    ensures TouchesAll(Filled(before, rows), MessageSets.RenderAll([MessageSets.From(1)]))
       <==> LastIsLargest(rows)
  {
    var c := Filled(before, rows);
    assert c.maxUid == rows[|rows| - 1].uid;
    forall i | 0 <= i < |rows|
      ensures c.rows[i].uid in
          Requested(c, MessageSets.Expand(MessageSets.RenderAll([MessageSets.From(1)]), c.maxUid))
         <==> rows[i].uid <= c.maxUid
    {
      AllByUidAt(c, i);
    }
  }

  lemma AboveLimit(limit: nat, u: int)
    requires u > limit
    ensures u !in MessageSets.Expand(MessageSets.RenderAll([MessageSets.From(1)]), limit)
  {
    var items := [MessageSets.From(1)];
    MessageSets.TokensOfRenderAll(items);
    MessageSets.ValuesOfMembers(MessageSets.Renders(items), limit, u);
    MessageSets.FromItem(1, limit, u);
  }

  // ----- STORE -----

  lemma {:induction false} DifferentUrls(c: Cache, a: int, b: int)
    requires Keyed(c.rows) && a in Ids(c) && b in Ids(c) && a != b
    ensures MessageOf(c, a).url != MessageOf(c, b).url
  {
    var i :| 0 <= i < |Ids(c)| && Ids(c)[i] == a;
    var j :| 0 <= j < |Ids(c)| && Ids(c)[j] == b;
    MessageOfPosition(c, i);
    MessageOfPosition(c, j);
  }

  /** A row none of whose namesakes is requested keeps its flags. */
  lemma {:induction false} StoreSpares(
      db: Db, c: Cache, ids: seq<int>, flags: set<MailFlag>, how: Method, folder: string, i: nat)
    requires forall k :: 0 <= k < |ids| ==> ids[k] in Ids(c)
    requires i < |Rows(db, folder)|
    requires forall k :: 0 <= k < |ids| ==> MessageOf(c, ids[k]).url != Rows(db, folder)[i].url
    ensures |Rows(StoreEach(db, c, ids, flags, how), folder)| == |Rows(db, folder)|
    ensures Rows(StoreEach(db, c, ids, flags, how), folder)[i] == Rows(db, folder)[i]
    decreases |ids|
  {
    if ids != [] {
      var next := Updated(db, MessageOf(c, ids[0]), flags, how);
      assert Rows(next, folder)[i] == Rows(db, folder)[i];
      StoreSpares(next, c, ids[1..], flags, how, folder, i);
    }
  }

  /** A row with the URL of a requested message gets the flags computed from that message's cached ones,
      and nothing else of it changes. */
  lemma {:induction false} StoreSets(
      db: Db, c: Cache, ids: seq<int>, flags: set<MailFlag>, how: Method, folder: string, i: nat, id: int)
    requires Keyed(c.rows) && forall k :: 0 <= k < |ids| ==> ids[k] in Ids(c)
    requires i < |Rows(db, folder)| && id in ids && MessageOf(c, id).url == Rows(db, folder)[i].url
    ensures |Rows(StoreEach(db, c, ids, flags, how), folder)| == |Rows(db, folder)|
    ensures Rows(StoreEach(db, c, ids, flags, how), folder)[i]
         == Rows(db, folder)[i].(flags := Apply(MessageOf(c, id).flags, flags, how))
    decreases |ids|
  {
    var next := Updated(db, MessageOf(c, ids[0]), flags, how);
    assert Rows(next, folder)[i].url == Rows(db, folder)[i].url;
    if id in ids[1..] {
      StoreSets(next, c, ids[1..], flags, how, folder, i, id);
    } else {
      forall k | 0 <= k < |ids[1..]| ensures MessageOf(c, ids[1..][k]).url != Rows(db, folder)[i].url {
        DifferentUrls(c, id, ids[1..][k]);
      }
      StoreSpares(next, c, ids[1..], flags, how, folder, i);
    }
  }

  lemma {:induction false} StoreSizes(
      db: Db, c: Cache, ids: seq<int>, flags: set<MailFlag>, how: Method, folder: string)
    requires forall k :: 0 <= k < |ids| ==> ids[k] in Ids(c)
    ensures |Rows(StoreEach(db, c, ids, flags, how), folder)| == |Rows(db, folder)|
    decreases |ids|
  {
    if ids != [] {
      StoreSizes(Updated(db, MessageOf(c, ids[0]), flags, how), c, ids[1..], flags, how, folder);
    }
  }

  /** The rows of the folder that the cache was filled from. */
  lemma {:induction false} StoreSelected(
      db: Db, c: Cache, ids: seq<int>, flags: set<MailFlag>, how: Method, folder: string, i: nat)
    requires Keyed(c.rows) && Rows(db, folder) == c.rows && i < |c.rows|
    requires forall k :: 0 <= k < |ids| ==> ids[k] in Ids(c)
    ensures |Ids(c)| == |c.rows| == |Rows(StoreEach(db, c, ids, flags, how), folder)|
    ensures Rows(StoreEach(db, c, ids, flags, how), folder)[i]
         == if Ids(c)[i] in ids then c.rows[i].(flags := Apply(c.rows[i].flags, flags, how)) else c.rows[i]
  {
    MessageOfPosition(c, i);
    if Ids(c)[i] in ids {
      StoreSets(db, c, ids, flags, how, folder, i, Ids(c)[i]);
    } else {
      forall k | 0 <= k < |ids| ensures MessageOf(c, ids[k]).url != c.rows[i].url {
        OtherUrl(c, i, ids[k]);
      }
      StoreSpares(db, c, ids, flags, how, folder, i);
    }
  }

  /** The row is a copy of a requested message: the same URL, in whatever folder. */
  ghost predicate CopyOfRequested(c: Cache, ids: seq<int>, row: Message)
    requires |Ids(c)| == |c.rows|
  {
    exists i :: 0 <= i < |c.rows| && Ids(c)[i] in ids && c.rows[i].url == row.url
  }

  lemma {:induction false} OthersKeepFlags(
      db: Db, c: Cache, ids: seq<int>, flags: set<MailFlag>, how: Method, other: string, j: nat)
    requires Keyed(c.rows) && j < |Rows(db, other)| && |Ids(c)| == |c.rows|
    requires forall k :: 0 <= k < |ids| ==> ids[k] in Ids(c)
    requires !CopyOfRequested(c, ids, Rows(db, other)[j])
    ensures |Rows(StoreEach(db, c, ids, flags, how), other)| == |Rows(db, other)|
    ensures Rows(StoreEach(db, c, ids, flags, how), other)[j] == Rows(db, other)[j]
  {
    forall k | 0 <= k < |ids| ensures MessageOf(c, ids[k]).url != Rows(db, other)[j].url {
      var i :| 0 <= i < |Ids(c)| && Ids(c)[i] == ids[k];
      MessageOfPosition(c, i);
    }
    StoreSpares(db, c, ids, flags, how, other, j);
  }

  lemma {:induction false} CopiesFollow(
      db: Db, c: Cache, ids: seq<int>, flags: set<MailFlag>, how: Method, other: string, j: nat, i: nat)
    requires Keyed(c.rows) && j < |Rows(db, other)| && i < |c.rows| == |Ids(c)|
    requires forall k :: 0 <= k < |ids| ==> ids[k] in Ids(c)
    requires Ids(c)[i] in ids && c.rows[i].url == Rows(db, other)[j].url
    ensures |Rows(StoreEach(db, c, ids, flags, how), other)| == |Rows(db, other)|
    ensures Rows(StoreEach(db, c, ids, flags, how), other)[j]
         == Rows(db, other)[j].(flags := Apply(c.rows[i].flags, flags, how))
  {
    MessageOfPosition(c, i);
    StoreSets(db, c, ids, flags, how, other, j, Ids(c)[i]);
  }

  /** In the folder of the cache: the union, the difference or the replacement for each requested message,
      and every other row as it was. */
  ghost predicate StoredHere(r: Db, c: Cache, ids: seq<int>, flags: set<MailFlag>, how: Method, folder: string) {
    && |Ids(c)| == |c.rows| == |Rows(r, folder)|
    && forall i :: 0 <= i < |c.rows| ==>
         Rows(r, folder)[i]
           == if Ids(c)[i] in ids then c.rows[i].(flags := Apply(c.rows[i].flags, flags, how)) else c.rows[i]
  }

  /** In any folder: a copy of a requested message gets the flags that message gets, every other row is left
      as it was. */
  ghost predicate StoredThere(
      r: Db, db: Db, c: Cache, ids: seq<int>, flags: set<MailFlag>, how: Method, other: string)
    requires |Ids(c)| == |c.rows|
  {
    && |Rows(r, other)| == |Rows(db, other)|
    && forall j :: 0 <= j < |Rows(db, other)| ==>
         && (!CopyOfRequested(c, ids, Rows(db, other)[j]) ==> Rows(r, other)[j] == Rows(db, other)[j])
         && forall i :: 0 <= i < |c.rows| && Ids(c)[i] in ids && c.rows[i].url == Rows(db, other)[j].url ==>
              Rows(r, other)[j] == Rows(db, other)[j].(flags := Apply(c.rows[i].flags, flags, how))
  }

  lemma {:induction false} StoreReaches(
      db: Db, c: Cache, ids: seq<int>, flags: set<MailFlag>, how: Method, other: string)
    requires Keyed(c.rows) && |Ids(c)| == |c.rows| && forall k :: 0 <= k < |ids| ==> ids[k] in Ids(c)
    ensures StoredThere(StoreEach(db, c, ids, flags, how), db, c, ids, flags, how, other)
  {
    var r := StoreEach(db, c, ids, flags, how);
    StoreSizes(db, c, ids, flags, how, other);
    forall j | 0 <= j < |Rows(db, other)| && !CopyOfRequested(c, ids, Rows(db, other)[j])
      ensures Rows(r, other)[j] == Rows(db, other)[j]
    {
      OthersKeepFlags(db, c, ids, flags, how, other, j);
    }
    forall i, j | 0 <= j < |Rows(db, other)| && 0 <= i < |c.rows| && Ids(c)[i] in ids
        && c.rows[i].url == Rows(db, other)[j].url
      ensures Rows(r, other)[j] == Rows(db, other)[j].(flags := Apply(c.rows[i].flags, flags, how))
    {
      CopiesFollow(db, c, ids, flags, how, other, j, i);
    }
  }

  /** From a cache that agrees with the table, one STORE over any set of numbers or UIDs leaves, for each
      requested message, the union, the difference or the replacement, and every other row of the folder
      as it was. In the other folders exactly the copies of requested messages follow. */
  lemma {:induction false} StoreEffect(
      db: Db, c: Cache, ids: seq<int>, flags: set<MailFlag>, how: Method, folder: string)
    requires Keyed(c.rows) && Rows(db, folder) == c.rows
    requires forall k :: 0 <= k < |ids| ==> ids[k] in Ids(c)
    ensures StoredHere(StoreEach(db, c, ids, flags, how), c, ids, flags, how, folder)
    ensures forall other :: StoredThere(StoreEach(db, c, ids, flags, how), db, c, ids, flags, how, other)
  {
    var r := StoreEach(db, c, ids, flags, how);
    StoreSizes(db, c, ids, flags, how, folder);
    forall i | 0 <= i < |c.rows|
      ensures Rows(r, folder)[i]
           == if Ids(c)[i] in ids then c.rows[i].(flags := Apply(c.rows[i].flags, flags, how)) else c.rows[i]
    {
      StoreSelected(db, c, ids, flags, how, folder, i);
    }
    forall other ensures StoredThere(r, db, c, ids, flags, how, other) {
      StoreReaches(db, c, ids, flags, how, other);
    }
  }

  lemma OtherUrl(c: Cache, i: nat, id: int)
    requires Keyed(c.rows) && i < |c.rows| && id in Ids(c)
    requires |Ids(c)| == |c.rows| && id != Ids(c)[i]
    ensures MessageOf(c, id).url != c.rows[i].url
  {
    var j :| 0 <= j < |Ids(c)| && Ids(c)[j] == id;
    MessageOfPosition(c, j);
  }

  /** The cache is not updated, so a second STORE starts from the flags before the first, whose effect on a
      message that both request is lost. */
  lemma {:induction false} SecondStoreWins(
      db: Db, c: Cache, first: seq<int>, f: set<MailFlag>, how1: Method,
      second: seq<int>, g: set<MailFlag>, how2: Method, folder: string, i: nat)
    requires Keyed(c.rows) && Rows(db, folder) == c.rows && i < |c.rows|
    requires forall k :: 0 <= k < |first| ==> first[k] in Ids(c)
    requires forall k :: 0 <= k < |second| ==> second[k] in Ids(c)
    requires |Ids(c)| == |c.rows| && Ids(c)[i] in first && Ids(c)[i] in second
    ensures var r := StoreEach(StoreEach(db, c, first, f, how1), c, second, g, how2);
            |Rows(r, folder)| == |c.rows| && Rows(r, folder)[i].flags == Apply(c.rows[i].flags, g, how2)
  {
    MessageOfPosition(c, i);
    StoreSelected(db, c, first, f, how1, folder, i);
    StoreSets(StoreEach(db, c, first, f, how1), c, second, g, how2, folder, i, Ids(c)[i]);
  }

  function Changed(a: set<MailFlag>, b: set<MailFlag>): set<MailFlag> {
    (a - b) + (b - a)
  }

  /** What is left is what one STORE after the other should leave exactly when the second replaces the
      flags or names every flag that the first changed. */
  lemma StoresComposeExactly(before: set<MailFlag>, f: set<MailFlag>, how1: Method, g: set<MailFlag>, how2: Method)
    ensures Apply(before, g, how2) == Apply(Apply(before, f, how1), g, how2)
       <==> how2.Replace? || Changed(before, Apply(before, f, how1)) <= g
  {
    var now := Apply(before, f, how1);
    var without, with := Apply(before, g, how2), Apply(now, g, how2);
    if !how2.Replace? {
      assert forall x :: x !in g ==> (x in without <==> x in before) && (x in with <==> x in now);
      assert forall x :: x in g ==> (x in without <==> x in with);
      if without == with {
        forall x | x in Changed(before, now) ensures x in g {
          assert x in without <==> x in with;
        }
      }
      if Changed(before, now) <= g {
        forall x ensures x in without <==> x in with {
          assert x !in g ==> x !in Changed(before, now);
        }
      }
    }
  }

  // ----- EXPUNGE -----

  /** The client deletes the message with the number in a response, and renumbers. */
  function Replay<T>(list: seq<T>, responses: seq<int>): Option<seq<T>>
    decreases |responses|
  {
    if responses == [] then Some(list)
    else if 1 <= responses[0] <= |list| then
      Replay(list[..responses[0] - 1] + list[responses[0]..], responses[1..])
    else None
  }

  /** Responses for the rows from position `at` of the shrinking list on. */
  function ResponsesFrom(rows: seq<Message>, at: int): seq<int> {
    if rows == [] then []
    else if Deleted in rows[0].flags then [at] + ResponsesFrom(rows[1..], at)
    else ResponsesFrom(rows[1..], at + 1)
  }

  lemma {:induction false} LoweredNumbers(rows: seq<Message>, n: int, done: int)
    ensures var v := DeletedFrom(rows, n);
            |ResponsesFrom(rows, n - done)| == |v|
            && forall k :: 0 <= k < |v| ==> ResponsesFrom(rows, n - done)[k] == v[k] - (done + k)
  {
    if rows != [] {
      if Deleted in rows[0].flags {
        LoweredNumbers(rows[1..], n + 1, done + 1);
      } else {
        LoweredNumbers(rows[1..], n + 1, done);
      }
    }
  }

  lemma {:induction false} ResponsesAreLowered(rows: seq<Message>)
    ensures Responses(DeletedFrom(rows, 1)) == ResponsesFrom(rows, 1)
  {
    LoweredNumbers(rows, 1, 0);
  }

  lemma UidsCons(m: Message, rest: seq<Message>)
    ensures Uids([m] + rest) == [m.uid] + Uids(rest)
  {
  }

  /** One response takes the element behind the untouched front. */
  lemma {:induction false} ReplayOne(front: seq<int>, x: int, rest: seq<int>, responses: seq<int>)
    ensures Replay(front + [x] + rest, [|front| + 1] + responses) == Replay(front + rest, responses)
  {
    var list := front + [x] + rest;
    assert list[..|front|] == front && list[|front| + 1..] == rest;
    assert ([|front| + 1] + responses)[1..] == responses;
  }

  ghost predicate Replays(front: seq<int>, rows: seq<Message>) {
    Replay(front + Uids(rows), ResponsesFrom(rows, |front| + 1)) == Some(front + Uids(Kept(rows)))
  }

  lemma ReplayDeleted(front: seq<int>, first: Message, rest: seq<Message>)
    requires Deleted in first.flags && Replays(front, rest)
    ensures Replays(front, [first] + rest)
  {
    var rows := [first] + rest;
    assert rows[1..] == rest;
    UidsCons(first, rest);
    assert front + Uids(rows) == front + [first.uid] + Uids(rest);
    ReplayOne(front, first.uid, Uids(rest), ResponsesFrom(rest, |front| + 1));
  }

  lemma IntoFront(front: seq<int>, x: int, rest: seq<int>)
    ensures front + ([x] + rest) == (front + [x]) + rest
  {
  }

  lemma {:induction false} FirstKept(first: Message, rest: seq<Message>, at: int)
    requires Deleted !in first.flags
    ensures Uids([first] + rest) == [first.uid] + Uids(rest)
    ensures Uids(Kept([first] + rest)) == [first.uid] + Uids(Kept(rest))
    ensures ResponsesFrom([first] + rest, at) == ResponsesFrom(rest, at + 1)
  {
    assert ([first] + rest)[1..] == rest;
    UidsCons(first, rest);
    UidsCons(first, Kept(rest));
  }

  lemma ReplayKept(front: seq<int>, first: Message, rest: seq<Message>)
    requires Deleted !in first.flags && Replays(front + [first.uid], rest)
    ensures Replays(front, [first] + rest)
  {
    FirstKept(first, rest, |front| + 1);
    IntoFront(front, first.uid, Uids(rest));
    IntoFront(front, first.uid, Uids(Kept(rest)));
  }

  lemma {:induction false} ReplayFrom(front: seq<int>, rows: seq<Message>)
    ensures Replays(front, rows)
    decreases |rows|
  {
    if rows != [] {
      var first, rest := rows[0], rows[1..];
      assert rows == [first] + rest;
      if Deleted in first.flags {
        ReplayFrom(front, rest);
        ReplayDeleted(front, first, rest);
      } else {
        ReplayFrom(front + [first.uid], rest);
        ReplayKept(front, first, rest);
      }
    }
  }

  /** Replaying the EXPUNGE responses in order on the client's list keeps every index in range and ends
      with exactly the cached messages that are not marked deleted, in order. */
  lemma {:induction false} ExpungeReplay(rows: seq<Message>)
    ensures Replay(Uids(rows), Responses(DeletedFrom(rows, 1))) == Some(Uids(Kept(rows)))
  {
    ResponsesAreLowered(rows);
    ReplayFrom([], rows);
    NoFront(Uids(rows));
    NoFront(Uids(Kept(rows)));
  }

  lemma {:induction false} NoFront(list: seq<int>)
    ensures [] + list == list
  {
  }

  /** The same messages, whatever their flags. */
  ghost predicate SameMessages(a: seq<Message>, b: seq<Message>) {
    |a| == |b| && forall i :: 0 <= i < |a| ==> a[i].uid == b[i].uid
  }

  predicate SameDeleted(a: seq<Message>, b: seq<Message>)
    requires |a| == |b|
  {
    forall i :: 0 <= i < |a| ==> (Deleted in a[i].flags <==> Deleted in b[i].flags)
  }

  lemma {:induction false} KeptUid(rows: seq<Message>, i: nat)
    requires Keyed(rows) && i < |rows|
    ensures rows[i].uid in Uids(Kept(rows)) <==> Deleted !in rows[i].flags
  {
    KeptMembers(rows, rows[i]);
    if Deleted !in rows[i].flags {
      var k :| 0 <= k < |Kept(rows)| && Kept(rows)[k] == rows[i];
      assert Uids(Kept(rows))[k] == rows[i].uid;
    }
    if rows[i].uid in Uids(Kept(rows)) {
      var k :| 0 <= k < |Kept(rows)| && Uids(Kept(rows))[k] == rows[i].uid;
      KeptMembers(rows, Kept(rows)[k]);
      var j :| 0 <= j < |rows| && rows[j] == Kept(rows)[k];
      assert j == i;
    }
  }

  lemma {:induction false} SameKept(a: seq<Message>, b: seq<Message>)
    requires SameMessages(a, b) && SameDeleted(a, b)
    ensures Uids(Kept(a)) == Uids(Kept(b))
  {
    if a != [] {
      SameKept(a[1..], b[1..]);
      UidsCons(a[0], Kept(a[1..]));
      UidsCons(b[0], Kept(b[1..]));
    }
  }

  /** After EXPUNGE the client's list equals the renumbered listing that the server refills from exactly
      when cache and table agreed on which messages are deleted. */
  lemma ExpungeAgreesExactly(c: Cache, db: Db)
    requires Keyed(c.rows) && WellFormed(db) && !c.closeExpunge && c.name in db.folders
    requires SameMessages(c.rows, Rows(db, c.name))
    ensures Replay(Uids(c.rows), Responses(DeletedFrom(c.rows, 1))) == Some(Uids(AfterExpunge(c, db).rows))
       <==> SameDeleted(c.rows, Rows(db, c.name))
  {
    var table := Rows(db, c.name);
    ExpungeReplay(c.rows);
    assert AfterExpunge(c, db).rows == Kept(table);
    if SameDeleted(c.rows, table) {
      SameKept(c.rows, table);
    }
    if Uids(Kept(c.rows)) == Uids(Kept(table)) {
      forall i | 0 <= i < |table| ensures Deleted in c.rows[i].flags <==> Deleted in table[i].flags {
        KeptUid(c.rows, i);
        KeptUid(table, i);
      }
    }
  }

  /** A STORE that marks a message deleted followed by EXPUNGE with no refresh between: the message goes
      from the listing, but no response says so. */
  lemma {:induction false} StoreThenExpungeIsSilent(c: Cache, db: Db, ids: seq<int>, i: nat)
    requires Keyed(c.rows) && WellFormed(db) && !c.closeExpunge && c.name in db.folders
    requires Rows(db, c.name) == c.rows && i < |c.rows| && DeletedFrom(c.rows, 1) == []
    requires forall k :: 0 <= k < |ids| ==> ids[k] in Ids(c)
    requires |Ids(c)| == |c.rows| && Ids(c)[i] in ids
    ensures var stored := StoreEach(db, c, ids, {Deleted}, Add);
            && Responses(DeletedFrom(c.rows, 1)) == []
            && c.rows[i].uid in Uids(c.rows)
            && c.rows[i].uid !in Uids(AfterExpunge(c, stored).rows)
  {
    var stored := StoreEach(db, c, ids, {Deleted}, Add);
    var table := Rows(stored, c.name);
    StoreSizes(db, c, ids, {Deleted}, Add, c.name);
    forall k | 0 <= k < |c.rows| ensures table[k].uid == c.rows[k].uid && table[k].url == c.rows[k].url {
      StoreSelected(db, c, ids, {Deleted}, Add, c.name, k);
    }
    StoreSelected(db, c, ids, {Deleted}, Add, c.name, i);
    assert Keyed(table);
    KeptUid(table, i);
    assert Uids(c.rows)[i] == c.rows[i].uid;
    assert AfterExpunge(c, stored).rows == Kept(table);
  }

  // ----- the commands on rendered sets -----

  /** The request vector: by number exactly the m in 1..N that some item touches; by UID, when the last row
      has the largest, exactly the UIDs that some item touches; strictly ascending. */
  ghost predicate TouchesExactly(uids: bool, rows: seq<Message>, items: seq<MessageSets.Item>, v: seq<int>) {
    && Strict(v)
    && (!uids ==> forall m :: m in v <==> 1 <= m <= |rows| && MessageSets.SomeItemTouches(items, m))
    && (uids && PositiveUids(rows) && LastIsLargest(rows) ==>
          forall u :: u in v <==> (exists i :: 0 <= i < |rows| && rows[i].uid == u)
                                  && MessageSets.SomeItemTouches(items, u))
  }

  lemma {:induction false} RequestTouches(c: Cache, items: seq<MessageSets.Item>)
    requires Keyed(c.rows) && c.maxUid == LastUid(c.rows, c.maxUid)
    ensures var text := MessageSets.RenderAll(items);
            TouchesExactly(c.uids, c.rows, items,
                           Requested(c, MessageSets.Expand(text, if c.uids then c.maxUid else |c.rows|)))
  {
    var text := MessageSets.RenderAll(items);
    var v := Requested(c, MessageSets.Expand(text, if c.uids then c.maxUid else |c.rows|));
    RequestedStrict(c, MessageSets.Expand(text, if c.uids then c.maxUid else |c.rows|));
    if !c.uids {
      forall m ensures m in v <==> 1 <= m <= |c.rows| && MessageSets.SomeItemTouches(items, m) {
        NumberRequests(c, items, m);
      }
    } else if PositiveUids(c.rows) && LastIsLargest(c.rows) {
      assert Filled(c, c.rows) == c;
      forall u
        ensures u in v <==> (exists i :: 0 <= i < |c.rows| && c.rows[i].uid == u)
                            && MessageSets.SomeItemTouches(items, u)
      {
        UidRequests(c, c.rows, items, u);
        UidInRows(c.rows, u);
      }
    }
  }

  lemma {:induction false} UidInRows(rows: seq<Message>, u: int)
    ensures u in Uids(rows) <==> exists i :: 0 <= i < |rows| && rows[i].uid == u
  {
    if i :| 0 <= i < |rows| && rows[i].uid == u {
      assert Uids(rows)[i] == u;
    }
  }

  /** FETCH of a rendered set, over the listing that it has just read. */
  method Fetch(manager: Manager, db: Db, items: seq<MessageSets.Item>) returns (v: seq<int>)
    requires manager.Valid() && WellFormed(db)
    modifies manager
    ensures manager.Valid() && manager.rows == Rows(db, old(manager.name)) && manager.uids == old(manager.uids)
    ensures TouchesExactly(manager.uids, manager.rows, items, v)
  {
    v := manager.OnFetch(db, MessageSets.RenderAll(items));
    RequestTouches(manager.Now(), items);
  }

  /** The i-th row is asked for: by its number, or by its UID. */
  ghost predicate RowTouched(uids: bool, rows: seq<Message>, items: seq<MessageSets.Item>, i: nat)
    requires i < |rows|
  {
    MessageSets.SomeItemTouches(items, if uids then rows[i].uid else i + 1)
  }

  /** The table after a STORE, row by row and flag by flag: on a row asked for, adding leaves on what was on or
      is named, removing what was on and is not named, replacing what is named; other rows keep their flags,
      and all rows everything else. */
  ghost predicate StoredExactly(
      after: seq<Message>, rows: seq<Message>, uids: bool, items: seq<MessageSets.Item>,
      flags: set<MailFlag>, how: Method)
  {
    && |after| == |rows|
    && forall i :: 0 <= i < |rows| ==>
         && after[i].uid == rows[i].uid && after[i].url == rows[i].url
         && forall flag ::
              (flag in after[i].flags
               <==> if !RowTouched(uids, rows, items, i) then flag in rows[i].flags
                    else match how
                         case Add => flag in rows[i].flags || flag in flags
                         case Remove => flag in rows[i].flags && flag !in flags
                         case Replace => flag in flags)
  }

  lemma {:induction false} RowRequested(c: Cache, items: seq<MessageSets.Item>, v: seq<int>, i: nat)
    requires i < |c.rows| && TouchesExactly(c.uids, c.rows, items, v)
    requires c.uids ==> PositiveUids(c.rows) && LastIsLargest(c.rows)
    ensures |Ids(c)| == |c.rows| && (Ids(c)[i] in v <==> RowTouched(c.uids, c.rows, items, i))
  {
    IdAt(c, i);
  }

  lemma {:induction false} StoreFlagByFlag(
      db: Db, c: Cache, v: seq<int>, items: seq<MessageSets.Item>, flags: set<MailFlag>, how: Method, folder: string)
    requires Keyed(c.rows) && Rows(db, folder) == c.rows && TouchesExactly(c.uids, c.rows, items, v)
    requires c.uids ==> PositiveUids(c.rows) && LastIsLargest(c.rows)
    requires forall k :: 0 <= k < |v| ==> v[k] in Ids(c)
    ensures StoredExactly(Rows(StoreEach(db, c, v, flags, how), folder), c.rows, c.uids, items, flags, how)
  {
    var after := Rows(StoreEach(db, c, v, flags, how), folder);
    StoreSizes(db, c, v, flags, how, folder);
    forall i | 0 <= i < |c.rows|
      ensures after[i].uid == c.rows[i].uid && after[i].url == c.rows[i].url
      ensures forall flag ::
        (flag in after[i].flags
         <==> if !RowTouched(c.uids, c.rows, items, i) then flag in c.rows[i].flags
              else match how
                   case Add => flag in c.rows[i].flags || flag in flags
                   case Remove => flag in c.rows[i].flags && flag !in flags
                   case Replace => flag in flags)
    {
      StoreSelected(db, c, v, flags, how, folder, i);
      RowRequested(c, items, v, i);
      ApplyFlag(c.rows[i].flags, flags, how);
    }
  }

  /** STORE of a rendered set, on the table the cache agrees with. */
  method Store(manager: Manager, db: Db, items: seq<MessageSets.Item>, flags: set<MailFlag>, how: Method)
    returns (refused: bool, r: Db)
    requires manager.Valid() && Rows(db, manager.name) == manager.rows
    requires manager.uids ==> PositiveUids(manager.rows) && LastIsLargest(manager.rows)
    ensures refused == manager.readOnly && (refused ==> r == db)
    ensures !refused ==>
      StoredExactly(Rows(r, manager.name), manager.rows, manager.uids, items, flags, how)
  {
    refused, r := manager.OnStore(db, MessageSets.RenderAll(items), flags, how);
    if !refused {
      ghost var c := manager.Now();
      ghost var text := MessageSets.RenderAll(items);
      RequestTouches(c, items);
      StoreFlagByFlag(
        db, c, Requested(c, MessageSets.Expand(text, if c.uids then c.maxUid else |c.rows|)),
        items, flags, how, manager.name);
    }
  }

  /** COPY of a rendered set by number: the UIDs of exactly the rows asked for, in the order of the rows. */
  method Copy(manager: Manager, items: seq<MessageSets.Item>) returns (copied: seq<int>)
    requires manager.Valid() && !manager.uids
    ensures exists v ::
      && TouchesExactly(false, manager.rows, items, v) && |copied| == |v|
      && forall k :: 0 <= k < |v| ==> 1 <= v[k] <= |manager.rows| && copied[k] == manager.rows[v[k] - 1].uid
  {
    copied := manager.OnCopy(MessageSets.RenderAll(items));
    ghost var c := manager.Now();
    ghost var v := Requested(c, MessageSets.Expand(MessageSets.RenderAll(items), |c.rows|));
    RequestTouches(c, items);
    forall k | 0 <= k < |v| ensures 1 <= v[k] <= |c.rows| && copied[k] == c.rows[v[k] - 1].uid {
      assert v[k] in v;
      MessageOfPosition(c, v[k] - 1);
    }
  }

  lemma {:induction false} StoreEachWellFormed(db: Db, c: Cache, ids: seq<int>, flags: set<MailFlag>, how: Method)
    requires WellFormed(db) && forall k :: 0 <= k < |ids| ==> ids[k] in Ids(c)
    ensures WellFormed(StoreEach(db, c, ids, flags, how))
    decreases |ids|
  {
    if ids != [] {
      var m := MessageOf(c, ids[0]);
      SetFlagsWellFormed(db, m.url, Apply(m.flags, flags, how));
      StoreEachWellFormed(Updated(db, m, flags, how), c, ids[1..], flags, how);
    }
  }

  lemma {:induction false} SetFlagsWellFormed(db: Db, url: string, flags: set<MailFlag>)
    requires WellFormed(db)
    ensures WellFormed(SetFlags(db, url, flags))
  {
    var r := SetFlags(db, url, flags);
    forall folder | folder in r.folders ensures Keyed(r.folders[folder]) {
      assert r.folders[folder] == Relabelled(db.folders[folder], url, flags);
    }
  }
}
