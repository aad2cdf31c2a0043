/** The search resolver: translation between message numbers and UIDs, and the result of a SEARCH over a
    message set and the engine's hits. */
module Search {
  import opened Text
  import opened Vectors
  import Intersection
  import MessageSets
  import opened MailboxCache

  // ----- specification -----

  /** The UIDs of the numbers that exist. */
  function UidsAt(rows: seq<Message>, v: seq<int>): seq<int> {
    if v == [] then []
    else if 1 <= v[0] <= |rows| then [rows[v[0] - 1].uid] + UidsAt(rows, v[1..])
    else UidsAt(rows, v[1..])
  }

  /** The number of the message with a UID. */
  function NumberOf(rows: seq<Message>, uid: int): (n: Option<int>)
    ensures n.Some? ==> 1 <= n.value <= |rows| && rows[n.value - 1].uid == uid
    ensures n.None? ==> forall i :: 0 <= i < |rows| ==> rows[i].uid != uid
  {
    if rows == [] then None
    else if rows[|rows| - 1].uid == uid then Some(|rows|)
    else NumberOf(rows[..|rows| - 1], uid)
  }

  function NumbersAt(rows: seq<Message>, uids: seq<int>): seq<int> {
    if uids == [] then []
    else
      match NumberOf(rows, uids[0])
      case Some(n) => [n] + NumbersAt(rows, uids[1..])
      case None => NumbersAt(rows, uids[1..])
  }

  lemma {:induction false} NumberOfRow(rows: seq<Message>, i: nat)
    requires Keyed(rows) && i < |rows|
    ensures NumberOf(rows, rows[i].uid) == Some(i + 1)
  {
  }

  /** `lexical_cast` of an int to text. */
  function PrintInt(x: int): string {
    if x < 0 then "-" + Print(-x) else Print(x)
  }

  lemma AtoiPrintInt(x: int)
    ensures Atoi(PrintInt(x)) == x
  {
    if x < 0 {
      ReadPrint(-x);
      assert PrintInt(x)[1..] == Print(-x);
    } else {
      PrintInjective(x, x);
    }
  }

  lemma {:induction false} KeyOfNumber(rows: seq<Message>, x: int)
    ensures PrintInt(x) in Numbered(rows) <==> 1 <= x <= |rows|
    ensures 1 <= x <= |rows| ==> Numbered(rows)[PrintInt(x)] == rows[x - 1]
  {
    AtoiPrintInt(x);
    if PrintInt(x) in Numbered(rows) {
      NumberedKey(rows, PrintInt(x));
    }
    if x >= 1 {
      NumberedAt(rows, x);
    }
  }

  /** The name of a message's document in the search engine's store. */
  function FileName(m: Message): string {
    m.url + ".xml"
  }

  /** The part of a path behind its last backslash, if it has one. */
  function BaseName(path: string): Option<string> {
    if path == "" then None
    else if path[|path| - 1] == '\\' then Some("")
    else
      match BaseName(path[..|path| - 1])
      case None => None
      case Some(name) => Some(name + [path[|path| - 1]])
  }

  /** The name is what follows the last backslash. */
  lemma {:induction false} BaseNameExactly(path: string, name: string)
    ensures BaseName(path) == Some(name)
       <==> '\\' !in name && exists directory :: path == directory + "\\" + name
  {
    if BaseName(path) == Some(name) {
      var directory := BaseNameSplits(path, name);
    }
    if directory :| '\\' !in name && path == directory + "\\" + name {
      BaseNameOf(directory, name);
    }
  }

  lemma {:induction false} BaseNameSplits(path: string, name: string) returns (directory: string)
    requires BaseName(path) == Some(name)
    ensures '\\' !in name && path == directory + "\\" + name
  {
    var init, last := path[..|path| - 1], path[|path| - 1];
    assert path == init + [last];
    if last == '\\' {
      directory := init;
    } else {
      var front := BaseName(init).value;
      directory := BaseNameSplits(init, front);
      assert directory + "\\" + front + [last] == directory + "\\" + (front + [last]);
    }
  }

  lemma {:induction false} BaseNameOf(directory: string, name: string)
    requires '\\' !in name
    ensures BaseName(directory + "\\" + name) == Some(name)
    decreases |name|
  {
    var path := directory + "\\" + name;
    if name == "" {
      assert path[|path| - 1] == '\\';
    } else {
      var init, last := name[..|name| - 1], name[|name| - 1];
      assert last in name && forall c :: c in init ==> c in name;
      assert path[..|path| - 1] == directory + "\\" + init && path[|path| - 1] == last;
      BaseNameOf(directory, init);
      assert init + [last] == name;
    }
  }

  function UidOfFile(rows: seq<Message>, name: string): (uid: Option<int>)
    ensures uid.Some? ==> exists i :: 0 <= i < |rows| && FileName(rows[i]) == name && rows[i].uid == uid.value
    ensures uid.None? ==> forall i :: 0 <= i < |rows| ==> FileName(rows[i]) != name
  {
    if rows == [] then None
    else if FileName(rows[|rows| - 1]) == name then Some(rows[|rows| - 1].uid)
    else UidOfFile(rows[..|rows| - 1], name)
  }

  lemma FileNameInjective(a: Message, b: Message)
    requires FileName(a) == FileName(b)
    ensures a.url == b.url
  {
    assert |a.url| == |b.url|;
    assert a.url == FileName(a)[..|a.url|] && b.url == FileName(b)[..|b.url|];
  }

  lemma {:induction false} UidOfFileRow(rows: seq<Message>, i: nat)
    requires Keyed(rows) && i < |rows|
    ensures UidOfFile(rows, FileName(rows[i])) == Some(rows[i].uid)
  {
    var uid := UidOfFile(rows, FileName(rows[i]));
    var k :| 0 <= k < |rows| && FileName(rows[k]) == FileName(rows[i]) && rows[k].uid == uid.value;
    FileNameInjective(rows[k], rows[i]);
    assert k == i;
  }

  /** The UIDs of the documents found that belong to cached messages. */
  function HitsOf(rows: seq<Message>, paths: seq<string>): seq<int> {
    if paths == [] then []
    else
      var rest := HitsOf(rows, paths[1..]);
      match BaseName(paths[0])
      case None => rest
      case Some(name) =>
        match UidOfFile(rows, name)
        case None => rest
        case Some(uid) => [uid] + rest
  }

  // ----- the resolver -----

  class Resolver {
    const messages: map<string, Message>
    ghost const rows: seq<Message>
    var vints: seq<int>

    ghost predicate Valid()
      reads this
    {
      messages == Numbered(rows) && Keyed(rows)
    }

    constructor (messages: map<string, Message>, ghost rows: seq<Message>)
      requires messages == Numbered(rows) && Keyed(rows)
      ensures Valid() && this.rows == rows && vints == []
    {
      this.messages := messages;
      this.rows := rows;
      vints := [];
    }

    method MessageNumbersToUids(v: seq<int>) returns (ret: seq<int>)
      requires Valid()
      ensures ret == UidsAt(rows, v)
    {
      ret := [];
      for i := 0 to |v|
        invariant ret + UidsAt(rows, v[i..]) == UidsAt(rows, v)
      {
        KeyOfNumber(rows, v[i]);
        assert v[i..][1..] == v[i + 1..];
        var str := PrintInt(v[i]);
        if str in messages {
          ret := ret + [messages[str].uid];
        }
      }
    }

    lemma {:induction false} NumberOfKey(key: string)
      requires Valid() && key in messages
      ensures NumberOf(rows, messages[key].uid) == Some(Atoi(key))
    {
      NumberedKey(rows, key);
      NumberOfRow(rows, Atoi(key) - 1);
    }

    lemma {:induction false} KeyOfUid(uid: int) returns (key: string)
      requires Valid() && NumberOf(rows, uid).Some?
      ensures key in messages && messages[key].uid == uid
    {
      key := Print(NumberOf(rows, uid).value);
      NumberedAt(rows, NumberOf(rows, uid).value);
    }

    /** The map from UID to number, filled in the order of the message map. */
    method UidToMessage() returns (m: map<int, int>)
      requires Valid()
      ensures forall uid :: uid in m <==> NumberOf(rows, uid).Some?
      ensures forall uid :: uid in m ==> NumberOf(rows, uid) == Some(m[uid])
    {
      m := map[];
      var todo := messages.Keys;
      while todo != {}
        invariant todo <= messages.Keys
        invariant forall uid :: uid in m ==> NumberOf(rows, uid) == Some(m[uid])
        invariant forall key :: key in messages && key !in todo ==> messages[key].uid in m
        decreases |todo|
      {
        var key :| key in todo;
        NumberOfKey(key);
        if messages[key].uid !in m {
          m := m[messages[key].uid := Atoi(key)];
        }
        todo := todo - {key};
      }
      forall uid | NumberOf(rows, uid).Some? ensures uid in m {
        var key := KeyOfUid(uid);
      }
    }

    method UidsToMessageNumbers(v: seq<int>) returns (ret: seq<int>)
      requires Valid()
      ensures ret == NumbersAt(rows, v)
    {
      var m := UidToMessage();
      ret := [];
      for i := 0 to |v|
        invariant ret + NumbersAt(rows, v[i..]) == NumbersAt(rows, v)
      {
        assert v[i..][1..] == v[i + 1..];
        if v[i] in m {
          ret := ret + [m[v[i]]];
        }
      }
    }

    lemma FileOfKey(key: string)
      requires Valid() && key in messages
      ensures UidOfFile(rows, FileName(messages[key])) == Some(messages[key].uid)
    {
      NumberedKey(rows, key);
      UidOfFileRow(rows, Atoi(key) - 1);
    }

    lemma KeyOfFile(name: string) returns (key: string)
      requires Valid() && UidOfFile(rows, name).Some?
      ensures key in messages && FileName(messages[key]) == name
    {
      var i :| 0 <= i < |rows| && FileName(rows[i]) == name;
      NumberedAt(rows, i + 1);
      key := Print(i + 1);
    }

    /** The map from document name to UID. */
    method UrlToUid() returns (m: map<string, int>)
      requires Valid()
      ensures forall name :: name in m <==> UidOfFile(rows, name).Some?
      ensures forall name :: name in m ==> UidOfFile(rows, name) == Some(m[name])
    {
      m := map[];
      var todo := messages.Keys;
      while todo != {}
        invariant todo <= messages.Keys
        invariant forall name :: name in m ==> UidOfFile(rows, name) == Some(m[name])
        invariant forall key :: key in messages && key !in todo ==> FileName(messages[key]) in m
        decreases |todo|
      {
        var key :| key in todo;
        FileOfKey(key);
        if FileName(messages[key]) !in m {
          m := m[FileName(messages[key]) := messages[key].uid];
        }
        todo := todo - {key};
      }
      forall name | UidOfFile(rows, name).Some? ensures name in m {
        var key := KeyOfFile(name);
      }
    }

    /** Walks the engine's result list. */
    method Hits(paths: seq<string>) returns (searchResultSet: seq<int>)
      requires Valid()
      ensures searchResultSet == HitsOf(rows, paths)
    {
      var m := UrlToUid();
      searchResultSet := [];
      for i := 0 to |paths|
        invariant searchResultSet + HitsOf(rows, paths[i..]) == HitsOf(rows, paths)
      {
        assert paths[i..][1..] == paths[i + 1..];
        var name := BaseName(paths[i]);
        if name.Some? && name.value in m {
          searchResultSet := searchResultSet + [m[name.value]];
        }
      }
    }

    /** Always intersects UIDs. */
    method Resolve(messageSet: seq<int>, paths: seq<string>, uid: bool)
      requires Valid()
      modifies this
      ensures vints
           == Intersection.Intersect(if uid then messageSet else UidsAt(rows, messageSet), HitsOf(rows, paths))
    {
      var hits := Hits(paths);
      var wanted := messageSet;
      if !uid {
        wanted := MessageNumbersToUids(wanted);
      }
      var first := new int[|wanted|](i requires 0 <= i < |wanted| => wanted[i]);
      var second := new int[|hits|](i requires 0 <= i < |hits| => hits[i]);
      assert first[..] == wanted && second[..] == hits;
      vints := Intersection.AtomsIntersection(first, second);
    }

    /** A SEARCH over one accepted message-set atom. */
    method OnSearch(atom: string, dwMax: int, paths: seq<string>, uid: bool) returns (ret: seq<int>)
      requires Valid()
      modifies this
      ensures ret == Found(rows, MessageSets.Expand(atom, dwMax), HitsOf(rows, paths), uid)
    {
      var ints := MessageSets.ExpandMessageSequence(atom, dwMax);
      Resolve(ints, paths, uid);
      if uid {
        ret := vints;
      } else {
        ret := UidsToMessageNumbers(vints);
      }
    }
  }

  function Found(rows: seq<Message>, ints: seq<int>, hits: seq<int>, uid: bool): seq<int> {
    if uid then Intersection.Intersect(ints, hits)
    else NumbersAt(rows, Intersection.Intersect(UidsAt(rows, ints), hits))
  }

  // ----- the two translations are inverse -----

  /** From numbers to UIDs and back: the numbers that exist come back, in order. */
  lemma {:induction false} NumbersBack(rows: seq<Message>, v: seq<int>)
    requires Keyed(rows) && forall i :: 0 <= i < |v| ==> 1 <= v[i] <= |rows|
    ensures NumbersAt(rows, UidsAt(rows, v)) == v
  {
    if v != [] {
      NumberOfRow(rows, v[0] - 1);
      NumbersBack(rows, v[1..]);
      assert UidsAt(rows, v)[1..] == UidsAt(rows, v[1..]);
    }
  }

  lemma {:induction false} UidsAtCons(rows: seq<Message>, n: int, v: seq<int>)
    requires 1 <= n <= |rows|
    ensures UidsAt(rows, [n] + v) == [rows[n - 1].uid] + UidsAt(rows, v)
  {
    assert ([n] + v)[1..] == v;
  }

  lemma {:induction false} UidsBack(rows: seq<Message>, uids: seq<int>)
    requires forall i :: 0 <= i < |uids| ==> uids[i] in Uids(rows)
    ensures UidsAt(rows, NumbersAt(rows, uids)) == uids
  {
    if uids != [] {
      var i :| 0 <= i < |rows| && Uids(rows)[i] == uids[0];
      assert rows[i].uid == uids[0];
      var n := NumberOf(rows, uids[0]).value;
      UidsBack(rows, uids[1..]);
      UidsAtCons(rows, n, NumbersAt(rows, uids[1..]));
    }
  }

  // ----- what SEARCH finds -----

  lemma {:induction false} UidsAtMembers(rows: seq<Message>, v: seq<int>, u: int)
    ensures u in UidsAt(rows, v) <==> exists i :: 0 <= i < |rows| && rows[i].uid == u && i + 1 in v
  {
    if v != [] {
      UidsAtMembers(rows, v[1..], u);
      assert forall x :: x in v <==> x == v[0] || x in v[1..];
      if 1 <= v[0] <= |rows| && rows[v[0] - 1].uid == u {
        assert v[0] - 1 + 1 in v;
      }
    }
  }

  lemma {:induction false} NumbersAtMembers(rows: seq<Message>, uids: seq<int>, n: int)
    requires Keyed(rows)
    ensures n in NumbersAt(rows, uids) <==> 1 <= n <= |rows| && rows[n - 1].uid in uids
  {
    if uids != [] {
      NumbersAtMembers(rows, uids[1..], n);
      assert forall x :: x in uids <==> x == uids[0] || x in uids[1..];
      if 1 <= n <= |rows| {
        NumberOfRow(rows, n - 1);
      }
    }
  }

  lemma {:induction false} UidsAtDupFree(rows: seq<Message>, v: seq<int>)
    requires Keyed(rows) && DupFree(v)
    ensures DupFree(UidsAt(rows, v))
  {
    if v != [] {
      Intersection.DupFreeCons(v);
      UidsAtDupFree(rows, v[1..]);
      if 1 <= v[0] <= |rows| {
        var u := rows[v[0] - 1].uid;
        UidsAtMembers(rows, v[1..], u);
        assert u !in UidsAt(rows, v[1..]);
        Intersection.DupFreeCons(UidsAt(rows, v));
      }
    }
  }

  lemma {:induction false} RangeDupFree(left: int, right: int)
    ensures DupFree(MessageSets.Range(left, right))
  {
  }

  /** A set that SEARCH accepts expands without duplicates, so the intersection is right whatever
      duplicates the engine's hits have. */
  lemma AcceptedDupFree(atom: string, dwMax: int)
    requires MessageSets.AcceptsAtom(atom, dwMax)
    ensures DupFree(MessageSets.Expand(atom, dwMax))
  {
    if atom != "" {
      MessageSets.TokenIsAtom(atom);
      var left, right := MessageSets.AcceptedAtomIsRun(atom, dwMax);
      RangeDupFree(left, right);
    }
  }

  /** The engine found the document of this message. */
  ghost predicate IsHit(m: Message, paths: seq<string>) {
    exists k :: 0 <= k < |paths| && BaseName(paths[k]) == Some(FileName(m))
  }

  /** In terms of paths: one of them is a directory, a backslash, the URL and ".xml". */
  lemma {:induction false} HitIsFile(m: Message, paths: seq<string>)
    ensures IsHit(m, paths)
       <==> '\\' !in m.url
            && exists k, directory :: 0 <= k < |paths| && paths[k] == directory + "\\" + (m.url + ".xml")
  {
    assert '\\' in m.url + ".xml" <==> '\\' in m.url;
    if k :| 0 <= k < |paths| && BaseName(paths[k]) == Some(FileName(m)) {
      BaseNameExactly(paths[k], m.url + ".xml");
      assert FileName(m) == m.url + ".xml";
    }
    if k, directory :| 0 <= k < |paths| && paths[k] == directory + "\\" + (m.url + ".xml") {
      if '\\' !in m.url {
        BaseNameExactly(paths[k], m.url + ".xml");
        assert FileName(m) == m.url + ".xml";
      }
    }
  }

  lemma {:induction false} HitsMembers(rows: seq<Message>, paths: seq<string>, i: nat)
    requires Keyed(rows) && i < |rows|
    ensures rows[i].uid in HitsOf(rows, paths) <==> IsHit(rows[i], paths)
    decreases |paths|
  {
    if paths != [] {
      var rest := paths[1..];
      HitsMembers(rows, rest, i);
      UidOfFileRow(rows, i);
      if BaseName(paths[0]).Some? && UidOfFile(rows, BaseName(paths[0]).value) == Some(rows[i].uid) {
        HitsOne(rows, paths[0], i);
      }
      if IsHit(rows[i], rest) {
        var k :| 0 <= k < |rest| && BaseName(rest[k]) == Some(FileName(rows[i]));
        assert paths[k + 1] == rest[k];
      }
      if k :| 0 <= k < |paths| && BaseName(paths[k]) == Some(FileName(rows[i])) {
        if k > 0 {
          assert rest[k - 1] == paths[k];
        }
      }
    }
  }

  /** One path yields the UID of one message only. */
  lemma {:induction false} HitsOne(rows: seq<Message>, path: string, i: nat)
    requires Keyed(rows) && i < |rows| && BaseName(path).Some?
    requires UidOfFile(rows, BaseName(path).value) == Some(rows[i].uid)
    ensures BaseName(path).value == FileName(rows[i])
  {
  }

  lemma {:induction false} NumbersAtDupFree(rows: seq<Message>, uids: seq<int>)
    requires Keyed(rows) && DupFree(uids)
    ensures DupFree(NumbersAt(rows, uids))
  {
    if uids != [] {
      Intersection.DupFreeCons(uids);
      NumbersAtDupFree(rows, uids[1..]);
      if NumberOf(rows, uids[0]).Some? {
        NumbersAtMembers(rows, uids[1..], NumberOf(rows, uids[0]).value);
        Intersection.DupFreeCons(NumbersAt(rows, uids));
      }
    }
  }

  /** Rows in ascending order of UID turn ascending UIDs into ascending numbers. */
  lemma {:induction false} NumbersAtStrict(rows: seq<Message>, uids: seq<int>)
    requires Keyed(rows) && Strict(Uids(rows)) && Strict(uids)
    ensures Strict(NumbersAt(rows, uids))
  {
    if uids != [] {
      NumbersAtStrict(rows, uids[1..]);
      if NumberOf(rows, uids[0]).Some? {
        var n, rest := NumberOf(rows, uids[0]).value, NumbersAt(rows, uids[1..]);
        if rest != [] {
          FirstIsLower(rows, uids, n, rest[0]);
        }
        StrictPrepend(n, rest);
      }
    }
  }

  lemma {:induction false} FirstIsLower(rows: seq<Message>, uids: seq<int>, n: int, m: int)
    requires Keyed(rows) && Strict(Uids(rows)) && Strict(uids) && uids != []
    requires 1 <= n <= |rows| && rows[n - 1].uid == uids[0] && m in NumbersAt(rows, uids[1..])
    ensures n < m
  {
    NumbersAtMembers(rows, uids[1..], m);
    var i :| 0 <= i < |uids[1..]| && uids[1..][i] == rows[m - 1].uid;
    assert uids[0] < uids[i + 1];
    NumbersInOrder(rows, n, m);
  }

  lemma NumbersInOrder(rows: seq<Message>, m: int, n: int)
    requires Strict(Uids(rows)) && 1 <= m <= |rows| && 1 <= n <= |rows|
    requires rows[m - 1].uid < rows[n - 1].uid
    ensures m < n
  {
    assert Uids(rows)[m - 1] < Uids(rows)[n - 1];
  }

  /** SEARCH by number returns exactly the numbers in the message set whose message is a hit, each once,
      and in ascending order when the rows are in ascending order of UID. */
  lemma {:induction false} SearchByNumber(rows: seq<Message>, atom: string, paths: seq<string>, n: int)
    requires Keyed(rows) && MessageSets.AcceptsAtom(atom, |rows|)
    requires forall i :: 0 <= i < |rows| ==> rows[i].uid != 0
    ensures var found := Found(rows, MessageSets.Expand(atom, |rows|), HitsOf(rows, paths), false);
            && (n in found
                <==> 1 <= n <= |rows| && n in MessageSets.Expand(atom, |rows|) && IsHit(rows[n - 1], paths))
            && DupFree(found)
            && (Strict(Uids(rows)) ==> Strict(found))
  {
    AcceptedDupFree(atom, |rows|);
    FoundByNumber(rows, MessageSets.Expand(atom, |rows|), paths, n);
  }

  lemma {:induction false} FoundByNumber(rows: seq<Message>, ints: seq<int>, paths: seq<string>, n: int)
    requires Keyed(rows) && DupFree(ints) && forall i :: 0 <= i < |rows| ==> rows[i].uid != 0
    ensures var found := Found(rows, ints, HitsOf(rows, paths), false);
            && (n in found <==> 1 <= n <= |rows| && n in ints && IsHit(rows[n - 1], paths))
            && DupFree(found)
            && (Strict(Uids(rows)) ==> Strict(found))
  {
    FoundOnce(rows, ints, HitsOf(rows, paths));
    FoundMembers(rows, ints, HitsOf(rows, paths), n);
    if 1 <= n <= |rows| {
      HitsMembers(rows, paths, n - 1);
    }
  }

  lemma FoundOnce(rows: seq<Message>, ints: seq<int>, hits: seq<int>)
    requires Keyed(rows) && DupFree(ints)
    ensures DupFree(Found(rows, ints, hits, false))
    ensures Strict(Uids(rows)) ==> Strict(Found(rows, ints, hits, false))
  {
    var uids := Intersection.Intersect(UidsAt(rows, ints), hits);
    UidsAtDupFree(rows, ints);
    Intersection.OneDupFreeIsEnough(UidsAt(rows, ints), hits);
    NumbersAtDupFree(rows, uids);
    if Strict(Uids(rows)) {
      NumbersAtStrict(rows, uids);
    }
  }

  lemma FoundMembers(rows: seq<Message>, ints: seq<int>, hits: seq<int>, n: int)
    requires Keyed(rows) && DupFree(ints) && forall i :: 0 <= i < |rows| ==> rows[i].uid != 0
    ensures n in Found(rows, ints, hits, false) <==> 1 <= n <= |rows| && n in ints && rows[n - 1].uid in hits
  {
    UidsAtDupFree(rows, ints);
    NumbersAtMembers(rows, Intersection.Intersect(UidsAt(rows, ints), hits), n);
    if 1 <= n <= |rows| {
      CommonUid(UidsAt(rows, ints), hits, rows[n - 1].uid);
      UidAtNumber(rows, ints, n);
    }
  }

  lemma CommonUid(first: seq<int>, hits: seq<int>, u: int)
    requires DupFree(first)
    ensures u in Intersection.Intersect(first, hits) <==> u != 0 && u in first && u in hits
  {
    Intersection.OneDupFreeIsEnough(first, hits);
  }

  lemma {:induction false} UidAtNumber(rows: seq<Message>, v: seq<int>, n: int)
    requires Keyed(rows) && 1 <= n <= |rows|
    ensures rows[n - 1].uid in UidsAt(rows, v) <==> n in v
  {
    UidsAtMembers(rows, v, rows[n - 1].uid);
  }

  /** SEARCH by UID returns, in ascending order, exactly the UIDs in the message set that are hits. */
  lemma {:induction false} SearchByUid(rows: seq<Message>, atom: string, dwMax: int, paths: seq<string>)
    requires MessageSets.AcceptsAtom(atom, dwMax)
    ensures var ints, hits := MessageSets.Expand(atom, dwMax), HitsOf(rows, paths);
            Intersection.CommonAscending(Found(rows, ints, hits, true), ints, hits)
  {
    AcceptedDupFree(atom, dwMax);
    Intersection.OneDupFreeIsEnough(MessageSets.Expand(atom, dwMax), HitsOf(rows, paths));
  }
}
