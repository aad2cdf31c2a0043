/** The FETCH item list: the trimming, the character loop of `parse_fetch_request_list`, and the printer
    it undoes. */
module FetchItems {
  import opened Text

  datatype Request = Request(first: string, second: string)

  const NUL: char := 0 as char

  // ----- trimming -----

  /** `strchr` also finds the terminating NUL. */
  predicate Trims(c: char, chars: string) {
    c in chars || c == NUL
  }

  function LeftTrimmed(s: string, chars: string): string {
    if s == "" then "" else if Trims(s[0], chars) then LeftTrimmed(s[1..], chars) else s
  }

  /** What is left at length one is dropped too. */
  function RightTrimmed(s: string, chars: string): string {
    if |s| <= 1 then "" else if Trims(s[|s| - 1], chars) then RightTrimmed(s[..|s| - 1], chars) else s
  }

  method LTrim(toTrim: string, chars: string) returns (r: string)
    ensures r == LeftTrimmed(toTrim, chars)
  {
    r := toTrim;
    while r == "" || Trims(r[0], chars)
      invariant LeftTrimmed(r, chars) == LeftTrimmed(toTrim, chars)
      decreases |r|
    {
      if |r| < 1 {
        return "";
      }
      r := r[1..];
    }
  }

  method RTrim(toTrim: string, chars: string) returns (r: string)
    ensures r == RightTrimmed(toTrim, chars)
  {
    r := toTrim;
    if |r| - 1 <= 0 {
      return "";
    }
    while Trims(r[|r| - 1], chars)
      invariant |r| > 1 && RightTrimmed(r, chars) == RightTrimmed(toTrim, chars)
      decreases |r|
    {
      r := r[..|r| - 1];
      if |r| - 1 <= 0 {
        return "";
      }
    }
  }

  function WithoutFirst(s: string, c: char): string {
    if s == "" then "" else if s[0] == c then s[1..] else [s[0]] + WithoutFirst(s[1..], c)
  }

  function WithoutLast(s: string, c: char): string {
    if s == "" then ""
    else if s[|s| - 1] == c then s[..|s| - 1]
    else WithoutLast(s[..|s| - 1], c) + [s[|s| - 1]]
  }

  /** `extract_quoted_string`: the first quote and the last of the others go. */
  function Unquote(s: string): string {
    WithoutLast(WithoutFirst(s, '"'), '"')
  }

  // ----- the loop -----

  /** `params` while inside brackets; `s` collects the current name or section. */
  datatype Reader = Reader(params: bool, s: string, requests: seq<Request>)

  function SetSection(requests: seq<Request>, section: string): Option<seq<Request>> {
    if requests == [] then None
    else Some(requests[|requests| - 1 := requests[|requests| - 1].(second := section)])
  }

  /** One character; `None` where the code writes through an index of an empty vector. */
  function Read(r: Reader, c: char): Option<Reader> {
    if c == ' ' && !r.params then
      Some(Reader(false, "", r.requests + if r.s == "" then [] else [Request(Lower(Unquote(r.s)), "")]))
    else if c == '[' then
      Some(Reader(true, "", r.requests + if r.s == "" then [] else [Request(Unquote(r.s), "")]))
    else if c == ']' && !r.params && r.s != "" then
      Some(Reader(false, "", r.requests))
    else if c == ']' then
      match SetSection(r.requests, if r.s == "" then "nil" else Unquote(r.s))
      case None => None
      case Some(requests) => Some(Reader(false, "", requests))
    else Some(r.(s := r.s + [c]))
  }

  function ReadAll(r: Reader, text: string): Option<Reader>
    decreases |text|
  {
    if text == "" then Some(r)
    else match Read(r, text[0])
      case None => None
      case Some(next) => ReadAll(next, text[1..])
  }

  function Finish(r: Reader): seq<Request> {
    r.requests + if r.params || r.s == "" then [] else [Request(Lower(r.s), "")]
  }

  function Parse(request: string): Option<seq<Request>> {
    match ReadAll(Reader(false, "", []), RightTrimmed(LeftTrimmed(request, "("), ")"))
    case None => None
    case Some(r) => Some(Finish(r))
  }

  method ParseFetchRequestList(request: string) returns (result: Option<seq<Request>>)
    ensures result == Parse(request)
  {
    var source := LTrim(request, "(");
    source := RTrim(source, ")");
    var params, isNull, s := false, false, "";
    var requests: seq<Request> := [];
    assert Finish(Reader(false, "", [])) == [];
    if |source| == 0 {
      return Some(requests);
    }
    var i, c := 0, source[0];
    assert source[0..] == source;
    while i < |source|
      invariant 0 <= i <= |source| && (i < |source| ==> c == source[i]) && (params ==> isNull)
      invariant ReadAll(Reader(params, s, requests), source[i..]) == ReadAll(Reader(false, "", []), source)
    {
      assert source[i..][1..] == source[i + 1..] && source[i..][0] == c;
      ghost var next := Read(Reader(params, s, requests), c);
      assert requests + [] == requests;
      if c == ' ' {
        if params {
          s := s + [c];
        } else {
          isNull := true;
          if s != "" {
            requests := requests + [Request(Lower(Unquote(s)), "")];
          }
          s := "";
        }
      } else if c == '[' {
        params, isNull := true, true;
        if s != "" {
          requests := requests + [Request(Unquote(s), "")];
        }
        s := "";
      } else if c == ']' {
        if (s == "" || params) && requests == [] {
          return None;
        }
        if params && isNull && s != "" {
          requests := requests[|requests| - 1 := requests[|requests| - 1].(second := Unquote(s))];
        }
        if s == "" {
          requests := requests[|requests| - 1 := requests[|requests| - 1].(second := "nil")];
        }
        s, params, isNull := "", false, true;
      } else {
        s := s + [c];
      }
      assert next == Some(Reader(params, s, requests));
      i := i + 1;
      if i < |source| {
        c := source[i];
      }
    }
    assert source[i..] == "" && requests + [] == requests;
    if !params && s != "" {
      requests := requests + [Request(Lower(s), "")];
    }
    result := Some(requests);
  }

  // ----- the grammar -----

  datatype Item = Plain(name: string) | Section(name: string, section: string)

  /** No space, bracket, parenthesis, quote or NUL. */
  predicate IsName(name: string) {
    name != "" && forall i :: 0 <= i < |name| ==> name[i] !in " []()\"" && name[i] != NUL
  }

  /** No bracket or quote; spaces and parentheses are welcome. */
  predicate IsSection(section: string) {
    forall i :: 0 <= i < |section| ==> section[i] !in "[]\""
  }

  predicate IsItem(item: Item) {
    IsName(item.name) && (item.Section? ==> IsSection(item.section))
  }

  function Render(item: Item): string {
    match item
    case Plain(name) => name
    case Section(name, section) => name + "[" + section + "]"
  }

  function RenderAll(items: seq<Item>): string {
    if items == [] then ""
    else if |items| == 1 then Render(items[0])
    else Render(items[0]) + " " + RenderAll(items[1..])
  }

  function RenderList(items: seq<Item>, parens: bool): string {
    if parens then "(" + RenderAll(items) + ")" else RenderAll(items)
  }

  /** What an item comes back as. */
  function Image(item: Item): Request {
    match item
    case Plain(name) => Request(Lower(name), "")
    case Section(name, section) => Request(name, if section == "" then "nil" else section)
  }

  function Images(items: seq<Item>): seq<Request> {
    seq(|items|, i requires 0 <= i < |items| => Image(items[i]))
  }

  // ----- reading what was rendered -----

  lemma {:induction false} ReadConcat(r: Reader, a: string, b: string)
    ensures ReadAll(r, a + b) == match ReadAll(r, a) case None => None case Some(t) => ReadAll(t, b)
    decreases |a|
  {
    if a == "" {
      assert a + b == b;
    } else {
      assert (a + b)[1..] == a[1..] + b;
      if Read(r, a[0]).Some? {
        ReadConcat(Read(r, a[0]).value, a[1..], b);
      }
    }
  }

  lemma {:induction false} ReadWord(r: Reader, word: string)
    requires forall i :: 0 <= i < |word| ==> word[i] !in "[]" && (word[i] == ' ' ==> r.params)
    ensures ReadAll(r, word) == Some(r.(s := r.s + word))
    decreases |word|
  {
    if word == "" {
      assert r.s + word == r.s;
    } else {
      ReadWord(r.(s := r.s + [word[0]]), word[1..]);
      assert r.s + [word[0]] + word[1..] == r.s + word;
    }
  }

  lemma {:induction false} UnquoteNothing(s: string)
    requires forall i :: 0 <= i < |s| ==> s[i] != '"'
    ensures WithoutFirst(s, '"') == s && WithoutLast(s, '"') == s && Unquote(s) == s
  {
    if s != "" {
      UnquoteNothing(s[1..]);
      UnquoteNothing(s[..|s| - 1]);
      assert s == [s[0]] + s[1..] && s == s[..|s| - 1] + [s[|s| - 1]];
    }
  }

  lemma {:induction false} ReadOne(r: Reader, c: char)
    ensures ReadAll(r, [c]) == Read(r, c)
  {
    assert [c][1..] == "";
  }

  /** The reader after an item: a plain name is still pending, a section is complete. */
  function AfterItem(requests: seq<Request>, item: Item): Reader {
    match item
    case Plain(name) => Reader(false, name, requests)
    case Section(_, _) => Reader(false, "", requests + [Image(item)])
  }

  lemma {:induction false} ReadOpening(requests: seq<Request>, name: string, rest: string)
    requires IsName(name)
    ensures ReadAll(Reader(false, name, requests), "[" + rest)
         == ReadAll(Reader(true, "", requests + [Request(name, "")]), rest)
  {
    UnquoteNothing(name);
    assert ("[" + rest)[1..] == rest;
  }

  lemma ReadClosing(requests: seq<Request>, name: string, section: string)
    requires IsSection(section)
    ensures ReadAll(Reader(true, section, requests + [Request(name, "")]), "]")
         == Some(Reader(false, "", requests + [Image(Section(name, section))]))
  {
    var before, image := requests + [Request(name, "")], Image(Section(name, section));
    UnquoteNothing(section);
    ReadOne(Reader(true, section, before), ']');
    assert before[|requests| := image] == requests + [image];
  }

  lemma {:induction false} ReadSection(requests: seq<Request>, name: string, section: string)
    requires IsName(name) && IsSection(section)
    ensures ReadAll(Reader(false, name, requests), "[" + (section + "]"))
         == Some(Reader(false, "", requests + [Image(Section(name, section))]))
  {
    var within := Reader(true, "", requests + [Request(name, "")]);
    ReadOpening(requests, name, section + "]");
    ReadWord(within, section);
    assert "" + section == section;
    ReadConcat(within, section, "]");
    ReadClosing(requests, name, section);
  }

  lemma ReadItem(requests: seq<Request>, item: Item)
    requires IsItem(item)
    ensures ReadAll(Reader(false, "", requests), Render(item)) == Some(AfterItem(requests, item))
  {
    var start := Reader(false, "", requests);
    ReadWord(start, item.name);
    assert "" + item.name == item.name;
    if item.Section? {
      ReadConcat(start, item.name, "[" + (item.section + "]"));
      assert Render(item) == item.name + ("[" + (item.section + "]"));
      ReadSection(requests, item.name, item.section);
    }
  }

  lemma FinishItem(requests: seq<Request>, item: Item)
    requires IsItem(item)
    ensures Finish(AfterItem(requests, item)) == requests + [Image(item)]
    ensures Read(AfterItem(requests, item), ' ') == Some(Reader(false, "", requests + [Image(item)]))
  {
    UnquoteNothing(item.name);
    assert requests + [Image(item)] + [] == requests + [Image(item)];
  }

  /** An item, a space, and the text behind it. */
  lemma {:induction false} ReadItemThen(requests: seq<Request>, item: Item, rest: string)
    requires IsItem(item)
    ensures ReadAll(Reader(false, "", requests), Render(item) + (" " + rest))
         == ReadAll(Reader(false, "", requests + [Image(item)]), rest)
  {
    ReadItem(requests, item);
    FinishItem(requests, item);
    ReadConcat(Reader(false, "", requests), Render(item), " " + rest);
    assert (" " + rest)[1..] == rest;
  }

  lemma {:induction false} RenderCons(items: seq<Item>)
    requires |items| > 1
    ensures RenderAll(items) == Render(items[0]) + (" " + RenderAll(items[1..]))
  {
  }

  lemma {:induction false} ImagesCons(items: seq<Item>)
    requires items != []
    ensures Images(items) == [Image(items[0])] + Images(items[1..])
  {
  }

  /** Reading the items into `requests`. */
  ghost predicate ReadsItems(requests: seq<Request>, items: seq<Item>) {
    var r := ReadAll(Reader(false, "", requests), RenderAll(items));
    r.Some? && Finish(r.value) == requests + Images(items)
  }

  lemma {:induction false} ReadLastItem(requests: seq<Request>, item: Item)
    requires IsItem(item)
    ensures ReadsItems(requests, [item])
  {
    ReadItem(requests, item);
    FinishItem(requests, item);
    assert Images([item]) == [Image(item)];
  }

  lemma {:induction false} IntoFront(front: seq<Request>, x: Request, rest: seq<Request>)
    ensures front + [x] + rest == front + ([x] + rest)
  {
  }

  lemma {:induction false} ReadMoreItems(requests: seq<Request>, items: seq<Item>)
    requires |items| > 1 && IsItem(items[0]) && ReadsItems(requests + [Image(items[0])], items[1..])
    ensures ReadsItems(requests, items)
  {
    RenderCons(items);
    ImagesCons(items);
    ReadItemThen(requests, items[0], RenderAll(items[1..]));
    IntoFront(requests, Image(items[0]), Images(items[1..]));
  }

  lemma {:induction false} ReadItems(requests: seq<Request>, items: seq<Item>)
    requires items != [] && forall i :: 0 <= i < |items| ==> IsItem(items[i])
    ensures ReadsItems(requests, items)
    decreases |items|
  {
    if |items| == 1 {
      ReadLastItem(requests, items[0]);
      assert items == [items[0]];
    } else {
      ReadItems(requests + [Image(items[0])], items[1..]);
      ReadMoreItems(requests, items);
    }
  }

  // ----- trimming what was rendered -----

  lemma {:induction false} Ends(items: seq<Item>)
    requires items != [] && forall i :: 0 <= i < |items| ==> IsItem(items[i])
    ensures var s := RenderAll(items);
            && s != "" && !Trims(s[0], "(") && !Trims(s[|s| - 1], ")")
            && (|s| == 1 <==> |items| == 1 && items[0].Plain? && |items[0].name| == 1)
  {
    var first := Render(items[0]);
    assert first[0] == items[0].name[0];
    if |items| > 1 {
      Ends(items[1..]);
      var s, rest := RenderAll(items), RenderAll(items[1..]);
      assert s[0] == first[0] && s[|s| - 1] == rest[|rest| - 1];
    } else if items[0].Plain? {
      assert first[|first| - 1] == items[0].name[|items[0].name| - 1];
    } else {
      assert first[|first| - 1] == ']';
    }
  }

  /** Trimming takes the outer parentheses off, and a body of one character with them. */
  lemma {:induction false} Trimmed(body: string, parens: bool)
    requires body != "" && !Trims(body[0], "(") && !Trims(body[|body| - 1], ")")
    ensures RightTrimmed(LeftTrimmed(if parens then "(" + body + ")" else body, "("), ")")
         == if |body| == 1 then "" else body
  {
    if parens {
      var s := "(" + body + ")";
      assert s[1..] == body + ")";
      assert LeftTrimmed(s, "(") == body + ")";
      assert (body + ")")[..|body|] == body;
    }
  }

  // ----- the theorems -----

  predicate LostByTrimming(items: seq<Item>) {
    |items| == 1 && items[0].Plain? && |items[0].name| == 1
  }

  /** Rendering a list of items, with or without outer parentheses, and parsing it gives the items back,
      plain names in lower case, bracketed names and sections as they were, an empty section as "nil";
      except that a list of a single one-letter name comes back empty. */
  lemma ParseRender(items: seq<Item>, parens: bool)
    requires forall i :: 0 <= i < |items| ==> IsItem(items[i])
    ensures Parse(RenderList(items, parens)) == Some(if LostByTrimming(items) then [] else Images(items))
  {
    var start := Reader(false, "", []);
    assert ReadAll(start, "") == Some(start) && Finish(start) == [];
    if items == [] {
      assert Images(items) == [];
      assert LeftTrimmed("", "(") == "";
      assert RenderList(items, true) == "()" && "()"[1..] == ")";
      assert LeftTrimmed("()", "(") == LeftTrimmed(")", "(") == ")";
    } else {
      Ends(items);
      Trimmed(RenderAll(items), parens);
      ReadItems([], items);
      assert [] + Images(items) == Images(items);
    }
  }

  /** So the round trip holds exactly when the list is not a single one-letter name. */
  lemma ParseRenderExact(items: seq<Item>, parens: bool)
    requires forall i :: 0 <= i < |items| ==> IsItem(items[i])
    ensures Parse(RenderList(items, parens)) == Some(Images(items)) <==> !LostByTrimming(items)
  {
    ParseRender(items, parens);
    if LostByTrimming(items) {
      assert |Images(items)| == 1;
    }
  }

  // ----- the caller -----

  /** `extract_parenthetical_atoms`: between the first `(` and the last `)`. */
  function Parenthetical(s: string): string {
    if '(' !in s || ')' !in s then s
    else
      var from, to := FirstAt(s, '(') + 1, LastAt(s, ')');
      if to < from then s[from..] else s[from..to]
  }

  function FirstAt(s: string, c: char): (i: nat)
    requires c in s
    ensures i < |s| && s[i] == c
  {
    if s[0] == c then 0 else 1 + FirstAt(s[1..], c)
  }

  function LastAt(s: string, c: char): (i: nat)
    requires c in s
    ensures i < |s| && s[i] == c
  {
    if s[|s| - 1] == c then |s| - 1 else LastAt(s[..|s| - 1], c)
  }

  /** What `on_fetch` hands to the parser. */
  function FetchAtoms(atoms: string): string {
    Unquote(if ']' in atoms then atoms else Parenthetical(atoms))
  }

  lemma {:induction false} Contents(items: seq<Item>)
    requires forall i :: 0 <= i < |items| ==> IsItem(items[i])
    ensures '"' !in RenderAll(items)
    ensures ']' !in RenderAll(items) ==> '(' !in RenderAll(items) && ')' !in RenderAll(items)
  {
    if items != [] {
      ItemContents(items[0]);
      if |items| > 1 {
        Contents(items[1..]);
      }
    }
  }

  lemma ItemContents(item: Item)
    requires IsItem(item)
    ensures '"' !in Render(item)
    ensures ']' !in Render(item) ==> '(' !in Render(item) && ')' !in Render(item)
  {
    if item.Section? {
      assert Render(item)[|Render(item)| - 1] == ']';
    }
  }

  lemma ParentheticalBody(body: string)
    requires '(' !in body && ')' !in body
    ensures Parenthetical(body) == body && Parenthetical("(" + body + ")") == body
  {
    var s := "(" + body + ")";
    assert s[0] == '(' && s[|s| - 1] == ')';
    assert s[1..|s| - 1] == body;
  }

  /** The caller's own removal of parentheses, done only when there is no bracket, changes nothing: what
      a FETCH without UID asks for is the list of items that was written. */
  lemma FetchAsks(items: seq<Item>, parens: bool)
    requires items != [] && forall i :: 0 <= i < |items| ==> IsItem(items[i])
    ensures Parse(FetchAtoms(RenderList(items, parens)))
         == Some(if LostByTrimming(items) then [] else Images(items))
  {
    Contents(items);
    if ']' in RenderAll(items) {
      BracketedAtoms(items, parens);
      ParseRender(items, parens);
    } else {
      PlainAtoms(items, parens);
      ParseRender(items, false);
    }
  }

  lemma {:induction false} BracketedAtoms(items: seq<Item>, parens: bool)
    requires ']' in RenderAll(items) && '"' !in RenderAll(items)
    ensures FetchAtoms(RenderList(items, parens)) == RenderList(items, parens)
  {
    var list := RenderList(items, parens);
    if parens {
      assert list[1..|list| - 1] == RenderAll(items);
    }
    assert ']' in list && '"' !in list;
    UnquoteNothing(list);
  }

  lemma {:induction false} PlainAtoms(items: seq<Item>, parens: bool)
    requires ']' !in RenderAll(items) && '"' !in RenderAll(items)
    requires '(' !in RenderAll(items) && ')' !in RenderAll(items)
    ensures FetchAtoms(RenderList(items, parens)) == RenderAll(items)
  {
    assert ']' !in RenderList(items, parens);
    ParentheticalBody(RenderAll(items));
    UnquoteNothing(RenderAll(items));
  }

  // ----- under UID -----

  function LowerItem(item: Item): Item {
    match item
    case Plain(name) => Plain(Lower(name))
    case Section(name, section) => Section(Lower(name), Lower(section))
  }

  function LowerItems(items: seq<Item>): (r: seq<Item>)
    ensures |r| == |items| && forall i :: 0 <= i < |r| ==> r[i] == LowerItem(items[i])
  {
    seq(|items|, i requires 0 <= i < |items| => LowerItem(items[i]))
  }

  lemma LowerConcat(a: string, b: string)
    ensures Lower(a + b) == Lower(a) + Lower(b)
  {
  }

  lemma LowerRender(item: Item)
    ensures Lower(Render(item)) == Render(LowerItem(item))
  {
    if item.Section? {
      LowerConcat(item.name, "[");
      LowerConcat(item.name + "[", item.section);
      LowerConcat(item.name + "[" + item.section, "]");
      assert Lower("[") == "[" && Lower("]") == "]";
    }
  }

  lemma {:induction false} LowerRenderAll(items: seq<Item>)
    ensures Lower(RenderAll(items)) == RenderAll(LowerItems(items))
  {
    if items != [] {
      LowerRender(items[0]);
      if |items| > 1 {
        LowerRenderAll(items[1..]);
        LowerConcat(Render(items[0]) + " ", RenderAll(items[1..]));
        LowerConcat(Render(items[0]), " ");
        assert Lower(" ") == " ";
        assert LowerItems(items)[1..] == LowerItems(items[1..]);
      }
    }
  }

  lemma LowerList(items: seq<Item>, parens: bool)
    ensures Lower(RenderList(items, parens)) == RenderList(LowerItems(items), parens)
  {
    LowerRenderAll(items);
    if parens {
      LowerConcat("(" + RenderAll(items), ")");
      LowerConcat("(", RenderAll(items));
      assert Lower("(") == "(" && Lower(")") == ")";
    }
  }

  lemma LowerIsItem(item: Item)
    requires IsItem(item)
    ensures IsItem(LowerItem(item))
  {
    LowerName(item.name);
    if item.Section? {
      LowerSection(item.section);
    }
  }

  lemma LowerName(name: string)
    requires IsName(name)
    ensures IsName(Lower(name))
  {
    forall i | 0 <= i < |name| ensures Lower(name)[i] !in " []()\"" && Lower(name)[i] != NUL {
      assert name[i] !in " []()\"";
    }
  }

  lemma LowerSection(section: string)
    requires IsSection(section)
    ensures IsSection(Lower(section))
  {
    forall i | 0 <= i < |section| ensures Lower(section)[i] !in "[]\"" {
      assert section[i] !in "[]\"";
    }
  }

  /** UID lower-cases its whole parameter before it calls FETCH, so there bracketed names and sections come
      back in lower case too. */
  lemma FetchAsksUnderUid(items: seq<Item>, parens: bool)
    requires items != [] && forall i :: 0 <= i < |items| ==> IsItem(items[i])
    ensures Parse(FetchAtoms(Lower(RenderList(items, parens))))
         == Some(if LostByTrimming(items) then [] else Images(LowerItems(items)))
  {
    LowerList(items, parens);
    forall i | 0 <= i < |items| ensures IsItem(LowerItem(items[i])) {
      LowerIsItem(items[i]);
    }
    FetchAsks(LowerItems(items), parens);
  }

  /** No bracketed name or section has a capital. */
  predicate LowerSections(items: seq<Item>) {
    forall i :: 0 <= i < |items| && items[i].Section? ==>
      NoCapitals(items[i].name) && NoCapitals(items[i].section)
  }

  lemma {:induction false} LowerTwice(s: string)
    ensures Lower(Lower(s)) == Lower(s)
  {
    LowerExactly(s);
    LowerKeepsExactly(Lower(s));
  }

  lemma {:induction false} LowerImage(item: Item)
    ensures Image(LowerItem(item)) == Image(item)
       <==> (item.Section? ==> NoCapitals(item.name) && NoCapitals(item.section))
  {
    LowerTwice(item.name);
    LowerKeepsExactly(item.name);
    if item.Section? {
      LowerKeepsExactly(item.section);
    }
  }

  lemma {:induction false} LowerImages(items: seq<Item>)
    ensures Images(LowerItems(items)) == Images(items) <==> LowerSections(items)
  {
    forall i | 0 <= i < |items|
      ensures Image(LowerItem(items[i])) == Image(items[i])
         <==> (items[i].Section? ==> NoCapitals(items[i].name) && NoCapitals(items[i].section))
    {
      LowerImage(items[i]);
    }
    assert forall i :: 0 <= i < |items| ==> Images(LowerItems(items))[i] == Image(LowerItem(items[i]));
    if Images(LowerItems(items)) == Images(items) {
      forall i | 0 <= i < |items| ensures Image(LowerItem(items[i])) == Image(items[i]) {
        assert Images(LowerItems(items))[i] == Images(items)[i];
      }
    }
  }

  /** A FETCH under UID asks for the items as they were written exactly when the list is not a single
      one-letter name and no bracketed name or section was written with a capital. */
  lemma {:induction false} FetchUnderUidExactly(items: seq<Item>, parens: bool)
    requires items != [] && forall i :: 0 <= i < |items| ==> IsItem(items[i])
    ensures Parse(FetchAtoms(Lower(RenderList(items, parens)))) == Some(Images(items))
       <==> !LostByTrimming(items) && LowerSections(items)
  {
    FetchAsksUnderUid(items, parens);
    LowerImages(items);
    if LostByTrimming(items) {
      assert |Images(items)| == 1;
    }
  }

  // ----- what comes back, spelled out -----

  /** A request for an item: a plain name in small letters and no section, a bracketed name with its section
      as they were, or with "nil" for an empty section. */
  ghost predicate AsksFor(r: Request, item: Item) {
    match item
    case Plain(name) => SmallLettersOf(r.first, name) && NoCapitals(r.first) && r.second == ""
    case Section(name, section) => r.first == name && r.second == if section == "" then "nil" else section
  }

  ghost predicate AsksForAll(requests: seq<Request>, items: seq<Item>) {
    |requests| == |items| && forall i :: 0 <= i < |items| ==> AsksFor(requests[i], items[i])
  }

  lemma {:induction false} ImageAsks(item: Item)
    ensures AsksFor(Image(item), item)
  {
    LowerExactly(item.name);
  }

  /** The parse of a rendered list has one request per item, in order. */
  lemma {:induction false} RequestsExactly(items: seq<Item>, parens: bool)
    requires (forall i :: 0 <= i < |items| ==> IsItem(items[i])) && !LostByTrimming(items)
    ensures Parse(RenderList(items, parens)).Some? && AsksForAll(Parse(RenderList(items, parens)).value, items)
  {
    ParseRender(items, parens);
    forall i | 0 <= i < |items| ensures AsksFor(Images(items)[i], items[i]) {
      ImageAsks(items[i]);
    }
  }

  // ----- trimming and quotes in general -----

  /** What is dropped on the left is the longest front of trimmed characters. */
  lemma {:induction false} LeftTrimmedExactly(s: string, chars: string) returns (k: nat)
    ensures k <= |s| && LeftTrimmed(s, chars) == s[k..]
    ensures forall i :: 0 <= i < k ==> s[i] in chars || s[i] == NUL
    ensures k < |s| ==> s[k] !in chars && s[k] != NUL
  {
    if s == "" || !Trims(s[0], chars) {
      k := 0;
    } else {
      k := LeftTrimmedExactly(s[1..], chars);
      k := k + 1;
      assert s[1..][k - 1..] == s[k..];
    }
  }

  /** On the right likewise, except that what would be left at length one goes too. */
  lemma {:induction false} RightTrimmedExactly(s: string, chars: string) returns (k: nat)
    ensures k <= |s| && (forall i :: k <= i < |s| ==> s[i] in chars || s[i] == NUL)
    ensures k > 1 ==> s[k - 1] !in chars && s[k - 1] != NUL
    ensures RightTrimmed(s, chars) == if k <= 1 then "" else s[..k]
  {
    if |s| <= 1 || !Trims(s[|s| - 1], chars) {
      k := |s|;
      assert s[..k] == s;
    } else {
      k := RightTrimmedExactly(s[..|s| - 1], chars);
      assert s[..|s| - 1][..k] == s[..k];
    }
  }

  lemma {:induction false} FirstGoes(a: string, rest: string)
    requires '"' !in a
    ensures WithoutFirst(a + "\"" + rest, '"') == a + rest
    decreases |a|
  {
    if a == "" {
      assert a + "\"" + rest == "\"" + rest && ("\"" + rest)[1..] == rest && a + rest == rest;
    } else {
      var s := a + "\"" + rest;
      assert s[1..] == a[1..] + "\"" + rest && s[0] == a[0] && a[0] in a;
      assert forall c :: c in a[1..] ==> c in a;
      FirstGoes(a[1..], rest);
      assert [a[0]] + (a[1..] + rest) == a + rest;
    }
  }

  lemma {:induction false} LastGoes(front: string, c: string)
    requires '"' !in c
    ensures WithoutLast(front + "\"" + c, '"') == front + c
    decreases |c|
  {
    var s := front + "\"" + c;
    if c == "" {
      assert s[..|s| - 1] == front && front + c == front;
    } else {
      var init := c[..|c| - 1];
      assert s[..|s| - 1] == front + "\"" + init && s[|s| - 1] == c[|c| - 1] && c[|c| - 1] in c;
      assert forall d :: d in init ==> d in c;
      LastGoes(front, init);
      assert front + init + [c[|c| - 1]] == front + c;
    }
  }

  /** The outermost pair of quotes goes, whatever stands inside. */
  lemma {:induction false} UnquotePair(a: string, b: string, c: string)
    requires '"' !in a && '"' !in c
    ensures Unquote(a + "\"" + (b + "\"" + c)) == a + b + c
  {
    FirstGoes(a, b + "\"" + c);
    assert a + (b + "\"" + c) == (a + b) + "\"" + c;
    LastGoes(a + b, c);
  }

  /** A single quote goes on its own. */
  lemma {:induction false} UnquoteSingle(a: string, c: string)
    requires '"' !in a && '"' !in c
    ensures Unquote(a + "\"" + c) == a + c
  {
    FirstGoes(a, c);
    UnquoteNothing(a + c);
  }

  /** A section with quotes comes back without the outermost pair. */
  lemma {:induction false} ReadQuotedSection(requests: seq<Request>, name: string, a: string, b: string, c: string)
    requires IsName(name) && IsSection(a) && IsSection(c) && forall i :: 0 <= i < |b| ==> b[i] != '[' && b[i] != ']'
    ensures ReadAll(Reader(false, name, requests), "[" + ((a + "\"" + (b + "\"" + c)) + "]"))
         == Some(Reader(false, "", requests + [Request(name, a + b + c)]))
  {
    var section, before := a + "\"" + (b + "\"" + c), requests + [Request(name, "")];
    ReadOpening(requests, name, section + "]");
    ReadWord(Reader(true, "", before), section);
    assert "" + section == section;
    ReadConcat(Reader(true, "", before), section, "]");
    UnquotePair(a, b, c);
    ReadOne(Reader(true, section, before), ']');
    assert before[|requests| := Request(name, a + b + c)] == requests + [Request(name, a + b + c)];
  }

  // ----- malformed lists -----

  /** A name in front of a stray `]` is lost. */
  lemma {:induction false} StrayBracket(requests: seq<Request>, name: string)
    requires IsName(name)
    ensures ReadAll(Reader(false, "", requests), name + "]") == Some(Reader(false, "", requests))
  {
    ReadWord(Reader(false, "", requests), name);
    assert "" + name == name;
    ReadConcat(Reader(false, "", requests), name, "]");
    ReadOne(Reader(false, name, requests), ']');
  }

  /** A bracket closed before any name was read writes through the empty vector. */
  lemma {:induction false} NoNameYet(section: string)
    requires IsSection(section)
    ensures ReadAll(Reader(false, "", []), "]") == None
    ensures ReadAll(Reader(false, "", []), "[" + (section + "]")) == None
  {
    ReadOne(Reader(false, "", []), ']');
    assert ("[" + (section + "]"))[1..] == section + "]";
    var nothing: seq<Request> := [];
    assert nothing + [] == nothing;
    assert Read(Reader(false, "", nothing), '[') == Some(Reader(true, "", nothing));
    ReadWord(Reader(true, "", []), section);
    assert "" + section == section;
    ReadConcat(Reader(true, "", []), section, "]");
    ReadOne(Reader(true, section, []), ']');
  }

  /** Between the first `(` and the last `)`. */
  lemma {:induction false} ParentheticalExactly(a: string, b: string, c: string)
    requires '(' !in a && ')' !in c
    ensures Parenthetical(a + "(" + (b + ")" + c)) == b
  {
    var s, from, to := a + "(" + (b + ")" + c), |a| + 1, |a| + 1 + |b|;
    BetweenParentheses(a, b, c);
    FirstAtExactly(s, '(', from - 1);
    LastAtExactly(s, ')', to);
  }

  lemma {:induction false} BetweenParentheses(a: string, b: string, c: string)
    requires '(' !in a && ')' !in c
    ensures var s, from, to := a + "(" + (b + ")" + c), |a| + 1, |a| + 1 + |b|;
      && to < |s| && s[from - 1] == '(' && s[to] == ')' && s[from..to] == b
      && (forall i :: 0 <= i < from - 1 ==> s[i] != '(') && (forall i :: to < i < |s| ==> s[i] != ')')
  {
    var s, from, to := a + "(" + (b + ")" + c), |a| + 1, |a| + 1 + |b|;
    assert forall i :: 0 <= i < from - 1 ==> s[i] == a[i];
    assert forall i :: to < i < |s| ==> s[i] == c[i - to - 1];
  }

  lemma {:induction false} FirstAtExactly(s: string, c: char, k: nat)
    requires k < |s| && s[k] == c && forall i :: 0 <= i < k ==> s[i] != c
    ensures c in s && FirstAt(s, c) == k
  {
    if k > 0 {
      FirstAtExactly(s[1..], c, k - 1);
    }
  }

  lemma {:induction false} LastAtExactly(s: string, c: char, k: nat)
    requires k < |s| && s[k] == c && forall i :: k < i < |s| ==> s[i] != c
    ensures c in s && LastAt(s, c) == k
  {
    if k < |s| - 1 {
      LastAtExactly(s[..|s| - 1], c, k);
    }
  }

  /** A list of plain names in quotes is read like the list itself. */
  lemma {:induction false} FetchAsksQuoted(items: seq<Item>)
    requires items != [] && forall i :: 0 <= i < |items| ==> IsItem(items[i]) && items[i].Plain?
    ensures Parse(FetchAtoms("\"" + RenderAll(items) + "\"")) == Parse(FetchAtoms(RenderAll(items)))
  {
    Contents(items);
    PlainHasNoBracket(items);
    QuotedAtoms(RenderAll(items));
  }

  lemma {:induction false} QuotedAtoms(body: string)
    requires '"' !in body && ']' !in body && '(' !in body && ')' !in body
    ensures FetchAtoms("\"" + body + "\"") == body && FetchAtoms(body) == body
  {
    var quoted := "\"" + body + "\"";
    assert "" + "\"" + (body + "\"" + "") == quoted && "" + body + "" == body;
    UnquotePair("", body, "");
    UnquoteNothing(body);
    assert ']' !in quoted && '(' !in quoted;
  }

  lemma {:induction false} PlainHasNoBracket(items: seq<Item>)
    requires forall i :: 0 <= i < |items| ==> IsItem(items[i]) && items[i].Plain?
    ensures ']' !in RenderAll(items)
  {
    if items != [] {
      assert ']' !in Render(items[0]);
      if |items| > 1 {
        PlainHasNoBracket(items[1..]);
      }
    }
  }

  /** A quoted name loses its quotes in front of a space or a bracket, and keeps them at the end of the list. */
  lemma {:induction false} QuotedName(requests: seq<Request>, a: string, b: string, c: string)
    requires '"' !in a && '"' !in c
    ensures var name := a + "\"" + (b + "\"" + c);
      && Read(Reader(false, name, requests), ' ')
         == Some(Reader(false, "", requests + [Request(Lower(a + b + c), "")]))
      && Read(Reader(false, name, requests), '[')
         == Some(Reader(true, "", requests + [Request(a + b + c, "")]))
      && Finish(Reader(false, name, requests)) == requests + [Request(Lower(name), "")]
  {
    UnquotePair(a, b, c);
  }
}
