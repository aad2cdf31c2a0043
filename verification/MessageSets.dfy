/** Message sets: `expand_message_sequence`, `process_atoms` and `is_message_set`, and what a
    sequence-set denotes under the code's rule and under section 9 of RFC 3501. */
module MessageSets {
  import opened Text
  import opened Tokenizer
  import opened Vectors

  // ----- expanding text -----

  function Range(left: int, right: int): (r: seq<int>)
    ensures forall i :: 0 <= i < |r| ==> r[i] == left + i
    ensures |r| == if left <= right then right - left + 1 else 0
    decreases right - left
  {
    if left > right then [] else [left] + Range(left + 1, right)
  }

  lemma {:induction false} RangeMembers(left: int, right: int)
    ensures Strict(Range(left, right))
    ensures forall m :: m in Range(left, right) <==> left <= m <= right
  {
    var r := Range(left, right);
    forall m | left <= m <= right ensures m in r {
      assert r[m - left] == m;
    }
  }

  /** The functor that counts up from its initial value. */
  class PopulateRange {
    var value: int

    constructor (initValue: int)
      ensures value == initValue
    {
      value := initValue;
    }

    method Next() returns (r: int)
      modifies this
      ensures r == old(value) && value == r + 1
    {
      r := value;
      value := value + 1;
    }
  }

  /** `generate_n` into the back of a vector; a count that is not positive generates nothing. */
  method GenerateN(subatoms: seq<int>, count: int, left: int) returns (r: seq<int>)
    ensures r == subatoms + Range(left, left + count - 1)
  {
    r := subatoms;
    var generator := new PopulateRange(left);
    var i := 0;
    while i < count
      invariant i == 0 || 0 < i <= count
      invariant generator.value == left + i
      invariant r + Range(left + i, left + count - 1) == subatoms + Range(left, left + count - 1)
    {
      var x := generator.Next();
      r := r + [x];
      i := i + 1;
    }
  }

  /** `find` of a colon. */
  function FindColon(s: string): (p: int)
    ensures p == NPOS || (0 <= p < |s| && s[p] == ':')
  {
    if s == "" then NPOS
    else if s[0] == ':' then 0
    else if FindColon(s[1..]) == NPOS then NPOS
    else 1 + FindColon(s[1..])
  }

  lemma {:induction false} NoColon(s: string)
    requires forall i :: 0 <= i < |s| ==> s[i] != ':'
    ensures FindColon(s) == NPOS
  {
    if s != "" {
      NoColon(s[1..]);
    }
  }

  lemma {:induction false} FirstColon(left: string, right: string)
    requires forall i :: 0 <= i < |left| ==> left[i] != ':'
    ensures FindColon(left + ":" + right) == |left|
  {
    if left == "" {
      assert left + ":" + right == ":" + right;
    } else {
      assert (left + ":" + right)[1..] == left[1..] + ":" + right;
      FirstColon(left[1..], right);
    }
  }

  /** The numbers one atom stands for. */
  function AtomValues(atom: string, limit: int): seq<int> {
    var colon := FindColon(atom);
    if colon == NPOS then [Atoi(atom)] else PairValues(Atoi(atom[..colon]), atom[colon + 1..], limit)
  }

  /** The numbers behind a number, a colon and `right`. */
  function PairValues(left: int, right: string, limit: int): seq<int> {
    if right != "*" then
      if left <= Atoi(right)
      then Range(left, if Atoi(right) > limit then limit else Atoi(right))
      else []
    else if limit == 0 then []
    else Range(left, limit)
  }

  function ValuesOf(atoms: seq<string>, limit: int): seq<int> {
    if atoms == [] then [] else AtomValues(atoms[0], limit) + ValuesOf(atoms[1..], limit)
  }

  /** The vector `expand_message_sequence` builds. */
  function Expand(sequence: string, limit: int): seq<int> {
    ValuesOf(Tokens(sequence, ","), limit)
  }

  method ProcessAtoms(atom: string, subatoms: seq<int>, limit: int) returns (r: seq<int>)
    ensures r == subatoms + AtomValues(atom, limit)
  {
    var idx := FindColon(atom);
    if idx == NPOS {
      r := subatoms + [Atoi(atom)];
    } else {
      var left := atom[..idx];
      idx := idx + 1;
      var right := atom[idx..];
      r := ProcessPair(Atoi(left), right, subatoms, limit);
    }
  }

  method ProcessPair(dwLeft: int, right: string, subatoms: seq<int>, limit: int) returns (r: seq<int>)
    ensures r == subatoms + PairValues(dwLeft, right, limit)
  {
    r := subatoms;
    if right != "*" {
      var dwRight := Atoi(right);
      if dwLeft <= dwRight {
        if dwRight > limit {
          dwRight := limit;
        }
        r := GenerateN(r, dwRight + 1 - dwLeft, dwLeft);
      }
    } else {
      if limit == 0 {
        return;
      }
      var dwRight := limit;
      if dwLeft <= dwRight {
        r := GenerateN(r, dwRight + 1 - dwLeft, dwLeft);
      }
    }
  }

  lemma {:induction false} ValuesOfSnoc(atoms: seq<string>, atom: string, limit: int)
    ensures ValuesOf(atoms + [atom], limit) == ValuesOf(atoms, limit) + AtomValues(atom, limit)
  {
    if atoms == [] {
      assert atoms + [atom] == [atom];
    } else {
      assert (atoms + [atom])[1..] == atoms[1..] + [atom];
      ValuesOfSnoc(atoms[1..], atom, limit);
    }
  }

  lemma {:induction false} OneMore(atoms: seq<string>, i: nat)
    requires i < |atoms|
    ensures atoms[..i + 1] == atoms[..i] + [atoms[i]]
  {
  }

  lemma {:induction false} ValuesOfNext(atoms: seq<string>, i: nat, limit: int)
    requires i < |atoms|
    ensures ValuesOf(atoms[..i + 1], limit) == ValuesOf(atoms[..i], limit) + AtomValues(atoms[i], limit)
  {
    OneMore(atoms, i);
    ValuesOfSnoc(atoms[..i], atoms[i], limit);
  }

  method ExpandMessageSequence(sequence: string, limit: int) returns (subatoms: seq<int>)
    ensures subatoms == Expand(sequence, limit)
  {
    var atoms, count := SafeTokenize([], sequence, ",");
    assert [] + Tokens(sequence, ",") == Tokens(sequence, ",");
    subatoms := [];
    for i := 0 to |atoms|
      invariant subatoms == ValuesOf(atoms[..i], limit)
    {
      subatoms := ProcessAtoms(atoms[i], subatoms, limit);
      ValuesOfNext(atoms, i, limit);
    }
    assert atoms[..|atoms|] == atoms;
  }

  // ----- the grammar of section 9 of RFC 3501 -----

  /** The six forms of one element of a sequence-set. */
  datatype Item =
    | One(n: nat)
    | Closed(a: nat, b: nat)
    | From(a: nat)
    | Star
    | StarTo(b: nat)
    | StarStar

  function Render(item: Item): string {
    match item
    case One(n) => Print(n)
    case Closed(a, b) => Print(a) + ":" + Print(b)
    case From(a) => Print(a) + ":" + "*"
    case Star => "*"
    case StarTo(b) => "*" + ":" + Print(b)
    case StarStar => "*" + ":" + "*"
  }

  function RenderAll(items: seq<Item>): string {
    if items == [] then ""
    else if |items| == 1 then Render(items[0])
    else Render(items[0]) + "," + RenderAll(items[1..])
  }

  /** What the code takes an item to denote among the numbers 1 to `limit`: only ascending ranges
      count, and a `*` on the left reads as zero. */
  predicate Touches(item: Item, m: int) {
    match item
    case One(n) => m == n
    case Closed(a, b) => a <= m <= b
    case From(a) => a <= m
    case Star => false
    case StarTo(b) => m <= b
    case StarStar => true
  }

  /** What the RFC has it denote: `*` is the largest number in use and the two ends of a range
      come in either order. */
  predicate RfcDenotes(item: Item, m: int, largest: int) {
    match item
    case One(n) => m == n
    case Closed(a, b) => a <= m <= b || b <= m <= a
    case From(a) => a <= m <= largest || largest <= m <= a
    case Star => m == largest
    case StarTo(b) => b <= m <= largest || largest <= m <= b
    case StarStar => m == largest
  }

  /** When the two readings of one item agree in a mailbox of `limit` messages. */
  predicate ReadAlike(item: Item, limit: nat) {
    limit == 0 ||
    match item
    case One(_) => true
    case Closed(a, b) => a <= b || b > limit
    case From(a) => a <= limit
    case Star => false
    case StarTo(b) => limit == 1 && b >= 1
    case StarStar => limit == 1
  }

  lemma ReadAlikeExact(item: Item, limit: nat)
    ensures ReadAlike(item, limit)
       <==> forall m :: 1 <= m <= limit ==> (Touches(item, m) <==> RfcDenotes(item, m, limit))
  {
    if limit >= 1 && !ReadAlike(item, limit) {
      var apart := match item
        case Closed(_, b) => if b >= 1 then b else 1
        case From(_) => limit
        case Star => limit
        case StarTo(b) => if b == 0 then 1 else if b >= limit then 1 else limit
        case StarStar => 1
        case One(n) => n;
      assert 1 <= apart <= limit;
      assert Touches(item, apart) <==> !RfcDenotes(item, apart, limit);
    }
  }

  // ----- text and denotation -----

  /** A range splits at its colon. */
  lemma SplitAtColon(left: string, right: string)
    requires forall i :: 0 <= i < |left| ==> left[i] != ':'
    ensures var s := left + ":" + right;
            FindColon(s) == |left| && s[..|left|] == left && s[|left| + 1..] == right
  {
    var s := left + ":" + right;
    assert forall i :: 0 <= i < |left| ==> s[i] == left[i];
    assert s[|left|] == ':';
    FirstColon(left, right);
    assert s[..|left|] == left && s[|left| + 1..] == right;
  }

  lemma RangeAtom(left: string, right: string, limit: int)
    requires forall i :: 0 <= i < |left| ==> left[i] != ':'
    ensures AtomValues(left + ":" + right, limit)
         == if right == "*" then (if limit == 0 then [] else Range(Atoi(left), limit))
            else if Atoi(left) <= Atoi(right)
            then Range(Atoi(left), if Atoi(right) > limit then limit else Atoi(right))
            else []
  {
    SplitAtColon(left, right);
  }

  lemma ClosedItem(a: nat, b: nat, limit: nat, m: int)
    requires m >= 1
    ensures m in AtomValues(Render(Closed(a, b)), limit) <==> a <= m <= b && m <= limit
  {
    RangeAtom(Print(a), Print(b), limit);
    PrintInjective(a, a);
    PrintInjective(b, b);
    RangeMembers(a, if b > limit then limit else b);
  }

  lemma FromItem(a: nat, limit: nat, m: int)
    requires m >= 1
    ensures m in AtomValues(Render(From(a)), limit) <==> a <= m <= limit
  {
    RangeAtom(Print(a), "*", limit);
    PrintInjective(a, a);
    RangeMembers(a, limit);
  }

  /** A `*` on the left is read as a number. */
  lemma {:induction false} StarIsZero()
    ensures Atoi("*") == 0
  {
    assert !IsDigit('*');
  }

  lemma StarToItem(b: nat, limit: nat, m: int)
    requires m >= 1
    ensures m in AtomValues(Render(StarTo(b)), limit) <==> m <= b && m <= limit
  {
    var right := Print(b);
    assert right != "*" by {
      assert IsDigit(right[0]);
    }
    RangeAtom("*", right, limit);
    StarIsZero();
    PrintInjective(b, b);
    RangeMembers(0, if b > limit then limit else b);
  }

  lemma StarStarItem(limit: nat, m: int)
    requires m >= 1
    ensures m in AtomValues(Render(StarStar), limit) <==> m <= limit
  {
    RangeAtom("*", "*", limit);
    StarIsZero();
    RangeMembers(0, limit);
  }

  /** Expanding a rendered item yields the numbers the code takes it to denote, cut at the limit. */
  lemma AtomOfItem(item: Item, limit: nat, m: int)
    requires m >= 1
    ensures m in AtomValues(Render(item), limit) <==> Touches(item, m) && (item.One? || m <= limit)
  {
    match item
    case One(n) =>
      NoColon(Print(n));
      PrintInjective(n, n);
    case Closed(a, b) => ClosedItem(a, b, limit, m);
    case From(a) => FromItem(a, limit, m);
    case Star =>
    case StarTo(b) => StarToItem(b, limit, m);
    case StarStar => StarStarItem(limit, m);
  }

  function Renders(items: seq<Item>): (r: seq<string>)
    ensures |r| == |items| && forall i :: 0 <= i < |r| ==> r[i] == Render(items[i])
  {
    seq(|items|, i requires 0 <= i < |items| => Render(items[i]))
  }

  /** The text of an item is one token. */
  lemma {:induction false} TokensOfItem(item: Item)
    ensures Tokens(Render(item), ",") == [Render(item)]
  {
    assert Free(Render(item), ",");
    TokensSingle(Render(item), ",");
  }

  lemma {:induction false} RenderCons(items: seq<Item>)
    requires |items| > 1
    ensures RenderAll(items) == Render(items[0]) + [','] + RenderAll(items[1..])
  {
    assert [','] == ",";
  }

  lemma {:induction false} RendersCons(items: seq<Item>)
    requires items != []
    ensures Renders(items) == [Render(items[0])] + Renders(items[1..])
  {
  }

  lemma {:induction false} TokensOfMore(items: seq<Item>)
    requires |items| > 1 && Tokens(RenderAll(items[1..]), ",") == Renders(items[1..])
    ensures Tokens(RenderAll(items), ",") == Renders(items)
  {
    RenderCons(items);
    TokensSplit(Render(items[0]), ',', RenderAll(items[1..]), ",");
    TokensOfItem(items[0]);
    RendersCons(items);
  }

  lemma {:induction false} TokensOfRenderAll(items: seq<Item>)
    ensures Tokens(RenderAll(items), ",") == Renders(items)
  {
    if |items| == 1 {
      TokensOfItem(items[0]);
      assert Renders(items) == [Render(items[0])];
    } else if items != [] {
      TokensOfRenderAll(items[1..]);
      TokensOfMore(items);
    }
  }

  lemma {:induction false} ValuesOfMembers(atoms: seq<string>, limit: int, m: int)
    ensures m in ValuesOf(atoms, limit)
       <==> exists i :: 0 <= i < |atoms| && m in AtomValues(atoms[i], limit)
  {
    if atoms != [] {
      ValuesOfMembers(atoms[1..], limit, m);
      if m in ValuesOf(atoms[1..], limit) {
        var i :| 0 <= i < |atoms[1..]| && m in AtomValues(atoms[1..][i], limit);
        assert atoms[1..][i] == atoms[i + 1];
      }
      if i :| 0 <= i < |atoms| && m in AtomValues(atoms[i], limit) {
        if i > 0 {
          assert atoms[1..][i - 1] == atoms[i];
        }
      }
    }
  }

  ghost predicate SomeItemTouches(items: seq<Item>, m: int) {
    exists i :: 0 <= i < |items| && Touches(items[i], m)
  }

  ghost predicate SomeItemDenotes(items: seq<Item>, m: int, largest: int) {
    exists i :: 0 <= i < |items| && RfcDenotes(items[i], m, largest)
  }

  /** For every sequence-set, expanding its text gives, up to the limit, exactly the numbers that
      some item of it touches. */
  lemma {:induction false} ExpandDenotes(items: seq<Item>, limit: nat, m: int)
    requires 1 <= m <= limit
    ensures m in Expand(RenderAll(items), limit) <==> SomeItemTouches(items, m)
  {
    TokensOfRenderAll(items);
    ValuesOfMembers(Renders(items), limit, m);
    forall i | 0 <= i < |items|
      ensures m in AtomValues(Renders(items)[i], limit) <==> Touches(items[i], m)
    {
      AtomOfItem(items[i], limit, m);
    }
  }

  /** With every item read alike the whole set is read as the RFC reads it. */
  lemma {:induction false} ExpandAgreesWithRfc(items: seq<Item>, limit: nat, m: int)
    requires 1 <= m <= limit
    requires forall i :: 0 <= i < |items| ==> ReadAlike(items[i], limit)
    ensures m in Expand(RenderAll(items), limit) <==> SomeItemDenotes(items, m, limit)
  {
    ExpandDenotes(items, limit, m);
    forall i | 0 <= i < |items|
      ensures Touches(items[i], m) <==> RfcDenotes(items[i], m, limit)
    {
      ReadAlikeExact(items[i], limit);
    }
  }

  // ----- is_message_set -----

  predicate SetChar(c: char) {
    IsDigit(c) || c == ':' || c == '*'
  }

  predicate AcceptsAtom(atom: string, limit: int) {
    && (forall i :: 0 <= i < |atom| ==> SetChar(atom[i]))
    && var colon := FindColon(atom);
       if colon == NPOS then Atoi(atom) != 0
       else
         var left, right := Atoi(atom[..colon]), atom[colon + 1..];
         if right != "*" then left != 0 && Atoi(right) != 0 && left <= Atoi(right)
         else left != 0 && limit != 0 && left <= limit
  }

  method IsMessageSet(atom: string, limit: int) returns (ret: bool)
    ensures ret <==> AcceptsAtom(atom, limit)
  {
    ret := false;
    var pos, mark := 0, 0;
    while pos < |atom|
      invariant mark <= pos <= |atom|
      invariant forall i :: 0 <= i < pos ==> SetChar(atom[i])
    {
      var c := atom[pos];
      if IsAlpha(c) {
        return false;
      } else if IsDigit(c) {
      } else if c !in {':', '*'} {
        return false;
      } else if c == ':' {
        mark := pos;
      } else if c == '*' {
        if mark > pos {
          return false;
        }
      }
      pos := pos + 1;
    }
    var idx := FindColon(atom);
    if idx == NPOS {
      if Atoi(atom) != 0 {
        ret := true;
      }
    } else {
      var left := atom[..idx];
      idx := idx + 1;
      var right := atom[idx..];
      if right != "*" {
        var dwLeft, dwRight := Atoi(left), Atoi(right);
        if dwLeft != 0 && dwRight != 0 {
          if dwLeft <= dwRight {
            ret := true;
          }
        }
      } else {
        var dwLeft := Atoi(left);
        if dwLeft != 0 {
          if limit != 0 {
            var dwRight := limit;
            if dwLeft <= dwRight {
              ret := true;
            }
          }
        }
      }
    }
  }

  lemma {:induction false} AtoiOfSetChars(s: string)
    requires forall i :: 0 <= i < |s| ==> SetChar(s[i])
    ensures Atoi(s) >= 0
  {
  }

  /** Every accepted atom expands to one contiguous ascending run of positive numbers, which is
      empty only for a closed range that starts above the limit. */
  lemma AcceptedAtomIsRun(atom: string, limit: int) returns (left: int, right: int)
    requires AcceptsAtom(atom, limit)
    ensures AtomValues(atom, limit) == Range(left, right) && left >= 1
    ensures left > right ==> left > limit && FindColon(atom) != NPOS
    ensures left > right ==> atom[FindColon(atom) + 1..] != "*"
  {
    var colon := FindColon(atom);
    if colon == NPOS {
      left, right := Atoi(atom), Atoi(atom);
      AtoiOfSetChars(atom);
      assert Range(left, left) == [left];
    } else {
      left := Atoi(atom[..colon]);
      AtoiOfSetChars(atom[..colon]);
      var tail := atom[colon + 1..];
      if tail != "*" {
        right := if Atoi(tail) > limit then limit else Atoi(tail);
      } else {
        right := limit;
      }
    }
  }

  lemma {:induction false} AcceptsRange(left: string, right: string, limit: int)
    requires forall i :: 0 <= i < |left| ==> SetChar(left[i]) && left[i] != ':'
    requires forall i :: 0 <= i < |right| ==> SetChar(right[i])
    ensures AcceptsAtom(left + ":" + right, limit)
       <==> Atoi(left) != 0 && if right == "*" then limit != 0 && Atoi(left) <= limit
                               else Atoi(right) != 0 && Atoi(left) <= Atoi(right)
  {
    SplitAtColon(left, right);
  }

  /** An accepted atom has no comma, so it is expanded as it stands. */
  lemma TokenIsAtom(atom: string)
    requires atom != "" && forall i :: 0 <= i < |atom| ==> SetChar(atom[i])
    ensures forall limit :: Expand(atom, limit) == AtomValues(atom, limit)
  {
    TokensSingle(atom, ",");
    forall limit: int ensures Expand(atom, limit) == AtomValues(atom, limit) {
      assert ValuesOf([atom], limit) == AtomValues(atom, limit) + ValuesOf([], limit);
    }
  }

  /** One character other than a digit, `:` and `*` is enough to be refused. */
  lemma {:induction false} RefusedCharacter(atom: string, limit: int, i: nat)
    requires i < |atom| && atom[i] !in DIGITS && atom[i] != ':' && atom[i] != '*'
    ensures !AcceptsAtom(atom, limit)
  {
    NoDigitIn([atom[i]]);
  }

  /** Which well-formed items `is_message_set` accepts. */
  lemma AcceptsItem(item: Item, limit: nat)
    ensures AcceptsAtom(Render(item), limit)
       <==> match item
            case One(n) => n >= 1
            case Closed(a, b) => 1 <= a <= b
            case From(a) => 1 <= a <= limit
            case _ => false
  {
    match item
    case One(n) =>
      NoColon(Print(n));
      PrintInjective(n, n);
    case Closed(a, b) =>
      AcceptsRange(Print(a), Print(b), limit);
      PrintInjective(a, a);
      PrintInjective(b, b);
    case From(a) =>
      AcceptsRange(Print(a), "*", limit);
      PrintInjective(a, a);
    case Star =>
      assert Atoi("*") == 0;
    case StarTo(b) =>
      AcceptsRange("*", Print(b), limit);
    case StarStar =>
      AcceptsRange("*", "*", limit);
  }
}
