/** The LIST wildcard compiler: an IMAP mailbox pattern becomes the text of a regular expression, which a
    regular expression library then reads back and matches against whole names. */
module ListWildcards {
  import opened Text

  // ----- section 6.3.8 of RFC 3501 -----

  /** `*` is any run of characters, `%` any run without the hierarchy delimiter. */
  ghost predicate ImapMatch(pattern: string, name: string) {
    if pattern == "" then name == ""
    else if pattern[0] == '*' then
      exists k :: 0 <= k <= |name| && ImapMatch(pattern[1..], name[k..])
    else if pattern[0] == '%' then
      exists k :: 0 <= k <= |name| && '/' !in name[..k] && ImapMatch(pattern[1..], name[k..])
    else name != "" && name[0] == pattern[0] && ImapMatch(pattern[1..], name[1..])
  }

  // ----- the compiler -----

  predicate Escaped(c: char) {
    c in "+-.$()"
  }

  function Chunk(c: char): string {
    if c == '*' then ".*" else if c == '%' then "[^/]*" else if Escaped(c) then ['\\', c] else [c]
  }

  function Body(pattern: string): string {
    if pattern == "" then "" else Chunk(pattern[0]) + Body(pattern[1..])
  }

  /** The emitted text of a pattern, closing anchor included. */
  function Emitted(pattern: string): string {
    Body(pattern) + "$"
  }

  /** Translation distributes over a reference and a pattern. */
  lemma {:induction false} BodyConcat(a: string, b: string)
    ensures Body(a + b) == Body(a) + Body(b)
  {
    if a == "" {
      assert a + b == b;
    } else {
      assert (a + b)[1..] == a[1..] + b;
      BodyConcat(a[1..], b);
    }
  }

  method AppendChunk(regEx: string, c: char) returns (r: string)
    ensures r == regEx + Chunk(c)
  {
    r := regEx;
    if c == '*' {
      r := r + ".*";
    } else if c == '%' {
      r := r + "[^";
      r := r + "/";
      r := r + "]*";
    } else if c in {'+', '-', '.', '$', '(', ')'} {
      r := r + "\\";
      r := r + [c];
    } else {
      r := r + [c];
    }
  }

  lemma {:induction false} BodySnoc(pattern: string, c: char)
    ensures Body(pattern + [c]) == Body(pattern) + Chunk(c)
  {
    BodyConcat(pattern, [c]);
    assert [c][1..] == "" && Chunk(c) + "" == Chunk(c);
  }

  lemma {:induction false} Regroup(a: string, b: string, c: string)
    ensures a + b + c == a + (b + c)
  {
  }

  lemma {:induction false} BodyNext(pattern: string, i: nat)
    requires i < |pattern|
    ensures Body(pattern[..i + 1]) == Body(pattern[..i]) + Chunk(pattern[i])
  {
    BodySnoc(pattern[..i], pattern[i]);
    assert pattern[..i + 1] == pattern[..i] + [pattern[i]];
  }

  /** The regular expression text for a reference and a pattern. */
  method EnumMailboxList(reference: string, criteria: string) returns (regEx: string)
    ensures regEx == "^" + Emitted(reference + criteria)
  {
    var pattern := reference + criteria;
    regEx := "^";
    ghost var body := "";
    for i := 0 to |pattern|
      invariant regEx == "^" + body && body == Body(pattern[..i])
    {
      BodyNext(pattern, i);
      Regroup("^", body, Chunk(pattern[i]));
      regEx := AppendChunk(regEx, pattern[i]);
      body := body + Chunk(pattern[i]);
    }
    assert pattern[..|pattern|] == pattern;
    Regroup("^", body, "$");
    regEx := regEx + "$";
  }

  // ----- reading regular expression text -----

  datatype Atom = Literal(c: char) | Any | NotIn(c: char)

  datatype Quantifier = Once | AtMostOnce | Repeated

  datatype Piece = Piece(atom: Atom, quantifier: Quantifier)

  predicate Meta(c: char) {
    c in "^$.*+?()[]{}|\\"
  }

  /** One atom and the text behind it: `.`, an escaped punctuation mark, `[^c]`, or a plain character. */
  function ReadAtom(text: string): (r: Option<(Atom, string)>)
    ensures r.Some? ==> |r.value.1| < |text|
  {
    if text == "" then None
    else if text[0] == '.' then Some((Any, text[1..]))
    else if text[0] == '\\' then
      if |text| >= 2 && !IsAlpha(text[1]) && !IsDigit(text[1]) then Some((Literal(text[1]), text[2..])) else None
    else if text[0] == '[' then
      if |text| >= 4 && text[1] == '^' && text[2] !in "[]\\" && text[3] == ']' then Some((NotIn(text[2]), text[4..]))
      else None
    else if Meta(text[0]) then None
    else Some((Literal(text[0]), text[1..]))
  }

  /** A `?` behind a quantifier makes it lazy, which does not matter when whole names are matched. */
  function SkipLazy(text: string): (r: string)
    ensures |r| <= |text|
  {
    if text != "" && text[0] == '?' then text[1..] else text
  }

  function ReadQuantifier(text: string): (r: (Quantifier, string))
    ensures |r.1| <= |text|
  {
    if text != "" && text[0] == '*' then (Repeated, SkipLazy(text[1..]))
    else if text != "" && text[0] == '?' then (AtMostOnce, SkipLazy(text[1..]))
    else (Once, text)
  }

  /** Pieces up to the closing anchor; `None` for text that this grammar does not have, among it a
      quantifier with nothing to repeat, for which the library throws. */
  function ReadPieces(text: string): Option<seq<Piece>>
    decreases |text|
  {
    if text == "$" then Some([])
    else match ReadAtom(text)
      case None => None
      case Some((atom, behind)) =>
        var (quantifier, rest) := ReadQuantifier(behind);
        match ReadPieces(rest)
        case None => None
        case Some(pieces) => Some([Piece(atom, quantifier)] + pieces)
  }

  function ReadRegex(text: string): Option<seq<Piece>> {
    if text != "" && text[0] == '^' then ReadPieces(text[1..]) else None
  }

  predicate Fits(atom: Atom, c: char) {
    match atom
    case Literal(d) => c == d
    case Any => true
    case NotIn(d) => c != d
  }

  /** Matching a whole name. */
  predicate Accepts(pieces: seq<Piece>, name: string)
    decreases |pieces|, |name|
  {
    if pieces == [] then name == ""
    else
      var p := pieces[0];
      var takes := name != "" && Fits(p.atom, name[0]);
      match p.quantifier
      case Once => takes && Accepts(pieces[1..], name[1..])
      case AtMostOnce => Accepts(pieces[1..], name) || (takes && Accepts(pieces[1..], name[1..]))
      case Repeated => Accepts(pieces[1..], name) || (takes && Accepts(pieces, name[1..]))
  }

  // ----- what the emitted text is read as -----

  /** No character that the compiler passes on although it means something to the library, `?` apart, and
      no NUL, at which the library would stop reading. */
  predicate NoMeta(pattern: string) {
    forall i :: 0 <= i < |pattern| ==> pattern[i] !in "[]{}|^\\" && pattern[i] != '\0'
  }

  /** The first piece for a pattern and the pattern behind it, with `?` taken as the library takes it. */
  function FirstPiece(pattern: string): (r: (Piece, string))
    requires pattern != ""
    ensures |r.1| < |pattern|
  {
    var c, rest := pattern[0], pattern[1..];
    if c == '*' then (Piece(Any, Repeated), SkipLazy(rest))
    else if c == '%' then (Piece(NotIn('/'), Repeated), SkipLazy(rest))
    else if rest != "" && rest[0] == '?' then (Piece(Literal(c), AtMostOnce), SkipLazy(rest[1..]))
    else (Piece(Literal(c), Once), rest)
  }

  function Pieces(pattern: string): Option<seq<Piece>>
    decreases |pattern|
  {
    if pattern == "" then Some([])
    else if pattern[0] == '?' then None
    else
      match Pieces(FirstPiece(pattern).1)
      case None => None
      case Some(pieces) => Some([FirstPiece(pattern).0] + pieces)
  }

  lemma EmittedStep(pattern: string)
    requires pattern != ""
    ensures Emitted(pattern) == Chunk(pattern[0]) + Emitted(pattern[1..])
  {
  }

  /** A quantifier can come only from a `?` in the pattern. */
  lemma EmittedHead(pattern: string)
    requires NoMeta(pattern)
    ensures var t := Emitted(pattern);
            && t != "" && t[0] != '*'
            && (t[0] == '?' <==> pattern != "" && pattern[0] == '?')
            && (t == "$" <==> pattern == "")
            && SkipLazy(t) == Emitted(SkipLazy(pattern))
  {
    if pattern != "" {
      EmittedStep(pattern);
      assert pattern[0] == '?' ==> Chunk('?') == "?";
      assert Emitted(pattern)[0] == Chunk(pattern[0])[0];
      assert |Emitted(pattern)| >= 2;
      if pattern[0] == '?' {
        assert Emitted(pattern)[1..] == Emitted(pattern[1..]);
      }
    }
  }

  lemma ReadAny(rest: string)
    ensures ReadAtom(".*" + rest) == Some((Any, "*" + rest))
  {
    assert (".*" + rest)[1..] == "*" + rest;
  }

  lemma ReadClass(rest: string)
    ensures ReadAtom("[^/]*" + rest) == Some((NotIn('/'), "*" + rest))
  {
    assert ("[^/]*" + rest)[4..] == "*" + rest;
  }

  lemma ReadWild(pattern: string)
    requires NoMeta(pattern) && pattern != "" && (pattern[0] == '*' || pattern[0] == '%')
    ensures ReadAtom(Emitted(pattern)) == Some((FirstPiece(pattern).0.atom, "*" + Emitted(pattern[1..])))
  {
    EmittedStep(pattern);
    ReadAny(Emitted(pattern[1..]));
    ReadClass(Emitted(pattern[1..]));
  }

  lemma ReadStar(pattern: string)
    requires NoMeta(pattern)
    ensures ReadQuantifier("*" + Emitted(pattern)) == (Repeated, Emitted(SkipLazy(pattern)))
  {
    EmittedHead(pattern);
    assert ("*" + Emitted(pattern))[1..] == Emitted(pattern);
  }

  lemma ReadLiteral(pattern: string)
    requires NoMeta(pattern) && pattern != ""
    requires pattern[0] != '*' && pattern[0] != '%' && pattern[0] != '?'
    ensures ReadAtom(Emitted(pattern)) == Some((Literal(pattern[0]), Emitted(pattern[1..])))
  {
    var t, c, rest := Emitted(pattern), pattern[0], pattern[1..];
    EmittedStep(pattern);
    assert c !in "[]{}|^\\";
    if Escaped(c) {
      assert t == ['\\', c] + Emitted(rest) && t[2..] == Emitted(rest);
    } else {
      assert t == [c] + Emitted(rest) && t[1..] == Emitted(rest);
    }
  }

  lemma ReadQuantifierBehind(pattern: string)
    requires NoMeta(pattern)
    ensures ReadQuantifier(Emitted(pattern))
         == if pattern != "" && pattern[0] == '?' then (AtMostOnce, Emitted(SkipLazy(pattern[1..])))
            else (Once, Emitted(pattern))
  {
    EmittedHead(pattern);
    if pattern != "" && pattern[0] == '?' {
      EmittedStep(pattern);
      assert Chunk('?') == "?";
      assert Emitted(pattern)[1..] == Emitted(pattern[1..]);
      EmittedHead(pattern[1..]);
    }
  }

  /** What stands between the first atom and the rest: the text of the quantifier and of what follows. */
  lemma {:induction false} ReadFirst(pattern: string) returns (behind: string)
    requires NoMeta(pattern) && pattern != "" && pattern[0] != '?'
    ensures var (piece, rest) := FirstPiece(pattern);
            && ReadAtom(Emitted(pattern)) == Some((piece.atom, behind))
            && ReadQuantifier(behind) == (piece.quantifier, Emitted(rest))
  {
    if pattern[0] == '*' || pattern[0] == '%' {
      ReadWild(pattern);
      ReadStar(pattern[1..]);
      behind := "*" + Emitted(pattern[1..]);
    } else {
      ReadLiteral(pattern);
      ReadQuantifierBehind(pattern[1..]);
      behind := Emitted(pattern[1..]);
    }
  }

  lemma {:induction false} ReadPiece(text: string, atom: Atom, behind: string, quantifier: Quantifier, rest: string)
    requires text != "$" && ReadAtom(text) == Some((atom, behind)) && ReadQuantifier(behind) == (quantifier, rest)
    ensures ReadPieces(text)
         == match ReadPieces(rest) case None => None case Some(pieces) => Some([Piece(atom, quantifier)] + pieces)
  {
  }

  /** A `?` with nothing to repeat. */
  lemma {:induction false} ReadQuestion(pattern: string)
    requires NoMeta(pattern) && pattern != "" && pattern[0] == '?'
    ensures ReadPieces(Emitted(pattern)) == None
  {
    EmittedHead(pattern);
  }

  lemma {:induction false} NotYetEnd(pattern: string)
    requires NoMeta(pattern) && pattern != ""
    ensures Emitted(pattern) != "$"
  {
    EmittedHead(pattern);
  }

  /** Reading back the emitted text of any pattern gives the pieces of the pattern. */
  lemma {:induction false} ReadBack(pattern: string)
    requires NoMeta(pattern)
    ensures ReadPieces(Emitted(pattern)) == Pieces(pattern)
    decreases |pattern|
  {
    if pattern == "" {
      assert Emitted(pattern) == "$";
    } else if pattern[0] == '?' {
      ReadQuestion(pattern);
    } else {
      var (piece, rest) := FirstPiece(pattern);
      ReadBack(rest);
      NotYetEnd(pattern);
      var behind := ReadFirst(pattern);
      ReadPiece(Emitted(pattern), piece.atom, behind, piece.quantifier, Emitted(rest));
    }
  }

  // ----- the language of a pattern without `?` -----

  lemma {:induction false} RunAny(pieces: seq<Piece>, name: string)
    requires pieces != [] && pieces[0] == Piece(Any, Repeated)
    ensures Accepts(pieces, name) <==> exists k :: 0 <= k <= |name| && Accepts(pieces[1..], name[k..])
    decreases |name|
  {
    assert name[0..] == name;
    if name != "" {
      RunAny(pieces, name[1..]);
      assert forall k :: 0 <= k <= |name[1..]| ==> name[1..][k..] == name[k + 1..];
      if k :| 0 <= k <= |name| && Accepts(pieces[1..], name[k..]) {
        if k > 0 {
          assert name[1..][k - 1..] == name[k..];
        }
      }
    }
  }

  lemma {:induction false} ClassTakes(pieces: seq<Piece>, name: string) returns (k: nat)
    requires pieces != [] && pieces[0] == Piece(NotIn('/'), Repeated) && Accepts(pieces, name)
    ensures k <= |name| && '/' !in name[..k] && Accepts(pieces[1..], name[k..])
    decreases |name|
  {
    if Accepts(pieces[1..], name) {
      k := 0;
      assert name[0..] == name;
    } else {
      var rest := ClassTakes(pieces, name[1..]);
      k := rest + 1;
      assert name[1..][rest..] == name[k..] && name[..k] == [name[0]] + name[1..][..rest];
    }
  }

  lemma {:induction false} ClassGives(pieces: seq<Piece>, name: string, k: nat)
    requires pieces != [] && pieces[0] == Piece(NotIn('/'), Repeated)
    requires k <= |name| && '/' !in name[..k] && Accepts(pieces[1..], name[k..])
    ensures Accepts(pieces, name)
    decreases |name|
  {
    if k == 0 {
      assert name[0..] == name;
    } else {
      assert name[..k][0] == name[0];
      assert name[1..][k - 1..] == name[k..] && name[1..][..k - 1] == name[..k][1..];
      ClassGives(pieces, name[1..], k - 1);
    }
  }

  lemma {:induction false} RunWithoutSlash(pieces: seq<Piece>, name: string)
    requires pieces != [] && pieces[0] == Piece(NotIn('/'), Repeated)
    ensures Accepts(pieces, name)
       <==> exists k :: 0 <= k <= |name| && '/' !in name[..k] && Accepts(pieces[1..], name[k..])
  {
    if Accepts(pieces, name) {
      var k := ClassTakes(pieces, name);
    }
    if k :| 0 <= k <= |name| && '/' !in name[..k] && Accepts(pieces[1..], name[k..]) {
      ClassGives(pieces, name, k);
    }
  }

  predicate NoQuestion(pattern: string) {
    forall i :: 0 <= i < |pattern| ==> pattern[i] != '?'
  }

  lemma {:induction false} PiecesMatch(pattern: string, name: string)
    requires NoQuestion(pattern)
    ensures Pieces(pattern).Some? && (Accepts(Pieces(pattern).value, name) <==> ImapMatch(pattern, name))
    decreases |pattern|
  {
    if pattern != "" {
      var rest := pattern[1..];
      assert FirstPiece(pattern).1 == rest;
      PiecesMatch(rest, name);
      var pieces := Pieces(pattern).value;
      assert pieces[1..] == Pieces(rest).value;
      if pattern[0] == '*' {
        RunAny(pieces, name);
        forall k | 0 <= k <= |name| ensures Accepts(pieces[1..], name[k..]) <==> ImapMatch(rest, name[k..]) {
          PiecesMatch(rest, name[k..]);
        }
      } else if pattern[0] == '%' {
        RunWithoutSlash(pieces, name);
        forall k | 0 <= k <= |name| ensures Accepts(pieces[1..], name[k..]) <==> ImapMatch(rest, name[k..]) {
          PiecesMatch(rest, name[k..]);
        }
      } else if name != "" {
        PiecesMatch(rest, name[1..]);
      }
    }
  }

  // ----- the language of a pattern with `?` -----

  /** The name made of what cannot be left out. */
  function Shortest(pieces: seq<Piece>): string {
    if pieces == [] then ""
    else if pieces[0].quantifier.Once? && pieces[0].atom.Literal? then [pieces[0].atom.c] + Shortest(pieces[1..])
    else Shortest(pieces[1..])
  }

  /** It is accepted, and no `?` is in it, since the library never reads one as a literal. */
  lemma {:induction false} ShortestAccepted(pattern: string)
    requires Pieces(pattern).Some?
    ensures Accepts(Pieces(pattern).value, Shortest(Pieces(pattern).value))
    ensures '?' !in Shortest(Pieces(pattern).value)
    decreases |pattern|
  {
    if pattern != "" {
      var (piece, rest) := FirstPiece(pattern);
      var pieces := Pieces(pattern).value;
      ShortestAccepted(rest);
      assert pieces[1..] == Pieces(rest).value;
      if piece.quantifier.Once? {
        assert Shortest(pieces) == [piece.atom.c] + Shortest(pieces[1..]);
        assert Shortest(pieces)[1..] == Shortest(pieces[1..]);
      } else {
        assert Shortest(pieces) == Shortest(pieces[1..]);
      }
    }
  }

  /** Under the RFC a `?` in the pattern stands for itself. */
  lemma {:induction false} QuestionKept(pattern: string, name: string)
    requires '?' in pattern && ImapMatch(pattern, name)
    ensures '?' in name
    decreases |pattern|
  {
    var rest := pattern[1..];
    if pattern[0] == '*' {
      var k :| 0 <= k <= |name| && ImapMatch(rest, name[k..]);
      QuestionKept(rest, name[k..]);
    } else if pattern[0] == '%' {
      var k :| 0 <= k <= |name| && '/' !in name[..k] && ImapMatch(rest, name[k..]);
      QuestionKept(rest, name[k..]);
    } else if pattern[0] != '?' {
      QuestionKept(rest, name[1..]);
    }
  }

  // ----- the theorems -----

  /** The regular expression emitted for a pattern is read, and lists exactly the names that the pattern
      matches under section 6.3.8 of RFC 3501. */
  ghost predicate Faithful(pattern: string) {
    var regex := ReadRegex("^" + Emitted(pattern));
    regex.Some? && forall name :: Accepts(regex.value, name) <==> ImapMatch(pattern, name)
  }

  /** Among the patterns free of `[ ] { } | ^ \` and NUL the compiler is faithful to those without `?` and to no
      other: a `?` reaches the library as a quantifier. */
  lemma FaithfulExactly(pattern: string)
    requires NoMeta(pattern)
    ensures Faithful(pattern) <==> NoQuestion(pattern)
  {
    var text := "^" + Emitted(pattern);
    assert text[1..] == Emitted(pattern);
    ReadBack(pattern);
    if NoQuestion(pattern) {
      PiecesMatch(pattern, "");
      forall name ensures Accepts(Pieces(pattern).value, name) <==> ImapMatch(pattern, name) {
        PiecesMatch(pattern, name);
      }
    } else if Pieces(pattern).Some? {
      var pieces := Pieces(pattern).value;
      var name := Shortest(pieces);
      ShortestAccepted(pattern);
      if ImapMatch(pattern, name) {
        QuestionKept(pattern, name);
      }
      assert Accepts(pieces, name) && !ImapMatch(pattern, name);
    }
  }

  lemma {:induction false} CutAgain(name: string, j: nat, i: nat)
    requires j + i <= |name|
    ensures name[..j + i][..j] == name[..j] && name[..j + i][j..] == name[j..][..i] && name[j + i..] == name[j..][i..]
  {
  }

  lemma {:induction false} MatchSplits(a: string, b: string, name: string) returns (k: nat)
    requires ImapMatch(a + b, name)
    ensures k <= |name| && ImapMatch(a, name[..k]) && ImapMatch(b, name[k..])
    decreases |a|, 1
  {
    if a == "" {
      assert a + b == b && name[0..] == name;
      return 0;
    }
    assert (a + b)[0] == a[0] && (a + b)[1..] == a[1..] + b;
    if a[0] == '*' || a[0] == '%' {
      var j :| 0 <= j <= |name| && (a[0] == '%' ==> '/' !in name[..j]) && ImapMatch(a[1..] + b, name[j..]);
      k := WildSplits(a, b, name, j);
    } else {
      var i := MatchSplits(a[1..], b, name[1..]);
      k := i + 1;
      CutAgain(name, 1, i);
    }
  }

  lemma {:induction false} WildSplits(a: string, b: string, name: string, j: nat) returns (k: nat)
    requires a != "" && (a[0] == '*' || a[0] == '%')
    requires j <= |name| && (a[0] == '%' ==> '/' !in name[..j]) && ImapMatch(a[1..] + b, name[j..])
    ensures k <= |name| && ImapMatch(a, name[..k]) && ImapMatch(b, name[k..])
    decreases |a|, 0
  {
    var i := MatchSplits(a[1..], b, name[j..]);
    k := j + i;
    CutAgain(name, j, i);
  }

  lemma {:induction false} MatchJoins(a: string, b: string, front: string, back: string)
    requires ImapMatch(a, front) && ImapMatch(b, back)
    ensures ImapMatch(a + b, front + back)
    decreases |a|, 1
  {
    if a == "" {
      assert a + b == b && front + back == back;
    } else if a[0] == '*' || a[0] == '%' {
      var j :| 0 <= j <= |front| && (a[0] == '%' ==> '/' !in front[..j]) && ImapMatch(a[1..], front[j..]);
      WildJoins(a, b, front, back, j);
    } else {
      MatchJoins(a[1..], b, front[1..], back);
      FirstOfTwo(a, b);
      FirstOfTwo(front, back);
    }
  }

  lemma {:induction false} FirstOfTwo(a: string, b: string)
    requires a != ""
    ensures (a + b)[0] == a[0] && (a + b)[1..] == a[1..] + b
  {
  }

  lemma {:induction false} WildJoins(a: string, b: string, front: string, back: string, j: nat)
    requires a != "" && (a[0] == '*' || a[0] == '%') && ImapMatch(b, back)
    requires j <= |front| && (a[0] == '%' ==> '/' !in front[..j]) && ImapMatch(a[1..], front[j..])
    ensures ImapMatch(a + b, front + back)
    decreases |a|, 0
  {
    var name := front + back;
    MatchJoins(a[1..], b, front[j..], back);
    FirstOfTwo(a, b);
    assert name[j..] == front[j..] + back && name[..j] == front[..j];
    assert ImapMatch((a + b)[1..], name[j..]);
  }

  /** Matching distributes over reference and pattern, as translation does. */
  lemma {:induction false} MatchConcat(reference: string, criteria: string, name: string)
    ensures ImapMatch(reference + criteria, name)
       <==> exists k :: 0 <= k <= |name| && ImapMatch(reference, name[..k]) && ImapMatch(criteria, name[k..])
  {
    if ImapMatch(reference + criteria, name) {
      var k := MatchSplits(reference, criteria, name);
    }
    if k :| 0 <= k <= |name| && ImapMatch(reference, name[..k]) && ImapMatch(criteria, name[k..]) {
      MatchJoins(reference, criteria, name[..k], name[k..]);
      assert name[..k] + name[k..] == name;
    }
  }

  // ----- the matching relation, piece by piece -----

  lemma {:induction false} MatchEmpty(name: string)
    ensures ImapMatch("", name) <==> name == ""
  {
  }

  /** `*` alone matches every name. */
  lemma {:induction false} MatchStar(name: string)
    ensures ImapMatch("*", name)
  {
    assert "*"[1..] == "" && name[|name|..] == "";
    assert ImapMatch("", name[|name|..]);
  }

  /** `%` alone matches exactly the names without the hierarchy delimiter. */
  lemma {:induction false} MatchPercent(name: string)
    ensures ImapMatch("%", name) <==> '/' !in name
  {
    assert "%"[1..] == "" && name[|name|..] == "" && name[..|name|] == name;
    assert ImapMatch("", name[|name|..]);
    if k :| 0 <= k <= |name| && '/' !in name[..k] && ImapMatch("%"[1..], name[k..]) {
      assert name[k..] == "";
    }
  }

  /** Every other character matches itself. With `MatchConcat` this settles every pattern. */
  lemma {:induction false} MatchLiteral(c: char, name: string)
    requires c != '*' && c != '%'
    ensures ImapMatch([c], name) <==> name == [c]
  {
    assert [c][1..] == "";
    if name != "" {
      assert name == [name[0]] + name[1..];
    }
  }
}
