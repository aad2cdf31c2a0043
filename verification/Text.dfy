/** Characters, decimal text and letter case, as the C and C++ runtimes treat them
    in the default locale. */
module Text {

  datatype Option<+T> = None | Some(value: T)

  predicate IsDigit(c: char) {
    '0' <= c <= '9'
  }

  predicate IsAlpha(c: char) {
    'a' <= c <= 'z' || 'A' <= c <= 'Z'
  }

  predicate IsSpace(c: char) {
    c == ' ' || 9 as char <= c <= 13 as char
  }

  predicate AllDigits(s: string) {
    forall i :: 0 <= i < |s| ==> IsDigit(s[i])
  }

  function DigitValue(c: char): nat
    requires IsDigit(c)
  {
    c as int - '0' as int
  }

  function DigitChar(d: nat): (c: char)
    requires d < 10
    ensures IsDigit(c) && DigitValue(c) == d
  {
    ('0' as int + d) as char
  }

  /** Reads digits onto an accumulator until the text ends or a non-digit stops it. */
  function ReadDigits(s: string, acc: nat): nat {
    if s == "" || !IsDigit(s[0]) then acc else ReadDigits(s[1..], 10 * acc + DigitValue(s[0]))
  }

  /** `atoi`: white space, an optional sign, then the longest run of digits. */
  function Atoi(s: string): int {
    if s == "" then 0
    else if IsSpace(s[0]) then Atoi(s[1..])
    else if s[0] == '-' then -(ReadDigits(s[1..], 0) as int)
    else if s[0] == '+' then ReadDigits(s[1..], 0)
    else ReadDigits(s, 0)
  }

  /** Decimal text without leading zeros: what an output stream prints for a natural number. */
  function Print(n: nat): (s: string)
    ensures s != "" && AllDigits(s)
  {
    if n < 10 then [DigitChar(n)] else Print(n / 10) + [DigitChar(n % 10)]
  }

  lemma {:induction false} ReadDigitsConcat(s: string, t: string, acc: nat)
    requires AllDigits(s)
    ensures ReadDigits(s + t, acc) == ReadDigits(t, ReadDigits(s, acc))
  {
    if s == "" {
      assert s + t == t;
    } else {
      assert (s + t)[1..] == s[1..] + t;
      ReadDigitsConcat(s[1..], t, 10 * acc + DigitValue(s[0]));
    }
  }

  /** Whatever non-digit text follows a printed number, reading stops at the number. */
  lemma {:induction false} AtoiPrint(n: nat, rest: string)
    requires rest == "" || !IsDigit(rest[0])
    ensures Atoi(Print(n) + rest) == n
  {
    ReadPrint(n);
    ReadDigitsConcat(Print(n), rest, 0);
    var s := Print(n) + rest;
    assert s[0] == Print(n)[0];
    assert IsDigit(s[0]);
  }

  lemma {:induction false} ReadPrint(n: nat)
    ensures ReadDigits(Print(n), 0) == n
  {
    if n < 10 {
      assert Print(n)[1..] == "";
    } else {
      ReadPrint(n / 10);
      var last := [DigitChar(n % 10)];
      ReadDigitsConcat(Print(n / 10), last, 0);
      assert last[1..] == "";
    }
  }

  /** The decimal keys of the message map: reading back is the identity, so no two numbers share a key. */
  lemma {:induction false} PrintInjective(m: nat, n: nat)
    ensures Atoi(Print(m)) == m
    ensures Print(m) == Print(n) ==> m == n
  {
    AtoiPrint(m, "");
    AtoiPrint(n, "");
    assert Print(m) + "" == Print(m) && Print(n) + "" == Print(n);
  }

  function LowerChar(c: char): char {
    if 'A' <= c <= 'Z' then (c as int + 32) as char else c
  }

  function Lower(s: string): (r: string)
    ensures |r| == |s| && forall i :: 0 <= i < |s| ==> r[i] == LowerChar(s[i])
  {
    seq(|s|, i requires 0 <= i < |s| => LowerChar(s[i]))
  }

  // ----- digits, signs and letters, against the written alphabets -----

  const DIGITS := "0123456789"
  const UPPER := "ABCDEFGHIJKLMNOPQRSTUVWXYZ"
  const LOWER := "abcdefghijklmnopqrstuvwxyz"

  /** Printing puts the usual digits in the usual order. */
  lemma {:induction false} PrintDigit(n: nat)
    ensures Print(n) == if n < 10 then [DIGITS[n]] else Print(n / 10) + [DIGITS[n % 10]]
  {
    DigitCharAt(n % 10);
  }

  lemma {:induction false} DigitCharAt(d: nat)
    requires d < 10
    ensures DigitChar(d) == DIGITS[d]
  {
    if d < 5 {} else {}
  }

  lemma {:induction false} SkipSpaces(spaces: string, rest: string)
    requires forall i :: 0 <= i < |spaces| ==> spaces[i] in " \t\n\r" || 11 <= spaces[i] as int <= 12
    ensures Atoi(spaces + rest) == Atoi(rest)
  {
    if spaces == "" {
      assert spaces + rest == rest;
    } else {
      assert IsSpace(spaces[0]);
      assert (spaces + rest)[1..] == spaces[1..] + rest;
      SkipSpaces(spaces[1..], rest);
    }
  }

  /** White space and one sign in front of a number, anything but a digit behind it. */
  lemma {:induction false} AtoiSigned(n: nat, rest: string)
    requires rest == "" || rest[0] !in DIGITS
    ensures Atoi("-" + Print(n) + rest) == -(n as int) && Atoi("+" + Print(n) + rest) == n
  {
    NoDigitIn(rest);
    ReadPrint(n);
    ReadDigitsConcat(Print(n), rest, 0);
    assert ("-" + Print(n) + rest)[1..] == Print(n) + rest;
    assert ("+" + Print(n) + rest)[1..] == Print(n) + rest;
  }

  lemma {:induction false} NoDigitIn(rest: string)
    requires rest == "" || rest[0] !in DIGITS
    ensures rest == "" || !IsDigit(rest[0])
  {
    if rest != "" && IsDigit(rest[0]) {
      DigitCharAt(DigitValue(rest[0]));
    }
  }

  /** Without a digit at the front the number is zero. */
  lemma {:induction false} AtoiNothing(rest: string)
    requires rest == "" || (rest[0] !in DIGITS && rest[0] !in " \t\n\r+-" && !(11 <= rest[0] as int <= 12))
    ensures Atoi(rest) == 0
  {
    NoDigitIn(rest);
  }

  lemma {:induction false} UpperAt(i: int)
    requires 0 <= i < 26
    ensures UPPER[i] as int == 'A' as int + i
  {
    if i < 13 {} else {}
  }

  lemma {:induction false} LowerAt(i: int)
    requires 0 <= i < 26
    ensures LOWER[i] as int == 'a' as int + i
  {
    if i < 13 {} else {}
  }

  lemma {:induction false} UpperLetter(c: char)
    ensures c in UPPER <==> 'A' <= c <= 'Z'
  {
    if 'A' <= c <= 'Z' {
      UpperAt(c as int - 'A' as int);
    }
    if i :| 0 <= i < 26 && UPPER[i] == c {
      UpperAt(i);
    }
  }

  /** The k-th capital becomes the k-th small letter. */
  lemma {:induction false} LowerOfUpper(k: nat)
    requires k < 26
    ensures LowerChar(UPPER[k]) == LOWER[k]
  {
    UpperAt(k);
    LowerAt(k);
  }

  /** Every other character stays. */
  lemma {:induction false} LowerOfOther(c: char)
    requires c !in UPPER
    ensures LowerChar(c) == c
  {
    UpperLetter(c);
  }

  predicate NoCapitals(s: string) {
    forall i :: 0 <= i < |s| ==> s[i] !in UPPER
  }

  /** What lower-casing does to a text: each capital gives way to the small letter in the same place of the
      alphabet, and nothing else changes. */
  ghost predicate SmallLettersOf(r: string, s: string) {
    && |r| == |s|
    && forall i :: 0 <= i < |s| ==>
         if s[i] in UPPER then exists k :: 0 <= k < 26 && s[i] == UPPER[k] && r[i] == LOWER[k] else r[i] == s[i]
  }

  lemma {:induction false} LowerExactly(s: string)
    ensures SmallLettersOf(Lower(s), s) && NoCapitals(Lower(s))
  {
    forall i | 0 <= i < |s|
      ensures if s[i] in UPPER then exists k :: 0 <= k < 26 && s[i] == UPPER[k] && Lower(s)[i] == LOWER[k]
              else Lower(s)[i] == s[i]
      ensures Lower(s)[i] !in UPPER
    {
      if k :| 0 <= k < 26 && UPPER[k] == s[i] {
        LowerOfUpper(k);
        LowerAt(k);
      } else {
        LowerOfOther(s[i]);
      }
      UpperLetter(Lower(s)[i]);
    }
  }

  /** A text is its own lower case exactly when it has no capitals. */
  lemma {:induction false} LowerKeepsExactly(s: string)
    ensures Lower(s) == s <==> NoCapitals(s)
  {
    LowerExactly(s);
    if NoCapitals(s) {
      forall i | 0 <= i < |s| ensures Lower(s)[i] == s[i] {
        LowerOfOther(s[i]);
      }
    }
  }
}
