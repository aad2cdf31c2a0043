/** The Base64 codec of the manager, on its 3-byte and 4-byte buffers, against section 4 of RFC 4648.
    Shifts of C integers are written as products and quotients by powers of two. */
module Base64 {
  import Blocks
  import Text

  type byte = x: int | 0 <= x < 256
  type sextet = x: int | 0 <= x < 64

  /** `find` returning `npos`, narrowed to an unsigned char. */
  const NOT_FOUND: byte := 255

  // ----- bits -----

  /** Bitwise and of two bits and two bits. */
  function AndPair(a: nat, b: nat): nat
    requires a < 4 && b < 4
  {
    if b == 3 then a else if b == 2 then a / 2 * 2 else if b == 1 then a % 2 else 0
  }

  /** Bitwise and of two non-negative C integers, two bits at a time. */
  function And(x: nat, mask: nat): nat {
    if mask == 0 then 0 else 4 * And(x / 4, mask / 4) + AndPair(x % 4, mask % 4)
  }

  /** The assignment of an int to an unsigned char. */
  function Narrow(x: int): byte {
    x % 256
  }

  lemma {:induction false} AndFours(x: nat, mask: nat, wider: nat)
    ensures wider == 4 * mask ==> And(x, wider) == 4 * And(x / 4, mask)
    ensures wider == 4 * mask + 3 ==> And(x, wider) == 4 * And(x / 4, mask) + x % 4
  {
  }

  lemma {:induction false} HighBits(x: byte)
    ensures x / 4 % 64 == x / 4 && x / 4 / 4 % 16 == x / 16 && x / 4 / 16 % 4 == x / 64
  {
    Quarters(x);
    assert x / 4 < 64 && x / 16 < 16 && x / 64 < 4;
  }

  lemma {:induction false} Quarters(x: nat)
    ensures x / 4 / 4 == x / 16 && x / 4 / 16 == x / 64
    ensures x % 16 == 4 * (x / 4 % 4) + x % 4 && x % 64 == 4 * (x / 4 % 16) + x % 4
  {
  }

  lemma {:induction false} Mask03(x: nat)
    ensures And(x, 0x03) == x % 4
  {
    AndFours(x, 0, 0x03);
  }

  lemma {:induction false} Mask0f(x: nat)
    ensures And(x, 0x0f) == x % 16
  {
    Quarters(x);
    AndFours(x, 0x03, 0x0f);
    Mask03(x / 4);
  }

  lemma {:induction false} Mask3f(x: nat)
    ensures And(x, 0x3f) == x % 64
  {
    Quarters(x);
    AndFours(x, 0x0f, 0x3f);
    Mask0f(x / 4);
  }

  lemma {:induction false} Mask0c(x: nat)
    ensures And(x, 0x0c) == x / 4 % 4 * 4
  {
    AndFours(x, 0x03, 0x0c);
    Mask03(x / 4);
  }

  lemma {:induction false} Mask30(x: nat)
    ensures And(x, 0x30) == x / 16 % 4 * 16
  {
    Quarters(x);
    AndFours(x, 0x0c, 0x30);
    Mask0c(x / 4);
  }

  lemma {:induction false} Mask3c(x: nat)
    ensures And(x, 0x3c) == x / 4 % 16 * 4
  {
    Quarters(x);
    AndFours(x, 0x0f, 0x3c);
    Mask0f(x / 4);
  }

  lemma {:induction false} Maskfc(x: byte)
    ensures And(x, 0xfc) == x / 4 * 4
  {
    HighBits(x);
    AndFours(x, 0x3f, 0xfc);
    Mask3f(x / 4);
  }

  lemma {:induction false} Maskf0(x: byte)
    ensures And(x, 0xf0) == x / 16 * 16
  {
    HighBits(x);
    AndFours(x, 0x3c, 0xf0);
    Mask3c(x / 4);
  }

  lemma {:induction false} Maskc0(x: byte)
    ensures And(x, 0xc0) == x / 64 * 64
  {
    HighBits(x);
    AndFours(x, 0x30, 0xc0);
    Mask30(x / 4);
  }

  // ----- table 1 of RFC 4648 -----

  predicate IsBase64(c: char) {
    'A' <= c <= 'Z' || 'a' <= c <= 'z' || '0' <= c <= '9' || c == '+' || c == '/'
  }

  function CharOf(v: sextet): char {
    if v < 26 then ('A' as int + v) as char
    else if v < 52 then ('a' as int + (v - 26)) as char
    else if v < 62 then ('0' as int + (v - 52)) as char
    else if v == 62 then '+'
    else '/'
  }

  /** The value of a character, 255 outside the alphabet. */
  function ValueOf(c: char): byte {
    if 'A' <= c <= 'Z' then c as int - 'A' as int
    else if 'a' <= c <= 'z' then c as int - 'a' as int + 26
    else if '0' <= c <= '9' then c as int - '0' as int + 52
    else if c == '+' then 62
    else if c == '/' then 63
    else NOT_FOUND
  }

  lemma ValueOfChar(v: sextet)
    ensures IsBase64(CharOf(v)) && ValueOf(CharOf(v)) == v
  {
  }

  lemma CharOfValue(c: char)
    requires IsBase64(c)
    ensures ValueOf(c) < 64 && CharOf(ValueOf(c)) == c
  {
  }

  // ----- section 4 of RFC 4648: groups of 24 bits -----

  /** Three bytes side by side. */
  function Group(b: seq<byte>): int
    requires |b| == 3
  {
    b[0] as int * 0x1_0000 + b[1] as int * 0x100 + b[2]
  }

  /** Four 6-bit groups side by side. */
  function Ungroup(v: seq<sextet>): int
    requires |v| == 4
  {
    v[0] as int * 0x4_0000 + v[1] as int * 0x1000 + v[2] as int * 0x40 + v[3]
  }

  function Sextet0(a: byte): sextet {
    a / 4
  }

  function Sextet1(a: byte, b: byte): (r: sextet)
    ensures r / 16 == a % 4 && r % 16 == b / 16
  {
    a % 4 * 16 + b / 16
  }

  function Sextet2(b: byte, c: byte): (r: sextet)
    ensures r / 4 == b % 16 && r % 4 == c / 64
  {
    b % 16 * 4 + c / 64
  }

  function Sextet3(c: byte): sextet {
    c % 64
  }

  function Octet0(v0: sextet, v1: sextet): (r: byte)
    ensures r / 4 == v0 && r % 4 == v1 / 16
  {
    v0 * 4 + v1 / 16
  }

  function Octet1(v1: sextet, v2: sextet): (r: byte)
    ensures r / 16 == v1 % 16 && r % 16 == v2 / 4
  {
    v1 % 16 * 16 + v2 / 4
  }

  function Octet2(v2: sextet, v3: sextet): (r: byte)
    ensures r / 64 == v2 % 4 && r % 64 == v3
  {
    v2 % 4 * 64 + v3
  }

  /** The 6-bit groups of up to three bytes; zero bits fill up the last one. */
  function Sextets(b: seq<byte>): (v: seq<sextet>)
    ensures |v| == if |b| == 0 then 0 else if |b| < 3 then |b| + 1 else 4
  {
    if |b| == 0 then []
    else if |b| == 1 then [Sextet0(b[0]), Sextet1(b[0], 0)]
    else if |b| == 2 then [Sextet0(b[0]), Sextet1(b[0], b[1]), Sextet2(b[1], 0)]
    else [Sextet0(b[0]), Sextet1(b[0], b[1]), Sextet2(b[1], b[2]), Sextet3(b[2])]
  }

  /** The whole bytes in up to four 6-bit groups; bits left over are dropped. */
  function Octets(v: seq<sextet>): (b: seq<byte>)
    ensures |b| == if |v| == 0 then 0 else if |v| < 4 then |v| - 1 else 3
  {
    if |v| < 2 then []
    else if |v| == 2 then [Octet0(v[0], v[1])]
    else if |v| == 3 then [Octet0(v[0], v[1]), Octet1(v[1], v[2])]
    else [Octet0(v[0], v[1]), Octet1(v[1], v[2]), Octet2(v[2], v[3])]
  }

  /** Regrouping keeps the 24 bits, and 24 bits split into 6-bit groups in one way only: these are the
      groups of the RFC. */
  lemma SextetsRegroup(b: seq<byte>, v: seq<sextet>)
    requires |b| == 3 && |v| == 4
    ensures v == Sextets(b) <==> Ungroup(v) == Group(b)
  {
    GroupIsKept(b);
    if Ungroup(v) == Group(b) {
      UngroupInjective(v, Sextets(b));
    }
  }

  lemma GroupIsKept(b: seq<byte>)
    requires |b| == 3
    ensures Ungroup(Sextets(b)) == Group(b)
  {
  }

  lemma UngroupInjective(u: seq<sextet>, v: seq<sextet>)
    requires |u| == 4 && |v| == 4 && Ungroup(u) == Ungroup(v)
    ensures u == v
  {
    assert u[0] == v[0] && u[1] == v[1] && u[2] == v[2] && u[3] == v[3];
  }

  /** The 6-bit groups of a byte string. */
  function SextetsOf(b: seq<byte>): seq<sextet> {
    Blocks.Map(3, Sextets, b)
  }

  /** The bytes that a list of 6-bit groups carries. */
  function BytesOf(v: seq<sextet>): seq<byte> {
    Blocks.Map(4, Octets, v)
  }

  function Chars(v: seq<sextet>): (s: string)
    ensures |s| == |v| && forall i :: 0 <= i < |v| ==> s[i] == CharOf(v[i])
  {
    seq(|v|, i requires 0 <= i < |v| => CharOf(v[i]))
  }

  /** What closes the last group when `left` bytes are left over for it. */
  function Padding(left: nat): string {
    if left == 1 then "==" else if left == 2 then "=" else ""
  }

  /** The encoding of a byte string. */
  function Encoding(b: seq<byte>): string {
    Chars(SextetsOf(b)) + Padding(|Blocks.Last(3, b)|)
  }

  /** Length of the leading run of alphabet characters, where decoding stops. */
  function Digits(s: string): (n: nat)
    ensures n <= |s| && InAlphabet(s[..n])
    ensures n < |s| ==> !IsBase64(s[n])
  {
    if s == "" || !IsBase64(s[0]) then 0 else 1 + Digits(s[1..])
  }

  predicate InAlphabet(s: string) {
    forall i :: 0 <= i < |s| ==> IsBase64(s[i])
  }

  /** The 6-bit value of a character of the alphabet. */
  function SextetOf(c: char): (v: sextet)
    ensures IsBase64(c) ==> v == ValueOf(c) && CharOf(v) == c
  {
    if IsBase64(c) then
      CharOfValue(c);
      ValueOf(c)
    else 0
  }

  function Values(s: string): (v: seq<sextet>)
    ensures |v| == |s| && forall i :: 0 <= i < |s| ==> v[i] == SextetOf(s[i])
  {
    seq(|s|, i requires 0 <= i < |s| => SextetOf(s[i]))
  }

  /** The bytes read from a text: those of its leading run of alphabet characters. */
  function Decoding(s: string): seq<byte> {
    BytesOf(Values(s[..Digits(s)]))
  }

  // ----- the table in the code -----

  const SYMBOLS := "+/"
  const ALPHABET := Text.UPPER + Text.LOWER + Text.DIGITS + SYMBOLS

  function Search(s: string, c: char): (i: nat)
    ensures i <= |s| && (i < |s| ==> s[i] == c)
    ensures forall k :: 0 <= k < i ==> s[k] != c
  {
    if s == "" || s[0] == c then 0 else 1 + Search(s[1..], c)
  }

  lemma AlphabetAt(v: sextet)
    ensures |ALPHABET| == 64 && ALPHABET[v] == CharOf(v)
  {
    if v < 26 {
      Text.UpperAt(v);
    } else if v < 52 {
      Text.LowerAt(v - 26);
    } else if v < 62 {
      assert ALPHABET[v] == Text.DIGITS[v - 52];
    } else {
      assert ALPHABET[v] == SYMBOLS[v - 62];
    }
  }

  lemma {:induction false} SearchAlphabet(c: char)
    ensures |ALPHABET| == 64
    ensures ValueOf(c) == if Search(ALPHABET, c) == 64 then NOT_FOUND else Search(ALPHABET, c)
  {
    var i := Search(ALPHABET, c);
    AlphabetAt(0);
    if i < 64 {
      AlphabetAt(i);
    } else if IsBase64(c) {
      CharOfValue(c);
      AlphabetAt(ValueOf(c));
    }
  }

  /** Indexing the table is the RFC's map from values to characters. */
  method TableChar(v: byte) returns (c: char)
    requires v < 64
    ensures c == CharOf(v)
  {
    AlphabetAt(v);
    c := ALPHABET[v];
  }

  /** Searching the table for a character code is the inverse map, 255 for a code that is not there. */
  method TableFind(code: byte) returns (v: byte)
    ensures v == ValueOf(code as char)
  {
    SearchAlphabet(code as char);
    var i := Search(ALPHABET, code as char);
    v := if i == |ALPHABET| then NOT_FOUND else i;
  }

  // ----- the encoding loop -----

  /** The masks and shifts of the encoder. */
  lemma {:induction false} QuadMasks(a: byte, b: byte, c: byte)
    ensures And(a, 0xfc) / 4 == Sextet0(a)
    ensures And(a, 0x03) * 16 + And(b, 0xf0) / 16 == Sextet1(a, b)
    ensures And(b, 0x0f) * 4 + And(c, 0xc0) / 64 == Sextet2(b, c)
    ensures And(c, 0x3f) == Sextet3(c)
  {
    Maskfc(a);
    Mask03(a);
    Maskf0(b);
    Mask0f(b);
    Maskc0(c);
    Mask3f(c);
  }

  method FillQuad(a3: array<byte>, a4: array<byte>)
    requires a3 != a4 && a3.Length == 3 && a4.Length == 4
    modifies a4
    ensures a4[..] == Sextets(a3[..])
  {
    QuadMasks(a3[0], a3[1], a3[2]);
    a4[0] := And(a3[0], 0xfc) / 4;
    a4[1] := And(a3[0], 0x03) * 16 + And(a3[1], 0xf0) / 16;
    a4[2] := And(a3[1], 0x0f) * 4 + And(a3[2], 0xc0) / 64;
    a4[3] := And(a3[2], 0x3f);
  }

  /** The characters of the first `count` values of the buffer. */
  method AppendChars(ret: string, a4: array<byte>, count: nat, ghost v: seq<sextet>) returns (r: string)
    requires count <= 4 == a4.Length && |v| == count && a4[..count] == v
    ensures r == ret + Chars(v)
  {
    r := ret;
    var j := 0;
    while j < count
      invariant 0 <= j <= count
      invariant r == ret + Chars(v)[..j]
    {
      assert a4[j] == v[j];
      var c := TableChar(a4[j]);
      r := r + [c];
      j := j + 1;
    }
    assert Chars(v)[..count] == Chars(v);
  }

  /** Zero bytes behind a partial group supply the zero bits that fill up its last 6-bit group. */
  lemma ZeroFiller(tail: seq<byte>, b: seq<byte>)
    requires 1 <= |tail| <= 2 && |b| == 3 && tail == b[..|tail|] && b[|tail|] == 0
    ensures Sextets(b)[..|tail| + 1] == Sextets(tail)
  {
  }

  lemma EncodingOfTail(tail: seq<byte>)
    requires |tail| < 3
    ensures Encoding(tail) == Chars(Sextets(tail)) + Padding(|tail|)
  {
  }

  /** The last, partial group of `count` bytes: zero filler, `count + 1` characters, `=` to the end. */
  method EncodeTail(ret: string, a3: array<byte>, a4: array<byte>, count: nat) returns (r: string)
    requires a3 != a4 && a3.Length == 3 && a4.Length == 4 && 1 <= count <= 2
    modifies a3, a4
    ensures r == ret + Encoding(old(a3[..count]))
  {
    var i, j := count, count;
    ghost var tail := a3[..count];
    while j < 3
      invariant i <= j <= 3
      invariant forall k :: 0 <= k < count ==> a3[k] == tail[k]
      invariant forall k :: i <= k < j ==> a3[k] == 0
    {
      a3[j] := 0;
      j := j + 1;
    }
    FillQuad(a3, a4);
    ZeroFiller(tail, a3[..]);
    r := AppendChars(ret, a4, i + 1, Sextets(tail));
    while i < 3
      invariant count <= i <= 3
      invariant r == ret + Chars(Sextets(tail)) + seq(i - count, _ => '=')
    {
      r := r + ['='];
      i := i + 1;
    }
    assert seq(3 - count, _ => '=') == Padding(count);
    EncodingOfTail(tail);
  }

  /** `rests[k]` is the encoding of the bytes from the k-th on. */
  ghost predicate Rests(bytes: seq<byte>, rests: seq<string>) {
    && |rests| == |bytes| + 1
    && forall k {:trigger Encoding(bytes[k..])} :: 0 <= k <= |bytes| ==> rests[k] == Encoding(bytes[k..])
  }

  lemma {:induction false} WholeRest(bytes: seq<byte>, rests: seq<string>, at: nat)
    requires Rests(bytes, rests) && at + 3 <= |bytes|
    ensures rests[at] == Chars(Sextets(bytes[at..at + 3])) + rests[at + 3]
  {
    WholeGroup(bytes, at);
  }

  /** A full buffer: four characters for three bytes. */
  method EncodeGroup(
      ret: string, a3: array<byte>, a4: array<byte>, ghost bytes: seq<byte>, ghost rests: seq<string>, ghost at: nat)
    returns (r: string)
    requires a3 != a4 && a3.Length == 3 && a4.Length == 4 && Rests(bytes, rests) && at + 3 <= |bytes|
    requires forall k :: 0 <= k < 3 ==> a3[k] == bytes[at + k]
    modifies a4
    ensures r + rests[at + 3] == ret + rests[at]
  {
    r := EncodeBuffer(ret, a3, a4, bytes[at..at + 3]);
    WholeRest(bytes, rests, at);
  }

  method EncodeBuffer(ret: string, a3: array<byte>, a4: array<byte>, ghost group: seq<byte>) returns (r: string)
    requires a3 != a4 && a3.Length == 3 && a4.Length == 4 && |group| == 3
    requires forall k :: 0 <= k < 3 ==> a3[k] == group[k]
    modifies a4
    ensures r == ret + Chars(Sextets(group))
  {
    assert a3[..] == group;
    FillQuad(a3, a4);
    assert a4[..4] == a4[..];
    r := AppendChars(ret, a4, 4, Sextets(group));
  }

  /** Puts one byte into the buffer and empties a full buffer. */
  method EncodeByte(
      ret: string, i: nat, c: byte, a3: array<byte>, a4: array<byte>,
      ghost bytes: seq<byte>, ghost rests: seq<string>, ghost at: nat)
    returns (r: string, left: nat)
    requires a3 != a4 && a3.Length == 3 && a4.Length == 4 && Rests(bytes, rests)
    requires i < 3 && i <= at < |bytes| && c == bytes[at]
    requires forall k :: 0 <= k < i ==> a3[k] == bytes[at - i + k]
    modifies a3, a4
    ensures left < 3 && left <= at + 1
    ensures forall k :: 0 <= k < left ==> a3[k] == bytes[at + 1 - left + k]
    ensures r + rests[at + 1 - left] == ret + rests[at - i]
  {
    a3[i] := c;
    r, left := ret, i + 1;
    if left == 3 {
      r := EncodeGroup(r, a3, a4, bytes, rests, at - 2);
      left := 0;
    }
  }

  /** The loop: encodes the full groups and leaves the `i` bytes behind them in the buffer. */
  method EncodeBytes(bytes: seq<byte>, a3: array<byte>, a4: array<byte>, ghost rests: seq<string>)
    returns (ret: string, i: nat)
    requires a3 != a4 && a3.Length == 3 && a4.Length == 4 && Rests(bytes, rests)
    modifies a3, a4
    ensures i < 3 && i <= |bytes|
    ensures forall k :: 0 <= k < i ==> a3[k] == bytes[|bytes| - i + k]
    ensures ret + rests[|bytes| - i] == rests[0]
  {
    ret, i := "", 0;
    var at: nat := 0;
    while at < |bytes|
      invariant i < 3 && i <= at <= |bytes|
      invariant forall k :: 0 <= k < i ==> a3[k] == bytes[at - i + k]
      invariant ret + rests[at - i] == rests[0]
    {
      ret, i := EncodeByte(ret, i, bytes[at], a3, a4, bytes, rests, at);
      at := at + 1;
    }
  }

  method Base64Encode(bytes: seq<byte>) returns (ret: string)
    ensures ret == Encoding(bytes)
  {
    var a3 := new byte[3](_ => 0);
    var a4 := new byte[4](_ => 0);
    ghost var rests := seq(|bytes| + 1, k requires 0 <= k <= |bytes| => Encoding(bytes[k..]));
    assert bytes[0..] == bytes;
    var i;
    ret, i := EncodeBytes(bytes, a3, a4, rests);
    if i == 0 {
      assert Encoding(bytes[|bytes|..]) == "";
    } else {
      assert a3[..i] == bytes[|bytes| - i..];
      ret := EncodeTail(ret, a3, a4, i);
    }
  }

  lemma CharsConcat(v: seq<sextet>, w: seq<sextet>)
    ensures Chars(v + w) == Chars(v) + Chars(w)
  {
  }

  lemma WholeGroup(bytes: seq<byte>, at: nat)
    requires at + 3 <= |bytes|
    ensures Encoding(bytes[at..]) == Chars(Sextets(bytes[at..at + 3])) + Encoding(bytes[at + 3..])
  {
    Blocks.MapFrom(3, Sextets, bytes, at);
    CharsConcat(Sextets(bytes[at..at + 3]), SextetsOf(bytes[at + 3..]));
  }

  // ----- the decoding loop -----

  /** The masks and shifts of the decoder, as quotients and remainders. */
  lemma {:induction false} TripleMasks(v1: byte, v2: byte)
    ensures And(v1, 0x30) / 16 == v1 / 16 % 4
    ensures And(v1, 0x0f) * 16 + And(v2, 0x3c) / 4 == v1 % 16 * 16 + v2 / 4 % 16
    ensures And(v2, 0x03) * 64 == v2 % 4 * 64
  {
    Mask30(v1);
    Mask0f(v1);
    Mask3c(v2);
    Mask03(v2);
  }

  function Byte0(v0: byte, v1: byte): byte {
    Narrow(v0 as int * 4 + v1 / 16 % 4)
  }

  function Byte1(v1: byte, v2: byte): byte {
    Narrow(v1 as int % 16 * 16 + v2 / 4 % 16)
  }

  function Byte2(v2: byte, v3: byte): byte {
    Narrow(v2 as int % 4 * 64 + v3)
  }

  function Triple(v: seq<byte>): (b: seq<byte>)
    requires |v| == 4
    ensures |b| == 3
  {
    [Byte0(v[0], v[1]), Byte1(v[1], v[2]), Byte2(v[2], v[3])]
  }

  lemma Byte0OfSextets(v0: sextet, v1: sextet)
    ensures Byte0(v0, v1) == Octet0(v0, v1)
  {
  }

  lemma {:induction false} Byte1OfSextets(v1: sextet, v2: sextet)
    ensures Byte1(v1, v2) == Octet1(v1, v2)
  {
    assert v2 / 4 % 16 == v2 / 4;
  }

  lemma Byte2OfSextets(v2: sextet, v3: sextet)
    ensures Byte2(v2, v3) == Octet2(v2, v3)
  {
  }

  method FillTriple(a4: array<byte>, a3: array<byte>)
    requires a3 != a4 && a3.Length == 3 && a4.Length == 4
    modifies a3
    ensures a3[..] == Triple(a4[..])
  {
    TripleMasks(a4[1], a4[2]);
    a3[0] := Narrow(a4[0] as int * 4 + And(a4[1], 0x30) / 16);
    a3[1] := Narrow(And(a4[1], 0x0f) * 16 + And(a4[2], 0x3c) / 4);
    a3[2] := Narrow(And(a4[2], 0x03) * 64 + a4[3] as int);
  }

  /** The bytes taken from a buffer are the RFC's: all three of a full buffer, and `|v| - 1` of a partial
      one, whatever bytes stand in the places behind it. */
  lemma FillerNeverLeaks(v: seq<sextet>, buffer: seq<byte>)
    requires 1 <= |v| <= 4 && |buffer| == 4 && forall k :: 0 <= k < |v| ==> buffer[k] == v[k]
    ensures Triple(buffer)[..|v| - 1] == Octets(v)
  {
    if |v| >= 2 {
      Byte0OfSextets(v[0], v[1]);
    }
    if |v| >= 3 {
      Byte1OfSextets(v[1], v[2]);
    }
    if |v| == 4 {
      Byte2OfSextets(v[2], v[3]);
    }
  }

  /** Replaces the codes in the buffer by their values. */
  method LookUp(a4: array<byte>)
    requires a4.Length == 4
    modifies a4
    ensures forall k :: 0 <= k < 4 ==> a4[k] == ValueOf(old(a4[k]) as char)
  {
    var j := 0;
    while j < 4
      invariant 0 <= j <= 4
      invariant forall k :: 0 <= k < j ==> a4[k] == ValueOf(old(a4[k]) as char)
      invariant forall k :: j <= k < 4 ==> a4[k] == old(a4[k])
    {
      a4[j] := TableFind(a4[j]);
      j := j + 1;
    }
  }

  /** The bytes that a text of alphabet characters carries. */
  function TextBytes(s: string): seq<byte> {
    BytesOf(Values(s))
  }

  lemma WholeText(s: string, at: nat)
    requires at + 4 <= |s|
    ensures TextBytes(s[at..]) == Octets(Values(s[at..at + 4])) + TextBytes(s[at + 4..])
  {
    Blocks.MapFrom(4, Octets, Values(s), at);
    assert Values(s)[at..] == Values(s[at..]) && Values(s)[at + 4..] == Values(s[at + 4..]);
    assert Values(s)[at..at + 4] == Values(s[at..at + 4]);
  }

  method AppendBytes(ret: seq<byte>, a3: array<byte>, count: nat) returns (r: seq<byte>)
    requires count <= a3.Length
    ensures r == ret + a3[..count]
  {
    r := ret;
    var j := 0;
    while j < count
      invariant 0 <= j <= count
      invariant r == ret + a3[..j]
    {
      r := r + [a3[j]];
      j := j + 1;
    }
  }

  /** A full buffer: three bytes for four characters. */
  method DecodeGroup(ret: seq<byte>, a4: array<byte>, a3: array<byte>, ghost text: string) returns (r: seq<byte>)
    requires a3 != a4 && a3.Length == 3 && a4.Length == 4 && |text| == 4 && InAlphabet(text)
    requires forall k :: 0 <= k < 4 ==> a4[k] == text[k] as int
    modifies a3, a4
    ensures r == ret + Octets(Values(text))
  {
    DecodeBuffer(a4, a3, 4, text);
    r := AppendBytes(ret, a3, 3);
  }

  /** Turns the first `count` codes of the buffer into `count - 1` bytes. The rest of the buffer is
      filler, and none of these bytes depends on it. */
  method DecodeBuffer(a4: array<byte>, a3: array<byte>, ghost count: nat, ghost text: string)
    requires a3 != a4 && a3.Length == 3 && a4.Length == 4 && 1 <= count <= 4
    requires |text| == count && InAlphabet(text) && forall k :: 0 <= k < count ==> a4[k] == text[k] as int
    modifies a3, a4
    ensures a3[..count - 1] == Octets(Values(text))
    ensures forall k :: 0 <= k < 4 ==> a4[k] == ValueOf(old(a4[k]) as char)
  {
    LookUp(a4);
    FillTriple(a4, a3);
    FillerNeverLeaks(Values(text), a4[..]);
    assert a3[..count - 1] == a3[..][..count - 1];
  }

  /** The last, partial group of `count` characters. Its filler looks up as 255, and none of the
      `count - 1` bytes written depends on it. */
  method DecodeTail(ret: seq<byte>, a4: array<byte>, a3: array<byte>, count: nat, ghost text: string)
    returns (r: seq<byte>)
    requires a3 != a4 && a3.Length == 3 && a4.Length == 4 && 1 <= count <= 3
    requires |text| == count && InAlphabet(text) && forall k :: 0 <= k < count ==> a4[k] == text[k] as int
    modifies a3, a4
    ensures r == ret + TextBytes(text)
    ensures forall k :: count <= k < 4 ==> a4[k] == NOT_FOUND
  {
    var j := count;
    while j < 4
      invariant count <= j <= 4
      invariant forall k :: 0 <= k < count ==> a4[k] == text[k] as int
      invariant forall k :: count <= k < j ==> a4[k] == 0
    {
      a4[j] := 0;
      j := j + 1;
    }
    DecodeBuffer(a4, a3, count, text);
    r := AppendBytes(ret, a3, count - 1);
  }

  /** The loop's condition: more characters, no `=`, the alphabet. */
  method More(encoded: string, at: nat, ghost text: string) returns (more: bool)
    requires text == encoded[..Digits(encoded)] && at <= |text|
    ensures more <==> at < |text|
    ensures more ==> at < |encoded| && encoded[at] == text[at] && encoded[at] as int < 256
  {
    more := at < |encoded| && encoded[at] != '=' && IsBase64(encoded[at]);
  }

  /** `tails[k]` is what the characters from the k-th on carry. */
  ghost predicate Tails(text: string, tails: seq<seq<byte>>) {
    && |tails| == |text| + 1
    && forall k {:trigger TextBytes(text[k..])} :: 0 <= k <= |text| ==> tails[k] == TextBytes(text[k..])
  }

  lemma {:induction false} WholeTail(text: string, tails: seq<seq<byte>>, at: nat)
    requires Tails(text, tails) && at + 4 <= |text|
    ensures tails[at] == Octets(Values(text[at..at + 4])) + tails[at + 4]
  {
    WholeText(text, at);
  }

  /** Decodes the full buffer, which holds the four characters of the text from `at` on. */
  method DecodeFull(
      ret: seq<byte>, a4: array<byte>, a3: array<byte>, ghost text: string, ghost tails: seq<seq<byte>>, ghost at: nat)
    returns (r: seq<byte>)
    requires a3 != a4 && a3.Length == 3 && a4.Length == 4 && InAlphabet(text) && Tails(text, tails)
    requires at + 4 <= |text| && forall k :: 0 <= k < 4 ==> a4[k] == text[at + k] as int
    modifies a3, a4
    ensures r + tails[at + 4] == ret + tails[at]
  {
    r := DecodeGroup(ret, a4, a3, text[at..at + 4]);
    WholeTail(text, tails, at);
  }

  /** Puts one character into the buffer and empties a full buffer. */
  method DecodeChar(
      ret: seq<byte>, i: nat, c: char, a4: array<byte>, a3: array<byte>,
      ghost text: string, ghost tails: seq<seq<byte>>, ghost at: nat)
    returns (r: seq<byte>, left: nat)
    requires a3 != a4 && a3.Length == 3 && a4.Length == 4 && InAlphabet(text) && Tails(text, tails)
    requires i < 4 && i <= at < |text| && c == text[at] && c as int < 256
    requires forall k :: 0 <= k < i ==> a4[k] == text[at - i + k] as int
    modifies a3, a4
    ensures left < 4 && left <= at + 1
    ensures forall k :: 0 <= k < left ==> a4[k] == text[at + 1 - left + k] as int
    ensures r + tails[at + 1 - left] == ret + tails[at - i]
  {
    a4[i] := c as int;
    r, left := ret, i + 1;
    if left == 4 {
      r := DecodeFull(r, a4, a3, text, tails, at - 3);
      left := 0;
    }
  }

  /** The loop: decodes the full groups of the leading run `text` and leaves the `i` characters behind
      them in the buffer. */
  method DecodeChars(
      encoded: string, a4: array<byte>, a3: array<byte>, ghost text: string, ghost tails: seq<seq<byte>>)
    returns (ret: seq<byte>, i: nat)
    requires a3 != a4 && a3.Length == 3 && a4.Length == 4
    requires text == encoded[..Digits(encoded)] && Tails(text, tails)
    modifies a3, a4
    ensures i < 4 && i <= |text|
    ensures forall k :: 0 <= k < i ==> a4[k] == text[|text| - i + k] as int
    ensures ret + tails[|text| - i] == tails[0]
  {
    ret, i := [], 0;
    var at: nat := 0;
    var more := More(encoded, at, text);
    while more
      invariant i < 4 && i <= at <= |text|
      invariant more <==> at < |text|
      invariant more ==> at < |encoded| && encoded[at] == text[at] && encoded[at] as int < 256
      invariant forall k :: 0 <= k < i ==> a4[k] == text[at - i + k] as int
      invariant ret + tails[at - i] == tails[0]
      decreases |text| - at
    {
      ret, i := DecodeChar(ret, i, encoded[at], a4, a3, text, tails, at);
      at := at + 1;
      more := More(encoded, at, text);
    }
  }

  method Base64Decode(encoded: string) returns (ret: seq<byte>)
    ensures ret == Decoding(encoded)
  {
    var a4 := new byte[4](_ => 0);
    var a3 := new byte[3](_ => 0);
    ghost var text := encoded[..Digits(encoded)];
    ghost var tails := seq(|text| + 1, k requires 0 <= k <= |text| => TextBytes(text[k..]));
    assert text[0..] == text;
    var i;
    ret, i := DecodeChars(encoded, a4, a3, text, tails);
    if i == 0 {
      assert TextBytes(text[|text|..]) == [];
    } else {
      ret := DecodeTail(ret, a4, a3, i, text[|text| - i..]);
    }
  }

  // ----- lengths -----

  lemma {:induction false} SextetsLength(b: seq<byte>, groups: nat, left: nat)
    requires |b| == 3 * groups + left && left < 3
    ensures |SextetsOf(b)| == 4 * groups + (if left == 0 then 0 else left + 1)
    ensures |Blocks.Last(3, b)| == left
  {
    if groups > 0 {
      SextetsLength(b[3..], groups - 1, left);
    }
  }

  /** Every encoding consists of whole groups of four characters. */
  lemma EncodingLength(b: seq<byte>)
    ensures |Encoding(b)| == 4 * ((|b| + 2) / 3)
  {
    EncodingOfGroups(b, |b| / 3, |b| % 3);
    RoundedUp(|b|);
  }

  lemma {:induction false} RoundedUp(n: nat)
    ensures (n + 2) / 3 == n / 3 + if n % 3 == 0 then 0 else 1
  {
  }

  lemma {:induction false} EncodingOfGroups(b: seq<byte>, groups: nat, left: nat)
    requires |b| == 3 * groups + left && left < 3
    ensures |Encoding(b)| == 4 * (groups + if left == 0 then 0 else 1)
  {
    SextetsLength(b, groups, left);
  }

  // ----- the two directions are inverse -----

  /** Splitting what was joined, for the three widths in use. */
  lemma Split(high: nat, low: nat)
    ensures low < 4 ==> (high * 4 + low) / 4 == high && (high * 4 + low) % 4 == low
    ensures low < 16 ==> (high * 16 + low) / 16 == high && (high * 16 + low) % 16 == low
    ensures low < 64 ==> (high * 64 + low) / 64 == high && (high * 64 + low) % 64 == low
  {
  }

  lemma Octet0Back(a: byte, b: byte)
    ensures Octet0(Sextet0(a), Sextet1(a, b)) == a
  {
    Split(a % 4, b / 16);
  }

  lemma Octet1Back(a: byte, b: byte, c: byte)
    ensures Octet1(Sextet1(a, b), Sextet2(b, c)) == b
  {
    Split(a % 4, b / 16);
    Split(b % 16, c / 64);
  }

  lemma Octet2Back(b: byte, c: byte)
    ensures Octet2(Sextet2(b, c), Sextet3(c)) == c
  {
    Split(b % 16, c / 64);
  }

  lemma OctetsOfSextets(b: seq<byte>)
    requires |b| <= 3
    ensures Octets(Sextets(b)) == b
  {
    if |b| >= 1 {
      Octet0Back(b[0], if |b| >= 2 then b[1] else 0);
    }
    if |b| >= 2 {
      Octet1Back(b[0], b[1], if |b| == 3 then b[2] else 0);
    }
    if |b| == 3 {
      Octet2Back(b[1], b[2]);
    }
  }

  lemma BytesOfSextets(b: seq<byte>)
    ensures BytesOf(SextetsOf(b)) == b
  {
    forall block: seq<byte> | |block| <= 3 ensures Octets(Sextets(block)) == block {
      OctetsOfSextets(block);
    }
    Blocks.MapBack(3, Sextets, 4, Octets, b);
  }

  lemma {:induction false} DigitsCons(c: char, s: string)
    requires IsBase64(c)
    ensures Digits([c] + s) == 1 + Digits(s)
  {
    assert ([c] + s)[1..] == s;
  }

  lemma {:induction false} CharsCons(v: seq<sextet>)
    requires v != []
    ensures Chars(v) == [CharOf(v[0])] + Chars(v[1..])
  {
  }

  lemma {:induction false} DigitsCount(v: seq<sextet>, tail: string)
    requires tail == "" || !IsBase64(tail[0])
    ensures Digits(Chars(v) + tail) == |v|
  {
    if v == [] {
      assert Chars(v) + tail == tail;
    } else {
      ValueOfChar(v[0]);
      DigitsCount(v[1..], tail);
      CharsCons(v);
      DigitsCons(CharOf(v[0]), Chars(v[1..]) + tail);
      assert Chars(v) + tail == [CharOf(v[0])] + (Chars(v[1..]) + tail);
    }
  }

  lemma {:induction false} ValuesOfChars(v: seq<sextet>)
    ensures Values(Chars(v)) == v
  {
    forall i | 0 <= i < |v| ensures Values(Chars(v))[i] == v[i] {
      ValueOfChar(v[i]);
    }
  }

  lemma {:induction false} DigitsOfChars(v: seq<sextet>, tail: string)
    requires tail == "" || !IsBase64(tail[0])
    ensures var s := Chars(v) + tail;
            Digits(s) == |v| && s[..|v|] == Chars(v) && Values(Chars(v)) == v
  {
    DigitsCount(v, tail);
    ValuesOfChars(v);
    assert (Chars(v) + tail)[..|v|] == Chars(v);
  }

  lemma PaddingIsNoDigit(left: nat)
    ensures Padding(left) == "" || !IsBase64(Padding(left)[0])
  {
  }

  /** Decoding undoes encoding, for every byte string. */
  lemma DecodeEncode(b: seq<byte>)
    ensures Decoding(Encoding(b)) == b
  {
    PaddingIsNoDigit(|Blocks.Last(3, b)|);
    DigitsOfChars(SextetsOf(b), Padding(|Blocks.Last(3, b)|));
    BytesOfSextets(b);
  }

  /** A last group that carries whole bytes, with no bit set beyond them. */
  predicate SpareBitsZero(last: seq<sextet>) {
    && |last| != 1
    && (|last| == 2 ==> last[1] % 16 == 0)
    && (|last| == 3 ==> last[2] % 4 == 0)
  }

  /** Canonical text: the alphabet, the right padding and nothing after it, no spare bit set. */
  ghost predicate Canonical(s: string) {
    var n := Digits(s);
    var last := Blocks.Last(4, Values(s[..n]));
    && SpareBitsZero(last)
    && s[n..] == (if |last| == 2 then "==" else if |last| == 3 then "=" else "")
  }

  lemma Sextet0Back(v0: sextet, v1: sextet)
    ensures Sextet0(Octet0(v0, v1)) == v0
  {
    Split(v0, v1 / 16);
  }

  lemma Sextet1Back(v0: sextet, v1: sextet, v2: sextet)
    ensures Sextet1(Octet0(v0, v1), Octet1(v1, v2)) == v1
    ensures v1 % 16 == 0 ==> Sextet1(Octet0(v0, v1), 0) == v1
  {
    Split(v0, v1 / 16);
    Split(v1 % 16, v2 / 4);
  }

  lemma Sextet2Back(v1: sextet, v2: sextet, v3: sextet)
    ensures Sextet2(Octet1(v1, v2), Octet2(v2, v3)) == v2
    ensures v2 % 4 == 0 ==> Sextet2(Octet1(v1, v2), 0) == v2
  {
    Split(v1 % 16, v2 / 4);
    Split(v2 % 4, v3);
  }

  lemma Sextet3Back(v2: sextet, v3: sextet)
    ensures Sextet3(Octet2(v2, v3)) == v3
  {
    Split(v2 % 4, v3);
  }

  lemma SextetsOfOctets(v: seq<sextet>)
    requires |v| <= 4 && SpareBitsZero(v)
    ensures Sextets(Octets(v)) == v
  {
    if |v| >= 2 {
      Sextet0Back(v[0], v[1]);
      Sextet1Back(v[0], v[1], if |v| >= 3 then v[2] else 0);
    }
    if |v| >= 3 {
      Sextet2Back(v[1], v[2], if |v| == 4 then v[3] else 0);
    }
    if |v| == 4 {
      Sextet3Back(v[2], v[3]);
    }
  }

  lemma {:induction false} SextetsOfBytes(v: seq<sextet>)
    requires SpareBitsZero(Blocks.Last(4, v))
    ensures SextetsOf(BytesOf(v)) == v
    ensures Blocks.Last(3, BytesOf(v)) == Octets(Blocks.Last(4, v))
  {
    forall block: seq<sextet> | |block| <= 4 && SpareBitsZero(block)
      ensures Sextets(Octets(block)) == block
    {
      SextetsOfOctets(block);
    }
    Blocks.MapBack(4, Octets, 3, Sextets, v);
    Blocks.LastOfMap(4, Octets, 3, v);
  }

  lemma CharsOfValues(s: string)
    requires InAlphabet(s)
    ensures Chars(Values(s)) == s
  {
  }

  lemma {:induction false} ValuesRoundTrip(v: seq<sextet>)
    requires SpareBitsZero(Blocks.Last(4, v))
    ensures Encoding(BytesOf(v)) == Chars(v) + Padding(|Octets(Blocks.Last(4, v))|)
  {
    SextetsOfBytes(v);
  }

  lemma PaddingOfCanonical(last: seq<sextet>)
    requires |last| < 4 && SpareBitsZero(last)
    ensures Padding(|Octets(last)|) == if |last| == 2 then "==" else if |last| == 3 then "=" else ""
  {
  }

  lemma {:induction false} CanonicalRoundTrip(s: string)
    requires Canonical(s)
    ensures Encoding(Decoding(s)) == s
  {
    var n := Digits(s);
    var v := Values(s[..n]);
    ValuesRoundTrip(v);
    CharsOfValues(s[..n]);
    PaddingOfCanonical(Blocks.Last(4, v));
    calc {
      Encoding(Decoding(s));
      Chars(v) + Padding(|Octets(Blocks.Last(4, v))|);
      s[..n] + s[n..];
      s;
    }
  }

  lemma SpareOfSextets(b: seq<byte>)
    requires |b| < 3
    ensures SpareBitsZero(Sextets(b))
  {
    if |b| == 1 {
      Split(b[0] % 4, 0);
    } else if |b| == 2 {
      Split(b[1] % 16, 0);
    }
  }

  lemma EncodingCanonical(b: seq<byte>)
    ensures Canonical(Encoding(b))
  {
    var v, last := SextetsOf(b), Blocks.Last(3, b);
    PaddingIsNoDigit(|last|);
    DigitsOfChars(v, Padding(|last|));
    Blocks.LastOfMap(3, Sextets, 4, b);
    SpareOfSextets(last);
    assert Encoding(b)[|v|..] == Padding(|last|);
  }

  /** Encoding undoes decoding on canonical text and on no other text: the two loops are mutually
      inverse bijections between byte strings and canonical text. */
  lemma EncodeDecode(s: string)
    ensures Encoding(Decoding(s)) == s <==> Canonical(s)
  {
    EncodingCanonical(Decoding(s));
    if Canonical(s) {
      CanonicalRoundTrip(s);
    }
  }

  // ----- section 10 of RFC 4648 -----

  lemma {:induction false} GroupText(a: byte, b: byte, c: byte, text: string)
    requires |text| == 4 && Chars(Sextets([a, b, c])) == text
    ensures Encoding([a, b, c]) == text
  {
    Blocks.MapCons(3, Sextets, [a, b, c], []);
    assert [a, b, c] + [] == [a, b, c] && Sextets([a, b, c]) + [] == Sextets([a, b, c]);
  }

  lemma {:induction false} TailVector1()
    ensures Encoding([102]) == "Zg=="
  {
    EncodingOfTail([102]);
    assert Chars(Sextets([102])) == "Zg";
  }

  lemma {:induction false} TailVector2()
    ensures Encoding([102, 111]) == "Zm8="
  {
    EncodingOfTail([102, 111]);
    assert Chars(Sextets([102, 111])) == "Zm8";
  }

  lemma {:induction false} GroupVector()
    ensures Encoding([102, 111, 111]) == "Zm9v"
  {
    GroupText(102, 111, 111, "Zm9v");
  }

  lemma {:induction false} LastCharacters()
    ensures Encoding([0xfb, 0xff, 0xbf]) == "+/+/"
  {
    GroupText(0xfb, 0xff, 0xbf, "+/+/");
  }

  /** The first three letters of "foobar", whole and in part, and a group of the two last characters of the
      alphabet. */
  lemma {:induction false} TestVectors()
    ensures Encoding([]) == "" && Encoding([102]) == "Zg==" && Encoding([102, 111]) == "Zm8="
    ensures Encoding([102, 111, 111]) == "Zm9v" && Encoding([0xfb, 0xff, 0xbf]) == "+/+/"
  {
    EncodingOfTail([]);
    TailVector1();
    TailVector2();
    GroupVector();
    LastCharacters();
  }

  lemma {:induction false} DigitsOfRun(s: string, rest: string)
    requires InAlphabet(s) && (rest == "" || !IsBase64(rest[0]))
    ensures Digits(s + rest) == |s|
  {
    if s == "" {
      assert s + rest == rest;
    } else {
      var tail := s[1..];
      assert s + rest == [s[0]] + (tail + rest);
      assert InAlphabet(tail);
      DigitsOfRun(tail, rest);
      DigitsCons(s[0], tail + rest);
    }
  }

  /** Decoding stops at the first character outside the alphabet, `=` included; what follows is not read. */
  lemma {:induction false} DecodingStops(s: string, rest: string)
    requires InAlphabet(s) && rest != "" && !IsBase64(rest[0])
    ensures Decoding(s + rest) == Decoding(s) == BytesOf(Values(s))
  {
    DigitsOfRun(s, rest);
    DigitsOfRun(s, "");
    assert s + "" == s && (s + rest)[..|s|] == s && s[..|s|] == s;
  }
}
