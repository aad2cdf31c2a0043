/** The truncated Base64 prefix by which a search is confined to one user's stored messages. */
module SearchFilter {
  import opened Base64
  import Blocks

  /** The fixed path element behind every user's prefix: `-FlatUrlSpace-`, 14 bytes. */
  const TAG_LENGTH := 14

  /** The encoding of prefix and tag, less as many characters as the tag alone encodes to. */
  method BuildFilter(prefix: seq<byte>, tag: seq<byte>) returns (filter: string)
    requires |tag| == TAG_LENGTH
    ensures filter == Filter(prefix, tag)
  {
    var flatEncode := Base64Encode(tag);
    filter := Base64Encode(prefix + tag);
    TagFits(prefix, tag);
    filter := filter[..|filter| - |flatEncode|];
  }

  lemma {:induction false} TagFits(prefix: seq<byte>, tag: seq<byte>)
    ensures |Encoding(tag)| <= |Encoding(prefix + tag)|
  {
    EncodingLength(tag);
    EncodingLength(prefix + tag);
    RoundsUpMore(|tag|, |prefix + tag|);
  }

  lemma {:induction false} RoundsUpMore(m: nat, n: nat)
    requires m <= n
    ensures 4 * ((m + 2) / 3) <= 4 * ((n + 2) / 3)
  {
  }

  function Filter(prefix: seq<byte>, tag: seq<byte>): string
    requires |tag| == TAG_LENGTH
  {
    TagFits(prefix, tag);
    Encoding(prefix + tag)[..|Encoding(prefix + tag)| - |Encoding(tag)|]
  }

  /** How many bytes of the URL the filter pins down. */
  function PinnedBytes(prefix: nat): (n: nat)
    ensures n % 3 == 0 && prefix - 1 <= n <= prefix + 1
  {
    (prefix + 1) / 3 * 3
  }

  lemma {:induction false} WholeGroups(a: seq<byte>)
    requires |a| % 3 == 0
    ensures Blocks.Last(3, a) == []
  {
    SextetsLength(a, |a| / 3, 0);
  }

  lemma EncodingOfWholeGroups(a: seq<byte>, r: seq<byte>)
    requires |a| % 3 == 0
    ensures Encoding(a + r) == Encoding(a) + Encoding(r)
  {
    WholeGroups(a);
    Blocks.MapConcat(3, Sextets, a, r);
    CharsConcat(SextetsOf(a), SextetsOf(r));
  }

  /** The filter is itself the encoding of the bytes it pins down. */
  lemma FilterIsEncoding(prefix: seq<byte>, tag: seq<byte>)
    requires |tag| == TAG_LENGTH
    ensures Filter(prefix, tag) == Encoding((prefix + tag)[..PinnedBytes(|prefix|)])
  {
    var whole, n := prefix + tag, PinnedBytes(|prefix|);
    FilterLength(prefix, tag);
    assert whole == whole[..n] + whole[n..];
    EncodingOfWholeGroups(whole[..n], whole[n..]);
    var e := Encoding(whole);
    assert e[..|Encoding(whole[..n])|] == Encoding(whole[..n]);
  }

  lemma FilterLength(prefix: seq<byte>, tag: seq<byte>)
    requires |tag| == TAG_LENGTH
    ensures |Encoding(tag)| <= |Encoding(prefix + tag)|
    ensures |Filter(prefix, tag)| == |Encoding((prefix + tag)[..PinnedBytes(|prefix|)])|
  {
    var whole, n := |prefix + tag|, |prefix|;
    var k := (n + 1) / 3;
    assert |Encoding(tag)| == 20 by {
      EncodingLength(tag);
    }
    assert |Encoding(prefix + tag)| == 4 * (k + 5) by {
      EncodingLength(prefix + tag);
      assert (whole + 2) / 3 == k + 5;
    }
    assert |Encoding((prefix + tag)[..3 * k])| == 4 * k by {
      EncodingLength((prefix + tag)[..3 * k]);
    }
  }

  /** Whatever follows the tag in a stored URL, the filter is a prefix of that URL's encoding, in all
      three residues of the length of the user's prefix: no message of the user is excluded. */
  lemma FilterNeverExcludes(prefix: seq<byte>, tag: seq<byte>, rest: seq<byte>)
    requires |tag| == TAG_LENGTH
    ensures Filter(prefix, tag) <= Encoding(prefix + tag + rest)
  {
    var whole, n := prefix + tag, PinnedBytes(|prefix|);
    FilterIsEncoding(prefix, tag);
    assert whole + rest == whole[..n] + (whole[n..] + rest);
    EncodingOfWholeGroups(whole[..n], whole[n..] + rest);
  }

  /** Conversely a URL whose encoding starts with the filter agrees with prefix and tag on every byte
      pinned down, which is all of the prefix but at most its last byte. */
  lemma FilterIsSelective(prefix: seq<byte>, tag: seq<byte>, other: seq<byte>)
    requires |tag| == TAG_LENGTH
    ensures Filter(prefix, tag) <= Encoding(other) <==> (prefix + tag)[..PinnedBytes(|prefix|)] <= other
  {
    var a := (prefix + tag)[..PinnedBytes(|prefix|)];
    FilterIsEncoding(prefix, tag);
    if Encoding(a) <= Encoding(other) {
      PrefixOfGroups(a, other, |a| / 3);
    }
    if a <= other {
      assert other == a + other[|a|..];
      EncodingOfWholeGroups(a, other[|a|..]);
    }
  }

  lemma {:induction false} PrefixOfGroups(a: seq<byte>, other: seq<byte>, groups: nat)
    requires |a| == 3 * groups && Encoding(a) <= Encoding(other)
    ensures a <= other
  {
    if groups > 0 {
      FirstGroup(a);
      ValueOfChar(Sextets(a[..3])[3]);
      assert IsBase64(Encoding(other)[3]);
      ThreeBytes(other);
      FirstGroup(other);
      SameGroup(a[..3], other[..3]);
      PrefixOfGroups(a[3..], other[3..], groups - 1);
      assert a == a[..3] + a[3..] && other == other[..3] + other[3..];
    }
  }

  lemma FirstGroup(b: seq<byte>)
    requires |b| >= 3
    ensures |Encoding(b)| >= 4
    ensures Encoding(b)[..4] == Chars(Sextets(b[..3])) && Encoding(b)[4..] == Encoding(b[3..])
  {
    WholeGroup(b, 0);
    assert b[0..] == b && b[0..3] == b[..3];
  }

  /** A first group without padding comes from three bytes. */
  lemma ThreeBytes(b: seq<byte>)
    requires |Encoding(b)| >= 4 && IsBase64(Encoding(b)[3])
    ensures |b| >= 3
  {
    if |b| < 3 {
      EncodingOfTail(b);
    }
  }

  lemma SameGroup(a: seq<byte>, b: seq<byte>)
    requires |a| == 3 && |b| == 3 && Chars(Sextets(a)) == Chars(Sextets(b))
    ensures a == b
  {
    var v, w := Sextets(a), Sextets(b);
    forall i | 0 <= i < 4 ensures v[i] == w[i] {
      ValueOfChar(v[i]);
      ValueOfChar(w[i]);
      assert Chars(v)[i] == Chars(w)[i];
    }
    assert v == w;
    OctetsOfSextets(a);
    OctetsOfSextets(b);
  }

  // ----- containment -----

  /** The engine's test: the filter stands somewhere in the path. */
  ghost predicate Contains(path: string, filter: string) {
    exists k :: StandsAt(path, filter, k)
  }

  predicate StandsAt(path: string, filter: string, k: nat) {
    k + |filter| <= |path| && path[k..k + |filter|] == filter
  }

  /** Nor does the test exclude a message of the user, whatever stands around the encoded name. */
  lemma {:induction false} PathPasses(
      directory: string, extension: string, prefix: seq<byte>, tag: seq<byte>, rest: seq<byte>)
    requires |tag| == TAG_LENGTH
    ensures Contains(directory + Encoding(prefix + tag + rest) + extension, Filter(prefix, tag))
  {
    var filter, name := Filter(prefix, tag), Encoding(prefix + tag + rest);
    var path := directory + name + extension;
    FilterNeverExcludes(prefix, tag, rest);
    assert path[|directory|..|directory| + |filter|] == name[..|filter|];
    assert StandsAt(path, filter, |directory|);
  }

  lemma {:induction false} CharsInjective(v: seq<sextet>, w: seq<sextet>)
    requires Chars(v) == Chars(w)
    ensures v == w
  {
    assert |v| == |Chars(v)| == |w|;
    forall i | 0 <= i < |v| ensures v[i] == w[i] {
      ValueOfChar(v[i]);
      ValueOfChar(w[i]);
      assert Chars(v)[i] == Chars(w)[i];
    }
  }

  /** The pinned bytes are whole groups, so the filter has no padding. */
  lemma {:induction false} FilterIsChars(prefix: seq<byte>, tag: seq<byte>)
    requires |tag| == TAG_LENGTH
    ensures Filter(prefix, tag) == Chars(SextetsOf((prefix + tag)[..PinnedBytes(|prefix|)]))
  {
    FilterIsEncoding(prefix, tag);
    WholeGroups((prefix + tag)[..PinnedBytes(|prefix|)]);
  }

  lemma {:induction false} NoPaddingInside(v: seq<sextet>, padding: string, w: seq<sextet>, k: nat)
    requires forall i :: 0 <= i < |padding| ==> padding[i] == '='
    requires w != [] && StandsAt(Chars(v) + padding, Chars(w), k)
    ensures k + |w| <= |v|
  {
    var text, last := Chars(v) + padding, |w| - 1;
    ValueOfChar(w[last]);
    assert forall i :: |v| <= i < |text| ==> text[i] == '=';
    assert text[k + last] == text[k..k + |w|][last] == CharOf(w[last]);
  }

  /** Which encoded names contain the filter: exactly those in whose 6-bit groups the groups of the pinned
      bytes stand, at the same place. */
  lemma {:induction false} ContainedExactly(prefix: seq<byte>, tag: seq<byte>, other: seq<byte>, k: nat)
    requires |tag| == TAG_LENGTH && PinnedBytes(|prefix|) > 0
    ensures var w, v := SextetsOf((prefix + tag)[..PinnedBytes(|prefix|)]), SextetsOf(other);
            StandsAt(Encoding(other), Filter(prefix, tag), k) <==> (k + |w| <= |v| && v[k..k + |w|] == w)
  {
    var pinned := (prefix + tag)[..PinnedBytes(|prefix|)];
    FilterIsChars(prefix, tag);
    SextetsLength(pinned, |pinned| / 3, 0);
    CharsStandExactly(SextetsOf(other), Padding(|Blocks.Last(3, other)|), SextetsOf(pinned), k);
  }

  lemma {:induction false} CharsStandExactly(v: seq<sextet>, padding: string, w: seq<sextet>, k: nat)
    requires w != [] && forall i :: 0 <= i < |padding| ==> padding[i] == '='
    ensures StandsAt(Chars(v) + padding, Chars(w), k) <==> (k + |w| <= |v| && v[k..k + |w|] == w)
  {
    if StandsAt(Chars(v) + padding, Chars(w), k) {
      NoPaddingInside(v, padding, w, k);
    }
    if k + |w| <= |v| {
      CharsSlice(v, padding, k, |w|);
      if Chars(v[k..k + |w|]) == Chars(w) {
        CharsInjective(v[k..k + |w|], w);
      }
    }
  }

  lemma {:induction false} CharsSlice(v: seq<sextet>, padding: string, k: nat, n: nat)
    requires k + n <= |v|
    ensures (Chars(v) + padding)[k..k + n] == Chars(v[k..k + n])
  {
  }

  lemma {:induction false} StandsBehind(front: string, back: string, filter: string)
    ensures StandsAt(front + back, filter, |front|) <==> filter <= back
  {
    if |filter| <= |back| {
      assert (front + back)[|front|..|front| + |filter|] == back[..|filter|];
    }
  }

  /** At a group boundary that means the pinned bytes themselves stand there. */
  lemma {:induction false} ContainedAtGroup(prefix: seq<byte>, tag: seq<byte>, other: seq<byte>, groups: nat)
    requires |tag| == TAG_LENGTH && 3 * groups <= |other|
    ensures StandsAt(Encoding(other), Filter(prefix, tag), 4 * groups)
       <==> (prefix + tag)[..PinnedBytes(|prefix|)] <= other[3 * groups..]
  {
    var front, back := other[..3 * groups], other[3 * groups..];
    assert other == front + back;
    EncodingOfWholeGroups(front, back);
    EncodingLengthOfGroups(front, groups);
    StandsBehind(Encoding(front), Encoding(back), Filter(prefix, tag));
    FilterIsSelective(prefix, tag, back);
  }

  lemma {:induction false} EncodingLengthOfGroups(b: seq<byte>, groups: nat)
    requires |b| == 3 * groups
    ensures |Encoding(b)| == 4 * groups
  {
    EncodingOfGroups(b, groups, 0);
  }
}
