/** Translating a sequence block by block, the last block possibly partial. */
module Blocks {

  /** Every whole block of `size` elements goes through `f`, and so does the partial block at the end. */
  function Map<T, U>(size: nat, f: seq<T> -> seq<U>, s: seq<T>): seq<U>
    requires size > 0
  {
    if |s| < size then f(s) else f(s[..size]) + Map(size, f, s[size..])
  }

  /** The partial block at the end, empty when there is none. */
  function Last<T>(size: nat, s: seq<T>): (r: seq<T>)
    requires size > 0
    ensures |r| < size
  {
    if |s| < size then s else Last(size, s[size..])
  }

  lemma {:induction false} MapFrom<T, U>(size: nat, f: seq<T> -> seq<U>, s: seq<T>, at: nat)
    requires 0 < size && at + size <= |s|
    ensures Map(size, f, s[at..]) == f(s[at..at + size]) + Map(size, f, s[at + size..])
    ensures Last(size, s[at..]) == Last(size, s[at + size..])
  {
    assert s[at..][..size] == s[at..at + size] && s[at..][size..] == s[at + size..];
  }

  /** A block translated on its own comes first. */
  lemma {:induction false} MapCons<T, U>(size: nat, f: seq<T> -> seq<U>, block: seq<T>, s: seq<T>)
    requires 0 < size == |block|
    ensures Map(size, f, block + s) == f(block) + Map(size, f, s)
    ensures Last(size, block + s) == Last(size, s)
  {
    assert (block + s)[..size] == block && (block + s)[size..] == s;
  }

  lemma {:induction false} MapConcat<T, U>(size: nat, f: seq<T> -> seq<U>, s: seq<T>, t: seq<T>)
    requires 0 < size && f([]) == [] && Last(size, s) == []
    ensures Map(size, f, s + t) == Map(size, f, s) + Map(size, f, t)
    ensures Last(size, s + t) == Last(size, t)
  {
    if |s| < size {
      assert s + t == t;
    } else {
      assert (s + t)[..size] == s[..size] && (s + t)[size..] == s[size..] + t;
      MapConcat(size, f, s[size..], t);
    }
  }

  /** Whole blocks turn into whole blocks of the other size. */
  ghost predicate Resizes<T(!new), U>(size: nat, f: seq<T> -> seq<U>, other: nat) {
    forall block :: |block| == size ==> |f(block)| == other
  }

  /** `g` undoes `f` on every whole block. */
  ghost predicate Undoes<T(!new), U>(size: nat, f: seq<T> -> seq<U>, g: seq<U> -> seq<T>) {
    forall block :: |block| == size ==> g(f(block)) == block
  }

  lemma {:induction false} LastOfMap<T(!new), U>(size: nat, f: seq<T> -> seq<U>, other: nat, s: seq<T>)
    requires 0 < size && 0 < other && Resizes(size, f, other)
    requires |f(Last(size, s))| < other
    ensures Last(other, Map(size, f, s)) == f(Last(size, s))
  {
    if |s| >= size {
      LastOfMap(size, f, other, s[size..]);
      assert (f(s[..size]) + Map(size, f, s[size..]))[other..] == Map(size, f, s[size..]);
    }
  }

  /** Undoing every block undoes the whole translation. */
  lemma {:induction false} MapBack<T(!new), U>(
      size: nat, f: seq<T> -> seq<U>, other: nat, g: seq<U> -> seq<T>, s: seq<T>)
    requires 0 < size && 0 < other && Resizes(size, f, other) && Undoes(size, f, g)
    requires var last := Last(size, s);
             |f(last)| < other && g(f(last)) == last
    ensures Map(other, g, Map(size, f, s)) == s
  {
    if |s| >= size {
      var block, rest := s[..size], s[size..];
      MapBack(size, f, other, g, rest);
      MapCons(other, g, f(block), Map(size, f, rest));
      assert s == block + rest;
    }
  }
}
