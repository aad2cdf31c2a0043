/** Vectors of numbers and the standard algorithms the message-set code applies to them,
    working in place as the originals do. */
module Vectors {

  // ----- ordered lists of numbers -----

  predicate Sorted(s: seq<int>) {
    forall i, j :: 0 <= i < j < |s| ==> s[i] <= s[j]
  }

  predicate Strict(s: seq<int>) {
    forall i, j :: 0 <= i < j < |s| ==> s[i] < s[j]
  }

  ghost predicate DupFree(s: seq<int>) {
    forall i, j :: 0 <= i < j < |s| ==> s[i] != s[j]
  }

  function Insert(x: int, s: seq<int>): (r: seq<int>)
    ensures |r| == |s| + 1
  {
    if s == [] || x <= s[0] then [x] + s else [s[0]] + Insert(x, s[1..])
  }

  /** What `std::sort` leaves in the vector. */
  function Sort(s: seq<int>): (r: seq<int>)
    ensures |r| == |s|
  {
    if s == [] then [] else Insert(s[0], Sort(s[1..]))
  }

  lemma SortedCons(x: int, s: seq<int>)
    requires Sorted(s) && (s == [] || x <= s[0])
    ensures Sorted([x] + s)
  {
  }

  lemma SortedSuffix(s: seq<int>, k: nat)
    requires Sorted(s) && k <= |s|
    ensures Sorted(s[k..])
  {
  }

  lemma {:induction false} InsertSorted(x: int, s: seq<int>)
    requires Sorted(s)
    ensures Sorted(Insert(x, s))
    ensures Insert(x, s)[0] == if s == [] || x <= s[0] then x else s[0]
  {
    if s == [] || x <= s[0] {
      SortedCons(x, s);
    } else {
      SortedSuffix(s, 1);
      InsertSorted(x, s[1..]);
      SortedCons(s[0], Insert(x, s[1..]));
    }
  }

  lemma {:induction false} InsertContents(x: int, s: seq<int>)
    ensures multiset(Insert(x, s)) == multiset(s) + multiset{x}
  {
    if s != [] && x > s[0] {
      InsertContents(x, s[1..]);
      assert s == [s[0]] + s[1..];
    }
  }

  /** The order and the contents of the sorted vector; no other vector has both. */
  lemma {:induction false} SortSorts(s: seq<int>)
    ensures Sorted(Sort(s)) && multiset(Sort(s)) == multiset(s)
    ensures forall x :: x in Sort(s) <==> x in s
  {
    if s != [] {
      SortSorts(s[1..]);
      assert s == [s[0]] + s[1..];
      InsertSorted(s[0], Sort(s[1..]));
      InsertContents(s[0], Sort(s[1..]));
    }
    SameMembers(s, Sort(s));
  }

  lemma SameMembers(s: seq<int>, t: seq<int>)
    requires multiset(s) == multiset(t)
    ensures forall x :: x in s <==> x in t
  {
    forall x ensures x in s <==> x in t {
      assert x in multiset(s) <==> x in multiset(t);
    }
  }

  lemma StrictPrepend(x: int, s: seq<int>)
    requires Strict(s) && (s == [] || x < s[0])
    ensures Strict([x] + s)
  {
    assert forall k :: 0 < k < |s| ==> s[0] < s[k];
  }

  lemma {:induction false} StrictUnique(s: seq<int>, t: seq<int>)
    requires Strict(s) && Strict(t) && forall x :: x in s <==> x in t
    ensures s == t
  {
    assert t != [] ==> t[0] in t;
    assert s != [] ==> s[0] in s;
    if s != [] {
      assert s[0] == t[0];
      forall x ensures x in s[1..] <==> x in t[1..] {
        assert x in s[1..] <==> x in s && x != s[0];
        assert x in t[1..] <==> x in t && x != t[0];
      }
      StrictUnique(s[1..], t[1..]);
    }
  }

  // ----- std::unique without erase -----

  /** First of each group of adjacent equals. */
  function Dedup(s: seq<int>): (r: seq<int>)
    ensures |r| <= |s|
    ensures s != [] ==> r != [] && r[0] == s[0] && r[|r| - 1] == s[|s| - 1]
  {
    if |s| < 2 then s
    else if s[0] == s[1] then Dedup(s[1..])
    else [s[0]] + Dedup(s[1..])
  }

  /** The whole vector after `unique`: the survivors, then whatever stood there before. */
  function Compacted(s: seq<int>): (r: seq<int>)
    ensures |r| == |s|
  {
    Dedup(s) + s[|Dedup(s)|..]
  }

  /** One more element in front. */
  lemma {:induction false} DedupCons(x: int, s: seq<int>)
    ensures Dedup([x] + s) == if s != [] && s[0] == x then Dedup(s) else [x] + Dedup(s)
  {
    assert ([x] + s)[1..] == s;
  }

  lemma {:induction false} DedupSnoc(s: seq<int>, x: int)
    ensures Dedup(s + [x]) == if s != [] && s[|s| - 1] == x then Dedup(s) else Dedup(s) + [x]
  {
    if |s| >= 2 {
      var rest := s[1..];
      DedupSnoc(rest, x);
      DedupCons(s[0], rest);
      DedupCons(s[0], rest + [x]);
      assert s == [s[0]] + rest && s + [x] == [s[0]] + (rest + [x]);
    } else if |s| == 1 {
      DedupCons(s[0], [x]);
      assert s == [s[0]] && s + [x] == [s[0]] + [x];
    }
  }

  /** The survivors of the first `n` elements, counted by positions. */
  function DedupTo(s: seq<int>, n: nat): (r: seq<int>)
    requires n <= |s|
    ensures |r| <= n
    ensures n > 0 ==> r != [] && r[|r| - 1] == s[n - 1]
  {
    if n == 0 then []
    else if n > 1 && s[n - 1] == s[n - 2] then DedupTo(s, n - 1)
    else DedupTo(s, n - 1) + [s[n - 1]]
  }

  lemma {:induction false} DedupNext(s: seq<int>, n: nat)
    requires 2 <= n <= |s|
    ensures Dedup(s[..n])
         == if s[n - 1] == s[n - 2] then Dedup(s[..n - 1]) else Dedup(s[..n - 1]) + [s[n - 1]]
  {
    var front := s[..n - 1];
    DedupSnoc(front, s[n - 1]);
    assert front + [s[n - 1]] == s[..n] && front[|front| - 1] == s[n - 2];
  }

  lemma {:induction false} DedupToIsDedup(s: seq<int>, n: nat)
    requires n <= |s|
    ensures DedupTo(s, n) == Dedup(s[..n])
  {
    if n == 0 {
      assert s[..n] == [];
    } else if n == 1 {
      assert s[..n] == [s[0]];
    } else {
      DedupToIsDedup(s, n - 1);
      DedupNext(s, n);
    }
  }

  /** The survivors in front and the old values behind them make the compacted vector. */
  lemma {:induction false} CompactedIs(s: seq<int>, kept: seq<int>, r: seq<int>)
    requires kept == Dedup(s) && |r| == |s|
    requires forall k :: 0 <= k < |s| ==> r[k] == if k < |kept| then kept[k] else s[k]
    ensures r == Compacted(s)
  {
    assert Compacted(s) == kept + s[|kept|..];
  }

  /** The two-pointer loop, against a copy of its input. */
  method Compact(a: array<int>, ghost was: seq<int>) returns (end: nat, ghost kept: seq<int>)
    requires 0 < a.Length == |was| && forall k :: 0 <= k < a.Length ==> a[k] == was[k]
    modifies a
    ensures kept == DedupTo(was, |was|) && end == |kept| <= a.Length
    ensures forall k :: 0 <= k < a.Length ==> a[k] == if k < end then kept[k] else was[k]
  {
    var dest, first := 0, 1;
    kept := DedupTo(was, 1);
    while first < a.Length
      invariant dest < first <= a.Length
      invariant kept == DedupTo(was, first) && |kept| == dest + 1
      invariant forall k :: 0 <= k <= dest ==> a[k] == kept[k]
      invariant forall k :: dest < k < a.Length ==> a[k] == was[k]
    {
      kept := DedupTo(was, first + 1);
      if a[dest] != a[first] {
        dest := dest + 1;
        a[dest] := a[first];
      }
      first := first + 1;
    }
    end := dest + 1;
  }

  /** Two-pointer compaction in place; nothing past the returned end is written. */
  method Unique(a: array<int>) returns (end: nat)
    modifies a
    ensures a[..] == Compacted(old(a[..])) && end == |Dedup(old(a[..]))|
  {
    ghost var was := a[..];
    if a.Length == 0 {
      return 0;
    }
    ghost var kept;
    end, kept := Compact(a, was);
    DedupToIsDedup(was, |was|);
    assert was[..|was|] == was;
    CompactedIs(was, kept, a[..]);
  }

  lemma {:induction false} DedupSorted(s: seq<int>)
    requires Sorted(s)
    ensures Strict(Dedup(s))
    ensures forall x :: x in Dedup(s) <==> x in s
  {
    if |s| >= 2 {
      var rest := s[1..];
      DedupSorted(rest);
      DedupCons(s[0], rest);
      assert s == [s[0]] + rest;
      if s[0] < rest[0] {
        StrictPrepend(s[0], Dedup(rest));
      }
    }
  }

  lemma {:induction false} DedupKeepsAll(s: seq<int>)
    requires Sorted(s)
    ensures |Dedup(s)| == |s| <==> Strict(s)
  {
    if |s| >= 2 {
      DedupKeepsAll(s[1..]);
      StrictCons(s);
    }
  }

  lemma StrictCons(s: seq<int>)
    requires Sorted(s) && |s| >= 2
    ensures Strict(s) <==> s[0] < s[1] && Strict(s[1..])
  {
    var t := s[1..];
    assert forall i :: 0 <= i < |t| ==> t[i] == s[i + 1];
    if s[0] < s[1] && Strict(t) {
      forall i, j | 0 <= i < j < |s| ensures s[i] < s[j] {
        assert s[j] == t[j - 1];
        if i > 0 {
          assert s[i] == t[i - 1];
        }
      }
    }
  }

  // ----- std::set_intersection -----

  function Merge(a: seq<int>, b: seq<int>): (r: seq<int>)
    ensures |r| <= |a| && |r| <= |b|
    decreases |a| + |b|
  {
    if a == [] || b == [] then []
    else if a[0] < b[0] then Merge(a[1..], b)
    else if b[0] < a[0] then Merge(a, b[1..])
    else [a[0]] + Merge(a[1..], b[1..])
  }

  /** The same merge, counted by positions. */
  function MergeFrom(a: seq<int>, b: seq<int>, i: nat, j: nat): (r: seq<int>)
    requires i <= |a| && j <= |b|
    ensures |r| <= |a| - i && |r| <= |b| - j
    decreases |a| + |b| - i - j
  {
    if i == |a| || j == |b| then []
    else if a[i] < b[j] then MergeFrom(a, b, i + 1, j)
    else if b[j] < a[i] then MergeFrom(a, b, i, j + 1)
    else [a[i]] + MergeFrom(a, b, i + 1, j + 1)
  }

  lemma {:induction false} MergeFromIsMerge(a: seq<int>, b: seq<int>, i: nat, j: nat)
    requires i <= |a| && j <= |b|
    ensures MergeFrom(a, b, i, j) == Merge(a[i..], b[j..])
    decreases |a| + |b| - i - j
  {
    if i < |a| && j < |b| {
      assert a[i..][1..] == a[i + 1..] && b[j..][1..] == b[j + 1..];
      if a[i] < b[j] {
        MergeFromIsMerge(a, b, i + 1, j);
      } else if b[j] < a[i] {
        MergeFromIsMerge(a, b, i, j + 1);
      } else {
        MergeFromIsMerge(a, b, i + 1, j + 1);
      }
    }
  }

  lemma {:induction false} MergeFromStart(a: seq<int>, b: seq<int>)
    ensures MergeFrom(a, b, 0, 0) == Merge(a, b)
  {
    MergeFromIsMerge(a, b, 0, 0);
    assert a[0..] == a && b[0..] == b;
  }

  lemma {:induction false} MergeFromStep(a: seq<int>, b: seq<int>, i: nat, j: nat)
    requires i < |a| && j < |b|
    ensures var r := MergeFrom(a, b, i, j);
            if a[i] < b[j] then r == MergeFrom(a, b, i + 1, j)
            else if b[j] < a[i] then r == MergeFrom(a, b, i, j + 1)
            else r != [] && r[0] == a[i] && r[1..] == MergeFrom(a, b, i + 1, j + 1)
  {
  }

  /** The merge itself, against copies of its inputs. */
  method MergeInto(a: array<int>, b: array<int>, v: array<int>, ghost x: seq<int>, ghost y: seq<int>)
    returns (k: nat, ghost done: seq<int>)
    requires v != a && v != b && a.Length <= v.Length && b.Length <= v.Length
    requires |x| == a.Length && |y| == b.Length
    requires (forall n :: 0 <= n < a.Length ==> a[n] == x[n]) && (forall n :: 0 <= n < b.Length ==> b[n] == y[n])
    modifies v
    ensures done == MergeFrom(x, y, 0, 0) && k == |done| <= v.Length
    ensures forall n :: 0 <= n < k ==> v[n] == done[n]
    ensures forall n :: k <= n < v.Length ==> v[n] == old(v[n])
  {
    var i, j := 0, 0;
    k, done := 0, [];
    ghost var rest := MergeFrom(x, y, 0, 0);
    while i < a.Length && j < b.Length
      invariant k <= i <= a.Length && k <= j <= b.Length && |done| == k
      invariant rest == MergeFrom(x, y, i, j) && done + rest == MergeFrom(x, y, 0, 0)
      invariant forall n :: 0 <= n < k ==> v[n] == done[n]
      invariant forall n :: k <= n < v.Length ==> v[n] == old(v[n])
      decreases a.Length + b.Length - i - j
    {
      MergeFromStep(x, y, i, j);
      if a[i] < b[j] {
        i := i + 1;
      } else if b[j] < a[i] {
        j := j + 1;
      } else {
        v[k] := a[i];
        done, rest := done + [a[i]], rest[1..];
        i, j, k := i + 1, j + 1, k + 1;
      }
    }
    assert rest == [];
  }

  /** Writes the common values from the front of `v`; it stays inside `v` and leaves the rest of it alone. */
  method SetIntersection(a: array<int>, b: array<int>, v: array<int>) returns (k: nat)
    requires v != a && v != b && a.Length <= v.Length && b.Length <= v.Length
    modifies v
    ensures k == |Merge(a[..], b[..])| && v[..k] == Merge(a[..], b[..])
    ensures forall n :: k <= n < v.Length ==> v[n] == old(v[n])
  {
    ghost var done;
    MergeFromStart(a[..], b[..]);
    k, done := MergeInto(a, b, v, a[..], b[..]);
  }

  function NonZero(s: seq<int>): (r: seq<int>)
    ensures |r| <= |s|
  {
    if s == [] then []
    else if s[0] == 0 then NonZero(s[1..])
    else [s[0]] + NonZero(s[1..])
  }

  lemma {:induction false} NonZeroMembers(s: seq<int>)
    ensures forall x :: x in NonZero(s) <==> x != 0 && x in s
  {
    if s != [] {
      NonZeroMembers(s[1..]);
      assert forall x :: x in s <==> x == s[0] || x in s[1..];
    }
  }

  lemma {:induction false} NonZeroConcat(s: seq<int>, t: seq<int>)
    ensures NonZero(s + t) == NonZero(s) + NonZero(t)
  {
    if s == [] {
      assert s + t == t;
    } else {
      assert (s + t)[1..] == s[1..] + t;
      NonZeroConcat(s[1..], t);
    }
  }

  lemma {:induction false} NonZeroSnoc(s: seq<int>, i: nat)
    requires i < |s|
    ensures NonZero(s[..i + 1]) == NonZero(s[..i]) + if s[i] == 0 then [] else [s[i]]
  {
    NonZeroConcat(s[..i], [s[i]]);
    assert s[..i] + [s[i]] == s[..i + 1];
    assert NonZero([s[i]]) == if s[i] == 0 then [] else [s[i]];
  }

  /** `std::remove` of zeros, in place. */
  method RemoveZeros(v: array<int>) returns (end: nat)
    modifies v
    ensures end <= v.Length && v[..end] == NonZero(old(v[..]))
  {
    ghost var was, kept := v[..], [];
    var i := 0;
    end := 0;
    while i < v.Length
      invariant end <= i <= v.Length
      invariant kept == NonZero(was[..i]) && |kept| == end
      invariant forall k :: 0 <= k < end ==> v[k] == kept[k]
      invariant forall k :: i <= k < v.Length ==> v[k] == was[k]
    {
      NonZeroSnoc(was, i);
      if v[i] != 0 {
        v[end] := v[i];
        kept := kept + [was[i]];
        end := end + 1;
      }
      i := i + 1;
    }
    assert was[..i] == was;
  }
}
