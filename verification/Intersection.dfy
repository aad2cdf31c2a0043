/** `atoms_intersection`: sort, `unique` without `erase`, intersect, drop zeros. */
module Intersection {
  import opened Vectors

  // ----- atoms_intersection -----

  /** What the two calls of `unique` and the merge compute together, tails included. */
  function Intersect(first: seq<int>, second: seq<int>): seq<int> {
    NonZero(Merge(Compacted(Sort(first)), Compacted(Sort(second))))
  }

  method SortInPlace(a: array<int>)
    modifies a
    ensures a[..] == Sort(old(a[..]))
  {
    var sorted := Sort(a[..]);
    forall i | 0 <= i < a.Length {
      a[i] := sorted[i];
    }
  }

  lemma {:induction false} NonZeroOfZeros(v: seq<int>, k: nat)
    requires k <= |v| && forall i :: k <= i < |v| ==> v[i] == 0
    ensures NonZero(v) == NonZero(v[..k])
  {
    assert v == v[..k] + v[k..];
    NonZeroConcat(v[..k], v[k..]);
    ZerosVanish(v[k..]);
  }

  lemma {:induction false} ZerosVanish(s: seq<int>)
    requires forall i :: 0 <= i < |s| ==> s[i] == 0
    ensures NonZero(s) == []
  {
    if s != [] {
      ZerosVanish(s[1..]);
    }
  }

  method AtomsIntersection(first: array<int>, second: array<int>) returns (result: seq<int>)
    requires first != second
    modifies first, second
    ensures result == Intersect(old(first[..]), old(second[..]))
  {
    var size := if first.Length > second.Length then first.Length else second.Length;
    var v := new int[size](_ => 0);
    SortUnique(first, second);
    result := CommonInto(first, second, v);
  }

  /** Ranges must be sorted and unique; what `unique` returns is not used. */
  method SortUnique(first: array<int>, second: array<int>)
    requires first != second
    modifies first, second
    ensures first[..] == Compacted(Sort(old(first[..]))) && second[..] == Compacted(Sort(old(second[..])))
  {
    SortInPlace(first);
    SortInPlace(second);
    var end := Unique(first);
    end := Unique(second);
  }

  /** The merge into a vector of zeros, and the removal of the zeros left. */
  method CommonInto(first: array<int>, second: array<int>, v: array<int>) returns (result: seq<int>)
    requires v != first && v != second && first.Length <= v.Length && second.Length <= v.Length
    requires forall i :: 0 <= i < v.Length ==> v[i] == 0
    modifies v
    ensures result == NonZero(Merge(first[..], second[..]))
  {
    assert forall i :: 0 <= i < |v[..]| ==> v[..][i] == 0;
    var k := SetIntersection(first, second, v);
    NonZeroOfZeros(v[..], k);
    var end := RemoveZeros(v);
    result := v[..end];
  }

  // ----- when it is the intersection -----

  /** The strictly ascending list of the common nonzero values; `StrictUnique` says there is only one. */
  ghost predicate CommonAscending(v: seq<int>, first: seq<int>, second: seq<int>) {
    && Strict(v)
    && forall x :: x in v <==> x != 0 && x in first && x in second
  }

  function Max(s: seq<int>): int
    requires s != []
  {
    Sort(s)[|s| - 1]
  }

  lemma MaxIsMaximum(s: seq<int>)
    requires s != []
    ensures Max(s) in s && forall x :: x in s ==> x <= Max(s)
  {
    SortSorts(s);
    assert Max(s) in Sort(s);
  }

  /** What `unique` leaves behind its end. */
  function Leftover(s: seq<int>): seq<int> {
    Sort(s)[|Dedup(Sort(s))|..]
  }

  /** Both vectors end in the same largest value and a nonzero value is left behind in both. */
  ghost predicate TailsClash(first: seq<int>, second: seq<int>) {
    && first != [] && second != [] && Max(first) == Max(second)
    && exists x :: x in Leftover(first) && x in Leftover(second) && x != 0
  }

  /** `t` is a leftover tail behind `u`: nothing in it exceeds the last survivor. */
  ghost predicate TailOf(u: seq<int>, t: seq<int>) {
    if u == [] then t == [] else forall i :: 0 <= i < |t| ==> t[i] <= u[|u| - 1]
  }

  /** `x` is the survivors `u` with a leftover tail behind them. */
  ghost predicate Extends(x: seq<int>, u: seq<int>) {
    && |u| <= |x|
    && (forall k :: 0 <= k < |u| ==> x[k] == u[k])
    && forall k :: |u| <= k < |x| ==> u != [] && x[k] <= u[|u| - 1]
  }

  lemma {:induction false} ExtendsConcat(u: seq<int>, t: seq<int>)
    requires TailOf(u, t)
    ensures Extends(u + t, u)
  {
  }

  /** Nothing of `x` from `i` on reaches the current element of `y`. */
  lemma {:induction false} BelowFrom(x: seq<int>, y: seq<int>, i: nat, j: nat)
    requires i <= |x| && j < |y| && forall k :: i <= k < |x| ==> x[k] < y[j]
    ensures MergeFrom(x, y, i, j) == []
    decreases |x| - i
  {
    if i < |x| {
      BelowFrom(x, y, i + 1, j);
    }
  }

  lemma {:induction false} AboveFrom(x: seq<int>, y: seq<int>, i: nat, j: nat)
    requires i < |x| && j <= |y| && forall k :: j <= k < |y| ==> y[k] < x[i]
    ensures MergeFrom(x, y, i, j) == []
    decreases |y| - j
  {
    if j < |y| {
      AboveFrom(x, y, i, j + 1);
    }
  }

  lemma {:induction false} IgnoresFrom(x: seq<int>, y: seq<int>, u: seq<int>, v: seq<int>, i: nat, j: nat)
    requires Strict(u) && Strict(v) && Extends(x, u) && Extends(y, v) && i <= |u| && j <= |v|
    requires i == |u| && j < |v| ==> u == [] || u[|u| - 1] < v[j]
    requires j == |v| && i < |u| ==> v == [] || v[|v| - 1] < u[i]
    requires |x| == |u| || |y| == |v| || u == [] || v == [] || u[|u| - 1] != v[|v| - 1]
    requires i == |u| && j == |v| ==> |x| == |u| || |y| == |v|
    ensures MergeFrom(x, y, i, j) == MergeFrom(u, v, i, j)
    decreases |u| + |v| - i - j
  {
    if i == |u| && j < |v| {
      BelowFrom(x, y, i, j);
    } else if i < |u| && j == |v| {
      AboveFrom(x, y, i, j);
    } else if i < |u| && j < |v| {
      if u[i] < v[j] {
        IgnoresFrom(x, y, u, v, i + 1, j);
      } else if v[j] < u[i] {
        IgnoresFrom(x, y, u, v, i, j + 1);
      } else {
        IgnoresFrom(x, y, u, v, i + 1, j + 1);
      }
    }
  }

  /** Merging past two survivors lists ignores the tails unless both tails follow the same last value. */
  lemma {:induction false} MergeIgnoresTails(u: seq<int>, t: seq<int>, v: seq<int>, w: seq<int>)
    requires Strict(u) && Strict(v) && TailOf(u, t) && TailOf(v, w)
    requires t == [] || w == [] || u[|u| - 1] != v[|v| - 1]
    ensures Merge(u + t, v + w) == Merge(u, v)
  {
    ExtendsConcat(u, t);
    ExtendsConcat(v, w);
    IgnoresFrom(u + t, v + w, u, v, 0, 0);
    MergeFromStart(u + t, v + w);
    MergeFromStart(u, v);
  }

  lemma {:induction false} RepeatsFrom(x: seq<int>, y: seq<int>, u: seq<int>, v: seq<int>, i: nat, j: nat)
    requires Strict(u) && Strict(v) && i < |u| <= |x| && j < |v| <= |y| && u[|u| - 1] == v[|v| - 1]
    requires (forall k :: 0 <= k < |u| ==> x[k] == u[k]) && (forall k :: 0 <= k < |v| ==> y[k] == v[k])
    ensures MergeFrom(x, y, i, j) == MergeFrom(u, v, i, j) + MergeFrom(x, y, |u|, |v|)
    decreases |u| + |v| - i - j
  {
    if u[i] < v[j] {
      RepeatsFrom(x, y, u, v, i + 1, j);
    } else if v[j] < u[i] {
      RepeatsFrom(x, y, u, v, i, j + 1);
    } else if i + 1 < |u| {
      RepeatsFrom(x, y, u, v, i + 1, j + 1);
    }
  }

  /** With the same last survivor on both sides the tails are merged a second time. */
  lemma {:induction false} MergeRepeatsTails(u: seq<int>, t: seq<int>, v: seq<int>, w: seq<int>)
    requires Strict(u) && Strict(v) && u != [] && v != [] && u[|u| - 1] == v[|v| - 1]
    ensures Merge(u + t, v + w) == Merge(u, v) + Merge(t, w)
  {
    var x, y := u + t, v + w;
    RepeatsFrom(x, y, u, v, 0, 0);
    MergeFromStart(x, y);
    MergeFromStart(u, v);
    MergeFromIsMerge(x, y, |u|, |v|);
    assert x[|u|..] == t && y[|v|..] == w;
  }

  lemma {:induction false} MergeMembers(u: seq<int>, v: seq<int>, x: int)
    requires Sorted(u) && Sorted(v)
    ensures x in Merge(u, v) <==> x in u && x in v
    decreases |u| + |v|
  {
    if u != [] && v != [] {
      assert x in u <==> x == u[0] || x in u[1..];
      assert x in v <==> x == v[0] || x in v[1..];
      if u[0] < v[0] {
        MergeMembers(u[1..], v, x);
      } else if v[0] < u[0] {
        MergeMembers(u, v[1..], x);
      } else {
        MergeMembers(u[1..], v[1..], x);
      }
    }
  }

  lemma {:induction false} MergeStrict(u: seq<int>, v: seq<int>)
    requires Strict(u) && Strict(v)
    ensures Strict(Merge(u, v))
    ensures Merge(u, v) != [] ==> u != [] && u[0] <= Merge(u, v)[0]
    decreases |u| + |v|
  {
    if u != [] && v != [] {
      if u[0] < v[0] {
        MergeStrict(u[1..], v);
      } else if v[0] < u[0] {
        MergeStrict(u, v[1..]);
      } else {
        MergeStrict(u[1..], v[1..]);
        StrictPrepend(u[0], Merge(u[1..], v[1..]));
      }
    }
  }

  lemma {:induction false} NonZeroStrict(s: seq<int>)
    requires Strict(s)
    ensures Strict(NonZero(s))
  {
    if s != [] {
      var rest := s[1..];
      NonZeroStrict(rest);
      NonZeroMembers(rest);
      if NonZero(rest) != [] {
        assert NonZero(rest)[0] in rest;
      }
      if s[0] != 0 {
        StrictPrepend(s[0], NonZero(rest));
      }
    }
  }

  lemma {:induction false} DupFreeCount(s: seq<int>)
    ensures DupFree(s) <==> forall x :: multiset(s)[x] <= 1
  {
    if s != [] {
      var t := s[1..];
      assert s == [s[0]] + t;
      DupFreeCount(t);
      DupFreeCons(s);
      assert s[0] in t <==> s[0] in multiset(t);
      assert forall x :: multiset(s)[x] == multiset(t)[x] + if x == s[0] then 1 else 0;
    }
  }

  lemma DupFreeCons(s: seq<int>)
    requires s != []
    ensures DupFree(s) <==> s[0] !in s[1..] && DupFree(s[1..])
  {
    var t := s[1..];
    assert forall i :: 0 <= i < |t| ==> t[i] == s[i + 1];
    if s[0] !in t && DupFree(t) {
      forall i, j | 0 <= i < j < |s| ensures s[i] != s[j] {
        assert s[j] == t[j - 1];
        if i > 0 {
          assert s[i] == t[i - 1];
        }
      }
    }
  }

  lemma {:induction false} DupFreeSort(s: seq<int>)
    ensures DupFree(s) <==> Strict(Sort(s))
  {
    SortSorts(s);
    DupFreeCount(s);
    DupFreeCount(Sort(s));
    assert DupFree(Sort(s)) <==> Strict(Sort(s));
  }

  /** The survivors of one compacted vector. */
  lemma Survivors(s: seq<int>) returns (u: seq<int>)
    ensures u == Dedup(Sort(s)) && Strict(u)
    ensures forall x :: x in u <==> x in s
    ensures s != [] ==> u != [] && u[|u| - 1] == Max(s)
  {
    u := Dedup(Sort(s));
    SortSorts(s);
    DedupSorted(Sort(s));
  }

  lemma {:induction false} TailBehindSurvivors(o: seq<int>)
    requires Sorted(o)
    ensures TailOf(Dedup(o), o[|Dedup(o)|..])
  {
    if o != [] {
      var last := o[|o| - 1];
      assert forall i :: 0 <= i < |o| ==> o[i] <= last;
    }
  }

  /** The leftover tail behind them. */
  lemma {:induction false} Leftovers(s: seq<int>)
    ensures var u, t := Dedup(Sort(s)), Leftover(s);
            && Compacted(Sort(s)) == u + t && TailOf(u, t) && Sorted(t)
            && (t == [] <==> DupFree(s))
            && (t != [] ==> t[|t| - 1] == Max(s))
            && forall x :: x in t ==> x in s
  {
    SortSorts(s);
    TailBehindSurvivors(Sort(s));
    SortedSuffix(Sort(s), |Dedup(Sort(s))|);
    DedupKeepsAll(Sort(s));
    DupFreeSort(s);
  }

  /** Equal last survivors: the survivors' merge, then the leftovers' merge. */
  lemma {:induction false} TailsMerged(first: seq<int>, second: seq<int>)
    requires first != [] && second != [] && Max(first) == Max(second)
    ensures var u, v := Dedup(Sort(first)), Dedup(Sort(second));
            Intersect(first, second) == NonZero(Merge(u, v)) + NonZero(Merge(Leftover(first), Leftover(second)))
  {
    var u := Survivors(first);
    var v := Survivors(second);
    Leftovers(first);
    Leftovers(second);
    MergeRepeatsTails(u, Leftover(first), v, Leftover(second));
    NonZeroConcat(Merge(u, v), Merge(Leftover(first), Leftover(second)));
  }

  /** Different last survivors, or nothing left behind on one side: the leftovers do not matter. */
  lemma {:induction false} TailsIgnored(first: seq<int>, second: seq<int>)
    requires first == [] || second == [] || Max(first) != Max(second)
    ensures Intersect(first, second) == NonZero(Merge(Dedup(Sort(first)), Dedup(Sort(second))))
  {
    var u := Survivors(first);
    var v := Survivors(second);
    Leftovers(first);
    Leftovers(second);
    MergeIgnoresTails(u, Leftover(first), v, Leftover(second));
  }

  lemma {:induction false} SurvivorsMerged(first: seq<int>, second: seq<int>)
    ensures CommonAscending(NonZero(Merge(Dedup(Sort(first)), Dedup(Sort(second)))), first, second)
  {
    var u := Survivors(first);
    var v := Survivors(second);
    MergeStrict(u, v);
    NonZeroStrict(Merge(u, v));
    NonZeroMembers(Merge(u, v));
    forall x ensures x in Merge(u, v) <==> x in u && x in v {
      MergeMembers(u, v, x);
    }
  }

  lemma {:induction false} NothingNonZero(s: seq<int>)
    requires forall x :: x in s ==> x == 0
    ensures NonZero(s) == []
  {
    assert forall i :: 0 <= i < |s| ==> s[i] in s;
    ZerosVanish(s);
  }

  lemma {:induction false} ClashRepeats(first: seq<int>, second: seq<int>, x: int)
    requires x in Leftover(first) && x in Leftover(second) && x != 0
    ensures x in NonZero(Merge(Dedup(Sort(first)), Dedup(Sort(second))))
    ensures x in NonZero(Merge(Leftover(first), Leftover(second)))
  {
    var u := Survivors(first);
    var v := Survivors(second);
    Leftovers(first);
    Leftovers(second);
    MergeMembers(u, v, x);
    MergeMembers(Leftover(first), Leftover(second), x);
    NonZeroMembers(Merge(u, v));
    NonZeroMembers(Merge(Leftover(first), Leftover(second)));
  }

  lemma {:induction false} ClashSpoils(first: seq<int>, second: seq<int>, x: int)
    requires first != [] && second != [] && Max(first) == Max(second)
    requires x in Leftover(first) && x in Leftover(second) && x != 0
    ensures !Strict(Intersect(first, second))
  {
    TailsMerged(first, second);
    ClashRepeats(first, second, x);
    NotStrictTwice(
      NonZero(Merge(Dedup(Sort(first)), Dedup(Sort(second)))),
      NonZero(Merge(Leftover(first), Leftover(second))), x);
  }

  /** Leftovers without a common nonzero value add nothing. */
  lemma {:induction false} NothingLeftOver(first: seq<int>, second: seq<int>)
    requires forall x :: x in Leftover(first) && x in Leftover(second) ==> x == 0
    ensures NonZero(Merge(Leftover(first), Leftover(second))) == []
  {
    var t, w := Leftover(first), Leftover(second);
    Leftovers(first);
    Leftovers(second);
    forall x | x in Merge(t, w) ensures x == 0 {
      MergeMembers(t, w, x);
    }
    NothingNonZero(Merge(t, w));
  }

  lemma {:induction false} NoClashNoHarm(first: seq<int>, second: seq<int>)
    requires !TailsClash(first, second)
    ensures Intersect(first, second) == NonZero(Merge(Dedup(Sort(first)), Dedup(Sort(second))))
  {
    if first == [] || second == [] || Max(first) != Max(second) {
      TailsIgnored(first, second);
    } else {
      TailsMerged(first, second);
      NothingLeftOver(first, second);
    }
  }

  /** The result is the intersection exactly when the leftovers do not clash: `unique` without `erase`
      merges them a second time. */
  lemma {:induction false} IntersectionExact(first: seq<int>, second: seq<int>)
    ensures CommonAscending(Intersect(first, second), first, second) <==> !TailsClash(first, second)
  {
    if TailsClash(first, second) {
      var x :| x in Leftover(first) && x in Leftover(second) && x != 0;
      ClashSpoils(first, second, x);
    } else {
      NoClashNoHarm(first, second);
      SurvivorsMerged(first, second);
    }
  }

  lemma NotStrictTwice(s: seq<int>, t: seq<int>, m: int)
    requires m in s && m in t
    ensures !Strict(s + t)
  {
    var i :| 0 <= i < |s| && s[i] == m;
    var j :| 0 <= j < |t| && t[j] == m;
    assert (s + t)[i] == (s + t)[|s| + j];
  }

  /** What a caller can check: leftovers clash only if both vectors have duplicates and the same largest
      value, and if that value is not zero they then do. */
  lemma ClashExactly(first: seq<int>, second: seq<int>)
    ensures TailsClash(first, second)
        ==> !DupFree(first) && !DupFree(second) && first != [] && second != [] && Max(first) == Max(second)
    ensures !DupFree(first) && !DupFree(second) && first != [] && second != [] && Max(first) == Max(second)
            && Max(first) != 0
        ==> TailsClash(first, second)
  {
    Leftovers(first);
    Leftovers(second);
    if !DupFree(first) && !DupFree(second) && first != [] && second != [] && Max(first) == Max(second) {
      assert Max(first) in Leftover(first) && Max(second) in Leftover(second);
    }
  }

  /** Every call site: one vector without duplicates is enough. */
  lemma OneDupFreeIsEnough(first: seq<int>, second: seq<int>)
    requires DupFree(first) || DupFree(second)
    ensures CommonAscending(Intersect(first, second), first, second)
  {
    ClashExactly(first, second);
    IntersectionExact(first, second);
  }
}
