/**
 * Sequence utilities shared by the rules: first-occurrence de-duplication
 * (the `if x not in seen: seen.append(x)` loops of the source), filtering and
 * counting, and Python's `sorted(set(...))` on strings.
 */
module Seqs {
  import opened Wrappers

  // ---------------------------------------------------------------------------
  // De-duplication by key

  function Keys<T, K>(s: seq<T>, key: T -> K): (ks: seq<K>)
    ensures |ks| == |s|
    ensures forall i :: 0 <= i < |s| ==> ks[i] == key(s[i])
  {
    seq(|s|, i requires 0 <= i < |s| => key(s[i]))
  }

  /**
   * The accumulate-and-skip loop of the source as a function of the prefix
   * seen so far: an element is kept when its key is not yet among the keys of
   * what has been kept.
   */
  function DedupBy<T, K(==,!new)>(s: seq<T>, key: T -> K): seq<T>
    decreases |s|
  {
    if |s| == 0 then []
    else
      var d := DedupBy(s[..|s| - 1], key);
      if key(s[|s| - 1]) in Keys(d, key) then d else d + [s[|s| - 1]]
  }

  /** `s[i]` is the first element of `s` with its key. */
  predicate IsFirstOf<T, K(==,!new)>(s: seq<T>, key: T -> K, i: int)
    requires 0 <= i < |s|
  {
    key(s[i]) !in Keys(s[..i], key)
  }

  /** Reference definition: the elements of `s` that are the first with their key, in order. */
  function FirstOccurrences<T, K(==,!new)>(s: seq<T>, key: T -> K): seq<T>
    decreases |s|
  {
    if |s| == 0 then []
    else FirstOccurrences(s[..|s| - 1], key) + (if IsFirstOf(s, key, |s| - 1) then [s[|s| - 1]] else [])
  }

  lemma KeysPrefix<T, K>(s: seq<T>, key: T -> K, n: nat)
    requires n <= |s|
    ensures Keys(s[..n], key) == Keys(s, key)[..n]
  {
  }

  /** The keys kept by `DedupBy` are exactly the keys of the input, each once. */
  lemma {:induction false} DedupByKeys<T, K(!new)>(s: seq<T>, key: T -> K)
    ensures forall k :: k in Keys(DedupBy(s, key), key) <==> k in Keys(s, key)
    ensures forall i, j :: 0 <= i < j < |DedupBy(s, key)| ==>
      key(DedupBy(s, key)[i]) != key(DedupBy(s, key)[j])
    ensures forall x :: x in DedupBy(s, key) ==> x in s
    decreases |s|
  {
    if |s| > 0 {
      var p := s[..|s| - 1];
      var x := s[|s| - 1];
      DedupByKeys(p, key);
      var d := DedupBy(p, key);
      assert Keys(s, key) == Keys(p, key) + [key(x)];
      if key(x) !in Keys(d, key) {
        assert Keys(d + [x], key) == Keys(d, key) + [key(x)];
        forall i, j | 0 <= i < j < |d + [x]| ensures key((d + [x])[i]) != key((d + [x])[j]) {
          if j == |d| {
            assert key((d + [x])[i]) == Keys(d, key)[i];
          }
        }
      }
    }
  }

  /** `DedupBy` agrees with the first-occurrence reference definition. */
  lemma {:induction false} DedupByIsFirstOccurrences<T, K(!new)>(s: seq<T>, key: T -> K)
    ensures DedupBy(s, key) == FirstOccurrences(s, key)
    decreases |s|
  {
    if |s| > 0 {
      var p := s[..|s| - 1];
      DedupByIsFirstOccurrences(p, key);
      DedupByKeys(p, key);
      KeysPrefix(s, key, |s| - 1);
      assert s[..|s| - 1] == p;
      var x := s[|s| - 1];
      assert IsFirstOf(s, key, |s| - 1) <==> key(x) !in Keys(p, key);
      assert key(x) in Keys(p, key) <==> key(x) in Keys(DedupBy(p, key), key);
    }
  }

  /** Removing later duplicates never lengthens a sequence. */
  lemma {:induction false} DedupByLength<T, K(!new)>(s: seq<T>, key: T -> K)
    ensures |DedupBy(s, key)| <= |s|
    decreases |s|
  {
    if |s| > 0 {
      DedupByLength(s[..|s| - 1], key);
    }
  }

  function Identity<T>(x: T): T
  {
    x
  }

  /** Plain de-duplication of values (the key is the value itself). */
  function Dedup<T(==,!new)>(s: seq<T>): seq<T>
  {
    DedupBy(s, Identity)
  }

  /** A de-duplicated sequence holds each value of the input exactly once. */
  lemma DedupProperties<T(!new)>(s: seq<T>)
    ensures forall x :: x in Dedup(s) <==> x in s
    ensures forall i, j :: 0 <= i < j < |Dedup(s)| ==> Dedup(s)[i] != Dedup(s)[j]
  {
    var id := Identity<T>;
    DedupByKeys(s, id);
    assert Dedup(s) == DedupBy(s, id);
    forall x ensures x in Dedup(s) <==> x in s {
      if x in s {
        var i :| 0 <= i < |s| && s[i] == x;
        assert Keys(s, id)[i] == x;
        assert x in Keys(s, id);
        assert x in Keys(DedupBy(s, id), id);
        var k :| 0 <= k < |Dedup(s)| && Keys(Dedup(s), id)[k] == x;
        assert Dedup(s)[k] == x;
      }
    }
  }

  // ---------------------------------------------------------------------------
  // Searching from the end

  /** The position of the last element that passes, as a loop that overwrites its result on every pass finds it. */
  function LastWhere<T>(s: seq<T>, p: T -> bool): (r: Option<nat>)
    ensures r.Some? ==> r.value < |s| && p(s[r.value]) && forall j :: r.value < j < |s| ==> !p(s[j])
    ensures r.None? ==> forall j :: 0 <= j < |s| ==> !p(s[j])
    decreases |s|
  {
    if |s| == 0 then None
    else if p(s[|s| - 1]) then Some(|s| - 1)
    else LastWhere(s[..|s| - 1], p)
  }

  // ---------------------------------------------------------------------------
  // Filtering and counting

  function Filter<T>(s: seq<T>, p: T -> bool): (r: seq<T>)
    ensures |r| <= |s|
    decreases |s|
  {
    if |s| == 0 then []
    else Filter(s[..|s| - 1], p) + (if p(s[|s| - 1]) then [s[|s| - 1]] else [])
  }

  /** The filtered sequence holds exactly the elements that pass. */
  lemma {:induction false} FilterMembers<T>(s: seq<T>, p: T -> bool)
    ensures forall x :: x in Filter(s, p) <==> x in s && p(x)
    decreases |s|
  {
    if |s| > 0 {
      var n := |s| - 1;
      FilterMembers(s[..n], p);
      assert s == s[..n] + [s[n]];
    }
  }

  function Count<T>(s: seq<T>, p: T -> bool): nat
    decreases |s|
  {
    if |s| == 0 then 0
    else Count(s[..|s| - 1], p) + (if p(s[|s| - 1]) then 1 else 0)
  }

  lemma {:induction false} FilterCount<T>(s: seq<T>, p: T -> bool)
    ensures |Filter(s, p)| == Count(s, p)
    decreases |s|
  {
    if |s| > 0 {
      FilterCount(s[..|s| - 1], p);
    }
  }

  lemma {:induction false} FilterAppend<T>(s: seq<T>, t: seq<T>, p: T -> bool)
    ensures Filter(s + t, p) == Filter(s, p) + Filter(t, p)
    decreases |t|
  {
    if |t| > 0 {
      FilterAppend(s, t[..|t| - 1], p);
      assert (s + t)[..|s + t| - 1] == s + t[..|t| - 1];
      assert (s + t)[|s + t| - 1] == t[|t| - 1];
    } else {
      assert s + t == s;
    }
  }

  /** An element that passes, and its two neighbourhoods: counting splits around it. */
  lemma {:induction false} CountAppend<T>(s: seq<T>, t: seq<T>, p: T -> bool)
    ensures Count(s + t, p) == Count(s, p) + Count(t, p)
    decreases |t|
  {
    if |t| > 0 {
      CountAppend(s, t[..|t| - 1], p);
      assert (s + t)[..|s + t| - 1] == s + t[..|t| - 1];
      assert (s + t)[|s + t| - 1] == t[|t| - 1];
    } else {
      assert s + t == s;
    }
  }

  /** Two predicates that never hold together count no more than the whole. */
  lemma {:induction false} CountDisjoint<T>(s: seq<T>, p: T -> bool, q: T -> bool)
    requires forall x :: x in s ==> !(p(x) && q(x))
    ensures Count(s, p) + Count(s, q) <= |s|
    decreases |s|
  {
    if |s| > 0 {
      CountDisjoint(s[..|s| - 1], p, q);
    }
  }

  /** Counting a predicate and its negation gives the length. */
  lemma {:induction false} CountComplement<T>(s: seq<T>, p: T -> bool, q: T -> bool)
    requires forall x :: x in s ==> (q(x) <==> !p(x))
    ensures Count(s, p) + Count(s, q) == |s|
    decreases |s|
  {
    if |s| > 0 {
      CountComplement(s[..|s| - 1], p, q);
    }
  }

  // ---------------------------------------------------------------------------
  // Python's ordering of strings and `sorted(set(xs))`

  /** Python's `a < b` on strings: lexicographic by code point. */
  predicate StrLess(a: string, b: string)
    decreases |a|
  {
    if |a| == 0 then |b| > 0
    else if |b| == 0 then false
    else if a[0] != b[0] then a[0] < b[0]
    else StrLess(a[1..], b[1..])
  }

  lemma {:induction false} StrLessIrreflexive(a: string)
    ensures !StrLess(a, a)
    decreases |a|
  {
    if |a| > 0 {
      StrLessIrreflexive(a[1..]);
    }
  }

  lemma {:induction false} StrLessTransitive(a: string, b: string, c: string)
    requires StrLess(a, b) && StrLess(b, c)
    ensures StrLess(a, c)
    decreases |a|
  {
    if |a| > 0 && |b| > 0 && |c| > 0 && a[0] == b[0] && b[0] == c[0] {
      StrLessTransitive(a[1..], b[1..], c[1..]);
    }
  }

  lemma {:induction false} StrLessTotal(a: string, b: string)
    requires a != b
    ensures StrLess(a, b) || StrLess(b, a)
    decreases |a|
  {
    if |a| > 0 && |b| > 0 && a[0] == b[0] {
      assert a == [a[0]] + a[1..];
      assert b == [b[0]] + b[1..];
      StrLessTotal(a[1..], b[1..]);
    }
  }

  lemma StrLessAsymmetric(a: string, b: string)
    ensures !(StrLess(a, b) && StrLess(b, a))
  {
    if StrLess(a, b) && StrLess(b, a) {
      StrLessTransitive(a, b, a);
      StrLessIrreflexive(a);
    }
  }

  predicate StrictlySorted(xs: seq<string>)
  {
    forall i, j :: 0 <= i < j < |xs| ==> StrLess(xs[i], xs[j])
  }

  /** Insert `x` into a strictly sorted list unless it is already there. */
  function InsertSorted(x: string, xs: seq<string>): (r: seq<string>)
    requires StrictlySorted(xs)
    ensures StrictlySorted(r)
    ensures forall y :: y in r <==> y == x || y in xs
    decreases |xs|
  {
    if |xs| == 0 then [x]
    else if x == xs[0] then xs
    else if StrLess(x, xs[0]) then
      assert forall j :: 0 < j < |xs| ==> StrLess(x, xs[j]) by {
        forall j | 0 < j < |xs| ensures StrLess(x, xs[j]) {
          StrLessTransitive(x, xs[0], xs[j]);
        }
      }
      [x] + xs
    else
      StrLessTotal(x, xs[0]);
      var rest := InsertSorted(x, xs[1..]);
      assert forall y :: y in rest ==> StrLess(xs[0], y);
      [xs[0]] + rest
  }

  /** Python's `sorted(set(xs))` on strings. */
  function SortedSet(xs: seq<string>): (r: seq<string>)
    ensures StrictlySorted(r)
    ensures forall y :: y in r <==> y in xs
    decreases |xs|
  {
    if |xs| == 0 then [] else InsertSorted(xs[|xs| - 1], SortedSet(xs[..|xs| - 1]))
  }

  /** The head of a strictly sorted list is below every other element and not repeated. */
  lemma SortedHead(a: seq<string>)
    requires StrictlySorted(a) && |a| > 0
    ensures forall y :: y in a[1..] <==> y in a && y != a[0]
    ensures forall y :: y in a && y != a[0] ==> StrLess(a[0], y)
  {
    StrLessIrreflexive(a[0]);
    forall y | y in a[1..] ensures y != a[0] {
      var k :| 0 <= k < |a| - 1 && a[1..][k] == y;
      assert StrLess(a[0], a[k + 1]);
    }
    assert a == [a[0]] + a[1..];
  }

  lemma SameElementsNonEmpty<T>(a: seq<T>, b: seq<T>)
    requires forall y :: y in a <==> y in b
    ensures |a| > 0 ==> |b| > 0
  {
    if |a| > 0 {
      assert a[0] in a;
    }
  }

  /** A strictly sorted list is determined by its elements. */
  lemma {:induction false} StrictlySortedUnique(a: seq<string>, b: seq<string>)
    requires StrictlySorted(a) && StrictlySorted(b)
    requires forall y :: y in a <==> y in b
    ensures a == b
    decreases |a|
  {
    if |a| > 0 {
      assert a[0] in a;
      assert |b| > 0;
      SortedHead(a);
      SortedHead(b);
      StrLessAsymmetric(a[0], b[0]);
      assert a[0] == b[0];
      assert forall y :: y in a[1..] <==> y in b[1..];
      StrictlySortedUnique(a[1..], b[1..]);
      assert a == [a[0]] + a[1..];
      assert b == [b[0]] + b[1..];
    } else {
      SameElementsNonEmpty(b, a);
    }
  }

  /** Every element of `xs` other than `x`, in order: `list.remove(x)` when `x` occurs at most once. */
  function RemoveValue<T(==)>(xs: seq<T>, x: T): (r: seq<T>)
    ensures forall i :: 0 <= i < |r| ==> r[i] in xs && r[i] != x
    ensures forall i :: 0 <= i < |xs| && xs[i] != x ==> xs[i] in r
    ensures |r| <= |xs|
    decreases |xs|
  {
    if |xs| == 0 then []
    else RemoveValue(xs[..|xs| - 1], x) + (if xs[|xs| - 1] != x then [xs[|xs| - 1]] else [])
  }

  /** Removing a value that is absent changes nothing. */
  lemma {:induction false} RemoveValueAbsent<T>(xs: seq<T>, x: T)
    requires x !in xs
    ensures RemoveValue(xs, x) == xs
    decreases |xs|
  {
    if |xs| > 0 {
      RemoveValueAbsent(xs[..|xs| - 1], x);
      assert xs[..|xs| - 1] + [xs[|xs| - 1]] == xs;
    }
  }

  /** Removing a value keeps a strictly sorted list strictly sorted. */
  lemma {:induction false} RemoveValueSorted(xs: seq<string>, x: string)
    requires StrictlySorted(xs)
    ensures StrictlySorted(RemoveValue(xs, x))
    decreases |xs|
  {
    if |xs| > 0 {
      RemoveValueSorted(xs[..|xs| - 1], x);
      var f := RemoveValue(xs[..|xs| - 1], x);
      forall i | 0 <= i < |f| ensures StrLess(f[i], xs[|xs| - 1]) {
        var k :| 0 <= k < |xs| - 1 && xs[..|xs| - 1][k] == f[i];
        assert xs[k] == f[i];
      }
    }
  }

  lemma {:induction false} FilterSorted(xs: seq<string>, p: string -> bool)
    requires StrictlySorted(xs)
    ensures StrictlySorted(Filter(xs, p))
    decreases |xs|
  {
    if |xs| > 0 {
      FilterSorted(xs[..|xs| - 1], p);
      FilterMembers(xs[..|xs| - 1], p);
      var f := Filter(xs[..|xs| - 1], p);
      forall i | 0 <= i < |f| ensures StrLess(f[i], xs[|xs| - 1]) {
        assert f[i] in f;
        var k :| 0 <= k < |xs| - 1 && xs[..|xs| - 1][k] == f[i];
        assert xs[k] == f[i];
      }
    }
  }
}
