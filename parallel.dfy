/** The executor `parallelize(items, limit, fn)` runs `fn` on every item and
    returns the outcomes in the order they settle. Which order that is depends
    on timing, so the model only fixes what is certain: one outcome per item,
    as a permutation of the outcomes in input order. Also the list helpers
    (`map`, `filter`) the callers apply to those outcomes. */
module Parallel {

  /** `items.map(f)`. */
  function Map<T, R>(f: T -> R, items: seq<T>): (r: seq<R>)
    ensures |r| == |items|
    ensures forall i :: 0 <= i < |items| ==> r[i] == f(items[i])
  {
    if items == [] then [] else [f(items[0])] + Map(f, items[1..])
  }

  /** `items.filter(p)`: the items satisfying `p`, in order. */
  function Filter<T>(p: T -> bool, items: seq<T>): (r: seq<T>)
    ensures |r| <= |items|
    ensures forall i :: 0 <= i < |r| ==> p(r[i])
  {
    if items == [] then []
    else if p(items[0]) then [items[0]] + Filter(p, items[1..])
    else Filter(p, items[1..])
  }

  /** `outcomes` could be what `parallelize` returns for `fn` over `items`:
      the outcomes of all items, in some order. */
  predicate Settled<T, R(==)>(items: seq<T>, fn: T -> R, outcomes: seq<R>)
  {
    multiset(outcomes) == multiset(Map(fn, items))
  }

  /** An item occurs in the filtered list as often as in the list when it
      satisfies the predicate, and not at all otherwise. */
  lemma {:induction false} FilterCount<T>(p: T -> bool, items: seq<T>, x: T)
    ensures multiset(Filter(p, items))[x] == if p(x) then multiset(items)[x] else 0
  {
    if items != [] {
      FilterCount(p, items[1..], x);
      assert items == [items[0]] + items[1..];
    }
  }

  /** Filtering two permutations of each other gives permutations of each other. */
  lemma FilterPermutation<T>(p: T -> bool, a: seq<T>, b: seq<T>)
    requires multiset(a) == multiset(b)
    ensures multiset(Filter(p, a)) == multiset(Filter(p, b))
  {
    forall x
      ensures multiset(Filter(p, a))[x] == multiset(Filter(p, b))[x]
    {
      FilterCount(p, a, x);
      FilterCount(p, b, x);
    }
    MultisetExt(multiset(Filter(p, a)), multiset(Filter(p, b)));
  }

  /** Multisets with the same counts are equal. */
  lemma MultisetExt<T>(m: multiset<T>, n: multiset<T>)
    requires forall x :: m[x] == n[x]
    ensures m == n
  {
  }

  lemma MapConcat<T, R>(f: T -> R, a: seq<T>, b: seq<T>)
    ensures Map(f, a + b) == Map(f, a) + Map(f, b)
  {
    assert forall i :: 0 <= i < |a + b| ==> Map(f, a + b)[i] == (Map(f, a) + Map(f, b))[i];
  }

  /** Mapping two permutations of each other gives permutations of each other. */
  lemma {:induction false} MapPermutation<T, R>(f: T -> R, a: seq<T>, b: seq<T>)
    requires multiset(a) == multiset(b)
    ensures multiset(Map(f, a)) == multiset(Map(f, b))
    decreases |a|
  {
    if a != [] {
      var x := a[0];
      assert x in multiset(b);
      var j :| 0 <= j < |b| && b[j] == x;
      var rest := Without(b, j);
      RemoveAt(a, 0);
      RemoveAt(b, j);
      assert Without(a, 0) == a[1..];
      forall y
        ensures multiset(a[1..])[y] == multiset(rest)[y]
      {
        assert multiset(a)[y] == multiset(a[1..])[y] + multiset{x}[y];
        assert multiset(b)[y] == multiset(rest)[y] + multiset{x}[y];
      }
      MultisetExt(multiset(a[1..]), multiset(rest));
      MapPermutation(f, a[1..], rest);
      MapRemoveAt(f, a, 0);
      MapRemoveAt(f, b, j);
    }
  }

  /** The sequence without its element at `j`. */
  function Without<T>(s: seq<T>, j: nat): (r: seq<T>)
    requires j < |s|
    ensures |r| == |s| - 1
  {
    s[..j] + s[j + 1..]
  }

  /** A sequence is its part before `j`, its element at `j` and the rest. */
  lemma SplitAt<T>(s: seq<T>, j: nat)
    requires j < |s|
    ensures s == s[..j] + [s[j]] + s[j + 1..]
  {
  }

  /** Removing one element removes one occurrence of it. */
  lemma RemoveAt<T>(s: seq<T>, j: nat)
    requires j < |s|
    ensures multiset(s) == multiset(Without(s, j)) + multiset{s[j]}
  {
    SplitAt(s, j);
  }

  /** Removing one element before mapping removes one occurrence of its image. */
  lemma MapRemoveAt<T, R>(f: T -> R, s: seq<T>, j: nat)
    requires j < |s|
    ensures multiset(Map(f, s)) == multiset(Map(f, Without(s, j))) + multiset{f(s[j])}
  {
    MapSplit(f, s, j);
    MapConcat(f, s[..j], s[j + 1..]);
    MultisetSplit(Map(f, s[..j]), f(s[j]), Map(f, s[j + 1..]));
  }

  /** Mapping commutes with taking out one element. */
  lemma MapSplit<T, R>(f: T -> R, s: seq<T>, j: nat)
    requires j < |s|
    ensures Map(f, s) == Map(f, s[..j]) + [f(s[j])] + Map(f, s[j + 1..])
  {
    var r := Map(f, s[..j]) + [f(s[j])] + Map(f, s[j + 1..]);
    forall i | 0 <= i < |s|
      ensures Map(f, s)[i] == r[i]
    {
      if i < j {
        assert r[i] == Map(f, s[..j])[i];
      } else if i > j {
        assert r[i] == Map(f, s[j + 1..])[i - j - 1];
      }
    }
  }

  lemma MultisetSplit<T>(a: seq<T>, x: T, b: seq<T>)
    ensures multiset(a + [x] + b) == multiset(a + b) + multiset{x}
  {
  }

  /** A prefix one longer is the prefix and the next element. */
  lemma PrefixSnoc<T>(s: seq<T>, i: nat)
    requires i < |s|
    ensures s[..i + 1] == s[..i] + [s[i]]
  {
  }
}
