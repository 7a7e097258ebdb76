/**
 * Python's `sorted(xs, key=f)`: decorate each element with its key, sort the
 * pairs stably by key, strip the keys again. The pairs are `(key, element)`.
 * The sort is insertion of each element, in list order, after every element
 * whose key is not greater than its own.
 */
module Sorting {
  import opened Text
  import opened Seqs

  /** The elements with their keys stripped. */
  function Values<T>(s: seq<(string, T)>): (r: seq<T>)
    ensures |r| == |s| && forall i | 0 <= i < |s| :: r[i] == s[i].1
  {
    seq(|s|, i requires 0 <= i < |s| => s[i].1)
  }

  /** Keys are non-decreasing along the list. */
  ghost predicate SortedByKey<T>(s: seq<(string, T)>) {
    forall i, j | 0 <= i < j < |s| :: LessEq(s[i].0, s[j].0)
  }

  /** The pairs whose key is `k`, in list order. */
  function WithKey<T>(s: seq<(string, T)>, k: string): seq<(string, T)> {
    if s == [] then []
    else (if s[0].0 == k then [s[0]] else []) + WithKey(s[1..], k)
  }

  /** Place `x` just before the first pair whose key is greater than x's key. */
  function Insert<T>(x: (string, T), s: seq<(string, T)>): seq<(string, T)> {
    if s == [] then [x]
    else if Less(x.0, s[0].0) then [x] + s
    else [s[0]] + Insert(x, s[1..])
  }

  /** `sorted` on decorated pairs. */
  function SortByKey<T>(s: seq<(string, T)>): seq<(string, T)> {
    if s == [] then []
    else Insert(s[|s| - 1], SortByKey(s[..|s| - 1]))
  }

  lemma {:induction false} WithKeyConcat<T>(a: seq<(string, T)>, b: seq<(string, T)>, k: string)
    ensures WithKey(a + b, k) == WithKey(a, k) + WithKey(b, k)
  {
    if a != [] {
      assert (a + b)[0] == a[0] && (a + b)[1..] == a[1..] + b;
      WithKeyConcat(a[1..], b, k);
    } else {
      assert a + b == b;
    }
  }

  lemma {:induction false} WithKeyNone<T>(s: seq<(string, T)>, k: string)
    requires forall i | 0 <= i < |s| :: s[i].0 != k
    ensures WithKey(s, k) == []
  {
    if s != [] { WithKeyNone(s[1..], k); }
  }

  /** Insert puts x between the pairs with keys not above it and those with keys above it. */
  lemma {:induction false} InsertSplit<T>(x: (string, T), s: seq<(string, T)>) returns (p: nat)
    ensures p <= |s| && Insert(x, s) == s[..p] + [x] + s[p..]
    ensures forall i | 0 <= i < p :: LessEq(s[i].0, x.0)
    ensures p < |s| ==> Less(x.0, s[p].0)
  {
    if s == [] {
      p := 0;
    } else if Less(x.0, s[0].0) {
      p := 0;
    } else {
      LessEqTotal(x.0, s[0].0);
      var q := InsertSplit(x, s[1..]);
      p := q + 1;
      assert s[..p] == [s[0]] + s[1..][..q];
      assert s[p..] == s[1..][q..];
    }
  }

  lemma ValuesConcat<T>(a: seq<(string, T)>, b: seq<(string, T)>)
    ensures Values(a + b) == Values(a) + Values(b)
  {
    assert forall i | 0 <= i < |a + b| :: Values(a + b)[i] == (Values(a) + Values(b))[i];
  }

  lemma InsertPermutes<T>(x: (string, T), s: seq<(string, T)>)
    ensures multiset(Insert(x, s)) == multiset(s) + multiset{x}
    ensures multiset(Values(Insert(x, s))) == multiset(Values(s)) + multiset{x.1}
  {
    var p := InsertSplit(x, s);
    var a, b := s[..p], s[p..];
    assert s == a + b;
    MultisetAround(a, x, b);
    ValuesConcat(a + [x], b);
    ValuesConcat(a, [x]);
    ValuesConcat(a, b);
    assert Values([x]) == [x.1];
    MultisetAround(Values(a), x.1, Values(b));
  }

  lemma SortedFrom<T>(s: seq<(string, T)>, i: nat, j: nat)
    requires SortedByKey(s) && i <= j < |s|
    ensures LessEq(s[i].0, s[j].0)
  {
    if i == j { LessEqReflexive(s[i].0); }
  }

  lemma {:induction false} InsertSorted<T>(x: (string, T), s: seq<(string, T)>)
    requires SortedByKey(s)
    ensures SortedByKey(Insert(x, s))
  {
    var p := InsertSplit(x, s);
    var r := Insert(x, s);
    forall i, j | 0 <= i < j < |r| ensures LessEq(r[i].0, r[j].0) {
      if j < p {
        assert r[i] == s[i] && r[j] == s[j];
      } else if j == p {
        assert r[i] == s[i] && r[j] == x;
      } else if i < p {
        assert r[i] == s[i] && r[j] == s[j - 1];
        LessEqTransitive(s[i].0, x.0, s[p].0) by { LessEqTotal(x.0, s[p].0); }
        SortedFrom(s, p, j - 1);
        LessEqTransitive(s[i].0, s[p].0, s[j - 1].0);
      } else if i == p {
        assert r[i] == x && r[j] == s[j - 1];
        LessEqTotal(x.0, s[p].0);
        SortedFrom(s, p, j - 1);
        LessEqTransitive(x.0, s[p].0, s[j - 1].0);
      } else {
        assert r[i] == s[i - 1] && r[j] == s[j - 1];
      }
    }
  }

  /** Inserting into a sorted list appends x to the pairs that share its key. */
  lemma {:induction false} InsertStable<T>(x: (string, T), s: seq<(string, T)>, k: string)
    requires SortedByKey(s)
    ensures WithKey(Insert(x, s), k) == WithKey(s, k) + (if x.0 == k then [x] else [])
  {
    var p := InsertSplit(x, s);
    assert s == s[..p] + s[p..];
    WithKeyConcat(s[..p] + [x], s[p..], k);
    WithKeyConcat(s[..p], [x], k);
    WithKeyConcat(s[..p], s[p..], k);
    assert WithKey([x], k) == (if x.0 == k then [x] else []) by {
      assert [x][1..] == [];
    }
    if x.0 == k {
      forall i | p <= i < |s| ensures s[i].0 != k {
        LessEqReflexive(k);
        SortedFrom(s, p, i);
        LessEqChain(s[p].0, s[i].0, x.0);
      }
      WithKeyNone(s[p..], k);
    }
  }

  /** `sorted(key=...)` yields keys in non-decreasing order. */
  lemma {:induction false} SortByKeySorted<T>(s: seq<(string, T)>)
    ensures SortedByKey(SortByKey(s))
  {
    if s != [] {
      SortByKeySorted(s[..|s| - 1]);
      InsertSorted(s[|s| - 1], SortByKey(s[..|s| - 1]));
    }
  }

  /** `sorted` returns a rearrangement of its input: the same pairs, the same elements. */
  lemma {:induction false} SortByKeyPermutes<T>(s: seq<(string, T)>)
    ensures multiset(SortByKey(s)) == multiset(s)
    ensures multiset(Values(SortByKey(s))) == multiset(Values(s))
  {
    if s != [] {
      var init, last := s[..|s| - 1], s[|s| - 1];
      assert s == init + [last];
      assert Values(s) == Values(init) + [last.1];
      SortByKeyPermutes(init);
      InsertPermutes(last, SortByKey(init));
    }
  }

  /** `sorted` is stable: the pairs sharing any one key keep their original order. */
  lemma {:induction false} SortByKeyStable<T>(s: seq<(string, T)>, k: string)
    ensures WithKey(SortByKey(s), k) == WithKey(s, k)
  {
    if s != [] {
      var init, last := s[..|s| - 1], s[|s| - 1];
      assert s == init + [last];
      SortByKeyStable(init, k);
      SortByKeySorted(init);
      InsertStable(last, SortByKey(init), k);
      WithKeyConcat(init, [last], k);
      assert WithKey([last], k) == (if last.0 == k then [last] else []) by {
        assert [last][1..] == [];
      }
    }
  }
}
