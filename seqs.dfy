/**
 * Facts about Python lists used by both stores: `list.index`, `list.remove`
 * and overwriting the first occurrence, on objects compared by identity, and
 * "filtered in order" (subsequence).
 */
module Seqs {

  /** No object occurs twice. */
  ghost predicate Distinct<T>(s: seq<T>) {
    forall i, j | 0 <= i < j < |s| :: s[i] != s[j]
  }

  /** `s.index(x)`: the position of the first occurrence of `x`. */
  function IndexOf<T(==)>(s: seq<T>, x: T): (i: nat)
    requires x in s
    ensures i < |s| && s[i] == x && x !in s[..i]
  {
    if s[0] == x then 0
    else
      var k := IndexOf(s[1..], x);
      assert s[..k + 1] == [s[0]] + s[1..][..k];
      k + 1
  }

  /** In a list without repeated objects, the object at position k is first found at k. */
  lemma IndexOfDistinct<T>(s: seq<T>, k: nat)
    requires Distinct(s) && k < |s|
    ensures IndexOf(s, s[k]) == k
  {
  }

  /** Removing position i of a list without repeats keeps it without repeats. */
  lemma DistinctRemove<T>(s: seq<T>, i: nat)
    requires Distinct(s) && i < |s|
    ensures Distinct(s[..i] + s[i + 1..])
  {
    var r := s[..i] + s[i + 1..];
    forall a, b | 0 <= a < b < |r| ensures r[a] != r[b] {
      var a' := if a < i then a else a + 1;
      var b' := if b < i then b else b + 1;
      assert r[a] == s[a'] && r[b] == s[b'];
    }
  }

  /** Removing the first occurrence of `x` takes exactly one `x` out of the list. */
  lemma RemoveFirstCount<T>(s: seq<T>, x: T)
    requires x in s
    ensures |s[..IndexOf(s, x)] + s[IndexOf(s, x) + 1..]| == |s| - 1
    ensures multiset(s[..IndexOf(s, x)] + s[IndexOf(s, x) + 1..]) == multiset(s) - multiset{x}
  {
    var i := IndexOf(s, x);
    var a, b := s[..i], s[i + 1..];
    assert s == a + [x] + b;
    MultisetAround(a, x, b);
  }

  /** The multiset of `a + [x] + b` is that of `a + b` with one more `x`. */
  lemma MultisetAround<U>(a: seq<U>, x: U, b: seq<U>)
    ensures multiset(a + [x] + b) == multiset(a + b) + multiset{x}
  {
    assert a + [x] + b == a + ([x] + b);
  }

  /** Overwriting the first occurrence of `x` by `y` swaps one `x` for one `y`. */
  lemma ReplaceFirstCount<T>(s: seq<T>, x: T, y: T)
    requires x in s
    ensures |s[IndexOf(s, x) := y]| == |s|
    ensures multiset(s[IndexOf(s, x) := y]) == multiset(s) - multiset{x} + multiset{y}
  {
    var i := IndexOf(s, x);
    var a, b := s[..i], s[i + 1..];
    assert s == a + [x] + b;
    assert s[i := y] == a + [y] + b;
    MultisetAround(a, x, b);
    MultisetAround(a, y, b);
  }

  /** `idx` lists, in increasing order, positions of `b` that spell out `a`. */
  ghost predicate Embeds<T>(idx: seq<nat>, a: seq<T>, b: seq<T>) {
    && |idx| == |a|
    && (forall i | 0 <= i < |idx| :: idx[i] < |b| && a[i] == b[idx[i]])
    && (forall i, j | 0 <= i < j < |idx| :: idx[i] < idx[j])
  }

  /** `a` is `b` with some elements left out and the rest in their original order. */
  ghost predicate IsSubsequence<T>(a: seq<T>, b: seq<T>) {
    exists idx :: Embeds(idx, a, b)
  }

  /** Appending an element to `b`, and either keeping or dropping it from `a`. */
  lemma EmbedsSnoc<T>(idx: seq<nat>, a: seq<T>, b: seq<T>, x: T, keep: bool)
    requires Embeds(idx, a, b)
    ensures keep ==> Embeds(idx + [|b|], a + [x], b + [x])
    ensures !keep ==> Embeds(idx, a, b + [x])
  {
  }
}
