/**
 * The string operations the contact store relies on: Python's `str.strip()`,
 * `str.lower()`, the substring test `q in s`, and the ordering `<` of strings,
 * all restricted to ASCII.
 */
module Text {
  import opened Wrappers

  /** `ch.isspace()` for ASCII characters: space, \t \n \v \f \r and \x1c-\x1f. */
  predicate IsSpace(ch: char) {
    var n := ch as int;
    n == 32 || 9 <= n <= 13 || 28 <= n <= 31
  }

  predicate AllSpace(s: string) {
    forall i | 0 <= i < |s| :: IsSpace(s[i])
  }

  /** `s.lstrip()`. */
  function TrimStart(s: string): string {
    if s != [] && IsSpace(s[0]) then TrimStart(s[1..]) else s
  }

  /** `s.rstrip()`. */
  function TrimEnd(s: string): string {
    if s != [] && IsSpace(s[|s| - 1]) then TrimEnd(s[..|s| - 1]) else s
  }

  /** `lstrip` leaves the suffix after the leading whitespace, which starts with a non-space. */
  lemma {:induction false} TrimStartSuffix(s: string) returns (i: nat)
    ensures i <= |s| && TrimStart(s) == s[i..] && AllSpace(s[..i])
    ensures TrimStart(s) != [] ==> !IsSpace(TrimStart(s)[0])
  {
    if s != [] && IsSpace(s[0]) {
      var k := TrimStartSuffix(s[1..]);
      i := k + 1;
      assert s[1..][k..] == s[i..];
      assert forall j | 1 <= j < i :: s[j] == s[1..][..k][j - 1];
    } else {
      i := 0;
    }
  }

  /** `rstrip` leaves the prefix before the trailing whitespace, which ends with a non-space. */
  lemma {:induction false} TrimEndPrefix(s: string) returns (j: nat)
    ensures j <= |s| && TrimEnd(s) == s[..j] && AllSpace(s[j..])
    ensures TrimEnd(s) != [] ==> !IsSpace(TrimEnd(s)[|TrimEnd(s)| - 1])
  {
    if s != [] && IsSpace(s[|s| - 1]) {
      j := TrimEndPrefix(s[..|s| - 1]);
      assert s[..|s| - 1][..j] == s[..j];
      assert forall k | j <= k < |s| - 1 :: s[k] == s[..|s| - 1][j..][k - j];
    } else {
      j := |s|;
    }
  }

  /** `s.strip()`. */
  function Trim(s: string): string {
    TrimEnd(TrimStart(s))
  }

  /**
   * Trim(s) is the middle of `s` between a whitespace prefix and a whitespace
   * suffix, and it neither starts nor ends with whitespace.
   */
  lemma TrimIsMiddle(s: string) returns (i: nat, j: nat)
    ensures i <= j <= |s| && Trim(s) == s[i..j]
    ensures AllSpace(s[..i]) && AllSpace(s[j..])
    ensures Trim(s) != [] ==> !IsSpace(Trim(s)[0]) && !IsSpace(Trim(s)[|Trim(s)| - 1])
  {
    i := TrimStartSuffix(s);
    var t := TrimStart(s);
    var m := TrimEndPrefix(t);
    j := i + m;
    assert TrimEnd(t) == s[i..][..m] == s[i..j];
    assert s[j..] == t[m..];
    if Trim(s) != [] {
      assert Trim(s)[0] == t[0];
    }
  }

  /** An already stripped string is its own strip: `s.strip().strip() == s.strip()`. */
  lemma TrimIdempotent(s: string)
    ensures Trim(Trim(s)) == Trim(s)
  {
    var t := Trim(s);
    if t != [] {
      var _, _ := TrimIsMiddle(s);
      assert TrimStart(t) == t;
      assert TrimEnd(t) == t;
    }
  }

  /** `s.strip()` is empty exactly when `s` is all whitespace. */
  lemma TrimEmptyIffAllSpace(s: string)
    ensures Trim(s) == [] <==> AllSpace(s)
  {
    var i, j := TrimIsMiddle(s);
    if Trim(s) == [] {
      assert s == s[..i] + s[j..];
      forall k | 0 <= k < |s| ensures IsSpace(s[k]) {
        if k < i { assert s[k] == s[..i][k]; } else { assert s[k] == s[j..][k - j]; }
      }
    } else {
      assert s[i] == Trim(s)[0] && !IsSpace(s[i]);
    }
  }

  /** `ch.lower()` for ASCII letters. */
  function LowerChar(ch: char): char {
    if 'A' <= ch <= 'Z' then (ch as int + 32) as char else ch
  }

  /** `s.lower()`, character by character. */
  function Lower(s: string): (r: string)
    ensures |r| == |s|
    ensures forall i | 0 <= i < |s| :: r[i] == LowerChar(s[i])
  {
    if s == [] then [] else [LowerChar(s[0])] + Lower(s[1..])
  }

  /** Lowering a concatenation lowers each part. */
  lemma LowerConcat(a: string, b: string)
    ensures Lower(a + b) == Lower(a) + Lower(b)
  {
    var l, r := Lower(a + b), Lower(a) + Lower(b);
    forall i | 0 <= i < |l| ensures l[i] == r[i] {
      if i < |a| {
        assert (a + b)[i] == a[i] && r[i] == Lower(a)[i];
      } else {
        assert (a + b)[i] == b[i - |a|] && r[i] == Lower(b)[i - |a|];
      }
    }
  }

  /** Python's `q in s` on strings, stated as "q occurs somewhere in s". */
  ghost predicate IsSubstring(q: string, s: string) {
    exists i, j | 0 <= i <= j <= |s| :: s[i..j] == q
  }

  lemma SubstringStep(s: string, q: string)
    requires s != [] && !(q <= s)
    ensures IsSubstring(q, s) <==> IsSubstring(q, s[1..])
  {
    if IsSubstring(q, s) {
      var i, j :| 0 <= i <= j <= |s| && s[i..j] == q;
      assert i == 0 ==> q <= s;
      assert s[1..][i - 1..j - 1] == q;
    }
    if IsSubstring(q, s[1..]) {
      var i, j :| 0 <= i <= j <= |s[1..]| && s[1..][i..j] == q;
      assert s[i + 1..j + 1] == q;
    }
  }

  /** The substring test, computed by trying every start position. */
  function Contains(s: string, q: string): (r: bool)
    ensures r <==> IsSubstring(q, s)
  {
    if q <= s then
      assert s[0..|q|] == q;
      true
    else if s == [] then
      false
    else
      SubstringStep(s, q);
      Contains(s[1..], q)
  }

  /** Every string contains the empty string (an empty query matches everything). */
  lemma ContainsEmpty(s: string)
    ensures Contains(s, "")
  {
    assert s[0..0] == "";
  }

  /** A string contained in part of a concatenation is contained in the whole. */
  lemma ContainsInConcat(a: string, b: string, q: string)
    requires Contains(a, q) || Contains(b, q)
    ensures Contains(a + b, q)
  {
    if Contains(a, q) {
      var i, j :| 0 <= i <= j <= |a| && a[i..j] == q;
      assert (a + b)[i..j] == q;
    } else {
      var i, j :| 0 <= i <= j <= |b| && b[i..j] == q;
      assert (a + b)[|a| + i..|a| + j] == q;
    }
  }

  /** Python's `a <= b` on strings: lexicographic by code point, a prefix comes first. */
  predicate LessEq(a: string, b: string) {
    a == [] || (b != [] && (a[0] < b[0] || (a[0] == b[0] && LessEq(a[1..], b[1..]))))
  }

  /** Python's `a < b` on strings. */
  predicate Less(a: string, b: string) {
    !LessEq(b, a)
  }

  lemma {:induction false} LessEqReflexive(a: string)
    ensures LessEq(a, a)
  {
    if a != [] { LessEqReflexive(a[1..]); }
  }

  lemma {:induction false} LessEqTotal(a: string, b: string)
    ensures LessEq(a, b) || LessEq(b, a)
  {
    if a != [] && b != [] && a[0] == b[0] { LessEqTotal(a[1..], b[1..]); }
  }

  lemma {:induction false} LessEqTransitive(a: string, b: string, c: string)
    requires LessEq(a, b) && LessEq(b, c)
    ensures LessEq(a, c)
  {
    if a != [] && b != [] && c != [] && a[0] == b[0] == c[0] {
      LessEqTransitive(a[1..], b[1..], c[1..]);
    }
  }

  /** Transitivity, stated for all three strings at once. */
  lemma LessEqChain(a: string, b: string, c: string)
    ensures LessEq(a, b) && LessEq(b, c) ==> LessEq(a, c)
  {
    if LessEq(a, b) && LessEq(b, c) {
      LessEqTransitive(a, b, c);
    }
  }

  /**
   * The index of the first value whose stripped form equals the stripped key,
   * the scan `for v in values: if v.strip() == key.strip(): ...`.
   */
  function FindTrimmed(values: seq<string>, key: string): (r: Option<nat>)
    ensures r.Some? ==> r.value < |values| && Trim(values[r.value]) == Trim(key)
    ensures r.Some? ==> forall j | 0 <= j < r.value :: Trim(values[j]) != Trim(key)
    ensures r.None? <==> forall j | 0 <= j < |values| :: Trim(values[j]) != Trim(key)
  {
    FindTrimmedFrom(values, Trim(key), 0)
  }

  function FindTrimmedFrom(values: seq<string>, t: string, from: nat): (r: Option<nat>)
    requires from <= |values|
    requires forall j | 0 <= j < from :: Trim(values[j]) != t
    ensures r.Some? ==> r.value < |values| && Trim(values[r.value]) == t
    ensures r.Some? ==> forall j | 0 <= j < r.value :: Trim(values[j]) != t
    ensures r.None? <==> forall j | 0 <= j < |values| :: Trim(values[j]) != t
    decreases |values| - from
  {
    if from == |values| then None
    else if Trim(values[from]) == t then Some(from)
    else FindTrimmedFrom(values, t, from + 1)
  }
}
