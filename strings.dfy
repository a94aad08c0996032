/** The parts of Go's `strings`, `path` and `sort` packages that the modelled
    code relies on, over strings as sequences of code points. */
module Strings {

  /** `strings.HasPrefix(s, prefix)`: `s` is `prefix` followed by the rest. */
  predicate HasPrefix(s: string, prefix: string)
    ensures HasPrefix(s, prefix) <==> |prefix| <= |s| && s == prefix + s[|prefix|..]
  {
    |prefix| <= |s| && s[..|prefix|] == prefix
  }

  /** Position of the first `c` in `s`, or `|s|` when `s` has none. */
  function IndexOf(s: string, c: char): (i: nat)
    ensures i <= |s|
    ensures i < |s| ==> s[i] == c
    ensures forall k :: 0 <= k < i ==> s[k] != c
  {
    if s == [] then 0
    else if s[0] == c then 0
    else 1 + IndexOf(s[1..], c)
  }

  /** `strings.LastIndex(s, string(c))`: the last position of `c`, or -1. */
  function LastIndexOf(s: string, c: char): (i: int)
    ensures -1 <= i < |s|
    ensures i >= 0 ==> s[i] == c
    ensures forall k :: i < k < |s| ==> s[k] != c
  {
    if s == [] then -1
    else if s[|s| - 1] == c then |s| - 1
    else LastIndexOf(s[..|s| - 1], c)
  }

  /** `s` with every trailing `/` removed. */
  function TrimTrailingSlashes(s: string): (t: string)
    ensures HasPrefix(s, t)
    ensures t == [] || t[|t| - 1] != '/'
    ensures forall k :: |t| <= k < |s| ==> s[k] == '/'
  {
    if s != [] && s[|s| - 1] == '/' then TrimTrailingSlashes(s[..|s| - 1]) else s
  }

  /** `path.Base`: "." for the empty path; otherwise trailing slashes are
      dropped and the element after the last `/` is kept; "/" when nothing is
      left. */
  function Base(p: string): (b: string)
    ensures b != []
    ensures '/' in b ==> b == "/"
    ensures p == [] ==> b == "."
    ensures p != [] && (forall k :: 0 <= k < |p| ==> p[k] == '/') ==> b == "/"
    ensures p != [] && b != "/" ==>
      var q := TrimTrailingSlashes(p);
      |b| <= |q| && q[|q| - |b|..] == b && (|b| == |q| || q[|q| - |b| - 1] == '/')
  {
    if p == [] then "."
    else
      var q := TrimTrailingSlashes(p);
      var tail := q[LastIndexOf(q, '/') + 1..];
      if tail == [] then "/" else tail
  }

  /** The base of a path is its last element: both for a bare element and for
      an element under any directory. */
  lemma BaseOfElement(dir: string, name: string)
    requires name != [] && '/' !in name
    ensures Base(name) == name
    ensures Base(dir + "/" + name) == name
  {
    var p := dir + "/" + name;
    assert p[|p| - 1] == name[|name| - 1];
    assert TrimTrailingSlashes(p) == p;
    var i := LastIndexOf(p, '/');
    assert p[|dir|] == '/';
    assert p[i + 1..] == name;
    assert TrimTrailingSlashes(name) == name;
    assert LastIndexOf(name, '/') == -1;
  }

  /** When something other than slashes remains after the trailing slashes
      are dropped, the base is the last element of what remains: it holds no
      `/`, and it is the whole of it or follows its last `/`. */
  lemma BaseIsLastElement(p: string)
    requires TrimTrailingSlashes(p) != []
    ensures var b := Base(p); var q := TrimTrailingSlashes(p);
      b != "/" && '/' !in b &&
      |b| <= |q| && q[|q| - |b|..] == b && (|b| == |q| || q[|q| - |b| - 1] == '/')
  {
  }

  /** Go's `<` on strings: byte-wise lexicographic order. UTF-8 preserves the
      order of code points, so comparing code points gives the same order. */
  predicate Less(a: string, b: string)
    ensures Less(a, b) ==> a != b
    ensures a != b && HasPrefix(b, a) ==> Less(a, b)
  {
    if a == [] then b != []
    else if b == [] then false
    else a[0] < b[0] || (a[0] == b[0] && Less(a[1..], b[1..]))
  }

  /** Two strings that agree up to position `k` and differ there are ordered
      by their characters at `k`, as in Go's definition of string order. */
  lemma {:induction false} LessAtFirstDifference(a: string, b: string, k: nat)
    requires k < |a| && k < |b| && a[..k] == b[..k] && a[k] != b[k]
    ensures Less(a, b) <==> a[k] < b[k]
  {
    if k > 0 {
      assert a[0] == a[..k][0] == b[..k][0] == b[0];
      assert a[1..][..k - 1] == a[..k][1..] == b[..k][1..] == b[1..][..k - 1];
      LessAtFirstDifference(a[1..], b[1..], k - 1);
    }
  }

  predicate LessOrEqual(a: string, b: string) {
    a == b || Less(a, b)
  }

  lemma {:induction false} LessAsymmetric(a: string, b: string)
    requires Less(a, b)
    ensures !Less(b, a) && a != b
  {
    if a != [] && b != [] && a[0] == b[0] {
      LessAsymmetric(a[1..], b[1..]);
      assert a == [a[0]] + a[1..] && b == [b[0]] + b[1..];
    }
  }

  lemma {:induction false} LessTransitive(a: string, b: string, c: string)
    requires Less(a, b) && Less(b, c)
    ensures Less(a, c)
  {
    if a != [] && a[0] == b[0] && b[0] == c[0] {
      LessTransitive(a[1..], b[1..], c[1..]);
    }
  }

  lemma {:induction false} LessTotal(a: string, b: string)
    ensures Less(a, b) || a == b || Less(b, a)
  {
    if a != [] && b != [] && a[0] == b[0] {
      LessTotal(a[1..], b[1..]);
      assert a == [a[0]] + a[1..] && b == [b[0]] + b[1..];
    }
  }

  /** Every element is below every later one: ascending and duplicate-free. */
  predicate StrictlySorted(s: seq<string>) {
    forall i, j :: 0 <= i < j < |s| ==> Less(s[i], s[j])
  }

  /** What `sort.Strings` establishes: each element is at most the next. */
  predicate Sorted(s: seq<string>) {
    forall k :: 0 < k < |s| ==> LessOrEqual(s[k - 1], s[k])
  }

  lemma {:induction false} ChainLess(s: seq<string>, i: nat, j: nat)
    requires forall k :: 0 < k < |s| ==> Less(s[k - 1], s[k])
    requires i < j < |s|
    ensures Less(s[i], s[j])
    decreases j - i
  {
    if i + 1 < j {
      ChainLess(s, i, j - 1);
      LessTransitive(s[i], s[j - 1], s[j]);
    }
  }

  /** In a sequence where nothing occurs twice, different positions hold
      different elements. */
  lemma DistinctAt(s: seq<string>, i: nat, j: nat)
    requires i < j < |s|
    requires forall x :: multiset(s)[x] <= 1
    ensures s[i] != s[j]
  {
    assert s == s[..j] + s[j..];
    assert s[i] in s[..j];
    assert s[j] in s[j..];
    assert multiset(s)[s[j]] == multiset(s[..j])[s[j]] + multiset(s[j..])[s[j]];
  }

  /** A sorted sequence in which nothing occurs twice is strictly sorted. */
  lemma SortedDistinctIsStrict(s: seq<string>)
    requires Sorted(s)
    requires forall x :: multiset(s)[x] <= 1
    ensures StrictlySorted(s)
  {
    forall k | 0 < k < |s| ensures Less(s[k - 1], s[k]) {
      DistinctAt(s, k - 1, k);
    }
    forall i, j | 0 <= i < j < |s| ensures Less(s[i], s[j]) {
      ChainLess(s, i, j);
    }
  }

  /** Two strictly sorted sequences with the same elements are equal: a
      strictly sorted listing of a set is unique. */
  lemma {:induction false} StrictlySortedUnique(a: seq<string>, b: seq<string>)
    requires StrictlySorted(a) && StrictlySorted(b)
    requires forall x :: x in a <==> x in b
    ensures a == b
  {
    assert a != [] ==> a[0] in b;
    assert b != [] ==> b[0] in a;
    if a != [] && b != [] {
      if a[0] != b[0] {
        assert a[0] in b;
        var m :| 0 <= m < |b| && b[m] == a[0];
        assert b[0] in a;
        var n :| 0 <= n < |a| && a[n] == b[0];
        assert Less(b[0], a[0]) && Less(a[0], b[0]);
        LessAsymmetric(b[0], a[0]);
      }
      forall x ensures x in a[1..] <==> x in b[1..] {
        if x in a[1..] {
          var n :| 1 <= n < |a| && a[n] == x;
          assert Less(a[0], x);
          LessAsymmetric(a[0], x);
          assert x in b && x != b[0];
          var m :| 0 <= m < |b| && b[m] == x;
          assert b[1..][m - 1] == x;
        }
        if x in b[1..] {
          var m :| 1 <= m < |b| && b[m] == x;
          assert Less(b[0], x);
          LessAsymmetric(b[0], x);
          assert x in a && x != a[0];
          var n :| 0 <= n < |a| && a[n] == x;
          assert a[1..][n - 1] == x;
        }
      }
      StrictlySortedUnique(a[1..], b[1..]);
      assert a == [a[0]] + a[1..] && b == [b[0]] + b[1..];
    }
  }

  /** `a` is an order-preserving subsequence of `b`: `b` with some of its
      elements left out. */
  predicate IsSubsequence(a: seq<string>, b: seq<string>) {
    if b == [] then a == []
    else
      IsSubsequence(a, b[..|b| - 1]) ||
      (a != [] && a[|a| - 1] == b[|b| - 1] && IsSubsequence(a[..|a| - 1], b[..|b| - 1]))
  }
}
