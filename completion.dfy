/** The list helpers behind shell completion of the `generate` command:
    base names of store entries are filtered to e-mail-like or domain-like
    ones, deduplicated and sorted, and narrowed to those starting with what
    the user typed. */
module Completion {
  import opened Strings
  import opened DomainName

  /** `strings.Contains(e, "@") || strings.Contains(e, "_")`. No e-mail-like
      name matches `reDomain`, so the two completion lists never share an
      element. */
  predicate IsEmailLike(s: string)
    ensures IsEmailLike(s) ==> !IsDomain(s)
  {
    DomainShape(s);
    '@' in s || '_' in s
  }

  /** The test each helper applies to an element. */
  datatype Test = StartsWith(prefix: string) | EmailLike | Domain

  predicate Passes(t: Test, s: string) {
    match t
    case StartsWith(prefix) => HasPrefix(s, prefix)
    case EmailLike => IsEmailLike(s)
    case Domain => IsDomain(s)
  }

  /** The elements of `s` that pass `t`, in their original order. */
  function Filter(s: seq<string>, t: Test): (r: seq<string>)
    ensures |r| <= |s|
    ensures forall x :: x in r ==> x in s && Passes(t, x)
  {
    if s == [] then []
    else Filter(s[..|s| - 1], t) + if Passes(t, s[|s| - 1]) then [s[|s| - 1]] else []
  }

  /** `path.Base` of every element, in order. */
  function Bases(list: seq<string>): (r: seq<string>)
    ensures |r| == |list|
    ensures forall i :: 0 <= i < |list| ==> r[i] == Base(list[i])
  {
    if list == [] then [] else Bases(list[..|list| - 1]) + [Base(list[|list| - 1])]
  }

  /** Nothing that passes is dropped: an element is kept exactly when it occurs
      in the input and passes the test. */
  lemma {:induction false} FilterMembers(s: seq<string>, t: Test, x: string)
    ensures x in Filter(s, t) <==> x in s && Passes(t, x)
  {
    if s != [] {
      FilterMembers(s[..|s| - 1], t, x);
      assert s == s[..|s| - 1] + [s[|s| - 1]];
    }
  }

  /** The kept elements keep their order: the result is a subsequence. */
  lemma {:induction false} FilterIsSubsequence(s: seq<string>, t: Test)
    ensures IsSubsequence(Filter(s, t), s)
  {
    if s != [] {
      var init := s[..|s| - 1];
      FilterIsSubsequence(init, t);
      var r := Filter(s, t);
      if Passes(t, s[|s| - 1]) {
        assert r == Filter(init, t) + [s[|s| - 1]];
        assert r[..|r| - 1] == Filter(init, t) && r[|r| - 1] == s[|s| - 1];
      } else {
        assert r == Filter(init, t);
      }
    }
  }

  /** Filtering a strictly sorted sequence leaves it strictly sorted. */
  lemma {:induction false} FilterKeepsStrictlySorted(s: seq<string>, t: Test)
    requires StrictlySorted(s)
    ensures StrictlySorted(Filter(s, t))
  {
    if s != [] {
      var init := s[..|s| - 1];
      FilterKeepsStrictlySorted(init, t);
      var r := Filter(s, t);
      if Passes(t, s[|s| - 1]) {
        forall i | 0 <= i < |r| - 1 ensures Less(r[i], r[|r| - 1]) {
          assert r[i] in Filter(init, t);
          var k :| 0 <= k < |init| && init[k] == r[i];
        }
      }
    }
  }

  /** `filterPrefix`: the elements that start with `prefix`, in order. */
  method FilterPrefix(items: seq<string>, prefix: string) returns (out: seq<string>)
    ensures out == Filter(items, StartsWith(prefix))
  {
    out := [];
    for i := 0 to |items|
      invariant out == Filter(items[..i], StartsWith(prefix))
    {
      assert items[..i + 1][..i] == items[..i];
      if HasPrefix(items[i], prefix) {
        out := out + [items[i]];
      }
    }
    assert items[..|items|] == items;
  }

  /** The loop shared by `extractEmails` and `extractDomains`: the base name
      of each entry, kept when it passes `t`. */
  method ExtractBases(list: seq<string>, t: Test) returns (results: seq<string>)
    ensures results == Filter(Bases(list), t)
  {
    results := [];
    for i := 0 to |list|
      invariant results == Filter(Bases(list[..i]), t)
    {
      assert list[..i + 1][..i] == list[..i];
      var e := Base(list[i]);
      assert Bases(list[..i + 1]) == Bases(list[..i]) + [e];
      assert (Bases(list[..i]) + [e])[..i] == Bases(list[..i]);
      if Passes(t, e) {
        results := results + [e];
      }
    }
    assert list[..|list|] == list;
  }

  /** `extractEmails`: base names holding `@` or `_`, in entry order. */
  method ExtractEmails(list: seq<string>) returns (results: seq<string>)
    ensures results == Filter(Bases(list), EmailLike)
  {
    results := ExtractBases(list, EmailLike);
  }

  /** `extractDomains`: base names matching `reDomain`, in entry order. */
  method ExtractDomains(list: seq<string>) returns (results: seq<string>)
    ensures results == Filter(Bases(list), Domain)
  {
    results := ExtractBases(list, Domain);
  }

  /** Exchanges two neighbouring elements. */
  method SwapWithPrevious(a: array<string>, j: nat)
    requires 0 < j < a.Length
    modifies a
    ensures a[j - 1] == old(a[j]) && a[j] == old(a[j - 1])
    ensures forall k :: 0 <= k < a.Length && k != j - 1 && k != j ==> a[k] == old(a[k])
    ensures multiset(a[..]) == old(multiset(a[..]))
  {
    a[j - 1], a[j] := a[j], a[j - 1];
  }

  /** `sort.Strings`: sorts in place; the result is a permutation of the
      input in which each element is at most the next. */
  method SortStrings(a: array<string>)
    modifies a
    ensures Sorted(a[..])
    ensures multiset(a[..]) == old(multiset(a[..]))
  {
    for i := 0 to a.Length
      invariant forall k :: 0 < k < i ==> LessOrEqual(a[k - 1], a[k])
      invariant multiset(a[..]) == old(multiset(a[..]))
    {
      var j := i;
      while j > 0 && Less(a[j], a[j - 1])
        invariant 0 <= j <= i
        invariant forall k :: 0 < k <= i && k != j ==> LessOrEqual(a[k - 1], a[k])
        invariant 0 < j < i ==> LessOrEqual(a[j - 1], a[j + 1])
        invariant multiset(a[..]) == old(multiset(a[..]))
      {
        SwapWithPrevious(a, j);
        j := j - 1;
      }
      if j > 0 {
        LessTotal(a[j], a[j - 1]);
      }
    }
  }

  /** `uniq`: every distinct input element once, in ascending order. The
      elements are gathered in a set and taken out of it in no particular
      order, as from a Go map, before the sort. */
  method Uniq(items: seq<string>) returns (out: seq<string>)
    ensures StrictlySorted(out)
    ensures forall x :: x in out <==> x in items
  {
    var seen: set<string> := {};
    for i := 0 to |items|
      invariant forall x :: x in seen <==> x in items[..i]
    {
      assert items[..i + 1] == items[..i] + [items[i]];
      seen := seen + {items[i]};
    }
    assert items[..|items|] == items;
    var rest := seen;
    var keys: seq<string> := [];
    while rest != {}
      invariant rest <= seen
      invariant multiset(keys) + multiset(rest) == multiset(seen)
      decreases |rest|
    {
      var k :| k in rest;
      keys := keys + [k];
      rest := rest - {k};
    }
    var a := new string[|keys|](i requires 0 <= i < |keys| => keys[i]);
    assert a[..] == keys;
    SortStrings(a);
    out := a[..];
    assert multiset(out) == multiset(seen);
    forall x ensures multiset(out)[x] <= 1 && (x in out <==> x in items) {
      assert x in out <==> x in multiset(out);
      assert x in seen <==> x in multiset(seen);
    }
    SortedDistinctIsStrict(out);
  }

  /** The candidates `CompleteGenerate` prints: when the typed word holds a `/`,
      the e-mail-like base names starting with the typed word's own base name;
      otherwise the domain-like base names starting with the typed word. */
  method Candidates(list: seq<string>, needle: string) returns (cands: seq<string>)
    ensures StrictlySorted(cands)
    ensures '/' in needle ==> forall x :: x in cands <==>
      x in Bases(list) && IsEmailLike(x) && HasPrefix(x, Base(needle))
    ensures '/' !in needle ==> forall x :: x in cands <==>
      x in Bases(list) && IsDomain(x) && HasPrefix(x, needle)
  {
    var found, prefix;
    if '/' in needle {
      found := ExtractEmails(list);
      prefix := Base(needle);
    } else {
      found := ExtractDomains(list);
      prefix := needle;
    }
    var unique := Uniq(found);
    cands := FilterPrefix(unique, prefix);
    FilterKeepsStrictlySorted(unique, StartsWith(prefix));
    var t := if '/' in needle then EmailLike else Domain;
    assert found == Filter(Bases(list), t);
    forall x ensures x in cands <==> x in Bases(list) && Passes(t, x) && HasPrefix(x, prefix) {
      FilterMembers(unique, StartsWith(prefix), x);
      FilterMembers(Bases(list), t, x);
    }
  }
}
