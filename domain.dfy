/** `reDomain` of the `generate` completion, `^(?i)([a-z0-9]+(-[a-z0-9]+)*\.)+[a-z]{2,}$`,
    written as a predicate over characters: one or more labels, each followed
    by a dot, then a final label of at least two letters. */
module DomainName {
  import opened Strings

  /** A character matched by `(?i)[a-z]` in Go: an ASCII letter of either case,
      or one of the two code points that Unicode simple case folding joins to
      them (U+017F, long s, folds with `s`; U+212A, the Kelvin sign, with `k`). */
  predicate IsLetter(c: char)
    ensures IsLetter(c) ==> !('0' <= c <= '9') && c != '-' && c != '.'
  {
    'a' <= c <= 'z' || 'A' <= c <= 'Z' || c == 'ſ' || c == 'K'
  }

  /** `(?i)[a-z0-9]`. */
  predicate IsAlnum(c: char)
    ensures IsAlnum(c) ==> c != '-' && c != '.'
  {
    IsLetter(c) || '0' <= c <= '9'
  }

  /** `[a-z0-9]+`. */
  predicate IsAlnumRun(s: string)
    ensures IsAlnumRun(s) ==> s != [] && '-' !in s && '.' !in s
  {
    |s| > 0 && forall i :: 0 <= i < |s| ==> IsAlnum(s[i])
  }

  /** `[a-z0-9]+(-[a-z0-9]+)*`: letters and digits, where a hyphen may only
      stand between two letters or digits. A label therefore begins and ends
      with a letter or digit, and never holds a dot. */
  predicate IsLabel(s: string)
    ensures IsLabel(s) ==> |s| > 0 && IsAlnum(s[0]) && IsAlnum(s[|s| - 1]) && '.' !in s
  {
    |s| > 0 &&
    forall i {:trigger s[i]} :: 0 <= i < |s| ==>
      IsAlnum(s[i]) || (s[i] == '-' && 0 < i < |s| - 1 && IsAlnum(s[i - 1]) && IsAlnum(s[i + 1]))
  }

  /** `[a-z]{2,}`: the final label. It has the form of a label too. */
  predicate IsTopLevel(s: string)
    ensures IsTopLevel(s) ==> IsLabel(s)
  {
    |s| >= 2 && forall i :: 0 <= i < |s| ==> IsLetter(s[i])
  }

  /** The whole expression. Labels hold no dot, so the first label ends at the
      first dot; what follows it is either the final label or, again, a
      domain. Every match starts with a letter or digit and is at least four
      characters long (as "a.bc"). */
  predicate IsDomain(s: string)
    ensures IsDomain(s) ==> |s| >= 4 && IsAlnum(s[0])
    decreases |s|
  {
    var i := IndexOf(s, '.');
    i < |s| && IsLabel(s[..i]) && (IsTopLevel(s[i + 1..]) || IsDomain(s[i + 1..]))
  }

  /** The `+` of `[a-z0-9]+(-[a-z0-9]+)*`, building up: a run is a label, and
      a label, a hyphen and a run is a label. */
  lemma RunIsLabel(y: string)
    requires IsAlnumRun(y)
    ensures IsLabel(y)
  {
  }

  lemma LabelJoin(x: string, y: string)
    requires IsLabel(x) && IsAlnumRun(y)
    ensures IsLabel(x + "-" + y)
  {
    var s := x + "-" + y;
    forall i | 0 <= i < |s|
      ensures IsAlnum(s[i]) || (s[i] == '-' && 0 < i < |s| - 1 && IsAlnum(s[i - 1]) && IsAlnum(s[i + 1]))
    {
      if i < |x| {
        assert s[i] == x[i];
        if !IsAlnum(x[i]) {
          assert s[i + 1] == x[i + 1];
        }
      } else if i == |x| {
        assert !IsAlnum(x[|x| - 1]) ==> |x| - 1 < |x| - 1;
        assert s[i + 1] == y[0];
      } else {
        assert s[i] == y[i - |x| - 1];
      }
    }
  }

  /** And taking apart: a label with a hyphen is a label, a hyphen and a run,
      split at its last hyphen. */
  lemma LabelSplit(s: string) returns (x: string, y: string)
    requires IsLabel(s) && '-' in s
    ensures s == x + "-" + y && IsLabel(x) && IsAlnumRun(y)
  {
    var j := LastIndexOf(s, '-');
    x, y := s[..j], s[j + 1..];
    assert s == x + "-" + y;
    assert 0 < j < |s| - 1 && IsAlnum(s[j - 1]);
    forall i | 0 <= i < |y| ensures IsAlnum(y[i]) {
      assert y[i] == s[j + 1 + i];
    }
    forall i | 0 <= i < |x|
      ensures IsAlnum(x[i]) || (x[i] == '-' && 0 < i < |x| - 1 && IsAlnum(x[i - 1]) && IsAlnum(x[i + 1]))
    {
      assert x[i] == s[i];
      if !IsAlnum(s[i]) {
        assert i != j - 1;
        assert x[i + 1] == s[i + 1];
      }
    }
  }

  /** The `(...\.)+` of the expression, building up and taking apart: after a
      label and a dot, the rest must be the final label or again a domain. */
  lemma DomainCons(l: string, t: string)
    requires IsLabel(l)
    ensures IsDomain(l + "." + t) <==> IsTopLevel(t) || IsDomain(t)
  {
    var s := l + "." + t;
    forall k | 0 <= k < |l| ensures s[k] != '.' {
      assert s[k] == l[k];
    }
    assert s[|l|] == '.';
    assert IndexOf(s, '.') == |l|;
    assert s[..|l|] == l && s[|l| + 1..] == t;
  }

  lemma DomainSplit(s: string) returns (l: string, t: string)
    requires IsDomain(s)
    ensures s == l + "." + t && IsLabel(l) && (IsTopLevel(t) || IsDomain(t))
  {
    var i := IndexOf(s, '.');
    l, t := s[..i], s[i + 1..];
    assert s == l + "." + t;
  }

  /** What every matching name looks like: it holds a dot, ends with a letter,
      and has no `/`, `@` or `_` in it (so it is its own base name and never
      looks like an e-mail entry). */
  lemma {:induction false} DomainShape(s: string)
    ensures IsDomain(s) ==> '.' in s && IsLetter(s[|s| - 1])
    ensures IsDomain(s) ==> '/' !in s && '@' !in s && '_' !in s
    decreases |s|
  {
    if IsDomain(s) {
      var l, t := DomainSplit(s);
      assert forall k :: 0 <= k < |l| ==> IsAlnum(l[k]) || l[k] == '-';
      DomainShape(t);
      assert forall k :: 0 <= k < |t| ==> t[k] != '/' && t[k] != '@' && t[k] != '_';
      assert s[|s| - 1] == t[|t| - 1];
      forall k | 0 <= k < |s| ensures s[k] != '/' && s[k] != '@' && s[k] != '_' {
        if k < |l| {
          assert s[k] == l[k];
        } else if k > |l| {
          assert s[k] == t[k - |l| - 1];
        }
      }
    }
  }


  /** A label made of letters and digits and a final label of letters, with
      a dot between them, match. */
  lemma TwoLabels(l: string, t: string)
    requires IsAlnumRun(l) && IsTopLevel(t)
    ensures IsDomain(l + "." + t)
  {
    RunIsLabel(l);
    DomainCons(l, t);
  }

  /** Host names of the test data match: one with a single label before the
      final one... */
  lemma GithubIsDomain()
    ensures IsDomain("github.com")
  {
    var github, com := "github", "com";
    assert IsAlnumRun(github) && IsTopLevel(com);
    TwoLabels(github, com);
    assert github + "." + com == "github.com";
  }

  /** ...and one with two. */
  lemma NestedHostIsDomain()
    ensures IsDomain("some.other.host")
  {
    var some, other, host := "some", "other", "host";
    assert IsAlnumRun(other) && IsTopLevel(host);
    TwoLabels(other, host);
    assert IsAlnumRun(some);
    RunIsLabel(some);
    DomainCons(some, other + "." + host);
    assert some + "." + (other + "." + host) == "some.other.host";
  }

  /** A name without a dot, a single label, does not match. */
  lemma SingleLabelIsNotDomain(s: string)
    requires '.' !in s
    ensures !IsDomain(s)
  {
    assert IndexOf(s, '.') == |s|;
  }

  /** A label may not end with a hyphen: a first label ending in one makes the
      whole name fail, whatever follows its dot. */
  lemma TrailingHyphenIsNotDomain(l: string, t: string)
    requires |l| > 0 && l[|l| - 1] == '-' && '.' !in l
    ensures !IsDomain(l + "." + t)
  {
    var s := l + "." + t;
    forall k | 0 <= k < |l| ensures s[k] != '.' {
      assert s[k] == l[k];
    }
    assert s[|l|] == '.';
    assert IndexOf(s, '.') == |l|;
    assert s[..|l|] == l;
  }

  /** The final label needs two letters or more... */
  lemma OneLetterTopLevelIsNotDomain()
    ensures !IsDomain("a.b")
  {
    var a, b := "a", "b";
    assert !IsTopLevel(b) && '.' !in b;
    RunIsLabel(a);
    DomainCons(a, b);
    assert a + "." + b == "a.b";
  }

  /** ...and letters only. */
  lemma NumericTopLevelIsNotDomain()
    ensures !IsDomain("example.c0m")
  {
    var example, c0m := "example", "c0m";
    assert !IsTopLevel(c0m) by { assert c0m[1] == '0'; }
    assert '.' !in c0m;
    assert IsAlnumRun(example);
    RunIsLabel(example);
    DomainCons(example, c0m);
    assert example + "." + c0m == "example.c0m";
  }
}
