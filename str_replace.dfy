/** Python's `str.replace(ch, "")` for a one-character pattern, and the
    order-preserving filter that specifies it. Both are defined by peeling
    off the last character, so that the kept characters come out in the
    order they had. */
module StrReplace {

  /** No character occurs twice in `s`. */
  predicate NoDups(s: string) {
    forall i, j | 0 <= i < j < |s| :: s[i] != s[j]
  }

  /** Reference definition: the characters of `s` that are not in `bad`,
      in their original order. */
  function Without(s: string, bad: string): (r: string)
    ensures |r| <= |s|
  {
    if s == [] then []
    else
      var last := s[|s| - 1];
      Without(s[..|s| - 1], bad) + (if last in bad then [] else [last])
  }

  /** `s.replace(ch, "")`: every occurrence of `ch` deleted. */
  function Replace(s: string, ch: char): (r: string)
    ensures ch !in r
  {
    if s == [] then []
    else
      var last := s[|s| - 1];
      Replace(s[..|s| - 1], ch) + (if last == ch then [] else [last])
  }

  /** `replace(ch, "")` removes every copy of `ch` and keeps every copy of
      every other character. */
  lemma {:induction false} ReplaceCounts(s: string, ch: char)
    ensures multiset(Replace(s, ch)) == multiset(s)[ch := 0]
  {
    if s != [] {
      assert s == s[..|s| - 1] + [s[|s| - 1]];
      ReplaceCounts(s[..|s| - 1], ch);
    }
  }

  /** A character survives the filter exactly when it occurs in `s` and is
      not bad. */
  lemma {:induction false} WithoutMember(s: string, bad: string, c: char)
    ensures c in Without(s, bad) <==> c in s && c !in bad
  {
    if s != [] {
      assert s == s[..|s| - 1] + [s[|s| - 1]];
      WithoutMember(s[..|s| - 1], bad, c);
    }
  }

  /** Filtering distributes over concatenation: the kept characters stay in
      their original relative order. */
  lemma {:induction false} WithoutConcat(a: string, b: string, bad: string)
    ensures Without(a + b, bad) == Without(a, bad) + Without(b, bad)
  {
    if b == [] {
      assert a + b == a;
    } else {
      var ab := a + b;
      assert ab[..|ab| - 1] == a + b[..|b| - 1];
      assert ab[|ab| - 1] == b[|b| - 1];
      WithoutConcat(a, b[..|b| - 1], bad);
    }
  }

  /** A string none of whose characters is bad is left untouched. */
  lemma {:induction false} WithoutNoneBad(s: string, bad: string)
    requires forall i | 0 <= i < |s| :: s[i] !in bad
    ensures Without(s, bad) == s
  {
    if s != [] {
      WithoutNoneBad(s[..|s| - 1], bad);
      assert s == s[..|s| - 1] + [s[|s| - 1]];
    }
  }

  /** Filtering by the empty string keeps everything. */
  lemma {:induction false} WithoutNothing(s: string)
    ensures Without(s, []) == s
  {
    if s != [] {
      WithoutNothing(s[..|s| - 1]);
      assert s == s[..|s| - 1] + [s[|s| - 1]];
    }
  }

  /** Dropping one bad character between a clean prefix and any suffix
      leaves the prefix followed by the filtered suffix. */
  lemma WithoutDropOne(a: string, c: char, b: string, bad: string)
    requires forall i | 0 <= i < |a| :: a[i] !in bad
    requires c in bad
    ensures Without(a + [c] + b, bad) == a + Without(b, bad)
  {
    WithoutConcat(a + [c], b, bad);
    assert (a + [c])[..|a|] == a;
    WithoutNoneBad(a, bad);
  }

  /** Filtering by `a` and then by `b` is filtering by both at once. */
  lemma {:induction false} WithoutTwice(s: string, a: string, b: string)
    ensures Without(Without(s, a), b) == Without(s, a + b)
  {
    if s != [] {
      var init, last := s[..|s| - 1], s[|s| - 1];
      WithoutTwice(init, a, b);
      WithoutConcat(Without(init, a), if last in a then [] else [last], b);
      if last !in a {
        assert [last][..0] == [];
      }
    }
  }

  /** Filtering never introduces a repeated character. */
  lemma {:induction false} WithoutNoDups(s: string, bad: string)
    requires NoDups(s)
    ensures NoDups(Without(s, bad))
  {
    if s != [] {
      var init, last := s[..|s| - 1], s[|s| - 1];
      assert NoDups(init) by {
        forall i, j | 0 <= i < j < |init| ensures init[i] != init[j] {
          assert init[i] == s[i] && init[j] == s[j];
        }
      }
      WithoutNoDups(init, bad);
      var rest := Without(init, bad);
      if last !in bad {
        assert last !in init by {
          forall k | 0 <= k < |init| ensures init[k] != last {
            assert init[k] == s[k];
          }
        }
        WithoutMember(init, bad, last);
        NoDupsConcat(rest, [last]);
      }
    }
  }

  /** Two duplicate-free strings with no character in common concatenate to
      a duplicate-free string. */
  lemma NoDupsConcat(a: string, b: string)
    requires NoDups(a) && NoDups(b)
    requires forall i | 0 <= i < |a| :: a[i] !in b
    ensures NoDups(a + b)
  {
    var s := a + b;
    forall i, j | 0 <= i < j < |s| ensures s[i] != s[j] {
      if j < |a| {
        assert s[i] == a[i] && s[j] == a[j];
      } else if i < |a| {
        assert s[i] == a[i] && s[j] == b[j - |a|];
      } else {
        assert s[i] == b[i - |a|] && s[j] == b[j - |a|];
      }
    }
  }

  /** `replace(ch, "")` keeps exactly the characters other than `ch`, in
      order: it is the filter by the one-character string `[ch]`. */
  lemma {:induction false} ReplaceIsWithout(s: string, ch: char)
    ensures Replace(s, ch) == Without(s, [ch])
  {
    if s != [] {
      ReplaceIsWithout(s[..|s| - 1], ch);
    }
  }

  /** One more `replace(ch, "")` pass after filtering by the first `k`
      characters of `bad`, with `ch` the next one, is filtering by the first
      `k + 1`. */
  lemma ReplaceNext(s: string, bad: string, k: nat)
    requires k < |bad|
    ensures Replace(Without(s, bad[..k]), bad[k]) == Without(s, bad[..k + 1])
  {
    ReplaceIsWithout(Without(s, bad[..k]), bad[k]);
    WithoutTwice(s, bad[..k], [bad[k]]);
    assert bad[..k] + [bad[k]] == bad[..k + 1];
  }

  /** A string that does not contain `ch` is returned unchanged. */
  lemma {:induction false} ReplaceAbsent(s: string, ch: char)
    requires ch !in s
    ensures Replace(s, ch) == s
  {
    if s != [] {
      assert s == s[..|s| - 1] + [s[|s| - 1]];
      ReplaceAbsent(s[..|s| - 1], ch);
    }
  }

  /** Applying `replace(ch, "")` twice is the same as applying it once. */
  lemma ReplaceIdempotent(s: string, ch: char)
    ensures Replace(Replace(s, ch), ch) == Replace(s, ch)
  {
    ReplaceAbsent(Replace(s, ch), ch);
  }
}
