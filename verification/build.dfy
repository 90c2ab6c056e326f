/** Vocabulary shared by the two build scripts. */
module Build {

  /** Which build script: `gulpfile.js` at the repository root, run from
      there, or the older `build/gulpfile.js`, run from `build/`. */
  datatype Script = Root | Legacy

  datatype Option<T> = None | Some(value: T)

  /** No value occurs twice: the keys of a JavaScript object. */
  predicate Distinct<T(==)>(s: seq<T>) {
    forall i, j :: 0 <= i < j < |s| ==> s[i] != s[j]
  }

  lemma DistinctPrefix<T>(s: seq<T>, n: nat)
    requires Distinct(s) && n <= |s|
    ensures Distinct(s[..n])
  {
    var p := s[..n];
    forall i, j | 0 <= i < j < |p| ensures p[i] != p[j] {
      assert p[i] == s[i] && p[j] == s[j];
    }
  }

  /** Splicing distinct values none of which occurs in `a + b` between
      `a` and `b` keeps the whole free of repeats. */
  lemma DistinctSplice<T>(a: seq<T>, m: seq<T>, b: seq<T>)
    requires Distinct(a + b) && Distinct(m)
    requires forall k :: 0 <= k < |m| ==> m[k] !in a + b
    ensures Distinct(a + m + b)
  {
    var s := a + m + b;
    var ab := a + b;
    forall i, j | 0 <= i < j < |s| ensures s[i] != s[j] {
      var ii := if i < |a| then i else i - |m|;
      var jj := if j < |a| then j else j - |m|;
      if |a| <= i < |a| + |m| {
        assert s[i] == m[i - |a|];
        if |a| <= j < |a| + |m| {
          assert s[j] == m[j - |a|];
        } else {
          assert s[j] == ab[jj];
        }
      } else if |a| <= j < |a| + |m| {
        assert s[j] == m[j - |a|];
        assert s[i] == ab[ii];
      } else {
        assert s[i] == ab[ii] && s[j] == ab[jj];
      }
    }
  }

  /** The elements of `s` not in `excluded`, in their order: the model of
      `s.filter(x => !excluded.includes(x))`. */
  function Without<T(==)>(s: seq<T>, excluded: seq<T>): seq<T> {
    if s == [] then []
    else
      var rest := Without(s[1..], excluded);
      if s[0] in excluded then rest else [s[0]] + rest
  }

  lemma {:induction false} WithoutShorter<T>(s: seq<T>, excluded: seq<T>)
    ensures |Without(s, excluded)| <= |s|
  {
    if s != [] {
      WithoutShorter(s[1..], excluded);
    }
  }

  /** Filtering keeps every other element exactly as often as it occurs,
      and drops the excluded ones entirely. */
  lemma {:induction false} WithoutContents<T>(s: seq<T>, excluded: seq<T>)
    ensures forall x :: x in Without(s, excluded) <==> x in s && x !in excluded
    ensures forall x :: multiset(Without(s, excluded))[x] == if x in excluded then 0 else multiset(s)[x]
  {
    if s != [] {
      assert s == [s[0]] + s[1..];
      WithoutContents(s[1..], excluded);
    }
  }

  /** Filtering a concatenation filters each part: the relative order of
      the kept elements does not change. */
  lemma {:induction false} WithoutAppend<T>(a: seq<T>, b: seq<T>, excluded: seq<T>)
    ensures Without(a + b, excluded) == Without(a, excluded) + Without(b, excluded)
  {
    if a == [] {
      assert a + b == b;
    } else {
      assert (a + b)[0] == a[0];
      assert (a + b)[1..] == a[1..] + b;
      WithoutAppend(a[1..], b, excluded);
    }
  }

  /** Where each part of a concatenation lands. */
  lemma AppendParts<T>(a: seq<T>, b: seq<T>)
    ensures (a + b)[..|a|] == a && (a + b)[|a|..] == b
  {
  }

  /** `x` occurs once in `s`, at index `i`. */
  lemma CountOne<T>(s: seq<T>, x: T, i: nat)
    requires i < |s| && s[i] == x
    requires forall k :: 0 <= k < |s| && k != i ==> s[k] != x
    ensures multiset(s)[x] == 1
  {
    assert s == s[..i] + [x] + s[i + 1..];
    assert x !in s[..i];
    var tail := s[i + 1..];
    assert x !in tail by {
      forall k | 0 <= k < |tail| ensures tail[k] != x {
        assert tail[k] == s[k + i + 1];
      }
    }
  }

  /** `x` occurs twice in `s`, at indices `i` and `i + 1`. */
  lemma CountTwo<T>(s: seq<T>, x: T, i: nat)
    requires i + 1 < |s| && s[i] == x && s[i + 1] == x
    requires forall k :: 0 <= k < |s| && k != i && k != i + 1 ==> s[k] != x
    ensures multiset(s)[x] == 2
  {
    assert s == s[..i] + [x, x] + s[i + 2..];
    assert x !in s[..i];
    var tail := s[i + 2..];
    assert x !in tail by {
      forall k | 0 <= k < |tail| ensures tail[k] != x {
        assert tail[k] == s[k + i + 2];
      }
    }
  }
}
