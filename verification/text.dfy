/** Line-oriented text: the build scripts grow their fragments and generated
    sources by appending `line + "\n"`, so a text is read back as the
    sequence of its line-break-terminated lines. */
module Text {

  /** A string that can stand as one line: it holds no line break. */
  predicate NoNewline(s: string) {
    forall i :: 0 <= i < |s| ==> s[i] != '\n'
  }

  predicate AllNoNewline(ls: seq<string>) {
    forall i :: 0 <= i < |ls| ==> NoNewline(ls[i])
  }

  /** Position of the first `c` in `s`, or `|s|` when there is none. */
  function IndexOf(s: string, c: char): (i: nat)
    ensures i <= |s|
    ensures i < |s| ==> s[i] == c
  {
    if s == [] then 0
    else if s[0] == c then 0
    else 1 + IndexOf(s[1..], c)
  }

  /** Nothing before the position found is `c`. */
  lemma {:induction false} IndexOfBefore(s: string, c: char)
    ensures forall j :: 0 <= j < IndexOf(s, c) ==> s[j] != c
  {
    if s != [] && s[0] != c {
      IndexOfBefore(s[1..], c);
      forall j | 0 < j < IndexOf(s, c) ensures s[j] != c {
        assert s[j] == s[1..][j - 1];
      }
    }
  }

  /** `k` is the first position of `c` (or `|s|` when `c` is absent) exactly
      when nothing before it is `c`. */
  lemma {:induction false} IndexOfAt(s: string, c: char, k: nat)
    requires k <= |s| && (k < |s| ==> s[k] == c)
    requires forall j :: 0 <= j < k ==> s[j] != c
    ensures IndexOf(s, c) == k
  {
    if s != [] && s[0] != c {
      assert 0 < k;
      forall j | 0 <= j < k - 1 ensures s[1..][j] != c {
        assert s[1..][j] == s[j + 1];
      }
      IndexOfAt(s[1..], c, k - 1);
    }
  }

  lemma NoNewlineConcat(a: string, b: string)
    requires NoNewline(a) && NoNewline(b)
    ensures NoNewline(a + b)
  {
    forall i | 0 <= i < |a + b| ensures (a + b)[i] != '\n' {
      if i >= |a| { assert (a + b)[i] == b[i - |a|]; }
    }
  }

  /** Each line followed by a line break, in order. */
  function Unlines(ls: seq<string>): string {
    if ls == [] then "" else ls[0] + "\n" + Unlines(ls[1..])
  }

  /** The lines of a text: pieces ended by a line break, plus a final piece
      when the text does not end with one. */
  function Lines(s: string): seq<string>
    decreases |s|
  {
    if s == [] then []
    else
      var i := IndexOf(s, '\n');
      if i == |s| then [s] else [s[..i]] + Lines(s[i + 1..])
  }

  lemma {:induction false} UnlinesAppend(a: seq<string>, b: seq<string>)
    ensures Unlines(a + b) == Unlines(a) + Unlines(b)
  {
    if a == [] {
      assert a + b == b;
    } else {
      assert (a + b)[1..] == a[1..] + b;
      UnlinesAppend(a[1..], b);
    }
  }

  /** Splitting the joined text at its line breaks gives the lines back. */
  lemma {:induction false} LinesOfUnlines(ls: seq<string>)
    requires AllNoNewline(ls)
    ensures Lines(Unlines(ls)) == ls
  {
    if ls != [] {
      var rest := Unlines(ls[1..]);
      var s := ls[0] + "\n" + rest;
      assert s == Unlines(ls);
      var i := IndexOf(s, '\n');
      assert s[|ls[0]|] == '\n';
      assert forall j :: 0 <= j < |ls[0]| ==> s[j] == ls[0][j];
      assert i == |ls[0]| by {
        assert NoNewline(ls[0]);
        IndexOfAt(s, '\n', |ls[0]|);
      }
      assert s[..i] == ls[0];
      assert s[i + 1..] == rest;
      assert AllNoNewline(ls[1..]) by {
        forall k | 0 <= k < |ls[1..]| ensures NoNewline(ls[1..][k]) {
          assert ls[1..][k] == ls[k + 1];
        }
      }
      LinesOfUnlines(ls[1..]);
    }
  }

  /** The text of `ls` around line `k`: the lines before it, line `k` with
      its line break, and the lines after it. */
  lemma UnlinesSplit(ls: seq<string>, k: nat)
    requires k < |ls|
    ensures Unlines(ls) == Unlines(ls[..k]) + (ls[k] + "\n") + Unlines(ls[k + 1..])
  {
    assert ls == ls[..k] + ls[k..];
    UnlinesAppend(ls[..k], ls[k..]);
    assert ls[k..][0] == ls[k];
    assert ls[k..][1..] == ls[k + 1..];
  }

  /** Every line of `ls`, with its line break, occurs in the text. */
  lemma UnlinesContains(ls: seq<string>, k: nat)
    requires k < |ls|
    ensures Contains(Unlines(ls), ls[k] + "\n")
  {
    var before, line, after := Unlines(ls[..k]), ls[k] + "\n", Unlines(ls[k + 1..]);
    UnlinesSplit(ls, k);
    assert (before + line + after)[|before|..|before| + |line|] == line;
    assert OccursAt(Unlines(ls), line, |before|);
  }

  /** The text of `a + b` ends with the text of `b`. */
  lemma UnlinesEndsWith(a: seq<string>, b: seq<string>)
    ensures EndsWith(Unlines(a + b), Unlines(b))
  {
    UnlinesAppend(a, b);
    assert (Unlines(a) + Unlines(b))[|Unlines(a)|..] == Unlines(b);
  }

  /** The text of lines ending in `x`, `y`, `z` ends with those three
      lines. */
  lemma UnlinesEndsWithThree(init: seq<string>, x: string, y: string, z: string)
    ensures EndsWith(Unlines(init + [x, y, z]), x + "\n" + y + "\n" + z + "\n")
  {
    var tail := [x, y, z];
    UnlinesEndsWith(init, tail);
    assert tail[1..] == [y, z] && tail[1..][1..] == [z] && [z][1..] == [];
    assert Unlines([z]) == z + "\n" + "";
    assert Unlines([y, z]) == y + "\n" + (z + "\n");
    assert Unlines(tail) == x + "\n" + (y + "\n" + (z + "\n"));
  }

  predicate StartsWith(s: string, prefix: string) {
    |prefix| <= |s| && s[..|prefix|] == prefix
  }

  predicate EndsWith(s: string, suffix: string) {
    |suffix| <= |s| && s[|s| - |suffix|..] == suffix
  }

  /** `part` occurs in `s` starting at position `i`. */
  predicate OccursAt(s: string, part: string, i: int) {
    0 <= i <= |s| - |part| && s[i..i + |part|] == part
  }

  /** `part` occurs in `s` as a contiguous piece. */
  predicate Contains(s: string, part: string) {
    exists i :: 0 <= i <= |s| - |part| && OccursAt(s, part, i)
  }
}
