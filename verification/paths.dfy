/** The part of Node's POSIX `path` module the build scripts rely on:
    `path.normalize` for the shim target and `path.extname` for the
    `.min.js` renaming done by gulp-rename. */
module Paths {
  import opened Text

  predicate NoSlash(s: string) {
    forall i :: 0 <= i < |s| ==> s[i] != '/'
  }

  /** Segments none of which holds a separator. */
  predicate SlashFree(segs: seq<string>) {
    forall k :: 0 <= k < |segs| ==> NoSlash(segs[k])
  }

  /** A directory or file name that normalization keeps as it is. */
  predicate Plain(seg: string) {
    seg != "" && seg != "." && seg != ".." && NoSlash(seg)
  }

  predicate AllPlain(segs: seq<string>) {
    forall i :: 0 <= i < |segs| ==> Plain(segs[i])
  }

  /** `s.split('/')`: never empty, and no piece holds a separator. */
  function Split(s: string): (r: seq<string>)
    ensures |r| >= 1
    decreases |s|
  {
    var i := IndexOf(s, '/');
    if i == |s| then [s] else [s[..i]] + Split(s[i + 1..])
  }

  lemma {:induction false} SplitSlashFree(s: string)
    ensures SlashFree(Split(s))
    decreases |s|
  {
    var i := IndexOf(s, '/');
    IndexOfBefore(s, '/');
    if i < |s| {
      SplitSlashFree(s[i + 1..]);
      var r := Split(s);
      assert r == [s[..i]] + Split(s[i + 1..]);
      forall k | 0 <= k < |r| ensures NoSlash(r[k]) {
        if k > 0 {
          assert r[k] == Split(s[i + 1..])[k - 1];
        } else {
          forall j | 0 <= j < |s[..i]| ensures s[..i][j] != '/' {
            assert s[..i][j] == s[j];
          }
        }
      }
    }
  }

  /** `segs.join('/')`. */
  function Join(segs: seq<string>): string {
    if segs == [] then ""
    else if |segs| == 1 then segs[0]
    else segs[0] + "/" + Join(segs[1..])
  }

  /** The absolute path whose segments below the root are `segs`. */
  function AbsPath(segs: seq<string>): string {
    "/" + Join(segs)
  }

  lemma {:induction false} JoinSplit(s: string)
    ensures Join(Split(s)) == s
    decreases |s|
  {
    var i := IndexOf(s, '/');
    if i < |s| {
      var rest := s[i + 1..];
      calc {
        Join(Split(s));
        { SplitAt(s, i); }
        Join([s[..i]] + Split(rest));
        { JoinCons(s[..i], Split(rest)); }
        s[..i] + "/" + Join(Split(rest));
        { JoinSplit(rest); }
        s[..i] + "/" + rest;
        { assert s[i] == '/'; }
        s;
      }
    } else {
      assert Split(s) == [s];
    }
  }

  /** Splitting peels off the piece before the first separator. */
  lemma SplitAt(s: string, i: nat)
    requires i == IndexOf(s, '/') && i < |s|
    ensures Split(s) == [s[..i]] + Split(s[i + 1..])
  {
  }

  lemma JoinCons(a: string, r: seq<string>)
    requires r != []
    ensures Join([a] + r) == a + "/" + Join(r)
  {
    assert ([a] + r)[1..] == r;
  }

  lemma JoinThree(a: string, b: string, c: string)
    ensures Join([a, b, c]) == a + "/" + b + "/" + c
  {
    assert [a, b, c][1..] == [b, c] && [b, c][1..] == [c];
    assert Join([b, c]) == b + "/" + c;
  }

  lemma JoinFour(a: string, b: string, c: string, d: string)
    ensures Join([a, b, c, d]) == a + "/" + b + "/" + c + "/" + d
  {
    assert [a, b, c, d][1..] == [b, c, d];
    JoinThree(b, c, d);
  }

  lemma {:induction false} SplitJoin(segs: seq<string>)
    requires |segs| >= 1
    requires SlashFree(segs)
    ensures Split(Join(segs)) == segs
  {
    var s := Join(segs);
    var a := segs[0];
    assert NoSlash(a);
    if |segs| == 1 {
      IndexOfAt(s, '/', |s|);
    } else {
      var rest := Join(segs[1..]);
      assert s == a + "/" + rest;
      assert IndexOf(s, '/') == |a| by {
        assert forall j :: 0 <= j < |a| ==> s[j] == a[j];
        IndexOfAt(s, '/', |a|);
      }
      assert s[..|a|] == a && s[|a| + 1..] == rest;
      SplitAt(s, |a|);
      assert SlashFree(segs[1..]) by {
        forall k | 0 <= k < |segs| - 1 ensures NoSlash(segs[1..][k]) {
          assert segs[1..][k] == segs[k + 1];
        }
      }
      SplitJoin(segs[1..]);
    }
  }

  lemma {:induction false} JoinAppend(a: seq<string>, b: seq<string>)
    requires a != [] && b != []
    ensures Join(a + b) == Join(a) + "/" + Join(b)
  {
    if |a| == 1 {
      assert (a + b)[1..] == b;
    } else {
      assert (a + b)[1..] == a[1..] + b;
      JoinAppend(a[1..], b);
    }
  }

  /** The joined path ends with the last segment. */
  lemma {:induction false} JoinEndsWithLast(segs: seq<string>)
    requires segs != []
    ensures EndsWith(Join(segs), segs[|segs| - 1])
  {
    if |segs| > 1 {
      JoinEndsWithLast(segs[1..]);
    }
  }

  /** One segment of `normalizeString`: skip empty and `.`, let `..` drop
      the last kept segment (or climb above a relative start). */
  function Step(stack: seq<string>, seg: string, aboveRoot: bool): seq<string> {
    if seg == "" || seg == "." then stack
    else if seg == ".." then
      if |stack| > 0 && stack[|stack| - 1] != ".." then stack[..|stack| - 1]
      else if aboveRoot then stack + [".."]
      else stack
    else stack + [seg]
  }

  function Resolve(stack: seq<string>, segs: seq<string>, aboveRoot: bool): seq<string>
    decreases segs
  {
    if segs == [] then stack
    else Resolve(Step(stack, segs[0], aboveRoot), segs[1..], aboveRoot)
  }

  /** `path.normalize` on POSIX. */
  function Normalize(p: string): (r: string)
    ensures r != ""
    ensures r[0] == '/' <==> (p != "" && p[0] == '/')
  {
    if p == "" then "."
    else
      var absolute := p[0] == '/';
      var trailing := p[|p| - 1] == '/';
      var body := Join(Resolve([], Split(p), !absolute));
      if body == "" then
        if absolute then "/" else if trailing then "./" else "."
      else if absolute then
        "/" + body + (if trailing then "/" else "")
      else
        var kept := Resolve([], Split(p), true);
        SplitSlashFree(p);
        ResolveKeeps([], Split(p), true);
        JoinStartsWithFirst(kept);
        assert body[0] == kept[0][0];
        body + (if trailing then "/" else "")
  }

  /** Resolving never keeps an empty or `.` segment or a separator. */
  predicate Kept(stack: seq<string>) {
    forall i :: 0 <= i < |stack| ==> stack[i] != "" && stack[i] != "." && NoSlash(stack[i])
  }

  lemma {:induction false} ResolveKeeps(stack: seq<string>, segs: seq<string>, aboveRoot: bool)
    requires Kept(stack)
    requires SlashFree(segs)
    ensures Kept(Resolve(stack, segs, aboveRoot))
    decreases segs
  {
    if segs != [] {
      ResolveKeeps(Step(stack, segs[0], aboveRoot), segs[1..], aboveRoot);
    }
  }

  lemma JoinStartsWithFirst(segs: seq<string>)
    requires segs != []
    ensures StartsWith(Join(segs), segs[0])
  {
  }

  lemma {:induction false} ResolveAppend(stack: seq<string>, a: seq<string>, b: seq<string>, aboveRoot: bool)
    ensures Resolve(stack, a + b, aboveRoot) == Resolve(Resolve(stack, a, aboveRoot), b, aboveRoot)
    decreases a
  {
    if a == [] {
      assert a + b == b;
    } else {
      assert (a + b)[1..] == a[1..] + b;
      ResolveAppend(Step(stack, a[0], aboveRoot), a[1..], b, aboveRoot);
    }
  }

  /** Plain segments are kept as they are. */
  lemma {:induction false} ResolvePlain(stack: seq<string>, segs: seq<string>, aboveRoot: bool)
    requires AllPlain(segs)
    ensures Resolve(stack, segs, aboveRoot) == stack + segs
    decreases segs
  {
    if segs != [] {
      ResolvePlain(stack + [segs[0]], segs[1..], aboveRoot);
      assert stack + [segs[0]] + segs[1..] == stack + segs;
    }
  }

  lemma SplitLeadingSlash(t: string)
    ensures Split("/" + t) == [""] + Split(t)
  {
    var p := "/" + t;
    assert IndexOf(p, '/') == 0;
    assert p[..0] == "";
    assert p[1..] == t;
  }

  /** The segments `path.normalize` sees in an absolute path built from
      separator-free segments, and what it keeps of them. */
  lemma AbsPathResolves(segs: seq<string>)
    requires segs != []
    requires SlashFree(segs)
    ensures Split(AbsPath(segs)) == [""] + segs
    ensures Resolve([], Split(AbsPath(segs)), false) == Resolve([], segs, false)
  {
    SplitLeadingSlash(Join(segs));
    SplitJoin(segs);
    ResolveAppend([], [""], segs, false);
  }

  /** `path.normalize` on an absolute path that does not end in a separator
      and keeps some segment. */
  lemma NormalizeAbsoluteCase(p: string)
    requires p != "" && p[0] == '/' && p[|p| - 1] != '/'
    requires Join(Resolve([], Split(p), false)) != ""
    ensures Normalize(p) == "/" + Join(Resolve([], Split(p), false))
  {
  }

  /** Normalizing an absolute path of separator-free segments that ends in a
      plain segment yields the path with those segments resolved. */
  lemma NormalizeAbsolute(segs: seq<string>)
    requires segs != [] && Plain(segs[|segs| - 1])
    requires SlashFree(segs)
    requires Resolve([], segs, false) != []
    ensures Normalize(AbsPath(segs)) == AbsPath(Resolve([], segs, false))
  {
    var p := AbsPath(segs);
    var kept := Resolve([], segs, false);
    assert Resolve([], Split(p), false) == kept by {
      AbsPathResolves(segs);
    }
    assert Join(kept) != "" by {
      ResolveKeeps([], segs, false);
      assert kept[0] != "";
      JoinStartsWithFirst(kept);
    }
    assert p[|p| - 1] != '/' by {
      JoinEndsWithLast(segs);
      var last := segs[|segs| - 1];
      assert p[|p| - 1] == Join(segs)[|Join(segs)| - 1] == last[|last| - 1];
    }
    NormalizeAbsoluteCase(p);
  }

  /** A normalized absolute path is its own normalization. */
  lemma NormalizeAbsPath(segs: seq<string>)
    requires segs != [] && AllPlain(segs)
    ensures Normalize(AbsPath(segs)) == AbsPath(segs)
  {
    ResolvePlain([], segs, false);
    assert [] + segs == segs;
    NormalizeAbsolute(segs);
  }

  lemma SlashFreeAppend(a: seq<string>, b: seq<string>)
    requires SlashFree(a) && SlashFree(b)
    ensures SlashFree(a + b)
  {
    forall k | 0 <= k < |a + b| ensures NoSlash((a + b)[k]) {
      if k >= |a| { assert (a + b)[k] == b[k - |a|]; }
    }
  }

  lemma AllPlainAppend(a: seq<string>, b: seq<string>)
    requires AllPlain(a) && AllPlain(b)
    ensures AllPlain(a + b)
  {
    forall k | 0 <= k < |a + b| ensures Plain((a + b)[k]) {
      if k >= |a| { assert (a + b)[k] == b[k - |a|]; }
    }
  }

  /** Different separator-free segments give different absolute paths. */
  lemma AbsPathInjective(x: seq<string>, y: seq<string>)
    requires |x| >= 1 && |y| >= 1 && SlashFree(x) && SlashFree(y)
    requires AbsPath(x) == AbsPath(y)
    ensures x == y
  {
    assert Join(x) == AbsPath(x)[1..] == AbsPath(y)[1..] == Join(y);
    SplitJoin(x);
    SplitJoin(y);
  }

  /** Distinct keys stay distinct under a common suffix. */
  lemma SuffixKeepsApart(a: string, b: string, suffix: string)
    requires a != b
    ensures a + suffix != b + suffix
  {
    if |a| == |b| {
      assert (a + suffix)[..|a|] == a;
      assert (b + suffix)[..|b|] == b;
    }
  }

  lemma ResolveParent(dir: seq<string>, rest: seq<string>)
    requires dir != [] && AllPlain(dir) && AllPlain(rest)
    ensures Resolve([], dir + ([".."] + rest), false) == dir[..|dir| - 1] + rest
  {
    var parent := dir[..|dir| - 1];
    calc {
      Resolve([], dir + ([".."] + rest), false);
      { ResolveAppend([], dir, [".."] + rest, false); }
      Resolve(Resolve([], dir, false), [".."] + rest, false);
      { ResolvePlain([], dir, false); assert [] + dir == dir; }
      Resolve(dir, [".."] + rest, false);
      { ResolveAppend(dir, [".."], rest, false); }
      Resolve(Resolve(dir, [".."], false), rest, false);
      { assert Plain(dir[|dir| - 1]);
        assert Resolve(dir, [".."], false) == Step(dir, "..", false); }
      Resolve(parent, rest, false);
      { ResolvePlain(parent, rest, false); }
      parent + rest;
    }
  }

  lemma JoinParent(dir: seq<string>, rest: seq<string>)
    requires dir != [] && rest != []
    ensures AbsPath(dir + ([".."] + rest)) == AbsPath(dir) + "/../" + Join(rest)
  {
    JoinAppend(dir, [".."] + rest);
    assert ([".."] + rest)[1..] == rest;
    assert Join([".."] + rest) == ".." + "/" + Join(rest);
  }

  lemma AllPlainSlashFree(segs: seq<string>)
    requires AllPlain(segs)
    ensures SlashFree(segs)
  {
    forall k | 0 <= k < |segs| ensures NoSlash(segs[k]) {
      assert Plain(segs[k]);
    }
  }

  /** The segments of `dir/../rest`: separator-free, ending in a plain
      segment, and resolving to `rest` below the parent of `dir`. */
  lemma ParentSegments(dir: seq<string>, rest: seq<string>)
    requires dir != [] && AllPlain(dir)
    requires rest != [] && AllPlain(rest)
    ensures var segs := dir + ([".."] + rest);
      Plain(segs[|segs| - 1]) && SlashFree(segs) && Resolve([], segs, false) == dir[..|dir| - 1] + rest
  {
    var segs := dir + ([".."] + rest);
    ResolveParent(dir, rest);
    assert segs[|segs| - 1] == rest[|rest| - 1];
    assert SlashFree([".."]);
    AllPlainSlashFree(dir);
    AllPlainSlashFree(rest);
    SlashFreeAppend([".."], rest);
    SlashFreeAppend(dir, [".."] + rest);
  }

  /** A `..` after a normalized absolute directory climbs to its parent. */
  lemma NormalizeParent(dir: seq<string>, rest: seq<string>)
    requires dir != [] && AllPlain(dir)
    requires rest != [] && AllPlain(rest)
    ensures Normalize(AbsPath(dir) + "/../" + Join(rest)) == AbsPath(dir[..|dir| - 1] + rest)
  {
    var segs := dir + ([".."] + rest);
    JoinParent(dir, rest);
    ParentSegments(dir, rest);
    NormalizeAbsolute(segs);
  }

  /** Splitting at an inserted separator splits each side on its own. */
  lemma SplitAppend(a: string, b: string)
    ensures Split(a + "/" + b) == Split(a) + Split(b)
  {
    JoinSplit(a);
    JoinSplit(b);
    JoinAppend(Split(a), Split(b));
    SplitSlashFree(a);
    SplitSlashFree(b);
    SlashFreeAppend(Split(a), Split(b));
    SplitJoin(Split(a) + Split(b));
  }

  /** A separator-free string is a single segment. */
  lemma SplitSegment(s: string)
    requires NoSlash(s)
    ensures Split(s) == [s]
  {
  }

  /** `path.resolve(cwd, p)` for a relative `p`, as the segments of the
      resulting absolute path below the root. */
  function Locate(cwd: seq<string>, p: string): (r: seq<string>)
    ensures Kept(cwd) ==> Kept(r)
  {
    SplitSlashFree(p);
    if Kept(cwd) then
      ResolveKeeps(cwd, Split(p), false);
      Resolve(cwd, Split(p), false)
    else
      Resolve(cwd, Split(p), false)
  }

  /** A plain first segment descends into that directory. */
  lemma LocateSegment(cwd: seq<string>, a: string, rest: string)
    requires Plain(a)
    ensures Locate(cwd, a + "/" + rest) == Locate(cwd + [a], rest)
  {
    SplitAppend(a, rest);
    SplitSegment(a);
    assert Split(a + "/" + rest)[1..] == Split(rest);
  }

  /** A leading `./` stays where it is. */
  lemma LocateHere(cwd: seq<string>, rest: string)
    ensures Locate(cwd, "./" + rest) == Locate(cwd, rest)
  {
    assert "./" + rest == "." + "/" + rest;
    SplitAppend(".", rest);
    assert Split(".") == ["."];
    assert Split("./" + rest)[1..] == Split(rest);
  }

  /** A leading `../` climbs out of a plain directory. */
  lemma LocateUp(cwd: seq<string>, rest: string)
    requires cwd != [] && Plain(cwd[|cwd| - 1])
    ensures Locate(cwd, "../" + rest) == Locate(cwd[..|cwd| - 1], rest)
  {
    assert "../" + rest == ".." + "/" + rest;
    SplitAppend("..", rest);
    assert Split("..") == [".."];
    assert Split("../" + rest)[1..] == Split(rest);
  }

  /** A doubled separator adds nothing. */
  lemma LocateEmpty(cwd: seq<string>, rest: string)
    ensures Locate(cwd, "/" + rest) == Locate(cwd, rest)
  {
    SplitLeadingSlash(rest);
    assert Split("/" + rest)[1..] == Split(rest);
  }

  /** Plain segments joined, then a separator, descend into each of them. */
  lemma LocateUnder(cwd: seq<string>, segs: seq<string>, rest: string)
    requires segs != [] && AllPlain(segs)
    ensures Locate(cwd, Join(segs) + "/" + rest) == Locate(cwd + segs, rest)
  {
    calc {
      Locate(cwd, Join(segs) + "/" + rest);
      { SplitAppend(Join(segs), rest); }
      Resolve(cwd, Split(Join(segs)) + Split(rest), false);
      { AllPlainSlashFree(segs); SplitJoin(segs); }
      Resolve(cwd, segs + Split(rest), false);
      { ResolveAppend(cwd, segs, Split(rest), false); }
      Resolve(Resolve(cwd, segs, false), Split(rest), false);
      { ResolvePlain(cwd, segs, false); }
      Locate(cwd + segs, rest);
    }
  }

  /** A plain name on its own is one more segment. */
  lemma LocateName(cwd: seq<string>, a: string)
    requires Plain(a)
    ensures Locate(cwd, a) == cwd + [a]
  {
    SplitSegment(a);
    ResolvePlain(cwd, [a], false);
  }

  /** Position of the last `c` in `s`, or -1 when there is none. */
  function LastIndexOf(s: string, c: char): (i: int)
    ensures -1 <= i < |s|
    ensures i >= 0 ==> s[i] == c
    ensures forall j :: i < j < |s| ==> s[j] != c
  {
    if s == [] then -1
    else if s[|s| - 1] == c then |s| - 1
    else LastIndexOf(s[..|s| - 1], c)
  }

  /** `path.extname` of a path without trailing separators: the last
      segment from its last dot on, unless that dot opens the segment or
      the segment is `..`. */
  function ExtName(p: string): (e: string)
    ensures EndsWith(p, e)
    ensures e == "" || (e[0] == '.' && NoSlash(e))
    ensures forall i :: 0 < i < |e| ==> e[i] != '.'
  {
    var start := LastIndexOf(p, '/') + 1;
    var seg := p[start..];
    var d := LastIndexOf(seg, '.');
    if d <= 0 || seg == ".." then ""
    else
      ExtTail(p, start, d);
      seg[d..]
  }

  /** The tail of the last segment from its last dot on is a suffix of the
      path, opens with that dot and holds no other dot and no separator. */
  lemma ExtTail(p: string, start: nat, d: nat)
    requires start <= |p|
    requires forall j :: start - 1 < j < |p| ==> p[j] != '/'
    requires 0 < d < |p| - start
    requires p[start..][d] == '.'
    requires forall j :: d < j < |p[start..]| ==> p[start..][j] != '.'
    ensures EndsWith(p, p[start..][d..])
    ensures p[start..][d..][0] == '.' && NoSlash(p[start..][d..])
    ensures forall i :: 0 < i < |p[start..][d..]| ==> p[start..][d..][i] != '.'
  {
    var seg := p[start..];
    var e := seg[d..];
    assert e == p[start + d..];
    forall i | 0 <= i < |e| ensures e[i] == p[start + d + i] && e[i] != '/' {
      assert e[i] == p[start + d + i];
    }
    forall i | 0 < i < |e| ensures e[i] != '.' {
      assert e[i] == seg[d + i];
    }
  }

  /** gulp-rename's `{ extname: ext }`: the extension swapped for `ext`. */
  function ReplaceExt(p: string, ext: string): (r: string)
    ensures EndsWith(r, ext)
    ensures r[..|r| - |ext|] + ExtName(p) == p
    ensures ExtName(p) == "" ==> r == p + ext
  {
    var e := ExtName(p);
    var k := |p| - |e|;
    var stem := p[..k];
    assert p[k..] == e;
    assert p == stem + p[k..];
    assert (stem + ext)[..|stem|] == stem && (stem + ext)[|stem|..] == ext;
    stem + ext
  }

  /** A name ending in `.js` has extension `.js`, whatever comes before. */
  lemma ExtNameJs(base: string)
    requires base != "" && NoSlash(base)
    ensures ExtName(base + ".js") == ".js"
  {
    var p := base + ".js";
    assert NoSlash(p) by {
      forall i | 0 <= i < |p| ensures p[i] != '/' {
        if i < |base| { assert p[i] == base[i]; }
      }
    }
    assert LastIndexOf(p, '/') == -1;
    assert p[0..] == p;
    assert p[|base|] == '.';
    assert LastIndexOf(p, '.') == |base|;
  }

  /** The minified twin of `base.js` is `base.min.js`. */
  lemma MinifiedName(base: string)
    requires base != "" && NoSlash(base)
    ensures ReplaceExt(base + ".js", ".min.js") == base + ".min.js"
  {
    ExtNameJs(base);
    assert (base + ".js")[..|base|] == base;
  }
}
