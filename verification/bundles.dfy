/** The `browser-package` task and the per-locale bundle tasks. A bundle
    flows through a pipe of renames, minification and `gulp.dest` steps;
    each `gulp.dest` writes the file as it is at that point of the pipe.
    Bundling and minifying are opaque: a bundle is known by its entry
    module, a minified file by what it minifies. */
module Bundles {
  import opened Build
  import opened Paths

  /** The global name every bundle exposes (`standalone: 'faker'`). */
  const Standalone: string := "faker"

  /** What a file in the pipe holds. The entry is the absolute path of the
      bundled module, as segments below the root. */
  datatype Content =
    | Bundle(entry: seq<string>, global: string)
    | Minified(source: Content)

  /** A file in the pipe: its name relative to the destination, and what it
      holds. */
  datatype File = File(name: string, contents: Content)

  /** One `.pipe(...)` step. */
  datatype Stage =
    | Rename(name: string)     // `rename('...')`
    | SetExtname(ext: string)  // `rename({ extname: ... })`
    | Uglify                   // `uglify()`, also inside `streamify`
    | Dest(dir: string)        // `gulp.dest(dir)`

  /** One file a `gulp.dest` writes: the directory as the script gives it,
      the file's name at that point, and its contents. */
  datatype Write = Write(dir: string, name: string, contents: Content)

  function Apply(f: File, stage: Stage): File {
    match stage
    case Rename(n) => File(n, f.contents)
    case SetExtname(e) => File(ReplaceExt(f.name, e), f.contents)
    case Uglify => File(f.name, Minified(f.contents))
    case Dest(_) => f
  }

  /** The file as it leaves the pipe. */
  function Final(stages: seq<Stage>, f: File): File
    decreases stages
  {
    if stages == [] then f else Final(stages[1..], Apply(f, stages[0]))
  }

  function DestCount(stages: seq<Stage>): nat {
    if stages == [] then 0
    else (if stages[0].Dest? then 1 else 0) + DestCount(stages[1..])
  }

  /** The files a pipe writes, in order: one per `gulp.dest` step, each into
      a directory that step names. */
  function Run(stages: seq<Stage>, f: File): (ws: seq<Write>)
    ensures |ws| == DestCount(stages)
    ensures forall i :: 0 <= i < |ws| ==> Dest(ws[i].dir) in stages
    decreases stages
  {
    if stages == [] then []
    else
      var rest := Run(stages[1..], Apply(f, stages[0]));
      match stages[0]
      case Dest(d) => [Write(d, f.name, f.contents)] + rest
      case _ => rest
  }

  /** Running two pipes one after the other writes what each writes, the
      second starting from the file the first leaves. */
  lemma RunAppend(a: seq<Stage>, b: seq<Stage>, f: File)
    ensures Run(a + b, f) == Run(a, f) + Run(b, Final(a, f))
    ensures Final(a + b, f) == Final(b, Final(a, f))
  {
    RunAppendWrites(a, b, f);
    FinalAppend(a, b, f);
  }

  lemma {:induction false} FinalAppend(a: seq<Stage>, b: seq<Stage>, f: File)
    ensures Final(a + b, f) == Final(b, Final(a, f))
    decreases a
  {
    if a == [] {
      assert a + b == b;
    } else {
      assert (a + b)[0] == a[0];
      assert (a + b)[1..] == a[1..] + b;
      FinalAppend(a[1..], b, Apply(f, a[0]));
    }
  }

  lemma {:induction false} RunAppendWrites(a: seq<Stage>, b: seq<Stage>, f: File)
    ensures Run(a + b, f) == Run(a, f) + Run(b, Final(a, f))
    decreases a
  {
    if a == [] {
      assert a + b == b;
    } else {
      var g := Apply(f, a[0]);
      assert (a + b)[0] == a[0];
      assert (a + b)[1..] == a[1..] + b;
      assert Final(a, f) == Final(a[1..], g);
      RunAppendWrites(a[1..], b, g);
      RunHead(a + b, f);
      RunHead(a, f);
    }
  }

  /** What the first stage writes, then what the rest writes. */
  lemma RunHead(s: seq<Stage>, f: File)
    requires s != []
    ensures Run(s, f) == (if s[0].Dest? then [Write(s[0].dir, f.name, f.contents)] else []) + Run(s[1..], Apply(f, s[0]))
  {
  }

  /** A pipe without `gulp.dest` writes nothing. */
  lemma {:induction false} NoDestWritesNothing(b: seq<Stage>, f: File)
    requires forall i :: 0 <= i < |b| ==> !b[i].Dest?
    ensures Run(b, f) == []
    decreases b
  {
    if b != [] {
      NoDestWritesNothing(b[1..], Apply(f, b[0]));
    }
  }

  /** Steps after the last `gulp.dest` write nothing. */
  lemma TrailingStagesWriteNothing(a: seq<Stage>, b: seq<Stage>, f: File)
    requires forall i :: 0 <= i < |b| ==> !b[i].Dest?
    ensures Run(a + b, f) == Run(a, f)
  {
    RunAppend(a, b, f);
    NoDestWritesNothing(b, Final(a, f));
  }

  /** `gulp.dest` into each directory in turn. */
  function DestAll(dirs: seq<string>): (r: seq<Stage>)
    ensures |r| == |dirs|
    ensures forall i :: 0 <= i < |dirs| ==> r[i] == Dest(dirs[i])
  {
    if dirs == [] then [] else [Dest(dirs[0])] + DestAll(dirs[1..])
  }

  /** The file written once into each directory. */
  function WriteAll(dirs: seq<string>, f: File): seq<Write> {
    if dirs == [] then [] else [Write(dirs[0], f.name, f.contents)] + WriteAll(dirs[1..], f)
  }

  lemma {:induction false} RunDestAll(dirs: seq<string>, f: File)
    ensures Run(DestAll(dirs), f) == WriteAll(dirs, f)
    ensures Final(DestAll(dirs), f) == f
  {
    if dirs != [] {
      var s := DestAll(dirs);
      assert s[0] == Dest(dirs[0]);
      assert s[1..] == DestAll(dirs[1..]);
      RunDestAll(dirs[1..], f);
    }
  }

  /** The pipe shared by every bundle task: name it `base.js`, write it to
      each directory, swap the extension for `.min.js`, minify, write again
      to each directory, and rename once more at the end. */
  function Pipeline(base: string, dirs: seq<string>, finalName: string): (r: seq<Stage>)
    ensures |r| == 2 * |dirs| + 4
    ensures r[0] == Rename(base + ".js") && r[|r| - 1] == Rename(finalName)
    ensures r[|dirs| + 1] == SetExtname(".min.js") && r[|dirs| + 2] == Uglify
    ensures forall i :: 0 <= i < |dirs| ==> r[1 + i] == Dest(dirs[i]) && r[|dirs| + 3 + i] == Dest(dirs[i])
  {
    [Rename(base + ".js")] + DestAll(dirs) + [SetExtname(".min.js"), Uglify] + DestAll(dirs) + [Rename(finalName)]
  }

  /** Swapping the extension and minifying renames the file as
      gulp-rename does, minifies its contents and writes nothing. */
  lemma MinifyStages(name: string, c: Content)
    ensures Final([SetExtname(".min.js"), Uglify], File(name, c)) == File(ReplaceExt(name, ".min.js"), Minified(c))
    ensures Run([SetExtname(".min.js"), Uglify], File(name, c)) == []
  {
    var s3 := [SetExtname(".min.js"), Uglify];
    assert s3[1..] == [Uglify];
    assert s3[1..][1..] == [];
  }

  /** Everything up to and including the first round of writes. */
  lemma FirstRound(base: string, dirs: seq<string>, f: File)
    ensures Run([Rename(base + ".js")] + DestAll(dirs), f) == WriteAll(dirs, File(base + ".js", f.contents))
    ensures Final([Rename(base + ".js")] + DestAll(dirs), f) == File(base + ".js", f.contents)
  {
    var s1 := [Rename(base + ".js")];
    assert s1[1..] == [];
    RunAppend(s1, DestAll(dirs), f);
    RunDestAll(dirs, File(base + ".js", f.contents));
  }

  /** Whatever the base, a bundle pipe writes `base.js` with the bundle
      into every directory, then the file with its extension swapped for
      `.min.js`, holding the minification, into every directory; the
      final rename writes nothing. */
  lemma PipelineRuns(base: string, dirs: seq<string>, finalName: string, f: File)
    ensures Run(Pipeline(base, dirs, finalName), f)
         == WriteAll(dirs, File(base + ".js", f.contents))
          + WriteAll(dirs, File(ReplaceExt(base + ".js", ".min.js"), Minified(f.contents)))
  {
    var first := [Rename(base + ".js")] + DestAll(dirs);
    var s3 := [SetExtname(".min.js"), Uglify];
    var named := File(base + ".js", f.contents);
    var minified := File(ReplaceExt(base + ".js", ".min.js"), Minified(f.contents));
    FirstRound(base, dirs, f);
    MinifyStages(base + ".js", f.contents);
    RunAppend(first, s3, f);
    assert Run(first + s3, f) == WriteAll(dirs, named);
    assert Final(first + s3, f) == minified;
    RunAppend(first + s3, DestAll(dirs), f);
    RunDestAll(dirs, minified);
    TrailingStagesWriteNothing(first + s3 + DestAll(dirs), [Rename(finalName)], f);
  }

  /** A bundle pipe writes `base.js` with the bundle into every directory,
      then `base.min.js` with its minification into every directory. */
  lemma PipelineWrites(base: string, dirs: seq<string>, finalName: string, f: File)
    requires base != "" && NoSlash(base)
    ensures Run(Pipeline(base, dirs, finalName), f)
         == WriteAll(dirs, File(base + ".js", f.contents))
          + WriteAll(dirs, File(base + ".min.js", Minified(f.contents)))
  {
    PipelineRuns(base, dirs, finalName, f);
    MinifiedName(base);
  }

  lemma WriteAllPair(a: string, b: string, f: File)
    ensures WriteAll([a, b], f) == [Write(a, f.name, f.contents), Write(b, f.name, f.contents)]
  {
    assert [a, b][1..] == [b];
    assert WriteAll([b], f) == [Write(b, f.name, f.contents)];
  }

  /** `faker.L` never holds a separator when `L` does not. */
  lemma LocaleBaseNoSlash(locale: string)
    requires NoSlash(locale)
    ensures NoSlash("faker." + locale)
  {
    var b := "faker." + locale;
    forall i | 0 <= i < |b| ensures b[i] != '/' {
      if i >= 6 { assert b[i] == locale[i - 6]; }
    }
  }

  /** How each script names the repository from where it runs: `./` from
      the repository itself, `../` from `build/` (and from `locale/`). */
  function Repo(script: Script): string {
    match script
    case Root => "./"
    case Legacy => "../"
  }

  // ----- the global bundle (`browser-package`) -----

  function GlobalEntry(script: Script): string {
    Repo(script) + "index.js"
  }

  /** `build/` below where the script runs, and the examples tree
      `<repo>examples/browser/js`. */
  function GlobalDirs(script: Script): (r: seq<string>)
    ensures r == ["build/", Repo(script) + "examples/browser/js"]
  {
    JoinThree("examples", "browser", "js");
    assert "examples" + "/" + "browser" + "/" + "js" == "examples/browser/js";
    ["build/", Repo(script) + Join(["examples", "browser", "js"])]
  }

  function GlobalFinalName(script: Script): string {
    Repo(script) + "examples/browser/js/faker.min.js"
  }

  /** The global bundle task run from `cwd`, writing into `dirs`. */
  function GlobalBundleTo(script: Script, dirs: seq<string>, cwd: seq<string>): seq<Write> {
    var entry := GlobalEntry(script);
    Run(Pipeline("faker", dirs, GlobalFinalName(script)), File(entry, Bundle(Locate(cwd, entry), Standalone)))
  }

  function GlobalBundle(script: Script, cwd: seq<string>): seq<Write> {
    GlobalBundleTo(script, GlobalDirs(script), cwd)
  }

  /** `faker.js` goes to both directories, then `faker.min.js` to both, in
      that order. */
  lemma GlobalBundleWrites(script: Script, dirs: seq<string>, cwd: seq<string>)
    requires |dirs| == 2
    ensures var c := Bundle(Locate(cwd, GlobalEntry(script)), Standalone);
      GlobalBundleTo(script, dirs, cwd)
        == [ Write(dirs[0], "faker.js", c), Write(dirs[1], "faker.js", c),
             Write(dirs[0], "faker.min.js", Minified(c)), Write(dirs[1], "faker.min.js", Minified(c)) ]
  {
    var c := Bundle(Locate(cwd, GlobalEntry(script)), Standalone);
    assert NoSlash("faker");
    assert "faker" + ".js" == "faker.js" && "faker" + ".min.js" == "faker.min.js";
    PipelineWrites("faker", dirs, GlobalFinalName(script), File(GlobalEntry(script), c));
    assert dirs == [dirs[0], dirs[1]];
    WriteAllPair(dirs[0], dirs[1], File("faker.js", c));
    WriteAllPair(dirs[0], dirs[1], File("faker.min.js", Minified(c)));
  }

  // ----- the per-locale bundles -----

  /** `<repo>build/build/locales/<key>` and
      `<repo>examples/browser/locales/<key>/`, the second with a trailing
      separator. */
  function LocaleDirs(script: Script, locale: string): (r: seq<string>)
    ensures r == [ Repo(script) + "build/build/locales/" + locale,
                   Repo(script) + "examples/browser/locales/" + locale + "/" ]
  {
    JoinFour("build", "build", "locales", locale);
    JoinFour("examples", "browser", "locales", locale);
    assert "build" + "/" + "build" + "/" + "locales" + "/" == "build/build/locales/";
    assert "examples" + "/" + "browser" + "/" + "locales" + "/" == "examples/browser/locales/";
    var repo := Repo(script);
    assert repo + ("build/build/locales/" + locale) == repo + "build/build/locales/" + locale;
    assert repo + ("examples/browser/locales/" + locale) + "/" == repo + "examples/browser/locales/" + locale + "/";
    [ repo + Join(["build", "build", "locales", locale]),
      repo + Join(["examples", "browser", "locales", locale]) + "/" ]
  }

  /** The name of the last rename, which comes after the last write. */
  function LocaleFinalName(script: Script, locale: string): string {
    Repo(script) + "examples/browser/locales/" + locale + "/faker." + locale + "min.js"
  }

  /** The name the stream gives the file before the first rename. */
  function LocaleSourceName(script: Script, locale: string): string {
    match script
    case Root => "./locale/" + locale + ".js"
    case Legacy => "./" + locale + ".js"
  }

  /** The module handed to the bundler: the root script bundles
      `./index.js` whatever the locale, the older one the locale's shim in
      its working directory. */
  function LocaleEntry(script: Script, locale: string): (r: string)
    ensures script == Root ==> r == GlobalEntry(Root) && r != LocaleSourceName(Root, locale)
    ensures script == Legacy ==> r == LocaleSourceName(Legacy, locale)
  {
    match script
    case Root => Repo(Root) + "index.js"
    case Legacy => "./" + locale + ".js"
  }

  /** A per-locale bundle task run from `cwd` that bundles `entry`. For the
      older script `cwd` is the directory its `process.chdir('../locale/')`
      leads to. */
  function LocaleBundleFrom(script: Script, entry: string, cwd: seq<string>, locale: string): seq<Write> {
    Run(Pipeline("faker." + locale, LocaleDirs(script, locale), LocaleFinalName(script, locale)),
        File(LocaleSourceName(script, locale), Bundle(Locate(cwd, entry), Standalone)))
  }

  /** The per-locale bundle task as each script writes it. */
  function LocaleBundle(script: Script, cwd: seq<string>, locale: string): seq<Write> {
    LocaleBundleFrom(script, LocaleEntry(script, locale), cwd, locale)
  }

  /** The root task bundling the shim its stream is named after. */
  function CorrectedLocaleBundle(cwd: seq<string>, locale: string): seq<Write> {
    LocaleBundleFrom(Root, LocaleSourceName(Root, locale), cwd, locale)
  }

  /** `faker.L.js` goes to both locale directories, then `faker.L.min.js`
      to both; the contents are the bundle of `entry`. */
  lemma LocaleBundleWrites(script: Script, entry: string, cwd: seq<string>, locale: string)
    requires NoSlash(locale)
    ensures var c := Bundle(Locate(cwd, entry), Standalone);
      var dirs := LocaleDirs(script, locale);
      LocaleBundleFrom(script, entry, cwd, locale)
        == [ Write(dirs[0], "faker." + locale + ".js", c), Write(dirs[1], "faker." + locale + ".js", c),
             Write(dirs[0], "faker." + locale + ".min.js", Minified(c)), Write(dirs[1], "faker." + locale + ".min.js", Minified(c)) ]
  {
    var c := Bundle(Locate(cwd, entry), Standalone);
    var dirs := LocaleDirs(script, locale);
    var base := "faker." + locale;
    LocaleBaseNoSlash(locale);
    PipelineWrites(base, dirs, LocaleFinalName(script, locale), File(LocaleSourceName(script, locale), c));
    WriteAllPair(dirs[0], dirs[1], File(base + ".js", c));
    WriteAllPair(dirs[0], dirs[1], File(base + ".min.js", Minified(c)));
  }

  /** What the four files of a locale bundle hold, whatever their names:
      the bundle of `entry` twice, then its minification twice. */
  lemma LocaleBundleContents(script: Script, entry: string, cwd: seq<string>, locale: string)
    ensures var ws, c := LocaleBundleFrom(script, entry, cwd, locale), Bundle(Locate(cwd, entry), Standalone);
      |ws| == 4 && ws[0].contents == ws[1].contents == c && ws[2].contents == ws[3].contents == Minified(c)
  {
    PipelineContents("faker." + locale, LocaleDirs(script, locale), LocaleFinalName(script, locale),
                     File(LocaleSourceName(script, locale), Bundle(Locate(cwd, entry), Standalone)));
  }

  /** A bundle pipe into two directories writes four files: the contents
      twice, then their minification twice. */
  lemma PipelineContents(base: string, dirs: seq<string>, finalName: string, f: File)
    requires |dirs| == 2
    ensures var ws := Run(Pipeline(base, dirs, finalName), f);
      |ws| == 4 && ws[0].contents == ws[1].contents == f.contents
      && ws[2].contents == ws[3].contents == Minified(f.contents)
  {
    var named := File(base + ".js", f.contents);
    var minified := File(ReplaceExt(base + ".js", ".min.js"), Minified(f.contents));
    PipelineRuns(base, dirs, finalName, f);
    assert dirs == [dirs[0], dirs[1]];
    WriteAllPair(dirs[0], dirs[1], named);
    WriteAllPair(dirs[0], dirs[1], minified);
    FourWrites(Run(Pipeline(base, dirs, finalName), f), WriteAll(dirs, named), WriteAll(dirs, minified));
  }

  /** Two writes of one file, then two of another. */
  lemma FourWrites(ws: seq<Write>, first: seq<Write>, second: seq<Write>)
    requires ws == first + second && |first| == |second| == 2
    requires first[0].contents == first[1].contents && second[0].contents == second[1].contents
    ensures |ws| == 4 && ws[0].contents == ws[1].contents == first[0].contents
    ensures ws[2].contents == ws[3].contents == second[0].contents
  {
  }

  /** Two bundles with the contents pattern of the same entry hold the
      same contents file by file. */
  lemma ContentsAlike(wa: seq<Write>, wb: seq<Write>, c: Content)
    requires |wa| == 4 && wa[0].contents == wa[1].contents == c && wa[2].contents == wa[3].contents == Minified(c)
    requires |wb| == 4 && wb[0].contents == wb[1].contents == c && wb[2].contents == wb[3].contents == Minified(c)
    ensures forall i :: 0 <= i < 4 ==> wa[i].contents == wb[i].contents
  {
    forall i | 0 <= i < 4 ensures wa[i].contents == wb[i].contents {
      if i >= 2 {
        assert wa[i].contents == Minified(c) == wb[i].contents;
      }
    }
  }

  /** Locale bundles of entries that resolve apart differ in every file. */
  lemma LocaleBundlesApart(script: Script, ea: string, eb: string, cwd: seq<string>, a: string, b: string)
    requires Locate(cwd, ea) != Locate(cwd, eb)
    ensures |LocaleBundleFrom(script, ea, cwd, a)| == |LocaleBundleFrom(script, eb, cwd, b)| == 4
    ensures forall i :: 0 <= i < 4 ==>
      LocaleBundleFrom(script, ea, cwd, a)[i].contents != LocaleBundleFrom(script, eb, cwd, b)[i].contents
  {
    LocaleBundleContents(script, ea, cwd, a);
    LocaleBundleContents(script, eb, cwd, b);
    ContentsApart(LocaleBundleFrom(script, ea, cwd, a), LocaleBundleFrom(script, eb, cwd, b),
                  Bundle(Locate(cwd, ea), Standalone), Bundle(Locate(cwd, eb), Standalone));
  }

  /** The contents pattern of a locale bundle, for two different bundles,
      differs file by file. */
  lemma ContentsApart(wa: seq<Write>, wb: seq<Write>, ca: Content, cb: Content)
    requires ca != cb
    requires |wa| == 4 && wa[0].contents == wa[1].contents == ca && wa[2].contents == wa[3].contents == Minified(ca)
    requires |wb| == 4 && wb[0].contents == wb[1].contents == cb && wb[2].contents == wb[3].contents == Minified(cb)
    ensures forall i :: 0 <= i < 4 ==> wa[i].contents != wb[i].contents
  {
    forall i | 0 <= i < 4 ensures wa[i].contents != wb[i].contents {
      if i >= 2 {
        assert wa[i].contents == Minified(ca) && wb[i].contents == Minified(cb);
      }
    }
  }

  // ----- where the writes land -----

  /** A written file: its absolute path, as segments below the root, and
      its contents. */
  datatype Output = Output(path: seq<string>, contents: Content)

  /** Where `gulp.dest` puts a write when the task runs from `cwd`: the
      directory resolved against `cwd`, with the file name joined on. */
  function Target(cwd: seq<string>, w: Write): (r: seq<string>)
    ensures Kept(cwd) ==> Kept(r)
  {
    Locate(cwd, w.dir + "/" + w.name)
  }

  /** The writes of a task run from `cwd`, in order, with where they land. */
  function Place(cwd: seq<string>, ws: seq<Write>): (os: seq<Output>)
    ensures |os| == |ws|
    ensures forall i :: 0 <= i < |ws| ==> os[i] == Output(Target(cwd, ws[i]), ws[i].contents)
  {
    if ws == [] then []
    else [Output(Target(cwd, ws[0]), ws[0].contents)] + Place(cwd, ws[1..])
  }
}
