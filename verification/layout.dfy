/** Where the bundle tasks' files land on disk, resolved against the
    directory each task runs from, compared with the intended layout: an
    output root holding `faker.js`, `faker.min.js` and `locales/<L>/`, and
    an examples tree mirroring them. */
module Layout {
  import opened Build
  import opened Paths
  import opened Bundles

  /** The four files of a per-locale bundle below the repository `repo`. */
  function LocaleLayout(repo: seq<string>, locale: string, c: Content): seq<Output> {
    var js := "faker." + locale + ".js";
    var min := "faker." + locale + ".min.js";
    [ Output(repo + ["build", "build", "locales", locale, js], c),
      Output(repo + ["examples", "browser", "locales", locale, js], c),
      Output(repo + ["build", "build", "locales", locale, min], Minified(c)),
      Output(repo + ["examples", "browser", "locales", locale, min], Minified(c)) ]
  }

  /** The four files of the global bundle: two in `outRoot`, two in the
      examples tree of `repo`. */
  function GlobalLayout(outRoot: seq<string>, repo: seq<string>, c: Content): seq<Output> {
    [ Output(outRoot + ["faker.js"], c),
      Output(repo + ["examples", "browser", "js", "faker.js"], c),
      Output(outRoot + ["faker.min.js"], Minified(c)),
      Output(repo + ["examples", "browser", "js", "faker.min.js"], Minified(c)) ]
  }

  lemma PlainLiterals()
    ensures Plain("build") && Plain("locales") && Plain("examples") && Plain("browser")
    ensures Plain("js") && Plain("locale") && Plain("index.js")
    ensures Plain("faker.js") && Plain("faker.min.js")
  {
  }

  /** `faker.L.js`, `faker.L.min.js` and `L.js` are plain file names when
      `L` holds no separator. */
  lemma LocaleFileNames(locale: string)
    requires NoSlash(locale)
    ensures Plain("faker." + locale + ".js") && Plain("faker." + locale + ".min.js") && Plain(locale + ".js")
  {
    var a, b, d := "faker." + locale + ".js", "faker." + locale + ".min.js", locale + ".js";
    forall i | 0 <= i < |a| ensures a[i] != '/' {
      if 6 <= i < 6 + |locale| { assert a[i] == locale[i - 6]; }
    }
    forall i | 0 <= i < |b| ensures b[i] != '/' {
      if 6 <= i < 6 + |locale| { assert b[i] == locale[i - 6]; }
    }
    forall i | 0 <= i < |d| ensures d[i] != '/' {
      if i < |locale| { assert d[i] == locale[i]; }
    }
    assert a[|a| - 1] == 's' && b[|b| - 1] == 's' && d[|d| - 1] == 's';
  }

  /** A joined directory and a name below it. */
  lemma UnderName(cwd: seq<string>, segs: seq<string>, name: string)
    requires segs != [] && AllPlain(segs) && Plain(name)
    ensures Locate(cwd, Join(segs) + "/" + name) == cwd + segs + [name]
  {
    LocateUnder(cwd, segs, name);
    LocateName(cwd + segs, name);
  }

  /** The same below a directory written with a trailing separator. */
  lemma UnderDirName(cwd: seq<string>, segs: seq<string>, name: string)
    requires segs != [] && AllPlain(segs) && Plain(name)
    ensures Locate(cwd, Join(segs) + "/" + "/" + name) == cwd + segs + [name]
  {
    assert Join(segs) + "/" + "/" + name == Join(segs) + "/" + ("/" + name);
    LocateUnder(cwd, segs, "/" + name);
    LocateEmpty(cwd + segs, name);
    LocateName(cwd + segs, name);
  }

  /** `build/` + `/` + name below `cwd`. */
  lemma BuildPath(cwd: seq<string>, name: string)
    requires Plain(name)
    ensures Locate(cwd, "build/" + "/" + name) == cwd + ["build", name]
  {
    PlainLiterals();
    assert "build/" + "/" + name == "build" + "/" + ("/" + name);
    LocateSegment(cwd, "build", "/" + name);
    LocateEmpty(cwd + ["build"], name);
    LocateName(cwd + ["build"], name);
  }

  lemma PlaceFour(cwd: seq<string>, ws: seq<Write>)
    requires |ws| == 4
    ensures Place(cwd, ws) == [ Output(Target(cwd, ws[0]), ws[0].contents), Output(Target(cwd, ws[1]), ws[1].contents),
                                Output(Target(cwd, ws[2]), ws[2].contents), Output(Target(cwd, ws[3]), ws[3].contents) ]
  {
  }

  // ----- the directories the tasks run in -----

  /** Where each script is started: the root script from the repository,
      the older one from its `build/` directory. */
  function ScriptDir(script: Script, repo: seq<string>): seq<string> {
    match script
    case Root => repo
    case Legacy => repo + ["build"]
  }

  /** Where a per-locale bundle task runs: the older script first moves to
      `../locale/` (`process.chdir`), the root script stays put. */
  function LocaleTaskDir(script: Script, repo: seq<string>): seq<string> {
    match script
    case Root => repo
    case Legacy => Locate(ScriptDir(Legacy, repo), Repo(Legacy) + "locale/")
  }

  lemma LocateLocaleDir(repo: seq<string>)
    ensures Locate(repo, "locale" + "/" + "") == repo + ["locale"]
  {
    assert Plain("locale");
    LocateSegment(repo, "locale", "");
    assert Split("") == [""];
    assert [""][1..] == [];
  }

  /** The older script's per-locale tasks run in the repository's `locale/`
      directory, and moving to `../locale/` again from there stays there,
      so every one of its locale tasks runs in the same place. */
  lemma LocaleTaskDirs(repo: seq<string>)
    ensures LocaleTaskDir(Legacy, repo) == repo + ["locale"]
    ensures Locate(repo + ["locale"], Repo(Legacy) + "locale/") == repo + ["locale"]
  {
    assert "locale/" == "locale" + "/" + "";
    LocateLocaleDir(repo);
    assert LocaleTaskDir(Legacy, repo) == repo + ["locale"] by {
      assert Plain("build");
      LocateUp(repo + ["build"], "locale" + "/" + "");
      assert (repo + ["build"])[..|repo|] == repo;
    }
    assert Locate(repo + ["locale"], Repo(Legacy) + "locale/") == repo + ["locale"] by {
      assert Plain("locale");
      LocateUp(repo + ["locale"], "locale" + "/" + "");
      assert (repo + ["locale"])[..|repo|] == repo;
    }
  }

  /** What a script's repository prefix names from where it runs: the
      directory itself for `./`, its parent for `../`. */
  predicate RunsIn(script: Script, repo: seq<string>, here: seq<string>) {
    match script
    case Root => here == repo
    case Legacy => here != [] && here[..|here| - 1] == repo && Plain(here[|here| - 1])
  }

  lemma LocateRepo(script: Script, repo: seq<string>, here: seq<string>, x: string)
    requires RunsIn(script, repo, here)
    ensures Locate(here, Repo(script) + x) == Locate(repo, x)
  {
    match script
    case Root => LocateHere(repo, x);
    case Legacy => LocateUp(here, x);
  }

  /** Both scripts start where their prefix names the repository, and so do
      the older script's locale tasks. */
  lemma RunsInDirs(script: Script, repo: seq<string>)
    ensures RunsIn(script, repo, ScriptDir(script, repo))
    ensures RunsIn(script, repo, LocaleTaskDir(script, repo))
  {
    assert Plain("build") && Plain("locale");
    if script == Legacy {
      LocaleTaskDirs(repo);
      assert (repo + ["build"])[..|repo|] == repo;
      assert (repo + ["locale"])[..|repo|] == repo;
    }
  }

  /** A joined directory below the repository, and a name below it. */
  lemma InRepo(script: Script, repo: seq<string>, here: seq<string>, segs: seq<string>, name: string)
    requires RunsIn(script, repo, here)
    requires segs != [] && AllPlain(segs) && Plain(name)
    ensures Locate(here, Repo(script) + Join(segs) + "/" + name) == repo + segs + [name]
  {
    assert Repo(script) + Join(segs) + "/" + name == Repo(script) + (Join(segs) + "/" + name);
    LocateRepo(script, repo, here, Join(segs) + "/" + name);
    UnderName(repo, segs, name);
  }

  lemma InRepoDir(script: Script, repo: seq<string>, here: seq<string>, segs: seq<string>, name: string)
    requires RunsIn(script, repo, here)
    requires segs != [] && AllPlain(segs) && Plain(name)
    ensures Locate(here, Repo(script) + Join(segs) + "/" + "/" + name) == repo + segs + [name]
  {
    assert Repo(script) + Join(segs) + "/" + "/" + name == Repo(script) + (Join(segs) + "/" + "/" + name);
    LocateRepo(script, repo, here, Join(segs) + "/" + "/" + name);
    UnderDirName(repo, segs, name);
  }

  // ----- the global bundle -----

  /** Both scripts bundle the repository's `index.js`. */
  lemma GlobalEntries(script: Script, repo: seq<string>)
    ensures Locate(ScriptDir(script, repo), GlobalEntry(script)) == repo + ["index.js"]
  {
    assert Plain("index.js");
    match script
    case Root =>
      assert GlobalEntry(Root) == "./" + "index.js";
      LocateHere(repo, "index.js");
      LocateName(repo, "index.js");
    case Legacy =>
      assert Plain("build");
      assert GlobalEntry(Legacy) == "../" + "index.js";
      LocateUp(repo + ["build"], "index.js");
      assert (repo + ["build"])[..|repo|] == repo;
      LocateName(repo, "index.js");
  }

  /** A script's global bundle directories, resolved from where it runs:
      `build/` below that directory, and the examples tree. */
  lemma GlobalDirTargets(script: Script, repo: seq<string>, name: string)
    requires Plain(name)
    ensures Locate(ScriptDir(script, repo), GlobalDirs(script)[0] + "/" + name) == ScriptDir(script, repo) + ["build", name]
    ensures Locate(ScriptDir(script, repo), GlobalDirs(script)[1] + "/" + name) == repo + ["examples", "browser", "js", name]
  {
    var js := ["examples", "browser", "js"];
    assert GlobalDirs(script)[1] == Repo(script) + Join(js);
    BuildPath(ScriptDir(script, repo), name);
    RunsInDirs(script, repo);
    PlainLiterals();
    InRepo(script, repo, ScriptDir(script, repo), js, name);
    assert repo + js + [name] == repo + ["examples", "browser", "js", name];
  }

  /** The corrected directories, resolved from the repository. */
  lemma CorrectedGlobalDirTargets(repo: seq<string>, name: string)
    requires Plain(name)
    ensures Locate(repo, CorrectedGlobalDirs()[0] + "/" + name) == repo + ["build", "build", name]
    ensures Locate(repo, CorrectedGlobalDirs()[1] + "/" + name) == repo + ["examples", "browser", "js", name]
  {
    var out := ["build", "build"];
    var js := ["examples", "browser", "js"];
    RunsInDirs(Root, repo);
    PlainLiterals();
    InRepo(Root, repo, repo, out, name);
    InRepo(Root, repo, repo, js, name);
    assert repo + out + [name] == repo + ["build", "build", name];
    assert repo + js + [name] == repo + ["examples", "browser", "js", name];
  }

  /** The global bundle writes of a script, placed from where it runs. */
  lemma GlobalPlaced(script: Script, dirs: seq<string>, repo: seq<string>)
    requires |dirs| == 2
    ensures var cwd := ScriptDir(script, repo);
      var c := Bundle(Locate(cwd, GlobalEntry(script)), Standalone);
      Place(cwd, GlobalBundleTo(script, dirs, cwd))
        == [ Output(Locate(cwd, dirs[0] + "/" + "faker.js"), c), Output(Locate(cwd, dirs[1] + "/" + "faker.js"), c),
             Output(Locate(cwd, dirs[0] + "/" + "faker.min.js"), Minified(c)), Output(Locate(cwd, dirs[1] + "/" + "faker.min.js"), Minified(c)) ]
  {
    var cwd := ScriptDir(script, repo);
    var ws := GlobalBundleTo(script, dirs, cwd);
    GlobalBundleWrites(script, dirs, cwd);
    PlaceFour(cwd, ws);
  }

  /** A global bundle lands in the layout with output root `outRoot` once
      its two directories resolve to `outRoot` and the examples tree. */
  lemma GlobalLayoutFrom(script: Script, dirs: seq<string>, repo: seq<string>, outRoot: seq<string>)
    requires |dirs| == 2
    requires Locate(ScriptDir(script, repo), GlobalEntry(script)) == repo + ["index.js"]
    requires Locate(ScriptDir(script, repo), dirs[0] + "/" + "faker.js") == outRoot + ["faker.js"]
    requires Locate(ScriptDir(script, repo), dirs[0] + "/" + "faker.min.js") == outRoot + ["faker.min.js"]
    requires Locate(ScriptDir(script, repo), dirs[1] + "/" + "faker.js") == repo + ["examples", "browser", "js", "faker.js"]
    requires Locate(ScriptDir(script, repo), dirs[1] + "/" + "faker.min.js") == repo + ["examples", "browser", "js", "faker.min.js"]
    ensures Place(ScriptDir(script, repo), GlobalBundleTo(script, dirs, ScriptDir(script, repo)))
         == GlobalLayout(outRoot, repo, Bundle(repo + ["index.js"], Standalone))
  {
    GlobalPlaced(script, dirs, repo);
  }

  /** The root script, run from the repository, writes `faker.js` and
      `faker.min.js` into `build/` and into `examples/browser/js/`. */
  lemma RootGlobalOutputs(repo: seq<string>)
    ensures Place(repo, GlobalBundle(Root, repo))
         == GlobalLayout(repo + ["build"], repo, Bundle(repo + ["index.js"], Standalone))
  {
    GlobalEntries(Root, repo);
    PlainLiterals();
    GlobalDirTargets(Root, repo, "faker.js");
    GlobalDirTargets(Root, repo, "faker.min.js");
    assert repo + ["build"] + ["faker.js"] == repo + ["build", "faker.js"];
    assert repo + ["build"] + ["faker.min.js"] == repo + ["build", "faker.min.js"];
    GlobalLayoutFrom(Root, GlobalDirs(Root), repo, repo + ["build"]);
  }

  /** The older script, run from `build/`, writes them into `build/build/`
      and into the same examples directory. */
  lemma LegacyGlobalOutputs(repo: seq<string>)
    ensures Place(repo + ["build"], GlobalBundle(Legacy, repo + ["build"]))
         == GlobalLayout(repo + ["build", "build"], repo, Bundle(repo + ["index.js"], Standalone))
  {
    GlobalEntries(Legacy, repo);
    PlainLiterals();
    GlobalDirTargets(Legacy, repo, "faker.js");
    GlobalDirTargets(Legacy, repo, "faker.min.js");
    assert repo + ["build", "build"] + ["faker.js"] == repo + ["build", "build", "faker.js"];
    assert repo + ["build", "build"] + ["faker.min.js"] == repo + ["build", "build", "faker.min.js"];
    GlobalLayoutFrom(Legacy, GlobalDirs(Legacy), repo, repo + ["build", "build"]);
  }

  /** The output root the root script evidently means for its global
      bundle: the one its per-locale bundles and the older script use. */
  function CorrectedGlobalDirs(): seq<string> {
    [Repo(Root) + Join(["build", "build"]), Repo(Root) + Join(["examples", "browser", "js"])]
  }

  /** Writing into `./build/build` instead puts the root script's global
      bundle exactly where the older script puts it, beside the per-locale
      bundles. */
  lemma CorrectedGlobalOutputs(repo: seq<string>)
    ensures Place(repo, GlobalBundleTo(Root, CorrectedGlobalDirs(), repo))
         == GlobalLayout(repo + ["build", "build"], repo, Bundle(repo + ["index.js"], Standalone))
    ensures Place(repo, GlobalBundleTo(Root, CorrectedGlobalDirs(), repo))
         == Place(repo + ["build"], GlobalBundle(Legacy, repo + ["build"]))
  {
    GlobalEntries(Root, repo);
    PlainLiterals();
    CorrectedGlobalDirTargets(repo, "faker.js");
    CorrectedGlobalDirTargets(repo, "faker.min.js");
    assert repo + ["build", "build"] + ["faker.js"] == repo + ["build", "build", "faker.js"];
    assert repo + ["build", "build"] + ["faker.min.js"] == repo + ["build", "build", "faker.min.js"];
    GlobalLayoutFrom(Root, CorrectedGlobalDirs(), repo, repo + ["build", "build"]);
    LegacyGlobalOutputs(repo);
  }

  /** As written, the root script's `faker.js` lands in `build/`, outside
      the output root `build/build/` that holds its per-locale bundles. */
  lemma RootGlobalOutsideOutRoot(repo: seq<string>, locale: string)
    requires Plain(locale)
    ensures var g := Place(repo, GlobalBundle(Root, repo));
      |g| == 4 && g[0].path == repo + ["build", "faker.js"] && !(repo + ["build", "build"] <= g[0].path)
    ensures var l := Place(repo, LocaleBundle(Root, repo, locale));
      |l| == 4 && repo + ["build", "build"] <= l[0].path
  {
    RootGlobalFirst(repo);
    RootLocaleFirst(repo, locale);
    OutsideBuildBuild(repo, Place(repo, GlobalBundle(Root, repo))[0].path);
    InsideBuildBuild(repo, locale, Place(repo, LocaleBundle(Root, repo, locale))[0].path);
  }

  lemma OutsideBuildBuild(repo: seq<string>, p: seq<string>)
    requires p == repo + ["build", "faker.js"]
    ensures !(repo + ["build", "build"] <= p)
  {
    assert p[|repo| + 1] == "faker.js";
    assert (repo + ["build", "build"])[|repo| + 1] == "build";
  }

  lemma InsideBuildBuild(repo: seq<string>, locale: string, p: seq<string>)
    requires p == repo + ["build", "build", "locales", locale, "faker." + locale + ".js"]
    ensures repo + ["build", "build"] <= p
  {
    assert p[..|repo| + 2] == repo + ["build", "build"];
  }

  lemma RootGlobalFirst(repo: seq<string>)
    ensures var g := Place(repo, GlobalBundle(Root, repo));
      |g| == 4 && g[0].path == repo + ["build", "faker.js"]
  {
    RootGlobalOutputs(repo);
  }

  lemma RootLocaleFirst(repo: seq<string>, locale: string)
    requires Plain(locale)
    ensures var l := Place(repo, LocaleBundle(Root, repo, locale));
      |l| == 4 && l[0].path == repo + ["build", "build", "locales", locale, "faker." + locale + ".js"]
  {
    RootLocaleOutputs(repo, locale);
  }

  // ----- the per-locale bundles -----

  /** Both locale directories of a script, resolved from where its locale
      tasks run. */
  lemma LocaleDirTargets(script: Script, repo: seq<string>, locale: string, name: string)
    requires Plain(locale) && Plain(name)
    ensures Locate(LocaleTaskDir(script, repo), LocaleDirs(script, locale)[0] + "/" + name)
         == repo + ["build", "build", "locales", locale, name]
    ensures Locate(LocaleTaskDir(script, repo), LocaleDirs(script, locale)[1] + "/" + name)
         == repo + ["examples", "browser", "locales", locale, name]
  {
    var here := LocaleTaskDir(script, repo);
    var out := ["build", "build", "locales", locale];
    var ex := ["examples", "browser", "locales", locale];
    RunsInDirs(script, repo);
    PlainLiterals();
    InRepo(script, repo, here, out, name);
    InRepoDir(script, repo, here, ex, name);
    assert repo + out + [name] == repo + ["build", "build", "locales", locale, name];
    assert repo + ex + [name] == repo + ["examples", "browser", "locales", locale, name];
  }

  /** The per-locale bundle writes of a script, placed from the directory
      its locale tasks run in, land in the intended layout whatever they
      bundle. */
  lemma LocalePlaced(script: Script, entry: string, repo: seq<string>, locale: string)
    requires Plain(locale)
    ensures var cwd := LocaleTaskDir(script, repo);
      Place(cwd, LocaleBundleFrom(script, entry, cwd, locale))
        == LocaleLayout(repo, locale, Bundle(Locate(cwd, entry), Standalone))
  {
    var cwd := LocaleTaskDir(script, repo);
    var ws := LocaleBundleFrom(script, entry, cwd, locale);
    LocaleFileNames(locale);
    LocaleBundleWrites(script, entry, cwd, locale);
    PlaceFour(cwd, ws);
    LocaleDirTargets(script, repo, locale, "faker." + locale + ".js");
    LocaleDirTargets(script, repo, locale, "faker." + locale + ".min.js");
  }

  /** The root script's locale bundles land in the intended layout, but
      every one of them holds the bundle of `index.js`. */
  lemma RootLocaleOutputs(repo: seq<string>, locale: string)
    requires Plain(locale)
    ensures Place(repo, LocaleBundle(Root, repo, locale))
         == LocaleLayout(repo, locale, Bundle(repo + ["index.js"], Standalone))
  {
    LocalePlaced(Root, LocaleEntry(Root, locale), repo, locale);
    GlobalEntries(Root, repo);
  }

  /** The older script's locale bundles land in the same files, each
      holding the bundle of that locale's shim. */
  lemma LegacyLocaleOutputs(repo: seq<string>, locale: string)
    requires Plain(locale)
    ensures Place(repo + ["locale"], LocaleBundle(Legacy, repo + ["locale"], locale))
         == LocaleLayout(repo, locale, Bundle(repo + ["locale", locale + ".js"], Standalone))
  {
    var cwd := repo + ["locale"];
    var entry := LocaleEntry(Legacy, locale);
    assert LocaleTaskDir(Legacy, repo) == cwd by {
      LocaleTaskDirs(repo);
    }
    assert Place(cwd, LocaleBundleFrom(Legacy, entry, cwd, locale))
        == LocaleLayout(repo, locale, Bundle(Locate(cwd, entry), Standalone)) by {
      LocalePlaced(Legacy, entry, repo, locale);
    }
    assert Locate(cwd, entry) == repo + ["locale", locale + ".js"] by {
      LegacyShimEntry(cwd, locale);
      assert cwd + [locale + ".js"] == repo + ["locale", locale + ".js"];
    }
  }

  /** The older script names each shim from the `locale/` directory. */
  lemma LegacyShimEntry(cwd: seq<string>, locale: string)
    requires NoSlash(locale)
    ensures Locate(cwd, LocaleEntry(Legacy, locale)) == cwd + [locale + ".js"]
  {
    LocaleFileNames(locale);
    assert LocaleEntry(Legacy, locale) == "./" + (locale + ".js");
    LocateHere(cwd, locale + ".js");
    LocateName(cwd, locale + ".js");
  }

  /** The shim of `locale`, named from the repository. */
  lemma ShimEntry(repo: seq<string>, locale: string)
    requires NoSlash(locale)
    ensures Locate(repo, LocaleSourceName(Root, locale)) == repo + ["locale", locale + ".js"]
  {
    LocaleFileNames(locale);
    assert Plain("locale");
    assert LocaleSourceName(Root, locale) == "./" + ("locale" + "/" + (locale + ".js"));
    LocateHere(repo, "locale" + "/" + (locale + ".js"));
    LocateSegment(repo, "locale", locale + ".js");
    LocateName(repo + ["locale"], locale + ".js");
    assert repo + ["locale"] + [locale + ".js"] == repo + ["locale", locale + ".js"];
  }

  /** Bundling the shim the stream is already named after makes the root
      script write exactly what the older one writes. */
  lemma CorrectedLocaleOutputs(repo: seq<string>, locale: string)
    requires Plain(locale)
    ensures Place(repo, CorrectedLocaleBundle(repo, locale))
         == LocaleLayout(repo, locale, Bundle(repo + ["locale", locale + ".js"], Standalone))
    ensures Place(repo, CorrectedLocaleBundle(repo, locale))
         == Place(repo + ["locale"], LocaleBundle(Legacy, repo + ["locale"], locale))
  {
    LocalePlaced(Root, LocaleSourceName(Root, locale), repo, locale);
    ShimEntry(repo, locale);
    LegacyLocaleOutputs(repo, locale);
  }

  /** As written, the root script's bundles for two locales hold the same
      contents, file for file. */
  lemma RootLocaleBundlesAlike(cwd: seq<string>, a: string, b: string)
    ensures |LocaleBundle(Root, cwd, a)| == |LocaleBundle(Root, cwd, b)| == 4
    ensures forall i :: 0 <= i < 4 ==> LocaleBundle(Root, cwd, a)[i].contents == LocaleBundle(Root, cwd, b)[i].contents
  {
    var entry := GlobalEntry(Root);
    assert LocaleEntry(Root, a) == entry == LocaleEntry(Root, b);
    LocaleBundleContents(Root, entry, cwd, a);
    LocaleBundleContents(Root, entry, cwd, b);
    ContentsAlike(LocaleBundleFrom(Root, entry, cwd, a), LocaleBundleFrom(Root, entry, cwd, b),
                  Bundle(Locate(cwd, entry), Standalone));
  }

  /** Corrected, bundles for different locales differ in every file, as
      the older script's do. */
  lemma CorrectedLocaleBundlesDiffer(cwd: seq<string>, a: string, b: string)
    requires NoSlash(a) && NoSlash(b) && a != b
    ensures |CorrectedLocaleBundle(cwd, a)| == |CorrectedLocaleBundle(cwd, b)| == 4
    ensures forall i :: 0 <= i < 4 ==> CorrectedLocaleBundle(cwd, a)[i].contents != CorrectedLocaleBundle(cwd, b)[i].contents
  {
    ShimEntry(cwd, a);
    ShimEntry(cwd, b);
    var ea := cwd + ["locale", a + ".js"];
    var eb := cwd + ["locale", b + ".js"];
    assert ea != eb by {
      assert ea[|cwd| + 1] == a + ".js" && eb[|cwd| + 1] == b + ".js";
      SuffixKeepsApart(a, b, ".js");
    }
    LocaleBundlesApart(Root, LocaleSourceName(Root, a), LocaleSourceName(Root, b), cwd, a, b);
  }

  /** The older script's bundles for different locales differ in every
      file. */
  lemma LegacyLocaleBundlesDiffer(cwd: seq<string>, a: string, b: string)
    requires NoSlash(a) && NoSlash(b) && a != b
    ensures |LocaleBundle(Legacy, cwd, a)| == |LocaleBundle(Legacy, cwd, b)| == 4
    ensures forall i :: 0 <= i < 4 ==> LocaleBundle(Legacy, cwd, a)[i].contents != LocaleBundle(Legacy, cwd, b)[i].contents
  {
    LegacyShimEntry(cwd, a);
    LegacyShimEntry(cwd, b);
    var ea := cwd + [a + ".js"];
    var eb := cwd + [b + ".js"];
    assert ea != eb by {
      assert ea[|cwd|] == a + ".js" && eb[|cwd|] == b + ".js";
      SuffixKeepsApart(a, b, ".js");
    }
    LocaleBundlesApart(Legacy, LocaleEntry(Legacy, a), LocaleEntry(Legacy, b), cwd, a, b);
  }
}
