/** The `nodeLocalRequires` task: for every locale key a small generated
    module that builds a package instance for that locale, attaches the
    locale's data and the fallback's, and exports the instance. */
module Shim {
  import opened Build
  import opened Text
  import opened Paths

  /** The fallback locale every shim configures and attaches. */
  const Fallback: string := "en"

  const ExportLine: string := "module['exports'] = faker;"

  /** The line that attaches the data of `locale` to the instance. */
  function AttachLine(locale: string): string {
    "faker.locales['" + locale + "'] = require('../lib/locales/" + locale + "');"
  }

  /** The line that constructs the instance for `locale` with the fallback. */
  function ConfigLine(script: Script, locale: string): string {
    Declare(script) + "faker = new Faker({ locale: '" + locale + "', localeFallback: 'en' });"
  }

  /** `var ` in the root script, `const ` in the older one. */
  function Declare(script: Script): string {
    match script
    case Root => "var "
    case Legacy => "const "
  }

  /** The lines of the generated module: the template literal of each
      script with the locale key spliced in. */
  function ShimLines(script: Script, locale: string): (r: seq<string>)
    ensures |r| == (if script == Root then 5 else 6)
    ensures r[1] == ConfigLine(script, locale)
    ensures r[2] == AttachLine(locale) && r[3] == AttachLine(Fallback)
    ensures r[|r| - 1] == ExportLine
    ensures script == Legacy ==> r[4] == ""
  {
    var body := [ Declare(script) + "Faker = require('../lib');",
                  ConfigLine(script, locale),
                  AttachLine(locale),
                  AttachLine(Fallback) ];
    match script
    case Root => body + [ExportLine]
    case Legacy => body + ["", ExportLine]
  }

  /** The generated module text; the template closes its last line with a
      line break, so every line is terminated and the text ends with the
      export. */
  function ShimText(script: Script, locale: string): (r: string)
    ensures EndsWith(r, ExportLine + "\n")
  {
    var ls := ShimLines(script, locale);
    UnlinesEndsWith(ls[..|ls| - 1], [ls[|ls| - 1]]);
    assert ls[..|ls| - 1] + [ls[|ls| - 1]] == ls;
    assert Unlines([ExportLine]) == ExportLine + "\n";
    Unlines(ls)
  }

  /** Whatever the key, the text holds the configuration line and both
      attach lines, each as a whole line, and ends with the export; the
      older template puts a blank line right before the export. */
  lemma ShimTextContains(script: Script, locale: string)
    ensures Contains(ShimText(script, locale), ConfigLine(script, locale) + "\n")
    ensures Contains(ShimText(script, locale), AttachLine(locale) + "\n")
    ensures Contains(ShimText(script, locale), AttachLine(Fallback) + "\n")
    ensures EndsWith(ShimText(script, locale), ExportLine + "\n")
    ensures script == Legacy ==>
      EndsWith(ShimText(script, locale), AttachLine(Fallback) + "\n" + "\n" + ExportLine + "\n")
  {
    var ls := ShimLines(script, locale);
    UnlinesContains(ls, 1);
    UnlinesContains(ls, 2);
    UnlinesContains(ls, 3);
    if script == Legacy {
      LegacyShimEnding(locale);
    }
  }

  lemma LegacyShimEnding(locale: string)
    ensures EndsWith(ShimText(Legacy, locale), AttachLine(Fallback) + "\n" + "\n" + ExportLine + "\n")
  {
    var ls := ShimLines(Legacy, locale);
    var x, z := AttachLine(Fallback), ExportLine;
    assert ls == ls[..3] + [x, "", z];
    UnlinesEndsWithThree(ls[..3], x, "", z);
    assert x + "\n" + "" + "\n" + z + "\n" == x + "\n" + "\n" + z + "\n";
  }

  lemma AttachLineNoNewline(locale: string)
    requires NoNewline(locale)
    ensures NoNewline(AttachLine(locale))
  {
    var a, b, c := "faker.locales['", "'] = require('../lib/locales/", "');";
    assert NoNewline(a) && NoNewline(b) && NoNewline(c);
    NoNewlineConcat(a, locale);
    NoNewlineConcat(a + locale, b);
    NoNewlineConcat(a + locale + b, locale);
    NoNewlineConcat(a + locale + b + locale, c);
  }

  lemma ConfigLineNoNewline(script: Script, locale: string)
    requires NoNewline(locale)
    ensures NoNewline(ConfigLine(script, locale))
  {
    var a, b := Declare(script) + "faker = new Faker({ locale: '", "', localeFallback: 'en' });";
    assert NoNewline(a) && NoNewline(b);
    NoNewlineConcat(a, locale);
    NoNewlineConcat(a + locale, b);
  }

  /** Read back line by line, the shim is exactly its template's lines,
      whenever the key holds no line break. */
  lemma ShimTextLines(script: Script, locale: string)
    requires NoNewline(locale)
    ensures Lines(ShimText(script, locale)) == ShimLines(script, locale)
  {
    var ls := ShimLines(script, locale);
    AttachLineNoNewline(locale);
    AttachLineNoNewline(Fallback);
    ConfigLineNoNewline(script, locale);
    assert NoNewline(ls[0]) && NoNewline(ExportLine) && NoNewline("");
    assert AllNoNewline(ls);
    LinesOfUnlines(ls);
  }

  /** Every shim configures its own locale with the `en` fallback, attaches
      both locales' data, and exports the instance on its last line; the
      older script leaves a blank line before the export. */
  lemma ShimAttachesBoth(script: Script, locale: string)
    requires NoNewline(locale)
    ensures ConfigLine(script, locale) in Lines(ShimText(script, locale))
    ensures AttachLine(locale) in Lines(ShimText(script, locale))
    ensures AttachLine(Fallback) in Lines(ShimText(script, locale))
    ensures Lines(ShimText(script, locale))[|Lines(ShimText(script, locale))| - 1] == ExportLine
    ensures script == Legacy ==> Lines(ShimText(script, locale))[|Lines(ShimText(script, locale))| - 2] == ""
  {
    ShimTextLines(script, locale);
  }

  /** Different keys give different attach lines. */
  lemma AttachLineInjective(a: string, b: string)
    requires AttachLine(a) == AttachLine(b)
    ensures a == b
  {
    var p := "faker.locales['";
    assert |AttachLine(a)| == 2 * |a| + |AttachLine("")|;
    assert |AttachLine(b)| == 2 * |b| + |AttachLine("")|;
    assert a == AttachLine(a)[|p|..|p| + |a|];
    assert b == AttachLine(b)[|p|..|p| + |b|];
  }

  /** Apart from the two attach lines, no line of a shim opens with `f`. */
  lemma OtherLines(script: Script, locale: string)
    ensures forall k :: 0 <= k < |ShimLines(script, locale)| && k != 2 && k != 3 ==>
      ShimLines(script, locale)[k] == "" || ShimLines(script, locale)[k][0] != 'f'
  {
    var ls := ShimLines(script, locale);
    forall k | 0 <= k < |ls| && k != 2 && k != 3 ensures ls[k] == "" || ls[k][0] != 'f' {
      if k < 2 {
        assert ls[k][0] == Declare(script)[0];
      } else if k == |ls| - 1 {
        assert ls[k] == ExportLine;
      }
    }
  }

  lemma AttachLineCount(script: Script, locale: string)
    ensures multiset(ShimLines(script, locale))[AttachLine(locale)] == if locale == Fallback then 2 else 1
  {
    var ls := ShimLines(script, locale);
    var x := AttachLine(locale);
    assert x[0] == 'f';
    OtherLines(script, locale);
    if locale == Fallback {
      CountTwo(ls, x, 2);
    } else {
      if ls[3] == x {
        AttachLineInjective(locale, Fallback);
      }
      CountOne(ls, x, 2);
    }
  }

  /** A shim attaches its own locale's data once, and twice when the
      locale is the fallback itself, whose data is attached again. */
  lemma ShimAttachCount(script: Script, locale: string)
    requires NoNewline(locale)
    ensures multiset(Lines(ShimText(script, locale)))[AttachLine(locale)] == if locale == Fallback then 2 else 1
  {
    ShimTextLines(script, locale);
    AttachLineCount(script, locale);
  }

  /** The file a shim is written to, `path.normalize` of the script's
      template path below `dirname` (the script's own directory). */
  function ShimPath(script: Script, dirname: string, locale: string): (r: string)
    ensures r != ""
    ensures r[0] == '/' <==> (dirname == "" || dirname[0] == '/')
  {
    match script
    case Root => Normalize(dirname + "/locale/" + locale + ".js")
    case Legacy => Normalize(dirname + "/../locale/" + locale + ".js")
  }

  lemma ShimFileName(locale: string)
    requires NoSlash(locale)
    ensures AllPlain(["locale", locale + ".js"])
    ensures Join(["locale", locale + ".js"]) == "locale/" + locale + ".js"
  {
    var f := locale + ".js";
    assert NoSlash(f) by {
      forall i | 0 <= i < |f| ensures f[i] != '/' {
        if i < |locale| { assert f[i] == locale[i]; }
      }
    }
  }

  /** The root script writes the shim of `locale` to `locale/<key>.js` below
      its own directory. */
  lemma RootShimPath(dir: seq<string>, locale: string)
    requires dir != [] && AllPlain(dir) && NoSlash(locale)
    ensures ShimPath(Root, AbsPath(dir), locale) == AbsPath(dir + ["locale", locale + ".js"])
  {
    var file := ["locale", locale + ".js"];
    assert AbsPath(dir + file) == AbsPath(dir) + "/locale/" + locale + ".js" by {
      RootShimText(dir, locale);
    }
    assert Normalize(AbsPath(dir + file)) == AbsPath(dir + file) by {
      ShimFileName(locale);
      AllPlainAppend(dir, file);
      NormalizeAbsPath(dir + file);
    }
  }

  lemma RootShimText(dir: seq<string>, locale: string)
    requires dir != [] && NoSlash(locale)
    ensures AbsPath(dir + ["locale", locale + ".js"]) == AbsPath(dir) + "/locale/" + locale + ".js"
  {
    var file := ["locale", locale + ".js"];
    ShimFileName(locale);
    JoinAppend(dir, file);
    calc {
      AbsPath(dir + file);
      "/" + (Join(dir) + "/" + ("locale/" + locale + ".js"));
      AbsPath(dir) + "/locale/" + locale + ".js";
    }
  }

  /** The older script writes it to `locale/<key>.js` beside its own
      directory. */
  lemma LegacyShimPath(dir: seq<string>, locale: string)
    requires dir != [] && AllPlain(dir) && NoSlash(locale)
    ensures ShimPath(Legacy, AbsPath(dir), locale) == AbsPath(dir[..|dir| - 1] + ["locale", locale + ".js"])
  {
    ShimFileName(locale);
    NormalizeParent(dir, ["locale", locale + ".js"]);
    assert AbsPath(dir) + "/../" + ("locale/" + locale + ".js") == AbsPath(dir) + "/../locale/" + locale + ".js";
  }

  /** Run from `build/`, the older script targets the same file for each
      shim as the root script run from the repository root. */
  lemma ShimPathsAgree(repo: seq<string>, locale: string)
    requires repo != [] && AllPlain(repo) && NoSlash(locale)
    ensures ShimPath(Legacy, AbsPath(repo + ["build"]), locale) == ShimPath(Root, AbsPath(repo), locale)
  {
    AllPlainAppend(repo, ["build"]);
    LegacyShimPath(repo + ["build"], locale);
    RootShimPath(repo, locale);
    assert (repo + ["build"])[..|repo|] == repo;
  }

  /** Different keys get different shim files, so no write of
      `nodeLocalRequires` overwrites the shim of another key. */
  lemma ShimPathInjective(script: Script, dir: seq<string>, a: string, b: string)
    requires dir != [] && AllPlain(dir) && NoSlash(a) && NoSlash(b)
    requires ShimPath(script, AbsPath(dir), a) == ShimPath(script, AbsPath(dir), b)
    ensures a == b
  {
    var base := if script == Root then dir else dir[..|dir| - 1];
    var x, y := base + ["locale", a + ".js"], base + ["locale", b + ".js"];
    if script == Root {
      RootShimPath(dir, a);
      RootShimPath(dir, b);
    } else {
      LegacyShimPath(dir, a);
      LegacyShimPath(dir, b);
    }
    assert AllPlain(base);
    ShimFileName(a);
    ShimFileName(b);
    AllPlainAppend(base, ["locale", a + ".js"]);
    AllPlainAppend(base, ["locale", b + ".js"]);
    AllPlainSlashFree(x);
    AllPlainSlashFree(y);
    AbsPathInjective(x, y);
    assert a + ".js" == x[|x| - 1] == y[|y| - 1] == b + ".js";
    assert a == (a + ".js")[..|a|] == (b + ".js")[..|b|] == b;
  }
}
