/** The two text fragments the `documentation` task hands to the template:
    `LOCALES`, one bullet per locale key, and `API`, a bullet tree of the
    package's exported modules and their methods. */
module Docs {
  import opened Build
  import opened Text
  import opened StringOrder

  /** Properties of the loaded package that are not part of its API. */
  const Ignored: seq<string> := ["locale", "localeFallback", "definitions", "locales"]

  /** The loaded package: each own key, in `Object.keys` order, with the
      keys a `for...in` over its value enumerates. */
  type Package = seq<(string, seq<string>)>

  /** `Object.keys(faker)`. */
  function Exported(pkg: Package): (r: seq<string>)
    ensures |r| == |pkg|
    ensures forall i :: 0 <= i < |pkg| ==> r[i] == pkg[i].0
  {
    if pkg == [] then [] else [pkg[0].0] + Exported(pkg[1..])
  }

  /** The keys enumerated over `faker[key]`; a key the package does not
      have enumerates nothing. */
  function Members(pkg: Package, key: string): seq<string> {
    if pkg == [] then []
    else if pkg[0].0 == key then pkg[0].1
    else Members(pkg[1..], key)
  }

  lemma {:induction false} MembersOfEntry(pkg: Package, i: int)
    requires Distinct(Exported(pkg))
    requires 0 <= i < |pkg|
    ensures Members(pkg, pkg[i].0) == pkg[i].1
  {
    if i > 0 {
      assert Exported(pkg)[0] != Exported(pkg)[i];
      assert Exported(pkg[1..]) == Exported(pkg)[1..];
      MembersOfEntry(pkg[1..], i - 1);
    }
  }

  function LocaleLine(locale: string): string {
    " * " + locale
  }

  function LocaleLines(locales: seq<string>): (r: seq<string>)
    ensures |r| == |locales|
    ensures forall i :: 0 <= i < |locales| ==> r[i] == LocaleLine(locales[i])
  {
    if locales == [] then [] else [LocaleLine(locales[0])] + LocaleLines(locales[1..])
  }

  /** The `LOCALES` loop as written: one ` * L` line appended per key. */
  method LocalesFragment(locales: seq<string>) returns (text: string)
    ensures text == Unlines(LocaleLines(locales))
    ensures AllNoNewline(locales) ==> Lines(text) == LocaleLines(locales)
  {
    text := "";
    for i := 0 to |locales|
      invariant text == Unlines(LocaleLines(locales[..i]))
    {
      LocaleLineStep(locales, i);
      text := text + " * " + locales[i] + "\n";
    }
    assert locales[..|locales|] == locales;
    if AllNoNewline(locales) {
      LocaleLinesRead(locales);
    }
  }

  /** One more key appends its line to the fragment. */
  lemma LocaleLineStep(locales: seq<string>, i: nat)
    requires i < |locales|
    ensures Unlines(LocaleLines(locales[..i + 1]))
         == Unlines(LocaleLines(locales[..i])) + " * " + locales[i] + "\n"
  {
    assert LocaleLines(locales[..i + 1]) == LocaleLines(locales[..i]) + [LocaleLine(locales[i])];
    UnlinesAppend(LocaleLines(locales[..i]), [LocaleLine(locales[i])]);
    assert Unlines([LocaleLine(locales[i])]) == LocaleLine(locales[i]) + "\n";
  }

  /** Read back line by line, the fragment is one line per key. */
  lemma LocaleLinesRead(locales: seq<string>)
    requires AllNoNewline(locales)
    ensures Lines(Unlines(LocaleLines(locales))) == LocaleLines(locales)
  {
    assert AllNoNewline(LocaleLines(locales)) by {
      forall k | 0 <= k < |locales| ensures NoNewline(LocaleLines(locales)[k]) {
        assert NoNewline(locales[k]);
        NoNewlineConcat(" * ", locales[k]);
      }
    }
    LinesOfUnlines(LocaleLines(locales));
  }

  /** The exported keys the API tree lists, in the order it lists them:
      sorted, with the ignored properties skipped. */
  function Documented(pkg: Package): (r: seq<string>)
    ensures Sorted(r)
    ensures forall k :: k in r <==> k in Exported(pkg) && k !in Ignored
    ensures forall k :: multiset(r)[k] == if k in Ignored then 0 else multiset(Exported(pkg))[k]
  {
    var keys := Sort(Exported(pkg));
    WithoutContents(keys, Ignored);
    WithoutSorted(keys, Ignored);
    assert forall k :: k in keys <==> k in multiset(Exported(pkg));
    Without(keys, Ignored)
  }

  lemma {:induction false} WithoutSorted(s: seq<string>, excluded: seq<string>)
    requires Sorted(s)
    ensures Sorted(Without(s, excluded))
  {
    if s != [] {
      WithoutSorted(s[1..], excluded);
      WithoutContents(s[1..], excluded);
      var rest := Without(s[1..], excluded);
      forall j | 0 <= j < |rest| ensures Le(s[0], rest[j]) {
        assert rest[j] in s[1..];
      }
    }
  }

  function MethodLine(method_: string): string {
    "  * " + method_
  }

  function MethodLines(methods: seq<string>): (r: seq<string>)
    ensures |r| == |methods|
    ensures forall i :: 0 <= i < |methods| ==> r[i] == MethodLine(methods[i])
  {
    if methods == [] then [] else [MethodLine(methods[0])] + MethodLines(methods[1..])
  }

  function ModuleLine(key: string): string {
    "* " + key
  }

  /** A module's line followed by its method lines. */
  function ModuleLines(pkg: Package, key: string): seq<string> {
    [ModuleLine(key)] + MethodLines(Members(pkg, key))
  }

  function ModuleBlocks(pkg: Package, keys: seq<string>): seq<string> {
    if keys == [] then [] else ModuleLines(pkg, keys[0]) + ModuleBlocks(pkg, keys[1..])
  }

  lemma {:induction false} ModuleBlocksAppend(pkg: Package, a: seq<string>, b: seq<string>)
    ensures ModuleBlocks(pkg, a + b) == ModuleBlocks(pkg, a) + ModuleBlocks(pkg, b)
  {
    if a == [] {
      assert a + b == b;
    } else {
      assert (a + b)[0] == a[0];
      assert (a + b)[1..] == a[1..] + b;
      ModuleBlocksAppend(pkg, a[1..], b);
    }
  }

  /** The lines of the API tree. */
  function ApiLines(pkg: Package): seq<string> {
    ModuleBlocks(pkg, Documented(pkg))
  }

  /** The body of the `forEach` callback for a kept key: the module line,
      then one line per method in enumeration order. */
  method AppendModule(pkg: Package, text: string, module_: string) returns (text': string)
    ensures text' == text + Unlines(ModuleLines(pkg, module_))
  {
    text' := text + "* " + module_ + "\n";
    assert Unlines([ModuleLine(module_)]) == ModuleLine(module_) + "\n";
    var methods := Members(pkg, module_);
    for j := 0 to |methods|
      invariant text' == text + Unlines([ModuleLine(module_)] + MethodLines(methods[..j]))
    {
      MethodLineStep(ModuleLine(module_), methods, j);
      text' := text' + "  * " + methods[j] + "\n";
    }
    assert methods[..|methods|] == methods;
  }

  /** One more method appends its line to the module's text. */
  lemma MethodLineStep(head: string, methods: seq<string>, j: nat)
    requires j < |methods|
    ensures Unlines([head] + MethodLines(methods[..j + 1]))
         == Unlines([head] + MethodLines(methods[..j])) + "  * " + methods[j] + "\n"
  {
    var before := [head] + MethodLines(methods[..j]);
    assert MethodLines(methods[..j + 1]) == MethodLines(methods[..j]) + [MethodLine(methods[j])];
    assert [head] + MethodLines(methods[..j + 1]) == before + [MethodLine(methods[j])];
    UnlinesAppend(before, [MethodLine(methods[j])]);
    assert Unlines([MethodLine(methods[j])]) == MethodLine(methods[j]) + "\n";
  }

  /** The `API` loop as written: the sorted keys, an ignored one skipped,
      every other one a module line and then one line per method. */
  method ApiFragment(pkg: Package) returns (text: string)
    ensures text == Unlines(ApiLines(pkg))
    ensures SingleLineNames(pkg) ==> Lines(text) == ApiLines(pkg)
  {
    var keys := Sort(Exported(pkg));
    text := "";
    for i := 0 to |keys|
      invariant text == Unlines(ModuleBlocks(pkg, Without(keys[..i], Ignored)))
    {
      ApiStep(pkg, keys, i);
      var module_ := keys[i];
      if module_ in Ignored {
        continue;
      }
      text := AppendModule(pkg, text, module_);
    }
    assert keys[..|keys|] == keys;
    if SingleLineNames(pkg) {
      ApiLinesSingle(pkg, Documented(pkg));
      LinesOfUnlines(ApiLines(pkg));
    }
  }

  /** One more sorted key adds nothing when it is ignored, and its module's
      lines otherwise. */
  lemma ApiStep(pkg: Package, keys: seq<string>, i: nat)
    requires i < |keys|
    ensures keys[i] in Ignored ==> Without(keys[..i + 1], Ignored) == Without(keys[..i], Ignored)
    ensures keys[i] !in Ignored ==>
      Unlines(ModuleBlocks(pkg, Without(keys[..i + 1], Ignored)))
      == Unlines(ModuleBlocks(pkg, Without(keys[..i], Ignored))) + Unlines(ModuleLines(pkg, keys[i]))
  {
    var done := Without(keys[..i], Ignored);
    var module_ := keys[i];
    assert keys[..i + 1] == keys[..i] + [module_];
    WithoutAppend(keys[..i], [module_], Ignored);
    if module_ in Ignored {
      assert Without([module_], Ignored) == [];
    } else {
      assert Without([module_], Ignored) == [module_];
      ModuleBlocksAppend(pkg, done, [module_]);
      assert ModuleBlocks(pkg, [module_]) == ModuleLines(pkg, module_);
      UnlinesAppend(ModuleBlocks(pkg, done), ModuleLines(pkg, module_));
    }
  }

  /** No key and no member name holds a line break. */
  predicate SingleLineNames(pkg: Package) {
    forall i :: 0 <= i < |pkg| ==> NoNewline(pkg[i].0) && AllNoNewline(pkg[i].1)
  }

  lemma {:induction false} MembersSingle(pkg: Package, key: string)
    requires SingleLineNames(pkg)
    ensures AllNoNewline(Members(pkg, key))
  {
    if pkg != [] && pkg[0].0 != key {
      assert SingleLineNames(pkg[1..]) by {
        forall i | 0 <= i < |pkg[1..]| ensures NoNewline(pkg[1..][i].0) && AllNoNewline(pkg[1..][i].1) {
          assert pkg[1..][i] == pkg[i + 1];
        }
      }
      MembersSingle(pkg[1..], key);
    }
  }

  lemma {:induction false} ApiLinesSingle(pkg: Package, keys: seq<string>)
    requires SingleLineNames(pkg)
    requires forall k :: k in keys ==> k in Exported(pkg)
    ensures AllNoNewline(ModuleBlocks(pkg, keys))
  {
    if keys != [] {
      var k := keys[0];
      assert k in Exported(pkg);
      var i :| 0 <= i < |pkg| && Exported(pkg)[i] == k;
      assert NoNewline(pkg[i].0);
      NoNewlineConcat("* ", k);
      var ms := Members(pkg, k);
      MembersSingle(pkg, k);
      var block := ModuleLines(pkg, k);
      assert AllNoNewline(block) by {
        forall n | 0 <= n < |block| ensures NoNewline(block[n]) {
          if n > 0 {
            assert block[n] == MethodLine(ms[n - 1]);
            assert NoNewline(ms[n - 1]);
            NoNewlineConcat("  * ", ms[n - 1]);
          }
        }
      }
      ApiLinesSingle(pkg, keys[1..]);
      var rest := ModuleBlocks(pkg, keys[1..]);
      forall n | 0 <= n < |block + rest| ensures NoNewline((block + rest)[n]) {
        if n >= |block| { assert (block + rest)[n] == rest[n - |block|]; }
      }
    }
  }

  /** A line of the API tree that names a module: `* ` and the name. */
  predicate IsModuleLine(line: string) {
    |line| >= 2 && line[0] == '*' && line[1] == ' '
  }

  /** The module name one line announces, if any. */
  function HeadOf(line: string): seq<string> {
    if IsModuleLine(line) then [line[2..]] else []
  }

  /** The module names a list of lines announces, in order. */
  function ModuleHeads(lines: seq<string>): seq<string> {
    if lines == [] then [] else HeadOf(lines[0]) + ModuleHeads(lines[1..])
  }

  lemma {:induction false} ModuleHeadsAppend(a: seq<string>, b: seq<string>)
    ensures ModuleHeads(a + b) == ModuleHeads(a) + ModuleHeads(b)
  {
    if a == [] {
      assert a + b == b;
    } else {
      assert (a + b)[0] == a[0];
      assert (a + b)[1..] == a[1..] + b;
      calc {
        ModuleHeads(a + b);
        HeadOf(a[0]) + ModuleHeads(a[1..] + b);
        { ModuleHeadsAppend(a[1..], b); }
        HeadOf(a[0]) + (ModuleHeads(a[1..]) + ModuleHeads(b));
        ModuleHeads(a) + ModuleHeads(b);
      }
    }
  }

  lemma {:induction false} MethodLinesHaveNoHeads(methods: seq<string>)
    ensures ModuleHeads(MethodLines(methods)) == []
  {
    if methods != [] {
      var ls := MethodLines(methods);
      assert !IsModuleLine(ls[0]);
      assert ls[1..] == MethodLines(methods[1..]);
      MethodLinesHaveNoHeads(methods[1..]);
    }
  }

  lemma {:induction false} ModuleBlocksHeads(pkg: Package, keys: seq<string>)
    ensures ModuleHeads(ModuleBlocks(pkg, keys)) == keys
  {
    if keys != [] {
      var k := keys[0];
      var rest := ModuleBlocks(pkg, keys[1..]);
      calc {
        ModuleHeads(ModuleBlocks(pkg, keys));
        ModuleHeads(ModuleLines(pkg, k) + rest);
        { ModuleHeadsAppend(ModuleLines(pkg, k), rest); }
        ModuleHeads(ModuleLines(pkg, k)) + ModuleHeads(rest);
        { ModuleLinesHead(pkg, k); }
        [k] + ModuleHeads(rest);
        { ModuleBlocksHeads(pkg, keys[1..]); }
        [k] + keys[1..];
        keys;
      }
    }
  }

  /** A module's block announces that module alone. */
  lemma ModuleLinesHead(pkg: Package, k: string)
    ensures ModuleHeads(ModuleLines(pkg, k)) == [k]
  {
    var ms := MethodLines(Members(pkg, k));
    ModuleHeadsAppend([ModuleLine(k)], ms);
    MethodLinesHaveNoHeads(Members(pkg, k));
    assert ModuleLine(k)[2..] == k;
    assert HeadOf(ModuleLine(k)) == [k];
    assert ModuleHeads([ModuleLine(k)]) == HeadOf(ModuleLine(k)) + ModuleHeads([]);
  }

  /** The module lines of the API tree name exactly the exported keys
      outside the ignore list, sorted: an ignored key never gets a line. */
  lemma ApiModules(pkg: Package)
    ensures ModuleHeads(ApiLines(pkg)) == Documented(pkg)
    ensures forall k :: k in ModuleHeads(ApiLines(pkg)) <==> k in Exported(pkg) && k !in Ignored
    ensures Sorted(ModuleHeads(ApiLines(pkg)))
  {
    ModuleBlocksHeads(pkg, Documented(pkg));
  }

  lemma {:induction false} ModuleBlocksAt(pkg: Package, keys: seq<string>, i: int)
    requires 0 <= i < |keys|
    ensures ModuleBlocks(pkg, keys)
         == ModuleBlocks(pkg, keys[..i]) + ModuleLines(pkg, keys[i]) + ModuleBlocks(pkg, keys[i + 1..])
  {
    assert keys == keys[..i] + [keys[i]] + keys[i + 1..];
    ModuleBlocksAppend(pkg, keys[..i] + [keys[i]], keys[i + 1..]);
    ModuleBlocksAppend(pkg, keys[..i], [keys[i]]);
    assert ModuleBlocks(pkg, [keys[i]]) == ModuleLines(pkg, keys[i]);
  }

  /** Every exported module outside the ignore list appears in the API tree
      as its line directly followed by one line per method, in the order the
      package enumerates them. */
  lemma ApiModuleBlock(pkg: Package, j: int)
    requires Distinct(Exported(pkg))
    requires 0 <= j < |pkg| && pkg[j].0 !in Ignored
    ensures exists i :: (
      && 0 <= i < |Documented(pkg)|
      && Documented(pkg)[i] == pkg[j].0
      && ApiLines(pkg) == ModuleBlocks(pkg, Documented(pkg)[..i])
                          + ([ModuleLine(pkg[j].0)] + MethodLines(pkg[j].1))
                          + ModuleBlocks(pkg, Documented(pkg)[i + 1..]))
  {
    var d := Documented(pkg);
    assert pkg[j].0 == Exported(pkg)[j];
    assert pkg[j].0 in d;
    var i :| 0 <= i < |d| && d[i] == pkg[j].0;
    ModuleBlocksAt(pkg, d, i);
    MembersOfEntry(pkg, j);
  }

  /** A package exporting `locales`, `alpha` (methods `foo`, `bar`) and
      `locale`, in that key order. */
  const ExamplePackage: Package := [("locales", ["en"]), ("alpha", ["foo", "bar"]), ("locale", ["0"])]

  lemma ExampleSort()
    ensures Sort(["locales", "alpha", "locale"]) == ["alpha", "locale", "locales"]
  {
    var sorted := ["alpha", "locale", "locales"];
    assert Le("alpha", "locale");
    assert Le("locale", "locales") by {
      assert Le("", "s");
      assert Le("e", "es");
      assert Le("le", "les");
      assert Le("ale", "ales");
      assert Le("cale", "cales");
      assert Le("ocale", "ocales");
    }
    LeTransitive("alpha", "locale", "locales");
    assert Sorted(sorted);
    assert multiset(sorted) == multiset(["locales", "alpha", "locale"]);
    SortCharacterized(["locales", "alpha", "locale"], sorted);
  }

  lemma ExampleDocumented()
    ensures Documented(ExamplePackage) == ["alpha"]
  {
    var sorted := ["alpha", "locale", "locales"];
    assert Without(sorted, Ignored) == ["alpha"] by {
      assert sorted[2..][1..] == [];
      assert Without(sorted[2..], Ignored) == [];
      assert sorted[1..][1..] == sorted[2..];
      assert Without(sorted[1..], Ignored) == [];
      assert "alpha" !in Ignored;
    }
    assert Sort(Exported(ExamplePackage)) == sorted by {
      assert Exported(ExamplePackage) == ["locales", "alpha", "locale"];
      ExampleSort();
    }
  }

  /** The example documents `alpha` alone, its methods in enumeration
      order; `locale` and `locales` are skipped. */
  lemma ApiExample()
    ensures ApiLines(ExamplePackage) == ["* alpha", "  * foo", "  * bar"]
  {
    ExampleBlocks();
    ExampleLines();
  }

  lemma ExampleBlocks()
    ensures ApiLines(ExamplePackage) == [ModuleLine("alpha")] + MethodLines(["foo", "bar"])
  {
    assert ApiLines(ExamplePackage) == ModuleBlocks(ExamplePackage, ["alpha"]) by {
      ExampleDocumented();
    }
    assert Members(ExamplePackage, "alpha") == ["foo", "bar"];
  }

  lemma ExampleLines()
    ensures ModuleLine("alpha") == "* alpha"
    ensures MethodLines(["foo", "bar"]) == ["  * foo", "  * bar"]
  {
    assert MethodLine("foo") == "  * foo";
    assert MethodLine("bar") == "  * bar";
  }
}
