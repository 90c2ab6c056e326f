/** The task graph as data: the `tasks` array each script builds, the
    `local` selection without the publish step, and the sequence of
    `gulp.task` registrations the script performs at load time. */
module Tasks {
  import opened Build

  /** The publish step, the only task `local` leaves out. */
  const Publish: string := "gh-pages"

  /** The five names `tasks` starts with, in both scripts. */
  const FixedTasks: seq<string> :=
    ["documentation", "jsdoc", "nodeLocalRequires", "browser-package", "gh-pages"]

  /** The name under which the bundle task of `locale` is registered. */
  function LocaleTaskName(script: Script, locale: string): string {
    match script
    case Root => "generate-locale-" + locale
    case Legacy => locale + "Task"
  }

  function LocaleTaskNames(script: Script, locales: seq<string>): (r: seq<string>)
    ensures |r| == |locales|
    ensures forall i :: 0 <= i < |locales| ==> r[i] == LocaleTaskName(script, locales[i])
  {
    if locales == [] then []
    else [LocaleTaskName(script, locales[0])] + LocaleTaskNames(script, locales[1..])
  }

  /** The full task list: the fixed names, then one name per locale key in
      key order. */
  function TaskList(script: Script, locales: seq<string>): (r: seq<string>)
    ensures |r| == |FixedTasks| + |locales|
    ensures r[..|FixedTasks|] == FixedTasks
    ensures r[|FixedTasks|..] == LocaleTaskNames(script, locales)
  {
    var names := LocaleTaskNames(script, locales);
    AppendParts(FixedTasks, names);
    FixedTasks + names
  }

  /** The `forEach` over the locale keys as written: its `i > 0` guard has an
      empty body, so every key pushes its task name. */
  method CollectTasks(script: Script, locales: seq<string>) returns (tasks: seq<string>)
    ensures |tasks| == |FixedTasks| + |locales|
    ensures tasks[..|FixedTasks|] == FixedTasks
    ensures forall i :: 0 <= i < |locales| ==> tasks[|FixedTasks| + i] == LocaleTaskName(script, locales[i])
    ensures tasks == TaskList(script, locales)
  {
    tasks := FixedTasks;
    for i := 0 to |locales|
      invariant |tasks| == |FixedTasks| + i
      invariant tasks[..|FixedTasks|] == FixedTasks
      invariant forall k :: 0 <= k < i ==> tasks[|FixedTasks| + k] == LocaleTaskName(script, locales[k])
    {
      if i > 0 {
        // the early return that once limited the fan-out is commented out
      }
      tasks := tasks + [LocaleTaskName(script, locales[i])];
    }
    assert tasks[|FixedTasks|..] == LocaleTaskNames(script, locales);
    assert tasks == tasks[..|FixedTasks|] + tasks[|FixedTasks|..];
  }

  /** `tasks.filter(name => name !== 'gh-pages')`. */
  function WithoutPublish(tasks: seq<string>): (r: seq<string>)
    ensures Publish !in r
    ensures forall t :: t in tasks && t != Publish ==> t in r
    ensures |r| <= |tasks|
  {
    WithoutContents(tasks, [Publish]);
    WithoutShorter(tasks, [Publish]);
    Without(tasks, [Publish])
  }

  /** The filter drops every `gh-pages` and keeps everything else, as
      often as it occurs. */
  lemma {:induction false} WithoutPublishContents(tasks: seq<string>)
    ensures forall t :: t in WithoutPublish(tasks) <==> t in tasks && t != Publish
    ensures multiset(WithoutPublish(tasks)) == multiset(tasks)[Publish := 0]
    ensures |WithoutPublish(tasks)| == |tasks| - multiset(tasks)[Publish]
  {
    var r := WithoutPublish(tasks);
    WithoutContents(tasks, [Publish]);
    assert multiset(r) == multiset(tasks)[Publish := 0];
    if tasks != [] {
      assert tasks == [tasks[0]] + tasks[1..];
      WithoutPublishContents(tasks[1..]);
    }
  }

  /** No locale task is ever named like a fixed task or a run mode. */
  lemma LocaleTaskNameReserved(script: Script, locale: string)
    ensures LocaleTaskName(script, locale) !in FixedTasks + ["local", "default"]
  {
    var n := LocaleTaskName(script, locale);
    match script
    case Root =>
      assert n[2] == 'n';
    case Legacy =>
      assert n[|n| - 1] == 'k';
  }

  lemma LocaleTaskNameInjective(script: Script, a: string, b: string)
    requires LocaleTaskName(script, a) == LocaleTaskName(script, b)
    ensures a == b
  {
    var n := LocaleTaskName(script, a);
    match script
    case Root =>
      assert a == n[16..] == b;
    case Legacy =>
      assert a == n[..|n| - 4] == b;
  }

  lemma {:induction false} LocaleTaskNamesWithoutPublish(script: Script, locales: seq<string>)
    ensures WithoutPublish(LocaleTaskNames(script, locales)) == LocaleTaskNames(script, locales)
  {
    if locales != [] {
      LocaleTaskNameReserved(script, locales[0]);
      LocaleTaskNamesWithoutPublish(script, locales[1..]);
    }
  }

  /** `local` runs the first four fixed tasks and then every locale task:
      only the publish step is dropped, and the order is kept. */
  lemma LocalTaskList(script: Script, locales: seq<string>)
    ensures WithoutPublish(TaskList(script, locales))
         == ["documentation", "jsdoc", "nodeLocalRequires", "browser-package"]
            + LocaleTaskNames(script, locales)
  {
    WithoutAppend(FixedTasks, LocaleTaskNames(script, locales), [Publish]);
    LocaleTaskNamesWithoutPublish(script, locales);
    FixedTasksWithoutPublish();
  }

  lemma FixedTasksWithoutPublish()
    ensures WithoutPublish(FixedTasks) == ["documentation", "jsdoc", "nodeLocalRequires", "browser-package"]
  {
    var f := FixedTasks;
    var ex := [Publish];
    assert f[4] in ex;
    assert f[4..][1..] == [];
    assert Without(f[4..], ex) == [];
    assert f[3..][1..] == f[4..];
    assert Without(f[3..], ex) == [f[3]];
    assert f[2..][1..] == f[3..];
    assert Without(f[2..], ex) == [f[2], f[3]];
    assert f[1..][1..] == f[2..];
    assert Without(f[1..], ex) == [f[1], f[2], f[3]];
  }

  /** Distinct locale keys give a task list without repeated names. */
  lemma TaskListDistinct(script: Script, locales: seq<string>)
    requires Distinct(locales)
    ensures Distinct(TaskList(script, locales))
  {
    var r, names := TaskList(script, locales), LocaleTaskNames(script, locales);
    FixedTasksDistinct();
    LocaleTaskNamesDistinct(script, locales);
    forall k | 0 <= k < |names| ensures names[k] !in FixedTasks + [] {
      LocaleTaskNameReserved(script, locales[k]);
    }
    DistinctSplice(FixedTasks, names, []);
    assert r == r[..|FixedTasks|] + r[|FixedTasks|..] == FixedTasks + names + [];
  }

  lemma FixedTasksDistinct()
    ensures Distinct(FixedTasks + [])
  {
  }

  /** What a registered task does. */
  datatype Job =
    | BrowserPackage
    | GhPages
    | JsDoc
    | Documentation
    | NodeLocalRequires
    | BundleLocale(locale: string)
    | Series(names: seq<string>)

  /** One `gulp.task(name, job)` call. */
  datatype Registration = Registration(name: string, job: Job)

  function LocaleRegistrations(script: Script, locales: seq<string>): (r: seq<Registration>)
    ensures |r| == |locales|
    ensures forall i :: 0 <= i < |locales| ==>
      r[i] == Registration(LocaleTaskName(script, locales[i]), BundleLocale(locales[i]))
  {
    if locales == [] then []
    else
      [Registration(LocaleTaskName(script, locales[0]), BundleLocale(locales[0]))]
      + LocaleRegistrations(script, locales[1..])
  }

  /** The `gulp.task` calls that define single tasks, in script order:
      the four fixed tasks at the top, the locale tasks from the loop, then
      `nodeLocalRequires`. */
  function TaskRegistrations(script: Script, locales: seq<string>): (r: seq<Registration>)
    ensures |r| == 5 + |locales|
    ensures r[..4] == [ Registration("browser-package", BrowserPackage),
                        Registration("gh-pages", GhPages),
                        Registration("jsdoc", JsDoc),
                        Registration("documentation", Documentation) ]
    ensures forall i :: 0 <= i < |locales| ==>
      r[4 + i] == Registration(LocaleTaskName(script, locales[i]), BundleLocale(locales[i]))
    ensures r[|r| - 1] == Registration("nodeLocalRequires", NodeLocalRequires)
    ensures forall i :: 0 <= i < |r| ==> !r[i].job.Series?
  {
    [ Registration("browser-package", BrowserPackage),
      Registration("gh-pages", GhPages),
      Registration("jsdoc", JsDoc),
      Registration("documentation", Documentation) ]
    + LocaleRegistrations(script, locales)
    + [Registration("nodeLocalRequires", NodeLocalRequires)]
  }

  /** The run modes registered last: `local` (root script only) and
      `default`. */
  function ModeRegistrations(script: Script, locales: seq<string>): (r: seq<Registration>)
    ensures |r| == (if script == Root then 2 else 1)
    ensures r[|r| - 1] == Registration("default", Series(TaskList(script, locales)))
    ensures script == Root ==> r[0] == Registration("local", Series(WithoutPublish(TaskList(script, locales))))
  {
    var tasks := TaskList(script, locales);
    match script
    case Root => [Registration("local", Series(WithoutPublish(tasks))), Registration("default", Series(tasks))]
    case Legacy => [Registration("default", Series(tasks))]
  }

  /** Every `gulp.task` call a script makes, in order. */
  function Registrations(script: Script, locales: seq<string>): seq<Registration> {
    TaskRegistrations(script, locales) + ModeRegistrations(script, locales)
  }

  function Names(regs: seq<Registration>): (r: seq<string>)
    ensures |r| == |regs|
    ensures forall i :: 0 <= i < |regs| ==> r[i] == regs[i].name
  {
    if regs == [] then [] else [regs[0].name] + Names(regs[1..])
  }

  /** Every name a series runs was registered by an earlier call, as
      `gulp.series` requires when it is built. */
  predicate SeriesResolved(regs: seq<Registration>) {
    forall i :: 0 <= i < |regs| && regs[i].job.Series? ==>
      forall n :: n in regs[i].job.names ==> n in Names(regs[..i])
  }

  /** The job run under `name`: the last registration of it wins, and a
      name never registered selects nothing. */
  function Lookup(regs: seq<Registration>, name: string): (r: Option<Job>)
    ensures r.None? <==> name !in Names(regs)
    ensures r.Some? ==> Registration(name, r.value) in regs
    ensures r.Some? ==> exists i :: LastRegistration(regs, name, i) && regs[i].job == r.value
  {
    if regs == [] then None
    else if regs[|regs| - 1].name == name then
      assert LastRegistration(regs, name, |regs| - 1);
      Some(regs[|regs| - 1].job)
    else
      NamesSnoc(regs);
      var init := regs[..|regs| - 1];
      var r := Lookup(init, name);
      if r.Some? then
        LastRegistrationSnoc(regs, init, name, r.value);
        r
      else r
  }

  /** `regs[i]` registers `name`, and no later call registers it again. */
  predicate LastRegistration(regs: seq<Registration>, name: string, i: int) {
    0 <= i < |regs| && regs[i].name == name && forall j :: i < j < |regs| ==> regs[j].name != name
  }

  /** A registration under another name leaves the last one of `name`
      where it was. */
  lemma LastRegistrationSnoc(regs: seq<Registration>, init: seq<Registration>, name: string, job: Job)
    requires |regs| == |init| + 1 && regs[..|init|] == init && regs[|init|].name != name
    requires exists i :: LastRegistration(init, name, i) && init[i].job == job
    ensures exists i :: LastRegistration(regs, name, i) && regs[i].job == job
  {
    var i :| LastRegistration(init, name, i) && init[i].job == job;
    assert regs[i] == init[i];
    assert LastRegistration(regs, name, i);
  }

  /** The names of all but the last registration, then the last name. */
  lemma NamesSnoc(regs: seq<Registration>)
    requires regs != []
    ensures Names(regs) == Names(regs[..|regs| - 1]) + [regs[|regs| - 1].name]
  {
    var init := regs[..|regs| - 1];
    var ns := Names(init) + [regs[|regs| - 1].name];
    assert |Names(regs)| == |ns|;
    forall i | 0 <= i < |ns| ensures Names(regs)[i] == ns[i] {
      if i < |init| {
        assert ns[i] == init[i].name;
      }
    }
  }

  lemma {:induction false} NamesAppend(a: seq<Registration>, b: seq<Registration>)
    ensures Names(a + b) == Names(a) + Names(b)
  {
    if a == [] {
      assert a + b == b;
    } else {
      assert (a + b)[1..] == a[1..] + b;
      NamesAppend(a[1..], b);
    }
  }

  lemma TaskRegistrationNames(script: Script, locales: seq<string>)
    ensures Names(TaskRegistrations(script, locales))
         == ["browser-package", "gh-pages", "jsdoc", "documentation"]
            + LocaleTaskNames(script, locales) + ["nodeLocalRequires"]
  {
    var lr := LocaleRegistrations(script, locales);
    var tail := [Registration("nodeLocalRequires", NodeLocalRequires)];
    var head := [ Registration("browser-package", BrowserPackage),
                  Registration("gh-pages", GhPages),
                  Registration("jsdoc", JsDoc),
                  Registration("documentation", Documentation) ];
    assert Names(lr) == LocaleTaskNames(script, locales);
    assert Names(head) == ["browser-package", "gh-pages", "jsdoc", "documentation"];
    assert Names(tail) == ["nodeLocalRequires"];
    NamesAppend(head, lr);
    NamesAppend(head + lr, tail);
  }

  lemma ModeNamesAreTasks(script: Script, locales: seq<string>, k: int, n: string)
    requires 0 <= k < |ModeRegistrations(script, locales)|
    requires ModeRegistrations(script, locales)[k].job.Series?
    requires n in ModeRegistrations(script, locales)[k].job.names
    ensures n in TaskList(script, locales)
  {
    WithoutPublishContents(TaskList(script, locales));
  }

  /** Both run modes only name tasks registered before them, so building
      their series never meets an undefined task. */
  lemma RegistrationsResolve(script: Script, locales: seq<string>)
    ensures SeriesResolved(Registrations(script, locales))
  {
    var pre := TaskRegistrations(script, locales);
    var modes := ModeRegistrations(script, locales);
    var regs := Registrations(script, locales);
    var tasks := TaskList(script, locales);
    TaskRegistrationNames(script, locales);
    assert forall n :: n in tasks ==> n in Names(pre);
    forall i | 0 <= i < |regs| && regs[i].job.Series?
      ensures forall n :: n in regs[i].job.names ==> n in Names(regs[..i])
    {
      if i >= |pre| {
        assert regs[i] == modes[i - |pre|];
        assert regs[..i] == pre + regs[|pre|..i];
        NamesAppend(pre, regs[|pre|..i]);
        forall n | n in regs[i].job.names ensures n in Names(regs[..i]) {
          ModeNamesAreTasks(script, locales, i - |pre|, n);
        }
      }
    }
  }

  /** The names of the run modes: `local` and `default` in the root
      script, `default` alone in the older one. */
  function ModeNames(script: Script): seq<string> {
    match script
    case Root => ["local", "default"]
    case Legacy => ["default"]
  }

  /** The names registered outside the locale loop, in script order. */
  function LiteralNames(script: Script): seq<string> {
    ["browser-package", "gh-pages", "jsdoc", "documentation", "nodeLocalRequires"] + ModeNames(script)
  }

  lemma RegistrationNames(script: Script, locales: seq<string>)
    ensures Names(Registrations(script, locales))
         == LiteralNames(script)[..4] + LocaleTaskNames(script, locales) + LiteralNames(script)[4..]
  {
    var lits := LiteralNames(script);
    assert lits[..4] == ["browser-package", "gh-pages", "jsdoc", "documentation"];
    assert lits[4..] == ["nodeLocalRequires"] + ModeNames(script);
    TaskRegistrationNames(script, locales);
    ModeRegistrationNames(script, locales);
    NamesAppend(TaskRegistrations(script, locales), ModeRegistrations(script, locales));
  }

  lemma ModeRegistrationNames(script: Script, locales: seq<string>)
    ensures Names(ModeRegistrations(script, locales)) == ModeNames(script)
  {
  }

  lemma LiteralNamesReserved(script: Script)
    ensures forall k :: 0 <= k < |LiteralNames(script)| ==> LiteralNames(script)[k] in FixedTasks + ["local", "default"]
  {
  }

  lemma LiteralNamesDistinct(script: Script)
    ensures Distinct(LiteralNames(script))
  {
    var lits := LiteralNames(script);
    forall i, j | 0 <= i < j < |lits| ensures lits[i] != lits[j] {
      assert lits[i][0] != lits[j][0] || |lits[i]| != |lits[j]|;
    }
  }

  lemma LocaleTaskNamesDistinct(script: Script, locales: seq<string>)
    requires Distinct(locales)
    ensures Distinct(LocaleTaskNames(script, locales))
  {
    var mid := LocaleTaskNames(script, locales);
    forall i, j | 0 <= i < j < |mid| ensures mid[i] != mid[j] {
      if mid[i] == mid[j] {
        LocaleTaskNameInjective(script, locales[i], locales[j]);
      }
    }
  }

  /** With distinct locale keys no name is registered twice, so no
      `gulp.task` call silently replaces an earlier one. */
  lemma RegistrationNamesDistinct(script: Script, locales: seq<string>)
    requires Distinct(locales)
    ensures Distinct(Names(Registrations(script, locales)))
  {
    var lits := LiteralNames(script);
    var mid := LocaleTaskNames(script, locales);
    RegistrationNames(script, locales);
    LocaleTaskNamesDistinct(script, locales);
    LiteralNamesDistinct(script);
    assert lits[..4] + lits[4..] == lits;
    forall k | 0 <= k < |mid| ensures mid[k] !in lits[..4] + lits[4..] {
      LocaleTaskNameReserved(script, locales[k]);
      LiteralNamesReserved(script);
    }
    DistinctSplice(lits[..4], mid, lits[4..]);
  }

  /** When no name is registered twice, looking a name up finds the job it
      was registered with. */
  lemma {:induction false} LookupDistinct(regs: seq<Registration>, k: int)
    requires Distinct(Names(regs))
    requires 0 <= k < |regs|
    ensures Lookup(regs, regs[k].name) == Some(regs[k].job)
    decreases |regs|
  {
    var last := |regs| - 1;
    if k < last {
      var init := regs[..last];
      NamesSnoc(regs);
      assert Distinct(Names(init)) by {
        DistinctPrefix(Names(regs), last);
        assert Names(regs)[..last] == Names(init);
      }
      assert regs[k].name != regs[last].name by {
        assert Names(regs)[k] == regs[k].name && Names(regs)[last] == regs[last].name;
      }
      assert init[k] == regs[k];
      LookupDistinct(init, k);
    }
  }

  /** Each locale key selects its own bundle task. */
  lemma LookupLocaleTask(script: Script, locales: seq<string>, i: int)
    requires Distinct(locales)
    requires 0 <= i < |locales|
    ensures Lookup(Registrations(script, locales), LocaleTaskName(script, locales[i]))
         == Some(BundleLocale(locales[i]))
  {
    var regs := Registrations(script, locales);
    RegistrationNamesDistinct(script, locales);
    assert regs[4 + i] == LocaleRegistrations(script, locales)[i];
    LookupDistinct(regs, 4 + i);
  }

  /** In the root script `default` runs the whole list and `local` the list
      without the publish step. */
  lemma RootRunModes(locales: seq<string>)
    ensures Lookup(Registrations(Root, locales), "default") == Some(Series(TaskList(Root, locales)))
    ensures Lookup(Registrations(Root, locales), "local")
         == Some(Series(WithoutPublish(TaskList(Root, locales))))
  {
    var regs := Registrations(Root, locales);
    assert regs[..|regs| - 1][..|regs| - 2] == regs[..|regs| - 2];
  }

  /** The older script registers `default` over the whole list and has no
      `local` mode at all. */
  lemma LegacyRunModes(locales: seq<string>)
    ensures Lookup(Registrations(Legacy, locales), "default") == Some(Series(TaskList(Legacy, locales)))
    ensures Lookup(Registrations(Legacy, locales), "local") == None
  {
    var regs := Registrations(Legacy, locales);
    var lits := LiteralNames(Legacy);
    var mid := LocaleTaskNames(Legacy, locales);
    RegistrationNames(Legacy, locales);
    assert "local" !in mid by {
      forall k | 0 <= k < |mid| ensures mid[k] != "local" {
        LocaleTaskNameReserved(Legacy, locales[k]);
      }
    }
    assert "local" !in lits by {
      forall k | 0 <= k < |lits| ensures lits[k] != "local" {
        assert lits[k][0] != 'l';
      }
    }
    assert lits == lits[..4] + lits[4..];
    assert "local" !in Names(regs);
  }
}
