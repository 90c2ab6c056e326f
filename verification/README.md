# faker.js build scripts in Dafny

This project models the pure logic inside faker.js's two gulp build
scripts: the root `gulpfile.js` (the `Root` script) and the older
`build/gulpfile.js` (the `Legacy` script). A `Script` value selects the
variant wherever the two differ.

The scripts are mostly plumbing. Inside their task bodies, though, is a
small amount of sequential logic, which is modelled here as pure functions
over abstract inputs:

- **Task lists** (module `Tasks`). The `tasks` array holds the five fixed
  names and then one name per locale key. The root script also has a
  `local` series without `gh-pages`. Every `gulp.task` call is one
  `Registration`, and looking a name up finds the last registration of it.
- **Documentation fragments** (module `Docs`, with `StringOrder` for
  `Array.prototype.sort`). `LOCALES` is one bullet per locale key. `API`
  is a bullet tree of the sorted exported keys outside the ignore list,
  each followed by its methods.
- **Locale shims** (module `Shim`). This covers the module text
  `nodeLocalRequires` generates for each locale key and the file it is
  written to. `path.normalize` is modelled in module `Paths`.
- **Bundle artifacts** (modules `Bundles` and `Layout`). Each bundle task
  is a pipe of stages: rename, swap extension, minify, `gulp.dest`. The
  pipe is interpreted to get the files each task writes. Every write is
  then resolved against the directory its task runs from, which for the
  older script's locale tasks is the directory after
  `process.chdir('../locale/')`.

The locale catalog is a sequence of keys in insertion order. The loaded
package is a sequence of (exported key, enumerated member keys) pairs.
Paths on disk are sequences of segments below the file-system root.

Method lines under a module follow `for...in` enumeration order and are
not sorted (gulpfile.js:93-95; `Docs.ApiModuleBlock`, `Docs.ApiExample`).

## Model

| member | source | states |
|---|---|---|
| Tasks.TaskList | gulpfile.js:110-121 | The list has the five fixed names first, in script order, then the task name of each locale key in key order, so its length is 5 plus the number of keys. |
| Tasks.CollectTasks | gulpfile.js:110-122 | The list is the five fixed names in script order, then `generate-locale-L` for every key in key order. Its length is 5 plus the number of keys. The empty `i > 0` branch skips no key, so an empty catalog leaves only the fixed names. The older script (`build/gulpfile.js:113-124`) builds its list the same way, with locale task names `L + 'Task'`. |
| Tasks.LocaleTaskNameInjective | build/gulpfile.js:123-124 | Different locale keys give different task names, in both naming schemes. |
| Tasks.LocaleTaskNameReserved | gulpfile.js:120-121 | No locale task name equals a fixed task name, `local` or `default`. |
| Tasks.TaskListDistinct | gulpfile.js:110-121 | With distinct keys, the task list repeats no name. |
| Tasks.WithoutPublishContents | gulpfile.js:154 | The filter drops every `gh-pages` and keeps every other name as often as it occurs, so the length shrinks by the number of `gh-pages` entries. |
| Tasks.WithoutPublish | gulpfile.js:154 | `gh-pages` is not in the filtered list. Every other name of the list is kept, and the list never grows. |
| Tasks.LocalTaskList | gulpfile.js:154 | `local` runs `documentation, jsdoc, nodeLocalRequires, browser-package` and then every locale task, in order. |
| Tasks.RootRunModes | gulpfile.js:154-155 | Looking up `default` finds the series over the whole list. Looking up `local` finds the series over the filtered list. |
| Tasks.LegacyRunModes | build/gulpfile.js:164 | `default` is the series over the whole list. `local` is never registered, so looking it up finds nothing. |
| Tasks.TaskRegistrations | gulpfile.js:29-138 | The script registers `browser-package`, `gh-pages`, `jsdoc` and `documentation`, then each key's task bound to the bundle task of that key, in key order, and `nodeLocalRequires` last. None of these is a series. |
| Tasks.ModeRegistrations | gulpfile.js:154-155 | The root script registers `local` as the series over the list without `gh-pages`, then `default` as the series over the whole list. The older script registers only `default` (`build/gulpfile.js:164`). |
| Tasks.RegistrationsResolve | gulpfile.js:154-155 | Every name a series runs was registered by an earlier `gulp.task` call. The same holds for the older script's `default` (`build/gulpfile.js:164`). |
| Tasks.RegistrationNamesDistinct | gulpfile.js:122 | With distinct keys, no `gulp.task` call reuses a name, so none replaces an earlier task. |
| Tasks.LookupDistinct | gulpfile.js:122 | When no name is registered twice, a name's lookup finds the job registered under it. |
| Tasks.LookupLocaleTask | gulpfile.js:120-135 | Each key's task name selects the bundle task of that key. |
| Tasks.Lookup | gulpfile.js:155 | A lookup finds nothing exactly when the name was never registered. Otherwise it finds the job of the last registration under that name, since a later `gulp.task` call replaces an earlier one. |
| Docs.LocalesFragment | gulpfile.js:76-82 | The loop leaves ` * L` and a line break for each key, in order. Read back line by line, that is exactly one line per key when no key holds a line break. The older script (`build/gulpfile.js:79-85`) does the same. |
| Docs.LocaleLinesRead | gulpfile.js:80-82 | When no key holds a line break, the `LOCALES` text splits back into exactly its bullet lines. |
| Docs.Documented | gulpfile.js:84-90 | The listed keys are sorted. A key is listed exactly when it is exported and not ignored. An ignored key is listed zero times and every other key as often as it is exported. |
| Docs.ApiFragment | gulpfile.js:84-96 | The `forEach` builds the lines of the API tree: each kept sorted key as `* m`, then `  * meth` per method. Read back line by line, it is exactly those lines when no name holds a line break. The older script (`build/gulpfile.js:87-99`) does the same. |
| Docs.ApiStep | gulpfile.js:89-95 | An ignored key adds nothing to the tree. Any other key appends its module's lines. |
| Docs.AppendModule | gulpfile.js:92-95 | One callback appends the module line and then one line per enumerated member, in enumeration order. |
| Docs.ApiModules | gulpfile.js:87-92 | The module lines of the tree name exactly the exported keys outside the ignore list, in sorted order. An ignored key never gets a line. |
| Docs.ApiModuleBlock | gulpfile.js:92-95 | Every exported module outside the ignore list appears as its line, directly followed by one line per method in enumeration order. |
| Docs.ApiExample | gulpfile.js:84-96 | For a package exporting `locales`, `alpha` (methods `foo`, `bar`) and `locale`, the tree is exactly `* alpha`, `  * foo`, `  * bar`. |
| StringOrder.Sort | gulpfile.js:84 | `keys.sort()` gives a sorted rearrangement of the keys: same elements, same multiplicities. |
| StringOrder.SortCharacterized | gulpfile.js:84 | Any sorted rearrangement of the keys equals `Sort`'s, so the result does not depend on the sorting algorithm. |
| StringOrder.SortedUnique | build/gulpfile.js:87 | Two sorted rearrangements of the same strings are equal. |
| Shim.ShimLines | gulpfile.js:142-147 | The template has five lines in the root script and six in the older one (`build/gulpfile.js:150-156`). Line 2 configures the key with the `en` fallback, lines 3 and 4 attach the key's data and `en`'s, and the last line exports the instance. In the older template a blank line comes right before the export. |
| Shim.ShimText | gulpfile.js:142-147 | The template closes its last line with a line break, so the text ends with the export line and its line break. |
| Shim.ShimTextContains | gulpfile.js:142-147 | For every key, even one holding a line break, the text holds the configuration line and both attach lines as whole lines and ends with the export. The older template (`build/gulpfile.js:150-156`) ends with the `en` attach line, a blank line and the export. |
| Shim.ShimTextLines | gulpfile.js:142-147 | The generated text splits back into exactly the template's lines, with the key spliced in: five in the root script, six in the older one, which adds a blank line. |
| Shim.ShimAttachesBoth | gulpfile.js:142-147 | For a key without a line break, read line by line, every shim configures its own locale with the `en` fallback and attaches both its own data and `en`'s. Its last line exports the instance. The older template (`build/gulpfile.js:150-156`) does the same with `const`, with a blank line right before the export. |
| Shim.ShimAttachCount | gulpfile.js:144-145 | For a key without a line break, the key's attach line occurs once, or twice when the key is `en` itself. |
| Shim.AttachLineInjective | build/gulpfile.js:152-153 | Different keys give different attach lines. |
| Shim.ShimPath | gulpfile.js:141 | The shim path is never empty, and it starts with `/` exactly when the script's directory is empty or absolute, as the template `${__dirname}/locale/…` gives. The older script (`build/gulpfile.js:149`) builds it the same way. |
| Shim.RootShimPath | gulpfile.js:141 | The shim of `L` goes to `locale/L.js` below the script's own directory. |
| Shim.LegacyShimPath | build/gulpfile.js:149 | The older script's shim goes to `locale/L.js` beside its own directory, after `path.normalize` removes the `..`. |
| Shim.ShimPathInjective | gulpfile.js:140-149 | Different keys without a separator get different shim files, in both scripts (`build/gulpfile.js:148-158`), so no shim write overwrites the shim of another key. |
| Shim.ShimPathsAgree | build/gulpfile.js:149 | Running from `build/`, the older script targets the same file for each shim as the root script does from the repository. Whether the write happens is not modelled. |
| Paths.Normalize | gulpfile.js:141 | The normalized path is never empty. It is absolute exactly when the input is. |
| Paths.NormalizeParent | build/gulpfile.js:149 | Normalizing `/dir/../rest` climbs out of the last directory of `dir`. |
| Paths.NormalizeAbsPath | gulpfile.js:141 | A path already made of plain segments normalizes to itself. |
| Paths.JoinSplit | build/gulpfile.js:149 | The segment split behind `Paths.Normalize` loses nothing: joining its pieces with `/` gives back the path that `path.normalize` is handed. |
| Paths.SplitJoin | build/gulpfile.js:149 | The segment split behind `Paths.Normalize` recovers separator-free segments: splitting their join gives back the segments. |
| Paths.ExtName | gulpfile.js:49 | The extension is a suffix of the name. It is empty or opens with its only dot, and holds no separator. |
| Paths.ExtNameJs | gulpfile.js:130 | `base.js` has extension `.js` for a non-empty base without a separator. |
| Paths.ReplaceExt | gulpfile.js:49 | The result ends with the new extension. What comes before it, followed by the old extension, is the original name, so a name without an extension just gets the new one appended. |
| Paths.Locate | build/gulpfile.js:132 | Resolving a relative path against a directory whose segments are all kept leaves only kept segments: none empty, none `.`, none holding a separator. |
| Paths.MinifiedName | gulpfile.js:49 | For a non-empty base without a separator, swapping the extension of `base.js` for `.min.js` gives `base.min.js`. |
| Bundles.DestAll | gulpfile.js:47-48 | One `gulp.dest` stage per directory, in the order given. |
| Bundles.Pipeline | gulpfile.js:44-53 | The pipe renames to `base.js`, writes to every directory, swaps the extension for `.min.js`, minifies, writes to every directory again and renames once more at the end: two stages per directory plus four. The per-locale pipe (gulpfile.js:125-134) has the same shape. |
| Bundles.Run | gulpfile.js:44-53 | A pipe writes once per `gulp.dest` stage, each time into a directory that a stage names. |
| Bundles.RunAppend | gulpfile.js:44-53 | Two pipes run one after the other write what each writes. The second starts from the file the first leaves. |
| Bundles.TrailingStagesWriteNothing | gulpfile.js:53 | Stages after the last `gulp.dest`, such as the final rename, add no write. |
| Bundles.PipelineRuns | gulpfile.js:44-53 | For any base, a bundle pipe writes `base.js` with the bundle into every directory, then the file gulp-rename makes of it with `extname: '.min.js'`, holding the minification, into every directory. |
| Bundles.PipelineWrites | gulpfile.js:44-53 | For a non-empty base without a separator, a bundle pipe writes `base.js` with the bundle into every directory, then `base.min.js` with its minification into every directory. |
| Bundles.LocaleBundleContents | gulpfile.js:125-133 | For any key and entry, a locale task writes four files: the bundle of its entry twice, then its minification twice. The older script (`build/gulpfile.js:133-141`) does the same. |
| Bundles.GlobalDirs | gulpfile.js:47-48 | The global bundle goes to `build/` and to `<repo>examples/browser/js`, where the repository is `./` for the root script and `../` for the older one (`build/gulpfile.js:50-51`). |
| Bundles.LocaleDirs | gulpfile.js:128-129 | A locale bundle goes to `<repo>build/build/locales/L` and to `<repo>examples/browser/locales/L/`, the second with a trailing separator. The older script (`build/gulpfile.js:136-137`) uses the same directories from `../`. |
| Bundles.LocaleEntry | gulpfile.js:123 | The root script bundles `./index.js` for every key, which is the global entry and not the shim its stream is named after. The older script (`build/gulpfile.js:132-133`) bundles the shim `./L.js` its stream is named after. |
| Bundles.Target | gulpfile.js:47 | Where a write lands, resolved from a directory of kept segments, is again made only of kept segments. |
| Bundles.GlobalBundleWrites | gulpfile.js:42-53 | `browser-package` writes `faker.js` to both directories and then `faker.min.js` to both. The older script (`build/gulpfile.js:47-56`) does the same. |
| Bundles.LocaleBundleWrites | gulpfile.js:123-134 | A locale task writes `faker.L.js` to both locale directories, then `faker.L.min.js` to both. The final `faker.Lmin.js` rename writes nothing. The older script (`build/gulpfile.js:133-142`) does the same. |
| Layout.GlobalEntries | build/gulpfile.js:47 | Both scripts bundle the repository's `index.js` for the global bundle. |
| Layout.LocaleTaskDirs | build/gulpfile.js:132 | The older script's locale tasks run in the repository's `locale/`. A second `chdir('../locale/')` from there stays there. |
| Layout.RootGlobalOutputs | gulpfile.js:47-52 | Run from the repository, the root script writes `faker.js` and `faker.min.js` into `build/` and into `examples/browser/js/`. |
| Layout.LegacyGlobalOutputs | build/gulpfile.js:50-55 | Run from `build/`, the older script writes them into `build/build/` and into the same examples directory. |
| Layout.RootGlobalOutsideOutRoot | gulpfile.js:47-51 | As written, the root global `faker.js` lands in `build/`. That is outside the `build/build/` tree that holds the root script's own locale bundles. |
| Layout.CorrectedGlobalOutputs | gulpfile.js:31-37 | Writing to `./build/build`, as the task's comment lists, puts the global bundle exactly where the older script puts it. |
| Layout.RootLocaleOutputs | gulpfile.js:123-133 | The root locale task writes `build/build/locales/L/` and `examples/browser/locales/L/`, but every file holds the bundle of `index.js`. |
| Layout.LegacyLocaleOutputs | build/gulpfile.js:132-141 | The older locale task writes the same four files, each holding the bundle of `locale/L.js`. |
| Layout.RootLocaleBundlesAlike | gulpfile.js:123-126 | As written, the root bundles of any two keys, whatever they hold, have the same contents, file for file. |
| Layout.LegacyLocaleBundlesDiffer | build/gulpfile.js:132-134 | The older script's bundles for different locales differ in every file. |
| Layout.CorrectedLocaleOutputs | gulpfile.js:126 | Bundling the shim that the stream is named after makes the root task write exactly what the older one writes. |
| Layout.CorrectedLocaleBundlesDiffer | gulpfile.js:123-126 | Corrected that way, bundles for different locales differ in every file. |

## Left out

- The gulp runtime is not modelled: task scheduling, stream timing and error propagation. Registrations are data, and a series is the list of names it runs.
- browserify and uglify are opaque. A bundle is known by its absolute entry path and global name, a minified file by what it minifies. Only `source(...)` from `vinyl-source-stream` (gulpfile.js:45, 126) contributes something: the name the stream starts with. `streamify` (gulpfile.js:50) only adapts `uglify` to a streamed file, and `vinyl-transform` (build/gulpfile.js:40-45, 126-131) only wraps browserify per file.
- `gh-pages` and `jsdoc` are foreign-library I/O, so they appear only as registered jobs.
- The template step of `documentation` is left out: mustache, `docs.md`, `startYear`, `new Date().getFullYear()` and where the rendered Readme goes. Only the two fragments handed to it are modelled.
- `require` of the package and of the locale catalog is module loading. Their results are inputs: a key sequence and a `Package`.
- `fs.writeFileSync` and `fs.writeFile` are file I/O. A shim is the pair of its path and its text.
- build/gulpfile.js:158 calls `fs.writeFile` without a callback. The write is not awaited before `cb()` at line 160, so the task reports success before any shim exists and a failed write goes unreported. Node 10 and later throw `ERR_INVALID_CALLBACK` on such a call, so that script writes no shim at all there. The model gives only the path and the text each call would write.
- `process.chdir` is modelled only as the directory the older script's locale tasks run in. `__dirname` is a parameter.
- The unused `localTasks` and `through` bindings are left out.
- StringOrder.Le compares characters by code point. JavaScript's default sort compares UTF-16 code units, so the two differ only for keys outside the Basic Multilingual Plane.
- Paths.Normalize: models POSIX `path.normalize` only.
- Paths.ExtName: models `path.extname` only for names without a trailing separator.
- Shim.ShimTextLines: holds only for keys without a line break; quote characters in a key are spliced in unescaped, as the template does.
- Shim.ShimAttachesBoth: holds only for keys without a line break, since a break in the key splits lines differently; Shim.ShimTextContains states the containment for every key.
- Shim.ShimAttachCount: counts lines only for keys without a line break, for the same reason.
- Shim.LegacyShimPath: requires a key without a separator and a directory of plain segments.
- Shim.ShimPathInjective: requires keys without a separator and a directory of plain segments; a key holding `/` or `..` could point two shims at one file.
- Docs.LocaleLinesRead: holds only for keys without a line break, since a break inside a key splits its bullet in two.
- Paths.ExtNameJs: requires a non-empty base without a separator; `path.extname('.js')` is empty.
- Paths.MinifiedName: requires a non-empty base without a separator; for the base `""` gulp-rename gives `.js.min.js`. The scripts' bases are always `faker` or `faker.L`.
- Bundles.PipelineWrites: requires a non-empty base without a separator, as Paths.MinifiedName does; Bundles.PipelineRuns states the writes for every base.
- Shim.ShimPathsAgree: requires a key without a separator and a repository path of plain segments.
- Bundles.LocaleBundleWrites: requires a key without a separator, so that `faker.L.js` keeps its `.js` extension.
- Layout.LegacyLocaleOutputs: requires a plain key (not empty, not `.` or `..`, no separator).
- Layout.CorrectedLocaleOutputs: requires a plain key, as Layout.RootLocaleOutputs does.
- Layout.RootGlobalOutsideOutRoot: requires a plain key for the locale directory it compares against.
- Layout.LegacyLocaleBundlesDiffer: requires keys without a separator.
- Layout.CorrectedLocaleBundlesDiffer: requires keys without a separator.
- Shim.RootShimPath: requires a key without a separator and a non-empty directory of plain segments. A key holding `/` would point the file elsewhere.
- Layout.RootLocaleOutputs: requires a key without a separator. A key holding `/` or `..` would resolve elsewhere, so it is not covered.
- The last rename of each locale pipe names `faker.Lmin.js`, without the dot before `min`. It comes after the last `gulp.dest`, so it writes nothing, and it is modelled as written (`Bundles.TrailingStagesWriteNothing`).

## Findings

| source | as written | input that shows it | evidently intended | confidence | as-written member | corrected member |
|---|---|---|---|---|---|---|
| gulpfile.js:123-126 | Every per-locale task bundles `./index.js`, while naming the stream after `./locale/L.js`. | Keys `en` and `de`, or any two keys: both `faker.en.js` and `faker.de.js` hold the bundle of `index.js`. | Bundle the locale's shim `locale/L.js`, as the older script does after its `chdir`, so each locale bundle holds its own locale. | not executed | Layout.RootLocaleBundlesAlike | Layout.CorrectedLocaleBundlesDiffer |
| gulpfile.js:47-51 | `gulp.dest('build/')` from the repository writes `build/faker.js` and `build/faker.min.js`. | Any repository: the global bundle lands in `build/`, beside the build script, not in `build/build/`. | `./build/build`, as the task's comment at lines 34-35 lists. That is where the older script writes, and where the locale bundles go. | not executed | Layout.RootGlobalOutsideOutRoot | Layout.CorrectedGlobalOutputs |
