# mini-css-themes-plugin, modelled in Dafny

`MiniCssThemesWebpackPlugin` builds one CSS file per theme out of a single
SCSS code base. It has two parts, and the model covers both.

- **The plugin** (`index.js`):
  - The constructor validates the configuration. It needs a themes object, a
    default theme key whose entry exists, and a theme file that exists for
    every entry.
  - It then derives what the webpack hooks use:
    - the chunk prefix;
    - the default import filename;
    - the non-default theme keys, in declaration order;
    - the names of the theme chunks;
    - the absolute path of every theme file.
  - The hooks do the following:
    - `succeedModule` clones every `.scss` dependency once per non-default theme.
    - `beforeResolve` appends `??theme:<key>` to the request of a themed `.scss`
      dependency.
    - The `module` hook reads that key back, marks the module with it, and adds
      the theme loader with its options.
    - `optimizeChunkModules` drops the themed dependencies and the themed
      modules from the chunks, then detaches every theme chunk from its chunk
      groups.
    - `optimizeChunkAssets` keeps only the CSS files of the theme chunks and
      deletes the assets of their other files.
- **The theme loader** (`loader.js`):
  - It finds every `@import` statement that names the default theme file.
  - It keeps those whose path, joined onto the module's directory, is the
    default theme path without its extension.
  - It replaces each kept statement with an `@import` of the target theme file,
    written relative to the module's directory.

The model is split into these modules:

| module | what it models |
|---|---|
| `Strings` | JavaScript truthiness, `indexOf` and suffix tests on strings |
| `Paths` | Node's POSIX `path.join`, `normalize`, `resolve`, `relative` and `basename` on segment lists; the working directory is a parameter |
| `ThemeConfig` | `validate` and `init`; `fs.existsSync` is a predicate parameter |
| `Dependencies` | the `.scss` filter, theme clones, and the filter on themed dependencies |
| `ThemeRequest` | the `??theme:` marker and a matcher that makes the same choices as `/\?\?.*theme:([^:?!]+)/` |
| `Graph` | the webpack objects the hooks change, as classes whose fields they update: `Module`, `ResolveData`, `Chunk`, `ChunkGroup`, `Compilation` |
| `ImportPattern` | the statement pattern of `loader.js:18` (global match) and the path pattern of `loader.js:8`, as hand-written matchers that backtrack like JavaScript's engine; proved sound and complete against a declarative description of a statement |
| `JsReplace` | `String.prototype.replace` with string arguments, including its `$` substitution patterns |
| `Loader` | the loader: `Load` as a value, and the method `RunLoader` proved equal to it |
| `Plugin` | the plugin class and the hook bodies, as methods over the graph |

**Where the code and its stated intent disagree.** The path pattern of
`loader.js:8` is `['"]([^'"]+)(\.scss|\.sass)?['"]`. Its optional extension
group suggests that an import may spell out `.scss` or `.sass`. However, the
greedy `[^'"]+` takes the extension into group 1, so the joined path still
ends with it. The default path is compared with its extension stripped
(`loader.js:5`), so such an import is never kept. The model follows the code,
and `Loader.ExtensionNeverKept` proves the consequence.

## Model

| member | source | states |
|---|---|---|
| Strings.IndexOf | index.js:45 | `indexOf`: a result is an occurrence with none before it; `None` exactly when the text occurs nowhere |
| Paths.Normalize | loader.js:9 | `path.normalize` never returns an empty path, keeps a path absolute exactly when it was, and keeps a trailing separator |
| Paths.Join | loader.js:9 | `path.join` never returns an empty path, and its result is absolute exactly when its first non-empty argument is |
| Paths.Resolve | index.js:40 | `path.resolve` gives an absolute path (the working directory is absolute), never empty and without a trailing separator unless it is the root |
| Paths.Relative | loader.js:28 | `path.relative` gives a relative path, without a trailing separator |
| Paths.Basename | index.js:35 | `path.basename` holds no separator, and is empty only for a path made of separators |
| Paths.NormalizeKeepsLast | loader.js:9 | `path.normalize` keeps a path's last segment when it is plain and the path does not end in '/' |
| Paths.JoinKeepsSuffix | loader.js:9 | a path joined with `path.join` ends with what the joined part ended with, when that ending has no '/' and does not end in '.' |
| ThemeConfig.Keys | index.js:36 | `Object.keys`: one key per entry, in entry order |
| ThemeConfig.Lookup | index.js:17 | `themes[key]` is undefined exactly when no entry has the key; otherwise it is the file of an entry with that key |
| ThemeConfig.LookupEntry | index.js:17 | with distinct keys, looking up an entry's key gives that entry's file |
| ThemeConfig.FirstMissing | index.js:21-26 | the entry reported by the existence check names a file that does not exist |
| ThemeConfig.FirstMissingNone | index.js:21-26 | the existence check passes exactly when every entry's resolved file exists |
| ThemeConfig.FirstMissingIsFirst | index.js:21-26 | the reported entry is the first, in order, whose file is missing: its key and resolved path are reported, and every earlier file exists |
| ThemeConfig.Validate | index.js:10-27 | `validate` returns only when themes, a truthy default key and a truthy default entry are given; a file it reports as not found does not exist |
| ThemeConfig.ValidateOk | index.js:10-27 | `Validate` returns exactly when themes are given, the default key is truthy, its entry is truthy and every theme file exists |
| ThemeConfig.ValidateErrorOrder | index.js:11-26 | each error of `Validate` is thrown exactly when its check fails after all earlier ones passed; a missing file is reported with its key and resolved path |
| ThemeConfig.ChunkPrefix | index.js:33 | `chunkPrefix \|\| 'theme__'`: never empty, and a truthy prefix is kept |
| ThemeConfig.LastIndexOfChar | index.js:35 | the position of the last occurrence of a character, `None` when it does not occur |
| ThemeConfig.StripFinalExtension | index.js:35 | removing `/\.[a-zA-Z0-9]+$/` keeps a prefix of the name, and when it removes something, what it removes is a '.' followed by alphanumerics up to the end |
| ThemeConfig.StripFinalExtensionMatch | index.js:35 | `StripFinalExtension` cuts at the position where the pattern matches, and leaves the name alone when it matches nowhere |
| ThemeConfig.StripFinalExtensionInverse | index.js:35 | removing the extension undoes appending '.' and an alphanumeric extension |
| ThemeConfig.DefaultImportFilename | index.js:35 | the default import filename is a bare name: it holds no separator |
| ThemeConfig.NonDefaultThemeKeys | index.js:36 | the kept keys are exactly the keys other than the default |
| ThemeConfig.NonDefaultThemeKeysOrder | index.js:36 | with the default once at position `i`, the result is the keys in order without position `i` |
| ThemeConfig.NonDefaultThemeKeysNone | index.js:36 | without the default among them, every key is kept in order |
| ThemeConfig.ThemeChunkNames | index.js:37 | one name per key, in order, each the prefix followed by its key |
| ThemeConfig.ThemeChunkNamesDistinct | index.js:37 | distinct keys give distinct chunk names |
| ThemeConfig.AbsolutePathThemes | index.js:39-40 | the table has exactly the theme keys as keys |
| ThemeConfig.AbsolutePathThemesEntry | index.js:40 | with distinct keys, every key maps to its own file, resolved against the working directory |
| Dependencies.ScssDependencies | index.js:51 | the kept dependencies are exactly those whose request ends with `.scss`, and there are no more of them than dependencies |
| Dependencies.ScssDependenciesAppend | index.js:51 | the filter keeps the order and every copy: it distributes over concatenation |
| Dependencies.Clone | index.js:53-61 | a clone keeps the request, is marked with the theme, and has the identifier extended by `?theme=<theme>` |
| Dependencies.ClonesOf | index.js:66 | one clone of the dependency per theme |
| Dependencies.ClonesLength | index.js:65-67 | `Clones`: the loops add one clone per pair of a `.scss` dependency and a theme |
| Dependencies.ClonesAt | index.js:65-67 | in `Clones`, the clone for dependency `i` and theme `j` sits at position `i * themes + j` |
| Dependencies.ClonesFrom | index.js:65-67 | every element of `Clones` is the clone of one dependency for one theme |
| Dependencies.ClonesOfSnoc | index.js:66 | one more pass of the inner loop appends that theme's clone |
| Dependencies.ClonesSnoc | index.js:65 | one more pass of the outer loop appends all clones of that dependency |
| Dependencies.Unthemed | index.js:134 | the kept dependencies are exactly those that are not themed |
| Dependencies.UnthemedAppend | index.js:134 | the filter keeps the order: it distributes over concatenation |
| Dependencies.UnthemedIdempotent | index.js:134 | filtering twice is filtering once |
| Dependencies.ClonesThemed | index.js:56 | every clone made for a non-empty theme key is themed |
| Dependencies.UnthemedUndoesFanOut | index.js:134 | removing themed dependencies after `succeedModule` gives back the module's list, when that list held no clone |
| Dependencies.UnthemedKeepsAll | index.js:134 | a list without themed dependencies is kept whole |
| Dependencies.UnthemedDropsAll | index.js:134 | a list of themed dependencies is emptied |
| Graph.Module.RemoveChunk | index.js:138 | `module.removeChunk(chunk)`: the module leaves the chunk's modules, and it reports whether it was there |
| Graph.ChunkGroup.RemoveChunk | index.js:146 | `entry.removeChunk(chunk)`: the first occurrence is spliced out of the group's list, and it reports whether the chunk was listed; a chunk not listed is left alone, and the chunk's own record of its groups is never touched |
| Graph.Compilation.DeleteAsset | index.js:156 | `delete compilation.assets[file]`: exactly that key is gone |
| Graph.IndexOfElem | index.js:146 | the first index of an element, `None` exactly when it is absent |
| ImportPattern.SpaceRunEnd | loader.js:18 | greedy `\s+`: the run of white space from `i` ends at the first non-space character |
| ImportPattern.NonQuoteRunEnd | loader.js:18 | greedy `[^'"]+`: the run of non-quote characters from `i` ends at the first quote |
| ImportPattern.CloseAfter | loader.js:18 | the ending the engine takes after the filename: `.scss`, then `.sass`, then none; `None` exactly when no ending is followed by a quote |
| ImportPattern.Backtrack | loader.js:18 | giving back characters of the non-quote run finds a run end after which the rest matches |
| ImportPattern.BacktrackLongest | loader.js:18 | backtracking settles on the longest such run end, and gives up exactly when there is none |
| ImportPattern.NoCloseInAt | loader.js:18 | when no run end of a range can be completed, no single one can |
| ImportPattern.MatchAt | loader.js:18 | a match at `p` starts at `p` and ends inside the content |
| ImportPattern.MatchFromQuote | loader.js:18 | a match found from an opening quote keeps that quote as its opening |
| ImportPattern.MatchAtSound | loader.js:18 | what the engine matches at `p` is an import statement: "@import", white space, a quoted text naming the file, an optional ';' |
| ImportPattern.MatchFromQuoteSound | loader.js:18 | the match built from an opening quote is a statement |
| ImportPattern.MatchAtComplete | loader.js:18 | wherever a statement starts, the engine finds a match there |
| ImportPattern.MatchFromQuoteComplete | loader.js:18 | after a non-quote run that the filename, an ending and a quote complete, the engine finds a match |
| ImportPattern.Scan | loader.js:19 | the global match's spans are in order, do not overlap, and lie inside the content |
| ImportPattern.ScanSound | loader.js:19 | every span of the global match is a statement |
| ImportPattern.ScanComplete | loader.js:19 | every position where a statement starts lies inside some span of the global match |
| ImportPattern.Texts | loader.js:19 | one matched text per span, each the content between the span's bounds |
| ImportPattern.MatchAll | loader.js:19 | the global match returns `null` rather than an empty array: a result holds at least one statement |
| ImportPattern.NoMatchIffNoStatement | loader.js:19-21 | `MatchAll` returns `null` exactly when no statement occurs anywhere in the content |
| ImportPattern.MatchedAreStatements | loader.js:17-19 | every text `MatchAll` returns is a whole statement |
| ImportPattern.SpanTextIsStatement | loader.js:19 | the text of a span that is a statement is a statement on its own |
| ImportPattern.StatementSlice | loader.js:19 | a statement inside a longer text stays a statement when cut out |
| ImportPattern.QuotedPathSkip | loader.js:8 | the path pattern moves past characters that are not quotes |
| ImportPattern.QuotedPath | loader.js:8 | group 1 of the path pattern, when it matches, is a non-empty text without quotes |
| ImportPattern.QuotedPathOfStatement | loader.js:8 | every statement has a path, so `match(...)[1]` does not throw; when the filename has no quote, the path is everything between the quotes |
| JsReplace.Substitute | loader.js:28 | a replacement template without `$` is inserted as written, whatever was matched |
| JsReplace.ReplaceFirst | loader.js:28 | `replace` with a string pattern leaves the text alone when the pattern does not occur, and otherwise keeps everything before and after its first occurrence |
| JsReplace.ReplaceFirstLiteral | loader.js:28 | with a replacement without `$`, only the first occurrence is swapped; with no occurrence, nothing changes |
| Loader.StripStyleExt | loader.js:5 | the result is a prefix of the path; it is the path itself exactly when the path ends in neither `.scss` nor `.sass`, and otherwise only that extension is removed |
| Loader.StripStyleExtInverse | loader.js:5 | `StripStyleExt` removing `.scss`/`.sass` undoes appending one, and leaves a path without them alone |
| Loader.FilterMatchedImports | loader.js:4-11 | the kept imports are exactly those that are `Kept`: their path, joined onto the context, is the default path without its extension |
| Loader.FilterNoneKept | loader.js:7-10 | a filter under which no candidate is kept returns nothing |
| Loader.FilterAppend | loader.js:7-10 | the filter keeps the candidates in order: it distributes over concatenation |
| Loader.MatchedAllQuoted | loader.js:8 | every statement returned by the global match has a quoted path, so the filter never throws |
| Loader.Load | loader.js:13-32 | the loader throws only for an option it reads that is absent, and it throws for a missing default filename exactly when that option is absent |
| Loader.RunLoader | loader.js:13-32 | the loader's result is `Load`: a thrown error for a missing option it reads, the content unchanged without matches or kept imports, and otherwise every kept import replaced in turn |
| Loader.ReplaceImports | loader.js:26-29 | the loop leaves the content alone without kept imports, throws when the target path is missing, and otherwise replaces each kept import in order |
| Loader.NoStatementUnchanged | loader.js:19-24 | without a statement of the default file, the content comes back unchanged |
| Loader.ChangedHasStatement | loader.js:19-24 | the loader changes the content only when a statement of the default file occurs in it |
| Loader.LoadCompletes | loader.js:21-31 | with all three options given, the loader always calls back with content |
| Loader.NothingKeptUnchanged | loader.js:26-31 | when no candidate is kept, the target path is never read and the content is unchanged |
| Loader.ExtensionNeverKept | loader.js:8 | an import that spells out `.scss` or `.sass` is never kept |
| Loader.ReplaceEachStep | loader.js:27-29 | with a target free of `$`, each step swaps the first remaining occurrence of a kept statement for the new `@import` statement, quotes and semicolon included |
| Loader.ReplaceFirstCopy | loader.js:28 | when the text before a kept statement holds no copy of it, `replace` rewrites that copy and keeps the text on both sides |
| Loader.ReplaceEachKept | loader.js:26-29 | `ReplaceEach` over any kept statements `c1 … ck`, in the order they occur, rewrites every one of them and keeps the text before and between them unchanged, provided no part of that text holds any of them and the new statement cannot form a copy of any of them |
| Loader.ReplaceEachCopies | loader.js:26-29 | the case of k textually identical kept statements: all k are rewritten, and the text around them is unchanged |
| ThemeRequest.Tag | index.js:76-81 | the request is extended, never cut; it changes exactly when it ends in `.scss` and the theme is truthy |
| ThemeRequest.LineEnd | index.js:89 | greedy `.*`: it stops at the first line terminator |
| ThemeRequest.KeyEnd | index.js:89 | greedy `[^:?!]+`: it stops at the first ':', '?' or '!' |
| ThemeRequest.LastKeyAt | index.js:89 | the backtracking `.*theme:` settles on the last `theme:` of the line that a key character follows |
| ThemeRequest.LastKeyAtIs | index.js:89 | that last `theme:` is the one after which no other starts |
| ThemeRequest.ParseFrom | index.js:89 | a captured key is non-empty and made of key characters |
| ThemeRequest.ParseTheme | index.js:89 | the key the module hook reads is non-empty and holds no ':', '?' or '!' |
| ThemeRequest.NoMarkerNoTheme | index.js:89-90 | a request without `??` yields no theme |
| ThemeRequest.ParseTag | index.js:80-91 | round trip: for a request on one line, the module hook reads from a tagged request exactly the theme `beforeResolve` tagged it with, wherever the request already holds `??` |
| ThemeRequest.ParseMarked | index.js:89 | a line ending in `??theme:` and a key yields that key, wherever its first `??` is |
| ThemeRequest.MarkerReached | index.js:89 | on such a line the first `??` comes no later than the marker, and `.*` reaches past the marker |
| ThemeRequest.ParseAtMarker | index.js:89 | at a `??`, the match takes the key after the last `theme:` of the line |
| Plugin.Get | index.js:96-97 | reading `absolutePathThemes[k]`: `undefined` exactly when the key is absent |
| Plugin.FindChunkName | index.js:45 | `find` returns a name of the list whose cache group marker the chunk reason contains, and `undefined` when the reason contains none |
| Plugin.FindChunkNameFirst | index.js:45 | `find` returns the name at the first position whose marker the reason contains |
| Plugin.IsThemeChunkIff | index.js:44-46 | with non-empty names, `IsThemeChunk` holds exactly when the chunk's reason names one of the theme cache groups |
| Plugin.FilterThemeChunks | index.js:44-46 | the filter keeps only chunks of the list |
| Plugin.FilterThemeChunksMembers | index.js:44-46 | the filter keeps exactly the theme chunks |
| Plugin.FilterThemeChunksNoRepeats | index.js:44-46 | a list without repeats gives theme chunks without repeats |
| Plugin.CssFiles | index.js:157 | the kept files are exactly the files ending in `.css`, and there are no more of them than files |
| Plugin.NonCssFiles | index.js:155 | the kept files are exactly the files not ending in `.css`, and there are no more of them than files |
| Plugin.CssFilesSplit | index.js:155-157 | every file goes to exactly one of the two filters |
| Plugin.CssFilesAppend | index.js:157 | the CSS filter keeps the order and every copy: it distributes over concatenation |
| Plugin.NonCssFilesAppend | index.js:155 | so does the filter on the other files |
| Plugin.CleanChunk | index.js:129-140 | every module of the chunk loses its themed dependencies, and exactly the themed modules leave the chunk |
| Plugin.DropThemedModules | index.js:128-141 | over all chunks: each keeps exactly its unthemed modules, and each module of any chunk keeps exactly its unthemed dependencies |
| Plugin.DetachChunk | index.js:146 | each of the chunk's groups lists what it listed before, without the chunk; the chunk's record of its groups is unchanged |
| Plugin.DetachOne | index.js:146 | one step of the detaching loop: the chunk's own groups lose it, and no other group changes |
| Plugin.DetachNext | index.js:146 | one step of the detaching loop preserves its invariant |
| Plugin.DetachAll | index.js:146 | the detaching loop keeps its invariant to the end |
| Plugin.DetachThemeChunks | index.js:146 | each group loses exactly the theme chunks that belong to it, and nothing else changes, the chunks' records of their groups included |
| Plugin.ThemesPlugin.constructor | index.js:29-41 | `init` sets every derived field from the configuration |
| Plugin.ThemesPlugin.LoaderOptionsComplete | index.js:94-98 | with distinct theme keys, the loader of every theme gets the default filename, the resolved default theme file and the resolved file of its own theme |
| Plugin.ThemesPlugin.SucceedModule | index.js:50-67 | the module's dependencies grow by the clones of each `.scss` dependency for each non-default theme, in loop order; nothing else changes |
| Plugin.ThemesPlugin.BeforeResolve | index.js:74-82 | the request becomes its tagged form for the theme of the first dependency |
| Plugin.ThemesPlugin.OnModule | index.js:88-101 | a request with a theme marker marks the module with the key and appends the theme loader with the options for that key; otherwise nothing changes |
| Plugin.ThemesPlugin.OptimizeChunkModules | index.js:127-147 | chunks keep exactly their unthemed modules, modules keep exactly their unthemed dependencies, and groups lose exactly their theme chunks; every chunk keeps its record of its groups, and no other group changes |
| Plugin.ThemesPlugin.OptimizeChunkAssets | index.js:153-158 | theme chunks keep exactly their CSS files, and the assets of their other files are deleted; no other chunk and no CSS asset changes |
| Plugin.DeleteAssets | index.js:156 | the asset table loses exactly the listed files |
| Plugin.DroppedFilesStep | index.js:155-156 | one more theme chunk adds its non-CSS files to those deleted |
| Plugin.StripNext | index.js:154-158 | one pass of the loop over theme chunks preserves its invariant |
| Plugin.StripAll | index.js:154-158 | the loop over theme chunks keeps its invariant to the end |
| Plugin.StripThemeChunkFiles | index.js:154-158 | each theme chunk keeps exactly its CSS files; the assets lose exactly the theme chunks' non-CSS files |
| Plugin.NewPlugin | index.js:5-8 | construction throws `validate`'s error, or yields a plugin initialized from the configuration |

## Left out

- Hook registration (`index.js:43-48`, `73`, `87`, `126`, `151`) is not modelled: the `tap` calls, the plugin name (`index.js:30`) and webpack's calling order. Each hook body is a method that the caller runs.
- The `entryOption` hook that adds the theme cache groups (`index.js:105-123`) is not modelled. It only writes webpack's `splitChunks` configuration, and the split is webpack's work. The model keeps the result it relies on: a theme chunk's `chunkReason` names its cache group.
- `loaderUtils.getOptions`, `this.async()` and the callback (`loader.js:14-15`, `22`, `31`) are not modelled. The options and `this.context` are parameters, and the callback's argument is the returned `Outcome`.
- `require.resolve('./loader.js')` (`index.js:93`) becomes the `ThemeLoader` loader entry.
- Node's `fs.existsSync` is a predicate parameter. The process's working directory is a parameter, which `Relative` requires to be absolute.
- The clone at `index.js:54` copies the prototype and rebinds `getResourceIdentifier`. The model keeps only what this produces: a copy whose identifier is extended by `?theme=<theme>`.
- Property order in `Object.keys` and `Object.entries` is taken as declaration order. JavaScript puts integer-like keys first, which is not modelled.
- Strings are sequences of characters. JavaScript's UTF-16 code units are not modelled, and regular expressions run without the `u` flag.
- Loader.RunLoader: requires that the default import filename reads literally inside the statement pattern. That means at most one '.' and no other regular-expression metacharacter, because `loader.js:17` escapes only the first '.'. Filenames with other metacharacters, whose pattern would mean something else, are not modelled.
- Plugin.ThemesPlugin.BeforeResolve: requires at least one dependency. `index.js:75` would throw a `TypeError` on an empty list.
- Plugin.ThemesPlugin.OptimizeChunkModules: requires that the chunk list and each group's chunk list hold no chunk twice. The model needs this, not the hook: `ChunkGroup.removeChunk` splices out only the first occurrence, while the model states each group's new list as the old one without the chunk, which removes every occurrence. The two agree only on lists without repeats.
- Plugin.ThemesPlugin.OptimizeChunkAssets: requires that the chunk list holds no chunk twice, so that the contract can state each theme chunk's files once.
- Graph.ChunkGroup.RemoveChunk: webpack's `ChunkGroup` is not part of this model. It is taken to behave as webpack 4's `removeChunk`: the chunk is spliced out of the group's list, and the chunk's `_groups` is left as it was. So after `index.js:146` a theme chunk still records the groups that no longer list it.
- Plugin.CleanChunk: `index.js:133` tests `module.dependencies`, and the model always has a list, so a module without a dependency list is not modelled. Webpack's module-side record of its chunks is not modelled either: `Graph.Module.RemoveChunk` only updates the chunk's set of modules.
- ThemeConfig.Lookup: a themes object is modelled as its own entries only. JavaScript's `themes[key]` also finds inherited properties, so a default key such as `toString` passes the check of `index.js:17` in JavaScript, while the model reports `DefaultThemeMissing`.
- ThemeRequest.ParseTag: requires a request without line terminators. `.` does not cross a line break, so for a request with a line break before the marker the module hook may read another key, or none.
- Loader.ReplaceEachStep: stated only for a relative target path without `$`. With a `$`, `replace` reads the new statement as a template (`$&`, `` $` ``, `$'`, `$$`); `JsReplace.Substitute` models that reading, but no lemma describes the resulting content.
- Loader.ReplaceEachKept: stated under `Separable` for each kept statement, and so is its case Loader.ReplaceEachCopies. When the new statement, or the new statement followed by the next text, forms a copy of the old one (for instance `@import 'x'` without ';' rewritten to `@import 'x';`), a later step rewrites the wrong copy; that case is not described.
- `chunk.getModules()` is the chunk's set of modules, so the order in which modules are visited is not modelled. No result depends on it.
- `path.resolve` with several arguments and Windows paths are not modelled. Only the POSIX functions the plugin calls are.
