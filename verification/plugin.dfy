/**
 * `MiniCssThemesWebpackPlugin` (index.js): the configuration it derives in
 * its constructor and the bodies of the webpack hooks it registers, each as
 * a method over the graph objects the hook receives.
 */
module Plugin {
  import opened Wrappers
  import opened Strings
  import opened Paths
  import opened ThemeConfig
  import opened ThemeRequest
  import opened Dependencies
  import opened Graph
  import Loader

  /** The value of `m[k]`, `None` for `undefined`. */
  function Get(m: map<string, string>, k: string): (r: Option<string>)
    ensures r.Some? <==> k in m
    ensures r.Some? ==> r.value == m[k]
  {
    if k in m then Some(m[k]) else None
  }

  /** The marker a theme chunk's reason carries: `(cache group: <name>)`. */
  function CacheGroupMarker(name: string): string
  {
    "(cache group: " + name + ")"
  }

  /** `chunkReason && chunkReason.indexOf(marker(name)) !== -1`: the reason names the cache group `name`. */
  predicate NamesGroup(chunkReason: Option<string>, name: string)
  {
    Truthy(chunkReason) && Contains(chunkReason.value, CacheGroupMarker(name))
  }

  /** `themeChunkNames.find(c => chunkReason && chunkReason.indexOf(marker(c)) !== -1)`. */
  function FindChunkName(names: seq<string>, chunkReason: Option<string>): (r: Option<string>)
    ensures r.Some? ==> r.value in names && NamesGroup(chunkReason, r.value)
    ensures r.None? ==> forall i :: 0 <= i < |names| ==> !NamesGroup(chunkReason, names[i])
  {
    if names == [] then None
    else if NamesGroup(chunkReason, names[0]) then Some(names[0])
    else
      var r := FindChunkName(names[1..], chunkReason);
      assert forall i :: 1 <= i < |names| ==> names[i] == names[1..][i - 1];
      r
  }

  /** `find` returns the name at the first position whose group the reason names. */
  lemma {:induction false} FindChunkNameFirst(names: seq<string>, chunkReason: Option<string>, i: nat)
    requires i < |names| && NamesGroup(chunkReason, names[i])
    requires forall k :: 0 <= k < i ==> !NamesGroup(chunkReason, names[k])
    ensures FindChunkName(names, chunkReason) == Some(names[i])
    decreases i
  {
    if i > 0 {
      assert !NamesGroup(chunkReason, names[0]);
      assert forall k :: 0 <= k < i - 1 ==> names[1..][k] == names[k + 1];
      FindChunkNameFirst(names[1..], chunkReason, i - 1);
    }
  }

  /** The filter of index.js:44-46 keeps the chunk: the name `find` returns is truthy. */
  predicate IsThemeChunk(c: Chunk, names: seq<string>)
  {
    Truthy(FindChunkName(names, c.chunkReason))
  }

  /** When every name is non-empty, a chunk is a theme chunk exactly when its reason names one of the cache groups. */
  lemma {:induction false} IsThemeChunkIff(c: Chunk, names: seq<string>)
    requires forall i :: 0 <= i < |names| ==> names[i] != ""
    ensures IsThemeChunk(c, names) <==>
      exists i :: 0 <= i < |names| && NamesGroup(c.chunkReason, names[i])
  {
    var r := FindChunkName(names, c.chunkReason);
    if r.Some? {
      var i :| 0 <= i < |names| && names[i] == r.value;
    }
  }

  /** `filterThemeChunks(chunks)` (index.js:44-46). */
  function FilterThemeChunks(chunks: seq<Chunk>, names: seq<string>): (r: seq<Chunk>)
    ensures |r| <= |chunks|
    ensures forall c :: c in r ==> c in chunks
  {
    if chunks == [] then []
    else
      var rest := FilterThemeChunks(chunks[1..], names);
      if IsThemeChunk(chunks[0], names) then [chunks[0]] + rest else rest
  }

  /** The theme chunks are the chunks the filter keeps. */
  lemma {:induction false} FilterThemeChunksMembers(chunks: seq<Chunk>, names: seq<string>)
    ensures forall c :: c in FilterThemeChunks(chunks, names) <==> c in chunks && IsThemeChunk(c, names)
    decreases |chunks|
  {
    if chunks != [] {
      FilterThemeChunksMembers(chunks[1..], names);
      assert forall c :: c in chunks <==> c == chunks[0] || c in chunks[1..];
    }
  }

  /** The filter keeps the chunks in order, so it adds no repeats. */
  lemma {:induction false} FilterThemeChunksNoRepeats(chunks: seq<Chunk>, names: seq<string>)
    requires NoRepeats(chunks)
    ensures NoRepeats(FilterThemeChunks(chunks, names))
    decreases |chunks|
  {
    if chunks != [] {
      FilterThemeChunksNoRepeats(chunks[1..], names);
    }
  }


  /** `file.match(/\.css$/)`. */
  predicate IsCss(file: string)
  {
    EndsWith(file, ".css")
  }

  /** `files.filter(file => file.match(/\.css$/))`. */
  function CssFiles(files: seq<string>): (r: seq<string>)
    ensures |r| <= |files|
    ensures forall f :: f in r <==> f in files && IsCss(f)
  {
    if files == [] then []
    else
      var rest := CssFiles(files[1..]);
      assert forall f :: f in files <==> f == files[0] || f in files[1..];
      if IsCss(files[0]) then [files[0]] + rest else rest
  }

  /** `files.filter(file => !file.match(/\.css$/))`. */
  function NonCssFiles(files: seq<string>): (r: seq<string>)
    ensures |r| <= |files|
    ensures forall f :: f in r <==> f in files && !IsCss(f)
  {
    if files == [] then []
    else
      var rest := NonCssFiles(files[1..]);
      assert forall f :: f in files <==> f == files[0] || f in files[1..];
      if IsCss(files[0]) then rest else [files[0]] + rest
  }

  /** Every file goes to exactly one of the two filters. */
  lemma {:induction false} CssFilesSplit(files: seq<string>)
    ensures |CssFiles(files)| + |NonCssFiles(files)| == |files|
    decreases |files|
  {
    if files != [] {
      CssFilesSplit(files[1..]);
    }
  }

  /** The filter keeps the files in order: it distributes over concatenation. */
  lemma {:induction false} CssFilesAppend(a: seq<string>, b: seq<string>)
    ensures CssFiles(a + b) == CssFiles(a) + CssFiles(b)
    decreases |a|
  {
    if a == [] {
      assert a + b == b;
    } else {
      var ab := a + b;
      assert ab[0] == a[0] && ab[1..] == a[1..] + b;
      CssFilesAppend(a[1..], b);
      assert CssFiles(ab) == (if IsCss(a[0]) then [a[0]] else []) + CssFiles(a[1..] + b);
      assert CssFiles(a) == (if IsCss(a[0]) then [a[0]] else []) + CssFiles(a[1..]);
    }
  }

  /** So does the filter on the other files. */
  lemma {:induction false} NonCssFilesAppend(a: seq<string>, b: seq<string>)
    ensures NonCssFiles(a + b) == NonCssFiles(a) + NonCssFiles(b)
    decreases |a|
  {
    if a == [] {
      assert a + b == b;
    } else {
      var ab := a + b;
      assert ab[0] == a[0] && ab[1..] == a[1..] + b;
      NonCssFilesAppend(a[1..], b);
      if IsCss(a[0]) {
        assert NonCssFiles(ab) == NonCssFiles(a[1..] + b);
      } else {
        assert NonCssFiles(ab) == [a[0]] + NonCssFiles(a[1..] + b);
        assert NonCssFiles(a) == [a[0]] + NonCssFiles(a[1..]);
      }
    }
  }



  /** Every chunk of the list, with the modules it holds. */
  ghost function ModulesOf(chunks: seq<Chunk>): set<Module>
    reads (set c | c in chunks)`modules
  {
    set c, m | c in chunks && m in c.modules :: m
  }

  /** Every group some chunk of the list belongs to. */
  ghost function GroupsOf(chunks: seq<Chunk>): set<ChunkGroup>
    reads (set c | c in chunks)`groups
  {
    set c, g | c in chunks && g in c.groups :: g
  }

  /** The modules of `ms` that carry no theme. */
  ghost function UnthemedModules(ms: set<Module>): set<Module>
    reads ms`themed
  {
    set m | m in ms && !Truthy(m.themed)
  }

  /**
   * The body of `chunk.getModules().forEach(...)` (index.js:129-140): each
   * module of the chunk loses its themed dependencies, and a themed module
   * leaves the chunk.
   */
  method CleanChunk(chunk: Chunk)
    modifies chunk`modules, chunk.modules`dependencies
    ensures chunk.modules == UnthemedModules(old(chunk.modules))
    ensures forall m :: m in old(chunk.modules) ==> m.dependencies == Unthemed(old(m.dependencies))
  {
    var remaining := chunk.modules;
    ghost var snapshot := remaining;
    while remaining != {}
      invariant remaining <= snapshot == old(chunk.modules)
      invariant forall m :: m in chunk.modules <==> m in snapshot && (m in remaining || !Truthy(m.themed))
      invariant forall m :: m in snapshot ==> m.dependencies == if m in remaining then old(m.dependencies) else Unthemed(old(m.dependencies))
      decreases remaining
    {
      var m :| m in remaining;
      m.dependencies := Unthemed(m.dependencies);
      if Truthy(m.themed) {
        var _ := m.RemoveChunk(chunk);
      }
      remaining := remaining - {m};
    }
  }

  /**
   * The first half of the `optimizeChunkModules` hook (index.js:128-141),
   * over every chunk in turn.
   */
  method DropThemedModules(chunks: seq<Chunk>)
    requires NoRepeats(chunks)
    modifies (set c | c in chunks)`modules, ModulesOf(chunks)`dependencies
    ensures forall c :: c in chunks ==> c.modules == UnthemedModules(old(c.modules))
    ensures forall m :: m in old(ModulesOf(chunks)) ==> m.dependencies == Unthemed(old(m.dependencies))
  {
    ghost var mods := ModulesOf(chunks);
    ghost var visited: set<Module> := {};
    var i := 0;
    while i < |chunks|
      invariant 0 <= i <= |chunks|
      invariant visited <= mods
      invariant forall k, m :: 0 <= k < i && m in old(chunks[k].modules) ==> m in visited
      invariant forall k :: 0 <= k < |chunks| ==>
        chunks[k].modules == if k < i then UnthemedModules(old(chunks[k].modules)) else old(chunks[k].modules)
      invariant forall m :: m in mods ==> m.dependencies == if m in visited then Unthemed(old(m.dependencies)) else old(m.dependencies)
    {
      var chunk := chunks[i];
      assert chunk.modules <= mods;
      forall k | 0 <= k < |chunks| && k != i ensures chunks[k] != chunk {
        NoRepeatsApart(chunks, k, i);
      }
      forall m | m in chunk.modules {
        UnthemedIdempotent(old(m.dependencies));
      }
      CleanChunk(chunk);
      visited := visited + old(chunk.modules);
      i := i + 1;
    }
  }

  /**
   * `chunk._groups.forEach(entry => entry.removeChunk(chunk))` (index.js:146):
   * every group of the chunk stops listing it, while the chunk keeps its own
   * record of its groups.
   */
  method DetachChunk(chunk: Chunk)
    requires forall g :: g in chunk.groups ==> NoRepeats(g.chunks)
    modifies chunk.groups`chunks
    ensures forall g :: g in chunk.groups ==> g.chunks == Without(old(g.chunks), {chunk})
  {
    var remaining := chunk.groups;
    while remaining != {}
      invariant remaining <= chunk.groups
      invariant forall g :: g in chunk.groups ==> g.chunks == if g in remaining then old(g.chunks) else Without(old(g.chunks), {chunk})
      decreases remaining
    {
      var g :| g in remaining;
      ghost var before := g.chunks;
      assert before == old(g.chunks);
      var removed := g.RemoveChunk(chunk);
      if removed {
        ghost var j :| 0 <= j < |before| && before[j] == chunk && g.chunks == before[..j] + before[j + 1..];
        NoRepeatsIsDistinct(before);
        CutIsWithout(before, j);
      } else {
        WithoutAbsent(before, {chunk});
      }
      assert g.chunks == Without(old(g.chunks), {chunk});
      remaining := remaining - {g};
    }
  }

  /** The theme chunks among the first `i` that listed `g` among their groups. */
  ghost function DetachedFrom(themeChunks: seq<Chunk>, groups0: map<Chunk, set<ChunkGroup>>, i: nat, g: ChunkGroup): set<Chunk>
    requires i <= |themeChunks|
  {
    set k | 0 <= k < i && themeChunks[k] in groups0 && g in groups0[themeChunks[k]] :: themeChunks[k]
  }

  /** The snapshots detaching starts from: each theme chunk once, with its groups, each listing every chunk at most once. */
  ghost predicate DetachSnapshots(themeChunks: seq<Chunk>, groups0: map<Chunk, set<ChunkGroup>>, chunks0: map<ChunkGroup, seq<Chunk>>)
    reads (set c | c in themeChunks)`groups
  {
    && NoRepeats(themeChunks)
    && (forall c :: c in themeChunks ==> c in groups0 && c.groups == groups0[c] && groups0[c] <= chunks0.Keys)
    && (forall g :: g in chunks0 ==> NoRepeats(chunks0[g]))
  }

  /** Where detaching stands after the first `i` theme chunks, against the snapshots `groups0` of
      each chunk's groups and `chunks0` of each group's chunk list taken before the first one. */
  ghost predicate DetachedUpTo(themeChunks: seq<Chunk>, groups0: map<Chunk, set<ChunkGroup>>,
                               chunks0: map<ChunkGroup, seq<Chunk>>, i: nat)
    requires i <= |themeChunks|
    reads chunks0.Keys`chunks
  {
    forall g :: g in chunks0 ==> g.chunks == Without(chunks0[g], DetachedFrom(themeChunks, groups0, i, g))
  }

  /** Theme chunk `i` is taken out of the groups it belongs to, and only those groups change. */
  method DetachOne(themeChunks: seq<Chunk>, ghost groups0: map<Chunk, set<ChunkGroup>>,
                   ghost chunks0: map<ChunkGroup, seq<Chunk>>, i: nat)
    requires i < |themeChunks| && DetachSnapshots(themeChunks, groups0, chunks0)
    requires DetachedUpTo(themeChunks, groups0, chunks0, i)
    modifies chunks0.Keys`chunks
    ensures forall g :: g in chunks0 ==>
      g.chunks == if g in groups0[themeChunks[i]] then Without(old(g.chunks), {themeChunks[i]}) else old(g.chunks)
  {
    var chunk := themeChunks[i];
    forall g | g in chunks0 ensures NoRepeats(g.chunks) {
      NoRepeatsIsDistinct(chunks0[g]);
      WithoutDistinct(chunks0[g], DetachedFrom(themeChunks, groups0, i, g));
      NoRepeatsIsDistinct(g.chunks);
    }
    DetachChunk(chunk);
  }

  /** The body of the detaching loop: theme chunk `i` is taken out of its groups. */
  method DetachNext(themeChunks: seq<Chunk>, ghost groups0: map<Chunk, set<ChunkGroup>>,
                    ghost chunks0: map<ChunkGroup, seq<Chunk>>, i: nat)
    requires i < |themeChunks| && DetachSnapshots(themeChunks, groups0, chunks0)
    requires DetachedUpTo(themeChunks, groups0, chunks0, i)
    modifies chunks0.Keys`chunks
    ensures DetachedUpTo(themeChunks, groups0, chunks0, i + 1)
  {
    DetachOne(themeChunks, groups0, chunks0, i);
    forall g | g in chunks0
      ensures g.chunks == Without(chunks0[g], DetachedFrom(themeChunks, groups0, i + 1, g))
    {
      DetachGroupStep(themeChunks, groups0, i, g, chunks0[g], old(g.chunks), g.chunks);
    }
  }

  /** What detaching chunk `i` does to the chunk list of one group keeps the list tied to its snapshot `c0`. */
  lemma {:induction false} DetachGroupStep(themeChunks: seq<Chunk>, groups0: map<Chunk, set<ChunkGroup>>, i: nat, g: ChunkGroup,
                        c0: seq<Chunk>, before: seq<Chunk>, after: seq<Chunk>)
    requires NoRepeats(themeChunks) && i < |themeChunks| && themeChunks[i] in groups0
    requires before == Without(c0, DetachedFrom(themeChunks, groups0, i, g))
    requires after == if g in groups0[themeChunks[i]] then Without(before, {themeChunks[i]}) else before
    ensures after == Without(c0, DetachedFrom(themeChunks, groups0, i + 1, g))
  {
    DetachStep(themeChunks, groups0, i, g, c0);
  }

  /** The detaching loop, theme chunk by theme chunk, in list order. */
  method DetachAll(themeChunks: seq<Chunk>, ghost groups0: map<Chunk, set<ChunkGroup>>, ghost chunks0: map<ChunkGroup, seq<Chunk>>)
    requires DetachSnapshots(themeChunks, groups0, chunks0)
    requires DetachedUpTo(themeChunks, groups0, chunks0, 0)
    modifies chunks0.Keys`chunks
    ensures DetachedUpTo(themeChunks, groups0, chunks0, |themeChunks|)
  {
    var i := 0;
    while i < |themeChunks|
      invariant 0 <= i <= |themeChunks|
      invariant DetachSnapshots(themeChunks, groups0, chunks0)
      invariant DetachedUpTo(themeChunks, groups0, chunks0, i)
    {
      DetachNext(themeChunks, groups0, chunks0, i);
      i := i + 1;
    }
  }

  /**
   * The second half of the `optimizeChunkModules` hook (index.js:146): every
   * theme chunk is detached from its groups; the chunks' records of their
   * groups stay as they were.
   */
  method DetachThemeChunks(themeChunks: seq<Chunk>)
    requires NoRepeats(themeChunks)
    requires forall c, g :: c in themeChunks && g in c.groups ==> NoRepeats(g.chunks)
    modifies GroupsOf(themeChunks)`chunks
    ensures forall g :: g in GroupsOf(themeChunks) ==>
      g.chunks == Without(old(g.chunks), set c | c in themeChunks && g in c.groups)
  {
    ghost var groups := GroupsOf(themeChunks);
    ghost var groups0 := map c | c in themeChunks :: c.groups;
    ghost var chunks0 := map g | g in groups :: g.chunks;
    DetachStart(themeChunks, groups0, chunks0);
    DetachAll(themeChunks, groups0, chunks0);
    ghost var i := |themeChunks|;
    forall g | g in groups ensures DetachedFrom(themeChunks, groups0, i, g) == set c | c in themeChunks && g in c.groups {
    }
  }

  /** Before the first chunk is detached, every group still lists what it listed. */
  lemma {:induction false} DetachStart(themeChunks: seq<Chunk>, groups0: map<Chunk, set<ChunkGroup>>, chunks0: map<ChunkGroup, seq<Chunk>>)
    requires forall c :: c in themeChunks ==> c in groups0 && groups0[c] == c.groups
    requires forall g :: g in chunks0 ==> chunks0[g] == g.chunks
    ensures DetachedUpTo(themeChunks, groups0, chunks0, 0)
  {
    forall g | g in chunks0 ensures g.chunks == Without(chunks0[g], DetachedFrom(themeChunks, groups0, 0, g)) {
      assert DetachedFrom(themeChunks, groups0, 0, g) == {};
      WithoutAbsent(g.chunks, {});
    }
  }

  /** One more detached chunk adds itself to the chunks left out of a group it listed. */
  lemma {:induction false} DetachStep(themeChunks: seq<Chunk>, groups0: map<Chunk, set<ChunkGroup>>, i: nat, g: ChunkGroup, chunks0: seq<Chunk>)
    requires NoRepeats(themeChunks) && i < |themeChunks| && themeChunks[i] in groups0
    ensures Without(Without(chunks0, DetachedFrom(themeChunks, groups0, i, g)), {themeChunks[i]})
         == Without(chunks0, DetachedFrom(themeChunks, groups0, i, g) + {themeChunks[i]})
    ensures g in groups0[themeChunks[i]] ==>
      DetachedFrom(themeChunks, groups0, i + 1, g) == DetachedFrom(themeChunks, groups0, i, g) + {themeChunks[i]}
    ensures g !in groups0[themeChunks[i]] ==>
      DetachedFrom(themeChunks, groups0, i + 1, g) == DetachedFrom(themeChunks, groups0, i, g)
    ensures themeChunks[i] !in DetachedFrom(themeChunks, groups0, i, g)
  {
    NoRepeatsIsDistinct(themeChunks);
    WithoutWithout(chunks0, DetachedFrom(themeChunks, groups0, i, g), {themeChunks[i]});
  }

  class ThemesPlugin {
    const themes: seq<(string, string)>
    const defaultTheme: string
    const chunkPrefix: string
    const defaultImportFilename: string
    const nonDefaultThemeKeys: seq<string>
    const themeChunkNames: seq<string>
    const absolutePathThemes: map<string, string>

    /** The fields `init` sets from a configuration `validate` accepted (index.js:29-41). */
    predicate InitializedFrom(config: Config, cwd: string)
    {
      && config.themes.Some? && config.defaultTheme.Some?
      && themes == config.themes.value
      && defaultTheme == config.defaultTheme.value
      && Lookup(themes, defaultTheme).Some?
      && chunkPrefix == ChunkPrefix(config.chunkPrefix)
      && defaultImportFilename == DefaultImportFilename(themes, defaultTheme)
      && nonDefaultThemeKeys == NonDefaultThemeKeys(Keys(themes), defaultTheme)
      && themeChunkNames == ThemeChunkNames(chunkPrefix, nonDefaultThemeKeys)
      && absolutePathThemes == AbsolutePathThemes(themes, cwd)
    }

    /** `init(config)`; the constructor of index.js:5-8 runs it after `validate` (see `NewPlugin`). */
    constructor(config: Config, cwd: string, fileExists: string -> bool)
      requires Validate(config, cwd, fileExists).Ok?
      ensures InitializedFrom(config, cwd)
    {
      themes := config.themes.value;
      defaultTheme := config.defaultTheme.value;
      chunkPrefix := ChunkPrefix(config.chunkPrefix);
      defaultImportFilename := DefaultImportFilename(config.themes.value, config.defaultTheme.value);
      var keys := NonDefaultThemeKeys(Keys(config.themes.value), config.defaultTheme.value);
      nonDefaultThemeKeys := keys;
      themeChunkNames := ThemeChunkNames(ChunkPrefix(config.chunkPrefix), keys);
      absolutePathThemes := AbsolutePathThemes(config.themes.value, cwd);
    }

    /** The options of the theme loader for the theme `key` (index.js:94-98). */
    function LoaderOptionsFor(key: string): Loader.Options
    {
      Loader.Options(Some(defaultImportFilename), Get(absolutePathThemes, defaultTheme), Get(absolutePathThemes, key))
    }

    /**
     * For every theme key, the loader gets all three options: the default
     * filename, and the resolved files of the default theme and of that theme.
     */
    lemma {:induction false} LoaderOptionsComplete(config: Config, cwd: string, i: nat)
      requires InitializedFrom(config, cwd) && DistinctKeys(themes) && i < |themes|
      ensures var o := LoaderOptionsFor(themes[i].0);
        && o.defaultImportFilename == Some(defaultImportFilename)
        && o.defaultImportPath == Some(Resolve(cwd, Lookup(themes, defaultTheme).value))
        && o.targetImportPath == Some(Resolve(cwd, themes[i].1))
    {
      AbsolutePathThemesEntry(themes, cwd, i);
      var j :| 0 <= j < |themes| && themes[j] == (defaultTheme, Lookup(themes, defaultTheme).value);
      AbsolutePathThemesEntry(themes, cwd, j);
    }

    /**
     * The `succeedModule` hook (index.js:50-67): after the module's own
     * dependencies come, for each `.scss` dependency in order, its clones
     * for each non-default theme in order.
     */
    method SucceedModule(normalModule: Module)
      modifies normalModule
      ensures normalModule.dependencies == old(normalModule.dependencies) + Clones(ScssDependencies(old(normalModule.dependencies)), nonDefaultThemeKeys)
      ensures normalModule.request == old(normalModule.request) && normalModule.themed == old(normalModule.themed) && normalModule.loaders == old(normalModule.loaders)
    {
      var scss := ScssDependencies(normalModule.dependencies);
      var i := 0;
      while i < |scss|
        invariant 0 <= i <= |scss|
        invariant normalModule.dependencies == old(normalModule.dependencies) + Clones(scss[..i], nonDefaultThemeKeys)
        invariant normalModule.request == old(normalModule.request) && normalModule.themed == old(normalModule.themed) && normalModule.loaders == old(normalModule.loaders)
      {
        var j := 0;
        while j < |nonDefaultThemeKeys|
          invariant 0 <= j <= |nonDefaultThemeKeys|
          invariant normalModule.dependencies
            == old(normalModule.dependencies) + Clones(scss[..i], nonDefaultThemeKeys) + ClonesOf(scss[i], nonDefaultThemeKeys[..j])
          invariant normalModule.request == old(normalModule.request) && normalModule.themed == old(normalModule.themed) && normalModule.loaders == old(normalModule.loaders)
        {
          ClonesOfSnoc(scss[i], nonDefaultThemeKeys, j);
          normalModule.dependencies := normalModule.dependencies + [Clone(scss[i], nonDefaultThemeKeys[j])];
          j := j + 1;
        }
        assert nonDefaultThemeKeys[..j] == nonDefaultThemeKeys;
        ClonesSnoc(scss, nonDefaultThemeKeys, i);
        i := i + 1;
      }
      assert scss[..i] == scss;
    }

    /** The `beforeResolve` hook (index.js:74-82): a themed `.scss` request gets the theme marker. */
    method BeforeResolve(data: ResolveData)
      requires |data.dependencies| > 0
      modifies data
      ensures data.request == Tag(old(data.request), data.dependencies[0].themed)
    {
      var theme := data.dependencies[0].themed;
      if IsScss(data.request) && Truthy(theme) {
        data.request := data.request + "??theme:" + theme.value;
      }
    }

    /**
     * The `module` hook (index.js:88-101): a request carrying a theme marker
     * marks the module with the theme and appends the theme loader.
     */
    method OnModule(normalModule: Module)
      modifies normalModule
      ensures ParseTheme(old(normalModule.request)).None? ==> normalModule.themed == old(normalModule.themed) && normalModule.loaders == old(normalModule.loaders)
      ensures ParseTheme(old(normalModule.request)).Some? ==>
        && normalModule.themed == ParseTheme(old(normalModule.request))
        && normalModule.loaders == old(normalModule.loaders) + [ThemeLoader(LoaderOptionsFor(ParseTheme(old(normalModule.request)).value))]
      ensures normalModule.request == old(normalModule.request) && normalModule.dependencies == old(normalModule.dependencies)
    {
      var theme := ParseTheme(normalModule.request);
      if theme.Some? {
        normalModule.themed := Some(theme.value);
        normalModule.loaders := normalModule.loaders + [ThemeLoader(LoaderOptionsFor(theme.value))];
      }
    }

    /**
     * The `optimizeChunkModules` hook (index.js:127-147): every chunk drops
     * its themed modules and every module its themed dependencies, then
     * every group stops listing its theme chunks; no other group changes.
     */
    method OptimizeChunkModules(chunks: seq<Chunk>)
      requires NoRepeats(chunks)
      requires forall c, g :: c in chunks && g in c.groups ==> NoRepeats(g.chunks)
      modifies (set c | c in chunks)`modules, ModulesOf(chunks)`dependencies, GroupsOf(chunks)`chunks
      ensures forall c :: c in chunks ==> c.modules == UnthemedModules(old(c.modules))
      ensures forall m :: m in old(ModulesOf(chunks)) ==> m.dependencies == Unthemed(old(m.dependencies))
      ensures forall c :: c in chunks ==> c.groups == old(c.groups)
      ensures forall g :: g in GroupsOf(FilterThemeChunks(chunks, themeChunkNames)) ==>
        g.chunks == Without(old(g.chunks), set c | c in FilterThemeChunks(chunks, themeChunkNames) && g in c.groups)
      ensures forall g :: g in GroupsOf(chunks) && g !in GroupsOf(FilterThemeChunks(chunks, themeChunkNames)) ==>
        g.chunks == old(g.chunks)
    {
      var themeChunks := FilterThemeChunks(chunks, themeChunkNames);
      FilterThemeChunksNoRepeats(chunks, themeChunkNames);
      DropThemedModules(chunks);
      DetachThemeChunks(themeChunks);
    }

    /**
     * The `optimizeChunkAssets` hook (index.js:153-158): the theme chunks keep
     * only their CSS files and the assets of their other files are deleted;
     * no CSS asset and no other chunk is touched.
     */
    method OptimizeChunkAssets(compilation: Compilation, chunks: seq<Chunk>)
      requires NoRepeats(chunks)
      modifies compilation`assets, (set c | c in chunks)`files
      ensures forall c :: c in FilterThemeChunks(chunks, themeChunkNames) ==> c.files == CssFiles(old(c.files))
      ensures forall c :: c in chunks && c !in FilterThemeChunks(chunks, themeChunkNames) ==> c.files == old(c.files)
      ensures compilation.assets == old(compilation.assets) - old(NonCssFilesOf(FilterThemeChunks(chunks, themeChunkNames)))
      ensures forall f :: f in old(compilation.assets) && IsCss(f) ==> f in compilation.assets && compilation.assets[f] == old(compilation.assets[f])
    {
      var themeChunks := FilterThemeChunks(chunks, themeChunkNames);
      FilterThemeChunksNoRepeats(chunks, themeChunkNames);
      StripThemeChunkFiles(compilation, themeChunks);
    }
  }

  /** The files a list names. */
  function Elements(files: seq<string>): set<string>
  {
    set f | f in files
  }

  /** `files.forEach(file => delete compilation.assets[file])` (index.js:155). */
  method DeleteAssets(compilation: Compilation, files: seq<string>)
    modifies compilation`assets
    ensures compilation.assets == old(compilation.assets) - Elements(files)
  {
    var i := 0;
    while i < |files|
      invariant 0 <= i <= |files|
      invariant compilation.assets == old(compilation.assets) - Elements(files[..i])
    {
      compilation.DeleteAsset(files[i]);
      assert files[..i + 1] == files[..i] + [files[i]];
      assert Elements(files[..i + 1]) == Elements(files[..i]) + {files[i]};
      i := i + 1;
    }
    assert files[..i] == files;
  }

  /** The non-CSS files the chunks of the list hold. */
  ghost function NonCssFilesOf(chunks: seq<Chunk>): set<string>
    reads (set c | c in chunks)`files
  {
    set c, f | c in chunks && f in c.files && !IsCss(f) :: f
  }

  /** The non-CSS files, among the snapshot `files0`, of the first `i` chunks of the list. */
  ghost function DroppedFiles(themeChunks: seq<Chunk>, files0: map<Chunk, seq<string>>, i: nat): set<string>
    requires i <= |themeChunks|
  {
    set k, f | 0 <= k < i && themeChunks[k] in files0 && f in files0[themeChunks[k]] && !IsCss(f) :: f
  }

  /** One more chunk adds its non-CSS files to those dropped. */
  lemma {:induction false} DroppedFilesStep(themeChunks: seq<Chunk>, files0: map<Chunk, seq<string>>, i: nat)
    requires i < |themeChunks| && themeChunks[i] in files0
    ensures DroppedFiles(themeChunks, files0, i + 1) == DroppedFiles(themeChunks, files0, i) + Elements(NonCssFiles(files0[themeChunks[i]]))
  {
    var nonCss := NonCssFiles(files0[themeChunks[i]]);
    CssFilesSplit(files0[themeChunks[i]]);
    forall f | f in DroppedFiles(themeChunks, files0, i + 1) ensures f in DroppedFiles(themeChunks, files0, i) + Elements(nonCss) {
      var k :| 0 <= k < i + 1 && themeChunks[k] in files0 && f in files0[themeChunks[k]] && !IsCss(f);
      if k < i {
        assert f in DroppedFiles(themeChunks, files0, i);
      }
    }
  }

  /** Deleting two sets of keys in turn deletes their union. */
  lemma {:induction false} MinusMinus(m: map<string, Asset>, a: set<string>, b: set<string>)
    ensures (m - a) - b == m - (a + b)
  {
  }

  /** Where stripping stands after the first `i` theme chunks, against the snapshots `files0` of their files and `assets0` of the assets. */
  ghost predicate StrippedUpTo(compilation: Compilation, themeChunks: seq<Chunk>, files0: map<Chunk, seq<string>>,
                               assets0: map<string, Asset>, i: nat)
    requires i <= |themeChunks|
    reads compilation`assets, (set c | c in themeChunks)`files
  {
    && (forall k :: 0 <= k < |themeChunks| && themeChunks[k] in files0 ==>
          themeChunks[k].files == if k < i then CssFiles(files0[themeChunks[k]]) else files0[themeChunks[k]])
    && compilation.assets == assets0 - DroppedFiles(themeChunks, files0, i)
  }

  /** The body of the stripping loop: theme chunk `i` loses its non-CSS files and their assets. */
  method StripNext(compilation: Compilation, themeChunks: seq<Chunk>, ghost files0: map<Chunk, seq<string>>,
                   ghost assets0: map<string, Asset>, i: nat)
    requires i < |themeChunks| && NoRepeats(themeChunks) && themeChunks[i] in files0
    requires StrippedUpTo(compilation, themeChunks, files0, assets0, i)
    modifies compilation`assets, {themeChunks[i]}`files
    ensures StrippedUpTo(compilation, themeChunks, files0, assets0, i + 1)
  {
    var chunk := themeChunks[i];
    var nonCss := NonCssFiles(chunk.files);
    DeleteAssets(compilation, nonCss);
    chunk.files := CssFiles(chunk.files);
    DroppedFilesStep(themeChunks, files0, i);
    MinusMinus(assets0, DroppedFiles(themeChunks, files0, i), Elements(nonCss));
    forall k | 0 <= k < |themeChunks| && themeChunks[k] in files0 && k != i
      ensures themeChunks[k].files == old(themeChunks[k].files)
    {
      NoRepeatsApart(themeChunks, k, i);
    }
  }

  /** The stripping loop, theme chunk by theme chunk. */
  method StripAll(compilation: Compilation, themeChunks: seq<Chunk>, ghost files0: map<Chunk, seq<string>>, ghost assets0: map<string, Asset>)
    requires NoRepeats(themeChunks) && forall c :: c in themeChunks ==> c in files0
    requires StrippedUpTo(compilation, themeChunks, files0, assets0, 0)
    modifies compilation`assets, (set c | c in themeChunks)`files
    ensures StrippedUpTo(compilation, themeChunks, files0, assets0, |themeChunks|)
  {
    var i := 0;
    while i < |themeChunks|
      invariant 0 <= i <= |themeChunks|
      invariant StrippedUpTo(compilation, themeChunks, files0, assets0, i)
    {
      StripNext(compilation, themeChunks, files0, assets0, i);
      i := i + 1;
    }
  }

  /**
   * The body of the `optimizeChunkAssets` hook (index.js:154-158) over the
   * theme chunks: each deletes the assets of its non-CSS files and keeps only
   * its CSS files.
   */
  method StripThemeChunkFiles(compilation: Compilation, themeChunks: seq<Chunk>)
    requires NoRepeats(themeChunks)
    modifies compilation`assets, (set c | c in themeChunks)`files
    ensures forall c :: c in themeChunks ==> c.files == CssFiles(old(c.files))
    ensures compilation.assets == old(compilation.assets) - old(NonCssFilesOf(themeChunks))
  {
    ghost var files0 := map c | c in themeChunks :: c.files;
    ghost var assets0 := compilation.assets;
    assert DroppedFiles(themeChunks, files0, 0) == {};
    StripAll(compilation, themeChunks, files0, assets0);
    assert DroppedFiles(themeChunks, files0, |themeChunks|) == old(NonCssFilesOf(themeChunks));
    forall c | c in themeChunks ensures c.files == CssFiles(old(c.files)) {
      var k :| 0 <= k < |themeChunks| && themeChunks[k] == c;
    }
  }

  /** `new MiniCssThemesWebpackPlugin(config)` (index.js:5-8): `validate`, then `init`. */
  method NewPlugin(config: Config, cwd: string, fileExists: string -> bool) returns (r: Result<ThemesPlugin, ConfigError>)
    ensures Validate(config, cwd, fileExists).Err? ==> r == Err(Validate(config, cwd, fileExists).error)
    ensures Validate(config, cwd, fileExists).Ok? ==> r.Ok? && fresh(r.value) && r.value.InitializedFrom(config, cwd)
  {
    var v := Validate(config, cwd, fileExists);
    if v.Err? {
      return Err(v.error);
    }
    var p := new ThemesPlugin(config, cwd, fileExists);
    return Ok(p);
  }
}
