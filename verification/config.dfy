/**
 * The plugin's configuration (index.js:10-41): `validate` checks it and
 * `init` derives from it the values the hooks use. The `themes` object is
 * the list of its entries in enumeration order; a JavaScript object has each
 * key once, which `DistinctKeys` states where a lemma needs it.
 */
module ThemeConfig {
  import opened Wrappers
  import opened Strings
  import opened Paths

  /** The constructor's argument; an absent property is `None`. */
  datatype Config = Config(
    themes: Option<seq<(string, string)>>,
    defaultTheme: Option<string>,
    chunkPrefix: Option<string>)

  /** The errors `validate` throws, in the order it checks for them. */
  datatype ConfigError =
    | NoThemes
    | NoDefaultTheme
    | DefaultThemeMissing(key: string)
    | ThemeFileNotFound(key: string, fullPath: string)

  function Keys(themes: seq<(string, string)>): (r: seq<string>)
    ensures |r| == |themes| && forall i :: 0 <= i < |r| ==> r[i] == themes[i].0
  {
    if themes == [] then [] else [themes[0].0] + Keys(themes[1..])
  }

  predicate DistinctKeys(themes: seq<(string, string)>)
  {
    forall i, j :: 0 <= i < j < |themes| ==> themes[i].0 != themes[j].0
  }

  /** `themes[key]`: the file of the entry with that key. */
  function Lookup(themes: seq<(string, string)>, key: string): (r: Option<string>)
    ensures r.None? <==> key !in Keys(themes)
    ensures r.Some? ==> exists i :: 0 <= i < |themes| && themes[i] == (key, r.value)
  {
    if themes == [] then None
    else if themes[0].0 == key then Some(themes[0].1)
    else
      var r := Lookup(themes[1..], key);
      assert Keys(themes) == [themes[0].0] + Keys(themes[1..]);
      assert r.Some? ==> themes[1..][..] == themes[1..] && forall i :: 0 <= i < |themes| - 1 ==> themes[1..][i] == themes[i + 1];
      r
  }

  /** With distinct keys, the lookup finds the file of the entry with that key. */
  lemma {:induction false} LookupEntry(themes: seq<(string, string)>, i: nat)
    requires DistinctKeys(themes) && i < |themes|
    ensures Lookup(themes, themes[i].0) == Some(themes[i].1)
  {
    var r := Lookup(themes, themes[i].0);
    assert themes[i].0 in Keys(themes);
    var j :| 0 <= j < |themes| && themes[j] == (themes[i].0, r.value);
    assert i == j;
  }

  /**
   * The first entry, in order, whose file resolved against `cwd` does not
   * exist: the `forEach` of index.js:21-26 throws at it.
   */
  function FirstMissing(themes: seq<(string, string)>, cwd: string, fileExists: string -> bool): (r: Option<(string, string)>)
    ensures r.Some? ==> !fileExists(r.value.1)
  {
    if themes == [] then None
    else
      var full := Resolve(cwd, themes[0].1);
      if !fileExists(full) then Some((themes[0].0, full))
      else FirstMissing(themes[1..], cwd, fileExists)
  }

  /** Nothing is reported exactly when every entry's file exists. */
  lemma {:induction false} FirstMissingNone(themes: seq<(string, string)>, cwd: string, fileExists: string -> bool)
    ensures FirstMissing(themes, cwd, fileExists).None? <==>
      forall i :: 0 <= i < |themes| ==> fileExists(Resolve(cwd, themes[i].1))
    decreases |themes|
  {
    if themes != [] {
      var tail := themes[1..];
      FirstMissingNone(tail, cwd, fileExists);
      assert forall i :: 0 < i < |themes| ==> themes[i] == tail[i - 1];
    }
  }

  /** The position of the entry `FirstMissing` reports. */
  ghost function MissingAt(themes: seq<(string, string)>, cwd: string, fileExists: string -> bool): nat
    requires FirstMissing(themes, cwd, fileExists).Some?
    decreases |themes|
  {
    if !fileExists(Resolve(cwd, themes[0].1)) then 0
    else 1 + MissingAt(themes[1..], cwd, fileExists)
  }

  /** The entry reported missing is the first missing one: every earlier file exists. */
  lemma {:induction false} FirstMissingIsFirst(themes: seq<(string, string)>, cwd: string, fileExists: string -> bool)
    requires FirstMissing(themes, cwd, fileExists).Some?
    ensures var i := MissingAt(themes, cwd, fileExists);
      && i < |themes|
      && FirstMissing(themes, cwd, fileExists).value == (themes[i].0, Resolve(cwd, themes[i].1))
      && forall j :: 0 <= j < i ==> fileExists(Resolve(cwd, themes[j].1))
  {
    MissingAtEntry(themes, cwd, fileExists);
    MissingAtAfterPresent(themes, cwd, fileExists);
    var i := MissingAt(themes, cwd, fileExists);
    FirstMissingNone(themes[..i], cwd, fileExists);
    forall j | 0 <= j < i ensures fileExists(Resolve(cwd, themes[j].1)) {
      assert themes[..i][j] == themes[j];
    }
  }

  /** `FirstMissing` reports the entry at `MissingAt`. */
  lemma {:induction false} MissingAtEntry(themes: seq<(string, string)>, cwd: string, fileExists: string -> bool)
    requires FirstMissing(themes, cwd, fileExists).Some?
    ensures var i := MissingAt(themes, cwd, fileExists);
      i < |themes| && FirstMissing(themes, cwd, fileExists).value == (themes[i].0, Resolve(cwd, themes[i].1))
    decreases |themes|
  {
    if fileExists(Resolve(cwd, themes[0].1)) {
      var tail := themes[1..];
      MissingAtEntry(tail, cwd, fileExists);
      var i := MissingAt(tail, cwd, fileExists);
      assert MissingAt(themes, cwd, fileExists) == i + 1;
      assert FirstMissing(themes, cwd, fileExists) == FirstMissing(tail, cwd, fileExists);
      assert themes[i + 1] == tail[i];
    }
  }

  /** The entries before `MissingAt` have nothing missing. */
  lemma {:induction false} MissingAtAfterPresent(themes: seq<(string, string)>, cwd: string, fileExists: string -> bool)
    requires FirstMissing(themes, cwd, fileExists).Some?
    ensures MissingAt(themes, cwd, fileExists) <= |themes|
    ensures FirstMissing(themes[..MissingAt(themes, cwd, fileExists)], cwd, fileExists).None?
    decreases |themes|
  {
    if fileExists(Resolve(cwd, themes[0].1)) {
      var tail := themes[1..];
      MissingAtAfterPresent(tail, cwd, fileExists);
      var i := MissingAt(tail, cwd, fileExists);
      assert MissingAt(themes, cwd, fileExists) == i + 1;
      assert themes[..i + 1][0] == themes[0];
      assert themes[..i + 1][1..] == tail[..i];
    }
  }

  /** `validate(config)` of index.js:10-27: `Ok` where it returns, `Err` with what it throws. */
  function Validate(config: Config, cwd: string, fileExists: string -> bool): (r: Result<(), ConfigError>)
    ensures r.Ok? ==> config.themes.Some? && Truthy(config.defaultTheme) && Truthy(Lookup(config.themes.value, config.defaultTheme.value))
    ensures r.Err? && r.error.ThemeFileNotFound? ==> !fileExists(r.error.fullPath)
  {
    if config.themes.None? then Err(NoThemes)
    else if !Truthy(config.defaultTheme) then Err(NoDefaultTheme)
    else if !Truthy(Lookup(config.themes.value, config.defaultTheme.value)) then Err(DefaultThemeMissing(config.defaultTheme.value))
    else match FirstMissing(config.themes.value, cwd, fileExists)
      case Some(entry) => Err(ThemeFileNotFound(entry.0, entry.1))
      case None => Ok(())
  }

  /** The configuration is accepted exactly when every check passes. */
  lemma {:induction false} ValidateOk(config: Config, cwd: string, fileExists: string -> bool)
    ensures Validate(config, cwd, fileExists).Ok? <==>
      && config.themes.Some?
      && Truthy(config.defaultTheme)
      && Truthy(Lookup(config.themes.value, config.defaultTheme.value))
      && forall i :: 0 <= i < |config.themes.value| ==> fileExists(Resolve(cwd, config.themes.value[i].1))
  {
    if config.themes.Some? {
      FirstMissingNone(config.themes.value, cwd, fileExists);
    }
  }

  /** The checks come in order: an error is reported only when every earlier check passed. */
  lemma {:induction false} ValidateErrorOrder(config: Config, cwd: string, fileExists: string -> bool)
    ensures var r := Validate(config, cwd, fileExists);
      && (r == Err(NoThemes) <==> config.themes.None?)
      && (r == Err(NoDefaultTheme) <==> config.themes.Some? && !Truthy(config.defaultTheme))
      && (r.Err? && r.error.DefaultThemeMissing? <==>
            config.themes.Some? && Truthy(config.defaultTheme)
            && !Truthy(Lookup(config.themes.value, config.defaultTheme.value)))
      && (r.Err? && r.error.ThemeFileNotFound? ==>
            && config.themes.Some? && Truthy(config.defaultTheme)
            && Truthy(Lookup(config.themes.value, config.defaultTheme.value))
            && !fileExists(r.error.fullPath)
            && (r.error.key, r.error.fullPath) in
                 set i | 0 <= i < |config.themes.value| :: (config.themes.value[i].0, Resolve(cwd, config.themes.value[i].1)))
  {
    var r := Validate(config, cwd, fileExists);
    if r.Err? && r.error.ThemeFileNotFound? {
      var themes := config.themes.value;
      FirstMissingIsFirst(themes, cwd, fileExists);
      var i := MissingAt(themes, cwd, fileExists);
      assert (r.error.key, r.error.fullPath) == (themes[i].0, Resolve(cwd, themes[i].1));
    }
  }

  /** `chunkPrefix || 'theme__'`. */
  function ChunkPrefix(chunkPrefix: Option<string>): (r: string)
    ensures r != ""
    ensures Truthy(chunkPrefix) ==> r == chunkPrefix.value
  {
    if Truthy(chunkPrefix) then chunkPrefix.value else "theme__"
  }

  predicate IsAlnum(c: char)
  {
    'a' <= c <= 'z' || 'A' <= c <= 'Z' || '0' <= c <= '9'
  }

  predicate AllAlnum(s: string)
  {
    forall i :: 0 <= i < |s| ==> IsAlnum(s[i])
  }

  /** `/\.[a-zA-Z0-9]+$/` matches at `p`. */
  predicate ExtensionAt(s: string, p: nat)
  {
    p + 1 < |s| && s[p] == '.' && AllAlnum(s[p + 1..])
  }

  function LastIndexOfChar(s: string, c: char): (r: Option<nat>)
    ensures r.None? <==> c !in s
    ensures r.Some? ==> r.value < |s| && s[r.value] == c && c !in s[r.value + 1..]
  {
    if s == [] then None
    else if s[|s| - 1] == c then Some(|s| - 1)
    else
      var r := LastIndexOfChar(s[..|s| - 1], c);
      assert s == s[..|s| - 1] + [s[|s| - 1]];
      assert r.Some? ==> s[r.value + 1..] == s[..|s| - 1][r.value + 1..] + [s[|s| - 1]];
      r
  }

  /** `s.replace(/\.[a-zA-Z0-9]+$/, '')`: a final alphanumeric extension removed. */
  function StripFinalExtension(s: string): (r: string)
    ensures StartsWith(s, r)
    ensures r != s ==> ExtensionAt(s, |r|)
  {
    match LastIndexOfChar(s, '.')
    case None => s
    case Some(p) => if ExtensionAt(s, p) then s[..p] else s
  }

  /** The pattern can only match at the last '.', so stripping cuts there exactly when the pattern matches. */
  lemma {:induction false} StripFinalExtensionMatch(s: string)
    ensures forall p: nat :: ExtensionAt(s, p) ==> StripFinalExtension(s) == s[..p]
    ensures (forall p: nat :: !ExtensionAt(s, p)) ==> StripFinalExtension(s) == s
  {
  }

  /** Stripping undoes appending a '.' and an alphanumeric extension. */
  lemma {:induction false} StripFinalExtensionInverse(b: string, e: string)
    requires e != "" && AllAlnum(e)
    ensures StripFinalExtension(b + "." + e) == b
  {
    var s := b + "." + e;
    assert s[|b| + 1..] == e;
    assert ExtensionAt(s, |b|);
    StripFinalExtensionMatch(s);
    assert s[..|b|] == b;
  }

  /** `path.basename(themes[defaultTheme])` without its extension (index.js:35). */
  function DefaultImportFilename(themes: seq<(string, string)>, defaultTheme: string): (r: string)
    requires Lookup(themes, defaultTheme).Some?
    ensures '/' !in r
  {
    var base := Basename(Lookup(themes, defaultTheme).value);
    var r := StripFinalExtension(base);
    assert forall k :: 0 <= k < |r| ==> r[k] == base[k];
    r
  }

  /** `keys.filter(t => t !== defaultTheme)`. */
  function NonDefaultThemeKeys(keys: seq<string>, defaultTheme: string): (r: seq<string>)
    ensures |r| <= |keys|
    ensures forall k :: k in r <==> k in keys && k != defaultTheme
  {
    if keys == [] then []
    else
      var rest := NonDefaultThemeKeys(keys[1..], defaultTheme);
      assert forall k :: k in keys <==> k == keys[0] || k in keys[1..];
      if keys[0] != defaultTheme then [keys[0]] + rest else rest
  }

  /** The keys stay in declaration order: with the default once at `i`, the result is the keys without position `i`. */
  lemma {:induction false} NonDefaultThemeKeysOrder(keys: seq<string>, defaultTheme: string, i: nat)
    requires i < |keys| && keys[i] == defaultTheme
    requires forall j :: 0 <= j < |keys| && j != i ==> keys[j] != defaultTheme
    ensures NonDefaultThemeKeys(keys, defaultTheme) == keys[..i] + keys[i + 1..]
    decreases |keys|
  {
    if i == 0 {
      NonDefaultThemeKeysNone(keys[1..], defaultTheme);
      assert keys[..0] + keys[1..] == keys[1..];
    } else {
      NonDefaultThemeKeysOrder(keys[1..], defaultTheme, i - 1);
      assert keys[1..][..i - 1] + keys[1..][i..] == keys[1..i] + keys[i + 1..];
      assert [keys[0]] + keys[1..i] == keys[..i];
    }
  }

  /** Without the default among them, every key is kept. */
  lemma {:induction false} NonDefaultThemeKeysNone(keys: seq<string>, defaultTheme: string)
    requires forall j :: 0 <= j < |keys| ==> keys[j] != defaultTheme
    ensures NonDefaultThemeKeys(keys, defaultTheme) == keys
    decreases |keys|
  {
    if keys != [] {
      NonDefaultThemeKeysNone(keys[1..], defaultTheme);
      assert [keys[0]] + keys[1..] == keys;
    }
  }

  /** `nonDefaultThemeKeys.map(theme => chunkPrefix + theme)`. */
  function ThemeChunkNames(prefix: string, keys: seq<string>): (r: seq<string>)
    ensures |r| == |keys|
    ensures forall i :: 0 <= i < |r| ==> StartsWith(r[i], prefix) && r[i][|prefix|..] == keys[i]
  {
    seq(|keys|, i requires 0 <= i < |keys| => prefix + keys[i])
  }

  /** Distinct theme keys give distinct chunk names. */
  lemma {:induction false} ThemeChunkNamesDistinct(prefix: string, keys: seq<string>, i: nat, j: nat)
    requires i < j < |keys| && keys[i] != keys[j]
    ensures ThemeChunkNames(prefix, keys)[i] != ThemeChunkNames(prefix, keys)[j]
  {
  }

  /** `absolutePathThemes`: each key mapped to its resolved file; a later entry overwrites an earlier one. */
  function AbsolutePathThemes(themes: seq<(string, string)>, cwd: string): (r: map<string, string>)
    ensures forall k :: k in r <==> k in Keys(themes)
  {
    if themes == [] then map[]
    else
      var init := themes[..|themes| - 1];
      var last := themes[|themes| - 1];
      var r := AbsolutePathThemes(init, cwd)[last.0 := Resolve(cwd, last.1)];
      assert Keys(themes) == Keys(init) + [last.0];
      r
  }

  /** With distinct keys, every key maps to its own file, resolved. */
  lemma {:induction false} AbsolutePathThemesEntry(themes: seq<(string, string)>, cwd: string, i: nat)
    requires DistinctKeys(themes) && i < |themes|
    ensures AbsolutePathThemes(themes, cwd)[themes[i].0] == Resolve(cwd, themes[i].1)
    decreases |themes|
  {
    var init := themes[..|themes| - 1];
    if i < |themes| - 1 {
      assert init[i] == themes[i];
      AbsolutePathThemesEntry(init, cwd, i);
    }
  }
}
