/**
 * The theme loader of loader.js: it finds the `@import` statements of a
 * stylesheet that name the default theme file, keeps those whose path is the
 * default theme, and rewrites each kept one to import the target theme instead.
 *
 * `loaderUtils.getOptions(this)`, `this.context` and the process's working
 * directory are parameters; the loader's callback is the `Outcome` it returns.
 */
module Loader {
  import opened Wrappers
  import opened Strings
  import opened Paths
  import opened ImportPattern
  import opened JsReplace

  /** The loader options the plugin passes (any of them may be absent). */
  datatype Options = Options(
    defaultImportFilename: Option<string>,
    defaultImportPath: Option<string>,
    targetImportPath: Option<string>)

  /** Why the loader throws: an option it reads is `undefined`. */
  datatype LoaderError = FilenameMissing | DefaultPathMissing | TargetPathMissing

  /** `callback(null, content)` once, or a thrown error. */
  datatype Outcome = Done(content: string) | Threw(error: LoaderError)

  /** `p.replace(/(\.scss|\.sass)$/, '')`. */
  function StripStyleExt(p: string): (r: string)
    ensures StartsWith(p, r)
    ensures r == p <==> !EndsWith(p, ".scss") && !EndsWith(p, ".sass")
    ensures r != p ==> p[|r|..] == ".scss" || p[|r|..] == ".sass"
  {
    if EndsWith(p, ".scss") || EndsWith(p, ".sass") then p[..|p| - 5] else p
  }

  /** Stripping removes exactly one style extension and nothing else. */
  lemma {:induction false} StripStyleExtInverse(p: string, e: string)
    ensures (e == ".scss" || e == ".sass") ==> StripStyleExt(p + e) == p
    ensures !EndsWith(p, ".scss") && !EndsWith(p, ".sass") ==> StripStyleExt(p) == p
  {
    if e == ".scss" || e == ".sass" {
      assert (p + e)[|p + e| - 5..] == e;
      assert (p + e)[..|p|] == p;
    }
  }

  /** Every import has a quoted path, so `match(...)[1]` at loader.js:8 does not throw. */
  predicate AllQuoted(imports: seq<string>)
  {
    forall i :: 0 <= i < |imports| ==> QuotedPath(imports[i]).Some?
  }

  /** The import's path, joined onto the directory `context`, is `current`. */
  predicate Kept(c: string, context: string, current: string)
    requires QuotedPath(c).Some?
  {
    current == Join(context, QuotedPath(c).value)
  }

  /** `filterMatchedImports(importStrings, context, currentImportPath)`. */
  function FilterMatchedImports(imports: seq<string>, context: string, defaultPath: string): (r: seq<string>)
    requires AllQuoted(imports)
    ensures |r| <= |imports|
    ensures forall c :: c in r <==> c in imports && Kept(c, context, StripStyleExt(defaultPath))
  {
    if imports == [] then []
    else
      var rest := FilterMatchedImports(imports[1..], context, defaultPath);
      assert forall c :: c in imports <==> c == imports[0] || c in imports[1..];
      if Kept(imports[0], context, StripStyleExt(defaultPath)) then [imports[0]] + rest else rest
  }

  /** A filter that keeps no candidate returns nothing. */
  lemma {:induction false} FilterNoneKept(imports: seq<string>, context: string, defaultPath: string)
    requires AllQuoted(imports)
    requires forall i :: 0 <= i < |imports| ==> !Kept(imports[i], context, StripStyleExt(defaultPath))
    ensures FilterMatchedImports(imports, context, defaultPath) == []
    decreases |imports|
  {
    if imports != [] {
      assert forall i :: 0 <= i < |imports| - 1 ==> imports[1..][i] == imports[i + 1];
      FilterNoneKept(imports[1..], context, defaultPath);
    }
  }

  /** The filter keeps the candidates in their order: it distributes over concatenation. */
  lemma {:induction false} FilterAppend(a: seq<string>, b: seq<string>, context: string, defaultPath: string)
    requires AllQuoted(a) && AllQuoted(b)
    ensures AllQuoted(a + b)
    ensures FilterMatchedImports(a + b, context, defaultPath)
         == FilterMatchedImports(a, context, defaultPath) + FilterMatchedImports(b, context, defaultPath)
    decreases |a|
  {
    forall i | 0 <= i < |a + b| ensures QuotedPath((a + b)[i]).Some? {
      if i < |a| {
        assert (a + b)[i] == a[i];
      } else {
        assert (a + b)[i] == b[i - |a|];
      }
    }
    if a == [] {
      assert a + b == b;
    } else {
      assert (a + b)[0] == a[0];
      assert (a + b)[1..] == a[1..] + b;
      assert AllQuoted(a[1..]) by {
        forall i | 0 <= i < |a| - 1 ensures QuotedPath(a[1..][i]).Some? {
          assert a[1..][i] == a[i + 1];
        }
      }
      FilterAppend(a[1..], b, context, defaultPath);
    }
  }

  /** The statement that takes the place of each kept import (loader.js:28). */
  function Replacement(cwd: string, context: string, target: string): string
    requires IsAbsolute(cwd)
  {
    "@import '" + Relative(cwd, context, target) + "';"
  }

  /** `imports.forEach(c => { content = content.replace(c, t) })`, as a value. */
  function ReplaceEach(content: string, imports: seq<string>, t: string): string
    decreases |imports|
  {
    if imports == [] then content else ReplaceEach(ReplaceFirst(content, imports[0], t), imports[1..], t)
  }

  /** The statements the global match returns all have a quoted path. */
  lemma {:induction false} MatchedAllQuoted(s: string, f: string)
    requires MatchAll(s, f).Some?
    ensures AllQuoted(MatchAll(s, f).value)
  {
    var cs := MatchAll(s, f).value;
    MatchedAreStatements(s, f);
    forall i | 0 <= i < |cs| ensures QuotedPath(cs[i]).Some? {
      assert cs[i] in cs;
      var w: nat, q: nat :| StatementIn(cs[i], f, 0, w, q, |cs[i]|);
      QuotedPathOfStatement(cs[i], f, w, q);
    }
  }

  /** The imports the loader rewrites, when there are candidates. */
  function KeptImports(content: string, f: string, context: string, defaultPath: string): (r: seq<string>)
    requires MatchAll(content, f).Some?
  {
    MatchedAllQuoted(content, f);
    FilterMatchedImports(MatchAll(content, f).value, context, defaultPath)
  }

  /** What the loader function of loader.js:13-32 does, as a value. */
  function Load(content: string, context: string, cwd: string, options: Options): (r: Outcome)
    requires IsAbsolute(cwd)
    ensures r == Threw(FilenameMissing) <==> options.defaultImportFilename.None?
    ensures r == Threw(DefaultPathMissing) ==> options.defaultImportPath.None?
    ensures r == Threw(TargetPathMissing) ==> options.targetImportPath.None?
  {
    match options.defaultImportFilename
    case None => Threw(FilenameMissing)
    case Some(f) =>
      if MatchAll(content, f).None? then Done(content)
      else match options.defaultImportPath
        case None => Threw(DefaultPathMissing)
        case Some(dp) =>
          var kept := KeptImports(content, f, context, dp);
          if kept == [] then Done(content)
          else match options.targetImportPath
            case None => Threw(TargetPathMissing)
            case Some(target) => Done(ReplaceEach(content, kept, Replacement(cwd, context, target)))
  }

  /**
   * The loader function: the options are read as loader.js reads them, and
   * the kept imports are replaced one after another.
   */
  method RunLoader(content: string, context: string, cwd: string, options: Options) returns (out: Outcome)
    requires IsAbsolute(cwd)
    requires options.defaultImportFilename.Some? ==> ReadsLiterally(options.defaultImportFilename.value)
    ensures out == Load(content, context, cwd, options)
  {
    if options.defaultImportFilename.None? {
      return Threw(FilenameMissing);
    }
    var f := options.defaultImportFilename.value;
    var matchedImports := MatchAll(content, f);
    if matchedImports.None? {
      return Done(content);
    }
    if options.defaultImportPath.None? {
      return Threw(DefaultPathMissing);
    }
    var replaceImports := KeptImports(content, f, context, options.defaultImportPath.value);
    out := ReplaceImports(content, replaceImports, context, cwd, options.targetImportPath);
  }

  /**
   * The replacing loop (loader.js:26-29): the target path is read on the
   * first pass, and each import is replaced in turn.
   */
  method ReplaceImports(content: string, imports: seq<string>, context: string, cwd: string, target: Option<string>)
    returns (out: Outcome)
    requires IsAbsolute(cwd)
    ensures imports == [] ==> out == Done(content)
    ensures imports != [] && target.None? ==> out == Threw(TargetPathMissing)
    ensures imports != [] && target.Some? ==> out == Done(ReplaceEach(content, imports, Replacement(cwd, context, target.value)))
  {
    var result := content;
    var i := 0;
    while i < |imports|
      invariant 0 <= i <= |imports|
      invariant i > 0 ==> target.Some?
      invariant i == 0 ==> result == content
      invariant i > 0 ==>
        var t := Replacement(cwd, context, target.value);
        ReplaceEach(result, imports[i..], t) == ReplaceEach(content, imports, t)
    {
      if target.None? {
        return Threw(TargetPathMissing);
      }
      var t := Replacement(cwd, context, target.value);
      assert imports[i..][1..] == imports[i + 1..];
      result := ReplaceFirst(result, imports[i], t);
      i := i + 1;
    }
    assert imports[i..] == [];
    return Done(result);
  }

  /** No `@import` statement of the default file anywhere: the content comes back unchanged (loader.js:19-24). */
  lemma {:induction false} NoStatementUnchanged(content: string, context: string, cwd: string, options: Options)
    requires IsAbsolute(cwd) && options.defaultImportFilename.Some?
    requires forall i: nat, w: nat, q: nat, e: nat :: !StatementIn(content, options.defaultImportFilename.value, i, w, q, e)
    ensures Load(content, context, cwd, options) == Done(content)
  {
    NoMatchIffNoStatement(content, options.defaultImportFilename.value);
  }

  /** The loader changes the content only where a statement of the default file occurs. */
  lemma {:induction false} ChangedHasStatement(content: string, context: string, cwd: string, options: Options)
    requires IsAbsolute(cwd)
    requires Load(content, context, cwd, options).Done? && Load(content, context, cwd, options).content != content
    ensures options.defaultImportFilename.Some?
    ensures exists i: nat, w: nat, q: nat, e: nat :: StatementIn(content, options.defaultImportFilename.value, i, w, q, e)
  {
    NoMatchIffNoStatement(content, options.defaultImportFilename.value);
  }

  /** With all three options given, the loader always ends in its callback (loader.js:21-23, 31). */
  lemma {:induction false} LoadCompletes(content: string, context: string, cwd: string, options: Options)
    requires IsAbsolute(cwd)
    requires options.defaultImportFilename.Some? && options.defaultImportPath.Some? && options.targetImportPath.Some?
    ensures Load(content, context, cwd, options).Done?
  {
  }

  /** When no candidate is kept, the target path is never read and the content is unchanged. */
  lemma {:induction false} NothingKeptUnchanged(content: string, context: string, cwd: string, options: Options)
    requires IsAbsolute(cwd)
    requires options.defaultImportFilename.Some? && options.defaultImportPath.Some?
    requires var f := options.defaultImportFilename.value;
      MatchAll(content, f).Some? ==>
        forall c :: c in MatchAll(content, f).value ==>
          QuotedPath(c).Some? && !Kept(c, context, StripStyleExt(options.defaultImportPath.value))
    ensures Load(content, context, cwd, options) == Done(content)
  {
    var f := options.defaultImportFilename.value;
    if MatchAll(content, f).Some? {
      var kept := KeptImports(content, f, context, options.defaultImportPath.value);
      var cs := MatchAll(content, f).value;
      forall i | 0 <= i < |cs| ensures !Kept(cs[i], context, StripStyleExt(options.defaultImportPath.value)) {
        assert cs[i] in cs;
      }
      FilterNoneKept(cs, context, options.defaultImportPath.value);
    }
  }

  /**
   * An import that spells out `.scss` or `.sass` is never kept: the group of
   * loader.js:8 keeps the extension, so the joined path ends with it, while the
   * default path has had it stripped (loader.js:5, 8-9).
   */
  lemma {:induction false} ExtensionNeverKept(c: string, f: string, w: nat, q: nat, ext: string, context: string, defaultPath: string)
    requires StatementIn(c, f, 0, w, q, |c|) && NoQuote(f)
    requires (ext == ".scss" || ext == ".sass") && QuotedTextWith(c[w + 1..q], f, ext)
    requires var d := StripStyleExt(defaultPath); !EndsWith(d, ".scss") && !EndsWith(d, ".sass")
    ensures QuotedPath(c).Some? && !Kept(c, context, StripStyleExt(defaultPath))
  {
    QuotedPathOfStatement(c, f, w, q);
    var x := c[w + 1..q];
    assert EndsWith(x, ext) by {
      assert x[|x| - |ext|..] == (f + ext)[|f|..];
    }
    JoinKeepsSuffix(context, x, ext);
  }

  /**
   * With a target path free of `$`, each step of the loop swaps the first
   * remaining occurrence of the kept statement for exactly the new statement,
   * quotes and semicolon included (loader.js:27-29).
   */
  lemma {:induction false} ReplaceEachStep(content: string, c: string, rest: seq<string>, cwd: string, context: string, target: string)
    requires IsAbsolute(cwd) && '$' !in Relative(cwd, context, target)
    ensures var t := Replacement(cwd, context, target);
      ReplaceEach(content, [c] + rest, t) ==
        match IndexOf(content, c)
        case None => ReplaceEach(content, rest, t)
        case Some(i) => ReplaceEach(content[..i] + t + content[i + |c|..], rest, t)
  {
    var t := Replacement(cwd, context, target);
    assert '$' !in "@import '" && '$' !in "';";
    assert '$' !in t;
    assert ([c] + rest)[1..] == rest;
    assert ReplaceEach(content, [c] + rest, t) == ReplaceEach(ReplaceFirst(content, c, t), rest, t);
    ReplaceFirstLiteral(content, c, t);
  }

  // ---------------------------------------------------------------------------
  // All kept statements rewritten

  /** `n` copies of the statement `c`, as the filter returns them when `c` occurs `n` times. */
  function Repeat(c: string, n: nat): (r: seq<string>)
    ensures |r| == n && forall k :: 0 <= k < n ==> r[k] == c
  {
    seq(n, _ => c)
  }

  /** Each part preceded by `x`: `x + parts[0] + x + parts[1] + ...`. */
  function Prefixed(parts: seq<string>, x: string): string
    decreases |parts|
  {
    if parts == [] then "" else x + parts[0] + Prefixed(parts[1..], x)
  }

  /**
   * Replacing `c` by `t` neither creates nor hides an occurrence of `c`:
   * both start with the same character, which occurs nowhere else in either,
   * and neither is a prefix of the other. A statement `@import '<path>';`
   * and its replacement meet this when neither path holds '@' and the paths
   * differ. The template is free of `$`.
   */
  predicate Separable(c: string, t: string)
  {
    && c != "" && t != "" && t[0] == c[0]
    && c[0] !in c[1..] && c[0] !in t[1..]
    && !StartsWith(t, c) && !StartsWith(c, t)
    && '$' !in t
  }

  /** An occurrence of `c` in `u + w` cannot start inside `u` when `u` holds none and `w` starts with `c`'s unique first character. */
  lemma {:induction false} NoEarlyOccurrence(u: string, w: string, c: string)
    requires !Contains(u, c) && c != "" && w != "" && w[0] == c[0] && c[0] !in c[1..]
    ensures forall j: nat :: j < |u| ==> !OccursAt(u + w, c, j)
  {
    var s := u + w;
    forall j: nat | j < |u| ensures !OccursAt(s, c, j) {
      if j + |c| <= |u| {
        assert s[j..j + |c|] == u[j..j + |c|];
        assert !OccursAt(u, c, j);
      } else if j + |c| <= |s| {
        var d := |u| - j;
        assert s[j..j + |c|][d] == s[|u|] == w[0] == c[0];
        assert c[1..][d - 1] == c[d] != c[0];
      }
    }
  }

  /** A separable replacement followed by a part without `c` adds no occurrence of `c`. */
  lemma {:induction false} StillAbsent(u: string, t: string, p: string, c: string)
    requires Separable(c, t) && !Contains(u, c) && !Contains(p, c)
    ensures !Contains(u + t + p, c)
  {
    var s := u + t + p;
    assert s == u + (t + p);
    NoEarlyOccurrence(u, t + p, c);
    forall j: nat | |u| <= j && j + |c| <= |s| ensures !OccursAt(s, c, j) {
      var m := s[j..j + |c|];
      if j == |u| {
        MiddleSlice(u, t, p);
        if |c| <= |t| {
          assert m == s[|u|..|u| + |t|][..|c|] == t[..|c|];
        } else {
          assert m[..|t|] == s[|u|..|u| + |t|] == t;
        }
      } else if j < |u| + |t| {
        assert m[0] == t[j - |u|] == t[1..][j - |u| - 1] != c[0];
      } else {
        assert m == p[j - |u| - |t|..j - |u| - |t| + |c|];
        assert !OccursAt(p, c, j - |u| - |t|);
      }
    }
  }

  /** The middle of a three-part concatenation is its middle part. */
  lemma {:induction false} MiddleSlice(u: string, t: string, p: string)
    ensures (u + t + p)[|u|..|u| + |t|] == t
  {
    var s := u + t + p;
    forall k | 0 <= k < |t| ensures s[|u|..|u| + |t|][k] == t[k] {
      assert s[|u| + k] == (u + t)[|u| + k];
    }
  }

  /** With no `c` in `u`, the first occurrence of `c` in `u + c + tail` is the one after `u`, and it is the one replaced. */
  lemma {:induction false} ReplaceFirstCopy(u: string, c: string, tail: string, t: string)
    requires Separable(c, t) && !Contains(u, c)
    ensures ReplaceFirst(u + c + tail, c, t) == u + t + tail
  {
    var s := u + c + tail;
    assert s == u + (c + tail);
    NoEarlyOccurrence(u, c + tail, c);
    assert s[|u|..|u| + |c|] == c;
    FirstOccurrence(s, c, |u|);
    ReplaceFirstLiteral(s, c, t);
    assert s[..|u|] == u && s[|u| + |c|..] == tail;
  }

  /** An occurrence with none before it is the one `indexOf` finds. */
  lemma {:induction false} FirstOccurrence(s: string, c: string, i: nat)
    requires OccursAt(s, c, i) && forall j: nat :: j < i ==> !OccursAt(s, c, j)
    ensures IndexOf(s, c) == Some(i)
  {
    assert IndexOf(s, c).Some?;
    var v := IndexOf(s, c).value;
    assert !(v < i) && !(i < v);
  }

  /** The kept statements, each followed by the text after it: `cs[0] + parts[0] + cs[1] + parts[1] + ...`. */
  function Interleaved(cs: seq<string>, parts: seq<string>): string
    requires |cs| == |parts|
    decreases |parts|
  {
    if parts == [] then "" else cs[0] + parts[0] + Interleaved(cs[1..], parts[1..])
  }

  /**
   * Every kept statement is rewritten, whatever their texts, and the text
   * around them is kept as it was: with no kept statement in the parts
   * between them, the loop of loader.js:27-29 turns
   * `u + c1 + p1 + ... + ck + pk` into `u + t + p1 + ... + t + pk`.
   */
  lemma {:induction false} ReplaceEachKept(u: string, cs: seq<string>, parts: seq<string>, t: string)
    requires |cs| == |parts|
    requires forall j :: 0 <= j < |cs| ==> Separable(cs[j], t) && !Contains(u, cs[j])
    requires forall j, m :: 0 <= j < |cs| && 0 <= m < |parts| ==> !Contains(parts[m], cs[j])
    ensures ReplaceEach(u + Interleaved(cs, parts), cs, t) == u + Prefixed(parts, t)
    decreases |parts|
  {
    if parts == [] {
      assert u + "" == u;
    } else {
      var c := cs[0];
      var rest := Interleaved(cs[1..], parts[1..]);
      var s := u + Interleaved(cs, parts);
      assert ReplaceEach(s, cs, t) == ReplaceEach(ReplaceFirst(s, c, t), cs[1..], t);
      Regroup(u, c, parts[0], rest);
      ReplaceFirstCopy(u, c, parts[0] + rest, t);
      var u' := u + t + parts[0];
      Regroup(u, t, parts[0], rest);
      forall j | 0 <= j < |cs| - 1 ensures Separable(cs[1..][j], t) && !Contains(u', cs[1..][j]) {
        assert cs[1..][j] == cs[j + 1];
        StillAbsent(u, t, parts[0], cs[j + 1]);
      }
      forall j, m | 0 <= j < |cs| - 1 && 0 <= m < |parts| - 1 ensures !Contains(parts[1..][m], cs[1..][j]) {
        assert parts[1..][m] == parts[m + 1] && cs[1..][j] == cs[j + 1];
      }
      ReplaceEachKept(u', cs[1..], parts[1..], t);
      Regroup(u, t, parts[0], Prefixed(parts[1..], t));
    }
  }

  /** `k` copies of one statement, each followed by its part, are the parts prefixed by the statement. */
  lemma {:induction false} InterleavedRepeat(parts: seq<string>, c: string)
    ensures Interleaved(Repeat(c, |parts|), parts) == Prefixed(parts, c)
    decreases |parts|
  {
    if parts != [] {
      assert Repeat(c, |parts|)[1..] == Repeat(c, |parts| - 1);
      InterleavedRepeat(parts[1..], c);
    }
  }

  /**
   * k textually identical kept statements are all rewritten, and the text
   * around them is kept as it was: `u + c + p1 + ... + c + pk` becomes
   * `u + t + p1 + ... + t + pk`.
   */
  lemma {:induction false} ReplaceEachCopies(u: string, parts: seq<string>, c: string, t: string)
    requires Separable(c, t) && !Contains(u, c)
    requires forall m :: 0 <= m < |parts| ==> !Contains(parts[m], c)
    ensures ReplaceEach(u + Prefixed(parts, c), Repeat(c, |parts|), t) == u + Prefixed(parts, t)
  {
    InterleavedRepeat(parts, c);
    ReplaceEachKept(u, Repeat(c, |parts|), parts, t);
  }

  /** Concatenation regrouped: `u + (x + p + r)` is `u + x + (p + r)` and `(u + x + p) + r`. */
  lemma {:induction false} Regroup(u: string, x: string, p: string, r: string)
    ensures u + (x + p + r) == u + x + (p + r) == u + x + p + r
  {
  }
}
