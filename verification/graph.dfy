/**
 * The parts of webpack's object graph the plugin reads and changes: modules
 * with their dependencies and loaders, the data of a resolve, chunks with
 * their modules, files and groups, chunk groups, and the compilation's
 * asset table.
 */
module Graph {
  import opened Wrappers
  import opened Dependencies
  import Loader

  /** A loader in a module's loader list: the theme loader with its options, or any other. */
  datatype LoaderEntry = ThemeLoader(options: Loader.Options) | OtherLoader(loader: string)

  /** A normal module: what the plugin reads and writes of it. */
  class Module {
    var dependencies: seq<Dep>
    var request: string
    var themed: Option<string>
    var loaders: seq<LoaderEntry>

    constructor(dependencies: seq<Dep>, request: string, themed: Option<string>, loaders: seq<LoaderEntry>)
      ensures this.dependencies == dependencies && this.request == request
      ensures this.themed == themed && this.loaders == loaders
    {
      this.dependencies := dependencies;
      this.request := request;
      this.themed := themed;
      this.loaders := loaders;
    }

    /** `module.removeChunk(chunk)`: the module leaves the chunk. */
    method RemoveChunk(chunk: Chunk) returns (removed: bool)
      modifies chunk`modules
      ensures removed <==> this in old(chunk.modules)
      ensures chunk.modules == old(chunk.modules) - {this}
    {
      removed := this in chunk.modules;
      chunk.modules := chunk.modules - {this};
    }
  }

  /** What `normalModuleFactory.hooks.beforeResolve` receives. */
  class ResolveData {
    var request: string
    const dependencies: seq<Dep>

    constructor(request: string, dependencies: seq<Dep>)
      ensures this.request == request && this.dependencies == dependencies
    {
      this.request := request;
      this.dependencies := dependencies;
    }
  }

  class Chunk {
    /** Why webpack made the chunk; a split chunk names its cache group here. */
    const chunkReason: Option<string>
    var modules: set<Module>
    var files: seq<string>
    var groups: set<ChunkGroup>

    constructor(chunkReason: Option<string>, modules: set<Module>, files: seq<string>, groups: set<ChunkGroup>)
      ensures this.chunkReason == chunkReason && this.modules == modules
      ensures this.files == files && this.groups == groups
    {
      this.chunkReason := chunkReason;
      this.modules := modules;
      this.files := files;
      this.groups := groups;
    }
  }

  /** The first index of `x` in `s` (`indexOf`, `None` for -1). */
  function IndexOfElem<T(==)>(s: seq<T>, x: T): (r: Option<nat>)
    ensures r.None? <==> x !in s
    ensures r.Some? ==> r.value < |s| && s[r.value] == x && x !in s[..r.value]
  {
    if s == [] then None
    else if s[0] == x then Some(0)
    else
      var r := IndexOfElem(s[1..], x);
      assert r.Some? ==> s[..r.value + 1] == [s[0]] + s[1..][..r.value];
      if r.None? then None else Some(r.value + 1)
  }

  predicate Distinct<T(==)>(s: seq<T>)
  {
    forall i, j :: 0 <= i < j < |s| ==> s[i] != s[j]
  }

  /** No repeats, stated head first: the form a long proof carries without unfolding a quantifier. */
  predicate NoRepeats(s: seq<Chunk>)
  {
    s == [] || (s[0] !in s[1..] && NoRepeats(s[1..]))
  }

  /** Both forms of "no element twice" agree. */
  lemma {:induction false} NoRepeatsIsDistinct(s: seq<Chunk>)
    ensures NoRepeats(s) <==> Distinct(s)
    decreases |s|
  {
    if s != [] {
      NoRepeatsIsDistinct(s[1..]);
      if Distinct(s) {
        DistinctTail(s);
      } else if NoRepeats(s) {
        forall i, j | 0 <= i < j < |s| ensures s[i] != s[j] {
          assert s[j] == s[1..][j - 1];
          if i > 0 {
            assert s[i] == s[1..][i - 1];
          }
        }
      }
    }
  }

  /** Two positions of a list without repeats hold different chunks. */
  lemma {:induction false} NoRepeatsApart(s: seq<Chunk>, i: nat, j: nat)
    requires NoRepeats(s) && i < |s| && j < |s| && i != j
    ensures s[i] != s[j]
  {
    NoRepeatsIsDistinct(s);
  }

  /** `s` with every element of `xs` left out, the rest in order. */
  function Without<T(==)>(s: seq<T>, xs: set<T>): (r: seq<T>)
    ensures |r| <= |s|
  {
    if s == [] then []
    else
      var rest := Without(s[1..], xs);
      if s[0] in xs then rest else [s[0]] + rest
  }

  /** What is left is what was there and not left out. */
  lemma {:induction false} WithoutMembers<T>(s: seq<T>, xs: set<T>)
    ensures forall x :: x in Without(s, xs) <==> x in s && x !in xs
    decreases |s|
  {
    if s != [] {
      WithoutMembers(s[1..], xs);
      assert forall x :: x in s <==> x == s[0] || x in s[1..];
    }
  }

  /** In a list without repeats, cutting out the one occurrence of `x` is leaving `x` out. */
  lemma {:induction false} CutIsWithout<T>(s: seq<T>, i: nat)
    requires Distinct(s) && i < |s|
    ensures s[..i] + s[i + 1..] == Without(s, {s[i]})
    decreases |s|
  {
    DistinctTail(s);
    if i == 0 {
      WithoutAbsent(s[1..], {s[0]});
    } else {
      CutIsWithout(s[1..], i - 1);
      CutStep(s, i);
    }
  }

  /** One step of the induction: the cut commutes with putting the head back. */
  lemma {:induction false} CutStep<T>(s: seq<T>, i: nat)
    requires 0 < i < |s| && s[0] != s[i]
    requires s[1..][..i - 1] + s[1..][i..] == Without(s[1..], {s[i]})
    ensures s[..i] + s[i + 1..] == Without(s, {s[i]})
  {
    var t := s[1..];
    var r := Without(t, {s[i]});
    assert Without(s, {s[i]}) == [s[0]] + r;
    assert t[..i - 1] == s[1..i];
    assert t[i..] == s[i + 1..];
    assert s[..i] == [s[0]] + s[1..i];
  }

  /** The tail of a list without repeats has none and does not hold the head. */
  lemma {:induction false} DistinctTail<T>(s: seq<T>)
    requires Distinct(s) && s != []
    ensures Distinct(s[1..]) && forall x :: x in s[1..] ==> x !in {s[0]}
  {
    var t := s[1..];
    forall a, b | 0 <= a < b < |t| ensures t[a] != t[b] {
      assert t[a] == s[a + 1] && t[b] == s[b + 1];
    }
    forall x | x in t ensures x != s[0] {
      var b :| 0 <= b < |t| && t[b] == x;
      assert s[b + 1] == x;
    }
  }

  /** Leaving out elements that do not occur changes nothing. */
  lemma {:induction false} WithoutAbsent<T>(s: seq<T>, xs: set<T>)
    requires forall x :: x in s ==> x !in xs
    ensures Without(s, xs) == s
    decreases |s|
  {
    if s != [] {
      WithoutAbsent(s[1..], xs);
      assert [s[0]] + s[1..] == s;
    }
  }

  /** Leaving out in two rounds is leaving out the union. */
  lemma {:induction false} WithoutWithout<T>(s: seq<T>, xs: set<T>, ys: set<T>)
    ensures Without(Without(s, xs), ys) == Without(s, xs + ys)
    decreases |s|
  {
    if s != [] {
      WithoutWithout(s[1..], xs, ys);
      if s[0] !in xs {
        assert Without(s, xs)[1..] == Without(s[1..], xs);
      }
    }
  }

  /** Leaving out keeps a list without repeats without repeats. */
  lemma {:induction false} WithoutDistinct<T>(s: seq<T>, xs: set<T>)
    requires Distinct(s)
    ensures Distinct(Without(s, xs))
    decreases |s|
  {
    if s != [] {
      DistinctTail(s);
      WithoutDistinct(s[1..], xs);
      WithoutMembers(s[1..], xs);
      var rest := Without(s[1..], xs);
      if s[0] !in xs {
        assert s[0] !in rest;
        var r := [s[0]] + rest;
        forall i, j | 0 <= i < j < |r| ensures r[i] != r[j] {
          if i == 0 {
            assert r[j] == rest[j - 1];
            assert rest[j - 1] in rest;
          } else {
            assert r[i] == rest[i - 1] && r[j] == rest[j - 1];
          }
        }
      }
    }
  }

  class ChunkGroup {
    var chunks: seq<Chunk>

    constructor(chunks: seq<Chunk>)
      ensures this.chunks == chunks
    {
      this.chunks := chunks;
    }

    /**
     * `group.removeChunk(chunk)` of webpack 4: the first occurrence of the
     * chunk is spliced out of the group's list; a chunk not in the group is
     * left alone. The chunk's own record of its groups is not touched.
     */
    method RemoveChunk(chunk: Chunk) returns (removed: bool)
      modifies this`chunks
      ensures removed <==> chunk in old(chunks)
      ensures removed ==>
        exists i :: (&& 0 <= i < |old(chunks)| && old(chunks)[i] == chunk
                     && chunks == old(chunks)[..i] + old(chunks)[i + 1..] && chunk !in old(chunks)[..i])
      ensures !removed ==> chunks == old(chunks)
    {
      var idx := IndexOfElem(chunks, chunk);
      if idx.Some? {
        chunks := chunks[..idx.value] + chunks[idx.value + 1..];
        return true;
      }
      return false;
    }
  }

  /** What an asset holds does not matter to the plugin. */
  datatype Asset = Asset(source: string)

  class Compilation {
    var assets: map<string, Asset>

    constructor(assets: map<string, Asset>)
      ensures this.assets == assets
    {
      this.assets := assets;
    }

    /** `delete compilation.assets[file]`: no effect when there is no such asset. */
    method DeleteAsset(file: string)
      modifies this`assets
      ensures assets == old(assets) - {file}
    {
      assets := assets - {file};
    }
  }
}
