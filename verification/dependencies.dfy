/**
 * Module dependencies as the plugin sees them, and the pure steps it applies
 * to a module's dependency list: picking the `.scss` ones (index.js:51),
 * cloning one per theme (index.js:53-62) and dropping the themed clones
 * again (index.js:134).
 */
module Dependencies {
  import opened Wrappers
  import opened Strings
  import ThemeRequest

  /**
   * A dependency: its `request` (absent for some kinds of dependency), what
   * `getResourceIdentifier()` returns, and the `themed` mark of a clone.
   */
  datatype Dep = Dep(request: Option<string>, resourceId: string, themed: Option<string>)

  /** `dep.request && dep.request.match(/\.scss$/)`. */
  predicate IsScssDep(d: Dep)
  {
    d.request.Some? && ThemeRequest.IsScss(d.request.value)
  }

  /** `!dep.themed` is false: the dependency is a theme clone. */
  predicate IsThemed(d: Dep)
  {
    Truthy(d.themed)
  }

  /** `findSassDependencies()`. */
  function ScssDependencies(deps: seq<Dep>): (r: seq<Dep>)
    ensures |r| <= |deps|
    ensures forall d :: d in r <==> d in deps && IsScssDep(d)
  {
    if deps == [] then []
    else
      var rest := ScssDependencies(deps[1..]);
      assert forall d :: d in deps <==> d == deps[0] || d in deps[1..];
      if IsScssDep(deps[0]) then [deps[0]] + rest else rest
  }

  /** The filter keeps the dependencies in order: it distributes over concatenation. */
  lemma {:induction false} ScssDependenciesAppend(a: seq<Dep>, b: seq<Dep>)
    ensures ScssDependencies(a + b) == ScssDependencies(a) + ScssDependencies(b)
    decreases |a|
  {
    if a == [] {
      assert a + b == b;
    } else {
      assert (a + b)[0] == a[0];
      assert (a + b)[1..] == a[1..] + b;
      ScssDependenciesAppend(a[1..], b);
    }
  }

  /** `cloneDependencyForTheme(theme, dep)`: a copy marked with the theme and with its own identifier. */
  function Clone(d: Dep, theme: string): (r: Dep)
    ensures r.request == d.request && r.themed == Some(theme)
    ensures StartsWith(r.resourceId, d.resourceId) && r.resourceId[|d.resourceId|..] == "?theme=" + theme
  {
    d.(resourceId := d.resourceId + "?theme=" + theme, themed := Some(theme))
  }

  /** The clones of one dependency, one per theme in order. */
  function ClonesOf(d: Dep, themes: seq<string>): (r: seq<Dep>)
    ensures |r| == |themes|
  {
    seq(|themes|, j requires 0 <= j < |themes| => Clone(d, themes[j]))
  }

  /** The clones of every dependency of `ds` in order, each followed through all themes. */
  function Clones(ds: seq<Dep>, themes: seq<string>): seq<Dep>
  {
    if ds == [] then [] else Clones(ds[..|ds| - 1], themes) + ClonesOf(ds[|ds| - 1], themes)
  }

  /** The list grows by one clone per pair of a dependency and a theme. */
  lemma {:induction false} ClonesLength(ds: seq<Dep>, themes: seq<string>)
    ensures |Clones(ds, themes)| == |ds| * |themes|
    decreases |ds|
  {
    if ds != [] {
      ClonesLength(ds[..|ds| - 1], themes);
      calc {
        |Clones(ds, themes)|;
        (|ds| - 1) * |themes| + |themes|;
        { assert (|ds| - 1) * |themes| + |themes| == |ds| * |themes|; }
        |ds| * |themes|;
      }
    }
  }

  /** The clone for dependency `i` and theme `j` sits at `i * |themes| + j`. */
  lemma {:induction false} ClonesAt(ds: seq<Dep>, themes: seq<string>, i: nat, j: nat)
    requires i < |ds| && j < |themes|
    ensures i * |themes| + j < |Clones(ds, themes)|
    ensures Clones(ds, themes)[i * |themes| + j] == Clone(ds[i], themes[j])
    decreases |ds|
  {
    var init := ds[..|ds| - 1];
    ClonesLength(init, themes);
    ClonesLength(ds, themes);
    assert Clones(ds, themes) == Clones(init, themes) + ClonesOf(ds[|ds| - 1], themes);
    if i < |ds| - 1 {
      ClonesAt(init, themes, i, j);
      assert init[i] == ds[i];
      assert i * |themes| + j < |init| * |themes| by {
        assert (i + 1) * |themes| <= |init| * |themes|;
      }
    } else {
      assert i * |themes| == |Clones(init, themes)|;
    }
  }

  /** Every clone is a clone of one of the dependencies, for one of the themes. */
  lemma {:induction false} ClonesFrom(ds: seq<Dep>, themes: seq<string>, x: Dep)
    requires x in Clones(ds, themes)
    ensures exists i, j :: 0 <= i < |ds| && 0 <= j < |themes| && x == Clone(ds[i], themes[j])
    decreases |ds|
  {
    var init := ds[..|ds| - 1];
    if x in Clones(init, themes) {
      ClonesFrom(init, themes, x);
      var i, j :| 0 <= i < |init| && 0 <= j < |themes| && x == Clone(init[i], themes[j]);
      assert init[i] == ds[i];
    } else {
      var r := ClonesOf(ds[|ds| - 1], themes);
      assert x in r;
      var j :| 0 <= j < |r| && r[j] == x;
      assert x == Clone(ds[|ds| - 1], themes[j]);
    }
  }

  /** Adding one theme to the themes done so far for `d` adds its clone at the end. */
  lemma {:induction false} ClonesOfSnoc(d: Dep, themes: seq<string>, j: nat)
    requires j < |themes|
    ensures ClonesOf(d, themes[..j + 1]) == ClonesOf(d, themes[..j]) + [Clone(d, themes[j])]
  {
  }

  /** Adding a dependency adds all its clones at the end. */
  lemma {:induction false} ClonesSnoc(ds: seq<Dep>, themes: seq<string>, i: nat)
    requires i < |ds|
    ensures Clones(ds[..i + 1], themes) == Clones(ds[..i], themes) + ClonesOf(ds[i], themes)
  {
    assert ds[..i + 1][..i] == ds[..i];
  }

  /** `deps.filter(dep => !dep.themed)`. */
  function Unthemed(deps: seq<Dep>): (r: seq<Dep>)
    ensures |r| <= |deps|
    ensures forall d :: d in r <==> d in deps && !IsThemed(d)
  {
    if deps == [] then []
    else
      var rest := Unthemed(deps[1..]);
      assert forall d :: d in deps <==> d == deps[0] || d in deps[1..];
      if IsThemed(deps[0]) then rest else [deps[0]] + rest
  }

  /** The filter keeps the order: it distributes over concatenation. */
  lemma {:induction false} UnthemedAppend(a: seq<Dep>, b: seq<Dep>)
    ensures Unthemed(a + b) == Unthemed(a) + Unthemed(b)
    decreases |a|
  {
    if a == [] {
      assert a + b == b;
    } else {
      assert (a + b)[0] == a[0];
      assert (a + b)[1..] == a[1..] + b;
      UnthemedAppend(a[1..], b);
    }
  }

  /** Filtering twice is filtering once. */
  lemma {:induction false} UnthemedIdempotent(deps: seq<Dep>)
    ensures Unthemed(Unthemed(deps)) == Unthemed(deps)
    decreases |deps|
  {
    if deps != [] {
      UnthemedIdempotent(deps[1..]);
      if !IsThemed(deps[0]) {
        var rest := Unthemed(deps[1..]);
        assert ([deps[0]] + rest)[1..] == rest;
      }
    }
  }

  /** Removing the clones of a fan-out gives back the list before it, when that list held no clone. */
  lemma {:induction false} UnthemedUndoesFanOut(deps: seq<Dep>, themes: seq<string>)
    requires forall d :: d in deps ==> !IsThemed(d)
    requires forall t :: t in themes ==> t != ""
    ensures Unthemed(deps + Clones(ScssDependencies(deps), themes)) == deps
  {
    var cs := Clones(ScssDependencies(deps), themes);
    UnthemedAppend(deps, cs);
    UnthemedKeepsAll(deps);
    ClonesThemed(ScssDependencies(deps), themes);
    UnthemedDropsAll(cs);
  }

  /** Every clone carries a theme mark. */
  lemma {:induction false} ClonesThemed(ds: seq<Dep>, themes: seq<string>)
    requires forall t :: t in themes ==> t != ""
    ensures forall x :: x in Clones(ds, themes) ==> IsThemed(x)
  {
    forall x | x in Clones(ds, themes) ensures IsThemed(x) {
      ClonesFrom(ds, themes, x);
      var i, j :| 0 <= i < |ds| && 0 <= j < |themes| && x == Clone(ds[i], themes[j]);
      assert themes[j] in themes;
    }
  }

  lemma {:induction false} UnthemedKeepsAll(deps: seq<Dep>)
    requires forall d :: d in deps ==> !IsThemed(d)
    ensures Unthemed(deps) == deps
    decreases |deps|
  {
    if deps != [] {
      UnthemedKeepsAll(deps[1..]);
      assert [deps[0]] + deps[1..] == deps;
    }
  }

  lemma {:induction false} UnthemedDropsAll(deps: seq<Dep>)
    requires forall d :: d in deps ==> IsThemed(d)
    ensures Unthemed(deps) == []
    decreases |deps|
  {
    if deps != [] {
      UnthemedDropsAll(deps[1..]);
    }
  }
}
