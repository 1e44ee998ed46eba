/**
 * Node's POSIX `path` functions as the plugin uses them: `join`, `normalize`,
 * `resolve` (against a given working directory), `relative` and `basename`.
 * Node walks the characters of a path; this model splits the path at '/'
 * into segments and folds over them, which gives the same strings.
 */
module Paths {
  import opened Strings

  predicate IsAbsolute(p: string)
  {
    |p| > 0 && p[0] == '/'
  }

  /** The index of the first '/' in `p`. */
  function SlashIndex(p: string): (i: nat)
    requires '/' in p
    ensures i < |p| && p[i] == '/' && '/' !in p[..i]
  {
    if p[0] == '/' then 0
    else
      assert p[1..][SlashIndex(p[1..])] == p[1 + SlashIndex(p[1..])];
      assert p[..1 + SlashIndex(p[1..])] == [p[0]] + p[1..][..SlashIndex(p[1..])];
      1 + SlashIndex(p[1..])
  }

  /** `p.split('/')`: the segments between separators, empty ones included. */
  function Split(p: string): (r: seq<string>)
    ensures |r| >= 1
    ensures forall i :: 0 <= i < |r| ==> '/' !in r[i]
    decreases |p|
  {
    if '/' !in p then [p]
    else
      var i := SlashIndex(p);
      [p[..i]] + Split(p[i + 1..])
  }

  /** The last segment of `p`, the characters after its last '/'. */
  function LastSegment(p: string): string
  {
    var r := Split(p);
    r[|r| - 1]
  }

  /** `segs.join('/')`. */
  function JoinSegs(segs: seq<string>): string
  {
    if segs == [] then ""
    else if |segs| == 1 then segs[0]
    else JoinSegs(segs[..|segs| - 1]) + "/" + segs[|segs| - 1]
  }

  /** A segment that normalization keeps as it is. */
  predicate Plain(seg: string)
  {
    seg != "" && seg != "." && seg != ".." && '/' !in seg
  }

  /**
   * One segment of Node's `normalizeString`: empty and "." segments vanish,
   * ".." drops the previous segment unless that is itself "..", and is kept
   * only when the path may climb above its start (a relative path).
   */
  function Step(stack: seq<string>, seg: string, allowAboveRoot: bool): seq<string>
  {
    if seg == "" || seg == "." then stack
    else if seg == ".." then
      if |stack| > 0 && stack[|stack| - 1] != ".." then stack[..|stack| - 1]
      else if allowAboveRoot then stack + [".."]
      else stack
    else stack + [seg]
  }

  /** Node's `normalizeString`, left to right over the segments, from `stack`. */
  function NormFrom(stack: seq<string>, segs: seq<string>, allowAboveRoot: bool): seq<string>
    decreases |segs|
  {
    if segs == [] then stack
    else NormFrom(Step(stack, segs[0], allowAboveRoot), segs[1..], allowAboveRoot)
  }

  /** `path.normalize(p)`: never empty, absolute exactly when `p` is, and a trailing '/' is kept. */
  function Normalize(p: string): (r: string)
    ensures r != ""
    ensures IsAbsolute(r) <==> IsAbsolute(p)
    ensures p != "" && p[|p| - 1] == '/' ==> r[|r| - 1] == '/'
  {
    if p == "" then "."
    else
      var abs := p[0] == '/';
      var trailing := p[|p| - 1] == '/';
      var segs := NormFrom([], Split(p), !abs);
      NormFromSegments([], Split(p), !abs);
      JoinSegsEnds(segs);
      var body := JoinSegs(segs);
      if body == "" then (if abs then "/" else if trailing then "./" else ".")
      else (if abs then "/" else "") + body + (if trailing then "/" else "")
  }

  /** `path.join(a, b)`: the non-empty arguments joined with '/', then normalized. */
  function Join(a: string, b: string): (r: string)
    ensures r != ""
    ensures IsAbsolute(r) <==> IsAbsolute(a) || (a == "" && IsAbsolute(b))
  {
    if a == "" && b == "" then "."
    else Normalize(if a == "" then b else if b == "" then a else a + "/" + b)
  }

  /** The path `path.resolve(p)` normalizes: `p` itself if absolute, else prefixed by the working directory. */
  function FullPath(cwd: string, p: string): string
  {
    if IsAbsolute(p) then p
    else if p == "" then cwd
    else if cwd == "" then p
    else cwd + "/" + p
  }

  /**
   * `path.resolve(p)` when the process's working directory is `cwd`: absolute
   * when `p` or the working directory is, and without a trailing '/' unless it
   * is the root.
   */
  function Resolve(cwd: string, p: string): (r: string)
    ensures r != ""
    ensures IsAbsolute(p) || IsAbsolute(cwd) ==> IsAbsolute(r)
    ensures r == "/" || r[|r| - 1] != '/'
  {
    var full := FullPath(cwd, p);
    var abs := IsAbsolute(full);
    var segs := NormFrom([], Split(full), !abs);
    NormFromSegments([], Split(full), !abs);
    JoinSegsEnds(segs);
    var body := JoinSegs(segs);
    if abs then "/" + body
    else if body == "" then "."
    else body
  }

  /** The segments of `path.resolve(p)` below the root, for an absolute working directory. */
  function AbsSegs(cwd: string, p: string): seq<string>
    requires IsAbsolute(cwd)
  {
    NormFrom([], Split(FullPath(cwd, p)), false)
  }

  /** The length of the longest common prefix of `a` and `b`. */
  function CommonPrefix(a: seq<string>, b: seq<string>): (k: nat)
    ensures k <= |a| && k <= |b| && a[..k] == b[..k]
    ensures k < |a| && k < |b| ==> a[k] != b[k]
  {
    if a == [] || b == [] || a[0] != b[0] then 0
    else 1 + CommonPrefix(a[1..], b[1..])
  }

  /** `n` copies of the segment "..". */
  function Ups(n: nat): (r: seq<string>)
    ensures |r| == n && forall i :: 0 <= i < n ==> r[i] == ".."
  {
    if n == 0 then [] else Ups(n - 1) + [".."]
  }

  /**
   * `path.relative(from, to)`: one ".." per segment of `from` below the
   * longest common segment prefix, then the rest of `to`. Node compares
   * characters and remembers the last common separator; on two resolved
   * absolute paths that is the common prefix of their segments.
   */
  function Relative(cwd: string, from: string, to: string): (r: string)
    requires IsAbsolute(cwd)
    ensures !IsAbsolute(r)
    ensures r == "" || r[|r| - 1] != '/'
  {
    if from == to then ""
    else
      var fs := AbsSegs(cwd, from);
      var ts := AbsSegs(cwd, to);
      var k := CommonPrefix(fs, ts);
      NormFromSegments([], Split(FullPath(cwd, to)), false);
      var segs := Ups(|fs| - k) + ts[k..];
      assert Segments(segs) by {
        forall i | 0 <= i < |segs| ensures segs[i] != "" && '/' !in segs[i] {
          if i >= |fs| - k {
            assert segs[i] == ts[k + i - (|fs| - k)];
          }
        }
      }
      JoinSegsEnds(segs);
      JoinSegs(segs)
  }

  /** `p` without its trailing separators. */
  function TrimTrailingSlashes(p: string): (r: string)
    ensures StartsWith(p, r) && (r == "" || r[|r| - 1] != '/')
    ensures forall k :: |r| <= k < |p| ==> p[k] == '/'
  {
    if p != "" && p[|p| - 1] == '/' then TrimTrailingSlashes(p[..|p| - 1]) else p
  }

  /** The characters after the last '/'. */
  function AfterLastSlash(p: string): (r: string)
    ensures '/' !in r && EndsWith(p, r)
    ensures p != "" && p[|p| - 1] != '/' ==> r != ""
  {
    if p == "" || p[|p| - 1] == '/' then ""
    else
      var q := p[..|p| - 1];
      var r := AfterLastSlash(q);
      assert p[|p| - |r| - 1..] == q[|q| - |r|..] + [p[|p| - 1]];
      r + [p[|p| - 1]]
  }

  /**
   * `path.basename(p)`: the last segment, trailing separators ignored. It
   * holds no '/', and it is empty only when `p` is made of separators.
   */
  function Basename(p: string): (r: string)
    ensures '/' !in r
    ensures r == "" <==> forall k :: 0 <= k < |p| ==> p[k] == '/'
  {
    AfterLastSlash(TrimTrailingSlashes(p))
  }

  // ---------------------------------------------------------------------------
  // Lemmas

  /** Segments as normalization leaves them: none empty, none holding '/'. */
  predicate Segments(segs: seq<string>)
  {
    forall i :: 0 <= i < |segs| ==> segs[i] != "" && '/' !in segs[i]
  }

  /** Normalizing segments without '/' onto such a stack leaves such a stack. */
  lemma {:induction false} NormFromSegments(st: seq<string>, segs: seq<string>, allow: bool)
    requires Segments(st) && forall i :: 0 <= i < |segs| ==> '/' !in segs[i]
    ensures Segments(NormFrom(st, segs, allow))
    decreases |segs|
  {
    if segs != [] {
      var next := Step(st, segs[0], allow);
      assert Segments(next) by {
        if segs[0] == ".." && |st| > 0 && st[|st| - 1] != ".." {
          assert forall i :: 0 <= i < |next| ==> next[i] == st[i];
        }
      }
      assert forall i :: 0 <= i < |segs| - 1 ==> segs[1..][i] == segs[i + 1];
      NormFromSegments(next, segs[1..], allow);
    }
  }

  /** Joined segments start with the first segment's first character and end with the last one's last. */
  lemma {:induction false} JoinSegsEnds(segs: seq<string>)
    requires Segments(segs)
    ensures segs == [] <==> JoinSegs(segs) == ""
    ensures segs != [] ==> JoinSegs(segs)[0] == segs[0][0] && JoinSegs(segs)[0] != '/'
    ensures segs != [] ==> var j := JoinSegs(segs); var l := segs[|segs| - 1]; j[|j| - 1] == l[|l| - 1] && j[|j| - 1] != '/'
    decreases |segs|
  {
    if |segs| > 1 {
      var init := segs[..|segs| - 1];
      assert Segments(init) by {
        assert forall i :: 0 <= i < |init| ==> init[i] == segs[i];
      }
      JoinSegsEnds(init);
      assert init[0] == segs[0];
    }
  }

  /** The last segment of `p` is the suffix after its last '/'. */
  lemma {:induction false} SplitLast(p: string)
    ensures var l := LastSegment(p);
      |l| <= |p| && p[|p| - |l|..] == l && (|l| < |p| ==> p[|p| - |l| - 1] == '/') && '/' !in l
    decreases |p|
  {
    if '/' in p {
      var i := SlashIndex(p);
      var t := p[i + 1..];
      SplitLast(t);
      var l := LastSegment(t);
      assert LastSegment(p) == l;
      assert p[|p| - |l|..] == t[|t| - |l|..];
      if |l| == |t| {
        assert p[|p| - |l| - 1] == p[i];
      } else {
        assert p[|p| - |l| - 1] == t[|t| - |l| - 1];
      }
    }
  }

  lemma {:induction false} NormFromAppend(st: seq<string>, a: seq<string>, b: seq<string>, allow: bool)
    ensures NormFrom(st, a + b, allow) == NormFrom(NormFrom(st, a, allow), b, allow)
    decreases |a|
  {
    if a != [] {
      assert (a + b)[0] == a[0] && (a + b)[1..] == a[1..] + b;
      NormFromAppend(Step(st, a[0], allow), a[1..], b, allow);
    } else {
      assert a + b == b;
    }
  }

  lemma {:induction false} JoinSegsLast(segs: seq<string>, x: string)
    ensures EndsWith(JoinSegs(segs + [x]), x)
  {
    var s := segs + [x];
    assert s[..|s| - 1] == segs;
  }

  /** When `x` ends with `e` (no separator, not ending in a dot), so does its last segment, which is plain. */
  lemma {:induction false} LastSegmentEndsWith(x: string, e: string)
    requires EndsWith(x, e) && e != "" && '/' !in e && e[|e| - 1] != '.'
    ensures EndsWith(LastSegment(x), e) && Plain(LastSegment(x))
  {
    SplitLast(x);
    var l := LastSegment(x);
    var k := |x| - |l|;
    var j := |x| - |e|;
    assert x[j..] == e;
    assert k <= j;
    assert l == x[k..];
    assert l[|l| - |e|..] == x[j..];
    assert l[|l| - 1] == x[|x| - 1] == e[|e| - 1];
  }

  /** A path that does not end with '/' and whose last segment is plain normalizes to a string ending with that segment. */
  lemma {:induction false} NormalizeKeepsLast(p: string)
    requires p != "" && p[|p| - 1] != '/' && Plain(LastSegment(p))
    ensures EndsWith(Normalize(p), LastSegment(p))
  {
    var segs := Split(p);
    var l := LastSegment(p);
    var init := segs[..|segs| - 1];
    var allow := !(p[0] == '/');
    assert segs == init + [l];
    NormFromAppend([], init, [l], allow);
    var prev := NormFrom([], init, allow);
    assert NormFrom([], segs, allow) == prev + [l];
    JoinSegsLast(prev, l);
    var body := JoinSegs(prev + [l]);
    assert body != "";
    var lead: string := if allow then "" else "/";
    assert Normalize(p) == lead + body + "" by {
      assert p[|p| - 1] != '/';
    }
    assert lead + body + "" == lead + body;
    EndsWithAppendLeft(lead, body, l);
  }

  /** The last segment is the one suffix of `p` without '/' that starts `p` or follows a '/'. */
  lemma {:induction false} LastSegmentUnique(p: string, l: string)
    requires |l| <= |p| && p[|p| - |l|..] == l && '/' !in l && (|l| < |p| ==> p[|p| - |l| - 1] == '/')
    ensures LastSegment(p) == l
  {
    SplitLast(p);
  }

  /** The last segment of `a/x` is the last segment of `x`. */
  lemma {:induction false} SplitConcatLast(a: string, x: string)
    ensures LastSegment(a + "/" + x) == LastSegment(x)
  {
    SplitLast(x);
    var l := LastSegment(x);
    var p := a + "/" + x;
    assert p[|p| - |l|..] == x[|x| - |l|..];
    if |l| < |x| {
      assert p[|p| - |l| - 1] == x[|x| - |l| - 1];
    } else {
      assert p[|p| - |l| - 1] == p[|a|];
    }
    LastSegmentUnique(p, l);
  }

  /**
   * `path.join` keeps the end of its last argument when that end is a proper
   * file suffix (no separator, not ending in a dot): in particular an import
   * path written with ".scss" joins to a path ending in ".scss".
   */
  lemma {:induction false} JoinKeepsSuffix(a: string, x: string, e: string)
    requires EndsWith(x, e) && e != "" && '/' !in e && e[|e| - 1] != '.'
    ensures EndsWith(Join(a, x), e)
  {
    var joined := if a == "" then x else a + "/" + x;
    JoinedLastSegment(a, x, e, joined);
    NormalizeKeepsLast(joined);
    EndsWithTrans(Normalize(joined), LastSegment(joined), e);
    assert Join(a, x) == Normalize(joined);
  }

  /** The path `path.join` normalizes ends with the end of `x`, and so does its last segment. */
  lemma {:induction false} JoinedLastSegment(a: string, x: string, e: string, joined: string)
    requires EndsWith(x, e) && e != "" && '/' !in e && e[|e| - 1] != '.'
    requires joined == if a == "" then x else a + "/" + x
    ensures joined != "" && joined[|joined| - 1] != '/'
    ensures EndsWith(LastSegment(joined), e) && Plain(LastSegment(joined))
  {
    LastSegmentEndsWith(x, e);
    assert x[|x| - 1] == e[|e| - 1] by {
      assert x[|x| - |e|..][|e| - 1] == x[|x| - 1];
    }
    if a != "" {
      SplitConcatLast(a, x);
      assert joined[|joined| - 1] == x[|x| - 1];
    }
  }
}
