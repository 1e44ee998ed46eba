/**
 * The two regular expressions of loader.js, as hand-written matchers that make
 * the same choices as JavaScript's backtracking engine.
 *
 * The statement pattern (loader.js:17-18), for a filename `f` that reads
 * literally in it:
 *     @import\s+['"]([^'"]+f(\.scss|\.sass)?)['"];?
 * used with the global flag (loader.js:19): left to right, non-overlapping.
 *
 * The path pattern (loader.js:8):
 *     ['"]([^'"]+)(\.scss|\.sass)?['"]
 * used without the global flag: its first match's group 1.
 */
module ImportPattern {
  import opened Wrappers
  import opened Strings

  predicate IsQuote(c: char)
  {
    c == '\'' || c == '"'
  }

  /** JavaScript's `\s`: the white space and line terminator characters. */
  predicate IsSpace(c: char)
  {
    c == '\t' || c == '\n' || c == '\U{000B}' || c == '\U{000C}' || c == '\r' || c == ' '
    || c == '\U{00A0}' || c == '\U{1680}' || ('\U{2000}' <= c <= '\U{200A}')
    || c == '\U{2028}' || c == '\U{2029}' || c == '\U{202F}' || c == '\U{205F}'
    || c == '\U{3000}' || c == '\U{FEFF}'
  }

  /** The characters with a meaning of their own in a JavaScript regular expression. */
  predicate IsRegexMeta(c: char)
  {
    c in "\\^$.|?*+()[]{}"
  }

  /**
   * `f` stands for itself inside the statement pattern: loader.js:17 escapes
   * only the first '.', so no other metacharacter may occur.
   */
  predicate ReadsLiterally(f: string)
  {
    forall i :: 0 <= i < |f| && IsRegexMeta(f[i]) ==> f[i] == '.' && '.' !in f[..i]
  }

  predicate NoQuote(s: string)
  {
    forall i :: 0 <= i < |s| ==> !IsQuote(s[i])
  }

  /** The three endings `(\.scss|\.sass)?` accepts. */
  predicate IsStyleExt(e: string)
  {
    e == "" || e == ".scss" || e == ".sass"
  }

  /** `x` is at least one non-quote character, then `f`, then `e`. */
  predicate QuotedTextWith(x: string, f: string, e: string)
  {
    |x| > |f| + |e| && x[|x| - |f| - |e|..] == f + e && NoQuote(x[..|x| - |f| - |e|])
  }

  /** `x` is a text the group `([^'"]+f(\.scss|\.sass)?)` accepts. */
  predicate QuotedText(x: string, f: string)
  {
    QuotedTextWith(x, f, "") || QuotedTextWith(x, f, ".scss") || QuotedTextWith(x, f, ".sass")
  }

  /**
   * `s[p..e]` is an import statement: "@import", white space up to the opening
   * quote at `w`, the quoted text, the closing quote at `q`, and an optional ';'.
   */
  predicate StatementIn(s: string, f: string, p: nat, w: nat, q: nat, e: nat)
  {
    && p + 7 < w < q < e <= |s|
    && s[p..p + 7] == "@import"
    && (forall k :: p + 7 <= k < w ==> IsSpace(s[k]))
    && IsQuote(s[w]) && IsQuote(s[q])
    && QuotedText(s[w + 1..q], f)
    && (e == q + 1 || (e == q + 2 && s[q + 1] == ';'))
  }

  /** The whole of `c` is an import statement. */
  ghost predicate IsStatement(c: string, f: string)
  {
    exists w: nat, q: nat :: StatementIn(c, f, 0, w, q, |c|)
  }

  /** Where a match lies: "@import" at `start`, quotes at `open` and `close`, `end` just past it. */
  datatype Span = Span(start: nat, open: nat, close: nat, end: nat)

  predicate SpanOk(s: string, f: string, m: Span)
  {
    StatementIn(s, f, m.start, m.open, m.close, m.end)
  }

  // ---------------------------------------------------------------------------
  // The engine

  /** The end of the longest run of white space from `i` (greedy `\s+`). */
  function SpaceRunEnd(s: string, i: nat): (j: nat)
    requires i <= |s|
    ensures i <= j <= |s|
    ensures forall k :: i <= k < j ==> IsSpace(s[k])
    ensures j == |s| || !IsSpace(s[j])
    decreases |s| - i
  {
    if i == |s| || !IsSpace(s[i]) then i else SpaceRunEnd(s, i + 1)
  }

  /** The end of the longest run of non-quote characters from `i` (greedy `[^'"]+`). */
  function NonQuoteRunEnd(s: string, i: nat): (j: nat)
    requires i <= |s|
    ensures i <= j <= |s|
    ensures forall k :: i <= k < j ==> !IsQuote(s[k])
    ensures j == |s| || IsQuote(s[j])
    decreases |s| - i
  {
    if i == |s| || IsQuote(s[i]) then i else NonQuoteRunEnd(s, i + 1)
  }

  /** At `t` follow `f`, the ending `e` and a quote. */
  predicate ClosesWith(s: string, f: string, t: nat, e: string)
  {
    OccursAt(s, f + e, t) && t + |f| + |e| < |s| && IsQuote(s[t + |f| + |e|])
  }

  /** The ending the engine settles on at `t`: ".scss" is tried first, then ".sass", then none. */
  function CloseAfter(s: string, f: string, t: nat): (r: Option<string>)
    ensures r.Some? ==> IsStyleExt(r.value) && ClosesWith(s, f, t, r.value)
    ensures r.None? <==> !ClosesWith(s, f, t, "") && !ClosesWith(s, f, t, ".scss") && !ClosesWith(s, f, t, ".sass")
  {
    if ClosesWith(s, f, t, ".scss") then Some(".scss")
    else if ClosesWith(s, f, t, ".sass") then Some(".sass")
    else if ClosesWith(s, f, t, "") then Some("")
    else None
  }

  /**
   * Backtracking over the greedy run `[^'"]+` that began at `b`: the longest
   * run end `t`, from the given one down to `b + 1`, after which the rest matches.
   */
  function Backtrack(s: string, f: string, b: nat, t: nat): (r: Option<nat>)
    requires b < t
    ensures r.Some? ==> b < r.value <= t && CloseAfter(s, f, r.value).Some?
    decreases t
  {
    if CloseAfter(s, f, t).Some? then Some(t)
    else if t == b + 1 then None
    else Backtrack(s, f, b, t - 1)
  }

  /** No run end in `(b, t]` is followed by the rest of a match. */
  predicate NoCloseIn(s: string, f: string, b: nat, t: nat)
    decreases t
  {
    t <= b || (CloseAfter(s, f, t).None? && NoCloseIn(s, f, b, t - 1))
  }

  /** What `NoCloseIn` says, end by end. */
  lemma {:induction false} NoCloseInAt(s: string, f: string, b: nat, t: nat, t': nat)
    requires NoCloseIn(s, f, b, t) && b < t' <= t
    ensures CloseAfter(s, f, t').None?
    decreases t
  {
    if t' < t {
      NoCloseInAt(s, f, b, t - 1, t');
    }
  }

  /** Backtracking settles on the longest run end after which the rest matches, and gives up exactly when there is none. */
  lemma {:induction false} BacktrackLongest(s: string, f: string, b: nat, t: nat)
    requires b < t
    ensures Backtrack(s, f, b, t).Some? ==> NoCloseIn(s, f, Backtrack(s, f, b, t).value, t)
    ensures Backtrack(s, f, b, t).None? <==> NoCloseIn(s, f, b, t)
    decreases t
  {
    if CloseAfter(s, f, t).None? && t > b + 1 {
      BacktrackLongest(s, f, b, t - 1);
    }
  }

  /** The match the engine finds starting exactly at `p`, if any. */
  function MatchAt(s: string, f: string, p: nat): (r: Option<Span>)
    requires p <= |s|
    ensures r.Some? ==> r.value.start == p < r.value.end <= |s|
  {
    if !OccursAt(s, "@import", p) then None
    else
      var w := SpaceRunEnd(s, p + 7);
      if w == p + 7 || w == |s| || !IsQuote(s[w]) then None
      else MatchFromQuote(s, f, p, w)
  }

  /** The rest of a match whose opening quote is at `w`. */
  function MatchFromQuote(s: string, f: string, p: nat, w: nat): (r: Option<Span>)
    requires p < w < |s|
    ensures r.Some? ==> r.value.start == p && r.value.open == w < r.value.end <= |s|
  {
    var r := NonQuoteRunEnd(s, w + 1);
    if r == w + 1 then None
    else match Backtrack(s, f, w + 1, r)
      case None => None
      case Some(t) =>
        var e := CloseAfter(s, f, t).value;
        var q := t + |f| + |e|;
        Some(Span(p, w, q, if q + 1 < |s| && s[q + 1] == ';' then q + 2 else q + 1))
  }

  /** What the engine matches at `p` is a statement. */
  lemma {:induction false} MatchAtSound(s: string, f: string, p: nat)
    requires p <= |s| && MatchAt(s, f, p).Some?
    ensures SpanOk(s, f, MatchAt(s, f, p).value)
  {
    var w := SpaceRunEnd(s, p + 7);
    MatchFromQuoteSound(s, f, p, w);
  }

  lemma {:induction false} MatchFromQuoteSound(s: string, f: string, p: nat, w: nat)
    requires p + 7 < w < |s| && OccursAt(s, "@import", p)
    requires forall k :: p + 7 <= k < w ==> IsSpace(s[k])
    requires IsQuote(s[w])
    requires MatchFromQuote(s, f, p, w).Some?
    ensures SpanOk(s, f, MatchFromQuote(s, f, p, w).value)
  {
    var r := NonQuoteRunEnd(s, w + 1);
    var t := Backtrack(s, f, w + 1, r).value;
    var e := CloseAfter(s, f, t).value;
    var q := t + |f| + |e|;
    var m := Span(p, w, q, if q + 1 < |s| && s[q + 1] == ';' then q + 2 else q + 1);
    assert MatchFromQuote(s, f, p, w) == Some(m);
    BuiltSpanOk(s, f, m, t, e);
  }

  /** The pieces the engine has found at `m` make up a statement. */
  lemma {:induction false} BuiltSpanOk(s: string, f: string, m: Span, t: nat, e: string)
    requires m.start + 7 < m.open && m.open + 1 < t <= |s|
    requires OccursAt(s, "@import", m.start)
    requires forall k :: m.start + 7 <= k < m.open ==> IsSpace(s[k])
    requires IsQuote(s[m.open])
    requires forall k :: m.open + 1 <= k < t ==> !IsQuote(s[k])
    requires IsStyleExt(e) && ClosesWith(s, f, t, e)
    requires m.close == t + |f| + |e|
    requires m.end == if m.close + 1 < |s| && s[m.close + 1] == ';' then m.close + 2 else m.close + 1
    ensures SpanOk(s, f, m)
  {
    BuiltQuotedText(s, f, m.open, t, e);
    assert s[m.start..m.start + 7] == "@import";
  }

  /** A non-quote run from `w + 1` to `t`, then `f` and `e`, make a quoted text ending at `t + |f| + |e|`. */
  lemma {:induction false} BuiltQuotedText(s: string, f: string, w: nat, t: nat, e: string)
    requires w + 1 < t && OccursAt(s, f + e, t)
    requires forall k :: w + 1 <= k < t ==> !IsQuote(s[k])
    ensures QuotedTextWith(s[w + 1..t + |f| + |e|], f, e)
  {
    var q := t + |f| + |e|;
    var x := s[w + 1..q];
    var a := t - w - 1;
    assert x[a..] == s[t..q];
    forall i | 0 <= i < a ensures !IsQuote(x[..a][i]) {
      assert x[..a][i] == s[w + 1 + i];
    }
  }

  /**
   * `content.match(pattern)` with the global flag, from `from` on: each match
   * is searched for from the end of the previous one.
   */
  function Scan(s: string, f: string, from: nat): (r: seq<Span>)
    requires from <= |s|
    ensures forall k :: 0 <= k < |r| ==> from <= r[k].start < r[k].end <= |s|
    ensures forall k :: 0 < k < |r| ==> r[k - 1].end <= r[k].start
    decreases |s| - from
  {
    if from == |s| then []
    else match MatchAt(s, f, from)
      case Some(m) => [m] + Scan(s, f, m.end)
      case None => Scan(s, f, from + 1)
  }

  /** Every span the global search returns is a statement. */
  lemma {:induction false} ScanSound(s: string, f: string, from: nat)
    requires from <= |s|
    ensures forall k :: 0 <= k < |Scan(s, f, from)| ==> SpanOk(s, f, Scan(s, f, from)[k])
    decreases |s| - from
  {
    if from < |s| {
      match MatchAt(s, f, from)
      case Some(m) =>
        MatchAtSound(s, f, from);
        ScanSound(s, f, m.end);
        assert Scan(s, f, from) == [m] + Scan(s, f, m.end);
      case None =>
        ScanSound(s, f, from + 1);
    }
  }

  /** The matched texts of the spans, in order. */
  function Texts(s: string, spans: seq<Span>): (r: seq<string>)
    requires forall k :: 0 <= k < |spans| ==> spans[k].start <= spans[k].end <= |s|
    ensures |r| == |spans|
    ensures forall k :: 0 <= k < |r| ==> r[k] == s[spans[k].start..spans[k].end]
  {
    if spans == [] then [] else [s[spans[0].start..spans[0].end]] + Texts(s, spans[1..])
  }

  /** `content.match(new RegExp(pattern, 'g'))` (loader.js:19): the matched statements, or `null`. */
  function MatchAll(s: string, f: string): (r: Option<seq<string>>)
    ensures r.Some? ==> r.value != []
  {
    var spans := Scan(s, f, 0);
    if spans == [] then None else Some(Texts(s, spans))
  }

  /** `c.match(/['"]([^'"]+)(\.scss|\.sass)?['"]/)` from `i` on: group 1 of the first match. */
  function QuotedPathFrom(c: string, i: nat): (r: Option<string>)
    ensures r.Some? ==> r.value != "" && NoQuote(r.value)
    decreases |c| - i
  {
    if i >= |c| then None
    else if IsQuote(c[i]) && i + 1 < |c| && !IsQuote(c[i + 1]) && NonQuoteRunEnd(c, i + 1) < |c|
    then Some(c[i + 1..NonQuoteRunEnd(c, i + 1)])
    else QuotedPathFrom(c, i + 1)
  }

  /** loader.js:8: the path an import statement names, as captured by group 1. */
  function QuotedPath(c: string): (r: Option<string>)
    ensures r.Some? ==> r.value != "" && NoQuote(r.value)
  {
    QuotedPathFrom(c, 0)
  }

  // ---------------------------------------------------------------------------
  // What the engine finds

  /** A quoted text splits into a non-quote run ending at `t`, the filename and an ending. */
  lemma {:induction false} QuotedTextParts(s: string, f: string, w: nat, q: nat) returns (t: nat, ext: string)
    requires w < q <= |s| && QuotedText(s[w + 1..q], f)
    ensures IsStyleExt(ext) && w + 1 < t && t + |f| + |ext| == q
    ensures forall k :: w + 1 <= k < t ==> !IsQuote(s[k])
    ensures s[t..q] == f + ext
  {
    var x := s[w + 1..q];
    ext := if QuotedTextWith(x, f, "") then "" else if QuotedTextWith(x, f, ".scss") then ".scss" else ".sass";
    assert QuotedTextWith(x, f, ext);
    t := q - |f| - |ext|;
    assert x[t - w - 1..] == s[t..q];
    forall k | w + 1 <= k < t ensures !IsQuote(s[k]) {
      assert s[k] == x[..t - w - 1][k - w - 1];
    }
  }

  /** Wherever a statement starts, the engine matches there (it may take a different ending, but it matches). */
  lemma {:induction false} MatchAtComplete(s: string, f: string, p: nat, w: nat, q: nat, e: nat)
    requires StatementIn(s, f, p, w, q, e)
    ensures MatchAt(s, f, p).Some?
  {
    assert OccursAt(s, "@import", p);
    assert SpaceRunEnd(s, p + 7) == w;
    var t, ext := QuotedTextParts(s, f, w, q);
    MatchFromQuoteComplete(s, f, p, w, t, ext);
  }

  lemma {:induction false} MatchFromQuoteComplete(s: string, f: string, p: nat, w: nat, t: nat, ext: string)
    requires p < w && w + 1 < t <= |s|
    requires forall k :: w + 1 <= k < t ==> !IsQuote(s[k])
    requires ClosesWith(s, f, t, ext) && IsStyleExt(ext)
    ensures MatchFromQuote(s, f, p, w).Some?
  {
    var r := NonQuoteRunEnd(s, w + 1);
    assert t <= r;
    assert CloseAfter(s, f, t).Some?;
    BacktrackLongest(s, f, w + 1, r);
    if Backtrack(s, f, w + 1, r).None? {
      NoCloseInAt(s, f, w + 1, r, t);
    }
  }

  /** Position `i` lies inside one of the spans. */
  predicate Covered(r: seq<Span>, i: nat)
  {
    exists k :: 0 <= k < |r| && r[k].start <= i < r[k].end
  }

  /**
   * The global search misses nothing: every statement that starts at or after
   * `from` starts inside one of the matches (left to right, non-overlapping,
   * as the ensures of Scan state).
   */
  lemma {:induction false} ScanComplete(s: string, f: string, from: nat, i: nat, w: nat, q: nat, e: nat)
    requires from <= |s| && from <= i && StatementIn(s, f, i, w, q, e)
    ensures Covered(Scan(s, f, from), i)
    decreases |s| - from
  {
    var r := Scan(s, f, from);
    assert from < |s|;
    match MatchAt(s, f, from)
    case Some(m) =>
      assert r == [m] + Scan(s, f, m.end);
      if i < m.end {
        assert r[0] == m;
      } else {
        ScanComplete(s, f, m.end, i, w, q, e);
        var r' := Scan(s, f, m.end);
        var k :| 0 <= k < |r'| && r'[k].start <= i < r'[k].end;
        assert r[k + 1] == r'[k];
      }
    case None =>
      assert r == Scan(s, f, from + 1);
      if i == from {
        MatchAtComplete(s, f, i, w, q, e);
      } else {
        ScanComplete(s, f, from + 1, i, w, q, e);
      }
  }

  /** A statement found inside a longer text is a statement on its own. */
  lemma {:induction false} StatementSlice(s: string, f: string, p: nat, w: nat, q: nat, e: nat)
    requires StatementIn(s, f, p, w, q, e)
    ensures StatementIn(s[p..e], f, 0, w - p, q - p, e - p)
  {
    var c := s[p..e];
    assert c[..7] == s[p..p + 7];
    assert c[w - p + 1..q - p] == s[w + 1..q] by {
      forall k | w + 1 <= k < q ensures c[k - p] == s[k] { }
    }
    forall k | 7 <= k < w - p ensures IsSpace(c[k]) {
      assert c[k] == s[p + k];
    }
  }

  /** The text of a span that is a statement is a statement. */
  lemma {:induction false} SpanTextIsStatement(s: string, f: string, m: Span)
    requires SpanOk(s, f, m)
    ensures IsStatement(s[m.start..m.end], f)
  {
    StatementSlice(s, f, m.start, m.open, m.close, m.end);
    var c := s[m.start..m.end];
    assert StatementIn(c, f, 0, m.open - m.start, m.close - m.start, |c|);
  }

  /** No statement anywhere in the content exactly when the global match returns `null` (loader.js:19-21). */
  lemma {:induction false} NoMatchIffNoStatement(s: string, f: string)
    ensures MatchAll(s, f).None? <==> forall i: nat, w: nat, q: nat, e: nat :: !StatementIn(s, f, i, w, q, e)
  {
    var r := Scan(s, f, 0);
    if r != [] {
      ScanSound(s, f, 0);
      assert SpanOk(s, f, r[0]);
    } else {
      forall i: nat, w: nat, q: nat, e: nat | StatementIn(s, f, i, w, q, e) ensures false {
        ScanComplete(s, f, 0, i, w, q, e);
      }
    }
  }

  /** Every text the global match returns is a whole statement (loader.js:17-19). */
  lemma {:induction false} MatchedAreStatements(s: string, f: string)
    requires MatchAll(s, f).Some?
    ensures forall c :: c in MatchAll(s, f).value ==> IsStatement(c, f)
  {
    var spans := Scan(s, f, 0);
    var cs := MatchAll(s, f).value;
    ScanSound(s, f, 0);
    forall c | c in cs ensures IsStatement(c, f) {
      var k :| 0 <= k < |cs| && cs[k] == c;
      SpanTextIsStatement(s, f, spans[k]);
    }
  }

  lemma {:induction false} QuotedPathSkip(c: string, i: nat, j: nat)
    requires i <= j <= |c|
    requires forall k :: i <= k < j ==> !IsQuote(c[k])
    ensures QuotedPathFrom(c, i) == QuotedPathFrom(c, j)
    decreases j - i
  {
    if i < j {
      QuotedPathSkip(c, i + 1, j);
    }
  }

  /** A quoted text whose filename has no quote has no quote at all. */
  lemma {:induction false} QuotedTextNoQuote(x: string, f: string, ext: string)
    requires QuotedTextWith(x, f, ext) && IsStyleExt(ext) && NoQuote(f)
    ensures NoQuote(x)
  {
    var a := |x| - |f| - |ext|;
    assert x == x[..a] + (f + ext);
    assert NoQuote(f + ext) by {
      forall k | 0 <= k < |f + ext| ensures !IsQuote((f + ext)[k]) {
        if k >= |f| {
          assert (f + ext)[k] == ext[k - |f|];
        }
      }
    }
  }

  /**
   * On a statement, the path pattern of loader.js:8 always matches, and when
   * `f` has no quote its group is the whole quoted text, extension included:
   * `[^'"]+` is greedy and leaves nothing for `(\.scss|\.sass)?`.
   */
  lemma {:induction false} QuotedPathOfStatement(c: string, f: string, w: nat, q: nat)
    requires StatementIn(c, f, 0, w, q, |c|)
    ensures QuotedPath(c).Some?
    ensures NoQuote(f) ==> QuotedPath(c) == Some(c[w + 1..q])
  {
    StatementHeadNoQuote(c, f, w, q);
    QuotedPathSkip(c, 0, w);
    var x := c[w + 1..q];
    QuotedTextStartsPlain(x, f);
    assert c[w + 1] == x[0];
    var r := NonQuoteRunEnd(c, w + 1);
    assert r <= q;
    assert QuotedPath(c) == Some(c[w + 1..r]);
    if NoQuote(f) {
      QuotedTextNoQuoteIn(c, f, w, q);
      assert r == q;
    }
  }

  /** Before the opening quote of a statement there is no quote: "@import" and white space. */
  lemma {:induction false} StatementHeadNoQuote(c: string, f: string, w: nat, q: nat)
    requires StatementIn(c, f, 0, w, q, |c|)
    ensures forall k :: 0 <= k < w ==> !IsQuote(c[k])
  {
    forall k | 0 <= k < w ensures !IsQuote(c[k]) {
      if k < 7 {
        assert c[k] == c[..7][k];
      }
    }
  }

  /** A quoted text starts with a character that is not a quote. */
  lemma {:induction false} QuotedTextStartsPlain(x: string, f: string)
    requires QuotedText(x, f)
    ensures |x| > 0 && !IsQuote(x[0])
  {
    var ext := if QuotedTextWith(x, f, "") then "" else if QuotedTextWith(x, f, ".scss") then ".scss" else ".sass";
    assert x[0] == x[..|x| - |f| - |ext|][0];
  }

  /** When `f` has no quote, nothing between the quotes of a statement is a quote. */
  lemma {:induction false} QuotedTextNoQuoteIn(c: string, f: string, w: nat, q: nat)
    requires StatementIn(c, f, 0, w, q, |c|) && NoQuote(f)
    ensures forall k :: w + 1 <= k < q ==> !IsQuote(c[k])
  {
    var x := c[w + 1..q];
    var ext := if QuotedTextWith(x, f, "") then "" else if QuotedTextWith(x, f, ".scss") then ".scss" else ".sass";
    QuotedTextNoQuote(x, f, ext);
    forall k | w + 1 <= k < q ensures !IsQuote(c[k]) {
      assert c[k] == x[k - w - 1];
    }
  }

}
