/**
 * The theme marker in module requests (index.js:74-100): a themed `.scss`
 * request gets `??theme:<key>` appended, and the module hook reads the key
 * back with `/\?\?.*theme:([^:?!]+)/`.
 */
module ThemeRequest {
  import opened Wrappers
  import opened Strings

  /** `request.match(/\.scss$/)`. */
  predicate IsScss(request: string)
  {
    EndsWith(request, ".scss")
  }

  /** The request a themed `.scss` module is given (index.js:76-81). */
  function Tag(request: string, themed: Option<string>): (r: string)
    ensures StartsWith(r, request)
    ensures r != request <==> IsScss(request) && Truthy(themed)
  {
    if IsScss(request) && Truthy(themed) then request + "??theme:" + themed.value else request
  }

  /** The characters `.` does not match. */
  predicate IsLineTerminator(c: char)
  {
    c == '\n' || c == '\r' || c == ' ' || c == ' '
  }

  /** The characters `[^:?!]` matches. */
  predicate IsKeyChar(c: char)
  {
    c != ':' && c != '?' && c != '!'
  }

  /** How far greedy `.*` reaches from `i`: the next line terminator, or the end. */
  function LineEnd(s: string, i: nat): (r: nat)
    requires i <= |s|
    ensures i <= r <= |s|
    ensures forall k :: i <= k < r ==> !IsLineTerminator(s[k])
    ensures r < |s| ==> IsLineTerminator(s[r])
    decreases |s| - i
  {
    if i == |s| || IsLineTerminator(s[i]) then i else LineEnd(s, i + 1)
  }

  /** How far greedy `[^:?!]+` reaches from `i`. */
  function KeyEnd(s: string, i: nat): (r: nat)
    requires i <= |s|
    ensures i <= r <= |s|
    ensures forall k :: i <= k < r ==> IsKeyChar(s[k])
    ensures r < |s| ==> !IsKeyChar(s[r])
    decreases |s| - i
  {
    if i == |s| || !IsKeyChar(s[i]) then i else KeyEnd(s, i + 1)
  }

  /** `theme:` followed by a key character starts at `j`. */
  predicate KeyAfter(s: string, j: nat)
  {
    OccursAt(s, "theme:", j) && j + 6 < |s| && IsKeyChar(s[j + 6])
  }

  /**
   * Where `.*theme:` ends up once `.*` has given back what it must: the
   * largest `j` in `[a, b]` at which `theme:` and a key character follow.
   */
  function LastKeyAt(s: string, a: nat, b: nat): (r: Option<nat>)
    requires a <= b
    ensures r.Some? ==> a <= r.value <= b && KeyAfter(s, r.value)
    ensures r.Some? ==> forall j: nat :: r.value < j <= b ==> !KeyAfter(s, j)
    ensures r.None? ==> forall j: nat :: a <= j <= b ==> !KeyAfter(s, j)
    decreases b - a
  {
    if KeyAfter(s, b) then Some(b)
    else if a == b then None
    else LastKeyAt(s, a, b - 1)
  }

  /** The group of the first match at or after `p`. */
  function ParseFrom(s: string, p: nat): (r: Option<string>)
    requires p <= |s|
    ensures r.Some? ==> r.value != "" && forall k :: 0 <= k < |r.value| ==> IsKeyChar(r.value[k])
    decreases |s| - p
  {
    if p + 2 > |s| then None
    else if OccursAt(s, "??", p) then
      match LastKeyAt(s, p + 2, LineEnd(s, p + 2))
      case Some(j) =>
        var e := KeyEnd(s, j + 6);
        Some(s[j + 6..e])
      case None => ParseFrom(s, p + 1)
    else ParseFrom(s, p + 1)
  }

  /** `request.match(/\?\?.*theme:([^:?!]+)/)`: group 1, or `None` for `null`. */
  function ParseTheme(request: string): (r: Option<string>)
    ensures r.Some? ==> r.value != "" && forall k :: 0 <= k < |r.value| ==> IsKeyChar(r.value[k])
  {
    ParseFrom(request, 0)
  }

  /** A request without `??` carries no theme. */
  lemma {:induction false} NoMarkerNoTheme(s: string, p: nat)
    requires p <= |s|
    requires forall i: nat :: !OccursAt(s, "??", i)
    ensures ParseFrom(s, p) == None
    decreases |s| - p
  {
    if p + 2 <= |s| {
      NoMarkerNoTheme(s, p + 1);
    }
  }

  /** The search moves past positions where no `??` starts. */
  lemma {:induction false} ParseSkip(s: string, p: nat, n: nat)
    requires p <= n <= |s|
    requires forall i: nat :: p <= i < n ==> !OccursAt(s, "??", i)
    ensures ParseFrom(s, p) == ParseFrom(s, n)
    decreases n - p
  {
    if p < n {
      ParseSkip(s, p + 1, n);
    }
  }

  /** No `theme:` can start inside a key, as a key holds no ':'. */
  lemma {:induction false} NoKeyAfterWithin(s: string, a: nat, b: nat)
    requires a + 6 <= |s|
    requires forall k :: a + 6 <= k < |s| ==> s[k] != ':'
    ensures forall j: nat :: a < j <= b ==> !KeyAfter(s, j)
  {
    forall j: nat | a < j <= b && j + 6 <= |s| ensures !OccursAt(s, "theme:", j) {
      assert s[j..j + 6][5] == s[j + 5] != ':';
    }
  }

  /** After the marker's `theme:`, the tagged request is the key. */
  lemma {:induction false} TagKeyChars(request: string, key: string)
    requires forall k :: 0 <= k < |key| ==> IsKeyChar(key[k])
    ensures var s := request + "??theme:" + key; var a := |request| + 8;
      && s[a..] == key
      && (forall k :: a <= k < |s| ==> IsKeyChar(s[k]) && s[k] != ':')
  {
    var s := request + "??theme:" + key;
    var a := |request| + 8;
    assert s[a..] == key;
    forall k | a <= k < |s| ensures IsKeyChar(s[k]) && s[k] != ':' {
      assert s[k] == key[k - a];
    }
  }

  /**
   * Round trip: the key the module hook reads from a tagged request is the
   * theme it was tagged with (index.js:80, 89-91), for a request on one line.
   */
  lemma {:induction false} ParseTag(request: string, key: string)
    requires IsScss(request) && forall k :: 0 <= k < |request| ==> !IsLineTerminator(request[k])
    requires key != "" && forall k :: 0 <= k < |key| ==> IsKeyChar(key[k])
    ensures ParseTheme(Tag(request, Some(key))) == Some(key)
  {
    var s := request + "??theme:" + key;
    var n := |request|;
    assert s == request + ("??theme:" + key);
    TagKeyChars(request, key);
    assert s[n..n + 8] == "??theme:";
    assert forall k :: 0 <= k < n ==> s[k] == request[k];
    ParseMarked(s, n);
  }

  /**
   * A line that ends in `??theme:` followed by a key yields that key, wherever
   * the first `??` of the line is: `.*` reaches past the marker and gives back
   * up to its `theme:`.
   */
  lemma {:induction false} ParseMarked(s: string, n: nat)
    requires n + 8 < |s| && s[n..n + 8] == "??theme:"
    requires forall k :: 0 <= k < n ==> !IsLineTerminator(s[k])
    requires forall k :: n + 8 <= k < |s| ==> IsKeyChar(s[k]) && s[k] != ':'
    ensures ParseTheme(s) == Some(s[n + 8..])
  {
    MarkerReached(s, n);
    var p := IndexOf(s, "??").value;
    ParseSkip(s, 0, p);
    var a := n + 2;
    assert s[n..n + 8][2..] == s[a..a + 6];
    NoKeyAfterWithin(s, a, LineEnd(s, p + 2));
    assert KeyAfter(s, a);
    ParseAtMarker(s, p, a);
    assert KeyEnd(s, a + 6) == |s|;
    assert s[a + 6..KeyEnd(s, a + 6)] == s[n + 8..];
    assert ParseTheme(s) == ParseFrom(s, 0);
  }

  /**
   * On a line ending in `??theme:`, the first `??` is no later than the marker,
   * and the line runs past the marker.
   */
  lemma {:induction false} MarkerReached(s: string, n: nat)
    requires n + 8 <= |s| && s[n..n + 8] == "??theme:"
    requires forall k :: 0 <= k < n ==> !IsLineTerminator(s[k])
    ensures IndexOf(s, "??").Some? && IndexOf(s, "??").value <= n
    ensures LineEnd(s, IndexOf(s, "??").value + 2) >= n + 8
  {
    assert s[n..n + 8][..2] == s[n..n + 2];
    assert OccursAt(s, "??", n);
    var p := IndexOf(s, "??").value;
    forall k | p + 2 <= k < n + 8 ensures !IsLineTerminator(s[k]) {
      if k >= n {
        assert s[k] == s[n..n + 8][k - n];
      }
    }
  }

  /** At a `??` after which the last `theme:` of the line is at `j`, the match takes the key after it. */
  lemma {:induction false} ParseAtMarker(s: string, p: nat, j: nat)
    requires OccursAt(s, "??", p) && p + 2 <= j <= LineEnd(s, p + 2) && KeyAfter(s, j)
    requires forall i: nat :: j < i <= LineEnd(s, p + 2) ==> !KeyAfter(s, i)
    ensures ParseFrom(s, p) == Some(s[j + 6..KeyEnd(s, j + 6)])
  {
    LastKeyAtIs(s, p + 2, LineEnd(s, p + 2), j);
  }

  /** The last `theme:` of a range is the one after which no other starts. */
  lemma {:induction false} LastKeyAtIs(s: string, a: nat, b: nat, j: nat)
    requires a <= j <= b && KeyAfter(s, j)
    requires forall i: nat :: j < i <= b ==> !KeyAfter(s, i)
    ensures LastKeyAt(s, a, b) == Some(j)
    decreases b - a
  {
    if j < b {
      LastKeyAtIs(s, a, b - 1, j);
    }
  }
}
