/**
 * JavaScript's `s.replace(pattern, replacement)` when both are strings: only
 * the first occurrence of `pattern` is replaced, and the replacement is read
 * as a template in which `$$`, `$&`, `` $` `` and `$'` are substitution
 * patterns (the GetSubstitution operation of ECMA-262). With a
 * string pattern there are no capture groups, so `$1` and `$<` stay as written.
 */
module JsReplace {
  import opened Wrappers
  import opened Strings

  /**
   * The replacement text for a match of `matched` at `pos` in `s`, read from
   * the template `t`.
   */
  function Substitute(t: string, s: string, pos: nat, matched: string): (r: string)
    requires pos + |matched| <= |s|
    ensures '$' !in t ==> r == t
    decreases |t|
  {
    if t == [] then []
    else if t[0] == '$' && |t| >= 2 then
      if t[1] == '$' then "$" + Substitute(t[2..], s, pos, matched)
      else if t[1] == '&' then matched + Substitute(t[2..], s, pos, matched)
      else if t[1] == '`' then s[..pos] + Substitute(t[2..], s, pos, matched)
      else if t[1] == '\'' then s[pos + |matched|..] + Substitute(t[2..], s, pos, matched)
      else "$" + Substitute(t[1..], s, pos, matched)
    else
      assert '$' !in t ==> '$' !in t[1..];
      [t[0]] + Substitute(t[1..], s, pos, matched)
  }

  /** `s.replace(pattern, t)` for string arguments. */
  function ReplaceFirst(s: string, pattern: string, t: string): (r: string)
    ensures IndexOf(s, pattern).None? ==> r == s
    ensures IndexOf(s, pattern).Some? ==>
      var i := IndexOf(s, pattern).value;
      StartsWith(r, s[..i]) && EndsWith(r, s[i + |pattern|..])
  {
    match IndexOf(s, pattern)
    case None => s
    case Some(i) => s[..i] + Substitute(t, s, i, pattern) + s[i + |pattern|..]
  }

  /**
   * With a template free of `$`, the first occurrence of `pattern` is swapped
   * for the template and the rest is kept; without an occurrence nothing changes.
   */
  lemma {:induction false} ReplaceFirstLiteral(s: string, pattern: string, t: string)
    requires '$' !in t
    ensures IndexOf(s, pattern).None? ==> ReplaceFirst(s, pattern, t) == s
    ensures IndexOf(s, pattern).Some? ==>
      var i := IndexOf(s, pattern).value;
      ReplaceFirst(s, pattern, t) == s[..i] + t + s[i + |pattern|..]
  {
  }
}
