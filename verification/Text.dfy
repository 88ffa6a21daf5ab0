/** String helpers with the meaning of the JavaScript string methods the pages call. */
module Text {
  import opened Wrappers

  /** `s.startsWith(p)`. */
  predicate StartsWith(s: string, p: string) {
    |p| <= |s| && s[..|p|] == p
  }

  /** `p` occurs in `s` beginning at index `i`. */
  predicate OccursAt(s: string, p: string, i: nat) {
    i + |p| <= |s| && s[i..i + |p|] == p
  }

  /**
   * The first index at or after `k` where `p` occurs: `s.indexOf(p, k)` for `k <= |s|`
   * (JavaScript clamps a larger `k` to `|s|`; only `k = 0` is used here).
   */
  function IndexOfFrom(s: string, p: string, k: nat): (r: Option<nat>)
    ensures r.Some? ==> k <= r.value && OccursAt(s, p, r.value)
    ensures r.Some? ==> forall j :: k <= j < r.value ==> !OccursAt(s, p, j)
    ensures r.None? ==> forall j :: k <= j ==> !OccursAt(s, p, j)
    decreases |s| - k
  {
    if k + |p| > |s| then None
    else if OccursAt(s, p, k) then Some(k)
    else IndexOfFrom(s, p, k + 1)
  }

  /** `s.indexOf(p)`. */
  function IndexOf(s: string, p: string): Option<nat> {
    IndexOfFrom(s, p, 0)
  }

  /** `s.includes(p)`: defined, as in the language, by `indexOf`. */
  predicate Contains(s: string, p: string) {
    IndexOf(s, p).Some?
  }

  /** `includes` holds exactly when some index carries an occurrence. */
  lemma ContainsIff(s: string, p: string)
    ensures Contains(s, p) <==> exists i: nat :: OccursAt(s, p, i)
  {
  }

  /** Witness form of `ContainsIff`. */
  lemma ContainsAt(s: string, p: string, i: nat)
    requires OccursAt(s, p, i)
    ensures Contains(s, p)
  {
  }

  /** `p` occurs in `a + p + c` right after `a`. */
  lemma OccursBetween(a: string, p: string, c: string)
    ensures OccursAt(a + p + c, p, |a|)
  {
    assert (a + p + c)[|a|..|a| + |p|] == p;
  }

  /** A string whose tail from index `k` lacks the character `p[k]` does not contain `p`. */
  lemma MissingCharNotContained(s: string, p: string, k: nat)
    requires k < |p| && k <= |s| && p[k] !in s[k..]
    ensures !Contains(s, p)
  {
  }

  /** A string begins with `p` exactly when `p` occurs at index 0, so `indexOf` finds it there. */
  lemma StartsWithIndexOf(s: string, p: string)
    requires StartsWith(s, p)
    ensures IndexOf(s, p) == Some(0)
  {
    assert OccursAt(s, p, 0);
  }

  /**
   * `s.replace(p, r)` with a string pattern: only the FIRST occurrence is replaced, and
   * `r` is inserted literally (JavaScript's `$` patterns in `r` are not expanded).
   */
  function ReplaceFirst(s: string, p: string, r: string): (t: string)
    ensures !Contains(s, p) ==> t == s
    ensures Contains(s, p) ==>
      exists i: nat :: OccursAt(s, p, i) && (forall j :: 0 <= j < i ==> !OccursAt(s, p, j))
        && t == s[..i] + r + s[i + |p|..]
  {
    match IndexOf(s, p)
    case None => s
    case Some(i) => s[..i] + r + s[i + |p|..]
  }

  /**
   * What the `\s` class of ECMAScript regular expressions matches: the WhiteSpace
   * characters (tab, vertical tab, form feed, space, no-break space, byte order mark and
   * the space separators) and the LineTerminator characters.
   */
  const SpaceChars: set<char> := {
    '\t', '\n', '\U{B}', '\U{C}', '\r', ' ', '\U{A0}', '\U{1680}',
    '\U{2000}', '\U{2001}', '\U{2002}', '\U{2003}', '\U{2004}', '\U{2005}',
    '\U{2006}', '\U{2007}', '\U{2008}', '\U{2009}', '\U{200A}',
    '\U{2028}', '\U{2029}', '\U{202F}', '\U{205F}', '\U{3000}', '\U{FEFF}'
  }

  predicate IsSpace(c: char) {
    c in SpaceChars
  }

  /** Visible ASCII characters are not whitespace. */
  lemma VisibleIsNotSpace(c: char)
    requires '!' <= c <= '~'
    ensures !IsSpace(c)
  {
  }

  /** No character of `s` is whitespace. */
  predicate NoSpace(s: string) {
    forall i :: 0 <= i < |s| ==> !IsSpace(s[i])
  }
}
