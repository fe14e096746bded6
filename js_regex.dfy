/**
 * Reference semantics of the two JavaScript regular expressions applied to
 * the `aud` claim. Both have the shape  prefix ( [^@]* ) suffix :
 *   /https:\/\/([^@]*)/   prefix "https://", suffix ""
 *   /\/([^@]*)@/          prefix "/",        suffix "@"
 * `String.prototype.match` without the `g` flag is unanchored: it reports
 * the match that starts at the smallest index, and there the greedy `*`
 * with backtracking settles on the longest capture the rest of the pattern
 * accepts.
 */
module JsRegex {

  /** The one character the class `[^@]` excludes. */
  const At: char := '@'

  /** The pattern  prefix ([^@]*) suffix  matches `s` at index `p` with capture `cap`. */
  ghost predicate MatchAt(s: string, p: int, prefix: string, suffix: string, cap: string)
  {
    && 0 <= p
    && p + |prefix| + |cap| + |suffix| <= |s|
    && s[p..p + |prefix| + |cap| + |suffix|] == prefix + cap + suffix
    && At !in cap
  }

  /** The regex finds a match somewhere in `s` (the truthiness of `s.match(re)`). */
  ghost predicate Matches(s: string, prefix: string, suffix: string)
  {
    exists p, cap :: MatchAt(s, p, prefix, suffix, cap)
  }

  /** The match JavaScript reports: leftmost start, then the greedy (longest) capture. */
  ghost predicate JsMatch(s: string, prefix: string, suffix: string, p: int, cap: string)
  {
    && MatchAt(s, p, prefix, suffix, cap)
    && (forall q, c :: 0 <= q < p ==> !MatchAt(s, q, prefix, suffix, c))
    && (forall c :: MatchAt(s, p, prefix, suffix, c) ==> |c| <= |cap|)
  }

  /** A match at `p` fixes the capture as the characters right after the prefix. */
  lemma CaptureIsSlice(s: string, p: int, prefix: string, suffix: string, cap: string)
    requires MatchAt(s, p, prefix, suffix, cap)
    ensures cap == s[p + |prefix|..p + |prefix| + |cap|]
    ensures prefix == s[p..p + |prefix|]
    ensures suffix == s[p + |prefix| + |cap|..p + |prefix| + |cap| + |suffix|]
  {
    var n := |prefix| + |cap| + |suffix|;
    var w := s[p..p + n];
    assert w == prefix + cap + suffix;
    assert w[|prefix|..|prefix| + |cap|] == cap;
    forall k | 0 <= k < |cap|
      ensures s[p + |prefix| + k] == cap[k]
    {
      assert w[|prefix| + k] == cap[k];
    }
    assert w[..|prefix|] == prefix;
    assert w[|prefix| + |cap|..] == suffix;
  }

  /** Two reported matches start at the same index: neither can be left of the other. */
  lemma JsMatchSameStart(s: string, prefix: string, suffix: string, p1: int, c1: string, p2: int, c2: string)
    requires JsMatch(s, prefix, suffix, p1, c1)
    requires JsMatch(s, prefix, suffix, p2, c2)
    ensures p1 == p2
  {
    assert MatchAt(s, p1, prefix, suffix, c1) && MatchAt(s, p2, prefix, suffix, c2);
  }

  /** The match JavaScript reports is unique: `match` is a function of the string. */
  lemma JsMatchUnique(s: string, prefix: string, suffix: string, p1: int, c1: string, p2: int, c2: string)
    requires JsMatch(s, prefix, suffix, p1, c1)
    requires JsMatch(s, prefix, suffix, p2, c2)
    ensures p1 == p2 && c1 == c2
  {
    JsMatchSameStart(s, prefix, suffix, p1, c1, p2, c2);
    assert |c1| <= |c2| && |c2| <= |c1|;
    CaptureIsSlice(s, p1, prefix, suffix, c1);
    CaptureIsSlice(s, p2, prefix, suffix, c2);
  }
}
