/** Naming convention between an original file and its decompressed shadow. */
module Naming {

  /** A path as the tree walk reports it. */
  type Path = string

  /** Appended to an original's path to name its decompressed shadow. */
  const Suffix: string := "_UNGZIPPED_BY_BOOSTER"

  /** Go's strings.HasSuffix: `s` ends with `suffix`, that is, `s` is some name plus `suffix`. */
  predicate HasSuffix(s: string, suffix: string): (b: bool)
    ensures b <==> exists k :: s == k + suffix
  {
    if |suffix| <= |s| && s[|s| - |suffix|..] == suffix then
      assert s == s[..|s| - |suffix|] + suffix;
      true
    else
      assert forall k :: s == k + suffix ==> s[|k|..] == suffix;
      false
  }

  /** Go's strings.TrimSuffix: `s` without one trailing `suffix`, or `s` itself. */
  function TrimSuffix(s: string, suffix: string): (r: string)
    ensures |r| <= |s| && r == s[..|r|]
    ensures HasSuffix(s, suffix) ==> |r| + |suffix| == |s|
    ensures !HasSuffix(s, suffix) ==> r == s
  {
    if HasSuffix(s, suffix) then s[..|s| - |suffix|] else s
  }

  /** The shadow name of `p` carries the suffix, and trimming it gives back `p`. */
  lemma ShadowNameRoundTrip(p: string, suffix: string)
    ensures HasSuffix(p + suffix, suffix)
    ensures TrimSuffix(p + suffix, suffix) == p
  {
    assert (p + suffix)[|p|..] == suffix;
    assert (p + suffix)[..|p|] == p;
  }

  /** Every shadow name carries the suffix and trims back to its original. */
  lemma ShadowNamesRoundTrip(suffix: string)
    ensures forall p :: HasSuffix(p + suffix, suffix) && TrimSuffix(p + suffix, suffix) == p
  {
    forall p
      ensures HasSuffix(p + suffix, suffix) && TrimSuffix(p + suffix, suffix) == p
    {
      ShadowNameRoundTrip(p, suffix);
    }
  }

  /** A name that carries the suffix is the shadow name of its trimmed form. */
  lemma OriginalNameRoundTrip(s: string, suffix: string)
    requires HasSuffix(s, suffix)
    ensures TrimSuffix(s, suffix) + suffix == s
  {
    assert s == s[..|s| - |suffix|] + s[|s| - |suffix|..];
  }

  /** `k` is what trimming `s` yields exactly when `s` is the shadow name of `k`. */
  lemma ShadowNameMatches(k: string, s: string, suffix: string)
    ensures (HasSuffix(s, suffix) && TrimSuffix(s, suffix) == k) <==> s == k + suffix
  {
    if s == k + suffix {
      ShadowNameRoundTrip(k, suffix);
    }
    if HasSuffix(s, suffix) {
      OriginalNameRoundTrip(s, suffix);
    }
  }

  /** Two originals never share a shadow name. */
  lemma ShadowNameInjective(p: string, q: string, suffix: string)
    requires p + suffix == q + suffix
    ensures p == q
  {
    ShadowNameRoundTrip(p, suffix);
    ShadowNameRoundTrip(q, suffix);
  }

  /** The shadow name of a name that already carries the suffix carries it twice. */
  lemma ShadowOfShadow(s: string, suffix: string)
    requires HasSuffix(s, suffix)
    ensures HasSuffix(s + suffix, suffix + suffix)
  {
    var t := TrimSuffix(s, suffix);
    OriginalNameRoundTrip(s, suffix);
    assert s + suffix == t + (suffix + suffix);
    ShadowNameRoundTrip(t, suffix + suffix);
  }
}
