/** The de-duplicated listing a consumer sees: a shadow hides its original's bare name. */
module Listing {
  import opened Naming

  /**
   * Every walked name, minus the trimmed name of every walked name that carries the suffix:
   * only walked names, and none whose shadow name was walked (LogicalViewMasks gives the converse).
   */
  function LogicalView(walked: set<Path>): (view: set<Path>)
    ensures view <= walked
    ensures forall k :: k in view ==> k + Suffix !in walked
  {
    ShadowNamesRoundTrip(Suffix);
    walked - (set r | r in walked && HasSuffix(r, Suffix) :: TrimSuffix(r, Suffix))
  }

  /** A walked name is listed exactly when its shadow name was not walked. */
  lemma LogicalViewMasks(walked: set<Path>, k: Path)
    ensures k in LogicalView(walked) <==> k in walked && k + Suffix !in walked
  {
    ShadowNameRoundTrip(k, Suffix);
    if k + Suffix in walked {
      assert k in (set r | r in walked && HasSuffix(r, Suffix) :: TrimSuffix(r, Suffix));
    } else {
      forall r | r in walked && HasSuffix(r, Suffix)
        ensures TrimSuffix(r, Suffix) != k
      {
        OriginalNameRoundTrip(r, Suffix);
      }
    }
  }

  /** The listing never invents names, and keeps every shadow whose own shadow name was not walked. */
  lemma LogicalViewWithinWalk(walked: set<Path>, s: Path)
    ensures LogicalView(walked) <= walked
    ensures s in walked && HasSuffix(s, Suffix) && s + Suffix !in walked ==> s in LogicalView(walked)
  {
    LogicalViewMasks(walked, s);
  }

  /** `a.gz` with its shadow and a plain `b.txt`: the bare `a.gz` is hidden until the shadow goes. */
  lemma ViewMaskingExample()
    ensures LogicalView({"a.gz", "a.gz" + Suffix, "b.txt"}) == {"a.gz" + Suffix, "b.txt"}
    ensures LogicalView({"a.gz", "b.txt"}) == {"a.gz", "b.txt"}
  {
    var both: set<Path> := {"a.gz", "a.gz" + Suffix, "b.txt"};
    var bare: set<Path> := {"a.gz", "b.txt"};
    forall k | k in both
      ensures k in LogicalView(both) <==> k + Suffix !in both
    {
      LogicalViewMasks(both, k);
    }
    forall k | k in bare
      ensures k in LogicalView(bare)
    {
      LogicalViewMasks(bare, k);
    }
  }

  /**
   * ListDecompressedOnly: records every walked relative path, collects the trimmed name of
   * every one that carries the suffix, then deletes those.
   */
  method ListDecompressedOnly(walked: seq<Path>) returns (current: map<Path, bool>)
    ensures forall k :: k in current <==> k in walked && k + Suffix !in walked
    ensures forall k :: k in current ==> current[k]
    ensures current.Keys == LogicalView(set r | r in walked)
  {
    current := map[];
    var toRemove: seq<Path> := [];
    for i := 0 to |walked|
      invariant forall k :: k in current <==> k in walked[..i]
      invariant forall k :: k in current ==> current[k]
      invariant forall k :: k in toRemove <==> k + Suffix in walked[..i]
    {
      var relative := walked[i];
      assert walked[..i + 1] == walked[..i] + [relative];
      current := current[relative := true];
      if HasSuffix(relative, Suffix) {
        toRemove := toRemove + [TrimSuffix(relative, Suffix)];
      }
      forall k
        ensures (HasSuffix(relative, Suffix) && TrimSuffix(relative, Suffix) == k) <==> relative == k + Suffix
      {
        ShadowNameMatches(k, relative, Suffix);
      }
    }
    assert walked[..|walked|] == walked;
    for j := 0 to |toRemove|
      invariant forall k :: k in current <==> k in walked && k !in toRemove[..j]
      invariant forall k :: k in current ==> current[k]
    {
      assert toRemove[..j + 1] == toRemove[..j] + [toRemove[j]];
      current := current - {toRemove[j]};
    }
    assert toRemove[..|toRemove|] == toRemove;
    forall k
      ensures k in current <==> k in LogicalView(set r | r in walked)
    {
      LogicalViewMasks((set r | r in walked), k);
    }
  }
}
