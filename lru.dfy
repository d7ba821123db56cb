/** The approximate-LRU bookkeeping of the translation simulator: one age counter
    per frame, aged on every translated address, and the victim choice that scans
    for the largest age. */
module Lru {

  /** One translation's ageing: every frame grows one older and the frame just
      used is reset to age 0. */
  function AgeStep(ages: seq<nat>, used: nat): (r: seq<nat>)
    requires used < |ages|
    ensures |r| == |ages|
  {
    seq(|ages|, i requires 0 <= i < |ages| => if i == used then 0 else ages[i] + 1)
  }

  predicate AllBelow(used: seq<nat>, n: nat)
  {
    forall i :: 0 <= i < |used| ==> used[i] < n
  }

  /** The ages after the frames in `used` have been used in that order. */
  function AgesAfter(ages: seq<nat>, used: seq<nat>): (r: seq<nat>)
    requires AllBelow(used, |ages|)
    ensures |r| == |ages|
    decreases |used|
  {
    if used == [] then ages
    else AgeStep(AgesAfter(ages, used[..|used| - 1]), used[|used| - 1])
  }

  /** Recording one more use ages the frames by one more step. */
  lemma AgesAfterUse(ages: seq<nat>, used: seq<nat>, f: nat)
    requires AllBelow(used, |ages|) && f < |ages|
    ensures AllBelow(used + [f], |ages|)
    ensures AgesAfter(ages, used + [f]) == AgeStep(AgesAfter(ages, used), f)
  {
    assert (used + [f])[..|used|] == used;
  }

  /** The position of the last use of frame `f` in `used`, or -1 when it was never used. */
  function LastUse(used: seq<nat>, f: nat): (j: int)
    ensures -1 <= j < |used|
    ensures j >= 0 ==> used[j] == f
    ensures forall i :: j < i < |used| ==> used[i] != f
    decreases |used|
  {
    if used == [] then -1
    else if used[|used| - 1] == f then |used| - 1
    else LastUse(used[..|used| - 1], f)
  }

  /** A frame that occurs in `used` has a last use. */
  lemma {:induction false} UsedHasLastUse(used: seq<nat>, f: nat)
    requires f in used
    ensures LastUse(used, f) >= 0
    decreases |used|
  {
    if used[|used| - 1] != f {
      var prefix := used[..|used| - 1];
      assert used == prefix + [used[|used| - 1]];
      assert f in prefix;
      UsedHasLastUse(prefix, f);
    }
  }

  /** An age is the number of translations since the frame was last used (or its
      starting age plus the number of translations, if it was never used). */
  lemma {:induction false} AgeIsTimeSinceLastUse(ages: seq<nat>, used: seq<nat>, f: nat)
    requires AllBelow(used, |ages|) && f < |ages|
    ensures AgesAfter(ages, used)[f] ==
              if LastUse(used, f) >= 0 then |used| - 1 - LastUse(used, f) else ages[f] + |used|
    decreases |used|
  {
    if used != [] {
      var prefix := used[..|used| - 1];
      AgeIsTimeSinceLastUse(ages, prefix, f);
    }
  }

  /** The frame the LRU scan `for (i...) if (lru[i] >= max_uses)` picks: a frame of
      largest age, and because the comparison is `>=`, the highest-indexed one among
      those tied for the largest age. */
  function LruVictim(ages: seq<int>): (v: nat)
    requires |ages| > 0
    ensures v < |ages|
    ensures forall i :: 0 <= i < |ages| ==> ages[i] <= ages[v]
    ensures forall i :: v < i < |ages| ==> ages[i] < ages[v]
    decreases |ages|
  {
    if |ages| == 1 then 0
    else
      var v := LruVictim(ages[..|ages| - 1]);
      if ages[|ages| - 1] >= ages[v] then |ages| - 1 else v
  }

  /** Once every frame has been used, the LRU victim is the frame whose last use
      lies furthest back: the least recently used frame, with no ties. */
  lemma LruVictimIsLeastRecentlyUsed(ages: seq<nat>, used: seq<nat>)
    requires |ages| > 0 && AllBelow(used, |ages|)
    requires forall f :: 0 <= f < |ages| ==> LastUse(used, f) >= 0
    ensures forall f :: 0 <= f < |ages| && f != LruVictim(AgesAfter(ages, used)) ==>
              LastUse(used, LruVictim(AgesAfter(ages, used))) < LastUse(used, f)
  {
    var v := LruVictim(AgesAfter(ages, used));
    AgeIsTimeSinceLastUse(ages, used, v);
    forall f | 0 <= f < |ages| && f != v
      ensures LastUse(used, v) < LastUse(used, f)
    {
      AgeIsTimeSinceLastUse(ages, used, f);
      assert used[LastUse(used, f)] == f && used[LastUse(used, v)] == v;
    }
  }
}
