/** JavaScript's `String.prototype.indexOf` on a needle, as the route resolver uses it:
    the first position at which `needle` occurs in `s`, or -1 when it occurs nowhere.
    An empty needle occurs at position 0 of every string. */
module Substring {

  /** `needle` occurs in `s` starting at position `i`. */
  predicate OccursAt(s: string, needle: string, i: nat)
  {
    i + |needle| <= |s| && s[i..i + |needle|] == needle
  }

  /** The first occurrence of `needle` in `s` at or after `from`, or -1. */
  function IndexOfFrom(s: string, needle: string, from: nat): (r: int)
    requires from <= |s|
    ensures r == -1 || (from <= r && OccursAt(s, needle, r))
    ensures r == -1 ==> forall i: nat :: from <= i ==> !OccursAt(s, needle, i)
    ensures r != -1 ==> forall i: nat :: from <= i < r ==> !OccursAt(s, needle, i)
    decreases |s| - from
  {
    if from + |needle| > |s| then -1
    else if s[from..from + |needle|] == needle then from
    else IndexOfFrom(s, needle, from + 1)
  }

  /** `s.indexOf(needle)`. */
  function IndexOf(s: string, needle: string): (r: int)
    ensures r == -1 || 0 <= r <= |s| - |needle|
    ensures r != -1 ==> OccursAt(s, needle, r)
    ensures r != -1 ==> forall i: nat :: i < r ==> !OccursAt(s, needle, i)
    ensures r == -1 ==> forall i: nat :: !OccursAt(s, needle, i)
  {
    IndexOfFrom(s, needle, 0)
  }

  /** `s.indexOf(needle) !== -1`: plain substring containment. */
  predicate Contains(s: string, needle: string)
  {
    IndexOf(s, needle) != -1
  }

  /** Containment holds exactly when the needle occurs at some position; it is not
      tied to position 0, so it is not a prefix test. */
  lemma ContainsIffOccurs(s: string, needle: string)
    ensures Contains(s, needle) <==> exists i: nat :: OccursAt(s, needle, i)
  {
    if Contains(s, needle) {
      assert OccursAt(s, needle, IndexOf(s, needle) as nat);
    }
  }

  /** A string contains itself wherever it sits inside a longer one. */
  lemma {:induction false} ContainsInfix(prefix: string, needle: string, suffix: string)
    ensures Contains(prefix + needle + suffix, needle)
  {
    var s := prefix + needle + suffix;
    assert s[|prefix|..|prefix| + |needle|] == needle;
    assert OccursAt(s, needle, |prefix|);
    ContainsIffOccurs(s, needle);
  }

  /** A string contains both its head and its tail. */
  lemma ContainsEnds(head: string, middle: string, tail: string)
    ensures Contains(head + middle + tail, head) && Contains(head + middle + tail, tail)
  {
    ContainsInfix([], head, middle + tail);
    assert head + middle + tail == [] + head + (middle + tail);
    ContainsInfix(head + middle, tail, []);
    assert head + middle + tail == (head + middle) + tail + [];
  }

  /** Nothing but the empty needle occurs in the empty string. */
  lemma EmptyContainsOnlyEmpty(needle: string)
    ensures Contains("", needle) <==> needle == ""
  {
    if needle == "" {
      assert OccursAt("", needle, 0);
    }
  }
}
