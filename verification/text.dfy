/** Python's `needle in haystack` on strings, and a search for the first string holding a needle. */
module Text {
  import opened Wrappers

  /** `p` occurs in `s` starting at position `i`. */
  ghost predicate OccursAt(s: string, p: string, i: int) {
    0 <= i && i + |p| <= |s| && s[i..i + |p|] == p
  }

  /** `p in s`: tries every start position, left to right. */
  function Contains(s: string, p: string): bool
    decreases |s|
  {
    if |s| < |p| then false
    else p <= s || Contains(s[1..], p)
  }

  /** Every occurrence `Contains` reports is a real one... */
  lemma {:induction false} ContainsSound(s: string, p: string)
    requires Contains(s, p)
    ensures exists i :: OccursAt(s, p, i)
    decreases |s|
  {
    if p <= s {
      assert OccursAt(s, p, 0);
    } else {
      ContainsSound(s[1..], p);
      var i :| OccursAt(s[1..], p, i);
      assert s[1..][i..i + |p|] == s[i + 1..i + 1 + |p|];
      assert OccursAt(s, p, i + 1);
    }
  }

  /** ...and every occurrence, wherever it starts, is found. */
  lemma {:induction false} ContainsComplete(s: string, p: string, i: int)
    requires OccursAt(s, p, i)
    ensures Contains(s, p)
    decreases i
  {
    if i > 0 {
      assert s[1..][i - 1..i - 1 + |p|] == s[i..i + |p|];
      ContainsComplete(s[1..], p, i - 1);
    } else {
      assert s[..|p|] == p;
    }
  }

  /** A string contains each of its prefixes. */
  lemma ContainsPrefix(p: string, rest: string)
    ensures Contains(p + rest, p)
  {
    assert p <= p + rest;
  }

  /**
   * The index of the first string of `ks` that contains `needle`: the
   * `[k for k in ks if needle in k][0]` of a list comprehension, with None
   * where that list is empty and indexing it fails (see FirstContainingSpec).
   */
  function FirstContaining(ks: seq<string>, needle: string): Option<nat> {
    if ks == [] then None
    else if Contains(ks[0], needle) then Some(0)
    else match FirstContaining(ks[1..], needle)
      case None => None
      case Some(i) => Some(i + 1)
  }

  /** `FirstContaining` finds the first string holding the needle, and None exactly when none does. */
  lemma {:induction false} FirstContainingSpec(ks: seq<string>, needle: string)
    ensures FirstContaining(ks, needle).Some? ==>
      && FirstContaining(ks, needle).value < |ks|
      && Contains(ks[FirstContaining(ks, needle).value], needle)
      && forall j :: 0 <= j < FirstContaining(ks, needle).value ==> !Contains(ks[j], needle)
    ensures FirstContaining(ks, needle).None? <==> forall j :: 0 <= j < |ks| ==> !Contains(ks[j], needle)
  {
    if ks != [] && !Contains(ks[0], needle) {
      FirstContainingSpec(ks[1..], needle);
      assert forall j :: 1 <= j < |ks| ==> ks[j] == ks[1..][j - 1];
    }
  }
}
