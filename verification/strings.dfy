/** `String.prototype.indexOf` and `String.prototype.replace` with a string
    pattern: only the FIRST occurrence is replaced, wherever it sits. */
module Strings {
  import opened Wrappers

  /** `pat` occurs in `s` starting at position `i`. */
  predicate OccursAt(s: string, pat: string, i: nat) {
    i + |pat| <= |s| && s[i..i + |pat|] == pat
  }

  /** `s.indexOf(pat, from)`, with `None` for -1. */
  function IndexOfFrom(s: string, pat: string, from: nat): (r: Option<nat>)
    requires from <= |s|
    ensures r.Some? ==> from <= r.value && OccursAt(s, pat, r.value)
    ensures r.Some? ==> forall j :: from <= j < r.value ==> !OccursAt(s, pat, j)
    ensures r.None? ==> forall j :: from <= j <= |s| ==> !OccursAt(s, pat, j)
    decreases |s| - from
  {
    if OccursAt(s, pat, from) then Some(from)
    else if from == |s| then None
    else IndexOfFrom(s, pat, from + 1)
  }

  /** `s.indexOf(pat)`. */
  function IndexOf(s: string, pat: string): Option<nat> {
    IndexOfFrom(s, pat, 0)
  }

  /** `s.replace(pat, rep)` for a string pattern and a replacement without
      `$` substitutions: the first occurrence of `pat` is swapped for `rep`;
      without an occurrence, `s` comes back unchanged. */
  function ReplaceFirst(s: string, pat: string, rep: string): (r: string)
    ensures (forall j :: 0 <= j <= |s| ==> !OccursAt(s, pat, j)) ==> r == s
    ensures forall i: nat ::
      OccursAt(s, pat, i) && (forall j :: 0 <= j < i ==> !OccursAt(s, pat, j)) ==>
        r == s[..i] + rep + s[i + |pat|..]
  {
    match IndexOf(s, pat)
    case None => s
    case Some(i) => s[..i] + rep + s[i + |pat|..]
  }

  /** Removing the first occurrence of a leading `pat` strips exactly that
      prefix. */
  lemma {:induction false} ReplaceLeading(pat: string, rest: string, rep: string)
    ensures ReplaceFirst(pat + rest, pat, rep) == rep + rest
  {
    var s := pat + rest;
    assert OccursAt(s, pat, 0) by {
      assert s[0..|pat|] == pat;
    }
    assert IndexOf(s, pat) == Some(0);
    assert s[|pat|..] == rest;
  }

  /** When `pat` does not occur at all, nothing is replaced. */
  lemma ReplaceAbsent(s: string, pat: string, rep: string)
    requires forall j :: 0 <= j <= |s| ==> !OccursAt(s, pat, j)
    ensures ReplaceFirst(s, pat, rep) == s
  {
  }

  /** The occurrence removed need not be a prefix: an occurrence after a
      non-matching head is removed from the middle. */
  lemma ReplaceInMiddle(head: string, pat: string, tail: string)
    requires forall j :: 0 <= j < |head| ==> !OccursAt(head + pat + tail, pat, j)
    ensures ReplaceFirst(head + pat + tail, pat, []) == head + tail
  {
    var s := head + pat + tail;
    assert OccursAt(s, pat, |head|) by {
      assert s[|head|..|head| + |pat|] == pat;
    }
    var r := IndexOfFrom(s, pat, 0);
    assert r.Some? && r.value == |head|;
    assert s[..|head|] == head;
    assert s[|head| + |pat|..] == tail;
  }
}
