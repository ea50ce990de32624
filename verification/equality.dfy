/** The structural equality `deepEqual` that decides whether a draft still
    matches the stored credential: same number of keys, every key of the
    first object present in the second, and the values under each key equal,
    recursively where both values are objects and by strict equality
    otherwise. */
module Equality {
  import opened JsValues

  /** `deepEqual(object1, object2)`. Every call in the dapp's code passes two
      objects: the two drafts at the top, and two values that `isObject`
      accepted in the recursion. */
  function DeepEqual(a: Json, b: Json): (r: bool)
    requires IsObject(a) && IsObject(b)
    ensures |Keys(a)| != |Keys(b)| ==> !r
    ensures r ==> forall k :: k in Keys(a) ==> k in Keys(b)
    decreases Size(a), 1
  {
    |Keys(a)| == |Keys(b)| && KeysMatch(a, b, 0)
  }

  /** The loop over `keys1`, from the `i`-th key on; it stops at the first
      key that is missing from `b` or whose values differ. */
  function KeysMatch(a: Json, b: Json, i: nat): (r: bool)
    requires IsObject(a) && IsObject(b) && i <= |Keys(a)|
    ensures r ==> forall j :: i <= j < |Keys(a)| ==> Keys(a)[j] in Keys(b)
    decreases Size(a), 0, |Keys(a)| - i
  {
    if i == |Keys(a)| then true
    else
      var key := Keys(a)[i];
      if key !in Keys(b) then false
      else
        var v1, v2 := Get(a, key), Get(b, key);
        ValuesMatch(v1, v2) && KeysMatch(a, b, i + 1)
  }

  /** The per-key test: recurse when both values are objects, otherwise
      compare with `===` (structural on the primitive values of `Json`; an
      object is never `===` to a primitive). */
  function ValuesMatch(v1: Json, v2: Json): (r: bool)
    ensures IsObject(v1) != IsObject(v2) ==> !r
    ensures !IsObject(v1) && !IsObject(v2) ==> (r <==> v1 == v2)
    ensures r && IsObject(v1) ==> |Keys(v1)| == |Keys(v2)|
    decreases Size(v1), 2
  {
    if IsObject(v1) && IsObject(v2) then DeepEqual(v1, v2) else v1 == v2
  }

  /** Key `k` of `a` is present in `b` and holds a matching value there. */
  ghost predicate Agree(a: Json, b: Json, k: string)
    requires IsObject(a) && IsObject(b) && k in Keys(a)
  {
    k in Keys(b) && ValuesMatch(Get(a, k), Get(b, k))
  }

  /** Order-free reading of `deepEqual`: the short-circuiting loop accepts
      exactly when the key counts agree and every key of `a` agrees. */
  lemma DeepEqualMeaning(a: Json, b: Json)
    requires IsObject(a) && IsObject(b)
    ensures DeepEqual(a, b) <==>
      |Keys(a)| == |Keys(b)| && forall k :: k in Keys(a) ==> Agree(a, b, k)
  {
    KeysMatchMeaning(a, b, 0);
  }

  lemma {:induction false} KeysMatchMeaning(a: Json, b: Json, i: nat)
    requires IsObject(a) && IsObject(b) && i <= |Keys(a)|
    ensures KeysMatch(a, b, i) <==>
      forall j :: i <= j < |Keys(a)| ==> Agree(a, b, Keys(a)[j])
    decreases |Keys(a)| - i
  {
    if i < |Keys(a)| {
      KeysMatchMeaning(a, b, i + 1);
      var key := Keys(a)[i];
      assert KeysMatch(a, b, i) == (Agree(a, b, key) && KeysMatch(a, b, i + 1));
    }
  }

  /** `deepEqual(x, x)` holds for every object. */
  lemma {:induction false} DeepEqualReflexive(a: Json)
    requires IsObject(a)
    ensures DeepEqual(a, a)
    decreases Size(a)
  {
    forall k | k in Keys(a)
      ensures Agree(a, a, k)
    {
      var v := Get(a, k);
      if IsObject(v) {
        DeepEqualReflexive(v);
      }
    }
    DeepEqualMeaning(a, a);
  }

  /** On values JSON.parse can produce, the argument order does not matter. */
  lemma DeepEqualSymmetric(a: Json, b: Json)
    requires IsObject(a) && IsObject(b) && WellFormed(a) && WellFormed(b)
    ensures DeepEqual(a, b) == DeepEqual(b, a)
  {
    if DeepEqual(a, b) {
      DeepEqualFlip(a, b);
    }
    if DeepEqual(b, a) {
      DeepEqualFlip(b, a);
    }
  }

  lemma {:induction false} DeepEqualFlip(a: Json, b: Json)
    requires IsObject(a) && IsObject(b) && WellFormed(a) && WellFormed(b)
    requires DeepEqual(a, b)
    ensures DeepEqual(b, a)
    decreases Size(a) + Size(b)
  {
    DeepEqualMeaning(a, b);
    WellFormedKeysDistinct(a);
    WellFormedKeysDistinct(b);
    DistinctSubsetCovers(Keys(a), Keys(b));
    forall k | k in Keys(b)
      ensures Agree(b, a, k)
    {
      assert Agree(a, b, k);
      var v1, v2 := Get(a, k), Get(b, k);
      if IsObject(v1) && IsObject(v2) {
        DeepEqualFlip(v1, v2);
      }
    }
    DeepEqualMeaning(b, a);
  }

  /** Two duplicate-free key lists of the same length, the first contained
      in the second, hold the same keys. */
  lemma DistinctSubsetCovers(s: seq<string>, t: seq<string>)
    requires Distinct(s) && Distinct(t) && |s| == |t|
    requires forall k :: k in s ==> k in t
    ensures forall k :: k in t ==> k in s
  {
    var A, B := set k | k in s, set k | k in t;
    DistinctCardinality(s);
    DistinctCardinality(t);
    if k :| k in t && k !in s {
      assert A <= B - {k};
      SubsetCardinality(A, B - {k});
      assert false;
    }
  }

  lemma {:induction false} DistinctCardinality(s: seq<string>)
    requires Distinct(s)
    ensures |set k | k in s| == |s|
  {
    if s != [] {
      var rest := s[1..];
      DistinctCardinality(rest);
      assert (set k | k in s) == {s[0]} + (set k | k in rest);
      assert s[0] !in rest;
    }
  }

  lemma SubsetCardinality(A: set<string>, B: set<string>)
    requires A <= B
    ensures |A| <= |B|
  {
    assert B == A + (B - A);
  }
}
