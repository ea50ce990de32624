/** Parsed JavaScript values, as JSON.parse produces them, together with the
    two object primitives the claim model relies on: `Object.keys` and the
    property read `o[key]`. Numbers are integers here. */
module JsValues {

  datatype Json =
    | JNull
    | JBool(b: bool)
    | JNum(n: int)
    | JStr(str: string)
    | JArr(items: seq<Json>)
    | JObj(fields: seq<(string, Json)>)

  /** The `typeof` of a parsed value; `typeof null` is "object". */
  function TypeOf(j: Json): string {
    match j
    case JNull => "object"
    case JBool(_) => "boolean"
    case JNum(_) => "number"
    case JStr(_) => "string"
    case JArr(_) => "object"
    case JObj(_) => "object"
  }

  /** `isObject`: arrays and plain objects, the values that are not null and
      whose `typeof` is "object". */
  predicate IsObject(j: Json)
    ensures IsObject(j) <==> j != JNull && TypeOf(j) == "object"
  {
    j.JArr? || j.JObj?
  }

  /* ----- Size, for termination of recursion through property reads ----- */

  function Size(j: Json): nat
    decreases j, 1
  {
    if IsObject(j) then 1 + MembersSize(j, 0) else 1
  }

  /** Number of members (array items or object fields) of an object. */
  function Count(j: Json): nat
    requires IsObject(j)
  {
    if j.JArr? then |j.items| else |j.fields|
  }

  /** Total size of the members of `j` from position `i` on. */
  function MembersSize(j: Json, i: nat): nat
    requires IsObject(j) && i <= Count(j)
    decreases j, 0, Count(j) - i
  {
    if i == Count(j) then 0
    else
      var member :=
        if j.JArr? then (assert j.items[i] in j.items; Size(j.items[i]))
        else (assert j.fields[i] in j.fields; Size(j.fields[i].1));
      member + MembersSize(j, i + 1)
  }

  /* ----- Array index keys: decimal numerals ----- */

  function DigitChar(d: nat): char
    requires d < 10
  {
    "0123456789"[d]
  }

  /** The decimal numeral of `n`, as `String(n)` prints it. */
  function Decimal(n: nat): (r: string)
    ensures |r| >= 1
    ensures |r| == 1 <==> n < 10
    decreases n
  {
    if n < 10 then [DigitChar(n)] else Decimal(n / 10) + [DigitChar(n % 10)]
  }

  /** A numeral is made of decimal digits only. */
  lemma {:induction false} DecimalDigits(n: nat)
    ensures forall i :: 0 <= i < |Decimal(n)| ==> '0' <= Decimal(n)[i] <= '9'
  {
    if n >= 10 {
      DecimalDigits(n / 10);
    }
  }

  /** No array index prints as the property name "type", so reading
      `type` off an array finds nothing. */
  lemma NoTypeIndex(n: nat)
    ensures forall i :: 0 <= i < n ==> Decimal(i) != "type"
  {
    forall i | 0 <= i < n
      ensures Decimal(i) != "type"
    {
      DecimalDigits(i);
      if Decimal(i) == "type" {
        assert Decimal(i)[0] == 't';
      }
    }
  }

  lemma DigitCharInjective(d: nat, e: nat)
    requires d < 10 && e < 10 && DigitChar(d) == DigitChar(e)
    ensures d == e
  {
  }

  /** Distinct indices print as distinct numerals, so array keys never clash. */
  lemma {:induction false} DecimalInjective(n: nat, m: nat)
    requires Decimal(n) == Decimal(m)
    ensures n == m
    decreases n
  {
    if n < 10 {
      DigitCharInjective(n, m);
    } else {
      var a, b := Decimal(n), Decimal(m);
      assert a[|a| - 1] == b[|b| - 1];
      DigitCharInjective(n % 10, m % 10);
      assert a[..|a| - 1] == Decimal(n / 10);
      assert b[..|b| - 1] == Decimal(m / 10);
      DecimalInjective(n / 10, m / 10);
    }
  }

  /* ----- Object.keys and property reads ----- */

  /** `Object.keys(j)`: own keys of a plain object in declaration order, and
      the index numerals "0", "1", ... of an array. */
  function Keys(j: Json): (r: seq<string>)
    requires IsObject(j)
    ensures |r| == Count(j)
  {
    match j
    case JObj(fields) => seq(|fields|, i requires 0 <= i < |fields| => fields[i].0)
    case JArr(items) => seq(|items|, i requires 0 <= i < |items| => Decimal(i))
  }

  /** The value stored under the `i`-th key of `Keys(j)`. */
  function ValueAt(j: Json, i: nat): (r: Json)
    requires IsObject(j) && i < |Keys(j)|
    ensures Size(r) < Size(j)
  {
    MemberBelowMembersSize(j, i, 0);
    if j.JArr? then j.items[i] else j.fields[i].1
  }

  lemma {:induction false} MemberBelowMembersSize(j: Json, i: nat, k: nat)
    requires IsObject(j) && k <= i < Count(j)
    ensures Size(if j.JArr? then j.items[i] else j.fields[i].1) <= MembersSize(j, k)
    decreases i - k
  {
    if k < i {
      MemberBelowMembersSize(j, i, k + 1);
    }
  }

  /** Position of the first occurrence of `k` in `s`. */
  function FirstIndex(s: seq<string>, k: string): (i: nat)
    requires k in s
    ensures i < |s| && s[i] == k
    ensures forall j :: 0 <= j < i ==> s[j] != k
  {
    if s[0] == k then 0 else 1 + FirstIndex(s[1..], k)
  }

  /** The property read `j[k]` for a key the object has. */
  function Get(j: Json, k: string): (r: Json)
    requires IsObject(j) && k in Keys(j)
    ensures Size(r) < Size(j)
  {
    ValueAt(j, FirstIndex(Keys(j), k))
  }

  predicate Distinct(s: seq<string>) {
    forall i, j :: 0 <= i < j < |s| ==> s[i] != s[j]
  }

  /** A value JSON.parse could return: every plain object, at every depth,
      has pairwise distinct keys. */
  predicate WellFormed(j: Json)
    decreases Size(j)
  {
    IsObject(j) ==>
      && (j.JObj? ==> Distinct(Keys(j)))
      && forall i :: 0 <= i < |Keys(j)| ==> WellFormed(ValueAt(j, i))
  }

  /** Every object of a well-formed value, arrays included, has distinct keys. */
  lemma WellFormedKeysDistinct(j: Json)
    requires IsObject(j) && WellFormed(j)
    ensures Distinct(Keys(j))
  {
    if j.JArr? {
      forall i, k | 0 <= i < k < |Keys(j)|
        ensures Keys(j)[i] != Keys(j)[k]
      {
        if Keys(j)[i] == Keys(j)[k] {
          DecimalInjective(i, k);
        }
      }
    }
  }

  /** Reading a key returns the value under its first position among the
      keys, for arrays and plain objects alike. */
  lemma GetFirst(j: Json, k: string, i: nat)
    requires IsObject(j) && i < |Keys(j)| && Keys(j)[i] == k
    requires forall m :: 0 <= m < i ==> Keys(j)[m] != k
    ensures k in Keys(j) && Get(j, k) == ValueAt(j, i)
  {
  }

  /** Reading the key of the `i`-th field of an object, when no earlier field
      has that key, returns that field's value. */
  lemma ObjectLookup(fields: seq<(string, Json)>, i: nat)
    requires i < |fields|
    requires forall j :: 0 <= j < i ==> fields[j].0 != fields[i].0
    ensures fields[i].0 in Keys(JObj(fields))
    ensures Get(JObj(fields), fields[i].0) == fields[i].1
  {
    var o := JObj(fields);
    assert Keys(o)[i] == fields[i].0;
    var f := FirstIndex(Keys(o), fields[i].0);
    assert Keys(o)[f] == fields[f].0;
  }

  /* ----- Field access used by the claim model ----- */

  predicate HasObject(j: Json, k: string) {
    j.JObj? && k in Keys(j) && Get(j, k).JObj?
  }

  predicate HasString(j: Json, k: string) {
    j.JObj? && k in Keys(j) && Get(j, k).JStr?
  }

  function StringAt(j: Json, k: string): string
    requires HasString(j, k)
  {
    Get(j, k).str
  }
}
