// Time intervals: opencog/spacetime/Temporal.cc.
module Temporals {

  const OCTIME_LIMIT: int := 0x1_0000_0000_0000_0000
  const OCTIME_MAX: octime_t := 0xFFFF_FFFF_FFFF_FFFF

  /** An unsigned 64-bit time stamp. */
  type octime_t = x: int | 0 <= x < 0x1_0000_0000_0000_0000

  /** Addition and subtraction of 64-bit words wrap around. */
  function WrapAdd(a: octime_t, b: octime_t): octime_t {
    if a + b < OCTIME_LIMIT then a + b else a + b - OCTIME_LIMIT
  }

  function WrapSub(a: octime_t, b: octime_t): octime_t {
    if a >= b then a - b else a - b + OCTIME_LIMIT
  }

  /** a and b are mean and variance when normal, lower and upper bound otherwise. */
  datatype Temporal = Temporal(a: octime_t, b: octime_t, normal: bool) {
    /** What a Temporal means to be: no bound below 0 or above the largest time stamp. */
    predicate Valid() {
      if normal then b <= a && a + b < OCTIME_LIMIT else a <= b
    }

    function Lower(): octime_t {
      if normal then WrapSub(a, b) else a
    }

    function Upper(): octime_t {
      if normal then WrapAdd(a, b) else b
    }

    predicate Contains(x: octime_t) {
      Lower() <= x <= Upper()
    }

    /**
     * What the fields mean, over all integers: of a normal interval the mean and how far it reaches both ways, of
     * another
     * one the first and the last time stamp.
     */
    predicate Within(x: int) {
      if normal then a - b <= x <= a + b else a <= x <= b
    }

    function CompareTo(other: Temporal): int {
      if Lower() < other.Lower() then -1
      else if other.Lower() < Lower() then 1
      else if Upper() < other.Upper() then -1
      else if other.Upper() < Upper() then 1
      else if normal then if other.normal then 0 else -1
      else if other.normal then 1 else 0
    }
  }

  /** The bounds are the first and the last of the time stamps of a valid interval, and wrap around at neither end. */
  lemma BoundsAreReached(t: Temporal, x: int)
    requires t.Valid()
    ensures t.Within(x) <==> 0 <= x < OCTIME_LIMIT && t.Contains(x)
    ensures t.Within(t.Lower()) && t.Within(t.Upper())
    ensures t.Within(x) ==> t.Lower() <= x <= t.Upper()
  {
  }

  type Time = t: Temporal | t.Valid() witness Temporal(0, 0, false)

  /** The flag argument that stands for "no time given"; it is not a valid Temporal. */
  const UNDEFINED_TEMPORAL := Temporal(OCTIME_MAX, OCTIME_MAX, true)

  datatype InitResult = Created(t: Temporal) | InvalidParam

  /** The constructor, with its overflow test on the wrapped sum. */
  function Init(a: octime_t, b: octime_t, normal: bool): InitResult {
    if normal then
      if b > a then InvalidParam
      else if WrapAdd(a, b) < a then InvalidParam
      else Created(Temporal(a, b, normal))
    else if a > b then InvalidParam
    else Created(Temporal(a, b, normal))
  }

  /** The position of a valid interval in the total order, as one number. */
  ghost function Rank(t: Time): (r: nat)
    ensures r < RANK_LIMIT
  {
    (t.Lower() * OCTIME_LIMIT + t.Upper()) * 2 + if t.normal then 0 else 1
  }

  ghost const RANK_LIMIT: int := 0x2_0000_0000_0000_0000_0000_0000_0000_0000

  /** compareTo on valid intervals. */
  function Compare(x: Time, y: Time): (c: int)
    ensures c < 0 <==> Rank(x) < Rank(y)
    ensures c > 0 <==> Rank(x) > Rank(y)
    ensures c == 0 <==> x == y
  {
    x.CompareTo(y)
  }

  /**
   * compareTo orders the valid intervals totally: by their lower bounds, then by their upper bounds, normal ones first
   * where both are equal; it tells any two of them apart.
   */
  lemma CompareToIsTotalOrder(x: Time, y: Time, z: Time)
    ensures x.CompareTo(y) == -y.CompareTo(x)
    ensures x.CompareTo(y) <= 0 && y.CompareTo(z) <= 0 ==> x.CompareTo(z) <= 0
    ensures x.CompareTo(y) == 0 <==> x == y
    ensures x.Lower() < y.Lower() ==> x.CompareTo(y) < 0
    ensures x.Lower() == y.Lower() && x.Upper() < y.Upper() ==> x.CompareTo(y) < 0
    ensures x.Lower() == y.Lower() && x.Upper() == y.Upper() && x.normal && !y.normal ==> x.CompareTo(y) < 0
  {
    assert Compare(x, y) == x.CompareTo(y) && Compare(y, z) == y.CompareTo(z) && Compare(x, z) == x.CompareTo(z);
  }

  /** The one valid interval that compares equal to the undefined Temporal, from 0 to the last but one time stamp. */
  const UNDEFINED_TWIN: Time := Temporal(0x7FFF_FFFF_FFFF_FFFF, 0x7FFF_FFFF_FFFF_FFFF, true)

  /** compareTo is 0 for equal valid intervals only; against the undefined Temporal it is 0 for its twin only. */
  lemma CompareToIsZero(k: Time, t: Temporal)
    requires t.Valid() || t == UNDEFINED_TEMPORAL
    ensures k.CompareTo(t) == 0 <==> k == if t.Valid() then t else UNDEFINED_TWIN
  {
    if t.Valid() {
      assert Compare(k, t) == k.CompareTo(t);
    }
  }

  /** The constructor, overflow test on the wrapped sum included, accepts exactly the valid intervals. */
  lemma InitAcceptsTheValid(a: octime_t, b: octime_t, normal: bool)
    ensures Init(a, b, normal) == if Temporal(a, b, normal).Valid() then Created(Temporal(a, b, normal))
      else InvalidParam
  {
    if normal && b <= a {
      assert a + b >= OCTIME_LIMIT <==> WrapAdd(a, b) < a;
    }
  }
}
