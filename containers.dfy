/**
 * The generic container helpers of `utils.h`: `MapGetOrDefault`, `Clamp`,
 * `VecContains` and `VecIndexOf`. Each takes its arguments by value and
 * changes nothing, so each is a function.
 */
module Containers {

  /** `map.find(key)` followed by `it == map.end() ? default_val : it->second`. */
  function MapGetOrDefault<K, V>(m: map<K, V>, key: K, defaultVal: V): (r: V)
    ensures key in m ==> r == m[key]
    ensures key !in m ==> r == defaultVal
  {
    if key in m then m[key] else defaultVal
  }

  /** `std::max(a, b)`: `b` when `a < b`, else `a`. */
  function StdMax(a: int, b: int): (r: int)
    ensures r >= a && r >= b && (r == a || r == b)
  {
    if a < b then b else a
  }

  /** `std::min(a, b)`: `b` when `b < a`, else `a`. */
  function StdMin(a: int, b: int): (r: int)
    ensures r <= a && r <= b && (r == a || r == b)
  {
    if b < a then b else a
  }

  /**
   * `std::min(std::max(val, lowerBound), upperBound)`. Note the argument
   * order: the upper bound comes before the lower one.
   */
  function Clamp(val: int, upperBound: int, lowerBound: int): (r: int)
    ensures lowerBound <= upperBound ==> lowerBound <= r <= upperBound
    ensures lowerBound <= upperBound ==>
      r == (if val < lowerBound then lowerBound else if val > upperBound then upperBound else val)
    ensures lowerBound > upperBound ==> r == upperBound
  {
    StdMin(StdMax(val, lowerBound), upperBound)
  }

  /** Clamping twice with the same bounds is clamping once. */
  lemma ClampIdempotent(val: int, upperBound: int, lowerBound: int)
    ensures Clamp(Clamp(val, upperBound, lowerBound), upperBound, lowerBound) == Clamp(val, upperBound, lowerBound)
  {
  }

  /** Clamping preserves the order of values. */
  lemma ClampMonotonic(x: int, y: int, upperBound: int, lowerBound: int)
    requires x <= y
    ensures Clamp(x, upperBound, lowerBound) <= Clamp(y, upperBound, lowerBound)
  {
  }

  /**
   * `std::find(v.begin(), v.end(), x) - v.begin()`: the position of the first
   * element equal to `x`, or `|v|` (the end) when there is none.
   */
  function Find<T(==)>(v: seq<T>, x: T): (pos: nat)
    ensures pos <= |v|
    ensures pos < |v| ==> v[pos] == x
    ensures forall j :: 0 <= j < pos ==> v[j] != x
    ensures pos == |v| <==> x !in v
  {
    if v == [] then 0
    else if v[0] == x then 0
    else 1 + Find(v[1..], x)
  }

  /** True exactly when some element of `v` equals `x`. */
  function VecContains<T(==)>(v: seq<T>, x: T): (r: bool)
    ensures r <==> exists i :: 0 <= i < |v| && v[i] == x
  {
    Find(v, x) != |v|
  }

  /**
   * The index of the first element of `v` equal to `x`, or -1 when there is
   * none (the source returns a `long`).
   */
  function VecIndexOf<T(==)>(v: seq<T>, x: T): (r: int)
    ensures r == -1 || 0 <= r < |v|
    ensures r >= 0 ==> v[r] == x && forall j :: 0 <= j < r ==> v[j] != x
    ensures r == -1 <==> forall i :: 0 <= i < |v| ==> v[i] != x
  {
    var pos := Find(v, x);
    if pos >= |v| then -1 else pos
  }

  /** The two searches agree. */
  lemma VecContainsIndexOf<T>(v: seq<T>, x: T)
    ensures VecContains(v, x) == (VecIndexOf(v, x) != -1)
  {
  }

  /** The first occurrence is unique: any index holding `x` with no earlier `x` is the one returned. */
  lemma VecIndexOfFirst<T>(v: seq<T>, x: T, i: nat)
    requires i < |v| && v[i] == x
    requires forall j :: 0 <= j < i ==> v[j] != x
    ensures VecIndexOf(v, x) == i
  {
  }
}
