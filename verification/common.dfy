/** Small shared vocabulary: optional and fallible results, the `usize::min`
    used for the fan-out bound, duplicate-freedom of sequences, and the
    saturating float-to-`u32` cast the pipeline applies to Hz and ms values. */
module Common {

  datatype Option<+T> = None | Some(value: T)

  datatype Result<+T, +E> = Ok(value: T) | Err(error: E)

  const U32_MAX: nat := 0xFFFF_FFFF

  function Min(a: nat, b: nat): (r: nat)
    ensures r <= a && r <= b
    ensures r == a || r == b
  {
    if a <= b then a else b
  }

  /** No value occurs twice in `s`. */
  predicate Distinct<T(==)>(s: seq<T>) {
    forall i, j :: 0 <= i < j < |s| ==> s[i] != s[j]
  }

  /** A non-empty sequence contains its first element. */
  lemma HeadIsMember<T>(s: seq<T>)
    ensures |s| > 0 ==> s[0] in s
  {
  }

  /** Dropping the first entry of a sequence without repeats removes that value. */
  lemma DistinctTail<T>(s: seq<T>)
    requires |s| > 0
    ensures Distinct(s) ==> s[0] !in s[1..] && Distinct(s[1..])
  {
    if Distinct(s) {
      forall k | 0 <= k < |s| - 1
        ensures s[1..][k] != s[0]
      {
        assert s[1..][k] == s[k + 1];
      }
    }
  }

  /** The values occurring in `s`. */
  function Elements<T>(s: seq<T>): set<T> {
    set x | x in s
  }

  /** A sequence without repeats has as many distinct values as entries. */
  lemma {:induction false} DistinctCardinality<T>(s: seq<T>)
    requires Distinct(s)
    ensures |Elements(s)| == |s|
  {
    if |s| > 0 {
      var rest := s[1..];
      assert Distinct(rest);
      DistinctCardinality(rest);
      assert Elements(s) == {s[0]} + Elements(rest);
      assert s[0] !in Elements(rest);
    }
  }

  /** The first position of `x` in `s`. */
  function IndexOf<T(==)>(s: seq<T>, x: T): (i: nat)
    requires x in s
    ensures i < |s| && s[i] == x
    ensures forall j :: 0 <= j < i ==> s[j] != x
  {
    if s[0] == x then 0 else 1 + IndexOf(s[1..], x)
  }

  /** A float converted with Rust's `as u32`: non-positive values become 0,
      values past the range saturate at `u32::MAX`, all others are truncated
      toward zero. (NaN, which also becomes 0, has no counterpart in `real`.) */
  function CastU32(x: real): (r: nat)
    ensures r <= U32_MAX
    ensures x <= 0.0 ==> r == 0
    ensures 0.0 <= x < U32_MAX as real ==> r as real <= x < r as real + 1.0
    ensures U32_MAX as real <= x ==> r == U32_MAX
  {
    if x <= 0.0 then 0
    else if x >= U32_MAX as real then U32_MAX
    else x.Floor
  }

  /** The cast never reverses an order, which is what lets a sorted scan stop
      at the first value past a bound. */
  lemma CastU32Monotone(x: real, y: real)
    requires x <= y
    ensures CastU32(x) <= CastU32(y)
  {
  }
}
