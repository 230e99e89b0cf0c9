/** Target sampling in `generate_fingerprints` (src/fingerprint.rs): an
    in-place Fisher–Yates pass over the valid targets, then the first few.
    The random generator is an explicit parameter: `draw(j)` is the raw value
    that step `j` reduces into the index range `j..len`. Every behaviour of
    the real generator is some `draw`, and conversely every ordered choice of
    distinct targets is produced by some `draw` (`AnySelectionReachable`). */
module Sampling {
  import opened Common

  /** `Vec::swap(i, j)`. */
  function Swap(s: seq<nat>, i: nat, j: nat): (r: seq<nat>)
    requires i < |s| && j < |s|
    ensures |r| == |s| && r[i] == s[j] && r[j] == s[i]
    ensures forall k :: 0 <= k < |s| && k != i && k != j ==> r[k] == s[k]
    ensures multiset(r) == multiset(s)
    ensures Distinct(s) ==> Distinct(r)
  {
    s[i := s[j]][j := s[i]]
  }

  /** The index `fastrand::usize(j..len)` yields for raw value `raw`. */
  function DrawIndex(raw: nat, j: nat, len: nat): (k: nat)
    requires j < len
    ensures j <= k < len
  {
    j + raw % (len - j)
  }

  /** A raw value already inside the range is used unchanged. */
  lemma SmallRemainder(a: nat, m: nat)
    requires a < m
    ensures a % m == a
  {
  }

  /** The shuffle loop from step `j` onward. Positions before `j` are final. */
  function ShuffleFrom(s: seq<nat>, j: nat, draw: nat -> nat): (r: seq<nat>)
    requires j <= |s|
    ensures |r| == |s|
    ensures multiset(r) == multiset(s)
    ensures Distinct(s) ==> Distinct(r)
    ensures forall i :: 0 <= i < j ==> r[i] == s[i]
    decreases |s| - j
  {
    if j == |s| then s
    else ShuffleFrom(Swap(s, j, DrawIndex(draw(j), j, |s|)), j + 1, draw)
  }

  /** Shuffle `s`, then keep the first `min(n, |s|)` entries: a selection of
      that many distinct positions of `s`. */
  function TakeShuffled(s: seq<nat>, n: nat, draw: nat -> nat): (r: seq<nat>)
    ensures |r| == Min(n, |s|)
    ensures forall x :: x in r ==> x in s
    ensures Distinct(s) ==> Distinct(r)
  {
    var shuffled := ShuffleFrom(s, 0, draw);
    var r := shuffled[..Min(n, |s|)];
    assert forall x :: x in r ==> x in s by {
      forall x | x in r
        ensures x in s
      {
        assert x in shuffled;
        assert x in multiset(shuffled);
      }
    }
    r
  }

  /** Where `want[j]` sits in a state whose first `j` entries are those of
      `want`: at `j` or later, since `want` has no repeats. */
  function SteerIndex(st: seq<nat>, want: seq<nat>, j: nat): (k: nat)
    requires j < |want| <= |st|
    requires Distinct(want)
    requires forall i :: 0 <= i < j ==> st[i] == want[i]
    requires want[j] in st
    ensures j <= k < |st| && st[k] == want[j]
  {
    IndexOf(st, want[j])
  }

  /** The shuffle from step `j` on depends only on the values drawn from
      step `j` on. */
  lemma {:induction false} ShuffleFromDrawsOnly(s: seq<nat>, j: nat, d1: nat -> nat, d2: nat -> nat)
    requires j <= |s|
    requires forall k: nat :: j <= k ==> d1(k) == d2(k)
    ensures ShuffleFrom(s, j, d1) == ShuffleFrom(s, j, d2)
    decreases |s| - j
  {
    if j < |s| {
      var next := Swap(s, j, DrawIndex(d1(j), j, |s|));
      assert next == Swap(s, j, DrawIndex(d2(j), j, |s|));
      ShuffleFromDrawsOnly(next, j + 1, d1, d2);
    }
  }

  /** A raw value of `k - j` at step `j` swaps position `k` into place. */
  lemma ShuffleStepTo(s: seq<nat>, j: nat, draw: nat -> nat, k: nat)
    requires j <= k < |s| && draw(j) == k - j
    ensures ShuffleFrom(s, j, draw) == ShuffleFrom(Swap(s, j, k), j + 1, draw)
  {
    assert DrawIndex(draw(j), j, |s|) == k by {
      SmallRemainder(k - j, |s| - j);
    }
  }

  /** The draws `d` with the value at step `j` replaced by `v`. */
  function Override(d: nat -> nat, j: nat, v: nat): (r: nat -> nat)
    ensures r(j) == v
    ensures forall x: nat :: x != j ==> r(x) == d(x)
  {
    (x: nat) => if x == j then v else d(x)
  }

  /** `r` starts with `want`. */
  predicate Leads(r: seq<nat>, want: seq<nat>) {
    |want| <= |r| && forall i :: 0 <= i < |want| ==> r[i] == want[i]
  }

  /** From a state whose first `j` entries are those of `want`, some draws
      for the remaining steps put all of `want` in front: at each step, draw
      the offset of the next wanted entry. */
  lemma {:induction false} SteerFrom(st: seq<nat>, want: seq<nat>, j: nat)
    requires j <= |want| <= |st|
    requires Distinct(want)
    requires forall i :: 0 <= i < j ==> st[i] == want[i]
    requires forall x :: x in want ==> x in st
    ensures exists draw: nat -> nat :: Leads(ShuffleFrom(st, j, draw), want)
    decreases |want| - j
  {
    if j == |want| {
      var draw := (x: nat) => 0;
      assert Leads(ShuffleFrom(st, j, draw), want);
    } else {
      assert want[j] in want;
      var k := SteerIndex(st, want, j);
      var next := Swap(st, j, k);
      assert forall x :: x in want ==> x in next by {
        assert forall x :: x in st ==> x in multiset(next);
      }
      SteerFrom(next, want, j + 1);
      var rest: nat -> nat :| Leads(ShuffleFrom(next, j + 1, rest), want);
      var draw := Override(rest, j, k - j);
      assert ShuffleFrom(st, j, draw) == ShuffleFrom(next, j + 1, rest) by {
        ShuffleStepTo(st, j, draw, k);
        ShuffleFromDrawsOnly(next, j + 1, draw, rest);
      }
    }
  }

  /** Every ordered choice of `min(n, |s|)` distinct entries of `s` is the
      outcome of some random stream: sampling is an arbitrary choice. */
  lemma AnySelectionReachable(s: seq<nat>, n: nat, want: seq<nat>)
    requires Distinct(want)
    requires |want| == Min(n, |s|)
    requires forall x :: x in want ==> x in s
    ensures exists draw: nat -> nat :: TakeShuffled(s, n, draw) == want
  {
    SteerFrom(s, want, 0);
    var draw: nat -> nat :| Leads(ShuffleFrom(s, 0, draw), want);
    assert TakeShuffled(s, n, draw) == want;
  }
}
