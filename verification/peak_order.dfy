/** The anchor sweep order of `generate_fingerprints` (src/fingerprint.rs):
    the indices `0..peaks.len()` stably sorted by time bin. A stable sort of
    indices by a key is the strict sort by the pair (key, index), which is
    what `Before` expresses. */
module PeakOrder {
  import opened Common
  import opened Peaks

  /** Index `a` comes before index `b` in the stable time-bin order. */
  predicate Before(peaks: seq<Peak>, a: nat, b: nat)
    requires a < |peaks| && b < |peaks|
  {
    peaks[a].timeBin < peaks[b].timeBin || (peaks[a].timeBin == peaks[b].timeBin && a < b)
  }

  /** Every entry of `s` is an index of `peaks`. */
  predicate Indices(peaks: seq<Peak>, s: seq<nat>) {
    forall k :: 0 <= k < |s| ==> s[k] < |peaks|
  }

  /** `s` is strictly increasing in the stable time-bin order. */
  predicate SortedByTime(peaks: seq<Peak>, s: seq<nat>)
    requires Indices(peaks, s)
  {
    forall k, l :: 0 <= k < l < |s| ==> Before(peaks, s[k], s[l])
  }

  /** `order` lists every index of `peaks` once, in stable time-bin order. */
  predicate IsTimeOrder(peaks: seq<Peak>, order: seq<nat>) {
    && |order| == |peaks|
    && Indices(peaks, order)
    && (forall x :: 0 <= x < |peaks| ==> x in order)
    && SortedByTime(peaks, order)
  }

  /** Inserts `x`, larger than every index already in `s`, behind every entry
      whose time bin is not later than its own. */
  function InsertByTime(peaks: seq<Peak>, s: seq<nat>, x: nat): (r: seq<nat>)
    requires x < |peaks| && Indices(peaks, s)
    requires forall k :: 0 <= k < |s| ==> s[k] < x
    requires SortedByTime(peaks, s)
    ensures |r| == |s| + 1
    ensures forall y :: y in r <==> y in s || y == x
    ensures Indices(peaks, r) && SortedByTime(peaks, r)
  {
    if |s| == 0 then [x]
    else if peaks[s[0]].timeBin <= peaks[x].timeBin then
      var rest := InsertByTime(peaks, s[1..], x);
      assert forall y :: y in s[1..] ==> y in s;
      assert forall k :: 0 <= k < |rest| ==> rest[k] in rest;
      [s[0]] + rest
    else
      [x] + s
  }

  /** Stable insertion sort of the first `n` indices by time bin. */
  function SortByTime(peaks: seq<Peak>, n: nat): (r: seq<nat>)
    requires n <= |peaks|
    ensures |r| == n
    ensures forall y :: y in r <==> 0 <= y < n
    ensures Indices(peaks, r) && SortedByTime(peaks, r)
  {
    if n == 0 then []
    else
      var s := SortByTime(peaks, n - 1);
      assert forall k :: 0 <= k < |s| ==> s[k] in s;
      InsertByTime(peaks, s, n - 1)
  }

  /** `peak_indices` after `sort_by_key(|&i| peaks[i].time_bin)`. */
  function TimeOrder(peaks: seq<Peak>): (order: seq<nat>)
    ensures IsTimeOrder(peaks, order)
  {
    SortByTime(peaks, |peaks|)
  }

  /** The order lists each index once. */
  lemma TimeOrderDistinct(peaks: seq<Peak>, order: seq<nat>)
    requires IsTimeOrder(peaks, order)
    ensures Distinct(order)
  {
  }

  /** Entries after position `i` are exactly the indices that come after
      `order[i]` in the stable order. */
  lemma LaterInOrder(peaks: seq<Peak>, order: seq<nat>, i: nat, x: nat)
    requires IsTimeOrder(peaks, order) && i < |order| && x < |peaks|
    ensures x in order[i + 1..] <==> Before(peaks, order[i], x)
  {
    var l := IndexOf(order, x);
    if l <= i {
      assert x !in order[i + 1..];
      if l < i {
        assert Before(peaks, order[l], order[i]);
      }
    } else {
      assert order[i + 1..][l - i - 1] == x;
    }
  }

  /** Two sequences that both list every index in the stable time-bin order
      are the same sequence: the stable sort has exactly one result. */
  lemma {:induction false} TimeOrderUnique(peaks: seq<Peak>, s: seq<nat>, t: seq<nat>)
    requires Indices(peaks, s) && Indices(peaks, t)
    requires SortedByTime(peaks, s) && SortedByTime(peaks, t)
    requires forall y :: y in s <==> y in t
    ensures s == t
    decreases |s|
  {
    if |s| > 0 && |t| > 0 {
      if s[0] != t[0] {
        assert s[0] in s && t[0] in t;
        var l := IndexOf(t, s[0]);
        var k := IndexOf(s, t[0]);
        assert false;
      }
      forall y
        ensures y in s[1..] <==> y in t[1..]
      {
        if y in s[1..] {
          var k :| 1 <= k < |s| && s[k] == y;
          assert Before(peaks, s[0], s[k]);
          assert y in s;
          var l := IndexOf(t, y);
          assert l != 0;
        }
        if y in t[1..] {
          var l :| 1 <= l < |t| && t[l] == y;
          assert Before(peaks, t[0], t[l]);
          assert y in t;
          var k := IndexOf(s, y);
          assert k != 0;
        }
      }
      TimeOrderUnique(peaks, s[1..], t[1..]);
    } else {
      HeadIsMember(s);
      HeadIsMember(t);
    }
  }
}
