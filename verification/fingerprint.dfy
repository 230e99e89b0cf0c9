/** Landmark fingerprints (src/fingerprint.rs): each anchor peak is paired
    with at most five randomly chosen later peaks whose time distance lies in
    [50, 2000] ms; each pair is hashed into a frequency-canonical key. The
    random generator is the parameter `rng`: `rng(i, j)` is the raw value the
    shuffle draws at step `j` for the anchor at sweep position `i`. */
module Fingerprints {
  import opened Common
  import opened Fft
  import opened Peaks
  import opened PeakOrder
  import opened Sampling

  /** Widest anchor-to-target distance that is still paired, in ms. */
  const MAX_TIME_DELTA_MS: nat := 2000
  /** Closest anchor-to-target distance that is paired, in ms. */
  const MIN_TIME_DELTA_MS: nat := 50
  /** Most targets paired with one anchor. */
  const NUM_TARGET_PEAKS: nat := 5

  /** The index key: two frequencies in Hz, lower first, and the time
      distance between the two peaks in ms. */
  datatype Fingerprint = Fingerprint(freq1: nat, freq2: nat, timeDelta: nat)

  /** `frequency_hz(..) as u32`. */
  function HzU32(p: Peak, c: SpectrogramConfig): (hz: nat)
    requires ValidConfig(c)
    ensures hz <= U32_MAX
    ensures FrequencyHz(p, c) < U32_MAX as real ==> hz as real <= FrequencyHz(p, c) < hz as real + 1.0
  {
    CastU32(FrequencyHz(p, c))
  }

  /** `(time_seconds(..) * 1000.0) as u32`: the peak's offset in ms. */
  function OffsetMs(p: Peak, c: SpectrogramConfig): (ms: nat)
    requires ValidConfig(c)
    ensures ms <= U32_MAX
    ensures TimeSeconds(p, c) * 1000.0 < U32_MAX as real ==> ms as real <= TimeSeconds(p, c) * 1000.0 < ms as real + 1.0
  {
    CastU32(TimeSeconds(p, c) * 1000.0)
  }

  /** `((target.time_seconds - anchor.time_seconds) * 1000.0) as u32`: the
      expression used both for the window test and for the key. */
  function DiffMs(anchor: Peak, target: Peak, c: SpectrogramConfig): (ms: nat)
    requires ValidConfig(c)
    ensures ms <= U32_MAX
    ensures var d := (TimeSeconds(target, c) - TimeSeconds(anchor, c)) * 1000.0;
            (d <= 0.0 ==> ms == 0) && (0.0 <= d < U32_MAX as real ==> ms as real <= d < ms as real + 1.0)
  {
    CastU32((TimeSeconds(target, c) - TimeSeconds(anchor, c)) * 1000.0)
  }

  /** A target in a later frame is never closer in time to the anchor. */
  lemma DiffMsMonotone(anchor: Peak, t1: Peak, t2: Peak, c: SpectrogramConfig)
    requires ValidConfig(c)
    requires t1.timeBin <= t2.timeBin
    ensures DiffMs(anchor, t1, c) <= DiffMs(anchor, t2, c)
  {
    TimeSecondsMonotone(t1, t2, c);
    CastU32Monotone((TimeSeconds(t1, c) - TimeSeconds(anchor, c)) * 1000.0,
                    (TimeSeconds(t2, c) - TimeSeconds(anchor, c)) * 1000.0);
  }

  /** A target that is not later than the anchor is 0 ms away: the negative
      difference saturates to zero in the cast. */
  lemma DiffMsOfEarlierTarget(anchor: Peak, target: Peak, c: SpectrogramConfig)
    requires ValidConfig(c)
    requires target.timeBin <= anchor.timeBin
    ensures DiffMs(anchor, target, c) == 0
  {
    TimeSecondsMonotone(target, anchor, c);
  }

  /** The pairing window [50, 2000] ms. */
  predicate InWindow(d: nat) {
    MIN_TIME_DELTA_MS <= d <= MAX_TIME_DELTA_MS
  }

  /** `create_fingerprint`: the two truncated frequencies in ascending order
      and the anchor-to-target distance. */
  function CreateFingerprint(anchor: Peak, target: Peak, c: SpectrogramConfig): (fp: Fingerprint)
    requires ValidConfig(c)
    ensures fp.freq1 <= fp.freq2
    ensures multiset{fp.freq1, fp.freq2} == multiset{HzU32(anchor, c), HzU32(target, c)}
    ensures fp.timeDelta == DiffMs(anchor, target, c)
  {
    var freq1 := HzU32(anchor, c);
    var freq2 := HzU32(target, c);
    var (f1, f2) := if freq1 <= freq2 then (freq1, freq2) else (freq2, freq1);
    Fingerprint(f1, f2, DiffMs(anchor, target, c))
  }

  /** Swapping anchor and target gives the same frequency pair. The time
      distance is not symmetric: with the roles swapped it saturates to 0. */
  lemma CreateFingerprintSymmetric(a: Peak, t: Peak, c: SpectrogramConfig)
    requires ValidConfig(c)
    ensures CreateFingerprint(a, t, c).freq1 == CreateFingerprint(t, a, c).freq1
    ensures CreateFingerprint(a, t, c).freq2 == CreateFingerprint(t, a, c).freq2
    ensures a.timeBin <= t.timeBin ==> CreateFingerprint(t, a, c).timeDelta == 0
  {
    if a.timeBin <= t.timeBin {
      DiffMsOfEarlierTarget(t, a, c);
    }
  }

  /** Peak `x` lies inside the pairing window of `anchor`. */
  predicate InWindowOf(peaks: seq<Peak>, c: SpectrogramConfig, anchor: Peak, x: nat)
    requires ValidConfig(c)
  {
    x < |peaks| && InWindow(DiffMs(anchor, peaks[x], c))
  }

  /** The time bins along `s` never decrease. */
  predicate TimeNondecreasing(peaks: seq<Peak>, s: seq<nat>)
    requires Indices(peaks, s)
  {
    forall k, l :: 0 <= k < l < |s| ==> peaks[s[k]].timeBin <= peaks[s[l]].timeBin
  }

  /** The candidate loop of `generate_fingerprints`: walks the later peaks,
      stops at the first one more than 2000 ms away and keeps those at least
      50 ms away. */
  function ScanTargets(peaks: seq<Peak>, c: SpectrogramConfig, anchor: Peak, rest: seq<nat>): (r: seq<nat>)
    requires ValidConfig(c) && Indices(peaks, rest)
    ensures forall x :: x in r ==> x in rest && InWindowOf(peaks, c, anchor, x)
    ensures Distinct(rest) ==> Distinct(r)
  {
    if |rest| == 0 then []
    else
      var d := DiffMs(anchor, peaks[rest[0]], c);
      DistinctTail(rest);
      if d > MAX_TIME_DELTA_MS then []
      else if d >= MIN_TIME_DELTA_MS then [rest[0]] + ScanTargets(peaks, c, anchor, rest[1..])
      else ScanTargets(peaks, c, anchor, rest[1..])
  }

  /** Reference: every later peak inside the window, without stopping early. */
  function FilterWindow(peaks: seq<Peak>, c: SpectrogramConfig, anchor: Peak, rest: seq<nat>): (r: seq<nat>)
    requires ValidConfig(c) && Indices(peaks, rest)
    ensures forall x :: x in r <==> x in rest && InWindowOf(peaks, c, anchor, x)
    ensures Distinct(rest) ==> Distinct(r)
  {
    if |rest| == 0 then []
    else
      DistinctTail(rest);
      if InWindow(DiffMs(anchor, peaks[rest[0]], c)) then [rest[0]] + FilterWindow(peaks, c, anchor, rest[1..])
      else FilterWindow(peaks, c, anchor, rest[1..])
  }

  /** On time-sorted candidates, stopping at the first one past 2000 ms loses
      nothing: every later candidate is past 2000 ms too. */
  lemma {:induction false} ScanIsFilter(peaks: seq<Peak>, c: SpectrogramConfig, anchor: Peak, rest: seq<nat>)
    requires ValidConfig(c) && Indices(peaks, rest)
    requires TimeNondecreasing(peaks, rest)
    ensures ScanTargets(peaks, c, anchor, rest) == FilterWindow(peaks, c, anchor, rest)
  {
    if |rest| > 0 {
      var d := DiffMs(anchor, peaks[rest[0]], c);
      if d > MAX_TIME_DELTA_MS {
        forall k | 0 <= k < |rest|
          ensures !InWindowOf(peaks, c, anchor, rest[k])
        {
          DiffMsMonotone(anchor, peaks[rest[0]], peaks[rest[k]], c);
        }
        HeadIsMember(FilterWindow(peaks, c, anchor, rest));
      } else {
        ScanIsFilter(peaks, c, anchor, rest[1..]);
      }
    }
  }

  /** The peaks after sweep position `i`: time-sorted, without repeats, and
      exactly those that come after `order[i]`. */
  lemma SweepSuffix(peaks: seq<Peak>, order: seq<nat>, i: nat)
    requires IsTimeOrder(peaks, order) && i < |order|
    ensures Indices(peaks, order[i + 1..])
    ensures TimeNondecreasing(peaks, order[i + 1..])
    ensures Distinct(order[i + 1..])
    ensures forall x :: 0 <= x < |peaks| ==> (x in order[i + 1..] <==> Before(peaks, order[i], x))
  {
    var rest := order[i + 1..];
    forall k, l | 0 <= k < l < |rest|
      ensures peaks[rest[k]].timeBin <= peaks[rest[l]].timeBin && rest[k] != rest[l]
    {
      assert Before(peaks, order[i + 1 + k], order[i + 1 + l]);
    }
    forall x | 0 <= x < |peaks|
      ensures x in rest <==> Before(peaks, order[i], x)
    {
      LaterInOrder(peaks, order, i, x);
    }
  }

  /** `valid_targets` for the anchor at sweep position `i`: the scan over the
      peaks after it in the sweep order, which keeps exactly those in the window. */
  function CollectedTargets(peaks: seq<Peak>, c: SpectrogramConfig, order: seq<nat>, i: nat): (valid: seq<nat>)
    requires ValidConfig(c) && IsTimeOrder(peaks, order) && i < |order|
    ensures Distinct(valid)
  {
    var rest := order[i + 1..];
    SweepSuffix(peaks, order, i);
    ScanIsFilter(peaks, c, peaks[order[i]], rest);
    ScanTargets(peaks, c, peaks[order[i]], rest)
  }

  /** The collected targets are exactly the peaks after the anchor in the
      stable order whose distance lies in the window. */
  lemma CollectedMembers(peaks: seq<Peak>, c: SpectrogramConfig, order: seq<nat>, i: nat)
    requires ValidConfig(c) && IsTimeOrder(peaks, order) && i < |order|
    ensures forall x: nat :: x in CollectedTargets(peaks, c, order, i) <==>
              x < |peaks| && Before(peaks, order[i], x) && InWindowOf(peaks, c, peaks[order[i]], x)
  {
    SweepSuffix(peaks, order, i);
    ScanIsFilter(peaks, c, peaks[order[i]], order[i + 1..]);
  }

  /** The targets paired with the anchor at sweep position `i`: the first
      `min(5, |valid|)` entries of the shuffled `valid_targets`. */
  function AnchorTargets(peaks: seq<Peak>, c: SpectrogramConfig, order: seq<nat>, i: nat, rng: (nat, nat) -> nat)
    : (picks: seq<nat>)
    requires ValidConfig(c) && IsTimeOrder(peaks, order) && i < |order|
    ensures |picks| == Min(NUM_TARGET_PEAKS, |CollectedTargets(peaks, c, order, i)|)
    ensures Distinct(picks)
    ensures forall x :: x in picks ==> x in CollectedTargets(peaks, c, order, i)
  {
    var valid := CollectedTargets(peaks, c, order, i);
    if |valid| == 0 then [] else TakeShuffled(valid, NUM_TARGET_PEAKS, (j: nat) => rng(i, j))
  }

  /** Sampling depends only on the values drawn. */
  lemma TakeShuffledDrawsOnly(s: seq<nat>, n: nat, d1: nat -> nat, d2: nat -> nat)
    requires forall k: nat :: d1(k) == d2(k)
    ensures TakeShuffled(s, n, d1) == TakeShuffled(s, n, d2)
  {
    ShuffleFromDrawsOnly(s, 0, d1, d2);
  }

  /** Any ordered choice of `min(5, |valid|)` distinct valid targets is the
      outcome for some random stream. */
  lemma AnyAnchorChoiceReachable(peaks: seq<Peak>, c: SpectrogramConfig, order: seq<nat>, i: nat, want: seq<nat>)
    requires ValidConfig(c) && IsTimeOrder(peaks, order) && i < |order|
    requires Distinct(want)
    requires |want| == Min(NUM_TARGET_PEAKS, |CollectedTargets(peaks, c, order, i)|)
    requires forall x :: x in want ==> x in CollectedTargets(peaks, c, order, i)
    ensures exists rng: (nat, nat) -> nat :: AnchorTargets(peaks, c, order, i, rng) == want
  {
    var valid := CollectedTargets(peaks, c, order, i);
    AnySelectionReachable(valid, NUM_TARGET_PEAKS, want);
    var draw: nat -> nat :| TakeShuffled(valid, NUM_TARGET_PEAKS, draw) == want;
    var rng := (a: nat, j: nat) => draw(j);
    assert AnchorTargets(peaks, c, order, i, rng) == want by {
      if |valid| > 0 {
        TakeShuffledDrawsOnly(valid, NUM_TARGET_PEAKS, draw, (j: nat) => rng(i, j));
      }
    }
  }

  /** `want` is a possible pick for the anchor at sweep position `i`:
      `min(5, #valid)` distinct targets, each a collected one. */
  predicate ValidChoice(peaks: seq<Peak>, c: SpectrogramConfig, order: seq<nat>, i: nat, want: seq<nat>)
    requires ValidConfig(c) && IsTimeOrder(peaks, order) && i < |order|
  {
    && Distinct(want)
    && |want| == Min(NUM_TARGET_PEAKS, |CollectedTargets(peaks, c, order, i)|)
    && (forall x :: x in want ==> x in CollectedTargets(peaks, c, order, i))
  }

  /** The random stream `rng` makes every anchor `i` pick `wants[i]`. */
  predicate PicksAll(peaks: seq<Peak>, c: SpectrogramConfig, order: seq<nat>, wants: seq<seq<nat>>,
                     rng: (nat, nat) -> nat)
    requires ValidConfig(c) && IsTimeOrder(peaks, order) && |wants| == |order|
  {
    forall i :: 0 <= i < |order| ==> AnchorTargets(peaks, c, order, i, rng) == wants[i]
  }

  /** The anchor at position `i` picks what its own draws steer it to,
      whatever the stream does at other positions. */
  lemma AnchorFollowsDraw(peaks: seq<Peak>, c: SpectrogramConfig, order: seq<nat>, i: nat,
                          draw: nat -> nat, rng: (nat, nat) -> nat)
    requires ValidConfig(c) && IsTimeOrder(peaks, order) && i < |order|
    requires forall j: nat :: rng(i, j) == draw(j)
    ensures var valid := CollectedTargets(peaks, c, order, i);
            AnchorTargets(peaks, c, order, i, rng)
            == if |valid| == 0 then [] else TakeShuffled(valid, NUM_TARGET_PEAKS, draw)
  {
    var valid := CollectedTargets(peaks, c, order, i);
    if |valid| > 0 {
      TakeShuffledDrawsOnly(valid, NUM_TARGET_PEAKS, draw, (j: nat) => rng(i, j));
    }
  }

  /** One steering draw per anchor among the first `n` sweep positions. */
  lemma {:induction false} ChoiceDraws(peaks: seq<Peak>, c: SpectrogramConfig, order: seq<nat>,
                                       wants: seq<seq<nat>>, n: nat)
    returns (draws: seq<nat -> nat>)
    requires ValidConfig(c) && IsTimeOrder(peaks, order) && |wants| == |order| && n <= |order|
    requires forall i :: 0 <= i < |order| ==> ValidChoice(peaks, c, order, i, wants[i])
    ensures |draws| == n
    ensures forall i :: 0 <= i < n ==>
              TakeShuffled(CollectedTargets(peaks, c, order, i), NUM_TARGET_PEAKS, draws[i]) == wants[i]
  {
    if n == 0 {
      draws := [];
    } else {
      var prev := ChoiceDraws(peaks, c, order, wants, n - 1);
      var valid := CollectedTargets(peaks, c, order, n - 1);
      assert ValidChoice(peaks, c, order, n - 1, wants[n - 1]);
      AnySelectionReachable(valid, NUM_TARGET_PEAKS, wants[n - 1]);
      var d: nat -> nat :| TakeShuffled(valid, NUM_TARGET_PEAKS, d) == wants[n - 1];
      draws := prev + [d];
    }
  }

  /** Because the stream is indexed by sweep position, the anchors' picks
      are independent: any combination of possible picks, one per anchor,
      is the outcome of a single random stream. */
  lemma AllAnchorChoicesReachable(peaks: seq<Peak>, c: SpectrogramConfig, order: seq<nat>, wants: seq<seq<nat>>)
    requires ValidConfig(c) && IsTimeOrder(peaks, order) && |wants| == |order|
    requires forall i :: 0 <= i < |order| ==> ValidChoice(peaks, c, order, i, wants[i])
    ensures exists rng: (nat, nat) -> nat :: PicksAll(peaks, c, order, wants, rng)
  {
    var draws := ChoiceDraws(peaks, c, order, wants, |order|);
    var rng := (a: nat, j: nat) => if a < |draws| then draws[a](j) else 0;
    forall i | 0 <= i < |order|
      ensures AnchorTargets(peaks, c, order, i, rng) == wants[i]
    {
      AnchorFollowsDraw(peaks, c, order, i, draws[i], rng);
      assert ValidChoice(peaks, c, order, i, wants[i]);
    }
    assert PicksAll(peaks, c, order, wants, rng);
  }

  /** A pairing of an anchor peak with a target peak, both by index. */
  datatype Landmark = Landmark(anchor: nat, target: nat)

  /** The target comes after the anchor in the sweep order and lies in the window. */
  predicate IsPairing(peaks: seq<Peak>, c: SpectrogramConfig, l: Landmark)
    requires ValidConfig(c)
  {
    l.anchor < |peaks| && l.target < |peaks| && Before(peaks, l.anchor, l.target)
    && InWindowOf(peaks, c, peaks[l.anchor], l.target)
  }

  /** The pairings made for the anchor at sweep position `i`: that anchor
      with each of its picked targets. */
  function AnchorLandmarks(peaks: seq<Peak>, c: SpectrogramConfig, order: seq<nat>, i: nat, rng: (nat, nat) -> nat)
    : (ls: seq<Landmark>)
    requires ValidConfig(c) && IsTimeOrder(peaks, order) && i < |order|
    ensures |ls| == Min(NUM_TARGET_PEAKS, |CollectedTargets(peaks, c, order, i)|)
    ensures Distinct(ls)
    ensures forall k :: 0 <= k < |ls| ==> ls[k].anchor == order[i] && ls[k].target in AnchorTargets(peaks, c, order, i, rng)
  {
    var picks := AnchorTargets(peaks, c, order, i, rng);
    seq(|picks|, k requires 0 <= k < |picks| => Landmark(order[i], picks[k]))
  }

  /** Each pairing of one anchor is a valid pairing. */
  lemma AnchorLandmarksArePairings(peaks: seq<Peak>, c: SpectrogramConfig, order: seq<nat>, i: nat, rng: (nat, nat) -> nat)
    requires ValidConfig(c) && IsTimeOrder(peaks, order) && i < |order|
    ensures forall l :: l in AnchorLandmarks(peaks, c, order, i, rng) ==> IsPairing(peaks, c, l)
  {
    CollectedMembers(peaks, c, order, i);
  }

  /** How many pairings have anchor `a`. */
  function CountAnchor(ls: seq<Landmark>, a: nat): nat {
    if |ls| == 0 then 0
    else (if ls[0].anchor == a then 1 else 0) + CountAnchor(ls[1..], a)
  }

  /** Prepending pairings that all share anchor `h` adds their number to the
      count of `h` and nothing to the count of any other anchor. */
  lemma {:induction false} CountAnchorPrepend(head: seq<Landmark>, tail: seq<Landmark>, h: nat, a: nat)
    requires forall k :: 0 <= k < |head| ==> head[k].anchor == h
    ensures CountAnchor(head + tail, a) == (if h == a then |head| else 0) + CountAnchor(tail, a)
  {
    if |head| > 0 {
      assert (head + tail)[0] == head[0];
      assert (head + tail)[1..] == head[1..] + tail;
      CountAnchorPrepend(head[1..], tail, h, a);
    } else {
      assert head + tail == tail;
    }
  }

  /** The blocks of pairings concatenated in order. */
  function Flatten(bs: seq<seq<Landmark>>): seq<Landmark> {
    if |bs| == 0 then [] else bs[0] + Flatten(bs[1..])
  }

  /** Block `i` of `bs` holds pairings of anchor `anchors[i]` only, with no repeats. */
  predicate Blocked(bs: seq<seq<Landmark>>, anchors: seq<nat>) {
    && |bs| == |anchors|
    && (forall i, k :: 0 <= i < |bs| && 0 <= k < |bs[i]| ==> bs[i][k].anchor == anchors[i])
    && (forall i :: 0 <= i < |bs| ==> Distinct(bs[i]))
  }

  /** Every pairing of the concatenation comes from one of the blocks. */
  lemma {:induction false} FlattenMember(bs: seq<seq<Landmark>>, l: Landmark)
    requires l in Flatten(bs)
    ensures exists i :: 0 <= i < |bs| && l in bs[i]
  {
    if l !in bs[0] {
      FlattenMember(bs[1..], l);
      var i :| 0 <= i < |bs[1..]| && l in bs[1..][i];
      assert l in bs[i + 1];
    }
  }

  /** At most `n` pairings per block give at most `n` times the block count. */
  lemma {:induction false} FlattenSize(bs: seq<seq<Landmark>>, n: nat)
    requires forall i :: 0 <= i < |bs| ==> |bs[i]| <= n
    ensures |Flatten(bs)| <= n * |bs|
  {
    if |bs| > 0 {
      FlattenSize(bs[1..], n);
    }
  }

  /** An anchor owning no block has no pairing in the concatenation. */
  lemma {:induction false} CountAbsent(bs: seq<seq<Landmark>>, anchors: seq<nat>, a: nat)
    requires Blocked(bs, anchors) && a !in anchors
    ensures CountAnchor(Flatten(bs), a) == 0
  {
    if |bs| > 0 {
      CountAnchorPrepend(bs[0], Flatten(bs[1..]), anchors[0], a);
      assert Blocked(bs[1..], anchors[1..]);
      CountAbsent(bs[1..], anchors[1..], a);
    }
  }

  /** With one block per distinct anchor, an anchor's pairings in the
      concatenation are exactly those of its own block. */
  lemma {:induction false} CountFlatten(bs: seq<seq<Landmark>>, anchors: seq<nat>, p: nat)
    requires Blocked(bs, anchors) && Distinct(anchors) && p < |bs|
    ensures CountAnchor(Flatten(bs), anchors[p]) == |bs[p]|
  {
    CountAnchorPrepend(bs[0], Flatten(bs[1..]), anchors[0], anchors[p]);
    assert Blocked(bs[1..], anchors[1..]);
    DistinctTail(anchors);
    if p == 0 {
      CountAbsent(bs[1..], anchors[1..], anchors[0]);
    } else {
      assert anchors[1..][p - 1] == anchors[p];
      CountFlatten(bs[1..], anchors[1..], p - 1);
    }
  }

  /** With one block per distinct anchor, the concatenation has no repeats. */
  lemma {:induction false} FlattenDistinct(bs: seq<seq<Landmark>>, anchors: seq<nat>)
    requires Blocked(bs, anchors) && Distinct(anchors)
    ensures Distinct(Flatten(bs))
  {
    if |bs| > 0 {
      assert Blocked(bs[1..], anchors[1..]);
      DistinctTail(anchors);
      FlattenDistinct(bs[1..], anchors[1..]);
      var head, tail := bs[0], Flatten(bs[1..]);
      forall k, l | 0 <= k < |head| && 0 <= l < |tail|
        ensures head[k] != tail[l]
      {
        assert tail[l] in tail;
        FlattenMember(bs[1..], tail[l]);
        var i :| 0 <= i < |bs[1..]| && tail[l] in bs[1..][i];
        var m :| 0 <= m < |bs[i + 1]| && bs[i + 1][m] == tail[l];
        assert anchors[1..][i] == anchors[i + 1];
      }
      assert Flatten(bs) == head + tail;
    }
  }

  /** The pairings of each anchor, one block per sweep position. */
  function Blocks(peaks: seq<Peak>, c: SpectrogramConfig, order: seq<nat>, rng: (nat, nat) -> nat)
    : (bs: seq<seq<Landmark>>)
    requires ValidConfig(c) && IsTimeOrder(peaks, order)
    ensures Blocked(bs, order)
    ensures forall i :: 0 <= i < |bs| ==> |bs[i]| <= NUM_TARGET_PEAKS
  {
    var bs := seq(|order|, i requires 0 <= i < |order| => AnchorLandmarks(peaks, c, order, i, rng));
    assert Blocked(bs, order) && forall i :: 0 <= i < |bs| ==> |bs[i]| <= NUM_TARGET_PEAKS by {
      forall i | 0 <= i < |bs|
        ensures Distinct(bs[i]) && |bs[i]| <= NUM_TARGET_PEAKS
        ensures forall k :: 0 <= k < |bs[i]| ==> bs[i][k].anchor == order[i]
      {
        assert bs[i] == AnchorLandmarks(peaks, c, order, i, rng);
      }
    }
    bs
  }

  /** Every pairing `generate_fingerprints` makes, anchor by anchor in the sweep order. */
  function Landmarks(peaks: seq<Peak>, c: SpectrogramConfig, rng: (nat, nat) -> nat): (ls: seq<Landmark>)
    requires ValidConfig(c)
    ensures |ls| <= NUM_TARGET_PEAKS * |peaks|
    ensures Distinct(ls)
  {
    var order := TimeOrder(peaks);
    var bs := Blocks(peaks, c, order, rng);
    FlattenSize(bs, NUM_TARGET_PEAKS);
    TimeOrderDistinct(peaks, order);
    FlattenDistinct(bs, order);
    Flatten(bs)
  }

  /** Every pairing made joins an anchor to a later peak inside its window. */
  lemma LandmarksArePairings(peaks: seq<Peak>, c: SpectrogramConfig, rng: (nat, nat) -> nat)
    requires ValidConfig(c)
    ensures forall k :: 0 <= k < |Landmarks(peaks, c, rng)| ==> IsPairing(peaks, c, Landmarks(peaks, c, rng)[k])
  {
    var order := TimeOrder(peaks);
    var bs := Blocks(peaks, c, order, rng);
    var ls := Landmarks(peaks, c, rng);
    forall k | 0 <= k < |ls|
      ensures IsPairing(peaks, c, ls[k])
    {
      assert ls[k] in Flatten(bs);
      FlattenMember(bs, ls[k]);
      var i :| 0 <= i < |bs| && ls[k] in bs[i];
      AnchorLandmarksArePairings(peaks, c, order, i, rng);
    }
  }

  /** The peaks anchor `a` may be paired with: later in the sweep order and
      inside the window. Defined without reference to the sweep. */
  function ValidTargets(peaks: seq<Peak>, c: SpectrogramConfig, a: nat): set<nat>
    requires ValidConfig(c) && a < |peaks|
  {
    set x | 0 <= x < |peaks| && Before(peaks, a, x) && InWindowOf(peaks, c, peaks[a], x)
  }

  /** The collected targets of the anchor at sweep position `p` are its valid targets. */
  lemma CollectedAreValid(peaks: seq<Peak>, c: SpectrogramConfig, order: seq<nat>, p: nat)
    requires ValidConfig(c) && IsTimeOrder(peaks, order) && p < |order|
    ensures |ValidTargets(peaks, c, order[p])| == |CollectedTargets(peaks, c, order, p)|
  {
    var valid := CollectedTargets(peaks, c, order, p);
    var a := order[p];
    CollectedMembers(peaks, c, order, p);
    DistinctCardinality(valid);
    var vs := Elements(valid);
    var ts := ValidTargets(peaks, c, a);
    forall x | x in vs
      ensures x in ts
    {
    }
    forall x | x in ts
      ensures x in vs
    {
    }
    assert vs == ts;
    assert |vs| == |valid|;
  }

  /** Fan-out: every anchor is paired with exactly `min(5, #valid targets)`
      distinct targets, so never with more than five. */
  lemma FanOut(peaks: seq<Peak>, c: SpectrogramConfig, rng: (nat, nat) -> nat, a: nat)
    requires ValidConfig(c) && a < |peaks|
    ensures CountAnchor(Landmarks(peaks, c, rng), a) == Min(NUM_TARGET_PEAKS, |ValidTargets(peaks, c, a)|)
    ensures CountAnchor(Landmarks(peaks, c, rng), a) <= NUM_TARGET_PEAKS
  {
    var order := TimeOrder(peaks);
    var p := IndexOf(order, a);
    TimeOrderDistinct(peaks, order);
    CountFlatten(Blocks(peaks, c, order, rng), order, p);
    CollectedAreValid(peaks, c, order, p);
  }

  /** The fingerprint and the anchor's offset in ms for one pairing. */
  function Emit(peaks: seq<Peak>, c: SpectrogramConfig, l: Landmark): (e: (Fingerprint, nat))
    requires ValidConfig(c) && l.anchor < |peaks| && l.target < |peaks|
    ensures e.0.freq1 <= e.0.freq2
    ensures e.0.timeDelta == DiffMs(peaks[l.anchor], peaks[l.target], c)
    ensures e.1 == OffsetMs(peaks[l.anchor], c)
  {
    (CreateFingerprint(peaks[l.anchor], peaks[l.target], c), OffsetMs(peaks[l.anchor], c))
  }

  /** The output loop of `generate_fingerprints` over the pairings `ls`:
      every key is canonical and its time distance lies in the window, and
      every offset is its anchor's time in ms. */
  function FingerprintsOf(peaks: seq<Peak>, c: SpectrogramConfig, ls: seq<Landmark>): (fps: seq<(Fingerprint, nat)>)
    requires ValidConfig(c)
    requires forall k :: 0 <= k < |ls| ==> ls[k].anchor < |peaks| && ls[k].target < |peaks| && IsPairing(peaks, c, ls[k])
    ensures |fps| == |ls|
    ensures forall k :: 0 <= k < |fps| ==>
              && InWindow(fps[k].0.timeDelta)
              && fps[k].0.freq1 <= fps[k].0.freq2
              && peaks[ls[k].anchor].timeBin <= peaks[ls[k].target].timeBin
              && fps[k].1 == OffsetMs(peaks[ls[k].anchor], c)
              && fps[k].0 == CreateFingerprint(peaks[ls[k].anchor], peaks[ls[k].target], c)
  {
    var fps := seq(|ls|, k requires 0 <= k < |ls| => Emit(peaks, c, ls[k]));
    forall k | 0 <= k < |fps|
      ensures InWindow(fps[k].0.timeDelta) && fps[k].0.freq1 <= fps[k].0.freq2
      ensures peaks[ls[k].anchor].timeBin <= peaks[ls[k].target].timeBin
    {
      assert IsPairing(peaks, c, ls[k]);
      assert fps[k] == Emit(peaks, c, ls[k]);
    }
    fps
  }

  /** `generate_fingerprints`: one (key, anchor offset) per pairing, at most
      five per peak. */
  function GenerateFingerprints(peaks: seq<Peak>, c: SpectrogramConfig, rng: (nat, nat) -> nat)
    : (fps: seq<(Fingerprint, nat)>)
    requires ValidConfig(c)
    ensures |fps| == |Landmarks(peaks, c, rng)|
    ensures |fps| <= NUM_TARGET_PEAKS * |peaks|
    ensures forall k :: 0 <= k < |fps| ==>
              && InWindow(fps[k].0.timeDelta)
              && fps[k].0.freq1 <= fps[k].0.freq2
    ensures forall k :: 0 <= k < |fps| ==>
              var l := Landmarks(peaks, c, rng)[k];
              && IsPairing(peaks, c, l)
              && peaks[l.anchor].timeBin <= peaks[l.target].timeBin
              && fps[k].1 == OffsetMs(peaks[l.anchor], c)
              && fps[k].0 == CreateFingerprint(peaks[l.anchor], peaks[l.target], c)
  {
    LandmarksArePairings(peaks, c, rng);
    FingerprintsOf(peaks, c, Landmarks(peaks, c, rng))
  }
}
