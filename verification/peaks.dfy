/** Peak extraction (src/peaks.rs): every strict local maximum of each
    frame's magnitude row, endpoints included when they beat their single
    neighbour. Magnitudes are compared only, so `real` stands in for `f32`. */
module Peaks {
  import opened Common
  import opened Fft

  /** A point of the time-frequency grid: frame index, bin index, magnitude. */
  datatype Peak = Peak(timeBin: nat, freqBin: nat, magnitude: real)

  /** The configurations for which the bin conversions are finite numbers. */
  predicate ValidConfig(c: SpectrogramConfig) {
    c.windowSize > 0 && c.sampleRate > 0.0
  }

  /** `Peak::frequency_hz`: bin index times the width of one bin. */
  function FrequencyHz(p: Peak, c: SpectrogramConfig): (hz: real)
    requires ValidConfig(c)
    ensures hz >= 0.0
    ensures p.freqBin == 0 <==> hz == 0.0
  {
    p.freqBin as real * c.sampleRate / c.windowSize as real
  }

  /** `Peak::time_seconds`: frame index times the hop duration. */
  function TimeSeconds(p: Peak, c: SpectrogramConfig): (t: real)
    requires ValidConfig(c)
    ensures t >= 0.0
    ensures p.timeBin * c.stride == 0 <==> t == 0.0
  {
    (p.timeBin * c.stride) as real / c.sampleRate
  }

  /** A higher bin never maps to a lower frequency, and the map is linear. */
  lemma FrequencyHzMonotone(p: Peak, q: Peak, c: SpectrogramConfig)
    requires ValidConfig(c)
    requires p.freqBin <= q.freqBin
    ensures FrequencyHz(p, c) <= FrequencyHz(q, c)
    ensures FrequencyHz(q, c) - FrequencyHz(p, c)
            == (q.freqBin - p.freqBin) as real * c.sampleRate / c.windowSize as real
  {
    var w := c.sampleRate / c.windowSize as real;
    assert w > 0.0;
    assert FrequencyHz(p, c) == p.freqBin as real * w;
    assert FrequencyHz(q, c) == q.freqBin as real * w;
    assert (q.freqBin - p.freqBin) as real * w == q.freqBin as real * w - p.freqBin as real * w;
  }

  /** A later frame never maps to an earlier time, and the time between two
      peaks depends only on the difference of their frame indices. */
  lemma TimeSecondsMonotone(p: Peak, q: Peak, c: SpectrogramConfig)
    requires ValidConfig(c)
    requires p.timeBin <= q.timeBin
    ensures TimeSeconds(p, c) <= TimeSeconds(q, c)
    ensures TimeSeconds(q, c) - TimeSeconds(p, c) == ((q.timeBin - p.timeBin) * c.stride) as real / c.sampleRate
  {
    var d := q.timeBin - p.timeBin;
    assert q.timeBin * c.stride == p.timeBin * c.stride + d * c.stride;
    var h := 1.0 / c.sampleRate;
    assert h > 0.0;
    assert TimeSeconds(p, c) == (p.timeBin * c.stride) as real * h;
    assert TimeSeconds(q, c) == (q.timeBin * c.stride) as real * h;
  }

  /** With the default configuration, bin 46 is 2156.25 Hz and frame 150 starts at 1.6 s. */
  lemma DefaultConfigConversions()
    ensures ValidConfig(DefaultConfig)
    ensures FrequencyHz(Peak(150, 46, 0.0), DefaultConfig) == 2156.25
    ensures TimeSeconds(Peak(150, 46, 0.0), DefaultConfig) == 1.6
  {
  }

  /** Bin `i` is strictly larger than every neighbouring bin that exists. */
  predicate IsLocalMax(m: seq<real>, i: nat)
    requires i < |m|
  {
    forall j :: 0 <= j < |m| && (j + 1 == i || j == i + 1) ==> m[i] > m[j]
  }

  /** The three cases the extractor tests: the first bin against its right
      neighbour, the last against its left one, interior bins against both. */
  lemma LocalMaxCases(m: seq<real>, i: nat)
    requires 2 <= |m| && i < |m|
    ensures i == 0 ==> (IsLocalMax(m, i) <==> m[0] > m[1])
    ensures i == |m| - 1 ==> (IsLocalMax(m, i) <==> m[i] > m[i - 1])
    ensures 0 < i < |m| - 1 ==> (IsLocalMax(m, i) <==> m[i] > m[i - 1] && m[i] > m[i + 1])
  {
    if i > 0 {
      assert IsLocalMax(m, i) ==> m[i] > m[i - 1];
    }
    if i + 1 < |m| {
      assert IsLocalMax(m, i) ==> m[i] > m[i + 1];
    }
  }

  /** The peaks of frame `timeBin` among its first `n` bins, in bin order. */
  function PeaksBelow(m: seq<real>, timeBin: nat, n: nat): (ps: seq<Peak>)
    requires n <= |m|
    ensures forall k :: 0 <= k < |ps| ==>
              ps[k].timeBin == timeBin && ps[k].freqBin < n && ps[k].magnitude == m[ps[k].freqBin]
    ensures forall k, l :: 0 <= k < l < |ps| ==> ps[k].freqBin < ps[l].freqBin
    ensures forall p :: p in ps <==>
              p.timeBin == timeBin && p.freqBin < n && IsLocalMax(m, p.freqBin) && p.magnitude == m[p.freqBin]
  {
    if n == 0 then []
    else PeaksBelow(m, timeBin, n - 1) + (if IsLocalMax(m, n - 1) then [Peak(timeBin, n - 1, m[n - 1])] else [])
  }

  /** The peaks of one frame: all its local maxima, in increasing bin order. */
  function FramePeaks(m: seq<real>, timeBin: nat): seq<Peak> {
    PeaksBelow(m, timeBin, |m|)
  }

  /** `find_frequency_peaks`: reads `magnitudes[1]` and
      `magnitudes[len - 2]`, so fewer than two bins make it panic. */
  method FindFrequencyPeaks(m: seq<real>, timeBin: nat) returns (peaks: seq<Peak>)
    requires |m| >= 2
    ensures peaks == FramePeaks(m, timeBin)
    ensures forall p :: p in peaks <==>
              p.timeBin == timeBin && p.freqBin < |m| && IsLocalMax(m, p.freqBin) && p.magnitude == m[p.freqBin]
    ensures forall k, l :: 0 <= k < l < |peaks| ==> peaks[k].freqBin < peaks[l].freqBin
  {
    var n := |m|;
    peaks := [];
    LocalMaxCases(m, 0);
    if m[0] > m[1] {
      peaks := peaks + [Peak(timeBin, 0, m[0])];
    }
    var i := 1;
    while i < n - 1
      invariant 1 <= i <= n - 1
      invariant peaks == PeaksBelow(m, timeBin, i)
    {
      LocalMaxCases(m, i);
      if m[i] > m[i - 1] && m[i] > m[i + 1] {
        peaks := peaks + [Peak(timeBin, i, m[i])];
      }
      i := i + 1;
    }
    LocalMaxCases(m, n - 1);
    if m[n - 1] > m[n - 2] {
      peaks := peaks + [Peak(timeBin, n - 1, m[n - 1])];
    }
  }

  /** Two neighbouring bins are never both peaks, because the comparisons are strict. */
  lemma NoAdjacentPeaks(m: seq<real>, timeBin: nat)
    ensures forall k :: 0 <= k < |FramePeaks(m, timeBin)| - 1 ==>
              FramePeaks(m, timeBin)[k].freqBin + 1 < FramePeaks(m, timeBin)[k + 1].freqBin
  {
    var ps := FramePeaks(m, timeBin);
    forall k | 0 <= k < |ps| - 1
      ensures ps[k].freqBin + 1 < ps[k + 1].freqBin
    {
      assert ps[k] in ps && ps[k + 1] in ps;
    }
  }

  /** Bins without a local maximum contribute no peaks. */
  lemma {:induction false} NoLocalMaxNoPeaks(m: seq<real>, timeBin: nat, n: nat)
    requires n <= |m|
    requires forall i :: 0 <= i < n ==> !IsLocalMax(m, i)
    ensures PeaksBelow(m, timeBin, n) == []
  {
    if n > 0 {
      NoLocalMaxNoPeaks(m, timeBin, n - 1);
    }
  }

  /** Strictly rising magnitudes have no interior maximum: the only peak is the last bin. */
  lemma RisingFrameHasOnePeak(m: seq<real>, timeBin: nat)
    requires |m| >= 2
    requires forall i :: 0 < i < |m| ==> m[i - 1] < m[i]
    ensures FramePeaks(m, timeBin) == [Peak(timeBin, |m| - 1, m[|m| - 1])]
  {
    var n := |m|;
    var below := PeaksBelow(m, timeBin, n - 1);
    forall i | 0 <= i < n - 1
      ensures !IsLocalMax(m, i)
    {
      assert m[i] < m[i + 1];
    }
    NoLocalMaxNoPeaks(m, timeBin, n - 1);
    LocalMaxCases(m, n - 1);
    assert FramePeaks(m, timeBin) == below + (if IsLocalMax(m, n - 1) then [Peak(timeBin, n - 1, m[n - 1])] else []);
  }

  /** Peaks of the first `n` frames, frame by frame. */
  function PeaksOfFrames(data: seq<seq<real>>, n: nat): (ps: seq<Peak>)
    requires n <= |data|
    ensures forall k :: 0 <= k < |ps| ==> ps[k].timeBin < n
    ensures forall k, l :: 0 <= k < l < |ps| ==> ps[k].timeBin <= ps[l].timeBin
    ensures forall p :: p in ps <==>
              p.timeBin < n && p.freqBin < |data[p.timeBin]| && IsLocalMax(data[p.timeBin], p.freqBin)
              && p.magnitude == data[p.timeBin][p.freqBin]
  {
    if n == 0 then []
    else PeaksOfFrames(data, n - 1) + FramePeaks(data[n - 1], n - 1)
  }

  /** `extract_peaks`: concatenates the peaks of every frame in frame order. */
  method ExtractPeaks(s: Spectrogram) returns (peaks: seq<Peak>)
    requires forall t :: 0 <= t < |s.data| ==> |s.data[t]| >= 2
    ensures peaks == PeaksOfFrames(s.data, |s.data|)
    ensures forall k :: 0 <= k < |peaks| ==> peaks[k].timeBin < |s.data|
    ensures forall k, l :: 0 <= k < l < |peaks| ==> peaks[k].timeBin <= peaks[l].timeBin
    ensures forall p :: p in peaks <==>
              p.timeBin < |s.data| && p.freqBin < |s.data[p.timeBin]| && IsLocalMax(s.data[p.timeBin], p.freqBin)
              && p.magnitude == s.data[p.timeBin][p.freqBin]
  {
    peaks := [];
    var t := 0;
    while t < |s.data|
      invariant 0 <= t <= |s.data|
      invariant peaks == PeaksOfFrames(s.data, t)
    {
      var framePeaks := FindFrequencyPeaks(s.data[t], t);
      peaks := peaks + framePeaks;
      t := t + 1;
    }
  }
}
