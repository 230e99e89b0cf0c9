/** Framing arithmetic of the spectrogram engine (src/fft.rs). The forward
    transform and the complex norm are not modelled: the caller passes the
    magnitude spectrum of a window as an opaque function that returns one
    value per input sample, as a transform planned for `windowSize` does. */
module Fft {
  import opened Common

  datatype SpectrogramConfig = SpectrogramConfig(windowSize: nat, stride: nat, sampleRate: real)

  /** `SpectrogramConfig::default()`: 1024-sample windows, 512-sample hop, 48 kHz. */
  const DefaultConfig: SpectrogramConfig := SpectrogramConfig(1024, 512, 48000.0)

  /** One magnitude row per time frame, plus the configuration that produced it. */
  datatype Spectrogram = Spectrogram(data: seq<seq<real>>, config: SpectrogramConfig)

  /** Why `compute_spectrogram` panics in a debug build: the `usize`
      subtraction `samples.len() - window_size` underflows, or the division by
      `stride` divides by zero. The subtraction is evaluated first, so it is
      the one reported when both apply. A release build only has the second
      (see `NumWindowsRelease`). */
  datatype Panic = SubtractionUnderflow | DivisionByZero

  /** First sample of frame `i`. */
  function FrameStart(i: nat, c: SpectrogramConfig): nat {
    i * c.stride
  }

  /** `(len - window_size) / stride + 1` in a debug build, or the panic that
      expression raises there. On success the count is exactly the number of
      full windows that fit: the last one ends inside the samples and one more
      would not. */
  function NumWindows(numSamples: nat, c: SpectrogramConfig): (r: Result<nat, Panic>)
    ensures r.Err? <==> numSamples < c.windowSize || c.stride == 0
    ensures r == Err(SubtractionUnderflow) <==> numSamples < c.windowSize
    ensures r.Ok? ==> r.value >= 1
    ensures r.Ok? ==> FrameStart(r.value - 1, c) + c.windowSize <= numSamples
    ensures r.Ok? ==> FrameStart(r.value, c) + c.windowSize > numSamples
    ensures r.Ok? ==> forall i :: 0 <= i < r.value ==> FrameStart(i, c) + c.windowSize <= numSamples
  {
    if numSamples < c.windowSize then Err(SubtractionUnderflow)
    else if c.stride == 0 then Err(DivisionByZero)
    else
      var n := (numSamples - c.windowSize) / c.stride + 1;
      FramingBounds(numSamples - c.windowSize, c.stride);
      FrameStartsIncrease(c, n - 1);
      Ok(n)
  }

  /** Integer division by the stride leaves a remainder smaller than the stride. */
  lemma FramingBounds(span: nat, stride: nat)
    requires stride > 0
    ensures (span / stride) * stride <= span
    ensures (span / stride + 1) * stride > span
  {
    var q, m := span / stride, span % stride;
    assert span == q * stride + m;
    assert (q + 1) * stride == q * stride + stride;
  }

  /** Every frame before frame `n` starts no later than frame `n`. */
  lemma FrameStartsIncrease(c: SpectrogramConfig, n: nat)
    ensures forall i :: 0 <= i <= n ==> FrameStart(i, c) <= FrameStart(n, c)
  {
    forall i | 0 <= i <= n
      ensures FrameStart(i, c) <= FrameStart(n, c)
    {
      assert FrameStart(n, c) == FrameStart(i, c) + (n - i) * c.stride;
    }
  }

  /** One past the largest 64-bit `usize`. */
  const USIZE_MODULUS: nat := 0x1_0000_0000_0000_0000

  /** `(len - window_size) / stride + 1` in a release build on a 64-bit
      target: the subtraction and the increment wrap modulo 2^64, and only the
      division by a zero stride panics. */
  function NumWindowsRelease(numSamples: nat, c: SpectrogramConfig): (r: Result<nat, Panic>)
    requires numSamples < USIZE_MODULUS && c.windowSize < USIZE_MODULUS
    ensures r.Err? <==> c.stride == 0
    ensures r.Err? ==> r.error == DivisionByZero
    ensures r.Ok? ==> r.value < USIZE_MODULUS
  {
    if c.stride == 0 then Err(DivisionByZero)
    else Ok((((numSamples - c.windowSize) % USIZE_MODULUS) / c.stride + 1) % USIZE_MODULUS)
  }

  /** With at least one window of samples (and not the very largest `usize`
      sample count) the release build computes the same count as the debug
      build. */
  lemma NumWindowsReleaseAgrees(numSamples: nat, c: SpectrogramConfig)
    requires c.windowSize <= numSamples < USIZE_MODULUS - 1
    ensures NumWindowsRelease(numSamples, c) == NumWindows(numSamples, c)
  {
    if c.stride > 0 {
      var span := numSamples - c.windowSize;
      var q := span / c.stride;
      assert span % USIZE_MODULUS == span by {
        WrapUnchanged(span);
      }
      assert (q + 1) % USIZE_MODULUS == q + 1 by {
        QuotientBound(span, c.stride);
        WrapUnchanged(q + 1);
      }
    }
  }

  /** A value already below 2^64 is unchanged by the wrap. */
  lemma WrapUnchanged(x: nat)
    requires x < USIZE_MODULUS
    ensures x % USIZE_MODULUS == x
  {
  }

  /** Dividing by a positive stride never increases a count. */
  lemma QuotientBound(span: nat, stride: nat)
    requires stride > 0
    ensures span / stride <= span
  {
    var q := span / stride;
    FramingBounds(span, stride);
    MulGrows(q, stride);
  }

  /** Multiplying by a positive factor never decreases a count. */
  lemma MulGrows(q: nat, k: nat)
    requires k > 0
    ensures q <= q * k
  {
    var j: nat := k - 1;
    assert q * k == q * j + q;
  }

  /** In a release build, a window size one sample longer than the input
      with a stride of 1 wraps to zero windows instead of panicking: the
      result is an empty spectrogram. */
  lemma NumWindowsReleaseShortInput()
    ensures NumWindows(1023, DefaultConfig.(stride := 1)) == Err(SubtractionUnderflow)
    ensures NumWindowsRelease(1023, DefaultConfig.(stride := 1)) == Ok(0)
  {
  }

  /** Row `i` of the spectrogram: the first `windowSize / 2` magnitudes of the
      transform of the window starting at `FrameStart(i)`. */
  function FrameRow(samples: seq<real>, c: SpectrogramConfig, magnitudes: seq<real> -> seq<real>, i: nat): (row: seq<real>)
    requires forall w: seq<real> :: |magnitudes(w)| == |w|
    requires FrameStart(i, c) + c.windowSize <= |samples|
    ensures |row| == c.windowSize / 2
  {
    magnitudes(samples[FrameStart(i, c) .. FrameStart(i, c) + c.windowSize])[.. c.windowSize / 2]
  }

  /** `compute_spectrogram`: slices the samples into overlapping frames and
      keeps the non-redundant half of each frame's magnitude spectrum. */
  method ComputeSpectrogram(samples: seq<real>, c: SpectrogramConfig, magnitudes: seq<real> -> seq<real>)
    returns (r: Result<Spectrogram, Panic>)
    requires forall w: seq<real> :: |magnitudes(w)| == |w|
    ensures r.Err? <==> |samples| < c.windowSize || c.stride == 0
    ensures r.Err? ==> NumWindows(|samples|, c) == Err(r.error)
    ensures r.Ok? ==> r.value.config == c
    ensures r.Ok? ==> |r.value.data| == (|samples| - c.windowSize) / c.stride + 1
    ensures r.Ok? ==> forall i :: 0 <= i < |r.value.data| ==> |r.value.data[i]| == c.windowSize / 2
    ensures r.Ok? ==> forall i :: 0 <= i < |r.value.data| ==>
                        FrameStart(i, c) + c.windowSize <= |samples| &&
                        r.value.data[i] == FrameRow(samples, c, magnitudes, i)
  {
    var count := NumWindows(|samples|, c);
    if count.Err? {
      return Err(count.error);
    }
    var numWindows := count.value;
    assert forall j :: 0 <= j < numWindows ==> FrameStart(j, c) + c.windowSize <= |samples|;
    var data: seq<seq<real>> := [];
    var i := 0;
    while i < numWindows
      invariant 0 <= i <= numWindows
      invariant |data| == i
      invariant forall j :: 0 <= j < i ==> |data[j]| == c.windowSize / 2
      invariant forall j :: 0 <= j < i ==> data[j] == FrameRow(samples, c, magnitudes, j)
    {
      var start := FrameStart(i, c);
      assert start + c.windowSize <= |samples|;
      var window := samples[start .. start + c.windowSize];
      var spectrum := magnitudes(window);
      data := data + [spectrum[.. c.windowSize / 2]];
      i := i + 1;
    }
    return Ok(Spectrogram(data, c));
  }
}
