# Landmark audio fingerprinting: a Dafny model

This project models the analysis-and-matching core of `audio_fingerprint`, a
landmark-based audio recogniser. The pipeline it models has four stages:

1. **Spectrogram framing** (`fft.dfy`, `src/fft.rs`). The samples are cut into
   overlapping windows of `window_size` samples, `stride` apart. Each window
   keeps the first `window_size / 2` magnitudes of its spectrum. The number of
   windows is `(len - window_size) / stride + 1`. In a debug build this
   expression panics when there are fewer samples than one window (`usize`
   underflow) or when the stride is zero (division by zero). The model
   returns those two panics as errors (`NumWindows`). In a release build the
   subtraction wraps instead, and only the zero stride panics
   (`NumWindowsRelease`). The transform itself is a parameter.
2. **Peak extraction** (`peaks.dfy`, `src/peaks.rs`). A peak is every strict
   local maximum of a frame's magnitude row. The first and last bin count as
   peaks when they beat their one neighbour. Peaks are concatenated frame by
   frame. The bin-to-Hz and frame-to-seconds conversions are also here.
3. **Fingerprint generation** (`peak_order.dfy`, `sampling.dfy`,
   `fingerprint.dfy`, `generate_fingerprints` in `src/fingerprint.rs`):
   - The peak indices are stably sorted by time bin.
   - Each anchor collects the later peaks 50–2000 ms away. The scan stops at
     the first peak past 2000 ms.
   - The collected targets are Fisher–Yates shuffled, and the first
     `min(5, n)` are paired with the anchor.
   - Each pair becomes a key (lower Hz, higher Hz, delta ms) together with the
     anchor's offset in ms.
   - The random generator is a parameter, `rng(anchor position, step)`.
4. **Index and recognition** (`index.dfy`, `FingerprintDB` in
   `src/fingerprint.rs`):
   - `add_song` appends one posting `(song_id, offset)` per generated pair to
     the list for its key.
   - `recognize_song` votes for `(song_id, db_offset - query_offset)` buckets
     and reports a bucket with the most votes.

The main results:

- The early-stopping scan collects exactly the in-window later peaks
  (`ScanIsFilter`, `CollectedMembers`).
- Every anchor gets exactly `min(5, #valid targets)` distinct targets
  (`FanOut`).
- Every pairing joins an anchor to a later peak inside its window, and every
  key is canonical (`LandmarksArePairings`, `GenerateFingerprints`).
- The shuffle draws a selection, and every selection is reachable by some
  random stream (`TakeShuffled`, `AnySelectionReachable`,
  `AnyAnchorChoiceReachable`). Since the stream is indexed by sweep position,
  any combination of per-anchor selections comes from one stream
  (`AllAnchorChoicesReachable`).
- The stable sort has exactly one result (`TimeOrderUnique`).
- Indexing appends exactly the song's postings, and the old lists are
  prefixes of the new ones (`InsertAll`, `IndexSong`, `IndexSongPostings`).
- The vote counter equals an independent tally (`CountVotes`).
- Recognition returns `None` exactly when nothing matched. Otherwise it
  returns a bucket whose vote count is maximal (`RecognizeSong`).
- A query made of an indexed song's pairs, all moved back by the same
  amount `s`, gives the bucket (song, `s`) one vote per query pair
  (`ShiftedSnippetVotes`). So the reported bucket has at least that many
  votes.

Modelling choices:

- `f32` values are `real`.
- Rust's saturating `as u32` cast is written out (`Common.CastU32`).
- Unsigned counters are `nat`.
- The vote alignment is a signed `int`; see Findings.

Three facts about the code that a reader might not expect:

- Every strict local maximum of a frame is a peak. There is no per-frame
  limit on the number of peaks (`src/peaks.rs:50-87`).
- The time delta of a key is not symmetric. With anchor and target swapped,
  the negative difference saturates to 0 (`CreateFingerprintSymmetric`).
- The confidence `votes / total_query_fingerprints` carries the comment
  `0.0 to 1.0` (`src/fingerprint.rs:208`), but it can exceed 1. A bucket
  collects more votes than there are query pairs when one song's index
  holds the same key and offset twice, for example after the song is added
  twice (`ConfidenceCanExceedOne`).

The unit test at `src/peaks.rs:105-106` expects the 44.1 kHz values
(1981.0546875 Hz, 1.7414 s). With the 48 kHz default configuration these
conversions give 2156.25 Hz and 1.6 s (`DefaultConfigConversions`).

## Model

| member | source | states |
|---|---|---|
| Common.CastU32 | src/fingerprint.rs:155-156 | `as u32` on a float: 0 for non-positive values, `u32::MAX` past the range, otherwise the value truncated toward zero |
| Common.CastU32Monotone | src/fingerprint.rs:155-160 | the cast preserves order, which the early `break` on the sorted scan relies on |
| Fft.NumWindows | src/fft.rs:57 | in a debug build: fails exactly when the subtraction underflows or the stride is zero, with the underflow reported first; on success the count is exactly the number of full windows that fit |
| Fft.NumWindowsRelease | src/fft.rs:57 | in a release build: fails exactly when the stride is zero; otherwise the count is reduced modulo 2^64 |
| Fft.NumWindowsReleaseAgrees | src/fft.rs:57 | when at least one window fits, the release and the debug count agree |
| Fft.NumWindowsReleaseShortInput | src/fft.rs:57 | 1023 samples with window 1024 and stride 1: the debug build panics, the release build counts 0 windows |
| Fft.FrameRow | src/fft.rs:68-81 | one window's row has exactly `window_size / 2` magnitudes |
| Fft.ComputeSpectrogram | src/fft.rs:35-88 | in a debug build: an error exactly on the two panics; otherwise one row per window, each row the first `window_size / 2` magnitudes of the window starting at `i * stride` |
| Peaks.FrequencyHz | src/peaks.rs:23-28 | a bin's frequency is non-negative and is 0 Hz exactly for bin 0 |
| Peaks.TimeSeconds | src/peaks.rs:30-34 | a frame's time is non-negative and is 0 s exactly when `time_bin * stride` is 0 |
| Peaks.FrequencyHzMonotone | src/peaks.rs:23-28 | bin-to-Hz conversion is increasing and linear in the bin index |
| Peaks.TimeSecondsMonotone | src/peaks.rs:30-34 | frame-to-seconds conversion is increasing and depends only on the frame difference |
| Peaks.DefaultConfigConversions | src/fft.rs:12-18 | the default configuration is usable; bin 46 is 2156.25 Hz and frame 150 is 1.6 s |
| Peaks.LocalMaxCases | src/peaks.rs:59-84 | the three comparisons of the extractor (first bin, interior bins, last bin) each decide exactly "strictly larger than every existing neighbour" |
| Peaks.PeaksBelow | src/peaks.rs:68-76 | the peaks among the first `n` bins are exactly the local maxima there, with their magnitudes, in increasing bin order |
| Peaks.FindFrequencyPeaks | src/peaks.rs:50-87 | the loop yields exactly the frame's local maxima in bin order |
| Peaks.NoAdjacentPeaks | src/peaks.rs:69 | no two neighbouring bins are both peaks, since the comparisons are strict |
| Peaks.NoLocalMaxNoPeaks | src/peaks.rs:68-76 | bins without a local maximum contribute nothing |
| Peaks.RisingFrameHasOnePeak | src/peaks.rs:77-84 | a strictly rising frame has exactly one peak, its last bin |
| Peaks.PeaksOfFrames | src/peaks.rs:42-45 | the concatenated peaks are exactly the local maxima of all frames, ordered by frame |
| Peaks.ExtractPeaks | src/peaks.rs:37-48 | the loop yields every frame's local maxima and nothing else, in nondecreasing time-bin order |
| PeakOrder.InsertByTime | src/fingerprint.rs:146 | inserting a new largest index keeps the list a stable time-bin order of its elements plus the new one |
| PeakOrder.SortByTime | src/fingerprint.rs:145-146 | the stable sort of `0..n` lists each index once, in (time bin, index) order |
| PeakOrder.TimeOrder | src/fingerprint.rs:145-146 | `peak_indices` after sorting is a stable time order of all peak indices |
| PeakOrder.TimeOrderDistinct | src/fingerprint.rs:145 | the sweep order has no repeated index |
| PeakOrder.LaterInOrder | src/fingerprint.rs:153 | the entries after sweep position `i` are exactly the indices that come after `order[i]` in the stable order |
| PeakOrder.TimeOrderUnique | src/fingerprint.rs:146 | any two stable time orders of the same indices are equal, so the sweep order is fully determined |
| Sampling.Swap | src/fingerprint.rs:171 | `swap(j, k)` exchanges two positions, leaves the rest alone, and preserves the multiset |
| Sampling.DrawIndex | src/fingerprint.rs:170 | the drawn index lies in `j..len` |
| Sampling.ShuffleFrom | src/fingerprint.rs:169-172 | the shuffle is a permutation, keeps duplicate-freedom, and never touches settled positions |
| Sampling.TakeShuffled | src/fingerprint.rs:168-175 | the selection has `min(n, len)` distinct entries, all taken from the input |
| Sampling.ShuffleFromDrawsOnly | src/fingerprint.rs:169-172 | the shuffle from step `j` on depends only on the draws from step `j` on |
| Sampling.ShuffleStepTo | src/fingerprint.rs:170-171 | a draw of `k - j` at step `j` swaps position `k` into place |
| Sampling.SteerFrom | src/fingerprint.rs:169-172 | from any state agreeing with a wanted sequence up to `j`, some draws make the shuffle start with the whole wanted sequence |
| Sampling.AnySelectionReachable | src/fingerprint.rs:167-175 | every ordered choice of `min(n, len)` distinct entries is produced by some random stream |
| Fingerprints.HzU32 | src/fingerprint.rs:189-190 | the `u32` frequency is at most `u32::MAX` and, inside the range, is the frequency truncated: no larger, and less than 1 Hz smaller |
| Fingerprints.OffsetMs | src/fingerprint.rs:178 | the anchor offset is at most `u32::MAX` and, inside the range, is the anchor time in ms truncated |
| Fingerprints.DiffMs | src/fingerprint.rs:155-156 | the delta is at most `u32::MAX`; it is 0 when the target is not later, and otherwise, inside the range, the time difference in ms truncated |
| Fingerprints.DiffMsMonotone | src/fingerprint.rs:155-160 | a target in a later frame is never closer in ms to the anchor |
| Fingerprints.DiffMsOfEarlierTarget | src/fingerprint.rs:155-156 | a target not later than the anchor is 0 ms away, since the negative difference saturates |
| Fingerprints.CreateFingerprint | src/fingerprint.rs:188-204 | the key holds the two truncated frequencies, lower first, and the anchor-to-target delta in ms |
| Fingerprints.CreateFingerprintSymmetric | src/fingerprint.rs:192-203 | swapping the peaks keeps the frequency pair; the reversed delta is 0 |
| Fingerprints.ScanTargets | src/fingerprint.rs:153-165 | the scan keeps only candidates inside the 50–2000 ms window and keeps no repeats |
| Fingerprints.FilterWindow | src/fingerprint.rs:158-164 | reference filter: a candidate is kept exactly when it lies in the window |
| Fingerprints.ScanIsFilter | src/fingerprint.rs:158-160 | on time-sorted candidates the early `break` loses no valid target |
| Fingerprints.SweepSuffix | src/fingerprint.rs:153 | the candidates of an anchor are time-sorted, repeat-free, and exactly the later peaks |
| Fingerprints.CollectedTargets | src/fingerprint.rs:150-165 | the collected targets have no repeats |
| Fingerprints.CollectedMembers | src/fingerprint.rs:150-165 | `valid_targets` holds exactly the peaks after the anchor in sweep order whose delta lies in the window |
| Fingerprints.AnchorTargets | src/fingerprint.rs:167-175 | an anchor's picks are `min(5, #valid)` distinct valid targets |
| Fingerprints.AnyAnchorChoiceReachable | src/fingerprint.rs:167-175 | every ordered choice of `min(5, #valid)` distinct valid targets is the outcome for some random stream |
| Fingerprints.AnchorFollowsDraw | src/fingerprint.rs:167-172 | an anchor's picks depend only on the draws at its own sweep position |
| Fingerprints.ChoiceDraws | src/fingerprint.rs:167-172 | for any possible picks of the first `n` anchors, there are draws that produce each of them |
| Fingerprints.AllAnchorChoicesReachable | src/fingerprint.rs:148-175 | any combination of possible picks, one per anchor, is produced by a single random stream |
| Fingerprints.AnchorLandmarks | src/fingerprint.rs:174-180 | an anchor emits `min(5, #valid)` distinct pairings, all from that anchor to one of its picks |
| Fingerprints.AnchorLandmarksArePairings | src/fingerprint.rs:174-180 | each pairing of one anchor joins it to a later peak inside the window |
| Fingerprints.FlattenMember | src/fingerprint.rs:148-182 | each emitted pairing comes from one anchor's block |
| Fingerprints.FlattenDistinct | src/fingerprint.rs:148-182 | anchors visited once each emit no repeated pairing |
| Fingerprints.CountFlatten | src/fingerprint.rs:148-182 | an anchor's pairings in the output are exactly those of its own iteration |
| Fingerprints.Blocks | src/fingerprint.rs:148-182 | iteration `i` emits only pairings of anchor `order[i]`, at most five, without repeats |
| Fingerprints.Landmarks | src/fingerprint.rs:148-182 | the output has at most `5 * #peaks` pairings and no repeats |
| Fingerprints.LandmarksArePairings | src/fingerprint.rs:148-182 | every pairing joins an anchor to a later peak inside its window |
| Fingerprints.CollectedAreValid | src/fingerprint.rs:150-165 | the collected targets number exactly the valid targets, a set defined without the sweep |
| Fingerprints.FanOut | src/fingerprint.rs:174-175 | every peak anchors exactly `min(5, #valid targets)` pairings, so never more than five |
| Fingerprints.Emit | src/fingerprint.rs:176-179 | one pairing's output: a key with the lower frequency first and the anchor-to-target delta, plus the anchor's offset in ms |
| Fingerprints.FingerprintsOf | src/fingerprint.rs:174-180 | for valid pairings, every emitted key is canonical with its delta inside the 50–2000 ms window; the target is never in an earlier frame; the offset is the anchor's time in ms |
| Fingerprints.GenerateFingerprints | src/fingerprint.rs:139-186 | one (key, offset) per pairing: at most `5 * #peaks`, every key canonical with its delta in the window, every offset the anchor's time in ms |
| Index.NewDB | src/fingerprint.rs:38-44 | the new database is empty and holds no postings |
| Index.Insert | src/fingerprint.rs:54-57 | `entry(k).or_insert_with(Vec::new).push(p)` appends `p` to `k`'s list, creating it if absent, and changes no other key |
| Index.PostingsForMembers | src/fingerprint.rs:53-57 | the song's posting `(id, off)` is under key `k` exactly when the pair `(k, off)` was generated |
| Index.InsertAll | src/fingerprint.rs:53-58 | after the loop, every key's list is its old list followed by the song's postings for that key, in generation order |
| Index.InsertExtends | src/fingerprint.rs:53-58 | one more push preserves the loop invariant of `InsertAll` |
| Index.InsertAllKeys | src/fingerprint.rs:53-58 | the loop adds a key exactly when some generated pair carries it |
| Index.InsertAddsOne | src/fingerprint.rs:57 | one push adds exactly one posting to the index |
| Index.InsertAllCount | src/fingerprint.rs:53-58 | the loop adds exactly one posting per generated pair |
| Index.IndexSong | src/fingerprint.rs:53-61 | every generated pair is indexed; old lists survive as prefixes; new keys come only from the pairs; the catalog maps the id to the metadata and is unchanged elsewhere; the counter grows by the index size |
| Index.IndexSongPostings | src/fingerprint.rs:53-58 | indexing adds exactly `#pairs` postings, and under each key exactly the song's postings for it |
| Index.AddSong | src/fingerprint.rs:46-62 | every key the song adds is canonical with its delta in the window, and the index grows by at most `5 * #peaks` keys |
| Index.NewKeysBound | src/fingerprint.rs:53-58 | the index grows by at most one key per generated pair |
| Index.WrappingAlignment | src/fingerprint.rs:83 | the `u32` subtraction as written in a release build: the difference reduced modulo 2^32 |
| Index.WrappingAlignmentUnderflows | src/fingerprint.rs:83 | when the query offset is larger, the wrapped value plus the query offset is the stored offset plus 2^32, not the stored offset |
| Index.WrappingAlignmentExample | src/fingerprint.rs:83 | stored offset 0 and query offset 100 give 4294967196 |
| Index.Alignment | src/fingerprint.rs:83 | database time minus query time: adding the query offset back gives the stored offset |
| Index.AlignmentAgreesWithoutUnderflow | src/fingerprint.rs:83 | without underflow the signed and the wrapped difference agree |
| Index.AlignmentShift | src/fingerprint.rs:83 | adding the same amount to both offsets leaves the alignment unchanged |
| Index.AddVotes | src/fingerprint.rs:82-87 | after the inner loop every bucket holds its old count plus the matches it got from these postings; a bucket exists exactly when it has a vote |
| Index.CountVotes | src/fingerprint.rs:76-88 | the counter equals the independent tally over all (query pair, posting) matches; a bucket exists exactly when its tally is positive |
| Index.TallyIncludes | src/fingerprint.rs:76-88 | every query pair's matches are part of the tally |
| Index.TallyHit | src/fingerprint.rs:76-88 | a positive tally comes from some query pair whose key is in the index |
| Index.VotesEmptyIffNoHit | src/fingerprint.rs:91-99 | the counter is empty exactly when no query key is in the index |
| Index.MatchesInMember | src/fingerprint.rs:82-87 | a posting that votes for a bucket adds at least one match to it |
| Index.TallyShifted | src/fingerprint.rs:76-88 | if every query pair finds the song under its key at its offset plus `s`, the bucket (song, `s`) tallies at least one vote per query pair |
| Index.ShiftedSnippetVotes | src/fingerprint.rs:76-88 | after indexing a song, a query of its pairs moved back by `s` gives the bucket (song, `s`) at least one vote per pair, and hits the index when non-empty |
| Index.MaxKeyExists | src/fingerprint.rs:91 | a non-empty counter has a bucket no other bucket beats |
| Index.RecognizeQuery | src/fingerprint.rs:72-99 | for any query pairs: `None` exactly when no query key is in the index; otherwise the reported bucket's votes are its tally, at least 1, no smaller than any bucket's tally, and the denominator is the positive number of query pairs |
| Index.RecognizeSong | src/fingerprint.rs:64-100 | `None` exactly when no query pair hits the index; otherwise the reported bucket's votes are its tally, at least 1, no smaller than any bucket's tally, and the denominator is the positive number of query pairs |
| Index.IndexOnePair | src/fingerprint.rs:53-58 | indexing one pair appends one posting under its key |
| Index.ConfidenceCanExceedOne | src/fingerprint.rs:95 | after a song is added twice, one query pair gives its bucket two votes, so `votes / total` can exceed 1 |

## Left out

- The forward FFT and the complex norm are left out. `ComputeSpectrogram` takes the magnitude spectrum of a window as a function parameter, which returns as many values as it is given.
- `f32` rounding and NaN are left out. Hz, seconds and milliseconds are computed in `real` and then truncated by the modelled `as u32` cast.
- The confidence is kept as the pair `(votes, totalQuery)` rather than an `f32` quotient.
- `fastrand` is left out. It is replaced by the parameter `rng`, and its range reduction of a raw value to `j..len` is modelled as `j + raw % (len - j)`. `AnySelectionReachable` shows that this abstraction still reaches every possible selection.
- `HashMap` iteration order is left out. `max_by_key` breaks ties by that order; `RecognizeSong` picks any bucket with the most votes.
- `save`, `load` and `load_or_create` are left out, because they are file I/O and `bincode` serialisation.
- The audio decoding, CLI, error types, library glue and logging (`src/audio.rs`, `src/cli.rs`, `src/error.rs`, `src/lib.rs`, `src/main.rs`) are not part of this model.
- Overflow of `usize` and `u32` counters is left out: `total_fingerprints`, vote counts, `time_bin * stride` and `i * stride`. All of them are unbounded `nat`.
- Peaks.FindFrequencyPeaks and Peaks.ExtractPeaks: require at least two magnitudes per row. With fewer, the code reads out of bounds and panics.
- Fft.NumWindows models the debug build, where a short input panics. In a release build the subtraction wraps modulo 2^64 (a 64-bit `usize` is assumed); `NumWindowsRelease` models that count.
- Fft.ComputeSpectrogram models the debug build. In a release build a short input gives either 0 windows, hence an empty spectrogram, or a huge count whose first slice is out of bounds and panics; that path is not modelled.
- Fingerprints.HzU32, Fingerprints.OffsetMs and Fingerprints.DiffMs, and every operation that converts to Hz or ms, require `window_size > 0` and `sample_rate > 0`. The other configurations make the float conversions infinite or NaN.
- Index.MatchResult: `time_offset` is the signed alignment, not the wrapped `u32` of the code; see Findings.

## Findings

| source | as written | input that shows it | evidently intended | confidence | as-written member | corrected member |
|---|---|---|---|---|---|---|
| src/fingerprint.rs:83 | `offset - time_offset` on `u32`: this wraps in a release build and panics in a debug build whenever the query offset exceeds the stored one | stored offset 0 ms, query offset 100 ms (a query clip whose landmark sits later in the clip than in the song) gives 4294967196 instead of -100 | a signed alignment `db_offset - query_offset` | not executed | Index.WrappingAlignmentExample | Index.Alignment |
