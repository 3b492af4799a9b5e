# MP3-to-MIDI converter: the analysis and note pipeline

The converter is a single browser script, `script.js`. It decodes an audio
file and scans the first channel in frames of 2048 samples, stepping by 1024
samples. For each frame it takes the first index of the largest absolute
sample. It turns that index into a pseudo-frequency,
`index * sampleRate / frameSize`, and keeps the frame only when the value lies
strictly between 50 and 2000. Each kept frame contributes a pitch, and the
contour of pitches is quantized into levels: `0..numBins` when the bin count
is positive and the pitches are not all equal, `numBins..0` for a negative
count, and `NaN` when every pitch is equal. The level sequence is then cut
into runs of equal levels, and each run except the last becomes a MIDI note.

This project models that pipeline, without the browser around it, in six
modules (plus `Wrappers`, which holds an `Option` type):

- `Frames`: the offsets the frame loop visits. This is the loop
  `for (i = 0; i < data.length - frameSize; i += hop)`, which never analyses
  the frame that starts exactly at `data.length - frameSize`.
- `Analysis`: the per-frame peak search, `indexOf` of `Math.max` (the first
  maximum wins), and the band gate. The gate is stated without division, as
  `50 * frameSize < index * sampleRate < 2000 * frameSize`, and a lemma proves
  it equal to the gate on the exact pseudo-frequency. It also holds the whole
  analysis loop.
- `Quantizer`: `quantize(values, numBins)` over reals. `Math.round(x)` is
  `floor(x + 0.5)`.
- `LevelTable`: `[...new Set(q)]`, the distinct levels in order of first
  occurrence.
- `Notes`: the run-length note loop, exactly as written:
  - The run still open when the loop ends is never emitted. A constant level
    sequence therefore yields no notes at all.
  - The pitch of a run is `uniqueBins[level] + 60`. The level is used as an
    index into the first-occurrence table, not as an offset, and nothing
    clamps the result.
  - When the level is not a valid index, the lookup is `undefined` and the
    note's pitch is modelled as `None`.
- `Converter`: the handler from the channel data to one of three outcomes:
  - "no tonal content", the early return at lines 62-66;
  - the list of notes handed to the MIDI writer;
  - `UndefinedLevels`, where the model stops: every pitch of the contour is
    the same, so the quantizer's levels are all `NaN`. The handler itself
    carries on from there (see "Left out").

`Wrappers.Option` stands for a JavaScript value that may be `NaN` or
`undefined`.

Three behaviours of `script.js` are easy to misread, and the model keeps
them as written:
- the run still open when the note loop ends is never emitted (lines 78-85);
- a note's pitch is `uniqueBins[level] + 60`, not clamped to the MIDI range
  (line 81);
- when every pitch is equal the step is 0 (`NaN` when `numBins` is 0) and
  every level is `NaN`
  (lines 11-12); there is no fallback to level 0.

## Model

| member | source | states |
|---|---|---|
| Frames.OffsetsFrom | script.js:47 | every visited offset leaves a whole frame strictly inside the buffer (`offset + frameSize < length`), and the scan from `i` visits nothing exactly when `i` is already at or past `length - frameSize` |
| Frames.OffsetsFromShape | script.js:47 | from `i` the scan visits `i, i + hop, i + 2*hop, …` and stops at the first of these that is not below `length - frameSize` |
| Frames.OffsetsAreMultiples | script.js:47 | the k-th analysed frame starts at sample `k * hop` |
| Frames.OffsetIndexBound | script.js:47-48 | the frame at `k * hop` is analysed if and only if `k * hop < length - frameSize` |
| Frames.Offsets | script.js:47 | every analysed frame lies strictly inside the buffer, and there is no frame exactly when the buffer is not longer than one frame |
| Analysis.ArgMax | script.js:50 | the chosen index holds the maximum, and every earlier element is strictly smaller: the position `indexOf` finds for `Math.max` |
| Analysis.FindPeak | script.js:49-50 | the one-pass scan returns an index of the frame whose magnitude is at least every other one and strictly above every earlier one, which is the unique first maximum |
| Analysis.SilentFramePeaksAtZero | script.js:49-50 | an all-zero frame peaks at index 0 |
| Analysis.InBand | script.js:51-52 | the division-free gate accepts only a positive peak index, a positive sample rate and a positive frame size |
| Analysis.InBandIffFreqInRange | script.js:51-52 | the division-free gate accepts a peak index exactly when `index * (sampleRate / frameSize)` lies strictly between 50 and 2000 |
| Analysis.PeakAtZeroRejected | script.js:51-52 | a peak at index 0 has frequency 0 and never passes the gate |
| Analysis.FrameResult | script.js:48-52 | a frame adds at most one contour entry, and it adds one exactly when its peak passes the gate |
| Analysis.AnalyzeFrame | script.js:48-52 | slicing the frame, finding its peak and applying the gate yields exactly what the frame adds to the contour |
| Analysis.SilentFrameRejected | script.js:48-52 | a silent frame is rejected and adds nothing to the contour |
| Analysis.DetectAt | script.js:47-52 | the frames at the given offsets add at most one contour entry each |
| Analysis.DetectAtInBand | script.js:51-52 | every contour entry is a pseudo-frequency strictly between 50 and 2000 |
| Analysis.DetectAtEmpty | script.js:52 | the contour is empty if and only if no analysed frame passes the gate |
| Analysis.DetectedBounds | script.js:47-52 | the contour has at most one entry per analysed frame, and it is empty for a buffer not longer than one frame |
| Analysis.AnalyzeFrames | script.js:47-52 | the analysis loop yields, in frame order, the pseudo-frequency of each analysed frame that passes the gate and nothing else |
| Quantizer.Min | script.js:9 | `Math.min(...values)` is one of the values and is no larger than any of them |
| Quantizer.Max | script.js:10 | `Math.max(...values)` is one of the values and is no smaller than any of them |
| Quantizer.Round | script.js:12 | `Math.round` returns the integer within half a unit of its argument, with halves rounded up |
| Quantizer.Quantize | script.js:8-13 | the levels align index by index with the values; an empty input gives no levels; and the levels are undefined (`NaN`) exactly when all values are equal |
| Quantizer.Level | script.js:11-12 | `min + level * step` is the grid point nearest to the value: within half a step of it, for either sign of the bin count |
| Quantizer.LevelBounds | script.js:11-12 | with a positive bin count, every value between min and max gets a level in `[0, numBins]` |
| Quantizer.LevelEndpoints | script.js:9-12 | the minimum gets level 0 and the maximum gets level `numBins` |
| Quantizer.LevelMonotone | script.js:11-12 | with a positive bin count, a larger value never gets a smaller level (with a negative count the step is negative and the order reverses) |
| Quantizer.QuantizeNearest | script.js:8-12 | for values that are not all equal and a non-zero bin count, the i-th quantized level is the level of the i-th value, and reading it back as `min + level * step` lands within half a step of that value |
| Quantizer.QuantizeProperties | script.js:8-13 | for values that are not all equal and a positive bin count the levels are defined, one per value, in `[0, numBins]`; the minimum maps to 0 and the maximum to `numBins`; and the order of the values is preserved |
| Quantizer.QuantizeZeroBins | script.js:11-12 | with `numBins = 0` and values that are not all equal the step is infinite and every level is 0 |
| LevelTable.FirstOccurrences | script.js:72 | the table holds no duplicates, holds exactly the levels that occur, is no longer than the level sequence, and starts with the first level |
| LevelTable.FirstOccurrenceOrder | script.js:72 | the table lists its levels in the order of their first occurrence in the level sequence (Set insertion order) |
| LevelTable.UniqueBins | script.js:72 | the Set-based scan builds the first-occurrence table: duplicate-free, with exactly the levels of the sequence |
| Notes.Runs | script.js:75-85 | a level sequence has runs exactly when it is non-empty |
| Notes.ExpandRuns | script.js:75-85 | the runs partition the level sequence: expanding them gives it back |
| Notes.RunsExpand | script.js:75-85 | the split is unique: the runs of the expansion of any maximal run list are that list |
| Notes.RunsMaximal | script.js:78-84 | every run is non-empty, neighbouring runs have different levels, and there are no more runs than levels |
| Notes.RunsFirst | script.js:75 | the first run carries the first level (the loop's initial `last`) |
| Notes.RunsLast | script.js:78-85 | the last run carries the last level |
| Notes.EmittedMaximal | script.js:78-85 | the emitted runs are maximal; the final run, which is never emitted, carries the last level, has length at least 1, and differs in level from the last emitted run |
| Notes.EmittedLength | script.js:75-85 | the emitted durations and the unemitted final run together account for every level |
| Notes.EmitsNothingIffConstant | script.js:75-85 | the loop emits no note if and only if every level equals the first one |
| Notes.NotePitch | script.js:81 | the pitch `uniqueBins[level] + 60` is defined exactly when the level is a valid index into the table |
| Notes.EmittedNotes | script.js:75-85 | the loop hands the MIDI writer one note per emitted run, that is, per maximal run except the final one |
| Notes.EmittedNotesPointwise | script.js:81 | note k carries the looked-up pitch of emitted run k and that run's length as its duration |
| Notes.NotesOfDuration | script.js:76-83 | the durations of the notes add up to the lengths of their runs |
| Notes.ExtractNotes | script.js:75-85 | the note loop emits one note per run except the last, and ends holding the final run's level and length in `last` and `duration`; these durations sum to the number of levels |
| Notes.ConsecutivePitchesDiffer | script.js:72-81 | with a duplicate-free table, neighbouring notes whose pitches are both defined never share a pitch |
| Notes.PitchRange | script.js:72-81 | with levels in `[0, numBins]` and the first-occurrence table, every defined pitch lies in `[60, 60 + numBins]` |
| Notes.LookupQuirksExample | script.js:72-81 | for the levels 1, 70, 0 the loop emits two notes: the first has pitch 130, because level 1 looks up table entry 1 (70); the second has an undefined pitch, because there is no table entry 70; and the final level 0 is never emitted |
| Notes.TrackBounds | script.js:75-85 | the notes cover fewer frames than there are levels, every duration is at least 1, and with levels in `[0, numBins]` every defined pitch lies in `[60, 60 + numBins]` |
| Converter.Pitches | script.js:52 | each kept frame contributes exactly one pitch, in order |
| Converter.Pipeline | script.js:39-85 | the handler stops with "no tonal content" exactly when no frame passes the gate, which is always the case for a buffer of at most 2048 samples; the levels are undefined exactly when the contour is non-empty and its pitches are all equal |
| Converter.Convert | script.js:39-85 | the handler ends with "no tonal content" exactly when no frame passes the gate, and always so for a buffer of at most 2048 samples; otherwise its notes' durations are at least 1 and sum to fewer than the number of kept frames, and with a positive bin count every defined pitch lies in `[60, 60 + numBins]` |

## Left out

- Audio decoding (`getAudioBuffer`, lines 1-6, 36, 39) is not modelled. The model starts from the first channel's samples, given as a sequence of reals, and from the sample rate, given as a natural number.
- The DOM, the progress bar, status texts, `alert` and the `setTimeout` yields (lines 15-35, 54-59, 63-64, 68-69, 95-100) are user interface, not computation.
- The error handler (lines 97-101) is not modelled. It catches decoding failures, and also the `RangeError` described under Quantizer.Min below.
- Quantizer.Min, Quantizer.Max: `Math.min(...values)` and `Math.max(...values)` (lines 9-10) pass the whole contour as call arguments. A contour longer than the engine's argument limit makes the call throw a `RangeError`, and the handler then ends with "Error processing file." That limit is engine-specific, at tens to hundreds of thousands of kept frames, and it is not modelled. `Min`, `Max` and Converter.Convert are total.
- `totalFrames` (line 44) is computed but never used.
- The pitch formula `69 + 12 * log2(freq / 440)` (line 52) is a parameter, `pitchOf`. There is no logarithm over the reals to model it with.
- Floating-point rounding is not modelled. Samples, frequencies and pitches are exact reals, and the band gate is exact.
- The MIDI writer (`Track`, `NoteEvent`, `Writer`, the `'T' + duration` tick string, lines 73-74, 81, 87) is an external library. The model stops at the pitch and duration each note is built from.
- The `Blob` and the download link (lines 88-93) are not modelled.
- A bin count that `parseInt` turns into `NaN` (line 17) is not modelled. `numBins` is an integer.
- Converter.Pipeline, Converter.Convert: when every pitch of a non-empty contour is equal, every level is `NaN`, and the model stops with `UndefinedLevels`. The source carries on. With one kept frame, `q` is `[NaN]`, the note loop never runs, and the source writes a MIDI file with an empty track. With k >= 2 kept frames, `q[i] === last` is false for `NaN` (line 79), so the loop emits k - 1 notes of duration 1, each with pitch `uniqueBins[NaN] + 60`, which is `NaN`.
- Converter.Convert: does not state a pitch range for a zero or negative bin count. With zero bins every level is 0 (Quantizer.QuantizeZeroBins). With a negative count, levels fall in `[numBins, 0]`; that case is not characterised.
- Quantizer.QuantizeProperties: states bounds, endpoints and monotonicity only for a positive bin count.
