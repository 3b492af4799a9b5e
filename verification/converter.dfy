/** The conversion handler (script.js, lines 39-85) without its user
    interface: frame analysis, the early exit on an empty contour,
    quantization, the first-occurrence table and the note loop. The MIDI
    writer that receives the notes is not part of this model. */
module Converter {
  import opened Wrappers
  import Frames
  import Analysis
  import Quantizer
  import LevelTable
  import Notes

  /** `frameSize` and `hop` of the handler. */
  const FrameSize: nat := 2048
  const Hop: nat := 1024

  /** What the handler ends with. `NoTonalContent` is the early return of
      lines 62-66; `UndefinedLevels` stands for a contour whose values are
      all equal, which the quantizer turns into `NaN` levels; otherwise the
      notes handed to the MIDI writer. */
  datatype Outcome =
    | NoTonalContent
    | UndefinedLevels
    | Track(notes: seq<Notes.NoteEvent>)

  /** The pitch contour: `pitchOf`, standing for `69 + 12 * log2(f / 440)`,
      applied to each accepted pseudo-frequency. */
  function Pitches(freqs: seq<real>, pitchOf: real -> real): (p: seq<real>)
    ensures |p| == |freqs|
  {
    seq(|freqs|, i requires 0 <= i < |freqs| => pitchOf(freqs[i]))
  }

  /** The handler as a composition of the functional definitions. It stops
      early exactly when no frame passes the band test, which is always the
      case for a buffer of at most one frame, and the levels are undefined
      exactly when the contour holds pitches that are all equal. */
  function Pipeline(data: seq<real>, sampleRate: nat, numBins: int, pitchOf: real -> real): (r: Outcome)
    ensures r.NoTonalContent? <==> Analysis.Detected(data, sampleRate, FrameSize, Hop) == []
    ensures |data| <= FrameSize ==> r.NoTonalContent?
    ensures r.UndefinedLevels? <==>
      var p := Pitches(Analysis.Detected(data, sampleRate, FrameSize, Hop), pitchOf);
      |p| > 0 && Quantizer.Min(p) == Quantizer.Max(p)
  {
    Analysis.DetectedBounds(data, sampleRate, FrameSize, Hop);
    var freqs := Analysis.Detected(data, sampleRate, FrameSize, Hop);
    if |freqs| == 0 then NoTonalContent
    else
      match Quantizer.Quantize(Pitches(freqs, pitchOf), numBins)
      case None => UndefinedLevels
      case Some(q) => Track(Notes.EmittedNotes(q, LevelTable.FirstOccurrences(q)))
  }

  /** The handler's steps, run with the loops of the source. Nothing reaches
      the MIDI writer when no frame passes the band test; otherwise every
      note stands for at least one frame, and the notes together cover
      fewer frames than the contour holds, since the final run is dropped. */
  method Convert(data: seq<real>, sampleRate: nat, numBins: int, pitchOf: real -> real) returns (out: Outcome)
    ensures out == Pipeline(data, sampleRate, numBins, pitchOf)
    ensures out.NoTonalContent? <==> Analysis.Detected(data, sampleRate, FrameSize, Hop) == []
    ensures |data| <= FrameSize ==> out.NoTonalContent?
    ensures out.Track? ==>
      Notes.TotalDuration(out.notes) < |Analysis.Detected(data, sampleRate, FrameSize, Hop)|
    ensures out.Track? ==> forall k :: 0 <= k < |out.notes| ==> out.notes[k].duration >= 1
    ensures out.Track? && numBins > 0 ==>
      forall k :: 0 <= k < |out.notes| && out.notes[k].pitch.Some? ==>
        60 <= out.notes[k].pitch.value <= 60 + numBins
  {
    var freqs := Analysis.AnalyzeFrames(data, sampleRate, FrameSize, Hop);
    if |freqs| == 0 {
      return NoTonalContent;
    }
    var pitches := Pitches(freqs, pitchOf);
    var quantized := Quantizer.Quantize(pitches, numBins);
    if quantized.None? {
      return UndefinedLevels;
    }
    var q := quantized.value;
    var table := LevelTable.UniqueBins(q);
    var notes, last, duration := Notes.ExtractNotes(q, table);
    if numBins > 0 {
      Quantizer.QuantizeProperties(pitches, numBins);
    }
    Notes.TrackBounds(q, numBins);
    out := Track(notes);
  }

}
