/** Per-frame analysis (script.js, lines 47-52): the first index of the
    largest absolute sample, turned into a pseudo-frequency and kept only
    inside the band (50, 2000). Samples are exact reals. */
module Analysis {
  import Frames

  /** Math.abs */
  function Abs(v: real): real
  {
    if v < 0.0 then -v else v
  }

  /** The magnitudes `frame.map(v => Math.abs(v))`. */
  function Magnitudes(frame: seq<real>): (m: seq<real>)
    ensures |m| == |frame|
  {
    seq(|frame|, j requires 0 <= j < |frame| => Abs(frame[j]))
  }

  /** `k` is the position `indexOf` returns for the maximum of `s`: it holds
      the maximum, and every earlier element is strictly smaller. */
  ghost predicate IsFirstMax(s: seq<real>, k: int)
  {
    && 0 <= k < |s|
    && (forall j :: 0 <= j < |s| ==> s[j] <= s[k])
    && (forall j :: 0 <= j < k ==> s[j] < s[k])
  }

  /** The first index of the maximum of a non-empty sequence: the candidate
      moves only to a strictly larger element. */
  function ArgMax(s: seq<real>): (k: nat)
    requires |s| > 0
    ensures k < |s|
    ensures IsFirstMax(s, k)
  {
    if |s| == 1 then 0
    else
      var p := s[..|s| - 1];
      var k := ArgMax(p);
      assert forall j :: 0 <= j < |p| ==> s[j] == p[j];
      if s[|s| - 1] > s[k] then |s| - 1 else k
  }

  /** The first index of a maximum is unique. */
  lemma FirstMaxUnique(s: seq<real>, a: int, b: int)
    requires IsFirstMax(s, a) && IsFirstMax(s, b)
    ensures a == b
  {
    assert s[a] == s[b];
  }

  /** `maxIdx`: the first index of the largest magnitude in the frame. */
  function PeakIndex(frame: seq<real>): nat
    requires |frame| > 0
  {
    ArgMax(Magnitudes(frame))
  }

  /** The scan behind `mag.indexOf(Math.max(...mag))`, one pass from the
      left that replaces the candidate only on a strictly larger magnitude. */
  method FindPeak(frame: seq<real>) returns (k: nat)
    requires |frame| > 0
    ensures k < |frame|
    ensures forall j :: 0 <= j < |frame| ==> Abs(frame[j]) <= Abs(frame[k])
    ensures forall j :: 0 <= j < k ==> Abs(frame[j]) < Abs(frame[k])
    ensures k == PeakIndex(frame)
  {
    k := 0;
    var best := Abs(frame[0]);
    var j := 1;
    while j < |frame|
      invariant 1 <= j <= |frame|
      invariant k < j && best == Abs(frame[k])
      invariant forall i :: 0 <= i < j ==> Abs(frame[i]) <= best
      invariant forall i :: 0 <= i < k ==> Abs(frame[i]) < best
    {
      if Abs(frame[j]) > best {
        k, best := j, Abs(frame[j]);
      }
      j := j + 1;
    }
    FirstMaxUnique(Magnitudes(frame), k, PeakIndex(frame));
  }

  /** A silent frame peaks at index 0. */
  lemma SilentFramePeaksAtZero(frame: seq<real>)
    requires |frame| > 0
    requires forall j :: 0 <= j < |frame| ==> frame[j] == 0.0
    ensures PeakIndex(frame) == 0
  {
    var m := Magnitudes(frame);
    assert IsFirstMax(m, 0);
    FirstMaxUnique(m, 0, PeakIndex(frame));
  }

  /** The pseudo-frequency `maxIdx * (sampleRate / frameSize)`, exactly. */
  function Freq(k: nat, sampleRate: nat, frameSize: nat): real
    requires frameSize > 0
  {
    (k as real) * ((sampleRate as real) / (frameSize as real))
  }

  /** The band test `freq > 50 && freq < 2000`, cross-multiplied by the
      frame size so that it stays in integers. */
  predicate InBand(k: nat, sampleRate: nat, frameSize: nat)
    ensures InBand(k, sampleRate, frameSize) ==> 0 < k && 0 < sampleRate && 0 < frameSize
  {
    50 * frameSize < k * sampleRate < 2000 * frameSize
  }

  /** The integer band test accepts exactly the peaks whose pseudo-frequency
      lies strictly between 50 and 2000. */
  lemma InBandIffFreqInRange(k: nat, sampleRate: nat, frameSize: nat)
    requires frameSize > 0
    ensures InBand(k, sampleRate, frameSize) <==> 50.0 < Freq(k, sampleRate, frameSize) < 2000.0
  {
    var p := k * sampleRate;
    var lo := 50 * frameSize;
    var hi := 2000 * frameSize;
    var f := frameSize as real;
    FreqScaled(k, sampleRate, frameSize);
    BandScaled(Freq(k, sampleRate, frameSize), f, p as real);
    assert lo as real == 50.0 * f;
    assert hi as real == 2000.0 * f;
    assert InBand(k, sampleRate, frameSize) <==> lo < p < hi;
  }

  lemma BandScaled(freq: real, f: real, x: real)
    requires f > 0.0 && freq * f == x
    ensures 50.0 < freq < 2000.0 <==> 50.0 * f < x < 2000.0 * f
  {
    ScaleOrder(50.0, freq, f);
    ScaleOrder(freq, 2000.0, f);
  }

  /** Scaling the pseudo-frequency back by the frame size gives the integer
      product `k * sampleRate`. */
  lemma FreqScaled(k: nat, sampleRate: nat, frameSize: nat)
    requires frameSize > 0
    ensures Freq(k, sampleRate, frameSize) * (frameSize as real) == (k * sampleRate) as real
  {
    var f := frameSize as real;
    var c := (sampleRate as real) / f;
    assert c * f == sampleRate as real;
    calc {
      Freq(k, sampleRate, frameSize) * f;
      ((k as real) * c) * f;
      { Assoc(k as real, c, f); }
      (k as real) * (c * f);
      (k as real) * (sampleRate as real);
    }
  }

  lemma Assoc(a: real, b: real, c: real)
    ensures (a * b) * c == a * (b * c)
  {
  }

  lemma ScaleOrder(a: real, b: real, f: real)
    requires f > 0.0
    ensures a < b <==> a * f < b * f
  {
  }

  /** A frame whose peak is its first sample, a silent one among them,
      never passes the band test: its pseudo-frequency is 0. */
  lemma PeakAtZeroRejected(sampleRate: nat, frameSize: nat)
    requires frameSize > 0
    ensures !InBand(0, sampleRate, frameSize)
  {
  }

  /** What one frame at offset `o` adds to the contour: its pseudo-frequency
      when the peak is in band, nothing otherwise. */
  function FrameResult(data: seq<real>, o: nat, sampleRate: nat, frameSize: nat): (r: seq<real>)
    requires frameSize > 0 && o + frameSize <= |data|
    ensures |r| <= 1
    ensures |r| == 1 <==> Accepted(data, o, sampleRate, frameSize)
  {
    var k := PeakIndex(data[o..o + frameSize]);
    if InBand(k, sampleRate, frameSize) then [Freq(k, sampleRate, frameSize)] else []
  }

  /** The frame at offset `o` passes the band test. */
  predicate Accepted(data: seq<real>, o: nat, sampleRate: nat, frameSize: nat)
    requires frameSize > 0 && o + frameSize <= |data|
  {
    InBand(PeakIndex(data[o..o + frameSize]), sampleRate, frameSize)
  }

  /** A silent frame adds nothing to the contour. */
  lemma SilentFrameRejected(data: seq<real>, o: nat, sampleRate: nat, frameSize: nat)
    requires frameSize > 0 && o + frameSize <= |data|
    requires forall j :: o <= j < o + frameSize ==> data[j] == 0.0
    ensures !Accepted(data, o, sampleRate, frameSize)
    ensures FrameResult(data, o, sampleRate, frameSize) == []
  {
    SilentFramePeaksAtZero(data[o..o + frameSize]);
  }

  ghost predicate WithinBuffer(offs: seq<nat>, n: nat, frameSize: nat)
  {
    forall k :: 0 <= k < |offs| ==> offs[k] + frameSize <= n
  }

  /** The contour contributed by the frames at `offs`, in order. */
  function DetectAt(data: seq<real>, offs: seq<nat>, sampleRate: nat, frameSize: nat): (r: seq<real>)
    requires frameSize > 0 && WithinBuffer(offs, |data|, frameSize)
    ensures |r| <= |offs|
  {
    if |offs| == 0 then []
    else
      DetectAt(data, offs[..|offs| - 1], sampleRate, frameSize)
      + FrameResult(data, offs[|offs| - 1], sampleRate, frameSize)
  }

  lemma DetectAtSnoc(data: seq<real>, offs: seq<nat>, o: nat, sampleRate: nat, frameSize: nat)
    requires frameSize > 0 && WithinBuffer(offs, |data|, frameSize) && o + frameSize <= |data|
    ensures WithinBuffer(offs + [o], |data|, frameSize)
    ensures DetectAt(data, offs + [o], sampleRate, frameSize)
         == DetectAt(data, offs, sampleRate, frameSize) + FrameResult(data, o, sampleRate, frameSize)
  {
    assert (offs + [o])[..|offs|] == offs;
  }

  /** The pitch contour, as pseudo-frequencies, of a whole buffer. */
  function Detected(data: seq<real>, sampleRate: nat, frameSize: nat, hop: nat): seq<real>
    requires frameSize > 0 && hop > 0
  {
    DetectAt(data, Frames.Offsets(|data|, frameSize, hop), sampleRate, frameSize)
  }

  /** The contour has at most one entry per analysed frame, and is empty
      when the buffer is not longer than one frame. */
  lemma DetectedBounds(data: seq<real>, sampleRate: nat, frameSize: nat, hop: nat)
    requires frameSize > 0 && hop > 0
    ensures |Detected(data, sampleRate, frameSize, hop)| <= |Frames.Offsets(|data|, frameSize, hop)|
    ensures |data| <= frameSize ==> Detected(data, sampleRate, frameSize, hop) == []
  {
  }

  /** Every entry lies strictly between 50 and 2000. */
  ghost predicate AllInBand(s: seq<real>)
  {
    forall j :: 0 <= j < |s| ==> 50.0 < s[j] < 2000.0
  }

  /** What a single frame adds is inside the band. */
  lemma FrameResultInBand(data: seq<real>, o: nat, sampleRate: nat, frameSize: nat)
    requires frameSize > 0 && o + frameSize <= |data|
    ensures AllInBand(FrameResult(data, o, sampleRate, frameSize))
  {
    InBandIffFreqInRange(PeakIndex(data[o..o + frameSize]), sampleRate, frameSize);
  }

  /** Every contour entry is a pseudo-frequency strictly inside the band. */
  lemma {:induction false} DetectAtInBand(data: seq<real>, offs: seq<nat>, sampleRate: nat, frameSize: nat)
    requires frameSize > 0 && WithinBuffer(offs, |data|, frameSize)
    ensures AllInBand(DetectAt(data, offs, sampleRate, frameSize))
  {
    if |offs| > 0 {
      var init := offs[..|offs| - 1];
      var o := offs[|offs| - 1];
      DetectAtInBand(data, init, sampleRate, frameSize);
      assert offs == init + [o];
      DetectAtSnoc(data, init, o, sampleRate, frameSize);
      FrameResultInBand(data, o, sampleRate, frameSize);
      AllInBandAppend(DetectAt(data, init, sampleRate, frameSize), FrameResult(data, o, sampleRate, frameSize));
    }
  }

  lemma AllInBandAppend(a: seq<real>, b: seq<real>)
    requires AllInBand(a) && AllInBand(b)
    ensures AllInBand(a + b)
  {
    assert forall j :: |a| <= j < |a + b| ==> (a + b)[j] == b[j - |a|];
  }

  /** A contour is empty exactly when no frame at the given offsets passes
      the band test. */
  lemma {:induction false} DetectAtEmpty(data: seq<real>, offs: seq<nat>, sampleRate: nat, frameSize: nat)
    requires frameSize > 0 && WithinBuffer(offs, |data|, frameSize)
    ensures DetectAt(data, offs, sampleRate, frameSize) == [] <==>
      forall k :: 0 <= k < |offs| ==> !Accepted(data, offs[k], sampleRate, frameSize)
  {
    if |offs| > 0 {
      var init := offs[..|offs| - 1];
      var o := offs[|offs| - 1];
      DetectAtEmpty(data, init, sampleRate, frameSize);
      assert offs == init + [o];
      DetectAtSnoc(data, init, o, sampleRate, frameSize);
      AppendEmpty(DetectAt(data, init, sampleRate, frameSize), FrameResult(data, o, sampleRate, frameSize));
      NoneAcceptedSnoc(data, init, o, sampleRate, frameSize);
    }
  }

  lemma AppendEmpty(a: seq<real>, b: seq<real>)
    ensures a + b == [] <==> a == [] && b == []
  {
    assert |a + b| == |a| + |b|;
  }

  lemma NoneAcceptedSnoc(data: seq<real>, init: seq<nat>, o: nat, sampleRate: nat, frameSize: nat)
    requires frameSize > 0 && WithinBuffer(init, |data|, frameSize) && o + frameSize <= |data|
    requires WithinBuffer(init + [o], |data|, frameSize)
    ensures (forall k :: 0 <= k < |init + [o]| ==> !Accepted(data, (init + [o])[k], sampleRate, frameSize))
        <==> (forall k :: 0 <= k < |init| ==> !Accepted(data, init[k], sampleRate, frameSize))
             && !Accepted(data, o, sampleRate, frameSize)
  {
    var offs := init + [o];
    assert forall k :: 0 <= k < |init| ==> offs[k] == init[k];
    assert offs[|init|] == o;
  }

  /** The body of the analysis loop (lines 48-52): slice the frame at `o`,
      find its peak, and keep the pseudo-frequency when it is in band. */
  method AnalyzeFrame(data: seq<real>, o: nat, sampleRate: nat, frameSize: nat) returns (found: seq<real>)
    requires frameSize > 0 && o + frameSize <= |data|
    ensures found == FrameResult(data, o, sampleRate, frameSize)
  {
    var frame := data[o..o + frameSize];
    var maxIdx := FindPeak(frame);
    if InBand(maxIdx, sampleRate, frameSize) {
      found := [Freq(maxIdx, sampleRate, frameSize)];
    } else {
      found := [];
    }
  }

  /** The state of the analysis loop at offset `i`: `visited` are the
      offsets already analysed, the scan from `i` visits the rest, and
      `freqs` is the contour of the visited frames. */
  ghost predicate ScanState(data: seq<real>, visited: seq<nat>, i: nat, freqs: seq<real>,
                            sampleRate: nat, frameSize: nat, hop: nat)
    requires frameSize > 0 && hop > 0
  {
    && Frames.Offsets(|data|, frameSize, hop) == visited + Frames.OffsetsFrom(i, |data|, frameSize, hop)
    && WithinBuffer(visited, |data|, frameSize)
    && freqs == DetectAt(data, visited, sampleRate, frameSize)
  }

  /** One iteration of the analysis loop keeps its state. */
  lemma ScanStep(data: seq<real>, visited: seq<nat>, i: nat, freqs: seq<real>, found: seq<real>,
                 sampleRate: nat, frameSize: nat, hop: nat)
    requires frameSize > 0 && hop > 0 && i < |data| - frameSize
    requires ScanState(data, visited, i, freqs, sampleRate, frameSize, hop)
    requires found == FrameResult(data, i, sampleRate, frameSize)
    ensures ScanState(data, visited + [i], i + hop, freqs + found, sampleRate, frameSize, hop)
  {
    DetectAtSnoc(data, visited, i, sampleRate, frameSize);
    Frames.OffsetsFromStep(visited, i, |data|, frameSize, hop);
  }

  /** When the analysis loop stops, its contour is that of the whole buffer. */
  lemma ScanDone(data: seq<real>, visited: seq<nat>, i: nat, freqs: seq<real>,
                 sampleRate: nat, frameSize: nat, hop: nat)
    requires frameSize > 0 && hop > 0 && |data| - frameSize <= i
    requires ScanState(data, visited, i, freqs, sampleRate, frameSize, hop)
    ensures freqs == Detected(data, sampleRate, frameSize, hop)
  {
    Frames.OffsetsFromDone(visited, i, |data|, frameSize, hop);
  }

  /** The analysis loop of lines 47-52: every frame at offsets 0, hop,
      2*hop, ... strictly below `|data| - frameSize` is sliced, its peak
      found, and its pseudo-frequency kept when in band. */
  method AnalyzeFrames(data: seq<real>, sampleRate: nat, frameSize: nat, hop: nat) returns (freqs: seq<real>)
    requires frameSize > 0 && hop > 0
    ensures freqs == Detected(data, sampleRate, frameSize, hop)
  {
    freqs := [];
    var i: nat := 0;
    ghost var visited: seq<nat> := [];
    while i < |data| - frameSize
      invariant ScanState(data, visited, i, freqs, sampleRate, frameSize, hop)
      decreases |data| - i
    {
      var found := AnalyzeFrame(data, i, sampleRate, frameSize);
      ScanStep(data, visited, i, freqs, found, sampleRate, frameSize, hop);
      freqs := freqs + found;
      visited := visited + [i];
      i := i + hop;
    }
    ScanDone(data, visited, i, freqs, sampleRate, frameSize, hop);
  }

}
