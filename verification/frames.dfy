/** The frame scan of the converter: the window offsets visited by the
    analysis loop (script.js, lines 47-48). */
module Frames {

  /** Offsets visited by the loop that starts at `i` and steps by `hop` while
      the offset stays strictly below `n - frameSize`. */
  function OffsetsFrom(i: nat, n: nat, frameSize: nat, hop: nat): (r: seq<nat>)
    requires hop > 0
    ensures forall k :: 0 <= k < |r| ==> r[k] + frameSize < n
    ensures |r| == 0 <==> n - frameSize <= i
    decreases n - i
  {
    if i < n - frameSize then [i] + OffsetsFrom(i + hop, n, frameSize, hop) else []
  }

  /** From `i` on the scan visits `i`, `i + hop`, `i + 2*hop`, ..., and it
      stops at the first of these that is not below `n - frameSize`. */
  lemma {:induction false} OffsetsFromShape(i: nat, n: nat, frameSize: nat, hop: nat)
    requires hop > 0
    ensures var r := OffsetsFrom(i, n, frameSize, hop);
      && (forall k :: 0 <= k < |r| ==> r[k] == i + k * hop)
      && (|r| > 0 ==> n - frameSize <= i + |r| * hop)
    decreases n - i
  {
    if i < n - frameSize {
      var rest := OffsetsFrom(i + hop, n, frameSize, hop);
      OffsetsFromShape(i + hop, n, frameSize, hop);
      forall k | 0 <= k < |rest| {
        MulSucc(k, hop);
      }
      MulSucc(|rest|, hop);
    }
  }

  lemma MulSucc(k: nat, h: nat)
    ensures (k + 1) * h == k * h + h
  {
  }

  /** One step of the scan: the offsets still to visit from `i` are `i`
      followed by those from `i + hop`. */
  lemma OffsetsFromStep(visited: seq<nat>, i: nat, n: nat, frameSize: nat, hop: nat)
    requires hop > 0 && i < n - frameSize
    ensures visited + OffsetsFrom(i, n, frameSize, hop)
         == (visited + [i]) + OffsetsFrom(i + hop, n, frameSize, hop)
  {
  }

  /** Once the scan reaches the bound nothing is left to visit. */
  lemma OffsetsFromDone(visited: seq<nat>, i: nat, n: nat, frameSize: nat, hop: nat)
    requires hop > 0 && n - frameSize <= i
    ensures visited + OffsetsFrom(i, n, frameSize, hop) == visited
  {
  }

  /** The offsets of the frames analysed for a buffer of `n` samples: each
      frame lies strictly inside the buffer, and there is none exactly when
      the buffer is not longer than one frame. */
  function Offsets(n: nat, frameSize: nat, hop: nat): (r: seq<nat>)
    requires hop > 0
    ensures forall k :: 0 <= k < |r| ==> r[k] + frameSize < n
    ensures |r| == 0 <==> n <= frameSize
  {
    OffsetsFrom(0, n, frameSize, hop)
  }

  lemma MulMono(a: nat, b: nat, c: nat)
    requires a <= b
    ensures a * c <= b * c
  {
  }

  /** The k-th analysed frame starts at `k * hop`. */
  lemma OffsetsAreMultiples(n: nat, frameSize: nat, hop: nat)
    requires hop > 0
    ensures forall k :: 0 <= k < |Offsets(n, frameSize, hop)| ==> Offsets(n, frameSize, hop)[k] == k * hop
  {
    OffsetsFromShape(0, n, frameSize, hop);
  }

  /** The k-th multiple of `hop` is visited exactly when it lies strictly
      below `n - frameSize`: the scan stops at the first multiple that does
      not, so the whole frame starting at `n - frameSize` is never analysed. */
  lemma OffsetIndexBound(n: nat, frameSize: nat, hop: nat, k: nat)
    requires hop > 0
    ensures k < |Offsets(n, frameSize, hop)| <==> k * hop < n - frameSize
  {
    var r := Offsets(n, frameSize, hop);
    OffsetsFromShape(0, n, frameSize, hop);
    if k < |r| {
      assert r[k] == k * hop;
    } else if |r| > 0 {
      MulMono(|r|, k, hop);
    }
  }

}
