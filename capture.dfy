/**
 * The endpointed capture of record_audio_silence: frames are read from the
 * input stream one at a time and kept in order; a counter of consecutive
 * quiet frames grows on a quiet frame and drops to zero on a loud one, and
 * reading stops at the first frame that takes the counter past
 * maxSilentChunks.  Samples are integers in a fixed-point unit shared with
 * the threshold.
 */
module Capture {
  import opened Seqs

  type Frame = seq<int>

  function Abs(x: int): nat {
    if x < 0 then -x else x
  }

  function SumAbs(f: Frame): nat {
    if f == [] then 0 else SumAbs(f[..|f| - 1]) + Abs(f[|f| - 1])
  }

  /** The frame's mean absolute amplitude is below the threshold.  The mean
      of an empty frame is NaN, which is never below anything. */
  predicate IsSilent(f: Frame, threshold: int) {
    |f| > 0 && SumAbs(f) < threshold * |f|
  }

  /** Length of the run of quiet frames at the end of frames. */
  function TrailingSilent(frames: seq<Frame>, threshold: int): (n: nat)
    ensures n <= |frames|
  {
    if frames == [] || !IsSilent(frames[|frames| - 1], threshold) then 0
    else TrailingSilent(frames[..|frames| - 1], threshold) + 1
  }

  /** Reading one more frame: the count grows on a quiet frame and resets to
      zero on a loud one. */
  lemma {:induction false} TrailingSilentSnoc(frames: seq<Frame>, f: Frame, threshold: int)
    ensures TrailingSilent(frames + [f], threshold)
         == if IsSilent(f, threshold) then TrailingSilent(frames, threshold) + 1 else 0
  {
    assert (frames + [f])[..|frames|] == frames;
  }

  /** After reading frames, the loop's break test holds. */
  predicate Endpoint(frames: seq<Frame>, threshold: int, maxSilentChunks: nat) {
    TrailingSilent(frames, threshold) > maxSilentChunks
  }

  /** The recorded clip: all samples of all frames, in reading order. */
  function Concat(frames: seq<Frame>): seq<int> {
    if frames == [] then [] else Concat(frames[..|frames| - 1]) + frames[|frames| - 1]
  }

  /** The trailing count is the length of the MAXIMAL run of quiet frames at
      the end: all of its frames are quiet and the frame before it is not. */
  lemma {:induction false} TrailingSilentRun(frames: seq<Frame>, threshold: int)
    ensures var n := TrailingSilent(frames, threshold);
      && (forall k :: |frames| - n <= k < |frames| ==> IsSilent(frames[k], threshold))
      && (n < |frames| ==> !IsSilent(frames[|frames| - n - 1], threshold))
  {
    if frames != [] && IsSilent(frames[|frames| - 1], threshold) {
      var init := frames[..|frames| - 1];
      TrailingSilentRun(init, threshold);
      assert forall k :: 0 <= k < |init| ==> init[k] == frames[k];
    }
  }

  /** Every quiet frame holds at least one sample, so a clip that ends in n
      quiet frames has at least n samples. */
  lemma {:induction false} ConcatLength(frames: seq<Frame>, threshold: int, n: nat)
    requires n <= |frames|
    requires forall k :: |frames| - n <= k < |frames| ==> IsSilent(frames[k], threshold)
    ensures |Concat(frames)| >= n
  {
    if n > 0 {
      var init := frames[..|frames| - 1];
      assert forall k :: 0 <= k < |init| ==> init[k] == frames[k];
      ConcatLength(init, threshold, n - 1);
    }
  }

  /** A caller who is quiet from the first frame: capture stops after exactly
      maxSilentChunks + 1 frames, never earlier. */
  lemma {:induction false} QuietStreamEndpoint(stream: seq<Frame>, threshold: int, maxSilentChunks: nat)
    requires |stream| > maxSilentChunks
    requires forall k :: 0 <= k <= maxSilentChunks ==> IsSilent(stream[k], threshold)
    ensures Endpoint(stream[..maxSilentChunks + 1], threshold, maxSilentChunks)
    ensures forall k :: 0 <= k <= maxSilentChunks ==> !Endpoint(stream[..k], threshold, maxSilentChunks)
  {
    var k := 0;
    while k <= maxSilentChunks
      invariant k <= maxSilentChunks + 1
      invariant TrailingSilent(stream[..k], threshold) == k
      invariant forall m :: 0 <= m < k ==> !Endpoint(stream[..m], threshold, maxSilentChunks)
    {
      assert stream[..k + 1][..k] == stream[..k];
      k := k + 1;
    }
  }

  /** No prefix of stream of length up to n meets the break test. */
  predicate NoEndpointUpTo(stream: seq<Frame>, n: nat, threshold: int, maxSilentChunks: nat) {
    forall k :: 0 <= k <= n && k <= |stream| ==> !Endpoint(stream[..k], threshold, maxSilentChunks)
  }

  lemma {:induction false} NoEndpointNext(stream: seq<Frame>, n: nat, threshold: int, maxSilentChunks: nat)
    requires n < |stream|
    requires NoEndpointUpTo(stream, n, threshold, maxSilentChunks)
    requires !Endpoint(stream[..n + 1], threshold, maxSilentChunks)
    ensures NoEndpointUpTo(stream, n + 1, threshold, maxSilentChunks)
  {
  }

  /** record_audio_silence over a stream that holds an endpoint (on a stream
      without one the source blocks forever).  Returns the recorded clip and
      the number of frames read. */
  method RecordAudioSilence(stream: seq<Frame>, threshold: int, maxSilentChunks: nat)
    returns (clip: seq<int>, read: nat)
    requires exists k :: 0 <= k <= |stream| && Endpoint(stream[..k], threshold, maxSilentChunks)
    ensures 0 < read <= |stream|
    // the loop stops at the first frame that takes the counter past the maximum
    ensures Endpoint(stream[..read], threshold, maxSilentChunks)
    ensures forall k :: 0 <= k < read ==> !Endpoint(stream[..k], threshold, maxSilentChunks)
    // so the clip ends in exactly maxSilentChunks + 1 quiet frames
    ensures TrailingSilent(stream[..read], threshold) == maxSilentChunks + 1
    ensures forall k :: read - maxSilentChunks - 1 <= k < read ==> IsSilent(stream[k], threshold)
    // the clip is every frame read, in order, and is never empty
    ensures clip == Concat(stream[..read])
    ensures |clip| > maxSilentChunks
  {
    ghost var stop :| 0 <= stop <= |stream| && Endpoint(stream[..stop], threshold, maxSilentChunks);
    var audioFrames: seq<Frame> := [];
    var silentChunks: nat := 0;
    read := 0;
    while true
      invariant read < stop <= |stream|
      invariant audioFrames == stream[..read]
      invariant silentChunks == TrailingSilent(audioFrames, threshold)
      invariant NoEndpointUpTo(stream, read, threshold, maxSilentChunks)
      decreases stop - read
    {
      var data := stream[read];
      TrailingSilentSnoc(audioFrames, data, threshold);
      TakeNext(stream, read);
      audioFrames := audioFrames + [data];
      read := read + 1;
      if IsSilent(data, threshold) {
        silentChunks := silentChunks + 1;
      } else {
        silentChunks := 0;
      }
      if silentChunks > maxSilentChunks {
        assert silentChunks == maxSilentChunks + 1;
        break;
      }
      NoEndpointNext(stream, read - 1, threshold, maxSilentChunks);
    }
    clip := Concat(audioFrames);
    EndpointClip(stream, read, threshold, maxSilentChunks);
  }

  /** A clip read up to the endpoint ends in maxSilentChunks + 1 quiet
      frames and so holds more than maxSilentChunks samples. */
  lemma {:induction false} EndpointClip(stream: seq<Frame>, read: nat, threshold: int, maxSilentChunks: nat)
    requires read <= |stream| && TrailingSilent(stream[..read], threshold) == maxSilentChunks + 1
    ensures forall k :: read - maxSilentChunks - 1 <= k < read ==> IsSilent(stream[k], threshold)
    ensures |Concat(stream[..read])| > maxSilentChunks
  {
    var frames := stream[..read];
    TrailingSilentRun(frames, threshold);
    ConcatLength(frames, threshold, maxSilentChunks + 1);
    forall k | read - maxSilentChunks - 1 <= k < read ensures IsSilent(stream[k], threshold) {
      assert frames[k] == stream[k];
    }
  }
}
