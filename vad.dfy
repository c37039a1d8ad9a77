/** Voiced-segment extraction of the pa-ta-ka analysis (app.py, get_vad_segments).

    The 16-bit PCM byte string is cut into 30 ms frames, each frame is
    classified voiced or unvoiced by the voice-activity detector, and the
    maximal runs of voiced frames become the segments. Segment bounds are
    kept in frame indices: frame k starts at k * 30 ms. */
module Vad {

  import opened Wrappers

  /** The two ways get_vad_segments fails:
      - `ZeroFrameLength`: a frame length of 0 makes the byte-offset range
        have a step of 0, which Python refuses before any frame is read;
      - `UnsupportedRate`: the detector refuses the first whole frame it is
        given when it does not support the sample rate and frame length. */
  datatype VadError = ZeroFrameLength | UnsupportedRate

  datatype Result<T> = Success(value: T) | Failure(error: VadError)

  /** A half-open run of frames [start, end). */
  datatype Segment = Segment(start: nat, end: nat)

  const FrameMs: nat := 30

  /** The number of samples in a 30 ms frame, `int(sr * 30 / 1000)`: the
      largest whole number of samples that fits in 30 ms. */
  function FrameLength(sampleRate: nat): (n: nat)
    ensures n * 1000 <= sampleRate * FrameMs < (n + 1) * 1000
    ensures n == 0 <==> sampleRate < 34
  {
    sampleRate * FrameMs / 1000
  }

  /* ---------------- Framing ---------------- */

  /** The sample rates webrtcvad's detector processes. */
  const DetectorRates: set<nat> := {8000, 16000, 32000, 48000}

  /** The detector processes frames of 10, 20 or 30 ms at one of its rates,
      and refuses every other frame. */
  predicate DetectorAccepts(frameLen: nat, sampleRate: nat) {
    sampleRate in DetectorRates && frameLen * 100 in {sampleRate, 2 * sampleRate, 3 * sampleRate}
  }

  /** The 30 ms frames of get_vad_segments suit the detector exactly at its
      own sample rates. */
  lemma FrameLengthAccepted(sampleRate: nat)
    ensures DetectorAccepts(FrameLength(sampleRate), sampleRate) <==> sampleRate in DetectorRates
  {
    if sampleRate in DetectorRates {
      assert sampleRate == 8000 || sampleRate == 16000 || sampleRate == 32000 || sampleRate == 48000;
    }
  }

  /** The first `n` whole frames of `step` bytes of `pcm`, in order. */
  function Frames(pcm: seq<Byte>, step: nat, n: nat): (frames: seq<seq<Byte>>)
    requires n * step <= |pcm|
    ensures |frames| == n
  {
    if n == 0 then []
    else
      assert (n - 1) * step + step == n * step;
      Frames(pcm, step, n - 1) + [pcm[(n - 1) * step .. n * step]]
  }

  /** `voiced` classifies the consecutive whole frames of `step` bytes of
      `pcm`, in order, and there is no room for another whole frame.

      One detector object classifies the frames one after another and keeps
      adaptive state between calls, so frame k's flag may depend on every
      frame before it: `isSpeech` is given the frames 0 to k, not frame k
      alone. */
  ghost predicate ClassifiesFrames(pcm: seq<Byte>, step: nat, sampleRate: nat,
                                   isSpeech: (seq<seq<Byte>>, nat) -> bool, voiced: seq<bool>)
  {
    && |voiced| * step <= |pcm| < |voiced| * step + step
    && FlagsOf(Frames(pcm, step, |voiced|), sampleRate, isSpeech, voiced)
  }

  /** One flag per frame, flag k being the detector's answer once it has been
      given frames 0 to k. */
  ghost predicate FlagsOf(frames: seq<seq<Byte>>, sampleRate: nat,
                          isSpeech: (seq<seq<Byte>>, nat) -> bool, voiced: seq<bool>)
  {
    && |voiced| == |frames|
    && forall k :: 0 <= k < |voiced| ==> voiced[k] == isSpeech(frames[..k + 1], sampleRate)
  }

  /** The frames after the next whole frame are the frames so far and that frame. */
  lemma FramesNext(pcm: seq<Byte>, step: nat, n: nat)
    requires n * step + step <= |pcm|
    ensures (n + 1) * step <= |pcm|
    ensures Frames(pcm, step, n + 1) == Frames(pcm, step, n) + [pcm[n * step .. n * step + step]]
  {
    assert (n + 1) * step == n * step + step;
  }

  /** Handing the next frame to the detector extends the flags by its answer. */
  lemma FlagsExtend(frames: seq<seq<Byte>>, frame: seq<Byte>, sampleRate: nat,
                    isSpeech: (seq<seq<Byte>>, nat) -> bool, voiced: seq<bool>)
    requires FlagsOf(frames, sampleRate, isSpeech, voiced)
    ensures FlagsOf(frames + [frame], sampleRate, isSpeech, voiced + [isSpeech(frames + [frame], sampleRate)])
  {
    var more := frames + [frame];
    var next := voiced + [isSpeech(more, sampleRate)];
    forall k | 0 <= k < |voiced|
      ensures next[k] == isSpeech(more[..k + 1], sampleRate)
    {
      assert more[..k + 1] == frames[..k + 1];
    }
    assert more[..|more|] == more;
  }

  /** Frame j of `Frames` is the slice of `step` bytes at `j * step`. */
  lemma {:induction false} FramesAreSlices(pcm: seq<Byte>, step: nat, n: nat, j: nat)
    requires n * step <= |pcm| && j < n
    ensures j * step + step <= |pcm| && Frames(pcm, step, n)[j] == pcm[j * step .. j * step + step]
  {
    if j < n - 1 {
      assert (n - 1) * step + step == n * step;
      FramesAreSlices(pcm, step, n - 1, j);
    } else {
      assert (n - 1) * step + step == n * step;
    }
  }

  lemma MulMonotone(x: nat, y: nat, b: nat)
    requires x <= y
    ensures x * b <= y * b
  {
    assert y * b == x * b + (y - x) * b;
  }

  /** Quotient of a division pinned down by its bounds. */
  lemma DivisionByBounds(a: nat, b: nat, q: nat)
    requires b > 0 && q * b <= a < q * b + b
    ensures a / b == q
  {
    var d := a / b;
    assert a == d * b + a % b && 0 <= a % b < b;
    if d < q {
      MulMonotone(d + 1, q, b);
    } else if q < d {
      MulMonotone(q + 1, d, b);
    }
  }

  /** The first loop of get_vad_segments: walks the byte string in steps of
      two bytes per sample, hands each whole frame to the detector and stops at
      the first partial one, which is never classified. `frames` is what the
      detector has been given so far. */
  method ClassifyFrames(pcm: seq<Byte>, frameLen: nat, sampleRate: nat,
                        isSpeech: (seq<seq<Byte>>, nat) -> bool) returns (r: Result<seq<bool>>)
    ensures r == Failure(ZeroFrameLength) <==> frameLen == 0
    ensures r == Failure(UnsupportedRate) <==>
              0 < frameLen && frameLen * 2 <= |pcm| && !DetectorAccepts(frameLen, sampleRate)
    ensures r.Success? <==> 0 < frameLen && (|pcm| < frameLen * 2 || DetectorAccepts(frameLen, sampleRate))
    ensures r.Success? ==> ClassifiesFrames(pcm, frameLen * 2, sampleRate, isSpeech, r.value)
    ensures r.Success? ==> |r.value| == |pcm| / (frameLen * 2)
  {
    var step := frameLen * 2;
    if step == 0 {
      return Failure(ZeroFrameLength);
    }
    var frames: seq<seq<Byte>> := [];
    var voiced: seq<bool> := [];
    var i := 0;
    while i < |pcm|
      invariant i == |voiced| * step <= |pcm|
      invariant frames == Frames(pcm, step, |voiced|)
      invariant FlagsOf(frames, sampleRate, isSpeech, voiced)
      invariant |voiced| > 0 ==> DetectorAccepts(frameLen, sampleRate)
    {
      var frame := pcm[i .. if i + step <= |pcm| then i + step else |pcm|];
      if |frame| < step {
        break;
      }
      if !DetectorAccepts(frameLen, sampleRate) {
        return Failure(UnsupportedRate);
      }
      FramesNext(pcm, step, |voiced|);
      FlagsExtend(frames, frame, sampleRate, isSpeech, voiced);
      frames := frames + [frame];
      voiced := voiced + [isSpeech(frames, sampleRate)];
      i := i + step;
    }
    DivisionByBounds(|pcm|, step, |voiced|);
    return Success(voiced);
  }

  /** For a byte string of `n` 16-bit samples, the number of classified frames
      is `n / frameLen`: the trailing partial frame is dropped. */
  lemma FrameCountOfSamples(n: nat, frameLen: nat)
    requires frameLen > 0
    ensures (2 * n) / (frameLen * 2) == n / frameLen
  {
    var q := n / frameLen;
    assert q * frameLen <= n < q * frameLen + frameLen;
    assert q * (frameLen * 2) == 2 * (q * frameLen);
    DivisionByBounds(2 * n, frameLen * 2, q);
  }

  /* ---------------- Run grouping ---------------- */

  ghost predicate AllVoiced(voiced: seq<bool>, s: nat, e: nat)
    requires s <= e <= |voiced|
  {
    forall k :: s <= k < e ==> voiced[k]
  }

  /** `seg` is a maximal run of voiced frames: non-empty, all voiced, and
      bounded by an unvoiced frame or the end of the sequence on each side. */
  ghost predicate IsMaximalRun(voiced: seq<bool>, seg: Segment) {
    && seg.start < seg.end <= |voiced|
    && AllVoiced(voiced, seg.start, seg.end)
    && (seg.start == 0 || !voiced[seg.start - 1])
    && (seg.end == |voiced| || !voiced[seg.end])
  }

  /** Each segment ends strictly before the next one starts. */
  ghost predicate Ordered(segs: seq<Segment>) {
    forall k, l :: 0 <= k < l < |segs| ==> segs[k].end < segs[l].start
  }

  /** `segs` lists exactly the maximal voiced runs of `voiced`, in order. */
  ghost predicate MaximalRuns(voiced: seq<bool>, segs: seq<Segment>) {
    && (forall k :: 0 <= k < |segs| ==> IsMaximalRun(voiced, segs[k]))
    && (forall seg :: IsMaximalRun(voiced, seg) ==> seg in segs)
    && Ordered(segs)
  }

  /** Two maximal runs that end at the same frame start at the same frame. */
  lemma MaximalRunEndDeterminesStart(voiced: seq<bool>, a: Segment, b: Segment)
    requires IsMaximalRun(voiced, a) && IsMaximalRun(voiced, b) && a.end == b.end
    ensures a == b
  {
  }

  /** What the grouping loop knows after the frames before `i`: the runs
      listed so far are the maximal runs that end before `i`, in order; with
      no run open the previous frame is unvoiced, and an open run started at
      a run boundary after the last listed run and is voiced up to `i`. */
  ghost predicate Grouped(voiced: seq<bool>, i: nat, segs: seq<Segment>, start: Option<nat>) {
    && i <= |voiced|
    && (forall k :: 0 <= k < |segs| ==> IsMaximalRun(voiced, segs[k]) && segs[k].end < i)
    && (forall seg :: IsMaximalRun(voiced, seg) && seg.end < i ==> seg in segs)
    && Ordered(segs)
    && (start.None? ==> i == 0 || !voiced[i - 1])
    && (start.Some? ==> && start.value < i
                        && AllVoiced(voiced, start.value, i)
                        && (start.value == 0 || !voiced[start.value - 1])
                        && (|segs| > 0 ==> segs[|segs| - 1].end < start.value))
  }

  /** A voiced frame with no run open opens a run there. */
  lemma OpenRun(voiced: seq<bool>, i: nat, segs: seq<Segment>)
    requires i < |voiced| && voiced[i] && Grouped(voiced, i, segs, None)
    ensures Grouped(voiced, i + 1, segs, Some(i))
  {
  }

  /** An unvoiced frame closes the open run, which is a maximal run. */
  lemma CloseRun(voiced: seq<bool>, i: nat, segs: seq<Segment>, start: nat)
    requires i < |voiced| && !voiced[i] && Grouped(voiced, i, segs, Some(start))
    ensures Grouped(voiced, i + 1, segs + [Segment(start, i)], None)
  {
    var closed := Segment(start, i);
    forall seg | IsMaximalRun(voiced, seg) && seg.end == i
      ensures seg == closed
    {
      MaximalRunEndDeterminesStart(voiced, seg, closed);
    }
  }

  /** A voiced frame inside a run, or an unvoiced frame outside one, changes
      nothing but the position. */
  lemma ContinueRun(voiced: seq<bool>, i: nat, segs: seq<Segment>, start: Option<nat>)
    requires i < |voiced| && voiced[i] == start.Some? && Grouped(voiced, i, segs, start)
    ensures Grouped(voiced, i + 1, segs, start)
  {
  }

  /** After the last frame, closing a still open run at the end lists every
      maximal run. */
  lemma FinishRuns(voiced: seq<bool>, segs: seq<Segment>, start: Option<nat>)
    requires Grouped(voiced, |voiced|, segs, start)
    ensures start.None? ==> MaximalRuns(voiced, segs)
    ensures start.Some? ==> MaximalRuns(voiced, segs + [Segment(start.value, |voiced|)])
  {
    if start.Some? {
      var closed := Segment(start.value, |voiced|);
      forall seg | IsMaximalRun(voiced, seg) && seg.end == |voiced|
        ensures seg == closed
      {
        MaximalRunEndDeterminesStart(voiced, seg, closed);
      }
    }
  }

  /** The second loop of get_vad_segments: `start` is None between runs and
      the index of the run's first frame inside one; an unvoiced frame closes
      the open run, and a run still open after the last frame is closed at
      the end. */
  method GroupRuns(voiced: seq<bool>) returns (segs: seq<Segment>)
    ensures MaximalRuns(voiced, segs)
  {
    segs := [];
    var start: Option<nat> := None;
    for i := 0 to |voiced|
      invariant Grouped(voiced, i, segs, start)
    {
      var v := voiced[i];
      match start {
        case None =>
          if v {
            OpenRun(voiced, i, segs);
            start := Some(i);
          } else {
            ContinueRun(voiced, i, segs, start);
          }
        case Some(s) =>
          if !v {
            CloseRun(voiced, i, segs, s);
            segs := segs + [Segment(s, i)];
            start := None;
          } else {
            ContinueRun(voiced, i, segs, start);
          }
      }
    }
    FinishRuns(voiced, segs, start);
    if start.Some? {
      segs := segs + [Segment(start.value, |voiced|)];
    }
  }

  /* ---------------- Properties of the runs ---------------- */

  /** All segments of the list are non-empty. */
  ghost predicate NonEmptySegments(segs: seq<Segment>) {
    forall k :: 0 <= k < |segs| ==> segs[k].start < segs[k].end
  }

  /** Every segment of the list starts on a voiced frame. */
  lemma RunsStartVoiced(voiced: seq<bool>, segs: seq<Segment>)
    requires MaximalRuns(voiced, segs)
    ensures NonEmptySegments(segs)
    ensures forall k :: 0 <= k < |segs| ==> segs[k].start < |voiced| && voiced[segs[k].start]
    ensures |segs| > 0 ==> exists f :: 0 <= f < |voiced| && voiced[f]
  {
    forall k | 0 <= k < |segs|
      ensures segs[k].start < segs[k].end && segs[k].start < |voiced| && voiced[segs[k].start]
    {
      assert IsMaximalRun(voiced, segs[k]);
    }
    if |segs| > 0 {
      assert voiced[segs[0].start];
    }
  }

  /** In an ordered list of non-empty segments the starts strictly increase. */
  lemma StartsIncrease(segs: seq<Segment>, i: nat, j: nat)
    requires Ordered(segs) && NonEmptySegments(segs)
    requires i <= j < |segs|
    ensures segs[i].start <= segs[j].start
    ensures segs[i].start == segs[j].start ==> i == j
  {
  }

  /** Consecutive segments are at least two frames apart at their starts: one
      voiced frame at least, then one unvoiced frame at least. */
  lemma {:induction false} StartsSpread(segs: seq<Segment>, k: nat)
    requires Ordered(segs) && NonEmptySegments(segs)
    requires k < |segs|
    ensures segs[k].start >= segs[0].start + 2 * k
  {
    if k > 0 {
      StartsSpread(segs, k - 1);
      assert segs[k - 1].end < segs[k].start;
    }
  }

  /** With no voiced frame there is no segment. */
  lemma NoVoicedNoRuns(voiced: seq<bool>, segs: seq<Segment>)
    requires MaximalRuns(voiced, segs)
    requires forall k :: 0 <= k < |voiced| ==> !voiced[k]
    ensures segs == []
  {
    RunsStartVoiced(voiced, segs);
  }

  /** With every frame voiced there is exactly one segment, covering all of them. */
  lemma AllVoicedOneRun(voiced: seq<bool>, segs: seq<Segment>)
    requires MaximalRuns(voiced, segs)
    requires |voiced| > 0 && forall k :: 0 <= k < |voiced| ==> voiced[k]
    ensures segs == [Segment(0, |voiced|)]
  {
    var whole := Segment(0, |voiced|);
    assert IsMaximalRun(voiced, whole);
    forall k | 0 <= k < |segs| ensures segs[k] == whole {
      assert IsMaximalRun(voiced, segs[k]);
    }
    RunsStartVoiced(voiced, segs);
    StartsSpread(segs, |segs| - 1);
  }

  /** Between two consecutive segments lies at least one unvoiced frame: the
      one at which the earlier segment ends. */
  lemma RunsSeparated(voiced: seq<bool>, segs: seq<Segment>, k: nat)
    requires MaximalRuns(voiced, segs)
    requires k + 1 < |segs|
    ensures segs[k].end < segs[k + 1].start && !voiced[segs[k].end]
  {
    assert IsMaximalRun(voiced, segs[k]) && IsMaximalRun(voiced, segs[k + 1]);
  }

  /** In an ordered list, removing the head removes exactly the head. */
  lemma OrderedTail(a: seq<Segment>, seg: Segment)
    requires |a| > 0 && Ordered(a) && NonEmptySegments(a)
    ensures seg in a[1..] <==> seg in a && seg != a[0]
  {
    if seg in a[1..] {
      var p :| 1 <= p < |a| && a[p] == seg;
      StartsIncrease(a, 0, p);
    }
    if seg in a && seg != a[0] {
      var p :| 0 <= p < |a| && a[p] == seg;
      assert a[1..][p - 1] == seg;
    }
  }

  /** Two ordered lists of non-empty segments with the same elements start
      with the same segment. */
  lemma OrderedHeadsEqual(a: seq<Segment>, b: seq<Segment>)
    requires Ordered(a) && Ordered(b) && NonEmptySegments(a) && NonEmptySegments(b)
    requires |a| > 0 && |b| > 0 && a[0] in b && b[0] in a
    ensures a[0] == b[0]
  {
    var i :| 0 <= i < |a| && a[i] == b[0];
    var j :| 0 <= j < |b| && b[j] == a[0];
    StartsIncrease(a, 0, i);
    StartsIncrease(b, 0, j);
  }

  /** Two ordered lists of non-empty segments with the same elements are equal. */
  lemma {:induction false} OrderedListsEqual(a: seq<Segment>, b: seq<Segment>)
    requires Ordered(a) && Ordered(b) && NonEmptySegments(a) && NonEmptySegments(b)
    requires forall seg :: seg in a <==> seg in b
    ensures a == b
    decreases |a|
  {
    if |a| > 0 { assert a[0] in b; }
    if |b| > 0 { assert b[0] in a; }
    if |a| > 0 && |b| > 0 {
      OrderedHeadsEqual(a, b);
      forall seg ensures seg in a[1..] <==> seg in b[1..] {
        OrderedTail(a, seg);
        OrderedTail(b, seg);
      }
      OrderedListsEqual(a[1..], b[1..]);
      assert a == [a[0]] + a[1..] && b == [b[0]] + b[1..];
    }
  }

  /** The maximal runs determine the segment list: any two lists satisfying
      the specification are the same list. */
  lemma MaximalRunsUnique(voiced: seq<bool>, a: seq<Segment>, b: seq<Segment>)
    requires MaximalRuns(voiced, a) && MaximalRuns(voiced, b)
    ensures a == b
  {
    RunsStartVoiced(voiced, a);
    RunsStartVoiced(voiced, b);
    forall seg ensures seg in a <==> seg in b {
      if seg in a {
        var p :| 0 <= p < |a| && a[p] == seg;
        assert IsMaximalRun(voiced, seg);
      }
      if seg in b {
        var p :| 0 <= p < |b| && b[p] == seg;
        assert IsMaximalRun(voiced, seg);
      }
    }
    OrderedListsEqual(a, b);
  }

  /** Segments and the unvoiced gaps between them each take at least one
      frame, so there are at most (n + 1) / 2 segments in n frames. */
  lemma RunCountBound(voiced: seq<bool>, segs: seq<Segment>)
    requires MaximalRuns(voiced, segs)
    ensures 2 * |segs| <= |voiced| + 1
  {
    if |segs| > 0 {
      RunsStartVoiced(voiced, segs);
      StartsSpread(segs, |segs| - 1);
      assert IsMaximalRun(voiced, segs[|segs| - 1]);
    }
  }

  /* ---------------- get_vad_segments ---------------- */

  /** One byte of the PCM byte string. */
  newtype Byte = x: int | 0 <= x < 0x100

  /** A 16-bit signed PCM sample, the result of `astype(np.int16)`. */
  newtype Int16 = x: int | -0x8000 <= x < 0x8000

  /** The two's-complement bit pattern of a sample, as an unsigned 16-bit value. */
  function Unsigned(x: Int16): (u: nat)
    ensures u < 0x1_0000
    ensures x >= 0 ==> u == x as int
    ensures x < 0 ==> u == x as int + 0x1_0000
  {
    (x as int) % 0x1_0000
  }

  /** One sample as two little-endian bytes: the low byte first. `tobytes()`
      writes the host's native byte order; the model takes the host to be
      little-endian, as x86 and ARM machines running the backend are. */
  function LittleEndian(x: Int16): (pair: seq<Byte>)
    ensures |pair| == 2 && pair[0] as int + 0x100 * pair[1] as int == Unsigned(x)
  {
    [(Unsigned(x) % 0x100) as Byte, (Unsigned(x) / 0x100) as Byte]
  }

  /** `tobytes()` of an int16 array on a little-endian host: the samples'
      byte pairs in order. */
  function ToBytes(samples: seq<Int16>): (b: seq<Byte>)
    ensures |b| == 2 * |samples|
    ensures forall k :: 0 <= k < |samples| ==>
              b[2 * k] as int + 0x100 * b[2 * k + 1] as int == Unsigned(samples[k])
  {
    if samples == [] then []
    else
      var rest := ToBytes(samples[1..]);
      assert forall k :: 1 <= k < |samples| ==> samples[k] == samples[1..][k - 1];
      LittleEndian(samples[0]) + rest
  }

  /** The sample whose two's-complement bit pattern is `u`. */
  function Signed(u: int): (x: Int16)
    requires 0 <= u < 0x1_0000
  {
    (if u < 0x8000 then u else u - 0x1_0000) as Int16
  }

  /** Reading a bit pattern back gives the sample it came from. */
  lemma SignedUnsigned(x: Int16)
    ensures Signed(Unsigned(x)) == x
  {
  }

  /** The samples a little-endian byte sequence encodes (the inverse of
      `tobytes()`, as `np.frombuffer(..., dtype=np.int16)` reads it). */
  function FromBytes(b: seq<Byte>): (samples: seq<Int16>)
    requires |b| % 2 == 0
    ensures |samples| == |b| / 2
  {
    seq(|b| / 2, k requires 0 <= k < |b| / 2 => Signed(b[2 * k] as int + 0x100 * b[2 * k + 1] as int))
  }

  /** Encoding samples as bytes loses nothing. */
  lemma BytesRoundTrip(samples: seq<Int16>)
    ensures |ToBytes(samples)| % 2 == 0
    ensures FromBytes(ToBytes(samples)) == samples
  {
    var b := ToBytes(samples);
    assert |b| / 2 == |samples|;
    forall k | 0 <= k < |samples| ensures FromBytes(b)[k] == samples[k] {
      SignedUnsigned(samples[k]);
    }
  }

  /** get_vad_segments: 30 ms frames of the samples at `sampleRate`, classified
      by a fresh detector (`isSpeech`, first given frame 0), grouped into the
      maximal voiced runs. It fails when a 30 ms frame holds no whole sample,
      and when the detector, at a rate it does not support, is given a whole
      frame. Otherwise a trailing partial frame is dropped, leaving
      `|audio| / FrameLength(sampleRate)` frames. */
  method GetVadSegments(audio: seq<Int16>, sampleRate: nat, isSpeech: (seq<seq<Byte>>, nat) -> bool)
    returns (r: Result<seq<Segment>>)
    ensures r == Failure(ZeroFrameLength) <==> sampleRate < 34
    ensures r == Failure(UnsupportedRate) <==>
              34 <= sampleRate && sampleRate !in DetectorRates && FrameLength(sampleRate) <= |audio|
    ensures r.Success? <==> sampleRate in DetectorRates || (34 <= sampleRate && |audio| < FrameLength(sampleRate))
    ensures r.Success? ==>
      exists voiced :: && ClassifiesFrames(ToBytes(audio), FrameLength(sampleRate) * 2, sampleRate, isSpeech, voiced)
                       && |voiced| == |audio| / FrameLength(sampleRate)
                       && MaximalRuns(voiced, r.value)
  {
    var frameLen := FrameLength(sampleRate);
    var bytes := ToBytes(audio);
    FrameLengthAccepted(sampleRate);
    var classified := ClassifyFrames(bytes, frameLen, sampleRate, isSpeech);
    if classified.Failure? {
      return Failure(classified.error);
    }
    FrameCountOfSamples(|audio|, frameLen);
    var segs := GroupRuns(classified.value);
    return Success(segs);
  }
}
