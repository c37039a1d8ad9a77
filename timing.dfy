/** Syllable timestamps of the pa-ta-ka analysis (app.py, process_pataka).

    Each recognised syllable gets a time: the midpoint of the voiced segment
    at the same position when there are enough segments, otherwise evenly
    spaced times between 0.1 s and 0.1 s before the end. Times are exact
    reals in seconds. */
module Timing {
  import Syllables
  import Vad

  /** The duration of one frame in seconds. */
  const FrameSeconds: real := 0.03

  /** The time in seconds at which frame `k` begins: the recording starts
      with frame 0, and every later frame starts after it. */
  function FrameTime(k: nat): (t: real)
    ensures t >= 0.0
    ensures t == 0.0 <==> k == 0
  {
    k as real * FrameSeconds
  }

  /** A later frame starts later, by 30 ms per frame in between. */
  lemma FrameTimeIncreasing(j: nat, k: nat)
    requires j < k
    ensures FrameTime(j) < FrameTime(k)
    ensures FrameTime(k) - FrameTime(j) == (k - j) as real * FrameSeconds
  {
  }

  /** The midpoint in seconds of a segment, `(s + e) / 2`. */
  function Midpoint(seg: Vad.Segment): (t: real)
    ensures seg.start < seg.end ==> FrameTime(seg.start) < t < FrameTime(seg.end)
    ensures t - FrameTime(seg.start) == FrameTime(seg.end) - t
  {
    (FrameTime(seg.start) + FrameTime(seg.end)) / 2.0
  }

  /** `np.linspace(lo, hi, n)` in exact arithmetic: `n` evenly spaced values
      from `lo` to `hi`, both included when `n >= 2`; just `lo` when `n == 1`. */
  function Linspace(lo: real, hi: real, n: nat): (r: seq<real>)
    ensures |r| == n
    ensures n >= 1 ==> r[0] == lo
    ensures n >= 2 ==> r[n - 1] == hi
    ensures n >= 2 ==> forall k :: 0 <= k < n - 1 ==> r[k + 1] - r[k] == (hi - lo) / (n - 1) as real
  {
    if n == 1 then [lo]
    else seq(n, k requires 0 <= k < n => lo + k as real * ((hi - lo) / (n - 1) as real))
  }

  /** The timestamp choice of process_pataka for `count` syllables: with at
      least `count` segments, syllable k gets the midpoint of segment k and the
      remaining segments are ignored; otherwise the times are spread evenly
      over [0.1, duration - 0.1]. Either way there is one time per syllable. */
  function SyllableTimes(count: nat, segments: seq<Vad.Segment>, duration: real): (times: seq<real>)
    ensures |times| == count
  {
    if |segments| >= count then
      seq(count, k requires 0 <= k < count => Midpoint(segments[k]))
    else
      Linspace(0.1, duration - 0.1, count)
  }

  /** With enough segments, each syllable's time lies strictly inside the
      segment at the same position, halfway between its ends. */
  lemma TimesInsideSegments(count: nat, segments: seq<Vad.Segment>, duration: real)
    requires |segments| >= count && Vad.NonEmptySegments(segments)
    ensures forall k :: 0 <= k < count ==>
      && FrameTime(segments[k].start) < SyllableTimes(count, segments, duration)[k] < FrameTime(segments[k].end)
      && SyllableTimes(count, segments, duration)[k] - FrameTime(segments[k].start)
         == FrameTime(segments[k].end) - SyllableTimes(count, segments, duration)[k]
  {
  }

  /** Segments beyond the first `count` have no effect on the times. */
  lemma LaterSegmentsIgnored(count: nat, s1: seq<Vad.Segment>, s2: seq<Vad.Segment>, duration: real)
    requires |s1| >= count && |s2| >= count && s1[..count] == s2[..count]
    ensures SyllableTimes(count, s1, duration) == SyllableTimes(count, s2, duration)
  {
    forall k | 0 <= k < count
      ensures SyllableTimes(count, s1, duration)[k] == SyllableTimes(count, s2, duration)[k]
    {
      assert s1[k] == s1[..count][k] == s2[..count][k] == s2[k];
    }
  }

  /** Without enough segments, the first time is 0.1 s and the last is 0.1 s
      before the end. */
  lemma FallbackBounds(count: nat, segments: seq<Vad.Segment>, duration: real)
    requires |segments| < count
    ensures SyllableTimes(count, segments, duration)[0] == 0.1
    ensures count >= 2 ==> SyllableTimes(count, segments, duration)[count - 1] == duration - 0.1
  {
  }

  ghost predicate StrictlyIncreasing(times: seq<real>) {
    forall k, l :: 0 <= k < l < |times| ==> times[k] < times[l]
  }

  /** Evenly spaced values with a positive step increase strictly. */
  lemma LinspaceIncreasing(lo: real, hi: real, n: nat)
    requires lo < hi
    ensures StrictlyIncreasing(Linspace(lo, hi, n))
  {
    if n >= 2 {
      var r := Linspace(lo, hi, n);
      var step := (hi - lo) / (n - 1) as real;
      assert step > 0.0;
      forall k, l | 0 <= k < l < n ensures r[k] < r[l] {
        assert r[l] - r[k] == (l - k) as real * step;
      }
    }
  }

  /** The times follow the order of the syllables: with enough segments
      because the segments are ordered, otherwise whenever the recording is
      longer than 0.2 s. */
  lemma TimesIncrease(count: nat, segments: seq<Vad.Segment>, duration: real)
    requires Vad.Ordered(segments) && Vad.NonEmptySegments(segments)
    requires |segments| < count ==> duration > 0.2
    ensures StrictlyIncreasing(SyllableTimes(count, segments, duration))
  {
    if |segments| >= count {
      var times := SyllableTimes(count, segments, duration);
      forall k, l | 0 <= k < l < count ensures times[k] < times[l] {
        FrameTimeIncreasing(segments[k].end, segments[l].start);
      }
    } else {
      LinspaceIncreasing(0.1, duration - 0.1, count);
    }
  }

  /** The times taken from the maximal voiced runs of a recording follow
      the order of the syllables. */
  lemma RunTimesIncrease(voiced: seq<bool>, segments: seq<Vad.Segment>, count: nat, duration: real)
    requires Vad.MaximalRuns(voiced, segments)
    requires |segments| < count ==> duration > 0.2
    ensures StrictlyIncreasing(SyllableTimes(count, segments, duration))
  {
    Vad.RunsStartVoiced(voiced, segments);
    TimesIncrease(count, segments, duration);
  }

  /** One entry of the result's syllable list. */
  datatype SyllableEvent = SyllableEvent(text: string, time: real)

  /** The sample rate the pa-ta-ka audio is analysed at. */
  const AnalysisRate: nat := 16000

  /** `zip(syllables, timestamps)`: the k-th syllable with the k-th time. */
  function Events(syllables: seq<string>, times: seq<real>): (events: seq<SyllableEvent>)
    requires |times| == |syllables|
    ensures |events| == |syllables|
    ensures forall k :: 0 <= k < |events| ==> events[k].text == syllables[k] && events[k].time == times[k]
  {
    seq(|syllables|, k requires 0 <= k < |syllables| => SyllableEvent(syllables[k], times[k]))
  }

  /** process_pataka from the recognised text and the 16 kHz samples onward:
      the syllables of the text, each paired with its time, and the duration
      of the recording. */
  method ProcessPataka(text: string, audio: seq<Vad.Int16>, isSpeech: (seq<seq<Vad.Byte>>, nat) -> bool)
    returns (events: seq<SyllableEvent>, duration: real, ghost segments: seq<Vad.Segment>)
    ensures duration == |audio| as real / AnalysisRate as real
    ensures |events| == |Syllables.Normalize(text)|
    ensures forall k :: 0 <= k < |events| ==>
      && events[k].text == Syllables.Normalize(text)[k]
      && Syllables.IsSyllable(events[k].text)
      && events[k].time == SyllableTimes(|events|, segments, duration)[k]
    ensures exists voiced :: && Vad.ClassifiesFrames(Vad.ToBytes(audio), Vad.FrameLength(AnalysisRate) * 2,
                                                     AnalysisRate, isSpeech, voiced)
                             && Vad.MaximalRuns(voiced, segments)
    ensures |segments| >= |events| || duration > 0.2 ==>
      forall k, l :: 0 <= k < l < |events| ==> events[k].time < events[l].time
  {
    duration := |audio| as real / AnalysisRate as real;
    var syllables := Syllables.NormalizeSyllables(text);
    var found := Vad.GetVadSegments(audio, AnalysisRate, isSpeech);
    assert AnalysisRate in Vad.DetectorRates;
    assert found.Success?;
    segments := found.value;
    events := Events(syllables, SyllableTimes(|syllables|, found.value, duration));
    ghost var voiced :| && Vad.ClassifiesFrames(Vad.ToBytes(audio), Vad.FrameLength(AnalysisRate) * 2,
                                                AnalysisRate, isSpeech, voiced)
                        && Vad.MaximalRuns(voiced, segments);
    if |segments| >= |events| || duration > 0.2 {
      RunTimesIncrease(voiced, segments, |events|, duration);
    }
  }
}
