# Pa-ta-ka syllable timing, modelled in Dafny

The speech-analysis backend (`app.py`) has a diadochokinetic ("pa-ta-ka")
test. A recording is transcribed to Tamil text. The text is turned into a
list of the three syllables பா (pa), டா (ta) and கா (ka), and each syllable
gets a time taken from the voiced stretches of the recording. This project
models the three pieces of that pipeline that are self-contained logic:

- **`syllables.dfy`, module `Syllables`**: `normalize_syllables`. It is a
  greedy longest-prefix tokeniser over a fixed 17-entry pattern table.
  - The table is `Patterns`. The scan order Python's stable `sorted` gives
    is `KeysByLength`.
  - The scan is a method, `Scan`, with `ScanStep` and `FirstMatch` for its
    two loops. It is proved equal to a declarative specification,
    `NormalizeFrom`: at each position the longest key that starts there is
    consumed, and where none starts one character is skipped.
  - Every list of keys sorted by length gives that same result, so the
    order among keys of equal length does not matter.
- **`vad.dfy`, module `Vad`**: `get_vad_segments`.
  - The int16 samples become little-endian bytes (`ToBytes`, with the
    inverse `FromBytes`); the host is taken to be little-endian.
  - The bytes are cut into whole 30 ms frames and each frame is handed to
    one detector object (`ClassifyFrames`). The detector's decision is an
    abstract function parameter `isSpeech`. It receives every frame so far,
    not just the current one, because the detector keeps state between
    calls.
  - The detector only works at 8, 16, 32 and 48 kHz. At any other rate the
    first whole frame makes it raise, and that is the `UnsupportedRate`
    error.
  - The flags are grouped into runs (`GroupRuns`), proved to be exactly the
    maximal voiced runs, in order (`MaximalRuns`).
  - Segment bounds are frame indices; frame k starts at k × 0.03 s.
- **`timing.dfy`, module `Timing`**: the timestamp choice of
  `process_pataka`.
  - With at least as many segments as syllables, syllable k gets the
    midpoint of segment k.
  - Otherwise the times are evenly spaced from 0.1 s to 0.1 s before the
    end.
  - Times are exact reals.

The sample rate 16000 is the only rate `process_pataka` passes to
`get_vad_segments`. The model keeps the sample rate as a parameter and
covers both error paths. A sample rate below 34 Hz gives a frame length of
0, and Python's `range` then refuses a step of 0. A rate the detector does
not support fails as soon as there is a whole frame to classify.

## Model

| member | source | states |
|---|---|---|
| Syllables.KeysByLengthSorted | app.py:43-56 | the fixed key list contains exactly the table's keys, in non-increasing length, and none is empty; this is the order `sorted(patterns, key=lambda x: -len(x))` produces |
| Syllables.PatternsStandForSyllables | app.py:43-52 | every value in the table is a list of பா, டா and கா only |
| Syllables.PatternsShortValues | app.py:43-52 | each key stands for at most as many syllables as it has characters |
| Syllables.PatternKeysNonEmpty | app.py:43-52 | no key of the table is empty, so every consumed key advances the scan |
| Syllables.LongestMatchExists | app.py:56-59 | where some key starts at `i`, a longest such key exists |
| Syllables.Patterns | app.py:43-52 | the pattern table, key for key and value for value; its properties are the lemmas below |
| Syllables.KeysByLength | app.py:56 | the order `sorted(patterns, key=lambda x: -len(x))` tries the keys in; `KeysByLengthSorted` proves it is sorted and complete |
| Syllables.MatchesAt | app.py:57 | `text.startswith(key, i)`, character by character; it holds only when the key fits in the rest of the text |
| Syllables.MatchesAtSlice | app.py:57 | the character-by-character `startswith` holds exactly when the slice of the key's length at `i` equals the key |
| Syllables.LongestMatchUnique | app.py:56-59 | two keys that are both longest matches at one position are the same key, so the scan is deterministic |
| Syllables.FirstMatchIsLongest | app.py:56-59 | when keys are tried longest first, the first key that starts at `i` is the longest key starting there |
| Syllables.LongestMatch | app.py:56-62 | it gives None exactly when no key starts at `i`; otherwise it gives the longest key starting there |
| Syllables.ConsumeStep | app.py:57-60 | consuming the first matching key in scan order is what the specification does at `i`: that key's syllables come next, and the scan resumes after the key |
| Syllables.SkipStep | app.py:61-62 | when no key starts at `i`, the specification skips that character and emits nothing |
| Syllables.LongestStep | app.py:57-59 | at a position whose longest key is known, the specification emits that key's syllables and resumes after the key |
| Syllables.FirstMatch | app.py:56-60 | the inner `for`/`break`: the index of the first key in scan order that starts at `i`, with no earlier key starting there, or the number of keys when none starts there |
| Syllables.ScanStep | app.py:55-62 | one pass of the `while` body always advances (`i < next <= len(text)`) and emits exactly what the specification emits between `i` and `next` |
| Syllables.Scan | app.py:53-63 | the `while` loop ends, and its output equals the longest-match specification for any key order sorted by length |
| Syllables.NormalizeAlphabet | app.py:43-58 | every syllable in the output is பா, டா or கா, given a table whose values are only those |
| Syllables.NormalizeLength | app.py:53-63 | the output is no longer than the rest of the text, given keys that stand for at most their length in syllables |
| Syllables.NormalizeNoMatch | app.py:61-62 | positions where no key starts contribute nothing; a text with no key anywhere gives `[]` |
| Syllables.NormalizeSyllables | app.py:42-63 | `normalize_syllables` returns the specification's syllables, all of them பா, டா or கா, and no more of them than the text has characters |
| Syllables.KeysStartWithConsonant | app.py:43-52 | every key begins with ப, ட or க |
| Syllables.NormalizeOtherText | app.py:55-63 | a text without ப, ட or க, including the empty text, gives no syllables |
| Syllables.NormalizeWholeKey | app.py:55-60 | a text that is exactly one key gives that key's syllables |
| Syllables.NormalizePaTtaKa | app.py:44 | "பாட்டாக" gives பா, டா, கா |
| Syllables.NormalizeLongestWins | app.py:49 | "ப்ப" gives one பா: the three-character key wins over "ப்" followed by "ப" |
| Syllables.TwoKeysInARow | app.py:55-60 | a text made of two keys, each the longest match where it starts, gives the first key's syllables and then the second's |
| Syllables.LongestAtStart | app.py:56-57 | a key at the start of a text is the longest match there when no longer prefix of the text is a key |
| Syllables.BareConsonantsFirstKey | app.py:49-50 | in "பட" the longest key at 0 is "ப" |
| Syllables.BareConsonantsSecondKey | app.py:50 | in "பட" the longest key at 1 is "ட" |
| Syllables.NormalizeBareConsonants | app.py:49-50 | "பட" gives பா, டா |
| Vad.FrameLength | app.py:70-71 | the frame length is the largest whole number of samples in 30 ms, and it is 0 exactly when the sample rate is below 34 |
| Vad.FrameLengthAccepted | app.py:70-71 | the detector accepts the 30 ms frames of `get_vad_segments` exactly when the sample rate is 8, 16, 32 or 48 kHz |
| Vad.FramesNext | app.py:76-77 | reading the next whole frame appends the slice of `frame_len*2` bytes at the current offset to the frames read so far |
| Vad.FramesAreSlices | app.py:76-77 | frame j is the slice of `frame_len*2` bytes at offset `j*frame_len*2` |
| Vad.FlagsExtend | app.py:80 | appending the detector's answer for the next frame, given all frames so far, keeps flag k tied to frames 0 to k |
| Vad.ClassifyFrames | app.py:76-80 | with frame length 0 the loop fails (range step 0). If there is a whole frame and the detector does not accept the rate and frame length, the first `is_speech` call fails. Otherwise every whole frame of `frame_len*2` bytes is classified in order, flag k being the detector's answer after frames 0 to k, and the trailing partial frame is not classified. There are `len(bytes) / (frame_len*2)` flags |
| Vad.FrameCountOfSamples | app.py:73-79 | on the bytes of n samples there are `n / frame_len` frames |
| Vad.LittleEndian | app.py:73 | one sample becomes two bytes, low byte first, that encode its 16-bit two's-complement pattern |
| Vad.ToBytes | app.py:73 | `tobytes()` gives two bytes per sample; bytes 2k and 2k+1 encode sample k |
| Vad.SignedUnsigned | app.py:73 | reading a sample's bit pattern back gives the sample |
| Vad.BytesRoundTrip | app.py:73 | decoding the bytes of an int16 array gives back the samples |
| Vad.MaximalRunEndDeterminesStart | app.py:84-92 | two maximal voiced runs that end at the same frame are the same run |
| Vad.OpenRun | app.py:85-86 | a voiced frame with no run open opens a run there, keeping the loop invariant |
| Vad.CloseRun | app.py:87-89 | an unvoiced frame closes the open run; the closed run is a maximal run, and every maximal run ending there is that run |
| Vad.ContinueRun | app.py:84-89 | a voiced frame inside a run, or an unvoiced frame outside one, keeps the invariant |
| Vad.FinishRuns | app.py:91-92 | after the last frame, closing a still-open run at `len(voiced)` completes the list of maximal runs |
| Vad.GroupRuns | app.py:82-94 | the segments are exactly the maximal runs of voiced frames, each non-empty and within bounds, in increasing order |
| Vad.RunsStartVoiced | app.py:84-92 | every segment is non-empty and starts on a voiced frame |
| Vad.StartsIncrease | app.py:82-94 | in an ordered list of non-empty segments the starts strictly increase |
| Vad.StartsSpread | app.py:84-92 | segment k starts at least 2k frames after the first segment |
| Vad.NoVoicedNoRuns | app.py:82-94 | all-unvoiced input gives no segments |
| Vad.AllVoicedOneRun | app.py:91-92 | non-empty all-voiced input gives the single segment (0, len(voiced)) |
| Vad.RunsSeparated | app.py:87-89 | consecutive segments are separated by at least the unvoiced frame that closed the earlier one |
| Vad.OrderedTail | app.py:82-94 | in an ordered list, the tail holds every segment except the head |
| Vad.OrderedHeadsEqual | app.py:82-94 | two ordered lists with the same segments start with the same segment |
| Vad.OrderedListsEqual | app.py:82-94 | two ordered lists of non-empty segments with the same elements are equal |
| Vad.MaximalRunsUnique | app.py:82-94 | the voiced flags determine the segment list: any two lists of their maximal runs in order are equal |
| Vad.RunCountBound | app.py:82-94 | n frames hold at most (n + 1) / 2 segments |
| Vad.GetVadSegments | app.py:68-94 | it fails on a zero frame length (rate below 34 Hz). It also fails at a rate the detector does not support whenever the audio holds a whole frame. It succeeds in every other case, and the result is then the maximal voiced runs of the flags for the `len(audio) / frame_len` whole frames of the sample bytes |
| Timing.FrameTime | app.py:88-92 | the time `i * 0.03` at which frame i starts: 0 for frame 0 and positive for every later frame |
| Timing.FrameTimeIncreasing | app.py:88-92 | a later frame starts later, by 0.03 s per frame in between |
| Timing.Midpoint | app.py:379 | the midpoint `(s+e)/2` of a non-empty segment lies strictly inside it, equally far from both ends |
| Timing.Linspace | app.py:381 | `np.linspace(lo, hi, n)` gives n values, starting at lo and ending at hi when n >= 2, with a constant step |
| Timing.SyllableTimes | app.py:378-381 | there is exactly one timestamp per syllable |
| Timing.TimesInsideSegments | app.py:378-379 | with enough segments, timestamp k is the midpoint of segment k, strictly inside it |
| Timing.LaterSegmentsIgnored | app.py:379 | segments after the first `len(syllables)` do not affect the timestamps |
| Timing.FallbackBounds | app.py:380-381 | without enough segments, the first time is 0.1 s and the last is 0.1 s before the end |
| Timing.LinspaceIncreasing | app.py:381 | evenly spaced values with lo < hi strictly increase |
| Timing.TimesIncrease | app.py:377-381 | timestamps strictly increase: with enough segments because the segments are ordered and disjoint, and otherwise whenever the recording is longer than 0.2 s |
| Timing.RunTimesIncrease | app.py:377-381 | times taken from the maximal voiced runs of a recording strictly increase when there are enough runs or the recording exceeds 0.2 s |
| Timing.Events | app.py:385 | `zip(syllables, timestamps)` pairs the k-th syllable with the k-th time |
| Timing.ProcessPataka | app.py:366-385 | the syllables are those of `normalize_syllables`, each paired with its time from the maximal voiced runs; duration is samples / 16000; times increase when there are enough segments or the recording exceeds 0.2 s |

## Left out

- Speech recognition (Whisper model loading and `generate`, app.py:32-33, 368-371): the transcription `text` is an input.
- Vad.ClassifyFrames / Vad.GetVadSegments: how `webrtcvad.Vad(2).is_speech` (app.py:69, 80) decides is not modelled, because it is a foreign C library. Its answer is the parameter `isSpeech`, a function of all frames handed to the detector so far and of the sample rate. This covers the adaptive state one detector object carries between calls, but it does not spell that state out. The only part of its behaviour that is modelled is that it refuses rates other than 8, 16, 32 and 48 kHz.
- Vad.ToBytes: `tobytes()` writes the host's native byte order. The model assumes a little-endian host.
- The float-to-int16 conversion `(audio * 32768).astype(np.int16)` (app.py:73): the samples are given as `Int16` values. NumPy's wrap-around on out-of-range floats is not modelled.
- Vad.FrameLength: it uses exact integer division where the source uses `int()` of a float quotient. The two agree for every sample rate a recorder produces; rounding error for huge rates is not modelled.
- Floating point: timestamps, `* 0.03`, the midpoints, `np.linspace` and the duration are exact reals. `round(t, 2)` and `round(duration, 2)` in the response (app.py:385-386) are not modelled.
- Segment times in seconds: a segment is kept as its frame indices; `FrameTime` converts an index to seconds where the timestamps need it.
- Reading the upload, the 48 kHz check and `resample` (app.py:355-365): the 16 kHz samples are an input to `ProcessPataka`.
- The waveform plot (`make_waveform`, app.py:99-115), the `print` calls, the FastAPI endpoints and CORS setup, and ffmpeg/tempfile handling: I/O and plumbing.
- The acoustic measures (jitter, shimmer, loudness, zero-crossing rate, spectral centroid, speech rate, app.py:139-310), `download_models.py` and `vsa/backend/main.py`: library wrappers with no logic of their own to verify.
- Only the Python backend's pa-ta-ka path is modelled. The browser-side recording code is not part of this model.
