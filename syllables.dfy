/** Tamil transcription normaliser of the pa-ta-ka analysis (app.py, normalize_syllables).

    A Whisper transcription is scanned left to right; at each position the
    longest key of a fixed pattern table that starts there is consumed and its
    syllables are emitted; a position where no key starts is skipped. */
module Syllables {

  import opened Wrappers

  // The Tamil code points the pattern table is written in.
  const Pa: char := '\U{0BAA}'      // letter PA
  const Tta: char := '\U{0B9F}'     // letter TTA
  const Ka: char := '\U{0B95}'      // letter KA
  const SignAa: char := '\U{0BBE}'  // vowel sign AA
  const Virama: char := '\U{0BCD}'  // vowel killer (pulli)

  // The three syllables the normaliser emits: "pa", "ta" and "ka".
  const SyllablePa: string := [Pa, SignAa]
  const SyllableTa: string := [Tta, SignAa]
  const SyllableKa: string := [Ka, SignAa]

  predicate IsSyllable(s: string) {
    s == SyllablePa || s == SyllableTa || s == SyllableKa
  }

  /** The pattern table: each key is a spelling Whisper produces, mapped to the
      syllables it stands for. */
  const Patterns: map<string, seq<string>> := map[
    [Pa, SignAa, Tta, Virama, Tta, SignAa, Ka] := [SyllablePa, SyllableTa, SyllableKa],
    [Pa, SignAa, Tta, Virama, Tta, SignAa] := [SyllablePa, SyllableTa],
    [Pa, SignAa, Ka, Virama, Ka, SignAa] := [SyllablePa, SyllableKa],
    [Ka, SignAa, Pa, Virama, Pa, SignAa] := [SyllableKa, SyllablePa],
    [Tta, SignAa, Ka, Virama, Ka, SignAa] := [SyllableTa, SyllableKa],
    [Pa, SignAa] := [SyllablePa],
    [Pa] := [SyllablePa],
    [Pa, Virama] := [SyllablePa],
    [Pa, Virama, Pa] := [SyllablePa],
    [Tta, Virama, Tta, SignAa] := [SyllableTa],
    [Tta, Virama] := [SyllableTa],
    [Tta] := [SyllableTa],
    [Tta, SignAa] := [SyllableTa],
    [Ka, Virama, Ka, SignAa] := [SyllableKa],
    [Ka, Virama] := [SyllableKa],
    [Ka] := [SyllableKa],
    [Ka, SignAa] := [SyllableKa]
  ]

  /** The order in which the scan tries the keys: the table's keys sorted by
      decreasing length, keys of equal length in table order (a stable sort). */
  const KeysByLength: seq<string> := [
    [Pa, SignAa, Tta, Virama, Tta, SignAa, Ka],
    [Pa, SignAa, Tta, Virama, Tta, SignAa],
    [Pa, SignAa, Ka, Virama, Ka, SignAa],
    [Ka, SignAa, Pa, Virama, Pa, SignAa],
    [Tta, SignAa, Ka, Virama, Ka, SignAa],
    [Tta, Virama, Tta, SignAa],
    [Ka, Virama, Ka, SignAa],
    [Pa, Virama, Pa],
    [Pa, SignAa],
    [Pa, Virama],
    [Tta, Virama],
    [Tta, SignAa],
    [Ka, Virama],
    [Ka, SignAa],
    [Pa],
    [Tta],
    [Ka]
  ]

  /** KeysByLength lists exactly the table's keys by non-increasing length,
      and no key is empty. */
  lemma KeysByLengthSorted()
    ensures ScanOrder(Patterns, KeysByLength)
  {
  }

  /** No key of the table is empty. */
  lemma PatternKeysNonEmpty()
    ensures NonEmptyKeys(Patterns)
  {
  }

  /** The table only ever stands for the three syllables. */
  lemma PatternsStandForSyllables()
    ensures SyllableValues(Patterns)
  {
  }

  /** Each key of the table stands for at most as many syllables as it has
      characters. */
  lemma PatternsShortValues()
    ensures ShortValues(Patterns)
  {
  }

  /* ---------------- The scan, over any table and key order ---------------- */

  /** `text.startswith(key, i)` for `i <= len(text)`, character by character. */
  predicate MatchesAt(text: string, i: nat, key: string)
    ensures MatchesAt(text, i, key) ==> i + |key| <= |text|
    decreases |key|
  {
    i <= |text| && (|key| == 0 || (i < |text| && text[i] == key[0] && MatchesAt(text, i + 1, key[1..])))
  }

  /** A key starts at `i` exactly when the slice of `text` of the key's length
      at `i` is the key. */
  lemma {:induction false} MatchesAtSlice(text: string, i: nat, key: string)
    ensures MatchesAt(text, i, key) <==> i + |key| <= |text| && text[i..i + |key|] == key
    decreases |key|
  {
    if |key| > 0 && i < |text| {
      MatchesAtSlice(text, i + 1, key[1..]);
      if i + |key| <= |text| {
        var s := text[i..i + |key|];
        assert s[0] == text[i] && s[1..] == text[i + 1..i + 1 + |key[1..]|];
        assert s == [s[0]] + s[1..] && key == [key[0]] + key[1..];
      }
    }
  }

  /** `keys` lists exactly the keys of `patterns`, longest first, and no key
      is empty: the order `sorted(patterns, key=lambda x: -len(x))` yields. */
  ghost predicate ScanOrder(patterns: map<string, seq<string>>, keys: seq<string>) {
    && (forall a :: 0 <= a < |keys| ==> keys[a] in patterns)
    && (forall key {:trigger Tried(keys, key)} :: key in patterns ==> Tried(keys, key))
    && (forall a, b :: 0 <= a < b < |keys| ==> |keys[a]| >= |keys[b]|)
    && NonEmptyKeys(patterns)
  }

  /** `key` is one of the keys the scan tries. */
  ghost predicate Tried(keys: seq<string>, key: string) {
    key in keys
  }

  /** No key is the empty string, so consuming a key always advances. */
  ghost predicate NonEmptyKeys(patterns: map<string, seq<string>>) {
    forall key :: key in patterns ==> |key| >= 1
  }

  /** Every key stands for a list of the three syllables. */
  ghost predicate SyllableValues(patterns: map<string, seq<string>>) {
    forall key :: key in patterns ==> forall k :: 0 <= k < |patterns[key]| ==> IsSyllable(patterns[key][k])
  }

  /** Every key stands for at most as many syllables as it has characters. */
  ghost predicate ShortValues(patterns: map<string, seq<string>>) {
    forall key :: key in patterns ==> |patterns[key]| <= |key|
  }

  /** No key of the table starts at `i`. */
  ghost predicate NoKeyMatches(patterns: map<string, seq<string>>, text: string, i: nat) {
    forall key :: key in patterns ==> !MatchesAt(text, i, key)
  }

  /** `key` is a table key that starts at `i`, and no longer key does. */
  ghost predicate IsLongestMatch(patterns: map<string, seq<string>>, text: string, i: nat, key: string) {
    && key in patterns
    && MatchesAt(text, i, key)
    && forall other :: other in patterns && MatchesAt(text, i, other) ==> |other| <= |key|
  }

  /** Two different keys of the same length never both start at one position,
      so the longest match is unique and the scan is deterministic. */
  lemma LongestMatchUnique(patterns: map<string, seq<string>>, text: string, i: nat, k1: string, k2: string)
    requires IsLongestMatch(patterns, text, i, k1) && IsLongestMatch(patterns, text, i, k2)
    ensures k1 == k2
  {
    MatchesAtSlice(text, i, k1);
    MatchesAtSlice(text, i, k2);
    assert |k1| == |k2|;
    assert k1 == text[i..i + |k1|] == k2;
  }

  /** The first key of the scan order that starts at `i` is the longest match. */
  lemma FirstMatchIsLongest(patterns: map<string, seq<string>>, keys: seq<string>, text: string, i: nat, j: nat)
    requires ScanOrder(patterns, keys)
    requires j < |keys| && MatchesAt(text, i, keys[j])
    requires forall m :: 0 <= m < j ==> !MatchesAt(text, i, keys[m])
    ensures IsLongestMatch(patterns, text, i, keys[j])
  {
    forall other | other in patterns && MatchesAt(text, i, other)
      ensures |other| <= |keys[j]|
    {
      assert Tried(keys, other);
      var m :| 0 <= m < |keys| && keys[m] == other;
      assert j <= m;
    }
  }

  /** A non-empty finite set of strings has a longest element. */
  lemma {:induction false} LongestInSet(s: set<string>)
    requires s != {}
    ensures exists k :: k in s && forall o :: o in s ==> |o| <= |k|
    decreases |s|
  {
    var x :| x in s;
    if s != {x} {
      LongestInSet(s - {x});
      var y :| y in s - {x} && forall o :: o in s - {x} ==> |o| <= |y|;
      if |x| > |y| {
        assert forall o :: o in s ==> |o| <= |x|;
      } else {
        assert forall o :: o in s ==> |o| <= |y|;
      }
    }
  }

  /** Whenever some key starts at `i`, a longest one exists. */
  lemma LongestMatchExists(patterns: map<string, seq<string>>, text: string, i: nat)
    requires !NoKeyMatches(patterns, text, i)
    ensures exists key :: IsLongestMatch(patterns, text, i, key)
  {
    var matching := set key | key in patterns && MatchesAt(text, i, key);
    var some :| some in patterns && MatchesAt(text, i, some);
    assert some in matching;
    LongestInSet(matching);
    var key :| key in matching && forall o :: o in matching ==> |o| <= |key|;
    assert IsLongestMatch(patterns, text, i, key);
  }

  /** The key consumed at position `i`, if any. */
  ghost function LongestMatch(patterns: map<string, seq<string>>, text: string, i: nat): (r: Option<string>)
    ensures r.None? <==> NoKeyMatches(patterns, text, i)
    ensures r.Some? ==> IsLongestMatch(patterns, text, i, r.value)
  {
    if NoKeyMatches(patterns, text, i) then None
    else
      LongestMatchExists(patterns, text, i);
      var key :| IsLongestMatch(patterns, text, i, key);
      Some(key)
  }

  /** The syllables read from `text[i..]`: the longest key at `i` contributes its
      syllables and is consumed; without one, the character at `i` is skipped. */
  ghost function NormalizeFrom(patterns: map<string, seq<string>>, text: string, i: nat): seq<string>
    requires NonEmptyKeys(patterns)
    requires i <= |text|
    decreases |text| - i
  {
    if i == |text| then []
    else
      match LongestMatch(patterns, text, i)
      case None => NormalizeFrom(patterns, text, i + 1)
      case Some(key) => patterns[key] + NormalizeFrom(patterns, text, i + |key|)
  }

  /** When keys[j] is the first key in scan order starting at `i`, the
      specification consumes exactly that key there. */
  lemma ConsumeStep(patterns: map<string, seq<string>>, keys: seq<string>, text: string, i: nat, j: nat)
    requires ScanOrder(patterns, keys)
    requires i < |text|
    requires j < |keys| && MatchesAt(text, i, keys[j])
    requires forall m :: 0 <= m < j ==> !MatchesAt(text, i, keys[m])
    ensures i < i + |keys[j]| <= |text| && keys[j] in patterns
    ensures NormalizeFrom(patterns, text, i) == patterns[keys[j]] + NormalizeFrom(patterns, text, i + |keys[j]|)
  {
    FirstMatchIsLongest(patterns, keys, text, i, j);
    LongestStep(patterns, text, i, keys[j]);
  }

  /** When no key starts at `i`, the specification skips that character and
      produces nothing for it. */
  lemma SkipStep(patterns: map<string, seq<string>>, keys: seq<string>, text: string, i: nat)
    requires ScanOrder(patterns, keys)
    requires i < |text|
    requires forall m :: 0 <= m < |keys| ==> !MatchesAt(text, i, keys[m])
    ensures NormalizeFrom(patterns, text, i) == NormalizeFrom(patterns, text, i + 1)
  {
    forall key | key in patterns
      ensures !MatchesAt(text, i, key)
    {
      assert Tried(keys, key);
    }
  }

  /** Unfolds the specification at a position whose longest match is known. */
  lemma LongestStep(patterns: map<string, seq<string>>, text: string, i: nat, key: string)
    requires NonEmptyKeys(patterns)
    requires i < |text| && IsLongestMatch(patterns, text, i, key)
    ensures NormalizeFrom(patterns, text, i) == patterns[key] + NormalizeFrom(patterns, text, i + |key|)
  {
    LongestMatchUnique(patterns, text, i, LongestMatch(patterns, text, i).value, key);
  }

  /** The inner loop of normalize_syllables: the index of the first key in
      scan order that starts at `i`, or `|keys|` when none does. */
  method FirstMatch(keys: seq<string>, text: string, i: nat) returns (j: nat)
    ensures j <= |keys|
    ensures forall m :: 0 <= m < j ==> !MatchesAt(text, i, keys[m])
    ensures j < |keys| ==> MatchesAt(text, i, keys[j])
  {
    j := 0;
    while j < |keys|
      invariant j <= |keys|
      invariant forall m :: 0 <= m < j ==> !MatchesAt(text, i, keys[m])
    {
      if MatchesAt(text, i, keys[j]) {
        return;
      }
      j := j + 1;
    }
  }

  /** One pass of the outer loop of normalize_syllables at position `i`: the
      keys are tried in scan order and the first one that starts at `i` is
      consumed, giving its syllables; if none does, one character is skipped
      and nothing is produced. */
  method ScanStep(patterns: map<string, seq<string>>, keys: seq<string>, text: string, i: nat)
    returns (piece: seq<string>, next: nat)
    requires ScanOrder(patterns, keys)
    requires i < |text|
    ensures i < next <= |text|
    ensures NormalizeFrom(patterns, text, i) == piece + NormalizeFrom(patterns, text, next)
  {
    var j := FirstMatch(keys, text, i);
    if j < |keys| {
      ConsumeStep(patterns, keys, text, i, j);
      piece, next := patterns[keys[j]], i + |keys[j]|;
    } else {
      SkipStep(patterns, keys, text, i);
      piece, next := [], i + 1;
    }
  }

  /** The greedy longest-prefix scan of normalize_syllables, pass after pass
      until the end of the text. */
  method Scan(patterns: map<string, seq<string>>, keys: seq<string>, text: string) returns (out: seq<string>)
    requires ScanOrder(patterns, keys)
    ensures out == NormalizeFrom(patterns, text, 0)
  {
    out := [];
    var i := 0;
    while i < |text|
      invariant i <= |text|
      invariant out + NormalizeFrom(patterns, text, i) == NormalizeFrom(patterns, text, 0)
      decreases |text| - i
    {
      var piece, next := ScanStep(patterns, keys, text, i);
      assert out + NormalizeFrom(patterns, text, i) == (out + piece) + NormalizeFrom(patterns, text, next);
      out, i := out + piece, next;
    }
  }

  /* ---------------- Properties of the scan ---------------- */

  /** Only syllables the table stands for come out. */
  lemma {:induction false} NormalizeAlphabet(patterns: map<string, seq<string>>, text: string, i: nat)
    requires NonEmptyKeys(patterns) && SyllableValues(patterns)
    requires i <= |text|
    ensures forall k :: 0 <= k < |NormalizeFrom(patterns, text, i)| ==> IsSyllable(NormalizeFrom(patterns, text, i)[k])
    decreases |text| - i
  {
    if i < |text| {
      match LongestMatch(patterns, text, i)
      case None => NormalizeAlphabet(patterns, text, i + 1);
      case Some(key) => NormalizeAlphabet(patterns, text, i + |key|);
    }
  }

  /** Each consumed key yields at most as many syllables as it has characters
      and a skipped character yields none, so the output is no longer than the
      rest of the text. */
  lemma {:induction false} NormalizeLength(patterns: map<string, seq<string>>, text: string, i: nat)
    requires NonEmptyKeys(patterns) && ShortValues(patterns)
    requires i <= |text|
    ensures |NormalizeFrom(patterns, text, i)| <= |text| - i
    decreases |text| - i
  {
    if i < |text| {
      match LongestMatch(patterns, text, i)
      case None => NormalizeLength(patterns, text, i + 1);
      case Some(key) => NormalizeLength(patterns, text, i + |key|);
    }
  }

  /** Characters where no key starts contribute nothing: a text in which no key
      starts anywhere normalises to the empty list. */
  lemma {:induction false} NormalizeNoMatch(patterns: map<string, seq<string>>, text: string, i: nat)
    requires NonEmptyKeys(patterns)
    requires i <= |text|
    requires forall p :: i <= p < |text| ==> NoKeyMatches(patterns, text, p)
    ensures NormalizeFrom(patterns, text, i) == []
    decreases |text| - i
  {
    if i < |text| {
      NormalizeNoMatch(patterns, text, i + 1);
    }
  }

  /* ---------------- normalize_syllables itself ---------------- */

  /** The syllables of a transcription under the source's pattern table. */
  ghost function Normalize(text: string): seq<string> {
    PatternKeysNonEmpty();
    NormalizeFrom(Patterns, text, 0)
  }

  /** normalize_syllables: scans `text` with the pattern table, keys tried
      longest first. The result holds only "pa", "ta" and "ka" and is no longer
      than the text. */
  method NormalizeSyllables(text: string) returns (out: seq<string>)
    ensures out == Normalize(text)
    ensures forall k :: 0 <= k < |out| ==> IsSyllable(out[k])
    ensures |out| <= |text|
  {
    KeysByLengthSorted();
    PatternsStandForSyllables();
    PatternsShortValues();
    out := Scan(Patterns, KeysByLength, text);
    NormalizeAlphabet(Patterns, text, 0);
    NormalizeLength(Patterns, text, 0);
  }

  /** Every key begins with one of the consonants PA, TTA or KA, so any other
      character is skipped. */
  lemma KeysStartWithConsonant()
    ensures forall key :: key in Patterns ==> key[0] in {Pa, Tta, Ka}
  {
  }

  /** A transcription without the consonants PA, TTA and KA (Latin text, other
      Tamil letters, spaces) yields no syllables at all; in particular the
      empty transcription yields none. */
  lemma NormalizeOtherText(text: string)
    requires forall p :: 0 <= p < |text| ==> text[p] !in {Pa, Tta, Ka}
    ensures Normalize(text) == []
  {
    KeysByLengthSorted();
    KeysStartWithConsonant();
    forall p | 0 <= p < |text|
      ensures NoKeyMatches(Patterns, text, p)
    {
      forall key | key in Patterns ensures !MatchesAt(text, p, key) {
        assert |key| >= 1 && key[0] != text[p];
      }
    }
    NormalizeNoMatch(Patterns, text, 0);
  }

  /** A transcription that is exactly one key yields that key's syllables. */
  lemma NormalizeWholeKey(key: string)
    requires key in Patterns
    ensures Normalize(key) == Patterns[key]
  {
    PatternKeysNonEmpty();
    MatchesAtSlice(key, 0, key);
    assert key[0..|key|] == key;
    LongestStep(Patterns, key, 0, key);
  }

  /** "பாட்டாக" is read as pa, ta, ka. */
  lemma NormalizePaTtaKa()
    ensures Normalize([Pa, SignAa, Tta, Virama, Tta, SignAa, Ka]) == [SyllablePa, SyllableTa, SyllableKa]
  {
    assert Patterns[[Pa, SignAa, Tta, Virama, Tta, SignAa, Ka]] == [SyllablePa, SyllableTa, SyllableKa];
    NormalizeWholeKey([Pa, SignAa, Tta, Virama, Tta, SignAa, Ka]);
  }

  /** "ப்ப" is one pa: the three-character key wins over "ப்" followed by "ப",
      which would have given two. */
  lemma NormalizeLongestWins()
    ensures Normalize([Pa, Virama, Pa]) == [SyllablePa]
  {
    assert Patterns[[Pa, Virama, Pa]] == [SyllablePa];
    NormalizeWholeKey([Pa, Virama, Pa]);
  }

  /** A text made of two keys, each the longest match where it starts, yields
      the syllables of the first and then those of the second. */
  lemma TwoKeysInARow(patterns: map<string, seq<string>>, k1: string, k2: string)
    requires NonEmptyKeys(patterns)
    requires IsLongestMatch(patterns, k1 + k2, 0, k1) && IsLongestMatch(patterns, k1 + k2, |k1|, k2)
    ensures NormalizeFrom(patterns, k1 + k2, 0) == patterns[k1] + patterns[k2]
  {
    LongestStep(patterns, k1 + k2, 0, k1);
    LongestStep(patterns, k1 + k2, |k1|, k2);
    assert NormalizeFrom(patterns, k1 + k2, |k1 + k2|) == [];
  }

  /** A key that starts a text is the longest match there when no longer
      prefix of the text is a key. */
  lemma LongestAtStart(patterns: map<string, seq<string>>, text: string, key: string)
    requires key in patterns && MatchesAt(text, 0, key)
    requires forall n :: |key| < n <= |text| ==> text[..n] !in patterns
    ensures IsLongestMatch(patterns, text, 0, key)
  {
    forall other | other in patterns && MatchesAt(text, 0, other)
      ensures |other| <= |key|
    {
      MatchesAtSlice(text, 0, other);
      assert text[..|other|] == other;
    }
  }

  /** In "பட" the longest key at position 0 is "ப"... */
  lemma BareConsonantsFirstKey()
    ensures IsLongestMatch(Patterns, [Pa, Tta], 0, [Pa])
  {
    var text := [Pa, Tta];
    assert text[..2] == text && text !in Patterns;
    LongestAtStart(Patterns, text, [Pa]);
  }

  /** ...and at position 1 it is "ட", the last character. */
  lemma BareConsonantsSecondKey()
    ensures IsLongestMatch(Patterns, [Pa, Tta], 1, [Tta])
  {
  }

  /** "பட", two bare consonants, is pa, ta. */
  lemma NormalizeBareConsonants()
    ensures Normalize([Pa, Tta]) == [SyllablePa, SyllableTa]
  {
    assert [Pa] + [Tta] == [Pa, Tta];
    assert Patterns[[Pa]] + Patterns[[Tta]] == [SyllablePa, SyllableTa];
    PatternKeysNonEmpty();
    BareConsonantsFirstKey();
    BareConsonantsSecondKey();
    TwoKeysInARow(Patterns, [Pa], [Tta]);
  }
}
