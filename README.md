# Script encoding classifier, in Dafny

This project models `EncodeClassifier.Classify` of the Unity editor
extension *script-encoder*. Classify takes the raw bytes of a C# script and
guesses which encoding they are in. It returns one of UTF-16 (little-endian),
ASCII, ISO-2022-JP ("JIS"), Shift_JIS, EUC-JP or UTF-8, or `null` when it
cannot decide. It works as a fixed pipeline of five stages:

1. **Control-byte veto.** The first byte in {0x00-0x06, 0x7F, 0xFF} decides.
   A NUL followed by a byte <= 0x7F gives UTF-16. Anything else gives
   no detection.
2. **Plain ASCII.** No escape byte (0x1B) and no byte >= 0x80 gives ASCII.
3. **ISO-2022-JP.** Any of the designations `ESC $ @`, `ESC $ B`,
   `ESC ( B`, `ESC ( J`, `ESC ( I`, `ESC $ ( D` or `ESC & @ ESC $ B`
   that lies wholly inside the buffer gives JIS. RFC 1468 defines
   `ESC ( B`, `ESC ( J`, `ESC $ @` and `ESC $ B`, and RFC 2237 adds
   `ESC $ ( D`. The katakana designation `ESC ( I` and the revision prefix
   `ESC & @` are also accepted by the classifier.
4. **Scoring.** Three independent greedy passes count the bytes that form
   Shift_JIS, EUC-JP and (loose) UTF-8 characters. A recognised character
   is consumed whole.
5. **Verdict.** A score strictly above both others wins. Anything else,
   ties included, gives no detection.

Files:

- `classifier_spec.dfy` (module `ClassifierSpec`) holds the verdicts and the
  byte classes. It also holds one pure function per stage: a recursive veto
  scan `VetoFrom`, the predicate `PlainAscii`, the existential
  `HasJisEscape` over a table of designations, the greedy `Score` with
  `MatchLen`, `Decide`, and the pipeline `Classify`.
- `encode_classifier.dfy` (module `EncodeClassifier`) is the imperative
  classifier over `array<byte>`. It keeps the source's loops, early returns
  and in-body index bumps (`i := i + 1`, `i := i + 2`). It is proved equal to
  `ClassifierSpec.Classify`, and each scoring loop is proved equal to `Score`.
- `classifier_properties.dfy` (module `ClassifierProperties`) characterises
  each stage on its own. It also covers the greedy passes seen as a sequence
  of disjoint matched spans, and the precedence among the stages.
- `classifier_examples.dfy` (module `ClassifierExamples`) gives concrete
  buffers at each edge of the pipeline.
- `script_encoder.dfy` (module `ScriptEncoder`) models the caller's
  byte-order-mark test and its skip decision. It proves that the mark test
  stays inside every buffer the classifier sends it.

Only the first control byte counts, so `00 01` gives UTF-16 although 0x01
is itself a control byte (`ClassifierExamples.NulExamples`).

The code pages of `Encoding.Unicode` (1200), `Encoding.ASCII` (20127) and
`Encoding.UTF8` (65001) come from .NET. They are not in the source.

## Model

| member | source | states |
|---|---|---|
| `ClassifierSpec.Classify` | Scripts/Editor/EncodeClassifier.cs:21-188 | Each verdict comes from the first stage that decides: UTF16 only from the veto, ASCII only when the veto fell through and the buffer is plain ASCII, JIS only after that with a designation present, and a multi-byte verdict only from the strict-maximum rule after all three. |
| `ClassifierSpec.VetoVerdict` | Scripts/Editor/EncodeClassifier.cs:31-38 | A control byte decides UTF16 or NoDetection, and UTF16 only for a NUL that has a byte after it. |
| `ClassifierSpec.Accepts` | Scripts/Editor/EncodeClassifier.cs:107-165 | A character a pass accepts is 2 or 3 bytes long. A Shift_JIS character is always 2. |
| `ClassifierSpec.Decide` | Scripts/Editor/EncodeClassifier.cs:171-187 | The last stage answers only ShiftJIS, EUC, UTF8 or NoDetection, and a pass wins only with a score strictly above both others. |
| `EncodeClassifier.Classify` | Scripts/Editor/EncodeClassifier.cs:21-188 | For every byte array, the imperative classifier returns exactly the verdict of the five-stage specification `ClassifierSpec.Classify`. |
| `EncodeClassifier.ShiftJisScore` | Scripts/Editor/EncodeClassifier.cs:104-118 | The Shift_JIS loop, with its `i++` inside the body, computes the greedy score `Score(ShiftJisPass, bytes, 0)`. |
| `EncodeClassifier.EucScore` | Scripts/Editor/EncodeClassifier.cs:120-143 | The EUC-JP loop computes `Score(EucPass, bytes, 0)`. The two-byte test comes first, and the three-byte test runs only when three bytes remain. |
| `EncodeClassifier.Utf8Score` | Scripts/Editor/EncodeClassifier.cs:145-167 | The UTF-8 loop computes `Score(Utf8Pass, bytes, 0)`, in the same two-then-three order. |
| `ClassifierSpec.VetoFrom` | Scripts/Editor/EncodeClassifier.cs:25-40 | The veto scan either falls through or answers UTF16 or NoDetection, and nothing else. |
| `ClassifierSpec.MatchLen` | Scripts/Editor/EncodeClassifier.cs:107-167 | A character recognised at a position is 2 or 3 bytes long and fits inside the buffer. A Shift_JIS character is never 3 bytes. |
| `ClassifierSpec.Score` | Scripts/Editor/EncodeClassifier.cs:104-167 | A score from position i is at most the len - i bytes left. It is 0 or at least 2. The Shift_JIS score is even. |
| `ClassifierProperties.VetoAtFirstControl` | Scripts/Editor/EncodeClassifier.cs:25-40 | The veto scan answers with the verdict of the first control byte at or after the start, whatever follows it. |
| `ClassifierProperties.VetoNoneIff` | Scripts/Editor/EncodeClassifier.cs:25-40 | The veto scan falls through if and only if no control byte is left. |
| `ClassifierProperties.DesignationAtBytes` | Scripts/Editor/EncodeClassifier.cs:56-102 | At a position with three bytes left, the table of seven designations matches exactly when the source's nested byte tests succeed. The bounds are i+3 < len for `$ ( D` and i+5 < len for `& @ ESC $ B`. |
| `ClassifierProperties.DesignationImpliesTests` | Scripts/Editor/EncodeClassifier.cs:62-100 | A designation from the table at a position passes the source's byte tests there. |
| `ClassifierProperties.TestsImplyDesignation` | Scripts/Editor/EncodeClassifier.cs:62-100 | Wherever the source's byte tests succeed, a designation from the table occurs, wholly inside the buffer. |
| `ClassifierProperties.NoDesignationNearEnd` | Scripts/Editor/EncodeClassifier.cs:56 | No designation starts in the last two positions, so the scan bound `i < len - 2` misses none. |
| `ClassifierProperties.DesignationStartsWithEscape` | Scripts/Editor/EncodeClassifier.cs:62 | A designation starts with ESC, with at least three bytes left. |
| `ClassifierProperties.JisEscapeIsNotPlainAscii` | Scripts/Editor/EncodeClassifier.cs:42-102 | A buffer holding a designation never takes the ASCII exit. |
| `ClassifierProperties.SjisStep` | Scripts/Editor/EncodeClassifier.cs:107-118 | One Shift_JIS step on the source's byte ranges: a lead/trail pair adds 2 and skips 2, anything else skips 1. |
| `ClassifierProperties.EucStep` | Scripts/Editor/EncodeClassifier.cs:120-143 | One EUC-JP step: a JIS X 0208 or SS2 pair adds 2 and skips 2; else an SS3 triple (only with three bytes left) adds 3 and skips 3; else it skips 1. |
| `ClassifierProperties.Utf8Step` | Scripts/Editor/EncodeClassifier.cs:145-167 | One UTF-8 step: a C0-DF lead with one continuation byte adds 2; else an E0-EF lead with two continuation bytes adds 3; else it skips 1. |
| `ClassifierProperties.MatchLenIsTheAcceptedLength` | Scripts/Editor/EncodeClassifier.cs:125-165 | The two-byte and three-byte lead ranges are disjoint. So the length found is the only one accepted, and the three-byte test could be tried first without changing any score. |
| `ClassifierProperties.ScoreIsMatchedTotal` | Scripts/Editor/EncodeClassifier.cs:104-167 | Each score is the total length of the characters its greedy pass recognises. |
| `ClassifierProperties.MatchesAreWellPlaced` | Scripts/Editor/EncodeClassifier.cs:107-167 | Every recognised character lies inside the buffer, does not start at the last byte, is 2 or 3 bytes long, and is accepted by its pass. |
| `ClassifierProperties.MatchesAreDisjoint` | Scripts/Editor/EncodeClassifier.cs:107-167 | Recognised characters do not overlap, so the trailing bytes of a match are never examined again. |
| `ClassifierProperties.UncoveredPositionsMatchNothing` | Scripts/Editor/EncodeClassifier.cs:107-167 | The passes are greedy: a position (not the last) that no recognised character covers holds no character. |
| `ClassifierProperties.LowBytesScoreNothing` | Scripts/Editor/EncodeClassifier.cs:104-167 | Every lead byte is at least 0x81, so a buffer of lower bytes scores 0 in each pass. |
| `ClassifierProperties.DecideStrictMaximum` | Scripts/Editor/EncodeClassifier.cs:171-187 | Each multi-byte verdict is given if and only if its score is strictly above both others. NoDetection is given if and only if no strict maximum exists, including all-zero scores and ties. |
| `ClassifierProperties.ClassifyFirstControl` | Scripts/Editor/EncodeClassifier.cs:25-40 | With a control byte present, the verdict is that of the first one (UTF16 for a NUL followed by a byte <= 0x7F, else NoDetection), regardless of the rest. |
| `ClassifierProperties.FirstControl` | Scripts/Editor/EncodeClassifier.cs:25-30 | The position where the veto loop stops: a control byte with none before it. |
| `ClassifierProperties.ClassifyUtf16Iff` | Scripts/Editor/EncodeClassifier.cs:25-40 | UTF16 is returned if and only if the first control byte is a NUL that is not last and is followed by a byte <= 0x7F. |
| `ClassifierProperties.ClassifyAsciiIff` | Scripts/Editor/EncodeClassifier.cs:25-54 | ASCII is returned if and only if the buffer has no control byte, no ESC and no byte >= 0x80. |
| `ClassifierProperties.ClassifyJisIff` | Scripts/Editor/EncodeClassifier.cs:25-102 | JIS is returned if and only if the buffer has no control byte and a designation lies inside it, whatever the scores would be. |
| `ClassifierProperties.ClassifyMultiByteIff` | Scripts/Editor/EncodeClassifier.cs:104-187 | ShiftJIS, EUC and UTF8 are each returned if and only if the buffer reaches the scoring stage and that pass's score is the strict maximum. |
| `ClassifierProperties.MultiByteVerdictNeedsTwoBytes` | Scripts/Editor/EncodeClassifier.cs:104-187 | A multi-byte verdict needs a winning score of at least 2, hence a buffer of at least 2 bytes. |
| `ClassifierProperties.LowBytesAreNotDetected` | Scripts/Editor/EncodeClassifier.cs:104-187 | A buffer that reaches the scoring stage with every byte below 0x81 is not detected. |
| `ClassifierExamples.NoDesignationInShortBuffer` | Scripts/Editor/EncodeClassifier.cs:56 | A buffer of at most two bytes holds no designation. |
| `ClassifierExamples.EmptyIsAscii` | Scripts/Editor/EncodeClassifier.cs:42-54 | The empty buffer is ASCII. |
| `ClassifierExamples.NulExamples` | Scripts/Editor/EncodeClassifier.cs:25-40 | `00 41` and `00 01` give UTF16; `00 FF` and a trailing NUL in `41 00` give NoDetection. |
| `ClassifierExamples.LoneEscapeIsNotDetected` | Scripts/Editor/EncodeClassifier.cs:42-187 | `41 1B 41` passes stages 1 to 3 and scores nothing, so it gives NoDetection. |
| `ClassifierExamples.DesignationBeatsScores` | Scripts/Editor/EncodeClassifier.cs:56-102 | `ESC $ B` followed by a Shift_JIS pair gives JIS. |
| `ClassifierExamples.TwoByteUtf8` | Scripts/Editor/EncodeClassifier.cs:145-185 | `C2 80` gives UTF8. |
| `ClassifierExamples.ShiftJisEucTie` | Scripts/Editor/EncodeClassifier.cs:104-187 | `E0 A1` scores 2 as Shift_JIS, 2 as EUC-JP and 0 as UTF-8, and the tie gives NoDetection. |
| `ScriptEncoder.CodePage` | Scripts/Editor/ScriptEncoder.cs:56 | The code page is 65001 exactly for the UTF-8 verdict. |
| `ScriptEncoder.IsUtf8WithBom` | Scripts/Editor/ScriptEncoder.cs:54-67 | The mark test reads the bytes its short-circuit `&&` reaches: the first byte, the second only after 0xEF, the third only after EF BB. It is true exactly for a UTF-8 verdict on a buffer starting with EF BB BF. |
| `ScriptEncoder.ClassifiedBuffersKeepMarkTestInBounds` | Scripts/Editor/ScriptEncoder.cs:33-67 | Every buffer classified UTF-8 has at least two bytes, and at least three when it starts with 0xEF. So the mark test the post-processor runs after a verdict never indexes past the end. |
| `ScriptEncoder.ConversionSource` | Scripts/Editor/ScriptEncoder.cs:33-42 | A script is skipped exactly when nothing is detected, or when it is UTF-8 that already starts with the mark. Otherwise it is re-encoded from the classified codec. |

## Left out

- File I/O, the asset post-processor loop and its extension filter, decoding with `Encoding.GetString`, `Regex.Replace` newline rewriting and `File.WriteAllText`: these are I/O or foreign library code (Scripts/Editor/ScriptEncoder.cs:11-51). Only the decision at lines 33-42 is modelled.
- The `Debug.WriteLine` of the three scores and the `Debug.LogWarning`: logging only.
- The codecs behind the verdict tags: verdicts are plain tags, and nothing is decoded.
- A `null` array: Dafny arrays are never null, so the `NullReferenceException` on `bytes.Length` is not modelled.
- C# `int` overflow of the scores: scores are bounded by the array length, and the model uses unbounded `int`.
- `EncodeClassifier.Classify`: the three scoring loops are written as three methods (`ShiftJisScore`, `EucScore`, `Utf8Score`) called in the source's order, instead of being inlined in one method body. Each loop is unchanged.
