/** Pure specification of the encoding classifier: the verdicts, the byte
    classes each stage tests, and one recursive or declarative function per
    stage of the pipeline. The imperative classifier in module
    EncodeClassifier is proved equal to `Classify` below. */
module ClassifierSpec {

  /** An unsigned 8-bit value, as the bytes of a C# `byte[]`. */
  newtype byte = b: int | 0 <= b < 0x100

  datatype Option<T> = None | Some(value: T)

  /** The classifier's answer. `NoDetection` stands for the `null` encoding;
      the other tags stand for Encoding.Unicode, Encoding.ASCII, code page
      50220 (ISO-2022-JP), code page 932 (Shift_JIS), code page 51932 (EUC-JP)
      and Encoding.UTF8. */
  datatype Verdict = NoDetection | UTF16 | ASCII | JIS | ShiftJIS | EUC | UTF8

  const Escape: byte := 0x1B

  // ---------------------------------------------------------------------
  // Stage 1: control-byte veto

  /** The bytes the classifier treats as a veto on the byte-oriented
      encodings: it takes them as a sign that the script is not text in any
      of them, although 0x01-0x06 and 0x7F are legal there. */
  predicate IsControl(b: byte) {
    b <= 0x06 || b == 0x7F || b == 0xFF
  }

  predicate FreeOfControl(s: seq<byte>) {
    forall j :: 0 <= j < |s| ==> !IsControl(s[j])
  }

  /** What a control byte at position k decides: a NUL followed by a 7-bit
      byte reads as one little-endian UTF-16 code unit of Latin text. */
  function VetoVerdict(s: seq<byte>, k: nat): (v: Verdict)
    requires k < |s|
    ensures v == UTF16 || v == NoDetection
    ensures v == UTF16 ==> s[k] == 0x00 && k + 1 < |s|
  {
    if s[k] == 0x00 && k + 1 < |s| && s[k + 1] <= 0x7F then UTF16 else NoDetection
  }

  /** The veto scan from position i: the verdict of the first control byte
      at or after i, or None when there is none. */
  function VetoFrom(s: seq<byte>, i: nat): (r: Option<Verdict>)
    ensures r == None || r == Some(UTF16) || r == Some(NoDetection)
    decreases |s| - i
  {
    if i >= |s| then None
    else if IsControl(s[i]) then Some(VetoVerdict(s, i))
    else VetoFrom(s, i + 1)
  }

  // ---------------------------------------------------------------------
  // Stage 2: plain ASCII

  /** No escape byte and no byte with the high bit set. */
  predicate PlainAscii(s: seq<byte>) {
    forall j :: 0 <= j < |s| ==> s[j] != Escape && s[j] < 0x80
  }

  // ---------------------------------------------------------------------
  // Stage 3: ISO-2022-JP designations

  /** The escape sequences recognised, ESC included: JIS X 0208-1978
      (ESC $ @), JIS X 0208-1983 (ESC $ B), ASCII (ESC ( B), JIS X 0201 Roman
      (ESC ( J), JIS X 0201 katakana (ESC ( I), JIS X 0212 (ESC $ ( D) and
      JIS X 0208-1990 (ESC & @ ESC $ B). RFC 1468 defines ESC ( B, ESC ( J,
      ESC $ @ and ESC $ B, and RFC 2237 adds ESC $ ( D; the katakana
      designation and the revision prefix ESC & @ are also accepted by the
      classifier. */
  const Designations: seq<seq<byte>> := [
    [0x1B, 0x24, 0x40],
    [0x1B, 0x24, 0x42],
    [0x1B, 0x28, 0x42],
    [0x1B, 0x28, 0x4A],
    [0x1B, 0x28, 0x49],
    [0x1B, 0x24, 0x28, 0x44],
    [0x1B, 0x26, 0x40, 0x1B, 0x24, 0x42]
  ]

  /** The pattern occurs at position i, entirely inside the buffer. */
  predicate OccursAt(s: seq<byte>, i: nat, pat: seq<byte>) {
    i + |pat| <= |s| && s[i..i + |pat|] == pat
  }

  predicate DesignationAt(s: seq<byte>, i: nat) {
    exists k :: 0 <= k < |Designations| && OccursAt(s, i, Designations[k])
  }

  predicate HasJisEscape(s: seq<byte>) {
    exists i :: 0 <= i < |s| && DesignationAt(s, i)
  }

  // ---------------------------------------------------------------------
  // Stage 4: greedy scoring

  /** The three scoring passes. */
  datatype Pass = ShiftJisPass | EucPass | Utf8Pass

  /** A Shift_JIS double-byte character. */
  predicate SjisChar(t: seq<byte>) {
    && |t| == 2
    && (0x81 <= t[0] <= 0x9F || 0xE0 <= t[0] <= 0xFC)
    && (0x40 <= t[1] <= 0x7E || 0x80 <= t[1] <= 0xFC)
  }

  predicate EucByte(b: byte) { 0xA1 <= b <= 0xFE }

  /** An EUC-JP character of two or three bytes: JIS X 0208, half-width
      katakana after SS2 (0x8E), or JIS X 0212 after SS3 (0x8F). */
  predicate EucChar(t: seq<byte>) {
    || (|t| == 2 && EucByte(t[0]) && EucByte(t[1]))
    || (|t| == 2 && t[0] == 0x8E && 0xA1 <= t[1] <= 0xDF)
    || (|t| == 3 && t[0] == 0x8F && EucByte(t[1]) && EucByte(t[2]))
  }

  predicate Continuation(b: byte) { 0x80 <= b <= 0xBF }

  /** The loose UTF-8 forms the classifier counts: any lead in [0xC0, 0xDF]
      with one continuation byte, any lead in [0xE0, 0xEF] with two. */
  predicate Utf8Char(t: seq<byte>) {
    || (|t| == 2 && 0xC0 <= t[0] <= 0xDF && Continuation(t[1]))
    || (|t| == 3 && 0xE0 <= t[0] <= 0xEF && Continuation(t[1]) && Continuation(t[2]))
  }

  predicate Accepts(p: Pass, t: seq<byte>)
    ensures Accepts(p, t) ==> |t| == 2 || |t| == 3
    ensures Accepts(p, t) && p == ShiftJisPass ==> |t| == 2
  {
    match p
    case ShiftJisPass => SjisChar(t)
    case EucPass => EucChar(t)
    case Utf8Pass => Utf8Char(t)
  }

  /** Length of the character a pass recognises at position i (0 for none),
      the two-byte form tried first and the three-byte form only when three
      bytes remain. */
  function MatchLen(p: Pass, s: seq<byte>, i: nat): (m: nat)
    requires i + 1 < |s|
    ensures m == 0 || m == 2 || m == 3
    ensures i + m <= |s|
    ensures p == ShiftJisPass ==> m != 3
  {
    if Accepts(p, s[i..i + 2]) then 2
    else if i + 2 < |s| && Accepts(p, s[i..i + 3]) then 3
    else 0
  }

  /** The greedy score of the buffer from position i on: a recognised
      character adds its length and is skipped whole; otherwise the scan
      moves one byte. The last byte is never a lead. */
  function Score(p: Pass, s: seq<byte>, i: nat): (n: nat)
    ensures i <= |s| ==> n <= |s| - i
    ensures n == 0 || n >= 2
    ensures p == ShiftJisPass ==> n % 2 == 0
    decreases |s| - i
  {
    if i + 1 >= |s| then 0
    else
      var m := MatchLen(p, s, i);
      if m == 0 then Score(p, s, i + 1) else m + Score(p, s, i + m)
  }

  // ---------------------------------------------------------------------
  // Stage 5: strict maximum

  /** Only a strict maximum wins; the veto's, ASCII's and JIS's verdicts
      never come out of this stage. */
  function Decide(sjis: int, euc: int, utf8: int): (v: Verdict)
    ensures v == NoDetection || v == ShiftJIS || v == EUC || v == UTF8
    ensures v == ShiftJIS ==> sjis > euc && sjis > utf8
    ensures v == EUC ==> euc > sjis && euc > utf8
    ensures v == UTF8 ==> utf8 > sjis && utf8 > euc
  {
    if euc > sjis && euc > utf8 then EUC
    else if sjis > euc && sjis > utf8 then ShiftJIS
    else if utf8 > euc && utf8 > sjis then UTF8
    else NoDetection
  }

  // ---------------------------------------------------------------------
  // The pipeline

  /** The five stages in order, each deciding only when the ones before it
      fell through. */
  function Classify(s: seq<byte>): (v: Verdict)
    ensures v == UTF16 ==> VetoFrom(s, 0) == Some(UTF16)
    ensures v == ASCII ==> VetoFrom(s, 0) == None && PlainAscii(s)
    ensures v == JIS ==> VetoFrom(s, 0) == None && !PlainAscii(s) && HasJisEscape(s)
    ensures (v == ShiftJIS || v == EUC || v == UTF8) ==>
      && VetoFrom(s, 0) == None && !PlainAscii(s) && !HasJisEscape(s)
      && v == Decide(Score(ShiftJisPass, s, 0), Score(EucPass, s, 0), Score(Utf8Pass, s, 0))
  {
    match VetoFrom(s, 0)
    case Some(v) => v
    case None =>
      if PlainAscii(s) then ASCII
      else if HasJisEscape(s) then JIS
      else Decide(Score(ShiftJisPass, s, 0), Score(EucPass, s, 0), Score(Utf8Pass, s, 0))
  }
}
