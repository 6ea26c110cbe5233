/** Concrete buffers and the verdicts the classifier gives them, one per
    edge of the pipeline. */
module ClassifierExamples {
  import opened ClassifierSpec
  import opened ClassifierProperties

  /** No position of a buffer this short starts a designation. */
  lemma NoDesignationInShortBuffer(s: seq<byte>)
    requires |s| <= 2
    ensures !HasJisEscape(s)
  {
  }

  /** The empty buffer is ASCII. */
  lemma EmptyIsAscii()
    ensures Classify([]) == ASCII
  {
  }

  /** A NUL followed by a 7-bit byte is UTF-16, even when that byte is
      itself a control byte; a NUL followed by 0xFF, or a NUL at the end, is
      not detected. */
  lemma NulExamples()
    ensures Classify([0x00, 0x41]) == UTF16
    ensures Classify([0x00, 0x01]) == UTF16
    ensures Classify([0x00, 0xFF]) == NoDetection
    ensures Classify([0x41, 0x00]) == NoDetection
  {
  }

  /** An escape byte with no designation after it, in otherwise 7-bit text,
      reaches the scoring passes and scores nothing. */
  lemma LoneEscapeIsNotDetected()
    ensures Classify([0x41, 0x1B, 0x41]) == NoDetection
  {
  }

  /** A designation wins over bytes that would score as Shift_JIS. */
  lemma DesignationBeatsScores()
    ensures Classify([0x1B, 0x24, 0x42, 0x82, 0xA0]) == JIS
  {
    var s: seq<byte> := [0x1B, 0x24, 0x42, 0x82, 0xA0];
    DesignationAtBytes(s, 0);
    ClassifyJisIff(s);
  }

  /** The smallest multi-byte verdict: one two-byte UTF-8 form. */
  lemma TwoByteUtf8()
    ensures Classify([0xC2, 0x80]) == UTF8
  {
  }

  /** E0 A1 reads as one Shift_JIS and one EUC-JP character; the tie at the
      top is no detection. */
  lemma ShiftJisEucTie()
    ensures Classify([0xE0, 0xA1]) == NoDetection
  {
  }
}
