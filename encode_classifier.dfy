/** The classifier as script-encoder's `EncodeClassifier.Classify` writes it: one pass per stage over the
    byte array, with early returns, and scoring loops that skip the
    trailing bytes of each recognised character by advancing the index
    inside the loop body. */
module EncodeClassifier {
  import opened ClassifierSpec
  import ClassifierProperties

  const ByteEscape: byte := 0x1B
  const ByteAt: byte := 0x40
  const ByteDollar: byte := 0x24
  const ByteAnd: byte := 0x26
  const ByteOpen: byte := 0x28
  const ByteB: byte := 0x42
  const ByteD: byte := 0x44
  const ByteJ: byte := 0x4A
  const ByteI: byte := 0x49

  method Classify(bytes: array<byte>) returns (v: Verdict)
    ensures v == ClassifierSpec.Classify(bytes[..])
  {
    ghost var s := bytes[..];
    var len := bytes.Length;

    // Stage 1: the first control byte decides.
    var i := 0;
    while i < len
      invariant 0 <= i <= len
      invariant VetoFrom(s, i) == VetoFrom(s, 0)
    {
      var b0 := bytes[i];
      if b0 <= 0x06 || b0 == 0x7F || b0 == 0xFF {
        if b0 == 0x00 && i < len - 1 && bytes[i + 1] <= 0x7F {
          return UTF16;
        } else {
          return NoDetection;
        }
      }
      i := i + 1;
    }

    // Stage 2: no escape byte and no high bit means ASCII.
    var notJapanese := true;
    i := 0;
    while i < len
      invariant 0 <= i <= len
      invariant notJapanese
      invariant forall j :: 0 <= j < i ==> s[j] != Escape && s[j] < 0x80
    {
      var b := bytes[i];
      if b == ByteEscape || 0x80 <= b {
        notJapanese := false;
        break;
      }
      i := i + 1;
    }
    if notJapanese {
      return ASCII;
    }

    // Stage 3: any ISO-2022-JP designation means JIS.
    i := 0;
    while i < len - 2
      invariant 0 <= i
      invariant forall j :: 0 <= j < i ==> !DesignationAt(s, j)
    {
      var b0 := bytes[i];
      var b1 := bytes[i + 1];
      var b2 := bytes[i + 2];
      ClassifierProperties.DesignationAtBytes(s, i);

      if b0 == ByteEscape {
        if b1 == ByteDollar && b2 == ByteAt {
          return JIS;  // JIS X 0208-1978
        } else if b1 == ByteDollar && b2 == ByteB {
          return JIS;  // JIS X 0208-1983
        } else if b1 == ByteOpen && (b2 == ByteB || b2 == ByteJ) {
          return JIS;  // ASCII or JIS X 0201 Roman
        } else if b1 == ByteOpen && b2 == ByteI {
          return JIS;  // JIS X 0201 katakana
        }

        if i < len - 3 {
          var b3 := bytes[i + 3];

          if b1 == ByteDollar && b2 == ByteOpen && b3 == ByteD {
            return JIS;  // JIS X 0212
          }

          if i < len - 5 && b1 == ByteAnd && b2 == ByteAt && b3 == ByteEscape && bytes[i + 4] == ByteDollar && bytes[i + 5] == ByteB {
            return JIS;  // JIS X 0208-1990
          }
        }
      }
      i := i + 1;
    }
    forall j | 0 <= j < |s|
      ensures !DesignationAt(s, j)
    {
      if j + 2 >= |s| {
        ClassifierProperties.NoDesignationNearEnd(s, j);
      }
    }

    // Stage 4: three independent greedy scoring passes.
    var sjis := ShiftJisScore(bytes);
    var euc := EucScore(bytes);
    var utf8 := Utf8Score(bytes);

    // Stage 5: a strict maximum wins; anything else is no detection.
    if euc > sjis && euc > utf8 {
      return EUC;
    } else if sjis > euc && sjis > utf8 {
      return ShiftJIS;
    } else if utf8 > euc && utf8 > sjis {
      return UTF8;
    }

    return NoDetection;
  }

  /** Stage 4, Shift_JIS pass: a lead byte followed by a trail byte scores
      two and both are consumed. */
  method ShiftJisScore(bytes: array<byte>) returns (sjis: int)
    ensures sjis == Score(ShiftJisPass, bytes[..], 0)
  {
    ghost var s := bytes[..];
    var len := bytes.Length;
    sjis := 0;
    var i := 0;
    while i < len - 1
      invariant 0 <= i <= len
      invariant sjis + Score(ShiftJisPass, s, i) == Score(ShiftJisPass, s, 0)
    {
      var b0 := bytes[i];
      var b1 := bytes[i + 1];
      ClassifierProperties.SjisStep(s, i);

      if ((0x81 <= b0 && b0 <= 0x9F) || (0xE0 <= b0 && b0 <= 0xFC)) && ((0x40 <= b1 && b1 <= 0x7E) || (0x80 <= b1 && b1 <= 0xFC)) {
        sjis := sjis + 2;
        i := i + 1;
      }
      i := i + 1;
    }
  }

  /** Stage 4, EUC-JP pass: a two-byte character scores two, an SS3
      character three; the two-byte test comes first. */
  method EucScore(bytes: array<byte>) returns (euc: int)
    ensures euc == Score(EucPass, bytes[..], 0)
  {
    ghost var s := bytes[..];
    var len := bytes.Length;
    euc := 0;
    var i := 0;
    while i < len - 1
      invariant 0 <= i <= len
      invariant euc + Score(EucPass, s, i) == Score(EucPass, s, 0)
    {
      var b0 := bytes[i];
      var b1 := bytes[i + 1];
      ClassifierProperties.EucStep(s, i);

      if ((0xA1 <= b0 && b0 <= 0xFE) && (0xA1 <= b1 && b1 <= 0xFE)) || (b0 == 0x8E && (0xA1 <= b1 && b1 <= 0xDF)) {
        euc := euc + 2;
        i := i + 1;
      } else if i < len - 2 {
        var b2 := bytes[i + 2];

        if b0 == 0x8F && (0xA1 <= b1 && b1 <= 0xFE) && (0xA1 <= b2 && b2 <= 0xFE) {
          euc := euc + 3;
          i := i + 2;
        }
      }
      i := i + 1;
    }
  }

  /** Stage 4, UTF-8 pass: a two-byte form scores two, a three-byte form
      three; the two-byte test comes first. */
  method Utf8Score(bytes: array<byte>) returns (utf8: int)
    ensures utf8 == Score(Utf8Pass, bytes[..], 0)
  {
    ghost var s := bytes[..];
    var len := bytes.Length;
    utf8 := 0;
    var i := 0;
    while i < len - 1
      invariant 0 <= i <= len
      invariant utf8 + Score(Utf8Pass, s, i) == Score(Utf8Pass, s, 0)
    {
      var b0 := bytes[i];
      var b1 := bytes[i + 1];
      ClassifierProperties.Utf8Step(s, i);

      if (0xC0 <= b0 && b0 <= 0xDF) && (0x80 <= b1 && b1 <= 0xBF) {
        utf8 := utf8 + 2;
        i := i + 1;
      } else if i < len - 2 {
        var b2 := bytes[i + 2];

        if (0xE0 <= b0 && b0 <= 0xEF) && (0x80 <= b1 && b1 <= 0xBF) && (0x80 <= b2 && b2 <= 0xBF) {
          utf8 := utf8 + 3;
          i := i + 2;
        }
      }
      i := i + 1;
    }
  }
}
