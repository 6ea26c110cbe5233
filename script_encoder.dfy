/** The decision the asset post-processor takes on a script's bytes after
    classifying them: skip it, or rewrite it from the classified codec. Only
    the byte-level tests are modelled; reading and writing files, decoding
    and newline rewriting are left to the host. */
module ScriptEncoder {
  import opened ClassifierSpec
  import ClassifierProperties

  /** The code page of the .NET encoding object each verdict stands for;
      `NoDetection` is the null encoding, which has none. */
  function CodePage(enc: Verdict): (cp: int)
    requires enc != NoDetection
    ensures cp == 65001 <==> enc == UTF8
  {
    match enc
    case UTF16 => 1200
    case ASCII => 20127
    case JIS => 50220
    case ShiftJIS => 932
    case EUC => 51932
    case UTF8 => 65001
  }

  /** The UTF-8 byte order mark. */
  const Bom: seq<byte> := [0xEF, 0xBB, 0xBF]

  /** The indexes the short-circuit test `bytes[0] == 0xEF && bytes[1] ==
      0xBB && bytes[2] == 0xBF` reads: the first byte always, the second
      only after a 0xEF, the third only after EF BB. */
  predicate MarkTestInBounds(bytes: seq<byte>) {
    |bytes| >= 1 && (bytes[0] == 0xEF ==> |bytes| >= 2 && (bytes[1] == 0xBB ==> |bytes| >= 3))
  }

  /** The mark test: false for any code page other than UTF-8's, else
      whether the buffer starts with EF BB BF, each byte read only when the
      ones before it matched. */
  function IsUtf8WithBom(enc: Verdict, bytes: seq<byte>): (r: bool)
    requires enc != NoDetection
    requires CodePage(enc) == 65001 ==> MarkTestInBounds(bytes)
    ensures r <==> enc == UTF8 && Bom <= bytes
  {
    if CodePage(enc) != 65001 then false
    else bytes[0] == 0xEF && bytes[1] == 0xBB && bytes[2] == 0xBF
  }

  /** The post-processor calls the mark test only on a verdict the
      classifier gave, and every buffer classified as UTF-8 is long enough
      for the bytes the test reads: a UTF-8 verdict needs a winning score of
      at least 2, and a two-byte buffer led by 0xEF scores 0 as UTF-8. */
  lemma ClassifiedBuffersKeepMarkTestInBounds(bytes: seq<byte>)
    requires Classify(bytes) != NoDetection
    ensures CodePage(Classify(bytes)) == 65001 ==> MarkTestInBounds(bytes)
    ensures Classify(bytes) == UTF8 ==> |bytes| >= 2 && (bytes[0] == 0xEF ==> |bytes| >= 3)
  {
    if Classify(bytes) == UTF8 {
      ClassifierProperties.MultiByteVerdictNeedsTwoBytes(bytes);
    }
  }

  /** The codec a script is rewritten from, or None when it is skipped:
      skipped exactly when nothing was detected, or when it is UTF-8 and
      already starts with the byte order mark. */
  function ConversionSource(bytes: seq<byte>): (r: Option<Verdict>)
    ensures r == None <==> Classify(bytes) == NoDetection || (Classify(bytes) == UTF8 && Bom <= bytes)
    ensures r != None ==> r.value == Classify(bytes)
  {
    var enc := Classify(bytes);
    if enc == NoDetection then None
    else
      ClassifiedBuffersKeepMarkTestInBounds(bytes);
      if IsUtf8WithBom(enc, bytes) then None
      else Some(enc)
  }
}
