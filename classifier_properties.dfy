/** Properties of the classifier specification: each stage characterised on
    its own, the scoring passes viewed as sequences of disjoint matched
    spans, and the precedence among the stages of the pipeline. */
module ClassifierProperties {
  import opened ClassifierSpec

  // ---------------------------------------------------------------------
  // Stage 1

  /** The veto scan answers with the verdict of the first control byte. */
  lemma {:induction false} VetoAtFirstControl(s: seq<byte>, i: nat, k: nat)
    requires i <= k < |s| && IsControl(s[k])
    requires forall j :: i <= j < k ==> !IsControl(s[j])
    ensures VetoFrom(s, i) == Some(VetoVerdict(s, k))
    decreases k - i
  {
    if i < k {
      VetoAtFirstControl(s, i + 1, k);
    }
  }

  /** The veto scan falls through exactly when no control byte follows i. */
  lemma {:induction false} VetoNoneIff(s: seq<byte>, i: nat)
    ensures VetoFrom(s, i) == None <==> forall j :: i <= j < |s| ==> !IsControl(s[j])
    decreases |s| - i
  {
    if i < |s| && !IsControl(s[i]) {
      VetoNoneIff(s, i + 1);
    }
  }

  // ---------------------------------------------------------------------
  // Stage 3

  /** The byte tests the escape scan makes at a position with at least
      three bytes left. */
  predicate EscapeTestsAt(s: seq<byte>, i: nat)
    requires i + 2 < |s|
  {
    s[i] == 0x1B &&
    (|| (s[i + 1] == 0x24 && s[i + 2] == 0x40)
     || (s[i + 1] == 0x24 && s[i + 2] == 0x42)
     || (s[i + 1] == 0x28 && (s[i + 2] == 0x42 || s[i + 2] == 0x4A))
     || (s[i + 1] == 0x28 && s[i + 2] == 0x49)
     || (i + 3 < |s| && s[i + 1] == 0x24 && s[i + 2] == 0x28 && s[i + 3] == 0x44)
     || (i + 5 < |s| && s[i + 1] == 0x26 && s[i + 2] == 0x40 && s[i + 3] == 0x1B
         && s[i + 4] == 0x24 && s[i + 5] == 0x42))
  }

  /** The table of designations agrees byte for byte with the tests the
      escape scan makes at a position with at least three bytes left. */
  lemma DesignationAtBytes(s: seq<byte>, i: nat)
    requires i + 2 < |s|
    ensures DesignationAt(s, i) <==> EscapeTestsAt(s, i)
  {
    if DesignationAt(s, i) {
      DesignationImpliesTests(s, i);
    }
    if EscapeTestsAt(s, i) {
      TestsImplyDesignation(s, i);
    }
  }

  lemma DesignationImpliesTests(s: seq<byte>, i: nat)
    requires i + 2 < |s| && DesignationAt(s, i)
    ensures EscapeTestsAt(s, i)
  {
    var k :| 0 <= k < |Designations| && OccursAt(s, i, Designations[k]);
    var d := Designations[k];
    forall j | 0 <= j < |d| ensures s[i + j] == d[j] {
      assert s[i..i + |d|][j] == s[i + j];
    }
    assert s[i] == d[0] && s[i + 1] == d[1] && s[i + 2] == d[2];
    if k == 5 {
      assert s[i + 3] == d[3];
    } else if k == 6 {
      assert s[i + 3] == d[3] && s[i + 4] == d[4] && s[i + 5] == d[5];
    }
  }

  lemma TestsImplyDesignation(s: seq<byte>, i: nat)
    requires i + 2 < |s| && EscapeTestsAt(s, i)
    ensures DesignationAt(s, i)
  {
    var t3 := s[i..i + 3];
    assert t3 == [s[i], s[i + 1], s[i + 2]];
    if t3 == Designations[0] {
      assert OccursAt(s, i, Designations[0]);
    } else if t3 == Designations[1] {
      assert OccursAt(s, i, Designations[1]);
    } else if t3 == Designations[2] {
      assert OccursAt(s, i, Designations[2]);
    } else if t3 == Designations[3] {
      assert OccursAt(s, i, Designations[3]);
    } else if t3 == Designations[4] {
      assert OccursAt(s, i, Designations[4]);
    } else if i + 3 < |s| && s[i + 1] == 0x24 {
      assert s[i..i + 4] == [s[i], s[i + 1], s[i + 2], s[i + 3]];
      assert OccursAt(s, i, Designations[5]);
    } else {
      assert s[i..i + 6] == [s[i], s[i + 1], s[i + 2], s[i + 3], s[i + 4], s[i + 5]];
      assert OccursAt(s, i, Designations[6]);
    }
  }

  /** Every designation is at least three bytes, so none starts in the last
      two positions. */
  lemma NoDesignationNearEnd(s: seq<byte>, i: nat)
    requires i + 2 >= |s|
    ensures !DesignationAt(s, i)
  {
  }

  /** A buffer with a designation holds an escape byte, so it never takes
      the plain-ASCII exit. */
  lemma JisEscapeIsNotPlainAscii(s: seq<byte>)
    requires HasJisEscape(s)
    ensures !PlainAscii(s)
  {
    var i :| 0 <= i < |s| && DesignationAt(s, i);
    DesignationStartsWithEscape(s, i);
  }

  // ---------------------------------------------------------------------
  // Stage 4

  /** One step of a greedy pass, stated on the bytes the scoring loops test. */
  lemma SjisStep(s: seq<byte>, i: nat)
    requires i + 1 < |s|
    ensures Score(ShiftJisPass, s, i) ==
      if (0x81 <= s[i] <= 0x9F || 0xE0 <= s[i] <= 0xFC) && (0x40 <= s[i + 1] <= 0x7E || 0x80 <= s[i + 1] <= 0xFC)
      then 2 + Score(ShiftJisPass, s, i + 2)
      else Score(ShiftJisPass, s, i + 1)
  {
  }

  lemma EucStep(s: seq<byte>, i: nat)
    requires i + 1 < |s|
    ensures Score(EucPass, s, i) ==
      if (EucByte(s[i]) && EucByte(s[i + 1])) || (s[i] == 0x8E && 0xA1 <= s[i + 1] <= 0xDF)
      then 2 + Score(EucPass, s, i + 2)
      else if i + 2 < |s| && s[i] == 0x8F && EucByte(s[i + 1]) && EucByte(s[i + 2])
      then 3 + Score(EucPass, s, i + 3)
      else Score(EucPass, s, i + 1)
  {
  }

  lemma Utf8Step(s: seq<byte>, i: nat)
    requires i + 1 < |s|
    ensures Score(Utf8Pass, s, i) ==
      if 0xC0 <= s[i] <= 0xDF && Continuation(s[i + 1])
      then 2 + Score(Utf8Pass, s, i + 2)
      else if i + 2 < |s| && 0xE0 <= s[i] <= 0xEF && Continuation(s[i + 1]) && Continuation(s[i + 2])
      then 3 + Score(Utf8Pass, s, i + 3)
      else Score(Utf8Pass, s, i + 1)
  {
  }

  /** A designation begins with the escape byte. */
  lemma DesignationStartsWithEscape(s: seq<byte>, i: nat)
    requires DesignationAt(s, i)
    ensures i + 2 < |s| && s[i] == Escape
  {
    if i + 2 >= |s| {
      NoDesignationNearEnd(s, i);
    } else {
      DesignationAtBytes(s, i);
    }
  }

  /** The two-byte and three-byte lead ranges of a pass are disjoint, so
      the length found is the only accepted one and trying the three-byte
      form first would find the same. */
  lemma MatchLenIsTheAcceptedLength(p: Pass, s: seq<byte>, i: nat)
    requires i + 1 < |s|
    ensures MatchLen(p, s, i) == 2 <==> Accepts(p, s[i..i + 2])
    ensures MatchLen(p, s, i) == 3 <==> i + 3 <= |s| && Accepts(p, s[i..i + 3])
    ensures MatchLen(p, s, i) ==
      if i + 3 <= |s| && Accepts(p, s[i..i + 3]) then 3
      else if Accepts(p, s[i..i + 2]) then 2
      else 0
  {
  }

  /** A character a pass recognised: where it starts and how many bytes it
      spans. */
  datatype Span = Span(start: nat, len: nat)

  /** The characters a greedy pass recognises from position i on, left to
      right. */
  function Matches(p: Pass, s: seq<byte>, i: nat): seq<Span>
    decreases |s| - i
  {
    if i + 1 >= |s| then []
    else
      var m := MatchLen(p, s, i);
      if m == 0 then Matches(p, s, i + 1) else [Span(i, m)] + Matches(p, s, i + m)
  }

  function Total(spans: seq<Span>): nat {
    if spans == [] then 0 else spans[0].len + Total(spans[1..])
  }

  /** A score is the total length of the characters recognised. */
  lemma {:induction false} ScoreIsMatchedTotal(p: Pass, s: seq<byte>, i: nat)
    ensures Score(p, s, i) == Total(Matches(p, s, i))
    decreases |s| - i
  {
    if i + 1 < |s| {
      var m := MatchLen(p, s, i);
      if m == 0 {
        ScoreIsMatchedTotal(p, s, i + 1);
      } else {
        ScoreIsMatchedTotal(p, s, i + m);
        assert ([Span(i, m)] + Matches(p, s, i + m))[1..] == Matches(p, s, i + m);
      }
    }
  }

  /** A span lies inside the buffer at or after i, does not start at the
      last byte, and holds a character the pass accepts. */
  predicate WellPlaced(p: Pass, s: seq<byte>, i: nat, sp: Span) {
    && i <= sp.start
    && sp.start + 1 < |s|
    && sp.start + sp.len <= |s|
    && (sp.len == 2 || sp.len == 3)
    && Accepts(p, s[sp.start..sp.start + sp.len])
  }

  /** Each span ends before the next one begins. */
  predicate Disjoint(spans: seq<Span>) {
    forall k :: 0 <= k < |spans| - 1 ==> spans[k].start + spans[k].len <= spans[k + 1].start
  }

  /** Every recognised character is well placed. */
  lemma {:induction false} MatchesAreWellPlaced(p: Pass, s: seq<byte>, i: nat)
    ensures forall k :: 0 <= k < |Matches(p, s, i)| ==> WellPlaced(p, s, i, Matches(p, s, i)[k])
    decreases |s| - i
  {
    if i + 1 < |s| {
      var m := MatchLen(p, s, i);
      if m == 0 {
        assert Matches(p, s, i) == Matches(p, s, i + 1);
        MatchesAreWellPlaced(p, s, i + 1);
      } else {
        var rest := Matches(p, s, i + m);
        MatchesAreWellPlaced(p, s, i + m);
        var ms := Matches(p, s, i);
        assert ms == [Span(i, m)] + rest;
        MatchLenIsTheAcceptedLength(p, s, i);
        assert WellPlaced(p, s, i, ms[0]);
        forall k | 1 <= k < |ms| ensures WellPlaced(p, s, i, ms[k]) {
          assert ms[k] == rest[k - 1];
          assert WellPlaced(p, s, i + m, rest[k - 1]);
        }
      }
    }
  }

  /** The recognised characters are pairwise disjoint: the trailing bytes
      of a character are never examined again. */
  lemma {:induction false} MatchesAreDisjoint(p: Pass, s: seq<byte>, i: nat)
    ensures Disjoint(Matches(p, s, i))
    decreases |s| - i
  {
    if i + 1 < |s| {
      var m := MatchLen(p, s, i);
      if m == 0 {
        assert Matches(p, s, i) == Matches(p, s, i + 1);
        MatchesAreDisjoint(p, s, i + 1);
      } else {
        var rest := Matches(p, s, i + m);
        MatchesAreDisjoint(p, s, i + m);
        var ms := Matches(p, s, i);
        assert ms == [Span(i, m)] + rest;
        if rest != [] {
          MatchesAreWellPlaced(p, s, i + m);
          assert WellPlaced(p, s, i + m, rest[0]);
        }
        forall k | 0 <= k < |ms| - 1 ensures ms[k].start + ms[k].len <= ms[k + 1].start {
          if k > 0 {
            assert ms[k] == rest[k - 1] && ms[k + 1] == rest[k];
          }
        }
      }
    }
  }

  predicate Covered(spans: seq<Span>, j: nat) {
    exists k :: 0 <= k < |spans| && spans[k].start <= j < spans[k].start + spans[k].len
  }

  /** The pass is greedy: every position with a following byte that no
      recognised character covers was examined as a lead and matched
      nothing. */
  lemma {:induction false} UncoveredPositionsMatchNothing(p: Pass, s: seq<byte>, i: nat, j: nat)
    requires i <= j && j + 1 < |s|
    requires !Covered(Matches(p, s, i), j)
    ensures MatchLen(p, s, j) == 0
    decreases |s| - i
  {
    var m := MatchLen(p, s, i);
    if m == 0 {
      if i < j {
        UncoveredPositionsMatchNothing(p, s, i + 1, j);
      }
    } else {
      var ms := Matches(p, s, i);
      assert ms[0] == Span(i, m);
      if i + m <= j {
        var rest := Matches(p, s, i + m);
        assert ms == [Span(i, m)] + rest;
        if Covered(rest, j) {
          var k :| 0 <= k < |rest| && rest[k].start <= j < rest[k].start + rest[k].len;
          assert ms[k + 1] == rest[k];
        }
        UncoveredPositionsMatchNothing(p, s, i + m, j);
      }
    }
  }

  /** Every lead byte of every pass is at least 0x81, so a buffer of lower
      bytes scores nothing. */
  lemma {:induction false} LowBytesScoreNothing(p: Pass, s: seq<byte>, i: nat)
    requires forall j :: 0 <= j < |s| ==> s[j] < 0x81
    ensures Score(p, s, i) == 0
    decreases |s| - i
  {
    if i + 1 < |s| {
      assert s[i..i + 2][0] == s[i];
      if i + 2 < |s| {
        assert s[i..i + 3][0] == s[i];
      }
      LowBytesScoreNothing(p, s, i + 1);
    }
  }

  // ---------------------------------------------------------------------
  // Stage 5

  /** Each multi-byte verdict needs its score strictly above both others;
      at most one such maximum exists, and any tie at the top or three
      zero scores yields no detection. */
  lemma DecideStrictMaximum(sjis: int, euc: int, utf8: int)
    ensures Decide(sjis, euc, utf8) == EUC <==> euc > sjis && euc > utf8
    ensures Decide(sjis, euc, utf8) == ShiftJIS <==> sjis > euc && sjis > utf8
    ensures Decide(sjis, euc, utf8) == UTF8 <==> utf8 > euc && utf8 > sjis
    ensures Decide(sjis, euc, utf8) == NoDetection <==>
      !(euc > sjis && euc > utf8) && !(sjis > euc && sjis > utf8) && !(utf8 > euc && utf8 > sjis)
    ensures Decide(sjis, euc, utf8) in {NoDetection, ShiftJIS, EUC, UTF8}
  {
  }

  // ---------------------------------------------------------------------
  // The pipeline

  /** A control byte anywhere decides the verdict by the first one alone,
      whatever follows it. */
  lemma ClassifyFirstControl(s: seq<byte>, k: nat)
    requires k < |s| && IsControl(s[k])
    requires forall j :: 0 <= j < k ==> !IsControl(s[j])
    ensures Classify(s) == VetoVerdict(s, k)
    ensures Classify(s) == UTF16 || Classify(s) == NoDetection
  {
    VetoAtFirstControl(s, 0, k);
  }

  /** The first control byte of the buffer is at position k. */
  predicate FirstControlAt(s: seq<byte>, k: int) {
    0 <= k < |s| && IsControl(s[k]) && forall j :: 0 <= j < k ==> !IsControl(s[j])
  }

  /** The position of the first control byte at or after i, given one. */
  function FirstControl(s: seq<byte>, i: nat): (k: nat)
    requires exists j :: i <= j < |s| && IsControl(s[j])
    ensures i <= k < |s| && IsControl(s[k])
    ensures forall j :: i <= j < k ==> !IsControl(s[j])
    decreases |s| - i
  {
    if IsControl(s[i]) then i else FirstControl(s, i + 1)
  }

  /** UTF-16 is answered exactly when the first control byte is a NUL with
      a 7-bit byte after it. */
  lemma ClassifyUtf16Iff(s: seq<byte>)
    ensures Classify(s) == UTF16 <==>
      exists k :: FirstControlAt(s, k) && s[k] == 0x00 && k + 1 < |s| && s[k + 1] <= 0x7F
  {
    VetoNoneIff(s, 0);
    if FreeOfControl(s) {
      DecideStrictMaximum(Score(ShiftJisPass, s, 0), Score(EucPass, s, 0), Score(Utf8Pass, s, 0));
      assert forall k :: !FirstControlAt(s, k);
    } else {
      var k := FirstControl(s, 0);
      VetoAtFirstControl(s, 0, k);
      assert FirstControlAt(s, k);
      assert forall k' :: FirstControlAt(s, k') ==> k' == k;
    }
  }

  /** ASCII is answered exactly for a buffer free of control bytes, escape
      bytes and high-bit bytes; the empty buffer is one. */
  lemma ClassifyAsciiIff(s: seq<byte>)
    ensures Classify(s) == ASCII <==> FreeOfControl(s) && PlainAscii(s)
  {
    VetoNoneIff(s, 0);
    DecideStrictMaximum(Score(ShiftJisPass, s, 0), Score(EucPass, s, 0), Score(Utf8Pass, s, 0));
  }

  /** JIS is answered exactly for a buffer free of control bytes that holds
      a designation, whatever the scores would have been. */
  lemma ClassifyJisIff(s: seq<byte>)
    ensures Classify(s) == JIS <==> FreeOfControl(s) && HasJisEscape(s)
  {
    VetoNoneIff(s, 0);
    DecideStrictMaximum(Score(ShiftJisPass, s, 0), Score(EucPass, s, 0), Score(Utf8Pass, s, 0));
    if HasJisEscape(s) {
      JisEscapeIsNotPlainAscii(s);
    }
  }

  /** A buffer that reaches the scoring passes, that is one free of
      control bytes that is neither plain ASCII nor carries a designation. */
  predicate ReachesScoring(s: seq<byte>) {
    FreeOfControl(s) && !PlainAscii(s) && !HasJisEscape(s)
  }

  predicate SjisWins(s: seq<byte>) {
    Score(ShiftJisPass, s, 0) > Score(EucPass, s, 0) && Score(ShiftJisPass, s, 0) > Score(Utf8Pass, s, 0)
  }

  predicate EucWins(s: seq<byte>) {
    Score(EucPass, s, 0) > Score(ShiftJisPass, s, 0) && Score(EucPass, s, 0) > Score(Utf8Pass, s, 0)
  }

  predicate Utf8Wins(s: seq<byte>) {
    Score(Utf8Pass, s, 0) > Score(EucPass, s, 0) && Score(Utf8Pass, s, 0) > Score(ShiftJisPass, s, 0)
  }

  /** The three multi-byte verdicts are answered exactly for buffers that
      reach the scoring passes with that pass's score the strict maximum. */
  lemma ClassifyMultiByteIff(s: seq<byte>)
    ensures Classify(s) == ShiftJIS <==> ReachesScoring(s) && SjisWins(s)
    ensures Classify(s) == EUC <==> ReachesScoring(s) && EucWins(s)
    ensures Classify(s) == UTF8 <==> ReachesScoring(s) && Utf8Wins(s)
  {
    VetoNoneIff(s, 0);
    DecideStrictMaximum(Score(ShiftJisPass, s, 0), Score(EucPass, s, 0), Score(Utf8Pass, s, 0));
  }

  /** A multi-byte verdict needs a winning score of at least two, so a
      buffer of at least two bytes. */
  lemma MultiByteVerdictNeedsTwoBytes(s: seq<byte>)
    requires Classify(s) == ShiftJIS || Classify(s) == EUC || Classify(s) == UTF8
    ensures |s| >= 2
    ensures Classify(s) == ShiftJIS ==> Score(ShiftJisPass, s, 0) >= 2
    ensures Classify(s) == EUC ==> Score(EucPass, s, 0) >= 2
    ensures Classify(s) == UTF8 ==> Score(Utf8Pass, s, 0) >= 2
  {
  }

  /** A buffer whose bytes are all below 0x81 and that reaches the scoring
      passes (ASCII text with a lone escape byte, say) is not classified. */
  lemma LowBytesAreNotDetected(s: seq<byte>)
    requires ReachesScoring(s)
    requires forall j :: 0 <= j < |s| ==> s[j] < 0x81
    ensures Classify(s) == NoDetection
  {
    VetoNoneIff(s, 0);
    LowBytesScoreNothing(ShiftJisPass, s, 0);
    LowBytesScoreNothing(EucPass, s, 0);
    LowBytesScoreNothing(Utf8Pass, s, 0);
  }
}
