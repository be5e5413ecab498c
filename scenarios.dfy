/**
 * Worked inputs for the acronym pattern and the two extractors, evaluated
 * on short texts. Each evaluation is split into steps (token, reach of the
 * gap, capture start, capture end) so that each stays small.
 */
module Scenarios {
  import opened Wrappers
  import opened Text
  import opened Scanner
  import opened Records
  import AppJsx
  import AppJs

  /** The scanner's match at i from its three steps. */
  lemma MatchAtOf(s: string, i: nat, e: nat, p: nat)
    requires i <= |s|
    requires TokenEnd(s, i) == Some(e)
    requires LastLazyOk(s, e, Reach(s, e)) == Some(p)
    ensures MatchAt(s, i) == Some(Match(i, e, p, StopFrom(s, p)))
  {
  }

  // An acronym named inside another acronym's full form is not reported:
  // the global scan resumes after the first capture.

  lemma SeeAlsoParts()
    ensures var s := "AER - see NEM rules.";
      IsAcronymWord(s[..3]) && IsGapText(s[3..6]) && !IsSpace(s[6]) && !IsSeparator(s[6])
  {
    var s := "AER - see NEM rules.";
    assert s[3..6] == " - ";
    assert AllSpace(" - "[..1]) && AllSpace(" - "[2..]);
  }

  lemma SeeAlsoCapture()
    ensures var s := "AER - see NEM rules."; IsCaptureText(s[6..19]) && s[19] == '.' && |s| == 20
  {
    var s := "AER - see NEM rules.";
    assert s[6..19] == "see NEM rules";
  }

  /** `AER - see NEM rules.` yields AER with capture `see NEM rules` and nothing for NEM. */
  lemma NestedAcronymSkipped()
    ensures Scan("AER - see NEM rules.") == [Match(0, 3, 6, 19)]
  {
    SeeAlsoParts();
    SeeAlsoCapture();
    DefinitionLineScan("AER - see NEM rules.", 3, 6, 19);
  }

  lemma NestedToken() ensures TokenEnd("AER - see NEM rules.", 10) == Some(13) {}
  lemma NestedReach() ensures Reach("AER - see NEM rules.", 13) == 14 {}
  lemma NestedStart() ensures LastLazyOk("AER - see NEM rules.", 13, 14) == Some(14) {}

  /** ... although the pattern, tried at NEM on its own, does match there. */
  lemma NestedAcronymWouldMatch()
    ensures MatchAt("AER - see NEM rules.", 10).Some?
  {
    NestedToken(); NestedReach(); NestedStart();
    MatchAtOf("AER - see NEM rules.", 10, 13, 14);
  }

  lemma CrossLineParts()
    ensures var s := "NEM\nAEMO - Operator";
      IsAcronymWord(s[..3]) && IsGapText(s[3..4]) && !IsSpace(s[4]) && !IsSeparator(s[4])
  {
    var s := "NEM\nAEMO - Operator";
    assert s[3..4] == "\n";
    assert AllSpace("\n");
  }

  lemma CrossLineCapture()
    ensures var s := "NEM\nAEMO - Operator"; IsCaptureText(s[4..19]) && |s| == 19
  {
    var s := "NEM\nAEMO - Operator";
    assert s[4..19] == "AEMO - Operator";
  }

  /**
   * `\s*` crosses line breaks: an acronym alone on its line takes the next
   * non-blank line, up to its first `.`, `\n` or the end of the text.
   */
  lemma GapCrossesLine()
    ensures Scan("NEM\nAEMO - Operator") == [Match(0, 3, 4, 19)]
  {
    CrossLineParts();
    CrossLineCapture();
    DefinitionLineScan("NEM\nAEMO - Operator", 3, 4, 19);
  }

  lemma StopToken() ensures TokenEnd("NEM\nfoo. bar\n", 0) == Some(3) {}
  lemma StopReach() ensures Reach("NEM\nfoo. bar\n", 3) == 4 {}
  lemma StopStart() ensures LastLazyOk("NEM\nfoo. bar\n", 3, 4) == Some(4) {}
  lemma StopStop() ensures StopFrom("NEM\nfoo. bar\n", 4) == 7 {}

  /** The capture taken from the next line ends at that line's first full stop. */
  lemma GapStopsAtFullStop()
    ensures MatchAt("NEM\nfoo. bar\n", 0) == Some(Match(0, 3, 4, 7))
  {
    StopToken(); StopReach(); StopStart(); StopStop();
    MatchAtOf("NEM\nfoo. bar\n", 0, 3, 4);
  }

  lemma BlankToken() ensures TokenEnd("NEM\n\nfoo", 0) == Some(3) {}
  lemma BlankReach() ensures Reach("NEM\n\nfoo", 3) == 5 {}
  lemma BlankStart() ensures LastLazyOk("NEM\n\nfoo", 3, 5) == Some(5) {}
  lemma BlankStop() ensures StopFrom("NEM\n\nfoo", 5) == 8 {}

  /** A blank line after the acronym is skipped: the gap takes both line breaks. */
  lemma GapSkipsBlankLine()
    ensures MatchAt("NEM\n\nfoo", 0) == Some(Match(0, 3, 5, 8))
  {
    BlankToken(); BlankReach(); BlankStart(); BlankStop();
    MatchAtOf("NEM\n\nfoo", 0, 3, 5);
  }

  lemma CrToken() ensures TokenEnd("NEM - a\r\nb", 0) == Some(3) {}
  lemma CrReach() ensures Reach("NEM - a\r\nb", 3) == 6 {}
  lemma CrStart() ensures LastLazyOk("NEM - a\r\nb", 3, 6) == None {}

  /**
   * A carriage return stops `.` but is not one of the lookahead's `\n`, `.`
   * or end: when text follows the separator on a CRLF line without a full
   * stop, the pattern fails at the acronym.
   */
  lemma CarriageReturnBlocks()
    ensures MatchAt("NEM - a\r\nb", 0) == None
  {
    CrToken(); CrReach(); CrStart();
  }

  lemma CrlfToken() ensures TokenEnd("NEM\r\nfoo", 0) == Some(3) {}
  lemma CrlfReach() ensures Reach("NEM\r\nfoo", 3) == 5 {}
  lemma CrlfStart() ensures LastLazyOk("NEM\r\nfoo", 3, 5) == Some(5) {}
  lemma CrlfStop() ensures StopFrom("NEM\r\nfoo", 5) == 8 {}

  /**
   * When nothing follows the acronym on its CRLF line, `\s*` takes the whole
   * line break and the next line is the capture.
   */
  lemma CarriageReturnCrossed()
    ensures MatchAt("NEM\r\nfoo", 0) == Some(Match(0, 3, 5, 8))
  {
    CrlfToken(); CrlfReach(); CrlfStart(); CrlfStop();
    MatchAtOf("NEM\r\nfoo", 0, 3, 5);
  }

  lemma TwoCrlfToken() ensures TokenEnd("NEM\r\nfoo\r\nbar", 0) == Some(3) {}
  lemma TwoCrlfReach() ensures Reach("NEM\r\nfoo\r\nbar", 3) == 5 {}
  lemma TwoCrlfStart() ensures LastLazyOk("NEM\r\nfoo\r\nbar", 3, 5) == Some(4) {}
  lemma TwoCrlfStop() ensures StopFrom("NEM\r\nfoo\r\nbar", 4) == 4 {}

  lemma DotCrlfToken() ensures TokenEnd("NEM\r\nfoo.\r\n", 0) == Some(3) {}
  lemma DotCrlfReach() ensures Reach("NEM\r\nfoo.\r\n", 3) == 5 {}
  lemma DotCrlfStart() ensures LastLazyOk("NEM\r\nfoo.\r\n", 3, 5) == Some(5) {}
  lemma DotCrlfStop() ensures StopFrom("NEM\r\nfoo.\r\n", 5) == 8 {}

  /** A full stop before the next `\r` lets the capture start on the next CRLF line. */
  lemma CarriageReturnFullStop()
    ensures MatchAt("NEM\r\nfoo.\r\n", 0) == Some(Match(0, 3, 5, 8))
  {
    DotCrlfToken(); DotCrlfReach(); DotCrlfStart(); DotCrlfStop();
    MatchAtOf("NEM\r\nfoo.\r\n", 0, 3, 5);
  }

  /**
   * When the next line ends in CRLF with no full stop before the `\r`, the
   * capture cannot start on it: the engine backtracks to the `\n` and the
   * capture is empty.
   */
  lemma CarriageReturnEmptyCapture()
    ensures MatchAt("NEM\r\nfoo\r\nbar", 0) == Some(Match(0, 3, 4, 4))
  {
    TwoCrlfToken(); TwoCrlfReach(); TwoCrlfStart(); TwoCrlfStop();
    MatchAtOf("NEM\r\nfoo\r\nbar", 0, 3, 4);
  }

  /** `NEM.` is a match with an empty capture. */
  lemma EmptyTailMatch()
    ensures Scan("NEM.") == [Match(0, 3, 3, 3)]
  {
    assert TokenEnd("NEM.", 0) == Some(3);
    assert Reach("NEM.", 3) == 3;
    assert StopFrom("NEM.", 3) == 3;
    assert MatchAt("NEM.", 0) == Some(Match(0, 3, 3, 3));
    NothingAfter("NEM.", 3);
  }

  /** The `.jsx` extractor keeps it as a card with an empty full form ... */
  lemma EmptyTailJsx()
    ensures AppJsx.ExtractAcronymsFromText("NEM.") == [Record("NEM", "", "", ToReview, "")]
  {
    EmptyTailMatch();
    var m := Match(0, 3, 3, 3);
    assert m.Acronym("NEM.") == "NEM" && m.Captured("NEM.") == "";
    assert Trim("") == "";
    assert AppJsx.CardOf("NEM.", m) == Record("NEM", "", "", ToReview, "");
  }

  /** ... and the `.js` extractor drops it, whatever the glossary holds. */
  lemma EmptyTailJs(acronyms: seq<AppJs.Entry>)
    ensures AppJs.ExtractAcronymsFromText("NEM.", acronyms) == []
  {
    EmptyTailMatch();
  }
}
