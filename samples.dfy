/**
 * Worked inputs for the extractor: a report carrying all four parameters,
 * and a text carrying none.
 */
module Samples {
  import opened Wrappers
  import opened Chars
  import opened Extractor
  import opened Csv

  const HemoglobinPart := "Hemoglobin: 13.5 "
  const RbcPart := "RBC 4.8 "
  const WbcPart := "WBC: 6000 "
  const PlateletPart := "Platelet Count: 250,000"
  const Report := HemoglobinPart + RbcPart + WbcPart + PlateletPart
  const NoData := "no data here"

  /** A text holding neither case of the letter `c` has no position folding to `c`. */
  lemma LetterAbsent(t: string, c: char)
    requires 'a' <= c <= 'z' && c !in t && (c as int - 32) as char !in t
    ensures forall p :: 0 <= p < |t| ==> Lower(t[p]) != c
  {
    forall p | 0 <= p < |t| ensures Lower(t[p]) != c {
      assert t[p] in t;
    }
  }

  lemma ReportHemoglobin()
    ensures FieldValue(Report, HemoglobinRule) == "13.5"
  {
    assert WordsEnd(Report, 0, HemoglobinRule.words) == Some(10);
    RunEndIsMaximalRun(Report, 10, 12, Separator);
    RunEndIsMaximalRun(Report, 12, 16, DecimalChar);
    assert Report[12..16] == "13.5";
    FirstMatchStops(Report, HemoglobinRule, 0);
  }

  /** The text before `RBC` holds no `r`. */
  lemma ReportBeforeRbc()
    ensures FirstMatch(Report, RbcRule, 0) == FirstMatch(Report, RbcRule, 17)
  {
    RulesWellFormed();
    LetterAbsent(HemoglobinPart, 'r');
    assert forall p :: 0 <= p < 17 ==> Report[p] == HemoglobinPart[p];
    SkipNonInitials(Report, RbcRule, 0, 17);
  }

  lemma ReportAtRbc()
    ensures MatchAt(Report, 17, RbcRule) == Some("4.8")
  {
    assert WordsEnd(Report, 17, RbcRule.words) == Some(20);
    RunEndIsMaximalRun(Report, 20, 21, Separator);
    RunEndIsMaximalRun(Report, 21, 24, DecimalChar);
    assert Report[21..24] == "4.8";
  }

  lemma ReportRbc()
    ensures FieldValue(Report, RbcRule) == "4.8"
  {
    ReportBeforeRbc();
    ReportAtRbc();
    FirstMatchStops(Report, RbcRule, 17);
  }

  /** The text before `WBC` holds no `w`. */
  lemma ReportBeforeWbc()
    ensures FirstMatch(Report, WbcRule, 0) == FirstMatch(Report, WbcRule, 25)
  {
    RulesWellFormed();
    LetterAbsent(HemoglobinPart + RbcPart, 'w');
    assert forall p :: 0 <= p < 25 ==> Report[p] == (HemoglobinPart + RbcPart)[p];
    SkipNonInitials(Report, WbcRule, 0, 25);
  }

  lemma ReportAtWbc()
    ensures MatchAt(Report, 25, WbcRule) == Some("6000")
  {
    assert WordsEnd(Report, 25, WbcRule.words) == Some(28);
    RunEndIsMaximalRun(Report, 28, 30, Separator);
    RunEndIsMaximalRun(Report, 30, 34, DecimalChar);
    assert Report[30..34] == "6000";
  }

  lemma ReportWbc()
    ensures FieldValue(Report, WbcRule) == "6000"
  {
    ReportBeforeWbc();
    ReportAtWbc();
    FirstMatchStops(Report, WbcRule, 25);
  }

  /** The text before `Platelet` holds no `p`. */
  lemma ReportBeforePlateletCount()
    ensures FirstMatch(Report, PlateletCountRule, 0) == FirstMatch(Report, PlateletCountRule, 35)
  {
    RulesWellFormed();
    LetterAbsent(HemoglobinPart + RbcPart + WbcPart, 'p');
    assert forall p :: 0 <= p < 35 ==> Report[p] == (HemoglobinPart + RbcPart + WbcPart)[p];
    SkipNonInitials(Report, PlateletCountRule, 0, 35);
  }

  lemma ReportPlateletWord()
    ensures WordAt(Report, 35, "platelet")
  {
    assert Report[35..43] == "Platelet";
  }

  lemma ReportCountWord()
    ensures WordAt(Report, 44, "count")
  {
    assert Report[44..49] == "Count";
  }

  /** `Platelet` and `Count` one space apart. */
  lemma ReportPlateletCountLabel()
    ensures WordsEnd(Report, 35, PlateletCountRule.words) == Some(49)
  {
    ReportPlateletWord();
    ReportCountWord();
    RunEndIsMaximalRun(Report, 43, 44, Whitespace);
  }

  lemma ReportAtPlateletCount()
    ensures MatchAt(Report, 35, PlateletCountRule) == Some("250,000")
  {
    ReportPlateletCountLabel();
    RunEndIsMaximalRun(Report, 49, 51, Separator);
    RunEndIsMaximalRun(Report, 51, 58, GroupedDigit);
    assert Report[51..58] == "250,000";
  }

  lemma ReportPlateletCount()
    ensures FieldValue(Report, PlateletCountRule) == "250,000"
  {
    ReportBeforePlateletCount();
    ReportAtPlateletCount();
    FirstMatchStops(Report, PlateletCountRule, 35);
  }

  /** Labels with and without a colon each yield the number after them. */
  lemma FullReport()
    ensures ExtractKeyValues(Report) == Fields("13.5", "4.8", "6000", "250,000")
  {
    ReportHemoglobin();
    ReportRbc();
    ReportWbc();
    ReportPlateletCount();
  }

  /** `h` occurs only in the last word, too short for `hemoglobin`. */
  lemma NoDataHemoglobin()
    ensures FieldValue(NoData, HemoglobinRule) == NotFound
  {
    RulesWellFormed();
    SkipNonInitials(NoData, HemoglobinRule, 0, 3);
    NoRoomForLabel(NoData, HemoglobinRule, 3);
  }

  /** `r` occurs only two characters before the end, too close for `rbc`. */
  lemma NoDataRbc()
    ensures FieldValue(NoData, RbcRule) == NotFound
  {
    RulesWellFormed();
    SkipNonInitials(NoData, RbcRule, 0, 10);
    NoRoomForLabel(NoData, RbcRule, 10);
  }

  lemma NoDataWbc()
    ensures FieldValue(NoData, WbcRule) == NotFound
  {
    RulesWellFormed();
    SkipNonInitials(NoData, WbcRule, 0, 10);
    NoRoomForLabel(NoData, WbcRule, 10);
  }

  lemma NoDataPlateletCount()
    ensures FieldValue(NoData, PlateletCountRule) == NotFound
  {
    RulesWellFormed();
    SkipNonInitials(NoData, PlateletCountRule, 0, 5);
    NoRoomForLabel(NoData, PlateletCountRule, 5);
  }

  /** A text with no label gives four "N/A". */
  lemma NoLabels()
    ensures ExtractKeyValues(NoData) == Fields(NotFound, NotFound, NotFound, NotFound)
  {
    NoDataHemoglobin();
    NoDataRbc();
    NoDataWbc();
    NoDataPlateletCount();
  }

  /** The CSV text of the full report's fields, line by line. */
  lemma FullReportCsvContent()
    ensures CsvContent(Fields("13.5", "4.8", "6000", "250,000"))
         == "Parameter,Value" + "\n" + "Hemoglobin,13.5" + "\n" + "RBC,4.8" + "\n" + "WBC,6000"
            + "\n" + "PlateletCount,250,000"
  {
    var rows := Rows(Entries(Fields("13.5", "4.8", "6000", "250,000")));
    assert rows[0] == "Hemoglobin,13.5";
    assert rows[1] == "RBC,4.8";
    assert rows[2] == "WBC,6000";
    assert rows[3] == "PlateletCount,250,000";
    assert rows[1..][1..][1..] == [rows[3]];
  }

  lemma FullReportCsv()
    ensures CsvText(Report)
         == "Parameter,Value" + "\n" + "Hemoglobin,13.5" + "\n" + "RBC,4.8" + "\n" + "WBC,6000"
            + "\n" + "PlateletCount,250,000"
  {
    FullReport();
    FullReportCsvContent();
  }

  /** Without quoting, the PlateletCount line of the full report carries three comma-separated cells. */
  lemma FullReportPlateletCells()
    ensures Split(Rows(Entries(ExtractKeyValues(Report)))[3], ',') == ["PlateletCount", "250", "000"]
  {
    FullReport();
    PlateletCellsOf(Fields("13.5", "4.8", "6000", "250,000"));
  }

  lemma PlateletCellsOf(f: Fields)
    requires f.plateletCount == "250,000"
    ensures Split(Rows(Entries(f))[3], ',') == ["PlateletCount", "250", "000"]
  {
    PlateletRowCells(f);
    assert f.plateletCount == "250" + [','] + "000";
    SplitAtFirstSeparator("250", "000", ',');
    SplitWithoutSeparator("000", ',');
  }

  const Repeated := "RBC ok, RBC 5"
  const ManyDots := "rbc 1.2.3"
  const LoneDot := "WBC:."
  const Joined := "PLATELETCOUNT 150"

  lemma RepeatedFirstHasNoValue()
    ensures MatchAt(Repeated, 0, RbcRule).None?
  {
    assert WordsEnd(Repeated, 0, RbcRule.words) == Some(3);
    RunEndIsMaximalRun(Repeated, 3, 4, Separator);
    RunEndIsMaximalRun(Repeated, 4, 4, DecimalChar);
  }

  lemma RepeatedSecondHasValue()
    ensures MatchAt(Repeated, 8, RbcRule) == Some("5")
  {
    assert WordsEnd(Repeated, 8, RbcRule.words) == Some(11);
    RunEndIsMaximalRun(Repeated, 11, 12, Separator);
    RunEndIsMaximalRun(Repeated, 12, 13, DecimalChar);
    assert Repeated[12..13] == "5";
  }

  lemma RepeatedBetween()
    ensures FirstMatch(Repeated, RbcRule, 1) == FirstMatch(Repeated, RbcRule, 8)
  {
    RulesWellFormed();
    SkipNonInitials(Repeated, RbcRule, 1, 8);
  }

  /** A label with no number after it is passed over for a later one. */
  lemma LaterOccurrence()
    ensures FieldValue(Repeated, RbcRule) == "5"
  {
    RepeatedFirstHasNoValue();
    FirstMatchSkips(Repeated, RbcRule, 0);
    RepeatedBetween();
    RepeatedSecondHasValue();
    FirstMatchStops(Repeated, RbcRule, 8);
  }

  /** The value class is `[\d.]`, not a decimal number: several dots are taken. */
  lemma ManyDotsTaken()
    ensures FieldValue(ManyDots, RbcRule) == "1.2.3"
  {
    assert WordsEnd(ManyDots, 0, RbcRule.words) == Some(3);
    RunEndIsMaximalRun(ManyDots, 3, 4, Separator);
    RunEndIsMaximalRun(ManyDots, 4, 9, DecimalChar);
    assert ManyDots[4..9] == "1.2.3";
    FirstMatchStops(ManyDots, RbcRule, 0);
  }

  /** A dot alone is a value too. */
  lemma LoneDotTaken()
    ensures FieldValue(LoneDot, WbcRule) == "."
  {
    assert WordsEnd(LoneDot, 0, WbcRule.words) == Some(3);
    RunEndIsMaximalRun(LoneDot, 3, 4, Separator);
    RunEndIsMaximalRun(LoneDot, 4, 5, DecimalChar);
    assert LoneDot[4..5] == ".";
    FirstMatchStops(LoneDot, WbcRule, 0);
  }

  /** `Platelet` and `Count` may touch, in any case. */
  lemma JoinedPlateletCountLabel()
    ensures WordsEnd(Joined, 0, PlateletCountRule.words) == Some(13)
  {
    assert WordAt(Joined, 0, "platelet");
    RunEndIsMaximalRun(Joined, 8, 8, Whitespace);
    assert WordAt(Joined, 8, "count");
  }

  lemma JoinedPlateletCount()
    ensures FieldValue(Joined, PlateletCountRule) == "150"
  {
    JoinedPlateletCountLabel();
    RunEndIsMaximalRun(Joined, 13, 14, Separator);
    RunEndIsMaximalRun(Joined, 14, 17, GroupedDigit);
    assert Joined[14..17] == "150";
    FirstMatchStops(Joined, PlateletCountRule, 0);
  }
}
