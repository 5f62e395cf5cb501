/**
 * The CSV text `downloadCSV` builds (pages/index.js, lines 63-67): the
 * header line, then one `key,value` line per extracted field in field
 * order, joined by line feeds, without quoting and without a final line
 * feed. `Split` is the partner that reads the lines back.
 */
module Csv {
  import opened Chars
  import opened Extractor

  const Header := "Parameter,Value"

  /** The template `${key},${value}` applied to one entry. */
  function Row(entry: (string, string)): string
  {
    entry.0 + "," + entry.1
  }

  /** `entries.map(Row)`. */
  function Rows(entries: seq<(string, string)>): seq<string>
  {
    seq(|entries|, n requires 0 <= n < |entries| => Row(entries[n]))
  }

  /** `Array.prototype.join` with a one-character separator. */
  function Join(parts: seq<string>, sep: char): string
  {
    if |parts| == 0 then ""
    else if |parts| == 1 then parts[0]
    else parts[0] + [sep] + Join(parts[1..], sep)
  }

  /** The CSV text of a field mapping. */
  function CsvContent(f: Fields): string
  {
    Header + "\n" + Join(Rows(Entries(f)), '\n')
  }

  /** The CSV text for the fields extracted from `extractedText`. */
  function CsvText(extractedText: string): string
  {
    CsvContent(ExtractKeyValues(extractedText))
  }

  /** `String.prototype.split` at every occurrence of `sep`. */
  function Split(s: string, sep: char): (parts: seq<string>)
    ensures |parts| > 0
    decreases |s|
  {
    if |s| == 0 then [""]
    else
      var rest := Split(s[1..], sep);
      if s[0] == sep then [""] + rest else [[s[0]] + rest[0]] + rest[1..]
  }

  /** A text without the separator is one part. */
  lemma {:induction false} SplitWithoutSeparator(a: string, sep: char)
    requires sep !in a
    ensures Split(a, sep) == [a]
    decreases |a|
  {
    if |a| > 0 {
      assert a[1..] + [] == a[1..];
      SplitWithoutSeparator(a[1..], sep);
      assert [a[0]] + a[1..] == a;
    }
  }

  /** Splitting stops at the first separator. */
  lemma {:induction false} SplitAtFirstSeparator(a: string, b: string, sep: char)
    requires sep !in a
    ensures Split(a + [sep] + b, sep) == [a] + Split(b, sep)
    decreases |a|
  {
    var s := a + [sep] + b;
    if |a| == 0 {
      assert s[1..] == b;
    } else {
      assert s[1..] == a[1..] + [sep] + b;
      SplitAtFirstSeparator(a[1..], b, sep);
      assert [a[0]] + a[1..] == a;
    }
  }

  /** Splitting undoes joining when no part holds the separator. */
  lemma {:induction false} SplitJoin(parts: seq<string>, sep: char)
    requires |parts| > 0 && forall n :: 0 <= n < |parts| ==> sep !in parts[n]
    ensures Split(Join(parts, sep), sep) == parts
    decreases |parts|
  {
    if |parts| == 1 {
      SplitWithoutSeparator(parts[0], sep);
    } else {
      SplitAtFirstSeparator(parts[0], Join(parts[1..], sep), sep);
      SplitJoin(parts[1..], sep);
      assert [parts[0]] + parts[1..] == parts;
    }
  }

  /** No field value holds a line feed: it is "N/A" or made of digits, `.` and `,`. */
  lemma ValueHasNoLineFeed(v: string, k: CharClass)
    requires ValueShape(v, k) && (k == DecimalChar || k == GroupedDigit)
    ensures '\n' !in v
  {
  }

  /** A join ends as its last part does. */
  lemma {:induction false} JoinEndsWithLastPart(parts: seq<string>, sep: char)
    requires |parts| > 0 && |parts[|parts| - 1]| > 0
    ensures var j := Join(parts, sep); var last := parts[|parts| - 1];
      |j| >= |last| && j[|j| - 1] == last[|last| - 1]
    decreases |parts|
  {
    if |parts| > 1 {
      JoinEndsWithLastPart(parts[1..], sep);
    }
  }

  /** No value of `f` holds a line feed. */
  predicate LineFree(f: Fields)
  {
    '\n' !in f.hemoglobin && '\n' !in f.rbc && '\n' !in f.wbc && '\n' !in f.plateletCount
  }

  /** Every extracted mapping is line free. */
  lemma ExtractedIsLineFree(extractedText: string)
    ensures LineFree(ExtractKeyValues(extractedText))
  {
    var f := ExtractKeyValues(extractedText);
    ValueHasNoLineFeed(f.hemoglobin, DecimalChar);
    ValueHasNoLineFeed(f.rbc, DecimalChar);
    ValueHasNoLineFeed(f.wbc, DecimalChar);
    ValueHasNoLineFeed(f.plateletCount, GroupedDigit);
  }

  /** The lines of the CSV text of a line-free mapping. */
  lemma ContentLines(f: Fields)
    requires LineFree(f)
    ensures Split(CsvContent(f), '\n') == [Header] + Rows(Entries(f))
  {
    var rows := Rows(Entries(f));
    var lines := [Header] + rows;
    assert rows[0] == "Hemoglobin," + f.hemoglobin && rows[1] == "RBC," + f.rbc;
    assert rows[2] == "WBC," + f.wbc && rows[3] == "PlateletCount," + f.plateletCount;
    assert forall n :: 0 <= n < |lines| ==> '\n' !in lines[n];
    assert lines[1..] == rows;
    SplitJoin(lines, '\n');
  }

  /**
   * Read back line by line, the CSV text is the header followed by one
   * `key,value` line per field, keys in field order: exactly five lines.
   */
  lemma CsvLines(extractedText: string)
    ensures var f := ExtractKeyValues(extractedText);
      Split(CsvText(extractedText), '\n') == [Header] + Rows(Entries(f))
    ensures |Split(CsvText(extractedText), '\n')| == 1 + |FieldNames|
  {
    ExtractedIsLineFree(extractedText);
    ContentLines(ExtractKeyValues(extractedText));
  }

  /** The CSV text of a mapping whose last value is not empty ends with that value's last character. */
  lemma ContentEnd(f: Fields)
    requires |f.plateletCount| > 0
    ensures var csv := CsvContent(f); |csv| > 0 && csv[|csv| - 1] == f.plateletCount[|f.plateletCount| - 1]
  {
    var rows := Rows(Entries(f));
    JoinEndsWithLastPart(rows, '\n');
    assert rows[3] == "PlateletCount" + "," + f.plateletCount;
  }

  /** The CSV text never ends with a line feed: its last line is the PlateletCount row. */
  lemma CsvHasNoTrailingLineFeed(extractedText: string)
    ensures var csv := CsvText(extractedText); |csv| > 0 && csv[|csv| - 1] != '\n'
  {
    ExtractedIsLineFree(extractedText);
    ContentEnd(ExtractKeyValues(extractedText));
  }

  /**
   * No quoting: a cell is not protected, so the PlateletCount line has one
   * comma-separated cell more than its value has commas.
   */
  lemma PlateletRowCells(f: Fields)
    ensures Split(Rows(Entries(f))[3], ',') == ["PlateletCount"] + Split(f.plateletCount, ',')
  {
    var v := f.plateletCount;
    assert Rows(Entries(f))[3] == "PlateletCount" + [','] + v;
    SplitAtFirstSeparator("PlateletCount", v, ',');
  }
}
