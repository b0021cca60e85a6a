/**
 * Choice of the file parser from the uploaded file's name: a name whose
 * lower-cased form ends in ".csv" is read as comma-separated text, any
 * other as a spreadsheet workbook.
 */
module Readers {

  /** The two parsers the uploader can hand a file to. */
  datatype Reader = CsvReader | WorkbookReader

  /** Lower-casing of one character (ASCII letters only). */
  function LowerChar(c: char): char
  {
    if 'A' <= c <= 'Z' then (c as int + 32) as char else c
  }

  /** `s.lower()`, character by character. */
  function Lower(s: string): (r: string)
    ensures |r| == |s|
    ensures forall i :: 0 <= i < |s| ==> r[i] == LowerChar(s[i])
  {
    seq(|s|, i requires 0 <= i < |s| => LowerChar(s[i]))
  }

  /** `s.endswith(suffix)`. */
  predicate EndsWith(s: string, suffix: string)
  {
    |suffix| <= |s| && s[|s| - |suffix|..] == suffix
  }

  /** `name.lower().endswith('.csv')`. */
  predicate IsCsvName(name: string)
  {
    EndsWith(Lower(name), ".csv")
  }

  /** The parser the uploaded file is given to. */
  function SelectReader(name: string): Reader
  {
    if IsCsvName(name) then CsvReader else WorkbookReader
  }

  /**
   * The CSV parser is chosen exactly when the name's last four characters
   * are a dot followed by c, s and v, each in either letter case; every
   * other name goes to the workbook parser.
   */
  lemma CsvNameIff(name: string)
    ensures SelectReader(name) == CsvReader <==>
      && |name| >= 4
      && name[|name| - 4] == '.'
      && name[|name| - 3] in "cC"
      && name[|name| - 2] in "sS"
      && name[|name| - 1] in "vV"
  {
    var n := |name|;
    var low := Lower(name);
    if n >= 4 {
      var tail := low[n - 4..];
      assert tail == [low[n - 4], low[n - 3], low[n - 2], low[n - 1]];
      assert LowerChar(name[n - 4]) == '.' <==> name[n - 4] == '.';
      assert LowerChar(name[n - 3]) == 'c' <==> name[n - 3] in "cC";
      assert LowerChar(name[n - 2]) == 's' <==> name[n - 2] in "sS";
      assert LowerChar(name[n - 1]) == 'v' <==> name[n - 1] in "vV";
    }
  }

  /** Any name followed by ".csv" in any letter case selects the CSV parser. */
  lemma CsvSuffixSelectsCsv(stem: string, suffix: string)
    requires |suffix| == 4 && suffix[0] == '.'
    requires suffix[1] in "cC" && suffix[2] in "sS" && suffix[3] in "vV"
    ensures SelectReader(stem + suffix) == CsvReader
  {
    var name := stem + suffix;
    assert name[|name| - 4..] == suffix;
    CsvNameIff(name);
  }

  /** Sample names: upper-case CSV, a workbook, and names that only look close. */
  lemma ExampleNames()
    ensures SelectReader("REPORT.CSV") == CsvReader
    ensures SelectReader("data.Csv") == CsvReader
    ensures SelectReader("data.xlsx") == WorkbookReader
    ensures SelectReader("csv") == WorkbookReader
    ensures SelectReader("data.csv.xls") == WorkbookReader
  {
    CsvNameIff("REPORT.CSV");
    CsvNameIff("data.Csv");
    CsvNameIff("data.xlsx");
    CsvNameIff("csv");
    CsvNameIff("data.csv.xls");
  }
}
