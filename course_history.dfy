/**
 * The course-history import of the account page: a CSV file of
 * `course_code,semester,grade` rows becomes the list of taken courses that
 * the browser keeps, a preview of which is shown below the upload field.
 */
module CourseHistory {
  import opened Wrappers
  import Text

  /** One row of the imported history. */
  datatype TakenCourse = TakenCourse(courseCode: string, semester: string, grade: string)

  /** A file picked in the upload field: its name, its MIME type and its text. */
  datatype CsvFile = CsvFile(name: string, mimeType: string, text: string)

  /** The only file type the upload handler accepts. */
  const CsvMimeType := "text/csv"

  /** How many rows the preview lists before it summarises the rest. */
  const PreviewLimit := 10

  /** A field the import can produce: non-empty, trimmed, and without a comma. */
  predicate IsValidField(f: string) {
    f != [] && Text.IsTrimmed(f) && ',' !in f
  }

  predicate IsValidRecord(c: TakenCourse) {
    IsValidField(c.courseCode) && IsValidField(c.semester) && IsValidField(c.grade)
  }

  /** Field `i` of a split row, trimmed; a missing field reads as empty (it is `undefined`). */
  function Field(fields: seq<string>, i: nat): string {
    if i < |fields| then Text.Trim(fields[i]) else ""
  }

  /**
   * The record a split row yields: its first three fields, trimmed, when all
   * three are non-empty; further fields are ignored.
   */
  function RecordOf(fields: seq<string>): (r: Option<TakenCourse>)
    ensures r.Some? <==>
      (|fields| >= 3 && Text.Trim(fields[0]) != [] && Text.Trim(fields[1]) != [] && Text.Trim(fields[2]) != [])
    ensures r.Some? ==> r.value == TakenCourse(Text.Trim(fields[0]), Text.Trim(fields[1]), Text.Trim(fields[2]))
  {
    var code, semester, grade := Field(fields, 0), Field(fields, 1), Field(fields, 2);
    if code != [] && semester != [] && grade != [] then Some(TakenCourse(code, semester, grade))
    else None
  }

  /**
   * The record one data line yields: the trimmed line, unless it is blank,
   * is split on commas and read by `RecordOf`.
   */
  function ParseRow(line: string): (r: Option<TakenCourse>)
    ensures Text.Trim(line) == [] ==> r == None
  {
    var trimmed := Text.Trim(line);
    if trimmed == [] then None else RecordOf(Text.Split(trimmed, ','))
  }

  /** A field read from comma-free pieces is trimmed and comma-free. */
  lemma FieldValid(fields: seq<string>, i: nat)
    requires forall k :: 0 <= k < |fields| ==> ',' !in fields[k]
    ensures Field(fields, i) != [] ==> IsValidField(Field(fields, i))
  {
    if i < |fields| {
      Text.TrimIsTrimmed(fields[i]);
      var start := Text.TrimIsSlice(fields[i]);
    }
  }

  /** Every record a line yields has three non-empty, trimmed, comma-free fields. */
  lemma ParseRowValid(line: string)
    ensures ParseRow(line).Some? ==> IsValidRecord(ParseRow(line).value)
  {
    var trimmed := Text.Trim(line);
    if trimmed != [] {
      var fields := Text.Split(trimmed, ',');
      Text.SplitLacksSeparator(trimmed, ',');
      FieldValid(fields, 0);
      FieldValid(fields, 1);
      FieldValid(fields, 2);
    }
  }

  /** A line with fewer than two commas has fewer than three fields, and yields no record. */
  lemma ShortRowDropped(line: string)
    requires Text.Occurrences(Text.Trim(line), ',') < 2
    ensures ParseRow(line) == None
  {
    var trimmed := Text.Trim(line);
    if trimmed != [] {
      Text.SplitCount(trimmed, ',');
    }
  }

  /** The comma-separated pieces of a trimmed line. */
  function RowPieces(line: string): seq<string> {
    Text.Split(Text.Trim(line), ',')
  }

  /**
   * A line yields a record exactly when, once trimmed, it is non-blank and its
   * first three comma-separated pieces are non-blank; the record's fields are
   * those three pieces, trimmed.
   */
  lemma ParseRowFields(line: string)
    ensures ParseRow(line).Some? <==>
      (Text.Trim(line) != [] && |RowPieces(line)| >= 3 &&
       Text.Trim(RowPieces(line)[0]) != [] && Text.Trim(RowPieces(line)[1]) != [] &&
       Text.Trim(RowPieces(line)[2]) != [])
    ensures ParseRow(line).Some? ==>
      ParseRow(line).value ==
        TakenCourse(Text.Trim(RowPieces(line)[0]), Text.Trim(RowPieces(line)[1]), Text.Trim(RowPieces(line)[2]))
  {
  }

  /** A line with a blank field among its first three yields no record. */
  lemma BlankFieldDropped(line: string, k: nat)
    requires k < 3 && k < |RowPieces(line)|
    requires Text.Trim(RowPieces(line)[k]) == []
    ensures ParseRow(line) == None
  {
    ParseRowFields(line);
  }

  /** The records one line contributes: its record, or none. */
  function LineRecords(line: string): (r: seq<TakenCourse>)
    ensures |r| <= 1
  {
    match ParseRow(line)
    case Some(c) => [c]
    case None => []
  }

  /** The records of a sequence of data lines, in line order. */
  function ParseRows(rows: seq<string>): (r: seq<TakenCourse>)
    ensures |r| <= |rows|
  {
    if rows == [] then [] else ParseRows(rows[..|rows| - 1]) + LineRecords(rows[|rows| - 1])
  }

  /** The records of all lines of a file but the first, which is the header. */
  function ParseLines(lines: seq<string>): (r: seq<TakenCourse>)
    ensures lines != [] ==> |r| <= |lines| - 1
  {
    if lines == [] then [] else ParseRows(lines[1..])
  }

  /** The records of a whole file: its text split on newlines, header skipped. */
  function ParseCsv(text: string): (r: seq<TakenCourse>)
    ensures |r| <= Text.Occurrences(text, '\n')
  {
    Text.SplitCount(text, '\n');
    ParseLines(Text.Split(text, '\n'))
  }

  /** The body of the parsing loop: trims one line, splits it and pushes its record, if any. */
  method PushRecord(courses: seq<TakenCourse>, rawLine: string) returns (result: seq<TakenCourse>)
    ensures result == courses + LineRecords(rawLine)
  {
    result := courses;
    var line := Text.Trim(rawLine);
    if line != [] {
      var fields := Text.Split(line, ',');
      var code, semester, grade := Field(fields, 0), Field(fields, 1), Field(fields, 2);
      if code != [] && semester != [] && grade != [] {
        result := result + [TakenCourse(code, semester, grade)];
      }
    }
  }

  /** The parsing loop of the upload handler: every line after the first, one record per good line. */
  method ParseCourses(lines: seq<string>) returns (courses: seq<TakenCourse>)
    ensures courses == ParseLines(lines)
  {
    courses := [];
    if lines == [] {
      return;
    }
    var i := 1;
    while i < |lines|
      invariant 1 <= i <= |lines|
      invariant courses == ParseRows(lines[1..i])
    {
      courses := PushRecord(courses, lines[i]);
      SliceSnoc(lines, 1, i);
      ParseRowsSnoc(lines[1..i], lines[i]);
      i := i + 1;
    }
    assert lines[1..i] == lines[1..];
  }

  /** One more line adds its own records, if any, after those already found. */
  lemma ParseRowsSnoc(rows: seq<string>, line: string)
    ensures ParseRows(rows + [line]) == ParseRows(rows) + LineRecords(line)
  {
    assert (rows + [line])[..|rows|] == rows;
  }

  /** Every record of a run of lines is valid. */
  lemma {:induction false} ParseRowsValid(rows: seq<string>)
    ensures forall k :: 0 <= k < |ParseRows(rows)| ==> IsValidRecord(ParseRows(rows)[k])
  {
    if rows != [] {
      ParseRowsValid(rows[..|rows| - 1]);
      ParseRowValid(rows[|rows| - 1]);
    }
  }

  /** Every record of an imported file is valid. */
  lemma ParseCsvValid(text: string)
    ensures forall k :: 0 <= k < |ParseCsv(text)| ==> IsValidRecord(ParseCsv(text)[k])
  {
    var lines := Text.Split(text, '\n');
    ParseRowsValid(lines[1..]);
  }

  /** The header line never becomes a record, whatever it holds. */
  lemma HeaderNeverRecord(header: string, rows: seq<string>)
    ensures ParseLines([header] + rows) == ParseRows(rows)
  {
    assert ([header] + rows)[1..] == rows;
  }

  /** Parsing two runs of lines one after the other gives the records of each, in order. */
  lemma {:induction false} ParseRowsAppend(a: seq<string>, b: seq<string>)
    ensures ParseRows(a + b) == ParseRows(a) + ParseRows(b)
  {
    if b != [] {
      var front, last := b[..|b| - 1], b[|b| - 1];
      ParseRowsAppend(a, front);
      AppendFront(a, b);
      ParseRowsLast(a + b);
      assert ParseRows(a + b) == ParseRows(a + front) + LineRecords(last);
    } else {
      assert a + b == a;
    }
  }

  /** The records of non-empty lines: those of all lines but the last, then the last line's. */
  lemma ParseRowsLast(rows: seq<string>)
    requires rows != []
    ensures ParseRows(rows) == ParseRows(rows[..|rows| - 1]) + LineRecords(rows[|rows| - 1])
  {
  }

  /** The text of a record as a CSV row. */
  function FormatRow(c: TakenCourse): string {
    c.courseCode + "," + c.semester + "," + c.grade
  }

  /**
   * A well-formed row parses back to its record, and so does one followed by
   * further comma-separated columns, which are ignored.
   */
  lemma ParseFormattedRow(c: TakenCourse, extra: string)
    requires IsValidRecord(c)
    requires extra == [] || (extra[0] == ',' && Text.IsTrimmed(extra))
    ensures ParseRow(FormatRow(c) + extra) == Some(c)
  {
    var line := FormatRow(c) + extra;
    var fields := FormattedFields(c, extra);
    assert line[0] == c.courseCode[0];
    Text.TrimOfTrimmed(line);
    Text.TrimOfTrimmed(c.courseCode);
    Text.TrimOfTrimmed(c.semester);
    Text.TrimOfTrimmed(c.grade);
    assert RecordOf(fields) == Some(c);
  }

  /** The comma-separated fields of a formatted row: the record's three, then those of `extra`. */
  lemma FormattedFields(c: TakenCourse, extra: string) returns (fields: seq<string>)
    requires IsValidRecord(c)
    requires extra == [] || extra[0] == ','
    ensures fields == Text.Split(FormatRow(c) + extra, ',')
    ensures |fields| >= 3 && fields[0] == c.courseCode && fields[1] == c.semester && fields[2] == c.grade
  {
    var line := FormatRow(c) + extra;
    assert line == c.courseCode + [','] + (c.semester + [','] + (c.grade + extra));
    Text.SplitAfterPiece(c.courseCode, c.semester + [','] + (c.grade + extra), ',');
    Text.SplitAfterPiece(c.semester, c.grade + extra, ',');
    if extra == [] {
      assert c.grade + extra == c.grade;
      Text.SplitWithoutSeparator(c.grade, ',');
      fields := [c.courseCode, c.semester, c.grade];
    } else {
      assert c.grade + extra == c.grade + [','] + extra[1..];
      Text.SplitAfterPiece(c.grade, extra[1..], ',');
      fields := [c.courseCode, c.semester, c.grade] + Text.Split(extra[1..], ',');
    }
  }

  /** The rows of a list of records, one CSV line each. */
  function FormatRows(courses: seq<TakenCourse>): (lines: seq<string>)
    ensures |lines| == |courses|
  {
    if courses == [] then [] else FormatRows(courses[..|courses| - 1]) + [FormatRow(courses[|courses| - 1])]
  }

  lemma {:induction false} FormatRowsAt(courses: seq<TakenCourse>, k: nat)
    requires k < |courses|
    ensures FormatRows(courses)[k] == FormatRow(courses[k])
  {
    if k < |courses| - 1 {
      FormatRowsAt(courses[..|courses| - 1], k);
    }
  }

  /** Extending a slice by one element appends that element. */
  lemma SliceSnoc<T>(s: seq<T>, lo: nat, hi: nat)
    requires lo <= hi < |s|
    ensures s[lo..hi + 1] == s[lo..hi] + [s[hi]]
  {
  }

  /** Dropping the last element of `a + b`, with `b` non-empty, drops it from `b`. */
  lemma AppendFront<T>(a: seq<T>, b: seq<T>)
    requires b != []
    ensures (a + b)[..|a + b| - 1] == a + b[..|b| - 1]
    ensures (a + b)[|a + b| - 1] == b[|b| - 1]
  {
  }

  /** A non-empty sequence is its front followed by its last element. */
  lemma LastSplit<T>(s: seq<T>)
    requires s != []
    ensures s[..|s| - 1] + [s[|s| - 1]] == s
  {
  }

  /** The data lines of well-formed records parse back to those records. */
  lemma {:induction false} ParseFormattedRows(courses: seq<TakenCourse>)
    requires forall k :: 0 <= k < |courses| ==> IsValidRecord(courses[k])
    ensures ParseRows(FormatRows(courses)) == courses
  {
    if courses != [] {
      var init, last := courses[..|courses| - 1], courses[|courses| - 1];
      ParseFormattedRows(init);
      assert FormatRows(courses) == FormatRows(init) + [FormatRow(last)];
      ParseRowsSnoc(FormatRows(init), FormatRow(last));
      ParseFormattedRow(last, []);
      assert FormatRow(last) + [] == FormatRow(last);
      assert LineRecords(FormatRow(last)) == [last];
      LastSplit(courses);
    }
  }

  /**
   * Round trip of the whole import: a header line followed by one well-formed
   * row per record, joined by newlines, parses back to exactly those records.
   */
  lemma ParseCsvRoundTrip(header: string, courses: seq<TakenCourse>)
    requires '\n' !in header
    requires forall k :: 0 <= k < |courses| ==> IsValidRecord(courses[k])
    requires forall k :: 0 <= k < |courses| ==> '\n' !in FormatRow(courses[k])
    ensures ParseCsv(Text.Join([header] + FormatRows(courses), '\n')) == courses
  {
    var lines := [header] + FormatRows(courses);
    LinesLackNewline(header, courses);
    Text.SplitJoin(lines, '\n');
    assert ParseCsv(Text.Join(lines, '\n')) == ParseLines(lines);
    HeaderNeverRecord(header, FormatRows(courses));
    ParseFormattedRows(courses);
  }

  /** The header and the formatted rows are single lines. */
  lemma LinesLackNewline(header: string, courses: seq<TakenCourse>)
    requires '\n' !in header
    requires forall k :: 0 <= k < |courses| ==> '\n' !in FormatRow(courses[k])
    ensures forall i :: 0 <= i < |[header] + FormatRows(courses)| ==> '\n' !in ([header] + FormatRows(courses))[i]
  {
    var lines := [header] + FormatRows(courses);
    forall i | 0 <= i < |lines| ensures '\n' !in lines[i] {
      if i > 0 { FormatRowsAt(courses, i - 1); }
    }
  }

  /** The rows the preview lists: the first ten, in order. */
  function PreviewRows(courses: seq<TakenCourse>): (shown: seq<TakenCourse>)
    ensures |shown| <= PreviewLimit
    ensures |shown| == |courses| || |shown| == PreviewLimit
    ensures |shown| <= |courses| && shown == courses[..|shown|]
  {
    if |courses| <= PreviewLimit then courses else courses[..PreviewLimit]
  }

  /**
   * The number in the preview's "... and N more courses" line, shown exactly
   * when it is positive; with the listed rows it accounts for every record.
   */
  function HiddenCount(courses: seq<TakenCourse>): (n: nat)
    ensures n > 0 <==> |courses| > PreviewLimit
    ensures |PreviewRows(courses)| + n == |courses|
  {
    if |courses| > PreviewLimit then |courses| - PreviewLimit else 0
  }

  /** The course-history state of the account page. */
  class AccountPage {
    /** The list shown on the page. */
    var takenCourses: seq<TakenCourse>
    /** The file last accepted by the upload field. */
    var csvFile: Option<CsvFile>
    /** What the browser keeps under the saved-courses key, if anything. */
    var stored: Option<seq<TakenCourse>>

    /** What the browser keeps, when it keeps anything, is the list shown. */
    ghost predicate StoreMatches()
      reads this
    {
      stored.Some? ==> stored.value == takenCourses
    }

    /** The page as it opens: nothing listed, no file, whatever the browser had saved. */
    constructor (saved: Option<seq<TakenCourse>>)
      ensures takenCourses == [] && csvFile == None && stored == saved
    {
      takenCourses := [];
      csvFile := None;
      stored := saved;
    }

    /** Once the session is known, a saved list replaces the shown one. */
    method RestoreSaved()
      modifies this
      ensures takenCourses == if old(stored).Some? then old(stored).value else old(takenCourses)
      ensures csvFile == old(csvFile) && stored == old(stored)
      ensures StoreMatches()
    {
      if stored.Some? {
        takenCourses := stored.value;
      }
    }

    /**
     * The upload handler. A file that is not of type `text/csv`, or no file
     * at all, changes nothing. Otherwise the file is recorded and its records
     * replace the shown list and the saved one.
     */
    method UploadCsv(file: Option<CsvFile>)
      modifies this
      ensures file.Some? && file.value.mimeType == CsvMimeType ==>
                && csvFile == file
                && takenCourses == ParseCsv(file.value.text)
                && stored == Some(takenCourses)
      ensures !(file.Some? && file.value.mimeType == CsvMimeType) ==>
                && csvFile == old(csvFile)
                && takenCourses == old(takenCourses)
                && stored == old(stored)
      ensures old(StoreMatches()) ==> StoreMatches()
    {
      if file.Some? && file.value.mimeType == CsvMimeType {
        csvFile := file;
        var lines := Text.Split(file.value.text, '\n');
        var courses := ParseCourses(lines);
        takenCourses := courses;
        stored := Some(courses);
      }
    }

    /** "Clear All": no records, no file, nothing saved. */
    method ClearTakenCourses()
      modifies this
      ensures takenCourses == [] && csvFile == None && stored == None
      ensures StoreMatches()
    {
      takenCourses := [];
      csvFile := None;
      stored := None;
    }
  }
}
