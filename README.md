# Badger Course Canvas — a Dafny model of its page logic

Badger Course Canvas is a course-review web application for UW-Madison.
Beneath the user interface and the hosted backend sit three small pieces of logic,
and this project models them and proves their properties:

- **Course-history import** (account page). An uploaded CSV file is accepted only when its type is
  `text/csv`. Its text is split on newlines and the header line is skipped. Each remaining line is
  trimmed, split on commas and read as `course_code,semester,grade`, keeping only rows whose three
  fields are non-empty. The records replace the shown list and the saved one. "Clear All" empties
  both. A preview lists the first ten rows and counts the rest.
- **Review listing** (reviews page). This covers:
  - the rows a page requests and the page count;
  - the five-button page window and the Previous/Next buttons;
  - `updateSearchParams`, which sets or deletes address parameters;
  - the course query built from the search text, department, level, sort order and page. The query
    is the list of builder calls, in order;
  - the page's state: filter fields, current page, result count and address parameters. It has one
    handler per user action. Each handler keeps the current page positive and readable back from the
    address.
- **Rating display** (course card). `ratingToGrade` maps a rating to one of the seven letter grades
  A, AB, B, BC, C, D, F. The card grades its four rating dimensions separately, or shows
  "No reviews yet".

The JavaScript library behaviour these rely on is written out in the modules `Text` and `Numbers`:
- `String.prototype.trim` and its white-space set;
- `split` on one character;
- `parseInt` in base 10;
- the decimal text of an integer in a template literal.

Modules and files:

| file | module | models |
|---|---|---|
| `wrappers.dfy` | `Wrappers` | `Option` |
| `text.dfy` | `Text` | trim, split, join |
| `numbers.dfy` | `Numbers` | `parseInt`, integer to text |
| `course_history.dfy` | `CourseHistory` | CSV import, preview, account page state |
| `pagination.dfy` | `Pagination` | page rows, page count, page window, Previous/Next |
| `search_params.dfy` | `SearchParams` | `updateSearchParams` |
| `course_query.dfy` | `CourseQuery` | filters, sort order, page range of the query |
| `reviews_page.dfy` | `Reviews` | review listing state and handlers |
| `course_card.dfy` | `CourseCard` | `ratingToGrade`, the card's rating badges |

Two behaviours of the code are modelled as written and stated as lemmas:
- **Department prefix of the level bounds.** The bounds use the department filter's raw value. Before
  any department is chosen that value is `all`, so level 300 bounds the code by `all 300` and
  `all 400` (`CourseQuery.LevelBoundsWithAllDepartment`).
- **Next button past the last page.** Next is disabled only when the current page equals the page
  count. A page read from the address that lies beyond the last page leaves Next enabled
  (`Pagination.NextEnabledPastLastPage`).

## Model

| member | source | states |
|---|---|---|
| Text.Trim | src/pages/Account.tsx:73 | the trimmed line is no longer than the line (what it is: `TrimIsSlice`, `TrimIsTrimmed`) |
| Text.Split | src/pages/Account.tsx:68 | a split always gives at least one piece, the empty text included (the pieces: `SplitCount`, `SplitLacksSeparator`, `JoinSplit`) |
| Text.TrimIsSlice | src/pages/Account.tsx:73 | the trimmed line is a slice of the line, with only white space before and after it |
| Text.TrimIsTrimmed | src/pages/Account.tsx:73 | a trimmed line neither starts nor ends with white space |
| Text.TrimEmptyIff | src/pages/Account.tsx:73-74 | a line trims to empty exactly when it is all white space |
| Text.TrimOfTrimmed | src/pages/Account.tsx:75 | trimming a string with no white space at either end leaves it as it is |
| Text.TrimIdempotent | src/pages/Account.tsx:73-75 | trimming twice is trimming once |
| Text.SplitCount | src/pages/Account.tsx:68 | splitting on a character gives one piece more than the character's occurrences |
| Text.SplitLacksSeparator | src/pages/Account.tsx:68 | no piece of a split contains the separator |
| Text.JoinSplit | src/pages/Account.tsx:68 | joining the pieces of a split with the separator gives back the text |
| Text.SplitJoin | src/pages/Account.tsx:68 | splitting the join of separator-free pieces gives back the pieces |
| Text.SplitAfterPiece | src/pages/Account.tsx:75 | a separator-free piece followed by the separator is the first piece of the split |
| Numbers.IntToString | src/pages/Reviews.tsx:80-81 | the text of an integer is a minus sign exactly for a negative number, followed by digits only |
| Numbers.ParseInt | src/pages/Reviews.tsx:43 | empty text is NaN; text starting with a digit reads as a non-negative number, with a minus before a digit as a non-positive one; text starting with any other character that is not white space or a sign is NaN |
| Numbers.NatToString | src/pages/Reviews.tsx:80-81 | the decimal text of a number is non-empty, all digits, with no leading zero |
| Numbers.NatToStringValue | src/pages/Reviews.tsx:80-81 | the digits of the decimal text read back as the number |
| Numbers.DigitPrefix | src/pages/Reviews.tsx:79 | the digit run `parseInt` reads is all digits and no longer than the text |
| Numbers.DigitPrefixIsLongestRun | src/pages/Reviews.tsx:79 | the digit run is a prefix of the text and stops at the first non-digit |
| Numbers.DigitPrefixOfDigits | src/pages/Reviews.tsx:79 | a digit run followed by a non-digit is exactly the run read |
| Numbers.ParseIntToString | src/pages/Reviews.tsx:79-81 | `parseInt` reads back the text of every integer, ignoring anything after it from a non-digit on |
| CourseHistory.ParseRow | src/pages/Account.tsx:73-77 | a blank or white-space-only line yields no record |
| CourseHistory.FieldValid | src/pages/Account.tsx:75 | a non-empty field read from a split row is trimmed and contains no comma |
| CourseHistory.ParseRowValid | src/pages/Account.tsx:75-77 | every record has three non-empty, trimmed, comma-free fields |
| CourseHistory.RecordOf | src/pages/Account.tsx:75-76 | a record exactly when the row has three pieces whose trims are non-empty; its fields are those three trimmed pieces, further pieces ignored |
| CourseHistory.ParseRowFields | src/pages/Account.tsx:73-77 | a line yields a record exactly when it trims to a non-blank text whose first three comma-separated pieces trim to non-empty fields; the record holds those trimmed pieces |
| CourseHistory.BlankFieldDropped | src/pages/Account.tsx:75-76 | a line with a blank field among its first three yields no record |
| CourseHistory.ShortRowDropped | src/pages/Account.tsx:75-76 | a line with fewer than three comma-separated fields yields no record |
| CourseHistory.LineRecords | src/pages/Account.tsx:73-79 | each data line contributes at most one record |
| CourseHistory.ParseRows | src/pages/Account.tsx:72-79 | the data lines yield at most one record each |
| CourseHistory.ParseLines | src/pages/Account.tsx:71-72 | a file of n lines yields at most n − 1 records, the first line being the header |
| CourseHistory.ParseCsv | src/pages/Account.tsx:67-79 | a text yields at most as many records as it has newlines |
| CourseHistory.ParseCourses | src/pages/Account.tsx:66-80 | the parsing loop produces exactly the records of the lines after the header, in line order |
| CourseHistory.PushRecord | src/pages/Account.tsx:73-78 | one pass of the loop body appends the line's record, if it has one, and nothing else |
| CourseHistory.ParseRowsSnoc | src/pages/Account.tsx:72-79 | one more line appends its own record, if any, after the records already found |
| CourseHistory.ParseRowsAppend | src/pages/Account.tsx:72-79 | records keep line order: two runs of lines give the records of each, one after the other |
| CourseHistory.ParseRowsValid | src/pages/Account.tsx:72-79 | every record parsed from a run of lines is valid |
| CourseHistory.ParseCsvValid | src/pages/Account.tsx:67-79 | every record of an imported file is valid |
| CourseHistory.HeaderNeverRecord | src/pages/Account.tsx:71-72 | the header line never becomes a record, whatever it holds |
| CourseHistory.ParseFormattedRow | src/pages/Account.tsx:75-77 | a well-formed row parses back to its record, and columns after the third are ignored |
| CourseHistory.FormattedFields | src/pages/Account.tsx:75 | the first three fields of a formatted row are the record's three |
| CourseHistory.ParseFormattedRows | src/pages/Account.tsx:72-79 | the lines of well-formed records parse back to those records |
| CourseHistory.ParseCsvRoundTrip | src/pages/Account.tsx:67-79 | a header plus one well-formed row per record, joined by newlines, imports as exactly those records |
| CourseHistory.PreviewRows | src/pages/Account.tsx:207 | the preview lists the first rows in order: all of them, or exactly ten |
| CourseHistory.HiddenCount | src/pages/Account.tsx:218-220 | the "more courses" count is positive exactly when there are over ten rows, and with the preview accounts for every row |
| CourseHistory.AccountPage.constructor | src/pages/Account.tsx:23-24 | the page opens with no records and no file |
| CourseHistory.AccountPage.RestoreSaved | src/pages/Account.tsx:36-43 | a saved list replaces the shown one, after which the saved and shown lists agree |
| CourseHistory.AccountPage.UploadCsv | src/pages/Account.tsx:60-85 | a `text/csv` file replaces the shown and saved list with its records; any other file, or none, changes nothing; saved and shown lists stay in agreement |
| CourseHistory.AccountPage.ClearTakenCourses | src/pages/Account.tsx:90-94 | no records, no file, nothing saved |
| Pagination.PageOf | src/pages/Reviews.tsx:101-103 | every row lies on a page numbered from 1 |
| Pagination.PageRows | src/pages/Reviews.tsx:101-103 | a page requests twelve rows from index 0 on, exactly the rows that lie on that page |
| Pagination.PagesAbut | src/pages/Reviews.tsx:101-103 | each page starts right after the previous one ends |
| Pagination.PagesDisjoint | src/pages/Reviews.tsx:101-103 | two different pages request no common row |
| Pagination.TotalPages | src/pages/Reviews.tsx:157 | no pages for no results; otherwise (n − 1)·12 < count ≤ n·12 |
| Pagination.RowsWithinPages | src/pages/Reviews.tsx:157 | every result row lies on a page from 1 to the page count |
| Pagination.WindowSlots | src/pages/Reviews.tsx:379 | the window has min(5, page count) slots |
| Pagination.Rendered | src/pages/Reviews.tsx:381 | a page has a button exactly when a slot holds it: empty slots render nothing, filled slots render their page |
| Pagination.RenderedPrefix | src/pages/Reviews.tsx:379-381 | when the filled slots come first, the buttons are their pages in order |
| Pagination.ButtonCount | src/pages/Reviews.tsx:379-381 | at most five buttons and at most the page count |
| Pagination.PageButtons | src/pages/Reviews.tsx:379-381 | the buttons are consecutive pages starting at max(1, current − 2), none past the last page |
| Pagination.CurrentPageShown | src/pages/Reviews.tsx:379-386 | a current page within range always has its own button |
| Pagination.NavigationStaysInRange | src/pages/Reviews.tsx:369-373 | from a page in range, enabled Previous and Next lead to a page in range |
| Pagination.NextEnabledPastLastPage | src/pages/Reviews.tsx:399 | Next stays enabled on a page beyond the last one |
| SearchParams.Apply | src/pages/Reviews.tsx:142-146 | a non-empty value sets the key, an empty one deletes it, and no other key changes |
| SearchParams.Updated | src/pages/Reviews.tsx:141-147 | the last update of a batch always takes effect: its key holds its value, or is gone when the value is empty |
| SearchParams.UpdatedEffect | src/pages/Reviews.tsx:139-149 | after the updates, keys with values hold them, keys with empty values are gone, and unnamed keys are as before |
| SearchParams.UpdatedIdempotent | src/pages/Reviews.tsx:139-149 | applying the same updates twice changes nothing more |
| SearchParams.UpdateSearchParams | src/pages/Reviews.tsx:139-149 | the loop over the updates produces the parameters with every update applied in order |
| CourseQuery.SearchOps | src/pages/Reviews.tsx:67-69 | a substring filter on code or name, present exactly when there is search text |
| CourseQuery.DepartmentOps | src/pages/Reviews.tsx:71-73 | a department filter, present exactly when a department other than `all` is chosen |
| CourseQuery.Plus100 | src/pages/Reviews.tsx:81 | adding 100 keeps NaN as NaN and adds to a number |
| CourseQuery.LevelBounds | src/pages/Reviews.tsx:75-83 | no bound for an empty or `all` level; for `500+` the single lower bound "dept 500"; a lower and an upper bound on the code otherwise |
| CourseQuery.LevelBoundsOfText | src/pages/Reviews.tsx:79-81 | a level written as the text of n bounds the code by "dept n" and "dept n+100" |
| CourseQuery.OfferedLevelBounds | src/pages/Reviews.tsx:46 | each numeric level on offer (100 to 400), read as lines 79-81 do, bounds the code from "dept L" up to the next hundred, 500 for the 400 level |
| CourseQuery.LevelBoundsOfNumber | src/pages/Reviews.tsx:79-81 | a numeric level L bounds the code from "dept L" up to, not including, "dept L+100" |
| CourseQuery.LevelBoundsWithAllDepartment | src/pages/Reviews.tsx:41 | with the department still `all`, level 300 bounds the code by `all 300` and `all 400` |
| CourseQuery.LevelBoundsOfNaN | src/pages/Reviews.tsx:79-81 | a level with no leading number gives two equal bounds `dept NaN`, which no code lies between |
| CourseQuery.SortOrder | src/pages/Reviews.tsx:86-98 | one ordering, descending only for `newest`: `name` by name, `newest` by creation time, and code ascending for `code`, popularity and any unknown value |
| CourseQuery.AddLevelBounds | src/pages/Reviews.tsx:75-83 | the level step appends exactly the level's bounds to the query built so far |
| CourseQuery.AddSortOrder | src/pages/Reviews.tsx:86-98 | the sort step appends exactly one ordering, the one chosen for the sort value |
| CourseQuery.PageRange | src/pages/Reviews.tsx:100-103 | the range call covers twelve rows, exactly those of the page |
| CourseQuery.Query | src/pages/Reviews.tsx:55-103 | two to six builder calls, the last one the range starting at row (page − 1)·12 |
| CourseQuery.ActiveFiltersMatchQuery | src/pages/Reviews.tsx:262 | the "Active filters" row is shown exactly when the query filters anything |
| CourseQuery.QueryShape | src/pages/Reviews.tsx:55-103 | the query ends with one sort order and one range, every earlier call being a filter |
| CourseQuery.BuildQuery | src/pages/Reviews.tsx:55-103 | the builder's successive reassignments produce the filters, then the sort order, then the page range |
| Reviews.ParamOr | src/pages/Reviews.tsx:39-42 | a parameter's value when present and non-empty, the default otherwise |
| Reviews.AddressPage | src/pages/Reviews.tsx:43 | an address with no page parameter, or an empty one, asks for page 1 |
| Reviews.PageParamReadsBack | src/pages/Reviews.tsx:43 | a page parameter written from a page number reads back as that page |
| Reviews.FilterUpdateEffect | src/pages/Reviews.tsx:201 | a filter change leaves the address at page 1 with the new filter value, or without the key when it is empty, and every other key unchanged |
| Reviews.PageUpdateEffect | src/pages/Reviews.tsx:373 | a page change writes a page parameter that reads back as the new page, and no other key changes |
| Reviews.ReviewsPage.constructor | src/pages/Reviews.tsx:36-43 | each field comes from its parameter, or its default when missing or empty; the page is the address's page |
| Reviews.ReviewsPage.SetSearchQuery | src/pages/Reviews.tsx:188 | typing changes the search text only |
| Reviews.ReviewsPage.Search | src/pages/Reviews.tsx:151-155 | submitting writes the search text and page 1 into the address and returns to page 1 |
| Reviews.ReviewsPage.SelectDepartment | src/pages/Reviews.tsx:198-203 | `all` becomes the empty value; the address gets the department and page 1; back to page 1 |
| Reviews.ReviewsPage.SelectLevel | src/pages/Reviews.tsx:218-223 | `all` becomes the empty value; the address gets the level and page 1; back to page 1 |
| Reviews.ReviewsPage.SelectSort | src/pages/Reviews.tsx:238-242 | the address gets the sort order and page 1; back to page 1 |
| Reviews.ReviewsPage.ClearAll | src/pages/Reviews.tsx:283-289 | no search text, both filters `all`, no address parameters, page 1, sort order kept in the state |
| Reviews.ReviewsPage.ClearFilters | src/pages/Reviews.tsx:350-356 | as "Clear all", but both filters become the empty value |
| Reviews.ReviewsPage.MoveTo | src/pages/Reviews.tsx:388-389 | the current page and the address's page become the new page; nothing else changes |
| Reviews.ReviewsPage.PreviousPage | src/pages/Reviews.tsx:369-373 | one page back, written into the address; the page stays positive |
| Reviews.ReviewsPage.NextPage | src/pages/Reviews.tsx:399-403 | one page forward, written into the address |
| Reviews.ReviewsPage.GoToPage | src/pages/Reviews.tsx:379-390 | a shown page button moves to a page between 1 and the page count |
| Reviews.ReviewsPage.FetchCompleted | src/pages/Reviews.tsx:105-110 | an error changes nothing; otherwise the returned count, or 0 when there is none, becomes the result count |
| Reviews.ReviewsPage.CurrentQuery | src/pages/Reviews.tsx:48-103 | the query sent is the one built from the current search text, filters, sort order and page |
| CourseCard.Rank | src/components/ui/rating-badge.tsx:3 | the seven grades ordered F < D < C < BC < B < AB < A |
| CourseCard.RatingToGrade | src/components/course-card.tsx:23-31 | every rating gets a grade, and lies in that grade's band |
| CourseCard.GradeNamesDistinct | src/components/ui/rating-badge.tsx:3 | the grade letters are exactly the seven of the badge's grade type, and distinct |
| CourseCard.GradeBands | src/components/course-card.tsx:24-30 | a grade is given exactly on its half-open band of ratings |
| CourseCard.RatingToGradeMonotone | src/components/course-card.tsx:24-30 | a higher rating never gets a worse grade |
| CourseCard.ThresholdsInclusive | src/components/course-card.tsx:24-29 | a rating exactly on a threshold earns that threshold's grade |
| CourseCard.OutOfScaleRatings | src/components/course-card.tsx:24-30 | a rating below 1.5 gets F and one from 4.7 up, above 5 included, gets A |
| CourseCard.RatingsSection | src/components/course-card.tsx:88-117 | badges exactly when ratings are present, four of them (Content, Teaching, Grading, Workload) each graded from its own rating; otherwise "No reviews yet" |
| CourseCard.BadgesIndependent | src/components/course-card.tsx:90-108 | for each of the four dimensions, the badge is graded from that dimension's rating, and two rating sets that agree on it show the same badge whatever the other three hold |

## Left out

- Authentication and session handling on the account page are not modelled. They belong to the hosted backend.
- The execution of the course query by the backend is not modelled. The query is modelled only as the builder calls made.
- The transformation of fetched rows, including the randomly generated placeholder ratings and review counts, is not modelled. It is random.
- File reading is not modelled: the upload handler receives the file's text directly. In the source the text arrives later, asynchronously, while the file is recorded at once.
- Browser storage and JSON are not modelled. The saved list is a field, `stored`, and a corrupt saved value that fails to parse is not modelled.
- Rendering, routing, `encodeURIComponent` and the loading flag are not modelled.
- The home page, the navigation bar and the badge's colour classes are not part of this model.
- Address parameters are a map with one value per key. `URLSearchParams` also keeps parameter order and can hold repeated keys, and neither is modelled.
- The string comparison the backend applies to the code bounds is not modelled.
- Numbers.ParseInt: the hexadecimal `0x` prefix of `parseInt` is not modelled.
- Numbers.ParseInt: the loss of precision on very long digit runs is not modelled. Integers are unbounded.
- Numbers.NumberToString: exponent notation for very large numbers is not modelled.
- CourseCard.RatingToGrade: ratings are exact reals. Floating-point rounding at the thresholds and a NaN rating are not modelled.
- Reviews.ReviewsPage.constructor: an address whose page does not parse to a positive number is excluded by its precondition. In the source it would set the page to NaN or to a non-positive number.
- Text.IsWhitespace: characters are Unicode scalar values rather than UTF-16 code units.
