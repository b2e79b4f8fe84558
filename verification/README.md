# LMS test master and companions, in Dafny

This project models the core of a learning-management system's server and admin
screens, and proves what that code promises.

- **Test master route** (`TestMaster`). `POST /test-master` creates a test and
  ingests its multiple-choice questions. The questions come from an uploaded
  CSV/XLSX/PDF/Word file or an inline JSON array. The steps are:
  - the required-field check;
  - the duplicate-name check;
  - the test row, inserted before any input is examined;
  - dispatch on the lower-cased last extension;
  - per-format extraction;
  - the second filtering pass and the single batch insert of `insertQuestions`.

  `PUT /test-master/:test_id` builds a partial `UPDATE` from the supplied fields.
  `GET /test-master/:test_id` answers 404 when the test has no questions. The two
  tables (`test_master`, `mcq_test_questions`) and the auto-increment counter are
  fields of the class `TestMasterDb`.
- **Course report pivot** (`Reports`). `transformCourseReportData` turns report
  rows into test columns and per-student scores and totals. A missing cell is
  shown as 0.
- **Student-training mapping route** (`StudentTrainings`). The POST inserts
  (student, training) pairs, then deletes the pairs to unmap. The GET lists a
  company's users with a `Check`/`Uncheck` flag.
- **Student-mapping screen** (`StudentMapping`). It covers:
  - the records object built from the fetched students;
  - selection toggling and check-all;
  - the map/unmap lists it submits;
  - the cascading resets of the company/course/training pickers.
- **Standup-notes route** (`StandupNotesServer`). It covers:
  - the admin-only weekly overview, which groups each active student's notes by
    day;
  - create, update and delete over the notes table.
- **Admin weekly standup screen** (`AdminStandupNotes`). It covers:
  - Monday/Friday/week-date arithmetic on day numbers;
  - cell truncation;
  - previous/next week navigation;
  - the admin gate.
- **Standup-notes screen** (`StandupNotesScreen`). It covers the per-role list
  filter and the create-form and edit-row state.
- **Combined-scores screen** (`CombinedScores`). It covers the score colour
  bands and the filter state with its reset.

`JsCore` holds the JavaScript values the handlers test for truthiness (`JsVal`),
`Option`, property lookup on records, and a left-recursive `Filter` with its
lemmas. Loops are methods proved against left-recursive specification functions.
Objects whose fields the source updates are classes with `modifies` frames.

Two behaviours of the POST handler are worth stating outright:
- An inline array with one incomplete record makes the handler throw. The
  answer is the catch-all 500, and the test row inserted just before it is
  kept.
- The 201 answer of `insertQuestions` carries only a message, not the number
  of questions stored.

## Model

| member | source | states |
|---|---|---|
| TestMaster.Question.Fields | LMS/lmsserver/routes/testMaster.js:161-170 | a question row is the eight-element array that starts with the new test's id and the request's training id |
| TestMaster.PostResult.Status | LMS/lmsserver/routes/testMaster.js:117-309 | 201 only for a created test with questions, 500 only for the thrown error, 400 for every other rejection |
| TestMaster.Mark | LMS/lmsserver/routes/testMaster.js:117-126 | a required field is reported `Required` exactly when it is falsy, else `Present` |
| TestMaster.AfterLastDot | LMS/lmsserver/routes/testMaster.js:150 | `split('.').pop()` is the suffix after the last dot (the whole name when there is none) and holds no dot |
| TestMaster.FileExtension | LMS/lmsserver/routes/testMaster.js:150 | the dispatch key is no longer than the name and holds no dot |
| TestMaster.ExtensionAfterLastDot | LMS/lmsserver/routes/testMaster.js:150 | for `prefix.ext` with a dot-free `ext` the key is `ext` lower-cased, whatever dots the prefix holds |
| TestMaster.NameWithoutDot | LMS/lmsserver/routes/testMaster.js:150 | a name without a dot is its own extension, so a file named `CSV` dispatches as CSV |
| TestMaster.AfterLastDotOfSuffix | LMS/lmsserver/routes/testMaster.js:150 | after a dot (or at the start) a dot-free tail is exactly what `pop()` returns |
| TestMaster.FormatOf | LMS/lmsserver/routes/testMaster.js:152-238 | `csv`, `xlsx`, and `pdf` or `docx` select the three extractors; every other key is unsupported |
| TestMaster.FileCandidates | LMS/lmsserver/routes/testMaster.js:195-209 | an upload yields at most one row per record, each tagged with the new test id and the request's training id |
| TestMaster.CompleteIndices | LMS/lmsserver/routes/testMaster.js:160 | every listed position is a record whose six fields are truthy |
| TestMaster.FileCandidatesAreCompleteRows | LMS/lmsserver/routes/testMaster.js:195-209 | the upload's rows are, one for one, the rows built from its complete records |
| TestMaster.CompleteIndicesIncrease | LMS/lmsserver/routes/testMaster.js:195-209 | those records are taken in upload order |
| TestMaster.CompleteIndicesComplete | LMS/lmsserver/routes/testMaster.js:195-209 | no complete record is skipped, so incomplete records are the only ones dropped |
| TestMaster.CollectFileRows | LMS/lmsserver/routes/testMaster.js:157-172 | the CSV `data` callback and the XLSX `forEach` push exactly the rows of complete records, in order |
| TestMaster.InlineCandidates | LMS/lmsserver/routes/testMaster.js:239-256 | the inline `map` fails exactly when some element has a falsy field; otherwise it gives one row per element, in array order |
| TestMaster.ValidQuestions | LMS/lmsserver/routes/testMaster.js:287-289 | keeps exactly the rows none of whose eight fields is null, undefined or `''`, in their order, each with all its copies |
| TestMaster.Persist | LMS/lmsserver/routes/testMaster.js:291-304 | `insertQuestions` answers 201 exactly when some row has all eight fields non-blank, and then inserts exactly the rows that do; otherwise 400 and nothing |
| TestMaster.NothingToPersist | LMS/lmsserver/routes/testMaster.js:291-292 | with no rows, `insertQuestions` answers "No valid questions" and inserts nothing |
| TestMaster.Extract | LMS/lmsserver/routes/testMaster.js:148-259 | every extracted row belongs to the new test and carries the request's training id |
| TestMaster.ExtractFile | LMS/lmsserver/routes/testMaster.js:148-238 | the same for the rows of an upload |
| TestMaster.IngestInsertsOnlyValidRows | LMS/lmsserver/routes/testMaster.js:284-304 | every inserted question is for the new test, with the request's training id and all fields non-blank; a rejected upload inserts nothing and answers its rejection; extracted rows give 201 exactly when one of them has no blank field, and then exactly those rows are inserted |
| TestMaster.FileTakesPrecedence | LMS/lmsserver/routes/testMaster.js:148-239 | with a file attached, the inline `questions` member does not affect the answer or the rows |
| TestMaster.UnsupportedExtension | LMS/lmsserver/routes/testMaster.js:236-238 | any key other than csv, xlsx, pdf or docx answers 400 "Unsupported file format" with no rows |
| TestMaster.DocumentsYieldNoQuestions | LMS/lmsserver/routes/testMaster.js:216-235 | PDF and Word uploads always end in 400 "No valid questions" with no rows |
| TestMaster.SecondPassIsIdentityOnFileRows | LMS/lmsserver/routes/testMaster.js:287-289 | with a truthy training id, the second filter keeps every row the extractors built |
| TestMaster.CandidateFromCompleteRow | LMS/lmsserver/routes/testMaster.js:160-170 | every row an upload yields passes the second filter when the training id is truthy |
| TestMaster.CompleteRecordNotBlank | LMS/lmsserver/routes/testMaster.js:197-207 | a row built from a complete record has no null, undefined or empty field |
| TestMaster.CsvUpload | LMS/lmsserver/routes/testMaster.js:152-187 | a CSV upload answers 400 "No valid questions found in CSV file" with no rows when no record is complete; otherwise 201 with every complete record inserted |
| TestMaster.XlsxUpload | LMS/lmsserver/routes/testMaster.js:188-215 | the same for XLSX, with the Excel message |
| TestMaster.InlineAllOrNothing | LMS/lmsserver/routes/testMaster.js:239-259 | one incomplete inline element gives 500 with no rows; otherwise 201 with one row per element, in array order |
| TestMaster.NoInputProvided | LMS/lmsserver/routes/testMaster.js:260-277 | without a file and a non-empty array the answer is "No file or questions provided" with no rows |
| TestMaster.ValuesUpTo | LMS/lmsserver/routes/testMaster.js:409-428 | one parameter per supplied column, none of them undefined |
| TestMaster.SuppliedValues | LMS/lmsserver/routes/testMaster.js:409-428 | the parameters match the supplied columns one for one and are never undefined |
| TestMaster.NoColumnsIff | LMS/lmsserver/routes/testMaster.js:409-428 | no column among the first k is supplied exactly when those k members are all undefined |
| TestMaster.NothingSupplied | LMS/lmsserver/routes/testMaster.js:430-432 | "No fields to update" happens exactly when all five members are undefined |
| TestMaster.AssignmentsTrailer | LMS/lmsserver/routes/testMaster.js:434-435 | the appended pieces are the SET list followed by a trailing `, ` |
| TestMaster.TrimTrailer | LMS/lmsserver/routes/testMaster.js:435 | `slice(0, -2)` of the appended pieces is exactly the SET list |
| TestMaster.SetListPlaceholders | LMS/lmsserver/routes/testMaster.js:409-428 | the SET list has one `?` per supplied column |
| TestMaster.UpdateSqlPlaceholders | LMS/lmsserver/routes/testMaster.js:437-440 | the UPDATE statement has one `?` per supplied column plus one for the id |
| TestMaster.BuildUpdate | LMS/lmsserver/routes/testMaster.js:406-440 | no statement exactly when nothing is supplied; otherwise the SET list in fixed column order, parameters in the same order followed by the id, `?` count equal to the parameter count |
| TestMaster.CollectFields | LMS/lmsserver/routes/testMaster.js:406-428 | the five appends give the supplied columns in order and their values |
| TestMaster.AddField | LMS/lmsserver/routes/testMaster.js:409-412 | one `!== undefined` step appends the column and its value exactly when the member is defined |
| TestMaster.ApplyUpdate | LMS/lmsserver/routes/testMaster.js:440-441 | supplied columns take the new value, the others and the id keep theirs; with nothing supplied the row is unchanged |
| TestMaster.QuestionsOf | LMS/lmsserver/routes/testMaster.js:510 | the question rows whose test id matches, and only those |
| TestMaster.TestMasterDb.InsertQuestions | LMS/lmsserver/routes/testMaster.js:284-309 | the questions table grows by exactly the surviving rows, and the answer is `insertQuestions`' |
| TestMaster.TestMasterDb.Post | LMS/lmsserver/routes/testMaster.js:105-282 | missing fields or a taken name answer 400 and change no table; otherwise exactly one test row is appended with the next id and stays, whatever the ingestion answers |
| TestMaster.TestMasterDb.CreateTest | LMS/lmsserver/routes/testMaster.js:138-143 | the new row takes the next id and is appended before any input is looked at |
| TestMaster.TestMasterDb.IngestQuestions | LMS/lmsserver/routes/testMaster.js:145-277 | the dispatch appends exactly the ingested rows and answers as the ingestion says |
| TestMaster.TestMasterDb.IngestFile | LMS/lmsserver/routes/testMaster.js:148-238 | the file branch appends exactly the rows extracted from the upload |
| TestMaster.TestMasterDb.InsertCollected | LMS/lmsserver/routes/testMaster.js:173-178 | after parsing: the format's own 400 when no row was collected, else `insertQuestions` |
| TestMaster.TestMasterDb.IngestInline | LMS/lmsserver/routes/testMaster.js:239-259 | the inline branch: 500 with no rows on an incomplete element, else `insertQuestions` of the mapped rows |
| TestMaster.TestMasterDb.Put | LMS/lmsserver/routes/testMaster.js:402-452 | 400 exactly when nothing is supplied, 404 when no test has the id, 200 otherwise; only the matching rows change, and only in their supplied columns |
| TestMaster.TestMasterDb.UpdateMatching | LMS/lmsserver/routes/testMaster.js:440-441 | every row with the id takes the supplied values; all other rows are untouched |
| TestMaster.TestMasterDb.GetQuestions | LMS/lmsserver/routes/testMaster.js:507-515 | the answer holds exactly the test's questions, and is 404 when there are none |
| TestMaster.CreatedNameIsUnique | LMS/lmsserver/routes/testMaster.js:129-141 | after a creation the new name is held by exactly one test |
| TestMaster.NewTestOwnsOnlyItsRows | LMS/lmsserver/routes/testMaster.js:507-512 | a new test owns exactly the rows its POST inserted, so one whose ingestion failed answers GET by id with 404 |
| Reports.TransformCourseReportData | git/lmsfrontend/src/Screens/Reports.js:8-37 | the two loops compute the header pass and the student pass; there are no students exactly when there are no rows |
| Reports.HeaderPassIsFirstSeen | git/lmsfrontend/src/Screens/Reports.js:12-17 | while every test name is truthy, the columns are the distinct test ids in order of first appearance, each named by its first row |
| Reports.FirstSeenPositions | git/lmsfrontend/src/Screens/Reports.js:12-17 | each column comes from the first row of its test, in row order, and no test's first row is missed |
| Reports.FirstSeenDistinct | git/lmsfrontend/src/Screens/Reports.js:12-17 | each test id is a column once, and every test id in the rows is one |
| Reports.FalsyNameRepeatsColumn | git/lmsfrontend/src/Screens/Reports.js:13-15 | a falsy first name does not mark the test as seen, so its id is pushed again |
| Reports.OneEntryPerStudent | git/lmsfrontend/src/Screens/Reports.js:19-28 | there is exactly one entry per distinct student id, holding that id |
| Reports.NameFromFirstRow | git/lmsfrontend/src/Screens/Reports.js:21-28 | `student_name` comes from the student's first row |
| Reports.LastScoreWins | git/lmsfrontend/src/Screens/Reports.js:29 | `scores[test_id]` is the score of the last row for that (student, test) pair |
| Reports.TotalIsSumOfRows | git/lmsfrontend/src/Screens/Reports.js:30 | `total` is the sum of the scores of all of the student's rows, repeats included |
| Reports.TotalMatchesScoresWithoutRepeats | git/lmsfrontend/src/Screens/Reports.js:29-30 | when no (student, test) pair repeats, `total` equals the sum of the student's score cells over the tests that student took; the columns of other students' tests are not summed |
| Reports.RepeatedPairCountsTwice | git/lmsfrontend/src/Screens/Reports.js:29-30 | a repeated pair counts twice in `total` but once in `scores` |
| Reports.NoDataIffNoRows | git/lmsfrontend/src/Screens/Reports.js:118-121 | "No data available" shows exactly for empty input, and then there are no columns either |
| Reports.DisplayedScore | git/lmsfrontend/src/Screens/Reports.js:139 | a test without a score for the student shows 0, otherwise the stored score |
| StudentTrainings.OrEmpty | git/lmsserver/routes/studentTrainings.js:63 | a missing list defaults to `[]` |
| StudentTrainings.InsertValues | git/lmsserver/routes/studentTrainings.js:72 | one (student, training) pair per id, in order |
| StudentTrainings.AfterDelete | git/lmsserver/routes/studentTrainings.js:77-84 | the DELETE removes exactly the rows of this training whose student is in the unmap list |
| StudentTrainings.BuildDelete | git/lmsserver/routes/studentTrainings.js:79-83 | the parameters are the training id followed by the unmap list |
| StudentTrainings.PlaceholderCount | git/lmsserver/routes/studentTrainings.js:79 | the IN list has one `?` per id to unmap |
| StudentTrainings.DeletePlaceholders | git/lmsserver/routes/studentTrainings.js:79-83 | the DELETE has one `?` per parameter: the unmap list's length plus one |
| StudentTrainings.MappingTable.Post | git/lmsserver/routes/studentTrainings.js:61-91 | 400 with the table unchanged exactly when the training id is falsy or both lists are empty; otherwise 201 with inserts first, then the delete |
| StudentTrainings.OtherTrainingsUntouched | git/lmsserver/routes/studentTrainings.js:70-84 | the rows of any other training are unchanged, in content and order |
| StudentTrainings.InBothListsEndsUnmapped | git/lmsserver/routes/studentTrainings.js:70-84 | an id in both lists ends with no mapping for this training, because the delete runs last |
| StudentTrainings.MappedOnlyEndsMapped | git/lmsserver/routes/studentTrainings.js:70-84 | an id only in the map list ends mapped to this training |
| StudentTrainings.PostMembership | git/lmsserver/routes/studentTrainings.js:70-84 | a row is there afterwards exactly when it was there or was inserted, and it is not an unmapped pair |
| StudentTrainings.UserRows | git/lmsserver/routes/studentTrainings.js:97-109 | the LEFT JOIN gives a user at least one row: `Check` rows when a mapping for the training exists, else one `Uncheck` row with a null training |
| StudentTrainings.GetTrainingRows | git/lmsserver/routes/studentTrainings.js:110-114 | 404 exactly when the result is empty, else 200 with the rows |
| StudentTrainings.TrainingRowsFlag | git/lmsserver/routes/studentTrainings.js:97-110 | every row belongs to a user of the company and says `Check` exactly when that user is mapped to the training |
| StudentTrainings.EveryCompanyUserListed | git/lmsserver/routes/studentTrainings.js:97-110 | every user of the company appears |
| StudentTrainings.NotFoundIffNoCompanyUser | git/lmsserver/routes/studentTrainings.js:110-113 | GET answers 404 exactly when the company has no user |
| StudentMapping.FetchRecords | git/lmsfrontend/src/Screens/StudentMapping.js:47-50 | the `forEach` builds the records object, one property per user id |
| StudentMapping.SetRecordReads | git/lmsfrontend/src/Screens/StudentMapping.js:49 | setting a property changes what that key reads and nothing else |
| StudentMapping.RecordsDistinct | git/lmsfrontend/src/Screens/StudentMapping.js:47-50 | the object never holds the same key twice |
| StudentMapping.RecordAbsent | git/lmsfrontend/src/Screens/StudentMapping.js:47-50 | a user id not in the answer reads as falsy |
| StudentMapping.RecordFlag | git/lmsfrontend/src/Screens/StudentMapping.js:49 | `records[user_id]` is true exactly when that student's last row says `'Check'` |
| StudentMapping.Toggle | git/lmsfrontend/src/Screens/StudentMapping.js:83-89 | the toggled id is selected afterwards exactly when it was not before; every other id keeps its membership; an unselected id is appended at the end; removing one keeps the rest in their order |
| StudentMapping.ToggleTwiceRestores | git/lmsfrontend/src/Screens/StudentMapping.js:83-89 | toggling an unselected id twice restores the selection exactly |
| StudentMapping.ToggleTwiceMovesToEnd | git/lmsfrontend/src/Screens/StudentMapping.js:83-89 | a selected id toggled off and on ends up last after the others, so the selection differs from before unless it was already last |
| StudentMapping.ToggleKeepsNoDuplicates | git/lmsfrontend/src/Screens/StudentMapping.js:83-89 | toggling keeps the selection free of repeats |
| StudentMapping.CheckAll | git/lmsfrontend/src/Screens/StudentMapping.js:91-100 | unchecked empties the selection; checked selects exactly the students not recorded as mapped, in list order |
| StudentMapping.UnmappedIdsMembers | git/lmsfrontend/src/Screens/StudentMapping.js:93-95 | the check-all list holds exactly the listed students whose record is falsy |
| StudentMapping.UnmappedIdsInOrder | git/lmsfrontend/src/Screens/StudentMapping.js:93-95 | the check-all list picks the students not recorded as mapped out of the list at increasing positions and skips none of them |
| StudentMapping.UnmappedIdsSubsequence | git/lmsfrontend/src/Screens/StudentMapping.js:93-95 | the check-all list keeps the students' list order |
| StudentMapping.StudentIdsToMap | git/lmsfrontend/src/Screens/StudentMapping.js:103 | `student_ids` holds exactly the selected ids not recorded as mapped |
| StudentMapping.StudentIdsInSelectionOrder | git/lmsfrontend/src/Screens/StudentMapping.js:103 | `student_ids` keeps the selection's order |
| StudentMapping.AsNumbers | git/lmsfrontend/src/Screens/StudentMapping.js:103-105 | the selection holds JavaScript numbers, one per selected id |
| StudentMapping.Numbers | git/lmsfrontend/src/Screens/StudentMapping.js:106-111 | `Number` of each entry key gives back its user id |
| StudentMapping.UnmapAsWrittenIgnoresSelection | git/lmsfrontend/src/Screens/StudentMapping.js:104-106 | as written, the unmap list is the same whatever is selected |
| StudentMapping.UnmapAsWrittenMembers | git/lmsfrontend/src/Screens/StudentMapping.js:104-106 | as written, the unmap list holds exactly the students recorded as mapped |
| StudentMapping.SelectedMappedStudentIsUnmapped | git/lmsfrontend/src/Screens/StudentMapping.js:104-106 | a mapped student who stays selected is unmapped by the code as written, and not by the corrected list |
| StudentMapping.UnmapIdsMembers | git/lmsfrontend/src/Screens/StudentMapping.js:104-106 | the corrected unmap list holds exactly the mapped students who are not selected |
| StudentMapping.UnmapIdsSound | git/lmsfrontend/src/Screens/StudentMapping.js:104-106 | every id in the corrected unmap list is mapped and not selected |
| StudentMapping.UnmapIdsComplete | git/lmsfrontend/src/Screens/StudentMapping.js:104-106 | every mapped, unselected student is in the corrected unmap list |
| StudentMapping.ListsAreDisjoint | git/lmsfrontend/src/Screens/StudentMapping.js:103-106 | no id is in both the map list and the unmap list, as written or corrected |
| StudentMapping.MappingScreen.constructor | git/lmsfrontend/src/Screens/StudentMapping.js:13-22 | every picker starts empty, with no students, no selection and no records |
| StudentMapping.MappingScreen.CompanyChange | git/lmsfrontend/src/Screens/StudentMapping.js:55-63 | changing company clears course, training, students, selection and records |
| StudentMapping.MappingScreen.CourseChange | git/lmsfrontend/src/Screens/StudentMapping.js:65-72 | changing course keeps the company and clears training, students, selection and records |
| StudentMapping.MappingScreen.TrainingChange | git/lmsfrontend/src/Screens/StudentMapping.js:74-81 | changing training clears selection and records; students are fetched exactly when a company and the training are set |
| StudentMapping.MappingScreen.StudentsLoaded | git/lmsfrontend/src/Screens/StudentMapping.js:43-53 | a successful fetch stores the students and the records built from them |
| StudentMapping.MappingScreen.StudentChange | git/lmsfrontend/src/Screens/StudentMapping.js:83-89 | the selection becomes the toggle of the old one |
| StudentMapping.MappingScreen.CheckAllChanged | git/lmsfrontend/src/Screens/StudentMapping.js:91-100 | the selection becomes the check-all list |
| StudentMapping.MappingScreen.Submit | git/lmsfrontend/src/Screens/StudentMapping.js:102-112 | the body holds the training, the map list, and the unmap list as written, which names every student recorded as mapped whether selected or not |
| StandupNotesServer.WeeklyResponse.Status | git/lmsserver/routes/standupNotes.js:109-146 | 403 exactly for a non-admin, 400 exactly for missing dates, 200 exactly for the weekly result |
| StandupNotesServer.BuildNotesMap | git/lmsserver/routes/standupNotes.js:129-134 | the `forEach` builds the user-to-day-to-note grouping |
| StandupNotesServer.WeeklyResult | git/lmsserver/routes/standupNotes.js:137-144 | one element per active student, in query order, holding that student's notes or `{}` |
| StandupNotesServer.GetWeekly | git/lmsserver/routes/standupNotes.js:105-151 | 403 exactly when there is no user or the role is not 1, checked before the dates; 400 exactly when an admin omits a date; otherwise the per-student result |
| StandupNotesServer.LastNoteWins | git/lmsserver/routes/standupNotes.js:130-134 | for each user and day, the kept note is the last one in the list |
| StandupNotesServer.NotesMapSound | git/lmsserver/routes/standupNotes.js:129-134 | every grouped note comes from the list, under its own user and day |
| StandupNotesServer.NotesMapComplete | git/lmsserver/routes/standupNotes.js:129-134 | every note's user and day have an entry |
| StandupNotesServer.WeeklyNotesBelongToStudent | git/lmsserver/routes/standupNotes.js:137-144 | a student without notes gets `{}`; every note shown is that student's |
| StandupNotesServer.NonStudentNotesHidden | git/lmsserver/routes/standupNotes.js:137-144 | a note whose user is not an active student appears nowhere in the answer |
| StandupNotesServer.Edited | git/lmsserver/routes/standupNotes.js:216-222 | the UPDATE changes only the three texts and `updated_at` of the row with the id |
| StandupNotesServer.EditAll | git/lmsserver/routes/standupNotes.js:216-222 | every row goes through that change; ids stay where they were |
| StandupNotesServer.NotesTable.Create | git/lmsserver/routes/standupNotes.js:184-204 | 201; the note is appended with a fresh id and the token's user id, whatever the body says |
| StandupNotesServer.NotesTable.Update | git/lmsserver/routes/standupNotes.js:208-240 | 404 exactly when no note has the id, else 200; each row is edited as above |
| StandupNotesServer.NotesTable.Delete | git/lmsserver/routes/standupNotes.js:244-270 | 404 exactly when no note has the id, else 200; exactly the rows with the id are removed |
| AdminStandupNotes.Weekday | git/lmsfrontend/src/Screens/AdminStandupNotes.js:10 | `getDay()` lies in 0..6 |
| AdminStandupNotes.WeekdayPeriodic | git/lmsfrontend/src/Screens/AdminStandupNotes.js:10 | weekdays repeat every seven days |
| AdminStandupNotes.GetMonday | git/lmsfrontend/src/Screens/AdminStandupNotes.js:8-13 | the result is a Monday, never after the day, and at most six days before it |
| AdminStandupNotes.GetFriday | git/lmsfrontend/src/Screens/AdminStandupNotes.js:14-18 | four days after a Monday, which is a Friday |
| AdminStandupNotes.GetWeekDates | git/lmsfrontend/src/Screens/AdminStandupNotes.js:22-28 | five consecutive days from the given Monday |
| AdminStandupNotes.MondayIsFixed | git/lmsfrontend/src/Screens/AdminStandupNotes.js:8-13 | a Monday is its own Monday |
| AdminStandupNotes.GetMondayIdempotent | git/lmsfrontend/src/Screens/AdminStandupNotes.js:8-13 | `getMonday` is idempotent |
| AdminStandupNotes.SameWeekSameMonday | git/lmsfrontend/src/Screens/AdminStandupNotes.js:8-13 | every day from a Monday through the following Sunday maps back to that Monday |
| AdminStandupNotes.WeekDatesSpanMondayToFriday | git/lmsfrontend/src/Screens/AdminStandupNotes.js:22-28 | the week's dates run from its Monday to its Friday, weekday by weekday |
| AdminStandupNotes.TruncateText | git/lmsfrontend/src/Screens/AdminStandupNotes.js:31-34 | falsy text gives `''`; text within the limit is unchanged; longer text is its first `maxLength` characters plus `...` |
| AdminStandupNotes.CellText | git/lmsfrontend/src/Screens/AdminStandupNotes.js:31 | a cell is at most 43 characters, and text of at most 40 is shown whole |
| AdminStandupNotes.TruncateBounded | git/lmsfrontend/src/Screens/AdminStandupNotes.js:31-34 | truncation never exceeds the limit plus three, and truncating short text again changes nothing |
| AdminStandupNotes.WeekView.constructor | git/lmsfrontend/src/Screens/AdminStandupNotes.js:37-40 | the view starts at this week's Monday to Friday and is admin exactly when the stored role is 1 |
| AdminStandupNotes.WeekView.PrevWeek | git/lmsfrontend/src/Screens/AdminStandupNotes.js:84-89 | both ends move back exactly seven days, and the start stays a Monday with the end four days later |
| AdminStandupNotes.WeekView.NextWeek | git/lmsfrontend/src/Screens/AdminStandupNotes.js:90-95 | both ends move forward exactly seven days, with the same invariant |
| AdminStandupNotes.WeekView.FetchRange | git/lmsfrontend/src/Screens/AdminStandupNotes.js:49-63 | nothing is fetched exactly for a non-admin; an admin fetches the shown Monday-to-Friday range |
| StandupNotesScreen.CurrentUserId | git/lmsfrontend/src/Screens/StandupNotes.js:19-21 | without a stored user the id is null |
| StandupNotesScreen.CurrentUserRole | git/lmsfrontend/src/Screens/StandupNotes.js:19-22 | without a stored user the role is null |
| StandupNotesScreen.VisibleNotesMembers | git/lmsfrontend/src/Screens/StandupNotes.js:134 | role 1 sees every note; anyone else exactly the notes whose user id equals theirs |
| StandupNotesScreen.VisibleIsSubsequence | git/lmsfrontend/src/Screens/StandupNotes.js:134 | the list shown is a subsequence of the notes, in their order |
| StandupNotesScreen.NoUserSeesNothing | git/lmsfrontend/src/Screens/StandupNotes.js:19-22 | without a stored user no note is listed |
| StandupNotesScreen.NotesScreen.constructor | git/lmsfrontend/src/Screens/StandupNotes.js:9-16 | no notes, an empty create form, nothing being edited |
| StandupNotesScreen.NotesScreen.NotesLoaded | git/lmsfrontend/src/Screens/StandupNotes.js:28-32 | a successful fetch replaces the notes |
| StandupNotesScreen.NotesScreen.SetNewDate | git/lmsfrontend/src/Screens/StandupNotes.js:10-15 | typing in the form changes that one field |
| StandupNotesScreen.NotesScreen.CreateAnswered | git/lmsfrontend/src/Screens/StandupNotes.js:41-59 | the form is reset to four empty fields exactly on 201 |
| StandupNotesScreen.NotesScreen.StartEdit | git/lmsfrontend/src/Screens/StandupNotes.js:156 | Edit makes the row the one being edited |
| StandupNotesScreen.NotesScreen.SetEditWork | git/lmsfrontend/src/Screens/StandupNotes.js:140 | typing in the edit row changes the edited copy, not the list |
| StandupNotesScreen.NotesScreen.CancelEdit | git/lmsfrontend/src/Screens/StandupNotes.js:152 | Cancel ends editing |
| StandupNotesScreen.NotesScreen.UpdateAnswered | git/lmsfrontend/src/Screens/StandupNotes.js:61-73 | editing ends exactly on 200; a failed update leaves it in place |
| StandupNotesScreen.NotesScreen.AtMostOneEditingRow | git/lmsfrontend/src/Screens/StandupNotes.js:139-149 | with distinct note ids, at most one row renders in edit mode |
| CombinedScores.Band.ClassName | git/lmsfrontend/src/Screens/CombinedScoresView.js:119-124 | each band has its own class: `text-success`, `text-info`, `text-warning`, `text-danger`, and no band shares another's |
| CombinedScores.Band.Rank | git/lmsfrontend/src/Screens/CombinedScoresView.js:119-124 | bands are ranked from danger (0) to success (3) |
| CombinedScores.GetScoreColor | git/lmsfrontend/src/Screens/CombinedScoresView.js:119-124 | success exactly from 90, info exactly in [80, 90), warning exactly in [70, 80), danger exactly below 70 |
| CombinedScores.ScoreColorMonotone | git/lmsfrontend/src/Screens/CombinedScoresView.js:119-124 | a higher percentage never gets a worse band |
| CombinedScores.ClearedFilters | git/lmsfrontend/src/Screens/CombinedScoresView.js:13-21 | exactly the seven filter keys, each `''` |
| CombinedScores.WithFilter | git/lmsfrontend/src/Screens/CombinedScoresView.js:92-97 | only the named key changes, to the new value |
| CombinedScores.WithFilterKeepsKeys | git/lmsfrontend/src/Screens/CombinedScoresView.js:92-97 | changing one of the seven filters keeps exactly the seven keys |
| CombinedScores.CoursesRequest | git/lmsfrontend/src/Screens/CombinedScoresView.js:39-43 | the company's courses are requested exactly when the company filter is set |
| CombinedScores.ScoresView.constructor | git/lmsfrontend/src/Screens/CombinedScoresView.js:6-27 | all seven filters start `''`, with empty lists |
| CombinedScores.ScoresView.FilterChange | git/lmsfrontend/src/Screens/CombinedScoresView.js:92-97 | the filters become the old ones with the one key changed, and keep the seven keys |
| CombinedScores.ScoresView.ClearFilters | git/lmsfrontend/src/Screens/CombinedScoresView.js:104-117 | every filter back to `''`; courses, trainings and tests emptied; companies and scores untouched |
| CombinedScores.ScoresView.ScoresAnswered | git/lmsfrontend/src/Screens/CombinedScoresView.js:63-79 | a successful answer replaces the scores; a failed one keeps them and sets "Failed to fetch scores data" |
| CombinedScores.ScoresView.CoursesLoaded | git/lmsfrontend/src/Screens/CombinedScoresView.js:54-61 | the fetched courses replace the list |

## Left out

- SQL execution is not modelled. Tables are sequences of records. Failing queries, lost connections and duplicate keys are not modelled. The 500 answers they cause are left out, except the one thrown by an incomplete inline record.
- SQL collation, and the order of rows a `SELECT` returns, are not modelled. Names compare by exact equality, and query results are taken as given sequences.
- File handling is not modelled: multer staging, streams, csv-parser, `xlsx.readFile`/`sheet_to_json`, pdf-parse and mammoth. An upload is its original name plus the records a parser would yield. PDF and Word text is never used.
- Asynchrony is not modelled. The CSV stream's `data` callbacks are a loop, and the `end` callback is the step after it. Promise ordering and the duplicate-name check-then-insert race are out of scope.
- Authentication is not modelled: JWT signing and the auth middleware. `req.user` and the stored `userData` are inputs.
- HTTP fetch wrappers and their network effects are not modelled. An answer (`ok`, status, rows) is a method parameter.
- `GET /test-master` is a pass-through `SELECT` and is not modelled. The same holds for `GET /` and `GET /:id` of the standup-notes route.
- `FileExtension` lower-cases ASCII letters only; other Unicode case mappings are not modelled.
- Dates are not modelled as JavaScript dates. They are integer day numbers, and `getDay()` is the day number's weekday. `toISOString`, `toLocaleDateString` and local-time shifts are left out, and a note's day key is an opaque string.
- Scores and percentages are integers or reals. Floating-point rounding and `NaN` are not modelled.
- `Object.values` ordering is not modelled. The report's students are a map keyed by id. The records object keeps insertion order; for integer-like keys JavaScript would enumerate them numerically.
- `TestMaster.TestMasterDb.Put`: `affectedRows` is taken as the number of rows the WHERE clause matches. MySQL counts only rows actually changed unless configured otherwise.
- `StudentTrainings.MappingTable.Post`: `training_id` is a number or missing. A string id, and `null` lists that `= []` would not default, are not modelled.
- `StudentMapping.MappingScreen.Submit`: `Number(selectedTraining)` is kept as the picker's string.
- `AdminStandupNotes.TruncateText`: lengths count Unicode characters, while JavaScript's `length` and `substring` count UTF-16 code units. Text with characters outside the Basic Multilingual Plane is cut at a different point, and JavaScript's cut can split a surrogate pair.
- `AdminStandupNotes.CellText`: the 40- and 43-character bounds count Unicode characters, not UTF-16 code units, for the same reason.
- JSX rendering, tooltips, `alert`/`confirm`, `localStorage` and logging are UI side effects and are not modelled.
- `CombinedScores.ScoresView.ScoresAnswered`: a thrown fetch (message "Error fetching scores data") and the loading flag are not modelled.

## Findings

| source | as written | input that shows it | evidently intended | confidence | as-written member | corrected member |
|---|---|---|---|---|---|---|
| git/lmsfrontend/src/Screens/StudentMapping.js:104-106 | the unmap filter tests `!selectedStudents.includes(id)`, where `id` is an `Object.entries` key (a string) and the selection holds numbers, so the test is always true | records `{ "5": true }` with student 5 still selected: the submitted `unmap_student_ids` is `[5]`, so a student the user kept ticked is unmapped | unmap exactly the mapped students that are not selected, comparing the key as a number | not executed | StudentMapping.UnmapIdsAsWritten | StudentMapping.UnmapIds |
