/** The course-wise report pivot of the Reports screen: report rows become a
    list of test columns and one entry per student with per-test scores and a
    total. */
module Reports {
  import opened JsCore

  /** One row of the course report query. Ids and scores are numbers. */
  datatype ReportRow = ReportRow(
    testId: int, testName: JsVal, studentId: int, studentName: JsVal, score: int)

  /** A column header `{ test_id, test_name }`. */
  datatype TestHeader = TestHeader(testId: int, testName: JsVal)

  /** `{ student_id, student_name, scores, total }`. */
  datatype StudentEntry = StudentEntry(
    studentId: int, studentName: JsVal, scores: map<int, int>, total: int)

  /** `testIdToName` and `tests` while the first loop runs. */
  datatype HeaderState = HeaderState(names: map<int, JsVal>, tests: seq<TestHeader>)

  /** The transform's result; `students` is kept keyed by id, since
      `Object.values` imposes its own key order. */
  datatype CourseReport = CourseReport(tests: seq<TestHeader>, students: map<int, StudentEntry>)

  // ---------------------------------------------------------------------------
  // Specification of the two passes
  // ---------------------------------------------------------------------------

  /** One step of the first loop: a test id is (re)recorded unless a truthy
      name is already stored for it. */
  function HeaderStep(st: HeaderState, row: ReportRow): HeaderState
  {
    if row.testId in st.names && Truthy(st.names[row.testId]) then st
    else HeaderState(st.names[row.testId := row.testName],
                     st.tests + [TestHeader(row.testId, row.testName)])
  }

  function HeaderPass(rows: seq<ReportRow>): HeaderState
  {
    if rows == [] then HeaderState(map[], [])
    else HeaderStep(HeaderPass(rows[..|rows| - 1]), rows[|rows| - 1])
  }

  /** One step of the second loop: create the entry on the student's first
      row, then overwrite the score for this test and add to the total. */
  function StudentStep(students: map<int, StudentEntry>, row: ReportRow): map<int, StudentEntry>
  {
    var e := if row.studentId in students then students[row.studentId]
             else StudentEntry(row.studentId, row.studentName, map[], 0);
    students[row.studentId := e.(scores := e.scores[row.testId := row.score],
                                 total := e.total + row.score)]
  }

  function StudentPass(rows: seq<ReportRow>): map<int, StudentEntry>
  {
    if rows == [] then map[]
    else StudentStep(StudentPass(rows[..|rows| - 1]), rows[|rows| - 1])
  }

  /** The two loops, imperatively, as `transformCourseReportData` runs them. */
  method TransformCourseReportData(rows: seq<ReportRow>) returns (report: CourseReport)
    ensures report.tests == HeaderPass(rows).tests
    ensures report.students == StudentPass(rows)
    ensures report.students == map[] <==> rows == []
  {
    var tests: seq<TestHeader> := [];
    var testIdToName: map<int, JsVal> := map[];
    var i := 0;
    while i < |rows|
      invariant 0 <= i <= |rows|
      invariant HeaderState(testIdToName, tests) == HeaderPass(rows[..i])
    {
      var row := rows[i];
      assert rows[..i + 1][..i] == rows[..i];
      if !(row.testId in testIdToName && Truthy(testIdToName[row.testId])) {
        testIdToName := testIdToName[row.testId := row.testName];
        tests := tests + [TestHeader(row.testId, row.testName)];
      }
      i := i + 1;
    }
    assert rows[..|rows|] == rows;

    var students: map<int, StudentEntry> := map[];
    i := 0;
    while i < |rows|
      invariant 0 <= i <= |rows|
      invariant students == StudentPass(rows[..i])
    {
      var row := rows[i];
      assert rows[..i + 1][..i] == rows[..i];
      if row.studentId !in students {
        students := students[row.studentId := StudentEntry(row.studentId, row.studentName, map[], 0)];
      }
      var e := students[row.studentId];
      students := students[row.studentId := e.(scores := e.scores[row.testId := row.score],
                                               total := e.total + row.score)];
      i := i + 1;
    }
    NoDataIffNoRows(rows);
    report := CourseReport(tests, students);
  }

  // ---------------------------------------------------------------------------
  // Test columns
  // ---------------------------------------------------------------------------

  function TestIds(rows: seq<ReportRow>): set<int>
  {
    set r | r in rows :: r.testId
  }

  /** Reference definition: the distinct test ids in order of first
      appearance, each named by the row where it first appears. */
  function FirstSeen(rows: seq<ReportRow>): seq<TestHeader>
  {
    if rows == [] then []
    else
      var init, last := rows[..|rows| - 1], rows[|rows| - 1];
      if last.testId in TestIds(init) then FirstSeen(init)
      else FirstSeen(init) + [TestHeader(last.testId, last.testName)]
  }

  predicate FirstOfItsTest(rows: seq<ReportRow>, i: int)
    requires 0 <= i < |rows|
  {
    forall j :: 0 <= j < i ==> rows[j].testId != rows[i].testId
  }

  lemma TestIdsSnoc(init: seq<ReportRow>, r: ReportRow)
    ensures TestIds(init + [r]) == TestIds(init) + {r.testId}
  {
    assert forall x :: x in init + [r] <==> x in init || x == r;
  }

  /** While every test name is truthy, the first loop builds exactly the
      reference list, and `testIdToName` knows every test id. */
  lemma {:induction false} HeaderPassIsFirstSeen(rows: seq<ReportRow>)
    requires forall i :: 0 <= i < |rows| ==> Truthy(rows[i].testName)
    ensures HeaderPass(rows).tests == FirstSeen(rows)
    ensures HeaderPass(rows).names.Keys == TestIds(rows)
    ensures forall t :: t in HeaderPass(rows).names ==> Truthy(HeaderPass(rows).names[t])
  {
    if rows != [] {
      var init, last := rows[..|rows| - 1], rows[|rows| - 1];
      HeaderPassIsFirstSeen(init);
      TestIdsSnoc(init, last);
      assert init + [last] == rows;
    }
  }

  /** The reference list names each test by its first row, keeps the order of
      first appearance, and leaves no first appearance out. */
  lemma {:induction false} FirstSeenPositions(rows: seq<ReportRow>) returns (idx: seq<nat>)
    ensures |idx| == |FirstSeen(rows)|
    ensures forall k :: 0 <= k < |idx| ==>
      idx[k] < |rows| && FirstOfItsTest(rows, idx[k])
      && FirstSeen(rows)[k] == TestHeader(rows[idx[k]].testId, rows[idx[k]].testName)
    ensures forall k, l :: 0 <= k < l < |idx| ==> idx[k] < idx[l]
    ensures forall i :: 0 <= i < |rows| && FirstOfItsTest(rows, i) ==> i in idx
  {
    if rows == [] {
      idx := [];
    } else {
      var init, last := rows[..|rows| - 1], rows[|rows| - 1];
      var idx0 := FirstSeenPositions(init);
      FirstOfItsTestPrefix(rows);
      LastFirstOfItsTest(rows);
      if last.testId in TestIds(init) {
        idx := idx0;
      } else {
        idx := idx0 + [|rows| - 1];
      }
    }
  }

  /** Whether a row is its test's first does not depend on later rows. */
  lemma FirstOfItsTestPrefix(rows: seq<ReportRow>)
    requires rows != []
    ensures forall i :: 0 <= i < |rows| - 1 ==>
      (FirstOfItsTest(rows, i) <==> FirstOfItsTest(rows[..|rows| - 1], i))
  {
  }

  lemma LastFirstOfItsTest(rows: seq<ReportRow>)
    requires rows != []
    ensures FirstOfItsTest(rows, |rows| - 1) <==> rows[|rows| - 1].testId !in TestIds(rows[..|rows| - 1])
  {
    var init := rows[..|rows| - 1];
    if rows[|rows| - 1].testId in TestIds(init) {
      var r :| r in init && r.testId == rows[|rows| - 1].testId;
      var j :| 0 <= j < |init| && init[j] == r;
      assert rows[j].testId == rows[|rows| - 1].testId;
    } else {
      forall j | 0 <= j < |rows| - 1
        ensures rows[j].testId != rows[|rows| - 1].testId
      {
        assert init[j] in init;
      }
    }
  }

  /** Each test id appears once in the reference list, and every id does. */
  lemma {:induction false} FirstSeenDistinct(rows: seq<ReportRow>)
    ensures forall k, l :: 0 <= k < l < |FirstSeen(rows)| ==>
      FirstSeen(rows)[k].testId != FirstSeen(rows)[l].testId
    ensures (set h | h in FirstSeen(rows) :: h.testId) == TestIds(rows)
  {
    if rows != [] {
      var init, last := rows[..|rows| - 1], rows[|rows| - 1];
      FirstSeenDistinct(init);
      TestIdsSnoc(init, last);
      assert init + [last] == rows;
      var f0 := FirstSeen(init);
      if last.testId !in TestIds(init) {
        var h := TestHeader(last.testId, last.testName);
        assert forall x :: x in f0 + [h] <==> x in f0 || x == h;
        forall k | 0 <= k < |f0|
          ensures f0[k].testId != last.testId
        {
          assert f0[k] in f0;
        }
      }
    }
  }

  /** A falsy first name does not mark its test as seen: the same id is pushed
      once per row. */
  lemma FalsyNameRepeatsColumn()
    ensures var rows := [ReportRow(7, Str(""), 1, Str("Ann"), 50),
                         ReportRow(7, Str(""), 2, Str("Bob"), 60)];
            HeaderPass(rows).tests == [TestHeader(7, Str("")), TestHeader(7, Str(""))]
  {
    var rows := [ReportRow(7, Str(""), 1, Str("Ann"), 50),
                 ReportRow(7, Str(""), 2, Str("Bob"), 60)];
    assert rows[..1] == [rows[0]];
    assert rows[..1][..0] == [];
  }

  // ---------------------------------------------------------------------------
  // Student entries
  // ---------------------------------------------------------------------------

  function StudentIds(rows: seq<ReportRow>): set<int>
  {
    set r | r in rows :: r.studentId
  }

  lemma StudentIdsSnoc(init: seq<ReportRow>, r: ReportRow)
    ensures StudentIds(init + [r]) == StudentIds(init) + {r.studentId}
  {
    assert forall x :: x in init + [r] <==> x in init || x == r;
  }

  /** One entry per distinct student id, each carrying its own id. */
  lemma {:induction false} OneEntryPerStudent(rows: seq<ReportRow>)
    ensures StudentPass(rows).Keys == StudentIds(rows)
    ensures forall s :: s in StudentPass(rows) ==> StudentPass(rows)[s].studentId == s
  {
    if rows != [] {
      var init, last := rows[..|rows| - 1], rows[|rows| - 1];
      OneEntryPerStudent(init);
      StudentIdsSnoc(init, last);
      assert init + [last] == rows;
    }
  }

  /** The report has no student exactly when there are no rows; the "No data
      available" branch is taken then and only then. */
  lemma NoDataIffNoRows(rows: seq<ReportRow>)
    ensures StudentPass(rows) == map[] <==> rows == []
    ensures rows == [] ==> HeaderPass(rows).tests == []
  {
    OneEntryPerStudent(rows);
    if rows != [] {
      assert rows[0].studentId in StudentIds(rows);
    }
  }

  /** `student_name` comes from the student's first row. */
  lemma {:induction false} NameFromFirstRow(rows: seq<ReportRow>, i: int)
    requires 0 <= i < |rows|
    requires forall j :: 0 <= j < i ==> rows[j].studentId != rows[i].studentId
    ensures rows[i].studentId in StudentPass(rows)
    ensures StudentPass(rows)[rows[i].studentId].studentName == rows[i].studentName
  {
    var init, last := rows[..|rows| - 1], rows[|rows| - 1];
    if i == |rows| - 1 {
      OneEntryPerStudent(init);
    } else {
      NameFromFirstRow(init, i);
    }
  }

  /** `scores[test_id]` is the score of the last row for that (student, test). */
  lemma {:induction false} LastScoreWins(rows: seq<ReportRow>, i: int)
    requires 0 <= i < |rows|
    requires forall j :: i < j < |rows| ==>
      rows[j].studentId != rows[i].studentId || rows[j].testId != rows[i].testId
    ensures rows[i].studentId in StudentPass(rows)
    ensures rows[i].testId in StudentPass(rows)[rows[i].studentId].scores
    ensures StudentPass(rows)[rows[i].studentId].scores[rows[i].testId] == rows[i].score
  {
    if i < |rows| - 1 {
      LastScoreWins(rows[..|rows| - 1], i);
    }
  }

  /** A test with no row for the student shows 0; otherwise its stored score. */
  function DisplayedScore(e: StudentEntry, testId: int): (shown: int)
    ensures testId !in e.scores ==> shown == 0
    ensures testId in e.scores ==> shown == e.scores[testId]
  {
    if testId in e.scores then e.scores[testId] else 0
  }

  /** The rows of one student, in order. */
  function RowsOf(rows: seq<ReportRow>, s: int): seq<ReportRow>
  {
    if rows == [] then []
    else if rows[|rows| - 1].studentId == s then RowsOf(rows[..|rows| - 1], s) + [rows[|rows| - 1]]
    else RowsOf(rows[..|rows| - 1], s)
  }

  function SumScores(rows: seq<ReportRow>): int
  {
    if rows == [] then 0 else SumScores(rows[..|rows| - 1]) + rows[|rows| - 1].score
  }

  lemma SumScoresSnoc(rows: seq<ReportRow>, r: ReportRow)
    ensures SumScores(rows + [r]) == SumScores(rows) + r.score
  {
    assert (rows + [r])[..|rows|] == rows;
  }

  /** A student with no entry has no rows. */
  lemma {:induction false} RowsOfAbsent(rows: seq<ReportRow>, s: int)
    requires s !in StudentPass(rows)
    ensures RowsOf(rows, s) == []
  {
    if rows != [] {
      RowsOfAbsent(rows[..|rows| - 1], s);
    }
  }

  /** `total` adds up every row of the student, repeats included. */
  lemma {:induction false} TotalIsSumOfRows(rows: seq<ReportRow>, s: int)
    requires s in StudentPass(rows)
    ensures StudentPass(rows)[s].total == SumScores(RowsOf(rows, s))
  {
    var init, last := rows[..|rows| - 1], rows[|rows| - 1];
    if s in StudentPass(init) {
      TotalIsSumOfRows(init, s);
    } else {
      RowsOfAbsent(init, s);
    }
    if last.studentId == s {
      assert RowsOf(rows, s) == RowsOf(init, s) + [last];
      SumScoresSnoc(RowsOf(init, s), last);
    }
  }

  /** The test ids of some rows, one per row. */
  function TestIdsOf(rows: seq<ReportRow>): seq<int>
  {
    if rows == [] then [] else TestIdsOf(rows[..|rows| - 1]) + [rows[|rows| - 1].testId]
  }

  /** Sum of the displayed cells for the given tests. */
  function SumDisplayed(e: StudentEntry, ts: seq<int>): int
  {
    if ts == [] then 0 else SumDisplayed(e, ts[..|ts| - 1]) + DisplayedScore(e, ts[|ts| - 1])
  }

  lemma {:induction false} SumDisplayedOutside(e: StudentEntry, ts: seq<int>, t: int, v: int, tot: int)
    requires t !in ts
    ensures SumDisplayed(e.(scores := e.scores[t := v], total := tot), ts) == SumDisplayed(e, ts)
  {
    if ts != [] {
      SumDisplayedOutside(e, ts[..|ts| - 1], t, v, tot);
    }
  }

  lemma SumDisplayedSnoc(e: StudentEntry, ts: seq<int>, t: int)
    ensures SumDisplayed(e, ts + [t]) == SumDisplayed(e, ts) + DisplayedScore(e, t)
  {
    assert (ts + [t])[..|ts|] == ts;
  }

  /** No (student, test) pair repeats for `s`. */
  predicate NoRepeatedPair(rows: seq<ReportRow>, s: int)
  {
    forall i, j :: 0 <= i < j < |rows| && rows[i].studentId == s && rows[j].studentId == s ==>
      rows[i].testId != rows[j].testId
  }

  /** Without repeated pairs, `total` equals the sum of the student's score
      cells over the tests the student took. */
  lemma {:induction false} TotalMatchesScoresWithoutRepeats(rows: seq<ReportRow>, s: int)
    requires s in StudentPass(rows)
    requires NoRepeatedPair(rows, s)
    ensures StudentPass(rows)[s].total == SumDisplayed(StudentPass(rows)[s], TestIdsOf(RowsOf(rows, s)))
  {
    var init, last := rows[..|rows| - 1], rows[|rows| - 1];
    assert NoRepeatedPair(init, s) by {
      forall i, j | 0 <= i < j < |init| ensures init[i] == rows[i] && init[j] == rows[j] { }
    }
    if s in StudentPass(init) {
      TotalMatchesScoresWithoutRepeats(init, s);
    } else {
      RowsOfAbsent(init, s);
    }
    if last.studentId == s {
      TotalStep(rows, s);
    }
  }

  /** The step for a last row of student `s` whose test is new for `s`. */
  lemma TotalStep(rows: seq<ReportRow>, s: int)
    requires rows != [] && rows[|rows| - 1].studentId == s
    requires NoRepeatedPair(rows, s)
    requires s in StudentPass(rows[..|rows| - 1]) ==>
      StudentPass(rows[..|rows| - 1])[s].total
        == SumDisplayed(StudentPass(rows[..|rows| - 1])[s], TestIdsOf(RowsOf(rows[..|rows| - 1], s)))
    requires s !in StudentPass(rows[..|rows| - 1]) ==> RowsOf(rows[..|rows| - 1], s) == []
    ensures StudentPass(rows)[s].total == SumDisplayed(StudentPass(rows)[s], TestIdsOf(RowsOf(rows, s)))
  {
    var init, last := rows[..|rows| - 1], rows[|rows| - 1];
    var m := StudentPass(init);
    var e := if s in m then m[s] else StudentEntry(s, last.studentName, map[], 0);
    var e' := e.(scores := e.scores[last.testId := last.score], total := e.total + last.score);
    assert StudentPass(rows)[s] == e';
    var rs := RowsOf(init, s);
    var before := TestIdsOf(rs);
    assert e.total == SumDisplayed(e, before);
    forall i | 0 <= i < |init| && init[i].studentId == s
      ensures init[i].testId != last.testId
    {
      assert init[i] == rows[i];
    }
    TestIdsOfRowsOf(init, s, last.testId);
    SumDisplayedOutside(e, before, last.testId, last.score, e.total + last.score);
    SumDisplayedSnoc(e', before, last.testId);
    assert RowsOf(rows, s) == rs + [last];
    assert (rs + [last])[..|rs|] == rs;
    assert TestIdsOf(RowsOf(rows, s)) == before + [last.testId];
  }

  /** Under the no-repeat assumption, the last row's test is new for `s`. */
  lemma {:induction false} TestIdsOfRowsOf(init: seq<ReportRow>, s: int, t: int)
    requires forall i :: 0 <= i < |init| && init[i].studentId == s ==> init[i].testId != t
    ensures t !in TestIdsOf(RowsOf(init, s))
  {
    if init != [] {
      var rs := RowsOf(init[..|init| - 1], s);
      TestIdsOfRowsOf(init[..|init| - 1], s, t);
      if init[|init| - 1].studentId == s {
        assert RowsOf(init, s) == rs + [init[|init| - 1]];
        assert (rs + [init[|init| - 1]])[..|rs|] == rs;
      }
    }
  }

  /** A repeated (student, test) pair counts twice in `total` but once in
      `scores`. */
  lemma RepeatedPairCountsTwice()
    ensures var rows := [ReportRow(3, Str("Quiz"), 1, Str("Ann"), 40),
                         ReportRow(3, Str("Quiz"), 1, Str("Ann"), 70)];
            StudentPass(rows)[1].total == 110 && StudentPass(rows)[1].scores == map[3 := 70]
  {
    var rows := [ReportRow(3, Str("Quiz"), 1, Str("Ann"), 40),
                 ReportRow(3, Str("Quiz"), 1, Str("Ann"), 70)];
    assert rows[..1] == [rows[0]];
    assert rows[..1][..0] == [];
  }
}
