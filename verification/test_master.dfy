/** The test-master routes: creating a test and ingesting its questions from an
    uploaded file or an inline array (POST), the partial update of a test
    (PUT), and reading a test's questions back (GET by id). The two tables
    `test_master` and `mcq_test_questions` are fields of `TestMasterDb`. */
module TestMaster {
  import opened JsCore

  /** A row of `test_master`. `fromDate`/`toDate` are null until a PUT sets them. */
  datatype TestRow = TestRow(
    testId: int, trainingId: JsVal, testName: JsVal, duration: JsVal,
    fromDate: JsVal, toDate: JsVal)

  /** A row of `mcq_test_questions`: the eight-element array the handler builds
      for each accepted record. */
  datatype Question = Question(
    testId: int, trainingId: JsVal, questionText: JsVal,
    option1: JsVal, option2: JsVal, option3: JsVal, option4: JsVal,
    correctAnswer: JsVal)
  {
    /** The array `[test_id, training_id, question_text, option_1..4, correct_answer]`. */
    function Fields(): (f: seq<JsVal>)
      ensures |f| == 8 && f[0] == Num(testId) && f[1] == trainingId
    {
      [Num(testId), trainingId, questionText, option1, option2, option3, option4, correctAnswer]
    }
  }

  /** The uploaded file: its original name and the records the CSV parser or
      `sheet_to_json` yields for it, one field map per data row, keyed by the
      header row. The records are not used for any other format. */
  datatype UploadedFile = UploadedFile(originalName: string, rows: seq<JsObject>)

  /** The `questions` member of the body: an array of records, or anything else.
      An array element that is not an object reads every field as undefined. */
  datatype QuestionsField = NonArray(v: JsVal) | QuestionArray(items: seq<JsObject>)

  datatype PostRequest = PostRequest(
    trainingId: JsVal, testName: JsVal, duration: JsVal,
    questions: QuestionsField, file: Option<UploadedFile>)

  datatype FieldStatus = Required | Present

  /** The response of POST /test-master. */
  datatype PostResult =
    | MissingFields(trainingId: FieldStatus, testName: FieldStatus, duration: FieldStatus)
    | DuplicateName
    | UnsupportedFormat
    | NoInput
    | NoValidInCsv
    | NoValidInExcel
    | NoValidQuestions
    | ServerError
    | Created
  {
    function Status(): (code: int)
      ensures code == 201 <==> Created?
      ensures code == 500 <==> ServerError?
      ensures code == 201 || code == 400 || code == 500
    {
      match this
      case Created => 201
      case ServerError => 500
      case _ => 400
    }
  }

  /** What happens after the test row exists: the response, and the question
      rows written by the single batch insert. */
  datatype IngestOutcome = IngestOutcome(result: PostResult, inserted: seq<Question>)

  function Mark(v: JsVal): (s: FieldStatus)
    ensures s == Required <==> !Truthy(v)
  {
    if Truthy(v) then Present else Required
  }

  predicate RequiredPresent(req: PostRequest)
  {
    Truthy(req.trainingId) && Truthy(req.testName) && Truthy(req.duration)
  }

  predicate NameTaken(tests: seq<TestRow>, name: JsVal)
  {
    exists i :: 0 <= i < |tests| && tests[i].testName == name
  }

  predicate HasTest(tests: seq<TestRow>, testId: int)
  {
    exists i :: 0 <= i < |tests| && tests[i].testId == testId
  }

  function NewTest(testId: int, req: PostRequest): TestRow
  {
    TestRow(testId, req.trainingId, req.testName, req.duration, Null, Null)
  }

  /** `name.split('.').pop()`: the text after the last dot, or the whole name
      when it has no dot. */
  function AfterLastDot(name: string): (r: string)
    ensures |r| <= |name| && r == name[|name| - |r|..]
    ensures '.' !in r
    ensures |r| < |name| ==> name[|name| - |r| - 1] == '.'
  {
    if name == [] then []
    else if name[|name| - 1] == '.' then []
    else AfterLastDot(name[..|name| - 1]) + [name[|name| - 1]]
  }

  /** The lower-cased last extension the handler dispatches on. */
  function FileExtension(name: string): (ext: string)
    ensures |ext| <= |name|
    ensures '.' !in ext
  {
    ToLower(AfterLastDot(name))
  }

  /** The truthiness test on the six record fields (CSV, XLSX and inline). */
  predicate RecordComplete(o: JsObject)
  {
    && Truthy(Get(o, "question_text"))
    && Truthy(Get(o, "option_1"))
    && Truthy(Get(o, "option_2"))
    && Truthy(Get(o, "option_3"))
    && Truthy(Get(o, "option_4"))
    && Truthy(Get(o, "correct_answer"))
  }

  function ToQuestion(o: JsObject, testId: int, trainingId: JsVal): Question
  {
    Question(testId, trainingId, Get(o, "question_text"), Get(o, "option_1"),
             Get(o, "option_2"), Get(o, "option_3"), Get(o, "option_4"),
             Get(o, "correct_answer"))
  }

  /** The rows a CSV or XLSX upload contributes: complete records, in order,
      incomplete ones dropped without error. */
  function FileCandidates(rows: seq<JsObject>, testId: int, trainingId: JsVal): (r: seq<Question>)
    ensures |r| <= |rows|
    ensures forall q :: q in r ==> q.testId == testId && q.trainingId == trainingId
  {
    if rows == [] then []
    else
      var init, last := FileCandidates(rows[..|rows| - 1], testId, trainingId), rows[|rows| - 1];
      if RecordComplete(last) then init + [ToQuestion(last, testId, trainingId)] else init
  }

  /** The inline array: every element complete, or the whole call throws. */
  function InlineCandidates(items: seq<JsObject>, testId: int, trainingId: JsVal): (r: Option<seq<Question>>)
    ensures r.None? <==> exists i :: 0 <= i < |items| && !RecordComplete(items[i])
    ensures r.Some? ==> |r.value| == |items|
    ensures r.Some? ==> forall i :: 0 <= i < |items| ==> r.value[i] == ToQuestion(items[i], testId, trainingId)
  {
    if exists i :: 0 <= i < |items| && !RecordComplete(items[i]) then None
    else Some(seq(|items|, i requires 0 <= i < |items| => ToQuestion(items[i], testId, trainingId)))
  }

  /** `question.every(field => field !== null && field !== undefined && field !== '')`. */
  predicate RowNotBlank(q: Question)
  {
    forall i :: 0 <= i < |q.Fields()| ==> NotBlank(q.Fields()[i])
  }

  /** The second filtering pass of `insertQuestions`. */
  function ValidQuestions(qs: seq<Question>): (r: seq<Question>)
    ensures |r| <= |qs|
    ensures forall q :: q in r <==> q in qs && RowNotBlank(q)
    ensures IsSubsequence(r, qs)
    ensures forall q :: multiset(r)[q] == if RowNotBlank(q) then multiset(qs)[q] else 0
  {
    FilterIsSubsequence(RowNotBlank, qs);
    FilterMultiset(RowNotBlank, qs);
    Filter(RowNotBlank, qs)
  }

  /** `insertQuestions`: 400 when nothing survives, else one batch insert and 201. */
  function Persist(qs: seq<Question>): (o: IngestOutcome)
    ensures o.result == Created || o.result == NoValidQuestions
    ensures o.result == Created <==> o.inserted != []
    ensures o.result == Created <==> exists q :: q in qs && RowNotBlank(q)
    ensures o.result == Created ==> o.inserted == ValidQuestions(qs)
    ensures o.result == NoValidQuestions ==> o.inserted == []
  {
    var valid := ValidQuestions(qs);
    if |valid| == 0 then IngestOutcome(NoValidQuestions, [])
    else IngestOutcome(Created, valid)
  }

  /** The four ways the handler treats an upload. */
  datatype Format = Csv | Xlsx | Document | Unsupported

  /** The `if`/`else if` chain over the extension. */
  function FormatOf(ext: string): (f: Format)
    ensures f == Csv <==> ext == "csv"
    ensures f == Xlsx <==> ext == "xlsx"
    ensures f == Document <==> ext == "pdf" || ext == "docx"
  {
    if ext == "csv" then Csv
    else if ext == "xlsx" then Xlsx
    else if ext == "pdf" || ext == "docx" then Document
    else Unsupported
  }

  /** `insertQuestions([])` answers "No valid questions" and inserts nothing. */
  lemma NothingToPersist()
    ensures Persist([]) == IngestOutcome(NoValidQuestions, [])
    ensures Outcome(Extracted([], NoValidQuestions)) == IngestOutcome(NoValidQuestions, [])
  {
    assert ValidQuestions([]) == [];
  }

  /** What the dispatch hands on: a rejection before any row is looked at, or
      the extracted rows with the response given when there are none. */
  datatype Extraction =
    | Rejected(result: PostResult)
    | Extracted(rows: seq<Question>, whenEmpty: PostResult)

  /** The dispatch: a file wins over the inline array; the file goes by its
      lower-cased last extension. PDF and Word text is read but yields no rows,
      so those reach `insertQuestions` with nothing. */
  function Extract(req: PostRequest, testId: int): (e: Extraction)
    ensures e.Extracted? ==> forall q :: q in e.rows ==> q.testId == testId && q.trainingId == req.trainingId
  {
    if req.file.Some? then ExtractFile(req.file.value, testId, req.trainingId)
    else if req.questions.QuestionArray? && |req.questions.items| > 0 then
      match InlineCandidates(req.questions.items, testId, req.trainingId)
      case None => Rejected(ServerError)
      case Some(c) => Extracted(c, NoValidQuestions)
    else
      Rejected(NoInput)
  }

  /** An upload goes by its lower-cased last extension. */
  function ExtractFile(f: UploadedFile, testId: int, trainingId: JsVal): (e: Extraction)
    ensures e.Extracted? ==> forall q :: q in e.rows ==> q.testId == testId && q.trainingId == trainingId
  {
    match FormatOf(FileExtension(f.originalName))
    case Csv => Extracted(FileCandidates(f.rows, testId, trainingId), NoValidInCsv)
    case Xlsx => Extracted(FileCandidates(f.rows, testId, trainingId), NoValidInExcel)
    case Document => Extracted([], NoValidQuestions)
    case Unsupported => Rejected(UnsupportedFormat)
  }

  /** Everything the POST handler does once the test row `testId` is inserted.
      (An empty inline array never gets here, and `insertQuestions` of no rows
      answers "No valid questions", so testing for emptiness first changes
      nothing for PDF, Word and inline input.) */
  function Ingest(req: PostRequest, testId: int): (o: IngestOutcome)
  {
    Outcome(Extract(req, testId))
  }

  /** The answer and the inserted rows for what the dispatch handed on. */
  function Outcome(e: Extraction): (o: IngestOutcome)
  {
    match e
    case Rejected(r) => IngestOutcome(r, [])
    case Extracted(c, whenEmpty) =>
      if |c| == 0 then IngestOutcome(whenEmpty, []) else Persist(c)
  }

  /** The CSV `data` callback and the XLSX `forEach`: push each complete row. */
  method CollectFileRows(rows: seq<JsObject>, testId: int, trainingId: JsVal)
    returns (combined: seq<Question>)
    ensures combined == FileCandidates(rows, testId, trainingId)
  {
    combined := [];
    var i := 0;
    while i < |rows|
      invariant 0 <= i <= |rows|
      invariant combined == FileCandidates(rows[..i], testId, trainingId)
    {
      var row := rows[i];
      if RecordComplete(row) {
        combined := combined + [ToQuestion(row, testId, trainingId)];
      }
      assert rows[..i + 1][..i] == rows[..i];
      i := i + 1;
    }
    assert rows[..|rows|] == rows;
  }

  // ---------------------------------------------------------------------------
  // Properties of the ingestion pipeline

  /** Every persisted question belongs to the new test and has all eight
      fields non-blank. */
  lemma IngestInsertsOnlyValidRows(req: PostRequest, testId: int)
    ensures var o := Ingest(req, testId);
      forall q :: q in o.inserted ==> q.testId == testId && q.trainingId == req.trainingId && RowNotBlank(q)
    ensures Ingest(req, testId).result == Created <==> Ingest(req, testId).inserted != []
    ensures var e := Extract(req, testId);
      e.Rejected? ==> Ingest(req, testId) == IngestOutcome(e.result, [])
    ensures var e := Extract(req, testId);
      e.Extracted? ==> (Ingest(req, testId).result == Created <==> exists q :: q in e.rows && RowNotBlank(q))
    ensures var e := Extract(req, testId);
      e.Extracted? && Ingest(req, testId).result == Created ==> Ingest(req, testId).inserted == ValidQuestions(e.rows)
  {
    var e := Extract(req, testId);
    if e.Extracted? && |e.rows| > 0 {
      assert Ingest(req, testId) == Persist(e.rows);
    }
  }

  /** An attached file decides the outcome; the inline array is not looked at. */
  lemma FileTakesPrecedence(req: PostRequest, other: QuestionsField, testId: int)
    requires req.file.Some?
    ensures Ingest(req, testId) == Ingest(req.(questions := other), testId)
  {
  }

  /** Only csv, xlsx, pdf and docx are accepted; anything else is a 400 with no rows. */
  lemma UnsupportedExtension(req: PostRequest, testId: int)
    requires req.file.Some?
    requires FileExtension(req.file.value.originalName) !in ["csv", "xlsx", "pdf", "docx"]
    ensures Ingest(req, testId) == IngestOutcome(UnsupportedFormat, [])
  {
    var ext := FileExtension(req.file.value.originalName);
    assert ext != "csv" && ext != "xlsx" && ext != "pdf" && ext != "docx";
    assert FormatOf(ext) == Unsupported;
  }

  /** PDF and Word documents contribute no rows and always end in "No valid questions". */
  lemma DocumentsYieldNoQuestions(req: PostRequest, testId: int)
    requires req.file.Some?
    requires FileExtension(req.file.value.originalName) in ["pdf", "docx"]
    ensures Ingest(req, testId) == IngestOutcome(NoValidQuestions, [])
  {
    var ext := FileExtension(req.file.value.originalName);
    assert ext != "csv" && ext != "xlsx";
    assert FormatOf(ext) == Document;
    assert ValidQuestions([]) == [];
  }

  /** The dispatch key is the text after the last dot, lower-cased. */
  lemma {:induction false} ExtensionAfterLastDot(prefix: string, ext: string)
    requires '.' !in ext
    ensures FileExtension(prefix + "." + ext) == ToLower(ext)
  {
    AfterLastDotOfSuffix(prefix + ".", ext);
  }

  /** A name without a dot is its own extension: a file named `CSV` dispatches as CSV. */
  lemma {:induction false} NameWithoutDot(name: string)
    requires '.' !in name
    ensures FileExtension(name) == ToLower(name)
  {
    AfterLastDotOfSuffix([], name);
    assert [] + name == name;
  }

  lemma {:induction false} AfterLastDotOfSuffix(p: string, e: string)
    requires '.' !in e
    requires p == [] || p[|p| - 1] == '.'
    ensures AfterLastDot(p + e) == e
    decreases |e|
  {
    if e == [] {
      assert p + e == p;
    } else {
      var init, c := e[..|e| - 1], e[|e| - 1];
      assert p + e == (p + init) + [c];
      AfterLastDotOfSuffix(p, init);
      AfterLastDotSnoc(p + init, c);
      assert init + [c] == e;
    }
  }

  lemma AfterLastDotSnoc(s: string, c: char)
    requires c != '.'
    ensures AfterLastDot(s + [c]) == AfterLastDot(s) + [c]
  {
    assert (s + [c])[..|s|] == s;
  }

  /** On rows built by the extractors (truthy fields, truthy training id) the
      second filtering pass keeps everything. */
  lemma {:induction false} SecondPassIsIdentityOnFileRows(rows: seq<JsObject>, testId: int, trainingId: JsVal)
    requires Truthy(trainingId)
    ensures ValidQuestions(FileCandidates(rows, testId, trainingId)) == FileCandidates(rows, testId, trainingId)
  {
    var c := FileCandidates(rows, testId, trainingId);
    forall i | 0 <= i < |c| ensures RowNotBlank(c[i]) {
      assert c[i] in c;
      CandidateFromCompleteRow(rows, testId, trainingId, c[i]);
    }
    FilterAll(RowNotBlank, c);
  }

  lemma {:induction false} CandidateFromCompleteRow(rows: seq<JsObject>, testId: int, trainingId: JsVal, q: Question)
    requires Truthy(trainingId)
    requires q in FileCandidates(rows, testId, trainingId)
    ensures RowNotBlank(q)
  {
    var init := rows[..|rows| - 1];
    if q in FileCandidates(init, testId, trainingId) {
      CandidateFromCompleteRow(init, testId, trainingId, q);
    } else {
      CompleteRecordNotBlank(rows[|rows| - 1], testId, trainingId);
    }
  }

  lemma CompleteRecordNotBlank(o: JsObject, testId: int, trainingId: JsVal)
    requires RecordComplete(o) && Truthy(trainingId)
    ensures RowNotBlank(ToQuestion(o, testId, trainingId))
  {
    var f := ToQuestion(o, testId, trainingId).Fields();
    forall i | 0 <= i < |f| ensures NotBlank(f[i]) {
      TruthyIsNotBlank(f[i]);
    }
  }

  /** The positions of the complete records of an upload, in order. */
  function CompleteIndices(rows: seq<JsObject>): (idx: seq<nat>)
    ensures forall k :: 0 <= k < |idx| ==> idx[k] < |rows| && RecordComplete(rows[idx[k]])
  {
    if rows == [] then []
    else
      var n := |rows| - 1;
      if RecordComplete(rows[n]) then CompleteIndices(rows[..n]) + [n] else CompleteIndices(rows[..n])
  }

  /** CSV/XLSX rows: the candidates are the complete records, one for one and
      in source order. */
  lemma {:induction false} FileCandidatesAreCompleteRows(rows: seq<JsObject>, testId: int, trainingId: JsVal)
    ensures var c, idx := FileCandidates(rows, testId, trainingId), CompleteIndices(rows);
      |idx| == |c| && forall k :: 0 <= k < |idx| ==> c[k] == ToQuestion(rows[idx[k]], testId, trainingId)
  {
    if rows != [] {
      var n, init := |rows| - 1, rows[..|rows| - 1];
      FileCandidatesAreCompleteRows(init, testId, trainingId);
      var c0, idx0 := FileCandidates(init, testId, trainingId), CompleteIndices(init);
      var c, idx := FileCandidates(rows, testId, trainingId), CompleteIndices(rows);
      if RecordComplete(rows[n]) {
        assert c == c0 + [ToQuestion(rows[n], testId, trainingId)] && idx == idx0 + [n];
      } else {
        assert c == c0 && idx == idx0;
      }
      forall k | 0 <= k < |idx|
        ensures c[k] == ToQuestion(rows[idx[k]], testId, trainingId)
      {
        if k < |idx0| {
          assert c[k] == c0[k] && idx[k] == idx0[k];
          assert init[idx0[k]] == rows[idx0[k]];
        }
      }
    }
  }

  /** The positions increase, so the candidates keep the upload's order. */
  lemma {:induction false} CompleteIndicesIncrease(rows: seq<JsObject>)
    ensures forall k, l :: 0 <= k < l < |CompleteIndices(rows)| ==> CompleteIndices(rows)[k] < CompleteIndices(rows)[l]
  {
    if rows != [] {
      var n := |rows| - 1;
      var idx0, idx := CompleteIndices(rows[..n]), CompleteIndices(rows);
      CompleteIndicesIncrease(rows[..n]);
      assert forall k :: 0 <= k < |idx0| ==> idx0[k] < n;
      forall k, l | 0 <= k < l < |idx|
        ensures idx[k] < idx[l]
      {
        assert idx[k] == idx0[k];
        if l < |idx0| {
          assert idx[l] == idx0[l];
        } else {
          assert idx[l] == n;
        }
      }
    }
  }

  /** No complete record is skipped. */
  lemma {:induction false} CompleteIndicesComplete(rows: seq<JsObject>, i: nat)
    requires i < |rows| && RecordComplete(rows[i])
    ensures i in CompleteIndices(rows)
  {
    var n := |rows| - 1;
    if i < n {
      assert rows[..n][i] == rows[i];
      CompleteIndicesComplete(rows[..n], i);
    }
  }

  /** A CSV upload: the response is 201 exactly when some record is complete,
      and then every complete record is inserted; otherwise a 400 with no rows. */
  lemma CsvUpload(req: PostRequest, testId: int)
    requires req.file.Some? && FileExtension(req.file.value.originalName) == "csv"
    requires Truthy(req.trainingId)
    ensures var c := FileCandidates(req.file.value.rows, testId, req.trainingId);
      Ingest(req, testId) == if c == [] then IngestOutcome(NoValidInCsv, []) else IngestOutcome(Created, c)
  {
    SecondPassIsIdentityOnFileRows(req.file.value.rows, testId, req.trainingId);
  }

  /** An XLSX upload behaves like a CSV one, with its own 400 message. */
  lemma XlsxUpload(req: PostRequest, testId: int)
    requires req.file.Some? && FileExtension(req.file.value.originalName) == "xlsx"
    requires Truthy(req.trainingId)
    ensures var c := FileCandidates(req.file.value.rows, testId, req.trainingId);
      Ingest(req, testId) == if c == [] then IngestOutcome(NoValidInExcel, []) else IngestOutcome(Created, c)
  {
    SecondPassIsIdentityOnFileRows(req.file.value.rows, testId, req.trainingId);
  }

  /** The inline array is all-or-nothing: one incomplete element makes the
      call throw (a 500) and nothing is inserted; otherwise one row per element,
      in array order. */
  lemma InlineAllOrNothing(req: PostRequest, testId: int)
    requires req.file.None? && req.questions.QuestionArray? && |req.questions.items| > 0
    requires Truthy(req.trainingId)
    ensures var items := req.questions.items;
      (exists i :: 0 <= i < |items| && !RecordComplete(items[i]))
        ==> Ingest(req, testId) == IngestOutcome(ServerError, [])
    ensures var items := req.questions.items;
      (forall i :: 0 <= i < |items| ==> RecordComplete(items[i]))
        ==> Ingest(req, testId).result == Created
            && |Ingest(req, testId).inserted| == |items|
            && forall i :: 0 <= i < |items| ==>
                 Ingest(req, testId).inserted[i] == ToQuestion(items[i], testId, req.trainingId)
  {
    var items := req.questions.items;
    var r := InlineCandidates(items, testId, req.trainingId);
    if r.None? {
      assert Extract(req, testId) == Rejected(ServerError);
    } else {
      var c := r.value;
      assert Extract(req, testId) == Extracted(c, NoValidQuestions);
      forall i | 0 <= i < |c| ensures RowNotBlank(c[i]) {
        CompleteRecordNotBlank(items[i], testId, req.trainingId);
      }
      FilterAll(RowNotBlank, c);
      assert Ingest(req, testId) == IngestOutcome(Created, c);
    }
  }

  /** Without a file and without a non-empty array the answer is "No file or
      questions provided". */
  lemma NoInputProvided(req: PostRequest, testId: int)
    requires req.file.None?
    requires !(req.questions.QuestionArray? && |req.questions.items| > 0)
    ensures Ingest(req, testId) == IngestOutcome(NoInput, [])
  {
  }

  // ---------------------------------------------------------------------------
  // PUT /test-master/:test_id

  /** The body of a PUT; a member left out of the JSON is `Undef`. */
  datatype UpdateBody = UpdateBody(
    trainingId: JsVal, testName: JsVal, fromDate: JsVal, toDate: JsVal, duration: JsVal)

  /** The parameterised UPDATE statement and its parameters. */
  datatype UpdateQuery = UpdateQuery(sql: string, params: seq<JsVal>)

  /** The `k`-th column the handler tests, in its order. */
  function ColumnName(k: nat): string
    requires k < 5
  {
    match k
    case 0 => "training_id"
    case 1 => "test_name"
    case 2 => "from_date"
    case 3 => "to_date"
    case 4 => "duration"
  }

  lemma ColumnNameUnmarked(k: nat)
    requires k < 5
    ensures '?' !in ColumnName(k)
  {
  }

  /** The body member behind the `k`-th column. */
  function ColumnValue(b: UpdateBody, k: nat): JsVal
    requires k < 5
  {
    match k
    case 0 => b.trainingId
    case 1 => b.testName
    case 2 => b.fromDate
    case 3 => b.toDate
    case 4 => b.duration
  }

  /** The supplied (`!== undefined`) columns among the first `k`. */
  function ColumnsUpTo(b: UpdateBody, k: nat): seq<string>
    requires k <= 5
  {
    if k == 0 then []
    else if ColumnValue(b, k - 1) != Undef then ColumnsUpTo(b, k - 1) + [ColumnName(k - 1)]
    else ColumnsUpTo(b, k - 1)
  }

  /** Their values, in the same order. */
  function ValuesUpTo(b: UpdateBody, k: nat): (vs: seq<JsVal>)
    requires k <= 5
    ensures |vs| == |ColumnsUpTo(b, k)|
    ensures forall v :: v in vs ==> v != Undef
  {
    if k == 0 then []
    else if ColumnValue(b, k - 1) != Undef then ValuesUpTo(b, k - 1) + [ColumnValue(b, k - 1)]
    else ValuesUpTo(b, k - 1)
  }

  lemma {:induction false} NoColumnsIff(b: UpdateBody, k: nat)
    requires k <= 5
    ensures ColumnsUpTo(b, k) == [] <==> forall j :: 0 <= j < k ==> ColumnValue(b, j) == Undef
  {
    if k > 0 {
      NoColumnsIff(b, k - 1);
    }
  }

  /** "No fields to update" exactly when all five members are undefined. */
  lemma NothingSupplied(b: UpdateBody)
    ensures SuppliedColumns(b) == [] <==>
      b.trainingId == Undef && b.testName == Undef && b.fromDate == Undef
      && b.toDate == Undef && b.duration == Undef
  {
    NoColumnsIff(b, 5);
    assert ColumnValue(b, 0) == b.trainingId && ColumnValue(b, 1) == b.testName;
    assert ColumnValue(b, 2) == b.fromDate && ColumnValue(b, 3) == b.toDate && ColumnValue(b, 4) == b.duration;
  }

  /** The supplied columns, in the handler's fixed order. */
  function SuppliedColumns(b: UpdateBody): seq<string>
  {
    ColumnsUpTo(b, 5)
  }

  /** Their values, in the same order. */
  function SuppliedValues(b: UpdateBody): (vs: seq<JsVal>)
    ensures |vs| == |SuppliedColumns(b)|
    ensures forall v :: v in vs ==> v != Undef
  {
    ValuesUpTo(b, 5)
  }

  /** One `col = ?, ` piece of `updateFields`. */
  function Assign(col: string): string
  {
    col + " = ?, "
  }

  /** `col = ?, ` for each column: `updateFields` before its trailing comma is cut. */
  function Assignments(cols: seq<string>): string
  {
    if cols == [] then "" else Assignments(cols[..|cols| - 1]) + Assign(cols[|cols| - 1])
  }

  /** `col = ?` for each column, separated by `, `. */
  function SetList(cols: seq<string>): string
    requires cols != []
  {
    if |cols| == 1 then cols[0] + " = ?"
    else SetList(cols[..|cols| - 1]) + ", " + cols[|cols| - 1] + " = ?"
  }

  function UpdateSql(cols: seq<string>): string
    requires cols != []
  {
    "UPDATE test_master SET " + SetList(cols) + " WHERE test_id = ?"
  }

  /** Cutting the last two characters of the assignments gives the SET list. */
  lemma {:induction false} AssignmentsTrailer(cols: seq<string>)
    requires cols != []
    ensures Assignments(cols) == SetList(cols) + ", "
  {
    if |cols| > 1 {
      AssignmentsTrailer(cols[..|cols| - 1]);
    } else {
      assert cols[..0] == [];
    }
  }

  /** A column name has no `?`, so the SET list has one `?` per column. */
  lemma {:induction false} SetListPlaceholders(cols: seq<string>)
    requires cols != []
    requires forall c :: c in cols ==> '?' !in c
    ensures CountChar(SetList(cols), '?') == |cols|
  {
    var last := cols[|cols| - 1];
    assert last in cols;
    ColumnPlaceholder(last);
    if |cols| > 1 {
      var init := cols[..|cols| - 1];
      assert forall c :: c in init ==> c in cols;
      SetListPlaceholders(init);
      CommaHasNone();
      CountThree(SetList(init), ", ", last + " = ?");
      assert SetList(cols) == SetList(init) + ", " + (last + " = ?");
    }
  }

  /** `col = ?` has the one mark. */
  lemma ColumnPlaceholder(col: string)
    requires '?' !in col
    ensures CountChar(col + " = ?", '?') == 1
  {
    NoCharNoCount(col, '?');
    EqualsMarkHasOne();
    CountCharAppend(col, " = ?", '?');
  }

  lemma EqualsMarkHasOne()
    ensures CountChar(" = ?", '?') == 1
  {
    OnlyLastIs(" = ?", '?');
  }

  lemma CommaHasNone()
    ensures CountChar(", ", '?') == 0
  {
    NoCharNoCount(", ", '?');
  }

  lemma CountThree(a: string, b: string, c: string)
    ensures CountChar(a + b + c, '?') == CountChar(a, '?') + CountChar(b, '?') + CountChar(c, '?')
  {
    CountCharAppend(a, b, '?');
    CountCharAppend(a + b, c, '?');
  }

  lemma WhereClausePlaceholder()
    ensures CountChar(" WHERE test_id = ?", '?') == 1
  {
    OnlyLastIs(" WHERE test_id = ?", '?');
  }

  lemma UpdateHeadHasNone()
    ensures CountChar("UPDATE test_master SET ", '?') == 0
  {
    NoCharNoCount("UPDATE test_master SET ", '?');
  }

  /** The statement has one `?` per parameter: the supplied values plus the id. */
  lemma UpdateSqlPlaceholders(cols: seq<string>)
    requires cols != []
    requires forall c :: c in cols ==> '?' !in c
    ensures CountChar(UpdateSql(cols), '?') == |cols| + 1
  {
    UpdateHeadHasNone();
    WhereClausePlaceholder();
    SetClauseCount("UPDATE test_master SET ", " WHERE test_id = ?", cols);
  }

  /** A head without marks, the SET list, a tail with one mark. */
  lemma SetClauseCount(a: string, e: string, cols: seq<string>)
    requires CountChar(a, '?') == 0 && CountChar(e, '?') == 1
    requires cols != []
    requires forall c :: c in cols ==> '?' !in c
    ensures CountChar(a + SetList(cols) + e, '?') == |cols| + 1
  {
    SetListPlaceholders(cols);
    CountThree(a, SetList(cols), e);
  }

  /** Builds `updateFields` and `params` as the handler does; `None` is the
      "No fields to update" answer. */
  method BuildUpdate(b: UpdateBody, testId: JsVal) returns (q: Option<UpdateQuery>)
    ensures q.None? <==> SuppliedColumns(b) == []
    ensures q.Some? ==> q.value.sql == UpdateSql(SuppliedColumns(b))
    ensures q.Some? ==> q.value.params == SuppliedValues(b) + [testId]
    ensures q.Some? ==> CountChar(q.value.sql, '?') == |q.value.params|
  {
    var updateFields, params, cols := CollectFields(b);
    if updateFields == "" {
      assert cols == [] by {
        if cols != [] { AssignmentsTrailer(cols); }
      }
      return None;
    }
    TrimTrailer(cols);
    updateFields := updateFields[..|updateFields| - 2];
    params := params + [testId];
    UpdateSqlPlaceholders(cols);
    q := Some(UpdateQuery("UPDATE test_master SET " + updateFields + " WHERE test_id = ?", params));
  }

  /** The five successive `if (x !== undefined)` appends. */
  method CollectFields(b: UpdateBody) returns (updateFields: string, params: seq<JsVal>, ghost cols: seq<string>)
    ensures cols == SuppliedColumns(b) && params == SuppliedValues(b)
    ensures updateFields == Assignments(cols)
    ensures forall c :: c in cols ==> '?' !in c
  {
    updateFields, params, cols := "", [], [];
    updateFields, params, cols := AddField(updateFields, params, cols, "training_id", b.trainingId, b, 0);
    updateFields, params, cols := AddField(updateFields, params, cols, "test_name", b.testName, b, 1);
    updateFields, params, cols := AddField(updateFields, params, cols, "from_date", b.fromDate, b, 2);
    updateFields, params, cols := AddField(updateFields, params, cols, "to_date", b.toDate, b, 3);
    updateFields, params, cols := AddField(updateFields, params, cols, "duration", b.duration, b, 4);
  }

  /** `updateFields.slice(0, -2)` is the SET list. */
  lemma TrimTrailer(cols: seq<string>)
    requires cols != []
    ensures |Assignments(cols)| >= 2
    ensures Assignments(cols)[..|Assignments(cols)| - 2] == SetList(cols)
  {
    AssignmentsTrailer(cols);
    var full := Assignments(cols);
    assert full[..|full| - 2] == SetList(cols);
  }

  /** One `if (x !== undefined) { updateFields += 'x = ?, '; params.push(x); }` step,
      the `k`-th of the five. */
  method AddField(fields: string, params: seq<JsVal>, ghost cols: seq<string>, col: string, v: JsVal,
                  ghost b: UpdateBody, ghost k: nat)
    returns (fields': string, params': seq<JsVal>, ghost cols': seq<string>)
    requires k < 5 && col == ColumnName(k) && v == ColumnValue(b, k)
    requires cols == ColumnsUpTo(b, k) && params == ValuesUpTo(b, k) && fields == Assignments(cols)
    requires forall c :: c in cols ==> '?' !in c
    ensures cols' == ColumnsUpTo(b, k + 1) && params' == ValuesUpTo(b, k + 1)
    ensures fields' == Assignments(cols')
    ensures forall c :: c in cols' ==> '?' !in c
  {
    ColumnNameUnmarked(k);
    fields', params', cols' := fields, params, cols;
    if v != Undef {
      fields' := fields + Assign(col);
      params' := params + [v];
      AssignmentsSnoc(cols, col);
      cols' := cols + [col];
    }
  }

  lemma AssignmentsSnoc(cols: seq<string>, c: string)
    ensures Assignments(cols + [c]) == Assignments(cols) + Assign(c)
  {
    assert (cols + [c])[..|cols|] == cols;
  }

  /** The row after the UPDATE: supplied columns take the new value, the others
      and the id keep theirs. */
  function ApplyUpdate(t: TestRow, b: UpdateBody): (u: TestRow)
    ensures u.testId == t.testId
    ensures u.trainingId == (if b.trainingId != Undef then b.trainingId else t.trainingId)
    ensures u.testName == (if b.testName != Undef then b.testName else t.testName)
    ensures u.fromDate == (if b.fromDate != Undef then b.fromDate else t.fromDate)
    ensures u.toDate == (if b.toDate != Undef then b.toDate else t.toDate)
    ensures u.duration == (if b.duration != Undef then b.duration else t.duration)
    ensures SuppliedColumns(b) == [] ==> u == t
  {
    NothingSupplied(b);
    TestRow(
      t.testId,
      if b.trainingId != Undef then b.trainingId else t.trainingId,
      if b.testName != Undef then b.testName else t.testName,
      if b.duration != Undef then b.duration else t.duration,
      if b.fromDate != Undef then b.fromDate else t.fromDate,
      if b.toDate != Undef then b.toDate else t.toDate)
  }

  /** `db.query('SELECT * FROM mcq_test_questions WHERE test_id = ?')`. */
  function QuestionsOf(questions: seq<Question>, testId: int): (r: seq<Question>)
    ensures forall q :: q in r <==> q in questions && q.testId == testId
  {
    Filter((q: Question) => q.testId == testId, questions)
  }

  // ---------------------------------------------------------------------------
  // The two tables

  class TestMasterDb {
    var tests: seq<TestRow>
    var questions: seq<Question>
    /** The next AUTO_INCREMENT value of `test_master`. */
    var nextTestId: int

    /** Ids grow with insertion order and stay below the counter; every
        question points at an existing test. */
    ghost predicate Valid()
      reads this
    {
      && (forall i, j :: 0 <= i < j < |tests| ==> tests[i].testId < tests[j].testId)
      && (forall i :: 0 <= i < |tests| ==> tests[i].testId < nextTestId)
      && (forall k :: 0 <= k < |questions| ==> HasTest(tests, questions[k].testId))
    }

    constructor ()
      ensures Valid() && tests == [] && questions == [] && nextTestId == 1
    {
      tests, questions, nextTestId := [], [], 1;
    }

    /** `insertQuestions`: filter, then one batch insert or "No valid questions". */
    method InsertQuestions(qs: seq<Question>) returns (res: PostResult)
      requires Valid()
      requires forall q :: q in qs ==> HasTest(tests, q.testId)
      modifies this`questions
      ensures Valid()
      ensures res == Persist(qs).result
      ensures questions == old(questions) + Persist(qs).inserted
    {
      var valid := ValidQuestions(qs);
      if |valid| == 0 {
        return NoValidQuestions;
      }
      questions := questions + valid;
      res := Created;
    }

    /** POST /test-master. */
    method Post(req: PostRequest) returns (res: PostResult)
      requires Valid()
      modifies this
      ensures Valid()
      ensures !RequiredPresent(req) ==>
        && res == MissingFields(Mark(req.trainingId), Mark(req.testName), Mark(req.duration))
        && tests == old(tests) && questions == old(questions) && nextTestId == old(nextTestId)
      ensures RequiredPresent(req) && NameTaken(old(tests), req.testName) ==>
        && res == DuplicateName
        && tests == old(tests) && questions == old(questions) && nextTestId == old(nextTestId)
      ensures RequiredPresent(req) && !NameTaken(old(tests), req.testName) ==>
        && tests == old(tests) + [NewTest(old(nextTestId), req)]
        && nextTestId == old(nextTestId) + 1
        && res == Ingest(req, old(nextTestId)).result
        && questions == old(questions) + Ingest(req, old(nextTestId)).inserted
    {
      if !Truthy(req.trainingId) || !Truthy(req.testName) || !Truthy(req.duration) {
        return MissingFields(Mark(req.trainingId), Mark(req.testName), Mark(req.duration));
      }
      if NameTaken(tests, req.testName) {
        return DuplicateName;
      }
      var testId := CreateTest(req);
      res := IngestQuestions(req, testId);
    }

    /** `INSERT INTO test_master`: the row is committed before any input is examined. */
    method CreateTest(req: PostRequest) returns (testId: int)
      requires Valid()
      modifies this`tests, this`nextTestId
      ensures Valid()
      ensures testId == old(nextTestId) && nextTestId == testId + 1
      ensures tests == old(tests) + [NewTest(testId, req)]
      ensures HasTest(tests, testId)
    {
      testId := nextTestId;
      tests := tests + [NewTest(testId, req)];
      nextTestId := nextTestId + 1;
      assert tests[|tests| - 1].testId == testId;
      forall k | 0 <= k < |questions| ensures HasTest(tests, questions[k].testId) {
        assert HasTest(old(tests), questions[k].testId);
        var i :| 0 <= i < |old(tests)| && old(tests)[i].testId == questions[k].testId;
        assert tests[i] == old(tests)[i];
      }
    }

    /** The dispatch and extraction branches of the handler, for the test `testId`. */
    method IngestQuestions(req: PostRequest, testId: int) returns (res: PostResult)
      requires Valid() && HasTest(tests, testId)
      modifies this`questions
      ensures Valid()
      ensures res == Ingest(req, testId).result
      ensures questions == old(questions) + Ingest(req, testId).inserted
    {
      if req.file.Some? {
        res := IngestFile(req.file.value, testId, req.trainingId);
      } else if req.questions.QuestionArray? && |req.questions.items| > 0 {
        res := IngestInline(req, testId);
      } else {
        assert Extract(req, testId) == Rejected(NoInput);
        return NoInput;
      }
    }

    /** The file branch: dispatch on the extension. */
    method IngestFile(f: UploadedFile, testId: int, trainingId: JsVal) returns (res: PostResult)
      requires Valid() && HasTest(tests, testId)
      modifies this`questions
      ensures Valid()
      ensures res == Outcome(ExtractFile(f, testId, trainingId)).result
      ensures questions == old(questions) + Outcome(ExtractFile(f, testId, trainingId)).inserted
    {
      var fmt := FormatOf(FileExtension(f.originalName));
      if fmt == Csv {
        var combined := CollectFileRows(f.rows, testId, trainingId);
        assert ExtractFile(f, testId, trainingId) == Extracted(combined, NoValidInCsv);
        res := InsertCollected(combined, testId, NoValidInCsv);
      } else if fmt == Xlsx {
        var combined := CollectFileRows(f.rows, testId, trainingId);
        assert ExtractFile(f, testId, trainingId) == Extracted(combined, NoValidInExcel);
        res := InsertCollected(combined, testId, NoValidInExcel);
      } else if fmt == Document {
        assert ExtractFile(f, testId, trainingId) == Extracted([], NoValidQuestions);
        NothingToPersist();
        res := InsertQuestions([]);
      } else {
        assert ExtractFile(f, testId, trainingId) == Rejected(UnsupportedFormat);
        return UnsupportedFormat;
      }
    }

    /** A CSV or XLSX upload after parsing: its own 400 when no record was
        complete, else `insertQuestions`. */
    method InsertCollected(combined: seq<Question>, testId: int, whenEmpty: PostResult) returns (res: PostResult)
      requires Valid() && HasTest(tests, testId)
      requires forall q :: q in combined ==> q.testId == testId
      modifies this`questions
      ensures Valid()
      ensures res == Outcome(Extracted(combined, whenEmpty)).result
      ensures questions == old(questions) + Outcome(Extracted(combined, whenEmpty)).inserted
    {
      if |combined| == 0 {
        return whenEmpty;
      }
      res := InsertQuestions(combined);
    }

    /** The inline branch: a non-empty `questions` array. */
    method IngestInline(req: PostRequest, testId: int) returns (res: PostResult)
      requires Valid() && HasTest(tests, testId)
      requires req.file.None? && req.questions.QuestionArray? && |req.questions.items| > 0
      modifies this`questions
      ensures Valid()
      ensures res == Ingest(req, testId).result
      ensures questions == old(questions) + Ingest(req, testId).inserted
    {
      var formatted := InlineCandidates(req.questions.items, testId, req.trainingId);
      if formatted.None? {
        assert Extract(req, testId) == Rejected(ServerError);
        return ServerError;
      }
      assert Extract(req, testId) == Extracted(formatted.value, NoValidQuestions);
      assert |formatted.value| > 0;
      res := InsertQuestions(formatted.value);
    }

    /** PUT /test-master/:test_id, with `affectedRows` taken as the number of
        rows the WHERE clause matches. Returns the HTTP status. */
    method Put(testId: int, b: UpdateBody) returns (status: int)
      requires Valid()
      modifies this`tests
      ensures Valid()
      ensures status == 400 <==> SuppliedColumns(b) == []
      ensures status == 404 <==> SuppliedColumns(b) != [] && !HasTest(old(tests), testId)
      ensures status == 200 <==> SuppliedColumns(b) != [] && HasTest(old(tests), testId)
      ensures status != 200 ==> tests == old(tests)
      ensures |tests| == |old(tests)|
      ensures forall i :: 0 <= i < |tests| ==>
        tests[i] == if old(tests)[i].testId == testId then ApplyUpdate(old(tests)[i], b) else old(tests)[i]
    {
      var q := BuildUpdate(b, Num(testId));
      if q.None? {
        return 400;
      }
      if !HasTest(tests, testId) {
        return 404;
      }
      UpdateMatching(testId, b);
      status := 200;
    }

    /** The UPDATE itself: every row with this id takes the supplied values. */
    method UpdateMatching(testId: int, b: UpdateBody)
      requires Valid()
      modifies this`tests
      ensures Valid()
      ensures |tests| == |old(tests)|
      ensures forall i :: 0 <= i < |tests| ==>
        tests[i] == if old(tests)[i].testId == testId then ApplyUpdate(old(tests)[i], b) else old(tests)[i]
    {
      var before := tests;
      assert forall k :: 0 <= k < |questions| ==> HasTest(before, questions[k].testId);
      tests := seq(|before|, i requires 0 <= i < |before| =>
                 if before[i].testId == testId then ApplyUpdate(before[i], b) else before[i]);
      assert forall i :: 0 <= i < |tests| ==> tests[i].testId == before[i].testId;
      assert forall k :: 0 <= k < |questions| ==> HasTest(tests, questions[k].testId) by {
        forall k | 0 <= k < |questions| ensures HasTest(tests, questions[k].testId) {
          var i :| 0 <= i < |before| && before[i].testId == questions[k].testId;
          assert tests[i].testId == before[i].testId;
        }
      }
    }

    /** GET /test-master/:test_id: 404 when no question row has this id. */
    method GetQuestions(testId: int) returns (status: int, rows: seq<Question>)
      ensures forall q :: q in rows <==> q in questions && q.testId == testId
      ensures status == (if rows == [] then 404 else 200)
    {
      rows := QuestionsOf(questions, testId);
      status := if |rows| == 0 then 404 else 200;
    }
  }

  // ---------------------------------------------------------------------------
  // Properties of the tables across calls

  /** After a successful creation the new name is held by exactly one test. */
  lemma {:induction false} CreatedNameIsUnique(before: seq<TestRow>, t: TestRow)
    requires !NameTaken(before, t.testName)
    ensures var after := before + [t];
      forall i, j :: (0 <= i < |after| && 0 <= j < |after| && after[i].testName == t.testName
        && after[j].testName == t.testName) ==> i == j
  {
  }

  /** A freshly created test owns exactly the rows this call inserted: when
      none survived, GET by its id answers 404 although the test row exists. */
  lemma {:induction false} NewTestOwnsOnlyItsRows(existing: seq<Question>, inserted: seq<Question>, testId: int)
    requires forall q :: q in existing ==> q.testId < testId
    requires forall q :: q in inserted ==> q.testId == testId
    ensures QuestionsOf(existing + inserted, testId) == inserted
  {
    FilterAppend((q: Question) => q.testId == testId, existing, inserted);
    FilterNone((q: Question) => q.testId == testId, existing);
    FilterAll((q: Question) => q.testId == testId, inserted);
  }
}
