/** The student-mapping screen: a company/course/training picker, a list of the
    company's students with a per-student "mapped" record, a selection the
    user toggles, and the map/unmap lists it submits. */
module StudentMapping {
  import opened JsCore

  /** A row of the GET mapped/unmapped students answer. */
  datatype StudentRow = StudentRow(userId: nat, username: string, hasTrainingRecord: string)

  /** One property of the `studentRecords` object. JavaScript stores the key
      as the decimal string of the user id; `Key` gives that string. */
  datatype Entry = Entry(userId: nat, mapped: bool)

  function Key(e: Entry): string
  {
    NatToString(e.userId)
  }

  /** `studentRecords[key]`: a missing key reads `undefined`, which is falsy. */
  predicate Mapped(records: seq<Entry>, key: string)
  {
    exists i :: 0 <= i < |records| && Key(records[i]) == key && records[i].mapped
  }

  predicate DistinctKeys(records: seq<Entry>)
  {
    forall i, j :: 0 <= i < j < |records| ==> Key(records[i]) != Key(records[j])
  }

  // ---------------------------------------------------------------------------
  // fetchStudents: the records object
  // ---------------------------------------------------------------------------

  /** `records[user_id] = mapped`: overwrite the property if it exists, add it
      at the end otherwise. */
  function SetRecord(records: seq<Entry>, userId: nat, mapped: bool): seq<Entry>
  {
    if exists i :: 0 <= i < |records| && Key(records[i]) == NatToString(userId) then
      seq(|records|, i requires 0 <= i < |records| =>
        if Key(records[i]) == NatToString(userId) then Entry(userId, mapped) else records[i])
    else records + [Entry(userId, mapped)]
  }

  /** The object the `forEach` builds from the first `n` students. */
  function RecordsOf(students: seq<StudentRow>): seq<Entry>
  {
    if students == [] then []
    else
      var last := students[|students| - 1];
      SetRecord(RecordsOf(students[..|students| - 1]), last.userId, last.hasTrainingRecord == "Check")
  }

  /** The `forEach` of `fetchStudents`. */
  method FetchRecords(students: seq<StudentRow>) returns (records: seq<Entry>)
    ensures records == RecordsOf(students)
    ensures DistinctKeys(records)
  {
    records := [];
    var i := 0;
    while i < |students|
      invariant 0 <= i <= |students|
      invariant records == RecordsOf(students[..i])
    {
      assert students[..i + 1][..i] == students[..i];
      var s := students[i];
      records := SetRecord(records, s.userId, s.hasTrainingRecord == "Check");
      i := i + 1;
    }
    assert students[..|students|] == students;
    RecordsDistinct(students);
  }

  /** Setting a property changes what that key reads and nothing else. */
  lemma SetRecordReads(records: seq<Entry>, userId: nat, mapped: bool, key: string)
    requires DistinctKeys(records)
    ensures DistinctKeys(SetRecord(records, userId, mapped))
    ensures Mapped(SetRecord(records, userId, mapped), key) ==
      if key == NatToString(userId) then mapped else Mapped(records, key)
  {
    var k := NatToString(userId);
    if exists i :: 0 <= i < |records| && Key(records[i]) == k {
      var i :| 0 <= i < |records| && Key(records[i]) == k;
      SetExistingReads(records, userId, mapped, key, i);
    } else {
      SetNewReads(records, userId, mapped, key);
    }
  }

  lemma SetExistingReads(records: seq<Entry>, userId: nat, mapped: bool, key: string, i: nat)
    requires DistinctKeys(records)
    requires i < |records| && Key(records[i]) == NatToString(userId)
    ensures DistinctKeys(SetRecord(records, userId, mapped))
    ensures Mapped(SetRecord(records, userId, mapped), key) ==
      if key == NatToString(userId) then mapped else Mapped(records, key)
  {
    SetExistingShape(records, userId, mapped, i);
    if key == NatToString(userId) {
      SetExistingOwnKey(records, userId, mapped, i);
    } else {
      SetExistingOtherKey(records, userId, mapped, key, i);
    }
  }

  lemma SetExistingOwnKey(records: seq<Entry>, userId: nat, mapped: bool, i: nat)
    requires DistinctKeys(records)
    requires i < |records| && Key(records[i]) == NatToString(userId)
    requires |SetRecord(records, userId, mapped)| == |records|
    requires SetRecord(records, userId, mapped)[i] == Entry(userId, mapped)
    requires DistinctKeys(SetRecord(records, userId, mapped))
    ensures Mapped(SetRecord(records, userId, mapped), NatToString(userId)) == mapped
  {
    var r := SetRecord(records, userId, mapped);
    var key := NatToString(userId);
    assert Key(r[i]) == key;
    if Mapped(r, key) {
      var j :| 0 <= j < |r| && Key(r[j]) == key && r[j].mapped;
      assert Key(r[j]) == Key(r[i]);
      assert j == i;
    }
  }

  lemma SetExistingOtherKey(records: seq<Entry>, userId: nat, mapped: bool, key: string, i: nat)
    requires i < |records| && Key(records[i]) == NatToString(userId) && key != NatToString(userId)
    requires |SetRecord(records, userId, mapped)| == |records|
    requires forall j :: 0 <= j < |records| && j != i ==> SetRecord(records, userId, mapped)[j] == records[j]
    requires SetRecord(records, userId, mapped)[i] == Entry(userId, mapped)
    ensures Mapped(SetRecord(records, userId, mapped), key) == Mapped(records, key)
  {
    var r := SetRecord(records, userId, mapped);
    if Mapped(records, key) {
      var j :| 0 <= j < |records| && Key(records[j]) == key && records[j].mapped;
      assert r[j] == records[j];
    }
    if Mapped(r, key) {
      var j :| 0 <= j < |r| && Key(r[j]) == key && r[j].mapped;
      assert r[j] == records[j];
    }
  }

  /** Overwriting the existing property at `i` keeps every key in place. */
  lemma SetExistingShape(records: seq<Entry>, userId: nat, mapped: bool, i: nat)
    requires DistinctKeys(records)
    requires i < |records| && Key(records[i]) == NatToString(userId)
    ensures |SetRecord(records, userId, mapped)| == |records|
    ensures SetRecord(records, userId, mapped)[i] == Entry(userId, mapped)
    ensures forall j :: 0 <= j < |records| && j != i ==> SetRecord(records, userId, mapped)[j] == records[j]
    ensures forall j :: 0 <= j < |records| ==> Key(SetRecord(records, userId, mapped)[j]) == Key(records[j])
    ensures DistinctKeys(SetRecord(records, userId, mapped))
  {
    var k := NatToString(userId);
    assert exists i :: 0 <= i < |records| && Key(records[i]) == k;
    var r := seq(|records|, j requires 0 <= j < |records| =>
      if Key(records[j]) == k then Entry(userId, mapped) else records[j]);
    assert SetRecord(records, userId, mapped) == r;
    forall j | 0 <= j < |records| && j != i
      ensures r[j] == records[j]
    {
      if j < i {
        assert Key(records[j]) != Key(records[i]);
      } else {
        assert Key(records[i]) != Key(records[j]);
      }
    }
  }

  lemma SetNewReads(records: seq<Entry>, userId: nat, mapped: bool, key: string)
    requires DistinctKeys(records)
    requires forall i :: 0 <= i < |records| ==> Key(records[i]) != NatToString(userId)
    ensures DistinctKeys(SetRecord(records, userId, mapped))
    ensures Mapped(SetRecord(records, userId, mapped), key) ==
      if key == NatToString(userId) then mapped else Mapped(records, key)
  {
    var r := records + [Entry(userId, mapped)];
    assert SetRecord(records, userId, mapped) == r;
    SetNewDistinct(records, userId, mapped);
    if Mapped(r, key) {
      var j :| 0 <= j < |r| && Key(r[j]) == key && r[j].mapped;
      if j < |records| {
        assert r[j] == records[j];
      }
    }
    if Mapped(records, key) {
      var j :| 0 <= j < |records| && Key(records[j]) == key && records[j].mapped;
      assert r[j] == records[j];
    }
    if key == NatToString(userId) && mapped {
      assert r[|records|] == Entry(userId, mapped);
    }
  }

  /** Appending a new key keeps the keys distinct. */
  lemma SetNewDistinct(records: seq<Entry>, userId: nat, mapped: bool)
    requires DistinctKeys(records)
    requires forall i :: 0 <= i < |records| ==> Key(records[i]) != NatToString(userId)
    ensures DistinctKeys(records + [Entry(userId, mapped)])
  {
    var r := records + [Entry(userId, mapped)];
    forall i, j | 0 <= i < j < |r|
      ensures Key(r[i]) != Key(r[j])
    {
      assert r[i] == records[i];
      if j < |records| {
        assert r[j] == records[j];
      }
    }
  }

  lemma {:induction false} RecordsDistinct(students: seq<StudentRow>)
    ensures DistinctKeys(RecordsOf(students))
  {
    if students != [] {
      var last := students[|students| - 1];
      RecordsDistinct(students[..|students| - 1]);
      SetRecordReads(RecordsOf(students[..|students| - 1]), last.userId, last.hasTrainingRecord == "Check", "");
    }
  }

  /** One step of the loop: a different id keeps what its key reads. */
  lemma RecordStep(students: seq<StudentRow>, id: nat)
    requires students != []
    ensures var last := students[|students| - 1];
      Mapped(RecordsOf(students), NatToString(id)) ==
        if last.userId == id then last.hasTrainingRecord == "Check"
        else Mapped(RecordsOf(students[..|students| - 1]), NatToString(id))
  {
    var init, last := students[..|students| - 1], students[|students| - 1];
    RecordsDistinct(init);
    SetRecordReads(RecordsOf(init), last.userId, last.hasTrainingRecord == "Check", NatToString(id));
    if NatToString(id) == NatToString(last.userId) {
      NatToStringInjective(id, last.userId);
    }
  }

  /** An id that is not in the answer reads as falsy. */
  lemma {:induction false} RecordAbsent(students: seq<StudentRow>, id: nat)
    requires forall i :: 0 <= i < |students| ==> students[i].userId != id
    ensures !Mapped(RecordsOf(students), NatToString(id))
  {
    if students != [] {
      RecordAbsent(students[..|students| - 1], id);
      RecordStep(students, id);
    }
  }

  /** `records[user_id]` is true exactly when that student's last row says
      `'Check'`. */
  lemma {:induction false} RecordFlag(students: seq<StudentRow>, i: nat)
    requires i < |students|
    requires forall j :: i < j < |students| ==> students[j].userId != students[i].userId
    ensures Mapped(RecordsOf(students), NatToString(students[i].userId))
        <==> students[i].hasTrainingRecord == "Check"
  {
    RecordStep(students, students[i].userId);
    if i < |students| - 1 {
      RecordFlag(students[..|students| - 1], i);
    }
  }

  // ---------------------------------------------------------------------------
  // Selection: handleStudentChange and handleCheckAll
  // ---------------------------------------------------------------------------

  /** `prev.includes(id) ? prev.filter(x => x !== id) : [...prev, id]`. */
  function Toggle(prev: seq<nat>, id: nat): (next: seq<nat>)
    ensures id in next <==> id !in prev
    ensures forall x :: x != id ==> (x in next <==> x in prev)
    ensures id !in prev ==> next == prev + [id]
    ensures id in prev ==> IsSubsequence(next, prev)
  {
    if id in prev then
      FilterIsSubsequence((x: nat) => x != id, prev);
      Filter((x: nat) => x != id, prev)
    else prev + [id]
  }

  predicate NoDuplicates(s: seq<nat>)
  {
    forall i, j :: 0 <= i < j < |s| ==> s[i] != s[j]
  }

  /** Toggling an unselected id twice restores the selection exactly. */
  lemma ToggleTwiceRestores(prev: seq<nat>, id: nat)
    requires id !in prev
    ensures Toggle(Toggle(prev, id), id) == prev
  {
    var p := (x: nat) => x != id;
    FilterAppend(p, prev, [id]);
    FilterAll(p, prev);
    assert Filter(p, [id]) == [];
  }

  /** A selected id that is toggled off and on again moves to the end, so the
      selection is not restored unless the id was already last. */
  lemma ToggleTwiceMovesToEnd(prev: seq<nat>, id: nat)
    requires id in prev
    ensures Toggle(Toggle(prev, id), id) == Toggle(prev, id) + [id]
    ensures prev[|prev| - 1] != id ==> Toggle(Toggle(prev, id), id) != prev
  {
    var once := Toggle(prev, id);
    assert id !in once;
    var twice := Toggle(once, id);
    assert twice[|twice| - 1] == id;
  }

  /** Toggling keeps the selection free of repeats. */
  lemma ToggleKeepsNoDuplicates(prev: seq<nat>, id: nat)
    requires NoDuplicates(prev)
    ensures NoDuplicates(Toggle(prev, id))
  {
    if id in prev {
      var idx := FilterEmbedding((x: nat) => x != id, prev);
    }
  }

  /** The ids of the students not recorded as mapped, in list order. */
  function UnmappedIds(students: seq<StudentRow>, records: seq<Entry>): seq<nat>
  {
    if students == [] then []
    else
      var init, s := students[..|students| - 1], students[|students| - 1];
      UnmappedIds(init, records) + (if Mapped(records, NatToString(s.userId)) then [] else [s.userId])
  }

  /** The ids of the listed students, in list order. */
  function UserIds(students: seq<StudentRow>): (ids: seq<nat>)
    ensures |ids| == |students|
    ensures forall i :: 0 <= i < |ids| ==> ids[i] == students[i].userId
  {
    seq(|students|, i requires 0 <= i < |students| => students[i].userId)
  }

  /** `handleCheckAll`. */
  function CheckAll(students: seq<StudentRow>, records: seq<Entry>, checked: bool): (sel: seq<nat>)
    ensures !checked ==> sel == []
    ensures checked ==> forall id :: id in sel <==>
      (exists s :: s in students && s.userId == id) && !Mapped(records, NatToString(id))
    ensures checked ==> IsSubsequence(sel, UserIds(students))
  {
    if checked then
      UnmappedIdsMembers(students, records);
      UnmappedIdsSubsequence(students, records);
      UnmappedIds(students, records)
    else []
  }

  lemma UnmappedIdsSubsequence(students: seq<StudentRow>, records: seq<Entry>)
    ensures IsSubsequence(UnmappedIds(students, records), UserIds(students))
  {
    var idx := UnmappedIdsInOrder(students, records);
  }

  /** The check-all list picks the unmapped students out of the list in list
      order, and skips none of them. */
  lemma {:induction false} UnmappedIdsInOrder(students: seq<StudentRow>, records: seq<Entry>)
    returns (idx: seq<nat>)
    ensures Embedding(idx, UnmappedIds(students, records), UserIds(students))
    ensures forall i :: 0 <= i < |students| && !Mapped(records, NatToString(students[i].userId)) ==>
      i in idx
  {
    if students == [] {
      idx := [];
    } else {
      var init, last := students[..|students| - 1], students[|students| - 1];
      var idx0 := UnmappedIdsInOrder(init, records);
      assert UserIds(students) == UserIds(init) + [last.userId];
      EmbeddingExtend(idx0, UnmappedIds(init, records), UserIds(init), last.userId);
      idx := if Mapped(records, NatToString(last.userId)) then idx0 else idx0 + [|init|];
      forall i | 0 <= i < |init| && !Mapped(records, NatToString(students[i].userId))
        ensures i in idx
      {
        assert init[i] == students[i];
      }
    }
  }

  lemma {:induction false} UnmappedIdsMembers(students: seq<StudentRow>, records: seq<Entry>)
    ensures forall id :: id in UnmappedIds(students, records) <==>
      (exists s :: s in students && s.userId == id) && !Mapped(records, NatToString(id))
  {
    if students != [] {
      var init, last := students[..|students| - 1], students[|students| - 1];
      UnmappedIdsMembers(init, records);
      forall id
        ensures id in UnmappedIds(students, records) <==>
          (exists s :: s in students && s.userId == id) && !Mapped(records, NatToString(id))
      {
        if exists s :: s in students && s.userId == id {
          var s :| s in students && s.userId == id;
          if s != last {
            assert s in init;
          }
        }
        if exists s :: s in init && s.userId == id {
          var s :| s in init && s.userId == id;
          assert s in students;
        }
      }
    }
  }

  // ---------------------------------------------------------------------------
  // handleSubmit: the map and unmap lists
  // ---------------------------------------------------------------------------

  /** `selectedStudents.filter(id => !studentRecords[id])`. */
  function StudentIdsToMap(selected: seq<nat>, records: seq<Entry>): (ids: seq<nat>)
    ensures forall id :: id in ids <==> id in selected && !Mapped(records, NatToString(id))
  {
    Filter((id: nat) => !Mapped(records, NatToString(id)), selected)
  }

  /** The selection as the JavaScript numbers it holds. */
  function AsNumbers(selected: seq<nat>): (vs: seq<JsVal>)
    ensures |vs| == |selected|
    ensures forall i :: 0 <= i < |vs| ==> vs[i] == Num(selected[i])
  {
    seq(|selected|, i requires 0 <= i < |selected| => Num(selected[i]))
  }

  /** `Number(key)` of an `Object.entries` key. */
  function NumberOfKey(e: Entry): nat
  {
    ParseDigits(Key(e))
  }

  function Numbers(entries: seq<Entry>): (ns: seq<nat>)
    ensures |ns| == |entries|
    ensures forall i :: 0 <= i < |ns| ==> ns[i] == NumberOfKey(entries[i])
  {
    seq(|entries|, i requires 0 <= i < |entries| => NumberOfKey(entries[i]))
  }

  /** The unmap list as written: `!selectedStudents.includes(id)` compares the
      string key with the numbers of the selection. */
  function UnmapIdsAsWritten(records: seq<Entry>, selected: seq<nat>): seq<nat>
  {
    Numbers(Filter((e: Entry) => e.mapped && !Includes(AsNumbers(selected), Str(Key(e))), records))
  }

  /** The unmap list as intended: the key is compared as a number. */
  function UnmapIds(records: seq<Entry>, selected: seq<nat>): seq<nat>
  {
    Numbers(Filter((e: Entry) => e.mapped && !Includes(AsNumbers(selected), Num(NumberOfKey(e))), records))
  }

  /** A string key never equals a number, so the written filter keeps every
      mapped record whatever is selected. */
  lemma UnmapAsWrittenIgnoresSelection(records: seq<Entry>, selected: seq<nat>)
    ensures UnmapIdsAsWritten(records, selected) == UnmapIdsAsWritten(records, [])
  {
    FilterSameOn((e: Entry) => e.mapped && !Includes(AsNumbers(selected), Str(Key(e))),
                 (e: Entry) => e.mapped && !Includes(AsNumbers([]), Str(Key(e))), records);
  }

  lemma {:induction false} FilterSameOn(p: Entry -> bool, q: Entry -> bool, s: seq<Entry>)
    requires forall e :: p(e) == q(e)
    ensures Filter(p, s) == Filter(q, s)
  {
    if s != [] {
      FilterSameOn(p, q, s[..|s| - 1]);
    }
  }

  /** The list as written holds every mapped student, selected or not. */
  lemma UnmapAsWrittenMembers(records: seq<Entry>, selected: seq<nat>, id: nat)
    ensures id in UnmapIdsAsWritten(records, selected) <==> Mapped(records, NatToString(id))
  {
    UnmapAsWrittenIgnoresSelection(records, selected);
    FilterSameOn((e: Entry) => e.mapped && !Includes(AsNumbers([]), Str(Key(e))),
                 (e: Entry) => e.mapped && !Includes(AsNumbers([]), Num(NumberOfKey(e))), records);
    UnmapIdsMembers(records, [], id);
  }

  /** A mapped student the user has selected is still unmapped by the code as
      written. */
  lemma SelectedMappedStudentIsUnmapped()
    ensures UnmapIdsAsWritten([Entry(5, true)], [5]) == [5]
    ensures UnmapIds([Entry(5, true)], [5]) == []
  {
    var e := Entry(5, true);
    assert Key(e) == "5";
    assert !Includes(AsNumbers([5]), Str("5"));
    assert Includes(AsNumbers([5]), Num(NumberOfKey(e))) by {
      ParseNatToString(5);
      assert AsNumbers([5])[0] == Num(5);
    }
    assert [e][..0] == [];
  }

  /** The intended list holds exactly the mapped students that are not
      selected. */
  lemma UnmapIdsMembers(records: seq<Entry>, selected: seq<nat>, id: nat)
    ensures id in UnmapIds(records, selected) <==> Mapped(records, NatToString(id)) && id !in selected
  {
    if id in UnmapIds(records, selected) {
      UnmapIdsSound(records, selected, id);
    }
    if Mapped(records, NatToString(id)) && id !in selected {
      UnmapIdsComplete(records, selected, id);
    }
  }

  lemma UnmapIdsSound(records: seq<Entry>, selected: seq<nat>, id: nat)
    requires id in UnmapIds(records, selected)
    ensures Mapped(records, NatToString(id)) && id !in selected
  {
    var p := (e: Entry) => e.mapped && !Includes(AsNumbers(selected), Num(NumberOfKey(e)));
    var f := Filter(p, records);
    var k :| 0 <= k < |f| && NumberOfKey(f[k]) == id;
    var e := f[k];
    assert e in f;
    ParseNatToString(e.userId);
    assert e.userId == id;
    var i :| 0 <= i < |records| && records[i] == e;
    assert Key(records[i]) == NatToString(id);
  }

  lemma UnmapIdsComplete(records: seq<Entry>, selected: seq<nat>, id: nat)
    requires Mapped(records, NatToString(id)) && id !in selected
    ensures id in UnmapIds(records, selected)
  {
    var p := (e: Entry) => e.mapped && !Includes(AsNumbers(selected), Num(NumberOfKey(e)));
    var f := Filter(p, records);
    var i :| 0 <= i < |records| && Key(records[i]) == NatToString(id) && records[i].mapped;
    var e := records[i];
    NatToStringInjective(e.userId, id);
    ParseNatToString(id);
    assert NumberOfKey(e) == id;
    assert p(e);
    assert e in f;
    var k :| 0 <= k < |f| && f[k] == e;
    assert Numbers(f)[k] == id;
  }

  /** A student never appears in both lists, as written or as intended. */
  lemma ListsAreDisjoint(records: seq<Entry>, selected: seq<nat>, id: nat)
    ensures !(id in StudentIdsToMap(selected, records) && id in UnmapIds(records, selected))
    ensures !(id in StudentIdsToMap(selected, records) && id in UnmapIdsAsWritten(records, selected))
  {
    UnmapIdsMembers(records, selected, id);
    if id in UnmapIdsAsWritten(records, selected) {
      var p := (e: Entry) => e.mapped && !Includes(AsNumbers(selected), Str(Key(e)));
      var f := Filter(p, records);
      var k :| 0 <= k < |f| && NumberOfKey(f[k]) == id;
      assert f[k] in f;
      var i :| 0 <= i < |records| && records[i] == f[k];
      ParseNatToString(records[i].userId);
      assert Key(records[i]) == NatToString(id);
    }
  }

  /** The map list keeps the selection's order. */
  lemma StudentIdsInSelectionOrder(selected: seq<nat>, records: seq<Entry>)
    ensures IsSubsequence(StudentIdsToMap(selected, records), selected)
  {
    FilterIsSubsequence((id: nat) => !Mapped(records, NatToString(id)), selected);
  }

  // ---------------------------------------------------------------------------
  // The screen's state and its handlers
  // ---------------------------------------------------------------------------

  /** The body sent to the mapping route. */
  datatype Submission = Submission(training: string, studentIds: seq<nat>, unmapStudentIds: seq<nat>)

  class MappingScreen {
    var selectedCompany: string
    var selectedCourse: string
    var selectedTraining: string
    var students: seq<StudentRow>
    var selectedStudents: seq<nat>
    var studentRecords: seq<Entry>

    ghost predicate Valid()
      reads this
    {
      DistinctKeys(studentRecords)
    }

    constructor ()
      ensures Valid()
      ensures selectedCompany == "" && selectedCourse == "" && selectedTraining == ""
      ensures students == [] && selectedStudents == [] && studentRecords == []
    {
      selectedCompany, selectedCourse, selectedTraining := "", "", "";
      students, selectedStudents, studentRecords := [], [], [];
    }

    /** `handleCompanyChange`: everything below the company is cleared. */
    method CompanyChange(companyId: string)
      modifies this
      ensures Valid()
      ensures selectedCompany == companyId
      ensures selectedCourse == "" && selectedTraining == ""
      ensures students == [] && selectedStudents == [] && studentRecords == []
    {
      selectedCompany := companyId;
      selectedCourse := "";
      selectedTraining := "";
      students := [];
      selectedStudents := [];
      studentRecords := [];
    }

    /** `handleCourseChange`: the company is kept, the rest is cleared. */
    method CourseChange(courseId: string)
      modifies this
      ensures Valid()
      ensures selectedCompany == old(selectedCompany) && selectedCourse == courseId
      ensures selectedTraining == ""
      ensures students == [] && selectedStudents == [] && studentRecords == []
    {
      selectedCourse := courseId;
      selectedTraining := "";
      students := [];
      selectedStudents := [];
      studentRecords := [];
    }

    /** `handleTrainingChange`: the selection and records are cleared; the
        students are fetched when both a company and a training are set. */
    method TrainingChange(trainingId: string) returns (fetch: bool)
      requires Valid()
      modifies this`selectedTraining, this`selectedStudents, this`studentRecords
      ensures Valid()
      ensures selectedTraining == trainingId
      ensures selectedStudents == [] && studentRecords == []
      ensures fetch <==> selectedCompany != "" && trainingId != ""
    {
      selectedTraining := trainingId;
      selectedStudents := [];
      studentRecords := [];
      fetch := selectedCompany != "" && trainingId != "";
    }

    /** A successful `fetchStudents` answer. */
    method StudentsLoaded(rows: seq<StudentRow>)
      modifies this`students, this`studentRecords
      ensures Valid()
      ensures students == rows && studentRecords == RecordsOf(rows)
    {
      students := rows;
      studentRecords := FetchRecords(rows);
    }

    /** `handleStudentChange`. */
    method StudentChange(studentId: nat)
      requires Valid()
      modifies this`selectedStudents
      ensures Valid()
      ensures selectedStudents == Toggle(old(selectedStudents), studentId)
    {
      if studentId in selectedStudents {
        selectedStudents := Filter((x: nat) => x != studentId, selectedStudents);
      } else {
        selectedStudents := selectedStudents + [studentId];
      }
    }

    /** `handleCheckAll`. */
    method CheckAllChanged(checked: bool)
      requires Valid()
      modifies this`selectedStudents
      ensures Valid()
      ensures selectedStudents == CheckAll(students, studentRecords, checked)
    {
      if checked {
        selectedStudents := UnmappedIds(students, studentRecords);
      } else {
        selectedStudents := [];
      }
    }

    /** The body `handleSubmit` sends: its unmap list compares the string
        keys with the numbers of the selection, so it names every mapped
        student, selected or not. */
    method Submit() returns (body: Submission)
      requires Valid()
      ensures body.training == selectedTraining
      ensures body.studentIds == StudentIdsToMap(selectedStudents, studentRecords)
      ensures body.unmapStudentIds == UnmapIdsAsWritten(studentRecords, selectedStudents)
      ensures forall id :: id in body.unmapStudentIds <==> Mapped(studentRecords, NatToString(id))
    {
      body := Submission(selectedTraining, StudentIdsToMap(selectedStudents, studentRecords),
                         UnmapIdsAsWritten(studentRecords, selectedStudents));
      forall id
        ensures id in body.unmapStudentIds <==> Mapped(studentRecords, NatToString(id))
      {
        UnmapAsWrittenMembers(studentRecords, selectedStudents, id);
      }
    }
  }
}
