/** The student-training mapping route: POST inserts (student, training)
    pairs and then deletes the ones to unmap; GET lists a company's users with
    a flag saying whether each is mapped to a training. */
module StudentTrainings {
  import opened JsCore

  /** A row of `student_trainings`. */
  datatype Mapping = Mapping(studentId: int, trainingId: int)

  /** The POST body. `None` is a member left out of the JSON: the two lists
      then default to `[]`; a `training_id` of `None` is undefined or null. */
  datatype MapRequest = MapRequest(
    trainingId: Option<int>, studentIds: Option<seq<int>>, unmapStudentIds: Option<seq<int>>)

  /** The DELETE statement and its parameters. */
  datatype DeleteQuery = DeleteQuery(sql: string, params: seq<int>)

  function OrEmpty(l: Option<seq<int>>): (r: seq<int>)
    ensures l.None? ==> r == []
    ensures l.Some? ==> r == l.value
  {
    if l.Some? then l.value else []
  }

  /** `!training_id` for a numeric or missing id. */
  predicate TrainingIdFalsy(t: Option<int>)
  {
    t.None? || t.value == 0
  }

  /** The request is rejected with 400 when this holds. */
  predicate Invalid(req: MapRequest)
  {
    TrainingIdFalsy(req.trainingId)
    || (|OrEmpty(req.studentIds)| == 0 && |OrEmpty(req.unmapStudentIds)| == 0)
  }

  /** `student_ids.map(student_id => [student_id, training_id])`. */
  function InsertValues(ids: seq<int>, tid: int): (vs: seq<Mapping>)
    ensures |vs| == |ids|
    ensures forall i :: 0 <= i < |ids| ==> vs[i] == Mapping(ids[i], tid)
  {
    seq(|ids|, i requires 0 <= i < |ids| => Mapping(ids[i], tid))
  }

  /** The rows the DELETE removes. */
  predicate Unmapped(m: Mapping, tid: int, unmap: seq<int>)
  {
    m.trainingId == tid && m.studentId in unmap
  }

  /** What survives `DELETE ... WHERE training_id = ? AND student_id IN (...)`. */
  function AfterDelete(rows: seq<Mapping>, tid: int, unmap: seq<int>): (r: seq<Mapping>)
    ensures forall m :: m in r <==> m in rows && !Unmapped(m, tid, unmap)
  {
    Filter((m: Mapping) => !Unmapped(m, tid, unmap), rows)
  }

  /** `unmap_student_ids.map(() => '?').join(',')`. */
  function Placeholders(n: nat): string
  {
    if n == 0 then "" else if n == 1 then "?" else Placeholders(n - 1) + ",?"
  }

  function DeleteSql(n: nat): string
  {
    "DELETE FROM student_trainings " + "WHERE training_id = ?" + " AND student_id IN (" + Placeholders(n) + ")"
  }

  /** The statement and its parameters `[Number(training_id), ...unmap]`. */
  function BuildDelete(tid: int, unmap: seq<int>): (q: DeleteQuery)
    ensures |q.params| == 1 + |unmap|
    ensures q.params[0] == tid && q.params[1..] == unmap
  {
    DeleteQuery(DeleteSql(|unmap|), [tid] + unmap)
  }

  lemma {:induction false} PlaceholderCount(n: nat)
    ensures CountChar(Placeholders(n), '?') == n
  {
    if n == 1 {
      assert Placeholders(1) == "?";
    } else if n > 1 {
      PlaceholderCount(n - 1);
      CountCharAppend(Placeholders(n - 1), ",?", '?');
      OnlyLastIs(",?", '?');
    }
  }

  /** The IN list has one `?` per id to unmap, and the statement one `?` per
      parameter. */
  lemma DeletePlaceholders(tid: int, unmap: seq<int>)
    ensures CountChar(BuildDelete(tid, unmap).sql, '?') == |unmap| + 1
    ensures CountChar(BuildDelete(tid, unmap).sql, '?') == |BuildDelete(tid, unmap).params|
  {
    DeleteSqlCount(|unmap|);
  }

  lemma DeleteSqlCount(n: nat)
    ensures CountChar(DeleteSql(n), '?') == n + 1
  {
    DeleteFromHasNone();
    WhereHasOne();
    InListHeadHasNone();
    CloseHasNone();
    InListCount("DELETE FROM student_trainings ", "WHERE training_id = ?", " AND student_id IN (", ")", n);
  }

  /** A statement around an IN list: the marks of its fixed parts plus one
      per list element. */
  lemma InListCount(a: string, b: string, c: string, e: string, n: nat)
    requires CountChar(a, '?') == 0 && CountChar(b, '?') == 1
    requires CountChar(c, '?') == 0 && CountChar(e, '?') == 0
    ensures CountChar(a + b + c + Placeholders(n) + e, '?') == n + 1
  {
    PlaceholderCount(n);
    CountFive(a, b, c, Placeholders(n), e);
  }

  lemma CloseHasNone()
    ensures CountChar(")", '?') == 0
  {
    NoCharNoCount(")", '?');
  }

  lemma DeleteFromHasNone()
    ensures CountChar("DELETE FROM student_trainings ", '?') == 0
  {
    NoCharNoCount("DELETE FROM student_trainings ", '?');
  }

  lemma WhereHasOne()
    ensures CountChar("WHERE training_id = ?", '?') == 1
  {
    OnlyLastIs("WHERE training_id = ?", '?');
  }

  lemma InListHeadHasNone()
    ensures CountChar(" AND student_id IN (", '?') == 0
  {
    NoCharNoCount(" AND student_id IN (", '?');
  }

  lemma CountFive(a: string, b: string, c: string, d: string, e: string)
    ensures CountChar(a + b + c + d + e, '?')
         == CountChar(a, '?') + CountChar(b, '?') + CountChar(c, '?') + CountChar(d, '?') + CountChar(e, '?')
  {
    CountCharAppend(a, b, '?');
    CountCharAppend(a + b, c, '?');
    CountCharAppend(a + b + c, d, '?');
    CountCharAppend(a + b + c + d, e, '?');
  }

  /** The table after a successful POST: inserts first, then the delete. */
  function AfterPost(rows: seq<Mapping>, tid: int, ids: seq<int>, unmap: seq<int>): seq<Mapping>
  {
    AfterDelete(rows + InsertValues(ids, tid), tid, unmap)
  }

  class MappingTable {
    var rows: seq<Mapping>

    constructor ()
      ensures rows == []
    {
      rows := [];
    }

    /** POST /student_trainings. */
    method Post(req: MapRequest) returns (status: int)
      modifies this
      ensures status == 400 <==> Invalid(req)
      ensures status == 400 ==> rows == old(rows)
      ensures status != 400 ==> status == 201
      ensures status != 400 ==>
        rows == AfterPost(old(rows), req.trainingId.value, OrEmpty(req.studentIds), OrEmpty(req.unmapStudentIds))
    {
      var studentIds := OrEmpty(req.studentIds);
      var unmapIds := OrEmpty(req.unmapStudentIds);
      if TrainingIdFalsy(req.trainingId) || (|studentIds| == 0 && |unmapIds| == 0) {
        return 400;
      }
      var tid := req.trainingId.value;
      if |studentIds| > 0 {
        rows := rows + InsertValues(studentIds, tid);
      } else {
        assert rows + InsertValues(studentIds, tid) == rows;
      }
      if |unmapIds| > 0 {
        var q := BuildDelete(tid, unmapIds);
        rows := AfterDelete(rows, q.params[0], q.params[1..]);
      } else {
        FilterAll((m: Mapping) => !Unmapped(m, tid, unmapIds), rows);
      }
      status := 201;
    }
  }

  /** Rows of other trainings are untouched, in content and order. */
  lemma OtherTrainingsUntouched(rows: seq<Mapping>, tid: int, ids: seq<int>, unmap: seq<int>, other: int)
    requires other != tid
    ensures Filter((m: Mapping) => m.trainingId == other, AfterPost(rows, tid, ids, unmap))
         == Filter((m: Mapping) => m.trainingId == other, rows)
  {
    var keep := (m: Mapping) => !Unmapped(m, tid, unmap);
    var isOther := (m: Mapping) => m.trainingId == other;
    var ins := InsertValues(ids, tid);
    FilterOfFilter(keep, isOther, rows + ins);
    FilterAppend(isOther, rows, ins);
    FilterNone(isOther, ins);
    assert Filter(isOther, rows) + [] == Filter(isOther, rows);
  }

  /** Keeping the rows of another training commutes with the delete. */
  lemma {:induction false} FilterOfFilter(keep: Mapping -> bool, isOther: Mapping -> bool, s: seq<Mapping>)
    requires forall m :: isOther(m) ==> keep(m)
    ensures Filter(isOther, Filter(keep, s)) == Filter(isOther, s)
  {
    if s != [] {
      var init, last := s[..|s| - 1], s[|s| - 1];
      FilterOfFilter(keep, isOther, init);
      FilterAppend(isOther, Filter(keep, init), if keep(last) then [last] else []);
    }
  }

  /** An id in both lists ends with no mapping for this training, because the
      delete runs after the insert. */
  lemma InBothListsEndsUnmapped(rows: seq<Mapping>, tid: int, ids: seq<int>, unmap: seq<int>, sid: int)
    requires sid in ids && sid in unmap
    ensures Mapping(sid, tid) !in AfterPost(rows, tid, ids, unmap)
  {
  }

  /** An id only in the mapping list ends mapped to this training. */
  lemma MappedOnlyEndsMapped(rows: seq<Mapping>, tid: int, ids: seq<int>, unmap: seq<int>, sid: int)
    requires sid in ids && sid !in unmap
    ensures Mapping(sid, tid) in AfterPost(rows, tid, ids, unmap)
  {
    var i :| 0 <= i < |ids| && ids[i] == sid;
    var ins := InsertValues(ids, tid);
    assert ins[i] == Mapping(sid, tid);
    assert (rows + ins)[|rows| + i] == Mapping(sid, tid);
  }

  /** A row survives the POST exactly when it was there or was inserted, and
      is not one of the unmapped pairs. */
  lemma PostMembership(rows: seq<Mapping>, tid: int, ids: seq<int>, unmap: seq<int>, m: Mapping)
    ensures m in AfterPost(rows, tid, ids, unmap) <==>
      (m in rows || (m.trainingId == tid && m.studentId in ids)) && !Unmapped(m, tid, unmap)
  {
    var ins := InsertValues(ids, tid);
    if m.trainingId == tid && m.studentId in ids {
      var i :| 0 <= i < |ids| && ids[i] == m.studentId;
      assert ins[i] == m;
    }
    assert m in ins ==> m.trainingId == tid && m.studentId in ids;
  }

  // ---------------------------------------------------------------------------
  // GET /student_trainings/:cid/:tid
  // ---------------------------------------------------------------------------

  datatype User = User(id: int, username: string, companyId: int)

  /** A row of the LEFT JOIN: `training_id` is null when no mapping matched. */
  datatype JoinRow = JoinRow(
    userId: int, username: string, companyId: int, trainingId: Option<int>, hasTrainingRecord: string)

  /** The joined rows of one user: one `'Check'` row per matching mapping, or
      one `'Uncheck'` row when there is none. */
  function UserRows(u: User, mappings: seq<Mapping>, tid: int): (r: seq<JoinRow>)
    ensures |r| >= 1
    ensures forall j :: 0 <= j < |r| ==> r[j].userId == u.id && r[j].companyId == u.companyId
    ensures Mapping(u.id, tid) in mappings ==>
      forall j :: 0 <= j < |r| ==> r[j].hasTrainingRecord == "Check" && r[j].trainingId == Some(tid)
    ensures Mapping(u.id, tid) !in mappings ==>
      r == [JoinRow(u.id, u.username, u.companyId, None, "Uncheck")]
  {
    var matched := Filter((m: Mapping) => m.studentId == u.id && m.trainingId == tid, mappings);
    if matched == [] then
      [JoinRow(u.id, u.username, u.companyId, None, "Uncheck")]
    else
      assert matched[0] in matched && matched[0] == Mapping(u.id, tid);
      seq(|matched|, j => JoinRow(u.id, u.username, u.companyId, Some(tid), "Check"))
  }

  /** The result set, user by user, for the users of company `cid`. */
  function TrainingRows(users: seq<User>, mappings: seq<Mapping>, cid: int, tid: int): seq<JoinRow>
  {
    if users == [] then []
    else
      var init, u := users[..|users| - 1], users[|users| - 1];
      TrainingRows(init, mappings, cid, tid) + (if u.companyId == cid then UserRows(u, mappings, tid) else [])
  }

  /** 404 `Not Mapped` for an empty result, else 200 with the rows. */
  function GetTrainingRows(users: seq<User>, mappings: seq<Mapping>, cid: int, tid: int): (res: (int, seq<JoinRow>))
    ensures res.0 == 404 <==> TrainingRows(users, mappings, cid, tid) == []
    ensures res.0 != 404 ==> res.0 == 200 && res.1 == TrainingRows(users, mappings, cid, tid)
  {
    var rows := TrainingRows(users, mappings, cid, tid);
    if |rows| == 0 then (404, []) else (200, rows)
  }

  /** Every result row belongs to a user of company `cid`, and is flagged
      `'Check'` exactly when that user is mapped to training `tid`. */
  lemma {:induction false} TrainingRowsFlag(users: seq<User>, mappings: seq<Mapping>, cid: int, tid: int)
    ensures forall r :: r in TrainingRows(users, mappings, cid, tid) ==>
      r.companyId == cid
      && (exists u :: u in users && u.id == r.userId && u.companyId == cid)
      && (r.hasTrainingRecord == "Check" <==> Mapping(r.userId, tid) in mappings)
  {
    if users != [] {
      var init, u := users[..|users| - 1], users[|users| - 1];
      TrainingRowsFlag(init, mappings, cid, tid);
      var rest := if u.companyId == cid then UserRows(u, mappings, tid) else [];
      forall r | r in TrainingRows(users, mappings, cid, tid)
        ensures r.companyId == cid
        ensures exists v :: v in users && v.id == r.userId && v.companyId == cid
        ensures r.hasTrainingRecord == "Check" <==> Mapping(r.userId, tid) in mappings
      {
        if r in TrainingRows(init, mappings, cid, tid) {
          var v :| v in init && v.id == r.userId && v.companyId == cid;
          assert v in users;
        } else {
          assert r in rest;
          assert u in users;
        }
      }
    }
  }

  /** Every user of company `cid` has at least one row. */
  lemma {:induction false} EveryCompanyUserListed(users: seq<User>, mappings: seq<Mapping>, cid: int, tid: int, u: User)
    requires u in users && u.companyId == cid
    ensures exists r :: r in TrainingRows(users, mappings, cid, tid) && r.userId == u.id
  {
    var init, last := users[..|users| - 1], users[|users| - 1];
    if u in init {
      EveryCompanyUserListed(init, mappings, cid, tid, u);
      var r :| r in TrainingRows(init, mappings, cid, tid) && r.userId == u.id;
      assert r in TrainingRows(users, mappings, cid, tid);
    } else {
      assert u == last;
      var rs := UserRows(u, mappings, tid);
      assert rs[0] in TrainingRows(users, mappings, cid, tid);
    }
  }

  /** GET answers 404 exactly when company `cid` has no user. */
  lemma NotFoundIffNoCompanyUser(users: seq<User>, mappings: seq<Mapping>, cid: int, tid: int)
    ensures GetTrainingRows(users, mappings, cid, tid).0 == 404 <==>
      forall u :: u in users ==> u.companyId != cid
  {
    if exists u :: u in users && u.companyId == cid {
      var u :| u in users && u.companyId == cid;
      EveryCompanyUserListed(users, mappings, cid, tid, u);
    } else {
      NoCompanyUserNoRows(users, mappings, cid, tid);
    }
  }

  lemma {:induction false} NoCompanyUserNoRows(users: seq<User>, mappings: seq<Mapping>, cid: int, tid: int)
    requires forall u :: u in users ==> u.companyId != cid
    ensures TrainingRows(users, mappings, cid, tid) == []
  {
    if users != [] {
      var init := users[..|users| - 1];
      assert forall u :: u in init ==> u in users;
      NoCompanyUserNoRows(init, mappings, cid, tid);
      assert users[|users| - 1] in users;
    }
  }
}
