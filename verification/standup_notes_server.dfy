/** The standup-notes route: the admin-only weekly overview that groups each
    active student's notes by day, and create/update/delete over the notes
    table. */
module StandupNotesServer {
  import opened JsCore

  /** `req.user` as the authentication middleware leaves it. */
  datatype AuthUser = AuthUser(id: int, roleId: JsVal)

  /** A row of `standup_notes`. `dateKey` is the note's day as the
      `en-CA` date string the grouping uses; it is treated as opaque. */
  datatype Note = Note(
    id: int, userId: int, dateKey: string,
    yesterdayWork: JsVal, todayPlan: JsVal, blockers: JsVal, updatedAt: int)

  /** An active student (`role_id = 3 AND isactive = 1`). */
  datatype Student = Student(id: int, username: string)

  /** One element of the weekly answer. */
  datatype StudentWeek = StudentWeek(userId: int, username: string, notes: map<string, Note>)

  datatype WeeklyResponse = Forbidden | MissingDates | Weekly(result: seq<StudentWeek>)
  {
    function Status(): (code: int)
      ensures code == 403 <==> this.Forbidden?
      ensures code == 400 <==> this.MissingDates?
      ensures code == 200 <==> this.Weekly?
    {
      match this
      case Forbidden => 403
      case MissingDates => 400
      case Weekly(_) => 200
    }
  }

  // ---------------------------------------------------------------------------
  // GET /weekly
  // ---------------------------------------------------------------------------

  /** `!req.user || req.user.role_id !== 1`. */
  predicate Denied(user: Option<AuthUser>)
  {
    user.None? || user.value.roleId != Num(1)
  }

  /** The map `notesMap[user_id][dateKey] = note` after the given notes. */
  function NotesMapOf(notes: seq<Note>): map<int, map<string, Note>>
  {
    if notes == [] then map[]
    else
      var m, n := NotesMapOf(notes[..|notes| - 1]), notes[|notes| - 1];
      var inner := if n.userId in m then m[n.userId] else map[];
      m[n.userId := inner[n.dateKey := n]]
  }

  /** The `forEach` that groups the notes. */
  method BuildNotesMap(notes: seq<Note>) returns (notesMap: map<int, map<string, Note>>)
    ensures notesMap == NotesMapOf(notes)
  {
    notesMap := map[];
    var i := 0;
    while i < |notes|
      invariant 0 <= i <= |notes|
      invariant notesMap == NotesMapOf(notes[..i])
    {
      assert notes[..i + 1][..i] == notes[..i];
      var note := notes[i];
      if note.userId !in notesMap {
        notesMap := notesMap[note.userId := map[]];
      }
      notesMap := notesMap[note.userId := notesMap[note.userId][note.dateKey := note]];
      i := i + 1;
    }
    assert notes[..|notes|] == notes;
  }

  /** `notesMap[student.id] || {}`. */
  function UserNotes(notesMap: map<int, map<string, Note>>, id: int): map<string, Note>
  {
    if id in notesMap then notesMap[id] else map[]
  }

  /** `students.map(...)`: one element per student, in query order. */
  function WeeklyResult(students: seq<Student>, notesMap: map<int, map<string, Note>>): (result: seq<StudentWeek>)
    ensures |result| == |students|
    ensures forall i :: 0 <= i < |students| ==>
      result[i] == StudentWeek(students[i].id, students[i].username, UserNotes(notesMap, students[i].id))
  {
    seq(|students|, i requires 0 <= i < |students| =>
      StudentWeek(students[i].id, students[i].username, UserNotes(notesMap, students[i].id)))
  }

  /** GET /weekly, with the two query results as inputs. */
  method GetWeekly(user: Option<AuthUser>, start: JsVal, end: JsVal, students: seq<Student>, notes: seq<Note>)
    returns (res: WeeklyResponse)
    ensures Denied(user) <==> res == Forbidden
    ensures Denied(user) ==> res.Status() == 403
    ensures res == MissingDates <==> !Denied(user) && (!Truthy(start) || !Truthy(end))
    ensures res.Weekly? ==> res.result == WeeklyResult(students, NotesMapOf(notes))
  {
    if user.None? || user.value.roleId != Num(1) {
      return Forbidden;
    }
    if !Truthy(start) || !Truthy(end) {
      return MissingDates;
    }
    var notesMap := BuildNotesMap(notes);
    res := Weekly(WeeklyResult(students, notesMap));
  }

  /** Each (user, day) keeps the last note in the list for that pair. */
  lemma {:induction false} LastNoteWins(notes: seq<Note>, i: int)
    requires 0 <= i < |notes|
    requires forall j :: i < j < |notes| ==>
      notes[j].userId != notes[i].userId || notes[j].dateKey != notes[i].dateKey
    ensures notes[i].userId in NotesMapOf(notes)
    ensures notes[i].dateKey in NotesMapOf(notes)[notes[i].userId]
    ensures NotesMapOf(notes)[notes[i].userId][notes[i].dateKey] == notes[i]
  {
    if i < |notes| - 1 {
      LastNoteWins(notes[..|notes| - 1], i);
    }
  }

  /** The grouping holds a user's notes, and only theirs: every stored note
      comes from the list, under its own user and day. */
  lemma {:induction false} NotesMapSound(notes: seq<Note>)
    ensures forall u :: u in NotesMapOf(notes) ==> exists n :: n in notes && n.userId == u
    ensures forall u, k :: u in NotesMapOf(notes) && k in NotesMapOf(notes)[u] ==>
      NotesMapOf(notes)[u][k] in notes
      && NotesMapOf(notes)[u][k].userId == u && NotesMapOf(notes)[u][k].dateKey == k
  {
    if notes != [] {
      var init, last := notes[..|notes| - 1], notes[|notes| - 1];
      NotesMapSound(init);
      assert last in notes;
      forall n | n in init
        ensures n in notes
      {
      }
    }
  }

  /** A user with notes in the list has an entry. */
  lemma {:induction false} NotesMapComplete(notes: seq<Note>, n: Note)
    requires n in notes
    ensures n.userId in NotesMapOf(notes)
    ensures n.dateKey in NotesMapOf(notes)[n.userId]
  {
    var init, last := notes[..|notes| - 1], notes[|notes| - 1];
    if n != last {
      assert n in init;
      NotesMapComplete(init, n);
    }
  }

  /** A student without notes gets `{}`; every note shown belongs to the
      student it is shown under, so notes of non-students never appear. */
  lemma WeeklyNotesBelongToStudent(students: seq<Student>, notes: seq<Note>, i: int)
    requires 0 <= i < |students|
    ensures (forall n :: n in notes ==> n.userId != students[i].id) ==>
      WeeklyResult(students, NotesMapOf(notes))[i].notes == map[]
    ensures forall k :: k in WeeklyResult(students, NotesMapOf(notes))[i].notes ==>
      var n := WeeklyResult(students, NotesMapOf(notes))[i].notes[k];
      n in notes && n.userId == students[i].id && n.dateKey == k
  {
    NotesMapSound(notes);
  }

  /** A note whose user is not a student is in no element of the answer. */
  lemma NonStudentNotesHidden(students: seq<Student>, notes: seq<Note>, n: Note)
    requires forall s :: s in students ==> s.id != n.userId
    ensures forall w, k :: w in WeeklyResult(students, NotesMapOf(notes)) && k in w.notes ==> w.notes[k] != n
  {
    NotesMapSound(notes);
    forall w, k | w in WeeklyResult(students, NotesMapOf(notes)) && k in w.notes
      ensures w.notes[k] != n
    {
      var i :| 0 <= i < |students| && WeeklyResult(students, NotesMapOf(notes))[i] == w;
      assert students[i] in students;
    }
  }

  // ---------------------------------------------------------------------------
  // POST, PUT, DELETE over the notes table
  // ---------------------------------------------------------------------------

  /** The POST body; a `user_id` in it is read by nobody. */
  datatype NoteBody = NoteBody(
    userId: JsVal, dateKey: string, yesterdayWork: JsVal, todayPlan: JsVal, blockers: JsVal)

  predicate HasNote(notes: seq<Note>, id: int)
  {
    exists i :: 0 <= i < |notes| && notes[i].id == id
  }

  /** PUT's effect on one row. */
  function Edited(n: Note, id: int, yesterdayWork: JsVal, todayPlan: JsVal, blockers: JsVal, now: int): (m: Note)
    ensures n.id != id ==> m == n
    ensures n.id == id ==> m == n.(yesterdayWork := yesterdayWork, todayPlan := todayPlan,
                                   blockers := blockers, updatedAt := now)
  {
    if n.id == id then
      n.(yesterdayWork := yesterdayWork, todayPlan := todayPlan, blockers := blockers, updatedAt := now)
    else n
  }

  /** The table after the UPDATE: every row goes through `Edited`, and the
      ids stay where they were. */
  function EditAll(notes: seq<Note>, id: int, yesterdayWork: JsVal, todayPlan: JsVal, blockers: JsVal, now: int)
    : (r: seq<Note>)
    ensures |r| == |notes|
    ensures forall i :: 0 <= i < |r| ==> r[i] == Edited(notes[i], id, yesterdayWork, todayPlan, blockers, now)
    ensures forall i :: 0 <= i < |r| ==> r[i].id == notes[i].id
  {
    seq(|notes|, i requires 0 <= i < |notes| => Edited(notes[i], id, yesterdayWork, todayPlan, blockers, now))
  }

  class NotesTable {
    var notes: seq<Note>
    var nextId: int

    ghost predicate Valid()
      reads this
    {
      forall i :: 0 <= i < |notes| ==> notes[i].id < nextId
    }

    constructor ()
      ensures Valid() && notes == []
    {
      notes := [];
      nextId := 1;
    }

    /** POST: the author is the authenticated user, whatever the body says. */
    method Create(user: AuthUser, body: NoteBody, now: int) returns (status: int, created: Note)
      requires Valid()
      modifies this
      ensures Valid()
      ensures status == 201
      ensures created == Note(old(nextId), user.id, body.dateKey, body.yesterdayWork,
                              body.todayPlan, body.blockers, now)
      ensures notes == old(notes) + [created]
      ensures !HasNote(old(notes), created.id)
    {
      assert forall i :: 0 <= i < |notes| ==> notes[i].id != nextId;
      created := Note(nextId, user.id, body.dateKey, body.yesterdayWork, body.todayPlan, body.blockers, now);
      notes := notes + [created];
      nextId := nextId + 1;
      status := 201;
    }

    /** PUT /:id: only the three text fields and `updated_at` change. */
    method Update(id: int, yesterdayWork: JsVal, todayPlan: JsVal, blockers: JsVal, now: int)
      returns (status: int)
      requires Valid()
      modifies this`notes
      ensures Valid()
      ensures status == 404 <==> !HasNote(old(notes), id)
      ensures status != 404 ==> status == 200
      ensures |notes| == |old(notes)|
      ensures forall i :: 0 <= i < |notes| ==>
        notes[i] == Edited(old(notes)[i], id, yesterdayWork, todayPlan, blockers, now)
    {
      status := if HasNote(notes, id) then 200 else 404;
      var edited := EditAll(notes, id, yesterdayWork, todayPlan, blockers, now);
      notes := edited;
    }

    /** DELETE /:id. */
    method Delete(id: int) returns (status: int)
      requires Valid()
      modifies this`notes
      ensures Valid()
      ensures status == 404 <==> !HasNote(old(notes), id)
      ensures status != 404 ==> status == 200
      ensures notes == Filter((n: Note) => n.id != id, old(notes))
      ensures !HasNote(notes, id)
    {
      var before := notes;
      notes := Filter((n: Note) => n.id != id, notes);
      status := if HasNote(before, id) then 200 else 404;
      forall i | 0 <= i < |notes|
        ensures notes[i].id != id && notes[i].id < nextId
      {
        assert notes[i] in notes;
        var j :| 0 <= j < |before| && before[j] == notes[i];
      }
    }
  }
}
